/** Reading a written value gives the value back, through comments, padding, nesting and every escape. */
module TomlRoundTrip {
  import opened Common
  import opened TomlScan
  import opened TomlValue

  // ----- Texts the scans pass over whole -----

  function EndOf(t: string, p: Place): Place {
    if t == "" then p else EndOf(t[1..], Step(p, t[0]))
  }

  /** Read from `p`, the text holds no comment sign and no cutting comma. */
  predicate Sealed(t: string, p: Place) {
    t != "" ==>
      && (t[0] == '#' ==> p.scan.inString)
      && !Cuts(p, t[0])
      && Sealed(t[1..], Step(p, t[0]))
  }

  /** The text is sealed from the top and leaves the scan where it was. */
  predicate Passes(t: string, depth: int) {
    Sealed(t, Top(depth)) && EndOf(t, Top(depth)) == Top(depth)
  }

  lemma {:induction false} SealedTogether(a: string, b: string, p: Place)
    requires Sealed(a, p) && Sealed(b, EndOf(a, p))
    ensures Sealed(a + b, p) && EndOf(a + b, p) == EndOf(b, EndOf(a, p))
  {
    if a == "" {
      assert a + b == b;
    } else {
      assert (a + b)[1..] == a[1..] + b;
      SealedTogether(a[1..], b, Step(p, a[0]));
    }
  }

  lemma {:induction false} PiecesPass(t: string, k: string, p: Place)
    requires Sealed(t, p)
    ensures Pieces(t + k, p) == Prepend(t, Pieces(k, EndOf(t, p)))
  {
    if t == "" {
      assert t + k == k;
      PrependNothing(Pieces(k, p));
    } else {
      assert (t + k)[1..] == t[1..] + k;
      PiecesPass(t[1..], k, Step(p, t[0]));
      PrependTwice([t[0]], t[1..], Pieces(k, EndOf(t, p)));
      assert [t[0]] + t[1..] == t;
    }
  }

  lemma {:induction false} StrippedPasses(t: string, k: string, p: Place)
    requires Sealed(t, p)
    ensures Stripped(t + k, p.scan) == t + Stripped(k, EndOf(t, p).scan)
  {
    if t == "" {
      assert t + k == k;
    } else {
      assert (t + k)[1..] == t[1..] + k;
      StrippedPasses(t[1..], k, Step(p, t[0]));
    }
  }

  /** No character that any of the scans looks at. */
  predicate Ordinary(t: string) {
    forall i :: 0 <= i < |t| ==> t[i] !in "\"\\#,[]"
  }

  lemma {:induction false} OrdinaryPasses(t: string, depth: int)
    requires Ordinary(t)
    ensures Passes(t, depth)
  {
    if t != "" {
      assert t[0] !in "\"\\#,[]";
      assert Step(Top(depth), t[0]) == Top(depth);
      OrdinaryPasses(t[1..], depth);
    }
  }

  lemma BlankIsOrdinary(t: string)
    requires IsBlank(t)
    ensures Ordinary(t)
  {
    forall i | 0 <= i < |t| ensures t[i] !in "\"\\#,[]" {
      assert IsSpace(t[i]);
    }
  }

  lemma HexIsOrdinary(t: string)
    requires AreHexDigits(t)
    ensures Ordinary(t)
  {
    forall i | 0 <= i < |t| ensures t[i] !in "\"\\#,[]" {
      assert IsHexDigit(t[i]);
    }
  }

  lemma {:induction false} TokensPass(tokens: seq<Token>, depth: int)
    requires GoodTokens(tokens)
    ensures
      var p := Place(Scan(true, false), depth);
      Sealed(RenderTokens(tokens) + "\"", p) && EndOf(RenderTokens(tokens) + "\"", p) == Top(depth)
  {
    var p := Place(Scan(true, false), depth);
    if tokens == [] {
      var t := RenderTokens(tokens) + "\"";
      assert t == "\"" && t[1..] == "" && Step(p, '"') == Top(depth);
    } else {
      TokensPass(tokens[1..], depth);
      var rest := RenderTokens(tokens[1..]) + "\"";
      assert GoodToken(tokens[0]);
      match tokens[0] {
        case Plain(c) =>
          assert RenderTokens(tokens) + "\"" == [c] + rest;
          assert Step(p, c) == p && ([c] + rest)[1..] == rest;
        case Escaped(letter) =>
          var t := ['\\', letter] + rest;
          assert RenderTokens(tokens) + "\"" == t;
          assert t[1..] == [letter] + rest && t[1..][1..] == rest;
          assert Step(Step(p, '\\'), letter) == p;
      }
    }
  }

  /** Ordinary characters with no space at either end. */
  predicate Solid(t: string) { Ordinary(t) && Tight(t) }

  lemma SolidTogether(a: string, b: string)
    requires Solid(a) && Solid(b)
    ensures Solid(a + b)
  {
  }

  lemma SolidDigits(t: string)
    requires AreHexDigits(t)
    ensures Solid(t)
  {
    HexIsOrdinary(t);
    assert IsHexDigit(t[0]) && IsHexDigit(t[|t| - 1]);
  }

  lemma SolidSigned(negative: bool, t: string)
    requires Solid(t)
    ensures Solid(Sign(negative) + t)
  {
    if negative { SolidTogether("-", t); } else { assert "" + t == t; }
  }

  /** A number without its sign. */
  function Unsigned(s: Syntax): string
    requires s.Decimal? || s.Hexadecimal? || s.Fraction?
  {
    match s
    case Decimal(_, digits) => digits
    case Hexadecimal(_, digits) => "0x" + digits
    case Fraction(_, digits, part) => digits + "." + part
  }

  lemma RenderIsSigned(s: Syntax)
    requires s.Decimal? || s.Hexadecimal? || s.Fraction?
    ensures Render(s) == Sign(s.negative) + Unsigned(s)
  {
  }

  lemma UnsignedIsSolid(s: Syntax)
    requires WellFormed(s) && (s.Decimal? || s.Hexadecimal? || s.Fraction?)
    ensures Solid(Unsigned(s))
  {
    match s
    case Decimal(_, digits) =>
      DigitsAreHex(digits);
      SolidDigits(digits);
    case Hexadecimal(_, digits) =>
      SolidDigits(digits);
      SolidTogether("0x", digits);
    case Fraction(_, digits, part) =>
      SolidFraction(digits, part);
  }

  lemma Digital(s: Syntax)
    requires WellFormed(s) && !s.Quote? && !s.Array?
    ensures Solid(Render(s))
  {
    if s.Literal? {
      LiteralIsSolid(s.b);
    } else {
      RenderIsSigned(s);
      UnsignedIsSolid(s);
      SolidSigned(s.negative, Unsigned(s));
    }
  }

  lemma LiteralIsSolid(b: bool)
    ensures Solid(Render(Literal(b)))
  {
  }

  lemma SolidFraction(digits: string, part: string)
    requires AreDigits(digits) && AreDigits(part)
    ensures Solid(digits + "." + part)
  {
    DigitsAreHex(digits);
    DigitsAreHex(part);
    SolidDigits(digits);
    SolidDigits(part);
    SolidTogether(digits, ".");
    SolidTogether(digits + ".", part);
  }

  lemma DigitsAreHex(t: string)
    requires AreDigits(t)
    ensures AreHexDigits(t)
  {
  }

  lemma OneCharacter(c: char, p: Place)
    requires (c == '#' ==> p.scan.inString) && !Cuts(p, c)
    ensures Sealed([c], p) && EndOf([c], p) == Step(p, c)
  {
    assert [c][1..] == "";
    assert Sealed("", Step(p, c));
  }

  lemma BracketsPass(inner: string, depth: nat)
    requires Passes(inner, depth + 1)
    ensures Passes("[" + inner + "]", depth)
  {
    var t := "[" + inner + "]";
    assert Step(Top(depth), '[') == Top(depth + 1) && Step(Top(depth + 1), ']') == Top(depth);
    OneCharacter(']', Top(depth + 1));
    SealedTogether(inner, "]", Top(depth + 1));
    assert t[1..] == inner + "]";
  }

  lemma RenderIsTight(s: Syntax)
    requires WellFormed(s)
    ensures Tight(Render(s))
  {
    if !s.Quote? && !s.Array? { Digital(s); }
  }

  lemma {:induction false} ValuePasses(s: Syntax, depth: nat)
    requires WellFormed(s)
    ensures Passes(Render(s), depth)
  {
    match s
    case Quote(tokens) =>
      TokensPass(tokens, depth);
      assert Render(s) == "\"" + (RenderTokens(tokens) + "\"");
      assert Render(s)[1..] == RenderTokens(tokens) + "\"";
      assert Step(Top(depth), '"') == Place(Scan(true, false), depth);
    case Array(items) =>
      ItemsPass(items, depth + 1);
      BracketsPass(RenderItems(items), depth);
    case _ =>
      Digital(s);
      OrdinaryPasses(Render(s), depth);
  }

  lemma {:induction false} ItemPasses(item: Item, depth: nat)
    requires GoodItem(item)
    ensures Passes(RenderItem(item), depth)
  {
    match item
    case Gap(space) =>
      BlankIsOrdinary(space);
      OrdinaryPasses(space, depth);
    case Cell(before, value, behind) =>
      BlankIsOrdinary(before);
      OrdinaryPasses(before, depth);
      BlankIsOrdinary(behind);
      OrdinaryPasses(behind, depth);
      ValuePasses(value, depth);
      SealedTogether(before, Render(value), Top(depth));
      SealedTogether(before + Render(value), behind, Top(depth));
  }

  lemma {:induction false} ItemsPass(items: seq<Item>, depth: nat)
    requires GoodItems(items) && depth > 0
    ensures Passes(RenderItems(items), depth)
  {
    if items != [] {
      assert GoodItem(items[0]);
      ItemPasses(items[0], depth);
      if |items| > 1 {
        ItemsPass(items[1..], depth);
        assert Step(Top(depth), ',') == Top(depth);
        OneCharacter(',', Top(depth));
        SealedTogether(RenderItem(items[0]), ",", Top(depth));
        SealedTogether(RenderItem(items[0]) + ",", RenderItems(items[1..]), Top(depth));
      }
    }
  }

  // ----- Padding around an array's contents does not matter -----

  function AppendToLast(pieces: seq<string>, k: string): seq<string>
    requires pieces != []
  {
    pieces[..|pieces| - 1] + [pieces[|pieces| - 1] + k]
  }

  lemma {:induction false} BlankIsOnePiece(t: string, p: Place)
    requires IsBlank(t)
    ensures Pieces(t, p) == [t]
  {
    if t != "" {
      assert IsSpace(t[0]);
      BlankIsOnePiece(t[1..], Step(p, t[0]));
      assert [t[0]] + t[1..] == t;
    }
  }

  lemma {:induction false} PiecesBefore(s: string, behind: string, p: Place)
    requires IsBlank(behind)
    ensures Pieces(s + behind, p) == AppendToLast(Pieces(s, p), behind)
  {
    if s == "" {
      assert s + behind == behind && "" + behind == behind;
      BlankIsOnePiece(behind, p);
    } else {
      assert (s + behind)[1..] == s[1..] + behind;
      var rest := Pieces(s[1..], Step(p, s[0]));
      PiecesBefore(s[1..], behind, Step(p, s[0]));
      if Cuts(p, s[0]) {
        assert [""] + AppendToLast(rest, behind) == AppendToLast([""] + rest, behind);
      } else {
        AppendPrepend([s[0]], rest, behind);
      }
    }
  }

  lemma AppendPrepend(a: string, pieces: seq<string>, k: string)
    requires pieces != []
    ensures Prepend(a, AppendToLast(pieces, k)) == AppendToLast(Prepend(a, pieces), k)
  {
    if |pieces| == 1 {
      assert a + (pieces[0] + k) == a + pieces[0] + k;
    }
  }

  lemma {:induction false} CellsIgnoreEnd(pieces: seq<string>, behind: string)
    requires pieces != [] && IsBlank(behind)
    ensures Cells(AppendToLast(pieces, behind)) == Cells(pieces)
  {
    var padded := AppendToLast(pieces, behind);
    if |pieces| == 1 {
      TrimSkipsEnd(pieces[0], behind);
      assert padded[1..] == [] == pieces[1..];
    } else {
      assert padded[0] == pieces[0] && padded[1..] == AppendToLast(pieces[1..], behind);
      CellsIgnoreEnd(pieces[1..], behind);
    }
  }

  lemma CellsIgnoreStart(before: string, s: string)
    requires IsBlank(before)
    ensures Cells(Pieces(before + s, Top(0))) == Cells(Pieces(s, Top(0)))
  {
    BlankIsOrdinary(before);
    OrdinaryPasses(before, 0);
    PiecesPass(before, s, Top(0));
    TrimStartSkips(before, Pieces(s, Top(0))[0]);
  }

  lemma CellsIgnoreTail(s: string)
    ensures Cells(Pieces(TrimEnd(s), Top(0))) == Cells(Pieces(s, Top(0)))
  {
    TrimEndSplits(s);
    var m := |TrimEnd(s)|;
    assert s == s[..m] + s[m..];
    PiecesBefore(s[..m], s[m..], Top(0));
    CellsIgnoreEnd(Pieces(s[..m], Top(0)), s[m..]);
  }

  /** The array reader trims before it splits; the cells are those of the untrimmed text. */
  lemma CellsOfTrimmed(s: string)
    ensures Cells(Pieces(Trim(s), Top(0))) == Cells(Pieces(s, Top(0)))
  {
    TrimStartSplits(s);
    var n := |s| - |TrimStart(s)|;
    assert s == s[..n] + s[n..];
    CellsIgnoreStart(s[..n], s[n..]);
    CellsIgnoreTail(s[n..]);
  }

  // ----- Reading undoes writing -----

  /** The written values among an array's items. */
  function RenderCells(items: seq<Item>): seq<string> {
    if items == [] then []
    else (match items[0] case Gap(_) => [] case Cell(_, value, _) => [Render(value)]) + RenderCells(items[1..])
  }

  /** The pieces of a sealed text, alone and before a comma. */
  lemma FirstPiece(first: string, rest: string)
    requires Passes(first, 0)
    ensures Pieces(first, Top(0)) == [first]
    ensures Pieces(first + "," + rest, Top(0)) == [first] + Pieces(rest, Top(0))
  {
    PiecesPass(first, "", Top(0));
    assert first + "" == first && Prepend(first, [""]) == [first];
    PiecesPass(first, "," + rest, Top(0));
    assert first + "," + rest == first + ("," + rest) && ("," + rest)[1..] == rest;
    assert Step(Top(0), ',') == Top(0);
    PrependToEmpty(first, Pieces(rest, Top(0)));
  }

  lemma {:induction false} ItemsSplit(items: seq<Item>)
    requires GoodItems(items)
    ensures Cells(Pieces(RenderItems(items), Top(0))) == RenderCells(items)
  {
    if items == [] {
      assert Pieces("", Top(0)) == [""];
    } else {
      assert GoodItem(items[0]);
      var first, rest := RenderItem(items[0]), RenderItems(items[1..]);
      ItemPasses(items[0], 0);
      ItemIsCell(items[0]);
      FirstPiece(first, rest);
      FirstCell(first, if |items| == 1 then [] else Pieces(rest, Top(0)));
      if |items| > 1 { ItemsSplit(items[1..]); }
    }
  }

  lemma FirstCell(first: string, rest: seq<string>)
    ensures Cells([first] + rest) == (if |Trim(first)| > 0 then [Trim(first)] else []) + Cells(rest)
  {
    assert ([first] + rest)[1..] == rest;
  }

  lemma ItemIsCell(item: Item)
    requires GoodItem(item)
    ensures Trim(RenderItem(item)) == match item case Gap(_) => "" case Cell(_, value, _) => Render(value)
    ensures item.Cell? ==> Render(item.value) != ""
  {
    match item
    case Gap(space) => TrimBlank(space);
    case Cell(before, value, behind) =>
      RenderIsTight(value);
      TrimPadded(before, Render(value), behind);
  }

  lemma UnquotePlain(c: char, rest: string)
    requires GoodToken(Plain(c))
    ensures Unquote([c] + rest) == After([c], 1, Unquote(rest))
  {
    assert ([c] + rest)[1..] == rest;
  }

  lemma UnquoteEscaped(letter: char, rest: string)
    requires GoodToken(Escaped(letter))
    ensures Unquote(['\\', letter] + rest) == After([Escape(letter).value], 2, Unquote(rest))
  {
    assert (['\\', letter] + rest)[2..] == rest;
  }

  lemma {:induction false} TokensRead(tokens: seq<Token>)
    requires GoodTokens(tokens)
    ensures Unquote(RenderTokens(tokens) + "\"") == Ok(Quoted(DenoteTokens(tokens), |RenderTokens(tokens)| + 1))
  {
    if tokens == [] {
      assert (RenderTokens(tokens) + "\"")[0] == '"';
    } else {
      var rest := RenderTokens(tokens[1..]) + "\"";
      assert GoodToken(tokens[0]);
      TokensRead(tokens[1..]);
      match tokens[0] {
        case Plain(c) =>
          UnquotePlain(c, rest);
          assert RenderTokens(tokens) + "\"" == [c] + rest;
        case Escaped(letter) =>
          UnquoteEscaped(letter, rest);
          assert RenderTokens(tokens) + "\"" == ['\\', letter] + rest;
      }
    }
  }

  lemma FractionShape(digits: string, part: string)
    requires AreDigits(digits) && AreDigits(part)
    ensures
      var body := digits + "." + part;
      var dot := IndexOf(body, '.');
      && dot == |digits| && body[..dot] == digits && body[dot + 1..] == part
      && !AreDigits(body) && body[1] != 'x'
  {
    var body := digits + "." + part;
    assert body[|digits|] == '.';
    assert forall k :: 0 <= k < |digits| ==> body[k] == digits[k] && IsDigit(body[k]);
  }

  function Magnitude(s: Syntax): real
    requires WellFormed(s) && (s.Decimal? || s.Hexadecimal? || s.Fraction?)
  {
    match s
    case Decimal(_, digits) => ValueOf(digits, 10) as real
    case Hexadecimal(_, digits) => ValueOf(digits, 16) as real
    case Fraction(_, digits, part) => DecimalOf(digits, part)
  }

  lemma UnsignedRead(s: Syntax)
    requires WellFormed(s) && (s.Decimal? || s.Hexadecimal? || s.Fraction?)
    ensures ParseUnsigned(Unsigned(s)) == Some(Magnitude(s))
  {
    match s
    case Decimal(_, digits) =>
      if |digits| > 2 { assert IsDigit(digits[1]) && digits[..2][1] == digits[1]; }
    case Hexadecimal(_, digits) =>
      assert ("0x" + digits)[..2] == "0x" && ("0x" + digits)[2..] == digits;
    case Fraction(_, digits, part) =>
      FractionShape(digits, part);
      assert Unsigned(s)[..2][1] != 'x';
  }

  lemma SignedRead(negative: bool, body: string)
    requires body != "" && IsDigit(body[0]) && ParseUnsigned(body).Some?
    ensures ParseValue(Sign(negative) + body) == Ok(Number(Signed(negative, ParseUnsigned(body).value)))
  {
    var raw := Sign(negative) + body;
    if negative {
      assert raw[0] == '-' && raw[1..] == body;
    } else {
      assert raw == body;
    }
    assert raw[0] !in "\"[tf";
  }

  lemma NumbersRead(s: Syntax)
    requires WellFormed(s) && (s.Decimal? || s.Hexadecimal? || s.Fraction?)
    ensures ParseValue(Render(s)) == Ok(Number(Signed(s.negative, Magnitude(s))))
  {
    UnsignedStarts(s);
    RenderIsSigned(s);
    UnsignedRead(s);
    SignedRead(s.negative, Unsigned(s));
  }

  lemma UnsignedStarts(s: Syntax)
    requires WellFormed(s) && (s.Decimal? || s.Hexadecimal? || s.Fraction?)
    ensures Unsigned(s) != "" && IsDigit(Unsigned(s)[0])
  {
    if !s.Hexadecimal? { assert IsDigit(s.digits[0]); }
  }

  lemma ParseQuote(tokens: seq<Token>)
    requires GoodTokens(tokens)
    ensures ParseValue(Render(Quote(tokens))) == Ok(Text(DenoteTokens(tokens)))
  {
    var raw := Render(Quote(tokens));
    TokensRead(tokens);
    assert raw[1..] == RenderTokens(tokens) + "\"";
    assert raw[|RenderTokens(tokens)| + 2..] == "";
    TrimBlank("");
  }

  lemma ParseBrackets(inner: string)
    requires forall i :: 0 <= i < |Cells(Pieces(inner, Top(0)))| ==> |Cells(Pieces(inner, Top(0)))[i]| < |inner| + 2
    ensures ParseValue("[" + inner + "]") ==
      match ParseAll(Cells(Pieces(inner, Top(0))), |inner| + 2)
      case Err(e) => Err(e)
      case Ok(items) => Ok(List(items))
  {
    BracketShape(inner);
    ParseList("[" + inner + "]", inner);
    CellsOfTrimmed(inner);
    if Trim(inner) == "" { NothingHasNoCells(); }
  }

  /** The array case of the parser, for a text that ends in its bracket. */
  lemma ParseList(raw: string, inner: string)
    requires raw != "" && raw[0] == '[' && LastIndexOf(raw, ']') == |raw| - 1
    requires raw[|raw|..] == "" && raw[1..|raw| - 1] == inner
    ensures ParseValue(raw) ==
      if Trim(inner) == "" then Ok(List([]))
      else
        match ParseAll(Cells(Pieces(Trim(inner), Top(0))), |raw|)
        case Err(e) => Err(e)
        case Ok(items) => Ok(List(items))
  {
    TrimBlank("");
  }

  lemma NothingHasNoCells()
    ensures Cells(Pieces("", Top(0))) == []
  {
    assert Pieces("", Top(0)) == [""];
    FirstCell("", []);
  }

  lemma BracketShape(inner: string)
    ensures
      var raw := "[" + inner + "]";
      && raw[0] == '[' && LastIndexOf(raw, ']') == |raw| - 1
      && raw[|raw|..] == "" && raw[1..|raw| - 1] == inner
  {
    var raw := "[" + inner + "]";
    assert raw[|raw| - 1] == ']';
  }

  lemma ParseLiteral(b: bool)
    ensures ParseValue(Render(Literal(b))) == Ok(Flag(b))
  {
  }

  lemma {:induction false} ParseArray(items: seq<Item>)
    requires GoodItems(items)
    ensures ParseValue("[" + RenderItems(items) + "]") == Ok(List(DenoteItems(items)))
    decreases items, 1
  {
    ItemsSplit(items);
    CellsAreShort(Pieces(RenderItems(items), Top(0)), |RenderItems(items)| + 2);
    ParseBrackets(RenderItems(items));
    CellsRead(items, |RenderItems(items)| + 2);
  }

  lemma CellsAreShort(pieces: seq<string>, bound: nat)
    requires forall i :: 0 <= i < |pieces| ==> |pieces[i]| < bound
    ensures forall i :: 0 <= i < |Cells(pieces)| ==> |Cells(pieces)[i]| < bound
  {
  }

  /** Parsing a written value gives the value it stands for. */
  lemma {:induction false} ParseRender(s: Syntax)
    requires WellFormed(s)
    ensures ParseValue(Render(s)) == Ok(Denote(s))
    decreases s, 0
  {
    match s
    case Quote(tokens) => ParseQuote(tokens);
    case Array(items) => ParseArray(items);
    case Literal(b) => ParseLiteral(b);
    case _ => NumbersRead(s);
  }

  lemma {:induction false} CellsRead(items: seq<Item>, bound: nat)
    requires GoodItems(items)
    requires forall i :: 0 <= i < |RenderCells(items)| ==> |RenderCells(items)[i]| < bound
    ensures ParseAll(RenderCells(items), bound) == Ok(DenoteItems(items))
    decreases items, 0
  {
    if items != [] {
      assert GoodItem(items[0]);
      var cells, rest := RenderCells(items), RenderCells(items[1..]);
      match items[0] {
        case Gap(_) =>
          assert cells == rest;
          CellsRead(items[1..], bound);
          assert DenoteItems(items) == DenoteItems(items[1..]);
        case Cell(_, value, _) =>
          assert cells == [Render(value)] + rest && cells[1..] == rest;
          assert forall i :: 0 <= i < |rest| ==> rest[i] == cells[i + 1];
          CellsRead(items[1..], bound);
          ParseRender(value);
          assert DenoteItems(items) == [Denote(value)] + DenoteItems(items[1..]);
      }
    }
  }

  /** A comment, or nothing. */
  predicate IsComment(k: string) { k == "" || k[0] == '#' }

  /** A padded value followed by any comment, stripped, trimmed and parsed, is the value. */
  lemma LineRoundTrip(s: Syntax, before: string, behind: string, comment: string)
    requires WellFormed(s) && IsBlank(before) && IsBlank(behind) && IsComment(comment)
    ensures ParseValue(Trim(Stripped(before + Render(s) + behind + comment, START))) == Ok(Denote(s))
  {
    var item := Cell(before, s, behind);
    ItemPasses(item, 0);
    StrippedPasses(RenderItem(item), comment, Top(0));
    assert RenderItem(item) + "" == RenderItem(item);
    RenderIsTight(s);
    TrimPadded(before, Render(s), behind);
    ParseRender(s);
  }
}
