/**
 Rust's comments and literals by their own grammar, without the masker's scan: every
 source is spelled by such forms, and they decide what the masker hides.
 */
module MaskForms {
  import opened Common
  import opened RustMask

  datatype Form =
    | LineComment
    | BlockComment(body: Body, close: nat)
    | OpenComment
    | RawString(byte: bool, hashes: nat, close: nat)
    | OpenRaw(byte: bool, hashes: nat)
    | StringLiteral(byte: bool, close: nat)
    | UnclosedString(byte: bool)
    | EscapedLiteral(close: nat)
    | PlainLiteral
    | Other

  /** A form and where it ends. */
  datatype Placed = Placed(form: Form, end: nat)

  // ----- What each form looks like -----

  predicate At(source: string, i: nat, c: char) { i < |source| && source[i] == c }

  predicate CommentBody(source: string, i: nat, b: Body, close: nat) {
    Spells(source, i + 2, b, close) && Pair(source, close, '*', '/')
  }

  ghost predicate Closes(source: string, i: nat) {
    exists b: Body, close: nat :: CommentBody(source, i, b, close)
  }

  /** Where the contents of a raw string start. */
  function RawContents(i: nat, byte: bool, hashes: nat): nat {
    i + (if byte then 1 else 0) + 1 + hashes + 1
  }

  /** `r` or `br`, hash signs and a quote, not in the middle of a word. */
  predicate RawOpens(source: string, i: nat, byte: bool, hashes: nat, isAlnum: char -> bool) {
    var r := i + if byte then 1 else 0;
    && (byte ==> At(source, i, 'b')) && At(source, r, 'r')
    && (forall k :: r < k <= r + hashes ==> At(source, k, '#'))
    && At(source, r + 1 + hashes, '"')
    && (i == 0 || !(isAlnum(source[i - 1]) || source[i - 1] == '_'))
  }

  /** A quote and as many hash signs. */
  predicate RawCloses(source: string, k: nat, hashes: nat) {
    At(source, k, '"') && forall h :: k < h <= k + hashes ==> At(source, h, '#')
  }

  predicate Quotes(source: string, i: nat, byte: bool) {
    if byte then Pair(source, i, 'b', '"') else At(source, i, '"')
  }

  function StringContents(i: nat, byte: bool): nat { i + if byte then 2 else 1 }

  /** A quote that is not escaped within the string that starts at `start`. */
  predicate EndQuote(source: string, start: nat, k: nat) {
    start <= k && At(source, k, '"') && !EscapedQuote(source, start, k)
  }

  /** What ends a literal. */
  datatype Closer = HashQuote(hashes: nat) | OpenQuote(start: nat) | Apostrophe

  predicate Ends(source: string, m: Closer, k: nat) {
    match m
    case HashQuote(hashes) => RawCloses(source, k, hashes)
    case OpenQuote(start) => EndQuote(source, start, k)
    case Apostrophe => At(source, k, '\'')
  }

  ghost predicate NoneFrom(source: string, m: Closer, from: nat) {
    forall k: nat :: from <= k ==> !Ends(source, m, k)
  }

  ghost predicate FirstIs(source: string, m: Closer, from: nat, k: nat) {
    from <= k && Ends(source, m, k) && forall j: nat :: from <= j < k ==> !Ends(source, m, j)
  }

  lemma OneFirst(source: string, m: Closer, from: nat, j: nat, k: nat)
    requires FirstIs(source, m, from, j) && FirstIs(source, m, from, k)
    ensures j == k
  {
  }

  /** The source spells the form from `i` up to `e`. */
  ghost predicate IsForm(source: string, i: nat, form: Form, e: nat, isAlnum: char -> bool) {
    && i < e <= |source|
    && match form
       case LineComment =>
         && Pair(source, i, '/', '/') && (forall k :: i <= k < e ==> source[k] != '\n')
         && (e < |source| ==> source[e] == '\n')
       case BlockComment(b, close) =>
         Pair(source, i, '/', '*') && CommentBody(source, i, b, close) && e == close + 2
       case OpenComment => Pair(source, i, '/', '*') && !Closes(source, i) && e == |source|
       case RawString(byte, hashes, close) =>
         && RawOpens(source, i, byte, hashes, isAlnum) && e == close + 1 + hashes
         && FirstIs(source, HashQuote(hashes), RawContents(i, byte, hashes), close)
       case OpenRaw(byte, hashes) =>
         && RawOpens(source, i, byte, hashes, isAlnum) && e == |source|
         && NoneFrom(source, HashQuote(hashes), RawContents(i, byte, hashes))
       case StringLiteral(byte, close) =>
         var start := StringContents(i, byte);
         Quotes(source, i, byte) && FirstIs(source, OpenQuote(start), start, close) && e == close + 1
       case UnclosedString(byte) =>
         var start := StringContents(i, byte);
         Quotes(source, i, byte) && NoneFrom(source, OpenQuote(start), start) && e == |source|
       case EscapedLiteral(close) =>
         && Pair(source, i, '\'', '\\') && FirstIs(source, Apostrophe, i + 3, close) && e == close + 1
       case PlainLiteral =>
         At(source, i, '\'') && !At(source, i + 1, '\\') && At(source, i + 2, '\'') && e == i + 3
       case Other =>
         && e == i + 1 && !Pair(source, i, '/', '/') && !Pair(source, i, '/', '*')
         && (forall byte, hashes :: !RawOpens(source, i, byte, hashes, isAlnum))
         && !Quotes(source, i, false) && !Quotes(source, i, true) && !OpensChar(source, i)
  }

  ghost predicate Formed(source: string, i: nat, p: Placed, isAlnum: char -> bool) {
    IsForm(source, i, p.form, p.end, isAlnum)
  }

  ghost predicate OpensChar(source: string, i: nat) {
    && At(source, i, '\'')
    && if At(source, i + 1, '\\') then !NoneFrom(source, Apostrophe, i + 3) else At(source, i + 2, '\'')
  }

  /** The forms follow one another from `i` to the end of the source. */
  ghost predicate Reads(source: string, i: nat, forms: seq<Placed>, isAlnum: char -> bool)
    decreases |forms|
  {
    if forms == [] then i == |source|
    else
      && Formed(source, i, forms[0], isAlnum)
      && Reads(source, forms[0].end, forms[1..], isAlnum)
  }

  /** The token such a form is for the masker. */
  function TokenOf(source: string, i: nat, p: Placed): Token {
    match p.form
    case LineComment => Token(Comment, i, p.end, p.end)
    case BlockComment(_, _) => Token(Comment, i, p.end, p.end)
    case OpenComment => Token(Comment, i, p.end, p.end)
    case RawString(byte, hashes, close) => Token(Kind.RawString, RawContents(i, byte, hashes), close, p.end)
    case OpenRaw(byte, hashes) => Token(Kind.RawString, RawContents(i, byte, hashes), p.end, p.end)
    case StringLiteral(byte, close) => Token(Kind.String, StringContents(i, byte), close, p.end)
    case UnclosedString(byte) => Token(OpenString, StringContents(i, byte), p.end, p.end)
    case EscapedLiteral(close) => Token(EscapedChar, i + 1, close, p.end)
    case PlainLiteral => Token(PlainChar, i + 1, i + 2, p.end)
    case Other => CodeToken(i)
  }

  // ----- Each form is the masker's token -----

  lemma {:induction false} HashesAre(source: string, i: nat, n: nat)
    requires (forall k :: i <= k < i + n ==> At(source, k, '#')) && !At(source, i + n, '#')
    ensures Hashes(source, i) == n
    decreases n
  {
    if n > 0 {
      assert At(source, i, '#');
      HashesAre(source, i + 1, n - 1);
    }
  }

  lemma RawStartIs(source: string, i: nat, byte: bool, hashes: nat, isAlnum: char -> bool)
    requires RawOpens(source, i, byte, hashes, isAlnum)
    ensures i < |source| && RawAllowed(source, i, isAlnum)
    ensures RawStart(source, i) == RawContents(i, byte, hashes)
    ensures |Terminator(source, i)| == hashes + 1
    ensures forall k: nat :: StartsAt(source, k, Terminator(source, i)) <==> RawCloses(source, k, hashes)
  {
    var r := i + if byte then 1 else 0;
    HashesAre(source, r + 1, hashes);
    var t := Terminator(source, i);
    forall k: nat ensures StartsAt(source, k, t) <==> RawCloses(source, k, hashes) {
      TerminatorAt(source, k, t, hashes);
    }
  }

  lemma TerminatorAt(source: string, k: nat, t: string, hashes: nat)
    requires |t| == hashes + 1 && t[0] == '"' && forall h :: 1 <= h <= hashes ==> t[h] == '#'
    ensures StartsAt(source, k, t) <==> RawCloses(source, k, hashes)
  {
    if StartsAt(source, k, t) {
      var found := source[k..k + |t|];
      assert found[0] == source[k];
      forall h | k < h <= k + hashes ensures At(source, h, '#') { assert found[h - k] == source[h]; }
    }
    if RawCloses(source, k, hashes) {
      assert hashes > 0 ==> At(source, k + hashes, '#');
      var found := source[k..k + |t|];
      forall h | 0 <= h < |t| ensures found[h] == t[h] { assert h > 0 ==> At(source, k + h, '#'); }
    }
  }

  /** A raw string the masker sees is one. */
  lemma RawIsRaw(source: string, i: nat, isAlnum: char -> bool) returns (byte: bool, hashes: nat)
    requires i < |source| && RawAllowed(source, i, isAlnum)
    ensures RawOpens(source, i, byte, hashes, isAlnum)
  {
    byte := source[i] == 'b';
    var r := i + if byte then 1 else 0;
    hashes := Hashes(source, r + 1);
    forall k | r < k <= r + hashes ensures At(source, k, '#') {}
  }

  lemma RawForm(source: string, i: nat, p: Placed, isAlnum: char -> bool)
    requires (p.form.RawString? || p.form.OpenRaw?) && Formed(source, i, p, isAlnum)
    ensures NextToken(source, i, isAlnum) == TokenOf(source, i, p)
  {
    RawStartIs(source, i, p.form.byte, p.form.hashes, isAlnum);
    var found := Find(source, Terminator(source, i), RawStart(source, i));
    if p.form.RawString? {
      assert Ends(source, HashQuote(p.form.hashes), p.form.close);
      if found >= 0 { assert Ends(source, HashQuote(p.form.hashes), found); }
    } else if found >= 0 {
      assert Ends(source, HashQuote(p.form.hashes), found);
      assert false;
    }
  }

  lemma StringForm(source: string, i: nat, p: Placed, isAlnum: char -> bool)
    requires (p.form.StringLiteral? || p.form.UnclosedString?) && Formed(source, i, p, isAlnum)
    ensures NextToken(source, i, isAlnum) == TokenOf(source, i, p)
  {
    var start := StringContents(i, p.form.byte);
    var e := QuoteFrom(source, start);
    StringEndsAtQuote(source, start, start);
    assert e < |source| ==> Ends(source, OpenQuote(start), e);
    if p.form.StringLiteral? {
      assert Ends(source, OpenQuote(start), p.form.close);
    }
  }

  lemma CharForm(source: string, i: nat, p: Placed, isAlnum: char -> bool)
    requires (p.form.EscapedLiteral? || p.form.PlainLiteral?) && Formed(source, i, p, isAlnum)
    ensures NextToken(source, i, isAlnum) == TokenOf(source, i, p)
  {
    if p.form.EscapedLiteral? { QuoteFound(source, i + 3); }
  }

  lemma QuoteFound(source: string, from: nat)
    ensures
      var q := Find(source, "'", from);
      if q >= 0 then FirstIs(source, Apostrophe, from, q) else NoneFrom(source, Apostrophe, from)
  {
    forall k: nat ensures StartsAt(source, k, "'") <==> At(source, k, '\'') {
      if k < |source| { assert source[k..k + 1] == [source[k]]; }
    }
  }

  /** A block comment that the masker sees ending before the end of the source is closed. */
  lemma {:induction false} EndIsClose(source: string, j: nat, depth: nat) returns (b: Body, close: nat)
    requires j <= |source| && depth > 0 && CommentEnd(source, j, depth) < |source|
    ensures Spells(source, j, b, close) && Mark(source, close) == -1
    ensures j <= close && close + 2 <= |source|
    ensures CommentEnd(source, close + 2, depth - 1) == CommentEnd(source, j, depth)
    decreases |source| - j
  {
    CommentStep(source, j, depth);
    if Mark(source, j) == -1 {
      b, close := End, j;
    } else if Mark(source, j) == 0 {
      var rest;
      rest, close := EndIsClose(source, j + 1, depth);
      b := Char(rest);
    } else {
      var inner, shut := EndIsClose(source, j + 2, depth + 1);
      var rest;
      rest, close := EndIsClose(source, shut + 2, depth);
      b := Nested(inner, shut, rest);
    }
  }

  lemma CommentForm(source: string, i: nat, p: Placed, isAlnum: char -> bool)
    requires (p.form.BlockComment? || p.form.OpenComment?) && Formed(source, i, p, isAlnum)
    ensures NextToken(source, i, isAlnum) == TokenOf(source, i, p)
  {
    if p.form.BlockComment? {
      CommentIsWhole(source, i, p.form.body, p.form.close);
    } else if CommentEnd(source, i + 2, 1) != |source| {
      EndCloses(source, i);
    }
  }

  lemma EndCloses(source: string, i: nat)
    requires i + 2 <= |source| && CommentEnd(source, i + 2, 1) != |source|
    ensures Closes(source, i)
  {
    var b, close := EndIsClose(source, i + 2, 1);
    assert CommentBody(source, i, b, close);
  }

  lemma OtherForm(source: string, i: nat, isAlnum: char -> bool)
    requires Formed(source, i, Placed(Other, i + 1), isAlnum)
    ensures NextToken(source, i, isAlnum) == CodeToken(i)
  {
    if RawAllowed(source, i, isAlnum) { var _, _ := RawIsRaw(source, i, isAlnum); }
    QuoteFound(source, i + 3);
  }

  /** Wherever the scan stands, the form that starts there is what it takes. */
  lemma FormIsToken(source: string, i: nat, p: Placed, isAlnum: char -> bool)
    requires Formed(source, i, p, isAlnum)
    ensures NextToken(source, i, isAlnum) == TokenOf(source, i, p)
  {
    match p.form
    case LineComment =>
    case BlockComment(_, _) => CommentForm(source, i, p, isAlnum);
    case OpenComment => CommentForm(source, i, p, isAlnum);
    case RawString(_, _, _) => RawForm(source, i, p, isAlnum);
    case OpenRaw(_, _) => RawForm(source, i, p, isAlnum);
    case StringLiteral(_, _) => StringForm(source, i, p, isAlnum);
    case UnclosedString(_) => StringForm(source, i, p, isAlnum);
    case EscapedLiteral(_) => CharForm(source, i, p, isAlnum);
    case PlainLiteral => CharForm(source, i, p, isAlnum);
    case Other => OtherForm(source, i, isAlnum);
  }

  // ----- Every source is spelled by forms -----

  lemma {:induction false} FirstOrNone(source: string, m: Closer, from: nat) returns (k: Option<nat>)
    ensures if k.Some? then FirstIs(source, m, from, k.value) else NoneFrom(source, m, from)
    decreases |source| - from
  {
    if Ends(source, m, from) {
      k := Some(from);
    } else if from >= |source| {
      k := None;
    } else {
      k := FirstOrNone(source, m, from + 1);
    }
  }

  lemma SomeComment(source: string, i: nat, isAlnum: char -> bool) returns (p: Placed)
    requires Pair(source, i, '/', '/') || Pair(source, i, '/', '*')
    ensures Formed(source, i, p, isAlnum)
  {
    if Pair(source, i, '/', '/') {
      p := Placed(LineComment, EndOfLine(source, i));
      assert source[i] != '\n';
    } else if Closes(source, i) {
      var b: Body, close: nat :| CommentBody(source, i, b, close);
      BodySkipped(source, i + 2, b, close, 1);
      p := Placed(BlockComment(b, close), close + 2);
    } else {
      p := Placed(OpenComment, |source|);
    }
  }

  lemma SomeRaw(source: string, i: nat, byte: bool, hashes: nat, isAlnum: char -> bool) returns (p: Placed)
    requires RawOpens(source, i, byte, hashes, isAlnum)
    ensures Formed(source, i, p, isAlnum)
  {
    var k := FirstOrNone(source, HashQuote(hashes), RawContents(i, byte, hashes));
    if k.Some? {
      assert RawCloses(source, k.value, hashes);
      assert hashes > 0 ==> At(source, k.value + hashes, '#');
      p := Placed(Form.RawString(byte, hashes, k.value), k.value + 1 + hashes);
    } else {
      p := Placed(OpenRaw(byte, hashes), |source|);
    }
  }

  lemma SomeString(source: string, i: nat, byte: bool, isAlnum: char -> bool) returns (p: Placed)
    requires Quotes(source, i, byte)
    ensures Formed(source, i, p, isAlnum)
  {
    var start := StringContents(i, byte);
    var k := FirstOrNone(source, OpenQuote(start), start);
    p := if k.Some? then Placed(StringLiteral(byte, k.value), k.value + 1) else Placed(UnclosedString(byte), |source|);
    assert k.Some? ==> EndQuote(source, start, k.value);
  }

  lemma SomeChar(source: string, i: nat, isAlnum: char -> bool) returns (p: Placed)
    requires OpensChar(source, i)
    ensures Formed(source, i, p, isAlnum)
  {
    if At(source, i + 1, '\\') {
      var k := FirstOrNone(source, Apostrophe, i + 3);
      assert k.Some? && Ends(source, Apostrophe, k.value);
      p := Placed(EscapedLiteral(k.value), k.value + 1);
    } else {
      p := Placed(PlainLiteral, i + 3);
    }
  }

  lemma SomeForm(source: string, i: nat, isAlnum: char -> bool) returns (p: Placed)
    requires i < |source|
    ensures Formed(source, i, p, isAlnum)
  {
    if Pair(source, i, '/', '/') || Pair(source, i, '/', '*') {
      p := SomeComment(source, i, isAlnum);
    } else if byte: bool, hashes: nat :| RawOpens(source, i, byte, hashes, isAlnum) {
      p := SomeRaw(source, i, byte, hashes, isAlnum);
    } else if Quotes(source, i, false) {
      p := SomeString(source, i, false, isAlnum);
    } else if Quotes(source, i, true) {
      p := SomeString(source, i, true, isAlnum);
    } else if OpensChar(source, i) {
      p := SomeChar(source, i, isAlnum);
    } else {
      p := Placed(Other, i + 1);
    }
  }

  /** Whatever the source, forms of the grammar spell it from start to end. */
  lemma {:induction false} EverySourceReads(source: string, i: nat, isAlnum: char -> bool) returns (forms: seq<Placed>)
    requires i <= |source|
    ensures Reads(source, i, forms, isAlnum)
    decreases |source| - i
  {
    if i == |source| {
      forms := [];
    } else {
      var p := SomeForm(source, i, isAlnum);
      var rest := EverySourceReads(source, p.end, isAlnum);
      forms := [p] + rest;
      assert forms[1..] == rest;
    }
  }

  // ----- The forms decide the masked text -----

  function StartFrom(i: nat, forms: seq<Placed>, j: nat): nat
    requires j <= |forms|
  {
    if j == 0 then i else forms[j - 1].end
  }

  lemma {:induction false} FormAt(source: string, i: nat, forms: seq<Placed>, j: nat, isAlnum: char -> bool)
    requires i <= |source| && Reads(source, i, forms, isAlnum) && j < |forms|
    ensures i <= StartFrom(i, forms, j) < forms[j].end <= |source|
    ensures Formed(source, StartFrom(i, forms, j), forms[j], isAlnum)
    ensures forall k :: StartFrom(i, forms, j) <= k < forms[j].end ==>
              TokenStart(source, i, k, isAlnum) == StartFrom(i, forms, j)
    decreases j
  {
    FormIsToken(source, i, forms[0], isAlnum);
    if j > 0 {
      FormAt(source, forms[0].end, forms[1..], j - 1, isAlnum);
      assert StartFrom(forms[0].end, forms[1..], j - 1) == StartFrom(i, forms, j);
    }
  }

  /** The contents of a comment or literal: what lies between its delimiters, and all of a comment. */
  predicate Inside(source: string, start: nat, p: Placed, k: nat) {
    TokenOf(source, start, p).from <= k < TokenOf(source, start, p).to
  }

  /**
   However a source is spelled by comments, literals and other characters, the masked text
   shows their delimiters and the other characters where they are, and blanks for contents,
   with only the line breaks of comments and strings kept.
   */
  lemma FormsDecide(source: string, forms: seq<Placed>, j: nat, k: nat, isAlnum: char -> bool)
    requires Reads(source, 0, forms, isAlnum) && j < |forms| && StartFrom(0, forms, j) <= k < forms[j].end
    ensures
      var masked, start := Masked(source, 0, isAlnum), StartFrom(0, forms, j);
      && k < |masked| && k < |source|
      && masked[k] ==
           if !Inside(source, start, forms[j], k) then source[k]
           else if source[k] == '\n' && !forms[j].form.PlainLiteral? then '\n' else ' '
  {
    var start := StartFrom(0, forms, j);
    FormAt(source, 0, forms, j, isAlnum);
    FormIsToken(source, start, forms[j], isAlnum);
    PlainKind(source, start, forms[j]);
    TokenShows(source, start, TokenOf(source, start, forms[j]), k, isAlnum);
  }

  lemma PlainKind(source: string, start: nat, p: Placed)
    ensures TokenOf(source, start, p).kind == PlainChar <==> p.form.PlainLiteral?
    ensures TokenOf(source, start, p).kind == OpenString <==> p.form.UnclosedString?
  {
  }

  lemma TokenShows(source: string, start: nat, t: Token, k: nat, isAlnum: char -> bool)
    requires k < |source| && TokenStart(source, 0, k, isAlnum) == start && NextToken(source, start, isAlnum) == t
    ensures k < |Masked(source, 0, isAlnum)| && Masked(source, 0, isAlnum)[k] == Shown(source, t, k)
  {
    MaskedShows(source, 0, k, isAlnum);
  }

  predicate LeavesOpen(forms: seq<Placed>) { forms != [] && forms[|forms| - 1].form.UnclosedString? }

  /** A text of this length, with one more quote at its end when `open`. */
  predicate Closed(masked: string, length: int, open: bool) {
    if open then masked != "" && |masked| == length + 1 && masked[|masked| - 1] == '"' else |masked| == length
  }

  lemma PieceCloses(source: string, i: nat, t: Token, isAlnum: char -> bool)
    requires i < |source| && NextToken(source, i, isAlnum) == t
    ensures Closed(Piece(source, i, t), t.end - i, t.kind == OpenString)
    ensures t.kind == OpenString ==> t.end == |source|
  {
    PieceLength(source, i, isAlnum);
    if t.kind == OpenString { OpenStringIsLast(source, i, isAlnum); }
  }

  lemma ClosedTogether(a: string, m: int, b: string, n: int, open: bool)
    requires Closed(a, m, false) && Closed(b, n, open)
    ensures Closed(a + b, m + n, open)
  {
  }

  lemma ClosedStep(source: string, i: nat, t: Token, open: bool, isAlnum: char -> bool)
    requires i < |source| && NextToken(source, i, isAlnum) == t
    requires Closed(Masked(source, t.end, isAlnum), |source| - t.end, open)
    ensures Closed(Masked(source, i, isAlnum), |source| - i, t.kind == OpenString || open)
  {
    PieceCloses(source, i, t, isAlnum);
    var piece, rest := Piece(source, i, t), Masked(source, t.end, isAlnum);
    if t.kind == OpenString {
      assert piece + "" == piece;
    } else {
      ClosedTogether(piece, t.end - i, rest, |source| - t.end, open);
    }
  }

  lemma FormEnds(source: string, i: nat, p: Placed, open: bool, isAlnum: char -> bool)
    requires Formed(source, i, p, isAlnum)
    requires Closed(Masked(source, p.end, isAlnum), |source| - p.end, open)
    ensures Closed(Masked(source, i, isAlnum), |source| - i, p.form.UnclosedString? || open)
  {
    var t := TokenOf(source, i, p);
    assert t.end == p.end && (t.kind == OpenString <==> p.form.UnclosedString?) by { PlainKind(source, i, p); }
    FormIsToken(source, i, p, isAlnum);
    ClosedStep(source, i, t, open, isAlnum);
  }

  /** Nothing else is added, but for the quote that closes a string left open. */
  lemma {:induction false} FormsEnd(source: string, i: nat, forms: seq<Placed>, isAlnum: char -> bool)
    requires i <= |source| && Reads(source, i, forms, isAlnum)
    ensures Closed(Masked(source, i, isAlnum), |source| - i, LeavesOpen(forms))
    decreases |forms|
  {
    if forms != [] {
      FormsEnd(source, forms[0].end, forms[1..], isAlnum);
      FormEnds(source, i, forms[0], LeavesOpen(forms[1..]), isAlnum);
      OpenIsLast(source, i, forms, isAlnum);
    }
  }

  lemma OpenIsLast(source: string, i: nat, forms: seq<Placed>, isAlnum: char -> bool)
    requires Reads(source, i, forms, isAlnum) && forms != []
    ensures LeavesOpen(forms) <==> forms[0].form.UnclosedString? || LeavesOpen(forms[1..])
  {
    if forms[0].form.UnclosedString? { NothingBehind(source, forms[1..], isAlnum); }
  }

  lemma NothingBehind(source: string, forms: seq<Placed>, isAlnum: char -> bool)
    requires Reads(source, |source|, forms, isAlnum)
    ensures forms == []
  {
  }

  /** A quote is escaped when an odd number of backslashes stands before it within its string. */
  lemma EscapedQuoteMeans(source: string, start: nat, k: nat, n: nat)
    requires EndsRun(source, start, k, n)
    ensures EscapedQuote(source, start, k) <==> n % 2 == 1
  {
    RunIsOnly(source, start, k, n);
  }
}
