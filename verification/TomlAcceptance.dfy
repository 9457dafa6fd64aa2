/**
 What the vendor-file reader accepts: exactly the texts that the grammar writes and whose
 sections assign known keys once. Nothing else gets through, and nothing is skipped.
 */
module TomlAcceptance {
  import opened Common
  import opened TomlScan
  import opened TomlValue
  import opened TomlRoundTrip
  import opened TomlDocument

  // ----- Trimming, taken apart -----

  lemma TrimParts(s: string) returns (before: string, behind: string)
    ensures IsBlank(before) && IsBlank(behind) && s == before + Trim(s) + behind
    ensures Trim(s) == "" || Tight(Trim(s))
  {
    TrimStartSplits(s);
    var t := TrimStart(s);
    before := s[..|s| - |t|];
    assert s == before + t;
    behind := EndParts(t);
    StartsSolid(s);
    EndsSolid(t);
  }

  lemma EndParts(t: string) returns (behind: string)
    ensures IsBlank(behind) && t == TrimEnd(t) + behind
  {
    TrimEndSplits(t);
    behind := t[|TrimEnd(t)|..];
  }

  lemma {:induction false} StartsSolid(s: string)
    ensures TrimStart(s) != "" ==> !IsSpace(TrimStart(s)[0])
  {
    if s != "" && IsSpace(s[0]) { StartsSolid(s[1..]); }
  }

  lemma {:induction false} EndsSolid(s: string)
    ensures TrimEnd(s) != "" ==> !IsSpace(TrimEnd(s)[|TrimEnd(s)| - 1])
    ensures TrimEnd(s) != "" ==> TrimEnd(s)[0] == s[0]
  {
    if s != "" && IsSpace(s[|s| - 1]) {
      EndsSolid(s[..|s| - 1]);
    }
  }

  lemma TrimmedAway(s: string)
    requires Trim(s) == ""
    ensures IsBlank(s)
  {
    var before, behind := TrimParts(s);
    BlankTogether(before, behind);
    assert s == before + behind;
  }

  lemma BlankTogether(a: string, b: string)
    requires IsBlank(a) && IsBlank(b)
    ensures IsBlank(a + b)
  {
  }

  lemma BlankEnd(s: string, n: nat)
    requires n < |s| && IsBlank(s[n..])
    ensures IsSpace(s[|s| - 1])
  {
    assert s[n..][|s| - n - 1] == s[|s| - 1];
  }

  /** Blank text at the end of a tight one is no text at all. */
  lemma TightEnd(s: string, n: nat)
    requires Tight(s) && n <= |s| && Trim(s[n..]) == ""
    ensures n == |s|
  {
    TrimmedAway(s[n..]);
    if n < |s| { BlankEnd(s, n); }
  }

  // ----- Values -----

  lemma {:induction false} UnquotedIsWritten(s: string) returns (tokens: seq<Token>)
    requires Unquote(s).Ok?
    ensures GoodTokens(tokens) && RenderTokens(tokens) + "\"" == s[..Unquote(s).value.used]
  {
    if s[0] == '"' {
      tokens := [];
      assert s[..1] == "\"";
    } else if s[0] == '\\' {
      var rest := UnquotedIsWritten(s[2..]);
      tokens := [Escaped(s[1])] + rest;
      assert tokens[1..] == rest && tokens[0] == Escaped(s[1]);
      OneMoreToken(s, 2, Escaped(s[1]), rest);
    } else {
      var rest := UnquotedIsWritten(s[1..]);
      tokens := [Plain(s[0])] + rest;
      assert tokens[1..] == rest && tokens[0] == Plain(s[0]);
      OneMoreToken(s, 1, Plain(s[0]), rest);
    }
  }

  lemma OneMoreToken(s: string, n: nat, t: Token, rest: seq<Token>)
    requires n <= |s| && Unquote(s[n..]).Ok? && Unquote(s).Ok?
    requires Unquote(s).value.used == n + Unquote(s[n..]).value.used
    requires RenderTokens(rest) + "\"" == s[n..][..Unquote(s[n..]).value.used]
    requires s[..n] == match t case Plain(c) => [c] case Escaped(letter) => ['\\', letter]
    ensures RenderTokens([t] + rest) + "\"" == s[..Unquote(s).value.used]
  {
    var used := Unquote(s[n..]).value.used;
    assert ([t] + rest)[1..] == rest;
    assert s[..n + used] == s[..n] + s[n..][..used];
  }

  lemma NumberIsWritten(raw: string) returns (s: Syntax)
    requires ParseNumber(raw).Some?
    ensures WellFormed(s) && Render(s) == raw
  {
    var negative := raw != "" && raw[0] == '-';
    var body := if negative then raw[1..] else raw;
    assert raw == Sign(negative) + body;
    s := BodyIsWritten(negative, body);
  }

  lemma BodyIsWritten(negative: bool, body: string) returns (s: Syntax)
    requires ParseUnsigned(body).Some?
    ensures WellFormed(s) && Render(s) == Sign(negative) + body
  {
    var dot := IndexOf(body, '.');
    if |body| > 2 && body[..2] == "0x" && AreHexDigits(body[2..]) {
      s := Hexadecimal(negative, body[2..]);
      assert body == "0x" + body[2..];
      assert Sign(negative) + "0x" + body[2..] == Sign(negative) + ("0x" + body[2..]);
    } else if AreDigits(body) {
      s := Decimal(negative, body);
    } else {
      s := Fraction(negative, body[..dot], body[dot + 1..]);
      assert body == body[..dot] + "." + body[dot + 1..];
      assert Sign(negative) + body[..dot] + "." + body[dot + 1..]
          == Sign(negative) + (body[..dot] + "." + body[dot + 1..]);
    }
  }

  function JoinCommas(pieces: seq<string>): string
    requires pieces != []
  {
    if |pieces| == 1 then pieces[0] else pieces[0] + "," + JoinCommas(pieces[1..])
  }

  lemma PrependJoins(s: string, pieces: seq<string>)
    requires pieces != []
    ensures JoinCommas(Prepend(s, pieces)) == s + JoinCommas(pieces)
  {
    assert Prepend(s, pieces)[1..] == pieces[1..];
    if |pieces| > 1 {
      assert s + pieces[0] + "," + JoinCommas(pieces[1..]) == s + (pieces[0] + "," + JoinCommas(pieces[1..]));
    }
  }

  /** Splitting loses nothing. */
  lemma {:induction false} PiecesJoin(s: string, p: Place)
    ensures JoinCommas(Pieces(s, p)) == s
  {
    if s != "" {
      var rest := Pieces(s[1..], Step(p, s[0]));
      PiecesJoin(s[1..], Step(p, s[0]));
      assert [s[0]] + s[1..] == s;
      if Cuts(p, s[0]) {
        assert ([""] + rest)[1..] == rest;
        assert "" + "," + JoinCommas(rest) == "," + JoinCommas(rest);
      } else {
        PrependJoins([s[0]], rest);
      }
    }
  }

  /** The pieces' cells all parse. */
  predicate Parses(pieces: seq<string>, bound: nat) {
    && (forall i :: 0 <= i < |pieces| ==> |pieces[i]| < bound)
    && (forall i :: 0 <= i < |Cells(pieces)| ==> |Cells(pieces)[i]| < bound)
    && ParseAll(Cells(pieces), bound).Ok?
  }

  lemma {:induction false} PiecesAreItems(pieces: seq<string>, bound: nat) returns (items: seq<Item>)
    requires pieces != [] && Parses(pieces, bound)
    ensures GoodItems(items) && |items| == |pieces| && RenderItems(items) == JoinCommas(pieces)
    decreases bound, 0, |pieces|
  {
    var item := PieceIsItem(pieces, bound);
    items := [item];
    if |pieces| > 1 {
      RestParses(pieces, bound);
      var rest := PiecesAreItems(pieces[1..], bound);
      items := [item] + rest;
      OneMoreItem(item, rest);
    }
  }

  lemma OneMoreItem(item: Item, rest: seq<Item>)
    requires GoodItem(item) && GoodItems(rest) && rest != []
    ensures GoodItems([item] + rest) && RenderItems([item] + rest) == RenderItem(item) + "," + RenderItems(rest)
  {
    assert ([item] + rest)[1..] == rest;
  }

  lemma RestParses(pieces: seq<string>, bound: nat)
    requires pieces != [] && Parses(pieces, bound)
    ensures Parses(pieces[1..], bound)
  {
    if |Trim(pieces[0])| > 0 {
      var cells, rest := Cells(pieces), Cells(pieces[1..]);
      assert cells == [Trim(pieces[0])] + rest && cells[1..] == rest;
      assert forall i :: 0 <= i < |rest| ==> rest[i] == cells[i + 1];
    }
  }

  lemma {:induction false} PieceIsItem(pieces: seq<string>, bound: nat) returns (item: Item)
    requires pieces != [] && Parses(pieces, bound)
    ensures GoodItem(item) && RenderItem(item) == pieces[0]
    decreases bound, 0, 0
  {
    var before, behind := TrimParts(pieces[0]);
    if Trim(pieces[0]) == "" {
      item := Gap(pieces[0]);
      BlankTogether(before, behind);
      assert pieces[0] == before + behind;
    } else {
      assert Cells(pieces)[0] == Trim(pieces[0]);
      var value := ParsedIsWritten(Trim(pieces[0]));
      item := Cell(before, value, behind);
    }
  }

  lemma {:induction false} ArrayIsWritten(raw: string) returns (s: Syntax)
    requires Tight(raw) && raw[0] == '[' && ParseValue(raw).Ok?
    ensures WellFormed(s) && Render(s) == raw
    decreases |raw|, 2, 0
  {
    var end := LastIndexOf(raw, ']');
    TightEnd(raw, end + 1);
    var inner := raw[1..end];
    assert raw == "[" + inner + "]";
    s := BracketsAreWritten(inner);
  }

  lemma {:induction false} BracketsAreWritten(inner: string) returns (s: Syntax)
    requires ParseValue("[" + inner + "]").Ok?
    ensures WellFormed(s) && Render(s) == "[" + inner + "]"
    decreases |inner| + 2, 1, 0
  {
    var pieces := Pieces(inner, Top(0));
    CellsAreShort(pieces, |inner| + 2);
    ParseBrackets(inner);
    PiecesJoin(inner, Top(0));
    var items := PiecesAreItems(pieces, |inner| + 2);
    s := Array(items);
  }

  /** A value the parser accepts is one the grammar writes. */
  lemma {:induction false} ParsedIsWritten(raw: string) returns (s: Syntax)
    requires Tight(raw) && ParseValue(raw).Ok?
    ensures WellFormed(s) && Render(s) == raw
    decreases |raw|, 3, 0
  {
    if raw[0] == '"' {
      var used := Unquote(raw[1..]).value.used;
      TightEnd(raw, used + 1);
      var tokens := UnquotedIsWritten(raw[1..]);
      s := Quote(tokens);
      assert raw == "\"" + raw[1..] && raw[1..][..used] == raw[1..];
    } else if raw[0] == '[' {
      s := ArrayIsWritten(raw);
    } else if raw == "true" || raw == "false" {
      s := Literal(raw == "true");
    } else {
      s := NumberIsWritten(raw);
    }
  }

  /** The parser accepts exactly what the grammar writes. */
  ghost predicate Writes(raw: string) { exists s: Syntax :: WellFormed(s) && Render(s) == raw }

  lemma OnlyGrammarParses(raw: string)
    requires Tight(raw)
    ensures ParseValue(raw).Ok? <==> Writes(raw)
  {
    if ParseValue(raw).Ok? {
      var s := ParsedIsWritten(raw);
      assert WellFormed(s) && Render(s) == raw;
    }
    if Writes(raw) {
      var s :| WellFormed(s) && Render(s) == raw;
      ParseRender(s);
    }
  }

  // ----- Lines -----

  lemma {:induction false} StrippedCuts(s: string, m: Scan) returns (comment: string)
    ensures IsComment(comment) && s == Stripped(s, m) + comment
  {
    if s == "" || (s[0] == '#' && !m.inString) {
      comment := s;
    } else {
      comment := StrippedCuts(s[1..], Next(m, s[0]));
      assert s == [s[0]] + s[1..];
    }
  }

  /** What is left of a line never starts a comment. */
  lemma NoCommentStarts(s: string, before: string, line: string, rest: string)
    requires IsBlank(before) && s == before + rest && rest != "" && rest[0] == '#'
    ensures Stripped(s, START) == before
  {
    BlankIsOrdinary(before);
    OrdinaryPasses(before, 0);
    StrippedPasses(before, rest, Top(0));
  }

  lemma KnownKeyIsGood(key: string)
    requires key in VENDOR_KEYS || key in DEVICE_KEYS
    ensures GoodKey(key)
  {
    LettersAreGood(key);
  }

  lemma LettersAreGood(key: string)
    requires key != "" && forall i :: 0 <= i < |key| ==> 'a' <= key[i] <= 'z'
    ensures GoodKey(key)
  {
    forall i | 0 <= i < |key| ensures key[i] !in "\"\\#,[]" {}
    assert !IsSpace(key[0]) && !IsSpace(key[|key| - 1]);
  }

  /** An assignment that is accepted, in its parts. */
  lemma FieldIsWritten(line: string, eq: nat, key: string, raw: string) returns (c: Content)
    requires Tight(line) && eq < |line| && line[eq] == '='
    requires key == Trim(line[..eq]) && raw == Trim(line[eq + 1..])
    requires GoodKey(key) && ParseValue(raw).Ok?
    ensures c.Field? && GoodContent(c) && RenderContent(c) == line
  {
    var padKey := KeyParts(line, eq);
    var padValue := RawParts(line, eq + 1);
    TrimIsTight(line[eq + 1..]);
    var value := ParsedIsWritten(raw);
    c := Field(key, padKey, padValue, value);
    FieldTogether(line, eq, key, padKey, padValue, raw);
    FieldIsGood(line, key, padKey, padValue, value);
  }

  lemma FieldIsGood(line: string, key: string, padKey: string, padValue: string, value: Syntax)
    requires GoodKey(key) && IsBlank(padKey) && IsBlank(padValue) && WellFormed(value)
    requires key + padKey + "=" + (padValue + Render(value)) == line
    ensures GoodContent(Field(key, padKey, padValue, value))
    ensures RenderContent(Field(key, padKey, padValue, value)) == line
  {
  }

  lemma TrimIsTight(s: string)
    requires Trim(s) != ""
    ensures Tight(Trim(s))
  {
    var _, _ := TrimParts(s);
  }

  lemma AssignedKnows(st: Reader, key: string, raw: string)
    requires st.Valid() && Assigned(st, key, ParseValue(raw)).Ok?
    ensures GoodKey(key) && ParseValue(raw).Ok?
  {
    KnownKeyIsGood(key);
  }

  lemma FieldTogether(line: string, eq: nat, key: string, padKey: string, padValue: string, raw: string)
    requires eq < |line| && line[eq] == '=' && line[..eq] == key + padKey && line[eq + 1..] == padValue + raw
    ensures key + padKey + "=" + (padValue + raw) == line
  {
    assert line == line[..eq] + "=" + line[eq + 1..];
  }

  lemma KeyParts(line: string, eq: nat) returns (behind: string)
    requires Tight(line) && eq <= |line| && Trim(line[..eq]) != ""
    ensures IsBlank(behind) && line[..eq] == Trim(line[..eq]) + behind
  {
    var before;
    before, behind := TrimParts(line[..eq]);
    FirstOf(line, eq, before, Trim(line[..eq]) + behind);
    assert before == "";
  }

  lemma RawParts(line: string, from: nat) returns (before: string)
    requires Tight(line) && from <= |line| && Trim(line[from..]) != ""
    ensures IsBlank(before) && line[from..] == before + Trim(line[from..])
  {
    var behind;
    before, behind := TrimParts(line[from..]);
    LastOf(line, from, before + Trim(line[from..]), behind);
    assert behind == "";
  }

  lemma FirstOf(line: string, n: nat, a: string, b: string)
    requires n <= |line| && line[..n] == a + b
    ensures a != "" ==> line[0] == a[0]
  {
    assert a != "" ==> line[..n][0] == (a + b)[0];
  }

  lemma LastOf(line: string, n: nat, a: string, b: string)
    requires n <= |line| && line[n..] == a + b
    ensures b != "" ==> line[|line| - 1] == b[|b| - 1]
  {
    assert b != "" ==> line[n..][|line| - n - 1] == (a + b)[|a + b| - 1];
  }

  lemma HeaderIsWritten(line: string) returns (c: Content)
    requires line == "" || line == "[vendor]" || line == "[[devices]]"
    ensures GoodContent(c) && RenderContent(c) == line
  {
    c := if line == "" then Nothing else if line == "[vendor]" then VendorHeader else DeviceHeader;
  }

  lemma AssignmentIsWritten(st: Reader, line: string) returns (c: Content)
    requires st.Valid() && Tight(line) && line[0] != '#' && ReadLine(st, line).Ok?
    requires line != "[vendor]" && line != "[[devices]]"
    ensures GoodContent(c) && RenderContent(c) == line
  {
    var eq := IndexOf(line, '=');
    AssignedKnows(st, Trim(line[..eq]), Trim(line[eq + 1..]));
    c := FieldIsWritten(line, eq, Trim(line[..eq]), Trim(line[eq + 1..]));
  }

  lemma ContentIsWritten(st: Reader, line: string) returns (c: Content)
    requires st.Valid() && (line == "" || (Tight(line) && line[0] != '#')) && ReadLine(st, line).Ok?
    ensures GoodContent(c) && RenderContent(c) == line
  {
    if line == "" || line == "[vendor]" || line == "[[devices]]" {
      c := HeaderIsWritten(line);
    } else {
      c := AssignmentIsWritten(st, line);
    }
  }

  lemma LineIsNoComment(raw: string, before: string, line: string, behind: string, comment: string)
    requires IsBlank(before) && Stripped(raw, START) == before + line + behind
    requires raw == Stripped(raw, START) + comment
    ensures line != "" ==> line[0] != '#'
  {
    if line != "" && line[0] == '#' {
      assert raw == before + (line + behind + comment);
      NoCommentStarts(raw, before, line, line + behind + comment);
    }
  }

  /** A line the reader accepts is one an author can write. */
  lemma LineIsWritten(st: Reader, raw: string) returns (l: Line)
    requires st.Valid() && ReadLine(st, Trim(Stripped(raw, START))).Ok?
    ensures GoodLine(l) && RenderLine(l) == raw
  {
    var kept := Stripped(raw, START);
    var comment := StrippedCuts(raw, START);
    var before, behind := TrimParts(kept);
    var line := Trim(kept);
    LineIsNoComment(raw, before, line, behind, comment);
    var c := ContentIsWritten(st, line);
    l := Line(before, c, behind, comment);
  }

  predicate IsLine(l: Line, raw: string) { GoodLine(l) && RenderLine(l) == raw }

  lemma {:induction false} LinesAreWritten(st: Reader, raws: seq<string>, i: nat) returns (lines: seq<Line>)
    requires st.Valid() && i <= |raws| && ReadLines(st, raws, i).Ok?
    ensures AreLines(lines, raws, i)
    decreases |raws| - i
  {
    lines := [];
    if i < |raws| {
      var next := FirstReads(st, raws, i);
      var l := LineIsWritten(st, raws[i]);
      var rest := LinesAreWritten(next, raws, i + 1);
      lines := [l] + rest;
      OneMoreLine(l, rest, raws, i);
    }
  }

  /** The lines are those of the source from `i` on. */
  predicate AreLines(lines: seq<Line>, raws: seq<string>, i: nat) {
    i <= |raws| && |lines| == |raws| - i && forall k :: 0 <= k < |lines| ==> IsLine(lines[k], raws[i + k])
  }

  lemma OneMoreLine(l: Line, rest: seq<Line>, raws: seq<string>, i: nat)
    requires i < |raws| && IsLine(l, raws[i]) && AreLines(rest, raws, i + 1)
    ensures AreLines([l] + rest, raws, i)
  {
    var lines := [l] + rest;
    forall k | 0 <= k < |lines| ensures IsLine(lines[k], raws[i + k]) {
      assert k > 0 ==> lines[k] == rest[k - 1] && IsLine(rest[k - 1], raws[i + 1 + (k - 1)]);
    }
  }

  lemma FirstReads(st: Reader, raws: seq<string>, i: nat) returns (next: Reader)
    requires st.Valid() && i < |raws| && ReadLines(st, raws, i).Ok?
    ensures ReadLine(st, Trim(Stripped(raws[i], START))) == Ok(next) && next.Valid()
    ensures ReadLines(next, raws, i + 1).Ok?
  {
    next := ReadLine(st, Trim(Stripped(raws[i], START))).value;
  }

  // ----- Which acts go through -----

  /** Where an assignment goes: the vendor table, or the device whose header is act `header`. */
  datatype Home = Nowhere | Vendor | Device(header: nat)

  /** The home of an assignment that stands at act `n`: that of the last header before it. */
  function HomeAt(acts: seq<Act>, n: nat): (h: Home)
    requires n <= |acts|
    ensures h.Device? ==> h.header < n
  {
    if n == 0 then Nowhere
    else if acts[n - 1].OpenVendor? then Vendor
    else if acts[n - 1].OpenDevice? then Device(n - 1)
    else HomeAt(acts, n - 1)
  }

  function Known(h: Home): set<string> {
    match h
    case Nowhere => {}
    case Vendor => {"name", "vid", "website", "notes"}
    case Device(_) =>
      {"name", "vid", "pid", "type", "status", "verification", "driver", "transport", "leds", "notes"}
  }

  /** One of the first `n` acts assigns the key there. */
  ghost predicate Taken(acts: seq<Act>, n: nat, h: Home, key: string)
    requires n <= |acts|
  {
    exists k: nat :: k < n && Takes(acts, k, h, key)
  }

  predicate Takes(acts: seq<Act>, k: nat, h: Home, key: string)
    requires k < |acts|
  {
    acts[k].Set? && acts[k].key == key && HomeAt(acts, k) == h
  }

  /** An assignment needs a home that knows its key and has not taken it. */
  ghost predicate Admissible(acts: seq<Act>, i: nat)
    requires i < |acts|
  {
    acts[i].Set? ==>
      acts[i].key in Known(HomeAt(acts, i)) && !Taken(acts, i, HomeAt(acts, i), acts[i].key)
  }

  ghost predicate AllAdmissible(acts: seq<Act>, n: nat) {
    forall i: nat :: n <= i < |acts| ==> Admissible(acts, i)
  }

  /** The reader's state after the first `n` acts, as far as admission goes. */
  ghost predicate Tracks(acts: seq<Act>, n: nat, st: Reader)
    requires n <= |acts|
  {
    var h := HomeAt(acts, n);
    && st.Valid()
    && st.scope == (match h case Nowhere => Outside case Vendor => InVendor case Device(_) => InDevice)
    && (forall key :: key in st.doc.vendor <==> Taken(acts, n, Vendor, key))
    && (h.Device? ==> forall key :: key in st.Target() <==> Taken(acts, n, h, key))
  }

  lemma TakenStep(acts: seq<Act>, n: nat, h: Home, key: string)
    requires n < |acts|
    ensures Taken(acts, n + 1, h, key) <==> Taken(acts, n, h, key) || Takes(acts, n, h, key)
  {
  }

  /** A device that has just been opened has taken nothing. */
  lemma NothingTaken(acts: seq<Act>, n: nat, key: string)
    requires n < |acts|
    ensures !Taken(acts, n, Device(n), key)
  {
    forall k: nat | k < n ensures !Takes(acts, k, Device(n), key) {}
  }

  lemma Admitted(acts: seq<Act>, n: nat, st: Reader)
    requires n < |acts| && Tracks(acts, n, st)
    ensures Perform(st, acts[n]).Ok? <==> Admissible(acts, n)
  {
    assert Known(HomeAt(acts, n)) == if st.scope == Outside then {} else Allowed(st.scope);
  }

  lemma TracksSet(acts: seq<Act>, n: nat, st: Reader)
    requires n < |acts| && Tracks(acts, n, st) && acts[n].Set? && Perform(st, acts[n]).Ok?
    ensures Tracks(acts, n + 1, Perform(st, acts[n]).value)
  {
    forall key, h ensures Taken(acts, n + 1, h, key) <==> Taken(acts, n, h, key) || Takes(acts, n, h, key) {
      TakenStep(acts, n, h, key);
    }
  }

  lemma TracksOpen(acts: seq<Act>, n: nat, st: Reader)
    requires n < |acts| && Tracks(acts, n, st) && !acts[n].Set?
    ensures Perform(st, acts[n]).Ok? && Tracks(acts, n + 1, Perform(st, acts[n]).value)
  {
    forall key, h ensures Taken(acts, n + 1, h, key) <==> Taken(acts, n, h, key) {
      TakenStep(acts, n, h, key);
    }
    forall key ensures !Taken(acts, n, Device(n), key) { NothingTaken(acts, n, key); }
  }

  lemma {:induction false} PerformedExactly(acts: seq<Act>, n: nat, st: Reader)
    requires n <= |acts| && Tracks(acts, n, st)
    ensures PerformAll(st, acts, n).Ok? <==> AllAdmissible(acts, n)
    decreases |acts| - n
  {
    if n < |acts| {
      Admitted(acts, n, st);
      if Admissible(acts, n) {
        if acts[n].Set? { TracksSet(acts, n, st); } else { TracksOpen(acts, n, st); }
        PerformedExactly(acts, n + 1, Perform(st, acts[n]).value);
      }
      assert AllAdmissible(acts, n) <==> Admissible(acts, n) && AllAdmissible(acts, n + 1);
    }
  }

  // ----- Whole files -----

  predicate AllGood(lines: seq<Line>) { forall i :: 0 <= i < |lines| ==> GoodLine(lines[i]) }

  function ActsOf(lines: seq<Line>): (acts: seq<Act>)
    requires AllGood(lines)
    ensures Spell(lines, acts)
  {
    if lines == [] then []
    else
      var last := |lines| - 1;
      assert GoodLine(lines[last]);
      ActsOf(lines[..last]) + [ActOf(lines[last].content)]
  }

  /** Written lines that ask only for admissible acts. */
  ghost predicate Acceptable(lines: seq<Line>, raws: seq<string>) {
    AreLines(lines, raws, 0) && AllGood(lines) && AllAdmissible(ActsOf(lines), 0)
  }

  lemma LinesDecide(lines: seq<Line>, raws: seq<string>)
    requires AreLines(lines, raws, 0) && AllGood(lines)
    ensures ReadLines(EMPTY, raws, 0).Ok? <==> AllAdmissible(ActsOf(lines), 0)
  {
    assert RenderLines(lines) == raws;
    LinesRead(EMPTY, lines, ActsOf(lines), 0);
    PerformedExactly(ActsOf(lines), 0, EMPTY);
  }

  /**
   A text is read exactly when every line of it is one of the grammar, every assignment stands
   in a section that knows its key, and no table is given a key twice.
   */
  lemma AcceptedExactly(src: string)
    ensures ReadLines(EMPTY, Lines(src), 0).Ok? <==> exists lines :: Acceptable(lines, Lines(src))
  {
    var raws := Lines(src);
    if ReadLines(EMPTY, raws, 0).Ok? {
      var lines := LinesAreWritten(EMPTY, raws, 0);
      assert forall i :: 0 <= i < |lines| ==> IsLine(lines[i], raws[i]);
      LinesDecide(lines, raws);
      assert Acceptable(lines, raws);
    }
    forall lines | Acceptable(lines, raws) ensures ReadLines(EMPTY, raws, 0).Ok? {
      LinesDecide(lines, raws);
    }
  }
}
