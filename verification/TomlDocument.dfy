/** The vendor-file reader line by line, and the printer it undoes. */
module TomlDocument {
  import opened Common
  import opened TomlScan
  import opened TomlValue
  import opened TomlRoundTrip

  // ----- Printing values -----

  /** Values with a written form here: integers are the only numbers a vendor file needs printed. */
  predicate Printable(v: Value) {
    match v
    case Number(n) => n == n.Floor as real
    case List(items) => forall i :: 0 <= i < |items| ==> Printable(items[i])
    case _ => true
  }

  /** The characters with an escape, and the letters they are escaped by, place by place. */
  const SPECIAL := "\"\\\n\t\r\U{8}\U{C}/"
  const LETTERS := "\"\\ntrbf/"

  function TokenFor(c: char): Token {
    var i := IndexOf(SPECIAL, c);
    if i < |SPECIAL| then Escaped(LETTERS[i]) else Plain(c)
  }

  function TokensFor(s: string): seq<Token> {
    if s == "" then [] else [TokenFor(s[0])] + TokensFor(s[1..])
  }

  function DigitsFor(n: nat): string {
    (if n < 10 then "" else DigitsFor(n / 10)) + [('0' as nat + n % 10) as char]
  }

  function PrintNumber(n: real): Syntax {
    Decimal(n < 0.0, DigitsFor(if n < 0.0 then -n.Floor else n.Floor))
  }

  function Print(v: Value): Syntax
    requires Printable(v)
  {
    match v
    case Text(s) => Quote(TokensFor(s))
    case Number(n) => PrintNumber(n)
    case Flag(b) => Literal(b)
    case List(items) => Array(PrintAll(items))
  }

  function PrintAll(items: seq<Value>): seq<Item>
    requires forall i :: 0 <= i < |items| ==> Printable(items[i])
  {
    if items == [] then [] else [Cell("", Print(items[0]), "")] + PrintAll(items[1..])
  }

  /** Each of the eight letters stands for its character, and no other letter for any. */
  lemma EscapesAre(letter: char)
    ensures forall i :: 0 <= i < |SPECIAL| ==> Escape(LETTERS[i]) == Some(SPECIAL[i])
    ensures Escape(letter).Some? <==> letter in LETTERS
  {
    assert |SPECIAL| == |LETTERS| == 8;
    assert LETTERS == ['"', '\\', 'n', 't', 'r', 'b', 'f', '/'];
    assert SPECIAL == ['"', '\\', '\n', '\t', '\r', '\U{8}', '\U{C}', '/'];
  }

  lemma {:induction false} TokensDenote(s: string)
    ensures GoodTokens(TokensFor(s)) && DenoteTokens(TokensFor(s)) == s
  {
    if s != "" {
      TokensDenote(s[1..]);
      EscapesAre('n');
      assert SPECIAL[0] == '"' && SPECIAL[1] == '\\';
      assert GoodToken(TokenFor(s[0]));
    }
  }

  lemma {:induction false} DigitsDenote(n: nat)
    ensures AreDigits(DigitsFor(n)) && ValueOf(DigitsFor(n), 10) == n
  {
    var last := ('0' as nat + n % 10) as char;
    assert IsDigit(last) && DigitOf(last) == n % 10;
    if n >= 10 {
      DigitsDenote(n / 10);
      assert DigitsFor(n)[..|DigitsFor(n)| - 1] == DigitsFor(n / 10);
    } else {
      assert DigitsFor(n) == [last] && [last][..0] == "";
    }
  }

  lemma WholeDenotes(negative: bool, n: nat)
    ensures WellFormed(Decimal(negative, DigitsFor(n)))
    ensures Denote(Decimal(negative, DigitsFor(n))) == Number(Signed(negative, n as real))
  {
    DigitsDenote(n);
  }

  lemma NumberDenotes(n: real)
    requires n == n.Floor as real
    ensures WellFormed(PrintNumber(n)) && Denote(PrintNumber(n)) == Number(n)
  {
    if n < 0.0 {
      WholeDenotes(true, -n.Floor);
    } else {
      WholeDenotes(false, n.Floor);
    }
  }

  /** Printing is right: what is printed stands for the value. */
  lemma {:induction false} PrintDenotes(v: Value)
    requires Printable(v)
    ensures WellFormed(Print(v)) && Denote(Print(v)) == v
  {
    match v
    case Text(s) => TokensDenote(s);
    case Number(n) => NumberDenotes(n);
    case Flag(_) =>
    case List(items) => PrintAllDenotes(items);
  }

  lemma {:induction false} PrintAllDenotes(items: seq<Value>)
    requires forall i :: 0 <= i < |items| ==> Printable(items[i])
    ensures GoodItems(PrintAll(items)) && DenoteItems(PrintAll(items)) == items
  {
    if items != [] {
      PrintDenotes(items[0]);
      PrintAllDenotes(items[1..]);
      assert PrintAll(items)[1..] == PrintAll(items[1..]);
    }
  }

  /** Print, pad, comment, strip, trim, parse: the value comes back. */
  lemma ValueRoundTrip(v: Value, before: string, behind: string, comment: string)
    requires Printable(v) && IsBlank(before) && IsBlank(behind) && IsComment(comment)
    ensures ParseValue(Trim(Stripped(before + Render(Print(v)) + behind + comment, START))) == Ok(v)
  {
    PrintDenotes(v);
    LineRoundTrip(Print(v), before, behind, comment);
  }

  // ----- The reader -----

  type Table = map<string, Value>

  datatype Document = Document(vendor: Table, devices: seq<Table>)

  datatype Scope = Outside | InVendor | InDevice

  datatype Problem =
    | UnsupportedHeader
    | ExpectedAssignment
    | OutsideSection
    | UnknownKey
    | DuplicateKey
    | BadValue(error: Error)

  /** The document so far and the table assignments go to. */
  datatype Reader = Reader(doc: Document, scope: Scope) {
    predicate Valid() { scope == InDevice ==> doc.devices != [] }

    function Target(): Table
      requires Valid()
    {
      match scope
      case Outside => map[]
      case InVendor => doc.vendor
      case InDevice => doc.devices[|doc.devices| - 1]
    }

    /** The devices before the current one. */
    function Closed(): seq<Table>
      requires Valid()
    {
      if scope == InDevice then doc.devices[..|doc.devices| - 1] else doc.devices
    }

    function Put(key: string, v: Value): (r: Reader)
      requires Valid() && scope != Outside
      ensures r.Valid() && r.scope == scope && r.Target() == Target()[key := v]
      ensures scope == InVendor ==> r.doc.devices == doc.devices
      ensures scope == InDevice ==> r.doc.vendor == doc.vendor && r.Closed() == Closed()
    {
      if scope == InVendor then Reader(Document(doc.vendor[key := v], doc.devices), scope)
      else
        var last := |doc.devices| - 1;
        Reader(Document(doc.vendor, doc.devices[last := doc.devices[last][key := v]]), scope)
    }

    function NewDevice(): (r: Reader)
      ensures r.Valid()
    {
      Reader(Document(doc.vendor, doc.devices + [map[]]), InDevice)
    }
  }

  const EMPTY := Reader(Document(map[], []), Outside)

  const VENDOR_KEYS := {"name", "vid", "website", "notes"}

  const DEVICE_KEYS :=
    {"pid", "vid", "name", "type", "status", "verification", "driver", "transport", "leds", "notes"}

  function Allowed(scope: Scope): set<string> {
    if scope == InVendor then VENDOR_KEYS else DEVICE_KEYS
  }

  /** What an assignment does, once its parts are known. */
  function Assigned(st: Reader, key: string, v: Result<Value, Error>): (r: Result<Reader, Problem>)
    requires st.Valid()
    ensures r.Ok? ==> r.value.Valid()
  {
    if st.scope == Outside then Err(OutsideSection)
    else if key !in Allowed(st.scope) then Err(UnknownKey)
    else if key in st.Target() then Err(DuplicateKey)
    else if v.Err? then Err(BadValue(v.error))
    else Ok(st.Put(key, v.value))
  }

  /** One line, already stripped and trimmed. */
  function ReadLine(st: Reader, line: string): (r: Result<Reader, Problem>)
    requires st.Valid()
    ensures r.Ok? ==> r.value.Valid()
  {
    if line == "" || line[0] == '#' then Ok(st)
    else if line == "[[devices]]" then Ok(st.NewDevice())
    else if line == "[vendor]" then Ok(st.(scope := InVendor))
    else if line[0] == '[' then Err(UnsupportedHeader)
    else
      var eq := IndexOf(line, '=');
      if eq == |line| then Err(ExpectedAssignment)
      else Assigned(st, Trim(line[..eq]), ParseValue(Trim(line[eq + 1..])))
  }

  /** All lines from the given one on; an error carries its line's index. */
  function ReadLines(st: Reader, lines: seq<string>, i: nat): Result<Document, (nat, Problem)>
    requires st.Valid() && i <= |lines|
    decreases |lines| - i
  {
    if i == |lines| then Ok(st.doc)
    else
      match ReadLine(st, Trim(Stripped(lines[i], START)))
      case Err(p) => Err((i, p))
      case Ok(next) => ReadLines(next, lines, i + 1)
  }

  /** Splitting at `\n` or `\r\n`. */
  function Lines(src: string): seq<string> {
    var n := IndexOf(src, '\n');
    if n == |src| then [src]
    else [if n > 0 && src[n - 1] == '\r' then src[..n - 1] else src[..n]] + Lines(src[n + 1..])
  }

  /** `parseToml`. */
  method ParseToml(src: string) returns (r: Result<Document, (nat, Problem)>)
    ensures r == ReadLines(EMPTY, Lines(src), 0)
  {
    var lines := Lines(src);
    var out := EMPTY;
    for i := 0 to |lines|
      invariant out.Valid()
      invariant ReadLines(EMPTY, lines, 0) == ReadLines(out, lines, i)
    {
      var kept := StripTrailingComment(lines[i]);
      var line := Trim(kept);
      if line == "" || line[0] == '#' {
      } else if line == "[[devices]]" {
        out := out.NewDevice();
      } else if line == "[vendor]" {
        out := out.(scope := InVendor);
      } else if line[0] == '[' {
        return Err((i, UnsupportedHeader));
      } else {
        var eq := IndexOf(line, '=');
        if eq == |line| {
          return Err((i, ExpectedAssignment));
        }
        var next := Assigned(out, Trim(line[..eq]), ParseValue(Trim(line[eq + 1..])));
        if next.Err? {
          return Err((i, next.error));
        }
        out := next.value;
      }
    }
    return Ok(out.doc);
  }

  // ----- What reading keeps, for every text -----

  /** Only the documented keys. */
  predicate KnownKeys(doc: Document) {
    doc.vendor.Keys <= VENDOR_KEYS && forall i :: 0 <= i < |doc.devices| ==> doc.devices[i].Keys <= DEVICE_KEYS
  }

  predicate Within(a: Table, b: Table) {
    forall k :: k in a ==> k in b && b[k] == a[k]
  }

  /** Everything in the first document is in the second, at the same place and with the same value. */
  predicate Extends(a: Document, b: Document) {
    && Within(a.vendor, b.vendor) && |a.devices| <= |b.devices|
    && forall i :: 0 <= i < |a.devices| ==> Within(a.devices[i], b.devices[i])
  }

  lemma AssignmentKeeps(st: Reader, key: string, v: Result<Value, Error>)
    requires st.Valid() && KnownKeys(st.doc) && Assigned(st, key, v).Ok?
    ensures KnownKeys(Assigned(st, key, v).value.doc) && Extends(st.doc, Assigned(st, key, v).value.doc)
  {
  }

  lemma SectionKeeps(st: Reader)
    requires KnownKeys(st.doc)
    ensures KnownKeys(st.doc) && Extends(st.doc, st.doc)
    ensures KnownKeys(st.NewDevice().doc) && Extends(st.doc, st.NewDevice().doc)
  {
  }

  /** A line leaves the document, opens a device or makes an assignment. */
  lemma LineIsOneOf(st: Reader, line: string) returns (key: string, v: Result<Value, Error>)
    requires st.Valid() && ReadLine(st, line).Ok?
    ensures
      var next := ReadLine(st, line);
      next.value.doc == st.doc || next.value == st.NewDevice() || next == Assigned(st, key, v)
  {
    key, v := "", Err(EmptyValue);
    if line != "" && line[0] != '#' && line[0] != '[' {
      var eq := IndexOf(line, '=');
      if eq < |line| {
        key, v := Trim(line[..eq]), ParseValue(Trim(line[eq + 1..]));
        AssignmentRead(st, line, key, Trim(line[eq + 1..]));
      }
    }
  }

  lemma LineKeeps(st: Reader, line: string)
    requires st.Valid() && KnownKeys(st.doc) && ReadLine(st, line).Ok?
    ensures KnownKeys(ReadLine(st, line).value.doc) && Extends(st.doc, ReadLine(st, line).value.doc)
  {
    var key, v := LineIsOneOf(st, line);
    SectionKeeps(st);
    if Assigned(st, key, v).Ok? { AssignmentKeeps(st, key, v); }
  }

  lemma {:induction false} LinesKeep(st: Reader, lines: seq<string>, i: nat)
    requires st.Valid() && i <= |lines| && KnownKeys(st.doc) && ReadLines(st, lines, i).Ok?
    ensures KnownKeys(ReadLines(st, lines, i).value) && Extends(st.doc, ReadLines(st, lines, i).value)
    decreases |lines| - i
  {
    if i < |lines| {
      var line := Trim(Stripped(lines[i], START));
      LineKeeps(st, line);
      LinesKeep(ReadLine(st, line).value, lines, i + 1);
    }
  }

  /** Whatever the text, a document that is read holds only documented keys. */
  lemma OnlyKnownKeys(src: string)
    requires ReadLines(EMPTY, Lines(src), 0).Ok?
    ensures KnownKeys(ReadLines(EMPTY, Lines(src), 0).value)
  {
    LinesKeep(EMPTY, Lines(src), 0);
  }

  // ----- Written documents -----

  /** A line as an author writes it: what it says, and the spacing and comment around it. */
  datatype Line = Line(before: string, content: Content, behind: string, comment: string)

  datatype Content =
    | Nothing
    | VendorHeader
    | DeviceHeader
    | Field(key: string, padKey: string, padValue: string, value: Syntax)

  predicate GoodKey(key: string) { Solid(key) && '=' !in key }

  predicate GoodContent(c: Content) {
    c.Field? ==> GoodKey(c.key) && IsBlank(c.padKey) && IsBlank(c.padValue) && WellFormed(c.value)
  }

  predicate GoodLine(l: Line) {
    GoodContent(l.content) && IsBlank(l.before) && IsBlank(l.behind) && IsComment(l.comment)
  }

  function RenderContent(c: Content): string {
    match c
    case Nothing => ""
    case VendorHeader => "[" + "vendor" + "]"
    case DeviceHeader => "[" + ("[" + "devices" + "]") + "]"
    case Field(key, padKey, padValue, value) => key + padKey + "=" + (padValue + Render(value))
  }

  function RenderLine(l: Line): string { l.before + RenderContent(l.content) + l.behind + l.comment }

  /** What a line asks of the reader, whatever its spelling. */
  datatype Act = Skip | OpenVendor | OpenDevice | Set(key: string, value: Value)

  function ActOf(c: Content): Act
    requires GoodContent(c)
  {
    match c
    case Nothing => Skip
    case VendorHeader => OpenVendor
    case DeviceHeader => OpenDevice
    case Field(key, _, _, value) => Set(key, Denote(value))
  }

  function Perform(st: Reader, act: Act): (r: Result<Reader, Problem>)
    requires st.Valid()
    ensures r.Ok? ==> r.value.Valid()
  {
    match act
    case Skip => Ok(st)
    case OpenVendor => Ok(st.(scope := InVendor))
    case OpenDevice => Ok(st.NewDevice())
    case Set(key, value) => Assigned(st, key, Ok(value))
  }

  function PerformAll(st: Reader, acts: seq<Act>, i: nat): Result<Document, (nat, Problem)>
    requires st.Valid() && i <= |acts|
    decreases |acts| - i
  {
    if i == |acts| then Ok(st.doc)
    else
      match Perform(st, acts[i])
      case Err(p) => Err((i, p))
      case Ok(next) => PerformAll(next, acts, i + 1)
  }

  lemma FieldPasses(c: Content)
    requires c.Field? && GoodContent(c)
    ensures Passes(RenderContent(c), 0)
  {
    OrdinaryPasses(c.key, 0);
    BlankIsOrdinary(c.padKey);
    OrdinaryPasses(c.padKey, 0);
    SealedTogether(c.key, c.padKey, Top(0));
    OneCharacter('=', Top(0));
    SealedTogether(c.key + c.padKey, "=", Top(0));
    ItemPasses(Cell(c.padValue, c.value, ""), 0);
    assert c.padValue + Render(c.value) + "" == c.padValue + Render(c.value);
    SealedTogether(c.key + c.padKey + "=", c.padValue + Render(c.value), Top(0));
  }

  lemma HeaderPasses(name: string)
    requires Ordinary(name)
    ensures Passes("[" + name + "]", 0) && Passes("[" + ("[" + name + "]") + "]", 0)
  {
    OrdinaryPasses(name, 1);
    BracketsPass(name, 0);
    OrdinaryPasses(name, 2);
    BracketsPass(name, 1);
    BracketsPass("[" + name + "]", 0);
  }

  lemma ContentPasses(c: Content)
    requires GoodContent(c)
    ensures Passes(RenderContent(c), 0)
  {
    match c
    case Nothing =>
    case VendorHeader => HeaderPasses("vendor");
    case DeviceHeader => HeaderPasses("devices");
    case Field(_, _, _, _) => FieldPasses(c);
  }

  lemma FieldIsTight(c: Content)
    requires c.Field? && GoodContent(c)
    ensures Tight(RenderContent(c))
  {
    RenderIsTight(c.value);
    var t := RenderContent(c);
    assert t[0] == c.key[0];
    assert t[|t| - 1] == Render(c.value)[|Render(c.value)| - 1];
  }

  /** Stripping the comment and trimming leaves exactly the content. */
  lemma LineIsContent(l: Line)
    requires GoodLine(l)
    ensures Trim(Stripped(RenderLine(l), START)) == RenderContent(l.content)
  {
    var text := RenderContent(l.content);
    ContentPasses(l.content);
    BlankIsOrdinary(l.before);
    BlankIsOrdinary(l.behind);
    OrdinaryPasses(l.before, 0);
    OrdinaryPasses(l.behind, 0);
    SealedTogether(l.before, text, Top(0));
    SealedTogether(l.before + text, l.behind, Top(0));
    StrippedPasses(l.before + text + l.behind, l.comment, Top(0));
    assert Stripped(RenderLine(l), START) == l.before + text + l.behind;
    TrimContent(l);
  }

  lemma TrimContent(l: Line)
    requires GoodLine(l)
    ensures Trim(l.before + RenderContent(l.content) + l.behind) == RenderContent(l.content)
  {
    if l.content.Nothing? {
      assert l.before + "" + l.behind == l.before + l.behind;
      TrimBlank(l.before + l.behind);
    } else {
      if l.content.Field? { FieldIsTight(l.content); }
      TrimPadded(l.before, RenderContent(l.content), l.behind);
    }
  }

  lemma FieldParts(c: Content)
    requires c.Field? && GoodContent(c)
    ensures
      var line := RenderContent(c);
      var eq := IndexOf(line, '=');
      && line != "" && line[0] != '#' && line[0] != '[' && eq < |line|
      && Trim(line[..eq]) == c.key && Trim(line[eq + 1..]) == Render(c.value)
  {
    var line := RenderContent(c);
    assert c.key[0] !in "\"\\#,[]" && line[0] == c.key[0];
    var left, right := c.key + c.padKey, c.padValue + Render(c.value);
    assert line == left + "=" + right;
    assert forall k :: 0 <= k < |c.padKey| ==> IsSpace(c.padKey[k]);
    assert '=' !in left;
    assert line[|left|] == '=' && IndexOf(line, '=') == |left|;
    assert line[..|left|] == left && line[|left| + 1..] == right;
    assert "" + c.key + c.padKey == left && right + "" == right;
    TrimPadded("", c.key, c.padKey);
    RenderIsTight(c.value);
    TrimPadded(c.padValue, Render(c.value), "");
  }

  lemma AssignmentRead(st: Reader, line: string, key: string, raw: string)
    requires st.Valid() && line != "" && line[0] != '#' && line[0] != '['
    requires var eq := IndexOf(line, '='); eq < |line| && Trim(line[..eq]) == key && Trim(line[eq + 1..]) == raw
    ensures ReadLine(st, line) == Assigned(st, key, ParseValue(raw))
  {
    assert line != "[vendor]" && line != "[[devices]]";
  }

  lemma FieldRead(st: Reader, c: Content)
    requires st.Valid() && c.Field? && GoodContent(c)
    ensures ReadLine(st, RenderContent(c)) == Assigned(st, c.key, Ok(Denote(c.value)))
  {
    FieldParts(c);
    AssignmentRead(st, RenderContent(c), c.key, Render(c.value));
    ParseRender(c.value);
  }

  lemma HeaderRead(st: Reader, c: Content)
    requires st.Valid() && (c.VendorHeader? || c.DeviceHeader?)
    ensures ReadLine(st, RenderContent(c)) == Perform(st, ActOf(c))
  {
    if c.VendorHeader? {
      assert RenderContent(c) == "[vendor]";
      assert RenderContent(c)[1] == 'v';
    } else {
      assert RenderContent(c) == "[[devices]]";
    }
  }

  /** The reader does with a written line what the line asks, in every state and for every error. */
  lemma LineRead(st: Reader, l: Line)
    requires st.Valid() && GoodLine(l)
    ensures ReadLine(st, Trim(Stripped(RenderLine(l), START))) == Perform(st, ActOf(l.content))
  {
    LineIsContent(l);
    match l.content
    case Nothing =>
    case Field(_, _, _, _) => FieldRead(st, l.content);
    case _ => HeaderRead(st, l.content);
  }

  function RenderLines(lines: seq<Line>): (r: seq<string>)
    ensures |r| == |lines| && forall i :: 0 <= i < |lines| ==> r[i] == RenderLine(lines[i])
  {
    seq(|lines|, i requires 0 <= i < |lines| => RenderLine(lines[i]))
  }

  /** The lines spell out the acts. */
  predicate Spell(lines: seq<Line>, acts: seq<Act>) {
    |lines| == |acts| && forall i :: 0 <= i < |lines| ==> GoodLine(lines[i]) && ActOf(lines[i].content) == acts[i]
  }

  lemma {:induction false} LinesRead(st: Reader, lines: seq<Line>, acts: seq<Act>, i: nat)
    requires st.Valid() && i <= |lines| && Spell(lines, acts)
    ensures ReadLines(st, RenderLines(lines), i) == PerformAll(st, acts, i)
    decreases |lines| - i
  {
    if i < |lines| {
      LineRead(st, lines[i]);
      var next := Perform(st, acts[i]);
      if next.Ok? { LinesRead(next.value, lines, acts, i + 1); }
    }
  }

  // ----- Line ends -----

  function Join(lines: seq<string>, eol: string): string
    requires lines != []
  {
    if |lines| == 1 then lines[0] else lines[0] + eol + Join(lines[1..], eol)
  }

  predicate OneLine(s: string) { '\n' !in s && (s != "" ==> s[|s| - 1] != '\r') }

  lemma {:induction false} LinesOfJoin(lines: seq<string>, eol: string)
    requires lines != [] && eol in {"\n", "\r\n"} && forall i :: 0 <= i < |lines| ==> OneLine(lines[i])
    ensures Lines(Join(lines, eol)) == lines
  {
    var first := lines[0];
    if |lines| > 1 {
      LinesOfJoin(lines[1..], eol);
      FirstLine(first, eol, Join(lines[1..], eol));
    }
  }

  lemma LinesAt(src: string, n: nat)
    requires n < |src| && src[n] == '\n' && '\n' !in src[..n]
    ensures Lines(src) == [if n > 0 && src[n - 1] == '\r' then src[..n - 1] else src[..n]] + Lines(src[n + 1..])
  {
    assert forall k :: 0 <= k < n ==> src[..n][k] == src[k];
  }

  lemma FirstUnixLine(first: string, rest: string)
    requires OneLine(first)
    ensures Lines(first + "\n" + rest) == [first] + Lines(rest)
  {
    var src := first + "\n" + rest;
    assert src[..|first|] == first && src[|first| + 1..] == rest;
    assert |first| > 0 ==> src[|first| - 1] == first[|first| - 1];
    LinesAt(src, |first|);
  }

  lemma FirstDosLine(first: string, rest: string)
    requires OneLine(first)
    ensures Lines(first + "\r\n" + rest) == [first] + Lines(rest)
  {
    var src := first + "\r\n" + rest;
    assert src[..|first| + 1] == first + ['\r'] && src[|first| + 2..] == rest && src[..|first|] == first;
    LinesAt(src, |first| + 1);
  }

  lemma FirstLine(first: string, eol: string, rest: string)
    requires eol in {"\n", "\r\n"} && OneLine(first)
    ensures Lines(first + eol + rest) == [first] + Lines(rest)
  {
    if eol == "\n" { FirstUnixLine(first, rest); } else { FirstDosLine(first, rest); }
  }

  /**
   Reading a written file does what its lines ask: every spelling of the values, every
   comment, either line end, and the same error at the same line when there is one.
   */
  lemma FileRead(lines: seq<Line>, acts: seq<Act>, eol: string)
    requires lines != [] && eol in {"\n", "\r\n"} && Spell(lines, acts)
    requires forall i :: 0 <= i < |lines| ==> OneLine(RenderLine(lines[i]))
    ensures ReadLines(EMPTY, Lines(Join(RenderLines(lines), eol)), 0) == PerformAll(EMPTY, acts, 0)
  {
    LinesOfJoin(RenderLines(lines), eol);
    LinesRead(EMPTY, lines, acts, 0);
  }
}
