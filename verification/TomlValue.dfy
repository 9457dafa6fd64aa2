/**
 The value parser of the vendor-file reader, the concrete syntax it is meant to
 read, and the proof that reading undoes writing.
 */
module TomlValue {
  import opened Common
  import opened TomlScan

  datatype Value = Text(s: string) | Number(n: real) | Flag(b: bool) | List(items: seq<Value>)

  datatype Error =
    | EmptyValue
    | UnsupportedEscape
    | UnterminatedString
    | TrailingGarbage
    | UnterminatedArray
    | Unrecognized

  // ----- Strings -----

  /** The character an escape letter stands for. */
  function Escape(c: char): Option<char> {
    match c
    case '"' => Some('"')
    case '\\' => Some('\\')
    case 'n' => Some('\n')
    case 't' => Some('\t')
    case 'r' => Some('\r')
    case 'b' => Some('\U{8}')
    case 'f' => Some('\U{C}')
    case '/' => Some('/')
    case _ => None
  }

  /** A string's value and how many characters it took, its closing quote included. */
  datatype Quoted = Quoted(value: string, used: nat)

  function After(prefix: string, skipped: nat, q: Result<Quoted, Error>): Result<Quoted, Error> {
    if q.Ok? then Ok(Quoted(prefix + q.value.value, skipped + q.value.used)) else q
  }

  /** The rest of a string, read from just behind the opening quote or anywhere between two characters. */
  function Unquote(s: string): (r: Result<Quoted, Error>)
    ensures r.Ok? ==> 0 < r.value.used <= |s| && s[r.value.used - 1] == '"'
  {
    if s == "" then Err(UnterminatedString)
    else if s[0] == '\\' then
      if |s| < 2 || Escape(s[1]).None? then Err(UnsupportedEscape)
      else After([Escape(s[1]).value], 2, Unquote(s[2..]))
    else if s[0] == '"' then Ok(Quoted("", 1))
    else After([s[0]], 1, Unquote(s[1..]))
  }

  lemma AfterNothing(q: Result<Quoted, Error>)
    ensures After("", 0, q) == q
  {
    if q.Ok? { assert "" + q.value.value == q.value.value; }
  }

  lemma AfterTwice(a: string, m: nat, b: string, n: nat, q: Result<Quoted, Error>)
    ensures After(a, m, After(b, n, q)) == After(a + b, m + n, q)
  {
    if q.Ok? { assert a + (b + q.value.value) == a + b + q.value.value; }
  }

  /** `parseString`: the value, and the index of the closing quote. */
  method ParseString(raw: string) returns (r: Result<(string, nat), Error>)
    requires raw != "" && raw[0] == '"'
    ensures Unquote(raw[1..]).Err? ==> r == Err(Unquote(raw[1..]).error)
    ensures Unquote(raw[1..]).Ok? ==> r == Ok((Unquote(raw[1..]).value.value, Unquote(raw[1..]).value.used))
  {
    var buf := "";
    var i := 1;
    AfterNothing(Unquote(raw[1..]));
    while i < |raw|
      invariant 1 <= i <= |raw|
      invariant Unquote(raw[1..]) == After(buf, i - 1, Unquote(raw[i..]))
    {
      var ch := raw[i];
      if ch == '\\' {
        if i + 1 < |raw| && Escape(raw[i + 1]).Some? {
          assert raw[i..][2..] == raw[i + 2..];
          AfterTwice(buf, i - 1, [Escape(raw[i + 1]).value], 2, Unquote(raw[i + 2..]));
          buf := buf + [Escape(raw[i + 1]).value];
          i := i + 2;
          continue;
        }
        return Err(UnsupportedEscape);
      }
      if ch == '"' {
        assert buf + "" == buf;
        return Ok((buf, i));
      }
      assert raw[i..][1..] == raw[i + 1..];
      AfterTwice(buf, i - 1, [ch], 1, Unquote(raw[i + 1..]));
      buf := buf + [ch];
      i := i + 1;
    }
    return Err(UnterminatedString);
  }

  // ----- Numbers -----

  predicate IsDigit(c: char) { '0' <= c <= '9' }

  predicate IsHexDigit(c: char) { IsDigit(c) || 'a' <= c <= 'f' || 'A' <= c <= 'F' }

  function DigitOf(c: char): (d: nat)
    requires IsHexDigit(c)
    ensures d < 16 && (IsDigit(c) ==> d < 10)
  {
    if IsDigit(c) then c as nat - '0' as nat
    else if c <= 'F' then c as nat - 'A' as nat + 10
    else c as nat - 'a' as nat + 10
  }

  predicate AreDigits(s: string) { s != "" && forall i :: 0 <= i < |s| ==> IsDigit(s[i]) }

  predicate AreHexDigits(s: string) { s != "" && forall i :: 0 <= i < |s| ==> IsHexDigit(s[i]) }

  function ValueOf(s: string, radix: nat): (n: nat)
    requires forall i :: 0 <= i < |s| ==> IsHexDigit(s[i])
  {
    if s == "" then 0 else ValueOf(s[..|s| - 1], radix) * radix + DigitOf(s[|s| - 1])
  }

  function Ten(n: nat): (r: nat)
    ensures r > 0
  {
    if n == 0 then 1 else 10 * Ten(n - 1)
  }

  function Signed(negative: bool, n: real): real { if negative then -n else n }

  function IndexOf(s: string, c: char): (i: nat)
    ensures i <= |s| && (i < |s| ==> s[i] == c) && forall k :: 0 <= k < i ==> s[k] != c
  {
    if s == "" || s[0] == c then 0 else 1 + IndexOf(s[1..], c)
  }

  function LastIndexOf(s: string, c: char): (i: int)
    ensures -1 <= i < |s| && (i >= 0 ==> s[i] == c) && forall k :: i < k < |s| ==> s[k] != c
  {
    if s == "" then -1 else if s[|s| - 1] == c then |s| - 1 else LastIndexOf(s[..|s| - 1], c)
  }

  /** The three numeric patterns behind their optional sign, tried in the source's order. */
  function ParseUnsigned(body: string): Option<real> {
    var dot := IndexOf(body, '.');
    if |body| > 2 && body[..2] == "0x" && AreHexDigits(body[2..]) then Some(ValueOf(body[2..], 16) as real)
    else if AreDigits(body) then Some(ValueOf(body, 10) as real)
    else if dot < |body| && AreDigits(body[..dot]) && AreDigits(body[dot + 1..]) then
      Some(DecimalOf(body[..dot], body[dot + 1..]))
    else None
  }

  function ParseNumber(raw: string): Option<real> {
    var negative := raw != "" && raw[0] == '-';
    match ParseUnsigned(if negative then raw[1..] else raw)
    case None => None
    case Some(n) => Some(Signed(negative, n))
  }

  function DecimalOf(whole: string, part: string): real
    requires AreDigits(whole) && AreDigits(part)
  {
    ValueOf(whole, 10) as real + ValueOf(part, 10) as real / Ten(|part|) as real
  }

  // ----- Values -----

  /** `parseValue`. */
  function ParseValue(raw: string): Result<Value, Error>
    decreases |raw|, 1, 0
  {
    if raw == "" then Err(EmptyValue)
    else if raw[0] == '"' then
      match Unquote(raw[1..])
      case Err(e) => Err(e)
      case Ok(q) => if |Trim(raw[q.used + 1..])| > 0 then Err(TrailingGarbage) else Ok(Text(q.value))
    else if raw[0] == '[' then
      var end := LastIndexOf(raw, ']');
      if end < 0 then Err(UnterminatedArray)
      else if |Trim(raw[end + 1..])| > 0 then Err(TrailingGarbage)
      else
        var inner := Trim(raw[1..end]);
        if inner == "" then Ok(List([]))
        else
          match ParseAll(Cells(Pieces(inner, Top(0))), |raw|)
          case Err(e) => Err(e)
          case Ok(items) => Ok(List(items))
    else if raw == "true" then Ok(Flag(true))
    else if raw == "false" then Ok(Flag(false))
    else if ParseNumber(raw).Some? then Ok(Number(ParseNumber(raw).value))
    else Err(Unrecognized)
  }

  /** The array's `map`, which stops at the first error. */
  function ParseAll(cells: seq<string>, bound: nat): Result<seq<Value>, Error>
    requires forall i :: 0 <= i < |cells| ==> |cells[i]| < bound
    decreases bound, 0, |cells|
  {
    if cells == [] then Ok([])
    else
      match ParseValue(cells[0])
      case Err(e) => Err(e)
      case Ok(first) =>
        match ParseAll(cells[1..], bound)
        case Err(e) => Err(e)
        case Ok(rest) => Ok([first] + rest)
  }

  // ----- Concrete syntax -----

  /** One character of a string as it is written. */
  datatype Token = Plain(c: char) | Escaped(letter: char)

  datatype Syntax =
    | Quote(tokens: seq<Token>)
    | Decimal(negative: bool, digits: string)
    | Hexadecimal(negative: bool, digits: string)
    | Fraction(negative: bool, digits: string, part: string)
    | Literal(b: bool)
    | Array(items: seq<Item>)

  /** What stands between two commas of an array; a gap is what a trailing comma leaves. */
  datatype Item = Gap(space: string) | Cell(before: string, value: Syntax, behind: string)

  predicate GoodToken(t: Token) {
    match t
    case Plain(c) => c != '"' && c != '\\'
    case Escaped(letter) => Escape(letter).Some?
  }

  predicate GoodTokens(tokens: seq<Token>) {
    forall i :: 0 <= i < |tokens| ==> GoodToken(tokens[i])
  }

  predicate WellFormed(s: Syntax) {
    match s
    case Quote(tokens) => GoodTokens(tokens)
    case Decimal(_, digits) => AreDigits(digits)
    case Hexadecimal(_, digits) => AreHexDigits(digits)
    case Fraction(_, digits, part) => AreDigits(digits) && AreDigits(part)
    case Literal(_) => true
    case Array(items) => GoodItems(items)
  }

  predicate GoodItems(items: seq<Item>) {
    forall i :: 0 <= i < |items| ==> GoodItem(items[i])
  }

  predicate GoodItem(item: Item) {
    match item
    case Gap(space) => IsBlank(space)
    case Cell(before, value, behind) => IsBlank(before) && WellFormed(value) && IsBlank(behind)
  }

  function RenderTokens(tokens: seq<Token>): string {
    if tokens == [] then ""
    else
      (match tokens[0] case Plain(c) => [c] case Escaped(letter) => ['\\', letter]) + RenderTokens(tokens[1..])
  }

  function Sign(negative: bool): string { if negative then "-" else "" }

  function Render(s: Syntax): string {
    match s
    case Quote(tokens) => "\"" + RenderTokens(tokens) + "\""
    case Decimal(negative, digits) => Sign(negative) + digits
    case Hexadecimal(negative, digits) => Sign(negative) + "0x" + digits
    case Fraction(negative, digits, part) => Sign(negative) + digits + "." + part
    case Literal(b) => if b then "true" else "false"
    case Array(items) => "[" + RenderItems(items) + "]"
  }

  function RenderItem(item: Item): string {
    match item
    case Gap(space) => space
    case Cell(before, value, behind) => before + Render(value) + behind
  }

  function RenderItems(items: seq<Item>): string {
    if items == [] then ""
    else if |items| == 1 then RenderItem(items[0])
    else RenderItem(items[0]) + "," + RenderItems(items[1..])
  }

  function DenoteTokens(tokens: seq<Token>): string
    requires GoodTokens(tokens)
  {
    if tokens == [] then ""
    else
      [match tokens[0] case Plain(c) => c case Escaped(letter) => Escape(letter).value] + DenoteTokens(tokens[1..])
  }

  /** The value a piece of syntax stands for. */
  function Denote(s: Syntax): Value
    requires WellFormed(s)
  {
    match s
    case Quote(tokens) => Text(DenoteTokens(tokens))
    case Decimal(negative, digits) => Number(Signed(negative, ValueOf(digits, 10) as real))
    case Hexadecimal(negative, digits) => Number(Signed(negative, ValueOf(digits, 16) as real))
    case Fraction(negative, digits, part) => Number(Signed(negative, DecimalOf(digits, part)))
    case Literal(b) => Flag(b)
    case Array(items) => List(DenoteItems(items))
  }

  function DenoteItems(items: seq<Item>): seq<Value>
    requires GoodItems(items)
  {
    if items == [] then []
    else
      assert GoodItem(items[0]);
      (match items[0] case Gap(_) => [] case Cell(_, value, _) => [Denote(value)]) + DenoteItems(items[1..])
  }
}
