/**
 The CLI's hand-built multipart upload: the boundary search, the body, and what
 a reader following section 5.1.1 of RFC 2046 gets back out of it.
 */
module Multipart {
  import opened Common

  type Bytes = seq<byte>

  function Ascii(s: string): (r: Bytes)
    ensures |r| == |s|
  {
    seq(|s|, i requires 0 <= i < |s| => (s[i] as int % 256) as byte)
  }

  const CR: byte := 13
  const LF: byte := 10
  const CRLF: Bytes := [13, 10]
  const BLANK_LINE: Bytes := [13, 10, 13, 10]

  const ATTEMPTS: nat := 0x1_0000_0000
  const BOUNDARY_LENGTH: nat := 30
  const PREFIX := "hypercolor-cli-upload-"

  function HexDigit(d: nat): (r: byte)
    requires d < 16
    ensures r != CR && r != LF
  {
    if d < 10 then (48 + d) as byte else (87 + d) as byte
  }

  /** The low `n` hexadecimal digits of a number, most significant first. */
  function Hex(a: nat, n: nat): (r: Bytes)
    ensures |r| == n
  {
    if n == 0 then [] else Hex(a / 16, n - 1) + [HexDigit(a % 16)]
  }

  /** `hypercolor-cli-upload-{attempt:08x}`. */
  function Boundary(attempt: nat): (r: Bytes)
    ensures |r| == BOUNDARY_LENGTH
  {
    Ascii(PREFIX) + Hex(attempt, 8)
  }

  // ----- Searching -----

  predicate At(s: Bytes, i: nat, word: Bytes) {
    i + |word| <= |s| && s[i..i + |word|] == word
  }

  predicate Occurs(s: Bytes, word: Bytes) {
    exists i: nat :: i <= |s| && At(s, i, word)
  }

  /** The number of windows of a boundary's length. */
  function Windows(contents: Bytes): nat {
    if |contents| < BOUNDARY_LENGTH then 0 else |contents| - BOUNDARY_LENGTH + 1
  }

  function Power16(n: nat): (r: nat)
    ensures r > 0
  {
    if n == 0 then 1 else 16 * Power16(n - 1)
  }

  lemma {:induction false} HexInjective(a: nat, b: nat, n: nat)
    requires a < Power16(n) && b < Power16(n) && Hex(a, n) == Hex(b, n)
    ensures a == b
  {
    if n > 0 {
      var x, y := Hex(a, n), Hex(b, n);
      assert x[..n - 1] == Hex(a / 16, n - 1) && y[..n - 1] == Hex(b / 16, n - 1);
      assert x[n - 1] == HexDigit(a % 16) && y[n - 1] == HexDigit(b % 16);
      HexInjective(a / 16, b / 16, n - 1);
    }
  }

  lemma BoundariesDiffer(a: nat, b: nat)
    requires a < ATTEMPTS && b < ATTEMPTS && Boundary(a) == Boundary(b)
    ensures a == b
  {
    assert Power16(8) == ATTEMPTS;
    assert Boundary(a)[|PREFIX|..] == Hex(a, 8) && Boundary(b)[|PREFIX|..] == Hex(b, 8);
    HexInjective(a, b, 8);
  }

  lemma {:induction false} Pigeonhole(holes: seq<nat>, n: nat)
    requires forall i :: 0 <= i < |holes| ==> holes[i] < n
    requires forall i, j :: 0 <= i < j < |holes| ==> holes[i] != holes[j]
    ensures |holes| <= n
  {
    var used := set i | 0 <= i < |holes| :: holes[i];
    Distinct(holes, used);
    SubsetSize(used, Below(n));
  }

  lemma {:induction false} Distinct(s: seq<nat>, elements: set<nat>)
    requires forall i, j :: 0 <= i < j < |s| ==> s[i] != s[j]
    requires elements == set i | 0 <= i < |s| :: s[i]
    ensures |elements| == |s|
  {
    if s != [] {
      var init, last := s[..|s| - 1], s[|s| - 1];
      var fewer := set i | 0 <= i < |init| :: init[i];
      Distinct(init, fewer);
      assert last !in fewer;
      assert elements == fewer + {last};
    }
  }

  /** The numbers below `n`. */
  function Below(n: nat): (r: set<nat>)
    ensures |r| == n && forall i :: i in r <==> 0 <= i < n
  {
    if n == 0 then {} else Below(n - 1) + {n - 1}
  }

  lemma {:induction false} SubsetSize(a: set<nat>, b: set<nat>)
    requires a <= b
    ensures |a| <= |b|
  {
    if a != {} {
      var x :| x in a;
      SubsetSize(a - {x}, b - {x});
    }
  }

  /** Distinct boundaries need distinct windows. */
  lemma TakenAreFew(contents: Bytes, k: nat)
    requires k <= ATTEMPTS
    requires forall a: nat :: a < k ==> Occurs(contents, Boundary(a))
    ensures k <= Windows(contents)
  {
    var holes := WindowsOf(contents, k);
    forall i, j | 0 <= i < j < |holes| ensures holes[i] != holes[j] {
      if holes[i] == holes[j] {
        BoundariesDiffer(i, j);
        assert false;
      }
    }
    Pigeonhole(holes, Windows(contents));
  }

  lemma {:induction false} WindowsOf(contents: Bytes, k: nat) returns (holes: seq<nat>)
    requires forall a: nat :: a < k ==> Occurs(contents, Boundary(a))
    ensures |holes| == k
    ensures forall a: nat :: a < k ==> holes[a] < Windows(contents) && At(contents, holes[a], Boundary(a))
  {
    if k == 0 {
      return [];
    }
    holes := WindowsOf(contents, k - 1);
    assert Occurs(contents, Boundary(k - 1));
    var i: nat :| i <= |contents| && At(contents, i, Boundary(k - 1));
    holes := holes + [i];
  }

  /** Below 2^32 windows some attempt is free, so the search cannot run out of counter. */
  lemma SomeAttemptIsFree(contents: Bytes)
    requires Windows(contents) < ATTEMPTS
    ensures exists a: nat :: a <= Windows(contents) && !Occurs(contents, Boundary(a))
  {
    if forall a: nat :: a < Windows(contents) + 1 ==> Occurs(contents, Boundary(a)) {
      TakenAreFew(contents, Windows(contents) + 1);
      assert false;
    }
  }

  /**
   `multipart_boundary`: the first boundary absent from the contents, found after
   at most one more attempt than the contents have windows.
   */
  method MultipartBoundary(contents: Bytes) returns (boundary: Bytes, attempt: nat)
    requires exists a: nat :: a < ATTEMPTS && !Occurs(contents, Boundary(a))
    ensures attempt < ATTEMPTS && boundary == Boundary(attempt)
    ensures !Occurs(contents, boundary)
    ensures forall a: nat :: a < attempt ==> Occurs(contents, Boundary(a))
    ensures attempt <= Windows(contents)
  {
    ghost var free: nat :| free < ATTEMPTS && !Occurs(contents, Boundary(free));
    attempt := 0;
    while true
      invariant attempt <= free
      invariant forall a: nat :: a < attempt ==> Occurs(contents, Boundary(a))
      decreases free - attempt
    {
      boundary := Boundary(attempt);
      if !Occurs(contents, boundary) {
        TakenAreFew(contents, attempt);
        return;
      }
      attempt := attempt + 1;
    }
  }

  // ----- The body -----

  /** `file_name.replace(['"', '\r', '\n'], "_")`. */
  function Sanitized(name: Bytes): (r: Bytes)
    ensures |r| == |name|
    ensures CR !in r && LF !in r
  {
    seq(|name|, i requires 0 <= i < |name| => if name[i] in [34, CR, LF] then 95 else name[i])
  }

  function Disposition(fileName: Bytes): Bytes {
    Ascii("Content-Disposition: ") + Ascii("form-data; name=\"file\"; ") + Ascii("filename=\"")
    + Sanitized(fileName) + [34]
  }

  /** What a reader takes for the file name: the text up to the next quote. */
  function QuotedFrom(s: Bytes, i: nat): Bytes
    requires i <= |s|
    decreases |s| - i
  {
    if i == |s| || s[i] == 34 then [] else [s[i]] + QuotedFrom(s, i + 1)
  }

  lemma {:induction false} QuotedUpTo(before: Bytes, text: Bytes, behind: Bytes)
    requires 34 !in text && behind != [] && behind[0] == 34
    ensures QuotedFrom(before + text + behind, |before|) == text
    decreases |text|
  {
    var s := before + text + behind;
    if text != [] {
      assert s == (before + [text[0]]) + text[1..] + behind;
      QuotedUpTo(before + [text[0]], text[1..], behind);
      assert [text[0]] + text[1..] == text;
    }
  }

  /** No quote and no line break. */
  predicate PlainName(name: Bytes) { 34 !in name && CR !in name && LF !in name }

  /** The disposition's file name reads back as the one given, byte for byte, exactly when that is a plain one. */
  lemma FileNameReadsBack(fileName: Bytes)
    ensures
      var start := |Ascii("Content-Disposition: ") + Ascii("form-data; name=\"file\"; ") + Ascii("filename=\"")|;
      var read := QuotedFrom(Disposition(fileName), start);
      && |read| == |fileName| && PlainName(read)
      && (read == fileName <==> PlainName(fileName))
      && forall i :: 0 <= i < |fileName| && PlainName([fileName[i]]) ==> read[i] == fileName[i]
  {
    var before := Ascii("Content-Disposition: ") + Ascii("form-data; name=\"file\"; ") + Ascii("filename=\"");
    var name := Sanitized(fileName);
    assert 34 !in name;
    QuotedUpTo(before, name, [34]);
    assert Disposition(fileName) == before + name + [34];
    if PlainName(fileName) {
      forall i | 0 <= i < |fileName| ensures name[i] == fileName[i] { assert fileName[i] in fileName; }
    }
    forall i | 0 <= i < |fileName| && PlainName([fileName[i]]) ensures name[i] == fileName[i] {
      assert fileName[i] in [fileName[i]];
      assert [fileName[i]][0] == fileName[i];
    }
  }

  /** Everything before the content type's value. */
  function HeadStart(boundary: Bytes, fileName: Bytes): Bytes {
    [45, 45] + boundary + CRLF
    + Disposition(fileName) + CRLF + Ascii("Content-Type: ")
  }

  function Head(boundary: Bytes, fileName: Bytes, contentType: Bytes): Bytes {
    HeadStart(boundary, fileName) + contentType + BLANK_LINE
  }

  function Delimiter(boundary: Bytes): Bytes { CRLF + [45, 45] + boundary }

  function Tail(boundary: Bytes): Bytes { Delimiter(boundary) + [45, 45] + CRLF }

  /** The bytes `post_file` sends. */
  method PostFileBody(fileName: Bytes, contentType: Bytes, contents: Bytes) returns (body: Bytes, boundary: Bytes)
    requires exists a: nat :: a < ATTEMPTS && !Occurs(contents, Boundary(a))
    ensures exists a: nat :: boundary == Boundary(a)
    ensures !Occurs(contents, boundary)
    ensures body == Head(boundary, fileName, contentType) + contents + Tail(boundary)
  {
    var attempt;
    boundary, attempt := MultipartBoundary(contents);
    body := Head(boundary, fileName, contentType);
    body := body + contents;
    body := body + Tail(boundary);
  }

  // ----- Reading it back -----

  /** The first occurrence of `word` at or after `from`. */
  function Find(s: Bytes, word: Bytes, from: nat): (r: Option<nat>)
    requires from <= |s|
    ensures r.Some? ==>
              && from <= r.value && At(s, r.value, word)
              && forall i: nat :: from <= i < r.value ==> !At(s, i, word)
    ensures r.None? ==> forall i: nat :: from <= i <= |s| ==> !At(s, i, word)
    decreases |s| - from
  {
    if At(s, from, word) then Some(from) else if from == |s| then None else Find(s, word, from + 1)
  }

  lemma FoundThere(s: Bytes, word: Bytes, from: nat, k: nat)
    requires from <= k <= |s| && At(s, k, word)
    requires forall i: nat :: from <= i < k ==> !At(s, i, word)
    ensures Find(s, word, from) == Some(k)
  {
  }

  /** The word stands at `k` and nowhere between `from` and there. */
  ghost predicate FirstFrom(s: Bytes, word: Bytes, from: nat, k: nat) {
    from <= k <= |s| && At(s, k, word) && forall i: nat :: from <= i < k ==> !At(s, i, word)
  }

  lemma FirstIsFound(s: Bytes, word: Bytes, from: nat, k: nat)
    requires FirstFrom(s, word, from, k)
    ensures Find(s, word, from) == Some(k)
  {
    FoundThere(s, word, from, k);
  }

  /** The part between the first blank line and the first delimiter after it. */
  function ReadPart(body: Bytes, boundary: Bytes): Option<Bytes> {
    match Find(body, BLANK_LINE, 0)
    case None => None
    case Some(h) =>
      match Find(body, Delimiter(boundary), h + 4)
      case None => None
      case Some(e) => Some(body[h + 4..e])
  }

  lemma AtBlank(s: Bytes, i: nat)
    ensures At(s, i, BLANK_LINE) <==> i + 4 <= |s| && s[i] == CR && s[i + 1] == LF && s[i + 2] == CR && s[i + 3] == LF
  {
    if i + 4 <= |s| {
      assert s[i..i + 4] == [s[i], s[i + 1], s[i + 2], s[i + 3]];
    }
  }

  /** A carriage return is never two before another, and never at the very end. */
  ghost predicate Calm(s: Bytes) {
    forall i: nat :: i < |s| ==> CalmAt(s, i)
  }

  predicate CalmAt(s: Bytes, i: nat)
    requires i < |s|
  {
    s[i] == CR ==> i + 2 < |s| && s[i + 2] != CR
  }

  lemma PlainText(s: string)
    requires forall i :: 0 <= i < |s| ==> ' ' <= s[i] < '\U{80}'
    ensures CR !in Ascii(s) && LF !in Ascii(s)
  {
  }

  lemma {:induction false} HexIsPlain(a: nat, n: nat)
    ensures CR !in Hex(a, n) && LF !in Hex(a, n)
  {
    if n > 0 { HexIsPlain(a / 16, n - 1); }
  }

  lemma BoundaryIsPlain(a: nat)
    ensures CR !in Boundary(a) && LF !in Boundary(a)
  {
    PlainText(PREFIX);
    HexIsPlain(a, 8);
  }

  /** A calm text stays calm before a line that starts with a letter. */
  lemma CalmLine(s: Bytes, line: Bytes, next: Bytes)
    requires Calm(s) && CR !in line && CR !in next && next != []
    ensures Calm(s + line + CRLF + next)
  {
    var t := s + line + CRLF + next;
    var n := |s| + |line|;
    assert forall i :: |s| <= i < n ==> t[i] == line[i - |s|];
    assert forall i :: n + 2 <= i < |t| ==> t[i] == next[i - n - 2];
    assert t[n + 1] == LF && t[n + 2] == next[0];
    forall i: nat | i < |t| ensures CalmAt(t, i) {
      assert i < |s| ==> CalmAt(s, i) && t[i] == s[i] && (i + 2 < |s| ==> t[i + 2] == s[i + 2]);
    }
  }

  lemma DispositionIsPlain(fileName: Bytes)
    ensures CR !in Disposition(fileName)
  {
    PlainText("Content-Disposition: ");
    PlainText("form-data; name=\"file\"; ");
    PlainText("filename=\"");
  }

  lemma HeadStartIsCalm(boundary: Bytes, fileName: Bytes)
    requires CR !in boundary
    ensures Calm(HeadStart(boundary, fileName))
  {
    var line := Disposition(fileName);
    var field := Ascii("Content-Type: ");
    DispositionIsPlain(fileName);
    PlainText("Content-Type: ");
    var first := [] + ([45, 45] + boundary) + CRLF + line;
    CalmLine([], [45, 45] + boundary, line);
    CalmLine(first, [], field);
    assert first + [] + CRLF + field == HeadStart(boundary, fileName);
  }

  /** The text ends in a line break. */
  predicate EndsLine(s: Bytes) {
    |s| >= 2 && s[|s| - 2] == CR && s[|s| - 1] == LF
  }

  /** The text of the line that starts at `i`, up to its line break. */
  function LineAt(s: Bytes, i: nat): Option<Bytes>
    requires i <= |s|
  {
    match Find(s, CRLF, i)
    case None => None
    case Some(e) => Some(s[i..e])
  }

  lemma LineIsRead(before: Bytes, line: Bytes, rest: Bytes)
    requires CR !in line
    ensures LineAt(before + line + CRLF + rest, |before|) == Some(line)
  {
    var s := before + line + CRLF + rest;
    var e := |before| + |line|;
    assert s[e..e + 2] == CRLF;
    forall i: nat | |before| <= i < e ensures !At(s, i, CRLF) {
      assert s[i] == line[i - |before|];
      assert i + 2 <= |s| ==> s[i..i + 2][0] == s[i];
    }
    FoundThere(s, CRLF, |before|, e);
    assert s[|before|..e] == line;
  }

  /** The body is the line, its line break and the rest, behind the text before it. */
  predicate Splits(body: Bytes, before: Bytes, line: Bytes, rest: Bytes) {
    CR !in line && Joins(body, before, line, rest)
  }

  predicate Joins(body: Bytes, before: Bytes, line: Bytes, rest: Bytes) { body == before + line + CRLF + rest }

  lemma SplitLine(body: Bytes, before: Bytes, line: Bytes, rest: Bytes)
    requires Splits(body, before, line, rest)
    ensures HasLine(body, |before|, line)
  {
    LineIsRead(before, line, rest);
  }

  lemma NextSplit(body: Bytes, before: Bytes, line: Bytes, next: Bytes, rest: Bytes)
    requires Splits(body, before, line, next + CRLF + rest) && CR !in next
    ensures Splits(body, before + line + CRLF, next, rest)
  {
    assert before + line + CRLF + (next + CRLF + rest) == before + line + CRLF + next + CRLF + rest;
  }

  lemma HeadSplits(boundary: Bytes, fileName: Bytes, contentType: Bytes, rest: Bytes)
    requires CR !in boundary
    ensures
      var kind := Ascii("Content-Type: ") + contentType;
      Splits(Head(boundary, fileName, contentType) + rest, [], [45, 45] + boundary,
             Disposition(fileName) + CRLF + (kind + CRLF + (CRLF + rest)))
  {
    HeadParts([45, 45] + boundary, Disposition(fileName), Ascii("Content-Type: "), contentType, rest);
  }

  lemma HeadParts(first: Bytes, name: Bytes, field: Bytes, contentType: Bytes, rest: Bytes)
    ensures first + CRLF + name + CRLF + field + contentType + BLANK_LINE + rest
         == [] + first + CRLF + (name + CRLF + (field + contentType + CRLF + (CRLF + rest)))
  {
    assert BLANK_LINE == CRLF + CRLF;
  }

  lemma KindIsPlain(contentType: Bytes)
    requires CR !in contentType
    ensures CR !in Ascii("Content-Type: ") + contentType
  {
    PlainText("Content-Type: ");
  }

  /** The three lines of a part's head, read from the body: the opening delimiter, the file's name, its type. */
  lemma HeadLines(boundary: Bytes, fileName: Bytes, contentType: Bytes, rest: Bytes)
    requires CR !in boundary && CR !in contentType
    ensures
      var body, first := Head(boundary, fileName, contentType) + rest, [45, 45] + boundary;
      var kind := Ascii("Content-Type: ") + contentType;
      AreLines(body, first, Disposition(fileName), kind)
  {
    DispositionIsPlain(fileName);
    KindIsPlain(contentType);
    HeadSplits(boundary, fileName, contentType, rest);
    LinesInTurn(Head(boundary, fileName, contentType) + rest, [45, 45] + boundary, Disposition(fileName),
                Ascii("Content-Type: ") + contentType, CRLF + rest);
  }

  /** A reader finds this line at `i`. */
  predicate HasLine(body: Bytes, i: nat, line: Bytes) { i <= |body| && LineAt(body, i) == Some(line) }

  /** The first three lines that a reader finds. */
  predicate AreLines(body: Bytes, a: Bytes, b: Bytes, c: Bytes) {
    HasLine(body, 0, a) && HasLine(body, |a| + 2, b) && HasLine(body, |a| + 2 + |b| + 2, c)
  }

  lemma LinesInTurn(body: Bytes, a: Bytes, b: Bytes, c: Bytes, rest: Bytes)
    requires Splits(body, [], a, b + CRLF + (c + CRLF + rest)) && CR !in b && CR !in c
    ensures AreLines(body, a, b, c)
  {
    SplitLine(body, [], a, b + CRLF + (c + CRLF + rest));
    LineBehind(body, [], a, b, c + CRLF + rest, |a| + 2);
    ThirdLine(body, a, b, c, rest);
  }

  lemma ThirdLine(body: Bytes, a: Bytes, b: Bytes, c: Bytes, rest: Bytes)
    requires Splits(body, [], a, b + CRLF + (c + CRLF + rest)) && CR !in b && CR !in c
    ensures HasLine(body, |a| + 2 + |b| + 2, c)
  {
    NextSplit(body, [], a, b, c + CRLF + rest);
    LineBehind(body, [] + a + CRLF, b, c, rest, |a| + 2 + |b| + 2);
  }

  lemma LineBehind(body: Bytes, before: Bytes, line: Bytes, next: Bytes, rest: Bytes, at: nat)
    requires Splits(body, before, line, next + CRLF + rest) && CR !in next && at == |before| + |line| + 2
    ensures Splits(body, before + line + CRLF, next, rest)
    ensures HasLine(body, at, next)
  {
    NextSplit(body, before, line, next, rest);
    assert |before + line + CRLF| == at;
    SplitLine(body, before + line + CRLF, next, rest);
  }

  /** A content type that neither contains a blank line nor completes one. */
  predicate Clean(contentType: Bytes) {
    !Occurs(contentType, BLANK_LINE) && !EndsLine(contentType)
  }

  /** Where blank lines begin inside a text that is followed by one. */
  lemma BlankLineAt(s: Bytes, rest: Bytes, i: nat)
    requires i < |s|
    ensures At(s + BLANK_LINE + rest, i, BLANK_LINE) <==> At(s, i, BLANK_LINE) || (i + 2 == |s| && EndsLine(s))
  {
    var n := |s|;
    var t := s + BLANK_LINE + rest;
    assert forall k :: 0 <= k < n ==> t[k] == s[k];
    assert t[n] == CR && t[n + 1] == LF && t[n + 2] == CR && t[n + 3] == LF;
    AtBlank(t, i);
    AtBlank(s, i);
  }

  /** Before the header text ends, a blank line begins exactly where one begins in the content type's tail. */
  lemma BlankLineInHead(start: Bytes, t: Bytes, i: nat)
    requires Calm(start)
    ensures i < |start| ==> !At(start + t, i, BLANK_LINE)
    ensures i >= |start| ==> (At(start + t, i, BLANK_LINE) <==> At(t, i - |start|, BLANK_LINE))
  {
    AtBlank(start + t, i);
    if i >= |start| {
      AtBlank(t, i - |start|);
    } else {
      assert CalmAt(start, i);
    }
  }

  /** The reader finds the end of the headers where the writer put it exactly when the content type is clean. */
  lemma HeadersEndWhereWritten(boundary: Bytes, fileName: Bytes, contentType: Bytes, rest: Bytes)
    requires CR !in boundary
    ensures
      var head := Head(boundary, fileName, contentType);
      Clean(contentType) <==> Find(head + rest, BLANK_LINE, 0) == Some(|head| - 4)
  {
    var start := HeadStart(boundary, fileName);
    HeadStartIsCalm(boundary, fileName);
    assert Head(boundary, fileName, contentType) + rest == start + (contentType + BLANK_LINE + rest);
    HeaderEnd(start, contentType, rest);
  }

  /** A blank line begins inside the content type, or with its last line break. */
  predicate EarlyAt(contentType: Bytes, i: nat) {
    At(contentType, i, BLANK_LINE) || (i + 2 == |contentType| && EndsLine(contentType))
  }

  lemma HeaderBlankLines(start: Bytes, contentType: Bytes, rest: Bytes, i: nat)
    requires Calm(start) && i <= |start| + |contentType|
    ensures At(start + (contentType + BLANK_LINE + rest), i, BLANK_LINE)
       <==> i >= |start| && (i == |start| + |contentType| || EarlyAt(contentType, i - |start|))
  {
    var t := contentType + BLANK_LINE + rest;
    BlankLineInHead(start, t, i);
    if i == |start| + |contentType| {
      assert t[|contentType|..|contentType| + 4] == BLANK_LINE;
    } else if i >= |start| {
      BlankLineAt(contentType, rest, i - |start|);
    }
  }

  lemma HeaderEnd(start: Bytes, contentType: Bytes, rest: Bytes)
    requires Calm(start)
    ensures Clean(contentType)
       <==> Find(start + (contentType + BLANK_LINE + rest), BLANK_LINE, 0) == Some(|start| + |contentType|)
  {
    if Clean(contentType) {
      CleanEnd(start, contentType, rest, start + (contentType + BLANK_LINE + rest));
    } else {
      UncleanEnd(start, contentType, rest);
    }
  }

  lemma CleanEnd(start: Bytes, contentType: Bytes, rest: Bytes, whole: Bytes)
    requires Calm(start) && Clean(contentType) && whole == start + (contentType + BLANK_LINE + rest)
    ensures Find(whole, BLANK_LINE, 0) == Some(|start| + |contentType|)
  {
    OnlyOneBlankLine(start, contentType, rest, whole);
    FirstIsFound(whole, BLANK_LINE, 0, |start| + |contentType|);
  }

  lemma OnlyOneBlankLine(start: Bytes, contentType: Bytes, rest: Bytes, whole: Bytes)
    requires Calm(start) && Clean(contentType) && whole == start + (contentType + BLANK_LINE + rest)
    ensures FirstFrom(whole, BLANK_LINE, 0, |start| + |contentType|)
  {
    forall i: nat | i <= |start| + |contentType|
      ensures At(whole, i, BLANK_LINE) <==> i == |start| + |contentType|
    {
      CleanBlankLines(start, contentType, rest, i);
    }
  }

  lemma CleanBlankLines(start: Bytes, contentType: Bytes, rest: Bytes, i: nat)
    requires Calm(start) && Clean(contentType) && i <= |start| + |contentType|
    ensures At(start + (contentType + BLANK_LINE + rest), i, BLANK_LINE) <==> i == |start| + |contentType|
  {
    HeaderBlankLines(start, contentType, rest, i);
    assert i >= |start| ==> !EarlyAt(contentType, i - |start|);
  }

  lemma UncleanEnd(start: Bytes, contentType: Bytes, rest: Bytes)
    requires Calm(start) && !Clean(contentType)
    ensures
      var found := Find(start + (contentType + BLANK_LINE + rest), BLANK_LINE, 0);
      found.Some? && |start| <= found.value < |start| + |contentType|
  {
    var i := UncleanAt(contentType);
    HeaderBlankLines(start, contentType, rest, |start| + i);
    var found := Find(start + (contentType + BLANK_LINE + rest), BLANK_LINE, 0);
    HeaderBlankLines(start, contentType, rest, found.value);
  }

  /** Where an unclean content type begins a blank line too early. */
  lemma UncleanAt(contentType: Bytes) returns (i: nat)
    requires !Clean(contentType)
    ensures i < |contentType|
    ensures EarlyAt(contentType, i)
  {
    if EndsLine(contentType) {
      i := |contentType| - 2;
    } else {
      i :| i <= |contentType| && At(contentType, i, BLANK_LINE);
    }
  }

  /** The first delimiter behind a text that does not hold the boundary is the one written there. */
  lemma FirstDelimiter(head: Bytes, contents: Bytes, boundary: Bytes, rest: Bytes, body: Bytes)
    requires CR !in boundary && !Occurs(contents, boundary)
    requires body == head + contents + (Delimiter(boundary) + rest)
    ensures Find(body, Delimiter(boundary), |head|) == Some(|head| + |contents|)
  {
    DelimiterIsFirst(head, contents, boundary, rest, body);
    FirstIsFound(body, Delimiter(boundary), |head|, |head| + |contents|);
  }

  lemma DelimiterIsFirst(head: Bytes, contents: Bytes, boundary: Bytes, rest: Bytes, body: Bytes)
    requires CR !in boundary && !Occurs(contents, boundary)
    requires body == head + contents + (Delimiter(boundary) + rest)
    ensures FirstFrom(body, Delimiter(boundary), |head|, |head| + |contents|)
  {
    DelimiterThere(head + contents, boundary, rest);
    forall i: nat | |head| <= i < |head| + |contents| ensures !At(body, i, Delimiter(boundary)) {
      NoDelimiterBefore(head, contents, boundary, rest, i);
    }
  }

  lemma DelimiterThere(before: Bytes, boundary: Bytes, rest: Bytes)
    ensures At(before + (Delimiter(boundary) + rest), |before|, Delimiter(boundary))
  {
    var d := Delimiter(boundary);
    assert (before + (d + rest))[|before|..|before| + |d|] == d;
  }

  lemma NoDelimiterBefore(head: Bytes, contents: Bytes, boundary: Bytes, rest: Bytes, i: nat)
    requires CR !in boundary && !Occurs(contents, boundary) && |head| <= i < |head| + |contents|
    ensures !At(head + contents + (Delimiter(boundary) + rest), i, Delimiter(boundary))
  {
    if At(head + contents + (Delimiter(boundary) + rest), i, Delimiter(boundary)) {
      EarlyDelimiterClashes(head, contents, boundary, rest, i);
      assert false;
    }
  }

  /** The first delimiter after the headers is the writer's own. */
  lemma DelimiterIsOurs(head: Bytes, contents: Bytes, boundary: Bytes)
    requires CR !in boundary && !Occurs(contents, boundary)
    ensures Find(head + contents + Tail(boundary), Delimiter(boundary), |head|) == Some(|head| + |contents|)
  {
    assert Tail(boundary) == Delimiter(boundary) + ([45, 45] + CRLF);
    FirstDelimiter(head, contents, boundary, [45, 45] + CRLF, head + contents + Tail(boundary));
  }

  /** A delimiter that begins inside the contents holds the boundary there, or a line break of its own. */
  lemma EarlyDelimiterClashes(head: Bytes, contents: Bytes, boundary: Bytes, rest: Bytes, i: nat)
    requires |head| <= i < |head| + |contents|
    requires At(head + contents + (Delimiter(boundary) + rest), i, Delimiter(boundary))
    ensures Occurs(contents, boundary) || CR in boundary
  {
    var body := head + contents + (Delimiter(boundary) + rest);
    var d := Delimiter(boundary);
    var k := |head| + |contents|;
    assert d[4..] == boundary;
    if i + |d| <= k {
      var j := i - |head| + 4;
      assert contents[j..j + |boundary|] == body[i + 4..i + |d|] == d[4..];
      assert At(contents, j, boundary);
    } else {
      assert body[k] == CR;
      assert d[k - i] == body[i..i + |d|][k - i] == body[k];
      assert k - i >= 4;
      assert boundary[k - i - 4] == CR;
    }
  }

  /** A boundary that is in neither text is not in the two with a blank line between them. */
  lemma NoBoundaryAcross(contentType: Bytes, contents: Bytes, boundary: Bytes, i: nat)
    requires boundary != [] && At(contentType + BLANK_LINE + contents, i, boundary)
    ensures Occurs(contentType, boundary) || Occurs(contents, boundary) || CR in boundary || LF in boundary
  {
    var n, t := |contentType|, contentType + BLANK_LINE + contents;
    assert t[i..i + |boundary|] == boundary;
    if i + |boundary| <= n {
      assert contentType[i..i + |boundary|] == t[i..i + |boundary|];
      assert At(contentType, i, boundary);
    } else if i >= n + 4 {
      assert contents[i - n - 4..i - n - 4 + |boundary|] == t[i..i + |boundary|];
      assert At(contents, i - n - 4, boundary);
    } else {
      var p := if i < n then n else i;
      assert boundary[p - i] == t[i..i + |boundary|][p - i] == t[p] == BLANK_LINE[p - n];
    }
  }

  /** What an unclean content type makes a reader take for the contents: more than the contents. */
  lemma UncleanRead(boundary: Bytes, fileName: Bytes, contentType: Bytes, contents: Bytes)
    requires CR !in boundary && LF !in boundary && boundary != []
    requires !Occurs(contentType, boundary) && !Occurs(contents, boundary) && !Clean(contentType)
    ensures
      var part := ReadPart(Head(boundary, fileName, contentType) + contents + Tail(boundary), boundary);
      part.Some? && |part.value| > |contents|
  {
    var start, tail := HeadStart(boundary, fileName), Tail(boundary);
    var t := contentType + BLANK_LINE + contents;
    var body := Head(boundary, fileName, contentType) + contents + tail;
    HeadStartIsCalm(boundary, fileName);
    UncleanEnd(start, contentType, contents + tail);
    BodyShape(start, contentType, contents, tail);
    var h := Find(body, BLANK_LINE, 0).value;
    NotInSuffix(contentType, contents, boundary, h + 4 - |start|);
    UncleanPart(start, t, boundary, h + 4 - |start|, body);
  }

  lemma BodyShape(start: Bytes, contentType: Bytes, contents: Bytes, tail: Bytes)
    ensures start + contentType + BLANK_LINE + contents + tail
         == start + (contentType + BLANK_LINE + (contents + tail))
         == start + (contentType + BLANK_LINE + contents + tail)
  {
  }

  /** The first delimiter behind a header end that came too early is still the writer's. */
  lemma UncleanPart(start: Bytes, t: Bytes, boundary: Bytes, skip: nat, body: Bytes)
    requires CR !in boundary && skip <= |t| && !Occurs(t[skip..], boundary)
    requires body == start + (t + Tail(boundary))
    ensures Find(body, Delimiter(boundary), |start| + skip) == Some(|start| + |t|)
  {
    UncleanShape(start, t, boundary, skip, body);
    FirstDelimiter(start + t[..skip], t[skip..], boundary, [45, 45] + CRLF, body);
  }

  lemma UncleanShape(start: Bytes, t: Bytes, boundary: Bytes, skip: nat, body: Bytes)
    requires skip <= |t| && body == start + (t + Tail(boundary))
    ensures body == (start + t[..skip]) + t[skip..] + (Delimiter(boundary) + ([45, 45] + CRLF))
  {
    assert Tail(boundary) == Delimiter(boundary) + ([45, 45] + CRLF);
    assert t == t[..skip] + t[skip..];
  }

  lemma NotInSuffix(contentType: Bytes, contents: Bytes, boundary: Bytes, skip: nat)
    requires CR !in boundary && LF !in boundary && boundary != []
    requires !Occurs(contentType, boundary) && !Occurs(contents, boundary)
    requires skip <= |contentType| + 4
    ensures !Occurs((contentType + BLANK_LINE + contents)[skip..], boundary)
  {
    var t := contentType + BLANK_LINE + contents;
    forall i: nat | i <= |t[skip..]| ensures !At(t[skip..], i, boundary) {
      if At(t[skip..], i, boundary) {
        AtInside(t, skip, i, boundary);
        NoBoundaryAcross(contentType, contents, boundary, skip + i);
        assert false;
      }
    }
  }

  lemma AtInside(t: Bytes, skip: nat, i: nat, word: Bytes)
    requires skip <= |t| && At(t[skip..], i, word)
    ensures At(t, skip + i, word)
  {
    assert t[skip..][i..i + |word|] == t[skip + i..skip + i + |word|];
  }

  /** Reading the body gives back exactly the contents if and only if the content type is clean. */
  lemma ContentsComeBack(a: nat, fileName: Bytes, contentType: Bytes, contents: Bytes)
    requires !Occurs(contents, Boundary(a)) && !Occurs(contentType, Boundary(a))
    ensures
      var boundary := Boundary(a);
      ReadPart(Head(boundary, fileName, contentType) + contents + Tail(boundary), boundary) == Some(contents)
      <==> Clean(contentType)
  {
    BoundaryIsPlain(a);
    if Clean(contentType) {
      CleanRead(a, fileName, contentType, contents);
    } else {
      UncleanRead(Boundary(a), fileName, contentType, contents);
    }
  }

  /** A clean content type may even name the boundary: it is read only up to the end of the headers. */
  lemma CleanRead(a: nat, fileName: Bytes, contentType: Bytes, contents: Bytes)
    requires !Occurs(contents, Boundary(a)) && Clean(contentType)
    ensures
      var boundary := Boundary(a);
      ReadPart(Head(boundary, fileName, contentType) + contents + Tail(boundary), boundary) == Some(contents)
  {
    var boundary := Boundary(a);
    var head := Head(boundary, fileName, contentType);
    BoundaryIsPlain(a);
    HeadersEndWhereWritten(boundary, fileName, contentType, contents + Tail(boundary));
    assert head + contents + Tail(boundary) == head + (contents + Tail(boundary));
    DelimiterIsOurs(head, contents, boundary);
    assert (head + contents + Tail(boundary))[|head|..|head| + |contents|] == contents;
  }

  /** A content type that breaks every upload: a blank line between two letters. */
  lemma BlankLineBreaksUpload(a: nat, fileName: Bytes, contents: Bytes)
    requires !Occurs(contents, Boundary(a))
    ensures
      var boundary := Boundary(a);
      var head := Head(boundary, fileName, [97] + BLANK_LINE + [98]);
      ReadPart(head + contents + Tail(boundary), boundary) != Some(contents)
  {
    var contentType: Bytes := [97] + BLANK_LINE + [98];
    assert contentType[1..5] == BLANK_LINE;
    assert At(contentType, 1, BLANK_LINE);
    ContentsComeBack(a, fileName, contentType, contents);
  }

  /** A content type that carries the whole part itself: a blank line, the contents and a delimiter. */
  function Smuggled(boundary: Bytes, contents: Bytes): Bytes {
    [97] + BLANK_LINE + contents + Delimiter(boundary)
  }

  /**
   Why `ContentsComeBack` asks that the content type does not name the boundary: one that
   does can be unclean and read back all the same, out of itself.
   */
  lemma SmuggledReadsBack(a: nat, fileName: Bytes, contents: Bytes)
    requires !Occurs(contents, Boundary(a))
    ensures
      var boundary := Boundary(a);
      var contentType := Smuggled(boundary, contents);
      && !Clean(contentType) && Occurs(contentType, boundary)
      && ReadPart(Head(boundary, fileName, contentType) + contents + Tail(boundary), boundary) == Some(contents)
  {
    var boundary := Boundary(a);
    var start, tail := HeadStart(boundary, fileName), Tail(boundary);
    BoundaryIsPlain(a);
    SmuggledIsUnclean(boundary, contents);
    HeadStartIsCalm(boundary, fileName);
    Regroup(start, Smuggled(boundary, contents), BLANK_LINE, contents, tail);
    SmuggledBody(start, boundary, contents, BLANK_LINE + (contents + tail));
  }

  lemma Regroup(a: Bytes, b: Bytes, c: Bytes, d: Bytes, e: Bytes)
    ensures a + b + c + d + e == a + b + (c + (d + e))
  {
  }

  lemma SmuggledIsUnclean(boundary: Bytes, contents: Bytes)
    ensures !Clean(Smuggled(boundary, contents)) && Occurs(Smuggled(boundary, contents), boundary)
  {
    var t := Smuggled(boundary, contents);
    assert t[1..5] == BLANK_LINE;
    assert At(t, 1, BLANK_LINE);
    var k := 5 + |contents| + 4;
    assert t[k..k + |boundary|] == boundary;
    assert At(t, k, boundary);
  }

  /** Where a reader of such a body finds the end of the headers and the first delimiter. */
  lemma SmuggledBody(start: Bytes, boundary: Bytes, contents: Bytes, rest: Bytes)
    requires Calm(start) && CR !in boundary && !Occurs(contents, boundary)
    ensures ReadPart(start + Smuggled(boundary, contents) + rest, boundary) == Some(contents)
  {
    var behind := contents + (Delimiter(boundary) + rest);
    var body := start + ([97] + BLANK_LINE + behind);
    SmuggledShape(start, boundary, contents, rest);
    OneLetterIsClean();
    CleanEnd(start, [97], behind, body);
    FirstDelimiter(start + [97] + BLANK_LINE, contents, boundary, rest, body);
    MiddleOf(start + [97] + BLANK_LINE, contents, Delimiter(boundary) + rest);
  }

  lemma SmuggledShape(start: Bytes, boundary: Bytes, contents: Bytes, rest: Bytes)
    ensures start + Smuggled(boundary, contents) + rest
         == start + ([97] + BLANK_LINE + (contents + (Delimiter(boundary) + rest)))
         == (start + [97] + BLANK_LINE) + contents + (Delimiter(boundary) + rest)
  {
    Flatten(start, [97], BLANK_LINE, contents, Delimiter(boundary), rest);
  }

  lemma Flatten(a: Bytes, b: Bytes, c: Bytes, d: Bytes, e: Bytes, f: Bytes)
    ensures a + (b + c + d + e) + f == a + (b + c + (d + (e + f))) == (a + b + c) + d + (e + f)
  {
  }

  lemma MiddleOf(a: Bytes, b: Bytes, c: Bytes)
    ensures (a + b + c)[|a|..|a| + |b|] == b
  {
  }

  lemma OneLetterIsClean()
    ensures Clean([97])
  {
  }
}
