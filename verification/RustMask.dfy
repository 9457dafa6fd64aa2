/**
 The Rust source masker of the static checks: comments and literal contents are
 blanked, offsets and newlines stay where they are.
 */
module RustMask {
  import opened Common

  // ----- Text helpers -----

  predicate StartsAt(s: string, i: nat, word: string) {
    i + |word| <= |s| && s[i..i + |word|] == word
  }

  /** `str.startswith` with a word of two characters. */
  predicate Pair(s: string, i: nat, a: char, b: char) {
    i + 1 < |s| && s[i] == a && s[i + 1] == b
  }

  /** `str.find`: the first occurrence at or after `from`, or -1. */
  function Find(s: string, word: string, from: nat): (r: int)
    ensures r == -1 || (from <= r && StartsAt(s, r, word))
    ensures forall k: nat :: from <= k && (r == -1 || k < r) ==> !StartsAt(s, k, word)
    decreases |s| - from
  {
    if StartsAt(s, from, word) then from else if from >= |s| then -1 else Find(s, word, from + 1)
  }

  /** `_blank`. */
  function Blank(s: string): (r: string)
    ensures |r| == |s| && forall k :: 0 <= k < |s| ==> r[k] == if s[k] == '\n' then '\n' else ' '
  {
    seq(|s|, k requires 0 <= k < |s| => if s[k] == '\n' then '\n' else ' ')
  }

  // ----- Tokens -----

  datatype Kind = Code | Comment | RawString | String | OpenString | EscapedChar | PlainChar

  /** A token from its start to `end`, hidden between `from` and `to`. */
  datatype Token = Token(kind: Kind, from: nat, to: nat, end: nat)

  predicate Fits(source: string, i: nat, t: Token) {
    i <= t.from <= t.to <= t.end <= |source| && i < t.end
  }

  function EndOfLine(source: string, i: nat): (e: nat)
    requires i <= |source|
    ensures i <= e <= |source| && (forall k :: i <= k < e ==> source[k] != '\n')
    ensures e < |source| ==> source[e] == '\n'
  {
    assert forall k :: 0 <= k < |source| ==> (StartsAt(source, k, "\n") <==> source[k] == '\n');
    var e := Find(source, "\n", i);
    if e < 0 then |source| else e
  }

  /** What stands at `j`: the opening of a comment (1), the close of one (-1) or neither. */
  function Mark(source: string, j: nat): (m: int)
    ensures -1 <= m <= 1 && (m != 0 ==> j + 2 <= |source|)
  {
    if Pair(source, j, '/', '*') then 1 else if Pair(source, j, '*', '/') then -1 else 0
  }

  /** The end of a block comment that is `depth` levels deep at `j`. */
  function CommentEnd(source: string, j: nat, depth: nat): (e: nat)
    requires j <= |source|
    ensures j <= e <= |source|
    decreases |source| - j
  {
    if j == |source| || depth == 0 then j
    else CommentEnd(source, j + (if Mark(source, j) == 0 then 1 else 2), depth + Mark(source, j))
  }

  /** The number of `#` characters from `i` on. */
  function Hashes(source: string, i: nat): (n: nat)
    ensures n > 0 ==> i + n <= |source|
    ensures forall k :: i <= k < i + n ==> source[k] == '#'
    decreases |source| - i
  {
    if i < |source| && source[i] == '#' then 1 + Hashes(source, i + 1) else 0
  }

  /** Where a raw string's contents start, when one starts at `i`: `b?r#*"`. */
  function RawStart(source: string, i: nat): (r: int)
    requires i < |source|
    ensures r == -1 || i + 1 < r <= |source|
  {
    var b := i + if source[i] == 'b' then 1 else 0;
    if b < |source| && source[b] == 'r' then
      var q := b + 1 + Hashes(source, b + 1);
      if q < |source| && source[q] == '"' then q + 1 else -1
    else -1
  }

  function Terminator(source: string, i: nat): (r: string)
    requires i < |source|
    ensures |r| >= 1
  {
    var b := i + if source[i] == 'b' then 1 else 0;
    "\"" + seq(Hashes(source, b + 1), k => '#')
  }

  /** The first unescaped quote from `j` on, or a place at or behind the end. */
  function QuoteFrom(source: string, j: nat): (e: nat)
    ensures j <= e && (e < |source| ==> source[e] == '"')
    decreases |source| - j
  {
    if j >= |source| || source[j] == '"' then j
    else QuoteFrom(source, j + if source[j] == '\\' then 2 else 1)
  }

  predicate RawAllowed(source: string, i: nat, isAlnum: char -> bool)
    requires i < |source|
  {
    RawStart(source, i) >= 0 && (i == 0 || !(isAlnum(source[i - 1]) || source[i - 1] == '_'))
  }

  function RawToken(source: string, i: nat): (t: Token)
    requires i < |source| && RawStart(source, i) >= 0
    ensures Fits(source, i, t)
  {
    var from := RawStart(source, i);
    var found := Find(source, Terminator(source, i), from);
    if found < 0 then Token(RawString, from, |source|, |source|)
    else Token(RawString, from, found, found + |Terminator(source, i)|)
  }

  predicate OpensString(source: string, i: nat)
    requires i < |source|
  {
    source[i] == '"' || Pair(source, i, 'b', '"')
  }

  function StringToken(source: string, i: nat): (t: Token)
    requires i < |source| && OpensString(source, i)
    ensures Fits(source, i, t)
  {
    var start := i + if source[i] == 'b' then 2 else 1;
    var j := QuoteFrom(source, start);
    if j < |source| then Token(String, start, j, j + 1) else Token(OpenString, start, |source|, |source|)
  }

  function CodeToken(i: nat): Token { Token(Code, i + 1, i + 1, i + 1) }

  function CharToken(source: string, i: nat): (t: Token)
    requires i < |source| && source[i] == '\''
    ensures Fits(source, i, t)
  {
    if i + 1 < |source| && source[i + 1] == '\\' then
      var end := Find(source, "'", i + 3);
      if end > 0 then Token(EscapedChar, i + 1, end, end + 1) else CodeToken(i)
    else if i + 2 < |source| && source[i + 2] == '\'' then Token(PlainChar, i + 1, i + 2, i + 3)
    else CodeToken(i)
  }

  /** The token that starts at `i`, in the source's order of cases. */
  function NextToken(source: string, i: nat, isAlnum: char -> bool): (t: Token)
    requires i < |source|
    ensures Fits(source, i, t)
  {
    if Pair(source, i, '/', '/') then
      var e := EndOfLine(source, i);
      Token(Comment, i, e, e)
    else if Pair(source, i, '/', '*') then
      var e := CommentEnd(source, i + 2, 1);
      Token(Comment, i, e, e)
    else if RawAllowed(source, i, isAlnum) then RawToken(source, i)
    else if OpensString(source, i) then StringToken(source, i)
    else if source[i] == '\'' then CharToken(source, i)
    else CodeToken(i)
  }

  /** What a token becomes: its hidden part blank, and a quote added to a string without one. */
  function Piece(source: string, i: nat, t: Token): string
    requires Fits(source, i, t)
  {
    if t.kind == PlainChar then "' '"
    else
      source[i..t.from] + Blank(source[t.from..t.to]) + source[t.to..t.end]
      + if t.kind == OpenString then "\"" else ""
  }

  function Masked(source: string, i: nat, isAlnum: char -> bool): string
    requires i <= |source|
    decreases |source| - i
  {
    if i == |source| then ""
    else
      var t := NextToken(source, i, isAlnum);
      Piece(source, i, t) + Masked(source, t.end, isAlnum)
  }

  // ----- What the literals are -----

  /** The body of a block comment: plain characters, and comments inside it with the offset of their close. */
  datatype Body = End | Char(rest: Body) | Nested(inner: Body, close: nat, rest: Body)

  /** The source spells the comment body `b` from `j` up to `e`. */
  predicate Spells(source: string, j: nat, b: Body, e: nat)
    decreases b
  {
    match b
    case End => j == e <= |source|
    case Char(rest) => j < |source| && Mark(source, j) == 0 && Spells(source, j + 1, rest, e)
    case Nested(inner, close, rest) =>
      && Mark(source, j) == 1 && Spells(source, j + 2, inner, close)
      && Mark(source, close) == -1 && Spells(source, close + 2, rest, e)
  }

  lemma CommentStep(source: string, j: nat, depth: nat)
    requires j < |source| && depth > 0
    ensures Mark(source, j) == 0 ==> CommentEnd(source, j, depth) == CommentEnd(source, j + 1, depth)
    ensures Mark(source, j) == 1 ==> CommentEnd(source, j, depth) == CommentEnd(source, j + 2, depth + 1)
    ensures Mark(source, j) == -1 ==> CommentEnd(source, j, depth) == CommentEnd(source, j + 2, depth - 1)
  {
  }

  lemma {:induction false} BodySkipped(source: string, j: nat, b: Body, e: nat, depth: nat)
    requires Spells(source, j, b, e) && depth > 0
    ensures j <= e <= |source| && CommentEnd(source, j, depth) == CommentEnd(source, e, depth)
    decreases b
  {
    match b
    case End =>
    case Char(rest) =>
      BodySkipped(source, j + 1, rest, e, depth);
      CommentStep(source, j, depth);
    case Nested(inner, close, rest) =>
      BodySkipped(source, close + 2, rest, e, depth);
      BodySkipped(source, j + 2, inner, close, depth + 1);
      CommentStep(source, close, depth + 1);
      CommentStep(source, j, depth);
  }

  /** A block comment ends where its nesting grammar says, whatever follows it. */
  lemma CommentIsWhole(source: string, i: nat, b: Body, close: nat)
    requires Mark(source, i) == 1 && Spells(source, i + 2, b, close) && Mark(source, close) == -1
    ensures CommentEnd(source, i + 2, 1) == close + 2
  {
    BodySkipped(source, i + 2, b, close, 1);
    CommentStep(source, close, 1);
  }

  /** A string's quote that an odd run of backslashes escapes. */
  predicate EscapedQuote(source: string, start: nat, k: nat)
    requires start <= k <= |source|
  {
    BackslashRun(source, start, k) % 2 == 1
  }

  /** A string ends at its first quote that no odd run of backslashes escapes. */
  lemma {:induction false} StringEndsAtQuote(source: string, start: nat, j: nat)
    requires start <= j <= |source| && !EscapedQuote(source, start, j)
    requires forall k :: start <= k < j && source[k] == '"' ==> EscapedQuote(source, start, k)
    ensures
      var e := QuoteFrom(source, j);
      && (e < |source| ==> source[e] == '"' && !EscapedQuote(source, start, e))
      && forall k :: start <= k < |source| && k < e && source[k] == '"' ==> EscapedQuote(source, start, k)
    decreases |source| - j
  {
    if j < |source| && source[j] != '"' {
      if source[j] == '\\' {
        assert EscapedQuote(source, start, j + 1);
        if j + 1 < |source| {
          assert !EscapedQuote(source, start, j + 2);
          StringEndsAtQuote(source, start, j + 2);
        }
      } else {
        StringEndsAtQuote(source, start, j + 1);
      }
    }
  }

  // ----- The scanner -----

  method SkipComment(source: string, i: nat) returns (j: nat)
    requires Pair(source, i, '/', '*')
    ensures j == CommentEnd(source, i + 2, 1)
  {
    var depth := 1;
    j := i + 2;
    while j < |source| && depth != 0
      invariant i + 2 <= j <= |source| && depth >= 0
      invariant CommentEnd(source, i + 2, 1) == CommentEnd(source, j, depth)
      decreases |source| - j
    {
      if Pair(source, j, '/', '*') {
        depth := depth + 1;
        j := j + 2;
      } else if Pair(source, j, '*', '/') {
        depth := depth - 1;
        j := j + 2;
      } else {
        j := j + 1;
      }
    }
  }

  method SkipString(source: string, start: nat) returns (j: nat)
    ensures j == QuoteFrom(source, start)
  {
    j := start;
    while j < |source| && source[j] != '"'
      invariant QuoteFrom(source, start) == QuoteFrom(source, j)
      decreases |source| - j
    {
      j := j + if source[j] == '\\' then 2 else 1;
    }
  }

  /** One turn of the loop: the text appended and the next index, which may lie behind the end. */
  method MaskOne(source: string, i: nat, isAlnum: char -> bool) returns (piece: string, next: nat)
    requires i < |source|
    ensures
      var t := NextToken(source, i, isAlnum);
      piece == Piece(source, i, t) && (next == t.end || (next > |source| && t.end == |source|))
  {
    if Pair(source, i, '/', '/') {
      var end := Find(source, "\n", i);
      next := if end < 0 then |source| else end;
      piece := Blank(source[i..next]);
      assert source[i..i] + piece + source[next..next] + "" == piece;
      return;
    }
    if Pair(source, i, '/', '*') {
      next := SkipComment(source, i);
      piece := Blank(source[i..next]);
      assert source[i..i] + piece + source[next..next] + "" == piece;
      return;
    }
    if RawAllowed(source, i, isAlnum) {
      piece, next := MaskRaw(source, i);
      return;
    }
    if OpensString(source, i) {
      piece, next := MaskString(source, i);
      return;
    }
    if source[i] == '\'' {
      piece, next := MaskChar(source, i);
      return;
    }
    piece := [source[i]];
    next := i + 1;
    CodePiece(source, i);
  }

  lemma CodePiece(source: string, i: nat)
    requires i < |source|
    ensures Piece(source, i, CodeToken(i)) == [source[i]]
  {
    assert source[i..i + 1] == [source[i]] && source[i + 1..i + 1] == "";
  }

  method MaskRaw(source: string, i: nat) returns (piece: string, next: nat)
    requires i < |source| && RawStart(source, i) >= 0
    ensures
      var t := RawToken(source, i);
      piece == Piece(source, i, t) && (next == t.end || (next > |source| && t.end == |source|))
  {
    var from := RawStart(source, i);
    var terminator := Terminator(source, i);
    var end := Find(source, terminator, from);
    if end < 0 { end := |source|; }
    var shut := if end + |terminator| <= |source| then end + |terminator| else |source|;
    piece := source[i..from] + Blank(source[from..end]) + source[end..shut];
    next := end + |terminator|;
    assert piece + "" == piece;
  }

  method MaskString(source: string, i: nat) returns (piece: string, next: nat)
    requires i < |source| && OpensString(source, i)
    ensures
      var t := StringToken(source, i);
      piece == Piece(source, i, t) && (next == t.end || (next > |source| && t.end == |source|))
  {
    var start := i + if source[i] == 'b' then 2 else 1;
    var j := SkipString(source, start);
    var shut := if j <= |source| then j else |source|;
    piece := source[i..start] + Blank(source[start..shut]) + "\"";
    next := j + 1;
    StringPiece(source, i, start, j);
  }

  lemma StringPiece(source: string, i: nat, start: nat, j: nat)
    requires i <= start <= j && start <= |source| && i < |source| && (j < |source| ==> source[j] == '"')
    ensures j < |source| ==>
      Piece(source, i, Token(String, start, j, j + 1)) == source[i..start] + Blank(source[start..j]) + "\""
    ensures j >= |source| ==>
      Piece(source, i, Token(OpenString, start, |source|, |source|))
      == source[i..start] + Blank(source[start..|source|]) + "\""
  {
    if j < |source| {
      assert source[j..j + 1] == "\"";
    } else {
      var hidden := source[i..start] + Blank(source[start..|source|]);
      assert source[|source|..|source|] == "" && hidden + "" == hidden;
    }
  }

  method MaskChar(source: string, i: nat) returns (piece: string, next: nat)
    requires i < |source| && source[i] == '\''
    ensures
      var t := CharToken(source, i);
      piece == Piece(source, i, t) && next == t.end
  {
    CodePiece(source, i);
    if i + 1 < |source| && source[i + 1] == '\\' {
      var end := Find(source, "'", i + 3);
      if end > 0 {
        piece := "'" + Blank(source[i + 1..end]) + "'";
        next := end + 1;
        assert source[i..i + 1] == "'" && source[end..end + 1] == "'" && piece + "" == piece;
        return;
      }
    } else if i + 2 < |source| && source[i + 2] == '\'' {
      return "' '", i + 3;
    }
    return [source[i]], i + 1;
  }

  /** `mask`. */
  method Mask(source: string, isAlnum: char -> bool) returns (r: string)
    ensures r == Masked(source, 0, isAlnum)
  {
    r := "";
    var i := 0;
    while i < |source|
      invariant Masked(source, 0, isAlnum) == r + if i <= |source| then Masked(source, i, isAlnum) else ""
      decreases |source| - i
    {
      var piece, next := MaskOne(source, i, isAlnum);
      r := r + piece;
      i := next;
    }
  }

  // ----- What masking keeps -----

  /** No string literal from `i` on runs into the end of the source. */
  predicate StringsClosed(source: string, i: nat, isAlnum: char -> bool)
    requires i <= |source|
    decreases |source| - i
  {
    i < |source| ==>
      var t := NextToken(source, i, isAlnum);
      t.kind != OpenString && StringsClosed(source, t.end, isAlnum)
  }

  /** No char literal from `i` on holds a line break. */
  predicate CharsOnOneLine(source: string, i: nat, isAlnum: char -> bool)
    requires i <= |source|
    decreases |source| - i
  {
    i < |source| ==>
      var t := NextToken(source, i, isAlnum);
      && !(t.kind == PlainChar && source[t.from] == '\n')
      && CharsOnOneLine(source, t.end, isAlnum)
  }

  lemma PieceLength(source: string, i: nat, isAlnum: char -> bool)
    requires i < |source|
    ensures
      var t := NextToken(source, i, isAlnum);
      |Piece(source, i, t)| == t.end - i + if t.kind == OpenString then 1 else 0
  {
  }

  /** Offsets are kept exactly when every string literal is closed; an open one costs one extra quote at the end. */
  lemma {:induction false} LengthKept(source: string, i: nat, isAlnum: char -> bool)
    requires i <= |source|
    ensures |Masked(source, i, isAlnum)| == |source| - i + if StringsClosed(source, i, isAlnum) then 0 else 1
    decreases |source| - i
  {
    if i < |source| {
      var t := NextToken(source, i, isAlnum);
      PieceLength(source, i, isAlnum);
      LengthKept(source, t.end, isAlnum);
      if t.kind == OpenString { OpenStringIsLast(source, i, isAlnum); }
    }
  }

  lemma OpenStringIsLast(source: string, i: nat, isAlnum: char -> bool)
    requires i < |source| && NextToken(source, i, isAlnum).kind == OpenString
    ensures NextToken(source, i, isAlnum).end == |source|
  {
  }

  /** The start of the token that covers `k`. */
  function TokenStart(source: string, i: nat, k: nat, isAlnum: char -> bool): (s: nat)
    requires i <= k < |source|
    ensures i <= s <= k && k < NextToken(source, s, isAlnum).end
    decreases |source| - i
  {
    var t := NextToken(source, i, isAlnum);
    if k < t.end then i else TokenStart(source, t.end, k, isAlnum)
  }

  /** The character in a comment, or inside a literal's delimiters. */
  predicate Hidden(source: string, k: nat, isAlnum: char -> bool)
    requires k < |source|
  {
    var t := NextToken(source, TokenStart(source, 0, k, isAlnum), isAlnum);
    t.from <= k < t.to
  }

  /** What stands at an offset of the masked text. */
  function Shown(source: string, t: Token, k: nat): char
    requires k < |source|
  {
    if !(t.from <= k < t.to) then source[k]
    else if source[k] == '\n' && t.kind != PlainChar then '\n'
    else ' '
  }

  lemma PieceAt(source: string, i: nat, t: Token, k: nat)
    requires Fits(source, i, t) && t.kind != PlainChar && i <= k < t.end
    ensures k - i < |Piece(source, i, t)| && Piece(source, i, t)[k - i] == Shown(source, t, k)
  {
  }

  lemma PieceShows(source: string, i: nat, k: nat, isAlnum: char -> bool)
    requires i < |source| && i <= k < NextToken(source, i, isAlnum).end
    ensures
      var t := NextToken(source, i, isAlnum);
      k - i < |Piece(source, i, t)| && Piece(source, i, t)[k - i] == Shown(source, t, k)
  {
    var t := NextToken(source, i, isAlnum);
    if t.kind == PlainChar {
      PlainCharShape(source, i, isAlnum);
    } else {
      PieceAt(source, i, t, k);
    }
  }

  lemma PlainCharShape(source: string, i: nat, isAlnum: char -> bool)
    requires i < |source| && NextToken(source, i, isAlnum).kind == PlainChar
    ensures i + 2 < |source| && source[i] == source[i + 2] == '\''
    ensures NextToken(source, i, isAlnum) == Token(PlainChar, i + 1, i + 2, i + 3)
  {
  }

  lemma {:induction false} MaskedShows(source: string, i: nat, k: nat, isAlnum: char -> bool)
    requires i <= k < |source|
    ensures
      var t := NextToken(source, TokenStart(source, i, k, isAlnum), isAlnum);
      k - i < |Masked(source, i, isAlnum)| && Masked(source, i, isAlnum)[k - i] == Shown(source, t, k)
    decreases |source| - i
  {
    var t := NextToken(source, i, isAlnum);
    PieceLength(source, i, isAlnum);
    if k < t.end {
      PieceShows(source, i, k, isAlnum);
    } else {
      if t.kind == OpenString { OpenStringIsLast(source, i, isAlnum); }
      MaskedShows(source, t.end, k, isAlnum);
    }
  }

  /**
   At every offset the masked text has the source's own character where it is code or a
   delimiter, and a blank in comments and literals; no newline is ever added.
   */
  lemma EveryOffset(source: string, k: nat, isAlnum: char -> bool)
    requires k < |source|
    ensures
      var masked := Masked(source, 0, isAlnum);
      && k < |masked|
      && (!Hidden(source, k, isAlnum) ==> masked[k] == source[k])
      && (Hidden(source, k, isAlnum) ==> masked[k] == ' ' || masked[k] == source[k] == '\n')
      && (masked[k] == '\n' ==> source[k] == '\n')
  {
    MaskedShows(source, 0, k, isAlnum);
  }

  lemma {:induction false} SwallowedLine(source: string, i: nat, isAlnum: char -> bool) returns (k: nat)
    requires i <= |source| && !CharsOnOneLine(source, i, isAlnum)
    ensures i <= k < |source| && source[k] == '\n'
    ensures k - i < |Masked(source, i, isAlnum)| && Masked(source, i, isAlnum)[k - i] == ' '
    decreases |source| - i
  {
    var t := NextToken(source, i, isAlnum);
    PieceLength(source, i, isAlnum);
    if t.kind == PlainChar && source[t.from] == '\n' {
      k := t.from;
      PlainCharShape(source, i, isAlnum);
    } else {
      k := SwallowedLine(source, t.end, isAlnum);
      if t.kind == OpenString { OpenStringIsLast(source, i, isAlnum); }
    }
  }

  lemma {:induction false} OneLineCover(source: string, i: nat, k: nat, isAlnum: char -> bool)
    requires i <= k < |source| && CharsOnOneLine(source, i, isAlnum) && source[k] == '\n'
    ensures
      var t := NextToken(source, TokenStart(source, i, k, isAlnum), isAlnum);
      Shown(source, t, k) == '\n'
    decreases |source| - i
  {
    var t := NextToken(source, i, isAlnum);
    if k < t.end {
      if t.kind == PlainChar { PlainCharShape(source, i, isAlnum); }
    } else {
      OneLineCover(source, t.end, k, isAlnum);
    }
  }

  lemma NewlineKept(source: string, k: nat, isAlnum: char -> bool)
    requires k < |source| && CharsOnOneLine(source, 0, isAlnum) && source[k] == '\n'
    ensures k < |Masked(source, 0, isAlnum)| && Masked(source, 0, isAlnum)[k] == '\n'
  {
    OneLineCover(source, 0, k, isAlnum);
    MaskedShows(source, 0, k, isAlnum);
  }

  lemma AllNewlinesKept(source: string, isAlnum: char -> bool)
    requires CharsOnOneLine(source, 0, isAlnum) && |source| <= |Masked(source, 0, isAlnum)|
    ensures forall k :: 0 <= k < |source| && source[k] == '\n' ==> Masked(source, 0, isAlnum)[k] == '\n'
  {
    forall k | 0 <= k < |source| && source[k] == '\n' ensures Masked(source, 0, isAlnum)[k] == '\n' {
      NewlineKept(source, k, isAlnum);
    }
  }

  lemma SomeNewlineLost(source: string, isAlnum: char -> bool)
    requires !CharsOnOneLine(source, 0, isAlnum)
    ensures exists k ::
      && 0 <= k < |source| && k < |Masked(source, 0, isAlnum)|
      && source[k] == '\n' && Masked(source, 0, isAlnum)[k] != '\n'
  {
    var k := SwallowedLine(source, 0, isAlnum);
    assert source[k] == '\n' && Masked(source, 0, isAlnum)[k] == ' ';
  }

  /** Every newline keeps its offset exactly when no char literal holds one. */
  lemma NewlinesKept(source: string, isAlnum: char -> bool)
    ensures |source| <= |Masked(source, 0, isAlnum)|
    ensures CharsOnOneLine(source, 0, isAlnum)
       <==> forall k :: 0 <= k < |source| && source[k] == '\n' ==> Masked(source, 0, isAlnum)[k] == '\n'
  {
    LengthKept(source, 0, isAlnum);
    if CharsOnOneLine(source, 0, isAlnum) {
      AllNewlinesKept(source, isAlnum);
    } else {
      SomeNewlineLost(source, isAlnum);
    }
  }

  /** A string left open gains a quote; a line break between single quotes is lost. */
  lemma MaskingCanFail(isAlnum: char -> bool)
    ensures !StringsClosed("\"", 0, isAlnum) && !CharsOnOneLine("'\n'", 0, isAlnum)
  {
    assert QuoteFrom("\"", 1) == 1;
    assert NextToken("\"", 0, isAlnum).kind == OpenString;
    assert NextToken("'\n'", 0, isAlnum) == Token(PlainChar, 1, 2, 3);
  }
}
