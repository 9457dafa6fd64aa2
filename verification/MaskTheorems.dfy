/**
 What a caller can rely on in a masked text: no comment is left in it, and masking it
 again changes nothing, except behind some escaped char literals.
 */
module MaskTheorems {
  import opened Common
  import opened RustMask
  import opened MaskForms

  // ----- The masked text, offset by offset -----

  /** The scan stands at `i`, between two tokens. */
  predicate Reached(source: string, i: nat, isAlnum: char -> bool) {
    i <= |source| && (i < |source| ==> TokenStart(source, 0, i, isAlnum) == i)
  }

  lemma {:induction false} StartIsReached(source: string, j: nat, k: nat, isAlnum: char -> bool)
    requires j <= k < |source|
    ensures
      var i := TokenStart(source, j, k, isAlnum);
      && TokenStart(source, j, i, isAlnum) == i
      && (forall m :: i <= m < NextToken(source, i, isAlnum).end ==> TokenStart(source, j, m, isAlnum) == i)
    decreases |source| - j
  {
    var t := NextToken(source, j, isAlnum);
    if k >= t.end { StartIsReached(source, t.end, k, isAlnum); }
  }

  lemma {:induction false} EndIsReached(source: string, j: nat, i: nat, isAlnum: char -> bool)
    requires j <= i < |source| && TokenStart(source, j, i, isAlnum) == i && NextToken(source, i, isAlnum).end < |source|
    ensures
      var e := NextToken(source, i, isAlnum).end;
      TokenStart(source, j, e, isAlnum) == e
    decreases |source| - j
  {
    var t := NextToken(source, j, isAlnum);
    if i >= t.end { EndIsReached(source, t.end, i, isAlnum); }
  }

  lemma ReachedNext(source: string, i: nat, isAlnum: char -> bool)
    requires Reached(source, i, isAlnum) && i < |source|
    ensures Reached(source, NextToken(source, i, isAlnum).end, isAlnum)
  {
    if NextToken(source, i, isAlnum).end < |source| { EndIsReached(source, 0, i, isAlnum); }
  }

  predicate IsBlank(c: char) { c == ' ' || c == '\n' }

  /** The quote that masking adds stands behind a string that runs to the end. */
  predicate AddsQuote(m: string, n: nat) {
    0 < n && |m| == n + 1 && m[n] == '"' && (IsBlank(m[n - 1]) || m[n - 1] == '"')
  }

  /** The last token from `j` on is a string left open. */
  predicate EndsOpen(source: string, j: nat, isAlnum: char -> bool) {
    j < |source| && NextToken(source, TokenStart(source, j, |source| - 1, isAlnum), isAlnum).kind == OpenString
  }

  lemma {:induction false} OpenIsLast(source: string, j: nat, isAlnum: char -> bool)
    requires j <= |source| && !StringsClosed(source, j, isAlnum)
    ensures EndsOpen(source, j, isAlnum)
    decreases |source| - j
  {
    var t := NextToken(source, j, isAlnum);
    if t.kind == OpenString {
      OpenStringIsLast(source, j, isAlnum);
    } else {
      OpenIsLast(source, t.end, isAlnum);
    }
  }

  /** `m` is the masked source, said offset by offset. */
  ghost predicate Shows(m: string, source: string, isAlnum: char -> bool) {
    && (|m| == |source| || (AddsQuote(m, |source|) && EndsOpen(source, 0, isAlnum)))
    && forall k: nat :: k < |source| ==> ShowsAt(m, source, k, isAlnum)
  }

  ghost predicate ShowsAt(m: string, source: string, k: nat, isAlnum: char -> bool)
    requires k < |source|
  {
    k < |m| && m[k] == Shown(source, NextToken(source, TokenStart(source, 0, k, isAlnum), isAlnum), k)
  }

  lemma {:induction false} QuoteAdded(source: string, i: nat, isAlnum: char -> bool)
    requires i <= |source| && !StringsClosed(source, i, isAlnum)
    ensures AddsQuote(Masked(source, i, isAlnum), |source| - i)
    decreases |source| - i
  {
    var t := NextToken(source, i, isAlnum);
    var piece, rest := Piece(source, i, t), Masked(source, t.end, isAlnum);
    PieceLength(source, i, isAlnum);
    if t.kind == OpenString {
      OpenStringIsLast(source, i, isAlnum);
      assert piece + rest == piece;
      OpenPiece(source, i, t, isAlnum);
    } else {
      QuoteAdded(source, t.end, isAlnum);
      AddedBehind(piece, rest, |source| - t.end);
    }
  }

  lemma AddedBehind(a: string, b: string, n: nat)
    requires AddsQuote(b, n)
    ensures AddsQuote(a + b, |a| + n)
  {
  }

  lemma OpenPiece(source: string, i: nat, t: Token, isAlnum: char -> bool)
    requires i < |source| && NextToken(source, i, isAlnum) == t && t.kind == OpenString
    ensures AddsQuote(Piece(source, i, t), |source| - i)
  {
    OpenStringIsLast(source, i, isAlnum);
    PieceAt(source, i, t, |source| - 1);
    OpenShape(source, i, t, isAlnum);
  }

  lemma OpenShape(source: string, i: nat, t: Token, isAlnum: char -> bool)
    requires i < |source| && NextToken(source, i, isAlnum) == t && t.kind == OpenString
    ensures t.to == t.end == |source| && i < t.from && source[t.from - 1] == '"'
  {
  }

  lemma MaskShows(source: string, isAlnum: char -> bool)
    ensures Shows(Masked(source, 0, isAlnum), source, isAlnum)
  {
    MaskLength(source, isAlnum);
    forall k: nat | k < |source| ensures ShowsAt(Masked(source, 0, isAlnum), source, k, isAlnum) {
      ShowsEach(Masked(source, 0, isAlnum), source, k, isAlnum);
    }
  }

  lemma ShowsEach(m: string, source: string, k: nat, isAlnum: char -> bool)
    requires m == Masked(source, 0, isAlnum) && k < |source|
    ensures ShowsAt(m, source, k, isAlnum)
  {
    MaskedShows(source, 0, k, isAlnum);
  }

  lemma MaskLength(source: string, isAlnum: char -> bool)
    ensures
      || |Masked(source, 0, isAlnum)| == |source|
      || (AddsQuote(Masked(source, 0, isAlnum), |source|) && EndsOpen(source, 0, isAlnum))
  {
    LengthKept(source, 0, isAlnum);
    if !StringsClosed(source, 0, isAlnum) {
      QuoteAdded(source, 0, isAlnum);
      OpenIsLast(source, 0, isAlnum);
    }
  }

  /** What is not a blank is the source's own, or the added quote. */
  lemma NotBlankIsOwn(m: string, source: string, k: nat, c: char, isAlnum: char -> bool)
    requires Shows(m, source, isAlnum) && At(m, k, c) && !IsBlank(c)
    ensures At(source, k, c) || (k == |source| && c == '"' && AddsQuote(m, |source|))
  {
    assert k < |source| ==> ShowsAt(m, source, k, isAlnum);
  }

  lemma TokenShown(m: string, source: string, i: nat, isAlnum: char -> bool)
    requires Shows(m, source, isAlnum) && Reached(source, i, isAlnum) && i < |source|
    ensures
      var t := NextToken(source, i, isAlnum);
      forall k :: i <= k < t.end ==> k < |m| && m[k] == Shown(source, t, k)
  {
    StartIsReached(source, 0, i, isAlnum);
    var t := NextToken(source, i, isAlnum);
    forall k: nat | i <= k < t.end ensures k < |m| && m[k] == Shown(source, t, k) {
      assert ShowsAt(m, source, k, isAlnum);
    }
  }

  // ----- No comment is left -----

  lemma SlashIsCode(m: string, source: string, k: nat, isAlnum: char -> bool)
    requires Shows(m, source, isAlnum) && At(m, k, '/')
    ensures k < |source| && source[k] == '/'
    ensures Reached(source, k, isAlnum) && NextToken(source, k, isAlnum) == CodeToken(k)
  {
    NotBlankIsOwn(m, source, k, '/', isAlnum);
    assert ShowsAt(m, source, k, isAlnum);
    var i := TokenStart(source, 0, k, isAlnum);
    StartIsReached(source, 0, k, isAlnum);
    var p := SomeForm(source, i, isAlnum);
    FormIsToken(source, i, p, isAlnum);
    Delimiters(source, i, p, k, isAlnum);
  }

  lemma RawDelimiters(source: string, i: nat, byte: bool, hashes: nat, close: nat, k: nat, isAlnum: char -> bool)
    requires RawOpens(source, i, byte, hashes, isAlnum) && k < |source|
    requires close < |source| ==> RawCloses(source, close, hashes)
    ensures i <= k < RawContents(i, byte, hashes) ==> source[k] in "br#\""
    ensures close <= k < close + 1 + hashes ==> source[k] in "#\""
  {
    assert source[k] == '#' <==> At(source, k, '#');
  }

  lemma Delimiters(source: string, i: nat, p: Placed, k: nat, isAlnum: char -> bool)
    requires Formed(source, i, p, isAlnum) && i <= k < p.end && !Inside(source, i, p, k)
    ensures p == Placed(Other, i + 1) || source[k] in "br#\"'"
  {
    match p.form
    case RawString(byte, hashes, close) => RawDelimiters(source, i, byte, hashes, close, k, isAlnum);
    case OpenRaw(byte, hashes) => RawDelimiters(source, i, byte, hashes, |source|, k, isAlnum);
    case StringLiteral(byte, close) =>
      assert Ends(source, OpenQuote(StringContents(i, byte)), close);
    case EscapedLiteral(close) =>
      assert Ends(source, Apostrophe, close);
    case _ =>
  }

  /** The masked text opens no comment, line or block, at any offset. */
  lemma NoCommentLeft(source: string, k: nat, isAlnum: char -> bool)
    ensures !Pair(Masked(source, 0, isAlnum), k, '/', '/') && !Pair(Masked(source, 0, isAlnum), k, '/', '*')
  {
    var m := Masked(source, 0, isAlnum);
    MaskShows(source, isAlnum);
    if At(m, k, '/') {
      SlashIsCode(m, source, k, isAlnum);
      BehindSlash(m, source, k, '/', isAlnum);
      BehindSlash(m, source, k, '*', isAlnum);
    }
  }

  lemma BehindSlash(m: string, source: string, k: nat, c: char, isAlnum: char -> bool)
    requires Shows(m, source, isAlnum) && k < |source| && source[k] == '/' && (c == '/' || c == '*')
    requires NextToken(source, k, isAlnum) == CodeToken(k)
    ensures !At(m, k + 1, c)
  {
    assert !Pair(source, k, '/', c);
    if At(m, k + 1, c) { NotBlankIsOwn(m, source, k + 1, c, isAlnum); }
  }
}
