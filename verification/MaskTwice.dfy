/**
 Masking a masked text. Comments, strings and plain char literals are settled by the first
 pass. The blanks of an escaped char literal are not a literal any more, so the second pass
 may take its closing quote for an opening one.
 */
module MaskTwice {
  import opened Common
  import opened RustMask
  import opened MaskForms
  import opened MaskTheorems

  /** Blanks and slashes are not part of a word. */
  predicate Sensible(isAlnum: char -> bool) { !isAlnum(' ') && !isAlnum('\n') && !isAlnum('/') }

  /** `same` tells from where on masking the text changes nothing. */
  ghost predicate Telling(same: nat -> bool, m: string, isAlnum: char -> bool) {
    forall i: nat {:trigger Masked(m, i, isAlnum)} ::
      i <= |m| ==> (same(i) <==> Masked(m, i, isAlnum) == m[i..])
  }

  ghost predicate Alike(same: nat -> bool, i: nat, j: nat) { same(i) <==> same(j) }

  // ----- What decides it -----

  /** A single quote at `k` or behind it that is not hidden. */
  ghost predicate ShowsQuote(source: string, from: nat, isAlnum: char -> bool) {
    exists k: nat :: from <= k < |source| && source[k] == '\'' && !Hidden(source, k, isAlnum)
  }

  /** The character at `e` stands before a quote. */
  predicate BeforeQuote(source: string, e: nat, isAlnum: char -> bool) {
    e + 1 < |source| && source[e + 1] == '\'' && NextToken(source, e, isAlnum).kind == Code
  }

  /** No escaped char literal from `i` on stands before what makes its closing quote look like an opening one. */
  ghost predicate Settled(source: string, i: nat, isAlnum: char -> bool)
    requires i <= |source|
    decreases |source| - i, 0
  {
    i < |source| ==>
      var t := NextToken(source, i, isAlnum);
      if t.kind == EscapedChar then Quiet(source, t.end, isAlnum) else Settled(source, t.end, isAlnum)
  }

  /**
   Behind a closing quote that opens nothing: no backslash with a quote to come, and no
   character before a quote but a space, behind which the same holds again.
   */
  ghost predicate Quiet(source: string, e: nat, isAlnum: char -> bool)
    requires e <= |source|
    decreases |source| - e, 1
  {
    if At(source, e, '\\') then !ShowsQuote(source, e + 2, isAlnum) && Settled(source, e, isAlnum)
    else if BeforeQuote(source, e, isAlnum) then
      source[e] == ' ' && Past(source, NextToken(source, e + 1, isAlnum), isAlnum)
    else Settled(source, e, isAlnum)
  }

  /** Behind a token whose opening quote the second pass has taken for a closing one. */
  ghost predicate Past(source: string, t: Token, isAlnum: char -> bool)
    requires t.end <= |source|
    decreases |source| - t.end, 2
  {
    if t.kind == Code then Settled(source, t.end, isAlnum) else Quiet(source, t.end, isAlnum)
  }

  // ----- Tokens of the second pass -----

  lemma KeptToken(same: nat -> bool, m: string, i: nat, t: Token, isAlnum: char -> bool)
    requires Telling(same, m, isAlnum)
    requires i < |m| && NextToken(m, i, isAlnum) == t && t.kind != OpenString
    requires forall k :: t.from <= k < t.to ==> m[k] == ' ' || (m[k] == '\n' && t.kind != PlainChar)
    ensures same(i) <==> same(t.end)
  {
    PieceKept(m, i, t, isAlnum);
    SplitSame(m, i, t.end, Piece(m, i, t), Masked(m, t.end, isAlnum));
    assert Masked(m, i, isAlnum) == Piece(m, i, t) + Masked(m, t.end, isAlnum);
  }

  lemma EndTells(same: nat -> bool, m: string, isAlnum: char -> bool)
    requires Telling(same, m, isAlnum)
    ensures same(|m|)
  {
    assert Masked(m, |m|, isAlnum) == "" == m[|m|..];
  }

  lemma PieceKept(m: string, i: nat, t: Token, isAlnum: char -> bool)
    requires i < |m| && NextToken(m, i, isAlnum) == t && t.kind != OpenString
    requires forall k :: t.from <= k < t.to ==> m[k] == ' ' || (m[k] == '\n' && t.kind != PlainChar)
    ensures Piece(m, i, t) == m[i..t.end]
  {
    PieceLength(m, i, isAlnum);
    PieceIs(m, i, t, Piece(m, i, t), isAlnum);
  }

  lemma PieceIs(m: string, i: nat, t: Token, piece: string, isAlnum: char -> bool)
    requires i < |m| && NextToken(m, i, isAlnum) == t && piece == Piece(m, i, t) && |piece| == t.end - i
    requires forall k :: t.from <= k < t.to ==> m[k] == ' ' || (m[k] == '\n' && t.kind != PlainChar)
    ensures piece == m[i..t.end]
  {
    forall k: nat | k < t.end - i ensures piece[k] == m[i + k] {
      PieceKeptAt(m, i, t, i + k, isAlnum);
    }
    SameText(m, i, t.end, piece);
  }

  lemma PieceKeptAt(m: string, i: nat, t: Token, k: nat, isAlnum: char -> bool)
    requires i < |m| && NextToken(m, i, isAlnum) == t && i <= k < t.end
    requires t.from <= k < t.to ==> m[k] == ' ' || (m[k] == '\n' && t.kind != PlainChar)
    ensures k - i < |Piece(m, i, t)| && Piece(m, i, t)[k - i] == m[k]
  {
    PieceShows(m, i, k, isAlnum);
  }

  lemma SameText(m: string, i: nat, e: nat, piece: string)
    requires i <= e <= |m| && |piece| == e - i && forall k: nat :: k < e - i ==> piece[k] == m[i + k]
    ensures piece == m[i..e]
  {
  }

  lemma SplitSame(m: string, i: nat, e: nat, piece: string, rest: string)
    requires i <= e <= |m| && piece == m[i..e]
    ensures piece + rest == m[i..] <==> rest == m[e..]
  {
    assert m[i..] == m[i..e] + m[e..];
    if piece + rest == m[i..] {
      assert (piece + rest)[e - i..] == rest && m[i..][e - i..] == m[e..];
    }
  }

  lemma ChangedToken(same: nat -> bool, m: string, i: nat, t: Token, k: nat, isAlnum: char -> bool)
    requires Telling(same, m, isAlnum)
    requires i < |m| && NextToken(m, i, isAlnum) == t && t.from <= k < t.to
    requires m[k] != ' ' && (m[k] != '\n' || t.kind == PlainChar)
    ensures !same(i)
  {
    assert m[i..][k - i] == m[k];
    MaskedShows(m, i, k, isAlnum);
  }

  lemma KeptForm(same: nat -> bool, m: string, i: nat, p: Placed, isAlnum: char -> bool)
    requires Telling(same, m, isAlnum)
    requires Formed(m, i, p, isAlnum) && !p.form.UnclosedString?
    requires forall k: nat :: Inside(m, i, p, k) ==> m[k] == ' ' || (m[k] == '\n' && !p.form.PlainLiteral?)
    ensures same(i) <==> same(p.end)
  {
    FormIsToken(m, i, p, isAlnum);
    PlainKind(m, i, p);
    var t := TokenOf(m, i, p);
    forall k | t.from <= k < t.to ensures m[k] == ' ' || (m[k] == '\n' && t.kind != PlainChar) {
      assert Inside(m, i, p, k);
    }
    KeptToken(same, m, i, t, isAlnum);
  }

  lemma BlankIsCode(m: string, i: nat, isAlnum: char -> bool)
    requires i < |m| && IsBlank(m[i])
    ensures NextToken(m, i, isAlnum) == CodeToken(i)
  {
  }

  lemma {:induction false} BlankRun(same: nat -> bool, m: string, i: nat, e: nat, isAlnum: char -> bool)
    requires Telling(same, m, isAlnum)
    requires i <= e <= |m| && forall k :: i <= k < e ==> IsBlank(m[k])
    ensures same(i) <==> same(e)
    decreases e - i
  {
    if i < e {
      BlankIsCode(m, i, isAlnum);
      KeptToken(same, m, i, CodeToken(i), isAlnum);
      BlankRun(same, m, i + 1, e, isAlnum);
    }
  }

  // ----- The forms of the first pass, met again -----

  predicate Wordy(c: char, isAlnum: char -> bool) { isAlnum(c) || c == '_' }

  /** Whether a word runs up to `i` is the same in the masked text, where a raw string could start. */
  lemma WordBefore(m: string, source: string, i: nat, isAlnum: char -> bool)
    requires Sensible(isAlnum) && Shows(m, source, isAlnum) && Reached(source, i, isAlnum)
    requires 0 < i < |source| && source[i] != '\n'
    ensures Wordy(m[i - 1], isAlnum) <==> Wordy(source[i - 1], isAlnum)
  {
    var s := TokenStart(source, 0, i - 1, isAlnum);
    TokenBefore(source, i, isAlnum);
    assert ShowsAt(m, source, i - 1, isAlnum);
    var t := NextToken(source, s, isAlnum);
    if t.from <= i - 1 < t.to { HiddenEnd(source, s, t, isAlnum); }
  }

  lemma TokenBefore(source: string, i: nat, isAlnum: char -> bool)
    requires 0 < i < |source| && Reached(source, i, isAlnum)
    ensures NextToken(source, TokenStart(source, 0, i - 1, isAlnum), isAlnum).end == i
  {
    StartIsReached(source, 0, i - 1, isAlnum);
  }

  /** A token whose last character is hidden is a comment, or runs to the end of the source. */
  lemma HiddenEnd(source: string, s: nat, t: Token, isAlnum: char -> bool)
    requires s < |source| && t == NextToken(source, s, isAlnum) && t.from <= t.end - 1 < t.to
    ensures t.end == |source| || source[t.end] == '\n' || source[t.end - 1] == '/'
  {
    var p := SomeForm(source, s, isAlnum);
    FormIsToken(source, s, p, isAlnum);
  }

  /** A form other than a comment or an escaped char literal stays what it is, with blank contents. */
  ghost predicate Stays(m: string, i: nat, p: Placed, isAlnum: char -> bool) {
    && Formed(m, i, p, isAlnum)
    && forall k: nat :: Inside(m, i, p, k) ==> m[k] == ' ' || (m[k] == '\n' && !p.form.PlainLiteral?)
  }

  /** What the masked text shows of a form. */
  ghost predicate FormShown(m: string, source: string, i: nat, p: Placed) {
    && i < p.end <= |source| && p.end <= |m|
    && forall k: nat :: i <= k < p.end ==>
         if Inside(source, i, p, k) then m[k] == ' ' || (m[k] == '\n' && !p.form.PlainLiteral?)
         else m[k] == source[k]
  }

  lemma FormIsShown(m: string, source: string, i: nat, p: Placed, isAlnum: char -> bool)
    requires Shows(m, source, isAlnum) && Reached(source, i, isAlnum) && Formed(source, i, p, isAlnum)
    ensures FormShown(m, source, i, p)
  {
    FormIsToken(source, i, p, isAlnum);
    PlainKind(source, i, p);
    TokenShown(m, source, i, isAlnum);
  }

  lemma PlainStays(m: string, source: string, i: nat, p: Placed, isAlnum: char -> bool)
    requires Formed(source, i, p, isAlnum) && FormShown(m, source, i, p) && p.form.PlainLiteral?
    ensures Stays(m, i, p, isAlnum)
  {
  }

  lemma {:induction false} BlanksEscapeNothing(m: string, start: nat, k: nat)
    requires start <= k <= |m| && forall j :: start <= j < k ==> IsBlank(m[j])
    ensures !EscapedQuote(m, start, k)
  {
  }

  lemma StringStays(m: string, source: string, i: nat, p: Placed, isAlnum: char -> bool)
    requires Formed(source, i, p, isAlnum) && FormShown(m, source, i, p) && p.form.StringLiteral?
    ensures Stays(m, i, p, isAlnum)
  {
    var start, close := StringContents(i, p.form.byte), p.form.close;
    assert Ends(source, OpenQuote(start), close);
    BlanksEscapeNothing(m, start, close);
    assert Ends(m, OpenQuote(start), close);
    forall k: nat | start <= k < close ensures !Ends(m, OpenQuote(start), k) { assert Inside(source, i, p, k); }
  }

  /** A string that was left open is closed in the masked text. */
  lemma OpenStringStays(m: string, source: string, i: nat, p: Placed, isAlnum: char -> bool)
    requires Formed(source, i, p, isAlnum) && FormShown(m, source, i, p) && p.form.UnclosedString?
    requires AddsQuote(m, |source|)
    ensures Stays(m, i, Placed(StringLiteral(p.form.byte, |source|), |source| + 1), isAlnum)
  {
    var start, close := StringContents(i, p.form.byte), |source|;
    var q := Placed(StringLiteral(p.form.byte, close), close + 1);
    forall k: nat | start <= k < close ensures IsBlank(m[k]) { assert Inside(source, i, p, k); }
    BlanksEscapeNothing(m, start, close);
    assert Ends(m, OpenQuote(start), close);
    forall k: nat | start <= k < close ensures !Ends(m, OpenQuote(start), k) { assert Inside(source, i, p, k); }
  }

  lemma RawOpensAgain(m: string, source: string, i: nat, p: Placed, byte: bool, hashes: nat, isAlnum: char -> bool)
    requires RawOpens(source, i, byte, hashes, isAlnum) && FormShown(m, source, i, p)
    requires p.end >= RawContents(i, byte, hashes)
    requires forall k: nat :: i <= k < RawContents(i, byte, hashes) ==> !Inside(source, i, p, k)
    requires i > 0 ==> (Wordy(m[i - 1], isAlnum) <==> Wordy(source[i - 1], isAlnum))
    ensures RawOpens(m, i, byte, hashes, isAlnum)
  {
    var r := i + if byte then 1 else 0;
    forall k | r < k <= r + hashes ensures At(m, k, '#') { assert At(source, k, '#'); }
  }

  lemma RawStays(m: string, source: string, i: nat, p: Placed, isAlnum: char -> bool)
    requires Formed(source, i, p, isAlnum) && FormShown(m, source, i, p) && p.form.RawString?
    requires i > 0 ==> (Wordy(m[i - 1], isAlnum) <==> Wordy(source[i - 1], isAlnum))
    ensures Stays(m, i, p, isAlnum)
  {
    var from, close, hashes := RawContents(i, p.form.byte, p.form.hashes), p.form.close, p.form.hashes;
    RawOpensAgain(m, source, i, p, p.form.byte, hashes, isAlnum);
    assert Ends(source, HashQuote(hashes), close);
    forall h | close < h <= close + hashes ensures At(m, h, '#') { assert At(source, h, '#'); }
    assert Ends(m, HashQuote(hashes), close);
    forall k: nat | from <= k < close ensures !Ends(m, HashQuote(hashes), k) { assert Inside(source, i, p, k); }
  }

  lemma OpenRawStays(m: string, source: string, i: nat, p: Placed, isAlnum: char -> bool)
    requires Formed(source, i, p, isAlnum) && FormShown(m, source, i, p) && p.form.OpenRaw?
    requires |m| == |source|
    requires i > 0 ==> (Wordy(m[i - 1], isAlnum) <==> Wordy(source[i - 1], isAlnum))
    ensures Stays(m, i, p, isAlnum)
  {
    var from, hashes := RawContents(i, p.form.byte, p.form.hashes), p.form.hashes;
    RawOpensAgain(m, source, i, p, p.form.byte, hashes, isAlnum);
    forall k: nat | from <= k ensures !Ends(m, HashQuote(hashes), k) {
      if k < |m| { assert Inside(source, i, p, k); }
    }
  }

  // ----- Code stays code -----

  lemma RawWasRaw(m: string, source: string, i: nat, byte: bool, hashes: nat, isAlnum: char -> bool)
    requires Shows(m, source, isAlnum) && RawOpens(m, i, byte, hashes, isAlnum)
    requires 0 < i < |source| ==> (Wordy(m[i - 1], isAlnum) <==> Wordy(source[i - 1], isAlnum))
    ensures RawOpens(source, i, byte, hashes, isAlnum)
  {
    var r := i + if byte then 1 else 0;
    if byte { NotBlankIsOwn(m, source, i, 'b', isAlnum); }
    NotBlankIsOwn(m, source, r, 'r', isAlnum);
    forall k: nat | r < k <= r + hashes ensures At(source, k, '#') {
      assert At(m, k, '#');
      NotBlankIsOwn(m, source, k, '#', isAlnum);
    }
    assert hashes > 0 ==> At(m, r + hashes, '#');
    NotBlankIsOwn(m, source, r + 1 + hashes, '"', isAlnum);
  }

  lemma QuotesWere(m: string, source: string, i: nat, isAlnum: char -> bool)
    requires Shows(m, source, isAlnum) && i < |source|
    ensures Quotes(m, i, false) ==> Quotes(source, i, false)
    ensures Quotes(m, i, true) ==> Quotes(source, i, true)
  {
    if At(m, i, '"') { NotBlankIsOwn(m, source, i, '"', isAlnum); }
    if Quotes(m, i, true) {
      NotBlankIsOwn(m, source, i, 'b', isAlnum);
      NotBlankIsOwn(m, source, i + 1, '"', isAlnum);
    }
  }

  /** A backslash is never a delimiter, so between two tokens it is shown. */
  lemma BackslashShown(m: string, source: string, i: nat, isAlnum: char -> bool)
    requires Shows(m, source, isAlnum) && Reached(source, i, isAlnum)
    ensures At(source, i, '\\') <==> At(m, i, '\\')
  {
    if At(m, i, '\\') { NotBlankIsOwn(m, source, i, '\\', isAlnum); }
    if At(source, i, '\\') { TokenShown(m, source, i, isAlnum); }
  }

  lemma QuoteWas(m: string, source: string, k: nat, isAlnum: char -> bool)
    requires Shows(m, source, isAlnum) && At(m, k, '\'')
    ensures At(source, k, '\'') && !Hidden(source, k, isAlnum)
  {
    NotBlankIsOwn(m, source, k, '\'', isAlnum);
    assert ShowsAt(m, source, k, isAlnum);
  }

  lemma CharWas(m: string, source: string, i: nat, isAlnum: char -> bool)
    requires Shows(m, source, isAlnum) && Reached(source, i + 1, isAlnum) && OpensChar(m, i)
    ensures OpensChar(source, i)
  {
    QuoteWas(m, source, i, isAlnum);
    BackslashShown(m, source, i + 1, isAlnum);
    if At(m, i + 1, '\\') {
      var k: nat :| i + 3 <= k && Ends(m, Apostrophe, k);
      QuoteWas(m, source, k, isAlnum);
      assert Ends(source, Apostrophe, k);
    } else {
      QuoteWas(m, source, i + 2, isAlnum);
    }
  }

  lemma CodeStays(m: string, source: string, i: nat, isAlnum: char -> bool)
    requires m == Masked(source, 0, isAlnum) && Shows(m, source, isAlnum) && Reached(source, i + 1, isAlnum)
    requires Formed(source, i, Placed(Other, i + 1), isAlnum)
    requires i > 0 ==> (Wordy(m[i - 1], isAlnum) <==> Wordy(source[i - 1], isAlnum))
    ensures Stays(m, i, Placed(Other, i + 1), isAlnum)
  {
    NoCommentLeft(source, i, isAlnum);
    forall byte, hashes: nat ensures !RawOpens(m, i, byte, hashes, isAlnum) {
      if RawOpens(m, i, byte, hashes, isAlnum) {
        RawWasRaw(m, source, i, byte, hashes, isAlnum);
        assert false;
      }
    }
    QuotesWere(m, source, i, isAlnum);
    if OpensChar(m, i) { CharWas(m, source, i, isAlnum); }
  }

  // ----- The second pass -----

  ghost predicate Setting(same: nat -> bool, m: string, source: string, isAlnum: char -> bool) {
    && Sensible(isAlnum) && m == Masked(source, 0, isAlnum) && Shows(m, source, isAlnum)
    && Telling(same, m, isAlnum)
  }

  lemma StayedIsSame(same: nat -> bool, m: string, i: nat, p: Placed, isAlnum: char -> bool)
    requires Telling(same, m, isAlnum)
    requires Stays(m, i, p, isAlnum) && !p.form.UnclosedString?
    ensures same(i) <==> same(p.end)
  {
    KeptForm(same, m, i, p, isAlnum);
  }

  lemma NoQuoteAdded(m: string, source: string, i: nat, p: Placed, isAlnum: char -> bool)
    requires Shows(m, source, isAlnum) && Reached(source, i, isAlnum) && Formed(source, i, p, isAlnum)
    requires p.end == |source|
    ensures if p.form.UnclosedString? then AddsQuote(m, |source|) || |m| == |source| else |m| == |source|
  {
    FormIsToken(source, i, p, isAlnum);
    PlainKind(source, i, p);
    StartIsReached(source, 0, i, isAlnum);
  }

  /** A form that ends where the second pass goes on in step with the first. */
  lemma FormAgain(same: nat -> bool, m: string, source: string, i: nat, p: Placed, isAlnum: char -> bool)
    requires Setting(same, m, source, isAlnum) && Reached(source, i, isAlnum) && Formed(source, i, p, isAlnum)
    requires !p.form.EscapedLiteral? && !p.form.UnclosedString?
    ensures same(i) <==> same(p.end)
  {
    FormIsShown(m, source, i, p, isAlnum);
    if i > 0 && source[i] != '\n' { WordBefore(m, source, i, isAlnum); }
    match p.form
    case RawString(_, _, _) =>
      RawStays(m, source, i, p, isAlnum);
      StayedIsSame(same, m, i, p, isAlnum);
    case OpenRaw(_, _) =>
      NoQuoteAdded(m, source, i, p, isAlnum);
      OpenRawStays(m, source, i, p, isAlnum);
      StayedIsSame(same, m, i, p, isAlnum);
    case StringLiteral(_, _) =>
      StringStays(m, source, i, p, isAlnum);
      StayedIsSame(same, m, i, p, isAlnum);
    case PlainLiteral =>
      PlainStays(m, source, i, p, isAlnum);
      StayedIsSame(same, m, i, p, isAlnum);
    case Other => CodeAgain(same, m, source, i, isAlnum);
    case _ => CommentAgain(same, m, source, i, p, isAlnum);
  }

  lemma CommentAgain(same: nat -> bool, m: string, source: string, i: nat, p: Placed, isAlnum: char -> bool)
    requires Telling(same, m, isAlnum)
    requires Formed(source, i, p, isAlnum) && FormShown(m, source, i, p)
    requires p.form.LineComment? || p.form.BlockComment? || p.form.OpenComment?
    ensures same(i) <==> same(p.end)
  {
    forall k: nat | i <= k < p.end ensures IsBlank(m[k]) { assert Inside(source, i, p, k); }
    BlankRun(same, m, i, p.end, isAlnum);
  }

  lemma CodeAgain(same: nat -> bool, m: string, source: string, i: nat, isAlnum: char -> bool)
    requires Setting(same, m, source, isAlnum) && Reached(source, i, isAlnum)
    requires Formed(source, i, Placed(Other, i + 1), isAlnum) && FormShown(m, source, i, Placed(Other, i + 1))
    ensures same(i) <==> same(i + 1)
  {
    assert m[i] == source[i];
    if source[i] == '\n' {
      BlankRun(same, m, i, i + 1, isAlnum);
    } else {
      FormIsToken(source, i, Placed(Other, i + 1), isAlnum);
      ReachedNext(source, i, isAlnum);
      if i > 0 { WordBefore(m, source, i, isAlnum); }
      CodeStays(m, source, i, isAlnum);
      StayedIsSame(same, m, i, Placed(Other, i + 1), isAlnum);
    }
  }

  lemma OpenStringAgain(same: nat -> bool, m: string, source: string, i: nat, p: Placed, isAlnum: char -> bool)
    requires Setting(same, m, source, isAlnum) && Reached(source, i, isAlnum)
    requires Formed(source, i, p, isAlnum) && p.form.UnclosedString?
    ensures same(i)
  {
    FormIsToken(source, i, p, isAlnum);
    FormIsShown(m, source, i, p, isAlnum);
    OpenMeansAdded(source, i, isAlnum);
    var q := Placed(StringLiteral(p.form.byte, |source|), |source| + 1);
    OpenStringStays(m, source, i, p, isAlnum);
    StayedIsSame(same, m, i, q, isAlnum);
    EndTells(same, m, isAlnum);
  }

  lemma {:induction false} OpenMeansOpen(source: string, j: nat, i: nat, isAlnum: char -> bool)
    requires j <= i < |source| && TokenStart(source, j, i, isAlnum) == i
    requires NextToken(source, i, isAlnum).kind == OpenString
    ensures !StringsClosed(source, j, isAlnum)
    decreases |source| - j
  {
    var t := NextToken(source, j, isAlnum);
    if i >= t.end { OpenMeansOpen(source, t.end, i, isAlnum); }
  }

  lemma OpenMeansAdded(source: string, i: nat, isAlnum: char -> bool)
    requires Reached(source, i, isAlnum) && i < |source| && NextToken(source, i, isAlnum).kind == OpenString
    ensures AddsQuote(Masked(source, 0, isAlnum), |source|)
  {
    OpenMeansOpen(source, 0, i, isAlnum);
    QuoteAdded(source, 0, isAlnum);
  }

  /** Two single quotes with two blanks or more between them. */
  predicate BlankBetween(m: string, i: nat, close: nat) {
    close >= i + 3 && At(m, i, '\'') && At(m, close, '\'') && forall k :: i < k < close ==> IsBlank(m[k])
  }

  lemma EscapedShown(m: string, source: string, i: nat, p: Placed, isAlnum: char -> bool)
    requires Formed(source, i, p, isAlnum) && FormShown(m, source, i, p) && p.form.EscapedLiteral?
    ensures p.end == p.form.close + 1 && BlankBetween(m, i, p.form.close)
  {
    assert Ends(source, Apostrophe, p.form.close) && !Inside(source, i, p, p.form.close) && !Inside(source, i, p, i);
    forall k: nat | i < k < p.form.close ensures IsBlank(m[k]) { assert Inside(source, i, p, k); }
  }

  /** The second pass walks over an escaped char literal up to its closing quote. */
  lemma WalkOver(same: nat -> bool, m: string, i: nat, close: nat, isAlnum: char -> bool)
    requires Telling(same, m, isAlnum)
    requires BlankBetween(m, i, close)
    ensures At(m, close, '\'') && Alike(same, i, close) && Alike(same, i + 1, close)
  {
    QuoteIsOther(m, i, isAlnum);
    KeptForm(same, m, i, Placed(Other, i + 1), isAlnum);
    BlankRun(same, m, i + 1, close, isAlnum);
  }

  lemma EscapedAgain(same: nat -> bool, m: string, source: string, i: nat, p: Placed, isAlnum: char -> bool)
    requires Telling(same, m, isAlnum)
    requires Shows(m, source, isAlnum) && Reached(source, i, isAlnum)
    requires Formed(source, i, p, isAlnum) && p.form.EscapedLiteral?
    ensures Over(same, m, source, i, p.end, isAlnum)
  {
    FormIsShown(m, source, i, p, isAlnum);
    EscapedOver(same, m, source, i, p, p.form.close, isAlnum);
    if p.end == |source| { NoQuoteAdded(m, source, i, p, isAlnum); }
  }

  /** The second pass comes from `i`, and from behind it, to the closing quote in front of `e`. */
  ghost predicate Over(same: nat -> bool, m: string, source: string, i: nat, e: nat, isAlnum: char -> bool) {
    && i + 1 < e && At(m, e - 1, '\'') && Alike(same, i, e - 1) && Alike(same, i + 1, e - 1)
    && (e == |source| ==> |m| == |source|)
  }

  lemma EscapedOver(same: nat -> bool, m: string, source: string, i: nat, p: Placed, close: nat, isAlnum: char -> bool)
    requires Telling(same, m, isAlnum)
    requires Formed(source, i, p, isAlnum) && FormShown(m, source, i, p)
    requires p.form.EscapedLiteral? && close == p.form.close
    ensures p.end == close + 1 && close > i && At(m, close, '\'')
    ensures Alike(same, i, close) && Alike(same, i + 1, close)
  {
    EscapedShown(m, source, i, p, isAlnum);
    WalkOver(same, m, i, close, isAlnum);
  }

  /** A single quote that opens no char literal. */
  lemma QuoteIsOther(m: string, i: nat, isAlnum: char -> bool)
    requires At(m, i, '\'') && !OpensChar(m, i)
    ensures Formed(m, i, Placed(Other, i + 1), isAlnum)
  {
  }

  // ----- The two passes side by side -----

  lemma SettledStep(source: string, i: nat, t: Token, isAlnum: char -> bool)
    requires i < |source| && NextToken(source, i, isAlnum) == t
    ensures t.kind != EscapedChar ==> (Settled(source, i, isAlnum) <==> Settled(source, t.end, isAlnum))
    ensures t.kind == EscapedChar ==> (Settled(source, i, isAlnum) <==> Quiet(source, t.end, isAlnum))
  {
  }

  lemma EscapedKind(source: string, i: nat, p: Placed)
    ensures TokenOf(source, i, p).kind == EscapedChar <==> p.form.EscapedLiteral?
    ensures TokenOf(source, i, p).kind == Code <==> p.form.Other?
    ensures TokenOf(source, i, p).end == if p.form.Other? then i + 1 else p.end
  {
  }

  lemma {:induction false} Remask(same: nat -> bool, m: string, source: string, i: nat, isAlnum: char -> bool)
    requires Setting(same, m, source, isAlnum) && Reached(source, i, isAlnum)
    ensures same(i) || i == |source| <==> Settled(source, i, isAlnum)
    decreases |source| - i, 0
  {
    if i < |source| {
      var t := TokenAgain(same, m, source, i, isAlnum);
      SettledStep(source, i, t, isAlnum);
      RemaskStep(same, m, source, i, t, isAlnum);
    }
  }

  /** What the second pass does up to the end of the first pass's token, by the token's kind. */
  ghost predicate Again(same: nat -> bool, m: string, source: string, i: nat, t: Token, isAlnum: char -> bool) {
    if t.kind == OpenString then same(i) && t.end == |source|
    else if t.kind == EscapedChar then Over(same, m, source, i, t.end, isAlnum)
    else Alike(same, i, t.end) && (t.end == |source| ==> same(t.end))
  }

  lemma TokenAgain(same: nat -> bool, m: string, source: string, i: nat, isAlnum: char -> bool) returns (t: Token)
    requires Setting(same, m, source, isAlnum) && Reached(source, i, isAlnum) && i < |source|
    ensures t == NextToken(source, i, isAlnum) && i < t.end && Reached(source, t.end, isAlnum)
    ensures Again(same, m, source, i, t, isAlnum)
  {
    var p := SomeForm(source, i, isAlnum);
    FormIsToken(source, i, p, isAlnum);
    ReachedNext(source, i, isAlnum);
    t := TokenOf(source, i, p);
    FormAgainIs(same, m, source, i, p, isAlnum);
  }

  lemma FormAgainIs(same: nat -> bool, m: string, source: string, i: nat, p: Placed, isAlnum: char -> bool)
    requires Setting(same, m, source, isAlnum) && Reached(source, i, isAlnum) && Formed(source, i, p, isAlnum)
    ensures Again(same, m, source, i, TokenOf(source, i, p), isAlnum)
  {
    EscapedKind(source, i, p);
    PlainKind(source, i, p);
    if p.form.EscapedLiteral? {
      EscapedIs(same, m, source, i, p, TokenOf(source, i, p), isAlnum);
    } else if p.form.UnclosedString? {
      OpenStringAgain(same, m, source, i, p, isAlnum);
    } else {
      OtherIs(same, m, source, i, p, TokenOf(source, i, p), isAlnum);
    }
  }

  lemma EscapedIs(same: nat -> bool, m: string, source: string, i: nat, p: Placed, t: Token, isAlnum: char -> bool)
    requires Setting(same, m, source, isAlnum) && Reached(source, i, isAlnum) && Formed(source, i, p, isAlnum)
    requires p.form.EscapedLiteral? && t.kind == EscapedChar && t.end == p.end
    ensures Again(same, m, source, i, t, isAlnum)
  {
    EscapedAgain(same, m, source, i, p, isAlnum);
  }

  lemma OtherIs(same: nat -> bool, m: string, source: string, i: nat, p: Placed, t: Token, isAlnum: char -> bool)
    requires Setting(same, m, source, isAlnum) && Reached(source, i, isAlnum) && Formed(source, i, p, isAlnum)
    requires !p.form.EscapedLiteral? && !p.form.UnclosedString?
    requires t.kind != EscapedChar && t.kind != OpenString && t.end == p.end
    ensures Again(same, m, source, i, t, isAlnum)
  {
    FormAgain(same, m, source, i, p, isAlnum);
    EndIsSame(same, m, source, i, p, isAlnum);
  }

  lemma {:induction false} RemaskStep(same: nat -> bool, m: string, source: string, i: nat, t: Token,
                                      isAlnum: char -> bool)
    requires Setting(same, m, source, isAlnum) && i < t.end && Reached(source, t.end, isAlnum)
    requires Again(same, m, source, i, t, isAlnum)
    ensures same(i) <==>
              if t.kind == EscapedChar then Quiet(source, t.end, isAlnum) else Settled(source, t.end, isAlnum)
    decreases |source| - t.end, 3
  {
    if t.kind == EscapedChar {
      RemaskOver(same, m, source, i, t.end, isAlnum);
    } else if t.kind != OpenString {
      RemaskOn(same, m, source, i, t.end, isAlnum);
    }
  }

  lemma {:induction false} RemaskOver(same: nat -> bool, m: string, source: string, i: nat, e: nat,
                                      isAlnum: char -> bool)
    requires Setting(same, m, source, isAlnum) && Reached(source, e, isAlnum)
    requires e > 0 && At(m, e - 1, '\'') && Alike(same, i, e - 1) && (e == |source| ==> |m| == |source|)
    ensures same(i) <==> Quiet(source, e, isAlnum)
    decreases |source| - e, 2
  {
    RemaskQuote(same, m, source, e, isAlnum);
  }

  lemma {:induction false} RemaskOn(same: nat -> bool, m: string, source: string, i: nat, e: nat, isAlnum: char -> bool)
    requires Setting(same, m, source, isAlnum) && Reached(source, e, isAlnum) && Alike(same, i, e)
    requires e == |source| ==> same(e)
    ensures same(i) <==> Settled(source, e, isAlnum)
    decreases |source| - e, 2
  {
    Remask(same, m, source, e, isAlnum);
  }

  lemma EndIsSame(same: nat -> bool, m: string, source: string, i: nat, p: Placed, isAlnum: char -> bool)
    requires Telling(same, m, isAlnum)
    requires Shows(m, source, isAlnum) && Reached(source, i, isAlnum) && Formed(source, i, p, isAlnum)
    ensures p.form.UnclosedString? ==> p.end == |source|
    ensures !p.form.UnclosedString? && p.end == |source| ==> |m| == |source| && same(p.end)
  {
    EndTells(same, m, isAlnum);
    if p.end == |source| { NoQuoteAdded(m, source, i, p, isAlnum); }
  }

  // ----- Behind a closing quote -----

  /** The second pass takes a closing quote for a lone one. */
  lemma LoneQuote(same: nat -> bool, m: string, e: nat, isAlnum: char -> bool)
    requires Telling(same, m, isAlnum)
    requires e > 0 && At(m, e - 1, '\'') && !OpensChar(m, e - 1)
    ensures same(e - 1) <==> same(e)
  {
    QuoteIsOther(m, e - 1, isAlnum);
    KeptForm(same, m, e - 1, Placed(Other, e), isAlnum);
  }

  /** The second pass takes a closing quote, a backslash and a later quote for a char literal. */
  lemma EscapedAnew(same: nat -> bool, m: string, e: nat, k: nat, isAlnum: char -> bool)
    requires Telling(same, m, isAlnum)
    requires e > 0 && At(m, e - 1, '\'') && At(m, e, '\\') && e + 2 <= k && At(m, k, '\'')
    ensures !same(e - 1)
  {
    assert Ends(m, Apostrophe, k);
    var p := SomeChar(m, e - 1, isAlnum);
    FormIsToken(m, e - 1, p, isAlnum);
    assert p.form.EscapedLiteral?;
    ChangedToken(same, m, e - 1, TokenOf(m, e - 1, p), e, isAlnum);
  }

  lemma BeforeBackslash(same: nat -> bool, m: string, source: string, e: nat, isAlnum: char -> bool)
    requires Setting(same, m, source, isAlnum) && Reached(source, e, isAlnum) && e > 0
    requires At(m, e - 1, '\'') && At(source, e, '\\')
    ensures ShowsQuote(source, e + 2, isAlnum) ==> !same(e - 1)
    ensures !ShowsQuote(source, e + 2, isAlnum) ==> (same(e - 1) <==> same(e))
  {
    BackslashShown(m, source, e, isAlnum);
    if ShowsQuote(source, e + 2, isAlnum) {
      var k: nat :| e + 2 <= k < |source| && source[k] == '\'' && !Hidden(source, k, isAlnum);
      assert ShowsAt(m, source, k, isAlnum);
      EscapedAnew(same, m, e, k, isAlnum);
    } else {
      forall k: nat | e + 2 <= k ensures !Ends(m, Apostrophe, k) {
        if At(m, k, '\'') { QuoteWas(m, source, k, isAlnum); }
      }
      LoneQuote(same, m, e, isAlnum);
    }
  }

  /** One character between two quotes: the second pass takes the three for a char literal. */
  lemma BetweenQuotes(same: nat -> bool, m: string, e: nat, isAlnum: char -> bool)
    requires Telling(same, m, isAlnum)
    requires e > 0 && At(m, e - 1, '\'') && At(m, e + 1, '\'') && !At(m, e, '\\')
    ensures m[e] != ' ' ==> !same(e - 1)
    ensures m[e] == ' ' ==> (same(e - 1) <==> same(e + 2))
  {
    var p := Placed(PlainLiteral, e + 2);
    FormIsToken(m, e - 1, p, isAlnum);
    if m[e] != ' ' {
      ChangedToken(same, m, e - 1, TokenOf(m, e - 1, p), e, isAlnum);
    } else {
      KeptForm(same, m, e - 1, p, isAlnum);
    }
  }

  /** A shown quote right behind a token's first character stands behind a code token. */
  lemma QuoteBehind(source: string, e: nat, p: Placed, isAlnum: char -> bool)
    requires Formed(source, e, p, isAlnum) && At(source, e + 1, '\'')
    requires e + 1 < p.end ==> !Inside(source, e, p, e + 1)
    ensures p.form.Other?
  {
    if e + 1 < p.end {
      Delimiters(source, e, p, e + 1, isAlnum);
      if p.form.RawString? { RawDelimiters(source, e, p.form.byte, p.form.hashes, p.form.close, e + 1, isAlnum); }
      if p.form.OpenRaw? { RawDelimiters(source, e, p.form.byte, p.form.hashes, |source|, e + 1, isAlnum); }
    }
  }

  lemma QuoteBehindIs(same: nat -> bool, m: string, source: string, e: nat, isAlnum: char -> bool)
    requires Setting(same, m, source, isAlnum) && Reached(source, e, isAlnum) && e < |source| && At(m, e + 1, '\'')
    ensures BeforeQuote(source, e, isAlnum)
  {
    QuoteWas(m, source, e + 1, isAlnum);
    var p := SomeForm(source, e, isAlnum);
    FormIsToken(source, e, p, isAlnum);
    EscapedKind(source, e, p);
    StartIsReached(source, 0, e, isAlnum);
    QuoteBehind(source, e, p, isAlnum);
  }

  /** What stands before a shown quote is shown too, and the quote starts a token. */
  lemma BeforeQuoteShown(same: nat -> bool, m: string, source: string, e: nat, isAlnum: char -> bool)
    requires Setting(same, m, source, isAlnum) && Reached(source, e, isAlnum) && BeforeQuote(source, e, isAlnum)
    ensures At(m, e, source[e]) && At(m, e + 1, '\'') && Reached(source, e + 1, isAlnum)
  {
    var p := SomeForm(source, e, isAlnum);
    FormIsToken(source, e, p, isAlnum);
    EscapedKind(source, e, p);
    ReachedNext(source, e, isAlnum);
    TokenShown(m, source, e, isAlnum);
    TokenShown(m, source, e + 1, isAlnum);
    var q := SomeForm(source, e + 1, isAlnum);
    FormIsToken(source, e + 1, q, isAlnum);
  }

  /** A token that starts with a single quote. */
  lemma CharAt(source: string, i: nat, isAlnum: char -> bool) returns (p: Placed)
    requires At(source, i, '\'')
    ensures Formed(source, i, p, isAlnum) && NextToken(source, i, isAlnum) == TokenOf(source, i, p)
    ensures p.form.Other? || p.form.PlainLiteral? || p.form.EscapedLiteral?
  {
    p := SomeForm(source, i, isAlnum);
    FormIsToken(source, i, p, isAlnum);
  }

  /** The second pass stands at the closing quote in front of `e`. */
  lemma {:induction false} RemaskQuote(same: nat -> bool, m: string, source: string, e: nat, isAlnum: char -> bool)
    requires Setting(same, m, source, isAlnum) && Reached(source, e, isAlnum) && e > 0 && At(m, e - 1, '\'')
    requires e == |source| ==> |m| == |source|
    ensures same(e - 1) <==> Quiet(source, e, isAlnum)
    decreases |source| - e, 1
  {
    BackslashShown(m, source, e, isAlnum);
    EndTells(same, m, isAlnum);
    if At(source, e, '\\') {
      BeforeBackslash(same, m, source, e, isAlnum);
      Remask(same, m, source, e, isAlnum);
    } else if BeforeQuote(source, e, isAlnum) {
      BeforeQuoteShown(same, m, source, e, isAlnum);
      BetweenQuotes(same, m, e, isAlnum);
      RemaskPast(same, m, source, e + 1, isAlnum);
    } else {
      if e < |source| && At(m, e + 1, '\'') { QuoteBehindIs(same, m, source, e, isAlnum); }
      LoneQuote(same, m, e, isAlnum);
      Remask(same, m, source, e, isAlnum);
    }
  }

  /** How the second pass gets from behind the opening quote at `i` to the end of the token, or to its closing quote. */
  ghost predicate GoesOn(same: nat -> bool, m: string, source: string, i: nat, t: Token) {
    && i < t.end && (t.end == |source| ==> |m| == |source| && same(t.end))
    && if t.kind == Code then t.end == i + 1 else At(m, t.end - 1, '\'') && Alike(same, i + 1, t.end - 1)
  }

  lemma CharPast(same: nat -> bool, m: string, source: string, i: nat, isAlnum: char -> bool)
    requires Setting(same, m, source, isAlnum) && Reached(source, i, isAlnum) && At(source, i, '\'')
    ensures GoesOn(same, m, source, i, NextToken(source, i, isAlnum))
  {
    var p := CharAt(source, i, isAlnum);
    EscapedKind(source, i, p);
    var t := TokenOf(source, i, p);
    if p.form.Other? {
      LonePast(same, m, source, i, p, t, isAlnum);
    } else if p.form.PlainLiteral? {
      PlainPast(same, m, source, i, p, t, isAlnum);
    } else {
      EscapedPast(same, m, source, i, p, t, isAlnum);
    }
  }

  lemma LonePast(same: nat -> bool, m: string, source: string, i: nat, p: Placed, t: Token, isAlnum: char -> bool)
    requires Setting(same, m, source, isAlnum) && Reached(source, i, isAlnum)
    requires Formed(source, i, p, isAlnum) && p.form.Other? && t.kind == Code && t.end == i + 1 == p.end
    ensures GoesOn(same, m, source, i, t)
  {
    EndIsSame(same, m, source, i, p, isAlnum);
  }

  lemma PlainShown(m: string, source: string, i: nat, p: Placed, isAlnum: char -> bool)
    requires Shows(m, source, isAlnum) && Reached(source, i, isAlnum)
    requires Formed(source, i, p, isAlnum) && p.form.PlainLiteral?
    ensures p.end == i + 3 && At(m, i + 1, ' ') && At(m, i + 2, '\'')
  {
    FormIsShown(m, source, i, p, isAlnum);
    assert !Inside(source, i, p, i + 2) && Inside(source, i, p, i + 1);
  }

  lemma PlainPast(same: nat -> bool, m: string, source: string, i: nat, p: Placed, t: Token, isAlnum: char -> bool)
    requires Setting(same, m, source, isAlnum) && Reached(source, i, isAlnum)
    requires Formed(source, i, p, isAlnum) && p.form.PlainLiteral? && t.kind != Code && t.end == p.end
    ensures GoesOn(same, m, source, i, t)
  {
    PlainShown(m, source, i, p, isAlnum);
    BlankRun(same, m, i + 1, i + 2, isAlnum);
    EndIsSame(same, m, source, i, p, isAlnum);
  }

  lemma EscapedPast(same: nat -> bool, m: string, source: string, i: nat, p: Placed, t: Token, isAlnum: char -> bool)
    requires Setting(same, m, source, isAlnum) && Reached(source, i, isAlnum)
    requires Formed(source, i, p, isAlnum) && p.form.EscapedLiteral? && t.kind != Code && t.end == p.end
    ensures GoesOn(same, m, source, i, t)
  {
    EscapedAgain(same, m, source, i, p, isAlnum);
    if p.end == |source| { EndTells(same, m, isAlnum); }
  }

  /** The second pass has taken the opening quote at `i` for a closing one. */
  lemma {:induction false} RemaskPast(same: nat -> bool, m: string, source: string, i: nat, isAlnum: char -> bool)
    requires Setting(same, m, source, isAlnum) && Reached(source, i, isAlnum) && At(source, i, '\'')
    ensures same(i + 1) <==> Past(source, NextToken(source, i, isAlnum), isAlnum)
    decreases |source| - i, 0
  {
    CharPast(same, m, source, i, isAlnum);
    ReachedNext(source, i, isAlnum);
    RemaskBehind(same, m, source, i, NextToken(source, i, isAlnum), isAlnum);
  }

  lemma {:induction false} RemaskBehind(same: nat -> bool, m: string, source: string, i: nat, t: Token,
                                        isAlnum: char -> bool)
    requires Setting(same, m, source, isAlnum) && Reached(source, t.end, isAlnum) && GoesOn(same, m, source, i, t)
    ensures same(i + 1) <==> Past(source, t, isAlnum)
    decreases |source| - t.end, 3
  {
    if t.kind == Code {
      RemaskOn(same, m, source, t.end, t.end, isAlnum);
    } else {
      RemaskOver(same, m, source, i + 1, t.end, isAlnum);
    }
  }

  /**
   Masking a masked text again changes nothing exactly when no escaped char literal is followed
   by what makes its closing quote look like an opening one.
   */
  lemma MaskingTwice(source: string, isAlnum: char -> bool)
    requires Sensible(isAlnum)
    ensures
      var masked := Masked(source, 0, isAlnum);
      Masked(masked, 0, isAlnum) == masked <==> Settled(source, 0, isAlnum)
  {
    var m := Masked(source, 0, isAlnum);
    MaskShows(source, isAlnum);
    var same := (i: nat) => i <= |m| && Masked(m, i, isAlnum) == m[i..];
    Remask(same, m, source, 0, isAlnum);
    assert m[0..] == m;
  }

  /** Without escaped char literals there is nothing to go wrong. */
  lemma {:induction false} NoEscapesSettle(source: string, i: nat, isAlnum: char -> bool)
    requires i <= |source| && forall k: nat :: i <= k ==> !Pair(source, k, '\'', '\\')
    ensures Settled(source, i, isAlnum)
    decreases |source| - i
  {
    if i < |source| {
      var p := SomeForm(source, i, isAlnum);
      FormIsToken(source, i, p, isAlnum);
      EscapedKind(source, i, p);
      NoEscapesSettle(source, NextToken(source, i, isAlnum).end, isAlnum);
    }
  }

  /** The second pass over `'\n'|'b'` takes `'|'` for a char literal. */
  lemma SecondPassDiffers(isAlnum: char -> bool)
    requires Sensible(isAlnum)
    ensures
      var masked := Masked("'\\n'|'b'", 0, isAlnum);
      Masked(masked, 0, isAlnum) != masked
  {
    var s := "'\\n'|'b'";
    QuoteFound(s, 3);
    assert At(s, 3, '\'') && Ends(s, Apostrophe, 3);
    assert NextToken(s, 0, isAlnum) == Token(EscapedChar, 1, 3, 4);
    assert NextToken(s, 4, isAlnum).kind == Code;
    assert BeforeQuote(s, 4, isAlnum) && s[4] == '|';
    assert !Quiet(s, 4, isAlnum);
    MaskingTwice(s, isAlnum);
  }
}
