/** Which code spans a text has, said without scanning it: every one is found, and nothing else. */
module SpanTheorems {
  import opened Common
  import opened CodeSpans

  /** The first backtick that no odd run of backslashes escapes, of as many as follow one another. */
  predicate Opening(text: string, o: nat) {
    && o < |text| && text[o] == TICK && !Escaped(text, o)
    && (o == 0 || text[o - 1] != TICK || Escaped(text, o - 1))
  }

  /** Somewhere behind the backticks that start here is a backtick string of their length. */
  ghost predicate Partnered(text: string, o: nat)
    requires o <= |text|
  {
    var n := RunEnd(text, o) - o;
    exists p: nat :: o + n <= p && BacktickString(text, p, n)
  }

  predicate Outside(spans: seq<Span>, o: nat) {
    forall k :: 0 <= k < |spans| ==> !(spans[k].start < o < spans[k].end)
  }

  predicate StartsOne(spans: seq<Span>, o: nat) {
    exists k :: 0 <= k < |spans| && spans[k].start == o
  }

  ghost predicate Sound(text: string, spans: seq<Span>) {
    forall k :: 0 <= k < |spans| ==> Opening(text, spans[k].start) && IsCodeSpan(text, spans[k])
  }

  /** Backticks outside the spans that have a partner open one. */
  ghost predicate Complete(text: string, i: nat, spans: seq<Span>) {
    forall o: nat :: i <= o && Opening(text, o) && Partnered(text, o) && Outside(spans, o) ==> StartsOne(spans, o)
  }

  /** The spans of the text from `i` on, by their definition. */
  ghost predicate IsReading(text: string, i: nat, spans: seq<Span>) {
    Ordered(|text|, i, spans) && Sound(text, spans) && Complete(text, i, spans)
  }

  // ----- The forward reading, one hop at a time -----

  /** Not behind an open escape, and not inside a run of backticks. */
  predicate Boundary(text: string, i: nat) {
    i <= |text| && (i < |text| ==> !Escaped(text, i) && (text[i] == TICK ==> Opening(text, i)))
  }

  /** The next boundary: a backslash takes whatever follows it along. */
  function Hop(text: string, i: nat): (e: nat)
    requires i < |text|
    ensures i < e <= |text|
  {
    if text[i] == '\\' && i + 1 < |text| then i + 2 else NextToken(text, i).end
  }

  predicate OpensCode(text: string, i: nat)
    requires i < |text|
  {
    NextToken(text, i).Code?
  }

  lemma HopToBoundary(text: string, i: nat)
    requires i < |text| && Boundary(text, i)
    ensures Boundary(text, Hop(text, i))
  {
    if text[i] == '\\' {
      EscapeParity(text, i);
    } else if text[i] == TICK && OpensCode(text, i) {
      var n := RunEnd(text, i) - i;
      assert BacktickString(text, Hop(text, i) - n, n);
    }
  }

  /** Nothing opens between two boundaries. */
  lemma NoneBetween(text: string, i: nat, o: nat)
    requires i < |text| && Boundary(text, i) && i < o < Hop(text, i) && !OpensCode(text, i)
    ensures !Opening(text, o)
  {
    if text[i] == '\\' {
      EscapeParity(text, i);
    } else if text[i] == TICK {
      assert text[o - 1] == TICK;
      if o - 1 > i { assert text[o - 2] == TICK; }
    }
  }

  lemma HopPlain(text: string, i: nat)
    requires i < |text| && Boundary(text, i) && !OpensCode(text, i)
    ensures Spans(text, i) == Spans(text, Hop(text, i))
    ensures Opening(text, i) ==> !Partnered(text, i)
  {
    if text[i] == '\\' && i + 1 < |text| {
      SpansPastBackslash(text, i);
    } else {
      SpansPass(text, i, NextToken(text, i).end);
    }
  }

  lemma HopCode(text: string, i: nat)
    requires i < |text| && Boundary(text, i) && OpensCode(text, i)
    ensures Opening(text, i) && Partnered(text, i) && IsCodeSpan(text, Span(i, Hop(text, i)))
    ensures Spans(text, i) == [Span(i, Hop(text, i))] + Spans(text, Hop(text, i))
  {
    CodeTokenIsSpan(text, i);
    var n := RunEnd(text, i) - i;
    assert BacktickString(text, Hop(text, i) - n, n);
  }

  // ----- The forward reading is a reading -----

  lemma {:induction false} SpansAreReading(text: string, i: nat)
    requires Boundary(text, i)
    ensures IsReading(text, i, Spans(text, i))
    decreases |text| - i
  {
    if i < |text| {
      var e := Hop(text, i);
      HopToBoundary(text, i);
      SpansAreReading(text, e);
      if OpensCode(text, i) {
        HopCode(text, i);
        OneMoreSpan(text, i, e, Spans(text, e));
      } else {
        HopPlain(text, i);
        SkippedHop(text, i, Spans(text, e));
      }
    }
  }

  lemma OneMoreSpan(text: string, i: nat, e: nat, rest: seq<Span>)
    requires i < e && IsReading(text, e, rest) && Opening(text, i) && IsCodeSpan(text, Span(i, e))
    ensures IsReading(text, i, [Span(i, e)] + rest)
  {
    var spans := [Span(i, e)] + rest;
    assert spans[1..] == rest;
    forall o: nat | i < o && Opening(text, o) && Partnered(text, o) && Outside(spans, o) ensures StartsOne(spans, o) {
      OutsideRest(Span(i, e), rest, o);
    }
    assert spans[0].start == i;
  }

  lemma OutsideRest(s: Span, rest: seq<Span>, o: nat)
    requires Outside([s] + rest, o)
    ensures Outside(rest, o) && !(s.start < o < s.end)
    ensures StartsOne(rest, o) ==> StartsOne([s] + rest, o)
  {
    var spans := [s] + rest;
    assert spans[0] == s && forall k :: 0 <= k < |rest| ==> rest[k] == spans[k + 1];
    if StartsOne(rest, o) {
      var k :| 0 <= k < |rest| && rest[k].start == o;
      assert spans[k + 1].start == o;
    }
  }

  lemma SkippedHop(text: string, i: nat, rest: seq<Span>)
    requires i < |text| && Boundary(text, i) && !OpensCode(text, i) && IsReading(text, Hop(text, i), rest)
    ensures IsReading(text, i, rest)
  {
    HopPlain(text, i);
    forall o: nat | i < o < Hop(text, i) ensures !Opening(text, o) { NoneBetween(text, i, o); }
  }

  // ----- And the only one -----

  lemma {:induction false} StartsAscend(n: nat, i: nat, spans: seq<Span>, k: nat)
    requires Ordered(n, i, spans) && k < |spans|
    ensures i <= spans[k].start < spans[k].end && (k > 0 ==> spans[0].end <= spans[k].start)
    decreases k
  {
    if k > 0 { StartsAscend(n, spans[0].end, spans[1..], k - 1); }
  }

  /** A span is fixed by where it starts. */
  lemma SameSpan(text: string, s: Span, t: Span)
    requires IsCodeSpan(text, s) && IsCodeSpan(text, t) && s.start == t.start
    ensures s == t
  {
    var m: nat :| SpanOf(text, s, m);
    var n: nat :| SpanOf(text, t, n);
    NoLater(text, s, t, n);
    NoLater(text, t, s, n);
  }

  lemma NoLater(text: string, s: Span, t: Span, n: nat)
    requires SpanOf(text, s, n) && SpanOf(text, t, n) && s.start == t.start
    ensures t.end <= s.end
  {
  }

  lemma {:induction false} ReadingIsSpans(text: string, i: nat, spans: seq<Span>)
    requires Boundary(text, i) && IsReading(text, i, spans)
    ensures spans == Spans(text, i)
    decreases |text| - i
  {
    OrderedEnds(|text|, i, spans);
    if i < |text| {
      var e := Hop(text, i);
      HopToBoundary(text, i);
      if OpensCode(text, i) {
        HopCode(text, i);
        FirstIs(text, i, e, spans);
        ReadingIsSpans(text, e, spans[1..]);
      } else {
        HopPlain(text, i);
        LaterReading(text, i, spans);
        ReadingIsSpans(text, e, spans);
      }
    }
  }

  lemma FirstIs(text: string, i: nat, e: nat, spans: seq<Span>)
    requires i < e && IsReading(text, i, spans)
    requires Opening(text, i) && Partnered(text, i) && IsCodeSpan(text, Span(i, e))
    ensures spans != [] && spans == [Span(i, e)] + spans[1..] && IsReading(text, e, spans[1..])
  {
    StartsHere(text, i, spans);
    SameSpan(text, spans[0], Span(i, e));
    RestIsReading(text, i, e, spans);
  }

  lemma StartsHere(text: string, i: nat, spans: seq<Span>)
    requires Ordered(|text|, i, spans) && Complete(text, i, spans) && Opening(text, i) && Partnered(text, i)
    ensures spans != [] && spans[0].start == i
  {
    forall k | 0 <= k < |spans| ensures i <= spans[k].start { StartsAscend(|text|, i, spans, k); }
    assert Outside(spans, i);
    var k :| 0 <= k < |spans| && spans[k].start == i;
    StartsAscend(|text|, i, spans, k);
  }

  lemma RestIsReading(text: string, i: nat, e: nat, spans: seq<Span>)
    requires IsReading(text, i, spans) && spans != [] && spans[0] == Span(i, e) && i < e
    ensures IsReading(text, e, spans[1..])
  {
    var rest := spans[1..];
    forall o: nat | e <= o && Opening(text, o) && Partnered(text, o) && Outside(rest, o) ensures StartsOne(rest, o) {
      assert forall k :: 1 <= k < |spans| ==> spans[k] == rest[k - 1];
      assert Outside(spans, o);
      var k :| 0 <= k < |spans| && spans[k].start == o;
      assert rest[k - 1].start == o;
    }
  }

  lemma LaterReading(text: string, i: nat, spans: seq<Span>)
    requires i < |text| && Boundary(text, i) && !OpensCode(text, i) && IsReading(text, i, spans)
    ensures IsReading(text, Hop(text, i), spans)
  {
    var e := Hop(text, i);
    OrderedEnds(|text|, i, spans);
    if spans != [] {
      HopPlain(text, i);
      SpanIsPartnered(text, spans[0]);
      if i < spans[0].start < e { NoneBetween(text, i, spans[0].start); }
    }
  }

  lemma SpanIsPartnered(text: string, s: Span)
    requires IsCodeSpan(text, s)
    ensures Partnered(text, s.start)
  {
    var n: nat :| SpanOf(text, s, n);
    assert BacktickString(text, s.end - n, n);
  }

  /**
   The spans of a text are exactly the list in which nothing overlaps, every span starts at
   unescaped backticks and ends with their first partner, and all such backticks outside
   the spans that have a partner start one.
   */
  lemma OnlyReading(text: string, spans: seq<Span>)
    ensures IsReading(text, 0, spans) <==> spans == Spans(text, 0)
  {
    SpansAreReading(text, 0);
    if IsReading(text, 0, spans) { ReadingIsSpans(text, 0, spans); }
  }

  /** Backticks that stand outside all spans are one's opening exactly when they have a partner. */
  lemma EveryPartnerIsFound(text: string, o: nat)
    requires Opening(text, o) && Outside(Spans(text, 0), o)
    ensures StartsOne(Spans(text, 0), o) <==> Partnered(text, o)
  {
    var spans := Spans(text, 0);
    SpansAreReading(text, 0);
    if StartsOne(spans, o) {
      var k :| 0 <= k < |spans| && spans[k].start == o;
      SpanIsPartnered(text, spans[k]);
    }
  }

  // ----- The text that is transformed -----

  /** The output ends with the transformed text behind the last span; without spans that is all of it. */
  lemma {:induction false} BehindTheLast(text: string, i: nat, spans: seq<Span>, f: string -> string)
    requires Ordered(|text|, i, spans)
    ensures
      var last := if spans == [] then i else spans[|spans| - 1].end;
      && last <= |text|
      && var out, tail := Apply(text, i, spans, f), f(text[last..]);
      && |tail| <= |out| && out[|out| - |tail|..] == tail
      && (spans == [] ==> out == tail)
    decreases |spans|
  {
    OrderedEnds(|text|, i, spans);
    if spans != [] { BehindTheLast(text, spans[0].end, spans[1..], f); }
  }

  // ----- The longest run -----

  /** The longest run of backticks is one of the text's own, unless there is none. */
  lemma {:induction false} LongestIsThere(text: string, i: nat)
    requires i <= |text| && (i == 0 || text[i - 1] != TICK || i == |text| || text[i] != TICK)
    ensures Longest(text, i) > 0 ==> exists o: nat :: i <= o && BacktickString(text, o, Longest(text, i))
    decreases |text| - i
  {
    if i < |text| {
      if text[i] == TICK {
        var e := RunEnd(text, i);
        LongestIsThere(text, e);
        if Longest(text, i) == e - i { assert BacktickString(text, i, Longest(text, i)); }
      } else {
        LongestIsThere(text, i + 1);
      }
    }
  }

  // ----- Escapes -----

  /** What stands behind an odd number of backslashes is escaped, behind an even number not. */
  lemma EscapedMeans(text: string, i: nat, n: nat)
    requires EndsRun(text, 0, i, n)
    ensures Escaped(text, i) <==> n % 2 == 1
  {
    RunIsOnly(text, 0, i, n);
  }
}
