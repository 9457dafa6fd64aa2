/**
 The code-span scanner of the REST reference generator against section 6.1 of
 CommonMark 0.31, read from left to right.
 */
module CodeSpans {
  import opened Common

  const TICK := '`'

  // ----- CommonMark's reading -----

  /** A run of exactly `n` backticks with none on either side. */
  predicate BacktickString(text: string, o: nat, n: nat) {
    && 0 < n && o + n <= |text| && (forall k :: o <= k < o + n ==> text[k] == TICK)
    && (o == 0 || text[o - 1] != TICK) && (o + n == |text| || text[o + n] != TICK)
  }

  /** Where the first backtick string of length `n` at or after `from` starts. */
  function Closer(text: string, from: nat, n: nat): (r: Option<nat>)
    ensures r.Some? ==>
              && from <= r.value && BacktickString(text, r.value, n)
              && forall o: nat :: from <= o < r.value ==> !BacktickString(text, o, n)
    ensures r.None? ==> forall o: nat :: from <= o ==> !BacktickString(text, o, n)
    decreases |text| - from
  {
    if from >= |text| then None else if BacktickString(text, from, n) then Some(from) else Closer(text, from + 1, n)
  }

  /** The end of the backticks that start at `i`. */
  function RunEnd(text: string, i: nat): (e: nat)
    requires i <= |text|
    ensures i <= e <= |text| && (forall k :: i <= k < e ==> text[k] == TICK) && (e < |text| ==> text[e] != TICK)
    decreases |text| - i
  {
    if i < |text| && text[i] == TICK then RunEnd(text, i + 1) else i
  }

  /** The ASCII punctuation a backslash can escape. */
  predicate IsPunctuation(c: char) {
    '!' <= c <= '/' || ':' <= c <= '@' || '[' <= c <= '`' || '{' <= c <= '~'
  }

  datatype Span = Span(start: nat, end: nat)

  datatype Token = Literal(end: nat) | Code(end: nat) {
    function Spans(start: nat): seq<Span> { if Code? then [Span(start, end)] else [] }
  }

  /** What a run of backticks is: the opening of a span that the next equal backtick string closes, or literal. */
  function RunToken(text: string, i: nat): (t: Token)
    requires i < |text| && text[i] == TICK
    ensures i < t.end <= |text| && text[t.end - 1] == TICK
  {
    var e := RunEnd(text, i);
    match Closer(text, e, e - i)
    case None => Literal(e)
    case Some(o) => Code(o + (e - i))
  }

  /** The token at a boundary: a backslash takes the punctuation behind it along. */
  function NextToken(text: string, i: nat): (t: Token)
    requires i < |text|
    ensures i < t.end <= |text|
  {
    if text[i] == '\\' && i + 1 < |text| && IsPunctuation(text[i + 1]) then Literal(i + 2)
    else if text[i] == TICK then RunToken(text, i)
    else Literal(i + 1)
  }

  /** The code spans of the text from token boundary `i` on. */
  function Spans(text: string, i: nat): (r: seq<Span>)
    requires i <= |text|
    decreases |text| - i
  {
    if i == |text| then [] else NextToken(text, i).Spans(i) + Spans(text, NextToken(text, i).end)
  }

  /** What a span is: an opening run, its first equal partner, and nothing in between that would close it. */
  ghost predicate IsCodeSpan(text: string, s: Span) {
    && s.start < s.end <= |text|
    && exists n: nat :: SpanOf(text, s, n)
  }

  ghost predicate SpanOf(text: string, s: Span, n: nat) {
    && 0 < n && s.start + 2 * n <= s.end <= |text|
    && RunEnd(text, s.start) == s.start + n
    && BacktickString(text, s.end - n, n)
    && forall o: nat :: s.start + n <= o < s.end - n ==> !BacktickString(text, o, n)
  }

  /** The spans follow one another from `i` to the end of a text of length `n`. */
  predicate Ordered(n: nat, i: nat, spans: seq<Span>)
    decreases |spans|
  {
    if spans == [] then i <= n
    else i <= spans[0].start < spans[0].end && Ordered(n, spans[0].end, spans[1..])
  }

  lemma {:induction false} OrderedEnds(n: nat, i: nat, spans: seq<Span>)
    requires Ordered(n, i, spans)
    ensures i <= n
    ensures spans != [] ==> spans[0].end <= n
    decreases |spans|
  {
    if spans != [] { OrderedEnds(n, spans[0].end, spans[1..]); }
  }

  lemma CodeTokenIsSpan(text: string, i: nat)
    requires i < |text| && NextToken(text, i).Code?
    ensures IsCodeSpan(text, Span(i, NextToken(text, i).end))
  {
    var n := RunEnd(text, i) - i;
    assert SpanOf(text, Span(i, NextToken(text, i).end), n);
  }

  ghost predicate AllCodeSpans(text: string, spans: seq<Span>) {
    forall k :: 0 <= k < |spans| ==> IsCodeSpan(text, spans[k])
  }

  lemma OrderedMore(n: nat, i: nat, t: Token, rest: seq<Span>)
    requires i < t.end && Ordered(n, t.end, rest)
    ensures Ordered(n, i, t.Spans(i) + rest)
  {
    if t.Code? {
      assert (t.Spans(i) + rest)[1..] == rest;
    } else {
      assert t.Spans(i) + rest == rest;
    }
  }

  /** The spans come in order without overlap, and each is one by CommonMark's definition. */
  lemma {:induction false} SpansPartition(text: string, i: nat)
    requires i <= |text|
    ensures Ordered(|text|, i, Spans(text, i)) && AllCodeSpans(text, Spans(text, i))
    decreases |text| - i
  {
    if i < |text| {
      var t := NextToken(text, i);
      SpansPartition(text, t.end);
      OrderedMore(|text|, i, t, Spans(text, t.end));
      if t.Code? { CodeTokenIsSpan(text, i); }
    }
  }

  /** The text with its plain parts transformed and its spans kept, from `i` on. */
  function Apply(text: string, i: nat, spans: seq<Span>, f: string -> string): string
    requires Ordered(|text|, i, spans)
    decreases |spans|
  {
    OrderedEnds(|text|, i, spans);
    if spans == [] then f(text[i..])
    else
      f(text[i..spans[0].start]) + text[spans[0].start..spans[0].end] + Apply(text, spans[0].end, spans[1..], f)
  }

  lemma {:induction false} IdentityKeeps(text: string, i: nat, spans: seq<Span>, f: string -> string)
    requires Ordered(|text|, i, spans) && forall s :: f(s) == s
    ensures i <= |text| && Apply(text, i, spans, f) == text[i..]
    decreases |spans|
  {
    OrderedEnds(|text|, i, spans);
    if spans != [] {
      var s := spans[0];
      IdentityKeeps(text, s.end, spans[1..], f);
      assert text[i..s.start] + text[s.start..s.end] + text[s.end..] == text[i..];
    }
  }

  lemma ApplySpan(text: string, i: nat, s: Span, rest: seq<Span>, f: string -> string)
    requires Ordered(|text|, i, [s] + rest)
    ensures Ordered(|text|, s.end, rest) && i <= s.start < s.end <= |text|
    ensures Apply(text, i, [s] + rest, f)
         == f(text[i..s.start]) + text[s.start..s.end] + Apply(text, s.end, rest, f)
  {
    OrderedEnds(|text|, i, [s] + rest);
    assert ([s] + rest)[1..] == rest;
  }

  // ----- The scanner -----

  predicate Escaped(text: string, i: nat)
    requires i <= |text|
  {
    BackslashRun(text, 0, i) % 2 == 1
  }

  method EscapedAt(text: string, index: nat) returns (r: bool)
    requires index <= |text|
    ensures r == Escaped(text, index)
  {
    var backslashes := 0;
    var cursor := index - 1;
    while cursor >= 0 && text[cursor] == '\\'
      invariant -1 <= cursor < index
      invariant BackslashRun(text, 0, index) == backslashes + BackslashRun(text, 0, cursor + 1)
    {
      backslashes := backslashes + 1;
      cursor := cursor - 1;
    }
    r := backslashes % 2 == 1;
  }

  method BacktickRunEnd(text: string, start: nat) returns (end: nat)
    requires start <= |text|
    ensures end == RunEnd(text, start)
  {
    end := start;
    while end < |text| && text[end] == TICK
      invariant start <= end <= |text| && RunEnd(text, start) == RunEnd(text, end)
    {
      end := end + 1;
    }
  }

  /** `closingRun`, from a place that is not inside a run: the end of the first equal backtick string, or -1. */
  method ClosingRun(text: string, from: nat, length: nat) returns (close: int)
    requires from <= |text| && (from < |text| ==> text[from] != TICK) && length > 0
    ensures Closer(text, from, length).None? ==> close == -1
    ensures Closer(text, from, length).Some? ==> close == Closer(text, from, length).value + length
  {
    var cursor := from;
    while cursor < |text|
      invariant from <= cursor <= |text| && (cursor < |text| ==> text[cursor] != TICK)
      invariant forall o: nat :: from <= o < cursor ==> !BacktickString(text, o, length)
      decreases |text| - cursor
    {
      var open := cursor;
      while open < |text| && text[open] != TICK
        invariant cursor <= open <= |text| && forall k :: cursor <= k < open ==> text[k] != TICK
        invariant forall o: nat :: from <= o < open ==> !BacktickString(text, o, length)
      {
        open := open + 1;
      }
      if open == |text| {
        return -1;
      }
      var end := BacktickRunEnd(text, open);
      if end - open == length {
        assert BacktickString(text, open, length);
        return end;
      }
      NotInRun(text, open, length);
      cursor := end;
    }
    close := -1;
  }

  /** A backtick string that starts inside a run is the run. */
  lemma NotInRun(text: string, open: nat, length: nat)
    requires open < |text| && text[open] == TICK && RunEnd(text, open) - open != length
    requires open > 0 ==> text[open - 1] != TICK
    ensures forall o: nat :: open <= o < RunEnd(text, open) ==> !BacktickString(text, o, length)
  {
    var e := RunEnd(text, open);
    forall o: nat | open <= o < e ensures !BacktickString(text, o, length) {
      if o > open {
        assert text[o - 1] == TICK;
      } else if o + length > e {
        assert e < |text| ==> text[e] != TICK;
      } else if length > 0 {
        assert text[o + length] == TICK || o + length == e;
      }
    }
  }

  /** One move of the scanner. */
  function Move(text: string, i: nat): (t: Token)
    requires i < |text|
    ensures i < t.end <= |text|
  {
    if text[i] != TICK || Escaped(text, i) then Literal(i + 1) else RunToken(text, i)
  }

  /** The spans found by moving one character at a time and looking back for backslashes. */
  function Found(text: string, i: nat): seq<Span>
    requires i <= |text|
    decreases |text| - i
  {
    if i == |text| then [] else Move(text, i).Spans(i) + Found(text, Move(text, i).end)
  }

  lemma EscapeParity(text: string, i: nat)
    requires i < |text| && !Escaped(text, i) && text[i] == '\\'
    ensures Escaped(text, i + 1) && (i + 1 < |text| ==> !Escaped(text, i + 2))
  {
  }

  lemma FoundPasses(text: string, i: nat)
    requires i < |text| && Move(text, i) == Literal(i + 1)
    ensures Found(text, i) == Found(text, i + 1)
  {
  }

  lemma SpansPass(text: string, i: nat, end: nat)
    requires i < |text| && NextToken(text, i) == Literal(end)
    ensures Spans(text, i) == Spans(text, end)
  {
  }

  /** The scanner takes a backslash and the character behind it without opening anything. */
  lemma FoundPastBackslash(text: string, i: nat)
    requires i + 1 < |text| && !Escaped(text, i) && text[i] == '\\'
    ensures Found(text, i) == Found(text, i + 2)
  {
    EscapeParity(text, i);
    FoundPasses(text, i);
    FoundPasses(text, i + 1);
  }

  /** So does the forward reading, in one token or two. */
  lemma SpansPastBackslash(text: string, i: nat)
    requires i + 1 < |text| && text[i] == '\\'
    ensures Spans(text, i) == Spans(text, i + 2)
  {
    SpansPass(text, i, NextToken(text, i).end);
    if !IsPunctuation(text[i + 1]) { SpansPass(text, i + 1, i + 2); }
  }

  /** Looking back finds the spans that reading forward does, from every boundary between tokens. */
  lemma {:induction false} FoundAreSpans(text: string, i: nat)
    requires i <= |text| && !Escaped(text, i)
    ensures Found(text, i) == Spans(text, i)
    decreases |text| - i
  {
    if i < |text| {
      if text[i] == '\\' && i + 1 < |text| {
        EscapeParity(text, i);
        FoundAreSpans(text, i + 2);
        FoundPastBackslash(text, i);
        SpansPastBackslash(text, i);
      } else if text[i] == '\\' {
        FoundPasses(text, i);
        SpansPass(text, i, i + 1);
      } else {
        FoundAreSpans(text, NextToken(text, i).end);
      }
    }
  }

  lemma {:induction false} FoundOrdered(text: string, i: nat)
    requires i <= |text|
    ensures Ordered(|text|, i, Found(text, i))
    decreases |text| - i
  {
    if i < |text| {
      FoundOrdered(text, Move(text, i).end);
      OrderedMore(|text|, i, Move(text, i), Found(text, Move(text, i).end));
    }
  }

  /** The output so far, and what the scan from `index` still adds to it. */
  ghost predicate Progress(text: string, out: string, textStart: nat, index: nat, f: string -> string)
    requires index <= |text|
  {
    && textStart <= index
    && Ordered(|text|, 0, Spans(text, 0)) && Ordered(|text|, textStart, Found(text, index))
    && Apply(text, 0, Spans(text, 0), f) == out + Apply(text, textStart, Found(text, index), f)
  }

  lemma ProgressStarts(text: string, f: string -> string)
    ensures Progress(text, "", 0, 0, f)
  {
    SpansPartition(text, 0);
    FoundAreSpans(text, 0);
  }

  lemma ProgressLiteral(text: string, out: string, textStart: nat, index: nat, f: string -> string)
    requires index < |text| && Progress(text, out, textStart, index, f) && Move(text, index).Literal?
    ensures Progress(text, out, textStart, Move(text, index).end, f)
  {
    assert Found(text, index) == Found(text, Move(text, index).end);
  }

  lemma ProgressCode(text: string, out: string, textStart: nat, index: nat, f: string -> string)
    requires index < |text| && Progress(text, out, textStart, index, f) && Move(text, index).Code?
    ensures
      var close := Move(text, index).end;
      Progress(text, out + (f(text[textStart..index]) + text[index..close]), close, close, f)
  {
    var close := Move(text, index).end;
    assert Found(text, index) == [Span(index, close)] + Found(text, close);
    ApplySpan(text, textStart, Span(index, close), Found(text, close), f);
  }

  /** The three ways the loop body of `outsideCode` can go on from `index`. */
  method ScanMove(text: string, index: nat) returns (t: Token)
    requires index < |text|
    ensures t == Move(text, index)
  {
    var escaped := EscapedAt(text, index);
    if text[index] != TICK || escaped {
      return Literal(index + 1);
    }
    var runEnd := BacktickRunEnd(text, index);
    var close := ClosingRun(text, runEnd, runEnd - index);
    t := if close == -1 then Literal(runEnd) else Code(close);
  }

  /** `outsideCode`: exactly the text outside CommonMark's code spans goes through `transform`. */
  method OutsideCode(text: string, transform: string -> string) returns (out: string)
    ensures Ordered(|text|, 0, Spans(text, 0)) && AllCodeSpans(text, Spans(text, 0))
    ensures out == Apply(text, 0, Spans(text, 0), transform)
  {
    ProgressStarts(text, transform);
    out := "";
    var textStart, index := 0, 0;
    while index < |text|
      invariant 0 <= textStart <= index <= |text|
      invariant Progress(text, out, textStart, index, transform)
      decreases |text| - index
    {
      var move := ScanMove(text, index);
      if move.Literal? {
        ProgressLiteral(text, out, textStart, index, transform);
        index := move.end;
      } else {
        ProgressCode(text, out, textStart, index, transform);
        out := out + (transform(text[textStart..index]) + text[index..move.end]);
        index := move.end;
        textStart := move.end;
      }
    }
    out := out + transform(text[textStart..]);
    SpansPartition(text, 0);
  }

  /** An identity transform changes nothing. */
  lemma IdentityIsIdentity(text: string, f: string -> string)
    requires forall s :: f(s) == s
    ensures Ordered(|text|, 0, Spans(text, 0)) && Apply(text, 0, Spans(text, 0), f) == text
  {
    SpansPartition(text, 0);
    IdentityKeeps(text, 0, Spans(text, 0), f);
    assert text[0..] == text;
  }

  // ----- Writing a span -----

  /** The longest run of backticks from `i` on. */
  function Longest(text: string, i: nat): (n: nat)
    requires i <= |text|
    decreases |text| - i
  {
    if i == |text| then 0
    else if text[i] == TICK then
      var e := RunEnd(text, i);
      var rest := Longest(text, e);
      if e - i > rest then e - i else rest
    else Longest(text, i + 1)
  }

  lemma {:induction false} LongestIsLongest(text: string, i: nat, o: nat, n: nat)
    requires i <= o && BacktickString(text, o, n)
    requires i == 0 || text[i - 1] != TICK || text[i] != TICK
    ensures n <= Longest(text, i)
    decreases |text| - i
  {
    if i < o {
      if text[i] == TICK {
        var e := RunEnd(text, i);
        assert text[o - 1] != TICK;
        LongestIsLongest(text, e, o, n);
      } else {
        LongestIsLongest(text, i + 1, o, n);
      }
    } else {
      var e := RunEnd(text, i);
      if e < |text| { assert text[e] != TICK; }
      if o + n < |text| { assert text[o + n] != TICK; }
    }
  }

  function Ticks(n: nat): (r: string)
    ensures |r| == n && forall k :: 0 <= k < n ==> r[k] == TICK
  {
    seq(n, i => TICK)
  }

  predicate NeedsPad(text: string) {
    text != "" && (text[0] == TICK || text[|text| - 1] == TICK)
  }

  /** What stands between the fences. */
  function Padded(text: string): string {
    if NeedsPad(text) then " " + text + " " else text
  }

  /** `code`: the fenced text. */
  function CodeText(text: string): string {
    var fence := Ticks(Longest(text, 0) + 1);
    fence + Padded(text) + fence
  }

  /** Padding hides no run and adds none. */
  lemma PaddedRuns(text: string, o: nat, n: nat)
    requires BacktickString(Padded(text), o, n)
    ensures n <= Longest(text, 0)
  {
    if NeedsPad(text) {
      var p := " " + text + " ";
      assert forall k :: 0 <= k < |text| ==> p[k + 1] == text[k];
      assert p[0] != TICK && p[|p| - 1] != TICK;
      assert BacktickString(text, o - 1, n) by {
        assert forall k :: o - 1 <= k < o - 1 + n ==> text[k] == p[k + 1];
        if o - 1 > 0 { assert text[o - 2] == p[o - 1]; }
        if o - 1 + n < |text| { assert text[o - 1 + n] == p[o + n]; }
      }
      LongestIsLongest(text, 0, o - 1, n);
    } else {
      LongestIsLongest(text, 0, o, n);
    }
  }

  /** Between the fences of a written span nothing closes it early. */
  lemma NoEarlyCloser(mid: string, n: nat, o: nat)
    requires mid != "" && mid[0] != TICK && mid[|mid| - 1] != TICK
    requires n > 0 && forall k: nat :: !BacktickString(mid, k, n)
    requires n <= o < n + |mid|
    ensures !BacktickString(Ticks(n) + mid + Ticks(n), o, n)
  {
    var whole := Ticks(n) + mid + Ticks(n);
    assert forall k :: 0 <= k < |mid| ==> whole[n + k] == mid[k];
    if BacktickString(whole, o, n) {
      FencedRun(mid, n, o);
      assert false;
    }
  }

  /** A run of the fence's length that starts between the fences is one of the inner text. */
  lemma FencedRun(mid: string, n: nat, o: nat)
    requires mid != "" && mid[0] != TICK && mid[|mid| - 1] != TICK && n <= o < n + |mid|
    requires BacktickString(Ticks(n) + mid + Ticks(n), o, n)
    ensures BacktickString(mid, o - n, n)
  {
    var whole := Ticks(n) + mid + Ticks(n);
    var end := n + |mid|;
    assert forall k :: 0 <= k < |mid| ==> whole[n + k] == mid[k];
    assert whole[end - 1] != TICK;
    assert forall k :: o - n <= k < o ==> mid[k] == whole[n + k];
    if o - n > 0 { assert mid[o - n - 1] == whole[o - 1]; }
    assert mid[o - n + n] == whole[o + n];
  }

  lemma PaddedEnds(text: string)
    requires text != ""
    ensures Padded(text) != "" && Padded(text)[0] != TICK && Padded(text)[|Padded(text)| - 1] != TICK
  {
  }

  lemma FencedIsOneSpan(mid: string, n: nat)
    requires mid != "" && mid[0] != TICK && mid[|mid| - 1] != TICK
    requires n > 0 && forall k: nat :: !BacktickString(mid, k, n)
    ensures
      var whole := Ticks(n) + mid + Ticks(n);
      Spans(whole, 0) == [Span(0, |whole|)]
  {
    var whole := Ticks(n) + mid + Ticks(n);
    var end := n + |mid|;
    assert whole[0] == TICK && whole[n] == mid[0];
    assert forall k :: 0 <= k < n ==> whole[k] == TICK;
    assert RunEnd(whole, 0) == n;
    assert whole[end - 1] == mid[|mid| - 1];
    assert BacktickString(whole, end, n);
    forall o: nat | n <= o < end ensures !BacktickString(whole, o, n) {
      NoEarlyCloser(mid, n, o);
    }
    assert Closer(whole, n, n) == Some(end);
    assert NextToken(whole, 0) == Code(|whole|) && Spans(whole, |whole|) == [];
  }

  /** A written span is read as exactly one span, unless there is nothing in it. */
  lemma CodeIsOneSpan(text: string)
    ensures Spans(CodeText(text), 0) == [Span(0, |CodeText(text)|)] <==> text != ""
  {
    if text == "" {
      EmptyCodeIsText();
    } else {
      var n := Longest(text, 0) + 1;
      PaddedEnds(text);
      forall k: nat ensures !BacktickString(Padded(text), k, n) {
        if BacktickString(Padded(text), k, n) {
          PaddedRuns(text, k, n);
          assert false;
        }
      }
      FencedIsOneSpan(Padded(text), n);
    }
  }

  /** The fences of an empty span run together and close nothing. */
  lemma EmptyCodeIsText()
    ensures CodeText("") == "``" && Spans(CodeText(""), 0) == []
  {
    var t := CodeText("");
    assert t == "``";
    assert RunEnd(t, 2) == 2 && RunEnd(t, 1) == 2 && RunEnd(t, 0) == 2;
    assert Closer(t, 2, 2) == None;
    assert Spans(t, 2) == [];
  }

  // ----- Reading a span's text -----

  /** Line endings become spaces: `\r\n` one, `\n` and `\r` alone one each. */
  function LinesToSpaces(text: string): string {
    if text == "" then ""
    else if text[0] == '\r' && |text| > 1 && text[1] == '\n' then " " + LinesToSpaces(text[2..])
    else (if text[0] == '\r' || text[0] == '\n' then " " else [text[0]]) + LinesToSpaces(text[1..])
  }

  predicate AllSpaces(text: string) { forall i :: 0 <= i < |text| ==> text[i] == ' ' }

  /** A text that would lose a space at each end. */
  predicate LosesSpaces(text: string) {
    text != "" && text[0] == ' ' && text[|text| - 1] == ' ' && !AllSpaces(text)
  }

  /** The text between the fences of a span, normalised as section 6.1 of CommonMark 0.31 says. */
  function SpanText(inner: string): string {
    var flat := LinesToSpaces(inner);
    if LosesSpaces(flat) then flat[1..|flat| - 1] else flat
  }

  predicate HasLineEnd(text: string) { '\n' in text || '\r' in text }

  lemma {:induction false} FlatHasNoLineEnd(text: string)
    ensures !HasLineEnd(LinesToSpaces(text))
  {
    if text != "" {
      FlatHasNoLineEnd(text[1..]);
      if |text| > 1 { FlatHasNoLineEnd(text[2..]); }
    }
  }

  lemma {:induction false} OneLineIsFlat(text: string)
    requires !HasLineEnd(text)
    ensures LinesToSpaces(text) == text
  {
    if text != "" {
      OneLineIsFlat(text[1..]);
      assert [text[0]] + text[1..] == text;
    }
  }

  /** What a written span reads as is the text itself, apart from line ends and a space it would lose. */
  lemma WrittenTextComesBack(text: string)
    requires text != ""
    ensures SpanText(Padded(text)) == text <==> !HasLineEnd(text) && !LosesSpaces(text)
  {
    if HasLineEnd(text) {
      FlatHasNoLineEnd(Padded(text));
    } else {
      assert !HasLineEnd(Padded(text));
      OneLineIsFlat(Padded(text));
      if NeedsPad(text) {
        var p := " " + text + " ";
        assert p[1] == text[0] && p[|text|] == text[|text| - 1];
        assert p[1..|p| - 1] == text;
      }
    }
  }

  /** The text read out of the one span of a written text. */
  lemma CodeReadsBack(text: string)
    requires text != ""
    ensures
      var n := Longest(text, 0) + 1;
      var whole := CodeText(text);
      && Spans(whole, 0) == [Span(0, |whole|)] && RunEnd(whole, 0) == n && |whole| >= 2 * n
      && (SpanText(whole[n..|whole| - n]) == text <==> !HasLineEnd(text) && !LosesSpaces(text))
  {
    var n := Longest(text, 0) + 1;
    var whole := CodeText(text);
    CodeIsOneSpan(text);
    PaddedEnds(text);
    assert whole[n..|whole| - n] == Padded(text);
    assert whole[n] == Padded(text)[0];
    assert forall k :: 0 <= k < n ==> whole[k] == TICK;
    WrittenTextComesBack(text);
  }

  /** A text that loses its outer spaces. */
  lemma SpacesCanBeLost()
    ensures SpanText(Padded(" a ")) == "a"
  {
    assert !HasLineEnd(" a ");
    OneLineIsFlat(" a ");
  }
}
