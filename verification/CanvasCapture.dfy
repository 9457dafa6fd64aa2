/**
 Capturing the composed canvas from a watch channel while the render thread
 publishes, parks, resumes and may stop. What the render thread does at each turn is
 a parameter; every state the capture passed through is on record. A run is finite:
 `remaining` bounds the publications still to come, and nothing else about it is fixed.
 */
module CanvasCapture {
  import opened Common

  datatype Frame = Frame(number: nat, width: nat, height: nat)

  const MAX_FRAMES: nat := 8
  const MAX_INTERVAL: nat := 2000
  const MAX_DIMENSION: nat := 4096
  const FRESH_TIMEOUT: nat := 1500

  datatype Request = Request(frames: nat, interval: nat, width: nat, height: nat)

  predicate ValidRequest(r: Request) {
    1 <= r.frames <= MAX_FRAMES && r.interval <= MAX_INTERVAL && r.width <= MAX_DIMENSION && r.height <= MAX_DIMENSION
  }

  /**
   The channel: every frame published so far, the latest last (the channel starts
   with a placeholder), and the frame number last marked as a resume.
   */
  datatype Runtime = Runtime(time: nat, history: seq<Frame>, closed: bool, resume: Option<nat>, remaining: nat)

  /** The latest publication's number. */
  function Version(w: Runtime): nat
    requires w.history != []
  {
    |w.history| - 1
  }

  function Latest(w: Runtime): Frame
    requires w.history != []
  {
    w.history[|w.history| - 1]
  }

  predicate IsEmpty(f: Frame) { f.width == 0 || f.height == 0 }

  /** An empty frame is one without pixels. */
  lemma EmptyHasNoPixels(f: Frame)
    ensures IsEmpty(f) <==> f.width * f.height == 0
  {
    if f.width > 0 && f.height > 0 { assert f.width * f.height >= f.height; }
  }

  // ----- Runs -----

  /** What the render thread may do while the capture is not looking. */
  predicate Evolves(w: Runtime, w': Runtime) {
    && w.time <= w'.time
    && w.history <= w'.history
    && |w'.history| + w'.remaining == |w.history| + w.remaining
    && (w.closed ==> w'.closed && w.history == w'.history)
  }

  /** The render thread's doing before the capture's `n`-th look. */
  type Render = (nat, Runtime) -> Runtime

  ghost predicate Lawful(render: Render) {
    forall n: nat, w: Runtime :: w.history != [] ==> Evolves(w, render(n, w))
  }

  /** Time passes and nothing is published. */
  predicate Passes(w: Runtime, w': Runtime) { w.time <= w'.time && w' == w.(time := w'.time) }

  ghost predicate StepAt(render: Render, trace: seq<Runtime>, i: nat)
    requires 1 <= i < |trace|
  {
    trace[i - 1].history != [] && (trace[i] == render(i, trace[i - 1]) || Passes(trace[i - 1], trace[i]))
  }

  /** Every state the capture passed through, each the render thread's doing or time passing. */
  ghost predicate IsTrace(render: Render, trace: seq<Runtime>) {
    && trace != [] && trace[0].history != []
    && forall i: nat :: 1 <= i < |trace| ==> StepAt(render, trace, i)
  }

  lemma {:induction false} TraceEvolves(render: Render, trace: seq<Runtime>, i: nat, j: nat)
    requires Lawful(render) && IsTrace(render, trace) && i <= j < |trace|
    ensures trace[i].history != [] && trace[j].history != [] && Evolves(trace[i], trace[j])
    decreases j
  {
    if i < j {
      TraceEvolves(render, trace, i, j - 1);
      assert StepAt(render, trace, j);
    } else if i > 0 {
      TraceEvolves(render, trace, i - 1, i - 1);
      assert StepAt(render, trace, i);
    }
  }

  lemma TraceGoesOn(render: Render, trace: seq<Runtime>, next: Runtime)
    requires IsTrace(render, trace) && trace[|trace| - 1].history != []
    requires next == render(|trace|, trace[|trace| - 1]) || Passes(trace[|trace| - 1], next)
    ensures IsTrace(render, trace + [next])
  {
    forall i: nat | 1 <= i < |trace| + 1 ensures StepAt(render, trace + [next], i) {
      if i < |trace| { assert StepAt(render, trace, i); }
    }
  }

  // ----- What a captured frame stands for -----

  /** How a wait for the next publication ended. */
  datatype Wait = Changed | Elapsed | Closed

  datatype Captured = Captured(frame: Frame, isFresh: bool)

  /**
   The record of one `next_frame`: the steps at which it began, at which its last wait
   ended and how, at which it borrowed the frame, and at which it asked for the resume mark.
   */
  datatype Look = Look(start: nat, woke: nat, ended: Wait, borrowed: nat, judged: nat)

  /** Between two steps a newer publication than `seen` was borrowed and found to be the resume frame. */
  ghost predicate PassedOver(trace: seq<Runtime>, from: nat, until: nat, seen: nat) {
    exists b: nat, m: nat :: from < b < m < until && ResumeAt(trace, b, m, seen)
  }

  predicate ResumeAt(trace: seq<Runtime>, b: nat, m: nat, seen: nat) {
    && b < |trace| && m < |trace| && trace[b].history != []
    && seen < Version(trace[b]) && trace[m].resume == Some(Latest(trace[b]).number)
  }

  /**
   The frame was the latest when it was borrowed. It is fresh only if it is newer than what
   was seen before. A wait that ended with a change means that the frame was not the resume
   frame when that was asked, after the borrow; any other end means that the timeout had
   passed or the channel was closed. Then a stale frame means that nothing new had been
   published, and a fresh one that a new frame was passed over as the resume frame.
   */
  ghost predicate Explained(trace: seq<Runtime>, seen: nat, c: Captured, l: Look) {
    && l.start < l.woke < l.borrowed < |trace| && trace[l.woke].history != [] && trace[l.borrowed].history != []
    && c.frame == Latest(trace[l.borrowed]) && seen <= Version(trace[l.borrowed])
    && (c.isFresh ==> seen < Version(trace[l.borrowed]))
    && match l.ended
       case Changed =>
         c.isFresh && l.borrowed < l.judged < |trace| && trace[l.judged].resume != Some(c.frame.number)
       case Elapsed => trace[l.start].time + FRESH_TIMEOUT <= trace[l.woke].time && Unchanged(trace, seen, c, l)
       case Closed => trace[l.woke].closed && Unchanged(trace, seen, c, l)
  }

  ghost predicate Unchanged(trace: seq<Runtime>, seen: nat, c: Captured, l: Look)
    requires l.woke < |trace| && trace[l.woke].history != []
  {
    if c.isFresh then PassedOver(trace, l.start, l.woke, seen) else Version(trace[l.woke]) == seen
  }

  /** The step whose publication was the last one seen before the `i`-th capture of a burst marked at `at`. */
  function Before(at: nat, looks: seq<Look>, i: nat): nat
    requires i <= |looks|
  {
    if i == 0 then at else looks[i - 1].borrowed
  }

  /** The `i`-th frame was taken after the one before it, an interval later, and is explained. */
  ghost predicate TakenAt(trace: seq<Runtime>, at: nat, interval: nat,
                          burst: seq<Captured>, looks: seq<Look>, i: nat)
    requires i < |burst| == |looks|
  {
    var before := Before(at, looks, i);
    && before <= looks[i].start < |trace| && trace[before].history != []
    && (i > 0 ==> trace[before].time + interval <= trace[looks[i].start].time)
    && Explained(trace, Version(trace[before]), burst[i], looks[i])
  }

  /** The `i`-th capture is such a frame, and not an empty one. */
  ghost predicate ExplainedAt(trace: seq<Runtime>, at: nat, interval: nat,
                              burst: seq<Captured>, looks: seq<Look>, i: nat)
    requires i < |burst| == |looks|
  {
    TakenAt(trace, at, interval, burst, looks, i) && !IsEmpty(burst[i].frame)
  }

  /** A burst marked at step `at`: every capture is explained, and only the last may be stale. */
  ghost predicate GoodBurst(trace: seq<Runtime>, at: nat, interval: nat, burst: seq<Captured>, looks: seq<Look>) {
    && |burst| == |looks| && at < |trace| && trace[at].history != []
    && (forall i: nat :: i < |burst| ==> ExplainedAt(trace, at, interval, burst, looks, i))
    && forall i :: 0 <= i < |burst| - 1 ==> burst[i].isFresh
  }

  lemma ExplainedStays(t: seq<Runtime>, t': seq<Runtime>, seen: nat, c: Captured, l: Look)
    requires t <= t' && Explained(t, seen, c, l)
    ensures Explained(t', seen, c, l)
  {
    assert forall i :: 0 <= i < |t| ==> t'[i] == t[i];
    if !l.ended.Changed? && c.isFresh {
      var b: nat, m: nat :| l.start < b < m < l.woke && ResumeAt(t, b, m, seen);
      assert ResumeAt(t', b, m, seen);
    }
  }

  lemma BurstStays(t: seq<Runtime>, t': seq<Runtime>, at: nat, interval: nat, burst: seq<Captured>, looks: seq<Look>)
    requires t <= t' && GoodBurst(t, at, interval, burst, looks)
    ensures GoodBurst(t', at, interval, burst, looks)
  {
    assert forall i :: 0 <= i < |t| ==> t'[i] == t[i];
    forall i: nat | i < |burst| ensures ExplainedAt(t', at, interval, burst, looks, i) {
      assert ExplainedAt(t, at, interval, burst, looks, i);
      ExplainedStays(t, t', Version(t[Before(at, looks, i)]), burst[i], looks[i]);
    }
  }

  lemma BurstExtends(trace: seq<Runtime>, at: nat, interval: nat, burst: seq<Captured>, looks: seq<Look>,
                     next: Captured, look: Look)
    requires GoodBurst(trace, at, interval, burst, looks) && forall i :: 0 <= i < |burst| ==> burst[i].isFresh
    requires ExplainedAt(trace, at, interval, burst + [next], looks + [look], |burst|)
    ensures GoodBurst(trace, at, interval, burst + [next], looks + [look])
  {
    forall i: nat | i < |burst| + 1 ensures ExplainedAt(trace, at, interval, burst + [next], looks + [look], i) {
      if i < |burst| { assert ExplainedAt(trace, at, interval, burst, looks, i); }
    }
  }

  /** The publication that was the latest at a step. */
  function Publication(trace: seq<Runtime>, step: nat): int {
    if step < |trace| then |trace[step].history| - 1 else -1
  }

  lemma BurstMoves(trace: seq<Runtime>, at: nat, interval: nat, burst: seq<Captured>, looks: seq<Look>, j: nat)
    requires GoodBurst(trace, at, interval, burst, looks) && j < |burst|
    ensures Publication(trace, Before(at, looks, j)) <= Publication(trace, looks[j].borrowed)
    ensures burst[j].isFresh ==> Publication(trace, Before(at, looks, j)) < Publication(trace, looks[j].borrowed)
  {
    assert ExplainedAt(trace, at, interval, burst, looks, j);
  }

  /**
   In a good burst no capture comes from before the mark, every fresh one comes from a
   publication after the mark and after all earlier captures, and no later one goes back.
   */
  lemma {:induction false} BurstIncreases(trace: seq<Runtime>, at: nat, interval: nat, burst: seq<Captured>,
                                          looks: seq<Look>, j: nat)
    requires GoodBurst(trace, at, interval, burst, looks) && j < |burst|
    ensures Publication(trace, at) <= Publication(trace, looks[j].borrowed)
    ensures burst[j].isFresh ==> Publication(trace, at) < Publication(trace, looks[j].borrowed)
    ensures forall i: nat :: i < j ==>
      && Publication(trace, looks[i].borrowed) <= Publication(trace, looks[j].borrowed)
      && (burst[j].isFresh ==> Publication(trace, looks[i].borrowed) < Publication(trace, looks[j].borrowed))
  {
    BurstMoves(trace, at, interval, burst, looks, j);
    if j > 0 { BurstIncreases(trace, at, interval, burst, looks, j - 1); }
  }

  datatype Error = Validation | Unavailable | Internal

  /** A good burst of fresh frames so far, the last of which is the last one seen. */
  ghost predicate SoFar(trace: seq<Runtime>, mark: nat, interval: nat,
                        burst: seq<Captured>, looks: seq<Look>, seen: nat)
  {
    && GoodBurst(trace, mark, interval, burst, looks) && (forall i :: 0 <= i < |burst| ==> burst[i].isFresh)
    && Before(mark, looks, |looks|) < |trace| && seen == Publication(trace, Before(mark, looks, |looks|))
  }

  /**
   Why a capture fails: after a good burst of fresh frames, shorter than asked for, the frame
   that `next_frame` took next was empty, or not empty and impossible to encode.
   */
  ghost predicate FailedBurst(trace: seq<Runtime>, mark: nat, request: Request, encodes: Frame -> bool,
                              taken: seq<Captured>, looks: seq<Look>, failed: Captured, last: Look, error: Error)
  {
    && GoodBurst(trace, mark, request.interval, taken, looks) && |taken| < request.frames
    && (forall i :: 0 <= i < |taken| ==> taken[i].isFresh && encodes(taken[i].frame))
    && TakenAt(trace, mark, request.interval, taken + [failed], looks + [last], |taken|)
    && match error
       case Validation => false
       case Unavailable => IsEmpty(failed.frame)
       case Internal => !IsEmpty(failed.frame) && !encodes(failed.frame)
  }

  class Capture {
    const render: Render
    const encodes: Frame -> bool
    var runtime: Runtime
    var turns: nat
    var seen: nat
    ghost var trace: seq<Runtime>

    constructor (runtime: Runtime, render: Render, encodes: Frame -> bool)
      requires runtime.history != [] && Lawful(render)
      ensures Valid() && this.runtime == runtime && trace == [runtime] && seen == 0
      ensures this.render == render && this.encodes == encodes
    {
      this.render, this.encodes := render, encodes;
      this.runtime, turns, seen, trace := runtime, 1, 0, [runtime];
    }

    /** The runtime as it is now: the last one on record. */
    ghost function Now(): Runtime
      reads this
      requires trace != []
    {
      trace[|trace| - 1]
    }

    /** The receiver has seen some publication, never one yet to come. */
    ghost predicate Valid()
      reads this
    {
      && Lawful(render) && IsTrace(render, trace) && runtime == Now() && turns == |trace|
      && runtime.history != [] && seen <= Version(runtime)
    }

    twostate predicate WentOn()
      reads this
    {
      Valid() && old(trace) <= trace && old(seen) <= seen
    }

    method RenderThread()
      requires Valid()
      modifies this`runtime, this`turns, this`trace
      ensures WentOn() && |trace| == |old(trace)| + 1 && Evolves(old(Now()), Now())
    {
      runtime := render(turns, runtime);
      turns := turns + 1;
      TraceGoesOn(render, trace, runtime);
      trace := trace + [runtime];
    }

    /** Time passes until at least the given moment, with nothing published. */
    method PassUntil(moment: nat)
      requires Valid()
      modifies this`runtime, this`turns, this`trace
      ensures WentOn() && Evolves(old(Now()), Now()) && moment <= Now().time && Now().history == old(Now()).history
    {
      if runtime.time < moment {
        runtime := runtime.(time := moment);
        turns := turns + 1;
        TraceGoesOn(render, trace, runtime);
        trace := trace + [runtime];
      }
    }

    /** `timeout_at(deadline, receiver.changed())`: an unseen publication wins over both other outcomes. */
    method WaitForChange(deadline: nat) returns (ended: Wait)
      requires Valid()
      modifies this`runtime, this`turns, this`trace
      ensures WentOn() && |old(trace)| < |trace| && Evolves(old(Now()), Now())
      ensures ended.Changed? <==> seen < Version(Now())
      ensures ended.Closed? ==> Now().closed
      ensures ended.Elapsed? ==> deadline <= Now().time
    {
      RenderThread();
      if seen < Version(runtime) {
        return Changed;
      }
      if runtime.closed {
        return Closed;
      }
      PassUntil(deadline);
      return Elapsed;
    }

    /** `borrow_and_update`: the latest frame, now seen. */
    method BorrowAndUpdate() returns (frame: Frame)
      requires Valid()
      modifies this
      ensures WentOn() && |trace| == |old(trace)| + 1 && Evolves(old(Now()), Now())
      ensures seen == Version(Now()) && frame == Latest(Now())
    {
      RenderThread();
      seen := Version(runtime);
      frame := Latest(runtime);
    }

    /** `next_frame`: as `Explained` says. */
    method NextFrame() returns (c: Captured, ghost l: Look)
      requires Valid()
      modifies this
      ensures WentOn() && Explained(trace, old(seen), c, l)
      ensures l.start == |old(trace)| - 1 && seen == Publication(trace, l.borrowed)
    {
      var deadline := runtime.time + FRESH_TIMEOUT;
      var published := false;
      while true
        invariant WentOn() && Now().remaining + |Now().history| == old(Now().remaining + |Now().history|)
        invariant if published then old(seen) < seen && PassedOver(trace, |old(trace)| - 1, |trace|, old(seen))
                  else seen == old(seen)
        decreases Now().remaining + |Now().history| - seen
      {
        ghost var earlier := trace;
        var ended := WaitForChange(deadline);
        ghost var woke := |trace| - 1;
        var frame := BorrowAndUpdate();
        l := Look(|old(trace)| - 1, woke, ended, woke + 1, woke + 2);
        if !ended.Changed? {
          if published { PassedOverStays(earlier, trace, |old(trace)| - 1, woke, old(seen)); }
          assert trace[|old(trace)| - 1] == old(Now());
          return Captured(frame, published), l;
        }
        published := true;
        RenderThread();
        var resume := runtime.resume;
        if resume != Some(frame.number) {
          return Captured(frame, true), l;
        }
        assert ResumeAt(trace, woke + 1, woke + 2, old(seen));
      }
    }

    /**
     `capture_canvas`: on success between one frame and as many as asked for, a good burst
     past the mark taken when the capture began, and a stale frame at its end if it is short.
     Any other outcome than a refused request is the fault of the frame taken last.
     */
    method CaptureCanvas(request: Request)
      returns (r: Result<seq<Captured>, Error>, ghost mark: nat, ghost taken: seq<Captured>, ghost looks: seq<Look>,
               ghost failed: Captured, ghost last: Look)
      requires Valid()
      modifies this
      ensures WentOn()
      ensures !ValidRequest(request) <==> r == Err(Validation)
      ensures r.Err? && r.error != Validation ==>
                && mark == |old(trace)|
                && FailedBurst(trace, mark, request, encodes, taken, looks, failed, last, r.error)
      ensures r.Ok? ==>
                && mark == |old(trace)| && 1 <= |r.value| <= request.frames
                && GoodBurst(trace, mark, request.interval, r.value, looks)
                && (|r.value| < request.frames ==> !r.value[|r.value| - 1].isFresh)
                && forall i :: 0 <= i < |r.value| ==> encodes(r.value[i].frame)
    {
      mark, taken, looks := 0, [], [];
      failed, last := Captured(Frame(0, 0, 0), false), Look(0, 0, Changed, 0, 0);
      if !ValidRequest(request) {
        r := Err(Validation);
        return;
      }
      var first := BorrowAndUpdate();
      mark := |trace| - 1;
      var captured: seq<Captured> := [];
      while |captured| < request.frames
        invariant WentOn() && mark == |old(trace)| && |captured| <= request.frames
        invariant SoFar(trace, mark, request.interval, captured, looks, seen)
        invariant forall i :: 0 <= i < |captured| ==> encodes(captured[i].frame)
      {
        var next;
        next, failed, last := CaptureOne(request.interval, mark, captured, looks);
        taken := captured;
        if next.Err? {
          r := Err(next.error);
          return;
        }
        captured, looks := captured + [next.value], looks + [last];
        if !next.value.isFresh {
          r := Ok(captured);
          return;
        }
      }
      r := Ok(captured);
    }

    /** One turn of the burst: pause, take the next frame, refuse an empty one, encode it. */
    method CaptureOne(interval: nat, ghost mark: nat, captured: seq<Captured>, ghost looks: seq<Look>)
      returns (r: Result<Captured, Error>, ghost taken: Captured, ghost look: Look)
      requires Valid() && SoFar(trace, mark, interval, captured, looks, seen)
      modifies this
      ensures WentOn() && GoodBurst(trace, mark, interval, captured, looks)
      ensures TakenAt(trace, mark, interval, captured + [taken], looks + [look], |captured|)
      ensures r == if IsEmpty(taken.frame) then Err(Unavailable)
                   else if !encodes(taken.frame) then Err(Internal)
                   else Ok(taken)
      ensures r.Ok? ==> GoodBurst(trace, mark, interval, captured + [taken], looks + [look])
      ensures look.borrowed < |trace| && seen == Publication(trace, look.borrowed)
    {
      if |captured| > 0 {
        Sleep(interval, Before(mark, looks, |looks|));
      }
      ghost var slept := trace;
      var next;
      next, look := NextFrame();
      taken := next;
      BurstStays(old(trace), trace, mark, interval, captured, looks);
      assert trace[look.start] == slept[look.start];
      if next.frame.width == 0 || next.frame.height == 0 {
        r := Err(Unavailable);
        return;
      }
      if !encodes(next.frame) {
        r := Err(Internal);
        return;
      }
      BurstExtends(trace, mark, interval, captured, looks, next, look);
      r := Ok(next);
    }

    /** The pause between two captures: at least an interval after step `since`. */
    method Sleep(interval: nat, ghost since: nat)
      requires Valid() && since < |trace|
      modifies this`runtime, this`turns, this`trace
      ensures WentOn() && trace[since].time + interval <= Now().time
    {
      var begun := runtime.time;
      TraceEvolves(render, trace, since, |trace| - 1);
      if interval > 0 {
        RenderThread();
        PassUntil(begun + interval);
      }
    }
  }

  lemma PassedOverStays(t: seq<Runtime>, t': seq<Runtime>, from: nat, until: nat, seen: nat)
    requires t <= t' && |t| <= until && PassedOver(t, from, |t|, seen)
    ensures PassedOver(t', from, until, seen)
  {
    var b: nat, m: nat :| from < b < m < |t| && ResumeAt(t, b, m, seen);
    assert ResumeAt(t', b, m, seen);
  }
}
