/**
 Any number of processes sharing one preference file through its lock file:
 every interleaving of waiting, locking, reading, persisting, dropping and
 crashing, as a step relation. `log`, `loads` and `conflicts` only record what
 happened; no step looks at them.
 */
module PreferenceProtocol {
  import opened Common
  import opened Preferences

  type Pid = nat

  /** What a process is doing. `Holding` owns a `PreparedTuiPreferences`. */
  datatype Phase =
    | Idle
    | Waiting(request: Request)
    | Reading(start: nat)
    | Admitted(request: Request, ticket: nat)
    | Holding(request: Request, ticket: nat, payload: Table, durable: bool, landed: bool)

  /** A write that reached the file, with the exclusive lock's acquisition number. */
  datatype Commit = Commit(ticket: nat, request: Request)

  /** What a load returned, and how many commits preceded its lock acquisition. */
  datatype Observation = Observation(start: nat, result: Result<(Table, Prefs), ReadError>)

  /** A restore refused with a conflict after `at` commits. */
  datatype Refusal = Refusal(at: nat, request: Request)

  datatype State = State(
    file: File,
    shared: set<Pid>,
    exclusive: Option<Pid>,
    tickets: nat,
    phases: map<Pid, Phase>,
    log: seq<Commit>,
    loads: seq<Observation>,
    conflicts: seq<Refusal>)

  ghost function PhaseOf(s: State, p: Pid): Phase {
    if p in s.phases then s.phases[p] else Idle
  }

  ghost predicate Init(s: State) {
    s.shared == {} && s.exclusive == None && s.tickets == 0 && s.phases == map[]
    && s.log == [] && s.loads == [] && s.conflicts == []
  }

  datatype Step =
    | Call(p: Pid, request: Request)
    | GiveUp(p: Pid)
    | LockShared(p: Pid)
    | FinishLoad(p: Pid)
    | LockExclusive(p: Pid)
    | Prepare(p: Pid)
    | PrepareFails(p: Pid)
    | Persist(p: Pid, shutdown: bool, replace: Replace)
    | Drop(p: Pid)
    | Crash(p: Pid)

  /** The process goes idle and the operating system releases its locks. */
  ghost function Released(s: State, p: Pid): State {
    s.(phases := s.phases[p := Idle],
       shared := s.shared - {p},
       exclusive := if s.exclusive == Some(p) then None else s.exclusive)
  }

  ghost predicate Enabled(s: State, step: Step) {
    var phase := PhaseOf(s, step.p);
    match step
    case Call(_, _) => phase.Idle?
    case GiveUp(_) => phase.Waiting?
    case LockShared(_) => phase.Waiting? && phase.request.Load? && s.exclusive.None?
    case FinishLoad(_) => phase.Reading?
    case LockExclusive(_) => phase.Waiting? && !phase.request.Load? && s.exclusive.None? && s.shared == {}
    case Prepare(_) => phase.Admitted?
    case PrepareFails(_) => phase.Admitted?
    case Persist(_, _, _) => phase.Holding?
    case Drop(_) => phase.Holding?
    case Crash(_) => true
  }

  ghost function Prepared(s: State, p: Pid, request: Request, ticket: nat): State {
    var read := ReadDocument(s.file);
    if read.Err? then Released(s, p)
    else if Conflicts(request, read.value.1) then
      Released(s, p).(conflicts := s.conflicts + [Refusal(|s.log|, request)])
    else
      var payload := Edited(read.value.0, Wanted(request, read.value.1));
      s.(phases := s.phases[p := Holding(request, ticket, payload, false, false)])
  }

  ghost function Persisted(s: State, p: Pid, h: Phase, shutdown: bool, replace: Replace): State
    requires h.Holding?
  {
    if h.durable || shutdown || replace.NotReplaced? then s
    else
      s.(file := Document(h.payload),
         phases := s.phases[p := h.(durable := replace.Replaced?, landed := true)],
         log := if h.landed then s.log else s.log + [Commit(h.ticket, h.request)])
  }

  ghost function Apply(s: State, step: Step): State
    requires Enabled(s, step)
  {
    var p := step.p;
    var phase := PhaseOf(s, p);
    match step
    case Call(_, request) => s.(phases := s.phases[p := Waiting(request)])
    case GiveUp(_) => Released(s, p)
    case LockShared(_) => s.(shared := s.shared + {p}, phases := s.phases[p := Reading(|s.log|)])
    case FinishLoad(_) =>
      Released(s, p).(loads := s.loads + [Observation(phase.start, ReadDocument(s.file))])
    case LockExclusive(_) =>
      s.(exclusive := Some(p), tickets := s.tickets + 1,
         phases := s.phases[p := Admitted(phase.request, s.tickets)])
    case Prepare(_) => Prepared(s, p, phase.request, phase.ticket)
    case PrepareFails(_) => Released(s, p)
    case Persist(_, shutdown, replace) => Persisted(s, p, phase, shutdown, replace)
    case Drop(_) => Released(s, p)
    case Crash(_) => Released(s, p)
  }

  /** A run: the steps taken and the states passed through. */
  ghost predicate IsRun(states: seq<State>, steps: seq<Step>) {
    && |states| == |steps| + 1
    && Init(states[0])
    && forall i :: 0 <= i < |steps| ==> Enabled(states[i], steps[i]) && states[i + 1] == Apply(states[i], steps[i])
  }

  ghost function Requests(log: seq<Commit>): (r: seq<Request>)
    ensures |r| == |log|
    ensures forall i :: 0 <= i < |log| ==> r[i] == log[i].request
  {
    if log == [] then [] else Requests(log[..|log| - 1]) + [log[|log| - 1].request]
  }

  /** The file a serial execution of the first `n` commits leaves. */
  ghost function SerialFile(initial: File, log: seq<Commit>, n: nat): File
    requires n <= |log|
  {
    Replay(initial, Requests(log[..n]))
  }

  // ----- The invariant -----

  /** One writer, or any number of readers. */
  ghost predicate LocksAgree(s: State) {
    && (forall p: Pid :: p in s.shared <==> PhaseOf(s, p).Reading?)
    && (forall p: Pid :: s.exclusive == Some(p) <==> PhaseOf(s, p).Admitted? || PhaseOf(s, p).Holding?)
    && (s.exclusive.Some? ==> s.shared == {})
  }

  ghost predicate NewerThanLog(s: State, ticket: nat) {
    && ticket + 1 == s.tickets
    && forall i :: 0 <= i < |s.log| ==> s.log[i].ticket < ticket
  }

  ghost predicate PhaseAgrees(s: State, phase: Phase) {
    match phase
    case Reading(start) => start == |s.log|
    case Admitted(request, ticket) => !request.Load? && NewerThanLog(s, ticket)
    case Holding(request, ticket, payload, durable, landed) =>
      && !request.Load?
      && (durable ==> landed)
      && if landed then s.file == Document(payload)
         else
           && NewerThanLog(s, ticket)
           && Accepts(s.file, request)
           && Document(payload) == Serial(s.file, request)
    case _ => true
  }

  ghost predicate PhasesAgree(s: State) {
    forall p: Pid :: PhaseAgrees(s, PhaseOf(s, p))
  }

  ghost predicate LogAgrees(initial: File, s: State) {
    && s.file == SerialFile(initial, s.log, |s.log|)
    && (forall i :: 0 <= i < |s.log| ==> s.log[i].ticket < s.tickets)
    && (forall i, j :: 0 <= i < j < |s.log| ==> s.log[i].ticket < s.log[j].ticket)
    && (forall i :: 0 <= i < |s.log| ==> AcceptedAt(initial, s.log, i))
  }

  /** The commit was admissible on the file its predecessors left. */
  ghost predicate AcceptedAt(initial: File, log: seq<Commit>, i: nat)
    requires i < |log|
  {
    Accepts(SerialFile(initial, log, i), log[i].request)
  }

  /** A readable file that holds neither value the restore accepts. */
  ghost predicate Refused(file: File, request: Request) {
    ReadDocument(file).Ok? && Conflicts(request, ReadDocument(file).value.1)
  }

  ghost predicate RecordsAgree(initial: File, s: State) {
    && (forall i :: 0 <= i < |s.loads| ==>
          && s.loads[i].start <= |s.log|
          && s.loads[i].result == ReadDocument(SerialFile(initial, s.log, s.loads[i].start)))
    && (forall i :: 0 <= i < |s.conflicts| ==>
          && s.conflicts[i].at <= |s.log|
          && Refused(SerialFile(initial, s.log, s.conflicts[i].at), s.conflicts[i].request))
  }

  ghost predicate Inv(initial: File, s: State) {
    LocksAgree(s) && PhasesAgree(s) && LogAgrees(initial, s) && RecordsAgree(initial, s)
  }

  // ----- Preservation -----

  lemma AppendKeepsPrefixes(initial: File, log: seq<Commit>, c: Commit)
    ensures forall n :: 0 <= n <= |log| ==> SerialFile(initial, log + [c], n) == SerialFile(initial, log, n)
    ensures SerialFile(initial, log + [c], |log| + 1) == Serial(SerialFile(initial, log, |log|), c.request)
  {
    var grown := log + [c];
    forall n | 0 <= n <= |log| ensures SerialFile(initial, grown, n) == SerialFile(initial, log, n) {
      assert grown[..n] == log[..n];
    }
    assert grown[..|log| + 1] == grown && grown[..|grown| - 1] == log && log[..|log|] == log;
    assert Requests(grown) == Requests(log) + [c.request];
    var rs := Requests(grown);
    assert rs[..|rs| - 1] == Requests(log);
  }

  lemma PhaseAfter(s: State, s': State, p: Pid, phase: Phase)
    requires s'.phases == s.phases[p := phase]
    ensures PhaseOf(s', p) == phase
    ensures forall q: Pid :: q != p ==> PhaseOf(s', q) == PhaseOf(s, q)
  {
  }

  /** A step that changes only one process's phase, inside its lock. */
  lemma MoveKeepsLocks(s: State, s': State, p: Pid, phase: Phase)
    requires LocksAgree(s)
    requires s'.phases == s.phases[p := phase]
    requires s'.shared == s.shared && s'.exclusive == s.exclusive
    requires phase.Reading? == PhaseOf(s, p).Reading?
    requires (phase.Admitted? || phase.Holding?) == (PhaseOf(s, p).Admitted? || PhaseOf(s, p).Holding?)
    ensures LocksAgree(s')
  {
    PhaseAfter(s, s', p, phase);
  }

  lemma MoveKeepsPhases(s: State, s': State, p: Pid, phase: Phase)
    requires PhasesAgree(s)
    requires s'.phases == s.phases[p := phase]
    requires s'.file == s.file && s'.log == s.log && s'.tickets == s.tickets
    requires PhaseAgrees(s', phase)
    ensures PhasesAgree(s')
  {
    PhaseAfter(s, s', p, phase);
    forall q: Pid ensures PhaseAgrees(s', PhaseOf(s', q)) {
      assert PhaseAgrees(s, PhaseOf(s, q));
    }
  }

  lemma ReleaseKeeps(initial: File, s: State, p: Pid)
    requires Inv(initial, s)
    ensures Inv(initial, Released(s, p))
  {
    var s' := Released(s, p);
    PhaseAfter(s, s', p, Idle);
    MoveKeepsPhases(s, s', p, Idle);
  }

  lemma LockKeeps(initial: File, s: State, p: Pid)
    requires Inv(initial, s)
    requires PhaseOf(s, p).Waiting? && !PhaseOf(s, p).request.Load? && s.exclusive.None? && s.shared == {}
    ensures Inv(initial, Apply(s, LockExclusive(p)))
  {
    var s' := Apply(s, LockExclusive(p));
    PhaseAfter(s, s', p, Admitted(PhaseOf(s, p).request, s.tickets));
    forall q: Pid ensures PhaseAgrees(s', PhaseOf(s', q)) {
      assert PhaseAgrees(s, PhaseOf(s, q));
      assert q != p ==> s.exclusive != Some(q);
    }
  }

  lemma AppendKeepsAccepted(initial: File, log: seq<Commit>, c: Commit, i: nat)
    requires i < |log| && AcceptedAt(initial, log, i)
    ensures AcceptedAt(initial, log + [c], i)
  {
    assert (log + [c])[..i] == log[..i];
  }

  lemma CommitKeepsLog(initial: File, s: State, s': State, c: Commit)
    requires LogAgrees(initial, s)
    requires s'.log == s.log + [c] && s'.tickets == s.tickets
    requires Accepts(s.file, c.request) && s'.file == Serial(s.file, c.request)
    requires NewerThanLog(s, c.ticket)
    ensures LogAgrees(initial, s')
  {
    AppendKeepsPrefixes(initial, s.log, c);
    assert AcceptedAt(initial, s'.log, |s.log|);
    forall i | 0 <= i < |s.log| ensures AcceptedAt(initial, s'.log, i) {
      AppendKeepsAccepted(initial, s.log, c, i);
    }
  }

  lemma CommitKeepsRecords(initial: File, s: State, s': State, c: Commit)
    requires RecordsAgree(initial, s)
    requires s'.log == s.log + [c] && s'.loads == s.loads && s'.conflicts == s.conflicts
    ensures RecordsAgree(initial, s')
  {
    AppendKeepsPrefixes(initial, s.log, c);
  }

  lemma WriteKeepsLog(initial: File, s: State, p: Pid, replace: Replace)
    requires Inv(initial, s)
    requires PhaseOf(s, p).Holding? && !PhaseOf(s, p).durable && !replace.NotReplaced?
    ensures LogAgrees(initial, Persisted(s, p, PhaseOf(s, p), false, replace))
    ensures RecordsAgree(initial, Persisted(s, p, PhaseOf(s, p), false, replace))
  {
    var h := PhaseOf(s, p);
    var s' := Persisted(s, p, h, false, replace);
    assert PhaseAgrees(s, h);
    if !h.landed {
      CommitKeepsLog(initial, s, s', Commit(h.ticket, h.request));
      CommitKeepsRecords(initial, s, s', Commit(h.ticket, h.request));
    }
  }

  lemma WriteKeepsPhases(s: State, p: Pid, replace: Replace)
    requires LocksAgree(s) && PhasesAgree(s)
    requires PhaseOf(s, p).Holding? && !PhaseOf(s, p).durable && !replace.NotReplaced?
    ensures LocksAgree(Persisted(s, p, PhaseOf(s, p), false, replace))
    ensures PhasesAgree(Persisted(s, p, PhaseOf(s, p), false, replace))
  {
    var h := PhaseOf(s, p);
    var s' := Persisted(s, p, h, false, replace);
    var h' := h.(durable := replace.Replaced?, landed := true);
    assert PhaseAgrees(s, h);
    PhaseAfter(s, s', p, h');
    MoveKeepsLocks(s, s', p, h');
    assert s.exclusive == Some(p) && s.shared == {};
    forall q: Pid ensures PhaseAgrees(s', PhaseOf(s', q)) {
      if q != p {
        assert PhaseOf(s, q).Reading? ==> q in s.shared;
        assert s.exclusive != Some(q);
      }
    }
  }

  lemma AdmitKeeps(initial: File, s: State, p: Pid)
    requires Inv(initial, s)
    requires PhaseOf(s, p).Admitted? && Accepts(s.file, PhaseOf(s, p).request)
    ensures Inv(initial, Apply(s, Prepare(p)))
  {
    var s' := Apply(s, Prepare(p));
    assert PhaseAgrees(s, PhaseOf(s, p));
    MoveKeepsLocks(s, s', p, s'.phases[p]);
    MoveKeepsPhases(s, s', p, s'.phases[p]);
  }

  lemma RefusalKeeps(initial: File, s: State, s': State, refusal: Refusal)
    requires RecordsAgree(initial, s) && LogAgrees(initial, s)
    requires s'.log == s.log && s'.loads == s.loads && s'.conflicts == s.conflicts + [refusal]
    requires refusal.at == |s.log| && Refused(s.file, refusal.request)
    ensures RecordsAgree(initial, s')
  {
  }

  lemma PrepareKeeps(initial: File, s: State, p: Pid)
    requires Inv(initial, s)
    requires PhaseOf(s, p).Admitted?
    ensures Inv(initial, Apply(s, Prepare(p)))
  {
    var a := PhaseOf(s, p);
    assert PhaseAgrees(s, a);
    if Accepts(s.file, a.request) {
      AdmitKeeps(initial, s, p);
    } else {
      var s' := Apply(s, Prepare(p));
      ReleaseKeeps(initial, s, p);
      PhasesOnlyReadFields(Released(s, p), s');
      if ReadDocument(s.file).Ok? {
        RefusalKeeps(initial, Released(s, p), s', Refusal(|s.log|, a.request));
      }
    }
  }

  lemma PhasesOnlyReadFields(s: State, s': State)
    requires LocksAgree(s) && PhasesAgree(s)
    requires s'.phases == s.phases && s'.shared == s.shared && s'.exclusive == s.exclusive
    requires s'.file == s.file && s'.log == s.log && s'.tickets == s.tickets
    ensures LocksAgree(s') && PhasesAgree(s')
  {
    assert forall p: Pid :: PhaseOf(s', p) == PhaseOf(s, p);
    forall p: Pid ensures PhaseAgrees(s', PhaseOf(s', p)) {
      assert PhaseAgrees(s, PhaseOf(s, p));
    }
  }

  lemma LoadKeeps(initial: File, s: State, p: Pid)
    requires Inv(initial, s)
    requires PhaseOf(s, p).Reading?
    ensures Inv(initial, Apply(s, FinishLoad(p)))
  {
    var s' := Apply(s, FinishLoad(p));
    assert PhaseAgrees(s, PhaseOf(s, p));
    ReleaseKeeps(initial, s, p);
    PhasesOnlyReadFields(Released(s, p), s');
  }

  lemma StepKeeps(initial: File, s: State, step: Step)
    requires Inv(initial, s)
    requires Enabled(s, step)
    ensures Inv(initial, Apply(s, step))
  {
    var p := step.p;
    var s' := Apply(s, step);
    match step
    case Call(_, request) =>
      MoveKeepsLocks(s, s', p, Waiting(request));
      MoveKeepsPhases(s, s', p, Waiting(request));
    case LockShared(_) =>
      PhaseAfter(s, s', p, Reading(|s.log|));
      MoveKeepsPhases(s, s', p, Reading(|s.log|));
    case LockExclusive(_) => LockKeeps(initial, s, p);
    case Prepare(_) => PrepareKeeps(initial, s, p);
    case Persist(_, shutdown, replace) =>
      var h := PhaseOf(s, p);
      if !(h.durable || shutdown || replace.NotReplaced?) {
        WriteKeepsPhases(s, p, replace);
        WriteKeepsLog(initial, s, p, replace);
      }
    case FinishLoad(_) => LoadKeeps(initial, s, p);
    case GiveUp(_) => ReleaseKeeps(initial, s, p);
    case PrepareFails(_) => ReleaseKeeps(initial, s, p);
    case Drop(_) => ReleaseKeeps(initial, s, p);
    case Crash(_) => ReleaseKeeps(initial, s, p);
  }

  lemma {:induction false} RunKeeps(states: seq<State>, steps: seq<Step>, k: nat)
    requires IsRun(states, steps) && k < |states|
    ensures Inv(states[0].file, states[k])
  {
    if k > 0 {
      RunKeeps(states, steps, k - 1);
      assert states[k - 1 + 1] == Apply(states[k - 1], steps[k - 1]);
      StepKeeps(states[0].file, states[k - 1], steps[k - 1]);
    }
  }
}
