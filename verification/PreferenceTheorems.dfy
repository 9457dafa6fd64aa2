/** What every run of the preference protocol guarantees. */
module PreferenceTheorems {
  import opened Common
  import opened Preferences
  import opened PreferenceProtocol

  function TableOf(file: File): Table {
    if file.Document? then file.table else map[]
  }

  /**
   No update is lost and none is invented: in every state of every run the file
   is the starting file with the committed requests run one after another, in
   the order their exclusive locks were granted, each admissible where it ran.
   */
  lemma Serializable(states: seq<State>, steps: seq<Step>, k: nat)
    requires IsRun(states, steps) && k < |states|
    ensures states[k].file == Replay(states[0].file, Requests(states[k].log))
    ensures forall i, j :: 0 <= i < j < |states[k].log| ==> states[k].log[i].ticket < states[k].log[j].ticket
    ensures forall i :: 0 <= i < |states[k].log| ==>
              Accepts(Replay(states[0].file, Requests(states[k].log[..i])), states[k].log[i].request)
  {
    RunKeeps(states, steps, k);
    var log := states[k].log;
    assert log[..|log|] == log;
    forall i | 0 <= i < |log| ensures Accepts(Replay(states[0].file, Requests(log[..i])), log[i].request) {
      assert AcceptedAt(states[0].file, log, i);
    }
  }

  /** At most one process is between its exclusive lock and its release, and then nobody reads. */
  lemma MutualExclusion(states: seq<State>, steps: seq<Step>, k: nat, p: Pid, q: Pid)
    requires IsRun(states, steps) && k < |states|
    requires PhaseOf(states[k], p).Admitted? || PhaseOf(states[k], p).Holding?
    ensures q != p ==> PhaseOf(states[k], q).Idle? || PhaseOf(states[k], q).Waiting?
  {
    RunKeeps(states, steps, k);
    assert states[k].exclusive == Some(p);
    assert q !in states[k].shared;
  }

  /**
   Every load returned one whole committed document: the one current when its
   shared lock was granted, however long the read took.
   */
  lemma LoadsSeeCommittedDocuments(states: seq<State>, steps: seq<Step>, k: nat, i: nat)
    requires IsRun(states, steps) && k < |states| && i < |states[k].loads|
    ensures states[k].loads[i].start <= |states[k].log|
    ensures states[k].loads[i].result ==
            ReadDocument(Replay(states[0].file, Requests(states[k].log[..states[k].loads[i].start])))
  {
    RunKeeps(states, steps, k);
  }

  /** The log only grows, and the file moves only when it does. */
  lemma LogGrows(states: seq<State>, steps: seq<Step>, j: nat, k: nat)
    requires IsRun(states, steps) && j <= k < |states|
    ensures states[j].log <= states[k].log
    ensures |states[j].log| == |states[k].log| ==> states[j].file == states[k].file
    decreases k - j
  {
    if j < k {
      LogGrows(states, steps, j, k - 1);
      RunKeeps(states, steps, k - 1);
      LogStep(states[k - 1], steps[k - 1]);
      assert states[k - 1 + 1] == Apply(states[k - 1], steps[k - 1]);
    }
  }

  lemma LogStep(s: State, step: Step)
    requires PhasesAgree(s) && Enabled(s, step)
    ensures s.log <= Apply(s, step).log
    ensures |Apply(s, step).log| == |s.log| ==> Apply(s, step).file == s.file
  {
    if step.Persist? {
      assert PhaseAgrees(s, PhaseOf(s, step.p));
    }
  }

  /** A crash or a drop never touches the file; a durable `persist` repeated never does either. */
  lemma QuietSteps(states: seq<State>, steps: seq<Step>, i: nat)
    requires IsRun(states, steps) && i < |steps|
    requires
      || !steps[i].Persist?
      || PhaseOf(states[i], steps[i].p).durable
    ensures states[i + 1].file == states[i].file && states[i + 1].log == states[i].log
  {
  }

  // ----- Keys the store does not own -----

  lemma {:induction false} ReplayKeepsForeignKeys(file: File, requests: seq<Request>)
    ensures Foreign(TableOf(Replay(file, requests))) == Foreign(TableOf(file))
    ensures file.Unparseable? ==> Replay(file, requests) == file
  {
    if requests != [] {
      ReplayKeepsForeignKeys(file, requests[..|requests| - 1]);
    }
  }

  lemma ForeignKeysSurvive(states: seq<State>, steps: seq<Step>, k: nat)
    requires IsRun(states, steps) && k < |states|
    ensures Foreign(TableOf(states[k].file)) == Foreign(TableOf(states[0].file))
  {
    Serializable(states, steps, k);
    ReplayKeepsForeignKeys(states[0].file, Requests(states[k].log));
  }

  // ----- What a commit does -----

  /**
   Every committed modify turned the preferences its predecessors left into what its
   mutation makes of them, and nothing but an update is ever committed.
   */
  lemma ModifiesTakeEffect(states: seq<State>, steps: seq<Step>, k: nat)
    requires IsRun(states, steps) && k < |states|
    ensures forall i :: 0 <= i < |states[k].log| && states[k].log[i].request.Modify? ==>
              ModifiedAt(states[0].file, states[k].log, i)
    ensures forall i :: 0 <= i < |states[k].log| ==> !states[k].log[i].request.Load?
  {
    RunKeeps(states, steps, k);
    var file, log := states[0].file, states[k].log;
    forall i | 0 <= i < |log|
      ensures !log[i].request.Load? && (log[i].request.Modify? ==> ModifiedAt(file, log, i))
    {
      assert AcceptedAt(file, log, i);
      SerialPrefix(file, log, i);
    }
  }

  ghost predicate ModifiedAt(file: File, log: seq<Commit>, i: nat)
    requires i < |log| && log[i].request.Modify?
  {
    var before := Replay(file, Requests(log[..i]));
    var after := Replay(file, Requests(log[..i + 1]));
    ReadDocument(before).Ok? && Turned(before, after, log[i].request.mutate(ReadDocument(before).value.1))
  }

  lemma SerialPrefix(file: File, log: seq<Commit>, i: nat)
    requires i < |log|
    ensures Replay(file, Requests(log[..i + 1])) == Serial(Replay(file, Requests(log[..i])), log[i].request)
  {
    assert log[..i + 1] == log[..i] + [log[i]];
    AppendKeepsPrefixes(file, log[..i], log[i]);
    assert (log[..i])[..i] == log[..i] && (log[..i + 1])[..i + 1] == log[..i + 1];
  }

  // ----- Restores against a journal -----

  /**
   A committed restore found the journal's before value (or, recovering, its
   candidate) and left exactly its candidate; a refused one found neither.
   */
  lemma RestoreCommitsOrConflicts(states: seq<State>, steps: seq<Step>, k: nat)
    requires IsRun(states, steps) && k < |states|
    ensures forall i :: 0 <= i < |states[k].log| && states[k].log[i].request.Restore? ==>
              RestoredAt(states[0].file, states[k].log, i)
    ensures forall i :: 0 <= i < |states[k].conflicts| ==>
              && states[k].conflicts[i].at <= |states[k].log|
              && Refused(Replay(states[0].file, Requests(states[k].log[..states[k].conflicts[i].at])),
                         states[k].conflicts[i].request)
  {
    RunKeeps(states, steps, k);
    var file, log := states[0].file, states[k].log;
    forall i | 0 <= i < |log| && log[i].request.Restore? ensures RestoredAt(file, log, i) {
      assert AcceptedAt(file, log, i);
      SerialPrefix(file, log, i);
    }
  }

  ghost predicate RestoredAt(file: File, log: seq<Commit>, i: nat)
    requires i < |log| && log[i].request.Restore?
  {
    var request := log[i].request;
    var before := Replay(file, Requests(log[..i]));
    var after := Replay(file, Requests(log[..i + 1]));
    var read := ReadDocument(before);
    && Turned(before, after, request.candidate)
    && (read.value.1 == request.before || (request.recovering && read.value.1 == request.candidate))
  }

  /**
   At the moment a restore looks at the file it is refused with a conflict
   exactly when the file is readable and holds neither accepted value, and a
   refusal writes nothing and gives the lock back.
   */
  lemma ConflictExactlyWhenNeither(states: seq<State>, steps: seq<Step>, i: nat)
    requires IsRun(states, steps) && i < |steps|
    requires steps[i].Prepare? && PhaseOf(states[i], steps[i].p).request.Restore?
    ensures |states[i + 1].conflicts| > |states[i].conflicts| <==>
            Refused(Replay(states[0].file, Requests(states[i].log)), PhaseOf(states[i], steps[i].p).request)
    ensures |states[i + 1].conflicts| > |states[i].conflicts| ==>
              && states[i + 1].file == states[i].file
              && states[i + 1].exclusive == None
              && PhaseOf(states[i + 1], steps[i].p) == Idle
  {
    Serializable(states, steps, i);
    RunKeeps(states, steps, i);
    assert states[i].exclusive == Some(steps[i].p);
  }

  // ----- Recovery: one journal, any crashes -----

  ghost predicate JournalRequest(request: Request, before: Prefs, candidate: Prefs) {
    || request.Load?
    || (request.Restore? && request.before == before && request.candidate == candidate && request.recovering)
  }

  ghost predicate PhaseRequests(s: State, p: Pid, before: Prefs, candidate: Prefs) {
    match PhaseOf(s, p)
    case Waiting(r) => JournalRequest(r, before, candidate)
    case Admitted(r, _) => JournalRequest(r, before, candidate)
    case Holding(r, _, _, _, _) => JournalRequest(r, before, candidate)
    case _ => true
  }

  ghost predicate JournalOnly(s: State, before: Prefs, candidate: Prefs) {
    && (forall p: Pid :: PhaseRequests(s, p, before, candidate))
    && (forall i :: 0 <= i < |s.log| ==> JournalRequest(s.log[i].request, before, candidate))
    && (forall i :: 0 <= i < |s.conflicts| ==> JournalRequest(s.conflicts[i].request, before, candidate))
  }

  lemma JournalStep(s: State, step: Step, before: Prefs, candidate: Prefs)
    requires JournalOnly(s, before, candidate) && Enabled(s, step)
    requires step.Call? ==> JournalRequest(step.request, before, candidate)
    ensures JournalOnly(Apply(s, step), before, candidate)
  {
    var s' := Apply(s, step);
    assert PhaseRequests(s, step.p, before, candidate);
    forall p: Pid ensures PhaseRequests(s', p, before, candidate) {
      assert PhaseRequests(s, p, before, candidate);
    }
  }

  lemma {:induction false} JournalRun(states: seq<State>, steps: seq<Step>, before: Prefs, candidate: Prefs, k: nat)
    requires IsRun(states, steps) && k < |states|
    requires forall i :: 0 <= i < |steps| && steps[i].Call? ==> JournalRequest(steps[i].request, before, candidate)
    ensures JournalOnly(states[k], before, candidate)
  {
    if k > 0 {
      JournalRun(states, steps, before, candidate, k - 1);
      JournalStep(states[k - 1], steps[k - 1], before, candidate);
      assert states[k - 1 + 1] == Apply(states[k - 1], steps[k - 1]);
    }
  }

  lemma {:induction false} ReplayJournal(file: File, requests: seq<Request>, before: Prefs, candidate: Prefs)
    requires ReadDocument(file).Ok? && ReadDocument(file).value.1 in {before, candidate}
    requires forall i :: 0 <= i < |requests| ==> JournalRequest(requests[i], before, candidate)
    ensures ReadDocument(Replay(file, requests)).Ok?
    ensures ReadDocument(Replay(file, requests)).value.1 in {before, candidate}
    ensures requests != [] && requests[|requests| - 1].Restore? ==>
              ReadDocument(Replay(file, requests)).value.1 == candidate
  {
    if requests != [] {
      ReplayJournal(file, requests[..|requests| - 1], before, candidate);
    }
  }

  /**
   However many recovering reruns of one journal race, crash and start over,
   from a file holding either of its values: none is ever refused, the file
   always holds one of the two, and the candidate once any rerun has written.
   */
  lemma RecoveryConverges(states: seq<State>, steps: seq<Step>, before: Prefs, candidate: Prefs, k: nat)
    requires IsRun(states, steps) && k < |states|
    requires ReadDocument(states[0].file).Ok? && ReadDocument(states[0].file).value.1 in {before, candidate}
    requires forall i :: 0 <= i < |steps| && steps[i].Call? ==> JournalRequest(steps[i].request, before, candidate)
    ensures states[k].conflicts == []
    ensures ReadDocument(states[k].file).Ok? && ReadDocument(states[k].file).value.1 in {before, candidate}
    ensures states[k].log != [] ==> ReadDocument(states[k].file).value.1 == candidate
  {
    var s := states[k];
    Serializable(states, steps, k);
    JournalRun(states, steps, before, candidate, k);
    ReplayJournal(states[0].file, Requests(s.log), before, candidate);
    RecoveryNeverConflicts(states, steps, before, candidate, k);
    if s.log != [] {
      assert Accepts(Replay(states[0].file, Requests(s.log[..|s.log| - 1])), s.log[|s.log| - 1].request);
    }
  }

  lemma RecoveryNeverConflicts(states: seq<State>, steps: seq<Step>, before: Prefs, candidate: Prefs, k: nat)
    requires IsRun(states, steps) && k < |states|
    requires ReadDocument(states[0].file).Ok? && ReadDocument(states[0].file).value.1 in {before, candidate}
    requires forall i :: 0 <= i < |steps| && steps[i].Call? ==> JournalRequest(steps[i].request, before, candidate)
    ensures states[k].conflicts == []
  {
    RestoreCommitsOrConflicts(states, steps, k);
    JournalRun(states, steps, before, candidate, k);
    var s := states[k];
    if s.conflicts != [] {
      var refusal := s.conflicts[0];
      assert JournalRequest(refusal.request, before, candidate);
      ReplayJournal(states[0].file, Requests(s.log[..refusal.at]), before, candidate);
    }
  }
}
