/**
 The file system a blob store lives in, and the record of every world a store
 passed through. Other programs may change any file and any name before any of
 the store's system calls.
 */
module BlobWorld {
  import opened Common

  type FileId = nat

  /** Content-addressed objects under the store root, and everything else. */
  datatype Path = Object(sha256: string) | Local(name: string)

  /** One state of one file; any write, truncation or rename moves to a higher number. */
  datatype Version = Version(number: nat, regular: bool, content: seq<byte>)

  /**
   A change stamp identifies one version of one file: equal stamps mean the same
   file, unchanged. The store can only compare stamps.
   */
  datatype Stamp = Stamp(file: FileId, version: Version)

  /** `time` moves whenever anything does. */
  datatype World = World(
    time: nat,
    files: map<FileId, Version>,
    links: map<Path, FileId>,
    nextFile: FileId)

  predicate WorldValid(w: World) {
    && (forall f :: f in w.files ==> f < w.nextFile)
    && (forall p :: p in w.links ==> w.links[p] in w.files)
  }

  /** What may happen between two system calls: a file never returns to an earlier version. */
  predicate Evolves(w: World, w': World) {
    && w.time <= w'.time
    && (w.time == w'.time ==> w == w')
    && forall f :: f in w.files ==>
         f in w'.files && (w.files[f] == w'.files[f] || w.files[f].number < w'.files[f].number)
  }

  lemma EvolvesTransitive(a: World, b: World, c: World)
    requires Evolves(a, b) && Evolves(b, c)
    ensures Evolves(a, c)
  {
  }

  /** The stamp of a file, where the platform offers stamps. */
  function StampIn(stamps: bool, w: World, f: FileId): Option<Stamp>
    requires f in w.files
  {
    if stamps then Some(Stamp(f, w.files[f])) else None
  }

  /** A file with the same version at two times had it all the time in between. */
  lemma UnchangedBetween(a: World, b: World, c: World, f: FileId)
    requires Evolves(a, b) && Evolves(b, c)
    requires f in a.files && a.files[f] == c.files[f]
    ensures b.files[f] == a.files[f]
  {
  }

  /** `durable_replace` of a finished temporary file: a new file takes over the name. */
  function Publish(w: World, path: Path, content: seq<byte>): (w': World)
    requires WorldValid(w)
    ensures WorldValid(w') && Evolves(w, w')
    ensures path in w'.links && w'.files[w'.links[path]].content == content && w'.files[w'.links[path]].regular
  {
    w.(time := w.time + 1,
       files := w.files[w.nextFile := Version(0, true, content)],
       links := w.links[path := w.nextFile],
       nextFile := w.nextFile + 1)
  }

  // ----- Runs -----

  /** What other programs make of a world before the store's `n`-th system call. */
  type Others = (nat, World) -> World

  /** Other programs may do anything a file system allows. */
  ghost predicate Lawful(others: Others) {
    forall n: nat, w: World :: WorldValid(w) ==> WorldValid(others(n, w)) && Evolves(w, others(n, w))
  }

  /** Step `i` of a run is the others' doing, unless it is one of the store's own renames. */
  ghost predicate StepAt(others: Others, hash: seq<byte> -> string,
                         trace: seq<World>, published: map<nat, seq<byte>>, i: nat)
    requires 1 <= i < |trace|
  {
    && WorldValid(trace[i - 1])
    && if i in published then trace[i] == Publish(trace[i - 1], Object(hash(published[i])), published[i])
       else trace[i] == others(i, trace[i - 1])
  }

  /** Every world the store passed through, in order, each made from the one before it. */
  ghost predicate IsTrace(others: Others, hash: seq<byte> -> string,
                          trace: seq<World>, published: map<nat, seq<byte>>)
  {
    && trace != []
    && (forall i: nat :: 1 <= i < |trace| ==> StepAt(others, hash, trace, published, i))
    && (forall i :: i in published ==> 1 <= i < |trace|)
  }

  lemma TraceGoesOn(others: Others, hash: seq<byte> -> string, trace: seq<World>, published: map<nat, seq<byte>>)
    requires IsTrace(others, hash, trace, published) && WorldValid(trace[|trace| - 1])
    ensures IsTrace(others, hash, trace + [others(|trace|, trace[|trace| - 1])], published)
  {
    var next := others(|trace|, trace[|trace| - 1]);
    forall i: nat | 1 <= i < |trace| + 1 ensures StepAt(others, hash, trace + [next], published, i) {
      if i < |trace| { assert StepAt(others, hash, trace, published, i); }
    }
  }

  lemma TracePublishes(others: Others, hash: seq<byte> -> string, trace: seq<World>,
                       published: map<nat, seq<byte>>, content: seq<byte>)
    requires IsTrace(others, hash, trace, published) && WorldValid(trace[|trace| - 1])
    ensures
      var next := Publish(trace[|trace| - 1], Object(hash(content)), content);
      IsTrace(others, hash, trace + [next], published[|trace| := content])
  {
    var next := Publish(trace[|trace| - 1], Object(hash(content)), content);
    var more := published[|trace| := content];
    forall i: nat | 1 <= i < |trace| + 1 ensures StepAt(others, hash, trace + [next], more, i) {
      if i < |trace| { assert StepAt(others, hash, trace, published, i); }
    }
  }

  /** Along a trace worlds only evolve. */
  lemma {:induction false} TraceEvolves(others: Others, hash: seq<byte> -> string,
                                        trace: seq<World>, published: map<nat, seq<byte>>, i: nat, j: nat)
    requires Lawful(others) && IsTrace(others, hash, trace, published) && i <= j < |trace|
    ensures Evolves(trace[i], trace[j])
    decreases j
  {
    if i < j {
      TraceEvolves(others, hash, trace, published, i, j - 1);
      assert StepAt(others, hash, trace, published, j);
      EvolvesTransitive(trace[i], trace[j - 1], trace[j]);
    }
  }

  /** A file is never lost, and one that is the same at two steps was the same in between. */
  lemma FileStays(others: Others, hash: seq<byte> -> string, trace: seq<World>,
                  published: map<nat, seq<byte>>, f: FileId, i: nat, j: nat, k: nat)
    requires Lawful(others) && IsTrace(others, hash, trace, published) && i <= j <= k < |trace| && f in trace[i].files
    ensures f in trace[j].files && f in trace[k].files
    ensures SameFile(trace, f, i, k) ==> SameFile(trace, f, i, j) && SameFile(trace, f, j, k)
  {
    TraceEvolves(others, hash, trace, published, i, j);
    TraceEvolves(others, hash, trace, published, j, k);
  }

  /** The file is the same at both steps. */
  predicate SameFile(trace: seq<World>, f: FileId, i: nat, j: nat) {
    && i < |trace| && j < |trace| && f in trace[i].files && f in trace[j].files
    && trace[i].files[f] == trace[j].files[f]
  }

  /** At step `i` the name led to the file. */
  predicate LinkedAt(trace: seq<World>, i: nat, path: Path, f: FileId) {
    i < |trace| && path in trace[i].links && trace[i].links[path] == f
  }

  /** The file that the name led to at step `a`, if any, is still the same at the end. */
  predicate LocatedStill(trace: seq<World>, a: nat, path: Path) {
    a < |trace| && (path in trace[a].links ==> SameFile(trace, trace[a].links[path], a, |trace| - 1))
  }

  /** The file put under the name at step `put` is still there at the next step, if any, and the same at the end. */
  predicate ObjectStill(trace: seq<World>, put: nat, path: Path) {
    && put < |trace| && path in trace[put].links
    && (put + 1 < |trace| ==> LinkedAt(trace, put + 1, path, trace[put].links[path]))
    && SameFile(trace, trace[put].links[path], put, |trace| - 1)
  }

  /** The file that the name led to at step `a` was not the same at two later steps. */
  ghost predicate FileMoved(trace: seq<World>, a: nat, path: Path) {
    && a < |trace| && path in trace[a].links
    && exists i: nat, j: nat :: a <= i < j < |trace| && MovedBetween(trace, trace[a].links[path], i, j)
  }

  predicate MovedBetween(trace: seq<World>, f: FileId, i: nat, j: nat)
    requires i < |trace| && j < |trace|
  {
    f in trace[i].files && (f !in trace[j].files || trace[i].files[f] != trace[j].files[f])
  }

  /** None of the system calls `a` to `b` fails. */
  ghost predicate NoFault(faulty: nat -> bool, a: nat, b: nat) {
    forall i: nat :: a <= i < b ==> !faulty(i)
  }

  lemma NoFaultParts(faulty: nat -> bool, a: nat, b: nat, c: nat)
    requires a <= b <= c
    ensures NoFault(faulty, a, c) <==> NoFault(faulty, a, b) && NoFault(faulty, b, c)
  {
  }
}
