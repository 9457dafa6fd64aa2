/**
 The content-addressed setup blob store. Before every system call other programs
 may change the file system and other threads may use the same store; any call may
 fail. All three are parameters, so a contract says what holds whatever they do.
 */
module BlobStore {
  import opened Common
  import opened BlobWorld
  import opened BlobOutcomes

  class Store {
    const stamps: bool
    const hash: seq<byte> -> string
    const others: Others
    const threads: Threads
    const faulty: nat -> bool
    var world: World
    var calls: nat
    var captured: map<Path, (Stamp, Blob)>
    var verified: map<string, (Stamp, u64)>
    ghost var trace: seq<World>
    ghost var published: map<nat, seq<byte>>

    constructor (stamps: bool, world: World, hash: seq<byte> -> string, others: Others, threads: Threads,
                 faulty: nat -> bool)
      requires WorldValid(world) && Lawful(others) && Truthful(hash, threads)
      ensures Valid() && this.hash == hash && this.world == world && trace == [world] && published == map[]
      ensures this.stamps == stamps && this.others == others && this.threads == threads && this.faulty == faulty
    {
      this.stamps, this.hash := stamps, hash;
      this.others, this.threads, this.faulty := others, threads, faulty;
      this.world, calls := world, 1;
      captured := map[];
      verified := map[];
      trace, published := [world], map[];
    }

    /** The trace is a run of the others and this store, and both caches hold only facts. */
    ghost predicate Valid()
      reads this
    {
      && Lawful(others) && Truthful(hash, threads)
      && IsTrace(others, hash, trace, published)
      && world == trace[|trace| - 1] && calls == |trace| && WorldValid(world)
      && CachesTrue(hash, Caches(captured, verified))
    }

    /** The world as it is now: the last one on record. */
    ghost function Now(): World
      reads this
      requires trace != []
    {
      trace[|trace| - 1]
    }

    /** The run went on, and everything before is as it was. */
    twostate predicate WentOn()
      reads this
    {
      Valid() && old(trace) <= trace
    }

    /** The run went on and this store renamed nothing. */
    twostate predicate Watched()
      reads this
    {
      WentOn() && published == old(published)
    }

    /** What the trace says of a file seen at an earlier step. */
    lemma StillThere(f: FileId, i: nat, j: nat, k: nat)
      requires Valid() && i <= j <= k < |trace| && f in trace[i].files
      ensures f in trace[j].files && f in trace[k].files
      ensures SameFile(trace, f, i, k) ==> SameFile(trace, f, i, j) && SameFile(trace, f, j, k)
    {
      FileStays(others, hash, trace, published, f, i, j, k);
    }

    /** One system call: other programs and threads go first, then it works or fails. */
    method Call() returns (ok: bool)
      requires Valid()
      modifies this`world, this`calls, this`trace, this`captured, this`verified
      ensures Watched() && |trace| == |old(trace)| + 1 && ok == !faulty(|old(trace)|)
      ensures Evolves(old(Now()), Now())
      ensures Idle(threads) ==> captured == old(captured) && verified == old(verified)
    {
      TraceGoesOn(others, hash, trace, published);
      ok := !faulty(calls);
      var next := threads(calls, Caches(captured, verified));
      captured, verified := next.captured, next.verified;
      world := others(calls, world);
      calls := calls + 1;
      trace := trace + [world];
    }

    method ReadSome(source: Source) returns (chunk: Option<seq<byte>>, rest: Source)
      requires Valid() && Openable(Now(), source)
      modifies this`world, this`calls, this`trace, this`captured, this`verified
      ensures Watched() && |trace| == |old(trace)| + 1
      ensures Openable(Now(), source) && Evolves(old(Now()), Now())
      ensures chunk.None? <==> faulty(|old(trace)|)
      ensures chunk.Some? ==> Reads(Now(), source, chunk.value, rest)
      ensures Idle(threads) ==> captured == old(captured) && verified == old(verified)
    {
      var ok := Call();
      if !ok {
        return None, source;
      }
      match source
      case Stream(chunks) =>
        if chunks == [] {
          return Some([]), source;
        }
        return Some(chunks[0]), Stream(chunks[1..]);
      case Opened(file, offset) =>
        var content := world.files[file].content;
        if offset >= |content| {
          return Some([]), source;
        }
        var n :| 0 < n <= BUFFER && offset + n <= |content|;
        return Some(content[offset..offset + n]), Opened(file, offset + n);
    }

    /** One read of the copy loop that began at step `a` in `w0` and has `copied` so far. */
    method ReadOn(source: Source, rest: Source, ghost copied: seq<byte>, ghost w0: World, ghost a: nat)
      returns (chunk: Option<seq<byte>>, next: Source)
      requires Valid() && a <= |trace|
      requires Copying(w0, Now(), source, rest, copied) && CopiedSoFar(trace, a, source, copied, false)
      modifies this`world, this`calls, this`trace, this`captured, this`verified
      ensures Watched() && |trace| == |old(trace)| + 1 && Openable(Now(), source)
      ensures chunk.None? <==> faulty(|old(trace)|)
      ensures chunk == Some([]) ==>
                && CopiedSoFar(trace, a, source, copied, true)
                && (Unchanged(w0, Now(), source) ==> copied == Whole(Now(), source))
      ensures chunk.Some? && chunk.value != [] ==>
                && Copying(w0, Now(), source, next, copied + chunk.value)
                && CopiedSoFar(trace, a, source, copied + chunk.value, false)
                && |copied + chunk.value| <= |Whole(Now(), source)|
      ensures Idle(threads) ==> captured == old(captured) && verified == old(verified)
    {
      ghost var before, earlier := Now(), trace;
      chunk, next := ReadSome(rest);
      EvolvesTransitive(w0, before, Now());
      if chunk.Some? {
        CopyStep(w0, before, Now(), source, rest, chunk.value, next, copied);
        CopiedOn(earlier, trace, a, source, rest, copied, chunk.value, next);
      }
    }

    /**
     `copy_hashed`: the digest and length of the bytes delivered, however they
     were cut into reads. Unless its file changed meanwhile, that is all of them,
     and a refusal means that a call failed or that there are too many.
     */
    method CopyHashed(source: Source, expected: Option<u64>) returns (r: Result<Blob, Error>, copied: seq<byte>)
      requires Valid()
      requires Openable(Now(), source) && (source.Opened? ==> source.offset == 0)
      modifies this`world, this`calls, this`trace, this`captured, this`verified
      ensures Watched() && Openable(Now(), source) && |old(trace)| < |trace|
      ensures r.Ok? ==> Fits(copied, expected) && r.value == Blob(hash(copied), |copied|)
      ensures r.Ok? && Unchanged(old(Now()), Now(), source) ==> copied == Whole(Now(), source)
      ensures r.Ok? ==> CopiedSoFar(trace, |old(trace)|, source, copied, true)
      ensures r.Err? ==> r.error == Io || r.error == ContentMismatch
      ensures r == Err(Io) ==> !NoFault(faulty, |old(trace)|, |trace|)
      ensures r == Err(ContentMismatch) ==> !Fits(Whole(Now(), source), expected)
      ensures Idle(threads) ==> captured == old(captured) && verified == old(verified)
    {
      copied := [];
      var rest := source;
      var done := false;
      while !done
        invariant Watched() && Openable(Now(), source)
        invariant !done ==> Copying(old(Now()), Now(), source, rest, copied)
        invariant Fits(copied, expected) && (done ==> |old(trace)| < |trace|)
        invariant done && Unchanged(old(Now()), Now(), source) ==> copied == Whole(Now(), source)
        invariant CopiedSoFar(trace, |old(trace)|, source, copied, done)
        invariant Idle(threads) ==> captured == old(captured) && verified == old(verified)
        decreases !done, U64_MAX - |copied|
      {
        var chunk, next := ReadOn(source, rest, copied, old(Now()), |old(trace)|);
        if chunk.None? {
          return Err(Io), copied;
        }
        if chunk.value == [] {
          done := true;
          continue;
        }
        if |copied| + |chunk.value| > U64_MAX {
          return Err(ContentMismatch), copied;
        }
        if expected.Some? && |copied| + |chunk.value| > expected.value {
          return Err(ContentMismatch), copied;
        }
        copied := copied + chunk.value;
        rest := next;
      }
      r := Ok(Blob(hash(copied), |copied|));
    }

    /** `open_no_follow`, then the regular-file check on the handle. */
    method Open(path: Path) returns (file: Option<FileId>)
      requires Valid()
      modifies this`world, this`calls, this`trace, this`captured, this`verified
      ensures Watched() && |old(trace)| < |trace|
      ensures file.Some? ==>
                && |trace| == |old(trace)| + 2 && file.value in Now().files
                && LinkedAt(trace, |old(trace)|, path, file.value) && Now().files[file.value].regular
      ensures file.None? ==> !NoFault(faulty, |old(trace)|, |trace|) || NotThere(trace, |old(trace)|, path)
      ensures Idle(threads) ==> captured == old(captured) && verified == old(verified)
    {
      var opens := Call();
      if !opens || path !in world.links {
        return None;
      }
      var f := world.links[path];
      var looks := Call();
      if !looks || !world.files[f].regular {
        return None;
      }
      return Some(f);
    }

    /** `file_change_stamp` of an opened file; `None` outside is an I/O error. */
    method StampOf(file: FileId) returns (stamp: Option<Option<Stamp>>)
      requires Valid() && file in Now().files
      modifies this`world, this`calls, this`trace, this`captured, this`verified
      ensures Watched() && |trace| == |old(trace)| + 1 && file in Now().files
      ensures stamp.None? <==> faulty(|old(trace)|)
      ensures stamp.Some? ==> stamp.value == StampIn(stamps, Now(), file)
      ensures Idle(threads) ==> captured == old(captured) && verified == old(verified)
    {
      var ok := Call();
      if !ok {
        return None;
      }
      return Some(StampIn(stamps, world, file));
    }

    /** Take the file's stamp again: whether it is the one `before` of its version at an earlier time. */
    method StampStays(file: FileId, before: Option<Stamp>, ghost version: Version) returns (same: Option<bool>)
      requires Valid() && file in Now().files && before == if stamps then Some(Stamp(file, version)) else None
      modifies this`world, this`calls, this`trace, this`captured, this`verified
      ensures Watched() && |trace| == |old(trace)| + 1 && file in Now().files
      ensures same.None? <==> faulty(|old(trace)|)
      ensures same.Some? ==> same.value == (stamps ==> Now().files[file] == version)
      ensures Idle(threads) ==> captured == old(captured) && verified == old(verified)
    {
      var after := StampOf(file);
      same := if after.None? then None else Some(before == after.value);
    }

    /** How `read` and `capture` begin: open, check that the file is regular, take its stamp. */
    method Locate(path: Path) returns (stamp: Option<Option<Stamp>>, file: FileId, ghost s: Sighting)
      requires Valid()
      modifies this`world, this`calls, this`trace, this`captured, this`verified
      ensures Watched() && |old(trace)| < |trace|
      ensures stamp.Some? ==>
                && Located(trace, |old(trace)|, path, s) && s == Sighting(file, |old(trace)|, |trace| - 1)
                && file in Now().files && stamp.value == StampIn(stamps, Now(), file)
      ensures stamp.None? ==> !NoFault(faulty, |old(trace)|, |trace|) || NotThere(trace, |old(trace)|, path)
      ensures Idle(threads) ==> captured == old(captured) && verified == old(verified)
    {
      ghost var n := |trace|;
      var handle := Open(path);
      if handle.None? {
        return None, 0, Sighting(0, 0, 0);
      }
      file := handle.value;
      ghost var earlier := trace;
      stamp := StampOf(file);
      assert trace[n] == earlier[n] && trace[n + 1] == earlier[n + 1];
      s := Sighting(file, n, n + 2);
    }

    /** `read`: as `ReadOutcome` says, and a blob that was read is remembered. */
    method Read(descriptor: Blob) returns (r: Result<SetupBlob, Error>, ghost s: Sighting)
      requires Valid()
      modifies this`world, this`calls, this`trace, this`captured, this`verified
      ensures Watched() && ReadOutcome(stamps, faulty, hash, trace, |old(trace)|, descriptor, r, s)
      ensures Idle(threads) ==> captured == old(captured)
      ensures Idle(threads) && r.Ok? && stamps ==> Remembered(descriptor, s)
    {
      if !ValidDigest(descriptor.sha256) {
        return Err(Manifest), Sighting(0, 0, 0);
      }
      var before, file;
      before, file, s := Locate(Object(descriptor.sha256));
      if before.None? {
        NotFoundOutcome(descriptor, |old(trace)|, s);
        return Err(Io), s;
      }
      ghost var earlier := trace;
      r := ReadLocated(descriptor, file, before.value);
      LocatedStays(earlier, trace, |old(trace)|, |old(trace)|, Object(descriptor.sha256), s);
      FoundOutcome(descriptor, |old(trace)|, r, s);
    }

    lemma NotFoundOutcome(descriptor: Blob, a: nat, s: Sighting)
      requires Valid() && 1 <= a < |trace| && ValidDigest(descriptor.sha256)
      requires !NoFault(faulty, a, |trace|) || NotThere(trace, a, Object(descriptor.sha256))
      ensures ReadOutcome(stamps, faulty, hash, trace, a, descriptor, Err(Io), s)
    {
      if NotThere(trace, a, Object(descriptor.sha256)) && LocatedStill(trace, a, Object(descriptor.sha256)) {
        NotThereInPlace(others, hash, trace, published, a, Object(descriptor.sha256));
      }
    }

    lemma FoundOutcome(descriptor: Blob, a: nat, r: Result<SetupBlob, Error>, s: Sighting)
      requires Valid() && 1 <= a && ValidDigest(descriptor.sha256)
      requires Located(trace, a, Object(descriptor.sha256), s) && s.found == a
      requires HandleOutcome(stamps, faulty, hash, trace, s.seen + 1, descriptor, s.file, r)
      ensures ReadOutcome(stamps, faulty, hash, trace, a, descriptor, r, s)
    {
      NoFaultParts(faulty, a, s.seen + 1, |trace|);
      assert StepAt(others, hash, trace, published, a + 1);
      if r == Err(SourceChanged) { LocatedMoved(trace, a, Object(descriptor.sha256), s, s.seen); }
      if LocatedStill(trace, a, Object(descriptor.sha256)) {
        LocatedInPlace(others, hash, trace, published, a, Object(descriptor.sha256), s);
      }
    }

    /** The cache knows the sighted version of the object. */
    ghost predicate Remembered(descriptor: Blob, s: Sighting)
      reads this
    {
      && s.seen < |trace| && s.file in trace[s.seen].files
      && descriptor.sha256 in verified
      && verified[descriptor.sha256] == (Stamp(s.file, trace[s.seen].files[s.file]), descriptor.byteLen)
    }

    /** `read` behind the stamp: the cache answers for a version it knows, a full hash for any other. */
    method ReadLocated(descriptor: Blob, file: FileId, before: Option<Stamp>) returns (r: Result<SetupBlob, Error>)
      requires Valid() && file in Now().files && before == StampIn(stamps, Now(), file)
      modifies this`world, this`calls, this`trace, this`captured, this`verified
      ensures Watched() && HandleOutcome(stamps, faulty, hash, trace, |old(trace)|, descriptor, file, r)
      ensures Idle(threads) ==> captured == old(captured)
      ensures Idle(threads) && r.Ok? && stamps ==>
                descriptor.sha256 in verified && verified[descriptor.sha256] == (before.value, descriptor.byteLen)
    {
      if descriptor.sha256 in verified
         && before == Some(verified[descriptor.sha256].0)
         && verified[descriptor.sha256].1 == descriptor.byteLen
      {
        return Ok(SetupBlob(descriptor, file, 0));
      }
      r := Hashed(descriptor, file, before);
    }

    /** The uncached half of `read`: hash, compare, check that the stamp did not move, remember. */
    method Hashed(descriptor: Blob, file: FileId, before: Option<Stamp>) returns (r: Result<SetupBlob, Error>)
      requires Valid() && file in Now().files && before == StampIn(stamps, Now(), file)
      modifies this`world, this`calls, this`trace, this`captured, this`verified
      ensures Watched() && HandleOutcome(stamps, faulty, hash, trace, |old(trace)|, descriptor, file, r)
      ensures Idle(threads) ==> captured == old(captured)
      ensures Idle(threads) && r.Ok? ==>
                verified == if before.None? then old(verified)
                            else old(verified)[descriptor.sha256 := (before.value, descriptor.byteLen)]
    {
      var problem := Check(descriptor, file, before);
      if problem.Some? {
        return Err(problem.value);
      }
      ghost var earlier := trace;
      var rewinds := Remember(descriptor, before);
      HashedEnds(others, stamps, faulty, hash, earlier, trace, published, |old(trace)|, descriptor, file, rewinds);
      r := if rewinds then Ok(SetupBlob(descriptor, file, 0)) else Err(Io);
    }

    /** Note the verified version, then rewind the handle. */
    method Remember(descriptor: Blob, before: Option<Stamp>) returns (rewinds: bool)
      requires Valid() && (before.Some? ==> Describes(hash, descriptor, before.value.version.content))
      modifies this`world, this`calls, this`trace, this`captured, this`verified
      ensures Watched() && |trace| == |old(trace)| + 1 && rewinds == !faulty(|old(trace)|)
      ensures Idle(threads) ==>
                && captured == old(captured)
                && verified == if before.None? then old(verified)
                               else old(verified)[descriptor.sha256 := (before.value, descriptor.byteLen)]
    {
      if before.Some? {
        verified := verified[descriptor.sha256 := (before.value, descriptor.byteLen)];
      }
      rewinds := Call();
    }

    /** Hash the file in full, compare, and check that its stamp did not move. */
    method Check(descriptor: Blob, file: FileId, before: Option<Stamp>) returns (problem: Option<Error>)
      requires Valid() && file in Now().files && before == StampIn(stamps, Now(), file)
      modifies this`world, this`calls, this`trace, this`captured, this`verified
      ensures Watched() && CheckOutcome(stamps, faulty, hash, trace, |old(trace)|, descriptor, file, problem)
      ensures Idle(threads) ==> captured == old(captured) && verified == old(verified)
    {
      problem := Compare(descriptor, file);
      if problem.Some? {
        return;
      }
      ghost var earlier := trace;
      var same := StampStays(file, before, old(Now()).files[file]);
      problem := if same.None? then Some(Io) else if same.value then None else Some(SourceChanged);
      CheckEnds(others, stamps, faulty, hash, earlier, trace, published, |old(trace)|, descriptor, file, problem);
    }

    /** Hash the file in full and compare. */
    method Compare(descriptor: Blob, file: FileId) returns (problem: Option<Error>)
      requires Valid() && file in Now().files
      modifies this`world, this`calls, this`trace, this`captured, this`verified
      ensures Watched() && CompareOutcome(faulty, hash, trace, |old(trace)|, descriptor, file, problem)
      ensures Idle(threads) ==> captured == old(captured) && verified == old(verified)
    {
      var actual, copied := CopyHashed(Opened(file, 0), Some(descriptor.byteLen));
      if actual.Err? {
        if actual.error == ContentMismatch {
          TooLongNow(trace, |old(trace)|, file, descriptor.byteLen);
        }
        return Some(actual.error);
      }
      HashedNow(trace, |old(trace)|, file, hash, descriptor, copied);
      problem := if actual.value == descriptor then None else Some(ContentMismatch);
    }

    /** Sync a finished temporary file and rename it onto its digest; the sync behind the rename may fail too. */
    method PublishObject(sha256: string, content: seq<byte>) returns (ok: bool, ghost put: nat)
      requires Valid() && sha256 == hash(content)
      modifies this
      ensures WentOn() && PutAtMost(old(published), published, |old(trace)|, put, content)
      ensures ok ==> put == |trace| - 1 && PutOnce(old(published), published, |old(trace)|, put, content)
      ensures !ok ==> !NoFault(faulty, |old(trace)|, |trace|)
      ensures Idle(threads) ==> captured == old(captured) && verified == old(verified)
    {
      put := |trace|;
      var syncs := Call();
      if !syncs {
        return false, put;
      }
      var renames := Call();
      if !renames {
        return false, put;
      }
      put := |trace|;
      ok := Rename(sha256, content);
    }

    /** The rename itself, and whether the directory sync behind it worked. */
    method Rename(sha256: string, content: seq<byte>) returns (ok: bool)
      requires Valid() && sha256 == hash(content)
      modifies this`world, this`calls, this`trace, this`published
      ensures WentOn() && |trace| == |old(trace)| + 1 && published == old(published)[|old(trace)| := content]
      ensures ok == !faulty(|old(trace)|)
    {
      TracePublishes(others, hash, trace, published, content);
      ok := !faulty(calls);
      published := published[calls := content];
      world := Publish(world, Object(sha256), content);
      calls := calls + 1;
      trace := trace + [world];
    }

    /** Rename onto the digest, then `remember_verified`. */
    method PublishAndReadBack(descriptor: Blob, content: seq<byte>)
      returns (problem: Option<Error>, ghost put: nat, ghost s: Sighting)
      requires Valid() && Describes(hash, descriptor, content)
      modifies this
      ensures WentOn()
      ensures PublishOutcome(stamps, faulty, hash, trace, old(published), published, |old(trace)|,
                             descriptor, content, problem, put, s)
      ensures Idle(threads) ==> captured == old(captured)
      ensures Idle(threads) && problem.None? && stamps ==> Remembered(descriptor, s)
    {
      s := Sighting(0, 0, 0);
      var ok;
      ok, put := PublishObject(descriptor.sha256, content);
      if !ok {
        return Some(Io), put, s;
      }
      var blob;
      blob, s := Read(descriptor);
      problem := if blob.Ok? then None else Some(blob.error);
      ReadBackOutcome(old(published), |old(trace)|, descriptor, content, blob, put, s);
    }

    lemma ReadBackOutcome(before: map<nat, seq<byte>>, a: nat, descriptor: Blob, content: seq<byte>,
                          blob: Result<SetupBlob, Error>, put: nat, s: Sighting)
      requires Valid() && 1 <= a && PutOnce(before, published, a, put, content) && Describes(hash, descriptor, content)
      requires forall i :: i in before ==> i < a
      requires ReadOutcome(stamps, faulty, hash, trace, put + 1, descriptor, blob, s)
      ensures PublishOutcome(stamps, faulty, hash, trace, before, published, a, descriptor, content,
                             if blob.Ok? then None else Some(blob.error), put, s)
    {
      NoFaultParts(faulty, a, put + 1, |trace|);
      assert StepAt(others, hash, trace, published, put);
      assert put !in before;
      if ObjectStill(trace, put, Object(descriptor.sha256)) && put + 1 < |trace| {
        StillThere(trace[put].links[Object(descriptor.sha256)], put, put + 1, |trace| - 1);
      }
    }

    /** `stage`: as `StageOutcome` says. */
    method Stage(descriptor: Blob, chunks: seq<seq<byte>>)
      returns (r: Result<(), Error>, ghost put: nat, ghost s: Sighting)
      requires Valid()
      modifies this
      ensures WentOn()
      ensures StageOutcome(stamps, faulty, hash, trace, old(published), published, |old(trace)|,
                           descriptor, StreamBytes(chunks), r, put, s)
      ensures Idle(threads) ==> captured == old(captured)
      ensures Idle(threads) && r.Ok? && stamps ==> Remembered(descriptor, s)
    {
      put, s := 0, Sighting(0, 0, 0);
      if !ValidDigest(descriptor.sha256) {
        return Err(Manifest), put, s;
      }
      var creates := Call();
      if !creates {
        return Err(Io), put, s;
      }
      ghost var n := |trace|;
      var actual, copied := CopyHashed(Stream(chunks), Some(descriptor.byteLen));
      NoFaultParts(faulty, |old(trace)|, n, |trace|);
      if actual.Err? {
        return Err(actual.error), put, s;
      }
      if actual.value != descriptor {
        return Err(ContentMismatch), put, s;
      }
      r, put, s := StageCopied(descriptor, copied, |old(trace)|);
    }

    /** `stage` behind the copy that was made since step `a` and matches. */
    method StageCopied(descriptor: Blob, content: seq<byte>, ghost a: nat)
      returns (r: Result<(), Error>, ghost put: nat, ghost s: Sighting)
      requires Valid() && 1 <= a <= |trace| && (forall i :: i in published ==> i < a)
      requires ValidDigest(descriptor.sha256) && Describes(hash, descriptor, content)
      modifies this
      ensures WentOn()
      ensures StageOutcome(stamps, faulty, hash, trace, old(published), published, a, descriptor, content, r, put, s)
      ensures Idle(threads) ==> captured == old(captured)
      ensures Idle(threads) && r.Ok? && stamps ==> Remembered(descriptor, s)
    {
      var problem;
      problem, put, s := PublishAndReadBack(descriptor, content);
      NoFaultParts(faulty, a, |old(trace)|, |trace|);
      r := if problem.None? then Ok(()) else Err(problem.value);
    }

    /** Copy the source and check that its stamp did not move. */
    method CopySource(file: FileId, before: Option<Stamp>, ghost seen: nat)
      returns (r: Result<Blob, Error>, copied: seq<byte>)
      requires Valid() && seen < |trace| && file in trace[seen].files && before == StampIn(stamps, trace[seen], file)
      modifies this`world, this`calls, this`trace, this`captured, this`verified
      ensures Watched() && CopyOutcome(stamps, faulty, hash, trace, |old(trace)|, seen, file, copied, r)
      ensures Idle(threads) ==> captured == old(captured)
    {
      StillThere(file, seen, |trace| - 1, |trace| - 1);
      var descriptor;
      descriptor, copied := CopyFile(file);
      if descriptor.Err? {
        CopyFails(others, stamps, faulty, hash, trace, published, |old(trace)|, seen, file, copied, descriptor);
        return descriptor, copied;
      }
      r := CopyStays(file, before, descriptor, |old(trace)|, seen, copied);
    }

    /** The check behind the copy that was made from step `a` on. */
    method CopyStays(file: FileId, before: Option<Stamp>, descriptor: Result<Blob, Error>,
                     ghost a: nat, ghost seen: nat, ghost copied: seq<byte>)
      returns (r: Result<Blob, Error>)
      requires Valid() && CopiedWell(faulty, hash, trace, a, file, copied, descriptor) && descriptor.Ok?
      requires seen < a && file in trace[seen].files && before == StampIn(stamps, trace[seen], file)
      modifies this`world, this`calls, this`trace, this`captured, this`verified
      ensures Watched() && CopyOutcome(stamps, faulty, hash, trace, a, seen, file, copied, r)
      ensures Idle(threads) ==> captured == old(captured)
    {
      var same := StampStays(file, before, trace[seen].files[file]);
      r := if same.None? then Err(Io) else if same.value then descriptor else Err(SourceChanged);
      CopyEnds(others, stamps, faulty, hash, old(trace), trace, published, a, seen, file, copied, descriptor, r);
    }

    /** Copy and hash the file in full. */
    method CopyFile(file: FileId) returns (r: Result<Blob, Error>, copied: seq<byte>)
      requires Valid() && file in Now().files
      modifies this`world, this`calls, this`trace, this`captured, this`verified
      ensures Watched() && CopiedWell(faulty, hash, trace, |old(trace)|, file, copied, r)
      ensures Idle(threads) ==> captured == old(captured) && verified == old(verified)
    {
      r, copied := CopyHashed(Opened(file, 0), None);
      if r.Ok? {
        HashedNow(trace, |old(trace)|, file, hash, r.value, copied);
      }
    }

    /** Copy the file stamped at step `seen`, publish the copy under its digest and read it back. */
    method Recapture(file: FileId, before: Option<Stamp>, ghost seen: nat)
      returns (r: Result<Blob, Error>, ghost put: nat, ghost object': Sighting)
      requires Valid() && seen < |trace| && file in trace[seen].files && before == StampIn(stamps, trace[seen], file)
      modifies this
      ensures WentOn()
      ensures AnewOutcome(stamps, faulty, hash, trace, old(published), published, |old(trace)|, seen, file,
                          r, put, object')
      ensures Idle(threads) ==> captured == old(captured)
    {
      put, object' := 0, Sighting(0, 0, 0);
      var creates := Call();
      if !creates {
        return Err(Io), put, object';
      }
      ghost var n := |trace|;
      var descriptor, copied := CopySource(file, before, seen);
      if descriptor.Err? {
        NotCopied(stamps, faulty, hash, trace, published, |old(trace)|, n, seen, file, descriptor, copied);
        return descriptor, put, object';
      }
      ghost var earlier := trace;
      var problem;
      problem, put, object' := PublishAndReadBack(descriptor.value, copied);
      r := if problem.None? then descriptor else Err(problem.value);
      assert trace[..|earlier|] == earlier;
      Copied(others, stamps, faulty, hash, trace, old(published), published, |old(trace)|, n, |earlier|, seen, file,
             descriptor.value, copied, problem, put, object');
    }

    /** The uncached half of `capture`, for the file stamped at step `seen`. */
    method CaptureAnew(path: Path, file: FileId, before: Option<Stamp>, ghost seen: nat)
      returns (r: Result<Blob, Error>, ghost put: nat, ghost object': Sighting)
      requires Valid() && seen < |trace| && file in trace[seen].files && before == StampIn(stamps, trace[seen], file)
      modifies this
      ensures WentOn()
      ensures AnewOutcome(stamps, faulty, hash, trace, old(published), published, |old(trace)|, seen, file,
                          r, put, object')
      ensures Idle(threads) && r.Ok? ==>
                captured == if before.None? then old(captured) else old(captured)[path := (before.value, r.value)]
    {
      r, put, object' := Recapture(file, before, seen);
      if before.Some? && r.Ok? {
        Note(path, before.value, r.value);
      }
    }

    method Note(path: Path, stamp: Stamp, descriptor: Blob)
      requires Valid() && Describes(hash, descriptor, stamp.version.content)
      modifies this`captured
      ensures Valid() && captured == old(captured)[path := (stamp, descriptor)]
    {
      captured := captured[path := (stamp, descriptor)];
    }

    /** The cached half of `capture`: a known version whose object can still be read. */
    method Recall(path: Path, file: FileId, before: Option<Stamp>) returns (d: Option<Blob>, ghost s: Sighting)
      requires Valid() && file in Now().files && before == StampIn(stamps, Now(), file)
      modifies this`world, this`calls, this`trace, this`captured, this`verified
      ensures Watched()
      ensures d.Some? ==>
                && stamps && Describes(hash, d.value, old(Now()).files[file].content)
                && ReadOutcome(stamps, faulty, hash, trace, |old(trace)|, d.value, Ok(SetupBlob(d.value, s.file, 0)), s)
      ensures Idle(threads) ==>
                && captured == old(captured)
                && (d.Some? ==> before.Some? && path in captured && captured[path] == (before.value, d.value))
    {
      d, s := None, Sighting(0, 0, 0);
      if path in captured && before == Some(captured[path].0) {
        var descriptor := captured[path].1;
        var blob;
        blob, s := Read(descriptor);
        if blob.Ok? {
          d := Some(descriptor);
        }
      }
    }

    /** `capture`: as `CaptureOutcome` says, and what was captured is remembered. */
    method Capture(path: Path)
      returns (r: Result<Blob, Error>, ghost put: nat, ghost source: Sighting, ghost object': Sighting)
      requires Valid()
      modifies this
      ensures WentOn()
      ensures CaptureOutcome(stamps, faulty, hash, trace, old(published), published, |old(trace)|, path,
                             r, put, source, object')
      ensures Idle(threads) && r.Ok? && stamps ==> Noted(path, r.value, source)
    {
      put, object' := 0, Sighting(0, 0, 0);
      var before, file;
      before, file, source := Locate(path);
      if before.None? {
        NotFoundCapture(others, stamps, faulty, hash, trace, published, path, |old(trace)|, source);
        return Err(Io), put, source, object';
      }
      r, put, object' := CaptureLocated(path, file, before.value, |old(trace)|, source);
    }

    /** `capture` behind the stamp, for a file located since step `a`. */
    method CaptureLocated(path: Path, file: FileId, before: Option<Stamp>, ghost a: nat, ghost source: Sighting)
      returns (r: Result<Blob, Error>, ghost put: nat, ghost object': Sighting)
      requires Valid() && 1 <= a && (forall i :: i in published ==> i < a)
      requires Located(trace, a, path, source) && source == Sighting(file, a, |trace| - 1)
      requires before == StampIn(stamps, Now(), file)
      modifies this
      ensures WentOn()
      ensures CaptureOutcome(stamps, faulty, hash, trace, old(published), published, a, path, r, put, source, object')
      ensures Idle(threads) && r.Ok? && stamps ==> Noted(path, r.value, source)
    {
      put := 0;
      var known;
      known, object' := Recall(path, file, before);
      LocatedStays(old(trace), trace, a, a, path, source);
      if known.Some? {
        CachedCapture(others, stamps, faulty, hash, trace, published, path, a, known.value,
                      Ok(SetupBlob(known.value, object'.file, 0)), source, object');
        return Ok(known.value), put, object';
      }
      ghost var earlier := trace;
      r, put, object' := CaptureAnew(path, file, before, source.seen);
      LocatedStays(earlier, trace, a, a, path, source);
      AnewCapture(others, stamps, faulty, hash, trace, old(published), published, path, a, |earlier|, r, put,
                  source, object');
    }

    /** The cache knows the sighted version of the path. */
    ghost predicate Noted(path: Path, descriptor: Blob, s: Sighting)
      reads this
    {
      && s.seen < |trace| && s.file in trace[s.seen].files
      && path in captured && captured[path] == (Stamp(s.file, trace[s.seen].files[s.file]), descriptor)
    }
  }
}
