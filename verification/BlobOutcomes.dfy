/**
 What the blob store's operations may answer, said on the record of worlds they
 passed through, and how the outcome of an operation follows from its parts.
 */
module BlobOutcomes {
  import opened Common
  import opened BlobWorld

  const U64_MAX: nat := 0xFFFF_FFFF_FFFF_FFFF

  type u64 = n: nat | n <= U64_MAX

  datatype Blob = Blob(sha256: string, byteLen: u64)

  /** A handle the caller may read from `offset` on. */
  datatype SetupBlob = SetupBlob(descriptor: Blob, file: FileId, offset: nat)

  datatype Error = Manifest | Io | ContentMismatch | SourceChanged

  const BUFFER: nat := 65536

  /** A caller's byte stream, cut into reads anyhow, or an opened file. */
  datatype Source = Stream(chunks: seq<seq<byte>>) | Opened(file: FileId, offset: nat)

  predicate ValidDigest(s: string) {
    |s| == 64 && forall i :: 0 <= i < |s| ==> '0' <= s[i] <= '9' || 'a' <= s[i] <= 'f'
  }

  const HEX := "0123456789abcdef"

  /** Bytes spelled in lower-case hexadecimal, two digits each. */
  function HexOf(bytes: seq<byte>): (s: string)
    ensures |s| == 2 * |bytes|
  {
    if bytes == [] then "" else [HEX[bytes[0] as nat / 16], HEX[bytes[0] as nat % 16]] + HexOf(bytes[1..])
  }

  predicate HexDigit(c: char) { '0' <= c <= '9' || 'a' <= c <= 'f' }

  lemma HexDigits()
    ensures forall d :: 0 <= d < 16 ==> HexDigit(HEX[d])
    ensures forall c :: HexDigit(c) ==> exists d: nat :: d < 16 && HEX[d] == c
  {
    assert HEX == ['0', '1', '2', '3', '4', '5', '6', '7', '8', '9', 'a', 'b', 'c', 'd', 'e', 'f'];
    forall c | HexDigit(c) ensures exists d: nat :: d < 16 && HEX[d] == c {
      var d: nat := if c <= '9' then c as int - '0' as int else c as int - 'a' as int + 10;
      assert HEX[d] == c;
    }
  }

  lemma {:induction false} HexSpells(bytes: seq<byte>)
    ensures forall i :: 0 <= i < |HexOf(bytes)| ==> HexDigit(HexOf(bytes)[i])
  {
    HexDigits();
    if bytes != [] { HexSpells(bytes[1..]); }
  }

  lemma {:induction false} HexSpelled(s: string, n: nat) returns (bytes: seq<byte>)
    requires |s| == 2 * n && forall i :: 0 <= i < |s| ==> HexDigit(s[i])
    ensures |bytes| == n && HexOf(bytes) == s
    decreases n
  {
    if n == 0 {
      bytes := [];
    } else {
      HexDigits();
      var high: nat :| high < 16 && HEX[high] == s[0];
      var low: nat :| low < 16 && HEX[low] == s[1];
      var rest := HexSpelled(s[2..], n - 1);
      bytes := [(16 * high + low) as byte] + rest;
      OneByte(bytes[0], high, low, rest, s);
    }
  }

  lemma OneByte(b: byte, high: nat, low: nat, rest: seq<byte>, s: string)
    requires high < 16 && low < 16 && b as nat == 16 * high + low
    requires |s| >= 2 && HEX[high] == s[0] && HEX[low] == s[1] && HexOf(rest) == s[2..]
    ensures HexOf([b] + rest) == s
  {
    assert ([b] + rest)[1..] == rest && s == [s[0], s[1]] + s[2..];
    assert b as nat / 16 == high && b as nat % 16 == low;
  }

  /** The names of objects are exactly the spellings of 32-byte digests. */
  lemma DigestsAreSpelled(s: string)
    ensures ValidDigest(s) <==> exists bytes: seq<byte> :: |bytes| == 32 && HexOf(bytes) == s
  {
    if ValidDigest(s) {
      var bytes := HexSpelled(s, 32);
    } else if bytes: seq<byte> :| |bytes| == 32 && HexOf(bytes) == s {
      HexSpells(bytes);
      assert forall i :: 0 <= i < |s| ==> HexDigit(s[i]);
    }
  }

  /** All the bytes a stream delivers before its first empty read. */
  function StreamBytes(chunks: seq<seq<byte>>): seq<byte> {
    if chunks == [] || chunks[0] == [] then [] else chunks[0] + StreamBytes(chunks[1..])
  }

  predicate Describes(hash: seq<byte> -> string, descriptor: Blob, content: seq<byte>) {
    descriptor.sha256 == hash(content) && descriptor.byteLen == |content|
  }

  /** Two shared maps: what was captured from which path, and which objects were verified. */
  datatype Caches = Caches(captured: map<Path, (Stamp, Blob)>, verified: map<string, (Stamp, u64)>)

  /** Every cache entry is a fact about the version its stamp identifies. */
  predicate CachesTrue(hash: seq<byte> -> string, c: Caches) {
    && (forall p :: p in c.captured ==> Describes(hash, c.captured[p].1, c.captured[p].0.version.content))
    && (forall k :: k in c.verified ==> Describes(hash, Blob(k, c.verified[k].1), c.verified[k].0.version.content))
  }

  /** What other threads make of the caches before the `n`-th system call. */
  type Threads = (nat, Caches) -> Caches

  ghost predicate Truthful(hash: seq<byte> -> string, threads: Threads) {
    forall n: nat, c: Caches :: CachesTrue(hash, c) ==> CachesTrue(hash, threads(n, c))
  }

  ghost predicate Idle(threads: Threads) {
    forall n: nat, c: Caches :: threads(n, c) == c
  }

  // ----- What full verification would say -----

  /** Hashing one file's content in full. */
  function Rehash(w: World, file: FileId, hash: seq<byte> -> string, descriptor: Blob): Result<SetupBlob, Error>
    requires file in w.files
  {
    if Describes(hash, descriptor, w.files[file].content) then
      Ok(SetupBlob(descriptor, file, 0))
    else
      Err(ContentMismatch)
  }

  predicate Readable(w: World, path: Path) {
    path in w.links && w.links[path] in w.files && w.files[w.links[path]].regular
  }

  /** What reading a blob gives in one world, when its file is hashed in full. */
  function FullRead(w: World, hash: seq<byte> -> string, descriptor: Blob): Result<SetupBlob, Error> {
    var path := Object(descriptor.sha256);
    if !ValidDigest(descriptor.sha256) then Err(Manifest)
    else if !Readable(w, path) then Err(Io)
    else Rehash(w, w.links[path], hash, descriptor)
  }

  /** The descriptor of some bytes; a digest that is no name for an object is refused on reading back. */
  function Described(content: seq<byte>, hash: seq<byte> -> string): Result<Blob, Error> {
    if |content| > U64_MAX then Err(ContentMismatch)
    else if !ValidDigest(hash(content)) then Err(Manifest)
    else Ok(Blob(hash(content), |content|))
  }

  /** What capturing a path gives in one world, when it is hashed in full. */
  function FullCapture(w: World, hash: seq<byte> -> string, path: Path): Result<Blob, Error> {
    if !Readable(w, path) then Err(Io) else Described(w.files[w.links[path]].content, hash)
  }

  // ----- The copy loop -----

  predicate Openable(w: World, source: Source) {
    source.Opened? ==> source.file in w.files
  }

  /** A stream never changes; a file is unchanged when its version is. */
  ghost predicate Unchanged(w: World, w': World, source: Source)
    requires Openable(w, source) && Openable(w', source)
  {
    source.Opened? ==> w.files[source.file] == w'.files[source.file]
  }

  /** Everything the source holds: a stream's bytes, or a file's current content. */
  ghost function Whole(w: World, source: Source): seq<byte>
    requires Openable(w, source)
  {
    match source
    case Stream(chunks) => StreamBytes(chunks)
    case Opened(file, _) => w.files[file].content
  }

  predicate Fits(content: seq<byte>, expected: Option<u64>) {
    |content| <= U64_MAX && (expected.Some? ==> |content| <= expected.value)
  }

  /** One `read` call in `w`: at most a buffer, empty exactly at the end. */
  ghost predicate Reads(w: World, source: Source, chunk: seq<byte>, rest: Source)
    requires Openable(w, source)
  {
    match source
    case Stream(chunks) =>
      if chunks == [] then chunk == [] && rest == source else chunk == chunks[0] && rest == Stream(chunks[1..])
    case Opened(file, offset) =>
      var content := w.files[file].content;
      && rest == Opened(file, offset + |chunk|)
      && (chunk == [] <==> offset >= |content|)
      && (chunk != [] ==> rest.offset <= |content| && chunk == content[offset..rest.offset])
  }

  /** `copied` is what `source` has delivered since `w0`, unless its file changed. */
  ghost predicate Copying(w0: World, w: World, source: Source, rest: Source, copied: seq<byte>) {
    && Openable(w0, source) && Openable(w, source) && Evolves(w0, w)
    && match source
       case Stream(chunks) => rest.Stream? && StreamBytes(chunks) == copied + StreamBytes(rest.chunks)
       case Opened(file, _) =>
         && rest == Opened(file, |copied|)
         && (w.files[file] == w0.files[file] ==> copied <= w.files[file].content)
  }

  lemma CopyStep(w0: World, w: World, w': World, source: Source, rest: Source,
                 chunk: seq<byte>, next: Source, copied: seq<byte>)
    requires Evolves(w, w')
    requires Copying(w0, w, source, rest, copied)
    requires Openable(w', rest) && Reads(w', rest, chunk, next)
    ensures Openable(w', source)
    ensures chunk != [] ==> Copying(w0, w', source, next, copied + chunk)
    ensures chunk == [] && Unchanged(w0, w', source) ==> copied == Whole(w', source)
    ensures chunk != [] ==> |copied + chunk| <= |Whole(w', source)|
  {
    EvolvesTransitive(w0, w, w');
    match source
    case Stream(_) =>
      if rest.chunks != [] && rest.chunks[0] != [] {
        var later := StreamBytes(rest.chunks[1..]);
        assert copied + (rest.chunks[0] + later) == (copied + chunk) + StreamBytes(next.chunks);
      }
    case Opened(file, _) =>
      if w'.files[file] == w0.files[file] {
        UnchangedBetween(w0, w, w', file);
        var content := w'.files[file].content;
        if chunk != [] {
          assert copied + chunk == content[..|copied| + |chunk|];
        }
      }
  }

  // ----- Bytes delivered -----

  /** Read from its start, one read a step, the file can have delivered these bytes at steps `i` to `j`. */
  ghost predicate Delivered(trace: seq<World>, i: nat, j: nat, file: FileId, bytes: seq<byte>)
    requires j <= |trace|
    decreases j
  {
    if j <= i then j == i && bytes == []
    else
      exists k: nat ::
        && k <= |bytes| && Delivered(trace, i, j - 1, file, bytes[..k])
        && ChunkAt(trace[j - 1], file, k, bytes[k..])
  }

  ghost predicate ChunkAt(w: World, file: FileId, offset: nat, chunk: seq<byte>) {
    file in w.files && Reads(w, Opened(file, offset), chunk, Opened(file, offset + |chunk|))
  }

  /** Those bytes, and at step `n - 1` a read that found the end. */
  ghost predicate HashedWhole(trace: seq<World>, i: nat, n: nat, file: FileId, bytes: seq<byte>) {
    && i < n <= |trace| && Delivered(trace, i, n - 1, file, bytes)
    && file in trace[n - 1].files && |trace[n - 1].files[file].content| <= |bytes|
  }

  /** From step `a` on, the whole file was read, and the bytes delivered matched the descriptor or did not. */
  ghost predicate HashedSince(trace: seq<World>, a: nat, file: FileId, hash: seq<byte> -> string,
                              descriptor: Blob, matched: bool)
  {
    exists i: nat, n: nat, bytes ::
      a <= i && HashedWhole(trace, i, n, file, bytes) && Describes(hash, descriptor, bytes) == matched
  }

  /** From step `a` on, the file was once longer than the limit. */
  ghost predicate TooLongSince(trace: seq<World>, a: nat, file: FileId, limit: nat) {
    exists n: nat :: a <= n < |trace| && LongerAt(trace, n, file, limit)
  }

  predicate LongerAt(trace: seq<World>, n: nat, file: FileId, limit: nat)
    requires n < |trace|
  {
    file in trace[n].files && |trace[n].files[file].content| > limit
  }

  lemma {:induction false} DeliveredStays(t: seq<World>, t': seq<World>, i: nat, j: nat, file: FileId, bytes: seq<byte>)
    requires t <= t' && j <= |t| && Delivered(t, i, j, file, bytes)
    ensures Delivered(t', i, j, file, bytes)
    decreases j
  {
    if i < j {
      var k: nat :| k <= |bytes| && Delivered(t, i, j - 1, file, bytes[..k]) && ChunkAt(t[j - 1], file, k, bytes[k..]);
      DeliveredStays(t, t', i, j - 1, file, bytes[..k]);
      assert t'[j - 1] == t[j - 1];
    }
  }

  /** How far `copy_hashed` has come since step `i`: to the end, or to the bytes delivered so far. */
  ghost predicate CopiedSoFar(trace: seq<World>, i: nat, source: Source, bytes: seq<byte>, done: bool) {
    source.Opened? ==>
      if done then HashedWhole(trace, i, |trace|, source.file, bytes)
      else Delivered(trace, i, |trace|, source.file, bytes)
  }

  /** One more read of the source. */
  lemma CopiedOn(t: seq<World>, t': seq<World>, i: nat, source: Source, rest: Source, bytes: seq<byte>,
                 chunk: seq<byte>, next: Source)
    requires i <= |t| && t <= t' && |t'| == |t| + 1 && CopiedSoFar(t, i, source, bytes, false)
    requires source.Opened? ==> rest == Opened(source.file, |bytes|)
    requires Openable(t'[|t|], rest) && Reads(t'[|t|], rest, chunk, next)
    ensures chunk == [] ==> CopiedSoFar(t', i, source, bytes, true)
    ensures CopiedSoFar(t', i, source, bytes + chunk, chunk == [])
  {
    if source.Opened? {
      DeliveredStays(t, t', i, |t|, source.file, bytes);
      assert chunk == [] ==> bytes + chunk == bytes;
      assert (bytes + chunk)[..|bytes|] == bytes && (bytes + chunk)[|bytes|..] == chunk;
    }
  }

  lemma HashedStays(t: seq<World>, t': seq<World>, a: nat, b: nat, file: FileId, hash: seq<byte> -> string,
                    descriptor: Blob, matched: bool)
    requires t <= t' && b <= a && HashedSince(t, a, file, hash, descriptor, matched)
    ensures HashedSince(t', b, file, hash, descriptor, matched)
  {
    var i: nat, n: nat, bytes :|
      a <= i && HashedWhole(t, i, n, file, bytes) && Describes(hash, descriptor, bytes) == matched;
    DeliveredStays(t, t', i, n - 1, file, bytes);
    assert HashedWhole(t', i, n, file, bytes);
  }

  lemma TooLongStays(t: seq<World>, t': seq<World>, a: nat, b: nat, file: FileId, limit: nat)
    requires t <= t' && b <= a && TooLongSince(t, a, file, limit)
    ensures TooLongSince(t', b, file, limit)
  {
    var n: nat :| a <= n < |t| && LongerAt(t, n, file, limit);
    assert LongerAt(t', n, file, limit);
  }

  /** From step `i` to step `j` the file held this. */
  ghost predicate Held(trace: seq<World>, i: nat, j: nat, file: FileId, content: seq<byte>) {
    forall k: nat :: i <= k < j && k < |trace| ==> file in trace[k].files && trace[k].files[file].content == content
  }

  lemma {:induction false} DeliveredOfOne(trace: seq<World>, i: nat, j: nat, file: FileId,
                                          bytes: seq<byte>, content: seq<byte>)
    requires j <= |trace| && Delivered(trace, i, j, file, bytes) && Held(trace, i, j, file, content)
    ensures bytes <= content
    decreases j
  {
    if i < j {
      var k: nat :|
        k <= |bytes| && Delivered(trace, i, j - 1, file, bytes[..k]) && ChunkAt(trace[j - 1], file, k, bytes[k..]);
      DeliveredOfOne(trace, i, j - 1, file, bytes[..k], content);
      assert bytes == bytes[..k] + bytes[k..];
    }
  }

  /** However the reads are cut, a file that does not change delivers its content and nothing else. */
  lemma HashedOfOne(trace: seq<World>, i: nat, n: nat, file: FileId, bytes: seq<byte>, content: seq<byte>)
    requires HashedWhole(trace, i, n, file, bytes) && Held(trace, i, n, file, content)
    ensures bytes == content
  {
    DeliveredOfOne(trace, i, n - 1, file, bytes, content);
  }

  /** A copy refused as too long found the file longer than its limit at the last step. */
  lemma TooLongNow(trace: seq<World>, a: nat, file: FileId, limit: nat)
    requires a < |trace| && LongerAt(trace, |trace| - 1, file, limit)
    ensures TooLongSince(trace, a, file, limit)
  {
  }

  /** A whole copy says whether the bytes delivered match. */
  lemma HashedNow(trace: seq<World>, a: nat, file: FileId, hash: seq<byte> -> string,
                  descriptor: Blob, bytes: seq<byte>)
    requires HashedWhole(trace, a, |trace|, file, bytes)
    ensures HashedSince(trace, a, file, hash, descriptor, Describes(hash, descriptor, bytes))
  {
  }

  /** What the bytes delivered from step `a` on must have been for the answer. */
  ghost predicate BytesSay(trace: seq<World>, a: nat, file: FileId, hash: seq<byte> -> string,
                           descriptor: Blob, problem: Option<Error>)
  {
    && (problem == None || problem == Some(SourceChanged) ==> HashedSince(trace, a, file, hash, descriptor, true))
    && (problem == Some(ContentMismatch) ==>
          HashedSince(trace, a, file, hash, descriptor, false) || TooLongSince(trace, a, file, descriptor.byteLen))
  }

  lemma BytesStillSay(t: seq<World>, t': seq<World>, a: nat, b: nat, file: FileId, hash: seq<byte> -> string,
                      descriptor: Blob, problem: Option<Error>)
    requires t <= t' && b <= a && BytesSay(t, a, file, hash, descriptor, problem)
    ensures BytesSay(t', b, file, hash, descriptor, problem)
  {
    if problem == None || problem == Some(SourceChanged) {
      HashedStays(t, t', a, b, file, hash, descriptor, true);
    } else if problem == Some(ContentMismatch) {
      if HashedSince(t, a, file, hash, descriptor, false) {
        HashedStays(t, t', a, b, file, hash, descriptor, false);
      } else {
        TooLongStays(t, t', a, b, file, descriptor.byteLen);
      }
    }
  }

  /** The same, of the file that the name led to at step `a`, if any. */
  ghost predicate FileSays(trace: seq<World>, a: nat, path: Path, hash: seq<byte> -> string,
                           descriptor: Blob, error: Error)
  {
    a < |trace| && path in trace[a].links ==>
      BytesSay(trace, a, trace[a].links[path], hash, descriptor, Some(error))
  }

  // ----- Sightings -----

  /** A file was opened by name at step `found`, and its content was known at step `seen`. */
  datatype Sighting = Sighting(file: FileId, found: nat, seen: nat)

  /** From step `a` on, the name led to the sighted file, which was then found regular. */
  ghost predicate Located(trace: seq<World>, a: nat, path: Path, s: Sighting) {
    && a <= s.found < s.found + 1 < s.seen < |trace|
    && LinkedAt(trace, s.found, path, s.file)
    && s.file in trace[s.found + 1].files && trace[s.found + 1].files[s.file].regular
    && s.file in trace[s.seen].files
  }

  /**
   And it held exactly the described bytes when it was seen, or, where there are no stamps,
   the bytes it delivered from then on are the described ones.
   */
  ghost predicate Sighted(stamps: bool, trace: seq<World>, a: nat, path: Path,
                          hash: seq<byte> -> string, descriptor: Blob, s: Sighting)
  {
    && Located(trace, a, path, s)
    && if stamps then Describes(hash, descriptor, trace[s.seen].files[s.file].content)
       else HashedSince(trace, s.seen + 1, s.file, hash, descriptor, true)
  }

  lemma LocatedStays(t: seq<World>, t': seq<World>, a: nat, b: nat, path: Path, s: Sighting)
    requires t <= t' && b <= a && Located(t, a, path, s)
    ensures Located(t', b, path, s) && t'[s.seen] == t[s.seen]
  {
    assert forall i :: 0 <= i < |t| ==> t'[i] == t[i];
  }

  lemma LocatedMoved(trace: seq<World>, a: nat, path: Path, s: Sighting, i: nat)
    requires Located(trace, a, path, s) && s.found == a <= i < |trace| - 1
    requires MovedBetween(trace, s.file, i, |trace| - 1)
    ensures FileMoved(trace, a, path)
  {
  }

  /** A file that was located and did not change since is the readable one the name led to. */
  lemma LocatedInPlace(others: Others, hash: seq<byte> -> string, trace: seq<World>,
                       published: map<nat, seq<byte>>, a: nat, path: Path, s: Sighting)
    requires Lawful(others) && IsTrace(others, hash, trace, published)
    requires Located(trace, a, path, s) && s.found == a && LocatedStill(trace, a, path)
    ensures Readable(trace[a], path) && trace[a].links[path] == s.file
    ensures SameFile(trace, s.file, a, s.seen) && SameFile(trace, s.file, s.seen, |trace| - 1)
  {
    FileStays(others, hash, trace, published, s.file, a, a + 1, |trace| - 1);
    FileStays(others, hash, trace, published, s.file, a, s.seen, |trace| - 1);
  }

  lemma NotThereInPlace(others: Others, hash: seq<byte> -> string, trace: seq<World>,
                        published: map<nat, seq<byte>>, a: nat, path: Path)
    requires Lawful(others) && IsTrace(others, hash, trace, published)
    requires NotThere(trace, a, path) && LocatedStill(trace, a, path)
    ensures !Readable(trace[a], path)
  {
    if path in trace[a].links {
      FileStays(others, hash, trace, published, trace[a].links[path], a, a + 1, |trace| - 1);
    }
  }

  /** The name did not lead to a regular file at step `a`, when it was opened. */
  ghost predicate NotThere(trace: seq<World>, a: nat, path: Path) {
    && a < |trace|
    && (path in trace[a].links ==>
          && a + 1 < |trace| && trace[a].links[path] in trace[a + 1].files
          && !trace[a + 1].files[trace[a].links[path]].regular)
  }

  /**
   The file that the name led to at step `a` did not hold bytes of this digest and length
   then, or has changed since.
   */
  predicate Mismatched(hash: seq<byte> -> string, trace: seq<World>, a: nat, path: Path, digest: string, length: nat) {
    && a < |trace| && path in trace[a].links
    && var f := trace[a].links[path];
    && f in trace[a].files
    && !(SameFile(trace, f, a, |trace| - 1)
         && hash(trace[a].files[f].content) == digest && |trace[a].files[f].content| == length)
  }

  /** What hashing a file in full and comparing says, from step `a` on. */
  ghost predicate CompareOutcome(faulty: nat -> bool, hash: seq<byte> -> string, trace: seq<World>,
                                 a: nat, descriptor: Blob, file: FileId, problem: Option<Error>)
  {
    && 1 <= a < |trace| && file in trace[a - 1].files && file in trace[|trace| - 1].files
    && (problem.Some? ==> problem.value == Io || problem.value == ContentMismatch)
    && (problem == Some(Io) ==> !NoFault(faulty, a, |trace|))
    && BytesSay(trace, a, file, hash, descriptor, problem)
    && (SameFile(trace, file, a - 1, |trace| - 1) && problem != Some(Io) ==>
          (problem.None? <==> Describes(hash, descriptor, trace[a - 1].files[file].content)))
  }

  /** What that and the stamp taken behind it say, from step `a` on. */
  ghost predicate CheckOutcome(stamps: bool, faulty: nat -> bool, hash: seq<byte> -> string, trace: seq<World>,
                               a: nat, descriptor: Blob, file: FileId, problem: Option<Error>)
  {
    && 1 <= a < |trace| && file in trace[a - 1].files
    && (problem.None? && stamps ==> Describes(hash, descriptor, trace[a - 1].files[file].content))
    && problem != Some(Manifest)
    && (problem == Some(Io) ==> !NoFault(faulty, a, |trace|))
    && (problem == Some(SourceChanged) ==> stamps && MovedBetween(trace, file, a - 1, |trace| - 1))
    && BytesSay(trace, a, file, hash, descriptor, problem)
    && (SameFile(trace, file, a - 1, |trace| - 1) && problem != Some(Io) ==>
          problem == if Describes(hash, descriptor, trace[a - 1].files[file].content) then None
                     else Some(ContentMismatch))
  }

  /** What the comparison up to step `n` and the stamp taken behind it come to. */
  lemma CheckEnds(others: Others, stamps: bool, faulty: nat -> bool, hash: seq<byte> -> string,
                  t: seq<World>, t': seq<World>, published: map<nat, seq<byte>>, a: nat,
                  descriptor: Blob, file: FileId, problem: Option<Error>)
    requires Lawful(others) && IsTrace(others, hash, t', published)
    requires t <= t' && |t'| == |t| + 1 && CompareOutcome(faulty, hash, t, a, descriptor, file, None)
    requires file in t'[|t|].files
    requires problem == if faulty(|t|) then Some(Io)
                        else if stamps ==> t'[|t|].files[file] == t[a - 1].files[file] then None
                        else Some(SourceChanged)
    ensures CheckOutcome(stamps, faulty, hash, t', a, descriptor, file, problem)
  {
    assert t'[a - 1] == t[a - 1] && t'[|t| - 1] == t[|t| - 1];
    FileStays(others, hash, t', published, file, a - 1, |t| - 1, |t|);
    BytesStillSay(t, t', a, a, file, hash, descriptor, None);
  }

  /** A file that passed the check and was remembered, with the handle rewound or not. */
  lemma HashedEnds(others: Others, stamps: bool, faulty: nat -> bool, hash: seq<byte> -> string,
                   t: seq<World>, t': seq<World>, published: map<nat, seq<byte>>, a: nat,
                   descriptor: Blob, file: FileId, rewinds: bool)
    requires Lawful(others) && IsTrace(others, hash, t', published)
    requires t <= t' && |t'| == |t| + 1 && rewinds == !faulty(|t|)
    requires CheckOutcome(stamps, faulty, hash, t, a, descriptor, file, None)
    ensures HandleOutcome(stamps, faulty, hash, t', a, descriptor, file,
                          if rewinds then Ok(SetupBlob(descriptor, file, 0)) else Err(Io))
  {
    assert t'[a - 1] == t[a - 1] && t'[|t| - 1] == t[|t| - 1];
    FileStays(others, hash, t', published, file, a - 1, |t| - 1, |t|);
    BytesStillSay(t, t', a, a, file, hash, descriptor, None);
  }

  /**
   What checking an opened file against a descriptor may answer, from step `a` on: `file`
   was opened before, and a handle at offset 0 of it means that it held exactly the
   described bytes then. When the file does not change and no call fails, a full hash decides,
   with stamps or without.
   */
  ghost predicate HandleOutcome(stamps: bool, faulty: nat -> bool, hash: seq<byte> -> string, trace: seq<World>,
                                a: nat, descriptor: Blob, file: FileId, r: Result<SetupBlob, Error>)
  {
    && 1 <= a <= |trace| && file in trace[a - 1].files
    && (r.Ok? ==>
          && r.value == SetupBlob(descriptor, file, 0)
          && (if stamps then Describes(hash, descriptor, trace[a - 1].files[file].content)
              else HashedSince(trace, a, file, hash, descriptor, true)))
    && (r.Err? ==> r.error != Manifest && BytesSay(trace, a, file, hash, descriptor, Some(r.error)))
    && (r == Err(Io) ==> !NoFault(faulty, a, |trace|))
    && (r == Err(SourceChanged) ==> stamps && a < |trace| && MovedBetween(trace, file, a - 1, |trace| - 1))
    && (SameFile(trace, file, a - 1, |trace| - 1) && r != Err(Io) ==>
          r == Rehash(trace[a - 1], file, hash, descriptor))
  }

  /**
   What `read` may answer, from step `a` on. A returned handle is at offset 0 of a regular
   file that the digest's name led to during the call and that held exactly the described
   bytes, whether the cache or a full hash said so; without stamps, that delivered them. In
   every run the bytes delivered tell a mismatch from a changed source. Whatever else changes: when the file that
   was opened does not, the answer is the one full hashing gives, unless a call failed; and a
   mismatch always means that its bytes did not match or that it changed.
   */
  ghost predicate ReadOutcome(stamps: bool, faulty: nat -> bool, hash: seq<byte> -> string, trace: seq<World>,
                              a: nat, descriptor: Blob, r: Result<SetupBlob, Error>, s: Sighting)
  {
    var path := Object(descriptor.sha256);
    && 1 <= a <= |trace| && (ValidDigest(descriptor.sha256) ==> a < |trace|)
    && (r.Ok? ==>
          && r.value == SetupBlob(descriptor, s.file, 0) && ValidDigest(descriptor.sha256)
          && Sighted(stamps, trace, a, path, hash, descriptor, s))
    && (r.Err? ==> FileSays(trace, a, path, hash, descriptor, r.error))
    && (r == Err(Manifest) <==> !ValidDigest(descriptor.sha256))
    && (r == Err(Io) ==> !NoFault(faulty, a, |trace|) || NotThere(trace, a, path))
    && (r == Err(ContentMismatch) ==> Mismatched(hash, trace, a, path, descriptor.sha256, descriptor.byteLen))
    && (r == Err(SourceChanged) ==> stamps && FileMoved(trace, a, path))
    && (LocatedStill(trace, a, path) ==>
          r == FullRead(trace[a], hash, descriptor) || (r == Err(Io) && !NoFault(faulty, a, |trace|)))
  }

  /** The store's renames after a call: those before, and one more of this content, at step `put`. */
  predicate PutOnce(before: map<nat, seq<byte>>, after: map<nat, seq<byte>>, a: nat, put: nat, content: seq<byte>) {
    a <= put && after == before[put := content]
  }

  predicate PutAtMost(before: map<nat, seq<byte>>, after: map<nat, seq<byte>>, a: nat, put: nat, content: seq<byte>) {
    after == before || PutOnce(before, after, a, put, content)
  }

  /** Nothing was renamed, or what was is still there. */
  predicate PutStill(hash: seq<byte> -> string, trace: seq<World>,
                     before: map<nat, seq<byte>>, after: map<nat, seq<byte>>, put: nat)
  {
    after == before || (put in after && ObjectStill(trace, put, Object(hash(after[put]))))
  }

  /** Something was renamed onto a digest that is no object's name. */
  predicate PutUnnamable(hash: seq<byte> -> string, before: map<nat, seq<byte>>, after: map<nat, seq<byte>>, put: nat) {
    after != before && put in after && !ValidDigest(hash(after[put]))
  }

  /** What was renamed was not under its name when it was read back. */
  ghost predicate PutLost(hash: seq<byte> -> string, trace: seq<World>,
                          before: map<nat, seq<byte>>, after: map<nat, seq<byte>>, put: nat)
  {
    after != before && put in after && NotThere(trace, put + 1, Object(hash(after[put])))
  }

  /** The object that was read back was not what was renamed, or changed while it was. */
  predicate PutMismatched(hash: seq<byte> -> string, trace: seq<World>,
                          before: map<nat, seq<byte>>, after: map<nat, seq<byte>>, put: nat)
  {
    && after != before && put in after
    && Mismatched(hash, trace, put + 1, Object(hash(after[put])), hash(after[put]), |after[put]|)
  }

  /** What reading back delivered must have been for the refusal, if anything was renamed. */
  ghost predicate PutSays(hash: seq<byte> -> string, trace: seq<World>,
                          before: map<nat, seq<byte>>, after: map<nat, seq<byte>>, put: nat, error: Error)
  {
    after != before && put in after ==>
      var digest := hash(after[put]);
      |after[put]| <= U64_MAX && FileSays(trace, put + 1, Object(digest), hash, Blob(digest, |after[put]|), error)
  }

  /** The file that was read back changed while it was. */
  ghost predicate PutMoved(hash: seq<byte> -> string, trace: seq<World>,
                           before: map<nat, seq<byte>>, after: map<nat, seq<byte>>, put: nat)
  {
    after != before && put in after && FileMoved(trace, put + 1, Object(hash(after[put])))
  }

  /**
   What publishing bytes under their digest and reading them back may answer: success means
   that they were renamed there and that the name then led to a file holding them.
   */
  ghost predicate PublishOutcome(stamps: bool, faulty: nat -> bool, hash: seq<byte> -> string, trace: seq<World>,
                                 before: map<nat, seq<byte>>, published: map<nat, seq<byte>>, a: nat,
                                 descriptor: Blob, content: seq<byte>, problem: Option<Error>, put: nat, s: Sighting)
  {
    && PutAtMost(before, published, a, put, content)
    && (problem.None? ==>
          && PutOnce(before, published, a, put, content)
          && Sighted(stamps, trace, put + 1, Object(descriptor.sha256), hash, descriptor, s))
    && (published == before ==> problem == Some(Io) && !NoFault(faulty, a, |trace|))
    && (ObjectStill(trace, put, Object(descriptor.sha256)) ==>
          || problem == (if ValidDigest(descriptor.sha256) then None else Some(Manifest))
          || (problem == Some(Io) && !NoFault(faulty, a, |trace|)))
    && (problem.Some? ==> PutSays(hash, trace, before, published, put, problem.value))
    && (problem == Some(Manifest) ==> !ValidDigest(descriptor.sha256))
    && (problem == Some(Io) ==> !NoFault(faulty, a, |trace|) || PutLost(hash, trace, before, published, put))
    && (problem == Some(ContentMismatch) ==> PutMismatched(hash, trace, before, published, put))
    && (problem == Some(SourceChanged) ==> stamps && PutMoved(hash, trace, before, published, put))
  }

  /** What staging gives when nothing else is at work. */
  function FullStage(hash: seq<byte> -> string, descriptor: Blob, content: seq<byte>): Result<(), Error> {
    if !ValidDigest(descriptor.sha256) then Err(Manifest)
    else if !Describes(hash, descriptor, content) then Err(ContentMismatch)
    else Ok(())
  }

  /**
   What `stage` may answer: bytes that do not match are never published; success means that
   the matching bytes were renamed onto their digest and read back from there. Whatever else
   changes: when the renamed object is still there to be read back, or nothing was renamed,
   matching bytes stage and others do not, unless a call failed.
   */
  ghost predicate StageOutcome(stamps: bool, faulty: nat -> bool, hash: seq<byte> -> string, trace: seq<World>,
                               before: map<nat, seq<byte>>, published: map<nat, seq<byte>>, a: nat,
                               descriptor: Blob, content: seq<byte>, r: Result<(), Error>, put: nat, s: Sighting)
  {
    && PutAtMost(before, published, a, put, content)
    && (!Describes(hash, descriptor, content) ==> r.Err? && published == before)
    && (r.Ok? ==>
          && PutOnce(before, published, a, put, content)
          && Sighted(stamps, trace, put + 1, Object(descriptor.sha256), hash, descriptor, s))
    && (published == before || ObjectStill(trace, put, Object(descriptor.sha256)) ==>
          r == FullStage(hash, descriptor, content) || (r == Err(Io) && !NoFault(faulty, a, |trace|)))
    && (r.Err? ==> PutSays(hash, trace, before, published, put, r.error))
    && (r == Err(Manifest) <==> !ValidDigest(descriptor.sha256))
    && (r == Err(Io) ==> !NoFault(faulty, a, |trace|) || PutLost(hash, trace, before, published, put))
    && (r == Err(ContentMismatch) ==>
          !Describes(hash, descriptor, content) || PutMismatched(hash, trace, before, published, put))
    && (r == Err(SourceChanged) ==> stamps && PutMoved(hash, trace, before, published, put))
  }

  /** The file now holds more bytes than a length can count. */
  predicate TooLong(trace: seq<World>, file: FileId) {
    trace != [] && file in trace[|trace| - 1].files && |trace[|trace| - 1].files[file].content| > U64_MAX
  }

  /** What `copy_hashed` of a whole file says, from step `a` on. */
  ghost predicate CopiedWell(faulty: nat -> bool, hash: seq<byte> -> string, trace: seq<World>, a: nat,
                             file: FileId, copied: seq<byte>, d: Result<Blob, Error>)
  {
    && 1 <= a < |trace| && file in trace[a - 1].files && file in trace[|trace| - 1].files
    && (d.Ok? ==>
          && |copied| <= U64_MAX && d.value == Blob(hash(copied), |copied|)
          && HashedSince(trace, a, file, hash, d.value, true))
    && (d.Err? ==> d.error == Io || d.error == ContentMismatch)
    && (d == Err(Io) ==> !NoFault(faulty, a, |trace|))
    && (d == Err(ContentMismatch) ==> TooLong(trace, file))
    && (d.Ok? && SameFile(trace, file, a - 1, |trace| - 1) ==> copied == trace[a - 1].files[file].content)
  }

  /** Copying the file that was stamped at step `seen`, from step `a` on. */
  ghost predicate CopyOutcome(stamps: bool, faulty: nat -> bool, hash: seq<byte> -> string, trace: seq<World>,
                              a: nat, seen: nat, file: FileId, copied: seq<byte>, r: Result<Blob, Error>)
  {
    && seen < a <= |trace| && file in trace[seen].files && file in trace[a - 1].files
    && (r.Ok? ==> |copied| <= U64_MAX && r.value == Blob(hash(copied), |copied|))
    && (r.Ok? ==>
          if stamps then Describes(hash, r.value, trace[seen].files[file].content)
          else HashedSince(trace, a, file, hash, r.value, true))
    && (r == Err(Io) ==> !NoFault(faulty, a, |trace|))
    && (r == Err(ContentMismatch) ==> TooLong(trace, file))
    && (r == Err(SourceChanged) ==> stamps && a < |trace| && MovedBetween(trace, file, seen, |trace| - 1))
    && (r.Err? ==> r.error != Manifest)
    && (SameFile(trace, file, seen, |trace| - 1) && r != Err(Io) ==>
          var content := trace[seen].files[file].content;
          if |content| > U64_MAX then r == Err(ContentMismatch) else r.Ok? && copied == content)
  }

  lemma CopyFails(others: Others, stamps: bool, faulty: nat -> bool, hash: seq<byte> -> string, trace: seq<World>,
                  published: map<nat, seq<byte>>, a: nat, seen: nat, file: FileId, copied: seq<byte>,
                  d: Result<Blob, Error>)
    requires Lawful(others) && IsTrace(others, hash, trace, published)
    requires CopiedWell(faulty, hash, trace, a, file, copied, d) && d.Err?
    requires seen < a && file in trace[seen].files
    ensures CopyOutcome(stamps, faulty, hash, trace, a, seen, file, copied, d)
  {
  }

  /** What `copy_hashed` and the stamp taken behind it come to. */
  lemma CopyEnds(others: Others, stamps: bool, faulty: nat -> bool, hash: seq<byte> -> string,
                 t: seq<World>, t': seq<World>, published: map<nat, seq<byte>>, a: nat, seen: nat, file: FileId,
                 copied: seq<byte>, d: Result<Blob, Error>, r: Result<Blob, Error>)
    requires Lawful(others) && IsTrace(others, hash, t', published)
    requires t <= t' && |t'| == |t| + 1 && CopiedWell(faulty, hash, t, a, file, copied, d) && d.Ok?
    requires seen < a && file in t[seen].files && file in t'[|t|].files
    requires r == if faulty(|t|) then Err(Io)
                  else if stamps ==> t'[|t|].files[file] == t[seen].files[file] then d
                  else Err(SourceChanged)
    ensures CopyOutcome(stamps, faulty, hash, t', a, seen, file, copied, r)
  {
    assert t'[seen] == t[seen] && t'[a - 1] == t[a - 1] && t'[|t| - 1] == t[|t| - 1];
    FileStays(others, hash, t', published, file, seen, a - 1, |t|);
    FileStays(others, hash, t', published, file, a - 1, |t| - 1, |t|);
    HashedStays(t, t', a, a, file, hash, d.value, true);
  }

  /** At most one rename, of the bytes the answer describes. */
  predicate PutDescribed(hash: seq<byte> -> string, before: map<nat, seq<byte>>, after: map<nat, seq<byte>>,
                         a: nat, put: nat, r: Result<Blob, Error>)
  {
    after == before ||
    (put in after && PutOnce(before, after, a, put, after[put]) && (r.Ok? ==> Describes(hash, r.value, after[put])))
  }

  /** Capturing anew the file that was stamped at step `seen`, from step `a` on. */
  ghost predicate AnewOutcome(stamps: bool, faulty: nat -> bool, hash: seq<byte> -> string, trace: seq<World>,
                              before: map<nat, seq<byte>>, published: map<nat, seq<byte>>, a: nat, seen: nat,
                              file: FileId, r: Result<Blob, Error>, put: nat, object': Sighting)
  {
    && seen < a <= |trace| && file in trace[seen].files
    && PutDescribed(hash, before, published, a, put, r)
    && (r.Ok? ==>
          && put in published && PutOnce(before, published, a, put, published[put])
          && Sighted(stamps, trace, put + 1, Object(r.value.sha256), hash, r.value, object')
          && if stamps then Describes(hash, r.value, trace[seen].files[file].content)
             else HashedSince(trace, a, file, hash, r.value, true))
    && (r == Err(Io) ==> !NoFault(faulty, a, |trace|) || PutLost(hash, trace, before, published, put))
    && (r == Err(ContentMismatch) ==>
          (published == before && TooLong(trace, file)) || PutMismatched(hash, trace, before, published, put))
    && (r == Err(SourceChanged) ==>
          && stamps
          && ((seen < |trace| - 1 && MovedBetween(trace, file, seen, |trace| - 1))
              || PutMoved(hash, trace, before, published, put)))
    && (SameFile(trace, file, seen, |trace| - 1) && PutStill(hash, trace, before, published, put) ==>
          || r == Described(trace[seen].files[file].content, hash)
          || (r == Err(Io) && !NoFault(faulty, a, |trace|)))
    && (r.Err? ==> PutSays(hash, trace, before, published, put, r.error))
    && (r == Err(Manifest) ==> PutUnnamable(hash, before, published, put))
  }

  /**
   What `capture` may answer, from step `a` on. The descriptor is that of the bytes in a
   regular file that the path led to during the call, from the cache or not, and its digest's
   name led to a file holding the same. Whatever else changes: when the file that was opened
   does not, and neither does an object that was renamed, the answer is the one full hashing
   gives, unless a call failed.
   */
  ghost predicate CaptureOutcome(stamps: bool, faulty: nat -> bool, hash: seq<byte> -> string, trace: seq<World>,
                                 before: map<nat, seq<byte>>, published: map<nat, seq<byte>>, a: nat, path: Path,
                                 r: Result<Blob, Error>, put: nat, source: Sighting, object': Sighting)
  {
    && 1 <= a < |trace|
    && PutDescribed(hash, before, published, a, put, r)
    && (r.Ok? ==>
          && Sighted(stamps, trace, a, path, hash, r.value, source)
          && Sighted(stamps, trace, a, Object(r.value.sha256), hash, r.value, object'))
    && (r == Err(Io) ==>
          || !NoFault(faulty, a, |trace|) || NotThere(trace, a, path)
          || PutLost(hash, trace, before, published, put))
    && (r == Err(ContentMismatch) ==>
          || (published == before && path in trace[a].links && TooLong(trace, trace[a].links[path]))
          || PutMismatched(hash, trace, before, published, put))
    && (r == Err(SourceChanged) ==>
          stamps && (FileMoved(trace, a, path) || PutMoved(hash, trace, before, published, put)))
    && (LocatedStill(trace, a, path) && PutStill(hash, trace, before, published, put) ==>
          r == FullCapture(trace[a], hash, path) || (r == Err(Io) && !NoFault(faulty, a, |trace|)))
    && (r.Err? ==> PutSays(hash, trace, before, published, put, r.error))
    && (r == Err(Manifest) ==> PutUnnamable(hash, before, published, put))
  }

  // ----- Outcomes of the parts -----

  lemma NotCopied(stamps: bool, faulty: nat -> bool, hash: seq<byte> -> string, trace: seq<World>,
                  published: map<nat, seq<byte>>, a: nat, n: nat, seen: nat, file: FileId,
                  d: Result<Blob, Error>, copied: seq<byte>)
    requires seen < a <= n <= |trace| && d.Err?
    requires CopyOutcome(stamps, faulty, hash, trace, n, seen, file, copied, d)
    ensures AnewOutcome(stamps, faulty, hash, trace, published, published, a, seen, file, d, 0, Sighting(0, 0, 0))
  {
    NoFaultParts(faulty, a, n, |trace|);
  }

  /** What a good copy of the past says of the run that went on. */
  lemma CopiedBefore(others: Others, stamps: bool, faulty: nat -> bool, hash: seq<byte> -> string,
                     t: seq<World>, t': seq<World>, published: map<nat, seq<byte>>, a: nat, seen: nat,
                     file: FileId, copied: seq<byte>, descriptor: Blob)
    requires Lawful(others) && IsTrace(others, hash, t', published) && t <= t'
    requires CopyOutcome(stamps, faulty, hash, t, a, seen, file, copied, Ok(descriptor))
    ensures t'[seen] == t[seen] && |copied| <= U64_MAX && descriptor == Blob(hash(copied), |copied|)
    ensures if stamps then Describes(hash, descriptor, t'[seen].files[file].content)
            else HashedSince(t', a, file, hash, descriptor, true)
    ensures SameFile(t', file, seen, |t'| - 1) ==> copied == t'[seen].files[file].content
  {
    assert t'[seen] == t[seen] && t'[|t| - 1] == t[|t| - 1];
    FileStays(others, hash, t', published, file, seen, |t| - 1, |t'| - 1);
    if !stamps { HashedStays(t, t', a, a, file, hash, descriptor, true); }
  }

  /** A copy made up to step `m` and published from there on. */
  lemma Copied(others: Others, stamps: bool, faulty: nat -> bool, hash: seq<byte> -> string, trace: seq<World>,
               before: map<nat, seq<byte>>, published: map<nat, seq<byte>>, a: nat, n: nat, m: nat, seen: nat,
               file: FileId, descriptor: Blob, copied: seq<byte>, problem: Option<Error>, put: nat, object': Sighting)
    requires Lawful(others) && IsTrace(others, hash, trace, published)
    requires seen < a <= n <= m <= |trace| && forall i :: i in before ==> i < a
    requires CopyOutcome(stamps, faulty, hash, trace[..m], n, seen, file, copied, Ok(descriptor))
    requires PublishOutcome(stamps, faulty, hash, trace, before, published, m,
                            descriptor, copied, problem, put, object')
    ensures AnewOutcome(stamps, faulty, hash, trace, before, published, a, seen, file,
                        if problem.None? then Ok(descriptor) else Err(problem.value), put, object')
  {
    NoFaultParts(faulty, a, n, |trace|);
    NoFaultParts(faulty, n, m, |trace|);
    CopiedBefore(others, stamps, faulty, hash, trace[..m], trace, published, n, seen, file, copied, descriptor);
    if !stamps { HashedStays(trace, trace, n, a, file, hash, descriptor, true); }
  }

  lemma NotFoundCapture(others: Others, stamps: bool, faulty: nat -> bool, hash: seq<byte> -> string,
                        trace: seq<World>, published: map<nat, seq<byte>>, path: Path, a: nat, s: Sighting)
    requires Lawful(others) && IsTrace(others, hash, trace, published)
    requires 1 <= a < |trace| && (!NoFault(faulty, a, |trace|) || NotThere(trace, a, path))
    ensures CaptureOutcome(stamps, faulty, hash, trace, published, published, a, path,
                           Err(Io), 0, s, Sighting(0, 0, 0))
  {
    if NotThere(trace, a, path) && LocatedStill(trace, a, path) {
      NotThereInPlace(others, hash, trace, published, a, path);
    }
  }

  lemma CachedCapture(others: Others, stamps: bool, faulty: nat -> bool, hash: seq<byte> -> string,
                      trace: seq<World>, published: map<nat, seq<byte>>, path: Path, a: nat, descriptor: Blob,
                      blob: Result<SetupBlob, Error>, source: Sighting, object': Sighting)
    requires Lawful(others) && IsTrace(others, hash, trace, published)
    requires 1 <= a && Located(trace, a, path, source) && source.found == a
    requires Describes(hash, descriptor, trace[source.seen].files[source.file].content)
    requires ReadOutcome(stamps, faulty, hash, trace, source.seen + 1, descriptor, blob, object') && blob.Ok? && stamps
    ensures CaptureOutcome(stamps, faulty, hash, trace, published, published, a, path,
                           Ok(descriptor), 0, source, object')
  {
    if LocatedStill(trace, a, path) { LocatedInPlace(others, hash, trace, published, a, path, source); }
  }

  lemma AnewCapture(others: Others, stamps: bool, faulty: nat -> bool, hash: seq<byte> -> string,
                    trace: seq<World>, before: map<nat, seq<byte>>, published: map<nat, seq<byte>>, path: Path,
                    a: nat, n: nat, r: Result<Blob, Error>, put: nat, source: Sighting, object': Sighting)
    requires Lawful(others) && IsTrace(others, hash, trace, published)
    requires 1 <= a && Located(trace, a, path, source) && source.found == a && source.seen < n
    requires AnewOutcome(stamps, faulty, hash, trace, before, published, n, source.seen, source.file, r, put, object')
    ensures CaptureOutcome(stamps, faulty, hash, trace, before, published, a, path, r, put, source, object')
  {
    NoFaultParts(faulty, a, n, |trace|);
    if r.Ok? && !stamps { HashedStays(trace, trace, n, source.seen + 1, source.file, hash, r.value, true); }
    if LocatedStill(trace, a, path) { LocatedInPlace(others, hash, trace, published, a, path, source); }
    if r == Err(SourceChanged) && !PutMoved(hash, trace, before, published, put) {
      LocatedMoved(trace, a, path, source, source.seen);
    }
  }
}
