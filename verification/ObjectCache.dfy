/**
 The content-addressed cache of compiled objects and the concurrent compilation that may use it. The
 compiler, the cache key and the digest are parameters; other builds may change the cache at any time.
 */
module ObjectCache {
  import opened Basics

  const KEY_LENGTH: nat := 64
  const MAGIC: seq<Byte> := [83, 69, 71, 79, 66, 74, 50, 10]   // "SEGOBJ2\n"
  const NEWLINE: seq<Byte> := [10]

  type Digest = d: seq<Byte> | |d| == 64 witness seq(64, i => 0 as Byte)

  /** A cache key is the hex text of a SHA-256 digest. */
  type Key = k: seq<Byte> | |k| == KEY_LENGTH witness seq(KEY_LENGTH, i => 0 as Byte)

  /** What a compiler run gives: an object file, or diagnostics. */
  datatype Outcome = Object(data: seq<Byte>) | Failure(stderr: string)

  /** The build: per-job compile result and cache key (None: uncacheable), and the digest. */
  datatype Build<!Job(!new)> = Build(compile: Job -> Outcome, key: Job -> Option<Key>, digest: seq<Byte> -> Digest)

  /** The key covers everything the object depends on. */
  ghost predicate KeysSound<Job(!new)>(b: Build<Job>) {
    forall i: Job, j: Job :: b.key(i).Some? && b.key(i) == b.key(j) ==> b.compile(i) == b.compile(j)
  }

  // ----- entries ------------------------------------------------------------------------------------------

  function Header<Job(!new)>(b: Build<Job>, key: Key, data: seq<Byte>): (h: seq<Byte>)
    ensures |h| == HeadLength(key)
  {
    MAGIC + key + NEWLINE + b.digest(data) + NEWLINE
  }

  function HeadLength(key: Key): (n: nat)
    ensures n == 138
  {
    |MAGIC| + |key| + 1 + 64 + 1
  }

  function EntryOf<Job(!new)>(b: Build<Job>, key: Key, data: seq<Byte>): seq<Byte> {
    Header(b, key, data) + data
  }

  /** A blob is accepted for a key: full-length key, nonempty object, and the exact header of that object. */
  predicate Verifies<Job(!new)>(b: Build<Job>, blob: seq<Byte>, key: Key) {
    && |blob| > HeadLength(key) && |key| == KEY_LENGTH
    && blob[..HeadLength(key)] == Header(b, key, blob[HeadLength(key)..])
  }

  /** A stored entry verifies for its key, unless the object is empty, and for no other key. */
  lemma StoredEntryVerifies<Job(!new)>(b: Build<Job>, key: Key, data: seq<Byte>)
    ensures Verifies(b, EntryOf(b, key, data), key) <==> data != []
  {
  }

  lemma VerifiedKeyIsUnique<Job(!new)>(b: Build<Job>, blob: seq<Byte>, key: Key, other: Key)
    requires Verifies(b, blob, key) && Verifies(b, blob, other)
    ensures key == other
  {
    assert key == blob[..HeadLength(key)][8..72];
    assert other == blob[..HeadLength(other)][8..72];
    assert blob[..HeadLength(key)] == blob[..HeadLength(other)];
  }

  ghost predicate Injective(digest: seq<Byte> -> Digest) {
    forall p: seq<Byte>, q: seq<Byte> :: digest(p) == digest(q) ==> p == q
  }

  /** With an injective digest the header of a stored object accepts no other object. */
  lemma HeaderPinsObject<Job(!new)>(b: Build<Job>, key: Key, blob: seq<Byte>, data: seq<Byte>)
    requires Injective(b.digest) && Verifies(b, blob, key)
    requires blob[..HeadLength(key)] == EntryOf(b, key, data)[..HeadLength(key)]
    ensures blob == EntryOf(b, key, data)
  {
    var rest := blob[HeadLength(key)..];
    assert Header(b, key, rest) == Header(b, key, data);
    assert Header(b, key, rest)[73..137] == b.digest(rest) && Header(b, key, data)[73..137] == b.digest(data);
    assert blob == blob[..HeadLength(key)] + rest;
  }

  /** A stored entry cut short anywhere is never loaded. */
  lemma TruncatedEntryIsRejected<Job(!new)>(b: Build<Job>, key: Key, data: seq<Byte>, n: nat)
    requires Injective(b.digest) && n < |EntryOf(b, key, data)|
    ensures !Verifies(b, EntryOf(b, key, data)[..n], key)
  {
    hide Header, Injective;
    var blob := EntryOf(b, key, data)[..n];
    if Verifies(b, blob, key) {
      assert blob[..HeadLength(key)] == EntryOf(b, key, data)[..HeadLength(key)];
      HeaderPinsObject(b, key, blob, data);
    }
  }

  /** A stored entry whose object was changed in any way is never loaded. */
  lemma ChangedObjectIsRejected<Job(!new)>(b: Build<Job>, key: Key, data: seq<Byte>, changed: seq<Byte>)
    requires Injective(b.digest) && changed != data
    ensures !Verifies(b, Header(b, key, data) + changed, key)
  {
    hide Header, Injective;
    var blob := Header(b, key, data) + changed;
    if Verifies(b, blob, key) {
      assert blob[..HeadLength(key)] == Header(b, key, data) == EntryOf(b, key, data)[..HeadLength(key)];
      HeaderPinsObject(b, key, blob, data);
    }
  }

  /** An entry that lies under another key's path is never loaded. */
  lemma ForeignEntryIsRejected<Job(!new)>(b: Build<Job>, key: Key, other: Key, data: seq<Byte>)
    requires other != key
    ensures !Verifies(b, EntryOf(b, key, data), other)
  {
    hide Header;
    if Verifies(b, EntryOf(b, key, data), other) {
      StoredEntryVerifies(b, key, data);
      VerifiedKeyIsUnique(b, EntryOf(b, key, data), key, other);
    }
  }

  /** The object was made by a successful compilation of some job with that key. */
  ghost predicate MadeBy<Job(!new)>(b: Build<Job>, key: Key, data: seq<Byte>) {
    exists j: Job :: b.key(j) == Some(key) && b.compile(j) == Object(data)
  }

  ghost predicate HonestBlob<Job(!new)>(b: Build<Job>, blob: seq<Byte>) {
    forall key: Key :: Verifies(b, blob, key) ==> MadeBy(b, key, blob[HeadLength(key)..])
  }

  /** Entries by the key naming their path. Only what verifies must be genuine; the rest may be anything. */
  type Files = map<Key, seq<Byte>>

  ghost predicate Honest<Job(!new)>(b: Build<Job>, files: Files) {
    forall k :: k in files ==> HonestBlob(b, files[k])
  }

  lemma StoreIsHonest<Job(!new)>(b: Build<Job>, j: Job, data: seq<Byte>)
    requires b.key(j).Some? && b.compile(j) == Object(data)
    ensures HonestBlob(b, EntryOf(b, b.key(j).value, data))
  {
    var key := b.key(j).value;
    var blob := EntryOf(b, key, data);
    forall other: Key | Verifies(b, blob, other) ensures MadeBy(b, other, blob[HeadLength(other)..]) {
      StoredEntryVerifies(b, key, data);
      assert blob[HeadLength(other)..] == data;
      if data != [] {
        VerifiedKeyIsUnique(b, blob, key, other);
      }
    }
  }

  /** Which file operations succeed: reading an entry, writing the destination, removing an entry, storing one. */
  datatype FileAccess = FileAccess(read: bool, write: bool, remove: bool, store: bool)

  /** What interrupted writes, disk errors and older versions leave behind, told without the check itself. */
  ghost predicate Damaged<Job(!new)>(b: Build<Job>, blob: seq<Byte>) {
    || (exists key: Key, data, n: nat :: n < |EntryOf(b, key, data)| && blob == EntryOf(b, key, data)[..n])
    || (exists key: Key, data, changed :: changed != data && blob == Header(b, key, data) + changed)
    || !(MAGIC <= blob)
  }

  /** A whole entry some build stored for an object it had compiled. */
  ghost predicate Genuine<Job(!new)>(b: Build<Job>, blob: seq<Byte>) {
    exists key: Key, data :: MadeBy(b, key, data) && blob == EntryOf(b, key, data)
  }

  /** A cache of genuine and damaged entries, under whatever paths, is honest: the check tells them apart. */
  lemma DamagedCacheIsHonest<Job(!new)>(b: Build<Job>, files: Files)
    requires Injective(b.digest)
    requires forall k :: k in files ==> Genuine(b, files[k]) || Damaged(b, files[k])
    ensures Honest(b, files)
  {
    hide Injective, Genuine, Damaged, HonestBlob;
    forall k | k in files ensures HonestBlob(b, files[k]) {
      if Genuine(b, files[k]) {
        GenuineIsHonest(b, files[k]);
      } else {
        DamagedIsRejected(b, files[k]);
        NothingVerified(b, files[k]);
      }
    }
  }

  lemma NothingVerified<Job(!new)>(b: Build<Job>, blob: seq<Byte>)
    requires forall key: Key :: !Verifies(b, blob, key)
    ensures HonestBlob(b, blob)
  {
    hide Verifies;
  }

  lemma GenuineIsHonest<Job(!new)>(b: Build<Job>, blob: seq<Byte>)
    requires Genuine(b, blob)
    ensures HonestBlob(b, blob)
  {
    hide Header, MadeBy, Verifies;
    var key: Key, data :| MadeBy(b, key, data) && blob == EntryOf(b, key, data);
    forall other: Key | Verifies(b, blob, other) ensures MadeBy(b, other, blob[HeadLength(other)..]) {
      StoredEntryVerifies(b, key, data);
      NotEmpty(b, key, data, other);
      VerifiedKeyIsUnique(b, blob, key, other);
      assert blob[HeadLength(other)..] == data;
    }
  }

  lemma NotEmpty<Job(!new)>(b: Build<Job>, key: Key, data: seq<Byte>, other: Key)
    requires Verifies(b, EntryOf(b, key, data), other)
    ensures data != []
  {
    hide Header;
  }

  /** No damaged entry verifies under any key. */
  lemma DamagedIsRejected<Job(!new)>(b: Build<Job>, blob: seq<Byte>)
    requires Injective(b.digest) && Damaged(b, blob)
    ensures forall other: Key :: !Verifies(b, blob, other)
  {
    hide Injective, Header, Verifies;
    forall other: Key ensures !Verifies(b, blob, other) {
      if Verifies(b, blob, other) {
        VerifiedShape(b, blob, other);
        if key: Key, data, n: nat :| n < |EntryOf(b, key, data)| && blob == EntryOf(b, key, data)[..n] {
          assert blob[..HeadLength(key)] == Header(b, key, data);
          SameKeyBytes(b, key, data, blob, other);
          TruncatedEntryIsRejected(b, key, data, n);
        } else if key: Key, data, changed :| changed != data && blob == Header(b, key, data) + changed {
          assert blob[..HeadLength(key)] == Header(b, key, data);
          SameKeyBytes(b, key, data, blob, other);
          ChangedObjectIsRejected(b, key, data, changed);
        }
      }
    }
  }

  lemma VerifiedShape<Job(!new)>(b: Build<Job>, blob: seq<Byte>, key: Key)
    requires Verifies(b, blob, key)
    ensures |blob| > HeadLength(key) && blob[8..72] == key && MAGIC <= blob
  {
    assert blob[..HeadLength(key)][8..72] == blob[8..72];
    assert blob[..HeadLength(key)][..8] == blob[..8];
  }

  /** The key can be read off the header. */
  lemma SameKeyBytes<Job(!new)>(b: Build<Job>, key: Key, data: seq<Byte>, blob: seq<Byte>, other: Key)
    requires Verifies(b, blob, other) && blob[..HeadLength(key)] == Header(b, key, data)
    ensures key == other
  {
    VerifiedShape(b, blob, other);
    assert blob[..HeadLength(key)][8..72] == blob[8..72];
  }

  // ----- the cache object ----------------------------------------------------------------------------------

  class ObjectCache {
    var files: Files
    var rejected: nat

    constructor (files: Files)
      ensures this.files == files && rejected == 0
    {
      this.files, rejected := files, 0;
    }

    /** `object_cache_load`: a verified object, or nothing; an entry that was read and does not verify is removed,
        if it can be. */
    method Load<Job(!new)>(b: Build<Job>, key: Key, can: FileAccess) returns (data: Option<seq<Byte>>)
      modifies this
      ensures data.Some? <==> can.read && can.write && key in old(files) && Verifies(b, old(files)[key], key)
      ensures data.Some? ==> EntryOf(b, key, data.value) == old(files)[key]
      ensures files ==
        if can.read && can.remove && key in old(files) && !Verifies(b, old(files)[key], key) then old(files) - {key}
        else old(files)
    {
      if !can.read || key !in files {
        return None;
      }
      var blob := files[key];
      if Verifies(b, blob, key) {
        if !can.write {
          return None;
        }
        var d := blob[HeadLength(key)..];
        assert EntryOf(b, key, d) == blob[..HeadLength(key)] + blob[HeadLength(key)..] == blob;
        return Some(d);
      }
      rejected := rejected + 1;
      if can.remove {
        files := files - {key};
      }
      data := None;
    }

    /** `object_cache_store`: replace the entry, or leave the cache alone when that fails. */
    method Store<Job(!new)>(b: Build<Job>, key: Key, data: seq<Byte>, can: FileAccess)
      modifies this
      ensures files == if can.store then old(files)[key := EntryOf(b, key, data)] else old(files)
    {
      if can.store {
        files := files[key := EntryOf(b, key, data)];
      }
    }
  }

  /** A load from an honest cache gives what compiling the job would give. */
  lemma LoadIsCompile<Job(!new)>(b: Build<Job>, j: Job, blob: seq<Byte>, data: seq<Byte>)
    requires KeysSound(b) && HonestBlob(b, blob) && b.key(j).Some?
    requires Verifies(b, blob, b.key(j).value) && EntryOf(b, b.key(j).value, data) == blob
    ensures b.compile(j) == Object(data)
  {
  }

  // ----- concurrent compilation --------------------------------------------------------------------------------

  /** Where one worker stands: about to load, to compile, to store, or finished. */
  datatype Phase = Waiting | Missed | Compiled(object: seq<Byte>) | Done(outcome: Outcome)

  /** Everything outside the build: which worker moves, how late a batch is looked at, what other builds do, and which file operations fail. */
  datatype World = World(
    pick: nat -> nat, linger: nat -> bool, interfere: (nat, Files) -> Files, can: nat -> FileAccess)

  /** Other builds may add, evict, truncate or misplace entries, but only genuine ones verify. */
  ghost predicate WorldHonest<Job(!new)>(b: Build<Job>, w: World) {
    forall n: nat, files: Files :: Honest(b, files) ==> Honest(b, w.interfere(n, files))
  }

  /** What every interleaving keeps: a finished worker holds its job's own compile result. */
  ghost predicate PhaseTrue<Job(!new)>(b: Build<Job>, j: Job, p: Phase) {
    match p
    case Waiting => true
    case Missed => true
    case Compiled(data) => b.key(j).Some? && b.compile(j) == Object(data)
    case Done(outcome) => outcome == b.compile(j)
  }

  function Rank(p: Phase): nat {
    match p
    case Waiting => 3
    case Missed => 2
    case Compiled(_) => 1
    case Done(_) => 0
  }

  /** One step of worker `i`, at time `n`. */
  method WorkerStep<Job(!new)>(b: Build<Job>, w: World, n: nat, cache: ObjectCache, j: Job, p: Phase) returns (q: Phase)
    requires KeysSound(b) && Honest(b, cache.files) && PhaseTrue(b, j, p) && !p.Done?
    modifies cache
    ensures Honest(b, cache.files) && PhaseTrue(b, j, q) && Rank(q) < Rank(p)
  {
    hide Verifies, EntryOf, HonestBlob;
    match p
    case Waiting =>
      if b.key(j).None? {
        return Missed;
      }
      ghost var before := cache.files;
      var loaded := cache.Load(b, b.key(j).value, w.can(n));
      if loaded.Some? {
        LoadIsCompile(b, j, before[b.key(j).value], loaded.value);
        return Done(Object(loaded.value));
      }
      q := Missed;
    case Missed =>
      var outcome := b.compile(j);
      q := if outcome.Object? && b.key(j).Some? then Compiled(outcome.data) else Done(outcome);
    case Compiled(data) =>
      StoreIsHonest(b, j, data);
      cache.Store(b, b.key(j).value, data, w.can(n));
      q := Done(Object(data));
  }

  ghost function Work(phases: seq<Phase>): nat {
    if phases == [] then 0 else Work(phases[..|phases| - 1]) + Rank(phases[|phases| - 1])
  }

  lemma {:induction false} WorkDrops(phases: seq<Phase>, i: nat, q: Phase)
    requires i < |phases| && Rank(q) < Rank(phases[i])
    ensures Work(phases[i := q]) < Work(phases)
    decreases |phases|
  {
    var n := |phases| - 1;
    if i < n {
      WorkDrops(phases[..n], i, q);
      assert phases[i := q][..n] == phases[..n][i := q];
    } else {
      assert phases[i := q][..n] == phases[..n];
    }
  }

  /** First unfinished worker from `from` on, cyclically. */
  method NextWorker(phases: seq<Phase>, from: nat) returns (i: nat)
    requires exists k :: 0 <= k < |phases| && !phases[k].Done?
    ensures i < |phases| && !phases[i].Done?
  {
    i := from % |phases|;
    ghost var k :| 0 <= k < |phases| && !phases[k].Done?;
    ghost var start, wrapped := i, false;
    while phases[i].Done?
      invariant i < |phases|
      invariant !wrapped ==> i >= start && forall l :: start <= l < i ==> phases[l].Done?
      invariant wrapped ==> (forall l :: start <= l < |phases| ==> phases[l].Done?) && forall l :: 0 <= l < i ==> phases[l].Done?
      decreases if wrapped then 0 else 1, |phases| - i
    {
      if i + 1 == |phases| {
        i := 0;
        wrapped := true;
      } else {
        i := i + 1;
      }
    }
  }

  /** The outcome of the same jobs without any cache. */
  ghost predicate Uncached<Job(!new)>(b: Build<Job>, jobs: seq<Job>, objects: seq<seq<Byte>>) {
    |objects| == |jobs| && forall i :: 0 <= i < |jobs| ==> b.compile(jobs[i]) == Object(objects[i])
  }

  ghost predicate AllTrue<Job(!new)>(b: Build<Job>, jobs: seq<Job>, phases: seq<Phase>) {
    |phases| == |jobs| && forall i :: 0 <= i < |jobs| ==> PhaseTrue(b, jobs[i], phases[i])
  }

  predicate AnyUnfinished(phases: seq<Phase>) {
    exists k :: 0 <= k < |phases| && !phases[k].Done?
  }

  /** Finished workers whose result has not been looked at yet. */
  function Batch(phases: seq<Phase>, seen: set<nat>): set<nat> {
    set i: nat | i < |phases| && phases[i].Done? && i !in seen
  }

  /** The lowest failing job of a batch. */
  method LowestFailure(phases: seq<Phase>, batch: set<nat>) returns (i: Option<nat>)
    requires forall k :: k in batch ==> k < |phases| && phases[k].Done?
    ensures i.Some? ==> i.value in batch && phases[i.value].outcome.Failure?
    ensures forall k :: k in batch && (i.Some? ==> k < i.value) ==> phases[k].outcome.Object?
  {
    for k := 0 to |phases|
      invariant forall l :: l in batch && l < k ==> phases[l].outcome.Object?
    {
      if k in batch && phases[k].outcome.Failure? {
        return Some(k);
      }
    }
    i := None;
  }

  method CollectObjects(phases: seq<Phase>) returns (objects: seq<seq<Byte>>)
    requires forall i :: 0 <= i < |phases| ==> phases[i].Done? && phases[i].outcome.Object?
    ensures |objects| == |phases| && forall i :: 0 <= i < |phases| ==> phases[i].outcome == Object(objects[i])
  {
    objects := [];
    for i := 0 to |phases|
      invariant |objects| == i && forall k :: 0 <= k < i ==> phases[k].outcome == Object(objects[k])
    {
      objects := objects + [phases[i].outcome.data];
    }
  }

  /**
   `compile_objects` with a cache. For every honest cache (cold, warm, truncated, foreign), every interleaving
   of the workers and every failing file operation: success exactly when every job compiles, then with the
   objects an uncached build gives, in job order; otherwise the diagnostics of a job that does not compile.
   The cache stays honest.
   */
  method CompileObjects<Job(!new)>(b: Build<Job>, w: World, cache: ObjectCache, jobs: seq<Job>)
    returns (objects: seq<seq<Byte>>, error: Option<string>)
    requires KeysSound(b) && WorldHonest(b, w) && Honest(b, cache.files)
    modifies cache
    ensures Honest(b, cache.files)
    ensures error.None? <==> forall i :: 0 <= i < |jobs| ==> b.compile(jobs[i]).Object?
    ensures error.None? ==> Uncached(b, jobs, objects)
    ensures error.Some? ==> objects == [] && exists i :: 0 <= i < |jobs| && b.compile(jobs[i]) == Failure(error.value)
  {
    hide KeysSound, WorldHonest, Honest, Work;
    var phases: seq<Phase> := seq(|jobs|, i => Waiting);
    var seen: set<nat>, n: nat := {}, 0;
    while |seen| < |jobs|
      invariant Honest(b, cache.files) && AllTrue(b, jobs, phases)
      invariant forall k :: k in seen ==> k < |phases| && phases[k].Done? && phases[k].outcome.Object?
      invariant SeenFits(seen, |jobs|)
      decreases Work(phases), |jobs| - |seen|
    {
      var batch := Batch(phases, seen);
      if AnyUnfinished(phases) && (batch == {} || w.linger(n)) {
        phases := Advance(b, w, n, cache, jobs, phases);
        n := n + 1;
      } else {
        BatchIsThere(phases, seen, batch);
        var failed := LowestFailure(phases, batch);
        if failed.Some? {
          return [], Some(phases[failed.value].outcome.stderr);
        }
        SeenGrows(seen, batch, |jobs|);
        seen := seen + batch;
      }
    }
    SeenAll(seen, |jobs|);
    objects := CollectObjects(phases);
    error := None;
  }

  ghost predicate SeenFits(seen: set<nat>, n: nat) {
    (forall k :: k in seen ==> k < n) && |seen| <= n
  }

  lemma SeenGrows(seen: set<nat>, batch: set<nat>, n: nat)
    requires SeenFits(seen, n) && batch !! seen && batch != {} && forall k :: k in batch ==> k < n
    ensures SeenFits(seen + batch, n) && |seen + batch| > |seen|
  {
    BelowBound(seen + batch, n);
    assert |seen + batch| == |seen| + |batch|;
  }

  /** A set of numbers below `n` has at most `n` elements, and `n` only if it holds them all. */
  lemma {:induction false} BelowBound(s: set<nat>, n: nat)
    requires forall k :: k in s ==> k < n
    ensures |s| <= n
    ensures |s| == n ==> forall k: nat :: k < n ==> k in s
    decreases n
  {
    if n > 0 {
      BelowBound(s - {n - 1}, n - 1);
      assert n - 1 in s ==> |s| == |s - {n - 1}| + 1;
      assert n - 1 !in s ==> s - {n - 1} == s;
      if |s| == n {
        forall k: nat | k < n ensures k in s {
          assert k < n - 1 ==> k in s - {n - 1};
        }
      }
    } else {
      assert s == {};
    }
  }

  lemma SeenAll(seen: set<nat>, n: nat)
    requires SeenFits(seen, n) && |seen| >= n
    ensures forall k: nat :: k < n ==> k in seen
  {
    BelowBound(seen, n);
  }

  /** When no worker is left to move, some finished one has not been looked at. */
  lemma BatchIsThere(phases: seq<Phase>, seen: set<nat>, batch: set<nat>)
    requires SeenFits(seen, |phases|) && |seen| < |phases| && batch == Batch(phases, seen)
    requires !AnyUnfinished(phases) || batch != {}
    ensures batch != {} && batch !! seen
  {
    if forall k: nat :: k < |phases| ==> k in seen {
      AllBelowCount(seen, |phases|);
    } else {
      var k: nat :| k < |phases| && k !in seen;
      assert phases[k].Done? ==> k in batch;
    }
  }

  lemma {:induction false} AllBelowCount(s: set<nat>, n: nat)
    requires forall k: nat :: k < n ==> k in s
    ensures |s| >= n
    decreases n
  {
    if n > 0 {
      AllBelowCount(s - {n - 1}, n - 1);
    }
  }

  /** Other builds act, then one worker takes one step. */
  method Advance<Job(!new)>(b: Build<Job>, w: World, n: nat, cache: ObjectCache, jobs: seq<Job>, phases: seq<Phase>)
    returns (next: seq<Phase>)
    requires KeysSound(b) && WorldHonest(b, w) && Honest(b, cache.files)
    requires AllTrue(b, jobs, phases) && AnyUnfinished(phases)
    modifies cache
    ensures Honest(b, cache.files) && AllTrue(b, jobs, next) && Work(next) < Work(phases)
    ensures forall k :: 0 <= k < |phases| && phases[k].Done? ==> next[k] == phases[k]
  {
    hide KeysSound, Honest, Work, PhaseTrue;
    cache.files := w.interfere(n, cache.files);
    var i := NextWorker(phases, w.pick(n));
    var q := WorkerStep(b, w, n, cache, jobs[i], phases[i]);
    WorkDrops(phases, i, q);
    next := phases[i := q];
  }
}
