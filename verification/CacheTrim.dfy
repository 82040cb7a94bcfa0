/** Size-bounded eviction of the object cache: stale temporaries first, then least recently used objects. */
module CacheTrim {
  import opened FieldDiff

  /** A file of the cache directory: object or temporary, last use, path, size. */
  datatype CacheFile = CacheFile(isTemporary: bool, mtime: int, path: string, size: nat)

  predicate Stale(f: CacheFile, staleBefore: int) { f.isTemporary && f.mtime < staleBefore }

  /** A recent temporary may be a store in flight: it is neither counted nor evicted. */
  predicate Considered(f: CacheFile, staleBefore: int) { !f.isTemporary || Stale(f, staleBefore) }

  /** Sort key: stale temporaries before objects, then by last use, then by path. */
  predicate Earlier(a: CacheFile, b: CacheFile) {
    if a.isTemporary != b.isTemporary then a.isTemporary
    else a.mtime < b.mtime || (a.mtime == b.mtime && !Less(b.path, a.path))
  }

  ghost predicate InOrder(s: seq<CacheFile>) {
    forall i, j :: 0 <= i < j < |s| ==> Earlier(s[i], s[j])
  }

  lemma EarlierIsTotalOrder(a: CacheFile, b: CacheFile, c: CacheFile)
    ensures Earlier(a, b) || Earlier(b, a)
    ensures Earlier(a, b) && Earlier(b, c) ==> Earlier(a, c)
  {
    LessTotal(a.path, b.path);
    LessTotal(b.path, c.path);
    LessTotal(a.path, c.path);
    if Less(c.path, a.path) {
      if Less(a.path, b.path) { LessTransitive(c.path, a.path, b.path); }
      if Less(b.path, c.path) { LessTransitive(b.path, c.path, a.path); }
    }
  }

  function Inserted(s: seq<CacheFile>, f: CacheFile): seq<CacheFile> {
    if s == [] || Earlier(f, s[0]) then [f] + s else [s[0]] + Inserted(s[1..], f)
  }

  lemma {:induction false} InsertedKeepsOrder(s: seq<CacheFile>, f: CacheFile)
    requires InOrder(s)
    ensures InOrder(Inserted(s, f)) && multiset(Inserted(s, f)) == multiset(s) + multiset{f}
    decreases |s|
  {
    hide Earlier;
    if s != [] {
      EarlierIsTotalOrder(f, s[0], f);
      if Earlier(f, s[0]) {
        forall i | 0 <= i < |s| ensures Earlier(f, s[i]) {
          EarlierIsTotalOrder(f, s[0], s[i]);
        }
      } else {
        InsertedKeepsOrder(s[1..], f);
        assert s == [s[0]] + s[1..];
        var t := Inserted(s[1..], f);
        forall i | 0 <= i < |t| ensures Earlier(s[0], t[i]) {
          assert t[i] in multiset(t);
          if t[i] != f {
            assert t[i] in multiset(s[1..]);
            var k :| 0 <= k < |s[1..]| && s[1..][k] == t[i];
            assert s[k + 1] == t[i];
          }
        }
      }
    }
  }

  /** The entries the trim works on, in eviction order. */
  method Entries(files: seq<CacheFile>, staleBefore: int) returns (entries: seq<CacheFile>)
    ensures InOrder(entries)
    ensures multiset(entries) == multiset(Kept(files, staleBefore))
  {
    hide Inserted, InOrder;
    entries := [];
    assert InOrder(entries) by { NoneInOrder(); }
    for i := 0 to |files|
      invariant InOrder(entries) && multiset(entries) == multiset(Kept(files[..i], staleBefore))
    {
      assert files[..i + 1][..i] == files[..i];
      if Considered(files[i], staleBefore) {
        InsertedKeepsOrder(entries, files[i]);
        entries := Inserted(entries, files[i]);
      }
    }
    assert files[..|files|] == files;
  }

  lemma NoneInOrder()
    ensures InOrder([])
  {
  }

  /** The considered files, in directory order. */
  function Kept(files: seq<CacheFile>, staleBefore: int): seq<CacheFile> {
    if files == [] then []
    else
      Kept(files[..|files| - 1], staleBefore)
      + if Considered(files[|files| - 1], staleBefore) then [files[|files| - 1]] else []
  }

  lemma {:induction false} InKept(files: seq<CacheFile>, staleBefore: int, f: CacheFile)
    ensures f in Kept(files, staleBefore) <==> f in files && (f.isTemporary ==> f.mtime < staleBefore)
    decreases |files|
  {
    if files != [] {
      var n := |files| - 1;
      assert files == files[..n] + [files[n]];
      InKept(files[..n], staleBefore, f);
    }
  }

  /** A temporary that is not yet stale is no entry, and no path of a file that is none is removed. */
  lemma RecentTemporariesSurvive(files: seq<CacheFile>, staleBefore: int, entries: seq<CacheFile>, tried: nat,
                                 removable: string -> bool, f: CacheFile)
    requires multiset(entries) == multiset(Kept(files, staleBefore)) && tried <= |entries|
    requires f in files && f.isTemporary && f.mtime >= staleBefore
    requires forall g :: g in files && g.path == f.path ==> g == f
    ensures f !in entries && !Evicted(entries, tried, removable, f.path)
  {
    forall i | 0 <= i < |entries| ensures entries[i] in files && entries[i] != f {
      assert entries[i] in multiset(entries);
      assert entries[i] in Kept(files, staleBefore);
      InKept(files, staleBefore, entries[i]);
    }
  }

  /** Every object and every stale temporary is an entry. */
  lemma OthersAreEntries(files: seq<CacheFile>, staleBefore: int, entries: seq<CacheFile>, f: CacheFile)
    requires multiset(entries) == multiset(Kept(files, staleBefore))
    requires f in files && (f.isTemporary ==> f.mtime < staleBefore)
    ensures f in entries
  {
    InKept(files, staleBefore, f);
    assert f in multiset(entries);
  }

  /** Sizes of the entries among the first `n` that could be removed. */
  ghost function Freed(entries: seq<CacheFile>, n: nat, removable: string -> bool): nat
    requires n <= |entries|
  {
    if n == 0 then 0
    else Freed(entries, n - 1, removable) + if removable(entries[n - 1].path) then entries[n - 1].size else 0
  }

  function TotalSize(entries: seq<CacheFile>): nat {
    if entries == [] then 0 else TotalSize(entries[..|entries| - 1]) + entries[|entries| - 1].size
  }

  /** What is still counted after the first `n` entries were tried. */
  ghost function Remaining(entries: seq<CacheFile>, n: nat, removable: string -> bool): int
    requires n <= |entries|
  {
    TotalSize(entries) - Freed(entries, n, removable)
  }

  ghost predicate Evicted(entries: seq<CacheFile>, n: nat, removable: string -> bool, path: string)
    requires n <= |entries|
  {
    exists i :: 0 <= i < n && entries[i].path == path && removable(path)
  }

  /**
   `object_cache_trim`: some prefix of the eviction order is tried. It goes on while the entry is a stale
   temporary or the count is over the limit, and stops at the first entry that is neither.
   */
  method Trim(files: seq<CacheFile>, staleBefore: int, limit: nat, removable: string -> bool)
    returns (entries: seq<CacheFile>, tried: nat, removed: seq<string>)
    ensures InOrder(entries) && multiset(entries) == multiset(Kept(files, staleBefore)) && tried <= |entries|
    ensures forall k :: 0 <= k < tried ==> entries[k].isTemporary || Remaining(entries, k, removable) > limit
    ensures tried < |entries| ==> !entries[tried].isTemporary && Remaining(entries, tried, removable) <= limit
    ensures forall path :: path in removed <==> Evicted(entries, tried, removable, path)
  {
    hide InOrder, Kept, TotalSize;
    entries := Entries(files, staleBefore);
    var total: int := TotalSize(entries);
    tried, removed := 0, [];
    while tried < |entries|
      invariant tried <= |entries| && total == Remaining(entries, tried, removable)
      invariant forall k :: 0 <= k < tried ==> entries[k].isTemporary || Remaining(entries, k, removable) > limit
      invariant forall path :: path in removed <==> Evicted(entries, tried, removable, path)
    {
      var e := entries[tried];
      if total <= limit && !e.isTemporary {
        return;
      }
      ghost var before := tried;
      if removable(e.path) {
        removed := removed + [e.path];
        total := total - e.size;
      }
      tried := tried + 1;
      forall path ensures Evicted(entries, tried, removable, path)
                     <==> (Evicted(entries, before, removable, path) || (path == e.path && removable(path))) {
      }
    }
  }

  /**
   Without I/O failures: every stale temporary goes, what remains is within the limit, and objects go in
   least-recently-used order, each only while the count was still over the limit.
   */
  lemma TrimWithoutFailures(entries: seq<CacheFile>, tried: nat, limit: nat, removable: string -> bool)
    requires InOrder(entries) && tried <= |entries| && forall path :: removable(path)
    requires forall k :: 0 <= k < tried ==> entries[k].isTemporary || Remaining(entries, k, removable) > limit
    requires tried < |entries| ==> !entries[tried].isTemporary && Remaining(entries, tried, removable) <= limit
    ensures forall i :: 0 <= i < |entries| && entries[i].isTemporary ==> Evicted(entries, tried, removable, entries[i].path)
    ensures TotalSize(entries[tried..]) <= limit
    ensures forall i, j :: 0 <= i < tried <= j < |entries| && !entries[i].isTemporary ==> entries[i].mtime <= entries[j].mtime
    ensures forall i :: 0 <= i < tried && !entries[i].isTemporary ==> TotalSize(entries[i..]) > limit
  {
    TemporariesFirst(entries, tried);
    forall i | 0 <= i <= |entries| ensures TotalSize(entries[i..]) == Remaining(entries, i, removable) {
      RemainingIsTail(entries, i, removable);
    }
    assert entries[|entries|..] == [];
    forall i, j | 0 <= i < tried <= j < |entries| && !entries[i].isTemporary ensures entries[i].mtime <= entries[j].mtime {
      assert Earlier(entries[i], entries[j]);
      assert tried < j ==> Earlier(entries[tried], entries[j]);
    }
  }

  lemma TemporariesFirst(entries: seq<CacheFile>, tried: nat)
    requires InOrder(entries) && tried <= |entries| && (tried < |entries| ==> !entries[tried].isTemporary)
    ensures forall i :: tried <= i < |entries| ==> !entries[i].isTemporary
  {
  }

  lemma {:induction false} RemainingIsTail(entries: seq<CacheFile>, n: nat, removable: string -> bool)
    requires n <= |entries| && forall path :: removable(path)
    ensures TotalSize(entries[n..]) == Remaining(entries, n, removable)
    decreases n
  {
    if n == 0 {
      assert entries[0..] == entries;
    } else {
      RemainingIsTail(entries, n - 1, removable);
      assert entries[n - 1..] == [entries[n - 1]] + entries[n..];
      HeadSize(entries[n - 1], entries[n..]);
    }
  }

  lemma {:induction false} HeadSize(e: CacheFile, rest: seq<CacheFile>)
    ensures TotalSize([e] + rest) == e.size + TotalSize(rest)
    decreases |rest|
  {
    var s := [e] + rest;
    if rest == [] {
      assert s[..0] == [];
    } else {
      HeadSize(e, rest[..|rest| - 1]);
      assert s[..|s| - 1] == [e] + rest[..|rest| - 1];
    }
  }
}
