/**
 The activation signature of a Z80 image epoch: the maximal written runs of the sound RAM with their bytes,
 fed to a digest. The digest input is proved to determine the written bitmap and every written byte.
 */
module EpochSignature {
  import opened Basics

  const RAM_BYTES: nat := 8192
  const TAG: string := "segarecomp.genesis.z80.signature.v1.extents"

  type Ram = r: seq<Byte> | |r| == RAM_BYTES witness seq(RAM_BYTES, i => 0 as Byte)
  type Bitmap = w: seq<Byte> | |w| == RAM_BYTES / 8 witness seq(RAM_BYTES / 8, i => 0 as Byte)

  /** Offset `i` was written: bit `i % 8` of byte `i / 8`. */
  predicate Written(w: Bitmap, i: nat)
    requires i < RAM_BYTES
  {
    Bit(w[i / 8], i % 8)
  }

  /** Bits count from the least significant end of each byte. */
  lemma WrittenMeans(w: Bitmap, i: nat)
    requires i < RAM_BYTES
    ensures Written(w, i) <==> w[i / 8] as nat / Pow2(i % 8) % 2 == 1
  {
    BitIs(w[i / 8], i % 8);
  }

  // ----- extents ---------------------------------------------------------------------------------------------

  datatype Extent = Extent(offset: nat, length: nat)

  function End(e: Extent): nat { e.offset + e.length }

  /** A nonempty run of written offsets that cannot grow on either side. */
  ghost predicate MaximalRun(w: Bitmap, e: Extent) {
    && e.length > 0 && End(e) <= RAM_BYTES
    && (forall i :: e.offset <= i < End(e) ==> Written(w, i))
    && (e.offset > 0 ==> !Written(w, e.offset - 1))
    && (End(e) < RAM_BYTES ==> !Written(w, End(e)))
  }

  /** Sorted runs that do not even touch. */
  ghost predicate Separate(runs: seq<Extent>) {
    forall i, j :: 0 <= i < j < |runs| ==> End(runs[i]) < runs[j].offset
  }

  ghost predicate CoveredBy(runs: seq<Extent>, i: nat) {
    exists k :: 0 <= k < |runs| && runs[k].offset <= i < End(runs[k])
  }

  /** The maximal runs of the bitmap, in order, covering exactly the written offsets below `limit`. */
  ghost predicate AreExtents(w: Bitmap, runs: seq<Extent>, limit: nat)
    requires limit <= RAM_BYTES
  {
    && Separate(runs)
    && (forall k :: 0 <= k < |runs| ==> MaximalRun(w, runs[k]) && End(runs[k]) <= limit)
    && (forall i :: 0 <= i < limit ==> (Written(w, i) <==> CoveredBy(runs, i)))
  }

  ghost predicate OpenRun(w: Bitmap, start: nat, offset: nat)
    requires offset <= RAM_BYTES
  {
    && start < offset && (start > 0 ==> !Written(w, start - 1))
    && forall i :: start <= i < offset ==> Written(w, i)
  }

  /** A run that ended just before `offset` becomes the last extent. */
  lemma CloseRun(w: Bitmap, runs: seq<Extent>, start: nat, offset: nat)
    requires offset <= RAM_BYTES && OpenRun(w, start, offset) && AreExtents(w, runs, start)
    requires offset < RAM_BYTES ==> !Written(w, offset)
    ensures AreExtents(w, runs + [Extent(start, offset - start)], offset)
  {
    hide Written;
    var e := Extent(start, offset - start);
    var more := runs + [e];
    forall k | 0 <= k < |runs| ensures End(runs[k]) < start {
      assert MaximalRun(w, runs[k]);
    }
    assert forall k :: 0 <= k < |runs| ==> more[k] == runs[k];
    forall i | 0 <= i < offset ensures Written(w, i) <==> CoveredBy(more, i) {
      if i < start {
        if CoveredBy(runs, i) {
          var k :| 0 <= k < |runs| && runs[k].offset <= i < End(runs[k]);
          assert more[k].offset <= i < End(more[k]);
        }
      } else {
        assert more[|runs|].offset <= i < End(more[|runs|]);
      }
    }
  }

  lemma SkipGap(w: Bitmap, runs: seq<Extent>, offset: nat)
    requires offset < RAM_BYTES && AreExtents(w, runs, offset) && !Written(w, offset)
    ensures AreExtents(w, runs, offset + 1)
  {
  }

  /** `extents`. */
  method Extents(w: Bitmap) returns (runs: seq<Extent>)
    ensures AreExtents(w, runs, RAM_BYTES)
  {
    hide Written, AreExtents;
    runs := [];
    var start: nat, open := 0, false;
    NoExtents(w);
    for offset := 0 to RAM_BYTES
      invariant start <= RAM_BYTES
      invariant AreExtents(w, runs, if open then start else offset)
      invariant open ==> OpenRun(w, start, offset)
      invariant !open && offset > 0 ==> !Written(w, offset - 1)
    {
      var bit := Written(w, offset);
      if bit && !open {
        start, open := offset, true;
      }
      if !bit && open {
        CloseRun(w, runs, start, offset);
        runs := runs + [Extent(start, offset - start)];
        open := false;
      }
      if !open {
        SkipGap(w, runs, offset);
      }
    }
    if open {
      CloseRun(w, runs, start, RAM_BYTES);
      runs := runs + [Extent(start, RAM_BYTES - start)];
    }
  }

  lemma NoExtents(w: Bitmap)
    ensures AreExtents(w, [], 0)
  {
  }

  // ----- the extent list is unique -------------------------------------------------------------------------------

  ghost predicate AreExtentsFrom(w: Bitmap, runs: seq<Extent>, from: nat) {
    && Separate(runs)
    && (forall k :: 0 <= k < |runs| ==> MaximalRun(w, runs[k]) && from <= runs[k].offset)
    && (forall i :: from <= i < RAM_BYTES ==> (Written(w, i) <==> CoveredBy(runs, i)))
  }

  lemma HeadIsFirst(w: Bitmap, runs: seq<Extent>, from: nat, i: nat)
    requires AreExtentsFrom(w, runs, from) && from <= i < RAM_BYTES && Written(w, i)
    ensures runs != [] && runs[0].offset <= i
  {
  }

  lemma SameStartSameEnd(w: Bitmap, a: Extent, b: Extent)
    requires MaximalRun(w, a) && MaximalRun(w, b) && a.offset == b.offset
    ensures End(a) >= End(b)
  {
  }

  /** Both heads start at the first written offset and end at the first gap after it. */
  lemma SameHead(w: Bitmap, r: seq<Extent>, s: seq<Extent>, from: nat)
    requires AreExtentsFrom(w, r, from) && AreExtentsFrom(w, s, from) && r != []
    ensures s != [] && r[0] == s[0]
  {
    hide Written;
    assert MaximalRun(w, r[0]);
    HeadIsFirst(w, s, from, r[0].offset);
    assert MaximalRun(w, s[0]);
    HeadIsFirst(w, r, from, s[0].offset);
    SameStartSameEnd(w, r[0], s[0]);
    SameStartSameEnd(w, s[0], r[0]);
  }

  lemma TailExtents(w: Bitmap, runs: seq<Extent>, from: nat)
    requires AreExtentsFrom(w, runs, from) && runs != []
    ensures AreExtentsFrom(w, runs[1..], End(runs[0]))
  {
  }

  lemma {:induction false} ExtentsAreUnique(w: Bitmap, r: seq<Extent>, s: seq<Extent>, from: nat)
    requires AreExtentsFrom(w, r, from) && AreExtentsFrom(w, s, from)
    ensures r == s
    decreases |r|
  {
    hide Written, MaximalRun, AreExtentsFrom, Separate, CoveredBy;
    BothEmpty(w, r, s, from);
    if r != [] {
      SameHead(w, r, s, from);
      TailExtents(w, r, from);
      TailExtents(w, s, from);
      ExtentsAreUnique(w, r[1..], s[1..], End(r[0]));
      SameParts(r, s);
    }
  }

  lemma BothEmpty(w: Bitmap, r: seq<Extent>, s: seq<Extent>, from: nat)
    requires AreExtentsFrom(w, r, from) && AreExtentsFrom(w, s, from)
    ensures r == [] <==> s == []
  {
    hide Written, MaximalRun, AreExtentsFrom;
    if r != [] {
      SameHead(w, r, s, from);
    } else if s != [] {
      SameHead(w, s, r, from);
    }
  }

  lemma SameParts(r: seq<Extent>, s: seq<Extent>)
    requires r != [] && s != [] && r[0] == s[0] && r[1..] == s[1..]
    ensures r == s
  {
    assert r == [r[0]] + r[1..] && s == [s[0]] + s[1..];
  }

  // ----- the digest input ------------------------------------------------------------------------------------------

  function Le16(v: nat): seq<Byte> { [LowByte(v), LowByte(v / 256)] }

  /** Offset, length and bytes of one extent. */
  function Chunk(ram: Ram, e: Extent): seq<Byte>
    requires End(e) <= RAM_BYTES
  {
    Le16(e.offset) + Le16(e.length) + ram[e.offset..End(e)]
  }

  ghost predicate Inside(runs: seq<Extent>) {
    forall k :: 0 <= k < |runs| ==> End(runs[k]) <= RAM_BYTES
  }

  ghost function Chunks(ram: Ram, runs: seq<Extent>): seq<Byte>
    requires Inside(runs)
  {
    if runs == [] then [] else Chunk(ram, runs[0]) + Chunks(ram, runs[1..])
  }

  /** The header of a chunk: offset and length as 16-bit numbers, low byte first; the epoch's bytes follow in order. */
  lemma ChunkLayout(ram: Ram, e: Extent)
    requires End(e) <= RAM_BYTES
    ensures var c := Chunk(ram, e);
      && |c| == 4 + e.length
      && c[0] as int + 256 * c[1] as int == e.offset && c[2] as int + 256 * c[3] as int == e.length
      && c[4..] == ram[e.offset..End(e)]
  {
  }

  lemma Le16Injective(a: nat, b: nat)
    requires a <= RAM_BYTES && b <= RAM_BYTES && Le16(a) == Le16(b)
    ensures a == b
  {
  }

  /** The first chunk can be read back: its header gives the extent, the extent gives its bytes. */
  lemma ChunkSplits(r: Ram, s: Ram, e: Extent, f: Extent, x: seq<Byte>, y: seq<Byte>)
    requires End(e) <= RAM_BYTES && End(f) <= RAM_BYTES
    requires Chunk(r, e) + x == Chunk(s, f) + y
    ensures e == f && r[e.offset..End(e)] == s[e.offset..End(e)] && x == y
  {
    hide Le16;
    var p, q := Chunk(r, e) + x, Chunk(s, f) + y;
    HeaderLength(e.offset);
    HeaderLength(e.length);
    HeaderLength(f.offset);
    HeaderLength(f.length);
    assert Le16(e.offset) == p[..2] == q[..2] == Le16(f.offset);
    assert Le16(e.length) == p[2..4] == q[2..4] == Le16(f.length);
    Le16Injective(e.offset, f.offset);
    Le16Injective(e.length, f.length);
    assert r[e.offset..End(e)] == p[4..4 + e.length] == q[4..4 + e.length] == s[e.offset..End(e)];
    assert x == p[4 + e.length..] == q[4 + e.length..] == y;
  }

  lemma HeaderLength(v: nat)
    ensures |Le16(v)| == 2
  {
  }

  lemma {:induction false} ChunksInjective(r: Ram, s: Ram, e: seq<Extent>, f: seq<Extent>)
    requires Inside(e) && Inside(f) && Chunks(r, e) == Chunks(s, f)
    ensures e == f && forall k :: 0 <= k < |e| ==> r[e[k].offset..End(e[k])] == s[e[k].offset..End(e[k])]
    decreases |e|
  {
    hide Le16;
    if e == [] {
      if f != [] {
        HeaderLength(f[0].offset);
      }
    } else if f == [] {
      HeaderLength(e[0].offset);
    } else {
      ChunkSplits(r, s, e[0], f[0], Chunks(r, e[1..]), Chunks(s, f[1..]));
      ChunksInjective(r, s, e[1..], f[1..]);
      assert e == [e[0]] + e[1..] && f == [f[0]] + f[1..];
      forall k | 0 <= k < |e| ensures r[e[k].offset..End(e[k])] == s[e[k].offset..End(e[k])] {
        assert k > 0 ==> e[1..][k - 1] == e[k];
      }
    }
  }

  /** What the two epochs show of themselves. */
  ghost predicate SameView(r: Ram, v: Bitmap, s: Ram, w: Bitmap) {
    v == w && forall i :: 0 <= i < RAM_BYTES && Written(v, i) ==> r[i] == s[i]
  }

  /** Equal digest inputs: equal extents, hence equal bitmaps and equal written bytes. */
  lemma EqualChunksMeanSameView(r: Ram, v: Bitmap, e: seq<Extent>, s: Ram, w: Bitmap)
    requires AreExtents(v, e, RAM_BYTES) && AreExtents(w, e, RAM_BYTES)
    requires forall k :: 0 <= k < |e| ==> End(e[k]) <= RAM_BYTES && r[e[k].offset..End(e[k])] == s[e[k].offset..End(e[k])]
    ensures SameView(r, v, s, w)
  {
    hide Written, MaximalRun, Separate;
    SameBitsSameBitmap(v, w);
    forall i | 0 <= i < RAM_BYTES && Written(v, i) ensures r[i] == s[i] {
      var k :| 0 <= k < |e| && e[k].offset <= i < End(e[k]);
      assert r[e[k].offset..End(e[k])][i - e[k].offset] == s[e[k].offset..End(e[k])][i - e[k].offset];
    }
  }

  lemma SameViewMeansEqualChunks(r: Ram, v: Bitmap, e: seq<Extent>, s: Ram)
    requires AreExtents(v, e, RAM_BYTES) && Inside(e) && SameView(r, v, s, v)
    ensures Chunks(r, e) == Chunks(s, e)
  {
    hide Written, Chunks, Separate;
    forall k | 0 <= k < |e| ensures r[e[k].offset..End(e[k])] == s[e[k].offset..End(e[k])] {
      assert MaximalRun(v, e[k]);
    }
    SameChunks(r, s, e);
  }

  /** The digest input is the same exactly when the bitmaps are equal and the RAM agrees on every written offset. */
  lemma PreimageInjective(r: Ram, v: Bitmap, e: seq<Extent>, s: Ram, w: Bitmap, f: seq<Extent>)
    requires AreExtents(v, e, RAM_BYTES) && AreExtents(w, f, RAM_BYTES)
    ensures Inside(e) && Inside(f)
    ensures Chunks(r, e) == Chunks(s, f) <==> SameView(r, v, s, w)
  {
    hide Written, Chunks, MaximalRun, Separate, AreExtents, CoveredBy;
    ExtentsAreInside(v, e);
    ExtentsAreInside(w, f);
    if Chunks(r, e) == Chunks(s, f) {
      ChunksInjective(r, s, e, f);
      EqualChunksMeanSameView(r, v, e, s, w);
    }
    if SameView(r, v, s, w) {
      FromTheStart(v, e);
      FromTheStart(v, f);
      ExtentsAreUnique(v, e, f, 0);
      SameViewMeansEqualChunks(r, v, e, s);
    }
  }

  lemma FromTheStart(w: Bitmap, runs: seq<Extent>)
    requires AreExtents(w, runs, RAM_BYTES)
    ensures AreExtentsFrom(w, runs, 0)
  {
  }

  lemma {:induction false} SameChunks(r: Ram, s: Ram, e: seq<Extent>)
    requires Inside(e) && forall k :: 0 <= k < |e| ==> r[e[k].offset..End(e[k])] == s[e[k].offset..End(e[k])]
    ensures Chunks(r, e) == Chunks(s, e)
    decreases |e|
  {
    if e != [] {
      forall k | 0 <= k < |e[1..]| ensures r[e[1..][k].offset..End(e[1..][k])] == s[e[1..][k].offset..End(e[1..][k])] {
        assert e[1..][k] == e[k + 1];
      }
      SameChunks(r, s, e[1..]);
    }
  }

  lemma {:induction false} SameBitsSameByte(a: nat, b: nat, n: nat)
    requires a < Pow2(n) && b < Pow2(n) && forall k: nat :: k < n ==> Bit(a, k) == Bit(b, k)
    ensures a == b
    decreases n
  {
    if n > 0 {
      assert Bit(a, 0) == Bit(b, 0);
      forall k: nat | k < n - 1 ensures Bit(a / 2, k) == Bit(b / 2, k) {
        assert Bit(a, k + 1) == Bit(b, k + 1);
      }
      SameBitsSameByte(a / 2, b / 2, n - 1);
    }
  }

  lemma SameBitsSameBitmap(v: Bitmap, w: Bitmap)
    requires forall i :: 0 <= i < RAM_BYTES ==> Written(v, i) == Written(w, i)
    ensures v == w
  {
    hide Bit;
    assert Pow2(8) == 256;
    forall j | 0 <= j < RAM_BYTES / 8 ensures v[j] == w[j] {
      forall k: nat | k < 8 ensures Bit(v[j], k) == Bit(w[j], k) {
        assert Written(v, 8 * j + k) == Written(w, 8 * j + k);
      }
      SameBitsSameByte(v[j], w[j], 8);
    }
  }

  // ----- signatures ------------------------------------------------------------------------------------------------

  function TagBytes(): seq<Byte> {
    seq(|TAG|, i requires 0 <= i < |TAG| => LowByte(TAG[i] as nat))
  }

  /** The tag is fed as its character codes. */
  lemma TagIsAscii(i: nat)
    requires i < |TAG|
    ensures |TagBytes()| == |TAG| && TagBytes()[i] == TAG[i] as int
  {
  }

  /** `sig` is the digest of the tag and the chunks of the epoch's extents. */
  ghost predicate IsSignature<D>(digest: seq<Byte> -> D, sig: D, ram: Ram, w: Bitmap) {
    exists runs :: AreExtents(w, runs, RAM_BYTES) && Inside(runs) && sig == digest(TagBytes() + Chunks(ram, runs))
  }

  lemma ExtentsAreInside(w: Bitmap, runs: seq<Extent>)
    requires AreExtents(w, runs, RAM_BYTES)
    ensures Inside(runs)
  {
  }

  /** `signature`: the digest is fed tag, then chunk by chunk. */
  method Signature<D>(digest: seq<Byte> -> D, ram: Ram, w: Bitmap) returns (sig: D)
    ensures IsSignature(digest, sig, ram, w)
  {
    hide AreExtents, Chunk, TagBytes;
    var runs := Extents(w);
    ExtentsAreInside(w, runs);
    var fed := TagBytes();
    assert runs[0..] == runs;
    for k := 0 to |runs|
      invariant Inside(runs[k..])
      invariant fed + Chunks(ram, runs[k..]) == TagBytes() + Chunks(ram, runs)
    {
      assert runs[k..][1..] == runs[k + 1..];
      fed := fed + Chunk(ram, runs[k]);
    }
    assert runs[|runs|..] == [];
    assert fed + [] == fed;
    assert fed == TagBytes() + Chunks(ram, runs);
    sig := digest(fed);
  }

  ghost predicate WroteNothing(w: Bitmap) {
    forall i :: 0 <= i < RAM_BYTES ==> !Written(w, i)
  }

  datatype Epoch = Epoch(ram: Ram, written: Bitmap)

  /** The last epoch up to `i` that wrote anything; -1 if none did. */
  ghost function LastWriting(epochs: seq<Epoch>, i: int): (j: int)
    requires i < |epochs|
    ensures -1 <= j && (i < 0 ==> j == -1) && (i >= 0 ==> j <= i)
    ensures j >= 0 ==> !WroteNothing(epochs[j].written)
    ensures forall k :: j < k <= i ==> WroteNothing(epochs[k].written)
    decreases if i < 0 then 0 else i + 1
  {
    if i < 0 then -1 else if WroteNothing(epochs[i].written) then LastWriting(epochs, i - 1) else i
  }

  /** The signature bound at epoch `i`: that of the last writing epoch, or the bare tag. */
  ghost predicate IsBound<D>(digest: seq<Byte> -> D, sig: D, epochs: seq<Epoch>, i: nat)
    requires i < |epochs|
  {
    var j := LastWriting(epochs, i);
    if j < 0 then sig == digest(TagBytes()) else IsSignature(digest, sig, epochs[j].ram, epochs[j].written)
  }

  /** `effective_signatures`. */
  method EffectiveSignatures<D>(digest: seq<Byte> -> D, epochs: seq<Epoch>) returns (out: seq<D>)
    ensures |out| == |epochs| && forall i :: 0 <= i < |epochs| ==> IsBound(digest, out[i], epochs, i)
  {
    hide AreExtents, IsSignature, WroteNothing, TagBytes;
    out := [];
    for i := 0 to |epochs|
      invariant |out| == i && forall k :: 0 <= k < i ==> IsBound(digest, out[k], epochs, k)
    {
      var e := epochs[i];
      var runs := Extents(e.written);
      NoRunsIsNothing(e.written, runs);
      var sig;
      if runs != [] || out == [] {
        sig := Signature(digest, e.ram, e.written);
        if runs == [] {
          NothingIsTagOnly(digest, sig, e.ram, e.written);
        }
      } else {
        sig := out[|out| - 1];
      }
      out := out + [sig];
    }
  }

  lemma NoRunsIsNothing(w: Bitmap, runs: seq<Extent>)
    requires AreExtents(w, runs, RAM_BYTES)
    ensures runs == [] <==> WroteNothing(w)
  {
    hide Written;
    if runs != [] {
      assert MaximalRun(w, runs[0]);
      assert Written(w, runs[0].offset);
    }
  }

  lemma NothingIsTagOnly<D>(digest: seq<Byte> -> D, sig: D, ram: Ram, w: Bitmap)
    requires WroteNothing(w) && IsSignature(digest, sig, ram, w)
    ensures sig == digest(TagBytes())
  {
    hide AreExtents, WroteNothing, TagBytes;
    var runs :| AreExtents(w, runs, RAM_BYTES) && Inside(runs) && sig == digest(TagBytes() + Chunks(ram, runs));
    NoRunsIsNothing(w, runs);
    assert TagBytes() + [] == TagBytes();
  }

  ghost predicate Injective<D(!new)>(digest: seq<Byte> -> D) {
    forall p: seq<Byte>, q: seq<Byte> :: digest(p) == digest(q) ==> p == q
  }

  /** Under any digest, equal written parts have one signature. */
  lemma SameViewSameSignature<D>(digest: seq<Byte> -> D, r: Ram, v: Bitmap, s: Ram, w: Bitmap, x: D, y: D)
    requires IsSignature(digest, x, r, v) && IsSignature(digest, y, s, w)
    ensures SameView(r, v, s, w) ==> x == y
  {
    hide AreExtents, SameView, TagBytes;
    var e :| AreExtents(v, e, RAM_BYTES) && Inside(e) && x == digest(TagBytes() + Chunks(r, e));
    var f :| AreExtents(w, f, RAM_BYTES) && Inside(f) && y == digest(TagBytes() + Chunks(s, f));
    PreimageInjective(r, v, e, s, w, f);
  }

  /** With an injective digest, signatures agree exactly when the written parts of the epochs do. */
  lemma SignatureIdentifiesWrittenPart<D(!new)>(digest: seq<Byte> -> D, a: Epoch, b: Epoch, x: D, y: D)
    requires Injective(digest)
    requires IsSignature(digest, x, a.ram, a.written) && IsSignature(digest, y, b.ram, b.written)
    ensures x == y <==> SameView(a.ram, a.written, b.ram, b.written)
  {
    hide AreExtents, SameView, TagBytes;
    var e :| AreExtents(a.written, e, RAM_BYTES) && Inside(e) && x == digest(TagBytes() + Chunks(a.ram, e));
    var f :| AreExtents(b.written, f, RAM_BYTES) && Inside(f) && y == digest(TagBytes() + Chunks(b.ram, f));
    PreimageInjective(a.ram, a.written, e, b.ram, b.written, f);
    var t, p, q := TagBytes(), Chunks(a.ram, e), Chunks(b.ram, f);
    assert (t + p)[|t|..] == p && (t + q)[|t|..] == q;
  }
}
