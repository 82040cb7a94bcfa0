/**
 The two-pass mini-assembler of the Z80 fixture ROMs and the meaning of the upload code it emits:
 running the resolved words stores exactly the program bytes at the destination.
 */
module FixtureRom {
  import opened Basics
  import opened Mc68000

  const PROGRAM_BASE: nat := 0x200
  const Z80_RAM: nat := 0xA0_0000
  const Z80_RAM_BYTES: nat := 8192

  /** The assembler's fields: emitted words, label addresses, and words to patch with their targets. */
  datatype Asm = Asm(base: nat, words: seq<nat>, labels: map<string, nat>, fixups: seq<(nat, string)>)

  ghost predicate Valid(a: Asm) {
    && (forall i :: 0 <= i < |a.words| ==> a.words[i] < 0x1_0000)
    && (forall k :: 0 <= k < |a.fixups| ==> a.fixups[k].0 < |a.words|)
    && (forall j, k :: 0 <= j < k < |a.fixups| ==> a.fixups[j].0 < a.fixups[k].0)
  }

  function Pc(a: Asm): nat { a.base + 2 * |a.words| }

  function Masked(v: int): nat { v % 0x1_0000 }

  function Emitted(a: Asm, values: seq<int>): (r: Asm)
    ensures |r.words| == |a.words| + |values|
    decreases |values|
  {
    if values == [] then a else Emitted(a.(words := a.words + [Masked(values[0])]), values[1..])
  }

  function LongWords(v: int): seq<int> { [v / 0x1_0000, v] }

  function Labelled(a: Asm, name: string): Asm { a.(labels := a.labels[name := Pc(a)]) }

  /** A word to be patched: remembered with its target, emitted as zero. */
  function Fixed(a: Asm, target: string): Asm {
    a.(fixups := a.fixups + [(|a.words|, target)], words := a.words + [0])
  }

  // ----- resolve -------------------------------------------------------------------------------------

  predicate EndsWith(s: string, suffix: string) {
    |s| >= |suffix| && s[|s| - |suffix|..] == suffix
  }

  /** The label a fixup target names. */
  function LabelOf(target: string): string {
    if EndsWith(target, ":pcrel") then target[..|target| - 6]
    else if EndsWith(target, ":dbra") then target[..|target| - 5]
    else target
  }

  lemma LabelOfPcrel(name: string)
    ensures LabelOf(name + ":pcrel") == name
  {
  }

  lemma LabelOfDbra(name: string)
    ensures LabelOf(name + ":dbra") == name
  {
    var t := name + ":dbra";
    assert t[|name|..] == ":dbra";
    if |t| >= 6 {
      assert t[|t| - 6..][5] == 'a';
      assert ":pcrel"[5] == 'l';
    }
  }

  /** What the patched word at `index` must hold: the label's distance from that very word. */
  function Displacement(a: Asm, fixup: (nat, string)): nat
    requires LabelOf(fixup.1) in a.labels
  {
    Masked(a.labels[LabelOf(fixup.1)] - (a.base + 2 * fixup.0))
  }

  ghost predicate AllDefined(a: Asm) {
    forall k :: 0 <= k < |a.fixups| ==> LabelOf(a.fixups[k].1) in a.labels
  }

  ghost predicate Unpatched(a: Asm, i: nat) {
    forall k :: 0 <= k < |a.fixups| ==> a.fixups[k].0 != i
  }

  /** `out` is the word list after the second pass. */
  ghost predicate Resolved(a: Asm, out: seq<nat>) {
    && AllDefined(a) && |out| == |a.words|
    && (forall i :: 0 <= i < |out| ==> out[i] < 0x1_0000)
    && (forall i :: 0 <= i < |out| && Unpatched(a, i) ==> out[i] == a.words[i])
    && (forall k :: 0 <= k < |a.fixups| && a.fixups[k].0 < |out| ==> out[a.fixups[k].0] == Displacement(a, a.fixups[k]))
  }

  function BytesOf(words: seq<nat>): seq<Byte> {
    if words == [] then [] else [LowByte(words[0] / 256), LowByte(words[0])] + BytesOf(words[1..])
  }

  // ----- emission ------------------------------------------------------------------------------------

  function LoopBody(key: Option<Byte>): seq<int> {
    if key.None? then [0x12D8] else [0x1418, 0x0A02, key.value as int, 0x12C2]
  }

  /** What `copy_to_z80` (no key) and `copy_decoded_to_z80` append. */
  function Uploading(a: Asm, programLabel: string, length: int, loop: string, key: Option<Byte>, destination: nat): Asm {
    var b := Fixed(Emitted(a, [0x41FA]), programLabel + ":pcrel");
    var c := Emitted(b, [0x43F9] + LongWords(destination) + [0x303C, length - 1]);
    var d := Labelled(c, loop);
    Fixed(Emitted(d, LoopBody(key) + [0x51C8]), loop + ":dbra")
  }

  function DataWords(payload: seq<Byte>): seq<int>
    decreases |payload|
  {
    if payload == [] then []
    else if |payload| == 1 then [payload[0] as int * 256]
    else [payload[0] as int * 256 + payload[1] as int] + DataWords(payload[2..])
  }

  class M68k {
    const base: nat
    var words: seq<nat>
    var labels: map<string, nat>
    var fixups: seq<(nat, string)>

    ghost function State(): Asm
      reads this
    {
      Asm(base, words, labels, fixups)
    }

    constructor (base: nat)
      ensures this.base == base && State() == Asm(base, [], map[], []) && Valid(State())
    {
      this.base := base;
      words, labels, fixups := [], map[], [];
    }

    /** `w`: append words, each masked to 16 bits. */
    method W(values: seq<int>)
      requires Valid(State())
      modifies `words
      ensures Valid(State()) && State() == Emitted(old(State()), values)
    {
      for k := 0 to |values|
        invariant Valid(State())
        invariant Emitted(State(), values[k..]) == Emitted(old(State()), values)
      {
        words := words + [Masked(values[k])];
      }
    }

    method Label(name: string)
      requires Valid(State())
      modifies `labels
      ensures Valid(State()) && State() == Labelled(old(State()), name)
    {
      labels := labels[name := base + 2 * |words|];
    }

    method Fixup(target: string)
      requires Valid(State())
      modifies `fixups, `words
      ensures Valid(State()) && State() == Fixed(old(State()), target)
    {
      fixups, words := fixups + [(|words|, target)], words + [0];
    }

    method Branch(opcode: nat, name: string)
      requires Valid(State())
      modifies this
      ensures Valid(State()) && State() == Fixed(Emitted(old(State()), [opcode * 256]), name)
    {
      W([opcode * 256]);
      Fixup(name);
    }

    method Delay(count: nat, name: string)
      requires Valid(State())
      modifies this
      ensures Valid(State())
      ensures State() == Delaying(old(State()), count, name)
    {
      W([0x223C] + LongWords(count));
      Label(name);
      W([0x5381]);
      Branch(0x66, name);
    }

    method CopyToZ80(programLabel: string, length: int, loop: string, destination: nat)
      requires Valid(State())
      modifies this
      ensures Valid(State()) && State() == Uploading(old(State()), programLabel, length, loop, None, destination)
    {
      W([0x41FA]);
      Fixup(programLabel + ":pcrel");
      W([0x43F9] + LongWords(destination) + [0x303C, length - 1]);
      Label(loop);
      W([0x12D8] + [0x51C8]);
      Fixup(loop + ":dbra");
    }

    method CopyDecodedToZ80(programLabel: string, length: int, loop: string, key: Byte, destination: nat)
      requires Valid(State())
      modifies this
      ensures Valid(State()) && State() == Uploading(old(State()), programLabel, length, loop, Some(key), destination)
    {
      W([0x41FA]);
      Fixup(programLabel + ":pcrel");
      W([0x43F9] + LongWords(destination) + [0x303C, length - 1]);
      Label(loop);
      W([0x1418, 0x0A02, key as int, 0x12C2] + [0x51C8]);
      Fixup(loop + ":dbra");
    }

    method Data(name: string, payload: seq<Byte>)
      requires Valid(State())
      modifies this
      ensures Valid(State()) && State() == Emitted(Labelled(old(State()), name), DataWords(payload))
    {
      Label(name);
      W(DataWords(payload));
    }

    /** The second pass. A label that was never defined is the source's KeyError. */
    method Resolve() returns (code: Option<seq<Byte>>)
      requires Valid(State())
      modifies `words
      ensures code.Some? <==> AllDefined(old(State()))
      ensures code.Some? ==> Resolved(old(State()), words) && code.value == BytesOf(words)
    {
      ghost var before := State();
      for k := 0 to |fixups|
        invariant |words| == |before.words| && State() == before.(words := words)
        invariant forall j :: 0 <= j < k ==> LabelOf(fixups[j].1) in labels
        invariant forall i :: 0 <= i < |words| ==> words[i] < 0x1_0000
        invariant forall i :: 0 <= i < |words| && Unpatched(before, i) ==> words[i] == before.words[i]
        invariant forall j :: 0 <= j < k ==> words[fixups[j].0] == Displacement(before, fixups[j])
      {
        var (index, target) := fixups[k];
        if LabelOf(target) !in labels {
          return None;
        }
        var value := labels[LabelOf(target)] - (base + 2 * index);
        words := words[index := Masked(value)];
      }
      code := Some(BytesOf(words));
    }
  }

  // ----- what the emitted code does --------------------------------------------------------------------

  /** Later emission keeps what was emitted: words, fixups, and the labels defined so far. */
  ghost predicate Extends(b: Asm, a: Asm) {
    && b.base == a.base && |b.words| >= |a.words| && |b.fixups| >= |a.fixups|
    && (forall i :: 0 <= i < |a.words| ==> b.words[i] == a.words[i])
    && (forall k :: 0 <= k < |a.fixups| ==> b.fixups[k] == a.fixups[k])
    && (forall k :: |a.fixups| <= k < |b.fixups| ==> b.fixups[k].0 >= |a.words|)
    && (forall name :: name in a.labels ==> name in b.labels && b.labels[name] == a.labels[name])
  }

  /** Number of bytes the loops move for a `length` argument: the count word is `length - 1` masked. */
  function UploadCount(length: int): (n: nat)
    ensures 1 <= n <= 0x1_0000
  {
    Masked(length - 1) + 1
  }

  /** The upload moves `length` bytes exactly for 1..65536; a zero length moves 65536. */
  lemma UploadCountIsLength(length: int)
    ensures UploadCount(length) == length <==> 1 <= length <= 0x1_0000
    ensures UploadCount(0) == 0x1_0000
  {
  }

  ghost function HeadWords(destination: nat, length: int, displacement: nat): seq<nat> {
    [0x41FA, displacement, 0x43F9, Masked(destination / 0x1_0000), Masked(destination), 0x303C, Masked(length - 1)]
  }

  /** The appended words before the second pass, with zeros in the two patched places. */
  lemma UploadingWords(a: Asm, programLabel: string, length: int, loop: string, key: Option<Byte>, destination: nat)
    ensures var u := Uploading(a, programLabel, length, loop, key, destination);
      var n, m := |a.words|, |LoopBody(key)|;
      && u.words == a.words + HeadWords(destination, length, 0) + (LoopBody(key) + [0x51C8]) + [0]
      && u.fixups == a.fixups + [(n + 1, programLabel + ":pcrel"), (n + 8 + m, loop + ":dbra")]
      && u.base == a.base && u.labels == a.labels[loop := a.base + 2 * (n + 7)]
  {
    hide Emitted;
    var values := [0x43F9] + LongWords(destination) + [0x303C, length - 1];
    var body := LoopBody(key) + [0x51C8];
    EmittedIs(a, [0x41FA]);
    var b := Fixed(Emitted(a, [0x41FA]), programLabel + ":pcrel");
    EmittedIs(b, values);
    var d := Labelled(Emitted(b, values), loop);
    EmittedIs(d, body);
    assert MaskedAll([0x41FA]) == [0x41FA];
    assert MaskedAll(values) == HeadWords(destination, length, 0)[2..];
    assert MaskedAll(body) == body;
    assert b.words + MaskedAll(values) == a.words + HeadWords(destination, length, 0);
    assert d.words + body + [0] == a.words + HeadWords(destination, length, 0) + body + [0];
  }

  function MaskedAll(values: seq<int>): seq<nat> {
    seq(|values|, i requires 0 <= i < |values| => Masked(values[i]))
  }

  lemma {:induction false} EmittedIs(a: Asm, values: seq<int>)
    ensures Emitted(a, values) == a.(words := a.words + MaskedAll(values))
    decreases |values|
  {
    if values == [] {
      assert a.words + MaskedAll(values) == a.words;
    } else {
      var b := a.(words := a.words + [Masked(values[0])]);
      EmittedIs(b, values[1..]);
      assert b.words + MaskedAll(values[1..]) == a.words + MaskedAll(values);
    }
  }

  /** The two patched words hold the data label's and the loop label's distance; the others are as emitted. */
  lemma PatchedUpload(a: Asm, programLabel: string, length: int, loop: string, key: Option<Byte>, destination: nat,
                      b: Asm, out: seq<nat>)
    requires Valid(a) && Extends(b, Uploading(a, programLabel, length, loop, key, destination))
    requires Resolved(b, out)
    ensures var u := Uploading(a, programLabel, length, loop, key, destination);
      var n, m := |a.words|, |LoopBody(key)|;
      && |out| >= |u.words| == n + 9 + m && programLabel in b.labels
      && (forall i :: n <= i < n + 8 + m && i != n + 1 ==> out[i] == u.words[i])
      && out[n + 1] == Masked(b.labels[programLabel] - (b.base + 2 * (n + 1)))
      && out[n + 8 + m] == Masked(-2 * (m + 1))
  {
    hide Resolved, Extends, Valid, Uploading, Unpatched, LabelOf, Masked;
    var n, m, f := |a.words|, |LoopBody(key)|, |a.fixups|;
    var u := Uploading(a, programLabel, length, loop, key, destination);
    UploadingWords(a, programLabel, length, loop, key, destination);
    ResolvedKeeps(u, b, out);
    LabelOfPcrel(programLabel);
    LabelOfDbra(loop);
    assert u.fixups[f] == (n + 1, programLabel + ":pcrel");
    assert u.fixups[f + 1] == (n + 8 + m, loop + ":dbra");
    forall i | n <= i < n + 8 + m && i != n + 1 ensures out[i] == u.words[i] {
      UnpatchedUpload(a, u, i, n + 1, n + 8 + m);
    }
    assert b.labels[loop] == u.labels[loop];
  }

  /** After the second pass the words are the head followed by a complete loop. */
  lemma ResolvedUpload(a: Asm, programLabel: string, length: int, loop: string, key: Option<Byte>, destination: nat,
                       b: Asm, out: seq<nat>)
    requires Valid(a) && Extends(b, Uploading(a, programLabel, length, loop, key, destination))
    requires Resolved(b, out)
    ensures var n := |a.words|;
      && programLabel in b.labels && |out| >= n + 7 + |LoopCode(key)|
      && out[n..n + 7] == HeadWords(destination, length, Masked(b.labels[programLabel] - (b.base + 2 * (n + 1))))
      && out[n + 7..n + 7 + |LoopCode(key)|] == LoopCode(key)
  {
    hide Resolved, Extends, Valid, Uploading, Masked, HeadWords, LoopBody;
    PatchedUpload(a, programLabel, length, loop, key, destination, b, out);
    LoopIs(key);
    HeadIs(destination, length, out[|a.words| + 1]);
    UploadingWords(a, programLabel, length, loop, key, destination);
    var n, m := |a.words|, |LoopBody(key)|;
    var words := Uploading(a, programLabel, length, loop, key, destination).words;
    SliceOfUpload(a.words, HeadWords(destination, length, 0), LoopBody(key) + [0x51C8], out, words);
  }

  lemma LoopIs(key: Option<Byte>)
    ensures LoopCode(key) == LoopBody(key) + [0x51C8] + [Masked(-2 * (|LoopBody(key)| + 1))]
  {
  }

  lemma HeadIs(destination: nat, length: int, displacement: nat)
    ensures |HeadWords(destination, length, 0)| == 7
    ensures HeadWords(destination, length, 0)[1 := displacement] == HeadWords(destination, length, displacement)
  {
  }

  lemma SliceOfUpload(prefix: seq<int>, head: seq<int>, body: seq<int>, out: seq<int>, words: seq<int>)
    requires |head| == 7 && words == prefix + head + body + [0] && |out| >= |words|
    requires forall i :: |prefix| <= i < |words| - 1 && i != |prefix| + 1 ==> out[i] == words[i]
    ensures var n := |prefix|;
      && out[n..n + 7] == head[1 := out[n + 1]]
      && out[n + 7..n + 8 + |body|] == body + [out[n + 7 + |body|]]
  {
  }

  /** What the second pass leaves of an earlier emission: plain words as they were, patched words patched. */
  lemma ResolvedKeeps(u: Asm, b: Asm, out: seq<nat>)
    requires Resolved(b, out) && Extends(b, u)
    ensures b.base == u.base && |out| >= |u.words|
    ensures forall i :: 0 <= i < |u.words| && Unpatched(u, i) ==> out[i] == u.words[i]
    ensures forall k :: 0 <= k < |u.fixups| && u.fixups[k].0 < |out| ==>
      LabelOf(u.fixups[k].1) in b.labels && out[u.fixups[k].0] == Displacement(b, u.fixups[k])
    ensures forall name :: name in u.labels ==> name in b.labels && b.labels[name] == u.labels[name]
  {
  }

  /** Only the two words reserved by the upload are patched in its range. */
  lemma UnpatchedUpload(a: Asm, u: Asm, i: nat, p: nat, q: nat)
    requires Valid(a) && |a.words| <= i && i != p && i != q
    requires |u.fixups| == |a.fixups| + 2 && u.fixups[..|a.fixups|] == a.fixups
    requires u.fixups[|a.fixups|].0 == p && u.fixups[|a.fixups| + 1].0 == q
    ensures Unpatched(u, i)
  {
  }

  /** Slices of the resolved image stand in memory where the image does. */
  lemma HoldsSlice(mem: Memory, base: nat, out: seq<nat>, from: nat, until: nat)
    requires Holds(mem, base, out) && from <= until <= |out|
    ensures Holds(mem, base + 2 * from, out[from..until])
  {
    var start, part := base + 2 * from, out[from..until];
    forall i | 0 <= i < |part| ensures HoldsAt(mem, start, part, i) {
      assert HoldsAt(mem, base, out, from + i);
    }
  }

  /** LEA, LEA, MOVE: both pointers and the count are loaded, nothing else changes. */
  lemma HeadLoads(s: Cpu, destination: nat, length: int, source: nat)
    requires Holds(s.mem, s.pc, HeadWords(destination, length, Masked(source - (s.pc + 2))))
    requires -0x8000 <= source - (s.pc + 2) < 0x8000
    requires s.pc + 14 <= BUS && source <= BUS && destination <= BUS
    ensures Run(s, 3).Some? && Touched(s, 3) == {}
    ensures var t := Run(s, 3).value;
      && t.a0 == source && t.a1 == destination && t.d0 % 0x1_0000 == Masked(length - 1)
      && t.pc == s.pc + 14 && t.mem == s.mem && t.d1 == s.d1
  {
    hide Step, StoreTarget, LeaPcA0, LeaLongA1, MoveWordD0, Holds, HeadWords;
    HeadSteps(s, destination, length, source);
    ThreeSteps(s, LeaPcA0(s), LeaLongA1(LeaPcA0(s)), MoveWordD0(LeaLongA1(LeaPcA0(s))));
  }

  lemma HeadSteps(s: Cpu, destination: nat, length: int, source: nat)
    requires Holds(s.mem, s.pc, HeadWords(destination, length, Masked(source - (s.pc + 2))))
    requires -0x8000 <= source - (s.pc + 2) < 0x8000
    requires s.pc + 14 <= BUS && source <= BUS && destination <= BUS
    ensures var u := LeaPcA0(s); var v := LeaLongA1(u); var t := MoveWordD0(v);
      && Step(s) == Some(u) && Step(u) == Some(v) && Step(v) == Some(t)
      && StoreTarget(s) == {} && StoreTarget(u) == {} && StoreTarget(v) == {}
      && t.a0 == source && t.a1 == destination && t.d0 % 0x1_0000 == Masked(length - 1)
      && t.pc == s.pc + 14 && t.mem == s.mem && t.d1 == s.d1
  {
    hide Read, ReadWord;
    var head := HeadWords(destination, length, Masked(source - (s.pc + 2)));
    assert HoldsAt(s.mem, s.pc, head, 0) && HoldsAt(s.mem, s.pc, head, 1) && HoldsAt(s.mem, s.pc, head, 2);
    assert HoldsAt(s.mem, s.pc, head, 3) && HoldsAt(s.mem, s.pc, head, 4);
    assert HoldsAt(s.mem, s.pc, head, 5) && HoldsAt(s.mem, s.pc, head, 6);
    SignedMasked(source - (s.pc + 2));
  }

  lemma ThreeSteps(s: Cpu, u: Cpu, v: Cpu, t: Cpu)
    requires Step(s) == Some(u) && Step(u) == Some(v) && Step(v) == Some(t)
    ensures Run(s, 3) == Some(t) && Touched(s, 3) == StoreTarget(s) + StoreTarget(u) + StoreTarget(v)
  {
    hide Step, StoreTarget;
    assert Run(v, 1) == Some(t) && Touched(v, 1) == StoreTarget(v);
    assert Run(u, 2) == Some(t) && Touched(u, 2) == StoreTarget(u) + StoreTarget(v);
  }

  lemma SignedMasked(v: int)
    requires -0x8000 <= v < 0x8000
    ensures Signed(Masked(v)) == v
  {
  }

  ghost function UploadSteps(length: int, key: Option<Byte>): nat {
    3 + TurnSteps(key) * UploadCount(length)
  }

  /** What a finished upload leaves behind. */
  ghost predicate UploadDone(s: Cpu, t: Cpu, source: nat, destination: nat, count: nat, key: Option<Byte>) {
    && SameOutside(t.mem, s.mem, destination, count)
    && forall i :: 0 <= i < count ==> Transferred(s.mem, t.mem, source, destination, KeyOf(key), i)
  }

  /**
   Emitted loaders mean what they say. Whatever was emitted before and is emitted after, running the
   resolved words of the copy (or decode) code stores UploadCount(length) source bytes, each through the
   key, at the destination, stores to and changes nothing else in memory, and continues behind the code.
   */
  lemma UploadMeans(a: Asm, programLabel: string, length: int, loop: string, key: Option<Byte>, destination: nat,
                    b: Asm, out: seq<nat>, s: Cpu)
    requires Valid(a) && Extends(b, Uploading(a, programLabel, length, loop, key, destination))
    requires Resolved(b, out) && Holds(s.mem, b.base, out) && s.pc == Pc(a)
    requires programLabel in b.labels && -0x8000 <= b.labels[programLabel] - (s.pc + 2) < 0x8000
    requires var end := Pc(Uploading(a, programLabel, length, loop, key, destination));
      var count := UploadCount(length);
      && end <= BUS && b.labels[programLabel] + count <= BUS && destination + count <= BUS
      && (end <= destination || destination + count <= s.pc)
      && (b.labels[programLabel] + count <= destination || destination + count <= b.labels[programLabel])
    ensures Run(s, UploadSteps(length, key)).Some?
    ensures var t := Run(s, UploadSteps(length, key)).value;
      && t.pc == Pc(Uploading(a, programLabel, length, loop, key, destination))
      && UploadDone(s, t, b.labels[programLabel], destination, UploadCount(length), key)
      && Touched(s, UploadSteps(length, key)) == Span(destination, UploadCount(length))
  {
    hide Touched, StoreTarget, Span, Read, ReadWord, Step, Xor, Resolved, Extends, Valid, Uploading, Holds, Masked;
    var n := |a.words|;
    UploadingWords(a, programLabel, length, loop, key, destination);
    ResolvedUpload(a, programLabel, length, loop, key, destination, b, out);
    SameBase(a, programLabel, length, loop, key, destination, b);
    HoldsSlice(s.mem, b.base, out, n, n + 7);
    HoldsSlice(s.mem, b.base, out, n + 7, n + 7 + |LoopCode(key)|);
    HeadLoads(s, destination, length, b.labels[programLabel]);
    var u := Run(s, 3).value;
    LoopUploads(u, key);
    RunSplits(s, 3, TurnSteps(key) * UploadCount(length));
    TouchedSplits(s, 3, TurnSteps(key) * UploadCount(length));
  }

  lemma SameBase(a: Asm, programLabel: string, length: int, loop: string, key: Option<Byte>, destination: nat, b: Asm)
    requires Extends(b, Uploading(a, programLabel, length, loop, key, destination))
    ensures b.base == a.base
  {
    UploadingWords(a, programLabel, length, loop, key, destination);
  }

  // ----- the emitted delay -----------------------------------------------------------------------------

  /** What `delay` appends: MOVE.L #count,D1; name: SUBQ.L #1,D1; BNE name. */
  function Delaying(a: Asm, count: nat, name: string): Asm {
    Fixed(Emitted(Emitted(Labelled(Emitted(a, [0x223C] + LongWords(count)), name), [0x5381]), [0x6600]), name)
  }

  lemma DelayWords(a: Asm, count: nat, name: string)
    ensures var u, n := Delaying(a, count, name), |a.words|;
      && u.words == a.words + [0x223C, Masked(count / 0x1_0000), Masked(count), 0x5381, 0x6600] + [0]
      && u.fixups == a.fixups + [(n + 5, name)] && u.base == a.base && u.labels == a.labels[name := a.base + 2 * (n + 3)]
  {
    hide Emitted;
    var b := Labelled(Emitted(a, [0x223C] + LongWords(count)), name);
    EmittedIs(a, [0x223C] + LongWords(count));
    EmittedIs(b, [0x5381]);
    EmittedIs(Emitted(b, [0x5381]), [0x6600]);
    assert MaskedAll([0x223C] + LongWords(count)) == [0x223C, Masked(count / 0x1_0000), Masked(count)];
    assert MaskedAll([0x5381]) == [0x5381] && MaskedAll([0x6600]) == [0x6600];
  }

  lemma ResolvedDelay(a: Asm, count: nat, name: string, b: Asm, out: seq<nat>)
    requires Valid(a) && Extends(b, Delaying(a, count, name)) && Resolved(b, out) && LabelOf(name) == name
    ensures var n := |a.words|;
      b.base == a.base && |out| >= n + 6
      && out[n..n + 3] == [0x223C, Masked(count / 0x1_0000), Masked(count)] && out[n + 3..n + 6] == DELAY_LOOP
  {
    hide Resolved, Extends, Delaying, LabelOf, Unpatched;
    var u, n, f := Delaying(a, count, name), |a.words|, |a.fixups|;
    DelayWords(a, count, name);
    ResolvedKeeps(u, b, out);
    assert u.fixups[f] == (n + 5, name);
    forall i | n <= i < n + 5 ensures out[i] == u.words[i] {
      forall k | 0 <= k < |u.fixups| ensures u.fixups[k].0 != i {
        assert k < f ==> u.fixups[k] == a.fixups[k];
      }
      assert Unpatched(u, i) by {
        UnpatchedIs(u, i);
      }
    }
    assert out[n + 5] == Masked(-4);
  }

  lemma UnpatchedIs(u: Asm, i: nat)
    requires forall k :: 0 <= k < |u.fixups| ==> u.fixups[k].0 != i
    ensures Unpatched(u, i)
  {
  }

  /** An emitted delay of 1..2^32-1 spins exactly `count` times (0 spins 2^32 times), then goes on behind itself. */
  lemma DelayMeans(a: Asm, count: nat, name: string, b: Asm, out: seq<nat>, s: Cpu)
    requires Valid(a) && Extends(b, Delaying(a, count, name)) && Resolved(b, out) && LabelOf(name) == name
    requires count < 0x1_0000_0000 && Holds(s.mem, b.base, out) && s.pc == Pc(a) && s.pc + 12 <= BUS
    ensures var turns := if count == 0 then 0x1_0000_0000 else count;
      Run(s, 1 + 2 * turns) == Some(s.(d1 := 0, z := true, pc := Pc(Delaying(a, count, name))))
  {
    hide Run, Step, Holds, MoveLongD1, Resolved, Extends, Delaying, LabelOf, Valid, Masked, ReadWord;
    var n := |a.words|;
    DelayWords(a, count, name);
    ResolvedDelay(a, count, name, b, out);
    HoldsSlice(s.mem, b.base, out, n, n + 3);
    HoldsSlice(s.mem, b.base, out, n + 3, n + 6);
    DelayLoads(s, count);
    var t := MoveLongD1(s);
    DelaySpins(t);
    OneStepMore(s, t, 2 * (Wrap(t.d1 - 1) + 1));
  }

  lemma OneStepMore(s: Cpu, t: Cpu, n: nat)
    requires Step(s) == Some(t)
    ensures Run(s, 1 + n) == Run(t, n)
  {
  }

  lemma DelayLoads(s: Cpu, count: nat)
    requires Holds(s.mem, s.pc, [0x223C, Masked(count / 0x1_0000), Masked(count)])
    requires count < 0x1_0000_0000 && s.pc + 12 <= BUS
    ensures Step(s) == Some(MoveLongD1(s))
    ensures MoveLongD1(s) == s.(d1 := count, z := count == 0, pc := s.pc + 6)
  {
    hide Read, ReadWord;
    var load := [0x223C, Masked(count / 0x1_0000), Masked(count)];
    assert HoldsAt(s.mem, s.pc, load, 0) && HoldsAt(s.mem, s.pc, load, 1) && HoldsAt(s.mem, s.pc, load, 2);
  }

  // ----- a whole fixture: upload, spin, data ---------------------------------------------------------------

  /** Payload bytes stand at the data label; odd payloads are padded with one zero byte. */
  lemma {:induction false} DataHolds(mem: Memory, address: nat, payload: seq<Byte>)
    requires Holds(mem, address, MaskedAll(DataWords(payload)))
    ensures forall i :: 0 <= i < |payload| ==> Read(mem, address + i) == payload[i]
    decreases |payload|
  {
    hide Read;
    if payload != [] {
      var words := MaskedAll(DataWords(payload));
      assert HoldsAt(mem, address, words, 0);
      if |payload| > 1 {
        var rest := MaskedAll(DataWords(payload[2..]));
        assert words[1..|words|] == rest;
        HoldsSlice(mem, address, words, 1, |words|);
        DataHolds(mem, address + 2, payload[2..]);
        forall i | 0 <= i < |payload| ensures Read(mem, address + i) == payload[i] {
          if i >= 2 {
            assert Read(mem, (address + 2) + (i - 2)) == payload[2..][i - 2];
          }
        }
      }
    }
  }

  /** The stored form of a program: as it is, or every byte xor-ed with the key. */
  function Stored(program: seq<Byte>, key: Option<Byte>): (r: seq<Byte>)
    ensures |r| == |program|
  {
    if key.None? then program
    else seq(|program|, i requires 0 <= i < |program| => Xor(program[i], key.value))
  }

  lemma StoredDecodes(program: seq<Byte>, key: Option<Byte>, i: nat)
    requires i < |program|
    ensures Xor(Stored(program, key)[i], KeyOf(key)) == program[i]
  {
    if key.None? {
      XorZero(program[i]);
    } else {
      XorTwice(program[i], key.value);
    }
  }

  const EMPTY: Asm := Asm(PROGRAM_BASE, [], map[], [])

  ghost function UploadPart(program: seq<Byte>, key: Option<Byte>): Asm {
    Uploading(EMPTY, "prog", |program|, "loop", key, Z80_RAM)
  }

  ghost function SpinPart(program: seq<Byte>, key: Option<Byte>): Asm {
    Fixed(Emitted(Labelled(UploadPart(program, key), "spin"), [0x6000]), "spin")
  }

  /** The assembler state of the fixture: upload code, `spin: BRA spin`, then the stored program. */
  ghost function Image(program: seq<Byte>, key: Option<Byte>): Asm {
    Emitted(Labelled(SpinPart(program, key), "prog"), DataWords(Stored(program, key)))
  }

  method BuildUpload(program: seq<Byte>, key: Option<Byte>) returns (m: M68k, code: Option<seq<Byte>>)
    requires 1 <= |program| <= Z80_RAM_BYTES
    ensures code.Some? && Resolved(Image(program, key), m.words) && code.value == BytesOf(m.words)
  {
    hide DataWords, Stored, Emitted, Uploading, Resolved, Valid, BytesOf;
    m := new M68k(PROGRAM_BASE);
    if key.None? {
      m.CopyToZ80("prog", |program|, "loop", Z80_RAM);
    } else {
      m.CopyDecodedToZ80("prog", |program|, "loop", key.value, Z80_RAM);
    }
    m.Label("spin");
    m.Branch(0x60, "spin");
    m.Data("prog", Stored(program, key));
    ImageShape(program, key);
    code := m.Resolve();
  }

  lemma SpinIsPlain()
    ensures LabelOf("spin") == "spin"
  {
  }

  /** All three labels are defined, the image extends its upload part, and only code words are patched. */
  lemma ImageShape(program: seq<Byte>, key: Option<Byte>)
    ensures var b, u, n := Image(program, key), UploadPart(program, key), |SpinPart(program, key).words|;
      && AllDefined(b) && Extends(b, u) && Valid(EMPTY) && b.base == u.base == PROGRAM_BASE && Pc(EMPTY) == PROGRAM_BASE
      && n == 11 + |LoopBody(key)| && "prog" in b.labels && b.labels["prog"] == PROGRAM_BASE + 2 * n
      && |b.words| == n + |DataWords(Stored(program, key))| && |u.words| == 9 + |LoopBody(key)|
      && (forall i :: 0 <= i < |b.words| - n ==> b.words[n + i] == MaskedAll(DataWords(Stored(program, key)))[i])
      && (forall k :: 0 <= k < |b.fixups| ==> b.fixups[k].0 < n)
  {
    hide LabelOf;
    hide Emitted, Uploading, DataWords, Stored, Masked;
    var u, sp, b := UploadPart(program, key), SpinPart(program, key), Image(program, key);
    UploadingWords(EMPTY, "prog", |program|, "loop", key, Z80_RAM);
    EmittedIs(Labelled(u, "spin"), [0x6000]);
    EmittedIs(Labelled(sp, "prog"), DataWords(Stored(program, key)));
    LabelOfPcrel("prog");
    LabelOfDbra("loop");
    SpinIsPlain();
    assert "spin"[0] != "prog"[0] && "prog"[0] != "loop"[0] && "spin"[0] != "loop"[0];
  }

  /** A CPU about to run the resolved image. */
  ghost predicate Boots(s: Cpu, out: seq<nat>) {
    Holds(s.mem, PROGRAM_BASE, out) && s.pc == PROGRAM_BASE
  }

  /** Big-endian code bytes in memory are the words they were made from, so a CPU at a loaded image boots it. */
  lemma {:induction false} CodeHolds(mem: Memory, address: nat, words: seq<nat>)
    requires forall i :: 0 <= i < |words| ==> words[i] < 0x1_0000
    requires forall i :: 0 <= i < |BytesOf(words)| ==> Read(mem, address + i) == BytesOf(words)[i]
    ensures Holds(mem, address, words) && |BytesOf(words)| == 2 * |words|
    decreases |words|
  {
    hide Read, ReadWord;
    if words != [] {
      var rest, bytes := words[1..], BytesOf(words);
      assert bytes[0] == LowByte(words[0] / 256) && bytes[1] == LowByte(words[0]);
      forall i | 0 <= i < |BytesOf(rest)| ensures Read(mem, (address + 2) + i) == BytesOf(rest)[i] {
        assert Read(mem, address + (i + 2)) == bytes[i + 2];
      }
      CodeHolds(mem, address + 2, rest);
      BigEndian(mem, address, words[0]);
      forall i | 0 <= i < |words| ensures HoldsAt(mem, address, words, i) {
        assert i > 0 ==> HoldsAt(mem, address + 2, rest, i - 1);
      }
    }
  }

  lemma BigEndian(mem: Memory, address: nat, word: nat)
    requires word < 0x1_0000
    requires Read(mem, address) == LowByte(word / 256) && Read(mem, address + 1) == LowByte(word)
    ensures ReadWord(mem, address) == word
  {
  }

  /** `t` is `s` with `program` stored at the start of the Z80 RAM and nothing else in memory changed. */
  ghost predicate HasProgram(s: Cpu, t: Cpu, program: seq<Byte>) {
    && SameOutside(t.mem, s.mem, Z80_RAM, |program|)
    && forall i :: 0 <= i < |program| ==> Read(t.mem, Z80_RAM + i) == program[i]
  }

  /**
   In the finished program `b` an upload of `program` was emitted at `a` and its stored form was emitted behind
   `c`, under the label the upload names; whatever else was emitted before, between and after.
   */
  ghost predicate Loader(b: Asm, a: Asm, c: Asm, programLabel: string, loop: string, program: seq<Byte>, key: Option<Byte>) {
    && Valid(a) && Extends(b, Uploading(a, programLabel, |program|, loop, key, Z80_RAM))
    && Valid(c) && Extends(b, Emitted(Labelled(c, programLabel), DataWords(Stored(program, key))))
  }

  /** Code and data lie below the Z80 RAM, and the data within reach of the upload's first instruction. */
  ghost predicate InReach(a: Asm, c: Asm, programLabel: string, loop: string, program: seq<Byte>, key: Option<Byte>) {
    && 1 <= |program| <= Z80_RAM_BYTES
    && Pc(Uploading(a, programLabel, |program|, loop, key, Z80_RAM)) <= Z80_RAM
    && Pc(c) + |program| <= Z80_RAM && -0x8000 <= Pc(c) - (Pc(a) + 2) < 0x8000
  }

  /** An upload anywhere in any program stores exactly the bytes of the program it was given, raw or through any key. */
  lemma UploadLoads(b: Asm, a: Asm, c: Asm, programLabel: string, loop: string, program: seq<Byte>, key: Option<Byte>,
                    out: seq<nat>, s: Cpu)
    requires Loader(b, a, c, programLabel, loop, program, key) && InReach(a, c, programLabel, loop, program, key)
    requires Resolved(b, out) && Holds(s.mem, b.base, out) && s.pc == Pc(a)
    ensures Run(s, UploadSteps(|program|, key)).Some?
    ensures var t := Run(s, UploadSteps(|program|, key)).value;
      && HasProgram(s, t, program)
      && t.pc == Pc(Uploading(a, programLabel, |program|, loop, key, Z80_RAM))
      && Touched(s, UploadSteps(|program|, key)) == Span(Z80_RAM, |program|)
  {
    hide Read, ReadWord, Run, Step, Xor, Uploading, Stored, DataWords, Holds, Resolved, Extends, Touched, Span, Emitted;
    UploadCountIsLength(|program|);
    DataPlaced(b, c, programLabel, Stored(program, key), out, s.mem);
    UploadMeans(a, programLabel, |program|, loop, key, Z80_RAM, b, out, s);
    var t := Run(s, UploadSteps(|program|, key)).value;
    forall i | 0 <= i < |program| ensures Read(t.mem, Z80_RAM + i) == program[i] {
      assert Transferred(s.mem, t.mem, Pc(c), Z80_RAM, KeyOf(key), i);
      StoredDecodes(program, key, i);
    }
  }

  /** Plain words emitted behind `c` are what the finished program holds there. */
  lemma EmittedStays(b: Asm, c: Asm, values: seq<int>, out: seq<nat>)
    requires Valid(c) && Extends(b, Emitted(c, values)) && Resolved(b, out)
    ensures var n, m := |c.words|, |values|;
      b.base == c.base && |out| >= n + m && |MaskedAll(values)| == m && out[n..n + m] == MaskedAll(values)
    ensures forall name :: name in c.labels ==> name in b.labels && b.labels[name] == c.labels[name]
  {
    hide Resolved, Extends, Emitted, Unpatched, LabelOf;
    var u, n := Emitted(c, values), |c.words|;
    EmittedIs(c, values);
    ResolvedKeeps(u, b, out);
    forall i | 0 <= i < |values| ensures out[n + i] == MaskedAll(values)[i] {
      UnpatchedIs(u, n + i);
      assert u.words[n + i] == MaskedAll(values)[i];
    }
  }

  lemma LabelledIsValid(a: Asm, name: string)
    requires Valid(a)
    ensures Valid(Labelled(a, name)) && name in Labelled(a, name).labels && Labelled(a, name).labels[name] == Pc(a)
    ensures Labelled(a, name).words == a.words && Labelled(a, name).base == a.base
  {
  }

  /** Data emitted under a label stands there in memory, whatever was emitted around it. */
  lemma {:induction false} DataPlaced(b: Asm, c: Asm, name: string, payload: seq<Byte>, out: seq<nat>, mem: Memory)
    requires Valid(c) && Extends(b, Emitted(Labelled(c, name), DataWords(payload)))
    requires Resolved(b, out) && Holds(mem, b.base, out)
    ensures name in b.labels && b.labels[name] == Pc(c)
    ensures forall i :: 0 <= i < |payload| ==> Read(mem, Pc(c) + i) == payload[i]
  {
    hide Read, Holds, DataWords, Resolved, Emitted, Extends, MaskedAll, Valid, Labelled;
    LabelledIsValid(c, name);
    var n, m := |c.words|, |DataWords(payload)|;
    EmittedStays(b, Labelled(c, name), DataWords(payload), out);
    HoldsSlice(mem, b.base, out, n, n + m);
    DataHolds(mem, Pc(c), payload);
  }

  /** For every program of 1..8192 bytes, raw or encoded with any key, running the image loads the program. */
  lemma ImageLoads(program: seq<Byte>, key: Option<Byte>, out: seq<nat>, s: Cpu)
    requires 1 <= |program| <= Z80_RAM_BYTES
    requires Resolved(Image(program, key), out) && Boots(s, out)
    ensures Run(s, UploadSteps(|program|, key)).Some?
    ensures HasProgram(s, Run(s, UploadSteps(|program|, key)).value, program)
  {
    hide Run, Holds, Resolved, Image, SpinPart, Loader, InReach, HasProgram, Touched, Span;
    ImageIsLoader(program, key);
    ImageInReach(program, key);
    UploadLoads(Image(program, key), EMPTY, SpinPart(program, key), "prog", "loop", program, key, out, s);
  }

  lemma ImageIsLoader(program: seq<Byte>, key: Option<Byte>)
    ensures Loader(Image(program, key), EMPTY, SpinPart(program, key), "prog", "loop", program, key)
    ensures Image(program, key).base == PROGRAM_BASE == Pc(EMPTY)
  {
    hide Uploading, DataWords, Stored, Emitted, Extends, Valid;
    ImageShape(program, key);
    SpinIsValid(program, key);
    ExtendsItself(Image(program, key));
  }

  lemma ImageInReach(program: seq<Byte>, key: Option<Byte>)
    requires 1 <= |program| <= Z80_RAM_BYTES
    ensures InReach(EMPTY, SpinPart(program, key), "prog", "loop", program, key)
  {
    hide Uploading, SpinPart, Extends, AllDefined;
    ImageShape(program, key);
    SpinIsValid(program, key);
    assert |LoopBody(key)| <= 4;
  }

  lemma ExtendsItself(a: Asm)
    ensures Extends(a, a)
  {
  }

  lemma SpinIsValid(program: seq<Byte>, key: Option<Byte>)
    ensures Valid(SpinPart(program, key)) && SpinPart(program, key).base == PROGRAM_BASE
  {
    hide Uploading, Emitted;
    UploadingWords(EMPTY, "prog", |program|, "loop", key, Z80_RAM);
    EmittedIs(Labelled(UploadPart(program, key), "spin"), [0x6000]);
  }

  /** The raw and the computed upload of one program leave the same Z80 RAM behind. */
  lemma RawAndDecodedAgree(program: seq<Byte>, key: Byte, raw: seq<nat>, encoded: seq<nat>, s: Cpu, t: Cpu, x: nat)
    requires 1 <= |program| <= Z80_RAM_BYTES
    requires Resolved(Image(program, None), raw) && Boots(s, raw)
    requires Resolved(Image(program, Some(key)), encoded) && Boots(t, encoded)
    requires Z80_RAM <= x < Z80_RAM + Z80_RAM_BYTES && Read(s.mem, x) == Read(t.mem, x)
    ensures Run(s, UploadSteps(|program|, None)).Some? && Run(t, UploadSteps(|program|, Some(key))).Some?
    ensures Read(Run(s, UploadSteps(|program|, None)).value.mem, x)
         == Read(Run(t, UploadSteps(|program|, Some(key))).value.mem, x)
  {
    hide Read, Resolved, Boots, Run, Image;
    ImageLoads(program, None, raw, s);
    ImageLoads(program, Some(key), encoded, t);
    var u, v := Run(s, UploadSteps(|program|, None)).value, Run(t, UploadSteps(|program|, Some(key))).value;
    var i := x - Z80_RAM;
    if i < |program| {
      assert Read(u.mem, Z80_RAM + i) == program[i] == Read(v.mem, Z80_RAM + i);
    } else {
      assert Read(u.mem, x) == Read(s.mem, x) && Read(v.mem, x) == Read(t.mem, x);
    }
  }
}
