/** The RF5C164 chip of the Sega CD audio reference: registers, wave RAM, and one output sample. */
module Rf5c164 {
  import opened Basics

  const CHANNELS: nat := 8
  const ADDRESS_LIMIT: nat := 0x800_0000   // 2^27: 16 integer and 11 fraction bits
  const RAM_SIZE: nat := 0x10000

  /** The chip as a value; every per-channel list has eight entries. */
  datatype Chip = Chip(
    ram: seq<Byte>,
    env: seq<Byte>, pan: seq<Byte>, st: seq<Byte>,
    fd: seq<nat>, ls: seq<nat>, addr: seq<nat>,
    running: seq<bool>,
    idx: nat, bank: nat, enabled: bool)

  /** Register widths and the phase-address bound. */
  ghost predicate Wf(c: Chip) {
    && |c.ram| == RAM_SIZE
    && |c.env| == |c.pan| == |c.st| == |c.fd| == |c.ls| == |c.addr| == |c.running| == CHANNELS
    && (forall k :: 0 <= k < CHANNELS ==> c.fd[k] < 0x10000)
    && (forall k :: 0 <= k < CHANNELS ==> c.ls[k] < 0x10000)
    && (forall k :: 0 <= k < CHANNELS ==> c.addr[k] < ADDRESS_LIMIT)
    && c.idx < CHANNELS && c.bank < 16
  }

  function ResetChip(): (c: Chip)
    ensures Wf(c)
  {
    Chip(seq(RAM_SIZE, i => 0 as Byte), [0, 0, 0, 0, 0, 0, 0, 0], [255, 255, 255, 255, 255, 255, 255, 255],
         [0, 0, 0, 0, 0, 0, 0, 0], [0, 0, 0, 0, 0, 0, 0, 0], [0, 0, 0, 0, 0, 0, 0, 0], [0, 0, 0, 0, 0, 0, 0, 0],
         [false, false, false, false, false, false, false, false], 0, 0, false)
  }

  function StartAddress(st: int): int { st * 0x8_0000 }

  /** A stopped channel's phase sits at its start address; a running one keeps its phase. */
  function Restarted(c: Chip, running: seq<bool>): (addr: seq<nat>)
    requires Wf(c) && |running| == CHANNELS
    ensures |addr| == CHANNELS
    ensures forall k :: 0 <= k < CHANNELS ==> addr[k] == if running[k] then c.addr[k] else StartAddress(c.st[k])
  {
    seq(CHANNELS, k requires 0 <= k < CHANNELS => if running[k] then c.addr[k] else StartAddress(c.st[k]))
  }

  /** One register write; registers 9..0xFFF do nothing. */
  function Written(c: Chip, reg: nat, v: Byte): (r: Chip)
    requires Wf(c)
    ensures Wf(r)
  {
    var k := c.idx;
    if reg >= 0x1000 then c.(ram := c.ram[c.bank * 0x1000 + reg % 0x1000 := v])
    else if reg == 0 then c.(env := c.env[k := v])
    else if reg == 1 then c.(pan := c.pan[k := v])
    else if reg == 2 then c.(fd := c.fd[k := c.fd[k] / 256 * 256 + v])
    else if reg == 3 then c.(fd := c.fd[k := c.fd[k] % 256 + v * 256])
    else if reg == 4 then c.(ls := c.ls[k := c.ls[k] / 256 * 256 + v])
    else if reg == 5 then c.(ls := c.ls[k := c.ls[k] % 256 + v * 256])
    else if reg == 6 then
      c.(st := c.st[k := v], addr := if c.running[k] then c.addr else c.addr[k := StartAddress(v)])
    else if reg == 7 then
      var selected := if Bit(v, 6) then c.(idx := v % 8) else c.(bank := v % 16);
      selected.(enabled := v >= 128)
    else if reg == 8 then
      var running := seq(CHANNELS, b requires 0 <= b < CHANNELS => !Bit(v, b));
      c.(running := running, addr := Restarted(c, running))
    else c
  }

  // ----- one sample ------------------------------------------------------------------------------

  /** The byte a channel plays now (None: silent or at a loop marker that loops to a marker) and its next phase. */
  datatype Fetch = Fetch(byte: int, nextAddr: nat)

  predicate Plays(c: Chip, k: nat)
    requires Wf(c) && k < CHANNELS
  {
    c.running[k] && FetchOf(c, k).byte != 0xFF
  }

  function FetchOf(c: Chip, k: nat): (f: Fetch)
    requires Wf(c) && k < CHANNELS
    ensures 0 <= f.byte < 256 && f.nextAddr < ADDRESS_LIMIT
  {
    var b := c.ram[c.addr[k] / 0x800 % 0x10000];
    if b == 0xFF then Fetch(c.ram[c.ls[k]], c.ls[k] * 0x800)
    else Fetch(b, (c.addr[k] + c.fd[k]) % ADDRESS_LIMIT)
  }

  /** Unsigned product of magnitude, pan nibble and envelope, before the shift. */
  function Product(c: Chip, k: nat, right: bool): (p: nat)
    requires Wf(c) && k < CHANNELS
  {
    Times(Times(FetchOf(c, k).byte % 128, if right then c.pan[k] / 16 else c.pan[k] % 16), c.env[k])
  }

  function Times(a: nat, b: nat): nat { a * b }

  predicate Negative(c: Chip, k: nat)
    requires Wf(c) && k < CHANNELS
  {
    FetchOf(c, k).byte < 128
  }

  /** This tool's rule: the product is shifted first and signed after, so it rounds toward zero. */
  function TowardZero(c: Chip, k: nat, right: bool): int
    requires Wf(c) && k < CHANNELS
  {
    if Negative(c, k) then 0 - Product(c, k, right) / 32 else Product(c, k, right) / 32
  }

  /** The runtime's rule: the signed product is shifted, so it rounds toward minus infinity. */
  function TowardMinusInfinity(c: Chip, k: nat, right: bool): int
    requires Wf(c) && k < CHANNELS
  {
    if Negative(c, k) then (0 - Product(c, k, right)) / 32 else Product(c, k, right) / 32
  }

  /** Sum over channels below `n` under either rule. */
  function Mix(c: Chip, n: nat, right: bool, floor: bool): int
    requires Wf(c) && n <= CHANNELS
  {
    if n == 0 then 0
    else
      Mix(c, n - 1, right, floor) +
      (if !Plays(c, n - 1) then 0
       else if floor then TowardMinusInfinity(c, n - 1, right) else TowardZero(c, n - 1, right))
  }

  function Clamp16(v: int): int {
    if v < -32768 then -32768 else if v > 32767 then 32767 else v
  }

  function Output(c: Chip, floor: bool): (int, int)
    requires Wf(c)
  {
    if c.enabled then (Clamp16(Mix(c, CHANNELS, false, floor)), Clamp16(Mix(c, CHANNELS, true, floor))) else (0, 0)
  }

  /** The chip after a sample: every running channel of an enabled chip has moved to its next phase. */
  function Sampled(c: Chip): (r: Chip)
    requires Wf(c)
    ensures Wf(r)
  {
    if c.enabled then
      c.(addr := seq(CHANNELS, k requires 0 <= k < CHANNELS => if c.running[k] then FetchOf(c, k).nextAddr else c.addr[k]))
    else c
  }

  // ----- what a sample is, from the registers alone ----------------------------------------------

  /** The byte channel `k` reads: at its phase, or behind the loop marker at its loop address. */
  ghost function PlayedByte(c: Chip, k: nat): nat
    requires Wf(c) && k < CHANNELS
  {
    if c.ram[c.addr[k] / 0x800 % 0x10000] == 0xFF then c.ram[c.ls[k]] else c.ram[c.addr[k] / 0x800 % 0x10000]
  }

  /** `v` has the sign of the byte, and its magnitude is magnitude * nibble * envelope / 32 without its fraction. */
  ghost predicate IsPart(v: int, byte: nat, nibble: nat, env: nat) {
    && (byte >= 128 ==> v >= 0 && 32 * v <= (byte - 128) * nibble * env < 32 * v + 32)
    && (byte < 128 ==> v <= 0 && 32 * -v <= byte * nibble * env < 32 * -v + 32)
  }

  /** What channel `k` contributes to one side: its part under the low (left) or high (right) pan nibble, or nothing. */
  ghost predicate IsContribution(v: int, c: Chip, k: nat, right: bool)
    requires Wf(c) && k < CHANNELS
  {
    if c.running[k] && PlayedByte(c, k) != 0xFF then
      IsPart(v, PlayedByte(c, k), if right then c.pan[k] / 16 else c.pan[k] % 16, c.env[k])
    else v == 0
  }

  lemma PartIsUnique(v: int, w: int, byte: nat, nibble: nat, env: nat)
    requires IsPart(v, byte, nibble, env) && IsPart(w, byte, nibble, env)
    ensures v == w
  {
  }

  lemma PartOfProduct(byte: nat, nibble: nat, env: nat, product: nat)
    requires byte < 256 && product == byte % 128 * nibble * env
    ensures IsPart(if byte < 128 then 0 - product / 32 else product / 32, byte, nibble, env)
  {
  }

  lemma ContributionOf(c: Chip, k: nat, right: bool)
    requires Wf(c) && k < CHANNELS
    ensures IsContribution(if Plays(c, k) then TowardZero(c, k, right) else 0, c, k, right)
  {
    hide IsPart;
    PartOfProduct(PlayedByte(c, k), if right then c.pan[k] / 16 else c.pan[k] % 16, c.env[k], Product(c, k, right));
  }

  /** One stereo side: the sum of the eight contributions. */
  ghost predicate AreContributions(parts: seq<int>, c: Chip, right: bool)
    requires Wf(c)
  {
    |parts| == CHANNELS && forall k :: 0 <= k < CHANNELS ==> IsContribution(parts[k], c, k, right)
  }

  ghost function Total(parts: seq<int>): int {
    if parts == [] then 0 else Total(parts[..|parts| - 1]) + parts[|parts| - 1]
  }

  lemma {:induction false} MixIsTotal(c: Chip, n: nat, right: bool, parts: seq<int>)
    requires Wf(c) && n <= CHANNELS && AreContributions(parts, c, right)
    ensures Mix(c, n, right, false) == Total(parts[..n])
    decreases n
  {
    hide IsPart, Plays, TowardZero, PlayedByte;
    if n > 0 {
      MixIsTotal(c, n - 1, right, parts);
      ContributionOf(c, n - 1, right);
      ContributionIsUnique(parts[n - 1], if Plays(c, n - 1) then TowardZero(c, n - 1, right) else 0, c, n - 1, right);
      assert parts[..n][..n - 1] == parts[..n - 1];
    }
  }

  lemma ContributionIsUnique(v: int, w: int, c: Chip, k: nat, right: bool)
    requires Wf(c) && k < CHANNELS && IsContribution(v, c, k, right) && IsContribution(w, c, k, right)
    ensures v == w
  {
    hide IsPart, PlayedByte;
    if c.running[k] && PlayedByte(c, k) != 0xFF {
      PartIsUnique(v, w, PlayedByte(c, k), if right then c.pan[k] / 16 else c.pan[k] % 16, c.env[k]);
    }
  }

  /** `v` is `total`, or the nearer end of the 16-bit range when that is outside. */
  ghost predicate IsClamped(v: int, total: int) {
    -32768 <= v <= 32767 && (-32768 <= total <= 32767 ==> v == total)
    && (total < -32768 ==> v == -32768) && (total > 32767 ==> v == 32767)
  }

  /** One output sample: left is the clamped sum of the low-nibble parts, right that of the high-nibble parts. */
  ghost predicate IsSample(c: Chip, s: (int, int))
    requires Wf(c)
  {
    if c.enabled then
      exists left, right :: AreContributions(left, c, false) && AreContributions(right, c, true)
        && IsClamped(s.0, Total(left)) && IsClamped(s.1, Total(right))
    else s == (0, 0)
  }

  /** The machine's output is that sample, and there is no other. */
  lemma SampleFromRegisters(c: Chip, s: (int, int))
    requires Wf(c)
    ensures IsSample(c, s) <==> s == Output(c, false)
  {
    hide AreContributions, Mix;
    if c.enabled {
      var left, right := Contributions(c, false), Contributions(c, true);
      SideFromRegisters(left, c, false);
      SideFromRegisters(right, c, true);
      assert IsSample(c, Output(c, false));
      if IsSample(c, s) {
        var l, r :| AreContributions(l, c, false) && AreContributions(r, c, true)
          && IsClamped(s.0, Total(l)) && IsClamped(s.1, Total(r));
        SideFromRegisters(l, c, false);
        SideFromRegisters(r, c, true);
      }
    }
  }

  lemma SideFromRegisters(parts: seq<int>, c: Chip, right: bool)
    requires Wf(c) && AreContributions(parts, c, right)
    ensures Mix(c, CHANNELS, right, false) == Total(parts)
  {
    hide AreContributions, Mix;
    MixIsTotal(c, CHANNELS, right, parts);
    WholeList(parts, c, right);
  }

  lemma AllContribute(c: Chip, right: bool)
    requires Wf(c)
    ensures forall k :: 0 <= k < CHANNELS ==>
      IsContribution(if Plays(c, k) then TowardZero(c, k, right) else 0, c, k, right)
  {
    hide IsContribution, Plays, TowardZero;
    forall k | 0 <= k < CHANNELS
      ensures IsContribution(if Plays(c, k) then TowardZero(c, k, right) else 0, c, k, right)
    {
      ContributionOf(c, k, right);
    }
  }

  ghost function Contributions(c: Chip, right: bool): (parts: seq<int>)
    requires Wf(c)
    ensures AreContributions(parts, c, right)
  {
    AllContribute(c, right);
    seq(CHANNELS, k requires 0 <= k < CHANNELS => if Plays(c, k) then TowardZero(c, k, right) else 0)
  }

  lemma WholeList(parts: seq<int>, c: Chip, right: bool)
    requires Wf(c) && AreContributions(parts, c, right)
    ensures parts[..CHANNELS] == parts
  {
  }

  /** Channels panned away from a side leave it silent. */
  lemma {:induction false} PannedAway(c: Chip, n: nat, right: bool)
    requires Wf(c) && n <= CHANNELS
    requires forall k :: 0 <= k < n ==> !c.running[k] || (if right then c.pan[k] / 16 else c.pan[k] % 16) == 0
    ensures Mix(c, n, right, false) == 0
    decreases n
  {
    hide FetchOf;
    if n > 0 {
      PannedAway(c, n - 1, right);
    }
  }

  /** Power-on and reset: empty wave RAM, all pans open, everything else zero, nothing running, chip off. */
  lemma ResetMeans()
    ensures var c := ResetChip();
      && (forall x :: 0 <= x < 65536 ==> c.ram[x] == 0)
      && (forall k :: 0 <= k < 8 ==> c.env[k] == 0 && c.pan[k] == 0xFF && c.st[k] == 0)
      && (forall k :: 0 <= k < 8 ==> c.fd[k] == 0 && c.ls[k] == 0 && c.addr[k] == 0)
      && (forall k :: 0 <= k < 8 ==> !c.running[k]) && c.idx == 0 && c.bank == 0 && !c.enabled
  {
  }

  // ----- what the registers mean -----------------------------------------------------------------

  lemma BytePair(was: nat, lo: Byte, hi: Byte)
    ensures (was / 256 * 256 + lo as nat) % 256 == lo as nat
    ensures (was % 256 + hi as nat * 256) / 256 == hi as nat
  {
  }

  /** Registers 2 and 3 are the low and the high byte of the selected channel's frequency, in either order. */
  lemma FrequencyBytes(c: Chip, lo: Byte, hi: Byte)
    requires Wf(c)
    ensures Written(Written(c, 2, lo), 3, hi) == c.(fd := c.fd[c.idx := 256 * hi as nat + lo as nat])
    ensures Written(Written(c, 3, hi), 2, lo) == c.(fd := c.fd[c.idx := 256 * hi as nat + lo as nat])
  {
    hide Bit, Restarted;
    BytePair(c.fd[c.idx], lo, hi);
  }

  /** Registers 4 and 5 likewise for the loop address. */
  lemma LoopBytes(c: Chip, lo: Byte, hi: Byte)
    requires Wf(c)
    ensures Written(Written(c, 4, lo), 5, hi) == c.(ls := c.ls[c.idx := 256 * hi as nat + lo as nat])
    ensures Written(Written(c, 5, hi), 4, lo) == c.(ls := c.ls[c.idx := 256 * hi as nat + lo as nat])
  {
    hide Bit, Restarted;
    BytePair(c.ls[c.idx], lo, hi);
  }

  lemma BitSix(v: nat)
    ensures Bit(v, 6) <==> v / 64 % 2 == 1
  {
    assert Pow2(6) == 64;
    BitIs(v, 6);
  }

  /** Register 7 with bit 6 selects a channel, and its top bit enables the chip. */
  lemma SelectChannel(c: Chip, k: nat, on: bool)
    requires Wf(c) && k < 8
    ensures Written(c, 7, (if on then 192 else 64) + k) == c.(idx := k, enabled := on)
  {
    hide Bit, Restarted;
    BitSix((if on then 192 else 64) + k);
  }

  /** Without bit 6 it selects a bank. */
  lemma SelectBank(c: Chip, bank: nat, on: bool)
    requires Wf(c) && bank < 16
    ensures Written(c, 7, (if on then 128 else 0) + bank) == c.(bank := bank, enabled := on)
  {
    hide Bit, Restarted;
    BitSix((if on then 128 else 0) + bank);
  }

  /** A byte written through the bank window is at bank * 4096 + offset of the wave RAM, and nowhere else. */
  lemma WaveWrite(c: Chip, bank: nat, offset: nat, v: Byte, x: nat)
    requires Wf(c) && bank < 16 && offset < 0x1000 && x < RAM_SIZE
    ensures var r := Written(Written(c, 7, bank), 0x1000 + offset, v);
      r.ram[x] == if x == 0x1000 * bank + offset then v else c.ram[x]
  {
    hide Bit, Restarted;
    SelectBank(c, bank, false);
  }

  /** Register 8 runs exactly the channels whose bit is clear; a stopped one, and only it, is set back to its start. */
  lemma StartStopMeans(c: Chip, v: Byte, k: nat)
    requires Wf(c) && k < CHANNELS
    ensures var r := Written(c, 8, v);
      && (r.running[k] <==> v / Pow2(k) % 2 == 0)
      && r.addr[k] == if r.running[k] then c.addr[k] else 0x8_0000 * c.st[k] as nat
  {
    BitIs(v, k);
  }

  /** A start address takes effect at once on a stopped channel only. */
  lemma StartAddressMeans(c: Chip, v: Byte)
    requires Wf(c)
    ensures Written(c, 6, v).st[c.idx] == v
    ensures Written(c, 6, v).addr[c.idx] == if c.running[c.idx] then c.addr[c.idx] else 0x8_0000 * v as nat
  {
  }

  ghost function After(c: Chip, n: nat): (r: Chip)
    requires Wf(c)
    ensures Wf(r)
  {
    if n == 0 then c else Sampled(After(c, n - 1))
  }

  /** The phase n whole steps of `f` behind `a`, modulo the address space. */
  ghost function PhaseAt(a: nat, f: nat, n: nat): (p: nat)
    ensures p < ADDRESS_LIMIT && (n == 0 && a < ADDRESS_LIMIT ==> p == a)
  {
    (a + n * f) % ADDRESS_LIMIT
  }

  /** Away from markers a running channel of an enabled chip steps by its frequency, sample after sample. */
  lemma {:induction false} PhaseAfter(c: Chip, k: nat, n: nat)
    requires Wf(c) && k < CHANNELS && c.enabled && c.running[k]
    requires forall i: nat :: i < n ==> c.ram[PhaseAt(c.addr[k], c.fd[k], i) / 0x800] != 0xFF
    ensures After(c, n) == c.(addr := After(c, n).addr)
    ensures After(c, n).addr[k] == PhaseAt(c.addr[k], c.fd[k], n)
    decreases n
  {
    hide Sampled, FetchOf, PhaseAt;
    if n > 0 {
      PhaseAfter(c, k, n - 1);
      StepsOn(After(c, n - 1), k);
      NextPhase(c.addr[k], c.fd[k], n - 1);
    }
  }

  lemma StepsOn(c: Chip, k: nat)
    requires Wf(c) && k < CHANNELS && c.enabled && c.running[k]
    ensures Sampled(c) == c.(addr := Sampled(c).addr)
    ensures c.ram[c.addr[k] / 0x800] != 0xFF ==> Sampled(c).addr[k] == (c.addr[k] + c.fd[k]) % ADDRESS_LIMIT
  {
    assert c.addr[k] / 0x800 % 0x10000 == c.addr[k] / 0x800;
  }

  lemma NextPhase(a: nat, f: nat, n: nat)
    ensures (PhaseAt(a, f, n) + f) % ADDRESS_LIMIT == PhaseAt(a, f, n + 1)
  {
    OneMoreTime(n, f);
    AddThenWrap(a + n * f, f);
  }

  lemma OneMoreTime(n: nat, f: nat)
    ensures (n + 1) * f == n * f + f
  {
  }

  lemma AddThenWrap(a: nat, f: nat)
    ensures (a % ADDRESS_LIMIT + f) % ADDRESS_LIMIT == (a + f) % ADDRESS_LIMIT
  {
  }

  /** At a marker the byte at the loop address is played, and the channel goes on from that address. */
  lemma LoopsAtMarker(c: Chip, k: nat)
    requires Wf(c) && k < CHANNELS && c.enabled && c.running[k] && c.ram[c.addr[k] / 0x800] == 0xFF
    ensures PlayedByte(c, k) == c.ram[c.ls[k]]
    ensures Sampled(c).addr[k] == 0x800 * c.ls[k] && Sampled(c).addr[k] / 0x800 == c.ls[k]
  {
  }

  // ----- rounding bound --------------------------------------------------------------------------

  /** Running channels below `n` whose sample is negative. */
  ghost function NegativeChannels(c: Chip, n: nat): (r: nat)
    requires Wf(c) && n <= CHANNELS
    ensures r <= n
  {
    if n == 0 then 0 else NegativeChannels(c, n - 1) + if Plays(c, n - 1) && Negative(c, n - 1) then 1 else 0
  }

  lemma {:induction false} MixDifference(c: Chip, n: nat, right: bool)
    requires Wf(c) && n <= CHANNELS
    ensures 0 <= Mix(c, n, right, false) - Mix(c, n, right, true) <= NegativeChannels(c, n)
    decreases n
  {
    if n > 0 {
      MixDifference(c, n - 1, right);
      var p: int := Product(c, n - 1, right);
      assert 0 <= -(p / 32) - (-p) / 32 <= 1;
    }
  }

  /** The two rounding rules differ per side by at most the number of running negative channels, also after
      clamping, and the toward-zero sample is never the smaller one. */
  lemma RoundingBound(c: Chip)
    requires Wf(c)
    ensures 0 <= Output(c, false).0 - Output(c, true).0 <= NegativeChannels(c, CHANNELS)
    ensures 0 <= Output(c, false).1 - Output(c, true).1 <= NegativeChannels(c, CHANNELS)
  {
    MixDifference(c, CHANNELS, false);
    MixDifference(c, CHANNELS, true);
  }

  // ----- the machine as the tool runs it -----------------------------------------------------------

  class Rf5c164 {
    var ram: array<Byte>
    var env: seq<Byte>
    var pan: seq<Byte>
    var st: seq<Byte>
    var fd: seq<nat>
    var ls: seq<nat>
    var addr: seq<nat>
    var running: seq<bool>
    var idx: nat
    var bank: nat
    var enabled: bool

    ghost function State(): Chip
      reads this, ram
    {
      Chip(ram[..], env, pan, st, fd, ls, addr, running, idx, bank, enabled)
    }

    ghost predicate Valid()
      reads this, ram
    {
      Wf(State())
    }

    constructor ()
      ensures fresh(ram) && Valid() && State() == ResetChip()
    {
      ram := new Byte[RAM_SIZE](i => 0);
      env, st := [0, 0, 0, 0, 0, 0, 0, 0], [0, 0, 0, 0, 0, 0, 0, 0];
      pan := [255, 255, 255, 255, 255, 255, 255, 255];
      fd, ls, addr := [0, 0, 0, 0, 0, 0, 0, 0], [0, 0, 0, 0, 0, 0, 0, 0], [0, 0, 0, 0, 0, 0, 0, 0];
      running := [false, false, false, false, false, false, false, false];
      idx, bank, enabled := 0, 0, false;
      new;
      assert ram[..] == ResetChip().ram;
    }

    method Reset()
      modifies this
      ensures fresh(ram) && Valid() && State() == ResetChip()
    {
      ram := new Byte[RAM_SIZE](i => 0);
      env, st := [0, 0, 0, 0, 0, 0, 0, 0], [0, 0, 0, 0, 0, 0, 0, 0];
      pan := [255, 255, 255, 255, 255, 255, 255, 255];
      fd, ls, addr := [0, 0, 0, 0, 0, 0, 0, 0], [0, 0, 0, 0, 0, 0, 0, 0], [0, 0, 0, 0, 0, 0, 0, 0];
      running := [false, false, false, false, false, false, false, false];
      idx, bank, enabled := 0, 0, false;
      assert ram[..] == ResetChip().ram;
    }

    /** Register 8: a clear bit starts a channel, a set bit stops it and rewinds it. */
    method StartStop(v: Byte)
      requires Valid()
      modifies this`running, this`addr
      ensures Valid() && State() == Written(old(State()), 8, v)
    {
      ghost var before := State();
      for k := 0 to CHANNELS
        invariant |addr| == |running| == CHANNELS
        invariant forall j :: 0 <= j < k ==> running[j] == !Bit(v, j)
        invariant forall j :: 0 <= j < k ==> addr[j] == if running[j] then before.addr[j] else StartAddress(before.st[j])
        invariant forall j :: k <= j < CHANNELS ==> addr[j] == before.addr[j]
      {
        running := running[k := !Bit(v, k)];
        if !running[k] {
          addr := addr[k := StartAddress(st[k])];
        }
      }
      assert running == Written(before, 8, v).running;
      assert addr == Written(before, 8, v).addr;
    }

    /** Registers 0..5 of the selected channel: envelope, pan, frequency, loop address. */
    method WriteChannel(reg: nat, v: Byte)
      requires Valid() && reg < 6
      modifies this`env, this`pan, this`fd, this`ls
      ensures Valid() && State() == Written(old(State()), reg, v)
    {
      var c := idx;
      if reg == 0 {
        env := env[c := v];
      } else if reg == 1 {
        pan := pan[c := v];
      } else if reg == 2 {
        fd := fd[c := fd[c] / 256 * 256 + v];
      } else if reg == 3 {
        fd := fd[c := fd[c] % 256 + v * 256];
      } else if reg == 4 {
        ls := ls[c := ls[c] / 256 * 256 + v];
      } else {
        ls := ls[c := ls[c] % 256 + v * 256];
      }
    }

    /** Register 6: start address. Register 7: channel or bank select, and the enable bit. */
    method WriteControl(reg: nat, v: Byte)
      requires Valid() && 6 <= reg < 8
      modifies `st, `addr, `idx, `bank, `enabled
      ensures Valid() && State() == Written(old(State()), reg, v)
    {
      if reg == 6 {
        st := st[idx := v];
        if !running[idx] {
          addr := addr[idx := StartAddress(v)];
        }
      } else {
        if Bit(v, 6) {
          idx := v % 8;
        } else {
          bank := v % 16;
        }
        enabled := v >= 128;
      }
    }

    method Write(reg: nat, v: Byte)
      requires Valid()
      modifies this, ram
      ensures ram == old(ram) && Valid() && State() == Written(old(State()), reg, v)
    {
      ghost var before := State();
      if reg >= 0x1000 {
        ram[bank * 0x1000 + reg % 0x1000] := v;
        assert ram[..] == before.ram[bank * 0x1000 + reg % 0x1000 := v];
      } else if reg < 6 {
        WriteChannel(reg, v);
      } else if reg < 8 {
        WriteControl(reg, v);
      } else if reg == 8 {
        StartStop(v);
      }
    }

    method Sample() returns (left: int, right: int)
      requires Valid()
      modifies this`addr
      ensures Valid() && State() == Sampled(old(State()))
      ensures (left, right) == Output(old(State()), false) && IsSample(old(State()), (left, right))
    {
      hide IsSample, IsContribution;
      SampleFromRegisters(State(), Output(State(), false));
      left, right := 0, 0;
      if !enabled {
        return;
      }
      ghost var before := State();
      for c := 0 to CHANNELS
        invariant |addr| == CHANNELS
        invariant forall j :: 0 <= j < c ==> addr[j] == Sampled(before).addr[j]
        invariant forall j :: c <= j < CHANNELS ==> addr[j] == before.addr[j]
        invariant left == Mix(before, c, false, false) && right == Mix(before, c, true, false)
      {
        var l, r := SampleChannel(c, before);
        left, right := left + l, right + r;
      }
      assert addr == Sampled(before).addr;
      left, right := Clamp16(left), Clamp16(right);
    }

    /** One turn of the loop in `sample`: advance channel `c`, return its two contributions. */
    method SampleChannel(c: nat, ghost before: Chip) returns (l: int, r: int)
      requires Wf(before) && c < CHANNELS && |addr| == CHANNELS && addr[c] == before.addr[c]
      requires State() == before.(addr := addr)
      modifies this`addr
      ensures addr == old(addr)[c := if before.running[c] then FetchOf(before, c).nextAddr else before.addr[c]]
      ensures l == if Plays(before, c) then TowardZero(before, c, false) else 0
      ensures r == if Plays(before, c) then TowardZero(before, c, true) else 0
      ensures IsContribution(l, before, c, false) && IsContribution(r, before, c, true)
    {
      hide IsContribution;
      ContributionOf(before, c, false);
      ContributionOf(before, c, true);
      l, r := 0, 0;
      if !running[c] {
        return;
      }
      var b := ram[addr[c] / 0x800 % 0x10000];
      if b == 0xFF {
        addr := addr[c := ls[c] * 0x800];
        b := ram[ls[c]];
        if b == 0xFF {
          return;
        }
      } else {
        addr := addr[c := (addr[c] + fd[c]) % ADDRESS_LIMIT];
      }
      var mag: int := b % 128;
      var sign: int := if b >= 128 then 1 else -1;
      l := sign * (mag * (pan[c] % 16) * env[c] / 32);
      r := sign * (mag * (pan[c] / 16) * env[c] / 32);
    }
  }
}
