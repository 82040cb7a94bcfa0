/**
 The bounded discovery of copy aliases and RAM thunks: run the current program, and while it stops inside
 work RAM, explain the stop by a verbatim copy or by one recognised jump. Builds and runs are parameters.
 */
module AliasDiscovery {
  import opened Basics
  import opened CopyAlias
  import N = Numerals

  const STOP_UNEMITTED_TARGET: nat := 5
  const STOP_UNSUPPORTED_INTERRUPT: nat := 6
  const STOP_DISPATCH_INCONSISTENCY: nat := 7
  const IRQ6_VECTOR_OFFSET: nat := 0x78
  const HINT_VECTOR_OFFSET: nat := 0x70
  const MAX_JUMP: nat := 6   // bytes of the longer jump form

  type RamDump = r: seq<Byte> | |r| == WORK_RAM_SIZE witness seq(WORK_RAM_SIZE, i => 0 as Byte)

  /** The bytes of one JMP (xxx).W or JMP (xxx).L as hex text. */
  type JumpText = s: string | |s| == 8 || |s| == 12 witness "4ef80000"

  datatype Thunk = Thunk(address: nat, text: JumpText)

  function ThunkEnd(t: Thunk): nat { t.address + |t.text| / 2 }

  datatype Reason =
    | RouteAdvanced | NoWorkRamFrontier | NotVerbatimCopy | RepeatedAlias | RunnerResourceLimit
    | NonAliasFrontier | MaxRounds | ToolFailure | RamThunkMismatch

  /** What building and running the current program shows. */
  datatype Observation =
    | BuildFailed | UnknownOutcome | BadDump
    | ResourceLimit | RanOn
    | GuestStop(pc: nat, stopClass: nat, ram: RamDump)

  datatype Step = Finish(reason: Reason) | AddThunk(thunk: Thunk) | SetAliases(aliases: seq<Alias>)

  // ----- invariants ----------------------------------------------------------------------------------------

  /** An even alias of at least 16 bytes that lies inside work RAM and inside the image. */
  ghost predicate InBounds(a: Alias, romSize: nat) {
    && a.execution % 2 == 0 && a.source % 2 == 0 && a.length % 2 == 0 && a.length >= MIN_RUN
    && WORK_RAM_BEGIN <= a.execution && End(a) <= WORK_RAM_BEGIN + WORK_RAM_SIZE
    && a.source + a.length <= romSize
  }

  ghost predicate AllInBounds(s: seq<Alias>, romSize: nat) {
    forall i :: 0 <= i < |s| ==> InBounds(s[i], romSize)
  }

  /** Thunks are sorted by address and no two of them share a byte. */
  ghost predicate Apart(thunks: seq<Thunk>) {
    forall i, j :: 0 <= i < j < |thunks| ==> ThunkEnd(thunks[i]) <= thunks[j].address
  }

  lemma {:induction false} FoldInBounds(merged: seq<Alias>, rest: seq<Alias>, romSize: nat)
    requires Continues(merged, rest) && AllInBounds(merged, romSize) && AllInBounds(rest, romSize)
    ensures AllInBounds(Folded(merged, rest), romSize)
    decreases |rest|
  {
    if rest != [] {
      FoldContinues(merged, rest);
      FoldInBounds(Absorbed(merged, rest[0]), rest[1..], romSize);
    }
  }

  /** Merging stays inside both memories. */
  lemma MergedInBounds(aliases: seq<Alias>, romSize: nat)
    requires AllInBounds(aliases, romSize)
    ensures AllInBounds(Merged(aliases), romSize)
  {
    hide Sorted, InBounds, Folded;
    SortedAscends(aliases);
    forall i | 0 <= i < |Sorted(aliases)| ensures InBounds(Sorted(aliases)[i], romSize) {
      assert Sorted(aliases)[i] in aliases;
    }
    FoldInBounds([], Sorted(aliases), romSize);
  }

  // ----- one round -------------------------------------------------------------------------------------------

  predicate Overlaps(a: nat, aEnd: nat, b: nat, bEnd: nat) { a < bEnd && b < aEnd }

  /** The work-RAM target of a vector slot (24 bits, big-endian), when the image holds the slot. */
  function VectorTarget(rom: seq<Byte>, slot: nat): Option<nat> {
    if |rom| >= slot + 4 then Some(rom[slot + 1] as nat * 0x1_0000 + rom[slot + 2] as nat * 0x100 + rom[slot + 3] as nat)
    else None
  }

  predicate InThunks(thunks: seq<Thunk>, address: nat) {
    exists i :: 0 <= i < |thunks| && thunks[i].address == address
  }

  predicate InAliases(aliases: seq<Alias>, address: nat) {
    exists i :: 0 <= i < |aliases| && aliases[i].execution <= address < End(aliases[i])
  }

  /** A vector slot still to be explained; the H-interrupt slot also counts as explained inside an alias. */
  predicate Candidate(rom: seq<Byte>, aliases: seq<Alias>, thunks: seq<Thunk>, slot: nat) {
    && VectorTarget(rom, slot).Some?
    && VectorTarget(rom, slot).value >= WORK_RAM_BEGIN
    && !InThunks(thunks, VectorTarget(rom, slot).value)
    && !(slot == HINT_VECTOR_OFFSET && InAliases(aliases, VectorTarget(rom, slot).value))
  }

  /** Which PC a stop asks to explain, and whether only a thunk may explain it; `None`: no copy alias can. */
  function Frontier(rom: seq<Byte>, aliases: seq<Alias>, thunks: seq<Thunk>, pc: nat, stopClass: nat): Option<(nat, bool)> {
    if stopClass == STOP_UNSUPPORTED_INTERRUPT then
      if Candidate(rom, aliases, thunks, IRQ6_VECTOR_OFFSET) then Some((VectorTarget(rom, IRQ6_VECTOR_OFFSET).value, true))
      else if Candidate(rom, aliases, thunks, HINT_VECTOR_OFFSET) then Some((VectorTarget(rom, HINT_VECTOR_OFFSET).value, false))
      else None
    else if stopClass == STOP_UNEMITTED_TARGET || stopClass == STOP_DISPATCH_INCONSISTENCY then Some((pc, false))
    else None
  }

  /** A vector is the 24-bit address stored big-endian behind the slot's first byte; a slot beyond the image is none. */
  lemma VectorIsBigEndian(rom: seq<Byte>, slot: nat, address: nat)
    requires address < 0x100_0000
    requires |rom| >= slot + 4 ==> rom[slot + 1] == address / 0x1_0000 && rom[slot + 2] == address / 0x100 % 0x100
                                   && rom[slot + 3] == address % 0x100
    ensures VectorTarget(rom, slot) == if |rom| >= slot + 4 then Some(address) else None
  {
  }

  /** A slot names a work-RAM stub that is not yet a thunk. */
  ghost predicate NewStub(rom: seq<Byte>, thunks: seq<Thunk>, slot: nat) {
    && VectorTarget(rom, slot).Some? && VectorTarget(rom, slot).value >= 0xFF_0000
    && forall t :: t in thunks ==> t.address != VectorTarget(rom, slot).value
  }

  /**
   What a stop asks to explain. An undeliverable interrupt: the IRQ6 stub first, by a thunk only; then the
   H-interrupt stub unless an alias already maps it, by an alias too. An unemitted target or inconsistent
   dispatch: the PC itself. Anything else: nothing.
   */
  lemma FrontierRules(rom: seq<Byte>, aliases: seq<Alias>, thunks: seq<Thunk>, pc: nat, stopClass: nat)
    ensures var f := Frontier(rom, aliases, thunks, pc, stopClass);
      var irq6 := NewStub(rom, thunks, 0x78);
      var hint := NewStub(rom, thunks, 0x70)
        && forall a :: a in aliases ==> !(a.execution <= VectorTarget(rom, 0x70).value < a.execution + a.length);
      && (stopClass == 6 && irq6 ==> f == Some((VectorTarget(rom, 0x78).value, true)))
      && (stopClass == 6 && !irq6 && hint ==> f == Some((VectorTarget(rom, 0x70).value, false)))
      && (stopClass == 6 && !irq6 && !hint ==> f == None)
      && (stopClass == 5 || stopClass == 7 ==> f == Some((pc, false)))
      && (stopClass != 5 && stopClass != 6 && stopClass != 7 ==> f == None)
  {
    hide VectorTarget;
  }

  function ByteText(b: Byte): string { N.Padded(N.Render(b, N.LOWER_HEX), 2) }

  function HexText(bytes: seq<Byte>): string
    decreases |bytes|
  {
    if bytes == [] then "" else ByteText(bytes[0]) + HexText(bytes[1..])
  }

  /** Two lower-case hex digits a byte, in order. */
  lemma {:induction false} HexTextReads(bytes: seq<Byte>, i: nat)
    requires i < |bytes|
    ensures |HexText(bytes)| == 2 * |bytes|
    ensures N.DigitsOf(HexText(bytes)[2 * i..2 * i + 2], N.LOWER_HEX)
    ensures N.Parse(HexText(bytes)[2 * i..2 * i + 2], N.LOWER_HEX) == bytes[i] as nat
    decreases |bytes|
  {
    hide N.DigitsOf, N.Parse, ByteText;
    ByteReads(bytes[0]);
    assert HexText(bytes) == ByteText(bytes[0]) + HexText(bytes[1..]);
    if i > 0 {
      HexTextReads(bytes[1..], i - 1);
      assert HexText(bytes)[2 * i..2 * i + 2] == HexText(bytes[1..])[2 * (i - 1)..2 * (i - 1) + 2];
    } else {
      assert HexText(bytes)[0..2] == ByteText(bytes[0]);
      if |bytes| > 1 {
        HexTextReads(bytes[1..], 0);
      }
    }
  }

  lemma ByteReads(b: Byte)
    ensures |ByteText(b)| == 2 && N.DigitsOf(ByteText(b), N.LOWER_HEX) && N.Parse(ByteText(b), N.LOWER_HEX) == b as nat
  {
    hide N.Render, N.DigitsOf, N.Parse, N.Padded;
    assert N.Power(16, 2) == 256;
    N.RenderFits(b, 2, N.LOWER_HEX);
    N.ParsePadded(N.Render(b, N.LOWER_HEX), 2, N.LOWER_HEX);
    N.ParseRender(b, N.LOWER_HEX);
  }

  predicate Inside(t: Thunk, pc: nat) { t.address <= pc < ThunkEnd(t) }

  /** The PC lies in a materialized thunk. */
  ghost predicate Clash(thunks: seq<Thunk>, pc: nat) {
    exists i :: 0 <= i < |thunks| && Inside(thunks[i], pc)
  }

  /** The PC starts a materialized thunk whose bytes it still shows. */
  ghost predicate ShowsThunk(thunks: seq<Thunk>, pc: nat, window: string) {
    exists i :: 0 <= i < |thunks| && thunks[i].address == pc && thunks[i].text <= window
  }

  /** Index of the first thunk the PC lies in. */
  method FindClash(thunks: seq<Thunk>, pc: nat) returns (clash: Option<nat>)
    ensures clash.Some? ==> clash.value < |thunks| && Inside(thunks[clash.value], pc)
    ensures clash.None? <==> !Clash(thunks, pc)
  {
    for i := 0 to |thunks|
      invariant forall k :: 0 <= k < i ==> !Inside(thunks[k], pc)
    {
      if Inside(thunks[i], pc) {
        return Some(i);
      }
    }
    clash := None;
  }

  /** Thunks do not overlap, so the one the PC lies in decides whether the PC shows a thunk. */
  lemma ClashDecides(thunks: seq<Thunk>, pc: nat, window: string, i: nat)
    requires Apart(thunks) && i < |thunks| && Inside(thunks[i], pc)
    ensures ShowsThunk(thunks, pc, window) <==> thunks[i].address == pc && thunks[i].text <= window
  {
    forall k | 0 <= k < |thunks| && thunks[k].address == pc ensures k == i {
    }
  }

  predicate HitsThunk(thunks: seq<Thunk>, a: nat, end: nat) {
    exists i :: 0 <= i < |thunks| && Overlaps(thunks[i].address, ThunkEnd(thunks[i]), a, end)
  }

  predicate HitsAlias(aliases: seq<Alias>, a: nat, end: nat) {
    exists i :: 0 <= i < |aliases| && Overlaps(aliases[i].execution, End(aliases[i]), a, end)
  }

  /** The at most six bytes at the PC, as the recogniser is shown them. */
  function Window(ram: RamDump, pc: nat): string
    requires WORK_RAM_BEGIN <= pc < WORK_RAM_BEGIN + WORK_RAM_SIZE
  {
    var offset := pc - WORK_RAM_BEGIN;
    HexText(ram[offset..if offset + MAX_JUMP <= |ram| then offset + MAX_JUMP else |ram|])
  }

  /** The window shows the work RAM from the PC on: six bytes, or as many as are left. */
  lemma WindowReads(ram: RamDump, pc: nat, i: nat)
    requires WORK_RAM_BEGIN <= pc && pc + i < WORK_RAM_BEGIN + WORK_RAM_SIZE && i < 6
    ensures var left := WORK_RAM_BEGIN + WORK_RAM_SIZE - pc;
      |Window(ram, pc)| == 2 * (if left < 6 then left else 6)
    ensures N.DigitsOf(Window(ram, pc)[2 * i..2 * i + 2], N.LOWER_HEX)
    ensures N.Parse(Window(ram, pc)[2 * i..2 * i + 2], N.LOWER_HEX) == ram[pc - WORK_RAM_BEGIN + i] as nat
  {
    hide HexText, N.DigitsOf, N.Parse;
    var o := pc - WORK_RAM_BEGIN;
    HexTextReads(ram[o..if o + MAX_JUMP <= |ram| then o + MAX_JUMP else |ram|], i);
  }

  /** A thunk covers as many bytes as its hex text stands for. */
  lemma ThunkCovers(address: nat, bytes: seq<Byte>)
    requires |bytes| == 4 || |bytes| == 6
    ensures |HexText(bytes)| == 2 * |bytes|
    ensures ThunkEnd(Thunk(address, HexText(bytes))) == address + |bytes|
  {
    hide HexText;
    HexTextReads(bytes, 0);
  }

  /** The recognised jump shares a byte with a materialized thunk. */
  ghost predicate Straddles(thunks: seq<Thunk>, pc: nat, text: Option<JumpText>) {
    text.Some? && HitsThunk(thunks, pc, pc + |text.value| / 2)
  }

  ghost predicate TouchesAlias(aliases: seq<Alias>, pc: nat, text: Option<JumpText>) {
    text.Some? && HitsAlias(aliases, pc, pc + |text.value| / 2)
  }

  /** What a stop that is no verbatim copy leads to; for given inputs exactly one step satisfies its cause. */
  ghost predicate IsThunkStep(aliases: seq<Alias>, thunks: seq<Thunk>, pc: nat, window: string, text: Option<JumpText>, step: Step) {
    match step
    case Finish(RamThunkMismatch) =>
      if Clash(thunks, pc) then !ShowsThunk(thunks, pc, window) else Straddles(thunks, pc, text)
    case Finish(NotVerbatimCopy) => !Clash(thunks, pc) && text.None?
    case Finish(RepeatedAlias) =>
      if Clash(thunks, pc) then ShowsThunk(thunks, pc, window)
      else !Straddles(thunks, pc, text) && TouchesAlias(aliases, pc, text)
    case AddThunk(t) =>
      && !Clash(thunks, pc) && text.Some? && t == Thunk(pc, text.value)
      && !Straddles(thunks, pc, text) && !TouchesAlias(aliases, pc, text)
    case _ => false
  }

  /** A stop that is no verbatim copy: the recogniser may turn it into a thunk. */
  method ExplainByThunk(aliases: seq<Alias>, thunks: seq<Thunk>, pc: nat, ram: RamDump,
                        classify: (nat, string) -> Option<JumpText>) returns (step: Step)
    requires WORK_RAM_BEGIN <= pc < WORK_RAM_BEGIN + WORK_RAM_SIZE && Apart(thunks)
    ensures var window := Window(ram, pc); IsThunkStep(aliases, thunks, pc, window, classify(pc, window), step)
  {
    hide HexText, Apart, ShowsThunk;
    var window := Window(ram, pc);
    var clash := FindClash(thunks, pc);
    if clash.Some? {
      ClashDecides(thunks, pc, window, clash.value);
      var t := thunks[clash.value];
      return Finish(if t.address == pc && t.text <= window then RepeatedAlias else RamThunkMismatch);
    }
    var text := classify(pc, window);
    if text.Some? && HitsThunk(thunks, pc, pc + |text.value| / 2) {
      return Finish(RamThunkMismatch);
    }
    if text.None? {
      return Finish(NotVerbatimCopy);
    }
    if HitsAlias(aliases, pc, pc + |text.value| / 2) {
      return Finish(RepeatedAlias);
    }
    step := AddThunk(Thunk(pc, text.value));
  }

  ghost predicate InWorkRam(pc: nat) {
    pc % 2 == 0 && WORK_RAM_BEGIN <= pc < WORK_RAM_BEGIN + WORK_RAM_SIZE
  }

  /** A derived proposal leads to the merged aliases, or ends the phase when they are the old ones. */
  ghost predicate IsAliasStep(aliases: seq<Alias>, proposal: Alias, step: Step) {
    var merged := Merged(aliases + [proposal]);
    step == if merged == aliases then Finish(RepeatedAlias) else SetAliases(merged)
  }

  /** What a stop leads to, cause by cause. */
  ghost predicate IsStep(rom: seq<Byte>, aliases: seq<Alias>, thunks: seq<Thunk>, stopPc: nat, stopClass: nat, ram: RamDump,
                         classify: (nat, string) -> Option<JumpText>, step: Step) {
    match Frontier(rom, aliases, thunks, stopPc, stopClass)
    case None => step == Finish(NonAliasFrontier)
    case Some((pc, thunkOnly)) =>
      if !InWorkRam(pc) then step == Finish(NoWorkRamFrontier)
      else if thunkOnly || !Explainable(rom, ram, pc) then
        var window := Window(ram, pc);
        IsThunkStep(aliases, thunks, pc, window, classify(pc, window), step)
      else exists p :: Derived(rom, ram, pc, p) && IsAliasStep(aliases, p, step)
  }

  /** The stop's PC is already explained: a thunk starts there, its jump touches an alias, or an alias maps it. */
  ghost predicate AlreadyExplained(aliases: seq<Alias>, thunks: seq<Thunk>, pc: nat) {
    || InThunks(thunks, pc)
    || HitsAlias(aliases, pc, pc + MAX_JUMP)
    || (exists p :: Relates(aliases, pc, p))
  }

  /** Every continuing step adds something, and "repeated" means that nothing was left to add. */
  lemma StepMeans(rom: seq<Byte>, aliases: seq<Alias>, thunks: seq<Thunk>, stopPc: nat, stopClass: nat, ram: RamDump,
                  classify: (nat, string) -> Option<JumpText>, step: Step)
    requires IsStep(rom, aliases, thunks, stopPc, stopClass, ram, classify, step) && AllInBounds(aliases, |rom|)
    ensures step.AddThunk? ==> !HitsThunk(thunks, step.thunk.address, ThunkEnd(step.thunk))
                               && !HitsAlias(aliases, step.thunk.address, ThunkEnd(step.thunk))
    ensures step.SetAliases? ==>
      && step.aliases != aliases && Normal(step.aliases) && AllInBounds(step.aliases, |rom|)
      && forall e, p :: Relates(aliases, e, p) ==> Relates(step.aliases, e, p)
    ensures step == Finish(RepeatedAlias) ==>
      Frontier(rom, aliases, thunks, stopPc, stopClass).Some?
      && AlreadyExplained(aliases, thunks, Frontier(rom, aliases, thunks, stopPc, stopClass).value.0)
  {
    hide Normal, Relates, CoversStop, Explainable, Window, Merged, Frontier;
    var frontier := Frontier(rom, aliases, thunks, stopPc, stopClass);
    if frontier.Some? && InWorkRam(frontier.value.0) && !frontier.value.1 && Explainable(rom, ram, frontier.value.0) {
      var pc := frontier.value.0;
      var p :| Derived(rom, ram, pc, p) && IsAliasStep(aliases, p, step);
      ProposalMerges(rom, aliases, ram, pc, p, Merged(aliases + [p]));
    }
  }

  method HandleStop(rom: seq<Byte>, aliases: seq<Alias>, thunks: seq<Thunk>, stopPc: nat, stopClass: nat, ram: RamDump,
                    classify: (nat, string) -> Option<JumpText>) returns (step: Step)
    requires Normal(aliases) && AllInBounds(aliases, |rom|) && Apart(thunks)
    ensures IsStep(rom, aliases, thunks, stopPc, stopClass, ram, classify, step)
  {
    hide Normal, Explainable, Window, IsThunkStep, Apart, Derived;
    var frontier := Frontier(rom, aliases, thunks, stopPc, stopClass);
    if frontier.None? {
      return Finish(NonAliasFrontier);
    }
    var (pc, thunkOnly) := frontier.value;
    if pc % 2 == 1 || !(WORK_RAM_BEGIN <= pc < WORK_RAM_BEGIN + WORK_RAM_SIZE) {
      return Finish(NoWorkRamFrontier);
    }
    var proposal: Option<Alias> := None;
    if !thunkOnly {
      proposal := DeriveCopyAlias(rom, ram, pc);
    }
    if proposal.None? {
      step := ExplainByThunk(aliases, thunks, pc, ram, classify);
      return;
    }
    var merged := MergeCopyAliases(aliases + [proposal.value]);
    step := if merged == aliases then Finish(RepeatedAlias) else SetAliases(merged);
    assert IsAliasStep(aliases, proposal.value, step);
  }

  /** A derived proposal lies in bounds, its merge is normal and keeps every pair, and it maps the stop's PC. */
  lemma ProposalMerges(rom: seq<Byte>, aliases: seq<Alias>, ram: RamDump, pc: nat, proposal: Alias, merged: seq<Alias>)
    requires AllInBounds(aliases, |rom|) && CoversStop(rom, ram, pc, proposal) && merged == Merged(aliases + [proposal])
    ensures Normal(merged) && AllInBounds(merged, |rom|)
    ensures forall e, p :: Relates(aliases, e, p) ==> Relates(merged, e, p)
    ensures merged == aliases ==> Relates(aliases, pc, StopPosition(proposal, pc))
  {
    hide Merged, Normal;
    var more := aliases + [proposal];
    assert InBounds(proposal, |rom|);
    MergedIsNormal(more);
    MergedInBounds(more, |rom|);
    forall e, p | Relates(aliases, e, p) ensures Relates(merged, e, p) {
      MergedKeepsPairs(more, e, p);
      var i :| 0 <= i < |aliases| && Maps(aliases[i], e, p);
      assert Maps(more[i], e, p);
    }
    if merged == aliases {
      assert Maps(proposal, pc, StopPosition(proposal, pc));
      UnchangedAddsNoPair(aliases, proposal, pc, StopPosition(proposal, pc));
    }
  }

  /** One more thunk, and a sorted list again. */
  ghost predicate Added(thunks: seq<Thunk>, t: Thunk, r: seq<Thunk>) {
    Apart(r) && |r| == |thunks| + 1 && forall x :: x in r <==> x in thunks || x == t
  }

  /** `thunks.append(...)` followed by `thunks.sort()`. */
  method InsertThunk(thunks: seq<Thunk>, t: Thunk) returns (r: seq<Thunk>)
    requires Apart(thunks) && !HitsThunk(thunks, t.address, ThunkEnd(t))
    ensures Added(thunks, t, r)
  {
    var i := 0;
    while i < |thunks| && thunks[i].address < t.address
      invariant 0 <= i <= |thunks| && forall k :: 0 <= k < i ==> thunks[k].address < t.address
    {
      i := i + 1;
    }
    r := thunks[..i] + [t] + thunks[i..];
    forall k | 0 <= k < |thunks|
      ensures k < i ==> ThunkEnd(thunks[k]) <= t.address
      ensures k >= i ==> ThunkEnd(t) <= thunks[k].address
    {
      assert !Overlaps(thunks[k].address, ThunkEnd(thunks[k]), t.address, ThunkEnd(t));
      assert k > i ==> ThunkEnd(thunks[i]) <= thunks[k].address;
    }
  }

  /** Why an observation ends the phase for this reason. */
  ghost predicate Justified(rom: seq<Byte>, classify: (nat, string) -> Option<JumpText>, aliases: seq<Alias>, thunks: seq<Thunk>,
                            o: Observation, r: Reason) {
    match o
    case BuildFailed => r.ToolFailure?
    case UnknownOutcome => r.ToolFailure?
    case BadDump => r.ToolFailure?
    case ResourceLimit => r.RunnerResourceLimit?
    case RanOn => r.RouteAdvanced?
    case GuestStop(pc, stopClass, ram) => IsStep(rom, aliases, thunks, pc, stopClass, ram, classify, Finish(r))
  }

  /** What the rounds so far have found. */
  datatype Found = Found(aliases: seq<Alias>, thunks: seq<Thunk>)

  /** One round leads from `f` to `g`: its stop asks for exactly the alias list or the thunk that is new. */
  ghost predicate Round(rom: seq<Byte>, classify: (nat, string) -> Option<JumpText>, f: Found, o: Observation, g: Found) {
    && o.GuestStop?
    && ((g.thunks == f.thunks
         && IsStep(rom, f.aliases, f.thunks, o.pc, o.stopClass, o.ram, classify, SetAliases(g.aliases)))
        || (g.aliases == f.aliases && exists t ::
              IsStep(rom, f.aliases, f.thunks, o.pc, o.stopClass, o.ram, classify, AddThunk(t)) && Added(f.thunks, t, g.thunks)))
  }

  /** All completed rounds, from nothing found; round numbers start at one. */
  ghost predicate IsHistory(rom: seq<Byte>, observe: (nat, seq<Alias>, seq<Thunk>) -> Observation,
                            classify: (nat, string) -> Option<JumpText>, history: seq<Found>) {
    && history != [] && history[0] == Found([], [])
    && forall k :: 0 <= k < |history| - 1 ==> RoundAt(rom, observe, classify, history, k)
  }

  ghost predicate RoundAt(rom: seq<Byte>, observe: (nat, seq<Alias>, seq<Thunk>) -> Observation,
                          classify: (nat, string) -> Option<JumpText>, history: seq<Found>, k: nat)
    requires k + 1 < |history|
  {
    Round(rom, classify, history[k], observe(k + 1, history[k].aliases, history[k].thunks), history[k + 1])
  }

  lemma OneMoreRound(rom: seq<Byte>, observe: (nat, seq<Alias>, seq<Thunk>) -> Observation,
                     classify: (nat, string) -> Option<JumpText>, history: seq<Found>, next: Found)
    requires IsHistory(rom, observe, classify, history)
    requires var last := history[|history| - 1];
      Round(rom, classify, last, observe(|history|, last.aliases, last.thunks), next)
    ensures IsHistory(rom, observe, classify, history + [next])
  {
    hide Round;
    var more := history + [next];
    forall k | 0 <= k < |more| - 1 ensures RoundAt(rom, observe, classify, more, k) {
      assert k < |history| - 1 ==> RoundAt(rom, observe, classify, history, k);
    }
  }

  // ----- the loop ----------------------------------------------------------------------------------------------

  /**
   `discover_copy_aliases`. Whatever the builds and runs show: every completed round adds exactly what its stop
   asks for, the aliases stay strictly sorted, unjoinable and inside both memories, and the thunks stay sorted
   and disjoint. The phase is cut off only after `limit` completed rounds; any other end is justified by what the
   last round observed with the final aliases and thunks.
   */
  method DiscoverCopyAliases(rom: seq<Byte>, limit: nat, observe: (nat, seq<Alias>, seq<Thunk>) -> Observation,
                             classify: (nat, string) -> Option<JumpText>)
    returns (aliases: seq<Alias>, thunks: seq<Thunk>, reason: Reason, rounds: nat, ghost history: seq<Found>)
    ensures Normal(aliases) && AllInBounds(aliases, |rom|)
    ensures Apart(thunks)
    ensures IsHistory(rom, observe, classify, history) && history[|history| - 1] == Found(aliases, thunks)
    ensures rounds <= limit && |history| == if reason.MaxRounds? then limit + 1 else rounds
    ensures |thunks| <= rounds && (reason.MaxRounds? ==> rounds == limit)
    ensures !reason.MaxRounds? ==> rounds > 0 && Justified(rom, classify, aliases, thunks, observe(rounds, aliases, thunks), reason)
  {
    hide Normal, AllInBounds, IsStep, IsHistory, Apart;
    aliases, thunks, reason, rounds, history := [], [], MaxRounds, 0, [Found([], [])];
    NothingFound(rom, observe, classify);
    while rounds < limit
      invariant |thunks| <= rounds <= limit && reason.MaxRounds? && |history| == rounds + 1
      invariant IsHistory(rom, observe, classify, history) && history[rounds] == Found(aliases, thunks)
      invariant Normal(aliases) && AllInBounds(aliases, |rom|) && Apart(thunks)
      decreases limit - rounds
    {
      rounds := rounds + 1;
      match observe(rounds, aliases, thunks)
      case BuildFailed => reason := ToolFailure; break;
      case UnknownOutcome => reason := ToolFailure; break;
      case BadDump => reason := ToolFailure; break;
      case ResourceLimit => reason := RunnerResourceLimit; break;
      case RanOn => reason := RouteAdvanced; break;
      case GuestStop(pc, stopClass, ram) =>
        var step := HandleStop(rom, aliases, thunks, pc, stopClass, ram, classify);
        StepMeans(rom, aliases, thunks, pc, stopClass, ram, classify, step);
        match step {
          case Finish(r) =>
            FinishIsNoLimit(rom, aliases, thunks, pc, stopClass, ram, classify, r);
            reason := r;
            break;
          case AddThunk(t) => thunks := InsertThunk(thunks, t);
          case SetAliases(s) => aliases := s;
        }
        OneMoreRound(rom, observe, classify, history, Found(aliases, thunks));
        history := history + [Found(aliases, thunks)];
    }
  }

  lemma FinishIsNoLimit(rom: seq<Byte>, aliases: seq<Alias>, thunks: seq<Thunk>, stopPc: nat, stopClass: nat, ram: RamDump,
                        classify: (nat, string) -> Option<JumpText>, r: Reason)
    requires IsStep(rom, aliases, thunks, stopPc, stopClass, ram, classify, Finish(r))
    ensures !r.MaxRounds?
  {
    hide Explainable, Derived, Frontier, Window, Merged;
  }

  lemma NothingFound(rom: seq<Byte>, observe: (nat, seq<Alias>, seq<Thunk>) -> Observation,
                     classify: (nat, string) -> Option<JumpText>)
    ensures Normal([]) && AllInBounds([], |rom|) && Apart([]) && IsHistory(rom, observe, classify, [Found([], [])])
  {
  }
}
