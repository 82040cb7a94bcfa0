/**
 The PCM half of the audio reference. `pcm_stream` applies register accesses lazily, up to the next
 sample event; it is proved to hold, at every output frame, what a tick-by-tick simulation holds.
 */
module PcmStream {
  import opened Basics
  import opened Rf5c164
  import opened GuestTime

  const PERIOD: nat := 384 * 2148241   // ticks between two chip samples

  datatype Access = Access(when: nat, isReset: bool, reg: nat, v: Byte)

  ghost predicate Sorted(ops: seq<Access>) {
    forall i, j :: 0 <= i <= j < |ops| ==> ops[i].when <= ops[j].when
  }

  // ----- reference: every tick of the guest clock is visited once -----------------------------------

  datatype Machine = Machine(chip: Chip, origin: nat, hold: (int, int))

  ghost predicate Valid(m: Machine) { Wf(m.chip) }

  ghost function PowerOn(): (m: Machine)
    ensures Valid(m)
  {
    Machine(ResetChip(), 0, (0, 0))
  }

  /** A reset clears the chip and re-bases the sample grid; the held output stays. */
  ghost function Applied(m: Machine, op: Access): (r: Machine)
    requires Valid(m)
    ensures Valid(r) && r.hold == m.hold
  {
    if op.isReset then Machine(ResetChip(), op.when, m.hold) else m.(chip := Written(m.chip, op.reg, op.v))
  }

  /** All accesses of instant `tau`, in trace order. */
  ghost function AccessesAt(m: Machine, ops: seq<Access>, tau: nat): (r: Machine)
    requires Valid(m)
    ensures Valid(r) && r.hold == m.hold
  {
    if ops == [] then m
    else
      var earlier := AccessesAt(m, ops[..|ops| - 1], tau);
      var last := ops[|ops| - 1];
      if last.when == tau then Applied(earlier, last) else earlier
  }

  ghost predicate OnGrid(origin: nat, tau: nat) {
    tau >= origin && (tau - origin) % PERIOD == 0
  }

  ghost function SampleAt(m: Machine, tau: nat): (r: Machine)
    requires Valid(m)
    ensures Valid(r)
  {
    if OnGrid(m.origin, tau) then Machine(Sampled(m.chip), m.origin, Output(m.chip, false)) else m
  }

  /** The machine after the instants 0 .. tau - 1: accesses first, then the sample event. */
  ghost function Eager(ops: seq<Access>, tau: nat): (r: Machine)
    ensures Valid(r)
  {
    if tau == 0 then PowerOn() else SampleAt(AccessesAt(Eager(ops, tau - 1), ops, tau - 1), tau - 1)
  }

  /** The PCM pair of output frame `n`: the latest sample at or before the frame's tick. */
  ghost function EagerFrame(ops: seq<Access>, n: nat): (int, int) {
    Eager(ops, FrameTime(n) + 1).hold
  }

  ghost predicate SampleEventAt(ops: seq<Access>, tau: nat) {
    OnGrid(AccessesAt(Eager(ops, tau), ops, tau).origin, tau)
  }

  /** `r` is the instant of the last reset at or before `tau`, or zero without one. */
  ghost predicate IsLastReset(ops: seq<Access>, tau: nat, r: nat) {
    && (r == 0 || exists i :: ResetAt(ops, i, r))
    && r <= tau && forall i, w: nat :: r < w <= tau ==> !ResetAt(ops, i, w)
  }

  ghost predicate ResetAt(ops: seq<Access>, i: int, w: nat) {
    0 <= i < |ops| && ops[i].isReset && ops[i].when == w
  }

  lemma {:induction false} OriginAfterAccesses(m: Machine, ops: seq<Access>, tau: nat)
    requires Valid(m)
    ensures AccessesAt(m, ops, tau).origin == if exists i :: ResetAt(ops, i, tau) then tau else m.origin
    decreases |ops|
  {
    hide Wf;
    if ops != [] {
      var n := |ops| - 1;
      OriginAfterAccesses(m, ops[..n], tau);
      assert forall i :: ResetAt(ops, i, tau) <==> ResetAt(ops[..n], i, tau) || (i == n && ops[n].isReset && ops[n].when == tau);
      if ops[n].isReset && ops[n].when == tau {
        assert ResetAt(ops, n, tau);
      }
    }
  }

  lemma {:induction false} OriginIsLastReset(ops: seq<Access>, tau: nat)
    ensures IsLastReset(ops, tau, AccessesAt(Eager(ops, tau), ops, tau).origin)
    decreases tau
  {
    hide Wf, ResetAt, OnGrid, AccessesAt, Applied;
    OriginAfterAccesses(Eager(ops, tau), ops, tau);
    if tau > 0 {
      OriginIsLastReset(ops, tau - 1);
    }
  }

  /** Samples are taken exactly at whole periods behind the last reset, beginning with the reset's own instant. */
  lemma SampleEventsAre(ops: seq<Access>, tau: nat, r: nat)
    requires IsLastReset(ops, tau, r)
    ensures SampleEventAt(ops, tau) <==> (tau - r) % (384 * 2148241) == 0
  {
    hide Wf, ResetAt, AccessesAt;
    OriginIsLastReset(ops, tau);
    var o := AccessesAt(Eager(ops, tau), ops, tau).origin;
    SameLastReset(ops, tau, r, o);
    SameLastReset(ops, tau, o, r);
  }

  lemma SameLastReset(ops: seq<Access>, tau: nat, r: nat, s: nat)
    requires IsLastReset(ops, tau, r) && IsLastReset(ops, tau, s)
    ensures r >= s
  {
    hide ResetAt;
  }

  lemma HeldStep(ops: seq<Access>, tau: nat)
    ensures var m := AccessesAt(Eager(ops, tau), ops, tau);
      Eager(ops, tau + 1).hold == if SampleEventAt(ops, tau) then Output(m.chip, false) else Eager(ops, tau).hold
  {
    hide Wf, AccessesAt, OnGrid;
  }

  /** Before the first sample event the stream is silent. */
  lemma {:induction false} NothingHeld(ops: seq<Access>, tau: nat)
    requires forall f: nat :: f < tau ==> !SampleEventAt(ops, f)
    ensures Eager(ops, tau).hold == (0, 0)
    decreases tau
  {
    hide SampleEventAt, AccessesAt;
    if tau > 0 {
      NothingHeld(ops, tau - 1);
      HeldStep(ops, tau - 1);
    }
  }

  /** After one the sample of the registers at the latest event is held. */
  lemma {:induction false} HeldSample(ops: seq<Access>, tau: nat, e: nat)
    requires e < tau && SampleEventAt(ops, e) && forall f: nat :: e < f < tau ==> !SampleEventAt(ops, f)
    ensures IsSample(AccessesAt(Eager(ops, e), ops, e).chip, Eager(ops, tau).hold)
    decreases tau
  {
    hide SampleEventAt, AccessesAt, IsSample, Eager;
    HeldStep(ops, tau - 1);
    if e == tau - 1 {
      var c := AccessesAt(Eager(ops, e), ops, e).chip;
      SampleFromRegisters(c, Output(c, false));
    } else {
      HeldSample(ops, tau - 1, e);
    }
  }

  // ----- locality of the reference -------------------------------------------------------------------

  lemma {:induction false} NoAccesses(m: Machine, ops: seq<Access>, tau: nat)
    requires Valid(m)
    requires forall i :: 0 <= i < |ops| ==> ops[i].when != tau
    ensures AccessesAt(m, ops, tau) == m
    decreases |ops|
  {
    hide Wf, Applied, SampleAt, OnGrid;
    if ops != [] {
      NoAccesses(m, ops[..|ops| - 1], tau);
    }
  }

  /** An access has no effect before its own instant. */
  lemma {:induction false} NotYet(ops: seq<Access>, op: Access, tau: nat)
    requires tau <= op.when
    ensures Eager(ops + [op], tau) == Eager(ops, tau)
    decreases tau
  {
    hide Wf, Applied, SampleAt, OnGrid;
    if tau > 0 {
      NotYet(ops, op, tau - 1);
      assert (ops + [op])[..|ops|] == ops;
    }
  }

  lemma {:induction false} SuffixNotYet(ops: seq<Access>, k: nat, tau: nat)
    requires k <= |ops| && forall i :: k <= i < |ops| ==> tau <= ops[i].when
    ensures Eager(ops, tau) == Eager(ops[..k], tau)
    decreases |ops|
  {
    hide Wf, Valid, Eager;
    if k < |ops| {
      var n := |ops| - 1;
      assert ops == ops[..n] + [ops[n]];
      NotYet(ops[..n], ops[n], tau);
      SuffixNotYet(ops[..n], k, tau);
      assert ops[..n][..k] == ops[..k];
    } else {
      assert ops[..k] == ops;
    }
  }

  ghost predicate QuietBetween(origin: nat, from: nat, until: nat) {
    forall tau :: from <= tau < until ==> !OnGrid(origin, tau)
  }

  /** Nothing happens between `from` and `until`: the machine stands still. */
  lemma {:induction false} Idle(ops: seq<Access>, from: nat, until: nat)
    requires from <= until
    requires forall i :: 0 <= i < |ops| ==> ops[i].when < from || until <= ops[i].when
    requires QuietBetween(Eager(ops, from).origin, from, until)
    ensures Eager(ops, until) == Eager(ops, from)
    decreases until
  {
    hide Wf, Applied, AccessesAt;
    if from < until {
      Idle(ops, from, until - 1);
      NoAccesses(Eager(ops, until - 1), ops, until - 1);
    }
  }

  /** Without accesses the origin stays, even over sample events. */
  lemma {:induction false} OriginStays(ops: seq<Access>, from: nat, until: nat)
    requires from <= until
    requires forall i :: 0 <= i < |ops| ==> ops[i].when < from
    ensures Eager(ops, until).origin == Eager(ops, from).origin
    decreases until
  {
    hide Wf, Applied, AccessesAt, Sampled, Output;
    if from < until {
      OriginStays(ops, from, until - 1);
      NoAccesses(Eager(ops, until - 1), ops, until - 1);
    }
  }

  // ----- the relation between the lazy machine and the reference ---------------------------------------

  /** Earliest instant an access not applied yet can have: after the previous event of the grid. */
  ghost function Floor(origin: nat, event: nat): nat {
    if event <= origin then event else if event < PERIOD then 0 else event - PERIOD + 1
  }

  /** `m` is the reference over the accesses applied so far, just before the sample event at `event`;
      `since` is the instant after the last sample taken. */
  ghost predicate Tracks(applied: seq<Access>, m: Machine, event: nat, since: nat) {
    && Valid(m)
    && AccessesAt(Eager(applied, event), applied, event) == m
    && OnGrid(m.origin, event)
    && (forall i :: 0 <= i < |applied| ==> applied[i].when <= event)
    && since <= Floor(m.origin, event)
    && (forall tau :: since <= tau <= event ==> Eager(applied, tau).hold == m.hold)
  }

  lemma QuietAboveFloor(origin: nat, event: nat)
    requires OnGrid(origin, event)
    ensures QuietBetween(origin, Floor(origin, event), event)
  {
  }

  /** From the last access at `w` on, only sample events can change the machine. */
  lemma AfterLastAccess(ops: seq<Access>, w: nat, event: nat)
    requires w < event
    requires forall i :: 0 <= i < |ops| ==> ops[i].when <= w
    ensures AccessesAt(Eager(ops, event), ops, event) == Eager(ops, event)
    ensures Eager(ops, event).origin == AccessesAt(Eager(ops, w), ops, w).origin
  {
    hide Wf, Applied, Sampled, Output;
    NoAccesses(Eager(ops, event), ops, event);
    OriginStays(ops, w + 1, event);
  }

  /** ... and off the grid not even those. */
  lemma QuietAfterLastAccess(ops: seq<Access>, w: nat, event: nat)
    requires w < event
    requires forall i :: 0 <= i < |ops| ==> ops[i].when <= w
    requires QuietBetween(AccessesAt(Eager(ops, w), ops, w).origin, w, event)
    ensures Eager(ops, event) == AccessesAt(Eager(ops, w), ops, w)
  {
    hide Wf, Applied;
    var x := AccessesAt(Eager(ops, w), ops, w);
    assert !OnGrid(x.origin, w);
    assert Eager(ops, w + 1) == x;
    Idle(ops, w + 1, event);
  }

  /** The lazy machine is already the reference at any instant between the last access and the event. */
  lemma Settled(applied: seq<Access>, m: Machine, event: nat, since: nat, w: nat)
    requires Tracks(applied, m, event, since)
    requires Floor(m.origin, event) <= w <= event
    requires forall i :: 0 <= i < |applied| ==> applied[i].when <= w
    ensures AccessesAt(Eager(applied, w), applied, w) == m
  {
    hide Wf, Applied, Eager, SampleAt;
    if w < event {
      AfterLastAccess(applied, w, event);
      QuietAboveFloor(m.origin, event);
      QuietAfterLastAccess(applied, w, event);
    }
  }

  /** One more access at `w`: unchanged up to `w`, and applied on top of what is there at `w`. */
  lemma OneMoreAccess(applied: seq<Access>, op: Access)
    ensures forall tau :: 0 <= tau <= op.when ==> Eager(applied + [op], tau) == Eager(applied, tau)
    ensures AccessesAt(Eager(applied + [op], op.when), applied + [op], op.when)
         == Applied(AccessesAt(Eager(applied, op.when), applied, op.when), op)
  {
    hide Wf, Applied, SampleAt, Eager;
    forall tau: nat | tau <= op.when ensures Eager(applied + [op], tau) == Eager(applied, tau) {
      NotYet(applied, op, tau);
    }
    assert (applied + [op])[..|applied|] == applied;
  }

  /** A register write applied early, before the event, keeps the relation. */
  lemma WriteStep(applied: seq<Access>, m: Machine, event: nat, since: nat, op: Access)
    requires Tracks(applied, m, event, since) && !op.isReset
    requires Floor(m.origin, event) <= op.when <= event
    requires forall i :: 0 <= i < |applied| ==> applied[i].when <= op.when
    ensures Tracks(applied + [op], Applied(m, op), event, since)
  {
    hide Wf, Written, Eager, SampleAt;
    var w, more, m' := op.when, applied + [op], Applied(m, op);
    Settled(applied, m, event, since, w);
    OneMoreAccess(applied, op);
    if w < event {
      QuietAboveFloor(m'.origin, event);
      forall tau | w < tau <= event ensures Eager(more, tau) == m' {
        QuietAfterLastAccess(more, w, tau);
      }
      NoAccesses(m', more, event);
    }
  }

  /** A reset applied early moves the next event back to the reset's own instant and keeps the relation. */
  lemma ResetStep(applied: seq<Access>, m: Machine, event: nat, since: nat, op: Access)
    requires Tracks(applied, m, event, since) && op.isReset
    requires Floor(m.origin, event) <= op.when <= event
    requires forall i :: 0 <= i < |applied| ==> applied[i].when <= op.when
    ensures Tracks(applied + [op], Applied(m, op), op.when, since)
  {
    hide Wf, ResetChip, Eager, SampleAt;
    Settled(applied, m, event, since, op.when);
    OneMoreAccess(applied, op);
  }

  /** Taking the sample at the event keeps the relation, for the next event of the grid. */
  lemma EventStep(applied: seq<Access>, m: Machine, event: nat, since: nat)
    requires Tracks(applied, m, event, since)
    ensures Tracks(applied, SampleAt(m, event), event + PERIOD, event + 1)
  {
    hide Wf, Sampled, Output, AccessesAt;
    var m', next := SampleAt(m, event), event + PERIOD;
    assert Eager(applied, event + 1) == m';
    assert OnGrid(m'.origin, next);
    QuietAboveFloor(m'.origin, next);
    assert Floor(m'.origin, next) == event + 1;
    forall tau | event < tau <= next ensures Eager(applied, tau) == m' {
      Idle(applied, event + 1, tau);
    }
    NoAccesses(m', applied, next);
  }

  /** When the event lies past the frame's tick, the held value is the reference's at that tick. */
  lemma FrameStep(ops: seq<Access>, k: nat, m: Machine, event: nat, since: nat, t: nat)
    requires k <= |ops| && Tracks(ops[..k], m, event, since)
    requires since <= t + 1 <= event
    requires forall i :: k <= i < |ops| ==> event < ops[i].when
    ensures Eager(ops, t + 1).hold == m.hold
  {
    hide Wf, Eager, AccessesAt;
    SuffixNotYet(ops, k, t + 1);
  }

  // ----- the generator -----------------------------------------------------------------------------------

  /** The generator `pcm_stream` between two `next` calls. */
  class PcmStream {
    const ops: seq<Access>
    const chip: Rf5c164
    var origin: nat
    var k: nat
    var oi: nat
    var hold: (int, int)
    var n: nat
    ghost var since: nat

    function Event(): nat
      reads this
    {
      origin + k * PERIOD
    }

    ghost function Current(): Machine
      reads this, chip, chip.ram
    {
      Machine(chip.State(), origin, hold)
    }

    ghost predicate Valid()
      reads this, chip, chip.ram
    {
      && Sorted(ops) && oi <= |ops| && chip.Valid()
      && Tracks(ops[..oi], Current(), Event(), since)
      && (forall i :: oi <= i < |ops| ==> Floor(origin, Event()) <= ops[i].when)
    }

    constructor (ops: seq<Access>)
      requires Sorted(ops)
      ensures fresh(chip) && fresh(chip.ram) && Valid() && n == 0 && since == 0 && this.ops == ops
    {
      this.ops := ops;
      chip := new Rf5c164();
      origin, k, oi, hold, n := 0, 0, 0, (0, 0), 0;
      since := 0;
    }

    /** One access; a reset re-bases the grid at its own instant. */
    method ApplyNext()
      requires Valid() && oi < |ops| && ops[oi].when <= Event()
      modifies `origin, `k, `oi, chip, chip.ram
      ensures chip.ram == old(chip.ram) || fresh(chip.ram)
      ensures oi == old(oi) + 1 && Valid()
    {
      hide Wf, Written, ResetChip, Tracks;
      var op := ops[oi];
      ghost var m, e, done := Current(), Event(), ops[..oi];
      assert done + [op] == ops[..oi + 1];
      if op.isReset {
        ResetStep(done, m, e, since, op);
        chip.Reset();
        origin, k := op.when, 0;
      } else {
        WriteStep(done, m, e, since, op);
        chip.Write(op.reg, op.v);
      }
      assert Current() == Applied(m, op);
      oi := oi + 1;
    }

    /** All accesses at or before the next sample event. */
    method ApplyDue()
      requires Valid()
      modifies `origin, `k, `oi, chip, chip.ram
      ensures chip.ram == old(chip.ram) || fresh(chip.ram)
      ensures Valid() && old(oi) <= oi
      ensures oi == old(oi) ==> Event() == old(Event())
      ensures forall i :: oi <= i < |ops| ==> Event() < ops[i].when
    {
      hide Wf, Tracks, Floor;
      while oi < |ops| && ops[oi].when <= Event()
        invariant chip.ram == old(chip.ram) || fresh(chip.ram)
        invariant Valid() && old(oi) <= oi
        invariant oi == old(oi) ==> Event() == old(Event())
        decreases |ops| - oi
      {
        ApplyNext();
      }
    }

    /** The sample event itself. */
    method TakeSample()
      requires Valid() && forall i :: oi <= i < |ops| ==> Event() < ops[i].when
      modifies `k, `hold, `since, chip, chip.ram
      ensures chip.ram == old(chip.ram) && Valid()
      ensures Event() == old(Event()) + PERIOD && since == old(Event()) + 1
    {
      hide Wf, Sampled, Output, Tracks;
      ghost var m, e := Current(), Event();
      EventStep(ops[..oi], m, e, since);
      var left, right := chip.Sample();
      hold := (left, right);
      k := k + 1;
      since := e + 1;
      assert Current() == SampleAt(m, e);
    }

    /** Accesses and sample events until the next event lies after tick `t`. */
    method AdvancePast(t: nat)
      requires Valid() && since <= t + 1
      modifies `origin, `k, `oi, `hold, `since, chip, chip.ram
      ensures chip.ram == old(chip.ram) || fresh(chip.ram)
      ensures Valid() && since <= t + 1 <= Event()
      ensures forall i :: oi <= i < |ops| ==> Event() < ops[i].when
    {
      hide Wf, Tracks, Floor;
      ApplyDue();
      while Event() <= t
        invariant chip.ram == old(chip.ram) || fresh(chip.ram)
        invariant Valid() && since <= t + 1
        invariant forall i :: oi <= i < |ops| ==> Event() < ops[i].when
        decreases |ops| - oi, t - Event()
      {
        TakeSample();
        ApplyDue();
      }
    }

    /** The next output frame: the value the tick-by-tick simulation holds at that frame's tick. */
    method Next() returns (pcm: (int, int))
      requires Valid() && since <= FrameTime(n) + 1
      modifies this, chip, chip.ram
      ensures chip.ram == old(chip.ram) || fresh(chip.ram)
      ensures Valid() && n == old(n) + 1 && since <= FrameTime(n) + 1
      ensures pcm == EagerFrame(ops, old(n))
    {
      hide Wf, Tracks, Floor, FrameTime, Eager;
      var t := FrameTime(n);
      AdvancePast(t);
      FrameStep(ops, oi, Current(), Event(), since, t);
      pcm := hold;
      FrameTimeMonotone(n, n + 1);
      n := n + 1;
    }
  }

  /** `pcm_reference`: the first `frames` values of the stream. */
  method PcmReference(ops: seq<Access>, frames: nat) returns (out: seq<(int, int)>)
    requires Sorted(ops)
    ensures |out| == frames
    ensures forall n :: 0 <= n < frames ==> out[n] == EagerFrame(ops, n)
  {
    hide Wf, Tracks, FrameTime, EagerFrame;
    var stream := new PcmStream(ops);
    out := [];
    for n := 0 to frames
      invariant fresh(stream) && fresh(stream.chip) && fresh(stream.chip.ram)
      invariant stream.Valid() && stream.ops == ops && stream.n == n && stream.since <= FrameTime(n) + 1
      invariant |out| == n && forall i :: 0 <= i < n ==> out[i] == EagerFrame(ops, i)
    {
      var pcm := stream.Next();
      out := out + [pcm];
    }
  }
}
