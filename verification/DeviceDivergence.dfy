/**
 First divergence over CPU and device streams together: CPU checks come first at each boundary, device
 events and state digests only when every CPU field agrees.
 */
module DeviceDivergence {
  import opened Basics
  import opened Numerals
  import opened KeyedTrace
  import opened FieldDiff
  import Cpu = CpuDivergence

  /** A device command or interrupt event; `kind` 1 is a write to `region`. */
  datatype Event = Event(kind: nat, region: nat, width: nat, address: nat, value: nat)

  datatype DeviceRecord = DeviceRecord(
    boundary: int, unsupported: bool, components: map<string, nat>, events: seq<Event>)

  function RegionName(r: nat): string {
    match r
    case 1 => "controller_io"
    case 2 => "psg"
    case 3 => "ym2612"
    case 4 => "vdp"
    case 5 => "z80_bus"
    case 6 => "z80_ram_window"
    case _ => "region" + Render(r, DECIMAL)
  }

  function EventName(kind: nat): string {
    match kind
    case 1 => "write"
    case 2 => "vblank_raise"
    case 3 => "irq_admit"
    case _ => "kind" + Render(kind, DECIMAL)
  }

  function EventKey(e: Event): string {
    if e.kind == 1 then
      "event:write@" + RegionName(e.region) + "/" + Cpu.AddressText(e.address) + "/" + Cpu.WidthText(e.width)
    else "event:" + EventName(e.kind)
  }

  function ViewOf(e: Event): nat { e.value }

  function Identity(v: nat): nat { v }

  lemma NamesAreClean(n: nat)
    ensures NoHash(RegionName(n)) && NoHash(EventName(n))
  {
    Cpu.NumeralsArePlain(Render(n, DECIMAL), DECIMAL);
  }

  lemma KeyIsClean(e: Event)
    ensures NoHash(EventKey(e))
  {
    hide RegionName, EventName, Cpu.AddressText, Cpu.WidthText;
    NamesAreClean(e.region);
    NamesAreClean(e.kind);
    Cpu.TextsArePlain(e.address, e.width);
  }

  lemma RegionNameIsInjective(r: nat, s: nat)
    requires RegionName(r) == RegionName(s)
    ensures r == s
  {
    hide Render, Parse, DigitsOf;
    ParseRender(r, DECIMAL);
    ParseRender(s, DECIMAL);
    assert RegionName(r)[0] == RegionName(s)[0] && RegionName(r)[1] == RegionName(s)[1];
    assert RegionName(r)[2] == RegionName(s)[2];
    if RegionName(r)[0] == 'z' {
      assert RegionName(r)[4] == RegionName(s)[4];
    }
    if RegionName(r)[0] == 'r' {
      assert RegionName(r)[6..] == RegionName(s)[6..];
      assert RegionName(r)[6..] == Render(r, DECIMAL) && RegionName(s)[6..] == Render(s, DECIMAL);
    }
  }

  lemma RegionNameIsPlain(r: nat)
    ensures Cpu.Plain(RegionName(r)) && |RegionName(r)| >= 3
  {
    Cpu.NumeralsArePlain(Render(r, DECIMAL), DECIMAL);
  }

  /** Names of kinds other than a write tell the kinds apart, and from a write. */
  lemma EventNameIsInjective(k: nat, l: nat)
    ensures |EventName(k)| >= 5 && (EventName(k)[0] == 'w' <==> k == 1)
    ensures EventName(k) == EventName(l) ==> k == l
  {
    hide Render, Parse, DigitsOf;
    ParseRender(k, DECIMAL);
    ParseRender(l, DECIMAL);
    if EventName(k) == EventName(l) && EventName(k)[0] == 'k' {
      assert EventName(l)[0] == 'k';
      assert EventName(k)[4..] == Render(k, DECIMAL) && EventName(l)[4..] == Render(l, DECIMAL);
    }
  }

  /** The fields the tool compares: kind and value, and for a write also region, address and width. */
  ghost predicate SameFields(e: Event, f: Event) {
    && e.kind == f.kind && e.value == f.value
    && (e.kind == 1 ==> e.region == f.region && e.address == f.address && e.width == f.width)
  }

  /** The key text determines the kind, and for a write region, address and width. */
  lemma EventKeyIsInjective(e: Event, f: Event)
    requires EventKey(e) == EventKey(f)
    ensures e.kind == f.kind && (e.kind == 1 ==> e.region == f.region && e.address == f.address && e.width == f.width)
  {
    hide EventName, RegionName, Cpu.AddressText, Cpu.WidthText;
    EventNameIsInjective(e.kind, f.kind);
    EventNameIsInjective(f.kind, e.kind);
    KeyHead(e);
    KeyHead(f);
    if e.kind == 1 {
      WriteKeyIsInjective(e, f);
    }
  }

  /** Behind "event:" comes `w` for a write alone, and the whole name otherwise. */
  lemma KeyHead(e: Event)
    ensures |EventKey(e)| > 6 && (EventKey(e)[6] == 'w' <==> e.kind == 1)
    ensures e.kind != 1 ==> EventKey(e)[6..] == EventName(e.kind)
  {
    hide EventName, RegionName, Cpu.AddressText, Cpu.WidthText;
    EventNameIsInjective(e.kind, e.kind);
  }

  lemma WriteKeyIsInjective(e: Event, f: Event)
    requires e.kind == 1 && f.kind == 1 && EventKey(e) == EventKey(f)
    ensures e.region == f.region && e.address == f.address && e.width == f.width
  {
    hide RegionName, Cpu.AddressText, Cpu.WidthText;
    var p, q := RegionName(e.region), RegionName(f.region);
    var a, b := Cpu.AddressText(e.address), Cpu.AddressText(f.address);
    var u, v := Cpu.WidthText(e.width), Cpu.WidthText(f.width);
    RegionNameIsPlain(e.region);
    RegionNameIsPlain(f.region);
    Cpu.TextsArePlain(e.address, e.width);
    Cpu.TextsArePlain(f.address, f.width);
    assert p + "/" + (a + "/" + u) == EventKey(e)[12..] == EventKey(f)[12..] == q + "/" + (b + "/" + v);
    Cpu.SplitAtSlash(p, q, a + "/" + u, b + "/" + v);
    Cpu.SplitAtSlash(a, b, u, v);
    RegionNameIsInjective(e.region, f.region);
    Cpu.TextsAreInjective(e.address, f.address, e.width, f.width);
  }

  lemma KeyAndViewAreTheFields(e: Event, f: Event)
    ensures EventKey(e) == EventKey(f) && ViewOf(e) == ViewOf(f) <==> SameFields(e, f)
  {
    hide EventName, RegionName, Cpu.AddressText, Cpu.WidthText;
    if EventKey(e) == EventKey(f) {
      EventKeyIsInjective(e, f);
    }
  }

  // ----- one boundary ------------------------------------------------------------------------------------

  datatype Classification = DeviceCommand | DeviceState | NoDifference

  /** Reported device fields: keyed events, the order of keys, or component digests. */
  datatype DeviceFields =
    | EventFields(fields: seq<Field<nat>>)
    | OrderField(generated: seq<string>, expected: seq<string>)
    | StateFields(states: seq<Field<nat>>)

  /** The two event lists agree element by element in key and value. */
  ghost predicate SameEvents(g: DeviceRecord, e: DeviceRecord) {
    SameElements(g.events, e.events, EventKey, ViewOf)
  }

  /** The two event lists agree element by element in every compared field. */
  ghost predicate SameEventFields(g: DeviceRecord, e: DeviceRecord) {
    |g.events| == |e.events| && forall i :: 0 <= i < |g.events| ==> SameFields(g.events[i], e.events[i])
  }

  lemma SameEventsIsSameFields(g: DeviceRecord, e: DeviceRecord)
    ensures SameEvents(g, e) <==> SameEventFields(g, e)
  {
    hide EventKey, ViewOf, SameFields;
    if |g.events| == |e.events| {
      forall i | 0 <= i < |g.events|
        ensures SameFields(g.events[i], e.events[i])
          <==> EventKey(g.events[i]) == EventKey(e.events[i]) && ViewOf(g.events[i]) == ViewOf(e.events[i])
      {
        KeyAndViewAreTheFields(g.events[i], e.events[i]);
      }
    }
  }

  ghost predicate SameComponents(g: DeviceRecord, e: DeviceRecord) {
    SameViews(g.components, e.components, Identity)
  }

  lemma SameComponentsIsEqual(g: DeviceRecord, e: DeviceRecord)
    ensures SameComponents(g, e) <==> g.components == e.components
  {
    if SameComponents(g, e) {
      forall x ensures x in g.components <==> x in e.components
               ensures x in g.components ==> g.components[x] == e.components[x] {
        if x in g.components.Keys + e.components.Keys {
          assert Lookup(g.components, x, Identity) == Lookup(e.components, x, Identity);
        }
      }
    }
  }

  /** What the report must show: the keyed differences, else the two key orders, else the differing digests. */
  ghost predicate IsDeviceDiff(c: Classification, fields: DeviceFields, g: DeviceRecord, e: DeviceRecord) {
    match fields
    case EventFields(fs) =>
      c == DeviceCommand && fs != [] && exists gm, em ::
        IsKeyedMap(gm, g.events, EventKey) && IsKeyedMap(em, e.events, EventKey) && IsFieldDiff(fs, "", gm, em, ViewOf)
    case OrderField(x, y) =>
      c == DeviceCommand && SameByKey(g.events, e.events, EventKey, ViewOf)
      && x == KeyOrder(g.events, EventKey) && y == KeyOrder(e.events, EventKey) && x != y
    case StateFields(fs) =>
      SameEventFields(g, e) && IsFieldDiff(fs, "state:", g.components, e.components, Identity)
      && c == if fs == [] then NoDifference else DeviceState
  }

  /**
   `device_differences`: nothing is reported exactly when the event lists agree element by element and the
   digests agree; a command difference is reported exactly when the lists differ.
   */
  method DeviceDifferences(g: DeviceRecord, e: DeviceRecord) returns (c: Classification, fields: DeviceFields)
    ensures c == NoDifference <==> SameEventFields(g, e) && g.components == e.components
    ensures c == DeviceCommand <==> !SameEventFields(g, e)
    ensures IsDeviceDiff(c, fields, g, e)
  {
    hide EventKey, SameByKey, SameElements, IsKeyedMap, IsFieldDiff, SameViews, SameEventFields;
    SameEventsIsSameFields(g, e);
    forall i | 0 <= i < |g.events| ensures NoHash(EventKey(g.events[i])) { KeyIsClean(g.events[i]); }
    forall i | 0 <= i < |e.events| ensures NoHash(EventKey(e.events[i])) { KeyIsClean(e.events[i]); }
    var gm := KeyedMap(g.events, EventKey);
    var em := KeyedMap(e.events, EventKey);
    var orderedG, orderedE := KeyOrder(g.events, EventKey), KeyOrder(e.events, EventKey);
    var diffs := DiffMaps("", gm, em, ViewOf);
    SameViewsIsSameByKey(gm, em, g.events, e.events, EventKey, ViewOf);
    KeysAndOrderRebuild(g.events, e.events, EventKey, ViewOf);
    if diffs != [] {
      return DeviceCommand, EventFields(diffs);
    }
    if orderedG != orderedE {
      return DeviceCommand, OrderField(orderedG, orderedE);
    }
    var states := DiffMaps("state:", g.components, e.components, Identity);
    SameComponentsIsEqual(g, e);
    c := if states == [] then NoDifference else DeviceState;
    fields := StateFields(states);
  }

  /** Neither half is enough: equal dictionaries with another order, and an equal order with other values. */
  lemma NeitherHalfIsEnough()
    ensures var psg, vdp := Event(1, 2, 1, 0, 5), Event(1, 4, 1, 0, 6);
      var other := psg.(value := 7);
      && SameByKey([psg, vdp], [vdp, psg], EventKey, ViewOf)
      && !SameElements([psg, vdp], [vdp, psg], EventKey, ViewOf)
      && KeyOrder([psg], EventKey) == KeyOrder([other], EventKey)
      && !SameElements([psg], [other], EventKey, ViewOf)
  {
    var psg, vdp := Event(1, 2, 1, 0, 5), Event(1, 4, 1, 0, 6);
    var other := psg.(value := 7);
    assert EventKey(psg)[12] == 'p' && EventKey(vdp)[12] == 'v';
    assert EventKey([psg, vdp][0]) != EventKey([vdp, psg][0]);
    assert KeyOrder([psg], EventKey) == KeyOrder([other], EventKey) == [EventKey(psg)];
    assert ViewOf([psg][0]) != ViewOf([other][0]);
    forall k | NoHash(k) ensures SameUnder([psg, vdp], [vdp, psg], EventKey, ViewOf, k) {
      hide RegionName, Cpu.AddressText, Cpu.WidthText;
      assert [psg, vdp] == [psg] + [vdp] && [vdp, psg] == [vdp] + [psg];
      OfSnoc([psg], vdp, EventKey, k);
      OfSnoc([vdp], psg, EventKey, k);
      OfSnoc([], psg, EventKey, k);
      OfSnoc([], vdp, EventKey, k);
      assert [] + [psg] == [psg] && [] + [vdp] == [vdp];
    }
  }

  // ----- lockstep over four streams ----------------------------------------------------------------------------

  datatype DeviceFailure =
    | Presence(generated: bool, expected: bool)
    | Ordinal(generatedBoundary: int, expectedBoundary: int)
    | Unsupported(generatedFlag: bool, expectedFlag: bool)
    | Fields(classification: Classification, fields: DeviceFields)

  datatype Verdict =
    | BadLimit
    | NoDivergence(compared: nat)
    | CpuStopped(boundary: nat, lastMatching: nat, pc: nat, cpu: Cpu.Failure)
    | DeviceStopped(boundary: nat, lastMatching: nat, pc: nat, device: DeviceFailure)

  datatype Domain = DomainNone | DomainCpu | DomainDevice

  /** The reported domain: an unsupported boundary is never a confident divergence. */
  function DomainOf(v: Verdict): Domain {
    match v
    case CpuStopped(_, _, _, f) => if f.Unsupported? then DomainNone else DomainCpu
    case DeviceStopped(_, _, _, f) => if f.Unsupported? then DomainNone else DomainDevice
    case _ => DomainNone
  }

  datatype Streams = Streams(cg: Cpu.Stream, ce: Cpu.Stream, dg: seq<DeviceRecord>, de: seq<DeviceRecord>)

  ghost predicate EndedAt(s: Streams, i: nat) {
    Cpu.EndedAt(s.cg, s.ce, i) && i >= |s.dg| && i >= |s.de|
  }

  ghost predicate Present(s: Streams, i: nat) { i < |s.dg| && i < |s.de| }

  ghost predicate InOrder(s: Streams, i: nat) {
    Present(s, i) && s.dg[i].boundary == i + 1 && s.de[i].boundary == i + 1
  }

  ghost predicate Comparable(s: Streams, i: nat) {
    InOrder(s, i) && !s.dg[i].unsupported && !s.de[i].unsupported
  }

  ghost predicate DeviceAgreesAt(s: Streams, i: nat) {
    Comparable(s, i) && SameEventFields(s.dg[i], s.de[i]) && s.dg[i].components == s.de[i].components
  }

  ghost predicate AgreeAt(s: Streams, i: nat) {
    Cpu.AgreeAt(s.cg, s.ce, i) && DeviceAgreesAt(s, i)
  }

  ghost predicate DeviceFailureAt(s: Streams, i: nat, f: DeviceFailure) {
    match f
    case Presence(x, y) => !Present(s, i) && x == (i < |s.dg|) && y == (i < |s.de|)
    case Ordinal(x, y) => Present(s, i) && !InOrder(s, i) && x == s.dg[i].boundary && y == s.de[i].boundary
    case Unsupported(x, y) => InOrder(s, i) && !Comparable(s, i) && x == s.dg[i].unsupported && y == s.de[i].unsupported
    case Fields(c, fs) => Comparable(s, i) && c != NoDifference && IsDeviceDiff(c, fs, s.dg[i], s.de[i])
  }

  ghost predicate IsVerdict(v: Verdict, s: Streams, limit: int, initialPc: nat) {
    match v
    case BadLimit => limit <= 0
    case NoDivergence(m) =>
      m <= limit && limit > 0 && (forall k :: 0 <= k < m ==> AgreeAt(s, k)) && (m == limit || EndedAt(s, m))
    case CpuStopped(b, last, pc, f) =>
      && 0 < b <= limit && last == b - 1 && (forall k :: 0 <= k < b - 1 ==> AgreeAt(s, k))
      && !EndedAt(s, b - 1) && !Cpu.AgreeAt(s.cg, s.ce, b - 1) && Cpu.FailureAt(s.cg, s.ce, b - 1, f)
      && b - 1 <= |s.cg| && pc == Cpu.PcBefore(s.cg, b - 1, initialPc)
    case DeviceStopped(b, last, pc, f) =>
      && 0 < b <= limit && last == b - 1 && (forall k :: 0 <= k < b - 1 ==> AgreeAt(s, k))
      && !EndedAt(s, b - 1) && Cpu.AgreeAt(s.cg, s.ce, b - 1)
      && !DeviceAgreesAt(s, b - 1) && DeviceFailureAt(s, b - 1, f)
      && b - 1 <= |s.cg| && pc == Cpu.PcBefore(s.cg, b - 1, initialPc)
  }

  method CheckDevice(s: Streams, i: nat) returns (failure: Option<DeviceFailure>)
    ensures failure.None? <==> DeviceAgreesAt(s, i)
    ensures failure.Some? ==> DeviceFailureAt(s, i, failure.value)
  {
    hide SameEventFields, IsDeviceDiff;
    if i >= |s.dg| || i >= |s.de| {
      return Some(Presence(i < |s.dg|, i < |s.de|));
    }
    if s.dg[i].boundary != i + 1 || s.de[i].boundary != i + 1 {
      return Some(Ordinal(s.dg[i].boundary, s.de[i].boundary));
    }
    if s.dg[i].unsupported || s.de[i].unsupported {
      return Some(Unsupported(s.dg[i].unsupported, s.de[i].unsupported));
    }
    var c, fields := DeviceDifferences(s.dg[i], s.de[i]);
    failure := if c != NoDifference then Some(Fields(c, fields)) else None;
  }

  /** `compare` of the device tool. */
  method Compare(s: Streams, limit: int, initialPc: nat) returns (v: Verdict)
    ensures IsVerdict(v, s, limit, initialPc)
  {
    hide Cpu.AgreeAt, DeviceAgreesAt, Cpu.FailureAt, DeviceFailureAt;
    if limit <= 0 {
      return BadLimit;
    }
    var lastPc, compared := initialPc, 0;
    for index := 0 to limit
      invariant compared == index && forall k :: 0 <= k < index ==> AgreeAt(s, k)
      invariant index <= |s.cg| && lastPc == Cpu.PcBefore(s.cg, index, initialPc)
    {
      if index >= |s.cg| && index >= |s.ce| && index >= |s.dg| && index >= |s.de| {
        return NoDivergence(compared);
      }
      var cpuFailure := Cpu.CheckBoundary(s.cg, s.ce, index);
      if cpuFailure.Some? {
        return CpuStopped(index + 1, compared, lastPc, cpuFailure.value);
      }
      Cpu.AgreeingIsPresent(s.cg, s.ce, index);
      var deviceFailure := CheckDevice(s, index);
      if deviceFailure.Some? {
        return DeviceStopped(index + 1, compared, lastPc, deviceFailure.value);
      }
      compared := compared + 1;
      lastPc := s.cg[index].pc;
    }
    v := NoDivergence(compared);
  }

  // ----- the two tools together ------------------------------------------------------------------------------

  /** Boundaries until both CPU streams have ended. */
  function CpuLength(s: Streams): nat {
    if |s.cg| >= |s.ce| then |s.cg| else |s.ce|
  }

  /** Every boundary of the CPU streams agrees on all four, the limit reaches further, and so does a device stream. */
  ghost predicate DevicesOutliveCpu(s: Streams, limit: int) {
    var n := CpuLength(s);
    n < limit && (forall k :: 0 <= k < n ==> AgreeAt(s, k)) && (n < |s.dg| || n < |s.de|)
  }

  /** Both tools stop on the CPU at one boundary, with the same last match and PC. */
  ghost predicate SameCpuStop(v: Verdict, w: Cpu.Verdict) {
    && v.CpuStopped? && w.Stopped?
    && w.boundary == v.boundary && w.lastMatching == v.lastMatching && w.pc == v.pc
    && (w.failure.Unsupported? <==> v.cpu.Unsupported?)
  }

  /** How many boundaries a verdict vouches for. */
  ghost function Vouched(v: Verdict): nat {
    match v
    case BadLimit => 0
    case NoDivergence(m) => m
    case CpuStopped(b, _, _, _) => if b > 0 then b - 1 else 0
    case DeviceStopped(b, _, _, _) => if b > 0 then b - 1 else 0
  }

  lemma AgreedPrefix(s: Streams, limit: int, initialPc: nat, v: Verdict)
    requires IsVerdict(v, s, limit, initialPc)
    ensures forall k :: 0 <= k < Vouched(v) ==> Cpu.AgreeAt(s.cg, s.ce, k)
    ensures Vouched(v) <= |s.cg| && Vouched(v) <= |s.ce|
    ensures v.CpuStopped? || v.DeviceStopped? ==> !AgreeAt(s, Vouched(v))
  {
    hide Cpu.SameRecord, DeviceAgreesAt, Cpu.FailureAt, DeviceFailureAt;
    forall k | 0 <= k < Vouched(v) ensures Cpu.AgreeAt(s.cg, s.ce, k) {
      assert AgreeAt(s, k);
    }
    if Vouched(v) > 0 {
      assert Cpu.AgreeAt(s.cg, s.ce, Vouched(v) - 1);
    }
  }

  /**
   The device tool reports a CPU stop that is not the CPU tool's exactly when the device streams outlive fully
   agreeing CPU streams; then the CPU tool sees no divergence and the device tool reports absent CPU records.
   */
  lemma DeviceToolFollowsCpuTool(s: Streams, limit: int, initialPc: nat, v: Verdict, w: Cpu.Verdict)
    requires IsVerdict(v, s, limit, initialPc) && Cpu.IsVerdict(w, s.cg, s.ce, limit, initialPc)
    ensures v.CpuStopped? && !SameCpuStop(v, w) <==> DevicesOutliveCpu(s, limit)
    ensures DevicesOutliveCpu(s, limit) ==>
      w == Cpu.NoDivergence(CpuLength(s)) && v.boundary == CpuLength(s) + 1 && v.cpu == Cpu.Presence(false, false)
  {
    hide Cpu.SameRecord, Cpu.IsRecordDiff, DeviceAgreesAt, DeviceFailureAt;
    AgreedPrefix(s, limit, initialPc, v);
    AllAgreeUpTo(s, CpuLength(s));
    CpuPrefix(s, limit, initialPc, w);
    if DevicesOutliveCpu(s, limit) {
      var n := CpuLength(s);
      assert !Cpu.AgreeAt(s.cg, s.ce, n) && !EndedAt(s, n);
    }
  }

  /** Streams that agree at every boundary below n are that long. */
  lemma AllAgreeUpTo(s: Streams, n: nat)
    ensures (forall k :: 0 <= k < n ==> AgreeAt(s, k)) ==>
      (forall k :: 0 <= k < n ==> Cpu.AgreeAt(s.cg, s.ce, k)) && n <= |s.cg| && n <= |s.ce|
  {
    hide Cpu.SameRecord, DeviceAgreesAt;
    if forall k :: 0 <= k < n ==> AgreeAt(s, k) {
      forall k | 0 <= k < n ensures Cpu.AgreeAt(s.cg, s.ce, k) {
        assert AgreeAt(s, k);
      }
      if n > 0 {
        assert Cpu.AgreeAt(s.cg, s.ce, n - 1);
      }
    }
  }

  /** Device streams that do not outlive the CPU streams never make the device tool report another CPU stop. */
  lemma ShortDeviceStreamsNeverDisagree(s: Streams, limit: int, initialPc: nat, v: Verdict, w: Cpu.Verdict)
    requires IsVerdict(v, s, limit, initialPc) && Cpu.IsVerdict(w, s.cg, s.ce, limit, initialPc)
    requires |s.dg| <= CpuLength(s) && |s.de| <= CpuLength(s) && v.CpuStopped?
    ensures SameCpuStop(v, w)
  {
    hide IsVerdict, Cpu.IsVerdict, SameCpuStop, AgreeAt;
    DeviceToolFollowsCpuTool(s, limit, initialPc, v, w);
  }

  lemma CpuPrefix(s: Streams, limit: int, initialPc: nat, w: Cpu.Verdict)
    requires Cpu.IsVerdict(w, s.cg, s.ce, limit, initialPc)
    ensures w.NoDivergence? ==> w.compared <= |s.cg| && w.compared <= |s.ce|
  {
    hide Cpu.SameRecord;
    if w.NoDivergence? && w.compared > 0 {
      assert Cpu.AgreeAt(s.cg, s.ce, w.compared - 1);
    }
  }

  /** A CPU stop is never missed: the device tool stops there too, or on a device at an earlier boundary. */
  lemma CpuStopIsNotMissed(s: Streams, limit: int, initialPc: nat, v: Verdict, w: Cpu.Verdict)
    requires IsVerdict(v, s, limit, initialPc) && Cpu.IsVerdict(w, s.cg, s.ce, limit, initialPc)
    requires w.Stopped?
    ensures (v.CpuStopped? && v.boundary == w.boundary) || (v.DeviceStopped? && v.boundary < w.boundary)
  {
    hide Cpu.SameRecord, Cpu.IsRecordDiff, DeviceAgreesAt, Cpu.FailureAt, DeviceFailureAt;
    AgreedPrefix(s, limit, initialPc, v);
  }

  /** An input on which the tools disagree: one device record and no CPU record. */
  lemma LongerDeviceStreamDisagrees(d: DeviceRecord, v: Verdict, w: Cpu.Verdict)
    requires var s := Streams([], [], [d], []);
      IsVerdict(v, s, 1, 0) && Cpu.IsVerdict(w, [], [], 1, 0)
    ensures DomainOf(v) == DomainCpu && v.boundary == 1 && w == Cpu.NoDivergence(0)
  {
    hide Cpu.SameRecord, Cpu.IsRecordDiff, DeviceAgreesAt;
    AgreedPrefix(Streams([], [], [d], []), 1, 0, v);
  }
}
