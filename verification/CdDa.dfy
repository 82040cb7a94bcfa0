/**
 The CD-DA half of the audio reference: runs of sectors placed on the 44.1 kHz timeline, then streamed
 with an advancing segment pointer and a fader that moves one step per played frame.
 */
module CdDa {
  import opened Basics
  import opened GuestTime

  const FRAMES_PER_SECTOR: nat := 588
  const FULL_VOLUME: nat := 1024

  /** 2352 raw bytes: 588 little-endian stereo frames. */
  type Sector = s: seq<Byte> | |s| == 4 * FRAMES_PER_SECTOR witness seq(2352, i => 0 as Byte)

  /** One run of the log: first tick and sector, and where it stopped if it did. */
  datatype Stop = Stop(tick: nat, nextLba: int)
  datatype CdRun = CdRun(tick: nat, lba: int, stop: Option<Stop>)

  /** A placed run: first output frame, first sector, sector count. */
  datatype Segment = Segment(start: nat, lba: int, sectors: nat)

  function End(s: Segment): nat { s.start + FRAMES_PER_SECTOR * s.sectors }

  // ----- placement ---------------------------------------------------------------------------------

  /** Sector `j` of a run placed at `start` is heard: delivered, or read ahead while the run is on. */
  predicate Heard(r: CdRun, cap: int -> int, start: nat, j: nat) {
    || (r.stop.Some? && j < r.stop.value.nextLba - r.lba)
    || ((r.stop.None? || FrameTime(start + FRAMES_PER_SECTOR * j) < r.stop.value.tick) && r.lba + j < cap(r.lba))
  }

  /** How a run must be placed behind the frame `free`: as early as possible, as long as it is heard. */
  ghost predicate PlacedBehind(r: CdRun, cap: int -> int, frames: nat, free: nat, s: Segment) {
    && s.lba == r.lba
    && s.start >= free && FrameTime(s.start) >= r.tick
    && (forall n: nat :: free <= n < s.start ==> FrameTime(n) < r.tick)
    && (forall j :: 0 <= j < s.sectors ==> Heard(r, cap, s.start, j))
    && (forall j :: 0 <= j < s.sectors ==> s.start + FRAMES_PER_SECTOR * j < frames)
    && (End(s) < frames ==> !Heard(r, cap, s.start, s.sectors))
  }

  ghost function FreeBefore(segments: seq<Segment>, i: nat): nat
    requires i <= |segments|
  {
    if i == 0 then 0 else End(segments[i - 1])
  }

  /** Segments follow one another without overlap. */
  ghost predicate Ordered(segments: seq<Segment>) {
    forall i, j :: 0 <= i < j < |segments| ==> End(segments[i]) <= segments[j].start
  }

  /** One run, placed behind the frame `free`. */
  method PlaceRun(r: CdRun, cap: int -> int, frames: nat, free: nat) returns (s: Segment)
    ensures PlacedBehind(r, cap, frames, free, s)
  {
    var first := FirstFrameAtOrAfter(r.tick);
    var start := if first >= free then first else free;
    FrameTimeMonotone(first, start);
    var delivered := if r.stop.Some? then r.stop.value.nextLba - r.lba else 0;
    var j := 0;
    while start + FRAMES_PER_SECTOR * j < frames
      invariant 0 <= j
      invariant forall k :: 0 <= k < j ==> Heard(r, cap, start, k)
      invariant forall k :: 0 <= k < j ==> start + FRAMES_PER_SECTOR * k < frames
      decreases frames - (start + FRAMES_PER_SECTOR * j)
    {
      if j >= delivered && !((r.stop.None? || FrameTime(start + FRAMES_PER_SECTOR * j) < r.stop.value.tick)
                             && r.lba + j < cap(r.lba)) {
        break;
      }
      j := j + 1;
    }
    s := Segment(start, r.lba, j);
  }

  ghost predicate AllPlaced(runs: seq<CdRun>, cap: int -> int, frames: nat, segments: seq<Segment>) {
    |segments| == |runs| && forall i :: 0 <= i < |runs| ==>
      PlacedBehind(runs[i], cap, frames, FreeBefore(segments, i), segments[i])
  }

  lemma OneMorePlaced(runs: seq<CdRun>, r: CdRun, cap: int -> int, frames: nat, segments: seq<Segment>, s: Segment)
    requires AllPlaced(runs, cap, frames, segments)
    requires PlacedBehind(r, cap, frames, FreeBefore(segments, |segments|), s)
    ensures AllPlaced(runs + [r], cap, frames, segments + [s])
  {
    hide PlacedBehind;
    var more := segments + [s];
    forall i | 0 <= i < |more| ensures FreeBefore(more, i) == FreeBefore(segments, i) {}
  }

  method PlaceRuns(runs: seq<CdRun>, cap: int -> int, frames: nat) returns (segments: seq<Segment>)
    ensures AllPlaced(runs, cap, frames, segments)
    ensures Ordered(segments)
  {
    hide FrameTime, PlacedBehind;
    segments := [];
    var free := 0;
    for i := 0 to |runs|
      invariant |segments| == i && free == FreeBefore(segments, i)
      invariant AllPlaced(runs[..i], cap, frames, segments)
    {
      var s := PlaceRun(runs[i], cap, frames, free);
      assert runs[..i + 1] == runs[..i] + [runs[i]];
      OneMorePlaced(runs[..i], runs[i], cap, frames, segments, s);
      segments := segments + [s];
      free := s.start + FRAMES_PER_SECTOR * s.sectors;
    }
    assert runs[..|runs|] == runs;
    PlacedIsOrdered(runs, cap, frames, segments);
  }

  /** Segments that each start behind their predecessor are pairwise ordered. */
  lemma PlacedIsOrdered(runs: seq<CdRun>, cap: int -> int, frames: nat, segments: seq<Segment>)
    requires AllPlaced(runs, cap, frames, segments)
    ensures Ordered(segments)
  {
    hide FrameTime;
    forall k | 0 <= k < |segments| ensures FreeBefore(segments, k) <= segments[k].start {
      assert PlacedBehind(runs[k], cap, frames, FreeBefore(segments, k), segments[k]);
    }
    forall i, j | 0 <= i < j < |segments| ensures End(segments[i]) <= segments[j].start {
      EndsGrow(segments, i, j);
    }
  }

  lemma {:induction false} EndsGrow(segments: seq<Segment>, i: nat, j: nat)
    requires forall k :: 0 <= k < |segments| ==> FreeBefore(segments, k) <= segments[k].start
    requires i < j < |segments|
    ensures End(segments[i]) <= segments[j].start
    decreases j
  {
    assert FreeBefore(segments, j) == End(segments[j - 1]);
    if i < j - 1 {
      EndsGrow(segments, i, j - 1);
    }
  }

  // ----- fader -----------------------------------------------------------------------------------------

  /** A fader event; `None` is a reset to full volume. */
  datatype Fader = Fader(tick: nat, target: Option<nat>)

  datatype Level = Level(volume: nat, target: nat)

  ghost predicate InRange(l: Level) {
    l.volume <= FULL_VOLUME && l.target <= FULL_VOLUME
  }

  function Faded(l: Level, f: Fader): (r: Level) {
    if f.target.None? then Level(FULL_VOLUME, FULL_VOLUME)
    else Level(l.volume, if f.target.value < FULL_VOLUME then f.target.value else FULL_VOLUME)
  }

  /** One step toward the target, taken after a played frame. */
  function Stepped(l: Level): (r: Level)
    ensures r.target == l.target
    ensures l.volume < l.target ==> r.volume == l.volume + 1
    ensures l.volume > l.target ==> r.volume == l.volume - 1
  {
    if l.volume < l.target then Level(l.volume + 1, l.target)
    else if l.volume > l.target then Level(l.volume - 1, l.target) else l
  }

  /** A fader event leaves the volume where it is and only moves the target, to at most full volume; a reset sets both. */
  lemma FadedMeans(l: Level, f: Fader)
    ensures f.target.Some? ==> Faded(l, f).volume == l.volume
    ensures f.target.Some? && f.target.value <= FULL_VOLUME ==> Faded(l, f).target == f.target.value
    ensures f.target.Some? && f.target.value > FULL_VOLUME ==> Faded(l, f).target == FULL_VOLUME
    ensures f.target.None? ==> Faded(l, f).volume == FULL_VOLUME == Faded(l, f).target
  {
  }

  /** The level after n played frames without an event. */
  function SteppedBy(l: Level, n: nat): Level {
    if n == 0 then l else Stepped(SteppedBy(l, n - 1))
  }

  /** A fade is gradual: after n played frames the volume is n nearer to the target, or there. */
  lemma {:induction false} FadeAfter(l: Level, n: nat)
    ensures SteppedBy(l, n).target == l.target
    ensures l.volume <= l.target ==>
      SteppedBy(l, n).volume == if n <= l.target - l.volume then l.volume + n else l.target
    ensures l.volume >= l.target ==>
      SteppedBy(l, n).volume == if n <= l.volume - l.target then l.volume - n else l.target
    decreases n
  {
    if n > 0 {
      FadeAfter(l, n - 1);
    }
  }

  /** Bits 2..10 of the volume, or its two low bits when those are clear. */
  function Multiplier(volume: nat): nat {
    if volume % 2048 / 4 * 4 != 0 then volume % 2048 / 4 * 4 else volume % 4
  }

  /** Scaling with truncation toward zero. */
  function Scale(sample: int, volume: nat): int {
    if sample >= 0 then sample * Multiplier(volume) / 1024 else -((-sample) * Multiplier(volume) / 1024)
  }

  /** A scaled sample keeps its sign and is never louder than its input; full volume is the identity. */
  lemma ScaleShrinks(sample: int, volume: nat)
    requires volume <= FULL_VOLUME
    ensures sample >= 0 ==> 0 <= Scale(sample, volume) <= sample
    ensures sample <= 0 ==> sample <= Scale(sample, volume) <= 0
    ensures Scale(sample, FULL_VOLUME) == sample
    ensures Scale(-sample, volume) == -Scale(sample, volume)
  {
    var m := Multiplier(volume);
    assert m <= 1024;
    var a := if sample >= 0 then sample else -sample;
    MulBelow(a, m, 1024);
  }

  /** Whole multiples of full scale give the exact product, at every volume the multiplier can represent. */
  lemma ScaleExact(q: int, volume: nat)
    requires volume <= FULL_VOLUME && (volume % 4 == 0 || volume < 4)
    ensures Scale(1024 * q, volume) == q * volume
  {
    assert Multiplier(volume) == volume;
    var a: nat := if q >= 0 then q else -q;
    assert 1024 * a * volume == 1024 * (a * volume);
    assert 1024 * (a * volume) / 1024 == a * volume;
  }

  /** At other volumes the two low bits do not matter. */
  lemma ScaleDropsLowBits(sample: int, volume: nat)
    requires 4 <= volume <= FULL_VOLUME
    ensures Scale(sample, volume) == Scale(sample, volume - volume % 4)
  {
    assert Multiplier(volume) == Multiplier(volume - volume % 4);
  }

  /** Any other sample gives the product without its fraction. */
  lemma ScaleBetween(sample: nat, volume: nat)
    requires volume <= FULL_VOLUME && (volume % 4 == 0 || volume < 4)
    ensures 1024 * Scale(sample, volume) <= sample * volume < 1024 * Scale(sample, volume) + 1024
  {
    assert Multiplier(volume) == volume;
  }

  lemma MulBelow(a: nat, m: nat, bound: nat)
    requires m <= bound && bound > 0
    ensures 0 <= a * m / bound <= a
  {
    assert a * m <= a * bound;
    assert a * m / bound <= a * bound / bound;
    assert a * bound / bound == a;
  }

  // ----- streaming -------------------------------------------------------------------------------------

  function Le16(lo: Byte, hi: Byte): (v: int)
    ensures -32768 <= v < 32768
  {
    var u: int := lo + 256 * hi;
    if u >= 32768 then u - 65536 else u
  }

  /** Stereo frame `f` of a sector. */
  function FrameOf(s: Sector, f: nat): (int, int)
    requires f < FRAMES_PER_SECTOR
  {
    (Le16(s[4 * f], s[4 * f + 1]), Le16(s[4 * f + 2], s[4 * f + 3]))
  }

  /** The two bytes of a 16-bit sample: low byte first, two's complement. */
  ghost predicate Stores(lo: Byte, hi: Byte, v: int) {
    lo as int + 256 * hi as int == if v < 0 then v + 0x1_0000 else v
  }

  lemma SampleReadsBack(lo: Byte, hi: Byte, v: int)
    requires -32768 <= v < 32768 && Stores(lo, hi, v)
    ensures Le16(lo, hi) == v
  {
  }

  /** Every 16-bit pair is read back from the four bytes that store it, left before right. */
  lemma FrameReadsBack(s: Sector, f: nat, left: int, right: int)
    requires f < FRAMES_PER_SECTOR && -32768 <= left < 32768 && -32768 <= right < 32768
    requires Stores(s[4 * f], s[4 * f + 1], left) && Stores(s[4 * f + 2], s[4 * f + 3], right)
    ensures FrameOf(s, f) == (left, right)
  {
    hide Le16, Stores;
    SampleReadsBack(s[4 * f], s[4 * f + 1], left);
    SampleReadsBack(s[4 * f + 2], s[4 * f + 3], right);
  }

  ghost predicate Covers(s: Segment, n: nat) {
    s.start <= n < End(s)
  }

  ghost predicate Playing(segments: seq<Segment>, n: nat) {
    exists i :: 0 <= i < |segments| && Covers(segments[i], n)
  }

  /** Direct lookup: the disc sample of the segment that covers frame `n`. */
  ghost function DiscSample(segments: seq<Segment>, sector: int -> Sector, n: nat): (int, int)
    requires Playing(segments, n)
  {
    var i :| 0 <= i < |segments| && Covers(segments[i], n);
    var s := segments[i];
    FrameOf(sector(s.lba + (n - s.start) / FRAMES_PER_SECTOR), (n - s.start) % FRAMES_PER_SECTOR)
  }

  /** In an ordered list at most one segment covers a frame, so the lookup is a function of the frame. */
  lemma CoverIsUnique(segments: seq<Segment>, n: nat, i: nat, j: nat)
    requires Ordered(segments) && i < |segments| && j < |segments|
    requires Covers(segments[i], n) && Covers(segments[j], n)
    ensures i == j
  {
  }

  /** Fader events at or before tick `t`, from index `from` on. */
  ghost function FadersDue(l: Level, faders: seq<Fader>, from: nat, t: nat): Level
    requires from <= |faders|
    decreases |faders| - from
  {
    if from < |faders| && faders[from].tick <= t then FadersDue(Faded(l, faders[from]), faders, from + 1, t) else l
  }

  ghost function FadersConsumed(faders: seq<Fader>, from: nat, t: nat): (r: nat)
    requires from <= |faders|
    ensures from <= r <= |faders|
    ensures forall k :: from <= k < r ==> faders[k].tick <= t
    ensures r < |faders| ==> faders[r].tick > t
    decreases |faders| - from
  {
    if from < |faders| && faders[from].tick <= t then FadersConsumed(faders, from + 1, t) else from
  }

  datatype FaderState = FaderState(level: Level, next: nat)

  /** The fader when frame `n` is scaled: events up to the frame's tick applied, one step per earlier played frame. */
  ghost function FaderAt(segments: seq<Segment>, faders: seq<Fader>, n: nat): (r: FaderState)
    ensures r.next <= |faders|
    decreases n, 1
  {
    var before := FaderBefore(segments, faders, n);
    FaderState(FadersDue(before.level, faders, before.next, FrameTime(n)),
               FadersConsumed(faders, before.next, FrameTime(n)))
  }

  /** The fader state carried into frame `n`, before that frame's events. */
  ghost function FaderBefore(segments: seq<Segment>, faders: seq<Fader>, n: nat): (r: FaderState)
    ensures r.next <= |faders|
    decreases n, 0
  {
    if n == 0 then FaderState(Level(FULL_VOLUME, FULL_VOLUME), 0)
    else
      var p := FaderAt(segments, faders, n - 1);
      FaderState(if Playing(segments, n - 1) then Stepped(p.level) else p.level, p.next)
  }

  ghost predicate AllDue(faders: seq<Fader>, i: nat, t: nat)
    requires i < |faders|
  {
    forall k :: 0 <= k <= i ==> faders[k].tick <= t
  }

  /** At every frame exactly those events are applied that are due together with all events logged before them. */
  lemma {:induction false} AppliedIffDue(segments: seq<Segment>, faders: seq<Fader>, n: nat, i: nat)
    requires i < |faders|
    ensures i < FaderAt(segments, faders, n).next <==> AllDue(faders, i, FrameTime(n))
    decreases n
  {
    hide FrameTime, FadersDue, Playing;
    var before, after := FaderBefore(segments, faders, n).next, FaderAt(segments, faders, n).next;
    assert after == FadersConsumed(faders, before, FrameTime(n));
    forall k | 0 <= k < before ensures faders[k].tick <= FrameTime(n) {
      AppliedIffDue(segments, faders, n - 1, k);
      FrameTimeMonotone(n - 1, n);
    }
  }

  /** In a time-sorted log those are exactly the events at or before the frame's tick. */
  lemma AppliedIffNotLater(segments: seq<Segment>, faders: seq<Fader>, n: nat, i: nat)
    requires i < |faders| && forall j, k :: 0 <= j < k < |faders| ==> faders[j].tick <= faders[k].tick
    ensures i < FaderAt(segments, faders, n).next <==> faders[i].tick <= FrameTime(n)
  {
    hide FrameTime, FaderAt;
    AppliedIffDue(segments, faders, n, i);
  }

  /** The target after some events: that of the last one, to at most full volume; full volume after a reset. */
  lemma {:induction false} TargetAfter(l: Level, faders: seq<Fader>, from: nat, t: nat)
    requires from <= |faders|
    ensures var next := FadersConsumed(faders, from, t);
      FadersDue(l, faders, from, t).target ==
        if next == from then l.target
        else if faders[next - 1].target.None? || faders[next - 1].target.value > 1024 then 1024
        else faders[next - 1].target.value
    decreases |faders| - from
  {
    if from < |faders| && faders[from].tick <= t {
      TargetAfter(Faded(l, faders[from]), faders, from + 1, t);
    }
  }

  /** At every frame the fader heads for the target of the last applied event, from full volume on. */
  lemma {:induction false} TargetIsLast(segments: seq<Segment>, faders: seq<Fader>, n: nat)
    ensures var at := FaderAt(segments, faders, n);
      at.level.target ==
        if at.next == 0 || faders[at.next - 1].target.None? || faders[at.next - 1].target.value > 1024 then 1024
        else faders[at.next - 1].target.value
    decreases n
  {
    hide FrameTime, Playing, FadersConsumed, FadersDue;
    var before := FaderBefore(segments, faders, n);
    TargetAfter(before.level, faders, before.next, FrameTime(n));
    if n > 0 {
      TargetIsLast(segments, faders, n - 1);
    }
  }

  /** Between events the volume moves by one step after a frame that played, and not at all after a silent one. */
  lemma VolumeMoves(segments: seq<Segment>, faders: seq<Fader>, n: nat)
    ensures var at, later := FaderAt(segments, faders, n), FaderAt(segments, faders, n + 1);
      later.next == at.next ==>
        && later.level.target == at.level.target
        && (!Playing(segments, n) ==> later.level.volume == at.level.volume)
        && (Playing(segments, n) && at.level.volume < at.level.target ==> later.level.volume == at.level.volume + 1)
        && (Playing(segments, n) && at.level.volume > at.level.target ==> later.level.volume == at.level.volume - 1)
        && (at.level.volume == at.level.target ==> later.level.volume == at.level.volume)
  {
    hide FrameTime, Playing;
    var before := FaderBefore(segments, faders, n + 1);
    NoneDue(before.level, faders, before.next, FrameTime(n + 1));
  }

  lemma NoneDue(l: Level, faders: seq<Fader>, from: nat, t: nat)
    requires from <= |faders|
    ensures FadersConsumed(faders, from, t) == from ==> FadersDue(l, faders, from, t) == l
  {
  }

  lemma {:induction false} FadersDueInRange(l: Level, faders: seq<Fader>, from: nat, t: nat)
    requires from <= |faders| && InRange(l)
    ensures InRange(FadersDue(l, faders, from, t))
    decreases |faders| - from
  {
    if from < |faders| && faders[from].tick <= t {
      FadersDueInRange(Faded(l, faders[from]), faders, from + 1, t);
    }
  }

  /** The volume never leaves 0..1024. */
  lemma {:induction false} VolumeInRange(segments: seq<Segment>, faders: seq<Fader>, n: nat)
    ensures InRange(FaderAt(segments, faders, n).level)
    decreases n
  {
    if n == 0 {
      FadersDueInRange(Level(FULL_VOLUME, FULL_VOLUME), faders, 0, FrameTime(0));
    } else {
      VolumeInRange(segments, faders, n - 1);
      var p := FaderAt(segments, faders, n - 1);
      FadersDueInRange(if Playing(segments, n - 1) then Stepped(p.level) else p.level, faders, p.next, FrameTime(n));
    }
  }

  /** What output frame `n` must be: the disc sample at the faded volume, or silence. */
  ghost function CdFrame(segments: seq<Segment>, faders: seq<Fader>, sector: int -> Sector, n: nat): (int, int) {
    if Playing(segments, n) then
      var s := DiscSample(segments, sector, n);
      var v := FaderAt(segments, faders, n).level.volume;
      (Scale(s.0, v), Scale(s.1, v))
    else (0, 0)
  }

  /** The first segment that is not over at frame `n`, searched from `from`. */
  method AdvancePointer(segments: seq<Segment>, from: nat, n: nat) returns (si: nat)
    requires from <= |segments| && forall i :: 0 <= i < from ==> End(segments[i]) <= n
    ensures from <= si <= |segments| && forall i :: 0 <= i < si ==> End(segments[i]) <= n
    ensures si < |segments| ==> n < End(segments[si])
  {
    si := from;
    while si < |segments| && n >= End(segments[si])
      invariant from <= si <= |segments|
      invariant forall i :: 0 <= i < si ==> End(segments[i]) <= n
    {
      si := si + 1;
    }
  }

  /** The disc sample under the pointer, through the one-sector cache. */
  method ReadFrame(s: Segment, sector: int -> Sector, n: nat, cached: Option<(int, Sector)>)
    returns (l: int, r: int, cache: Option<(int, Sector)>)
    requires Covers(s, n)
    requires cached.Some? ==> cached.value.1 == sector(cached.value.0)
    ensures cache.Some? && cache.value.1 == sector(cache.value.0)
    ensures (l, r) == FrameOf(sector(s.lba + (n - s.start) / FRAMES_PER_SECTOR), (n - s.start) % FRAMES_PER_SECTOR)
  {
    cache := cached;
    var j, f := (n - s.start) / FRAMES_PER_SECTOR, (n - s.start) % FRAMES_PER_SECTOR;
    if cache.None? || cache.value.0 != s.lba + j {
      cache := Some((s.lba + j, sector(s.lba + j)));
    }
    var frame := FrameOf(cache.value.1, f);
    l, r := frame.0, frame.1;
  }

  /** The CD-DA contribution is never louder than the disc sample it plays, and keeps its sign. */
  lemma CdFrameNotLouder(segments: seq<Segment>, faders: seq<Fader>, sector: int -> Sector, n: nat)
    requires Playing(segments, n)
    ensures var (l, r), (dl, dr) := CdFrame(segments, faders, sector, n), DiscSample(segments, sector, n);
      && (if dl >= 0 then 0 <= l <= dl else dl <= l <= 0)
      && (if dr >= 0 then 0 <= r <= dr else dr <= r <= 0)
  {
    VolumeInRange(segments, faders, n);
    var v := FaderAt(segments, faders, n).level.volume;
    var s := DiscSample(segments, sector, n);
    ScaleShrinks(s.0, v);
    ScaleShrinks(s.1, v);
  }

  /** `cdda_stream`: the advancing-pointer stream equals the direct lookup at every frame. */
  method CddaStream(segments: seq<Segment>, faders: seq<Fader>, sector: int -> Sector, frames: nat)
    returns (out: seq<(int, int)>)
    requires Ordered(segments)
    ensures |out| == frames
    ensures forall n :: 0 <= n < frames ==> out[n] == CdFrame(segments, faders, sector, n)
  {
    hide FrameTime, CdFrame, FaderAt, FaderBefore, DiscSample, FrameOf, Scale, Stepped, FadersDue, FadersConsumed;
    FaderStarts(segments, faders);
    out := [];
    var level := Level(FULL_VOLUME, FULL_VOLUME);
    var fi, si := 0, 0;
    var cache: Option<(int, Sector)> := None;
    for n := 0 to frames
      invariant |out| == n && forall i :: 0 <= i < n ==> out[i] == CdFrame(segments, faders, sector, i)
      invariant FaderState(level, fi) == FaderBefore(segments, faders, n)
      invariant si <= |segments| && forall i :: 0 <= i < si ==> End(segments[i]) <= n
      invariant cache.Some? ==> cache.value.1 == sector(cache.value.0)
    {
      level, fi := AdvanceFader(level, faders, fi, FrameTime(n));
      FaderAdvances(segments, faders, n, FaderState(level, fi));
      si := AdvancePointer(segments, si, n);
      if si < |segments| && segments[si].start <= n {
        var l, r;
        l, r, cache := ReadFrame(segments[si], sector, n, cache);
        PlayingFrame(segments, faders, sector, n, si);
        out := out + [(Scale(l, level.volume), Scale(r, level.volume))];
        level := Stepped(level);
      } else {
        SilentFrame(segments, faders, sector, n, si);
        out := out + [(0, 0)];
      }
    }
  }

  lemma FaderStarts(segments: seq<Segment>, faders: seq<Fader>)
    ensures FaderBefore(segments, faders, 0) == FaderState(Level(FULL_VOLUME, FULL_VOLUME), 0)
  {
  }

  lemma FaderAdvances(segments: seq<Segment>, faders: seq<Fader>, n: nat, at: FaderState)
    requires var before := FaderBefore(segments, faders, n);
      && at.level == FadersDue(before.level, faders, before.next, FrameTime(n))
      && at.next == FadersConsumed(faders, before.next, FrameTime(n))
    ensures at == FaderAt(segments, faders, n)
  {
  }

  /** The frame and the next fader state while the segment under the pointer plays. */
  lemma PlayingFrame(segments: seq<Segment>, faders: seq<Fader>, sector: int -> Sector, n: nat, si: nat)
    requires Ordered(segments) && si < |segments| && Covers(segments[si], n)
    ensures var s, at := segments[si], FaderAt(segments, faders, n);
      && var d := FrameOf(sector(s.lba + (n - s.start) / FRAMES_PER_SECTOR), (n - s.start) % FRAMES_PER_SECTOR);
      && CdFrame(segments, faders, sector, n) == (Scale(d.0, at.level.volume), Scale(d.1, at.level.volume))
      && FaderBefore(segments, faders, n + 1) == FaderState(Stepped(at.level), at.next)
  {
    hide FrameTime, FaderAt, DiscSample, FrameOf, Scale, Stepped, Ordered;
    LookupIs(segments, sector, n, si);
  }

  lemma LookupIs(segments: seq<Segment>, sector: int -> Sector, n: nat, i: nat)
    requires Ordered(segments) && i < |segments| && Covers(segments[i], n)
    ensures Playing(segments, n)
    ensures var s := segments[i];
      DiscSample(segments, sector, n)
      == FrameOf(sector(s.lba + (n - s.start) / FRAMES_PER_SECTOR), (n - s.start) % FRAMES_PER_SECTOR)
  {
    hide FrameOf;
    forall k | 0 <= k < |segments| && Covers(segments[k], n) ensures k == i {
      CoverIsUnique(segments, n, i, k);
    }
  }

  lemma SilentFrame(segments: seq<Segment>, faders: seq<Fader>, sector: int -> Sector, n: nat, si: nat)
    requires Ordered(segments) && si <= |segments|
    requires forall i :: 0 <= i < si ==> End(segments[i]) <= n
    requires si < |segments| ==> n < segments[si].start
    ensures CdFrame(segments, faders, sector, n) == (0, 0)
    ensures FaderBefore(segments, faders, n + 1) == FaderAt(segments, faders, n)
  {
    hide FrameTime, FaderAt, DiscSample, Scale, Stepped;
  }

  method AdvanceFader(l: Level, faders: seq<Fader>, from: nat, t: nat) returns (level: Level, fi: nat)
    requires from <= |faders|
    ensures fi == FadersConsumed(faders, from, t) && level == FadersDue(l, faders, from, t)
  {
    level, fi := l, from;
    while fi < |faders| && faders[fi].tick <= t
      invariant from <= fi <= |faders|
      invariant FadersConsumed(faders, from, t) == FadersConsumed(faders, fi, t)
      invariant FadersDue(l, faders, from, t) == FadersDue(level, faders, fi, t)
    {
      level := Faded(level, faders[fi]);
      fi := fi + 1;
    }
  }

}
