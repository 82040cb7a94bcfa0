/** Deriving a verbatim-copy alias for a work-RAM stop, and the union of the aliases found so far. */
module CopyAlias {
  import opened Basics

  const WORK_RAM_BEGIN: nat := 0xFF_0000
  const WORK_RAM_SIZE: nat := 0x1_0000
  const MIN_RUN: nat := 16

  /** Bytes execution .. execution + length - 1 of work RAM copy the image bytes from `source` on. */
  datatype Alias = Alias(execution: nat, source: nat, length: nat)

  function End(a: Alias): nat { a.execution + a.length }

  // ----- derivation ----------------------------------------------------------------------------------

  /** `length` bytes agree from work-RAM offset `o` and image position `p` on. */
  ghost predicate Verbatim(rom: seq<Byte>, ram: seq<Byte>, o: nat, p: nat, length: nat) {
    && o + length <= |ram| && p + length <= |rom|
    && forall x :: o <= x < o + length ==> ram[x] == rom[x + (p - o)]
  }

  /** The stop's 16 bytes stand at image position `p`. */
  ghost predicate Occurs(rom: seq<Byte>, ram: seq<Byte>, o: nat, p: nat) {
    Verbatim(rom, ram, o, p, MIN_RUN)
  }

  /** An even-aligned verbatim run of even length around the 16 bytes at `pc`. */
  ghost predicate CoversStop(rom: seq<Byte>, ram: seq<Byte>, pc: nat, a: Alias) {
    && a.execution % 2 == 0 && a.source % 2 == 0 && a.length % 2 == 0
    && WORK_RAM_BEGIN <= a.execution <= pc && pc + MIN_RUN <= End(a)
    && Verbatim(rom, ram, a.execution - WORK_RAM_BEGIN, a.source, a.length)
  }

  /** Where the run of `a` shows the stop's bytes in the image. */
  ghost function StopPosition(a: Alias, pc: nat): int { a.source + pc - a.execution }

  /** Number of bytes that agree from (o, p) forward. */
  ghost function Forward(rom: seq<Byte>, ram: seq<Byte>, o: nat, p: nat): nat
    decreases |rom| - p
  {
    if o < |ram| && p < |rom| && ram[o] == rom[p] then 1 + Forward(rom, ram, o + 1, p + 1) else 0
  }

  /** Number of bytes, in pairs, that agree backward from (o, p). */
  ghost function Back(rom: seq<Byte>, ram: seq<Byte>, o: nat, p: nat): (b: nat)
    requires o <= |ram| && p <= |rom|
    ensures b % 2 == 0 && b <= o && b <= p
    decreases o
  {
    if o >= 2 && p >= 2 && ram[o - 2] == rom[p - 2] && ram[o - 1] == rom[p - 1] then 2 + Back(rom, ram, o - 2, p - 2) else 0
  }

  lemma {:induction false} ForwardIsMaximal(rom: seq<Byte>, ram: seq<Byte>, o: nat, p: nat, length: nat)
    ensures Verbatim(rom, ram, o, p, length) <==> (length <= Forward(rom, ram, o, p)
                                                   && o + length <= |ram| && p + length <= |rom|)
    decreases length
  {
    if length > 0 {
      ForwardIsMaximal(rom, ram, o + 1, p + 1, length - 1);
      assert Verbatim(rom, ram, o, p, length) ==> ram[o] == rom[p];
    }
  }

  lemma {:induction false} ForwardInBounds(rom: seq<Byte>, ram: seq<Byte>, o: nat, p: nat)
    requires o <= |ram| && p <= |rom|
    ensures o + Forward(rom, ram, o, p) <= |ram| && p + Forward(rom, ram, o, p) <= |rom|
    decreases |rom| - p
  {
    if o < |ram| && p < |rom| && ram[o] == rom[p] {
      ForwardInBounds(rom, ram, o + 1, p + 1);
    }
  }

  /** An even number of bytes agree just before (o, p) exactly when `Back` reaches that far. */
  lemma {:induction false} BackIsMaximal(rom: seq<Byte>, ram: seq<Byte>, o: nat, p: nat, b: nat)
    requires o <= |ram| && p <= |rom| && b % 2 == 0 && b <= o && b <= p
    ensures Verbatim(rom, ram, o - b, p - b, b) <==> b <= Back(rom, ram, o, p)
    decreases b
  {
    if b > 0 {
      assert Verbatim(rom, ram, o - b, p - b, b) ==> ram[o - 2] == rom[p - 2] && ram[o - 1] == rom[p - 1];
      if Back(rom, ram, o, p) >= 2 {
        BackIsMaximal(rom, ram, o - 2, p - 2, b - 2);
      }
    }
  }

  /** The longest even run through an occurrence at `p`. */
  ghost function Total(rom: seq<Byte>, ram: seq<Byte>, o: nat, p: nat): nat
    requires o <= |ram| && p <= |rom|
  {
    Back(rom, ram, o, p) + Forward(rom, ram, o, p) / 2 * 2
  }

  ghost function Through(rom: seq<Byte>, ram: seq<Byte>, o: nat, p: nat): Alias
    requires o <= |ram| && p <= |rom|
  {
    Alias(WORK_RAM_BEGIN + o - Back(rom, ram, o, p), p - Back(rom, ram, o, p), Total(rom, ram, o, p))
  }

  /** Through an even occurrence there is such a run ... */
  lemma ThroughCovers(rom: seq<Byte>, ram: seq<Byte>, pc: nat, p: nat)
    requires WORK_RAM_BEGIN <= pc && pc % 2 == 0 && p % 2 == 0
    requires Occurs(rom, ram, pc - WORK_RAM_BEGIN, p)
    ensures var o := pc - WORK_RAM_BEGIN;
      CoversStop(rom, ram, pc, Through(rom, ram, o, p)) && StopPosition(Through(rom, ram, o, p), pc) == p
  {
    hide Back, Forward;
    var o := pc - WORK_RAM_BEGIN;
    var b, f := Back(rom, ram, o, p), Forward(rom, ram, o, p);
    ForwardIsMaximal(rom, ram, o, p, MIN_RUN);
    ForwardInBounds(rom, ram, o, p);
    ForwardIsMaximal(rom, ram, o, p, f / 2 * 2);
    BackIsMaximal(rom, ram, o, p, b);
    assert Verbatim(rom, ram, o - b, p - b, b) && Verbatim(rom, ram, o, p, f / 2 * 2);
  }

  /** ... and no run showing the stop at the same position is longer. */
  lemma ThroughIsLongest(rom: seq<Byte>, ram: seq<Byte>, pc: nat, a: Alias)
    requires WORK_RAM_BEGIN <= pc && pc % 2 == 0 && CoversStop(rom, ram, pc, a)
    ensures var p := StopPosition(a, pc);
      && p >= 0 && p % 2 == 0 && Occurs(rom, ram, pc - WORK_RAM_BEGIN, p)
      && a.length <= Total(rom, ram, pc - WORK_RAM_BEGIN, p)
  {
    hide Back, Forward;
    var o, b := pc - WORK_RAM_BEGIN, pc - a.execution;
    var p, f := a.source + b, a.length - b;
    assert Verbatim(rom, ram, o, p, f);
    ForwardIsMaximal(rom, ram, o, p, f);
    assert Verbatim(rom, ram, o - b, p - b, b);
    BackIsMaximal(rom, ram, o, p, b);
  }

  predicate Stands(hay: seq<Byte>, needle: seq<Byte>, q: nat) {
    q + |needle| <= |hay| && hay[q..q + |needle|] == needle
  }

  /** Least position at or after `from` where `needle` stands (`bytes.find`). */
  method Find(hay: seq<Byte>, needle: seq<Byte>, from: nat) returns (position: Option<nat>)
    ensures position.Some? ==> from <= position.value && Stands(hay, needle, position.value)
    ensures forall q: nat :: from <= q && (position.Some? ==> q < position.value) ==> !Stands(hay, needle, q)
  {
    var q := from;
    while q + |needle| <= |hay|
      invariant from <= q && forall r: nat :: from <= r < q ==> !Stands(hay, needle, r)
    {
      if Stands(hay, needle, q) {
        return Some(q);
      }
      q := q + 1;
    }
    position := None;
  }

  lemma StandsIsOccurrence(rom: seq<Byte>, ram: seq<Byte>, o: nat, p: nat)
    requires o + MIN_RUN <= |ram|
    ensures Stands(rom, ram[o..o + MIN_RUN], p) <==> Occurs(rom, ram, o, p)
  {
  }

  /** One occurrence: extend forward byte by byte, backward pair by pair, then drop an odd last byte. */
  method Extend(rom: seq<Byte>, ram: seq<Byte>, o: nat, p: nat) returns (length: nat, back: nat)
    requires Occurs(rom, ram, o, p)
    ensures back == Back(rom, ram, o, p) && back + length == Total(rom, ram, o, p)
  {
    hide Verbatim, Forward, Back;
    ForwardSplits(rom, ram, o, p, MIN_RUN);
    length := ExtendForward(rom, ram, o, p);
    back := ExtendBack(rom, ram, o, p);
    length := length - length % 2;
  }

  method ExtendForward(rom: seq<Byte>, ram: seq<Byte>, o: nat, p: nat) returns (length: nat)
    requires o + MIN_RUN <= |ram| && p + MIN_RUN <= |rom|
    requires Forward(rom, ram, o, p) == MIN_RUN + Forward(rom, ram, o + MIN_RUN, p + MIN_RUN)
    ensures length == Forward(rom, ram, o, p)
  {
    length := MIN_RUN;
    while o + length < |ram| && p + length < |rom| && ram[o + length] == rom[p + length]
      invariant o + length <= |ram| && p + length <= |rom|
      invariant Forward(rom, ram, o, p) == length + Forward(rom, ram, o + length, p + length)
      decreases |rom| - length
    {
      length := length + 1;
    }
  }

  /** The two bytes before `o` and before `p` are equal slices. */
  predicate SamePair(rom: seq<Byte>, ram: seq<Byte>, o: nat, p: nat)
    requires 2 <= o <= |ram| && 2 <= p <= |rom|
  {
    ram[o - 2..o] == rom[p - 2..p]
  }

  lemma PairAgrees(rom: seq<Byte>, ram: seq<Byte>, o: nat, p: nat)
    requires 2 <= o <= |ram| && 2 <= p <= |rom|
    ensures SamePair(rom, ram, o, p) <==> ram[o - 2] == rom[p - 2] && ram[o - 1] == rom[p - 1]
  {
    assert ram[o - 2..o] == [ram[o - 2], ram[o - 1]];
    assert rom[p - 2..p] == [rom[p - 2], rom[p - 1]];
  }

  method ExtendBack(rom: seq<Byte>, ram: seq<Byte>, o: nat, p: nat) returns (back: nat)
    requires o <= |ram| && p <= |rom|
    ensures back == Back(rom, ram, o, p)
  {
    hide SamePair;
    back := 0;
    while back + 2 <= o && back + 2 <= p && SamePair(rom, ram, o - back, p - back)
      invariant back % 2 == 0 && back <= o && back <= p
      invariant Back(rom, ram, o, p) == back + Back(rom, ram, o - back, p - back)
      decreases o - back
    {
      PairAgrees(rom, ram, o - back, p - back);
      back := back + 2;
    }
    if back + 2 <= o && back + 2 <= p {
      PairAgrees(rom, ram, o - back, p - back);
    }
  }

  lemma {:induction false} ForwardSplits(rom: seq<Byte>, ram: seq<Byte>, o: nat, p: nat, n: nat)
    requires Verbatim(rom, ram, o, p, n)
    ensures o + n <= |ram| && p + n <= |rom|
    ensures Forward(rom, ram, o, p) == n + Forward(rom, ram, o + n, p + n)
    decreases n
  {
    if n > 0 {
      assert ram[o] == rom[p];
      ForwardSplits(rom, ram, o + 1, p + 1, n - 1);
    }
  }

  /** The best candidate among the even occurrences below `limit`: the longest, the lowest among equals. */
  ghost predicate IsBest(rom: seq<Byte>, ram: seq<Byte>, o: nat, limit: nat, best: Option<(nat, nat, nat)>)
    requires o <= |ram|
  {
    match best
    case None => forall q: nat :: q < limit && q % 2 == 0 ==> !Occurs(rom, ram, o, q)
    case Some((total, back, p)) =>
      && p < limit && p % 2 == 0 && Occurs(rom, ram, o, p)
      && total == Total(rom, ram, o, p) && back == Back(rom, ram, o, p)
      && (forall q: nat :: q < limit && q % 2 == 0 && Occurs(rom, ram, o, q) ==> Total(rom, ram, o, q) <= total)
      && (forall q: nat :: q < p && q % 2 == 0 && Occurs(rom, ram, o, q) ==> Total(rom, ram, o, q) < total)
  }

  /** The stop can be explained at all: an even work-RAM PC with 16 bytes left that stand at an even image position. */
  ghost predicate Explainable(rom: seq<Byte>, ram: seq<Byte>, pc: nat) {
    && pc % 2 == 0 && WORK_RAM_BEGIN <= pc < WORK_RAM_BEGIN + WORK_RAM_SIZE
    && exists p: nat :: p % 2 == 0 && Occurs(rom, ram, pc - WORK_RAM_BEGIN, p)
  }

  /** A longest verbatim run around the stop, the one at the lowest position among equally long ones. */
  ghost predicate Derived(rom: seq<Byte>, ram: seq<Byte>, pc: nat, alias: Alias) {
    && CoversStop(rom, ram, pc, alias)
    && forall a :: CoversStop(rom, ram, pc, a) ==>
      a.length < alias.length || (a.length == alias.length && StopPosition(alias, pc) <= StopPosition(a, pc))
  }

  /** `derive_copy_alias`. */
  method DeriveCopyAlias(rom: seq<Byte>, ram: seq<Byte>, pc: nat) returns (alias: Option<Alias>)
    ensures alias.Some? <==> Explainable(rom, ram, pc)
    ensures alias.Some? ==> Derived(rom, ram, pc, alias.value)
  {
    if pc % 2 == 1 || !(WORK_RAM_BEGIN <= pc < WORK_RAM_BEGIN + WORK_RAM_SIZE) {
      return None;
    }
    var o := pc - WORK_RAM_BEGIN;
    if o + MIN_RUN > |ram| {
      return None;
    }
    var best := BestOccurrence(rom, ram, o);
    if best.None? {
      forall p: nat | p % 2 == 0 ensures !Occurs(rom, ram, o, p) {}
      return None;
    }
    var (total, back, p) := best.value;
    ThroughCovers(rom, ram, pc, p);
    forall a | CoversStop(rom, ram, pc, a)
      ensures a.length < total || (a.length == total && p <= StopPosition(a, pc))
    {
      ThroughIsLongest(rom, ram, pc, a);
    }
    alias := Some(Alias(WORK_RAM_BEGIN + o - back, p - back, total));
  }

  /** The derived run is all of what agrees around its position. */
  lemma DerivedIsThrough(rom: seq<Byte>, ram: seq<Byte>, pc: nat, alias: Alias)
    requires WORK_RAM_BEGIN <= pc && pc % 2 == 0 && Derived(rom, ram, pc, alias)
    ensures var p := StopPosition(alias, pc);
      && p >= 0 && p % 2 == 0 && Occurs(rom, ram, pc - WORK_RAM_BEGIN, p)
      && alias.length == Total(rom, ram, pc - WORK_RAM_BEGIN, p)
  {
    hide Forward, Back, Total;
    ThroughIsLongest(rom, ram, pc, alias);
    ThroughCovers(rom, ram, pc, StopPosition(alias, pc));
  }

  ghost predicate LowestEven(rom: seq<Byte>, ram: seq<Byte>, o: nat, p: nat) {
    p % 2 == 0 && Occurs(rom, ram, o, p) && forall q: nat :: q < p && q % 2 == 0 ==> !Occurs(rom, ram, o, q)
  }

  /** The lowest even occurrence is used exactly when no other even occurrence extends to a longer run. */
  lemma LowestIsUsedIff(rom: seq<Byte>, ram: seq<Byte>, pc: nat, alias: Alias, lowest: nat)
    requires WORK_RAM_BEGIN <= pc && pc % 2 == 0 && Derived(rom, ram, pc, alias)
    requires LowestEven(rom, ram, pc - WORK_RAM_BEGIN, lowest)
    ensures var o := pc - WORK_RAM_BEGIN;
      StopPosition(alias, pc) == lowest <==>
        (forall q: nat :: q % 2 == 0 && Occurs(rom, ram, o, q) ==> Total(rom, ram, o, q) <= Total(rom, ram, o, lowest))
  {
    hide Forward, Back, Total;
    var o := pc - WORK_RAM_BEGIN;
    DerivedIsThrough(rom, ram, pc, alias);
    forall q: nat | q % 2 == 0 && Occurs(rom, ram, o, q)
      ensures Total(rom, ram, o, q) < alias.length || (Total(rom, ram, o, q) == alias.length && StopPosition(alias, pc) <= q)
    {
      ThroughCovers(rom, ram, pc, q);
    }
  }

  /** An input on which a later occurrence is used: the 16 bytes stand at 0 and at 18, but only at 18 does the run go on. */
  lemma LaterOccurrenceMayWin(rom: seq<Byte>, ram: seq<Byte>, alias: Alias)
    requires ram == seq(WORK_RAM_SIZE, i => if i < 16 then 0 else 1)
    requires rom == seq(36, i => if i < 16 then 0 else if i < 18 then 2 else if i < 34 then 0 else 1)
    requires Derived(rom, ram, WORK_RAM_BEGIN, alias)
    ensures LowestEven(rom, ram, 0, 0) && StopPosition(alias, WORK_RAM_BEGIN) != 0
  {
    assert CoversStop(rom, ram, WORK_RAM_BEGIN, Alias(WORK_RAM_BEGIN, 18, 18));
    assert ram[16] != rom[16];
  }

  /** The search over all occurrences of the needle. */
  method BestOccurrence(rom: seq<Byte>, ram: seq<Byte>, o: nat) returns (best: Option<(nat, nat, nat)>)
    requires o + MIN_RUN <= |ram|
    ensures IsBest(rom, ram, o, |rom| + 1, best)
  {
    hide Total, Back, Forward;
    var needle := ram[o..o + MIN_RUN];
    best := None;
    ghost var seen: nat := 0;
    var position := Find(rom, needle, 0);
    NoneBetween(rom, ram, o, needle, 0, position);
    while position.Some?
      invariant IsBest(rom, ram, o, seen, best)
      invariant position.Some? ==> seen <= position.value && Occurs(rom, ram, o, position.value)
      invariant forall q: nat :: seen <= q && (position.Some? ==> q < position.value) ==> !Occurs(rom, ram, o, q)
      decreases if position.Some? then |rom| + 1 - position.value else 0
    {
      var p := position.value;
      if p % 2 == 0 {
        var length, back := Extend(rom, ram, o, p);
        if best.None? || back + length > best.value.0 {
          best := Some((back + length, back, p));
        }
      }
      seen := p + 1;
      position := Find(rom, needle, p + 1);
      NoneBetween(rom, ram, o, needle, p + 1, position);
    }
  }

  /** A search result read as occurrences. */
  lemma NoneBetween(rom: seq<Byte>, ram: seq<Byte>, o: nat, needle: seq<Byte>, from: nat, position: Option<nat>)
    requires o + MIN_RUN <= |ram| && needle == ram[o..o + MIN_RUN]
    requires position.Some? ==> Stands(rom, needle, position.value)
    requires forall q: nat :: from <= q && (position.Some? ==> q < position.value) ==> !Stands(rom, needle, q)
    ensures position.Some? ==> Occurs(rom, ram, o, position.value)
    ensures forall q: nat :: from <= q && (position.Some? ==> q < position.value) ==> !Occurs(rom, ram, o, q)
  {
    if position.Some? {
      StandsIsOccurrence(rom, ram, o, position.value);
    }
    forall q: nat | from <= q && (position.Some? ==> q < position.value) ensures !Occurs(rom, ram, o, q) {
      StandsIsOccurrence(rom, ram, o, q);
    }
  }

  // ----- merging -------------------------------------------------------------------------------------------

  /** Tuple order on (execution, source, length). */
  predicate Leq(a: Alias, b: Alias) {
    a.execution < b.execution
    || (a.execution == b.execution && (a.source < b.source || (a.source == b.source && a.length <= b.length)))
  }

  /** Strict order on (execution, source). */
  predicate Before(a: Alias, b: Alias) {
    a.execution < b.execution || (a.execution == b.execution && a.source < b.source)
  }

  function Inserted(s: seq<Alias>, x: Alias): seq<Alias> {
    if s == [] || Leq(x, s[0]) then [x] + s else [s[0]] + Inserted(s[1..], x)
  }

  function Sorted(s: seq<Alias>): seq<Alias>
    decreases |s|
  {
    if s == [] then [] else Inserted(Sorted(s[..|s| - 1]), s[|s| - 1])
  }

  ghost predicate Ascending(s: seq<Alias>) {
    forall i, j :: 0 <= i < j < |s| ==> Leq(s[i], s[j])
  }

  predicate SameDelta(a: Alias, b: Alias) {
    a.execution - a.source == b.execution - b.source
  }

  /** `b`, not before `a` in the order, continues or overlaps `a` under the same delta. */
  predicate Joins(a: Alias, b: Alias) {
    SameDelta(a, b) && b.execution <= End(a)
  }

  function Joined(a: Alias, b: Alias): Alias
    requires b.execution >= a.execution
  {
    Alias(a.execution, a.source, (if End(a) >= End(b) then End(a) else End(b)) - a.execution)
  }

  /** One step of the merge loop. */
  function Absorbed(merged: seq<Alias>, x: Alias): seq<Alias>
    requires merged != [] ==> merged[|merged| - 1].execution <= x.execution
  {
    if merged != [] && Joins(merged[|merged| - 1], x) then
      merged[..|merged| - 1] + [Joined(merged[|merged| - 1], x)]
    else merged + [x]
  }

  ghost predicate Continues(merged: seq<Alias>, rest: seq<Alias>) {
    Ascending(rest) && (merged != [] && rest != [] ==> merged[|merged| - 1].execution <= rest[0].execution)
  }

  ghost function Folded(merged: seq<Alias>, rest: seq<Alias>): seq<Alias>
    requires Continues(merged, rest)
    decreases |rest|
  {
    if rest == [] then merged
    else
      FoldContinues(merged, rest);
      Folded(Absorbed(merged, rest[0]), rest[1..])
  }

  lemma FoldContinues(merged: seq<Alias>, rest: seq<Alias>)
    requires Continues(merged, rest) && rest != []
    ensures Continues(Absorbed(merged, rest[0]), rest[1..])
  {
  }

  lemma {:induction false} SortedAscends(s: seq<Alias>)
    ensures Ascending(Sorted(s)) && |Sorted(s)| == |s|
    ensures forall a :: a in Sorted(s) <==> a in s
    decreases |s|
  {
    if s != [] {
      SortedAscends(s[..|s| - 1]);
      InsertedAscends(Sorted(s[..|s| - 1]), s[|s| - 1]);
      assert s == s[..|s| - 1] + [s[|s| - 1]];
    }
  }

  lemma {:induction false} InsertedAscends(s: seq<Alias>, x: Alias)
    requires Ascending(s)
    ensures Ascending(Inserted(s, x)) && |Inserted(s, x)| == |s| + 1
    ensures forall a :: a in Inserted(s, x) <==> a in s || a == x
    decreases |s|
  {
    if s != [] && !Leq(x, s[0]) {
      InsertedAscends(s[1..], x);
      var t := Inserted(s[1..], x);
      forall a | a in t ensures Leq(s[0], a) {
        if a in s[1..] {
          var i :| 0 <= i < |s[1..]| && s[1..][i] == a;
          assert s[i + 1] == a;
        }
      }
      assert s == [s[0]] + s[1..];
    }
  }

  /** The union of the aliases, as a value: sort, then fold from the left. */
  ghost function Merged(aliases: seq<Alias>): seq<Alias> {
    SortedAscends(aliases);
    Folded([], Sorted(aliases))
  }

  method MergeStep(merged: seq<Alias>, x: Alias) returns (r: seq<Alias>)
    requires merged != [] ==> merged[|merged| - 1].execution <= x.execution
    ensures r == Absorbed(merged, x)
  {
    if |merged| > 0 {
      var last := merged[|merged| - 1];
      if x.execution - x.source == last.execution - last.source && x.execution <= last.execution + last.length {
        var end := if last.execution + last.length >= x.execution + x.length
                   then last.execution + last.length else x.execution + x.length;
        return merged[|merged| - 1 := Alias(last.execution, last.source, end - last.execution)];
      }
    }
    r := merged + [x];
  }

  /** `merge_copy_aliases`. */
  method MergeCopyAliases(aliases: seq<Alias>) returns (merged: seq<Alias>)
    ensures merged == Merged(aliases)
  {
    hide Sorted, Ascending, Absorbed;
    var sorted := Sorted(aliases);
    SortedAscends(aliases);
    merged := [];
    assert sorted[0..] == sorted;
    for i := 0 to |sorted|
      invariant Continues(merged, sorted[i..])
      invariant Folded(merged, sorted[i..]) == Merged(aliases)
    {
      FoldContinues(merged, sorted[i..]);
      assert sorted[i..][1..] == sorted[i + 1..];
      merged := MergeStep(merged, sorted[i]);
    }
  }

  // ----- what a merge keeps --------------------------------------------------------------------------------

  /** Execution byte `e` is a copy of source byte `p` according to `a`. */
  ghost predicate Maps(a: Alias, e: int, p: int) {
    a.execution <= e < End(a) && e - p == a.execution - a.source
  }

  ghost predicate Relates(s: seq<Alias>, e: int, p: int) {
    exists i :: 0 <= i < |s| && Maps(s[i], e, p)
  }

  lemma AbsorbedRelates(merged: seq<Alias>, x: Alias, e: int, p: int)
    requires merged != [] ==> merged[|merged| - 1].execution <= x.execution
    ensures Relates(Absorbed(merged, x), e, p) <==> Relates(merged, e, p) || Maps(x, e, p)
  {
    var r := Absorbed(merged, x);
    var n := |merged| - 1;
    if merged != [] && Joins(merged[n], x) {
      assert r[n] == Joined(merged[n], x);
      assert Maps(r[n], e, p) <==> Maps(merged[n], e, p) || Maps(x, e, p);
      assert forall i :: 0 <= i < n ==> r[i] == merged[i];
      if Relates(merged, e, p) {
        var i :| 0 <= i < |merged| && Maps(merged[i], e, p);
        assert Maps(r[i], e, p);
      }
    } else {
      assert r[|merged|] == x;
      assert forall i :: 0 <= i < |merged| ==> r[i] == merged[i];
    }
  }

  lemma {:induction false} FoldRelates(merged: seq<Alias>, rest: seq<Alias>, e: int, p: int)
    requires Continues(merged, rest)
    ensures Relates(Folded(merged, rest), e, p) <==> Relates(merged, e, p) || Relates(rest, e, p)
    decreases |rest|
  {
    hide Absorbed, Maps;
    if rest != [] {
      FoldContinues(merged, rest);
      FoldRelates(Absorbed(merged, rest[0]), rest[1..], e, p);
      AbsorbedRelates(merged, rest[0], e, p);
      assert forall i :: 1 <= i < |rest| ==> rest[i] == rest[1..][i - 1];
      assert Relates(rest, e, p) <==> Maps(rest[0], e, p) || Relates(rest[1..], e, p);
    }
  }

  /** The merge keeps exactly the relation between execution bytes and source bytes. */
  lemma MergedKeepsPairs(aliases: seq<Alias>, e: int, p: int)
    ensures Relates(Merged(aliases), e, p) <==> Relates(aliases, e, p)
  {
    hide Sorted, Maps, Folded;
    SortedAscends(aliases);
    FoldRelates([], Sorted(aliases), e, p);
    if Relates(aliases, e, p) {
      var i :| 0 <= i < |aliases| && Maps(aliases[i], e, p);
      assert aliases[i] in Sorted(aliases);
    }
    if Relates(Sorted(aliases), e, p) {
      var i :| 0 <= i < |Sorted(aliases)| && Maps(Sorted(aliases)[i], e, p);
      assert Sorted(aliases)[i] in aliases;
    }
  }

  /** Strictly sorted by (execution, source), and no neighbours left to join. */
  ghost predicate Normal(s: seq<Alias>) {
    && (forall i, j :: 0 <= i < j < |s| ==> Before(s[i], s[j]))
    && (forall i :: 0 < i < |s| ==> !Joins(s[i - 1], s[i]))
  }

  ghost predicate KeyContinues(merged: seq<Alias>, rest: seq<Alias>) {
    Ascending(rest) && (merged != [] && rest != [] ==> !Before(rest[0], merged[|merged| - 1]))
  }

  /** A separate entry behind a normal list is behind all of it. */
  lemma AppendedIsNormal(merged: seq<Alias>, x: Alias)
    requires Normal(merged) && merged != []
    requires Before(merged[|merged| - 1], x) && !Joins(merged[|merged| - 1], x)
    ensures Normal(merged + [x])
  {
  }

  /** Growing the last entry keeps a list normal. */
  lemma GrownIsNormal(merged: seq<Alias>, last: Alias)
    requires Normal(merged) && merged != []
    requires last.execution == merged[|merged| - 1].execution && last.source == merged[|merged| - 1].source
    ensures Normal(merged[..|merged| - 1] + [last])
  {
  }

  lemma AbsorbedIsNormal(merged: seq<Alias>, rest: seq<Alias>)
    requires Normal(merged) && KeyContinues(merged, rest) && rest != []
    ensures Normal(Absorbed(merged, rest[0])) && KeyContinues(Absorbed(merged, rest[0]), rest[1..])
  {
    hide Normal;
    var x, n := rest[0], |merged| - 1;
    if |rest| > 1 {
      assert Leq(rest[0], rest[1]);
    }
    if merged == [] {
      OneIsNormal(x);
      assert merged + [x] == [x];
    } else if Joins(merged[n], x) {
      GrownIsNormal(merged, Joined(merged[n], x));
    } else {
      AppendedIsNormal(merged, x);
    }
  }

  lemma OneIsNormal(x: Alias)
    ensures Normal([x])
  {
  }

  lemma {:induction false} FoldIsNormal(merged: seq<Alias>, rest: seq<Alias>)
    requires Normal(merged) && KeyContinues(merged, rest)
    ensures Continues(merged, rest) && Normal(Folded(merged, rest))
    decreases |rest|
  {
    hide Absorbed, Normal;
    if rest != [] {
      FoldContinues(merged, rest);
      AbsorbedIsNormal(merged, rest);
      FoldIsNormal(Absorbed(merged, rest[0]), rest[1..]);
    }
  }

  lemma MergedIsNormal(aliases: seq<Alias>)
    ensures Normal(Merged(aliases))
  {
    SortedAscends(aliases);
    FoldIsNormal([], Sorted(aliases));
  }

  lemma {:induction false} NormalIsSorted(s: seq<Alias>)
    requires Normal(s)
    ensures Sorted(s) == s
    decreases |s|
  {
    if s != [] {
      var n := |s| - 1;
      NormalIsSorted(s[..n]);
      InsertedLast(s[..n], s[n]);
      assert s == s[..n] + [s[n]];
    }
  }

  lemma {:induction false} InsertedLast(s: seq<Alias>, x: Alias)
    requires forall i :: 0 <= i < |s| ==> Before(s[i], x)
    ensures Inserted(s, x) == s + [x]
    decreases |s|
  {
    if s != [] {
      assert Before(s[0], x);
      InsertedLast(s[1..], x);
      assert s == [s[0]] + s[1..];
    }
  }

  /** Folding what is already normal changes nothing. */
  lemma {:induction false} NormalFolds(merged: seq<Alias>, rest: seq<Alias>)
    requires Normal(merged + rest)
    ensures Continues(merged, rest) && Folded(merged, rest) == merged + rest
    decreases |rest|
  {
    var s, n := merged + rest, |merged|;
    forall i, j | 0 <= i < j < |rest| ensures Leq(rest[i], rest[j]) {
      assert Before(s[n + i], s[n + j]);
    }
    if rest != [] {
      if merged != [] {
        assert Before(s[n - 1], s[n]) && !Joins(s[n - 1], s[n]);
      }
      assert Absorbed(merged, rest[0]) == merged + [rest[0]];
      assert (merged + [rest[0]]) + rest[1..] == s;
      NormalFolds(merged + [rest[0]], rest[1..]);
    } else {
      assert s == merged;
    }
  }

  /**
   What a merged list looks like: strictly sorted by execution and then source address, and between two
   neighbours with one delta there is at least one byte that neither covers.
   */
  lemma MergedNeighbours(aliases: seq<Alias>, i: nat)
    requires i + 1 < |Merged(aliases)|
    ensures var a, b := Merged(aliases)[i], Merged(aliases)[i + 1];
      && (a.execution < b.execution || (a.execution == b.execution && a.source < b.source))
      && (a.execution - a.source == b.execution - b.source ==> a.execution + a.length < b.execution)
  {
    hide Merged;
    MergedIsNormal(aliases);
    assert Before(Merged(aliases)[i], Merged(aliases)[i + 1]) && !Joins(Merged(aliases)[i], Merged(aliases)[i + 1]);
  }

  /** Merging is idempotent: merged lists are exactly the fixed points. */
  lemma MergeIsIdempotent(aliases: seq<Alias>)
    ensures Merged(Merged(aliases)) == Merged(aliases)
    ensures Normal(aliases) <==> Merged(aliases) == aliases
  {
    hide Normal;
    MergedIsNormal(aliases);
    NormalIsFixed(Merged(aliases));
    if Normal(aliases) {
      NormalIsFixed(aliases);
    }
  }

  lemma NormalIsFixed(s: seq<Alias>)
    requires Normal(s)
    ensures Merged(s) == s
  {
    NormalIsSorted(s);
    assert [] + s == s;
    NormalFolds([], s);
  }

  // ----- "no progress" -----------------------------------------------------------------------------------------

  /** A proposal that leaves the merged list unchanged adds no (execution byte, source byte) pair. */
  lemma UnchangedAddsNoPair(aliases: seq<Alias>, proposal: Alias, e: int, p: int)
    requires Merged(aliases + [proposal]) == aliases && Maps(proposal, e, p)
    ensures Relates(aliases, e, p)
  {
    hide Merged, Maps;
    var more := aliases + [proposal];
    assert Maps(more[|aliases|], e, p);
    MergedKeepsPairs(more, e, p);
  }

  /** The last alias not after the proposal in (execution, source) order covers it under the same delta. */
  ghost predicate CoveredByPredecessor(aliases: seq<Alias>, proposal: Alias, j: nat) {
    && j < |aliases|
    && !Before(proposal, aliases[j])
    && (j + 1 < |aliases| ==> Before(proposal, aliases[j + 1]))
    && SameDelta(aliases[j], proposal) && End(proposal) <= End(aliases[j])
  }

  ghost function InsertIndex(s: seq<Alias>, x: Alias): (i: nat)
    ensures i <= |s|
  {
    if s == [] || Leq(x, s[0]) then 0 else 1 + InsertIndex(s[1..], x)
  }

  lemma {:induction false} InsertedAt(s: seq<Alias>, x: Alias)
    ensures var i := InsertIndex(s, x);
      && Inserted(s, x) == s[..i] + [x] + s[i..]
      && (i < |s| ==> Leq(x, s[i])) && (forall j :: 0 <= j < i ==> !Leq(x, s[j]))
    decreases |s|
  {
    if s != [] && !Leq(x, s[0]) {
      InsertedAt(s[1..], x);
      var i := InsertIndex(s[1..], x);
      assert s[..i + 1] == [s[0]] + s[1..][..i] && s[i + 1..] == s[1..][i..];
      forall j | 0 <= j < i + 1 ensures !Leq(x, s[j]) {
        assert j > 0 ==> s[j] == s[1..][j - 1];
      }
    }
  }

  /** Later folding keeps the start of every entry and never shortens it. */
  lemma {:induction false} FoldKeepsEarlier(merged: seq<Alias>, rest: seq<Alias>, n: nat)
    requires Continues(merged, rest) && n < |merged|
    ensures var r := Folded(merged, rest);
      |r| > n && r[n].execution == merged[n].execution && r[n].source == merged[n].source && r[n].length >= merged[n].length
    decreases |rest|
  {
    if rest != [] {
      FoldContinues(merged, rest);
      FoldKeepsEarlier(Absorbed(merged, rest[0]), rest[1..], n);
    }
  }

  /** Folding a normal prefix, then the proposal, then the normal rest. */
  lemma {:induction false} FoldSplits(merged: seq<Alias>, prefix: seq<Alias>, rest: seq<Alias>)
    requires Continues(merged, prefix + rest) && Normal(merged + prefix)
    ensures Continues(merged + prefix, rest)
    ensures Folded(merged, prefix + rest) == Folded(merged + prefix, rest)
    decreases |prefix|
  {
    if prefix == [] {
      assert prefix + rest == rest && merged + prefix == merged;
    } else {
      var s, n := merged + prefix, |merged|;
      FoldContinues(merged, prefix + rest);
      if merged != [] {
        assert !Joins(s[n - 1], s[n]);
      }
      assert (prefix + rest)[1..] == prefix[1..] + rest;
      assert merged + prefix == (merged + [prefix[0]]) + prefix[1..];
      FoldSplits(merged + [prefix[0]], prefix[1..], rest);
    }
  }

  lemma SortedSnoc(s: seq<Alias>, x: Alias)
    ensures Sorted(s + [x]) == Inserted(Sorted(s), x)
  {
  }

  /** The merge of a normal list and one proposal, read at the proposal's place. */
  lemma MergedWithProposal(aliases: seq<Alias>, proposal: Alias)
    requires Normal(aliases)
    ensures var i := InsertIndex(aliases, proposal);
      && Continues(aliases[..i], [proposal] + aliases[i..])
      && Merged(aliases + [proposal]) == Folded(aliases[..i], [proposal] + aliases[i..])
  {
    hide Sorted, Inserted, Absorbed, Folded, Normal, Ascending, Leq;
    var i, more := InsertIndex(aliases, proposal), aliases + [proposal];
    NormalIsSorted(aliases);
    InsertedAt(aliases, proposal);
    SortedSnoc(aliases, proposal);
    SortedAscends(more);
    var rest := [proposal] + aliases[i..];
    assert Sorted(more) == aliases[..i] + rest;
    PrefixIsNormal(aliases, i);
    assert [] + aliases[..i] == aliases[..i];
    assert Continues([], aliases[..i] + rest);
    FoldSplits([], aliases[..i], rest);
  }

  lemma PrefixIsNormal(s: seq<Alias>, i: nat)
    requires Normal(s) && i <= |s|
    ensures Normal(s[..i])
  {
  }

  /** Joined to its predecessor, the proposal leaves the list unchanged exactly when it ends no later. */
  lemma JoinedProposal(aliases: seq<Alias>, proposal: Alias, i: nat)
    requires Normal(aliases) && 0 < i <= |aliases| && Joins(aliases[i - 1], proposal)
    requires Continues(aliases[..i], [proposal] + aliases[i..])
    ensures Folded(aliases[..i], [proposal] + aliases[i..]) == aliases <==> End(proposal) <= End(aliases[i - 1])
  {
    var head, rest := aliases[..i], aliases[i..];
    assert ([proposal] + rest)[1..] == rest;
    FoldContinues(head, [proposal] + rest);
    var grown := Absorbed(head, proposal);
    if End(proposal) <= End(aliases[i - 1]) {
      assert grown == head;
      assert head + rest == aliases;
      NormalFolds(head, rest);
    } else {
      FoldKeepsEarlier(grown, rest, i - 1);
    }
  }

  /** Kept apart from its predecessor, it does so exactly when it has the start of the next alias. */
  lemma SeparateProposal(aliases: seq<Alias>, proposal: Alias, i: nat)
    requires Normal(aliases) && i <= |aliases| && (i > 0 ==> !Joins(aliases[i - 1], proposal))
    requires i < |aliases| ==> Leq(proposal, aliases[i])
    requires Continues(aliases[..i], [proposal] + aliases[i..])
    ensures Folded(aliases[..i], [proposal] + aliases[i..]) == aliases
       <==> i < |aliases| && !Before(proposal, aliases[i])
  {
    var head, rest := aliases[..i], aliases[i..];
    assert ([proposal] + rest)[1..] == rest;
    FoldContinues(head, [proposal] + rest);
    var appended := Absorbed(head, proposal);
    assert appended == head + [proposal];
    if i < |aliases| && !Before(proposal, aliases[i]) {
      FoldContinues(appended, rest);
      assert Absorbed(appended, rest[0]) == aliases[..i + 1];
      assert aliases[..i + 1] + rest[1..] == aliases;
      NormalFolds(aliases[..i + 1], rest[1..]);
    } else {
      FoldKeepsEarlier(appended, rest, i);
    }
  }

  /** The discovery loop sees "no progress" exactly when the predecessor alias already covers the proposal. */
  lemma UnchangedIffCovered(aliases: seq<Alias>, proposal: Alias)
    requires Normal(aliases)
    ensures Merged(aliases + [proposal]) == aliases <==> exists j :: CoveredByPredecessor(aliases, proposal, j)
  {
    hide Folded, Merged;
    var i := InsertIndex(aliases, proposal);
    InsertedAt(aliases, proposal);
    MergedWithProposal(aliases, proposal);
    if i > 0 && Joins(aliases[i - 1], proposal) {
      JoinedProposal(aliases, proposal, i);
      JoinedIsCovered(aliases, proposal, i);
    } else {
      SeparateProposal(aliases, proposal, i);
      SeparateIsCovered(aliases, proposal, i);
    }
  }

  ghost predicate IsInsertIndex(s: seq<Alias>, x: Alias, i: nat) {
    i <= |s| && (i < |s| ==> Leq(x, s[i])) && (forall j :: 0 <= j < i ==> !Leq(x, s[j]))
  }

  /** A covering predecessor is the alias just before the insertion point, or the one at it. */
  lemma CoverIsAdjacent(aliases: seq<Alias>, proposal: Alias, i: nat, j: nat)
    requires Normal(aliases) && IsInsertIndex(aliases, proposal, i) && CoveredByPredecessor(aliases, proposal, j)
    ensures j == i || j + 1 == i
    ensures j == i ==> !Before(proposal, aliases[i])
    ensures j + 1 == i ==> Joins(aliases[j], proposal)
  {
  }

  lemma JoinedIsCovered(aliases: seq<Alias>, proposal: Alias, i: nat)
    requires Normal(aliases) && IsInsertIndex(aliases, proposal, i) && i > 0 && Joins(aliases[i - 1], proposal)
    ensures End(proposal) <= End(aliases[i - 1]) <==> exists j :: CoveredByPredecessor(aliases, proposal, j)
  {
    assert !Leq(proposal, aliases[i - 1]);
    if i < |aliases| {
      assert !Joins(aliases[i - 1], aliases[i]);
    }
    if End(proposal) <= End(aliases[i - 1]) {
      assert CoveredByPredecessor(aliases, proposal, i - 1);
    }
    forall j | CoveredByPredecessor(aliases, proposal, j) ensures End(proposal) <= End(aliases[i - 1]) {
      CoverIsAdjacent(aliases, proposal, i, j);
    }
  }

  lemma SeparateIsCovered(aliases: seq<Alias>, proposal: Alias, i: nat)
    requires Normal(aliases) && IsInsertIndex(aliases, proposal, i) && (i > 0 ==> !Joins(aliases[i - 1], proposal))
    ensures i < |aliases| && !Before(proposal, aliases[i]) <==> exists j :: CoveredByPredecessor(aliases, proposal, j)
  {
    if i < |aliases| && !Before(proposal, aliases[i]) {
      assert i + 1 < |aliases| ==> Before(aliases[i], aliases[i + 1]);
      assert CoveredByPredecessor(aliases, proposal, i);
    }
    forall j | CoveredByPredecessor(aliases, proposal, j) ensures i < |aliases| && !Before(proposal, aliases[i]) {
      CoverIsAdjacent(aliases, proposal, i, j);
    }
  }

  /** When another delta interleaves, a proposal that adds no pair still changes the list. */
  lemma CoveredProposalMayChangeTheList()
    ensures var aliases, proposal := [Alias(0xFF_0000, 0, 64), Alias(0xFF_0010, 0x1000, 64)], Alias(0xFF_0014, 0x14, 16);
      && Normal(aliases) && Merged(aliases + [proposal]) != aliases
      && forall e, p :: Maps(proposal, e, p) ==> Relates(aliases, e, p)
  {
    var aliases, proposal := [Alias(0xFF_0000, 0, 64), Alias(0xFF_0010, 0x1000, 64)], Alias(0xFF_0014, 0x14, 16);
    UnchangedIffCovered(aliases, proposal);
    forall e, p | Maps(proposal, e, p) ensures Relates(aliases, e, p) {
      assert Maps(aliases[0], e, p);
    }
  }
}
