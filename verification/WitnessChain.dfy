/**
 First-miss attribution: every observed but undiscovered PC is followed back along its first-entry witnesses
 to the transition out of discovered code. The memoised walk is proved equal to the plain one.
 */
module WitnessChain {
  import opened Basics

  const CAUSE_INITIAL: nat := 0
  const CAUSE_INTERRUPT: nat := 2
  const WORK_RAM_BEGIN: nat := 0xE0_0000

  /** First entry of a PC: retirement ordinal, PC retired before, and how control got here. */
  datatype Witness = Witness(ordinal: nat, previous: nat, cause: nat)

  /** The coarse first-miss categories. */
  datatype Category =
    | OrdinaryRts | RteRtr | JumpThroughRegister | PcIndexed | DisplacementOrIndexed | ComputedJumpRts
    | RamAliasMaterialized | InterruptEntry | FixedFlowNotDiscovered | Initial | ReturnSlotViolation | Other

  datatype Attribution = Attribution(coarse: Category, fine: string, site: Option<nat>)

  /** The coarse category of a challenger family. */
  function Coarse(family: string): Category {
    if family == "rts" then OrdinaryRts
    else if family == "rts_push_window" then ComputedJumpRts
    else if family == "rte" || family == "rtr" then RteRtr
    else if family == "jmp_(An)" || family == "jsr_(An)" then JumpThroughRegister
    else if family == "jmp_d16(An)" || family == "jsr_d16(An)"
         || family == "jmp_(d8,An,Xn)" || family == "jsr_(d8,An,Xn)" then DisplacementOrIndexed
    else if family == "jmp_(d8,PC,Xn)" || family == "jsr_(d8,PC,Xn)" then PcIndexed
    else Other
  }

  /** The oracle's witnesses and the challenger's result. */
  datatype Evidence = Evidence(
    witnesses: map<nat, Witness>, discovered: set<nat>, siteFamily: map<nat, string>, violations: set<(nat, nat)>)

  /** The walk goes on behind `x`: it was entered from missing code, not at the start. */
  predicate GoesOn(e: Evidence, x: nat) {
    && x in e.witnesses && e.witnesses[x].cause != CAUSE_INITIAL && e.witnesses[x].previous !in e.discovered
  }

  /** The chain behind `x` goes on for n steps. */
  ghost predicate GoesOnFor(e: Evidence, x: nat, n: nat)
    decreases n
  {
    n == 0 || (GoesOn(e, x) && GoesOnFor(e, e.witnesses[x].previous, n - 1))
  }

  /** The n-th predecessor. */
  ghost function Behind(e: Evidence, x: nat, n: nat): nat
    requires GoesOnFor(e, x, n)
    decreases n
  {
    if n == 0 then x else Behind(e, e.witnesses[x].previous, n - 1)
  }

  /** No chain comes back to where it began. */
  ghost predicate Acyclic(e: Evidence) {
    forall x: nat, n: nat :: n > 0 && GoesOnFor(e, x, n) ==> Behind(e, x, n) != x
  }

  /** A PC is entered after its predecessor was: ordinals decrease along the chains. */
  ghost predicate Causal(e: Evidence) {
    forall x :: GoesOn(e, x) && e.witnesses[x].previous in e.witnesses ==>
      e.witnesses[e.witnesses[x].previous].ordinal < e.witnesses[x].ordinal
  }

  ghost predicate EnteredBefore(e: Evidence, x: nat, y: nat) {
    x in e.witnesses && (y in e.witnesses ==> e.witnesses[y].ordinal < e.witnesses[x].ordinal)
  }

  lemma {:induction false} BehindIsBefore(e: Evidence, x: nat, n: nat)
    requires Causal(e) && n > 0 && GoesOnFor(e, x, n)
    ensures EnteredBefore(e, x, Behind(e, x, n))
    decreases n
  {
    if n > 1 {
      BehindIsBefore(e, e.witnesses[x].previous, n - 1);
    }
  }

  /** Tables in order of entry have no cycle. */
  lemma CausalIsAcyclic(e: Evidence)
    requires Causal(e)
    ensures Acyclic(e)
  {
    hide Causal, GoesOnFor, Behind;
    forall x: nat, n: nat | n > 0 && GoesOnFor(e, x, n) ensures Behind(e, x, n) != x {
      BehindIsBefore(e, x, n);
    }
  }

  ghost predicate Visits(e: Evidence, x: nat, n: nat, y: nat) {
    exists i: nat :: i < n && GoesOnFor(e, x, i) && Behind(e, x, i) == y
  }

  /** The PCs a chain goes through in n steps are that many different witnesses. */
  lemma {:induction false} ManyVisited(e: Evidence, x: nat, n: nat) returns (visited: set<nat>)
    requires Acyclic(e) && GoesOnFor(e, x, n)
    ensures |visited| == n && visited <= e.witnesses.Keys
    ensures forall y :: y in visited ==> Visits(e, x, n, y)
    decreases n
  {
    visited := {};
    if n > 0 {
      var p := e.witnesses[x].previous;
      visited := ManyVisited(e, p, n - 1);
      forall y | y in visited ensures y != x && Visits(e, x, n, y) {
        var i: nat :| i < n - 1 && GoesOnFor(e, p, i) && Behind(e, p, i) == y;
        assert GoesOnFor(e, x, i + 1) && Behind(e, x, i + 1) == y;
      }
      assert GoesOnFor(e, x, 0) && Behind(e, x, 0) == x;
      assert Visits(e, x, n, x);
      visited := visited + {x};
    }
  }

  /** Without cycles every chain ends within as many steps as there are witnesses. */
  lemma ChainsEnd(e: Evidence, x: nat)
    requires Acyclic(e)
    ensures !GoesOnFor(e, x, |e.witnesses| + 1)
  {
    hide Acyclic;
    if GoesOnFor(e, x, |e.witnesses| + 1) {
      var visited := ManyVisited(e, x, |e.witnesses| + 1);
      NotMore(visited, e.witnesses.Keys);
    }
  }

  lemma {:induction false} GoesOnJoins(e: Evidence, x: nat, n: nat, m: nat)
    requires GoesOnFor(e, x, n) && GoesOnFor(e, Behind(e, x, n), m)
    ensures GoesOnFor(e, x, n + m)
    decreases n
  {
    if n > 0 {
      GoesOnJoins(e, e.witnesses[x].previous, n - 1, m);
    }
  }

  lemma {:induction false} GoesOnLess(e: Evidence, x: nat, n: nat, m: nat)
    requires GoesOnFor(e, x, n) && m <= n
    ensures GoesOnFor(e, x, m)
    decreases m
  {
    if m > 0 {
      GoesOnLess(e, e.witnesses[x].previous, n - 1, m - 1);
    }
  }

  /** A chain that comes back goes on for ever. */
  lemma {:induction false} CycleNeverEnds(e: Evidence, x: nat, n: nat, m: nat)
    requires n > 0 && GoesOnFor(e, x, n) && Behind(e, x, n) == x
    ensures GoesOnFor(e, x, m)
    decreases m
  {
    if m <= n {
      GoesOnLess(e, x, n, m);
    } else {
      CycleNeverEnds(e, x, n, m - n);
      GoesOnJoins(e, x, n, m - n);
    }
  }

  ghost predicate WalkEnds(e: Evidence, x: nat) {
    exists n: nat :: !GoesOnFor(e, x, n)
  }

  /** Every walk ends exactly when no chain comes back. */
  lemma WalksEndIffAcyclic(e: Evidence)
    ensures (forall x: nat :: WalkEnds(e, x)) <==> Acyclic(e)
  {
    if Acyclic(e) {
      forall x: nat ensures WalkEnds(e, x) {
        ChainsEnd(e, x);
      }
    } else {
      var x: nat, n: nat :| n > 0 && GoesOnFor(e, x, n) && Behind(e, x, n) == x;
      forall m: nat ensures GoesOnFor(e, x, m) {
        CycleNeverEnds(e, x, n, m);
      }
      assert !WalkEnds(e, x);
    }
  }

  lemma {:induction false} NotMore(a: set<nat>, b: set<nat>)
    requires a <= b
    ensures |a| <= |b|
  {
    assert b == a + (b - a);
  }

  ghost function StepsLeft(e: Evidence, x: nat, most: nat): nat
    decreases most
  {
    if most > 0 && GoesOn(e, x) then 1 + StepsLeft(e, e.witnesses[x].previous, most - 1) else 0
  }

  lemma {:induction false} EnoughSteps(e: Evidence, x: nat, most: nat)
    requires !GoesOnFor(e, x, most + 1)
    ensures StepsLeft(e, x, most + 1) == StepsLeft(e, x, most)
    decreases most
  {
    if most > 0 && GoesOn(e, x) {
      EnoughSteps(e, e.witnesses[x].previous, most - 1);
    }
  }

  /** How far the chain behind `x` goes on. */
  ghost function Depth(e: Evidence, x: nat): nat {
    StepsLeft(e, x, |e.witnesses|)
  }

  lemma DepthDrops(e: Evidence, x: nat)
    requires Acyclic(e) && GoesOn(e, x)
    ensures Depth(e, x) == Depth(e, e.witnesses[x].previous) + 1
  {
    hide Acyclic;
    ChainsEnd(e, x);
    var n := |e.witnesses|;
    assert e.witnesses.Keys != {};
    EnoughSteps(e, e.witnesses[x].previous, n - 1);
  }

  /** Classification of the frontier edge into `x`. */
  function EdgeAttribution(e: Evidence, x: nat): (a: Attribution)
    requires x in e.witnesses
  {
    var w := e.witnesses[x];
    var known := w.previous in e.siteFamily;
    if (w.previous, x) in e.violations then
      Attribution(ReturnSlotViolation, "return_slot_premise_violation", Some(w.previous))
    else
      var coarse :=
        if x >= WORK_RAM_BEGIN then RamAliasMaterialized
        else if w.cause == CAUSE_INTERRUPT then InterruptEntry
        else if known then Coarse(e.siteFamily[w.previous])
        else FixedFlowNotDiscovered;
      var fine :=
        if known && e.siteFamily[w.previous] != "" then e.siteFamily[w.previous]
        else if w.cause == CAUSE_INTERRUPT then "interrupt" else "fixed";
      Attribution(coarse, fine, Some(w.previous))
  }

  /** Each coarse category of a computed transfer has exactly these challenger families. */
  lemma CoarseTable(f: string)
    ensures Coarse(f) == OrdinaryRts <==> f == "rts"
    ensures Coarse(f) == ComputedJumpRts <==> f == "rts_push_window"
    ensures Coarse(f) == RteRtr <==> f in {"rte", "rtr"}
    ensures Coarse(f) == JumpThroughRegister <==> f in {"jmp_(An)", "jsr_(An)"}
    ensures Coarse(f) == DisplacementOrIndexed <==>
      f in {"jmp_d16(An)", "jsr_d16(An)", "jmp_(d8,An,Xn)", "jsr_(d8,An,Xn)"}
    ensures Coarse(f) == PcIndexed <==> f in {"jmp_(d8,PC,Xn)", "jsr_(d8,PC,Xn)"}
    ensures Coarse(f) !in {RamAliasMaterialized, InterruptEntry, FixedFlowNotDiscovered, Initial, ReturnSlotViolation}
  {
  }

  /** Which rule classifies an edge: a violation before work RAM, work RAM before an interrupt, that before the family. */
  lemma EdgeRules(e: Evidence, x: nat)
    requires x in e.witnesses
    ensures var a, w := EdgeAttribution(e, x), e.witnesses[x];
      var violated, inRam, interrupt := (w.previous, x) in e.violations, x >= 0xE0_0000, w.cause == 2;
      && a.site == Some(w.previous)
      && a.fine == (if violated then "return_slot_premise_violation"
                    else if w.previous in e.siteFamily && e.siteFamily[w.previous] != "" then e.siteFamily[w.previous]
                    else if interrupt then "interrupt" else "fixed")
      && (a.coarse == ReturnSlotViolation <==> violated)
      && (a.coarse == RamAliasMaterialized <==> !violated && inRam)
      && (a.coarse == InterruptEntry <==> !violated && !inRam && interrupt)
      && (a.coarse == FixedFlowNotDiscovered <==> !violated && !inRam && !interrupt && w.previous !in e.siteFamily)
      && (!violated && !inRam && !interrupt && w.previous in e.siteFamily ==>
            a.coarse == Coarse(e.siteFamily[w.previous]))
  {
    forall f: string ensures Coarse(f) !in {RamAliasMaterialized, InterruptEntry, FixedFlowNotDiscovered, Initial, ReturnSlotViolation} {
      CoarseTable(f);
    }
  }

  /** Where a chain that does not go on ends. */
  function EndAttribution(e: Evidence, x: nat): (a: Attribution)
    requires !GoesOn(e, x)
  {
    if x !in e.witnesses then Attribution(Other, "no_witness", None)
    else if e.witnesses[x].cause == CAUSE_INITIAL then Attribution(Initial, "initial", None)
    else EdgeAttribution(e, x)
  }

  /** The plain walk, without a cache. */
  ghost function Walk(e: Evidence, x: nat): (a: Attribution)
    requires Acyclic(e)
    decreases Depth(e, x)
  {
    if GoesOn(e, x) then
      DepthDrops(e, x);
      Walk(e, e.witnesses[x].previous)
    else EndAttribution(e, x)
  }

  /** The four rules of the walk, first to last. */
  lemma WalkRules(e: Evidence, x: nat)
    requires Acyclic(e)
    ensures x !in e.witnesses ==> Walk(e, x) == Attribution(Other, "no_witness", None)
    ensures x in e.witnesses ==>
      var w := e.witnesses[x];
      if w.cause == 0 then Walk(e, x) == Attribution(Initial, "initial", None)
      else if w.previous in e.discovered then Walk(e, x) == EdgeAttribution(e, x)
      else Walk(e, x) == Walk(e, w.previous)
  {
    hide Acyclic;
  }

  /** A missing PC that is itself a frontier edge. */
  predicate IsEdge(e: Evidence, x: nat) {
    x in e.witnesses && e.witnesses[x].previous in e.discovered && e.witnesses[x].cause != CAUSE_INITIAL
  }

  ghost predicate TrueCache(e: Evidence, cache: map<nat, Attribution>)
    requires Acyclic(e)
  {
    forall x :: x in cache ==> cache[x] == Walk(e, x)
  }

  class FrontierWalk {
    const e: Evidence
    var cache: map<nat, Attribution>

    ghost predicate Valid()
      reads this
    {
      Acyclic(e) && TrueCache(e, cache)
    }

    constructor (e: Evidence)
      requires Acyclic(e)
      ensures Valid() && this.e == e
    {
      this.e := e;
      cache := map[];
    }

    /** `frontier`: the answer does not depend on which PCs were asked before. */
    method Frontier(pc: nat) returns (result: Attribution)
      requires Valid()
      modifies this
      ensures Valid() && result == Walk(e, pc)
      ensures forall x :: x in old(cache) ==> x in cache
    {
      var chain: seq<nat>, x := [], pc;
      while x !in cache && GoesOn(e, x)
        invariant forall k :: 0 <= k < |chain| ==> Walk(e, chain[k]) == Walk(e, pc)
        invariant Walk(e, x) == Walk(e, pc) && cache == old(cache)
        decreases Depth(e, x)
      {
        DepthDrops(e, x);
        chain := chain + [x];
        x := e.witnesses[x].previous;
      }
      if x in cache {
        result := cache[x];
      } else {
        if x in e.witnesses {
          chain := chain + [x];
        }
        result := EndAttribution(e, x);
      }
      for k := 0 to |chain|
        invariant TrueCache(e, cache) && forall y :: y in old(cache) ==> y in cache
      {
        cache := cache[chain[k] := result];
      }
    }
  }

  // ----- counting --------------------------------------------------------------------------------------------------

  type Counts = map<Category, nat>

  ghost predicate Total(m: Counts) {
    forall c: Category :: c in m
  }

  function Zero(): Counts {
    map[OrdinaryRts := 0, RteRtr := 0, JumpThroughRegister := 0, PcIndexed := 0, DisplacementOrIndexed := 0,
        ComputedJumpRts := 0, RamAliasMaterialized := 0, InterruptEntry := 0, FixedFlowNotDiscovered := 0,
        Initial := 0, ReturnSlotViolation := 0, Other := 0]
  }

  ghost function Sum(m: Counts): nat
    requires Total(m)
  {
    m[OrdinaryRts] + m[RteRtr] + m[JumpThroughRegister] + m[PcIndexed] + m[DisplacementOrIndexed] + m[ComputedJumpRts]
    + m[RamAliasMaterialized] + m[InterruptEntry] + m[FixedFlowNotDiscovered] + m[Initial] + m[ReturnSlotViolation] + m[Other]
  }

  lemma SumCountsOne(m: Counts, c: Category)
    requires Total(m)
    ensures Total(m[c := m[c] + 1]) && Sum(m[c := m[c] + 1]) == Sum(m) + 1
  {
  }

  /** The PCs of `pcs` whose walk ends in category `c`. */
  ghost function InCategory(e: Evidence, pcs: set<nat>, c: Category): set<nat>
    requires Acyclic(e)
  {
    set pc | pc in pcs && Walk(e, pc).coarse == c
  }

  ghost function EdgesIn(e: Evidence, pcs: set<nat>, c: Category): set<nat>
    requires Acyclic(e)
  {
    set pc | pc in pcs && IsEdge(e, pc) && Walk(e, pc).coarse == c
  }

  lemma OneMore(before: set<nat>, after: set<nat>, x: nat, joins: bool)
    requires x !in before && forall y :: y in after <==> y in before || (joins && y == x)
    ensures |after| == |before| + if joins then 1 else 0
  {
    assert after == if joins then before + {x} else before;
  }

  lemma OneMoreInCategory(e: Evidence, pcs: set<nat>, pc: nat, c: Category)
    requires Acyclic(e) && pc !in pcs
    ensures |InCategory(e, pcs + {pc}, c)| == |InCategory(e, pcs, c)| + if Walk(e, pc).coarse == c then 1 else 0
  {
    hide Walk, Acyclic;
    OneMore(InCategory(e, pcs, c), InCategory(e, pcs + {pc}, c), pc, Walk(e, pc).coarse == c);
  }

  lemma OneMoreEdge(e: Evidence, pcs: set<nat>, pc: nat, c: Category)
    requires Acyclic(e) && pc !in pcs
    ensures |EdgesIn(e, pcs + {pc}, c)| == |EdgesIn(e, pcs, c)| + if IsEdge(e, pc) && Walk(e, pc).coarse == c then 1 else 0
  {
    hide Walk, Acyclic, IsEdge;
    OneMore(EdgesIn(e, pcs, c), EdgesIn(e, pcs + {pc}, c), pc, IsEdge(e, pc) && Walk(e, pc).coarse == c);
  }

  /** The counters count what they name. */
  ghost predicate Counted(e: Evidence, pcs: set<nat>, attributed: Counts, edges: Counts)
    requires Acyclic(e)
  {
    && Total(attributed) && Total(edges)
    && (forall c: Category :: attributed[c] == |InCategory(e, pcs, c)|)
    && (forall c: Category :: edges[c] == |EdgesIn(e, pcs, c)|)
  }

  /**
   What the counters are numbers of: the missing PCs whose walk ends in the category, and those of them that
   were entered from discovered code other than at the start.
   */
  lemma CountsAre(e: Evidence, missing: set<nat>, attributed: Counts, edges: Counts, c: Category,
                  those: set<nat>, entered: set<nat>)
    requires Acyclic(e) && Counted(e, missing, attributed, edges)
    requires forall pc :: pc in those <==> pc in missing && Walk(e, pc).coarse == c
    requires forall pc :: pc in entered <==>
      pc in those && pc in e.witnesses && e.witnesses[pc].previous in e.discovered && e.witnesses[pc].cause != 0
    ensures attributed[c] == |those| && edges[c] == |entered|
  {
    hide Acyclic, Walk;
    assert InCategory(e, missing, c) == those;
    assert EdgesIn(e, missing, c) == entered;
  }

  /** Counting one more PC. */
  lemma CountedStep(e: Evidence, done: set<nat>, pc: nat, a: Category, attributed: Counts, edges: Counts)
    requires Acyclic(e) && pc !in done && Counted(e, done, attributed, edges) && a == Walk(e, pc).coarse
    ensures Counted(e, done + {pc}, attributed[a := attributed[a] + 1],
                    if IsEdge(e, pc) then edges[a := edges[a] + 1] else edges)
  {
    hide Walk, IsEdge, Acyclic, InCategory, EdgesIn;
    forall c: Category
      ensures |InCategory(e, done + {pc}, c)| == |InCategory(e, done, c)| + if a == c then 1 else 0
      ensures |EdgesIn(e, done + {pc}, c)| == |EdgesIn(e, done, c)| + if IsEdge(e, pc) && a == c then 1 else 0
    {
      OneMoreInCategory(e, done, pc, c);
      OneMoreEdge(e, done, pc, c);
    }
  }

  /** The counting loop of `compare`, in whatever order the set of missing PCs is visited. */
  method Attribute(e: Evidence, missing: set<nat>) returns (attributed: Counts, edges: Counts)
    requires Acyclic(e)
    ensures Counted(e, missing, attributed, edges)
    ensures Sum(attributed) == |missing|
  {
    hide Walk, IsEdge, Sum, Acyclic, Counted, TrueCache;
    var walk := new FrontierWalk(e);
    attributed, edges := Zero(), Zero();
    ZeroCounts(e);
    CountedIsTotal(e, {}, attributed, edges);
    var rest, done := missing, {};
    while rest != {}
      invariant fresh(walk) && walk.e == e && walk.Valid()
      invariant rest + done == missing && rest !! done
      invariant Total(attributed) && Total(edges) && Counted(e, done, attributed, edges)
      invariant Sum(attributed) == |done|
      decreases |rest|
    {
      var pc :| pc in rest;
      var a := walk.Frontier(pc);
      CountedStep(e, done, pc, a.coarse, attributed, edges);
      SumCountsOne(attributed, a.coarse);
      attributed := attributed[a.coarse := attributed[a.coarse] + 1];
      if IsEdge(e, pc) {
        edges := edges[a.coarse := edges[a.coarse] + 1];
      }
      rest, done := rest - {pc}, done + {pc};
      CountedIsTotal(e, done, attributed, edges);
    }
    assert done == missing;
  }

  lemma CountedIsTotal(e: Evidence, pcs: set<nat>, attributed: Counts, edges: Counts)
    requires Acyclic(e) && Counted(e, pcs, attributed, edges)
    ensures Total(attributed) && Total(edges)
  {
  }

  lemma ZeroIsZero(c: Category)
    ensures c in Zero() && Zero()[c] == 0
  {
  }

  lemma ZeroCounts(e: Evidence)
    requires Acyclic(e)
    ensures Counted(e, {}, Zero(), Zero()) && Sum(Zero()) == 0
  {
    hide Zero, Walk, IsEdge, Acyclic;
    forall c: Category ensures c in Zero() && Zero()[c] == 0 == |InCategory(e, {}, c)| == |EdgesIn(e, {}, c)| {
      ZeroIsZero(c);
      assert InCategory(e, {}, c) == {} && EdgesIn(e, {}, c) == {};
    }
  }

  /** First-miss edges are missing PCs too, so no category has more edges than attributed PCs. */
  lemma EdgesAtMostAttributed(e: Evidence, missing: set<nat>, attributed: Counts, edges: Counts, c: Category)
    requires Acyclic(e) && Counted(e, missing, attributed, edges)
    ensures edges[c] <= attributed[c]
  {
    hide Acyclic;
    hide Walk, IsEdge;
    SubsetSize(EdgesIn(e, missing, c), InCategory(e, missing, c));
  }

  lemma {:induction false} SubsetSize(s: set<nat>, t: set<nat>)
    requires s <= t
    ensures |s| <= |t|
  {
    assert t == s + (t - s);
  }
}
