/**
 The build/execute/expand loop of the startup bridge: batches of rounds over a growing
 confirmed-root set, and the outer loop that resumes them from a checkpoint.
 One round (emit, compile, run, validate) is a deterministic function of the ordered seed list.
 */
module PhaseB {
  import opened Basics
  import opened Checkpoints

  const ADDRESS_SPACE: nat := 0x100_0000

  /** A validated boundary address: the report validator admits 24-bit addresses only. */
  type Address = a: nat | a < ADDRESS_SPACE

  type Failure = s: int | s != 0 witness 1

  /** What one round reports for a seed list. `Artifact` stands for report, full bytes and executable. */
  datatype Round<+Artifact> =
    | EmitFailed(status: Failure)                      // generation or compilation
    | RunFailed(status: Failure, message: string)      // guest run
    | ShaMismatch(status: Failure)                     // report identity
    | SchemaInvalid
    | Completed(artifact: Artifact)
    | ResourceLimit(artifact: Artifact)
    | Stopped(stopClass: string, artifact: Artifact)   // any stop class but the prefix boundary
    | BoundaryMalformed
    | Boundary(address: Address, artifact: Artifact)

  type Run<!Artifact> = seq<nat> -> Round<Artifact>

  datatype Driver =
    | TranslationRejected | CompileFailed | RunFailure | NoDriver | CompletedDriver | LimitDriver
    | StopDriver(stopClass: string) | NoProgress | BatchComplete

  datatype BatchResult<+Artifact> = BatchResult(
    status: int,
    artifact: Option<Artifact>,
    rounds: nat,
    driver: Driver,
    seedCount: Option<nat>,
    message: string,
    seeds: seq<nat>)

  /** What a terminal (or non-expanding) round means for the caller; `rounds` is filled in later. */
  function Verdict<Artifact>(outcome: Round<Artifact>, rounds: nat, seeds: seq<nat>): BatchResult<Artifact> {
    var count := Some(|seeds| + 1);
    match outcome
    case EmitFailed(status) =>
      BatchResult(status, None, rounds, if status == 1 then TranslationRejected else CompileFailed, None, "", seeds)
    case RunFailed(status, message) => BatchResult(status, None, rounds, RunFailure, None, message, seeds)
    case ShaMismatch(status) => BatchResult(status, None, rounds, NoDriver, None, "", seeds)
    case SchemaInvalid => BatchResult(5, None, rounds, NoDriver, None, "", seeds)
    case BoundaryMalformed =>
      BatchResult(5, None, rounds, NoDriver, None, "malformed boundary provenance\n", seeds)
    case Completed(a) => BatchResult(0, Some(a), rounds, CompletedDriver, count, "", seeds)
    case ResourceLimit(a) => BatchResult(0, Some(a), rounds, LimitDriver, count, "", seeds)
    case Stopped(c, a) => BatchResult(0, Some(a), rounds, StopDriver(c), count, "", seeds)
    case Boundary(_, a) => BatchResult(0, Some(a), rounds, NoProgress, count, "", seeds)
  }

  /** The round for `seeds` confirms a root that is not in the list yet. */
  predicate Expands<Artifact>(run: Run<Artifact>, seeds: seq<nat>) {
    run(seeds).Boundary? && run(seeds).address !in seeds
  }

  // ----- reference: one loop without budgets -------------------------------------------------

  ghost function Unseen(seeds: seq<nat>): set<nat> {
    set a | 0 <= a < ADDRESS_SPACE && a !in seeds
  }

  lemma UnseenShrinks(seeds: seq<nat>, a: Address)
    requires a !in seeds
    ensures Unseen(seeds + [a]) == Unseen(seeds) - {a}
    ensures |Unseen(seeds + [a])| == |Unseen(seeds)| - 1
  {
  }

  /** The unbounded loop: expand until a round does not. It ends because 24-bit roots run out. */
  ghost function Explore<Artifact>(run: Run<Artifact>, seeds: seq<nat>, rounds: nat): BatchResult<Artifact>
    decreases |Unseen(seeds)|
  {
    if Expands(run, seeds) then
      UnseenShrinks(seeds, run(seeds).address);
      Explore(run, seeds + [run(seeds).address], rounds + 1)
    else
      Verdict(run(seeds), rounds + 1, seeds)
  }

  /** The status and driver result of each round that does not go on, and what is returned with it. */
  ghost predicate ReportsRound<Artifact>(outcome: Round<Artifact>, r: BatchResult<Artifact>) {
    && (r.status == 0 <==> outcome.Completed? || outcome.ResourceLimit? || outcome.Stopped? || outcome.Boundary?)
    && (r.status == 0 <==> r.artifact.Some?) && (r.status == 0 <==> r.seedCount.Some?)
    && (r.seedCount.Some? ==> r.seedCount.value == |r.seeds| + 1)
    && (r.driver == CompletedDriver <==> outcome.Completed?) && (r.driver == LimitDriver <==> outcome.ResourceLimit?)
    && (r.driver == NoProgress <==> outcome.Boundary?)
    && (forall c :: r.driver == StopDriver(c) <==> outcome.Stopped? && outcome.stopClass == c)
    && (r.driver == TranslationRejected <==> outcome.EmitFailed? && outcome.status == 1)
    && (r.driver == CompileFailed <==> outcome.EmitFailed? && outcome.status != 1)
    && (r.driver == RunFailure <==> outcome.RunFailed?)
    && (r.driver == NoDriver <==> outcome.ShaMismatch? || outcome.SchemaInvalid? || outcome.BoundaryMalformed?)
    && (outcome.EmitFailed? || outcome.RunFailed? || outcome.ShaMismatch? ==> r.status == outcome.status)
    && (outcome.SchemaInvalid? || outcome.BoundaryMalformed? ==> r.status == 5)
    && (r.artifact.Some? ==> r.artifact.value == outcome.artifact)
    && r.message == (if outcome.RunFailed? then outcome.message
                     else if outcome.BoundaryMalformed? then "malformed boundary provenance\n" else "")
  }

  /** The unbounded loop returns the roots of its last round and reports that round; every earlier one added a root. */
  lemma {:induction false} ExploreReportsLastRound<Artifact>(run: Run<Artifact>, seeds: seq<nat>, rounds: nat)
    ensures var r := Explore(run, seeds, rounds);
      && !Expands(run, r.seeds) && ReportsRound(run(r.seeds), r)
      && |r.seeds| >= |seeds| && r.rounds == rounds + |r.seeds| - |seeds| + 1
    decreases |Unseen(seeds)|
  {
    hide ReportsRound, Verdict, Unseen;
    if Expands(run, seeds) {
      UnseenShrinks(seeds, run(seeds).address);
      ExploreReportsLastRound(run, seeds + [run(seeds).address], rounds + 1);
    } else {
      VerdictReports(run(seeds), rounds + 1, seeds);
    }
  }

  lemma VerdictReports<Artifact>(outcome: Round<Artifact>, rounds: nat, seeds: seq<nat>)
    ensures var r := Verdict(outcome, rounds, seeds); ReportsRound(outcome, r) && r.seeds == seeds && r.rounds == rounds
  {
  }

  /** `n` consecutive rounds from `seeds` each confirm a new root. */
  ghost predicate ExpandsFor<Artifact>(run: Run<Artifact>, seeds: seq<nat>, n: nat)
    decreases n
  {
    n == 0 || (Expands(run, seeds) && ExpandsFor(run, seeds + [run(seeds).address], n - 1))
  }

  /** The seed list after those rounds. */
  ghost function Trail<Artifact>(run: Run<Artifact>, seeds: seq<nat>, n: nat): seq<nat>
    requires ExpandsFor(run, seeds, n)
    decreases n
  {
    if n == 0 then seeds else Trail(run, seeds + [run(seeds).address], n - 1)
  }

  /** Seeds only grow, the new ones are 24-bit and not repeated, and each uses up one unseen address. */
  lemma {:induction false} TrailKeeps<Artifact>(run: Run<Artifact>, seeds: seq<nat>, n: nat)
    requires ExpandsFor(run, seeds, n)
    ensures var t := Trail(run, seeds, n);
      && |t| == |seeds| + n
      && t[..|seeds|] == seeds
      && AllBelow(t[|seeds|..], ADDRESS_SPACE)
      && (Distinct(seeds) ==> Distinct(t))
      && |Unseen(t)| + n == |Unseen(seeds)|
    decreases n
  {
    if n > 0 {
      var a := run(seeds).address;
      var next := seeds + [a];
      TrailKeeps(run, next, n - 1);
      UnseenShrinks(seeds, a);
      var t := Trail(run, next, n - 1);
      assert t[..|seeds|] == t[..|next|][..|seeds|];
      assert t[|seeds|] == t[..|next|][|seeds|] == a;
      assert t[|seeds|..] == [a] + t[|next|..];
    }
  }

  lemma {:induction false} TrailSplits<Artifact>(run: Run<Artifact>, seeds: seq<nat>, m: nat, n: nat)
    requires ExpandsFor(run, seeds, m)
    ensures ExpandsFor(run, seeds, m + n) <==> ExpandsFor(run, Trail(run, seeds, m), n)
    ensures ExpandsFor(run, seeds, m + n) ==> Trail(run, seeds, m + n) == Trail(run, Trail(run, seeds, m), n)
    decreases m
  {
    if m > 0 {
      TrailSplits(run, seeds + [run(seeds).address], m - 1, n);
    }
  }

  /** Resuming the unbounded loop anywhere along its trail changes nothing but the round count. */
  lemma {:induction false} ExploreFromTrail<Artifact>(run: Run<Artifact>, seeds: seq<nat>, n: nat, rounds: nat)
    requires ExpandsFor(run, seeds, n)
    ensures Explore(run, seeds, rounds) == Explore(run, Trail(run, seeds, n), rounds + n)
    decreases n
  {
    if n > 0 {
      ExploreFromTrail(run, seeds + [run(seeds).address], n - 1, rounds + 1);
    }
  }

  lemma {:induction false} ExploreRounds<Artifact>(run: Run<Artifact>, seeds: seq<nat>, r: nat, s: nat)
    ensures Explore(run, seeds, r).(rounds := 0) == Explore(run, seeds, s).(rounds := 0)
    decreases |Unseen(seeds)|
  {
    if Expands(run, seeds) {
      UnseenShrinks(seeds, run(seeds).address);
      ExploreRounds(run, seeds + [run(seeds).address], r + 1, s + 1);
    }
  }

  lemma {:induction false} ExploreNeverBatchComplete<Artifact>(run: Run<Artifact>, seeds: seq<nat>, rounds: nat)
    ensures Explore(run, seeds, rounds).driver != BatchComplete
    decreases |Unseen(seeds)|
  {
    if Expands(run, seeds) {
      UnseenShrinks(seeds, run(seeds).address);
      ExploreNeverBatchComplete(run, seeds + [run(seeds).address], rounds + 1);
    }
  }

  // ----- one batch ---------------------------------------------------------------------------

  function Min(a: nat, b: nat): nat { if a < b then a else b }

  /** The number of expanding rounds after which a batch gives up its turn. */
  function RoundsToFill(seedBudget: nat, roundBudget: nat): nat {
    if seedBudget < roundBudget then seedBudget + 1 else roundBudget
  }

  /** A batch either finishes the unbounded exploration or stops exactly Min(budgets) roots further. */
  ghost predicate IsBatch<Artifact>(run: Run<Artifact>, initial: seq<nat>, seedBudget: nat, roundBudget: nat,
                                    r: BatchResult<Artifact>)
    requires seedBudget >= 1 && roundBudget >= 1
  {
    var fill := RoundsToFill(seedBudget, roundBudget);
    if ExpandsFor(run, initial, fill) then
      TrailSplitsAt(run, initial, fill, Min(seedBudget, roundBudget));
      TrailSplitsAt(run, initial, fill, fill - 1);
      && r.driver == BatchComplete && r.status == 0 && r.message == ""
      && r.seeds == Trail(run, initial, Min(seedBudget, roundBudget))
      && r.rounds == fill
      && r.seedCount == Some(|r.seeds| + 1)
      && run(Trail(run, initial, fill - 1)).Boundary?
      && r.artifact == Some(run(Trail(run, initial, fill - 1)).artifact)
    else
      r == Explore(run, initial, 0)
  }

  lemma {:induction false} TrailSplitsAt<Artifact>(run: Run<Artifact>, seeds: seq<nat>, n: nat, m: nat)
    requires ExpandsFor(run, seeds, n) && m <= n
    ensures ExpandsFor(run, seeds, m)
    decreases n
  {
    if m > 0 {
      TrailSplitsAt(run, seeds + [run(seeds).address], n - 1, m - 1);
    }
  }

  /** A trail that cannot be continued is not part of a longer one. */
  lemma {:induction false} StuckTrail<Artifact>(run: Run<Artifact>, seeds: seq<nat>, n: nat, fill: nat)
    requires n < fill && ExpandsFor(run, seeds, n) && !Expands(run, Trail(run, seeds, n))
    ensures !ExpandsFor(run, seeds, fill)
    decreases n
  {
    if n > 0 {
      StuckTrail(run, seeds + [run(seeds).address], n - 1, fill - 1);
    }
  }

  /** `last` is the artifact of the round that confirmed the n-th new root. */
  ghost predicate LastFrom<Artifact>(run: Run<Artifact>, seeds: seq<nat>, n: nat, last: Option<Artifact>) {
    n > 0 ==>
      && ExpandsFor(run, seeds, n - 1)
      && var round := run(Trail(run, seeds, n - 1));
      round.Boundary? && last == Some(round.artifact)
  }

  /** `run_expansion_loop`: at most `roundBudget` rounds, at most `seedBudget` newly promoted roots. */
  method RunExpansionLoop<Artifact>(run: Run<Artifact>, initialSeeds: seq<nat>, seedBudget: nat, roundBudget: nat)
    returns (r: BatchResult<Artifact>)
    requires seedBudget >= 1 && roundBudget >= 1
    ensures IsBatch(run, initialSeeds, seedBudget, roundBudget, r)
  {
    var seeds: seq<nat> := initialSeeds;
    var newlyPromoted := 0;
    var last: Option<Artifact> := None;
    var fill := RoundsToFill(seedBudget, roundBudget);
    for roundNumber := 1 to roundBudget + 1
      invariant newlyPromoted == roundNumber - 1 <= seedBudget
      invariant ExpandsFor(run, initialSeeds, newlyPromoted)
      invariant seeds == Trail(run, initialSeeds, newlyPromoted)
      invariant LastFrom(run, initialSeeds, newlyPromoted, last)
    {
      ExploreFromTrail(run, initialSeeds, newlyPromoted, 0);
      TrailSplits(run, initialSeeds, newlyPromoted, 1);
      var outcome := run(seeds);
      if !outcome.Boundary? || outcome.address in seeds {
        StuckTrail(run, initialSeeds, newlyPromoted, fill);
        return Verdict(outcome, roundNumber, seeds);
      }
      assert ExpandsFor(run, seeds, 1) by {
        assert ExpandsFor(run, seeds + [run(seeds).address], 0);
      }
      if newlyPromoted == seedBudget {
        return BatchResult(0, Some(outcome.artifact), roundNumber, BatchComplete, Some(|seeds| + 1), "", seeds);
      }
      assert Trail(run, seeds, 1) == seeds + [outcome.address];
      seeds := seeds + [outcome.address];
      newlyPromoted := newlyPromoted + 1;
      last := Some(outcome.artifact);
    }
    r := BatchResult(0, last, roundBudget, BatchComplete, Some(|seeds| + 1), "", seeds);
  }

  // ----- batching is transparent ---------------------------------------------------------------

  /** Equal up to the round counter, which counts rounds of the last batch only. */
  ghost predicate SameOutcome<Artifact>(a: BatchResult<Artifact>, b: BatchResult<Artifact>) {
    a.(rounds := 0) == b.(rounds := 0)
  }

  /** A full batch adds exactly Min(budgets) new roots, and exploration may go on from its seeds. */
  lemma FullBatch<Artifact>(run: Run<Artifact>, initial: seq<nat>, fill: nat, m: nat)
    requires ExpandsFor(run, initial, fill) && m <= fill
    ensures ExpandsFor(run, initial, m)
    ensures var t := Trail(run, initial, m);
      && |t| == |initial| + m && t[..|initial|] == initial && AllBelow(t[|initial|..], ADDRESS_SPACE)
      && (Distinct(initial) ==> Distinct(t))
      && |Unseen(t)| + m == |Unseen(initial)|
      && SameOutcome(Explore(run, t, 0), Explore(run, initial, 0))
  {
    TrailSplitsAt(run, initial, fill, m);
    TrailKeeps(run, initial, m);
    ExploreFromTrail(run, initial, m, 0);
    ExploreRounds(run, Trail(run, initial, m), 0, m);
  }

  /** One batch: what it keeps, how much it adds, and that exploration may go on from its seeds. */
  lemma BatchIsTransparent<Artifact>(run: Run<Artifact>, initial: seq<nat>, seedBudget: nat, roundBudget: nat,
                                     r: BatchResult<Artifact>)
    requires seedBudget >= 1 && roundBudget >= 1
    requires IsBatch(run, initial, seedBudget, roundBudget, r)
    ensures |r.seeds| >= |initial| && r.seeds[..|initial|] == initial
    ensures AllBelow(r.seeds[|initial|..], ADDRESS_SPACE)
    ensures Distinct(initial) ==> Distinct(r.seeds)
    ensures r.driver == BatchComplete ==>
      && r.status == 0
      && |r.seeds| == |initial| + Min(seedBudget, roundBudget)
      && |Unseen(r.seeds)| + Min(seedBudget, roundBudget) == |Unseen(initial)|
      && SameOutcome(Explore(run, r.seeds, 0), Explore(run, initial, 0))
    ensures r.driver != BatchComplete ==> SameOutcome(r, Explore(run, initial, 0))
  {
    var fill := RoundsToFill(seedBudget, roundBudget);
    if ExpandsFor(run, initial, fill) {
      FullBatch(run, initial, fill, Min(seedBudget, roundBudget));
    } else {
      ExploreNeverBatchComplete(run, initial, 0);
      ExploreKeeps(run, initial, 0);
    }
  }

  lemma {:induction false} ExploreKeeps<Artifact>(run: Run<Artifact>, seeds: seq<nat>, rounds: nat)
    ensures var t := Explore(run, seeds, rounds).seeds;
      |t| >= |seeds| && t[..|seeds|] == seeds && AllBelow(t[|seeds|..], ADDRESS_SPACE)
      && (Distinct(seeds) ==> Distinct(t))
    decreases |Unseen(seeds)|
  {
    if Expands(run, seeds) {
      var a := run(seeds).address;
      UnseenShrinks(seeds, a);
      var next := seeds + [a];
      ExploreKeeps(run, next, rounds + 1);
      var t := Explore(run, next, rounds + 1).seeds;
      assert t[..|seeds|] == t[..|next|][..|seeds|];
      assert t[|seeds|] == t[..|next|][|seeds|] == a;
      assert t[|seeds|..] == [a] + t[|next|..];
    }
  }

  /** A chain of batches, each resumed from the seeds of the one before, with any budgets of at least 1. */
  ghost predicate IsChain<Artifact>(run: Run<Artifact>, initial: seq<nat>, budgets: seq<(nat, nat)>,
                                    results: seq<BatchResult<Artifact>>)
  {
    |budgets| == |results| && forall i :: 0 <= i < |results| ==> IsLink(run, initial, budgets, results, i)
  }

  ghost predicate IsLink<Artifact>(run: Run<Artifact>, initial: seq<nat>, budgets: seq<(nat, nat)>,
                                   results: seq<BatchResult<Artifact>>, i: nat)
    requires |budgets| == |results| && i < |results|
  {
    && budgets[i].0 >= 1 && budgets[i].1 >= 1
    && (i > 0 ==> results[i - 1].driver == BatchComplete)
    && IsBatch(run, if i == 0 then initial else results[i - 1].seeds, budgets[i].0, budgets[i].1, results[i])
  }

  /**
   Batching is transparent: whatever the budgets, the first result that is not a batch-complete is the
   result of the unbounded loop, and a chain is never longer than the number of unseen 24-bit addresses
   plus one, so no cap on the number of batches is needed for termination.
   */
  lemma {:induction false} ChainIsTransparent<Artifact>(run: Run<Artifact>, initial: seq<nat>, budgets: seq<(nat, nat)>,
                                                        results: seq<BatchResult<Artifact>>)
    requires |results| >= 1 && IsChain(run, initial, budgets, results)
    ensures var last := results[|results| - 1];
      && last.seeds[..Min(|initial|, |last.seeds|)] == initial
      && (Distinct(initial) ==> Distinct(last.seeds))
      && (last.driver != BatchComplete ==> SameOutcome(last, Explore(run, initial, 0)))
      && (last.driver == BatchComplete ==>
            && |Unseen(last.seeds)| + |results| <= |Unseen(initial)|
            && SameOutcome(Explore(run, last.seeds, 0), Explore(run, initial, 0)))
    ensures |results| <= |Unseen(initial)| + 1
    decreases |results|
  {
    hide IsBatch, Explore, Unseen, ExpandsFor;
    var k := |results| - 1;
    var from := if k == 0 then initial else results[k - 1].seeds;
    assert IsLink(run, initial, budgets, results, k);
    BatchIsTransparent(run, from, budgets[k].0, budgets[k].1, results[k]);
    if k > 0 {
      forall i | 0 <= i < k ensures IsLink(run, initial, budgets[..k], results[..k], i) {
        assert IsLink(run, initial, budgets, results, i);
      }
      ChainIsTransparent(run, initial, budgets[..k], results[..k]);
      assert results[..k][k - 1] == results[k - 1];
      assert results[k].seeds[..|initial|] == results[k].seeds[..|from|][..|initial|];
    }
  }

  // ----- the outer loop ------------------------------------------------------------------------

  /** The resume loop of `main` over a checkpoint file that outlives the process. */
  class Session {
    var file: CheckpointFile
    const binding: Binding

    constructor (file: CheckpointFile, binding: Binding)
      ensures this.file == file && this.binding == binding
    {
      this.file := file;
      this.binding := binding;
    }

    /**
     One process: load, then batch after batch until a terminal result or the safety cap. The file always
     ends up holding the returned roots. Below the cap the result is that of the unbounded loop; at the cap
     `cap` full batches were confirmed and the unbounded result is still reachable from the file.
     */
    method DiagnoseFrontier<Artifact>(run: Run<Artifact>, seedBudget: nat, roundBudget: nat, cap: nat)
      returns (r: BatchResult<Artifact>, outerBatches: nat)
      requires seedBudget >= 1 && roundBudget >= 1 && cap >= 1
      modifies this
      ensures file == Saved(binding, r.seeds)
      ensures 1 <= outerBatches <= cap
      ensures var start := Loaded(old(file), binding);
        && |r.seeds| >= |start| && r.seeds[..|start|] == start && Distinct(r.seeds)
        && AllBelow(r.seeds, 0x1_0000_0000)
        && (r.driver != BatchComplete ==> SameOutcome(r, Explore(run, start, 0)))
        && (r.driver == BatchComplete ==>
              && outerBatches == cap
              && |r.seeds| == |start| + cap * Min(seedBudget, roundBudget)
              && SameOutcome(Explore(run, Loaded(file, binding), 0), Explore(run, start, 0)))
    {
      hide Explore, Unseen, Saved, Loaded;
      var initialSeeds := LoadCheckpoint(file, binding);
      ghost var start := initialSeeds;
      LoadedIsClean(file, binding);
      outerBatches := 0;
      while true
        invariant 0 <= outerBatches < cap
        invariant |initialSeeds| == |start| + outerBatches * Min(seedBudget, roundBudget)
        invariant initialSeeds[..|start|] == start
        invariant Distinct(initialSeeds) && AllBelow(initialSeeds, 0x1_0000_0000)
        invariant SameOutcome(Explore(run, initialSeeds, 0), Explore(run, start, 0))
        decreases cap - outerBatches
      {
        outerBatches := outerBatches + 1;
        r := RunExpansionLoop(run, initialSeeds, seedBudget, roundBudget);
        BatchIsTransparent(run, initialSeeds, seedBudget, roundBudget, r);
        Below32(initialSeeds, r.seeds);
        assert r.seeds[..|start|] == r.seeds[..|initialSeeds|][..|start|];
        file := Saved(binding, r.seeds);
        CheckpointRoundTrip(binding, r.seeds);
        if r.status != 0 || r.driver != BatchComplete || outerBatches >= cap {
          break;
        }
        initialSeeds := r.seeds;
      }
    }
  }

  lemma Below32(before: seq<nat>, all: seq<nat>)
    requires |all| >= |before| && all[..|before|] == before
    requires AllBelow(before, 0x1_0000_0000) && AllBelow(all[|before|..], ADDRESS_SPACE)
    ensures AllBelow(all, 0x1_0000_0000)
  {
    forall x | x in all ensures x < 0x1_0000_0000 {
      var i :| 0 <= i < |all| && all[i] == x;
      if i < |before| {
        assert all[..|before|][i] in before;
      } else {
        assert all[|before|..][i - |before|] in all[|before|..];
      }
    }
  }
}
