/**
 Budgeted selection of the best-scored cells, and what it says about recall of the labelled ones.
 Scores are finite.
 */
module RankSelect {
  import opened Basics

  const CELL := 128

  /** The sort key order (-score, ordinal): cell a comes before cell b. */
  predicate Ahead(scores: seq<real>, a: nat, b: nat)
    requires a < |scores| && b < |scores|
  {
    scores[a] > scores[b] || (scores[a] == scores[b] && a < b)
  }

  ghost predicate InOrder(scores: seq<real>, cells: seq<nat>) {
    && (forall i :: 0 <= i < |cells| ==> cells[i] < |scores|)
    && (forall i, j :: 0 <= i < j < |cells| ==> Ahead(scores, cells[i], cells[j]))
  }

  /** All cells below n, in order. */
  ghost predicate Ranking(scores: seq<real>, cells: seq<nat>, n: nat) {
    InOrder(scores, cells) && (forall c: nat :: c in cells <==> c < n)
  }

  /** Where a new cell belongs: every cell before the place is ahead of it, every other behind it. */
  function Place(scores: seq<real>, cells: seq<nat>, cell: nat, i: nat): (k: nat)
    requires InOrder(scores, cells) && cell < |scores| && cell !in cells && i <= |cells|
    requires forall p :: 0 <= p < i ==> Ahead(scores, cells[p], cell)
    ensures k <= |cells|
    ensures forall p :: 0 <= p < k ==> Ahead(scores, cells[p], cell)
    ensures forall p :: k <= p < |cells| ==> Ahead(scores, cell, cells[p])
    decreases |cells| - i
  {
    if i == |cells| || Ahead(scores, cell, cells[i]) then i else Place(scores, cells, cell, i + 1)
  }

  /** `sorted(range(n), key = (-score, ordinal))`. */
  function Sorted(scores: seq<real>, n: nat): (cells: seq<nat>)
    requires n <= |scores|
    ensures Ranking(scores, cells, n)
  {
    if n == 0 then [] else
      var before := Sorted(scores, n - 1);
      var k := Place(scores, before, n - 1, 0);
      var cells := before[..k] + [n - 1] + before[k..];
      Inserted(scores, before, n - 1, k);
      cells
  }

  lemma Inserted(scores: seq<real>, before: seq<nat>, cell: nat, k: nat)
    requires Ranking(scores, before, cell) && cell < |scores| && k <= |before|
    requires forall p :: 0 <= p < k ==> Ahead(scores, before[p], cell)
    requires forall p :: k <= p < |before| ==> Ahead(scores, cell, before[p])
    ensures Ranking(scores, before[..k] + [cell] + before[k..], cell + 1)
  {
    var after := before[..k] + [cell] + before[k..];
    forall i, j | 0 <= i < j < |after| ensures Ahead(scores, after[i], after[j]) {
    }
    forall c: nat ensures c in after <==> c < cell + 1 {
      assert before == before[..k] + before[k..];
      assert c in before <==> c in before[..k] || c in before[k..];
    }
  }

  /** The key order is total and strict, so a ranking is determined: any sorting method gives this one. */
  lemma {:induction false} RankingIsUnique(scores: seq<real>, a: seq<nat>, b: seq<nat>, n: nat)
    requires Ranking(scores, a, n) && Ranking(scores, b, n)
    ensures a == b && |a| == n
  {
    RankingLength(scores, a, n);
    RankingLength(scores, b, n);
    forall i | 0 <= i < n ensures a[i] == b[i] {
      SameAt(scores, a, b, n, i);
    }
  }

  /** Strictly ordered cells are distinct. */
  lemma RankingDistinct(scores: seq<real>, cells: seq<nat>)
    requires InOrder(scores, cells)
    ensures forall i, j :: 0 <= i < j < |cells| ==> cells[i] != cells[j]
  {
  }

  function Below(n: nat): (s: set<nat>)
    ensures |s| == n && forall c: nat :: c in s <==> c < n
  {
    if n == 0 then {} else Below(n - 1) + {n - 1}
  }

  lemma {:induction false} DistinctSize(cells: seq<nat>)
    requires forall i, j :: 0 <= i < j < |cells| ==> cells[i] != cells[j]
    ensures |Cells(cells)| == |cells|
  {
    if cells != [] {
      var n := |cells| - 1;
      DistinctSize(cells[..n]);
      assert cells == cells[..n] + [cells[n]];
      assert Cells(cells) == Cells(cells[..n]) + {cells[n]};
    }
  }

  function Cells(cells: seq<nat>): set<nat> {
    set c | c in cells
  }

  lemma RankingLength(scores: seq<real>, cells: seq<nat>, n: nat)
    requires Ranking(scores, cells, n)
    ensures |cells| == n
  {
    RankingDistinct(scores, cells);
    DistinctSize(cells);
    assert Cells(cells) == Below(n);
  }

  /** Equal up to i, the next cells are equal too: each would otherwise come later in the other ranking. */
  lemma {:induction false} SameAt(scores: seq<real>, a: seq<nat>, b: seq<nat>, n: nat, i: nat)
    requires Ranking(scores, a, n) && Ranking(scores, b, n) && |a| == |b| == n && i < n
    ensures a[i] == b[i]
  {
    forall k | 0 <= k < i ensures a[k] == b[k] {
      SameAt(scores, a, b, n, k);
    }
    assert a[i] in a && b[i] in b;
    assert a[i] in b && b[i] in a;
    var p :| 0 <= p < n && b[p] == a[i];
    var q :| 0 <= q < n && a[q] == b[i];
    RankingDistinct(scores, a);
    RankingDistinct(scores, b);
    assert p >= i && q >= i;
  }

  // Selection.

  function Budget(cells: nat, percent: nat): nat {
    (cells * percent + 99) / 100
  }

  /** The budget is the least whole number of cells that makes up the percentage. */
  lemma BudgetIsCeiling(cells: nat, percent: nat)
    ensures 100 * Budget(cells, percent) >= cells * percent
    ensures forall k: nat :: 100 * k >= cells * percent ==> Budget(cells, percent) <= k
  {
  }

  function RankSelect(scores: seq<real>, percent: nat): seq<nat> {
    var order := Sorted(scores, |scores|);
    var budget := Budget(|scores|, percent);
    if budget <= |order| then order[..budget] else order
  }

  /** The cells that come before c. */
  ghost function Rivals(scores: seq<real>, c: nat): set<nat>
    requires c < |scores|
  {
    set d: nat | d < |scores| && Ahead(scores, d, c)
  }

  lemma RankIsRivals(scores: seq<real>, cells: seq<nat>, i: nat)
    requires Ranking(scores, cells, |scores|) && i < |cells|
    ensures |Rivals(scores, cells[i])| == i
  {
    RankingDistinct(scores, cells);
    var before := cells[..i];
    DistinctSize(before);
    forall d: nat ensures d in Rivals(scores, cells[i]) <==> d in before {
      if d < |scores| {
        assert d in cells;
        var k :| 0 <= k < |cells| && cells[k] == d;
        assert k < i ==> before[k] == d;
      }
    }
    assert Rivals(scores, cells[i]) == Cells(before);
  }

  /** Selected are exactly the cells with fewer cells ahead of them than the budget, each once, best first. */
  lemma SelectedIffFewAhead(scores: seq<real>, percent: nat)
    ensures InOrder(scores, RankSelect(scores, percent))
    ensures forall c: nat :: c in RankSelect(scores, percent) <==>
      c < |scores| && |Rivals(scores, c)| < Budget(|scores|, percent)
    ensures |RankSelect(scores, percent)| == if percent <= 100 then Budget(|scores|, percent) else |scores|
    ensures |RankSelect(scores, percent)| <= Budget(|scores|, percent)
  {
    var order := Sorted(scores, |scores|);
    RankingLength(scores, order, |scores|);
    BudgetFits(|scores|, percent);
    forall c: nat ensures c in RankSelect(scores, percent) <==>
        c < |scores| && |Rivals(scores, c)| < Budget(|scores|, percent)
    {
      if c < |scores| {
        RankOf(scores, order, c);
        SelectedRank(scores, percent, c);
      }
    }
  }

  lemma BudgetFits(cells: nat, percent: nat)
    ensures percent <= 100 ==> Budget(cells, percent) <= cells
    ensures percent >= 100 ==> Budget(cells, percent) >= cells
  {
  }

  lemma RankOf(scores: seq<real>, order: seq<nat>, c: nat)
    requires Ranking(scores, order, |scores|) && c < |scores|
    ensures |Rivals(scores, c)| < |order| && order[|Rivals(scores, c)|] == c
  {
    assert c in order;
    var i :| 0 <= i < |order| && order[i] == c;
    RankIsRivals(scores, order, i);
  }

  lemma SelectedRank(scores: seq<real>, percent: nat, c: nat)
    requires c < |scores|
    ensures c in RankSelect(scores, percent) <==> |Rivals(scores, c)| < Budget(|scores|, percent)
  {
    var order := Sorted(scores, |scores|);
    var chosen := RankSelect(scores, percent);
    RankOf(scores, order, c);
    RankingDistinct(scores, order);
    var r := |Rivals(scores, c)|;
    if r < |chosen| {
      assert chosen[r] == c;
    } else {
      assert forall i :: 0 <= i < |chosen| ==> chosen[i] == order[i];
    }
  }

  /** Every selected cell is ahead of every unselected one. */
  lemma SelectedAheadOfOthers(scores: seq<real>, percent: nat, a: nat, b: nat)
    requires a < |scores| && b < |scores|
    requires a in RankSelect(scores, percent) && b !in RankSelect(scores, percent)
    ensures Ahead(scores, a, b)
    ensures scores[a] >= scores[b] && (scores[a] == scores[b] ==> a < b)
  {
    SelectedIffFewAhead(scores, percent);
    if !Ahead(scores, a, b) {
      assert Rivals(scores, b) <= Rivals(scores, a);
      Smaller(Rivals(scores, b), Rivals(scores, a));
    }
  }

  lemma {:induction false} Smaller<T>(a: set<T>, b: set<T>)
    requires a <= b
    ensures |a| <= |b| && (a != b ==> |a| < |b|)
  {
    assert b == a + (b - a);
    if a != b {
      assert b - a != {};
    }
  }

  // Labels and the report of one arm.

  /** The cells that hold the given starts. */
  ghost predicate LabelsOf(labels: seq<bool>, starts: seq<nat>) {
    && (forall s :: s in starts ==> s / CELL < |labels|)
    && (forall c :: 0 <= c < |labels| ==> (labels[c] <==> exists s :: s in starts && s / CELL == c))
  }

  /** The truth starts that fall in the image, relative to it. */
  function ImageStarts(truth: seq<nat>, source: nat, length: nat): (starts: seq<nat>)
    ensures forall s: nat :: s in starts <==> s < length && s + source in truth
  {
    if truth == [] then [] else
      var s, rest := truth[0], ImageStarts(truth[1..], source, length);
      assert truth == [s] + truth[1..];
      if source <= s < source + length then [s - source] + rest else rest
  }

  /** The label loop of `main`; the image has ceil(length / 128) cells. */
  method Label(truth: seq<nat>, source: nat, length: nat) returns (starts: seq<nat>, labels: seq<bool>)
    ensures starts == ImageStarts(truth, source, length)
    ensures |labels| == (length + CELL - 1) / CELL && LabelsOf(labels, starts)
    ensures forall c :: 0 <= c < |labels| ==>
      (labels[c] <==> exists t :: t in truth && source <= t < source + length && (t - source) / CELL == c)
  {
    starts := ImageStarts(truth, source, length);
    var cells := (length + CELL - 1) / CELL;
    labels := seq(cells, _ => false);
    for i := 0 to |starts|
      invariant |labels| == cells && forall s :: s in starts ==> s / CELL < cells
      invariant LabelsOf(labels, starts[..i])
    {
      var s := starts[i];
      assert s in starts;
      LabelOne(labels, starts[..i], s);
      assert starts[..i + 1] == starts[..i] + [s];
      labels := labels[s / CELL := true];
    }
    assert starts[..|starts|] == starts;
    forall c | 0 <= c < |labels|
      ensures labels[c] <==> exists t :: t in truth && source <= t < source + length && (t - source) / CELL == c
    {
      LabelMeans(truth, source, length, starts, c);
    }
  }

  lemma LabelOne(labels: seq<bool>, starts: seq<nat>, s: nat)
    requires LabelsOf(labels, starts) && s / CELL < |labels|
    ensures LabelsOf(labels[s / CELL := true], starts + [s])
  {
    var more, all := labels[s / CELL := true], starts + [s];
    forall c | 0 <= c < |more| ensures more[c] <==> exists t :: t in all && t / CELL == c {
      if c == s / CELL {
        assert s in all;
      } else if labels[c] {
        var t :| t in starts && t / CELL == c;
        assert t in all;
      }
    }
  }

  lemma LabelMeans(truth: seq<nat>, source: nat, length: nat, starts: seq<nat>, c: nat)
    requires starts == ImageStarts(truth, source, length)
    ensures (exists s :: s in starts && s / CELL == c)
      <==> (exists t :: t in truth && source <= t < source + length && (t - source) / CELL == c)
  {
    if s :| s in starts && s / CELL == c {
      assert s + source in truth && (s + source - source) / CELL == c;
    }
    if t :| t in truth && source <= t < source + length && (t - source) / CELL == c {
      assert t - source in starts;
    }
  }

  datatype Report = Report(selected: nat, outside: nat, missed: nat, needed: Option<nat>, densityLimited: bool)

  /** How many starts lie in cells that are not selected. */
  function Outside(starts: seq<nat>, selected: seq<nat>): (n: nat)
    ensures n == 0 <==> forall s :: s in starts ==> s / CELL in selected
  {
    if starts == [] then 0
    else
      var k := |starts| - 1;
      assert starts == starts[..k] + [starts[k]];
      Outside(starts[..k], selected) + if starts[k] / CELL in selected then 0 else 1
  }

  /** Every start outside is counted, also several in one cell. */
  lemma {:induction false} OutsideCounts(starts: seq<nat>, selected: seq<nat>)
    ensures Outside(starts, selected) == |set i: nat | i < |starts| && starts[i] / 128 !in selected|
    decreases |starts|
  {
    if starts != [] {
      var k: nat := |starts| - 1;
      OutsideCounts(starts[..k], selected);
      var before := set i: nat | i < |starts[..k]| && starts[..k][i] / 128 !in selected;
      var all := set i: nat | i < |starts| && starts[i] / 128 !in selected;
      assert all == before + if starts[k] / 128 in selected then {} else {k};
    }
  }

  function Positives(labels: seq<bool>): set<nat> {
    set c: nat | c < |labels| && labels[c]
  }

  function Missed(labels: seq<bool>, selected: seq<nat>): set<nat> {
    set c: nat | c < |labels| && labels[c] && c !in selected
  }

  /** The lowest score of a positive cell below n. */
  function Worst(scores: seq<real>, labels: seq<bool>, n: nat): (worst: Option<real>)
    requires n <= |scores| == |labels|
    ensures worst.None? <==> forall c :: 0 <= c < n ==> !labels[c]
    ensures worst.Some? ==>
      && (forall c :: 0 <= c < n && labels[c] ==> scores[c] >= worst.value)
      && (exists c :: 0 <= c < n && labels[c] && scores[c] == worst.value)
  {
    if n == 0 then None else
      var before := Worst(scores, labels, n - 1);
      if !labels[n - 1] then before
      else if before.None? || scores[n - 1] < before.value then Some(scores[n - 1]) else before
  }

  function AtLeast(scores: seq<real>, worst: real): set<nat> {
    set c: nat | c < |scores| && scores[c] >= worst
  }

  /** `cells_needed` of `frf`: all cells scored no lower than the worst positive one. */
  function CellsNeeded(scores: seq<real>, labels: seq<bool>): Option<nat>
    requires |scores| == |labels|
  {
    match Worst(scores, labels, |scores|)
    case None => None
    case Some(worst) => Some(|AtLeast(scores, worst)|)
  }

  function Arm(scores: seq<real>, labels: seq<bool>, starts: seq<nat>, percent: nat): Report
    requires |scores| == |labels|
  {
    var selected := RankSelect(scores, percent);
    Report(|selected|, Outside(starts, selected), |Missed(labels, selected)|, CellsNeeded(scores, labels),
           |Positives(labels)| > Budget(|labels|, percent))
  }

  /** Full recall of starts is full recall of cells. */
  lemma FullRecallIffNoneMissed(scores: seq<real>, labels: seq<bool>, starts: seq<nat>, percent: nat)
    requires |scores| == |labels| && LabelsOf(labels, starts)
    ensures Arm(scores, labels, starts, percent).outside == 0 <==> Arm(scores, labels, starts, percent).missed == 0
    ensures Arm(scores, labels, starts, percent).missed == 0
      <==> forall c :: c in Positives(labels) ==> |Rivals(scores, c)| < Budget(|scores|, percent)
  {
    hide RankSelect;
    var selected := RankSelect(scores, percent);
    var missed := Missed(labels, selected);
    SelectedIffFewAhead(scores, percent);
    assert |missed| == 0 <==> missed == {};
    if missed == {} {
      forall s | s in starts ensures s / CELL in selected {
        assert labels[s / CELL];
        assert s / CELL !in missed;
      }
      forall c | c in Positives(labels) ensures c in selected {
        assert c !in missed;
      }
    } else {
      var c :| c in missed;
      var s :| s in starts && s / CELL == c;
      assert c in Positives(labels);
    }
  }

  /** Enough budget for all cells scored no lower than the worst positive one: nothing is left outside. */
  lemma NeededWithinBudget(scores: seq<real>, labels: seq<bool>, starts: seq<nat>, percent: nat)
    requires |scores| == |labels| && LabelsOf(labels, starts)
    ensures var arm := Arm(scores, labels, starts, percent);
      && (arm.needed.None? ==> arm.outside == 0)
      && (arm.needed.Some? && arm.needed.value <= Budget(|scores|, percent) ==> arm.outside == 0)
  {
    hide Arm, Rivals, AtLeast, Worst;
    var arm := Arm(scores, labels, starts, percent);
    FullRecallIffNoneMissed(scores, labels, starts, percent);
    ArmNeeds(scores, labels, starts, percent);
    if arm.needed.None? || arm.needed.value <= Budget(|scores|, percent) {
      forall c | c in Positives(labels) ensures |Rivals(scores, c)| < Budget(|scores|, percent) {
        RivalsAreNeeded(scores, labels, c);
      }
    }
  }

  lemma ArmNeeds(scores: seq<real>, labels: seq<bool>, starts: seq<nat>, percent: nat)
    requires |scores| == |labels|
    ensures Arm(scores, labels, starts, percent).needed == CellsNeeded(scores, labels)
  {
  }

  lemma RivalsAreNeeded(scores: seq<real>, labels: seq<bool>, c: nat)
    requires |scores| == |labels| && c in Positives(labels)
    ensures CellsNeeded(scores, labels).Some? && |Rivals(scores, c)| < CellsNeeded(scores, labels).value
  {
    var worst := Worst(scores, labels, |scores|).value;
    Smaller(Rivals(scores, c), AtLeast(scores, worst));
    assert c in AtLeast(scores, worst) && c !in Rivals(scores, c);
  }

  /** The positive cell below n that comes last in the ranking. */
  ghost function LastPositive(scores: seq<real>, labels: seq<bool>, n: nat): (last: nat)
    requires n <= |scores| == |labels| && exists c :: 0 <= c < n && labels[c]
    ensures last < n && labels[last]
    ensures forall c :: 0 <= c < n && labels[c] && c != last ==> Ahead(scores, c, last)
  {
    if exists c :: 0 <= c < n - 1 && labels[c] then
      var before := LastPositive(scores, labels, n - 1);
      if labels[n - 1] && Ahead(scores, before, n - 1) then n - 1 else before
    else n - 1
  }

  /** Cells with the score of `last` that come behind it. */
  ghost function TiedBehind(scores: seq<real>, last: nat): set<nat>
    requires last < |scores|
  {
    set c: nat | last < c < |scores| && scores[c] == scores[last]
  }

  /** The needed count: the cells ahead of the last positive one, that cell, and the cells tied behind it. */
  lemma NeededCounts(scores: seq<real>, labels: seq<bool>)
    requires |scores| == |labels| && Positives(labels) != {}
    ensures var last := LastPositive(scores, labels, |scores|);
      && CellsNeeded(scores, labels) == Some(|Rivals(scores, last)| + 1 + |TiedBehind(scores, last)|)
      && TiedBehind(scores, last) !! Positives(labels)
  {
    hide Ahead, Rivals, AtLeast;
    SomePositive(scores, labels);
    var last := LastPositive(scores, labels, |scores|);
    LastIsWorst(scores, labels);
    AtLeastSplits(scores, last);
    forall c | c in TiedBehind(scores, last) ensures c !in Positives(labels) {
      if labels[c] {
        assert Ahead(scores, c, last);
        BehindIsNotAhead(scores, c, last);
      }
    }
  }

  lemma SomePositive(scores: seq<real>, labels: seq<bool>)
    requires |scores| == |labels|
    ensures Positives(labels) != {} <==> exists c :: 0 <= c < |scores| && labels[c]
    ensures Positives(labels) == {} <==> CellsNeeded(scores, labels).None?
  {
    hide AtLeast;
    if Positives(labels) != {} {
      var c :| c in Positives(labels);
    } else {
      forall c | 0 <= c < |labels| ensures !labels[c] {
        assert c !in Positives(labels);
      }
    }
  }

  lemma BehindIsNotAhead(scores: seq<real>, c: nat, last: nat)
    requires c < |scores| && last < c && scores[c] == scores[last]
    ensures !Ahead(scores, c, last)
  {
  }

  lemma LastIsWorst(scores: seq<real>, labels: seq<bool>)
    requires |scores| == |labels| && exists c :: 0 <= c < |scores| && labels[c]
    ensures Worst(scores, labels, |scores|) == Some(scores[LastPositive(scores, labels, |scores|)])
  {
  }

  /** The cells scored no lower than c: those ahead of it, itself, and those tied behind it. */
  lemma AtLeastSplits(scores: seq<real>, c: nat)
    requires c < |scores|
    ensures |AtLeast(scores, scores[c])| == |Rivals(scores, c)| + 1 + |TiedBehind(scores, c)|
  {
    var head := Rivals(scores, c) + {c};
    assert AtLeast(scores, scores[c]) == head + TiedBehind(scores, c);
    assert head !! TiedBehind(scores, c);
    assert |head| == |Rivals(scores, c)| + 1;
  }

  /** All positive cells are selected exactly when the last of them is. */
  lemma LastPositiveDecides(scores: seq<real>, labels: seq<bool>, budget: nat)
    requires |scores| == |labels| && Positives(labels) != {}
    ensures (forall c :: c in Positives(labels) ==> |Rivals(scores, c)| < budget)
      <==> |Rivals(scores, LastPositive(scores, labels, |scores|))| < budget
  {
    var last := LastPositive(scores, labels, |scores|);
    assert last in Positives(labels);
    forall c | c in Positives(labels) ensures |Rivals(scores, c)| <= |Rivals(scores, last)| {
      Smaller(Rivals(scores, c), Rivals(scores, last));
    }
  }

  /**
   With positive cells, full recall holds exactly when the last of them is within the budget. The needed count
   decides it exactly unless the budget ends among the cells tied behind that one.
   */
  lemma NeededIsExactIff(scores: seq<real>, labels: seq<bool>, starts: seq<nat>, percent: nat)
    requires |scores| == |labels| && LabelsOf(labels, starts) && Positives(labels) != {}
    ensures var arm, budget := Arm(scores, labels, starts, percent), Budget(|scores|, percent);
      var last := LastPositive(scores, labels, |scores|);
      var rank, tied := |Rivals(scores, last)|, |TiedBehind(scores, last)|;
      && (arm.outside == 0 <==> rank < budget)
      && arm.needed.Some?
      && ((arm.outside == 0 <==> arm.needed.value <= budget) <==> !(rank < budget <= rank + tied))
  {
    hide Arm, RankSelect, Budget, Rivals, TiedBehind, Positives, LastPositive, CellsNeeded;
    var budget := Budget(|scores|, percent);
    FullRecallIffNoneMissed(scores, labels, starts, percent);
    LastPositiveDecides(scores, labels, budget);
    NeededCounts(scores, labels);
    ArmNeeds(scores, labels, starts, percent);
  }

  /** When no unlabelled cell ties with the worst positive one, the needed count decides full recall at every budget. */
  lemma NeededIsExactWithoutTies(scores: seq<real>, labels: seq<bool>, starts: seq<nat>, percent: nat)
    requires |scores| == |labels| && LabelsOf(labels, starts)
    requires forall a: nat :: a < |scores| && Worst(scores, labels, |scores|) == Some(scores[a]) ==> labels[a]
    ensures var arm := Arm(scores, labels, starts, percent);
      arm.needed.Some? ==> (arm.outside == 0 <==> arm.needed.value <= Budget(|scores|, percent))
  {
    hide Arm, RankSelect, Budget, Rivals, CellsNeeded;
    ArmNeeds(scores, labels, starts, percent);
    SomePositive(scores, labels);
    if Positives(labels) != {} {
      NeededIsExactIff(scores, labels, starts, percent);
      NeededCounts(scores, labels);
      LastIsWorst(scores, labels);
      var tied := TiedBehind(scores, LastPositive(scores, labels, |scores|));
      assert forall c :: c in tied ==> c in Positives(labels);
      assert tied == {};
    }
  }

  /** With a tie the needed count is pessimistic: one of two equal cells is selected, and is the positive one. */
  lemma NeededIsPessimisticUnderTies()
    ensures LabelsOf([true, false], [0])
    ensures Arm([0.0, 0.0], [true, false], [0], 50).outside == 0
    ensures Arm([0.0, 0.0], [true, false], [0], 50).needed == Some(2) && Budget(2, 50) == 1
  {
    var scores, labels := [0.0, 0.0], [true, false];
    assert 0 in [0 as nat];
    NeededIsAll(scores, labels);
    FullRecallIffNoneMissed(scores, labels, [0], 50);
    assert Rivals(scores, 0) == {};
  }

  lemma NeededIsAll(scores: seq<real>, labels: seq<bool>)
    requires scores == [0.0, 0.0] && labels == [true, false]
    ensures CellsNeeded(scores, labels) == Some(2)
  {
    assert labels[0];
    assert AtLeast(scores, 0.0) == {0, 1};
  }

  /** The scores that put exactly the positive cells first. */
  ghost function Oracle(labels: seq<bool>): seq<real> {
    seq(|labels|, c requires 0 <= c < |labels| => if labels[c] then 1.0 else 0.0)
  }

  /** An image is called density limited exactly when no scores at all reach full recall. */
  lemma DensityLimitedIffNoRanking(scores: seq<real>, labels: seq<bool>, starts: seq<nat>, percent: nat)
    requires |scores| == |labels| && LabelsOf(labels, starts)
    ensures Arm(scores, labels, starts, percent).densityLimited
      <==> forall other: seq<real> :: |other| == |labels| ==> Arm(other, labels, starts, percent).outside > 0
  {
    hide Arm, RankSelect, Budget;
    ArmLimited(scores, labels, starts, percent);
    if |Positives(labels)| > Budget(|labels|, percent) {
      forall other: seq<real> | |other| == |labels| ensures Arm(other, labels, starts, percent).outside > 0 {
        TooManyPositives(other, labels, starts, percent);
      }
    } else {
      OracleRecalls(labels, starts, percent);
    }
  }

  lemma ArmLimited(scores: seq<real>, labels: seq<bool>, starts: seq<nat>, percent: nat)
    requires |scores| == |labels|
    ensures Arm(scores, labels, starts, percent).densityLimited <==> |Positives(labels)| > Budget(|labels|, percent)
  {
  }

  lemma TooManyPositives(scores: seq<real>, labels: seq<bool>, starts: seq<nat>, percent: nat)
    requires |scores| == |labels| && LabelsOf(labels, starts)
    requires |Positives(labels)| > Budget(|labels|, percent)
    ensures Arm(scores, labels, starts, percent).outside > 0
  {
    hide Budget, RankSelect;
    var selected := RankSelect(scores, percent);
    SelectedIffFewAhead(scores, percent);
    FullRecallIffNoneMissed(scores, labels, starts, percent);
    if forall c :: c in Positives(labels) ==> c in selected {
      assert Positives(labels) <= Cells(selected);
      Smaller(Positives(labels), Cells(selected));
      RankingDistinct(scores, selected);
      DistinctSize(selected);
    }
  }

  lemma OracleRecalls(labels: seq<bool>, starts: seq<nat>, percent: nat)
    requires LabelsOf(labels, starts) && |Positives(labels)| <= Budget(|labels|, percent)
    ensures |Oracle(labels)| == |labels| && Arm(Oracle(labels), labels, starts, percent).outside == 0
  {
    var scores := Oracle(labels);
    FullRecallIffNoneMissed(scores, labels, starts, percent);
    forall c | c in Positives(labels) ensures |Rivals(scores, c)| < Budget(|scores|, percent) {
      assert c !in Rivals(scores, c) && Rivals(scores, c) <= Positives(labels);
      Smaller(Rivals(scores, c), Positives(labels));
    }
  }
}
