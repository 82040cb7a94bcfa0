/**
 Crash isolation: a runner executes generated words in order and dies on a crashing one; the driver blames
 the first word without a result and restarts behind it.
 */
module NativeExec {

  /** What executing one word does: it returns a code, or the process dies (or hangs) in it. */
  datatype Behaviour = Returns(code: int) | Crashes

  type Words = nat -> Behaviour

  datatype Line = Line(word: nat, code: int)

  /** Index of the word the runner dies in, or the number of words when it reaches the end. */
  ghost function StopIndex(order: seq<nat>, run: Words, start: nat, from: nat): (s: nat)
    requires from <= |order|
    ensures from <= s <= |order|
    ensures s < |order| ==> order[s] >= start && run(order[s]).Crashes?
    ensures forall k :: from <= k < s && order[k] >= start ==> run(order[k]).Returns?
    decreases |order| - from
  {
    if from == |order| || (order[from] >= start && run(order[from]).Crashes?) then from
    else StopIndex(order, run, start, from + 1)
  }

  /** The lines of a run are exactly the results of the words at or above `start` before the stop. */
  ghost predicate AreLines(lines: seq<Line>, order: seq<nat>, run: Words, start: nat, stop: nat)
    requires stop <= |order|
  {
    && (forall l :: l in lines ==> run(l.word) == Returns(l.code) && l.word >= start && l.word in order[..stop])
    && (forall k :: 0 <= k < stop && order[k] >= start && run(order[k]).Returns? ==>
          Line(order[k], run(order[k]).code) in lines)
  }

  lemma NoLinesYet(order: seq<nat>, run: Words, start: nat)
    ensures AreLines([], order, run, start, 0)
  {
  }

  /** Going past one more word extends the lines by its own, if it is executed. */
  lemma LineAdded(lines: seq<Line>, order: seq<nat>, run: Words, start: nat, k: nat)
    requires k < |order| && AreLines(lines, order, run, start, k)
    requires order[k] >= start ==> run(order[k]).Returns?
    ensures order[k] < start ==> AreLines(lines, order, run, start, k + 1)
    ensures order[k] >= start ==> AreLines(lines + [Line(order[k], run(order[k]).code)], order, run, start, k + 1)
  {
  }

  /** The generated C runner: skip words below `start`, execute and print the others, stop dead on a crash. */
  method Runner(order: seq<nat>, run: Words, start: nat) returns (ok: bool, lines: seq<Line>)
    ensures AreLines(lines, order, run, start, StopIndex(order, run, start, 0))
    ensures ok <==> StopIndex(order, run, start, 0) == |order|
  {
    hide AreLines;
    lines := [];
    var k := 0;
    NoLinesYet(order, run, start);
    while k < |order|
      invariant 0 <= k <= |order| && StopIndex(order, run, start, 0) == StopIndex(order, run, start, k)
      invariant AreLines(lines, order, run, start, k)
    {
      var w := order[k];
      if w >= start && run(w).Crashes? {
        return false, lines;
      }
      LineAdded(lines, order, run, start, k);
      if w >= start {
        lines := lines + [Line(w, run(w).code)];
      }
      k := k + 1;
    }
    ok := true;
  }

  /** Both answers are right: exactly the crashing words are blamed, every other word has its own code. */
  ghost predicate Correct(order: seq<nat>, run: Words, result: map<nat, int>, crashed: set<nat>) {
    && (forall w :: w in crashed <==> w in order && run(w).Crashes?)
    && (forall w :: w in result <==> w in order && run(w).Returns?)
    && (forall w :: w in result ==> run(w) == Returns(result[w]))
  }

  /** What holds whatever the order: results are true, and no word is blamed that does not crash. */
  ghost predicate Honest(order: seq<nat>, run: Words, result: map<nat, int>, crashed: set<nat>) {
    && (forall w :: w in crashed ==> w in order && run(w).Crashes?)
    && (forall w :: w in result ==> w in order && run(w) == Returns(result[w]))
  }

  /** The word at `j` stands behind a larger crashing word at `i`, and not also before it. */
  ghost predicate Shadowed(order: seq<nat>, run: Words, i: nat, j: nat) {
    i < j < |order| && run(order[i]).Crashes? && order[j] < order[i] && order[j] !in order[..i]
  }

  /** No word first stands behind a larger crashing word. */
  ghost predicate CrashesAscend(order: seq<nat>, run: Words) {
    forall i: nat, j: nat :: !Shadowed(order, run, i, j)
  }

  /** The words are 16-bit opcodes. */
  ghost predicate SixteenBit(order: seq<nat>) {
    forall w :: w in order ==> w < 0x1_0000
  }

  ghost predicate Ascending(order: seq<nat>) {
    forall i, j :: 0 <= i < j < |order| ==> order[i] < order[j]
  }

  /** Every word below `start` has been accounted for. */
  ghost predicate HandledBelow(order: seq<nat>, run: Words, result: map<nat, int>, crashed: set<nat>, start: nat) {
    forall k :: 0 <= k < |order| && order[k] < start ==> order[k] in result || order[k] in crashed
  }

  /** A shadowed word is never reached. */
  ghost predicate ShadowedMissed(order: seq<nat>, run: Words, result: map<nat, int>, crashed: set<nat>) {
    forall i: nat, j: nat :: Shadowed(order, run, i, j) ==> order[j] !in result && order[j] !in crashed
  }

  /** The run's lines read into the result table. */
  method ReadLines(result: map<nat, int>, lines: seq<Line>, run: Words) returns (r: map<nat, int>)
    requires forall l :: l in lines ==> run(l.word) == Returns(l.code)
    requires forall w :: w in result ==> run(w) == Returns(result[w])
    ensures Merged(result, lines, r)
    ensures forall w :: w in r ==> run(w) == Returns(r[w])
  {
    r := result;
    for i := 0 to |lines|
      invariant Merged(result, lines[..i], r)
      invariant forall w :: w in r ==> run(w) == Returns(r[w])
    {
      assert lines[..i + 1] == lines[..i] + [lines[i]];
      assert lines[i] in lines;
      r := r[lines[i].word := lines[i].code];
    }
    assert lines[..|lines|] == lines;
  }

  /** The first word at or above `start` without a result. */
  method FirstPending(order: seq<nat>, result: map<nat, int>, start: nat) returns (index: nat)
    ensures index <= |order| && (index < |order| ==> order[index] >= start && order[index] !in result)
    ensures forall k :: 0 <= k < index && order[k] >= start ==> order[k] in result
  {
    index := 0;
    while index < |order| && !(order[index] >= start && order[index] !in result)
      invariant index <= |order| && forall k :: 0 <= k < index && order[k] >= start ==> order[k] in result
    {
      index := index + 1;
    }
  }

  /**
   `native_exec`. It ends, results are always true and only crashing words are blamed; the two answers are
   complete exactly when no word first stands behind a larger crashing word.
   `exitFails` is whether a run that executed everything can still report failure.
   */
  method NativeExec(order: seq<nat>, run: Words, exitFails: bool) returns (result: map<nat, int>, crashed: set<nat>)
    requires SixteenBit(order)
    ensures Honest(order, run, result, crashed)
    ensures Correct(order, run, result, crashed) <==> CrashesAscend(order, run)
  {
    hide AreLines, Correct, CrashesAscend, Honest, ShadowedMissed, HandledBelow, Shadowed, SixteenBit, Merged, RanUpTo,
      StopIndex, IsStop;
    result, crashed := map[], {};
    var start: nat := 0;
    NothingYet(order, run);
    while true
      invariant Honest(order, run, result, crashed) && ShadowedMissed(order, run, result, crashed)
      invariant start <= 0x1_0000
      invariant CrashesAscend(order, run) ==> HandledBelow(order, run, result, crashed, start)
      decreases 0x1_0000 - start
    {
      var ok, lines := Runner(order, run, start);
      ghost var stop := StopIndex(order, run, start, 0);
      ghost var before := result;
      StopIsStop(order, run, start);
      LinesAreTrue(lines, order, run, start, stop, result, crashed);
      result := ReadLines(result, lines, run);
      RunResult(order, run, start, before, lines, result, crashed, stop);
      var pending := FirstPending(order, result, start);
      PendingIsStop(order, run, start, result, stop, pending);
      if (ok && !exitFails) || pending == |order| {
        Finished(order, run, start, result, crashed);
        return;
      }
      Blamed(order, run, start, result, crashed, stop);
      crashed := crashed + {order[pending]};
      start := order[pending] + 1;
    }
  }

  lemma NothingYet(order: seq<nat>, run: Words)
    ensures Honest(order, run, map[], {}) && ShadowedMissed(order, run, map[], {})
    ensures HandledBelow(order, run, map[], {}, 0)
  {
  }

  lemma StopIsStop(order: seq<nat>, run: Words, start: nat)
    ensures IsStop(order, run, start, StopIndex(order, run, start, 0))
  {
  }

  /** The first pending word is the one the run stopped at. */
  lemma PendingIsStop(order: seq<nat>, run: Words, start: nat, result: map<nat, int>, stop: nat, pending: nat)
    requires IsStop(order, run, start, stop) && RanUpTo(order, start, result, stop)
    requires stop < |order| ==> order[stop] !in result
    requires pending <= |order| && (pending < |order| ==> order[pending] >= start && order[pending] !in result)
    requires forall k :: 0 <= k < pending && order[k] >= start ==> order[k] in result
    ensures pending == stop && (SixteenBit(order) && pending < |order| ==> start <= order[pending] < 0x1_0000)
  {
    assert pending < |order| ==> order[pending] in order;
  }

  lemma LinesAreTrue(lines: seq<Line>, order: seq<nat>, run: Words, start: nat, stop: nat, result: map<nat, int>, crashed: set<nat>)
    requires stop <= |order| && AreLines(lines, order, run, start, stop) && Honest(order, run, result, crashed)
    ensures forall l :: l in lines ==> run(l.word) == Returns(l.code)
    ensures forall w :: w in result ==> run(w) == Returns(result[w])
  {
  }

  ghost predicate Merged(before: map<nat, int>, lines: seq<Line>, after: map<nat, int>) {
    forall w :: w in after <==> w in before || (exists l :: l in lines && l.word == w)
  }

  /** All words at or above `start` before the stop have results. */
  ghost predicate RanUpTo(order: seq<nat>, start: nat, result: map<nat, int>, stop: nat)
    requires stop <= |order|
  {
    forall k :: 0 <= k < stop && order[k] >= start ==> order[k] in result
  }

  ghost predicate IsStop(order: seq<nat>, run: Words, start: nat, stop: nat) {
    && stop <= |order|
    && (stop < |order| ==> order[stop] >= start && run(order[stop]).Crashes?)
    && (forall k :: 0 <= k < stop && order[k] >= start ==> run(order[k]).Returns?)
  }

  /** A finished or dead run adds true results up to its stop and nothing that is shadowed. */
  lemma RunResult(order: seq<nat>, run: Words, start: nat, before: map<nat, int>, lines: seq<Line>,
                  after: map<nat, int>, crashed: set<nat>, stop: nat)
    requires IsStop(order, run, start, stop) && AreLines(lines, order, run, start, stop)
    requires Merged(before, lines, after) && forall w :: w in after ==> run(w) == Returns(after[w])
    requires Honest(order, run, before, crashed) && ShadowedMissed(order, run, before, crashed)
    ensures Honest(order, run, after, crashed) && ShadowedMissed(order, run, after, crashed)
    ensures RanUpTo(order, start, after, stop)
    ensures stop < |order| ==> order[stop] !in after
    ensures HandledBelow(order, run, before, crashed, start) ==> HandledBelow(order, run, after, crashed, start)
  {
  }

  /** When nothing is pending, the answers are complete exactly if no word was shadowed. */
  lemma Finished(order: seq<nat>, run: Words, start: nat, result: map<nat, int>, crashed: set<nat>)
    requires Honest(order, run, result, crashed) && ShadowedMissed(order, run, result, crashed)
    requires RanUpTo(order, start, result, |order|)
    requires CrashesAscend(order, run) ==> HandledBelow(order, run, result, crashed, start)
    ensures Correct(order, run, result, crashed) <==> CrashesAscend(order, run)
  {
  }

  /** Blaming the stop keeps all invariants and accounts for every word up to it. */
  lemma Blamed(order: seq<nat>, run: Words, start: nat, result: map<nat, int>, crashed: set<nat>, stop: nat)
    requires IsStop(order, run, start, stop) && stop < |order|
    requires Honest(order, run, result, crashed) && ShadowedMissed(order, run, result, crashed)
    requires RanUpTo(order, start, result, stop)
    requires CrashesAscend(order, run) ==> HandledBelow(order, run, result, crashed, start)
    ensures Honest(order, run, result, crashed + {order[stop]}) && ShadowedMissed(order, run, result, crashed + {order[stop]})
    ensures CrashesAscend(order, run) ==> HandledBelow(order, run, result, crashed + {order[stop]}, order[stop] + 1)
  {
    if CrashesAscend(order, run) {
      forall k | 0 <= k < |order| && order[k] < order[stop] + 1
        ensures order[k] in result || order[k] in crashed + {order[stop]}
      {
        assert !Shadowed(order, run, stop, k);
      }
    }
  }

  /** An input on which the answers are incomplete: behind the crashing word 2, the word 1 gets no answer. */
  lemma LargerCrashHides(run: Words)
    requires run(2).Crashes?
    ensures SixteenBit([2, 1]) && !CrashesAscend([2, 1], run)
  {
    assert Shadowed([2, 1], run, 0, 1);
  }

  /** The documented use, strictly ascending words: both answers are complete. */
  lemma AscendingIsEnough(order: seq<nat>, run: Words)
    requires Ascending(order)
    ensures CrashesAscend(order, run)
  {
  }
}
