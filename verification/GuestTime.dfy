/** The 44.1 kHz guest-time line: which machine tick an output frame falls on, and back. */
module GuestTime {

  const TPS: nat := 26846587500000   // machine ticks per second
  const RATE: nat := 44100

  function FrameTime(n: nat): nat {
    n / RATE * TPS + n % RATE * TPS / RATE
  }

  /** Splitting off whole seconds does not change the floor. */
  lemma FrameTimeIsFloor(n: nat)
    ensures FrameTime(n) == n * TPS / RATE
  {
  }

  lemma FrameTimeMonotone(m: nat, n: nat)
    requires m <= n
    ensures FrameTime(m) <= FrameTime(n)
    ensures m < n ==> FrameTime(m) + TPS / RATE <= FrameTime(n)
  {
  }

  /** `first_frame_at_or_after`: binary search for the least frame not before `tick`. */
  method FirstFrameAtOrAfter(tick: nat) returns (frame: nat)
    ensures FrameTime(frame) >= tick
    ensures forall n: nat :: n < frame <==> FrameTime(n) < tick
  {
    var lo: nat, hi: nat := 0, tick / (TPS / RATE) + 4;
    BracketSuffices(tick);
    while lo < hi
      invariant lo <= hi
      invariant FrameTime(hi) >= tick
      invariant forall n: nat :: n < lo ==> FrameTime(n) < tick
    {
      var mid := (lo + hi) / 2;
      if FrameTime(mid) >= tick {
        hi := mid;
      } else {
        forall n: nat | n < mid + 1 ensures FrameTime(n) < tick {
          FrameTimeMonotone(n, mid);
        }
        lo := mid + 1;
      }
    }
    forall n: nat | n >= lo ensures FrameTime(n) >= tick {
      FrameTimeMonotone(lo, n);
    }
    frame := lo;
  }

  lemma BracketSuffices(tick: nat)
    ensures FrameTime(tick / (TPS / RATE) + 4) >= tick
  {
  }
}
