/** Shared vocabulary. */
module Basics {

  datatype Option<+T> = None | Some(value: T)

  type Byte = b: int | 0 <= b < 256

  function LowByte(v: nat): Byte { v % 256 }

  ghost predicate Distinct<T>(s: seq<T>) {
    forall i, j :: 0 <= i < j < |s| ==> s[i] != s[j]
  }

  ghost predicate AllBelow(s: seq<nat>, bound: nat) {
    forall x :: x in s ==> x < bound
  }

  /** Bit `k` of a number, the least significant one first. */
  function Bit(v: nat, k: nat): bool {
    if k == 0 then v % 2 == 1 else Bit(v / 2, k - 1)
  }

  function Pow2(n: nat): (p: nat)
    ensures p > 0
  {
    if n == 0 then 1 else 2 * Pow2(n - 1)
  }

  lemma {:induction false} BitIs(v: nat, k: nat)
    ensures Bit(v, k) <==> v / Pow2(k) % 2 == 1
    decreases k
  {
    if k > 0 {
      BitIs(v / 2, k - 1);
      DivideTwice(v, Pow2(k - 1));
    }
  }

  lemma DivideTwice(a: nat, b: nat)
    requires b > 0
    ensures a / (2 * b) == a / 2 / b
  {
    var q, r := a / 2 / b, a / 2 % b;
    assert a / 2 == q * b + r;
    var rest := 2 * r + a % 2;
    assert a == q * (2 * b) + rest && 0 <= rest < 2 * b;
    QuotientIs(a, 2 * b, q, rest);
  }

  lemma QuotientIs(a: nat, b: nat, q: nat, r: nat)
    requires b > 0 && a == q * b + r && r < b
    ensures a / b == q
  {
    var p := a / b;
    assert a == p * b + a % b;
    TimesKeepsOrder(p + 1, q, b);
    TimesKeepsOrder(q + 1, p, b);
  }

  lemma TimesKeepsOrder(a: nat, b: nat, c: nat)
    ensures a <= b ==> a * c <= b * c
  {
  }
}
