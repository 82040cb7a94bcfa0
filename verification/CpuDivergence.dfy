/**
 Lockstep comparison of two MC68000 boundary streams. Within a boundary the order of writes to different
 destinations is forgotten; proved here: exactly when such writes do not conflict, nothing is lost by it.
 */
module CpuDivergence {
  import opened Basics
  import opened Numerals
  import opened KeyedTrace
  import opened FieldDiff

  /** A recorded effect: a memory write of `width` bytes, or an exception entry. */
  datatype Effect =
    | Write(width: nat, address: nat, value: nat)
    | Trap(handler: nat, vector: nat)

  /** The state after one retired instruction, and what it did. */
  datatype Record = Record(
    boundary: int, pc: nat, sr: nat, usp: nat, ssp: Option<nat>,
    d: seq<nat>, a: seq<nat>, unsupported: bool, effects: seq<Effect>)

  predicate WellFormed(r: Record) { |r.d| == |r.a| == 8 }

  type Stream = s: seq<Record> | forall i :: 0 <= i < |s| ==> WellFormed(s[i])

  datatype EffectView = Value(value: nat) | Entry(handler: nat, vector: nat)

  function AddressText(a: nat): string { Padded(Render(a, UPPER_HEX), 8) }

  function WidthText(w: nat): string { "w" + Render(w, DECIMAL) }

  function EffectKey(e: Effect): string {
    match e
    case Write(w, a, _) => "write@" + AddressText(a) + "/" + WidthText(w)
    case Trap(_, _) => "trap"
  }

  function ViewOf(e: Effect): EffectView {
    match e
    case Write(_, _, v) => Value(v)
    case Trap(h, v) => Entry(h, v)
  }

  ghost predicate Plain(s: string) { '#' !in s && '/' !in s }

  lemma {:induction false} NumeralsArePlain(s: string, alpha: string)
    requires DigitsOf(s, alpha) && Plain(alpha)
    ensures Plain(s)
  {
  }

  lemma {:induction false} PaddingIsPlain(s: string, width: nat)
    requires Plain(s)
    ensures Plain(Padded(s, width))
    decreases width - |s|
  {
    if |s| < width {
      PaddingIsPlain("0" + s, width);
    }
  }

  lemma TextsArePlain(a: nat, w: nat)
    ensures Plain(AddressText(a)) && Plain(WidthText(w))
  {
    NumeralsArePlain(Render(a, UPPER_HEX), UPPER_HEX);
    PaddingIsPlain(Render(a, UPPER_HEX), 8);
    NumeralsArePlain(Render(w, DECIMAL), DECIMAL);
  }

  lemma TextsAreInjective(a: nat, b: nat, w: nat, x: nat)
    ensures AddressText(a) == AddressText(b) ==> a == b
    ensures WidthText(w) == WidthText(x) ==> w == x
  {
    hide Render, Padded, Parse, DigitsOf;
    if AddressText(a) == AddressText(b) {
      PaddedInjective(a, b, 8, UPPER_HEX);
    }
    assert WidthText(w)[1..] == Render(w, DECIMAL) && WidthText(x)[1..] == Render(x, DECIMAL);
    ParseRender(w, DECIMAL);
    ParseRender(x, DECIMAL);
  }

  lemma KeyIsClean(e: Effect)
    ensures NoHash(EffectKey(e))
  {
    hide AddressText, WidthText;
    if e.Write? {
      TextsArePlain(e.address, e.width);
    }
  }

  /** Addresses are at least eight hex digits that read as the address; widths read as decimal. */
  lemma TextsRead(a: nat, w: nat)
    ensures |AddressText(a)| >= 8 && DigitsOf(AddressText(a), UPPER_HEX) && Parse(AddressText(a), UPPER_HEX) == a
    ensures WidthText(w)[0] == 'w' && DigitsOf(WidthText(w)[1..], DECIMAL) && Parse(WidthText(w)[1..], DECIMAL) == w
  {
    hide Render, Padded, Parse, DigitsOf;
    ParseRender(a, UPPER_HEX);
    ParsePadded(Render(a, UPPER_HEX), 8, UPPER_HEX);
    ParseRender(w, DECIMAL);
    assert WidthText(w)[1..] == Render(w, DECIMAL);
  }

  /** The key text determines kind, address and width. */
  lemma KeyIsInjective(e: Effect, f: Effect)
    requires EffectKey(e) == EffectKey(f)
    ensures e.Write? <==> f.Write?
    ensures e.Write? ==> e.address == f.address && e.width == f.width
  {
    hide AddressText, WidthText;
    assert EffectKey(e)[0] == EffectKey(f)[0];
    if e.Write? {
      TextsArePlain(e.address, e.width);
      TextsArePlain(f.address, f.width);
      var p, q := AddressText(e.address) + "/" + WidthText(e.width), AddressText(f.address) + "/" + WidthText(f.width);
      assert p == EffectKey(e)[6..] == EffectKey(f)[6..] == q;
      SplitAtSlash(AddressText(e.address), AddressText(f.address), WidthText(e.width), WidthText(f.width));
      TextsAreInjective(e.address, f.address, e.width, f.width);
    }
  }

  /** A text before the first slash and the text behind it can be told apart. */
  lemma SplitAtSlash(p: string, q: string, u: string, v: string)
    requires Plain(p) && Plain(q) && p + "/" + u == q + "/" + v
    ensures p == q && u == v
  {
    var s, t := p + "/" + u, q + "/" + v;
    assert s[|p|] == '/' && t[|q|] == '/';
    assert forall i :: 0 <= i < |p| ==> s[i] == p[i];
    assert forall i :: 0 <= i < |q| ==> t[i] == q[i];
    assert |p| == |q|;
    assert p == s[..|p|] == t[..|q|] == q;
    assert u == s[|p| + 1..] == t[|q| + 1..] == v;
  }

  /** Key and view together are the whole effect. */
  lemma KeyAndViewAreTheEffect(e: Effect, f: Effect)
    ensures EffectKey(e) == EffectKey(f) && ViewOf(e) == ViewOf(f) <==> e == f
  {
    hide EffectKey;
    if EffectKey(e) == EffectKey(f) {
      KeyIsInjective(e, f);
    }
  }

  // ----- replaying effects on memory -----------------------------------------------------------------

  type Memory = map<nat, nat>

  predicate Covers(e: Effect, x: nat) {
    e.Write? && e.address <= x < e.address + e.width
  }

  /** The byte a covering write puts at `x`: big-endian within its width. */
  function ByteAt(e: Effect, x: nat): nat
    requires Covers(e, x)
  {
    e.value / Power(256, e.address + e.width - 1 - x) % 256
  }

  /** The number the first n bytes of a write make, most significant first. */
  ghost function Assembled(e: Effect, n: nat): nat
    requires e.Write? && n <= e.width
  {
    if n == 0 then 0 else Assembled(e, n - 1) * 256 + ByteAt(e, e.address + n - 1)
  }

  lemma {:induction false} AssembledIs(e: Effect, n: nat)
    requires e.Write? && n <= e.width && e.value < Power(256, e.width)
    ensures Assembled(e, n) == e.value / Power(256, e.width - n)
    decreases n
  {
    hide Power;
    if n == 0 {
      BelowOne(e.value, Power(256, e.width));
    } else {
      AssembledIs(e, n - 1);
      PowerStep(256, e.width - n);
      DivideAgain(e.value, Power(256, e.width - n), 256);
    }
  }

  lemma BelowOne(a: nat, b: nat)
    requires a < b
    ensures a / b == 0
  {
    QuotientIs(a, b, 0, a);
  }

  lemma PowerStep(base: nat, e: nat)
    ensures Power(base, e + 1) == base * Power(base, e)
  {
  }

  lemma DivideAgain(a: nat, b: nat, c: nat)
    requires b > 0 && c > 0
    ensures c * b > 0 && a / (c * b) == a / b / c
  {
    var q, r := a / b / c, a / b % c;
    assert a / b == q * c + r;
    var rest := r * b + a % b;
    assert a == a / b * b + a % b;
    assert (q * c + r) * b == q * (c * b) + r * b;
    assert r * b + a % b < (r + 1) * b;
    TimesKeepsOrder(r + 1, c, b);
    QuotientIs(a, c * b, q, rest);
  }

  /** A write puts the bytes of its value, most significant first. */
  lemma WriteIsBigEndian(e: Effect)
    requires e.Write? && e.value < Power(256, e.width)
    ensures Assembled(e, e.width) == e.value
  {
    AssembledIs(e, e.width);
  }

  function Perform(mem: Memory, e: Effect): Memory {
    match e
    case Trap(_, _) => mem
    case Write(w, a, _) =>
      map x: nat | x in mem.Keys + (set y: nat | a <= y < a + w && Covers(e, y)) :: if Covers(e, x) then ByteAt(e, x) else mem[x]
  }

  function Replay(mem: Memory, effects: seq<Effect>): Memory {
    if effects == [] then mem
    else Perform(Replay(mem, effects[..|effects| - 1]), effects[|effects| - 1])
  }

  /** The byte the last covering write leaves at `x`. */
  ghost function LastByte(effects: seq<Effect>, x: nat): Option<nat> {
    if effects == [] then None
    else
      var last := effects[|effects| - 1];
      if Covers(last, x) then Some(ByteAt(last, x)) else LastByte(effects[..|effects| - 1], x)
  }

  /** Replay is the last writer at every byte. */
  lemma {:induction false} ReplayIsLastByte(mem: Memory, effects: seq<Effect>, x: nat)
    ensures var m := Replay(mem, effects);
      match LastByte(effects, x)
      case Some(b) => x in m && m[x] == b
      case None => (x in m <==> x in mem) && (x in mem ==> m[x] == mem[x])
    decreases |effects|
  {
    hide Power;
    if effects != [] {
      ReplayIsLastByte(mem, effects[..|effects| - 1], x);
    }
  }

  /** Writes to different (address, width) destinations touch disjoint bytes. */
  ghost predicate NoOverlap(effects: seq<Effect>) {
    forall i, j, x: nat :: 0 <= i < |effects| && 0 <= j < |effects| && Covers(effects[i], x) && Covers(effects[j], x) ==>
      EffectKey(effects[i]) == EffectKey(effects[j])
  }

  /** No later effect has the destination of effect i. */
  ghost predicate LastOfKey(effects: seq<Effect>, i: nat)
    requires i < |effects|
  {
    forall k :: i < k < |effects| ==> EffectKey(effects[k]) != EffectKey(effects[i])
  }

  ghost predicate FinalCover(effects: seq<Effect>, i: nat, x: nat) {
    i < |effects| && Covers(effects[i], x) && LastOfKey(effects, i)
  }

  /** Wherever final writes to different destinations meet, they put the same byte. */
  ghost predicate NoConflict(effects: seq<Effect>) {
    forall i: nat, j: nat, x: nat :: FinalCover(effects, i, x) && FinalCover(effects, j, x) ==>
      ByteAt(effects[i], x) == ByteAt(effects[j], x)
  }

  lemma NoOverlapNoConflict(effects: seq<Effect>)
    requires NoOverlap(effects)
    ensures NoConflict(effects)
  {
    hide EffectKey, ByteAt, Covers;
    forall i: nat, j: nat, x: nat | FinalCover(effects, i, x) && FinalCover(effects, j, x)
      ensures ByteAt(effects[i], x) == ByteAt(effects[j], x)
    {
      assert EffectKey(effects[i]) == EffectKey(effects[j]);
    }
  }

  /** The byte at `x` comes from a final write, if any write covers it. */
  lemma {:induction false} LastByteIsFinal(effects: seq<Effect>, x: nat) returns (i: nat)
    ensures LastByte(effects, x).Some? ==> FinalCover(effects, i, x) && LastByte(effects, x).value == ByteAt(effects[i], x)
    ensures LastByte(effects, x).None? <==> forall j :: 0 <= j < |effects| ==> !Covers(effects[j], x)
    decreases |effects|
  {
    hide EffectKey, ByteAt;
    i := 0;
    if effects != [] {
      var n := |effects| - 1;
      if Covers(effects[n], x) {
        i := n;
      } else {
        i := LastByteIsFinal(effects[..n], x);
        if LastByte(effects, x).Some? {
          SameKeySameCover(effects[i], effects[n], x);
        }
      }
    }
  }

  lemma SameKeySameCover(e: Effect, f: Effect, x: nat)
    ensures EffectKey(e) == EffectKey(f) ==> (Covers(e, x) <==> Covers(f, x))
  {
    hide EffectKey;
    if EffectKey(e) == EffectKey(f) {
      KeyIsInjective(e, f);
    }
  }

  /** A final write is the last of its key's sequence. */
  lemma {:induction false} FinalIsLast(effects: seq<Effect>, i: nat)
    requires i < |effects| && LastOfKey(effects, i)
    ensures var under := Of(effects, EffectKey, EffectKey(effects[i])); under != [] && under[|under| - 1] == effects[i]
    decreases |effects|
  {
    hide EffectKey;
    if i < |effects| - 1 {
      FinalIsLast(effects[..|effects| - 1], i);
    }
  }

  /** Every key that occurs has a final effect. */
  lemma {:induction false} SomeFinal(effects: seq<Effect>, k: string) returns (i: nat)
    requires Of(effects, EffectKey, k) != []
    ensures i < |effects| && LastOfKey(effects, i) && EffectKey(effects[i]) == k
    decreases |effects|
  {
    hide EffectKey;
    i := |effects| - 1;
    if EffectKey(effects[i]) != k {
      i := SomeFinal(effects[..i], k);
    }
  }

  lemma {:induction false} OfIsMember(effects: seq<Effect>, k: string, i: nat)
    requires i < |Of(effects, EffectKey, k)|
    ensures Of(effects, EffectKey, k)[i] in effects && EffectKey(Of(effects, EffectKey, k)[i]) == k
    decreases |effects|
  {
    hide EffectKey;
    if effects != [] && i < |Of(effects[..|effects| - 1], EffectKey, k)| {
      OfIsMember(effects[..|effects| - 1], k, i);
    }
  }

  /** Key-by-key equal lists cover the same bytes, under the same single destination. */
  lemma CoverCarries(g: seq<Effect>, o: seq<Effect>, j: nat, x: nat)
    requires SameByKey(g, o, EffectKey, ViewOf) && j < |o| && Covers(o[j], x)
    ensures exists i :: 0 <= i < |g| && Covers(g[i], x) && EffectKey(g[i]) == EffectKey(o[j])
  {
    hide EffectKey;
    var k := EffectKey(o[j]);
    KeyIsClean(o[j]);
    PlaceOf(o, EffectKey, j);
    assert SameUnder(g, o, EffectKey, ViewOf, k);
    assert |Views(Of(g, EffectKey, k), ViewOf)| == |Views(Of(o, EffectKey, k), ViewOf)|;
    OfIsMember(g, k, 0);
    var e := Of(g, EffectKey, k)[0];
    KeyIsInjective(e, o[j]);
    var i :| 0 <= i < |g| && g[i] == e;
  }

  /** One boundary: forgetting the order between destinations that do not conflict loses nothing. */
  lemma SameByKeySameByte(g: seq<Effect>, o: seq<Effect>, x: nat)
    requires SameByKey(g, o, EffectKey, ViewOf) && NoConflict(g)
    ensures LastByte(g, x) == LastByte(o, x)
  {
    hide EffectKey, LastByte, ByteAt, Covers, LastOfKey;
    var i := LastByteIsFinal(g, x);
    var j := LastByteIsFinal(o, x);
    if LastByte(o, x).Some? {
      CoverCarries(g, o, j, x);
      var f := FinalCarries(g, o, j, x);
    } else if LastByte(g, x).Some? {
      SameByKeyTurns(g, o);
      CoverCarries(o, g, i, x);
    }
  }

  lemma SameByKeyTurns(g: seq<Effect>, o: seq<Effect>)
    requires SameByKey(g, o, EffectKey, ViewOf)
    ensures SameByKey(o, g, EffectKey, ViewOf)
  {
    hide EffectKey, ViewOf;
    forall k | NoHash(k) ensures SameUnder(o, g, EffectKey, ViewOf, k) {
      assert SameUnder(g, o, EffectKey, ViewOf, k);
    }
  }

  /** A final write of one list has a final counterpart with the same bytes in the other. */
  lemma FinalCarries(g: seq<Effect>, o: seq<Effect>, j: nat, x: nat) returns (i: nat)
    requires SameByKey(g, o, EffectKey, ViewOf) && FinalCover(o, j, x)
    ensures FinalCover(g, i, x) && ByteAt(g[i], x) == ByteAt(o[j], x)
  {
    hide EffectKey, ByteAt, Covers;
    var k := EffectKey(o[j]);
    KeyIsClean(o[j]);
    FinalIsLast(o, j);
    assert SameUnder(g, o, EffectKey, ViewOf, k);
    assert |Views(Of(g, EffectKey, k), ViewOf)| == |Views(Of(o, EffectKey, k), ViewOf)|;
    i := SomeFinal(g, k);
    FinalIsLast(g, i);
    SameKeySameCover(g[i], o[j], x);
    SameLastView(g, o, k, x, o[j]);
  }

  lemma SameLastView(g: seq<Effect>, o: seq<Effect>, k: string, x: nat, e: Effect)
    requires SameByKey(g, o, EffectKey, ViewOf) && NoHash(k) && Covers(e, x) && EffectKey(e) == k
    requires Of(g, EffectKey, k) != []
    ensures var gs, os := Of(g, EffectKey, k), Of(o, EffectKey, k);
      && |gs| == |os| && Covers(gs[|gs| - 1], x) && Covers(os[|os| - 1], x)
      && ByteAt(gs[|gs| - 1], x) == ByteAt(os[|os| - 1], x)
  {
    hide EffectKey, Covers, ByteAt, ViewOf, Of;
    SameLastOfKey(g, o, k);
    LastHasKey(g, k);
    LastHasKey(o, k);
    var gs, os := Of(g, EffectKey, k), Of(o, EffectKey, k);
    SameKeySameCover(e, gs[|gs| - 1], x);
    SameKeySameByte(gs[|gs| - 1], os[|os| - 1], x);
  }

  /** Lists that agree key by key have equally many effects under a key, and the last ones show the same view. */
  lemma SameLastOfKey(g: seq<Effect>, o: seq<Effect>, k: string)
    requires SameByKey(g, o, EffectKey, ViewOf) && NoHash(k) && Of(g, EffectKey, k) != []
    ensures var gs, os := Of(g, EffectKey, k), Of(o, EffectKey, k);
      |gs| == |os| && ViewOf(gs[|gs| - 1]) == ViewOf(os[|os| - 1])
  {
    hide EffectKey, ViewOf, Of;
    var gs, os := Of(g, EffectKey, k), Of(o, EffectKey, k);
    assert SameUnder(g, o, EffectKey, ViewOf, k);
    assert |Views(gs, ViewOf)| == |Views(os, ViewOf)|;
    assert Views(gs, ViewOf)[|gs| - 1] == Views(os, ViewOf)[|gs| - 1];
  }

  lemma LastHasKey(effects: seq<Effect>, k: string)
    requires Of(effects, EffectKey, k) != []
    ensures var under := Of(effects, EffectKey, k); EffectKey(under[|under| - 1]) == k
  {
    hide EffectKey, Of;
    OfIsMember(effects, k, |Of(effects, EffectKey, k)| - 1);
  }

  /** The key and the view of a write determine the bytes it puts. */
  lemma SameKeySameByte(e: Effect, f: Effect, x: nat)
    requires Covers(e, x) && EffectKey(e) == EffectKey(f) && ViewOf(e) == ViewOf(f)
    ensures Covers(f, x) && ByteAt(e, x) == ByteAt(f, x)
  {
    hide EffectKey, ByteAt;
    KeyIsInjective(e, f);
    assert e == f;
  }

  lemma BoundaryCommutes(mem: Memory, g: seq<Effect>, o: seq<Effect>)
    requires SameByKey(g, o, EffectKey, ViewOf) && NoConflict(g)
    ensures Replay(mem, g) == Replay(mem, o)
  {
    hide LastByte, EffectKey, Perform;
    forall x: nat
      ensures x in Replay(mem, g) <==> x in Replay(mem, o)
      ensures x in Replay(mem, g) ==> Replay(mem, g)[x] == Replay(mem, o)[x]
    {
      SameByKeySameByte(g, o, x);
      ReplayIsLastByte(mem, g, x);
      ReplayIsLastByte(mem, o, x);
    }
  }

  /** The list with all effects of key `k` moved behind the others. */
  ghost function Others(effects: seq<Effect>, k: string): seq<Effect> {
    if effects == [] then []
    else
      var last := effects[|effects| - 1];
      Others(effects[..|effects| - 1], k) + if EffectKey(last) == k then [] else [last]
  }

  ghost function MovedLast(effects: seq<Effect>, k: string): seq<Effect> {
    Others(effects, k) + Of(effects, EffectKey, k)
  }

  lemma {:induction false} OfJoins(a: seq<Effect>, b: seq<Effect>, k: string)
    ensures Of(a + b, EffectKey, k) == Of(a, EffectKey, k) + Of(b, EffectKey, k)
    decreases |b|
  {
    hide EffectKey;
    if b == [] {
      assert a + b == a;
    } else {
      var n := |b| - 1;
      assert a + b == (a + b[..n]) + [b[n]];
      OfSnoc(a + b[..n], b[n], EffectKey, k);
      OfJoins(a, b[..n], k);
    }
  }

  /** What is under each key in the two parts of the moved list. */
  lemma {:induction false} OfOthers(effects: seq<Effect>, moved: string, k: string)
    ensures Of(Others(effects, moved), EffectKey, k) == if k == moved then [] else Of(effects, EffectKey, k)
    decreases |effects|
  {
    hide EffectKey;
    if effects != [] {
      var n := |effects| - 1;
      OfOthers(effects[..n], moved, k);
      OfSnoc(Others(effects[..n], moved), effects[n], EffectKey, k);
      assert Others(effects[..n], moved) + [] == Others(effects[..n], moved);
    }
  }

  lemma {:induction false} OfOf(effects: seq<Effect>, moved: string, k: string)
    ensures Of(Of(effects, EffectKey, moved), EffectKey, k) == if k == moved then Of(effects, EffectKey, k) else []
    decreases |effects|
  {
    hide EffectKey;
    if effects != [] {
      var n := |effects| - 1;
      OfOf(effects[..n], moved, k);
      OfSnoc(Of(effects[..n], EffectKey, moved), effects[n], EffectKey, k);
      assert Of(effects[..n], EffectKey, moved) + [] == Of(effects[..n], EffectKey, moved);
    }
  }

  /** Moving one destination's effects to the end is invisible to the comparison and makes its final write win. */
  lemma MovedLastWins(effects: seq<Effect>, i: nat, x: nat)
    requires FinalCover(effects, i, x)
    ensures var moved := MovedLast(effects, EffectKey(effects[i]));
      SameByKey(effects, moved, EffectKey, ViewOf) && LastByte(moved, x) == Some(ByteAt(effects[i], x))
  {
    hide EffectKey, ByteAt, Others;
    var key := EffectKey(effects[i]);
    var moved := MovedLast(effects, key);
    forall k | NoHash(k) ensures SameUnder(effects, moved, EffectKey, ViewOf, k) {
      OfJoins(Others(effects, key), Of(effects, EffectKey, key), k);
      OfOthers(effects, key, k);
      OfOf(effects, key, k);
      assert Of(moved, EffectKey, k) == Of(effects, EffectKey, k);
    }
    FinalIsLast(effects, i);
  }

  /** Some reordering the comparison accepts leaves another memory. */
  ghost predicate OrderMatters(g: seq<Effect>) {
    exists o, mem: Memory :: SameByKey(g, o, EffectKey, ViewOf) && Replay(mem, g) != Replay(mem, o)
  }

  /** Forgetting the order of destinations is sound for a boundary exactly when its final writes do not conflict. */
  lemma OrderMattersIffConflict(g: seq<Effect>)
    ensures OrderMatters(g) <==> !NoConflict(g)
  {
    hide EffectKey, ByteAt, Perform, Others;
    if NoConflict(g) {
      forall o, mem: Memory | SameByKey(g, o, EffectKey, ViewOf) ensures Replay(mem, g) == Replay(mem, o) {
        BoundaryCommutes(mem, g, o);
      }
    } else {
      var i: nat, j: nat, x: nat :| FinalCover(g, i, x) && FinalCover(g, j, x) && ByteAt(g[i], x) != ByteAt(g[j], x);
      MovedLastWins(g, i, x);
      MovedLastWins(g, j, x);
      var p, q := MovedLast(g, EffectKey(g[i])), MovedLast(g, EffectKey(g[j]));
      ReplayIsLastByte(map[], p, x);
      ReplayIsLastByte(map[], q, x);
      assert Replay(map[], p) != Replay(map[], q);
      assert Replay(map[], g) != Replay(map[], p) || Replay(map[], g) != Replay(map[], q);
    }
  }

  /** Two overlapping destinations show why the condition is needed: the views agree, the memories do not. */
  lemma OverlapMatters()
    ensures var g, o := [Write(2, 0, 0x0102), Write(1, 0, 7)], [Write(1, 0, 7), Write(2, 0, 0x0102)];
      && SameByKey(g, o, EffectKey, ViewOf)
      && Replay(map[], g) != Replay(map[], o)
  {
    var u, v := Write(2, 0, 0x0102), Write(1, 0, 7);
    var g, o := [u, v], [v, u];
    if EffectKey(u) == EffectKey(v) {
      KeyIsInjective(u, v);
    }
    forall k | NoHash(k) ensures SameUnder(g, o, EffectKey, ViewOf, k) {
      hide EffectKey;
      assert g == [u] + [v] && o == [v] + [u];
      OfSnoc([u], v, EffectKey, k);
      OfSnoc([v], u, EffectKey, k);
      OfSnoc([], u, EffectKey, k);
      OfSnoc([], v, EffectKey, k);
      assert [] + [u] == [u] && [] + [v] == [v];
    }
    assert LastByte(g, 0) == Some(7);
    assert Power(256, 1) == 256;
    assert LastByte(o, 0) == Some(1);
    ReplayIsLastByte(map[], g, 0);
    ReplayIsLastByte(map[], o, 0);
  }

  // ----- key-by-key agreement in terms of the effects -------------------------------------------------

  /** The writes of `width` bytes to an address, in order. */
  ghost function WritesTo(effects: seq<Effect>, address: nat, width: nat): seq<Effect> {
    if effects == [] then []
    else
      var last := effects[|effects| - 1];
      WritesTo(effects[..|effects| - 1], address, width)
      + if last.Write? && last.address == address && last.width == width then [last] else []
  }

  ghost function Traps(effects: seq<Effect>): seq<Effect> {
    if effects == [] then []
    else
      var last := effects[|effects| - 1];
      Traps(effects[..|effects| - 1]) + if last.Trap? then [last] else []
  }

  ghost function LikeIt(effects: seq<Effect>, e: Effect): seq<Effect> {
    if e.Write? then WritesTo(effects, e.address, e.width) else Traps(effects)
  }

  /** Every destination sees the same writes in the same order, and the exceptions are the same. */
  ghost predicate SameEffects(g: seq<Effect>, o: seq<Effect>) {
    && (forall address: nat, width: nat :: WritesTo(g, address, width) == WritesTo(o, address, width))
    && Traps(g) == Traps(o)
  }

  lemma {:induction false} OfIsLikeIt(effects: seq<Effect>, e: Effect)
    ensures Of(effects, EffectKey, EffectKey(e)) == LikeIt(effects, e)
    decreases |effects|
  {
    hide EffectKey;
    if effects != [] {
      var last := effects[|effects| - 1];
      OfIsLikeIt(effects[..|effects| - 1], e);
      SameKeyIsLike(last, e);
    }
  }

  lemma SameKeyIsLike(e: Effect, f: Effect)
    ensures EffectKey(e) == EffectKey(f)
      <==> (if f.Write? then e.Write? && e.address == f.address && e.width == f.width else e.Trap?)
  {
    hide AddressText, WidthText;
    if EffectKey(e) == EffectKey(f) {
      KeyIsInjective(e, f);
    }
  }

  /** Under one key, equal views mean equal effects. */
  lemma SameUnderIsSame(g: seq<Effect>, o: seq<Effect>, k: string)
    ensures SameUnder(g, o, EffectKey, ViewOf, k) <==> Of(g, EffectKey, k) == Of(o, EffectKey, k)
  {
    hide EffectKey, ViewOf, Of;
    var gs, os := Of(g, EffectKey, k), Of(o, EffectKey, k);
    if SameUnder(g, o, EffectKey, ViewOf, k) {
      assert |Views(gs, ViewOf)| == |Views(os, ViewOf)|;
      forall i | 0 <= i < |gs| ensures gs[i] == os[i] {
        assert Views(gs, ViewOf)[i] == Views(os, ViewOf)[i];
        OfIsMember(g, k, i);
        OfIsMember(o, k, i);
        KeyAndViewAreTheEffect(gs[i], os[i]);
      }
    }
  }

  lemma {:induction false} OfStrangeKey(effects: seq<Effect>, k: string)
    requires forall e: Effect :: EffectKey(e) != k
    ensures Of(effects, EffectKey, k) == []
    decreases |effects|
  {
    hide EffectKey;
    if effects != [] {
      OfStrangeKey(effects[..|effects| - 1], k);
    }
  }

  /** The keyed comparison sees a difference exactly when some destination's writes or the exceptions differ. */
  lemma SameByKeyIsSameEffects(g: seq<Effect>, o: seq<Effect>)
    ensures SameByKey(g, o, EffectKey, ViewOf) <==> SameEffects(g, o)
  {
    hide EffectKey, ViewOf, Of, SameUnder, WritesTo, Traps;
    if SameByKey(g, o, EffectKey, ViewOf) {
      forall e: Effect ensures LikeIt(g, e) == LikeIt(o, e) {
        KeyIsClean(e);
        SameUnderIsSame(g, o, EffectKey(e));
        OfIsLikeIt(g, e);
        OfIsLikeIt(o, e);
      }
      forall address: nat, width: nat ensures WritesTo(g, address, width) == WritesTo(o, address, width) {
        assert LikeIt(g, Write(width, address, 0)) == LikeIt(o, Write(width, address, 0));
      }
      assert LikeIt(g, Trap(0, 0)) == LikeIt(o, Trap(0, 0));
    }
    if SameEffects(g, o) {
      forall k | NoHash(k) ensures SameUnder(g, o, EffectKey, ViewOf, k) {
        SameUnderIsSame(g, o, k);
        if e: Effect :| EffectKey(e) == k {
          OfIsLikeIt(g, e);
          OfIsLikeIt(o, e);
        } else {
          OfStrangeKey(g, k);
          OfStrangeKey(o, k);
        }
      }
    }
  }

  // ----- field differences -----------------------------------------------------------------------------

  /** A reported difference: a register pair, or an effect key. */
  datatype Diff =
    | Scalar(name: string, generated: nat, oracle: nat)
    | OfEffect(field: Field<EffectView>)

  /** All compared registers in report order; the supervisor stack only when both records carry it. */
  function Scalars(g: Record, o: Record): seq<Diff>
    requires WellFormed(g) && WellFormed(o)
  {
    seq(8, i requires 0 <= i < 8 => Scalar("d" + Render(i, DECIMAL), g.d[i], o.d[i]))
    + seq(8, i requires 0 <= i < 8 => Scalar("a" + Render(i, DECIMAL), g.a[i], o.a[i]))
    + [Scalar("usp", g.usp, o.usp)]
    + (if g.ssp.Some? && o.ssp.Some? then [Scalar("ssp", g.ssp.value, o.ssp.value)] else [])
    + [Scalar("sr", g.sr, o.sr), Scalar("pc", g.pc, o.pc)]
  }

  function Mismatches(s: seq<Diff>): seq<Diff>
    requires forall i :: 0 <= i < |s| ==> s[i].Scalar?
  {
    if s == [] then []
    else
      var last := s[|s| - 1];
      Mismatches(s[..|s| - 1]) + if last.generated != last.oracle then [last] else []
  }

  ghost predicate SameRegisters(g: Record, o: Record) {
    && g.d == o.d && g.a == o.a && g.usp == o.usp && g.sr == o.sr && g.pc == o.pc
    && (g.ssp.Some? && o.ssp.Some? ==> g.ssp == o.ssp)
  }

  ghost predicate SameRecord(g: Record, o: Record) {
    SameRegisters(g, o) && SameEffects(g.effects, o.effects)
  }

  lemma {:induction false} NoMismatch(s: seq<Diff>)
    requires forall i :: 0 <= i < |s| ==> s[i].Scalar?
    ensures Mismatches(s) == [] <==> forall i :: 0 <= i < |s| ==> s[i].generated == s[i].oracle
    decreases |s|
  {
    if s != [] {
      NoMismatch(s[..|s| - 1]);
    }
  }

  lemma NoMismatchIsSameRegisters(g: Record, o: Record)
    requires WellFormed(g) && WellFormed(o)
    ensures Mismatches(Scalars(g, o)) == [] <==> SameRegisters(g, o)
  {
    hide Render, Mismatches;
    var s := Scalars(g, o);
    NoMismatch(s);
    if forall i :: 0 <= i < |s| ==> s[i].generated == s[i].oracle {
      forall i | 0 <= i < 8 ensures g.d[i] == o.d[i] && g.a[i] == o.a[i] {
        assert s[i].generated == g.d[i] && s[i].oracle == o.d[i];
        assert s[8 + i].generated == g.a[i] && s[8 + i].oracle == o.a[i];
      }
      assert s[16].generated == g.usp && s[16].oracle == o.usp;
      assert s[|s| - 1].generated == g.pc && s[|s| - 2].generated == g.sr;
      assert g.ssp.Some? && o.ssp.Some? ==> s[17].generated == g.ssp.value && s[17].oracle == o.ssp.value;
    }
  }

  lemma {:induction false} InMismatches(s: seq<Diff>, d: Diff)
    requires forall i :: 0 <= i < |s| ==> s[i].Scalar?
    ensures d in Mismatches(s) <==> d in s && d.generated != d.oracle
    decreases |s|
  {
    if s != [] {
      var n := |s| - 1;
      assert s == s[..n] + [s[n]];
      InMismatches(s[..n], d);
    }
  }

  /** The report names a register exactly when it differs, with the generated side first. */
  ghost predicate Reports(diffs: seq<Diff>, name: string, generated: nat, oracle: nat) {
    Scalar(name, generated, oracle) in diffs <==> generated != oracle
  }

  lemma RegisterReport(g: Record, o: Record)
    requires WellFormed(g) && WellFormed(o)
    ensures var diffs := Mismatches(Scalars(g, o));
      && (forall i :: 0 <= i < 8 ==> Reports(diffs, "d" + [DECIMAL[i]], g.d[i], o.d[i]))
      && (forall i :: 0 <= i < 8 ==> Reports(diffs, "a" + [DECIMAL[i]], g.a[i], o.a[i]))
      && Reports(diffs, "usp", g.usp, o.usp) && Reports(diffs, "sr", g.sr, o.sr) && Reports(diffs, "pc", g.pc, o.pc)
      && (g.ssp.Some? && o.ssp.Some? ==> Reports(diffs, "ssp", g.ssp.value, o.ssp.value))
  {
    hide Mismatches, Scalars, Reports;
    ListedScalars(g, o);
    var s := Scalars(g, o);
    forall i | 0 <= i < 8 ensures Reports(Mismatches(s), "d" + [DECIMAL[i]], g.d[i], o.d[i])
                          ensures Reports(Mismatches(s), "a" + [DECIMAL[i]], g.a[i], o.a[i]) {
      ListedIsReported(s, "d" + [DECIMAL[i]], g.d[i], o.d[i]);
      ListedIsReported(s, "a" + [DECIMAL[i]], g.a[i], o.a[i]);
    }
    ListedIsReported(s, "usp", g.usp, o.usp);
    ListedIsReported(s, "sr", g.sr, o.sr);
    ListedIsReported(s, "pc", g.pc, o.pc);
    if g.ssp.Some? && o.ssp.Some? {
      ListedIsReported(s, "ssp", g.ssp.value, o.ssp.value);
    }
  }

  lemma ListedIsReported(s: seq<Diff>, name: string, generated: nat, oracle: nat)
    requires (forall i :: 0 <= i < |s| ==> s[i].Scalar?) && Scalar(name, generated, oracle) in s
    ensures Reports(Mismatches(s), name, generated, oracle)
  {
    hide Mismatches;
    InMismatches(s, Scalar(name, generated, oracle));
  }

  lemma ListedScalars(g: Record, o: Record)
    requires WellFormed(g) && WellFormed(o)
    ensures var s := Scalars(g, o);
      && (forall i :: 0 <= i < |s| ==> s[i].Scalar?)
      && (forall i :: 0 <= i < 8 ==> Scalar("d" + [DECIMAL[i]], g.d[i], o.d[i]) in s)
      && (forall i :: 0 <= i < 8 ==> Scalar("a" + [DECIMAL[i]], g.a[i], o.a[i]) in s)
      && Scalar("usp", g.usp, o.usp) in s && Scalar("sr", g.sr, o.sr) in s && Scalar("pc", g.pc, o.pc) in s
      && (g.ssp.Some? && o.ssp.Some? ==> Scalar("ssp", g.ssp.value, o.ssp.value) in s)
  {
    hide Render;
    var s := Scalars(g, o);
    forall i | 0 <= i < 8 ensures Scalar("d" + [DECIMAL[i]], g.d[i], o.d[i]) in s
                          ensures Scalar("a" + [DECIMAL[i]], g.a[i], o.a[i]) in s {
      OneDigit(i);
      assert s[i] == Scalar("d" + Render(i, DECIMAL), g.d[i], o.d[i]);
      assert s[8 + i] == Scalar("a" + Render(i, DECIMAL), g.a[i], o.a[i]);
    }
    assert s[16] == Scalar("usp", g.usp, o.usp);
    assert g.ssp.Some? && o.ssp.Some? ==> s[17] == Scalar("ssp", g.ssp.value, o.ssp.value);
    assert s[|s| - 2] == Scalar("sr", g.sr, o.sr) && s[|s| - 1] == Scalar("pc", g.pc, o.pc);
  }

  lemma OneDigit(i: nat)
    requires i < 10
    ensures Render(i, DECIMAL) == [DECIMAL[i]]
  {
  }

  /** What `field_differences` must return: mismatching registers in order, then the effect keys that differ. */
  ghost predicate IsRecordDiff(diffs: seq<Diff>, g: Record, o: Record)
    requires WellFormed(g) && WellFormed(o)
  {
    exists gm, om, fields ::
      && IsKeyedMap(gm, g.effects, EffectKey) && IsKeyedMap(om, o.effects, EffectKey)
      && IsFieldDiff(fields, "effect:", gm, om, ViewOf)
      && diffs == Mismatches(Scalars(g, o)) + seq(|fields|, i requires 0 <= i < |fields| => OfEffect(fields[i]))
  }

  method FieldDifferences(g: Record, o: Record) returns (diffs: seq<Diff>)
    requires WellFormed(g) && WellFormed(o)
    ensures IsRecordDiff(diffs, g, o)
    ensures diffs == [] <==> SameRecord(g, o)
  {
    hide Scalars, Mismatches, IsKeyedMap, SameRegisters, SameViews, SameByKey, SameEffects, IsFieldDiff;
    SameByKeyIsSameEffects(g.effects, o.effects);
    diffs := ScalarDifferences(g, o);
    forall i | 0 <= i < |g.effects| ensures NoHash(EffectKey(g.effects[i])) { KeyIsClean(g.effects[i]); }
    forall i | 0 <= i < |o.effects| ensures NoHash(EffectKey(o.effects[i])) { KeyIsClean(o.effects[i]); }
    var gm := KeyedMap(g.effects, EffectKey);
    var om := KeyedMap(o.effects, EffectKey);
    var fields := DiffMaps("effect:", gm, om, ViewOf);
    SameViewsIsSameByKey(gm, om, g.effects, o.effects, EffectKey, ViewOf);
    NoMismatchIsSameRegisters(g, o);
    diffs := diffs + seq(|fields|, i requires 0 <= i < |fields| => OfEffect(fields[i]));
  }

  /** The `scalar` calls, one after the other. */
  method ScalarDifferences(g: Record, o: Record) returns (diffs: seq<Diff>)
    requires WellFormed(g) && WellFormed(o)
    ensures diffs == Mismatches(Scalars(g, o))
  {
    diffs := [];
    var scalars := Scalars(g, o);
    for i := 0 to |scalars|
      invariant diffs == Mismatches(scalars[..i])
    {
      assert scalars[..i + 1][..i] == scalars[..i];
      if scalars[i].generated != scalars[i].oracle {
        diffs := diffs + [scalars[i]];
      }
    }
    assert scalars[..|scalars|] == scalars;
  }

  // ----- lockstep ----------------------------------------------------------------------------------------

  /** Why a comparison stopped at a boundary. */
  datatype Failure =
    | Presence(generated: bool, expected: bool)
    | Ordinal(generatedBoundary: int, expectedBoundary: int)
    | Unsupported(generatedFlag: bool, expectedFlag: bool)
    | Fields(diffs: seq<Diff>)

  datatype Verdict =
    | BadLimit
    | NoDivergence(compared: nat)
    | Stopped(boundary: nat, lastMatching: nat, pc: nat, failure: Failure)

  ghost predicate EndedAt(g: Stream, o: Stream, i: nat) { i >= |g| && i >= |o| }

  ghost predicate Present(g: Stream, o: Stream, i: nat) { i < |g| && i < |o| }

  ghost predicate InOrder(g: Stream, o: Stream, i: nat) {
    Present(g, o, i) && g[i].boundary == i + 1 && o[i].boundary == i + 1
  }

  ghost predicate Comparable(g: Stream, o: Stream, i: nat) {
    InOrder(g, o, i) && !g[i].unsupported && !o[i].unsupported
  }

  ghost predicate AgreeAt(g: Stream, o: Stream, i: nat) {
    Comparable(g, o, i) && SameRecord(g[i], o[i])
  }

  /** The failure reported for boundary index `i` is the first check that fails there. */
  ghost predicate FailureAt(g: Stream, o: Stream, i: nat, f: Failure) {
    match f
    case Presence(x, y) => !Present(g, o, i) && x == (i < |g|) && y == (i < |o|)
    case Ordinal(x, y) => Present(g, o, i) && !InOrder(g, o, i) && x == g[i].boundary && y == o[i].boundary
    case Unsupported(x, y) => InOrder(g, o, i) && !Comparable(g, o, i) && x == g[i].unsupported && y == o[i].unsupported
    case Fields(diffs) => Comparable(g, o, i) && diffs != [] && IsRecordDiff(diffs, g[i], o[i])
  }

  ghost function PcBefore(g: Stream, i: nat, initialPc: nat): nat
    requires i <= |g|
  {
    if i == 0 then initialPc else g[i - 1].pc
  }

  /** The verdict of a lockstep run: every earlier boundary agrees, and the reported one is the first that does not. */
  ghost predicate IsVerdict(v: Verdict, g: Stream, o: Stream, limit: int, initialPc: nat) {
    match v
    case BadLimit => limit <= 0
    case NoDivergence(m) =>
      m <= limit && limit > 0 && (forall k :: 0 <= k < m ==> AgreeAt(g, o, k)) && (m == limit || EndedAt(g, o, m))
    case Stopped(b, last, pc, f) =>
      && 0 < b <= limit && last == b - 1 && (forall k :: 0 <= k < b - 1 ==> AgreeAt(g, o, k))
      && !AgreeAt(g, o, b - 1) && !EndedAt(g, o, b - 1) && FailureAt(g, o, b - 1, f)
      && b - 1 <= |g| && pc == PcBefore(g, b - 1, initialPc)
  }

  /** The checks of one boundary, in the source's order; `None` when both records agree. */
  method CheckBoundary(g: Stream, o: Stream, i: nat) returns (failure: Option<Failure>)
    ensures failure.None? <==> AgreeAt(g, o, i)
    ensures failure.Some? ==> FailureAt(g, o, i, failure.value)
  {
    hide SameRecord, IsRecordDiff;
    if i >= |g| || i >= |o| {
      return Some(Presence(i < |g|, i < |o|));
    }
    if g[i].boundary != i + 1 || o[i].boundary != i + 1 {
      return Some(Ordinal(g[i].boundary, o[i].boundary));
    }
    if g[i].unsupported || o[i].unsupported {
      return Some(Unsupported(g[i].unsupported, o[i].unsupported));
    }
    assert WellFormed(g[i]) && WellFormed(o[i]);
    var diffs := FieldDifferences(g[i], o[i]);
    failure := if diffs != [] then Some(Fields(diffs)) else None;
  }

  /** `compare_streams`. */
  method CompareStreams(g: Stream, o: Stream, limit: int, initialPc: nat) returns (v: Verdict)
    ensures IsVerdict(v, g, o, limit, initialPc)
  {
    hide AgreeAt, FailureAt;
    if limit <= 0 {
      return BadLimit;
    }
    var lastPc, matched := initialPc, 0;
    for index := 0 to limit
      invariant matched == index && forall k :: 0 <= k < index ==> AgreeAt(g, o, k)
      invariant index <= |g| && lastPc == PcBefore(g, index, initialPc)
    {
      if index >= |g| && index >= |o| {
        return NoDivergence(matched);
      }
      var failure := CheckBoundary(g, o, index);
      if failure.Some? {
        return Stopped(index + 1, matched, lastPc, failure.value);
      }
      AgreeingIsPresent(g, o, index);
      matched := index + 1;
      lastPc := g[index].pc;
    }
    v := NoDivergence(matched);
  }

  lemma AgreeingIsPresent(g: Stream, o: Stream, i: nat)
    requires AgreeAt(g, o, i)
    ensures i < |g| && i < |o|
  {
  }

  // ----- what agreement means over a run -------------------------------------------------------------------

  function ReplayRun(mem: Memory, s: seq<Record>): Memory {
    if s == [] then mem else Replay(ReplayRun(mem, s[..|s| - 1]), s[|s| - 1].effects)
  }

  /**
   Soundness over whole runs: after every boundary compared without divergence, both sides have the same
   registers, and replaying both effect histories from one common memory gives equal memories.
   */
  lemma {:induction false} NoDivergenceMeansSameRun(g: Stream, o: Stream, m: nat, mem: Memory)
    requires forall k :: 0 <= k < m ==> AgreeAt(g, o, k) && NoConflict(g[k].effects)
    ensures m <= |g| && m <= |o|
    ensures ReplayRun(mem, g[..m]) == ReplayRun(mem, o[..m])
    ensures m > 0 ==> SameRegisters(g[m - 1], o[m - 1])
    decreases m
  {
    hide NoConflict, SameByKey, SameEffects, Replay, Render;
    if m > 0 {
      NoDivergenceMeansSameRun(g, o, m - 1, mem);
      assert AgreeAt(g, o, m - 1);
      SameByKeyIsSameEffects(g[m - 1].effects, o[m - 1].effects);
      assert g[..m][..m - 1] == g[..m - 1] && o[..m][..m - 1] == o[..m - 1];
      BoundaryCommutes(ReplayRun(mem, g[..m - 1]), g[m - 1].effects, o[m - 1].effects);
    }
  }
}
