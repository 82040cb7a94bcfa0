/**
 Event lists as both divergence tools key them: every event goes into a dictionary under its base key,
 the n-th repetition of a base key under `key#n`. Proved here once: what such a dictionary remembers.
 */
module KeyedTrace {
  import opened Basics
  import opened Numerals

  ghost predicate NoHash(s: string) {
    '#' !in s
  }

  /** The dictionary key of occurrence `n` of a base key. */
  function Numbered(base: string, n: nat): string {
    if n == 0 then base else base + "#" + Render(n, DECIMAL)
  }

  lemma NumberedInjective(k: string, m: nat, l: string, n: nat)
    requires NoHash(k) && NoHash(l) && Numbered(k, m) == Numbered(l, n)
    ensures k == l && m == n
  {
    var s, t := Numbered(k, m), Numbered(l, n);
    assert m > 0 ==> s[|k|] == '#';
    assert n > 0 ==> t[|l|] == '#';
    assert forall i :: 0 <= i < |k| ==> s[i] == k[i];
    assert forall i :: 0 <= i < |l| ==> t[i] == l[i];
    if m > 0 && n > 0 {
      assert |k| == |l|;
      assert k == s[..|k|] == t[..|l|] == l;
      assert Render(m, DECIMAL) == s[|k| + 1..] == t[|l| + 1..] == Render(n, DECIMAL);
      ParseRender(m, DECIMAL);
      ParseRender(n, DECIMAL);
    }
  }

  /** The events with base key `k`, in order. */
  ghost function Of<E>(events: seq<E>, key: E -> string, k: string): seq<E> {
    if events == [] then []
    else
      var last := events[|events| - 1];
      Of(events[..|events| - 1], key, k) + if key(last) == k then [last] else []
  }

  lemma OfSnoc<E>(events: seq<E>, e: E, key: E -> string, k: string)
    ensures Of(events + [e], key, k) == Of(events, key, k) + if key(e) == k then [e] else []
  {
  }

  ghost predicate KeysClean<E>(events: seq<E>, key: E -> string) {
    forall i :: 0 <= i < |events| ==> NoHash(key(events[i]))
  }

  ghost predicate Entry<E>(m: map<string, E>, events: seq<E>, key: E -> string, k: string, n: nat)
    requires n < |Of(events, key, k)|
  {
    Numbered(k, n) in m && m[Numbered(k, n)] == Of(events, key, k)[n]
  }

  /** Under `Numbered(k, n)` stands the n-th event of base key `k`, and nothing else is in the dictionary. */
  ghost predicate IsKeyedMap<E>(m: map<string, E>, events: seq<E>, key: E -> string) {
    && (forall k, n: nat :: NoHash(k) && n < |Of(events, key, k)| ==> Entry(m, events, key, k, n))
    && (forall x :: x in m ==> Occurrence(events, key, x))
  }

  ghost predicate Occurrence<E>(events: seq<E>, key: E -> string, x: string) {
    exists k, n: nat :: NoHash(k) && n < |Of(events, key, k)| && x == Numbered(k, n)
  }

  /** One more event adds exactly one entry and overwrites none. */
  lemma KeyedMapStep<E>(m: map<string, E>, events: seq<E>, key: E -> string, e: E)
    requires IsKeyedMap(m, events, key) && NoHash(key(e))
    ensures IsKeyedMap(m[Numbered(key(e), |Of(events, key, key(e))|) := e], events + [e], key)
  {
    var k0, n0 := key(e), |Of(events, key, key(e))|;
    var m', more := m[Numbered(k0, n0) := e], events + [e];
    OfSnoc(events, e, key, k0);
    forall k, n: nat | NoHash(k) && n < |Of(more, key, k)| ensures Entry(m', more, key, k, n) {
      OfSnoc(events, e, key, k);
      if n < |Of(events, key, k)| {
        assert Entry(m, events, key, k, n);
        if Numbered(k, n) == Numbered(k0, n0) {
          NumberedInjective(k, n, k0, n0);
        }
      }
    }
    forall x | x in m' ensures Occurrence(more, key, x) {
      if x == Numbered(k0, n0) {
        assert NoHash(k0) && n0 < |Of(more, key, k0)|;
      } else {
        assert Occurrence(events, key, x);
        var k, n: nat :| NoHash(k) && n < |Of(events, key, k)| && x == Numbered(k, n);
        OfSnoc(events, e, key, k);
        assert n < |Of(more, key, k)|;
      }
    }
  }

  /** `_event_map` / `_effect_map`. */
  method KeyedMap<E>(events: seq<E>, key: E -> string) returns (m: map<string, E>)
    requires KeysClean(events, key)
    ensures IsKeyedMap(m, events, key)
  {
    hide IsKeyedMap;
    var counts: map<string, nat> := map[];
    m := map[];
    EmptyKeyedMap(key);
    for i := 0 to |events|
      invariant IsKeyedMap(m, events[..i], key)
      invariant forall k :: (if k in counts then counts[k] else 0) == |Of(events[..i], key, k)|
    {
      var e := events[i];
      var base := key(e);
      assert events[..i + 1] == events[..i] + [e];
      forall k ensures Of(events[..i + 1], key, k) == Of(events[..i], key, k) + if key(e) == k then [e] else [] {
        OfSnoc(events[..i], e, key, k);
      }
      var n := if base in counts then counts[base] else 0;
      KeyedMapStep(m, events[..i], key, e);
      counts := counts[base := n + 1];
      m := m[Numbered(base, n) := e];
    }
    assert events[..|events|] == events;
  }

  lemma EmptyKeyedMap<E>(key: E -> string)
    ensures IsKeyedMap(map[], [], key)
  {
  }

  // ----- comparing two dictionaries ------------------------------------------------------------------

  function Lookup<E, V>(m: map<string, E>, x: string, view: E -> V): Option<V> {
    if x in m then Some(view(m[x])) else None
  }

  ghost predicate SameViews<E, V>(g: map<string, E>, o: map<string, E>, view: E -> V) {
    forall x :: x in g.Keys + o.Keys ==> Lookup(g, x, view) == Lookup(o, x, view)
  }

  ghost function Views<E, V>(events: seq<E>, view: E -> V): seq<V> {
    seq(|events|, i requires 0 <= i < |events| => view(events[i]))
  }

  /** Both lists show the same value sequence under base key `k`. */
  ghost predicate SameUnder<E, V>(g: seq<E>, o: seq<E>, key: E -> string, view: E -> V, k: string) {
    Views(Of(g, key, k), view) == Views(Of(o, key, k), view)
  }

  /** The keyed lists agree: repetitions of a key keep their order, the order between keys is forgotten. */
  ghost predicate SameByKey<E, V(!new)>(g: seq<E>, o: seq<E>, key: E -> string, view: E -> V) {
    forall k :: NoHash(k) ==> SameUnder(g, o, key, view, k)
  }

  /** The dictionaries show no difference exactly when the lists agree key by key. */
  lemma SameViewsIsSameByKey<E, V(!new)>(gm: map<string, E>, om: map<string, E>, g: seq<E>, o: seq<E>,
                                         key: E -> string, view: E -> V)
    requires IsKeyedMap(gm, g, key) && IsKeyedMap(om, o, key)
    ensures SameViews(gm, om, view) <==> SameByKey(g, o, key, view)
  {
    if SameViews(gm, om, view) {
      forall k | NoHash(k) ensures SameUnder(g, o, key, view, k) {
        SameViewsUnder(gm, om, g, o, key, view, k);
      }
    }
    if SameByKey(g, o, key, view) {
      forall x | x in gm.Keys + om.Keys ensures Lookup(gm, x, view) == Lookup(om, x, view) {
        var k, n: nat :| NoHash(k) && (n < |Of(g, key, k)| || n < |Of(o, key, k)|) && x == Numbered(k, n);
        assert SameUnder(g, o, key, view, k);
        assert |Views(Of(g, key, k), view)| == |Views(Of(o, key, k), view)|;
        assert Entry(gm, g, key, k, n) && Entry(om, o, key, k, n);
        assert Views(Of(g, key, k), view)[n] == Views(Of(o, key, k), view)[n];
      }
    }
  }

  lemma SameViewsUnder<E, V(!new)>(gm: map<string, E>, om: map<string, E>, g: seq<E>, o: seq<E>,
                                   key: E -> string, view: E -> V, k: string)
    requires IsKeyedMap(gm, g, key) && IsKeyedMap(om, o, key) && SameViews(gm, om, view) && NoHash(k)
    ensures SameUnder(g, o, key, view, k)
  {
    var gs, os := Of(g, key, k), Of(o, key, k);
    forall n: nat | n < |gs| ensures n < |os| && view(gs[n]) == view(os[n]) {
      assert Entry(gm, g, key, k, n);
      InBoth(gm, om, g, o, key, view, k, n);
    }
    if |gs| < |os| {
      InBoth(om, gm, o, g, key, view, k, |gs|);
    }
    if |os| < |gs| {
      InBoth(gm, om, g, o, key, view, k, |os|);
    }
  }

  /** An occurrence one dictionary has, the other has too. */
  lemma InBoth<E, V(!new)>(gm: map<string, E>, om: map<string, E>, g: seq<E>, o: seq<E>,
                           key: E -> string, view: E -> V, k: string, n: nat)
    requires IsKeyedMap(gm, g, key) && IsKeyedMap(om, o, key) && NoHash(k)
    requires SameViews(gm, om, view) || SameViews(om, gm, view)
    requires n < |Of(g, key, k)|
    ensures n < |Of(o, key, k)| && view(Of(g, key, k)[n]) == view(Of(o, key, k)[n])
  {
    assert Entry(gm, g, key, k, n);
    var x := Numbered(k, n);
    assert x in gm.Keys + om.Keys && x in om.Keys + gm.Keys;
    assert Lookup(gm, x, view) == Lookup(om, x, view);
    assert Occurrence(o, key, x);
    var l, m: nat :| NoHash(l) && m < |Of(o, key, l)| && x == Numbered(l, m);
    NumberedInjective(k, n, l, m);
    assert Entry(om, o, key, k, n);
  }

  /** Where event `i` of a list stands in its own key's sequence. */
  lemma {:induction false} PlaceOf<E>(events: seq<E>, key: E -> string, i: nat)
    requires i < |events|
    ensures var k, n := key(events[i]), |Of(events[..i], key, key(events[i]))|;
      n < |Of(events, key, k)| && Of(events, key, k)[n] == events[i]
    decreases |events|
  {
    var last := |events| - 1;
    var k := key(events[i]);
    if i == last {
      OfSnoc(events[..i], events[i], key, k);
    } else {
      PlaceOf(events[..last], key, i);
      assert events[..last][..i] == events[..i];
    }
  }

  ghost predicate SameElements<E, V(!new)>(g: seq<E>, o: seq<E>, key: E -> string, view: E -> V) {
    |g| == |o| && forall i :: 0 <= i < |g| ==> key(g[i]) == key(o[i]) && view(g[i]) == view(o[i])
  }

  function KeyOrder<E>(events: seq<E>, key: E -> string): (r: seq<string>)
    ensures |r| == |events|
    ensures forall i :: 0 <= i < |r| ==> r[i] == key(events[i])
  {
    seq(|events|, i requires 0 <= i < |events| => key(events[i]))
  }

  lemma {:induction false} SameOrderSameCounts<E>(g: seq<E>, o: seq<E>, key: E -> string, k: string)
    requires KeyOrder(g, key) == KeyOrder(o, key)
    ensures |Of(g, key, k)| == |Of(o, key, k)|
    decreases |g|
  {
    if g != [] {
      var n := |g| - 1;
      assert KeyOrder(g, key)[n] == KeyOrder(o, key)[n];
      assert KeyOrder(g[..n], key) == KeyOrder(g, key)[..n] == KeyOrder(o[..n], key);
      SameOrderSameCounts(g[..n], o[..n], key, k);
    }
  }

  /** Key-by-key agreement and equal key order together rebuild the whole list; equal lists have both. */
  lemma KeysAndOrderRebuild<E, V(!new)>(g: seq<E>, o: seq<E>, key: E -> string, view: E -> V)
    requires KeysClean(g, key)
    ensures SameElements(g, o, key, view)
        <==> SameByKey(g, o, key, view) && KeyOrder(g, key) == KeyOrder(o, key)
  {
    if SameByKey(g, o, key, view) && KeyOrder(g, key) == KeyOrder(o, key) {
      assert |KeyOrder(g, key)| == |KeyOrder(o, key)|;
      forall i | 0 <= i < |g| ensures key(g[i]) == key(o[i]) && view(g[i]) == view(o[i]) {
        assert KeyOrder(g, key)[i] == KeyOrder(o, key)[i];
        var k := key(g[i]);
        assert KeyOrder(g[..i], key) == KeyOrder(g, key)[..i] == KeyOrder(o[..i], key);
        SameOrderSameCounts(g[..i], o[..i], key, k);
        PlaceOf(g, key, i);
        PlaceOf(o, key, i);
        var n := |Of(g[..i], key, k)|;
        assert SameUnder(g, o, key, view, k);
        assert Views(Of(g, key, k), view)[n] == Views(Of(o, key, k), view)[n];
      }
    }
    if SameElements(g, o, key, view) {
      assert KeyOrder(g, key) == KeyOrder(o, key);
      forall k | NoHash(k) ensures SameUnder(g, o, key, view, k) {
        SameElementsUnder(g, o, key, view, k);
      }
    }
  }

  lemma {:induction false} SameElementsUnder<E, V(!new)>(g: seq<E>, o: seq<E>, key: E -> string, view: E -> V, k: string)
    requires SameElements(g, o, key, view)
    ensures SameUnder(g, o, key, view, k)
    decreases |g|
  {
    if g != [] {
      var n := |g| - 1;
      SameElementsUnder(g[..n], o[..n], key, view, k);
      var gs, os := Of(g[..n], key, k), Of(o[..n], key, k);
      assert |Views(gs, view)| == |Views(os, view)|;
      assert forall i :: 0 <= i < |gs| ==> view(gs[i]) == Views(gs, view)[i] == Views(os, view)[i] == view(os[i]);
    }
  }
}
