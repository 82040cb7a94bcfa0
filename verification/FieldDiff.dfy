/** Sorted field-by-field comparison of two dictionaries, as both divergence tools report it. */
module FieldDiff {
  import opened Basics
  import opened KeyedTrace

  /** Python's string order: by code point, a prefix first. */
  predicate Less(s: string, t: string) {
    t != "" && (s == "" || s[0] < t[0] || (s[0] == t[0] && Less(s[1..], t[1..])))
  }

  lemma {:induction false} LessTransitive(s: string, t: string, u: string)
    requires Less(s, t) && Less(t, u)
    ensures Less(s, u)
    decreases |s|
  {
    if s != "" && s[0] == t[0] == u[0] {
      LessTransitive(s[1..], t[1..], u[1..]);
    }
  }

  lemma {:induction false} LessTotal(s: string, t: string)
    ensures Less(s, t) || s == t || Less(t, s)
    ensures !(Less(s, t) && Less(t, s)) && !Less(s, s)
    decreases |s|
  {
    if s != "" {
      LessIrreflexive(s);
      if t != "" && s[0] == t[0] {
        LessTotal(s[1..], t[1..]);
        assert s == [s[0]] + s[1..] && t == [t[0]] + t[1..];
      }
    }
  }

  lemma {:induction false} LessIrreflexive(s: string)
    ensures !Less(s, s)
    decreases |s|
  {
    if s != "" {
      LessIrreflexive(s[1..]);
    }
  }

  ghost predicate StrictlySorted(r: seq<string>) {
    forall i, j :: 0 <= i < j < |r| ==> Less(r[i], r[j])
  }

  /** `sorted` of a set of names. */
  method SortedNames(names: set<string>) returns (r: seq<string>)
    ensures StrictlySorted(r) && forall x :: x in r <==> x in names
  {
    r := [];
    var rest := names;
    while rest != {}
      invariant rest <= names && StrictlySorted(r)
      invariant forall x :: x in r <==> x in names - rest
      decreases |rest|
    {
      var x :| x in rest;
      rest := rest - {x};
      r := InsertName(r, x);
    }
  }

  method InsertName(r: seq<string>, x: string) returns (s: seq<string>)
    requires StrictlySorted(r) && x !in r
    ensures StrictlySorted(s) && forall y :: y in s <==> y in r || y == x
  {
    var i := 0;
    while i < |r| && Less(r[i], x)
      invariant 0 <= i <= |r| && forall k :: 0 <= k < i ==> Less(r[k], x)
    {
      i := i + 1;
    }
    forall k | i <= k < |r| ensures Less(x, r[k]) {
      LessTotal(x, r[i]);
      if k > i { LessTransitive(x, r[i], r[k]); }
    }
    s := r[..i] + [x] + r[i..];
  }

  /** One reported field; its printed name is `prefix + key`. */
  datatype Field<+V> = Field(prefix: string, key: string, generated: Option<V>, expected: Option<V>)

  /** `f` is the report of a key that the two dictionaries show differently. */
  ghost predicate TrueDifference<E, V>(f: Field<V>, prefix: string, g: map<string, E>, e: map<string, E>, view: E -> V) {
    && f == Field(prefix, f.key, Lookup(g, f.key, view), Lookup(e, f.key, view))
    && f.generated != f.expected
  }

  ghost predicate Ascending<V>(fields: seq<Field<V>>) {
    forall i, j :: 0 <= i < j < |fields| ==> Less(fields[i].key, fields[j].key)
  }

  ghost predicate Reported<V>(fields: seq<Field<V>>, key: string) {
    exists i :: 0 <= i < |fields| && fields[i].key == key
  }

  /** Exactly the keys the two dictionaries show differently, in ascending order, with both views. */
  ghost predicate IsFieldDiff<E, V>(fields: seq<Field<V>>, prefix: string, g: map<string, E>, e: map<string, E>, view: E -> V) {
    && Ascending(fields)
    && (forall i :: 0 <= i < |fields| ==> TrueDifference(fields[i], prefix, g, e, view))
    && (forall x :: Lookup(g, x, view) != Lookup(e, x, view) ==> Reported(fields, x))
  }

  lemma NoFieldsIsSameViews<E, V>(fields: seq<Field<V>>, prefix: string, g: map<string, E>, e: map<string, E>, view: E -> V)
    requires IsFieldDiff(fields, prefix, g, e, view)
    ensures fields == [] <==> SameViews(g, e, view)
  {
    if fields != [] {
      var f := fields[0];
      assert TrueDifference(f, prefix, g, e, view);
      assert f.key in g.Keys + e.Keys;
    } else {
      forall x | x in g.Keys + e.Keys ensures Lookup(g, x, view) == Lookup(e, x, view) {
        assert !Reported(fields, x);
      }
    }
  }

  method DiffMaps<E, V(==)>(prefix: string, g: map<string, E>, e: map<string, E>, view: E -> V)
    returns (fields: seq<Field<V>>)
    ensures IsFieldDiff(fields, prefix, g, e, view)
    ensures fields == [] <==> SameViews(g, e, view)
  {
    hide Less, SameViews;
    var names := SortedNames(g.Keys + e.Keys);
    fields := [];
    for i := 0 to |names|
      invariant Ascending(fields)
      invariant forall k :: 0 <= k < |fields| ==> TrueDifference(fields[k], prefix, g, e, view)
      invariant forall k :: 0 <= k < |fields| && i < |names| ==> Less(fields[k].key, names[i])
      invariant forall j :: 0 <= j < i && Lookup(g, names[j], view) != Lookup(e, names[j], view) ==> Reported(fields, names[j])
    {
      var x := names[i];
      var a, b := Lookup(g, x, view), Lookup(e, x, view);
      ghost var before := fields;
      if a != b {
        fields := fields + [Field(prefix, x, a, b)];
        assert fields[|before|].key == x;
      }
      forall k | 0 <= k < |fields| && i + 1 < |names| ensures Less(fields[k].key, names[i + 1]) {
        if k < |before| { LessTransitive(fields[k].key, x, names[i + 1]); }
      }
      forall y | Reported(before, y) ensures Reported(fields, y) {
        var k :| 0 <= k < |before| && before[k].key == y;
        assert fields[k] == before[k];
      }
    }
    forall x | Lookup(g, x, view) != Lookup(e, x, view) ensures Reported(fields, x) {
      assert x in g.Keys + e.Keys;
    }
    NoFieldsIsSameViews(fields, prefix, g, e, view);
  }
}
