/**
  Field lookup by name through embedded structs, as reflect.Type.FieldByNameFunc does it for the
  matcher `n == s` that FieldByName passes.

  The lookup considers the struct's own fields, then the fields of the structs it embeds, and so
  on, breadth first; the shallowest depth holding a field of that name decides, and two or more
  such fields at that depth cancel each other (no match).  Depths are searched up to the number of
  types in the table: a shallowest match is reached through pairwise distinct struct types, so none
  lies deeper.
 */
module FieldLookup {
  import opened Wrappers
  import opened GoTypes
  import Resolver

  /** A field found by name: the index path to it from the searched struct, and its declaration. */
  datatype Found = Found(index: seq<int>, field: StructField)

  /** An embedded field of struct, or pointer-to-struct, type: the lookup descends into it. */
  predicate Descends(types: TypeTable, sf: StructField) {
    sf.anonymous && KindOf(types, Deref(types, sf.ty)) == Struct
  }

  /** The found fields of `fs`, one level further down, through field i. */
  function Under(i: int, fs: seq<Found>): seq<Found> {
    seq(|fs|, k requires 0 <= k < |fs| => Found([i] + fs[k].index, fs[k].field))
  }

  /**
    The fields named n exactly d embedding steps below struct type t, reached through declared fields
    i, i+1, ... of t, in declaration order.  A field reached along two paths is listed twice.
   */
  function Matches(types: TypeTable, t: TypeId, n: string, d: nat, i: nat): seq<Found>
    requires i <= |FieldsOf(types, t)|
    decreases d, |FieldsOf(types, t)| - i
  {
    var fs := FieldsOf(types, t);
    if i == |fs| then []
    else
      var here :=
        if d == 0 then (if fs[i].name == n then [Found([i], fs[i])] else [])
        else if Descends(types, fs[i]) then Under(i, Matches(types, Deref(types, fs[i].ty), n, d - 1, 0))
        else [];
      here + Matches(types, t, n, d, i + 1)
  }

  /** What a match found from t promises: a path of one or more steps to a declared field named n. */
  ghost predicate FoundIn(types: TypeTable, t: TypeId, n: string, f: Found) {
    && |f.index| >= 1
    && 0 <= f.index[0] < |FieldsOf(types, t)|
    && f.field.name == n
    && Resolver.FieldAt(types, t, f.index) == Some(f.field)
  }

  /** A type with declared fields is a struct type, so Deref leaves it alone. */
  lemma StructHasFields(types: TypeTable, t: TypeId)
    requires |FieldsOf(types, t)| > 0
    ensures KindOf(types, t) == Struct && Deref(types, t) == t && t in types
  {
  }

  /** Every match at depth d lies d steps down, and is the declared field its path reaches. */
  lemma {:induction false} MatchesSound(types: TypeTable, t: TypeId, n: string, d: nat, i: nat)
    requires i <= |FieldsOf(types, t)|
    ensures forall k | 0 <= k < |Matches(types, t, n, d, i)| ::
      FoundIn(types, t, n, Matches(types, t, n, d, i)[k]) && |Matches(types, t, n, d, i)[k].index| == d + 1
      && i <= Matches(types, t, n, d, i)[k].index[0]
    decreases d, |FieldsOf(types, t)| - i
  {
    var fs := FieldsOf(types, t);
    if i < |fs| {
      StructHasFields(types, t);
      MatchesSound(types, t, n, d, i + 1);
      if d > 0 && Descends(types, fs[i]) {
        var u := Deref(types, fs[i].ty);
        MatchesSound(types, u, n, d - 1, 0);
        var inner := Matches(types, u, n, d - 1, 0);
        forall k | 0 <= k < |inner|
          ensures FoundIn(types, t, n, Under(i, inner)[k])
        {
          var f := inner[k];
          assert ([i] + f.index)[1..] == f.index;
        }
      }
    }
  }

  /** The search from depth d on: the first depth with a match decides; several matches there cancel. */
  function SearchFrom(types: TypeTable, t: TypeId, n: string, d: nat): (r: Option<Found>)
    ensures r.Some? ==> FoundIn(types, t, n, r.value) && |r.value.index| > d
    decreases |types| - d
  {
    if d >= |types| then None
    else
      var ms := Matches(types, t, n, d, 0);
      MatchesSound(types, t, n, d, 0);
      if |ms| == 0 then SearchFrom(types, t, n, d + 1)
      else if |ms| == 1 then Some(ms[0])
      else None
  }

  /** reflect.Type.FieldByNameFunc with the matcher `n == s`. */
  function FieldByName(types: TypeTable, t: TypeId, n: string): (r: Option<Found>)
    ensures r.Some? ==> FoundIn(types, t, n, r.value)
  {
    SearchFrom(types, t, n, 0)
  }

  /** The search from depth d, when depth d has no match, is the search from depth d + 1. */
  lemma SearchSkips(types: TypeTable, t: TypeId, n: string, d: nat)
    requires d < |types| && Matches(types, t, n, d, 0) == []
    ensures SearchFrom(types, t, n, d) == SearchFrom(types, t, n, d + 1)
  {
  }

  /** The search from depth d, when depth d has a match, answers from depth d alone. */
  lemma SearchStops(types: TypeTable, t: TypeId, n: string, d: nat)
    requires d < |types| && Matches(types, t, n, d, 0) != []
    ensures var ms := Matches(types, t, n, d, 0);
      SearchFrom(types, t, n, d) == if |ms| == 1 then Some(ms[0]) else None
  {
  }

  /** The search from depth d finds f exactly when f is the only match at its depth and no depth in between has one. */
  lemma {:induction false} SearchFromShallowest(types: TypeTable, t: TypeId, n: string, d: nat, f: Found)
    requires |f.index| >= 1 + d
    ensures SearchFrom(types, t, n, d) == Some(f) <==>
      && |f.index| - 1 < |types|
      && Matches(types, t, n, |f.index| - 1, 0) == [f]
      && forall e | d <= e < |f.index| - 1 :: Matches(types, t, n, e, 0) == []
    decreases |types| - d
  {
    if d < |types| {
      var ms := Matches(types, t, n, d, 0);
      if ms == [] {
        SearchSkips(types, t, n, d);
        var r := SearchFrom(types, t, n, d + 1);
        assert r.Some? ==> |r.value.index| > d + 1;
        if |f.index| > d + 1 {
          SearchFromShallowest(types, t, n, d + 1, f);
        }
      } else {
        SearchStops(types, t, n, d);
        MatchesSound(types, t, n, d, 0);
        assert |ms[0].index| == d + 1;
      }
    }
  }

  /**
    FieldByNameFunc finds f exactly when f is the only field of its name at its depth and every
    shallower depth has none.
   */
  lemma Shallowest(types: TypeTable, t: TypeId, n: string, f: Found)
    ensures FieldByName(types, t, n) == Some(f) <==>
      && 1 <= |f.index| <= |types|
      && Matches(types, t, n, |f.index| - 1, 0) == [f]
      && forall e | 0 <= e < |f.index| - 1 :: Matches(types, t, n, e, 0) == []
  {
    if |f.index| >= 1 {
      SearchFromShallowest(types, t, n, 0, f);
    }
  }

  /** The depth-0 matches from field i on: the declared fields from i on that carry the name. */
  lemma {:induction false} OwnMatches(types: TypeTable, t: TypeId, n: string, i: nat, j: nat)
    requires i <= |FieldsOf(types, t)| && j < |FieldsOf(types, t)|
    requires FieldsOf(types, t)[j].name == n
    requires forall k | 0 <= k < |FieldsOf(types, t)| && k != j :: FieldsOf(types, t)[k].name != n
    ensures Matches(types, t, n, 0, i) == if i <= j then [Found([j], FieldsOf(types, t)[j])] else []
    decreases |FieldsOf(types, t)| - i
  {
    if i < |FieldsOf(types, t)| {
      OwnMatches(types, t, n, i + 1, j);
    }
  }

  /** A declared field whose name no other declared field shares is found directly, by its own position. */
  lemma OwnField(types: TypeTable, t: TypeId, n: string, j: nat)
    requires j < |FieldsOf(types, t)| && FieldsOf(types, t)[j].name == n
    requires forall k | 0 <= k < |FieldsOf(types, t)| && k != j :: FieldsOf(types, t)[k].name != n
    ensures FieldByName(types, t, n) == Some(Found([j], FieldsOf(types, t)[j]))
  {
    StructHasFields(types, t);
    assert |types| >= 1 by {
      assert t in types.Keys;
    }
    OwnMatches(types, t, n, 0, j);
  }

  /** A name that no field carries at any depth is not found. */
  lemma {:induction false} Absent(types: TypeTable, t: TypeId, n: string, d: nat)
    requires forall e :: Matches(types, t, n, e, 0) == []
    ensures SearchFrom(types, t, n, d) == None
    decreases |types| - d
  {
    if d < |types| {
      assert Matches(types, t, n, d, 0) == [];
      Absent(types, t, n, d + 1);
    }
  }
}
