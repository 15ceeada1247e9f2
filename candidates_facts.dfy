/**
  Where typeFields' candidates come from: every candidate is a visible declared field, not tagged
  "-", found by following its index from the root, and described as its declaration says.
 */
module CandidateFacts {
  import opened Wrappers
  import opened GoTypes
  import opened Ordering
  import opened Tags
  import opened Resolver

  /** FieldAt and TypeByIndex agree: the last field's declared type is the type the index reaches. */
  lemma {:induction false} FieldAtType(types: TypeTable, t: TypeId, index: seq<int>)
    requires FieldAt(types, t, index).Some?
    ensures TypeByIndex(types, t, index) == Some(FieldAt(types, t, index).value.ty)
    decreases |index|
  {
    if |index| > 1 {
      var fs := FieldsOf(types, Deref(types, t));
      FieldAtType(types, fs[index[0]].ty, index[1..]);
    }
  }

  /** Extending an index by one step selects field i of the struct the index reached. */
  lemma {:induction false} FieldAtExtend(types: TypeTable, t: TypeId, index: seq<int>, u: TypeId, i: nat)
    requires TypeByIndex(types, t, index) == Some(u)
    requires i < |FieldsOf(types, Deref(types, u))|
    ensures FieldAt(types, t, index + [i]) == Some(FieldsOf(types, Deref(types, u))[i])
    ensures TypeByIndex(types, t, index + [i]) == Some(FieldsOf(types, Deref(types, u))[i].ty)
    decreases |index|
  {
    if index == [] {
      assert [i][1..] == [];
    } else {
      var fs := FieldsOf(types, Deref(types, t));
      assert (index + [i])[0] == index[0] && (index + [i])[1..] == index[1..] + [i];
      FieldAtExtend(types, fs[index[0]].ty, index[1..], u, i);
    }
  }

  /** f was built from the visible, not "-"-tagged declared field its index reaches from root. */
  ghost predicate DerivedBase(env: Env, root: TypeId, f: Field) {
    match FieldAt(env.types, root, f.index)
    case Some(sf) => Visible(env.types, sf) && !sf.tag.dash && f == FieldFrom(env, f.index, sf)
    case None => false
  }

  /**
    A candidate: derived from its declaration, and, when it is an untagged embedded struct kept
    whole, that struct has no visible field of its own.
   */
  ghost predicate Derived(env: Env, root: TypeId, f: Field) {
    DerivedBase(env, root, f) &&
    (!IsLeaf(env, FieldAt(env.types, root, f.index).value) ==>
      forall j | 0 <= j < |FieldsOf(env.types, f.typ)| :: !Visible(env.types, FieldsOf(env.types, f.typ)[j]))
  }

  /** A queued entry: the root itself, or a derived embedded struct, whose type is the one its index reaches. */
  ghost predicate Queued(env: Env, root: TypeId, f: Field) {
    && KindOf(env.types, f.typ) == Struct
    && TypeByIndex(env.types, root, f.index).Some?
    && Deref(env.types, TypeByIndex(env.types, root, f.index).value) == f.typ
    && (f.index == [] ==> f == RootEntry(root))
    && (f.index != [] ==> DerivedBase(env, root, f))
  }

  ghost predicate AllDerived(env: Env, root: TypeId, fs: seq<Field>) {
    forall j | 0 <= j < |fs| :: Derived(env, root, fs[j])
  }

  ghost predicate AllQueued(env: Env, root: TypeId, q: seq<Field>) {
    forall j | 0 <= j < |q| :: Queued(env, root, q[j])
  }

  lemma ScanFieldSound(env: Env, root: TypeId, f: Field, count: map<TypeId, nat>, i: nat, acc: Scan)
    requires Queued(env, root, f) && i < |FieldsOf(env.types, f.typ)|
    requires AllDerived(env, root, acc.fields) && AllQueued(env, root, acc.next)
    ensures var r := ScanField(env, f, count, i, FieldsOf(env.types, f.typ)[i], acc);
      AllDerived(env, root, r.fields) && AllQueued(env, root, r.next)
  {
    var types := env.types;
    var sf := FieldsOf(types, f.typ)[i];
    var u := TypeByIndex(types, root, f.index).value;
    FieldAtExtend(types, root, f.index, u, i);
    var fld := FieldFrom(env, f.index + [i], sf);
    assert FieldAt(types, root, fld.index) == Some(sf);
  }

  lemma {:induction false} ScanFieldsSound(env: Env, root: TypeId, f: Field, count: map<TypeId, nat>, acc: Scan, n: nat)
    requires Queued(env, root, f) && n <= |FieldsOf(env.types, f.typ)|
    requires AllDerived(env, root, acc.fields) && AllQueued(env, root, acc.next)
    ensures var r := ScanFields(env, f, count, acc, n);
      AllDerived(env, root, r.fields) && AllQueued(env, root, r.next)
  {
    if n > 0 {
      ScanFieldsSound(env, root, f, count, acc, n - 1);
      ScanFieldSound(env, root, f, count, n - 1, ScanFields(env, f, count, acc, n - 1));
    }
  }

  /** The scan sees a visible field exactly when it sets hasExported. */
  lemma {:induction false} ScanFieldsExported(env: Env, f: Field, count: map<TypeId, nat>, acc: Scan, n: nat)
    requires n <= |FieldsOf(env.types, f.typ)|
    ensures ScanFields(env, f, count, acc, n).hasExported <==>
      (acc.hasExported || exists j | 0 <= j < n :: Visible(env.types, FieldsOf(env.types, f.typ)[j]))
  {
    if n > 0 {
      ScanFieldsExported(env, f, count, acc, n - 1);
    }
  }

  ghost predicate BfsSound(env: Env, root: TypeId, st: Bfs) {
    AllDerived(env, root, st.fields) && AllQueued(env, root, st.next)
  }

  lemma ScanEntrySound(env: Env, root: TypeId, count: map<TypeId, nat>, f: Field, st: Bfs)
    requires Queued(env, root, f) && BfsSound(env, root, st)
    ensures BfsSound(env, root, ScanEntry(env, count, f, st))
  {
    if f.typ !in st.visited {
      var acc0 := Scan(st.fields, st.next, st.nextCount, false);
      var n := |FieldsOf(env.types, f.typ)|;
      ScanFieldsSound(env, root, f, count, acc0, n);
      ScanFieldsExported(env, f, count, acc0, n);
    }
  }

  lemma {:induction false} ScanLevelSound(env: Env, root: TypeId, current: seq<Field>, count: map<TypeId, nat>, st: Bfs, k: nat)
    requires k <= |current| && AllQueued(env, root, current) && BfsSound(env, root, st)
    ensures BfsSound(env, root, ScanLevel(env, current, count, st, k))
  {
    if k > 0 {
      ScanLevelSound(env, root, current, count, st, k - 1);
      ScanLevelStep(env, root, current, count, st, k);
    }
  }

  lemma ScanLevelStep(env: Env, root: TypeId, current: seq<Field>, count: map<TypeId, nat>, st: Bfs, k: nat)
    requires 0 < k <= |current| && AllQueued(env, root, current)
    requires BfsSound(env, root, ScanLevel(env, current, count, st, k - 1))
    ensures BfsSound(env, root, ScanLevel(env, current, count, st, k))
  {
    assert Queued(env, root, current[k - 1]);
    ScanEntrySound(env, root, count, current[k - 1], ScanLevel(env, current, count, st, k - 1));
  }

  lemma {:induction false} CollectSound(env: Env, root: TypeId, st: Bfs)
    requires QueueIn(st.next, Universe(env, root)) && st.visited <= Universe(env, root)
    requires BfsSound(env, root, st)
    ensures AllDerived(env, root, Collect(env, root, st))
    decreases |Universe(env, root) - st.visited|, |st.next|
  {
    if st.next != [] {
      LevelProgress(env, root, st);
      ScanLevelSound(env, root, st.next, st.nextCount, Bfs(st.visited, st.fields, [], map[]), |st.next|);
      var st' := Level(env, st);
      if st'.visited != st.visited {
        CollectSound(env, root, st');
      }
    }
  }

  /** Every candidate of a struct type is derived from a declared field its index reaches. */
  lemma CandidatesDerived(env: Env, root: TypeId)
    requires KindOf(env.types, root) == Struct
    ensures forall f | f in Candidates(env, root) :: Derived(env, root, f)
  {
    var st := Bfs({}, [], [RootEntry(root)], map[]);
    assert Queued(env, root, RootEntry(root));
    CollectSound(env, root, st);
  }
}

/** The results of typeFields in terms of the declared fields. */
module TypeFieldsFacts {
  import opened Wrappers
  import opened GoTypes
  import opened Ordering
  import opened Resolver
  import opened CompactionFacts
  import opened CandidateFacts

  /**
    Every resolved field of a struct type is a candidate derived from its declaration, and
    typeByIndex finds a type for its index, so the field's encoder is well defined.
   */
  lemma TypeFieldsDerived(env: Env, t: TypeId)
    requires KindOf(env.types, t) == Struct
    ensures forall f | f in TypeFieldsSpec(env, t) ::
      f in Candidates(env, t) && Derived(env, t, f) && TypeByIndex(env.types, t, f.index).Some?
  {
    TypeFieldsDominant(env, t);
    CandidatesDerived(env, t);
    forall f | f in TypeFieldsSpec(env, t)
      ensures f in Candidates(env, t) && TypeByIndex(env.types, t, f.index).Some?
    {
      assert f in multiset(Candidates(env, t));
      assert Derived(env, t, f);
      assert FieldAt(env.types, t, f.index).Some?;
      FieldAtType(env.types, t, f.index);
    }
  }

  /** A struct without embedded fields. */
  ghost predicate NoEmbedding(types: TypeTable, t: TypeId) {
    forall j | 0 <= j < |FieldsOf(types, t)| :: !FieldsOf(types, t)[j].anonymous
  }

  /** The first n declared fields, minus the unexported ones and those tagged "-", in declared order. */
  function Declared(env: Env, t: TypeId, n: nat): seq<Field>
    requires n <= |FieldsOf(env.types, t)|
  {
    if n == 0 then []
    else
      var sf := FieldsOf(env.types, t)[n - 1];
      Declared(env, t, n - 1) + (if sf.exported && !sf.tag.dash then [FieldFrom(env, [n - 1], sf)] else [])
  }

  lemma {:induction false} ScanFieldsNoEmbedding(env: Env, t: TypeId, n: nat)
    requires NoEmbedding(env.types, t) && n <= |FieldsOf(env.types, t)|
    ensures var r := ScanFields(env, RootEntry(t), map[], Scan([], [], map[], false), n);
      r.fields == Declared(env, t, n) && r.next == []
  {
    if n > 0 {
      ScanFieldsNoEmbedding(env, t, n - 1);
      assert RootEntry(t).index + [n - 1] == [n - 1];
    }
  }

  /** Without embedding, the candidates are the declared fields the scan does not skip, in order. */
  lemma CandidatesNoEmbedding(env: Env, t: TypeId)
    requires KindOf(env.types, t) == Struct && NoEmbedding(env.types, t)
    ensures Candidates(env, t) == Declared(env, t, |FieldsOf(env.types, t)|)
  {
    var n := |FieldsOf(env.types, t)|;
    var st0 := Bfs({}, [], [RootEntry(t)], map[]);
    var empty := Bfs({}, [], [], map[]);
    ScanFieldsNoEmbedding(env, t, n);
    var acc := ScanFields(env, RootEntry(t), map[], Scan([], [], map[], false), n);
    var st1 := Bfs({t}, acc.fields, acc.next, acc.nextCount);
    assert ScanEntry(env, map[], RootEntry(t), empty) == st1;
    assert ScanLevel(env, [RootEntry(t)], map[], empty, 1) == st1;
    assert Level(env, st0) == st1;
    LevelProgress(env, t, st0);
    assert Collect(env, t, st1) == acc.fields;
  }

  lemma {:induction false} DeclaredIncreasing(env: Env, t: TypeId, n: nat)
    requires n <= |FieldsOf(env.types, t)|
    ensures forall p | 0 <= p < |Declared(env, t, n)| ::
      |Declared(env, t, n)[p].index| == 1 && 0 <= Declared(env, t, n)[p].index[0] < n
    ensures forall p, q | 0 <= p < q < |Declared(env, t, n)| ::
      ByIndex(Declared(env, t, n)[p], Declared(env, t, n)[q])
  {
    if n > 0 {
      DeclaredIncreasing(env, t, n - 1);
      var prev := Declared(env, t, n - 1);
      var d := Declared(env, t, n);
      assert d[..|prev|] == prev;
      forall p | 0 <= p < |prev| ensures IndexLess(prev[p].index, [n - 1]) {
        assert |prev[p].index| == 1 && prev[p].index[0] < n - 1;
      }
      forall p, q | 0 <= p < q < |d| ensures ByIndex(d[p], d[q]) {
        assert d[p] == prev[p];
        if q < |prev| { assert d[q] == prev[q]; }
      }
    }
  }

  lemma DistinctSameMultiset(a: seq<Field>, b: seq<Field>)
    requires NamesDistinct(a) && NamesDistinct(b)
    requires forall x :: x in a <==> x in b
    ensures multiset(a) == multiset(b)
  {
    forall x ensures multiset(a)[x] == multiset(b)[x] {
      if x in a {
        var p :| 0 <= p < |a| && a[p] == x;
        var q :| 0 <= q < |b| && b[q] == x;
        CountOnePosition(a, p);
        CountOnePosition(b, q);
      }
    }
  }

  /**
    For a struct without embedded fields whose effective names differ, typeFields returns exactly the
    exported fields not tagged "-", in declaration order.
   */
  lemma TypeFieldsNoEmbedding(env: Env, t: TypeId)
    requires KindOf(env.types, t) == Struct && NoEmbedding(env.types, t)
    requires NamesDistinct(Declared(env, t, |FieldsOf(env.types, t)|))
    ensures TypeFieldsSpec(env, t) == Declared(env, t, |FieldsOf(env.types, t)|)
  {
    CandidatesNoEmbedding(env, t);
    TypeFieldsDominant(env, t);
    TypeFieldsNamesDistinct(env, t);
    TypeFieldsIndexOrder(env, t);
    DeclaredIncreasing(env, t, |FieldsOf(env.types, t)|);
    DistinctDominantAll(Declared(env, t, |FieldsOf(env.types, t)|), TypeFieldsSpec(env, t));
  }

  /**
    When the candidates have distinct names and come in strictly increasing index order, the list
    of their dominant fields, without repeated names and in index order, is the candidates themselves.
   */
  lemma DistinctDominantAll(d: seq<Field>, r: seq<Field>)
    requires NamesDistinct(d) && NamesDistinct(r) && SortedBy(r, ByIndex)
    requires forall i, j | 0 <= i < j < |d| :: ByIndex(d[i], d[j])
    requires forall f :: f in r <==> Dominant(f, multiset(d))
    ensures r == d
  {
    forall x ensures x in r <==> x in d {
      if x in d {
        var p :| 0 <= p < |d| && d[p] == x;
        CountOnePosition(d, p);
        assert Dominant(x, multiset(d));
      }
      if x in r {
        assert x in multiset(d);
      }
    }
    DistinctSameMultiset(d, r);
    SortedPermutationUnique(d, r, ByIndex);
  }
}
