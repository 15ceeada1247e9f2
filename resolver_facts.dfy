/** What typeFields promises: one field per name, the dominant one, in index order, from the candidates. */
module ResolverFacts {
  import opened Wrappers
  import opened GoTypes
  import opened Ordering
  import opened Resolver

  // ---------------------------------------------------------------------------------------
  // The two comparators are strict weak orders, so the sorts are well defined up to ties.

  /** The part of a field the name comparator looks at. */
  predicate SameKey(a: Field, b: Field) {
    a.name == b.name && a.index == b.index && a.tag == b.tag
  }

  /** Exactly one of: a before b, b before a, or the two have the same key. */
  lemma NameOrderTrichotomy(a: Field, b: Field)
    ensures NameOrder(a, b) || NameOrder(b, a) || SameKey(a, b)
    ensures !(NameOrder(a, b) && NameOrder(b, a))
    ensures SameKey(a, b) ==> !NameOrder(a, b)
  {
    StringLessStrictTotal(a.name, b.name, a.name);
    IndexLessTrichotomy(a.index, b.index);
    IndexLessIrreflexive(a.index);
  }

  lemma NameOrderTransitive(a: Field, b: Field, c: Field)
    requires NameOrder(a, b) && NameOrder(b, c)
    ensures NameOrder(a, c)
  {
    StringLessStrictTotal(a.name, b.name, c.name);
    StringLessStrictTotal(c.name, a.name, b.name);
    if a.name == b.name == c.name && |a.index| == |b.index| == |c.index| && a.tag == b.tag == c.tag {
      IndexLessTransitive(a.index, b.index, c.index);
    }
  }

  lemma NameOrderStrictWeak()
    ensures StrictWeakOrder(NameOrder)
  {
    forall a: Field ensures !NameOrder(a, a) {
      NameOrderTrichotomy(a, a);
    }
    forall a: Field, b: Field, c: Field | NameOrder(a, b) && NameOrder(b, c) ensures NameOrder(a, c) {
      NameOrderTransitive(a, b, c);
    }
    forall a: Field, b: Field, c: Field | !NameOrder(a, b) && !NameOrder(b, c) ensures !NameOrder(a, c) {
      NameOrderTrichotomy(a, b);
      NameOrderTrichotomy(b, c);
      NameOrderTrichotomy(a, c);
      if NameOrder(b, a) && NameOrder(c, b) {
        NameOrderTransitive(c, b, a);
      }
    }
  }

  /** byIndex.Less is irreflexive, transitive, and orders any two distinct index sequences. */
  lemma ByIndexStrictWeak()
    ensures StrictWeakOrder(ByIndex)
  {
    forall a: Field ensures !ByIndex(a, a) {
      IndexLessIrreflexive(a.index);
    }
    forall a: Field, b: Field, c: Field | ByIndex(a, b) && ByIndex(b, c) ensures ByIndex(a, c) {
      IndexLessTransitive(a.index, b.index, c.index);
    }
    forall a: Field, b: Field, c: Field | !ByIndex(a, b) && !ByIndex(b, c) ensures !ByIndex(a, c) {
      IndexLessTrichotomy(a.index, b.index);
      IndexLessTrichotomy(b.index, c.index);
      IndexLessTrichotomy(a.index, c.index);
      if ByIndex(b, a) && ByIndex(c, b) {
        IndexLessTransitive(c.index, b.index, a.index);
      }
    }
  }

  // ---------------------------------------------------------------------------------------
  // dominantField.

  /**
    On a name group sorted the way typeFields sorts it, dominantField keeps the first field exactly
    when that field hides every other field of the group, and otherwise keeps nothing.
   */
  lemma DominantFieldHides(group: seq<Field>)
    requires |group| > 0 && SortedBy(group, NameOrder)
    requires forall k | 0 <= k < |group| :: group[k].name == group[0].name
    ensures DominantField(group).Some? ==> DominantField(group).value == group[0]
    ensures DominantField(group).Some? <==> forall k | 1 <= k < |group| :: Beats(group[0], group[k])
  {
    if DominantField(group).Some? && |group| > 1 {
      assert !NameOrder(group[1], group[0]);
      forall k | 1 <= k < |group| ensures Beats(group[0], group[k]) {
        assert !NameOrder(group[k], group[0]);
        if k > 1 {
          assert !NameOrder(group[k], group[1]);
        }
      }
    }
  }

  /** No field of a sorted group hides the group's first field. */
  lemma NothingHidesFirst(group: seq<Field>, p: nat)
    requires 0 < p < |group| && SortedBy(group, NameOrder)
    requires group[p].name == group[0].name
    ensures !Beats(group[p], group[0])
  {
    assert !NameOrder(group[p], group[0]);
  }

  /** Beats is a strict order: in particular no field hides itself or a field that hides it. */
  lemma BeatsAsymmetric(a: Field, b: Field)
    ensures !(Beats(a, b) && Beats(b, a))
    ensures !Beats(a, a)
  {
  }
}

module CompactionFacts {
  import opened GoTypes
  import opened Ordering
  import opened Resolver
  import opened ResolverFacts

  /** No two fields share a name. */
  ghost predicate NamesDistinct(fs: seq<Field>) {
    forall i, j | 0 <= i < j < |fs| :: fs[i].name != fs[j].name
  }

  /** Field number p of s hides every other field of s that has its name. */
  ghost predicate Hides(s: seq<Field>, p: nat)
    requires p < |s|
  {
    forall k | 0 <= k < |s| && k != p && s[k].name == s[p].name :: Beats(s[p], s[k])
  }

  /**
    f occurs once among the candidates and hides every other candidate of its name: it is shallower,
    or as deep and the only one tagged.
   */
  ghost predicate Dominant(f: Field, m: multiset<Field>) {
    m[f] == 1 && forall g | g in m && g.name == f.name && g != f :: Beats(f, g)
  }

  lemma CountOnePosition(s: seq<Field>, p: nat)
    requires p < |s|
    ensures multiset(s)[s[p]] == 1 <==> forall k | 0 <= k < |s| && k != p :: s[k] != s[p]
  {
    var x := s[p];
    assert s == s[..p] + [x] + s[p + 1..];
    assert multiset(s) == multiset(s[..p]) + multiset{x} + multiset(s[p + 1..]);
    assert x in multiset(s[..p]) <==> x in s[..p];
    assert x in multiset(s[p + 1..]) <==> x in s[p + 1..];
    if exists k | 0 <= k < |s| && k != p :: s[k] == x {
      var k :| 0 <= k < |s| && k != p && s[k] == x;
      if k < p { assert s[..p][k] == x; } else { assert s[p + 1..][k - p - 1] == x; }
    }
  }

  lemma HidesIffDominant(s: seq<Field>, p: nat)
    requires p < |s|
    ensures Hides(s, p) <==> Dominant(s[p], multiset(s))
  {
    CountOnePosition(s, p);
    if Hides(s, p) {
      forall g | g in multiset(s) && g.name == s[p].name && g != s[p] ensures Beats(s[p], g) {
        var k :| 0 <= k < |s| && s[k] == g;
      }
    }
    if Dominant(s[p], multiset(s)) {
      forall k | 0 <= k < |s| && k != p && s[k].name == s[p].name ensures Beats(s[p], s[k]) {
        assert s[k] in multiset(s);
      }
    }
  }

  lemma {:induction false} RunEndFacts(s: seq<Field>, i: nat, j: nat)
    requires i < j <= |s|
    requires forall k | i <= k < j :: s[k].name == s[i].name
    ensures forall k | i <= k < RunEnd(s, i, j) :: s[k].name == s[i].name
    ensures RunEnd(s, i, j) < |s| ==> s[RunEnd(s, i, j)].name != s[i].name
    decreases |s| - j
  {
    if j < |s| && s[j].name == s[i].name {
      RunEndFacts(s, i, j + 1);
    }
  }

  /** In a name-sorted list, names never go down. */
  lemma NamesNondecreasing(s: seq<Field>, k: nat, j: nat)
    requires SortedBy(s, NameOrder) && k < j < |s|
    ensures s[k].name == s[j].name || StringLess(s[k].name, s[j].name)
  {
    assert !NameOrder(s[j], s[k]);
    StringLessStrictTotal(s[k].name, s[j].name, s[k].name);
  }

  /** Where a name-sorted list changes name, no name occurs on both sides. */
  lemma NameBarrier(s: seq<Field>, b: nat, k: nat, j: nat)
    requires SortedBy(s, NameOrder) && 0 < b < |s| && s[b - 1].name != s[b].name
    requires k < b <= j < |s|
    ensures s[k].name != s[j].name
  {
    var a, c := s[b - 1].name, s[b].name;
    NamesNondecreasing(s, b - 1, b);
    if k < b - 1 { NamesNondecreasing(s, k, b - 1); }
    if b < j { NamesNondecreasing(s, b, j); }
    var n := s[k].name;
    StringLessStrictTotal(n, a, c);
    StringLessStrictTotal(a, c, s[j].name);
    StringLessStrictTotal(n, c, s[j].name);
    StringLessStrictTotal(n, a, s[j].name);
  }

  ghost predicate GroupStart(s: seq<Field>, i: nat) {
    0 < i < |s| ==> s[i - 1].name != s[i].name
  }

  /** The group of fields named like s[i] is exactly s[i..RunEnd(s, i, i + 1)]. */
  lemma GroupExtent(s: seq<Field>, i: nat)
    requires SortedBy(s, NameOrder) && i < |s| && GroupStart(s, i)
    ensures var e := RunEnd(s, i, i + 1);
      && (forall k | i <= k < e :: s[k].name == s[i].name)
      && (forall k | 0 <= k < |s| && s[k].name == s[i].name :: i <= k < e)
      && GroupStart(s, e)
  {
    var e := RunEnd(s, i, i + 1);
    RunEndFacts(s, i, i + 1);
    forall k | 0 <= k < |s| && s[k].name == s[i].name ensures i <= k < e {
      if k < i { NameBarrier(s, i, k, i); }
      if k >= e { NameBarrier(s, e, i, k); }
    }
  }

  lemma GroupSorted(s: seq<Field>, i: nat, e: nat)
    requires SortedBy(s, NameOrder) && i <= e <= |s|
    ensures SortedBy(s[i..e], NameOrder)
  {
    var group := s[i..e];
    forall a, b | 0 <= a < b < |group| ensures !NameOrder(group[b], group[a]) {
      assert group[a] == s[i + a] && group[b] == s[i + b];
    }
  }

  /** What one group contributes: its first field if that field hides the rest, and nothing else. */
  lemma GroupKeep(s: seq<Field>, i: nat)
    requires SortedBy(s, NameOrder) && i < |s| && GroupStart(s, i)
    ensures var e := RunEnd(s, i, i + 1);
      && Keep(s[i..e]) == (if Hides(s, i) then [s[i]] else [])
      && forall p | i < p < e :: !Hides(s, p)
  {
    var e := RunEnd(s, i, i + 1);
    GroupExtent(s, i);
    GroupSorted(s, i, e);
    GroupSlice(s, i, e);
    KeepFirstBeats(s[i..e]);
    GroupHides(s, i, e);
    GroupTailHidden(s, i, e);
  }

  /** The group as a slice: one name throughout, and its first field beats the rest as s[i] does. */
  lemma GroupSlice(s: seq<Field>, i: nat, e: nat)
    requires i < e <= |s|
    requires forall k | i <= k < e :: s[k].name == s[i].name
    ensures s[i..e][0] == s[i]
    ensures forall k | 0 <= k < |s[i..e]| :: s[i..e][k].name == s[i..e][0].name
    ensures (forall k | 1 <= k < |s[i..e]| :: Beats(s[i..e][0], s[i..e][k])) <==> (forall k | i < k < e :: Beats(s[i], s[k]))
  {
    var group := s[i..e];
    forall k | 0 <= k < |group| ensures group[k] == s[i + k] { }
    if forall k | i < k < e :: Beats(s[i], s[k]) {
      forall k | 1 <= k < |group| ensures Beats(group[0], group[k]) {
        assert group[k] == s[i + k];
      }
    }
    if forall k | 1 <= k < |group| :: Beats(group[0], group[k]) {
      forall k | i < k < e ensures Beats(s[i], s[k]) {
        assert group[k - i] == s[k];
      }
    }
  }

  /** A name group keeps its first field exactly when that field beats all the others. */
  lemma KeepFirstBeats(group: seq<Field>)
    requires |group| > 0 && SortedBy(group, NameOrder)
    requires forall k | 0 <= k < |group| :: group[k].name == group[0].name
    ensures Keep(group) == if forall k | 1 <= k < |group| :: Beats(group[0], group[k]) then [group[0]] else []
  {
    if |group| > 1 {
      DominantFieldHides(group);
    }
  }

  /** Inside its name group s[i..e], s[i] hides the others exactly when it beats each of them. */
  lemma GroupHides(s: seq<Field>, i: nat, e: nat)
    requires i < e <= |s|
    requires forall k | i <= k < e :: s[k].name == s[i].name
    requires forall k | 0 <= k < |s| && s[k].name == s[i].name :: i <= k < e
    ensures Hides(s, i) <==> forall k | i < k < e :: Beats(s[i], s[k])
  {
  }

  /** No later field of a name-sorted group hides the others: none beats the first. */
  lemma GroupTailHidden(s: seq<Field>, i: nat, e: nat)
    requires SortedBy(s, NameOrder) && i < e <= |s|
    requires forall k | i <= k < e :: s[k].name == s[i].name
    ensures forall p | i < p < e :: !Hides(s, p)
  {
    forall p | i < p < e ensures !Hides(s, p) {
      assert !NameOrder(s[p], s[i]);
    }
  }

  /** The fields kept from position i on are exactly those that hide the rest of their name group. */
  ghost predicate KeepsHiders(s: seq<Field>, i: nat) {
    forall f :: f in CompactFrom(s, i) <==> exists p | i <= p < |s| :: s[p] == f && Hides(s, p)
  }

  /** The compaction keeps, once each, exactly the fields that hide the rest of their name group. */
  lemma {:induction false} CompactMembers(s: seq<Field>, i: nat)
    requires SortedBy(s, NameOrder) && i <= |s| && GroupStart(s, i)
    ensures forall f :: f in CompactFrom(s, i) <==> exists p | i <= p < |s| :: s[p] == f && Hides(s, p)
    ensures NamesDistinct(CompactFrom(s, i))
    decreases |s| - i
  {
    if i < |s| {
      GroupExtent(s, i);
      CompactMembers(s, RunEnd(s, i, i + 1));
      CompactStepMembers(s, i);
      CompactStepDistinct(s, i);
    }
  }

  lemma CompactStepMembers(s: seq<Field>, i: nat)
    requires SortedBy(s, NameOrder) && i < |s| && GroupStart(s, i)
    requires KeepsHiders(s, RunEnd(s, i, i + 1))
    ensures KeepsHiders(s, i)
  {
    var e := RunEnd(s, i, i + 1);
    GroupKeep(s, i);
    assert CompactFrom(s, i) == Keep(s[i..e]) + CompactFrom(s, e);
    JoinHiders(s, i, e, Keep(s[i..e]), CompactFrom(s, e));
  }

  /** The hiding fields from i on: those of the group s[i..e], then those from e on. */
  lemma JoinHiders(s: seq<Field>, i: nat, e: nat, kept: seq<Field>, rest: seq<Field>)
    requires i < e <= |s|
    requires kept == (if Hides(s, i) then [s[i]] else [])
    requires forall p | i < p < e :: !Hides(s, p)
    requires forall f :: f in rest <==> exists p | e <= p < |s| :: s[p] == f && Hides(s, p)
    ensures forall f :: f in kept + rest <==> exists p | i <= p < |s| :: s[p] == f && Hides(s, p)
  {
    forall f ensures f in kept + rest <==> exists p | i <= p < |s| :: s[p] == f && Hides(s, p) {
      if f in kept {
        assert i <= i < |s| && s[i] == f && Hides(s, i);
      }
      if f in rest {
        var p :| e <= p < |s| && s[p] == f && Hides(s, p);
        assert i <= p < |s| && s[p] == f && Hides(s, p);
      }
      if exists p | i <= p < |s| :: s[p] == f && Hides(s, p) {
        var p :| i <= p < |s| && s[p] == f && Hides(s, p);
        if p == i {
          assert f in kept;
        } else {
          assert e <= p;
          assert f in rest;
        }
      }
    }
  }

  lemma CompactStepDistinct(s: seq<Field>, i: nat)
    requires SortedBy(s, NameOrder) && i < |s| && GroupStart(s, i)
    requires KeepsHiders(s, RunEnd(s, i, i + 1)) && NamesDistinct(CompactFrom(s, RunEnd(s, i, i + 1)))
    ensures NamesDistinct(CompactFrom(s, i))
  {
    var e := RunEnd(s, i, i + 1);
    GroupExtent(s, i);
    GroupKeep(s, i);
    var kept := Keep(s[i..e]);
    var rest := CompactFrom(s, e);
    assert CompactFrom(s, i) == kept + rest;
    forall f | f in rest ensures f.name != s[i].name {
      var p :| e <= p < |s| && s[p] == f && Hides(s, p);
    }
    if Hides(s, i) {
      DistinctPrepend(s[i], rest);
    } else {
      assert kept + rest == rest;
    }
  }

  lemma DistinctPrepend(x: Field, rest: seq<Field>)
    requires NamesDistinct(rest) && forall f | f in rest :: f.name != x.name
    ensures NamesDistinct([x] + rest)
  {
    var r := [x] + rest;
    forall a, b | 0 <= a < b < |r| ensures r[a].name != r[b].name {
      assert r[b] == rest[b - 1];
      if a > 0 { assert r[a] == rest[a - 1]; } else { assert r[b] in rest; }
    }
  }

  /** The sorted, compacted candidates. */
  lemma CompactedSorted(env: Env, t: TypeId)
    ensures var s := SortBy(Candidates(env, t), NameOrder);
      && SortedBy(s, NameOrder)
      && (forall f :: f in CompactFrom(s, 0) <==> exists p | 0 <= p < |s| :: s[p] == f && Hides(s, p))
      && NamesDistinct(CompactFrom(s, 0))
  {
    NameOrderStrictWeak();
    SortBySorted(Candidates(env, t), NameOrder);
    CompactMembers(SortBy(Candidates(env, t), NameOrder), 0);
  }

  /** Each resolved field is the single dominant field of its name among the candidates. */
  lemma TypeFieldsDominant(env: Env, t: TypeId)
    ensures forall f :: f in TypeFieldsSpec(env, t) <==> Dominant(f, multiset(Candidates(env, t)))
  {
    var s := SortBy(Candidates(env, t), NameOrder);
    CompactedSorted(env, t);
    var compact := CompactFrom(s, 0);
    HidersDominant(s, compact);
    SortByMembers(compact, ByIndex);
  }

  /** The fields that hide the rest of their name group are the dominant ones. */
  lemma HidersDominant(s: seq<Field>, kept: seq<Field>)
    requires forall f :: f in kept <==> exists p | 0 <= p < |s| :: s[p] == f && Hides(s, p)
    ensures forall f :: f in kept <==> Dominant(f, multiset(s))
  {
    forall f ensures f in kept <==> Dominant(f, multiset(s)) {
      if f in kept {
        var p :| 0 <= p < |s| && s[p] == f && Hides(s, p);
        HidesIffDominant(s, p);
      }
      if Dominant(f, multiset(s)) {
        assert f in multiset(s);
        var p :| 0 <= p < |s| && s[p] == f;
        HidesIffDominant(s, p);
      }
    }
  }

  /** No two resolved fields share a name. */
  lemma TypeFieldsNamesDistinct(env: Env, t: TypeId)
    ensures NamesDistinct(TypeFieldsSpec(env, t))
  {
    CompactedSorted(env, t);
    var compact := CompactFrom(SortBy(Candidates(env, t), NameOrder), 0);
    DistinctUnderPermutation(compact, SortBy(compact, ByIndex));
  }

  /** Reordering a list whose names are distinct keeps them distinct. */
  lemma DistinctUnderPermutation(a: seq<Field>, b: seq<Field>)
    requires multiset(a) == multiset(b) && NamesDistinct(a)
    ensures NamesDistinct(b)
  {
    forall i, j | 0 <= i < j < |b| ensures b[i].name != b[j].name {
      if b[i].name == b[j].name {
        assert b[i] in multiset(a) && b[j] in multiset(a);
        var p :| 0 <= p < |a| && a[p] == b[i];
        var q :| 0 <= q < |a| && a[q] == b[j];
        assert p == q;
        CountOnePosition(a, p);
        CountOnePosition(b, i);
      }
    }
  }

  /** At most one field of each name is dominant. */
  lemma DominantUnique(f: Field, g: Field, m: multiset<Field>)
    requires Dominant(f, m) && Dominant(g, m) && f.name == g.name
    ensures f == g
  {
    assert f in m && g in m;
  }

  /** The resolved fields come out in index order. */
  lemma TypeFieldsIndexOrder(env: Env, t: TypeId)
    ensures SortedBy(TypeFieldsSpec(env, t), ByIndex)
  {
    ByIndexStrictWeak();
    SortBySorted(CompactFrom(SortBy(Candidates(env, t), NameOrder), 0), ByIndex);
  }
}
