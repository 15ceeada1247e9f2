/**
  Promotion: the fields of an embedded struct become fields of the struct that embeds it, as
  typeFields finds them on the second level of its search, unless a field of the same name at the
  same depth or above hides them.
 */
module Promotion {
  import opened Wrappers
  import opened GoTypes
  import opened Ordering
  import opened Resolver
  import opened CompactionFacts

  // ---------------------------------------------------------------------------------------
  // The search only adds to what it has found.

  lemma {:induction false} ScanFieldsGrow(env: Env, f: Field, count: map<TypeId, nat>, acc: Scan, n: nat)
    requires n <= |FieldsOf(env.types, f.typ)|
    ensures acc.fields <= ScanFields(env, f, count, acc, n).fields
  {
    if n > 0 {
      ScanFieldsGrow(env, f, count, acc, n - 1);
    }
  }

  lemma ScanEntryGrow(env: Env, count: map<TypeId, nat>, f: Field, st: Bfs)
    ensures st.fields <= ScanEntry(env, count, f, st).fields
  {
    if f.typ !in st.visited {
      ScanFieldsGrow(env, f, count, Scan(st.fields, st.next, st.nextCount, false), |FieldsOf(env.types, f.typ)|);
    }
  }

  lemma {:induction false} ScanLevelGrow(env: Env, current: seq<Field>, count: map<TypeId, nat>, st: Bfs, k0: nat, k: nat)
    requires k0 <= k <= |current|
    ensures ScanLevel(env, current, count, st, k0).fields <= ScanLevel(env, current, count, st, k).fields
    decreases k
  {
    if k0 < k {
      ScanLevelGrow(env, current, count, st, k0, k - 1);
      ScanEntryGrow(env, count, current[k - 1], ScanLevel(env, current, count, st, k - 1));
    }
  }

  /** The fields found by the level after st are among the fields the whole search from st finds. */
  lemma {:induction false} CollectGrow(env: Env, root: TypeId, st: Bfs)
    requires QueueIn(st.next, Universe(env, root)) && st.visited <= Universe(env, root)
    ensures st.fields <= Collect(env, root, st)
    ensures st.next != [] ==> Level(env, st).fields <= Collect(env, root, st)
    decreases |Universe(env, root) - st.visited|, |st.next|
  {
    if st.next != [] {
      LevelProgress(env, root, st);
      var init := Bfs(st.visited, st.fields, [], map[]);
      ScanLevelGrow(env, st.next, st.nextCount, init, 0, |st.next|);
      var st' := Level(env, st);
      if st'.visited != st.visited {
        CollectGrow(env, root, st');
      }
    }
  }

  /** The middle loop has visited only the types it started with and those of the entries it went through. */
  lemma {:induction false} ScanLevelVisitedBefore(env: Env, current: seq<Field>, count: map<TypeId, nat>, st: Bfs, k: nat, v: TypeId)
    requires k <= |current|
    requires v !in st.visited && forall i | 0 <= i < k :: current[i].typ != v
    ensures v !in ScanLevel(env, current, count, st, k).visited
  {
    if k > 0 {
      ScanLevelVisitedBefore(env, current, count, st, k - 1, v);
    }
  }

  // ---------------------------------------------------------------------------------------
  // An embedded struct and the fields it promotes

  /** A declared field the search descends into: an untagged embedded struct, or unnamed pointer to one, not skipped. */
  predicate Expanded(env: Env, sf: StructField) {
    Visible(env.types, sf) && !sf.tag.dash && !IsLeaf(env, sf)
  }

  /** The struct type an expanded field leads to. */
  function EmbeddedType(env: Env, sf: StructField): TypeId {
    FollowUnnamedPointer(env.types, sf.ty)
  }

  /**
    Field k of the struct that field j of t embeds is one the search records on its second level:
    field j is expanded, no other expanded field of t leads to the same struct type, that type is
    not t itself, and field k is visible, not tagged "-" and recorded as it stands.
   */
  ghost predicate Promotable(env: Env, t: TypeId, j: nat, k: nat) {
    var fs := FieldsOf(env.types, t);
    && j < |fs| && Expanded(env, fs[j])
    && var u := EmbeddedType(env, fs[j]);
       && u != t
       && (forall i | 0 <= i < |fs| && i != j && Expanded(env, fs[i]) :: EmbeddedType(env, fs[i]) != u)
       && k < |FieldsOf(env.types, u)|
       && var sk := FieldsOf(env.types, u)[k];
          Visible(env.types, sk) && !sk.tag.dash && IsLeaf(env, sk)
  }

  /** The field record of that promoted field: field k of the embedded struct, reached through [j, k]. */
  function Promoted(env: Env, t: TypeId, j: nat, k: nat): (x: Field)
    requires Promotable(env, t, j, k)
    ensures x.index == [j, k]
  {
    FieldFrom(env, [j, k], FieldsOf(env.types, EmbeddedType(env, FieldsOf(env.types, t)[j]))[k])
  }

  /** Entry p of q is the first entry to have its type. */
  ghost predicate FirstOfType(q: seq<Field>, p: nat, x: Field) {
    p < |q| && q[p] == x && forall i | 0 <= i < p :: q[i].typ != x.typ
  }

  /** What one step of the innermost loop queues: an expanded field the first time its type is met. */
  lemma ScanFieldQueue(env: Env, f: Field, count: map<TypeId, nat>, i: nat, sf: StructField, acc: Scan)
    ensures var r := ScanField(env, f, count, i, sf, acc);
      var fld := FieldFrom(env, f.index + [i], sf);
      && (Expanded(env, sf) ==>
            && r.next == (if Count(acc.nextCount, fld.typ) == 0 then acc.next + [fld] else acc.next)
            && r.nextCount == acc.nextCount[fld.typ := Count(acc.nextCount, fld.typ) + 1])
      && (!Expanded(env, sf) ==> r.next == acc.next && r.nextCount == acc.nextCount)
  {
  }

  /** The scan of the root's first n declared fields, in acc: before field j it has queued nothing of the embedded type; from field j on it has queued field j once, first of its type. */
  ghost predicate RootScanned(env: Env, t: TypeId, j: nat, k: nat, n: nat, acc: Scan)
    requires Promotable(env, t, j, k)
  {
    var fs := FieldsOf(env.types, t);
    var u := EmbeddedType(env, fs[j]);
    && (n <= j ==> Count(acc.nextCount, u) == 0 && forall i | 0 <= i < |acc.next| :: acc.next[i].typ != u)
    && (n > j ==> Count(acc.nextCount, u) == 1 && exists p :: FirstOfType(acc.next, p, FieldFrom(env, [j], fs[j])))
  }

  /** The root's first n declared fields, scanned. */
  lemma {:induction false} RootScan(env: Env, t: TypeId, j: nat, k: nat, n: nat)
    requires Promotable(env, t, j, k) && n <= |FieldsOf(env.types, t)|
    ensures RootScanned(env, t, j, k, n, ScanFields(env, RootEntry(t), map[], Scan([], [], map[], false), n))
  {
    if n > 0 {
      RootScan(env, t, j, k, n - 1);
      RootScanStep(env, t, j, k, n);
    }
  }

  /** Scanning root field n - 1 keeps the scan as RootScanned describes it. */
  lemma RootScanStep(env: Env, t: TypeId, j: nat, k: nat, n: nat)
    requires Promotable(env, t, j, k) && 0 < n <= |FieldsOf(env.types, t)|
    requires RootScanned(env, t, j, k, n - 1, ScanFields(env, RootEntry(t), map[], Scan([], [], map[], false), n - 1))
    ensures RootScanned(env, t, j, k, n, ScanFields(env, RootEntry(t), map[], Scan([], [], map[], false), n))
  {
    var fs := FieldsOf(env.types, t);
    var u := EmbeddedType(env, fs[j]);
    var prev := ScanFields(env, RootEntry(t), map[], Scan([], [], map[], false), n - 1);
    var sf := fs[n - 1];
    var fld := FieldFrom(env, [n - 1], sf);
    assert RootEntry(t).index + [n - 1] == [n - 1];
    var acc := ScanField(env, RootEntry(t), map[], n - 1, sf, prev);
    assert acc == ScanFields(env, RootEntry(t), map[], Scan([], [], map[], false), n);
    ScanFieldQueue(env, RootEntry(t), map[], n - 1, sf, prev);
    if n - 1 == j {
      assert acc.next == prev.next + [fld];
      assert FirstOfType(acc.next, |prev.next|, fld);
    } else if Expanded(env, sf) {
      assert fld.typ != u;
      if n > j {
        var p :| FirstOfType(prev.next, p, FieldFrom(env, [j], fs[j]));
        assert FirstOfType(acc.next, p, FieldFrom(env, [j], fs[j]));
      }
    } else {
      assert acc.next == prev.next && acc.nextCount == prev.nextCount;
    }
  }

  /** The first level of the search from t, spelled out. */
  lemma FirstLevel(env: Env, t: TypeId)
    requires KindOf(env.types, t) == Struct
    ensures var st0 := Bfs({}, [], [RootEntry(t)], map[]);
      var acc := ScanFields(env, RootEntry(t), map[], Scan([], [], map[], false), |FieldsOf(env.types, t)|);
      var st1 := Level(env, st0);
      && st1.visited == {t} && st1.next == acc.next && st1.nextCount == acc.nextCount
      && Candidates(env, t) == (if st1.next == [] then st1.fields else Collect(env, t, st1))
  {
    var st0 := Bfs({}, [], [RootEntry(t)], map[]);
    var empty := Bfs({}, [], [], map[]);
    assert ScanLevel(env, [RootEntry(t)], map[], empty, 1) == ScanEntry(env, map[], RootEntry(t), empty);
    LevelProgress(env, t, st0);
  }

  /** Scanning the embedded struct's declared fields records field k, once. */
  lemma {:induction false} EmbeddedScan(env: Env, t: TypeId, j: nat, k: nat, count: map<TypeId, nat>, acc: Scan, n: nat)
    requires Promotable(env, t, j, k)
    requires var u := EmbeddedType(env, FieldsOf(env.types, t)[j]);
      Count(count, u) == 1 && k < n <= |FieldsOf(env.types, u)|
    ensures var f := FieldFrom(env, [j], FieldsOf(env.types, t)[j]);
      Promoted(env, t, j, k) in ScanFields(env, f, count, acc, n).fields
  {
    var f := FieldFrom(env, [j], FieldsOf(env.types, t)[j]);
    if n == k + 1 {
      assert f.index + [k] == [j, k];
    } else {
      EmbeddedScan(env, t, j, k, count, acc, n - 1);
      ScanFieldsGrow(env, f, count, ScanFields(env, f, count, acc, n - 1), 1);
    }
  }

  /** The second level of the search records the promoted field. */
  lemma SecondLevel(env: Env, t: TypeId, j: nat, k: nat, st1: Bfs, p: nat)
    requires Promotable(env, t, j, k)
    requires st1.visited == {t} && FirstOfType(st1.next, p, FieldFrom(env, [j], FieldsOf(env.types, t)[j]))
    requires Count(st1.nextCount, EmbeddedType(env, FieldsOf(env.types, t)[j])) == 1
    ensures Promoted(env, t, j, k) in Level(env, st1).fields
  {
    var f := FieldFrom(env, [j], FieldsOf(env.types, t)[j]);
    var u := f.typ;
    var init := Bfs(st1.visited, st1.fields, [], map[]);
    var prev := ScanLevel(env, st1.next, st1.nextCount, init, p);
    ScanLevelVisitedBefore(env, st1.next, st1.nextCount, init, p, u);
    var acc0 := Scan(prev.fields, prev.next, prev.nextCount, false);
    EmbeddedScan(env, t, j, k, st1.nextCount, acc0, |FieldsOf(env.types, u)|);
    var here := ScanLevel(env, st1.next, st1.nextCount, init, p + 1);
    assert here == ScanEntry(env, st1.nextCount, f, prev);
    assert Promoted(env, t, j, k) in here.fields;
    ScanLevelGrow(env, st1.next, st1.nextCount, init, p + 1, |st1.next|);
  }

  /** typeFields finds the promoted field among its candidates. */
  lemma CandidatesPromoted(env: Env, t: TypeId, j: nat, k: nat)
    requires KindOf(env.types, t) == Struct && Promotable(env, t, j, k)
    ensures Promoted(env, t, j, k) in Candidates(env, t)
  {
    var n := |FieldsOf(env.types, t)|;
    RootScan(env, t, j, k, n);
    FirstLevel(env, t);
    var st1 := Level(env, Bfs({}, [], [RootEntry(t)], map[]));
    var p :| FirstOfType(st1.next, p, FieldFrom(env, [j], FieldsOf(env.types, t)[j]));
    SecondLevel(env, t, j, k, st1, p);
    LevelProgress(env, t, Bfs({}, [], [RootEntry(t)], map[]));
    CollectGrow(env, t, st1);
  }

  /** No two candidates at depth one or two share the name `n`. */
  ghost predicate ShallowUnique(cs: seq<Field>, n: string) {
    forall p, q | 0 <= p < |cs| && 0 <= q < |cs| && cs[p].name == n && cs[q].name == n
                  && |cs[p].index| <= 2 && |cs[q].index| <= 2 :: p == q
  }

  /**
    Promotion: field k of a struct embedded in t is one of t's resolved fields, reached through
    [j, k], when no other candidate at depth one or two carries its name.
   */
  lemma TypeFieldsPromoted(env: Env, t: TypeId, j: nat, k: nat)
    requires KindOf(env.types, t) == Struct && Promotable(env, t, j, k)
    requires ShallowUnique(Candidates(env, t), Promoted(env, t, j, k).name)
    ensures Promoted(env, t, j, k) in TypeFieldsSpec(env, t)
  {
    var x := Promoted(env, t, j, k);
    var cs := Candidates(env, t);
    CandidatesPromoted(env, t, j, k);
    var p :| 0 <= p < |cs| && cs[p] == x;
    CountOnePosition(cs, p);
    forall g | g in multiset(cs) && g.name == x.name && g != x ensures Beats(x, g) {
      var q :| 0 <= q < |cs| && cs[q] == g;
      assert q != p;
    }
    assert Dominant(x, multiset(cs));
    TypeFieldsDominant(env, t);
  }
}
