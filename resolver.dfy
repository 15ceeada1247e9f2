/**
  The field resolver of encode.go (typeFields and its helpers), as functions.

  typeFields runs a breadth-first search over a struct type and the anonymous struct types it
  embeds, level by level.  Each loop of that search is written here as a fold over a prefix of the
  sequence it walks, so that the imperative method TypeFields.TypeFields can be proved equal to it
  one loop iteration at a time.
 */
module Resolver {
  import opened Wrappers
  import opened GoTypes
  import opened Ordering
  import opened Tags

  /** The program's types and the Unicode letter/digit classification. */
  datatype Env = Env(types: TypeTable, runes: RuneTable)

  /**
    A field the encoder recognises (encode.go `field`).  The encoder of a field is not stored: it
    is the encoder of TypeByIndex(root, index).
   */
  datatype Field = Field(name: string, tag: bool, index: seq<int>, typ: TypeId,
                         omitEmpty: bool, quoted: bool, inline: bool)

  /** The entry typeFields starts its search from. */
  function RootEntry(t: TypeId): Field {
    Field("", false, [], t, false, false, false)
  }

  /** typeByIndex: the declared type reached by following `index` from `t`, past pointers. */
  function TypeByIndex(types: TypeTable, t: TypeId, index: seq<int>): Option<TypeId>
    decreases |index|
  {
    if index == [] then Some(t)
    else
      var fs := FieldsOf(types, Deref(types, t));
      if 0 <= index[0] < |fs| then TypeByIndex(types, fs[index[0]].ty, index[1..]) else None
  }

  /** The declared field that `index` ends at, walking from `t` the way typeByIndex does. */
  function FieldAt(types: TypeTable, t: TypeId, index: seq<int>): Option<StructField>
    decreases |index|
  {
    if index == [] then None
    else
      var fs := FieldsOf(types, Deref(types, t));
      if 0 <= index[0] < |fs| then
        if |index| == 1 then Some(fs[index[0]]) else FieldAt(types, fs[index[0]].ty, index[1..])
      else None
  }

  function Count(m: map<TypeId, nat>, t: TypeId): nat {
    if t in m then m[t] else 0
  }

  /** Kinds whose values the "string" option may quote. */
  predicate Quotable(k: Kind) {
    k in {Bool, Int, Uint, Float, String, Struct}
  }

  /** `if ft.Name() == "" && ft.Kind() == reflect.Pointer { ft = ft.Elem() }` */
  function FollowUnnamedPointer(types: TypeTable, t: TypeId): TypeId {
    if !Named(types, t) && KindOf(types, t) == Pointer then Elem(types, t) else t
  }

  /** A field the search does not skip: exported, or embedded with a struct (or pointer to struct) type. */
  predicate Visible(types: TypeTable, sf: StructField) {
    if sf.anonymous then sf.exported || KindOf(types, Deref(types, sf.ty)) == Struct
    else sf.exported
  }

  /** The field record typeFields builds for declared field `sf`, reached through `index`. */
  function FieldFrom(env: Env, index: seq<int>, sf: StructField): Field {
    var valid := ValidTagName(env.runes, sf.tag.name);
    var ft := FollowUnnamedPointer(env.types, sf.ty);
    Field(if valid then sf.tag.name else sf.name, valid, index, ft,
          "omitempty" in sf.tag.options,
          "string" in sf.tag.options && Quotable(KindOf(env.types, ft)),
          "inline" in sf.tag.options && KindOf(env.types, ft) == Struct)
  }

  /** A visible field that is recorded at once rather than queued for expansion. */
  predicate IsLeaf(env: Env, sf: StructField) {
    ValidTagName(env.runes, sf.tag.name) || !sf.anonymous
    || KindOf(env.types, FollowUnnamedPointer(env.types, sf.ty)) != Struct
  }

  /** One copy, or two when the type was reached twice at this level (so that it annihilates). */
  function Copies(fld: Field, count: map<TypeId, nat>, t: TypeId): seq<Field> {
    if Count(count, t) > 1 then [fld, fld] else [fld]
  }

  /** What the scan of one struct type accumulates. */
  datatype Scan = Scan(fields: seq<Field>, next: seq<Field>, nextCount: map<TypeId, nat>, hasExported: bool)

  /** The body of the innermost loop of typeFields, for declared field number `i` of `f.typ`. */
  function ScanField(env: Env, f: Field, count: map<TypeId, nat>, i: nat, sf: StructField, acc: Scan): Scan {
    if !Visible(env.types, sf) then acc
    else if sf.tag.dash then acc.(hasExported := true)
    else
      var fld := FieldFrom(env, f.index + [i], sf);
      if IsLeaf(env, sf) then
        acc.(fields := acc.fields + Copies(fld, count, f.typ), hasExported := true)
      else
        var n := Count(acc.nextCount, fld.typ) + 1;
        acc.(next := if n == 1 then acc.next + [fld] else acc.next,
             nextCount := acc.nextCount[fld.typ := n],
             hasExported := true)
  }

  /** The innermost loop after its first `n` iterations. */
  function ScanFields(env: Env, f: Field, count: map<TypeId, nat>, acc: Scan, n: nat): Scan
    requires n <= |FieldsOf(env.types, f.typ)|
  {
    if n == 0 then acc
    else ScanField(env, f, count, n - 1, FieldsOf(env.types, f.typ)[n - 1], ScanFields(env, f, count, acc, n - 1))
  }

  /** The state the outer loop carries from one level to the next. */
  datatype Bfs = Bfs(visited: set<TypeId>, fields: seq<Field>, next: seq<Field>, nextCount: map<TypeId, nat>)

  /** The body of the middle loop: expand entry `f` unless its type was visited already. */
  function ScanEntry(env: Env, count: map<TypeId, nat>, f: Field, st: Bfs): Bfs {
    if f.typ in st.visited then st
    else
      var acc := ScanFields(env, f, count, Scan(st.fields, st.next, st.nextCount, false), |FieldsOf(env.types, f.typ)|);
      var own := if !acc.hasExported && f.name != "" && KindOf(env.types, f.typ) == Struct
                 then Copies(f, count, f.typ) else [];
      Bfs(st.visited + {f.typ}, acc.fields + own, acc.next, acc.nextCount)
  }

  /** The middle loop after its first `k` iterations over the level `current`. */
  function ScanLevel(env: Env, current: seq<Field>, count: map<TypeId, nat>, st: Bfs, k: nat): (r: Bfs)
    requires k <= |current|
    ensures st.visited <= r.visited
    ensures r.visited == st.visited ==> r == st
    ensures StructQueue(env.types, st.next) ==> StructQueue(env.types, r.next)
  {
    if k == 0 then st
    else
      var prev := ScanLevel(env, current, count, st, k - 1);
      ScanEntryQueue(env, count, current[k - 1], prev);
      ScanEntry(env, count, current[k - 1], prev)
  }

  /** The middle loop marks visited only the types of the entries it goes through. */
  lemma {:induction false} ScanLevelVisited(env: Env, current: seq<Field>, count: map<TypeId, nat>, st: Bfs, k: nat,
                                            u: set<TypeId>)
    requires k <= |current| && QueueIn(current, u) && st.visited <= u
    ensures ScanLevel(env, current, count, st, k).visited <= u
  {
    if k > 0 {
      ScanLevelVisited(env, current, count, st, k - 1, u);
      assert current[k - 1].typ in u;
    }
  }

  /** Every queued entry has a struct type. */
  ghost predicate StructQueue(types: TypeTable, q: seq<Field>) {
    forall j | 0 <= j < |q| :: KindOf(types, q[j].typ) == Struct
  }

  lemma ScanEntryQueue(env: Env, count: map<TypeId, nat>, f: Field, st: Bfs)
    ensures StructQueue(env.types, st.next) ==> StructQueue(env.types, ScanEntry(env, count, f, st).next)
  {
    if f.typ !in st.visited && StructQueue(env.types, st.next) {
      ScanFieldsQueue(env, f, count, Scan(st.fields, st.next, st.nextCount, false), |FieldsOf(env.types, f.typ)|);
    }
  }

  lemma {:induction false} ScanFieldsQueue(env: Env, f: Field, count: map<TypeId, nat>, acc: Scan, n: nat)
    requires n <= |FieldsOf(env.types, f.typ)|
    requires StructQueue(env.types, acc.next)
    ensures StructQueue(env.types, ScanFields(env, f, count, acc, n).next)
  {
    if n > 0 { ScanFieldsQueue(env, f, count, acc, n - 1); }
  }

  /** One whole level of the search: `st.next` is the level, `st.nextCount` its counts. */
  function Level(env: Env, st: Bfs): Bfs
    requires StructQueue(env.types, [])
  {
    ScanLevel(env, st.next, st.nextCount, Bfs(st.visited, st.fields, [], map[]), |st.next|)
  }

  /** The types the search can meet: the table's struct types and the root. */
  function Universe(env: Env, root: TypeId): set<TypeId> {
    env.types.Keys + {root}
  }

  ghost predicate QueueIn(q: seq<Field>, u: set<TypeId>) {
    forall j | 0 <= j < |q| :: q[j].typ in u
  }

  /**
    The outer loop of the search, run to the end.  Each type is expanded at most once, so the search
    stops even when a struct embeds itself.
   */
  function Collect(env: Env, root: TypeId, st: Bfs): seq<Field>
    requires QueueIn(st.next, Universe(env, root)) && st.visited <= Universe(env, root)
    decreases |Universe(env, root) - st.visited|, |st.next|
  {
    if st.next == [] then st.fields
    else
      LevelProgress(env, root, st);
      var st' := Level(env, st);
      if st'.visited == st.visited then st'.fields
      else Collect(env, root, st')
  }

  /** A level that expands no new type queues nothing; otherwise fewer types remain unvisited. */
  lemma LevelProgress(env: Env, root: TypeId, st: Bfs)
    requires QueueIn(st.next, Universe(env, root)) && st.visited <= Universe(env, root)
    ensures var st' := Level(env, st);
      && QueueIn(st'.next, Universe(env, root)) && st'.visited <= Universe(env, root)
      && (st'.visited == st.visited ==> st'.next == [])
      && (st'.visited != st.visited ==> |Universe(env, root) - st'.visited| < |Universe(env, root) - st.visited|)
  {
    var u := Universe(env, root);
    var init := Bfs(st.visited, st.fields, [], map[]);
    var st' := ScanLevel(env, st.next, st.nextCount, init, |st.next|);
    assert st' == Level(env, st);
    ScanLevelVisited(env, st.next, st.nextCount, init, |st.next|, u);
    QueueInUniverse(env, root, st'.next);
    if st'.visited != st.visited {
      FewerUnvisited(u, st.visited, st'.visited);
    }
  }

  lemma FewerUnvisited(u: set<TypeId>, v0: set<TypeId>, v1: set<TypeId>)
    requires v0 <= v1 <= u && v0 != v1
    ensures |u - v1| < |u - v0|
  {
    var x :| x in v1 && x !in v0;
    assert u - v1 <= (u - v0) - {x};
    assert |(u - v0) - {x}| == |u - v0| - 1;
    SubsetCard(u - v1, (u - v0) - {x});
  }

  lemma SubsetCard(a: set<TypeId>, b: set<TypeId>)
    requires a <= b
    ensures |a| <= |b|
  {
    assert b == a + (b - a);
  }

  lemma QueueInUniverse(env: Env, root: TypeId, q: seq<Field>)
    requires StructQueue(env.types, q)
    ensures QueueIn(q, Universe(env, root))
  {
    forall j | 0 <= j < |q| ensures q[j].typ in Universe(env, root) {
      assert KindOf(env.types, q[j].typ) == Struct;
    }
  }

  /** All candidate fields of `root`, in the order the search finds them. */
  function Candidates(env: Env, root: TypeId): seq<Field> {
    Collect(env, root, Bfs({}, [], [RootEntry(root)], map[]))
  }

  // ---------------------------------------------------------------------------------------
  // Choosing one field per name.

  /** The comparator of typeFields' first sort: name, then depth, then tagged first, then index. */
  predicate NameOrder(a: Field, b: Field) {
    if a.name != b.name then StringLess(a.name, b.name)
    else if |a.index| != |b.index| then |a.index| < |b.index|
    else if a.tag != b.tag then a.tag
    else IndexLess(a.index, b.index)
  }

  /** byIndex: order by index sequence. */
  predicate ByIndex(a: Field, b: Field) {
    IndexLess(a.index, b.index)
  }

  /** Field `a` hides field `b` of the same name: it is shallower, or as deep and alone in being tagged. */
  predicate Beats(a: Field, b: Field) {
    |a.index| < |b.index| || (|a.index| == |b.index| && a.tag && !b.tag)
  }

  /** dominantField: the first field of the group, unless the first two tie. */
  function DominantField(fields: seq<Field>): Option<Field>
    requires |fields| > 0
  {
    if |fields| > 1 && |fields[0].index| == |fields[1].index| && fields[0].tag == fields[1].tag then None
    else Some(fields[0])
  }

  /** The end of the run of fields named like fields[i], scanning from j. */
  function RunEnd(s: seq<Field>, i: nat, j: nat): (e: nat)
    requires i < j <= |s|
    ensures j <= e <= |s|
    decreases |s| - j
  {
    if j < |s| && s[j].name == s[i].name then RunEnd(s, i, j + 1) else j
  }

  /** What one name group contributes: its only field, or its dominant field if there is one. */
  function Keep(group: seq<Field>): seq<Field>
    requires |group| > 0
  {
    if |group| == 1 then [group[0]]
    else match DominantField(group) case Some(d) => [d] case None => []
  }

  /** The fields kept from the name groups starting at position i of a name-sorted list. */
  function CompactFrom(s: seq<Field>, i: nat): seq<Field>
    decreases |s| - i
  {
    if i >= |s| then [] else Keep(s[i..RunEnd(s, i, i + 1)]) + CompactFrom(s, RunEnd(s, i, i + 1))
  }

  /** typeFields: the candidates, deduplicated by name, in index order. */
  function TypeFieldsSpec(env: Env, t: TypeId): seq<Field> {
    SortBy(CompactFrom(SortBy(Candidates(env, t), NameOrder), 0), ByIndex)
  }
}
