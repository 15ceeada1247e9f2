/** The resolver of encode.go as the program runs it: byIndex.Less, typeFields and its cache. */
module StructFields {
  import opened Wrappers
  import opened GoTypes
  import opened Ordering
  import opened Tags
  import opened Resolver
  import opened CompactionFacts
  import opened TypeFieldsFacts

  /** byIndex.Less on two index sequences. */
  method ByIndexLess(x: seq<int>, y: seq<int>) returns (less: bool)
    ensures less == IndexLess(x, y)
  {
    var i := 0;
    while i < |x|
      invariant 0 <= i <= |x| && i <= |y|
      invariant x[..i] == y[..i]
      invariant IndexLess(x, y) == IndexLess(x[i..], y[i..])
    {
      if i >= |y| {
        return false;
      }
      if x[i] != y[i] {
        return x[i] < y[i];
      }
      assert x[i..][1..] == x[i + 1..] && y[i..][1..] == y[i + 1..];
      assert x[..i + 1] == x[..i] + [x[i]] && y[..i + 1] == y[..i] + [y[i]];
      i := i + 1;
    }
    return |x| < |y|;
  }

  /** The scan of declared field `i` of entry `f`, as the innermost loop of typeFields does it. */
  method ScanOne(env: Env, f: Field, count: map<TypeId, nat>, i: nat, sf: StructField, acc: Scan)
    returns (r: Scan)
    ensures r == ScanField(env, f, count, i, sf, acc)
  {
    r := acc;
    var types := env.types;
    if sf.anonymous {
      var ft := sf.ty;
      if KindOf(types, ft) == Pointer {
        ft := Elem(types, ft);
      }
      if !sf.exported && KindOf(types, ft) != Struct {
        return;
      }
    } else if !sf.exported {
      return;
    }
    r := r.(hasExported := true);
    if sf.tag.dash {
      return;
    }
    var fld, leaf := FieldRecord(env, f.index + [i], sf);
    if leaf {
      r := r.(fields := r.fields + [fld]);
      if Count(count, f.typ) > 1 {
        r := r.(fields := r.fields + [r.fields[|r.fields| - 1]]);
      }
      return;
    }
    var n := Count(r.nextCount, fld.typ) + 1;
    r := r.(nextCount := r.nextCount[fld.typ := n]);
    if n == 1 {
      r := r.(next := r.next + [fld]);
    }
  }

  /**
    The record typeFields builds for a visible declared field: the tag's name when it is valid,
    the type past an unnamed pointer, the options; and whether the field is recorded at once
    rather than queued for expansion.
   */
  method FieldRecord(env: Env, index: seq<int>, sf: StructField) returns (fld: Field, leaf: bool)
    ensures fld == FieldFrom(env, index, sf) && leaf == IsLeaf(env, sf)
  {
    var types := env.types;
    var name, opts := sf.tag.name, sf.tag.options;
    var valid := IsValidTag(env.runes, name);
    if !valid {
      name := "";
    }
    var ft := sf.ty;
    if !Named(types, ft) && KindOf(types, ft) == Pointer {
      ft := Elem(types, ft);
    }
    var quoted := "string" in opts && Quotable(KindOf(types, ft));
    var inline := "inline" in opts && KindOf(types, ft) == Struct;
    leaf := name != "" || !sf.anonymous || KindOf(types, ft) != Struct;
    var tagged := name != "";
    if name == "" {
      name := sf.name;
    }
    fld := Field(name, tagged, index, ft, "omitempty" in opts, quoted, inline);
  }

  /** The scan of one queued entry: expand its type unless an earlier level did. */
  method ScanOneEntry(env: Env, count: map<TypeId, nat>, f: Field, st: Bfs) returns (r: Bfs)
    ensures r == ScanEntry(env, count, f, st)
  {
    r := st;
    if f.typ in st.visited {
      return;
    }
    r := r.(visited := r.visited + {f.typ});
    var sfs := FieldsOf(env.types, f.typ);
    var acc := Scan(st.fields, st.next, st.nextCount, false);
    ghost var acc0 := acc;
    var i := 0;
    while i < |sfs|
      invariant 0 <= i <= |sfs|
      invariant acc == ScanFields(env, f, count, acc0, i)
    {
      acc := ScanOne(env, f, count, i, sfs[i], acc);
      i := i + 1;
    }
    var fields := acc.fields;
    if !acc.hasExported && f.name != "" && KindOf(env.types, f.typ) == Struct {
      fields := fields + [f];
      if Count(count, f.typ) > 1 {
        fields := fields + [fields[|fields| - 1]];
      }
    }
    r := Bfs(r.visited, fields, acc.next, acc.nextCount);
  }

  /** The name-group compaction loop of typeFields over a name-sorted list. */
  method CompactByName(fields: seq<Field>) returns (out: seq<Field>)
    ensures out == CompactFrom(fields, 0)
  {
    out := [];
    var i := 0;
    while i < |fields|
      invariant 0 <= i <= |fields|
      invariant CompactedUpTo(fields, i, out)
      decreases |fields| - i
    {
      var advance := GroupLength(fields, i);
      var kept := KeepOfGroup(fields[i..i + advance]);
      CompactLoopStep(out, fields, i, advance, kept);
      out := out + kept;
      i := i + advance;
    }
  }

  /** The compaction loop has appended, for the groups before position i, what CompactFrom keeps. */
  ghost predicate CompactedUpTo(fields: seq<Field>, i: nat, out: seq<Field>) {
    out + CompactFrom(fields, i) == CompactFrom(fields, 0)
  }

  /** One turn of the compaction loop appends what CompactFrom keeps from the group at i. */
  lemma CompactLoopStep(out: seq<Field>, fields: seq<Field>, i: nat, advance: nat, kept: seq<Field>)
    requires i < |fields| && i + advance == RunEnd(fields, i, i + 1) && kept == Keep(fields[i..i + advance])
    requires CompactedUpTo(fields, i, out)
    ensures CompactedUpTo(fields, i + advance, out + kept)
  {
    assert CompactFrom(fields, i) == kept + CompactFrom(fields, i + advance);
    AppendAssoc(out, kept, CompactFrom(fields, i + advance));
  }

  /** The inner loop: the length of the run of fields named like fields[i]. */
  method GroupLength(fields: seq<Field>, i: nat) returns (advance: nat)
    requires i < |fields|
    ensures i + advance == RunEnd(fields, i, i + 1)
  {
    var name := fields[i].name;
    advance := 1;
    while i + advance < |fields| && fields[i + advance].name == name
      invariant 1 <= advance && i + advance <= |fields|
      invariant RunEnd(fields, i, i + advance) == RunEnd(fields, i, i + 1)
    {
      advance := advance + 1;
    }
  }

  /** What the loop appends for one name group: its only field, or its dominant field if any. */
  method KeepOfGroup(group: seq<Field>) returns (kept: seq<Field>)
    requires |group| > 0
    ensures kept == Keep(group)
  {
    if |group| == 1 {
      return [group[0]];
    }
    var dominant := DominantField(group);
    kept := if dominant.Some? then [dominant.value] else [];
  }

  lemma AppendAssoc(a: seq<Field>, b: seq<Field>, c: seq<Field>)
    ensures (a + b) + c == a + (b + c)
  {
  }

  /** The middle loop of typeFields: scan every entry of one level. */
  method ScanOneLevel(env: Env, current: seq<Field>, count: map<TypeId, nat>, st: Bfs) returns (r: Bfs)
    ensures r == ScanLevel(env, current, count, st, |current|)
  {
    r := st;
    var k := 0;
    while k < |current|
      invariant 0 <= k <= |current|
      invariant r == ScanLevel(env, current, count, st, k)
    {
      r := ScanOneEntry(env, count, current[k], r);
      k := k + 1;
    }
  }

  /** typeFields: search, sort by name, keep one field per name, sort by index. */
  method TypeFields(env: Env, t: TypeId) returns (fs: seq<Field>)
    ensures fs == TypeFieldsSpec(env, t)
    ensures forall f :: f in fs <==> Dominant(f, multiset(Candidates(env, t)))
    ensures NamesDistinct(fs) && SortedBy(fs, ByIndex)
  {
    ghost var u := Universe(env, t);
    var current: seq<Field> := [];
    var next: seq<Field> := [RootEntry(t)];
    var count: map<TypeId, nat> := map[];
    var nextCount: map<TypeId, nat> := map[];
    var visited: set<TypeId> := {};
    var fields: seq<Field> := [];
    while |next| > 0
      invariant QueueIn(next, u) && visited <= u
      invariant Collect(env, t, Bfs(visited, fields, next, nextCount)) == Candidates(env, t)
      decreases |u - visited|, |next|
    {
      ghost var before := Bfs(visited, fields, next, nextCount);
      LevelProgress(env, t, before);
      current, next := next, [];
      count, nextCount := nextCount, map[];
      var st := ScanOneLevel(env, current, count, Bfs(visited, fields, next, nextCount));
      visited, fields, next, nextCount := st.visited, st.fields, st.next, st.nextCount;
      assert Bfs(visited, fields, next, nextCount) == Level(env, before);
    }
    assert fields == Candidates(env, t);
    fields := SortBy(fields, NameOrder);
    var out := CompactByName(fields);
    fs := SortBy(out, ByIndex);
    TypeFieldsDominant(env, t);
    TypeFieldsNamesDistinct(env, t);
    TypeFieldsIndexOrder(env, t);
  }

  /** The cache of resolved fields holds, for each type it knows, that type's typeFields result. */
  ghost predicate CacheSound(env: Env, cache: map<TypeId, seq<Field>>) {
    forall u | u in cache :: cache[u] == TypeFieldsSpec(env, u)
  }

  /**
    cachedTypeFields: a cached answer, or a fresh one that is stored.  The answer is always that of
    typeFields, and the cache stays sound and keeps what it held.
   */
  function CachedTypeFields(env: Env, cache: map<TypeId, seq<Field>>, t: TypeId)
    : (r: (seq<Field>, map<TypeId, seq<Field>>))
    requires CacheSound(env, cache)
    ensures r.0 == TypeFieldsSpec(env, t)
    ensures CacheSound(env, r.1) && t in r.1
    ensures forall u | u in cache :: u in r.1 && r.1[u] == cache[u]
  {
    if t in cache then (cache[t], cache)
    else
      var f := TypeFieldsSpec(env, t);
      (f, cache[t := f])
  }
}
