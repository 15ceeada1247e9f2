/**
  The lookups of structof.go: Struct.FieldByName (a dotted path to one field), Fields (a handle for
  every resolved field that can be reached) and Struct.FieldNames (the resolved names).
 */
module Navigation {
  import opened Wrappers
  import opened GoTypes
  import opened Resolver
  import opened DottedNames
  import opened FieldHandles
  import FieldLookup
  import StructFields
  import CandidateFacts
  import TypeFieldsFacts
  import Ordering
  import CompactionFacts

  /** structof.Struct: a struct stored in a heap object (its `v`), and the struct's type (its `typ`). */
  datatype StructRef = StructRef(addr: Addr, typ: TypeId)

  /** Where s.v lives. */
  function Root(s: StructRef): Loc {
    Loc(s.addr, [], s.typ)
  }

  // ---------------------------------------------------------------------------------------
  // Struct.FieldByName

  /**
    The loop of FieldByName from segment i on, in struct type ft, with `index` holding the entries
    recorded for the segments before i.  A segment is looked up by name in ft and its field's
    top-level position recorded; every segment but the last must lead, past at most one pointer, to
    a struct type.
   */
  function Walk(types: TypeTable, name: string, names: seq<string>, i: nat, ft: TypeId, index: seq<int>)
    : Result<(seq<int>, StructField), FieldError>
    requires i < |names|
    decreases |names| - i
  {
    match FieldLookup.FieldByName(types, ft, names[i])
    case None => Err(NotFound(name))
    case Some(found) =>
      if !found.field.exported then Err(NotExported(name))
      else if i == |names| - 1 then Ok((index + [found.index[0]], found.field))
      else
        var next := Deref(types, found.field.ty);
        if KindOf(types, next) != Struct then Err(NotStructPath(Join(names[..i + 1])))
        else Walk(types, name, names, i + 1, next, index + [found.index[0]])
  }

  /** What Struct.FieldByName returns for a dotted name. */
  function FieldByNameSpec(types: TypeTable, heap: Heap, s: StructRef, name: string): Result<Handle, FieldError> {
    var w :- Walk(types, name, Split(name), 0, s.typ, []);
    var loc :- FieldByIndexErr(types, heap, Root(s), w.0);
    Ok(Handle(Some(loc), w.1, w.0))
  }

  /** Struct.FieldByName */
  method FieldByName(types: TypeTable, heap: Heap, s: StructRef, name: string) returns (r: Result<Handle, FieldError>)
    ensures r == FieldByNameSpec(types, heap, s, name)
  {
    var names := Split(name);
    var w := WalkSegments(types, name, names, s.typ);
    if w.Err? {
      return Err(w.error);
    }
    var (index, sf) := w.value;
    var f := FieldByIndexErr(types, heap, Root(s), index);
    if f.Err? {
      return Err(f.error);
    }
    return Ok(Handle(Some(f.value), sf, index));
  }

  /** The loop of Struct.FieldByName over the segments `names`, from struct type t. */
  method WalkSegments(types: TypeTable, name: string, names: seq<string>, t: TypeId)
    returns (r: Result<(seq<int>, StructField), FieldError>)
    requires |names| >= 1
    ensures r == Walk(types, name, names, 0, t, [])
  {
    var ft := t;
    var sf := StructField("", false, false, NoTag, 0);
    var index := new int[|names|];
    var i := 0;
    while i < |names|
      invariant i < |names|
      invariant Walk(types, name, names, 0, t, []) == Walk(types, name, names, i, ft, index[..i])
      decreases |names| - i
    {
      var found := FieldLookup.FieldByName(types, ft, names[i]);
      WalkUnfold(types, name, names, i, ft, index[..i]);
      if found.None? {
        return Err(NotFound(name));
      }
      sf := found.value.field;
      if !sf.exported {
        return Err(NotExported(name));
      }
      ghost var before := index[..i];
      index[i] := found.value.index[0];
      assert index[..i + 1] == before + [found.value.index[0]];
      if |names| - 1 == i {
        assert index[..] == index[..i + 1];
        break;
      }
      ft := Deref(types, sf.ty);
      if KindOf(types, ft) != Struct {
        return Err(NotStructPath(Join(names[..i + 1])));
      }
      i := i + 1;
    }
    return Ok((index[..], sf));
  }

  /** One step of the walk, spelled out by case. */
  lemma WalkUnfold(types: TypeTable, name: string, names: seq<string>, i: nat, ft: TypeId, index: seq<int>)
    requires i < |names|
    ensures var found := FieldLookup.FieldByName(types, ft, names[i]);
      var w := Walk(types, name, names, i, ft, index);
      && (found.None? ==> w == Err(NotFound(name)))
      && (found.Some? && !found.value.field.exported ==> w == Err(NotExported(name)))
      && (found.Some? && found.value.field.exported && i == |names| - 1 ==>
            w == Ok((index + [found.value.index[0]], found.value.field)))
      && (found.Some? && found.value.field.exported && i < |names| - 1 ==>
            var next := Deref(types, found.value.field.ty);
            w == if KindOf(types, next) != Struct then Err(NotStructPath(Join(names[..i + 1])))
                 else Walk(types, name, names, i + 1, next, index + [found.value.index[0]]))
  {
  }

  /**
    The struct type that segment k of the path is looked up in, when the walk takes segment i in ft:
    ft itself for segment i, and for each later segment the type, past at most one pointer, of the
    field the segment before it found.
   */
  function SegmentStruct(types: TypeTable, names: seq<string>, i: nat, ft: TypeId, k: nat): TypeId
    requires i <= k < |names|
    decreases k - i
  {
    if k == i then ft
    else match FieldLookup.FieldByName(types, ft, names[i])
      case None => ft
      case Some(f) => SegmentStruct(types, names, i + 1, Deref(types, f.field.ty), k)
  }

  /**
    The entries a successful walk from segment i in ft records, one per segment k from i on: the
    top-level position of the exported field segment k finds in the struct type it is looked up in.
    Every segment after i is looked up in a struct type.
   */
  ghost predicate WalkEntries(types: TypeTable, names: seq<string>, i: nat, ft: TypeId, es: seq<int>)
    requires i < |names|
  {
    && |es| == |names| - i
    && forall k | i <= k < |names| ::
      var found := FieldLookup.FieldByName(types, SegmentStruct(types, names, i, ft, k), names[k]);
      && found.Some? && found.value.field.exported && es[k - i] == found.value.index[0]
      && (k > i ==> KindOf(types, SegmentStruct(types, names, i, ft, k)) == Struct)
  }

  /** The field the last segment finds, in the struct type it is looked up in. */
  ghost predicate LastField(types: TypeTable, names: seq<string>, i: nat, ft: TypeId, sf: StructField)
    requires i < |names|
  {
    var found := FieldLookup.FieldByName(types, SegmentStruct(types, names, i, ft, |names| - 1), names[|names| - 1]);
    found.Some? && sf == found.value.field
  }

  /**
    A successful walk keeps the entries recorded before segment i and adds the entries of the
    segments from i on; it ends at the exported field the last segment finds.
   */
  lemma {:induction false} WalkOk(types: TypeTable, name: string, names: seq<string>, i: nat, ft: TypeId, index: seq<int>)
    requires i < |names|
    requires Walk(types, name, names, i, ft, index).Ok?
    ensures var (idx, sf) := Walk(types, name, names, i, ft, index).value;
      && |idx| == |index| + |names| - i && idx[..|index|] == index
      && WalkEntries(types, names, i, ft, idx[|index|..])
      && sf.exported && sf.name == names[|names| - 1] && LastField(types, names, i, ft, sf)
    decreases |names| - i
  {
    WalkUnfold(types, name, names, i, ft, index);
    var found := FieldLookup.FieldByName(types, ft, names[i]).value;
    var (idx, sf) := Walk(types, name, names, i, ft, index).value;
    if i < |names| - 1 {
      var next := Deref(types, found.field.ty);
      var index' := index + [found.index[0]];
      WalkOk(types, name, names, i + 1, next, index');
      assert idx[..|index|] == idx[..|index'|][..|index|];
      assert idx[|index|] == idx[..|index'|][|index|];
      var es, es' := idx[|index|..], idx[|index'|..];
      forall k | i < k < |names| ensures SegmentStruct(types, names, i, ft, k) == SegmentStruct(types, names, i + 1, next, k) {
      }
      assert es' == es[1..];
    } else {
      assert idx == index + [found.index[0]];
    }
  }

  /** The dotted path made of the first k + 1 segments. */
  function PathUpTo(names: seq<string>, k: nat): string
    requires k < |names|
  {
    Join(names[..k + 1])
  }

  /**
    The errors a walk reports: a missing or unexported field names the whole path; a segment that
    does not lead to a struct names the path up to it, which is followed by a dot in the whole path.
   */
  lemma {:induction false} WalkErrors(types: TypeTable, name: string, names: seq<string>, i: nat, ft: TypeId, index: seq<int>)
    requires i < |names|
    requires Walk(types, name, names, i, ft, index).Err?
    ensures match Walk(types, name, names, i, ft, index).error
      case NotFound(m) => m == name
      case NotExported(m) => m == name
      case NotStructPath(p) => exists k | i <= k < |names| - 1 :: p == PathUpTo(names, k)
      case _ => false
    decreases |names| - i
  {
    var found := FieldLookup.FieldByName(types, ft, names[i]);
    if found.Some? && found.value.field.exported && i < |names| - 1 {
      var next := Deref(types, found.value.field.ty);
      if KindOf(types, next) == Struct {
        WalkErrors(types, name, names, i + 1, next, index + [found.value.index[0]]);
      } else {
        assert Walk(types, name, names, i, ft, index).error == NotStructPath(PathUpTo(names, i));
      }
    }
  }

  /**
    On success FieldByName's index holds one entry per segment of the name: the top-level position
    of the exported field that segment finds in the struct type it is looked up in.  The handle
    describes the field the last segment finds.
   */
  lemma FieldByNameSegments(types: TypeTable, heap: Heap, s: StructRef, name: string)
    requires FieldByNameSpec(types, heap, s, name).Ok?
    ensures var h := FieldByNameSpec(types, heap, s, name).value;
      var names := Split(name);
      && |h.index| == |names|
      && h.field.exported && h.field.name == names[|names| - 1]
      && WalkEntries(types, names, 0, s.typ, h.index) && LastField(types, names, 0, s.typ, h.field)
  {
    SpecOk(types, heap, s, name);
    SegmentsOf(types, heap, s, name, Split(name));
  }

  /** A successful FieldByName is a successful walk followed by a successful FieldByIndexErr. */
  lemma SpecOk(types: TypeTable, heap: Heap, s: StructRef, name: string)
    requires FieldByNameSpec(types, heap, s, name).Ok?
    ensures var w := Walk(types, name, Split(name), 0, s.typ, []);
      && w.Ok? && FieldByIndexErr(types, heap, Root(s), w.value.0).Ok?
      && FieldByNameSpec(types, heap, s, name).value ==
           Handle(Some(FieldByIndexErr(types, heap, Root(s), w.value.0).value), w.value.1, w.value.0)
  {
  }

  lemma SegmentsOf(types: TypeTable, heap: Heap, s: StructRef, name: string, names: seq<string>)
    requires |names| >= 1
    requires Walk(types, name, names, 0, s.typ, []).Ok?
    requires FieldByIndexErr(types, heap, Root(s), Walk(types, name, names, 0, s.typ, []).value.0).Ok?
    ensures var w := Walk(types, name, names, 0, s.typ, []).value;
      && |w.0| == |names| && w.1.exported && w.1.name == names[|names| - 1]
      && WalkEntries(types, names, 0, s.typ, w.0) && LastField(types, names, 0, s.typ, w.1)
  {
    WalkOk(types, name, names, 0, s.typ, []);
    var w := Walk(types, name, names, 0, s.typ, []).value;
    assert w.0[0..] == w.0;
  }

  /**
    FieldByName's errors: a field not found or not exported is reported with the whole name; a
    segment that leads to neither a struct nor a pointer to one is reported with the part of the
    name up to it, which the rest of the name follows after a dot; any other error comes from
    following the index through the value.
   */
  lemma FieldByNameErrors(types: TypeTable, heap: Heap, s: StructRef, name: string)
    requires FieldByNameSpec(types, heap, s, name).Err?
    ensures match FieldByNameSpec(types, heap, s, name).error
      case NotFound(m) => m == name
      case NotExported(m) => m == name
      case NotStructPath(p) => exists rest :: name == p + "." + rest
      case NilEmbedded(_) => true
      case Malformed => true
      case _ => false
  {
    var names := Split(name);
    SplitPieces(name);
    var w := Walk(types, name, names, 0, s.typ, []);
    if w.Err? {
      WalkErrors(types, name, names, 0, s.typ, []);
      if w.error.NotStructPath? {
        var k :| 0 <= k < |names| - 1 && w.error.prefix == PathUpTo(names, k);
        JoinAt(names, k + 1);
        assert name == w.error.prefix + "." + Join(names[k + 1..]);
      }
    } else {
      assert FieldByIndexErr(types, heap, Root(s), w.value.0).Err?;
      FieldByIndexErrors(types, heap, Root(s), w.value.0);
    }
  }

  /** FieldByIndexErr fails only on a nil embedded pointer or on memory that does not fit the types. */
  lemma {:induction false} FieldByIndexErrors(types: TypeTable, heap: Heap, at: Loc, index: seq<int>)
    requires FieldByIndexErr(types, heap, at, index).Err?
    ensures FieldByIndexErr(types, heap, at, index).error.NilEmbedded?
         || FieldByIndexErr(types, heap, at, index).error.Malformed?
    decreases |index|
  {
    if index != [] && Indirect(types, heap, at).Ok? {
      var here := Indirect(types, heap, at).value;
      var fs := FieldsOf(types, here.ty);
      match Read(heap, here)
      case Some(VStruct(vs)) =>
        if |vs| == |fs| && 0 <= index[0] < |fs| {
          FieldByIndexErrors(types, heap, Loc(here.addr, here.path + [index[0]], fs[index[0]].ty), index[1..]);
        }
      case _ =>
    }
  }

  /**
    A plain name that is a declared field of the struct, shared by no other declared field, is
    found at its own position: an exported one yields a handle on that field of s.v, an unexported
    one the "not exported" error.
   */
  lemma FieldByNameOwn(types: TypeTable, heap: Heap, s: StructRef, name: string, j: nat)
    requires '.' !in name
    requires j < |FieldsOf(types, s.typ)| && FieldsOf(types, s.typ)[j].name == name
    requires forall k | 0 <= k < |FieldsOf(types, s.typ)| && k != j :: FieldsOf(types, s.typ)[k].name != name
    requires s.addr in heap && heap[s.addr].Obj? && heap[s.addr].v.VStruct?
    requires |heap[s.addr].v.fields| == |FieldsOf(types, s.typ)|
    ensures var sf := FieldsOf(types, s.typ)[j];
      FieldByNameSpec(types, heap, s, name) ==
        if sf.exported then Ok(Handle(Some(Loc(s.addr, [j], sf.ty)), sf, [j])) else Err(NotExported(name))
  {
    SplitJoin([name]);
    assert Split(name) == [name];
    FieldLookup.OwnField(types, s.typ, name, j);
    FieldLookup.StructHasFields(types, s.typ);
    var sf := FieldsOf(types, s.typ)[j];
    if sf.exported {
      var found := FieldLookup.FieldByName(types, s.typ, [name][0]);
      assert found == Some(FieldLookup.Found([j], sf));
      assert [] + [found.value.index[0]] == [j];
      assert Walk(types, name, [name], 0, s.typ, []) == Ok(([j], sf));
      assert [j][1..] == [];
      assert FieldByIndexErr(types, heap, Root(s), [j]) == Ok(Loc(s.addr, [j], sf.ty));
    }
  }

  /** A name whose first segment names no field at any depth is not found. */
  lemma FieldByNameMissing(types: TypeTable, heap: Heap, s: StructRef, name: string)
    requires forall d :: FieldLookup.Matches(types, s.typ, Split(name)[0], d, 0) == []
    ensures FieldByNameSpec(types, heap, s, name) == Err(NotFound(name))
  {
    FieldLookup.Absent(types, s.typ, Split(name)[0], 0);
  }

  // ---------------------------------------------------------------------------------------
  // Finding: the index FieldByName builds keeps only the first step of a promoted field's path.

  /**
    FieldByName with the whole path of each segment's field recorded, as reflect.Type.FieldByName
    reports it in StructField.Index, instead of its first step.
   */
  function WalkFull(types: TypeTable, name: string, names: seq<string>, i: nat, ft: TypeId, index: seq<int>)
    : Result<(seq<int>, StructField), FieldError>
    requires i < |names|
    decreases |names| - i
  {
    match FieldLookup.FieldByName(types, ft, names[i])
    case None => Err(NotFound(name))
    case Some(found) =>
      if !found.field.exported then Err(NotExported(name))
      else if i == |names| - 1 then Ok((index + found.index, found.field))
      else
        var next := Deref(types, found.field.ty);
        if KindOf(types, next) != Struct then Err(NotStructPath(Join(names[..i + 1])))
        else WalkFull(types, name, names, i + 1, next, index + found.index)
  }

  function FieldByNameFullIndex(types: TypeTable, heap: Heap, s: StructRef, name: string): Result<Handle, FieldError> {
    var w :- WalkFull(types, name, Split(name), 0, s.typ, []);
    var loc :- FieldByIndexErr(types, heap, Root(s), w.0);
    Ok(Handle(Some(loc), w.1, w.0))
  }

  /** Following a path that reaches u and then a path from u is following the joined path. */
  lemma {:induction false} FieldAtConcat(types: TypeTable, t: TypeId, p: seq<int>, u: TypeId, q: seq<int>)
    requires p != [] && q != []
    requires TypeByIndex(types, t, p) == Some(u)
    ensures FieldAt(types, t, p + q) == FieldAt(types, u, q)
    decreases |p|
  {
    var fs := FieldsOf(types, Deref(types, t));
    assert (p + q)[0] == p[0] && (p + q)[1..] == p[1..] + q;
    if |p| == 1 {
      assert p[1..] == [];
      assert (p + q)[1..] == q;
    } else {
      FieldAtConcat(types, fs[p[0]].ty, p[1..], u, q);
    }
  }

  /** A promoted field's path, appended to the path of the struct it is looked up in, reaches it from the root. */
  lemma StepFull(types: TypeTable, root: TypeId, index: seq<int>, ft: TypeId, found: FieldLookup.Found, n: string)
    requires index == [] ==> ft == root
    requires index != [] ==> TypeByIndex(types, root, index).Some? && Deref(types, TypeByIndex(types, root, index).value) == ft
    requires FieldLookup.FoundIn(types, ft, n, found)
    ensures FieldAt(types, root, index + found.index) == Some(found.field)
    ensures TypeByIndex(types, root, index + found.index) == Some(found.field.ty)
  {
    FieldLookup.StructHasFields(types, ft);
    if index == [] {
      assert index + found.index == found.index;
    } else {
      var u := TypeByIndex(types, root, index).value;
      FieldAtConcat(types, root, index, u, found.index);
      assert FieldAt(types, u, found.index) == FieldAt(types, ft, found.index);
    }
    CandidateFacts.FieldAtType(types, root, index + found.index);
  }

  lemma {:induction false} WalkFullReaches(types: TypeTable, root: TypeId, name: string, names: seq<string>, i: nat,
                                           ft: TypeId, index: seq<int>)
    requires i < |names|
    requires index == [] ==> ft == root
    requires index != [] ==> TypeByIndex(types, root, index).Some? && Deref(types, TypeByIndex(types, root, index).value) == ft
    requires WalkFull(types, name, names, i, ft, index).Ok?
    ensures var (idx, sf) := WalkFull(types, name, names, i, ft, index).value;
      FieldAt(types, root, idx) == Some(sf)
    decreases |names| - i
  {
    var found := FieldLookup.FieldByName(types, ft, names[i]).value;
    StepFull(types, root, index, ft, found, names[i]);
    if i < |names| - 1 {
      var next := Deref(types, found.field.ty);
      WalkFullReaches(types, root, name, names, i + 1, next, index + found.index);
    }
  }

  /**
    With the whole paths recorded, the handle addresses the very field it describes: its index
    reaches that field's declaration from the struct type, and its location holds a value of the
    field's declared type.
   */
  lemma FullIndexAddressesField(types: TypeTable, heap: Heap, s: StructRef, name: string)
    requires FieldByNameFullIndex(types, heap, s, name).Ok?
    ensures var h := FieldByNameFullIndex(types, heap, s, name).value;
      && FieldAt(types, s.typ, h.index) == Some(h.field)
      && h.loc.Some? && h.loc.value.ty == h.field.ty
      && Read(heap, h.loc.value).Some?
  {
    var w := WalkFull(types, name, Split(name), 0, s.typ, []).value;
    WalkFullReaches(types, s.typ, name, Split(name), 0, s.typ, []);
    assert w.0 != [];
    FieldLookup.StructHasFields(types, s.typ);
    assert Read(heap, Root(s)).Some?;
    FieldByIndexReaches(types, heap, Root(s), w.0);
  }

  /** The types of the counterexample: struct Outer { Inner } and struct Inner { A int }. */
  const PromotedTypes: TypeTable := map[
    0 := TypeDesc(true, StructOf([StructField("Inner", true, true, NoTag, 1)])),
    1 := TypeDesc(true, StructOf([StructField("A", true, false, NoTag, 2)])),
    2 := TypeDesc(true, Scalar(SInt(Word)))]

  /** FieldByNameFunc finds A in an Outer one level down, through the embedded Inner. */
  lemma PromotedLookup()
    ensures FieldLookup.FieldByName(PromotedTypes, 0, "A")
      == Some(FieldLookup.Found([0, 0], StructField("A", true, false, NoTag, 2)))
  {
    var types := PromotedTypes;
    var a := StructField("A", true, false, NoTag, 2);
    var inner := StructField("Inner", true, true, NoTag, 1);
    assert FieldsOf(types, 0) == [inner];
    assert FieldsOf(types, 1) == [a];
    assert FieldLookup.Matches(types, 0, "A", 0, 1) == [];
    assert FieldLookup.Matches(types, 0, "A", 0, 0) == [];
    assert FieldLookup.Matches(types, 1, "A", 0, 1) == [];
    assert FieldLookup.Matches(types, 1, "A", 0, 0) == [FieldLookup.Found([0], a)];
    assert FieldLookup.Matches(types, 0, "A", 1, 1) == [];
    assert Deref(types, 1) == 1 && FieldLookup.Descends(types, inner);
    assert [0] + [0] == [0, 0];
    assert FieldLookup.Under(0, [FieldLookup.Found([0], a)]) == [FieldLookup.Found([0, 0], a)];
    assert FieldLookup.Matches(types, 0, "A", 1, 0) == [FieldLookup.Found([0, 0], a)];
    assert |types| == 3;
    assert FieldLookup.SearchFrom(types, 0, "A", 1) == Some(FieldLookup.Found([0, 0], a));
  }

  /**
    As written, FieldByName("A") on an Outer finds the promoted field A, but its index keeps only
    the first step, so the handle describes A (of kind int) while addressing the embedded Inner
    (of kind struct); Field.Set(23) on it is then refused with a kind mismatch.  With the whole
    path recorded, the handle addresses A itself.
   */
  lemma PromotedFieldMisplaced()
    ensures var heap := map[7 := Obj(VStruct([VStruct([VNum(0)])]))];
      var a := StructField("A", true, false, NoTag, 2);
      && FieldByNameSpec(PromotedTypes, heap, StructRef(7, 0), "A") == Ok(Handle(Some(Loc(7, [0], 1)), a, [0]))
      && KindOf(PromotedTypes, 1) == Struct && KindOf(PromotedTypes, a.ty) == Int
      && FieldByNameFullIndex(PromotedTypes, heap, StructRef(7, 0), "A") == Ok(Handle(Some(Loc(7, [0, 0], 2)), a, [0, 0]))
  {
    var types := PromotedTypes;
    var heap := map[7 := Obj(VStruct([VStruct([VNum(0)])]))];
    var a := StructField("A", true, false, NoTag, 2);
    SplitJoin(["A"]);
    assert Split("A") == ["A"];
    PromotedLookup();
    var found := FieldLookup.FieldByName(types, 0, ["A"][0]);
    assert found == Some(FieldLookup.Found([0, 0], a));
    assert [] + [found.value.index[0]] == [0];
    assert Walk(types, "A", ["A"], 0, 0, []) == Ok(([0], a));
    assert [] + found.value.index == [0, 0];
    assert WalkFull(types, "A", ["A"], 0, 0, []) == Ok(([0, 0], a));
    PromotedReads(heap);
  }

  /** Following [0] and [0, 0] through the Outer stored at address 7. */
  lemma PromotedReads(heap: Heap)
    requires heap == map[7 := Obj(VStruct([VStruct([VNum(0)])]))]
    ensures FieldByIndexErr(PromotedTypes, heap, Loc(7, [], 0), [0]) == Ok(Loc(7, [0], 1))
    ensures FieldByIndexErr(PromotedTypes, heap, Loc(7, [], 0), [0, 0]) == Ok(Loc(7, [0, 0], 2))
  {
    var types := PromotedTypes;
    var outer := Loc(7, [], 0);
    var inner := Loc(7, [0], 1);
    var a := Loc(7, [0, 0], 2);
    assert FieldsOf(types, 0) == [StructField("Inner", true, true, NoTag, 1)];
    assert FieldsOf(types, 1) == [StructField("A", true, false, NoTag, 2)];
    assert KindOf(types, 0) == Struct && KindOf(types, 1) == Struct;
    assert Indirect(types, heap, outer) == Ok(outer);
    assert Indirect(types, heap, inner) == Ok(inner);
    assert Read(heap, outer) == Some(VStruct([VStruct([VNum(0)])]));
    assert [] + [0] == [0];
    assert Read(heap, inner) == Some(VStruct([VNum(0)]));
    assert [0] + [0] == [0, 0];
    assert [0][1..] == [];
    assert [0, 0][1..] == [0];
    assert FieldByIndexErr(types, heap, a, []) == Ok(a);
    assert FieldByIndexErr(types, heap, inner, []) == Ok(inner);
    assert FieldByIndexErr(types, heap, inner, [0]) == Ok(a);
  }

  // ---------------------------------------------------------------------------------------
  // Fields

  /** The struct a non-nil pointer to a struct points to; Fields panics on any other argument. */
  function Target(types: TypeTable, x: Dyn): (r: Result<Loc, FieldError>)
    ensures r.Ok? ==> KindOf(types, r.value.ty) == Struct && r.value.path == []
  {
    if KindOf(types, x.ty) != Pointer || x.v == VPtr(None) || KindOf(types, Elem(types, x.ty)) != Struct then
      Err(NotStructPointer)
    else match x.v
      case VPtr(Some(a)) => Ok(Loc(a, [], Elem(types, x.ty)))
      case _ => Err(Malformed)
  }

  /** The handle Fields makes for resolved field f, or None when FieldByIndexErr fails for its index. */
  function Attempt(types: TypeTable, heap: Heap, root: Loc, f: Field): Option<Handle> {
    match FieldByIndexErr(types, heap, root, f.index)
    case Err(_) => None
    case Ok(loc) =>
      match FieldAt(types, root.ty, f.index)
      case Some(sf) => Some(Handle(Some(loc), sf, f.index))
      case None => None
  }

  function Attempts(types: TypeTable, heap: Heap, root: Loc, list: seq<Field>): (hs: seq<Option<Handle>>)
    ensures |hs| == |list|
  {
    seq(|list|, k requires 0 <= k < |list| => Attempt(types, heap, root, list[k]))
  }

  /** The handles that were made, in order. */
  function Kept(hs: seq<Option<Handle>>): seq<Handle> {
    if hs == [] then []
    else (if hs[0].Some? then [hs[0].value] else []) + Kept(hs[1..])
  }

  /** The attempts written into a slice of zero Fields at their own positions. */
  function Filled(hs: seq<Option<Handle>>): seq<Handle> {
    seq(|hs|, k requires 0 <= k < |hs| => if hs[k].Some? then hs[k].value else ZeroField)
  }

  lemma {:induction false} KeptSnoc(hs: seq<Option<Handle>>, h: Option<Handle>)
    ensures Kept(hs + [h]) == Kept(hs) + (if h.Some? then [h.value] else [])
  {
    var last := if h.Some? then [h.value] else [];
    if hs == [] {
      assert hs + [h] == [h];
      assert [h][1..] == [];
    } else {
      var head := if hs[0].Some? then [hs[0].value] else [];
      assert (hs + [h])[0] == hs[0];
      assert (hs + [h])[1..] == hs[1..] + [h];
      KeptSnoc(hs[1..], h);
      calc {
        Kept(hs + [h]);
        head + Kept(hs[1..] + [h]);
        head + (Kept(hs[1..]) + last);
        (head + Kept(hs[1..])) + last;
        Kept(hs) + last;
      }
    }
  }

  /** Fields returns no more handles than there are resolved fields. */
  lemma {:induction false} KeptBound(hs: seq<Option<Handle>>)
    ensures |Kept(hs)| <= |hs|
  {
    if hs != [] {
      KeptBound(hs[1..]);
    }
  }

  /** A handle is returned exactly when it was made for some resolved field. */
  lemma {:induction false} KeptMembers(hs: seq<Option<Handle>>)
    ensures forall h :: h in Kept(hs) <==> Some(h) in hs
  {
    if hs != [] {
      KeptMembers(hs[1..]);
      assert hs == [hs[0]] + hs[1..];
    }
  }

  /** The handles keep the order of the fields they were made for. */
  lemma {:induction false} KeptOrdered(hs: seq<Option<Handle>>)
    requires forall a, b | 0 <= a < b < |hs| && hs[a].Some? && hs[b].Some? ::
      !Ordering.IndexLess(hs[b].value.index, hs[a].value.index)
    ensures forall p, q | 0 <= p < q < |Kept(hs)| :: !Ordering.IndexLess(Kept(hs)[q].index, Kept(hs)[p].index)
  {
    if hs != [] {
      KeptOrdered(hs[1..]);
      KeptMembers(hs[1..]);
      if hs[0].Some? {
        forall q | 0 < q < |Kept(hs)| ensures !Ordering.IndexLess(Kept(hs)[q].index, Kept(hs)[0].index) {
          var h := Kept(hs)[q];
          assert h in Kept(hs[1..]);
          var b :| 0 <= b < |hs[1..]| && hs[1..][b] == Some(h);
          assert hs[b + 1] == Some(h);
        }
      }
    }
  }

  /** What Fields returns as written: the slice of zero Fields filled at the attempts' own positions, cut to their number. */
  function FieldsAsWrittenSpec(env: Env, heap: Heap, x: Dyn): Result<seq<Handle>, FieldError> {
    var root :- Target(env.types, x);
    var hs := Attempts(env.types, heap, root, TypeFieldsSpec(env, root.ty));
    KeptBound(hs);
    Ok(Filled(hs)[..|Kept(hs)|])
  }

  /** What Fields evidently means to return: the handles that were made, in the resolved order. */
  function FieldsSpec(env: Env, heap: Heap, x: Dyn): Result<seq<Handle>, FieldError> {
    var root :- Target(env.types, x);
    Ok(Kept(Attempts(env.types, heap, root, TypeFieldsSpec(env, root.ty))))
  }

  /** Every field in the list names a declared field from t: Type.FieldByIndex has an answer for it. */
  ghost predicate Declared(types: TypeTable, t: TypeId, list: seq<Field>) {
    forall k | 0 <= k < |list| :: FieldAt(types, t, list[k].index).Some?
  }

  /** The resolved fields of a struct type name declared fields. */
  lemma ResolvedDeclared(env: Env, t: TypeId)
    requires KindOf(env.types, t) == Struct
    ensures Declared(env.types, t, TypeFieldsSpec(env, t))
  {
    TypeFieldsFacts.TypeFieldsDerived(env, t);
    var list := TypeFieldsSpec(env, t);
    forall k | 0 <= k < |list| ensures FieldAt(env.types, t, list[k].index).Some? {
      assert list[k] in list;
    }
  }

  /** The first i attempts are in their own slots; every other slot holds a zero Field. */
  ghost predicate PlacedUpTo(a: seq<Handle>, hs: seq<Option<Handle>>, i: nat) {
    |a| == |hs| && i <= |hs| &&
    forall k | 0 <= k < |a| :: a[k] == if k < i && hs[k].Some? then hs[k].value else ZeroField
  }

  lemma PlacedStep(a: seq<Handle>, hs: seq<Option<Handle>>, i: nat)
    requires PlacedUpTo(a, hs, i) && i < |hs|
    ensures PlacedUpTo(if hs[i].Some? then a[i := hs[i].value] else a, hs, i + 1)
  {
  }

  lemma PlacedAll(a: seq<Handle>, hs: seq<Option<Handle>>)
    requires PlacedUpTo(a, hs, |hs|)
    ensures a == Filled(hs)
  {
  }

  /** The loop of Fields as written: a handle goes to the slot of its field's own position. */
  method PlaceAtOwn(types: TypeTable, heap: Heap, root: Loc, list: seq<Field>) returns (fs: array<Handle>, j: nat)
    requires Declared(types, root.ty, list)
    ensures fresh(fs)
    ensures fs[..] == Filled(Attempts(types, heap, root, list)) && j == |Kept(Attempts(types, heap, root, list))|
  {
    ghost var hs := Attempts(types, heap, root, list);
    fs := new Handle[|list|](_ => ZeroField);
    j := 0;
    for i := 0 to |list|
      invariant PlacedUpTo(fs[..], hs, i)
      invariant j == |Kept(hs[..i])|
    {
      KeptSnoc(hs[..i], hs[i]);
      assert hs[..i + 1] == hs[..i] + [hs[i]];
      AttemptOf(types, heap, root, list, i);
      ghost var before := fs[..];
      var fv := FieldByIndexErr(types, heap, root, list[i].index);
      if fv.Err? {
        PlacedStep(before, hs, i);
        continue;
      }
      fs[i] := Handle(Some(fv.value), FieldAt(types, root.ty, list[i].index).value, list[i].index);
      assert fs[..] == before[i := hs[i].value];
      PlacedStep(before, hs, i);
      j := j + 1;
    }
    assert hs[..|list|] == hs;
    PlacedAll(fs[..], hs);
  }

  /** Fields as written. */
  method FieldsAsWritten(env: Env, heap: Heap, x: Dyn) returns (r: Result<seq<Handle>, FieldError>)
    ensures r == FieldsAsWrittenSpec(env, heap, x)
  {
    var root :- Target(env.types, x);
    var list := StructFields.TypeFields(env, root.ty);
    ResolvedDeclared(env, root.ty);
    var fs, j := PlaceAtOwn(env.types, heap, root, list);
    KeptBound(Attempts(env.types, heap, root, list));
    return Ok(fs[..j]);
  }

  /** Attempt i of the loop over declared fields, spelled out. */
  lemma AttemptOf(types: TypeTable, heap: Heap, root: Loc, list: seq<Field>, i: nat)
    requires Declared(types, root.ty, list) && i < |list|
    ensures var fv := FieldByIndexErr(types, heap, root, list[i].index);
      Attempts(types, heap, root, list)[i] ==
        if fv.Err? then None else Some(Handle(Some(fv.value), FieldAt(types, root.ty, list[i].index).value, list[i].index))
  {
  }

  /** The loop of Fields with each handle written to the next free slot. */
  method PlaceInOrder(types: TypeTable, heap: Heap, root: Loc, list: seq<Field>) returns (fs: array<Handle>, j: nat)
    requires Declared(types, root.ty, list)
    ensures fresh(fs)
    ensures j <= fs.Length && fs[..j] == Kept(Attempts(types, heap, root, list))
  {
    ghost var hs := Attempts(types, heap, root, list);
    fs := new Handle[|list|](_ => ZeroField);
    j := 0;
    for i := 0 to |list|
      invariant j == |Kept(hs[..i])| <= i
      invariant fs[..j] == Kept(hs[..i])
    {
      KeptSnoc(hs[..i], hs[i]);
      assert hs[..i + 1] == hs[..i] + [hs[i]];
      AttemptOf(types, heap, root, list, i);
      ghost var before := fs[..j];
      var fv := FieldByIndexErr(types, heap, root, list[i].index);
      if fv.Err? {
        continue;
      }
      fs[j] := Handle(Some(fv.value), FieldAt(types, root.ty, list[i].index).value, list[i].index);
      assert fs[..j + 1] == before + [hs[i].value];
      j := j + 1;
    }
    assert hs[..|list|] == hs;
  }

  /** Fields, with each handle written to the next free slot. */
  method Fields(env: Env, heap: Heap, x: Dyn) returns (r: Result<seq<Handle>, FieldError>)
    ensures r == FieldsSpec(env, heap, x)
  {
    var root :- Target(env.types, x);
    var list := StructFields.TypeFields(env, root.ty);
    ResolvedDeclared(env, root.ty);
    var fs, j := PlaceInOrder(env.types, heap, root, list);
    return Ok(fs[..j]);
  }

  /** With nothing kept, every attempt failed. */
  lemma {:induction false} NoneKept(hs: seq<Option<Handle>>)
    requires Kept(hs) == []
    ensures forall k | 0 <= k < |hs| :: hs[k].None?
  {
    if hs != [] {
      NoneKept(hs[1..]);
      forall k | 0 < k < |hs| ensures hs[k].None? {
        assert hs[1..][k - 1].None?;
      }
    }
  }

  /** No attempt failed before a later one succeeded. */
  ghost predicate FailuresLast(hs: seq<Option<Handle>>) {
    forall a, b | 0 <= a < b < |hs| :: hs[a].None? ==> hs[b].None?
  }

  lemma FailuresLastTail(hs: seq<Option<Handle>>)
    requires hs != []
    ensures FailuresLast(hs) <==> (hs[0].None? ==> forall k | 0 <= k < |hs| :: hs[k].None?) && FailuresLast(hs[1..])
  {
    if FailuresLast(hs[1..]) && (hs[0].None? ==> forall k | 0 <= k < |hs| :: hs[k].None?) {
      forall a, b | 0 <= a < b < |hs| && hs[a].None? ensures hs[b].None? {
        if a > 0 {
          assert hs[1..][a - 1].None?;
          assert hs[1..][b - 1] == hs[b];
        }
      }
    }
    if FailuresLast(hs) {
      forall a, b | 0 <= a < b < |hs[1..]| && hs[1..][a].None? ensures hs[1..][b].None? {
        assert hs[a + 1].None?;
      }
    }
  }

  /**
    Fields as written and as evidently meant agree exactly when no dropped field comes before a
    kept one; otherwise the as-written result holds a zero Field, which addresses nothing, in the
    place of a handle it loses.
   */
  lemma {:induction false} AsWrittenAgrees(hs: seq<Option<Handle>>)
    requires forall k | 0 <= k < |hs| && hs[k].Some? :: hs[k].value.index != []
    ensures |Kept(hs)| <= |hs|
    ensures Filled(hs)[..|Kept(hs)|] == Kept(hs) <==> FailuresLast(hs)
  {
    KeptBound(hs);
    if hs != [] {
      AsWrittenAgrees(hs[1..]);
      KeptBound(hs[1..]);
      FailuresLastTail(hs);
      var n := |Kept(hs)|;
      if hs[0].None? {
        assert Kept(hs) == Kept(hs[1..]);
        if n > 0 {
          assert Filled(hs)[..n][0] == ZeroField;
          var h := Kept(hs)[0];
          assert h in Kept(hs[1..]);
          KeptMembers(hs[1..]);
          var b :| 0 <= b < |hs[1..]| && hs[1..][b] == Some(h);
          assert hs[b + 1] == Some(h);
          assert h.index != [];
        } else {
          NoneKept(hs);
        }
      } else {
        var h := hs[0].value;
        var x := Filled(hs[1..])[..n - 1];
        var y := Kept(hs[1..]);
        assert Kept(hs) == [h] + y;
        assert Filled(hs)[..n] == [h] + x;
        assert [h] + x == [h] + y <==> x == y by {
          if [h] + x == [h] + y {
            assert x == ([h] + x)[1..];
            assert y == ([h] + y)[1..];
          }
        }
        assert FailuresLast(hs) <==> FailuresLast(hs[1..]);
      }
    }
  }

  /** What the resolver guarantees of its list, as Fields relies on it. */
  ghost predicate WellResolved(env: Env, t: TypeId, list: seq<Field>) {
    && Declared(env.types, t, list)
    && (forall k | 0 <= k < |list| ::
          Visible(env.types, FieldAt(env.types, t, list[k].index).value)
          && !FieldAt(env.types, t, list[k].index).value.tag.dash)
    && (forall a, b | 0 <= a < b < |list| :: !Ordering.IndexLess(list[b].index, list[a].index))
    && (forall a, b | 0 <= a < b < |list| :: list[a].index != list[b].index)
  }

  /** typeFields' list is well resolved: declared, visible, not "-", in index order, one field per index. */
  lemma ResolvedWell(env: Env, t: TypeId)
    requires KindOf(env.types, t) == Struct
    ensures WellResolved(env, t, TypeFieldsSpec(env, t))
  {
    var list := TypeFieldsSpec(env, t);
    ResolvedDeclared(env, t);
    TypeFieldsFacts.TypeFieldsDerived(env, t);
    CompactionFacts.TypeFieldsIndexOrder(env, t);
    CompactionFacts.TypeFieldsNamesDistinct(env, t);
    forall k | 0 <= k < |list|
      ensures CandidateFacts.DerivedBase(env, t, list[k])
    {
      assert list[k] in list;
    }
  }

  /** The attempt for a field whose declaration its index reaches: a handle for that declaration, at its own index. */
  lemma AttemptShape(types: TypeTable, heap: Heap, root: Loc, f: Field)
    requires KindOf(types, root.ty) == Struct
    requires FieldAt(types, root.ty, f.index).Some?
    ensures var a := Attempt(types, heap, root, f);
      a.Some? ==> a.value.index == f.index && a.value.field == FieldAt(types, root.ty, f.index).value
                  && a.value.loc.Some? && a.value.loc.value.ty == a.value.field.ty && Read(heap, a.value.loc.value).Some?
  {
    var a := Attempt(types, heap, root, f);
    if a.Some? {
      assert f.index != [];
      assert Read(heap, root).Some?;
      FieldByIndexReaches(types, heap, root, f.index);
    }
  }

  /** Fields' result over a well-resolved list, field by field. */
  lemma KeptContents(env: Env, heap: Heap, root: Loc, list: seq<Field>)
    requires KindOf(env.types, root.ty) == Struct
    requires WellResolved(env, root.ty, list)
    ensures var hs := Attempts(env.types, heap, root, list);
      var r := Kept(hs);
      && |r| <= |list|
      && (forall p, q | 0 <= p < q < |r| :: !Ordering.IndexLess(r[q].index, r[p].index))
      && (forall h | h in r :: Some(h) in hs && Visible(env.types, h.field) && !h.field.tag.dash
                               && h.loc.Some? && h.loc.value.ty == h.field.ty && Read(heap, h.loc.value).Some?)
      && (forall k | 0 <= k < |list| && hs[k].None? :: forall h | h in r :: h.index != list[k].index)
  {
    var hs := Attempts(env.types, heap, root, list);
    forall k | 0 <= k < |list| ensures
      var a := hs[k];
      a.Some? ==> a.value.index == list[k].index && a.value.field == FieldAt(env.types, root.ty, list[k].index).value
                  && a.value.loc.Some? && a.value.loc.value.ty == a.value.field.ty && Read(heap, a.value.loc.value).Some?
    {
      AttemptShape(env.types, heap, root, list[k]);
    }
    KeptBound(hs);
    KeptMembers(hs);
    KeptOrdered(hs);
  }

  /**
    What Fields returns for a struct: at most one handle per resolved field, in the resolved order;
    every handle is one made for a resolved field, describes a visible field not tagged "-", and
    addresses a stored value of that field's type; a resolved field whose path cannot be followed
    (a nil embedded pointer) has no handle.
   */
  lemma FieldsContents(env: Env, heap: Heap, x: Dyn)
    requires FieldsSpec(env, heap, x).Ok?
    ensures var root := Target(env.types, x).value;
      var list := TypeFieldsSpec(env, root.ty);
      var hs := Attempts(env.types, heap, root, list);
      var r := FieldsSpec(env, heap, x).value;
      && |r| <= |list|
      && (forall p, q | 0 <= p < q < |r| :: !Ordering.IndexLess(r[q].index, r[p].index))
      && (forall h | h in r :: Some(h) in hs && Visible(env.types, h.field) && !h.field.tag.dash
                               && h.loc.Some? && h.loc.value.ty == h.field.ty && Read(heap, h.loc.value).Some?)
      && (forall k | 0 <= k < |list| && hs[k].None? :: forall h | h in r :: h.index != list[k].index)
  {
    var root := Target(env.types, x).value;
    ResolvedWell(env, root.ty);
    KeptContents(env, heap, root, TypeFieldsSpec(env, root.ty));
  }

  /** The handles Fields makes have non-empty indices, so a zero Field is never one of them. */
  lemma AttemptsNonEmpty(env: Env, heap: Heap, root: Loc, list: seq<Field>)
    requires Declared(env.types, root.ty, list)
    ensures var hs := Attempts(env.types, heap, root, list);
      forall k | 0 <= k < |hs| && hs[k].Some? :: hs[k].value.index != []
  {
  }

  /**
    Fields as written returns what it evidently means to exactly when no resolved field that is
    dropped comes before one that is kept.
   */
  lemma FieldsAsWrittenAgrees(env: Env, heap: Heap, x: Dyn)
    requires Target(env.types, x).Ok?
    ensures var root := Target(env.types, x).value;
      FieldsAsWrittenSpec(env, heap, x) == FieldsSpec(env, heap, x) <==>
        FailuresLast(Attempts(env.types, heap, root, TypeFieldsSpec(env, root.ty)))
  {
    var root := Target(env.types, x).value;
    ResolvedDeclared(env, root.ty);
    AttemptsNonEmpty(env, heap, root, TypeFieldsSpec(env, root.ty));
    AsWrittenAgrees(Attempts(env.types, heap, root, TypeFieldsSpec(env, root.ty)));
  }

  // ---------------------------------------------------------------------------------------
  // Struct.FieldNames

  /** Struct.FieldNames: the names of the resolved fields, in order; no name occurs twice. */
  method FieldNames(env: Env, s: StructRef) returns (names: seq<string>)
    ensures |names| == |TypeFieldsSpec(env, s.typ)|
    ensures forall k | 0 <= k < |names| :: names[k] == TypeFieldsSpec(env, s.typ)[k].name
    ensures forall a, b | 0 <= a < b < |names| :: names[a] != names[b]
  {
    var list := StructFields.TypeFields(env, s.typ);
    names := NamesOf(list);
    assert CompactionFacts.NamesDistinct(list);
  }

  /** The loop of FieldNames: the names of list, in order, copied into a new slice. */
  method NamesOf(list: seq<Field>) returns (names: seq<string>)
    ensures |names| == |list|
    ensures forall k | 0 <= k < |names| :: names[k] == list[k].name
  {
    var out := new string[|list|];
    for i := 0 to |list|
      invariant forall k | 0 <= k < i :: out[k] == list[k].name
    {
      out[i] := list[i].name;
    }
    names := out[..];
  }
}
