/**
  Field handles of structof.go: the addressable location a Field's reflect.Value stands for, the
  walk reflect.Value.FieldByIndexErr makes to reach it, and the writes Field.Set and Field.SetZero
  make through it.
 */
module FieldHandles {
  import opened Wrappers
  import opened GoTypes
  import Resolver
  import Encoding

  /** Why an operation of structof.go fails; every panic of the original becomes one of these errors. */
  datatype FieldError =
    | NotFound(name: string)          // "field %q not found"
    | NotExported(name: string)       // "field %q not exported"
    | NotStructPath(prefix: string)   // "field %q not struct or pointer to struct"
    | NilEmbedded(embedded: TypeId)   // reflect: indirection through nil pointer to embedded struct
    | NotStructPointer                // the argument is not a non-nil pointer to a struct
    | KindMismatch                    // "kind not match"
    | NotConvertible                  // reflect.Value.Convert panics
    | Malformed                       // memory that no well-typed Go program has
    | ZeroValueCall                   // a reflect.Value method called on the zero Value

  /** An addressable value: a heap object, the struct-field steps inside it, and its type. */
  datatype Loc = Loc(addr: Addr, path: seq<int>, ty: TypeId)

  /** The part of v that a path of field steps selects. */
  function Within(v: Value, path: seq<int>): Option<Value>
    decreases |path|
  {
    if path == [] then Some(v)
    else if v.VStruct? && 0 <= path[0] < |v.fields| then Within(v.fields[path[0]], path[1..])
    else None
  }

  /** The value stored at a location. */
  function Read(heap: Heap, at: Loc): Option<Value> {
    if at.addr in heap && heap[at.addr].Obj? then Within(heap[at.addr].v, at.path) else None
  }

  /** v with the part at `path` replaced by x. */
  function Replace(v: Value, path: seq<int>, x: Value): Value
    decreases |path|
  {
    if path == [] then x
    else if v.VStruct? && 0 <= path[0] < |v.fields| then
      VStruct(v.fields[path[0] := Replace(v.fields[path[0]], path[1..], x)])
    else v
  }

  /** The heap after storing x at a location. */
  function Write(heap: Heap, at: Loc, x: Value): Heap {
    if at.addr in heap && heap[at.addr].Obj? then heap[at.addr := Obj(Replace(heap[at.addr].v, at.path, x))]
    else heap
  }

  /** Two field paths that part at some step: neither lies inside the other. */
  predicate Apart(p: seq<int>, q: seq<int>) {
    !(p <= q) && !(q <= p)
  }

  lemma {:induction false} WithinReplaced(v: Value, path: seq<int>, x: Value)
    requires Within(v, path).Some?
    ensures Within(Replace(v, path, x), path) == Some(x)
    decreases |path|
  {
    if path != [] {
      WithinReplaced(v.fields[path[0]], path[1..], x);
    }
  }

  lemma {:induction false} WithinApart(v: Value, path: seq<int>, other: seq<int>, x: Value)
    requires Apart(path, other)
    ensures Within(Replace(v, path, x), other) == Within(v, other)
    decreases |path|
  {
    assert path != [] && other != [];
    if v.VStruct? && 0 <= path[0] < |v.fields| && path[0] == other[0] {
      WithinApart(v.fields[path[0]], path[1..], other[1..], x);
    }
  }

  /** Reading a location just written gives the value written. */
  lemma ReadAfterWrite(heap: Heap, at: Loc, x: Value)
    requires Read(heap, at).Some?
    ensures Read(Write(heap, at, x), at) == Some(x)
  {
    WithinReplaced(heap[at.addr].v, at.path, x);
  }

  /**
    A write changes only its own object, and inside it only what lies on its path: locations in other
    objects and locations apart from it read as before.
   */
  lemma WriteElsewhere(heap: Heap, at: Loc, x: Value, other: Loc)
    requires other.addr != at.addr || Apart(at.path, other.path)
    ensures Read(Write(heap, at, x), other) == Read(heap, other)
    ensures Write(heap, at, x).Keys == heap.Keys
    ensures forall a | a in heap && a != at.addr :: Write(heap, at, x)[a] == heap[a]
  {
    if other.addr == at.addr && at.addr in heap && heap[at.addr].Obj? {
      WithinApart(heap[at.addr].v, at.path, other.path, x);
    }
  }

  // ---------------------------------------------------------------------------------------
  // reflect.Value.FieldByIndexErr

  /** Before a field step, a pointer to a struct is followed; a nil one is an error. */
  function Indirect(types: TypeTable, heap: Heap, at: Loc): Result<Loc, FieldError> {
    if KindOf(types, at.ty) == Pointer && KindOf(types, Elem(types, at.ty)) == Struct then
      match Read(heap, at)
      case Some(VPtr(None)) => Err(NilEmbedded(Elem(types, at.ty)))
      case Some(VPtr(Some(a))) => Ok(Loc(a, [], Elem(types, at.ty)))
      case _ => Err(Malformed)
    else Ok(at)
  }

  /** reflect.Value.FieldByIndexErr: the location of the nested field `index` names, starting at `at`. */
  function FieldByIndexErr(types: TypeTable, heap: Heap, at: Loc, index: seq<int>): Result<Loc, FieldError>
    decreases |index|
  {
    if index == [] then Ok(at)
    else
      var here :- Indirect(types, heap, at);
      var fs := FieldsOf(types, here.ty);
      match Read(heap, here)
      case Some(VStruct(vs)) =>
        if |vs| == |fs| && 0 <= index[0] < |fs| then
          FieldByIndexErr(types, heap, Loc(here.addr, here.path + [index[0]], fs[index[0]].ty), index[1..])
        else Err(Malformed)
      case _ => Err(Malformed)
  }

  lemma {:induction false} WithinAppend(v: Value, path: seq<int>, i: int)
    ensures Within(v, path + [i]) ==
      match Within(v, path)
      case Some(VStruct(vs)) => if 0 <= i < |vs| then Some(vs[i]) else None
      case _ => None
    decreases |path|
  {
    if path == [] {
      assert [i][1..] == [];
    } else {
      assert (path + [i])[0] == path[0] && (path + [i])[1..] == path[1..] + [i];
      if v.VStruct? && 0 <= path[0] < |v.fields| {
        WithinAppend(v.fields[path[0]], path[1..], i);
      }
    }
  }

  /**
    What FieldByIndexErr reaches is a stored value of the declared type of the field the index
    names (the field typeByIndex and Type.FieldByIndex describe).
   */
  lemma {:induction false} FieldByIndexReaches(types: TypeTable, heap: Heap, at: Loc, index: seq<int>)
    requires Read(heap, at).Some?
    requires FieldByIndexErr(types, heap, at, index).Ok?
    ensures Read(heap, FieldByIndexErr(types, heap, at, index).value).Some?
    ensures index != [] ==>
      && Resolver.FieldAt(types, at.ty, index).Some?
      && Resolver.FieldAt(types, at.ty, index).value.ty == FieldByIndexErr(types, heap, at, index).value.ty
    decreases |index|
  {
    if index != [] {
      var here := Indirect(types, heap, at).value;
      var fs := FieldsOf(types, here.ty);
      var vs := Read(heap, here).value.fields;
      assert fs == FieldsOf(types, Deref(types, at.ty));
      var next := Loc(here.addr, here.path + [index[0]], fs[index[0]].ty);
      WithinAppend(heap[here.addr].v, here.path, index[0]);
      assert Read(heap, next) == Some(vs[index[0]]);
      FieldByIndexReaches(types, heap, next, index[1..]);
    }
  }

  // ---------------------------------------------------------------------------------------
  // Field handles and the writes through them

  /**
    structof.Field: the location its reflect.Value addresses, and the reflect.StructField with its
    Index.  The location is None for the zero Value, of kind Invalid, which addresses nothing.
   */
  datatype Handle = Handle(loc: Option<Loc>, field: StructField, index: seq<int>)

  /** The zero Field{}: the zero Value and the zero StructField. */
  const ZeroField := Handle(None, StructField("", false, false, NoTag, 0), [])

  predicate ScalarKind(k: Kind) {
    k in {Bool, Int, Uint, Float, String}
  }

  /** A type's underlying shape with struct tags left out, which conversions ignore. */
  function Untagged(sh: Shape): Shape {
    match sh
    case StructOf(fs) => StructOf(seq(|fs|, i requires 0 <= i < |fs| => fs[i].(tag := NoTag)))
    case _ => sh
  }

  /**
    A shape whose element types the model does not record: a channel or a function type, or an
    identity outside the table.  Two such types are known to have the same underlying type only
    when they are the same type.
   */
  predicate Elided(sh: Shape) {
    sh.Other? && sh.hidden in {Chan, Func, Invalid}
  }

  /** Two types whose underlying shapes agree once struct tags are left out. */
  predicate SameUnderlying(types: TypeTable, a: TypeId, b: TypeId) {
    a == b || (Untagged(Desc(types, a).shape) == Untagged(Desc(types, b).shape) && !Elided(Desc(types, a).shape))
  }

  /** Kinds whose values convert to any type of the same exact kind: complex numbers and unsafe.Pointer. */
  predicate AlwaysConverts(sh: Shape) {
    sh.Other? && sh.hidden in {Complex64, Complex128, UnsafePointer}
  }

  /**
    Whether reflect.Value.Convert takes a value of type `from` to type `to`, for types of the same
    exact kind: booleans, numbers, strings and unsafe.Pointer always convert; other types need the
    same underlying type, struct tags aside, or must both be unnamed pointers whose base types have
    the same underlying type, struct tags aside.
   */
  predicate Convertible(types: TypeTable, from: TypeId, to: TypeId) {
    || from == to || ScalarKind(KindOf(types, from)) || AlwaysConverts(Desc(types, from).shape)
    || SameUnderlying(types, from, to)
    || (&& !Named(types, from) && !Named(types, to)
        && Desc(types, from).shape.PointerTo? && Desc(types, to).shape.PointerTo?
        && SameUnderlying(types, Desc(types, from).shape.elem, Desc(types, to).shape.elem))
  }

  /**
    Three pairs of types: int64 and int, a channel and a function type, and two channel types
    (chan int and chan string, whose element types the model does not record).
   */
  const KindProbe: TypeTable := map[
    0 := TypeDesc(false, Scalar(SInt(Bits64))), 1 := TypeDesc(false, Scalar(SInt(Word))),
    2 := TypeDesc(false, Other(Chan)), 3 := TypeDesc(false, Other(Func)), 4 := TypeDesc(false, Other(Chan))]

  /**
    Field.Set's checks on those pairs: an int is not of an int64 field's kind, nor a function of a
    channel field's, and a chan string is of a chan int field's kind but does not convert to it.
   */
  lemma KindsExact()
    ensures ReflectKind(KindProbe, 1) != ReflectKind(KindProbe, 0) && KindOf(KindProbe, 1) == KindOf(KindProbe, 0)
    ensures ReflectKind(KindProbe, 3) != ReflectKind(KindProbe, 2)
    ensures ReflectKind(KindProbe, 4) == ReflectKind(KindProbe, 2) && !Convertible(KindProbe, 4, 2)
  {
  }

  /** Struct types whose fields differ only in their tags convert to each other. */
  lemma TagsIgnored(types: TypeTable, a: TypeId, b: TypeId)
    requires Desc(types, a).shape.StructOf? && Desc(types, b).shape.StructOf?
    requires var fs, gs := FieldsOf(types, a), FieldsOf(types, b);
      |fs| == |gs| && forall i | 0 <= i < |fs| :: fs[i].(tag := NoTag) == gs[i].(tag := NoTag)
    ensures Convertible(types, a, b) && Convertible(types, b, a)
  {
    var fs, gs := FieldsOf(types, a), FieldsOf(types, b);
    assert Untagged(Desc(types, a).shape).fields == Untagged(Desc(types, b).shape).fields;
  }

  /**
    The zero value of a type, built at most `depth` struct or array levels deep; None when the
    types nest by value deeper than that, which only a recursive type Go rejects can do.
   */
  function ZeroValue(types: TypeTable, ty: TypeId, depth: nat): Option<Value>
    decreases depth, 0
  {
    match Desc(types, ty).shape
    case Scalar(SBool) => Some(VBool(false))
    case Scalar(SString) => Some(VStr(""))
    case Scalar(_) => Some(VNum(0))
    case StructOf(fs) =>
      if depth == 0 then None
      else (match ZeroFields(types, fs, depth - 1) case Some(vs) => Some(VStruct(vs)) case None => None)
    case ArrayOf(e, n) =>
      if depth == 0 then None
      else (match ZeroValue(types, e, depth - 1) case Some(z) => Some(VArray(seq(n, _ => z))) case None => None)
    case PointerTo(_) => Some(VPtr(None))
    case SliceOf(_) => Some(VSlice(None))
    case MapOf(_, _) => Some(VMap(None))
    case InterfaceType => Some(VIface(None))
    case Other(_) => Some(VOpaque)
  }

  function ZeroFields(types: TypeTable, fs: seq<StructField>, depth: nat): (r: Option<seq<Value>>)
    ensures r.Some? ==> |r.value| == |fs|
    decreases depth, 1, |fs|
  {
    if fs == [] then Some([])
    else match ZeroValue(types, fs[0].ty, depth)
      case None => None
      case Some(z) => match ZeroFields(types, fs[1..], depth) case Some(zs) => Some([z] + zs) case None => None
  }

  /** The nesting depth up to which SetZero builds zero values: one level per type of the table. */
  function ZeroDepth(types: TypeTable): nat {
    |types| + 1
  }

  /**
    A zero value is what omitempty counts as empty, for every kind but structs and non-empty
    arrays, which isEmptyValue never counts as empty.
   */
  lemma ZeroIsEmpty(types: TypeTable, heap: Heap, ty: TypeId, depth: nat)
    requires ZeroValue(types, ty, depth).Some?
    ensures Encoding.IsEmptyValue(types, heap, ty, ZeroValue(types, ty, depth).value) <==>
      match Desc(types, ty).shape
      case StructOf(_) => false
      case ArrayOf(_, n) => n == 0
      case Other(_) => false
      case _ => true
  {
  }

  /** The zero value of a struct type has one zero value per declared field. */
  lemma ZeroStructShape(types: TypeTable, ty: TypeId, depth: nat)
    requires KindOf(types, ty) == Struct && ZeroValue(types, ty, depth).Some?
    ensures ZeroValue(types, ty, depth).value.VStruct?
    ensures |ZeroValue(types, ty, depth).value.fields| == |FieldsOf(types, ty)|
  {
  }

  /** The memory of the program: the heap objects that Struct and Field values refer to. */
  class Memory {
    const types: TypeTable
    var heap: Heap

    constructor (types: TypeTable, heap: Heap)
      ensures this.types == types && this.heap == heap
    {
      this.types := types;
      this.heap := heap;
    }

    /**
      Field.Set: a value whose kind differs from the field's (the nil interface has no kind) is
      refused before anything is written; otherwise the value, converted to the field's type, is
      stored in the field, and nothing else changes.  On the zero Field the kind check fails for
      every value but the nil interface, whose kind is Invalid like the zero Value's; that one
      passes it, and asking the zero Value for its type then fails.
     */
    method Set(f: Handle, x: Option<Dyn>) returns (r: Result<(), FieldError>)
      modifies this
      ensures f.loc.None? ==> r == Err(if x.None? then ZeroValueCall else KindMismatch)
      ensures f.loc.Some? && (x.None? || ReflectKind(types, x.value.ty) != ReflectKind(types, f.loc.value.ty)) ==>
        r == Err(KindMismatch)
      ensures r.Err? ==> heap == old(heap)
      ensures r.Ok? <==>
        f.loc.Some? && x.Some? && ReflectKind(types, x.value.ty) == ReflectKind(types, f.loc.value.ty)
        && Convertible(types, x.value.ty, f.loc.value.ty) && Read(old(heap), f.loc.value).Some?
      ensures r.Ok? ==> f.loc.Some? && heap == Write(old(heap), f.loc.value, x.value.v) && Read(heap, f.loc.value) == Some(x.value.v)
    {
      if f.loc.None? {
        return Err(if x.None? then ZeroValueCall else KindMismatch);
      }
      if x.None? || ReflectKind(types, f.loc.value.ty) != ReflectKind(types, x.value.ty) {
        return Err(KindMismatch);
      }
      if !Convertible(types, x.value.ty, f.loc.value.ty) {
        return Err(NotConvertible);
      }
      if Read(heap, f.loc.value).None? {
        return Err(Malformed);
      }
      ReadAfterWrite(heap, f.loc.value, x.value.v);
      heap := Write(heap, f.loc.value, x.value.v);
      r := Ok(());
    }

    /**
      Field.SetZero: the zero value of the field's type is stored in the field, and nothing else
      changes.  The zero Field has no location and refuses.
     */
    method SetZero(f: Handle) returns (r: Result<(), FieldError>)
      modifies this
      ensures f.loc.None? ==> r == Err(ZeroValueCall)
      ensures r.Err? ==> heap == old(heap)
      ensures r.Ok? <==> f.loc.Some? && Read(old(heap), f.loc.value).Some? && ZeroValue(types, f.loc.value.ty, ZeroDepth(types)).Some?
      ensures r.Ok? ==>
        && f.loc.Some?
        && var z := ZeroValue(types, f.loc.value.ty, ZeroDepth(types)).value;
           heap == Write(old(heap), f.loc.value, z) && Read(heap, f.loc.value) == Some(z)
    {
      if f.loc.None? {
        return Err(ZeroValueCall);
      }
      if Read(heap, f.loc.value).None? {
        return Err(Malformed);
      }
      var z := ZeroValue(types, f.loc.value.ty, ZeroDepth(types));
      if z.None? {
        return Err(Malformed);
      }
      ReadAfterWrite(heap, f.loc.value, z.value);
      heap := Write(heap, f.loc.value, z.value);
      r := Ok(());
    }
  }
}
