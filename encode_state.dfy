/**
  The encoder of encode.go as it runs: an encodeState object that the encoder functions update in
  place, and one method per encoder.  Every method is proved to do to the state what the matching
  function of module Encoding says, and to fail exactly when that function fails, with the same
  error.  After an error the state is not specified: the code unwinds by a panic and drops it.
 */
module EncodeStates {
  import opened Wrappers
  import opened GoTypes
  import opened Resolver
  import opened Encoding
  import StructFields

  class EncodeState {
    var m: map<string, Out>
    const mOK: bool
    var s: seq<Out>
    const sOK: bool
    var ptrLevel: nat
    var ptrSeen: set<Ident>

    /** Exactly one output mode is chosen. */
    predicate Valid() {
      mOK != sOK
    }

    /** The state as a value. */
    function Snapshot(): EState
      reads this
    {
      EState(if mOK then KeyedAcc(m) else FlatAcc(s), ptrLevel, ptrSeen)
    }

    /** An encodeState with the given output and mode flags, at pointer depth 0 with nothing seen. */
    constructor Init(m0: map<string, Out>, mOK0: bool, s0: seq<Out>, sOK0: bool)
      ensures m == m0 && mOK == mOK0 && s == s0 && sOK == sOK0 && ptrLevel == 0 && ptrSeen == {}
    {
      m := m0;
      mOK := mOK0;
      s := s0;
      sOK := sOK0;
      ptrLevel := 0;
      ptrSeen := {};
    }

    /**
      newEncodeState: map mode for a map or a non-nil pointer to a map, else slice mode for a slice
      or a non-nil pointer to a slice, at pointer depth 0 with nothing seen; null for anything else.
     */
    static method NewEncodeState(i: Target) returns (e: EncodeState?)
      ensures e == null <==> ModeOf(i).None?
      ensures e != null ==> fresh(e) && e.Valid() && e.Snapshot() == EState(ModeOf(i).value, 0, {})
    {
      if i.MapTarget? {
        e := new EncodeState.Init(i.m, true, [], false);
      } else if i.MapPtrTarget? && i.mp.Some? {
        e := new EncodeState.Init(i.mp.value, true, [], false);
      } else if i.SliceTarget? {
        e := new EncodeState.Init(map[], false, i.s, true);
      } else if i.SlicePtrTarget? && i.sp.Some? {
        e := new EncodeState.Init(map[], false, i.sp.value, true);
      } else {
        e := null;
      }
    }

    /** encodeState.Interface. */
    function Interface(): Out
      reads this
    {
      if mOK then Keyed(m) else Flat(s)
    }

    /** setKeyValue: changes the output as Put says and leaves the cycle guard alone. */
    method SetKeyValue(key: string, elem: Out)
      requires Valid()
      modifies this
      ensures Snapshot() == EState(Put(old(Snapshot()).acc, key, elem), old(ptrLevel), old(ptrSeen))
    {
      if elem == Nil {
        return;
      }
      if mOK {
        m := m[key := elem];
      } else if sOK {
        s := s + [Str(key), elem];
      }
    }
  }

  /** The method finished as the specification `r` says: the same error, or the state r describes. */
  ghost predicate Agrees(r: Result<EState, EncError>, err: Option<EncError>, now: EState) {
    match r
    case Ok(st) => err.None? && now == st
    case Err(x) => err == Some(x)
  }

  /** A fresh state for a nested encoding; under SharedGuard it starts with its parent's guard. */
  method NewNested(cfg: Config, parent: EncodeState, i: Target) returns (ne: EncodeState)
    requires ModeOf(i).Some?
    ensures fresh(ne) && ne.Valid()
    ensures ne.Snapshot() == Nested(cfg, parent.Snapshot(), ModeOf(i).value)
  {
    var e := EncodeState.NewEncodeState(i);
    ne := e;
    if cfg == SharedGuard {
      ne.ptrLevel, ne.ptrSeen := parent.ptrLevel, parent.ptrSeen;
    }
  }

  /** The walk along a field's index in structEncoder.encode. */
  method FollowFieldIndex(types: TypeTable, heap: Heap, ty: TypeId, v: Value, index: seq<int>)
    returns (r: Result<Option<(TypeId, Value)>, EncError>)
    ensures r == FollowIndex(types, heap, ty, v, index)
  {
    var ft, fv, k := ty, v, 0;
    while k < |index|
      invariant 0 <= k <= |index|
      invariant FollowIndex(types, heap, ty, v, index) == FollowIndex(types, heap, ft, fv, index[k..])
    {
      assert index[k..][0] == index[k] && index[k..][1..] == index[k + 1..];
      if KindOf(types, ft) == Pointer {
        if fv == VPtr(None) {
          return Ok(None);
        }
        if !(fv.VPtr? && fv.ptr.Some? && fv.ptr.value in heap && heap[fv.ptr.value].Obj?) {
          return Err(Malformed);
        }
        fv := heap[fv.ptr.value].v;
      }
      var fs := FieldsOf(types, Deref(types, ft));
      if !(fv.VStruct? && |fv.fields| == |fs| && 0 <= index[k] < |fs|) {
        return Err(Malformed);
      }
      ft, fv := fs[index[k]].ty, fv.fields[index[k]];
      k := k + 1;
    }
    return Ok(Some((ft, fv)));
  }

  /** The encoderFunc of `ty`: newTypeEncoder's choice, then that encoder. */
  method EncodeWith(env: Env, heap: Heap, cfg: Config, fuel: nat, e: EncodeState, key: string,
                    ty: TypeId, v: Value, opts: EncOpts) returns (err: Option<EncError>)
    requires e.Valid()
    modifies e
    ensures Agrees(EncodeValue(env, heap, cfg, fuel, old(e.Snapshot()), key, ty, v, opts), err, e.Snapshot())
    decreases fuel, 1, 0
  {
    if fuel == 0 {
      return Some(StackOverflow);
    }
    match NewTypeEncoder(env, ty) {
      case PrimitiveEnc =>
        PrimitiveEncode(e, key, ty, v, opts);
        err := None;
      case InterfaceEnc =>
        err := InterfaceEncode(env, heap, cfg, fuel, e, key, v, opts);
      case UnsupportedEnc =>
        err := Some(UnsupportedType(ty, key));
      case StructEnc =>
        err := StructTypeEncode(env, heap, cfg, fuel, e, key, ty, v, opts);
      case PtrEnc(elem) =>
        err := PtrEncode(env, heap, cfg, fuel, e, key, ty, v, elem, opts);
      case MapEnc(elem) =>
        err := MapEncode(env, heap, cfg, fuel, e, key, ty, v, elem, opts);
      case SliceEnc(elem) =>
        err := SliceEncode(env, heap, cfg, fuel, e, key, ty, v, opts);
      case ArrayEnc(elem, n) =>
        if !(v.VArray? && |v.elems| == n) {
          return Some(Malformed);
        }
        err := ArrayEncode(env, heap, cfg, fuel, e, key, ty, v.elems, opts);
    }
  }

  /** primitiveEncoder. */
  method PrimitiveEncode(e: EncodeState, key: string, ty: TypeId, v: Value, opts: EncOpts)
    requires e.Valid()
    modifies e
    ensures e.Snapshot() == Primitive(old(e.Snapshot()), key, ty, v, opts)
  {
    if opts.quoted {
      e.SetKeyValue(key, Quoted(ty, v));
    } else {
      e.SetKeyValue(key, Native(ty, v));
    }
  }

  /** interfaceEncoder: nothing for a nil interface, else the encoder of the dynamic type. */
  method InterfaceEncode(env: Env, heap: Heap, cfg: Config, fuel: nat, e: EncodeState, key: string,
                         v: Value, opts: EncOpts) returns (err: Option<EncError>)
    requires fuel > 0
    requires e.Valid()
    modifies e
    ensures Agrees(EncodeInterface(env, heap, cfg, fuel, old(e.Snapshot()), key, v, opts), err, e.Snapshot())
    decreases fuel, 0, 0
  {
    match v {
      case VIface(None) => err := None;
      case VIface(Some(d)) => err := EncodeWith(env, heap, cfg, fuel - 1, e, key, d.ty, d.v, opts);
      case _ => err := Some(Malformed);
    }
  }

  /** ptrEncoder.encode. */
  method PtrEncode(env: Env, heap: Heap, cfg: Config, fuel: nat, e: EncodeState, key: string,
                   ty: TypeId, v: Value, elem: TypeId, opts: EncOpts) returns (err: Option<EncError>)
    requires fuel > 0
    requires e.Valid()
    modifies e
    ensures Agrees(EncodePtr(env, heap, cfg, fuel, old(e.Snapshot()), key, ty, v, elem, opts), err, e.Snapshot())
    decreases fuel, 0, 0
  {
    if v == VPtr(None) {
      e.SetKeyValue(key, Native(ty, v));
      return None;
    }
    if !(v.VPtr? && v.ptr.Some? && v.ptr.value in heap && heap[v.ptr.value].Obj?) {
      return Some(Malformed);
    }
    var id := PtrId(v.ptr.value, ty);
    err := EnterGuard(e, id, ty);
    if err.Some? {
      return;
    }
    var armed := e.ptrLevel > StartDetectingCyclesAfter;
    err := EncodeWith(env, heap, cfg, fuel - 1, e, key, elem, heap[v.ptr.value].v, opts);
    if err.Some? {
      return;
    }
    LeaveGuard(e, id, armed);
  }

  /** `e.ptrLevel++` and, past the threshold, the look-up and insertion of the identity in ptrSeen. */
  method EnterGuard(e: EncodeState, id: Ident, ty: TypeId) returns (err: Option<EncError>)
    requires e.Valid()
    modifies e
    ensures Agrees(EnterRef(old(e.Snapshot()), id, ty), err, e.Snapshot())
    ensures err.None? ==> (e.ptrLevel > StartDetectingCyclesAfter <==> Armed(old(e.Snapshot())))
  {
    e.ptrLevel := e.ptrLevel + 1;
    if e.ptrLevel > StartDetectingCyclesAfter {
      if id in e.ptrSeen {
        return Some(Cycle(ty));
      }
      e.ptrSeen := e.ptrSeen + {id};
    }
    return None;
  }

  /** `e.ptrLevel--` and the deferred delete from ptrSeen. */
  method LeaveGuard(e: EncodeState, id: Ident, armed: bool)
    requires e.Valid()
    modifies e
    ensures e.Snapshot() == LeaveRef(old(e.Snapshot()), id, armed)
  {
    if e.ptrLevel > 0 {
      e.ptrLevel := e.ptrLevel - 1;
    }
    if armed {
      e.ptrSeen := e.ptrSeen - {id};
    }
  }

  /** mapEncoder.encode. */
  method MapEncode(env: Env, heap: Heap, cfg: Config, fuel: nat, e: EncodeState, key: string,
                   ty: TypeId, v: Value, elem: TypeId, opts: EncOpts) returns (err: Option<EncError>)
    requires fuel > 0
    requires e.Valid()
    modifies e
    ensures Agrees(EncodeMap(env, heap, cfg, fuel, old(e.Snapshot()), key, ty, v, elem, opts), err, e.Snapshot())
    decreases fuel, 0, 0
  {
    if v == VMap(None) {
      e.SetKeyValue(key, Native(ty, v));
      return None;
    }
    if !(v.VMap? && v.tbl.Some? && v.tbl.value in heap && heap[v.tbl.value].Table?) {
      return Some(Malformed);
    }
    ghost var st := e.Snapshot();
    var id := MapId(v.tbl.value);
    err := EnterGuard(e, id, ty);
    if err.Some? {
      return;
    }
    ghost var st1 := e.Snapshot();
    var armed := e.ptrLevel > StartDetectingCyclesAfter;
    var m;
    err, m := EncodeEntriesNested(env, heap, cfg, fuel - 1, e, elem, heap[v.tbl.value].entries, opts);
    if err.Some? {
      return;
    }
    var out := if KindOf(env.types, MapElemBase(env.types, ty)) == Struct then Keyed(m) else TypedMap(ty, m);
    e.SetKeyValue(key, out);
    LeaveGuard(e, id, armed);
    MapResult(env, heap, cfg, fuel, st, key, ty, v, elem, opts, m);
  }

  /**
    The entries of a map encoded into a fresh map-mode state (newEncodeState(m) and the loop over
    the map's entries); the result is the map that state collected.
   */
  method EncodeEntriesNested(env: Env, heap: Heap, cfg: Config, fuel: nat, e: EncodeState, elem: TypeId,
                             entries: seq<(string, Value)>, opts: EncOpts) returns (err: Option<EncError>, m: map<string, Out>)
    ensures var r := EncodeEntries(env, heap, cfg, fuel, Nested(cfg, e.Snapshot(), KeyedAcc(map[])), elem, entries, 0, opts);
      && (r.Err? <==> err.Some?) && (r.Err? ==> err == Some(r.error))
      && (r.Ok? ==> r.value.acc.KeyedAcc? && m == r.value.acc.m)
    decreases fuel, 2, 1
  {
    var ne := NewNested(cfg, e, MapTarget(map[]));
    err := EncodeEntriesInto(env, heap, cfg, fuel, ne, elem, entries, opts);
    m := ne.m;
  }

  /** What mapEncoder.encode leaves when the guard and the entries succeeded. */
  lemma MapResult(env: Env, heap: Heap, cfg: Config, fuel: nat, st: EState, key: string,
                  ty: TypeId, v: Value, elem: TypeId, opts: EncOpts, m: map<string, Out>)
    requires fuel > 0 && v.VMap? && v.tbl.Some? && v.tbl.value in heap && heap[v.tbl.value].Table?
    requires EnterRef(st, MapId(v.tbl.value), ty).Ok?
    requires var st1 := EnterRef(st, MapId(v.tbl.value), ty).value;
      var r := EncodeEntries(env, heap, cfg, fuel - 1, Nested(cfg, st1, KeyedAcc(map[])), elem,
                             heap[v.tbl.value].entries, 0, opts);
      r.Ok? && r.value.acc.KeyedAcc? && m == r.value.acc.m
    ensures var st1 := EnterRef(st, MapId(v.tbl.value), ty).value;
      var out := if KindOf(env.types, MapElemBase(env.types, ty)) == Struct then Keyed(m) else TypedMap(ty, m);
      EncodeMap(env, heap, cfg, fuel, st, key, ty, v, elem, opts)
      == Ok(LeaveRef(EState(Put(st1.acc, key, out), st1.level, st1.seen), MapId(v.tbl.value), Armed(st)))
  {
  }

  /** The loop of mapEncoder.encode over the map's entries, into the nested state `ne`. */
  method EncodeEntriesInto(env: Env, heap: Heap, cfg: Config, fuel: nat, ne: EncodeState, elem: TypeId,
                           entries: seq<(string, Value)>, opts: EncOpts) returns (err: Option<EncError>)
    requires ne.Valid()
    modifies ne
    ensures Agrees(EncodeEntries(env, heap, cfg, fuel, old(ne.Snapshot()), elem, entries, 0, opts), err, ne.Snapshot())
    decreases fuel, 2, 0
  {
    ghost var whole := EncodeEntries(env, heap, cfg, fuel, ne.Snapshot(), elem, entries, 0, opts);
    err := None;
    var i := 0;
    while i < |entries|
      invariant 0 <= i <= |entries|
      invariant err.None? && whole == EncodeEntries(env, heap, cfg, fuel, ne.Snapshot(), elem, entries, i, opts)
      decreases |entries| - i
    {
      err := EncodeWith(env, heap, cfg, fuel, ne, entries[i].0, elem, entries[i].1, opts);
      if err.Some? {
        return;
      }
      i := i + 1;
    }
  }

  /** sliceEncoder.encode: the nil check, the guard on (first element, length), then arrayEncoder. */
  method SliceEncode(env: Env, heap: Heap, cfg: Config, fuel: nat, e: EncodeState, key: string,
                     ty: TypeId, v: Value, opts: EncOpts) returns (err: Option<EncError>)
    requires fuel > 0
    requires e.Valid()
    modifies e
    ensures Agrees(EncodeSlice(env, heap, cfg, fuel, old(e.Snapshot()), key, ty, v, opts), err, e.Snapshot())
    decreases fuel, 0, 0
  {
    if v == VSlice(None) {
      e.SetKeyValue(key, Native(ty, v));
      return None;
    }
    if !(v.VSlice? && v.arr.Some? && v.arr.value in heap && heap[v.arr.value].Backing?) {
      return Some(Malformed);
    }
    var es := heap[v.arr.value].elems;
    var id := SliceId(v.arr.value, |es|);
    err := EnterGuard(e, id, ty);
    if err.Some? {
      return;
    }
    var armed := e.ptrLevel > StartDetectingCyclesAfter;
    err := ArrayEncode(env, heap, cfg, fuel - 1, e, key, ty, es, opts.(convertToSlice := true));
    if err.Some? {
      return;
    }
    LeaveGuard(e, id, armed);
  }

  /** arrayEncoder.encode on the elements of an array or slice of type `ty`. */
  method ArrayEncode(env: Env, heap: Heap, cfg: Config, fuel: nat, e: EncodeState, key: string,
                     ty: TypeId, es: seq<Value>, opts: EncOpts) returns (err: Option<EncError>)
    requires e.Valid()
    modifies e
    ensures Agrees(EncodeArray(env, heap, cfg, fuel, old(e.Snapshot()), key, ty, es, opts), err, e.Snapshot())
    decreases fuel, 0, 0
  {
    if fuel == 0 {
      return Some(StackOverflow);
    }
    var s;
    err, s := EncodeElemsNested(env, heap, cfg, fuel - 1, e, Elem(env.types, ty), es, opts);
    if err.Some? {
      return;
    }
    var ok, items := CollectItems(s, |es|);
    if !ok {
      return Some(IndexOutOfRange);
    }
    assert items == seq(|es|, j requires 0 <= j < |es| => s[2 * j + 1]);
    var elemType := ElemBase(env.types, ty);
    var a := ArrayOut(if KindOf(env.types, elemType) == Struct then None else Some(elemType), items, opts.convertToSlice);
    e.SetKeyValue(key, a);
  }

  /**
    The element outputs s[2i+1] that arrayEncoder copies out of the nested state's key/value
    sequence, for i below n; it fails (the index out of range) when the sequence is shorter than 2n.
   */
  method CollectItems(s: seq<Out>, n: nat) returns (ok: bool, items: seq<Out>)
    ensures ok <==> 2 * n <= |s|
    ensures ok ==> |items| == n && forall j | 0 <= j < n :: items[j] == s[2 * j + 1]
  {
    items := [];
    var i := 0;
    while i < n
      invariant 0 <= i <= n && 2 * i <= |s|
      invariant |items| == i && forall j | 0 <= j < i :: items[j] == s[2 * j + 1]
    {
      if 2 * i + 1 >= |s| {
        return false, items;
      }
      items := items + [s[2 * i + 1]];
      i := i + 1;
    }
    return true, items;
  }

  /**
    The elements encoded into a fresh slice-mode state (newEncodeState(s) and the loop over the
    indices, element i under key strconv.Itoa(i)); the result is the sequence that state collected.
   */
  method EncodeElemsNested(env: Env, heap: Heap, cfg: Config, fuel: nat, e: EncodeState, elem: TypeId,
                           es: seq<Value>, opts: EncOpts) returns (err: Option<EncError>, s: seq<Out>)
    ensures var r := EncodeElems(env, heap, cfg, fuel, Nested(cfg, e.Snapshot(), FlatAcc([])), elem, es, 0, opts);
      && (r.Err? <==> err.Some?) && (r.Err? ==> err == Some(r.error))
      && (r.Ok? ==> r.value.acc.FlatAcc? && s == r.value.acc.s)
    decreases fuel, 2, 1
  {
    s := [];
    var ne := NewNested(cfg, e, SliceTarget([]));
    ghost var whole := EncodeElems(env, heap, cfg, fuel, ne.Snapshot(), elem, es, 0, opts);
    err := None;
    var n := |es|;
    var i := 0;
    while i < n
      invariant 0 <= i <= n
      invariant ne.sOK
      invariant err.None? && whole == EncodeElems(env, heap, cfg, fuel, ne.Snapshot(), elem, es, i, opts)
      decreases n - i
    {
      err := EncodeWith(env, heap, cfg, fuel, ne, Itoa(i), elem, es[i], opts);
      if err.Some? {
        return;
      }
      i := i + 1;
    }
    s := ne.s;
  }

  /** newStructEncoder's encoder: the fields typeFields resolves for `ty`, then structEncoder.encode. */
  method StructTypeEncode(env: Env, heap: Heap, cfg: Config, fuel: nat, e: EncodeState, key: string,
                          ty: TypeId, v: Value, opts: EncOpts) returns (err: Option<EncError>)
    requires fuel > 0
    requires e.Valid()
    modifies e
    ensures Agrees(EncodeStructType(env, heap, cfg, fuel, old(e.Snapshot()), key, ty, v, opts), err, e.Snapshot())
    decreases fuel, 0, 2
  {
    var fields := StructFields.TypeFields(env, ty);
    err := StructEncode(env, heap, cfg, fuel, e, key, ty, v, fields, opts);
  }

  /** structEncoder.encode with the field list cachedTypeFields gives. */
  method StructEncode(env: Env, heap: Heap, cfg: Config, fuel: nat, e: EncodeState, key: string,
                      ty: TypeId, v: Value, fields: seq<Field>, opts: EncOpts) returns (err: Option<EncError>)
    requires fuel > 0
    requires e.Valid()
    modifies e
    ensures Agrees(EncodeStruct(env, heap, cfg, fuel, old(e.Snapshot()), key, ty, v, fields, opts), err, e.Snapshot())
    decreases fuel, 0, 1
  {
    if |fields| == 0 {
      if key != "" && !opts.inline {
        PrimitiveEncode(e, key, ty, v, opts);
      }
      return None;
    }
    if key == "" || opts.inline {
      err := FieldLoop(env, heap, cfg, fuel - 1, e, ty, v, fields, opts);
    } else {
      var out;
      err, out := EncodeFieldsNested(env, heap, cfg, fuel - 1, e, ty, v, fields, opts);
      if err.Some? {
        return;
      }
      e.SetKeyValue(key, out);
    }
  }

  /** The fields encoded into a fresh state, slice mode under structConvertToSlice, else map mode. */
  method EncodeFieldsNested(env: Env, heap: Heap, cfg: Config, fuel: nat, e: EncodeState, ty: TypeId, v: Value,
                            fields: seq<Field>, opts: EncOpts) returns (err: Option<EncError>, out: Out)
    ensures var r := EncodeFields(env, heap, cfg, fuel,
                                  Nested(cfg, e.Snapshot(), if opts.structConvertToSlice then FlatAcc([]) else KeyedAcc(map[])),
                                  ty, v, fields, 0, opts);
      && (r.Err? <==> err.Some?) && (r.Err? ==> err == Some(r.error))
      && (r.Ok? ==> out == Encoding.Interface(r.value.acc))
    decreases fuel, 2, 1
  {
    var ne := NewNested(cfg, e, if opts.structConvertToSlice then SliceTarget([]) else MapTarget(map[]));
    err := FieldLoop(env, heap, cfg, fuel, ne, ty, v, fields, opts);
    out := ne.Interface();
  }

  /** The FieldLoop of structEncoder.encode, writing into `ne`. */
  method FieldLoop(env: Env, heap: Heap, cfg: Config, fuel: nat, ne: EncodeState, ty: TypeId, v: Value,
                   fields: seq<Field>, opts: EncOpts) returns (err: Option<EncError>)
    requires ne.Valid()
    modifies ne
    ensures Agrees(EncodeFields(env, heap, cfg, fuel, old(ne.Snapshot()), ty, v, fields, 0, opts), err, ne.Snapshot())
    decreases fuel, 2, 0
  {
    ghost var whole := EncodeFields(env, heap, cfg, fuel, ne.Snapshot(), ty, v, fields, 0, opts);
    err := None;
    var i := 0;
    while i < |fields|
      invariant 0 <= i <= |fields|
      invariant err.None? && whole == EncodeFields(env, heap, cfg, fuel, ne.Snapshot(), ty, v, fields, i, opts)
      decreases |fields| - i
    {
      err := EncodeOneField(env, heap, cfg, fuel, ne, ty, v, fields[i], opts);
      if err.Some? {
        return;
      }
      i := i + 1;
    }
  }

  /** The body of the FieldLoop for one field. */
  method EncodeOneField(env: Env, heap: Heap, cfg: Config, fuel: nat, ne: EncodeState, ty: TypeId, v: Value,
                        f: Field, opts: EncOpts) returns (err: Option<EncError>)
    requires ne.Valid()
    modifies ne
    ensures Agrees(EncodeField(env, heap, cfg, fuel, old(ne.Snapshot()), ty, v, f, opts), err, ne.Snapshot())
    decreases fuel, 1, 1
  {
    ghost var whole := EncodeField(env, heap, cfg, fuel, ne.Snapshot(), ty, v, f, opts);
    var fv := FollowFieldIndex(env.types, heap, ty, v, f.index);
    if fv.Err? {
      return Some(fv.error);
    }
    if fv.value.None? {
      return None;
    }
    var (fty, fval) := fv.value.value;
    if f.omitEmpty && IsEmptyValue(env.types, heap, fty, fval) {
      return None;
    }
    var o := opts.(quoted := f.quoted, inline := f.inline);
    assert whole == EncodeValue(env, heap, cfg, fuel, ne.Snapshot(), f.name, fty, fval, o);
    err := EncodeWith(env, heap, cfg, fuel, ne, f.name, fty, fval, o);
  }

  /** marshal: the invalid value for a nil interface, otherwise the value's encoder with key "". */
  method Marshal(env: Env, heap: Heap, cfg: Config, fuel: nat, e: EncodeState, v: Option<Dyn>, opts: EncOpts)
    returns (err: Option<EncError>)
    requires e.Valid()
    modifies e
    ensures Agrees(Encoding.Marshal(env, heap, cfg, fuel, old(e.Snapshot()), v, opts), err, e.Snapshot())
  {
    match v {
      case None => err := Some(InvalidValue);
      case Some(d) => err := EncodeWith(env, heap, cfg, fuel, e, "", d.ty, d.v, opts);
    }
  }
}
