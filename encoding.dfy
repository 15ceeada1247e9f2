/**
  The encoder of encode.go as functions: what each encoderFunc does to an encode state.

  An encode state accumulates output either as a map from keys to values (map mode) or as a flat
  sequence of alternating keys and values (slice mode).  The encoders are mutually recursive through
  the types of the value being encoded; `fuel` bounds the depth of nested encoder calls, standing for
  the goroutine stack, and running out of it is the StackOverflow error.
 */
module Encoding {
  import opened Wrappers
  import opened GoTypes
  import opened Resolver

  /** Nesting depth past which the pointer, map and slice encoders start remembering identities. */
  const StartDetectingCyclesAfter: nat := 1000

  /** What the cycle guard remembers: a typed pointer, a map, or a slice's first element and length. */
  datatype Ident = PtrId(addr: Addr, ty: TypeId) | MapId(addr: Addr) | SliceId(addr: Addr, len: nat)

  /** The values an encoder writes into the output (Go's `any`). */
  datatype Out =
    | Nil                                          // the untyped nil interface
    | Native(ty: TypeId, v: Value)                 // v.Interface()
    | Quoted(ty: TypeId, v: Value)                 // strconv.Quote(fmt.Sprint(v)), kept symbolic
    | Keyed(m: map<string, Out>)                   // a map[string]any
    | Flat(s: seq<Out>)                            // a []any
    | TypedMap(ty: TypeId, m: map<string, Out>)    // a map of the encoded map's own type
    | ArrayOut(elem: Option<TypeId>, items: seq<Out>, slice: bool)  // element type, or None for `any`
    | Str(str: string)                             // a key written into slice mode

  datatype EncError =
    | UnsupportedType(ty: TypeId, key: string)     // UnsupportedTypeError
    | Cycle(ty: TypeId)                            // UnsupportedValueError "encountered a cycle via"
    | InvalidValue                                 // the invalid reflect.Value
    | IndexOutOfRange                              // the runtime panic in arrayEncoder
    | StackOverflow                                // nesting deeper than the fuel allows
    | Malformed                                    // a value that does not fit its type

  /** The two output modes of encodeState. */
  datatype Acc = KeyedAcc(m: map<string, Out>) | FlatAcc(s: seq<Out>)

  /** An encodeState: its output and its cycle guard (ptrLevel, ptrSeen). */
  datatype EState = EState(acc: Acc, level: nat, seen: set<Ident>)

  datatype EncOpts = EncOpts(quoted: bool, convertToSlice: bool, inline: bool, structConvertToSlice: bool)

  /**
    How a nested encode state starts: fresh, with ptrLevel 0 and an empty ptrSeen, as the code does;
    or sharing its parent's cycle guard.
   */
  datatype Config = AsWritten | SharedGuard

  /** What the caller of newEncodeState hands over. */
  datatype Target =
    | MapTarget(m: map<string, Out>)
    | MapPtrTarget(mp: Option<map<string, Out>>)
    | SliceTarget(s: seq<Out>)
    | SlicePtrTarget(sp: Option<seq<Out>>)
    | OtherTarget

  /** newEncodeState's mode selection: a map or pointer to map, else a slice or pointer to slice. */
  function ModeOf(i: Target): (r: Option<Acc>)
  {
    match i
    case MapTarget(m) => Some(KeyedAcc(m))
    case MapPtrTarget(Some(m)) => Some(KeyedAcc(m))
    case SliceTarget(s) => Some(FlatAcc(s))
    case SlicePtrTarget(Some(s)) => Some(FlatAcc(s))
    case _ => None
  }

  /** encodeState.Interface: the accumulated output. */
  function Interface(acc: Acc): Out {
    match acc
    case KeyedAcc(m) => Keyed(m)
    case FlatAcc(s) => Flat(s)
  }

  /** setKeyValue: a nil element is dropped; map mode assigns the key; slice mode appends key and value. */
  function Put(acc: Acc, key: string, elem: Out): Acc {
    if elem == Nil then acc
    else match acc
      case KeyedAcc(m) => KeyedAcc(m[key := elem])
      case FlatAcc(s) => FlatAcc(s + [Str(key), elem])
  }

  /** A state set up for a nested encoding into `acc`. */
  function Nested(cfg: Config, parent: EState, acc: Acc): EState {
    if cfg == SharedGuard then EState(acc, parent.level, parent.seen) else EState(acc, 0, {})
  }

  /** The entry half of the cycle guard: count one level and, past the threshold, check the identity. */
  function EnterRef(st: EState, id: Ident, ty: TypeId): Result<EState, EncError> {
    var level := st.level + 1;
    if level > StartDetectingCyclesAfter then
      if id in st.seen then Err(Cycle(ty)) else Ok(EState(st.acc, level, st.seen + {id}))
    else Ok(EState(st.acc, level, st.seen))
  }

  /** The exit half: `ptrLevel--`, and the deferred delete when the identity was recorded. */
  function LeaveRef(st: EState, id: Ident, armed: bool): EState {
    EState(st.acc, if st.level == 0 then 0 else st.level - 1, if armed then st.seen - {id} else st.seen)
  }

  /** Whether EnterRef recorded the identity, judged from the level before the call. */
  predicate Armed(st: EState) {
    st.level + 1 > StartDetectingCyclesAfter
  }

  /** v.Len() for maps and slices; an unknown address reads as empty. */
  function Len(heap: Heap, v: Value): nat {
    match v
    case VMap(Some(a)) => if a in heap && heap[a].Table? then |heap[a].entries| else 0
    case VSlice(Some(a)) => if a in heap && heap[a].Backing? then |heap[a].elems| else 0
    case VStr(s) => |s|
    case _ => 0
  }

  /** isEmptyValue without the IsZero hook. */
  function IsEmptyValue(types: TypeTable, heap: Heap, ty: TypeId, v: Value): bool {
    match Desc(types, ty).shape
    case ArrayOf(_, n) => n == 0
    case MapOf(_, _) => Len(heap, v) == 0
    case SliceOf(_) => Len(heap, v) == 0
    case Scalar(SString) => Len(heap, v) == 0
    case Scalar(SBool) => v == VBool(false)
    case Scalar(_) => v == VNum(0)
    case InterfaceType => v == VIface(None)
    case PointerTo(_) => v == VPtr(None)
    case _ => false
  }

  /** The encoder newTypeEncoder builds for a type; element encoders and a struct's fields are looked up when used. */
  datatype Encoder =
    | PrimitiveEnc
    | InterfaceEnc
    | StructEnc
    | MapEnc(elem: TypeId)
    | SliceEnc(elem: TypeId)
    | ArrayEnc(elem: TypeId, len: nat)
    | PtrEnc(elem: TypeId)
    | UnsupportedEnc

  /** newTypeEncoder, with newMapEncoder's check that the key type is a string kind. */
  function NewTypeEncoder(env: Env, t: TypeId): Encoder {
    match Desc(env.types, t).shape
    case Scalar(_) => PrimitiveEnc
    case InterfaceType => InterfaceEnc
    case StructOf(_) => StructEnc
    case MapOf(k, e) => if KindOf(env.types, k) == String then MapEnc(e) else UnsupportedEnc
    case SliceOf(e) => SliceEnc(e)
    case ArrayOf(e, n) => ArrayEnc(e, n)
    case PointerTo(e) => PtrEnc(e)
    case Other(_) => UnsupportedEnc
  }

  /**
    The walk of structEncoder along a field's index: None when it meets a nil pointer, otherwise
    the field's declared type and value.
   */
  function FollowIndex(types: TypeTable, heap: Heap, ty: TypeId, v: Value, index: seq<int>)
    : Result<Option<(TypeId, Value)>, EncError>
    decreases |index|
  {
    if index == [] then Ok(Some((ty, v)))
    else if KindOf(types, ty) == Pointer && v == VPtr(None) then Ok(None)
    else
      var dv :- (if KindOf(types, ty) != Pointer then Ok(v)
                 else if v.VPtr? && v.ptr.Some? && v.ptr.value in heap && heap[v.ptr.value].Obj? then Ok(heap[v.ptr.value].v)
                 else Err(Malformed));
      var dt := Deref(types, ty);
      var fs := FieldsOf(types, dt);
      if dv.VStruct? && |dv.fields| == |fs| && 0 <= index[0] < |fs| then
        FollowIndex(types, heap, fs[index[0]].ty, dv.fields[index[0]], index[1..])
      else Err(Malformed)
  }

  /** strconv.Itoa on a non-negative number. */
  function Itoa(n: nat): (s: string)
    ensures |s| > 0
  {
    if n < 10 then [Digit(n)] else Itoa(n / 10) + [Digit(n % 10)]
  }

  function Digit(d: nat): char
    requires d < 10
  {
    ['0', '1', '2', '3', '4', '5', '6', '7', '8', '9'][d]
  }

  /** The element type an array or map encoder reports: Elem, past one pointer. */
  function ElemBase(types: TypeTable, ty: TypeId): TypeId {
    Deref(types, Elem(types, ty))
  }

  /** The element type mapEncoder inspects: Elem, past one pointer, then past one slice or array. */
  function MapElemBase(types: TypeTable, ty: TypeId): TypeId {
    var e := ElemBase(types, ty);
    if KindOf(types, e) in {Slice, Array} then Elem(types, e) else e
  }

  /** primitiveEncoder. */
  function Primitive(st: EState, key: string, ty: TypeId, v: Value, opts: EncOpts): EState {
    EState(Put(st.acc, key, if opts.quoted then Quoted(ty, v) else Native(ty, v)), st.level, st.seen)
  }

  function Keys(acc: Acc): map<string, Out> {
    if acc.KeyedAcc? then acc.m else map[]
  }

  function Items(acc: Acc): seq<Out> {
    if acc.FlatAcc? then acc.s else []
  }

  /** The encoderFunc of type `ty` applied to (st, key, v, opts). */
  function EncodeValue(env: Env, heap: Heap, cfg: Config, fuel: nat, st: EState, key: string,
                       ty: TypeId, v: Value, opts: EncOpts): Result<EState, EncError>
    decreases fuel, 1, 0
  {
    if fuel == 0 then Err(StackOverflow)
    else match NewTypeEncoder(env, ty)
      case PrimitiveEnc => Ok(Primitive(st, key, ty, v, opts))
      case InterfaceEnc => EncodeInterface(env, heap, cfg, fuel, st, key, v, opts)
      case UnsupportedEnc => Err(UnsupportedType(ty, key))
      case StructEnc => EncodeStructType(env, heap, cfg, fuel, st, key, ty, v, opts)
      case PtrEnc(elem) => EncodePtr(env, heap, cfg, fuel, st, key, ty, v, elem, opts)
      case MapEnc(elem) => EncodeMap(env, heap, cfg, fuel, st, key, ty, v, elem, opts)
      case SliceEnc(elem) => EncodeSlice(env, heap, cfg, fuel, st, key, ty, v, opts)
      case ArrayEnc(elem, n) =>
        if v.VArray? && |v.elems| == n then EncodeArray(env, heap, cfg, fuel, st, key, ty, v.elems, opts)
        else Err(Malformed)
  }

  /** interfaceEncoder: nothing for the nil interface, else the encoder of the dynamic value. */
  function EncodeInterface(env: Env, heap: Heap, cfg: Config, fuel: nat, st: EState, key: string,
                           v: Value, opts: EncOpts): Result<EState, EncError>
    requires fuel > 0
    decreases fuel, 0, 0
  {
    match v
    case VIface(None) => Ok(st)
    case VIface(Some(d)) => EncodeValue(env, heap, cfg, fuel - 1, st, key, d.ty, d.v, opts)
    case _ => Err(Malformed)
  }

  /** ptrEncoder.encode: nil is written as is; otherwise the guard around the element's encoder. */
  function EncodePtr(env: Env, heap: Heap, cfg: Config, fuel: nat, st: EState, key: string,
                     ty: TypeId, v: Value, elem: TypeId, opts: EncOpts): Result<EState, EncError>
    requires fuel > 0
    decreases fuel, 0, 0
  {
    if v == VPtr(None) then Ok(EState(Put(st.acc, key, Native(ty, v)), st.level, st.seen))
    else if v.VPtr? && v.ptr.Some? && v.ptr.value in heap && heap[v.ptr.value].Obj? then
      var id := PtrId(v.ptr.value, ty);
      var st1 :- EnterRef(st, id, ty);
      var st2 :- EncodeValue(env, heap, cfg, fuel - 1, st1, key, elem, heap[v.ptr.value].v, opts);
      Ok(LeaveRef(st2, id, Armed(st)))
    else Err(Malformed)
  }

  /**
    mapEncoder.encode: nil is written as is; otherwise the entries go into a nested map, written as
    a plain map when the element type is (a pointer to, a slice or array of) a struct, else as a map
    of the encoded map's own type.
   */
  function EncodeMap(env: Env, heap: Heap, cfg: Config, fuel: nat, st: EState, key: string,
                     ty: TypeId, v: Value, elem: TypeId, opts: EncOpts): Result<EState, EncError>
    requires fuel > 0
    decreases fuel, 0, 0
  {
    if v == VMap(None) then Ok(EState(Put(st.acc, key, Native(ty, v)), st.level, st.seen))
    else if v.VMap? && v.tbl.Some? && v.tbl.value in heap && heap[v.tbl.value].Table? then
      var id := MapId(v.tbl.value);
      var st1 :- EnterRef(st, id, ty);
      var ne :- EncodeEntries(env, heap, cfg, fuel - 1, Nested(cfg, st1, KeyedAcc(map[])), elem,
                              heap[v.tbl.value].entries, 0, opts);
      var m := Keys(ne.acc);
      var out := if KindOf(env.types, MapElemBase(env.types, ty)) == Struct then Keyed(m) else TypedMap(ty, m);
      Ok(LeaveRef(EState(Put(st1.acc, key, out), st1.level, st1.seen), id, Armed(st)))
    else Err(Malformed)
  }

  /** sliceEncoder.encode: nil is written as is; otherwise the guard around arrayEncoder. */
  function EncodeSlice(env: Env, heap: Heap, cfg: Config, fuel: nat, st: EState, key: string,
                       ty: TypeId, v: Value, opts: EncOpts): Result<EState, EncError>
    requires fuel > 0
    decreases fuel, 0, 0
  {
    if v == VSlice(None) then Ok(EState(Put(st.acc, key, Native(ty, v)), st.level, st.seen))
    else if v.VSlice? && v.arr.Some? && v.arr.value in heap && heap[v.arr.value].Backing? then
      var es := heap[v.arr.value].elems;
      var id := SliceId(v.arr.value, |es|);
      var st1 :- EnterRef(st, id, ty);
      var st2 :- EncodeArray(env, heap, cfg, fuel - 1, st1, key, ty, es, opts.(convertToSlice := true));
      Ok(LeaveRef(st2, id, Armed(st)))
    else Err(Malformed)
  }

  /** arrayEncoder.encode on the elements `es` of an array or slice of type `ty`. */
  function EncodeArray(env: Env, heap: Heap, cfg: Config, fuel: nat, st: EState, key: string,
                       ty: TypeId, es: seq<Value>, opts: EncOpts): Result<EState, EncError>
    decreases fuel, 0, 0
  {
    if fuel == 0 then Err(StackOverflow)
    else
      var ne :- EncodeElems(env, heap, cfg, fuel - 1, Nested(cfg, st, FlatAcc([])), Elem(env.types, ty), es, 0, opts);
      var s := Items(ne.acc);
      if |s| < 2 * |es| then Err(IndexOutOfRange)
      else
        var items := seq(|es|, i requires 0 <= i < |es| => s[2 * i + 1]);
        var et := ElemBase(env.types, ty);
        var out := ArrayOut(if KindOf(env.types, et) == Struct then None else Some(et), items, opts.convertToSlice);
        Ok(EState(Put(st.acc, key, out), st.level, st.seen))
  }

  /** The loop of arrayEncoder: element i under key strconv.Itoa(i). */
  function EncodeElems(env: Env, heap: Heap, cfg: Config, fuel: nat, ne: EState, elem: TypeId,
                       es: seq<Value>, i: nat, opts: EncOpts): Result<EState, EncError>
    decreases fuel, 2, |es| - i
  {
    if i >= |es| then Ok(ne)
    else
      var ne' :- EncodeValue(env, heap, cfg, fuel, ne, Itoa(i), elem, es[i], opts);
      EncodeElems(env, heap, cfg, fuel, ne', elem, es, i + 1, opts)
  }

  /** The loop of mapEncoder over the map's entries, in iteration order. */
  function EncodeEntries(env: Env, heap: Heap, cfg: Config, fuel: nat, ne: EState, elem: TypeId,
                         entries: seq<(string, Value)>, i: nat, opts: EncOpts): Result<EState, EncError>
    decreases fuel, 2, |entries| - i
  {
    if i >= |entries| then Ok(ne)
    else
      var ne' :- EncodeValue(env, heap, cfg, fuel, ne, entries[i].0, elem, entries[i].1, opts);
      EncodeEntries(env, heap, cfg, fuel, ne', elem, entries, i + 1, opts)
  }

  /**
    The encoder newStructEncoder builds for ty: structEncoder.encode over the fields cachedTypeFields
    resolves for ty.
   */
  function EncodeStructType(env: Env, heap: Heap, cfg: Config, fuel: nat, st: EState, key: string,
                            ty: TypeId, v: Value, opts: EncOpts): Result<EState, EncError>
    requires fuel > 0
    decreases fuel, 0, 2
  {
    EncodeStruct(env, heap, cfg, fuel, st, key, ty, v, TypeFieldsSpec(env, ty), opts)
  }

  /** structEncoder.encode. */
  function EncodeStruct(env: Env, heap: Heap, cfg: Config, fuel: nat, st: EState, key: string,
                        ty: TypeId, v: Value, fields: seq<Field>, opts: EncOpts): Result<EState, EncError>
    requires fuel > 0
    decreases fuel, 0, 1
  {
    if fields == [] then
      if key != "" && !opts.inline then Ok(Primitive(st, key, ty, v, opts)) else Ok(st)
    else if key == "" || opts.inline then
      EncodeFields(env, heap, cfg, fuel - 1, st, ty, v, fields, 0, opts)
    else
      var ne0 := Nested(cfg, st, if opts.structConvertToSlice then FlatAcc([]) else KeyedAcc(map[]));
      var ne :- EncodeFields(env, heap, cfg, fuel - 1, ne0, ty, v, fields, 0, opts);
      Ok(EState(Put(st.acc, key, Interface(ne.acc)), st.level, st.seen))
  }

  /** The FieldLoop of structEncoder.encode from field i on. */
  function EncodeFields(env: Env, heap: Heap, cfg: Config, fuel: nat, ne: EState, ty: TypeId, v: Value,
                        fields: seq<Field>, i: nat, opts: EncOpts): Result<EState, EncError>
    decreases fuel, 2, |fields| - i
  {
    if i >= |fields| then Ok(ne)
    else
      var ne' :- EncodeField(env, heap, cfg, fuel, ne, ty, v, fields[i], opts);
      EncodeFields(env, heap, cfg, fuel, ne', ty, v, fields, i + 1, opts)
  }

  /**
    One turn of the FieldLoop: the walk along the field's index, which skips the field at a nil
    pointer; the omitempty test; then the encoder of the field's type under the field's name,
    with the field's quoted and inline options.
   */
  function EncodeField(env: Env, heap: Heap, cfg: Config, fuel: nat, ne: EState, ty: TypeId, v: Value,
                       f: Field, opts: EncOpts): Result<EState, EncError>
    decreases fuel, 1, 1
  {
    var fv :- FollowIndex(env.types, heap, ty, v, f.index);
    if fv.None? then Ok(ne)
    else if f.omitEmpty && IsEmptyValue(env.types, heap, fv.value.0, fv.value.1) then Ok(ne)
    else EncodeValue(env, heap, cfg, fuel, ne, f.name, fv.value.0, fv.value.1, opts.(quoted := f.quoted, inline := f.inline))
  }

  /** marshal: encode a value as a whole (key "") into a state; the nil interface is an invalid value. */
  function Marshal(env: Env, heap: Heap, cfg: Config, fuel: nat, st: EState, v: Option<Dyn>, opts: EncOpts)
    : Result<EState, EncError>
  {
    match v
    case None => Err(InvalidValue)
    case Some(d) => EncodeValue(env, heap, cfg, fuel, st, "", d.ty, d.v, opts)
  }
}
