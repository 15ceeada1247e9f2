/** What the encoders promise about the state they write into. */
module EncodingFacts {
  import opened Wrappers
  import opened GoTypes
  import opened Resolver
  import opened Encoding
  import CompactionFacts

  // ---------------------------------------------------------------------------------------
  // setKeyValue and the cycle guard.

  /** setKeyValue: nil changes nothing; map mode overwrites one key only; slice mode appends exactly two. */
  lemma PutSpec(acc: Acc, key: string, elem: Out)
    ensures elem == Nil ==> Put(acc, key, elem) == acc
    ensures elem != Nil && acc.KeyedAcc? ==>
      var m := Put(acc, key, elem).m;
      && m.Keys == acc.m.Keys + {key} && m[key] == elem
      && forall k | k in acc.m && k != key :: m[k] == acc.m[k]
    ensures elem != Nil && acc.FlatAcc? ==>
      var s := Put(acc, key, elem).s;
      && |s| == |acc.s| + 2 && s[..|acc.s|] == acc.s && s[|acc.s|] == Str(key) && s[|acc.s| + 1] == elem
  {
  }

  /**
    The cycle guard: below the threshold it only counts and never touches ptrSeen; above it, it
    fails exactly on an identity it has seen, and otherwise records it.
   */
  lemma EnterRefSpec(st: EState, id: Ident, ty: TypeId)
    ensures var r := EnterRef(st, id, ty);
      && (r.Err? <==> st.level >= StartDetectingCyclesAfter && id in st.seen)
      && (r.Err? ==> r.error == Cycle(ty))
      && (r.Ok? ==> r.value.acc == st.acc && r.value.level == st.level + 1)
      && (r.Ok? && st.level < StartDetectingCyclesAfter ==> r.value.seen == st.seen)
      && (r.Ok? && st.level >= StartDetectingCyclesAfter ==> r.value.seen == st.seen + {id})
  {
  }

  /** Leaving undoes entering: ptrLevel and ptrSeen are back to their values before EnterRef. */
  lemma LeaveUndoesEnter(st: EState, id: Ident, ty: TypeId, acc: Acc)
    requires EnterRef(st, id, ty).Ok?
    ensures var st1 := EnterRef(st, id, ty).value;
      var back := LeaveRef(EState(acc, st1.level, st1.seen), id, Armed(st));
      back.level == st.level && back.seen == st.seen && back.acc == acc
  {
  }

  // ---------------------------------------------------------------------------------------
  // Every encoder restores the cycle guard, keeps the mode, and only appends in slice mode.

  /** b is a.later state of the same encode state after an encoder returned normally. */
  ghost predicate Extends(a: EState, b: EState) {
    && b.level == a.level && b.seen == a.seen
    && (a.acc.KeyedAcc? <==> b.acc.KeyedAcc?)
    && (a.acc.FlatAcc? ==> a.acc.s <= b.acc.s)
  }

  lemma PutExtends(st: EState, key: string, elem: Out)
    ensures Extends(st, EState(Put(st.acc, key, elem), st.level, st.seen))
  {
  }

  lemma {:induction false} ValueFrame(env: Env, heap: Heap, cfg: Config, fuel: nat, st: EState, key: string,
                                      ty: TypeId, v: Value, opts: EncOpts)
    ensures var r := EncodeValue(env, heap, cfg, fuel, st, key, ty, v, opts);
      r.Ok? ==> Extends(st, r.value)
    decreases fuel, 1, 0
  {
    if fuel > 0 {
      match NewTypeEncoder(env, ty)
      case PrimitiveEnc => PutExtends(st, key, if opts.quoted then Quoted(ty, v) else Native(ty, v));
      case InterfaceEnc => InterfaceFrame(env, heap, cfg, fuel, st, key, v, opts);
      case UnsupportedEnc =>
      case StructEnc => StructTypeFrame(env, heap, cfg, fuel, st, key, ty, v, opts);
      case PtrEnc(elem) => PtrFrame(env, heap, cfg, fuel, st, key, ty, v, elem, opts);
      case MapEnc(elem) => MapFrame(env, heap, cfg, fuel, st, key, ty, v, elem, opts);
      case SliceEnc(elem) => SliceFrame(env, heap, cfg, fuel, st, key, ty, v, opts);
      case ArrayEnc(elem, n) =>
        if v.VArray? && |v.elems| == n {
          ArrayFrame(env, heap, cfg, fuel, st, key, ty, v.elems, opts);
        }
    }
  }

  lemma {:induction false} InterfaceFrame(env: Env, heap: Heap, cfg: Config, fuel: nat, st: EState, key: string,
                                          v: Value, opts: EncOpts)
    requires fuel > 0
    ensures var r := EncodeInterface(env, heap, cfg, fuel, st, key, v, opts);
      r.Ok? ==> Extends(st, r.value)
    decreases fuel, 0, 0
  {
    if v.VIface? && v.dyn.Some? {
      ValueFrame(env, heap, cfg, fuel - 1, st, key, v.dyn.value.ty, v.dyn.value.v, opts);
    }
  }

  lemma {:induction false} PtrFrame(env: Env, heap: Heap, cfg: Config, fuel: nat, st: EState, key: string,
                                    ty: TypeId, v: Value, elem: TypeId, opts: EncOpts)
    requires fuel > 0
    ensures var r := EncodePtr(env, heap, cfg, fuel, st, key, ty, v, elem, opts);
      r.Ok? ==> Extends(st, r.value)
    decreases fuel, 0, 0
  {
    var r := EncodePtr(env, heap, cfg, fuel, st, key, ty, v, elem, opts);
    if v == VPtr(None) {
      PutExtends(st, key, Native(ty, v));
    } else if r.Ok? {
      var id := PtrId(v.ptr.value, ty);
      var st1 := EnterRef(st, id, ty).value;
      ValueFrame(env, heap, cfg, fuel - 1, st1, key, elem, heap[v.ptr.value].v, opts);
      var st2 := EncodeValue(env, heap, cfg, fuel - 1, st1, key, elem, heap[v.ptr.value].v, opts).value;
      LeaveUndoesEnter(st, id, ty, st2.acc);
      assert st2 == EState(st2.acc, st1.level, st1.seen);
    }
  }

  lemma MapFrame(env: Env, heap: Heap, cfg: Config, fuel: nat, st: EState, key: string,
                 ty: TypeId, v: Value, elem: TypeId, opts: EncOpts)
    requires fuel > 0
    ensures var r := EncodeMap(env, heap, cfg, fuel, st, key, ty, v, elem, opts);
      r.Ok? ==> Extends(st, r.value)
  {
    var r := EncodeMap(env, heap, cfg, fuel, st, key, ty, v, elem, opts);
    if v == VMap(None) {
      PutExtends(st, key, Native(ty, v));
    } else if r.Ok? {
      var id := MapId(v.tbl.value);
      var st1 := EnterRef(st, id, ty).value;
      var ne := EncodeEntries(env, heap, cfg, fuel - 1, Nested(cfg, st1, KeyedAcc(map[])), elem,
                              heap[v.tbl.value].entries, 0, opts).value;
      var m := Keys(ne.acc);
      var out := if KindOf(env.types, MapElemBase(env.types, ty)) == Struct then Keyed(m) else TypedMap(ty, m);
      PutExtends(st1, key, out);
      LeaveUndoesEnter(st, id, ty, Put(st1.acc, key, out));
    }
  }

  lemma {:induction false} SliceFrame(env: Env, heap: Heap, cfg: Config, fuel: nat, st: EState, key: string,
                                      ty: TypeId, v: Value, opts: EncOpts)
    requires fuel > 0
    ensures var r := EncodeSlice(env, heap, cfg, fuel, st, key, ty, v, opts);
      r.Ok? ==> Extends(st, r.value)
  {
    var r := EncodeSlice(env, heap, cfg, fuel, st, key, ty, v, opts);
    if v == VSlice(None) {
      PutExtends(st, key, Native(ty, v));
    } else if r.Ok? {
      var es := heap[v.arr.value].elems;
      var id := SliceId(v.arr.value, |es|);
      var st1 := EnterRef(st, id, ty).value;
      ArrayFrame(env, heap, cfg, fuel - 1, st1, key, ty, es, opts.(convertToSlice := true));
      var st2 := EncodeArray(env, heap, cfg, fuel - 1, st1, key, ty, es, opts.(convertToSlice := true)).value;
      LeaveUndoesEnter(st, id, ty, st2.acc);
      assert st2 == EState(st2.acc, st1.level, st1.seen);
    }
  }

  /** arrayEncoder writes one key into its caller's state and leaves the guard as it was. */
  lemma ArrayFrame(env: Env, heap: Heap, cfg: Config, fuel: nat, st: EState, key: string,
                   ty: TypeId, es: seq<Value>, opts: EncOpts)
    ensures var r := EncodeArray(env, heap, cfg, fuel, st, key, ty, es, opts);
      r.Ok? ==> Extends(st, r.value)
  {
    var r := EncodeArray(env, heap, cfg, fuel, st, key, ty, es, opts);
    if r.Ok? {
      var ne := EncodeElems(env, heap, cfg, fuel - 1, Nested(cfg, st, FlatAcc([])), Elem(env.types, ty), es, 0, opts).value;
      var s := Items(ne.acc);
      var items := seq(|es|, i requires 0 <= i < |es| => s[2 * i + 1]);
      var et := ElemBase(env.types, ty);
      PutExtends(st, key, ArrayOut(if KindOf(env.types, et) == Struct then None else Some(et), items, opts.convertToSlice));
    }
  }

  lemma {:induction false} StructTypeFrame(env: Env, heap: Heap, cfg: Config, fuel: nat, st: EState, key: string,
                                           ty: TypeId, v: Value, opts: EncOpts)
    requires fuel > 0
    ensures var r := EncodeStructType(env, heap, cfg, fuel, st, key, ty, v, opts);
      r.Ok? ==> Extends(st, r.value)
    decreases fuel, 0, 2
  {
    StructFrame(env, heap, cfg, fuel, st, key, ty, v, TypeFieldsSpec(env, ty), opts);
  }

  lemma {:induction false} StructFrame(env: Env, heap: Heap, cfg: Config, fuel: nat, st: EState, key: string,
                                       ty: TypeId, v: Value, fields: seq<Field>, opts: EncOpts)
    requires fuel > 0
    ensures var r := EncodeStruct(env, heap, cfg, fuel, st, key, ty, v, fields, opts);
      r.Ok? ==> Extends(st, r.value)
    decreases fuel, 0, 1
  {
    if fields == [] {
      PutExtends(st, key, if opts.quoted then Quoted(ty, v) else Native(ty, v));
    } else if key == "" || opts.inline {
      FieldsFrame(env, heap, cfg, fuel - 1, st, ty, v, fields, 0, opts);
    }
  }

  lemma {:induction false} FieldsFrame(env: Env, heap: Heap, cfg: Config, fuel: nat, ne: EState, ty: TypeId,
                                       v: Value, fields: seq<Field>, i: nat, opts: EncOpts)
    ensures var r := EncodeFields(env, heap, cfg, fuel, ne, ty, v, fields, i, opts);
      r.Ok? ==> Extends(ne, r.value)
    decreases fuel, 2, |fields| - i
  {
    if i < |fields| {
      var r1 := EncodeField(env, heap, cfg, fuel, ne, ty, v, fields[i], opts);
      if r1.Ok? {
        FieldFrame(env, heap, cfg, fuel, ne, ty, v, fields[i], opts);
        FieldsFrame(env, heap, cfg, fuel, r1.value, ty, v, fields, i + 1, opts);
      }
    }
  }

  lemma {:induction false} FieldFrame(env: Env, heap: Heap, cfg: Config, fuel: nat, ne: EState, ty: TypeId,
                                      v: Value, f: Field, opts: EncOpts)
    ensures var r := EncodeField(env, heap, cfg, fuel, ne, ty, v, f, opts);
      r.Ok? ==> Extends(ne, r.value)
    decreases fuel, 1, 1
  {
    var fv := FollowIndex(env.types, heap, ty, v, f.index);
    if fv.Ok? && fv.value.Some? {
      ValueFrame(env, heap, cfg, fuel, ne, f.name, fv.value.value.0, fv.value.value.1,
                 opts.(quoted := f.quoted, inline := f.inline));
    }
  }

  // ---------------------------------------------------------------------------------------
  // Which keys an encoder writes.

  /** Key k has the same binding, or the same absence, in both maps. */
  ghost predicate SameAt(m1: map<string, Out>, m2: map<string, Out>, k: string) {
    (k in m1 <==> k in m2) && (k in m1 ==> m1[k] == m2[k])
  }

  /** b is a, changed at most by one setKeyValue(key, ·). */
  ghost predicate OneKey(a: Acc, b: Acc, key: string) {
    match a
    case KeyedAcc(m) => b.KeyedAcc? && forall k | k != key :: SameAt(m, b.m, k)
    case FlatAcc(s) => b.FlatAcc? && (b.s == s || (|b.s| == |s| + 2 && b.s[..|s|] == s && b.s[|s|] == Str(key)))
  }

  /**
    An encoder called with a non-empty key and without the inline option writes at most that key:
    in map mode no other key changes, in slice mode at most one key/value pair is appended.
   */
  lemma {:induction false} ValueOneKey(env: Env, heap: Heap, cfg: Config, fuel: nat, st: EState, key: string,
                                       ty: TypeId, v: Value, opts: EncOpts)
    requires key != "" && !opts.inline
    ensures var r := EncodeValue(env, heap, cfg, fuel, st, key, ty, v, opts);
      r.Ok? ==> OneKey(st.acc, r.value.acc, key)
    decreases fuel, 1
  {
    var r := EncodeValue(env, heap, cfg, fuel, st, key, ty, v, opts);
    if fuel > 0 && r.Ok? {
      match NewTypeEncoder(env, ty)
      case PrimitiveEnc => PutOneKey(st.acc, key, if opts.quoted then Quoted(ty, v) else Native(ty, v));
      case InterfaceEnc =>
        if v.VIface? && v.dyn.Some? {
          ValueOneKey(env, heap, cfg, fuel - 1, st, key, v.dyn.value.ty, v.dyn.value.v, opts);
        } else {
          OneKeyRefl(st.acc, key);
        }
      case UnsupportedEnc =>
      case StructEnc => StructTypeOneKey(env, heap, cfg, fuel, st, key, ty, v, opts);
      case PtrEnc(elem) => PtrOneKey(env, heap, cfg, fuel, st, key, ty, v, elem, opts);
      case MapEnc(elem) => MapOneKey(env, heap, cfg, fuel, st, key, ty, v, elem, opts);
      case SliceEnc(elem) => SliceOneKey(env, heap, cfg, fuel, st, key, ty, v, elem, opts);
      case ArrayEnc(elem, n) => ArrayOneKey(env, heap, cfg, fuel, st, key, ty, v.elems, opts);
    }
  }

  lemma {:induction false} PtrOneKey(env: Env, heap: Heap, cfg: Config, fuel: nat, st: EState, key: string,
                                     ty: TypeId, v: Value, elem: TypeId, opts: EncOpts)
    requires fuel > 0 && key != "" && !opts.inline
    ensures var r := EncodePtr(env, heap, cfg, fuel, st, key, ty, v, elem, opts);
      r.Ok? ==> OneKey(st.acc, r.value.acc, key)
    decreases fuel, 0
  {
    var r := EncodePtr(env, heap, cfg, fuel, st, key, ty, v, elem, opts);
    if r.Ok? {
      if v == VPtr(None) {
        PutOneKey(st.acc, key, Native(ty, v));
      } else {
        var id := PtrId(v.ptr.value, ty);
        var st1 := EnterRef(st, id, ty).value;
        ValueOneKey(env, heap, cfg, fuel - 1, st1, key, elem, heap[v.ptr.value].v, opts);
      }
    }
  }

  lemma StructTypeOneKey(env: Env, heap: Heap, cfg: Config, fuel: nat, st: EState, key: string,
                         ty: TypeId, v: Value, opts: EncOpts)
    requires fuel > 0 && key != "" && !opts.inline
    ensures var r := EncodeStructType(env, heap, cfg, fuel, st, key, ty, v, opts);
      r.Ok? ==> OneKey(st.acc, r.value.acc, key)
  {
    StructOneKey(env, heap, cfg, fuel, st, key, ty, v, TypeFieldsSpec(env, ty), opts);
  }

  lemma StructOneKey(env: Env, heap: Heap, cfg: Config, fuel: nat, st: EState, key: string,
                     ty: TypeId, v: Value, fields: seq<Field>, opts: EncOpts)
    requires fuel > 0 && key != "" && !opts.inline
    ensures var r := EncodeStruct(env, heap, cfg, fuel, st, key, ty, v, fields, opts);
      r.Ok? ==> OneKey(st.acc, r.value.acc, key)
  {
    var r := EncodeStruct(env, heap, cfg, fuel, st, key, ty, v, fields, opts);
    if r.Ok? {
      if fields == [] {
        PutOneKey(st.acc, key, if opts.quoted then Quoted(ty, v) else Native(ty, v));
      } else {
        var ne0 := Nested(cfg, st, if opts.structConvertToSlice then FlatAcc([]) else KeyedAcc(map[]));
        var ne := EncodeFields(env, heap, cfg, fuel - 1, ne0, ty, v, fields, 0, opts).value;
        PutOneKey(st.acc, key, Encoding.Interface(ne.acc));
      }
    }
  }

  lemma MapOneKey(env: Env, heap: Heap, cfg: Config, fuel: nat, st: EState, key: string,
                  ty: TypeId, v: Value, elem: TypeId, opts: EncOpts)
    requires fuel > 0 && NewTypeEncoder(env, ty) == MapEnc(elem)
    ensures var r := EncodeValue(env, heap, cfg, fuel, st, key, ty, v, opts);
      r.Ok? ==> OneKey(st.acc, r.value.acc, key)
  {
    var r := EncodeValue(env, heap, cfg, fuel, st, key, ty, v, opts);
    assert r == EncodeMap(env, heap, cfg, fuel, st, key, ty, v, elem, opts);
    if r.Ok? {
      if v == VMap(None) {
        PutOneKey(st.acc, key, Native(ty, v));
      } else {
        var id := MapId(v.tbl.value);
        var st1 := EnterRef(st, id, ty).value;
        var ne := EncodeEntries(env, heap, cfg, fuel - 1, Nested(cfg, st1, KeyedAcc(map[])), elem,
                                heap[v.tbl.value].entries, 0, opts).value;
        var m := Keys(ne.acc);
        PutOneKey(st.acc, key, if KindOf(env.types, MapElemBase(env.types, ty)) == Struct then Keyed(m) else TypedMap(ty, m));
      }
    }
  }

  lemma SliceOneKey(env: Env, heap: Heap, cfg: Config, fuel: nat, st: EState, key: string,
                    ty: TypeId, v: Value, elem: TypeId, opts: EncOpts)
    requires fuel > 0 && NewTypeEncoder(env, ty) == SliceEnc(elem)
    ensures var r := EncodeValue(env, heap, cfg, fuel, st, key, ty, v, opts);
      r.Ok? ==> OneKey(st.acc, r.value.acc, key)
  {
    var r := EncodeValue(env, heap, cfg, fuel, st, key, ty, v, opts);
    assert r == EncodeSlice(env, heap, cfg, fuel, st, key, ty, v, opts);
    if r.Ok? {
      if v == VSlice(None) {
        PutOneKey(st.acc, key, Native(ty, v));
      } else {
        var es := heap[v.arr.value].elems;
        var id := SliceId(v.arr.value, |es|);
        var st1 := EnterRef(st, id, ty).value;
        ArrayOneKey(env, heap, cfg, fuel - 1, st1, key, ty, es, opts.(convertToSlice := true));
      }
    }
  }

  lemma PutOneKey(acc: Acc, key: string, elem: Out)
    ensures OneKey(acc, Put(acc, key, elem), key)
  {
    if elem != Nil && acc.FlatAcc? {
      var s := acc.s + [Str(key), elem];
      assert s[..|acc.s|] == acc.s;
    }
  }

  lemma OneKeyRefl(acc: Acc, key: string)
    ensures OneKey(acc, acc, key)
  {
  }

  lemma ArrayOneKey(env: Env, heap: Heap, cfg: Config, fuel: nat, st: EState, key: string,
                    ty: TypeId, es: seq<Value>, opts: EncOpts)
    ensures var r := EncodeArray(env, heap, cfg, fuel, st, key, ty, es, opts);
      r.Ok? ==> OneKey(st.acc, r.value.acc, key)
  {
    var r := EncodeArray(env, heap, cfg, fuel, st, key, ty, es, opts);
    if r.Ok? {
      var ne := EncodeElems(env, heap, cfg, fuel - 1, Nested(cfg, st, FlatAcc([])), Elem(env.types, ty), es, 0, opts).value;
      var s := Items(ne.acc);
      var items := seq(|es|, i requires 0 <= i < |es| => s[2 * i + 1]);
      var et := ElemBase(env.types, ty);
      PutOneKey(st.acc, key, ArrayOut(if KindOf(env.types, et) == Struct then None else Some(et), items, opts.convertToSlice));
    }
  }

  /** A field of the list that structEncoder passes to its encoder: its path has no nil pointer and it is not omitted. */
  ghost predicate Emitted(env: Env, heap: Heap, ty: TypeId, v: Value, f: Field) {
    var r := FollowIndex(env.types, heap, ty, v, f.index);
    r.Ok? && r.value.Some? && !(f.omitEmpty && IsEmptyValue(env.types, heap, r.value.value.0, r.value.value.1))
  }

  /** No field from i on that is called k is emitted. */
  ghost predicate NotEmitted(env: Env, heap: Heap, ty: TypeId, v: Value, fields: seq<Field>, i: nat, k: string) {
    forall j | i <= j < |fields| && fields[j].name == k :: !Emitted(env, heap, ty, v, fields[j])
  }

  /** m0 and m2 agree on every key that no field from i on emits. */
  ghost predicate KeptOutside(env: Env, heap: Heap, ty: TypeId, v: Value, fields: seq<Field>, i: nat,
                              m0: map<string, Out>, m2: map<string, Out>) {
    forall k | NotEmitted(env, heap, ty, v, fields, i, k) :: SameAt(m0, m2, k)
  }

  /** The field loop writes, in map mode, only the names of fields it emits. */
  lemma {:induction false} FieldsWriteEmitted(env: Env, heap: Heap, cfg: Config, fuel: nat, ne: EState, ty: TypeId,
                                              v: Value, fields: seq<Field>, i: nat, opts: EncOpts)
    requires ne.acc.KeyedAcc?
    requires forall j | i <= j < |fields| :: fields[j].name != "" && !fields[j].inline
    ensures var r := EncodeFields(env, heap, cfg, fuel, ne, ty, v, fields, i, opts);
      r.Ok? ==>
        && r.value.acc.KeyedAcc?
        && KeptOutside(env, heap, ty, v, fields, i, ne.acc.m, r.value.acc.m)
    decreases |fields| - i
  {
    var r := EncodeFields(env, heap, cfg, fuel, ne, ty, v, fields, i, opts);
    if i < |fields| && r.Ok? {
      var f := fields[i];
      var fv := FollowIndex(env.types, heap, ty, v, f.index).value;
      if fv.None? || (f.omitEmpty && IsEmptyValue(env.types, heap, fv.value.0, fv.value.1)) {
        assert r == EncodeFields(env, heap, cfg, fuel, ne, ty, v, fields, i + 1, opts);
        FieldsWriteEmitted(env, heap, cfg, fuel, ne, ty, v, fields, i + 1, opts);
        SkipKeepsSame(env, heap, ty, v, fields, i, ne.acc.m, r.value.acc.m);
      } else {
        var o := opts.(quoted := f.quoted, inline := f.inline);
        ValueOneKey(env, heap, cfg, fuel, ne, f.name, fv.value.0, fv.value.1, o);
        var ne' := EncodeValue(env, heap, cfg, fuel, ne, f.name, fv.value.0, fv.value.1, o).value;
        assert r == EncodeFields(env, heap, cfg, fuel, ne', ty, v, fields, i + 1, opts);
        FieldsWriteEmitted(env, heap, cfg, fuel, ne', ty, v, fields, i + 1, opts);
        assert Emitted(env, heap, ty, v, f);
        EmitKeepsSame(env, heap, ty, v, fields, i, ne.acc.m, ne'.acc.m, r.value.acc.m);
      }
    }
  }

  lemma SkipKeepsSame(env: Env, heap: Heap, ty: TypeId, v: Value, fields: seq<Field>, i: nat,
                      m0: map<string, Out>, m2: map<string, Out>)
    requires i < |fields| && KeptOutside(env, heap, ty, v, fields, i + 1, m0, m2)
    ensures KeptOutside(env, heap, ty, v, fields, i, m0, m2)
  {
    forall k | NotEmitted(env, heap, ty, v, fields, i, k)
      ensures SameAt(m0, m2, k)
    {
      assert NotEmitted(env, heap, ty, v, fields, i + 1, k);
    }
  }

  lemma EmitKeepsSame(env: Env, heap: Heap, ty: TypeId, v: Value, fields: seq<Field>, i: nat,
                      m0: map<string, Out>, m1: map<string, Out>, m2: map<string, Out>)
    requires i < |fields| && Emitted(env, heap, ty, v, fields[i])
    requires forall k | k != fields[i].name :: SameAt(m0, m1, k)
    requires KeptOutside(env, heap, ty, v, fields, i + 1, m1, m2)
    ensures KeptOutside(env, heap, ty, v, fields, i, m0, m2)
  {
    forall k | NotEmitted(env, heap, ty, v, fields, i, k)
      ensures SameAt(m0, m2, k)
    {
      assert k != fields[i].name;
      assert NotEmitted(env, heap, ty, v, fields, i + 1, k);
      assert SameAt(m0, m1, k) && SameAt(m1, m2, k);
    }
  }

  /**
    structEncoder at the top of an encoding (key "", map mode) over a list of fields with distinct,
    non-empty names, none of them inline (an inline struct writes its own fields' keys into the same
    map): a field whose index path meets a nil pointer, or that is omitempty and empty, leaves its
    key as it was.
   */
  lemma StructSkipsField(env: Env, heap: Heap, cfg: Config, fuel: nat, st: EState, ty: TypeId,
                         v: Value, fields: seq<Field>, opts: EncOpts, j: nat)
    requires st.acc.KeyedAcc? && fuel > 0
    requires j < |fields| && !Emitted(env, heap, ty, v, fields[j]) && CompactionFacts.NamesDistinct(fields)
    requires forall i | 0 <= i < |fields| :: fields[i].name != "" && !fields[i].inline
    requires EncodeStruct(env, heap, cfg, fuel, st, "", ty, v, fields, opts).Ok?
    ensures EncodeStruct(env, heap, cfg, fuel, st, "", ty, v, fields, opts).value.acc.KeyedAcc?
    ensures SameAt(st.acc.m, EncodeStruct(env, heap, cfg, fuel, st, "", ty, v, fields, opts).value.acc.m,
                   fields[j].name)
  {
    FieldsWriteEmitted(env, heap, cfg, fuel - 1, st, ty, v, fields, 0, opts);
    assert NotEmitted(env, heap, ty, v, fields, 0, fields[j].name);
  }

  /** The same for the encoder of a struct type, over the fields typeFields resolves for it. */
  lemma StructOmitsSkippedField(env: Env, heap: Heap, cfg: Config, fuel: nat, st: EState, ty: TypeId,
                                v: Value, opts: EncOpts, j: nat)
    requires st.acc.KeyedAcc? && KindOf(env.types, ty) == Struct
    requires j < |TypeFieldsSpec(env, ty)| && !Emitted(env, heap, ty, v, TypeFieldsSpec(env, ty)[j])
    requires forall i | 0 <= i < |TypeFieldsSpec(env, ty)| ::
      TypeFieldsSpec(env, ty)[i].name != "" && !TypeFieldsSpec(env, ty)[i].inline
    requires EncodeValue(env, heap, cfg, fuel, st, "", ty, v, opts).Ok?
    ensures EncodeValue(env, heap, cfg, fuel, st, "", ty, v, opts).value.acc.KeyedAcc?
    ensures SameAt(st.acc.m, EncodeValue(env, heap, cfg, fuel, st, "", ty, v, opts).value.acc.m,
                   TypeFieldsSpec(env, ty)[j].name)
  {
    StructValue(env, heap, cfg, fuel, st, "", ty, v, opts);
    CompactionFacts.TypeFieldsNamesDistinct(env, ty);
    StructSkipsField(env, heap, cfg, fuel, st, ty, v, TypeFieldsSpec(env, ty), opts, j);
  }

  /** A value of struct type is encoded by structEncoder over the fields typeFields resolves. */
  lemma StructValue(env: Env, heap: Heap, cfg: Config, fuel: nat, st: EState, key: string, ty: TypeId,
                    v: Value, opts: EncOpts)
    requires KindOf(env.types, ty) == Struct && fuel > 0
    ensures EncodeValue(env, heap, cfg, fuel, st, key, ty, v, opts)
         == EncodeStruct(env, heap, cfg, fuel, st, key, ty, v, TypeFieldsSpec(env, ty), opts)
  {
    assert NewTypeEncoder(env, ty) == StructEnc;
  }
}
