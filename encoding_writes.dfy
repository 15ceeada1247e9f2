/**
  What the encoders write.  An encoder called under a non-empty key, without the inline option,
  puts one element under that key, and that element does not depend on what the state already
  holds: it is the element the same encoder binds to the key in an empty map with the same cycle
  guard.  From that, the loops of structEncoder, mapEncoder and arrayEncoder are folds of
  setKeyValue over the elements their fields, entries and items encode to.
 */
module EncodingWrites {
  import opened Wrappers
  import opened GoTypes
  import opened Resolver
  import opened Encoding
  import EncodingFacts
  import CompactionFacts
  import TypeFieldsFacts

  // ---------------------------------------------------------------------------------------
  // The element an encoder writes under a key.

  /** An empty map-mode state with the cycle guard (level, seen). */
  function Fresh(level: nat, seen: set<Ident>): EState {
    EState(KeyedAcc(map[]), level, seen)
  }

  /**
    The element the encoder of `ty` writes for v under key from a state with the cycle guard
    (level, seen): what it binds to the key in an empty map, or nil when it binds nothing or fails.
   */
  ghost function Written(env: Env, heap: Heap, cfg: Config, fuel: nat, level: nat, seen: set<Ident>,
                         key: string, ty: TypeId, v: Value, opts: EncOpts): Out
  {
    var r := EncodeValue(env, heap, cfg, fuel, Fresh(level, seen), key, ty, v, opts);
    if r.Ok? && r.value.acc.KeyedAcc? && key in r.value.acc.m then r.value.acc.m[key] else Nil
  }

  /**
    Two runs of one encoder from states with the same guard: the same error, or the same guard
    after and one element, the same for both, put under key into each output.
   */
  ghost predicate Twin(r: Result<EState, EncError>, r': Result<EState, EncError>, a: Acc, a': Acc, key: string) {
    if r.Err? then r' == r
    else
      && r'.Ok? && r.value.level == r'.value.level && r.value.seen == r'.value.seen
      && exists o :: r.value.acc == Put(a, key, o) && r'.value.acc == Put(a', key, o)
  }

  lemma PutTwin(st: EState, st': EState, key: string, o: Out)
    requires st.level == st'.level && st.seen == st'.seen
    ensures Twin(Ok(EState(Put(st.acc, key, o), st.level, st.seen)), Ok(EState(Put(st'.acc, key, o), st'.level, st'.seen)),
                 st.acc, st'.acc, key)
  {
  }

  lemma EnterTwin(st: EState, st': EState, id: Ident, ty: TypeId)
    requires st.level == st'.level && st.seen == st'.seen
    ensures EnterRef(st, id, ty).Err? <==> EnterRef(st', id, ty).Err?
    ensures EnterRef(st, id, ty).Err? ==> EnterRef(st', id, ty) == EnterRef(st, id, ty)
    ensures EnterRef(st, id, ty).Ok? ==>
      var s1 := EnterRef(st, id, ty).value;
      var s1' := EnterRef(st', id, ty).value;
      s1.acc == st.acc && s1'.acc == st'.acc && s1.level == s1'.level && s1.seen == s1'.seen
  {
  }

  /** Leaving the guard keeps a twin pair twins. */
  lemma LeaveTwin(st2: EState, st2': EState, a: Acc, a': Acc, key: string, id: Ident, armed: bool)
    requires Twin(Ok(st2), Ok(st2'), a, a', key)
    ensures Twin(Ok(LeaveRef(st2, id, armed)), Ok(LeaveRef(st2', id, armed)), a, a', key)
  {
    var o :| st2.acc == Put(a, key, o) && st2'.acc == Put(a', key, o);
    assert LeaveRef(st2, id, armed).acc == Put(a, key, o);
  }

  /** An encoder under a non-empty key and without inline runs the same from twin states. */
  lemma {:induction false} ValueTwin(env: Env, heap: Heap, cfg: Config, fuel: nat, st: EState, st': EState,
                                     key: string, ty: TypeId, v: Value, opts: EncOpts)
    requires st.level == st'.level && st.seen == st'.seen && key != "" && !opts.inline
    ensures Twin(EncodeValue(env, heap, cfg, fuel, st, key, ty, v, opts),
                 EncodeValue(env, heap, cfg, fuel, st', key, ty, v, opts), st.acc, st'.acc, key)
    decreases fuel, 1
  {
    if fuel > 0 {
      match NewTypeEncoder(env, ty)
      case PrimitiveEnc => PutTwin(st, st', key, if opts.quoted then Quoted(ty, v) else Native(ty, v));
      case InterfaceEnc => InterfaceTwin(env, heap, cfg, fuel, st, st', key, v, opts);
      case UnsupportedEnc =>
      case StructEnc => StructTwin(env, heap, cfg, fuel, st, st', key, ty, v, TypeFieldsSpec(env, ty), opts);
      case PtrEnc(elem) => PtrTwin(env, heap, cfg, fuel, st, st', key, ty, v, elem, opts);
      case MapEnc(elem) => MapTwin(env, heap, cfg, fuel, st, st', key, ty, v, elem, opts);
      case SliceEnc(elem) => SliceTwin(env, heap, cfg, fuel, st, st', key, ty, v, opts);
      case ArrayEnc(elem, n) =>
        if v.VArray? && |v.elems| == n {
          ArrayTwin(env, heap, cfg, fuel, st, st', key, ty, v.elems, opts);
        }
    }
  }

  lemma {:induction false} InterfaceTwin(env: Env, heap: Heap, cfg: Config, fuel: nat, st: EState, st': EState,
                                         key: string, v: Value, opts: EncOpts)
    requires st.level == st'.level && st.seen == st'.seen && key != "" && !opts.inline && fuel > 0
    ensures Twin(EncodeInterface(env, heap, cfg, fuel, st, key, v, opts),
                 EncodeInterface(env, heap, cfg, fuel, st', key, v, opts), st.acc, st'.acc, key)
    decreases fuel, 0
  {
    match v
    case VIface(None) =>
      PutTwin(st, st', key, Nil);
      assert st == EState(Put(st.acc, key, Nil), st.level, st.seen);
      assert st' == EState(Put(st'.acc, key, Nil), st'.level, st'.seen);
    case VIface(Some(d)) => ValueTwin(env, heap, cfg, fuel - 1, st, st', key, d.ty, d.v, opts);
    case _ =>
  }

  lemma {:induction false} PtrTwin(env: Env, heap: Heap, cfg: Config, fuel: nat, st: EState, st': EState,
                                   key: string, ty: TypeId, v: Value, elem: TypeId, opts: EncOpts)
    requires st.level == st'.level && st.seen == st'.seen && key != "" && !opts.inline && fuel > 0
    ensures Twin(EncodePtr(env, heap, cfg, fuel, st, key, ty, v, elem, opts),
                 EncodePtr(env, heap, cfg, fuel, st', key, ty, v, elem, opts), st.acc, st'.acc, key)
    decreases fuel, 0
  {
    if v == VPtr(None) {
      PutTwin(st, st', key, Native(ty, v));
    } else if v.VPtr? && v.ptr.Some? && v.ptr.value in heap && heap[v.ptr.value].Obj? {
      var id := PtrId(v.ptr.value, ty);
      EnterTwin(st, st', id, ty);
      if EnterRef(st, id, ty).Ok? {
        var st1 := EnterRef(st, id, ty).value;
        var st1' := EnterRef(st', id, ty).value;
        var x := heap[v.ptr.value].v;
        ValueTwin(env, heap, cfg, fuel - 1, st1, st1', key, elem, x, opts);
        var r2 := EncodeValue(env, heap, cfg, fuel - 1, st1, key, elem, x, opts);
        var r2' := EncodeValue(env, heap, cfg, fuel - 1, st1', key, elem, x, opts);
        if r2.Ok? {
          LeaveTwin(r2.value, r2'.value, st.acc, st'.acc, key, id, Armed(st));
        }
      }
    }
  }

  lemma StructTwin(env: Env, heap: Heap, cfg: Config, fuel: nat, st: EState, st': EState,
                   key: string, ty: TypeId, v: Value, fields: seq<Field>, opts: EncOpts)
    requires st.level == st'.level && st.seen == st'.seen && key != "" && !opts.inline && fuel > 0
    ensures Twin(EncodeStruct(env, heap, cfg, fuel, st, key, ty, v, fields, opts),
                 EncodeStruct(env, heap, cfg, fuel, st', key, ty, v, fields, opts), st.acc, st'.acc, key)
  {
    if fields == [] {
      PutTwin(st, st', key, if opts.quoted then Quoted(ty, v) else Native(ty, v));
    } else {
      var acc0 := if opts.structConvertToSlice then FlatAcc([]) else KeyedAcc(map[]);
      var ne0 := Nested(cfg, st, acc0);
      assert Nested(cfg, st', acc0) == ne0;
      var r := EncodeFields(env, heap, cfg, fuel - 1, ne0, ty, v, fields, 0, opts);
      if r.Ok? {
        var o := Encoding.Interface(r.value.acc);
        assert EncodeStruct(env, heap, cfg, fuel, st, key, ty, v, fields, opts) == Ok(EState(Put(st.acc, key, o), st.level, st.seen));
        assert EncodeStruct(env, heap, cfg, fuel, st', key, ty, v, fields, opts) == Ok(EState(Put(st'.acc, key, o), st'.level, st'.seen));
        PutTwin(st, st', key, o);
      } else {
        assert EncodeStruct(env, heap, cfg, fuel, st, key, ty, v, fields, opts) == Err(r.error);
        assert EncodeStruct(env, heap, cfg, fuel, st', key, ty, v, fields, opts) == Err(r.error);
      }
    }
  }

  lemma MapTwin(env: Env, heap: Heap, cfg: Config, fuel: nat, st: EState, st': EState,
                key: string, ty: TypeId, v: Value, elem: TypeId, opts: EncOpts)
    requires st.level == st'.level && st.seen == st'.seen && key != "" && !opts.inline && fuel > 0
    ensures Twin(EncodeMap(env, heap, cfg, fuel, st, key, ty, v, elem, opts),
                 EncodeMap(env, heap, cfg, fuel, st', key, ty, v, elem, opts), st.acc, st'.acc, key)
  {
    if v == VMap(None) {
      PutTwin(st, st', key, Native(ty, v));
    } else if v.VMap? && v.tbl.Some? && v.tbl.value in heap && heap[v.tbl.value].Table? {
      var id := MapId(v.tbl.value);
      EnterTwin(st, st', id, ty);
      if EnterRef(st, id, ty).Ok? {
        var st1 := EnterRef(st, id, ty).value;
        var st1' := EnterRef(st', id, ty).value;
        assert Nested(cfg, st1, KeyedAcc(map[])) == Nested(cfg, st1', KeyedAcc(map[]));
        var r := EncodeEntries(env, heap, cfg, fuel - 1, Nested(cfg, st1, KeyedAcc(map[])), elem,
                               heap[v.tbl.value].entries, 0, opts);
        if r.Ok? {
          var m := Keys(r.value.acc);
          var out := if KindOf(env.types, MapElemBase(env.types, ty)) == Struct then Keyed(m) else TypedMap(ty, m);
          PutTwin(st1, st1', key, out);
          LeaveTwin(EState(Put(st1.acc, key, out), st1.level, st1.seen), EState(Put(st1'.acc, key, out), st1'.level, st1'.seen),
                    st.acc, st'.acc, key, id, Armed(st));
        }
      }
    }
  }

  lemma SliceTwin(env: Env, heap: Heap, cfg: Config, fuel: nat, st: EState, st': EState,
                  key: string, ty: TypeId, v: Value, opts: EncOpts)
    requires st.level == st'.level && st.seen == st'.seen && key != "" && !opts.inline && fuel > 0
    ensures Twin(EncodeSlice(env, heap, cfg, fuel, st, key, ty, v, opts),
                 EncodeSlice(env, heap, cfg, fuel, st', key, ty, v, opts), st.acc, st'.acc, key)
  {
    if v == VSlice(None) {
      PutTwin(st, st', key, Native(ty, v));
    } else if v.VSlice? && v.arr.Some? && v.arr.value in heap && heap[v.arr.value].Backing? {
      var es := heap[v.arr.value].elems;
      var id := SliceId(v.arr.value, |es|);
      EnterTwin(st, st', id, ty);
      if EnterRef(st, id, ty).Ok? {
        var st1 := EnterRef(st, id, ty).value;
        var st1' := EnterRef(st', id, ty).value;
        var o := opts.(convertToSlice := true);
        ArrayTwin(env, heap, cfg, fuel - 1, st1, st1', key, ty, es, o);
        var r2 := EncodeArray(env, heap, cfg, fuel - 1, st1, key, ty, es, o);
        var r2' := EncodeArray(env, heap, cfg, fuel - 1, st1', key, ty, es, o);
        if r2.Ok? {
          LeaveTwin(r2.value, r2'.value, st.acc, st'.acc, key, id, Armed(st));
        }
      }
    }
  }

  lemma ArrayTwin(env: Env, heap: Heap, cfg: Config, fuel: nat, st: EState, st': EState,
                  key: string, ty: TypeId, es: seq<Value>, opts: EncOpts)
    requires st.level == st'.level && st.seen == st'.seen
    ensures Twin(EncodeArray(env, heap, cfg, fuel, st, key, ty, es, opts),
                 EncodeArray(env, heap, cfg, fuel, st', key, ty, es, opts), st.acc, st'.acc, key)
  {
    if fuel > 0 {
      assert Nested(cfg, st, FlatAcc([])) == Nested(cfg, st', FlatAcc([]));
      var r := EncodeElems(env, heap, cfg, fuel - 1, Nested(cfg, st, FlatAcc([])), Elem(env.types, ty), es, 0, opts);
      if r.Ok? && |Items(r.value.acc)| >= 2 * |es| {
        var s := Items(r.value.acc);
        var items := seq(|es|, i requires 0 <= i < |es| => s[2 * i + 1]);
        var et := ElemBase(env.types, ty);
        PutTwin(st, st', key, ArrayOut(if KindOf(env.types, et) == Struct then None else Some(et), items, opts.convertToSlice));
      }
    }
  }

  /**
    An encoder under a non-empty key and without the inline option fails exactly when it fails
    from an empty map with the same guard, with the same error; otherwise it puts the element it
    writes there under the key into the state's output and leaves the guard as it found it.
   */
  lemma ValueWrites(env: Env, heap: Heap, cfg: Config, fuel: nat, st: EState, key: string,
                    ty: TypeId, v: Value, opts: EncOpts)
    requires key != "" && !opts.inline
    ensures var r := EncodeValue(env, heap, cfg, fuel, st, key, ty, v, opts);
      var r0 := EncodeValue(env, heap, cfg, fuel, Fresh(st.level, st.seen), key, ty, v, opts);
      && (r.Err? <==> r0.Err?)
      && (r.Err? ==> r.error == r0.error)
      && (r.Ok? ==> r.value == EState(Put(st.acc, key, Written(env, heap, cfg, fuel, st.level, st.seen, key, ty, v, opts)),
                                      st.level, st.seen))
  {
    var z := Fresh(st.level, st.seen);
    ValueTwin(env, heap, cfg, fuel, st, z, key, ty, v, opts);
    EncodingFacts.ValueFrame(env, heap, cfg, fuel, st, key, ty, v, opts);
    var r := EncodeValue(env, heap, cfg, fuel, st, key, ty, v, opts);
    var r0 := EncodeValue(env, heap, cfg, fuel, z, key, ty, v, opts);
    if r.Ok? {
      var o :| r.value.acc == Put(st.acc, key, o) && r0.value.acc == Put(z.acc, key, o);
      var w := Written(env, heap, cfg, fuel, st.level, st.seen, key, ty, v, opts);
      if o == Nil {
        assert r0.value.acc == KeyedAcc(map[]);
        assert w == Nil;
      } else {
        assert r0.value.acc == KeyedAcc(map[key := o]);
        assert w == o;
      }
      assert r.value == EState(r.value.acc, r.value.level, r.value.seen);
    }
  }

  /** primitiveEncoder writes the value itself, or its quoted form under the quoted option. */
  lemma PrimitiveWritten(env: Env, heap: Heap, cfg: Config, fuel: nat, level: nat, seen: set<Ident>,
                         key: string, ty: TypeId, v: Value, opts: EncOpts)
    requires fuel > 0 && NewTypeEncoder(env, ty) == PrimitiveEnc
    ensures Written(env, heap, cfg, fuel, level, seen, key, ty, v, opts)
         == if opts.quoted then Quoted(ty, v) else Native(ty, v)
  {
  }

  // ---------------------------------------------------------------------------------------
  // Folds of setKeyValue.

  /** setKeyValue of each (key, element) pair in turn. */
  function PutAll(acc: Acc, ws: seq<(string, Out)>): Acc
    decreases |ws|
  {
    if ws == [] then acc else PutAll(Put(acc, ws[0].0, ws[0].1), ws[1..])
  }

  /** The slice-mode output of the pairs: each key followed by its element; a nil element is dropped with its key. */
  function Pairs(ws: seq<(string, Out)>): seq<Out>
    decreases |ws|
  {
    if ws == [] then []
    else (if ws[0].1 == Nil then [] else [Str(ws[0].0), ws[0].1]) + Pairs(ws[1..])
  }

  /** No key occurs twice. */
  ghost predicate KeysDistinct(ws: seq<(string, Out)>) {
    forall p, q | 0 <= p < q < |ws| :: ws[p].0 != ws[q].0
  }

  /** In slice mode, the fold appends the pairs. */
  lemma {:induction false} PutAllFlat(s: seq<Out>, ws: seq<(string, Out)>)
    ensures PutAll(FlatAcc(s), ws) == FlatAcc(s + Pairs(ws))
    decreases |ws|
  {
    if ws != [] {
      var s1 := Put(FlatAcc(s), ws[0].0, ws[0].1).s;
      assert s1 == s + (if ws[0].1 == Nil then [] else [Str(ws[0].0), ws[0].1]);
      PutAllFlat(s1, ws[1..]);
      assert s1 + Pairs(ws[1..]) == s + Pairs(ws);
    }
  }

  /** No pair has key k. */
  ghost predicate Absent(ws: seq<(string, Out)>, k: string) {
    forall p | 0 <= p < |ws| :: ws[p].0 != k
  }

  lemma {:induction false} PutAllKeepsMode(acc: Acc, ws: seq<(string, Out)>)
    ensures PutAll(acc, ws).KeyedAcc? <==> acc.KeyedAcc?
    decreases |ws|
  {
    if ws != [] {
      PutAllKeepsMode(Put(acc, ws[0].0, ws[0].1), ws[1..]);
    }
  }

  /** In map mode the fold keeps every key no pair has. */
  lemma {:induction false} PutAllKeeps(m: map<string, Out>, ws: seq<(string, Out)>, k: string)
    requires Absent(ws, k)
    ensures PutAll(KeyedAcc(m), ws).KeyedAcc? && EncodingFacts.SameAt(m, PutAll(KeyedAcc(m), ws).m, k)
    decreases |ws|
  {
    PutAllKeepsMode(KeyedAcc(m), ws);
    if ws != [] {
      var m1 := Put(KeyedAcc(m), ws[0].0, ws[0].1).m;
      assert ws[0].0 != k;
      assert Absent(ws[1..], k) by {
        forall q | 0 <= q < |ws[1..]| ensures ws[1..][q].0 != k {
          assert ws[1..][q] == ws[q + 1];
        }
      }
      PutAllKeeps(m1, ws[1..], k);
    }
  }

  /** In map mode, with distinct keys, the fold binds the key of pair p to its element unless that is nil. */
  lemma {:induction false} PutAllBinds(m: map<string, Out>, ws: seq<(string, Out)>, p: nat)
    requires KeysDistinct(ws) && p < |ws|
    ensures PutAll(KeyedAcc(m), ws).KeyedAcc?
    ensures ws[p].1 != Nil ==> ws[p].0 in PutAll(KeyedAcc(m), ws).m && PutAll(KeyedAcc(m), ws).m[ws[p].0] == ws[p].1
    ensures ws[p].1 == Nil ==> EncodingFacts.SameAt(m, PutAll(KeyedAcc(m), ws).m, ws[p].0)
    decreases |ws|
  {
    PutAllKeepsMode(KeyedAcc(m), ws);
    var m1 := Put(KeyedAcc(m), ws[0].0, ws[0].1).m;
    var rest := ws[1..];
    if p == 0 {
      assert Absent(rest, ws[0].0) by {
        forall q | 0 <= q < |rest| ensures rest[q].0 != ws[0].0 {
          assert rest[q] == ws[q + 1];
        }
      }
      PutAllKeeps(m1, rest, ws[0].0);
    } else {
      assert KeysDistinct(rest) by {
        forall a, b | 0 <= a < b < |rest| ensures rest[a].0 != rest[b].0 {
          assert rest[a] == ws[a + 1] && rest[b] == ws[b + 1];
        }
      }
      assert ws[p] == rest[p - 1] && ws[p].0 != ws[0].0;
      PutAllBinds(m1, rest, p - 1);
    }
  }

  /** The pairs (names[j], outs[j]) for the j from i on that keep[j] selects, in order. */
  function Select(names: seq<string>, keep: seq<bool>, outs: seq<Out>, i: nat): seq<(string, Out)>
    requires |keep| == |names| && |outs| == |names|
    decreases |names| - i
  {
    if i >= |names| then []
    else (if keep[i] then [(names[i], outs[i])] else []) + Select(names, keep, outs, i + 1)
  }

  /** A key that no name from i on equals is not a key of the selection. */
  lemma {:induction false} SelectAbsent(names: seq<string>, keep: seq<bool>, outs: seq<Out>, i: nat, k: string)
    requires |keep| == |names| && |outs| == |names|
    requires forall j | i <= j < |names| :: names[j] != k
    ensures Absent(Select(names, keep, outs, i), k)
    decreases |names| - i
  {
    if i < |names| {
      SelectAbsent(names, keep, outs, i + 1, k);
    }
  }

  /**
    In map mode, with distinct names, the fold of the selection from i on binds names[j] of each
    selected j to outs[j], or keeps it as it was when outs[j] is nil.
   */
  lemma {:induction false} SelectBinds(names: seq<string>, keep: seq<bool>, outs: seq<Out>, i: nat,
                                       m: map<string, Out>, j: nat)
    requires |keep| == |names| && |outs| == |names|
    requires forall a, b | 0 <= a < b < |names| :: names[a] != names[b]
    requires i <= j < |names| && keep[j]
    ensures var m2 := PutAll(KeyedAcc(m), Select(names, keep, outs, i));
      && m2.KeyedAcc?
      && (outs[j] != Nil ==> names[j] in m2.m && m2.m[names[j]] == outs[j])
      && (outs[j] == Nil ==> EncodingFacts.SameAt(m, m2.m, names[j]))
    decreases |names| - i
  {
    var ws := Select(names, keep, outs, i);
    var rest := Select(names, keep, outs, i + 1);
    PutAllKeepsMode(KeyedAcc(m), ws);
    if i == j {
      assert ws[0] == (names[j], outs[j]) && ws[1..] == rest;
      SelectAbsent(names, keep, outs, i + 1, names[j]);
      PutAllKeeps(Put(KeyedAcc(m), names[j], outs[j]).m, rest, names[j]);
    } else if keep[i] {
      assert ws[0] == (names[i], outs[i]) && ws[1..] == rest;
      SelectBinds(names, keep, outs, i + 1, Put(KeyedAcc(m), names[i], outs[i]).m, j);
    } else {
      assert ws == rest;
      SelectBinds(names, keep, outs, i + 1, m, j);
    }
  }

  /** Every position selected. */
  function AllKept(n: nat): (keep: seq<bool>)
    ensures |keep| == n && forall j | 0 <= j < n :: keep[j]
  {
    seq(n, _ => true)
  }

  /** When every j from i on is selected and no element is nil, the slice-mode output has key and element j at 2(j - i) and 2(j - i) + 1. */
  lemma {:induction false} SelectPairsAt(names: seq<string>, outs: seq<Out>, i: nat, j: nat)
    requires |outs| == |names| && i <= j < |names|
    requires forall q | i <= q < |names| :: outs[q] != Nil
    ensures var ps := Pairs(Select(names, AllKept(|names|), outs, i));
      |ps| == 2 * (|names| - i) && ps[2 * (j - i)] == Str(names[j]) && ps[2 * (j - i) + 1] == outs[j]
    decreases |names| - i
  {
    var keep := AllKept(|names|);
    var ws := Select(names, keep, outs, i);
    var rest := Select(names, keep, outs, i + 1);
    assert ws[0] == (names[i], outs[i]) && ws[1..] == rest;
    assert Pairs(ws) == [Str(names[i]), outs[i]] + Pairs(rest);
    if j > i {
      SelectPairsAt(names, outs, i + 1, j);
    } else if i + 1 < |names| {
      SelectPairsAt(names, outs, i + 1, i + 1);
    }
  }

  /** With every j from i on selected, the slice-mode output is short exactly by two per nil element. */
  lemma {:induction false} SelectPairsShort(names: seq<string>, outs: seq<Out>, i: nat, j: nat)
    requires |outs| == |names| && i <= j < |names| && outs[j] == Nil
    ensures |Pairs(Select(names, AllKept(|names|), outs, i))| < 2 * (|names| - i)
    decreases |names| - i
  {
    var keep := AllKept(|names|);
    PairsBound(names, keep, outs, i + 1);
    if j > i {
      SelectPairsShort(names, outs, i + 1, j);
    }
  }

  lemma {:induction false} PairsBound(names: seq<string>, keep: seq<bool>, outs: seq<Out>, i: nat)
    requires |keep| == |names| && |outs| == |names| && i <= |names|
    ensures |Pairs(Select(names, keep, outs, i))| <= 2 * (|names| - i)
    decreases |names| - i
  {
    if i < |names| {
      PairsBound(names, keep, outs, i + 1);
      var ws := Select(names, keep, outs, i);
      var rest := Select(names, keep, outs, i + 1);
      if keep[i] {
        assert ws[0] == (names[i], outs[i]) && ws[1..] == rest;
        assert |Pairs(ws)| <= 2 + |Pairs(rest)|;
      } else {
        assert ws == rest;
      }
    }
  }

  // ---------------------------------------------------------------------------------------
  // structEncoder's field loop.

  /**
    What the field loop writes for field f of (ty, v) from a state with the guard (level, seen):
    the element the encoder of the field's type writes for the field's value under the field's
    name, with the field's quoted and inline options.
   */
  ghost function FieldOut(env: Env, heap: Heap, cfg: Config, fuel: nat, level: nat, seen: set<Ident>,
                          ty: TypeId, v: Value, f: Field, opts: EncOpts): Out
  {
    match FollowIndex(env.types, heap, ty, v, f.index)
    case Ok(Some((ft, fv))) => Written(env, heap, cfg, fuel, level, seen, f.name, ft, fv, opts.(quoted := f.quoted, inline := f.inline))
    case _ => Nil
  }

  /** The emitted fields from i on, in order, each with the element written for it. */
  ghost function FieldWrites(env: Env, heap: Heap, cfg: Config, fuel: nat, level: nat, seen: set<Ident>,
                             ty: TypeId, v: Value, fields: seq<Field>, i: nat, opts: EncOpts): seq<(string, Out)>
  {
    Select(seq(|fields|, j requires 0 <= j < |fields| => fields[j].name),
           seq(|fields|, j requires 0 <= j < |fields| => EncodingFacts.Emitted(env, heap, ty, v, fields[j])),
           seq(|fields|, j requires 0 <= j < |fields| => FieldOut(env, heap, cfg, fuel, level, seen, ty, v, fields[j], opts)), i)
  }

  /** The writes from i on: field i's pair when it is emitted, then the writes from i + 1 on. */
  lemma FieldWritesStep(env: Env, heap: Heap, cfg: Config, fuel: nat, level: nat, seen: set<Ident>,
                        ty: TypeId, v: Value, fields: seq<Field>, i: nat, opts: EncOpts)
    requires i < |fields|
    ensures var ws := FieldWrites(env, heap, cfg, fuel, level, seen, ty, v, fields, i, opts);
      var rest := FieldWrites(env, heap, cfg, fuel, level, seen, ty, v, fields, i + 1, opts);
      if EncodingFacts.Emitted(env, heap, ty, v, fields[i])
      then ws != [] && ws[0] == (fields[i].name, FieldOut(env, heap, cfg, fuel, level, seen, ty, v, fields[i], opts)) && ws[1..] == rest
      else ws == rest
  {
  }

  /** One turn of the field loop puts the field's element under its name when the field is emitted, and else nothing. */
  lemma FieldWrite(env: Env, heap: Heap, cfg: Config, fuel: nat, ne: EState, ty: TypeId, v: Value,
                   f: Field, opts: EncOpts)
    requires f.name != "" && !f.inline
    ensures var r := EncodeField(env, heap, cfg, fuel, ne, ty, v, f, opts);
      r.Ok? ==> r.value == EState(if EncodingFacts.Emitted(env, heap, ty, v, f)
                                  then Put(ne.acc, f.name, FieldOut(env, heap, cfg, fuel, ne.level, ne.seen, ty, v, f, opts))
                                  else ne.acc, ne.level, ne.seen)
  {
    var fv := FollowIndex(env.types, heap, ty, v, f.index);
    if fv.Ok? && fv.value.Some? {
      ValueWrites(env, heap, cfg, fuel, ne, f.name, fv.value.value.0, fv.value.value.1, opts.(quoted := f.quoted, inline := f.inline));
    }
  }

  /**
    The field loop from field i on, over fields with non-empty names and none inline, is the fold
    of setKeyValue over the emitted fields and their elements; the guard is as it was.
   */
  lemma {:induction false} FieldsWrite(env: Env, heap: Heap, cfg: Config, fuel: nat, ne: EState, ty: TypeId,
                                       v: Value, fields: seq<Field>, i: nat, opts: EncOpts)
    requires forall j | i <= j < |fields| :: fields[j].name != "" && !fields[j].inline
    ensures var r := EncodeFields(env, heap, cfg, fuel, ne, ty, v, fields, i, opts);
      r.Ok? ==> r.value == EState(PutAll(ne.acc, FieldWrites(env, heap, cfg, fuel, ne.level, ne.seen, ty, v, fields, i, opts)),
                                  ne.level, ne.seen)
    decreases |fields| - i
  {
    var r := EncodeFields(env, heap, cfg, fuel, ne, ty, v, fields, i, opts);
    if i < |fields| && r.Ok? {
      var f := fields[i];
      FieldWrite(env, heap, cfg, fuel, ne, ty, v, f, opts);
      var ne' := EncodeField(env, heap, cfg, fuel, ne, ty, v, f, opts).value;
      assert r == EncodeFields(env, heap, cfg, fuel, ne', ty, v, fields, i + 1, opts);
      FieldsWrite(env, heap, cfg, fuel, ne', ty, v, fields, i + 1, opts);
      FieldWritesStep(env, heap, cfg, fuel, ne.level, ne.seen, ty, v, fields, i, opts);
    }
  }

  /** Without fuel the field loop succeeds only when it emits no field. */
  lemma {:induction false} FieldsNeedFuel(env: Env, heap: Heap, cfg: Config, ne: EState, ty: TypeId, v: Value,
                                          fields: seq<Field>, i: nat, opts: EncOpts, j: nat)
    requires i <= j < |fields| && EncodingFacts.Emitted(env, heap, ty, v, fields[j])
    ensures EncodeFields(env, heap, cfg, 0, ne, ty, v, fields, i, opts).Err?
    decreases |fields| - i
  {
    var r1 := EncodeField(env, heap, cfg, 0, ne, ty, v, fields[i], opts);
    if i < j && r1.Ok? {
      FieldsNeedFuel(env, heap, cfg, r1.value, ty, v, fields, i + 1, opts, j);
    }
  }

  /**
    In map mode, over fields with distinct names, the writes from i on bind the name of each
    emitted field j to its element, or keep it as it was when that element is nil.
   */
  lemma FieldWritesBind(env: Env, heap: Heap, cfg: Config, fuel: nat, level: nat, seen: set<Ident>,
                        ty: TypeId, v: Value, fields: seq<Field>, i: nat, opts: EncOpts,
                        m: map<string, Out>, j: nat)
    requires CompactionFacts.NamesDistinct(fields) && i <= j < |fields| && EncodingFacts.Emitted(env, heap, ty, v, fields[j])
    ensures var m2 := PutAll(KeyedAcc(m), FieldWrites(env, heap, cfg, fuel, level, seen, ty, v, fields, i, opts));
      var o := FieldOut(env, heap, cfg, fuel, level, seen, ty, v, fields[j], opts);
      && m2.KeyedAcc?
      && (o != Nil ==> fields[j].name in m2.m && m2.m[fields[j].name] == o)
      && (o == Nil ==> EncodingFacts.SameAt(m, m2.m, fields[j].name))
  {
    var names := seq(|fields|, q requires 0 <= q < |fields| => fields[q].name);
    var keep := seq(|fields|, q requires 0 <= q < |fields| => EncodingFacts.Emitted(env, heap, ty, v, fields[q]));
    var outs := seq(|fields|, q requires 0 <= q < |fields| => FieldOut(env, heap, cfg, fuel, level, seen, ty, v, fields[q], opts));
    SelectBinds(names, keep, outs, i, m, j);
  }

  // ---------------------------------------------------------------------------------------
  // structEncoder.

  /**
    structEncoder at the top of an encoding (key "") in map mode, over fields with distinct,
    non-empty names and none inline: the name of every emitted field is bound to the element the
    encoder of the field's type writes for the field's value, or left as it was when that element
    is nil (a nil interface).
   */
  lemma StructWritesField(env: Env, heap: Heap, cfg: Config, fuel: nat, st: EState, ty: TypeId,
                          v: Value, fields: seq<Field>, opts: EncOpts, j: nat)
    requires st.acc.KeyedAcc? && fuel > 0
    requires j < |fields| && EncodingFacts.Emitted(env, heap, ty, v, fields[j]) && CompactionFacts.NamesDistinct(fields)
    requires forall i | 0 <= i < |fields| :: fields[i].name != "" && !fields[i].inline
    requires EncodeStruct(env, heap, cfg, fuel, st, "", ty, v, fields, opts).Ok?
    ensures var r := EncodeStruct(env, heap, cfg, fuel, st, "", ty, v, fields, opts).value;
      var o := FieldOut(env, heap, cfg, fuel - 1, st.level, st.seen, ty, v, fields[j], opts);
      && r.acc.KeyedAcc?
      && (o != Nil ==> fields[j].name in r.acc.m && r.acc.m[fields[j].name] == o)
      && (o == Nil ==> EncodingFacts.SameAt(st.acc.m, r.acc.m, fields[j].name))
  {
    FieldsWrite(env, heap, cfg, fuel - 1, st, ty, v, fields, 0, opts);
    FieldWritesBind(env, heap, cfg, fuel - 1, st.level, st.seen, ty, v, fields, 0, opts, st.acc.m, j);
  }

  /**
    The same for a field of basic type: its name is bound to the field's value, or to its quoted
    form when the field has the string option.
   */
  lemma StructWritesPrimitiveField(env: Env, heap: Heap, cfg: Config, fuel: nat, st: EState, ty: TypeId,
                                   v: Value, fields: seq<Field>, opts: EncOpts, j: nat, fty: TypeId, fval: Value)
    requires st.acc.KeyedAcc? && fuel > 0
    requires j < |fields| && CompactionFacts.NamesDistinct(fields)
    requires FollowIndex(env.types, heap, ty, v, fields[j].index) == Ok(Some((fty, fval)))
    requires !(fields[j].omitEmpty && IsEmptyValue(env.types, heap, fty, fval))
    requires NewTypeEncoder(env, fty) == PrimitiveEnc
    requires forall i | 0 <= i < |fields| :: fields[i].name != "" && !fields[i].inline
    requires EncodeStruct(env, heap, cfg, fuel, st, "", ty, v, fields, opts).Ok?
    ensures var r := EncodeStruct(env, heap, cfg, fuel, st, "", ty, v, fields, opts).value;
      && r.acc.KeyedAcc? && fields[j].name in r.acc.m
      && r.acc.m[fields[j].name] == if fields[j].quoted then Quoted(fty, fval) else Native(fty, fval)
  {
    assert EncodingFacts.Emitted(env, heap, ty, v, fields[j]);
    if fuel == 1 {
      FieldsNeedFuel(env, heap, cfg, st, ty, v, fields, 0, opts, j);
      assert false;
    }
    PrimitiveWritten(env, heap, cfg, fuel - 1, st.level, st.seen, fields[j].name, fty, fval,
                     opts.(quoted := fields[j].quoted, inline := fields[j].inline));
    StructWritesField(env, heap, cfg, fuel, st, ty, v, fields, opts, j);
  }

  /**
    structEncoder at the top of an encoding in slice mode, over fields with non-empty names and
    none inline: it appends, for each emitted field in order, the field's name and the element
    written for it, skipping nil elements.
   */
  lemma StructAppendsFields(env: Env, heap: Heap, cfg: Config, fuel: nat, st: EState, ty: TypeId,
                            v: Value, fields: seq<Field>, opts: EncOpts)
    requires st.acc.FlatAcc? && fuel > 0
    requires forall i | 0 <= i < |fields| :: fields[i].name != "" && !fields[i].inline
    ensures var r := EncodeStruct(env, heap, cfg, fuel, st, "", ty, v, fields, opts);
      r.Ok? ==> r.value == EState(FlatAcc(st.acc.s + Pairs(FieldWrites(env, heap, cfg, fuel - 1, st.level, st.seen, ty, v, fields, 0, opts))),
                                  st.level, st.seen)
  {
    FieldsWrite(env, heap, cfg, fuel - 1, st, ty, v, fields, 0, opts);
    PutAllFlat(st.acc.s, FieldWrites(env, heap, cfg, fuel - 1, st.level, st.seen, ty, v, fields, 0, opts));
    if fields == [] {
      assert FieldWrites(env, heap, cfg, fuel - 1, st.level, st.seen, ty, v, fields, 0, opts) == [];
      assert st.acc.s + [] == st.acc.s;
    }
  }

  /**
    structEncoder under a non-empty key, not inline, with at least one field: it puts under the key
    one element: in slice mode (structConvertToSlice) the list of the emitted fields' names and
    elements, else the map that binds each emitted field's name to its element.  The elements are
    written from a nested state, whose guard is fresh as written or the caller's when shared.
   */
  lemma StructWritesNested(env: Env, heap: Heap, cfg: Config, fuel: nat, st: EState, key: string, ty: TypeId,
                           v: Value, fields: seq<Field>, opts: EncOpts)
    requires fuel > 0 && key != "" && !opts.inline && fields != []
    requires forall i | 0 <= i < |fields| :: fields[i].name != "" && !fields[i].inline
    ensures var r := EncodeStruct(env, heap, cfg, fuel, st, key, ty, v, fields, opts);
      var g := Nested(cfg, st, KeyedAcc(map[]));
      var ws := FieldWrites(env, heap, cfg, fuel - 1, g.level, g.seen, ty, v, fields, 0, opts);
      r.Ok? ==> r.value == EState(Put(st.acc, key, if opts.structConvertToSlice then Flat(Pairs(ws))
                                                   else Keyed(Keys(PutAll(KeyedAcc(map[]), ws)))), st.level, st.seen)
  {
    var acc0 := if opts.structConvertToSlice then FlatAcc([]) else KeyedAcc(map[]);
    var ne0 := Nested(cfg, st, acc0);
    var g := Nested(cfg, st, KeyedAcc(map[]));
    assert ne0.level == g.level && ne0.seen == g.seen;
    FieldsWrite(env, heap, cfg, fuel - 1, ne0, ty, v, fields, 0, opts);
    NestedFromLoop(env, heap, cfg, fuel, st, key, ty, v, fields, opts,
                   FieldWrites(env, heap, cfg, fuel - 1, g.level, g.seen, ty, v, fields, 0, opts));
  }

  /** The nested half of structEncoder, given the fold its field loop computes. */
  lemma NestedFromLoop(env: Env, heap: Heap, cfg: Config, fuel: nat, st: EState, key: string, ty: TypeId,
                       v: Value, fields: seq<Field>, opts: EncOpts, ws: seq<(string, Out)>)
    requires fuel > 0 && key != "" && !opts.inline && fields != []
    requires var acc0 := if opts.structConvertToSlice then FlatAcc([]) else KeyedAcc(map[]);
      var r := EncodeFields(env, heap, cfg, fuel - 1, Nested(cfg, st, acc0), ty, v, fields, 0, opts);
      r.Ok? ==> r.value.acc == PutAll(acc0, ws)
    ensures var r := EncodeStruct(env, heap, cfg, fuel, st, key, ty, v, fields, opts);
      r.Ok? ==> r.value == EState(Put(st.acc, key, if opts.structConvertToSlice then Flat(Pairs(ws))
                                                   else Keyed(Keys(PutAll(KeyedAcc(map[]), ws)))), st.level, st.seen)
  {
    var acc0 := if opts.structConvertToSlice then FlatAcc([]) else KeyedAcc(map[]);
    var r := EncodeFields(env, heap, cfg, fuel - 1, Nested(cfg, st, acc0), ty, v, fields, 0, opts);
    if r.Ok? {
      assert EncodeStruct(env, heap, cfg, fuel, st, key, ty, v, fields, opts)
          == Ok(EState(Put(st.acc, key, Encoding.Interface(r.value.acc)), st.level, st.seen));
      NestedOutput(opts.structConvertToSlice, ws);
    }
  }

  /** The nested state's output after the fold: the pairs in slice mode, else the map they build. */
  lemma NestedOutput(flat: bool, ws: seq<(string, Out)>)
    ensures Encoding.Interface(PutAll(if flat then FlatAcc([]) else KeyedAcc(map[]), ws))
         == if flat then Flat(Pairs(ws)) else Keyed(Keys(PutAll(KeyedAcc(map[]), ws)))
  {
    if flat {
      PutAllFlat([], ws);
      assert [] + Pairs(ws) == Pairs(ws);
    } else {
      PutAllKeepsMode(KeyedAcc(map[]), ws);
    }
  }

  /**
    The encoder of a struct type at the top of an encoding in map mode, over the fields typeFields
    resolves when their names are non-empty and none is inline: each emitted field's name is bound
    to its element, or kept as it was when that element is nil.
   */
  lemma StructTypeWritesField(env: Env, heap: Heap, cfg: Config, fuel: nat, st: EState, ty: TypeId,
                              v: Value, opts: EncOpts, j: nat)
    requires st.acc.KeyedAcc? && KindOf(env.types, ty) == Struct
    requires j < |TypeFieldsSpec(env, ty)| && EncodingFacts.Emitted(env, heap, ty, v, TypeFieldsSpec(env, ty)[j])
    requires forall i | 0 <= i < |TypeFieldsSpec(env, ty)| ::
      TypeFieldsSpec(env, ty)[i].name != "" && !TypeFieldsSpec(env, ty)[i].inline
    requires EncodeValue(env, heap, cfg, fuel, st, "", ty, v, opts).Ok?
    ensures var r := EncodeValue(env, heap, cfg, fuel, st, "", ty, v, opts).value;
      var o := FieldOut(env, heap, cfg, fuel - 1, st.level, st.seen, ty, v, TypeFieldsSpec(env, ty)[j], opts);
      && r.acc.KeyedAcc?
      && (o != Nil ==> TypeFieldsSpec(env, ty)[j].name in r.acc.m && r.acc.m[TypeFieldsSpec(env, ty)[j].name] == o)
      && (o == Nil ==> EncodingFacts.SameAt(st.acc.m, r.acc.m, TypeFieldsSpec(env, ty)[j].name))
  {
    EncodingFacts.StructValue(env, heap, cfg, fuel, st, "", ty, v, opts);
    CompactionFacts.TypeFieldsNamesDistinct(env, ty);
    StructWritesField(env, heap, cfg, fuel, st, ty, v, TypeFieldsSpec(env, ty), opts, j);
  }

  /** The same in slice mode: the emitted fields' names and elements are appended in the order typeFields resolves. */
  lemma StructTypeAppendsFields(env: Env, heap: Heap, cfg: Config, fuel: nat, st: EState, ty: TypeId,
                                v: Value, opts: EncOpts)
    requires st.acc.FlatAcc? && KindOf(env.types, ty) == Struct
    requires forall i | 0 <= i < |TypeFieldsSpec(env, ty)| ::
      TypeFieldsSpec(env, ty)[i].name != "" && !TypeFieldsSpec(env, ty)[i].inline
    ensures var r := EncodeValue(env, heap, cfg, fuel, st, "", ty, v, opts);
      r.Ok? ==> r.value == EState(FlatAcc(st.acc.s + Pairs(FieldWrites(env, heap, cfg, fuel - 1, st.level, st.seen, ty, v,
                                                                        TypeFieldsSpec(env, ty), 0, opts))),
                                  st.level, st.seen)
  {
    if fuel > 0 {
      EncodingFacts.StructValue(env, heap, cfg, fuel, st, "", ty, v, opts);
      StructAppendsFields(env, heap, cfg, fuel, st, ty, v, TypeFieldsSpec(env, ty), opts);
    }
  }

  // ---------------------------------------------------------------------------------------
  // marshal on a struct without embedded fields.

  /**
    marshal of a struct whose declared fields are none embedded, into a map: the name (or tag name)
    of each exported field that is emitted is bound to the element written for its value, or kept
    as it was when that element is nil.  The field names must be distinct, non-empty and not inline.
   */
  lemma MarshalStructKeyed(env: Env, heap: Heap, cfg: Config, fuel: nat, st: EState, ty: TypeId,
                           v: Value, opts: EncOpts, j: nat)
    requires st.acc.KeyedAcc? && KindOf(env.types, ty) == Struct && TypeFieldsFacts.NoEmbedding(env.types, ty)
    requires var d := TypeFieldsFacts.Declared(env, ty, |FieldsOf(env.types, ty)|);
      && CompactionFacts.NamesDistinct(d) && (forall i | 0 <= i < |d| :: d[i].name != "" && !d[i].inline)
      && j < |d| && EncodingFacts.Emitted(env, heap, ty, v, d[j])
    requires Marshal(env, heap, cfg, fuel, st, Some(Dyn(ty, v)), opts).Ok?
    ensures var d := TypeFieldsFacts.Declared(env, ty, |FieldsOf(env.types, ty)|);
      var r := Marshal(env, heap, cfg, fuel, st, Some(Dyn(ty, v)), opts).value;
      var o := FieldOut(env, heap, cfg, fuel - 1, st.level, st.seen, ty, v, d[j], opts);
      && r.acc.KeyedAcc?
      && (o != Nil ==> d[j].name in r.acc.m && r.acc.m[d[j].name] == o)
      && (o == Nil ==> EncodingFacts.SameAt(st.acc.m, r.acc.m, d[j].name))
  {
    TypeFieldsFacts.TypeFieldsNoEmbedding(env, ty);
    StructTypeWritesField(env, heap, cfg, fuel, st, ty, v, opts, j);
  }

  /**
    The same into a slice: marshal appends, for each exported field in declaration order that is
    emitted, its name and the element written for its value.
   */
  lemma MarshalStructFlat(env: Env, heap: Heap, cfg: Config, fuel: nat, st: EState, ty: TypeId,
                          v: Value, opts: EncOpts)
    requires st.acc.FlatAcc? && KindOf(env.types, ty) == Struct && TypeFieldsFacts.NoEmbedding(env.types, ty)
    requires var d := TypeFieldsFacts.Declared(env, ty, |FieldsOf(env.types, ty)|);
      && CompactionFacts.NamesDistinct(d) && (forall i | 0 <= i < |d| :: d[i].name != "" && !d[i].inline)
    ensures var d := TypeFieldsFacts.Declared(env, ty, |FieldsOf(env.types, ty)|);
      var r := Marshal(env, heap, cfg, fuel, st, Some(Dyn(ty, v)), opts);
      r.Ok? ==> r.value == EState(FlatAcc(st.acc.s + Pairs(FieldWrites(env, heap, cfg, fuel - 1, st.level, st.seen, ty, v, d, 0, opts))),
                                  st.level, st.seen)
  {
    TypeFieldsFacts.TypeFieldsNoEmbedding(env, ty);
    StructTypeAppendsFields(env, heap, cfg, fuel, st, ty, v, opts);
  }

  // ---------------------------------------------------------------------------------------
  // mapEncoder.

  /** The keys of the entries. */
  function EntryKeys(entries: seq<(string, Value)>): seq<string> {
    seq(|entries|, q requires 0 <= q < |entries| => entries[q].0)
  }

  /** The element written for each entry's value under its key, from a state with the guard (level, seen). */
  ghost function EntryOuts(env: Env, heap: Heap, cfg: Config, fuel: nat, level: nat, seen: set<Ident>, elem: TypeId,
                           entries: seq<(string, Value)>, opts: EncOpts): seq<Out>
  {
    seq(|entries|, q requires 0 <= q < |entries| => Written(env, heap, cfg, fuel, level, seen, entries[q].0, elem, entries[q].1, opts))
  }

  /** Each entry from i on, in iteration order, with the element written for it. */
  ghost function EntryWrites(env: Env, heap: Heap, cfg: Config, fuel: nat, level: nat, seen: set<Ident>, elem: TypeId,
                             entries: seq<(string, Value)>, i: nat, opts: EncOpts): seq<(string, Out)>
  {
    Select(EntryKeys(entries), AllKept(|entries|), EntryOuts(env, heap, cfg, fuel, level, seen, elem, entries, opts), i)
  }

  /**
    mapEncoder's loop from entry i on, over non-empty keys and without the inline option, is the
    fold of setKeyValue over the entries and their elements; the guard is as it was.
   */
  lemma {:induction false} EntriesWrite(env: Env, heap: Heap, cfg: Config, fuel: nat, ne: EState, elem: TypeId,
                                        entries: seq<(string, Value)>, i: nat, opts: EncOpts)
    requires !opts.inline && forall q | i <= q < |entries| :: entries[q].0 != ""
    ensures var r := EncodeEntries(env, heap, cfg, fuel, ne, elem, entries, i, opts);
      r.Ok? ==> r.value == EState(PutAll(ne.acc, EntryWrites(env, heap, cfg, fuel, ne.level, ne.seen, elem, entries, i, opts)),
                                  ne.level, ne.seen)
    decreases |entries| - i
  {
    var r := EncodeEntries(env, heap, cfg, fuel, ne, elem, entries, i, opts);
    if i < |entries| && r.Ok? {
      ValueWrites(env, heap, cfg, fuel, ne, entries[i].0, elem, entries[i].1, opts);
      var ne' := EncodeValue(env, heap, cfg, fuel, ne, entries[i].0, elem, entries[i].1, opts).value;
      assert r == EncodeEntries(env, heap, cfg, fuel, ne', elem, entries, i + 1, opts);
      EntriesWrite(env, heap, cfg, fuel, ne', elem, entries, i + 1, opts);
      EntryWritesStep(env, heap, cfg, fuel, ne.level, ne.seen, elem, entries, i, opts);
    }
  }

  lemma EntryWritesStep(env: Env, heap: Heap, cfg: Config, fuel: nat, level: nat, seen: set<Ident>, elem: TypeId,
                        entries: seq<(string, Value)>, i: nat, opts: EncOpts)
    requires i < |entries|
    ensures var ws := EntryWrites(env, heap, cfg, fuel, level, seen, elem, entries, i, opts);
      && ws != []
      && ws[0] == (entries[i].0, Written(env, heap, cfg, fuel, level, seen, entries[i].0, elem, entries[i].1, opts))
      && ws[1..] == EntryWrites(env, heap, cfg, fuel, level, seen, elem, entries, i + 1, opts)
  {
  }

  /**
    mapEncoder on a non-nil map whose keys are non-empty, without the inline option: past the
    cycle guard it puts under the key one map, written as a plain map when the element type is (a
    pointer to, a slice or array of) a struct and else as a map of the encoded map's own type, and
    leaves the guard as it found it.  The map is EntriesMap, the fold of the entries and their
    elements, each written from a nested state whose guard is fresh as written or the caller's, one
    level deeper, when shared; EntriesBind says which keys it binds to what.
   */
  lemma MapWrites(env: Env, heap: Heap, cfg: Config, fuel: nat, st: EState, key: string,
                  ty: TypeId, v: Value, elem: TypeId, opts: EncOpts)
    requires fuel > 0 && !opts.inline
    requires v.VMap? && v.tbl.Some? && v.tbl.value in heap && heap[v.tbl.value].Table?
    requires forall q | 0 <= q < |heap[v.tbl.value].entries| :: heap[v.tbl.value].entries[q].0 != ""
    ensures var r := EncodeMap(env, heap, cfg, fuel, st, key, ty, v, elem, opts);
      var id := MapId(v.tbl.value);
      r.Ok? ==>
        && EnterRef(st, id, ty).Ok?
        && var g := Nested(cfg, EnterRef(st, id, ty).value, KeyedAcc(map[]));
           var m := EntriesMap(env, heap, cfg, fuel - 1, g.level, g.seen, elem, heap[v.tbl.value].entries, opts);
           r.value == EState(Put(st.acc, key, if KindOf(env.types, MapElemBase(env.types, ty)) == Struct then Keyed(m)
                                              else TypedMap(ty, m)), st.level, st.seen)
  {
    var id := MapId(v.tbl.value);
    var entries := heap[v.tbl.value].entries;
    if EnterRef(st, id, ty).Ok? {
      var g := Nested(cfg, EnterRef(st, id, ty).value, KeyedAcc(map[]));
      EntriesWrite(env, heap, cfg, fuel - 1, g, elem, entries, 0, opts);
      MapFromLoop(env, heap, cfg, fuel, st, key, ty, v, elem, opts,
                  EntryWrites(env, heap, cfg, fuel - 1, g.level, g.seen, elem, entries, 0, opts));
    }
  }

  /** mapEncoder on a non-nil map, given the fold its loop computes. */
  lemma MapFromLoop(env: Env, heap: Heap, cfg: Config, fuel: nat, st: EState, key: string,
                    ty: TypeId, v: Value, elem: TypeId, opts: EncOpts, ws: seq<(string, Out)>)
    requires fuel > 0
    requires v.VMap? && v.tbl.Some? && v.tbl.value in heap && heap[v.tbl.value].Table?
    requires EnterRef(st, MapId(v.tbl.value), ty).Ok?
    requires var ne := EncodeEntries(env, heap, cfg, fuel - 1, Nested(cfg, EnterRef(st, MapId(v.tbl.value), ty).value, KeyedAcc(map[])),
                                     elem, heap[v.tbl.value].entries, 0, opts);
      ne.Ok? ==> ne.value.acc == PutAll(KeyedAcc(map[]), ws)
    ensures var r := EncodeMap(env, heap, cfg, fuel, st, key, ty, v, elem, opts);
      var m := Keys(PutAll(KeyedAcc(map[]), ws));
      r.Ok? ==> r.value == EState(Put(st.acc, key, if KindOf(env.types, MapElemBase(env.types, ty)) == Struct then Keyed(m)
                                                   else TypedMap(ty, m)), st.level, st.seen)
  {
    var r := EncodeMap(env, heap, cfg, fuel, st, key, ty, v, elem, opts);
    var id := MapId(v.tbl.value);
    if r.Ok? {
      var st1 := EnterRef(st, id, ty).value;
      var ne := EncodeEntries(env, heap, cfg, fuel - 1, Nested(cfg, st1, KeyedAcc(map[])), elem, heap[v.tbl.value].entries, 0, opts);
      var m := Keys(ne.value.acc);
      var out := if KindOf(env.types, MapElemBase(env.types, ty)) == Struct then Keyed(m) else TypedMap(ty, m);
      assert r == Ok(LeaveRef(EState(Put(st1.acc, key, out), st1.level, st1.seen), id, Armed(st)));
      EncodingFacts.LeaveUndoesEnter(st, id, ty, Put(st1.acc, key, out));
    }
  }

  /** The map built from the entries: the fold of setKeyValue over each entry's key and element. */
  ghost function EntriesMap(env: Env, heap: Heap, cfg: Config, fuel: nat, level: nat, seen: set<Ident>, elem: TypeId,
                            entries: seq<(string, Value)>, opts: EncOpts): map<string, Out>
  {
    Keys(PutAll(KeyedAcc(map[]), EntryWrites(env, heap, cfg, fuel, level, seen, elem, entries, 0, opts)))
  }

  /** m binds keys[q] to outs[q] for each non-nil outs[q], lacks it for a nil one, and has no other key. */
  ghost predicate HoldsExactly(m: map<string, Out>, keys: seq<string>, outs: seq<Out>)
    requires |outs| == |keys|
  {
    && (forall q | 0 <= q < |keys| :: outs[q] != Nil ==> keys[q] in m && m[keys[q]] == outs[q])
    && (forall q | 0 <= q < |keys| :: outs[q] == Nil ==> keys[q] !in m)
    && (forall k | k in m :: exists q | 0 <= q < |keys| :: keys[q] == k)
  }

  /**
    The map of a map's entries with distinct keys: the key of each entry is bound to the element
    written for its value, absent when that element is nil, and no other key is present.
   */
  lemma EntriesBind(env: Env, heap: Heap, cfg: Config, fuel: nat, level: nat, seen: set<Ident>, elem: TypeId,
                    entries: seq<(string, Value)>, opts: EncOpts)
    requires forall p, q | 0 <= p < q < |entries| :: entries[p].0 != entries[q].0
    ensures HoldsExactly(EntriesMap(env, heap, cfg, fuel, level, seen, elem, entries, opts),
                         EntryKeys(entries), EntryOuts(env, heap, cfg, fuel, level, seen, elem, entries, opts))
  {
    var names := EntryKeys(entries);
    var outs := EntryOuts(env, heap, cfg, fuel, level, seen, elem, entries, opts);
    var ws := EntryWrites(env, heap, cfg, fuel, level, seen, elem, entries, 0, opts);
    PutAllKeepsMode(KeyedAcc(map[]), ws);
    var m := EntriesMap(env, heap, cfg, fuel, level, seen, elem, entries, opts);
    forall q | 0 <= q < |entries|
      ensures outs[q] != Nil ==> names[q] in m && m[names[q]] == outs[q]
      ensures outs[q] == Nil ==> names[q] !in m
    {
      SelectBinds(names, AllKept(|entries|), outs, 0, map[], q);
    }
    forall k | k in m
      ensures exists q | 0 <= q < |names| :: names[q] == k
    {
      if forall q | 0 <= q < |names| :: names[q] != k {
        SelectAbsent(names, AllKept(|entries|), outs, 0, k);
        PutAllKeeps(map[], ws, k);
      }
    }
  }

  // ---------------------------------------------------------------------------------------
  // arrayEncoder and sliceEncoder.

  /** The keys arrayEncoder writes its elements under: strconv.Itoa of each position. */
  function ElemKeys(n: nat): seq<string> {
    seq(n, q requires 0 <= q < n => Itoa(q))
  }

  /** The element written for each item under its position, from a state with the guard (level, seen). */
  ghost function ElemOuts(env: Env, heap: Heap, cfg: Config, fuel: nat, level: nat, seen: set<Ident>, elem: TypeId,
                          es: seq<Value>, opts: EncOpts): seq<Out>
  {
    seq(|es|, q requires 0 <= q < |es| => Written(env, heap, cfg, fuel, level, seen, Itoa(q), elem, es[q], opts))
  }

  /** Each item from i on, in order, under its position, with the element written for it. */
  ghost function ElemWrites(env: Env, heap: Heap, cfg: Config, fuel: nat, level: nat, seen: set<Ident>, elem: TypeId,
                            es: seq<Value>, i: nat, opts: EncOpts): seq<(string, Out)>
  {
    Select(ElemKeys(|es|), AllKept(|es|), ElemOuts(env, heap, cfg, fuel, level, seen, elem, es, opts), i)
  }

  lemma ElemWritesStep(env: Env, heap: Heap, cfg: Config, fuel: nat, level: nat, seen: set<Ident>, elem: TypeId,
                       es: seq<Value>, i: nat, opts: EncOpts)
    requires i < |es|
    ensures var ws := ElemWrites(env, heap, cfg, fuel, level, seen, elem, es, i, opts);
      && ws != []
      && ws[0] == (Itoa(i), Written(env, heap, cfg, fuel, level, seen, Itoa(i), elem, es[i], opts))
      && ws[1..] == ElemWrites(env, heap, cfg, fuel, level, seen, elem, es, i + 1, opts)
  {
  }

  /**
    arrayEncoder's loop from item i on, without the inline option, is the fold of setKeyValue over
    the positions and the items' elements; the guard is as it was.
   */
  lemma {:induction false} ElemsWrite(env: Env, heap: Heap, cfg: Config, fuel: nat, ne: EState, elem: TypeId,
                                      es: seq<Value>, i: nat, opts: EncOpts)
    requires !opts.inline
    ensures var r := EncodeElems(env, heap, cfg, fuel, ne, elem, es, i, opts);
      r.Ok? ==> r.value == EState(PutAll(ne.acc, ElemWrites(env, heap, cfg, fuel, ne.level, ne.seen, elem, es, i, opts)),
                                  ne.level, ne.seen)
    decreases |es| - i
  {
    var r := EncodeElems(env, heap, cfg, fuel, ne, elem, es, i, opts);
    if i < |es| && r.Ok? {
      ValueWrites(env, heap, cfg, fuel, ne, Itoa(i), elem, es[i], opts);
      var ne' := EncodeValue(env, heap, cfg, fuel, ne, Itoa(i), elem, es[i], opts).value;
      assert r == EncodeElems(env, heap, cfg, fuel, ne', elem, es, i + 1, opts);
      ElemsWrite(env, heap, cfg, fuel, ne', elem, es, i + 1, opts);
      ElemWritesStep(env, heap, cfg, fuel, ne.level, ne.seen, elem, es, i, opts);
    }
  }

  /**
    arrayEncoder's nested slice-mode state after its loop: when no item's element is nil, position
    q's key Itoa(q) at 2q, followed by item q's element.
   */
  lemma ElemsAppendPairs(env: Env, heap: Heap, cfg: Config, fuel: nat, level: nat, seen: set<Ident>, elem: TypeId,
                         es: seq<Value>, opts: EncOpts, q: nat)
    requires !opts.inline && q < |es|
    requires EncodeElems(env, heap, cfg, fuel, EState(FlatAcc([]), level, seen), elem, es, 0, opts).Ok?
    requires forall p | 0 <= p < |es| :: ElemOuts(env, heap, cfg, fuel, level, seen, elem, es, opts)[p] != Nil
    ensures var s := Items(EncodeElems(env, heap, cfg, fuel, EState(FlatAcc([]), level, seen), elem, es, 0, opts).value.acc);
      && |s| == 2 * |es|
      && s[2 * q] == Str(Itoa(q))
      && s[2 * q + 1] == Written(env, heap, cfg, fuel, level, seen, Itoa(q), elem, es[q], opts)
  {
    var ws := ElemWrites(env, heap, cfg, fuel, level, seen, elem, es, 0, opts);
    ElemsWrite(env, heap, cfg, fuel, EState(FlatAcc([]), level, seen), elem, es, 0, opts);
    PutAllFlat([], ws);
    assert [] + Pairs(ws) == Pairs(ws);
    SelectPairsAt(ElemKeys(|es|), ElemOuts(env, heap, cfg, fuel, level, seen, elem, es, opts), 0, q);
  }

  /**
    r puts under key, into st's output, the array of the elements outs, none nil, with the element
    type arrayEncoder reports for ty, and leaves st's guard as it was.
   */
  ghost predicate PutsArray(env: Env, r: Result<EState, EncError>, st: EState, key: string, ty: TypeId,
                            outs: seq<Out>, slice: bool) {
    var et := ElemBase(env.types, ty);
    r.Ok? ==>
      && (forall q | 0 <= q < |outs| :: outs[q] != Nil)
      && r.value == EState(Put(st.acc, key, ArrayOut(if KindOf(env.types, et) == Struct then None else Some(et), outs, slice)),
                           st.level, st.seen)
  }

  /**
    arrayEncoder without the inline option: the items are written into a nested slice-mode state,
    each under its position, whose guard is fresh as written or the caller's when shared.  It
    succeeds only when every item's element is non-nil, and then puts under the key the array whose
    item i is item i's element; when every item encodes but one of them to nil, it fails with the
    index-out-of-range panic.  The guard is left as it was.
   */
  lemma ArrayWrites(env: Env, heap: Heap, cfg: Config, fuel: nat, st: EState, key: string,
                    ty: TypeId, es: seq<Value>, opts: EncOpts)
    requires !opts.inline
    ensures var r := EncodeArray(env, heap, cfg, fuel, st, key, ty, es, opts);
      var g := Nested(cfg, st, FlatAcc([]));
      fuel > 0 ==>
        var outs := ElemOuts(env, heap, cfg, fuel - 1, g.level, g.seen, Elem(env.types, ty), es, opts);
        && PutsArray(env, r, st, key, ty, outs, opts.convertToSlice)
        && (EncodeElems(env, heap, cfg, fuel - 1, g, Elem(env.types, ty), es, 0, opts).Ok? && (exists q | 0 <= q < |es| :: outs[q] == Nil)
            ==> r == Err(IndexOutOfRange))
    ensures fuel == 0 ==> EncodeArray(env, heap, cfg, fuel, st, key, ty, es, opts) == Err(StackOverflow)
  {
    if fuel > 0 {
      var g := Nested(cfg, st, FlatAcc([]));
      var elem := Elem(env.types, ty);
      var ne := EncodeElems(env, heap, cfg, fuel - 1, g, elem, es, 0, opts);
      var ws := ElemWrites(env, heap, cfg, fuel - 1, g.level, g.seen, elem, es, 0, opts);
      ElemsWrite(env, heap, cfg, fuel - 1, g, elem, es, 0, opts);
      PutAllFlat([], ws);
      assert [] + Pairs(ws) == Pairs(ws);
      ArrayFromLoop(env, heap, cfg, fuel, st, key, ty, es, opts, ElemOuts(env, heap, cfg, fuel - 1, g.level, g.seen, elem, es, opts));
    }
  }

  /** arrayEncoder, given the slice-mode output its loop computes from the elements outs. */
  lemma ArrayFromLoop(env: Env, heap: Heap, cfg: Config, fuel: nat, st: EState, key: string,
                      ty: TypeId, es: seq<Value>, opts: EncOpts, outs: seq<Out>)
    requires fuel > 0 && |outs| == |es|
    requires var ne := EncodeElems(env, heap, cfg, fuel - 1, Nested(cfg, st, FlatAcc([])), Elem(env.types, ty), es, 0, opts);
      ne.Ok? ==> ne.value.acc == FlatAcc(Pairs(Select(ElemKeys(|es|), AllKept(|es|), outs, 0)))
    ensures PutsArray(env, EncodeArray(env, heap, cfg, fuel, st, key, ty, es, opts), st, key, ty, outs, opts.convertToSlice)
    ensures EncodeElems(env, heap, cfg, fuel - 1, Nested(cfg, st, FlatAcc([])), Elem(env.types, ty), es, 0, opts).Ok?
            && (exists q | 0 <= q < |es| :: outs[q] == Nil)
            ==> EncodeArray(env, heap, cfg, fuel, st, key, ty, es, opts) == Err(IndexOutOfRange)
  {
    var ne := EncodeElems(env, heap, cfg, fuel - 1, Nested(cfg, st, FlatAcc([])), Elem(env.types, ty), es, 0, opts);
    if ne.Ok? {
      PairItems(ElemKeys(|es|), outs);
      ArrayFromItems(env, st, key, ty, es, opts, Items(ne.value.acc), outs);
    }
  }

  /** The item positions of the slice-mode output of a selection of every element. */
  lemma PairItems(names: seq<string>, outs: seq<Out>)
    requires |outs| == |names|
    ensures var s := Pairs(Select(names, AllKept(|names|), outs, 0));
      && ((forall q | 0 <= q < |outs| :: outs[q] != Nil) ==>
            |s| == 2 * |outs| && forall q | 0 <= q < |outs| :: s[2 * q + 1] == outs[q])
      && ((exists q | 0 <= q < |outs| :: outs[q] == Nil) ==> |s| < 2 * |outs|)
  {
    var s := Pairs(Select(names, AllKept(|names|), outs, 0));
    if exists q | 0 <= q < |outs| :: outs[q] == Nil {
      var q :| 0 <= q < |outs| && outs[q] == Nil;
      SelectPairsShort(names, outs, 0, q);
    } else if |outs| > 0 {
      SelectPairsAt(names, outs, 0, 0);
      forall q | 0 <= q < |outs| ensures s[2 * q + 1] == outs[q] {
        SelectPairsAt(names, outs, 0, q);
      }
    }
  }

  /** The end of arrayEncoder, given the nested output s of its loop. */
  lemma ArrayFromItems(env: Env, st: EState, key: string, ty: TypeId, es: seq<Value>, opts: EncOpts,
                       s: seq<Out>, outs: seq<Out>)
    requires |outs| == |es|
    requires (forall q | 0 <= q < |outs| :: outs[q] != Nil) ==> |s| == 2 * |outs| && forall q | 0 <= q < |outs| :: s[2 * q + 1] == outs[q]
    requires (exists q | 0 <= q < |outs| :: outs[q] == Nil) ==> |s| < 2 * |outs|
    ensures |s| < 2 * |es| <==> exists q | 0 <= q < |outs| :: outs[q] == Nil
    ensures |s| >= 2 * |es| ==> seq(|es|, i requires 0 <= i < |es| => s[2 * i + 1]) == outs
  {
  }

  /**
    sliceEncoder on a non-nil slice, without the inline option: past the cycle guard, arrayEncoder
    with the slice conversion on, over the slice's elements, from a nested state whose guard is the
    caller's one level deeper when shared; the guard is left as it was.
   */
  lemma SliceWrites(env: Env, heap: Heap, cfg: Config, fuel: nat, st: EState, key: string,
                    ty: TypeId, v: Value, opts: EncOpts)
    requires fuel > 0 && !opts.inline
    requires v.VSlice? && v.arr.Some? && v.arr.value in heap && heap[v.arr.value].Backing?
    ensures var r := EncodeSlice(env, heap, cfg, fuel, st, key, ty, v, opts);
      var es := heap[v.arr.value].elems;
      var id := SliceId(v.arr.value, |es|);
      r.Ok? ==>
        && fuel > 1 && EnterRef(st, id, ty).Ok?
        && var g := Nested(cfg, EnterRef(st, id, ty).value, FlatAcc([]));
           PutsArray(env, r, st, key, ty, ElemOuts(env, heap, cfg, fuel - 2, g.level, g.seen, Elem(env.types, ty), es,
                                                   opts.(convertToSlice := true)), true)
  {
    var es := heap[v.arr.value].elems;
    var id := SliceId(v.arr.value, |es|);
    var st1 := EnterRef(st, id, ty);
    var o := opts.(convertToSlice := true);
    if fuel > 1 && st1.Ok? {
      var g := Nested(cfg, st1.value, FlatAcc([]));
      ArrayWrites(env, heap, cfg, fuel - 1, st1.value, key, ty, es, o);
      SliceFromArray(env, heap, cfg, fuel, st, key, ty, v, opts,
                     ElemOuts(env, heap, cfg, fuel - 2, g.level, g.seen, Elem(env.types, ty), es, o));
    } else if st1.Ok? {
      assert EncodeArray(env, heap, cfg, 0, st1.value, key, ty, es, o) == Err(StackOverflow);
    }
  }

  /** sliceEncoder on a non-nil slice, given what arrayEncoder does past the guard. */
  lemma SliceFromArray(env: Env, heap: Heap, cfg: Config, fuel: nat, st: EState, key: string,
                       ty: TypeId, v: Value, opts: EncOpts, outs: seq<Out>)
    requires fuel > 0
    requires v.VSlice? && v.arr.Some? && v.arr.value in heap && heap[v.arr.value].Backing?
    requires var es := heap[v.arr.value].elems;
      var id := SliceId(v.arr.value, |es|);
      EnterRef(st, id, ty).Ok? ==>
        PutsArray(env, EncodeArray(env, heap, cfg, fuel - 1, EnterRef(st, id, ty).value, key, ty, es, opts.(convertToSlice := true)),
                  EnterRef(st, id, ty).value, key, ty, outs, true)
    ensures var r := EncodeSlice(env, heap, cfg, fuel, st, key, ty, v, opts);
      r.Ok? ==> fuel > 1 && EnterRef(st, SliceId(v.arr.value, |heap[v.arr.value].elems|), ty).Ok? && PutsArray(env, r, st, key, ty, outs, true)
  {
    var r := EncodeSlice(env, heap, cfg, fuel, st, key, ty, v, opts);
    var es := heap[v.arr.value].elems;
    var id := SliceId(v.arr.value, |es|);
    if r.Ok? {
      var st1 := EnterRef(st, id, ty).value;
      var st2 := EncodeArray(env, heap, cfg, fuel - 1, st1, key, ty, es, opts.(convertToSlice := true)).value;
      assert r == Ok(LeaveRef(st2, id, Armed(st)));
      EncodingFacts.LeaveUndoesEnter(st, id, ty, st2.acc);
    }
  }
}

