/**
  A struct that reaches itself through a pointer field: `type S struct { P *S }` with `s.P = &s`.

  The struct encoder writes a named field into a fresh nested encode state, and every nested state
  starts with ptrLevel 0 and an empty ptrSeen.  As written, the pointer depth therefore never passes
  StartDetectingCyclesAfter on this value and the encoder recurses until the stack is gone.  When
  nested states share the cycle guard of the state they belong to, the same value is reported as a
  cycle through the pointer type once the guard is armed.
 */
module CycleFinding {
  import opened Wrappers
  import opened GoTypes
  import opened Tags
  import opened Resolver
  import opened Encoding
  import CompactionFacts
  import TypeFieldsFacts

  /** Type 0 is the named struct S with one exported field P of type 1, the unnamed *S. */
  const SelfTypes: TypeTable :=
    map[0 := TypeDesc(true, StructOf([StructField("P", true, false, NoTag, 1)])),
        1 := TypeDesc(false, PointerTo(0))]

  /** The struct value at address 0, whose field points back to address 0. */
  const SelfValue: Value := VStruct([VPtr(Some(0))])

  const SelfHeap: Heap := map[0 := Obj(SelfValue)]

  /** The one field the resolver reports for S. */
  const FieldP: Field := Field("P", false, [0], 0, false, false, false)

  lemma SelfFields(runes: RuneTable)
    ensures TypeFieldsSpec(Env(SelfTypes, runes), 0) == [FieldP]
  {
    var env := Env(SelfTypes, runes);
    assert FieldsOf(SelfTypes, 0) == [StructField("P", true, false, NoTag, 1)];
    assert !ValidTagName(runes, "");
    assert TypeFieldsFacts.Declared(env, 0, 0) == [];
    assert TypeFieldsFacts.Declared(env, 0, 1) == [FieldP];
    TypeFieldsFacts.TypeFieldsNoEmbedding(env, 0);
  }

  /** Field P of the value at address 0 is the pointer back to address 0. */
  lemma FollowP()
    ensures FollowIndex(SelfTypes, SelfHeap, 0, SelfValue, [0]) == Ok(Some((1, VPtr(Some(0)))))
  {
  }

  /**
    What the encoders see of S: a struct encoder with field P for type 0, a pointer encoder to
    type 0 for type 1, and field P of the value at address 0 holding the pointer to address 0.
   */
  ghost predicate SelfShaped(env: Env) {
    && NewTypeEncoder(env, 0) == StructEnc && ResolvesToP(env)
    && NewTypeEncoder(env, 1) == PtrEnc(0)
    && FollowIndex(env.types, SelfHeap, 0, SelfValue, [0]) == Ok(Some((1, VPtr(Some(0)))))
  }

  /** The struct encoder of S walks the one field P. */
  ghost predicate ResolvesToP(env: Env) {
    forall heap, cfg, fuel, st, key, o | fuel > 0 ::
      EncodeStructType(env, heap, cfg, fuel, st, key, 0, SelfValue, o)
        == EncodeStruct(env, heap, cfg, fuel, st, key, 0, SelfValue, [FieldP], o)
  }

  lemma SelfIsShaped(runes: RuneTable)
    ensures SelfShaped(Env(SelfTypes, runes))
  {
    SelfFields(runes);
    FollowP();
  }

  /** Options as the struct encoder passes them to field P: not quoted, not inline. */
  predicate PlainField(o: EncOpts) {
    !o.quoted && !o.inline
  }

  /** Encoding field P, i.e. the pointer, from a state. */
  function EncodeP(env: Env, cfg: Config, fuel: nat, st: EState, o: EncOpts): Result<EState, EncError> {
    EncodeValue(env, SelfHeap, cfg, fuel, st, "P", 1, VPtr(Some(0)), o)
  }

  /** The state the struct encoder opens for the named field P. */
  function FieldState(cfg: Config, st1: EState, o: EncOpts): EState {
    Nested(cfg, st1, if o.structConvertToSlice then FlatAcc([]) else KeyedAcc(map[]))
  }

  /**
    The struct encoder, for a named field of type S, fails as field P's encoder in the nested state.
    Smaller stack sizes are written as the encoders write them (`fuel - 1`, then `fuel - 1 - 1`), so
    that the terms of the lemmas and of the unfolded encoders coincide.
   */
  lemma StructStep(env: Env, cfg: Config, fuel: nat, st1: EState, o: EncOpts)
    requires SelfShaped(env) && PlainField(o) && fuel >= 1
    ensures EncodeP(env, cfg, fuel - 1, FieldState(cfg, st1, o), o).Err? ==>
      EncodeValue(env, SelfHeap, cfg, fuel, st1, "P", 0, SelfValue, o) == EncodeP(env, cfg, fuel - 1, FieldState(cfg, st1, o), o)
  {
    var ne0 := FieldState(cfg, st1, o);
    var inner := EncodeP(env, cfg, fuel - 1, ne0, o);
    if inner.Err? {
      assert o.(quoted := false, inline := false) == o;
      assert EncodeField(env, SelfHeap, cfg, fuel - 1, ne0, 0, SelfValue, FieldP, o) == inner;
      assert EncodeFields(env, SelfHeap, cfg, fuel - 1, ne0, 0, SelfValue, [FieldP], 0, o) == inner;
      assert EncodeStruct(env, SelfHeap, cfg, fuel, st1, "P", 0, SelfValue, [FieldP], o) == inner;
      assert EncodeStructType(env, SelfHeap, cfg, fuel, st1, "P", 0, SelfValue, o) == inner;
    }
  }

  /** The pointer encoder enters the guard and then encodes S at the pointer's target. */
  lemma PtrStep(env: Env, cfg: Config, fuel: nat, st: EState, o: EncOpts)
    requires SelfShaped(env) && fuel >= 1
    ensures EnterRef(st, PtrId(0, 1), 1).Err? ==> EncodeP(env, cfg, fuel, st, o) == Err(EnterRef(st, PtrId(0, 1), 1).error)
    ensures EnterRef(st, PtrId(0, 1), 1).Ok? &&
            EncodeValue(env, SelfHeap, cfg, fuel - 1, EnterRef(st, PtrId(0, 1), 1).value, "P", 0, SelfValue, o).Err? ==>
      EncodeP(env, cfg, fuel, st, o) == EncodeValue(env, SelfHeap, cfg, fuel - 1, EnterRef(st, PtrId(0, 1), 1).value, "P", 0, SelfValue, o)
  {
    assert EncodeP(env, cfg, fuel, st, o) == EncodePtr(env, SelfHeap, cfg, fuel, st, "P", 1, VPtr(Some(0)), 0, o);
  }

  /** With a stack of one frame, the pointer encoder gets through the guard but S's encoder has no room. */
  lemma PointerStarved(env: Env, cfg: Config, st: EState, o: EncOpts)
    requires SelfShaped(env) && EnterRef(st, PtrId(0, 1), 1).Ok?
    ensures EncodeP(env, cfg, 1, st, o) == Err(StackOverflow)
  {
    PtrStep(env, cfg, 1, st, o);
  }

  /** One round: the pointer encoder enters the guard and the struct encoder comes back to field P. */
  lemma EncodePUnfold(env: Env, cfg: Config, fuel: nat, st: EState, o: EncOpts)
    requires SelfShaped(env) && PlainField(o) && fuel >= 2
    requires EnterRef(st, PtrId(0, 1), 1).Ok?
    ensures EncodeP(env, cfg, fuel - 1 - 1, FieldState(cfg, EnterRef(st, PtrId(0, 1), 1).value, o), o).Err? ==>
      EncodeP(env, cfg, fuel, st, o) == EncodeP(env, cfg, fuel - 1 - 1, FieldState(cfg, EnterRef(st, PtrId(0, 1), 1).value, o), o)
  {
    StructStep(env, cfg, fuel - 1, EnterRef(st, PtrId(0, 1), 1).value, o);
    PtrStep(env, cfg, fuel, st, o);
  }

  /** marshal of s encodes field P, the pointer, into the caller's state. */
  lemma MarshalStep(env: Env, cfg: Config, fuel: nat, st: EState, opts: EncOpts)
    requires SelfShaped(env) && fuel >= 1
    ensures EncodeP(env, cfg, fuel - 1, st, opts.(quoted := false, inline := false)).Err? ==>
      Marshal(env, SelfHeap, cfg, fuel, st, Some(Dyn(0, SelfValue)), opts) == EncodeP(env, cfg, fuel - 1, st, opts.(quoted := false, inline := false))
  {
    var inner := EncodeP(env, cfg, fuel - 1, st, opts.(quoted := false, inline := false));
    if inner.Err? {
      assert EncodeField(env, SelfHeap, cfg, fuel - 1, st, 0, SelfValue, FieldP, opts) == inner;
      assert EncodeFields(env, SelfHeap, cfg, fuel - 1, st, 0, SelfValue, [FieldP], 0, opts) == inner;
      assert EncodeStruct(env, SelfHeap, cfg, fuel, st, "", 0, SelfValue, [FieldP], opts) == inner;
      assert EncodeStructType(env, SelfHeap, cfg, fuel, st, "", 0, SelfValue, opts) == inner;
      assert EncodeValue(env, SelfHeap, cfg, fuel, st, "", 0, SelfValue, opts) == inner;
    }
  }

  /** As written, field P's encoder starts every round at ptrLevel 0, whatever the stack allows. */
  lemma {:induction false} PointerOverflowsAsWritten(env: Env, fuel: nat, acc: Acc, o: EncOpts)
    requires SelfShaped(env) && PlainField(o)
    ensures EncodeP(env, AsWritten, fuel, EState(acc, 0, {}), o) == Err(StackOverflow)
    decreases fuel
  {
    var st := EState(acc, 0, {});
    if fuel == 1 {
      PointerStarved(env, AsWritten, st, o);
    } else if fuel >= 2 {
      var ne0 := FieldState(AsWritten, EnterRef(st, PtrId(0, 1), 1).value, o);
      assert ne0 == EState(ne0.acc, 0, {});
      PointerOverflowsAsWritten(env, fuel - 1 - 1, ne0.acc, o);
      EncodePUnfold(env, AsWritten, fuel, st, o);
    }
  }

  /** As written, marshalling the self-referencing struct runs out of stack for every stack size. */
  lemma SelfReferenceOverflows(runes: RuneTable, fuel: nat, acc: Acc, opts: EncOpts)
    ensures Marshal(Env(SelfTypes, runes), SelfHeap, AsWritten, fuel, EState(acc, 0, {}), Some(Dyn(0, SelfValue)), opts)
         == Err(StackOverflow)
  {
    var env := Env(SelfTypes, runes);
    SelfIsShaped(runes);
    if fuel >= 1 {
      PointerOverflowsAsWritten(env, fuel - 1, acc, opts.(quoted := false, inline := false));
      MarshalStep(env, AsWritten, fuel, EState(acc, 0, {}), opts);
    }
  }

  /** The guard state after `level` rounds when nested states share it: armed only past the threshold. */
  function GuardAt(acc: Acc, level: nat): EState {
    EState(acc, level, if level > StartDetectingCyclesAfter then {PtrId(0, 1)} else {})
  }

  /** With a shared guard, field P's encoder reports the cycle once the pointer depth passes the threshold. */
  lemma {:induction false} PointerCycleShared(env: Env, fuel: nat, acc: Acc, level: nat, o: EncOpts)
    requires SelfShaped(env) && PlainField(o) && level <= StartDetectingCyclesAfter + 1
    requires fuel >= 2 * (StartDetectingCyclesAfter + 1 - level) + 1
    ensures EncodeP(env, SharedGuard, fuel, GuardAt(acc, level), o) == Err(Cycle(1))
    decreases StartDetectingCyclesAfter + 1 - level
  {
    var st := GuardAt(acc, level);
    if level == StartDetectingCyclesAfter + 1 {
      PtrStep(env, SharedGuard, fuel, st, o);
    } else {
      var ne0 := FieldState(SharedGuard, EnterRef(st, PtrId(0, 1), 1).value, o);
      assert ne0 == GuardAt(ne0.acc, level + 1);
      PointerCycleShared(env, fuel - 1 - 1, ne0.acc, level + 1, o);
      EncodePUnfold(env, SharedGuard, fuel, st, o);
    }
  }

  /**
    With nested states sharing the cycle guard, marshalling the self-referencing struct is reported
    as a cycle through *S as soon as the stack holds the 1001 rounds below the threshold.
   */
  lemma SelfReferenceIsCycle(runes: RuneTable, fuel: nat, acc: Acc, opts: EncOpts)
    requires fuel >= 2 * (StartDetectingCyclesAfter + 1) + 2
    ensures Marshal(Env(SelfTypes, runes), SelfHeap, SharedGuard, fuel, EState(acc, 0, {}), Some(Dyn(0, SelfValue)), opts)
         == Err(Cycle(1))
  {
    var env := Env(SelfTypes, runes);
    SelfIsShaped(runes);
    assert EState(acc, 0, {}) == GuardAt(acc, 0);
    PointerCycleShared(env, fuel - 1, acc, 0, opts.(quoted := false, inline := false));
    MarshalStep(env, SharedGuard, fuel, EState(acc, 0, {}), opts);
  }
}
