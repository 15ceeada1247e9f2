/**
  The package's own example: `struct { A int; B string }` with A = 23 and B = "foobar" marshals
  into a map as {"A": 23, "B": "foobar"} and into a slice as ["A", 23, "B", "foobar"].
 */
module MarshalExample {
  import opened Wrappers
  import opened GoTypes
  import opened Tags
  import opened Resolver
  import opened Encoding
  import TypeFieldsFacts
  import EncodingFacts

  /** Type 0 is the struct with exported fields A of type 1 (int) and B of type 2 (string). */
  const ExampleTypes: TypeTable :=
    map[0 := TypeDesc(true, StructOf([StructField("A", true, false, NoTag, 1), StructField("B", true, false, NoTag, 2)])),
        1 := TypeDesc(true, Scalar(SInt(Word))),
        2 := TypeDesc(true, Scalar(SString))]

  const ExampleValue: Value := VStruct([VNum(23), VStr("foobar")])

  const FieldA: Field := Field("A", false, [0], 1, false, false, false)
  const FieldB: Field := Field("B", false, [1], 2, false, false, false)

  const NoOptions: EncOpts := EncOpts(false, false, false, false)

  /** typeFields reports A and B, in declaration order. */
  lemma ExampleFields(runes: RuneTable)
    ensures TypeFieldsSpec(Env(ExampleTypes, runes), 0) == [FieldA, FieldB]
  {
    var env := Env(ExampleTypes, runes);
    assert !ValidTagName(runes, "");
    assert TypeFieldsFacts.Declared(env, 0, 0) == [];
    assert TypeFieldsFacts.Declared(env, 0, 1) == [FieldA];
    assert TypeFieldsFacts.Declared(env, 0, 2) == [FieldA, FieldB];
    TypeFieldsFacts.TypeFieldsNoEmbedding(env, 0);
  }

  /** The walk along each field's index reaches the field's value. */
  lemma ExampleFollow()
    ensures FollowIndex(ExampleTypes, map[], 0, ExampleValue, FieldA.index) == Ok(Some((1, VNum(23))))
    ensures FollowIndex(ExampleTypes, map[], 0, ExampleValue, FieldB.index) == Ok(Some((2, VStr("foobar"))))
  {
    assert FieldsOf(ExampleTypes, 0) == [StructField("A", true, false, NoTag, 1), StructField("B", true, false, NoTag, 2)];
  }

  /** One turn of the field loop for each field: primitiveEncoder writes the field's value under its name. */
  lemma ExampleTurns(runes: RuneTable, cfg: Config, acc: Acc)
    ensures var env := Env(ExampleTypes, runes);
      var st1 := EState(Put(acc, "A", Native(1, VNum(23))), 0, {});
      && EncodeField(env, map[], cfg, 2, EState(acc, 0, {}), 0, ExampleValue, FieldA, NoOptions) == Ok(st1)
      && EncodeField(env, map[], cfg, 2, st1, 0, ExampleValue, FieldB, NoOptions)
         == Ok(EState(Put(st1.acc, "B", Native(2, VStr("foobar"))), 0, {}))
  {
    var env := Env(ExampleTypes, runes);
    ExampleFollow();
    assert NewTypeEncoder(env, 1) == PrimitiveEnc && NewTypeEncoder(env, 2) == PrimitiveEnc;
  }

  /** marshal of the example runs structEncoder over A and B. */
  lemma ExampleStruct(runes: RuneTable, cfg: Config, st: EState)
    ensures Marshal(Env(ExampleTypes, runes), map[], cfg, 3, st, Some(Dyn(0, ExampleValue)), NoOptions)
         == EncodeFields(Env(ExampleTypes, runes), map[], cfg, 2, st, 0, ExampleValue, [FieldA, FieldB], 0, NoOptions)
  {
    var env := Env(ExampleTypes, runes);
    ExampleFields(runes);
    EncodingFacts.StructValue(env, map[], cfg, 3, st, "", 0, ExampleValue, NoOptions);
  }

  /** marshal of the example in either mode, from a state with nothing seen: A's pair, then B's. */
  lemma ExampleLoop(runes: RuneTable, cfg: Config, acc: Acc)
    ensures var env := Env(ExampleTypes, runes);
      var st := EState(acc, 0, {});
      Marshal(env, map[], cfg, 3, st, Some(Dyn(0, ExampleValue)), NoOptions)
        == Ok(EState(Put(Put(acc, "A", Native(1, VNum(23))), "B", Native(2, VStr("foobar"))), 0, {}))
  {
    var env := Env(ExampleTypes, runes);
    var st0 := EState(acc, 0, {});
    var st1 := EState(Put(acc, "A", Native(1, VNum(23))), 0, {});
    var st2 := EState(Put(st1.acc, "B", Native(2, VStr("foobar"))), 0, {});
    ExampleStruct(runes, cfg, st0);
    ExampleTurns(runes, cfg, acc);
    assert EncodeFields(env, map[], cfg, 2, st2, 0, ExampleValue, [FieldA, FieldB], 2, NoOptions) == Ok(st2);
    assert EncodeFields(env, map[], cfg, 2, st1, 0, ExampleValue, [FieldA, FieldB], 1, NoOptions) == Ok(st2);
  }

  /** Into an empty map: each field's name bound to its value. */
  lemma MarshalIntoMap(runes: RuneTable, cfg: Config)
    ensures Marshal(Env(ExampleTypes, runes), map[], cfg, 3, EState(KeyedAcc(map[]), 0, {}), Some(Dyn(0, ExampleValue)), NoOptions)
         == Ok(EState(KeyedAcc(map["A" := Native(1, VNum(23)), "B" := Native(2, VStr("foobar"))]), 0, {}))
  {
    ExampleLoop(runes, cfg, KeyedAcc(map[]));
  }

  /** Into an empty slice: each field's name followed by its value, in declaration order. */
  lemma MarshalIntoSlice(runes: RuneTable, cfg: Config)
    ensures Marshal(Env(ExampleTypes, runes), map[], cfg, 3, EState(FlatAcc([]), 0, {}), Some(Dyn(0, ExampleValue)), NoOptions)
         == Ok(EState(FlatAcc([Str("A"), Native(1, VNum(23)), Str("B"), Native(2, VStr("foobar"))]), 0, {}))
  {
    ExampleLoop(runes, cfg, FlatAcc([]));
    assert [] + [Str("A"), Native(1, VNum(23))] + [Str("B"), Native(2, VStr("foobar"))]
        == [Str("A"), Native(1, VNum(23)), Str("B"), Native(2, VStr("foobar"))];
  }
}
