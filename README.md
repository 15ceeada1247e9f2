# structof in Dafny

A model of the Go package `structof`. The package turns a struct value into a `map[string]any`
or a flat `[]any` of key/value pairs, and gives a reflective view of a struct's fields. The
model covers two parts of it.

- **encode.go: the field resolver and the encoder.**
  - `typeFields` searches breadth first through the embedded structs. It sorts the candidates
    by name, depth, tag and index, and keeps one dominant field per name. It then sorts the
    survivors by index.
  - `isValidTag`, `typeByIndex`, `byIndex.Less`, `dominantField` and `cachedTypeFields` are
    modelled along with it.
  - The encoders are the struct, map, slice, array, pointer, interface and primitive encoders.
    They write into an `encodeState`, through `setKeyValue`, under a pointer-cycle guard that
    arms after 1000 nested levels. `isEmptyValue` decides omitempty.
  - The resolver is written twice: as functions (`Resolver`), and as an imperative method
    that follows the Go loops (`StructFields.TypeFields`). The method is proved equal to the
    functions.
  - The encoder is also written twice: as functions (`Encoding`), and as a class
    `EncodeStates.EncodeState` whose fields the encoder methods update in place. Each method is
    proved to do what its function says.
- **structof.go: the `Struct` and `Field` views.**
  - `Struct.FieldByName` walks a dotted path (`FieldLookup`, `DottedNames`, `Navigation`).
  - `Fields` returns a handle per reachable resolved field. `Struct.FieldNames` lists the
    resolved names.
  - `Field.Set` and `Field.SetZero` store into memory (`FieldHandles.Memory`).

**What the encoder writes.** `EncodingWrites` states the package's main promise: each exported
field becomes an element of the output, under the field's name, holding what the encoder of the
field's type writes for the field's value.
- `Written` is that element: what the encoder binds to the key when it encodes into an empty map
  with the same cycle guard. `ValueWrites` proves that encoding into any state puts exactly this
  element under the key.
- The struct, map, slice and array encoders are then stated by folds of `setKeyValue` over
  their fields, entries or items.
- `MarshalExample` works the package's own example `{A: 23, B: "foobar"}` through to both
  output modes.

**Types and values.**
- Go types are a closed table from type identities to descriptors (`GoTypes.TypeTable`), so a
  type can refer to itself.
- Values are trees. Pointers, slices and maps refer by address to cells of a heap, so a value
  graph can contain cycles.
- `reflect.Value`'s addressable locations are `FieldHandles.Loc`: an address, a field path
  inside that cell, and a type.

**Errors.** Go reports an encoding or view error by panicking. Here it becomes the `Err` case
of a `Result`.

**Unmodelled code.** The Unicode letter and digit tables (`unicode.IsLetter`, `unicode.IsDigit`)
are parameters of the model (`Tags.RuneTable`). The structtag parser is not part of this model:
a field's tag arrives already parsed (`GoTypes.Tag`).

**Recursion depth.** The encoder's recursion is bounded by a `fuel` parameter, which stands for
the goroutine stack. Running out of it is the `StackOverflow` error, which Go reports as a fatal
stack overflow.

## Model

| member | source | states |
|---|---|---|
| Tags.IsValidTag | encode.go:664-679 | true exactly when the name is non-empty and every character is a letter, a digit, or one of the admitted punctuation characters or the space |
| Tags.ReservedCharactersRejected | encode.go:670-675 | a quote, a backslash or a comma anywhere in the name makes it invalid |
| Tags.LettersAccepted | encode.go:664-679 | a name made only of letters is valid exactly when it is non-empty |
| StructFields.ByIndexLess | encode.go:712-722 | the loop of byIndex.Less decides the lexicographic order on index sequences, in which a proper prefix comes first |
| Ordering.IndexLessLexicographic | encode.go:712-722 | byIndex.Less holds exactly for a proper prefix, or when the first differing entry is smaller |
| Ordering.IndexLessIrreflexive | encode.go:712-722 | no index sequence is less than itself |
| Ordering.IndexLessTransitive | encode.go:712-722 | the index order is transitive |
| Ordering.IndexLessTrichotomy | encode.go:712-722 | of two distinct index sequences exactly one is less, so sort.Sort(byIndex) has a total order to sort by |
| Ordering.StringLessStrictTotal | encode.go:884-886 | Go's `<` on field names is a strict total order |
| Ordering.CodesInjective | encode.go:884-886 | two names with the same code points are the same name, so comparing code points compares names |
| Ordering.Codes | encode.go:884-886 | the code-point sequence of a name has one entry per character, each that character's code point |
| Ordering.Insert | encode.go:879-894 | inserting an element adds exactly that element to the multiset |
| Ordering.SortBy | encode.go:879-894 | sorting keeps the length and the multiset of the elements: the result permutes the input |
| Ordering.InsertSorted | encode.go:879-894 | inserting into a sorted sequence keeps it sorted under a strict weak order |
| Ordering.SortBySorted | encode.go:879-894 | under a strict weak order the sorted result has no element less than one before it, as sort.Slice guarantees |
| Ordering.InsertMembers | encode.go:879-894 | an inserted sequence holds only the new element and the old ones |
| Ordering.SortByMembers | encode.go:879-894 | sorting neither adds nor loses an element |
| Ordering.SortedPermutationUnique | encode.go:925 | a strictly increasing sequence is the only sorted arrangement of its elements |
| ResolverFacts.NameOrderTrichotomy | encode.go:879-894 | of two fields, exactly one orders before the other in the first sort, unless they agree on name, depth, tag and index |
| ResolverFacts.NameOrderTransitive | encode.go:879-894 | the first sort's comparator is transitive |
| ResolverFacts.NameOrderStrictWeak | encode.go:879-894 | the first sort's comparator is a strict weak order, so sort.Slice's result is well defined up to ties |
| ResolverFacts.ByIndexStrictWeak | encode.go:925 | byIndex is a strict weak order |
| ResolverFacts.DominantFieldHides | encode.go:940-948 | dominantField of a name group sorted by depth and tag returns the group's first field, and succeeds exactly when that field beats every other field of the group (it is shallower, or equally deep and the only one tagged) |
| ResolverFacts.NothingHidesFirst | encode.go:940-948 | no later field of a sorted group beats its first field |
| ResolverFacts.BeatsAsymmetric | encode.go:940-948 | no two fields beat each other, and no field beats itself |
| Resolver.DominantField | encode.go:940-948 | the definition: no field when the first two fields of the group are as deep and agree on being tagged, else the first field; DominantFieldHides states what that means for a sorted group |
| Resolver.Candidates | encode.go:741-877 | the definition: every field the breadth-first search records, level by level from the root entry; CandidatesDerived, CandidatesPromoted and CandidatesNoEmbedding state what it holds |
| Resolver.TypeFieldsSpec | encode.go:879-932 | the definition: the candidates sorted by name, depth, tag and index, compacted to one field per name, and sorted by index; TypeFieldsDominant, TypeFieldsPromoted and TypeFieldsNoEmbedding state what it holds |
| CompactionFacts.HidesIffDominant | encode.go:896-922 | a field survives compaction of a name group exactly when it is dominant in the multiset of the candidates |
| CompactionFacts.CountOnePosition | encode.go:835-841 | a candidate occurs once in the multiset exactly when no other position holds the same field, so a duplicate added for a twice-reached type annihilates it |
| CompactionFacts.RunEndFacts | encode.go:903-913 | the inner loop's advance covers exactly the run of fields sharing the first field's name |
| CompactionFacts.GroupKeep | encode.go:914-921 | a group contributes its dominant field when dominantField succeeds, and nothing otherwise |
| CompactionFacts.KeepFirstBeats | encode.go:914-921 | a group keeps its first field exactly when that field beats every other field of the group |
| CompactionFacts.CompactMembers | encode.go:896-922 | compaction keeps exactly the fields that hide all their namesakes, and leaves no name twice |
| CompactionFacts.TypeFieldsDominant | encode.go:727-932 | typeFields keeps exactly the candidates that dominate all others of their name |
| CompactionFacts.TypeFieldsNamesDistinct | encode.go:896-922 | no two resolved fields share a name |
| CompactionFacts.DominantUnique | encode.go:940-948 | at most one field of a name is dominant |
| CompactionFacts.TypeFieldsIndexOrder | encode.go:924-925 | the resolved fields are in index order |
| CompactionFacts.DistinctUnderPermutation | encode.go:924-925 | re-sorting by index keeps the names distinct |
| Resolver.ScanLevel | encode.go:745-876 | one level of the search only adds visited types; it changes nothing when it visits no new type; it queues only struct types |
| Resolver.LevelProgress | encode.go:741-877 | each level of the search either queues nothing or visits a new type, so the search ends even when a struct embeds itself |
| Resolver.RunEnd | encode.go:908-913 | the end of a name run lies between its start and the end of the list |
| CandidateFacts.FieldAtType | encode.go:681-689 | typeByIndex gives the declared type of the field an index path reaches |
| Resolver.TypeByIndex | encode.go:681-689 | the definition: each index entry steps past a pointer and into that declared field; an entry outside the struct gives no type; FieldAtType ties it to the declared field reached |
| CandidateFacts.FieldAtExtend | encode.go:784-786 | extending a reachable path by a declared field's position reaches that field |
| CandidateFacts.ScanFieldsExported | encode.go:751-772 | the scan of a struct sets hasExported exactly when some declared field is visible |
| CandidateFacts.CollectSound | encode.go:741-877 | every field the search records is derived from a declared field that its index reaches from the root |
| CandidateFacts.CandidatesDerived | encode.go:741-877 | every candidate is a visible declared field, not tagged "-", reached by its index, with the name, tag and options its declaration gives |
| TypeFieldsFacts.TypeFieldsDerived | encode.go:727-932 | every resolved field is a derived candidate whose index reaches a declared field and whose typeByIndex is defined |
| TypeFieldsFacts.CandidatesNoEmbedding | encode.go:754-843 | for a struct without embedded fields, the candidates are its visible, untagged-"-" declared fields in declaration order |
| TypeFieldsFacts.TypeFieldsNoEmbedding | encode.go:727-932 | for a struct without embedded fields and with distinct names, typeFields returns its declared fields in declaration order |
| TypeFieldsFacts.DistinctDominantAll | encode.go:896-925 | a list of distinct names in which every field is dominant survives compaction and the index sort unchanged |
| Promotion.CollectGrow | encode.go:741-877 | the later levels of the search only add fields: what one level records stays among the candidates |
| Promotion.Promoted | encode.go:784-832 | the record of a field promoted from an embedded struct has the two-step index [j, k] |
| Promotion.CandidatesPromoted | encode.go:754-876 | a field k of a struct embedded by field j of the root, where no other embedded field of the root leads to the same struct and that struct is not the root itself, is a candidate: the record built from field k's declaration with index [j, k] |
| Promotion.TypeFieldsPromoted | encode.go:727-934 | such a promoted field is one of the resolved fields when no other candidate at depth one or two carries its name |
| StructFields.ScanOne | encode.go:755-862 | the body of the innermost loop of typeFields, as imperative code, does what the resolver function says |
| StructFields.FieldRecord | encode.go:774-832 | the field record built from a declaration has the tag name when the tag is valid and the declared name otherwise, and is a leaf exactly when it is named, not embedded, or not of struct type |
| StructFields.ScanOneEntry | encode.go:745-876 | the middle loop's body skips a visited type and otherwise scans it, as the resolver function says |
| StructFields.ScanOneLevel | encode.go:745-877 | one level of the imperative search equals the functional level |
| StructFields.CompactByName | encode.go:902-922 | the compaction loop returns the functional compaction of the sorted list |
| StructFields.GroupLength | encode.go:908-913 | the advance loop stops at the end of the name run |
| StructFields.KeepOfGroup | encode.go:914-921 | a group contributes its single field, or dominantField's answer |
| StructFields.TypeFields | encode.go:727-932 | typeFields returns the resolved list; its members are exactly the dominant candidates; no name appears twice; it is in index order (fields promoted from embedded structs are among them by Promotion.TypeFieldsPromoted) |
| StructFields.CachedTypeFields | encode.go:953-959 | a cache that holds only typeFields answers still does after a lookup, keeps every earlier entry, and the answer is typeFields' |
| GoTypes.KindOf | encode.go:378-401 | only a type in the table can be a struct type |
| GoTypes.ReflectKind | structof.go:229 | the definition of reflect.Type.Kind(): the exact kind of a boolean, number, string, channel, function, complex or unsafe.Pointer type, and the merged kind, which is exact, of the others |
| GoTypes.ExactKindRefines | structof.go:229 | two types of the same exact kind have the same merged kind, so the encoder's choice by kind never separates them |
| Encoding.NewTypeEncoder | encode.go:378-401 | the definition of the choice by kind: booleans, numbers and strings get the primitive encoder, interfaces the interface encoder, structs the struct encoder, slices, arrays and pointers their encoders over the element type, maps the map encoder exactly when the key kind is String, and every other map and unsupported kind the unsupported-type encoder; ValueWrites states what the chosen encoder writes |
| Encoding.IsEmptyValue | encode.go:304-318 | the definition: arrays, maps, slices and strings are empty at length zero, booleans when false, numbers at zero, interfaces and pointers when nil, anything else never; ZeroIsEmpty states which zero values it calls empty |
| Encoding.Put | encode.go:252-266 | the definition of setKeyValue; PutSpec and PutOneKey state its effect |
| Encoding.Nested | encode.go:446-459 | the definition of the state a nested encoder writes into: as written (encode.go:189-198) ptrLevel 0 and an empty ptrSeen, with the shared guard the parent's; the cycle finding turns on this switch |
| Encoding.Primitive | encode.go:408-414 | the definition of primitiveEncoder: the value, quoted under the quoted option, stored under the key; PrimitiveEncode is the method that agrees with it |
| Encoding.FollowIndex | encode.go:465-475 | the definition of the walk along a field's index: nothing at a nil pointer, otherwise each step passes a pointer and enters the declared field, ending at the field's type and value; FollowFieldIndex is the loop that agrees with it |
| Encoding.EncodeValue | encode.go:321-401 | the definition: the encoder NewTypeEncoder picks, with the unsupported-type error naming the type and the key, and StackOverflow when the fuel runs out; ValueFrame and ValueOneKey state its effect on the state |
| Encoding.EncodeInterface | encode.go:416-420 | the definition: nothing for a nil interface, else the dynamic value's encoder; InterfaceFrame states its effect |
| Encoding.EncodePtr | encode.go:640-657 | the definition: a nil pointer is stored as is, otherwise the element's encoder inside the cycle guard; PtrFrame and PtrOneKey state its effect |
| Encoding.EncodeMap | encode.go:499-544 | the definition: a nil map is stored as is, otherwise the entries go into a nested map inside the cycle guard, stored as a plain map for struct elements and as a map of the encoded type otherwise; MapWrites and EntriesBind state what it writes, MapFrame and MapOneKey what it keeps |
| Encoding.EncodeEntries | encode.go:516-523 | the definition of the entry loop: each entry in iteration order is encoded under its key by the element encoder; EntriesWrite states what it writes, EncodeEntriesInto is the loop that agrees with it |
| Encoding.EncodeSlice | encode.go:561-585 | the definition: a nil slice is stored as is, otherwise the array encoder with convertToSlice inside the cycle guard; SliceWrites states what it writes, SliceFrame and SliceOneKey what it keeps |
| Encoding.EncodeArray | encode.go:598-629 | the definition: the elements are encoded under their positions into a nested list, and every second entry becomes the output array, of element type any for structs; ArrayWrites states what it writes, ArrayFrame and ArrayOneKey what it keeps |
| Encoding.EncodeElems | encode.go:599-607 | the definition of the element loop: element i under the key strconv.Itoa(i), in order; ElemsWrite and ElemsAppendPairs state what it writes, EncodeElemsNested what it gives in a fresh state |
| Encoding.EncodeStruct | encode.go:434-488 | the definition: a struct without fields is stored as a value under a non-empty key, otherwise its fields are encoded in place for the empty key or inline, or into a nested map or list stored under the key; StructWritesField, StructAppendsFields and StructWritesNested state what it writes, StructFrame and StructOneKey what it keeps |
| Encoding.EncodeStructType | encode.go:490-493 | the definition of newStructEncoder's encoder: structEncoder.encode over the fields typeFields resolves; StructTypeWritesField and StructTypeAppendsFields state what it writes, StructOmitsSkippedField what it skips, StructTypeFrame and StructTypeOneKey what it keeps |
| Encoding.EncodeFields | encode.go:461-484 | the definition of the field loop: each resolved field in order; FieldsWrite and FieldWritesBind state what it writes, FieldsFrame and FieldsWriteEmitted what it keeps |
| Encoding.EncodeField | encode.go:463-483 | the definition of one iteration: skip the field at a nil pointer on its path, or when it is omitempty and empty, else encode it under its name with its quoted and inline options; FieldWrite states what it writes, FieldFrame and StructSkipsField what it keeps |
| Encoding.Marshal | encode.go:235-245 | the definition: the nil interface is the invalid-value error, and any other value goes to its encoder with key ""; MarshalStructKeyed and MarshalStructFlat state what it writes for a struct, EncodeStates.Marshal is the method that agrees with it |
| Encoding.Itoa | encode.go:605 | strconv.Itoa of a non-negative index is a non-empty string |
| EncodingFacts.PutSpec | encode.go:252-266 | setKeyValue with nil changes nothing; in map mode it binds the key and leaves every other key alone; in slice mode it appends exactly the key and the value |
| EncodingFacts.EnterRefSpec | encode.go:645-654 | the cycle guard below the threshold only counts; past it, it fails exactly on an identity already seen and otherwise records that identity |
| Encoding.EnterRef | encode.go:645-654 | the definition of the entry half of the cycle guard: `ptrLevel++`, then past 1000 the cycle error on an identity already in ptrSeen, else its insertion; EnterRefSpec states it |
| Encoding.LeaveRef | encode.go:653-656 | the definition of the exit half: `ptrLevel--` and the deferred delete when the identity was recorded; LeaveUndoesEnter states that it undoes EnterRef |
| EncodingFacts.LeaveUndoesEnter | encode.go:653-656 | leaving restores ptrLevel and ptrSeen to their values before entering |
| EncodingFacts.ValueFrame | encode.go:321-401 | any encoder that returns normally leaves ptrLevel and ptrSeen as it found them, keeps the output mode, and in slice mode only appends |
| EncodingFacts.InterfaceFrame | encode.go:416-420 | the same for interfaceEncoder |
| EncodingFacts.PtrFrame | encode.go:640-657 | the same for ptrEncoder |
| EncodingFacts.MapFrame | encode.go:499-544 | the same for mapEncoder |
| EncodingFacts.SliceFrame | encode.go:561-585 | the same for sliceEncoder |
| EncodingFacts.ArrayFrame | encode.go:598-629 | the same for arrayEncoder |
| EncodingFacts.StructTypeFrame | encode.go:490-493 | the same for the encoder newStructEncoder builds |
| EncodingFacts.StructFrame | encode.go:434-488 | the same for structEncoder.encode |
| EncodingFacts.FieldsFrame | encode.go:461-484 | the same for structEncoder's field loop |
| EncodingFacts.FieldFrame | encode.go:465-483 | the same for one iteration of the field loop |
| EncodingFacts.ValueOneKey | encode.go:321-401 | an encoder called with a non-empty key and without inline writes at most that key: no other map key changes, and in slice mode at most one pair for that key is appended |
| EncodingFacts.PtrOneKey | encode.go:640-657 | the same for ptrEncoder |
| EncodingFacts.StructTypeOneKey | encode.go:490-493 | the same for a struct type's encoder |
| EncodingFacts.StructOneKey | encode.go:434-488 | the same for structEncoder.encode, which writes its nested result under its own key |
| EncodingFacts.MapOneKey | encode.go:499-544 | the same for mapEncoder |
| EncodingFacts.SliceOneKey | encode.go:561-585 | the same for sliceEncoder |
| EncodingFacts.ArrayOneKey | encode.go:598-629 | the same for arrayEncoder |
| EncodingFacts.PutOneKey | encode.go:252-266 | setKeyValue changes only its own key |
| EncodingFacts.FieldsWriteEmitted | encode.go:461-484 | in map mode the field loop changes only the keys of fields it emits, meaning fields whose path has no nil pointer and that are not omitempty-and-empty; FieldsWrite states what it writes there |
| EncodingFacts.StructSkipsField | encode.go:466-479 | a field whose path meets a nil pointer, or that is omitempty and empty, leaves its key as it was |
| EncodingFacts.StructOmitsSkippedField | encode.go:434-493 | the same for a struct type's value over the fields typeFields resolves for it |
| EncodingFacts.StructValue | encode.go:388-389 | a struct-typed value is encoded by structEncoder over typeFields' list |
| EncodingWrites.ValueWrites | encode.go:321-401 | an encoder under a non-empty key, without inline, fails exactly when it fails from an empty map with the same guard, with the same error; otherwise it puts under the key the one element Written that it writes there, and leaves the guard as it was |
| EncodingWrites.PrimitiveWritten | encode.go:408-414 | the element primitiveEncoder writes is v.Interface(), or the quoted form under the string option |
| EncodingWrites.PutAllFlat | encode.go:252-266 | in slice mode, setKeyValue over a list of pairs appends each key and its element in order, dropping nil elements |
| EncodingWrites.PutAllBinds | encode.go:252-266 | in map mode, setKeyValue over pairs with distinct keys binds each key to its element, or leaves it as it was for a nil element |
| EncodingWrites.SelectBinds | encode.go:252-266 | the same for the pairs a loop selects from names and elements |
| EncodingWrites.FieldWrite | encode.go:463-483 | one turn of the field loop, for a field with a non-empty name and not inline, puts under the field's name the element written for its value when the field is emitted, and changes nothing otherwise |
| EncodingWrites.FieldsWrite | encode.go:461-484 | the field loop, over non-empty names and no inline field, is setKeyValue in order over each emitted field's name and the element its type's encoder writes for its value |
| EncodingWrites.FieldWritesBind | encode.go:461-484 | over distinct names, those writes bind each emitted field's name to its element, or keep it for a nil element |
| EncodingWrites.FieldsNeedFuel | encode.go:461-484 | a field loop that emits some field cannot succeed without fuel |
| EncodingWrites.StructWritesField | encode.go:24-26 | structEncoder with key "" in map mode, over distinct non-empty names and no inline field, binds the name of each emitted field to the element written for the field's value, or keeps it for a nil element |
| EncodingWrites.StructWritesPrimitiveField | encode.go:24-26 | the same for a field of basic type: its name is bound to the field's value, or its quoted form under the string option |
| EncodingWrites.StructAppendsFields | encode.go:461-484 | structEncoder with key "" in slice mode appends each emitted field's name and element, in the order of the field list, skipping nil elements |
| EncodingWrites.StructWritesNested | encode.go:446-487 | structEncoder under a non-empty key, not inline and with fields, puts under the key one element: the list of the emitted fields' names and elements under structConvertToSlice, else the map those writes build |
| EncodingWrites.StructTypeWritesField | encode.go:490-493 | the encoder of a struct type with key "" in map mode binds each field typeFields resolves and the loop emits to its element, or keeps it for a nil element |
| EncodingWrites.StructTypeAppendsFields | encode.go:490-493 | the same in slice mode: the emitted fields' names and elements, in typeFields' order |
| EncodingWrites.MarshalStructKeyed | encode.go:24-26 | marshal of a struct with no embedded field, into a map: each emitted exported field's name is bound to the element written for its value |
| EncodingWrites.MarshalStructFlat | encode.go:24-26 | the same into a slice: each emitted exported field's name and element, in declaration order |
| EncodingWrites.EntriesWrite | encode.go:520-523 | mapEncoder's loop, over non-empty keys without inline, is setKeyValue in iteration order over each entry's key and the element written for its value |
| EncodingWrites.EntriesBind | encode.go:520-523 | over distinct keys, EntriesMap binds each entry's key to its element, lacks it for a nil element, and has no other key |
| EncodingWrites.MapWrites | encode.go:499-544 | mapEncoder on a non-nil map with non-empty keys, past the guard, puts under the key EntriesMap of the entries, as a plain map for struct elements and a map of the map's own type otherwise, and restores the guard |
| EncodingWrites.ElemsWrite | encode.go:599-607 | arrayEncoder's loop is setKeyValue over each position's Itoa and the element written for the item there |
| EncodingWrites.ElemsAppendPairs | encode.go:599-607 | when no element is nil, the nested list holds 2n entries: Itoa(q) at 2q, then item q's element |
| EncodingWrites.ArrayWrites | encode.go:598-629 | arrayEncoder succeeds only when no item's element is nil, and then puts under the key the array whose item q is the element written for item q; it fails with index-out-of-range when some element is nil, and with stack overflow without fuel |
| EncodingWrites.SliceWrites | encode.go:561-585 | sliceEncoder on a non-nil slice, past the guard, puts under the key the array of its elements' written elements, as a slice, and restores the guard |
| MarshalExample.ExampleFields | encode.go:727-932 | typeFields reports A and B, in that order, for `struct { A int; B string }` |
| MarshalExample.MarshalIntoMap | encode.go:24-26 | marshalling `{A: 23, B: "foobar"}` into an empty map gives {"A": 23, "B": "foobar"} |
| MarshalExample.MarshalIntoSlice | encode.go:24-26 | marshalling it into an empty slice gives ["A", 23, "B", "foobar"] |
| EncodeStates.EncodeState.Init | encode.go:189-217 | a new encodeState has the given output and mode, ptrLevel 0 and an empty ptrSeen |
| EncodeStates.EncodeState.NewEncodeState | encode.go:189-217 | newEncodeState returns a state exactly for a map, a slice, or a non-nil pointer to either; the state is fresh, valid, in map mode for a map and slice mode for a slice, at ptrLevel 0 with an empty ptrSeen; null stands for the panic on anything else |
| EncodeStates.EncodeState.SetKeyValue | encode.go:252-266 | setKeyValue changes the output as Put says and leaves the cycle guard alone |
| EncodeStates.NewNested | encode.go:446-459 | a nested state is fresh and valid, in the mode its seed value selects |
| EncodeStates.FollowFieldIndex | encode.go:465-475 | the walk along a field's index returns what FollowIndex says: the field's value, or nothing past a nil pointer |
| EncodeStates.EncodeWith | encode.go:338-401 | the encoder newTypeEncoder picks changes the state as the functional encoder says, and fails exactly when it fails, with the same error |
| EncodeStates.PrimitiveEncode | encode.go:408-414 | primitiveEncoder stores the value, quoted under the string option, as Primitive says |
| EncodeStates.InterfaceEncode | encode.go:416-420 | interfaceEncoder agrees with its function: nothing for nil, the dynamic value's encoder otherwise |
| EncodeStates.PtrEncode | encode.go:640-657 | ptrEncoder agrees with its function |
| EncodeStates.EnterGuard | encode.go:645-654 | `ptrLevel++` and the guarded ptrSeen lookup and insert agree with EnterRef; after success the guard is armed exactly when ptrLevel exceeds 1000 |
| EncodeStates.LeaveGuard | encode.go:653-656 | `ptrLevel--` and the deferred delete agree with LeaveRef |
| EncodeStates.MapEncode | encode.go:499-544 | mapEncoder agrees with its function, so MapWrites and EntriesBind say what it writes |
| EncodeStates.EncodeEntriesNested | encode.go:516-523 | the map's entries encoded into a fresh map-mode state give what the function gives |
| EncodeStates.MapResult | encode.go:525-543 | after the guard and the entries, mapEncoder stores the nested map under its key and restores the guard |
| EncodeStates.EncodeEntriesInto | encode.go:521-523 | the entry loop agrees with its function |
| EncodeStates.SliceEncode | encode.go:561-585 | sliceEncoder agrees with its function, so SliceWrites says what it writes |
| EncodeStates.ArrayEncode | encode.go:598-629 | arrayEncoder agrees with its function, so ArrayWrites says what it writes |
| EncodeStates.CollectItems | encode.go:620-622 | reading s[2i+1] for each of n elements succeeds exactly when the list holds 2n entries, and gives the values in order |
| EncodeStates.EncodeElemsNested | encode.go:599-607 | the elements encoded into a fresh slice-mode state give what the function gives |
| EncodeStates.StructTypeEncode | encode.go:490-493 | the encoder of a struct type agrees with its function over typeFields' list, so StructTypeWritesField and StructTypeAppendsFields say what it writes |
| EncodeStates.StructEncode | encode.go:434-488 | structEncoder.encode agrees with its function, so StructWritesField, StructAppendsFields and StructWritesNested say what it writes |
| EncodeStates.EncodeFieldsNested | encode.go:446-484 | the fields encoded into a fresh state give what the function gives |
| EncodeStates.FieldLoop | encode.go:461-484 | the field loop agrees with its function |
| EncodeStates.EncodeOneField | encode.go:463-483 | one iteration of the field loop agrees with its function |
| EncodeStates.Marshal | encode.go:235-245 | marshal agrees with its function: a nil interface is the invalid-value error, and anything else goes to its encoder with key ""; for a struct, MarshalStructKeyed and MarshalStructFlat say what it writes |
| CycleFinding.SelfFields | encode.go:727-932 | the resolver reports the single field P for `struct S { P *S }` |
| CycleFinding.FollowP | encode.go:465-475 | field P of the value at address 0 points back to address 0 |
| CycleFinding.PointerOverflowsAsWritten | encode.go:189-198 | as written, the encoder of field P starts every round at ptrLevel 0 and runs out of stack for every stack size |
| CycleFinding.SelfReferenceOverflows | encode.go:446-459 | as written, marshalling a struct that points to itself through a named field overflows the stack for every stack size |
| CycleFinding.PointerCycleShared | encode.go:645-654 | when nested states share the guard, field P's encoder reports the cycle once ptrLevel passes 1000 |
| CycleFinding.SelfReferenceIsCycle | encode.go:645-654 | with the shared guard, marshalling the self-referencing struct ends in the cycle error whenever the stack has room for 1001 rounds |
| DottedNames.Split | structof.go:68 | strings.Split on "." gives at least one piece |
| DottedNames.SplitPieces | structof.go:68 | no piece of the split holds a dot, and joining the pieces with dots gives the name back |
| DottedNames.SplitJoin | structof.go:68 | splitting the join of dot-free pieces gives the pieces back |
| DottedNames.JoinAt | structof.go:92-93 | a joined path is its first k pieces joined, a dot, then the rest joined |
| DottedNames.FirstDot | structof.go:68 | the first dot of a string lies at the position found, with no dot before it |
| FieldLookup.MatchesSound | structof.go:71 | every field found by name d levels down has an index of length d+1 that reaches a declared field of that name |
| FieldLookup.SearchFrom | structof.go:71 | a field found from depth d on is declared under that name, and its index is longer than d |
| FieldLookup.FieldByName | structof.go:71 | a field found by FieldByNameFunc is a declared field of that name, and its index leads to it |
| FieldLookup.SearchFromShallowest | structof.go:71 | the search from depth d finds f exactly when f is the only match at its depth and no depth in between has a match |
| FieldLookup.Shallowest | structof.go:71-74 | FieldByNameFunc finds f exactly when f is the only field of its name at the shallowest depth that has one; several there mean not found |
| FieldLookup.OwnMatches | structof.go:71 | at depth 0 the matches are the declared fields that carry the name |
| FieldLookup.Matches | structof.go:71 | the definition: the fields named n exactly d embedding steps down, in declaration order, each with its whole index path; MatchesSound and OwnMatches state what it holds |
| FieldLookup.OwnField | structof.go:71 | a declared name that no other declared field shares is found at its own position |
| FieldLookup.Absent | structof.go:72-74 | a name carried at no depth is not found |
| FieldHandles.WithinReplaced | structof.go:232 | after replacing the part at a path, the path reads the new part |
| FieldHandles.WithinApart | structof.go:232 | replacing the part at one path leaves a disjoint path's part unchanged |
| FieldHandles.ReadAfterWrite | structof.go:232 | a field written reads back the written value |
| FieldHandles.WriteElsewhere | structof.go:232 | a write leaves every other address, every disjoint path and the set of addresses unchanged |
| FieldHandles.FieldByIndexReaches | structof.go:99 | a successful FieldByIndexErr gives a stored location whose type is that of the declared field the index reaches |
| FieldHandles.FieldByIndexErr | structof.go:99 | the definition of reflect.Value.FieldByIndexErr: each step passes an embedded pointer, failing at a nil one, and moves into the declared field; FieldByIndexReaches and FieldByIndexErrors state what it returns |
| FieldHandles.ZeroIsEmpty | structof.go:236-238 | the zero value isEmptyValue reports as empty, except for structs, non-empty arrays and unsupported kinds |
| FieldHandles.ZeroStructShape | structof.go:236-238 | the zero value of a struct type has one zero field per declared field |
| FieldHandles.ZeroFields | structof.go:236-238 | the zero fields of a struct type are one per declared field, or none when one of them has no zero value |
| FieldHandles.ZeroValue | structof.go:236-238 | the definition of the zero value of a type: false, 0, "", nil, a struct of zero fields, an array of zero elements; ZeroIsEmpty and ZeroStructShape state its shape |
| FieldHandles.TagsIgnored | structof.go:231 | two struct types whose fields differ only in their tags convert to each other |
| FieldHandles.KindsExact | structof.go:229-231 | an int value is not of an int64 field's exact kind though both are integers, a function value is not of a channel field's kind, and a chan string value has a chan int field's kind but does not convert to it |
| FieldHandles.Memory.constructor | structof.go:12-15 | the memory holds the given types and heap |
| FieldHandles.Memory.Set | structof.go:227-233 | on the zero Field, a nil value gives the zero-Value error and any other value a kind mismatch; on a real field, a nil value or one whose exact reflect.Kind differs from the field's (int against int64, func against chan) is a kind mismatch; every failure leaves memory unchanged; Set succeeds exactly when the field addresses a stored value, the exact kinds agree and the value converts to the field's type, and then the field reads back the value and nothing else changes |
| FieldHandles.Memory.SetZero | structof.go:236-238 | on the zero Field SetZero fails with the zero-Value error and changes nothing; otherwise it succeeds exactly when the field addresses a stored value and its type has a zero value, stores that zero value in the field and changes nothing else |
| FieldHandles.Convertible | structof.go:231 | the definition of what reflect.Value.Convert accepts between types of one exact kind: booleans, numbers, strings, complex numbers and unsafe.Pointer always; other types with the same underlying type, tags aside, channel and function types only as the same type; unnamed pointers whose base types have the same underlying type, tags aside; TagsIgnored and KindsExact state cases of it |
| Navigation.FieldByName | structof.go:65-104 | the loop of Struct.FieldByName returns what the walk over the dotted path gives, followed by FieldByIndexErr |
| Navigation.WalkSegments | structof.go:70-96 | the segment loop of Struct.FieldByName ends as the walk over the segments does: the recorded index and last field, or the walk's error |
| Navigation.FieldByNameSpec | structof.go:65-104 | the definition of what Struct.FieldByName returns: the segment walk's error, or FieldByIndexErr's error along the recorded index, or a handle on the location reached with the last segment's field and the recorded index; FieldByNameSegments and FieldByNameErrors state what it holds |
| Navigation.Walk | structof.go:69-97 | the definition of the segment loop: each segment is looked up by name in the current struct type, must be exported, records its field's first index entry, and, except for the last, must lead past at most one pointer to a struct type; WalkOk and WalkErrors state what it returns |
| Navigation.WalkOk | structof.go:69-97 | a successful walk keeps the entries recorded so far and records one more per segment: entry k is the first index entry of the exported field FieldByNameFunc finds for segment k in the struct type the segments before k lead to, every such type but the first is a struct, and the walk ends at the field found for the last segment, exported and named like it |
| Navigation.WalkErrors | structof.go:69-95 | the walk fails only with not found or not exported, naming the whole path, or with not-a-struct, naming the path up to the failing segment |
| Navigation.FieldByNameSegments | structof.go:68-103 | on success the handle's index has one entry per segment, entry k being the first index entry of the exported field found for segment k in the struct type the earlier segments lead to (`index[i] = sf.Index[0]`), and the handle's field is the field found for the last segment, exported and named like it |
| Navigation.FieldByNameErrors | structof.go:72-101 | not found and not exported name the whole path; not-a-struct names a prefix that a dot and the rest of the path follow; any other error is a nil embedded pointer on the path |
| Navigation.FieldByIndexErrors | structof.go:99-102 | FieldByIndexErr fails only on a nil embedded pointer or on memory that does not fit the types |
| Navigation.FieldByNameOwn | structof.go:69-103 | a plain name declared once in the struct gives a handle on that very field when it is exported, and "not exported" otherwise |
| Navigation.FieldByNameMissing | structof.go:72-74 | a name whose first segment names no field at any depth is "not found" with the whole name |
| Navigation.FieldAtConcat | structof.go:82 | following one path and then another is following their concatenation |
| Navigation.StepFull | structof.go:82 | a promoted field's whole path, appended to the path so far, reaches that field from the root |
| Navigation.WalkFullReaches | structof.go:69-97 | with whole paths recorded, the index reaches the returned field from the root |
| Navigation.FullIndexAddressesField | structof.go:82-103 | with whole paths recorded, the handle's index reaches the field it describes, and its location stores a value of that field's type |
| Navigation.PromotedLookup | structof.go:71 | in `struct Outer { Inner }` with `struct Inner { A int }` the lookup of A finds the promoted A at index [0, 0] |
| Navigation.PromotedFieldMisplaced | structof.go:82 | as written, FieldByName("A") gives a handle describing the int field A while addressing the embedded struct Inner; with whole paths recorded it addresses A |
| Navigation.PromotedReads | structof.go:99 | in that example FieldByIndexErr follows [0] to Inner and [0, 0] to A |
| Navigation.Target | structof.go:157-161 | Fields succeeds only on a non-nil pointer to a struct, and then works on the pointed-to struct |
| Navigation.Attempts | structof.go:166-175 | there is one attempt per resolved field |
| Navigation.Attempt | structof.go:169-173 | the definition of one loop iteration: no handle when FieldByIndexErr fails, else a handle on the location with the declared field the index reaches and the resolved index; AttemptShape states it |
| Navigation.KeptSnoc | structof.go:166-175 | one more loop iteration appends its handle, if any, to the kept ones |
| Navigation.KeptBound | structof.go:166-177 | Fields returns no more handles than there are resolved fields |
| Navigation.KeptMembers | structof.go:166-177 | a handle is returned exactly when it was made for some resolved field |
| Navigation.KeptOrdered | structof.go:166-177 | the handles keep the order of the fields they were made for |
| Navigation.ResolvedDeclared | structof.go:164-174 | every resolved field's index names a declared field, so Type.FieldByIndex has an answer |
| Navigation.ResolvedWell | structof.go:164-174 | the resolved fields are declared, visible, not tagged "-", in index order, and have pairwise distinct indices |
| Navigation.AttemptShape | structof.go:169-173 | a handle made for a field has that field's index and declaration, and addresses a stored value of its type |
| Navigation.KeptContents | structof.go:166-177 | over a well-resolved list, the kept handles are bounded, ordered, made for resolved fields, and absent for fields whose path fails |
| Navigation.PlaceAtOwn | structof.go:166-177 | the as-written loop puts each handle in the slot of its own field's position and counts the handles |
| Navigation.FieldsAsWritten | structof.go:156-178 | Fields as written returns the attempts at their own positions, cut to their number |
| Navigation.FieldsAsWrittenSpec | structof.go:156-178 | the definition of Fields as written: the attempts filled into zero Fields at their own positions, cut to the number made; FieldsAsWrittenAgrees states when it is the intended result |
| Navigation.PlaceInOrder | structof.go:166-177 | the corrected loop writes each handle to the next free slot, so the first j slots are the kept handles |
| Navigation.Fields | structof.go:156-178 | (corrected; see Findings) Fields returns exactly the handles made, in the resolved order; each handle's index is the resolved field's whole index, where Go's `typ.FieldByIndex(f.index).Index` holds only the last step |
| Navigation.FieldsSpec | structof.go:156-178 | the definition of the corrected Fields: the handles made, in the resolved order; FieldsContents states what they are |
| Navigation.NoneKept | structof.go:166-177 | when no handle is kept, every attempt failed |
| Navigation.FailuresLastTail | structof.go:166-177 | "no failure before a success" holds exactly when it holds for the tail and a failing first attempt means that all attempts fail |
| Navigation.AsWrittenAgrees | structof.go:173 | writing to the field's own slot gives the intended result exactly when no dropped field comes before a kept one; otherwise a zero Field takes a kept handle's place |
| Navigation.FieldsContents | structof.go:156-178 | Fields' handles are bounded by the resolved fields, in index order, each made for a resolved field that is visible and not tagged "-", each addressing a stored value of its field's type; a field whose path hits a nil pointer has no handle |
| Navigation.AttemptsNonEmpty | structof.go:169-173 | every handle made has a non-empty index, so none equals the zero Field |
| Navigation.FieldsAsWrittenAgrees | structof.go:173 | for any struct, Fields as written equals the intended Fields exactly when no dropped field precedes a kept one |
| Navigation.FieldNames | structof.go:53-61 | Struct.FieldNames returns the resolved names in the resolved order, one per resolved field, and no name twice |
| Navigation.NamesOf | structof.go:55-59 | the copy loop of FieldNames gives one name per resolved field, in order |

## Left out

- The caches: `encoderCache`, `fieldCache` and the `encodeStatePool` are not modelled. `cachedTypeFields` is a pure function over an explicit cache, and `typeEncoder` is `newTypeEncoder` applied directly. The pool's check that `ptrSeen` is empty is covered instead by the proof that every encoder restores the guard.
- Concurrency (`sync.Map`, `sync.Pool`) is not modelled.
- The structtag parser is not part of this model. A field's tag arrives parsed, with its name, its options, and whether it is exactly "-".
- The `IsZero() bool` hook of `isEmptyValue` is not modelled. Method sets are outside the type model, so emptiness is decided by kind alone.
- Formatting is not modelled. `strconv.Quote(fmt.Sprint(v))` is an abstract constructor `Quoted(ty, v)`, and `v.Interface()` is `Native(ty, v)`.
- Floating point and integer widths are not modelled in values: every number is an unbounded integer (`VNum`). A type's exact kind records its width (int through int64, uint through uint64, uintptr, float32 and float64), and Field.Set's kind check compares it, so Set never converts a number to another width.
- Encoding.EncodeMap: the output map of a non-struct element type is built without the assignability check of `reflect.Value.SetMapIndex` (encode.go:536-538). Go panics there when the encoded element is not assignable to the map's element type, for example for `map[string]*int` with a non-nil value (the element is encoded as an int), or for `map[K]int` with `type K string` (a string key is not a K). The model returns the map.
- EncodeStates.MapEncode: the same assignability panic is not modelled, because the method agrees with Encoding.EncodeMap.
- Encoding.EncodeArray: the output array is filled without the assignability check of `a.Index(i).Set` (encode.go:620-622). Go panics there when an encoded element is not assignable to the array's element type, for example for `[]*int` with a nil element (a nil `*int` goes into an int array), or for `[][]S` and `[]map[string]S` with a struct type S (the inner encoder produces `[]any` or `map[string]any`). The model returns the array.
- Encoding.EncodeSlice: the same assignability panic is not modelled, because the slice encoder goes through Encoding.EncodeArray.
- EncodeStates.SliceEncode: the same, because the method agrees with Encoding.EncodeSlice.
- EncodeStates.ArrayEncode: the same, because the method agrees with Encoding.EncodeArray.
- Promotion.TypeFieldsPromoted: completeness is proved for fields promoted one embedding level down, through an embedded struct that no other field of the root embeds. Fields promoted from deeper levels, or through a struct embedded twice, are not proved to be resolved fields. TypeFieldsDominant still decides which candidates survive, at every depth.
- EncodingWrites.ValueWrites: what an encoder writes is stated only under a non-empty key and without the inline option. With the key "" or inline, a struct's fields spill into the enclosing output, and only the frame lemmas (ValueFrame, FieldsFrame) describe that case.
- EncodingWrites.StructWritesField: the binding of each field's name is stated for fields with distinct, non-empty names, none inline. typeFields always gives distinct names (TypeFieldsNamesDistinct). A field tagged with an inline option, or an empty name, writes its own value's fields into the same map, which these lemmas do not describe.
- EncodingWrites.MarshalStructKeyed: the end-to-end statement over declared fields covers only structs without embedded fields, where typeFields' list is the exported declared fields in order (TypeFieldsNoEmbedding). For embedded fields it goes through StructTypeWritesField over the resolved list.
- EncodingWrites.EntriesBind: the entries are required to have distinct keys. A Go map's keys are always distinct, but a map cell in this model is a list of entries.
- EncodingWrites.MapWrites: the written map is stated for non-empty keys only. An entry with the key "" and a struct element writes that struct's fields straight into the nested map.
- EncodingWrites.ValueWrites: the pointer and interface encoders have no lemma of their own. What they write is the element Written of their target, through ValueWrites.
- Map iteration order is random in Go. Here a map cell stores its entries in the order the iterator yields them.
- Aliasing of Go maps and slices inside the output is not modelled. The output is a value.
- Panics become `Err` results, and the recover in `marshal` is the propagation of that result.
- The goroutine stack is the `fuel` parameter. The encoder's `StackOverflow` error stands for Go's fatal stack overflow.
- `unicode.IsLetter` and `unicode.IsDigit` are parameters (`Tags.RuneTable`). Only `ReservedCharactersRejected` assumes what the Unicode tables say about the quote, the backslash and the comma.
- `sort.Slice` and `sort.Sort` are an insertion sort. It is proved to be a permutation that is sorted under a strict weak order. Where the Go sort's tie order could differ, the compaction and the strictly ordered final sort make the result independent of it.
- `Malformed` is the error for memory that does not fit the type table, which Go's types rule out.
- FieldLookup.SearchFrom: reflect's FieldByNameFunc searches breadth first while skipping types already visited. The model searches depth by depth up to the number of types in the table. The two agree because a shallowest match is reached through pairwise distinct struct types. That argument is not proved.
- FieldHandles.Convertible: component types are compared by their identity in the type table. Two distinct entries that both describe the same unnamed type, such as two separate `[]int` entries, make structs that Go would convert count as not convertible. Slice-to-array conversion needs no case, because Set's exact-kind check (structof.go:229-230) rejects a slice stored into an array field before conversion is considered. Channel and function types record neither their element types nor their signatures, so two of them convert only when they are the same table entry. Go also converts two distinct entries for the same channel or function type.
- FieldHandles.Memory.Set: `CanSet` is not modelled. Go refuses a write through a field reached via an unexported embedded struct, and the model does not.
- FieldHandles.Memory.Set: the value's type is taken as given. In Go, `reflect.ValueOf` never yields the interface kind, so `Set` on an interface-typed field always fails the kind check. The model reproduces this only for callers that pass the value's dynamic type.
- FieldHandles.ZeroValue: the zero value is built to a depth bound of one more than the number of types. An array of structs nested deeper than that has no zero value in the model, and SetZero then fails with `Malformed`.
- Navigation.Fields: every error of `FieldByIndexErr` skips the field, as in the source. The model does not distinguish a nil embedded pointer from other errors there.
- The thin wrappers are not modelled: `MakeStruct`, `IsStruct`, `TypeName`, `IsZero`, `Struct.Name`, the package-level `FieldNames`, and the `Field.Tag`, `Interface`, `IsEmbedded`, `IsZero`, `Name`, `Type` and `Kind` accessors. Each one is a single reflect call.
- The input checks of `FillMap`, `MakeMap` and `MakeSlice`, and the `Struct` methods that forward to them, are not modelled. Their core is the encoder, which is modelled through `Marshal`.

## Findings

| source | as written | input that shows it | evidently intended | confidence | as-written member | corrected member |
|---|---|---|---|---|---|---|
| structof.go:173 | Fields stores each handle at `fs[i]`, the position of the field in the resolved list, then returns `fs[:j]` | `type E struct{ A int }; type T struct{ *E; B int }` with the `E` pointer nil: A is dropped, and the result is one zero `Field` instead of B's handle | store at `fs[j]`, so the result is the handles made, in order | not executed | Navigation.FieldsAsWritten, Navigation.FieldsAsWrittenAgrees | Navigation.Fields, Navigation.FieldsContents |
| encode.go:446-459 | every nested encodeState (the struct, map and array encoders' own states) starts at ptrLevel 0 with an empty ptrSeen, so a cycle through a named struct field never reaches the 1000-level threshold | `type S struct{ P *S }` with `s.P = &s`, passed to MakeMap | nested states inherit the guard, so that the cycle is reported as an error | not executed | CycleFinding.SelfReferenceOverflows | CycleFinding.SelfReferenceIsCycle |
| structof.go:82 | FieldByName records only `sf.Index[0]` for each segment, so a promoted field's handle addresses the embedding field | `type Inner struct{ A int }; type Outer struct{ Inner }`, `FieldByName("A")`: the handle describes A but addresses Inner, and `Set(23)` on it panics with a kind mismatch | record the whole `sf.Index` of each segment | not executed | Navigation.PromotedFieldMisplaced | Navigation.FullIndexAddressesField |
