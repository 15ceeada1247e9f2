/**
  Go's runtime types and values as the encoder and the resolver see them.

  A program's types form a table from type identities to descriptors, so that a struct can embed
  or point to itself.  Values are trees; pointers, slices and maps refer to heap cells through
  addresses, which lets a value graph contain cycles.
 */
module GoTypes {
  import opened Wrappers

  type TypeId = nat
  type Addr = nat

  /** reflect.Kind, with the kinds the encoder treats alike merged: all widths of a number, and every kind it does not support. */
  datatype Kind = Bool | Int | Uint | Float | String | Interface | Struct | Map | Slice | Array | Pointer | Unsupported

  /** The size of an integer kind; Word is the platform word of int and uint. */
  datatype IntSize = Word | Bits8 | Bits16 | Bits32 | Bits64

  /** The exact reflect.Kind of a boolean, number or string type; SFloat(true) is float64. */
  datatype ScalarKind = SBool | SInt(size: IntSize) | SUint(size: IntSize) | SUintptr | SFloat(wide: bool) | SString

  /** The exact reflect.Kind of a type the model does not look into; Invalid is an identity outside the table. */
  datatype OpaqueKind = Chan | Func | Complex64 | Complex128 | UnsafePointer | Invalid

  datatype Shape =
    | Scalar(scalar: ScalarKind)
    | StructOf(fields: seq<StructField>)
    | PointerTo(elem: TypeId)
    | SliceOf(elem: TypeId)
    | ArrayOf(elem: TypeId, len: nat)
    | MapOf(key: TypeId, elem: TypeId)
    | InterfaceType
    | Other(hidden: OpaqueKind)

  /** `named` is whether reflect.Type.Name() is non-empty (a defined type). */
  datatype TypeDesc = TypeDesc(named: bool, shape: Shape)

  /**
    The "structof" entry of a field's tag, as the tag parser delivers it: `dash` is the tag being
    exactly "-", `name` the name part and `options` the comma-separated options.
   */
  datatype Tag = Tag(dash: bool, name: string, options: set<string>)

  const NoTag := Tag(false, "", {})

  /** One declared field, as reflect.StructField describes it. */
  datatype StructField = StructField(name: string, exported: bool, anonymous: bool, tag: Tag, ty: TypeId)

  type TypeTable = map<TypeId, TypeDesc>

  /** The descriptor of `t`; an identity outside the table reads as an unsupported type. */
  function Desc(types: TypeTable, t: TypeId): TypeDesc {
    if t in types then types[t] else TypeDesc(false, Other(Invalid))
  }

  function KindOf(types: TypeTable, t: TypeId): (k: Kind)
    ensures k == Struct ==> t in types
  {
    match Desc(types, t).shape
    case Scalar(s) =>
      (match s case SBool => Bool case SInt(_) => Int case SUint(_) => Uint case SUintptr => Uint case SFloat(_) => Float case SString => String)
    case StructOf(_) => Struct
    case PointerTo(_) => Pointer
    case SliceOf(_) => Slice
    case ArrayOf(_, _) => Array
    case MapOf(_, _) => Map
    case InterfaceType => Interface
    case Other(_) => Unsupported
  }

  /** reflect.Kind itself: the exact kind of a scalar or opaque type, the merged kind, which is exact, of any other. */
  datatype ExactKind = ScalarKindOf(scalar: ScalarKind) | OpaqueKindOf(hiddenKind: OpaqueKind) | ComposedKind(kind: Kind)

  /** reflect.Type.Kind(), which Field.Set compares. */
  function ReflectKind(types: TypeTable, t: TypeId): ExactKind {
    match Desc(types, t).shape
    case Scalar(s) => ScalarKindOf(s)
    case Other(o) => OpaqueKindOf(o)
    case _ => ComposedKind(KindOf(types, t))
  }

  /** Types of the same exact kind have the same merged kind. */
  lemma ExactKindRefines(types: TypeTable, a: TypeId, b: TypeId)
    ensures ReflectKind(types, a) == ReflectKind(types, b) ==> KindOf(types, a) == KindOf(types, b)
  {
  }

  function Named(types: TypeTable, t: TypeId): bool {
    Desc(types, t).named
  }

  /** The declared fields of a struct type; no fields for any other type. */
  function FieldsOf(types: TypeTable, t: TypeId): seq<StructField> {
    match Desc(types, t).shape
    case StructOf(fs) => fs
    case _ => []
  }

  /** reflect.Type.Elem() for pointer, slice, array and map types; the type itself otherwise. */
  function Elem(types: TypeTable, t: TypeId): TypeId {
    match Desc(types, t).shape
    case PointerTo(e) => e
    case SliceOf(e) => e
    case ArrayOf(e, _) => e
    case MapOf(_, e) => e
    case _ => t
  }

  /** `if t.Kind() == reflect.Pointer { t = t.Elem() }` */
  function Deref(types: TypeTable, t: TypeId): TypeId {
    if KindOf(types, t) == Pointer then Elem(types, t) else t
  }

  /** Runtime values.  Every integer and floating-point kind is kept abstract as an integer. */
  datatype Value =
    | VBool(b: bool)
    | VNum(n: int)
    | VStr(s: string)
    | VStruct(fields: seq<Value>)
    | VArray(elems: seq<Value>)
    | VPtr(ptr: Option<Addr>)      // nil, or the address of an Obj cell
    | VSlice(arr: Option<Addr>)    // nil, or the address of the Backing cell holding the slice's elements
    | VMap(tbl: Option<Addr>)      // nil, or the address of the map's Table cell
    | VIface(dyn: Option<Dyn>)     // nil interface, or its dynamic type and value
    | VOpaque                      // channels, functions, complex numbers

  datatype Dyn = Dyn(ty: TypeId, v: Value)

  datatype Cell =
    | Obj(v: Value)
    | Backing(elems: seq<Value>)
    | Table(entries: seq<(string, Value)>)  // in the order the map iterator yields them

  type Heap = map<Addr, Cell>

  /** The number of constructors in a value tree; values reached through the heap are not counted. */
  function Size(v: Value): (n: nat)
    ensures n >= 1
  {
    match v
    case VStruct(fs) => 1 + SizeAll(fs)
    case VArray(es) => 1 + SizeAll(es)
    case VIface(Some(d)) => 1 + Size(d.v)
    case _ => 1
  }

  function SizeAll(vs: seq<Value>): nat {
    if vs == [] then 0 else Size(vs[0]) + SizeAll(vs[1..])
  }

  lemma {:induction false} SizeAllElement(vs: seq<Value>, i: nat)
    requires i < |vs|
    ensures Size(vs[i]) <= SizeAll(vs)
  {
    if i > 0 { SizeAllElement(vs[1..], i - 1); }
  }
}
