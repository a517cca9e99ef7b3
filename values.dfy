/** The values a YADIL message holds, and the type tags that select them. */
module Values {
  import opened Bytes
  import opened Errors

  /** `Value`. A `String` keeps the UTF-8 bytes that Rust's `String` owns.
      A `Float` keeps the literal bytes the float decoder accepted, standing
      for the `f64` the original accumulates from them. `List` and `Map`
      are declared as in the original but never produced. */
  datatype Value =
    | String(text: Bytes)
    | Unsigned(n: nat)
    | Signed(i: int)
    | Float(literal: Bytes)
    | Bool(b: bool)
    | List(items: seq<Value>)
    | Map(entries: map<Bytes, Value>)

  /** One `type@ident=value;` assignment. */
  datatype Assign = Assign(ident: Bytes, value: Value)

  /** The parsed message: identifier to value. */
  datatype Message = Message(body: map<Bytes, Value>)

  /** The data types a tag can name. */
  datatype DataType = StrType | UintType | SintType | FloatType | BoolType | ListType | MapType {
    predicate IsScalar() {
      !ListType? && !MapType?
    }
  }

  /** `Parser::DATA_TYPE_START_BYTES`: s, u, i, f, b, l, m. */
  const DATA_TYPE_START_BYTES: seq<Byte> := [0x73, 0x75, 0x69, 0x66, 0x62, 0x6C, 0x6D]

  /** Every data type, in the order of `DATA_TYPE_START_BYTES`. */
  const DATA_TYPES: seq<DataType> := [StrType, UintType, SintType, FloatType, BoolType, ListType, MapType]

  /** The one-byte spelling of a tag. */
  function ShortTag(t: DataType): Bytes {
    [DATA_TYPE_START_BYTES[TypeRank(t)]]
  }

  /** The long spelling of a tag. */
  function LongTag(t: DataType): Bytes {
    match t
    case StrType => [0x73, 0x74, 0x72]              // str
    case UintType => [0x75, 0x69, 0x6E, 0x74]       // uint
    case SintType => [0x73, 0x69, 0x6E, 0x74]       // sint
    case FloatType => [0x66, 0x6C, 0x6F, 0x61, 0x74] // float
    case BoolType => [0x62, 0x6F, 0x6F, 0x6C]       // bool
    case ListType => [0x6C, 0x69, 0x73, 0x74]       // list
    case MapType => [0x6D, 0x61, 0x70]              // map
  }

  /** The data type a tag spells, short or long; `None` for any other tag.
      The match arms of `parse_assign_start` are tried in order. */
  function TypeOf(tag: Bytes): (t: Option<DataType>)
    ensures t.Some? ==> tag == ShortTag(t.value) || tag == LongTag(t.value)
    ensures t.None? ==> forall d: DataType :: tag != ShortTag(d) && tag != LongTag(d)
  {
    TypeAmong(tag, 0)
  }

  /** The first data type from position `k` of `DATA_TYPES` on that `tag`
      spells. */
  function TypeAmong(tag: Bytes, k: nat): (t: Option<DataType>)
    ensures t.Some? ==> tag == ShortTag(t.value) || tag == LongTag(t.value)
    ensures t.None? ==> forall j :: k <= j < |DATA_TYPES| ==>
      tag != ShortTag(DATA_TYPES[j]) && tag != LongTag(DATA_TYPES[j])
    decreases |DATA_TYPES| - k
  {
    if k >= |DATA_TYPES| then None
    else if tag == ShortTag(DATA_TYPES[k]) || tag == LongTag(DATA_TYPES[k]) then Some(DATA_TYPES[k])
    else TypeAmong(tag, k + 1)
  }

  /** Both spellings of every data type are recognised as that type, so
      with the contract of `TypeOf` a tag names `t` exactly when it is one
      of the two spellings of `t`. */
  lemma TypeOfSpellings(t: DataType)
    ensures TypeOf(ShortTag(t)) == Some(t)
    ensures TypeOf(LongTag(t)) == Some(t)
  {
    match t
    case StrType =>
    case UintType =>
    case SintType =>
    case FloatType =>
    case BoolType =>
    case ListType =>
    case MapType =>
  }

  /** Position of a data type's short tag in `DATA_TYPE_START_BYTES`. */
  function TypeRank(t: DataType): (k: nat)
    ensures k < |DATA_TYPES| && DATA_TYPES[k] == t
  {
    match t
    case StrType => 0
    case UintType => 1
    case SintType => 2
    case FloatType => 3
    case BoolType => 4
    case ListType => 5
    case MapType => 6
  }
}
