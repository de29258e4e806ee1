/** The schema language of packages/bcs/src/bcs.ts and bcs-type.ts: what each combinator writes and
    reads, as functions from values to bytes and back. */
module BcsSchema {
  import opened Octets
  import opened Uleb
  import opened Numbers
  import opened Results

  /** A JavaScript value, as far as the codecs tell values apart. The entries of an object are in
      enumeration order; integers stand for numbers. */
  datatype Value =
    | Undefined
    | Null
    | Boolean(b: bool)
    | Number(n: int)
    | Text(text: string)
    | ByteArray(bytes: seq<Byte>)
    | List(items: seq<Value>)
    | Obj(entries: seq<(string, Value)>)
    | MapValue(pairs: seq<(Value, Value)>)

  /** A schema. A lazy schema names an entry of an environment, so schemas may be recursive. */
  datatype Schema =
    | U8 | U16 | U32
    | U64 | U128 | U256
    | Bool
    | Uleb128
    | Bytes(size: nat)
    | ByteVector
    | StringLike(toBytes: string -> seq<Byte>, fromBytes: seq<Byte> -> string)
    | FixedArray(size: nat, element: Schema)
    | Vector(element: Schema)
    | Tuple(types: seq<Schema>)
    | Struct(fields: seq<(string, Schema)>)
    | Enum(variants: seq<(string, Option<Schema>)>)
    | Transform(inner: Schema, input: Value -> Value, output: Value -> Value)
    | Lazy(name: string)

  type Environment = map<string, Schema>

  datatype BcsError =
    | TypeMismatch        // a value of the wrong type or length
    | ValueOutOfRange     // a number that does not fit
    | OneKeyExpected      // an enum value without exactly one variant
    | UnknownVariant      // an index without a variant
    | ReadOutOfRange      // reading outside the data
    | Unresolved          // a lazy schema that does not exist, or more unfoldings than allowed

  // ---------- Conversions that the source leaves to JavaScript ----------

  /** The number a DataView setter stores for a value; undefined becomes NaN, which stores zero. */
  function AsNumber(v: Value): Option<int> {
    match v
    case Number(n) => Some(n)
    case Undefined => Some(0)
    case Null => Some(0)
    case Boolean(b) => Some(if b then 1 else 0)
    case _ => None
  }

  /** BigInt of a number, a boolean or a text of decimal digits. */
  function AsBigInt(v: Value): Option<int> {
    match v
    case Number(n) => Some(n)
    case Boolean(b) => Some(if b then 1 else 0)
    case Text(text) => (match FromText(text, 10) case Some(n) => Some(n) case None => None)
    case _ => None
  }

  /** new Uint8Array of a byte array or of a list of numbers, which keeps the low byte of each. */
  function AsBytes(v: Value): Option<seq<Byte>> {
    match v
    case ByteArray(bytes) => Some(bytes)
    case List(items) => NumbersAsBytes(items)
    case _ => None
  }

  function NumbersAsBytes(items: seq<Value>): Option<seq<Byte>> {
    if items == [] then Some([])
    else
      match (AsNumber(items[0]), NumbersAsBytes(items[1..]))
      case (Some(n), Some(rest)) => Some([n % 256] + rest)
      case _ => None
  }

  /** The items of a value that is iterable and has a length. */
  function Items(v: Value): Option<seq<Value>> {
    match v
    case List(items) => Some(items)
    case ByteArray(bytes) => Some(seq(|bytes|, i requires 0 <= i < |bytes| => Number(bytes[i])))
    case _ => None
  }

  predicate IsObject(v: Value) {
    v.Obj? || v.List? || v.ByteArray? || v.MapValue?
  }

  function Entries(v: Value): seq<(string, Value)> {
    if v.Obj? then v.entries else []
  }

  /** Property access. */
  function Lookup(entries: seq<(string, Value)>, name: string): Value {
    if entries == [] then Undefined
    else if entries[0].0 == name then entries[0].1
    else Lookup(entries[1..], name)
  }

  // ---------- Enums ----------

  function IndexOf(variants: seq<(string, Option<Schema>)>, name: string): (i: nat)
    ensures i <= |variants|
    ensures i < |variants| ==> variants[i].0 == name
    ensures forall j :: 0 <= j < i ==> variants[j].0 != name
  {
    if variants == [] then 0
    else if variants[0].0 == name then 0
    else 1 + IndexOf(variants[1..], name)
  }

  predicate HasVariant(variants: seq<(string, Option<Schema>)>, name: string) {
    IndexOf(variants, name) < |variants|
  }

  /** The number of entries that name a variant and are not undefined: what validate counts. */
  function DefinedKeys(variants: seq<(string, Option<Schema>)>, entries: seq<(string, Value)>): nat {
    if entries == [] then 0
    else
      var rest := DefinedKeys(variants, entries[1..]);
      if entries[0].1 != Undefined && HasVariant(variants, entries[0].0) then 1 + rest else rest
  }

  /** The first entry that names a variant, defined or not: what write encodes. */
  function ChosenEntry(variants: seq<(string, Option<Schema>)>, entries: seq<(string, Value)>)
    : Option<(string, Value)>
  {
    if entries == [] then None
    else if HasVariant(variants, entries[0].0) then Some(entries[0])
    else ChosenEntry(variants, entries[1..])
  }

  /** What read builds: the payload under the variant's name, true standing in for null and undefined. */
  function EnumValue(kind: string, payload: Value): Value {
    var p := if payload == Null || payload == Undefined then Boolean(true) else payload;
    if kind == "$kind" then Obj([("$kind", Text(kind))]) else Obj([(kind, p), ("$kind", Text(kind))])
  }

  // ---------- Writing ----------

  function SmallSize(schema: Schema): nat {
    match schema
    case U8 => 1
    case U16 => 2
    case _ => 4
  }

  function BigSize(schema: Schema): nat {
    match schema
    case U64 => 8
    case U128 => 16
    case _ => 32
  }

  function EncodeNumber(n: Option<int>, size: nat): Result<seq<Byte>, BcsError> {
    match n
    case None => Failure(TypeMismatch)
    case Some(n) => if n < 0 || n >= Pow256(size) then Failure(ValueOutOfRange) else Success(LittleEndian(n, size))
  }

  function WithLength(bytes: seq<Byte>): seq<Byte> {
    UlebEncode(|bytes|) + bytes
  }

  /** The schemas that contain no others. */
  predicate Leaf(schema: Schema) {
    match schema
    case FixedArray(_, _) => false
    case Vector(_) => false
    case Tuple(_) => false
    case Struct(_) => false
    case Enum(_) => false
    case Transform(_, _, _) => false
    case Lazy(_) => false
    case _ => true
  }

  function EncodeLeaf(schema: Schema, v: Value): Result<seq<Byte>, BcsError>
    requires Leaf(schema)
  {
    match schema
    case U8 | U16 | U32 => EncodeNumber(AsNumber(v), SmallSize(schema))
    case U64 | U128 | U256 => EncodeNumber(AsBigInt(v), BigSize(schema))
    case Bool => if v.Boolean? then Success([if v.b then 1 else 0]) else Failure(TypeMismatch)
    case Uleb128 => if v.Number? then Success(UlebEncode(v.n)) else Failure(TypeMismatch)
    case Bytes(size) =>
      (match AsBytes(v)
       case None => Failure(TypeMismatch)
       case Some(bytes) => if |bytes| != size then Failure(TypeMismatch) else Success(bytes))
    case ByteVector =>
      (match AsBytes(v)
       case None => Failure(TypeMismatch)
       case Some(bytes) => Success(WithLength(bytes)))
    case StringLike(toBytes, _) => if v.Text? then Success(WithLength(toBytes(v.text))) else Failure(TypeMismatch)
  }

  function Encode(env: Environment, fuel: nat, schema: Schema, v: Value): Result<seq<Byte>, BcsError>
    decreases fuel, schema, 0
  {
    match schema
    case FixedArray(size, element) =>
      (match Items(v)
       case None => Failure(TypeMismatch)
       case Some(items) => if |items| != size then Failure(TypeMismatch) else EncodeItems(env, fuel, element, items))
    case Vector(element) =>
      (match Items(v)
       case None => Failure(TypeMismatch)
       case Some(items) =>
         var bytes :- EncodeItems(env, fuel, element, items);
         Success(UlebEncode(|items|) + bytes))
    case Tuple(types) =>
      if !v.List? || |v.items| != |types| then Failure(TypeMismatch) else EncodeTuple(env, fuel, types, v.items)
    case Struct(fields) =>
      if !IsObject(v) then Failure(TypeMismatch) else EncodeFields(env, fuel, fields, Entries(v))
    case Enum(variants) =>
      if !IsObject(v) then Failure(TypeMismatch)
      else if DefinedKeys(variants, Entries(v)) != 1 then Failure(OneKeyExpected)
      else
        (match ChosenEntry(variants, Entries(v))
         case None => Failure(OneKeyExpected)
         case Some((name, payload)) =>
           var i := IndexOf(variants, name);
           if i >= |variants| then Failure(UnknownVariant)
           else
             var bytes :- EncodePayload(env, fuel, variants[i], payload);
             Success(UlebEncode(i) + bytes))
    case Transform(inner, input, _) => Encode(env, fuel, inner, input(v))
    case Lazy(name) =>
      if fuel == 0 || name !in env then Failure(Unresolved) else Encode(env, fuel - 1, env[name], v)
    case _ => EncodeLeaf(schema, v)
  }

  function EncodePayload(env: Environment, fuel: nat, variant: (string, Option<Schema>), payload: Value)
    : Result<seq<Byte>, BcsError>
    decreases fuel, variant, 0
  {
    if variant.1.None? then Success([]) else Encode(env, fuel, variant.1.value, payload)
  }

  function EncodeItems(env: Environment, fuel: nat, element: Schema, items: seq<Value>): Result<seq<Byte>, BcsError>
    decreases fuel, element, 1 + |items|
  {
    if items == [] then Success([])
    else
      var first :- Encode(env, fuel, element, items[0]);
      var rest :- EncodeItems(env, fuel, element, items[1..]);
      Success(first + rest)
  }

  function EncodeTuple(env: Environment, fuel: nat, types: seq<Schema>, items: seq<Value>): Result<seq<Byte>, BcsError>
    requires |items| == |types|
    decreases fuel, types, 0
  {
    if types == [] then Success([])
    else
      var first :- Encode(env, fuel, types[0], items[0]);
      var rest :- EncodeTuple(env, fuel, types[1..], items[1..]);
      Success(first + rest)
  }

  function EncodeFields(env: Environment, fuel: nat, fields: seq<(string, Schema)>, entries: seq<(string, Value)>)
    : Result<seq<Byte>, BcsError>
    decreases fuel, fields, 0
  {
    if fields == [] then Success([])
    else
      assert fields decreases to fields[0];
      var first :- Encode(env, fuel, fields[0].1, Lookup(entries, fields[0].0));
      var rest :- EncodeFields(env, fuel, fields[1..], entries);
      Success(first + rest)
  }

  // ---------- Reading ----------

  /** A view of length bytes at an offset into a buffer, as a typed array hands it to the reader. */
  datatype Source = Source(buffer: seq<Byte>, offset: nat, length: nat)

  ghost predicate ValidSource(src: Source) {
    src.offset + src.length <= |src.buffer|
  }

  type Parsed<T> = Result<(T, nat), BcsError>

  /** A DataView read of n bytes, checked against the view. */
  function ReadInt(src: Source, pos: nat, n: nat): Parsed<nat>
    requires ValidSource(src)
  {
    if pos + n > src.length then Failure(ReadOutOfRange)
    else Success((FromLittleEndian(src.buffer[src.offset + pos..][..n]), pos + n))
  }

  /** A read of two halves that are joined as padded hexadecimal text. */
  function ReadWide(src: Source, pos: nat, n: nat): Parsed<nat>
    requires ValidSource(src)
    decreases n
  {
    if n <= 4 then ReadInt(src, pos, n)
    else
      var (low, middle) :- ReadWide(src, pos, n / 2);
      var (high, end) :- ReadWide(src, middle, n / 2);
      match JoinHex(high, low, n)
      case None => Failure(TypeMismatch)
      case Some(value) => Success((value, end))
  }

  /** readULEB: it reads from the underlying buffer, not only from the view. */
  function ReadUleb(src: Source, pos: nat): Parsed<int> {
    if src.offset + pos > |src.buffer| then Failure(ReadOutOfRange)
    else
      var r := UlebDecode(src.buffer[src.offset + pos..]);
      Success((r.value, pos + r.length))
  }

  /** readBytes: a new array over the underlying buffer, not only over the view. */
  function ReadBytes(src: Source, pos: nat, n: int): Parsed<seq<Byte>> {
    if n < 0 || src.offset + pos + n > |src.buffer| then Failure(ReadOutOfRange)
    else Success((src.buffer[src.offset + pos..][..n], pos + n))
  }

  function DecodeLeaf(schema: Schema, src: Source, pos: nat): Parsed<Value>
    requires ValidSource(src) && Leaf(schema)
  {
    match schema
    case U8 | U16 | U32 =>
      var (n, next) :- ReadInt(src, pos, SmallSize(schema));
      Success((Number(n), next))
    case U64 | U128 | U256 =>
      var (n, next) :- ReadWide(src, pos, BigSize(schema));
      Success((Text(ToText(n, 10)), next))
    case Bool =>
      var (n, next) :- ReadInt(src, pos, 1);
      Success((Boolean(n == 1), next))
    case Uleb128 =>
      var (n, next) :- ReadUleb(src, pos);
      Success((Number(n), next))
    case Bytes(size) =>
      var (bytes, next) :- ReadBytes(src, pos, size);
      Success((ByteArray(bytes), next))
    case ByteVector =>
      var (length, start) :- ReadUleb(src, pos);
      var (bytes, next) :- ReadBytes(src, start, length);
      Success((ByteArray(bytes), next))
    case StringLike(_, fromBytes) =>
      var (length, start) :- ReadUleb(src, pos);
      var (bytes, next) :- ReadBytes(src, start, length);
      Success((Text(fromBytes(bytes)), next))
  }

  function Decode(env: Environment, fuel: nat, schema: Schema, src: Source, pos: nat): Parsed<Value>
    requires ValidSource(src)
    decreases fuel, schema, 0
  {
    match schema
    case FixedArray(size, element) =>
      var (items, next) :- DecodeItems(env, fuel, element, src, pos, size);
      Success((List(items), next))
    case Vector(element) =>
      var (length, start) :- ReadUleb(src, pos);
      if length < 0 then Failure(ReadOutOfRange)
      else
        var (items, next) :- DecodeItems(env, fuel, element, src, start, length);
        Success((List(items), next))
    case Tuple(types) =>
      var (items, next) :- DecodeTuple(env, fuel, types, src, pos);
      Success((List(items), next))
    case Struct(fields) =>
      var (entries, next) :- DecodeFields(env, fuel, fields, src, pos);
      Success((Obj(entries), next))
    case Enum(variants) =>
      var (i, start) :- ReadUleb(src, pos);
      if i < 0 || i >= |variants| then Failure(UnknownVariant)
      else
        var (payload, next) :- DecodePayload(env, fuel, variants[i], src, start);
        Success((EnumValue(variants[i].0, payload), next))
    case Transform(inner, _, output) =>
      var (value, next) :- Decode(env, fuel, inner, src, pos);
      Success((output(value), next))
    case Lazy(name) =>
      if fuel == 0 || name !in env then Failure(Unresolved) else Decode(env, fuel - 1, env[name], src, pos)
    case _ => DecodeLeaf(schema, src, pos)
  }

  /** A variant without data reads as undefined. */
  function DecodePayload(env: Environment, fuel: nat, variant: (string, Option<Schema>), src: Source, pos: nat)
    : Parsed<Value>
    requires ValidSource(src)
    decreases fuel, variant, 0
  {
    if variant.1.None? then Success((Undefined, pos)) else Decode(env, fuel, variant.1.value, src, pos)
  }

  function DecodeItems(env: Environment, fuel: nat, element: Schema, src: Source, pos: nat, n: nat): Parsed<seq<Value>>
    requires ValidSource(src)
    decreases fuel, element, 1 + n
  {
    if n == 0 then Success(([], pos))
    else
      var (first, next) :- Decode(env, fuel, element, src, pos);
      var (rest, end) :- DecodeItems(env, fuel, element, src, next, n - 1);
      Success(([first] + rest, end))
  }

  function DecodeTuple(env: Environment, fuel: nat, types: seq<Schema>, src: Source, pos: nat): Parsed<seq<Value>>
    requires ValidSource(src)
    decreases fuel, types, 0
  {
    if types == [] then Success(([], pos))
    else
      var (first, next) :- Decode(env, fuel, types[0], src, pos);
      var (rest, end) :- DecodeTuple(env, fuel, types[1..], src, next);
      Success(([first] + rest, end))
  }

  function DecodeFields(env: Environment, fuel: nat, fields: seq<(string, Schema)>, src: Source, pos: nat)
    : Parsed<seq<(string, Value)>>
    requires ValidSource(src)
    decreases fuel, fields, 0
  {
    if fields == [] then Success(([], pos))
    else
      assert fields decreases to fields[0];
      var (first, next) :- Decode(env, fuel, fields[0].1, src, pos);
      var (rest, end) :- DecodeFields(env, fuel, fields[1..], src, next);
      Success(([(fields[0].0, first)] + rest, end))
  }

  // ---------- The combinators that the source defines by transformation ----------

  function OptionInput(v: Value): Value {
    if v == Null || v == Undefined then Obj([("None", Boolean(true))]) else Obj([("Some", v)])
  }

  function OptionOutput(v: Value): Value {
    if Lookup(Entries(v), "$kind") == Text("Some") then Lookup(Entries(v), "Some") else Null
  }

  function OptionOf(element: Schema): Schema {
    Transform(Enum([("None", None), ("Some", Some(element))]), OptionInput, OptionOutput)
  }

  /** The spread entries() of a Map; those of an array are its indexes with its items. */
  function MapInput(v: Value): Value {
    if v.MapValue? then List(seq(|v.pairs|, i requires 0 <= i < |v.pairs| => List([v.pairs[i].0, v.pairs[i].1])))
    else
      match Items(v)
      case Some(items) => List(seq(|items|, i requires 0 <= i < |items| => List([Number(i), items[i]])))
      case None => Undefined
  }

  /** Only primitive keys can be equal; every decoded object, list or array is a key of its own. */
  predicate SameKey(a: Value, b: Value) {
    a == b && !IsObject(a)
  }

  /** Map.prototype.set. */
  function SetPair(pairs: seq<(Value, Value)>, key: Value, value: Value): seq<(Value, Value)> {
    if pairs == [] then [(key, value)]
    else if SameKey(pairs[0].0, key) then [(pairs[0].0, value)] + pairs[1..]
    else [pairs[0]] + SetPair(pairs[1..], key, value)
  }

  function PairsOf(items: seq<Value>): seq<(Value, Value)> {
    if items == [] then []
    else
      var last := items[|items| - 1];
      var init := PairsOf(items[..|items| - 1]);
      if last.List? && |last.items| == 2 then SetPair(init, last.items[0], last.items[1]) else init
  }

  function MapOutput(v: Value): Value {
    if v.List? then MapValue(PairsOf(v.items)) else v
  }

  function MapOf(key: Schema, value: Schema): Schema {
    Transform(Vector(Tuple([key, value])), MapInput, MapOutput)
  }
}
