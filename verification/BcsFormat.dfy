/** The bytes of packages/bcs/src/bcs.ts, as the Binary Canonical Serialization format lays them out:
    every statement names the bytes themselves, not the combinator that writes them. */
module BcsFormat {
  import opened Octets
  import opened Sequences
  import opened Uleb
  import opened Numbers
  import opened Results
  import opened BcsSchema
  import opened BcsRoundTrip
  import opened BcsLaws
  import opened BcsEnums
  import opened BcsTypes

  // ---------- Lengths: the groups of seven bits ----------

  /** The groups of a number below 2^31: group i is digit i in base 128, and every byte but the last has
      its high bit set; no group could be left out. */
  lemma {:induction false} LengthFormat(env: Environment, fuel: nat, n: nat, i: nat)
    requires n < 0x8000_0000
    ensures Encode(env, fuel, Uleb128, Number(n)) == Success(UlebEncode(n))
    ensures var bytes := UlebEncode(n);
            && 1 <= |bytes| <= 5 && n < Pow128(|bytes|) && (|bytes| > 1 ==> n >= Pow128(|bytes| - 1))
            && (i < |bytes| ==> bytes[i] == n / Pow128(i) % 128 + if i < |bytes| - 1 then 128 else 0)
  {
    EncodingIsMinimal(n);
    if n == 0 {
      assert Pow128(0) == 1;
    } else if i < |UlebEncode(n)| {
      GroupAt(n, i);
    }
  }

  lemma {:induction false} GroupAt(n: nat, i: nat)
    requires 0 < n < TWO_31 && i < |Groups(n)|
    ensures Groups(n)[i] == n / Pow128(i) % 128 + if i < |Groups(n)| - 1 then 128 else 0
    decreases i
  {
    var next := ShiftRight7(n);
    assert Groups(n) == [n % 128 + if next != 0 then 128 else 0] + Groups(next);
    if i > 0 {
      GroupAt(next, i - 1);
      DivideBy128Twice(n, Pow128(i - 1));
    }
  }

  lemma DivideBy128Twice(v: nat, b: nat)
    requires b > 0
    ensures v / 128 / b == v / (128 * b)
  {
    var q := v / 128;
    var s, t := q / b, q % b;
    QuotientOf(q, b, s, t);
    assert Times(s, 128 * b) == 128 * Times(s, b);
    assert v == Times(s, 128 * b) + (128 * t + v % 128);
    hide Times;
    UniqueQuotient(v, 128 * b, s, 128 * t + v % 128);
  }

  // ---------- Booleans and integers ----------

  /** True is the byte 1 and false the byte 0; nothing but a boolean is written. */
  lemma BooleanFormat(env: Environment, fuel: nat, v: Value)
    ensures Encode(env, fuel, Bool, Boolean(true)) == Success([1])
    ensures Encode(env, fuel, Bool, Boolean(false)) == Success([0])
    ensures Encode(env, fuel, Bool, v).Success? <==> v == Boolean(true) || v == Boolean(false)
  {
  }

  /** A byte reads as true if and only if it is 1; any byte of the view reads as a boolean. */
  lemma BooleanReads(env: Environment, fuel: nat, src: Source, pos: nat)
    requires ValidSource(src)
    ensures Decode(env, fuel, Bool, src, pos) ==
            if pos < src.length then Success((Boolean(src.buffer[src.offset + pos] == 1), pos + 1))
            else Failure(ReadOutOfRange)
  {
    if pos < src.length {
      var byte := src.buffer[src.offset + pos..][..1];
      assert byte == [src.buffer[src.offset + pos]] && byte[1..] == [];
      assert FromLittleEndian(byte) == byte[0] + 256 * FromLittleEndian([]) == byte[0];
    }
  }

  /** The widths in bytes. */
  function Width(schema: Schema): nat {
    match schema
    case U8 => 1
    case U16 => 2
    case U32 => 4
    case U64 => 8
    case U128 => 16
    case U256 => 32
    case _ => 0
  }

  /** The first number that does not fit. */
  function Limit(schema: Schema): nat {
    match schema
    case U8 => 0x100
    case U16 => 0x1_0000
    case U32 => 0x1_0000_0000
    case U64 => 0x1_0000_0000_0000_0000
    case U128 => 0x1_0000_0000_0000_0000_0000_0000_0000_0000
    case U256 => 0x1_0000_0000_0000_0000_0000_0000_0000_0000_0000_0000_0000_0000_0000_0000_0000_0000
    case _ => 0
  }

  lemma LimitIsPower(schema: Schema)
    requires Width(schema) > 0
    ensures Limit(schema) == Pow256(Width(schema))
    ensures schema.U8? || schema.U16? || schema.U32? || schema.U64? || schema.U128? || schema.U256?
  {
    assert Pow256(4) == 0x1_0000_0000;
    assert Pow256(8) == 0x1_0000_0000_0000_0000 by {
      assert Pow256(6) == 0x1_0000_0000_0000;
    }
    Pow256Adds(8, 8);
    Pow256Adds(16, 16);
  }

  lemma {:induction false} Pow256Adds(m: nat, n: nat)
    ensures Pow256(m + n) == Times(Pow256(m), Pow256(n))
  {
    if m > 0 {
      Pow256Adds(m - 1, n);
      assert 256 * Times(Pow256(m - 1), Pow256(n)) == Times(256 * Pow256(m - 1), Pow256(n));
    }
  }

  /** A number is written if and only if it fits the width, and byte i of it is n / 256^i % 256. */
  lemma IntegerFormat(env: Environment, fuel: nat, schema: Schema, n: int)
    requires Width(schema) > 0
    ensures var bytes := Encode(env, fuel, schema, Number(n));
            && (bytes.Success? <==> 0 <= n < Limit(schema)) && (bytes.Failure? ==> bytes.error == ValueOutOfRange)
            && (bytes.Success? ==> |bytes.value| == Width(schema))
            && (bytes.Success? ==> forall i :: 0 <= i < Width(schema) ==> bytes.value[i] == n / Pow256(i) % 256)
  {
    LimitIsPower(schema);
    hide Pow256, LittleEndian;
    if 0 <= n < Limit(schema) {
      forall i | 0 <= i < Width(schema)
        ensures LittleEndian(n, Width(schema))[i] == n / Pow256(i) % 256
      {
        LittleEndianAt(n, Width(schema), i);
      }
    }
  }

  /** What else counts as a number for the small widths: a boolean as 0 or 1, null and undefined as 0. */
  lemma SmallIntegerInputs(env: Environment, fuel: nat, schema: Schema, v: Value)
    requires schema.U8? || schema.U16? || schema.U32?
    ensures Encode(env, fuel, schema, v) == match v
        case Number(n) => Encode(env, fuel, schema, Number(n))
        case Boolean(b) => Encode(env, fuel, schema, Number(if b then 1 else 0))
        case Null => Encode(env, fuel, schema, Number(0))
        case Undefined => Encode(env, fuel, schema, Number(0))
        case _ => Failure(TypeMismatch)
  {
    hide Pow256, LittleEndian;
  }

  /** What else counts as a number for the wide ones: a boolean as 0 or 1, and a text of decimal digits. */
  lemma WideIntegerInputs(env: Environment, fuel: nat, schema: Schema, v: Value)
    requires schema.U64? || schema.U128? || schema.U256?
    ensures forall n: nat :: v == Text(ToText(n, 10)) ==>
        Encode(env, fuel, schema, v) == Encode(env, fuel, schema, Number(n))
    ensures v.Boolean? ==> Encode(env, fuel, schema, v) == Encode(env, fuel, schema, Number(if v.b then 1 else 0))
    ensures v == Null || v == Undefined || IsObject(v) ==> Encode(env, fuel, schema, v) == Failure(TypeMismatch)
  {
    hide Pow256, LittleEndian, FromText, ToText;
    forall n: nat | v == Text(ToText(n, 10))
      ensures Encode(env, fuel, schema, v) == Encode(env, fuel, schema, Number(n))
    {
      FromToText(n, 10);
    }
  }

  lemma {:induction false} WideBeyondView(src: Source, pos: nat, n: nat)
    requires ValidSource(src) && (n == 4 || n == 8 || n == 16 || n == 32) && pos + n > src.length
    ensures ReadWide(src, pos, n) == Failure(ReadOutOfRange)
    decreases n
  {
    hide FromLittleEndian, JoinHex;
    if n > 4 {
      var half := n / 2;
      if pos + half <= src.length {
        ReadWideAt(src, pos, src.buffer[src.offset + pos..][..half], half);
        WideBeyondView(src, pos + half, half);
      } else {
        WideBeyondView(src, pos, half);
      }
    }
  }

  /** An integer reads as the number with these bytes, the wide ones as its decimal digits. */
  lemma IntegerReads(env: Environment, fuel: nat, schema: Schema, src: Source, pos: nat, n: nat)
    requires Width(schema) > 0 && ValidSource(src) && n < Limit(schema)
    requires pos + Width(schema) <= src.length ==>
        forall i :: 0 <= i < Width(schema) ==> src.buffer[src.offset + pos + i] == n / Pow256(i) % 256
    ensures Decode(env, fuel, schema, src, pos) ==
            if pos + Width(schema) <= src.length
            then Success((if Width(schema) <= 4 then Number(n) else Text(ToText(n, 10)), pos + Width(schema)))
            else Failure(ReadOutOfRange)
  {
    LimitIsPower(schema);
    var w := Width(schema);
    hide Pow256, LittleEndian, FromLittleEndian, ToText, ReadWide;
    if pos + w <= src.length {
      BytesAre(src, pos, n, w);
      if w <= 4 {
        ReadIntAt(src, pos, n, w);
      } else {
        ReadWideLeafAt(src, pos, n, w);
      }
    } else if w > 4 {
      WideBeyondView(src, pos, w);
    }
  }

  lemma BytesAre(src: Source, pos: nat, n: nat, w: nat)
    requires ValidSource(src) && pos + w <= src.length
    requires forall i :: 0 <= i < w ==> src.buffer[src.offset + pos + i] == n / Pow256(i) % 256
    ensures At(src, pos, LittleEndian(n, w))
  {
    hide Pow256, LittleEndian;
    var bytes := src.buffer[src.offset + pos..][..w];
    forall i | 0 <= i < w
      ensures bytes[i] == LittleEndian(n, w)[i]
    {
      LittleEndianAt(n, w, i);
      assert bytes[i] == src.buffer[src.offset + pos + i];
    }
    assert bytes == LittleEndian(n, w);
  }

  // ---------- Bytes and text ----------

  /** Bytes of a fixed length are written as they are; a list of numbers counts as their low bytes. */
  lemma FixedBytesFormat(env: Environment, fuel: nat, size: nat, bytes: seq<Byte>, numbers: seq<int>)
    ensures Encode(env, fuel, Bytes(size), ByteArray(bytes)) ==
            if |bytes| == size then Success(bytes) else Failure(TypeMismatch)
    ensures Encode(env, fuel, Bytes(size), List(Map((n: int) => Number(n), numbers))) ==
            if |numbers| == size then Success(Map((n: int) => n % 256, numbers)) else Failure(TypeMismatch)
  {
    LowBytes(numbers);
    hide NumbersAsBytes;
  }

  /** A vector of bytes and a text are the groups of their length in bytes, and then the bytes. */
  lemma BytesFormat(env: Environment, fuel: nat, bytes: seq<Byte>, numbers: seq<int>, text: string,
                    toBytes: string -> seq<Byte>, fromBytes: seq<Byte> -> string)
    ensures Encode(env, fuel, ByteVector, ByteArray(bytes)) == Success(UlebEncode(|bytes|) + bytes)
    ensures Encode(env, fuel, ByteVector, List(Map((n: int) => Number(n), numbers))) ==
            Success(UlebEncode(|numbers|) + Map((n: int) => n % 256, numbers))
    ensures Encode(env, fuel, StringLike(toBytes, fromBytes), Text(text)) ==
            Success(UlebEncode(|toBytes(text)|) + toBytes(text))
  {
    LowBytes(numbers);
    hide NumbersAsBytes, UlebEncode;
  }

  lemma {:induction false} LowBytes(numbers: seq<int>)
    ensures NumbersAsBytes(Map((n: int) => Number(n), numbers)) == Some(Map((n: int) => n % 256, numbers))
    decreases |numbers|
  {
    var values, bytes := Map((n: int) => Number(n), numbers), Map((n: int) => n % 256, numbers);
    if numbers != [] {
      LowBytes(numbers[1..]);
      assert values[1..] == Map((n: int) => Number(n), numbers[1..]);
      assert bytes == [numbers[0] % 256] + Map((n: int) => n % 256, numbers[1..]);
    }
  }

  // ---------- Vectors, tuples and structs ----------

  /** The parts are the encodings of the items, in order. */
  ghost predicate AreEncodings(env: Environment, fuel: nat, element: Schema, items: seq<Value>, parts: seq<seq<Byte>>) {
    |parts| == |items| && forall i :: 0 <= i < |items| ==> Encode(env, fuel, element, items[i]) == Success(parts[i])
  }

  lemma {:induction false} ItemsFormat(env: Environment, fuel: nat, element: Schema, items: seq<Value>,
                                       parts: seq<seq<Byte>>)
    requires AreEncodings(env, fuel, element, items, parts)
    ensures EncodeItems(env, fuel, element, items) == Success(Concatenate(parts))
    decreases |items|
  {
    hide Encode;
    if items != [] {
      ItemsFormat(env, fuel, element, items[1..], parts[1..]);
    }
  }

  lemma {:induction false} ItemFails(env: Environment, fuel: nat, element: Schema, items: seq<Value>, i: nat)
    requires i < |items| && Encode(env, fuel, element, items[i]).Failure?
    ensures EncodeItems(env, fuel, element, items).Failure?
    decreases |items|
  {
    hide Encode;
    if i > 0 {
      assert items[1..][i - 1] == items[i];
      ItemFails(env, fuel, element, items[1..], i - 1);
    }
  }

  /** A vector is the groups of its length and then its items' encodings in order; an array of a fixed
      size is only the encodings, of exactly that many items. */
  lemma VectorFormat(env: Environment, fuel: nat, element: Schema, items: seq<Value>, parts: seq<seq<Byte>>, size: nat)
    requires AreEncodings(env, fuel, element, items, parts)
    ensures Encode(env, fuel, Vector(element), List(items)) == Success(UlebEncode(|items|) + Concatenate(parts))
    ensures Encode(env, fuel, FixedArray(size, element), List(items))
            == if |items| == size then Success(Concatenate(parts)) else Failure(TypeMismatch)
  {
    ItemsFormat(env, fuel, element, items, parts);
    hide EncodeItems, UlebEncode, Concatenate, AreEncodings;
  }

  /** An item that is not written fails both. */
  lemma VectorFails(env: Environment, fuel: nat, element: Schema, items: seq<Value>, i: nat, size: nat)
    requires i < |items| && Encode(env, fuel, element, items[i]).Failure?
    ensures Encode(env, fuel, Vector(element), List(items)).Failure?
    ensures Encode(env, fuel, FixedArray(size, element), List(items)).Failure?
  {
    ItemFails(env, fuel, element, items, i);
    hide EncodeItems, UlebEncode;
  }

  /** The parts are the encodings of values under their own schemas. */
  ghost predicate AreParts(env: Environment, fuel: nat, types: seq<Schema>, values: seq<Value>, parts: seq<seq<Byte>>) {
    |parts| == |values| == |types| &&
    forall i :: 0 <= i < |types| ==> Encode(env, fuel, types[i], values[i]) == Success(parts[i])
  }

  lemma {:induction false} PartsFormat(env: Environment, fuel: nat, types: seq<Schema>, values: seq<Value>,
                                       parts: seq<seq<Byte>>)
    requires AreParts(env, fuel, types, values, parts)
    ensures EncodeTuple(env, fuel, types, values) == Success(Concatenate(parts))
    decreases |types|
  {
    hide Encode;
    if types != [] {
      PartsFormat(env, fuel, types[1..], values[1..], parts[1..]);
    }
  }

  lemma {:induction false} PartFails(env: Environment, fuel: nat, types: seq<Schema>, values: seq<Value>, i: nat)
    requires i < |types| == |values| && Encode(env, fuel, types[i], values[i]).Failure?
    ensures EncodeTuple(env, fuel, types, values).Failure?
    decreases |types|
  {
    hide Encode;
    if i > 0 {
      assert types[1..][i - 1] == types[i] && values[1..][i - 1] == values[i];
      PartFails(env, fuel, types[1..], values[1..], i - 1);
    }
  }

  /** A tuple is its parts' encodings in the order of the schema, with nothing between them. */
  lemma TupleFormat(env: Environment, fuel: nat, types: seq<Schema>, values: seq<Value>, parts: seq<seq<Byte>>)
    requires AreParts(env, fuel, types, values, parts)
    ensures Encode(env, fuel, Tuple(types), List(values)) == Success(Concatenate(parts))
  {
    PartsFormat(env, fuel, types, values, parts);
    hide EncodeTuple, Concatenate;
  }

  /** Another number of values, or a value that its schema does not write, fails. */
  lemma TupleFails(env: Environment, fuel: nat, types: seq<Schema>, values: seq<Value>, i: nat)
    requires |values| == |types| ==> i < |types| && Encode(env, fuel, types[i], values[i]).Failure?
    ensures Encode(env, fuel, Tuple(types), List(values)).Failure?
  {
    if |values| == |types| {
      PartFails(env, fuel, types, values, i);
    }
    hide EncodeTuple;
  }

  /** The value of a property of an object: that of the first entry with its name, undefined without one. */
  ghost predicate Property(entries: seq<(string, Value)>, name: string, v: Value) {
    || (v == Undefined && forall k :: 0 <= k < |entries| ==> entries[k].0 != name)
    || exists k :: 0 <= k < |entries| && entries[k] == (name, v) && forall j :: 0 <= j < k ==> entries[j].0 != name
  }

  lemma {:induction false} PropertyIsLookup(entries: seq<(string, Value)>, name: string, v: Value)
    requires Property(entries, name, v)
    ensures Lookup(entries, name) == v
    decreases |entries|
  {
    if entries != [] && entries[0].0 != name {
      var rest := entries[1..];
      assert forall k :: 0 <= k < |rest| ==> rest[k] == entries[k + 1];
      if k :| 0 <= k < |entries| && entries[k] == (name, v) && forall j :: 0 <= j < k ==> entries[j].0 != name {
        assert rest[k - 1] == (name, v);
      }
      PropertyIsLookup(rest, name, v);
    }
  }

  /** The parts are the encodings of the properties that the schema names, in its order. */
  ghost predicate AreProperties(env: Environment, fuel: nat, fields: seq<(string, Schema)>,
                                entries: seq<(string, Value)>, values: seq<Value>, parts: seq<seq<Byte>>)
  {
    && |parts| == |values| == |fields|
    && forall i :: 0 <= i < |fields| ==>
         Property(entries, fields[i].0, values[i]) && Encode(env, fuel, fields[i].1, values[i]) == Success(parts[i])
  }

  lemma {:induction false} FieldsFormat(env: Environment, fuel: nat, fields: seq<(string, Schema)>,
                                        entries: seq<(string, Value)>, values: seq<Value>, parts: seq<seq<Byte>>)
    requires AreProperties(env, fuel, fields, entries, values, parts)
    ensures EncodeFields(env, fuel, fields, entries) == Success(Concatenate(parts))
    decreases |fields|
  {
    hide Encode, Property, Lookup;
    if fields != [] {
      assert fields decreases to fields[0];
      PropertyIsLookup(entries, fields[0].0, values[0]);
      assert forall i :: 0 <= i < |fields| - 1 ==> fields[1..][i] == fields[i + 1] && values[1..][i] == values[i + 1];
      FieldsFormat(env, fuel, fields[1..], entries, values[1..], parts[1..]);
    }
  }

  /** A struct is its fields' encodings in the order of the schema, whatever the order of the object's
      entries is, and with no names between them. */
  lemma StructFormat(env: Environment, fuel: nat, fields: seq<(string, Schema)>, entries: seq<(string, Value)>,
                     values: seq<Value>, parts: seq<seq<Byte>>)
    requires AreProperties(env, fuel, fields, entries, values, parts)
    ensures Encode(env, fuel, Struct(fields), Obj(entries)) == Success(Concatenate(parts))
  {
    FieldsFormat(env, fuel, fields, entries, values, parts);
    hide EncodeFields, Concatenate, AreProperties;
  }

  /** A map is the groups of its size and then, for each pair in its order, the key's encoding and the
      value's. */
  lemma MapFormat(env: Environment, fuel: nat, key: Schema, value: Schema, pairs: seq<(Value, Value)>,
                  keys: seq<seq<Byte>>, values: seq<seq<Byte>>)
    requires |keys| == |values| == |pairs|
    requires forall i :: 0 <= i < |pairs| ==>
        && Encode(env, fuel, key, pairs[i].0) == Success(keys[i])
        && Encode(env, fuel, value, pairs[i].1) == Success(values[i])
    ensures Encode(env, fuel, MapOf(key, value), MapValue(pairs)) ==
            Success(UlebEncode(|pairs|)
                    + Concatenate(seq(|pairs|, i requires 0 <= i < |pairs| => keys[i] + values[i])))
  {
    var items := seq(|pairs|, i requires 0 <= i < |pairs| => List([pairs[i].0, pairs[i].1]));
    var parts := seq(|pairs|, i requires 0 <= i < |pairs| => keys[i] + values[i]);
    hide Encode, Concatenate;
    forall i | 0 <= i < |items| ensures Encode(env, fuel, Tuple([key, value]), items[i]) == Success(parts[i]) {
      var (types, both, bytes) := ([key, value], [pairs[i].0, pairs[i].1], [keys[i], values[i]]);
      forall k | 0 <= k < 2 ensures Encode(env, fuel, types[k], both[k]) == Success(bytes[k]) {
      }
      TupleFormat(env, fuel, types, both, bytes);
      TwoParts(keys[i], values[i]);
    }
    assert AreEncodings(env, fuel, Tuple([key, value]), items, parts);
    VectorFormat(env, fuel, Tuple([key, value]), items, parts, 0);
    MapUnfolds(env, fuel, key, value, pairs);
  }

  lemma MapUnfolds(env: Environment, fuel: nat, key: Schema, value: Schema, pairs: seq<(Value, Value)>)
    ensures Encode(env, fuel, MapOf(key, value), MapValue(pairs)) ==
            Encode(env, fuel, Vector(Tuple([key, value])),
                   List(seq(|pairs|, i requires 0 <= i < |pairs| => List([pairs[i].0, pairs[i].1]))))
  {
    hide EncodeItems, UlebEncode;
  }

  lemma TwoParts<T>(a: seq<T>, b: seq<T>)
    ensures Concatenate([a, b]) == a + b
  {
    assert [a, b][1..] == [b] && [b][1..] == [];
    assert Concatenate([b]) == b;
  }

  // ---------- Enums ----------

  /** A variant is the groups of its position in the schema and then its payload, nothing for a variant
      without data; the object may also hold the name of the variant under $kind. */
  lemma VariantFormat(env: Environment, fuel: nat, variants: seq<(string, Option<Schema>)>, i: nat, payload: Value,
                      entries: seq<(string, Value)>)
    requires i < |variants| && (forall j :: 0 <= j < i ==> variants[j].0 != variants[i].0) && payload != Undefined
    requires forall j :: 0 <= j < |variants| ==> variants[j].0 != "$kind"
    requires entries == [(variants[i].0, payload)]
          || entries == [(variants[i].0, payload), ("$kind", Text(variants[i].0))]
    ensures Encode(env, fuel, Enum(variants), Obj(entries)) ==
            match variants[i].1
            case None => Success(UlebEncode(i))
            case Some(schema) =>
              match Encode(env, fuel, schema, payload)
              case Success(bytes) => Success(UlebEncode(i) + bytes)
              case Failure(e) => Failure(e)
  {
    var name := variants[i].0;
    PositionIs(variants, i);
    assert !HasVariant(variants, "$kind");
    if entries == [(name, payload)] {
      OneEntry(variants, name, payload);
    } else {
      EnumEntries(variants, entries);
    }
    hide IndexOf, HasVariant, DefinedKeys, ChosenEntry, UlebEncode;
    ChosenFormat(env, fuel, variants, entries, i, payload);
  }

  lemma ChosenFormat(env: Environment, fuel: nat, variants: seq<(string, Option<Schema>)>,
                     entries: seq<(string, Value)>, i: nat, payload: Value)
    requires i < |variants| && IndexOf(variants, variants[i].0) == i
    requires DefinedKeys(variants, entries) == 1
    requires ChosenEntry(variants, entries) == Some((variants[i].0, payload))
    ensures Encode(env, fuel, Enum(variants), Obj(entries)) ==
            match variants[i].1
            case None => Success(UlebEncode(i))
            case Some(schema) =>
              match Encode(env, fuel, schema, payload)
              case Success(bytes) => Success(UlebEncode(i) + bytes)
              case Failure(e) => Failure(e)
  {
    hide IndexOf, DefinedKeys, ChosenEntry, UlebEncode;
    assert UlebEncode(i) + [] == UlebEncode(i);
  }

  lemma {:induction false} PositionIs(variants: seq<(string, Option<Schema>)>, i: nat)
    requires i < |variants| && forall j :: 0 <= j < i ==> variants[j].0 != variants[i].0
    ensures IndexOf(variants, variants[i].0) == i && HasVariant(variants, variants[i].0)
  {
    hide IndexOf;
  }

  /** An entry of an object that names a variant and is not undefined. */
  ghost predicate Defines(variants: seq<(string, Option<Schema>)>, entry: (string, Value)) {
    entry.1 != Undefined && exists i :: 0 <= i < |variants| && variants[i].0 == entry.0
  }

  ghost predicate OneDefines(variants: seq<(string, Option<Schema>)>, entries: seq<(string, Value)>, j: nat) {
    && j < |entries| && Defines(variants, entries[j])
    && forall k :: 0 <= k < |entries| && k != j ==> !Defines(variants, entries[k])
  }

  lemma {:induction false} DefinedKeysCount(variants: seq<(string, Option<Schema>)>, entries: seq<(string, Value)>)
    ensures DefinedKeys(variants, entries) == 0 <==>
        forall j :: 0 <= j < |entries| ==> !Defines(variants, entries[j])
    ensures DefinedKeys(variants, entries) == 1 <==> exists j: nat :: OneDefines(variants, entries, j)
    decreases |entries|
  {
    hide IndexOf, Defines;
    if entries != [] {
      var rest := entries[1..];
      DefinedKeysCount(variants, rest);
      NamesVariant(variants, entries[0]);
      hide HasVariant;
      assert forall j :: 0 <= j < |rest| ==> rest[j] == entries[j + 1];
      assert forall j :: 1 <= j < |entries| ==> entries[j] == rest[j - 1];
      if Defines(variants, entries[0]) {
        assert DefinedKeys(variants, rest) == 0 ==> OneDefines(variants, entries, 0);
      } else {
        if j: nat :| OneDefines(variants, rest, j) {
          assert OneDefines(variants, entries, j + 1);
        }
      }
      if j: nat :| OneDefines(variants, entries, j) {
        assert j > 0 ==> OneDefines(variants, rest, j - 1);
      }
    }
  }

  lemma NamesVariant(variants: seq<(string, Option<Schema>)>, entry: (string, Value))
    ensures Defines(variants, entry) <==> entry.1 != Undefined && HasVariant(variants, entry.0)
  {
    hide IndexOf;
    if HasVariant(variants, entry.0) {
      assert variants[IndexOf(variants, entry.0)].0 == entry.0;
    }
  }

  /** An enum takes objects with exactly one entry that names a variant and is not undefined, and no
      other value. */
  lemma EnumRefuses(env: Environment, fuel: nat, variants: seq<(string, Option<Schema>)>, v: Value)
    ensures !IsObject(v) ==> Encode(env, fuel, Enum(variants), v) == Failure(TypeMismatch)
    ensures IsObject(v) && (forall j: nat :: !OneDefines(variants, Entries(v), j)) ==>
        Encode(env, fuel, Enum(variants), v) == Failure(OneKeyExpected)
  {
    DefinedKeysCount(variants, Entries(v));
    hide DefinedKeys, ChosenEntry, IndexOf, OneDefines, UlebEncode;
  }

  /** A position that the schema does not have cannot be read. */
  lemma UnknownVariantFails(env: Environment, fuel: nat, variants: seq<(string, Option<Schema>)>, src: Source, pos: nat,
                            n: nat)
    requires |variants| <= n < 0x8000_0000 && At(src, pos, UlebEncode(n))
    ensures Decode(env, fuel, Enum(variants), src, pos) == Failure(UnknownVariant)
  {
    ReadUlebAt(src, pos, n);
    hide ReadUleb, UlebEncode;
  }

  // ---------- Which sizes are known before writing ----------

  /** The schemas whose values have a size known from the schema, or from the length of a byte array. */
  predicate Sized(env: Environment, fuel: nat, schema: Schema)
    decreases fuel, schema
  {
    match schema
    case U8 | U16 | U32 | U64 | U128 | U256 | Bool | Bytes(_) | ByteVector => true
    case Tuple(types) => forall i :: 0 <= i < |types| ==> Sized(env, fuel, types[i])
    case Struct(fields) =>
      forall i :: 0 <= i < |fields| ==> assert fields decreases to fields[i]; Sized(env, fuel, fields[i].1)
    case Transform(inner, _, _) => Sized(env, fuel, inner)
    case Lazy(name) => fuel > 0 && name in env && Sized(env, fuel - 1, env[name])
    case _ => false
  }

  /** Of a value that serializes, the size is predicted if and only if the schema is one of those. */
  lemma {:induction false} SizeIsKnownExactly(env: Environment, fuel: nat, schema: Schema, v: Value)
    requires Encode(env, fuel, schema, v).Success?
    ensures var size := SerializedSize(env, fuel, schema, v);
            size.Success? && (size.value.Some? <==> Sized(env, fuel, schema))
    decreases fuel, schema, 0
  {
    hide UlebEncode, EncodeItems, EncodePayload, ChosenEntry, DefinedKeys, IndexOf, Lookup, LittleEndian;
    SizeIsPredicted(env, fuel, schema, v);
    match schema {
      case Tuple(types) => PartsKnown(env, fuel, types, v.items);
      case Struct(fields) => FieldsKnown(env, fuel, fields, Entries(v));
      case Transform(inner, input, _) => SizeIsKnownExactly(env, fuel, inner, input(v));
      case Lazy(name) => SizeIsKnownExactly(env, fuel - 1, env[name], v);
      case _ =>
    }
  }

  lemma {:induction false} PartsKnown(env: Environment, fuel: nat, types: seq<Schema>, items: seq<Value>)
    requires |items| == |types| && EncodeTuple(env, fuel, types, items).Success?
    ensures var size := TupleSize(env, fuel, types, items);
            && size.Success?
            && (size.value.Some? <==> forall i :: 0 <= i < |types| ==> Sized(env, fuel, types[i]))
    decreases fuel, types, 0
  {
    hide SerializedSize, Encode, Sized;
    if types != [] {
      SizeIsKnownExactly(env, fuel, types[0], items[0]);
      PartsKnown(env, fuel, types[1..], items[1..]);
      var rest := types[1..];
      assert forall i :: 0 <= i < |rest| ==> rest[i] == types[i + 1];
      assert forall i :: 1 <= i < |types| ==> types[i] == rest[i - 1];
    }
  }

  lemma {:induction false} FieldsKnown(env: Environment, fuel: nat, fields: seq<(string, Schema)>,
                                       entries: seq<(string, Value)>)
    requires EncodeFields(env, fuel, fields, entries).Success?
    ensures var size := FieldsSize(env, fuel, fields, entries);
            && size.Success?
            && (size.value.Some? <==> forall i :: 0 <= i < |fields| ==> Sized(env, fuel, fields[i].1))
    decreases fuel, fields, 0
  {
    hide SerializedSize, Encode, Sized, Lookup;
    if fields != [] {
      assert fields decreases to fields[0];
      SizeIsKnownExactly(env, fuel, fields[0].1, Lookup(entries, fields[0].0));
      FieldsKnown(env, fuel, fields[1..], entries);
      var rest := fields[1..];
      assert forall i :: 0 <= i < |rest| ==> rest[i] == fields[i + 1];
      assert forall i :: 1 <= i < |fields| ==> fields[i] == rest[i - 1];
    }
  }
}
