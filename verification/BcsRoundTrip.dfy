/** Parsing inverts serializing, for every schema and every value that serializes. */
module BcsRoundTrip {
  import opened Octets
  import opened Uleb
  import opened Numbers
  import opened Results
  import opened BcsSchema

  // ---------- The value that comes back ----------

  function CanonicalLeaf(schema: Schema, v: Value): Value
    requires Leaf(schema)
  {
    match schema
    case U8 | U16 | U32 => (match AsNumber(v) case Some(n) => Number(n) case None => Undefined)
    case U64 | U128 | U256 =>
      (match AsBigInt(v)
       case Some(n) => if n >= 0 then Text(ToText(n, 10)) else Undefined
       case None => Undefined)
    case Bool | Uleb128 => v
    case Bytes(_) | ByteVector => (match AsBytes(v) case Some(bytes) => ByteArray(bytes) case None => Undefined)
    case StringLike(toBytes, fromBytes) => if v.Text? then Text(fromBytes(toBytes(v.text))) else Undefined
  }

  /** The value that reading the encoding of v yields: numbers for the narrow integers, decimal text
      for the wide ones, exactly the fields of a struct in schema order, the chosen variant of an
      enum with its $kind. */
  function Canonical(env: Environment, fuel: nat, schema: Schema, v: Value): Value
    decreases fuel, schema, 0
  {
    match schema
    case FixedArray(_, element) =>
      (match Items(v) case Some(items) => List(CanonicalItems(env, fuel, element, items)) case None => Undefined)
    case Vector(element) =>
      (match Items(v) case Some(items) => List(CanonicalItems(env, fuel, element, items)) case None => Undefined)
    case Tuple(types) => if v.List? && |v.items| == |types| then List(CanonicalTuple(env, fuel, types, v.items))
        else Undefined
    case Struct(fields) => Obj(CanonicalFields(env, fuel, fields, Entries(v)))
    case Enum(variants) =>
      (match ChosenEntry(variants, Entries(v))
       case Some((name, payload)) =>
         var i := IndexOf(variants, name);
         if i < |variants| then EnumValue(name, CanonicalPayload(env, fuel, variants[i], payload)) else Undefined
       case None => Undefined)
    case Transform(inner, input, output) => output(Canonical(env, fuel, inner, input(v)))
    case Lazy(name) => if fuel == 0 || name !in env then Undefined else Canonical(env, fuel - 1, env[name], v)
    case _ => CanonicalLeaf(schema, v)
  }

  function CanonicalPayload(env: Environment, fuel: nat, variant: (string, Option<Schema>), payload: Value): Value
    decreases fuel, variant, 0
  {
    if variant.1.None? then Undefined else Canonical(env, fuel, variant.1.value, payload)
  }

  function CanonicalItems(env: Environment, fuel: nat, element: Schema, items: seq<Value>): (r: seq<Value>)
    ensures |r| == |items|
    decreases fuel, element, 1 + |items|
  {
    if items == [] then []
    else [Canonical(env, fuel, element, items[0])] + CanonicalItems(env, fuel, element, items[1..])
  }

  function CanonicalTuple(env: Environment, fuel: nat, types: seq<Schema>, items: seq<Value>): seq<Value>
    requires |items| == |types|
    decreases fuel, types, 0
  {
    if types == [] then []
    else [Canonical(env, fuel, types[0], items[0])] + CanonicalTuple(env, fuel, types[1..], items[1..])
  }

  function CanonicalFields(env: Environment, fuel: nat, fields: seq<(string, Schema)>, entries: seq<(string, Value)>)
    : seq<(string, Value)>
    decreases fuel, fields, 0
  {
    if fields == [] then []
    else
      assert fields decreases to fields[0];
      [(fields[0].0, Canonical(env, fuel, fields[0].1, Lookup(entries, fields[0].0)))]
          + CanonicalFields(env, fuel, fields[1..], entries)
  }

  // ---------- The domain: what the length encoding can hold ----------

  ghost predicate LeafInRange(schema: Schema, v: Value)
    requires Leaf(schema)
  {
    match schema
    case Uleb128 => v.Number? ==> 0 <= v.n < TWO_31
    case ByteVector => AsBytes(v).Some? ==> |AsBytes(v).value| < TWO_31
    case StringLike(toBytes, _) => v.Text? ==> |toBytes(v.text)| < TWO_31
    case _ => true
  }

  /** Lengths, variant indices and variable-length integers lie below 2^31. */
  ghost predicate InRange(env: Environment, fuel: nat, schema: Schema, v: Value)
    decreases fuel, schema, 0
  {
    match schema
    case FixedArray(_, element) => Items(v).Some? ==> ItemsInRange(env, fuel, element, Items(v).value)
    case Vector(element) =>
      Items(v).Some? ==> |Items(v).value| < TWO_31 && ItemsInRange(env, fuel, element, Items(v).value)
    case Tuple(types) => v.List? && |v.items| == |types| ==> TupleInRange(env, fuel, types, v.items)
    case Struct(fields) => FieldsInRange(env, fuel, fields, Entries(v))
    case Enum(variants) =>
      |variants| < TWO_31 &&
      (match ChosenEntry(variants, Entries(v))
       case Some((name, payload)) =>
         var i := IndexOf(variants, name);
         i < |variants| ==> PayloadInRange(env, fuel, variants[i], payload)
       case None => true)
    case Transform(inner, input, _) => InRange(env, fuel, inner, input(v))
    case Lazy(name) => fuel > 0 && name in env ==> InRange(env, fuel - 1, env[name], v)
    case _ => LeafInRange(schema, v)
  }

  ghost predicate PayloadInRange(env: Environment, fuel: nat, variant: (string, Option<Schema>), payload: Value)
    decreases fuel, variant, 0
  {
    variant.1.Some? ==> InRange(env, fuel, variant.1.value, payload)
  }

  ghost predicate ItemsInRange(env: Environment, fuel: nat, element: Schema, items: seq<Value>)
    decreases fuel, element, 1 + |items|
  {
    items != [] ==> InRange(env, fuel, element, items[0]) && ItemsInRange(env, fuel, element, items[1..])
  }

  ghost predicate TupleInRange(env: Environment, fuel: nat, types: seq<Schema>, items: seq<Value>)
    requires |items| == |types|
    decreases fuel, types, 0
  {
    types != [] ==> InRange(env, fuel, types[0], items[0]) && TupleInRange(env, fuel, types[1..], items[1..])
  }

  ghost predicate FieldsInRange(env: Environment, fuel: nat, fields: seq<(string, Schema)>,
                                entries: seq<(string, Value)>)
    decreases fuel, fields, 0
  {
    fields != [] ==>
      assert fields decreases to fields[0];
      InRange(env, fuel, fields[0].1, Lookup(entries, fields[0].0)) && FieldsInRange(env, fuel, fields[1..], entries)
  }

  // ---------- Bytes at a position of the data ----------

  /** The view holds the bytes at a position. */
  ghost predicate At(src: Source, pos: nat, bytes: seq<Byte>) {
    && ValidSource(src)
    && pos + |bytes| <= src.length
    && src.buffer[src.offset + pos..][..|bytes|] == bytes
  }

  lemma AtConcat(src: Source, pos: nat, a: seq<Byte>, b: seq<Byte>)
    requires At(src, pos, a + b)
    ensures At(src, pos, a) && At(src, pos + |a|, b)
  {
    var whole := src.buffer[src.offset + pos..];
    assert whole[..|a|] == (a + b)[..|a|] == a;
    var rest := src.buffer[src.offset + (pos + |a|)..];
    assert rest == whole[|a|..];
    assert rest[..|b|] == (a + b)[|a|..] == b;
  }

  lemma ReadIntAt(src: Source, pos: nat, v: nat, n: nat)
    requires v < Pow256(n) && At(src, pos, LittleEndian(v, n))
    ensures ReadInt(src, pos, n) == Success((v, pos + n))
  {
    LittleEndianInverts(v, n);
  }

  /** Reading a wide integer through halves of hexadecimal text inverts writing its bytes. */
  lemma {:induction false} ReadWideAt(src: Source, pos: nat, bytes: seq<Byte>, n: nat)
    requires |bytes| == n && (n == 4 || n == 8 || n == 16 || n == 32) && At(src, pos, bytes)
    ensures ReadWide(src, pos, n) == Success((FromLittleEndian(bytes), pos + n))
    decreases n
  {
    hide FromLittleEndian, JoinHex;
    if n > 4 {
      var half := n / 2;
      var low, high := bytes[..half], bytes[half..];
      assert bytes == low + high;
      AtConcat(src, pos, low, high);
      ReadWideAt(src, pos, low, half);
      ReadWideAt(src, pos + half, high, half);
      WideRead(low, high);
    }
  }

  lemma ReadUlebAt(src: Source, pos: nat, n: nat)
    requires n < TWO_31 && At(src, pos, UlebEncode(n))
    ensures ReadUleb(src, pos) == Success((n as int, pos + |UlebEncode(n)|))
  {
    hide UlebEncode, UlebDecode;
    var rest := src.buffer[src.offset + pos..];
    var suffix := rest[|UlebEncode(n)|..];
    assert rest == UlebEncode(n) + suffix;
    DecodeInvertsEncode(n, suffix);
  }

  lemma ReadBytesAt(src: Source, pos: nat, bytes: seq<Byte>)
    requires At(src, pos, bytes)
    ensures ReadBytes(src, pos, |bytes|) == Success((bytes, pos + |bytes|))
  {
  }

  /** A length followed by that many bytes. */
  lemma ReadWithLengthAt(src: Source, pos: nat, bytes: seq<Byte>)
    requires |bytes| < TWO_31 && At(src, pos, WithLength(bytes))
    ensures ReadUleb(src, pos) == Success((|bytes| as int, pos + |UlebEncode(|bytes|)|))
    ensures ReadBytes(src, pos + |UlebEncode(|bytes|)|, |bytes|) == Success((bytes, pos + |WithLength(bytes)|))
  {
    AtConcat(src, pos, UlebEncode(|bytes|), bytes);
    hide UlebEncode;
    ReadUlebAt(src, pos, |bytes|);
    ReadBytesAt(src, pos + |UlebEncode(|bytes|)|, bytes);
  }

  // ---------- Decoding inverts encoding ----------

  /** Where the data hold the encoding of v, reading yields the canonical form of v and leaves the
      cursor exactly behind the encoding, whatever precedes or follows, in a view at any offset. */
  lemma {:induction false} DecodeEncode(env: Environment, fuel: nat, schema: Schema, v: Value, src: Source, pos: nat)
    requires Encode(env, fuel, schema, v).Success? && InRange(env, fuel, schema, v)
    requires At(src, pos, Encode(env, fuel, schema, v).value)
    ensures Decode(env, fuel, schema, src, pos) ==
            Success((Canonical(env, fuel, schema, v), pos + |Encode(env, fuel, schema, v).value|))
    decreases fuel, schema, 0, 1
  {
    hide At, ReadUleb, UlebEncode, EnumValue, EncodeLeaf, DecodeLeaf, CanonicalLeaf, LeafInRange;
    hide EncodeItems, DecodeItems, CanonicalItems, ItemsInRange, EncodeTuple, DecodeTuple, CanonicalTuple, TupleInRange;
    hide EncodeFields, DecodeFields, CanonicalFields, FieldsInRange, EncodePayload, DecodePayload, CanonicalPayload,
        PayloadInRange;
    match schema {
      case FixedArray(size, element) =>
        DecodeEncodeItems(env, fuel, element, Items(v).value, src, pos);
      case Vector(element) =>
        DecodeEncodeVector(env, fuel, schema, element, v, src, pos);
      case Tuple(types) =>
        DecodeEncodeTuple(env, fuel, types, v.items, src, pos);
      case Struct(fields) =>
        DecodeEncodeFields(env, fuel, fields, Entries(v), src, pos);
      case Enum(variants) =>
        DecodeEncodeEnum(env, fuel, schema, variants, v, src, pos);
      case Transform(inner, input, _) =>
        DecodeEncode(env, fuel, inner, input(v), src, pos);
      case Lazy(name) =>
        DecodeEncode(env, fuel - 1, env[name], v, src, pos);
      case _ =>
        DecodeEncodeLeaf(schema, v, src, pos);
    }
  }

  lemma DecodeEncodeLeaf(schema: Schema, v: Value, src: Source, pos: nat)
    requires Leaf(schema)
    requires EncodeLeaf(schema, v).Success? && LeafInRange(schema, v)
    requires At(src, pos, EncodeLeaf(schema, v).value)
    ensures DecodeLeaf(schema, src, pos) == Success((CanonicalLeaf(schema, v), pos + |EncodeLeaf(schema, v).value|))
  {
    hide At, ReadInt, ReadUleb, ReadBytes, ReadWide, WithLength, UlebEncode, UlebDecode, LittleEndian, Pow256,
        FromLittleEndian, ToText;
    match schema {
      case U8 | U16 | U32 =>
        ReadIntAt(src, pos, AsNumber(v).value, SmallSize(schema));
      case U64 | U128 | U256 =>
        ReadWideLeafAt(src, pos, AsBigInt(v).value, BigSize(schema));
      case Bool =>
        OneByte(v.b);
        ReadIntAt(src, pos, if v.b then 1 else 0, 1);
      case Uleb128 =>
        ReadUlebAt(src, pos, v.n);
      case Bytes(size) =>
        ReadBytesAt(src, pos, AsBytes(v).value);
      case ByteVector =>
        ReadWithLengthAt(src, pos, AsBytes(v).value);
      case StringLike(toBytes, _) =>
        ReadWithLengthAt(src, pos, toBytes(v.text));
    }
  }

  lemma ReadWideLeafAt(src: Source, pos: nat, v: nat, n: nat)
    requires (n == 8 || n == 16 || n == 32) && v < Pow256(n) && At(src, pos, LittleEndian(v, n))
    ensures ReadWide(src, pos, n) == Success((v, pos + n))
  {
    hide ReadWide, At, LittleEndian, Pow256;
    ReadWideAt(src, pos, LittleEndian(v, n), n);
    LittleEndianInverts(v, n);
  }

  lemma OneByte(b: bool)
    ensures var n := if b then 1 else 0; LittleEndian(n, 1) == [n] && n < Pow256(1)
  {
    assert Pow256(1) == 256 && LittleEndian(0, 0) == [];
  }

  lemma {:induction false} DecodeEncodeVector(env: Environment, fuel: nat, schema: Schema, element: Schema, v: Value,
                                              src: Source, pos: nat)
    requires schema == Vector(element)
    requires Encode(env, fuel, schema, v).Success? && InRange(env, fuel, schema, v)
    requires At(src, pos, Encode(env, fuel, schema, v).value)
    ensures Decode(env, fuel, schema, src, pos) ==
            Success((Canonical(env, fuel, schema, v), pos + |Encode(env, fuel, schema, v).value|))
    decreases fuel, schema, 0, 0
  {
    hide At, ReadUleb, UlebEncode, EncodeItems, DecodeItems, CanonicalItems, ItemsInRange;
    var items := Items(v).value;
    AtConcat(src, pos, UlebEncode(|items|), EncodeItems(env, fuel, element, items).value);
    ReadUlebAt(src, pos, |items|);
    DecodeEncodeItems(env, fuel, element, items, src, pos + |UlebEncode(|items|)|);
  }

  lemma {:induction false} DecodeEncodeEnum(env: Environment, fuel: nat, schema: Schema,
                                            variants: seq<(string, Option<Schema>)>,
                                            v: Value, src: Source, pos: nat)
    requires schema == Enum(variants)
    requires Encode(env, fuel, schema, v).Success? && InRange(env, fuel, schema, v)
    requires At(src, pos, Encode(env, fuel, schema, v).value)
    ensures Decode(env, fuel, schema, src, pos) ==
            Success((Canonical(env, fuel, schema, v), pos + |Encode(env, fuel, schema, v).value|))
    decreases fuel, schema, 0, 0
  {
    hide UlebEncode, EnumValue, EncodePayload, DecodePayload, CanonicalPayload, PayloadInRange, ReadUleb;
    var (name, payload) := ChosenEntry(variants, Entries(v)).value;
    var i := IndexOf(variants, name);
    var bytes := EncodePayload(env, fuel, variants[i], payload).value;
    AtConcat(src, pos, UlebEncode(i), bytes);
    ReadUlebAt(src, pos, i);
    DecodeEncodePayload(env, fuel, variants[i], payload, src, pos + |UlebEncode(i)|);
  }

  lemma {:induction false} DecodeEncodePayload(env: Environment, fuel: nat, variant: (string, Option<Schema>),
                                               payload: Value,
                                               src: Source, pos: nat)
    requires EncodePayload(env, fuel, variant, payload).Success? && PayloadInRange(env, fuel, variant, payload)
    requires At(src, pos, EncodePayload(env, fuel, variant, payload).value)
    ensures DecodePayload(env, fuel, variant, src, pos) ==
            Success((CanonicalPayload(env, fuel, variant, payload), pos
                + |EncodePayload(env, fuel, variant, payload).value|))
    decreases fuel, variant, 0
  {
    if variant.1.Some? {
      DecodeEncode(env, fuel, variant.1.value, payload, src, pos);
      hide Encode, Decode, Canonical;
    }
  }

  lemma {:induction false} DecodeEncodeItems(env: Environment, fuel: nat, element: Schema, items: seq<Value>,
                                             src: Source, pos: nat)
    requires EncodeItems(env, fuel, element, items).Success? && ItemsInRange(env, fuel, element, items)
    requires At(src, pos, EncodeItems(env, fuel, element, items).value)
    ensures DecodeItems(env, fuel, element, src, pos, |items|) ==
            Success((CanonicalItems(env, fuel, element, items), pos + |EncodeItems(env, fuel, element, items).value|))
    decreases fuel, element, 1 + |items|
  {
    hide Encode, Decode, Canonical, InRange;
    if items != [] {
      var first := Encode(env, fuel, element, items[0]).value;
      AtConcat(src, pos, first, EncodeItems(env, fuel, element, items[1..]).value);
      DecodeEncode(env, fuel, element, items[0], src, pos);
      DecodeEncodeItems(env, fuel, element, items[1..], src, pos + |first|);
    }
  }

  lemma {:induction false} DecodeEncodeTuple(env: Environment, fuel: nat, types: seq<Schema>, items: seq<Value>,
                                             src: Source, pos: nat)
    requires |items| == |types|
    requires EncodeTuple(env, fuel, types, items).Success? && TupleInRange(env, fuel, types, items)
    requires At(src, pos, EncodeTuple(env, fuel, types, items).value)
    ensures DecodeTuple(env, fuel, types, src, pos) ==
            Success((CanonicalTuple(env, fuel, types, items), pos + |EncodeTuple(env, fuel, types, items).value|))
    decreases fuel, types, 0
  {
    hide Encode, Decode, Canonical, InRange;
    if types != [] {
      var first := Encode(env, fuel, types[0], items[0]).value;
      AtConcat(src, pos, first, EncodeTuple(env, fuel, types[1..], items[1..]).value);
      DecodeEncode(env, fuel, types[0], items[0], src, pos);
      DecodeEncodeTuple(env, fuel, types[1..], items[1..], src, pos + |first|);
    }
  }

  lemma {:induction false} DecodeEncodeFields(env: Environment, fuel: nat, fields: seq<(string, Schema)>,
                                              entries: seq<(string, Value)>,
                                              src: Source, pos: nat)
    requires EncodeFields(env, fuel, fields, entries).Success? && FieldsInRange(env, fuel, fields, entries)
    requires At(src, pos, EncodeFields(env, fuel, fields, entries).value)
    ensures DecodeFields(env, fuel, fields, src, pos) ==
            Success((CanonicalFields(env, fuel, fields, entries), pos
                + |EncodeFields(env, fuel, fields, entries).value|))
    decreases fuel, fields, 0
  {
    hide Encode, Decode, Canonical, InRange, Lookup;
    if fields != [] {
      assert fields decreases to fields[0];
      var v := Lookup(entries, fields[0].0);
      var first := Encode(env, fuel, fields[0].1, v).value;
      AtConcat(src, pos, first, EncodeFields(env, fuel, fields[1..], entries).value);
      DecodeEncode(env, fuel, fields[0].1, v, src, pos);
      DecodeEncodeFields(env, fuel, fields[1..], entries, src, pos + |first|);
    }
  }
}
