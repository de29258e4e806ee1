/** The values that reading yields, and that they serialize and come back. */
module BcsForms {
  import opened Octets
  import opened Numbers
  import opened Results
  import opened BcsSchema
  import opened BcsRoundTrip
  import opened BcsLaws
  import opened BcsEnums
  import opened BcsCombinators

  // ---------- Schemas whose text codecs and transformations settle ----------

  /** A codec for text gives back the text that it has made of any bytes. */
  ghost predicate SettledText(toBytes: string -> seq<Byte>, fromBytes: seq<Byte> -> string) {
    forall bytes: seq<Byte> :: fromBytes(toBytes(fromBytes(bytes))) == fromBytes(bytes)
  }

  /** What a transformation makes of a value that the inner schema reads is a value that comes back. */
  ghost predicate SettledOutput(env: Environment, fuel: nat, schema: Schema)
    requires schema.Transform?
  {
    forall w: Value :: Decoded(env, fuel, schema.inner, w) ==> Decoded(env, fuel, schema, schema.output(w))
  }

  /** The data of a variant do not read as null or undefined, or else true is written as such data. */
  ghost predicate SettledNull(env: Environment, fuel: nat, schema: Schema) {
    forall w: Value :: Decoded(env, fuel, schema, w) && IsNull(w) ==> StandsForNull(env, fuel, schema, Boolean(true))
  }

  ghost predicate Settled(env: Environment, fuel: nat, schema: Schema)
    decreases fuel, schema, 0
  {
    match schema
    case StringLike(toBytes, fromBytes) => SettledText(toBytes, fromBytes)
    case FixedArray(_, element) => Settled(env, fuel, element)
    case Vector(element) => Settled(env, fuel, element)
    case Tuple(types) => SettledTuple(env, fuel, types)
    case Struct(fields) => SettledFields(env, fuel, fields)
    case Enum(variants) => forall i :: 0 <= i < |variants| ==> SettledVariant(env, fuel, variants, i)
    case Transform(inner, _, _) => Settled(env, fuel, inner) && SettledOutput(env, fuel, schema)
    case Lazy(name) => fuel > 0 && name in env ==> Settled(env, fuel - 1, env[name])
    case _ => true
  }

  ghost predicate SettledTuple(env: Environment, fuel: nat, types: seq<Schema>)
    decreases fuel, types, 0
  {
    types != [] ==> Settled(env, fuel, types[0]) && SettledTuple(env, fuel, types[1..])
  }

  ghost predicate SettledFields(env: Environment, fuel: nat, fields: seq<(string, Schema)>)
    decreases fuel, fields, 0
  {
    fields != [] ==>
      assert fields decreases to fields[0];
      Settled(env, fuel, fields[0].1) && SettledFields(env, fuel, fields[1..])
  }

  ghost predicate SettledVariant(env: Environment, fuel: nat, variants: seq<(string, Option<Schema>)>, i: nat)
    requires i < |variants|
    decreases fuel, variants, 0
  {
    assert variants decreases to variants[i];
    assert variants[i] decreases to variants[i].1;
    variants[i].1.Some? ==> Settled(env, fuel, variants[i].1.value) && SettledNull(env, fuel, variants[i].1.value)
  }

  // ---------- Reading yields the form that comes back ----------

  /** A wide read yields the number that its bytes stand for. */
  lemma {:induction false} ReadWideValue(src: Source, pos: nat, n: nat)
    requires ValidSource(src) && (n == 4 || n == 8 || n == 16 || n == 32) && ReadWide(src, pos, n).Success?
    ensures pos + n <= src.length
    ensures ReadWide(src, pos, n) == Success((FromLittleEndian(src.buffer[src.offset + pos..][..n]), pos + n))
    decreases n
  {
    hide FromLittleEndian, JoinHex;
    if n > 4 {
      var half := n / 2;
      ReadWideValue(src, pos, half);
      ReadWideValue(src, pos + half, half);
      var rest := src.buffer[src.offset + pos..];
      var low, high := rest[..half], src.buffer[src.offset + (pos + half)..][..half];
      assert high == rest[half..][..half] && rest[..n] == low + high;
      WideRead(low, high);
    }
  }

  lemma LeafReadsDecoded(schema: Schema, src: Source, pos: nat)
    requires ValidSource(src) && Leaf(schema) && DecodeLeaf(schema, src, pos).Success?
    requires schema.StringLike? ==> SettledText(schema.toBytes, schema.fromBytes)
    ensures DecodedLeaf(schema, DecodeLeaf(schema, src, pos).value.0)
  {
    hide ReadWide, ReadUleb, ReadBytes, ToText, Pow256, FromLittleEndian;
    match schema {
      case U8 | U16 | U32 =>
        FromLittleEndianBound(src.buffer[src.offset + pos..][..SmallSize(schema)]);
      case U64 | U128 | U256 =>
        ReadWideValue(src, pos, BigSize(schema));
        FromLittleEndianBound(src.buffer[src.offset + pos..][..BigSize(schema)]);
      case Bytes(size) => BytesRead(src, pos, size);
      case StringLike(toBytes, fromBytes) =>
        var (length, start) := ReadUleb(src, pos).value;
        var bytes := ReadBytes(src, start, length).value.0;
        assert fromBytes(toBytes(fromBytes(bytes))) == fromBytes(bytes);
      case _ =>
    }
  }

  lemma BytesRead(src: Source, pos: nat, n: int)
    ensures ReadBytes(src, pos, n).Success? ==> |ReadBytes(src, pos, n).value.0| == n
  {
  }

  /** Every value that reading yields, from any data, has the form that serializes and comes back. */
  lemma {:induction false} ReadsDecoded(env: Environment, fuel: nat, schema: Schema, src: Source, pos: nat)
    requires ValidSource(src) && WellFormed(schema) && WellFormedEnvironment(env) && Settled(env, fuel, schema)
    requires Decode(env, fuel, schema, src, pos).Success?
    ensures Decoded(env, fuel, schema, Decode(env, fuel, schema, src, pos).value.0)
    decreases fuel, schema, 0, 1
  {
    hide ReadUleb, DecodeLeaf, DecodedLeaf, DecodeItems, DecodedItems, DecodeTuple, DecodedTuple, DecodeFields,
         DecodedFields, DecodePayload, DecodedPayload, EnumValue, Encode, Canonical;
    match schema {
      case FixedArray(size, element) => ItemsReadDecoded(env, fuel, element, src, pos, size);
      case Vector(element) =>
        var (length, start) := ReadUleb(src, pos).value;
        ItemsReadDecoded(env, fuel, element, src, start, length);
      case Tuple(types) => TupleReadsDecoded(env, fuel, types, src, pos);
      case Struct(fields) => FieldsReadDecoded(env, fuel, fields, src, pos);
      case Enum(variants) => EnumReadsDecoded(env, fuel, schema, variants, src, pos);
      case Transform(inner, _, output) =>
        ReadsDecoded(env, fuel, inner, src, pos);
        assert SettledOutput(env, fuel, schema);
      case Lazy(name) => ReadsDecoded(env, fuel - 1, env[name], src, pos);
      case _ => LeafReadsDecoded(schema, src, pos);
    }
  }

  lemma {:induction false} EnumReadsDecoded(env: Environment, fuel: nat, schema: Schema,
                                            variants: seq<(string, Option<Schema>)>, src: Source, pos: nat)
    requires schema == Enum(variants)
    requires ValidSource(src) && WellFormed(schema) && WellFormedEnvironment(env) && Settled(env, fuel, schema)
    requires Decode(env, fuel, schema, src, pos).Success?
    ensures Decoded(env, fuel, schema, Decode(env, fuel, schema, src, pos).value.0)
    decreases fuel, schema, 0, 0
  {
    hide ReadUleb, DecodePayload, DecodedPayload;
    var (i, start) := ReadUleb(src, pos).value;
    VariantIndex(variants, i);
    var w := DecodePayload(env, fuel, variants[i], src, start).value.0;
    assert SettledVariant(env, fuel, variants, i) && WellFormedPayload(variants[i]);
    assert HasVariant(variants, variants[i].0) && variants[i].0 != "$kind";
    PayloadReadsDecoded(env, fuel, variants, i, src, start);
    assert EnumValue(variants[i].0, w)
        == Obj([(variants[i].0, if IsNull(w) then Boolean(true) else w), ("$kind", Text(variants[i].0))]);
  }

  lemma VariantIndex(variants: seq<(string, Option<Schema>)>, i: nat)
    requires DistinctNames(variants) && i < |variants|
    ensures IndexOf(variants, variants[i].0) == i
  {
    hide IndexOf;
  }

  lemma {:induction false} PayloadReadsDecoded(env: Environment, fuel: nat, variants: seq<(string, Option<Schema>)>,
                                               i: nat, src: Source, pos: nat)
    requires i < |variants| && ValidSource(src) && WellFormedPayload(variants[i]) && WellFormedEnvironment(env)
    requires SettledVariant(env, fuel, variants, i) && DecodePayload(env, fuel, variants[i], src, pos).Success?
    ensures var w := DecodePayload(env, fuel, variants[i], src, pos).value.0;
            DecodedPayload(env, fuel, variants[i], if IsNull(w) then Boolean(true) else w)
    decreases fuel, variants, 0
  {
    if variants[i].1.Some? {
      assert variants decreases to variants[i];
      assert variants[i] decreases to variants[i].1;
      var t := variants[i].1.value;
      hide Decode, Decoded, StandsForNull, Settled, WellFormed;
      ReadsDecoded(env, fuel, t, src, pos);
      assert SettledNull(env, fuel, t);
    }
  }

  lemma {:induction false} ItemsReadDecoded(env: Environment, fuel: nat, element: Schema, src: Source, pos: nat, n: nat)
    requires ValidSource(src) && WellFormed(element) && WellFormedEnvironment(env) && Settled(env, fuel, element)
    requires DecodeItems(env, fuel, element, src, pos, n).Success?
    ensures var items := DecodeItems(env, fuel, element, src, pos, n).value.0;
            |items| == n && DecodedItems(env, fuel, element, items)
    decreases fuel, element, 1 + n
  {
    hide Decode, Decoded, Settled, WellFormed;
    if n > 0 {
      ReadsDecoded(env, fuel, element, src, pos);
      var (first, next) := Decode(env, fuel, element, src, pos).value;
      ItemsReadDecoded(env, fuel, element, src, next, n - 1);
      var rest := DecodeItems(env, fuel, element, src, next, n - 1).value.0;
      assert ([first] + rest)[1..] == rest;
    }
  }

  lemma {:induction false} TupleReadsDecoded(env: Environment, fuel: nat, types: seq<Schema>, src: Source, pos: nat)
    requires ValidSource(src) && WellFormedTuple(types) && WellFormedEnvironment(env) && SettledTuple(env, fuel, types)
    requires DecodeTuple(env, fuel, types, src, pos).Success?
    ensures var items := DecodeTuple(env, fuel, types, src, pos).value.0;
            |items| == |types| && DecodedTuple(env, fuel, types, items)
    decreases fuel, types, 0
  {
    hide Decode, Decoded, Settled, WellFormed;
    if types != [] {
      ReadsDecoded(env, fuel, types[0], src, pos);
      var (first, next) := Decode(env, fuel, types[0], src, pos).value;
      TupleReadsDecoded(env, fuel, types[1..], src, next);
      var rest := DecodeTuple(env, fuel, types[1..], src, next).value.0;
      assert ([first] + rest)[1..] == rest;
    }
  }

  lemma {:induction false} FieldsReadDecoded(env: Environment, fuel: nat, fields: seq<(string, Schema)>, src: Source,
                                             pos: nat)
    requires ValidSource(src) && WellFormedFields(fields) && WellFormedEnvironment(env)
    requires SettledFields(env, fuel, fields) && DecodeFields(env, fuel, fields, src, pos).Success?
    ensures var entries := DecodeFields(env, fuel, fields, src, pos).value.0;
            |entries| == |fields| && DecodedFields(env, fuel, fields, entries)
    decreases fuel, fields, 0
  {
    hide Decode, Decoded, Settled, WellFormed;
    if fields != [] {
      assert fields decreases to fields[0];
      ReadsDecoded(env, fuel, fields[0].1, src, pos);
      var (first, next) := Decode(env, fuel, fields[0].1, src, pos).value;
      FieldsReadDecoded(env, fuel, fields[1..], src, next);
      var rest := DecodeFields(env, fuel, fields[1..], src, next).value.0;
      assert ([(fields[0].0, first)] + rest)[1..] == rest;
    }
  }

  /** Whatever data a value was read from, it serializes, and its own bytes read as the same value. */
  lemma ReadValuesComeBack(env: Environment, fuel: nat, schema: Schema, src: Source, pos: nat)
    requires ValidSource(src) && WellFormed(schema) && WellFormedEnvironment(env) && Settled(env, fuel, schema)
    requires Decode(env, fuel, schema, src, pos).Success?
    ensures var v := Decode(env, fuel, schema, src, pos).value.0;
            Encode(env, fuel, schema, v).Success? && Canonical(env, fuel, schema, v) == v
  {
    hide Decode, Encode, Canonical, Decoded, WellFormed, Settled;
    ReadsDecoded(env, fuel, schema, src, pos);
    DecodedStays(env, fuel, schema, Decode(env, fuel, schema, src, pos).value.0);
  }

  // ---------- Which schemas settle ----------

  ghost predicate IsOption(schema: Schema) {
    && schema.Transform? && schema.inner.Enum?
    && |schema.inner.variants| == 2 && schema.inner.variants[1].1.Some?
    && schema == OptionOf(schema.inner.variants[1].1.value)
  }

  ghost predicate IsMap(schema: Schema) {
    && schema.Transform? && schema.inner.Vector? && schema.inner.element.Tuple?
    && |schema.inner.element.types| == 2
    && schema == MapOf(schema.inner.element.types[0], schema.inner.element.types[1])
  }

  /** Not an option, where the lazy schemas of the given names are none either. */
  ghost predicate NotOptional(solid: set<string>, schema: Schema) {
    match schema
    case Transform(_, _, _) => IsMap(schema)
    case Lazy(name) => name in solid
    case _ => true
  }

  /** The schemas of the source's own combinators, with codecs for text that settle, where no element of
      an option and no data of a variant are themselves optional. */
  ghost predicate Plain(solid: set<string>, schema: Schema)
    decreases schema, 0
  {
    match schema
    case StringLike(toBytes, fromBytes) => SettledText(toBytes, fromBytes)
    case FixedArray(_, element) => Plain(solid, element)
    case Vector(element) => Plain(solid, element)
    case Tuple(types) => PlainTuple(solid, types)
    case Struct(fields) => PlainFields(solid, fields)
    case Enum(variants) => forall i :: 0 <= i < |variants| ==> PlainVariant(solid, variants, i)
    case Transform(inner, _, _) => Plain(solid, inner) && (IsOption(schema) || IsMap(schema))
    case _ => true
  }

  ghost predicate PlainTuple(solid: set<string>, types: seq<Schema>)
    decreases types, 0
  {
    types != [] ==> Plain(solid, types[0]) && PlainTuple(solid, types[1..])
  }

  ghost predicate PlainFields(solid: set<string>, fields: seq<(string, Schema)>)
    decreases fields, 0
  {
    fields != [] ==>
      assert fields decreases to fields[0];
      Plain(solid, fields[0].1) && PlainFields(solid, fields[1..])
  }

  ghost predicate PlainVariant(solid: set<string>, variants: seq<(string, Option<Schema>)>, i: nat)
    requires i < |variants|
    decreases variants, 0
  {
    assert variants decreases to variants[i];
    assert variants[i] decreases to variants[i].1;
    variants[i].1.Some? ==> Plain(solid, variants[i].1.value) && NotOptional(solid, variants[i].1.value)
  }

  ghost predicate PlainEnvironment(solid: set<string>, env: Environment) {
    forall name :: name in env ==> Plain(solid, env[name]) && (name in solid ==> NotOptional(solid, env[name]))
  }

  /** What is not optional does not read as null or undefined. */
  lemma {:induction false} PlainIsNotNull(solid: set<string>, env: Environment, fuel: nat, schema: Schema, w: Value)
    requires WellFormed(schema) && WellFormedEnvironment(env)
    requires NotOptional(solid, schema) && PlainEnvironment(solid, env) && Decoded(env, fuel, schema, w)
    ensures !IsNull(w)
    decreases fuel
  {
    hide DecodedItems, DecodedTuple, DecodedFields, DecodedPayload, ToText, Pow256, Plain;
    match schema {
      case Transform(_, _, _) =>
        var types := schema.inner.element.types;
        MapParts(types[0], types[1]);
        MapRoundTripsExactly(env, fuel, types[0], types[1], w);
      case Lazy(name) => PlainIsNotNull(solid, env, fuel - 1, env[name], w);
      case _ =>
    }
  }

  lemma MapParts(key: Schema, value: Schema)
    requires WellFormed(MapOf(key, value))
    ensures WellFormed(key) && WellFormed(value)
  {
    var types := [key, value];
    assert WellFormed(Vector(Tuple(types)));
    assert WellFormed(Tuple(types));
    assert WellFormedTuple(types);
    hide WellFormed;
    assert types[1..] == [value];
    assert WellFormedTuple(types[1..]);
  }

  /** Every such schema settles, however deep lazy schemas unfold. */
  lemma {:induction false} PlainSettles(solid: set<string>, env: Environment, fuel: nat, schema: Schema)
    requires WellFormed(schema) && WellFormedEnvironment(env)
    requires Plain(solid, schema) && PlainEnvironment(solid, env)
    ensures Settled(env, fuel, schema)
    decreases fuel, schema, 0
  {
    hide Decoded, DistinctNames, HasVariant, WellFormedPayload;
    match schema {
      case FixedArray(_, element) => PlainSettles(solid, env, fuel, element);
      case Vector(element) => PlainSettles(solid, env, fuel, element);
      case Tuple(types) => PlainTupleSettles(solid, env, fuel, types);
      case Struct(fields) => PlainFieldsSettle(solid, env, fuel, fields);
      case Enum(variants) =>
        hide PlainVariant, SettledVariant;
        forall i | 0 <= i < |variants|
          ensures SettledVariant(env, fuel, variants, i)
        {
          assert WellFormedPayload(variants[i]);
          PlainVariantSettles(solid, env, fuel, variants, i);
        }
      case Transform(inner, _, _) =>
        PlainSettles(solid, env, fuel, inner);
        hide Plain, Settled, WellFormed;
        PlainOutputSettles(env, fuel, schema);
      case Lazy(name) =>
        if fuel > 0 && name in env {
          PlainSettles(solid, env, fuel - 1, env[name]);
        }
      case _ =>
    }
  }

  lemma OptionParts(element: Schema)
    requires WellFormed(OptionOf(element))
    ensures WellFormed(element) && WellFormed(Enum([("None", None), ("Some", Some(element))]))
  {
    var variants := [("None", None), ("Some", Some(element))];
    assert WellFormed(Enum(variants));
    assert WellFormedVariants(variants);
    assert WellFormedPayload(variants[1]);
  }

  lemma PlainOutputSettles(env: Environment, fuel: nat, schema: Schema)
    requires WellFormed(schema) && WellFormedEnvironment(env)
    requires IsOption(schema) || IsMap(schema)
    ensures SettledOutput(env, fuel, schema)
  {
    hide Decoded;
    if IsOption(schema) {
      var element := schema.inner.variants[1].1.value;
      OptionParts(element);
      hide WellFormed;
      forall w: Value | Decoded(env, fuel, schema.inner, w)
        ensures Decoded(env, fuel, schema, schema.output(w))
      {
        OptionOutputStays(env, fuel, element, w);
      }
    } else {
      var types := schema.inner.element.types;
      MapParts(types[0], types[1]);
      hide WellFormed;
      forall w: Value | Decoded(env, fuel, schema.inner, w)
        ensures Decoded(env, fuel, schema, schema.output(w))
      {
        MapOutputStays(env, fuel, types[0], types[1], w);
      }
    }
  }

  lemma {:induction false} PlainVariantSettles(solid: set<string>, env: Environment, fuel: nat,
                                               variants: seq<(string, Option<Schema>)>, i: nat)
    requires i < |variants| && WellFormedPayload(variants[i]) && WellFormedEnvironment(env)
    requires PlainVariant(solid, variants, i) && PlainEnvironment(solid, env)
    ensures SettledVariant(env, fuel, variants, i)
    decreases fuel, variants, 0
  {
    if variants[i].1.Some? {
      assert variants decreases to variants[i];
      assert variants[i] decreases to variants[i].1;
      var t := variants[i].1.value;
      hide Plain, Settled, Decoded, StandsForNull, WellFormed;
      PlainSettles(solid, env, fuel, t);
      forall w: Value | Decoded(env, fuel, t, w)
        ensures !IsNull(w)
      {
        PlainIsNotNull(solid, env, fuel, t, w);
      }
    }
  }

  lemma {:induction false} PlainTupleSettles(solid: set<string>, env: Environment, fuel: nat, types: seq<Schema>)
    requires WellFormedTuple(types) && WellFormedEnvironment(env)
    requires PlainTuple(solid, types) && PlainEnvironment(solid, env)
    ensures SettledTuple(env, fuel, types)
    decreases fuel, types, 0
  {
    hide Plain, Settled, WellFormed;
    if types != [] {
      PlainSettles(solid, env, fuel, types[0]);
      PlainTupleSettles(solid, env, fuel, types[1..]);
    }
  }

  lemma {:induction false} PlainFieldsSettle(solid: set<string>, env: Environment, fuel: nat,
                                             fields: seq<(string, Schema)>)
    requires WellFormedFields(fields) && WellFormedEnvironment(env)
    requires PlainFields(solid, fields) && PlainEnvironment(solid, env)
    ensures SettledFields(env, fuel, fields)
    decreases fuel, fields, 0
  {
    hide Plain, Settled, WellFormed;
    if fields != [] {
      assert fields decreases to fields[0];
      PlainSettles(solid, env, fuel, fields[0].1);
      PlainFieldsSettle(solid, env, fuel, fields[1..]);
    }
  }

  /** Whatever data a value of such a schema was read from, it serializes and comes back. */
  lemma PlainComesBack(solid: set<string>, env: Environment, fuel: nat, schema: Schema, src: Source, pos: nat)
    requires ValidSource(src) && WellFormed(schema) && WellFormedEnvironment(env)
    requires Plain(solid, schema) && PlainEnvironment(solid, env)
    requires Decode(env, fuel, schema, src, pos).Success?
    ensures var v := Decode(env, fuel, schema, src, pos).value.0;
            Encode(env, fuel, schema, v).Success? && Canonical(env, fuel, schema, v) == v
  {
    hide *;
    PlainSettles(solid, env, fuel, schema);
    ReadValuesComeBack(env, fuel, schema, src, pos);
  }

  /** A linked list: a struct whose last field is an option of the struct itself, by a lazy schema. */
  function ListNode(element: Schema): Schema {
    Struct([("value", element), ("next", OptionOf(Lazy("node")))])
  }

  function ListEnvironment(element: Schema): Environment {
    map["node" := ListNode(element)]
  }

  /** Linked lists settle for every element that does, however long they are. */
  lemma LinkedListSettles(element: Schema, fuel: nat)
    requires WellFormed(element) && Plain({"node"}, element)
    ensures WellFormed(ListNode(element)) && WellFormedEnvironment(ListEnvironment(element))
    ensures Settled(ListEnvironment(element), fuel, ListNode(element))
  {
    LinkedListIsPlain(element);
    assert NotOptional({"node"}, ListNode(element));
    hide Plain, WellFormed, Settled, NotOptional, ListNode;
    PlainSettles({"node"}, ListEnvironment(element), fuel, ListNode(element));
  }

  lemma LinkedListIsPlain(element: Schema)
    requires WellFormed(element) && Plain({"node"}, element)
    ensures WellFormed(ListNode(element)) && Plain({"node"}, ListNode(element))
  {
    var next := OptionOf(Lazy("node"));
    var fields := [("value", element), ("next", next)];
    OptionOfNodeIsPlain(Lazy("node"));
    hide Plain, WellFormed, OptionOf;
    assert fields[1..] == [("next", next)] && fields[1..][1..] == [];
    assert WellFormedFields(fields[1..]) && PlainFields({"node"}, fields[1..]);
    assert WellFormedFields(fields) && PlainFields({"node"}, fields);
    hide WellFormedFields, PlainFields;
    StructOfPlain(fields);
  }

  lemma OptionOfNodeIsPlain(element: Schema)
    requires WellFormed(element) && Plain({"node"}, element) && NotOptional({"node"}, element)
    ensures WellFormed(OptionOf(element)) && Plain({"node"}, OptionOf(element))
  {
    var variants := [("None", None), ("Some", Some(element))];
    OptionIsWellFormed(element);
    assert PlainVariant({"node"}, variants, 0) && PlainVariant({"node"}, variants, 1);
    assert IsOption(OptionOf(element));
  }

  lemma StructOfPlain(fields: seq<(string, Schema)>)
    requires DistinctNames(fields) && WellFormedFields(fields) && PlainFields({"node"}, fields)
    ensures WellFormed(Struct(fields)) && Plain({"node"}, Struct(fields))
  {
    hide WellFormedFields, PlainFields;
  }

  // ---------- option and map ----------

  /** An option settles if its element does and does not read as null. */
  lemma OptionSettles(env: Environment, fuel: nat, element: Schema)
    requires WellFormed(element) && WellFormedEnvironment(env)
    requires Settled(env, fuel, element) && SettledNull(env, fuel, element)
    ensures WellFormed(OptionOf(element)) && Settled(env, fuel, OptionOf(element))
  {
    var variants := [("None", None), ("Some", Some(element))];
    OptionEnumSettles(env, fuel, element);
    hide Decoded, Settled, WellFormed;
    forall w: Value | Decoded(env, fuel, Enum(variants), w)
      ensures Decoded(env, fuel, OptionOf(element), OptionOutput(w))
    {
      OptionOutputStays(env, fuel, element, w);
    }
    OptionOfSettles(env, fuel, element);
  }

  lemma OptionOfSettles(env: Environment, fuel: nat, element: Schema)
    requires var inner := Enum([("None", None), ("Some", Some(element))]);
             && WellFormed(inner) && Settled(env, fuel, inner)
             && forall w: Value :: Decoded(env, fuel, inner, w) ==>
                  Decoded(env, fuel, OptionOf(element), OptionOutput(w))
    ensures WellFormed(OptionOf(element)) && Settled(env, fuel, OptionOf(element))
  {
    hide Decoded, OptionOutput, SettledVariant;
  }

  lemma OptionEnumSettles(env: Environment, fuel: nat, element: Schema)
    requires WellFormed(element) && Settled(env, fuel, element) && SettledNull(env, fuel, element)
    ensures var inner := Enum([("None", None), ("Some", Some(element))]);
            WellFormed(inner) && Settled(env, fuel, inner)
  {
    var variants := [("None", None), ("Some", Some(element))];
    OptionIsWellFormed(element);
    assert SettledVariant(env, fuel, variants, 0) && SettledVariant(env, fuel, variants, 1);
  }

  lemma OptionIsWellFormed(element: Schema)
    requires WellFormed(element)
    ensures WellFormed(Enum([("None", None), ("Some", Some(element))])) && WellFormed(OptionOf(element))
  {
    var variants := [("None", None), ("Some", Some(element))];
    assert !HasVariant(variants, "$kind") by {
      assert variants[1..] == [("Some", Some(element))] && variants[1..][1..] == [];
    }
    assert DistinctNames(variants);
    assert WellFormedPayload(variants[0]) && WellFormedPayload(variants[1]);
  }

  lemma OptionOutputStays(env: Environment, fuel: nat, element: Schema, w: Value)
    requires WellFormed(element) && WellFormedEnvironment(env)
    requires Decoded(env, fuel, Enum([("None", None), ("Some", Some(element))]), w)
    ensures Decoded(env, fuel, OptionOf(element), OptionOutput(w))
  {
    DecodedOption(env, fuel, element, w);
    var (name, p) := w.entries[0];
    LookupSecond(name, p, Text(name));
    hide Lookup, Encode, Canonical, WellFormed, StandsForNull;
    OptionRoundTripsExactly(env, fuel, element, OptionOutput(w));
  }

  lemma DecodedOption(env: Environment, fuel: nat, element: Schema, w: Value)
    requires Decoded(env, fuel, Enum([("None", None), ("Some", Some(element))]), w)
    ensures w.Obj? && |w.entries| == 2 && !IsNull(w.entries[0].1)
    ensures w == Obj([w.entries[0], ("$kind", Text(w.entries[0].0))])
    ensures w.entries[0].0 == "None" || w.entries[0].0 == "Some"
    ensures w.entries[0].0 == "Some" ==>
              Decoded(env, fuel, element, w.entries[0].1) || StandsForNull(env, fuel, element, w.entries[0].1)
  {
    var variants := [("None", None), ("Some", Some(element))];
    hide StandsForNull;
    var i := IndexOf(variants, w.entries[0].0);
    assert i == 0 || i == 1;
  }

  /** A nested option does not settle: a present option that holds an absent one reads as true, and true
      is written as a number, which reads as one. */
  lemma NestedOptionChanges(env: Environment, fuel: nat)
    ensures Decode(env, fuel, OptionOf(OptionOf(U8)), Source([1, 0], 0, 2), 0) == Success((Boolean(true), 2))
    ensures Encode(env, fuel, OptionOf(OptionOf(U8)), Boolean(true)) == Success([1, 1, 1])
    ensures Canonical(env, fuel, OptionOf(OptionOf(U8)), Boolean(true)) == Number(1)
  {
    NestedOptionReads(env, fuel, [1, 0]);
    NestedOptionWrites(env, fuel, OptionOf(U8));
    hide *;
  }

  lemma NestedOptionReads(env: Environment, fuel: nat, data: seq<Byte>)
    requires data == [1, 0]
    ensures Decode(env, fuel, OptionOf(OptionOf(U8)), Source(data, 0, 2), 0) == Success((Boolean(true), 2))
  {
    assert data[0..] == data && data[..2] == data;
    hide Decode, OptionOf;
    NestedNoneReadsTrue(env, fuel, U8, Source(data, 0, 2), 0);
  }

  lemma NestedOptionWrites(env: Environment, fuel: nat, inner: Schema)
    requires inner == OptionOf(U8)
    ensures Encode(env, fuel, OptionOf(inner), Boolean(true)) == Success([1, 1, 1])
    ensures Canonical(env, fuel, OptionOf(inner), Boolean(true)) == Number(1)
  {
    hide Encode, Canonical, OptionOf;
    TrueAsNumber(env, fuel);
    OptionWrites(env, fuel, U8, Boolean(true));
    assert [1] + [1] == [1, 1];
    OptionWrites(env, fuel, inner, Boolean(true));
    assert [1] + [1, 1] == [1, 1, 1];
  }

  lemma TrueAsNumber(env: Environment, fuel: nat)
    ensures Encode(env, fuel, U8, Boolean(true)) == Success([1])
    ensures Canonical(env, fuel, U8, Boolean(true)) == Number(1)
  {
    assert Pow256(1) == 256 && LittleEndian(0, 0) == [] && LittleEndian(1, 1) == [1];
  }

  /** A map settles if its keys and values do: of equal keys the last value stays, in the first place. */
  lemma MapSettles(env: Environment, fuel: nat, key: Schema, value: Schema)
    requires WellFormed(key) && WellFormed(value) && WellFormedEnvironment(env)
    requires Settled(env, fuel, key) && Settled(env, fuel, value)
    ensures Settled(env, fuel, MapOf(key, value))
  {
    var inner := Vector(Tuple([key, value]));
    PairSettled(env, fuel, key, value);
    hide Decoded, Settled, WellFormed;
    forall w: Value | Decoded(env, fuel, inner, w)
      ensures Decoded(env, fuel, MapOf(key, value), MapOutput(w))
    {
      MapOutputStays(env, fuel, key, value, w);
    }
    MapOfSettles(env, fuel, key, value);
  }

  lemma MapOfSettles(env: Environment, fuel: nat, key: Schema, value: Schema)
    requires var inner := Vector(Tuple([key, value]));
             && Settled(env, fuel, inner)
             && forall w: Value :: Decoded(env, fuel, inner, w) ==> Decoded(env, fuel, MapOf(key, value), MapOutput(w))
    ensures Settled(env, fuel, MapOf(key, value))
  {
    hide Decoded, MapOutput;
  }

  lemma PairSettled(env: Environment, fuel: nat, key: Schema, value: Schema)
    requires Settled(env, fuel, key) && Settled(env, fuel, value)
    ensures Settled(env, fuel, Vector(Tuple([key, value])))
  {
    var types := [key, value];
    assert SettledTuple(env, fuel, types) by {
      hide Settled;
      assert types[1..] == [value] && types[1..][1..] == [];
      assert SettledTuple(env, fuel, types[1..][1..]) && SettledTuple(env, fuel, types[1..]);
    }
    hide SettledTuple;
    assert Settled(env, fuel, Tuple(types));
  }

  lemma MapOutputStays(env: Environment, fuel: nat, key: Schema, value: Schema, w: Value)
    requires WellFormed(key) && WellFormed(value) && WellFormedEnvironment(env)
    requires Decoded(env, fuel, Vector(Tuple([key, value])), w)
    ensures Decoded(env, fuel, MapOf(key, value), MapOutput(w))
  {
    ListOfPairs(env, fuel, key, value, w.items);
    hide Decoded, WellFormed, Encode, Canonical, PairsOf, DecodedItems;
    PairsOfDecoded(env, fuel, key, value, w.items);
    MapRoundTripsExactly(env, fuel, key, value, MapOutput(w));
  }

  lemma {:induction false} PairsOfDecoded(env: Environment, fuel: nat, key: Schema, value: Schema, items: seq<Value>)
    requires forall i :: 0 <= i < |items| ==> PairItem(env, fuel, key, value, items[i])
    ensures DecodedPairs(env, fuel, key, value, PairsOf(items)) && DistinctKeys(PairsOf(items))
    decreases |items|
  {
    hide Decoded;
    if items != [] {
      var n := |items| - 1;
      PairsOfDecoded(env, fuel, key, value, items[..n]);
      assert PairItem(env, fuel, key, value, items[n]);
      SetPairKeeps(env, fuel, key, value, PairsOf(items[..n]), items[n].items[0], items[n].items[1]);
    }
  }

  /** Map.prototype.set keeps the keys distinct and adds no other key and value than its own. */
  lemma SetPairKeeps(env: Environment, fuel: nat, key: Schema, value: Schema, pairs: seq<(Value, Value)>, k: Value,
                     v: Value)
    requires DecodedPairs(env, fuel, key, value, pairs) && DistinctKeys(pairs)
    requires Decoded(env, fuel, key, k) && Decoded(env, fuel, value, v)
    ensures DecodedPairs(env, fuel, key, value, SetPair(pairs, k, v)) && DistinctKeys(SetPair(pairs, k, v))
  {
    assert DecodedPair(env, fuel, key, value, (k, v));
    hide DecodedPairs, DecodedPair, Decoded;
    SetPairDecoded(env, fuel, key, value, pairs, k, v);
    SetPairDistinct(pairs, k, v);
  }

  lemma {:induction false} SetPairDecoded(env: Environment, fuel: nat, key: Schema, value: Schema,
                                          pairs: seq<(Value, Value)>, k: Value, v: Value)
    requires DecodedPairs(env, fuel, key, value, pairs) && DecodedPair(env, fuel, key, value, (k, v))
    ensures DecodedPairs(env, fuel, key, value, SetPair(pairs, k, v))
    decreases |pairs|
  {
    hide DecodedPair, DecodedPairs, SameKey;
    if pairs == [] {
      FirstPair(env, fuel, key, value, (k, v), pairs);
      assert [(k, v)] + pairs == [(k, v)];
    } else {
      PairsDecoded(env, fuel, key, value, pairs);
      if SameKey(pairs[0].0, k) {
        ReplacedValue(env, fuel, key, value, pairs[0], (k, v));
        FirstPair(env, fuel, key, value, (pairs[0].0, v), pairs[1..]);
      } else {
        SetPairDecoded(env, fuel, key, value, pairs[1..], k, v);
        FirstPair(env, fuel, key, value, pairs[0], SetPair(pairs[1..], k, v));
      }
    }
  }

  lemma FirstPair(env: Environment, fuel: nat, key: Schema, value: Schema, pair: (Value, Value),
                  rest: seq<(Value, Value)>)
    requires DecodedPair(env, fuel, key, value, pair) && DecodedPairs(env, fuel, key, value, rest)
    ensures DecodedPairs(env, fuel, key, value, [pair] + rest)
  {
    hide DecodedPair;
  }

  lemma PairsDecoded(env: Environment, fuel: nat, key: Schema, value: Schema, pairs: seq<(Value, Value)>)
    requires DecodedPairs(env, fuel, key, value, pairs) && pairs != []
    ensures DecodedPair(env, fuel, key, value, pairs[0]) && DecodedPairs(env, fuel, key, value, pairs[1..])
  {
    hide DecodedPair;
  }

  lemma ReplacedValue(env: Environment, fuel: nat, key: Schema, value: Schema, a: (Value, Value), b: (Value, Value))
    requires DecodedPair(env, fuel, key, value, a) && DecodedPair(env, fuel, key, value, b)
    ensures DecodedPair(env, fuel, key, value, (a.0, b.1))
  {
    hide Decoded;
  }
}
