/** What the round trip means for callers: which values come back unchanged, that encodings cannot be
    confused, that sizes are predicted, and that the bound on lazy unfolding does not matter. */
module BcsLaws {
  import opened Octets
  import opened Uleb
  import opened Numbers
  import opened Results
  import opened BcsSchema
  import opened BcsRoundTrip

  // ---------- Parsing a serialized value ----------

  function Parse(env: Environment, fuel: nat, schema: Schema, bytes: seq<Byte>): Parsed<Value> {
    Decode(env, fuel, schema, Source(bytes, 0, |bytes|), 0)
  }

  /** Parsing an encoding, followed by anything, yields the canonical value and stops where the encoding ends. */
  lemma ParseInvertsEncode(env: Environment, fuel: nat, schema: Schema, v: Value, suffix: seq<Byte>)
    requires Encode(env, fuel, schema, v).Success? && InRange(env, fuel, schema, v)
    ensures var bytes := Encode(env, fuel, schema, v).value;
            Parse(env, fuel, schema, bytes + suffix) == Success((Canonical(env, fuel, schema, v), |bytes|))
  {
    hide Encode, Decode, Canonical, InRange;
    var bytes := Encode(env, fuel, schema, v).value;
    var src := Source(bytes + suffix, 0, |bytes + suffix|);
    assert src.buffer[0..] == src.buffer && (bytes + suffix)[..|bytes|] == bytes;
    DecodeEncode(env, fuel, schema, v, src, 0);
  }

  /** No encoding is a proper prefix of another, and equal encodings mean the same value. */
  lemma EncodingsArePrefixFree(env: Environment, fuel: nat, schema: Schema, v: Value, w: Value)
    requires Encode(env, fuel, schema, v).Success? && InRange(env, fuel, schema, v)
    requires Encode(env, fuel, schema, w).Success? && InRange(env, fuel, schema, w)
    requires Encode(env, fuel, schema, v).value <= Encode(env, fuel, schema, w).value
    ensures Encode(env, fuel, schema, v) == Encode(env, fuel, schema, w)
    ensures Canonical(env, fuel, schema, v) == Canonical(env, fuel, schema, w)
  {
    hide Encode, Canonical, InRange, Parse;
    var a, b := Encode(env, fuel, schema, v).value, Encode(env, fuel, schema, w).value;
    ParseInvertsEncode(env, fuel, schema, v, b[|a|..]);
    ParseInvertsEncode(env, fuel, schema, w, []);
    assert a + b[|a|..] == b && b + [] == b;
  }

  // ---------- Values that come back unchanged ----------

  ghost predicate DistinctNames<T>(fields: seq<(string, T)>) {
    forall i, j :: 0 <= i < j < |fields| ==> fields[i].0 != fields[j].0
  }

  /** Field and variant names are distinct, as in any record, and no variant is called $kind. */
  ghost predicate WellFormed(schema: Schema)
    decreases schema, 0
  {
    match schema
    case FixedArray(_, element) => WellFormed(element)
    case Vector(element) => WellFormed(element)
    case Tuple(types) => WellFormedTuple(types)
    case Struct(fields) => DistinctNames(fields) && WellFormedFields(fields)
    case Enum(variants) => DistinctNames(variants) && !HasVariant(variants, "$kind") && WellFormedVariants(variants)
    case Transform(inner, _, _) => WellFormed(inner)
    case _ => true
  }

  ghost predicate WellFormedTuple(types: seq<Schema>)
    decreases types, 0
  {
    types != [] ==> WellFormed(types[0]) && WellFormedTuple(types[1..])
  }

  ghost predicate WellFormedFields(fields: seq<(string, Schema)>)
    decreases fields, 0
  {
    fields != [] ==>
      assert fields decreases to fields[0];
      WellFormed(fields[0].1) && WellFormedFields(fields[1..])
  }

  ghost predicate WellFormedVariants(variants: seq<(string, Option<Schema>)>)
    decreases variants, 0
  {
    forall i :: 0 <= i < |variants| ==> WellFormedPayload(variants[i])
  }

  ghost predicate WellFormedPayload(variant: (string, Option<Schema>))
    decreases variant, 0
  {
    variant.1.Some? ==> WellFormed(variant.1.value)
  }

  ghost predicate WellFormedEnvironment(env: Environment) {
    forall name :: name in env ==> WellFormed(env[name])
  }

  ghost predicate DecodedLeaf(schema: Schema, v: Value)
    requires Leaf(schema)
  {
    match schema
    case U8 | U16 | U32 => v.Number? && 0 <= v.n < Pow256(SmallSize(schema))
    case U64 | U128 | U256 =>
      v.Text? && exists n: nat :: n < Pow256(BigSize(schema)) && v.text == ToText(n, 10)
    case Bool => v.Boolean?
    case Uleb128 => v.Number?
    case Bytes(size) => v.ByteArray? && |v.bytes| == size
    case ByteVector => v.ByteArray?
    case StringLike(toBytes, fromBytes) => v.Text? && fromBytes(toBytes(v.text)) == v.text
  }

  /** The values that come back unchanged, in the terms of the schema: the form that reading produces.
      A transformed value is one that its two functions bring back around the inner schema; which ones
      these are for options and maps is said beside those combinators. */
  ghost predicate Decoded(env: Environment, fuel: nat, schema: Schema, v: Value)
    decreases fuel, schema, 0
  {
    match schema
    case FixedArray(size, element) => v.List? && |v.items| == size && DecodedItems(env, fuel, element, v.items)
    case Vector(element) => v.List? && DecodedItems(env, fuel, element, v.items)
    case Tuple(types) => v.List? && |v.items| == |types| && DecodedTuple(env, fuel, types, v.items)
    case Struct(fields) => v.Obj? && |v.entries| == |fields| && DecodedFields(env, fuel, fields, v.entries)
    case Enum(variants) =>
      && v.Obj? && |v.entries| == 2 && v.entries[1] == ("$kind", Text(v.entries[0].0))
      && var i := IndexOf(variants, v.entries[0].0);
         i < |variants| && DecodedPayload(env, fuel, variants[i], v.entries[0].1)
    case Transform(inner, input, output) =>
      Encode(env, fuel, inner, input(v)).Success? && output(Canonical(env, fuel, inner, input(v))) == v
    case Lazy(name) => fuel > 0 && name in env && Decoded(env, fuel - 1, env[name], v)
    case _ => DecodedLeaf(schema, v)
  }

  /** The payload of a variant with data is neither null nor undefined, unless true stands for it. */
  ghost predicate DecodedPayload(env: Environment, fuel: nat, variant: (string, Option<Schema>), payload: Value)
    decreases fuel, variant, 0
  {
    if variant.1.None? then payload == Boolean(true)
    else
      && payload != Null && payload != Undefined
      && (Decoded(env, fuel, variant.1.value, payload) || StandsForNull(env, fuel, variant.1.value, payload))
  }

  /** The value true where true is written as something that reads as null or undefined. */
  ghost predicate StandsForNull(env: Environment, fuel: nat, schema: Schema, v: Value) {
    v == Boolean(true) && Encode(env, fuel, schema, v).Success? && IsNull(Canonical(env, fuel, schema, v))
  }

  predicate IsNull(v: Value) {
    v == Null || v == Undefined
  }

  ghost predicate DecodedItems(env: Environment, fuel: nat, element: Schema, items: seq<Value>)
    decreases fuel, element, 1 + |items|
  {
    items != [] ==> Decoded(env, fuel, element, items[0]) && DecodedItems(env, fuel, element, items[1..])
  }

  ghost predicate DecodedTuple(env: Environment, fuel: nat, types: seq<Schema>, items: seq<Value>)
    requires |items| == |types|
    decreases fuel, types, 0
  {
    types != [] ==> Decoded(env, fuel, types[0], items[0]) && DecodedTuple(env, fuel, types[1..], items[1..])
  }

  ghost predicate DecodedFields(env: Environment, fuel: nat, fields: seq<(string, Schema)>,
                                entries: seq<(string, Value)>)
    requires |entries| == |fields|
    decreases fuel, fields, 0
  {
    fields != [] ==>
      assert fields decreases to fields[0];
      && entries[0].0 == fields[0].0
      && Decoded(env, fuel, fields[0].1, entries[0].1)
      && DecodedFields(env, fuel, fields[1..], entries[1..])
  }

  lemma {:induction false} LookupAt(entries: seq<(string, Value)>, i: nat)
    requires DistinctNames(entries) && i < |entries|
    ensures Lookup(entries, entries[i].0) == entries[i].1
  {
    if i > 0 {
      LookupAt(entries[1..], i - 1);
    }
  }

  lemma {:induction false} DecodedFieldNames(env: Environment, fuel: nat, fields: seq<(string, Schema)>,
                                             entries: seq<(string, Value)>)
    requires |entries| == |fields| && DecodedFields(env, fuel, fields, entries)
    ensures forall i :: 0 <= i < |fields| ==> entries[i].0 == fields[i].0
    decreases |fields|
  {
    hide Decoded;
    if fields != [] {
      DecodedFieldNames(env, fuel, fields[1..], entries[1..]);
    }
  }

  lemma LeafStays(schema: Schema, v: Value)
    requires Leaf(schema) && DecodedLeaf(schema, v)
    ensures EncodeLeaf(schema, v).Success? && CanonicalLeaf(schema, v) == v
  {
    hide LittleEndian, Pow256, ToText, FromText, UlebEncode;
    if schema.U64? || schema.U128? || schema.U256? {
      var n: nat :| n < Pow256(BigSize(schema)) && v.text == ToText(n, 10);
      FromToText(n, 10);
    }
  }

  /** A value in that form serializes, and reading it back gives the same value. */
  lemma {:induction false} DecodedStays(env: Environment, fuel: nat, schema: Schema, v: Value)
    requires WellFormed(schema) && WellFormedEnvironment(env) && Decoded(env, fuel, schema, v)
    ensures Encode(env, fuel, schema, v).Success? && Canonical(env, fuel, schema, v) == v
    decreases fuel, schema, 0, 1
  {
    hide UlebEncode, EncodeLeaf, CanonicalLeaf, DecodedLeaf, EncodeItems, CanonicalItems, DecodedItems, EncodeTuple,
        CanonicalTuple, DecodedTuple;
    match schema {
      case FixedArray(_, element) => ItemsStay(env, fuel, element, v.items);
      case Vector(element) => ItemsStay(env, fuel, element, v.items);
      case Tuple(types) => TupleStays(env, fuel, types, v.items);
      case Struct(fields) =>
        DecodedFieldNames(env, fuel, fields, v.entries);
        forall i | 0 <= i < |fields| ensures Lookup(v.entries, fields[i].0) == v.entries[i].1 {
          LookupAt(v.entries, i);
        }
        FieldsStay(env, fuel, fields, v.entries, v.entries);
      case Enum(variants) => EnumStays(env, fuel, schema, variants, v);
      case Transform(_, _, _) =>
      case Lazy(name) => DecodedStays(env, fuel - 1, env[name], v);
      case _ => LeafStays(schema, v);
    }
  }

  lemma {:induction false} ItemsStay(env: Environment, fuel: nat, element: Schema, items: seq<Value>)
    requires WellFormed(element) && WellFormedEnvironment(env) && DecodedItems(env, fuel, element, items)
    ensures EncodeItems(env, fuel, element, items).Success? && CanonicalItems(env, fuel, element, items) == items
    decreases fuel, element, 1 + |items|
  {
    hide Encode, Canonical, Decoded, WellFormed;
    if items != [] {
      DecodedStays(env, fuel, element, items[0]);
      ItemsStay(env, fuel, element, items[1..]);
    }
  }

  lemma {:induction false} TupleStays(env: Environment, fuel: nat, types: seq<Schema>, items: seq<Value>)
    requires |items| == |types| && WellFormedTuple(types) && WellFormedEnvironment(env)
        && DecodedTuple(env, fuel, types, items)
    ensures EncodeTuple(env, fuel, types, items).Success? && CanonicalTuple(env, fuel, types, items) == items
    decreases fuel, types, 0
  {
    hide Encode, Canonical, Decoded, WellFormed;
    if types != [] {
      DecodedStays(env, fuel, types[0], items[0]);
      TupleStays(env, fuel, types[1..], items[1..]);
    }
  }

  lemma {:induction false} FieldsStay(env: Environment, fuel: nat, fields: seq<(string, Schema)>,
                                      entries: seq<(string, Value)>,
                                      all: seq<(string, Value)>)
    requires |entries| == |fields| && WellFormedFields(fields) && WellFormedEnvironment(env)
        && DecodedFields(env, fuel, fields, entries)
    requires forall i :: 0 <= i < |fields| ==> Lookup(all, fields[i].0) == entries[i].1
    ensures EncodeFields(env, fuel, fields, all).Success? && CanonicalFields(env, fuel, fields, all) == entries
    decreases fuel, fields, 0
  {
    hide Encode, Canonical, Decoded, WellFormed, Lookup;
    if fields != [] {
      assert fields decreases to fields[0];
      DecodedStays(env, fuel, fields[0].1, entries[0].1);
      FieldsStay(env, fuel, fields[1..], entries[1..], all);
    }
  }

  lemma {:induction false} EnumStays(env: Environment, fuel: nat, schema: Schema,
                                     variants: seq<(string, Option<Schema>)>, v: Value)
    requires schema == Enum(variants)
    requires WellFormed(schema) && WellFormedEnvironment(env) && Decoded(env, fuel, schema, v)
    ensures Encode(env, fuel, schema, v).Success? && Canonical(env, fuel, schema, v) == v
    decreases fuel, schema, 0, 0
  {
    hide UlebEncode;
    var (kind, payload) := v.entries[0];
    var i := IndexOf(variants, kind);
    assert payload != Undefined;
    EnumEntries(variants, v.entries);
    assert WellFormedPayload(variants[i]);
    PayloadStays(env, fuel, variants[i], payload);
  }

  /** An object with one variant and its $kind has one defined key, the first entry. */
  lemma EnumEntries(variants: seq<(string, Option<Schema>)>, entries: seq<(string, Value)>)
    requires |entries| == 2 && HasVariant(variants, entries[0].0) && entries[0].1 != Undefined
    requires entries[1].0 == "$kind" && !HasVariant(variants, "$kind")
    ensures DefinedKeys(variants, entries) == 1 && ChosenEntry(variants, entries) == Some(entries[0])
    ensures entries[0].0 != "$kind"
  {
    hide IndexOf, HasVariant;
    var rest := entries[1..];
    assert rest[1..] == [];
    assert DefinedKeys(variants, rest) == 0;
  }

  lemma {:induction false} PayloadStays(env: Environment, fuel: nat, variant: (string, Option<Schema>), payload: Value)
    requires WellFormedPayload(variant) && WellFormedEnvironment(env) && DecodedPayload(env, fuel, variant, payload)
    ensures EncodePayload(env, fuel, variant, payload).Success?
    ensures EnumValue(variant.0, CanonicalPayload(env, fuel, variant, payload)) == EnumValue(variant.0, payload)
    decreases fuel, variant, 0
  {
    if variant.1.Some? {
      if Decoded(env, fuel, variant.1.value, payload) {
        DecodedStays(env, fuel, variant.1.value, payload);
      }
      hide Encode, Canonical, Decoded, WellFormed;
    }
  }

  // ---------- No other value comes back unchanged ----------

  lemma LeafFixed(schema: Schema, v: Value)
    requires Leaf(schema) && EncodeLeaf(schema, v).Success? && CanonicalLeaf(schema, v) == v
    ensures DecodedLeaf(schema, v)
  {
    hide LittleEndian, Pow256, ToText, FromText, UlebEncode;
    if schema.U64? || schema.U128? || schema.U256? {
      var n: nat := AsBigInt(v).value;
      assert n < Pow256(BigSize(schema)) && v.text == ToText(n, 10);
    }
  }

  lemma {:induction false} FixedIsDecoded(env: Environment, fuel: nat, schema: Schema, v: Value)
    requires WellFormed(schema) && WellFormedEnvironment(env)
    requires Encode(env, fuel, schema, v).Success? && Canonical(env, fuel, schema, v) == v
    ensures Decoded(env, fuel, schema, v)
    decreases fuel, schema, 0, 1
  {
    hide UlebEncode, EnumValue;
    match schema {
      case FixedArray(_, element) => ItemsAreDecoded(env, fuel, element, v.items);
      case Vector(element) => ItemsAreDecoded(env, fuel, element, v.items);
      case Tuple(types) => TupleIsDecoded(env, fuel, types, v.items);
      case Struct(fields) =>
        CanonicalFieldNames(env, fuel, fields, v.entries);
        forall i | 0 <= i < |fields| ensures Lookup(v.entries, fields[i].0) == v.entries[i].1 {
          LookupAt(v.entries, i);
        }
        FieldsAreDecoded(env, fuel, fields, v.entries, v.entries);
      case Enum(variants) => EnumIsDecoded(env, fuel, schema, variants, v);
      case Transform(_, _, _) =>
      case Lazy(name) => FixedIsDecoded(env, fuel - 1, env[name], v);
      case _ =>
        hide EncodeLeaf, CanonicalLeaf, DecodedLeaf;
        LeafFixed(schema, v);
    }
  }

  lemma {:induction false} ItemsAreDecoded(env: Environment, fuel: nat, element: Schema, items: seq<Value>)
    requires WellFormed(element) && WellFormedEnvironment(env)
    requires EncodeItems(env, fuel, element, items).Success? && CanonicalItems(env, fuel, element, items) == items
    ensures DecodedItems(env, fuel, element, items)
    decreases fuel, element, 1 + |items|
  {
    hide Encode, Canonical, Decoded, WellFormed;
    if items != [] {
      assert CanonicalItems(env, fuel, element, items)[1..] == CanonicalItems(env, fuel, element, items[1..]);
      FixedIsDecoded(env, fuel, element, items[0]);
      ItemsAreDecoded(env, fuel, element, items[1..]);
    }
  }

  lemma {:induction false} TupleIsDecoded(env: Environment, fuel: nat, types: seq<Schema>, items: seq<Value>)
    requires |items| == |types|
    requires WellFormedTuple(types) && WellFormedEnvironment(env)
    requires EncodeTuple(env, fuel, types, items).Success? && CanonicalTuple(env, fuel, types, items) == items
    ensures DecodedTuple(env, fuel, types, items)
    decreases fuel, types, 0
  {
    hide Encode, Canonical, Decoded, WellFormed;
    if types != [] {
      assert CanonicalTuple(env, fuel, types, items)[1..] == CanonicalTuple(env, fuel, types[1..], items[1..]);
      FixedIsDecoded(env, fuel, types[0], items[0]);
      TupleIsDecoded(env, fuel, types[1..], items[1..]);
    }
  }

  lemma {:induction false} CanonicalFieldNames(env: Environment, fuel: nat, fields: seq<(string, Schema)>,
                                               entries: seq<(string, Value)>)
    ensures |CanonicalFields(env, fuel, fields, entries)| == |fields|
    ensures forall i :: 0 <= i < |fields| ==> CanonicalFields(env, fuel, fields, entries)[i].0 == fields[i].0
    decreases |fields|
  {
    hide Canonical, Lookup;
    if fields != [] {
      CanonicalFieldNames(env, fuel, fields[1..], entries);
    }
  }

  lemma {:induction false} FieldsAreDecoded(env: Environment, fuel: nat, fields: seq<(string, Schema)>,
                                            entries: seq<(string, Value)>,
                                            all: seq<(string, Value)>)
    requires |entries| == |fields|
    requires WellFormedFields(fields) && WellFormedEnvironment(env)
    requires EncodeFields(env, fuel, fields, all).Success? && CanonicalFields(env, fuel, fields, all) == entries
    requires forall i :: 0 <= i < |entries| ==> entries[i].0 == fields[i].0 && Lookup(all, fields[i].0) == entries[i].1
    ensures DecodedFields(env, fuel, fields, entries)
    decreases fuel, fields, 0
  {
    hide Encode, Canonical, Decoded, WellFormed, Lookup;
    if fields != [] {
      assert fields decreases to fields[0];
      assert CanonicalFields(env, fuel, fields, all)[1..] == CanonicalFields(env, fuel, fields[1..], all);
      FixedIsDecoded(env, fuel, fields[0].1, entries[0].1);
      FieldsAreDecoded(env, fuel, fields[1..], entries[1..], all);
    }
  }

  lemma {:induction false} EnumIsDecoded(env: Environment, fuel: nat, schema: Schema,
                                         variants: seq<(string, Option<Schema>)>, v: Value)
    requires schema == Enum(variants)
    requires WellFormed(schema) && WellFormedEnvironment(env)
    requires Encode(env, fuel, schema, v).Success? && Canonical(env, fuel, schema, v) == v
    ensures Decoded(env, fuel, schema, v)
    decreases fuel, schema, 0, 0
  {
    hide UlebEncode;
    var (name, payload) := ChosenEntry(variants, Entries(v)).value;
    var i := IndexOf(variants, name);
    assert name != "$kind";
    var p := v.entries[0].1;
    assert v.entries[0].0 == name && v.entries[1] == ("$kind", Text(name)) && |v.entries| == 2;
    assert payload == p;
    assert WellFormedPayload(variants[i]);
    PayloadIsDecoded(env, fuel, variants, i, p);
  }

  lemma {:induction false} PayloadIsDecoded(env: Environment, fuel: nat, variants: seq<(string, Option<Schema>)>,
                                            i: nat, payload: Value)
    requires i < |variants|
    requires WellFormedPayload(variants[i]) && WellFormedEnvironment(env)
    requires EncodePayload(env, fuel, variants[i], payload).Success?
    requires var c := CanonicalPayload(env, fuel, variants[i], payload);
             payload == if c == Null || c == Undefined then Boolean(true) else c
    ensures DecodedPayload(env, fuel, variants[i], payload)
    decreases fuel, variants, 0
  {
    if variants[i].1.Some? {
      assert variants decreases to variants[i];
      assert variants[i] decreases to variants[i].1;
      var t := variants[i].1.value;
      hide Encode, Canonical, Decoded, WellFormed;
      if Canonical(env, fuel, t, payload) == payload {
        FixedIsDecoded(env, fuel, t, payload);
      }
    }
  }

  /** A value that serializes comes back unchanged exactly when it has the form that its schema asks for. */
  lemma RoundTripsExactly(env: Environment, fuel: nat, schema: Schema, v: Value, suffix: seq<Byte>)
    requires WellFormed(schema) && WellFormedEnvironment(env)
    requires Encode(env, fuel, schema, v).Success? && InRange(env, fuel, schema, v)
    ensures var bytes := Encode(env, fuel, schema, v).value;
            Parse(env, fuel, schema, bytes + suffix) == Success((v, |bytes|)) <==> Decoded(env, fuel, schema, v)
  {
    hide Encode, Canonical, Decoded, InRange, Parse, WellFormed;
    ParseInvertsEncode(env, fuel, schema, v, suffix);
    if Decoded(env, fuel, schema, v) {
      DecodedStays(env, fuel, schema, v);
    }
    if Canonical(env, fuel, schema, v) == v {
      FixedIsDecoded(env, fuel, schema, v);
    }
  }
}
