/** What values are written as and read back as, put together from their parts: the combinators of
    packages/bcs/src/bcs.ts applied to values whose parts are known. */
module BcsWrites {
  import opened Octets
  import opened Uleb
  import opened Results
  import opened BcsSchema
  import opened BcsRoundTrip
  import opened BcsLaws
  import opened BcsEnums

  /** The value v serializes within the range of lengths, and comes back as c. */
  ghost predicate Writes(env: Environment, fuel: nat, schema: Schema, v: Value, c: Value) {
    Encode(env, fuel, schema, v).Success? && InRange(env, fuel, schema, v) && Canonical(env, fuel, schema, v) == c
  }

  lemma WritesMeans(env: Environment, fuel: nat, schema: Schema, v: Value, c: Value)
    requires Writes(env, fuel, schema, v, c)
    ensures Encode(env, fuel, schema, v).Success? && InRange(env, fuel, schema, v)
    ensures Canonical(env, fuel, schema, v) == c
  {
  }

  lemma ByteWrites(env: Environment, fuel: nat, n: int)
    requires 0 <= n < 256
    ensures Writes(env, fuel, U8, Number(n), Number(n))
  {
    assert Pow256(1) == 256;
  }

  lemma BytesWrite(env: Environment, fuel: nat, bytes: seq<Byte>)
    ensures Writes(env, fuel, Bytes(|bytes|), ByteArray(bytes), ByteArray(bytes))
  {
  }

  lemma TransformWrites(env: Environment, fuel: nat, schema: Schema, v: Value, c: Value)
    requires schema.Transform? && Writes(env, fuel, schema.inner, schema.input(v), c)
    ensures Writes(env, fuel, schema, v, schema.output(c))
  {
  }

  // ---------- vector and tuple ----------

  lemma {:induction false} ItemsWrite(env: Environment, fuel: nat, element: Schema, items: seq<Value>, cs: seq<Value>)
    requires |items| == |cs| && forall i :: 0 <= i < |items| ==> Writes(env, fuel, element, items[i], cs[i])
    ensures EncodeItems(env, fuel, element, items).Success? && ItemsInRange(env, fuel, element, items)
    ensures CanonicalItems(env, fuel, element, items) == cs
    decreases |items|
  {
    hide Encode, InRange, Canonical, Writes;
    if items != [] {
      WritesMeans(env, fuel, element, items[0], cs[0]);
      assert forall i :: 0 < i < |items| ==> items[i] == items[1..][i - 1] && cs[i] == cs[1..][i - 1];
      ItemsWrite(env, fuel, element, items[1..], cs[1..]);
      assert cs == [cs[0]] + cs[1..];
    }
  }

  lemma VectorWrites(env: Environment, fuel: nat, element: Schema, v: Value, cs: seq<Value>)
    requires Items(v).Some? && |Items(v).value| == |cs| < TWO_31
    requires forall i :: 0 <= i < |cs| ==> Writes(env, fuel, element, Items(v).value[i], cs[i])
    ensures Writes(env, fuel, Vector(element), v, List(cs))
  {
    hide Writes;
    ItemsWrite(env, fuel, element, Items(v).value, cs);
    VectorOfItems(env, fuel, element, v);
  }

  lemma VectorOfItems(env: Environment, fuel: nat, element: Schema, v: Value)
    requires Items(v).Some? && |Items(v).value| < TWO_31
    requires EncodeItems(env, fuel, element, Items(v).value).Success?
    requires ItemsInRange(env, fuel, element, Items(v).value)
    ensures Writes(env, fuel, Vector(element), v, List(CanonicalItems(env, fuel, element, Items(v).value)))
  {
    hide EncodeItems, ItemsInRange, CanonicalItems, Items, UlebEncode;
  }

  /** The numbers of a byte array, as a vector of bytes reads them. */
  function NumbersOf(bytes: seq<Byte>): (r: seq<Value>)
    ensures |r| == |bytes| && forall i :: 0 <= i < |r| ==> r[i] == Number(bytes[i])
  {
    seq(|bytes|, i requires 0 <= i < |bytes| => Number(bytes[i]))
  }

  lemma ByteListWrites(env: Environment, fuel: nat, bytes: seq<Byte>)
    requires |bytes| < TWO_31
    ensures Writes(env, fuel, Vector(U8), ByteArray(bytes), List(NumbersOf(bytes)))
  {
    hide Writes;
    forall i | 0 <= i < |bytes|
      ensures Writes(env, fuel, U8, Items(ByteArray(bytes)).value[i], NumbersOf(bytes)[i])
    {
      ByteWrites(env, fuel, bytes[i]);
    }
    VectorWrites(env, fuel, U8, ByteArray(bytes), NumbersOf(bytes));
  }

  lemma PairWrites(env: Environment, fuel: nat, a: Schema, b: Schema, v: Value, w: Value, c: Value, d: Value)
    requires Writes(env, fuel, a, v, c) && Writes(env, fuel, b, w, d)
    ensures Writes(env, fuel, Tuple([a, b]), List([v, w]), List([c, d]))
  {
    var types, items := [a, b], [v, w];
    hide Encode, InRange, Canonical;
    assert types[1..] == [b] && items[1..] == [w] && types[1..][1..] == [] && items[1..][1..] == [];
    assert EncodeTuple(env, fuel, types[1..], items[1..]).Success? && TupleInRange(env, fuel, types[1..], items[1..]);
    assert CanonicalTuple(env, fuel, types[1..], items[1..]) == [d] + [] == [d];
    assert EncodeTuple(env, fuel, types, items).Success? && TupleInRange(env, fuel, types, items);
    assert CanonicalTuple(env, fuel, types, items) == [c] + [d] == [c, d];
    TupleOfItems(env, fuel, types, items);
  }

  lemma TupleOfItems(env: Environment, fuel: nat, types: seq<Schema>, items: seq<Value>)
    requires |types| == |items|
    requires EncodeTuple(env, fuel, types, items).Success? && TupleInRange(env, fuel, types, items)
    ensures Writes(env, fuel, Tuple(types), List(items), List(CanonicalTuple(env, fuel, types, items)))
  {
    hide EncodeTuple, TupleInRange, CanonicalTuple;
  }

  // ---------- struct, enum and option ----------

  /** The entries of an object with the fields of a struct. */
  function WithNames(fields: seq<(string, Schema)>, cs: seq<Value>): (r: seq<(string, Value)>)
    requires |fields| == |cs|
    ensures |r| == |cs| && forall i :: 0 <= i < |r| ==> r[i] == (fields[i].0, cs[i])
  {
    seq(|cs|, i requires 0 <= i < |cs| => (fields[i].0, cs[i]))
  }

  lemma WithNamesStep(fields: seq<(string, Schema)>, cs: seq<Value>)
    requires |fields| == |cs| > 0
    ensures WithNames(fields, cs) == [(fields[0].0, cs[0])] + WithNames(fields[1..], cs[1..])
  {
  }

  lemma FieldsStep(env: Environment, fuel: nat, fields: seq<(string, Schema)>, all: seq<(string, Value)>, c: Value)
    requires fields != [] && Writes(env, fuel, fields[0].1, Lookup(all, fields[0].0), c)
    requires EncodeFields(env, fuel, fields[1..], all).Success? && FieldsInRange(env, fuel, fields[1..], all)
    ensures EncodeFields(env, fuel, fields, all).Success? && FieldsInRange(env, fuel, fields, all)
    ensures CanonicalFields(env, fuel, fields, all)
            == [(fields[0].0, c)] + CanonicalFields(env, fuel, fields[1..], all)
  {
    hide Encode, InRange, Canonical, Lookup;
  }

  lemma {:induction false} FieldsWrite(env: Environment, fuel: nat, fields: seq<(string, Schema)>,
                                       all: seq<(string, Value)>, cs: seq<Value>)
    requires |fields| == |cs|
    requires forall i :: 0 <= i < |cs| ==> Writes(env, fuel, fields[i].1, Lookup(all, fields[i].0), cs[i])
    ensures EncodeFields(env, fuel, fields, all).Success? && FieldsInRange(env, fuel, fields, all)
    ensures CanonicalFields(env, fuel, fields, all) == WithNames(fields, cs)
    decreases |fields|
  {
    if fields != [] {
      hide *;
      assert forall i :: 0 < i < |fields| ==> fields[i] == fields[1..][i - 1] && cs[i] == cs[1..][i - 1];
      FieldsWrite(env, fuel, fields[1..], all, cs[1..]);
      FieldsStep(env, fuel, fields, all, cs[0]);
      WithNamesStep(fields, cs);
    }
  }

  /** An object with the fields of a struct, in any order and with others beside them. */
  lemma StructWrites(env: Environment, fuel: nat, fields: seq<(string, Schema)>, entries: seq<(string, Value)>,
                     cs: seq<Value>)
    requires |fields| == |cs|
    requires forall i :: 0 <= i < |cs| ==> Writes(env, fuel, fields[i].1, Lookup(entries, fields[i].0), cs[i])
    ensures Writes(env, fuel, Struct(fields), Obj(entries), Obj(WithNames(fields, cs)))
  {
    hide Writes, Lookup, WithNames;
    FieldsWrite(env, fuel, fields, entries, cs);
    StructOfFields(env, fuel, fields, entries);
  }

  lemma NamedLookup(fields: seq<(string, Schema)>, values: seq<Value>, i: nat)
    requires |fields| == |values| && DistinctNames(fields) && i < |fields|
    ensures Lookup(WithNames(fields, values), fields[i].0) == values[i]
  {
    LookupAt(WithNames(fields, values), i);
  }

  /** An object with exactly the fields of a struct, in order. */
  lemma NamedWrites(env: Environment, fuel: nat, fields: seq<(string, Schema)>, values: seq<Value>, cs: seq<Value>)
    requires |fields| == |values| == |cs| && DistinctNames(fields)
    requires forall i :: 0 <= i < |cs| ==> Writes(env, fuel, fields[i].1, values[i], cs[i])
    ensures Writes(env, fuel, Struct(fields), Obj(WithNames(fields, values)), Obj(WithNames(fields, cs)))
  {
    hide Writes, Lookup, WithNames, DistinctNames;
    forall i | 0 <= i < |cs|
      ensures Writes(env, fuel, fields[i].1, Lookup(WithNames(fields, values), fields[i].0), cs[i])
    {
      NamedLookup(fields, values, i);
    }
    StructWrites(env, fuel, fields, WithNames(fields, values), cs);
  }

  lemma StructOfFields(env: Environment, fuel: nat, fields: seq<(string, Schema)>, entries: seq<(string, Value)>)
    requires EncodeFields(env, fuel, fields, entries).Success? && FieldsInRange(env, fuel, fields, entries)
    ensures Writes(env, fuel, Struct(fields), Obj(entries), Obj(CanonicalFields(env, fuel, fields, entries)))
  {
    hide EncodeFields, FieldsInRange, CanonicalFields;
  }

  /** An object with one variant of an enum, with or without its kind beside it. */
  lemma EnumWrites(env: Environment, fuel: nat, variants: seq<(string, Option<Schema>)>, entries: seq<(string, Value)>,
                   name: string, payload: Value, c: Value)
    requires HasVariant(variants, name) && !HasVariant(variants, "$kind") && |variants| < TWO_31
    requires variants[IndexOf(variants, name)].1.Some?
    requires payload != Undefined && Writes(env, fuel, variants[IndexOf(variants, name)].1.value, payload, c)
    requires entries == [(name, payload)] || entries == [(name, payload), ("$kind", Text(name))]
    ensures Writes(env, fuel, Enum(variants), Obj(entries), EnumValue(name, c))
  {
    var i := IndexOf(variants, name);
    if entries == [(name, payload)] {
      OneEntry(variants, name, payload);
    } else {
      EnumEntries(variants, entries);
    }
    hide IndexOf, HasVariant, DefinedKeys, ChosenEntry;
    assert PayloadInRange(env, fuel, variants[i], payload) by {
      hide InRange;
    }
    hide Encode, Canonical, InRange, EnumValue;
    EnumWritesChosen(env, fuel, variants, entries, (name, payload));
    EnumInRange(env, fuel, variants, entries, name, payload);
  }

  lemma EnumInRange(env: Environment, fuel: nat, variants: seq<(string, Option<Schema>)>,
                    entries: seq<(string, Value)>, name: string, payload: Value)
    requires ChosenEntry(variants, entries) == Some((name, payload)) && |variants| < TWO_31
    requires HasVariant(variants, name) && PayloadInRange(env, fuel, variants[IndexOf(variants, name)], payload)
    ensures InRange(env, fuel, Enum(variants), Obj(entries))
  {
    hide IndexOf, PayloadInRange, ChosenEntry;
  }

  lemma SomeWrites(env: Environment, fuel: nat, element: Schema, v: Value, c: Value)
    requires !IsNull(v) && !IsNull(c) && Writes(env, fuel, element, v, c)
    ensures Writes(env, fuel, OptionOf(element), v, c)
  {
    var variants := [("None", None), ("Some", Some(element))];
    assert variants[1..] == [("Some", Some(element))] && variants[1..][1..] == [];
    assert IndexOf(variants, "Some") == 1 && !HasVariant(variants, "$kind");
    hide Encode, Canonical, InRange, IndexOf, Lookup;
    assert OptionInput(v) == Obj([("Some", v)]);
    EnumWrites(env, fuel, variants, [("Some", v)], "Some", v, c);
    SomePayload(c);
    assert EnumValue("Some", c) == Obj([("Some", c), ("$kind", Text("Some"))]);
    LookupSecond("Some", c, Text("Some"));
    assert OptionOutput(EnumValue("Some", c)) == c;
    TransformWrites(env, fuel, OptionOf(element), v, EnumValue("Some", c));
  }
}
