/** The combinators that packages/bcs/src/bcs.ts derives from others: option, map and lazy. */
module BcsCombinators {
  import opened Uleb
  import opened Results
  import opened BcsSchema
  import opened BcsRoundTrip
  import opened BcsLaws
  import opened BcsEnums

  // ---------- option ----------

  /** Null and undefined are written as 0, every other value as 1 and what the element makes of it; true
      comes back in the place of what the element reads as null. */
  lemma OptionWrites(env: Environment, fuel: nat, element: Schema, v: Value)
    ensures IsNull(v) ==>
              && Encode(env, fuel, OptionOf(element), v) == Success([0])
              && Canonical(env, fuel, OptionOf(element), v) == Null
    ensures !IsNull(v) ==>
              var bytes, c := Encode(env, fuel, element, v), Canonical(env, fuel, element, v);
              && Encode(env, fuel, OptionOf(element), v)
                 == (if bytes.Failure? then bytes else Success([1] + bytes.value))
              && Canonical(env, fuel, OptionOf(element), v) == if IsNull(c) then Boolean(true) else c
  {
    OptionUnfolds(env, fuel, element, v);
    OptionUnfolds(env, fuel, element, Null);
    OptionOfNull(env, fuel, element);
    if !IsNull(v) {
      var variants := [("None", None), ("Some", Some(element))];
      assert variants[1..] == [("Some", Some(element))];
      assert IndexOf(variants, "Some") == 1;
      OneEntry(variants, "Some", v);
      SmallUlebs();
      hide Lookup, Encode, Canonical, IndexOf, DefinedKeys, ChosenEntry;
      EnumWritesChosen(env, fuel, variants, [("Some", v)], ("Some", v));
      var c := Canonical(env, fuel, element, v);
      var p := if IsNull(c) then Boolean(true) else c;
      SomePayload(c);
      assert EnumValue("Some", c) == Obj([("Some", p), ("$kind", Text("Some"))]);
      LookupSecond("Some", p, Text("Some"));
    }
  }

  lemma TransformedForm(env: Environment, fuel: nat, schema: Schema, v: Value)
    requires schema.Transform?
    ensures Decoded(env, fuel, schema, v) <==>
            Encode(env, fuel, schema, v).Success? && Canonical(env, fuel, schema, v) == v
  {
  }

  /** An optional value serializes and comes back if and only if it is null, or a value that the element
      brings back, or true where the element writes true as something that reads as null. */
  lemma OptionRoundTripsExactly(env: Environment, fuel: nat, element: Schema, v: Value)
    requires WellFormed(element) && WellFormedEnvironment(env)
    ensures Encode(env, fuel, OptionOf(element), v).Success? && Canonical(env, fuel, OptionOf(element), v) == v
            <==>
            v == Null || (v != Undefined && (Decoded(env, fuel, element, v) || StandsForNull(env, fuel, element, v)))
    ensures Decoded(env, fuel, OptionOf(element), v) <==>
            v == Null || (v != Undefined && (Decoded(env, fuel, element, v) || StandsForNull(env, fuel, element, v)))
  {
    OptionWrites(env, fuel, element, v);
    TransformedForm(env, fuel, OptionOf(element), v);
    hide OptionOf, Encode, Canonical, Decoded, WellFormed;
    if Decoded(env, fuel, element, v) {
      DecodedStays(env, fuel, element, v);
    }
    if Encode(env, fuel, element, v).Success? && Canonical(env, fuel, element, v) == v {
      FixedIsDecoded(env, fuel, element, v);
    }
  }

  /** Null is written as 0, and a value of the element's type as 1 and its encoding; both come back. */
  lemma OptionComesBack(env: Environment, fuel: nat, element: Schema, v: Value)
    requires WellFormed(element) && WellFormedEnvironment(env)
    requires v == Null || (v != Undefined && Decoded(env, fuel, element, v))
    ensures Encode(env, fuel, OptionOf(element), v).Success?
    ensures Canonical(env, fuel, OptionOf(element), v) == v
    ensures v == Null ==> Encode(env, fuel, OptionOf(element), v).value == [0]
    ensures v != Null ==>
              var bytes := Encode(env, fuel, element, v);
              bytes.Success? && Encode(env, fuel, OptionOf(element), v).value == [1] + bytes.value
  {
    hide OptionOf, Encode, Canonical, Decoded, WellFormed;
    OptionRoundTripsExactly(env, fuel, element, v);
    OptionWrites(env, fuel, element, v);
  }

  lemma OptionUnfolds(env: Environment, fuel: nat, element: Schema, v: Value)
    ensures var variants := Enum([("None", None), ("Some", Some(element))]);
            && Encode(env, fuel, OptionOf(element), v) == Encode(env, fuel, variants, OptionInput(v))
            && Canonical(env, fuel, OptionOf(element), v)
                == OptionOutput(Canonical(env, fuel, variants, OptionInput(v)))
  {
    hide OptionInput, OptionOutput, UlebEncode, EnumValue, IndexOf, EncodePayload, CanonicalPayload;
  }

  // ---------- map ----------

  ghost predicate Primitive(v: Value) {
    v.Undefined? || v.Null? || v.Boolean? || v.Number? || v.Text?
  }

  /** No primitive key occurs twice; objects, lists and byte arrays are keys of their own. */
  ghost predicate DistinctKeys(pairs: seq<(Value, Value)>) {
    forall i, j :: 0 <= i < j < |pairs| && Primitive(pairs[i].0) ==> pairs[i].0 != pairs[j].0
  }

  /** Setting a primitive key that a map holds replaces its value at its place; any other key comes last. */
  lemma {:induction false} SetPairPlaces(pairs: seq<(Value, Value)>, key: Value, value: Value, i: nat)
    ensures Primitive(key) && i < |pairs| && pairs[i].0 == key && (forall j :: 0 <= j < i ==> pairs[j].0 != key) ==>
        SetPair(pairs, key, value) == pairs[i := (key, value)]
    ensures (Primitive(key) ==> forall j :: 0 <= j < |pairs| ==> pairs[j].0 != key) ==>
        SetPair(pairs, key, value) == pairs + [(key, value)]
    decreases |pairs|
  {
    if pairs != [] {
      var rest := pairs[1..];
      assert forall j :: 0 <= j < |rest| ==> rest[j] == pairs[j + 1];
      SetPairPlaces(rest, key, value, if i > 0 then i - 1 else 0);
      if 0 < i < |pairs| {
        assert [pairs[0]] + rest[i - 1 := (key, value)] == pairs[i := (key, value)];
      }
    }
  }

  /** What a map reads from pairs whose last one is given: of a repeated primitive key it keeps the first
      place and the last value. */
  lemma RepeatedKeyKeepsPlace(items: seq<Value>, key: Value, value: Value, i: nat)
    ensures var (before, after) := (PairsOf(items), PairsOf(items + [List([key, value])]));
            && (Primitive(key) && i < |before| && before[i].0 == key && (forall j :: 0 <= j < i ==> before[j].0 != key)
                ==> after == before[i := (key, value)])
            && ((Primitive(key) ==> forall j :: 0 <= j < |before| ==> before[j].0 != key) ==>
                  after == before + [(key, value)])
  {
    var all := items + [List([key, value])];
    assert all[..|items|] == items;
    PairsOfLast(all, |items|, key, value);
    SetPairPlaces(PairsOf(items), key, value, i);
    hide PairsOf, SetPair;
  }

  lemma {:induction false} SetNewKey(pairs: seq<(Value, Value)>, key: Value, value: Value)
    requires forall i :: 0 <= i < |pairs| ==> !SameKey(pairs[i].0, key)
    ensures SetPair(pairs, key, value) == pairs + [(key, value)]
  {
    if pairs != [] {
      SetNewKey(pairs[1..], key, value);
    }
  }

  function PairItems(pairs: seq<(Value, Value)>): (r: seq<Value>)
    ensures |r| == |pairs| && forall i :: 0 <= i < |r| ==> r[i] == List([pairs[i].0, pairs[i].1])
  {
    seq(|pairs|, i requires 0 <= i < |pairs| => List([pairs[i].0, pairs[i].1]))
  }

  lemma {:induction false} PairsOfItems(pairs: seq<(Value, Value)>)
    requires DistinctKeys(pairs)
    ensures PairsOf(PairItems(pairs)) == pairs
  {
    if pairs == [] {
    } else {
      var n := |pairs| - 1;
      PairsOfItems(pairs[..n]);
      assert PairItems(pairs)[..n] == PairItems(pairs[..n]);
      SetNewKey(pairs[..n], pairs[n].0, pairs[n].1);
      assert pairs == pairs[..n] + [(pairs[n].0, pairs[n].1)];
    }
  }

  lemma {:induction false} PairItemsDecoded(env: Environment, fuel: nat, key: Schema, value: Schema,
                                            pairs: seq<(Value, Value)>)
    requires forall i :: 0 <= i < |pairs| ==>
               Decoded(env, fuel, key, pairs[i].0) && Decoded(env, fuel, value, pairs[i].1)
    ensures DecodedItems(env, fuel, Tuple([key, value]), PairItems(pairs))
    decreases |pairs|
  {
    if pairs != [] {
      PairItemsDecoded(env, fuel, key, value, pairs[1..]);
      assert PairItems(pairs)[1..] == PairItems(pairs[1..]);
      PairDecoded(env, fuel, key, value, pairs[0].0, pairs[0].1);
      hide Decoded;
    }
  }

  lemma PairDecoded(env: Environment, fuel: nat, key: Schema, value: Schema, k: Value, v: Value)
    requires Decoded(env, fuel, key, k) && Decoded(env, fuel, value, v)
    ensures Decoded(env, fuel, Tuple([key, value]), List([k, v]))
  {
    var types, items := [key, value], [k, v];
    assert DecodedTuple(env, fuel, types, items) by {
      hide Decoded;
      assert types[1..] == [value] && items[1..] == [v];
      assert types[1..][1..] == [] && items[1..][1..] == [];
      assert DecodedTuple(env, fuel, types[1..][1..], items[1..][1..]);
      assert DecodedTuple(env, fuel, types[1..], items[1..]);
    }
    TupleDecoded(env, fuel, types, items);
  }

  lemma TupleDecoded(env: Environment, fuel: nat, types: seq<Schema>, items: seq<Value>)
    requires |items| == |types| && DecodedTuple(env, fuel, types, items)
    ensures Decoded(env, fuel, Tuple(types), List(items))
  {
    hide DecodedTuple;
  }

  lemma VectorDecoded(env: Environment, fuel: nat, element: Schema, items: seq<Value>)
    requires DecodedItems(env, fuel, element, items)
    ensures Decoded(env, fuel, Vector(element), List(items))
  {
    hide DecodedItems;
  }

  lemma PairWellFormed(key: Schema, value: Schema)
    requires WellFormed(key) && WellFormed(value)
    ensures WellFormed(Vector(Tuple([key, value])))
  {
    var types := [key, value];
    assert WellFormedTuple(types) by {
      hide WellFormed;
      assert types[1..] == [value] && types[1..][1..] == [];
      assert WellFormedTuple(types[1..][1..]);
      assert WellFormedTuple(types[1..]);
    }
    hide WellFormedTuple;
    assert WellFormed(Tuple(types));
  }

  /** A map whose keys and values are of their types comes back with the same pairs in the same
      order, as long as no two keys are the same to a Map. */
  lemma MapComesBack(env: Environment, fuel: nat, key: Schema, value: Schema, pairs: seq<(Value, Value)>)
    requires WellFormed(key) && WellFormed(value) && WellFormedEnvironment(env)
    requires forall i :: 0 <= i < |pairs| ==>
               Decoded(env, fuel, key, pairs[i].0) && Decoded(env, fuel, value, pairs[i].1)
    requires DistinctKeys(pairs)
    ensures Encode(env, fuel, MapOf(key, value), MapValue(pairs)).Success?
    ensures Canonical(env, fuel, MapOf(key, value), MapValue(pairs)) == MapValue(pairs)
  {
    var inner := Vector(Tuple([key, value]));
    var items := List(PairItems(pairs));
    PairItemsDecoded(env, fuel, key, value, pairs);
    PairWellFormed(key, value);
    VectorDecoded(env, fuel, Tuple([key, value]), PairItems(pairs));
    assert MapInput(MapValue(pairs)) == items;
    hide Encode, Canonical, Decoded, WellFormed, PairsOf, DecodedItems;
    MapUnfolds(env, fuel, key, value, MapValue(pairs));
    DecodedStays(env, fuel, inner, items);
    PairsOfItems(pairs);
  }

  lemma MapUnfolds(env: Environment, fuel: nat, key: Schema, value: Schema, v: Value)
    ensures var inner := Vector(Tuple([key, value]));
            && Encode(env, fuel, MapOf(key, value), v) == Encode(env, fuel, inner, MapInput(v))
            && Canonical(env, fuel, MapOf(key, value), v) == MapOutput(Canonical(env, fuel, inner, MapInput(v)))
  {
    hide MapInput, MapOutput, UlebEncode, EncodeItems, CanonicalItems, Items;
  }

  ghost predicate DecodedPairs(env: Environment, fuel: nat, key: Schema, value: Schema, pairs: seq<(Value, Value)>) {
    forall i :: 0 <= i < |pairs| ==> DecodedPair(env, fuel, key, value, pairs[i])
  }

  ghost predicate DecodedPair(env: Environment, fuel: nat, key: Schema, value: Schema, pair: (Value, Value)) {
    Decoded(env, fuel, key, pair.0) && Decoded(env, fuel, value, pair.1)
  }

  /** Decoded items of a list of pairs. */
  ghost predicate PairItem(env: Environment, fuel: nat, key: Schema, value: Schema, item: Value) {
    && item.List? && |item.items| == 2
    && Decoded(env, fuel, key, item.items[0]) && Decoded(env, fuel, value, item.items[1])
  }

  lemma {:induction false} ListOfPairs(env: Environment, fuel: nat, key: Schema, value: Schema, items: seq<Value>)
    requires DecodedItems(env, fuel, Tuple([key, value]), items)
    ensures forall i :: 0 <= i < |items| ==> PairItem(env, fuel, key, value, items[i])
    decreases |items|
  {
    if items != [] {
      PairFromTuple(env, fuel, key, value, items[0]);
      ListOfPairs(env, fuel, key, value, items[1..]);
      hide PairItem, Decoded;
      assert forall i :: 0 < i < |items| ==> items[i] == items[1..][i - 1];
    }
  }

  lemma PairFromTuple(env: Environment, fuel: nat, key: Schema, value: Schema, item: Value)
    requires Decoded(env, fuel, Tuple([key, value]), item)
    ensures PairItem(env, fuel, key, value, item)
  {
    var types := [key, value];
    assert |item.items| == 2 && DecodedTuple(env, fuel, types, item.items);
    hide Decoded;
    assert types[1..] == [value];
    assert DecodedTuple(env, fuel, types[1..], item.items[1..]);
  }

  lemma {:induction false} SetPairDistinct(pairs: seq<(Value, Value)>, k: Value, v: Value)
    requires DistinctKeys(pairs)
    ensures DistinctKeys(SetPair(pairs, k, v))
    decreases |pairs|
  {
    if pairs != [] && !SameKey(pairs[0].0, k) {
      SetPairDistinct(pairs[1..], k, v);
      KeyStaysApart(pairs[1..], k, v, pairs[0].0);
    }
  }

  lemma {:induction false} KeyStaysApart(pairs: seq<(Value, Value)>, k: Value, v: Value, other: Value)
    requires !SameKey(other, k) && forall i :: 0 <= i < |pairs| ==> !SameKey(other, pairs[i].0)
    ensures forall i :: 0 <= i < |SetPair(pairs, k, v)| ==> !SameKey(other, SetPair(pairs, k, v)[i].0)
    decreases |pairs|
  {
    if pairs != [] {
      KeyStaysApart(pairs[1..], k, v, other);
    }
  }

  ghost predicate AllPairs(items: seq<Value>) {
    forall i :: 0 <= i < |items| ==> items[i].List? && |items[i].items| == 2
  }

  lemma PairsOfLast(items: seq<Value>, n: nat, k: Value, v: Value)
    requires |items| == n + 1 && items[n] == List([k, v])
    ensures PairsOf(items) == SetPair(PairsOf(items[..n]), k, v) && items == items[..n] + [List([k, v])]
  {
    hide SetPair;
  }

  /** Of the items of a list of pairs, set keeps at most one per item, and all of them only if none
      replaces another. */
  lemma {:induction false} PairsOfAll(items: seq<Value>)
    requires AllPairs(items)
    ensures |PairsOf(items)| <= |items| && DistinctKeys(PairsOf(items))
    ensures |PairsOf(items)| == |items| ==> PairItems(PairsOf(items)) == items
    decreases |items|
  {
    if items != [] {
      var n := |items| - 1;
      var pair := items[n].items;
      assert pair == [pair[0], pair[1]];
      PairsOfAll(items[..n]);
      hide *;
      PairsOfLast(items, n, pair[0], pair[1]);
      SetPairGrows(PairsOf(items[..n]), pair[0], pair[1]);
      SetPairDistinct(PairsOf(items[..n]), pair[0], pair[1]);
      PairItemsSnoc(PairsOf(items[..n]), pair[0], pair[1]);
    }
  }

  lemma PairItemsSnoc(pairs: seq<(Value, Value)>, k: Value, v: Value)
    ensures PairItems(pairs + [(k, v)]) == PairItems(pairs) + [List([k, v])]
  {
  }

  lemma {:induction false} SetPairGrows(pairs: seq<(Value, Value)>, key: Value, value: Value)
    ensures |pairs| <= |SetPair(pairs, key, value)| <= |pairs| + 1
    ensures |SetPair(pairs, key, value)| == |pairs| + 1 ==> SetPair(pairs, key, value) == pairs + [(key, value)]
  {
    hide SameKey;
    if pairs != [] && !SameKey(pairs[0].0, key) {
      SetPairGrows(pairs[1..], key, value);
    }
  }

  lemma {:induction false} CanonicalTupleLength(env: Environment, fuel: nat, types: seq<Schema>, items: seq<Value>)
    requires |items| == |types|
    ensures |CanonicalTuple(env, fuel, types, items)| == |types|
    decreases |types|
  {
    hide Canonical;
    if types != [] {
      CanonicalTupleLength(env, fuel, types[1..], items[1..]);
    }
  }

  lemma PairStaysPair(env: Environment, fuel: nat, types: seq<Schema>, item: Value)
    requires |types| == 2 && item.List? && |item.items| == 2
    ensures var c := Canonical(env, fuel, Tuple(types), item);
            c.List? && |c.items| == 2
  {
    CanonicalTupleLength(env, fuel, types, item.items);
    hide CanonicalTuple;
  }

  lemma {:induction false} PairsStayPairs(env: Environment, fuel: nat, types: seq<Schema>, items: seq<Value>)
    requires |types| == 2 && AllPairs(items)
    ensures AllPairs(CanonicalItems(env, fuel, Tuple(types), items))
    decreases |items|
  {
    if items != [] {
      PairsStayPairs(env, fuel, types, items[1..]);
      PairStaysPair(env, fuel, types, items[0]);
      hide Canonical;
    }
  }

  /** A map serializes and comes back with its pairs in order if and only if no two keys are the same to
      a Map and all keys and values are values that come back. */
  lemma MapRoundTripsExactly(env: Environment, fuel: nat, key: Schema, value: Schema, v: Value)
    requires WellFormed(key) && WellFormed(value) && WellFormedEnvironment(env)
    ensures Encode(env, fuel, MapOf(key, value), v).Success? && Canonical(env, fuel, MapOf(key, value), v) == v
            <==> v.MapValue? && DistinctKeys(v.pairs) && DecodedPairs(env, fuel, key, value, v.pairs)
    ensures Decoded(env, fuel, MapOf(key, value), v) <==>
            v.MapValue? && DistinctKeys(v.pairs) && DecodedPairs(env, fuel, key, value, v.pairs)
  {
    TransformedForm(env, fuel, MapOf(key, value), v);
    hide Encode, Canonical, Decoded, WellFormed, DistinctKeys;
    if v.MapValue? && DistinctKeys(v.pairs) && DecodedPairs(env, fuel, key, value, v.pairs) {
      assert forall i :: 0 <= i < |v.pairs| ==> DecodedPair(env, fuel, key, value, v.pairs[i]);
      MapComesBack(env, fuel, key, value, v.pairs);
    }
    hide DecodedPairs;
    if Encode(env, fuel, MapOf(key, value), v).Success? && Canonical(env, fuel, MapOf(key, value), v) == v {
      FixedMap(env, fuel, key, value, v);
    }
  }

  lemma MapInputIsPairs(v: Value)
    ensures Items(MapInput(v)).Some? ==> MapInput(v).List? && AllPairs(MapInput(v).items)
    ensures v.MapValue? ==> MapInput(v) == List(PairItems(v.pairs))
  {
  }

  lemma FixedMap(env: Environment, fuel: nat, key: Schema, value: Schema, v: Value)
    requires WellFormed(key) && WellFormed(value) && WellFormedEnvironment(env)
    requires Encode(env, fuel, MapOf(key, value), v).Success? && Canonical(env, fuel, MapOf(key, value), v) == v
    ensures v.MapValue? && DistinctKeys(v.pairs) && DecodedPairs(env, fuel, key, value, v.pairs)
  {
    var tuple := Tuple([key, value]);
    var items := MapInput(v).items;
    MapUnfolds(env, fuel, key, value, v);
    MapInputIsPairs(v);
    hide WellFormed, Decoded, DistinctKeys, PairsOf, PairItems, AllPairs, MapInput, DecodedPairs, MapOf;
    VectorUnfolds(env, fuel, tuple, MapInput(v));
    hide Encode, Canonical;
    var c := CanonicalItems(env, fuel, tuple, items);
    PairsStayPairs(env, fuel, [key, value], items);
    PairsOfAll(c);
    assert v == MapValue(PairsOf(c)) && c == items;
    PairWellFormed(key, value);
    FixedIsDecoded(env, fuel, Vector(tuple), List(items));
    VectorIsDecoded(env, fuel, tuple, items);
    ListOfPairs(env, fuel, key, value, items);
    PairsAreDecoded(env, fuel, key, value, v.pairs);
  }

  lemma VectorUnfolds(env: Environment, fuel: nat, element: Schema, v: Value)
    ensures Encode(env, fuel, Vector(element), v).Success? ==>
              Items(v).Some? && Canonical(env, fuel, Vector(element), v)
                                == List(CanonicalItems(env, fuel, element, Items(v).value))
  {
    hide Items, CanonicalItems, EncodeItems, UlebEncode;
  }

  lemma PairsAreDecoded(env: Environment, fuel: nat, key: Schema, value: Schema, pairs: seq<(Value, Value)>)
    requires forall i :: 0 <= i < |pairs| ==> PairItem(env, fuel, key, value, PairItems(pairs)[i])
    ensures DecodedPairs(env, fuel, key, value, pairs)
  {
    hide Decoded;
    forall i | 0 <= i < |pairs|
      ensures DecodedPair(env, fuel, key, value, pairs[i])
    {
      assert PairItem(env, fuel, key, value, PairItems(pairs)[i]);
    }
  }

  lemma VectorIsDecoded(env: Environment, fuel: nat, element: Schema, items: seq<Value>)
    requires Decoded(env, fuel, Vector(element), List(items))
    ensures DecodedItems(env, fuel, element, items)
  {
    hide DecodedItems;
  }

  // ---------- lazy ----------

  /** How often lazy schemas may unfold does not matter once it is often enough: a value that
      serializes within a bound serializes to the same bytes within any larger one. */
  lemma {:induction false} EncodeWithMoreFuel(env: Environment, fuel: nat, schema: Schema, v: Value)
    requires Encode(env, fuel, schema, v).Success?
    ensures Encode(env, fuel + 1, schema, v) == Encode(env, fuel, schema, v)
    decreases fuel, schema, 0, 1
  {
    hide UlebEncode, EncodeLeaf, DefinedKeys, ChosenEntry, IndexOf;
    match schema {
      case FixedArray(_, element) => ItemsWithMoreFuel(env, fuel, element, Items(v).value);
      case Vector(element) => ItemsWithMoreFuel(env, fuel, element, Items(v).value);
      case Tuple(types) => TupleWithMoreFuel(env, fuel, types, v.items);
      case Struct(fields) => FieldsWithMoreFuel(env, fuel, fields, Entries(v));
      case Enum(variants) => EnumWithMoreFuel(env, fuel, schema, variants, v);
      case Transform(inner, input, _) => EncodeWithMoreFuel(env, fuel, inner, input(v));
      case Lazy(name) => EncodeWithMoreFuel(env, fuel - 1, env[name], v);
      case _ =>
    }
  }

  lemma {:induction false} EnumWithMoreFuel(env: Environment, fuel: nat, schema: Schema,
                                            variants: seq<(string, Option<Schema>)>, v: Value)
    requires schema == Enum(variants) && Encode(env, fuel, schema, v).Success?
    ensures Encode(env, fuel + 1, schema, v) == Encode(env, fuel, schema, v)
    decreases fuel, schema, 0, 0
  {
    hide UlebEncode, DefinedKeys;
    var (name, payload) := ChosenEntry(variants, Entries(v)).value;
    PayloadWithMoreFuel(env, fuel, variants[IndexOf(variants, name)], payload);
  }

  lemma {:induction false} PayloadWithMoreFuel(env: Environment, fuel: nat, variant: (string, Option<Schema>),
                                               payload: Value)
    requires EncodePayload(env, fuel, variant, payload).Success?
    ensures EncodePayload(env, fuel + 1, variant, payload) == EncodePayload(env, fuel, variant, payload)
    decreases fuel, variant, 0
  {
    if variant.1.Some? {
      EncodeWithMoreFuel(env, fuel, variant.1.value, payload);
      hide Encode;
    }
  }

  lemma {:induction false} ItemsWithMoreFuel(env: Environment, fuel: nat, element: Schema, items: seq<Value>)
    requires EncodeItems(env, fuel, element, items).Success?
    ensures EncodeItems(env, fuel + 1, element, items) == EncodeItems(env, fuel, element, items)
    decreases fuel, element, 1 + |items|
  {
    hide Encode;
    if items != [] {
      EncodeWithMoreFuel(env, fuel, element, items[0]);
      ItemsWithMoreFuel(env, fuel, element, items[1..]);
    }
  }

  lemma {:induction false} TupleWithMoreFuel(env: Environment, fuel: nat, types: seq<Schema>, items: seq<Value>)
    requires |items| == |types| && EncodeTuple(env, fuel, types, items).Success?
    ensures EncodeTuple(env, fuel + 1, types, items) == EncodeTuple(env, fuel, types, items)
    decreases fuel, types, 0
  {
    hide Encode;
    if types != [] {
      EncodeWithMoreFuel(env, fuel, types[0], items[0]);
      TupleWithMoreFuel(env, fuel, types[1..], items[1..]);
    }
  }

  lemma {:induction false} FieldsWithMoreFuel(env: Environment, fuel: nat, fields: seq<(string, Schema)>,
                                              entries: seq<(string, Value)>)
    requires EncodeFields(env, fuel, fields, entries).Success?
    ensures EncodeFields(env, fuel + 1, fields, entries) == EncodeFields(env, fuel, fields, entries)
    decreases fuel, fields, 0
  {
    hide Encode, Lookup;
    if fields != [] {
      assert fields decreases to fields[0];
      EncodeWithMoreFuel(env, fuel, fields[0].1, Lookup(entries, fields[0].0));
      FieldsWithMoreFuel(env, fuel, fields[1..], entries);
    }
  }

  /** The same for parsing: data that parse within a bound parse to the same value within any larger one. */
  lemma {:induction false} DecodeWithMoreFuel(env: Environment, fuel: nat, schema: Schema, src: Source, pos: nat)
    requires ValidSource(src) && Decode(env, fuel, schema, src, pos).Success?
    ensures Decode(env, fuel + 1, schema, src, pos) == Decode(env, fuel, schema, src, pos)
    decreases fuel, schema, 0
  {
    hide ReadUleb, DecodeLeaf, DecodeItems, DecodeTuple, DecodeFields, DecodePayload, EnumValue;
    match schema {
      case FixedArray(size, element) => ReadItemsWithMoreFuel(env, fuel, element, src, pos, size);
      case Vector(element) =>
        var (length, start) := ReadUleb(src, pos).value;
        ReadItemsWithMoreFuel(env, fuel, element, src, start, length);
      case Tuple(types) => ReadTupleWithMoreFuel(env, fuel, types, src, pos);
      case Struct(fields) => ReadFieldsWithMoreFuel(env, fuel, fields, src, pos);
      case Enum(variants) =>
        var (i, start) := ReadUleb(src, pos).value;
        ReadPayloadWithMoreFuel(env, fuel, variants[i], src, start);
      case Transform(inner, _, _) => DecodeWithMoreFuel(env, fuel, inner, src, pos);
      case Lazy(name) => DecodeWithMoreFuel(env, fuel - 1, env[name], src, pos);
      case _ =>
    }
  }

  lemma {:induction false} ReadPayloadWithMoreFuel(env: Environment, fuel: nat, variant: (string, Option<Schema>),
                                                   src: Source, pos: nat)
    requires ValidSource(src) && DecodePayload(env, fuel, variant, src, pos).Success?
    ensures DecodePayload(env, fuel + 1, variant, src, pos) == DecodePayload(env, fuel, variant, src, pos)
    decreases fuel, variant, 0
  {
    hide Decode;
    if variant.1.Some? {
      DecodeWithMoreFuel(env, fuel, variant.1.value, src, pos);
    }
  }

  lemma {:induction false} ReadItemsWithMoreFuel(env: Environment, fuel: nat, element: Schema, src: Source, pos: nat,
                                                 n: nat)
    requires ValidSource(src) && DecodeItems(env, fuel, element, src, pos, n).Success?
    ensures DecodeItems(env, fuel + 1, element, src, pos, n) == DecodeItems(env, fuel, element, src, pos, n)
    decreases fuel, element, 1 + n
  {
    hide Decode;
    if n > 0 {
      DecodeWithMoreFuel(env, fuel, element, src, pos);
      ReadItemsWithMoreFuel(env, fuel, element, src, Decode(env, fuel, element, src, pos).value.1, n - 1);
    }
  }

  lemma {:induction false} ReadTupleWithMoreFuel(env: Environment, fuel: nat, types: seq<Schema>, src: Source, pos: nat)
    requires ValidSource(src) && DecodeTuple(env, fuel, types, src, pos).Success?
    ensures DecodeTuple(env, fuel + 1, types, src, pos) == DecodeTuple(env, fuel, types, src, pos)
    decreases fuel, types, 0
  {
    hide Decode;
    if types != [] {
      DecodeWithMoreFuel(env, fuel, types[0], src, pos);
      ReadTupleWithMoreFuel(env, fuel, types[1..], src, Decode(env, fuel, types[0], src, pos).value.1);
    }
  }

  lemma {:induction false} ReadFieldsWithMoreFuel(env: Environment, fuel: nat, fields: seq<(string, Schema)>,
                                                  src: Source, pos: nat)
    requires ValidSource(src) && DecodeFields(env, fuel, fields, src, pos).Success?
    ensures DecodeFields(env, fuel + 1, fields, src, pos) == DecodeFields(env, fuel, fields, src, pos)
    decreases fuel, fields, 0
  {
    hide Decode;
    if fields != [] {
      assert fields decreases to fields[0];
      DecodeWithMoreFuel(env, fuel, fields[0].1, src, pos);
      ReadFieldsWithMoreFuel(env, fuel, fields[1..], src, Decode(env, fuel, fields[0].1, src, pos).value.1);
    }
  }
}
