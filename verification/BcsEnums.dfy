/** Which enum values come back: payloads that read as null, and keys with undefined values. After the
    enum and option combinators of packages/bcs/src/bcs.ts. */
module BcsEnums {
  import opened Octets
  import opened Uleb
  import opened Results
  import opened BcsSchema
  import opened BcsRoundTrip
  import opened BcsLaws

  lemma OneEntry(variants: seq<(string, Option<Schema>)>, name: string, payload: Value)
    requires HasVariant(variants, name) && payload != Undefined
    ensures DefinedKeys(variants, [(name, payload)]) == 1
    ensures ChosenEntry(variants, [(name, payload)]) == Some((name, payload))
  {
    var entries := [(name, payload)];
    assert entries[1..] == [];
  }

  lemma EncodedVariant(env: Environment, fuel: nat, variants: seq<(string, Option<Schema>)>,
                       entries: seq<(string, Value)>,
                       name: string, payload: Value)
    requires DefinedKeys(variants, entries) == 1 && ChosenEntry(variants, entries) == Some((name, payload))
    requires HasVariant(variants, name)
    ensures var i := IndexOf(variants, name);
            && Canonical(env, fuel, Enum(variants), Obj(entries))
                == EnumValue(name, CanonicalPayload(env, fuel, variants[i], payload))
            && (EncodePayload(env, fuel, variants[i], payload).Success? ==>
                  Encode(env, fuel, Enum(variants), Obj(entries)) ==
                  Success(UlebEncode(i) + EncodePayload(env, fuel, variants[i], payload).value))
  {
    hide UlebEncode, EncodePayload, CanonicalPayload, EnumValue;
  }

  lemma LookupSecond(kind: string, p: Value, q: Value)
    requires kind != "$kind"
    ensures Lookup([(kind, p), ("$kind", q)], "$kind") == q
    ensures Lookup([(kind, p), ("$kind", q)], kind) == p
  {
    var entries := [(kind, p), ("$kind", q)];
    assert entries[1..] == [("$kind", q)];
  }

  lemma OptionOfNull(env: Environment, fuel: nat, element: Schema)
    ensures Encode(env, fuel, OptionOf(element), Null) == Success([0])
    ensures Canonical(env, fuel, OptionOf(element), Null) == Null
  {
    var variants := [("None", None), ("Some", Some(element))];
    var entries := [("None", Boolean(true))];
    assert variants[0].0 == "None";
    assert IndexOf(variants, "None") == 0;
    OneEntry(variants, "None", Boolean(true));
    hide Lookup, IndexOf, DefinedKeys, ChosenEntry;
    EncodedVariant(env, fuel, variants, entries, "None", Boolean(true));
    assert UlebEncode(0) + [] == [0];
    assert OptionInput(Null) == Obj(entries);
    var value := EnumValue("None", Undefined);
    assert value == Obj([("None", Boolean(true)), ("$kind", Text("None"))]);
    assert Lookup(Entries(value), "$kind") == Text("None") by { LookupSecond("None", Boolean(true), Text("None")); }
    assert OptionOutput(value) == Null;
  }

  // ---------- Payloads that read as null ----------

  /** An enum value whose payload its own schema brings back unchanged comes back if and only if the
      payload is not null: the source puts true in the place of null. */
  lemma PayloadComesBackExactly(env: Environment, fuel: nat, variants: seq<(string, Option<Schema>)>, name: string,
                                payload: Value)
    requires HasVariant(variants, name) && !HasVariant(variants, "$kind") && payload != Undefined
    requires variants[IndexOf(variants, name)].1.Some?
    requires var t := variants[IndexOf(variants, name)].1.value;
             Encode(env, fuel, t, payload).Success? && Canonical(env, fuel, t, payload) == payload
    ensures var v := Obj([(name, payload), ("$kind", Text(name))]);
            && Encode(env, fuel, Enum(variants), v).Success?
            && (Canonical(env, fuel, Enum(variants), v) == v <==> payload != Null)
  {
    var entries := [(name, payload), ("$kind", Text(name))];
    EnumEntries(variants, entries);
    hide Encode, Canonical, IndexOf, HasVariant, DefinedKeys, ChosenEntry;
    EncodedVariant(env, fuel, variants, entries, name, payload);
    var c := EnumValue(name, payload);
    if payload != Null {
      assert c == Obj(entries);
    } else {
      assert c.entries[0] == (name, Boolean(true)) && entries[0] == (name, Null);
    }
  }

  /** A payload that reads as null comes back as true: the source cannot tell it from no payload. */
  lemma NullPayloadBecomesTrue(env: Environment, fuel: nat, element: Schema)
    ensures var schema := Enum([("A", Some(OptionOf(element)))]);
            var v := Obj([("A", Null), ("$kind", Text("A"))]);
            && Encode(env, fuel, schema, v) == Success([0, 0])
            && Canonical(env, fuel, schema, v) == Obj([("A", Boolean(true)), ("$kind", Text("A"))])
  {
    var variants := [("A", Some(OptionOf(element)))];
    var entries := [("A", Null), ("$kind", Text("A"))];
    assert variants[1..] == [];
    assert IndexOf(variants, "A") == 0 && !HasVariant(variants, "$kind");
    EnumEntries(variants, entries);
    OptionOfNull(env, fuel, element);
    hide OptionOf, IndexOf;
    EncodedVariant(env, fuel, variants, entries, "A", Null);
    assert UlebEncode(0) + [0] == [0, 0];
  }

  /** Reading a variant keeps the value that its data read as if and only if that is neither null nor
      undefined. */
  lemma EnumReads(env: Environment, fuel: nat, variants: seq<(string, Option<Schema>)>, src: Source, pos: nat, i: nat,
                  start: nat, w: Value, next: nat)
    requires ValidSource(src) && i < |variants| && variants[i].0 != "$kind"
    requires ReadUleb(src, pos) == Success((i as int, start))
    requires DecodePayload(env, fuel, variants[i], src, start) == Success((w, next))
    ensures var read := Decode(env, fuel, Enum(variants), src, pos);
            && read == Success((EnumValue(variants[i].0, w), next))
            && (Lookup(Entries(read.value.0), variants[i].0) == w <==> !IsNull(w))
            && Lookup(Entries(read.value.0), "$kind") == Text(variants[i].0)
  {
    hide ReadUleb, DecodePayload, Lookup;
    var name := variants[i].0;
    var p := if IsNull(w) then Boolean(true) else w;
    assert EnumValue(name, w) == Obj([(name, p), ("$kind", Text(name))]);
    LookupSecond(name, p, Text(name));
  }

  /** Reading an option: index 0 is null, and index 1 is what the element reads as, with true in the
      place of null and undefined. */
  lemma OptionReads(env: Environment, fuel: nat, element: Schema, src: Source, pos: nat, start: nat)
    requires ValidSource(src)
    ensures ReadUleb(src, pos) == Success((0, start)) ==>
              Decode(env, fuel, OptionOf(element), src, pos) == Success((Null, start))
    ensures ReadUleb(src, pos) == Success((1, start)) && Decode(env, fuel, element, src, start).Success? ==>
              var (w, next) := Decode(env, fuel, element, src, start).value;
              && Decode(env, fuel, OptionOf(element), src, pos)
                 == Success((if IsNull(w) then Boolean(true) else w, next))
              && (Decode(env, fuel, OptionOf(element), src, pos) == Success((w, next)) <==> !IsNull(w))
  {
    var variants := [("None", None), ("Some", Some(element))];
    var whole := Decode(env, fuel, Enum(variants), src, pos);
    OptionDecodes(env, fuel, element, src, pos);
    hide OptionOf, ReadUleb, Lookup, EnumValue, Decode;
    if ReadUleb(src, pos) == Success((0, start)) {
      EnumReads(env, fuel, variants, src, pos, 0, start, Undefined, start);
    }
    if ReadUleb(src, pos) == Success((1, start)) && Decode(env, fuel, element, src, start).Success? {
      var (w, next) := Decode(env, fuel, element, src, start).value;
      EnumReads(env, fuel, variants, src, pos, 1, start, w, next);
      SomePayload(w);
    }
  }

  lemma SomePayload(w: Value)
    ensures Lookup(Entries(EnumValue("Some", w)), "Some") == if IsNull(w) then Boolean(true) else w
  {
    var p := if IsNull(w) then Boolean(true) else w;
    assert EnumValue("Some", w) == Obj([("Some", p), ("$kind", Text("Some"))]);
    LookupSecond("Some", p, Text("Some"));
  }

  lemma OptionDecodes(env: Environment, fuel: nat, element: Schema, src: Source, pos: nat)
    requires ValidSource(src)
    ensures var inner := Decode(env, fuel, Enum([("None", None), ("Some", Some(element))]), src, pos);
            Decode(env, fuel, OptionOf(element), src, pos)
            == if inner.Failure? then Failure(inner.error) else Success((OptionOutput(inner.value.0), inner.value.1))
  {
    hide OptionOutput, ReadUleb, DecodePayload, EnumValue;
  }

  /** A present option that holds an absent one reads as true, whatever the innermost type is: an
      encoding that no value of the source is written as, but that another encoder may send. */
  lemma NestedNoneReadsTrue(env: Environment, fuel: nat, element: Schema, src: Source, pos: nat)
    requires At(src, pos, [1, 0])
    ensures Decode(env, fuel, OptionOf(OptionOf(element)), src, pos) == Success((Boolean(true), pos + 2))
  {
    OneThenZero(src, pos);
    hide Decode, ReadUleb, OptionOf, At;
    OptionReads(env, fuel, element, src, pos + 1, pos + 2);
    OptionReads(env, fuel, OptionOf(element), src, pos, pos + 1);
  }

  lemma OneThenZero(src: Source, pos: nat)
    requires At(src, pos, [1, 0])
    ensures ReadUleb(src, pos) == Success((1, pos + 1)) && ReadUleb(src, pos + 1) == Success((0, pos + 2))
  {
    assert [1, 0] == [1] + [0];
    AtConcat(src, pos, [1], [0]);
    hide At, ReadUleb;
    SmallUlebs();
    ReadUlebAt(src, pos, 1);
    ReadUlebAt(src, pos + 1, 0);
  }

  lemma SmallUlebs()
    ensures UlebEncode(0) == [0] && UlebEncode(1) == [1]
  {
    assert ShiftRight7(1) == 0;
    assert Groups(0) == [];
  }

  // ---------- Keys with undefined values ----------

  /** What is written for one entry: the index of its variant and its payload. */
  function EncodeEntry(env: Environment, fuel: nat, variants: seq<(string, Option<Schema>)>, entry: (string, Value))
    : Result<seq<Byte>, BcsError>
    requires HasVariant(variants, entry.0)
  {
    var i := IndexOf(variants, entry.0);
    var bytes :- EncodePayload(env, fuel, variants[i], entry.1);
    Success(UlebEncode(i) + bytes)
  }

  function CanonicalEntry(env: Environment, fuel: nat, variants: seq<(string, Option<Schema>)>, entry: (string, Value))
    : Value
    requires HasVariant(variants, entry.0)
  {
    EnumValue(entry.0, CanonicalPayload(env, fuel, variants[IndexOf(variants, entry.0)], entry.1))
  }

  /** Whether entry k names a variant with an undefined value. */
  predicate UndefinedKey(variants: seq<(string, Option<Schema>)>, entries: seq<(string, Value)>, k: nat)
    requires k < |entries|
  {
    HasVariant(variants, entries[k].0) && entries[k].1 == Undefined
  }

  /** The place of the first entry that names a variant. */
  lemma {:induction false} ChosenAt(variants: seq<(string, Option<Schema>)>, entries: seq<(string, Value)>, k: nat)
    requires k < |entries| && HasVariant(variants, entries[k].0)
    requires forall i :: 0 <= i < k ==> !HasVariant(variants, entries[i].0)
    ensures ChosenEntry(variants, entries) == Some(entries[k])
  {
    hide HasVariant;
    if k > 0 {
      assert entries[1..][k - 1] == entries[k];
      ChosenAt(variants, entries[1..], k - 1);
    }
  }

  /** Of an object that validates, only one entry names a variant with a defined value. */
  lemma {:induction false} OneDefinedEntry(variants: seq<(string, Option<Schema>)>, entries: seq<(string, Value)>,
                                           i: nat, j: nat)
    requires i < |entries| && j < |entries| && i != j && DefinedKeys(variants, entries) == 1
    requires HasVariant(variants, entries[i].0) && entries[i].1 != Undefined && HasVariant(variants, entries[j].0)
    ensures entries[j].1 == Undefined
  {
    hide HasVariant;
    var rest := entries[1..];
    if i > 0 && j > 0 {
      if entries[0].1 != Undefined && HasVariant(variants, entries[0].0) {
        DefinedIsCounted(variants, rest, i - 1);
      } else {
        OneDefinedEntry(variants, rest, i - 1, j - 1);
      }
    } else if entries[j].1 != Undefined {
      DefinedIsCounted(variants, rest, (if i == 0 then j else i) - 1);
    }
  }

  lemma {:induction false} DefinedIsCounted(variants: seq<(string, Option<Schema>)>, entries: seq<(string, Value)>,
                                            i: nat)
    requires i < |entries| && HasVariant(variants, entries[i].0) && entries[i].1 != Undefined
    ensures DefinedKeys(variants, entries) >= 1
  {
    hide HasVariant;
    if i > 0 {
      DefinedIsCounted(variants, entries[1..], i - 1);
    }
  }

  /** The first of the entries up to j that names a variant. */
  lemma {:induction false} FirstVariant(variants: seq<(string, Option<Schema>)>, entries: seq<(string, Value)>, j: nat)
    returns (k: nat)
    requires j < |entries| && HasVariant(variants, entries[j].0)
    ensures k <= j && HasVariant(variants, entries[k].0)
    ensures forall i :: 0 <= i < k ==> !HasVariant(variants, entries[i].0)
  {
    hide HasVariant;
    k := 0;
    while !HasVariant(variants, entries[k].0)
      invariant k <= j && forall i :: 0 <= i < k ==> !HasVariant(variants, entries[i].0)
      decreases j - k
    {
      k := k + 1;
    }
  }

  /** Validation counts only defined keys, but writing takes the first key that names a variant. Of an
      object that validates with entry j defined, that entry is written, and comes back as the variant,
      if and only if no variant's key with an undefined value comes before it; otherwise the first such
      key is written instead. */
  lemma WrittenVariant(env: Environment, fuel: nat, variants: seq<(string, Option<Schema>)>,
                       entries: seq<(string, Value)>, j: nat)
    returns (k: nat)
    requires DistinctNames(entries) && !HasVariant(variants, "$kind") && DefinedKeys(variants, entries) == 1
    requires j < |entries| && HasVariant(variants, entries[j].0) && entries[j].1 != Undefined
    ensures k <= j && HasVariant(variants, entries[k].0)
    ensures Encode(env, fuel, Enum(variants), Obj(entries)) == EncodeEntry(env, fuel, variants, entries[k])
    ensures Canonical(env, fuel, Enum(variants), Obj(entries)) == CanonicalEntry(env, fuel, variants, entries[k])
    ensures k == j <==> forall i :: 0 <= i < j ==> !UndefinedKey(variants, entries, i)
    ensures Lookup(Entries(Canonical(env, fuel, Enum(variants), Obj(entries))), "$kind") == Text(entries[j].0) <==>
            forall i :: 0 <= i < j ==> !UndefinedKey(variants, entries, i)
  {
    k := FirstVariant(variants, entries, j);
    ChosenAt(variants, entries, k);
    if k < j {
      OneDefinedEntry(variants, entries, j, k);
    }
    EnumWritesChosen(env, fuel, variants, entries, entries[k]);
    KindOf(env, fuel, variants, entries[k]);
    hide Encode, Canonical, EncodeEntry, CanonicalEntry, HasVariant, IndexOf, Lookup, DefinedKeys, ChosenEntry;
    if k < j {
      assert UndefinedKey(variants, entries, k);
      assert entries[k].0 != entries[j].0;
    }
  }

  lemma EnumWritesChosen(env: Environment, fuel: nat, variants: seq<(string, Option<Schema>)>,
                         entries: seq<(string, Value)>, entry: (string, Value))
    requires DefinedKeys(variants, entries) == 1 && ChosenEntry(variants, entries) == Some(entry)
    requires HasVariant(variants, entry.0)
    ensures Encode(env, fuel, Enum(variants), Obj(entries)) == EncodeEntry(env, fuel, variants, entry)
    ensures Canonical(env, fuel, Enum(variants), Obj(entries)) == CanonicalEntry(env, fuel, variants, entry)
  {
    hide UlebEncode, EncodePayload, CanonicalPayload, EnumValue, IndexOf;
  }

  lemma KindOf(env: Environment, fuel: nat, variants: seq<(string, Option<Schema>)>, entry: (string, Value))
    requires HasVariant(variants, entry.0) && !HasVariant(variants, "$kind")
    ensures Lookup(Entries(CanonicalEntry(env, fuel, variants, entry)), "$kind") == Text(entry.0)
  {
    hide CanonicalPayload, IndexOf, Lookup;
    var c := CanonicalPayload(env, fuel, variants[IndexOf(variants, entry.0)], entry.1);
    var p := if IsNull(c) then Boolean(true) else c;
    assert EnumValue(entry.0, c) == Obj([(entry.0, p), ("$kind", Text(entry.0))]);
    LookupSecond(entry.0, p, Text(entry.0));
  }

  /** An object that validates as variant B and is written, and read back, as variant A. */
  lemma UndefinedKeyIsWritten(env: Environment, fuel: nat)
    ensures var schema := Enum([("A", None), ("B", Some(U8))]);
            var v := Obj([("A", Undefined), ("B", Number(7))]);
            && Encode(env, fuel, schema, v) == Success([0])
            && Canonical(env, fuel, schema, v) == Obj([("A", Boolean(true)), ("$kind", Text("A"))])
  {
    var variants := [("A", None), ("B", Some(U8))];
    var entries := [("A", Undefined), ("B", Number(7))];
    assert entries[1..] == [("B", Number(7))];
    assert HasVariant(variants, "A") && IndexOf(variants, "A") == 0;
    assert variants[1..] == [("B", Some(U8))];
    OneEntry(variants, "B", Number(7));
    assert DefinedKeys(variants, entries) == 1;
    assert ChosenEntry(variants, entries) == Some(("A", Undefined));
    EncodedVariant(env, fuel, variants, entries, "A", Undefined);
    assert UlebEncode(0) + [] == [0];
  }
}
