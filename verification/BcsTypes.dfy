/** packages/bcs/src/bcs-type.ts and the writing and reading loops of bcs.ts: the methods that move a
    writer or a reader, the byte-array fast path of serialize, and the predicted sizes. */
module BcsTypes {
  import opened Octets
  import opened Uleb
  import opened Numbers
  import opened Results
  import opened BcsSchema
  import BcsRoundTrip
  import opened BcsLaws
  import opened BcsWriters
  import opened BcsReaders

  type Encoding = Result<seq<Byte>, BcsError>

  // ---------- Writing ----------

  /** The integer types check the range before the writer gets the number. */
  method WriteSmall(writer: BcsWriter, n: Option<int>, size: nat) returns (ok: bool)
    requires writer.Valid() && 1 <= size <= 4
    modifies writer, writer.buffer
    ensures writer.Valid() && fresh({writer.buffer} - {old(writer.buffer)})
    ensures Wrote(old(writer.State()), writer.State(), EncodeNumber(n, size), ok)
  {
    hide LittleEndian, Pow256;
    if n.None? || n.value < 0 || n.value >= Pow256(size) {
      return false;
    }
    SmallRemainder(n.value, Pow256(size));
    ok := writer.WriteInt(n.value, size);
  }

  lemma SmallRemainder(n: nat, m: nat)
    requires n < m
    ensures n % m == n
  {
  }

  method WriteBig(writer: BcsWriter, n: Option<int>, size: nat) returns (ok: bool)
    requires writer.Valid()
    modifies writer, writer.buffer
    ensures writer.Valid() && fresh({writer.buffer} - {old(writer.buffer)})
    ensures Wrote(old(writer.State()), writer.State(), EncodeNumber(n, size), ok)
  {
    hide LittleEndian;
    if n.None? || n.value < 0 || n.value >= Pow256(size) {
      return false;
    }
    ok := writer.WriteBigInt(n.value, size);
  }

  method WriteBytes(writer: BcsWriter, bytes: seq<Byte>) returns (ok: bool)
    requires writer.Valid()
    modifies writer, writer.buffer
    ensures writer.Valid() && fresh({writer.buffer} - {old(writer.buffer)})
    ensures Wrote<BcsError>(old(writer.State()), writer.State(), Success(bytes), ok)
  {
    ok := writer.WriteAll(bytes);
  }

  method WriteLeaf(writer: BcsWriter, schema: Schema, v: Value) returns (ok: bool)
    requires writer.Valid() && Leaf(schema)
    modifies writer, writer.buffer
    ensures writer.Valid() && fresh({writer.buffer} - {old(writer.buffer)})
    ensures Wrote(old(writer.State()), writer.State(), EncodeLeaf(schema, v), ok)
  {
    hide Wrote, WithLength, UlebEncode, EncodeNumber, AsNumber, AsBigInt, AsBytes;
    match schema {
      case U8 | U16 | U32 =>
        ok := WriteSmall(writer, AsNumber(v), SmallSize(schema));
      case U64 | U128 | U256 =>
        ok := WriteBig(writer, AsBigInt(v), BigSize(schema));
      case Bool =>
        if !v.Boolean? {
          Refused(writer.State(), EncodeLeaf(schema, v));
          return false;
        }
        ok := WriteBytes(writer, [if v.b then 1 else 0]);
      case Uleb128 =>
        if !v.Number? {
          Refused(writer.State(), EncodeLeaf(schema, v));
          return false;
        }
        ok := WriteBytes(writer, UlebEncode(v.n));
      case Bytes(size) =>
        if AsBytes(v).None? || |AsBytes(v).value| != size {
          Refused(writer.State(), EncodeLeaf(schema, v));
          return false;
        }
        ok := WriteBytes(writer, AsBytes(v).value);
      case ByteVector =>
        if AsBytes(v).None? {
          Refused(writer.State(), EncodeLeaf(schema, v));
          return false;
        }
        ok := WriteWithLength(writer, AsBytes(v).value);
      case StringLike(toBytes, _) =>
        if !v.Text? {
          Refused(writer.State(), EncodeLeaf(schema, v));
          return false;
        }
        ok := WriteWithLength(writer, toBytes(v.text));
    }
  }

  method WriteWithLength(writer: BcsWriter, bytes: seq<Byte>) returns (ok: bool)
    requires writer.Valid()
    modifies writer, writer.buffer
    ensures writer.Valid() && fresh({writer.buffer} - {old(writer.buffer)})
    ensures Wrote<BcsError>(old(writer.State()), writer.State(), Success(WithLength(bytes)), ok)
  {
    hide UlebEncode;
    ghost var before := writer.State();
    ghost var first, rest: Encoding := Success(UlebEncode(|bytes|)), Success(bytes);
    ok := writer.WriteUleb(|bytes|);
    ghost var middle := writer.State();
    if ok {
      ok := writer.WriteAll(bytes);
      WroteBoth(before, middle, writer.State(), first, rest, ok);
    } else {
      WroteFirst(before, middle, first, rest);
    }
  }

  /** write: what a writer receives is exactly the specified encoding. It fails if there is none, or
      for lack of room; never for lack of room if the encoding fits the capacity. */
  method WriteValue(writer: BcsWriter, env: Environment, fuel: nat, schema: Schema, v: Value) returns (ok: bool)
    requires writer.Valid()
    modifies writer, writer.buffer
    ensures writer.Valid() && fresh({writer.buffer} - {old(writer.buffer)})
    ensures Wrote(old(writer.State()), writer.State(), Encode(env, fuel, schema, v), ok)
    decreases fuel, schema, 0, 1
  {
    hide UlebEncode, EncodeLeaf, EncodeItems, EncodeTuple, EncodeFields, EncodePayload, DefinedKeys, ChosenEntry,
        IndexOf, Wrote;
    hide Items, Entries, IsObject, BcsWriter.Contents, BcsWriter.Capacity;
    match schema {
      case FixedArray(size, element) =>
        if Items(v).None? || |Items(v).value| != size {
          Refused(writer.State(), Encode(env, fuel, schema, v));
          return false;
        }
        ok := WriteItems(writer, env, fuel, element, Items(v).value);
      case Vector(element) =>
        ok := WriteVector(writer, env, fuel, schema, v);
      case Tuple(types) =>
        if !v.List? || |v.items| != |types| {
          Refused(writer.State(), Encode(env, fuel, schema, v));
          return false;
        }
        ok := WriteTuple(writer, env, fuel, types, v.items);
      case Struct(fields) =>
        if !IsObject(v) {
          Refused(writer.State(), Encode(env, fuel, schema, v));
          return false;
        }
        ok := WriteFields(writer, env, fuel, fields, Entries(v));
      case Enum(variants) =>
        ok := WriteEnum(writer, env, fuel, schema, v);
      case Transform(inner, input, _) =>
        ok := WriteValue(writer, env, fuel, inner, input(v));
      case Lazy(name) =>
        if fuel == 0 || name !in env {
          Refused(writer.State(), Encode(env, fuel, schema, v));
          return false;
        }
        ok := WriteValue(writer, env, fuel - 1, env[name], v);
      case _ =>
        ok := WriteLeaf(writer, schema, v);
    }
  }

  lemma Refused(before: Snapshot, encoding: Encoding)
    requires encoding.Failure?
    ensures Wrote(before, before, encoding, false)
  {
  }

  method WriteVector(writer: BcsWriter, env: Environment, fuel: nat, schema: Schema, v: Value) returns (ok: bool)
    requires writer.Valid() && schema.Vector?
    modifies writer, writer.buffer
    ensures writer.Valid() && fresh({writer.buffer} - {old(writer.buffer)})
    ensures Wrote(old(writer.State()), writer.State(), Encode(env, fuel, schema, v), ok)
    decreases fuel, schema, 0, 0
  {
    hide UlebEncode, EncodeItems;
    if Items(v).None? {
      return false;
    }
    var items := Items(v).value;
    ghost var first: Encoding := Success(UlebEncode(|items|));
    ghost var rest := EncodeItems(env, fuel, schema.element, items);
    assert Encode(env, fuel, schema, v) == Concat(first, rest);
    ghost var before := writer.State();
    ok := writer.WriteUleb(|items|);
    ghost var middle := writer.State();
    assert Wrote(before, middle, first, ok);
    hide Encode, Wrote;
    if ok {
      ok := WriteItems(writer, env, fuel, schema.element, items);
      WroteBoth(before, middle, writer.State(), first, rest, ok);
    } else {
      WroteFirst(before, middle, first, rest);
    }
  }

  lemma StartOfLoop(before: Snapshot, encoding: Encoding)
    ensures Wrote(before, before, Encoding.Success([]), true)
    ensures Concat(Encoding.Success([]), encoding) == encoding
  {
    if encoding.Success? {
      assert [] + encoding.value == encoding.value;
    }
  }

  lemma ConcatAssociates(a: Encoding, b: Encoding, c: Encoding)
    ensures Concat(a, Concat(b, c)) == Concat(Concat(a, b), c)
  {
    if a.Success? && b.Success? && c.Success? {
      assert a.value + (b.value + c.value) == (a.value + b.value) + c.value;
    }
  }

  lemma EndOfLoop(done: Encoding)
    ensures Concat(done, Encoding.Success([])) == done
  {
    if done.Success? {
      assert done.value + [] == done.value;
    }
  }

  lemma ItemsUnfold(env: Environment, fuel: nat, element: Schema, items: seq<Value>, i: nat)
    requires i < |items|
    ensures EncodeItems(env, fuel, element, items[i..])
         == Concat(Encode(env, fuel, element, items[i]), EncodeItems(env, fuel, element, items[i + 1..]))
  {
    assert items[i..][1..] == items[i + 1..];
    hide Encode;
  }

  lemma TupleUnfolds(env: Environment, fuel: nat, types: seq<Schema>, items: seq<Value>, i: nat)
    requires i < |types| == |items|
    ensures EncodeTuple(env, fuel, types[i..], items[i..])
         == Concat(Encode(env, fuel, types[i], items[i]), EncodeTuple(env, fuel, types[i + 1..], items[i + 1..]))
  {
    assert items[i..][1..] == items[i + 1..] && types[i..][1..] == types[i + 1..];
    hide Encode;
  }

  lemma FieldsUnfold(env: Environment, fuel: nat, fields: seq<(string, Schema)>, entries: seq<(string, Value)>, i: nat)
    requires i < |fields|
    ensures EncodeFields(env, fuel, fields[i..], entries)
         == Concat(Encode(env, fuel, fields[i].1, Lookup(entries, fields[i].0)),
             EncodeFields(env, fuel, fields[i + 1..], entries))
  {
    assert fields[i..][1..] == fields[i + 1..];
    hide Encode, Lookup;
  }

  method WriteItems(writer: BcsWriter, env: Environment, fuel: nat, element: Schema, items: seq<Value>)
    returns (ok: bool)
    requires writer.Valid()
    modifies writer, writer.buffer
    ensures writer.Valid() && fresh({writer.buffer} - {old(writer.buffer)})
    ensures Wrote(old(writer.State()), writer.State(), EncodeItems(env, fuel, element, items), ok)
    decreases fuel, element, 1
  {
    ghost var before := writer.State();
    ghost var done: Encoding := Success([]);
    ok := true;
    var i := 0;
    hide Wrote, Concat, Encode;
    StartOfLoop(before, EncodeItems(env, fuel, element, items));
    while i < |items|
      invariant 0 <= i <= |items|
      invariant writer.Valid() && fresh({writer.buffer} - {old(writer.buffer)})
      invariant Wrote(before, writer.State(), done, true)
      invariant EncodeItems(env, fuel, element, items) == Concat(done, EncodeItems(env, fuel, element, items[i..]))
    {
      ghost var now := writer.State();
      ghost var first, rest := Encode(env, fuel, element, items[i]), EncodeItems(env, fuel, element, items[i + 1..]);
      ItemsUnfold(env, fuel, element, items, i);
      ConcatAssociates(done, first, rest);
      ok := WriteValue(writer, env, fuel, element, items[i]);
      WroteBoth(before, now, writer.State(), done, first, ok);
      done := Concat(done, first);
      if !ok {
        WroteFirst(before, writer.State(), done, rest);
        return;
      }
      i := i + 1;
    }
    EndOfLoop(done);
  }

  method WriteTuple(writer: BcsWriter, env: Environment, fuel: nat, types: seq<Schema>, items: seq<Value>)
    returns (ok: bool)
    requires writer.Valid() && |types| == |items|
    modifies writer, writer.buffer
    ensures writer.Valid() && fresh({writer.buffer} - {old(writer.buffer)})
    ensures Wrote(old(writer.State()), writer.State(), EncodeTuple(env, fuel, types, items), ok)
    decreases fuel, types, 1
  {
    ghost var before := writer.State();
    ghost var done: Encoding := Success([]);
    ok := true;
    var i := 0;
    hide Wrote, Concat, Encode;
    StartOfLoop(before, EncodeTuple(env, fuel, types, items));
    while i < |types|
      invariant 0 <= i <= |types|
      invariant writer.Valid() && fresh({writer.buffer} - {old(writer.buffer)})
      invariant Wrote(before, writer.State(), done, true)
      invariant EncodeTuple(env, fuel, types, items) == Concat(done, EncodeTuple(env, fuel, types[i..], items[i..]))
    {
      ghost var now := writer.State();
      ghost var first, rest := Encode(env, fuel, types[i], items[i]),
          EncodeTuple(env, fuel, types[i + 1..], items[i + 1..]);
      TupleUnfolds(env, fuel, types, items, i);
      ConcatAssociates(done, first, rest);
      ok := WriteValue(writer, env, fuel, types[i], items[i]);
      WroteBoth(before, now, writer.State(), done, first, ok);
      done := Concat(done, first);
      if !ok {
        WroteFirst(before, writer.State(), done, rest);
        return;
      }
      i := i + 1;
    }
    EndOfLoop(done);
  }

  method WriteFields(writer: BcsWriter, env: Environment, fuel: nat, fields: seq<(string, Schema)>,
                     entries: seq<(string, Value)>) returns (ok: bool)
    requires writer.Valid()
    modifies writer, writer.buffer
    ensures writer.Valid() && fresh({writer.buffer} - {old(writer.buffer)})
    ensures Wrote(old(writer.State()), writer.State(), EncodeFields(env, fuel, fields, entries), ok)
    decreases fuel, fields, 1
  {
    ghost var before := writer.State();
    ghost var done: Encoding := Success([]);
    ok := true;
    var i := 0;
    hide Wrote, Concat, Encode, Lookup;
    StartOfLoop(before, EncodeFields(env, fuel, fields, entries));
    while i < |fields|
      invariant 0 <= i <= |fields|
      invariant writer.Valid() && fresh({writer.buffer} - {old(writer.buffer)})
      invariant Wrote(before, writer.State(), done, true)
      invariant EncodeFields(env, fuel, fields, entries) == Concat(done, EncodeFields(env, fuel, fields[i..], entries))
    {
      ghost var now := writer.State();
      ghost var first, rest := Encode(env, fuel, fields[i].1, Lookup(entries, fields[i].0)),
          EncodeFields(env, fuel, fields[i + 1..], entries);
      FieldsUnfold(env, fuel, fields, entries, i);
      assert fields decreases to fields[i];
      ConcatAssociates(done, first, rest);
      ok := WriteValue(writer, env, fuel, fields[i].1, Lookup(entries, fields[i].0));
      WroteBoth(before, now, writer.State(), done, first, ok);
      done := Concat(done, first);
      if !ok {
        WroteFirst(before, writer.State(), done, rest);
        return;
      }
      i := i + 1;
    }
    EndOfLoop(done);
  }

  /** The variant is looked up by going through the variants in order. */
  method WriteEnum(writer: BcsWriter, env: Environment, fuel: nat, schema: Schema, v: Value) returns (ok: bool)
    requires writer.Valid() && schema.Enum?
    modifies writer, writer.buffer
    ensures writer.Valid() && fresh({writer.buffer} - {old(writer.buffer)})
    ensures Wrote(old(writer.State()), writer.State(), Encode(env, fuel, schema, v), ok)
    decreases fuel, schema, 0, 0
  {
    hide UlebEncode, DefinedKeys, EncodePayload, HasVariant;
    var variants := schema.variants;
    if !IsObject(v) || DefinedKeys(variants, Entries(v)) != 1 || ChosenEntry(variants, Entries(v)).None? {
      return false;
    }
    var (name, payload) := ChosenEntry(variants, Entries(v)).value;
    hide ChosenEntry, Wrote;
    ChosenIsVariant(variants, Entries(v));
    var i := 0;
    while i < |variants| && variants[i].0 != name
      invariant 0 <= i <= |variants|
      invariant forall j :: 0 <= j < i ==> variants[j].0 != name
    {
      i := i + 1;
    }
    assert i == IndexOf(variants, name) < |variants|;
    ghost var before := writer.State();
    ghost var first, rest: Encoding := Success(UlebEncode(i)), EncodePayload(env, fuel, variants[i], payload);
    assert Encode(env, fuel, schema, v) == Concat(first, rest);
    hide Encode, IndexOf, Concat;
    ok := WriteIndex(writer, i);
    ghost var middle := writer.State();
    if ok {
      assert schema decreases to variants[i];
      ok := WritePayload(writer, env, fuel, variants[i], payload);
      WroteBoth(before, middle, writer.State(), first, rest, ok);
    } else {
      WroteFirst(before, middle, first, rest);
    }
  }

  method WriteIndex(writer: BcsWriter, i: nat) returns (ok: bool)
    requires writer.Valid()
    modifies writer, writer.buffer
    ensures writer.Valid() && fresh({writer.buffer} - {old(writer.buffer)})
    ensures Wrote(old(writer.State()), writer.State(), Encoding.Success(UlebEncode(i)), ok)
  {
    hide UlebEncode;
    ok := writer.WriteUleb(i);
  }

  lemma {:induction false} ChosenIsVariant(variants: seq<(string, Option<Schema>)>, entries: seq<(string, Value)>)
    requires ChosenEntry(variants, entries).Some?
    ensures IndexOf(variants, ChosenEntry(variants, entries).value.0) < |variants|
  {
    hide IndexOf;
    if entries != [] && !HasVariant(variants, entries[0].0) {
      ChosenIsVariant(variants, entries[1..]);
    }
  }

  method WritePayload(writer: BcsWriter, env: Environment, fuel: nat, variant: (string, Option<Schema>), payload: Value)
    returns (ok: bool)
    requires writer.Valid()
    modifies writer, writer.buffer
    ensures writer.Valid() && fresh({writer.buffer} - {old(writer.buffer)})
    ensures Wrote(old(writer.State()), writer.State(), EncodePayload(env, fuel, variant, payload), ok)
    decreases fuel, variant, 0
  {
    hide Encode;
    if variant.1.None? {
      return true;
    }
    ok := WriteValue(writer, env, fuel, variant.1.value, payload);
  }

  // ---------- Reading ----------

  method ReadLeaf(reader: BcsReader, schema: Schema) returns (r: Result<Value, BcsError>)
    requires reader.Valid() && Leaf(schema)
    modifies reader
    ensures reader.Did(DecodeLeaf(schema, reader.src, old(reader.bytePosition)), r)
  {
    hide ReadWide, ReadInt, ReadUleb, ReadBytes;
    match schema {
      case U8 | U16 | U32 =>
        var n :- reader.ReadSmall(SmallSize(schema));
        r := Success(Number(n));
      case U64 | U128 | U256 =>
        var n :- reader.ReadBig(BigSize(schema));
        r := Success(Text(ToText(n, 10)));
      case Bool =>
        var n :- reader.ReadSmall(1);
        r := Success(Boolean(n == 1));
      case Uleb128 =>
        var n :- reader.ReadLength();
        r := Success(Number(n));
      case Bytes(size) =>
        var bytes :- reader.ReadSlice(size);
        r := Success(ByteArray(bytes));
      case ByteVector =>
        var length :- reader.ReadLength();
        var bytes :- reader.ReadSlice(length);
        r := Success(ByteArray(bytes));
      case StringLike(_, fromBytes) =>
        var length :- reader.ReadLength();
        var bytes :- reader.ReadSlice(length);
        r := Success(Text(fromBytes(bytes)));
    }
  }

  /** read: the value and the position that the specification gives, or its error. */
  method ReadValue(reader: BcsReader, env: Environment, fuel: nat, schema: Schema) returns (r: Result<Value, BcsError>)
    requires reader.Valid()
    modifies reader
    ensures reader.Did(Decode(env, fuel, schema, reader.src, old(reader.bytePosition)), r)
    decreases fuel, schema, 0
  {
    hide DecodeLeaf, DecodeItems, DecodeTuple, DecodeFields, DecodePayload, ReadUleb, EnumValue;
    match schema {
      case FixedArray(size, element) =>
        var items :- ReadItems(reader, env, fuel, element, size);
        r := Success(List(items));
      case Vector(element) =>
        var length :- reader.ReadLength();
        if length < 0 {
          return Failure(ReadOutOfRange);
        }
        var items :- ReadItems(reader, env, fuel, element, length);
        r := Success(List(items));
      case Tuple(types) =>
        var items :- ReadTuple(reader, env, fuel, types);
        r := Success(List(items));
      case Struct(fields) =>
        var entries :- ReadFields(reader, env, fuel, fields);
        r := Success(Obj(entries));
      case Enum(variants) =>
        var i :- reader.ReadLength();
        if i < 0 || i >= |variants| {
          return Failure(UnknownVariant);
        }
        var payload :- ReadPayload(reader, env, fuel, variants[i]);
        r := Success(EnumValue(variants[i].0, payload));
      case Transform(inner, _, output) =>
        var value :- ReadValue(reader, env, fuel, inner);
        r := Success(output(value));
      case Lazy(name) =>
        if fuel == 0 || name !in env {
          return Failure(Unresolved);
        }
        r := ReadValue(reader, env, fuel - 1, env[name]);
      case _ =>
        r := ReadLeaf(reader, schema);
    }
  }

  method ReadPayload(reader: BcsReader, env: Environment, fuel: nat, variant: (string, Option<Schema>))
    returns (r: Result<Value, BcsError>)
    requires reader.Valid()
    modifies reader
    ensures reader.Did(DecodePayload(env, fuel, variant, reader.src, old(reader.bytePosition)), r)
    decreases fuel, variant, 0
  {
    hide Decode;
    if variant.1.None? {
      return Success(Undefined);
    }
    r := ReadValue(reader, env, fuel, variant.1.value);
  }

  /** A list read in two parts. */
  function Joined<T>(done: seq<T>, rest: Parsed<seq<T>>): Parsed<seq<T>> {
    if rest.Failure? then rest else Success((done + rest.value.0, rest.value.1))
  }

  lemma JoinedOne<T>(done: seq<T>, first: T, rest: Parsed<seq<T>>)
    ensures Joined(done, Joined([first], rest)) == Joined(done + [first], rest)
  {
    if rest.Success? {
      assert done + ([first] + rest.value.0) == (done + [first]) + rest.value.0;
    }
  }

  lemma JoinedNone<T>(rest: Parsed<seq<T>>)
    ensures Joined([], rest) == rest
  {
    if rest.Success? {
      assert [] + rest.value.0 == rest.value.0;
    }
  }

  method ReadItems(reader: BcsReader, env: Environment, fuel: nat, element: Schema, n: nat)
    returns (r: Result<seq<Value>, BcsError>)
    requires reader.Valid()
    modifies reader
    ensures reader.Did(DecodeItems(env, fuel, element, reader.src, old(reader.bytePosition), n), r)
    decreases fuel, element, 1
  {
    hide Decode;
    var result: seq<Value> := [];
    var i := 0;
    JoinedNone(DecodeItems(env, fuel, element, reader.src, old(reader.bytePosition), n));
    while i < n
      invariant 0 <= i <= n
      invariant DecodeItems(env, fuel, element, reader.src, old(reader.bytePosition), n)
          == Joined(result, DecodeItems(env, fuel, element, reader.src, reader.bytePosition, n - i))
    {
      var value :- ReadValue(reader, env, fuel, element);
      JoinedOne(result, value, DecodeItems(env, fuel, element, reader.src, reader.bytePosition, n - i - 1));
      result := result + [value];
      i := i + 1;
    }
    assert result + [] == result;
    r := Success(result);
  }

  method ReadTuple(reader: BcsReader, env: Environment, fuel: nat, types: seq<Schema>)
    returns (r: Result<seq<Value>, BcsError>)
    requires reader.Valid()
    modifies reader
    ensures reader.Did(DecodeTuple(env, fuel, types, reader.src, old(reader.bytePosition)), r)
    decreases fuel, types, 0
  {
    hide Decode;
    var result: seq<Value> := [];
    var i := 0;
    JoinedNone(DecodeTuple(env, fuel, types, reader.src, old(reader.bytePosition)));
    while i < |types|
      invariant 0 <= i <= |types|
      invariant DecodeTuple(env, fuel, types, reader.src, old(reader.bytePosition))
          == Joined(result, DecodeTuple(env, fuel, types[i..], reader.src, reader.bytePosition))
    {
      assert types[i..][1..] == types[i + 1..];
      var value :- ReadValue(reader, env, fuel, types[i]);
      JoinedOne(result, value, DecodeTuple(env, fuel, types[i + 1..], reader.src, reader.bytePosition));
      result := result + [value];
      i := i + 1;
    }
    assert result + [] == result;
    r := Success(result);
  }

  method ReadFields(reader: BcsReader, env: Environment, fuel: nat, fields: seq<(string, Schema)>)
    returns (r: Result<seq<(string, Value)>, BcsError>)
    requires reader.Valid()
    modifies reader
    ensures reader.Did(DecodeFields(env, fuel, fields, reader.src, old(reader.bytePosition)), r)
    decreases fuel, fields, 0
  {
    hide Decode;
    var result: seq<(string, Value)> := [];
    var i := 0;
    JoinedNone(DecodeFields(env, fuel, fields, reader.src, old(reader.bytePosition)));
    while i < |fields|
      invariant 0 <= i <= |fields|
      invariant DecodeFields(env, fuel, fields, reader.src, old(reader.bytePosition))
          == Joined(result, DecodeFields(env, fuel, fields[i..], reader.src, reader.bytePosition))
    {
      assert fields[i..][1..] == fields[i + 1..];
      assert fields decreases to fields[i];
      var value :- ReadValue(reader, env, fuel, fields[i].1);
      JoinedOne(result, (fields[i].0, value), DecodeFields(env, fuel, fields[i + 1..], reader.src,
          reader.bytePosition));
      result := result + [(fields[i].0, value)];
      i := i + 1;
    }
    assert result + [] == result;
    r := Success(result);
  }

  // ---------- Serializing and parsing whole values ----------

  /** serializedSize: the length of the encoding where it is known beforehand, null otherwise. For a
      value that serialize rejects the source may return a size or throw; the model fails. */
  function SerializedSize(env: Environment, fuel: nat, schema: Schema, v: Value): Result<Option<nat>, BcsError>
    decreases fuel, schema, 0
  {
    match schema
    case U8 | U16 | U32 => Success(Some(SmallSize(schema)))
    case U64 | U128 | U256 => Success(Some(BigSize(schema)))
    case Bool => Success(Some(1))
    case Bytes(size) => Success(Some(size))
    case ByteVector =>
      if v.List? then Success(Some(|UlebEncode(|v.items|)| + |v.items|))
      else if v.ByteArray? then Success(Some(|UlebEncode(|v.bytes|)| + |v.bytes|))
      else Failure(TypeMismatch)
    case Tuple(types) =>
      if !v.List? || |v.items| != |types| then Failure(TypeMismatch) else TupleSize(env, fuel, types, v.items)
    case Struct(fields) =>
      if !IsObject(v) then Failure(TypeMismatch) else FieldsSize(env, fuel, fields, Entries(v))
    case Transform(inner, input, _) => SerializedSize(env, fuel, inner, input(v))
    case Lazy(name) =>
      if fuel == 0 || name !in env then Failure(Unresolved) else SerializedSize(env, fuel - 1, env[name], v)
    case _ => Success(None)
  }

  function TupleSize(env: Environment, fuel: nat, types: seq<Schema>, items: seq<Value>): Result<Option<nat>, BcsError>
    requires |items| == |types|
    decreases fuel, types, 0
  {
    if types == [] then Success(Some(0))
    else
      var first :- SerializedSize(env, fuel, types[0], items[0]);
      if first.None? then Success(None)
      else
        var rest :- TupleSize(env, fuel, types[1..], items[1..]);
        if rest.None? then Success(None) else Success(Some(first.value + rest.value))
  }

  function FieldsSize(env: Environment, fuel: nat, fields: seq<(string, Schema)>, entries: seq<(string, Value)>)
    : Result<Option<nat>, BcsError>
    decreases fuel, fields, 0
  {
    if fields == [] then Success(Some(0))
    else
      assert fields decreases to fields[0];
      var first :- SerializedSize(env, fuel, fields[0].1, Lookup(entries, fields[0].0));
      if first.None? then Success(None)
      else
        var rest :- FieldsSize(env, fuel, fields[1..], entries);
        if rest.None? then Success(None) else Success(Some(first.value + rest.value))
  }

  ghost predicate Predicts(size: Result<Option<nat>, BcsError>, encoding: Encoding) {
    encoding.Success? ==> size.Success? && (size.value.Some? ==> size.value.value == |encoding.value|)
  }

  /** The prediction never fails on a value that serializes, and a predicted size is the size. */
  lemma {:induction false} SizeIsPredicted(env: Environment, fuel: nat, schema: Schema, v: Value)
    ensures Predicts(SerializedSize(env, fuel, schema, v), Encode(env, fuel, schema, v))
    decreases fuel, schema, 0
  {
    hide UlebEncode, EncodeItems, EncodePayload, ChosenEntry, DefinedKeys, IndexOf, Lookup, Predicts, EncodeLeaf;
    match schema {
      case Tuple(types) =>
        if v.List? && |v.items| == |types| {
          TupleSizeIsPredicted(env, fuel, types, v.items);
        } else {
          NothingPredicted(SerializedSize(env, fuel, schema, v), Encode(env, fuel, schema, v));
        }
      case Struct(fields) =>
        if IsObject(v) {
          FieldsSizeIsPredicted(env, fuel, fields, Entries(v));
        } else {
          NothingPredicted(SerializedSize(env, fuel, schema, v), Encode(env, fuel, schema, v));
        }
      case Transform(inner, input, _) =>
        SizeIsPredicted(env, fuel, inner, input(v));
      case Lazy(name) =>
        if fuel == 0 || name !in env {
          NothingPredicted(SerializedSize(env, fuel, schema, v), Encode(env, fuel, schema, v));
        } else {
          SizeIsPredicted(env, fuel - 1, env[name], v);
        }
      case FixedArray(_, _) | Vector(_) | Enum(_) =>
        NothingPredicted(SerializedSize(env, fuel, schema, v), Encode(env, fuel, schema, v));
      case _ =>
        LeafSizeIsPredicted(env, fuel, schema, v);
    }
  }

  lemma NothingPredicted(size: Result<Option<nat>, BcsError>, encoding: Encoding)
    requires encoding.Failure? || size == Success(None)
    ensures Predicts(size, encoding)
  {
  }

  lemma LeafSizeIsPredicted(env: Environment, fuel: nat, schema: Schema, v: Value)
    requires Leaf(schema)
    ensures Predicts(SerializedSize(env, fuel, schema, v), Encode(env, fuel, schema, v))
  {
    hide UlebEncode, LittleEndian, NumbersAsBytes, FromText;
    if schema == ByteVector && v.List? {
      NumbersAsBytesLength(v.items);
    }
  }

  lemma {:induction false} NumbersAsBytesLength(items: seq<Value>)
    ensures NumbersAsBytes(items).Some? ==> |NumbersAsBytes(items).value| == |items|
  {
    if items != [] {
      NumbersAsBytesLength(items[1..]);
    }
  }

  lemma {:induction false} TupleSizeIsPredicted(env: Environment, fuel: nat, types: seq<Schema>, items: seq<Value>)
    requires |items| == |types|
    ensures Predicts(TupleSize(env, fuel, types, items), EncodeTuple(env, fuel, types, items))
    decreases fuel, types, 0
  {
    hide SerializedSize, Encode;
    if types != [] {
      SizeIsPredicted(env, fuel, types[0], items[0]);
      TupleSizeIsPredicted(env, fuel, types[1..], items[1..]);
    }
  }

  lemma {:induction false} FieldsSizeIsPredicted(env: Environment, fuel: nat, fields: seq<(string, Schema)>,
                                                 entries: seq<(string, Value)>)
    ensures Predicts(FieldsSize(env, fuel, fields, entries), EncodeFields(env, fuel, fields, entries))
    decreases fuel, fields, 0
  {
    hide SerializedSize, Encode, Lookup;
    if fields != [] {
      assert fields decreases to fields[0];
      SizeIsPredicted(env, fuel, fields[0].1, Lookup(entries, fields[0].0));
      FieldsSizeIsPredicted(env, fuel, fields[1..], entries);
    }
  }

  /** The options of serialize; None stands for an absent option. */
  datatype Options = Options(initialSize: Option<nat>, maxSize: Option<nat>, allocateSize: Option<nat>)

  const DEFAULT_SIZE := 1024

  function OrElse(size: Option<nat>, other: nat): nat {
    if size.Some? then size.value else other
  }

  /** Options that leave room for n bytes: within the maximal size with growth in steps of at least
      four, or an initial size that holds them. */
  ghost predicate LeaveRoom(options: Options, n: nat) {
    || (options.initialSize.Some? && n <= options.initialSize.value)
    || (OrElse(options.allocateSize, DEFAULT_SIZE) >= 4 && (options.maxSize.Some? ==> n <= options.maxSize.value))
  }

  /** serialize, with the types that bypass the writer. The outcome is the encoding or a failure, and
      it is the encoding whenever the options leave room. A writer with the predicted initial size
      has room without growing, whatever the options say about growth. */
  method Serialize(env: Environment, fuel: nat, schema: Schema, v: Value, options: Options) returns (r: Encoding)
    ensures r.Success? ==> r == Encode(env, fuel, schema, v)
    ensures Encode(env, fuel, schema, v).Success? && LeaveRoom(options, |Encode(env, fuel, schema, v).value|) ==>
        r.Success?
    ensures
      && Encode(env, fuel, schema, v).Success?
      && options.initialSize.None?
      && SerializedSize(env, fuel, schema, v).Success? && SerializedSize(env, fuel, schema, v).value.Some?
      ==> r.Success?
    decreases fuel, schema
  {
    hide UlebEncode;
    match schema {
      case StringLike(toBytes, _) =>
        if !v.Text? {
          return Failure(TypeMismatch);
        }
        r := Success(UlebEncode(|toBytes(v.text)|) + toBytes(v.text));
      case Uleb128 =>
        if !v.Number? {
          return Failure(TypeMismatch);
        }
        r := Success(UlebEncode(v.n));
      case Transform(inner, input, _) =>
        r := Serialize(env, fuel, inner, input(v), options);
      case Lazy(name) =>
        if fuel == 0 || name !in env {
          return Failure(Unresolved);
        }
        r := Serialize(env, fuel - 1, env[name], v, options);
      case _ =>
        r := SerializeByWriter(env, fuel, schema, v, options);
    }
  }

  method SerializeByWriter(env: Environment, fuel: nat, schema: Schema, v: Value, options: Options)
    returns (r: Encoding)
    ensures r.Success? ==> r == Encode(env, fuel, schema, v)
    ensures Encode(env, fuel, schema, v).Success? && LeaveRoom(options, |Encode(env, fuel, schema, v).value|) ==>
        r.Success?
    ensures
      && Encode(env, fuel, schema, v).Success?
      && options.initialSize.None?
      && SerializedSize(env, fuel, schema, v).Success? && SerializedSize(env, fuel, schema, v).value.Some?
      ==> r.Success?
  {
    hide Encode, SerializedSize;
    SizeIsPredicted(env, fuel, schema, v);
    var size :- SerializedSize(env, fuel, schema, v);
    var initialSize := OrElse(options.initialSize, OrElse(size, DEFAULT_SIZE));
    var writer := new BcsWriter(initialSize, options.maxSize, OrElse(options.allocateSize, DEFAULT_SIZE));
    ghost var encoding := Encode(env, fuel, schema, v);
    var ok := WriteValue(writer, env, fuel, schema, v);
    if !ok {
      return Failure(ValueOutOfRange);
    }
    assert encoding.Success? && writer.Contents() == [] + encoding.value == encoding.value;
    var bytes := writer.ToBytes();
    r := Success(bytes);
  }

  method ParseBytes(env: Environment, fuel: nat, schema: Schema, src: Source) returns (r: Result<Value, BcsError>)
    requires ValidSource(src)
    ensures match Decode(env, fuel, schema, src, 0)
            case Success((value, _)) => r == Success(value)
            case Failure(e) => r == Failure(e)
  {
    hide Decode;
    var reader := new BcsReader(src);
    r := ReadValue(reader, env, fuel, schema);
  }

  /** The round trip of the methods, with default options: what serialize makes of a value, parse turns
      into its canonical value, which is the value itself if and only if it has the form that its schema
      asks for. It fails only on values without an encoding. */
  method SerializeAndParse(env: Environment, fuel: nat, schema: Schema, v: Value) returns (r: Result<Value, BcsError>)
    requires WellFormed(schema) && WellFormedEnvironment(env) && BcsRoundTrip.InRange(env, fuel, schema, v)
    ensures Encode(env, fuel, schema, v).Success? ==> r == Success(BcsRoundTrip.Canonical(env, fuel, schema, v))
    ensures Encode(env, fuel, schema, v).Failure? ==> r.Failure?
    ensures r == Success(v) <==> Decoded(env, fuel, schema, v)
  {
    hide Encode, Decode, SerializedSize, Decoded, WellFormed, BcsRoundTrip.InRange, BcsRoundTrip.Canonical;
    var bytes := Serialize(env, fuel, schema, v, Options(None, None, None));
    if bytes.Failure? {
      if Decoded(env, fuel, schema, v) {
        DecodedStays(env, fuel, schema, v);
      }
      return Failure(bytes.error);
    }
    ParseInvertsEncode(env, fuel, schema, v, []);
    RoundTripsExactly(env, fuel, schema, v, []);
    assert bytes.value + [] == bytes.value;
    r := ParseBytes(env, fuel, schema, Source(bytes.value, 0, |bytes.value|));
  }
}
