/** Which bytes a parse depends on. The length and byte-array reads of packages/bcs/src/reader.ts go to
    the underlying buffer and do not stop at the end of the view; a parse that ends within the view has
    nevertheless read nothing else. */
module BcsViews {
  import opened Octets
  import opened Uleb
  import opened Numbers
  import opened Results
  import opened BcsSchema
  import opened BcsRoundTrip

  /** Two views whose first n bytes are the same. */
  ghost predicate Agree(a: Source, b: Source, n: nat) {
    && ValidSource(a) && ValidSource(b) && n <= a.length && n <= b.length
    && a.buffer[a.offset..][..n] == b.buffer[b.offset..][..n]
  }

  /** A read of a that ends within the first n bytes is the same read of b, and no read moves backwards. */
  ghost predicate Same<T>(a: Parsed<T>, b: Parsed<T>, pos: nat, n: nat) {
    a.Success? ==> pos <= a.value.1 && (a.value.1 <= n ==> b == a)
  }

  lemma SameBytes(a: Source, b: Source, n: nat, pos: nat)
    requires Agree(a, b, n) && pos <= n
    ensures a.buffer[a.offset + pos..][..n - pos] == b.buffer[b.offset + pos..][..n - pos]
  {
    assert a.buffer[a.offset + pos..][..n - pos] == a.buffer[a.offset..][..n][pos..];
    assert b.buffer[b.offset + pos..][..n - pos] == b.buffer[b.offset..][..n][pos..];
  }

  lemma SameReadInt(a: Source, b: Source, n: nat, pos: nat, k: nat)
    requires Agree(a, b, n)
    ensures Same(ReadInt(a, pos, k), ReadInt(b, pos, k), pos, n)
  {
    hide FromLittleEndian;
    if pos + k <= n {
      SameBytes(a, b, n, pos);
      var x, y := a.buffer[a.offset + pos..], b.buffer[b.offset + pos..];
      assert x[..k] == x[..n - pos][..k] && y[..k] == y[..n - pos][..k];
    }
  }

  lemma {:induction false} SameReadWide(a: Source, b: Source, n: nat, pos: nat, k: nat)
    requires Agree(a, b, n)
    ensures Same(ReadWide(a, pos, k), ReadWide(b, pos, k), pos, n)
    decreases k
  {
    assert ValidSource(a) && ValidSource(b);
    hide Agree, ReadInt, JoinHex;
    if k <= 4 {
      SameReadInt(a, b, n, pos, k);
    } else {
      SameReadWide(a, b, n, pos, k / 2);
      if ReadWide(a, pos, k / 2).Success? {
        SameReadWide(a, b, n, ReadWide(a, pos, k / 2).value.1, k / 2);
      }
    }
  }

  /** Decoding a number consumes at least one byte and depends on those that it consumes. */
  lemma {:induction false} SameGroups(x: seq<Byte>, y: seq<Byte>, k: nat, at: nat, total: nat, shift: nat)
    requires k <= |x| && k <= |y| && x[..k] == y[..k]
    ensures var (v, length) := DecodeFrom(x, at, total, shift);
            at < length && (length <= k ==> DecodeFrom(y, at, total, shift) == (v, length))
    decreases |x| - at
  {
    hide Or, ShiftedGroup;
    var byte := ByteAt(x, at);
    var next := Or(total, ShiftedGroup(byte % 128, shift));
    if at < k {
      assert x[at] == x[..k][at] && y[at] == y[..k][at];
    }
    if byte >= 128 {
      SameGroups(x, y, k, at + 1, next, shift + 7);
    }
  }

  lemma SameReadUleb(a: Source, b: Source, n: nat, pos: nat)
    requires Agree(a, b, n)
    ensures Same(ReadUleb(a, pos), ReadUleb(b, pos), pos, n)
  {
    hide DecodeFrom;
    if a.offset + pos <= |a.buffer| {
      var x := a.buffer[a.offset + pos..];
      if pos <= n {
        SameBytes(a, b, n, pos);
        SameGroups(x, b.buffer[b.offset + pos..], n - pos, 0, 0, 0);
      } else {
        SameGroups(x, x, 0, 0, 0, 0);
      }
    }
  }

  lemma SameReadBytes(a: Source, b: Source, n: nat, pos: nat, k: int)
    requires Agree(a, b, n)
    ensures Same(ReadBytes(a, pos, k), ReadBytes(b, pos, k), pos, n)
  {
    if 0 <= k && pos + k <= n {
      SameBytes(a, b, n, pos);
      var x, y := a.buffer[a.offset + pos..], b.buffer[b.offset + pos..];
      assert x[..k] == x[..n - pos][..k] && y[..k] == y[..n - pos][..k];
    }
  }

  lemma SameLeaf(schema: Schema, a: Source, b: Source, n: nat, pos: nat)
    requires Agree(a, b, n) && Leaf(schema)
    ensures Same(DecodeLeaf(schema, a, pos), DecodeLeaf(schema, b, pos), pos, n)
  {
    hide Agree, ReadInt, ReadWide, ReadUleb, ReadBytes, ToText;
    match schema {
      case U8 | U16 | U32 => SameReadInt(a, b, n, pos, SmallSize(schema));
      case U64 | U128 | U256 => SameReadWide(a, b, n, pos, BigSize(schema));
      case Bool => SameReadInt(a, b, n, pos, 1);
      case Uleb128 => SameReadUleb(a, b, n, pos);
      case Bytes(size) => SameReadBytes(a, b, n, pos, size);
      case ByteVector => SameWithLength(a, b, n, pos);
      case StringLike(_, _) => SameWithLength(a, b, n, pos);
    }
  }

  lemma SameWithLength(a: Source, b: Source, n: nat, pos: nat)
    requires Agree(a, b, n)
    ensures Same(ReadUleb(a, pos), ReadUleb(b, pos), pos, n)
    ensures ReadUleb(a, pos).Success? ==>
              var (length, start) := ReadUleb(a, pos).value;
              Same(ReadBytes(a, start, length), ReadBytes(b, start, length), start, n)
  {
    hide Agree, ReadUleb, ReadBytes;
    SameReadUleb(a, b, n, pos);
    if ReadUleb(a, pos).Success? {
      var (length, start) := ReadUleb(a, pos).value;
      SameReadBytes(a, b, n, start, length);
    }
  }

  lemma {:induction false} SameDecode(env: Environment, fuel: nat, schema: Schema, a: Source, b: Source, n: nat,
                                      pos: nat)
    requires Agree(a, b, n)
    ensures Same(Decode(env, fuel, schema, a, pos), Decode(env, fuel, schema, b, pos), pos, n)
    decreases fuel, schema, 0
  {
    hide Agree, ReadUleb, DecodeLeaf, DecodeItems, DecodeTuple, DecodeFields, DecodePayload, EnumValue;
    match schema {
      case FixedArray(size, element) => SameItems(env, fuel, element, a, b, n, pos, size);
      case Vector(element) =>
        SameReadUleb(a, b, n, pos);
        if ReadUleb(a, pos).Success? && ReadUleb(a, pos).value.0 >= 0 {
          var (length, start) := ReadUleb(a, pos).value;
          SameItems(env, fuel, element, a, b, n, start, length);
        }
      case Tuple(types) => SameTuple(env, fuel, types, a, b, n, pos);
      case Struct(fields) => SameFields(env, fuel, fields, a, b, n, pos);
      case Enum(variants) =>
        SameReadUleb(a, b, n, pos);
        if ReadUleb(a, pos).Success? && 0 <= ReadUleb(a, pos).value.0 < |variants| {
          var (i, start) := ReadUleb(a, pos).value;
          SamePayload(env, fuel, variants[i], a, b, n, start);
        }
      case Transform(inner, _, _) => SameDecode(env, fuel, inner, a, b, n, pos);
      case Lazy(name) =>
        if fuel > 0 && name in env {
          SameDecode(env, fuel - 1, env[name], a, b, n, pos);
        }
      case _ => SameLeaf(schema, a, b, n, pos);
    }
  }

  lemma {:induction false} SamePayload(env: Environment, fuel: nat, variant: (string, Option<Schema>), a: Source,
                                       b: Source, n: nat, pos: nat)
    requires Agree(a, b, n)
    ensures Same(DecodePayload(env, fuel, variant, a, pos), DecodePayload(env, fuel, variant, b, pos), pos, n)
    decreases fuel, variant, 0
  {
    assert ValidSource(a) && ValidSource(b);
    hide Agree, Decode;
    if variant.1.Some? {
      SameDecode(env, fuel, variant.1.value, a, b, n, pos);
    }
  }

  lemma {:induction false} SameItems(env: Environment, fuel: nat, element: Schema, a: Source, b: Source, n: nat,
                                     pos: nat, count: nat)
    requires Agree(a, b, n)
    ensures Same(DecodeItems(env, fuel, element, a, pos, count), DecodeItems(env, fuel, element, b, pos, count), pos, n)
    decreases fuel, element, 1 + count
  {
    assert ValidSource(a) && ValidSource(b);
    if count > 0 {
      hide *;
      var first, other := Decode(env, fuel, element, a, pos), Decode(env, fuel, element, b, pos);
      ItemsInSteps(env, fuel, element, a, pos, count);
      ItemsInSteps(env, fuel, element, b, pos, count);
      SameDecode(env, fuel, element, a, b, n, pos);
      if first.Success? {
        SameItems(env, fuel, element, a, b, n, first.value.1, count - 1);
      }
      SameStep(first, other, RestOf(env, fuel, element, a, first, count), RestOf(env, fuel, element, b, first, count),
               RestOf(env, fuel, element, b, other, count), pos, n);
    }
  }

  function RestOf(env: Environment, fuel: nat, element: Schema, src: Source, first: Parsed<Value>, count: nat)
    : (r: Parsed<seq<Value>>)
    requires ValidSource(src) && count > 0
    ensures first.Success? ==> r == DecodeItems(env, fuel, element, src, first.value.1, count - 1)
  {
    if first.Failure? then Failure(first.error) else DecodeItems(env, fuel, element, src, first.value.1, count - 1)
  }

  function ItemsStep(first: Parsed<Value>, rest: Parsed<seq<Value>>): Parsed<seq<Value>> {
    if first.Failure? then Failure(first.error)
    else if rest.Failure? then rest
    else Success(([first.value.0] + rest.value.0, rest.value.1))
  }

  lemma SameStep(a: Parsed<Value>, b: Parsed<Value>, rest: Parsed<seq<Value>>, same: Parsed<seq<Value>>,
                 other: Parsed<seq<Value>>, pos: nat, n: nat)
    requires Same(a, b, pos, n) && (a.Success? ==> Same(rest, same, a.value.1, n)) && (a == b ==> same == other)
    ensures Same(ItemsStep(a, rest), ItemsStep(b, other), pos, n)
  {
  }

  lemma ItemsInSteps(env: Environment, fuel: nat, element: Schema, src: Source, pos: nat, count: nat)
    requires ValidSource(src) && count > 0
    ensures var first := Decode(env, fuel, element, src, pos);
            DecodeItems(env, fuel, element, src, pos, count)
            == ItemsStep(first, RestOf(env, fuel, element, src, first, count))
  {
    hide Decode;
  }

  lemma {:induction false} SameTuple(env: Environment, fuel: nat, types: seq<Schema>, a: Source, b: Source, n: nat,
                                     pos: nat)
    requires Agree(a, b, n)
    ensures Same(DecodeTuple(env, fuel, types, a, pos), DecodeTuple(env, fuel, types, b, pos), pos, n)
    decreases fuel, types, 0
  {
    assert ValidSource(a) && ValidSource(b);
    hide Agree, Decode;
    if types != [] {
      SameDecode(env, fuel, types[0], a, b, n, pos);
      if Decode(env, fuel, types[0], a, pos).Success? {
        SameTuple(env, fuel, types[1..], a, b, n, Decode(env, fuel, types[0], a, pos).value.1);
      }
    }
  }

  lemma {:induction false} SameFields(env: Environment, fuel: nat, fields: seq<(string, Schema)>, a: Source, b: Source,
                                      n: nat, pos: nat)
    requires Agree(a, b, n)
    ensures Same(DecodeFields(env, fuel, fields, a, pos), DecodeFields(env, fuel, fields, b, pos), pos, n)
    decreases fuel, fields, 0
  {
    assert ValidSource(a) && ValidSource(b);
    hide Agree, Decode;
    if fields != [] {
      assert fields decreases to fields[0];
      SameDecode(env, fuel, fields[0].1, a, b, n, pos);
      if Decode(env, fuel, fields[0].1, a, pos).Success? {
        SameFields(env, fuel, fields[1..], a, b, n, Decode(env, fuel, fields[0].1, a, pos).value.1);
      }
    }
  }

  // ---------- Views ----------

  /** The bytes of a view as a buffer of their own. */
  function Isolated(src: Source): (r: Source)
    requires ValidSource(src)
    ensures ValidSource(r)
  {
    Source(src.buffer[src.offset..][..src.length], 0, src.length)
  }

  /** What surrounds a view matters exactly to the parses that end beyond it: a parse that ends within
      the view is the parse of the view's bytes alone. */
  lemma ParseWithinView(env: Environment, fuel: nat, schema: Schema, src: Source, pos: nat, v: Value, n: nat)
    requires ValidSource(src) && n <= src.length
    ensures Decode(env, fuel, schema, src, pos) == Success((v, n)) <==>
            Decode(env, fuel, schema, Isolated(src), pos) == Success((v, n))
  {
    hide Decode;
    var alone := Isolated(src);
    assert alone.buffer[0..] == alone.buffer;
    SameDecode(env, fuel, schema, src, alone, src.length, pos);
    SameDecode(env, fuel, schema, alone, src, src.length, pos);
  }

  // ---------- Which parses stay within the view ----------

  /** The schemas whose encodings have a fixed length: fixed-width integers and booleans, and what
      arrays of fixed size, tuples, structs, transformations and lazy schemas make of them. */
  ghost predicate FixedWidth(schema: Schema)
    decreases schema, 0
  {
    match schema
    case U8 | U16 | U32 | U64 | U128 | U256 | Bool | Lazy(_) => true
    case FixedArray(_, element) => FixedWidth(element)
    case Tuple(types) => FixedWidthTuple(types)
    case Struct(fields) => FixedWidthFields(fields)
    case Transform(inner, _, _) => FixedWidth(inner)
    case _ => false
  }

  ghost predicate FixedWidthTuple(types: seq<Schema>)
    decreases types, 0
  {
    types != [] ==> FixedWidth(types[0]) && FixedWidthTuple(types[1..])
  }

  ghost predicate FixedWidthFields(fields: seq<(string, Schema)>)
    decreases fields, 0
  {
    fields != [] ==>
      assert fields decreases to fields[0];
      FixedWidth(fields[0].1) && FixedWidthFields(fields[1..])
  }

  ghost predicate FixedWidthEnvironment(env: Environment) {
    forall name :: name in env ==> FixedWidth(env[name])
  }

  /** A read that started within a view and succeeded ended within it. */
  ghost predicate Within<T>(read: Parsed<T>, src: Source) {
    read.Success? ==> read.value.1 <= src.length
  }

  lemma {:induction false} WideWithin(src: Source, pos: nat, n: nat)
    requires ValidSource(src) && pos <= src.length
    ensures Within(ReadWide(src, pos, n), src)
    decreases n
  {
    hide FromLittleEndian, JoinHex;
    if n > 4 {
      WideWithin(src, pos, n / 2);
      if ReadWide(src, pos, n / 2).Success? {
        WideWithin(src, ReadWide(src, pos, n / 2).value.1, n / 2);
      }
    }
  }

  /** Reading such a schema never goes beyond the view. */
  lemma {:induction false} FixedWidthWithin(env: Environment, fuel: nat, schema: Schema, src: Source, pos: nat)
    requires ValidSource(src) && pos <= src.length && FixedWidth(schema) && FixedWidthEnvironment(env)
    ensures Within(Decode(env, fuel, schema, src, pos), src)
    decreases fuel, schema, 0
  {
    hide ReadWide, FromLittleEndian, ToText, DecodeItems, DecodeTuple, DecodeFields;
    match schema {
      case U64 | U128 | U256 => WideWithin(src, pos, BigSize(schema));
      case FixedArray(size, element) => ItemsWithin(env, fuel, element, src, pos, size);
      case Tuple(types) => TupleWithin(env, fuel, types, src, pos);
      case Struct(fields) => FieldsWithin(env, fuel, fields, src, pos);
      case Transform(inner, _, _) => FixedWidthWithin(env, fuel, inner, src, pos);
      case Lazy(name) =>
        if fuel > 0 && name in env {
          FixedWidthWithin(env, fuel - 1, env[name], src, pos);
        }
      case _ =>
    }
  }

  lemma {:induction false} ItemsWithin(env: Environment, fuel: nat, element: Schema, src: Source, pos: nat, count: nat)
    requires ValidSource(src) && pos <= src.length && FixedWidth(element) && FixedWidthEnvironment(env)
    ensures Within(DecodeItems(env, fuel, element, src, pos, count), src)
    decreases fuel, element, 1 + count
  {
    hide Decode, FixedWidth;
    if count > 0 {
      FixedWidthWithin(env, fuel, element, src, pos);
      if Decode(env, fuel, element, src, pos).Success? {
        ItemsWithin(env, fuel, element, src, Decode(env, fuel, element, src, pos).value.1, count - 1);
      }
    }
  }

  lemma {:induction false} TupleWithin(env: Environment, fuel: nat, types: seq<Schema>, src: Source, pos: nat)
    requires ValidSource(src) && pos <= src.length && FixedWidthTuple(types) && FixedWidthEnvironment(env)
    ensures Within(DecodeTuple(env, fuel, types, src, pos), src)
    decreases fuel, types, 0
  {
    hide Decode, FixedWidth;
    if types != [] {
      FixedWidthWithin(env, fuel, types[0], src, pos);
      if Decode(env, fuel, types[0], src, pos).Success? {
        TupleWithin(env, fuel, types[1..], src, Decode(env, fuel, types[0], src, pos).value.1);
      }
    }
  }

  lemma {:induction false} FieldsWithin(env: Environment, fuel: nat, fields: seq<(string, Schema)>, src: Source,
                                        pos: nat)
    requires ValidSource(src) && pos <= src.length && FixedWidthFields(fields) && FixedWidthEnvironment(env)
    ensures Within(DecodeFields(env, fuel, fields, src, pos), src)
    decreases fuel, fields, 0
  {
    hide Decode, FixedWidth;
    if fields != [] {
      assert fields decreases to fields[0];
      FixedWidthWithin(env, fuel, fields[0].1, src, pos);
      if Decode(env, fuel, fields[0].1, src, pos).Success? {
        FieldsWithin(env, fuel, fields[1..], src, Decode(env, fuel, fields[0].1, src, pos).value.1);
      }
    }
  }

  /** Hence what surrounds the view never matters to such a schema. */
  lemma FixedWidthIgnoresSurroundings(env: Environment, fuel: nat, schema: Schema, src: Source, pos: nat)
    requires ValidSource(src) && pos <= src.length && FixedWidth(schema) && FixedWidthEnvironment(env)
    ensures var read, alone := Decode(env, fuel, schema, src, pos), Decode(env, fuel, schema, Isolated(src), pos);
            (read.Success? <==> alone.Success?) && (read.Success? ==> read == alone)
  {
    hide Decode, FixedWidth, Isolated;
    var alone := Isolated(src);
    assert alone.length == src.length by {
      SameLength(src);
    }
    FixedWidthWithin(env, fuel, schema, src, pos);
    FixedWidthWithin(env, fuel, schema, alone, pos);
    var read, other := Decode(env, fuel, schema, src, pos), Decode(env, fuel, schema, alone, pos);
    if read.Success? {
      ParseWithinView(env, fuel, schema, src, pos, read.value.0, read.value.1);
    } else if other.Success? {
      ParseWithinView(env, fuel, schema, src, pos, other.value.0, other.value.1);
    }
  }

  lemma SameLength(src: Source)
    requires ValidSource(src)
    ensures Isolated(src).length == src.length
  {
  }

  lemma {:induction false} GroupsBeyond(bytes: seq<Byte>, at: nat, total: nat, shift: nat, n: nat)
    requires at <= n <= |bytes|
    ensures DecodeFrom(bytes, at, total, shift).1 > n <==> forall k :: at <= k < n ==> bytes[k] >= 128
    decreases |bytes| - at
  {
    hide Or, ShiftedGroup;
    var byte := ByteAt(bytes, at);
    var next := Or(total, ShiftedGroup(byte % 128, shift));
    if at == n {
      SameGroups(bytes, bytes, 0, at, total, shift);
    } else if byte >= 128 {
      GroupsBeyond(bytes, at + 1, next, shift + 7, n);
    }
  }

  /** Reading a length from within the view goes beyond it if and only if every byte up to the end of the
      view announces another one; this includes the end itself. */
  lemma LengthBeyondView(src: Source, pos: nat)
    requires ValidSource(src) && pos <= src.length
    ensures ReadUleb(src, pos).Success?
    ensures ReadUleb(src, pos).value.1 > src.length <==>
            forall k :: src.offset + pos <= k < src.offset + src.length ==> src.buffer[k] >= 128
  {
    hide DecodeFrom;
    var rest, n := src.buffer[src.offset + pos..], src.length - pos;
    GroupsBeyond(rest, 0, 0, 0, n);
    assert forall k :: src.offset + pos <= k < src.offset + src.length ==> src.buffer[k] == rest[k - src.offset - pos];
    if k :| 0 <= k < n && rest[k] < 128 {
      assert src.buffer[src.offset + pos + k] < 128;
    }
  }

  /** A byte vector is read beyond the view if and only if its length is not negative, and what it
      announces ends beyond the view but within the buffer. */
  lemma BytesBeyondView(env: Environment, fuel: nat, src: Source, pos: nat)
    requires ValidSource(src) && pos <= src.length
    ensures var (length, start) := ReadUleb(src, pos).value;
            var read := Decode(env, fuel, ByteVector, src, pos);
            read.Success? && read.value.1 > src.length <==>
            length >= 0 && src.length < start + length <= |src.buffer| - src.offset
  {
    LengthBeyondView(src, pos);
    hide ReadUleb;
  }

  /** A truncated encoding never parses within its bytes: where parsing it does not fail, it ends beyond
      the data. */
  lemma TruncationEndsBeyond(env: Environment, fuel: nat, schema: Schema, v: Value, k: nat)
    requires Encode(env, fuel, schema, v).Success? && InRange(env, fuel, schema, v)
    requires k < |Encode(env, fuel, schema, v).value|
    ensures var cut := Decode(env, fuel, schema, Source(Encode(env, fuel, schema, v).value[..k], 0, k), 0);
            cut.Success? ==> cut.value.1 > k
  {
    hide Encode, Decode, InRange;
    var bytes := Encode(env, fuel, schema, v).value;
    var whole, cut := Source(bytes, 0, |bytes|), Source(bytes[..k], 0, k);
    assert whole.buffer[0..] == bytes && cut.buffer[0..] == bytes[..k] && bytes[..|bytes|] == bytes;
    DecodeEncode(env, fuel, schema, v, whole, 0);
    SameDecode(env, fuel, schema, cut, whole, k, 0);
  }

  /** A byte vector in a view of one byte is read from the buffer behind the view. */
  lemma ReadsBehindView(env: Environment, fuel: nat)
    ensures Decode(env, fuel, ByteVector, Source([2, 7, 8], 0, 1), 0) == Success((ByteArray([7, 8]), 3))
  {
    var buffer: seq<Byte> := [2, 7, 8];
    OneGroupValue(buffer, 2);
    hide UlebDecode;
    assert buffer[0..] == buffer && buffer[1..][..2] == [7, 8];
  }

  /** No data at all read as an empty vector, because a missing byte counts as zero. */
  lemma NoDataReadAsEmpty(env: Environment, fuel: nat, element: Schema)
    ensures Decode(env, fuel, Vector(element), Source([], 0, 0), 0) == Success((List([]), 1))
  {
    var buffer: seq<Byte> := [];
    OneGroupValue(buffer, 0);
    hide UlebDecode;
    assert buffer[0..] == buffer;
  }

  lemma OneGroupValue(bytes: seq<Byte>, byte: Byte)
    requires byte < 128 && ByteAt(bytes, 0) == byte
    ensures UlebDecode(bytes) == DecodedNumber(byte, 1)
  {
    PowerOf31();
    assert Or(0, byte) == byte;
    assert Pow2(0) == 1 && ShiftedGroup(byte, 0) == byte;
  }
}
