/** packages/bcs/src/writer.ts: a buffer that grows by a fixed step up to a maximal size. */
module BcsWriters {
  import opened Octets
  import opened Uleb
  import opened Numbers
  import opened Results

  datatype Snapshot = Snapshot(contents: seq<Byte>, buffer: array<Byte>, size: nat, capacity: Option<nat>, step: nat)

  /** What an operation that may write n bytes leaves: the old bytes are a prefix of the new ones,
      the capacity is what it was, and nothing is reallocated for bytes that fit. */
  ghost predicate Extends(before: Snapshot, after: Snapshot, n: nat) {
    && before.contents <= after.contents
    && |after.contents| <= |before.contents| + n
    && after.capacity == before.capacity && after.step == before.step
    && after.size >= before.size
    && (|before.contents| + n <= before.size ==> after.buffer == before.buffer && after.size == before.size)
  }

  /** Whether n more bytes can be written: they fit into the buffer, or into the capacity and every
      growth makes room for the widest single write, of four bytes. */
  ghost predicate CanHold(s: Snapshot, n: nat) {
    || |s.contents| + n <= s.size
    || (s.step >= 4 && (s.capacity.Some? ==> |s.contents| + n <= s.capacity.value))
  }

  /** The outcome of writing an encoding: on success it has been appended; on failure a part of it
      may have been. If the encoding exists, room for it is enough for success. */
  ghost predicate Wrote<E>(before: Snapshot, after: Snapshot, encoding: Result<seq<Byte>, E>, ok: bool) {
    && before.contents <= after.contents
    && (ok ==> encoding.Success? && after.contents == before.contents + encoding.value)
    && (encoding.Success? ==> Extends(before, after, |encoding.value|) && (CanHold(before, |encoding.value|) ==> ok))
  }

  function Concat<E>(first: Result<seq<Byte>, E>, rest: Result<seq<Byte>, E>): Result<seq<Byte>, E> {
    if first.Failure? then first else if rest.Failure? then rest else Success(first.value + rest.value)
  }

  lemma WroteBoth<E>(a: Snapshot, b: Snapshot, c: Snapshot, first: Result<seq<Byte>, E>, rest: Result<seq<Byte>, E>,
                     ok: bool)
    requires Wrote(a, b, first, true) && Wrote(b, c, rest, ok)
    ensures Wrote(a, c, Concat(first, rest), ok)
  {
    assert b.contents <= c.contents;
  }

  lemma WroteFirst<E>(a: Snapshot, b: Snapshot, first: Result<seq<Byte>, E>, rest: Result<seq<Byte>, E>)
    requires Wrote(a, b, first, false)
    ensures Wrote(a, b, Concat(first, rest), false)
  {
  }

  class BcsWriter {
    var buffer: array<Byte>
    var bytePosition: nat
    var size: nat
    const maxSize: Option<nat>   // None is the default, Infinity
    const allocateSize: nat

    ghost predicate Valid()
      reads this
    {
      bytePosition <= size == buffer.Length
    }

    /** The bytes written so far. */
    ghost function Contents(): seq<Byte>
      reads this, buffer
      requires Valid()
    {
      buffer[..bytePosition]
    }

    /** The size the buffer never exceeds: the maximal size, or the initial size if that is larger. */
    ghost function Capacity(): Option<nat>
      reads this
    {
      if maxSize.None? then None else Some(if size > maxSize.value then size else maxSize.value)
    }

    ghost function State(): Snapshot
      reads this, buffer
      requires Valid()
    {
      Snapshot(Contents(), buffer, size, Capacity(), allocateSize)
    }

    constructor (initialSize: nat, maxSize: Option<nat>, allocateSize: nat)
      ensures Valid() && Contents() == [] && fresh(buffer)
      ensures size == initialSize && this.maxSize == maxSize && this.allocateSize == allocateSize
    {
      this.maxSize, this.allocateSize := maxSize, allocateSize;
      buffer := new Byte[initialSize](_ => 0);
      bytePosition, size := 0, initialSize;
    }

    method EnsureSizeOrGrow(bytes: nat) returns (ok: bool)
      requires Valid()
      modifies this
      ensures Valid() && fresh({buffer} - {old(buffer)}) && Extends(old(State()), State(), bytes)
          && bytePosition == old(bytePosition)
      ensures ok <==> bytePosition + bytes <= size
      ensures ok <==> bytePosition + bytes <= old(size)
                      || (bytePosition + bytes <= old(size) + allocateSize
                          && (maxSize.Some? ==> bytePosition + bytes <= maxSize.value))
      ensures !ok ==> buffer == old(buffer)
      ensures CanHold(old(State()), bytes) && bytes <= 4 ==> ok
    {
      ok := true;
      var requiredSize := bytePosition + bytes;
      if requiredSize > size {
        var nextSize := size + allocateSize;
        if maxSize.Some? && maxSize.value < nextSize {
          nextSize := maxSize.value;
        }
        if requiredSize > nextSize {
          return false;
        }
        var nextBuffer := new Byte[nextSize](_ => 0);
        forall i | 0 <= i < buffer.Length {
          nextBuffer[i] := buffer[i];
        }
        size := nextSize;
        buffer := nextBuffer;
      }
    }

    /** A DataView setter keeps the low bytes of the number. */
    method WriteInt(value: int, bytes: nat) returns (ok: bool)
      requires Valid() && 1 <= bytes <= 4
      modifies this, buffer
      ensures Valid() && fresh({buffer} - {old(buffer)}) && Extends(old(State()), State(), bytes)
      ensures ok ==> Contents() == old(Contents()) + LittleEndian(value % Pow256(bytes), bytes)
      ensures !ok ==> Contents() == old(Contents())
      ensures CanHold(old(State()), bytes) ==> ok
    {
      ok := EnsureSizeOrGrow(bytes);
      if ok {
        var stored := LittleEndian(value % Pow256(bytes), bytes);
        forall i | 0 <= i < bytes {
          buffer[bytePosition + i] := stored[i];
        }
        bytePosition := bytePosition + bytes;
        assert Contents() == old(Contents()) + stored;
      }
    }

    method Write8(value: int) returns (ok: bool)
      requires Valid()
      modifies this, buffer
      ensures Valid() && fresh({buffer} - {old(buffer)}) && Extends(old(State()), State(), 1)
      ensures ok ==> Contents() == old(Contents()) + [value % 256]
      ensures !ok ==> Contents() == old(Contents())
      ensures CanHold(old(State()), 1) ==> ok
    {
      ok := WriteInt(value, 1);
      OneByte(value);
    }

    static lemma OneByte(value: int)
      ensures LittleEndian(value % Pow256(1), 1) == [value % 256]
    {
      assert Pow256(1) == 256 * Pow256(0) == 256;
      assert LittleEndian(value % 256 / 256, 0) == [];
    }

    /** Byte by byte, as the wide integers, the lengths and the byte arrays are written. */
    method WriteAll(bytes: seq<Byte>) returns (ok: bool)
      requires Valid()
      modifies this, buffer
      ensures Valid() && fresh({buffer} - {old(buffer)}) && Extends(old(State()), State(), |bytes|)
      ensures ok ==> Contents() == old(Contents()) + bytes
      ensures CanHold(old(State()), |bytes|) ==> ok
    {
      ok := true;
      var i := 0;
      while i < |bytes|
        invariant 0 <= i <= |bytes|
        invariant Valid() && fresh({buffer} - {old(buffer)}) && Extends(old(State()), State(), i)
            && bytePosition == old(bytePosition) + i
        invariant Contents() == old(Contents()) + bytes[..i]
        invariant CanHold(old(State()), |bytes|) ==> CanHold(State(), |bytes| - i)
      {
        ok := Write8(bytes[i]);
        if !ok {
          return;
        }
        i := i + 1;
      }
    }

    /** write64, write128 and write256. */
    method WriteBigInt(value: int, bytes: nat) returns (ok: bool)
      requires Valid()
      modifies this, buffer
      ensures Valid() && fresh({buffer} - {old(buffer)}) && Extends(old(State()), State(), bytes)
      ensures ok ==> Contents() == old(Contents()) + LittleEndian(if value > 0 then value else 0, bytes)
      ensures CanHold(old(State()), bytes) ==> ok
    {
      var result := ToLittleEndian(value, bytes);
      ok := WriteAll(result[..]);
    }

    method WriteUleb(value: int) returns (ok: bool)
      requires Valid()
      modifies this, buffer
      ensures Valid() && fresh({buffer} - {old(buffer)}) && Extends(old(State()), State(), |UlebEncode(value)|)
      ensures ok ==> Contents() == old(Contents()) + UlebEncode(value)
      ensures CanHold(old(State()), |UlebEncode(value)|) ==> ok
    {
      var encoded := UlebEncodeLoop(value);
      ok := WriteAll(encoded);
    }

    method ToBytes() returns (bytes: seq<Byte>)
      requires Valid()
      ensures bytes == Contents()
    {
      bytes := buffer[..bytePosition];
    }
  }

  // ---------- Chains of writes ----------

  /** One call of a writer's method. */
  datatype Operation =
    | Small(value: int, width: nat)    // write8, write16, write32
    | Big(value: int, width: nat)      // write64, write128, write256
    | Length(value: int)               // writeULEB

  predicate ValidOperation(op: Operation) {
    match op
    case Small(_, width) => 1 <= width <= 4
    case _ => true
  }

  function BytesOf(op: Operation): seq<Byte> {
    match op
    case Small(value, width) => LittleEndian(value % Pow256(width), width)
    case Big(value, width) => LittleEndian(if value > 0 then value else 0, width)
    case Length(value) => UlebEncode(value)
  }

  function AllBytes(ops: seq<Operation>): seq<Byte> {
    if ops == [] then [] else BytesOf(ops[0]) + AllBytes(ops[1..])
  }

  lemma AllBytesUnfold(ops: seq<Operation>)
    requires ops != []
    ensures AllBytes(ops) == BytesOf(ops[0]) + AllBytes(ops[1..])
  {
    hide BytesOf;
  }

  method WriteOperation(writer: BcsWriter, op: Operation) returns (ok: bool)
    requires writer.Valid() && ValidOperation(op)
    modifies writer, writer.buffer
    ensures writer.Valid() && fresh({writer.buffer} - {old(writer.buffer)})
    ensures Wrote<()>(old(writer.State()), writer.State(), Success(BytesOf(op)), ok)
  {
    hide LittleEndian, UlebEncode;
    match op {
      case Small(value, width) => ok := writer.WriteInt(value, width);
      case Big(value, width) => ok := writer.WriteBigInt(value, width);
      case Length(value) => ok := writer.WriteUleb(value);
    }
  }

  /** Whatever is written in whatever order, the writer holds the concatenation of the encodings; it
      fails only if they exceed the capacity, which is never so without a maximal size, or if a
      growth is too small for a single write. */
  method WriteChain(writer: BcsWriter, ops: seq<Operation>) returns (ok: bool)
    requires writer.Valid() && forall i :: 0 <= i < |ops| ==> ValidOperation(ops[i])
    modifies writer, writer.buffer
    ensures writer.Valid() && fresh({writer.buffer} - {old(writer.buffer)})
    ensures Wrote<()>(old(writer.State()), writer.State(), Success(AllBytes(ops)), ok)
    ensures writer.allocateSize >= 4 && writer.maxSize.None? ==> ok
    decreases |ops|
  {
    if ops == [] {
      return true;
    }
    AllBytesUnfold(ops);
    hide BytesOf, AllBytes;
    ghost var before := writer.State();
    ok := WriteOperation(writer, ops[0]);
    ghost var middle := writer.State();
    ghost var first, rest := Success(BytesOf(ops[0])), Success(AllBytes(ops[1..]));
    if ok {
      ok := WriteChain(writer, ops[1..]);
      WroteBoth<()>(before, middle, writer.State(), first, rest, ok);
    } else {
      WroteFirst<()>(before, middle, first, rest);
    }
  }
}
