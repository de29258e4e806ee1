/** packages/bcs/src/reader.ts: a cursor over a view into a buffer. */
module BcsReaders {
  import opened Octets
  import opened Uleb
  import opened Numbers
  import opened Results
  import opened BcsSchema

  class BcsReader {
    const src: Source
    var bytePosition: nat

    ghost predicate Valid() {
      ValidSource(src)
    }

    constructor (src: Source)
      requires ValidSource(src)
      ensures Valid() && this.src == src && bytePosition == 0
    {
      this.src := src;
      bytePosition := 0;
    }

    /** Whether the reader did what a read specified as a function does from the old position: it
        returned its value and moved to where it ends, or it failed. */
    ghost predicate Did<T>(read: Parsed<T>, r: Result<T, BcsError>)
      reads this
    {
      match read
      case Success((value, next)) => r == Success(value) && bytePosition == next
      case Failure(e) => r == Failure(e)
    }

    /** read8, read16 and read32: getters of a DataView, which check against the view. */
    method ReadSmall(n: nat) returns (r: Result<nat, BcsError>)
      requires Valid()
      modifies this
      ensures Did(ReadInt(src, old(bytePosition), n), r)
    {
      if bytePosition + n > src.length {
        return Failure(ReadOutOfRange);
      }
      r := Success(FromLittleEndian(src.buffer[src.offset + bytePosition..][..n]));
      bytePosition := bytePosition + n;
    }

    /** read64, read128 and read256: two halves, joined as text. */
    method ReadBig(n: nat) returns (r: Result<nat, BcsError>)
      requires Valid() && (n == 8 || n == 16 || n == 32)
      modifies this
      ensures Did(ReadWide(src, old(bytePosition), n), r)
      decreases n
    {
      hide JoinHex, FromLittleEndian;
      var low: nat;
      var high: nat;
      if n == 8 {
        low :- ReadSmall(4);
        high :- ReadSmall(4);
      } else {
        low :- ReadBig(n / 2);
        high :- ReadBig(n / 2);
      }
      match JoinHex(high, low, n) {
        case None => r := Failure(TypeMismatch);
        case Some(value) => r := Success(value);
      }
    }

    method ReadSlice(num: int) returns (r: Result<seq<Byte>, BcsError>)
      requires Valid()
      modifies this
      ensures Did(ReadBytes(src, old(bytePosition), num), r)
    {
      var start := bytePosition + src.offset;
      if num < 0 || start + num > |src.buffer| {
        return Failure(ReadOutOfRange);
      }
      r := Success(src.buffer[start..][..num]);
      bytePosition := bytePosition + num;
    }

    method ReadLength() returns (r: Result<int, BcsError>)
      requires Valid()
      modifies this
      ensures Did(ReadUleb(src, old(bytePosition)), r)
    {
      hide UlebDecode;
      var start := bytePosition + src.offset;
      if start > |src.buffer| {
        return Failure(ReadOutOfRange);
      }
      var decoded := UlebDecodeLoop(src.buffer[start..]);
      bytePosition := bytePosition + decoded.length;
      r := Success(decoded.value);
    }
  }
}
