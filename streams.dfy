/**
 * The byte stream the skin codec reads from and writes to: a buffer and a
 * cursor. `Read` copies the next bytes and advances, `Seek` skips bytes,
 * `Write` appends. A read or skip past the end fails and changes nothing.
 */
module Streams {
  import opened Bytes

  /** The four bytes of `x`, least significant first, as `writeU32` stores a word. */
  function U32Bytes(x: u32): (r: seq<byte>)
    ensures |r| == 4 && Word(r[0], r[1], r[2], r[3]) == x
  {
    var n := x as int;
    var q0 := n / 0x100;
    var q1 := q0 / 0x100;
    var q2 := q1 / 0x100;
    assert n == n % 0x100 + 0x100 * q0 && q0 == q0 % 0x100 + 0x100 * q1 && q1 == q1 % 0x100 + 0x100 * q2;
    assert q2 < 0x100;
    [(n % 0x100) as byte, (q0 % 0x100) as byte, (q1 % 0x100) as byte, q2 as byte]
  }

  class Stream {
    /** Every byte of the stream. */
    var buffer: seq<byte>
    /** Where the next read starts. */
    var position: nat

    ghost predicate Valid()
      reads this
    {
      position <= |buffer|
    }

    /** A stream over `bytes`, positioned at their start. */
    constructor Open(bytes: seq<byte>)
      ensures Valid() && buffer == bytes && position == 0
    {
      buffer := bytes;
      position := 0;
    }

    /** The bytes not read yet. */
    ghost function Remaining(): seq<byte>
      requires Valid()
      reads this
    {
      buffer[position..]
    }

    /**
     * `read(dst + at, n)`: copies the next `n` bytes into `dst[at .. at + n]`
     * and moves past them; with fewer than `n` bytes left it fails and
     * changes nothing.
     */
    method Read(dst: array<byte>, at: nat, n: nat) returns (ok: bool)
      requires Valid() && at + n <= dst.Length
      modifies this`position, dst
      ensures Valid()
      ensures ok <==> old(position) + n <= |buffer|
      ensures ok ==> position == old(position) + n &&
                     dst[..] == Spliced(old(dst[..]), at, buffer[old(position) .. old(position) + n])
      ensures !ok ==> position == old(position) && dst[..] == old(dst[..])
    {
      if position + n > |buffer| {
        return false;
      }
      ghost var c := buffer[position .. position + n];
      forall j | at <= j < at + n {
        dst[j] := buffer[position + (j - at)];
      }
      forall j | 0 <= j < dst.Length
        ensures dst[j] == Spliced(old(dst[..]), at, c)[j]
      {
        SplicedAt(old(dst[..]), at, c, j);
      }
      assert dst[..] == Spliced(old(dst[..]), at, c);
      position := position + n;
      ok := true;
    }

    /** `seek(n)`: skips the next `n` bytes; with fewer left it fails and changes nothing. */
    method Seek(n: nat) returns (ok: bool)
      requires Valid()
      modifies this`position
      ensures Valid()
      ensures ok <==> old(position) + n <= |buffer|
      ensures position == if ok then old(position) + n else old(position)
    {
      if position + n > |buffer| {
        return false;
      }
      position := position + n;
      ok := true;
    }

    /** `write(bytes, |bytes|)`: appends the bytes; the cursor follows the end. */
    method Write(bytes: seq<byte>)
      modifies this
      ensures Valid()
      ensures buffer == old(buffer) + bytes && position == |buffer|
    {
      buffer := buffer + bytes;
      position := |buffer|;
    }

    /** `writeU32(x)`: appends the four bytes of `x`, least significant first. */
    method WriteU32(x: u32)
      modifies this
      ensures Valid()
      ensures buffer == old(buffer) + U32Bytes(x) && position == |buffer|
    {
      Write(U32Bytes(x));
    }
  }
}
