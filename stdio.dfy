/** The part of C's `FILE*` interface the tool uses, over a disk image held
    as an immutable byte sequence: `fseek` with `SEEK_SET` and `fread`. */
module Stdio {
  import opened Bytes

  /** The bytes `fread` transfers when asked for `len` bytes at position
      `pos`: all of them if the image holds them, else the ones up to its
      end (none when `pos` lies past the end, where `fseek` may leave it). */
  function Chunk(image: seq<Byte>, pos: nat, len: nat): (c: seq<Byte>)
    ensures |c| <= len
    ensures pos + len <= |image| ==> c == image[pos..pos + len]
    ensures |c| < len ==> pos + |c| >= |image|
    ensures c == [] || (pos + |c| <= |image| && c == image[pos..pos + |c|])
  {
    if pos >= |image| then []
    else if pos + len <= |image| then image[pos..pos + len]
    else image[pos..]
  }

  /** The value `fread(buffer, size, count, stream)` returns: the number of
      whole items of `size` bytes it transferred. */
  function ItemsRead(image: seq<Byte>, pos: nat, size: nat, count: nat): (items: nat)
    ensures size == 0 ==> items == 0
    ensures size > 0 ==> items * size <= |Chunk(image, pos, size * count)|
    ensures size > 0 ==> |Chunk(image, pos, size * count)| < (items + 1) * size
  {
    if size == 0 then 0 else |Chunk(image, pos, size * count)| / size
  }

  /** `fread` delivers every item it was asked for exactly when the image
      holds all the requested bytes from the position on. */
  lemma {:induction false} ItemsReadComplete(image: seq<Byte>, pos: nat, size: nat, count: nat)
    requires size > 0
    ensures ItemsRead(image, pos, size, count) <= count
    ensures ItemsRead(image, pos, size, count) == count <==> count == 0 || pos + size * count <= |image|
  {
    var len := size * count;
    var n := |Chunk(image, pos, len)|;
    assert ItemsRead(image, pos, size, count) == n / size;
    DivBelow(n, size, count);
    if n == len {
      MulDivCancel(size, count);
    } else {
      DivStrictlyBelow(n, size, count);
      assert count != 0;
    }
  }

  lemma MulDivCancel(size: nat, count: nat)
    requires size > 0
    ensures (size * count) / size == count
  {
    DivBelow(size * count, size, count);
    DivAtLeast(size * count, size, count);
  }

  lemma DivAtLeast(n: nat, size: nat, count: nat)
    requires size > 0 && n >= size * count
    ensures n / size >= count
  {
    var q, r := n / size, n % size;
    assert n == size * q + r && r < size;
    if q < count {
      MulMonotone(size, q + 1, count);
    }
  }

  lemma MulMonotone(size: nat, a: nat, b: nat)
    requires a <= b
    ensures size * a <= size * b
  {
  }

  lemma DivBelow(n: nat, size: nat, count: nat)
    requires size > 0 && n <= size * count
    ensures n / size <= count
  {
  }

  lemma DivStrictlyBelow(n: nat, size: nat, count: nat)
    requires size > 0 && n < size * count
    ensures n / size < count
  {
  }

  /** A stream opened on a disk image: the image's bytes, whether the
      stream can be repositioned (a regular file can, a pipe cannot), and
      the file position. */
  class Disk {
    const image: seq<Byte>
    const seekable: bool
    var pos: nat

    /** `fopen(path, "rb")` that succeeded: the position is at the start. */
    constructor Open(image: seq<Byte>, seekable: bool)
      ensures this.image == image && this.seekable == seekable && pos == 0
    {
      this.image := image;
      this.seekable := seekable;
      pos := 0;
    }

    /** `fseek(stream, offset, SEEK_SET) == 0`. Seeking past the end of the
        image is allowed; only a stream that cannot be repositioned fails,
        and then the position stays where it was. */
    method Seek(offset: nat) returns (ok: bool)
      modifies this`pos
      ensures ok == seekable
      ensures pos == if ok then offset else old(pos)
    {
      ok := seekable;
      if ok {
        pos := offset;
      }
    }

    /** `fread(buffer, size, count, stream)`: copies the available bytes of
        the `size * count` requested to the front of `buffer`, leaves the
        rest of `buffer` alone, advances the position past them and returns
        the number of whole items read. Only the bytes that arrive are
        stored, so it is those, not the request, that must fit `buffer`. */
    method Read(buffer: array<Byte>, size: nat, count: nat) returns (items: nat)
      requires |Chunk(image, pos, size * count)| <= buffer.Length
      modifies this`pos, buffer
      ensures var c := Chunk(image, old(pos), size * count);
        && buffer[..] == c + old(buffer[..])[|c|..]
        && pos == old(pos) + |c|
        && items == ItemsRead(image, old(pos), size, count)
    {
      var c := Chunk(image, pos, size * count);
      ghost var before := buffer[..];
      forall i | 0 <= i < |c| {
        buffer[i] := c[i];
      }
      assert buffer[..] == c + before[|c|..] by {
        assert forall i :: 0 <= i < |c| ==> buffer[..][i] == c[i];
        assert forall i :: |c| <= i < buffer.Length ==> buffer[..][i] == before[i];
      }
      pos := pos + |c|;
      items := if size == 0 then 0 else |c| / size;
    }
  }
}
