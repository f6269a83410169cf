/**
 * The seekable backing medium that the virtual files sit on: a byte-addressed
 * file with one cursor, as `std::fs::File` behaves (the image a partition is
 * extracted to). A `std::io::Cursor` over a `Vec` behaves the same except on
 * an empty write past its end, which pads it with zeros up to the cursor.
 * Reads stop at the end of the data; a write past the end grows the file, and
 * a gap between the old end and the write reads as zeros.
 */
module IoStream {
  import opened Wrappers
  import opened Bytes

  /** The kinds of `std::io::Error` that the modelled code can raise. */
  datatype IoError = InvalidInput | WriteZero

  /**
   * The contents of a file `d` after `bytes` are written at position `at`.
   * Writing nothing leaves the file as it is, even past its end, as it does
   * for a `File`.
   */
  function Overwrite(d: seq<Byte>, at: nat, bytes: seq<Byte>): (r: seq<Byte>)
    ensures |r| == if |bytes| == 0 || at + |bytes| <= |d| then |d| else at + |bytes|
    decreases if |d| < at then at - |d| else 0
  {
    if |bytes| == 0 then d
    else if |d| < at then Overwrite(d + Zeros(at - |d|), at, bytes)
    else if at + |bytes| <= |d| then d[..at] + bytes + d[at + |bytes|..]
    else d[..at] + bytes
  }

  /** Byte `i` of a file after a write: the written byte, the old byte, or a zero of the gap. */
  lemma OverwriteAt(d: seq<Byte>, at: nat, bytes: seq<Byte>, i: nat)
    requires i < |Overwrite(d, at, bytes)|
    ensures Overwrite(d, at, bytes)[i] ==
      if at <= i < at + |bytes| then bytes[i - at] else if i < |d| then d[i] else 0
  {
  }

  /** Two consecutive writes are one write of the concatenation. */
  lemma OverwriteSplit(d: seq<Byte>, at: nat, a: seq<Byte>, b: seq<Byte>)
    ensures Overwrite(Overwrite(d, at, a), at + |a|, b) == Overwrite(d, at, a + b)
  {
    if |a| == 0 {
      assert a + b == b;
      return;
    }
    var lhs, rhs := Overwrite(Overwrite(d, at, a), at + |a|, b), Overwrite(d, at, a + b);
    assert |lhs| == |rhs|;
    forall i | 0 <= i < |lhs| ensures lhs[i] == rhs[i] {
      OverwriteAt(Overwrite(d, at, a), at + |a|, b, i);
      if i < |Overwrite(d, at, a)| { OverwriteAt(d, at, a, i); }
      OverwriteAt(d, at, a + b, i);
      if at <= i < at + |a| {
        assert lhs[i] == a[i - at] == (a + b)[i - at];
      } else if at + |a| <= i < at + |a| + |b| {
        assert lhs[i] == b[i - at - |a|] == (a + b)[i - at];
      }
    }
  }

  class Stream {
    var data: seq<Byte>
    var pos: nat

    constructor (data: seq<Byte>)
      ensures this.data == data && pos == 0
    {
      this.data := data;
      pos := 0;
    }

    /** Bytes between the cursor and the end of the data. */
    function Remaining(): nat
      reads this
    {
      if pos < |data| then |data| - pos else 0
    }

    /** `seek(SeekFrom::Start(target))`; a file accepts any position. */
    method Seek(target: nat) returns (r: nat)
      modifies this`pos
      ensures pos == target && r == target
    {
      pos := target;
      r := pos;
    }

    /** Reads up to `len` bytes into `buf[start..start + len]`. */
    method Read(buf: array<Byte>, start: nat, len: nat) returns (n: nat)
      requires start + len <= buf.Length
      modifies this`pos, buf
      ensures n == Min(len, old(Remaining()))
      ensures pos == old(pos) + n
      ensures forall j :: start <= j < start + n ==> buf[j] == data[old(pos) + (j - start)]
      ensures forall j :: 0 <= j < buf.Length && !(start <= j < start + n) ==> buf[j] == old(buf[j])
    {
      n := Min(len, Remaining());
      forall j | start <= j < start + n {
        buf[j] := data[pos + (j - start)];
      }
      pos := pos + n;
    }

    /** Writes all of `bytes` at the cursor. */
    method Write(bytes: seq<Byte>) returns (n: nat)
      modifies this
      ensures n == |bytes|
      ensures data == Overwrite(old(data), old(pos), bytes)
      ensures pos == old(pos) + n
    {
      data := Overwrite(data, pos, bytes);
      pos := pos + |bytes|;
      n := |bytes|;
    }
  }
}
