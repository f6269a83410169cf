/**
 * The stream views of the extent layer: a window onto one physical range
 * (`SectionFile`) and a logically gap-free stream over scattered fragments
 * (`FragmentFile`). Both hold a backing `Stream` and move its cursor.
 */
module Extent {
  import opened Wrappers
  import opened Bytes
  import opened IoStream
  import opened Metadata
  import opened Layout

  /** `std::io::SeekFrom`, with mathematical integers in place of `u64` and `i64`. */
  datatype SeekFrom = Start(offset: nat) | Current(delta: int) | End(delta: int)

  /**
   * The absolute position a seek asks for, from position `current` of a
   * stream of `length` bytes. A seek from the start is never negative, and
   * `Current(0)` asks for the position the stream is already at.
   */
  function Target(from: SeekFrom, current: nat, length: nat): (t: int)
    ensures from.Start? ==> t >= 0
    ensures from == Current(0) ==> t == current
    ensures from == End(0) ==> t == length
  {
    match from
    case Start(p) => p
    case Current(delta) => current + delta
    case End(delta) => length + delta
  }

  /** What remains of the `length` bytes at `start` of `d` once `d` runs out. */
  function WindowBytes(d: seq<Byte>, start: nat, length: nat): (w: seq<Byte>)
    ensures |w| == if start < |d| then Min(length, |d| - start) else 0
    ensures start < |d| ==> w == d[start..start + |w|]
  {
    var end := Min(start + length, |d|);
    if start < end then d[start..end] else []
  }

  /** A window `[offset, offset + length)` of a backing stream, seen as a stream of its own. */
  class SectionFile {
    const inner: Stream
    const offset: nat
    const length: nat
    var pos: nat

    /** The backing cursor is the physical image of the window position. */
    ghost predicate Valid()
      reads this, inner
    {
      inner.pos == offset + pos
    }

    constructor (inner: Stream, offset: nat, length: nat)
      modifies inner`pos
      ensures this.inner == inner && this.offset == offset && this.length == length
      ensures pos == 0 && Valid()
    {
      var _ := inner.Seek(offset);
      this.inner := inner;
      this.offset := offset;
      this.length := length;
      pos := 0;
    }

    /** The window of the blocks of one extent. */
    static method NewFromExtent(inner: Stream, extent: Extent, blockSize: nat) returns (s: SectionFile)
      modifies inner`pos
      ensures fresh(s) && s.Valid() && s.inner == inner && s.pos == 0
      ensures s.offset == extent.startBlock * blockSize && s.length == extent.numBlocks * blockSize
    {
      s := new SectionFile(inner, extent.startBlock * blockSize, extent.numBlocks * blockSize);
    }

    /** The bytes that reads will still deliver: the rest of the window, cut where the data ends. */
    function Pending(): seq<Byte>
      reads this, inner
      requires pos <= length
    {
      WindowBytes(inner.data, offset + pos, length - pos)
    }

    /** Moves to any window position; no bound is checked. */
    method Seek(from: SeekFrom) returns (r: nat)
      requires Valid() && Target(from, pos, length) >= 0
      modifies this`pos, inner`pos
      ensures Valid()
      ensures r == Target(from, old(pos), length) && pos == r
    {
      var target: nat := Target(from, pos, length);
      var at := inner.Seek(offset + target);
      pos := at - offset;
      r := pos;
    }

    /** Reads at most the rest of the window. */
    method Read(buf: array<Byte>) returns (n: nat)
      requires Valid() && pos <= length
      modifies this`pos, inner`pos, buf
      ensures Valid() && pos <= length
      ensures n == Min(buf.Length, |old(Pending())|)
      ensures old(pos) == length ==> n == 0
      ensures pos == old(pos) + n
      ensures buf[..n] == old(Pending())[..n]
      ensures buf[n..] == old(buf[n..])
      ensures Pending() == old(Pending())[n..]
    {
      ghost var before := Pending();
      var toRead := Min(buf.Length, length - pos);
      n := inner.Read(buf, 0, toRead);
      pos := pos + n;
      assert buf[..n] == before[..n];
      assert buf[n..] == old(buf[n..]);
      assert Pending() == before[n..];
    }

    /** Writes at most the rest of the window; the excess is dropped. */
    method Write(bytes: seq<Byte>) returns (n: nat)
      requires Valid() && pos <= length
      modifies this`pos, inner
      ensures Valid() && pos <= length
      ensures n == Min(|bytes|, length - old(pos)) && pos == old(pos) + n
      ensures inner.data == Overwrite(old(inner.data), offset + old(pos), bytes[..n])
    {
      var toWrite := Min(|bytes|, length - pos);
      n := inner.Write(bytes[..toWrite]);
      pos := pos + n;
    }
  }

  /**
   * An ordered list of fragments of a backing stream, joined into one
   * gap-free logical stream `[0, size)`. The cursor is the fragment `index`
   * and the offset `fragmentPos` inside it; `index == |fragments|` is the end.
   */
  class FragmentFile {
    const inner: Stream
    ghost const layout: seq<Fragment>
    const fragments: seq<FragmentNode>
    const size: nat
    var index: nat
    var fragmentPos: nat

    /** The nodes are the scan of the layout, and the cursor is inside the list. */
    ghost predicate Wf()
      reads this
    {
      && |layout| > 0
      && fragments == Scan(layout, 0)
      && size == Total(layout)
      && index <= |fragments|
      && (index < |fragments| ==> fragmentPos <= fragments[index].size)
    }

    /** Node `j` is fragment `j` of the layout, placed at its logical start. */
    lemma NodeAt(j: nat)
      requires Wf() && j < |fragments|
      ensures fragments[j] == FragmentNode(layout[j].offset, layout[j].size, StartPos(layout, j))
    {
      ScanAt(layout, 0, j);
    }

    /** Before the end, the backing cursor is the physical image of the logical cursor. */
    ghost predicate Valid()
      reads this, inner
    {
      Wf() && (index < |fragments| ==> inner.pos == fragments[index].offset + fragmentPos)
    }

    constructor Init(inner: Stream, fs: seq<Fragment>)
      requires |fs| > 0
      ensures this.inner == inner && layout == fs
      ensures index == 0 && fragmentPos == 0 && Wf()
    {
      this.inner := inner;
      layout := fs;
      fragments := Scan(fs, 0);
      size := Total(fs);
      index := 0;
      fragmentPos := 0;
    }

    /** Refuses an empty list; otherwise starts at logical 0, the start of the first fragment. */
    static method New(inner: Stream, fs: seq<Fragment>) returns (r: Result<FragmentFile, IoError>)
      modifies inner`pos
      ensures |fs| == 0 ==> r == Failure(InvalidInput) && inner.pos == old(inner.pos)
      ensures |fs| > 0 ==>
        && r.Success? && fresh(r.value) && r.value.Valid()
        && r.value.inner == inner && r.value.layout == fs && r.value.size == Total(fs)
        && r.value.index == 0 && r.value.fragmentPos == 0 && r.value.Pos() == 0
        && inner.pos == fs[0].offset
    {
      if |fs| == 0 {
        return Failure(InvalidInput);
      }
      var _ := inner.Seek(fs[0].offset);
      var f := new FragmentFile.Init(inner, fs);
      assert StartPos(fs, 0) == 0 by {
        assert fs[..0] == [];
      }
      return Success(f);
    }

    /** The virtual file over the blocks of a list of extents. */
    static method NewFromExtents(inner: Stream, extents: seq<Extent>, blockSize: nat)
      returns (r: Result<FragmentFile, IoError>)
      modifies inner`pos
      ensures |extents| == 0 ==> r == Failure(InvalidInput) && inner.pos == old(inner.pos)
      ensures |extents| > 0 ==>
        && r.Success? && fresh(r.value) && r.value.Valid()
        && r.value.inner == inner && r.value.layout == FromExtents(extents, blockSize)
        && r.value.size == blockSize * Blocks(extents)
        && r.value.index == 0 && r.value.fragmentPos == 0 && r.value.Pos() == 0
        && inner.pos == blockSize * extents[0].startBlock
    {
      CapacityIsBlocks(extents, blockSize);
      r := New(inner, FromExtents(extents, blockSize));
    }

    /** The cursor has stepped past the last fragment. */
    predicate Eof()
      reads this
    {
      index >= |fragments|
    }

    /** The logical cursor: the fragment's start plus the offset in it, or `size` at the end. */
    function Pos(): (r: nat)
      reads this
      requires Wf()
      ensures r <= size
      ensures Eof() ==> r == size
      ensures !Eof() ==> r == StartPos(layout, index) + fragmentPos
    {
      if Eof() then size
      else
        NodeAt(index);
        FragmentEndBound(layout, index);
        fragments[index].startPos + fragmentPos
    }

    /** Bytes left in the current fragment; none at the end. */
    function FragmentRemaining(): (r: nat)
      reads this
      requires Wf()
      ensures Eof() ==> r == 0
      ensures !Eof() ==> Pos() + r == StartPos(layout, index) + layout[index].size
      ensures Pos() + r <= size
    {
      if Eof() then 0
      else
        NodeAt(index);
        FragmentEndBound(layout, index);
        fragments[index].size - fragmentPos
    }

    /** The cursor is at the end of the file or of its current fragment. */
    predicate FragmentEof()
      reads this
      requires Wf()
      ensures FragmentEof() <==> Eof() || Pos() == StartPos(layout, index) + layout[index].size
    {
      Eof() || FragmentRemaining() == 0
    }

    /** The physical offset of the logical cursor: as far into the current fragment's range as the cursor is into the fragment. */
    function InnerPos(): (r: nat)
      reads this
      requires Wf() && !Eof()
      ensures r == layout[index].offset + fragmentPos
    {
      NodeAt(index);
      fragments[index].offset + fragmentPos
    }

    /** Puts the backing cursor where the logical cursor says. */
    method InnerSeek() returns (r: nat)
      requires Wf() && !Eof()
      modifies inner`pos
      ensures Valid() && r == Pos()
    {
      var _ := inner.Seek(InnerPos());
      r := Pos();
    }

    /** Steps from an exhausted fragment to the start of the next; the logical cursor stays put. */
    method NextFragment()
      requires Valid() && !Eof() && FragmentRemaining() == 0
      modifies this`index, this`fragmentPos, inner`pos
      ensures Valid() && index == old(index) + 1 && Pos() == old(Pos())
      ensures !Eof() ==> fragmentPos == 0
      ensures Eof() ==> fragmentPos == old(fragmentPos) && inner.pos == old(inner.pos)
    {
      StartPosNext(layout, index);
      StartPosEnd(layout);
      index := index + 1;
      if Eof() {
        return;
      }
      fragmentPos := 0;
      var _ := InnerSeek();
    }

    /**
     * The search of `seek`: the last fragment of the prefix whose logical
     * starts are at most `p`. Before the end that is the fragment holding `p`.
     */
    method Locate(p: nat) returns (i: nat)
      requires Wf()
      ensures i < |fragments|
      ensures forall j :: 0 <= j <= i ==> fragments[j].startPos <= p
      ensures forall j :: i < j < |fragments| ==> p < fragments[j].startPos
      ensures p <= size ==> p - fragments[i].startPos <= fragments[i].size
      ensures p < size ==> i == FragmentOf(layout, p)
    {
      assert fragments[0].startPos == 0 by {
        NodeAt(0);
        assert layout[..0] == [];
      }
      i := 0;
      while i + 1 < |fragments| && fragments[i + 1].startPos <= p
        invariant i < |fragments|
        invariant forall j :: 0 <= j <= i ==> fragments[j].startPos <= p
      {
        i := i + 1;
      }
      NodeAt(i);
      if i + 1 < |fragments| {
        NodeAt(i + 1);
      }
      StartPosNext(layout, i);
      StartPosEnd(layout);
      forall j | i < j < |fragments| ensures p < fragments[j].startPos {
        NodeAt(j);
        StartPosMono(layout, i + 1, j);
      }
      if p < size {
        FragmentOfUnique(layout, i, p);
      }
    }

    /**
     * `seek(Current(0))` only reports the position. Any other seek goes to
     * the fragment `Locate` finds and moves the backing cursor there.
     */
    method Seek(from: SeekFrom) returns (r: nat)
      requires Valid()
      requires from != Current(0) ==> 0 <= Target(from, Pos(), size) <= size
      modifies this`index, this`fragmentPos, inner`pos
      ensures Valid()
      ensures from == Current(0) ==>
        && r == old(Pos()) && index == old(index) && fragmentPos == old(fragmentPos)
        && inner.pos == old(inner.pos)
      ensures from != Current(0) ==>
        && r == Target(from, old(Pos()), size) && Pos() == r && !Eof()
        && fragmentPos == r - fragments[index].startPos
        && inner.pos == fragments[index].offset + fragmentPos
        && (forall j :: 0 <= j <= index ==> fragments[j].startPos <= r)
        && (forall j :: index < j < |fragments| ==> r < fragments[j].startPos)
        && (r < size ==> index == FragmentOf(layout, r))
    {
      if from == Current(0) {
        r := Pos();
        return;
      }
      var target: nat := Target(from, Pos(), size);
      var i := Locate(target);
      index := i;
      fragmentPos := target - fragments[i].startPos;
      r := InnerSeek();
    }

    /**
     * Fills `buf` from the logical stream, crossing fragment boundaries,
     * until it is full or the stream ends.
     */
    method Read(buf: array<Byte>) returns (n: nat)
      requires Valid() && CoveredBy(layout, |inner.data|)
      modifies this`index, this`fragmentPos, inner`pos, buf
      ensures Valid()
      ensures n == Min(buf.Length, size - old(Pos()))
      ensures Pos() == old(Pos()) + n
      ensures buf[..n] == View(inner.data, layout)[old(Pos())..old(Pos()) + n]
      ensures buf[n..] == old(buf[n..])
    {
      ghost var p0 := Pos();
      ghost var view := View(inner.data, layout);
      n := 0;
      while n < buf.Length && !Eof()
        invariant Valid() && n <= buf.Length && Pos() == p0 + n
        invariant forall j :: 0 <= j < n ==> buf[j] == view[p0 + j]
        invariant forall j :: n <= j < buf.Length ==> buf[j] == old(buf[j])
        decreases |fragments| - index, FragmentRemaining()
      {
        var readNow := ReadStep(buf, n, view);
        n := n + readNow;
      }
      assert buf[..n] == view[p0..p0 + n];
      assert buf[n..] == old(buf[n..]);
    }

    /**
     * One round of `Read`: as much of the current fragment as fits in
     * `buf[n..]`, then on to the next fragment if this one is used up.
     */
    method ReadStep(buf: array<Byte>, n: nat, ghost view: seq<Byte>) returns (readNow: nat)
      requires Valid() && !Eof() && n < buf.Length
      requires CoveredBy(layout, |inner.data|) && view == View(inner.data, layout)
      modifies this`index, this`fragmentPos, inner`pos, buf
      ensures Valid() && n + readNow <= buf.Length && Pos() == old(Pos()) + readNow
      ensures forall j :: n <= j < n + readNow ==> buf[j] == view[old(Pos()) + (j - n)]
      ensures forall j :: 0 <= j < buf.Length && !(n <= j < n + readNow) ==> buf[j] == old(buf[j])
      ensures index > old(index) || (index == old(index) && FragmentRemaining() < old(FragmentRemaining()))
    {
      var toRead := Min(FragmentRemaining(), buf.Length - n);
      readNow := ReadFragment(buf, n, toRead, view, Pos());
      Advance(readNow);
    }

    /** Reads `len` bytes of the current fragment into `buf[start..]`; the data holds all of them. */
    method ReadFragment(buf: array<Byte>, start: nat, len: nat, ghost view: seq<Byte>, ghost s: nat)
      returns (readNow: nat)
      requires Valid() && !Eof() && len <= FragmentRemaining() && start + len <= buf.Length
      requires CoveredBy(layout, |inner.data|) && view == View(inner.data, layout) && s == Pos()
      modifies inner`pos, buf
      ensures readNow == len && inner.pos == old(inner.pos) + len && s + len <= |view|
      ensures forall j :: start <= j < start + len ==> buf[j] == view[s + (j - start)]
      ensures forall j :: 0 <= j < buf.Length && !(start <= j < start + len) ==> buf[j] == old(buf[j])
    {
      assert inner.pos + len <= |inner.data| && s + len <= |view| by {
        NodeAt(index);
        ViewRun(inner.data, layout, index, fragmentPos, len);
      }
      assert forall k :: s <= k < s + len ==> view[k] == inner.data[inner.pos + (k - s)] by {
        NodeAt(index);
        ViewRun(inner.data, layout, index, fragmentPos, len);
      }
      readNow := ReadSlice(inner, buf, start, len, view, s);
    }

    /**
     * Moves the logical cursor `k` bytes on inside the current fragment, after
     * the backing cursor has moved with it, and steps to the next fragment if
     * this one is used up.
     */
    method Advance(k: nat)
      requires Wf() && !Eof() && k <= FragmentRemaining()
      requires inner.pos == fragments[index].offset + fragmentPos + k
      modifies this`index, this`fragmentPos, inner`pos
      ensures Valid() && Pos() == old(Pos()) + k
      ensures index > old(index) || (index == old(index) && FragmentRemaining() == old(FragmentRemaining()) - k)
      ensures index == old(index) ==> FragmentRemaining() > 0
    {
      fragmentPos := fragmentPos + k;
      if FragmentEof() {
        NextFragment();
      }
    }

    /**
     * Writes `bytes` to the logical stream, crossing fragment boundaries,
     * until all are written or the stream ends.
     */
    method Write(bytes: seq<Byte>) returns (n: nat)
      requires Valid()
      modifies this`index, this`fragmentPos, inner
      ensures Valid()
      ensures n == Min(|bytes|, size - old(Pos()))
      ensures Pos() == old(Pos()) + n
      ensures inner.data == Scatter(old(inner.data), layout, old(Pos()), bytes[..n])
    {
      ghost var p0 := Pos();
      ghost var d0 := inner.data;
      n := 0;
      assert bytes[..0] == [];
      while n < |bytes| && !Eof()
        invariant Valid() && n <= |bytes| && Pos() == p0 + n
        invariant inner.data == Scatter(d0, layout, p0, bytes[..n])
        decreases |fragments| - index, FragmentRemaining()
      {
        var writtenNow := WriteStep(bytes, n, d0, p0);
        n := n + writtenNow;
      }
    }

    /**
     * One round of `Write`: as much of `bytes[n..]` as fits in the current
     * fragment, then on to the next fragment if this one is used up.
     */
    method WriteStep(bytes: seq<Byte>, n: nat, ghost d0: seq<Byte>, ghost p0: nat) returns (writtenNow: nat)
      requires Valid() && !Eof() && n < |bytes| && Pos() == p0 + n
      requires inner.data == Scatter(d0, layout, p0, bytes[..n])
      modifies this`index, this`fragmentPos, inner
      ensures Valid() && n + writtenNow <= |bytes| && Pos() == old(Pos()) + writtenNow
      ensures inner.data == Scatter(d0, layout, p0, bytes[..n + writtenNow])
      ensures index > old(index) || (index == old(index) && FragmentRemaining() < old(FragmentRemaining()))
    {
      var toWrite := Min(FragmentRemaining(), |bytes| - n);
      writtenNow := WriteFragment(bytes, n, toWrite, d0, p0);
      Advance(writtenNow);
    }

    /** Writes `bytes[n..n + len]` into the current fragment, which has room for all of them. */
    method WriteFragment(bytes: seq<Byte>, n: nat, len: nat, ghost d0: seq<Byte>, ghost p0: nat)
      returns (writtenNow: nat)
      requires Valid() && !Eof() && n + len <= |bytes| && len <= FragmentRemaining() && Pos() == p0 + n
      requires inner.data == Scatter(d0, layout, p0, bytes[..n])
      modifies inner
      ensures writtenNow == len && inner.pos == old(inner.pos) + len
      ensures inner.data == Scatter(d0, layout, p0, bytes[..n + len])
    {
      var chunk := bytes[n..n + len];
      assert bytes[..n] + chunk == bytes[..n + len];
      NodeAt(index);
      ScatterExtend(d0, layout, index, p0, bytes[..n], chunk);
      writtenNow := inner.Write(chunk);
    }

    function Size(): (r: nat)
      reads this
      requires Wf()
      ensures r == Total(layout)
    {
      size
    }
  }

  /**
   * Reads `len` bytes from `inner` into `buf[start..]`, where those bytes are
   * known to be `view[s..s + len]`.
   */
  method ReadSlice(inner: Stream, buf: array<Byte>, start: nat, len: nat, ghost view: seq<Byte>, ghost s: nat)
    returns (n: nat)
    requires start + len <= buf.Length && inner.pos + len <= |inner.data| && s + len <= |view|
    requires forall k :: s <= k < s + len ==> view[k] == inner.data[inner.pos + (k - s)]
    modifies inner`pos, buf
    ensures n == len && inner.pos == old(inner.pos) + len
    ensures forall j :: start <= j < start + len ==> buf[j] == view[s + (j - start)]
    ensures forall j :: 0 <= j < buf.Length && !(start <= j < start + len) ==> buf[j] == old(buf[j])
  {
    ghost var at := inner.pos;
    n := inner.Read(buf, start, len);
    forall j | start <= j < start + len
      ensures buf[j] == view[s + (j - start)]
    {
      assert view[s + (j - start)] == inner.data[at + (j - start)];
    }
  }
}
