/**
 * The pure part of the extent-addressed virtual file: fragments, the
 * cumulative logical start of each one, and the map from logical positions
 * of the joined stream to physical offsets of the backing medium.
 */
module Layout {
  import opened Wrappers
  import opened Bytes
  import opened IoStream
  import opened Metadata

  /** One physical byte range `[offset, offset + size)` of the backing medium. */
  datatype Fragment = Fragment(offset: nat, size: nat)

  /** A fragment together with its logical start in the joined stream. */
  datatype FragmentNode = FragmentNode(offset: nat, size: nat, startPos: nat)

  /** The byte range of the blocks of extent `e`: it spans exactly the bytes of those blocks. */
  function FromExtent(e: Extent, blockSize: nat): (f: Fragment)
    ensures f.offset == blockSize * e.startBlock
    ensures f.offset + f.size == blockSize * (e.startBlock + e.numBlocks)
  {
    Fragment(blockSize * e.startBlock, blockSize * e.numBlocks)
  }

  function FromExtents(es: seq<Extent>, blockSize: nat): (fs: seq<Fragment>)
    ensures |fs| == |es|
    ensures forall i :: 0 <= i < |es| ==> fs[i] == FromExtent(es[i], blockSize)
  {
    seq(|es|, i requires 0 <= i < |es| => FromExtent(es[i], blockSize))
  }

  /** The number of blocks the extents name, counted with repetition. */
  function Blocks(es: seq<Extent>): nat {
    if |es| == 0 then 0 else es[0].numBlocks + Blocks(es[1..])
  }

  /** The sum of the fragment sizes: the size of the joined stream. */
  function Total(fs: seq<Fragment>): nat {
    if |fs| == 0 then 0 else fs[0].size + Total(fs[1..])
  }

  /** The logical position at which fragment `i` begins. */
  function StartPos(fs: seq<Fragment>, i: nat): nat
    requires i <= |fs|
  {
    Total(fs[..i])
  }

  /** The capacity of a destination built from extents is a whole number of blocks. */
  lemma {:induction false} CapacityIsBlocks(es: seq<Extent>, blockSize: nat)
    ensures Total(FromExtents(es, blockSize)) == blockSize * Blocks(es)
  {
    if |es| > 0 {
      var fs := FromExtents(es, blockSize);
      assert fs[1..] == FromExtents(es[1..], blockSize);
      CapacityIsBlocks(es[1..], blockSize);
      calc {
        Total(fs);
        blockSize * es[0].numBlocks + blockSize * Blocks(es[1..]);
        blockSize * (es[0].numBlocks + Blocks(es[1..]));
      }
    }
  }

  lemma {:induction false} TotalAppend(a: seq<Fragment>, b: seq<Fragment>)
    ensures Total(a + b) == Total(a) + Total(b)
  {
    if |a| == 0 {
      assert a + b == b;
    } else {
      assert (a + b)[1..] == a[1..] + b;
      TotalAppend(a[1..], b);
    }
  }

  lemma StartPosNext(fs: seq<Fragment>, i: nat)
    requires i < |fs|
    ensures StartPos(fs, i + 1) == StartPos(fs, i) + fs[i].size
  {
    assert fs[..i + 1] == fs[..i] + [fs[i]];
    TotalAppend(fs[..i], [fs[i]]);
  }

  /** Logical starts are non-decreasing. */
  lemma StartPosMono(fs: seq<Fragment>, i: nat, j: nat)
    requires i <= j <= |fs|
    ensures StartPos(fs, i) <= StartPos(fs, j)
  {
    assert fs[..j] == fs[..i] + fs[i..j];
    TotalAppend(fs[..i], fs[i..j]);
  }

  lemma StartPosEnd(fs: seq<Fragment>)
    ensures StartPos(fs, |fs|) == Total(fs)
  {
    assert fs[..|fs|] == fs;
  }

  lemma StartPosCons(fs: seq<Fragment>, i: nat)
    requires 0 < i <= |fs|
    ensures StartPos(fs, i) == fs[0].size + StartPos(fs[1..], i - 1)
  {
    assert fs[..i][1..] == fs[1..][..i - 1];
  }

  /** Every fragment ends inside the logical space. */
  lemma FragmentEndBound(fs: seq<Fragment>, i: nat)
    requires i < |fs|
    ensures StartPos(fs, i) + fs[i].size <= Total(fs)
  {
    StartPosNext(fs, i);
    StartPosMono(fs, i + 1, |fs|);
    StartPosEnd(fs);
  }

  /**
   * The construction-time scan: node `i` keeps fragment `i`'s range and
   * records `acc` plus the sizes of all fragments before it.
   */
  function Scan(fs: seq<Fragment>, acc: nat): (ns: seq<FragmentNode>)
    ensures |ns| == |fs|
  {
    if |fs| == 0 then []
    else [FragmentNode(fs[0].offset, fs[0].size, acc)] + Scan(fs[1..], acc + fs[0].size)
  }

  /** Node `i` of the scan keeps fragment `i`'s range and starts where fragment `i` starts, shifted by `acc`. */
  lemma {:induction false} ScanAt(fs: seq<Fragment>, acc: nat, i: nat)
    requires i < |fs|
    ensures Scan(fs, acc)[i] == FragmentNode(fs[i].offset, fs[i].size, acc + StartPos(fs, i))
  {
    if i == 0 {
      assert fs[..0] == [];
    } else {
      ScanAt(fs[1..], acc + fs[0].size, i - 1);
      StartPosCons(fs, i);
      assert fs[1..][i - 1] == fs[i];
    }
  }

  /** The fragment that holds logical position `k`. */
  function FragmentOf(fs: seq<Fragment>, k: nat): (i: nat)
    requires k < Total(fs)
    ensures i < |fs| && StartPos(fs, i) <= k < StartPos(fs, i) + fs[i].size
  {
    if k < fs[0].size then 0
    else
      var j := FragmentOf(fs[1..], k - fs[0].size);
      StartPosCons(fs, j + 1);
      j + 1
  }

  /** Exactly one fragment holds each logical position. */
  lemma FragmentOfUnique(fs: seq<Fragment>, i: nat, k: nat)
    requires i < |fs| && StartPos(fs, i) <= k < StartPos(fs, i) + fs[i].size
    ensures k < Total(fs) && FragmentOf(fs, k) == i
  {
    FragmentEndBound(fs, i);
    var j := FragmentOf(fs, k);
    if j < i {
      StartPosNext(fs, j);
      StartPosMono(fs, j + 1, i);
    } else if i < j {
      StartPosNext(fs, i);
      StartPosMono(fs, i + 1, j);
    }
  }

  /** Where logical byte `k` lives in the backing medium. */
  function PhysicalOffset(fs: seq<Fragment>, k: nat): nat
    requires k < Total(fs)
  {
    if k < fs[0].size then fs[0].offset + k
    else PhysicalOffset(fs[1..], k - fs[0].size)
  }

  /** Byte `j` of fragment `i` is logical byte `StartPos(fs, i) + j`. */
  lemma {:induction false} PhysicalOffsetAt(fs: seq<Fragment>, i: nat, j: nat)
    requires i < |fs| && j < fs[i].size
    ensures StartPos(fs, i) + j < Total(fs)
    ensures PhysicalOffset(fs, StartPos(fs, i) + j) == fs[i].offset + j
  {
    FragmentEndBound(fs, i);
    if i == 0 {
      assert fs[..0] == [];
    } else {
      StartPosCons(fs, i);
      assert fs[1..][i - 1] == fs[i];
      PhysicalOffsetAt(fs[1..], i - 1, j);
    }
  }

  /** Logical byte `k` lives in the fragment `FragmentOf` finds, as far into it as `k` is past its start. */
  lemma PhysicalOffsetOf(fs: seq<Fragment>, k: nat)
    requires k < Total(fs)
    ensures PhysicalOffset(fs, k) == fs[FragmentOf(fs, k)].offset + (k - StartPos(fs, FragmentOf(fs, k)))
  {
    var i := FragmentOf(fs, k);
    PhysicalOffsetAt(fs, i, k - StartPos(fs, i));
  }

  /** A backing medium of `len` bytes holds every fragment. */
  predicate CoveredBy(fs: seq<Fragment>, len: nat) {
    forall i :: 0 <= i < |fs| ==> fs[i].offset + fs[i].size <= len
  }

  /** Non-empty fragments do not share physical bytes. */
  predicate Disjoint(fs: seq<Fragment>) {
    forall i, j :: 0 <= i < j < |fs| && fs[i].size > 0 && fs[j].size > 0 ==>
      fs[i].offset + fs[i].size <= fs[j].offset || fs[j].offset + fs[j].size <= fs[i].offset
  }

  lemma CoveredByTail(fs: seq<Fragment>, len: nat)
    requires |fs| > 0 && CoveredBy(fs, len)
    ensures CoveredBy(fs[1..], len)
  {
    forall i | 0 <= i < |fs| - 1 ensures fs[1..][i].offset + fs[1..][i].size <= len {
      assert fs[1..][i] == fs[i + 1];
    }
  }

  lemma DisjointTail(fs: seq<Fragment>)
    requires |fs| > 0 && Disjoint(fs)
    ensures Disjoint(fs[1..])
  {
    var rest := fs[1..];
    forall i, j | 0 <= i < j < |rest| && rest[i].size > 0 && rest[j].size > 0
      ensures rest[i].offset + rest[i].size <= rest[j].offset || rest[j].offset + rest[j].size <= rest[i].offset
    {
      assert rest[i] == fs[i + 1] && rest[j] == fs[j + 1];
    }
  }

  /** Every logical byte of fragments that a medium holds lies inside the medium. */
  lemma PhysicalOffsetCovered(fs: seq<Fragment>, len: nat, k: nat)
    requires CoveredBy(fs, len) && k < Total(fs)
    ensures PhysicalOffset(fs, k) < len
  {
    PhysicalOffsetOf(fs, k);
  }

  /**
   * The joined stream that the fragments of `d` present: logical byte `k` is
   * the medium's byte at the physical offset `k` maps to.
   */
  function View(d: seq<Byte>, fs: seq<Fragment>): (v: seq<Byte>)
    requires CoveredBy(fs, |d|)
    ensures |v| == Total(fs)
  {
    seq(Total(fs), k requires 0 <= k < Total(fs) =>
      PhysicalOffsetCovered(fs, |d|, k); d[PhysicalOffset(fs, k)])
  }

  /** Logical byte `k` of the joined stream is the physical byte it maps to. */
  lemma ViewAt(d: seq<Byte>, fs: seq<Fragment>, k: nat)
    requires CoveredBy(fs, |d|) && k < Total(fs)
    ensures PhysicalOffset(fs, k) < |d| && View(d, fs)[k] == d[PhysicalOffset(fs, k)]
  {
    PhysicalOffsetCovered(fs, |d|, k);
  }

  /** Each logical byte of a run inside fragment `i` is the physical byte as far into the fragment. */
  lemma ViewRun(d: seq<Byte>, fs: seq<Fragment>, i: nat, q: nat, len: nat)
    requires CoveredBy(fs, |d|) && i < |fs| && q + len <= fs[i].size
    ensures StartPos(fs, i) + q + len <= Total(fs) && fs[i].offset + q + len <= |d|
    ensures forall k :: StartPos(fs, i) + q <= k < StartPos(fs, i) + q + len ==>
      View(d, fs)[k] == d[fs[i].offset + q + (k - (StartPos(fs, i) + q))]
  {
    RunOffsets(fs, i, q, len);
    var x := StartPos(fs, i) + q;
    forall k | x <= k < x + len
      ensures View(d, fs)[k] == d[fs[i].offset + q + (k - x)]
    {
      ViewAt(d, fs, k);
    }
  }

  /** The logical bytes of a run inside fragment `i` map to consecutive physical offsets. */
  lemma RunOffsets(fs: seq<Fragment>, i: nat, q: nat, len: nat)
    requires i < |fs| && q + len <= fs[i].size
    ensures StartPos(fs, i) + q + len <= Total(fs)
    ensures forall k :: StartPos(fs, i) + q <= k < StartPos(fs, i) + q + len ==>
      PhysicalOffset(fs, k) == fs[i].offset + q + (k - (StartPos(fs, i) + q))
  {
    FragmentEndBound(fs, i);
    var x := StartPos(fs, i) + q;
    forall k | x <= k < x + len
      ensures PhysicalOffset(fs, k) == fs[i].offset + q + (k - x)
    {
      PhysicalOffsetAt(fs, i, q + (k - x));
    }
  }

  /**
   * The backing medium `d` after `bytes` are written from logical position
   * `p` on: one physical write into each fragment the logical range crosses,
   * of as many bytes as the fragment has room for.
   */
  function Scatter(d: seq<Byte>, fs: seq<Fragment>, p: nat, bytes: seq<Byte>): seq<Byte>
    requires p + |bytes| <= Total(fs)
    decreases |fs|
  {
    if |bytes| == 0 then d
    else if fs[0].size <= p then Scatter(d, fs[1..], p - fs[0].size, bytes)
    else
      var n := Min(|bytes|, fs[0].size - p);
      Scatter(Overwrite(d, fs[0].offset + p, bytes[..n]), fs[1..], 0, bytes[n..])
  }

  /** Some byte of the logical range `[p, p + n)` maps to physical offset `a`. */
  ghost predicate Touched(fs: seq<Fragment>, p: nat, n: nat, a: nat)
    requires p + n <= Total(fs)
  {
    exists k :: p <= k < p + n && PhysicalOffset(fs, k) == a
  }

  /** Physical offset `a` lies inside some fragment. */
  ghost predicate InFragments(fs: seq<Fragment>, a: nat) {
    exists i :: 0 <= i < |fs| && fs[i].offset <= a < fs[i].offset + fs[i].size
  }

  /** Every logical byte maps into the fragment that holds it. */
  lemma PhysicalOffsetInFragments(fs: seq<Fragment>, k: nat)
    requires k < Total(fs)
    ensures InFragments(fs, PhysicalOffset(fs, k))
  {
    PhysicalOffsetOf(fs, k);
    var i := FragmentOf(fs, k);
    assert fs[i].offset <= PhysicalOffset(fs, k) < fs[i].offset + fs[i].size;
  }

  /** With disjoint fragments, different logical bytes live at different physical offsets. */
  lemma PhysicalOffsetInjective(fs: seq<Fragment>, k1: nat, k2: nat)
    requires Disjoint(fs) && k1 < Total(fs) && k2 < Total(fs) && k1 != k2
    ensures PhysicalOffset(fs, k1) != PhysicalOffset(fs, k2)
  {
    PhysicalOffsetOf(fs, k1);
    PhysicalOffsetOf(fs, k2);
    var i1, i2 := FragmentOf(fs, k1), FragmentOf(fs, k2);
    if i1 < i2 {
      assert fs[i1].offset + fs[i1].size <= fs[i2].offset || fs[i2].offset + fs[i2].size <= fs[i1].offset;
    } else if i2 < i1 {
      assert fs[i2].offset + fs[i2].size <= fs[i1].offset || fs[i1].offset + fs[i1].size <= fs[i2].offset;
    }
  }

  /** The first fragment's chunk of a write lands at the fragment's offset plus the logical position. */
  lemma TouchedHead(fs: seq<Fragment>, p: nat, n: nat, k: nat)
    requires |fs| > 0 && p <= k < p + n && k < fs[0].size && p + n <= Total(fs)
    ensures Touched(fs, p, n, fs[0].offset + k)
  {
    assert PhysicalOffset(fs, k) == fs[0].offset + k;
  }

  /** What the rest of the fragments receive, from the start of the second one, the whole list receives. */
  lemma TouchedTail(fs: seq<Fragment>, p: nat, n: nat, m: nat, a: nat)
    requires |fs| > 0 && p + m == fs[0].size && m <= n && p + n <= Total(fs)
    requires Touched(fs[1..], 0, n - m, a)
    ensures Touched(fs, p, n, a)
  {
    var k :| 0 <= k < n - m && PhysicalOffset(fs[1..], k) == a;
    assert PhysicalOffset(fs, fs[0].size + k) == a;
  }

  /** A write that starts past the first fragment is a write to the rest, moved back by its size. */
  lemma TouchedSkip(fs: seq<Fragment>, p: nat, n: nat, a: nat)
    requires |fs| > 0 && fs[0].size <= p && p + n <= Total(fs)
    requires Touched(fs[1..], p - fs[0].size, n, a)
    ensures Touched(fs, p, n, a)
  {
    var k :| p - fs[0].size <= k < p - fs[0].size + n && PhysicalOffset(fs[1..], k) == a;
    assert PhysicalOffset(fs, fs[0].size + k) == a;
  }

  /** Writing `a` and then `b` is writing `a + b`. */
  lemma {:induction false} ScatterAppend(d: seq<Byte>, fs: seq<Fragment>, p: nat, a: seq<Byte>, b: seq<Byte>)
    requires p + |a| + |b| <= Total(fs)
    ensures Scatter(d, fs, p, a + b) == Scatter(Scatter(d, fs, p, a), fs, p + |a|, b)
    decreases |fs|, 1
  {
    if |a| == 0 {
      assert a + b == b;
    } else if fs[0].size <= p {
      ScatterAppendPast(d, fs, p, a, b);
    } else if |a| > fs[0].size - p {
      ScatterAppendAcross(d, fs, p, a, b);
    } else {
      ScatterAppendInFirst(d, fs, p, a, b);
    }
  }

  /** `ScatterAppend` when the write starts past the first fragment. */
  lemma ScatterAppendPast(d: seq<Byte>, fs: seq<Fragment>, p: nat, a: seq<Byte>, b: seq<Byte>)
    requires |fs| > 0 && 0 < |a| && fs[0].size <= p && p + |a| + |b| <= Total(fs)
    ensures Scatter(d, fs, p, a + b) == Scatter(Scatter(d, fs, p, a), fs, p + |a|, b)
    decreases |fs|, 0
  {
    var q := p - fs[0].size;
    var x := Scatter(d, fs, p, a);
    assert x == Scatter(d, fs[1..], q, a);
    assert Scatter(x, fs, p + |a|, b) == Scatter(x, fs[1..], q + |a|, b);
    ScatterAppend(d, fs[1..], q, a, b);
  }

  /** `ScatterAppend` when `a` runs past the end of the first fragment. */
  lemma ScatterAppendAcross(d: seq<Byte>, fs: seq<Fragment>, p: nat, a: seq<Byte>, b: seq<Byte>)
    requires |fs| > 0 && p < fs[0].size < p + |a| && p + |a| + |b| <= Total(fs)
    ensures Scatter(d, fs, p, a + b) == Scatter(Scatter(d, fs, p, a), fs, p + |a|, b)
    decreases |fs|, 0
  {
    var n := fs[0].size - p;
    assert (a + b)[..n] == a[..n] && (a + b)[n..] == a[n..] + b;
    var d1 := Overwrite(d, fs[0].offset + p, a[..n]);
    var x := Scatter(d, fs, p, a);
    assert x == Scatter(d1, fs[1..], 0, a[n..]);
    assert Scatter(x, fs, p + |a|, b) == Scatter(x, fs[1..], |a[n..]|, b);
    ScatterAppend(d1, fs[1..], 0, a[n..], b);
  }

  /** `ScatterAppend` when `a` fits in the first fragment. */
  lemma ScatterAppendInFirst(d: seq<Byte>, fs: seq<Fragment>, p: nat, a: seq<Byte>, b: seq<Byte>)
    requires |fs| > 0 && 0 < |a| && p + |a| <= fs[0].size && p + |a| + |b| <= Total(fs)
    ensures Scatter(d, fs, p, a + b) == Scatter(Scatter(d, fs, p, a), fs, p + |a|, b)
  {
    var at := fs[0].offset + p;
    assert a[..|a|] == a && a[|a|..] == [];
    assert Scatter(d, fs, p, a) == Overwrite(d, at, a);
    if |b| == 0 {
      assert a + b == a;
    } else if p + |a| == fs[0].size {
      assert (a + b)[..|a|] == a && (a + b)[|a|..] == b;
    } else {
      var m := Min(|b|, fs[0].size - p - |a|);
      assert (a + b)[..|a| + m] == a + b[..m] && (a + b)[|a| + m..] == b[m..];
      OverwriteSplit(d, at, a, b[..m]);
    }
  }

  /** Writing the prefix `bytes[..i]` and then `bytes[i..j]` is writing `bytes[..j]`. */
  lemma ScatterPrefixes(d: seq<Byte>, fs: seq<Fragment>, p: nat, bytes: seq<Byte>, i: nat, j: nat)
    requires i <= j <= |bytes| && p + j <= Total(fs)
    ensures Scatter(Scatter(d, fs, p, bytes[..i]), fs, p + i, bytes[i..j]) == Scatter(d, fs, p, bytes[..j])
  {
    assert bytes[..i] + bytes[i..j] == bytes[..j];
    ScatterAppend(d, fs, p, bytes[..i], bytes[i..j]);
  }

  /** A write that stays inside fragment `i` is one physical write at the matching offset. */
  lemma {:induction false} ScatterChunk(d: seq<Byte>, fs: seq<Fragment>, i: nat, p: nat, c: seq<Byte>)
    requires i < |fs| && StartPos(fs, i) <= p && p + |c| <= StartPos(fs, i) + fs[i].size
    ensures p + |c| <= Total(fs)
    ensures Scatter(d, fs, p, c) == Overwrite(d, fs[i].offset + (p - StartPos(fs, i)), c)
  {
    FragmentEndBound(fs, i);
    if |c| == 0 {
    } else if i == 0 {
      assert fs[..0] == [];
      assert c[..|c|] == c;
    } else {
      StartPosCons(fs, i);
      assert fs[1..][i - 1] == fs[i];
      ScatterChunk(d, fs[1..], i - 1, p - fs[0].size, c);
    }
  }

  /** Extending a write by a chunk that stays in fragment `i` adds one physical write. */
  lemma ScatterExtend(d: seq<Byte>, fs: seq<Fragment>, i: nat, p: nat, done: seq<Byte>, c: seq<Byte>)
    requires i < |fs| && StartPos(fs, i) <= p + |done| && p + |done| + |c| <= StartPos(fs, i) + fs[i].size
    ensures p + |done| + |c| <= Total(fs)
    ensures Scatter(d, fs, p, done + c)
         == Overwrite(Scatter(d, fs, p, done), fs[i].offset + (p + |done| - StartPos(fs, i)), c)
  {
    FragmentEndBound(fs, i);
    ScatterAppend(d, fs, p, done, c);
    ScatterChunk(Scatter(d, fs, p, done), fs, i, p + |done|, c);
  }

  /** A write through fragments that the medium already holds does not grow it. */
  lemma {:induction false} ScatterLength(d: seq<Byte>, fs: seq<Fragment>, p: nat, bytes: seq<Byte>)
    requires CoveredBy(fs, |d|) && p + |bytes| <= Total(fs)
    ensures |Scatter(d, fs, p, bytes)| == |d|
    decreases |fs|
  {
    if |bytes| > 0 {
      CoveredByTail(fs, |d|);
      if fs[0].size <= p {
        ScatterLength(d, fs[1..], p - fs[0].size, bytes);
      } else {
        var n := Min(|bytes|, fs[0].size - p);
        var d1 := Overwrite(d, fs[0].offset + p, bytes[..n]);
        ScatterLength(d1, fs[1..], 0, bytes[n..]);
      }
    }
  }

  /**
   * A write changes only the physical bytes its logical range maps to; the
   * file grows as needed, and a byte of the growth that nothing was written to
   * is zero.
   */
  lemma {:induction false} ScatterFrame(d: seq<Byte>, fs: seq<Fragment>, p: nat, bytes: seq<Byte>)
    requires p + |bytes| <= Total(fs)
    ensures |Scatter(d, fs, p, bytes)| >= |d|
    ensures forall a :: 0 <= a < |Scatter(d, fs, p, bytes)| && !Touched(fs, p, |bytes|, a) ==>
      Scatter(d, fs, p, bytes)[a] == if a < |d| then d[a] else 0
    decreases |fs|
  {
    if |bytes| == 0 {
    } else if fs[0].size <= p {
      ScatterFrame(d, fs[1..], p - fs[0].size, bytes);
      forall a | Touched(fs[1..], p - fs[0].size, |bytes|, a) ensures Touched(fs, p, |bytes|, a) {
        TouchedSkip(fs, p, |bytes|, a);
      }
    } else {
      var n := Min(|bytes|, fs[0].size - p);
      var at := fs[0].offset + p;
      var d1 := Overwrite(d, at, bytes[..n]);
      var r := Scatter(d1, fs[1..], 0, bytes[n..]);
      ScatterFrame(d1, fs[1..], 0, bytes[n..]);
      forall a | 0 <= a < |r| && !Touched(fs, p, |bytes|, a)
        ensures r[a] == if a < |d| then d[a] else 0
      {
        if at <= a < at + n {
          TouchedHead(fs, p, |bytes|, a - fs[0].offset);
        }
        if n < |bytes| && Touched(fs[1..], 0, |bytes| - n, a) {
          TouchedTail(fs, p, |bytes|, n, a);
        }
        if a < |d1| {
          OverwriteAt(d, at, bytes[..n], a);
        }
      }
    }
  }

  /** A write grows the medium only as far as the last physical byte it writes. */
  lemma {:induction false} ScatterEnd(d: seq<Byte>, fs: seq<Fragment>, p: nat, bytes: seq<Byte>)
    requires p + |bytes| <= Total(fs)
    ensures |Scatter(d, fs, p, bytes)| > |d| ==> Touched(fs, p, |bytes|, |Scatter(d, fs, p, bytes)| - 1)
    decreases |fs|
  {
    var r := Scatter(d, fs, p, bytes);
    if |bytes| == 0 {
    } else if fs[0].size <= p {
      ScatterEnd(d, fs[1..], p - fs[0].size, bytes);
      if |r| > |d| {
        TouchedSkip(fs, p, |bytes|, |r| - 1);
      }
    } else {
      var n := Min(|bytes|, fs[0].size - p);
      var d1 := Overwrite(d, fs[0].offset + p, bytes[..n]);
      ScatterEnd(d1, fs[1..], 0, bytes[n..]);
      if |r| > |d1| {
        TouchedTail(fs, p, |bytes|, n, |r| - 1);
      } else if |r| > |d| {
        ScatterFrame(d1, fs[1..], 0, bytes[n..]);
        TouchedHead(fs, p, |bytes|, p + n - 1);
      }
    }
  }

  /** A write through fragments that the medium holds changes no byte outside the fragments. */
  lemma ScatterOutside(d: seq<Byte>, fs: seq<Fragment>, p: nat, bytes: seq<Byte>)
    requires CoveredBy(fs, |d|) && p + |bytes| <= Total(fs)
    ensures |Scatter(d, fs, p, bytes)| == |d|
    ensures forall a :: 0 <= a < |d| && !InFragments(fs, a) ==> Scatter(d, fs, p, bytes)[a] == d[a]
  {
    ScatterLength(d, fs, p, bytes);
    ScatterFrame(d, fs, p, bytes);
    forall a | 0 <= a < |d| && !InFragments(fs, a)
      ensures !Touched(fs, p, |bytes|, a)
    {
      if Touched(fs, p, |bytes|, a) {
        var k :| p <= k < p + |bytes| && PhysicalOffset(fs, k) == a;
        PhysicalOffsetInFragments(fs, k);
      }
    }
  }

  /** With disjoint fragments, logical byte `k` of the write lands at its physical offset. */
  lemma {:induction false} ScatterPlaces(d: seq<Byte>, fs: seq<Fragment>, p: nat, bytes: seq<Byte>)
    requires p + |bytes| <= Total(fs) && Disjoint(fs)
    ensures forall k :: p <= k < p + |bytes| ==>
      PhysicalOffset(fs, k) < |Scatter(d, fs, p, bytes)|
      && Scatter(d, fs, p, bytes)[PhysicalOffset(fs, k)] == bytes[k - p]
    decreases |fs|
  {
    if |bytes| == 0 {
    } else if fs[0].size <= p {
      DisjointTail(fs);
      ScatterPlaces(d, fs[1..], p - fs[0].size, bytes);
    } else {
      var n := Min(|bytes|, fs[0].size - p);
      var d1 := Overwrite(d, fs[0].offset + p, bytes[..n]);
      DisjointTail(fs);
      ScatterPlaces(d1, fs[1..], 0, bytes[n..]);
      forall k | p <= k < p + n
        ensures PhysicalOffset(fs, k) < |Scatter(d, fs, p, bytes)|
        ensures Scatter(d, fs, p, bytes)[PhysicalOffset(fs, k)] == bytes[k - p]
      {
        ScatterFirstChunk(d, fs, p, bytes, k);
      }
      forall k | p + n <= k < p + |bytes|
        ensures PhysicalOffset(fs, k) < |Scatter(d, fs, p, bytes)|
        ensures Scatter(d, fs, p, bytes)[PhysicalOffset(fs, k)] == bytes[k - p]
      {
        assert bytes[n..][k - fs[0].size] == bytes[k - p];
      }
    }
  }

  /** With disjoint fragments, the first fragment's chunk of a write survives the rest of it. */
  lemma ScatterFirstChunk(d: seq<Byte>, fs: seq<Fragment>, p: nat, bytes: seq<Byte>, k: nat)
    requires p + |bytes| <= Total(fs) && Disjoint(fs) && p <= k < p + |bytes| && k < fs[0].size
    ensures PhysicalOffset(fs, k) < |Scatter(d, fs, p, bytes)|
    ensures Scatter(d, fs, p, bytes)[PhysicalOffset(fs, k)] == bytes[k - p]
  {
    var n := Min(|bytes|, fs[0].size - p);
    var at := fs[0].offset + p;
    var d1 := Overwrite(d, at, bytes[..n]);
    var q := fs[0].offset + k;
    assert PhysicalOffset(fs, k) == q;
    assert Scatter(d, fs, p, bytes) == Scatter(d1, fs[1..], 0, bytes[n..]);
    ScatterFrame(d1, fs[1..], 0, bytes[n..]);
    TailMissesHead(fs, |bytes| - n, k);
    OverwriteAt(d, at, bytes[..n], q);
  }

  /** With disjoint fragments, no write to the rest of the list reaches a byte of the first fragment. */
  lemma TailMissesHead(fs: seq<Fragment>, m: nat, k: nat)
    requires |fs| > 0 && Disjoint(fs) && k < fs[0].size && m <= Total(fs[1..])
    ensures !Touched(fs[1..], 0, m, fs[0].offset + k)
  {
    if Touched(fs[1..], 0, m, fs[0].offset + k) {
      var k' :| 0 <= k' < m && PhysicalOffset(fs[1..], k') == fs[0].offset + k;
      assert PhysicalOffset(fs, fs[0].size + k') == fs[0].offset + k;
      PhysicalOffsetInjective(fs, k, fs[0].size + k');
    }
  }

  /**
   * Round trip: with disjoint fragments over a medium that holds them, the
   * joined stream read back after a write shows the written bytes in the
   * written range and is unchanged elsewhere.
   */
  lemma ScatterThenView(d: seq<Byte>, fs: seq<Fragment>, p: nat, bytes: seq<Byte>)
    requires CoveredBy(fs, |d|) && Disjoint(fs) && p + |bytes| <= Total(fs)
    ensures CoveredBy(fs, |Scatter(d, fs, p, bytes)|)
    ensures View(Scatter(d, fs, p, bytes), fs)[p..p + |bytes|] == bytes
    ensures forall k :: 0 <= k < Total(fs) && !(p <= k < p + |bytes|) ==>
      View(Scatter(d, fs, p, bytes), fs)[k] == View(d, fs)[k]
  {
    var r := Scatter(d, fs, p, bytes);
    ScatterFrame(d, fs, p, bytes);
    ScatterPlaces(d, fs, p, bytes);
    forall k | p <= k < p + |bytes| ensures View(r, fs)[k] == bytes[k - p] {
      ViewAt(r, fs, k);
    }
    forall k | 0 <= k < Total(fs) && !(p <= k < p + |bytes|) ensures View(r, fs)[k] == View(d, fs)[k] {
      ViewAt(r, fs, k);
      ViewAt(d, fs, k);
      forall k' | p <= k' < p + |bytes| ensures PhysicalOffset(fs, k') != PhysicalOffset(fs, k) {
        PhysicalOffsetInjective(fs, k', k);
      }
    }
  }

  /**
   * A write that fills the whole logical stream of disjoint fragments over a
   * medium that holds them: the medium keeps its length, the joined stream
   * reads back as exactly the written bytes, and no byte outside the
   * fragments changes.
   */
  lemma ScatterFill(d: seq<Byte>, fs: seq<Fragment>, bytes: seq<Byte>)
    requires CoveredBy(fs, |d|) && Disjoint(fs) && |bytes| == Total(fs)
    ensures |Scatter(d, fs, 0, bytes)| == |d|
    ensures CoveredBy(fs, |Scatter(d, fs, 0, bytes)|) && View(Scatter(d, fs, 0, bytes), fs) == bytes
    ensures forall a :: 0 <= a < |d| && !InFragments(fs, a) ==> Scatter(d, fs, 0, bytes)[a] == d[a]
  {
    ScatterOutside(d, fs, 0, bytes);
    ScatterThenView(d, fs, 0, bytes);
    var v := View(Scatter(d, fs, 0, bytes), fs);
    assert v == v[0..|bytes|];
  }

  /**
   * `image` is `d` after `bytes` were written over the whole joined stream of
   * `fs`: logical byte k sits at its physical offset, and every other byte is
   * the old one, or zero where the medium grew. The medium grows no further
   * than the last physical byte written.
   */
  ghost predicate StoredOver(d: seq<Byte>, image: seq<Byte>, fs: seq<Fragment>, bytes: seq<Byte>)
    requires |bytes| == Total(fs)
  {
    && |image| >= |d|
    && (|image| > |d| ==> exists k :: 0 <= k < |bytes| && PhysicalOffset(fs, k) == |image| - 1)
    && (forall k :: 0 <= k < |bytes| ==>
          PhysicalOffset(fs, k) < |image| && image[PhysicalOffset(fs, k)] == bytes[k])
    && (forall a :: 0 <= a < |image| && !InFragments(fs, a) ==> image[a] == if a < |d| then d[a] else 0)
  }

  /**
   * A write that fills the whole logical stream of disjoint fragments, on any
   * medium (it may be shorter than the fragments, and then grows): each byte
   * lands at its physical offset, nothing outside the fragments changes, and
   * the medium grows exactly as far as the last physical byte written.
   */
  lemma ScatterWhole(d: seq<Byte>, fs: seq<Fragment>, bytes: seq<Byte>)
    requires Disjoint(fs) && |bytes| == Total(fs)
    ensures StoredOver(d, Scatter(d, fs, 0, bytes), fs, bytes)
  {
    var r := Scatter(d, fs, 0, bytes);
    ScatterPlaces(d, fs, 0, bytes);
    ScatterFrame(d, fs, 0, bytes);
    ScatterEnd(d, fs, 0, bytes);
    forall k | 0 <= k < |bytes| ensures PhysicalOffset(fs, k) < |r| && r[PhysicalOffset(fs, k)] == bytes[k] {
      assert bytes[k - 0] == bytes[k];
    }
    forall a | 0 <= a < |r| && !InFragments(fs, a) ensures !Touched(fs, 0, |bytes|, a) {
      if Touched(fs, 0, |bytes|, a) {
        var k :| 0 <= k < |bytes| && PhysicalOffset(fs, k) == a;
        PhysicalOffsetInFragments(fs, k);
      }
    }
  }

  /** A medium that holds every fragment and stores `bytes` over them reads back as `bytes`. */
  lemma StoredView(d: seq<Byte>, image: seq<Byte>, fs: seq<Fragment>, bytes: seq<Byte>)
    requires |bytes| == Total(fs) && StoredOver(d, image, fs, bytes) && CoveredBy(fs, |image|)
    ensures View(image, fs) == bytes
  {
    forall k | 0 <= k < |bytes| ensures View(image, fs)[k] == bytes[k] {
      ViewAt(image, fs, k);
    }
  }
}
