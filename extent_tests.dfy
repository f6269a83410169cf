/**
 * The worked example of the extent layer's unit test: three fragments of a
 * 31-byte buffer, joined into a 10-byte stream that is read and then
 * partly overwritten.
 */
module ExtentTests {
  import opened Bytes
  import opened IoStream
  import opened Layout
  import opened Extent

  /** Fragments `[0, 5)`, `[20, 22)` and `[10, 13)`, in that logical order. */
  function TestFragments(): (fs: seq<Fragment>)
    ensures |fs| == 3 && Total(fs) == 10 && CoveredBy(fs, 31) && Disjoint(fs)
    ensures StartPos(fs, 0) == 0 && StartPos(fs, 1) == 5 && StartPos(fs, 2) == 7
  {
    var fs := [Fragment(0, 5), Fragment(20, 2), Fragment(10, 3)];
    assert fs[1..] == [Fragment(20, 2), Fragment(10, 3)];
    assert fs[1..][1..] == [Fragment(10, 3)];
    assert fs[..0] == [] && fs[..1] == [Fragment(0, 5)] && fs[..2] == [Fragment(0, 5), Fragment(20, 2)];
    assert fs[..2][1..] == [Fragment(20, 2)];
    fs
  }

  /**
   * Reading 20 bytes yields the whole 10-byte stream in logical order; after
   * a seek to the start, a 12-byte write stores its first 10 bytes across
   * the three fragments, back to front.
   */
  method FragmentScenario() returns (read: nat, firstBytes: seq<Byte>, written: nat, result: seq<Byte>)
    ensures read == 10 && firstBytes == [0, 1, 2, 3, 4, 20, 21, 10, 11, 12]
    ensures written == 10 && |result| == 31
    ensures result[0..5] == [9, 8, 7, 6, 5]
    ensures result[20..22] == [4, 3]
    ensures result[10..13] == [2, 1, 0]
  {
    var data: seq<Byte> := seq(31, i requires 0 <= i < 31 => i);
    var fs := TestFragments();
    var cursor := new Stream(data);
    var r := FragmentFile.New(cursor, fs);
    var f := r.value;

    var buf := new Byte[20](_ => 0);
    read := f.Read(buf);
    firstBytes := buf[..read];
    ReadScenario(data, fs, firstBytes);

    var _ := f.Seek(Start(0));
    var bytes: seq<Byte> := [9, 8, 7, 6, 5, 4, 3, 2, 1, 0, 0, 0];
    written := f.Write(bytes);
    result := cursor.data;
    WriteScenario(data, fs, bytes[..10], result);
  }

  lemma ReadScenario(data: seq<Byte>, fs: seq<Fragment>, got: seq<Byte>)
    requires data == seq(31, i requires 0 <= i < 31 => i) && fs == TestFragments()
    requires got == View(data, fs)[0..10]
    ensures got == [0, 1, 2, 3, 4, 20, 21, 10, 11, 12]
  {
    ViewRun(data, fs, 0, 0, 5);
    ViewRun(data, fs, 1, 0, 2);
    ViewRun(data, fs, 2, 0, 3);
    forall k | 0 <= k < 10
      ensures got[k] == [0, 1, 2, 3, 4, 20, 21, 10, 11, 12][k]
    {
      assert got[k] == View(data, fs)[k];
    }
  }

  lemma WriteScenario(data: seq<Byte>, fs: seq<Fragment>, bytes: seq<Byte>, result: seq<Byte>)
    requires fs == TestFragments() && |data| == 31
    requires bytes == [9, 8, 7, 6, 5, 4, 3, 2, 1, 0]
    requires result == Scatter(data, fs, 0, bytes)
    ensures |result| == 31
    ensures result[0..5] == [9, 8, 7, 6, 5]
    ensures result[20..22] == [4, 3]
    ensures result[10..13] == [2, 1, 0]
  {
    ScatterLength(data, fs, 0, bytes);
    ScatterPlaces(data, fs, 0, bytes);
    forall k | 0 <= k < 5
      ensures result[k] == bytes[k]
    {
      PhysicalOffsetAt(fs, 0, k);
    }
    forall k | 20 <= k < 22
      ensures result[k] == bytes[k - 15]
    {
      PhysicalOffsetAt(fs, 1, k - 20);
    }
    forall k | 10 <= k < 13
      ensures result[k] == bytes[k - 3]
    {
      PhysicalOffsetAt(fs, 2, k - 10);
    }
  }
}
