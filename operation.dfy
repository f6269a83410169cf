/**
 * Applying one install operation of a partition: the source is a window of
 * the payload's blob area, the destination is the partition image seen
 * through the operation's destination extents.
 */
module Operation {
  import opened Wrappers
  import opened Bytes
  import opened IoStream
  import opened Metadata
  import opened Layout
  import opened Extent

  /**
   * The ways an operation can end without success. `DataLengthMismatch`,
   * `CapacityMismatch` and `Unimplemented` stand for the panics of
   * `dump_operation` (a failed `assert_eq!`, and a `todo!` branch).
   */
  datatype Error =
    | NoData
    | NoDstExtents
    | Io(error: IoError)
    | Bzip2Error
    | XzError
    | DataLengthMismatch
    | CapacityMismatch
    | Unimplemented(what: string)

  /** What a decompressor emits before it stops, and whether it stopped at a well-formed end. */
  datatype Decoded = Decoded(output: seq<Byte>, ok: bool)

  /** A decompressor, as a function of its whole compressed input. */
  type Decoder = seq<Byte> -> Decoded

  /** The buffer size of the standard copy loop and of a buffered reader (8 KiB). */
  const CopyBufferSize: nat := 8192

  /** What the result of an operation is, and what the destination then holds. */
  datatype Outcome = Outcome(result: Result<(), Error>, image: seq<Byte>)

  /** The source bytes of an operation: its data window of the blob area, if it names one. */
  function SourceWindow(srcData: seq<Byte>, blobsOffset: nat, op: InstallOperation): (w: Option<seq<Byte>>)
    ensures w.Some? <==> op.dataOffset.Some? && op.dataLength.Some?
    ensures w.Some? ==> |w.value| <= op.dataLength.value
    ensures w.Some? && blobsOffset + op.dataOffset.value + op.dataLength.value <= |srcData| ==>
      var at := blobsOffset + op.dataOffset.value;
      w.value == srcData[at..at + op.dataLength.value]
  {
    if op.dataOffset.Some? && op.dataLength.Some? then
      Some(WindowBytes(srcData, blobsOffset + op.dataOffset.value, op.dataLength.value))
    else None
  }

  /** The destination fragments of an operation. */
  function DstLayout(op: InstallOperation, blockSize: nat): (fs: seq<Fragment>)
    ensures |fs| == |op.dstExtents| && Total(fs) == blockSize * Blocks(op.dstExtents)
  {
    CapacityIsBlocks(op.dstExtents, blockSize);
    FromExtents(op.dstExtents, blockSize)
  }

  /**
   * Writing all of `bytes` from logical 0 of fresh destination fragments:
   * what fits is stored, and a write that does not fit fails with `WriteZero`.
   */
  function WriteAllOutcome(d: seq<Byte>, fs: seq<Fragment>, bytes: seq<Byte>): (o: Outcome)
    ensures o.result.Success? <==> |bytes| <= Total(fs)
    ensures o.result.Failure? ==> o.result.error == Io(WriteZero)
  {
    var stored := Min(|bytes|, Total(fs));
    Outcome(if |bytes| <= Total(fs) then Success(()) else Failure(Io(WriteZero)),
            Scatter(d, fs, 0, bytes[..stored]))
  }

  /** REPLACE: copy the window, then insist that it was `data_length` bytes and filled the destination. */
  function ReplaceOutcome(d: seq<Byte>, fs: seq<Fragment>, w: seq<Byte>, dataLength: nat): Outcome {
    var o := WriteAllOutcome(d, fs, w);
    if o.result.Failure? then o
    else if |w| != dataLength then Outcome(Failure(DataLengthMismatch), o.image)
    else if |w| != Total(fs) then Outcome(Failure(CapacityMismatch), o.image)
    else o
  }

  /** REPLACE_BZ and REPLACE_XZ: write what the decoder emits, then insist that it filled the destination. */
  function DecodeOutcome(d: seq<Byte>, fs: seq<Fragment>, out: Decoded, err: Error): Outcome {
    var o := WriteAllOutcome(d, fs, out.output);
    if !out.ok || o.result.Failure? then Outcome(Failure(err), o.image)
    else if |out.output| != Total(fs) then Outcome(Failure(CapacityMismatch), o.image)
    else o
  }

  /**
   * The effect of one operation. The source window and the destination are
   * resolved first; each kind then takes the ones it needs, in its own
   * order (REPLACE_XZ asks for the data before the destination).
   */
  function DumpSpec(op: InstallOperation, srcData: seq<Byte>, blobsOffset: nat, dstData: seq<Byte>,
                    blockSize: nat, bzip2: Decoder, xz: Decoder): Outcome
  {
    var fs := DstLayout(op, blockSize);
    var window := SourceWindow(srcData, blobsOffset, op);
    var noDst := |op.dstExtents| == 0;
    match op.opType
    case Replace =>
      if noDst then Outcome(Failure(NoDstExtents), dstData)
      else if window.None? then Outcome(Failure(NoData), dstData)
      else ReplaceOutcome(dstData, fs, window.value, op.dataLength.value)
    case ReplaceBz =>
      if noDst then Outcome(Failure(NoDstExtents), dstData)
      else if window.None? then Outcome(Failure(NoData), dstData)
      else DecodeOutcome(dstData, fs, bzip2(window.value), Bzip2Error)
    case ReplaceXz =>
      if window.None? then Outcome(Failure(NoData), dstData)
      else if noDst then Outcome(Failure(NoDstExtents), dstData)
      else DecodeOutcome(dstData, fs, xz(window.value), XzError)
    case Zero =>
      if noDst then Outcome(Failure(NoDstExtents), dstData)
      else Outcome(Success(()), Scatter(dstData, fs, 0, Zeros(Total(fs))))
    case Discard => Outcome(Success(()), dstData)
    case Move => Outcome(Failure(Unimplemented("src_extents")), dstData)
    case SourceCopy => Outcome(Failure(Unimplemented("src_extents")), dstData)
    case Bsdiff => Outcome(Failure(Unimplemented("diff")), dstData)
    case SourceBsdiff => Outcome(Failure(Unimplemented("diff")), dstData)
    case BrotliBsdiff => Outcome(Failure(Unimplemented("diff")), dstData)
    case Puffdiff => Outcome(Failure(Unimplemented("diff")), dstData)
  }

  /** `write_all`: writes until all of `bytes` is written, and fails with `WriteZero` once nothing more fits. */
  method WriteAll(writer: FragmentFile, bytes: seq<Byte>) returns (r: Result<(), Error>)
    requires writer.Valid()
    modifies writer`index, writer`fragmentPos, writer.inner
    ensures writer.Valid()
    ensures r.Success? <==> |bytes| <= writer.size - old(writer.Pos())
    ensures r.Failure? ==> r.error == Io(WriteZero)
    ensures
      var stored := Min(|bytes|, writer.size - old(writer.Pos()));
      && writer.Pos() == old(writer.Pos()) + stored
      && writer.inner.data == Scatter(old(writer.inner.data), writer.layout, old(writer.Pos()), bytes[..stored])
  {
    ghost var p0, d0 := writer.Pos(), writer.inner.data;
    var written := 0;
    assert bytes[..0] == [];
    while written < |bytes|
      invariant writer.Valid() && written <= |bytes| && writer.Pos() == p0 + written
      invariant writer.inner.data == Scatter(d0, writer.layout, p0, bytes[..written])
      decreases |bytes| - written
    {
      var n := WriteRest(writer, bytes, written, d0, p0);
      if n == 0 {
        return Failure(Io(WriteZero));
      }
      written := written + n;
    }
    assert bytes[..written] == bytes;
    r := Success(());
  }

  /** One `write` call of `write_all`, on the bytes not yet written; it extends the scattered prefix. */
  method WriteRest(writer: FragmentFile, bytes: seq<Byte>, written: nat, ghost d0: seq<Byte>, ghost p0: nat)
    returns (n: nat)
    requires writer.Valid() && written < |bytes| && writer.Pos() == p0 + written
    requires writer.inner.data == Scatter(d0, writer.layout, p0, bytes[..written])
    modifies writer`index, writer`fragmentPos, writer.inner
    ensures writer.Valid() && writer.Pos() == old(writer.Pos()) + n
    ensures n == Min(|bytes| - written, writer.size - old(writer.Pos()))
    ensures writer.inner.data == Scatter(d0, writer.layout, p0, bytes[..written + n])
  {
    ghost var d1 := writer.inner.data;
    n := writer.Write(bytes[written..]);
    assert bytes[written..][..n] == bytes[written..written + n];
    ScatterPrefixes(d0, writer.layout, p0, bytes, written, written + n);
  }

  /**
   * `io::copy` from the window to the destination: everything the window
   * still holds is written with `write_all`, and the count is returned.
   */
  method Copy(reader: SectionFile, writer: FragmentFile) returns (r: Result<nat, Error>)
    requires reader.Valid() && reader.pos <= reader.length && writer.Valid() && reader.inner != writer.inner
    modifies reader`pos, reader.inner`pos, writer`index, writer`fragmentPos, writer.inner
    ensures writer.Valid()
    ensures
      var bytes := old(reader.Pending());
      var room := writer.size - old(writer.Pos());
      && (r.Success? <==> |bytes| <= room)
      && (r.Success? ==> r.value == |bytes|)
      && (r.Failure? ==> r.error == Io(WriteZero))
      && writer.inner.data
         == Scatter(old(writer.inner.data), writer.layout, old(writer.Pos()), bytes[..Min(|bytes|, room)])
  {
    var bytes := ReadToEnd(reader);
    var w := WriteAll(writer, bytes);
    if w.Failure? {
      return Failure(w.error);
    }
    r := Success(|bytes|);
  }

  /** A buffered reader drained by a decoder: the whole rest of the window, in order. */
  method ReadToEnd(reader: SectionFile) returns (bytes: seq<Byte>)
    requires reader.Valid() && reader.pos <= reader.length
    modifies reader`pos, reader.inner`pos
    ensures reader.Valid() && reader.pos <= reader.length
    ensures bytes == old(reader.Pending()) && reader.Pending() == []
  {
    ghost var all := reader.Pending();
    var buf := new Byte[CopyBufferSize];
    bytes := [];
    while true
      invariant reader.Valid() && reader.pos <= reader.length
      invariant |bytes| <= |all| && bytes == all[..|bytes|] && reader.Pending() == all[|bytes|..]
      decreases |reader.Pending()|
    {
      var n := reader.Read(buf);
      if n == 0 {
        assert all[..|bytes|] == all;
        return;
      }
      assert all[..|bytes| + n] == all[..|bytes|] + all[|bytes|..][..n];
      bytes := bytes + buf[..n];
    }
  }

  /** The REPLACE arm: copy the window into the destination, then check both byte counts. */
  method ApplyReplace(input: SectionFile, out: FragmentFile, dataLength: nat) returns (r: Result<(), Error>)
    requires input.Valid() && input.pos == 0 && out.Valid() && out.Pos() == 0 && input.inner != out.inner
    modifies input`pos, input.inner`pos, out`index, out`fragmentPos, out.inner
    ensures
      var o := ReplaceOutcome(old(out.inner.data), out.layout, old(input.Pending()), dataLength);
      r == o.result && out.inner.data == o.image
  {
    var copied :- Copy(input, out);
    if copied != dataLength {
      return Failure(DataLengthMismatch);
    }
    if copied != out.Size() {
      return Failure(CapacityMismatch);
    }
    r := Success(());
  }

  /** The REPLACE_BZ and REPLACE_XZ arms: decode the window into the destination, then check it is full. */
  method ApplyDecode(input: SectionFile, out: FragmentFile, decode: Decoder, err: Error) returns (r: Result<(), Error>)
    requires input.Valid() && input.pos == 0 && out.Valid() && out.Pos() == 0 && input.inner != out.inner
    modifies input`pos, input.inner`pos, out`index, out`fragmentPos, out.inner
    ensures
      var o := DecodeOutcome(old(out.inner.data), out.layout, decode(old(input.Pending())), err);
      r == o.result && out.inner.data == o.image
  {
    var compressed := ReadToEnd(input);
    var decoded := decode(compressed);
    var written := WriteAll(out, decoded.output);
    if !decoded.ok || written.Failure? {
      return Failure(err);
    }
    var position := out.Seek(Current(0));
    if position != out.Size() {
      return Failure(CapacityMismatch);
    }
    r := Success(());
  }

  /** The ZERO arm: `io::copy` of as many zero bytes as the destination holds. */
  method ApplyZero(out: FragmentFile) returns (r: Result<(), Error>)
    requires out.Valid() && out.Pos() == 0
    modifies out`index, out`fragmentPos, out.inner
    ensures r == Success(())
    ensures out.inner.data == Scatter(old(out.inner.data), out.layout, 0, Zeros(Total(out.layout)))
  {
    var zeroed := WriteAll(out, Zeros(out.Size()));
    assert Zeros(out.Size())[..out.Size()] == Zeros(out.Size());
    r := Success(());
  }

  /**
   * Applies `op`: resolves the source window at `blobsOffset` of `src` and
   * the destination fragments of `dst`, then acts on the operation's kind.
   */
  method DumpOperation(src: Stream, blobsOffset: nat, dst: Stream, op: InstallOperation,
                       blockSize: nat, bzip2: Decoder, xz: Decoder) returns (r: Result<(), Error>)
    requires src != dst
    modifies src`pos, dst
    ensures
      var o := DumpSpec(op, src.data, blobsOffset, old(dst.data), blockSize, bzip2, xz);
      r == o.result && dst.data == o.image
  {
    ghost var window := SourceWindow(src.data, blobsOffset, op);
    ghost var fs := DstLayout(op, blockSize);
    var data: Result<SectionFile, Error> := Failure(NoData);
    if op.dataOffset.Some? && op.dataLength.Some? {
      var section := new SectionFile(src, blobsOffset + op.dataOffset.value, op.dataLength.value);
      data := Success(section);
    }
    var target: Result<FragmentFile, Error> := Failure(NoDstExtents);
    if |op.dstExtents| > 0 {
      var file := FragmentFile.NewFromExtents(dst, op.dstExtents, blockSize);
      target := Success(file.value);
    }
    assert data.Success? ==>
      && data.value.Valid() && data.value.pos == 0 && data.value.inner == src
      && window == Some(data.value.Pending());
    assert target.Success? ==>
      && target.value.Valid() && target.value.Pos() == 0 && target.value.inner == dst
      && target.value.layout == fs;
    match op.opType {
      case Replace =>
        var out :- target;
        var input :- data;
        r := ApplyReplace(input, out, op.dataLength.value);
      case ReplaceBz =>
        var out :- target;
        var input :- data;
        r := ApplyDecode(input, out, bzip2, Bzip2Error);
      case ReplaceXz =>
        var input :- data;
        var out :- target;
        r := ApplyDecode(input, out, xz, XzError);
      case Zero =>
        var out :- target;
        r := ApplyZero(out);
      case Discard =>
        r := Success(());
      case Move =>
        r := Failure(Unimplemented("src_extents"));
      case SourceCopy =>
        r := Failure(Unimplemented("src_extents"));
      case Bsdiff =>
        r := Failure(Unimplemented("diff"));
      case SourceBsdiff =>
        r := Failure(Unimplemented("diff"));
      case BrotliBsdiff =>
        r := Failure(Unimplemented("diff"));
      case Puffdiff =>
        r := Failure(Unimplemented("diff"));
    }
  }

  /**
   * REPLACE succeeds exactly when there are destination extents, the
   * operation names a window, and the window yields `data_length` bytes that
   * fill the destination. Then, over disjoint fragments, every byte of the
   * window is stored at its place in the destination and nothing outside the
   * fragments changes, whatever the image held before (it may be empty, as a
   * freshly created image is); an image that holds the fragments reads back
   * as the window and keeps its length.
   */
  lemma ReplaceSpec(op: InstallOperation, srcData: seq<Byte>, blobsOffset: nat, dstData: seq<Byte>,
                    blockSize: nat, bzip2: Decoder, xz: Decoder)
    requires op.opType == Replace
    ensures
      var o := DumpSpec(op, srcData, blobsOffset, dstData, blockSize, bzip2, xz);
      var fs := DstLayout(op, blockSize);
      var w := SourceWindow(srcData, blobsOffset, op);
      && (|op.dstExtents| == 0 ==> o == Outcome(Failure(NoDstExtents), dstData))
      && (|op.dstExtents| > 0 && w.None? ==> o == Outcome(Failure(NoData), dstData))
      && (o.result.Success? <==>
            |op.dstExtents| > 0 && w.Some? && |w.value| == op.dataLength.value && |w.value| == Total(fs))
      && (|op.dstExtents| > 0 && w.Some? && |w.value| > Total(fs) ==> o.result == Failure(Io(WriteZero)))
      && (|op.dstExtents| > 0 && w.Some? && |w.value| <= Total(fs) && |w.value| != op.dataLength.value ==>
            o.result == Failure(DataLengthMismatch))
      && (|op.dstExtents| > 0 && w.Some? && |w.value| < Total(fs) && |w.value| == op.dataLength.value ==>
            o.result == Failure(CapacityMismatch))
      && (o.result.Success? && Disjoint(fs) ==>
            && StoredOver(dstData, o.image, fs, w.value)
            && (CoveredBy(fs, |o.image|) ==> View(o.image, fs) == w.value)
            && (CoveredBy(fs, |dstData|) ==> |o.image| == |dstData|))
  {
    var o := DumpSpec(op, srcData, blobsOffset, dstData, blockSize, bzip2, xz);
    var fs := DstLayout(op, blockSize);
    var w := SourceWindow(srcData, blobsOffset, op);
    if o.result.Success? && Disjoint(fs) {
      assert w.value[..|w.value|] == w.value;
      ScatterWhole(dstData, fs, w.value);
      if CoveredBy(fs, |o.image|) {
        StoredView(dstData, o.image, fs, w.value);
      }
      if CoveredBy(fs, |dstData|) {
        ScatterLength(dstData, fs, 0, w.value);
      }
    }
  }

  /**
   * When the window lies inside the payload, it always yields `data_length`
   * bytes, so REPLACE with destination extents succeeds exactly when
   * `data_length` equals the destination size.
   */
  lemma ReplaceInRange(op: InstallOperation, srcData: seq<Byte>, blobsOffset: nat, dstData: seq<Byte>,
                       blockSize: nat, bzip2: Decoder, xz: Decoder)
    requires op.opType == Replace && |op.dstExtents| > 0 && op.dataOffset.Some? && op.dataLength.Some?
    requires blobsOffset + op.dataOffset.value + op.dataLength.value <= |srcData|
    ensures DumpSpec(op, srcData, blobsOffset, dstData, blockSize, bzip2, xz).result.Success?
        <==> op.dataLength.value == blockSize * Blocks(op.dstExtents)
  {
    ReplaceSpec(op, srcData, blobsOffset, dstData, blockSize, bzip2, xz);
  }

  /**
   * Writing a decoder's output succeeds exactly when the decoder reached a
   * well-formed end and its output fills the destination; a short output is
   * a capacity mismatch and any other failure is the decoder's error. On
   * success, over disjoint fragments, every output byte is stored at its
   * place in the destination and nothing outside the fragments changes; an
   * image that holds the fragments reads back as the output and keeps its
   * length.
   */
  lemma DecodeOutcomeSpec(d: seq<Byte>, fs: seq<Fragment>, out: Decoded, err: Error)
    ensures
      var o := DecodeOutcome(d, fs, out, err);
      && (o.result.Success? <==> out.ok && |out.output| == Total(fs))
      && (o.result.Failure? ==>
            o.result.error == if out.ok && |out.output| < Total(fs) then CapacityMismatch else err)
      && (o.result.Success? && Disjoint(fs) ==>
            && StoredOver(d, o.image, fs, out.output)
            && (CoveredBy(fs, |o.image|) ==> View(o.image, fs) == out.output)
            && (CoveredBy(fs, |d|) ==> |o.image| == |d|))
  {
    var o := DecodeOutcome(d, fs, out, err);
    if o.result.Success? && Disjoint(fs) {
      assert out.output[..|out.output|] == out.output;
      ScatterWhole(d, fs, out.output);
      if CoveredBy(fs, |o.image|) {
        StoredView(d, o.image, fs, out.output);
      }
      if CoveredBy(fs, |d|) {
        ScatterLength(d, fs, 0, out.output);
      }
    }
  }

  /**
   * REPLACE_BZ and REPLACE_XZ fail without touching the destination when the
   * window or the destination is missing; otherwise their outcome is that
   * of writing what their own decoder makes of the window.
   */
  lemma DecodeSpec(op: InstallOperation, srcData: seq<Byte>, blobsOffset: nat, dstData: seq<Byte>,
                   blockSize: nat, bzip2: Decoder, xz: Decoder, decode: Decoder, err: Error)
    requires
      || (op.opType == ReplaceBz && decode == bzip2 && err == Bzip2Error)
      || (op.opType == ReplaceXz && decode == xz && err == XzError)
    ensures
      var o := DumpSpec(op, srcData, blobsOffset, dstData, blockSize, bzip2, xz);
      var w := SourceWindow(srcData, blobsOffset, op);
      && (w.None? ==> o == Outcome(Failure(if op.opType == ReplaceBz && |op.dstExtents| == 0 then NoDstExtents else NoData), dstData))
      && (w.Some? && |op.dstExtents| == 0 ==> o == Outcome(Failure(NoDstExtents), dstData))
      && (w.Some? && |op.dstExtents| > 0 ==>
            o == DecodeOutcome(dstData, DstLayout(op, blockSize), decode(w.value), err))
  {
  }

  /**
   * ZERO needs no data: it succeeds exactly when there are destination
   * extents. Then, over disjoint fragments, `dst.size()` zero bytes are
   * stored over the fragments and nothing outside them changes, whatever the
   * image held before; an image that holds the fragments reads back as those
   * zeros and keeps its length.
   */
  lemma ZeroSpec(op: InstallOperation, srcData: seq<Byte>, blobsOffset: nat, dstData: seq<Byte>,
                 blockSize: nat, bzip2: Decoder, xz: Decoder)
    requires op.opType == Zero
    ensures
      var o := DumpSpec(op, srcData, blobsOffset, dstData, blockSize, bzip2, xz);
      var fs := DstLayout(op, blockSize);
      && (o.result.Success? <==> |op.dstExtents| > 0)
      && (o.result.Failure? ==> o == Outcome(Failure(NoDstExtents), dstData))
      && (o.result.Success? && Disjoint(fs) ==>
            var zeros := Zeros(blockSize * Blocks(op.dstExtents));
            && StoredOver(dstData, o.image, fs, zeros)
            && (CoveredBy(fs, |o.image|) ==> View(o.image, fs) == zeros)
            && (CoveredBy(fs, |dstData|) ==> |o.image| == |dstData|))
  {
    var o := DumpSpec(op, srcData, blobsOffset, dstData, blockSize, bzip2, xz);
    var fs := DstLayout(op, blockSize);
    var zeros := Zeros(Total(fs));
    if |op.dstExtents| > 0 && Disjoint(fs) {
      ScatterWhole(dstData, fs, zeros);
      if CoveredBy(fs, |o.image|) {
        StoredView(dstData, o.image, fs, zeros);
      }
      if CoveredBy(fs, |dstData|) {
        ScatterLength(dstData, fs, 0, zeros);
      }
    }
  }

  /**
   * DISCARD always succeeds and leaves the destination as it was, and the
   * unimplemented kinds always fail and leave it as it was, whatever the
   * operation's data and destination fields say.
   */
  lemma NoWriteKinds(op: InstallOperation, srcData: seq<Byte>, blobsOffset: nat, dstData: seq<Byte>,
                     blockSize: nat, bzip2: Decoder, xz: Decoder)
    requires op.opType !in {Replace, ReplaceBz, ReplaceXz, Zero}
    ensures
      var o := DumpSpec(op, srcData, blobsOffset, dstData, blockSize, bzip2, xz);
      && o.image == dstData
      && (o.result.Success? <==> op.opType == Discard)
      && (op.opType in {Move, SourceCopy} ==> o.result == Failure(Unimplemented("src_extents")))
      && (op.opType in {Bsdiff, SourceBsdiff, BrotliBsdiff, Puffdiff} ==> o.result == Failure(Unimplemented("diff")))
  {
  }

  /**
   * The data window and the destination are checked in a different order
   * by the kinds that need both: with neither present, REPLACE and
   * REPLACE_BZ report the missing destination and REPLACE_XZ the missing data.
   */
  lemma ErrorOrder(op: InstallOperation, srcData: seq<Byte>, blobsOffset: nat, dstData: seq<Byte>,
                   blockSize: nat, bzip2: Decoder, xz: Decoder)
    requires op.opType in {Replace, ReplaceBz, ReplaceXz}
    requires op.dataOffset.None? && |op.dstExtents| == 0
    ensures DumpSpec(op, srcData, blobsOffset, dstData, blockSize, bzip2, xz).result
         == if op.opType == ReplaceXz then Failure(NoData) else Failure(NoDstExtents)
  {
  }
}
