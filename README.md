# payload-dumper: extent-addressed virtual files and the operation dispatcher

This project models the core of payload-dumper-rust, a tool that extracts
partition images from an Android A/B OTA update payload, and proves
properties of the model.

- `src/extent.rs` provides the stream views that the extractor writes
  through:
  - `SectionFile` clamps a seekable backing stream to one physical window.
  - `Fragment::from_extent` turns a manifest extent into a byte range.
  - `FragmentFile` joins an ordered list of scattered fragments into one
    gap-free logical stream `[0, size)` that can be sought, read and
    written. Its cursor is the pair (`index`, `fragment_pos`) together with
    the backing stream's own cursor.
- `src/lib.rs` provides two things:
  - The byte layout of the payload container (`DeltaUpdateFile`).
  - `dump_operation`, which applies one install operation. It builds the
    source window and the destination fragments, then dispatches on the
    operation kind.

The model is split into modules:

- `Wrappers`: `Option`, `Result` and `Min`.
- `Bytes`: bytes, and big-endian integers.
- `IoStream`: the backing medium. It is a `Stream` class with a `seq` of
  bytes and a cursor, standing for a `std::fs::File`, which is what the
  extractor writes images to. A read stops at the end of the data. A write
  past the end grows the data, and the gap reads as zeros (`Overwrite`).
  A write of no bytes changes nothing. That is where a
  `std::io::Cursor<&mut Vec<u8>>`, as in the unit test of `src/extent.rs`,
  differs: an empty write past its end pads the vector with zeros up to the
  cursor. The unit test makes no such write.
- `Metadata`: the decoded manifest fields the core reads.
- `Layout`: the pure part of the extent layer:
  - the construction-time `start_pos` scan (`Scan`, `StartPos`);
  - the fragment search (`FragmentOf`);
  - the map from logical positions to physical offsets (`PhysicalOffset`);
  - two reference definitions. `View` is the joined stream a medium
    presents. `Scatter` is the medium after a logical write.
- `Extent`: the `SectionFile` and `FragmentFile` classes.
  - Their methods update `pos`, `index` and `fragmentPos` and the backing
    cursor in place, as the Rust methods do.
  - `FragmentFile.Read` and `FragmentFile.Write` keep the source's loops.
  - Those loops are proved against `View` and `Scatter`.
  - The predicates `Eof` and `FragmentEof` are `eof` and `fragment_eof`
    (`src/extent.rs:147-155`).
- `ExtentTests`: the unit test of `src/extent.rs`, as a verified scenario.
- `Payload`: the container parser as a pure function over bytes, with its
  encoder and round trip. The protobuf decoder is a parameter.
  A payload signature of size 0 reads nothing, so its offset may point past
  the end of the payload: binrw's seek before a zero-count read does not
  fail there.
- `Operation`: `dump_operation` as a method over two `Stream`s.
  - `DumpSpec` is its reference definition, and `DumpOperation`'s contract
    is equality with it.
  - The lemmas about `DumpSpec` state what each kind does.
  - The destination may start empty, as the freshly created image file of
    an extraction does; a write then grows it. So what a successful kind
    stores is stated at the physical offsets of its extents, and reading it
    back through the extents is stated once the image holds them.
  - The bzip2 and xz decompressors are parameters. Each one is a function
    from the compressed window to the bytes it emits and whether it ended
    well.

The `assert_eq!` and `todo!` panics of `dump_operation` become distinct
error values. `DataLengthMismatch` and `CapacityMismatch` stand for the
failed `assert_eq!`s, and `Unimplemented` stands for `todo!`.

## Model

| member | source | states |
|---|---|---|
| Bytes.FromBE | src/lib.rs:53-60 | the value that a big-endian field of n bytes spells is below 256^n |
| Bytes.ToBE | src/lib.rs:53-64 | the n-byte big-endian encoding of x has length n and decodes back to x |
| Bytes.Zeros | src/lib.rs:155-158 | the zero source `repeat(0).take(n)` yields exactly n bytes, all zero |
| IoStream.Overwrite | src/extent.rs:57 | after a write into the backing file, the file keeps its length if the write ends inside it, and otherwise ends where the write ends |
| IoStream.OverwriteAt | src/extent.rs:57 | each byte after a write is the written byte inside the written range, the old byte elsewhere, and zero in a gap the write opened past the old end |
| IoStream.OverwriteSplit | src/extent.rs:245-249 | two writes in a row at consecutive positions are one write of their concatenation |
| IoStream.Stream.constructor | src/extent.rs:271-272 | a cursor over the given data starts at position 0 |
| IoStream.Stream.Seek | src/extent.rs:16 | `seek(Start(t))` puts the cursor at t and returns t |
| IoStream.Stream.Read | src/extent.rs:48 | a read into `buf[start..start+len]` delivers min(len, bytes left) bytes from the cursor and advances the cursor by that count; every other element of `buf` is unchanged |
| IoStream.Stream.Write | src/extent.rs:57 | a write stores all its bytes at the cursor, returns their count and advances the cursor by it |
| Layout.FromExtent | src/extent.rs:74-79 | an extent's fragment starts at block_size * start_block and ends at block_size * (start_block + num_blocks) |
| Layout.FromExtents | src/extent.rs:129-131 | there is one fragment per extent, in the same order, each made by `from_extent` |
| Layout.Total | src/extent.rs:124 | the summed fragment size, which is `size`; `TotalAppend`, `CapacityIsBlocks` and `StartPosEnd` state what it is |
| Layout.StartPos | src/extent.rs:108-114 | the start_pos that the scan records for fragment i, the size of the fragments before it; `ScanAt`, `StartPosNext` and `StartPosMono` state it |
| Layout.CapacityIsBlocks | src/extent.rs:124-131 | the size of the virtual file over a list of extents is block_size times the number of blocks they name |
| Layout.TotalAppend | src/extent.rs:124 | the summed size of two lists of fragments joined is the sum of their sizes |
| Layout.StartPosNext | src/extent.rs:108-114 | the next fragment's logical start is this one's start plus its size (the scan's accumulator step) |
| Layout.StartPosMono | src/extent.rs:106-118 | logical starts never decrease along the list |
| Layout.StartPosEnd | src/extent.rs:124 | the start after the last fragment is the file's size |
| Layout.FragmentEndBound | src/extent.rs:124 | every fragment ends inside `[0, size]` of the logical stream |
| Layout.Scan | src/extent.rs:106-118 | the scan yields one node per fragment; what each node holds is stated by `ScanAt` |
| Layout.ScanAt | src/extent.rs:106-118 | node i of the scan keeps fragment i's offset and size, and its `start_pos` is the sum of the sizes before it |
| Layout.FragmentOf | src/extent.rs:209-219 | every logical position below the size lies in a fragment i with start_pos[i] <= k < start_pos[i] + size[i] |
| Layout.FragmentOfUnique | src/extent.rs:209-219 | no other fragment holds that position |
| Layout.PhysicalOffset | src/extent.rs:157-160 | where logical byte k lives in the medium, as `seek` then `inner_pos` place the cursor; `PhysicalOffsetAt`, `PhysicalOffsetOf` and `PhysicalOffsetInjective` state it |
| Layout.PhysicalOffsetAt | src/extent.rs:157-160 | logical byte start_pos[i] + j lies at physical offset[i] + j |
| Layout.PhysicalOffsetOf | src/extent.rs:157-160 | logical byte k lies at the offset of its fragment plus its distance from that fragment's logical start |
| Layout.PhysicalOffsetInjective | src/extent.rs:242-256 | with non-overlapping fragments, different logical bytes live at different physical offsets |
| Layout.PhysicalOffsetCovered | src/extent.rs:157-160 | when the medium holds every fragment, every logical byte maps to a physical offset inside the medium |
| Layout.View | src/extent.rs:224-239 | the joined stream a medium presents has exactly `size` bytes, logical byte k being the medium's byte at k's physical offset |
| Layout.ViewAt | src/extent.rs:224-239 | logical byte k of the joined stream is the physical byte that k maps to |
| Layout.RunOffsets | src/extent.rs:228-229 | a run of logical bytes inside fragment i maps byte by byte to the run of physical offsets starting at offset[i] + q |
| Layout.ViewRun | src/extent.rs:228-229 | a run of bytes inside fragment i of the joined stream is the run of the medium at the fragment's offset, byte by byte |
| Layout.Scatter | src/extent.rs:243-256 | the reference definition of a logical write: one physical write per fragment crossed, of what fits; its properties are the `Scatter*` lemmas below |
| Layout.ScatterAppend | src/extent.rs:243-256 | writing a and then b at the following position is writing a + b |
| Layout.ScatterPrefixes | src/extent.rs:243-256 | writing a prefix of the input and then the next piece is writing the longer prefix |
| Layout.ScatterChunk | src/extent.rs:246-247 | a logical write that stays inside fragment i is one physical write at offset[i] + (p - start_pos[i]) |
| Layout.ScatterExtend | src/extent.rs:246-249 | extending a logical write by a chunk that stays in fragment i adds exactly that physical write |
| Layout.ScatterLength | src/extent.rs:243-256 | writing through fragments that the medium already holds does not change its length |
| Layout.ScatterFrame | src/extent.rs:243-256 | a write changes only the physical bytes its logical range maps to, and any growth it causes that nothing was written to is zero |
| Layout.ScatterOutside | src/extent.rs:243-256 | a write through fragments that the medium holds changes no byte outside the fragments |
| Layout.ScatterPlaces | src/extent.rs:243-256 | with non-overlapping fragments, logical byte k of a write is stored at its physical offset |
| Layout.ScatterThenView | src/extent.rs:224-256 | round trip: after a write, reading back the joined stream shows the written bytes in the written range and the old stream everywhere else |
| Layout.ScatterFill | src/extent.rs:243-256 | a write that fills the whole logical stream reads back as exactly its bytes, and no byte outside the fragments changes |
| Layout.ScatterWhole | src/extent.rs:243-256 | with non-overlapping fragments, a write of the whole logical stream stores byte k at k's physical offset, grows the medium exactly up to the last physical byte written and no further, keeps every byte outside the fragments, and zero-fills the growth |
| Layout.ScatterEnd | src/extent.rs:243-256 | a write that grows the medium makes it end exactly at a physical byte the write put there |
| Layout.StoredView | src/extent.rs:224-256 | once the fragments lie inside the written medium, it reads back as exactly the stored bytes |
| Extent.WindowBytes | src/extent.rs:46-51 | a window yields at most `length` bytes, fewer when the backing data ends first, and none when the window starts past the end; the bytes are the backing data's from `start` on |
| Extent.Target | src/extent.rs:34-38 | the target of a seek: never negative from the start, the current position for `Current(0)` and the length for `End(0)` |
| Extent.SectionFile.constructor | src/extent.rs:15-24 | `new` seeks the backing stream to `offset` and starts at window position 0 |
| Extent.SectionFile.NewFromExtent | src/extent.rs:27-29 | the window of an extent is `[start_block * block_size, +num_blocks * block_size)` |
| Extent.SectionFile.Seek | src/extent.rs:33-42 | seek resolves Start/Current/End against `pos` and `length`, moves the backing cursor to offset + target, and reports target |
| Extent.SectionFile.Read | src/extent.rs:46-51 | a read transfers min(buf.len, what remains of the window) bytes in order, returns 0 at the window's end, and advances `pos` by the count |
| Extent.SectionFile.Write | src/extent.rs:55-60 | a write stores only the first length - pos bytes at offset + pos, and advances `pos` by that count |
| Extent.FragmentFile.NodeAt | src/extent.rs:106-118 | after construction, node j is fragment j at logical start start_pos[j] |
| Extent.FragmentFile.Init | src/extent.rs:120-126 | the fields start at index 0 and fragment_pos 0, and `size` is the sum of the fragment sizes |
| Extent.FragmentFile.New | src/extent.rs:97-127 | an empty list is refused with InvalidInput and moves nothing; otherwise the file starts at logical 0 of fragment 0, with the backing cursor at fragments[0].offset |
| Extent.FragmentFile.NewFromExtents | src/extent.rs:129-132 | an empty extent list is refused with InvalidInput; otherwise the file over extents has size block_size * the number of blocks, starts at index 0 and fragment_pos 0, and puts the backing cursor at block_size * the first start_block |
| Extent.FragmentFile.Pos | src/extent.rs:181-187 | `pos()` is `size` at the end and start_pos[index] + fragment_pos otherwise, and always lies in `[0, size]` |
| Extent.FragmentFile.Eof | src/extent.rs:152-155 | the end is reached once `index` has passed the last fragment; `Pos` and `FragmentRemaining` state what that means for the cursor |
| Extent.FragmentFile.FragmentRemaining | src/extent.rs:139-145 | the bytes left in the current fragment: 0 at the end, otherwise up to its end, never past `size` |
| Extent.FragmentFile.FragmentEof | src/extent.rs:147-150 | the cursor is at the end of the file or exactly at the end of its current fragment |
| Extent.FragmentFile.InnerPos | src/extent.rs:157-160 | the physical position of the cursor is the current fragment's offset plus fragment_pos |
| Extent.FragmentFile.InnerSeek | src/extent.rs:162-167 | the backing cursor is moved to the physical image of the logical cursor, and `pos()` is returned |
| Extent.FragmentFile.NextFragment | src/extent.rs:169-179 | the file steps to the next fragment without moving the logical position; it starts that fragment at 0 with the backing cursor re-sought, and at the end neither moves |
| Extent.FragmentFile.Locate | src/extent.rs:209-215 | the search picks the last fragment whose start_pos <= p, which always exists; for p < size it is the fragment holding p |
| Extent.FragmentFile.Seek | src/extent.rs:197-221 | `seek(Current(0))` reports `pos()` and changes nothing; any other seek lands at the target with fragment_pos = target - start_pos and the backing cursor at offset + fragment_pos |
| Extent.FragmentFile.Read | src/extent.rs:224-239 | read returns min(buf.len, size - pos()) (0 at eof), advances `pos()` by it, fills `buf` with that stretch of the joined stream and leaves the rest of `buf` |
| Extent.FragmentFile.ReadStep | src/extent.rs:227-235 | one loop round reads from the current fragment into the next part of `buf` and either makes progress in the fragment or moves to a later one |
| Extent.FragmentFile.ReadFragment | src/extent.rs:228-229 | a read that stays in the current fragment delivers the matching stretch of the joined stream |
| Extent.FragmentFile.Advance | src/extent.rs:230-235 | counting the transferred bytes moves `pos()` by exactly that many, stepping to the next fragment when this one is used up |
| Extent.FragmentFile.Write | src/extent.rs:242-257 | write returns min(buf.len, size - pos()) (0 at eof), advances `pos()` by it, and leaves the medium as that prefix scattered from the old position |
| Extent.FragmentFile.WriteStep | src/extent.rs:245-253 | one loop round extends the scattered prefix by what fits in the current fragment and makes progress |
| Extent.FragmentFile.WriteFragment | src/extent.rs:246-247 | a write inside the current fragment extends the scattered prefix by that chunk |
| Extent.FragmentFile.Size | src/extent.rs:190-194 | `size()` is the sum of the fragment sizes |
| Extent.ReadSlice | src/extent.rs:229 | when each byte of a stretch of the joined stream is known to be the backing byte at the matching distance from the backing cursor, the backing read delivers that stretch in order |
| ExtentTests.TestFragments | src/extent.rs:273-283 | the test's fragments {0,5}, {20,2}, {10,3} give size 10 and starts 0, 5, 7 |
| ExtentTests.FragmentScenario | src/extent.rs:270-299 | reading 20 bytes gives 10; writing 12 bytes after a seek to 0 returns 10 and sets [0..5), [20..22) and [10..13) as the test asserts |
| ExtentTests.ReadScenario | src/extent.rs:286-289 | the 10 bytes read are 0,1,2,3,4,20,21,10,11,12 |
| ExtentTests.WriteScenario | src/extent.rs:291-296 | the write stores 9,8,7,6,5 then 4,3 then 2,1,0 in the three fragments |
| Payload.HeaderSize | src/lib.rs:57-64 | the fixed fields take 4 + 8 + 8 bytes, plus 4 from version 2 on |
| Payload.Take | src/lib.rs:66-73 | a counted field of len bytes succeeds exactly when the input holds them, and is those bytes; it fails with UnexpectedEof otherwise |
| Payload.ReadBE | src/lib.rs:53-64 | a big-endian field succeeds exactly when its bytes are present, and is their value; it fails with UnexpectedEof otherwise |
| Payload.DecodeManifest | src/lib.rs:66-68 | the manifest field succeeds exactly when the protobuf decoder accepts the bytes, and fails with ManifestDecode otherwise |
| Payload.HasPayloadSignature | src/lib.rs:85 | the guard of the payload-signature field: both `signatures_offset` and `signatures_size` present; `ParsePayloadSignature` states what it selects |
| Payload.ParseHeader | src/lib.rs:53-64 | the parse fails if the input is too short or does not start with "CrAU", and otherwise reads version and manifest size as big-endian u64, and the signature size as a big-endian u32 only from version 2 (0 before); it fails only with UnexpectedEof or BadMagic |
| Payload.ParsePayloadSignature | src/lib.rs:85-88 | the payload signature is read only when both manifest fields are present; a zero size reads nothing, wherever the offset points; a non-zero size succeeds exactly when the input holds `signatures_size` bytes at blobs_offset + `signatures_offset`, and is those bytes; its one failure is UnexpectedEof |
| Payload.ParseBody | src/lib.rs:66-94 | exactly `manifest_size` manifest bytes, then `metadata_signature_size` signature bytes, then blobs_offset = header + both sizes, then the payload signature as `ParsePayloadSignature` reads it; it fails with ManifestDecode exactly when the manifest bytes are present and the decoder refuses them, and with UnexpectedEof otherwise |
| Payload.Parse | src/lib.rs:53-94 | the whole layout: magic, fields, the counted blobs, blobs_offset = 4 + 8 + 8 + (v >= 2 ? 4 : 0) + manifest_size + metadata_signature_size, and the optional signature, which must lie inside the input only when its size is not zero; a failure is BadMagic exactly when the first four bytes are not "CrAU", ManifestDecode exactly when the header and the manifest bytes are present but the decoder refuses them, and UnexpectedEof otherwise |
| Payload.EncodeHeader | src/lib.rs:53-64 | the encoded fixed fields take `HeaderSize` bytes |
| Payload.Encode | src/lib.rs:20-52 | an encoded payload is the fixed fields, the manifest, the metadata signature and the blob area in that order |
| Payload.ParseEncode | src/lib.rs:53-94 | round trip: parsing an encoded payload recovers every field, with the blob area right after the metadata signature |
| Payload.ParseHeaderEncode | src/lib.rs:53-64 | parsing encoded fixed fields recovers them, whatever follows |
| Payload.ParseBodyEncode | src/lib.rs:66-94 | parsing the encoded manifest, signature and blobs after a header recovers them |
| Payload.ParseExtend | src/lib.rs:53-94 | a successful parse does not look past its input |
| Payload.ParseHeaderExtend | src/lib.rs:53-64 | the fixed fields do not depend on the bytes after them |
| Payload.ParseBodyExtend | src/lib.rs:66-94 | the rest of the parse does not depend on bytes after the last one it reads |
| Operation.SourceWindow | src/lib.rs:103-109 | the source exists exactly when both data_offset and data_length are present; it is input bytes [blobs_offset + data_offset, +data_length) when they lie inside the input |
| Operation.DstLayout | src/lib.rs:115-119 | the destination has one fragment per dst extent and size block_size * blocks |
| Operation.WriteAllOutcome | src/lib.rs:127 | `write_all` succeeds exactly when the bytes fit, and fails with WriteZero otherwise |
| Operation.WriteAll | src/lib.rs:127 | `write_all` through a `FragmentFile` stores the part that fits at the cursor, and succeeds exactly when all of it fits |
| Operation.WriteRest | src/lib.rs:127 | one `write` call of `write_all` extends the stored prefix |
| Operation.Copy | src/lib.rs:127 | `io::copy` of a window into the destination succeeds exactly when the window fits; it returns the window's length, and the destination holds what fits |
| Operation.ReadToEnd | src/lib.rs:136-137 | a drained reader yields the whole rest of the window, in order |
| Operation.ApplyReplace | src/lib.rs:124-130 | the REPLACE arm has the outcome of copying the window, then checking the count first against data_length and then against dst.size() |
| Operation.ApplyDecode | src/lib.rs:133-153 | the REPLACE_BZ/REPLACE_XZ arm has the outcome of writing the decoder's output, then checking the final position against dst.size() |
| Operation.ApplyZero | src/lib.rs:155-158 | ZERO writes exactly dst.size() zero bytes from logical 0 and succeeds |
| Operation.ReplaceOutcome | src/lib.rs:124-130 | the reference outcome of REPLACE: `io::copy`'s outcome, then the count checked against data_length and then against dst.size(); its meaning is stated by `ReplaceSpec` |
| Operation.DecodeOutcome | src/lib.rs:133-153 | the reference outcome of a decode: the decoder's output written, its error or the final position checked against dst.size(); its meaning is stated by `DecodeOutcomeSpec` |
| Operation.DumpSpec | src/lib.rs:96-188 | the reference outcome of `dump_operation`: source window and destination resolved first, then the kind's own order of checks; its meaning is stated by `ReplaceSpec`, `DecodeSpec`, `ZeroSpec`, `NoWriteKinds` and `ErrorOrder` |
| Operation.DumpOperation | src/lib.rs:96-188 | the result and the destination after `dump_operation` are those of `DumpSpec` |
| Operation.ReplaceSpec | src/lib.rs:124-130 | REPLACE fails first on missing dst extents, then on missing data; it succeeds exactly when the window has data_length bytes and data_length is dst.size(), an oversized window fails with WriteZero, a window of the wrong data_length with DataLengthMismatch, and a short one of the right data_length with CapacityMismatch; with non-overlapping extents a success stores window byte k at k's physical offset of the destination (which may start empty, and grows only up to the last byte written), keeps every byte outside the extents and zero-fills any growth, so the destination reads back as the window, and a destination that already held the extents keeps its length |
| Operation.ReplaceInRange | src/lib.rs:103-130 | with the window inside the payload, REPLACE with dst extents succeeds exactly when data_length equals block_size * blocks |
| Operation.DecodeOutcomeSpec | src/lib.rs:133-153 | a decode succeeds exactly when the decoder ends well and its output fills the destination; a short output is a capacity mismatch and any other failure is the decoder's error; with non-overlapping extents a success stores output byte k at k's physical offset (the destination may start empty, and grows only up to the last byte written), keeps every byte outside the extents and zero-fills any growth, so the destination reads back as the output |
| Operation.DecodeSpec | src/lib.rs:133-153 | REPLACE_BZ checks the destination before the data and REPLACE_XZ the data before the destination; with both present, the outcome is that of its own decoder |
| Operation.ZeroSpec | src/lib.rs:155-158 | ZERO needs no data and succeeds exactly when there are dst extents; with non-overlapping extents the destination then holds a zero at every physical offset of the extents (it may start empty, and grows only up to the last byte written), keeps every byte outside them and zero-fills any growth, so it reads back as dst.size() zeros |
| Operation.NoWriteKinds | src/lib.rs:160-184 | DISCARD succeeds and the six unimplemented kinds fail (naming src_extents or diff); neither touches the destination, whatever the data and dst fields say |
| Operation.ErrorOrder | src/lib.rs:124-148 | with neither data nor dst extents, only REPLACE_XZ reports the missing data |

## Left out

- Integer widths: positions, sizes and offsets are unbounded naturals.
  - The `u64` products `block_size * start_block` and the sums of sizes are
    not checked for overflow.
  - The `i64` casts of relative and end-relative seeks
    (`src/extent.rs:36-37, 205-206`) become integer arithmetic.
  - The `i64` cast of `signatures_offset` in the payload-signature seek
    (`src/lib.rs:86`) is not modelled: an offset of 2^63 or more would wrap
    to a backward seek in the source, and is a plain forward distance here.
- Extent.SectionFile.Seek: requires that the resolved target is not
  negative. The source's cast to `u64` would wrap it.
- Extent.FragmentFile.Seek: requires that the resolved target lies in
  `[0, size]`. A negative target wraps in the source, and a target past
  `size` makes `fragment_remaining` underflow (`src/extent.rs:144`).
- Extent.SectionFile.Read, Extent.SectionFile.Write: both require
  `pos <= length`. Past the window, the source's `length - pos` underflows.
- Extent.FragmentFile.Read: requires that the backing data holds every
  fragment. With a short backing file, the source's loop would keep
  reading 0 bytes and never end.
- Operation.Copy: reads the whole rest of the window and then writes it with
  one `write_all`.
  - `io::copy` interleaves 8 KiB reads and writes instead.
  - The two are distinct streams, so the count, the result and the bytes
    stored are the same either way.
  - On failure, the source cursor's final position is not the same.
- Operation.ApplyZero: the zero-filled source is one `write_all` of
  `dst.size()` zeros, not 8 KiB rounds. The stored bytes are the same.
- Operation.ApplyDecode: the decoders are functions of the whole compressed
  window.
  - Their output is written only after they finish.
  - A real decoder emits output and can hit a write error as it goes.
  - The bytes stored and the error kind are the same. The interleaving is
    not.
- Operation.DecodeOutcome: assumes that each decompressor writes its output
  with `write_all` and reports a failed write as its own error. So an output
  longer than `dst.size()` ends as `Bzip2Error` or `XzError`, not as
  `WriteZero`. The libribzip2 and lzma_rs code that would settle this is not
  part of this model.
- Operation.DumpOperation: states the result and the destination contents.
  It does not state where the source and destination cursors end.
- I/O errors: only the two error kinds used by the core (InvalidInput and
  WriteZero) exist. Seeks, reads and writes on the backing medium never
  fail.
- `flush` (`src/extent.rs:62-64, 259-261`) has no effect on an unbuffered
  medium and is not modelled.
- `SectionFile`'s `Seek` returning the backing position minus `offset`:
  `Stream.Seek` always lands on its target, so the model returns the target.
- Protobuf: manifest decoding is a parameter (`ManifestDecoder`), and
  prost's defaults for missing fields are not modelled.
  - An operation's `data_offset` and `data_length` are `Option`s.
  - The operation kind is one of the eleven named kinds.
- `src/main.rs` (argument parsing, files, progress bars) and `build.rs`
  (protobuf code generation) are not part of this model.
- The bzip2 and xz libraries are not part of this model. Only what they
  emit and whether they succeed is.

Where the code and its comments differ, the model follows the code:

- The REPLACE comment speaks of zero padding to the block size, but the
  code pads nothing. It asserts that the copied count equals both
  `data_length` and `dst.size()`.
- The code panics on those checks and on the unimplemented kinds. The
  model returns the distinct error values `DataLengthMismatch`,
  `CapacityMismatch` and `Unimplemented` in their place, so a caller can
  tell a corrupt payload from an unsupported one.
