/**
 * The container layout of an update payload, read from stream position 0:
 *
 *   "CrAU" | version: u64 BE | manifest size: u64 BE
 *   | metadata signature size: u32 BE, only when version >= 2
 *   | manifest | metadata signature | blobs ...
 *
 * The protobuf manifest decoder is a parameter. The payload signature lies
 * in the blob area, `signatures_offset` bytes past its start, and is read
 * only when the manifest gives both its offset and its size.
 */
module Payload {
  import opened Wrappers
  import opened Bytes
  import opened Metadata

  /** The four bytes "CrAU". */
  const Magic: seq<Byte> := [0x43, 0x72, 0x41, 0x55]

  datatype ParseError = UnexpectedEof | BadMagic | ManifestDecode

  type ManifestDecoder = seq<Byte> -> Option<Manifest>

  datatype DeltaUpdateFile = DeltaUpdateFile(
    fileFormatVersion: nat,
    manifestSize: nat,
    metadataSignatureSize: nat,
    manifest: Manifest,
    metadataSignatureMessage: seq<Byte>,
    blobsOffset: nat,
    payloadSignaturesMessageData: seq<Byte>)

  /** Bytes before the manifest: magic, two u64 fields and, from version 2 on, a u32 field. */
  function HeaderSize(version: nat): (h: nat)
    ensures h == 4 + 8 + 8 + (if version >= 2 then 4 else 0)
  {
    if version >= 2 then 24 else 20
  }

  /** A counted read of `len` bytes at `at`; it fails if the input ends first. */
  function Take(s: seq<Byte>, at: nat, len: nat): (r: Result<seq<Byte>, ParseError>)
    ensures r.Success? <==> at + len <= |s|
    ensures r.Success? ==> r.value == s[at..at + len]
    ensures r.Failure? ==> r.error == UnexpectedEof
  {
    if at + len <= |s| then Success(s[at..at + len]) else Failure(UnexpectedEof)
  }

  /** A big-endian unsigned integer of `n` bytes at `at`. */
  function ReadBE(s: seq<Byte>, at: nat, n: nat): (r: Result<nat, ParseError>)
    ensures r.Success? <==> at + n <= |s|
    ensures r.Success? ==> r.value == FromBE(s[at..at + n]) && r.value < Pow256(n)
    ensures r.Failure? ==> r.error == UnexpectedEof
  {
    var bs :- Take(s, at, n);
    Success(FromBE(bs))
  }

  function DecodeManifest(decode: ManifestDecoder, bytes: seq<Byte>): (r: Result<Manifest, ParseError>)
    ensures r.Success? <==> decode(bytes).Some?
    ensures r.Success? ==> r.value == decode(bytes).value
    ensures r.Failure? ==> r.error == ManifestDecode
  {
    match decode(bytes)
    case None => Failure(ManifestDecode)
    case Some(m) => Success(m)
  }

  /** Whether the manifest locates a payload signature: both fields must be present. */
  predicate HasPayloadSignature(m: Manifest) {
    m.signaturesOffset.Some? && m.signaturesSize.Some?
  }

  /** The fixed fields before the manifest. */
  datatype Header = Header(version: nat, manifestSize: nat, signatureSize: nat)

  /** The magic and the size fields; the u32 field is read only from version 2 on and is 0 before. */
  function ParseHeader(s: seq<Byte>): (r: Result<Header, ParseError>)
    ensures |s| < 4 ==> r == Failure(UnexpectedEof)
    ensures 4 <= |s| && s[..4] != Magic ==> r == Failure(BadMagic)
    ensures r.Success? <==> 20 <= |s| && s[..4] == Magic && HeaderSize(FromBE(s[4..12])) <= |s|
    ensures r.Failure? ==> r.error == UnexpectedEof || r.error == BadMagic
    ensures r.Success? ==>
      && r.value.version == FromBE(s[4..12])
      && r.value.manifestSize == FromBE(s[12..20])
      && r.value.signatureSize == (if r.value.version >= 2 then FromBE(s[20..24]) else 0)
  {
    if |s| < 4 then Failure(UnexpectedEof)
    else if s[..4] != Magic then Failure(BadMagic)
    else
      var version :- ReadBE(s, 4, 8);
      var manifestSize :- ReadBE(s, 12, 8);
      var signatureSize :- if version >= 2 then ReadBE(s, 20, 4) else Success(0);
      Success(Header(version, manifestSize, signatureSize))
  }

  /**
   * The payload signature: `size` bytes at `offset` past the start of the
   * blobs, if both are given. The reader first seeks there, which may land
   * past the end of the input; a read of no bytes then still succeeds.
   */
  function ParsePayloadSignature(s: seq<Byte>, blobsOffset: nat, m: Manifest): (r: Result<seq<Byte>, ParseError>)
    ensures !HasPayloadSignature(m) ==> r == Success([])
    ensures HasPayloadSignature(m) ==>
      var at := blobsOffset + m.signaturesOffset.value;
      var len := m.signaturesSize.value;
      && (r.Success? <==> len == 0 || at + len <= |s|)
      && (r.Success? && len == 0 ==> r.value == [])
      && (r.Success? && len > 0 ==> r.value == s[at..at + len])
      && (r.Failure? ==> r.error == UnexpectedEof)
  {
    if HasPayloadSignature(m) then
      if m.signaturesSize.value == 0 then Success([])
      else Take(s, blobsOffset + m.signaturesOffset.value, m.signaturesSize.value)
    else Success([])
  }

  /** Everything after the header: the manifest, the metadata signature, the blob base and the payload signature. */
  function ParseBody(s: seq<Byte>, hd: Header, decode: ManifestDecoder): (r: Result<DeltaUpdateFile, ParseError>)
    ensures r.Failure? ==> r.error == UnexpectedEof || r.error == ManifestDecode
    ensures
      var h := HeaderSize(hd.version);
      r == Failure(ManifestDecode) <==>
        h + hd.manifestSize <= |s| && decode(s[h..h + hd.manifestSize]).None?
    ensures r.Success? ==>
      var f := r.value;
      var h := HeaderSize(hd.version);
      && f.fileFormatVersion == hd.version
      && f.manifestSize == hd.manifestSize
      && f.metadataSignatureSize == hd.signatureSize
      && f.blobsOffset == h + f.manifestSize + f.metadataSignatureSize <= |s|
      && decode(s[h..h + f.manifestSize]) == Some(f.manifest)
      && f.metadataSignatureMessage == s[h + f.manifestSize..f.blobsOffset]
      && ParsePayloadSignature(s, f.blobsOffset, f.manifest) == Success(f.payloadSignaturesMessageData)
  {
    var h := HeaderSize(hd.version);
    var manifestBytes :- Take(s, h, hd.manifestSize);
    var manifest :- DecodeManifest(decode, manifestBytes);
    var metadataSignature :- Take(s, h + hd.manifestSize, hd.signatureSize);
    var blobsOffset := h + hd.manifestSize + hd.signatureSize;
    var payloadSignature :- ParsePayloadSignature(s, blobsOffset, manifest);
    Success(DeltaUpdateFile(
      hd.version, hd.manifestSize, hd.signatureSize, manifest, metadataSignature, blobsOffset, payloadSignature))
  }

  /** The sequential parse of the layout, as the derived reader performs it. */
  function Parse(s: seq<Byte>, decode: ManifestDecoder): (r: Result<DeltaUpdateFile, ParseError>)
    ensures |s| < 4 ==> r == Failure(UnexpectedEof)
    ensures 4 <= |s| && s[..4] != Magic ==> r == Failure(BadMagic)
    ensures r.Failure? ==> r.error == UnexpectedEof || r.error == BadMagic || r.error == ManifestDecode
    ensures r == Failure(BadMagic) <==> 4 <= |s| && s[..4] != Magic
    ensures r == Failure(ManifestDecode) <==>
      && 20 <= |s| && s[..4] == Magic
      && var h := HeaderSize(FromBE(s[4..12]));
         var ms := FromBE(s[12..20]);
         h + ms <= |s| && decode(s[h..h + ms]).None?
    ensures r.Success? ==>
      var f := r.value;
      var h := HeaderSize(f.fileFormatVersion);
      && f.blobsOffset == h + f.manifestSize + f.metadataSignatureSize <= |s|
      && s[..4] == Magic
      && f.fileFormatVersion == FromBE(s[4..12])
      && f.manifestSize == FromBE(s[12..20])
      && f.metadataSignatureSize == (if f.fileFormatVersion >= 2 then FromBE(s[20..24]) else 0)
      && decode(s[h..h + f.manifestSize]) == Some(f.manifest)
      && f.metadataSignatureMessage == s[h + f.manifestSize..f.blobsOffset]
      && |f.metadataSignatureMessage| == f.metadataSignatureSize
      && (if HasPayloadSignature(f.manifest) && f.manifest.signaturesSize.value > 0 then
            var at := f.blobsOffset + f.manifest.signaturesOffset.value;
            var len := f.manifest.signaturesSize.value;
            at + len <= |s| && f.payloadSignaturesMessageData == s[at..at + len]
          else f.payloadSignaturesMessageData == [])
  {
    var hd :- ParseHeader(s);
    ParseBody(s, hd, decode)
  }

  /** Whether a header's fields fit their encodings. */
  predicate Encodable(hd: Header) {
    && hd.version < Pow256(8) && hd.manifestSize < Pow256(8) && hd.signatureSize < Pow256(4)
    && (hd.version < 2 ==> hd.signatureSize == 0)
  }

  /** The bytes before the manifest. */
  function EncodeHeader(hd: Header): (bs: seq<Byte>)
    requires Encodable(hd)
    ensures |bs| == HeaderSize(hd.version)
  {
    Magic + ToBE(hd.version, 8) + ToBE(hd.manifestSize, 8)
    + (if hd.version >= 2 then ToBE(hd.signatureSize, 4) else [])
  }

  /** The bytes of a payload with the given version, manifest, metadata signature and blob area. */
  function Encode(version: nat, manifestBytes: seq<Byte>, metadataSignature: seq<Byte>, blobs: seq<Byte>): (s: seq<Byte>)
    requires Encodable(Header(version, |manifestBytes|, |metadataSignature|))
    ensures |s| == HeaderSize(version) + |manifestBytes| + |metadataSignature| + |blobs|
  {
    EncodeHeader(Header(version, |manifestBytes|, |metadataSignature|)) + (manifestBytes + metadataSignature + blobs)
  }

  /** Parsing an encoded payload recovers every field, with the blob area starting right after the header. */
  lemma ParseEncode(version: nat, manifestBytes: seq<Byte>, metadataSignature: seq<Byte>, blobs: seq<Byte>,
                    decode: ManifestDecoder, m: Manifest)
    requires Encodable(Header(version, |manifestBytes|, |metadataSignature|))
    requires decode(manifestBytes) == Some(m)
    requires HasPayloadSignature(m) && m.signaturesSize.value > 0 ==>
      m.signaturesOffset.value + m.signaturesSize.value <= |blobs|
    ensures
      var h := HeaderSize(version);
      var blobsOffset := h + |manifestBytes| + |metadataSignature|;
      Parse(Encode(version, manifestBytes, metadataSignature, blobs), decode)
      == Success(DeltaUpdateFile(
           version, |manifestBytes|, |metadataSignature|, m, metadataSignature, blobsOffset,
           if HasPayloadSignature(m) && m.signaturesSize.value > 0 then
             blobs[m.signaturesOffset.value..m.signaturesOffset.value + m.signaturesSize.value]
           else []))
  {
    var hd := Header(version, |manifestBytes|, |metadataSignature|);
    var tail := manifestBytes + metadataSignature + blobs;
    ParseHeaderEncode(hd, tail);
    ParseBodyEncode(EncodeHeader(hd), hd, manifestBytes, metadataSignature, blobs, decode, m);
  }

  lemma ParseHeaderEncode(hd: Header, rest: seq<Byte>)
    requires Encodable(hd)
    ensures ParseHeader(EncodeHeader(hd) + rest) == Success(hd)
  {
    var e := EncodeHeader(hd);
    var s := e + rest;
    var fields := ToBE(hd.version, 8) + ToBE(hd.manifestSize, 8);
    assert s[..4] == Magic by {
      assert s[..4] == e[..4];
    }
    assert s[4..12] == ToBE(hd.version, 8) by {
      assert s[4..12] == e[4..12];
    }
    assert s[12..20] == ToBE(hd.manifestSize, 8) by {
      assert s[12..20] == e[12..20];
    }
    if hd.version >= 2 {
      assert s[20..24] == ToBE(hd.signatureSize, 4) by {
        assert s[20..24] == e[20..24];
      }
    }
  }

  lemma ParseBodyEncode(header: seq<Byte>, hd: Header, manifestBytes: seq<Byte>, metadataSignature: seq<Byte>,
                        blobs: seq<Byte>, decode: ManifestDecoder, m: Manifest)
    requires |header| == HeaderSize(hd.version)
    requires hd.manifestSize == |manifestBytes| && hd.signatureSize == |metadataSignature|
    requires decode(manifestBytes) == Some(m)
    requires HasPayloadSignature(m) && m.signaturesSize.value > 0 ==>
      m.signaturesOffset.value + m.signaturesSize.value <= |blobs|
    ensures
      var h := HeaderSize(hd.version);
      var blobsOffset := h + |manifestBytes| + |metadataSignature|;
      ParseBody(header + (manifestBytes + metadataSignature + blobs), hd, decode)
      == Success(DeltaUpdateFile(
           hd.version, |manifestBytes|, |metadataSignature|, m, metadataSignature, blobsOffset,
           if HasPayloadSignature(m) && m.signaturesSize.value > 0 then
             blobs[m.signaturesOffset.value..m.signaturesOffset.value + m.signaturesSize.value]
           else []))
  {
    var tail := manifestBytes + metadataSignature + blobs;
    var s := header + tail;
    var h, m0, g := |header|, |manifestBytes|, |metadataSignature|;
    assert s[h..] == tail;
    assert Take(s, h, m0) == Success(manifestBytes) by {
      assert s[h..h + m0] == tail[..m0];
      assert tail[..m0] == manifestBytes;
    }
    assert DecodeManifest(decode, manifestBytes) == Success(m);
    assert Take(s, h + m0, g) == Success(metadataSignature) by {
      assert s[h + m0..h + m0 + g] == tail[m0..m0 + g];
      assert tail[m0..m0 + g] == metadataSignature;
    }
    var blobsOffset := h + m0 + g;
    assert s[blobsOffset..] == blobs by {
      assert s[blobsOffset..] == tail[m0 + g..];
      assert tail[m0 + g..] == blobs;
    }
    var signature := if HasPayloadSignature(m) && m.signaturesSize.value > 0 then
      blobs[m.signaturesOffset.value..m.signaturesOffset.value + m.signaturesSize.value] else [];
    assert ParsePayloadSignature(s, blobsOffset, m) == Success(signature) by {
      if HasPayloadSignature(m) && m.signaturesSize.value > 0 {
        var off, len := m.signaturesOffset.value, m.signaturesSize.value;
        assert s[blobsOffset + off..blobsOffset + off + len] == s[blobsOffset..][off..off + len];
      }
    }
  }

  /** A parse that succeeds does not look past its input: more bytes after it change nothing. */
  lemma ParseExtend(s: seq<Byte>, t: seq<Byte>, decode: ManifestDecoder)
    requires Parse(s, decode).Success?
    ensures Parse(s + t, decode) == Parse(s, decode)
  {
    var hd := ParseHeader(s).value;
    ParseHeaderExtend(s, t);
    ParseBodyExtend(s, t, hd, decode);
  }

  lemma ParseHeaderExtend(s: seq<Byte>, t: seq<Byte>)
    requires ParseHeader(s).Success?
    ensures ParseHeader(s + t) == ParseHeader(s)
  {
    var u := s + t;
    assert u[..4] == s[..4];
    assert u[4..12] == s[4..12];
    assert u[12..20] == s[12..20];
    if FromBE(s[4..12]) >= 2 {
      assert u[20..24] == s[20..24];
    }
  }

  lemma ParseBodyExtend(s: seq<Byte>, t: seq<Byte>, hd: Header, decode: ManifestDecoder)
    requires ParseBody(s, hd, decode).Success?
    ensures ParseBody(s + t, hd, decode) == ParseBody(s, hd, decode)
  {
    var u := s + t;
    var f := ParseBody(s, hd, decode).value;
    var h := HeaderSize(hd.version);
    assert u[h..h + f.manifestSize] == s[h..h + f.manifestSize];
    assert u[h + f.manifestSize..f.blobsOffset] == s[h + f.manifestSize..f.blobsOffset];
    if HasPayloadSignature(f.manifest) && f.manifest.signaturesSize.value > 0 {
      var at := f.blobsOffset + f.manifest.signaturesOffset.value;
      var len := f.manifest.signaturesSize.value;
      assert u[at..at + len] == s[at..at + len];
    }
  }
}
