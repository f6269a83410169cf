/**
 * The parts of the update manifest that the core reads. The manifest is a
 * protobuf message whose decoding is external; these are the already-decoded
 * fields, accessed by name only.
 */
module Metadata {
  import opened Wrappers

  /** A run of `numBlocks` blocks starting at block `startBlock`. */
  datatype Extent = Extent(startBlock: nat, numBlocks: nat)

  /** The install-operation kinds of the manifest's type enumeration. */
  datatype OpType =
    | Replace | ReplaceBz | Move | Bsdiff | SourceCopy | SourceBsdiff
    | Zero | Discard | ReplaceXz | Puffdiff | BrotliBsdiff

  datatype InstallOperation = InstallOperation(
    opType: OpType,
    dataOffset: Option<nat>,
    dataLength: Option<nat>,
    srcExtents: seq<Extent>,
    dstExtents: seq<Extent>)

  datatype PartitionUpdate = PartitionUpdate(partitionName: string, operations: seq<InstallOperation>)

  datatype Manifest = Manifest(
    blockSize: Option<nat>,
    partitions: seq<PartitionUpdate>,
    signaturesOffset: Option<nat>,
    signaturesSize: Option<nat>)
}
