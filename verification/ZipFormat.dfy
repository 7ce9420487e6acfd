/**
 The parts of the ZIP format the reader relies on, written out from PKWARE APPNOTE.TXT: little-endian
 numbers, the local file header (section 4.3.7), the central directory header (section 4.3.12) and the end
 of central directory record (section 4.3.16).
 */
module ZipFormat {
  import opened Wrappers

  const LOCAL_SIGNATURE := 0x04034b50
  const CENTRAL_SIGNATURE := 0x02014b50
  const END_SIGNATURE := 0x06054b50

  const U16_LIMIT := 0x1_0000
  const U32_LIMIT := 0x1_0000_0000

  // ----- Numbers

  function ReadUInt16(data: seq<byte>, offset: nat): (r: nat)
    requires offset + 2 <= |data|
    ensures r < U16_LIMIT
  {
    (data[offset] as int) + 256 * (data[offset + 1] as int)
  }

  function ReadUInt32(data: seq<byte>, offset: nat): (r: nat)
    requires offset + 4 <= |data|
    ensures r < U32_LIMIT
  {
    (data[offset] as int) + 256 * (data[offset + 1] as int)
      + 0x1_0000 * (data[offset + 2] as int) + 0x100_0000 * (data[offset + 3] as int)
  }

  /** A two-byte number as it is stored, least significant byte first. */
  datatype Word16 = Word16(b0: byte, b1: byte)
  {
    function Value(): (r: nat)
      ensures r < U16_LIMIT
    {
      (b0 as int) + 256 * (b1 as int)
    }
  }

  datatype Word32 = Word32(b0: byte, b1: byte, b2: byte, b3: byte)
  {
    function Value(): (r: nat)
      ensures r < U32_LIMIT
    {
      (b0 as int) + 256 * (b1 as int) + 0x1_0000 * (b2 as int) + 0x100_0000 * (b3 as int)
    }
  }

  // ----- Headers

  /** A central directory header with its variable fields. */
  datatype Central = Central(
    madeBy: Word16, needed: Word16, flags: Word16, compressionMethod: Word16, time: Word16, date: Word16,
    crc: Word32, compressedSize: Word32, uncompressedSize: Word32,
    nameLength: Word16, extraLength: Word16, commentLength: Word16,
    disk: Word16, internalAttributes: Word16, externalAttributes: Word32, localOffset: Word32,
    name: seq<byte>, extra: seq<byte>, comment: seq<byte>)

  /** The stored lengths are those of the variable fields. */
  predicate LengthsAgree(h: Central) {
    && h.nameLength.Value() == |h.name| && h.extraLength.Value() == |h.extra|
    && h.commentLength.Value() == |h.comment|
  }

  /** Section 4.3.12: the 46 bytes before the file name, in three parts. */
  function CentralStart(h: Central): (r: seq<byte>)
    ensures |r| == 16
  {
    [0x50, 0x4b, 0x01, 0x02,
     h.madeBy.b0, h.madeBy.b1, h.needed.b0, h.needed.b1, h.flags.b0, h.flags.b1,
     h.compressionMethod.b0, h.compressionMethod.b1, h.time.b0, h.time.b1, h.date.b0, h.date.b1]
  }

  function Sizes(h: Central): (r: seq<byte>)
    ensures |r| == 12
  {
    [h.crc.b0, h.crc.b1, h.crc.b2, h.crc.b3,
     h.compressedSize.b0, h.compressedSize.b1, h.compressedSize.b2, h.compressedSize.b3,
     h.uncompressedSize.b0, h.uncompressedSize.b1, h.uncompressedSize.b2, h.uncompressedSize.b3]
  }

  function CentralRest(h: Central): (r: seq<byte>)
    ensures |r| == 18
  {
    [h.nameLength.b0, h.nameLength.b1, h.extraLength.b0, h.extraLength.b1, h.commentLength.b0, h.commentLength.b1,
     h.disk.b0, h.disk.b1, h.internalAttributes.b0, h.internalAttributes.b1,
     h.externalAttributes.b0, h.externalAttributes.b1, h.externalAttributes.b2, h.externalAttributes.b3,
     h.localOffset.b0, h.localOffset.b1, h.localOffset.b2, h.localOffset.b3]
  }

  function EncodeCentral(h: Central): seq<byte> {
    CentralStart(h) + Sizes(h) + CentralRest(h) + h.name + h.extra + h.comment
  }

  /** Section 4.3.7: the 30 bytes before the file name; the extra field may differ from the central one. */
  function LocalStart(h: Central): (r: seq<byte>)
    ensures |r| == 14
  {
    [0x50, 0x4b, 0x03, 0x04, h.needed.b0, h.needed.b1, h.flags.b0, h.flags.b1,
     h.compressionMethod.b0, h.compressionMethod.b1, h.time.b0, h.time.b1, h.date.b0, h.date.b1]
  }

  function LocalRest(h: Central, extraLength: Word16): (r: seq<byte>)
    ensures |r| == 4
  {
    [h.nameLength.b0, h.nameLength.b1, extraLength.b0, extraLength.b1]
  }

  datatype End = End(
    disk: Word16, directoryDisk: Word16, entriesOnDisk: Word16, entries: Word16,
    size: Word32, offset: Word32, commentLength: Word16)

  /** Section 4.3.16: the 22 bytes before the archive comment, in two parts. */
  function EndStart(e: End): (r: seq<byte>)
    ensures |r| == 12
  {
    [0x50, 0x4b, 0x05, 0x06,
     e.disk.b0, e.disk.b1, e.directoryDisk.b0, e.directoryDisk.b1,
     e.entriesOnDisk.b0, e.entriesOnDisk.b1, e.entries.b0, e.entries.b1]
  }

  function EndRest(e: End): (r: seq<byte>)
    ensures |r| == 10
  {
    [e.size.b0, e.size.b1, e.size.b2, e.size.b3, e.offset.b0, e.offset.b1, e.offset.b2, e.offset.b3,
     e.commentLength.b0, e.commentLength.b1]
  }

  function EncodeEnd(e: End): (r: seq<byte>)
    ensures |r| == 22
  {
    EndStart(e) + EndRest(e)
  }
}
