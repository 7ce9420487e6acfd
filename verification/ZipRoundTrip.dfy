/**
 Reading back an archive written as APPNOTE sections 4.3.12 and 4.3.16 prescribe. The reader recovers the
 entries whenever the true end record is the last place one could start, and an archive comment can break
 exactly that.
 */
module ZipRoundTrip {
  import opened ZipFormat
  import opened ZipReader
  import opened ZipExtract
  import opened ZipSelection
  import opened Wrappers

  /** What an importer needs to know about a file in the archive. */
  function EntryOf(h: Central): Entry {
    Entry(h.name, h.flags.Value(), h.compressionMethod.Value(), h.crc.Value(), h.compressedSize.Value(),
          h.uncompressedSize.Value(), h.localOffset.Value())
  }

  /** A size or offset that announces a ZIP64 field instead of being one. */
  predicate NeedsZip64(h: Central) {
    || h.compressedSize.Value() == 0xffff_ffff || h.uncompressedSize.Value() == 0xffff_ffff
    || h.localOffset.Value() == 0xffff_ffff
  }

  /** Consistent, and not using the values that announce a ZIP64 field. */
  predicate Plain(h: Central) {
    LengthsAgree(h) && !NeedsZip64(h)
  }

  function EncodeDirectory(hs: seq<Central>): seq<byte> {
    if hs == [] then [] else EncodeCentral(hs[0]) + EncodeDirectory(hs[1..])
  }

  /** The entries of the archive, in order and without directories. */
  function Files(hs: seq<Central>): seq<Entry> {
    if hs == [] then []
    else (if IsDirectory(hs[0].name) then [] else [EntryOf(hs[0])]) + Files(hs[1..])
  }

  function Archive(body: seq<byte>, hs: seq<Central>, end: End, comment: seq<byte>): seq<byte> {
    body + EncodeDirectory(hs) + EncodeEnd(end) + comment
  }

  /** Where the end record of `Archive` is. */
  function EndAt(body: seq<byte>, hs: seq<Central>): nat {
    |body| + |EncodeDirectory(hs)|
  }

  /** The end record of a single-volume archive describes the rest of it. */
  predicate Describes(end: End, body: seq<byte>, hs: seq<Central>, comment: seq<byte>) {
    && end.disk.Value() == 0 && end.directoryDisk.Value() == 0
    && end.entriesOnDisk.Value() == |hs| && end.entries.Value() == |hs|
    && end.size.Value() == |EncodeDirectory(hs)| && end.offset.Value() == |body|
    && end.commentLength.Value() == |comment|
  }

  /** A complete archive that keeps to the limits the reader sets. */
  predicate Proper(body: seq<byte>, hs: seq<Central>, end: End, comment: seq<byte>) {
    && Describes(end, body, hs, comment)
    && |hs| <= MAXIMUM_ENTRIES && |EncodeDirectory(hs)| <= MAXIMUM_DIRECTORY && |body| < U32_LIMIT - 1
    && forall h | h in hs :: Plain(h)
  }

  // ----- Parts of the archive

  /** `part` stands in `data` at `o`. */
  predicate At(data: seq<byte>, o: nat, part: seq<byte>) {
    o + |part| <= |data| && data[o..o + |part|] == part
  }

  lemma SameByte(data: seq<byte>, o: nat, part: seq<byte>, k: nat)
    requires At(data, o, part) && k < |part|
    ensures data[o + k] == part[k]
  {
    assert data[o..o + |part|][k] == data[o + k];
  }

  lemma Number16(data: seq<byte>, o: nat, part: seq<byte>, k: nat, w: Word16)
    requires At(data, o, part) && k + 2 <= |part| && part[k] == w.b0 && part[k + 1] == w.b1
    ensures ReadUInt16(data, o + k) == w.Value()
  {
    SameByte(data, o, part, k);
    SameByte(data, o, part, k + 1);
  }

  lemma Number32(data: seq<byte>, o: nat, part: seq<byte>, k: nat, w: Word32)
    requires At(data, o, part) && k + 4 <= |part|
    requires part[k] == w.b0 && part[k + 1] == w.b1 && part[k + 2] == w.b2 && part[k + 3] == w.b3
    ensures ReadUInt32(data, o + k) == w.Value()
  {
    SameByte(data, o, part, k);
    SameByte(data, o, part, k + 1);
    SameByte(data, o, part, k + 2);
    SameByte(data, o, part, k + 3);
  }

  lemma LowByte(a: byte, more: int, b: byte, others: int)
    requires (a as int) + 256 * more == (b as int) + 256 * others
    ensures a == b && more == others
  {
  }

  /** A number is read where its four bytes stand, and nowhere else. */
  lemma Spells(data: seq<byte>, o: nat, w: Word32)
    requires o + 4 <= |data|
    ensures ReadUInt32(data, o) == w.Value() <==> At(data, o, [w.b0, w.b1, w.b2, w.b3])
  {
    if At(data, o, [w.b0, w.b1, w.b2, w.b3]) {
      Number32(data, o, [w.b0, w.b1, w.b2, w.b3], 0, w);
    }
    if ReadUInt32(data, o) == w.Value() {
      var a1, b1 := data[o + 2] as int + 256 * (data[o + 3] as int), w.b2 as int + 256 * (w.b3 as int);
      var a0, b0 := data[o + 1] as int + 256 * a1, w.b1 as int + 256 * b1;
      LowByte(data[o], a0, w.b0, b0);
      LowByte(data[o + 1], a1, w.b1, b1);
      LowByte(data[o + 2], data[o + 3] as int, w.b2, w.b3 as int);
    }
  }

  // ----- One header

  lemma StartNumbers(data: seq<byte>, o: nat, h: Central)
    requires At(data, o, CentralStart(h))
    ensures ReadUInt32(data, o) == CENTRAL_SIGNATURE
    ensures ReadUInt16(data, o + 8) == h.flags.Value()
    ensures ReadUInt16(data, o + 10) == h.compressionMethod.Value()
  {
    var f := CentralStart(h);
    Number32(data, o, f, 0, Word32(0x50, 0x4b, 0x01, 0x02));
    Number16(data, o, f, 8, h.flags);
    Number16(data, o, f, 10, h.compressionMethod);
  }

  lemma SizeNumbers(data: seq<byte>, o: nat, h: Central)
    requires At(data, o, Sizes(h))
    ensures ReadUInt32(data, o) == h.crc.Value()
    ensures ReadUInt32(data, o + 4) == h.compressedSize.Value()
    ensures ReadUInt32(data, o + 8) == h.uncompressedSize.Value()
  {
    Number32(data, o, Sizes(h), 0, h.crc);
    Number32(data, o, Sizes(h), 4, h.compressedSize);
    Number32(data, o, Sizes(h), 8, h.uncompressedSize);
  }

  lemma RestNumbers(data: seq<byte>, o: nat, h: Central)
    requires At(data, o, CentralRest(h))
    ensures ReadUInt16(data, o) == h.nameLength.Value()
    ensures ReadUInt16(data, o + 2) == h.extraLength.Value()
    ensures ReadUInt16(data, o + 4) == h.commentLength.Value()
    ensures ReadUInt32(data, o + 14) == h.localOffset.Value()
  {
    var f := CentralRest(h);
    Number16(data, o, f, 0, h.nameLength);
    Number16(data, o, f, 2, h.extraLength);
    Number16(data, o, f, 4, h.commentLength);
    Number32(data, o, f, 14, h.localOffset);
  }

  /** Parts that stand one after the other. */
  lemma PartsInside(data: seq<byte>, o: nat, a: seq<byte>, b: seq<byte>, c: seq<byte>, d: seq<byte>, rest: seq<byte>)
    requires o <= |data| && data[o..] == a + b + c + d + rest
    ensures At(data, o, a) && At(data, o + |a|, b) && At(data, o + |a| + |b|, c)
    ensures At(data, o + |a| + |b| + |c|, d)
    ensures data[o + |a| + |b| + |c| + |d|..] == rest
  {
    var s := data[o..];
    assert s[..|a|] == a;
    assert s[|a|..|a| + |b|] == b;
    assert s[|a| + |b|..|a| + |b| + |c|] == c;
    assert s[|a| + |b| + |c|..|a| + |b| + |c| + |d|] == d;
    assert s[|a| + |b| + |c| + |d|..] == rest;
  }

  lemma HeaderInside(directory: seq<byte>, offset: nat, h: Central, rest: seq<byte>)
    requires offset <= |directory| && directory[offset..] == EncodeCentral(h) + rest
    ensures At(directory, offset, CentralStart(h)) && At(directory, offset + 16, Sizes(h))
    ensures At(directory, offset + 28, CentralRest(h)) && At(directory, offset + CENTRAL_SIZE, h.name)
    ensures var size := CENTRAL_SIZE + |h.name| + |h.extra| + |h.comment|;
      offset + size <= |directory| && directory[offset + size..] == rest
  {
    var a, b, c, more := CentralStart(h), Sizes(h), CentralRest(h), h.extra + h.comment + rest;
    assert directory[offset..] == a + b + c + h.name + more;
    PartsInside(directory, offset, a, b, c, h.name, more);
    assert more[|h.extra| + |h.comment|..] == rest;
  }

  /** The entry depends on these numbers and the name only. */
  lemma EntryFromNumbers(directory: seq<byte>, offset: nat, h: Central)
    requires offset + CENTRAL_SIZE + |h.name| + |h.extra| + |h.comment| <= |directory|
    requires At(directory, offset + CENTRAL_SIZE, h.name)
    requires ReadUInt32(directory, offset) == CENTRAL_SIGNATURE
    requires ReadUInt16(directory, offset + 8) == h.flags.Value()
    requires ReadUInt16(directory, offset + 10) == h.compressionMethod.Value()
    requires ReadUInt32(directory, offset + 16) == h.crc.Value()
    requires ReadUInt32(directory, offset + 20) == h.compressedSize.Value()
    requires ReadUInt32(directory, offset + 24) == h.uncompressedSize.Value()
    requires ReadUInt16(directory, offset + 28) == |h.name|
    requires ReadUInt16(directory, offset + 30) == |h.extra|
    requires ReadUInt16(directory, offset + 32) == |h.comment|
    requires ReadUInt32(directory, offset + 42) == h.localOffset.Value()
    ensures ReadEntry(directory, offset)
      == if NeedsZip64(h) then Err(Zip64Entry)
         else Ok((EntryOf(h), CENTRAL_SIZE + |h.name| + |h.extra| + |h.comment|))
  {
  }

  /** A header that agrees with itself is refused for ZIP64 values only, and read as it was written otherwise. */
  lemma HeaderVerdict(directory: seq<byte>, offset: nat, h: Central, rest: seq<byte>)
    requires LengthsAgree(h) && offset <= |directory| && directory[offset..] == EncodeCentral(h) + rest
    ensures ReadEntry(directory, offset)
      == if NeedsZip64(h) then Err(Zip64Entry)
         else Ok((EntryOf(h), CENTRAL_SIZE + |h.name| + |h.extra| + |h.comment|))
  {
    HeaderInside(directory, offset, h, rest);
    StartNumbers(directory, offset, h);
    SizeNumbers(directory, offset + 16, h);
    RestNumbers(directory, offset + 28, h);
    EntryFromNumbers(directory, offset, h);
  }

  /** Any bytes: what makes the reader give up on a header. */
  lemma HeaderRefused(directory: seq<byte>, offset: nat)
    ensures var r := ReadEntry(directory, offset);
      && (r == Err(InvalidEntry) <==>
            offset + 46 > |directory| || !At(directory, offset, [0x50, 0x4b, 0x01, 0x02]))
      && (r == Err(TruncatedEntry) <==>
            && offset + 46 <= |directory| && At(directory, offset, [0x50, 0x4b, 0x01, 0x02])
            && offset + 46 + ReadUInt16(directory, offset + 28) + ReadUInt16(directory, offset + 30)
               + ReadUInt16(directory, offset + 32) > |directory|)
      && (r.Err? ==> r.error in {InvalidEntry, TruncatedEntry, Zip64Entry})
  {
    if offset + 46 <= |directory| {
      Spells(directory, offset, Word32(0x50, 0x4b, 0x01, 0x02));
    }
  }

  /** Names of directories end in a separator. */
  lemma DirectoryNames(name: seq<byte>)
    ensures IsDirectory(name) <==> exists stem :: name == stem + [SLASH] || name == stem + [BACKSLASH]
  {
    if IsDirectory(name) {
      var stem := name[..|name| - 1];
      assert name == stem + [SLASH] || name == stem + [BACKSLASH];
    }
  }

  lemma HeaderReadBack(directory: seq<byte>, offset: nat, h: Central, rest: seq<byte>) returns (size: nat)
    requires Plain(h) && offset <= |directory| && directory[offset..] == EncodeCentral(h) + rest
    ensures ReadEntry(directory, offset) == Ok((EntryOf(h), size))
    ensures offset + size <= |directory| && directory[offset + size..] == rest
  {
    HeaderInside(directory, offset, h, rest);
    HeaderVerdict(directory, offset, h, rest);
    size := CENTRAL_SIZE + |h.name| + |h.extra| + |h.comment|;
  }

  // ----- The directory

  lemma FirstOf(directory: seq<byte>, offset: nat, count: nat, entry: Entry, size: nat)
    requires count > 0 && ReadEntry(directory, offset) == Ok((entry, size))
    ensures EntriesFrom(directory, offset, count)
      == Then(Listed(entry), EntriesFrom(directory, offset + size, count - 1))
  {
  }

  lemma FirstFile(hs: seq<Central>)
    requires hs != []
    ensures Files(hs) == Listed(EntryOf(hs[0])) + Files(hs[1..])
  {
  }

  lemma {:induction false} DirectoryReadBack(directory: seq<byte>, offset: nat, hs: seq<Central>)
    requires offset <= |directory| && directory[offset..] == EncodeDirectory(hs)
    requires forall h | h in hs :: Plain(h)
    ensures EntriesFrom(directory, offset, |hs|) == Ok(Files(hs))
    decreases hs
  {
    if hs != [] {
      assert Plain(hs[0]);
      FirstFile(hs);
      var size := HeaderReadBack(directory, offset, hs[0], EncodeDirectory(hs[1..]));
      DirectoryReadBack(directory, offset + size, hs[1..]);
      FirstOf(directory, offset, |hs|, EntryOf(hs[0]), size);
    }
  }

  // ----- The end record

  lemma EndNumbers(data: seq<byte>, o: nat, end: End)
    requires At(data, o, EndStart(end)) && At(data, o + 12, EndRest(end))
    ensures ReadUInt32(data, o) == END_SIGNATURE
    ensures ReadUInt16(data, o + 4) == end.disk.Value() && ReadUInt16(data, o + 6) == end.directoryDisk.Value()
    ensures ReadUInt16(data, o + 8) == end.entriesOnDisk.Value() && ReadUInt16(data, o + 10) == end.entries.Value()
    ensures ReadUInt32(data, o + 12) == end.size.Value() && ReadUInt32(data, o + 16) == end.offset.Value()
    ensures ReadUInt16(data, o + 20) == end.commentLength.Value()
  {
    var f, g := EndStart(end), EndRest(end);
    Number32(data, o, f, 0, Word32(0x50, 0x4b, 0x05, 0x06));
    Number16(data, o, f, 4, end.disk);
    Number16(data, o, f, 6, end.directoryDisk);
    Number16(data, o, f, 8, end.entriesOnDisk);
    Number16(data, o, f, 10, end.entries);
    Number32(data, o + 12, g, 0, end.size);
    Number32(data, o + 12, g, 4, end.offset);
    Number16(data, o + 12, g, 8, end.commentLength);
  }

  ghost predicate SingleVolume(end: End) {
    end.disk.Value() == 0 && end.directoryDisk.Value() == 0 && end.entriesOnDisk.Value() == end.entries.Value()
  }

  /** A number that announces a ZIP64 record. */
  ghost predicate NeedsZip64Record(end: End) {
    end.entries.Value() == 0xffff || end.size.Value() == 0xffff_ffff || end.offset.Value() == 0xffff_ffff
  }

  /** What the reader makes of any end record, in an archive of `size` bytes: what it breaks first, or its numbers. */
  lemma EndVerdict(data: seq<byte>, o: nat, end: End, size: nat)
    requires At(data, o, EncodeEnd(end))
    ensures var r, count := Judge(data, o, size), end.entries.Value();
      var length, offset := end.size.Value(), end.offset.Value();
      && (r == Err(MultiVolume) <==> !SingleVolume(end))
      && (SingleVolume(end) ==> (r == Err(Zip64) <==> NeedsZip64Record(end)))
      && (SingleVolume(end) && !NeedsZip64Record(end) ==>
            && (r == Err(TooManyEntries) <==> count > 10_000)
            && (r == Err(DirectoryTooLarge) <==> count <= 10_000 && length > 33_554_432)
            && (r == Err(DirectoryCorrupt) <==> count <= 10_000 && length <= 33_554_432 && size < offset + length)
            && (r.Ok? <==> count <= 10_000 && length <= 33_554_432 && offset + length <= size))
      && (r.Ok? ==> r.value == EndRecord(count, length, offset))
  {
    assert At(data, o, EndStart(end)) && At(data, o + 12, EndRest(end)) by {
      assert EncodeEnd(end) == EndStart(end) + EndRest(end);
      assert data[o..o + 12] == EncodeEnd(end)[..12] && data[o + 12..o + 22] == EncodeEnd(end)[12..];
    }
    EndNumbers(data, o, end);
  }

  /** Wherever the signature and 18 more bytes stand, an end record does. */
  lemma EveryRecordIsEncoded(data: seq<byte>, o: nat) returns (end: End)
    requires o + END_SIZE <= |data| && ReadUInt32(data, o) == END_SIGNATURE
    ensures At(data, o, EncodeEnd(end))
  {
    end := End(
      Word16(data[o + 4], data[o + 5]), Word16(data[o + 6], data[o + 7]), Word16(data[o + 8], data[o + 9]),
      Word16(data[o + 10], data[o + 11]), Word32(data[o + 12], data[o + 13], data[o + 14], data[o + 15]),
      Word32(data[o + 16], data[o + 17], data[o + 18], data[o + 19]), Word16(data[o + 20], data[o + 21]));
    Spells(data, o, Word32(0x50, 0x4b, 0x05, 0x06));
    assert data[o..o + 22] == EncodeEnd(end);
  }

  /** What the reader makes of an end record it finds at `o`. */
  lemma EndReadBack(data: seq<byte>, o: nat, end: End, comment: seq<byte>)
    requires o <= |data| && data[o..] == EncodeEnd(end) + comment && end.commentLength.Value() == |comment|
    requires end.disk.Value() == 0 && end.directoryDisk.Value() == 0
    requires end.entriesOnDisk.Value() == end.entries.Value()
    requires end.entries.Value() <= MAXIMUM_ENTRIES && end.size.Value() <= MAXIMUM_DIRECTORY
    requires end.offset.Value() < U32_LIMIT - 1 && end.offset.Value() + end.size.Value() <= |data|
    ensures Candidate(data, o)
    ensures Judge(data, o, |data|) == Ok(EndRecord(end.entries.Value(), end.size.Value(), end.offset.Value()))
  {
    var f, g, nothing: seq<byte> := EndStart(end), EndRest(end), [];
    assert EncodeEnd(end) + comment == f + g + nothing + nothing + comment;
    PartsInside(data, o, f, g, nothing, nothing, comment);
    EndNumbers(data, o, end);
  }

  lemma Around(body: seq<byte>, directory: seq<byte>, end: seq<byte>, comment: seq<byte>)
    ensures var archive := body + directory + end + comment;
      && archive[|body|..|body| + |directory|] == directory
      && archive[|body| + |directory|..] == end + comment
  {
    var archive := body + directory + end + comment;
    assert archive == body + (directory + (end + comment));
    assert archive[|body|..][..|directory|] == directory;
    assert archive == (body + directory) + (end + comment);
  }

  lemma TrueRecord(body: seq<byte>, hs: seq<Central>, end: End, comment: seq<byte>)
    requires Proper(body, hs, end, comment)
    ensures var archive := Archive(body, hs, end, comment);
      && Candidate(archive, EndAt(body, hs))
      && Judge(archive, EndAt(body, hs), |archive|) == Ok(EndRecord(|hs|, |EncodeDirectory(hs)|, |body|))
      && Directory(archive, EndRecord(|hs|, |EncodeDirectory(hs)|, |body|)) == EncodeDirectory(hs)
  {
    var directory, archive := EncodeDirectory(hs), Archive(body, hs, end, comment);
    Around(body, directory, EncodeEnd(end), comment);
    EndReadBack(archive, EndAt(body, hs), end, comment);
  }

  /** Judged at its own end record, a proper archive gives back exactly its files. */
  lemma TrueRecordReadBack(body: seq<byte>, hs: seq<Central>, end: End, comment: seq<byte>)
    requires Proper(body, hs, end, comment)
    ensures Candidate(Archive(body, hs, end, comment), EndAt(body, hs))
    ensures EntriesAt(Archive(body, hs, end, comment), EndAt(body, hs)) == Ok(Files(hs))
  {
    TrueRecord(body, hs, end, comment);
    var directory := EncodeDirectory(hs);
    EntriesOfRecord(Archive(body, hs, end, comment), EndAt(body, hs), EndRecord(|hs|, |directory|, |body|));
    assert directory[0..] == directory;
    DirectoryReadBack(directory, 0, hs);
  }

  /** No place after the true end record passes for one. */
  ghost predicate Unambiguous(archive: seq<byte>, end: nat) {
    forall p: nat | p > end :: !Candidate(archive, p)
  }

  /** The smallest proper archive has no file, no directory and no comment; it is not ambiguous. */
  lemma SmallestArchive(end: End)
    requires OfNothing(end)
    ensures Proper([], [], end, []) && Unambiguous(Archive([], [], end, []), EndAt([], []))
  {
    assert |Archive([], [], end, [])| == END_SIZE;
  }

  /** readEntries on an encoded archive: the scan stops at the true record iff nothing later looks like one. */
  method ReadEncoded(body: seq<byte>, hs: seq<Central>, end: End, comment: seq<byte>)
    returns (r: Result<seq<Entry>>, ghost at: nat)
    requires Proper(body, hs, end, comment)
    ensures EndAt(body, hs) <= at && at + END_SIZE <= |Archive(body, hs, end, comment)|
    ensures at == EndAt(body, hs) <==> Unambiguous(Archive(body, hs, end, comment), EndAt(body, hs))
    ensures Unambiguous(Archive(body, hs, end, comment), EndAt(body, hs)) ==> r == Ok(Files(hs))
    ensures r == EntriesAt(Archive(body, hs, end, comment), at)
  {
    TrueRecordReadBack(body, hs, end, comment);
    r, at := ReadEntries(Archive(body, hs, end, comment));
  }

  /** What decides whether an archive is ambiguous: its end record and its comment, nothing before them. */
  lemma TailDecides(body: seq<byte>, hs: seq<Central>, end: End, comment: seq<byte>)
    ensures Unambiguous(Archive(body, hs, end, comment), EndAt(body, hs))
      <==> forall k: nat | k > 0 :: !Candidate(EncodeEnd(end) + comment, k)
  {
    var archive, tail, at := Archive(body, hs, end, comment), EncodeEnd(end) + comment, EndAt(body, hs);
    Around(body, EncodeDirectory(hs), EncodeEnd(end), comment);
    forall k: nat ensures Candidate(archive, at + k) <==> Candidate(tail, k) {
      SameInTail(archive, tail, at, k);
    }
    if Unambiguous(archive, at) {
      forall k: nat | k > 0 ensures !Candidate(tail, k) {
        assert !Candidate(archive, at + k);
      }
    }
    if forall k: nat | k > 0 :: !Candidate(tail, k) {
      forall p: nat | p > at ensures !Candidate(archive, p) {
        assert !Candidate(tail, p - at);
        assert at + (p - at) == p;
      }
    }
  }

  lemma SameInTail(archive: seq<byte>, tail: seq<byte>, at: nat, k: nat)
    requires at <= |archive| && archive[at..] == tail
    ensures Candidate(archive, at + k) <==> Candidate(tail, k)
  {
    assert forall i | 0 <= i < |tail| :: tail[i] == archive[at + i];
    if k + END_SIZE <= |tail| {
      assert ReadUInt32(archive, at + k) == ReadUInt32(tail, k);
      assert ReadUInt16(archive, at + k + 20) == ReadUInt16(tail, k + 20);
    }
  }

  /** Where the signature occurs nowhere after the first byte of end record and comment, there is no ambiguity. */
  lemma NoSignatureNoAmbiguity(body: seq<byte>, hs: seq<Central>, end: End, comment: seq<byte>)
    requires var tail := EncodeEnd(end) + comment;
      forall k: nat | 0 < k && k + 4 <= |tail| :: ReadUInt32(tail, k) != END_SIGNATURE
    ensures Unambiguous(Archive(body, hs, end, comment), EndAt(body, hs))
  {
    var tail := EncodeEnd(end) + comment;
    forall k: nat | k > 0 ensures !Candidate(tail, k) {
      if k + END_SIZE <= |tail| {
        assert ReadUInt32(tail, k) != END_SIGNATURE;
      }
    }
    TailDecides(body, hs, end, comment);
  }

  const ZEROS: seq<byte> := [0, 0, 0, 0, 0, 0, 0, 0, 0, 0, 0, 0, 0, 0, 0, 0]

  /**
   A comment without the signature is not enough. Where the directory starts at 0x06054b50, the offset stored in
   the end record is the signature, and with sixteen zeros as the comment that place passes for a record.
   */
  lemma MisleadingOffset(body: seq<byte>, end: End)
    requires |body| == END_SIGNATURE && Describes(end, body, [], ZEROS)
    ensures Proper(body, [], end, ZEROS)
    ensures forall k: nat | k + 4 <= |ZEROS| :: ReadUInt32(ZEROS, k) != END_SIGNATURE
    ensures Candidate(Archive(body, [], end, ZEROS), EndAt(body, []) + 16)
    ensures !Unambiguous(Archive(body, [], end, ZEROS), EndAt(body, []))
  {
    var tail := EncodeEnd(end) + ZEROS;
    OffsetSpellsSignature(tail, end);
    Around(body, EncodeDirectory([]), EncodeEnd(end), ZEROS);
    SameInTail(Archive(body, [], end, ZEROS), tail, EndAt(body, []), 16);
  }

  lemma OffsetSpellsSignature(tail: seq<byte>, end: End)
    requires tail == EncodeEnd(end) + ZEROS && end.offset.Value() == END_SIGNATURE
    ensures Candidate(tail, 16)
  {
    assert tail[..12] == EndStart(end) && tail[12..22] == EndRest(end);
    EndNumbers(tail, 0, end);
    assert tail[36] == ZEROS[14] == 0 && tail[37] == ZEROS[15] == 0;
  }

  /** The end record of an archive with nothing in it. */
  predicate OfNothing(end: End) {
    && end.disk.Value() == 0 && end.directoryDisk.Value() == 0 && end.entriesOnDisk.Value() == 0
    && end.entries.Value() == 0 && end.size.Value() == 0 && end.offset.Value() == 0 && end.commentLength.Value() == 0
  }

  /**
   The reader can be misled: whatever the archive holds, with the 22 bytes of an empty archive as its
   comment it reads as having no entries at all.
   */
  lemma MisleadingComment(body: seq<byte>, hs: seq<Central>, end: End, empty: End)
    requires OfNothing(empty)
    ensures LastCandidate(Archive(body, hs, end, EncodeEnd(empty)), EndAt(body, hs) + END_SIZE)
    ensures EntriesAt(Archive(body, hs, end, EncodeEnd(empty)), EndAt(body, hs) + END_SIZE) == Ok([])
  {
    var archive, at := Archive(body, hs, end, EncodeEnd(empty)), EndAt(body, hs) + END_SIZE;
    var nothing: seq<byte> := [];
    assert archive[at..] == EncodeEnd(empty) + nothing;
    EndReadBack(archive, at, empty, nothing);
  }

  // ----- The data of one entry

  /** Section 4.3.7: a local header for the same file, followed by its data. */
  function LocalFile(h: Central, extra: seq<byte>, extraLength: Word16, payload: seq<byte>): seq<byte> {
    LocalStart(h) + Sizes(h) + LocalRest(h, extraLength) + h.name + extra + payload
  }

  lemma LocalNumbers(data: seq<byte>, o: nat, h: Central, extraLength: Word16)
    requires At(data, o, LocalStart(h)) && At(data, o + 26, LocalRest(h, extraLength))
    ensures ReadUInt32(data, o) == LOCAL_SIGNATURE
    ensures ReadUInt16(data, o + 6) == h.flags.Value() && ReadUInt16(data, o + 8) == h.compressionMethod.Value()
    ensures ReadUInt16(data, o + 26) == h.nameLength.Value() && ReadUInt16(data, o + 28) == extraLength.Value()
  {
    var f, g := LocalStart(h), LocalRest(h, extraLength);
    Number32(data, o, f, 0, Word32(0x50, 0x4b, 0x03, 0x04));
    Number16(data, o, f, 6, h.flags);
    Number16(data, o, f, 8, h.compressionMethod);
    Number16(data, o + 26, g, 0, h.nameLength);
    Number16(data, o + 26, g, 2, extraLength);
  }

  lemma LocalInside(
    before: seq<byte>, h: Central, extra: seq<byte>, extraLength: Word16, payload: seq<byte>, after: seq<byte>)
    ensures var archive, o := before + LocalFile(h, extra, extraLength, payload) + after, |before|;
      && At(archive, o, LocalStart(h)) && At(archive, o + 26, LocalRest(h, extraLength))
      && At(archive, o + 30 + |h.name| + |extra|, payload)
  {
    var archive, o := before + LocalFile(h, extra, extraLength, payload) + after, |before|;
    var a, b, c, d := LocalStart(h), Sizes(h), LocalRest(h, extraLength), h.name + extra;
    assert archive == before + (a + b + c + d + (payload + after));
    assert archive[o..] == a + b + c + d + (payload + after);
    PartsInside(archive, o, a, b, c, d, payload + after);
    var rest := o + 30 + |d|;
    assert archive[rest..][..|payload|] == payload;
  }

  /** The two bits that stand for encryption, wherever the others are. */
  lemma EncryptionBits(bit0: nat, others: nat, bit6: nat, high: nat)
    requires bit0 < 2 && others < 32 && bit6 < 2
    ensures IsEncrypted(bit0 + 2 * others + 64 * bit6 + 128 * high) <==> bit0 == 1 || bit6 == 1
  {
    var flags := bit0 + 2 * others + 64 * bit6 + 128 * high;
    assert flags == 2 * (others + 32 * bit6 + 64 * high) + bit0;
    assert flags == 64 * (bit6 + 2 * high) + (bit0 + 2 * others);
    assert flags / 64 == 2 * high + bit6;
  }

  /** Any bytes: when the data of an entry is found, and the first thing that is wrong otherwise. */
  lemma LocateVerdict(archive: seq<byte>, entry: Entry)
    ensures var r, o := Locate(archive, entry), entry.localHeaderOffset;
      var readable := !IsEncrypted(entry.flags) && entry.compressionMethod in {0, 8};
      var present := o + 30 <= |archive| && At(archive, o, [0x50, 0x4b, 0x03, 0x04]);
      && (r == Failed(Encrypted) <==> IsEncrypted(entry.flags))
      && (r == Failed(UnsupportedMethod) <==> !IsEncrypted(entry.flags) && entry.compressionMethod !in {0, 8})
      && (r == Failed(InvalidLocalHeader) <==> readable && !present)
      && (r == Failed(InconsistentHeaders) <==>
            && readable && present
            && !(ReadUInt16(archive, o + 6) == entry.flags && ReadUInt16(archive, o + 8) == entry.compressionMethod))
      && (r.Done? <==>
            && readable && present
            && ReadUInt16(archive, o + 6) == entry.flags && ReadUInt16(archive, o + 8) == entry.compressionMethod
            && o + 30 + ReadUInt16(archive, o + 26) + ReadUInt16(archive, o + 28) + entry.compressedSize <= |archive|)
      && (r.Failed? ==>
            r.failure in {Encrypted, UnsupportedMethod, InvalidLocalHeader, InconsistentHeaders, Truncated})
  {
    if entry.localHeaderOffset + 30 <= |archive| {
      Spells(archive, entry.localHeaderOffset, Word32(0x50, 0x4b, 0x03, 0x04));
    }
  }

  /** What `before`, the archive up to the file, and the header must say for the file to be readable. */
  predicate ProperFile(before: seq<byte>, h: Central, extra: seq<byte>, extraLength: Word16, payload: seq<byte>) {
    && LengthsAgree(h) && extraLength.Value() == |extra| && h.localOffset.Value() == |before|
    && h.compressedSize.Value() == |payload| && !IsEncrypted(h.flags.Value())
    && (h.compressionMethod.Value() == 0 || h.compressionMethod.Value() == 8)
  }

  /** The numbers of a local header that agree with the entry lead to what lies behind name and extra field. */
  lemma LocatedIf(archive: seq<byte>, entry: Entry, name: nat, extra: nat, payload: seq<byte>)
    requires !IsEncrypted(entry.flags) && (entry.compressionMethod == 0 || entry.compressionMethod == 8)
    requires At(archive, entry.localHeaderOffset + LOCAL_SIZE + name + extra, payload)
    requires entry.compressedSize == |payload|
    requires ReadUInt32(archive, entry.localHeaderOffset) == LOCAL_SIGNATURE
    requires ReadUInt16(archive, entry.localHeaderOffset + 6) == entry.flags
    requires ReadUInt16(archive, entry.localHeaderOffset + 8) == entry.compressionMethod
    requires ReadUInt16(archive, entry.localHeaderOffset + 26) == name
    requires ReadUInt16(archive, entry.localHeaderOffset + 28) == extra
    ensures Locate(archive, entry).Done? && Payload(archive, entry) == payload
  {
    assert DataStart(archive, entry) == entry.localHeaderOffset + LOCAL_SIZE + name + extra;
  }

  /** The payload of an encoded file is found wherever the file stands and whatever follows it. */
  lemma FileLocated(
    before: seq<byte>, h: Central, extra: seq<byte>, extraLength: Word16, payload: seq<byte>, after: seq<byte>)
    requires ProperFile(before, h, extra, extraLength, payload)
    ensures var archive := before + LocalFile(h, extra, extraLength, payload) + after;
      Locate(archive, EntryOf(h)).Done? && Payload(archive, EntryOf(h)) == payload
  {
    var archive := before + LocalFile(h, extra, extraLength, payload) + after;
    LocalInside(before, h, extra, extraLength, payload, after);
    LocalNumbers(archive, |before|, h, extraLength);
    LocatedIf(archive, EntryOf(h), |h.name|, |extra|, payload);
  }

  /** Extracting an encoded file gives back its contents, stored or deflated. */
  method ExtractEncoded<S(!new)>(
    before: seq<byte>, h: Central, extra: seq<byte>, extraLength: Word16, payload: seq<byte>, after: seq<byte>,
    m: Inflater<S>, ghost history: History<S>, ghost data: seq<byte>)
    returns (r: Outcome, output: seq<byte>)
    requires ProperFile(before, h, extra, extraLength, payload) && Behaves(m, history)
    requires if h.compressionMethod.Value() == 0 then payload == data else Completes(m, history, payload, data)
    requires Intact(data, EntryOf(h)) && |data| <= MAXIMUM_EXTRACTED
    ensures r == Done && output == data
  {
    FileLocated(before, h, extra, extraLength, payload, after);
    var archive := before + LocalFile(h, extra, extraLength, payload) + after;
    r, output := ExtractEntry(archive, EntryOf(h), m, history, _ => None, data);
  }

  // ----- End to end

  /** Around the file lies the rest of the archive. */
  lemma FileInArchive(
    before: seq<byte>, file: seq<byte>, after: seq<byte>, hs: seq<Central>, end: End, comment: seq<byte>)
    ensures Archive(before + file + after, hs, end, comment)
      == before + file + (after + EncodeDirectory(hs) + EncodeEnd(end) + comment)
  {
  }

  /**
   The whole way: an unambiguous archive whose directory designates the file resolves to the very bytes that
   were put into it.
   */
  method ResolveEncoded<S(!new)>(
    before: seq<byte>, h: Central, extra: seq<byte>, extraLength: Word16, payload: seq<byte>, after: seq<byte>,
    hs: seq<Central>, end: End, comment: seq<byte>, expected: seq<byte>, ghost k: nat,
    m: Inflater<S>, ghost history: History<S>, ghost data: seq<byte>)
    returns (r: Resolution)
    requires Behaves(m, history) && ProperFile(before, h, extra, extraLength, payload)
    requires Proper(before + LocalFile(h, extra, extraLength, payload) + after, hs, end, comment)
    requires Unambiguous(
               Archive(before + LocalFile(h, extra, extraLength, payload) + after, hs, end, comment),
               EndAt(before + LocalFile(h, extra, extraLength, payload) + after, hs))
    requires IsChoice(Files(hs), expected, k) && Files(hs)[k] == EntryOf(h)
    requires if h.compressionMethod.Value() == 0 then payload == data else Completes(m, history, payload, data)
    requires Intact(data, EntryOf(h))
    ensures r == Resolved(data)
  {
    var file := LocalFile(h, extra, extraLength, payload);
    var body := before + file + after;
    FileLocated(before, h, extra, extraLength, payload, after + EncodeDirectory(hs) + EncodeEnd(end) + comment);
    FileInArchive(before, file, after, hs, end, comment);
    TrueRecordReadBack(body, hs, end, comment);
    assert Designates(Archive(body, hs, end, comment), expected, EndAt(body, hs), k);
    r := Resolve(Archive(body, hs, end, comment), expected, m, history, _ => None, data);
  }
}
