/**
 Finding the end record and walking the central directory of a ZIP archive, for arbitrary bytes, and the
 round trip against the encoding of APPNOTE sections 4.3.12 and 4.3.16.
 */
module ZipReader {
  import opened Wrappers
  import opened ZipFormat

  const END_SIZE := 22
  const MAXIMUM_COMMENT := 65535
  const CENTRAL_SIZE := 46
  const MAXIMUM_DIRECTORY := 32 * 1024 * 1024
  const MAXIMUM_ENTRIES := 10000

  datatype Error =
    | NotAZip
    | MultiVolume
    | Zip64
    | TooManyEntries
    | DirectoryTooLarge
    | DirectoryCorrupt
    | InvalidEntry
    | TruncatedEntry
    | Zip64Entry

  datatype Result<+T> = Ok(value: T) | Err(error: Error)

  datatype EndRecord = EndRecord(entryCount: nat, directorySize: nat, directoryOffset: nat)

  datatype Entry = Entry(
    fileName: seq<byte>, flags: nat, compressionMethod: nat, crc: nat,
    compressedSize: nat, uncompressedSize: nat, localHeaderOffset: nat)

  // ----- The end record

  /** An end record could start at `o`: the signature is there, and its comment reaches the end of the file. */
  predicate Candidate(data: seq<byte>, o: nat) {
    && o + END_SIZE <= |data|
    && ReadUInt32(data, o) == END_SIGNATURE
    && o + END_SIZE + ReadUInt16(data, o + 20) == |data|
  }

  ghost predicate HasCandidate(data: seq<byte>) {
    exists o: nat :: Candidate(data, o)
  }

  ghost predicate LastCandidate(data: seq<byte>, o: nat) {
    Candidate(data, o) && forall p: nat | p > o :: !Candidate(data, p)
  }

  /** What the reader makes of the record at `o` of an archive of `size` bytes. */
  function Judge(data: seq<byte>, o: nat, size: nat): Result<EndRecord>
    requires o + END_SIZE <= |data|
  {
    var count, length, offset := ReadUInt16(data, o + 10), ReadUInt32(data, o + 12), ReadUInt32(data, o + 16);
    if ReadUInt16(data, o + 4) != 0 || ReadUInt16(data, o + 6) != 0 || ReadUInt16(data, o + 8) != count then
      Err(MultiVolume)
    else if count == U16_LIMIT - 1 || length == U32_LIMIT - 1 || offset == U32_LIMIT - 1 then Err(Zip64)
    else if count > MAXIMUM_ENTRIES then Err(TooManyEntries)
    else if length > MAXIMUM_DIRECTORY then Err(DirectoryTooLarge)
    else if offset + length > size then Err(DirectoryCorrupt)
    else Ok(EndRecord(count, length, offset))
  }

  /**
   The reader searches only as much of the end of the file as a record with the longest comment can fill;
   `tail` is that part.
   */
  function Tail(archive: seq<byte>): seq<byte> {
    if |archive| <= END_SIZE + MAXIMUM_COMMENT then archive else archive[|archive| - (END_SIZE + MAXIMUM_COMMENT)..]
  }

  /** Looking at the tail finds the same records as looking at the whole file would. */
  lemma TailSeesAll(archive: seq<byte>, o: nat)
    ensures var skipped := |archive| - |Tail(archive)|;
      && (Candidate(Tail(archive), o) <==> Candidate(archive, o + skipped))
      && (Candidate(archive, o) ==> o >= skipped)
  {
  }

  lemma JudgeOfTail(archive: seq<byte>, o: nat)
    requires o + END_SIZE <= |Tail(archive)|
    ensures Judge(archive, o + |archive| - |Tail(archive)|, |archive|) == Judge(Tail(archive), o, |archive|)
  {
    var tail, at := Tail(archive), o + |archive| - |Tail(archive)|;
    assert ReadUInt16(archive, at + 4) == ReadUInt16(tail, o + 4);
    assert ReadUInt16(archive, at + 6) == ReadUInt16(tail, o + 6);
    assert ReadUInt16(archive, at + 8) == ReadUInt16(tail, o + 8);
    assert ReadUInt16(archive, at + 10) == ReadUInt16(tail, o + 10);
    assert ReadUInt32(archive, at + 12) == ReadUInt32(tail, o + 12);
    assert ReadUInt32(archive, at + 16) == ReadUInt32(tail, o + 16);
  }

  /** The last record of the tail is the last one of the file, and says the same there. */
  lemma LastOfTail(archive: seq<byte>, o: nat)
    requires LastCandidate(Tail(archive), o)
    ensures var at := o + |archive| - |Tail(archive)|;
      && LastCandidate(archive, at) && Judge(archive, at, |archive|) == Judge(Tail(archive), o, |archive|)
  {
    var skipped := |archive| - |Tail(archive)|;
    TailSeesAll(archive, o);
    forall p: nat | p > o + skipped ensures !Candidate(archive, p) {
      TailSeesAll(archive, p - skipped);
      assert !Candidate(Tail(archive), p - skipped);
    }
    JudgeOfTail(archive, o);
  }

  lemma NoneInTail(archive: seq<byte>)
    requires !HasCandidate(Tail(archive))
    ensures !HasCandidate(archive)
  {
    var skipped := |archive| - |Tail(archive)|;
    forall o: nat ensures !Candidate(archive, o) {
      TailSeesAll(archive, o);
      if o >= skipped {
        TailSeesAll(archive, o - skipped);
        assert !Candidate(Tail(archive), o - skipped);
      }
    }
  }

  /** The search itself: backwards from the last place a record fits. */
  method ScanBackwards(tail: seq<byte>) returns (found: bool, at: nat)
    ensures found ==> LastCandidate(tail, at)
    ensures found <==> HasCandidate(tail)
  {
    var offset: int := |tail| - END_SIZE;
    while offset >= 0
      invariant offset <= |tail| - END_SIZE
      invariant forall p: nat | p > offset :: !Candidate(tail, p)
    {
      if Candidate(tail, offset) {
        return true, offset;
      }
      offset := offset - 1;
    }
    found, at := false, 0;
  }

  /** findEndOfCentralDirectory. */
  method FindEnd(archive: seq<byte>) returns (r: Result<EndRecord>, ghost at: nat)
    ensures r == Err(NotAZip) <==> !HasCandidate(archive)
    ensures HasCandidate(archive) ==> LastCandidate(archive, at) && r == Judge(archive, at, |archive|)
  {
    var tail := Tail(archive);
    var found, offset := ScanBackwards(tail);
    at := offset + |archive| - |tail|;
    if !found {
      NoneInTail(archive);
      return Err(NotAZip), at;
    }
    LastOfTail(archive, offset);
    r := Judge(tail, offset, |archive|);
  }

  // ----- The directory

  predicate IsDirectory(name: seq<byte>) {
    |name| > 0 && (name[|name| - 1] == 0x2f || name[|name| - 1] == 0x5c)
  }

  /** One header at `offset`: the entry and the size of the header, or why it is refused. */
  function ReadEntry(directory: seq<byte>, offset: nat): Result<(Entry, nat)> {
    if offset + CENTRAL_SIZE > |directory| || ReadUInt32(directory, offset) != CENTRAL_SIGNATURE then Err(InvalidEntry)
    else
      var nameLength := ReadUInt16(directory, offset + 28);
      var size := CENTRAL_SIZE + nameLength + ReadUInt16(directory, offset + 30) + ReadUInt16(directory, offset + 32);
      if offset + size > |directory| then Err(TruncatedEntry)
      else
        var entry := Entry(
          directory[offset + CENTRAL_SIZE..offset + CENTRAL_SIZE + nameLength],
          ReadUInt16(directory, offset + 8), ReadUInt16(directory, offset + 10), ReadUInt32(directory, offset + 16),
          ReadUInt32(directory, offset + 20), ReadUInt32(directory, offset + 24), ReadUInt32(directory, offset + 42));
        if entry.compressedSize == U32_LIMIT - 1 || entry.uncompressedSize == U32_LIMIT - 1
           || entry.localHeaderOffset == U32_LIMIT - 1
        then Err(Zip64Entry)
        else Ok((entry, size))
  }

  /** `count` headers from `offset` on, leaving directories out. */
  ghost function EntriesFrom(directory: seq<byte>, offset: nat, count: nat): Result<seq<Entry>>
    decreases count
  {
    if count == 0 then Ok([])
    else
      match ReadEntry(directory, offset)
      case Err(e) => Err(e)
      case Ok((entry, size)) => Then(Listed(entry), EntriesFrom(directory, offset + size, count - 1))
  }

  /** Directory entries are read and left out. */
  function Listed(entry: Entry): seq<Entry> {
    if IsDirectory(entry.fileName) then [] else [entry]
  }

  ghost function Then(entries: seq<Entry>, rest: Result<seq<Entry>>): Result<seq<Entry>> {
    match rest
    case Err(e) => Err(e)
    case Ok(more) => Ok(entries + more)
  }

  lemma ThenThen(a: seq<Entry>, b: seq<Entry>, rest: Result<seq<Entry>>)
    ensures Then(a, Then(b, rest)) == Then(a + b, rest)
  {
    if rest.Ok? {
      assert a + (b + rest.value) == (a + b) + rest.value;
    }
  }

  lemma ThenNothing(rest: Result<seq<Entry>>)
    ensures Then([], rest) == rest
  {
    if rest.Ok? {
      assert [] + rest.value == rest.value;
    }
  }

  /** `entries` are the first `index` headers, which end at `offset`. */
  ghost predicate Walked(directory: seq<byte>, count: nat, entries: seq<Entry>, offset: nat, index: nat) {
    index <= count
    && EntriesFrom(directory, 0, count) == Then(entries, EntriesFrom(directory, offset, count - index))
  }

  lemma WalkStep(directory: seq<byte>, count: nat, entries: seq<Entry>, offset: nat, index: nat)
    requires Walked(directory, count, entries, offset, index) && index < count
    ensures match ReadEntry(directory, offset)
      case Err(e) => EntriesFrom(directory, 0, count) == Err(e)
      case Ok((entry, size)) => Walked(directory, count, entries + Listed(entry), offset + size, index + 1)
  {
    if ReadEntry(directory, offset).Ok? {
      var (entry, size) := ReadEntry(directory, offset).value;
      ThenThen(entries, Listed(entry), EntriesFrom(directory, offset + size, count - index - 1));
    }
  }

  lemma WalkEnd(directory: seq<byte>, count: nat, entries: seq<Entry>, offset: nat)
    requires Walked(directory, count, entries, offset, count)
    ensures EntriesFrom(directory, 0, count) == Ok(entries)
  {
    assert entries + [] == entries;
  }

  method WalkDirectory(directory: seq<byte>, count: nat) returns (r: Result<seq<Entry>>)
    ensures r == EntriesFrom(directory, 0, count)
  {
    var entries: seq<Entry>, offset: nat, index: nat := [], 0, 0;
    ThenNothing(EntriesFrom(directory, 0, count));
    while index < count
      invariant Walked(directory, count, entries, offset, index)
    {
      WalkStep(directory, count, entries, offset, index);
      var header := ReadEntry(directory, offset);
      if header.Err? {
        return Err(header.error);
      }
      var (entry, size) := header.value;
      entries, offset, index := entries + Listed(entry), offset + size, index + 1;
    }
    WalkEnd(directory, count, entries, offset);
    r := Ok(entries);
  }

  /** What reading the archive must give when `at` is the last place an end record could start. */
  ghost function EntriesAt(archive: seq<byte>, at: nat): Result<seq<Entry>>
    requires at + END_SIZE <= |archive|
  {
    match Judge(archive, at, |archive|)
    case Err(e) => Err(e)
    case Ok(end) => EntriesFrom(Directory(archive, end), 0, end.entryCount)
  }

  /** The directory an accepted end record points to. */
  function Directory(archive: seq<byte>, end: EndRecord): seq<byte>
    requires end.directoryOffset + end.directorySize <= |archive|
  {
    archive[end.directoryOffset..end.directoryOffset + end.directorySize]
  }

  lemma EntriesOfRecord(archive: seq<byte>, at: nat, end: EndRecord)
    requires at + END_SIZE <= |archive| && Judge(archive, at, |archive|) == Ok(end)
    ensures end.directoryOffset + end.directorySize <= |archive|
    ensures EntriesAt(archive, at) == EntriesFrom(Directory(archive, end), 0, end.entryCount)
  {
  }

  /** The walk after the search. */
  method ReadDirectory(archive: seq<byte>, ghost at: nat, found: Result<EndRecord>) returns (r: Result<seq<Entry>>)
    requires at + END_SIZE <= |archive| && found == Judge(archive, at, |archive|)
    ensures r == EntriesAt(archive, at)
  {
    if found.Err? {
      return Err(found.error);
    }
    r := WalkDirectory(Directory(archive, found.value), found.value.entryCount);
  }

  /** readEntries, for whatever bytes the file holds. */
  method ReadEntries(archive: seq<byte>) returns (r: Result<seq<Entry>>, ghost at: nat)
    ensures !HasCandidate(archive) ==> r == Err(NotAZip)
    ensures HasCandidate(archive) ==> LastCandidate(archive, at) && r == EntriesAt(archive, at)
  {
    var found;
    found, at := FindEnd(archive);
    if found == Err(NotAZip) {
      return Err(NotAZip), at;
    }
    r := ReadDirectory(archive, at, found);
  }
}
