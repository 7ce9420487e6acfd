/**
 Extracting one entry: the stored copy, the bounded inflate loop around an inflater that is only known by
 its contract, the checks of the local header, and the size and CRC check at the end.
 */
module ZipExtract {
  import opened Wrappers
  import opened ZipFormat
  import opened ZipReader
  import opened Checksum

  const IO_BUFFER := 64 * 1024
  const MAXIMUM_EXTRACTED := 1024 * 1024 * 1024
  const LOCAL_SIZE := 30

  datatype Failure =
    | Encrypted
    | UnsupportedMethod
    | InvalidLocalHeader
    | InconsistentHeaders
    | Truncated
    | InconsistentSizes
    | ExpandsBeyondDeclared
    | ExpandsBeyondLimit
    | Corrupt
    | Incomplete
    | TrailingData
    | IntegrityFailed

  datatype Outcome = Done | Failed(failure: Failure)

  // ----- Bounds on the output

  /** canWriteOutput: why the next `chunk` bytes may not be written, if they may not. */
  function CanWrite(written: nat, chunk: nat, entry: Entry): Outcome {
    if written > entry.uncompressedSize || chunk > entry.uncompressedSize - written then Failed(ExpandsBeyondDeclared)
    else if written > MAXIMUM_EXTRACTED || chunk > MAXIMUM_EXTRACTED - written then Failed(ExpandsBeyondLimit)
    else Done
  }

  function Min(a: nat, b: nat): nat {
    if a < b then a else b
  }

  /** The most that may ever be written for an entry. */
  ghost function Allowance(entry: Entry): nat {
    Min(entry.uncompressedSize, MAXIMUM_EXTRACTED)
  }

  /** The bytes of the archive that belong to an entry whose data starts at `start`. */
  function Slice(archive: seq<byte>, start: nat, entry: Entry): (r: seq<byte>)
    requires start + entry.compressedSize <= |archive|
    ensures |r| == entry.compressedSize
  {
    archive[start..start + entry.compressedSize]
  }

  /** Appending a chunk to the output and to its checksum, if the entry allows it. */
  method Append(entry: Entry, output: seq<byte>, crc: Sum, chunk: seq<byte>)
    returns (r: Outcome, longer: seq<byte>, sum: Sum)
    requires crc == Crc(output)
    ensures r == CanWrite(|output|, |chunk|, entry)
    ensures longer == if r.Done? then output + chunk else output
    ensures sum == Crc(longer)
  {
    r := CanWrite(|output|, |chunk|, entry);
    if r.Failed? {
      return r, output, crc;
    }
    CrcOfParts(START, output, chunk);
    longer, sum := output + chunk, Crc32(crc, chunk);
  }

  // ----- Stored entries

  lemma NextPiece(archive: seq<byte>, start: nat, before: seq<byte>, at: nat, size: nat)
    requires start <= at && at + size <= |archive| && before == archive[start..at]
    ensures before + archive[at..at + size] == archive[start..at + size]
  {
  }

  predicate IsCopy(archive: seq<byte>, start: nat, output: seq<byte>) {
    start + |output| <= |archive| && output == archive[start..start + |output|]
  }

  lemma LongerCopy(archive: seq<byte>, start: nat, output: seq<byte>, size: nat)
    requires IsCopy(archive, start, output) && start + |output| + size <= |archive|
    ensures var at := start + |output|; IsCopy(archive, start, output + archive[at..at + size])
  {
    NextPiece(archive, start, output, start + |output|, size);
  }

  /** The output is the archive from `start` on, as far as it goes, and `crc` its checksum. */
  ghost predicate Copied(archive: seq<byte>, start: nat, output: seq<byte>, crc: Sum) {
    IsCopy(archive, start, output) && crc == Crc(output)
  }

  method CopyChunk(archive: seq<byte>, start: nat, entry: Entry, output: seq<byte>, crc: Sum, size: nat)
    returns (r: Outcome, longer: seq<byte>, sum: Sum)
    requires Copied(archive, start, output, crc) && start + |output| + size <= |archive|
    ensures r == CanWrite(|output|, size, entry) && Copied(archive, start, longer, sum)
    ensures |longer| == if r.Done? then |output| + size else |output|
  {
    var at := start + |output|;
    LongerCopy(archive, start, output, size);
    r, longer, sum := Append(entry, output, crc, archive[at..at + size]);
  }

  lemma NothingCopied(archive: seq<byte>, start: nat)
    requires start <= |archive|
    ensures Copied(archive, start, [], START)
  {
    CrcOfNothing();
  }

  /** writeStoredData, on an archive already known to hold the whole entry. */
  method WriteStored(archive: seq<byte>, start: nat, entry: Entry)
    returns (r: Outcome, output: seq<byte>, crc: Sum)
    requires start + entry.compressedSize <= |archive|
    ensures r.Done? <==> entry.compressedSize == entry.uncompressedSize && entry.uncompressedSize <= MAXIMUM_EXTRACTED
    ensures Copied(archive, start, output, crc) && |output| <= Allowance(entry)
    ensures r.Done? ==> output == Slice(archive, start, entry)
  {
    output, crc := [], START;
    NothingCopied(archive, start);
    if entry.compressedSize != entry.uncompressedSize {
      return Failed(InconsistentSizes), output, crc;
    }
    var remaining: nat := entry.compressedSize;
    while remaining > 0
      invariant |output| + remaining == entry.compressedSize && |output| <= MAXIMUM_EXTRACTED
      invariant Copied(archive, start, output, crc)
    {
      var size := Min(remaining, IO_BUFFER);
      r, output, crc := CopyChunk(archive, start, entry, output, crc, size);
      if r.Failed? {
        return;
      }
      remaining := remaining - size;
    }
    r := Done;
  }

  // ----- Deflated entries

  /** Z_OK, Z_STREAM_END, and every other answer of inflate. */
  datatype Code = Going | Ended | Bad

  /** One call of inflate: how much input it took, what it wrote, and what it says. */
  datatype Step<S> = Step(next: S, consumed: nat, produced: seq<byte>, code: Code)

  /** An inflater: its first state, and one call on the input at hand with some room for output. */
  datatype Inflater<!S> = Inflater(start: S, step: (S, seq<byte>, nat) -> Step<S>)

  /** What a state has read and written since the start; no part of the program. */
  datatype History<!S> = History(read: S -> seq<byte>, written: S -> seq<byte>)

  /** zlib's contract for one call: stay within both buffers, make progress on Z_OK, only append. */
  ghost predicate Behaves<S(!new)>(m: Inflater<S>, h: History<S>) {
    && h.read(m.start) == [] && h.written(m.start) == []
    && forall s: S, input: seq<byte>, room: nat :: BehavesOn(m.step(s, input, room), h, s, input, room)
  }

  ghost predicate BehavesOn<S>(t: Step<S>, h: History<S>, s: S, input: seq<byte>, room: nat) {
    && t.consumed <= |input| && |t.produced| <= room
    && (t.code == Going ==> t.consumed > 0 || |t.produced| > 0)
    && (t.code != Bad ==> h.read(t.next) == h.read(s) + input[..t.consumed])
    && (t.code != Bad ==> h.written(t.next) == h.written(s) + t.produced)
  }

  /** The inflater ends only where the compressed stream does, having written what the stream stands for. */
  ghost predicate Faithful<S(!new)>(m: Inflater<S>, h: History<S>, meaning: seq<byte> -> Option<seq<byte>>) {
    forall s: S, input: seq<byte>, room: nat ::
      FaithfulOn(m.step(s, input, room), h, meaning)
  }

  ghost predicate FaithfulOn<S>(t: Step<S>, h: History<S>, meaning: seq<byte> -> Option<seq<byte>>) {
    t.code == Ended ==> meaning(h.read(t.next)) == Some(h.written(t.next))
  }

  /** Fed with pieces of the stream `whole` until it is used up, the inflater writes `data` and ends. */
  ghost predicate Completes<S(!new)>(m: Inflater<S>, h: History<S>, whole: seq<byte>, data: seq<byte>) {
    forall s: S, input: seq<byte>, room: nat ::
      CompletesOn(m.step(s, input, room), h, s, input, room, whole, data)
  }

  ghost predicate CompletesOn<S>(
    t: Step<S>, h: History<S>, s: S, input: seq<byte>, room: nat, whole: seq<byte>, data: seq<byte>)
  {
    && h.read(s) + input <= whole && h.written(s) <= data && room > 0 && (|input| > 0 || h.read(s) == whole) ==>
      && t.code != Bad && h.written(t.next) <= data
      && (t.code == Ended ==> h.read(t.next) == whole && h.written(t.next) == data)
      && (t.code == Going && h.read(s) + input == whole ==> |t.produced| > 0)
  }

  /** The simplest inflater: it copies `n` bytes and ends. Its state is what it has copied. */
  ghost function CopyStep(n: nat, s: seq<byte>, input: seq<byte>, room: nat): Step<seq<byte>> {
    var size := Min(Min(|input|, room), if |s| < n then n - |s| else 0);
    var next := s + input[..size];
    Step(next, size, input[..size], if |next| >= n then Ended else if size > 0 then Going else Bad)
  }

  /** The contract can be met, and met together with the two promises. */
  lemma ContractCanBeMet(whole: seq<byte>)
    ensures var m := Inflater([], (s, input, room) => CopyStep(|whole|, s, input, room));
      var h := History((s: seq<byte>) => s, (s: seq<byte>) => s);
      Behaves(m, h) && Faithful(m, h, z => Some(z)) && Completes(m, h, whole, whole)
  {
    var m := Inflater([], (s, input, room) => CopyStep(|whole|, s, input, room));
    var h := History((s: seq<byte>) => s, (s: seq<byte>) => s);
    forall s: seq<byte>, input: seq<byte>, room: nat
      ensures BehavesOn(m.step(s, input, room), h, s, input, room)
      ensures CompletesOn(m.step(s, input, room), h, s, input, room, whole, whole)
    {
      if s + input <= whole && room > 0 && (|input| > 0 || s == whole) {
        CopyCompletes(whole, s, input, room);
      }
    }
  }

  lemma CopyCompletes(whole: seq<byte>, s: seq<byte>, input: seq<byte>, room: nat)
    requires s + input <= whole && room > 0 && (|input| > 0 || s == whole)
    ensures var t := CopyStep(|whole|, s, input, room);
      t.code != Bad && t.next <= whole && (t.code == Ended ==> t.next == whole)
  {
    var t := CopyStep(|whole|, s, input, room);
    assert t.next == (s + input)[..|s| + t.consumed];
  }

  /** Where the decompression loop stands. */
  ghost predicate Standing<S>(
    archive: seq<byte>, start: nat, entry: Entry, h: History<S>,
    state: S, avail: seq<byte>, remaining: nat, output: seq<byte>)
  {
    && remaining <= entry.compressedSize && start + entry.compressedSize <= |archive|
    && h.read(state) + avail == archive[start..start + (entry.compressedSize - remaining)]
    && h.written(state) == output && |output| <= Allowance(entry)
  }

  lemma AfterRefill<S>(
    archive: seq<byte>, start: nat, entry: Entry, h: History<S>, state: S, remaining: nat, output: seq<byte>, size: nat)
    requires Standing(archive, start, entry, h, state, [], remaining, output) && size <= remaining
    ensures var at := start + (entry.compressedSize - remaining);
      Standing(archive, start, entry, h, state, archive[at..at + size], remaining - size, output)
  {
    var empty: seq<byte> := [];
    assert h.read(state) + empty == h.read(state);
    NextPiece(archive, start, h.read(state), start + (entry.compressedSize - remaining), size);
  }

  lemma ReadSoFar<S>(
    archive: seq<byte>, start: nat, entry: Entry, h: History<S>, state: S, avail: seq<byte>, remaining: nat,
    output: seq<byte>)
    requires Standing(archive, start, entry, h, state, avail, remaining, output)
    ensures var whole := Slice(archive, start, entry);
      && h.read(state) <= whole && (remaining > 0 || |avail| > 0 ==> h.read(state) < whole)
      && (remaining == 0 && |avail| == 0 ==> h.read(state) == whole)
  {
    var whole, so := Slice(archive, start, entry), archive[start..start + (entry.compressedSize - remaining)];
    assert so == whole[..|so|] && h.read(state) == so[..|h.read(state)|];
    assert h.read(state) == whole[..|h.read(state)|];
  }

  /** When the input at hand is used up, the next piece of the entry is read. */
  method Refill<S>(
    archive: seq<byte>, start: nat, entry: Entry, ghost h: History<S>, ghost state: S,
    avail: seq<byte>, remaining: nat, ghost output: seq<byte>)
    returns (more: seq<byte>, left: nat)
    requires Standing(archive, start, entry, h, state, avail, remaining, output)
    ensures Standing(archive, start, entry, h, state, more, left, output)
    ensures |more| + left == |avail| + remaining && (|more| == 0 ==> left == 0)
  {
    more, left := avail, remaining;
    if |avail| == 0 && remaining > 0 {
      var size, at := Min(remaining, IO_BUFFER), start + (entry.compressedSize - remaining);
      AfterRefill(archive, start, entry, h, state, remaining, output, size);
      more, left := archive[at..at + size], remaining - size;
    }
  }

  lemma AfterCall<S>(
    archive: seq<byte>, start: nat, entry: Entry, h: History<S>, state: S, avail: seq<byte>, remaining: nat,
    output: seq<byte>, t: Step<S>)
    requires Standing(archive, start, entry, h, state, avail, remaining, output)
    requires BehavesOn(t, h, state, avail, IO_BUFFER) && t.code != Bad
    requires CanWrite(|output|, |t.produced|, entry).Done?
    ensures Standing(archive, start, entry, h, t.next, avail[t.consumed..], remaining, output + t.produced)
  {
    assert avail == avail[..t.consumed] + avail[t.consumed..];
    assert (h.read(state) + avail[..t.consumed]) + avail[t.consumed..] == h.read(state) + avail;
  }

  /** What a faithful inflater, and one that completes the entry as `data`, have made true so far. */
  ghost predicate Promised<S(!new)>(
    m: Inflater<S>, h: History<S>, meaning: seq<byte> -> Option<seq<byte>>, whole: seq<byte>, data: seq<byte>,
    state: S, code: Code)
  {
    && (code == Ended && Faithful(m, h, meaning) ==> meaning(h.read(state)) == Some(h.written(state)))
    && (Completes(m, h, whole, data) ==>
          h.written(state) <= data && (code == Ended ==> h.read(state) == whole && h.written(state) == data))
  }

  lemma PromiseKept<S(!new)>(
    m: Inflater<S>, h: History<S>, meaning: seq<byte> -> Option<seq<byte>>, whole: seq<byte>, data: seq<byte>,
    state: S, code: Code, avail: seq<byte>)
    requires Promised(m, h, meaning, whole, data, state, code) && h.read(state) + avail <= whole
    requires |avail| > 0 || h.read(state) == whole
    ensures var t := m.step(state, avail, IO_BUFFER);
      Promised(m, h, meaning, whole, data, t.next, t.code)
    ensures Completes(m, h, whole, data) ==> m.step(state, avail, IO_BUFFER).code != Bad
    ensures var t := m.step(state, avail, IO_BUFFER);
      Completes(m, h, whole, data) && h.read(state) + avail == whole && t.code == Going ==> |t.produced| > 0
  {
    var t := m.step(state, avail, IO_BUFFER);
    if Faithful(m, h, meaning) {
      assert FaithfulOn(t, h, meaning);
    }
    if Completes(m, h, whole, data) {
      assert CompletesOn(t, h, state, avail, IO_BUFFER, whole, data);
    }
  }

  /** The data an entry stands for fits what may be written for it, and the inflater completes it. */
  ghost predicate Extractable<S(!new)>(m: Inflater<S>, h: History<S>, whole: seq<byte>, data: seq<byte>, entry: Entry) {
    Completes(m, h, whole, data) && |data| <= Allowance(entry)
  }

  /** One round of the loop, on input already at hand. */
  method Round<S(!new)>(
    archive: seq<byte>, start: nat, entry: Entry, m: Inflater<S>,
    ghost h: History<S>, ghost meaning: seq<byte> -> Option<seq<byte>>, ghost data: seq<byte>,
    state: S, avail: seq<byte>, remaining: nat, code: Code, output: seq<byte>, crc: Sum)
    returns (r: Outcome, t: Step<S>, longer: seq<byte>, sum: Sum)
    requires start + entry.compressedSize <= |archive| && Behaves(m, h)
    requires Standing(archive, start, entry, h, state, avail, remaining, output) && crc == Crc(output)
    requires Promised(m, h, meaning, Slice(archive, start, entry), data, state, code)
    requires |avail| == 0 ==> remaining == 0
    ensures sum == Crc(longer) && |longer| <= Allowance(entry) && t.consumed <= |avail|
    ensures Extractable(m, h, Slice(archive, start, entry), data, entry) ==> r.Done?
    ensures r.Done? ==> Standing(archive, start, entry, h, t.next, avail[t.consumed..], remaining, longer)
    ensures r.Done? ==> Promised(m, h, meaning, Slice(archive, start, entry), data, t.next, t.code)
    ensures |output| <= |longer| && (r.Done? && t.code != Ended ==> t.consumed + |longer| > |output|)
    ensures r == Failed(Incomplete) ==> h.read(t.next) == Slice(archive, start, entry)
    ensures r != Failed(TrailingData)
  {
    t := m.step(state, avail, IO_BUFFER);
    assert BehavesOn(t, h, state, avail, IO_BUFFER);
    assert h.read(state) + avail <= Slice(archive, start, entry);
    if |avail| == 0 {
      assert h.read(state) == h.read(state) + avail == Slice(archive, start, entry);
    }
    PromiseKept(m, h, meaning, Slice(archive, start, entry), data, state, code, avail);
    longer, sum := output, crc;
    if t.code == Bad {
      return Failed(Corrupt), t, longer, sum;
    }
    if |t.produced| > 0 {
      r, longer, sum := Append(entry, output, crc, t.produced);
      if r.Failed? {
        return;
      }
    } else {
      assert longer == output + t.produced;
    }
    AfterCall(archive, start, entry, h, state, avail, remaining, output, t);
    if t.consumed == |avail| && remaining == 0 && t.code != Ended && |t.produced| == 0 {
      assert h.read(t.next) == h.read(t.next) + avail[t.consumed..];
      return Failed(Incomplete), t, longer, sum;
    }
    r := Done;
  }

  /**
   writeDeflatedData, on an archive already known to hold the whole entry. Whatever the inflater does within
   its contract, the loop ends, the output stays within the allowance, and success means that exactly the
   compressed bytes were read.
   */
  method WriteDeflated<S(!new)>(
    archive: seq<byte>, start: nat, entry: Entry, m: Inflater<S>,
    ghost h: History<S>, ghost meaning: seq<byte> -> Option<seq<byte>>, ghost data: seq<byte>)
    returns (r: Outcome, output: seq<byte>, crc: Sum, ghost last: S)
    requires start + entry.compressedSize <= |archive| && Behaves(m, h)
    ensures |output| <= Allowance(entry) && crc == Crc(output)
    ensures r.Done? ==> h.read(last) == Slice(archive, start, entry) && h.written(last) == output
    ensures r == Failed(TrailingData) ==> h.read(last) < Slice(archive, start, entry)
    ensures r == Failed(Incomplete) ==> h.read(last) == Slice(archive, start, entry)
    ensures r.Done? && Faithful(m, h, meaning) ==> meaning(Slice(archive, start, entry)) == Some(output)
    ensures Extractable(m, h, Slice(archive, start, entry), data, entry) ==> r.Done? && output == data
  {
    var state, avail: seq<byte>, remaining: nat, code := m.start, [], entry.compressedSize, Going;
    output, crc := [], START;
    CrcOfNothing();
    while code != Ended
      invariant Standing(archive, start, entry, h, state, avail, remaining, output) && crc == Crc(output)
      invariant Promised(m, h, meaning, Slice(archive, start, entry), data, state, code)
      decreases remaining + |avail| + Allowance(entry) - |output|, if code == Ended then 0 else 1
    {
      avail, remaining := Refill(archive, start, entry, h, state, avail, remaining, output);
      var t;
      r, t, output, crc := Round(
        archive, start, entry, m, h, meaning, data, state, avail, remaining, code, output, crc);
      last := if r == Failed(Incomplete) then t.next else state;
      if r.Failed? {
        return;
      }
      state, avail, code := t.next, avail[t.consumed..], t.code;
    }
    last := state;
    ReadSoFar(archive, start, entry, h, state, avail, remaining, output);
    r := if remaining > 0 || |avail| > 0 then Failed(TrailingData) else Done;
  }

  // ----- One entry

  /** Traditional (bit 0) or strong (bit 6) encryption. */
  predicate IsEncrypted(flags: nat) {
    flags % 2 == 1 || flags / 64 % 2 == 1
  }

  /** Why the data of an entry cannot be found, if it cannot. */
  function Locate(archive: seq<byte>, entry: Entry): Outcome {
    var o := entry.localHeaderOffset;
    if IsEncrypted(entry.flags) then Failed(Encrypted)
    else if entry.compressionMethod != 0 && entry.compressionMethod != 8 then Failed(UnsupportedMethod)
    else if o + LOCAL_SIZE > |archive| || ReadUInt32(archive, o) != LOCAL_SIGNATURE then Failed(InvalidLocalHeader)
    else if ReadUInt16(archive, o + 6) != entry.flags || ReadUInt16(archive, o + 8) != entry.compressionMethod then
      Failed(InconsistentHeaders)
    else if DataStart(archive, entry) + entry.compressedSize > |archive| then Failed(Truncated)
    else Done
  }

  /** Where the data starts: after the name and the extra field of the local header. */
  function DataStart(archive: seq<byte>, entry: Entry): nat
    requires entry.localHeaderOffset + LOCAL_SIZE <= |archive|
  {
    var o := entry.localHeaderOffset;
    o + LOCAL_SIZE + ReadUInt16(archive, o + 26) + ReadUInt16(archive, o + 28)
  }

  /** The bytes stored for an entry that could be located. */
  ghost function Payload(archive: seq<byte>, entry: Entry): seq<byte>
    requires Locate(archive, entry).Done?
  {
    Slice(archive, DataStart(archive, entry), entry)
  }

  /** Size and checksum are the declared ones. */
  ghost predicate Intact(data: seq<byte>, entry: Entry) {
    |data| == entry.uncompressedSize && Crc(data).Value() == entry.crc
  }

  /** The archive holds `data` as the contents of the entry. */
  ghost predicate StandsFor<S(!new)>(
    archive: seq<byte>, entry: Entry, m: Inflater<S>, h: History<S>, data: seq<byte>)
  {
    && Locate(archive, entry).Done? && Intact(data, entry) && |data| <= MAXIMUM_EXTRACTED
    && if entry.compressionMethod == 0 then data == Payload(archive, entry)
       else Completes(m, h, Payload(archive, entry), data)
  }

  /** What a successful extraction says about its output. */
  ghost predicate Extracted<S(!new)>(
    archive: seq<byte>, entry: Entry, m: Inflater<S>, h: History<S>, meaning: seq<byte> -> Option<seq<byte>>,
    output: seq<byte>)
  {
    && Locate(archive, entry).Done? && Intact(output, entry) && |output| <= MAXIMUM_EXTRACTED
    && (entry.compressionMethod == 0 ==> output == Payload(archive, entry))
    && (entry.compressionMethod == 8 && Faithful(m, h, meaning) ==> meaning(Payload(archive, entry)) == Some(output))
  }

  /** extractEntry: `output` is what is committed when the outcome is Done. */
  method ExtractEntry<S(!new)>(
    archive: seq<byte>, entry: Entry, m: Inflater<S>,
    ghost h: History<S>, ghost meaning: seq<byte> -> Option<seq<byte>>, ghost data: seq<byte>)
    returns (r: Outcome, output: seq<byte>)
    requires Behaves(m, h)
    ensures Locate(archive, entry).Failed? ==> r == Locate(archive, entry)
    ensures r.Done? ==> Extracted(archive, entry, m, h, meaning, output)
    ensures StandsFor(archive, entry, m, h, data) ==> r.Done? && output == data
  {
    output := [];
    r := Locate(archive, entry);
    if r.Failed? {
      return;
    }
    var start, crc := DataStart(archive, entry), START;
    if entry.compressionMethod == 0 {
      r, output, crc := WriteStored(archive, start, entry);
    } else {
      ghost var last;
      r, output, crc, last := WriteDeflated(archive, start, entry, m, h, meaning, data);
    }
    if r.Done? && (|output| != entry.uncompressedSize || crc.Value() != entry.crc) {
      r := Failed(IntegrityFailed);
    }
  }

  /** A stored entry is extracted exactly when its sizes agree, it is not too large and its checksum holds. */
  method ExtractStored<S(!new)>(archive: seq<byte>, entry: Entry, m: Inflater<S>, ghost h: History<S>)
    returns (r: Outcome, output: seq<byte>)
    requires Behaves(m, h) && Locate(archive, entry).Done? && entry.compressionMethod == 0
    ensures r.Done? <==> Intact(Payload(archive, entry), entry) && entry.uncompressedSize <= MAXIMUM_EXTRACTED
    ensures r.Done? ==> output == Payload(archive, entry)
  {
    r, output := ExtractEntry(archive, entry, m, h, _ => None, Payload(archive, entry));
  }
}
