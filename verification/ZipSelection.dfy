/**
 Choosing the one CSV file of an archive an importer may read, and the whole way from the bytes of a ZIP
 archive to the contents of that file.
 */
module ZipSelection {
  import opened Wrappers
  import opened ZipReader
  import opened ZipExtract

  const SLASH: byte := 0x2f
  const BACKSLASH: byte := 0x5c
  const DOT: byte := 0x2e
  const COLON: byte := 0x3a
  const CSV: seq<byte> := [0x63, 0x73, 0x76]
  const DOTDOT: seq<byte> := [DOT, DOT]

  // ----- Names

  predicate IsSeparator(b: byte) {
    b == SLASH || b == BACKSLASH
  }

  /** The part after the last byte that `stops`, or everything when none does. */
  function After(stops: byte -> bool, name: seq<byte>): seq<byte> {
    if name == [] || stops(name[|name| - 1]) then []
    else After(stops, name[..|name| - 1]) + [name[|name| - 1]]
  }

  function FileName(path: seq<byte>): seq<byte> {
    After(IsSeparator, path)
  }

  /** The part of a file name after its last dot; nothing without a dot. */
  function Suffix(name: seq<byte>): seq<byte> {
    if DOT in name then After(b => b == DOT, name) else []
  }

  function Lower(b: byte): byte {
    if 0x41 <= b <= 0x5a then b + 0x20 else b
  }

  predicate SameName(a: seq<byte>, b: seq<byte>) {
    |a| == |b| && forall i | 0 <= i < |a| :: Lower(a[i]) == Lower(b[i])
  }

  predicate IsCsv(entry: Entry) {
    SameName(Suffix(FileName(entry.fileName)), CSV)
  }

  predicate IsExact(entry: Entry, expected: seq<byte>) {
    IsCsv(entry) && SameName(FileName(entry.fileName), expected)
  }

  /** No absolute path, no drive or scheme, and no step upwards between two separators. */
  predicate IsSafe(path: seq<byte>) {
    && (path == [] || !IsSeparator(path[0])) && COLON !in path
    && forall i, j | 0 <= i <= j <= |path| && IsSegment(path, i, j) :: path[i..j] != DOTDOT
  }

  /** `path[i..j]` is one component of the path. */
  predicate IsSegment(path: seq<byte>, i: int, j: int)
    requires 0 <= i <= j <= |path|
  {
    && (i == 0 || IsSeparator(path[i - 1])) && (j == |path| || IsSeparator(path[j]))
    && forall k | i <= k < j :: !IsSeparator(path[k])
  }

  // ----- What the names mean, byte by byte

  ghost predicate Separates(b: byte) {
    b == 0x2f || b == 0x5c
  }

  /** The same letter of either case, or the same byte. */
  ghost predicate SameLetter(a: byte, b: byte) {
    a == b || (0x41 <= a <= 0x5a && b == a + 32) || (0x41 <= b <= 0x5a && a == b + 32)
  }

  ghost predicate EndsIn(path: seq<byte>, tail: seq<byte>) {
    |tail| <= |path| && forall i | 0 <= i < |tail| :: SameLetter(path[|path| - |tail| + i], tail[i])
  }

  /** The path ends in ".csv". */
  ghost predicate CsvPath(path: seq<byte>) {
    EndsIn(path, [0x2e, 0x63, 0x73, 0x76])
  }

  /** The path is `expected`, or ends in a separator and `expected`. */
  ghost predicate NamedLike(path: seq<byte>, expected: seq<byte>) {
    && (forall i | 0 <= i < |expected| :: !Separates(expected[i]))
    && EndsIn(path, expected)
    && (|path| == |expected| || Separates(path[|path| - |expected| - 1]))
  }

  /** Two dots that are a whole component. */
  ghost predicate StepsUp(path: seq<byte>, i: int) {
    && 0 <= i && i + 1 < |path| && path[i] == 0x2e && path[i + 1] == 0x2e
    && (i == 0 || Separates(path[i - 1])) && (i + 2 == |path| || Separates(path[i + 2]))
  }

  /** Relative, without a colon, and never going up. */
  ghost predicate SafePath(path: seq<byte>) {
    && (path == [] || !Separates(path[0])) && (forall i | 0 <= i < |path| :: path[i] != 0x3a)
    && forall i :: !StepsUp(path, i)
  }

  /** `tail` is what stands behind the last byte that stops, or everything. */
  ghost predicate IsAfter(stops: byte -> bool, name: seq<byte>, tail: seq<byte>) {
    && |tail| <= |name| && name[|name| - |tail|..] == tail
    && (forall i | 0 <= i < |tail| :: !stops(tail[i]))
    && (|tail| == |name| || stops(name[|name| - |tail| - 1]))
  }

  lemma {:induction false} AfterMeaning(stops: byte -> bool, name: seq<byte>)
    ensures IsAfter(stops, name, After(stops, name))
  {
    if name != [] && !stops(name[|name| - 1]) {
      var front := name[..|name| - 1];
      AfterMeaning(stops, front);
      var tail := After(stops, front);
      assert name[|name| - |tail| - 1..] == front[|front| - |tail|..] + [name[|name| - 1]];
    }
  }

  /** A longer end of the name has the byte in it that the shorter one stops at. */
  lemma StopInside(stops: byte -> bool, name: seq<byte>, tail: seq<byte>, longer: seq<byte>)
    requires IsAfter(stops, name, tail) && |tail| < |longer| <= |name|
    requires name[|name| - |longer|..] == longer
    ensures stops(longer[|longer| - |tail| - 1])
  {
    assert longer[|longer| - |tail| - 1] == name[|name| - |tail| - 1];
  }

  lemma NoLonger(stops: byte -> bool, name: seq<byte>, tail: seq<byte>, other: seq<byte>)
    requires IsAfter(stops, name, tail) && IsAfter(stops, name, other)
    ensures |other| <= |tail|
  {
    if |tail| < |other| {
      StopInside(stops, name, tail, other);
      assert false;
    }
  }

  lemma OnlyAfter(stops: byte -> bool, name: seq<byte>, tail: seq<byte>)
    requires IsAfter(stops, name, tail)
    ensures tail == After(stops, name)
  {
    AfterMeaning(stops, name);
    NoLonger(stops, name, tail, After(stops, name));
    NoLonger(stops, name, After(stops, name), tail);
  }

  /** What the last bytes of a path end in, the path does. */
  lemma EndsAlike(path: seq<byte>, name: seq<byte>, tail: seq<byte>)
    requires |tail| <= |name| <= |path| && path[|path| - |name|..] == name
    ensures EndsIn(path, tail) <==> EndsIn(name, tail)
  {
    if EndsIn(path, tail) {
      forall i | 0 <= i < |tail| ensures SameLetter(name[|name| - |tail| + i], tail[i]) {
        assert SameLetter(path[|path| - |tail| + i], tail[i]);
      }
    }
    if EndsIn(name, tail) {
      forall i | 0 <= i < |tail| ensures SameLetter(path[|path| - |tail| + i], tail[i]) {
        assert SameLetter(name[|name| - |tail| + i], tail[i]);
      }
    }
  }

  lemma SameNameMeaning(a: seq<byte>, b: seq<byte>)
    ensures SameName(a, b) <==> |a| == |b| && EndsIn(a, b)
  {
    if |a| == |b| {
      forall i | 0 <= i < |a| ensures Lower(a[i]) == Lower(b[i]) <==> SameLetter(a[i], b[i]) {
      }
      assert EndsIn(a, b) <==> forall i | 0 <= i < |b| :: SameLetter(a[i], b[i]);
    }
  }

  lemma NameIsLike(path: seq<byte>, expected: seq<byte>)
    requires SameName(FileName(path), expected)
    ensures NamedLike(path, expected)
  {
    var name := FileName(path);
    AfterMeaning(IsSeparator, path);
    SameNameMeaning(name, expected);
    EndsAlike(path, name, expected);
    LikeHasNoSeparator(name, expected);
  }

  lemma LikeHasNoSeparator(name: seq<byte>, expected: seq<byte>)
    requires |name| == |expected| && EndsIn(name, expected) && forall i | 0 <= i < |name| :: !IsSeparator(name[i])
    ensures forall i | 0 <= i < |expected| :: !Separates(expected[i])
  {
    forall i | 0 <= i < |expected| ensures !Separates(expected[i]) {
      assert SameLetter(name[|name| - |expected| + i], expected[i]);
    }
  }

  lemma LikeIsName(path: seq<byte>, expected: seq<byte>)
    requires NamedLike(path, expected)
    ensures SameName(FileName(path), expected)
  {
    var tail := path[|path| - |expected|..];
    EndsAlike(path, tail, expected);
    forall i | 0 <= i < |tail| ensures !IsSeparator(tail[i]) {
      assert SameLetter(tail[|tail| - |expected| + i], expected[i]) && !Separates(expected[i]);
    }
    OnlyAfter(IsSeparator, path, tail);
    SameNameMeaning(tail, expected);
  }

  lemma NamedLikeMeaning(path: seq<byte>, expected: seq<byte>)
    ensures SameName(FileName(path), expected) <==> NamedLike(path, expected)
  {
    if SameName(FileName(path), expected) {
      NameIsLike(path, expected);
    } else if NamedLike(path, expected) {
      LikeIsName(path, expected);
    }
  }

  lemma SuffixMeaning(path: seq<byte>, ext: seq<byte>)
    requires forall i | 0 <= i < |ext| :: 0x61 <= ext[i] <= 0x7a
    requires ext != []
    ensures SameName(Suffix(FileName(path)), ext) <==> EndsIn(path, [0x2e] + ext)
  {
    var name, tail := FileName(path), [0x2e as byte] + ext;
    AfterMeaning(IsSeparator, path);
    SameNameMeaning(Suffix(name), ext);
    if SameName(Suffix(name), ext) {
      SuffixEnds(path, name, ext);
    }
    if EndsIn(path, tail) {
      EndHasSuffix(path, name, ext);
    }
  }

  /** A name with a dot is longer than its suffix, and the byte before the suffix is the dot. */
  lemma DotBefore(name: seq<byte>)
    requires DOT in name
    ensures var ext := Suffix(name);
      |ext| < |name| && name[|name| - |ext| - 1] == DOT && name[|name| - |ext|..] == ext
  {
    AfterMeaning(b => b == DOT, name);
    if |Suffix(name)| == |name| {
      assert false;
    }
  }

  lemma SuffixEnds(path: seq<byte>, name: seq<byte>, ext: seq<byte>)
    requires |name| <= |path| && path[|path| - |name|..] == name
    requires DOT in name && |Suffix(name)| == |ext| && EndsIn(Suffix(name), ext)
    ensures EndsIn(path, [0x2e] + ext)
  {
    DotBefore(name);
    EndsAlike(name, Suffix(name), ext);
    LongerEnd(name, 0x2e, ext);
    EndsAlike(path, name, [0x2e] + ext);
  }

  lemma LongerEnd(name: seq<byte>, first: byte, tail: seq<byte>)
    requires |tail| < |name| && EndsIn(name, tail) && SameLetter(name[|name| - |tail| - 1], first)
    ensures EndsIn(name, [first] + tail)
  {
    var longer := [first] + tail;
    forall i | 0 <= i < |longer| ensures SameLetter(name[|name| - |longer| + i], longer[i]) {
      if i > 0 {
        assert SameLetter(name[|name| - |tail| + (i - 1)], tail[i - 1]);
      }
    }
  }

  lemma ByteFromEnd(path: seq<byte>, tail: seq<byte>, n: nat)
    requires EndsIn(path, tail) && n < |tail|
    ensures SameLetter(path[|path| - n - 1], tail[|tail| - n - 1])
  {
    var i := |tail| - n - 1;
    assert SameLetter(path[|path| - |tail| + i], tail[i]);
  }

  /** An end of the path without a separator is an end of the file name. */
  lemma EndOfName(path: seq<byte>, name: seq<byte>, tail: seq<byte>)
    requires IsAfter(IsSeparator, path, name) && EndsIn(path, tail)
    requires forall i | 0 <= i < |tail| :: !Separates(tail[i])
    ensures |tail| <= |name|
  {
    if |name| < |tail| {
      ByteFromEnd(path, tail, |name|);
      assert false;
    }
  }

  lemma EndHasSuffix(path: seq<byte>, name: seq<byte>, ext: seq<byte>)
    requires IsAfter(IsSeparator, path, name) && EndsIn(path, [0x2e] + ext)
    requires forall i | 0 <= i < |ext| :: 0x61 <= ext[i] <= 0x7a
    ensures |Suffix(name)| == |ext| && EndsIn(Suffix(name), ext)
  {
    var tail := [0x2e as byte] + ext;
    EndOfName(path, name, tail);
    EndsAlike(path, name, tail);
    ByteFromEnd(name, tail, |ext|);
    var last := name[|name| - |ext|..];
    forall i | 0 <= i < |ext| ensures SameLetter(last[i], ext[i]) {
      assert SameLetter(name[|name| - |tail| + (i + 1)], tail[i + 1]);
    }
    OnlyAfter(b => b == DOT, name, last);
  }

  lemma CsvMeaning(entry: Entry, expected: seq<byte>)
    ensures IsCsv(entry) <==> CsvPath(entry.fileName)
    ensures IsExact(entry, expected) <==> CsvPath(entry.fileName) && NamedLike(entry.fileName, expected)
  {
    assert [0x2e as byte] + CSV == [0x2e, 0x63, 0x73, 0x76];
    SuffixMeaning(entry.fileName, CSV);
    NamedLikeMeaning(entry.fileName, expected);
  }

  /** The directory is taken off whichever way its separators lean, and the last dot starts the suffix. */
  lemma NamesTakenApart(before: seq<byte>, name: seq<byte>, ext: seq<byte>)
    requires forall i | 0 <= i < |name| :: !Separates(name[i])
    requires forall i | 0 <= i < |ext| :: ext[i] != 0x2e
    ensures FileName(name) == FileName(before + [0x2f] + name) == FileName(before + [0x5c] + name) == name
    ensures Suffix(before + [0x2e] + ext) == ext
  {
    forall i | 0 <= i < |name| ensures !IsSeparator(name[i]) {
      assert !Separates(name[i]);
    }
    OnlyAfter(IsSeparator, name, name);
    OnlyAfter(IsSeparator, before + [0x2f] + name, name);
    OnlyAfter(IsSeparator, before + [0x5c] + name, name);
    assert (before + [0x2e] + ext)[|before|] == DOT;
    OnlyAfter(b => b == DOT, before + [0x2e] + ext, ext);
  }

  lemma SafeHasNoSteps(path: seq<byte>, i: nat)
    requires StepsUp(path, i)
    ensures !IsSafe(path)
  {
    assert path[i..i + 2] == DOTDOT;
    assert IsSegment(path, i, i + 2);
  }

  lemma StepIsUnsafe(path: seq<byte>, i: nat, j: nat)
    requires i <= j <= |path| && IsSegment(path, i, j) && path[i..j] == DOTDOT
    ensures StepsUp(path, i)
  {
    assert |path[i..j]| == 2 && path[i] == path[i..j][0] && path[i + 1] == path[i..j][1];
  }

  lemma SafeMeaning(path: seq<byte>)
    ensures IsSafe(path) <==> SafePath(path)
  {
    if IsSafe(path) {
      forall i ensures !StepsUp(path, i) {
        if StepsUp(path, i) {
          SafeHasNoSteps(path, i);
        }
      }
    } else if SafePath(path) {
      var i, j :| 0 <= i <= j <= |path| && IsSegment(path, i, j) && path[i..j] == DOTDOT;
      StepIsUnsafe(path, i, j);
    }
  }

  // ----- The choice

  datatype Refusal = NoCsv | SeveralExact | NoneNamed | UnsafePath | TooLarge

  datatype Choice = Chosen(entry: Entry) | Refused(why: Refusal)

  /** `k` is the only position of `s` that `p` accepts. */
  ghost predicate Only<T>(s: seq<T>, p: T -> bool, k: nat) {
    k < |s| && p(s[k]) && forall i | 0 <= i < |s| && p(s[i]) :: i == k
  }

  ghost predicate Nowhere<T>(s: seq<T>, p: T -> bool) {
    forall i | 0 <= i < |s| :: !p(s[i])
  }

  /** The elements `p` accepts, in order. */
  function Filter<T>(s: seq<T>, p: T -> bool): seq<T> {
    if s == [] then []
    else Filter(s[..|s| - 1], p) + if p(s[|s| - 1]) then [s[|s| - 1]] else []
  }

  lemma {:induction false} FilterOfNone<T>(s: seq<T>, p: T -> bool)
    ensures Filter(s, p) == [] <==> Nowhere(s, p)
  {
    if s != [] {
      FilterOfNone(s[..|s| - 1], p);
    }
  }

  lemma {:induction false} FilterOfOne<T>(s: seq<T>, p: T -> bool) returns (k: nat)
    requires |Filter(s, p)| == 1
    ensures Only(s, p, k) && Filter(s, p) == [s[k]]
  {
    var front, last := s[..|s| - 1], s[|s| - 1];
    if p(last) {
      FilterOfNone(front, p);
      k := |s| - 1;
    } else {
      k := FilterOfOne(front, p);
    }
  }

  lemma {:induction false} OnlyIsFilter<T>(s: seq<T>, p: T -> bool, k: nat)
    requires Only(s, p, k)
    ensures Filter(s, p) == [s[k]]
  {
    var front := s[..|s| - 1];
    if k == |s| - 1 {
      FilterOfNone(front, p);
    } else {
      OnlyIsFilter(front, p, k);
    }
  }

  /** Two positions of `s` that `p` accepts. */
  ghost predicate Twice<T>(s: seq<T>, p: T -> bool) {
    exists i, j :: 0 <= i < j < |s| && p(s[i]) && p(s[j])
  }

  lemma FilterOfSeveral<T>(s: seq<T>, p: T -> bool)
    ensures |Filter(s, p)| > 1 <==> Twice(s, p)
  {
    FilterOfNone(s, p);
    if |Filter(s, p)| == 1 {
      var k := FilterOfOne(s, p);
    } else if |Filter(s, p)| > 1 {
      var i :| 0 <= i < |s| && p(s[i]);
      if Only(s, p, i) {
        OnlyIsFilter(s, p, i);
      } else {
        var j :| 0 <= j < |s| && p(s[j]) && j != i;
        assert if i < j then p(s[i]) && p(s[j]) else p(s[j]) && p(s[i]);
      }
    }
  }

  /** A CSV entry, as its path says. */
  ghost predicate CsvEntry(e: Entry) {
    CsvPath(e.fileName)
  }

  /** A CSV entry that goes by the expected name. */
  ghost predicate ExactEntry(e: Entry, expected: seq<byte>) {
    CsvPath(e.fileName) && NamedLike(e.fileName, expected)
  }

  /** The entry at `k` is singled out: the only exact match, or the only CSV when nothing matches exactly. */
  ghost predicate IsPick(entries: seq<Entry>, expected: seq<byte>, k: nat) {
    var exact := (e: Entry) => ExactEntry(e, expected);
    k < |entries| && (Only(entries, exact, k) || (Nowhere(entries, exact) && Only(entries, CsvEntry, k)))
  }

  /** The entry at `k` is the one to read. */
  ghost predicate IsChoice(entries: seq<Entry>, expected: seq<byte>, k: nat) {
    && IsPick(entries, expected, k)
    && SafePath(entries[k].fileName) && entries[k].uncompressedSize <= MAXIMUM_EXTRACTED
  }

  /** The one entry that is the expected CSV file, in whatever directory, is the one to read. */
  lemma NamedEntryIsChosen(entries: seq<Entry>, expected: seq<byte>, directory: seq<byte>, k: nat)
    requires CsvPath(expected) && forall i | 0 <= i < |expected| :: !Separates(expected[i])
    requires k < |entries|
    requires || entries[k].fileName == expected
             || entries[k].fileName == directory + [0x2f] + expected
             || entries[k].fileName == directory + [0x5c] + expected
    requires forall i | 0 <= i < |entries| && i != k :: !NamedLike(entries[i].fileName, expected)
    requires SafePath(entries[k].fileName) && entries[k].uncompressedSize <= MAXIMUM_EXTRACTED
    ensures IsChoice(entries, expected, k)
  {
    var path := entries[k].fileName;
    assert |path| == |expected| || Separates(path[|path| - |expected| - 1]);
    assert path[|path| - |expected|..] == expected;
    EndsAlike(path, expected, expected);
    EndsAlike(path, expected, [0x2e, 0x63, 0x73, 0x76]);
    assert CsvPath(path);
    assert ExactEntry(entries[k], expected);
  }

  /** Why an entry that is singled out is refused all the same. */
  ghost predicate IsPickRefused(entries: seq<Entry>, expected: seq<byte>, why: Refusal) {
    exists k: nat :: IsPick(entries, expected, k) &&
      if SafePath(entries[k].fileName) then entries[k].uncompressedSize > MAXIMUM_EXTRACTED && why == TooLarge
      else why == UnsafePath
  }

  /** The same in the terms of the loop. */
  ghost predicate PickedIn(entries: seq<Entry>, expected: seq<byte>, k: nat) {
    var exact := (e: Entry) => IsExact(e, expected);
    k < |entries| && (Only(entries, exact, k) || (Nowhere(entries, exact) && Only(entries, IsCsv, k)))
  }

  ghost predicate ChosenIn(entries: seq<Entry>, expected: seq<byte>, k: nat) {
    && PickedIn(entries, expected, k)
    && IsSafe(entries[k].fileName) && entries[k].uncompressedSize <= MAXIMUM_EXTRACTED
  }

  ghost predicate RefusedIn(entries: seq<Entry>, expected: seq<byte>, why: Refusal) {
    exists k: nat :: PickedIn(entries, expected, k) &&
      if IsSafe(entries[k].fileName) then entries[k].uncompressedSize > MAXIMUM_EXTRACTED && why == TooLarge
      else why == UnsafePath
  }

  lemma SamePredicates<T>(s: seq<T>, p: T -> bool, q: T -> bool)
    requires forall i | 0 <= i < |s| :: p(s[i]) == q(s[i])
    ensures forall k: nat :: Only(s, p, k) <==> Only(s, q, k)
    ensures Nowhere(s, p) <==> Nowhere(s, q)
    ensures Twice(s, p) <==> Twice(s, q)
  {
    if Twice(s, p) {
      var i, j :| 0 <= i < j < |s| && p(s[i]) && p(s[j]);
      assert q(s[i]) && q(s[j]);
    }
    if Twice(s, q) {
      var i, j :| 0 <= i < j < |s| && q(s[i]) && q(s[j]);
      assert p(s[i]) && p(s[j]);
    }
  }

  lemma SameEntries(entries: seq<Entry>, expected: seq<byte>)
    ensures var exact, named := (e: Entry) => IsExact(e, expected), (e: Entry) => ExactEntry(e, expected);
      && (forall k: nat :: Only(entries, IsCsv, k) <==> Only(entries, CsvEntry, k))
      && (forall k: nat :: Only(entries, exact, k) <==> Only(entries, named, k))
      && (Nowhere(entries, IsCsv) <==> Nowhere(entries, CsvEntry))
      && (Nowhere(entries, exact) <==> Nowhere(entries, named))
      && (Twice(entries, IsCsv) <==> Twice(entries, CsvEntry))
      && (Twice(entries, exact) <==> Twice(entries, named))
  {
    var exact, named := (e: Entry) => IsExact(e, expected), (e: Entry) => ExactEntry(e, expected);
    forall i | 0 <= i < |entries|
      ensures IsCsv(entries[i]) == CsvEntry(entries[i]) && exact(entries[i]) == named(entries[i])
    {
      CsvMeaning(entries[i], expected);
    }
    SamePredicates(entries, IsCsv, CsvEntry);
    SamePredicates(entries, exact, named);
  }

  lemma SamePick(entries: seq<Entry>, expected: seq<byte>, k: nat)
    ensures PickedIn(entries, expected, k) <==> IsPick(entries, expected, k)
    ensures ChosenIn(entries, expected, k) <==> IsChoice(entries, expected, k)
  {
    SameEntries(entries, expected);
    if k < |entries| {
      SafeMeaning(entries[k].fileName);
    }
  }

  lemma SameRefusal(entries: seq<Entry>, expected: seq<byte>, why: Refusal)
    ensures RefusedIn(entries, expected, why) <==> IsPickRefused(entries, expected, why)
  {
    forall k: nat | k < |entries|
      ensures PickedIn(entries, expected, k) <==> IsPick(entries, expected, k)
      ensures IsSafe(entries[k].fileName) <==> SafePath(entries[k].fileName)
    {
      SamePick(entries, expected, k);
      SafeMeaning(entries[k].fileName);
    }
  }

  /** Whatever matches exactly is a CSV entry. */
  lemma {:induction false} ExactAreCsv(entries: seq<Entry>, expected: seq<byte>)
    ensures |Filter(entries, (e: Entry) => IsExact(e, expected))| <= |Filter(entries, IsCsv)|
  {
    if entries != [] {
      ExactAreCsv(entries[..|entries| - 1], expected);
    }
  }

  /** The loop over the entries and the decision. */
  method SelectIn(entries: seq<Entry>, expected: seq<byte>) returns (r: Choice)
    ensures r.Chosen? <==> exists k: nat :: ChosenIn(entries, expected, k)
    ensures forall k: nat | ChosenIn(entries, expected, k) :: r == Chosen(entries[k])
    ensures r == Refused(NoCsv) <==> Nowhere(entries, IsCsv)
    ensures r == Refused(SeveralExact) <==> |Filter(entries, (e: Entry) => IsExact(e, expected))| > 1
    ensures r == Refused(NoneNamed) <==>
      Nowhere(entries, (e: Entry) => IsExact(e, expected)) && |Filter(entries, IsCsv)| > 1
    ensures r == Refused(UnsafePath) <==> RefusedIn(entries, expected, UnsafePath)
    ensures r == Refused(TooLarge) <==> RefusedIn(entries, expected, TooLarge)
  {
    var csv, exact, index := [], [], 0;
    var wanted := (e: Entry) => IsExact(e, expected);
    while index < |entries|
      invariant 0 <= index <= |entries|
      invariant csv == Filter(entries[..index], IsCsv) && exact == Filter(entries[..index], wanted)
    {
      var entry := entries[index];
      assert entries[..index + 1][..index] == entries[..index];
      if IsCsv(entry) {
        csv := csv + [entry];
        if IsExact(entry, expected) {
          exact := exact + [entry];
        }
      }
      index := index + 1;
    }
    assert entries[..index] == entries;
    FilterOfNone(entries, IsCsv);
    FilterOfNone(entries, wanted);
    r := Decide(entries, expected, csv, exact);
  }

  /** What is made of the CSV entries and the exact matches found. */
  method Decide(entries: seq<Entry>, expected: seq<byte>, csv: seq<Entry>, exact: seq<Entry>) returns (r: Choice)
    requires csv == Filter(entries, IsCsv) && exact == Filter(entries, (e: Entry) => IsExact(e, expected))
    ensures r.Chosen? <==> exists k: nat :: ChosenIn(entries, expected, k)
    ensures forall k: nat | ChosenIn(entries, expected, k) :: r == Chosen(entries[k])
    ensures r == Refused(NoCsv) <==> csv == []
    ensures r == Refused(SeveralExact) <==> |exact| > 1
    ensures r == Refused(NoneNamed) <==> exact == [] && |csv| > 1
    ensures r == Refused(UnsafePath) <==> RefusedIn(entries, expected, UnsafePath)
    ensures r == Refused(TooLarge) <==> RefusedIn(entries, expected, TooLarge)
  {
    ghost var wanted := (e: Entry) => IsExact(e, expected);
    ghost var at: nat := 0;
    FilterOfNone(entries, IsCsv);
    FilterOfNone(entries, wanted);
    forall k: nat | k < |entries| && Only(entries, wanted, k) ensures exact == [entries[k]] {
      OnlyIsFilter(entries, wanted, k);
    }
    forall k: nat | k < |entries| && Only(entries, IsCsv, k) ensures csv == [entries[k]] {
      OnlyIsFilter(entries, IsCsv, k);
    }
    ExactAreCsv(entries, expected);
    var entry;
    if |csv| == 0 {
      return Refused(NoCsv);
    } else if |exact| == 1 {
      at := FilterOfOne(entries, wanted);
      entry := exact[0];
    } else if |exact| > 1 {
      return Refused(SeveralExact);
    } else if |csv| == 1 {
      at := FilterOfOne(entries, IsCsv);
      entry := csv[0];
    } else {
      return Refused(NoneNamed);
    }
    assert entry == entries[at] && PickedIn(entries, expected, at);
    if !IsSafe(entry.fileName) {
      return Refused(UnsafePath);
    }
    if entry.uncompressedSize > MAXIMUM_EXTRACTED {
      return Refused(TooLarge);
    }
    assert ChosenIn(entries, expected, at);
    r := Chosen(entry);
  }

  /** The selection part of resolve, in terms of the bytes of the paths. */
  method Select(entries: seq<Entry>, expected: seq<byte>) returns (r: Choice)
    ensures r.Chosen? <==> exists k: nat :: IsChoice(entries, expected, k)
    ensures forall k: nat | IsChoice(entries, expected, k) :: r == Chosen(entries[k])
    ensures r == Refused(NoCsv) <==> Nowhere(entries, CsvEntry)
    ensures r == Refused(SeveralExact) <==> Twice(entries, (e: Entry) => ExactEntry(e, expected))
    ensures r == Refused(NoneNamed) <==>
      Nowhere(entries, (e: Entry) => ExactEntry(e, expected)) && Twice(entries, CsvEntry)
    ensures r == Refused(UnsafePath) <==> IsPickRefused(entries, expected, UnsafePath)
    ensures r == Refused(TooLarge) <==> IsPickRefused(entries, expected, TooLarge)
  {
    r := SelectIn(entries, expected);
    FilterOfSeveral(entries, IsCsv);
    FilterOfSeveral(entries, (e: Entry) => IsExact(e, expected));
    SameEntries(entries, expected);
    forall k: nat ensures ChosenIn(entries, expected, k) <==> IsChoice(entries, expected, k) {
      SamePick(entries, expected, k);
    }
    SameRefusal(entries, expected, UnsafePath);
    SameRefusal(entries, expected, TooLarge);
  }

  // ----- From the archive to the contents

  datatype Resolution =
    | NeitherCsvNorZip
    | Resolved(contents: seq<byte>)
    | Unreadable(error: Error)
    | NotChosen(why: Refusal)
    | NotExtracted(failure: Failure)

  /** The entry at `k` of the archive's directory, as the reader sees it, is the one to read. */
  ghost predicate Designates(archive: seq<byte>, expected: seq<byte>, at: nat, k: nat) {
    && LastCandidate(archive, at) && EntriesAt(archive, at).Ok?
    && IsChoice(EntriesAt(archive, at).value, expected, k)
  }

  /** The bytes are the contents of the designated entry. */
  ghost predicate IsContents<S(!new)>(
    archive: seq<byte>, expected: seq<byte>, at: nat, k: nat, m: Inflater<S>, h: History<S>,
    meaning: seq<byte> -> Option<seq<byte>>, contents: seq<byte>)
  {
    && Designates(archive, expected, at, k)
    && Extracted(archive, EntriesAt(archive, at).value[k], m, h, meaning, contents)
  }

  /** resolve, for a ZIP file: nothing but the contents of the designated entry is ever handed on. */
  method Resolve<S(!new)>(
    archive: seq<byte>, expected: seq<byte>, m: Inflater<S>,
    ghost h: History<S>, ghost meaning: seq<byte> -> Option<seq<byte>>, ghost data: seq<byte>)
    returns (r: Resolution)
    requires Behaves(m, h)
    ensures !r.NeitherCsvNorZip?
    ensures r.Resolved? ==>
      exists at: nat, k: nat :: IsContents(archive, expected, at, k, m, h, meaning, r.contents)
    ensures forall at: nat, k: nat | Designates(archive, expected, at, k) ::
      StandsFor(archive, EntriesAt(archive, at).value[k], m, h, data) ==> r == Resolved(data)
  {
    var read;
    ghost var at;
    read, at := ReadEntries(archive);
    if read.Err? {
      return Unreadable(read.error);
    }
    var choice := Select(read.value, expected);
    if choice.Refused? {
      return NotChosen(choice.why);
    }
    ghost var k: nat :| IsChoice(read.value, expected, k);
    var outcome, output := ExtractEntry(archive, choice.entry, m, h, meaning, data);
    assert Designates(archive, expected, at, k);
    assert outcome.Done? ==> IsContents(archive, expected, at, k, m, h, meaning, output);
    r := if outcome.Failed? then NotExtracted(outcome.failure) else Resolved(output);
  }

  const ZIP: seq<byte> := [0x7a, 0x69, 0x70]

  /** resolve as a whole: a CSV file is read as it is, a ZIP file is resolved, and anything else is refused. */
  method ResolveInput<S(!new)>(
    fileName: seq<byte>, contents: seq<byte>, expected: seq<byte>, m: Inflater<S>,
    ghost h: History<S>, ghost meaning: seq<byte> -> Option<seq<byte>>, ghost data: seq<byte>)
    returns (r: Resolution)
    requires Behaves(m, h)
    ensures CsvPath(fileName) ==> r == Resolved(contents)
    ensures r == NeitherCsvNorZip <==> !CsvPath(fileName) && !EndsIn(fileName, [0x2e, 0x7a, 0x69, 0x70])
    ensures r.Resolved? && !CsvPath(fileName) ==>
      exists at: nat, k: nat :: IsContents(contents, expected, at, k, m, h, meaning, r.contents)
    ensures EndsIn(fileName, [0x2e, 0x7a, 0x69, 0x70]) ==>
      forall at: nat, k: nat | Designates(contents, expected, at, k) ::
        StandsFor(contents, EntriesAt(contents, at).value[k], m, h, data) ==> r == Resolved(data)
  {
    var suffix := Suffix(FileName(fileName));
    SuffixMeaning(fileName, CSV);
    SuffixMeaning(fileName, ZIP);
    assert [0x2e as byte] + CSV == [0x2e, 0x63, 0x73, 0x76] && [0x2e as byte] + ZIP == [0x2e, 0x7a, 0x69, 0x70];
    if SameName(suffix, CSV) {
      assert Lower(CSV[0]) != Lower(ZIP[0]);
      return Resolved(contents);
    }
    if !SameName(suffix, ZIP) {
      return NeitherCsvNorZip;
    }
    r := Resolve(contents, expected, m, h, meaning, data);
  }
}
