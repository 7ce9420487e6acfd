/**
 The CSV line scanner every Rebrickable importer uses: a single loop with a `quoted` flag. Its reading of
 balanced lines is compared with the quoting rules of section 2 of RFC 4180.
 */
module Csv {
  const QUOTE: char := '"'
  const COMMA: char := ','

  /** What the scanner makes of `rest` when it is in the middle of a field. */
  function Scan(rest: string, quoted: bool, field: string): (r: (seq<string>, bool))
    ensures |r.0| > 0
    decreases |rest|
  {
    if rest == "" then ([field], !quoted)
    else if rest[0] == QUOTE then
      if quoted && |rest| > 1 && rest[1] == QUOTE then Scan(rest[2..], quoted, field + [QUOTE])
      else Scan(rest[1..], !quoted, field)
    else if rest[0] == COMMA && !quoted then
      var more := Scan(rest[1..], false, "");
      ([field] + more.0, more.1)
    else Scan(rest[1..], quoted, field + [rest[0]])
  }

  // ----- The loop

  function Quotes(line: string): nat {
    if line == "" then 0 else Quotes(line[..|line| - 1]) + if line[|line| - 1] == QUOTE then 1 else 0
  }

  predicate Odd(n: nat) {
    n % 2 == 1
  }

  /** The commas that follow an even number of quotes. */
  function Separators(line: string): nat {
    if line == "" then 0
    else
      var front := line[..|line| - 1];
      Separators(front) + if line[|line| - 1] == COMMA && !Odd(Quotes(front)) then 1 else 0
  }

  lemma OneMore(line: string, i: nat)
    requires i < |line|
    ensures Quotes(line[..i + 1]) == Quotes(line[..i]) + if line[i] == QUOTE then 1 else 0
    ensures Separators(line[..i + 1])
      == Separators(line[..i]) + if line[i] == COMMA && !Odd(Quotes(line[..i])) then 1 else 0
  {
    assert line[..i + 1][..i] == line[..i];
  }

  /** The fields found so far, and what scanning the rest adds to them. */
  ghost predicate Scanned(line: string, i: nat, fields: seq<string>, field: string, quoted: bool) {
    && i <= |line|
    && Scan(line, false, "") == (fields + Scan(line[i..], quoted, field).0, Scan(line[i..], quoted, field).1)
    && (quoted <==> Odd(Quotes(line[..i]))) && |fields| == Separators(line[..i])
  }

  lemma StartOfLine(line: string)
    ensures Scanned(line, 0, [], "", false)
  {
    assert line[0..] == line;
    assert [] + Scan(line, false, "").0 == Scan(line, false, "").0;
  }

  lemma AtQuote(line: string, i: nat, fields: seq<string>, field: string, quoted: bool)
    requires Scanned(line, i, fields, field, quoted) && i < |line| && line[i] == QUOTE
    ensures if quoted && i + 1 < |line| && line[i + 1] == QUOTE
      then Scanned(line, i + 2, fields, field + [QUOTE], quoted)
      else Scanned(line, i + 1, fields, field, !quoted)
  {
    OneMore(line, i);
    assert line[i..][1..] == line[i + 1..];
    if i + 1 < |line| {
      OneMore(line, i + 1);
      assert line[i..][2..] == line[i + 2..];
    }
  }

  lemma AtOther(line: string, i: nat, fields: seq<string>, field: string, quoted: bool)
    requires Scanned(line, i, fields, field, quoted) && i < |line| && line[i] != QUOTE
    ensures if line[i] == COMMA && !quoted then Scanned(line, i + 1, fields + [field], "", quoted)
      else Scanned(line, i + 1, fields, field + [line[i]], quoted)
  {
    OneMore(line, i);
    var rest := line[i + 1..];
    assert line[i..][1..] == rest;
    if line[i] == COMMA && !quoted {
      assert fields + ([field] + Scan(rest, false, "").0) == (fields + [field]) + Scan(rest, false, "").0;
    }
  }

  /**
   parseCsv. A line is reported as well formed exactly when its number of quotes is even, and has one field
   more than it has commas after an even number of quotes.
   */
  method Parse(line: string) returns (fields: seq<string>, ok: bool)
    ensures (fields, ok) == Scan(line, false, "")
    ensures ok <==> !Odd(Quotes(line))
    ensures |fields| == 1 + Separators(line)
  {
    var field, quoted := "", false;
    fields := [];
    StartOfLine(line);
    var i := 0;
    while i < |line|
      invariant i <= |line| && Scanned(line, i, fields, field, quoted)
    {
      var ch := line[i];
      if ch == QUOTE {
        AtQuote(line, i, fields, field, quoted);
        if quoted && i + 1 < |line| && line[i + 1] == QUOTE {
          field, i := field + [ch], i + 1;
        } else {
          quoted := !quoted;
        }
      } else {
        AtOther(line, i, fields, field, quoted);
        if ch == COMMA && !quoted {
          fields, field := fields + [field], "";
        } else {
          field := field + [ch];
        }
      }
      i := i + 1;
    }
    assert line[..i] == line && line[i..] == "";
    fields, ok := fields + [field], !quoted;
  }

  // ----- Writing and reading back

  /** A field between quotes, with the quotes in it doubled. */
  function Doubled(field: string): string {
    if field == "" then ""
    else (if field[0] == QUOTE then [QUOTE, QUOTE] else [field[0]]) + Doubled(field[1..])
  }

  /** Section 2 of RFC 4180: a field without special characters may go without quotes. */
  function Write(field: string, plain: bool): string {
    if plain then field else [QUOTE] + Doubled(field) + [QUOTE]
  }

  predicate MayBePlain(field: string) {
    QUOTE !in field && COMMA !in field
  }

  function WriteLine(fields: seq<string>, plain: seq<bool>): string
    requires |fields| == |plain| > 0
  {
    if |fields| == 1 then Write(fields[0], plain[0])
    else Write(fields[0], plain[0]) + ([COMMA] + WriteLine(fields[1..], plain[1..]))
  }

  lemma {:induction false} ScanPlain(f: string, rest: string, field: string)
    requires MayBePlain(f)
    ensures Scan(f + rest, false, field) == Scan(rest, false, field + f)
    decreases |f|
  {
    if f == "" {
      assert f + rest == rest && field + f == field;
    } else {
      assert f[0] in f && (f + rest)[1..] == f[1..] + rest;
      assert field + [f[0]] + f[1..] == field + f;
      ScanPlain(f[1..], rest, field + [f[0]]);
    }
  }

  /** Inside quotes every character of the field is taken as it is. */
  lemma {:induction false} ScanDoubled(f: string, rest: string, field: string)
    ensures Scan(Doubled(f) + rest, true, field) == Scan(rest, true, field + f)
    decreases |f|
  {
    if f == "" {
      assert Doubled(f) + rest == rest && field + f == field;
    } else {
      var tail := Doubled(f[1..]) + rest;
      assert field + [f[0]] + f[1..] == field + f;
      if f[0] == QUOTE {
        assert Doubled(f) + rest == [QUOTE, QUOTE] + tail;
        assert ([QUOTE, QUOTE] + tail)[2..] == tail;
      } else {
        assert Doubled(f) + rest == [f[0]] + tail;
        assert ([f[0]] + tail)[1..] == tail;
      }
      ScanDoubled(f[1..], rest, field + [f[0]]);
    }
  }

  /** A written field is read back whole, up to the end of the line or the next comma. */
  lemma ScanWritten(f: string, plain: bool, rest: string)
    requires plain ==> MayBePlain(f)
    requires rest == "" || rest[0] == COMMA
    ensures Scan(Write(f, plain) + rest, false, "") == Scan(rest, false, f)
  {
    assert "" + f == f;
    if plain {
      ScanPlain(f, rest, "");
    } else {
      var closing := [QUOTE] + rest;
      assert Write(f, plain) + rest == [QUOTE] + (Doubled(f) + closing);
      assert ([QUOTE] + (Doubled(f) + closing))[1..] == Doubled(f) + closing;
      ScanDoubled(f, closing, "");
      assert closing[1..] == rest;
    }
  }

  lemma AfterComma(rest: string, field: string)
    ensures Scan([COMMA] + rest, false, field) == ([field] + Scan(rest, false, "").0, Scan(rest, false, "").1)
  {
    var line := [COMMA] + rest;
    assert line[0] == COMMA && line[1..] == rest;
  }

  /** A written field and the comma after it are one field more than what follows. */
  lemma ScanFirst(f: string, plain: bool, rest: string)
    requires plain ==> MayBePlain(f)
    ensures Scan(Write(f, plain) + ([COMMA] + rest), false, "")
      == ([f] + Scan(rest, false, "").0, Scan(rest, false, "").1)
  {
    ScanWritten(f, plain, [COMMA] + rest);
    AfterComma(rest, f);
  }

  /** The round trip, however the writer mixes quoted and plain fields. */
  lemma {:induction false} RoundTrip(fields: seq<string>, plain: seq<bool>)
    requires |fields| == |plain| > 0
    requires forall i | 0 <= i < |fields| && plain[i] :: MayBePlain(fields[i])
    ensures Scan(WriteLine(fields, plain), false, "") == (fields, true)
    decreases |fields|
  {
    var first := Write(fields[0], plain[0]);
    if |fields| == 1 {
      ScanWritten(fields[0], plain[0], "");
      assert first + "" == first;
      assert fields == [fields[0]];
    } else {
      var rest := WriteLine(fields[1..], plain[1..]);
      RoundTrip(fields[1..], plain[1..]);
      ScanFirst(fields[0], plain[0], rest);
      assert WriteLine(fields, plain) == first + ([COMMA] + rest);
      assert [fields[0]] + fields[1..] == fields;
    }
  }

  /** The fields before the one that is cut, each with its comma. */
  function WriteBefore(fields: seq<string>, plain: seq<bool>): string
    requires |fields| == |plain|
  {
    if fields == [] then "" else Write(fields[0], plain[0]) + ([COMMA] + WriteBefore(fields[1..], plain[1..]))
  }

  /**
   Files are read line by line, so a quoted field that contains a line break is cut there. The first piece is
   always reported as malformed, never taken for a shorter record.
   */
  lemma {:induction false} CutFieldIsReported(fields: seq<string>, plain: seq<bool>, cut: string)
    requires |fields| == |plain|
    requires forall i | 0 <= i < |fields| && plain[i] :: MayBePlain(fields[i])
    ensures !Scan(WriteBefore(fields, plain) + ([QUOTE] + Doubled(cut)), false, "").1
    decreases |fields|
  {
    var piece := [QUOTE] + Doubled(cut);
    if fields == [] {
      assert "" + piece == piece && piece[1..] == Doubled(cut) + "";
      ScanDoubled(cut, "", "");
    } else {
      var more := WriteBefore(fields[1..], plain[1..]) + piece;
      CutFieldIsReported(fields[1..], plain[1..], cut);
      ScanFirst(fields[0], plain[0], more);
      assert WriteBefore(fields, plain) + piece == Write(fields[0], plain[0]) + ([COMMA] + more);
    }
  }
}
