/**
 The message both sides of a pairing put under the HMAC. Its parts are separated by NUL bytes and a full
 stop, so it stands for one session, challenge, nonce and protocol version only if the parts cannot imitate
 the separators.
 */
module Authentication {
  import opened Wrappers

  const NUL: byte := 0
  const FULL_STOP: byte := 46
  const MINUS: byte := 45
  const PAD: byte := 61

  // ----- Base64 (section 4 of RFC 4648)

  /** The alphabet: A-Z, a-z, 0-9, plus and slash. */
  function Letter(v: int): (r: byte)
    requires 0 <= v < 64
    ensures r != NUL && r != PAD
  {
    if v < 26 then 65 + v
    else if v < 52 then 97 + (v - 26)
    else if v < 62 then 48 + (v - 52)
    else if v == 62 then 43
    else 47
  }

  /** Three bytes become four letters; a last group of one or two bytes is padded. */
  function Group(a: byte, b: byte, c: byte): (r: seq<byte>)
    ensures |r| == 4
  {
    [Letter(a / 4), Letter(a % 4 * 16 + b / 16), Letter(b % 16 * 4 + c / 64), Letter(c % 64)]
  }

  function Base64(data: seq<byte>): seq<byte> {
    if |data| == 0 then []
    else if |data| == 1 then Group(data[0], 0, 0)[..2] + [PAD, PAD]
    else if |data| == 2 then Group(data[0], data[1], 0)[..3] + [PAD]
    else Group(data[0], data[1], data[2]) + Base64(data[3..])
  }

  // ----- Reading the text back

  /** The place of a letter in the alphabet; 0 for the padding. */
  function Place(letter: byte): (r: nat)
    ensures r < 64
  {
    if 65 <= letter <= 90 then letter - 65
    else if 97 <= letter <= 122 then letter - 71
    else if 48 <= letter <= 57 then letter + 4
    else if letter == 43 then 62
    else if letter == 47 then 63
    else 0
  }

  lemma PlaceOfLetter(v: int)
    requires 0 <= v < 64
    ensures Place(Letter(v)) == v
  {
  }

  /** The 24 bits of four letters. */
  function Number24(a: byte, b: byte, c: byte, d: byte): nat {
    Place(a) * 0x40000 + Place(b) * 0x1000 + Place(c) * 0x40 + Place(d)
  }

  /** The three bytes of 24 bits. */
  function Three(n: nat): (r: seq<byte>)
    ensures |r| == 3
  {
    [n / 256 / 256 % 256, n / 256 % 256, n % 256]
  }

  /** Four letters at a time stand for three bytes, less one for every sign of padding. */
  function Decoded(text: seq<byte>): seq<byte>
    decreases |text|
  {
    if |text| < 4 then []
    else
      var three := Three(Number24(text[0], text[1], text[2], text[3]));
      three[..if text[2] == PAD then 1 else if text[3] == PAD then 2 else 3] + Decoded(text[4..])
  }

  lemma BitsOfGroup(a: byte, b: byte, c: byte)
    ensures var g := Group(a, b, c);
      Number24(g[0], g[1], g[2], g[3]) == a * 0x10000 + b * 0x100 + c
  {
    PlaceOfLetter(a / 4);
    PlaceOfLetter(a % 4 * 16 + b / 16);
    PlaceOfLetter(b % 16 * 4 + c / 64);
    PlaceOfLetter(c % 64);
  }

  lemma LastByte(high: nat, low: byte)
    ensures (high * 256 + low) / 256 == high && (high * 256 + low) % 256 == low
  {
  }

  lemma BytesOfNumber(a: byte, b: byte, c: byte)
    ensures Three(a * 0x10000 + b * 0x100 + c) == [a, b, c]
  {
    LastByte(a * 256 + b, c);
    LastByte(a, b);
    LastByte(0, a);
    assert a * 0x10000 + b * 0x100 + c == (a * 256 + b) * 256 + c;
  }

  lemma OneByte(a: byte)
    ensures Decoded(Base64([a])) == [a]
  {
    var text := Base64([a]);
    PlaceOfLetter(a / 4);
    PlaceOfLetter(a % 4 * 16);
    assert text == [Letter(a / 4), Letter(a % 4 * 16), PAD, PAD];
    assert Number24(text[0], text[1], text[2], text[3]) == a * 0x10000 + 0 * 0x100 + 0;
    BytesOfNumber(a, 0, 0);
    assert text[4..] == [] && Decoded(text[4..]) == [];
  }

  lemma TwoBytes(a: byte, b: byte)
    ensures Decoded(Base64([a, b])) == [a, b]
  {
    var text := Base64([a, b]);
    PlaceOfLetter(a / 4);
    PlaceOfLetter(a % 4 * 16 + b / 16);
    PlaceOfLetter(b % 16 * 4);
    assert text == [Letter(a / 4), Letter(a % 4 * 16 + b / 16), Letter(b % 16 * 4), PAD];
    assert Number24(text[0], text[1], text[2], text[3]) == a * 0x10000 + b * 0x100 + 0;
    BytesOfNumber(a, b, 0);
    assert text[4..] == [] && Decoded(text[4..]) == [];
  }

  lemma FourLetters(a: byte, b: byte, c: byte, rest: seq<byte>)
    ensures Decoded(Group(a, b, c) + rest) == [a, b, c] + Decoded(rest)
  {
    var g := Group(a, b, c);
    var text := g + rest;
    BitsOfGroup(a, b, c);
    BytesOfNumber(a, b, c);
    assert text[4..] == rest;
    assert text[0] == g[0] && text[1] == g[1] && text[2] == g[2] && text[3] == g[3];
    assert text[2] != PAD && text[3] != PAD;
    assert [a, b, c][..3] == [a, b, c];
  }

  /** The text reads back as the data. */
  lemma {:induction false} Base64RoundTrip(data: seq<byte>)
    ensures Decoded(Base64(data)) == data
    decreases |data|
  {
    if |data| == 0 {
    } else if |data| == 1 {
      OneByte(data[0]);
      assert data == [data[0]];
    } else if |data| == 2 {
      TwoBytes(data[0], data[1]);
      assert data == [data[0], data[1]];
    } else {
      FourLetters(data[0], data[1], data[2], Base64(data[3..]));
      Base64RoundTrip(data[3..]);
      assert [data[0], data[1], data[2]] + data[3..] == data;
    }
  }

  lemma Base64Injective(data: seq<byte>, other: seq<byte>)
    requires Base64(data) == Base64(other)
    ensures data == other
  {
    Base64RoundTrip(data);
    Base64RoundTrip(other);
  }

  lemma {:induction false} NoNulInBase64(data: seq<byte>)
    ensures NUL !in Base64(data)
  {
    if |data| >= 3 {
      NoNulInBase64(data[3..]);
    }
  }

  // ----- Numbers

  function Digits(n: nat): (r: seq<byte>)
    ensures |r| > 0 && forall i | 0 <= i < |r| :: 48 <= r[i] <= 57
  {
    if n < 10 then [48 + n] else Digits(n / 10) + [48 + n % 10]
  }

  function Number(n: int): seq<byte> {
    if n < 0 then [MINUS] + Digits(-n) else Digits(n)
  }

  /** The number a row of digits stands for. */
  function Natural(digits: seq<byte>): int {
    if digits == [] then 0
    else
      var last: int := digits[|digits| - 1];
      Natural(digits[..|digits| - 1]) * 10 + last - 48
  }

  function Integer(text: seq<byte>): int {
    if text != [] && text[0] == 45 then -Natural(text[1..]) else Natural(text)
  }

  lemma {:induction false} DigitsReadBack(n: nat)
    ensures Natural(Digits(n)) == n
  {
    if n < 10 {
      assert Natural([48 + n]) == Natural([48 + n][..0]) * 10 + n;
    } else {
      DigitsReadBack(n / 10);
      assert Digits(n)[..|Digits(n)| - 1] == Digits(n / 10);
    }
  }

  lemma NumberReadBack(n: int)
    ensures Integer(Number(n)) == n && FULL_STOP !in Number(n)
    ensures Number(n)[0] == 45 <==> n < 0
  {
    DigitsReadBack(if n < 0 then -n else n);
    if n < 0 {
      assert Number(n)[1..] == Digits(-n);
    }
  }

  lemma NumberInjective(n: int, m: int)
    requires Number(n) == Number(m)
    ensures n == m
  {
    NumberReadBack(n);
    NumberReadBack(m);
  }

  // ----- The message

  /** "BrickSuite-HMAC-v1". */
  const TITLE: seq<byte> := [66, 114, 105, 99, 107, 83, 117, 105, 116, 101, 45, 72, 77, 65, 67, 45, 118, 49]

  /** With the NUL byte written at the end of the literal. */
  const PREFIX := TITLE + [NUL]

  function AuthenticationInput(
    challenge: seq<byte>, nonce: seq<byte>, session: seq<byte>, major: int, minor: int): seq<byte>
  {
    PREFIX + (Base64(session) + ([NUL] + (Base64(challenge) + ([NUL] + (Base64(nonce)
      + ([NUL] + (Number(major) + [FULL_STOP] + Number(minor))))))))
  }

  /** The parts between the separators. */
  function Split(text: seq<byte>, separator: byte): (r: seq<seq<byte>>)
    ensures |r| > 0
  {
    if text == [] then [[]]
    else
      var rest := Split(text[1..], separator);
      if text[0] == separator then [[]] + rest else [[text[0]] + rest[0]] + rest[1..]
  }

  lemma {:induction false} SplitFirst(part: seq<byte>, separator: byte, rest: seq<byte>)
    requires separator !in part
    ensures Split(part + ([separator] + rest), separator) == [part] + Split(rest, separator)
    decreases |part|
  {
    if part == [] {
      assert part + ([separator] + rest) == [separator] + rest && ([separator] + rest)[1..] == rest;
    } else {
      SplitFirst(part[1..], separator, rest);
      assert (part + ([separator] + rest))[1..] == part[1..] + ([separator] + rest);
      assert [part[0]] + part[1..] == part;
    }
  }

  lemma {:induction false} SplitNothing(part: seq<byte>, separator: byte)
    requires separator !in part
    ensures Split(part, separator) == [part]
    decreases |part|
  {
    if part != [] {
      SplitNothing(part[1..], separator);
      assert [part[0]] + part[1..] == part;
    }
  }

  lemma NumberHasNoNul(n: int)
    ensures NUL !in Number(n)
  {
  }

  lemma Regroup(a: seq<byte>, separator: byte, rest: seq<byte>)
    ensures (a + [separator]) + rest == a + ([separator] + rest)
  {
  }

  lemma SplitFive(a: seq<byte>, b: seq<byte>, c: seq<byte>, d: seq<byte>, e: seq<byte>)
    requires NUL !in a && NUL !in b && NUL !in c && NUL !in d && NUL !in e
    ensures Split(a + ([NUL] + (b + ([NUL] + (c + ([NUL] + (d + ([NUL] + e))))))), NUL) == [a, b, c, d, e]
  {
    var four := d + ([NUL] + e);
    var three := c + ([NUL] + four);
    var two := b + ([NUL] + three);
    SplitFirst(a, NUL, two);
    SplitFirst(b, NUL, three);
    SplitFirst(c, NUL, four);
    SplitFirst(d, NUL, e);
    SplitNothing(e, NUL);
  }

  lemma PartsOfMessage(challenge: seq<byte>, nonce: seq<byte>, session: seq<byte>, major: int, minor: int)
    ensures Split(AuthenticationInput(challenge, nonce, session, major, minor), NUL)
      == [TITLE, Base64(session), Base64(challenge), Base64(nonce), Number(major) + [FULL_STOP] + Number(minor)]
  {
    var version := Number(major) + [FULL_STOP] + Number(minor);
    NoNulInBase64(session);
    NoNulInBase64(challenge);
    NoNulInBase64(nonce);
    NumberHasNoNul(major);
    NumberHasNoNul(minor);
    SplitFive(TITLE, Base64(session), Base64(challenge), Base64(nonce), version);
    var rest := Base64(session)
      + ([NUL] + (Base64(challenge) + ([NUL] + (Base64(nonce) + ([NUL] + version)))));
    Regroup(TITLE, NUL, rest);
  }

  lemma VersionReadBack(major: int, minor: int)
    ensures var version := Split(Number(major) + [FULL_STOP] + Number(minor), FULL_STOP);
      |version| == 2 && Integer(version[0]) == major && Integer(version[1]) == minor
  {
    NumberReadBack(major);
    NumberReadBack(minor);
    assert Number(major) + [FULL_STOP] + Number(minor) == Number(major) + ([FULL_STOP] + Number(minor));
    SplitFirst(Number(major), FULL_STOP, Number(minor));
    SplitNothing(Number(minor), FULL_STOP);
  }

  /** Cut at its NUL bytes, the message has five parts, and each reads back as what went into it. */
  lemma MessageReadBack(challenge: seq<byte>, nonce: seq<byte>, session: seq<byte>, major: int, minor: int)
    ensures var parts := Split(AuthenticationInput(challenge, nonce, session, major, minor), 0);
      && |parts| == 5
      && parts[0] == [66, 114, 105, 99, 107, 83, 117, 105, 116, 101, 45, 72, 77, 65, 67, 45, 118, 49]
      && Decoded(parts[1]) == session && Decoded(parts[2]) == challenge && Decoded(parts[3]) == nonce
      && var version := Split(parts[4], 46);
         |version| == 2 && Integer(version[0]) == major && Integer(version[1]) == minor
  {
    PartsOfMessage(challenge, nonce, session, major, minor);
    Base64RoundTrip(session);
    Base64RoundTrip(challenge);
    Base64RoundTrip(nonce);
    VersionReadBack(major, minor);
  }

  /** Two messages are the same only if everything that went into them is. */
  lemma Unambiguous(
    challenge: seq<byte>, nonce: seq<byte>, session: seq<byte>, major: int, minor: int,
    challenge': seq<byte>, nonce': seq<byte>, session': seq<byte>, major': int, minor': int)
    requires AuthenticationInput(challenge, nonce, session, major, minor)
      == AuthenticationInput(challenge', nonce', session', major', minor')
    ensures session == session' && challenge == challenge' && nonce == nonce' && major == major' && minor == minor'
  {
    MessageReadBack(challenge, nonce, session, major, minor);
    MessageReadBack(challenge', nonce', session', major', minor');
  }
}
