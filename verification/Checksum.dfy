/** CRC-32 as zlib computes it, and why computing it chunk by chunk gives the CRC of the whole. */
module Checksum {
  import opened Wrappers

  /** One bit of the reflected register (polynomial 0xEDB88320). */
  function Bit(c: bv32): bv32 {
    if c & 1 == 1 then (c >> 1) ^ 0xEDB88320 else c >> 1
  }

  function Not(c: bv32): bv32 {
    !c
  }

  /** A machine that reads its input one symbol at a time. */
  function Run<S, T>(step: (S, T) -> S, state: S, input: seq<T>): S {
    if input == [] then state else step(Run(step, state, input[..|input| - 1]), input[|input| - 1])
  }

  /** One byte: eight bits. */
  function Fold(c: bv32, b: byte): bv32 {
    Run((x, _) => Bit(x), c ^ (b as bv32), seq(8, k => k))
  }

  lemma {:induction false} RunOfParts<S, T>(step: (S, T) -> S, state: S, a: seq<T>, b: seq<T>)
    ensures Run(step, state, a + b) == Run(step, Run(step, state, a), b)
    decreases |b|
  {
    if b == [] {
      assert a + b == a;
    } else {
      assert (a + b)[..|a + b| - 1] == a + b[..|b| - 1];
      RunOfParts(step, state, a, b[..|b| - 1]);
    }
  }

  /** A machine whose state is stored flipped between runs. */
  function Flipped<S, T>(flip: S -> S, step: (S, T) -> S, state: S, input: seq<T>): S {
    flip(Run(step, flip(state), input))
  }

  lemma FlippedOfParts<S(!new), T>(flip: S -> S, step: (S, T) -> S, state: S, a: seq<T>, b: seq<T>)
    requires forall x :: flip(flip(x)) == x
    ensures Flipped(flip, step, Flipped(flip, step, state, a), b) == Flipped(flip, step, state, a + b)
  {
    RunOfParts(step, flip(state), a, b);
  }

  /** A checksum as it is carried along and compared. */
  datatype Sum = Sum(register: bv32) {
    function Value(): nat {
      register as nat
    }
  }

  /** crc32 of nothing. */
  const START := Sum(0)

  /** zlib's crc32: continues from an earlier value, START to begin with. */
  function Crc32(crc: Sum, data: seq<byte>): Sum {
    Sum(Flipped(Not, Fold, crc.register, data))
  }

  lemma NotNot()
    ensures forall x :: Not(Not(x)) == x
  {
  }

  /** Chunk by chunk gives the CRC of the whole. */
  lemma CrcOfParts(crc: Sum, a: seq<byte>, b: seq<byte>)
    ensures Crc32(Crc32(crc, a), b) == Crc32(crc, a + b)
  {
    NotNot();
    FlippedOfParts(Not, Fold, crc.register, a, b);
  }

  /** The checksum of a whole file, before any byte of it too. */
  function Crc(data: seq<byte>): Sum {
    Crc32(START, data)
  }

  lemma CrcOfNothing()
    ensures Crc([]) == START
  {
    NotNot();
  }

  // ----- Which checksum it is

  /**
   One step divides by the variable: shifted back, the register is what it was, less the polynomial of CRC-32
   (x to the power 32 included, lowest power last) where that is needed for the division to come out.
   */
  lemma BitDivides(c: bv32)
    ensures (Bit(c) as bv33) << 1 == (c as bv33) ^ if c & 1 == 1 then 0x1DB710641 else 0
  {
  }

  lemma EightBits(c: bv32)
    ensures Run((x, _) => Bit(x), c, seq(8, k => k)) == Bit(Bit(Bit(Bit(Bit(Bit(Bit(Bit(c))))))))
  {
    var f := (x: bv32, k: int) => Bit(x);
    var all := seq(8, k => k);
    assert all[..7][..6] == all[..6] && all[..6][..5] == all[..5] && all[..5][..4] == all[..4];
    assert all[..4][..3] == all[..3] && all[..3][..2] == all[..2] && all[..2][..1] == all[..1];
    assert all[..1][..0] == all[..0] == [];
    assert Run(f, c, all[..1]) == Bit(c);
    assert Run(f, c, all[..2]) == Bit(Bit(c));
    assert Run(f, c, all[..3]) == Bit(Bit(Bit(c)));
    assert Run(f, c, all[..4]) == Bit(Bit(Bit(Bit(c))));
    assert Run(f, c, all[..5]) == Bit(Bit(Bit(Bit(Bit(c)))));
    assert Run(f, c, all[..6]) == Bit(Bit(Bit(Bit(Bit(Bit(c))))));
    assert Run(f, c, all[..7]) == Bit(Bit(Bit(Bit(Bit(Bit(Bit(c)))))));
  }

  function Eight(c: bv32): bv32 {
    Bit(Bit(Bit(Bit(Bit(Bit(Bit(Bit(c))))))))
  }

  lemma FoldIsEightBits(c: bv32, b: byte)
    ensures Fold(c, b) == Eight(c ^ (b as bv32))
  {
    EightBits(c ^ (b as bv32));
  }

  lemma Registers()
    ensures Eight(0xFFFFFFFF ^ 97) == 0x174841BC
    ensures Eight(0x174841BC ^ 98) == 0x617CB792
    ensures Eight(0x617CB792 ^ 99) == 0xCADBBE3D
  {
  }

  lemma LetterAsBits()
    ensures (97 as byte) as bv32 == 97 && (98 as byte) as bv32 == 98 && (99 as byte) as bv32 == 99
  {
  }

  lemma FoldOfA()
    ensures Fold(0xFFFFFFFF, 97) == 0x174841BC
  {
    FoldIsEightBits(0xFFFFFFFF, 97);
    LetterAsBits();
    Registers();
  }

  lemma FoldOfB()
    ensures Fold(0x174841BC, 98) == 0x617CB792
  {
    FoldIsEightBits(0x174841BC, 98);
    LetterAsBits();
    Registers();
  }

  lemma FoldOfC()
    ensures Fold(0x617CB792, 99) == 0xCADBBE3D
  {
    FoldIsEightBits(0x617CB792, 99);
    LetterAsBits();
    Registers();
  }

  lemma RunOfThree<S, T>(step: (S, T) -> S, state: S, a: T, b: T, c: T)
    ensures Run(step, state, [a, b, c]) == step(step(step(state, a), b), c)
  {
    assert [a, b, c][..2] == [a, b] && [a, b][..1] == [a] && [a][..0] == [];
    assert Run(step, state, [a]) == step(state, a);
    assert Run(step, state, [a, b]) == step(step(state, a), b);
  }

  /** The checksum of "abc" is the one every CRC-32 gives. */
  lemma KnownValue()
    ensures Crc([97, 98, 99]) == Sum(0x352441C2)
  {
    FoldOfA();
    FoldOfB();
    FoldOfC();
    RunOfThree(Fold, 0xFFFFFFFF, 97, 98, 99);
  }
}
