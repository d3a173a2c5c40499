/** The table-driven CRC-32 of crc.cpp: the reflected CRC-32 with
    polynomial 0xEDB88320 of ITU-T V.42 section 8.1.1.6.2, the checksum a
    PAK archive keeps for each packed file.

    `Crc32` precomputes, for every byte value, the effect of eight shifts of
    the bitwise register; `calculate` then consumes a message one byte per
    table lookup.  The functions below say what the table holds and what
    the accumulator is after any prefix of the message; the class computes
    exactly that, and the lemmas show that the lookups agree with the
    register shifted one bit at a time.

    A message is a sequence of `char`s, each given by its eight bits.
 */
module Crc {

  import Common

  /** The cursor keeps bytes as numbers (`Common.byte`) for its big-endian
      arithmetic; the checksum works on their bits.  This is the one
      conversion between the two. */
  function CharOf(b: Common.byte): (c: bv8)
  {
    b as bv8
  }

  /** The reflected generator polynomial (crc.h:4). */
  const POLYNOMIAL: bv32 := 0xEDB8_8320

  /** The accumulator before the first byte.  crc.cpp uses
      `CRC32_INITIAL`, but neither crc.h, crc.cpp nor common.h defines it;
      the standard value, all ones, is assumed. */
  const INITIAL: bv32 := 0xFFFF_FFFF

  /** One shift of the register: out goes the low bit, and when it was set
      the polynomial is folded in. */
  function Round(x: bv32): bv32
  {
    if x & 1 == 1 then POLYNOMIAL ^ (x >> 1) else x >> 1
  }

  /** `k` shifts of the register.  (`x` takes part in the termination
      measure so that a literal `k` alone does not unroll the recursion.) */
  function Rounds(x: bv32, k: nat): bv32
    decreases k, x
  {
    if k == 0 then x else Rounds(Round(x), k - 1)
  }

  /** What the constructor stores at index `i`: eight shifts applied to `i`. */
  function TableEntry(i: bv8): bv32
  {
    Rounds(i as bv32, 8)
  }

  /** A `char` of the message as it takes part in `crc ^ message[i]`: the
      source's `char` is signed, so a byte whose top bit is set (a negative
      `char`) is sign-extended when promoted to 32 bits. */
  function Promote(c: bv8): bv32
  {
    if c & 0x80 == 0 then c as bv32 else c as bv32 | 0xFFFF_FF00
  }

  /** The table index the source computes for `char` `c`. */
  function Index(crc: bv32, c: bv8): bv8
  {
    ((crc ^ Promote(c)) & 0xFF) as bv8
  }

  /** One iteration of the loop in `calculate`. */
  function Update(crc: bv32, c: bv8): bv32
  {
    TableEntry(Index(crc, c)) ^ (crc >> 8)
  }

  /** The accumulator after the `char`s of `msg`, starting from `crc`. */
  function Accumulate(crc: bv32, msg: seq<bv8>): bv32
  {
    if msg == [] then crc else Update(Accumulate(crc, msg[..|msg| - 1]), msg[|msg| - 1])
  }

  /** What `calculate` returns: the complement of the final accumulator. */
  function Checksum(msg: seq<bv8>): bv32
  {
    !Accumulate(INITIAL, msg)
  }

  // ---------------------------------------------------------------------
  // The bitwise reference: the same CRC computed one bit at a time, with
  // the byte taken as it is, as ITU-T V.42 describes the shift register.

  function BitwiseUpdate(crc: bv32, c: bv8): bv32
  {
    Rounds(crc ^ (c as bv32), 8)
  }

  function BitwiseAccumulate(crc: bv32, msg: seq<bv8>): bv32
  {
    if msg == [] then crc else BitwiseUpdate(BitwiseAccumulate(crc, msg[..|msg| - 1]), msg[|msg| - 1])
  }

  function BitwiseChecksum(msg: seq<bv8>): bv32
  {
    !BitwiseAccumulate(INITIAL, msg)
  }

  // ---------------------------------------------------------------------
  // The table

  /** Entry 0 is 0, entry 128 is the polynomial itself, and entries 1 and
      255 are those of the published CRC-32 table. */
  lemma TableLandmarks()
    ensures TableEntry(0) == 0
    ensures TableEntry(128) == POLYNOMIAL
    ensures TableEntry(1) == 0x7707_3096
    ensures TableEntry(255) == 0x2D02_EF8D
  {
    assert TableEntry(0) == Rounds(0, 8);
    assert TableEntry(128) == Rounds(128, 8);
    assert TableEntry(1) == Rounds(1, 8);
    assert TableEntry(255) == Rounds(255, 8);
  }

  /** Only the low eight bits of the promoted `char` reach the index: a
      signed and an unsigned `char` select the same entry. */
  lemma IndexIgnoresSign(crc: bv32, c: bv8)
    ensures Index(crc, c) == ((crc & 0xFF) as bv8) ^ c
  {
  }

  // ---------------------------------------------------------------------
  // Linearity of the register

  /** Exclusive or, named so that quantifiers over it have a trigger. */
  function Xor(a: bv32, b: bv32): bv32
  {
    a ^ b
  }

  /** A shift of the register distributes over exclusive or. */
  lemma RoundLinear(x: bv32, y: bv32)
    ensures Round(x ^ y) == Round(x) ^ Round(y)
  {
    if x & 1 == 1 {
      if y & 1 == 1 {
        RoundLinearOdd(x, y);
      } else {
        RoundLinearMixed(x, y);
      }
    } else if y & 1 == 1 {
      RoundLinearMixed(y, x);
      assert y ^ x == x ^ y;
    } else {
      RoundLinearEven(x, y);
    }
  }

  lemma RoundLinearOdd(x: bv32, y: bv32)
    requires x & 1 == 1 && y & 1 == 1
    ensures Round(x ^ y) == Round(x) ^ Round(y)
  {
    assert (x ^ y) & 1 == 0;
  }

  lemma RoundLinearMixed(x: bv32, y: bv32)
    requires x & 1 == 1 && y & 1 == 0
    ensures Round(x ^ y) == Round(x) ^ Round(y)
  {
    assert (x ^ y) & 1 == 1;
  }

  lemma RoundLinearEven(x: bv32, y: bv32)
    requires x & 1 == 0 && y & 1 == 0
    ensures Round(x ^ y) == Round(x) ^ Round(y)
  {
    assert (x ^ y) & 1 == 0;
  }

  lemma RoundIsLinear()
    ensures forall a, b :: Round(Xor(a, b)) == Xor(Round(a), Round(b))
  {
    forall a, b
      ensures Round(Xor(a, b)) == Xor(Round(a), Round(b))
    {
      RoundLinear(a, b);
    }
  }

  /** `k` applications of `f`. */
  function Iter<T>(f: T -> T, x: T, k: nat): T
    decreases k
  {
    if k == 0 then x else Iter(f, f(x), k - 1)
  }

  /** A map that distributes over `g` still does after `k` applications. */
  lemma {:induction false} IterLinear<T>(f: T -> T, g: (T, T) -> T, x: T, y: T, k: nat)
    requires forall a, b :: f(g(a, b)) == g(f(a), f(b))
    ensures Iter(f, g(x, y), k) == g(Iter(f, x, k), Iter(f, y, k))
    decreases k
  {
    if k > 0 {
      IterLinear(f, g, f(x), f(y), k - 1);
    }
  }

  lemma {:induction false} RoundsIsIter(x: bv32, k: nat)
    ensures Rounds(x, k) == Iter(Round, x, k)
    decreases k
  {
    if k > 0 {
      RoundsIsIter(Round(x), k - 1);
    }
  }

  /** Any number of shifts distributes over exclusive or. */
  lemma RoundsLinear(x: bv32, y: bv32, k: nat)
    ensures Rounds(Xor(x, y), k) == Xor(Rounds(x, k), Rounds(y, k))
  {
    RoundIsLinear();
    IterLinear(Round, Xor, x, y, k);
    RoundsIsIter(x, k);
    RoundsIsIter(y, k);
    RoundsIsIter(Xor(x, y), k);
  }

  /** Eight shifts move a value whose low byte is clear down by eight bits:
      no set bit reaches the bottom, so the polynomial is never folded in. */
  lemma RoundsOfHighBits(y: bv32)
    requires y & 0xFF == 0
    ensures Rounds(y, 8) == y >> 8
  {
    RoundsEight(y);
    FourEven(y);
    assert (y >> 4) & 0xF == 0 && (y >> 4) >> 4 == y >> 8;
    FourEven(y >> 4);
  }

  lemma FourEven(x: bv32)
    requires x & 0xF == 0
    ensures Round(Round(Round(Round(x)))) == x >> 4
  {
    TwoEven(x);
    assert (x >> 2) & 3 == 0 && (x >> 2) >> 2 == x >> 4;
    TwoEven(x >> 2);
  }

  lemma TwoEven(x: bv32)
    requires x & 3 == 0
    ensures Round(Round(x)) == x >> 2
  {
    assert Round(x) == x >> 1;
    assert (x >> 1) & 1 == 0 && (x >> 1) >> 1 == x >> 2;
  }

  lemma RoundsEight(x: bv32)
    ensures Rounds(x, 8) == Round(Round(Round(Round(Round(Round(Round(Round(x))))))))
  {
    var x1 := Round(x);
    var x2 := Round(x1);
    var x3 := Round(x2);
    var x4 := Round(x3);
    var x5 := Round(x4);
    var x6 := Round(x5);
    var x7 := Round(x6);
    var x8 := Round(x7);
    assert Rounds(x, 8) == Rounds(x1, 7);
    assert Rounds(x1, 7) == Rounds(x2, 6);
    assert Rounds(x2, 6) == Rounds(x3, 5);
    assert Rounds(x3, 5) == Rounds(x4, 4);
    assert Rounds(x4, 4) == Rounds(x5, 3);
    assert Rounds(x5, 3) == Rounds(x6, 2);
    assert Rounds(x6, 2) == Rounds(x7, 1);
    assert Rounds(x7, 1) == Rounds(x8, 0);
  }

  // ---------------------------------------------------------------------
  // The table-driven checksum against the bitwise one

  /** The entry the source looks up is eight shifts of the low byte of
      `crc ^ c`. */
  lemma LookupIsLowByteRounds(crc: bv32, c: bv8)
    ensures TableEntry(Index(crc, c)) == Rounds((crc ^ (c as bv32)) & 0xFF, 8)
  {
    IndexWord(crc, c);
  }

  /** The index, widened back to a word, is the low byte of `crc ^ c`. */
  lemma IndexWord(crc: bv32, c: bv8)
    ensures Index(crc, c) as bv32 == (crc ^ (c as bv32)) & 0xFF
  {
  }

  /** Splitting the register, with the `char` folded in, into its low byte
      and the rest. */
  lemma SplitLowByte(crc: bv32, c: bv8)
    ensures crc ^ (c as bv32) == Xor((crc ^ (c as bv32)) & 0xFF, crc & 0xFFFF_FF00)
  {
  }

  /** The bitwise update, split into the shifts of the low byte of
      `crc ^ c` and those of the rest of the register. */
  lemma BitwiseSplit(crc: bv32, c: bv8)
    ensures BitwiseUpdate(crc, c) == Xor(Rounds((crc ^ (c as bv32)) & 0xFF, 8), Rounds(crc & 0xFFFF_FF00, 8))
  {
    SplitLowByte(crc, c);
    RoundsLinear((crc ^ (c as bv32)) & 0xFF, crc & 0xFFFF_FF00, 8);
  }

  /** The rest of the register only moves down by a byte. */
  lemma HighPartRounds(crc: bv32)
    ensures Rounds(crc & 0xFFFF_FF00, 8) == crc >> 8
  {
    assert (crc & 0xFFFF_FF00) & 0xFF == 0;
    RoundsOfHighBits(crc & 0xFFFF_FF00);
    assert (crc & 0xFFFF_FF00) >> 8 == crc >> 8;
  }

  /** One table lookup does the work of eight shifts of the register. */
  lemma TableStepIsBitwise(crc: bv32, c: bv8)
    ensures Update(crc, c) == BitwiseUpdate(crc, c)
  {
    BitwiseSplit(crc, c);
    HighPartRounds(crc);
    LookupIsLowByteRounds(crc, c);
    UpdateIsXor(crc, c);
  }

  lemma UpdateIsXor(crc: bv32, c: bv8)
    ensures Update(crc, c) == Xor(TableEntry(Index(crc, c)), crc >> 8)
  {
  }

  /** The table-driven accumulator equals the bitwise one. */
  lemma {:induction false} AccumulateIsBitwise(crc: bv32, msg: seq<bv8>)
    ensures Accumulate(crc, msg) == BitwiseAccumulate(crc, msg)
  {
    if msg != [] {
      AccumulateIsBitwise(crc, msg[..|msg| - 1]);
      TableStepIsBitwise(Accumulate(crc, msg[..|msg| - 1]), msg[|msg| - 1]);
    }
  }

  /** The table-driven checksum equals the bitwise one. */
  lemma ChecksumIsBitwise(msg: seq<bv8>)
    ensures Checksum(msg) == BitwiseChecksum(msg)
  {
    var a, b := Accumulate(INITIAL, msg), BitwiseAccumulate(INITIAL, msg);
    AccumulateIsBitwise(INITIAL, msg);
    assert a == b;
  }

  /** The standard check value of CRC-32: the checksum of the ASCII digits
      "123456789" is 0xCBF43926. */
  lemma CheckValue()
    ensures Checksum([0x31, 0x32, 0x33, 0x34, 0x35, 0x36, 0x37, 0x38, 0x39]) == 0xCBF4_3926
  {
    var m0: seq<bv8> := [];
    KnownUpdate(INITIAL, 0x31, 0xFFFF_FFCE, 0x7C23_1048);
    BitwiseStep(INITIAL, m0, 0x31, INITIAL, 0x7C23_1048);
    var m1 := m0 + [0x31];
    KnownUpdate(0x7C23_1048, 0x32, 0x7C23_107A, 0xB0AC_BB32);
    BitwiseStep(INITIAL, m1, 0x32, 0x7C23_1048, 0xB0AC_BB32);
    var m2 := m1 + [0x32];
    KnownUpdate(0xB0AC_BB32, 0x33, 0xB0AC_BB01, 0x77B7_9C2D);
    BitwiseStep(INITIAL, m2, 0x33, 0xB0AC_BB32, 0x77B7_9C2D);
    var m3 := m2 + [0x33];
    KnownUpdate(0x77B7_9C2D, 0x34, 0x77B7_9C19, 0x641C_1F5C);
    BitwiseStep(INITIAL, m3, 0x34, 0x77B7_9C2D, 0x641C_1F5C);
    var m4 := m3 + [0x34];
    KnownUpdate(0x641C_1F5C, 0x35, 0x641C_1F69, 0x340A_C5E3);
    BitwiseStep(INITIAL, m4, 0x35, 0x641C_1F5C, 0x340A_C5E3);
    var m5 := m4 + [0x35];
    KnownUpdate(0x340A_C5E3, 0x36, 0x340A_C5D5, 0xF68D_2C9E);
    BitwiseStep(INITIAL, m5, 0x36, 0x340A_C5E3, 0xF68D_2C9E);
    var m6 := m5 + [0x36];
    KnownUpdate(0xF68D_2C9E, 0x37, 0xF68D_2CA9, 0xAFFC_9660);
    BitwiseStep(INITIAL, m6, 0x37, 0xF68D_2C9E, 0xAFFC_9660);
    var m7 := m6 + [0x37];
    KnownUpdate(0xAFFC_9660, 0x38, 0xAFFC_9658, 0x651F_2550);
    BitwiseStep(INITIAL, m7, 0x38, 0xAFFC_9660, 0x651F_2550);
    var m8 := m7 + [0x38];
    KnownUpdate(0x651F_2550, 0x39, 0x651F_2569, 0x340B_C6D9);
    BitwiseStep(INITIAL, m8, 0x39, 0x651F_2550, 0x340B_C6D9);
    var m9 := m8 + [0x39];
    assert m9 == [0x31, 0x32, 0x33, 0x34, 0x35, 0x36, 0x37, 0x38, 0x39];
    AccumulateIsBitwise(INITIAL, m9);
  }

  /** A bitwise update with known operands. */
  lemma KnownUpdate(crc: bv32, c: bv8, x: bv32, r: bv32)
    requires crc ^ (c as bv32) == x && Rounds(x, 8) == r
    ensures BitwiseUpdate(crc, c) == r
  {
  }

  /** One more `char` of a message, from a known bitwise accumulator to a
      known one. */
  lemma BitwiseStep(crc: bv32, msg: seq<bv8>, c: bv8, before: bv32, after: bv32)
    requires BitwiseAccumulate(crc, msg) == before && BitwiseUpdate(before, c) == after
    ensures BitwiseAccumulate(crc, msg + [c]) == after
  {
    assert (msg + [c])[..|msg|] == msg;
  }

  // ---------------------------------------------------------------------
  // The accumulator as a fold

  /** Appending one `char` performs one more update. */
  lemma AccumulateStep(crc: bv32, msg: seq<bv8>, c: bv8)
    ensures Accumulate(crc, msg + [c]) == Update(Accumulate(crc, msg), c)
  {
    assert (msg + [c])[..|msg|] == msg;
  }

  /** The accumulator is a left fold: a message can be processed in pieces,
      each piece starting from the state the previous one left. */
  lemma {:induction false} AccumulateAppend(crc: bv32, a: seq<bv8>, b: seq<bv8>)
    ensures Accumulate(crc, a + b) == Accumulate(Accumulate(crc, a), b)
    decreases |b|
  {
    if b != [] {
      assert (a + b)[..|a + b| - 1] == a + b[..|b| - 1];
      AccumulateAppend(crc, a, b[..|b| - 1]);
    } else {
      assert a + b == a;
    }
  }

  /** The empty message leaves the accumulator at its initial value, whose
      complement is 0. */
  lemma EmptyChecksum()
    ensures Checksum([]) == !INITIAL == 0
  {
  }

  // ---------------------------------------------------------------------
  // The class

  /** `class Crc32`: the lookup table and the checksum that uses it. */
  class Crc32 {
    const table: array<bv32>

    ghost predicate Valid()
      reads this, table
    {
      table.Length == 256 && forall i :: 0 <= i < 256 ==> table[i] == TableEntry(i as bv8)
    }

    /** Fills the table, entry by entry, with eight shifts of the register. */
    constructor ()
      ensures Valid() && fresh(table)
    {
      table := new bv32[256];
      new;
      var tableIdx := 0;
      while tableIdx < 256
        invariant 0 <= tableIdx <= 256
        invariant forall i :: 0 <= i < tableIdx ==> table[i] == TableEntry(i as bv8)
        modifies table
      {
        var crc: bv32 := tableIdx as bv32;
        var bit := 0;
        while bit < 8
          invariant 0 <= bit <= 8
          invariant Rounds(crc, 8 - bit) == TableEntry(tableIdx as bv8)
        {
          if crc & 1 == 1 {
            crc := POLYNOMIAL ^ (crc >> 1);
          } else {
            crc := crc >> 1;
          }
          bit := bit + 1;
        }
        table[tableIdx] := crc;
        tableIdx := tableIdx + 1;
      }
    }

    /** One iteration of the loop in `calculate`, on the stored table. */
    function Step(crc: bv32, c: bv8): (r: bv32)
      requires Valid()
      reads this, table
      ensures r == Update(crc, c)
    {
      table[Index(crc, c) as int] ^ (crc >> 8)
    }

    /** The checksum of the first `size` `char`s of `message`; neither the
        table nor the message is changed. */
    method Calculate(message: array<bv8>, size: nat) returns (r: bv32)
      requires Valid() && size <= message.Length
      ensures r == Checksum(message[..size])
    {
      var crc := INITIAL;
      for i := 0 to size
        invariant crc == Accumulate(INITIAL, message[..i])
      {
        assert message[..i + 1] == message[..i] + [message[i]];
        AccumulateStep(INITIAL, message[..i], message[i]);
        crc := Step(crc, message[i]);
      }
      return !crc;
    }
  }
}
