/** Single bits of 64-bit words, indexed by integers. Shift amounts in Dafny are 7-bit words, so the
    first half relates a small integer to its 7-bit word. */
module Bits {

  predicate WordBit(word: bv64, i: bv7)
    requires i < 64
  {
    (word >> i) & 1 == 1
  }

  /** Bit `i` of `word`, counted from the least significant. */
  predicate Bit(word: bv64, i: nat)
    requires i < 64
  {
    IndexFits(i);
    WordBit(word, i as bv7)
  }

  function WordShl(word: bv64, n: bv7): bv64
    requires n < 64
  {
    word << n
  }

  function ShlOne(word: bv64): bv64 {
    word << 1
  }

  function WordOneHot(i: bv7): bv64
    requires i < 64
  {
    1 << i
  }

  /** `word` shifted left by `n` places. */
  function Shl(word: bv64, n: nat): bv64
    requires n < 64
  {
    IndexFits(n);
    WordShl(word, n as bv7)
  }

  /** The mask `1 << i`. */
  function OneHot(i: nat): bv64
    requires i < 64
  {
    IndexFits(i);
    WordOneHot(i as bv7)
  }

  /** Whether `word` and `mask` share a bit. */
  predicate Test(word: bv64, mask: bv64) {
    word & mask != 0
  }

  // ----- integers and 7-bit words -----

  lemma WordNext(a: bv7)
    requires a as nat < 64
    ensures (a + 1) as nat == (a as nat) + 1
  {
  }

  lemma WordLess(a: bv7, b: bv7)
    ensures a < b <==> (a as nat) < (b as nat)
  {
  }

  lemma WordBack(a: bv7)
    ensures (a as nat) as bv7 == a
  {
  }

  lemma {:induction false} IndexValue(i: nat)
    requires i < 64
    ensures (i as bv7) as nat == i
  {
    if i > 0 {
      IndexValue(i - 1);
      WordNext((i - 1) as bv7);
      WordBack(((i - 1) as bv7) + 1);
    }
  }

  lemma IndexFits(i: nat)
    requires i < 64
    ensures (i as bv7) < 64
  {
    IndexValue(i);
    WordLess(i as bv7, 64);
  }

  lemma BelowLast(i: nat)
    requires i < 63
    ensures (i as bv7) < 63
  {
    IndexValue(i);
    WordLess(i as bv7, 63);
  }

  lemma IndexNext(i: nat)
    requires i < 63
    ensures (i + 1) as bv7 == (i as bv7) + 1
  {
    IndexValue(i);
    WordNext(i as bv7);
    WordBack((i as bv7) + 1);
  }

  // ----- shifts and masks on words -----

  lemma WordShiftClears(word: bv64, n: bv7, i: bv7)
    requires i < n < 64
    ensures !WordBit(WordShl(word, n), i)
  {
  }

  predicate Odd(n: bv7) {
    n & 1 == 1
  }

  lemma WordShlNextOdd(word: bv64, n: bv7)
    requires n < 63 && Odd(n)
    ensures WordShl(word, n + 1) == ShlOne(WordShl(word, n))
  {
  }

  lemma WordShlNextEven(word: bv64, n: bv7)
    requires n < 63 && !Odd(n)
    ensures WordShl(word, n + 1) == ShlOne(WordShl(word, n))
  {
  }

  lemma WordShlNext(word: bv64, n: bv7)
    requires n < 63
    ensures WordShl(word, n + 1) == ShlOne(WordShl(word, n))
  {
    hide WordShl, ShlOne, Odd;
    if Odd(n) {
      WordShlNextOdd(word, n);
    } else {
      WordShlNextEven(word, n);
    }
  }

  lemma WordShiftMoves(word: bv64, j: bv7)
    requires j < 63
    ensures WordBit(ShlOne(word), j + 1) <==> WordBit(word, j)
  {
  }

  lemma WordOr(word: bv64, j: bv7, i: bv7)
    requires j < 64 && i < 64
    ensures WordBit(word | WordOneHot(j), i) <==> i == j || WordBit(word, i)
  {
  }

  lemma WordMask(word: bv64, i: bv7)
    requires i < 64
    ensures WordBit(word, i) <==> Test(word, WordOneHot(i))
  {
  }

  // ----- the same on integer indices -----

  lemma ZeroHasNoBit(i: nat)
    requires i < 64
    ensures !Bit(0, i)
  {
    IndexFits(i);
  }

  lemma ShiftClears(word: bv64, n: nat, i: nat)
    requires i < n < 64
    ensures !Bit(Shl(word, n), i)
  {
    hide WordBit, WordShl, WordOneHot;
    IndexFits(i);
    IndexFits(n);
    IndexValue(i);
    IndexValue(n);
    WordLess(i as bv7, n as bv7);
    WordShiftClears(word, n as bv7, i as bv7);
  }

  lemma ShlNext(word: bv64, n: nat)
    requires n < 63
    ensures Shl(word, n + 1) == ShlOne(Shl(word, n))
  {
    hide WordShl, ShlOne;
    IndexNext(n);
    IndexFits(n);
    IndexFits(n + 1);
    BelowLast(n);
    WordShlNext(word, n as bv7);
  }

  lemma OneMoves(word: bv64, j: nat)
    requires j < 63
    ensures Bit(ShlOne(word), j + 1) <==> Bit(word, j)
  {
    hide WordBit, ShlOne;
    IndexNext(j);
    IndexFits(j);
    IndexFits(j + 1);
    BelowLast(j);
    WordShiftMoves(word, j as bv7);
  }

  lemma {:induction false} ShiftMoves(word: bv64, n: nat, j: nat)
    requires n + j < 64
    ensures Bit(Shl(word, n), n + j) <==> Bit(word, j)
  {
    hide Bit, Shl, ShlOne;
    if n == 0 {
      ShiftNone(word);
    } else {
      ShlNext(word, n - 1);
      OneMoves(Shl(word, n - 1), n - 1 + j);
      ShiftMoves(word, n - 1, j);
    }
  }

  lemma ShiftNone(word: bv64)
    ensures Shl(word, 0) == word
  {
  }

  lemma OrSets(word: bv64, j: nat, i: nat)
    requires j < 64 && i < 64
    ensures Bit(word | OneHot(j), i) <==> i == j || Bit(word, i)
  {
    hide WordBit, WordShl, WordOneHot;
    IndexFits(i);
    IndexFits(j);
    IndexValue(i);
    IndexValue(j);
    WordOr(word, j as bv7, i as bv7);
  }

  lemma MaskTests(word: bv64, i: nat)
    requires i < 64
    ensures Bit(word, i) <==> Test(word, OneHot(i))
  {
    hide WordBit, WordShl, WordOneHot, Test;
    IndexFits(i);
    WordMask(word, i as bv7);
  }

  /** `~((1 << start) - 1) & ((1 << end) - 1)`. */
  function WordRange(start: bv7, end: bv7): bv64
    requires start <= 8 && end <= 8
  {
    !((1 << start) - 1) & ((1 << end) - 1)
  }

  function Range(start: nat, end: nat): bv64
    requires start <= 8 && end <= 8
  {
    EightFits(start);
    EightFits(end);
    WordRange(start as bv7, end as bv7)
  }

  lemma EightFits(i: nat)
    requires i <= 8
    ensures (i as bv7) <= 8
  {
    IndexValue(i);
    WordLess(8, i as bv7);
  }

  lemma WordRangeSets(start: bv7, end: bv7, i: bv7)
    requires start <= 8 && end <= 8 && i < 8
    ensures WordBit(WordRange(start, end), i) <==> start <= i < end
  {
  }

  lemma RangeSets(start: nat, end: nat, i: nat)
    requires start <= 8 && end <= 8 && i < 8
    ensures Bit(Range(start, end), i) <==> start <= i < end
  {
    hide WordBit, WordRange;
    EightFits(start);
    EightFits(end);
    IndexValue(start);
    IndexValue(end);
    IndexValue(i);
    var s, e, b := start as bv7, end as bv7, i as bv7;
    WordLess(b, s);
    WordLess(b, e);
    WordLess(b, 8);
    WordRangeSets(s, e, b);
  }

  // ----- bytes -----

  /** Bit `i` of a byte. */
  predicate ByteBit(b: bv8, i: nat)
    requires i < 8
  {
    Bit(b as bv64, i)
  }

  /** The low byte of a word. */
  function LowByte(word: bv64): bv8 {
    (word & 0xff) as bv8
  }

  lemma LowByteKeepsBits(word: bv64, i: nat)
    requires i < 8
    ensures ByteBit(LowByte(word), i) <==> Bit(word, i)
  {
    IndexFits(i);
    IndexValue(i);
    WordLess(i as bv7, 8);
    LowByteWord(word, i as bv7);
  }

  lemma LowByteWord(word: bv64, i: bv7)
    requires i < 8
    ensures WordBit(LowByte(word) as bv64, i) <==> WordBit(word, i)
  {
  }

  lemma OrByteWord(a: bv8, b: bv8, i: bv7)
    requires i < 8
    ensures WordBit((a | b) as bv64, i) <==> WordBit(a as bv64, i) || WordBit(b as bv64, i)
  {
  }

  function OrBytes(a: bv8, b: bv8): bv8 {
    a | b
  }

  lemma OrByte(a: bv8, b: bv8, i: nat)
    requires i < 8
    ensures ByteBit(OrBytes(a, b), i) <==> ByteBit(a, i) || ByteBit(b, i)
  {
    IndexFits(i);
    IndexValue(i);
    WordLess(i as bv7, 8);
    OrByteWord(a, b, i as bv7);
  }

  lemma FullByte(i: nat)
    requires i < 8
    ensures ByteBit(0xff, i) && !ByteBit(0, i)
  {
    IndexFits(i);
    IndexValue(i);
    WordLess(i as bv7, 8);
    FullByteWord(i as bv7);
  }

  lemma FullByteWord(i: bv7)
    requires i < 8
    ensures WordBit(0xff as bv8 as bv64, i) && !WordBit(0 as bv8 as bv64, i)
  {
  }

  /** Two bytes with the same bits are the same byte. */
  lemma ByteExtensional(a: bv8, b: bv8)
    requires forall i | 0 <= i < 8 :: ByteBit(a, i) <==> ByteBit(b, i)
    ensures a == b
  {
    assert forall i | i in [0, 1, 2, 3, 4, 5, 6, 7] :: ByteBit(a, i) <==> ByteBit(b, i);
    assert ByteBit(a, 0) <==> ByteBit(b, 0);
    assert ByteBit(a, 1) <==> ByteBit(b, 1);
    assert ByteBit(a, 2) <==> ByteBit(b, 2);
    assert ByteBit(a, 3) <==> ByteBit(b, 3);
    assert ByteBit(a, 4) <==> ByteBit(b, 4);
    assert ByteBit(a, 5) <==> ByteBit(b, 5);
    assert ByteBit(a, 6) <==> ByteBit(b, 6);
    assert ByteBit(a, 7) <==> ByteBit(b, 7);
  }
}
