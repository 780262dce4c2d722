/** The 32-bit words in which the decoder notes the required fields it has met. */
module FieldsSeen {
  import opened Bits

  /** Bit `i` of a 32-bit word. */
  predicate Has(word: bv32, i: nat)
    requires i < 32
  {
    Bit(word as bv64, i)
  }

  predicate WordHas(word: bv32, i: bv7)
    requires i < 32
  {
    WordBit(word as bv64, i)
  }

  /** `word | (1 << j)`. */
  function WithBit(word: bv32, j: bv7): bv32
    requires j < 32
  {
    word | (1 << j)
  }

  /** `allbits >> (32 - n)`. */
  function LowOnes(n: bv7): bv32
    requires 0 < n < 32
  {
    0xffff_ffff >> (32 - n)
  }

  function Differ(a: bv32, b: bv32): bv32 {
    a ^ b
  }

  lemma Index(i: nat)
    requires i < 32
    ensures (i as bv7) as nat == i && (i as bv7) < 32
  {
    IndexValue(i);
    WordLess(i as bv7, 32);
  }

  lemma HasIsWordHas(word: bv32, i: nat)
    requires i < 32
    ensures (i as bv7) < 32 && (Has(word, i) <==> WordHas(word, i as bv7))
  {
    hide WordBit;
    Index(i);
  }

  lemma WordOrSets(word: bv32, j: bv7, i: bv7)
    requires j < 32 && i < 32
    ensures WordHas(WithBit(word, j), i) <==> i == j || WordHas(word, i)
  {
  }

  /** Setting a bit sets that bit and no other. */
  lemma OrSetsBit(word: bv32, j: nat, i: nat)
    requires j < 32 && i < 32
    ensures (j as bv7) < 32 && (Has(WithBit(word, j as bv7), i) <==> i == j || Has(word, i))
  {
    hide WordHas, WithBit, Has;
    Index(i);
    Index(j);
    HasIsWordHas(word, i);
    HasIsWordHas(WithBit(word, j as bv7), i);
    WordOrSets(word, j as bv7, i as bv7);
  }

  lemma WordLowOnes(n: bv7, i: bv7)
    requires 0 < n < 32 && i < 32
    ensures WordHas(LowOnes(n), i) <==> i < n
  {
  }

  lemma WordNone(i: bv7)
    requires i < 32
    ensures !WordHas(0, i) && WordHas(0xffff_ffff, i)
  {
  }

  lemma NoneHas(i: nat)
    requires i < 32
    ensures !Has(0, i) && Has(0xffff_ffff, i)
  {
    hide WordHas, Has;
    HasIsWordHas(0, i);
    HasIsWordHas(0xffff_ffff, i);
    WordNone(i as bv7);
  }

  lemma LowOnesHas(n: nat, i: nat)
    requires 0 < n < 32 && i < 32
    ensures 0 < (n as bv7) < 32 && (Has(LowOnes(n as bv7), i) <==> i < n)
  {
    hide WordHas, Has, LowOnes;
    Index(i);
    Index(n);
    WordLess(0, n as bv7);
    WordLess(i as bv7, n as bv7);
    HasIsWordHas(LowOnes(n as bv7), i);
    WordLowOnes(n as bv7, i as bv7);
  }

  /** The lowest bit set in a word that is not zero. */
  function Lowest(x: bv32): bv7 {
    var a: bv7 := if x & 0xffff == 0 then 16 else 0;
    var x1 := if x & 0xffff == 0 then x >> 16 else x;
    var b: bv7 := if x1 & 0xff == 0 then 8 else 0;
    var x2 := if x1 & 0xff == 0 then x1 >> 8 else x1;
    var c: bv7 := if x2 & 0xf == 0 then 4 else 0;
    var x3 := if x2 & 0xf == 0 then x2 >> 4 else x2;
    var d: bv7 := if x3 & 0x3 == 0 then 2 else 0;
    var x4 := if x3 & 0x3 == 0 then x3 >> 2 else x3;
    a + b + c + d + if x4 & 0x1 == 0 then 1 else 0
  }

  lemma LowestIsSet(x: bv32)
    requires x != 0
    ensures Lowest(x) < 32 && WordHas(x, Lowest(x))
  {
  }

  lemma DifferentBit(a: bv32, b: bv32, i: bv7)
    requires i < 32 && WordHas(Differ(a, b), i)
    ensures WordHas(a, i) != WordHas(b, i)
  {
  }

  lemma DifferNonZero(a: bv32, b: bv32)
    requires a != b
    ensures Differ(a, b) != 0
  {
  }

  /** Two words with the same bits are the same word. */
  lemma SameBits(a: bv32, b: bv32)
    requires forall i | 0 <= i < 32 :: Has(a, i) <==> Has(b, i)
    ensures a == b
  {
    hide WordHas, Has, Lowest, Differ;
    if a != b {
      DifferNonZero(a, b);
      LowestIsSet(Differ(a, b));
      var low := Lowest(Differ(a, b));
      DifferentBit(a, b, low);
      var i := low as nat;
      WordLess(low, 32);
      WordRoundTrip(low);
      HasIsWordHas(a, i);
      HasIsWordHas(b, i);
    }
  }

  lemma WordRoundTrip(w: bv7)
    requires w < 32
    ensures (w as nat) < 32 && (w as nat) as bv7 == w
  {
    WordLess(w, 32);
    WordBack(w);
  }

  /** The bits of the words `seen`, counted through. */
  predicate Noted(seen: seq<bv32>, k: nat)
    requires |seen| == 2 && k < 64
  {
    Has(seen[k / 32], k % 32)
  }

  /** Notes field number `k`. */
  method Note(seen: array<bv32>, k: nat)
    requires seen.Length == 2 && k < 64
    modifies seen
    ensures forall i | 0 <= i < 64 :: Noted(seen[..], i) <==> i == k || Noted(old(seen[..]), i)
  {
    hide Has, WithBit;
    Index(k % 32);
    ghost var before := seen[..];
    seen[k / 32] := WithBit(seen[k / 32], (k % 32) as bv7);
    forall i | 0 <= i < 64
      ensures Noted(seen[..], i) <==> i == k || Noted(before, i)
    {
      OrSetsBit(before[k / 32], k % 32, i % 32);
    }
  }

  /** Checks that the first `count` fields were noted, when no others were: whole words first, then the
      remaining bits. */
  method CheckNoted(seen: array<bv32>, count: nat) returns (ok: bool)
    requires seen.Length == 2 && count <= 64
    requires forall i | count <= i < 64 :: !Noted(seen[..], i)
    ensures ok <==> forall i | 0 <= i < count :: Noted(seen[..], i)
  {
    hide Has, LowOnes;
    for w := 0 to count / 32
      invariant forall i | 0 <= i < 32 * w :: Noted(seen[..], i)
    {
      if seen[w] != 0xffff_ffff {
        NotAllOnes(seen[..], w);
        return false;
      }
      forall i | 32 * w <= i < 32 * w + 32 ensures Noted(seen[..], i) {
        NoneHas(i % 32);
      }
    }
    if count % 32 != 0 {
      Index(count % 32);
      LowOnesHas(count % 32, 0);
      if seen[count / 32] != LowOnes((count % 32) as bv7) {
        NotLowOnes(seen[..], count);
        return false;
      }
      forall i | count / 32 * 32 <= i < count ensures Noted(seen[..], i) {
        LowOnesHas(count % 32, i % 32);
      }
    }
    ok := true;
  }

  lemma NotAllOnes(seen: seq<bv32>, w: nat)
    requires |seen| == 2 && w < 2 && seen[w] != 0xffff_ffff
    ensures exists i :: 32 * w <= i < 32 * w + 32 && !Noted(seen, i)
  {
    hide Has;
    if forall i | 32 * w <= i < 32 * w + 32 :: Noted(seen, i) {
      forall i | 0 <= i < 32 ensures Has(seen[w], i) <==> Has(0xffff_ffff, i) {
        assert Noted(seen, 32 * w + i);
        NoneHas(i);
      }
      SameBits(seen[w], 0xffff_ffff);
    }
  }

  lemma NotLowOnes(seen: seq<bv32>, count: nat)
    requires |seen| == 2 && count < 64 && count % 32 != 0
    requires 0 < ((count % 32) as bv7) < 32 && seen[count / 32] != LowOnes((count % 32) as bv7)
    requires forall i | count <= i < 64 :: !Noted(seen, i)
    ensures exists i :: 0 <= i < count && !Noted(seen, i)
  {
    hide Has, LowOnes;
    var w, n := count / 32, count % 32;
    if forall i | 0 <= i < count :: Noted(seen, i) {
      forall i | 0 <= i < 32 ensures Has(seen[w], i) <==> Has(LowOnes(n as bv7), i) {
        assert Noted(seen, 32 * w + i) <==> 32 * w + i < count;
        LowOnesHas(n, i);
      }
      SameBits(seen[w], LowOnes(n as bv7));
    }
  }
}
