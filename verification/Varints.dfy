/** Base-128 variable-length integers of Protocol Buffers: their encoding, the 64-bit and the 32-bit
    decoder, and the zigzag mapping of signed integers. */
module Varints {
  import opened Basics
  import opened BigEndian

  const SPAN32 := 0x1_0000_0000
  const SPAN64 := 0x1_0000_0000_0000_0000

  function Pow2(n: nat): (p: nat)
    ensures p > 0
  {
    if n == 0 then 1 else 2 * Pow2(n - 1)
  }

  /** The encoding of `v`: seven bits to the byte, least significant first, the top bit set on all
      but the last. */
  function Encode(v: nat): (s: seq<byte>)
    ensures |s| > 0
  {
    if v < 128 then [v] else [128 + v % 128] + Encode(v / 128)
  }

  /** The number whose seven-bit groups, least significant first, are the low bits of `s`. */
  function Groups(s: seq<byte>): nat {
    if s == [] then 0 else s[0] % 128 + 128 * Groups(s[1..])
  }

  /** How many bytes the varint at the front of `s` has, if it ends within `s`. */
  function Extent(s: seq<byte>): (n: Option<nat>)
    ensures n.Some? ==> 0 < n.value <= |s| && s[n.value - 1] < 128
    ensures n.Some? ==> forall i | 0 <= i < n.value - 1 :: s[i] >= 128
    ensures n.None? ==> forall i | 0 <= i < |s| :: s[i] >= 128
  {
    if s == [] then None
    else if s[0] < 128 then Some(1)
    else match Extent(s[1..]) case None => None case Some(n) => Some(n + 1)
  }

  /** The 64-bit decoder: at most ten bytes, taken modulo 2^64. */
  function Decode64(s: seq<byte>): (r: Option<(nat, seq<byte>)>)
    ensures r.Some? ==> r.value.0 < SPAN64 && |r.value.1| < |s|
  {
    match Extent(s)
    case None => None
    case Some(n) => if n > 10 then None else Some((Groups(s[..n]) % SPAN64, s[n..]))
  }

  // ----- the bitwise or of two numbers -----

  predicate HasBit(v: nat, i: nat) {
    if i == 0 then v % 2 == 1 else HasBit(v / 2, i - 1)
  }

  function Or(a: nat, b: nat): nat {
    if a == 0 then b
    else if b == 0 then a
    else 2 * Or(a / 2, b / 2) + if a % 2 == 1 || b % 2 == 1 then 1 else 0
  }

  /** Bit `i` is what is left of `v` after so many halvings. */
  lemma {:induction false} HasBitMeans(v: nat, i: nat)
    ensures HasBit(v, i) <==> v / Pow2(i) % 2 == 1
  {
    if i > 0 {
      HasBitMeans(v / 2, i - 1);
      HalveFurther(v, Pow2(i - 1));
    }
  }

  lemma HalveFurther(v: nat, p: nat)
    requires p > 0
    ensures v / 2 / p == v / (2 * p)
  {
    var q, r := v / 2 / p, v / 2 % p;
    assert v == 2 * (p * q + r) + v % 2;
    assert v == (2 * p) * q + (2 * r + v % 2) by {
      Distribute(2, p * q, r);
      assert 2 * (p * q) == (2 * p) * q;
    }
    QuotientIs(v, 2 * p, q, 2 * r + v % 2);
  }

  lemma {:induction false} OrSetsBits(a: nat, b: nat, i: nat)
    ensures HasBit(Or(a, b), i) <==> HasBit(a, i) || HasBit(b, i)
  {
    if a == 0 {
      ZeroHasNoBit(i);
    } else if b == 0 {
      ZeroHasNoBit(i);
    } else if i > 0 {
      OrSetsBits(a / 2, b / 2, i - 1);
      HalfOf(Or(a / 2, b / 2), if a % 2 == 1 || b % 2 == 1 then 1 else 0);
    }
  }

  lemma HalfOf(v: nat, low: nat)
    requires low < 2
    ensures (2 * v + low) / 2 == v
  {
  }

  lemma {:induction false} ZeroHasNoBit(i: nat)
    ensures !HasBit(0, i)
  {
    if i > 0 {
      ZeroHasNoBit(i - 1);
    }
  }

  lemma {:induction false} OrFits(a: nat, b: nat, n: nat)
    requires a < Pow2(n) && b < Pow2(n)
    ensures Or(a, b) < Pow2(n)
  {
    if a != 0 && b != 0 {
      OrFits(a / 2, b / 2, n - 1);
    }
  }

  /** Where no bits are shared the bitwise or is the sum. */
  lemma {:induction false} OrIsSum(a: nat, b: nat, n: nat)
    requires a < Pow2(n) && b % Pow2(n) == 0
    ensures Or(a, b) == a + b
  {
    if n > 0 && a != 0 && b != 0 {
      HalfOfMultiple(b, Pow2(n - 1));
      OrIsSum(a / 2, b / 2, n - 1);
    }
  }

  lemma HalfOfMultiple(b: nat, p: nat)
    requires p > 0 && b % (2 * p) == 0
    ensures b % 2 == 0 && b / 2 % p == 0
  {
    var q := b / (2 * p);
    assert b == 2 * (p * q);
    assert b / 2 == p * q;
    MultipleOf(p, q);
  }

  lemma MultipleOf(p: nat, q: nat)
    requires p > 0
    ensures p * q % p == 0
  {
    QuotientIs(p * q, p, q, 0);
  }

  /** A number shifted to the left, in so many bits, has none below. */
  lemma ShiftedIsMultiple(v: nat, n: nat, m: nat)
    requires n <= m
    ensures v * Pow2(n) % Pow2(m) % Pow2(n) == 0
  {
    Pow2Sum(n, m - n);
    ModuloOfMultiple(v, Pow2(n), Pow2(m - n));
    MultipleOf(Pow2(n), v % Pow2(m - n));
  }

  lemma ModuloOfMultiple(v: nat, p: nat, c: nat)
    requires p > 0 && c > 0
    ensures v * p % (p * c) == p * (v % c)
  {
    var q, r := v / c, v % c;
    DivideBack(v, c);
    Distribute(p, c * q, r);
    MulAssociates(p, c, q);
    SmallerProduct(p, r, c);
    QuotientIs(v * p, p * c, q, p * r);
  }

  lemma SmallerProduct(p: nat, r: nat, c: nat)
    requires p > 0 && r < c
    ensures p * r < p * c
  {
  }

  lemma {:induction false} Pow2Sum(n: nat, m: nat)
    ensures Pow2(n + m) == Pow2(n) * Pow2(m)
  {
    if n > 0 {
      Pow2Sum(n - 1, m);
    }
  }

  // ----- the 32-bit decoder -----

  /** The bits of a group, shifted to their place, that a 32-bit result has room for. */
  function Placed(b: byte, bitpos: nat): nat {
    (b % 128) * Pow2(bitpos) % SPAN32
  }

  /** What the decoder makes of a byte past bit 31: nothing, if it is padding or sign extension. */
  predicate Overflows(b: byte, bitpos: nat, result: nat) {
    b % 128 != 0 && (result < 0x8000_0000 || b != if bitpos < 63 then 0xff else 0x01)
  }

  /** The loop of the 32-bit decoder; the bit position is an 8-bit number and wraps. */
  function Decode32From(s: seq<byte>, bitpos: nat, result: nat): (r: Option<(nat, seq<byte>)>)
    ensures r.Some? ==> |r.value.1| < |s|
  {
    if s == [] then None
    else
      var b, next := s[0], (bitpos + 7) % 256;
      if bitpos >= 32 && Overflows(b, bitpos, result) then None
      else
        var sum := if bitpos >= 32 then result else Or(result, Placed(b, bitpos));
        if b >= 128 then Decode32From(s[1..], next, sum)
        else if next == 35 && b % 128 >= 16 then None
        else Some((sum, s[1..]))
  }

  function Decode32(s: seq<byte>): (r: Option<(nat, seq<byte>)>)
    ensures r.Some? ==> |r.value.1| < |s|
  {
    if s == [] then None
    else if s[0] < 128 then Some((s[0], s[1..]))
    else Decode32From(s[1..], 7, s[0] % 128)
  }

  // ----- signed integers -----

  /** The 64-bit pattern of a signed integer. */
  function ToU64(v: int): nat {
    v % SPAN64
  }

  /** The signed integer of `bits` bits with the same pattern as `u`. */
  function Signed(u: nat, bits: nat): int
    requires bits > 0
  {
    var low := u % Pow2(bits);
    if low < Pow2(bits - 1) then low else low - Pow2(bits)
  }

  function Not64(u: nat): nat
    requires u < SPAN64
  {
    SPAN64 - 1 - u
  }

  function Shl1(u: nat): nat {
    2 * u % SPAN64
  }

  function ZigZag(v: int): nat {
    if v < 0 then Not64(Shl1(ToU64(v))) else Shl1(ToU64(v))
  }

  function UnZigZag(u: nat): int
    requires u < SPAN64
  {
    Signed(if u % 2 == 1 then Not64(u / 2) else u / 2, 64)
  }

  // ----- fixed-width integers -----

  /** The `k` low-order little-endian digits of `v`. */
  function LittleEndian(v: nat, k: nat): (s: seq<byte>)
    ensures |s| == k
  {
    if k == 0 then [] else [v % 256] + LittleEndian(v / 256, k - 1)
  }

  function LittleEndianValue(s: seq<byte>): nat {
    if s == [] then 0 else s[0] + 256 * LittleEndianValue(s[1..])
  }

  /** Each byte stands where its weight says: the lowest first. */
  lemma {:induction false} LittleEndianAt(v: nat, k: nat, i: nat)
    requires i < k
    ensures LittleEndian(v, k)[i] == v / Power256(i) % 256
  {
    if i > 0 {
      LittleEndianAt(v / 256, k - 1, i - 1);
      DivideTwice(v, Power256(i - 1));
    }
  }

  lemma {:induction false} LittleEndianRoundTrip(v: nat, k: nat)
    requires v < Power256(k)
    ensures LittleEndianValue(LittleEndian(v, k)) == v
  {
    if k > 0 {
      LittleEndianRoundTrip(v / 256, k - 1);
      assert LittleEndian(v, k)[1..] == LittleEndian(v / 256, k - 1);
    }
  }

  // ----- encoding and decoding undo each other -----

  lemma {:induction false} GroupsOfEncode(v: nat)
    ensures Groups(Encode(v)) == v
    ensures forall rest :: Extent(Encode(v) + rest) == Some(|Encode(v)|)
  {
    if v >= 128 {
      GroupsOfEncode(v / 128);
      forall rest ensures Extent(Encode(v) + rest) == Some(|Encode(v)|) {
        assert (Encode(v) + rest)[1..] == Encode(v / 128) + rest;
      }
    }
  }

  function Power128(k: nat): (p: nat)
    ensures p > 0
  {
    if k == 0 then 1 else 128 * Power128(k - 1)
  }

  /** The least number of seven-bit groups that hold `v`, and at least one. */
  lemma {:induction false} EncodeLeast(v: nat)
    ensures v < Power128(|Encode(v)|)
    ensures |Encode(v)| > 1 ==> Power128(|Encode(v)| - 1) <= v
  {
    if v >= 128 {
      EncodeLeast(v / 128);
    }
  }

  lemma {:induction false} EncodeLength(v: nat)
    requires v < SPAN64
    ensures |Encode(v)| <= 10
  {
    EncodeLeast(v);
    assert Power128(10) == 128 * 128 * 128 * 128 * 128 * Power128(5);
    if |Encode(v)| > 10 {
      Power128Grows(10, |Encode(v)| - 1);
      assert false;
    }
  }

  lemma {:induction false} Power128Grows(j: nat, k: nat)
    requires j <= k
    ensures Power128(j) <= Power128(k)
  {
    if j < k {
      Power128Grows(j, k - 1);
    }
  }

  /** Every 64-bit number survives encoding and decoding, whatever follows it. */
  lemma Decode64OfEncode(v: nat, rest: seq<byte>)
    requires v < SPAN64
    ensures Decode64(Encode(v) + rest) == Some((v, rest))
  {
    hide Groups, Extent, Encode;
    GroupsOfEncode(v);
    EncodeLength(v);
    var s := Encode(v) + rest;
    assert s[..|Encode(v)|] == Encode(v) && s[|Encode(v)|..] == rest;
  }

  // ----- what the 32-bit decoder computes -----

  lemma {:induction false} GroupsSplit(a: seq<byte>, b: seq<byte>)
    ensures Groups(a + b) == Groups(a) + Power128(|a|) * Groups(b)
  {
    if a == [] {
      assert a + b == b;
    } else {
      GroupsSplit(a[1..], b);
      assert (a + b)[1..] == a[1..] + b;
      MulAssociates(128, Power128(|a| - 1), Groups(b));
    }
  }

  lemma MulAssociates(x: nat, y: nat, z: nat)
    ensures x * (y * z) == (x * y) * z
  {
  }

  lemma Pow2Plus7(n: nat)
    ensures Pow2(n + 7) == 128 * Pow2(n)
  {
    assert Pow2(n + 2) == 4 * Pow2(n);
    assert Pow2(n + 4) == 4 * Pow2(n + 2);
    assert Pow2(n + 6) == 4 * Pow2(n + 4);
  }

  lemma {:induction false} Pow2Of7(k: nat)
    ensures Pow2(7 * k) == Power128(k)
  {
    if k > 0 {
      Pow2Of7(k - 1);
      Pow2Plus7(7 * (k - 1));
    }
  }

  lemma {:induction false} GroupsBound(s: seq<byte>)
    ensures Groups(s) < Power128(|s|)
  {
    if s != [] {
      GroupsBound(s[1..]);
    }
  }

  lemma OneMoreGroup(s: seq<byte>, k: nat)
    requires k < |s|
    ensures Groups(s[..k + 1]) == Groups(s[..k]) + Power128(k) * (s[k] % 128)
  {
    assert s[..k + 1] == s[..k] + [s[k]];
    GroupsSplit(s[..k], [s[k]]);
  }

  /** The first four groups fit 32 bits; of the fifth, four bits do. */
  lemma PlacedLow(s: seq<byte>, k: nat)
    requires k < |s| && k <= 4
    ensures Groups(s[..k]) < SPAN32
    ensures Groups(s[..k]) + Placed(s[k], 7 * k) == Groups(s[..k + 1]) % SPAN32
  {
    hide Groups, Pow2;
    OneMoreGroup(s, k);
    GroupsBound(s[..k]);
    Pow2Of7(k);
    assert Power128(1) == 128 && Power128(2) == 0x4000 && Power128(3) == 0x20_0000 && Power128(4) == 0x1000_0000;
    AddPlaced(Groups(s[..k]), s[k] % 128, Power128(k));
  }

  /** Below bit 32 a group shares no bits with those before it. */
  lemma PlacedApart(s: seq<byte>, k: nat)
    requires k < |s| && k <= 4
    ensures Or(Groups(s[..k]), Placed(s[k], 7 * k)) == Groups(s[..k]) + Placed(s[k], 7 * k)
  {
    hide Groups, Or, Pow2;
    GroupsBound(s[..k]);
    Pow2Of7(k);
    Pow2Of64();
    ShiftedIsMultiple(s[k] % 128, 7 * k, 32);
    OrIsSum(Groups(s[..k]), Placed(s[k], 7 * k), 7 * k);
  }

  lemma AddPlaced(low: nat, group: nat, p: nat)
    requires p in {1, 128, 0x4000, 0x20_0000, 0x1000_0000} && low < p && group < 128
    ensures low + group * p % SPAN32 == (low + p * group) % SPAN32
  {
    if p == 0x1000_0000 {
      assert group * p == (group % 16) * p + SPAN32 * (group / 16);
    }
  }

  /** Groups past the fifth are multiples of 2^32. */
  lemma PlacedHigh(s: seq<byte>, k: nat)
    requires 5 <= k < |s|
    ensures Groups(s[..k + 1]) % SPAN32 == Groups(s[..k]) % SPAN32
  {
    OneMoreGroup(s, k);
    HighPower(k);
    var q := Power128(k) / SPAN32;
    MulAssociates(SPAN32, q, s[k] % 128);
    ModOfMultiple(Groups(s[..k]), q * (s[k] % 128));
  }

  lemma {:induction false} HighPower(k: nat)
    requires k >= 5
    ensures Power128(k) % SPAN32 == 0
  {
    if k == 5 {
      assert Power128(5) == 128 * 128 * 128 * 128 * 128;
    } else {
      HighPower(k - 1);
      var q := Power128(k - 1) / SPAN32;
      assert Power128(k) == SPAN32 * (128 * q);
      ModOfMultiple(0, 128 * q);
    }
  }

  lemma ModOfMultiple(x: nat, q: nat)
    ensures (x + SPAN32 * q) % SPAN32 == x % SPAN32
  {
  }

  /** The result the 32-bit decoder carries is what was read, modulo 2^32. */
  lemma CarriedResult(s: seq<byte>, k: nat)
    requires 0 < k < |s|
    ensures Groups(s[..k + 1]) % SPAN32 ==
            if 7 * k >= 32 then Groups(s[..k]) % SPAN32 else Or(Groups(s[..k]) % SPAN32, Placed(s[k], 7 * k))
  {
    hide Groups, Or, Placed;
    if k <= 4 {
      PlacedLow(s, k);
      PlacedApart(s, k);
    } else {
      PlacedHigh(s, k);
    }
  }

  lemma {:induction false} Decode32FromGroups(s: seq<byte>, k: nat)
    requires Extent(s).Some? && 0 < k < Extent(s).value <= 10
    ensures var n := Extent(s).value;
            var r := Decode32From(s[k..], 7 * k, Groups(s[..k]) % SPAN32);
            r.Some? ==> r.value == (Groups(s[..n]) % SPAN32, s[n..])
    decreases |s| - k
  {
    hide Groups, Placed, Overflows, Extent;
    CarriedResult(s, k);
    assert s[k..][1..] == s[k + 1..];
    if s[k] >= 128 {
      assert k + 1 != Extent(s).value;
      Decode32FromGroups(s, k + 1);
    } else {
      assert k + 1 == Extent(s).value;
    }
  }

  lemma OneGroup(b: byte)
    ensures Groups([b]) == b % 128
  {
  }

  /** On any input that both decoders accept they read the same bytes, and the 32-bit result is the
      64-bit one modulo 2^32. */
  lemma DecodersAgree(s: seq<byte>)
    requires Decode32(s).Some? && Decode64(s).Some?
    ensures Decode32(s).value.1 == Decode64(s).value.1
    ensures Decode32(s).value.0 == Decode64(s).value.0 % SPAN32
  {
    hide Decode32From, Groups, Extent;
    var n := Extent(s).value;
    OneGroup(s[0]);
    assert s[..1] == [s[0]];
    ModOfMod(Groups(s[..n]));
    if n > 1 {
      assert s[0] >= 128;
      Decode32FromGroups(s, 1);
    }
  }

  lemma ModOfMod(x: nat)
    ensures x % SPAN64 % SPAN32 == x % SPAN32
  {
    var q := x / SPAN64;
    assert x == x % SPAN64 + SPAN32 * (SPAN32 * q);
    ModOfMultiple(x % SPAN64, SPAN32 * q);
  }

  lemma {:induction false} Decode32FromSucceeds(s: seq<byte>, k: nat)
    requires Extent(s).Some? && 0 < k < Extent(s).value <= 10
    requires Extent(s).value == 5 ==> s[4] < 16
    requires forall i | 5 <= i < Extent(s).value :: !Overflows(s[i], 7 * i, Groups(s[..Extent(s).value]) % SPAN32)
    ensures Decode32From(s[k..], 7 * k, Groups(s[..k]) % SPAN32) ==
            Some((Groups(s[..Extent(s).value]) % SPAN32, s[Extent(s).value..]))
    decreases |s| - k
  {
    hide Groups, Placed, Overflows, Extent, Or;
    var n := Extent(s).value;
    CarriedResult(s, k);
    assert s[k..][1..] == s[k + 1..];
    if k >= 5 {
      HighGroupsKeepResult(s, k, n);
    }
    if s[k] >= 128 {
      assert k + 1 != n;
      Decode32FromSucceeds(s, k + 1);
    } else {
      assert k + 1 == n;
    }
  }

  lemma {:induction false} HighGroupsKeepResult(s: seq<byte>, k: nat, n: nat)
    requires 5 <= k <= n <= |s|
    ensures Groups(s[..k]) % SPAN32 == Groups(s[..n]) % SPAN32
    decreases n
  {
    if k < n {
      HighGroupsKeepResult(s, k, n - 1);
      PlacedHigh(s, n - 1);
    }
  }

  lemma {:induction false} Decode32FromAccepts(s: seq<byte>, k: nat)
    requires Extent(s).Some? && 0 < k < Extent(s).value <= 10
    requires Decode32From(s[k..], 7 * k, Groups(s[..k]) % SPAN32).Some?
    ensures Extent(s).value == 5 ==> s[4] < 16
    ensures forall i | 5 <= i < Extent(s).value && k <= i ::
              !Overflows(s[i], 7 * i, Groups(s[..Extent(s).value]) % SPAN32)
    decreases |s| - k
  {
    hide Groups, Placed, Overflows, Extent, Or;
    var n := Extent(s).value;
    CarriedResult(s, k);
    assert s[k..][1..] == s[k + 1..];
    if k >= 5 {
      HighGroupsKeepResult(s, k, n);
    }
    if s[k] >= 128 {
      assert k + 1 != n;
      Decode32FromAccepts(s, k + 1);
    } else {
      assert k + 1 == n;
    }
  }

  /** A byte past the low 32 bits: without payload, or of the sign extension of a negative number. */
  predicate Extends(b: byte, i: nat, low: nat) {
    b % 128 == 0 || (low >= 0x8000_0000 && b == if i < 9 then 0xff else 0x01)
  }

  /** Of up to ten bytes the 32-bit decoder takes exactly those whose payload past 32 bits is none or a sign
      extension; if there are just five, the last may only fill up the 32 bits. */
  lemma Decode32Exactly(s: seq<byte>)
    requires Extent(s).Some? && Extent(s).value <= 10
    ensures var n, low := Extent(s).value, Groups(s[..Extent(s).value]) % 0x1_0000_0000;
            Decode32(s) == if (n == 5 ==> s[4] < 16) && (forall i | 5 <= i < n :: Extends(s[i], i, low))
                           then Some((low, s[n..])) else None
  {
    hide Decode32From, Groups, Extent;
    var n := Extent(s).value;
    var low := Groups(s[..n]) % SPAN32;
    OneGroup(s[0]);
    assert s[..1] == [s[0]];
    assert forall i | 5 <= i < n :: Extends(s[i], i, low) <==> !Overflows(s[i], 7 * i, low);
    if n > 1 {
      assert s[0] >= 128;
      if Decode32From(s[1..], 7, s[0] % 128).Some? {
        Decode32FromAccepts(s, 1);
        Decode32FromSucceeds(s, 1);
      } else if (n == 5 ==> s[4] < 16) && forall i | 5 <= i < n :: Extends(s[i], i, low) {
        Decode32FromSucceeds(s, 1);
      }
    }
  }

  /** What the 32-bit decoder reads has 32 bits, on any input. */
  lemma Decode32Fits(s: seq<byte>)
    requires Decode32(s).Some?
    ensures Decode32(s).value.0 < SPAN32
  {
    hide Decode32From;
    if s[0] >= 128 {
      Decode32FromFits(s[1..], 7, s[0] % 128);
    }
  }

  lemma {:induction false} Decode32FromFits(s: seq<byte>, bitpos: nat, result: nat)
    requires result < SPAN32 && Decode32From(s, bitpos, result).Some?
    ensures Decode32From(s, bitpos, result).value.0 < SPAN32
  {
    hide Or, Overflows, Pow2;
    Pow2Of64();
    OrFits(result, Placed(s[0], bitpos), 32);
    if s[0] >= 128 {
      Decode32FromFits(s[1..], (bitpos + 7) % 256, if bitpos >= 32 then result else Or(result, Placed(s[0], bitpos)));
    }
  }

  /** Bytes without payload change nothing but the position. */
  lemma {:induction false} PaddingPasses(n: nat, bitpos: nat, result: nat, rest: seq<byte>)
    requires bitpos < 256
    ensures Decode32From(seq(n, _ => 128) + rest, bitpos, result) == Decode32From(rest, (bitpos + 7 * n) % 256, result)
  {
    hide Decode32From;
    var s := seq(n, _ => 128) + rest;
    if n == 0 {
      assert s == rest;
    } else {
      assert s[0] == 128 && s[1..] == seq(n - 1, _ => 128) + rest;
      OnePadding(s, bitpos, result);
      PaddingPasses(n - 1, (bitpos + 7) % 256, result, rest);
      WrapOnce(bitpos + 7, 7 * (n - 1));
    }
  }

  lemma WrapOnce(x: nat, y: nat)
    ensures (x % 256 + y) % 256 == (x + y) % 256
  {
  }

  lemma OnePadding(s: seq<byte>, bitpos: nat, result: nat)
    requires s != [] && s[0] == 128
    ensures Decode32From(s, bitpos, result) == Decode32From(s[1..], (bitpos + 7) % 256, result)
  {
    hide Pow2;
    assert Placed(128, bitpos) == 0;
    OrWithNothing(result);
  }

  lemma OrWithNothing(v: nat)
    ensures Or(v, 0) == v
  {
  }

  /** Past the wrap of the bit position groups meet again in the same bits: three low bits of the last group
      fall on bits of the first that are set already. */
  lemma PastTheWrap()
    ensures Decode32([0xff] + seq(36, _ => 128) + [0x7f]) == Some((0x3ff, []))
  {
    hide Decode32From, Or;
    var s := [0xff] + seq(36, _ => 128) + [0x7f];
    assert s[1..] == seq(36, _ => 128) + [0x7f];
    PaddingPasses(36, 7, 0x7f, [0x7f]);
    LastGroup(0x7f, 0x7f);
    LowBitsMeet();
  }

  lemma LastGroup(b: byte, result: nat)
    requires b < 128
    ensures Decode32From([b], 3, result) == Some((Or(result, 8 * b), []))
  {
    hide Or;
    assert Pow2(3) == 8;
  }

  lemma LowBitsMeet()
    ensures Or(0x7f, 0x3f8) == 0x3ff
  {
    assert Or(0, 0x7) == 0x7;
    assert Or(0x1, 0xf) == 0xf;
    assert Or(0x7, 0x3f) == 0x3f;
    assert Or(0x1f, 0xfe) == 0xff;
  }

  /** The 32-bit decoder takes the encoding of every 32-bit number. */
  lemma Decode32OfEncode(v: nat, rest: seq<byte>)
    requires v < SPAN32
    ensures Decode32(Encode(v) + rest) == Some((v, rest))
  {
    hide Decode32From, Overflows, Groups, Encode;
    GroupsOfEncode(v);
    EncodeLeast(v);
    var s, n := Encode(v) + rest, |Encode(v)|;
    assert s[..n] == Encode(v) && s[n..] == rest;
    assert Power128(5) == 128 * 128 * 128 * 128 * 128;
    if n > 5 {
      Power128Grows(5, n - 1);
      assert false;
    }
    assert s[..1] == [s[0]];
    OneGroup(s[0]);
    if n == 5 {
      OneMoreGroup(s, 4);
      assert Power128(4) == 0x1000_0000;
      assert s[..5] == s[..n];
    }
    if n > 1 {
      Decode32FromSucceeds(s, 1);
    }
  }

  /** The ten bytes of a number within 2^35 of 2^64 end in sign extension. */
  lemma EncodeSignExtended(v: nat)
    requires SPAN64 - 0x8_0000_0000 <= v < SPAN64
    ensures |Encode(v)| == 10 && Encode(v)[5..] == [0xff, 0xff, 0xff, 0xff, 0x01]
  {
    var v1 := v / 128;
    var v2 := v1 / 128;
    var v3 := v2 / 128;
    var v4 := v3 / 128;
    var v5 := v4 / 128;
    assert v5 == 0x1fff_ffff;
    assert Encode(0x1fff_ffff) == [0xff, 0xff, 0xff, 0xff, 0x01] by {
      assert Encode(0x1) == [0x01];
      assert Encode(0xff) == [0xff] + Encode(0x1);
      assert Encode(0x7fff) == [0xff] + Encode(0xff);
      assert Encode(0x3f_ffff) == [0xff] + Encode(0x7fff);
    }
    assert Encode(v4) == [128 + v4 % 128] + Encode(v5);
    assert Encode(v3) == [128 + v3 % 128] + Encode(v4);
    assert Encode(v2) == [128 + v2 % 128] + Encode(v3);
    assert Encode(v1) == [128 + v1 % 128] + Encode(v2);
  }

  lemma NegativeBits(v: int)
    requires -0x8000_0000 <= v < 0
    ensures ToU64(v) == v + SPAN64 && (v + SPAN64) % SPAN32 == v + SPAN32
  {
  }

  /** The groups of the sign are no overflow where the sign bit is set. */
  lemma SignPasses(i: nat, result: nat)
    requires 5 <= i < 10 && result >= 0x8000_0000
    ensures !Overflows(if i < 9 then 0xff else 0x01, 7 * i, result)
  {
  }

  /** The 32-bit decoder takes every negative 32-bit integer, encoded as the 64-bit one it is. */
  lemma Decode32OfNegative(v: int, rest: seq<byte>)
    requires -0x8000_0000 <= v < 0
    ensures Decode32(Encode(ToU64(v)) + rest) == Some((v + SPAN32, rest))
  {
    hide Decode32From, Encode, Overflows, Groups;
    var u := v + SPAN64;
    NegativeBits(v);
    GroupsOfEncode(u);
    EncodeSignExtended(u);
    var s := Encode(u) + rest;
    assert s[..10] == Encode(u) && s[10..] == rest;
    forall i | 5 <= i < 10 ensures !Overflows(s[i], 7 * i, u % SPAN32) {
      assert s[i] == Encode(u)[5..][i - 5];
      SignPasses(i, v + SPAN32);
    }
    assert s[..1] == [s[0]];
    OneGroup(s[0]);
    Decode32FromSucceeds(s, 1);
  }

  // ----- zigzag and narrowing -----

  /** Zigzag maps the signed 64-bit integers one to one onto the unsigned ones. */
  lemma ZigZagRoundTrip(v: int)
    requires -0x8000_0000_0000_0000 <= v < 0x8000_0000_0000_0000
    ensures ZigZag(v) < SPAN64 && UnZigZag(ZigZag(v)) == v
    ensures ZigZag(v) == if v < 0 then -2 * v - 1 else 2 * v
  {
    hide Pow2, Signed;
    ZigZagInterleaves(v);
    SignedOf64(ZigZag(v) / 2);
    if v < 0 {
      SignedOf64(Not64(ZigZag(v) / 2));
    }
  }

  lemma ZigZagInterleaves(v: int)
    requires -0x8000_0000_0000_0000 <= v < 0x8000_0000_0000_0000
    ensures ZigZag(v) == if v < 0 then -2 * v - 1 else 2 * v
  {
    if v < 0 {
      assert ToU64(v) == v + SPAN64;
      assert 2 * (v + SPAN64) == 2 * v + SPAN64 + SPAN64;
    }
  }

  lemma SignedOf64(u: nat)
    requires u < SPAN64
    ensures Signed(u, 64) == if u < 0x8000_0000_0000_0000 then u else u - SPAN64
  {
    hide Pow2;
    Pow2Of64();
  }

  lemma UnZigZagRoundTrip(u: nat)
    requires u < SPAN64
    ensures -0x8000_0000_0000_0000 <= UnZigZag(u) < 0x8000_0000_0000_0000 && ZigZag(UnZigZag(u)) == u
  {
    hide Pow2, Signed, ZigZag;
    SignedOf64(if u % 2 == 1 then Not64(u / 2) else u / 2);
    ZigZagInterleaves(UnZigZag(u));
  }

  lemma Pow2Of64()
    ensures Pow2(64) == SPAN64 && Pow2(63) == 0x8000_0000_0000_0000
    ensures Pow2(32) == SPAN32 && Pow2(31) == 0x8000_0000
  {
    assert Pow2(8) == 256;
    assert Pow2(16) == 0x1_0000;
    assert Pow2(24) == 0x100_0000;
    assert Pow2(31) == 0x8000_0000;
    assert Pow2(40) == 0x100_0000_0000;
    assert Pow2(48) == 0x1_0000_0000_0000;
    assert Pow2(56) == 0x100_0000_0000_0000;
    assert Pow2(63) == 0x8000_0000_0000_0000;
  }
}
