/** Bytes and big-endian integers, as written and read by the length-checked buffers of the
    TLS library. */
module BigEndian {

  type byte = x: int | 0 <= x < 256

  /** The integer whose big-endian digits are `s`. */
  function Value(s: seq<byte>): nat {
    if s == [] then 0 else 256 * Value(s[..|s| - 1]) + s[|s| - 1]
  }

  function Power256(k: nat): (p: nat)
    ensures p > 0
  {
    if k == 0 then 1 else 256 * Power256(k - 1)
  }

  /** The `k` low-order big-endian digits of `v`. */
  function Digits(v: nat, k: nat): (s: seq<byte>)
    ensures |s| == k
  {
    if k == 0 then [] else Digits(v / 256, k - 1) + [v % 256]
  }

  lemma TwoDigits(v: nat)
    ensures Digits(v, 2) == [v / 0x100 % 256, v % 256]
  {
    assert Digits(v / 256, 1) == [v / 256 % 256];
  }

  lemma ThreeDigits(v: nat)
    ensures Digits(v, 3) == [v / 0x1_0000 % 256, v / 0x100 % 256, v % 256]
  {
    TwoDigits(v / 256);
    assert v / 256 / 256 == v / 0x1_0000;
  }

  /** The number in the two bytes at `at`, the higher first. */
  function U16At(s: seq<byte>, at: nat): nat
    requires at + 1 < |s|
  {
    256 * (s[at] as int) + s[at + 1]
  }

  lemma ValueOfTwo(s: seq<byte>, at: nat)
    requires at + 1 < |s|
    ensures Value(s[at..at + 2]) == U16At(s, at)
  {
    assert s[at..at + 2][..1] == [s[at]] && Value([s[at]]) == s[at];
  }

  lemma {:induction false} ValueBound(s: seq<byte>)
    ensures Value(s) < Power256(|s|)
  {
    if s != [] {
      ValueBound(s[..|s| - 1]);
    }
  }

  lemma {:induction false} ValueOfDigits(v: nat, k: nat)
    requires v < Power256(k)
    ensures Value(Digits(v, k)) == v
  {
    if k > 0 {
      ValueOfDigits(v / 256, k - 1);
      assert Digits(v, k)[..k - 1] == Digits(v / 256, k - 1);
    }
  }

  lemma {:induction false} DigitsOfValue(s: seq<byte>)
    ensures Digits(Value(s), |s|) == s
  {
    if s != [] {
      var low := s[..|s| - 1];
      DigitsOfValue(low);
      assert Value(s) / 256 == Value(low) && Value(s) % 256 == s[|s| - 1];
    }
  }

  /** Each digit stands where its weight says: the highest first. */
  lemma {:induction false} DigitAt(v: nat, k: nat, i: nat)
    requires i < k
    ensures Digits(v, k)[i] == v / Power256(k - 1 - i) % 256
  {
    if i < k - 1 {
      DigitAt(v / 256, k - 1, i);
      DivideTwice(v, Power256(k - 2 - i));
    }
  }

  lemma DivideTwice(v: nat, p: nat)
    requires p > 0
    ensures v / 256 / p == v / (256 * p)
  {
    var q, r := v / 256 / p, v / 256 % p;
    assert v == 256 * (p * q + r) + v % 256;
    Regroup(p, 1);
    assert v == (256 * p) * q + (256 * r + v % 256);
    assert 256 * r + v % 256 < 256 * p;
    QuotientIs(v, 256 * p, q, 256 * r + v % 256);
  }

  lemma QuotientIs(x: nat, d: nat, q: nat, r: nat)
    requires r < d && x == d * q + r
    ensures x / d == q && x % d == r
  {
    DivideBack(x, d);
    ApartMultiples(d, x / d, x % d, q, r);
  }

  lemma DivideBack(x: nat, d: nat)
    requires d > 0
    ensures x == d * (x / d) + x % d
  {
  }

  lemma ApartMultiples(d: nat, q: nat, r: nat, q': nat, r': nat)
    requires r < d && r' < d && d * q + r == d * q' + r'
    ensures q == q' && r == r'
  {
    if q > q' {
      var n := q - q';
      Distribute(d, q', n);
      AtLeastOnce(d, n);
    } else if q < q' {
      var n := q' - q;
      Distribute(d, q, n);
      AtLeastOnce(d, n);
    }
  }

  lemma AtLeastOnce(d: nat, n: nat)
    requires n > 0
    ensures d * n >= d
  {
  }

  lemma Distribute(d: nat, m: nat, n: nat)
    ensures d * (m + n) == d * m + d * n
  {
  }

  lemma {:induction false} ValueOfConcat(a: seq<byte>, b: seq<byte>)
    ensures Value(a + b) == Value(a) * Power256(|b|) + Value(b)
  {
    if b == [] {
      assert a + b == a;
    } else {
      var low := b[..|b| - 1];
      ValueOfConcat(a, low);
      assert (a + b)[..|a + b| - 1] == a + low;
      Regroup(Value(a), Power256(|low|));
    }
  }

  lemma Regroup(x: nat, p: nat)
    ensures x * (256 * p) == 256 * (x * p)
  {
  }

  lemma {:induction false} PowerMonotone(j: nat, k: nat)
    requires j <= k
    ensures Power256(j) <= Power256(k)
  {
    if j < k {
      PowerMonotone(j, k - 1);
    }
  }
}
