/** Bytes and the little-endian integer codecs of utill.c. */
module Bytes {

  type Byte = b: int | 0 <= b < 256

  type Word = w: int | 0 <= w < 0x1_0000

  /** 256 to the power k: the number of values k bytes can hold. */
  function Span(k: nat): (r: int)
    ensures r > 0
  {
    if k == 0 then 1 else 256 * Span(k - 1)
  }

  /** The low k bytes of n in two's complement, least significant first. */
  function LE(n: int, k: nat): (bs: seq<Byte>)
    ensures |bs| == k
    decreases k
  {
    if k == 0 then [] else [n % 256] + LE(n / 256, k - 1)
  }

  /** The unsigned value of little-endian bytes. */
  function FromLE(bs: seq<Byte>): (n: nat)
    ensures n < Span(|bs|)
  {
    if |bs| == 0 then 0 else bs[0] + 256 * FromLE(bs[1..])
  }

  /** The signed reading of a k-byte unsigned value, as a C cast to a signed type gives it. */
  function Signed(u: nat, k: nat): int
    requires u < Span(k)
  {
    if 2 * u < Span(k) then u else u - Span(k)
  }

  predicate FitsUnsigned(v: int, k: nat) { 0 <= v < Span(k) }

  predicate FitsSigned(v: int, k: nat) { -Span(k) <= 2 * v < Span(k) }

  lemma MultipleSign(d: int, m: int)
    requires m > 0
    ensures d >= 1 ==> d * m >= m
    ensures d <= -1 ==> d * m <= -m
  {
  }

  /** A quotient and a remainder below the divisor are the quotient and the remainder. */
  lemma DivModUnique(a: int, q: int, m: nat, r: int)
    requires 0 <= r < m && a == q * m + r
    ensures a / m == q && a % m == r
  {
    var d := a / m - q;
    assert a == (a / m) * m + a % m;
    assert (a / m) * m - q * m == d * m;
    MultipleSign(d, m);
  }

  lemma {:induction false} FromLEofLE(n: int, k: nat)
    ensures FromLE(LE(n, k)) == n % Span(k)
    decreases k
  {
    if k > 0 {
      FromLEofLE(n / 256, k - 1);
      var p := Span(k - 1);
      var m := n / 256;
      var r := 256 * (m % p) + n % 256;
      assert LE(n, k)[1..] == LE(m, k - 1);
      assert m == (m / p) * p + m % p;
      assert 256 * ((m / p) * p) == (m / p) * (256 * p);
      DivModUnique(n, m / p, 256 * p, r);
    } else {
      assert n % 1 == 0;
    }
  }

  /** Byte i is the i-th from the low end. */
  lemma {:induction false} LEAt(n: int, k: nat, i: nat)
    requires i < k
    ensures LE(n, k)[i] == (n / Span(i)) % 256
    decreases k
  {
    if i > 0 {
      LEAt(n / 256, k - 1, i - 1);
      DivDiv(n, Span(i - 1));
    }
  }

  /** Two neighbouring bytes make a word. */
  lemma WordOfBytes(n: int, i: nat)
    ensures (n / Span(i)) % 256 + 256 * ((n / Span(i + 1)) % 256) == (n / Span(i)) % 0x1_0000
  {
    var p := Span(i);
    DivByProduct(n, p);
    TwoBytesOf(n / p);
  }

  lemma TwoBytesOf(m: int)
    ensures m % 256 + 256 * ((m / 256) % 256) == m % 0x1_0000
  {
  }

  lemma DivByProduct(n: int, p: nat)
    requires p > 0
    ensures (n / p) / 256 == n / (256 * p)
  {
    var m := n / p;
    var q, e := m / 256, m % 256;
    assert n == m * p + n % p;
    SplitProduct(q, e, p);
    DivModUnique(n, q, 256 * p, e * p + n % p);
  }

  lemma SplitProduct(q: int, e: nat, p: nat)
    requires e < 256
    ensures (q * 256 + e) * p == q * (256 * p) + e * p
    ensures 0 <= e * p <= 255 * p
  {
    if e < 255 && p > 0 { MultipleSign(255 - e, p); }
    assert 255 * p == e * p + (255 - e) * p;
  }

  lemma DivDiv(n: int, p: nat)
    requires p > 0
    ensures (n / 256) / p == n / (256 * p)
  {
    var m := n / 256;
    var q, r := m / p, 256 * (m % p) + n % 256;
    assert m == q * p + m % p;
    assert n == q * (256 * p) + r by { assert 256 * (q * p) == q * (256 * p); }
    DivModUnique(n, q, 256 * p, r);
  }

  lemma {:induction false} LEofFromLE(bs: seq<Byte>)
    ensures LE(FromLE(bs), |bs|) == bs
  {
    if |bs| > 0 {
      LEofFromLE(bs[1..]);
      assert FromLE(bs) / 256 == FromLE(bs[1..]);
      assert FromLE(bs) % 256 == bs[0];
    }
  }

  /** Encoding then decoding gives the value back for every value of the type, signed or not. */
  lemma CodecRoundTrip(v: int, k: nat)
    ensures FitsUnsigned(v, k) ==> FromLE(LE(v, k)) == v
    ensures FitsSigned(v, k) ==> Signed(FromLE(LE(v, k)), k) == v
  {
    FromLEofLE(v, k);
    var m := Span(k);
    if FitsUnsigned(v, k) {
      DivModUnique(v, 0, m, v);
    }
    if FitsSigned(v, k) {
      if v >= 0 { DivModUnique(v, 0, m, v); } else { DivModUnique(v, -1, m, v + m); }
    }
  }

  lemma SpanValues()
    ensures Span(1) == 0x100 && Span(2) == 0x1_0000 && Span(4) == 0x1_0000_0000
    ensures Span(8) == 0x1_0000_0000_0000_0000
  {
    assert Span(2) == 256 * Span(1);
    assert Span(4) == 256 * Span(3) == 256 * (256 * Span(2));
    assert Span(8) == 256 * Span(7) && Span(7) == 256 * Span(6) && Span(6) == 256 * Span(5) && Span(5) == 256 * Span(4);
  }
}
