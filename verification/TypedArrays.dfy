/** Arrays of 16-, 32- and 64-bit integers as word data: utill.c and the batch loops of melsec_mc_bin_batch.c. */
module TypedArrays {
  import opened Bytes

  predicate IsWidth(k: nat) { k == 2 || k == 4 || k == 8 }

  /** Whether a value is one of the k-byte integer type, signed or unsigned. */
  predicate InType(v: int, k: nat, signed: bool) { if signed then FitsSigned(v, k) else FitsUnsigned(v, k) }

  function Encoded(values: seq<int>, k: nat): (bs: seq<Byte>)
    ensures |bs| == k * |values|
  {
    if |values| == 0 then [] else Encoded(values[..|values| - 1], k) + LE(values[|values| - 1], k)
  }

  /** One value of the type from k bytes. */
  function FromBytes(bs: seq<Byte>, signed: bool): int { if signed then Signed(FromLE(bs), |bs|) else FromLE(bs) }

  function Decoded(bs: seq<Byte>, k: nat, n: nat, signed: bool): (values: seq<int>)
    requires k * n <= |bs|
    ensures |values| == n
  {
    if n == 0 then []
    else
      assert k * (n - 1) == k * n - k;
      Decoded(bs, k, n - 1, signed) + [FromBytes(bs[k * (n - 1)..k * n], signed)]
  }

  /** Decoding looks no further than the values it decodes. */
  lemma {:induction false} DecodedPrefix(bs: seq<Byte>, cs: seq<Byte>, k: nat, n: nat, signed: bool)
    requires k * n <= |bs| && bs <= cs
    ensures Decoded(bs, k, n, signed) == Decoded(cs, k, n, signed)
    decreases n
  {
    if n > 0 {
      assert k * (n - 1) == k * n - k;
      DecodedPrefix(bs, cs, k, n - 1, signed);
      assert bs[k * (n - 1)..k * n] == cs[k * (n - 1)..k * n];
    }
  }

  /** Every array of values of the type is recovered from its bytes. */
  lemma {:induction false} ArraysRoundTrip(values: seq<int>, k: nat, signed: bool)
    requires forall i | 0 <= i < |values| :: InType(values[i], k, signed)
    ensures Decoded(Encoded(values, k), k, |values|, signed) == values
  {
    if |values| > 0 {
      var n := |values|;
      var front, last := values[..n - 1], values[n - 1];
      ArraysRoundTrip(front, k, signed);
      CodecRoundTrip(last, k);
      OneMore(Encoded(front, k), LE(last, k), k, n, signed);
    }
  }

  lemma OneMore(front: seq<Byte>, last: seq<Byte>, k: nat, n: nat, signed: bool)
    requires n > 0 && |front| == k * (n - 1) && |last| == k
    ensures k * n == |front + last|
    ensures Decoded(front + last, k, n, signed) == Decoded(front, k, n - 1, signed) + [FromBytes(last, signed)]
  {
    assert k * (n - 1) == k * n - k;
    DecodedPrefix(front, front + last, k, n - 1, signed);
    assert (front + last)[k * (n - 1)..k * n] == last;
  }

  /** The values lie one after the other, each with its low byte first. */
  lemma {:induction false} EncodedAt(values: seq<int>, k: nat, i: nat, j: nat)
    requires i < |values| && j < k
    ensures 0 <= k * i + j < |Encoded(values, k)|
    ensures Encoded(values, k)[k * i + j] == (values[i] / Span(j)) % 256
    decreases |values|
  {
    var n := |values|;
    InsideEarlier(k, i, j, n);
    if i == n - 1 {
      LEAt(values[i], k, j);
    } else {
      EncodedAt(values[..n - 1], k, i, j);
    }
  }

  /** Two of these bytes are a word of the value. */
  lemma EncodedPair(values: seq<int>, k: nat, i: nat, j: nat, at: nat)
    requires i < |values| && j + 1 < k && at == k * i + j
    ensures at + 1 < |Encoded(values, k)|
    ensures Encoded(values, k)[at] as int + 256 * (Encoded(values, k)[at + 1] as int)
            == (values[i] / Span(j)) % 0x1_0000
  {
    EncodedAt(values, k, i, j);
    EncodedAt(values, k, i, j + 1);
    WordOfBytes(values[i], j);
  }

  /** Word y of value i is word x of the array. */
  predicate IsWord(values: seq<int>, k: nat, i: nat, y: nat, x: nat)
  {
    IsWidth(k) && i < |values| && y < k / 2 && x == (k / 2) * i + y
  }

  /** Word y of value i, counted from the low end. */
  function WordOf(values: seq<int>, i: nat, y: nat): (w: int)
    requires i < |values|
    ensures 0 <= w < 0x1_0000
  {
    (values[i] / Span(2 * y)) % 0x1_0000
  }

  lemma EncodedWord(values: seq<int>, k: nat, i: nat, y: nat, x: nat, value: seq<Byte>)
    requires IsWord(values, k, i, y, x) && value == Encoded(values, k)
    ensures x < |value| / 2 && value[2 * x] as int + 256 * (value[2 * x + 1] as int) == WordOf(values, i, y)
  {
    WordIndex(k, i, y);
    EncodedPair(values, k, i, 2 * y, 2 * x);
  }

  lemma WordIndex(k: nat, i: nat, y: nat)
    requires IsWidth(k)
    ensures 2 * ((k / 2) * i + y) == k * i + 2 * y
  {
    if k == 2 {
      assert (k / 2) * i == i;
    } else if k == 4 {
      assert (k / 2) * i == 2 * i;
    } else {
      assert (k / 2) * i == 4 * i;
    }
  }

  lemma InsideEarlier(k: nat, i: nat, j: nat, n: nat)
    requires i < n && j < k
    ensures k * (n - 1) == k * n - k
    ensures 0 <= k * i + j && if i < n - 1 then k * i + j < k * (n - 1) else k * i + j < k * n
  {
    var later := n - 1 - i;
    assert k * (i + later) == k * i + k * later;
    if later > 0 { MultipleSign(later, k); }
  }

  /** The low bytes, then the bytes of what is left after shifting them out. */
  lemma {:induction false} LESplit(n: int, a: nat, b: nat)
    ensures LE(n, a + b) == LE(n, a) + LE(n / Span(a), b)
    decreases a
  {
    if a > 0 {
      LESplit(n / 256, a - 1, b);
      DivDiv(n, Span(a - 1));
      assert LE(n, a + b) == [n % 256] + (LE(n / 256, a - 1) + LE(n / Span(a), b));
    }
  }

  // ---- utill.c ----

  /** short2bytes and ushort2bytes. */
  method ShortToBytes(i: int, bytes: array<Byte>, at: nat)
    requires at + 2 <= bytes.Length
    modifies bytes
    ensures bytes[..] == old(bytes[..at]) + LE(i, 2) + old(bytes[at + 2..])
  {
    bytes[at] := i % 0x100;
    bytes[at + 1] := (i / 0x100) % 0x100;
    assert LE(i, 2) == [i % 0x100] + LE(i / 0x100, 1);
  }

  /** int2bytes and uint2bytes. */
  method IntToBytes(i: int, bytes: array<Byte>, at: nat)
    requires at + 4 <= bytes.Length
    modifies bytes
    ensures bytes[..] == old(bytes[..at]) + LE(i, 4) + old(bytes[at + 4..])
  {
    bytes[at] := i % 0x100;
    bytes[at + 1] := (i / 0x100) % 0x100;
    bytes[at + 2] := (i / 0x1_0000) % 0x100;
    bytes[at + 3] := (i / 0x100_0000) % 0x100;
    FourBytes(i);
  }

  lemma FourBytes(i: int)
    ensures LE(i, 4) == [i % 0x100, (i / 0x100) % 0x100, (i / 0x1_0000) % 0x100, (i / 0x100_0000) % 0x100]
  {
    assert LE(i, 4) == [i % 0x100] + LE(i / 0x100, 3);
    assert LE(i / 0x100, 3) == [(i / 0x100) % 0x100] + LE(i / 0x1_0000, 2);
    assert LE(i / 0x1_0000, 2) == [(i / 0x1_0000) % 0x100] + LE(i / 0x100_0000, 1);
  }

  /** bigInt2bytes and ubigInt2bytes: a byte for each shift by eight. */
  method BigIntToBytes(i: int, bytes: array<Byte>, at: nat)
    requires at + 8 <= bytes.Length
    modifies bytes
    ensures bytes[..] == old(bytes[..at]) + LE(i, 8) + old(bytes[at + 8..])
  {
    var high := i / 0x1_0000_0000;
    bytes[at], bytes[at + 1] := i % 0x100, (i / 0x100) % 0x100;
    bytes[at + 2], bytes[at + 3] := (i / 0x1_0000) % 0x100, (i / 0x100_0000) % 0x100;
    bytes[at + 4], bytes[at + 5] := high % 0x100, (high / 0x100) % 0x100;
    bytes[at + 6], bytes[at + 7] := (high / 0x1_0000) % 0x100, (high / 0x100_0000) % 0x100;
    EightBytes(i);
    FourBytes(i);
    FourBytes(high);
  }

  lemma EightBytes(i: int)
    ensures LE(i, 8) == LE(i, 4) + LE(i / 0x1_0000_0000, 4)
  {
    LESplit(i, 4, 4);
    SpanValues();
  }

  /** bytes2short and bytes2ushort, which differ in the type of the result. */
  method BytesToShort(bytes: array<Byte>, at: nat, signed: bool) returns (v: int)
    requires at + 2 <= bytes.Length
    ensures v == FromBytes(bytes[at..at + 2], signed)
  {
    var n := bytes[at] + 0x100 * (bytes[at + 1] as int);
    v := if signed && n >= 0x8000 then n - 0x1_0000 else n;
    TwoByteValue(bytes[at..at + 2]);
    SpanValues();
  }

  lemma TwoByteValue(bs: seq<Byte>)
    requires |bs| == 2
    ensures FromLE(bs) == bs[0] + 0x100 * (bs[1] as int)
  {
    assert FromLE(bs[1..]) == bs[1] + 256 * FromLE(bs[1..][1..]);
  }

  /** bytes2int32 and bytes2uint32. */
  method BytesToInt32(bytes: array<Byte>, at: nat, signed: bool) returns (v: int)
    requires at + 4 <= bytes.Length
    ensures v == FromBytes(bytes[at..at + 4], signed)
  {
    var n: nat := bytes[at];
    n := n + 0x100 * (bytes[at + 1] as int);
    n := n + 0x1_0000 * (bytes[at + 2] as int);
    n := n + 0x100_0000 * (bytes[at + 3] as int);
    v := if signed && n >= 0x8000_0000 then n - 0x1_0000_0000 else n;
    FourByteValue(bytes[at..at + 4]);
    SpanValues();
  }

  lemma FourByteValue(bs: seq<Byte>)
    requires |bs| == 4
    ensures FromLE(bs) == bs[0] + 0x100 * (bs[1] as int) + 0x1_0000 * (bs[2] as int) + 0x100_0000 * (bs[3] as int)
  {
    assert FromLE(bs[1..]) == bs[1] + 256 * FromLE(bs[1..][1..]);
    assert bs[1..][1..] == bs[2..];
    TwoByteValue(bs[2..]);
  }

  /** bytes2bigInt and bytes2ubigInt. */
  method BytesToBigInt(bytes: array<Byte>, at: nat, signed: bool) returns (v: int)
    requires at + 8 <= bytes.Length
    ensures v == FromBytes(bytes[at..at + 8], signed)
  {
    var n: nat := bytes[at];
    n := n + 0x100 * (bytes[at + 1] as int);
    n := n + 0x1_0000 * (bytes[at + 2] as int);
    n := n + 0x100_0000 * (bytes[at + 3] as int);
    n := n + 0x1_0000_0000 * (bytes[at + 4] as int);
    n := n + 0x100_0000_0000 * (bytes[at + 5] as int);
    n := n + 0x1_0000_0000_0000 * (bytes[at + 6] as int);
    n := n + 0x100_0000_0000_0000 * (bytes[at + 7] as int);
    v := if signed && n >= 0x8000_0000_0000_0000 then n - 0x1_0000_0000_0000_0000 else n;
    assert bytes[at..at + 8] == bytes[at..at + 4] + bytes[at + 4..at + 8];
    EightByteValue(bytes[at..at + 4], bytes[at + 4..at + 8]);
    FourByteValue(bytes[at..at + 4]);
    FourByteValue(bytes[at + 4..at + 8]);
    SpanValues();
  }

  lemma EightByteValue(low: seq<Byte>, high: seq<Byte>)
    requires |low| == 4
    ensures FromLE(low + high) == FromLE(low) + 0x1_0000_0000 * FromLE(high)
  {
    FourByteValue(low);
    var s := low + high;
    assert s[1..][1..][1..][1..] == high;
    assert FromLE(s[1..][1..]) == low[2] + 256 * FromLE(s[1..][1..][1..]);
    assert FromLE(s[1..][1..][1..]) == low[3] + 256 * FromLE(high);
    assert FromLE(s[1..]) == low[1] + 256 * FromLE(s[1..][1..]);
  }

  // ---- The batch loops ----

  /** The conversion loop of mc_write_short_batch and mc_write_ushort_batch. */
  method ShortsToBytes(values: array<int>) returns (bytes: array<Byte>)
    ensures fresh(bytes) && bytes[..] == Encoded(values[..], 2)
  {
    bytes := new Byte[values.Length * 2](_ => 0);
    for i := 0 to values.Length
      invariant bytes[..2 * i] == Encoded(values[..i], 2)
    {
      ghost var front := bytes[..2 * i];
      ShortToBytes(values[i], bytes, i * 2);
      assert bytes[..2 * i + 2] == front + LE(values[i], 2);
      assert values[..i + 1][..i] == values[..i];
    }
    assert bytes[..2 * values.Length] == bytes[..] && values[..values.Length] == values[..];
  }

  /** The conversion loop of mc_write_int32_batch and mc_write_uint32_batch. */
  method Int32sToBytes(values: array<int>) returns (bytes: array<Byte>)
    ensures fresh(bytes) && bytes[..] == Encoded(values[..], 4)
  {
    bytes := new Byte[values.Length * 4](_ => 0);
    for i := 0 to values.Length
      invariant bytes[..4 * i] == Encoded(values[..i], 4)
    {
      ghost var front := bytes[..4 * i];
      IntToBytes(values[i], bytes, i * 4);
      assert bytes[..4 * i + 4] == front + LE(values[i], 4);
      assert values[..i + 1][..i] == values[..i];
    }
    assert bytes[..4 * values.Length] == bytes[..] && values[..values.Length] == values[..];
  }

  /** The copy loop of mc_read_short_batch and mc_read_ushort_batch; short data leaves the output untouched. */
  method ShortsFromBytes(data: array<Byte>, length: nat, signed: bool, values: array<int>) returns (ok: bool)
    requires values.Length >= length
    modifies values
    ensures ok <==> data.Length >= length * 2
    ensures ok ==> values[..length] == Decoded(data[..], 2, length, signed)
    ensures values[if ok then length else 0..] == old(values[if ok then length else 0..])
  {
    ok := data.Length >= length * 2;
    if ok {
      for i := 0 to length
        invariant values[..i] == Decoded(data[..], 2, i, signed)
        invariant values[length..] == old(values[length..])
      {
        ghost var front := values[..i];
        values[i] := BytesToShort(data, i * 2, signed);
        assert data[..][2 * i..2 * i + 2] == data[i * 2..i * 2 + 2];
        assert values[..i + 1] == front + [values[i]];
      }
    }
  }

  /** The copy loop of mc_read_int32_batch and mc_read_uint32_batch. */
  method Int32sFromBytes(data: array<Byte>, length: nat, signed: bool, values: array<int>) returns (ok: bool)
    requires values.Length >= length
    modifies values
    ensures ok <==> data.Length >= length * 4
    ensures ok ==> values[..length] == Decoded(data[..], 4, length, signed)
    ensures values[if ok then length else 0..] == old(values[if ok then length else 0..])
  {
    ok := data.Length >= length * 4;
    if ok {
      for i := 0 to length
        invariant values[..i] == Decoded(data[..], 4, i, signed)
        invariant values[length..] == old(values[length..])
      {
        ghost var front := values[..i];
        values[i] := BytesToInt32(data, i * 4, signed);
        assert data[..][4 * i..4 * i + 4] == data[i * 4..i * 4 + 4];
        assert values[..i + 1] == front + [values[i]];
      }
    }
  }
}
