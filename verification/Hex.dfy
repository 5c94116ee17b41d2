/** The ASCII hex codec and the word swap of melsec_mc_ascii.c and melsec_helper.c. */
module Hex {
  import opened Wrappers
  import opened Bytes
  import Numerals

  function Digit(n: nat): (c: Byte)
    requires n < 16
  {
    Numerals.Char(n)
  }

  predicate IsHexDigit(c: Byte) { 0x30 <= c <= 0x39 || 0x41 <= c <= 0x46 || 0x61 <= c <= 0x66 }

  /** The value of a hex character of either case, or -1. */
  function Nibble(c: Byte): (n: int)
    ensures -1 <= n < 16
    ensures n >= 0 <==> IsHexDigit(c)
  {
    if Numerals.DigitOf(c) < 16 then Numerals.DigitOf(c) else -1
  }

  function OfByte(b: Byte): (s: seq<Byte>)
    ensures |s| == 2
  {
    [Digit(b / 16), Digit(b % 16)]
  }

  function PairToByte(hi: Byte, lo: Byte): (b: Option<Byte>)
  {
    if Nibble(hi) < 0 || Nibble(lo) < 0 then None else Some(Nibble(hi) * 16 + Nibble(lo))
  }

  /** Four characters, high byte first. */
  function OfWord(w: Word): (s: seq<Byte>)
    ensures |s| == 4
  {
    OfByte(w / 256) + OfByte(w % 256)
  }

  function ToWord(s: seq<Byte>): (w: Option<Word>)
    requires |s| == 4
  {
    match (PairToByte(s[0], s[1]), PairToByte(s[2], s[3]))
    case (Some(h), Some(l)) => Some((h as int) * 256 + l)
    case _ => None
  }

  lemma PairRoundTrip(b: Byte)
    ensures PairToByte(OfByte(b)[0], OfByte(b)[1]) == Some(b)
  {
  }

  lemma WordRoundTrip(w: Word)
    ensures ToWord(OfWord(w)) == Some(w)
  {
    PairRoundTrip(w / 256);
    PairRoundTrip(w % 256);
  }

  function OfBytes(bs: seq<Byte>): (s: seq<Byte>)
    ensures |s| == 2 * |bs|
  {
    if |bs| == 0 then [] else OfByte(bs[0]) + OfBytes(bs[1..])
  }

  /** All the bytes of a hex text; None if the count is odd or a character is not a hex digit. */
  function ToBytes(s: seq<Byte>): (bs: Option<seq<Byte>>)
    ensures bs.Some? ==> 2 * |bs.value| == |s|
  {
    if |s| == 0 then Some([])
    else if |s| == 1 then None
    else match (PairToByte(s[0], s[1]), ToBytes(s[2..]))
      case (Some(b), Some(rest)) => Some([b] + rest)
      case _ => None
  }

  function Upper(c: Byte): Byte { if 0x61 <= c <= 0x7A then c - 0x20 else c }

  predicate SameButCase(s: seq<Byte>, t: seq<Byte>)
  {
    |s| == |t| && forall i | 0 <= i < |s| :: Upper(s[i]) == Upper(t[i])
  }

  lemma {:induction false} BytesRoundTrip(bs: seq<Byte>)
    ensures ToBytes(OfBytes(bs)) == Some(bs)
  {
    if |bs| > 0 {
      BytesRoundTrip(bs[1..]);
      PairRoundTrip(bs[0]);
      var s := OfBytes(bs);
      assert s[0] == OfByte(bs[0])[0] && s[1] == OfByte(bs[0])[1] && s[2..] == OfBytes(bs[1..]);
      assert [bs[0]] + bs[1..] == bs;
    }
  }

  predicate AllHex(s: seq<Byte>) { forall i | 0 <= i < |s| :: Nibble(s[i]) >= 0 }

  /** Exactly the even-length texts of hex digits decode. */
  lemma {:induction false} DecodesExactlyHex(s: seq<Byte>)
    ensures ToBytes(s).Some? <==> |s| % 2 == 0 && AllHex(s)
  {
    if |s| >= 2 {
      var t := s[2..];
      DecodesExactlyHex(t);
      assert AllHex(s) <==> Nibble(s[0]) >= 0 && Nibble(s[1]) >= 0 && AllHex(t) by {
        assert forall i | 0 <= i < |t| :: t[i] == s[i + 2];
        assert forall i | 2 <= i < |s| :: s[i] == t[i - 2];
      }
    }
  }

  lemma PairEncodesBack(hi: Byte, lo: Byte)
    requires PairToByte(hi, lo).Some?
    ensures OfByte(PairToByte(hi, lo).value) == [Upper(hi), Upper(lo)]
  {
  }

  /** Re-encoding a decoded text gives the text in upper case. */
  lemma {:induction false} EncodesBackInUpperCase(s: seq<Byte>)
    requires ToBytes(s).Some?
    ensures OfBytes(ToBytes(s).value) == seq(|s|, i requires 0 <= i < |s| => Upper(s[i]))
  {
    if |s| >= 2 {
      EncodesBackInUpperCase(s[2..]);
      PairEncodesBack(s[0], s[1]);
      assert ToBytes(s).value[1..] == ToBytes(s[2..]).value;
    }
  }

  lemma {:induction false} CaseDoesNotMatter(s: seq<Byte>, t: seq<Byte>)
    requires SameButCase(s, t)
    ensures ToBytes(s) == ToBytes(t)
  {
    if |s| >= 2 {
      assert Upper(s[0]) == Upper(t[0]) && Upper(s[1]) == Upper(t[1]);
      assert SameButCase(s[2..], t[2..]) by {
        forall i | 0 <= i < |s| - 2 ensures Upper(s[2..][i]) == Upper(t[2..][i]) {
          assert Upper(s[i + 2]) == Upper(t[i + 2]);
        }
      }
      CaseDoesNotMatter(s[2..], t[2..]);
    }
  }

  /** Each pair of bytes exchanged; a last odd byte stays. */
  function Swapped(bs: seq<Byte>): (r: seq<Byte>)
    ensures |r| == |bs|
    ensures forall i | 0 <= i < |bs| ::
              r[i] == (if i % 2 == 1 then bs[i - 1] else if i + 1 < |bs| then bs[i + 1] else bs[i])
  {
    seq(|bs|, i requires 0 <= i < |bs| => if i % 2 == 1 then bs[i - 1] else if i + 1 < |bs| then bs[i + 1] else bs[i])
  }

  lemma SwapIsInvolution(bs: seq<Byte>)
    ensures Swapped(Swapped(bs)) == bs
  {
  }

  /** The in-place swap loop used before encoding and after decoding word data. */
  method SwapWords(buf: array<Byte>)
    requires buf.Length % 2 == 0
    modifies buf
    ensures buf[..] == Swapped(old(buf[..]))
  {
    var i := 0;
    while i < buf.Length
      invariant 0 <= i <= buf.Length && i % 2 == 0
      invariant forall k | 0 <= k < i :: buf[k] == Swapped(old(buf[..]))[k]
      invariant forall k | i <= k < buf.Length :: buf[k] == old(buf[k])
    {
      var t := buf[i];
      buf[i] := buf[i + 1];
      buf[i + 1] := t;
      i := i + 2;
    }
  }

  lemma {:induction false} OfBytesAt(bs: seq<Byte>, k: nat)
    requires k < |bs|
    ensures OfBytes(bs)[2 * k] == Digit(bs[k] / 16) && OfBytes(bs)[2 * k + 1] == Digit(bs[k] % 16)
  {
    if k > 0 { OfBytesAt(bs[1..], k - 1); }
  }

  /** build_ascii_bytes_from_byte_array. */
  method EncodeArray(data: array<Byte>) returns (out: array<Byte>)
    ensures fresh(out) && out[..] == OfBytes(data[..])
  {
    out := new Byte[2 * data.Length];
    for i := 0 to data.Length
      invariant forall k | 0 <= k < i :: out[2 * k] == Digit(data[k] / 16) && out[2 * k + 1] == Digit(data[k] % 16)
    {
      out[2 * i] := Digit(data[i] / 16);
      out[2 * i + 1] := Digit(data[i] % 16);
    }
    forall j | 0 <= j < out.Length ensures out[..][j] == OfBytes(data[..])[j] {
      OfBytesAt(data[..], j / 2);
    }
  }
}
