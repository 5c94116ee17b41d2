/** The response parsers of both clients, over the frames the readers return. */
module Responses {
  import opened Wrappers
  import opened Bytes
  import opened Framing
  import Hex

  /** What a parser hands back; data is None where the caller's buffer is left untouched. */
  datatype Parsed = Parsed(code: Code, data: Option<seq<Byte>>)

  /** rsCount: the declared length less the end code, in uint16_t arithmetic. */
  function PayloadCount(r: seq<Byte>): nat
    requires |r| >= 11
  {
    ((r[8] as int) * 256 + (r[7] as int) - 2) % 0x1_0000
  }

  predicate Accepted(r: seq<Byte>)
    requires |r| >= 11
  {
    (r[9] as int) * 256 + (r[10] as int) == 0 && PayloadCount(r) == |r| - 11
  }

  /**
   * mc_parse_read_response. The copy reads rsCount bytes whatever the end code says; memory is whether malloc
   * succeeds.
   */
  function ParseRead(r: seq<Byte>, memory: bool): (res: Parsed)
    requires |r| == 0 || (|r| >= 11 && 11 + PayloadCount(r) <= |r|)
  {
    if |r| == 0 then Parsed(InvalidParameter, None)
    else if PayloadCount(r) > 0 && !memory then Parsed(MallocFailed, None)
    else Parsed(if Accepted(r) then Success else Failed,
                if PayloadCount(r) > 0 then Some(r[11..11 + PayloadCount(r)]) else None)
  }

  /** mc_parse_write_response with no buffer for data, as every write calls it. */
  function ParseWrite(r: seq<Byte>): (code: Code)
    requires |r| == 0 || |r| >= 11
  {
    if |r| == 0 then InvalidParameter else if Accepted(r) then Success else Failed
  }

  method ParseReadResponse(response: array<Byte>, memory: bool) returns (code: Code, filled: bool, data: array<Byte>)
    requires response.Length == 0 || (response.Length >= 11 && 11 + PayloadCount(response[..]) <= response.Length)
    ensures code == ParseRead(response[..], memory).code
    ensures filled <==> ParseRead(response[..], memory).data.Some?
    ensures filled ==> fresh(data) && data[..] == ParseRead(response[..], memory).data.value
  {
    code, filled, data := Failed, false, response;
    if response.Length == 0 { return InvalidParameter, false, response; }
    var min := 11;
    var count0, count1: Byte := response[min - 3], response[min - 4];
    var code0, code1: Byte := response[min - 2], response[min - 1];
    var rsCount := ((count0 as int) * 256 + (count1 as int) - 2) % 0x1_0000;
    var rsCode := (code0 as int) * 256 + (code1 as int);
    if rsCode == 0 && rsCount == response.Length - min { code := Success; }
    if rsCount > 0 {
      if memory {
        data := CopyOf(response, min, rsCount);
        filled := true;
      } else {
        code := MallocFailed;
      }
    }
  }

  /** A fresh copy of count bytes from an offset. */
  method CopyOf(source: array<Byte>, from: nat, count: nat) returns (data: array<Byte>)
    requires from + count <= source.Length
    ensures fresh(data) && data[..] == source[..][from..from + count]
  {
    data := new Byte[count](_ => 0);
    for i := 0 to count
      invariant data[..i] == source[from..from + i]
    {
      data[i] := source[from + i];
    }
    assert data[..] == data[..count];
  }

  /**
   * Reader and parser agree. On every frame the binary reader accepts the 16-bit subtraction does not wrap and,
   * given memory for the data, the copy is exactly the rest of the frame and the parse succeeds exactly when both
   * end code bytes are zero.
   */
  lemma ReaderAndParserAgree(r: seq<Byte>)
    requires IsFrame(Binary, r)
    ensures PayloadCount(r) == |r| - 11
    ensures ParseRead(r, true).code.Success? <==> r[9] == 0 && r[10] == 0
    ensures ParseRead(r, true).data == if |r| > 11 then Some(r[11..]) else None
    ensures ParseRead(r, false) == if |r| > 11 then Parsed(MallocFailed, None) else ParseRead(r, true)
    ensures ParseWrite(r) == ParseRead(r, true).code
  {
    assert (r[7] as int) + 256 * (r[8] as int) == |r| - 9;
    assert r[11..|r|] == r[11..];
  }

  /**
   * The codes of both binary parsers: FAILED on every end code but zero, and on a length field that disagrees with
   * the response; a field below 2 wraps around.
   */
  lemma BinaryCodes(r: seq<Byte>, memory: bool)
    requires |r| >= 11 && 11 + PayloadCount(r) <= |r|
    ensures var declared := r[7] as int + 256 * r[8] as int;
            var size := if declared < 2 then declared + 0x1_0000 else declared;
            var accepted := r[9] == 0 && r[10] == 0 && size == |r| - 9;
            && ParseWrite(r) == (if accepted then Success else Failed)
            && ParseRead(r, memory).code
               == (if PayloadCount(r) > 0 && !memory then MallocFailed else if accepted then Success else Failed)
    ensures ParseWrite([]).InvalidParameter? && ParseRead([], memory) == Parsed(InvalidParameter, None)
  {
  }

  // ---- ASCII ----

  function AsciiEndCode(r: seq<Byte>): (code: Code)
  {
    if |r| < 22 then ResponseHeaderFailed
    else match Hex.ToWord(r[18..22])
      case None => ResponseHeaderFailed
      case Some(w) => if w == 0 then Success else Failed
  }

  /** The end code is four hex digits. */
  predicate HasEndCode(r: seq<Byte>) { |r| >= 22 && forall i | 18 <= i < 22 :: Hex.IsHexDigit(r[i]) }

  /** It is zero. */
  predicate EndCodeIsZero(r: seq<Byte>) { |r| >= 22 && r[18..22] == [0x30, 0x30, 0x30, 0x30] }

  lemma ZeroDigit(c: Byte)
    ensures Hex.Nibble(c) == 0 <==> c == 0x30
  {
  }

  /** FAILED for every other end code, RESPONSE_HEADER_FAILED where there is none. */
  lemma AsciiEndCodes(r: seq<Byte>)
    ensures AsciiEndCode(r)
            == if !HasEndCode(r) then ResponseHeaderFailed else if EndCodeIsZero(r) then Success else Failed
  {
    if |r| >= 22 {
      var s := r[18..22];
      forall i | 0 <= i < 4 ensures s[i] == r[18 + i] { ZeroDigit(s[i]); }
      ZeroDigit(s[0]);
      ZeroDigit(s[1]);
      ZeroDigit(s[2]);
      ZeroDigit(s[3]);
    }
  }

  function Flags(s: seq<Byte>): (bits: seq<Byte>)
    ensures |bits| == |s| && forall i | 0 <= i < |s| :: bits[i] == if s[i] == 0x31 then 1 else 0
  {
    seq(|s|, i requires 0 <= i < |s| => if s[i] == 0x31 then 1 else 0)
  }

  /** mc_ascii_parse_read_response: the output is cleared first, so that every later refusal leaves it empty. */
  function ParseAsciiRead(r: seq<Byte>, isBit: bool, memory: bool): (res: Parsed)
  {
    if |r| < 22 then Parsed(InvalidParameter, None)
    else if !AsciiEndCode(r).Success? then Parsed(AsciiEndCode(r), Some([]))
    else if |r| == 22 then Parsed(Success, Some([]))
    else if !isBit && |r| % 2 != 0 then Parsed(ResponseHeaderFailed, Some([]))
    else if !memory then Parsed(MallocFailed, Some([]))
    else if isBit then Parsed(Success, Some(Flags(r[22..])))
    else match Hex.ToBytes(r[22..])
      case None => Parsed(ResponseHeaderFailed, Some([]))
      case Some(bs) => Parsed(Success, Some(if |bs| % 2 == 0 then Hex.Swapped(bs) else bs))
  }

  method ParseAsciiReadResponse(response: array<Byte>, isBit: bool, memory: bool)
    returns (code: Code, data: array<Byte>)
    ensures code == ParseAsciiRead(response[..], isBit, memory).code
    ensures var parsed := ParseAsciiRead(response[..], isBit, memory);
            parsed.data.Some? ==> fresh(data) && data[..] == parsed.data.value
  {
    data := new Byte[0];
    assert data[..] == [];
    if response.Length < 22 { return InvalidParameter, data; }
    code := AsciiEndCode(response[..]);
    if !code.Success? { return; }
    var payloadLength := response.Length - 22;
    if payloadLength <= 0 { return; }
    if isBit {
      if !memory { return MallocFailed, data; }
      data := ReadFlags(response);
    } else {
      code, data := ReadWordData(response, memory);
    }
  }

  method ReadFlags(response: array<Byte>) returns (bits: array<Byte>)
    requires response.Length > 22
    ensures fresh(bits) && bits[..] == Flags(response[..][22..])
  {
    bits := new Byte[response.Length - 22](_ => 0);
    for i := 0 to bits.Length
      invariant forall k | 0 <= k < i :: bits[k] == if response[22 + k] == 0x31 then 1 else 0
    {
      bits[i] := if response[22 + i] == 0x31 then 0x01 else 0x00;
    }
  }

  method ReadWordData(response: array<Byte>, memory: bool) returns (code: Code, data: array<Byte>)
    requires response.Length > 22 && AsciiEndCode(response[..]).Success?
    ensures fresh(data) && Parsed(code, Some(data[..])) == ParseAsciiRead(response[..], false, memory)
  {
    ghost var s := response[..][22..];
    Hex.DecodesExactlyHex(s);
    data := new Byte[0];
    assert data[..] == [];
    if (response.Length - 22) % 2 != 0 { return ResponseHeaderFailed, data; }
    if !memory { return MallocFailed, data; }
    var byteLength := (response.Length - 22) / 2;
    var bytes := new Byte[byteLength](_ => 0);
    for i := 0 to byteLength
      invariant forall k | 0 <= k < i :: Hex.PairToByte(s[2 * k], s[2 * k + 1]) == Some(bytes[k])
    {
      match Hex.PairToByte(response[22 + i * 2], response[22 + i * 2 + 1]) {
        case None =>
          NotAllHex(s, 2 * i);
          assert data[..] == [];
          return ResponseHeaderFailed, data;
        case Some(b) => bytes[i] := b;
      }
    }
    DecodedPairs(s, bytes[..]);
    if byteLength % 2 == 0 { Hex.SwapWords(bytes); }
    code, data := Success, bytes;
  }

  lemma NotAllHex(s: seq<Byte>, i: nat)
    requires i + 1 < |s| && Hex.PairToByte(s[i], s[i + 1]).None?
    ensures !Hex.AllHex(s)
  {
  }

  lemma {:induction false} DecodedPairs(s: seq<Byte>, bs: seq<Byte>)
    requires |s| == 2 * |bs| && forall k | 0 <= k < |bs| :: Hex.PairToByte(s[2 * k], s[2 * k + 1]) == Some(bs[k])
    ensures Hex.ToBytes(s) == Some(bs)
  {
    if |bs| > 0 {
      assert Hex.PairToByte(s[2 * 0], s[2 * 0 + 1]) == Some(bs[0]);
      forall k | 0 <= k < |bs| - 1 ensures Hex.PairToByte(s[2..][2 * k], s[2..][2 * k + 1]) == Some(bs[1..][k]) {
        assert Hex.PairToByte(s[2 * (k + 1)], s[2 * (k + 1) + 1]) == Some(bs[k + 1]);
      }
      DecodedPairs(s[2..], bs[1..]);
      assert [bs[0]] + bs[1..] == bs;
    }
  }

  /** Word data encoded as the client encodes it, swapped and then in hex, is what the parser returns. */
  lemma WordDataComesBack(r: seq<Byte>, bs: seq<Byte>)
    requires |r| >= 22 && AsciiEndCode(r).Success? && |bs| % 2 == 0
    requires r[22..] == Hex.OfBytes(Hex.Swapped(bs))
    ensures ParseAsciiRead(r, false, true) == Parsed(Success, Some(bs))
  {
    Hex.BytesRoundTrip(Hex.Swapped(bs));
    Hex.SwapIsInvolution(bs);
    if |r| == 22 { assert bs == []; }
  }

  /** Word data is refused exactly when its character count is odd or a character is not a hex digit. */
  lemma RefusesExactlyNonHex(r: seq<Byte>)
    requires |r| > 22 && AsciiEndCode(r).Success?
    ensures ParseAsciiRead(r, false, true).code.Success? <==> |r| % 2 == 0 && Hex.AllHex(r[22..])
    ensures !ParseAsciiRead(r, false, true).code.Success? ==> ParseAsciiRead(r, false, true).code.ResponseHeaderFailed?
  {
    Hex.DecodesExactlyHex(r[22..]);
  }

  /** The code of the ASCII parser for every response, and the empty output of every refusal. */
  lemma AsciiReadCodes(r: seq<Byte>, isBit: bool, memory: bool)
    ensures var res, data := ParseAsciiRead(r, isBit, memory), if |r| > 22 then r[22..] else [];
            if |r| < 22 then res == Parsed(InvalidParameter, None)
            else if !HasEndCode(r) then res == Parsed(ResponseHeaderFailed, Some([]))
            else if !EndCodeIsZero(r) then res == Parsed(Failed, Some([]))
            else if data == [] then res == Parsed(Success, Some([]))
            else if !isBit && |data| % 2 == 1 then res == Parsed(ResponseHeaderFailed, Some([]))
            else if !memory then res == Parsed(MallocFailed, Some([]))
            else if isBit then res == Parsed(Success, Some(Flags(data)))
            else if !AllHexDigits(data) then res == Parsed(ResponseHeaderFailed, Some([]))
            else res.code.Success? && res.data.Some? && 2 * |res.data.value| == |data|
  {
    AsciiEndCodes(r);
    if |r| > 22 { Hex.DecodesExactlyHex(r[22..]); }
  }

  predicate AllHexDigits(s: seq<Byte>) { forall i | 0 <= i < |s| :: Hex.IsHexDigit(s[i]) }

  /** What word data the parser returns: the bytes of the text, swapped back if they are whole words. */
  lemma AsciiWordData(r: seq<Byte>)
    requires ParseAsciiRead(r, false, true).code.Success?
    ensures |r| >= 22 && ParseAsciiRead(r, false, true).data.Some?
    ensures var data := ParseAsciiRead(r, false, true).data.value;
            |r| == 22 + 2 * |data|
            && forall i | 22 <= i < |r| ::
                 Hex.OfBytes(if |data| % 2 == 0 then Hex.Swapped(data) else data)[i - 22] == Hex.Upper(r[i])
  {
    if |r| > 22 {
      Hex.EncodesBackInUpperCase(r[22..]);
      Hex.SwapIsInvolution(Hex.ToBytes(r[22..]).value);
    }
  }

  /** The case of the hex digits does not matter. */
  lemma CaseOfDataDoesNotMatter(r: seq<Byte>, t: seq<Byte>)
    requires |r| == |t| >= 22 && r[..22] == t[..22] && Hex.SameButCase(r[22..], t[22..])
    ensures ParseAsciiRead(r, false, true) == ParseAsciiRead(t, false, true)
  {
    assert r[18..22] == r[..22][18..] == t[..22][18..] == t[18..22];
    Hex.CaseDoesNotMatter(r[22..], t[22..]);
  }
}
