/**
 * What a 3E request frame means, written from the frame format rather than from the builders, and the
 * proof that both encodings of a request mean that request exactly within their ranges.
 */
module Decoding {
  import opened Wrappers
  import opened Bytes
  import opened Framing
  import opened Devices
  import opened Numerals
  import opened Requests
  import Hex
  import BoolPacking
  import AddressText

  // ---- The reference decoders ----

  /** The number of points says how much data there is. */
  predicate WellFormed(call: Call)
  {
    match call
    case Read(_, points) => points >= 0
    case WriteWords(points, value) => |value| == 2 * points
    case WriteBits(points, flags) => |flags| == points
  }

  /** A binary request frame; the monitoring timer in bytes 9 and 10 is not part of the request. */
  function DecodeBinary(f: seq<Byte>): (r: Option<Request>)
    ensures r.Some? ==> WellFormed(r.value.call)
  {
    if !IsFrame(Binary, f) || |f| < 21 || f[..2] != [0x50, 0x00] || f[3..6] != [0xFF, 0xFF, 0x03] then None
    else
      var start := (f[15] as int) + 256 * (f[16] as int) + 0x1_0000 * (f[17] as int);
      match (BinaryAction(f[11..15]), OfCode(f[18]))
      case (Some((write, bit)), Some(device)) =>
        (match BinaryCall(write, bit, (f[19] as int) + 256 * (f[20] as int), f[21..])
         case None => None
         case Some(call) => Some(Request(Address(f[2], f[6]), device, start, call)))
      case _ => None
  }

  /** Command and subcommand, low bytes first: is it a write, and is it by the bit. */
  function BinaryAction(command: seq<Byte>): Option<(bool, bool)>
  {
    if command == [0x01, 0x04, 0x00, 0x00] then Some((false, false))
    else if command == [0x01, 0x04, 0x01, 0x00] then Some((false, true))
    else if command == [0x01, 0x14, 0x00, 0x00] then Some((true, false))
    else if command == [0x01, 0x14, 0x01, 0x00] then Some((true, true))
    else None
  }

  function BinaryCall(write: bool, bit: bool, points: nat, data: seq<Byte>): (call: Option<Call>)
    ensures call.Some? ==> WellFormed(call.value)
  {
    if !write then (if |data| == 0 then Some(Read(bit, points)) else None)
    else if !bit then (if |data| == 2 * points then Some(WriteWords(points, data)) else None)
    else if |data| != (points + 1) / 2 then None
    else match NibbleFlags(data, points)
      case Some(flags) => Some(WriteBits(points, flags))
      case None => None
  }

  /** Four bits a point, the first point of a byte in the high four. */
  function Nibble(data: seq<Byte>, k: nat): (n: nat)
    requires k < 2 * |data|
  {
    if k % 2 == 0 then data[k / 2] / 16 else data[k / 2] % 16
  }

  /** A point is 0 or 1, and the four bits behind an odd last point are 0; any other data is refused. */
  function NibbleFlags(data: seq<Byte>, points: nat): (flags: Option<seq<bool>>)
    requires |data| == (points + 1) / 2
    ensures flags.Some? ==> |flags.value| == points
  {
    if forall k | 0 <= k < 2 * |data| :: Nibble(data, k) <= if k < points then 1 else 0 then
      Some(seq(points, k requires 0 <= k < points => Nibble(data, k) == 1))
    else None
  }

  /** An ASCII request frame; the timer is in characters 18 to 21. */
  function DecodeAscii(f: seq<Byte>): (r: Option<Request>)
    ensures r.Some? ==> WellFormed(r.value.call)
  {
    if !IsFrame(Ascii, f) || |f| < 42 || f[..4] != [0x35, 0x30, 0x30, 0x30]
      || f[6..12] != [0x46, 0x46, 0x30, 0x33, 0x46, 0x46] then None
    else
      match (Hex.PairToByte(f[4], f[5]), Hex.PairToByte(f[12], f[13]), DecodeAsciiCore(f[22..]))
      case (Some(network), Some(station), Some((device, start, call))) =>
        Some(Request(Address(network, station), device, start, call))
      case _ => None
  }

  function DecodeAsciiCore(c: seq<Byte>): (r: Option<(Device, int, Call)>)
    requires |c| >= 20
    ensures r.Some? ==> WellFormed(r.value.2)
  {
    match (AsciiAction(c[..8]), OfAscii(c[8], c[9]), Hex.ToWord(c[16..20]))
    case (Some((write, bit)), Some(device), Some(points)) =>
      if !IsNumeral(c[10..16], Table(device).base) then None
      else (match AsciiCall(write, bit, points, c[20..])
            case Some(call) => Some((device, Value(c[10..16], Table(device).base), call))
            case None => None)
    case _ => None
  }

  /** Command and subcommand, four hex digits each. */
  function AsciiAction(command: seq<Byte>): Option<(bool, bool)>
  {
    if command == [0x30, 0x34, 0x30, 0x31, 0x30, 0x30, 0x30, 0x30] then Some((false, false))
    else if command == [0x30, 0x34, 0x30, 0x31, 0x30, 0x30, 0x30, 0x31] then Some((false, true))
    else if command == [0x31, 0x34, 0x30, 0x31, 0x30, 0x30, 0x30, 0x30] then Some((true, false))
    else if command == [0x31, 0x34, 0x30, 0x31, 0x30, 0x30, 0x30, 0x31] then Some((true, true))
    else None
  }

  function AsciiCall(write: bool, bit: bool, points: nat, data: seq<Byte>): (call: Option<Call>)
    ensures call.Some? ==> WellFormed(call.value)
  {
    if !write then (if |data| == 0 then Some(Read(bit, points)) else None)
    else if !bit then
      match WordDigits(data)
      case Some(value) => if |value| == 2 * points then Some(WriteWords(points, value)) else None
      case None => None
    else if |data| == points
      && forall i | 0 <= i < |data| :: data[i] == 0x30 || data[i] == 0x31 then Some(WriteBits(points, CharFlags(data)))
    else None
  }

  function CharFlags(data: seq<Byte>): (flags: seq<bool>)
    ensures |flags| == |data| && forall i | 0 <= i < |data| :: flags[i] <==> data[i] == 0x31
  {
    seq(|data|, i requires 0 <= i < |data| => data[i] == 0x31)
  }

  /** Words of four hex digits, most significant first, as bytes, low byte first. */
  function WordDigits(s: seq<Byte>): (value: Option<seq<Byte>>)
    ensures value.Some? ==> 2 * |value.value| == |s|
  {
    if |s| == 0 then Some([])
    else if |s| < 4 then None
    else match (Hex.ToWord(s[..4]), WordDigits(s[4..]))
      case (Some(w), Some(rest)) => Some([w % 256, w / 256] + rest)
      case _ => None
  }

  function Decode(p: Protocol, f: seq<Byte>): (r: Option<Request>)
    ensures r.Some? ==> WellFormed(r.value.call)
  {
    if p.Binary? then DecodeBinary(f) else DecodeAscii(f)
  }

  // ---- The ranges ----

  /** The starts a frame can carry: three bytes in binary, six digits of the device's base in ASCII. */
  predicate StartFits(p: Protocol, d: Device, start: int)
  {
    0 <= start < if p.Binary? then 0x100_0000 else Pow(Table(d).base, 6)
  }

  /** Binary bit data loses a value that is set at an odd index in its upper half. */
  predicate FlagsSurvive(flags: seq<bool>)
  {
    forall k | (|flags| + 1) / 2 <= k < |flags| && k % 2 == 1 :: !flags[k]
  }

  function MaxWriteWords(p: Protocol): nat { if p.Binary? then 32761 else 16377 }

  function MaxWriteBits(p: Protocol): nat { if p.Binary? then 65535 else 65511 }

  predicate CallFits(p: Protocol, call: Call)
  {
    match call
    case Read(_, points) => 0 <= points < 0x1_0000
    case WriteWords(points, value) =>
      |value| == 2 * points && points <= MaxWriteWords(p) && (p.Ascii? ==> points > 0)
    case WriteBits(points, flags) =>
      |flags| == points && points <= MaxWriteBits(p) && if p.Binary? then FlagsSurvive(flags) else points > 0
  }

  predicate Fits(p: Protocol, r: Request) { StartFits(p, r.device, r.start) && CallFits(p, r.call) }

  // ---- Binary ----

  lemma LowThreeBytes(n: int)
    ensures n % 256 + 256 * ((n / 256) % 256) + 0x1_0000 * ((n / 0x1_0000) % 256) == n <==> 0 <= n < 0x100_0000
  {
  }

  lemma BinaryFrameFields(r: Request, data: seq<Byte>, write: bool, bit: bool, points: int, f: seq<Byte>)
    requires f == PackBinary(BinaryHead(write, bit, r.device, r.start, points) + data, r.address)
    ensures |f| == 21 + |data|
    ensures f[..2] == [0x50, 0x00] && f[3..6] == [0xFF, 0xFF, 0x03] && Address(f[2], f[6]) == r.address
    ensures BinaryAction(f[11..15]) == Some((write, bit))
    ensures f[15] == r.start % 256 && f[16] == (r.start / 256) % 256 && f[17] == (r.start / 0x1_0000) % 256
    ensures f[18] == Table(r.device).code && f[19] == points % 256 && f[20] == (points / 256) % 256 && f[21..] == data
  {
    assert f[11..15] == [0x01, if write then 0x14 else 0x04, if bit then 0x01 else 0x00, 0x00];
  }

  /** What is left of a frame built by a binary builder once the header has been understood. */
  lemma BinaryDecodes(r: Request, data: seq<Byte>, write: bool, bit: bool, points: int, f: seq<Byte>)
    requires f == PackBinary(BinaryHead(write, bit, r.device, r.start, points) + data, r.address)
    ensures DecodeBinary(f) == Some(r) <==>
            |data| <= 65523 && BinaryCall(write, bit, points % 0x1_0000, data) == Some(r.call)
              && 0 <= r.start < 0x100_0000
  {
    var core := BinaryHead(write, bit, r.device, r.start, points) + data;
    BinaryFrameFields(r, data, write, bit, points, f);
    PackedIsFrame(Binary, core, r.address);
    LowTwoBytes(points);
    LowThreeBytes(r.start);
    CodesAreBijective(r.device, f[18], 0, 0);
  }

  lemma BinaryMeans(r: Request)
    ensures Decode(Binary, Encode(Binary, r).value) == Some(r) <==> Fits(Binary, r)
  {
    var f := Encode(Binary, r).value;
    match r.call
    case Read(bit, points) =>
      BinaryReadMeans(r, bit, points);
    case WriteWords(points, value) =>
      BinaryDecodes(r, value, true, false, |value| / 2, f);
      BinaryWordCall(points, value);
    case WriteBits(points, flags) =>
      BinaryDecodes(r, BoolPacking.Packed(flags), true, true, points, f);
      BinaryBitCall(points, flags);
  }

  lemma BinaryReadMeans(r: Request, bit: bool, points: int)
    requires r.call == Read(bit, points)
    ensures DecodeBinary(PackBinary(BinaryRead(r.device, r.start, points, bit), r.address)) == Some(r)
            <==> Fits(Binary, r)
  {
    var head := BinaryRead(r.device, r.start, points, bit);
    assert head + [] == head;
    BinaryDecodes(r, [], false, bit, points, PackBinary(head, r.address));
  }

  lemma BinaryWordCall(points: int, value: seq<Byte>)
    ensures |value| <= 65523
            && BinaryCall(true, false, (|value| / 2) % 0x1_0000, value) == Some(WriteWords(points, value))
            <==> CallFits(Binary, WriteWords(points, value))
  {
  }

  lemma BinaryBitCall(points: int, flags: seq<bool>)
    ensures |BoolPacking.Packed(flags)| <= 65523
            && BinaryCall(true, true, points % 0x1_0000, BoolPacking.Packed(flags)) == Some(WriteBits(points, flags))
            <==> CallFits(Binary, WriteBits(points, flags))
  {
    if points == |flags| && points < 0x1_0000 {
      assert points % 0x1_0000 == points;
      BitCallOfAll(points, BoolPacking.Packed(flags), flags);
      NibblesAreTheFlags(flags);
    } else {
      BitCallPoints(points % 0x1_0000, BoolPacking.Packed(flags));
    }
  }

  lemma BitCallPoints(points: nat, data: seq<Byte>)
    ensures var call := BinaryCall(true, true, points, data);
            call.Some? ==> call.value.WriteBits? && call.value.points == points == |call.value.flags|
  {
  }

  lemma BitCallOfAll(points: nat, data: seq<Byte>, flags: seq<bool>)
    requires |data| == (points + 1) / 2
    ensures BinaryCall(true, true, points, data) == Some(WriteBits(points, flags))
            <==> NibbleFlags(data, points) == Some(flags)
  {
  }

  /** The flags that the binary packing keeps. */
  function Surviving(flags: seq<bool>): (s: seq<bool>)
    ensures |s| == |flags|
    ensures forall k | 0 <= k < |flags| :: s[k] == (flags[k] && (k % 2 == 0 || k < (|flags| + 1) / 2))
  {
    seq(|flags|, k requires 0 <= k < |flags| => flags[k] && (k % 2 == 0 || k < (|flags| + 1) / 2))
  }

  /** They are what the packed data means. */
  lemma NibblesAreSurviving(flags: seq<bool>)
    ensures NibbleFlags(BoolPacking.Packed(flags), |flags|) == Some(Surviving(flags))
  {
    var data, n := BoolPacking.Packed(flags), |flags|;
    forall k | 0 <= k < 2 * |data|
      ensures Nibble(data, k) == if k < n && Surviving(flags)[k] then 1 else 0
    {
      BoolPacking.PackedNibbles(flags, (n + 1) / 2, k / 2);
    }
    assert NibbleFlags(data, n).Some?;
    assert NibbleFlags(data, n).value == Surviving(flags);
  }

  lemma SurvivingAll(flags: seq<bool>)
    ensures Surviving(flags) == flags <==> FlagsSurvive(flags)
  {
    assert Surviving(flags) == flags <==> forall k | 0 <= k < |flags| :: Surviving(flags)[k] == flags[k];
  }

  lemma NibblesAreTheFlags(flags: seq<bool>)
    ensures NibbleFlags(BoolPacking.Packed(flags), |flags|) == Some(flags) <==> FlagsSurvive(flags)
  {
    NibblesAreSurviving(flags);
    SurvivingAll(flags);
  }

  // ---- ASCII ----

  lemma {:induction false} WordDigitsOfHex(value: seq<Byte>)
    requires |value| % 2 == 0
    ensures WordDigits(Hex.OfBytes(Hex.Swapped(value))) == Some(value)
  {
    if |value| > 0 {
      WordDigitsOfHex(value[2..]);
      SwappedHead(value);
      FirstWord((value[1] as int) * 256 + value[0], value[2..], Hex.OfBytes(Hex.Swapped(value)));
      TwoAndRest(value);
    }
  }

  lemma FirstWord(w: Word, rest: seq<Byte>, s: seq<Byte>)
    requires |s| >= 4 && s[..4] == Hex.OfWord(w) && WordDigits(s[4..]) == Some(rest)
    ensures WordDigits(s) == Some([w % 256, w / 256] + rest)
  {
    Hex.WordRoundTrip(w);
  }

  lemma TwoAndRest(value: seq<Byte>)
    requires |value| >= 2
    ensures var w := (value[1] as int) * 256 + value[0]; [w % 256, w / 256] + value[2..] == value
  {
    DivModUnique((value[1] as int) * 256 + value[0], value[1] as int, 256, value[0] as int);
  }

  /** Word data written without the swap, as in the documented sample frames, means the byte-swapped words. */
  lemma UnswappedMeansOtherWords(value: seq<Byte>)
    requires |value| % 2 == 0
    ensures WordDigits(Hex.OfBytes(value)) == Some(Hex.Swapped(value))
    ensures WordDigits(Hex.OfBytes(value)) == Some(value) ==>
              forall k | 0 < k < |value| && k % 2 == 1 :: value[k] == value[k - 1]
  {
    Hex.SwapIsInvolution(value);
    WordDigitsOfHex(Hex.Swapped(value));
  }

  lemma SwappedHead(value: seq<Byte>)
    requires |value| >= 2 && |value| % 2 == 0
    ensures var s := Hex.OfBytes(Hex.Swapped(value));
            |s| >= 4 && s[..4] == Hex.OfWord((value[1] as int) * 256 + value[0])
              && s[4..] == Hex.OfBytes(Hex.Swapped(value[2..]))
  {
    var rest := Hex.Swapped(value[2..]);
    forall k | 2 <= k < |value| ensures Hex.Swapped(value)[k] == rest[k - 2] {
      assert rest[k - 2] == Hex.Swapped(value[2..])[k - 2];
    }
    assert Hex.Swapped(value) == [value[1]] + ([value[0]] + rest);
    TwoBytesFirst(value[0], rest);
    TwoBytesFirst(value[1], [value[0]] + rest);
    assert Hex.OfWord((value[1] as int) * 256 + value[0]) == Hex.OfByte(value[1]) + Hex.OfByte(value[0]);
  }

  lemma TwoBytesFirst(b: Byte, bs: seq<Byte>)
    ensures Hex.OfBytes([b] + bs) == Hex.OfByte(b) + Hex.OfBytes(bs)
  {
    assert ([b] + bs)[1..] == bs;
  }

  lemma AsciiFrameFields(r: Request, core: seq<Byte>, f: seq<Byte>)
    requires f == PackAscii(core, r.address)
    ensures f[..4] == [0x35, 0x30, 0x30, 0x30] && f[6..12] == [0x46, 0x46, 0x30, 0x33, 0x46, 0x46] && f[22..] == core
    ensures f[4..6] == Hex.OfByte(r.address.network) && f[12..14] == Hex.OfByte(r.address.station)
  {
  }

  /** A packed ASCII command means what its core means, at the address it was packed with, if it fits. */
  lemma AsciiDecodesCore(r: Request, core: seq<Byte>)
    requires |core| >= 20
    ensures DecodeAscii(PackAscii(core, r.address)) == Some(r) <==>
            |core| <= 65531 && DecodeAsciiCore(core) == Some((r.device, r.start, r.call))
  {
    var f := PackAscii(core, r.address);
    AsciiFrameFields(r, core, f);
    PackedIsFrame(Ascii, core, r.address);
    Hex.PairRoundTrip(r.address.network);
    Hex.PairRoundTrip(r.address.station);
    assert f[4] == f[4..6][0] && f[5] == f[4..6][1] && f[12] == f[12..14][0] && f[13] == f[12..14][1];
  }

  lemma AsciiCoreFields(write: bool, bit: bool, d: Device, start: nat, points: int, data: seq<Byte>, core: seq<Byte>)
    requires core == AsciiHead(write, bit, d, start, points).value + data
    ensures |core| == 20 + |data| && AsciiAction(core[..8]) == Some((write, bit)) && core[8] == Table(d).first
            && core[9] == Table(d).second
    ensures core[10..16] == AddressText.Printed(start, Table(d).base)
    ensures core[16..20] == Hex.OfWord(points % 0x1_0000) && core[20..] == data
  {
    assert core[..8] == [if write then 0x31 else 0x30, 0x34, 0x30, 0x31, 0x30, 0x30, 0x30, if bit then 0x31 else 0x30];
  }

  lemma AsciiDecodes(r: Request, data: seq<Byte>, write: bool, bit: bool, points: int, core: seq<Byte>)
    requires r.start >= 0 && core == AsciiHead(write, bit, r.device, r.start, points).value + data
    ensures DecodeAscii(PackAscii(core, r.address)) == Some(r) <==>
            |data| <= 65511 && StartFits(Ascii, r.device, r.start)
            && AsciiCall(write, bit, points % 0x1_0000, data) == Some(r.call)
  {
    AsciiCoreFields(write, bit, r.device, r.start, points, data, core);
    AsciiDecodesCore(r, core);
    Hex.WordRoundTrip(points % 0x1_0000);
    CodesAreBijective(r.device, 0, core[8], core[9]);
    AddressText.PrintedExactly(r.start, Table(r.device).base);
  }

  lemma AsciiMeans(r: Request)
    ensures Encode(Ascii, r).Some? && Decode(Ascii, Encode(Ascii, r).value) == Some(r) <==> Fits(Ascii, r)
  {
    if r.start >= 0 {
      match r.call
      case Read(bit, points) => AsciiReadMeans(r, bit, points);
      case WriteWords(points, value) => if |value| > 0 && |value| % 2 == 0 { AsciiWordsMean(r, points, value); }
      case WriteBits(points, flags) => if |flags| > 0 { AsciiBitsMean(r, points, flags); }
    }
  }

  lemma AsciiReadMeans(r: Request, bit: bool, points: int)
    requires r.start >= 0 && r.call == Read(bit, points)
    ensures Encode(Ascii, r).Some? && (DecodeAscii(Encode(Ascii, r).value) == Some(r) <==> Fits(Ascii, r))
  {
    var head := AsciiHead(false, bit, r.device, r.start, points).value;
    assert Encode(Ascii, r) == Some(PackAscii(head, r.address));
    AsciiDecodes(r, [], false, bit, points, head);
    AsciiReadCall(bit, points);
  }

  lemma AsciiReadCall(bit: bool, points: int)
    ensures AsciiCall(false, bit, points % 0x1_0000, []) == Some(Read(bit, points))
            <==> CallFits(Ascii, Read(bit, points))
  {
  }

  lemma AsciiWordsMean(r: Request, points: int, value: seq<Byte>)
    requires r.start >= 0 && r.call == WriteWords(points, value) && |value| > 0 && |value| % 2 == 0
    ensures Encode(Ascii, r).Some? && (DecodeAscii(Encode(Ascii, r).value) == Some(r) <==> Fits(Ascii, r))
  {
    AsciiDecodes(r, Hex.OfBytes(Hex.Swapped(value)), true, false, points, Core(Ascii, r.device, r.start, r.call).value);
    AsciiWordCall(points, value);
  }

  lemma AsciiBitsMean(r: Request, points: int, flags: seq<bool>)
    requires r.start >= 0 && r.call == WriteBits(points, flags) && |flags| > 0
    ensures Encode(Ascii, r).Some? && (DecodeAscii(Encode(Ascii, r).value) == Some(r) <==> Fits(Ascii, r))
  {
    AsciiDecodes(r, FlagChars(flags), true, true, points, Core(Ascii, r.device, r.start, r.call).value);
    AsciiBitCall(points, flags);
  }

  lemma AsciiWordCall(points: int, value: seq<Byte>)
    requires |value| > 0 && |value| % 2 == 0
    ensures var data := Hex.OfBytes(Hex.Swapped(value));
            |data| <= 65511 && AsciiCall(true, false, points % 0x1_0000, data) == Some(WriteWords(points, value))
            <==> CallFits(Ascii, WriteWords(points, value))
  {
    WordDigitsOfHex(value);
  }

  lemma AsciiBitCall(points: int, flags: seq<bool>)
    requires |flags| > 0
    ensures |flags| <= 65511
            && AsciiCall(true, true, points % 0x1_0000, FlagChars(flags)) == Some(WriteBits(points, flags))
            <==> CallFits(Ascii, WriteBits(points, flags))
  {
    assert CharFlags(FlagChars(flags)) == flags;
  }

  // ---- Both ----

  /**
   * A frame that either client builds means the request it was built for exactly when the start, the number
   * of points and the data are within the ranges of that encoding. The code checks none of these ranges.
   */
  lemma MeansWhatWasAsked(p: Protocol, r: Request)
    ensures Encode(p, r).Some? && Decode(p, Encode(p, r).value) == Some(r) <==> Fits(p, r)
  {
    if p.Binary? { BinaryMeans(r); } else { AsciiMeans(r); }
  }

  // ---- What a command says, in range or not ----

  /** The number of points that goes into the command: a binary word write counts its data. */
  function PointsSaid(p: Protocol, call: Call): int
  {
    match call
    case Read(_, points) => points
    case WriteWords(points, value) => if p.Binary? then |value| / 2 else points
    case WriteBits(points, _) => points
  }

  predicate ByBit(call: Call) { call.WriteBits? || (call.Read? && call.bit) }

  /** Binary, for every start and count: their low bytes, and the data as it is. */
  lemma BinaryCoreSays(d: Device, start: int, call: Call)
    ensures Core(Binary, d, start, call).Some? && |Core(Binary, d, start, call).value| >= 10
    ensures var c := Core(Binary, d, start, call).value;
            && BinaryAction(c[..4]) == Some((!call.Read?, ByBit(call))) && OfCode(c[7]) == Some(d)
            && c[4] as int + 256 * c[5] as int + 0x1_0000 * c[6] as int == start % 0x100_0000
            && c[8] as int + 256 * c[9] as int == PointsSaid(Binary, call) % 0x1_0000
            && match call
               case Read(_, _) => |c| == 10
               case WriteWords(_, value) => c[10..] == value
               case WriteBits(_, flags) => NibbleFlags(c[10..], |flags|) == Some(Surviving(flags))
  {
    var c := Core(Binary, d, start, call).value;
    match call
    case Read(bit, points) =>
      assert c + [] == c;
      BinaryHeadSays(false, bit, d, start, points, [], c);
    case WriteWords(_, value) => BinaryHeadSays(true, false, d, start, |value| / 2, value, c);
    case WriteBits(points, flags) =>
      BinaryHeadSays(true, true, d, start, points, BoolPacking.Packed(flags), c);
      NibblesAreSurviving(flags);
  }

  lemma LowThree(n: int)
    ensures n % 256 + 256 * ((n / 256) % 256) + 0x1_0000 * ((n / 0x1_0000) % 256) == n % 0x100_0000
  {
    LowTwoBytes(n / 256);
    LowByte(n);
  }

  lemma LowByte(n: int)
    ensures n % 256 + 256 * ((n / 256) % 0x1_0000) == n % 0x100_0000
  {
    var m := n / 256;
    DivModUnique(n, m / 0x1_0000, 0x100_0000, n % 256 + 256 * (m % 0x1_0000));
  }

  lemma BinaryHeadSays(write: bool, bit: bool, d: Device, start: int, points: int, data: seq<Byte>, c: seq<Byte>)
    requires c == BinaryHead(write, bit, d, start, points) + data
    ensures |c| == 10 + |data| && BinaryAction(c[..4]) == Some((write, bit)) && OfCode(c[7]) == Some(d)
    ensures c[4] as int + 256 * c[5] as int + 0x1_0000 * c[6] as int == start % 0x100_0000
    ensures c[8] as int + 256 * c[9] as int == points % 0x1_0000 && c[10..] == data
  {
    assert c[..4] == [0x01, if write then 0x14 else 0x04, if bit then 0x01 else 0x00, 0x00];
    CodesAreBijective(d, c[7], 0, 0);
    LowTwoBytes(points);
    LowThree(start);
  }

  /** The first twenty characters, field by field. */
  predicate AsciiHeader(c: seq<Byte>, write: bool, bit: bool, d: Device, start: nat, points: int)
    requires |c| >= 20
  {
    var base := if Hexadecimal(d) then 16 else 10;
    && AsciiAction(c[..8]) == Some((write, bit)) && OfAscii(c[8], c[9]) == Some(d)
    && Hex.ToWord(c[16..20]) == Some(points % 0x1_0000) && IsNumeral(c[10..16], base)
    && Value(c[10..16], base) == start / Pow(base, |AddressText.PaddedDigits(start, base)| - 6)
  }

  lemma AsciiHeadSays(write: bool, bit: bool, d: Device, start: nat, points: int, data: seq<Byte>, c: seq<Byte>)
    requires c == AsciiHead(write, bit, d, start, points).value + data
    ensures |c| == 20 + |data| && c[20..] == data && AsciiHeader(c, write, bit, d, start, points)
  {
    AsciiCoreFields(write, bit, d, start, points, data, c);
    BasesAndKinds(d);
    CodesAreBijective(d, 0, c[8], c[9]);
    Hex.WordRoundTrip(points % 0x1_0000);
    AddressText.PrintedValue(start, Table(d).base);
  }

  /** What the ASCII builders refuse: a negative start, no data, and half words. */
  predicate AsciiBuilds(start: int, call: Call)
  {
    start >= 0 && match call
                  case Read(_, _) => true
                  case WriteWords(_, value) => |value| > 0 && |value| % 2 == 0
                  case WriteBits(_, flags) => |flags| > 0
  }

  /** The command and its data. */
  predicate AsciiSays(c: seq<Byte>, d: Device, start: nat, call: Call)
  {
    && |c| >= 20 && AsciiHeader(c, !call.Read?, ByBit(call), d, start, PointsSaid(Ascii, call))
    && match call
       case Read(_, _) => |c| == 20
       case WriteWords(_, value) => WordDigits(c[20..]) == Some(value)
       case WriteBits(_, flags) => c[20..] == FlagChars(flags) && CharFlags(c[20..]) == flags
  }

  lemma AsciiReadSays(d: Device, start: nat, bit: bool, points: int)
    ensures AsciiRead(d, start, points, bit).Some?
    ensures AsciiSays(AsciiRead(d, start, points, bit).value, d, start, Read(bit, points))
  {
    var c := AsciiRead(d, start, points, bit).value;
    assert c + [] == c;
    AsciiHeadSays(false, bit, d, start, points, [], c);
  }

  lemma AsciiWordsSay(d: Device, start: nat, points: int, value: seq<Byte>)
    requires |value| > 0 && |value| % 2 == 0
    ensures AsciiWriteWords(d, start, points, value).Some?
    ensures AsciiSays(AsciiWriteWords(d, start, points, value).value, d, start, WriteWords(points, value))
  {
    var c := AsciiWriteWords(d, start, points, value).value;
    AsciiHeadSays(true, false, d, start, points, Hex.OfBytes(Hex.Swapped(value)), c);
    WordDigitsOfHex(value);
  }

  lemma AsciiBitsSay(d: Device, start: nat, points: int, flags: seq<bool>)
    requires |flags| > 0
    ensures AsciiWriteBits(d, start, points, flags).Some?
    ensures AsciiSays(AsciiWriteBits(d, start, points, flags).value, d, start, WriteBits(points, flags))
  {
    var c := AsciiWriteBits(d, start, points, flags).value;
    AsciiHeadSays(true, true, d, start, points, FlagChars(flags), c);
    assert CharFlags(FlagChars(flags)) == flags;
  }

  /** ASCII, for every count and every start they do not refuse: the first six digits of the start. */
  lemma AsciiCoreSays(d: Device, start: int, call: Call)
    ensures Core(Ascii, d, start, call).Some? <==> AsciiBuilds(start, call)
    ensures AsciiBuilds(start, call) ==> AsciiSays(Core(Ascii, d, start, call).value, d, start, call)
  {
    if AsciiBuilds(start, call) {
      match call
      case Read(bit, points) => AsciiReadSays(d, start, bit, points);
      case WriteWords(points, value) => AsciiWordsSay(d, start, points, value);
      case WriteBits(points, flags) => AsciiBitsSay(d, start, points, flags);
    }
  }

  /** Within the ranges of both, the two encodings denote one and the same request. */
  lemma SameRequest(r: Request)
    requires Fits(Binary, r) && Fits(Ascii, r)
    ensures Encode(Binary, r).Some? && Encode(Ascii, r).Some?
    ensures Decode(Binary, Encode(Binary, r).value) == Decode(Ascii, Encode(Ascii, r).value) == Some(r)
  {
    MeansWhatWasAsked(Binary, r);
    MeansWhatWasAsked(Ascii, r);
  }

  /** No two requests within the ranges share a frame, in either encoding. */
  lemma EncodersAreInjective(p: Protocol, r: Request, q: Request)
    requires Fits(p, r) && Fits(p, q) && Encode(p, r) == Encode(p, q)
    ensures r == q
  {
    MeansWhatWasAsked(p, r);
    MeansWhatWasAsked(p, q);
  }
}
