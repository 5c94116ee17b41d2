/** The batch requests of the 3E protocol and the builders that write them, in both encodings. */
module Requests {
  import opened Wrappers
  import opened Bytes
  import opened Framing
  import opened Devices
  import Hex
  import BoolPacking
  import AddressText

  /** What a caller asks for: points is the count given beside the data, data words come low byte first. */
  datatype Call =
    | Read(bit: bool, points: int)
    | WriteWords(points: int, value: seq<Byte>)
    | WriteBits(points: int, flags: seq<bool>)

  datatype Request = Request(address: Address, device: Device, start: int, call: Call)

  // ---- Binary ----

  /** The ten bytes in front of the data, as all three binary builders lay them out. */
  function BinaryHead(write: bool, bit: bool, d: Device, start: int, points: int): (s: seq<Byte>)
    ensures |s| == 10
  {
    [0x01, if write then 0x14 else 0x04, if bit then 0x01 else 0x00, 0x00,
     start % 256, (start / 256) % 256, (start / 0x1_0000) % 256, Table(d).code, points % 256, (points / 256) % 256]
  }

  /** build_read_core_command. */
  function BinaryRead(d: Device, start: int, points: int, bit: bool): seq<Byte>
  {
    BinaryHead(false, bit, d, start, points)
  }

  /** build_write_word_core_command: the point count is taken from the data. */
  function BinaryWriteWords(d: Device, start: int, value: seq<Byte>): seq<Byte>
  {
    BinaryHead(true, false, d, start, |value| / 2) + value
  }

  /** build_write_bit_core_command. */
  function BinaryWriteBits(d: Device, start: int, points: int, value: seq<bool>): seq<Byte>
  {
    BinaryHead(true, true, d, start, points) + BoolPacking.Packed(value)
  }

  method BuildReadCoreCommand(d: Device, start: int, points: int, bit: bool) returns (command: array<Byte>)
    ensures fresh(command) && command[..] == BinaryRead(d, start, points, bit)
  {
    command := new Byte[10](_ => 0);
    FillHead(command, false, bit, d, start, points);
    assert command[..] == command[..10];
  }

  method BuildWriteWordCoreCommand(d: Device, start: int, value: array<Byte>) returns (command: array<Byte>)
    ensures fresh(command) && command[..] == BinaryWriteWords(d, start, value[..])
  {
    command := new Byte[10 + value.Length](_ => 0);
    FillHead(command, true, false, d, start, value.Length / 2);
    CopyInto(value, command, 10);
  }

  method BuildWriteBitCoreCommand(d: Device, start: int, points: int, value: array<bool>) returns (command: array<Byte>)
    ensures fresh(command) && command[..] == BinaryWriteBits(d, start, points, value[..])
  {
    var buffer := BoolPacking.TransBoolArrayToByteData(value);
    command := new Byte[10 + buffer.Length](_ => 0);
    FillHead(command, true, true, d, start, points);
    CopyInto(buffer, command, 10);
  }

  method FillHead(command: array<Byte>, write: bool, bit: bool, d: Device, start: int, points: int)
    requires command.Length >= 10
    modifies command
    ensures command[..10] == BinaryHead(write, bit, d, start, points) && command[10..] == old(command[10..])
  {
    command[0] := 0x01;
    command[1] := if write then 0x14 else 0x04;
    command[2] := if bit then 0x01 else 0x00;
    command[3] := 0x00;
    command[4] := start % 256;
    command[5] := (start / 256) % 256;
    command[6] := (start / 0x1_0000) % 256;
    command[7] := Table(d).code;
    command[8] := points % 256;
    command[9] := (points / 256) % 256;
  }

  // ---- ASCII ----

  /** Command, subcommand and device code, ten characters. */
  function AsciiLead(write: bool, bit: bool, d: Device): (s: seq<Byte>)
    ensures |s| == 10
  {
    [if write then 0x31 else 0x30, 0x34, 0x30, 0x31, 0x30, 0x30, 0x30, if bit then 0x31 else 0x30,
     Table(d).first, Table(d).second]
  }

  /** The twenty characters in front of the data; nothing for a negative start. */
  function AsciiHead(write: bool, bit: bool, d: Device, start: int, points: int): (s: Option<seq<Byte>>)
    ensures s.Some? <==> start >= 0
    ensures s.Some? ==> |s.value| == 20
  {
    match AddressText.FormatDeviceNumber(start, Table(d).base)
    case None => None
    case Some(number) => Some(AsciiLead(write, bit, d) + number + Hex.OfWord(points % 0x1_0000))
  }

  /** mc_ascii_build_read_core_command. */
  function AsciiRead(d: Device, start: int, points: int, bit: bool): Option<seq<Byte>>
  {
    AsciiHead(false, bit, d, start, points)
  }

  /** mc_ascii_build_write_word_core_command: refuses empty data and half words. */
  function AsciiWriteWords(d: Device, start: int, points: int, value: seq<Byte>): Option<seq<Byte>>
  {
    if |value| == 0 || |value| % 2 != 0 then None
    else match AsciiHead(true, false, d, start, points)
      case None => None
      case Some(head) => Some(head + Hex.OfBytes(Hex.Swapped(value)))
  }

  function FlagChars(value: seq<bool>): (s: seq<Byte>)
    ensures |s| == |value| && forall i | 0 <= i < |s| :: s[i] == if value[i] then 0x31 else 0x30
  {
    seq(|value|, i requires 0 <= i < |value| => if value[i] then 0x31 else 0x30)
  }

  /** mc_ascii_build_write_bit_core_command. */
  function AsciiWriteBits(d: Device, start: int, points: int, value: seq<bool>): Option<seq<Byte>>
  {
    if |value| == 0 then None
    else match AsciiHead(true, true, d, start, points)
      case None => None
      case Some(head) => Some(head + FlagChars(value))
  }

  method BuildAsciiReadCoreCommand(d: Device, start: int, points: int, bit: bool)
    returns (ok: bool, command: array<Byte>)
    ensures ok <==> AsciiRead(d, start, points, bit).Some?
    ensures ok <==> start >= 0
    ensures ok ==> fresh(command) && command[..] == AsciiRead(d, start, points, bit).value
  {
    command := new Byte[20](_ => 0);
    if start < 0 { return false, command; }
    FillAsciiHead(command, false, bit, d, start, points);
    assert command[..] == command[..20];
    ok := true;
  }

  method BuildAsciiWriteWordCoreCommand(d: Device, start: int, points: int, value: array<Byte>)
    returns (ok: bool, command: array<Byte>)
    ensures ok <==> AsciiWriteWords(d, start, points, value[..]).Some?
    ensures ok <==> value.Length > 0 && value.Length % 2 == 0 && start >= 0
    ensures ok ==> fresh(command) && command[..] == AsciiWriteWords(d, start, points, value[..]).value
  {
    command := value;
    if value.Length <= 0 || value.Length % 2 != 0 || start < 0 { return false, command; }
    var payload := SwappedHex(value);
    command := new Byte[20 + payload.Length](_ => 0);
    FillAsciiHead(command, true, false, d, start, points);
    CopyInto(payload, command, 20);
    ok := true;
  }

  method BuildAsciiWriteBitCoreCommand(d: Device, start: int, points: int, value: array<bool>)
    returns (ok: bool, command: array<Byte>)
    ensures ok <==> AsciiWriteBits(d, start, points, value[..]).Some?
    ensures ok <==> value.Length > 0 && start >= 0
    ensures ok ==> fresh(command) && command[..] == AsciiWriteBits(d, start, points, value[..]).value
  {
    command := new Byte[20 + value.Length](_ => 0);
    if value.Length <= 0 || start < 0 { return false, command; }
    var payload := CharsOfFlags(value);
    FillAsciiHead(command, true, true, d, start, points);
    CopyInto(payload, command, 20);
    ok := true;
  }

  /** The copy, the in-place swap and the encoding of word data. */
  method SwappedHex(value: array<Byte>) returns (payload: array<Byte>)
    requires value.Length % 2 == 0
    ensures fresh(payload) && payload[..] == Hex.OfBytes(Hex.Swapped(value[..]))
  {
    var swapped := new Byte[value.Length](_ => 0);
    CopyInto(value, swapped, 0);
    assert swapped[..] == value[..];
    Hex.SwapWords(swapped);
    payload := Hex.EncodeArray(swapped);
  }

  /** build_ascii_bytes_from_bool_array. */
  method CharsOfFlags(value: array<bool>) returns (out: array<Byte>)
    ensures fresh(out) && out[..] == FlagChars(value[..])
  {
    out := new Byte[value.Length](_ => 0);
    for i := 0 to value.Length
      invariant out[..i] == FlagChars(value[..])[..i]
    {
      out[i] := if value[i] then 0x31 else 0x30;
    }
  }

  method FillAsciiHead(command: array<Byte>, write: bool, bit: bool, d: Device, start: nat, points: int)
    requires command.Length >= 20
    modifies command
    ensures command[..20] == AsciiHead(write, bit, d, start, points).value && command[20..] == old(command[20..])
  {
    FillLead(command, write, bit, d);
    FillNumber(command, AddressText.Printed(start, Table(d).base));
    ghost var front, rest := command[..16], command[20..];
    assert rest == old(command[20..]) by { assert rest == command[16..][4..] == old(command[16..])[4..]; }
    WriteHexWord(command, 16, points % 0x1_0000);
    assert command[..16] == front && command[..20] == command[..16] + command[16..20] && command[20..] == rest;
  }

  method FillLead(command: array<Byte>, write: bool, bit: bool, d: Device)
    requires command.Length >= 20
    modifies command
    ensures command[..10] == AsciiLead(write, bit, d) && command[10..] == old(command[10..])
  {
    command[0], command[1], command[2], command[3] := if write then 0x31 else 0x30, 0x34, 0x30, 0x31;
    command[4], command[5], command[6], command[7] := 0x30, 0x30, 0x30, if bit then 0x31 else 0x30;
    command[8], command[9] := Table(d).first, Table(d).second;
  }

  /** snprintf of the device number. */
  method FillNumber(command: array<Byte>, number: seq<Byte>)
    requires command.Length >= 20 && |number| == 6
    modifies command
    ensures command[..16] == old(command[..10]) + number && command[16..] == old(command[16..])
  {
    for i := 0 to 6
      invariant command[..10 + i] == old(command[..10]) + number[..i]
      invariant command[16..] == old(command[16..])
    {
      command[10 + i] := number[i];
      assert command[..11 + i] == command[..10 + i] + [number[i]];
    }
  }

  // ---- Either encoding ----

  /** The command one of the six builders makes of a call; None where it refuses. */
  function Core(p: Protocol, d: Device, start: int, call: Call): (c: Option<seq<Byte>>)
    ensures c.Some? ==> |c.value| > 0
  {
    match (p, call)
    case (Binary, Read(bit, points)) => Some(BinaryRead(d, start, points, bit))
    case (Binary, WriteWords(_, value)) => Some(BinaryWriteWords(d, start, value))
    case (Binary, WriteBits(points, flags)) => Some(BinaryWriteBits(d, start, points, flags))
    case (Ascii, Read(bit, points)) => AsciiRead(d, start, points, bit)
    case (Ascii, WriteWords(points, value)) => AsciiWriteWords(d, start, points, value)
    case (Ascii, WriteBits(points, flags)) => AsciiWriteBits(d, start, points, flags)
  }

  /** The frame on the wire: builder, then packer. */
  function Encode(p: Protocol, r: Request): Option<seq<Byte>>
  {
    match Core(p, r.device, r.start, r.call)
    case None => None
    case Some(core) => Some(Pack(p, core, r.address))
  }
}
