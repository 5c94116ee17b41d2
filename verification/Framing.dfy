/** The 3E frame around a command, in both encodings, and where a frame ends in a byte stream. */
module Framing {
  import opened Wrappers
  import opened Bytes
  import Hex

  datatype Protocol = Binary | Ascii

  datatype Address = Address(network: Byte, station: Byte)

  /** How many bytes a response reader asks for before it looks at the length field. */
  function HeaderSize(p: Protocol): nat { if p.Binary? then 11 else 18 }

  /** The bytes up to and including the length field. */
  function Preamble(p: Protocol): nat { if p.Binary? then 9 else 18 }

  /** The length field must at least cover the end code. */
  function MinDeclared(p: Protocol): nat { if p.Binary? then 2 else 4 }

  function DeclaredLength(p: Protocol, header: seq<Byte>): (n: Option<nat>)
    requires |header| >= HeaderSize(p)
  {
    if p.Binary? then Some((header[7] as int) + 256 * (header[8] as int))
    else match Hex.ToWord(header[14..18]) case Some(w) => Some(w) case None => None
  }

  /** The size of the frame a header announces; None where the readers reject the header. */
  function FrameSize(p: Protocol, header: seq<Byte>): (n: Option<nat>)
    requires |header| >= HeaderSize(p)
    ensures n.Some? ==> n.value >= HeaderSize(p)
  {
    match DeclaredLength(p, header)
    case Some(n) => if n < MinDeclared(p) then None else Some(Preamble(p) + n)
    case None => None
  }

  /** What both readers make of a header, field by field. */
  lemma HeaderMeans(h: seq<Byte>)
    ensures |h| >= 11 ==>
              var declared := h[7] as int + 256 * h[8] as int;
              FrameSize(Binary, h) == if declared < 2 then None else Some(9 + declared)
    ensures |h| >= 18 ==>
              FrameSize(Ascii, h) == match Hex.ToWord(h[14..18])
                                     case Some(declared) => if declared < 4 then None else Some(18 + declared)
                                     case None => None
    ensures HeaderSize(Binary) == 11 && HeaderSize(Ascii) == 18
  {
  }

  /** A byte string that is one frame, no more and no less. */
  predicate IsFrame(p: Protocol, f: seq<Byte>)
  {
    |f| >= HeaderSize(p) && FrameSize(p, f) == Some(|f|)
  }

  /** The announced size depends on the header only. */
  lemma SizeFromHeader(p: Protocol, f: seq<Byte>, n: nat)
    requires HeaderSize(p) <= n <= |f|
    ensures FrameSize(p, f[..n]) == FrameSize(p, f)
  {
    if p.Ascii? {
      assert f[..n][14..18] == f[14..18];
    }
  }

  function PackBinary(core: seq<Byte>, a: Address): (f: seq<Byte>)
    ensures |f| == |core| + 11
  {
    var n := |core| + 11 - 9;
    [0x50, 0x00, a.network, 0xFF, 0xFF, 0x03, a.station, n % 256, (n / 256) % 256, 0x0A, 0x00] + core
  }

  function PackAscii(core: seq<Byte>, a: Address): (f: seq<Byte>)
    ensures |f| == |core| + 22
  {
    [0x35, 0x30, 0x30, 0x30] + Hex.OfByte(a.network) + [0x46, 0x46, 0x30, 0x33, 0x46, 0x46]
    + Hex.OfByte(a.station) + Hex.OfWord((|core| + 4) % 0x1_0000) + [0x30, 0x30, 0x31, 0x30] + core
  }

  function Pack(p: Protocol, core: seq<Byte>, a: Address): (f: seq<Byte>)
    ensures |f| > |core|
  {
    if p.Binary? then PackBinary(core, a) else PackAscii(core, a)
  }

  /** The longest command a 16-bit length field can announce. */
  function MaxCore(p: Protocol): nat { if p.Binary? then 65533 else 65531 }

  lemma PackedAsciiLength(core: seq<Byte>, a: Address)
    ensures PackAscii(core, a)[14..18] == Hex.OfWord((|core| + 4) % 0x1_0000)
  {
    var pre := [0x35, 0x30, 0x30, 0x30] + Hex.OfByte(a.network) + [0x46, 0x46, 0x30, 0x33, 0x46, 0x46]
               + Hex.OfByte(a.station);
    assert |pre| == 14;
    assert PackAscii(core, a) == pre + (Hex.OfWord((|core| + 4) % 0x1_0000) + ([0x30, 0x30, 0x31, 0x30] + core));
  }

  /** What a packer emits is exactly one frame precisely when the command fits the length field. */
  lemma PackedIsFrame(p: Protocol, core: seq<Byte>, a: Address)
    ensures IsFrame(p, Pack(p, core, a)) <==> |core| <= MaxCore(p)
  {
    PackedLength(p, core, a);
    FrameIffLengthFits(p, Pack(p, core, a));
  }

  lemma FrameIffLengthFits(p: Protocol, f: seq<Byte>)
    requires |f| >= Preamble(p) + MinDeclared(p) && DeclaredLength(p, f) == Some((|f| - Preamble(p)) % 0x1_0000)
    ensures IsFrame(p, f) <==> |f| - Preamble(p) < 0x1_0000
  {
  }

  /** The length field counts the bytes after it, modulo 65536. */
  lemma PackedLength(p: Protocol, core: seq<Byte>, a: Address)
    ensures DeclaredLength(p, Pack(p, core, a)) == Some((|Pack(p, core, a)| - Preamble(p)) % 0x1_0000)
  {
    if p.Binary? {
      LowTwoBytes(|core| + 2);
    } else {
      PackedAsciiLength(core, a);
      Hex.WordRoundTrip((|core| + 4) % 0x1_0000);
    }
  }

  lemma LowTwoBytes(n: int)
    ensures n % 256 + 256 * ((n / 256) % 256) == n % 0x1_0000
  {
  }

  /** pack_mc_command: the empty command is refused, every other one is wrapped. */
  method PackMcCommand(core: array<Byte>, a: Address) returns (ok: bool, command: array<Byte>)
    ensures ok <==> core.Length > 0
    ensures ok ==> fresh(command) && command[..] == PackBinary(core[..], a)
    ensures ok ==> command[..7] == [0x50, 0x00, a.network, 0xFF, 0xFF, 0x03, a.station]
    ensures ok ==> command[9] == 0x0A && command[10] == 0x00 && command[11..] == core[..]
  {
    if core.Length <= 0 { return false, core; }
    command := new Byte[core.Length + 11](_ => 0);
    FillBinaryHeader(command, a);
    CopyInto(core, command, 11);
    ok := true;
  }

  method FillBinaryHeader(command: array<Byte>, a: Address)
    requires command.Length >= 11
    modifies command
    ensures command[..11] == PackBinary([], a)[..7]
            + [(command.Length - 9) % 256, ((command.Length - 9) / 256) % 256, 0x0A, 0x00]
    ensures command[11..] == old(command[11..])
  {
    command[0] := 0x50;
    command[1] := 0x00;
    command[2] := a.network;
    command[3] := 0xFF;
    command[4] := 0xFF;
    command[5] := 0x03;
    command[6] := a.station;
    command[7] := (command.Length - 9) % 256;
    command[8] := ((command.Length - 9) / 256) % 256;
    command[9] := 0x0A;
    command[10] := 0x00;
  }

  /** memcpy of a whole array to an offset of another. */
  method CopyInto(src: array<Byte>, dst: array<Byte>, at: nat)
    requires src != dst && at + src.Length <= dst.Length
    modifies dst
    ensures dst[..] == old(dst[..at]) + src[..] + old(dst[at + src.Length..])
  {
    for i := 0 to src.Length
      invariant dst[..at + i] == old(dst[..at]) + src[..i]
      invariant dst[at + i..] == old(dst[at + i..])
    {
      dst[at + i] := src[i];
      assert dst[..at + i + 1] == dst[..at + i] + [src[i]];
    }
    assert dst[..] == dst[..at + src.Length] + dst[at + src.Length..];
  }

  /** pack_mc_ascii_command. */
  method PackMcAsciiCommand(core: array<Byte>, a: Address) returns (ok: bool, command: array<Byte>)
    ensures ok <==> core.Length > 0
    ensures ok ==> fresh(command) && command[..] == PackAscii(core[..], a)
    ensures ok ==> command[..4] == [0x35, 0x30, 0x30, 0x30] && command[6..12] == [0x46, 0x46, 0x30, 0x33, 0x46, 0x46]
    ensures ok ==> command[18..22] == [0x30, 0x30, 0x31, 0x30] && command[22..] == core[..]
  {
    if core.Length <= 0 { return false, core; }
    command := new Byte[22 + core.Length](_ => 0);
    FillAsciiHeader(command, a, (core.Length + 4) % 0x1_0000);
    CopyInto(core, command, 22);
    ok := true;
  }

  method FillAsciiHeader(command: array<Byte>, a: Address, dataLength: Word)
    requires command.Length >= 22
    modifies command
    ensures command[..22] == PackAscii([], a)[..14] + Hex.OfWord(dataLength) + [0x30, 0x30, 0x31, 0x30]
    ensures command[22..] == old(command[22..])
  {
    FillAsciiRoute(command, a);
    WriteHexWord(command, 14, dataLength);
    assert command[..18] == command[..14] + Hex.OfWord(dataLength);
    command[18], command[19], command[20], command[21] := 0x30, 0x30, 0x31, 0x30;
  }

  method FillAsciiRoute(command: array<Byte>, a: Address)
    requires command.Length >= 22
    modifies command
    ensures command[..14] == PackAscii([], a)[..14]
    ensures command[14..] == old(command[14..])
  {
    command[0], command[1], command[2], command[3] := 0x35, 0x30, 0x30, 0x30;
    WriteHexByte(command, 4, a.network);
    assert command[..6] == [0x35, 0x30, 0x30, 0x30] + Hex.OfByte(a.network);
    command[6], command[7], command[8] := 0x46, 0x46, 0x30;
    command[9], command[10], command[11] := 0x33, 0x46, 0x46;
    assert command[..12] == command[..6] + [0x46, 0x46, 0x30, 0x33, 0x46, 0x46];
    WriteHexByte(command, 12, a.station);
    assert command[..14] == command[..12] + Hex.OfByte(a.station);
    RouteIs(a);
  }

  lemma RouteIs(a: Address)
    ensures PackAscii([], a)[..14]
            == (([0x35, 0x30, 0x30, 0x30] + Hex.OfByte(a.network)) + [0x46, 0x46, 0x30, 0x33, 0x46, 0x46])
               + Hex.OfByte(a.station)
  {
  }

  /** mc_ascii_write_hex_byte. */
  method WriteHexByte(out: array<Byte>, at: nat, value: Byte)
    requires at + 2 <= out.Length
    modifies out
    ensures out[at..at + 2] == Hex.OfByte(value)
    ensures forall i | 0 <= i < at || at + 2 <= i < out.Length :: out[i] == old(out[i])
  {
    out[at] := Hex.Digit(value / 16);
    out[at + 1] := Hex.Digit(value % 16);
  }

  /** mc_ascii_write_hex_u16_be. */
  method WriteHexWord(out: array<Byte>, at: nat, value: Word)
    requires at + 4 <= out.Length
    modifies out
    ensures out[at..at + 4] == Hex.OfWord(value)
    ensures forall i | 0 <= i < at || at + 4 <= i < out.Length :: out[i] == old(out[i])
  {
    WriteHexByte(out, at, value / 256);
    WriteHexByte(out, at + 2, value % 256);
  }
}
