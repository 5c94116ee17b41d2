/** The device table of melsec_mc_comm.c. */
module Devices {
  import opened Wrappers
  import opened Bytes

  datatype Device =
    | M | X | Y | D | W | L | F | V | B | R
    | SN | SS | SC | S | ZR | Z
    | TC | TS | TN | CN | CS | CC

  /** One row: the binary code, whether the device is addressed by bit, the two ASCII characters, the number base. */
  datatype Row = Row(code: Byte, bit: bool, first: Byte, second: Byte, base: nat)

  function Table(d: Device): (r: Row)
    ensures r.base == 10 || r.base == 16
  {
    match d
    case M => Row(0x90, true, 0x4D, 0x2A, 10)
    case X => Row(0x9C, true, 0x58, 0x2A, 16)
    case Y => Row(0x9D, true, 0x59, 0x2A, 16)
    case D => Row(0xA8, true, 0x44, 0x2A, 10)
    case W => Row(0xB4, false, 0x57, 0x2A, 16)
    case L => Row(0x92, true, 0x4C, 0x2A, 10)
    case F => Row(0x93, true, 0x46, 0x2A, 10)
    case V => Row(0x94, true, 0x56, 0x2A, 10)
    case B => Row(0xA0, true, 0x42, 0x2A, 16)
    case R => Row(0xAF, true, 0x52, 0x2A, 10)
    case SN => Row(0xC8, false, 0x53, 0x4E, 10)
    case SS => Row(0xC7, true, 0x53, 0x53, 10)
    case SC => Row(0xC6, true, 0x53, 0x43, 10)
    case S => Row(0x98, true, 0x53, 0x2A, 10)
    case ZR => Row(0xB0, false, 0x5A, 0x52, 16)
    case Z => Row(0xCC, false, 0x5A, 0x2A, 10)
    case TC => Row(0xC0, true, 0x54, 0x43, 10)
    case TS => Row(0xC1, true, 0x54, 0x53, 10)
    case TN => Row(0xC2, true, 0x54, 0x4E, 10)
    case CN => Row(0xC5, true, 0x43, 0x4E, 10)
    case CS => Row(0xC4, true, 0x43, 0x53, 10)
    case CC => Row(0xC3, true, 0x43, 0x43, 10)
  }

  /** The devices numbered in hexadecimal. */
  predicate Hexadecimal(d: Device) { d.X? || d.Y? || d.W? || d.B? || d.ZR? }

  /** The devices that are not addressed by the bit. */
  predicate WordDevice(d: Device) { d.W? || d.SN? || d.ZR? || d.Z? }

  lemma BasesAndKinds(d: Device)
    ensures Table(d).base == if Hexadecimal(d) then 16 else 10
    ensures Table(d).bit <==> !WordDevice(d)
  {
  }

  /** Reading a binary device code, as a PLC must. */
  function OfCode(c: Byte): Option<Device>
  {
    match c
    case 0x90 => Some(M) case 0x9C => Some(X) case 0x9D => Some(Y) case 0xA8 => Some(D) case 0xB4 => Some(W)
    case 0x92 => Some(L) case 0x93 => Some(F) case 0x94 => Some(V) case 0xA0 => Some(B) case 0xAF => Some(R)
    case 0xC8 => Some(SN) case 0xC7 => Some(SS) case 0xC6 => Some(SC) case 0x98 => Some(S) case 0xB0 => Some(ZR)
    case 0xCC => Some(Z) case 0xC0 => Some(TC) case 0xC1 => Some(TS) case 0xC2 => Some(TN) case 0xC5 => Some(CN)
    case 0xC4 => Some(CS) case 0xC3 => Some(CC)
    case _ => None
  }

  /** Reading a two-character device code. */
  function OfAscii(a: Byte, b: Byte): Option<Device>
  {
    if b == 0x2A then
      match a
      case 0x4D => Some(M) case 0x58 => Some(X) case 0x59 => Some(Y) case 0x44 => Some(D) case 0x57 => Some(W)
      case 0x4C => Some(L) case 0x46 => Some(F) case 0x56 => Some(V) case 0x42 => Some(B) case 0x52 => Some(R)
      case 0x53 => Some(S) case 0x5A => Some(Z)
      case _ => None
    else if a == 0x53 then (if b == 0x4E then Some(SN) else if b == 0x53 then Some(SS) else if b == 0x43 then Some(SC)
                            else None)
    else if a == 0x5A then (if b == 0x52 then Some(ZR) else None)
    else if a == 0x54 then (if b == 0x43 then Some(TC) else if b == 0x53 then Some(TS) else if b == 0x4E then Some(TN)
                            else None)
    else if a == 0x43 then (if b == 0x4E then Some(CN) else if b == 0x53 then Some(CS) else if b == 0x43 then Some(CC)
                            else None)
    else None
  }

  /** The 22 binary codes and the 22 ASCII codes are each in bijection with the devices. */
  lemma CodesAreBijective(d: Device, c: Byte, a: Byte, b: Byte)
    ensures OfCode(c) == Some(d) <==> Table(d).code == c
    ensures OfAscii(a, b) == Some(d) <==> Table(d).first == a && Table(d).second == b
  {
  }
}
