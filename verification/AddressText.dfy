/** Address text: the parser mc_analysis_address and the six-character printer of the ASCII client. */
module AddressText {
  import opened Wrappers
  import opened Bytes
  import opened Numerals
  import opened Devices
  import Hex

  /** Six characters, zero padded; snprintf into seven bytes keeps the leading six. */
  function Printed(start: nat, base: nat): (s: seq<Byte>)
    requires base == 10 || base == 16
    ensures |s| == 6
  {
    Chars(PaddedDigits(start, base)[..6])
  }

  function PaddedDigits(start: nat, base: nat): (ds: seq<nat>)
    requires base == 10 || base == 16
    ensures |ds| >= 6 && forall i | 0 <= i < |ds| :: ds[i] < base
  {
    var ds := Digits(start, base);
    if |ds| < 6 then Zeros(6 - |ds|) + ds else ds
  }

  /** mc_ascii_format_device_number: a negative start is refused. */
  function FormatDeviceNumber(start: int, base: nat): (s: Option<seq<Byte>>)
    requires base == 10 || base == 16
    ensures s.Some? <==> start >= 0
    ensures s.Some? ==> |s.value| == 6
  {
    if start < 0 then None else Some(Printed(start, base))
  }

  lemma PaddedValue(start: nat, base: nat)
    requires base == 10 || base == 16
    ensures Eval(PaddedDigits(start, base), base) == start
  {
    var ds := Digits(start, base);
    EvalDigits(start, base);
    if |ds| < 6 { EvalLeadingZeros(6 - |ds|, ds, base); }
  }

  /** The text denotes the start divided by the weight of the digits that were cut off. */
  lemma PrintedValue(start: nat, base: nat)
    requires base == 10 || base == 16
    ensures IsNumeral(Printed(start, base), base)
    ensures Value(Printed(start, base), base) == start / Pow(base, |PaddedDigits(start, base)| - 6)
  {
    var ds := PaddedDigits(start, base);
    PaddedValue(start, base);
    LeadingDigits(ds, 6, base);
    ValueOfChars(ds[..6], base);
  }

  /** The text denotes the start itself exactly when the start has at most six digits. */
  lemma PrintedExactly(start: nat, base: nat)
    requires base == 10 || base == 16
    ensures IsNumeral(Printed(start, base), base)
    ensures Value(Printed(start, base), base) == start <==> start < Pow(base, 6)
  {
    PrintedValue(start, base);
    DigitCount(start, base, 6);
    var ds := PaddedDigits(start, base);
    if start < Pow(base, 6) {
      assert |ds| == 6 && Pow(base, 0) == 1;
    } else {
      CutLoses(start, base, |ds| - 6);
    }
  }

  lemma CutLoses(n: nat, b: nat, k: nat)
    requires b >= 2 && k > 0 && n > 0
    ensures n / Pow(b, k) != n
  {
    var p := Pow(b, k);
    AtLeastTwice(b, Pow(b, k - 1));
    DivMod(n, p);
    AtLeastTwice(p, n);
  }

  lemma AtLeastTwice(a: nat, b: nat)
    requires a >= 2
    ensures a * b >= 2 * b
  {
    var rest: nat := (a - 2) * b;
  }

  // ---- Reading ----

  predicate IsSpace(c: Byte) { c == 0x20 || 0x09 <= c <= 0x0D }

  function SkipSpace(s: seq<Byte>): seq<Byte>
  {
    if |s| > 0 && IsSpace(s[0]) then SkipSpace(s[1..]) else s
  }

  /** How many leading characters are digits of the base. */
  function DigitRun(s: seq<Byte>, base: nat): (n: nat)
    ensures n <= |s| && IsNumeral(s[..n], base)
  {
    if |s| == 0 || !(0 <= DigitOf(s[0]) < base) then 0 else 1 + DigitRun(s[1..], base)
  }

  const LONG_MAX: int := 0x7FFF_FFFF_FFFF_FFFF

  function Clamp(n: int): int { if n > LONG_MAX then LONG_MAX else if n < -LONG_MAX - 1 then -LONG_MAX - 1 else n }

  /** The cast to a 32-bit int. */
  function ToInt32(n: int): int { Signed(n % Span(4), 4) }

  predicate HasHexPrefix(s: seq<Byte>) { |s| >= 2 && s[0] == 0x30 && (s[1] == 0x78 || s[1] == 0x58) }

  /** The base strtol reads in: base 0 goes by the prefix of the numeral. */
  function ReadingBase(s: seq<Byte>, base: nat): nat
  {
    if base != 0 then base else if HasHexPrefix(s) then 16 else if |s| > 0 && s[0] == 0x30 then 8 else 10
  }

  /**
   * strtol in base 0, 10 or 16: white space, a sign, a 0x where the base allows it, then as many digits as there
   * are.
   */
  function Strtol(s: seq<Byte>, base: nat): int
  {
    var t := SkipSpace(s);
    var negative := |t| > 0 && t[0] == 0x2D;
    var u := if |t| > 0 && (t[0] == 0x2D || t[0] == 0x2B) then t[1..] else t;
    var b := ReadingBase(u, base);
    var v := if b == 16 && HasHexPrefix(u) then u[2..] else u;
    var n := Value(v[..DigitRun(v, b)], b);
    Clamp(if negative then 0 - n else n)
  }

  /** mc_convert_string_to_int. */
  function ConvertStringToInt(s: seq<Byte>, base: nat): int { ToInt32(Strtol(s, base)) }

  /** The switch of mc_analysis_address on the first one or two letters: the device and the letters it took. */
  function Prefix(text: seq<Byte>): Option<(Device, nat)>
    requires |text| > 0
  {
    var a := Hex.Upper(text[0]);
    var b := if |text| > 1 then Hex.Upper(text[1]) else 0;
    match a
    case 0x4D => Some((M, 1))
    case 0x58 => Some((X, 1))
    case 0x59 => Some((Y, 1))
    case 0x44 => Some((D, 1))
    case 0x57 => Some((W, 1))
    case 0x4C => Some((L, 1))
    case 0x46 => Some((F, 1))
    case 0x56 => Some((V, 1))
    case 0x42 => Some((B, 1))
    case 0x52 => Some((R, 1))
    case 0x53 => Some(if b == 0x4E then (SN, 2) else if b == 0x53 then (SS, 2) else if b == 0x43 then (SC, 2)
                      else (S, 1))
    case 0x5A => Some(if b == 0x52 then (ZR, 2) else (Z, 1))
    case 0x54 => if b == 0x43 then Some((TC, 2)) else if b == 0x53 then Some((TS, 2))
                 else if b == 0x4E then Some((TN, 2)) else None
    case 0x43 => if b == 0x4E then Some((CN, 2)) else if b == 0x53 then Some((CS, 2))
                 else if b == 0x43 then Some((CC, 2)) else None
    case _ => None
  }

  /** The letters of a device as its address text starts with them. */
  function Letters(d: Device): (s: seq<Byte>)
    ensures 1 <= |s| <= 2
  {
    if Table(d).second == 0x2A then [Table(d).first] else [Table(d).first, Table(d).second]
  }

  /** The device and start that address text names; None where no tabled device is named. */
  function Analyse(text: seq<Byte>): Option<(Device, int)>
  {
    if |text| == 0 then None
    else match Prefix(text)
      case None => None
      case Some((d, n)) => if n > |text| then None else Some((d, ConvertStringToInt(text[n..], Table(d).base)))
  }

  predicate IsTimerOrCounter(text: seq<Byte>)
    requires |text| > 0
  {
    Hex.Upper(text[0]) == 0x54 || Hex.Upper(text[0]) == 0x43
  }

  /** The start stored for text that names no device: T and C still read a number, in the base that has been cleared. */
  function StrayStart(text: seq<Byte>): int
    requires |text| > 0 && (|text| == 1 ==> !IsTimerOrCounter(text))
  {
    if IsTimerOrCounter(text) then ConvertStringToInt(text[2..], 0) else 0
  }

  /** The out structure the parser clears and fills. */
  class AddressData {
    var dataCode: Byte
    var bitDevice: bool
    var asciiCode: seq<Byte>
    var fromBase: nat
    var addressStart: int
    var length: int

    constructor () {}

    ghost predicate Names(d: Device, start: int) reads this
    {
      && dataCode == Table(d).code && bitDevice == Table(d).bit && fromBase == Table(d).base
      && asciiCode == [Table(d).first, Table(d).second] && addressStart == start
    }

    /** The type is cleared; the start is what the code stores for text that names no device. */
    ghost predicate NamesNothing(start: int) reads this
    {
      dataCode == 0 && !bitDevice && fromBase == 0 && asciiCode == [] && addressStart == start
    }

    /**
     * mc_analysis_address. Only the one-letter texts T and C are excluded, where the code reads behind the text.
     */
    method AnalysisAddress(text: seq<Byte>, length: int) returns (ok: bool)
      requires |text| == 1 ==> !IsTimerOrCounter(text)
      modifies this
      ensures ok <==> |text| > 0
      ensures ok ==> this.length == length
      ensures ok ==> match Analyse(text)
                     case Some((d, start)) => Names(d, start)
                     case None => NamesNothing(StrayStart(text))
      ensures ok && Analyse(text).None? ==>
                var c := text[0];
                addressStart == if c == 0x54 || c == 0x74 || c == 0x43 || c == 0x63
                                then ConvertStringToInt(text[2..], 0) else 0
    {
      if |text| == 0 { return false; }
      dataCode, bitDevice, asciiCode, fromBase, addressStart := 0, false, [], 0, 0;
      this.length := length;
      match Prefix(text) {
        case None =>
          if IsTimerOrCounter(text) { addressStart := ConvertStringToInt(text[2..], fromBase); }
        case Some((d, n)) =>
          var row := Table(d);
          dataCode, bitDevice, asciiCode, fromBase := row.code, row.bit, [row.first, row.second], row.base;
          addressStart := ConvertStringToInt(text[n..], fromBase);
      }
      return true;
    }
  }

  /** Reading a numeral of either case in its own base, with nothing else around it. */
  lemma StrtolOfNumeral(s: seq<Byte>, base: nat)
    requires base == 10 || base == 16
    requires |s| > 0 && IsNumeral(s, base)
    ensures Strtol(s, base) == if Value(s, base) > LONG_MAX then LONG_MAX else Value(s, base)
  {
    Bare(s, base);
    WholeRun(s, base);
    assert s[..|s|] == s;
  }

  lemma Bare(s: seq<Byte>, base: nat)
    requires |s| > 0 && (base == 10 || base == 16) && IsNumeral(s, base)
    ensures SkipSpace(s) == s && s[0] != 0x2D && s[0] != 0x2B
    ensures |s| >= 2 ==> s[1] != 0x78 && s[1] != 0x58
  {
    assert 0 <= DigitOf(s[0]) < base;
    if |s| >= 2 { assert 0 <= DigitOf(s[1]) < base; }
  }

  lemma {:induction false} WholeRun(s: seq<Byte>, base: nat)
    requires IsNumeral(s, base)
    ensures DigitRun(s, base) == |s|
  {
    if |s| > 0 {
      assert forall i | 0 <= i < |s| - 1 :: s[1..][i] == s[i + 1];
      WholeRun(s[1..], base);
    }
  }

  lemma {:induction false} ValueIgnoresCase(s: seq<Byte>, t: seq<Byte>, base: nat)
    requires Hex.SameButCase(s, t) && IsNumeral(t, base)
    ensures IsNumeral(s, base) && Value(s, base) == Value(t, base)
  {
    forall i | 0 <= i < |s| ensures DigitOf(s[i]) == DigitOf(t[i]) { assert Hex.Upper(s[i]) == Hex.Upper(t[i]); }
    if |s| > 0 {
      var s', t' := s[..|s| - 1], t[..|t| - 1];
      assert Hex.SameButCase(s', t') by {
        forall i | 0 <= i < |s'| ensures Hex.Upper(s'[i]) == Hex.Upper(t'[i]) {
          assert Hex.Upper(s[i]) == Hex.Upper(t[i]);
        }
      }
      assert forall i | 0 <= i < |t'| :: t'[i] == t[i];
      ValueIgnoresCase(s', t', base);
    }
  }

  /** No prefix is mistaken for another: letters followed by a digit of the device's base name that device. */
  lemma PrefixUnambiguous(d: Device, text: seq<Byte>)
    requires |text| > |Letters(d)| && Hex.SameButCase(text[..|Letters(d)|], Letters(d))
    requires 0 <= DigitOf(text[|Letters(d)|]) < Table(d).base
    ensures Prefix(text) == Some((d, |Letters(d)|))
  {
    var n := |Letters(d)|;
    assert Hex.Upper(text[..n][0]) == Hex.Upper(Letters(d)[0]);
    if n == 2 { assert Hex.Upper(text[..n][1]) == Hex.Upper(Letters(d)[1]); }
  }

  lemma CaseOfParts(text: seq<Byte>, letters: seq<Byte>, digits: seq<Byte>)
    requires Hex.SameButCase(text, letters + digits)
    ensures Hex.SameButCase(text[..|letters|], letters) && Hex.SameButCase(text[|letters|..], digits)
  {
    var n, whole := |letters|, letters + digits;
    forall i | 0 <= i < n ensures Hex.Upper(text[..n][i]) == Hex.Upper(letters[i]) {
      assert Hex.Upper(text[i]) == Hex.Upper(whole[i]);
    }
    forall i | 0 <= i < |digits| ensures Hex.Upper(text[n..][i]) == Hex.Upper(digits[i]) {
      assert Hex.Upper(text[n + i]) == Hex.Upper(whole[n + i]);
    }
  }

  /**
   * Address text round trip: for every device, in any mixture of letter cases, the letters and the six
   * printed characters parse back to the device, and to the start exactly when it has at most six digits.
   */
  lemma AddressRoundTrip(d: Device, start: nat, text: seq<Byte>)
    requires start < 0x8000_0000 && Hex.SameButCase(text, Letters(d) + Printed(start, Table(d).base))
    ensures Analyse(text).Some? && Analyse(text).value.0 == d
    ensures Analyse(text).value.1 == start <==> start < Pow(Table(d).base, 6)
  {
    var base := Table(d).base;
    CaseOfParts(text, Letters(d), Printed(start, base));
    NumberReads(text[|Letters(d)|..], start, base);
    PrefixUnambiguous(d, text);
    PrintedExactly(start, base);
  }

  /** The printed number of either case is read in full. */
  lemma NumberReads(digits: seq<Byte>, start: nat, base: nat)
    requires (base == 10 || base == 16) && Hex.SameButCase(digits, Printed(start, base))
    ensures |digits| == 6 && 0 <= DigitOf(digits[0]) < base
    ensures ConvertStringToInt(digits, base) == Value(Printed(start, base), base)
  {
    PrintedBelow(start, base);
    ValueIgnoresCase(digits, Printed(start, base), base);
    StrtolOfNumeral(digits, base);
    Int32OfSmall(Value(digits, base));
  }

  lemma PrintedBelow(start: nat, base: nat)
    requires base == 10 || base == 16
    ensures IsNumeral(Printed(start, base), base) && Value(Printed(start, base), base) < 0x100_0000
  {
    var ds := PaddedDigits(start, base)[..6];
    ValueOfChars(ds, base);
    EvalBound(ds, base);
    SixDigits();
  }

  lemma SixDigits()
    ensures Pow(10, 6) == 1000000 && Pow(16, 6) == 0x100_0000
  {
    assert Pow(10, 3) == 1000 && Pow(16, 3) == 0x1000;
  }

  lemma Int32OfSmall(n: nat)
    requires n < 0x8000_0000
    ensures ToInt32(n) == n
  {
    SpanValues();
  }

  // ---- Texts in general ----

  /** The parts of any text as strtol takes it apart: white space, sign, 0x, digits of base b, and what follows. */
  datatype Parts = Parts(space: seq<Byte>, sign: seq<Byte>, mark: seq<Byte>, digits: seq<Byte>, rest: seq<Byte>)
  {
    function Text(): seq<Byte> { space + (sign + (mark + (digits + rest))) }

    /** This is the way strtol cuts the text when it is asked for a base and reads in base b. */
    predicate Cut(base: nat, b: nat)
    {
      && (forall i | 0 <= i < |space| :: space[i] == 0x20 || 0x09 <= space[i] <= 0x0D)
      && (sign == [] || sign == [0x2B] || sign == [0x2D])
      && (mark == [] || mark == [0x30, 0x78] || mark == [0x30, 0x58])
      && (mark != [] ==> b == 16 && (base == 16 || base == 0))
      && (mark == [] && base != 0 ==> b == base)
      && (mark == [] && base == 0 ==> b == if |digits + rest| > 0 && (digits + rest)[0] == 0x30 then 8 else 10)
      && (mark == [] && (base == 16 || base == 0) ==> !HasHexPrefix(digits + rest))
      && IsNumeral(digits, b) && (rest == [] || !(0 <= DigitOf(rest[0]) < b))
      && (sign == [] && mark == [] && digits == [] && rest != [] ==>
            rest[0] != 0x2B && rest[0] != 0x2D && !IsSpace(rest[0]))
    }
  }

  lemma {:induction false} SkipsSpace(space: seq<Byte>, t: seq<Byte>)
    requires forall i | 0 <= i < |space| :: space[i] == 0x20 || 0x09 <= space[i] <= 0x0D
    requires |t| > 0 ==> !IsSpace(t[0])
    ensures SkipSpace(space + t) == t
  {
    if |space| == 0 {
      assert space + t == t;
    } else {
      assert (space + t)[1..] == space[1..] + t;
      SkipsSpace(space[1..], t);
    }
  }

  lemma {:induction false} RunStops(digits: seq<Byte>, rest: seq<Byte>, b: nat)
    requires IsNumeral(digits, b) && (rest == [] || !(0 <= DigitOf(rest[0]) < b))
    ensures DigitRun(digits + rest, b) == |digits| && (digits + rest)[..|digits|] == digits
  {
    if |digits| == 0 {
      assert digits + rest == rest;
    } else {
      assert (digits + rest)[1..] == digits[1..] + rest;
      assert 0 <= DigitOf(digits[0]) < b;
      RunStops(digits[1..], rest, b);
    }
  }

  /** What follows the white space neither is white space nor has a sign of its own. */
  lemma AfterSpace(p: Parts, base: nat, b: nat)
    requires p.Cut(base, b)
    ensures var u := p.mark + (p.digits + p.rest);
            |u| > 0 && p.sign == [] ==> !IsSpace(u[0]) && u[0] != 0x2B && u[0] != 0x2D
  {
    if |p.digits| > 0 { assert 0 <= DigitOf(p.digits[0]); }
  }

  /** For every text: the digits after the sign and the mark, bounded by the range of a 64-bit long. */
  lemma StrtolReads(p: Parts, base: nat, b: nat)
    requires (base == 0 || base == 10 || base == 16) && p.Cut(base, b)
    ensures var n := if p.sign == [0x2D] then 0 - Value(p.digits, b) else Value(p.digits, b);
            Strtol(p.Text(), base) == if n > 0x7FFF_FFFF_FFFF_FFFF then 0x7FFF_FFFF_FFFF_FFFF
                                      else if n < -0x8000_0000_0000_0000 then -0x8000_0000_0000_0000 else n
  {
    var n := if p.sign == [0x2D] then 0 - Value(p.digits, b) else Value(p.digits, b);
    StrtolCuts(p, base, b, p.Text(), n);
  }

  lemma StrtolCuts(p: Parts, base: nat, b: nat, s: seq<Byte>, n: int)
    requires (base == 0 || base == 10 || base == 16) && p.Cut(base, b) && s == p.Text()
    requires n == if p.sign == [0x2D] then 0 - Value(p.digits, b) else Value(p.digits, b)
    ensures Strtol(s, base) == Clamp(n)
  {
    var v := p.digits + p.rest;
    var u := p.mark + v;
    SpaceIsSkipped(p, base, b);
    SignIsCut(p, base, b);
    MarkIsRead(p, base, b);
    RunStops(p.digits, p.rest, b);
    Assembled(s, base, p.sign + u, u, b, v, p.digits, n);
  }

  lemma SpaceIsSkipped(p: Parts, base: nat, b: nat)
    requires p.Cut(base, b)
    ensures SkipSpace(p.Text()) == p.sign + (p.mark + (p.digits + p.rest))
  {
    AfterSpace(p, base, b);
    SkipsSpace(p.space, p.sign + (p.mark + (p.digits + p.rest)));
  }

  lemma SignIsCut(p: Parts, base: nat, b: nat)
    requires p.Cut(base, b)
    ensures var u := p.mark + (p.digits + p.rest);
            var t := p.sign + u;
            && ((|t| > 0 && t[0] == 0x2D) <==> p.sign == [0x2D])
            && (if |t| > 0 && (t[0] == 0x2D || t[0] == 0x2B) then t[1..] else t) == u
  {
    AfterSpace(p, base, b);
    SignIsRead(p.sign, p.mark + (p.digits + p.rest));
  }

  lemma SignIsRead(sign: seq<Byte>, u: seq<Byte>)
    requires sign == [] || sign == [0x2B] || sign == [0x2D]
    requires |u| > 0 && sign == [] ==> u[0] != 0x2B && u[0] != 0x2D
    ensures var t := sign + u;
            && ((|t| > 0 && t[0] == 0x2D) <==> sign == [0x2D])
            && (if |t| > 0 && (t[0] == 0x2D || t[0] == 0x2B) then t[1..] else t) == u
  {
    var t := sign + u;
    if sign == [] { assert t == u; } else { assert t[1..] == u; }
  }

  /** strtol, one cut after the other. */
  lemma Assembled(s: seq<Byte>, base: nat, t: seq<Byte>, u: seq<Byte>, b: nat, v: seq<Byte>, digits: seq<Byte>,
                  n: int)
    requires SkipSpace(s) == t && u == (if |t| > 0 && (t[0] == 0x2D || t[0] == 0x2B) then t[1..] else t)
    requires ReadingBase(u, base) == b && v == (if b == 16 && HasHexPrefix(u) then u[2..] else u)
    requires DigitRun(v, b) == |digits| && v[..|digits|] == digits && IsNumeral(digits, b)
    requires n == if |t| > 0 && t[0] == 0x2D then 0 - Value(digits, b) else Value(digits, b)
    ensures Strtol(s, base) == Clamp(n)
  {
    assert v[..DigitRun(v, b)] == digits;
  }

  lemma MarkIsRead(p: Parts, base: nat, b: nat)
    requires (base == 0 || base == 10 || base == 16) && p.Cut(base, b)
    ensures var v := p.digits + p.rest;
            var u := p.mark + v;
            ReadingBase(u, base) == b && (if b == 16 && HasHexPrefix(u) then u[2..] else u) == v
  {
    var v := p.digits + p.rest;
    if p.mark == [] { assert p.mark + v == v; }
  }

  /** The cast keeps the low 32 bits. */
  lemma CastKeepsLowBits(n: int)
    ensures -0x8000_0000 <= ToInt32(n) < 0x8000_0000 && (n - ToInt32(n)) % 0x1_0000_0000 == 0
    ensures ToInt32(n) == n <==> -0x8000_0000 <= n < 0x8000_0000
  {
    SpanValues();
  }

  predicate StartsWith(text: seq<Byte>, d: Device)
  {
    |Letters(d)| <= |text| && Hex.SameButCase(text[..|Letters(d)|], Letters(d))
  }

  lemma StartsBy(text: seq<Byte>, d: Device)
    requires |text| > 0
    ensures StartsWith(text, d) <==>
            Hex.Upper(text[0]) == Table(d).first
            && (Table(d).second == 0x2A || (|text| > 1 && Hex.Upper(text[1]) == Table(d).second))
  {
    var n := |Letters(d)|;
    if n <= |text| {
      assert text[..n][0] == text[0];
      if n == 2 { assert text[..n][1] == text[1]; }
    }
  }

  /** No longer letters of a device fit. */
  ghost predicate Longest(text: seq<Byte>, d: Device)
  {
    forall e: Device :: StartsWith(text, e) ==> |Letters(e)| <= |Letters(d)|
  }

  lemma PrefixFits(text: seq<Byte>)
    requires |text| > 0 && Prefix(text).Some?
    ensures var (d, n) := Prefix(text).value; n == |Letters(d)| && StartsWith(text, d)
  {
    StartsBy(text, Prefix(text).value.0);
  }

  lemma NoLongerFits(text: seq<Byte>, e: Device)
    requires |text| > 0 && Prefix(text).Some? && StartsWith(text, e)
    ensures |Letters(e)| <= Prefix(text).value.1
  {
    StartsBy(text, e);
  }

  lemma PrefixStarts(text: seq<Byte>)
    requires |text| > 0 && Prefix(text).Some?
    ensures var (d, n) := Prefix(text).value; n == |Letters(d)| && StartsWith(text, d) && Longest(text, d)
  {
    PrefixFits(text);
    forall e: Device | StartsWith(text, e) ensures |Letters(e)| <= Prefix(text).value.1 { NoLongerFits(text, e); }
  }

  lemma OneLongest(text: seq<Byte>, d: Device, e: Device)
    requires |text| > 0 && StartsWith(text, d) && StartsWith(text, e) && |Letters(d)| == |Letters(e)|
    ensures d == e
  {
    StartsBy(text, d);
    StartsBy(text, e);
    CodesAreBijective(d, 0, Table(d).first, Table(d).second);
    CodesAreBijective(e, 0, Table(d).first, Table(d).second);
  }

  lemma StartIsFound(text: seq<Byte>, d: Device)
    requires |text| > 0 && StartsWith(text, d)
    ensures Prefix(text).Some?
  {
    StartsBy(text, d);
  }

  /** The letters of text name a device exactly when it starts with them, and with no longer ones. */
  lemma PrefixExactly(text: seq<Byte>, d: Device)
    requires |text| > 0
    ensures Prefix(text) == Some((d, |Letters(d)|)) <==> StartsWith(text, d) && Longest(text, d)
  {
    if StartsWith(text, d) { StartIsFound(text, d); }
    if Prefix(text).Some? {
      PrefixStarts(text);
      var e := Prefix(text).value.0;
      if StartsWith(text, d) && Longest(text, d) { OneLongest(text, d, e); }
    }
  }

  /**
   * An address: the letters of a device in either case, then a number in its base with as many digits as one likes.
   * The parser gives the device, and the number exactly when it is below 2^31.
   */
  lemma AddressMeans(d: Device, letters: seq<Byte>, number: seq<Byte>)
    requires Hex.SameButCase(letters, Letters(d)) && |number| > 0
    requires IsNumeral(number, if Hexadecimal(d) then 16 else 10)
    ensures Analyse(letters + number).Some? && Analyse(letters + number).value.0 == d
    ensures var value := Value(number, if Hexadecimal(d) then 16 else 10);
            Analyse(letters + number).value.1 == value <==> value < 0x8000_0000
  {
    var base, text := Table(d).base, letters + number;
    BasesAndKinds(d);
    assert text[..|letters|] == letters && text[|letters|..] == number;
    assert 0 <= DigitOf(number[0]) < base;
    PrefixUnambiguous(d, text);
    StrtolOfNumeral(number, base);
    CastKeepsLowBits(Strtol(number, base));
  }

  /** D100, by way of example. */
  lemma Example()
    ensures Analyse([0x44, 0x31, 0x30, 0x30]) == Some((D, 100))
  {
    var number: seq<Byte> := [0x31, 0x30, 0x30];
    HundredInDecimal(number);
    AddressMeans(D, [0x44], number);
    assert [0x44] + number == [0x44, 0x31, 0x30, 0x30];
  }

  lemma HundredInDecimal(s: seq<Byte>)
    requires s == [0x31, 0x30, 0x30]
    ensures IsNumeral(s, 10) && Value(s, 10) == 100
  {
    assert s[..2][..1][..0] == [] && Value(s[..2][..1], 10) == 1;
  }
}
