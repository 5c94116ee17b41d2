/** itoa of utill.c. */
module Itoa {
  import opened Bytes
  import opened Numerals

  const TWO_63: nat := 0x8000_0000_0000_0000
  const TWO_64: nat := 0x1_0000_0000_0000_0000

  /**
   * The radixes of a 32-bit int that itoa ends on. Zero divides by zero, one and minus one never end, and the least
   * int has no negation.
   */
  predicate IsRadix(radix: int) { 2 <= radix < 0x8000_0000 || -0x8000_0000 < radix <= -2 }

  function Base(radix: int): nat requires IsRadix(radix) { if radix < 0 then -radix else radix }

  predicate Negative(value: nat, radix: int) { radix < 0 && value >= TWO_63 }

  function Magnitude(value: nat, radix: int): nat
    requires value < TWO_64
  {
    if Negative(value, radix) then TWO_64 - value else value
  }

  /** The number a caller means: the value itself, or its two's complement reading when the radix is negative. */
  function Meant(value: nat, radix: int): int
    requires value < TWO_64
  {
    if Negative(value, radix) then value - TWO_64 else value
  }

  /**
   * The character written for a digit: '0' plus the digit cut to a char, and, if that is above '9', seven more to
   * reach the letters. The comparison is of signed chars, so it is false from 0x80 on.
   */
  function Glyph(d: nat): Byte
  {
    var c := (0x30 + d) % 0x100;
    if 0x39 < c < 0x80 then c + 7 else c
  }

  function Glyphs(ds: seq<nat>): (s: seq<Byte>)
    ensures |s| == |ds| && forall i | 0 <= i < |ds| :: s[i] == Glyph(ds[i])
  {
    seq(|ds|, i requires 0 <= i < |ds| => Glyph(ds[i]))
  }

  /** Digits, then letters and what follows them in ASCII, up to the 80th; from there the sign of char takes over. */
  lemma GlyphsInOrder(d: nat)
    ensures d < 10 ==> Glyph(d) == 0x30 + d
    ensures 10 <= d < 80 ==> Glyph(d) == 0x41 + (d - 10)
    ensures 80 <= d < 208 ==> Glyph(d) == 0x30 + d
    ensures Glyph(d + 0x100) == Glyph(d)
  {
  }

  /** Up to base 36 these are the usual digits and letters. */
  lemma GlyphsAreChars(ds: seq<nat>)
    requires forall i | 0 <= i < |ds| :: ds[i] < 36
    ensures Glyphs(ds) == Chars(ds)
  {
  }

  function Rendered(value: nat, radix: int): seq<Byte>
    requires IsRadix(radix) && value < TWO_64
  {
    if value == 0 then [0x30]
    else (if Negative(value, radix) then [0x2D] else []) + Glyphs(Digits(Magnitude(value, radix), Base(radix)))
  }

  function Unsigned(s: seq<Byte>): seq<Byte> { if |s| > 0 && s[0] == 0x2D then s[1..] else s }

  /** Reading a numeral with an optional minus sign. */
  function Read(s: seq<Byte>, b: nat): int
    requires IsNumeral(Unsigned(s), b)
  {
    if |s| > 0 && s[0] == 0x2D then 0 - Value(s[1..], b) else Value(s, b)
  }

  /** What itoa writes reads back as the number meant, for every value and every radix of a magnitude up to 36. */
  lemma ReadsBack(value: nat, radix: int)
    requires IsRadix(radix) && Base(radix) <= 36 && value < TWO_64
    ensures IsNumeral(Unsigned(Rendered(value, radix)), Base(radix))
    ensures Read(Rendered(value, radix), Base(radix)) == Meant(value, radix)
  {
    if value == 0 {
      ZeroReadsBack(Base(radix));
    } else {
      var ds, b := Digits(Magnitude(value, radix), Base(radix)), Base(radix);
      EvalDigits(Magnitude(value, radix), b);
      ValueOfChars(ds, b);
      GlyphsAreChars(ds);
      DigitCount(Magnitude(value, radix), b, 0);
      WithSign(Negative(value, radix), Chars(ds), b);
    }
  }

  /** Up to a magnitude of 80, and no further, the text determines the value. */
  lemma TextDeterminesValue(v: nat, w: nat, radix: int)
    requires IsRadix(radix) && v < TWO_64 && w < TWO_64
    ensures Base(radix) <= 80 && Rendered(v, radix) == Rendered(w, radix) ==> v == w
    ensures Base(radix) > 80 ==> Rendered(73, radix) == Rendered(80, radix)
  {
    var b := Base(radix);
    if b > 80 {
      OneDigit(73, b);
      OneDigit(80, b);
    } else if Rendered(v, radix) == Rendered(w, radix) {
      SameText(v, w, radix);
    }
  }

  lemma OneDigit(n: nat, b: nat)
    requires 0 < n < b && b >= 2
    ensures Digits(n, b) == [n]
  {
    DivModUnique(n, 0, b, n);
    var q := n / b;
    assert Digits(q, b) == [];
  }

  /** The digits of the text, without the sign; zero is written as one digit. */
  function DigitsOf(value: nat, radix: int): (ds: seq<nat>)
    requires IsRadix(radix) && value < TWO_64
    ensures forall i | 0 <= i < |ds| :: ds[i] < Base(radix)
  {
    if value == 0 then [0] else Digits(Magnitude(value, radix), Base(radix))
  }

  lemma DigitsMean(value: nat, radix: int)
    requires IsRadix(radix) && value < TWO_64
    ensures |DigitsOf(value, radix)| > 0 && Eval(DigitsOf(value, radix), Base(radix)) == Magnitude(value, radix)
  {
    var m, b := Magnitude(value, radix), Base(radix);
    if value == 0 {
      EvalAppend([], 0, b);
      assert [] + [0] == [0];
    } else {
      EvalDigits(m, b);
      DigitCount(m, b, 0);
    }
  }

  lemma RenderedAsDigits(value: nat, radix: int)
    requires IsRadix(radix) && value < TWO_64
    ensures Rendered(value, radix) == (if Negative(value, radix) then [0x2D] else []) + Glyphs(DigitsOf(value, radix))
  {
    if value == 0 { assert Glyphs([0]) == [0x30]; }
  }

  lemma SameText(v: nat, w: nat, radix: int)
    requires IsRadix(radix) && Base(radix) <= 80 && v < TWO_64 && w < TWO_64 && Rendered(v, radix) == Rendered(w, radix)
    ensures v == w
  {
    DigitsMean(v, radix);
    DigitsMean(w, radix);
    RenderedAsDigits(v, radix);
    RenderedAsDigits(w, radix);
    SameSignedGlyphs(DigitsOf(v, radix), Negative(v, radix), DigitsOf(w, radix), Negative(w, radix));
  }

  lemma SameSignedGlyphs(ds: seq<nat>, minusD: bool, es: seq<nat>, minusE: bool)
    requires |ds| > 0 && |es| > 0
    requires (forall i | 0 <= i < |ds| :: ds[i] < 80) && forall i | 0 <= i < |es| :: es[i] < 80
    requires (if minusD then [0x2D] else []) + Glyphs(ds) == (if minusE then [0x2D] else []) + Glyphs(es)
    ensures ds == es && minusD == minusE
  {
    var s := (if minusD then [0x2D] else []) + Glyphs(ds);
    assert s[0] == if minusD then 0x2D else Glyph(ds[0]);
    assert s[0] == if minusE then 0x2D else Glyph(es[0]);
    assert Glyphs(ds) == s[if minusD then 1 else 0..] && Glyphs(es) == s[if minusE then 1 else 0..];
    SameGlyphs(ds, es);
  }

  lemma SameGlyphs(ds: seq<nat>, es: seq<nat>)
    requires Glyphs(ds) == Glyphs(es)
    requires (forall i | 0 <= i < |ds| :: ds[i] < 80) && forall i | 0 <= i < |es| :: es[i] < 80
    ensures ds == es
  {
    assert |ds| == |Glyphs(ds)| == |es|;
    forall i | 0 <= i < |ds| ensures ds[i] == es[i] { assert Glyphs(ds)[i] == Glyphs(es)[i]; }
  }

  lemma ZeroReadsBack(b: nat)
    requires b >= 2
    ensures IsNumeral(Unsigned([0x30]), b) && Read([0x30], b) == 0
  {
    var s: seq<Byte> := [0x30];
    assert s[..0] == [] && Value(s[..0], b) == 0;
    assert Value(s, b) == Value(s[..0], b) * b + 0;
  }

  lemma WithSign(negative: bool, digits: seq<Byte>, b: nat)
    requires b <= 36 && |digits| > 0 && IsNumeral(digits, b)
    ensures var s := (if negative then [0x2D] else []) + digits;
            IsNumeral(Unsigned(s), b) && Read(s, b) == if negative then 0 - Value(digits, b) else Value(digits, b)
  {
    var s: seq<Byte> := (if negative then [0x2D] else []) + digits;
    if negative {
      assert s[1..] == digits;
    } else {
      assert s == digits && 0 <= DigitOf(digits[0]);
    }
  }

  lemma PowersOfTwo()
    ensures Pow(2, 63) == TWO_63 && Pow(2, 64) == TWO_64
  {
    var k := 32;
    TwoTo(32, k);
    PowAdd(2, k, k);
    PowAdd(2, 1, 2 * k - 1);
  }

  lemma TwoTo(n: nat, k: nat)
    requires n == k == 32
    ensures Pow(2, k) == 0x1_0000_0000
  {
    var j := 2;
    assert Pow(2, 2) == 4;
    PowAdd(2, j, j);
    PowAdd(2, 2 * j, 2 * j);
    PowAdd(2, 4 * j, 4 * j);
    PowAdd(2, 8 * j, 8 * j);
  }

  lemma {:induction false} PowAdd(b: nat, j: nat, k: nat)
    ensures Pow(b, j + k) == Pow(b, j) * Pow(b, k)
    decreases j
  {
    if j > 0 {
      PowAdd(b, j - 1, k);
      assert b * (Pow(b, j - 1) * Pow(b, k)) == (b * Pow(b, j - 1)) * Pow(b, k);
    }
  }

  lemma {:induction false} PowMonotone(a: nat, b: nat, k: nat)
    requires a <= b
    ensures Pow(a, k) <= Pow(b, k)
    decreases k
  {
    if k > 0 {
      PowMonotone(a, b, k - 1);
      ProductMonotone(a, b, Pow(a, k - 1), Pow(b, k - 1));
    }
  }

  lemma ProductMonotone(a: nat, b: nat, x: nat, y: nat)
    requires a <= b && x <= y
    ensures a * x <= b * y
  {
    assert a * x <= b * x <= b * y;
  }

  /** 66 bytes hold every result with its terminator, and the minimum value at radix -2 needs all 66. */
  lemma BufferBound(value: nat, radix: int)
    requires IsRadix(radix) && value < TWO_64
    ensures |Rendered(value, radix)| + 1 <= 66
    ensures |Rendered(TWO_63, -2)| + 1 == 66
  {
    PowersOfTwo();
    DigitCount(TWO_63, 2, 63);
    DigitCount(TWO_63, 2, 64);
    if value > 0 {
      PowMonotone(2, Base(radix), 64);
      DigitCount(Magnitude(value, radix), Base(radix), 64);
    }
  }

  /** The masks and shifts of the specialised loops are remainders and quotients. */
  lemma MasksAndShifts(v: bv64)
    ensures v & 0xF == v % 16 && v >> 4 == v / 16
    ensures v & 7 == v % 8 && v >> 3 == v / 8
    ensures v & 1 == v % 2 && v >> 1 == v / 2
  {
  }

  /** buf[dest..65] holds the low digits of total whose remaining high part is value, and the room left suffices. */
  ghost predicate Progress(buf: array<Byte>, dest: nat, total: nat, value: nat, b: nat)
    requires 2 <= b
    reads buf
  {
    && buf.Length == 66 && 1 <= dest <= 65 && buf[65] == 0
    && Glyphs(Digits(total, b)) == Glyphs(Digits(value, b)) + buf[dest..65]
    && value < Pow(2, dest - 1)
  }

  /** One step of a digit loop: the digit as '0' plus its value, moved up to the letters where adjust is set. */
  method PushDigit(buf: array<Byte>, dest: nat, ghost total: nat, value: nat, b: nat, adjust: bool)
    returns (dest': nat, rest: nat)
    requires 2 <= b && (adjust || b <= 10) && value > 0 && Progress(buf, dest, total, value, b)
    modifies buf
    ensures dest' == dest - 1 && rest < value && Progress(buf, dest', total, rest, b)
  {
    var d: nat;
    rest, d := value / b, value % b;
    ghost var tail := buf[dest..65];
    NextDigit(value, b, rest, d, dest);
    dest' := dest - 1;
    buf[dest'] := (0x30 + d) % 0x100;
    if adjust && 0x39 < buf[dest'] < 0x80 { buf[dest'] := buf[dest'] + (0x41 - 0x39 - 1); }
    assert buf[dest'..65] == [Glyph(d)] + tail;
    assert (Glyphs(Digits(rest, b)) + [Glyph(d)]) + tail == Glyphs(Digits(rest, b)) + ([Glyph(d)] + tail);
  }

  lemma NextDigit(value: nat, b: nat, rest: nat, d: nat, dest: nat)
    requires 2 <= b && value > 0 && rest == value / b && d == value % b && 1 <= dest && value < Pow(2, dest - 1)
    ensures d < b && rest < value && dest >= 2 && rest < Pow(2, dest - 2)
    ensures Glyphs(Digits(value, b)) == Glyphs(Digits(rest, b)) + [Glyph(d)]
  {
    HalvesAtLeast(value, b, Pow(2, dest - 2));
    HalvesAtLeast(value, b, value);
  }

  lemma HalvesAtLeast(value: nat, b: nat, p: nat)
    requires b >= 2 && value < 2 * p
    ensures value / b < p
  {
    DivBelow(value, b, p);
    assert 2 * p <= b * p;
  }

  method Itoa(value: nat, str: array<Byte>, radix: int)
    requires value < TWO_64 && IsRadix(radix) && |Rendered(value, radix)| < str.Length
    modifies str
    ensures str[..|Rendered(value, radix)| + 1] == Rendered(value, radix) + [0]
    ensures str[|Rendered(value, radix)| + 1..] == old(str[|Rendered(value, radix)| + 1..])
  {
    ghost var text := Rendered(value, radix);
    if value == 0 {
      str[0], str[1] := 0x30, 0;
      return;
    }
    var v, r, sign := SplitSign(value, radix);
    var buf, dest := FillBuffer(v, r, sign);
    assert buf[dest..66] == text + [0] && 66 - dest == |text| + 1;
    CopyOut(buf, dest, str);
  }

  /** A negative radix asks for the value to be taken as signed. */
  method SplitSign(value: nat, radix: int) returns (v: nat, r: nat, sign: bool)
    requires value < TWO_64 && IsRadix(radix)
    ensures v == Magnitude(value, radix) && r == Base(radix) && sign == Negative(value, radix)
  {
    v, sign := value, false;
    if radix < 0 {
      r := -radix;
      if v >= TWO_63 {
        v := TWO_64 - v;
        sign := true;
      }
    } else {
      r := radix;
    }
  }

  /** The work on the local buffer, from its end backwards. */
  method FillBuffer(v: nat, r: nat, sign: bool) returns (buf: array<Byte>, dest: nat)
    requires v < TWO_64 && 2 <= r
    ensures fresh(buf) && buf.Length == 66 && dest <= 66
    ensures buf[dest..66] == (if sign then [0x2D] else []) + Glyphs(Digits(v, r)) + [0]
  {
    buf := new Byte[66](_ => 0);
    dest := 65;
    buf[dest] := 0;
    BelowTwoTo64(v, dest - 1);
    assert Glyphs(Digits(v, r)) + buf[dest..65] == Glyphs(Digits(v, r));
    dest := PushAll(buf, dest, v, r);
    assert buf[dest..65] == Glyphs(Digits(v, r));
    assert buf[dest..66] == buf[dest..65] + [0];
    if sign {
      ghost var tail := buf[dest..66];
      dest := dest - 1;
      buf[dest] := 0x2D;
      assert buf[dest..66] == [0x2D] + tail;
    }
  }

  lemma BelowTwoTo64(v: nat, k: nat)
    requires v < TWO_64 && k == 64
    ensures v < Pow(2, k)
  {
    PowersOfTwo();
  }

  /** memcpy of the finished text and its terminator. */
  method CopyOut(buf: array<Byte>, dest: nat, str: array<Byte>)
    requires buf != str && buf.Length == 66 && dest <= 66 && 66 - dest <= str.Length
    modifies str
    ensures str[..66 - dest] == buf[dest..66] && str[66 - dest..] == old(str[66 - dest..])
  {
    for i := 0 to 66 - dest
      invariant str[..i] == buf[dest..dest + i] && str[i..] == old(str[i..])
    {
      str[i] := buf[dest + i];
    }
  }

  /** The switch over the radix: the specialised loops and the general one have the same outcome. */
  method PushAll(buf: array<Byte>, from: nat, total: nat, radix: nat) returns (dest: nat)
    requires 2 <= radix && Progress(buf, from, total, total, radix)
    modifies buf
    ensures Progress(buf, dest, total, 0, radix)
  {
    match radix
    case 16 => dest := PushLoop(buf, from, total, 16, true);
    case 10 => dest := PushLoop(buf, from, total, 10, false);
    case 8 => dest := PushLoop(buf, from, total, 8, false);
    case 2 => dest := PushLoop(buf, from, total, 2, false);
    case _ => dest := PushLoop(buf, from, total, radix, true);
  }

  /** One digit loop; only radixes up to 10 leave out the move to the letters. */
  method PushLoop(buf: array<Byte>, from: nat, total: nat, b: nat, adjust: bool) returns (dest: nat)
    requires 2 <= b && (adjust || b <= 10) && Progress(buf, from, total, total, b)
    modifies buf
    ensures Progress(buf, dest, total, 0, b)
  {
    dest := from;
    var value: nat := total;
    while value != 0
      invariant Progress(buf, dest, total, value, b)
    {
      dest, value := PushDigit(buf, dest, total, value, b, adjust);
    }
  }
}
