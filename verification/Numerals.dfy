/** Positional numerals: the common ground of itoa, printf and strtol. */
module Numerals {
  import opened Bytes

  function Pow(b: nat, k: nat): (p: nat)
    ensures b > 0 ==> p > 0
  {
    if k == 0 then 1 else b * Pow(b, k - 1)
  }

  /** The digits of n, most significant first; none for zero. */
  function Digits(n: nat, b: nat): (ds: seq<nat>)
    requires b >= 2
    ensures forall i | 0 <= i < |ds| :: ds[i] < b
  {
    if n == 0 then [] else Digits(n / b, b) + [n % b]
  }

  function Eval(ds: seq<nat>, b: nat): nat
  {
    if |ds| == 0 then 0 else Eval(ds[..|ds| - 1], b) * b + ds[|ds| - 1]
  }

  lemma DivMod(n: nat, b: nat)
    requires b > 0
    ensures n == (n / b) * b + n % b
  {
  }

  lemma {:induction false} EvalDigits(n: nat, b: nat)
    requires b >= 2
    ensures Eval(Digits(n, b), b) == n
  {
    if n > 0 {
      var q, d := n / b, n % b;
      DivBelow(n, b, n);
      EvalDigits(q, b);
      EvalAppend(Digits(q, b), d, b);
      DivMod(n, b);
    }
  }

  lemma EvalAppend(ds: seq<nat>, d: nat, b: nat)
    ensures Eval(ds + [d], b) == Eval(ds, b) * b + d
  {
    assert (ds + [d])[..|ds|] == ds;
  }

  lemma DivBelow(n: nat, b: nat, p: nat)
    requires b >= 2
    ensures n / b < p <==> n < b * p
  {
    assert n == b * (n / b) + n % b;
    if n / b < p { assert b * (n / b + 1) <= b * p; } else { assert b * (n / b) >= b * p; }
  }

  /** n has at most k digits exactly when it is below b^k. */
  lemma {:induction false} DigitCount(n: nat, b: nat, k: nat)
    requires b >= 2
    ensures |Digits(n, b)| <= k <==> n < Pow(b, k)
    decreases k
  {
    if n > 0 && k > 0 {
      DigitCount(n / b, b, k - 1);
      DivBelow(n, b, Pow(b, k - 1));
    }
  }

  function Zeros(z: nat): (ds: seq<nat>)
    ensures |ds| == z && forall i | 0 <= i < z :: ds[i] == 0
  {
    if z == 0 then [] else Zeros(z - 1) + [0]
  }

  lemma {:induction false} EvalZeros(z: nat, b: nat)
    ensures Eval(Zeros(z), b) == 0
  {
    if z > 0 {
      EvalZeros(z - 1, b);
      EvalAppend(Zeros(z - 1), 0, b);
    }
  }

  /** A numeral cut in two. */
  lemma {:induction false} EvalSplit(xs: seq<nat>, ys: seq<nat>, b: nat)
    ensures Eval(xs + ys, b) == Eval(xs, b) * Pow(b, |ys|) + Eval(ys, b)
    decreases |ys|
  {
    if |ys| == 0 {
      assert xs + ys == xs;
    } else {
      var front, d := ys[..|ys| - 1], ys[|ys| - 1];
      assert xs + ys == (xs + front) + [d];
      EvalSplit(xs, front, b);
      EvalAppend(xs + front, d, b);
      Distribute(Eval(xs, b), Pow(b, |front|), Eval(front, b), b);
    }
  }

  lemma EvalLeadingZeros(z: nat, ds: seq<nat>, b: nat)
    ensures Eval(Zeros(z) + ds, b) == Eval(ds, b)
  {
    EvalSplit(Zeros(z), ds, b);
    EvalZeros(z, b);
    Distribute(0, Pow(b, |ds|), 0, 1);
  }

  lemma Distribute(x: nat, p: nat, e: nat, b: nat)
    ensures (x * p + e) * b == x * (b * p) + e * b
  {
  }

  lemma {:induction false} EvalBound(ds: seq<nat>, b: nat)
    requires b > 0 && forall i | 0 <= i < |ds| :: ds[i] < b
    ensures Eval(ds, b) < Pow(b, |ds|)
    decreases |ds|
  {
    if |ds| > 0 {
      var front := ds[..|ds| - 1];
      EvalBound(front, b);
      StepBound(Eval(front, b), Pow(b, |front|), ds[|ds| - 1], b);
    }
  }

  lemma StepBound(e: nat, p: nat, d: nat, b: nat)
    requires e < p && d < b
    ensures e * b + d < b * p
  {
    assert (e + 1) * b <= p * b;
  }

  /** The first digits of a numeral are its quotient by the weight of the rest. */
  lemma LeadingDigits(ds: seq<nat>, k: nat, b: nat)
    requires b >= 2 && k <= |ds| && forall i | 0 <= i < |ds| :: ds[i] < b
    ensures Eval(ds[..k], b) == Eval(ds, b) / Pow(b, |ds| - k)
  {
    assert ds[..k] + ds[k..] == ds;
    EvalSplit(ds[..k], ds[k..], b);
    EvalBound(ds[k..], b);
    DivModUnique(Eval(ds, b), Eval(ds[..k], b), Pow(b, |ds| - k), Eval(ds[k..], b));
  }

  /** The character of a digit, letters in upper case. */
  function Char(d: nat): Byte
    requires d < 36
  {
    if d < 10 then 0x30 + d else 0x41 + (d - 10)
  }

  /** The digit a character stands for in bases up to 36, of either case, or -1. */
  function DigitOf(c: Byte): (d: int)
    ensures -1 <= d < 36
  {
    if 0x30 <= c <= 0x39 then c - 0x30
    else if 0x41 <= c <= 0x5A then c - 0x41 + 10
    else if 0x61 <= c <= 0x7A then c - 0x61 + 10
    else -1
  }

  function Chars(ds: seq<nat>): (s: seq<Byte>)
    requires forall i | 0 <= i < |ds| :: ds[i] < 36
    ensures |s| == |ds| && forall i | 0 <= i < |ds| :: s[i] == Char(ds[i])
  {
    seq(|ds|, i requires 0 <= i < |ds| => Char(ds[i]))
  }

  /** A text made of digits of base b only. */
  predicate IsNumeral(s: seq<Byte>, b: nat) { forall i | 0 <= i < |s| :: 0 <= DigitOf(s[i]) < b }

  /** The value of a text of digits. */
  function Value(s: seq<Byte>, b: nat): nat
    requires IsNumeral(s, b)
  {
    if |s| == 0 then 0 else Value(s[..|s| - 1], b) * b + DigitOf(s[|s| - 1])
  }

  lemma {:induction false} ValueOfChars(ds: seq<nat>, b: nat)
    requires b <= 36 && forall i | 0 <= i < |ds| :: ds[i] < b
    ensures IsNumeral(Chars(ds), b) && Value(Chars(ds), b) == Eval(ds, b)
  {
    if |ds| > 0 {
      ValueOfChars(ds[..|ds| - 1], b);
      assert Chars(ds)[..|ds| - 1] == Chars(ds[..|ds| - 1]);
    }
  }
}
