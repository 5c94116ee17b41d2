/** Packing of bit values for the binary protocol, and its unpacking. */
module BoolPacking {
  import opened Bytes

  function Bit(b: bool): Byte { if b then 1 else 0 }

  function Bits(v: seq<bool>): (bs: seq<Byte>)
    ensures |bs| == |v| && forall k | 0 <= k < |v| :: bs[k] == Bit(v[k])
  {
    seq(|v|, k requires 0 <= k < |v| => Bit(v[k]))
  }

  /**
   * Two values a byte, the first in the high nibble. The second of a pair is looked at only when its index
   * is below limit: the code compares it with the packed length where the number of values is meant.
   */
  function PackedBelow(v: seq<bool>, limit: nat): (bs: seq<Byte>)
    requires limit <= |v|
    ensures |bs| == (|v| + 1) / 2
  {
    seq((|v| + 1) / 2, i requires 0 <= i < (|v| + 1) / 2 =>
      16 * Bit(v[2 * i]) + if 2 * i + 1 < limit then Bit(v[2 * i + 1]) else 0)
  }

  /** Each value is 0 or 1 in its own nibble; what is not below the limit is 0. */
  lemma PackedNibbles(v: seq<bool>, limit: nat, i: nat)
    requires limit <= |v| && i < (|v| + 1) / 2
    ensures PackedBelow(v, limit)[i] / 16 == if v[2 * i] then 1 else 0
    ensures PackedBelow(v, limit)[i] % 16 == if 2 * i + 1 < limit && v[2 * i + 1] then 1 else 0
  {
  }

  /** trans_bool_array_to_byte_data as written. */
  function Packed(v: seq<bool>): seq<Byte> { PackedBelow(v, (|v| + 1) / 2) }

  /** extract_actual_bool_data. */
  function Unpacked(bs: seq<Byte>): (bits: seq<Byte>)
    ensures |bits| == 2 * |bs|
  {
    seq(2 * |bs|, k requires 0 <= k < 2 * |bs| => if k % 2 == 0 then (bs[k / 2] / 16) % 2 else bs[k / 2] % 2)
  }

  lemma Masks(v: bv8)
    ensures (v & 0x10 == 0x10) <==> (v / 16) % 2 == 1
    ensures (v & 0x01 == 0x01) <==> v % 2 == 1
  {
  }

  lemma QuotientAsInt(v: bv8)
    ensures (v / 16) as int == (v as int) / 16
  {
  }

  lemma ParityAsInt(v: bv8)
    ensures v % 2 == 1 <==> (v as int) % 2 == 1
  {
  }

  /** The masks of the unpacking loop look at the lowest bit of each nibble. */
  lemma NibbleMasks(v: bv8)
    ensures (v & 0x10 == 0x10) <==> ((v as int) / 16) % 2 == 1
    ensures (v & 0x01 == 0x01) <==> (v as int) % 2 == 1
  {
    Masks(v);
    QuotientAsInt(v);
    ParityAsInt(v / 16);
    ParityAsInt(v);
  }

  /** Machine bytes as numbers. */
  function Numbers(vs: seq<bv8>): (bs: seq<Byte>)
    ensures |bs| == |vs| && forall k | 0 <= k < |vs| :: bs[k] == vs[k] as int
  {
    seq(|vs|, k requires 0 <= k < |vs| => vs[k] as int)
  }

  /** The two values of each byte, as the masks of the source pick them. */
  predicate ByMasks(vs: seq<bv8>, bits: seq<Byte>)
  {
    && |bits| == 2 * |vs|
    && forall i | 0 <= i < |vs| ::
         && bits[2 * i] == (if vs[i] & 0x10 == 0x10 then 0x01 else 0x00)
         && bits[2 * i + 1] == (if vs[i] & 0x01 == 0x01 then 0x01 else 0x00)
  }

  lemma UnpackedByMasks(vs: seq<bv8>)
    ensures ByMasks(vs, Unpacked(Numbers(vs)))
  {
    forall i | 0 <= i < |vs|
      ensures Unpacked(Numbers(vs))[2 * i] == if vs[i] & 0x10 == 0x10 then 0x01 else 0x00
      ensures Unpacked(Numbers(vs))[2 * i + 1] == if vs[i] & 0x01 == 0x01 then 0x01 else 0x00
    {
      NibbleMasks(vs[i]);
    }
  }

  /** The two nibbles of each byte, as the source adds them up. */
  predicate InNibbles(v: seq<bool>, bs: seq<Byte>)
  {
    && |bs| == (|v| + 1) / 2
    && forall i | 0 <= i < |bs| ::
         && bs[i] / 16 == (if v[2 * i] then 1 else 0)
         && bs[i] % 16 == (if 2 * i + 1 < |bs| && v[2 * i + 1] then 1 else 0)
  }

  lemma PackedInNibbles(v: seq<bool>)
    ensures InNibbles(v, Packed(v))
  {
    forall i | 0 <= i < (|v| + 1) / 2
      ensures Packed(v)[i] / 16 == if v[2 * i] then 1 else 0
      ensures Packed(v)[i] % 16 == if 2 * i + 1 < (|v| + 1) / 2 && v[2 * i + 1] then 1 else 0
    {
      PackedNibbles(v, (|v| + 1) / 2, i);
    }
  }

  method TransBoolArrayToByteData(value: array<bool>) returns (out: array<Byte>)
    ensures fresh(out) && out[..] == Packed(value[..])
    ensures InNibbles(value[..], out[..])
  {
    var length := (value.Length + 1) / 2;
    out := new Byte[length](_ => 0);
    for i := 0 to length
      invariant forall k | 0 <= k < i :: out[k] == Packed(value[..])[k]
      invariant forall k | i <= k < length :: out[k] == 0
    {
      if value[i * 2] { out[i] := out[i] + 0x10; }
      if i * 2 + 1 < length {
        if value[i * 2 + 1] { out[i] := out[i] + 0x01; }
      }
    }
    assert out[..] == Packed(value[..]);
    PackedInNibbles(value[..]);
  }

  method ExtractActualBoolData(response: array<bv8>) returns (content: array<Byte>)
    ensures fresh(content) && content[..] == Unpacked(Numbers(response[..]))
    ensures ByMasks(response[..], content[..])
  {
    content := new Byte[response.Length * 2](_ => 0);
    ghost var bytes := Numbers(response[..]);
    for i := 0 to response.Length
      invariant forall k | 0 <= k < 2 * i :: content[k] == Unpacked(bytes)[k]
      invariant forall k | 2 * i <= k < content.Length :: content[k] == 0
    {
      NibbleMasks(response[i]);
      if response[i] & 0x10 == 0x10 { content[i * 2] := 0x01; }
      if response[i] & 0x01 == 0x01 { content[i * 2 + 1] := 0x01; }
    }
    UnpackedByMasks(response[..]);
  }

  /** What survives packing with any limit. */
  lemma Survives(v: seq<bool>, limit: nat, k: nat)
    requires limit <= |v| && k < 2 * ((|v| + 1) / 2)
    ensures Unpacked(PackedBelow(v, limit))[k] == if k < |v| && (k % 2 == 0 || k < limit) then Bit(v[k]) else 0
  {
    assert PackedBelow(v, limit)[k / 2]
        == 16 * Bit(v[2 * (k / 2)]) + if 2 * (k / 2) + 1 < limit then Bit(v[2 * (k / 2) + 1]) else 0;
  }

  /** As written, bit k of n comes back as value[k] if k is even or below ceil(n/2), and as 0 otherwise. */
  lemma AsWritten(v: seq<bool>, k: nat)
    requires k < |v|
    ensures Unpacked(Packed(v))[k] == 1 <==> v[k] && (k % 2 == 0 || k < (|v| + 1) / 2)
  {
    Survives(v, (|v| + 1) / 2, k);
  }

  ghost predicate ComesBack(v: seq<bool>) { Unpacked(Packed(v))[..|v|] == Bits(v) }

  /** A list of values comes back exactly when no value is set at an odd index in its upper half. */
  lemma ComesBackExactly(v: seq<bool>)
    ensures ComesBack(v) <==> forall k | (|v| + 1) / 2 <= k < |v| && k % 2 == 1 :: !v[k]
  {
    forall k: nat | k < |v|
      ensures Unpacked(Packed(v))[..|v|][k] == Bits(v)[k] <==> k % 2 == 0 || k < (|v| + 1) / 2 || !v[k]
    {
      Survives(v, (|v| + 1) / 2, k);
    }
    if forall k | (|v| + 1) / 2 <= k < |v| && k % 2 == 1 :: !v[k] {
      assert forall k: nat | k < |v| :: Unpacked(Packed(v))[..|v|][k] == Bits(v)[k];
    }
  }

  /** Every list of n values comes back exactly when n is 0, 1 or 3. */
  lemma LosslessLengths(n: nat)
    ensures (forall v: seq<bool> | |v| == n :: ComesBack(v)) <==> n == 0 || n == 1 || n == 3
  {
    forall v: seq<bool> | |v| == n && (n == 0 || n == 1 || n == 3) ensures ComesBack(v) { ComesBackExactly(v); }
    if n == 2 || n > 3 { AllTrueIsLossy(n); }
  }

  lemma AllTrueIsLossy(n: nat)
    requires n == 2 || n > 3
    ensures !ComesBack(AllTrue(n))
  {
    ComesBackExactly(AllTrue(n));
    var k := LossyIndex(n);
    assert AllTrue(n)[k];
  }

  /** An odd index in the upper half. */
  lemma LossyIndex(n: nat) returns (k: nat)
    requires n == 2 || n > 3
    ensures k % 2 == 1 && (n + 1) / 2 <= k < n
  {
    if n % 2 == 0 {
      k := n - 1;
    } else {
      k := n - 2;
    }
  }

  function AllTrue(n: nat): (v: seq<bool>)
    ensures |v| == n && forall k | 0 <= k < n :: v[k]
  {
    if n == 0 then [] else AllTrue(n - 1) + [true]
  }

  /** With the index compared against the number of values, unpacking gives the values padded to an even count. */
  lemma GuardedComesBack(v: seq<bool>)
    ensures Unpacked(PackedBelow(v, |v|)) == Bits(v) + (if |v| % 2 == 1 then [0] else [])
  {
    forall k: nat | k < 2 * ((|v| + 1) / 2)
      ensures Unpacked(PackedBelow(v, |v|))[k] == (Bits(v) + if |v| % 2 == 1 then [0] else [])[k]
    {
      Survives(v, |v|, k);
    }
  }
}
