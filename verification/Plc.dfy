/** A reference PLC: a memory of words and bits behind the batch commands, and its response frames. */
module Plc {
  import opened Bytes
  import opened Framing
  import opened Devices
  import opened Requests
  import Decoding
  import Hex
  import BoolPacking

  datatype Place = Place(device: Device, index: int)

  /** Places never written hold zero. */
  datatype Memory = Memory(words: map<Place, Word>, bits: map<Place, bool>)

  function WordAt(m: Memory, x: Place): Word { if x in m.words then m.words[x] else 0 }

  predicate BitAt(m: Memory, x: Place) { x in m.bits && m.bits[x] }

  /** n consecutive words as bytes, low byte first. */
  function Load(m: Memory, d: Device, start: int, n: nat): (bs: seq<Byte>)
    ensures |bs| == 2 * n
    decreases n
  {
    if n == 0 then []
    else [WordAt(m, Place(d, start)) % 256, WordAt(m, Place(d, start)) / 256] + Load(m, d, start + 1, n - 1)
  }

  function Store(m: Memory, d: Device, start: int, value: seq<Byte>): Memory
    requires |value| % 2 == 0
    decreases |value|
  {
    if |value| == 0 then m
    else Store(m.(words := m.words[Place(d, start) := value[0] as int + 256 * (value[1] as int)]), d, start + 1,
               value[2..])
  }

  function LoadBits(m: Memory, d: Device, start: int, n: nat): (flags: seq<bool>)
    ensures |flags| == n && forall k | 0 <= k < n :: flags[k] == BitAt(m, Place(d, start + k))
  {
    seq(n, k requires 0 <= k < n => BitAt(m, Place(d, start + k)))
  }

  function StoreBits(m: Memory, d: Device, start: int, flags: seq<bool>): Memory
    decreases |flags|
  {
    if |flags| == 0 then m
    else StoreBits(m.(bits := m.bits[Place(d, start) := flags[0]]), d, start + 1, flags[1..])
  }

  predicate Within(x: Place, d: Device, start: int, n: nat) { x.device == d && start <= x.index < start + n }

  /** A write changes the words it names and nothing else. */
  lemma {:induction false} StoreElsewhere(m: Memory, d: Device, start: int, value: seq<Byte>, x: Place)
    requires |value| % 2 == 0 && !Within(x, d, start, |value| / 2)
    ensures WordAt(Store(m, d, start, value), x) == WordAt(m, x)
    decreases |value|
  {
    if |value| > 0 {
      var first := m.(words := m.words[Place(d, start) := value[0] as int + 256 * (value[1] as int)]);
      assert x != Place(d, start);
      StoreElsewhere(first, d, start + 1, value[2..], x);
    }
  }

  lemma {:induction false} StoreKeepsBits(m: Memory, d: Device, start: int, value: seq<Byte>)
    requires |value| % 2 == 0
    ensures Store(m, d, start, value).bits == m.bits
    decreases |value|
  {
    if |value| > 0 {
      StoreKeepsBits(m.(words := m.words[Place(d, start) := value[0] as int + 256 * (value[1] as int)]), d, start + 1,
                     value[2..]);
    }
  }

  lemma {:induction false} LoadAfterStore(m: Memory, d: Device, start: int, value: seq<Byte>)
    requires |value| % 2 == 0
    ensures Load(Store(m, d, start, value), d, start, |value| / 2) == value
    decreases |value|
  {
    if |value| > 0 {
      var first := m.(words := m.words[Place(d, start) := value[0] as int + 256 * (value[1] as int)]);
      StoreElsewhere(first, d, start + 1, value[2..], Place(d, start));
      LoadAfterStore(first, d, start + 1, value[2..]);
      assert [value[0], value[1]] + value[2..] == value;
    }
  }

  /** A word of the memory is two of the bytes loaded from it, low byte first. */
  lemma {:induction false} LoadAt(m: Memory, d: Device, start: int, n: nat, x: nat)
    requires x < n
    ensures WordAt(m, Place(d, start + x))
            == Load(m, d, start, n)[2 * x] as int + 256 * (Load(m, d, start, n)[2 * x + 1] as int)
    decreases n
  {
    if x > 0 { LoadAt(m, d, start + 1, n - 1, x - 1); }
  }

  /** What a word write makes of the memory. */
  lemma StoreContract(m: Memory, d: Device, start: int, value: seq<Byte>)
    requires |value| % 2 == 0
    ensures Load(Store(m, d, start, value), d, start, |value| / 2) == value
    ensures forall x: Place | !Within(x, d, start, |value| / 2) :: WordAt(Store(m, d, start, value), x) == WordAt(m, x)
    ensures Store(m, d, start, value).bits == m.bits
  {
    LoadAfterStore(m, d, start, value);
    forall x: Place | !Within(x, d, start, |value| / 2) ensures WordAt(Store(m, d, start, value), x) == WordAt(m, x) {
      StoreElsewhere(m, d, start, value, x);
    }
    StoreKeepsBits(m, d, start, value);
  }

  lemma {:induction false} BitsAfterStore(m: Memory, d: Device, start: int, flags: seq<bool>, x: Place)
    ensures BitAt(StoreBits(m, d, start, flags), x)
            == if Within(x, d, start, |flags|) then flags[x.index - start] else BitAt(m, x)
    ensures StoreBits(m, d, start, flags).words == m.words
    decreases |flags|
  {
    if |flags| > 0 {
      BitsAfterStore(m.(bits := m.bits[Place(d, start) := flags[0]]), d, start + 1, flags[1..], x);
    }
  }

  lemma BitsContract(m: Memory, d: Device, start: int, flags: seq<bool>)
    ensures var after := StoreBits(m, d, start, flags);
            && LoadBits(after, d, start, |flags|) == flags && after.words == m.words
            && forall x: Place | !Within(x, d, start, |flags|) :: BitAt(after, x) == BitAt(m, x)
  {
    var after := StoreBits(m, d, start, flags);
    forall x: Place
      ensures BitAt(after, x) == if Within(x, d, start, |flags|) then flags[x.index - start] else BitAt(m, x)
    {
      BitsAfterStore(m, d, start, flags, x);
    }
    BitsAfterStore(m, d, start, flags, Place(d, start));
    forall k | 0 <= k < |flags|
      ensures LoadBits(after, d, start, |flags|)[k] == flags[k]
    {
      assert Within(Place(d, start + k), d, start, |flags|);
    }
  }

  // ---- Responses ----

  datatype Reply = Written | WordsRead(value: seq<Byte>) | BitsRead(flags: seq<bool>)

  /** Word data in ASCII: four digits a word, most significant first. */
  function WordText(value: seq<Byte>): (s: seq<Byte>)
    requires |value| % 2 == 0
    ensures |s| == 2 * |value|
  {
    if |value| == 0 then [] else Hex.OfWord((value[1] as int) * 256 + value[0]) + WordText(value[2..])
  }

  function ReplyData(p: Protocol, reply: Reply): seq<Byte>
    requires reply.WordsRead? ==> |reply.value| % 2 == 0
  {
    match reply
    case Written => []
    case WordsRead(value) => if p.Binary? then value else WordText(value)
    case BitsRead(flags) => if p.Binary? then BoolPacking.PackedBelow(flags, |flags|) else FlagChars(flags)
  }

  /** The longest data a response frame can announce. */
  function MaxData(p: Protocol): nat { if p.Binary? then 65533 else 65531 }

  function Respond(p: Protocol, a: Address, endCode: Word, data: seq<Byte>): (f: seq<Byte>)
    requires |data| <= MaxData(p)
  {
    if p.Binary? then
      [0xD0, 0x00, a.network, 0xFF, 0xFF, 0x03, a.station, (|data| + 2) % 256, (|data| + 2) / 256, endCode % 256,
       endCode / 256] + data
    else
      [0x44, 0x30, 0x30, 0x30] + Hex.OfByte(a.network) + [0x46, 0x46, 0x30, 0x33, 0x46, 0x46] + Hex.OfByte(a.station)
      + Hex.OfWord(|data| + 4) + Hex.OfWord(endCode) + data
  }

  const TOO_MANY_POINTS: Word := 0xC051
  const UNKNOWN_COMMAND: Word := 0xC059

  function Execute(m: Memory, r: Request): (res: (Memory, Reply))
    requires Decoding.WellFormed(r.call)
    ensures res.1.WordsRead? ==> |res.1.value| % 2 == 0
  {
    match r.call
    case Read(bit, points) =>
      (m, if bit then BitsRead(LoadBits(m, r.device, r.start, points))
       else WordsRead(Load(m, r.device, r.start, points)))
    case WriteWords(_, value) => (Store(m, r.device, r.start, value), Written)
    case WriteBits(_, flags) => (StoreBits(m, r.device, r.start, flags), Written)
  }

  /** What the PLC makes of one request: its memory afterwards, and the response. */
  function Answer(m: Memory, p: Protocol, r: Request): (Memory, seq<Byte>)
    requires Decoding.WellFormed(r.call)
  {
    var done := Execute(m, r);
    var data := ReplyData(p, done.1);
    if |data| <= MaxData(p) then (done.0, Respond(p, r.address, 0, data))
    else (m, Respond(p, r.address, TOO_MANY_POINTS, []))
  }

  /** And of any frame. */
  function Serve(m: Memory, p: Protocol, f: seq<Byte>): (Memory, seq<Byte>)
  {
    match Decoding.Decode(p, f)
    case None => (m, Respond(p, Address(0, 0), UNKNOWN_COMMAND, []))
    case Some(r) => Answer(m, p, r)
  }

  /** Every response is one frame. */
  lemma ResponseIsFrame(p: Protocol, a: Address, endCode: Word, data: seq<Byte>)
    requires |data| <= MaxData(p)
    ensures IsFrame(p, Respond(p, a, endCode, data))
  {
    if p.Ascii? {
      AsciiResponseFields(a, endCode, data);
      Hex.WordRoundTrip(|data| + 4);
    }
  }

  lemma AsciiResponseFields(a: Address, endCode: Word, data: seq<Byte>)
    requires |data| <= MaxData(Ascii)
    ensures var f := Respond(Ascii, a, endCode, data);
            |f| == 22 + |data| && f[14..18] == Hex.OfWord(|data| + 4) && f[18..22] == Hex.OfWord(endCode)
              && f[22..] == data
  {
    var pre := [0x44, 0x30, 0x30, 0x30] + Hex.OfByte(a.network) + [0x46, 0x46, 0x30, 0x33, 0x46, 0x46]
               + Hex.OfByte(a.station);
    assert |pre| == 14;
    assert Respond(Ascii, a, endCode, data) == pre + (Hex.OfWord(|data| + 4) + (Hex.OfWord(endCode) + data));
  }

  lemma ServedIsFrame(m: Memory, p: Protocol, f: seq<Byte>)
    ensures IsFrame(p, Serve(m, p, f).1)
  {
    match Decoding.Decode(p, f)
    case None => ResponseIsFrame(p, Address(0, 0), UNKNOWN_COMMAND, []);
    case Some(r) =>
      var data := ReplyData(p, Execute(m, r).1);
      if |data| <= MaxData(p) {
        ResponseIsFrame(p, r.address, 0, data);
      } else {
        ResponseIsFrame(p, r.address, TOO_MANY_POINTS, []);
      }
  }
}
