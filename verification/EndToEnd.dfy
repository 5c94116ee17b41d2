/** Writing through either client and reading back through either, against the reference PLC. */
module EndToEnd {
  import opened Wrappers
  import opened Bytes
  import opened Framing
  import opened Devices
  import opened Requests
  import opened Plc
  import Decoding
  import Hex
  import BoolPacking
  import Responses
  import Receiving
  import TypedArrays

  /** What a write of either client returns for a response. */
  function WriteResult(p: Protocol, f: seq<Byte>): Code
    requires IsFrame(p, f)
  {
    if p.Binary? then Responses.ParseWrite(f) else Responses.AsciiEndCode(f)
  }

  /** What a read of either client returns for a response; bit data is unpacked in binary. */
  function ReadResult(p: Protocol, bit: bool, f: seq<Byte>): Responses.Parsed
    requires IsFrame(p, f)
  {
    if p.Ascii? then Responses.ParseAsciiRead(f, bit, true)
    else
      Responses.ReaderAndParserAgree(f);
      var parsed := Responses.ParseRead(f, true);
      if bit && parsed.code.Success? && parsed.data.Some?
      then parsed.(data := Some(BoolPacking.Unpacked(parsed.data.value)))
      else parsed
  }

  /** However the stream is cut and whatever follows, the reader returns this frame and leaves the rest. */
  ghost predicate Delivers(p: Protocol, f: seq<Byte>)
  {
    forall script: seq<Receiving.RecvResult>, tail: seq<Byte> | Receiving.Stream(script) == f + tail ::
      var r := Receiving.ReadResponse(p, script, true);
      r.code.Success? && r.frame == f && Receiving.Stream(r.rest) == tail
  }

  lemma FramesAreDelivered(p: Protocol, f: seq<Byte>)
    requires IsFrame(p, f)
    ensures Delivers(p, f)
  {
    forall script: seq<Receiving.RecvResult>, tail: seq<Byte> | Receiving.Stream(script) == f + tail
      ensures var r := Receiving.ReadResponse(p, script, true);
              r.code.Success? && r.frame == f && Receiving.Stream(r.rest) == tail
    {
      var s := Receiving.Stream(script);
      SizeFromHeader(p, s, |f|);
      assert s[..|f|] == f && s[|f|..] == tail;
      Receiving.ExactFraming(p, script, true);
    }
  }

  /** The parsers on the responses of the reference PLC. */
  lemma ParsedResponse(p: Protocol, a: Address, endCode: Word, data: seq<Byte>)
    requires |data| <= MaxData(p)
    ensures var f := Respond(p, a, endCode, data);
            && IsFrame(p, f)
            && WriteResult(p, f) == (if endCode == 0 then Success else Failed)
            && (endCode != 0 ==> ReadResult(p, false, f).code.Failed? && ReadResult(p, true, f).code.Failed?)
            && (p.Binary? && endCode == 0
                ==> Responses.ParseRead(f, true) == Responses.Parsed(Success, if |data| > 0 then Some(data) else None))
            && (p.Ascii? ==> |f| >= 22 && f[22..] == data
                             && Responses.AsciiEndCode(f) == if endCode == 0 then Success else Failed)
  {
    var f := Respond(p, a, endCode, data);
    ResponseIsFrame(p, a, endCode, data);
    if p.Binary? {
      Responses.ReaderAndParserAgree(f);
      assert f[11..] == data;
    } else {
      AsciiResponseFields(a, endCode, data);
      Hex.WordRoundTrip(endCode);
    }
  }

  lemma {:induction false} WordTextIsClientHex(value: seq<Byte>)
    requires |value| % 2 == 0
    ensures WordText(value) == Hex.OfBytes(Hex.Swapped(value))
  {
    if |value| > 0 {
      WordTextIsClientHex(value[2..]);
      Decoding.SwappedHead(value);
      FirstFour(Hex.OfBytes(Hex.Swapped(value)), Hex.OfWord((value[1] as int) * 256 + value[0]), WordText(value[2..]));
    }
  }

  lemma FirstFour(s: seq<Byte>, a: seq<Byte>, b: seq<Byte>)
    requires |s| >= 4 && s[..4] == a && s[4..] == b
    ensures s == a + b
  {
    assert s == s[..4] + s[4..];
  }

  /** The data of a successful response reaches the caller unchanged. */
  lemma WordsReach(p: Protocol, a: Address, value: seq<Byte>)
    requires |value| > 0 && |value| % 2 == 0 && |ReplyData(p, WordsRead(value))| <= MaxData(p)
    ensures IsFrame(p, Respond(p, a, 0, ReplyData(p, WordsRead(value))))
    ensures ReadResult(p, false, Respond(p, a, 0, ReplyData(p, WordsRead(value))))
            == Responses.Parsed(Success, Some(value))
  {
    var data := ReplyData(p, WordsRead(value));
    var f := Respond(p, a, 0, data);
    ParsedResponse(p, a, 0, data);
    if p.Ascii? {
      WordTextIsClientHex(value);
      Responses.WordDataComesBack(f, value);
    }
  }

  lemma FlagsReach(p: Protocol, a: Address, flags: seq<bool>)
    requires |flags| > 0 && |ReplyData(p, BitsRead(flags))| <= MaxData(p)
    ensures IsFrame(p, Respond(p, a, 0, ReplyData(p, BitsRead(flags))))
    ensures var r := ReadResult(p, true, Respond(p, a, 0, ReplyData(p, BitsRead(flags))));
            r.code.Success? && r.data.Some? && |r.data.value| >= |flags|
              && r.data.value[..|flags|] == BoolPacking.Bits(flags)
  {
    var data := ReplyData(p, BitsRead(flags));
    ParsedResponse(p, a, 0, data);
    if p.Binary? {
      BoolPacking.GuardedComesBack(flags);
    } else {
      assert Responses.Flags(FlagChars(flags)) == BoolPacking.Bits(flags);
    }
  }

  /** The most points a response frame can carry. */
  function MaxReadWords(p: Protocol): nat { if p.Binary? then 32766 else 16382 }

  lemma ServesWhatWasAsked(m: Memory, p: Protocol, r: Request)
    requires Decoding.Fits(p, r)
    ensures Decoding.WellFormed(r.call) && Encode(p, r).Some? && Serve(m, p, Encode(p, r).value) == Answer(m, p, r)
  {
    Decoding.MeansWhatWasAsked(p, r);
  }

  lemma AnswerToRead(p: Protocol, m: Memory, r: Request)
    requires r.call.Read? && !r.call.bit && r.call.points > 0
    ensures var res := Answer(m, p, r);
            && IsFrame(p, res.1) && res.0 == m
            && ReadResult(p, false, res.1).code == (if r.call.points <= MaxReadWords(p) then Success else Failed)
            && (r.call.points <= MaxReadWords(p) ==>
                  ReadResult(p, false, res.1)
                    == Responses.Parsed(Success, Some(Load(m, r.device, r.start, r.call.points))))
  {
    var value := Load(m, r.device, r.start, r.call.points);
    if |ReplyData(p, WordsRead(value))| <= MaxData(p) {
      WordsReach(p, r.address, value);
    } else {
      ParsedResponse(p, r.address, TOO_MANY_POINTS, []);
    }
  }

  /** A word read within the ranges of the request succeeds exactly when its answer fits a response frame. */
  lemma ReadAnswered(p: Protocol, m: Memory, r: Request)
    requires Decoding.Fits(p, r) && r.call.Read? && !r.call.bit && r.call.points > 0
    ensures var res := Serve(m, p, Encode(p, r).value);
            && IsFrame(p, res.1) && res.0 == m
            && ReadResult(p, false, res.1).code == (if r.call.points <= MaxReadWords(p) then Success else Failed)
            && (r.call.points <= MaxReadWords(p) ==>
                  ReadResult(p, false, res.1)
                    == Responses.Parsed(Success, Some(Load(m, r.device, r.start, r.call.points))))
  {
    ServesWhatWasAsked(m, p, r);
    AnswerToRead(p, m, r);
  }

  /** A frame that means nothing to the PLC is refused, and every call on it fails with FAILED. */
  lemma UnknownIsRefused(p: Protocol, m: Memory, f: seq<Byte>)
    requires Decoding.Decode(p, f).None?
    ensures var res := Serve(m, p, f);
            && res.0 == m && IsFrame(p, res.1) && WriteResult(p, res.1).Failed?
            && ReadResult(p, false, res.1).code.Failed? && ReadResult(p, true, res.1).code.Failed?
  {
    ParsedResponse(p, Address(0, 0), UNKNOWN_COMMAND, []);
  }

  lemma Acknowledged(p: Protocol, a: Address)
    ensures IsFrame(p, Respond(p, a, 0, [])) && WriteResult(p, Respond(p, a, 0, [])).Success?
  {
    ParsedResponse(p, a, 0, []);
  }

  lemma AnswerToWrite(p: Protocol, m: Memory, w: Request)
    requires Decoding.WellFormed(w.call) && !w.call.Read?
    ensures Answer(m, p, w) == (Execute(m, w).0, Respond(p, w.address, 0, []))
  {
  }

  function WriteOf(a: Address, d: Device, start: int, value: seq<Byte>): Request
  {
    Request(a, d, start, WriteWords(|value| / 2, value))
  }

  function ReadOf(b: Address, d: Device, start: int, words: nat): Request { Request(b, d, start, Read(false, words)) }

  /** A write of whole words over one protocol and a read of as many over another, both within the ranges. */
  ghost predicate InRange(p: Protocol, q: Protocol, d: Device, start: int, value: seq<Byte>)
  {
    && |value| % 2 == 0 && Decoding.StartFits(p, d, start) && Decoding.StartFits(q, d, start)
    && 0 < |value| / 2 <= Decoding.MaxWriteWords(p)
    && |value| / 2 <= MaxReadWords(q)
  }

  /** The request goes to the PLC as the frame the client builds. */
  function Exchange(m: Memory, p: Protocol, r: Request): (Memory, seq<Byte>)
    requires Decoding.Fits(p, r)
  {
    Decoding.MeansWhatWasAsked(p, r);
    Serve(m, p, Encode(p, r).value)
  }

  lemma WriteAnswered(p: Protocol, m: Memory, a: Address, d: Device, start: int, value: seq<Byte>)
    requires |value| % 2 == 0 && Decoding.Fits(p, WriteOf(a, d, start, value))
    ensures Exchange(m, p, WriteOf(a, d, start, value)) == (Store(m, d, start, value), Respond(p, a, 0, []))
  {
    ServesWhatWasAsked(m, p, WriteOf(a, d, start, value));
    AnswerToWrite(p, m, WriteOf(a, d, start, value));
  }

  /** A word write within the ranges succeeds, and changes just the words it names. */
  lemma WriteWorks(p: Protocol, m: Memory, a: Address, d: Device, start: int, value: seq<Byte>)
    requires |value| % 2 == 0 && Decoding.Fits(p, WriteOf(a, d, start, value))
    ensures var w := Exchange(m, p, WriteOf(a, d, start, value));
            && Delivers(p, w.1) && IsFrame(p, w.1) && WriteResult(p, w.1).Success?
            && Load(w.0, d, start, |value| / 2) == value && w.0.bits == m.bits
            && forall x: Place | !Within(x, d, start, |value| / 2) :: WordAt(w.0, x) == WordAt(m, x)
  {
    WriteAnswered(p, m, a, d, start, value);
    Acknowledged(p, a);
    FramesAreDelivered(p, Respond(p, a, 0, []));
    StoreContract(m, d, start, value);
  }

  /** A word read within the ranges returns what the memory holds, and changes nothing. */
  lemma ReadWorks(q: Protocol, m: Memory, b: Address, d: Device, start: int, words: nat)
    requires 0 < words <= MaxReadWords(q) && Decoding.StartFits(q, d, start)
    ensures var r := Exchange(m, q, ReadOf(b, d, start, words));
            && Delivers(q, r.1) && IsFrame(q, r.1) && r.0 == m
            && ReadResult(q, false, r.1) == Responses.Parsed(Success, Some(Load(m, d, start, words)))
  {
    ReadAnswered(q, m, ReadOf(b, d, start, words));
    FramesAreDelivered(q, Exchange(m, q, ReadOf(b, d, start, words)).1);
  }

  /**
   * Write then read. Word data written by one client and read by either, at any addresses, over streams cut
   * anywhere: both calls succeed, the same data comes back, and no other word and no bit has changed.
   */
  lemma WriteThenRead(p: Protocol, q: Protocol, m: Memory, a: Address, b: Address, d: Device, start: int,
                      value: seq<Byte>)
    requires InRange(p, q, d, start, value)
    ensures var w := Exchange(m, p, WriteOf(a, d, start, value));
            var r := Exchange(w.0, q, ReadOf(b, d, start, |value| / 2));
            && Delivers(p, w.1) && IsFrame(p, w.1) && WriteResult(p, w.1).Success?
            && Delivers(q, r.1) && IsFrame(q, r.1)
            && ReadResult(q, false, r.1) == Responses.Parsed(Success, Some(value))
            && (forall x: Place | !Within(x, d, start, |value| / 2) :: WordAt(w.0, x) == WordAt(m, x))
            && w.0.bits == m.bits && r.0 == w.0
  {
    var w := Exchange(m, p, WriteOf(a, d, start, value));
    WriteWorks(p, m, a, d, start, value);
    ReadWorks(q, w.0, b, d, start, |value| / 2);
  }

  /**
   * The same for arrays of 16-, 32- and 64-bit integers, signed or not, of any length the frames can carry:
   * what one client writes as an array, either client reads back as that array.
   */
  lemma TypedArraysComeBack(p: Protocol, q: Protocol, m: Memory, a: Address, b: Address, d: Device, start: int,
                            values: seq<int>, k: nat, signed: bool)
    requires TypedArrays.IsWidth(k) && forall i | 0 <= i < |values| :: TypedArrays.InType(values[i], k, signed)
    requires InRange(p, q, d, start, TypedArrays.Encoded(values, k))
    ensures var w := Exchange(m, p, WriteOf(a, d, start, TypedArrays.Encoded(values, k)));
            var r := Exchange(w.0, q, ReadOf(b, d, start, (k * |values|) / 2));
            && Delivers(q, r.1) && IsFrame(q, r.1)
            && var parsed := ReadResult(q, false, r.1);
               && parsed.code.Success? && parsed.data.Some? && |parsed.data.value| == k * |values|
               && TypedArrays.Decoded(parsed.data.value, k, |values|, signed) == values
  {
    TypedArrays.ArraysRoundTrip(values, k, signed);
    WriteThenRead(p, q, m, a, b, d, start, TypedArrays.Encoded(values, k));
  }

  /**
   * What such an array is in the PLC: its values one after the other, each in k / 2 words in two's complement, the
   * low word first.
   */
  lemma TypedArraysStored(p: Protocol, m: Memory, a: Address, d: Device, start: int, values: seq<int>, k: nat,
                          value: seq<Byte>, i: nat, y: nat, x: nat)
    requires TypedArrays.IsWord(values, k, i, y, x) && value == TypedArrays.Encoded(values, k)
    requires |value| % 2 == 0 && Decoding.Fits(p, WriteOf(a, d, start, value))
    ensures WordAt(Exchange(m, p, WriteOf(a, d, start, value)).0, Place(d, start + x))
            == TypedArrays.WordOf(values, i, y)
  {
    TypedArrays.EncodedWord(values, k, i, y, x, value);
    WordStored(p, m, a, d, start, value, x, TypedArrays.WordOf(values, i, y));
  }

  lemma WordStored(p: Protocol, m: Memory, a: Address, d: Device, start: int, value: seq<Byte>, x: nat,
                   word: int)
    requires |value| % 2 == 0 && x < |value| / 2 && Decoding.Fits(p, WriteOf(a, d, start, value))
    requires value[2 * x] as int + 256 * (value[2 * x + 1] as int) == word
    ensures WordAt(Exchange(m, p, WriteOf(a, d, start, value)).0, Place(d, start + x)) == word
  {
    WriteAnswered(p, m, a, d, start, value);
    LoadAfterStore(m, d, start, value);
    LoadAt(Store(m, d, start, value), d, start, |value| / 2, x);
  }

  // ---- Bits ----

  /** The flags the PLC stores: the binary packing drops those at odd indices in the upper half. */
  function Stored(p: Protocol, flags: seq<bool>): (s: seq<bool>)
    ensures |s| == |flags|
  {
    if p.Binary? then Decoding.Surviving(flags) else flags
  }

  /** The request a bit write is taken for. */
  function StoredRequest(p: Protocol, w: Request): Request
    requires w.call.WriteBits?
  {
    w.(call := WriteBits(w.call.points, Stored(p, w.call.flags)))
  }

  lemma BinaryStoredMeaning(w: Request, f: seq<Byte>)
    requires w.call.WriteBits? && |w.call.flags| == w.call.points <= Decoding.MaxWriteBits(Binary)
    requires 0 <= w.start < 0x100_0000
    requires f == PackBinary(BinaryWriteBits(w.device, w.start, w.call.points, w.call.flags), w.address)
    ensures Decoding.DecodeBinary(f) == Some(StoredRequest(Binary, w))
  {
    StoredCall(w.call.flags);
    Decoding.BinaryDecodes(StoredRequest(Binary, w), BoolPacking.Packed(w.call.flags), true, true, w.call.points, f);
  }

  lemma StoredCall(flags: seq<bool>)
    requires |flags| <= Decoding.MaxWriteBits(Binary)
    ensures Decoding.BinaryCall(true, true, |flags| % 0x1_0000, BoolPacking.Packed(flags))
            == Some(WriteBits(|flags|, Stored(Binary, flags)))
  {
    assert |flags| % 0x1_0000 == |flags|;
    BitsMean(|flags|, flags, BoolPacking.Packed(flags));
  }

  lemma BitsMean(points: nat, flags: seq<bool>, data: seq<Byte>)
    requires points == |flags| && data == BoolPacking.Packed(flags)
    ensures Decoding.BinaryCall(true, true, points, data) == Some(WriteBits(points, Stored(Binary, flags)))
  {
    Decoding.NibblesAreSurviving(flags);
  }

  lemma StoredMeaning(p: Protocol, w: Request)
    requires w.call.WriteBits? && |w.call.flags| == w.call.points && 0 < w.call.points <= Decoding.MaxWriteBits(p)
    requires Decoding.StartFits(p, w.device, w.start)
    ensures Encode(p, w).Some? && Decoding.Decode(p, Encode(p, w).value) == Some(StoredRequest(p, w))
  {
    var flags := w.call.flags;
    if p.Ascii? {
      Decoding.MeansWhatWasAsked(p, w);
      assert Stored(p, flags) == flags;
    } else {
      BinaryStoredMeaning(w, Encode(Binary, w).value);
    }
  }

  /** The memory after a bit write is served. */
  lemma FlagsStored(p: Protocol, m: Memory, w: Request)
    requires w.call.WriteBits? && |w.call.flags| == w.call.points && 0 < w.call.points <= Decoding.MaxWriteBits(p)
    requires Decoding.StartFits(p, w.device, w.start)
    ensures var res, stored := Serve(m, p, Encode(p, w).value), Stored(p, w.call.flags);
            && IsFrame(p, res.1) && WriteResult(p, res.1).Success? && res.0.words == m.words
            && LoadBits(res.0, w.device, w.start, w.call.points) == stored
            && (forall x: Place | !Within(x, w.device, w.start, w.call.points) :: BitAt(res.0, x) == BitAt(m, x))
  {
    StoredMeaning(p, w);
    AnswerToWrite(p, m, StoredRequest(p, w));
    Acknowledged(p, w.address);
    BitsContract(m, w.device, w.start, Stored(p, w.call.flags));
  }

  function MaxReadBits(p: Protocol): nat { if p.Binary? then 65535 else 65531 }

  lemma AnswerToFlags(q: Protocol, m: Memory, r: Request)
    requires r.call.Read? && r.call.bit && 0 < r.call.points < 0x1_0000
    ensures var res, flags := Answer(m, q, r), LoadBits(m, r.device, r.start, r.call.points);
            && IsFrame(q, res.1) && res.0 == m
            && var got := ReadResult(q, true, res.1);
               && got.code == (if r.call.points <= MaxReadBits(q) then Success else Failed)
               && (got.code.Success? ==>
                     got.data.Some? && |got.data.value| >= |flags|
                       && got.data.value[..|flags|] == BoolPacking.Bits(flags))
  {
    var flags := LoadBits(m, r.device, r.start, r.call.points);
    if |ReplyData(q, BitsRead(flags))| <= MaxData(q) {
      FlagsReach(q, r.address, flags);
    } else {
      ParsedResponse(q, r.address, TOO_MANY_POINTS, []);
    }
  }

  /** A bit read within the ranges of the request succeeds exactly when its answer fits a response frame. */
  lemma FlagsAnswered(q: Protocol, m: Memory, r: Request)
    requires Decoding.Fits(q, r) && r.call.Read? && r.call.bit && r.call.points > 0
    ensures var res, flags := Serve(m, q, Encode(q, r).value), LoadBits(m, r.device, r.start, r.call.points);
            && IsFrame(q, res.1) && res.0 == m
            && var got := ReadResult(q, true, res.1);
               && got.code == (if r.call.points <= MaxReadBits(q) then Success else Failed)
               && (got.code.Success? ==>
                     got.data.Some? && |got.data.value| >= |flags|
                       && got.data.value[..|flags|] == BoolPacking.Bits(flags))
  {
    ServesWhatWasAsked(m, q, r);
    AnswerToFlags(q, m, r);
  }

  /**
   * Bits written by one client and read by either come back exactly when the writer is the ASCII client or no
   * flag is set at an odd index in the upper half.
   */
  lemma WriteThenReadFlags(p: Protocol, q: Protocol, m: Memory, a: Address, b: Address, d: Device, start: int,
                           flags: seq<bool>)
    requires 0 < |flags| <= Decoding.MaxWriteBits(p) && |flags| <= MaxReadBits(q)
    requires Decoding.StartFits(p, d, start) && Decoding.StartFits(q, d, start)
    ensures var w := Serve(m, p, Encode(p, Request(a, d, start, WriteBits(|flags|, flags))).value);
            var r := Serve(w.0, q, Encode(q, Request(b, d, start, Read(true, |flags|))).value);
            && IsFrame(p, w.1) && Delivers(p, w.1) && WriteResult(p, w.1).Success? && IsFrame(q, r.1)
            && Delivers(q, r.1)
            && ReadResult(q, true, r.1).code.Success? && ReadResult(q, true, r.1).data.Some?
              && |ReadResult(q, true, r.1).data.value| >= |flags|
            && (ReadResult(q, true, r.1).data.value[..|flags|] == BoolPacking.Bits(flags)
                <==> p.Ascii? || Decoding.FlagsSurvive(flags))
            && w.0.words == m.words && (forall x: Place | !Within(x, d, start, |flags|) :: BitAt(w.0, x) == BitAt(m, x))
  {
    var w, r := Request(a, d, start, WriteBits(|flags|, flags)), Request(b, d, start, Read(true, |flags|));
    FlagsStored(p, m, w);
    FlagsAnswered(q, Serve(m, p, Encode(p, w).value).0, r);
    SameBits(p, flags);
    FramesAreDelivered(p, Serve(m, p, Encode(p, w).value).1);
    FramesAreDelivered(q, Serve(Serve(m, p, Encode(p, w).value).0, q, Encode(q, r).value).1);
  }

  lemma SameBits(p: Protocol, flags: seq<bool>)
    ensures BoolPacking.Bits(Stored(p, flags)) == BoolPacking.Bits(flags) <==> p.Ascii? || Decoding.FlagsSurvive(flags)
  {
    forall k | 0 <= k < |flags| ensures BoolPacking.Bits(Stored(p, flags))[k] == BoolPacking.Bits(flags)[k] <==>
                                        p.Ascii? || k % 2 == 0 || k < (|flags| + 1) / 2 || !flags[k] {
    }
    if p.Ascii? || Decoding.FlagsSurvive(flags) {
      assert forall k | 0 <= k < |flags| :: BoolPacking.Bits(Stored(p, flags))[k] == BoolPacking.Bits(flags)[k];
    }
  }
}
