/** Reading frames off a stream that arrives in arbitrary pieces. */
module Receiving {
  import opened Wrappers
  import opened Bytes
  import opened Framing

  type Chunk = c: seq<Byte> | |c| > 0 witness [0]

  /** What one recv() finds: some bytes, an interruption, an error, or the end of the stream. */
  datatype RecvResult = Data(chunk: Chunk) | Interrupted | Failed | Closed

  /** The bytes that arrive before the stream ends or fails. */
  function Stream(script: seq<RecvResult>): seq<Byte>
  {
    if |script| == 0 then []
    else match script[0]
      case Data(c) => c + Stream(script[1..])
      case Interrupted => Stream(script[1..])
      case _ => []
  }

  /** How the stream ends; a script that has run out is a closed connection. */
  function Ending(script: seq<RecvResult>): (c: Code)
    ensures c.ConnectionClosed? || c.SocketRecvFailed?
  {
    if |script| == 0 || script[0].Closed? then ConnectionClosed
    else if script[0].Failed? then SocketRecvFailed
    else Ending(script[1..])
  }

  datatype Received = Received(code: Code, got: seq<Byte>, rest: seq<RecvResult>)

  /** mc_recv_exact of n bytes. */
  function RecvExact(script: seq<RecvResult>, n: nat): (r: Received)
    decreases |script|
  {
    if n == 0 then Received(Success, [], script)
    else if |script| == 0 then Received(ConnectionClosed, [], [])
    else match script[0]
      case Closed => Received(ConnectionClosed, [], script[1..])
      case Failed => Received(SocketRecvFailed, [], script[1..])
      case Interrupted => RecvExact(script[1..], n)
      case Data(c) =>
        if |c| > n then Received(Success, c[..n], [Data(c[n..])] + script[1..])
        else
          var r := RecvExact(script[1..], n - |c|);
          r.(got := c + r.got)
  }

  /** However the stream is cut, n bytes are read exactly when n bytes arrive, and the rest stays in place. */
  lemma {:induction false} RecvExactContract(script: seq<RecvResult>, n: nat)
    ensures var r := RecvExact(script, n);
            if n <= |Stream(script)|
            then r.code.Success? && r.got == Stream(script)[..n] && Stream(r.rest) == Stream(script)[n..]
              && Ending(r.rest) == Ending(script)
            else r.code == Ending(script) && r.got == Stream(script)
    decreases |script|
  {
    if n > 0 && |script| > 0 {
      match script[0]
      case Closed =>
      case Failed =>
      case Interrupted => RecvExactContract(script[1..], n);
      case Data(c) =>
        if |c| > n {
          var r := RecvExact(script, n);
          assert r.rest[1..] == script[1..];
          assert Stream(r.rest) == c[n..] + Stream(script[1..]);
        } else {
          RecvExactContract(script[1..], n - |c|);
        }
    }
  }

  function Prepend(got: seq<Byte>, r: Received): Received { r.(got := got + r.got) }

  /** One recv that finds bytes, inside the loop that has already got some. */
  lemma DataStep(got: seq<Byte>, script: seq<RecvResult>, n: nat, c: Chunk, k: nat, rest: seq<RecvResult>)
    requires n > 0 && |script| > 0 && script[0] == Data(c) && k == (if |c| > n then n else |c|)
    requires rest == (if |c| > n then [Data(c[n..])] + script[1..] else script[1..])
    ensures Prepend(got, RecvExact(script, n)) == Prepend(got + c[..k], RecvExact(rest, n - k))
  {
    var r := RecvExact(rest, n - k);
    assert c[..k] + r.got == RecvExact(script, n).got;
    assert got + (c[..k] + r.got) == (got + c[..k]) + r.got;
  }

  /** What recv() of n > 0 bytes makes of the head of the script. */
  ghost predicate RecvOutcome(script: seq<RecvResult>, n: nat, nread: int, interrupted: bool, rest: seq<RecvResult>)
  {
    if |script| == 0 then nread == 0 && rest == []
    else match script[0]
      case Closed => nread == 0 && rest == script[1..]
      case Failed => nread == -1 && !interrupted && rest == script[1..]
      case Interrupted => nread == -1 && interrupted && rest == script[1..]
      case Data(c) =>
        && nread == (if |c| > n then n else |c|)
        && rest == (if |c| > n then [Data(c[n..])] + script[1..] else script[1..])
  }

  datatype Response = Response(code: Code, frame: seq<Byte>, rest: seq<RecvResult>)

  /** mc_read_response and mc_ascii_read_response; memory is whether malloc succeeds. */
  function ReadResponse(p: Protocol, script: seq<RecvResult>, memory: bool): (r: Response)
  {
    var h := RecvExact(script, HeaderSize(p));
    if !h.code.Success? then Response(h.code, [], h.rest)
    else
      RecvExactContract(script, HeaderSize(p));
      match FrameSize(p, h.got)
      case None => Response(ResponseHeaderFailed, [], h.rest)
      case Some(total) =>
        if !memory then Response(MallocFailed, [], h.rest)
        else
          var b := RecvExact(h.rest, total - HeaderSize(p));
          if !b.code.Success? then Response(b.code, [], b.rest) else Response(Success, h.got + b.got, b.rest)
  }

  /** The frame at the head of a byte stream, if its header is there and is accepted. */
  function HeadSize(p: Protocol, stream: seq<Byte>): Option<nat>
  {
    if |stream| < HeaderSize(p) then None else FrameSize(p, stream)
  }

  /**
   * A read succeeds exactly when the stream starts with a whole frame; it then returns that frame, consumes
   * not one byte more, and every failure is the one the code names.
   */
  lemma ExactFraming(p: Protocol, script: seq<RecvResult>, memory: bool)
    ensures var r, s := ReadResponse(p, script, memory), Stream(script);
            && (r.code.Success? <==> memory && HeadSize(p, s).Some? && HeadSize(p, s).value <= |s|)
            && (r.code.Success? ==>
                  r.frame == s[..HeadSize(p, s).value] && IsFrame(p, r.frame)
                  && Stream(r.rest) == s[HeadSize(p, s).value..] && Ending(r.rest) == Ending(script))
            && (r.code.ResponseHeaderFailed? <==> |s| >= HeaderSize(p) && FrameSize(p, s).None?)
            && (r.code.MallocFailed? <==> !memory && HeadSize(p, s).Some?)
            && (r.code.ConnectionClosed? || r.code.SocketRecvFailed? ==> r.code == Ending(script))
  {
    RecvExactContract(script, HeaderSize(p));
    if |Stream(script)| >= HeaderSize(p) {
      HeaderRead(p, script);
      if FrameSize(p, Stream(script)).Some? && memory {
        BodyRead(p, script, FrameSize(p, Stream(script)).value);
        if FrameSize(p, Stream(script)).value <= |Stream(script)| { HeadIsFrame(p, Stream(script)); }
      }
    }
  }

  lemma HeaderRead(p: Protocol, script: seq<RecvResult>)
    requires |Stream(script)| >= HeaderSize(p)
    ensures var s, h := Stream(script), RecvExact(script, HeaderSize(p));
            && h.code.Success? && h.got == s[..HeaderSize(p)] && FrameSize(p, h.got) == FrameSize(p, s)
            && Stream(h.rest) == s[HeaderSize(p)..] && Ending(h.rest) == Ending(script)
  {
    RecvExactContract(script, HeaderSize(p));
    SizeFromHeader(p, Stream(script), HeaderSize(p));
  }

  lemma BodyRead(p: Protocol, script: seq<RecvResult>, total: nat)
    requires |Stream(script)| >= HeaderSize(p) && FrameSize(p, Stream(script)) == Some(total)
    ensures var s, h := Stream(script), RecvExact(script, HeaderSize(p));
            var b := RecvExact(h.rest, total - HeaderSize(p));
            if total <= |s|
            then b.code.Success? && h.got + b.got == s[..total] && Stream(b.rest) == s[total..]
              && Ending(b.rest) == Ending(script)
            else b.code == Ending(script)
  {
    var s, n := Stream(script), HeaderSize(p);
    HeaderRead(p, script);
    RecvExactContract(RecvExact(script, n).rest, total - n);
    SplitTwice(s, n, total);
  }

  lemma SplitTwice(s: seq<Byte>, n: nat, total: nat)
    requires n <= total && n <= |s|
    ensures total <= |s| ==> s[..n] + s[n..][..total - n] == s[..total] && s[n..][total - n..] == s[total..]
  {
  }

  lemma HeadIsFrame(p: Protocol, s: seq<Byte>)
    requires HeadSize(p, s).Some? && HeadSize(p, s).value <= |s|
    ensures IsFrame(p, s[..HeadSize(p, s).value])
  {
    SizeFromHeader(p, s, HeadSize(p, s).value);
  }

  function Concat(fs: seq<seq<Byte>>): seq<Byte>
  {
    if |fs| == 0 then [] else fs[0] + Concat(fs[1..])
  }

  /** k reads in a row, stopping at the first failure. */
  function ReadMany(p: Protocol, script: seq<RecvResult>, k: nat): (seq<seq<Byte>>, seq<RecvResult>)
    decreases k
  {
    if k == 0 then ([], script)
    else
      var r := ReadResponse(p, script, true);
      if !r.code.Success? then ([], r.rest)
      else
        var more := ReadMany(p, r.rest, k - 1);
        ([r.frame] + more.0, more.1)
  }

  /** Any cutting of k concatenated frames is read back as those k frames in order, ending on the boundary. */
  lemma {:induction false} FramesReadBack(p: Protocol, script: seq<RecvResult>, fs: seq<seq<Byte>>, tail: seq<Byte>)
    requires Stream(script) == Concat(fs) + tail
    requires forall i | 0 <= i < |fs| :: IsFrame(p, fs[i])
    ensures ReadMany(p, script, |fs|).0 == fs
    ensures Stream(ReadMany(p, script, |fs|).1) == tail
    decreases |fs|
  {
    if |fs| == 0 {
      assert Stream(script) == tail;
    } else {
      var s, f := Stream(script), fs[0];
      assert s == f + (Concat(fs[1..]) + tail);
      SizeFromHeader(p, s, |f|);
      assert s[..|f|] == f && s[|f|..] == Concat(fs[1..]) + tail;
      ExactFraming(p, script, true);
      FramesReadBack(p, ReadResponse(p, script, true).rest, fs[1..], tail);
    }
  }

  /** A connected socket as the readers see it. */
  class Connection {
    var script: seq<RecvResult>

    constructor (script: seq<RecvResult>)
      ensures this.script == script
    {
      this.script := script;
    }

    /** recv(): a positive count, 0 at the end of the stream, or -1 with interrupted telling EINTR from other errors. */
    method Recv(buffer: array<Byte>, at: nat, count: nat) returns (nread: int, interrupted: bool)
      requires count > 0 && at + count <= buffer.Length
      modifies this, buffer
      ensures buffer[..at] == old(buffer[..at]) && buffer[at + count..] == old(buffer[at + count..])
      ensures nread <= count && RecvOutcome(old(script), count, nread, interrupted, script)
      ensures nread > 0 ==> buffer[at..at + nread] == old(script)[0].chunk[..nread]
    {
      interrupted := false;
      if |script| == 0 { return 0, false; }
      var result := script[0];
      script := script[1..];
      match result {
        case Closed => nread := 0;
        case Failed => nread := -1;
        case Interrupted => nread, interrupted := -1, true;
        case Data(c) =>
          nread := if |c| > count then count else |c|;
          for i := 0 to nread
            invariant forall k | 0 <= k < i :: buffer[at + k] == c[k]
            invariant forall k | 0 <= k < buffer.Length && !(at <= k < at + i) :: buffer[k] == old(buffer[k])
            invariant script == old(script[1..])
          {
            buffer[at + i] := c[i];
          }
          if |c| > count { script := [Data(c[count..])] + script; }
      }
    }

    /** recv(fd, buffer + total, wanted - total, 0) for a buffer that starts at offset at. */
    method RecvAppend(buffer: array<Byte>, at: nat, total: nat, wanted: nat) returns (nread: int, interrupted: bool)
      requires total < wanted && at + wanted <= buffer.Length
      modifies this, buffer
      ensures -1 <= nread <= wanted - total
      ensures buffer[..at] == old(buffer[..at]) && buffer[at + wanted..] == old(buffer[at + wanted..])
      ensures old(|script|) > 0 ==> |script| <= old(|script|) && (nread <= 0 ==> |script| < old(|script|))
      ensures RecvOutcome(old(script), wanted - total, nread, interrupted, script)
      ensures nread > 0 ==>
                buffer[at..at + total + nread] == old(buffer[at..at + total]) + old(script)[0].chunk[..nread]
      ensures nread <= 0 ==> buffer[at..at + total] == old(buffer[at..at + total])
    {
      ghost var before := buffer[..at + total];
      nread, interrupted := Recv(buffer, at + total, wanted - total);
      assert buffer[..at + total] == before;
      assert buffer[at..at + total] == before[at..];
      if nread > 0 {
        assert buffer[at..at + total + nread] == buffer[at..at + total] + buffer[at + total..at + total + nread];
      }
    }

    /** mc_recv_exact into buffer from offset at. */
    method RecvExactInto(buffer: array<Byte>, at: nat, bytesToRead: nat) returns (code: Code)
      requires at + bytesToRead <= buffer.Length
      modifies this, buffer
      ensures var r := RecvExact(old(script), bytesToRead);
              code == r.code && script == r.rest && (code.Success? ==> buffer[at..at + bytesToRead] == r.got)
      ensures buffer[..at] == old(buffer[..at]) && buffer[at + bytesToRead..] == old(buffer[at + bytesToRead..])
    {
      var totalRead := 0;
      ghost var got: seq<Byte> := [];
      while totalRead < bytesToRead
        invariant 0 <= totalRead <= bytesToRead && got == buffer[at..at + totalRead]
        invariant RecvExact(old(script), bytesToRead) == Prepend(got, RecvExact(script, bytesToRead - totalRead))
        invariant buffer[..at] == old(buffer[..at]) && buffer[at + bytesToRead..] == old(buffer[at + bytesToRead..])
        decreases bytesToRead - totalRead, |script|
      {
        ghost var script0 := script;
        var nread, interrupted := RecvAppend(buffer, at, totalRead, bytesToRead);
        if nread == 0 { return ConnectionClosed; }
        if nread < 0 {
          if interrupted { continue; }
          return SocketRecvFailed;
        }
        DataStep(got, script0, bytesToRead - totalRead, script0[0].chunk, nread, script);
        got := got + script0[0].chunk[..nread];
        totalRead := totalRead + nread;
      }
      return Success;
    }

    /** mc_read_response, and mc_ascii_read_response for the other protocol. */
    method ReadResponseFrame(p: Protocol, memory: bool) returns (code: Code, response: array<Byte>, readCount: nat)
      modifies this
      ensures var r := ReadResponse(p, old(script), memory);
              code == r.code && script == r.rest
                && (code.Success? ==> fresh(response) && response[..] == r.frame && readCount == |r.frame|)
    {
      var header := new Byte[HeaderSize(p)](_ => 0);
      response, readCount := header, 0;
      code := RecvExactInto(header, 0, HeaderSize(p));
      if !code.Success? { return; }
      assert header[..] == header[0..HeaderSize(p)];
      match FrameSize(p, header[..]) {
        case None => return ResponseHeaderFailed, header, 0;
        case Some(total) =>
          if !memory { return MallocFailed, header, 0; }
          code, response := ReadBody(header, total);
          readCount := total;
      }
    }

    /** The allocation of the response and the read of what follows the header. */
    method ReadBody(header: array<Byte>, total: nat) returns (code: Code, response: array<Byte>)
      requires header.Length <= total
      modifies this
      ensures var b := RecvExact(old(script), total - header.Length);
              code == b.code && script == b.rest
              && (code.Success? ==> fresh(response) && response[..] == header[..] + b.got && response.Length == total)
    {
      response := new Byte[total](_ => 0);
      CopyInto(header, response, 0);
      code := Success;
      if total > header.Length {
        code := RecvExactInto(response, header.Length, total - header.Length);
        assert response[..] == response[..header.Length] + response[header.Length..total];
      }
    }
  }
}
