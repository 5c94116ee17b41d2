/** The machine reads and sends as the sequential reader and the sequential send loops do, one system call at a time. */
module TransactionRefinement {
  import opened Wrappers
  import opened Bytes
  import opened Framing
  import opened Transactions
  import TransactionFrames
  import TransactionProgress
  import Receiving
  import Sending

  // ---- Reading ----

  /** What the machine's reader makes of the rest of a stream once it has read got: its result and all it has read. */
  function ReadOn(p: Protocol, got: seq<Byte>, script: seq<Receiving.RecvResult>): (Code, seq<Byte>)
    decreases |Receiving.Stream(script)| + |script|
  {
    if Wanted(p, got).None? then (ResponseHeaderFailed, got)
    else if !WantsMore(p, got) then (Success, got)
    else if |script| == 0 then (ConnectionClosed, got)
    else match script[0]
      case Closed => (ConnectionClosed, got)
      case Failed => (SocketRecvFailed, got)
      case Interrupted => ReadOn(p, got, script[1..])
      case Data(c) =>
        var n := Wanted(p, got).value - |got|;
        if |c| <= n then ReadOn(p, got + c, script[1..])
        else
          CutStream(c, n, script[1..]);
          ReadOn(p, got + c[..n], [Receiving.Data(c[n..])] + script[1..])
  }

  lemma CutStream(c: seq<Byte>, n: nat, rest: seq<Receiving.RecvResult>)
    requires n < |c|
    ensures Receiving.Stream([Receiving.Data(c[n..])] + rest) == c[n..] + Receiving.Stream(rest)
    ensures Receiving.Ending([Receiving.Data(c[n..])] + rest) == Receiving.Ending(rest)
  {
    assert ([Receiving.Data(c[n..])] + rest)[1..] == rest;
  }

  /** A reader never has more than it wants. */
  predicate InHand(p: Protocol, got: seq<Byte>) { Wanted(p, got).Some? ==> |got| <= Wanted(p, got).value }

  /** What the stream decides: the frame at its head, or why there is none. */
  ghost predicate Decides(p: Protocol, stream: seq<Byte>, ending: Code, res: (Code, seq<Byte>))
  {
    if |stream| < HeaderSize(p) then res.0 == ending
    else match FrameSize(p, stream)
      case None => res.0.ResponseHeaderFailed?
      case Some(n) => if n <= |stream| then res == (Success, stream[..n]) else res.0 == ending
  }

  lemma {:induction false} ReadOnContract(p: Protocol, got: seq<Byte>, script: seq<Receiving.RecvResult>)
    requires InHand(p, got)
    ensures Decides(p, got + Receiving.Stream(script), Receiving.Ending(script), ReadOn(p, got, script))
    decreases |Receiving.Stream(script)| + |script|, 2
  {
    var stream := got + Receiving.Stream(script);
    Header(p, got, stream);
    if Wanted(p, got).Some? && WantsMore(p, got) {
      if |script| == 0 {
        assert stream == got;
      } else {
        ReadOnSteps(p, got, script);
      }
    }
  }

  /** Once the header is there it decides, whatever follows. */
  lemma Header(p: Protocol, got: seq<Byte>, stream: seq<Byte>)
    requires got <= stream
    ensures |got| >= HeaderSize(p) ==> FrameSize(p, got) == FrameSize(p, stream)
    ensures |got| < HeaderSize(p) ==> WantsMore(p, got)
  {
    if |got| >= HeaderSize(p) {
      assert stream[..|got|] == got;
      SizeFromHeader(p, stream, |got|);
    }
  }

  lemma ReadOnSteps(p: Protocol, got: seq<Byte>, script: seq<Receiving.RecvResult>)
    requires |script| > 0 && Wanted(p, got).Some? && WantsMore(p, got)
    ensures Decides(p, got + Receiving.Stream(script), Receiving.Ending(script), ReadOn(p, got, script))
    decreases |Receiving.Stream(script)| + |script|, 1
  {
    match script[0]
    case Closed => assert got + [] == got; Short(p, got);
    case Failed => assert got + [] == got; Short(p, got);
    case Interrupted => ReadOnContract(p, got, script[1..]);
    case Data(c) =>
      if |c| <= Wanted(p, got).value - |got| {
        ReadOnTakesAll(p, got, script, c);
      } else {
        ReadOnTakesPart(p, got, script, c);
      }
  }

  lemma ReadOnTakesAll(p: Protocol, got: seq<Byte>, script: seq<Receiving.RecvResult>, c: Receiving.Chunk)
    requires |script| > 0 && script[0] == Receiving.Data(c) && WantsMore(p, got) && |c| <= Wanted(p, got).value - |got|
    ensures Decides(p, got + Receiving.Stream(script), Receiving.Ending(script), ReadOn(p, got, script))
    decreases |Receiving.Stream(script)| + |script|, 0
  {
    var rest := Receiving.Stream(script[1..]);
    StillInHand(p, got, c);
    ReadOnContract(p, got + c, script[1..]);
    assert (got + c) + rest == got + (c + rest) == got + Receiving.Stream(script);
  }

  lemma ReadOnTakesPart(p: Protocol, got: seq<Byte>, script: seq<Receiving.RecvResult>, c: Receiving.Chunk)
    requires |script| > 0 && script[0] == Receiving.Data(c) && WantsMore(p, got) && |c| > Wanted(p, got).value - |got|
    ensures Decides(p, got + Receiving.Stream(script), Receiving.Ending(script), ReadOn(p, got, script))
    decreases |Receiving.Stream(script)| + |script|, 0
  {
    var n := Wanted(p, got).value - |got|;
    var later := [Receiving.Data(c[n..])] + script[1..];
    CutStream(c, n, script[1..]);
    PartOfStream(got, script, c, n, later);
    StillInHand(p, got, c[..n]);
    ReadOnContract(p, got + c[..n], later);
    assert ReadOn(p, got, script) == ReadOn(p, got + c[..n], later);
  }

  lemma PartOfStream(got: seq<Byte>, script: seq<Receiving.RecvResult>, c: Receiving.Chunk, n: nat,
                     later: seq<Receiving.RecvResult>)
    requires |script| > 0 && script[0] == Receiving.Data(c) && 0 < n < |c|
    requires later == [Receiving.Data(c[n..])] + script[1..]
    ensures (got + c[..n]) + Receiving.Stream(later) == got + Receiving.Stream(script)
    ensures Receiving.Ending(later) == Receiving.Ending(script)
    ensures |Receiving.Stream(later)| + |later| < |Receiving.Stream(script)| + |script|
  {
    CutStream(c, n, script[1..]);
    var front, back, rest := c[..n], c[n..], Receiving.Stream(script[1..]);
    Regroup(got, front, back, rest);
    assert front + back == c;
    assert Receiving.Stream(script) == c + rest;
    assert |c + rest| == |back + rest| + n;
  }

  lemma Regroup(a: seq<Byte>, b: seq<Byte>, c: seq<Byte>, d: seq<Byte>)
    ensures (a + b) + (c + d) == a + ((b + c) + d)
  {
  }

  lemma Short(p: Protocol, got: seq<Byte>)
    requires WantsMore(p, got)
    ensures |got| < HeaderSize(p) || (FrameSize(p, got).Some? && |got| < FrameSize(p, got).value)
  {
  }

  lemma StillInHand(p: Protocol, got: seq<Byte>, more: seq<Byte>)
    requires WantsMore(p, got) && |got| + |more| <= Wanted(p, got).value
    ensures InHand(p, got + more)
  {
    Header(p, got, got + more);
    if |got| < HeaderSize(p) <= |got + more| { assert |got + more| == HeaderSize(p); }
  }

  /** From the start of a response the machine's reader does what the sequential reader does. */
  lemma ReadsAsReadResponse(p: Protocol, script: seq<Receiving.RecvResult>)
    ensures var r := Receiving.ReadResponse(p, script, true);
            ReadOn(p, [], script).0 == r.code && (r.code.Success? ==> ReadOn(p, [], script).1 == r.frame)
  {
    ReadOnContract(p, [], script);
    assert [] + Receiving.Stream(script) == Receiving.Stream(script);
    Receiving.ExactFraming(p, script, true);
    FailsAsStreamEnds(p, script);
  }

  lemma FailsAsStreamEnds(p: Protocol, script: seq<Receiving.RecvResult>)
    ensures var r, s := Receiving.ReadResponse(p, script, true), Receiving.Stream(script);
            !r.code.Success? && !r.code.ResponseHeaderFailed? ==> r.code == Receiving.Ending(script)
  {
    Receiving.RecvExactContract(script, HeaderSize(p));
    var h := Receiving.RecvExact(script, HeaderSize(p));
    if h.code.Success? && FrameSize(p, h.got).Some? {
      Receiving.RecvExactContract(h.rest, FrameSize(p, h.got).value - HeaderSize(p));
    }
  }

  /** A receive of the machine is the head of a script for the reader. */
  lemma ReceiveRefines(s: State, t: nat, e: Event, s': State, rest: seq<Receiving.RecvResult>)
    requires t < |s.threads| && ReadStep(s, t, e) == Some(s') && e.RecvSome?
    ensures e.count <= |s.WireOf(s.threads[t].fd).toClient| && e.count > 0
    ensures var th, th' := s.threads[t], s'.threads[t];
            ReadOn(th.protocol, th.got, [Receiving.Data(s.WireOf(th.fd).toClient[..e.count])] + rest)
            == if th'.pc.Reading? then ReadOn(th'.protocol, th'.got, rest) else (th'.result, th'.got)
  {
    TransactionFrames.ReadSomeEffect(s, t, e, s');
    var th := s.threads[t];
    var c := s.WireOf(th.fd).toClient[..e.count];
    assert ([Receiving.Data(c)] + rest)[1..] == rest;
    DeliveredIsRead(th, c, rest);
  }

  lemma DeliveredIsRead(th: Thread, c: Receiving.Chunk, rest: seq<Receiving.RecvResult>)
    requires th.pc.Reading? && WantsMore(th.protocol, th.got) && |th.got| + |c| <= Wanted(th.protocol, th.got).value
    ensures var th' := AfterRead(th, th.got + c);
            ReadOn(th.protocol, th.got, [Receiving.Data(c)] + rest)
            == if th'.pc.Reading? then ReadOn(th'.protocol, th'.got, rest) else (th'.result, th'.got)
  {
    assert ([Receiving.Data(c)] + rest)[1..] == rest;
  }

  /** A receive of the machine that fails ends the read as that failure in a script does. */
  lemma FailedReceiveRefines(s: State, t: nat, e: Event, s': State, r: Receiving.RecvResult,
                             rest: seq<Receiving.RecvResult>)
    requires t < |s.threads| && ThreadStep(s, t, e) == Some(s') && s.threads[t].pc.Reading?
    requires WantsMore(s.threads[t].protocol, s.threads[t].got)
    requires (r.Closed? && e == RecvFailed(ConnectionClosed)) || (r.Failed? && e == RecvFailed(SocketRecvFailed))
    ensures var th, th' := s.threads[t], s'.threads[t];
            && th'.pc.FindWait? && th'.result == (if r.Closed? then ConnectionClosed else SocketRecvFailed)
            && ReadOn(th.protocol, th.got, [r] + rest) == (th'.result, th'.got)
  {
    assert ([r] + rest)[0] == r;
  }

  /** Without memory for the response the read ends as the sequential reader's does. */
  lemma NoMemoryRefines(s: State, t: nat, n: nat, s': State, script: seq<Receiving.RecvResult>)
    requires t < |s.threads| && s.threads[t].pc.Reading? && ThreadStep(s, t, NoMemory(n)) == Some(s')
    requires s'.threads[t].got <= Receiving.Stream(script)
    ensures n <= |s.WireOf(s.threads[t].fd).toClient|
    ensures var th, th' := s.threads[t], s'.threads[t];
            && th'.pc.FindWait? && th'.result.MallocFailed?
            && th'.got == th.got + s.WireOf(th.fd).toClient[..n]
            && Receiving.ReadResponse(th.protocol, script, false).code == th'.result
  {
    TransactionFrames.NoMemoryEffect(s, t, NoMemory(n), s');
    Header(s.threads[t].protocol, s'.threads[t].got, Receiving.Stream(script));
    Receiving.ExactFraming(s.threads[t].protocol, script, false);
  }

  /** Whatever a system call or the allocation of the response may return, the machine has the step for it. */
  lemma EveryOutcomeIsAStep(s: State, t: nat, n: nat)
    requires t < |s.threads|
    ensures var th, w := s.threads[t], s.WireOf(s.threads[t].fd);
            && (th.pc.Sending? ==>
                  && ThreadStep(s, t, SendInterrupted).Some? && ThreadStep(s, t, SendFailed).Some?
                  && (ThreadStep(s, t, SendSome(n)).Some? <==> 0 < n && th.offset + n <= |th.command|))
            && (th.pc.Reading? && WantsMore(th.protocol, th.got) ==>
                  && ThreadStep(s, t, RecvInterrupted).Some?
                  && ThreadStep(s, t, RecvFailed(ConnectionClosed)).Some?
                  && ThreadStep(s, t, RecvFailed(SocketRecvFailed)).Some?
                  && (ThreadStep(s, t, RecvSome(n)).Some? <==>
                        0 < n <= |w.toClient| && |th.got| + n <= Wanted(th.protocol, th.got).value)
                  && (ThreadStep(s, t, NoMemory(n)).Some? <==>
                        && 0 < n <= |w.toClient| && |th.got| + n == HeaderSize(th.protocol)
                        && FrameSize(th.protocol, th.got + w.toClient[..n]).Some?))
  {
  }

  // ---- Sending ----

  /** Whether the machine's send loops will succeed, and what is left of the script then. */
  function SendOn(th: Thread, script: seq<Sending.SendResult>): (bool, seq<Sending.SendResult>)
  {
    var n := |th.command|;
    if th.pc.Reading? || (th.pc.SendLeave? && th.sendOk) then (true, script)
    else if th.pc.FindWait? then (false, script)
    else if th.pc.Sending? && th.offset <= n then
      var w := Sending.WriteOnce(script, n - th.offset);
      if w.ok then (true, w.rest) else Tries(w.rest, n, TransactionProgress.WritesLeft(th))
    else Tries(script, n, TransactionProgress.WritesLeft(th))
  }

  function Tries(script: seq<Sending.SendResult>, n: nat, k: nat): (bool, seq<Sending.SendResult>)
  {
    var a := Sending.Try(script, n, k);
    (a.ok, a.rest)
  }

  /** From the first write on the machine's loops do what the sequential loops do. */
  lemma SendsAsTry(th: Thread, script: seq<Sending.SendResult>)
    requires th.pc.SendWait? && th.loops.writes == 0
    ensures SendOn(th, script) == Tries(script, |th.command|, Sending.Budget(th.loops.limit))
  {
  }

  /** The steps around the writes leave the outcome as it is. */
  lemma LoopRefines(s: State, t: nat, e: Event, s': State, script: seq<Sending.SendResult>)
    requires t < |s.threads| && TransactionProgress.Counted(s.threads[t]) && |s.threads[t].command| > 0
    requires RetryStep(s, t, e) == Some(s')
    ensures SendOn(s'.threads[t], script) == SendOn(s.threads[t], script)
  {
    var th := s.threads[t];
    match th.pc
    case SendWait => AttemptRefines(th, script);
    case SendLeave => AfterSendRefines(th, script);
    case Sleeping => assert TransactionProgress.WritesLeft(s'.threads[t]) == TransactionProgress.WritesLeft(th);
    case _ =>
  }

  lemma AttemptRefines(th: Thread, script: seq<Sending.SendResult>)
    requires th.pc.SendWait? && TransactionProgress.Counted(th) && |th.command| > 0
    ensures SendOn(th.(pc := Transactions.PC.Sending, offset := 0, loops := th.loops.(writes := th.loops.writes + 1)),
                   script)
            == SendOn(th, script)
  {
    var th' := th.(pc := Transactions.PC.Sending, offset := 0, loops := th.loops.(writes := th.loops.writes + 1));
    assert TransactionProgress.WritesLeft(th) == TransactionProgress.WritesLeft(th') + 1;
    assert Sending.WriteOutcome(script, |th.command|) == Sending.WriteOnce(script, |th.command|);
  }

  lemma AfterSendRefines(th: Thread, script: seq<Sending.SendResult>)
    requires th.pc.SendLeave? && TransactionProgress.Counted(th)
    ensures SendOn(AfterSend(th), script) == SendOn(th, script)
  {
    if !th.sendOk && AfterSend(th).pc.FindWait? { assert TransactionProgress.WritesLeft(th) == 0; }
  }

  /** What one send() of the machine is in a script. */
  ghost predicate Matches(e: Event, left: nat, r: Sending.SendResult)
  {
    match r
    case Accepts(more) => e.SendSome? && e.count == if more + 1 <= left then more + 1 else left
    case Interrupted => e.SendInterrupted?
    case Fails => e.SendFailed?
  }

  /** A send of the machine is the head of a script for the loops. */
  lemma SendRefines(s: State, t: nat, e: Event, s': State, r: Sending.SendResult, rest: seq<Sending.SendResult>)
    requires t < |s.threads| && SendStep(s, t, e) == Some(s') && s.threads[t].offset < |s.threads[t].command|
    requires Matches(e, |s.threads[t].command| - s.threads[t].offset, r)
    ensures SendOn(s.threads[t], [r] + rest) == SendOn(s'.threads[t], rest)
  {
    assert ([r] + rest)[1..] == rest;
    var th := s.threads[t];
    if r.Accepts? && th.offset + e.count == |th.command| { TransactionFrames.SendRestEffect(s, t, e, s'); }
    if r.Accepts? && th.offset + e.count < |th.command| { TransactionFrames.SendPartEffect(s, t, e, s'); }
  }
}
