/** Whatever else runs, every transaction ends as the call by itself would on what the system calls answered it. */
module TransactionOutcomes {
  import opened Wrappers
  import opened Bytes
  import opened Framing
  import opened Transactions
  import opened TransactionRefinement
  import TransactionFrames
  import TransactionLocks
  import TransactionPairing
  import TransactionProgress
  import TransactionStations
  import TransactionTheorems
  import LockTable
  import OneCall
  import Receiving
  import Sending

  // ---- What a transaction was answered ----

  /**
   * The retry count one transaction read, and what its sends and its receives returned, in order; memory is whether
   * the buffer for the response was allocated.
   */
  datatype Trace = Trace(retry: Option<int>, sends: seq<Sending.SendResult>, recvs: seq<Receiving.RecvResult>,
                         memory: bool)

  const NOTHING := Trace(None, [], [], true)

  /** One more event of the thread; arrived is what lies on the stream towards it. */
  function Extend(tr: Trace, e: Event, arrived: seq<Byte>): Trace
  {
    match e
    case BeginConnect(_, _) => NOTHING
    case BeginRequest(_, _) => NOTHING
    case Step => tr
    case Lookup(_) => tr
    case Config(n) => tr.(retry := Some(n))
    case SendSome(count) => tr.(sends := tr.sends + [Sending.Accepts(if count > 0 then count - 1 else 0)])
    case SendInterrupted => tr.(sends := tr.sends + [Sending.Interrupted])
    case SendFailed => tr.(sends := tr.sends + [Sending.Fails])
    case RecvSome(count) =>
      if 0 < count <= |arrived| then tr.(recvs := tr.recvs + [Receiving.Data(arrived[..count])]) else tr
    case RecvInterrupted => tr.(recvs := tr.recvs + [Receiving.Interrupted])
    case RecvFailed(code) =>
      if code.ConnectionClosed? then tr.(recvs := tr.recvs + [Receiving.Closed])
      else tr.(recvs := tr.recvs + [Receiving.Failed])
    case NoMemory(count) =>
      if 0 < count <= |arrived| then tr.(recvs := tr.recvs + [Receiving.Data(arrived[..count])], memory := false)
      else tr
  }

  /** What thread t was answered in a run since it last began a call. */
  function TraceOf(s: State, labels: seq<Label>, t: nat): Trace
    requires Run(s, labels).Some?
  {
    if |labels| == 0 then NOTHING
    else
      var front, l := labels[..|labels| - 1], labels[|labels| - 1];
      var m := Run(s, front).value;
      if l.Client? && l.thread == t && t < |m.threads| then
        Extend(TraceOf(s, front, t), l.event, m.WireOf(m.threads[t].fd).toClient)
      else TraceOf(s, front, t)
  }

  /** How many writes failed. */
  function Failures(sends: seq<Sending.SendResult>): nat
  {
    if |sends| == 0 then 0 else Failures(sends[..|sends| - 1]) + if sends[|sends| - 1].Fails? then 1 else 0
  }

  lemma FailuresAppend(sends: seq<Sending.SendResult>, r: Sending.SendResult)
    ensures Failures(sends + [r]) == Failures(sends) + if r.Fails? then 1 else 0
  {
    assert (sends + [r])[..|sends|] == sends;
  }

  /** No receive has failed yet. */
  predicate Quiet(recvs: seq<Receiving.RecvResult>)
  {
    forall i | 0 <= i < |recvs| :: recvs[i].Data? || recvs[i].Interrupted?
  }

  function Brought(r: Receiving.RecvResult): seq<Byte> { if r.Data? then r.chunk else [] }

  lemma {:induction false} StreamAppend(recvs: seq<Receiving.RecvResult>, r: Receiving.RecvResult)
    requires Quiet(recvs)
    ensures Receiving.Stream(recvs + [r]) == Receiving.Stream(recvs) + Brought(r)
    ensures r.Closed? ==> Receiving.Ending(recvs + [r]) == ConnectionClosed
    ensures r.Failed? ==> Receiving.Ending(recvs + [r]) == SocketRecvFailed
  {
    if |recvs| == 0 {
      assert recvs + [r] == [r];
      assert [r][1..] == [];
      assert Receiving.Stream([r]) == Brought(r);
    } else {
      assert (recvs + [r])[1..] == recvs[1..] + [r];
      StreamAppend(recvs[1..], r);
    }
  }

  // ---- The call while it goes on, and how it has ended ----

  /** The send loops, on what they were answered so far and whatever is to come, do as the machine will. */
  ghost predicate SendsFollow(th: Thread, sends: seq<Sending.SendResult>, limit: int)
  {
    forall rest: seq<Sending.SendResult> ::
      Tries(sends + rest, |th.command|, Sending.Budget(limit)) == SendOn(th, rest)
  }

  ghost predicate InSendLoop(th: Thread, tr: Trace)
  {
    && tr.retry == Some(th.loops.limit) && th.loops.limit >= 0 && tr.recvs == [] && tr.memory
    && SendsFollow(th, tr.sends, th.loops.limit)
    && (th.pc.SendLeave? && th.sendOk ==> th.got == [])
    && th.loops.writes == Failures(tr.sends) + if th.pc.Sending? || (th.pc.SendLeave? && th.sendOk) then 1 else 0
  }

  ghost predicate InRead(th: Thread, tr: Trace)
  {
    && HasSent(th, tr) && tr.memory && Quiet(tr.recvs) && Receiving.Stream(tr.recvs) == th.got
    && WantsMore(th.protocol, th.got)
  }

  /** The request went out on the last write, after fewer failures than there were tries. */
  predicate HasSent(th: Thread, tr: Trace)
  {
    && tr.retry.Some? && tr.retry.value >= 0
    && Tries(tr.sends, |th.command|, Sending.Budget(tr.retry.value)) == (true, [])
    && th.loops.writes == Failures(tr.sends) + 1 <= 3 * (tr.retry.value + 1)
  }

  /** No write succeeded, and all of them were used up. */
  predicate HasNotSent(th: Thread, tr: Trace)
  {
    && tr.retry.Some? && tr.recvs == [] && tr.memory
    && Tries(tr.sends, |th.command|, Sending.Budget(tr.retry.value)) == (false, [])
    && th.loops.writes == Failures(tr.sends) == if tr.retry.value < 0 then 0 else 3 * (tr.retry.value + 1)
  }

  /** The response reader on what it was answered. */
  function Read(th: Thread, tr: Trace): Receiving.Response
  {
    Receiving.ReadResponse(th.protocol, tr.recvs, tr.memory)
  }

  predicate HasRead(th: Thread, tr: Trace)
  {
    && HasSent(th, tr) && th.result == Read(th, tr).code && (th.result.Success? ==> th.got == Read(th, tr).frame)
    && (th.result.ConnectionClosed? <==> Receiving.Closed in tr.recvs)
    && (th.result.SocketRecvFailed? <==> Receiving.Failed in tr.recvs)
    && (th.result.MallocFailed? <==> !tr.memory)
  }

  /** The call got as far as its system calls. */
  predicate Ended(th: Thread, tr: Trace)
  {
    (th.result.SocketSendFailed? && HasNotSent(th, tr)) || HasRead(th, tr)
  }

  /** It was turned away before: bad descriptor, or no mutex to be had. */
  predicate TurnedAway(th: Thread, tr: Trace)
  {
    tr == NOTHING && if th.fd <= 0 then th.result.InvalidParameter? else th.result.Failed? && th.slot.None?
  }

  ghost predicate Follows(th: Thread, tr: Trace)
  {
    match th.pc
    case Idle | ConnectWait | ConnectNetwork | ConnectStation | ConnectLeave => true
    case PackWait | PackNetwork | PackStation | PackLeave => tr == NOTHING
    case TableWait | TableLookup | TableLeave | FdWait | GetConfig => tr == NOTHING && th.fd > 0
    case SendWait | Sending | SendLeave | Sleeping => th.fd > 0 && InSendLoop(th, tr)
    case Reading => th.fd > 0 && InRead(th, tr)
    case FindWait | FindSlot | FindLeave | Release => th.fd > 0 && Ended(th, tr)
    case Done => TurnedAway(th, tr) || (th.fd > 0 && Ended(th, tr))
  }

  // ---- Steps before the system calls ----

  lemma BeginFollows(s: State, t: nat, e: Event, s': State, tr: Trace)
    requires t < |s.threads| && BeginStep(s, t, e) == Some(s')
    ensures Follows(s'.threads[t], Extend(tr, e, []))
  {
  }

  lemma ConnectFollows(s: State, t: nat, e: Event, s': State, tr: Trace)
    requires t < |s.threads| && ConnectStep(s, t, e) == Some(s')
    ensures Follows(s'.threads[t], tr)
  {
    TransactionFrames.ConnectTouchesNothing(s, t, e, s');
  }

  /** The parameter check comes after packing. */
  lemma PackGoes(s: State, t: nat, e: Event, s': State)
    requires t < |s.threads| && PackStep(s, t, e) == Some(s')
    ensures var pc, th' := s.threads[t].pc, s'.threads[t];
            if !pc.PackLeave? then th'.pc.PackNetwork? || th'.pc.PackStation? || th'.pc.PackLeave?
            else if th'.fd <= 0 then th'.pc.Done? && th'.result.InvalidParameter?
            else th'.pc.TableWait?
  {
  }

  lemma PackFollows(s: State, t: nat, e: Event, s': State)
    requires t < |s.threads| && PackStep(s, t, e) == Some(s')
    ensures Follows(s'.threads[t], NOTHING)
  {
    PackGoes(s, t, e, s');
  }

  lemma LookupGoes(s: State, t: nat, e: Event, s': State)
    requires t < |s.threads| && LookupStep(s, t, e) == Some(s')
    ensures var pc, th' := s.threads[t].pc, s'.threads[t];
            th'.fd == s.threads[t].fd
            && if !pc.TableLeave? then th'.pc.TableLookup? || th'.pc.TableLeave?
               else if th'.slot.None? then th'.pc.Done? && th'.result.Failed?
               else th'.pc.FdWait?
  {
  }

  lemma LookupFollows(s: State, t: nat, e: Event, s': State)
    requires t < |s.threads| && s.threads[t].fd > 0 && LookupStep(s, t, e) == Some(s')
    ensures Follows(s'.threads[t], NOTHING)
  {
    LookupGoes(s, t, e, s');
  }

  /** The lookup of the machine answers a mutex exactly when that of the call by itself does. */
  lemma LookupRefines(s: State, t: nat, initOk: bool, s': State)
    requires Reachable(s) && t < |s.threads| && s.threads[t].pc.TableLookup?
    requires ThreadStep(s, t, Lookup(initOk)) == Some(s')
    ensures t < |s'.threads|
    ensures var th, slot := s.threads[t], s'.threads[t].slot;
            && (slot.Some? <==> OneCall.GetsMutex(s.tables.Get(th.protocol), th.fd, initOk))
            && (slot.Some? ==> LockTable.Find(s'.tables.Get(th.protocol), th.fd) == slot)
  {
    TransactionTheorems.ReachableInv(s);
    var th := s.threads[t];
    var table := s.tables.Get(th.protocol);
    var r := LockTable.GetOrCreate(table, th.fd, initOk);
    LockTable.LookupContract(table, th.fd, initOk, r.0, r.1);
  }

  lemma EnterFollows(s: State, t: nat, e: Event, s': State)
    requires t < |s.threads| && s.threads[t].fd > 0 && s.threads[t].pc.FdWait? && FdStep(s, t, e) == Some(s')
    ensures Follows(s'.threads[t], NOTHING)
  {
  }

  /** The send loops start with all the writes that the configured retry count allows. */
  lemma ConfigRefines(s: State, t: nat, n: int, s': State)
    requires t < |s.threads| && s.threads[t].pc.GetConfig? && ThreadStep(s, t, Config(n)) == Some(s')
    ensures s'.threads[t].command == s.threads[t].command
    ensures n < 0 ==> s'.threads[t].pc.FindWait? && s'.threads[t].result.SocketSendFailed?
    ensures n >= 0 ==> s'.threads[t].pc.SendWait?
    ensures forall script: seq<Sending.SendResult> ::
              SendOn(s'.threads[t], script) == Tries(script, |s.threads[t].command|, Sending.Budget(n))
  {
  }

  lemma ConfigFollows(s: State, t: nat, n: int, s': State)
    requires t < |s.threads| && s.threads[t].fd > 0 && s.threads[t].pc.GetConfig?
    requires ThreadStep(s, t, Config(n)) == Some(s')
    ensures Follows(s'.threads[t], NOTHING.(retry := Some(n)))
  {
    ConfigRefines(s, t, n, s');
    var th := s'.threads[t];
    if n >= 0 {
      forall rest: seq<Sending.SendResult>
        ensures Tries([] + rest, |th.command|, Sending.Budget(n)) == SendOn(th, rest)
      {
        assert [] + rest == rest;
      }
    }
  }

  // ---- The send loops ----

  lemma LoopFollows(th: Thread, tr: Trace, th': Thread)
    requires InSendLoop(th, tr) && th'.command == th.command && th'.loops.limit == th.loops.limit
    requires forall rest: seq<Sending.SendResult> :: SendOn(th', rest) == SendOn(th, rest)
    ensures SendsFollow(th', tr.sends, th'.loops.limit)
  {
  }

  lemma AttemptFollows(s: State, t: nat, e: Event, s': State, tr: Trace)
    requires t < |s.threads| && TransactionProgress.Counted(s.threads[t]) && |s.threads[t].command| > 0
    requires s.threads[t].pc.SendWait? || s.threads[t].pc.Sleeping?
    requires InSendLoop(s.threads[t], tr) && RetryStep(s, t, e) == Some(s')
    ensures InSendLoop(s'.threads[t], tr) && (s'.threads[t].pc.Sending? || s'.threads[t].pc.SendWait?)
    ensures s'.threads[t].fd == s.threads[t].fd
  {
    var th := s.threads[t];
    forall rest: seq<Sending.SendResult> ensures SendOn(s'.threads[t], rest) == SendOn(th, rest) {
      LoopRefines(s, t, e, s', rest);
    }
    LoopFollows(th, tr, s'.threads[t]);
  }

  lemma AfterSendFollows(th: Thread, tr: Trace)
    requires th.fd > 0 && th.pc.SendLeave? && TransactionProgress.Counted(th) && InSendLoop(th, tr)
    requires WantsMore(th.protocol, [])
    ensures Follows(AfterSend(th), tr)
  {
    forall rest: seq<Sending.SendResult> ensures SendOn(AfterSend(th), rest) == SendOn(th, rest) {
      AfterSendRefines(th, rest);
    }
    assert tr.sends + [] == tr.sends;
    assert Tries(tr.sends + [], |th.command|, Sending.Budget(th.loops.limit)) == SendOn(th, []);
    LoopFollows(th, tr, AfterSend(th));
  }

  /** What one send() returned. */
  function Returned(e: Event): Sending.SendResult
    requires e.SendSome? || e.SendInterrupted? || e.SendFailed?
  {
    if e.SendSome? then Sending.Accepts(if e.count > 0 then e.count - 1 else 0)
    else if e.SendInterrupted? then Sending.Interrupted
    else Sending.Fails
  }

  lemma SendGoes(s: State, t: nat, e: Event, s': State)
    requires t < |s.threads| && s.threads[t].offset < |s.threads[t].command| && SendStep(s, t, e) == Some(s')
    ensures e.SendSome? || e.SendInterrupted? || e.SendFailed?
    ensures Matches(e, |s.threads[t].command| - s.threads[t].offset, Returned(e))
    ensures var th, th' := s.threads[t], s'.threads[t];
            && th'.fd == th.fd && th'.command == th.command && th'.loops == th.loops
            && if e.SendFailed? then th'.pc.SendLeave? && !th'.sendOk
               else th'.pc.Sending? || (th'.pc.SendLeave? && th'.sendOk && th'.got == [])
  {
  }

  lemma SendsFollowOn(th: Thread, sends: seq<Sending.SendResult>, r: Sending.SendResult, th': Thread)
    requires SendsFollow(th, sends, th.loops.limit) && th'.command == th.command && th'.loops == th.loops
    requires forall rest: seq<Sending.SendResult> :: SendOn(th, [r] + rest) == SendOn(th', rest)
    ensures SendsFollow(th', sends + [r], th'.loops.limit)
  {
    forall rest: seq<Sending.SendResult>
      ensures Tries(sends + [r] + rest, |th'.command|, Sending.Budget(th'.loops.limit)) == SendOn(th', rest)
    {
      assert sends + [r] + rest == sends + ([r] + rest);
      assert SendOn(th, [r] + rest) == SendOn(th', rest);
    }
  }

  lemma SendFollows(s: State, t: nat, e: Event, s': State, tr: Trace)
    requires t < |s.threads| && s.threads[t].pc.Sending? && s.threads[t].offset < |s.threads[t].command|
    requires InSendLoop(s.threads[t], tr) && SendStep(s, t, e) == Some(s')
    ensures e.SendSome? || e.SendInterrupted? || e.SendFailed?
    ensures InSendLoop(s'.threads[t], tr.(sends := tr.sends + [Returned(e)]))
  {
    var th, th' := s.threads[t], s'.threads[t];
    SendGoes(s, t, e, s');
    var r := Returned(e);
    FailuresAppend(tr.sends, r);
    forall rest: seq<Sending.SendResult> ensures SendOn(th, [r] + rest) == SendOn(th', rest) {
      SendRefines(s, t, e, s', r, rest);
    }
    SendsFollowOn(th, tr.sends, r, th');
  }

  // ---- The read ----

  /** A receive brings bytes; the read goes on, or ends with a frame or a header it rejects. */
  lemma ReceiveFollows(th: Thread, tr: Trace, c: Receiving.Chunk)
    requires th.fd > 0 && th.pc.Reading? && InRead(th, tr)
    requires |th.got| + |c| <= Wanted(th.protocol, th.got).value
    ensures Follows(AfterRead(th, th.got + c), tr.(recvs := tr.recvs + [Receiving.Data(c)]))
  {
    var recvs := tr.recvs + [Receiving.Data(c)];
    StreamAppend(tr.recvs, Receiving.Data(c));
    StillInHand(th.protocol, th.got, c);
    Receiving.ExactFraming(th.protocol, recvs, true);
    NothingLost(th, tr.(recvs := recvs));
    if !WantsMore(th.protocol, th.got + c) { WholeFrame(th.protocol, recvs, th.got + c); }
  }

  lemma NothingLost(th: Thread, tr: Trace)
    requires Quiet(tr.recvs)
    ensures Receiving.Closed !in tr.recvs && Receiving.Failed !in tr.recvs
  {
  }

  lemma WholeFrame(p: Protocol, recvs: seq<Receiving.RecvResult>, got: seq<Byte>)
    requires Receiving.Stream(recvs) == got && InHand(p, got) && !WantsMore(p, got)
    ensures var r := Receiving.ReadResponse(p, recvs, true);
            if Wanted(p, got).None? then r.code.ResponseHeaderFailed? else r.code.Success? && r.frame == got
  {
    Receiving.ExactFraming(p, recvs, true);
    if Wanted(p, got).Some? { assert got[..|got|] == got; }
  }

  lemma InterruptionFollows(th: Thread, tr: Trace)
    requires th.pc.Reading? && InRead(th, tr)
    ensures InRead(th, tr.(recvs := tr.recvs + [Receiving.Interrupted]))
  {
    StreamAppend(tr.recvs, Receiving.Interrupted);
  }

  /** The reader on receives that were quiet until the last one failed. */
  lemma ReadEndsWith(p: Protocol, recvs: seq<Receiving.RecvResult>, got: seq<Byte>, r: Receiving.RecvResult)
    requires Quiet(recvs) && Receiving.Stream(recvs) == got && WantsMore(p, got) && (r.Closed? || r.Failed?)
    ensures Receiving.ReadResponse(p, recvs + [r], true).code
            == if r.Closed? then ConnectionClosed else SocketRecvFailed
  {
    StreamAppend(recvs, r);
    Receiving.ExactFraming(p, recvs + [r], true);
    FailsAsStreamEnds(p, recvs + [r]);
  }

  lemma LastFailure(recvs: seq<Receiving.RecvResult>, r: Receiving.RecvResult)
    requires Quiet(recvs) && (r.Closed? || r.Failed?)
    ensures Receiving.Closed in recvs + [r] <==> r.Closed?
    ensures Receiving.Failed in recvs + [r] <==> r.Failed?
  {
    assert (recvs + [r])[|recvs|] == r;
  }

  lemma FailureFollows(th: Thread, tr: Trace, code: Code)
    requires th.fd > 0 && th.pc.Reading? && InRead(th, tr)
    requires code.ConnectionClosed? || code.SocketRecvFailed?
    ensures HasRead(th.(pc := FindWait, result := code), Extend(tr, RecvFailed(code), []))
  {
    var r := if code.ConnectionClosed? then Receiving.Closed else Receiving.Failed;
    ReadEndsWith(th.protocol, tr.recvs, th.got, r);
    LastFailure(tr.recvs, r);
  }

  lemma NoMemoryFollows(th: Thread, tr: Trace, c: Receiving.Chunk)
    requires th.fd > 0 && th.pc.Reading? && InRead(th, tr) && EndsHeader(th, th.got + c)
    ensures HasRead(th.(pc := FindWait, got := th.got + c, result := MallocFailed),
                    tr.(recvs := tr.recvs + [Receiving.Data(c)], memory := false))
  {
    var recvs := tr.recvs + [Receiving.Data(c)];
    StreamAppend(tr.recvs, Receiving.Data(c));
    NothingLost(th, tr.(recvs := recvs));
    Receiving.ExactFraming(th.protocol, recvs, false);
  }

  lemma ReadSomeFollows(s: State, t: nat, e: Event, s': State, tr: Trace)
    requires t < |s.threads| && s.threads[t].fd > 0 && InRead(s.threads[t], tr) && ReadStep(s, t, e) == Some(s')
    requires e.RecvSome?
    ensures Follows(s'.threads[t], Extend(tr, e, s.WireOf(s.threads[t].fd).toClient))
  {
    var th := s.threads[t];
    TransactionFrames.ReadSomeEffect(s, t, e, s');
    ReceiveFollows(th, tr, s.WireOf(th.fd).toClient[..e.count]);
  }

  lemma FailedReadGoes(s: State, t: nat, e: Event, s': State)
    requires t < |s.threads| && ReadStep(s, t, e) == Some(s') && !e.RecvSome? && !e.NoMemory?
    ensures s.threads[t].pc.Reading? && (e.RecvInterrupted? || e.RecvFailed?)
    ensures e.RecvInterrupted? ==> s' == s
    ensures e.RecvFailed? ==>
              s'.threads[t] == s.threads[t].(pc := FindWait, result := e.code)
              && (e.code.ConnectionClosed? || e.code.SocketRecvFailed?)
  {
  }

  lemma NoMemoryStepFollows(s: State, t: nat, e: Event, s': State, tr: Trace)
    requires t < |s.threads| == |s'.threads| && s.threads[t].fd > 0 && InRead(s.threads[t], tr) && e.NoMemory?
    requires ReadStep(s, t, e) == Some(s')
    ensures Follows(s'.threads[t], Extend(tr, e, s.WireOf(s.threads[t].fd).toClient))
  {
    TransactionFrames.NoMemoryEffect(s, t, e, s');
    NoMemoryFollows(s.threads[t], tr, s.WireOf(s.threads[t].fd).toClient[..e.count]);
  }

  lemma OtherReadFollows(s: State, t: nat, e: Event, s': State, tr: Trace)
    requires t < |s.threads| == |s'.threads| && s.threads[t].fd > 0 && InRead(s.threads[t], tr)
    requires ReadStep(s, t, e) == Some(s') && !e.RecvSome? && !e.NoMemory?
    ensures Follows(s'.threads[t], Extend(tr, e, s.WireOf(s.threads[t].fd).toClient))
  {
    FailedReadGoes(s, t, e, s');
    if e.RecvInterrupted? {
      InterruptionFollows(s.threads[t], tr);
    } else {
      FailureFollows(s.threads[t], tr, e.code);
    }
  }

  lemma ReadFollows(s: State, t: nat, e: Event, s': State, tr: Trace)
    requires t < |s.threads| == |s'.threads| && s.threads[t].fd > 0 && InRead(s.threads[t], tr)
    requires ReadStep(s, t, e) == Some(s')
    ensures Follows(s'.threads[t], Extend(tr, e, s.WireOf(s.threads[t].fd).toClient))
  {
    if e.RecvSome? {
      ReadSomeFollows(s, t, e, s', tr);
    } else if e.NoMemory? {
      NoMemoryStepFollows(s, t, e, s', tr);
    } else {
      OtherReadFollows(s, t, e, s', tr);
    }
  }

  // ---- The way out ----

  /** The release changes neither the code nor the response, since its lookup cannot fail. */
  lemma UnlockFollows(s: State, t: nat, e: Event, s': State, tr: Trace)
    requires t < |s.threads| && s.threads[t].fd > 0 && Ended(s.threads[t], tr) && UnlockStep(s, t, e) == Some(s')
    requires TransactionLocks.ThreadLocks(s, t)
    ensures Follows(s'.threads[t], tr)
  {
    UnlockKeepsResult(s, t, e, s');
  }

  lemma UnlockKeepsResult(s: State, t: nat, e: Event, s': State)
    requires t < |s.threads| && UnlockStep(s, t, e) == Some(s') && TransactionLocks.ThreadLocks(s, t)
    ensures var th, th' := s.threads[t], s'.threads[t];
            && th' == th.(pc := th'.pc, found := th'.found)
            && (th'.pc.FindSlot? || th'.pc.FindLeave? || th'.pc.Release? || th'.pc.Done?)
  {
  }

  // ---- Every step, every run ----

  lemma OutsiderFollows(s: State, t: nat, e: Event, s': State, tr: Trace)
    requires t < |s.threads| == |s'.threads| && !HoldsFd(s.threads[t].pc) && Follows(s.threads[t], tr)
    requires ThreadStep(s, t, e) == Some(s')
    ensures Follows(s'.threads[t], Extend(tr, e, s.WireOf(s.threads[t].fd).toClient))
  {
    match s.threads[t].pc
    case Idle | Done => BeginFollows(s, t, e, s', tr);
    case ConnectWait | ConnectNetwork | ConnectStation | ConnectLeave => ConnectFollows(s, t, e, s', tr);
    case PackWait | PackNetwork | PackStation | PackLeave => PackFollows(s, t, e, s');
    case TableWait | TableLookup | TableLeave => LookupFollows(s, t, e, s');
    case FdWait => EnterFollows(s, t, e, s');
  }

  lemma SenderFollows(s: State, t: nat, e: Event, s': State, tr: Trace)
    requires t < |s.threads| && Follows(s.threads[t], tr) && ThreadStep(s, t, e) == Some(s')
    requires var pc := s.threads[t].pc; pc.SendWait? || pc.Sleeping? || pc.SendLeave?
    requires TransactionProgress.Counted(s.threads[t]) && |s.threads[t].command| > 0
    ensures Follows(s'.threads[t], tr)
  {
    if s.threads[t].pc.SendLeave? {
      TransactionFrames.AfterSendTouchesNothing(s, t, e, s');
      AfterSendFollows(s.threads[t], tr);
    } else {
      AttemptFollows(s, t, e, s', tr);
    }
  }

  lemma OnlySteps(s: State, t: nat, e: Event, s': State, tr: Trace, arrived: seq<Byte>)
    requires t < |s.threads| && (RetryStep(s, t, e) == Some(s') || UnlockStep(s, t, e) == Some(s'))
    ensures Extend(tr, e, arrived) == tr
  {
  }

  lemma ExtendBySend(tr: Trace, e: Event, arrived: seq<Byte>)
    requires e.SendSome? || e.SendInterrupted? || e.SendFailed?
    ensures Extend(tr, e, arrived) == tr.(sends := tr.sends + [Returned(e)])
  {
  }

  lemma WriterFollows(s: State, t: nat, e: Event, s': State, tr: Trace)
    requires t < |s.threads| == |s'.threads| && s.threads[t].pc.Sending? && Follows(s.threads[t], tr)
    requires SendStep(s, t, e) == Some(s') && s.threads[t].offset < |s.threads[t].command|
    ensures Follows(s'.threads[t], Extend(tr, e, s.WireOf(s.threads[t].fd).toClient))
  {
    SendFollows(s, t, e, s', tr);
    SendGoes(s, t, e, s');
    ExtendBySend(tr, e, s.WireOf(s.threads[t].fd).toClient);
    InLoopFollows(s'.threads[t], tr.(sends := tr.sends + [Returned(e)]));
  }

  lemma InLoopFollows(th: Thread, tr: Trace)
    requires th.fd > 0 && (th.pc.Sending? || th.pc.SendLeave?) && InSendLoop(th, tr)
    ensures Follows(th, tr)
  {
  }

  lemma ReaderOfConfigFollows(s: State, t: nat, e: Event, s': State, tr: Trace)
    requires t < |s.threads| && s.threads[t].pc.GetConfig? && Follows(s.threads[t], tr)
    requires ThreadStep(s, t, e) == Some(s')
    ensures Follows(s'.threads[t], Extend(tr, e, s.WireOf(s.threads[t].fd).toClient))
  {
    ConfigFollows(s, t, e.retry, s');
  }

  lemma TransferFollows(s: State, t: nat, e: Event, s': State, tr: Trace)
    requires t < |s.threads| == |s'.threads| && (s.threads[t].pc.Sending? || s.threads[t].pc.Reading?)
    requires Follows(s.threads[t], tr) && ThreadStep(s, t, e) == Some(s')
    requires s.threads[t].pc.Sending? ==> s.threads[t].offset < |s.threads[t].command|
    ensures Follows(s'.threads[t], Extend(tr, e, s.WireOf(s.threads[t].fd).toClient))
  {
    if s.threads[t].pc.Sending? {
      WriterFollows(s, t, e, s', tr);
    } else {
      ReadFollows(s, t, e, s', tr);
    }
  }

  lemma LeaverFollows(s: State, t: nat, e: Event, s': State, tr: Trace)
    requires t < |s.threads| && TransactionPairing.Leaving(s.threads[t].pc) && Follows(s.threads[t], tr)
    requires UnlockStep(s, t, e) == Some(s') && TransactionLocks.ThreadLocks(s, t)
    ensures Follows(s'.threads[t], tr)
  {
    UnlockFollows(s, t, e, s', tr);
  }

  lemma HolderFollows(s: State, t: nat, e: Event, s': State, tr: Trace, th: Thread, arrived: seq<Byte>)
    requires t < |s.threads| == |s'.threads| && s.threads[t] == th && s.WireOf(th.fd).toClient == arrived
    requires HoldsFd(th.pc) && TransactionProgress.Counted(th) && TransactionLocks.ThreadLocks(s, t)
    requires |th.command| > 0 && (th.pc.Sending? ==> th.offset < |th.command|)
    requires ThreadStep(s, t, e) == Some(s') && Follows(th, tr)
    ensures Follows(s'.threads[t], Extend(tr, e, arrived))
  {
    match th.pc
    case GetConfig => ReaderOfConfigFollows(s, t, e, s', tr);
    case SendWait | Sleeping | SendLeave =>
      OnlySteps(s, t, e, s', tr, arrived);
      SenderFollows(s, t, e, s', tr);
    case Sending | Reading => TransferFollows(s, t, e, s', tr);
    case FindWait | FindSlot | FindLeave | Release =>
      OnlySteps(s, t, e, s', tr, arrived);
      LeaverFollows(s, t, e, s', tr);
  }

  lemma StepFollows(s: State, l: Label, s': State, t: nat, tr: Trace)
    requires Reachable(s) && Next(s, l) == Some(s') && t < |s.threads| && Follows(s.threads[t], tr)
    ensures t < |s'.threads|
    ensures Follows(s'.threads[t], if l.Client? && l.thread == t
                                   then Extend(tr, l.event, s.WireOf(s.threads[t].fd).toClient) else tr)
  {
    TransactionFrames.OnlyThread(s, l, s');
    if l.Client? && l.thread == t {
      TransactionTheorems.ReachableInv(s);
      TransactionProgress.ReachableCounted(s);
      assert TransactionLocks.ThreadLocks(s, t) && TransactionPairing.ThreadWire(s, t);
      assert TransactionProgress.Counted(s.threads[t]);
      if HoldsFd(s.threads[t].pc) {
        TransactionPairing.CommandIsFrame(s, t);
        HolderFollows(s, t, l.event, s', tr, s.threads[t], s.WireOf(s.threads[t].fd).toClient);
      } else {
        OutsiderFollows(s, t, l.event, s', tr);
      }
    }
  }

  lemma {:induction false} RunFollows(s0: State, labels: seq<Label>, s: State, t: nat)
    requires Initial(s0) && Run(s0, labels) == Some(s) && t < |s.threads|
    ensures Reachable(s) && Follows(s.threads[t], TraceOf(s0, labels, t))
  {
    assert Reachable(s);
    if |labels| > 0 {
      var front, l := labels[..|labels| - 1], labels[|labels| - 1];
      var m := Run(s0, front).value;
      TransactionFrames.OnlyThread(m, l, s);
      RunFollows(s0, front, m, t);
      StepFollows(m, l, s, t, TraceOf(s0, front, t));
    }
  }

  // ---- The theorems ----

  /**
   * Every transaction is the call by itself. In every interleaving, when a transaction that was not turned away
   * returns, its code and its response are those that the sequential retry loops and the sequential reader give on
   * what its own system calls returned, with the retry count it read; and it used up just those sends.
   */
  lemma CallIsSequential(s0: State, labels: seq<Label>, s: State, t: nat)
    requires Initial(s0) && Run(s0, labels) == Some(s) && t < |s.threads| && s.threads[t].pc.Done?
    ensures var th, tr := s.threads[t], TraceOf(s0, labels, t);
            if tr.retry.None?
            then th.result == (if th.fd <= 0 then InvalidParameter else Failed)
            else
              var a := Sending.Try(tr.sends, |th.command|, Sending.Budget(tr.retry.value));
              var r := Receiving.ReadResponse(th.protocol, tr.recvs, tr.memory);
              && th.fd > 0 && a.rest == []
              && th.result == (if a.ok then r.code else SocketSendFailed)
              && (th.result.Success? ==> th.got == r.frame)
              && (!a.ok ==> tr.recvs == [])
  {
    RunFollows(s0, labels, s, t);
  }

  /**
   * What each code tells. SOCKET_SEND_FAILED: all writes that the retry count of this call allows were made, and all
   * failed. The codes of a failed read: that very failure happened, after the request was sent.
   */
  lemma CodesTellWhatHappened(s0: State, labels: seq<Label>, s: State, t: nat)
    requires Initial(s0) && Run(s0, labels) == Some(s) && t < |s.threads| && s.threads[t].pc.Done?
    ensures var th, tr := s.threads[t], TraceOf(s0, labels, t);
            && (th.result.InvalidParameter? <==> th.fd <= 0)
            && (th.result.Failed? <==> th.fd > 0 && tr.retry.None?)
            && (tr.retry.Some? ==>
                  var n, failed := tr.retry.value, Failures(tr.sends);
                  && (th.result.SocketSendFailed? <==> failed == if n < 0 then 0 else 3 * (n + 1))
                  && th.loops.writes == failed + if th.result.SocketSendFailed? then 0 else 1)
            && (th.result.ConnectionClosed? <==> Receiving.Closed in tr.recvs)
            && (th.result.SocketRecvFailed? <==> Receiving.Failed in tr.recvs)
            && (th.result.MallocFailed? <==> !tr.memory)
  {
    RunFollows(s0, labels, s, t);
    OnlyReaderCodes(s.threads[t], TraceOf(s0, labels, t));
  }

  /** The reader has no other codes. */
  lemma OnlyReaderCodes(th: Thread, tr: Trace)
    ensures var c := Read(th, tr).code;
            !c.InvalidParameter? && !c.Failed? && !c.SocketSendFailed?
  {
    Receiving.ExactFraming(th.protocol, tr.recvs, tr.memory);
    FailsAsStreamEnds(th.protocol, tr.recvs);
  }
}
