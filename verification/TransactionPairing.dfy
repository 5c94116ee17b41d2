/** Responses never interleave: which answer every successful transaction gets, on every stream that is not garbled. */
module TransactionPairing {
  import opened Wrappers
  import opened Bytes
  import opened Framing
  import opened Transactions
  import opened TransactionFrames
  import opened TransactionLocks
  import opened TransactionStations
  import LockTable

  function Commands(sent: seq<Sent>): seq<Byte>
  {
    if |sent| == 0 then [] else sent[0].command + Commands(sent[1..])
  }

  function Answers(served: seq<Exchange>): seq<Byte>
  {
    if |served| == 0 then [] else served[0].response + Answers(served[1..])
  }

  lemma {:induction false} CommandsAppend(sent: seq<Sent>, x: Sent)
    ensures Commands(sent + [x]) == Commands(sent) + x.command
  {
    if |sent| == 0 {
      assert Commands([x]) == x.command + Commands([x][1..]);
    } else {
      CommandsAppend(sent[1..], x);
      assert (sent + [x])[1..] == sent[1..] + [x];
    }
  }

  lemma {:induction false} AnswersAppend(served: seq<Exchange>, x: Exchange)
    ensures Answers(served + [x]) == Answers(served) + x.response
  {
    if |served| == 0 {
      assert Answers([x]) == x.response + Answers([x][1..]);
    } else {
      AnswersAppend(served[1..], x);
      assert (served + [x])[1..] == served[1..] + [x];
    }
  }

  // ---- What is under way ----

  /**
   * The first k answers have been read. Towards the PLC there are the requests it has yet to take, then part of
   * one more; towards the client there are the other answers, of the first of which got has been read.
   */
  ghost predicate Flow(w: Wire, part: seq<Byte>, got: seq<Byte>, k: int)
  {
    && 0 <= k <= |w.served| <= |w.sent|
    && w.toPlc == Commands(w.sent[|w.served|..]) + part
    && got + w.toClient == Answers(w.served[k..])
  }

  /** Every request sent whole and every answer is one frame. */
  ghost predicate Framed(w: Wire, p: Protocol)
  {
    && (forall i | 0 <= i < |w.sent| :: IsFrame(p, w.sent[i].command))
    && (forall i | 0 <= i < |w.served| :: IsFrame(p, w.served[i].response))
  }

  /** The request of this thread has been sent whole and its answer has not been read. */
  predicate Asked(th: Thread) { th.pc.Reading? || (th.pc.SendLeave? && th.sendOk) }

  function PartSent(th: Thread): seq<Byte>
  {
    if th.pc.Sending? && th.offset <= |th.command| then th.command[..th.offset] else []
  }

  function PartRead(th: Thread): seq<Byte> { if Asked(th) then th.got else [] }

  /** How many answers have been read: one for each request sent, but for the late ones and this thread's own. */
  function AnswersRead(w: Wire, th: Thread): int { |w.sent| - w.late - if Asked(th) then 1 else 0 }

  /** The stream while thread u holds the connection. */
  ghost predicate Phase(w: Wire, u: nat, th: Thread)
  {
    && Flow(w, PartSent(th), PartRead(th), AnswersRead(w, th))
    && (Asked(th) ==> |w.sent| == th.past.index + 1 && w.sent[th.past.index] == Sent(u, th.serial, th.command))
    && (th.pc.SendLeave? && th.sendOk ==> th.got == [])
    && (th.pc.Reading? ==> WantsMore(th.protocol, th.got))
  }

  /** The stream while nobody holds the connection. */
  ghost predicate Resting(w: Wire) { Flow(w, [], [], |w.sent| - w.late) }

  /** The PLC has answered the requests in the order they were sent. */
  ghost predicate InOrder(w: Wire)
  {
    |w.served| <= |w.sent| && forall i | 0 <= i < |w.served| :: w.served[i].request == w.sent[i].command
  }

  /** The transaction is decided and the mutex not yet released. */
  predicate Leaving(pc: PC) { pc.FindWait? || pc.FindSlot? || pc.FindLeave? || pc.Release? }

  predicate Returned(th: Thread) { th.result.Success? && th.past.Intact() && (Leaving(th.pc) || th.pc.Done?) }

  /** What holds of a thread and the stream of its connection. */
  ghost predicate Fits(w: Wire, u: nat, th: Thread)
  {
    && (th.pc.Sending? ==> th.offset < |th.command|)
    && (HoldsFd(th.pc) && !w.garbled ==> Phase(w, u, th))
    && (HoldsFd(th.pc) && !Leaving(th.pc) ==> th.past.Intact() == !w.garbled && th.past.late == w.late)
    && (Returned(th) ==> HoldsAnswer(w, u, th))
  }

  ghost predicate ThreadWire(s: State, u: nat)
    requires u < |s.threads|
  {
    Fits(s.WireOf(s.threads[u].fd), u, s.threads[u])
  }

  ghost predicate Held(s: State, fd: int)
  {
    exists u :: 0 <= u < |s.threads| && HoldsFd(s.threads[u].pc) && s.threads[u].fd == fd
  }

  ghost predicate FdWire(s: State, fd: int)
  {
    var w := s.WireOf(fd);
    Framed(w, s.ProtocolOf(fd)) && (!w.garbled ==> InOrder(w) && (Resting(w) || Held(s, fd)))
  }

  ghost predicate WireInv(s: State)
  {
    && (forall u | 0 <= u < |s.threads| :: ThreadWire(s, u))
    && (forall fd :: FdWire(s, fd))
  }

  ghost predicate Grows(w: Wire, w': Wire)
  {
    && w.sent <= w'.sent && w.served <= w'.served
    && (w.garbled ==> w'.garbled) && w.late <= w'.late && (w.torn ==> w'.torn)
  }

  // ---- Frames of the invariant ----

  /** A step that touches no connection. */
  lemma WiresUntouched(s: State, t: nat, s': State)
    requires WireInv(s) && t < |s.threads| == |s'.threads|
    requires s'.threads == s.threads[t := s'.threads[t]] && s'.wires == s.wires && s'.asciiFds == s.asciiFds
    requires ThreadWire(s', t)
    requires HoldsFd(s.threads[t].pc) ==>
               s'.threads[t].fd == s.threads[t].fd
               && (HoldsFd(s'.threads[t].pc) || s.WireOf(s.threads[t].fd).garbled || Resting(s.WireOf(s.threads[t].fd)))
    ensures WireInv(s')
  {
    forall u | 0 <= u < |s'.threads| ensures ThreadWire(s', u) { assert ThreadWire(s, u); }
    forall fd ensures FdWire(s', fd) {
      assert FdWire(s, fd);
      if Held(s, fd) {
        var u :| 0 <= u < |s.threads| && HoldsFd(s.threads[u].pc) && s.threads[u].fd == fd;
        if u != t {
          assert s'.threads[u] == s.threads[u];
        } else if HoldsFd(s'.threads[t].pc) {
          assert HoldsFd(s'.threads[u].pc);
        }
      }
    }
  }

  /** A step of the holder on its own connection. */
  lemma OwnWireTouched(s: State, t: nat, s': State)
    requires LockInv(s) && WireInv(s) && t < |s.threads| == |s'.threads|
    requires s'.threads == s.threads[t := s'.threads[t]] && s'.asciiFds == s.asciiFds
    requires HoldsFd(s.threads[t].pc) && HoldsFd(s'.threads[t].pc) && s'.threads[t].fd == s.threads[t].fd
    requires forall g | g != s.threads[t].fd :: s'.WireOf(g) == s.WireOf(g)
    requires Grows(s.WireOf(s.threads[t].fd), s'.WireOf(s.threads[t].fd))
    requires ThreadWire(s', t) && Framed(s'.WireOf(s.threads[t].fd), s.ProtocolOf(s.threads[t].fd))
    requires s'.WireOf(s.threads[t].fd).garbled || InOrder(s'.WireOf(s.threads[t].fd))
    ensures WireInv(s')
  {
    forall u | 0 <= u < |s'.threads| ensures ThreadWire(s', u) {
      assert ThreadWire(s, u);
      if u != t {
        assert s'.threads[u] == s.threads[u];
        if HoldsFd(s.threads[u].pc) && s.threads[u].fd == s.threads[t].fd { SameFdSameOwner(s, t, u); }
      }
    }
    forall fd ensures FdWire(s', fd) {
      assert FdWire(s, fd);
      if fd == s.threads[t].fd {
        assert HoldsFd(s'.threads[t].pc);
      } else if Held(s, fd) {
        var u :| 0 <= u < |s.threads| && HoldsFd(s.threads[u].pc) && s.threads[u].fd == fd;
        assert s'.threads[u] == s.threads[u];
      }
    }
  }

  lemma CommandIsFrame(s: State, u: nat)
    requires StationInv(s) && u < |s.threads| && InTransaction(s.threads[u].pc)
    ensures IsFrame(s.threads[u].protocol, s.threads[u].command)
  {
    assert ThreadStation(s, u);
    PackedIsFrame(s.threads[u].protocol, s.threads[u].core, s.threads[u].address);
  }

  // ---- Steps that touch no connection ----

  /** A move of the holder that neither sends nor reads. */
  ghost predicate Idles(th: Thread, th': Thread)
  {
    && HoldsFd(th.pc) && HoldsFd(th'.pc) && Asked(th) == Asked(th') && PartSent(th) == PartSent(th') == []
    && (th'.pc.Sending? ==> 0 == th'.offset < |th'.command|)
    && (Asked(th) ==> th.pc.SendLeave? && WantsMore(th.protocol, []))
    && th'.past == th.past && th'.got == th.got && th'.serial == th.serial && th'.command == th.command
    && th'.protocol == th.protocol
    && (Leaving(th.pc) ==> Leaving(th'.pc))
    && (th'.result.Success? && Leaving(th'.pc) ==> Leaving(th.pc) && th.result.Success?)
  }

  lemma IdlingFits(w: Wire, u: nat, th: Thread, th': Thread)
    requires Fits(w, u, th) && Idles(th, th')
    ensures Fits(w, u, th')
  {
  }

  /** A thread that does not hold the connection. */
  lemma OutsideFits(w: Wire, u: nat, th: Thread)
    requires !HoldsFd(th.pc) && (th.pc.Done? ==> !th.result.Success?)
    ensures Fits(w, u, th)
  {
  }

  lemma BeginKeepsWires(s: State, t: nat, e: Event, s': State)
    requires WireInv(s) && t < |s.threads| && (s.threads[t].pc.Idle? || s.threads[t].pc.Done?)
    requires BeginStep(s, t, e) == Some(s')
    ensures WireInv(s')
  {
    BeginTouchesNothing(s, t, e, s');
    OutsideFits(s.WireOf(s'.threads[t].fd), t, s'.threads[t]);
    WiresUntouched(s, t, s');
  }

  lemma ConnectKeepsWires(s: State, t: nat, e: Event, s': State)
    requires WireInv(s) && t < |s.threads| && ConnectStep(s, t, e) == Some(s')
    ensures WireInv(s')
  {
    ConnectTouchesNothing(s, t, e, s');
    OutsideFits(s.WireOf(s'.threads[t].fd), t, s'.threads[t]);
    WiresUntouched(s, t, s');
  }

  lemma PackKeepsWires(s: State, t: nat, e: Event, s': State)
    requires WireInv(s) && t < |s.threads| && PackStep(s, t, e) == Some(s')
    ensures WireInv(s')
  {
    PackTouchesNothing(s, t, e, s');
    OutsideFits(s.WireOf(s'.threads[t].fd), t, s'.threads[t]);
    WiresUntouched(s, t, s');
  }

  lemma LookupKeepsWires(s: State, t: nat, e: Event, s': State)
    requires WireInv(s) && t < |s.threads| && LookupStep(s, t, e) == Some(s')
    ensures WireInv(s')
  {
    LookupTouchesNothing(s, t, e, s');
    OutsideFits(s.WireOf(s'.threads[t].fd), t, s'.threads[t]);
    WiresUntouched(s, t, s');
  }

  /** A thread that finds the connection's mutex free finds nobody on the connection. */
  lemma FreeMutexMeansNotHeld(s: State, t: nat)
    requires LockInv(s) && t < |s.threads| && s.threads[t].pc.FdWait?
    requires s.threads[t].slot.Some? && Mutex(s.threads[t].protocol, s.threads[t].slot.value) !in s.owner
    ensures !Held(s, s.threads[t].fd)
  {
    var th := s.threads[t];
    assert ThreadLocks(s, t);
    forall u | 0 <= u < |s.threads| && HoldsFd(s.threads[u].pc) ensures s.threads[u].fd != th.fd {
      assert ThreadLocks(s, u);
      if s.threads[u].fd == th.fd {
        LockTable.SlotIsFound(s.tables.Get(th.protocol), th.fd, th.slot.value);
        LockTable.SlotIsFound(s.tables.Get(th.protocol), th.fd, s.threads[u].slot.value);
      }
    }
  }

  lemma AcquireKeepsWires(s: State, t: nat, e: Event, s': State)
    requires LockInv(s) && WireInv(s) && t < |s.threads| && s.threads[t].pc.FdWait? && FdStep(s, t, e) == Some(s')
    ensures WireInv(s')
  {
    assert FdWire(s, s.threads[t].fd);
    FreeMutexMeansNotHeld(s, t);
    EnteredFits(s.WireOf(s.threads[t].fd), t, s'.threads[t]);
    WiresUntouched(s, t, s');
  }

  lemma EnteredFits(w: Wire, u: nat, th: Thread)
    requires th.pc.GetConfig? && th.past.garbled == w.garbled && th.past.late == w.late && !th.past.tore
    requires !w.garbled ==> Resting(w)
    ensures Fits(w, u, th)
  {
    assert PartSent(th) == PartRead(th) == [] && AnswersRead(w, th) == |w.sent| - w.late;
  }

  /** A step of the holder that neither sends nor reads. */
  lemma IdlingKeepsWires(s: State, t: nat, s': State)
    requires WireInv(s) && t < |s.threads| == |s'.threads|
    requires s'.threads == s.threads[t := s'.threads[t]] && s'.wires == s.wires && s'.asciiFds == s.asciiFds
    requires s'.threads[t].fd == s.threads[t].fd && Idles(s.threads[t], s'.threads[t])
    ensures WireInv(s')
  {
    assert ThreadWire(s, t);
    IdlingFits(s.WireOf(s.threads[t].fd), t, s.threads[t], s'.threads[t]);
    WiresUntouched(s, t, s');
  }

  lemma ConfigKeepsWires(s: State, t: nat, e: Event, s': State)
    requires WireInv(s) && t < |s.threads| && s.threads[t].pc.GetConfig? && FdStep(s, t, e) == Some(s')
    ensures WireInv(s')
  {
    IdlingKeepsWires(s, t, s');
  }

  lemma AttemptKeepsWires(s: State, t: nat, e: Event, s': State)
    requires StationInv(s) && WireInv(s) && t < |s.threads| && s.threads[t].pc.SendWait?
    requires RetryStep(s, t, e) == Some(s')
    ensures WireInv(s')
  {
    CommandIsFrame(s, t);
    IdlingKeepsWires(s, t, s');
  }

  lemma AfterSendKeepsWires(s: State, t: nat, e: Event, s': State)
    requires WireInv(s) && t < |s.threads| && s.threads[t].pc.SendLeave? && RetryStep(s, t, e) == Some(s')
    ensures WireInv(s')
  {
    assert ThreadWire(s, t);
    AfterSendTouchesNothing(s, t, e, s');
    AfterSendIdles(s.threads[t]);
    IdlingKeepsWires(s, t, s');
  }

  lemma AfterSendIdles(th: Thread)
    requires th.pc.SendLeave?
    ensures Idles(th, AfterSend(th)) && AfterSend(th).fd == th.fd
  {
  }

  lemma SleepKeepsWires(s: State, t: nat, e: Event, s': State)
    requires WireInv(s) && t < |s.threads| && s.threads[t].pc.Sleeping? && RetryStep(s, t, e) == Some(s')
    ensures WireInv(s')
  {
    IdlingKeepsWires(s, t, s');
  }

  lemma UnlockKeepsWires(s: State, t: nat, e: Event, s': State)
    requires LockInv(s) && WireInv(s) && t < |s.threads| && !s.threads[t].pc.Release? && UnlockStep(s, t, e) == Some(s')
    ensures WireInv(s')
  {
    assert ThreadLocks(s, t);
    UnlockTouchesNothing(s, t, e, s');
    UnlockIdles(s, t, e, s');
    IdlingKeepsWires(s, t, s');
  }

  lemma FindWaitIdles(s: State, t: nat, e: Event, s': State)
    requires t < |s.threads| && ThreadLocks(s, t) && s.threads[t].pc.FindWait? && UnlockStep(s, t, e) == Some(s')
    ensures Idles(s.threads[t], s'.threads[t]) && s'.threads[t].result == s.threads[t].result
  {
  }

  lemma FindSlotIdles(s: State, t: nat, e: Event, s': State)
    requires t < |s.threads| && ThreadLocks(s, t) && s.threads[t].pc.FindSlot? && UnlockStep(s, t, e) == Some(s')
    ensures Idles(s.threads[t], s'.threads[t]) && s'.threads[t].result == s.threads[t].result
  {
  }

  lemma FindLeaveIdles(s: State, t: nat, e: Event, s': State)
    requires t < |s.threads| && ThreadLocks(s, t) && s.threads[t].pc.FindLeave? && UnlockStep(s, t, e) == Some(s')
    ensures Idles(s.threads[t], s'.threads[t]) && s'.threads[t].result == s.threads[t].result
  {
  }

  lemma UnlockIdles(s: State, t: nat, e: Event, s': State)
    requires t < |s.threads| && ThreadLocks(s, t) && !s.threads[t].pc.Release? && UnlockStep(s, t, e) == Some(s')
    ensures Idles(s.threads[t], s'.threads[t]) && s'.threads[t].result == s.threads[t].result
  {
    if s.threads[t].pc.FindWait? {
      FindWaitIdles(s, t, e, s');
    } else if s.threads[t].pc.FindSlot? {
      FindSlotIdles(s, t, e, s');
    } else {
      UnlockTouchesNothing(s, t, e, s');
      FindLeaveIdles(s, t, e, s');
    }
  }

  lemma ReleaseKeepsWires(s: State, t: nat, e: Event, s': State)
    requires WireInv(s) && t < |s.threads| && s.threads[t].pc.Release? && UnlockStep(s, t, e) == Some(s')
    ensures WireInv(s')
  {
    assert ThreadWire(s, t);
    ReleaseTouches(s, t, e, s');
    ReleasedFits(s.WireOf(s.threads[t].fd), t, s.threads[t]);
    WiresUntouched(s, t, s');
  }

  lemma ReleasedFits(w: Wire, u: nat, th: Thread)
    requires Fits(w, u, th) && th.pc.Release?
    ensures Fits(w, u, th.(pc := Done)) && (w.garbled || Resting(w))
  {
  }

  // ---- Sending ----

  lemma SendPartKeepsWires(s: State, t: nat, e: Event, s': State)
    requires LockInv(s) && WireInv(s) && t < |s.threads| && SendStep(s, t, e) == Some(s')
    requires e.SendSome? && s.threads[t].offset + e.count < |s.threads[t].command|
    ensures WireInv(s')
  {
    SendTouchesOwn(s, t, e, s');
    SendPartEffect(s, t, e, s');
    PartSentKeepsWires(s, t, s.threads[t].offset + e.count, s');
  }

  lemma PartSentKeepsWires(s: State, t: nat, n: nat, s': State)
    requires LockInv(s) && WireInv(s) && t < |s.threads| && TouchesOwn(s, t, s')
    requires s.threads[t].pc.Sending? && s.threads[t].offset <= n < |s.threads[t].command|
    requires var th, w := s.threads[t], s.WireOf(s.threads[t].fd);
             s'.threads[t] == th.(offset := n) && s'.WireOf(th.fd) == w.(toPlc := w.toPlc + th.command[th.offset..n])
    ensures WireInv(s')
  {
    var th := s.threads[t];
    assert ThreadWire(s, t) && FdWire(s, th.fd);
    PartIsSent(s.WireOf(th.fd), t, th, n);
    OwnWireTouched(s, t, s');
  }

  lemma PartIsSent(w: Wire, t: nat, th: Thread, n: nat)
    requires Fits(w, t, th) && th.pc.Sending? && th.offset <= n < |th.command|
    ensures Fits(w.(toPlc := w.toPlc + th.command[th.offset..n]), t, th.(offset := n))
  {
    assert th.command[..th.offset] + th.command[th.offset..n] == th.command[..n];
    if !w.garbled {
      FlowSends(w, th.command[..th.offset], [], AnswersRead(w, th), th.command[th.offset..n]);
    }
  }

  lemma FlowSends(w: Wire, part: seq<Byte>, got: seq<Byte>, k: int, more: seq<Byte>)
    requires Flow(w, part, got, k)
    ensures Flow(w.(toPlc := w.toPlc + more), part + more, got, k)
  {
    var before := Commands(w.sent[|w.served|..]);
    assert (before + part) + more == before + (part + more);
  }

  /** The part under way becomes a request. */
  lemma FlowCompletes(w: Wire, x: Sent, k: int)
    requires Flow(w, x.command, [], k)
    ensures Flow(w.(sent := w.sent + [x]), [], [], k)
  {
    var n := |w.served|;
    CommandsAppend(w.sent[n..], x);
    assert (w.sent + [x])[n..] == w.sent[n..] + [x];
    assert Commands(w.sent[n..]) + x.command + [] == Commands(w.sent[n..]) + x.command;
  }

  lemma SendRestKeepsWires(s: State, t: nat, e: Event, s': State)
    requires LockInv(s) && StationInv(s) && WireInv(s) && t < |s.threads| && SendStep(s, t, e) == Some(s')
    requires e.SendSome? && s.threads[t].offset + e.count == |s.threads[t].command|
    ensures WireInv(s')
  {
    var th := s.threads[t];
    var w, w' := s.WireOf(th.fd), s'.WireOf(th.fd);
    assert ThreadWire(s, t) && FdWire(s, th.fd) && ThreadLocks(s, t);
    CommandIsFrame(s, t);
    SendTouchesOwn(s, t, e, s');
    SendRestEffect(s, t, e, s');
    WholeIsSent(w, t, th);
    SentFramed(w, th.protocol, Sent(t, th.serial, th.command), w');
    OwnWireTouched(s, t, s');
  }

  lemma SentFramed(w: Wire, p: Protocol, x: Sent, w': Wire)
    requires Framed(w, p) && IsFrame(p, x.command) && w'.sent == w.sent + [x] && w'.served == w.served
    ensures Framed(w', p) && (InOrder(w) ==> InOrder(w'))
  {
  }

  function WholeSent(w: Wire, t: nat, th: Thread): Wire
    requires th.offset <= |th.command|
  {
    w.(toPlc := w.toPlc + th.command[th.offset..|th.command|], sent := w.sent + [Sent(t, th.serial, th.command)])
  }

  lemma WholeIsSent(w: Wire, t: nat, th: Thread)
    requires Fits(w, t, th) && th.pc.Sending?
    ensures Fits(WholeSent(w, t, th), t,
                 th.(pc := SendLeave, offset := |th.command|, sendOk := true, past := th.past.(index := |w.sent|),
                     got := []))
  {
    if !w.garbled {
      var k, rest := AnswersRead(w, th), th.command[th.offset..|th.command|];
      FlowSends(w, th.command[..th.offset], [], k, rest);
      assert th.command[..th.offset] + rest == th.command;
      FlowCompletes(w.(toPlc := w.toPlc + rest), Sent(t, th.serial, th.command), k);
    }
  }

  lemma SendFailureKeepsWires(s: State, t: nat, e: Event, s': State)
    requires LockInv(s) && WireInv(s) && t < |s.threads| && SendStep(s, t, e) == Some(s') && e.SendFailed?
    ensures WireInv(s')
  {
    var th := s.threads[t];
    assert ThreadWire(s, t) && FdWire(s, th.fd);
    SendTouchesOwn(s, t, e, s');
    FailedSendFits(s.WireOf(th.fd), t, th);
    OwnWireTouched(s, t, s');
  }

  lemma FailedSendFits(w: Wire, t: nat, th: Thread)
    requires Fits(w, t, th) && th.pc.Sending?
    ensures Fits(w.(garbled := w.garbled || th.offset > 0, torn := w.torn || th.offset > 0), t,
                 th.(pc := SendLeave, sendOk := false, past := th.past.(tore := th.past.tore || th.offset > 0)))
  {
    if !w.garbled && th.offset == 0 { assert PartSent(th) == []; }
  }

  // ---- Reading ----

  lemma ReadFailureKeepsWires(s: State, t: nat, e: Event, s': State)
    requires LockInv(s) && WireInv(s) && t < |s.threads| && ReadStep(s, t, e) == Some(s') && e.RecvFailed?
    ensures WireInv(s')
  {
    var th := s.threads[t];
    assert ThreadWire(s, t) && FdWire(s, th.fd);
    ReadTouchesOwn(s, t, e, s');
    FailedReadFits(s.WireOf(th.fd), t, th, e.code);
    OwnWireTouched(s, t, s');
  }

  /** A receive that fails before the first byte leaves one more answer to come; a later failure garbles the stream. */
  lemma FailedReadFits(w: Wire, t: nat, th: Thread, code: Code)
    requires Fits(w, t, th) && th.pc.Reading? && !code.Success?
    ensures Fits(Missed(w, th.got), t, th.(pc := FindWait, result := code))
  {
  }

  lemma ReadSomeKeepsWires(s: State, t: nat, e: Event, s': State)
    requires LockInv(s) && WireInv(s) && t < |s.threads| && ReadStep(s, t, e) == Some(s') && e.RecvSome?
    ensures WireInv(s')
  {
    var th := s.threads[t];
    assert ThreadWire(s, t) && FdWire(s, th.fd) && ThreadLocks(s, t);
    ReadTouchesOwn(s, t, e, s');
    ReadSomeEffect(s, t, e, s');
    SomeIsRead(s.WireOf(th.fd), t, th, e.count, s'.WireOf(th.fd));
    OwnWireTouched(s, t, s');
  }

  lemma NoMemoryKeepsWires(s: State, t: nat, e: Event, s': State)
    requires LockInv(s) && WireInv(s) && t < |s.threads| && ReadStep(s, t, e) == Some(s') && e.NoMemory?
    ensures WireInv(s')
  {
    var th := s.threads[t];
    assert ThreadWire(s, t) && FdWire(s, th.fd) && ThreadLocks(s, t);
    ReadTouchesOwn(s, t, e, s');
    NoMemoryEffect(s, t, e, s');
    NoMemoryFits(s.WireOf(th.fd), t, th, e.count, s'.WireOf(th.fd));
    OwnWireTouched(s, t, s');
  }

  /** Without memory the answer stays unread, unless its header was all of it. */
  lemma NoMemoryFits(w: Wire, t: nat, th: Thread, n: nat, w': Wire)
    requires Fits(w, t, th) && th.pc.Reading? && Brings(th, w, n)
    requires !w.garbled ==> InOrder(w) && Framed(w, th.protocol)
    requires w' == w.(toClient := w.toClient[n..],
                      garbled := w.garbled || WantsMore(th.protocol, th.got + w.toClient[..n]))
    ensures Fits(w', t, th.(pc := FindWait, got := th.got + w.toClient[..n], result := MallocFailed))
  {
    if !w'.garbled {
      ReadAdvances(w, th.protocol, th.got, AnswersRead(w, th), n);
      AllIsRead(w, t, th, n, w');
      FailingFits(w', t, th.(pc := FindWait, got := th.got + w.toClient[..n], result := Success), MallocFailed);
    }
  }

  lemma FailingFits(w: Wire, t: nat, th: Thread, code: Code)
    requires Fits(w, t, th) && Leaving(th.pc) && !code.Success?
    ensures Fits(w, t, th.(result := code))
  {
  }

  /** What has been read of an answer tells its size as soon as its header is there. */
  lemma SameSize(p: Protocol, f: seq<Byte>, got: seq<Byte>, stream: seq<Byte>)
    requires IsFrame(p, f) && f <= stream && got <= stream
    ensures |got| >= HeaderSize(p) ==> FrameSize(p, got) == Some(|f|)
    ensures Wanted(p, got).Some? && (WantsMore(p, got) <==> |got| < |f|)
  {
    SizeFromHeader(p, stream, |f|);
    assert stream[..|f|] == f && stream[..|got|] == got;
    if |got| >= HeaderSize(p) { SizeFromHeader(p, stream, |got|); }
  }

  lemma SomethingUnread(w: Wire, got: seq<Byte>, k: int)
    requires Flow(w, [], got, k) && |w.toClient| > 0
    ensures k < |w.served|
  {
    assert |got + w.toClient| > 0;
    assert Answers(w.served[|w.served|..]) == [];
  }

  /** Reading on stays inside the first answer not yet read, and completes exactly at its end. */
  lemma ReadAdvances(w: Wire, p: Protocol, got: seq<Byte>, k: int, n: nat)
    requires Flow(w, [], got, k) && Framed(w, p) && WantsMore(p, got)
    requires 0 < n <= |w.toClient| && |got| + n <= Wanted(p, got).value
    ensures k < |w.served| && Wanted(p, got + w.toClient[..n]).Some?
    ensures (got + w.toClient[..n]) + w.toClient[n..] == got + w.toClient
    ensures !WantsMore(p, got + w.toClient[..n]) ==>
              got + w.toClient[..n] == w.served[k].response && w.toClient[n..] == Answers(w.served[k + 1..])
  {
    var stream, next := got + w.toClient, got + w.toClient[..n];
    assert next + w.toClient[n..] == stream;
    SomethingUnread(w, got, k);
    var f := w.served[k].response;
    assert w.served[k..][1..] == w.served[k + 1..];
    assert stream == f + Answers(w.served[k + 1..]);
    SameSize(p, f, got, stream);
    SameSize(p, f, next, stream);
    if !WantsMore(p, next) {
      assert |next| == |f|;
      assert next == stream[..|f|] == f && w.toClient[n..] == stream[|f|..];
    }
  }

  lemma SomeIsRead(w: Wire, t: nat, th: Thread, n: nat, w': Wire)
    requires Fits(w, t, th) && th.pc.Reading? && WantsMore(th.protocol, th.got)
    requires !w.garbled ==> InOrder(w) && Framed(w, th.protocol)
    requires 0 < n <= |w.toClient| && |th.got| + n <= Wanted(th.protocol, th.got).value
    requires w' == w.(toClient := w.toClient[n..],
                      garbled := w.garbled || Wanted(th.protocol, th.got + w.toClient[..n]).None?)
    ensures Fits(w', t, AfterRead(th, th.got + w.toClient[..n])) && (!w.garbled ==> !w'.garbled)
  {
    if w.garbled {
      assert !th.past.Intact();
    } else {
      ReadAdvances(w, th.protocol, th.got, AnswersRead(w, th), n);
      if WantsMore(th.protocol, th.got + w.toClient[..n]) {
        PartIsRead(w, t, th, n, w');
      } else {
        AllIsRead(w, t, th, n, w');
      }
    }
  }

  lemma PartIsRead(w: Wire, t: nat, th: Thread, n: nat, w': Wire)
    requires Fits(w, t, th) && th.pc.Reading? && !w.garbled && n <= |w.toClient|
    requires WantsMore(th.protocol, th.got + w.toClient[..n])
    requires (th.got + w.toClient[..n]) + w.toClient[n..] == th.got + w.toClient
    requires w' == w.(toClient := w.toClient[n..])
    ensures Fits(w', t, th.(got := th.got + w.toClient[..n]))
  {
    assert Flow(w', [], th.got + w.toClient[..n], AnswersRead(w, th));
  }

  lemma AllIsRead(w: Wire, t: nat, th: Thread, n: nat, w': Wire)
    requires Fits(w, t, th) && th.pc.Reading? && !w.garbled && InOrder(w) && n <= |w.toClient|
    requires var k := AnswersRead(w, th);
             k < |w.served| && th.got + w.toClient[..n] == w.served[k].response
               && w.toClient[n..] == Answers(w.served[k + 1..])
    requires w' == w.(toClient := w.toClient[n..])
    ensures Fits(w', t, th.(pc := FindWait, got := th.got + w.toClient[..n], result := Success))
  {
    AnswerIsRead(w, th.protocol, th.got, AnswersRead(w, th), n, w');
  }

  /** The answer has been read to its end, and the next one is ahead. */
  lemma AnswerIsRead(w: Wire, p: Protocol, got: seq<Byte>, k: int, n: nat, w': Wire)
    requires Flow(w, [], got, k) && k < |w.served| && n <= |w.toClient| && w.toClient[n..] == Answers(w.served[k + 1..])
    requires w' == w.(toClient := w.toClient[n..])
    ensures Flow(w', [], [], k + 1)
  {
    assert [] + w'.toClient == w'.toClient;
  }

  // ---- The PLC ----

  lemma PartIsNoFrame(w: Wire, p: Protocol, command: seq<Byte>, part: seq<Byte>, n: nat)
    requires |w.served| <= |w.sent| && w.toPlc == Commands(w.sent[|w.served|..]) + part
    requires part == [] || (IsFrame(p, command) && part < command)
    requires |w.toPlc| >= HeaderSize(p) && FrameSize(p, w.toPlc) == Some(n) && n <= |w.toPlc|
    ensures |w.served| < |w.sent|
  {
    if |w.served| == |w.sent| {
      assert w.toPlc == [] + part == part;
      if part != [] {
        assert command[..|part|] == part;
        SizeFromHeader(p, command, |part|);
      }
    }
  }

  /** On a stream that is not garbled the PLC can only take the first request it has not answered. */
  lemma TakesNextRequest(w: Wire, p: Protocol, command: seq<Byte>, part: seq<Byte>, n: nat)
    requires |w.served| <= |w.sent| && w.toPlc == Commands(w.sent[|w.served|..]) + part && Framed(w, p)
    requires part == [] || (IsFrame(p, command) && part < command)
    requires |w.toPlc| >= HeaderSize(p) && FrameSize(p, w.toPlc) == Some(n) && n <= |w.toPlc|
    ensures |w.served| < |w.sent| && w.toPlc[..n] == w.sent[|w.served|].command
    ensures w.toPlc[n..] == Commands(w.sent[|w.served| + 1..]) + part
  {
    PartIsNoFrame(w, p, command, part, n);
    var i := |w.served|;
    var c, rest := w.sent[i].command, Commands(w.sent[i + 1..]) + part;
    assert w.toPlc == c + rest by { FirstCommand(w.sent, i, part); }
    HeadAndRest(p, c, rest, w.toPlc);
  }

  lemma FirstCommand(sent: seq<Sent>, i: nat, part: seq<Byte>)
    requires i < |sent|
    ensures Commands(sent[i..]) + part == sent[i].command + (Commands(sent[i + 1..]) + part)
  {
    assert sent[i..][1..] == sent[i + 1..];
  }

  lemma HeadAndRest(p: Protocol, f: seq<Byte>, rest: seq<Byte>, stream: seq<Byte>)
    requires IsFrame(p, f) && stream == f + rest
    ensures FrameSize(p, stream) == Some(|f|) && stream[..|f|] == f && stream[|f|..] == rest
  {
    assert stream[..|f|] == f;
    SizeFromHeader(p, stream, |f|);
  }

  /** Its answer joins the others. */
  lemma AnswerJoins(served: seq<Exchange>, k: nat, got: seq<Byte>, toClient: seq<Byte>, x: Exchange)
    requires k <= |served| && got + toClient == Answers(served[k..])
    ensures got + (toClient + x.response) == Answers((served + [x])[k..])
  {
    AnswersAppend(served[k..], x);
    assert (served + [x])[k..] == served[k..] + [x];
    assert got + (toClient + x.response) == (got + toClient) + x.response;
  }

  lemma FlowAnswered(w: Wire, p: Protocol, command: seq<Byte>, part: seq<Byte>, got: seq<Byte>, k: int, n: nat,
                     response: seq<Byte>, w': Wire)
    requires Flow(w, part, got, k) && Framed(w, p) && InOrder(w)
    requires part == [] || (IsFrame(p, command) && part < command)
    requires |w.toPlc| >= HeaderSize(p) && FrameSize(p, w.toPlc) == Some(n) && n <= |w.toPlc|
    requires w' == w.(toPlc := w.toPlc[n..], toClient := w.toClient + response,
                      served := w.served + [Exchange(w.toPlc[..n], response)])
    ensures Flow(w', part, got, k) && InOrder(w')
  {
    TakesNextRequest(w, p, command, part, n);
    AnswerJoins(w.served, k, got, w.toClient, Exchange(w.toPlc[..n], response));
    InOrderGrows(w, w', Exchange(w.toPlc[..n], response));
  }

  lemma InOrderGrows(w: Wire, w': Wire, x: Exchange)
    requires InOrder(w) && |w.served| < |w.sent| && x.request == w.sent[|w.served|].command
    requires w'.sent == w.sent && w'.served == w.served + [x]
    ensures InOrder(w')
  {
  }

  lemma PlcKeepsPhase(s: State, fd: int, n: nat, response: seq<Byte>, s': State, v: nat)
    requires LockInv(s) && StationInv(s) && WireInv(s) && PlcTakes(s, fd, n, response, s') && !s.WireOf(fd).garbled
    requires v < |s.threads| && HoldsFd(s.threads[v].pc) && s.threads[v].fd == fd
    ensures Phase(s'.WireOf(fd), v, s.threads[v]) && InOrder(s'.WireOf(fd))
  {
    var w, th := s.WireOf(fd), s.threads[v];
    assert ThreadWire(s, v) && FdWire(s, fd) && ThreadLocks(s, v);
    CommandIsFrame(s, v);
    FlowAnswered(w, th.protocol, th.command, PartSent(th), PartRead(th), AnswersRead(w, th), n, response,
                 s'.WireOf(fd));
  }

  lemma PlcKeepsRest(s: State, fd: int, n: nat, response: seq<Byte>, s': State)
    requires FdWire(s, fd) && PlcTakes(s, fd, n, response, s') && !s.WireOf(fd).garbled && Resting(s.WireOf(fd))
    ensures Resting(s'.WireOf(fd)) && InOrder(s'.WireOf(fd))
  {
    FlowAnswered(s.WireOf(fd), s.ProtocolOf(fd), [], [], [], |s.WireOf(fd).sent| - s.WireOf(fd).late, n, response,
                 s'.WireOf(fd));
  }

  lemma PlcKeepsThread(s: State, fd: int, n: nat, response: seq<Byte>, s': State, v: nat)
    requires LockInv(s) && StationInv(s) && WireInv(s) && PlcTakes(s, fd, n, response, s') && v < |s.threads|
    ensures ThreadWire(s', v)
  {
    assert ThreadWire(s, v);
    var th := s.threads[v];
    if th.fd == fd && HoldsFd(th.pc) && !s.WireOf(fd).garbled { PlcKeepsPhase(s, fd, n, response, s', v); }
  }

  lemma PlcKeepsFd(s: State, fd: int, n: nat, response: seq<Byte>, s': State)
    requires LockInv(s) && StationInv(s) && WireInv(s) && PlcTakes(s, fd, n, response, s')
    ensures FdWire(s', fd)
  {
    assert FdWire(s, fd);
    if !s.WireOf(fd).garbled {
      if Resting(s.WireOf(fd)) {
        PlcKeepsRest(s, fd, n, response, s');
      } else {
        var v :| 0 <= v < |s.threads| && HoldsFd(s.threads[v].pc) && s.threads[v].fd == fd;
        PlcKeepsPhase(s, fd, n, response, s', v);
        assert Held(s', fd) by { assert HoldsFd(s'.threads[v].pc); }
      }
    }
  }

  lemma PlcKeepsWires(s: State, fd: int, response: seq<Byte>, s': State)
    requires LockInv(s) && StationInv(s) && WireInv(s) && PlcStep(s, fd, response) == Some(s')
    ensures WireInv(s')
  {
    var n := PlcEffect(s, fd, response, s');
    forall v | 0 <= v < |s.threads| ensures ThreadWire(s', v) { PlcKeepsThread(s, fd, n, response, s', v); }
    PlcKeepsFd(s, fd, n, response, s');
    forall g | g != fd ensures FdWire(s', g) {
      assert FdWire(s, g);
      assert Held(s, g) ==> Held(s', g);
    }
  }

  /** Every step keeps requests and answers paired. */
  lemma NextKeepsWires(s: State, l: Label, s': State)
    requires LockInv(s) && StationInv(s) && WireInv(s) && Next(s, l) == Some(s')
    ensures WireInv(s')
  {
    if l.Client? {
      var t := l.thread;
      match s.threads[t].pc
      case Idle | Done => BeginKeepsWires(s, t, l.event, s');
      case ConnectWait | ConnectNetwork | ConnectStation | ConnectLeave => ConnectKeepsWires(s, t, l.event, s');
      case PackWait | PackNetwork | PackStation | PackLeave => PackKeepsWires(s, t, l.event, s');
      case TableWait | TableLookup | TableLeave => LookupKeepsWires(s, t, l.event, s');
      case FdWait => AcquireKeepsWires(s, t, l.event, s');
      case GetConfig => ConfigKeepsWires(s, t, l.event, s');
      case SendWait => AttemptKeepsWires(s, t, l.event, s');
      case SendLeave => AfterSendKeepsWires(s, t, l.event, s');
      case Sleeping => SleepKeepsWires(s, t, l.event, s');
      case Sending =>
        if l.event.SendSome? {
          if s.threads[t].offset + l.event.count < |s.threads[t].command| {
            SendPartKeepsWires(s, t, l.event, s');
          } else {
            SendRestKeepsWires(s, t, l.event, s');
          }
        } else if l.event.SendFailed? {
          SendFailureKeepsWires(s, t, l.event, s');
        }
      case Reading =>
        if l.event.RecvSome? {
          ReadSomeKeepsWires(s, t, l.event, s');
        } else if l.event.RecvFailed? {
          ReadFailureKeepsWires(s, t, l.event, s');
        } else if l.event.NoMemory? {
          NoMemoryKeepsWires(s, t, l.event, s');
        }
      case FindWait | FindSlot | FindLeave => UnlockKeepsWires(s, t, l.event, s');
      case Release => ReleaseKeepsWires(s, t, l.event, s');
    } else {
      PlcKeepsWires(s, l.fd, l.response, s');
    }
  }
}
