/** What holds in every reachable state, whatever the interleaving and the number of threads. */
module TransactionTheorems {
  import opened Wrappers
  import opened Bytes
  import opened Framing
  import opened Transactions
  import opened TransactionLocks
  import opened TransactionStations
  import opened TransactionCodes
  import opened TransactionPairing
  import opened TransactionHistory

  ghost predicate Inv(s: State)
  {
    LockInv(s) && StationInv(s) && WireInv(s) && HistoryInv(s) && CodesInv(s)
  }

  lemma InitialInv(s: State)
    requires Initial(s)
    ensures Inv(s)
  {
    InitialLocks(s);
    assert StationInv(s) by { assert Settled(s, Binary) && Settled(s, Ascii); }
    assert forall fd :: s.WireOf(fd) == FRESH_WIRE && s.ReturnedOf(fd) == [];
    InitialWires(s);
    InitialCodes(s);
    assert HistoryInv(s);
  }

  lemma InitialWires(s: State)
    requires (forall u | 0 <= u < |s.threads| :: s.threads[u].pc.Idle?) && forall fd :: s.WireOf(fd) == FRESH_WIRE
    ensures WireInv(s)
  {
    assert Resting(FRESH_WIRE);
    forall u | 0 <= u < |s.threads| ensures ThreadWire(s, u) { OutsideFits(FRESH_WIRE, u, s.threads[u]); }
    forall fd ensures FdWire(s, fd) {}
  }

  lemma InitialCodes(s: State)
    requires forall u | 0 <= u < |s.threads| :: s.threads[u].pc.Idle?
    requires forall fd :: s.WireOf(fd) == FRESH_WIRE && s.ReturnedOf(fd) == []
    ensures CodesInv(s)
  {
    forall u | 0 <= u < |s.threads| ensures ThreadCodes(s, u) {}
    forall fd ensures FdCodes(s, fd) { assert NoBadLeaver(s, fd, false) && NoBadLeaver(s, fd, true); }
  }

  /** Every step keeps the whole invariant. */
  lemma NextKeepsInv(s: State, l: Label, s': State)
    requires Inv(s) && Next(s, l) == Some(s')
    ensures Inv(s')
  {
    NextKeepsLocks(s, l, s');
    NextKeepsStations(s, l, s');
    NextKeepsWires(s, l, s');
    NextKeepsHistory(s, l, s');
    NextKeepsCodes(s, l, s');
  }

  lemma {:induction false} RunKeepsInv(s: State, labels: seq<Label>, s': State)
    requires Inv(s) && Run(s, labels) == Some(s')
    ensures Inv(s')
  {
    if |labels| > 0 {
      var m := Run(s, labels[..|labels| - 1]).value;
      RunKeepsInv(s, labels[..|labels| - 1], m);
      NextKeepsInv(m, labels[|labels| - 1], s');
    }
  }

  lemma ReachableInv(s: State)
    requires Reachable(s)
    ensures Inv(s)
  {
    var s0: State, labels: seq<Label> :| Initial(s0) && Run(s0, labels) == Some(s);
    InitialInv(s0);
    RunKeepsInv(s0, labels, s);
  }

  /** At most one thread is inside a transaction on a connection. */
  lemma OneTransactionPerFd(s: State, t: nat, u: nat)
    requires Reachable(s) && t < |s.threads| && u < |s.threads|
    requires HoldsFd(s.threads[t].pc) && HoldsFd(s.threads[u].pc) && s.threads[t].fd == s.threads[u].fd
    ensures t == u
  {
    ReachableInv(s);
    SameFdSameOwner(s, t, u);
  }

  /** The second lookup cannot fail, and the mutex it releases is the one this thread acquired and holds. */
  lemma ReleasesWhatItTook(s: State, t: nat)
    requires Reachable(s) && t < |s.threads| && (s.threads[t].pc.FindLeave? || s.threads[t].pc.Release?)
    ensures var th := s.threads[t];
            && th.found.Some? && th.found == th.slot
            && Mutex(th.protocol, th.found.value) in s.owner && s.owner[Mutex(th.protocol, th.found.value)] == t
  {
    ReachableInv(s);
    assert ThreadLocks(s, t);
  }

  /** When a packer lets go of the global mutex, its frame names the latest completed connect. */
  lemma PackedWithLatestConnect(s: State, t: nat)
    requires Reachable(s) && t < |s.threads| && s.threads[t].pc.PackLeave?
    ensures s.connects.Get(s.threads[t].protocol) != []
    ensures var th := s.threads[t];
            th.command == Pack(th.protocol, th.core, Latest(s, th.protocol))
  {
    ReachableInv(s);
    assert ThreadStation(s, t);
  }

  /** And whatever connects run later, the transaction sends that frame: one connect's pair, never a mixture. */
  lemma SentWithOneConnect(s: State, t: nat)
    requires Reachable(s) && t < |s.threads| && (InTransaction(s.threads[t].pc) || s.threads[t].pc.Done?)
    ensures var th := s.threads[t];
            exists a :: a in s.connects.Get(th.protocol) && th.command == Pack(th.protocol, th.core, a)
  {
    ReachableInv(s);
    assert ThreadStation(s, t);
  }

  /**
   * Which answer a transaction gets. If the stream was not garbled when it took the connection's mutex and none of
   * its own sends failed part way, then with SUCCESS it holds the answer to the request sent as many places before
   * its own as there were answers late.
   */
  lemma SuccessHoldsAnswer(s: State, t: nat)
    requires Reachable(s) && t < |s.threads| && s.threads[t].pc.Done?
    requires s.threads[t].result.Success? && s.threads[t].past.Intact()
    ensures HoldsAnswer(s.WireOf(s.threads[t].fd), t, s.threads[t])
  {
    ReachableInv(s);
    assert ThreadWire(s, t);
  }

  /**
   * So it holds its own answer exactly when no answer was late, or the PLC's answer to its own request happens to
   * be the same bytes as the late one.
   */
  lemma OwnAnswerExactly(s: State, t: nat)
    requires Reachable(s) && t < |s.threads| && s.threads[t].pc.Done?
    requires s.threads[t].result.Success? && s.threads[t].past.Intact()
    ensures var th, w := s.threads[t], s.WireOf(s.threads[t].fd);
            && 0 <= th.past.index - th.past.late < |w.served|
            && (Paired(w, t, th) <==>
                  th.past.late == 0
                  || (th.past.index < |w.served|
                      && w.served[th.past.index]
                         == Exchange(th.command, w.served[th.past.index - th.past.late].response)))
            && (!w.garbled && th.past.index < |w.served| ==> w.served[th.past.index].request == th.command)
  {
    SuccessHoldsAnswer(s, t);
    if !s.WireOf(s.threads[t].fd).garbled && s.threads[t].past.index < |s.WireOf(s.threads[t].fd).served| {
      AnswersInOrder(s, s.threads[t].fd, s.threads[t].past.index);
    }
  }

  /** Response pairing: with no answer late, SUCCESS means the PLC's answer to the very request this thread sent. */
  lemma ResponsesNeverInterleave(s: State, t: nat)
    requires Reachable(s) && t < |s.threads| && s.threads[t].pc.Done?
    requires s.threads[t].result.Success? && s.threads[t].past.Clean()
    ensures Paired(s.WireOf(s.threads[t].fd), t, s.threads[t])
  {
    SuccessHoldsAnswer(s, t);
  }

  /**
   * Between transactions, a stream that no send has torn is sound if all codes returned were benign, and unsound if
   * one was neither benign nor MALLOC_FAILED. Only MALLOC_FAILED leaves a doubt.
   */
  lemma SoundIffBenign(s: State, fd: int)
    requires Reachable(s) && !s.WireOf(fd).torn && !Held(s, fd)
    ensures AllBenign(s.ReturnedOf(fd)) ==> !s.WireOf(fd).Broken()
    ensures MallocFailed !in s.ReturnedOf(fd) ==> (!s.WireOf(fd).Broken() <==> AllBenign(s.ReturnedOf(fd)))
    ensures !s.WireOf(fd).Broken() ==> forall c | c in s.ReturnedOf(fd) :: Benign(c) || c.MallocFailed?
  {
    ReachableInv(s);
    assert FdCodes(s, fd);
    assert NoBadLeaver(s, fd, false) && NoBadLeaver(s, fd, true);
  }

  /**
   * Response pairing in return codes. On a connection where no send failed part way, a transaction that returned
   * SUCCESS holds its own answer if all transactions that returned before it took the mutex returned SUCCESS or
   * SOCKET_SEND_FAILED.
   */
  lemma PairedByReturnCodes(s: State, t: nat)
    requires Reachable(s) && t < |s.threads| && s.threads[t].pc.Done? && s.threads[t].result.Success?
    requires !s.WireOf(s.threads[t].fd).torn
    requires var codes := s.ReturnedOf(s.threads[t].fd);
             forall i | 0 <= i < |codes| && i < s.threads[t].past.entry :: Benign(codes[i])
    ensures Paired(s.WireOf(s.threads[t].fd), t, s.threads[t])
  {
    ReachableInv(s);
    assert ThreadCodes(s, t);
    ResponsesNeverInterleave(s, t);
  }

  /** On a stream that is not garbled the PLC's i-th answer is to the i-th request sent. */
  lemma AnswersInOrder(s: State, fd: int, i: nat)
    requires Reachable(s) && !s.WireOf(fd).garbled && i < |s.WireOf(fd).served|
    ensures i < |s.WireOf(fd).sent| && s.WireOf(fd).served[i].request == s.WireOf(fd).sent[i].command
  {
    ReachableInv(s);
    assert FdWire(s, fd);
  }

  /** However often sending was retried, a transaction's request was sent whole at most once. */
  lemma NeverSentTwice(s: State, fd: int, i: nat, g: int, j: nat)
    requires Reachable(s) && i < |s.WireOf(fd).sent| && j < |s.WireOf(g).sent|
    requires SameTransaction(s.WireOf(fd).sent[i], s.WireOf(g).sent[j])
    ensures fd == g && i == j
  {
    ReachableInv(s);
  }

  // ---- Progress ----

  predicate Busy(pc: PC) { !pc.Idle? && !pc.Done? }

  /** Steps that are neither a failure nor an interruption of an I/O call. */
  predicate Forward(l: Label)
  {
    l.Plc? || !(l.event.SendInterrupted? || l.event.SendFailed? || l.event.RecvInterrupted? || l.event.RecvFailed?
                || l.event.NoMemory?)
  }

  predicate WaitsForGlobal(pc: PC)
  {
    pc.ConnectWait? || pc.PackWait? || pc.TableWait? || pc.SendWait? || pc.FindWait?
  }

  /** A thread that neither waits for a lock nor reads can go on by itself. */
  lemma UnblockedMoves(s: State, t: nat) returns (l: Label)
    requires Inv(s) && t < |s.threads| && Busy(s.threads[t].pc)
    requires !WaitsForGlobal(s.threads[t].pc) && !s.threads[t].pc.FdWait? && !s.threads[t].pc.Reading?
    ensures l.Client? && l.thread == t && Forward(l) && Next(s, l).Some?
  {
    assert ThreadLocks(s, t) && ThreadWire(s, t);
    var pc := s.threads[t].pc;
    l := Client(t, if pc.TableLookup? then Lookup(true) else if pc.GetConfig? then Config(0)
                   else if pc.Sending? then SendSome(1) else Step);
  }

  lemma WaiterMoves(s: State, t: nat) returns (l: Label)
    requires t < |s.threads| && WaitsForGlobal(s.threads[t].pc) && s.global.None?
    ensures l.Client? && l.thread == t && Forward(l) && Next(s, l).Some?
  {
    l := Client(t, Step);
  }

  /** An answer without data, as a PLC acknowledges a write. */
  function Acknowledgement(p: Protocol): (f: seq<Byte>)
    ensures IsFrame(p, f)
  {
    if p.Binary? then [0xD0, 0, 0, 0xFF, 0xFF, 3, 0, 2, 0, 0, 0]
    else
      var f: seq<Byte> := [0x44, 0x30, 0x30, 0x30, 0x30, 0x30, 0x46, 0x46, 0x30, 0x33, 0x46, 0x46, 0x30, 0x30, 0x30,
        0x30, 0x30, 0x34, 0x30, 0x30, 0x30, 0x30];
      assert f[14..18] == [0x30, 0x30, 0x30, 0x34];
      f
  }

  /** A reader with nothing to read has sent a request that the PLC can take. */
  lemma PlcCanAnswer(s: State, t: nat, response: seq<Byte>)
    requires Inv(s) && t < |s.threads| && s.threads[t].pc.Reading? && !s.WireOf(s.threads[t].fd).garbled
    requires s.WireOf(s.threads[t].fd).toClient == [] && IsFrame(s.threads[t].protocol, response)
    ensures PlcStep(s, s.threads[t].fd, response).Some?
  {
    var th, w := s.threads[t], s.WireOf(s.threads[t].fd);
    assert ThreadLocks(s, t) && ThreadWire(s, t) && FdWire(s, th.fd);
    NothingUnread(w, th.protocol, th.got, AnswersRead(w, th));
    assert AnswersRead(w, th) < |w.sent|;
    FirstRequest(w, th.protocol, [], th.got, AnswersRead(w, th));
  }

  lemma NothingUnread(w: Wire, p: Protocol, got: seq<Byte>, k: int)
    requires Flow(w, [], got, k) && Framed(w, p) && WantsMore(p, got) && w.toClient == []
    ensures k == |w.served|
  {
    assert got + w.toClient == got;
    if k < |w.served| {
      var f := w.served[k].response;
      assert w.served[k..][1..] == w.served[k + 1..];
      assert got == f + Answers(w.served[k + 1..]);
      SameSize(p, f, got, got);
    }
  }

  lemma FirstRequest(w: Wire, p: Protocol, part: seq<Byte>, got: seq<Byte>, k: int)
    requires Flow(w, part, got, k) && Framed(w, p) && |w.served| < |w.sent|
    ensures |w.toPlc| >= HeaderSize(p) && FrameSize(p, w.toPlc).Some? && FrameSize(p, w.toPlc).value <= |w.toPlc|
  {
    var c := w.sent[|w.served|].command;
    assert w.toPlc == c + (Commands(w.sent[|w.served|..][1..]) + part);
    assert w.toPlc[..|c|] == c;
    SizeFromHeader(p, w.toPlc, |c|);
  }

  /** A reader has bytes waiting, or the PLC has a request waiting. */
  lemma ReaderMoves(s: State, t: nat) returns (l: Label)
    requires Inv(s) && t < |s.threads| && s.threads[t].pc.Reading?
    ensures Next(s, l).Some? && (l.Plc? || l.thread == t)
    ensures !s.WireOf(s.threads[t].fd).garbled ==> Forward(l)
  {
    var th, w := s.threads[t], s.WireOf(s.threads[t].fd);
    if w.garbled {
      l := Client(t, RecvFailed(ConnectionClosed));
    } else if w.toClient == [] {
      assert ThreadLocks(s, t);
      PlcCanAnswer(s, t, Acknowledgement(th.protocol));
      l := Plc(th.fd, Acknowledgement(th.protocol));
    } else {
      assert ThreadWire(s, t);
      l := Client(t, RecvSome(1));
    }
  }

  /**
   * Deadlock freedom. While any thread is in a call some thread in a call, or the PLC, has a step; and as long as
   * no stream is garbled that step needs no I/O failure to rescue it.
   */
  lemma NeverStuck(s: State, t: nat) returns (l: Label)
    requires Reachable(s) && t < |s.threads| && Busy(s.threads[t].pc)
    ensures Next(s, l).Some?
    ensures l.Client? ==> l.thread < |s.threads| && Busy(s.threads[l.thread].pc)
    ensures (forall fd :: !s.WireOf(fd).garbled) ==> Forward(l)
  {
    ReachableInv(s);
    assert ThreadLocks(s, t);
    if s.global.Some? {
      assert ThreadLocks(s, s.global.value);
      l := UnblockedMoves(s, s.global.value);
    } else if s.threads[t].pc.FdWait? {
      l := FdWaiterOrOwnerMoves(s, t);
    } else {
      l := FreeGlobalMoves(s, t);
    }
  }

  lemma FreeGlobalMoves(s: State, t: nat) returns (l: Label)
    requires Inv(s) && t < |s.threads| && s.global.None? && Busy(s.threads[t].pc) && !s.threads[t].pc.FdWait?
    ensures Next(s, l).Some? && (l.Plc? || l.thread == t)
    ensures (forall fd :: !s.WireOf(fd).garbled) ==> Forward(l)
  {
    if s.threads[t].pc.Reading? {
      l := ReaderMoves(s, t);
    } else if WaitsForGlobal(s.threads[t].pc) {
      l := WaiterMoves(s, t);
    } else {
      l := UnblockedMoves(s, t);
    }
  }

  lemma FdWaiterOrOwnerMoves(s: State, t: nat) returns (l: Label)
    requires Inv(s) && t < |s.threads| && s.global.None? && s.threads[t].pc.FdWait?
    ensures Next(s, l).Some? && (l.Client? ==> l.thread < |s.threads| && Busy(s.threads[l.thread].pc))
    ensures (forall fd :: !s.WireOf(fd).garbled) ==> Forward(l)
  {
    assert ThreadLocks(s, t);
    var m := Mutex(s.threads[t].protocol, s.threads[t].slot.value);
    if m !in s.owner {
      l := Client(t, Step);
    } else {
      assert OwnsOnly(s, s.owner[m]);
      l := FreeGlobalMoves(s, s.owner[m]);
    }
  }
}
