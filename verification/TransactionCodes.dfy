/** What the return codes of a connection tell about its stream, as long as no send failed part way. */
module TransactionCodes {
  import opened Wrappers
  import opened Transactions
  import opened TransactionFrames
  import opened TransactionLocks
  import opened TransactionPairing

  /** The codes that tell of no answer left unread or half read. */
  predicate Benign(c: Code) { c.Success? || c.SocketSendFailed? }

  /**
   * Whether a code speaks for the stream: without doubt if it is benign, and with doubt also if it is MALLOC_FAILED,
   * which leaves the answer behind unless its header was all of it.
   */
  predicate Speaks(c: Code, doubt: bool) { Benign(c) || (doubt && c.MallocFailed?) }

  predicate AllSpeak(cs: seq<Code>, doubt: bool) { forall i | 0 <= i < |cs| :: Speaks(cs[i], doubt) }

  predicate AllBenign(cs: seq<Code>) { AllSpeak(cs, false) }

  /** No thread is about to return another code on this connection. */
  ghost predicate NoBadLeaver(s: State, fd: int, doubt: bool)
  {
    forall u | 0 <= u < |s.threads| && Leaving(s.threads[u].pc) && s.threads[u].fd == fd ::
      Speaks(s.threads[u].result, doubt)
  }

  /** What the codes of a connection, those returned and those about to be, say of its stream. */
  ghost predicate AllSpeakFor(s: State, fd: int, doubt: bool)
  {
    AllSpeak(s.ReturnedOf(fd), doubt) && NoBadLeaver(s, fd, doubt)
  }

  /** The stream is whole, with no answer late, if all codes are benign, and only if all are but for a doubt. */
  ghost predicate FdCodes(s: State, fd: int)
  {
    !s.WireOf(fd).torn ==>
      (AllSpeakFor(s, fd, false) ==> !s.WireOf(fd).Broken()) && (!s.WireOf(fd).Broken() ==> AllSpeakFor(s, fd, true))
  }

  /** What a thread found on entry, as the codes returned before tell it. */
  ghost predicate Informed(w: Wire, codes: seq<Code>, th: Thread)
  {
    HoldsFd(th.pc) || (th.pc.Done? && th.result.Success?) ==>
      th.past.entry <= |codes| && (!w.torn && AllBenign(codes[..th.past.entry]) ==> th.past.Clean())
  }

  ghost predicate ThreadCodes(s: State, u: nat)
    requires u < |s.threads|
  {
    Informed(s.WireOf(s.threads[u].fd), s.ReturnedOf(s.threads[u].fd), s.threads[u])
  }

  ghost predicate CodesInv(s: State)
  {
    (forall u | 0 <= u < |s.threads| :: ThreadCodes(s, u)) && forall fd :: FdCodes(s, fd)
  }

  /** A step of one thread on at most its own connection. */
  lemma OthersKeepCodes(s: State, t: nat, s': State)
    requires CodesInv(s) && t < |s.threads| == |s'.threads| && s'.threads == s.threads[t := s'.threads[t]]
    requires forall g | g != s'.threads[t].fd :: s'.WireOf(g) == s.WireOf(g) && s'.ReturnedOf(g) == s.ReturnedOf(g)
    requires s.WireOf(s'.threads[t].fd).torn ==> s'.WireOf(s'.threads[t].fd).torn
    requires s.ReturnedOf(s'.threads[t].fd) <= s'.ReturnedOf(s'.threads[t].fd)
    requires Leaving(s.threads[t].pc) ==> s.threads[t].fd == s'.threads[t].fd
    requires FdCodes(s', s'.threads[t].fd) && ThreadCodes(s', t)
    ensures CodesInv(s')
  {
    var fd := s'.threads[t].fd;
    forall u | 0 <= u < |s'.threads| ensures ThreadCodes(s', u) {
      assert ThreadCodes(s, u);
      if u != t {
        var th := s.threads[u];
        assert s'.threads[u] == th;
        LaterInformed(s.WireOf(th.fd), s.ReturnedOf(th.fd), s'.WireOf(th.fd), s'.ReturnedOf(th.fd), th);
      }
    }
    forall g | g != fd ensures FdCodes(s', g) {
      assert FdCodes(s, g);
      forall doubt: bool ensures NoBadLeaver(s', g, doubt) <==> NoBadLeaver(s, g, doubt) {
        ElsewhereSame(s, t, s', g, doubt);
      }
    }
  }

  lemma ElsewhereSame(s: State, t: nat, s': State, fd: int, doubt: bool)
    requires t < |s.threads| == |s'.threads| && s'.threads == s.threads[t := s'.threads[t]] && fd != s'.threads[t].fd
    requires Leaving(s.threads[t].pc) ==> s.threads[t].fd == s'.threads[t].fd
    ensures NoBadLeaver(s', fd, doubt) <==> NoBadLeaver(s, fd, doubt)
  {
    forall u | 0 <= u < |s.threads| && u != t ensures s'.threads[u] == s.threads[u] {}
  }

  lemma LaterInformed(w: Wire, codes: seq<Code>, w': Wire, codes': seq<Code>, th: Thread)
    requires Informed(w, codes, th) && (w.torn ==> w'.torn) && codes <= codes'
    ensures Informed(w', codes', th)
  {
    if HoldsFd(th.pc) || (th.pc.Done? && th.result.Success?) {
      assert codes'[..th.past.entry] == codes[..th.past.entry];
    }
  }

  /** A thread that starts to leave, or leaves, with a benign code. */
  ghost predicate LeavesWell(th: Thread, th': Thread)
  {
    && (Leaving(th.pc) ==> Leaving(th'.pc) && th'.result == th.result && th'.fd == th.fd)
    && (Leaving(th'.pc) && !Leaving(th.pc) ==> Benign(th'.result))
  }

  lemma SameLeavers(s: State, t: nat, s': State, fd: int, doubt: bool)
    requires t < |s.threads| == |s'.threads| && s'.threads == s.threads[t := s'.threads[t]]
    requires LeavesWell(s.threads[t], s'.threads[t])
    ensures NoBadLeaver(s', fd, doubt) <==> NoBadLeaver(s, fd, doubt)
  {
    assert forall u | 0 <= u < |s.threads| && u != t :: s'.threads[u] == s.threads[u];
    if NoBadLeaver(s', fd, doubt) {
      forall u | 0 <= u < |s.threads| && Leaving(s.threads[u].pc) && s.threads[u].fd == fd
        ensures Speaks(s.threads[u].result, doubt)
      {
        assert Leaving(s'.threads[u].pc) && s'.threads[u].fd == fd;
      }
    }
  }

  lemma SameCodes(s: State, t: nat, s': State, fd: int)
    requires t < |s.threads| == |s'.threads| && s'.threads == s.threads[t := s'.threads[t]]
    requires LeavesWell(s.threads[t], s'.threads[t]) && s'.ReturnedOf(fd) == s.ReturnedOf(fd)
    ensures forall doubt: bool :: AllSpeakFor(s', fd, doubt) <==> AllSpeakFor(s, fd, doubt)
  {
    SameLeavers(s, t, s', fd, false);
    SameLeavers(s, t, s', fd, true);
  }

  /** A step that leaves the connections alone. */
  lemma QuietKeepsCodes(s: State, t: nat, s': State)
    requires CodesInv(s) && t < |s.threads| == |s'.threads| && s'.threads == s.threads[t := s'.threads[t]]
    requires s'.wires == s.wires && s'.returned == s.returned
    requires LeavesWell(s.threads[t], s'.threads[t]) && ThreadCodes(s', t)
    ensures CodesInv(s')
  {
    var fd := s'.threads[t].fd;
    SameCodes(s, t, s', fd);
    assert FdCodes(s, fd);
    OthersKeepCodes(s, t, s');
  }

  // ---- Before the mutex ----

  lemma BeginKeepsCodes(s: State, t: nat, e: Event, s': State)
    requires CodesInv(s) && t < |s.threads| && (s.threads[t].pc.Idle? || s.threads[t].pc.Done?)
    requires BeginStep(s, t, e) == Some(s')
    ensures CodesInv(s')
  {
    QuietKeepsCodes(s, t, s');
  }

  lemma ConnectKeepsCodes(s: State, t: nat, e: Event, s': State)
    requires CodesInv(s) && t < |s.threads| && ConnectStep(s, t, e) == Some(s')
    ensures CodesInv(s')
  {
    ConnectTouchesNothing(s, t, e, s');
    QuietKeepsCodes(s, t, s');
  }

  lemma PackKeepsCodes(s: State, t: nat, e: Event, s': State)
    requires CodesInv(s) && t < |s.threads| && PackStep(s, t, e) == Some(s')
    ensures CodesInv(s')
  {
    PackTouchesNothing(s, t, e, s');
    QuietKeepsCodes(s, t, s');
  }

  lemma LookupKeepsCodes(s: State, t: nat, e: Event, s': State)
    requires CodesInv(s) && t < |s.threads| && LookupStep(s, t, e) == Some(s')
    ensures CodesInv(s')
  {
    LookupTouchesNothing(s, t, e, s');
    QuietKeepsCodes(s, t, s');
  }

  /** Nobody is leaving when the mutex is free, so the codes returned tell the state of the stream. */
  lemma AcquireKeepsCodes(s: State, t: nat, e: Event, s': State)
    requires LockInv(s) && CodesInv(s) && t < |s.threads| && s.threads[t].pc.FdWait? && FdStep(s, t, e) == Some(s')
    ensures CodesInv(s')
  {
    var fd := s.threads[t].fd;
    FreeMutexMeansNotHeld(s, t);
    assert FdCodes(s, fd);
    assert NoBadLeaver(s, fd, false);
    var codes := s.ReturnedOf(fd);
    assert codes[..|codes|] == codes;
    QuietKeepsCodes(s, t, s');
  }

  // ---- Holding the mutex ----

  /** A step of the holder that leaves the connections alone. */
  lemma IdlingKeepsCodes(s: State, t: nat, s': State)
    requires CodesInv(s) && t < |s.threads| == |s'.threads| && s'.threads == s.threads[t := s'.threads[t]]
    requires s'.wires == s.wires && s'.returned == s.returned
    requires HoldsFd(s.threads[t].pc) && HoldsFd(s'.threads[t].pc) && s'.threads[t].past == s.threads[t].past
    requires LeavesWell(s.threads[t], s'.threads[t]) && s'.threads[t].fd == s.threads[t].fd
    ensures CodesInv(s')
  {
    assert ThreadCodes(s, t);
    QuietKeepsCodes(s, t, s');
  }

  lemma ConfigKeepsCodes(s: State, t: nat, e: Event, s': State)
    requires CodesInv(s) && t < |s.threads| && s.threads[t].pc.GetConfig? && FdStep(s, t, e) == Some(s')
    ensures CodesInv(s')
  {
    IdlingKeepsCodes(s, t, s');
  }

  lemma RetryKeepsCodes(s: State, t: nat, e: Event, s': State)
    requires CodesInv(s) && t < |s.threads| && RetryStep(s, t, e) == Some(s')
    ensures CodesInv(s')
  {
    if s.threads[t].pc.SendLeave? {
      AfterSendTouchesNothing(s, t, e, s');
    } else {
      RetryTouchesNothing(s, t, e, s');
    }
    IdlingKeepsCodes(s, t, s');
  }

  lemma UnlockKeepsCodes(s: State, t: nat, e: Event, s': State)
    requires CodesInv(s) && t < |s.threads| && ThreadLocks(s, t) && !s.threads[t].pc.Release?
    requires UnlockStep(s, t, e) == Some(s')
    ensures CodesInv(s')
  {
    UnlockTouchesNothing(s, t, e, s');
    UnlockIdles(s, t, e, s');
    IdlingKeepsCodes(s, t, s');
  }

  lemma SendKeepsCodes(s: State, t: nat, e: Event, s': State)
    requires CodesInv(s) && t < |s.threads| && SendStep(s, t, e) == Some(s')
    ensures CodesInv(s')
  {
    var fd := s.threads[t].fd;
    assert ThreadCodes(s, t) && FdCodes(s, fd);
    if e.SendFailed? { FailedSendMayTear(s, t, e, s'); } else { SendMayTear(s, t, e, s'); }
    SameCodes(s, t, s', fd);
    OthersKeepCodes(s, t, s');
  }

  /** A send tears the stream or leaves its soundness as it was. */
  ghost predicate MayTear(s: State, t: nat, s': State)
    requires t < |s.threads|
  {
    && |s'.threads| == |s.threads| && s'.threads == s.threads[t := s'.threads[t]] && s'.returned == s.returned
    && s'.threads[t].fd == s.threads[t].fd && (forall g | g != s.threads[t].fd :: s'.WireOf(g) == s.WireOf(g))
    && s.threads[t].pc.Sending? && HoldsFd(s'.threads[t].pc) && !Leaving(s'.threads[t].pc)
    && s'.threads[t].past.entry == s.threads[t].past.entry
    && var w, w' := s.WireOf(s.threads[t].fd), s'.WireOf(s.threads[t].fd);
       && (w.torn ==> w'.torn)
       && (!w'.torn ==> w'.Broken() == w.Broken() && s'.threads[t].past.Clean() == s.threads[t].past.Clean())
  }

  lemma FailedSendMayTear(s: State, t: nat, e: Event, s': State)
    requires t < |s.threads| && SendStep(s, t, e) == Some(s') && e.SendFailed?
    ensures MayTear(s, t, s')
  {
  }

  lemma SendMayTear(s: State, t: nat, e: Event, s': State)
    requires t < |s.threads| && SendStep(s, t, e) == Some(s') && !e.SendFailed?
    ensures MayTear(s, t, s')
  {
  }

  // ---- Reading ----

  /** A read that fails makes the stream broken and the thread return another code. */
  lemma FailedReadKeepsCodes(s: State, t: nat, e: Event, s': State)
    requires CodesInv(s) && t < |s.threads| && ReadStep(s, t, e) == Some(s') && e.RecvFailed?
    ensures CodesInv(s')
  {
    var fd := s.threads[t].fd;
    assert ThreadCodes(s, t) && s'.WireOf(fd).Broken();
    assert Leaving(s'.threads[t].pc) && !Benign(s'.threads[t].result);
    OthersKeepCodes(s, t, s');
  }

  /** Without memory the code leaves a doubt. */
  lemma NoMemoryKeepsCodes(s: State, t: nat, e: Event, s': State)
    requires CodesInv(s) && t < |s.threads| && ReadStep(s, t, e) == Some(s') && e.NoMemory?
    ensures CodesInv(s')
  {
    var fd := s.threads[t].fd;
    assert ThreadCodes(s, t) && FdCodes(s, fd);
    NoMemoryEffect(s, t, e, s');
    ReadTouchesOwn(s, t, e, s');
    assert Leaving(s'.threads[t].pc) && s'.threads[t].result.MallocFailed?;
    if NoBadLeaver(s, fd, true) { DoubtfulLeaver(s, t, s', fd); }
    OthersKeepCodes(s, t, s');
  }

  lemma DoubtfulLeaver(s: State, t: nat, s': State, fd: int)
    requires t < |s.threads| == |s'.threads| && s'.threads == s.threads[t := s'.threads[t]]
    requires NoBadLeaver(s, fd, true) && s'.threads[t].result.MallocFailed?
    ensures NoBadLeaver(s', fd, true)
  {
    assert forall u | 0 <= u < |s.threads| && u != t :: s'.threads[u] == s.threads[u];
  }

  lemma ReadKeepsCodes(s: State, t: nat, e: Event, s': State)
    requires CodesInv(s) && t < |s.threads| && ReadStep(s, t, e) == Some(s') && e.RecvSome?
    ensures CodesInv(s')
  {
    var fd, th' := s.threads[t].fd, s'.threads[t];
    assert ThreadCodes(s, t) && FdCodes(s, fd);
    if Leaving(th'.pc) && !Benign(th'.result) {
      assert s'.WireOf(fd).Broken();
    } else {
      SameCodes(s, t, s', fd);
    }
    OthersKeepCodes(s, t, s');
  }

  // ---- The release ----

  lemma ReleaseKeepsCodes(s: State, t: nat, e: Event, s': State)
    requires CodesInv(s) && t < |s.threads| && s.threads[t].pc.Release? && UnlockStep(s, t, e) == Some(s')
    ensures CodesInv(s')
  {
    var fd, th := s.threads[t].fd, s.threads[t];
    assert ThreadCodes(s, t) && FdCodes(s, fd);
    var codes, codes' := s.ReturnedOf(fd), s'.ReturnedOf(fd);
    assert codes' == codes + [th.result];
    LaterInformed(s.WireOf(fd), codes, s'.WireOf(fd), codes', th);
    CodeMoves(s, t, s', fd, false);
    CodeMoves(s, t, s', fd, true);
    OthersKeepCodes(s, t, s');
  }

  /** The code of the thread that leaves joins the codes returned. */
  lemma CodeMoves(s: State, t: nat, s': State, fd: int, doubt: bool)
    requires t < |s.threads| == |s'.threads| && s'.threads == s.threads[t := s'.threads[t]]
    requires Leaving(s.threads[t].pc) && s.threads[t].fd == fd && !Leaving(s'.threads[t].pc)
    requires s'.ReturnedOf(fd) == s.ReturnedOf(fd) + [s.threads[t].result]
    ensures AllSpeakFor(s', fd, doubt) <==> AllSpeakFor(s, fd, doubt)
  {
    var codes, codes' := s.ReturnedOf(fd), s'.ReturnedOf(fd);
    assert AllSpeak(codes', doubt) <==> AllSpeak(codes, doubt) && Speaks(s.threads[t].result, doubt) by {
      assert codes'[|codes|] == s.threads[t].result && forall i | 0 <= i < |codes| :: codes'[i] == codes[i];
    }
    assert forall u | 0 <= u < |s.threads| && u != t :: s'.threads[u] == s.threads[u];
    if NoBadLeaver(s', fd, doubt) && Speaks(s.threads[t].result, doubt) {
      forall u | 0 <= u < |s.threads| && Leaving(s.threads[u].pc) && s.threads[u].fd == fd
        ensures Speaks(s.threads[u].result, doubt)
      {
        if u != t { assert Leaving(s'.threads[u].pc) && s'.threads[u].fd == fd; }
      }
    }
  }

  lemma PlcKeepsCodes(s: State, s': State)
    requires CodesInv(s) && s'.threads == s.threads && s'.returned == s.returned
    requires forall g :: s'.WireOf(g).torn == s.WireOf(g).torn && s'.WireOf(g).Broken() == s.WireOf(g).Broken()
    ensures CodesInv(s')
  {
    forall u | 0 <= u < |s'.threads| ensures ThreadCodes(s', u) { assert ThreadCodes(s, u); }
    forall g ensures FdCodes(s', g) {
      assert FdCodes(s, g);
      assert NoBadLeaver(s', g, false) <==> NoBadLeaver(s, g, false);
      assert NoBadLeaver(s', g, true) <==> NoBadLeaver(s, g, true);
    }
  }

  /** Every step keeps the codes telling. */
  lemma NextKeepsCodes(s: State, l: Label, s': State)
    requires LockInv(s) && CodesInv(s) && Next(s, l) == Some(s')
    ensures CodesInv(s')
  {
    if l.Client? {
      var t, e := l.thread, l.event;
      assert ThreadLocks(s, t);
      match s.threads[t].pc
      case Idle | Done => BeginKeepsCodes(s, t, e, s');
      case ConnectWait | ConnectNetwork | ConnectStation | ConnectLeave => ConnectKeepsCodes(s, t, e, s');
      case PackWait | PackNetwork | PackStation | PackLeave => PackKeepsCodes(s, t, e, s');
      case TableWait | TableLookup | TableLeave => LookupKeepsCodes(s, t, e, s');
      case FdWait => AcquireKeepsCodes(s, t, e, s');
      case GetConfig => ConfigKeepsCodes(s, t, e, s');
      case SendWait | SendLeave | Sleeping => RetryKeepsCodes(s, t, e, s');
      case Sending => SendKeepsCodes(s, t, e, s');
      case Reading =>
        if e.RecvFailed? {
          FailedReadKeepsCodes(s, t, e, s');
        } else if e.RecvSome? {
          ReadKeepsCodes(s, t, e, s');
        } else if e.NoMemory? {
          NoMemoryKeepsCodes(s, t, e, s');
        }
      case FindWait | FindSlot | FindLeave => UnlockKeepsCodes(s, t, e, s');
      case Release => ReleaseKeepsCodes(s, t, e, s');
    } else {
      PlcKeepsCodes(s, s');
    }
  }
}
