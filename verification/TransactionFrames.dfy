/** What the steps of the transaction machine leave alone. */
module TransactionFrames {
  import opened Wrappers
  import opened Bytes
  import opened Framing
  import opened Transactions

  /** Only thread t changes, and nothing of any connection. */
  ghost predicate TouchesNothing(s: State, t: nat, s': State)
    requires t < |s.threads|
  {
    && |s'.threads| == |s.threads| && s'.threads == s.threads[t := s'.threads[t]]
    && s'.wires == s.wires && s'.asciiFds == s.asciiFds && s'.returned == s.returned
  }

  lemma BeginTouchesNothing(s: State, t: nat, e: Event, s': State)
    requires t < |s.threads| && BeginStep(s, t, e) == Some(s')
    ensures TouchesNothing(s, t, s') && !HoldsFd(s'.threads[t].pc) && !s'.threads[t].pc.Done?
  {
  }

  lemma ConnectTouchesNothing(s: State, t: nat, e: Event, s': State)
    requires t < |s.threads| && ConnectStep(s, t, e) == Some(s')
    ensures TouchesNothing(s, t, s')
    ensures !HoldsFd(s.threads[t].pc) && !HoldsFd(s'.threads[t].pc) && !s'.threads[t].pc.Done?
  {
  }

  lemma PackTouchesNothing(s: State, t: nat, e: Event, s': State)
    requires t < |s.threads| && PackStep(s, t, e) == Some(s')
    ensures TouchesNothing(s, t, s')
    ensures !HoldsFd(s.threads[t].pc) && !HoldsFd(s'.threads[t].pc)
            && (s'.threads[t].pc.Done? ==> !s'.threads[t].result.Success?)
  {
  }

  lemma LookupTouchesNothing(s: State, t: nat, e: Event, s': State)
    requires t < |s.threads| && LookupStep(s, t, e) == Some(s')
    ensures TouchesNothing(s, t, s')
    ensures !HoldsFd(s.threads[t].pc) && !HoldsFd(s'.threads[t].pc)
            && (s'.threads[t].pc.Done? ==> !s'.threads[t].result.Success?)
  {
  }

  lemma FdTouchesNothing(s: State, t: nat, e: Event, s': State)
    requires t < |s.threads| && FdStep(s, t, e) == Some(s')
    ensures TouchesNothing(s, t, s') && HoldsFd(s'.threads[t].pc) && s'.threads[t].fd == s.threads[t].fd
  {
  }

  lemma AfterSendTouchesNothing(s: State, t: nat, e: Event, s': State)
    requires t < |s.threads| && s.threads[t].pc.SendLeave? && RetryStep(s, t, e) == Some(s')
    ensures TouchesNothing(s, t, s') && s'.threads[t] == AfterSend(s.threads[t])
  {
  }

  lemma RetryTouchesNothing(s: State, t: nat, e: Event, s': State)
    requires t < |s.threads| && !s.threads[t].pc.SendLeave? && RetryStep(s, t, e) == Some(s')
    ensures TouchesNothing(s, t, s') && HoldsFd(s.threads[t].pc) && HoldsFd(s'.threads[t].pc)
    ensures s'.threads[t].fd == s.threads[t].fd && s'.threads[t].past == s.threads[t].past
  {
  }

  lemma UnlockTouchesNothing(s: State, t: nat, e: Event, s': State)
    requires t < |s.threads| && !s.threads[t].pc.Release? && UnlockStep(s, t, e) == Some(s')
    ensures TouchesNothing(s, t, s') && s'.threads[t].fd == s.threads[t].fd && s'.threads[t].past == s.threads[t].past
    ensures HoldsFd(s.threads[t].pc)
  {
  }

  /** The release adds the code to what the connection has returned. */
  lemma ReleaseTouches(s: State, t: nat, e: Event, s': State)
    requires t < |s.threads| && s.threads[t].pc.Release? && UnlockStep(s, t, e) == Some(s')
    ensures |s'.threads| == |s.threads| && s'.threads == s.threads[t := s.threads[t].(pc := Done)]
    ensures s'.wires == s.wires && s'.asciiFds == s.asciiFds
    ensures s'.ReturnedOf(s.threads[t].fd) == s.ReturnedOf(s.threads[t].fd) + [s.threads[t].result]
    ensures forall g | g != s.threads[t].fd :: s'.ReturnedOf(g) == s.ReturnedOf(g)
  {
  }

  /** Only thread t and its own connection change. */
  ghost predicate TouchesOwn(s: State, t: nat, s': State)
    requires t < |s.threads|
  {
    && |s'.threads| == |s.threads| && s'.threads == s.threads[t := s'.threads[t]]
    && s'.asciiFds == s.asciiFds && s'.returned == s.returned && s'.threads[t].fd == s.threads[t].fd
    && forall g | g != s.threads[t].fd :: s'.WireOf(g) == s.WireOf(g)
  }

  lemma SendTouchesOwn(s: State, t: nat, e: Event, s': State)
    requires t < |s.threads| && SendStep(s, t, e) == Some(s')
    ensures TouchesOwn(s, t, s')
  {
  }

  lemma ReadTouchesOwn(s: State, t: nat, e: Event, s': State)
    requires t < |s.threads| && ReadStep(s, t, e) == Some(s')
    ensures TouchesOwn(s, t, s')
  {
  }

  /** A send of part of what is left of the request. */
  lemma SendPartEffect(s: State, t: nat, e: Event, s': State)
    requires t < |s.threads| && SendStep(s, t, e) == Some(s')
    requires e.SendSome? && s.threads[t].offset + e.count < |s.threads[t].command|
    ensures var th, w, n := s.threads[t], s.WireOf(s.threads[t].fd), s.threads[t].offset + e.count;
            s'.threads[t] == th.(offset := n) && s'.WireOf(th.fd) == w.(toPlc := w.toPlc + th.command[th.offset..n])
  {
  }

  /** A send of all of it. */
  lemma SendRestEffect(s: State, t: nat, e: Event, s': State)
    requires t < |s.threads| && SendStep(s, t, e) == Some(s')
    requires e.SendSome? && s.threads[t].offset + e.count == |s.threads[t].command|
    ensures var th, w, n := s.threads[t], s.WireOf(s.threads[t].fd), |s.threads[t].command|;
            && s'.threads[t] == th.(pc := SendLeave, offset := n, sendOk := true, past := th.past.(index := |w.sent|),
                                    got := [])
            && s'.WireOf(th.fd) == w.(toPlc := w.toPlc + th.command[th.offset..n],
                                      sent := w.sent + [Sent(t, th.serial, th.command)])
  {
  }

  lemma ReadSomeEffect(s: State, t: nat, e: Event, s': State)
    requires t < |s.threads| && ReadStep(s, t, e) == Some(s') && e.RecvSome?
    ensures var th, w := s.threads[t], s.WireOf(s.threads[t].fd);
            && th.pc.Reading? && 0 < e.count <= |w.toClient| && WantsMore(th.protocol, th.got)
            && |th.got| + e.count <= Wanted(th.protocol, th.got).value
            && var got := th.got + w.toClient[..e.count];
               s'.threads[t] == AfterRead(th, got)
               && s'.WireOf(th.fd) == w.(toClient := w.toClient[e.count..],
                                         garbled := w.garbled || Wanted(th.protocol, got).None?)
  {
  }

  lemma NoMemoryEffect(s: State, t: nat, e: Event, s': State)
    requires t < |s.threads| && ReadStep(s, t, e) == Some(s') && e.NoMemory?
    ensures var th, w := s.threads[t], s.WireOf(s.threads[t].fd);
            && th.pc.Reading? && Brings(th, w, e.count)
            && var got := th.got + w.toClient[..e.count];
               && EndsHeader(th, got) && s'.threads[t] == th.(pc := FindWait, got := got, result := MallocFailed)
               && s'.WireOf(th.fd) == w.(toClient := w.toClient[e.count..],
                                         garbled := w.garbled || WantsMore(th.protocol, got))
  {
  }

  /** The PLC takes the first n bytes, one frame, and adds its answer. */
  ghost predicate PlcTakes(s: State, fd: int, n: nat, response: seq<Byte>, s': State)
  {
    var w := s.WireOf(fd);
    && HeaderSize(s.ProtocolOf(fd)) <= |w.toPlc| && FrameSize(s.ProtocolOf(fd), w.toPlc) == Some(n) && n <= |w.toPlc|
    && IsFrame(s.ProtocolOf(fd), response)
    && s'.WireOf(fd) == w.(toPlc := w.toPlc[n..], toClient := w.toClient + response,
                           served := w.served + [Exchange(w.toPlc[..n], response)])
    && (forall g | g != fd :: s'.WireOf(g) == s.WireOf(g))
    && s'.threads == s.threads && s'.asciiFds == s.asciiFds && s'.returned == s.returned
  }

  lemma PlcEffect(s: State, fd: int, response: seq<Byte>, s': State) returns (n: nat)
    requires PlcStep(s, fd, response) == Some(s')
    ensures PlcTakes(s, fd, n, response, s')
  {
    n := FrameSize(s.ProtocolOf(fd), s.WireOf(fd).toPlc).value;
  }

  /** The other threads stay as they are in every step. */
  lemma OnlyThread(s: State, l: Label, s': State)
    requires Next(s, l) == Some(s')
    ensures |s'.threads| == |s.threads|
    ensures forall u | 0 <= u < |s.threads| && (l.Plc? || u != l.thread) :: s'.threads[u] == s.threads[u]
  {
    if l.Plc? {
      var n := PlcEffect(s, l.fd, l.response, s');
    } else {
      var t, e := l.thread, l.event;
      match s.threads[t].pc
      case Idle | Done => BeginTouchesNothing(s, t, e, s');
      case ConnectWait | ConnectNetwork | ConnectStation | ConnectLeave => ConnectTouchesNothing(s, t, e, s');
      case PackWait | PackNetwork | PackStation | PackLeave => PackTouchesNothing(s, t, e, s');
      case TableWait | TableLookup | TableLeave => LookupTouchesNothing(s, t, e, s');
      case FdWait | GetConfig => FdTouchesNothing(s, t, e, s');
      case SendLeave => AfterSendTouchesNothing(s, t, e, s');
      case SendWait | Sleeping => RetryTouchesNothing(s, t, e, s');
      case Sending => SendTouchesOwn(s, t, e, s');
      case Reading => ReadTouchesOwn(s, t, e, s');
      case FindWait | FindSlot | FindLeave => UnlockTouchesNothing(s, t, e, s');
      case Release => ReleaseTouches(s, t, e, s');
    }
  }

  // ---- What the history records ----

  /** The step is thread t's, on connection fd. */
  predicate Moves(s: State, l: Label, fd: int)
  {
    l.Client? && l.thread < |s.threads| && s.threads[l.thread].fd == fd
  }

  /** A send failed after part of the request. */
  predicate Tears(s: State, l: Label, fd: int)
  {
    Moves(s, l, fd) && s.threads[l.thread].pc.Sending? && l.event.SendFailed? && s.threads[l.thread].offset > 0
  }

  /** A receive failed before the first byte of the response. */
  predicate Misses(s: State, l: Label, fd: int)
  {
    Moves(s, l, fd) && s.threads[l.thread].pc.Reading? && l.event.RecvFailed? && s.threads[l.thread].got == []
  }

  /**
   * A receive failed inside a response, or completed a header that is rejected, or one whose response does not fit
   * into memory and is left unread.
   */
  predicate Strands(s: State, l: Label, fd: int)
  {
    && Moves(s, l, fd) && s.threads[l.thread].pc.Reading?
    && var th, w := s.threads[l.thread], s.WireOf(fd);
       || (l.event.RecvFailed? && th.got != [])
       || (l.event.RecvSome? && l.event.count <= |w.toClient|
           && Wanted(th.protocol, th.got + w.toClient[..l.event.count]).None?)
       || (l.event.NoMemory? && l.event.count <= |w.toClient|
           && WantsMore(th.protocol, th.got + w.toClient[..l.event.count]))
  }

  ghost predicate Recorded(s: State, l: Label, s': State, fd: int)
  {
    var w, w' := s.WireOf(fd), s'.WireOf(fd);
    && (w'.torn <==> w.torn || Tears(s, l, fd))
    && (w'.garbled <==> w.garbled || Tears(s, l, fd) || Strands(s, l, fd))
    && w'.late == w.late + if Misses(s, l, fd) then 1 else 0
  }

  lemma SendRecorded(s: State, t: nat, e: Event, s': State, fd: int)
    requires t < |s.threads| && s.threads[t].pc.Sending? && SendStep(s, t, e) == Some(s')
    ensures Recorded(s, Client(t, e), s', fd)
  {
  }

  lemma ReadRecorded(s: State, t: nat, e: Event, s': State, fd: int)
    requires t < |s.threads| && s.threads[t].pc.Reading? && ReadStep(s, t, e) == Some(s')
    ensures Recorded(s, Client(t, e), s', fd)
  {
    if e.RecvSome? { ReadSomeEffect(s, t, e, s'); } else if e.NoMemory? { NoMemoryEffect(s, t, e, s'); }
  }

  lemma QuietRecorded(s: State, l: Label, s': State, fd: int)
    requires s'.wires == s.wires && l.Client? && l.thread < |s.threads|
    requires !s.threads[l.thread].pc.Sending? && !s.threads[l.thread].pc.Reading?
    ensures Recorded(s, l, s', fd)
  {
  }

  /**
   * The marks of a connection mean what they say: torn exactly by a send that failed part way, garbled by that or by
   * a receive that left part of a response behind, late by a receive that failed before the first byte.
   */
  lemma MarksAreExact(s: State, l: Label, s': State, fd: int)
    requires Next(s, l) == Some(s')
    ensures Recorded(s, l, s', fd)
  {
    if l.Plc? {
      var n := PlcEffect(s, l.fd, l.response, s');
    } else {
      var t, e := l.thread, l.event;
      match s.threads[t].pc
      case Idle | Done =>
        BeginTouchesNothing(s, t, e, s');
        QuietRecorded(s, l, s', fd);
      case ConnectWait | ConnectNetwork | ConnectStation | ConnectLeave =>
        ConnectTouchesNothing(s, t, e, s');
        QuietRecorded(s, l, s', fd);
      case PackWait | PackNetwork | PackStation | PackLeave =>
        PackTouchesNothing(s, t, e, s');
        QuietRecorded(s, l, s', fd);
      case TableWait | TableLookup | TableLeave =>
        LookupTouchesNothing(s, t, e, s');
        QuietRecorded(s, l, s', fd);
      case FdWait | GetConfig =>
        FdTouchesNothing(s, t, e, s');
        QuietRecorded(s, l, s', fd);
      case SendLeave =>
        AfterSendTouchesNothing(s, t, e, s');
        QuietRecorded(s, l, s', fd);
      case SendWait | Sleeping =>
        RetryTouchesNothing(s, t, e, s');
        QuietRecorded(s, l, s', fd);
      case Sending => SendRecorded(s, t, e, s', fd);
      case Reading => ReadRecorded(s, t, e, s', fd);
      case FindWait | FindSlot | FindLeave =>
        UnlockTouchesNothing(s, t, e, s');
        QuietRecorded(s, l, s', fd);
      case Release =>
        ReleaseTouches(s, t, e, s');
        QuietRecorded(s, l, s', fd);
    }
  }

  lemma FdPast(s: State, t: nat, e: Event, s': State)
    requires t < |s.threads| && FdStep(s, t, e) == Some(s')
    ensures |s'.threads| == |s.threads|
    ensures var th, past, w := s.threads[t], s'.threads[t].past, s.WireOf(s.threads[t].fd);
            past == if th.pc.FdWait? then Past(th.past.index, w.garbled, w.late, |s.ReturnedOf(th.fd)|, false)
                    else th.past
  {
  }

  lemma TransferPast(s: State, t: nat, e: Event, s': State)
    requires t < |s.threads| && (SendStep(s, t, e) == Some(s') || ReadStep(s, t, e) == Some(s'))
    ensures |s'.threads| == |s.threads|
    ensures var th, past := s.threads[t], s'.threads[t].past;
            if th.pc.Sending? && e.SendFailed? then past == th.past.(tore := th.past.tore || th.offset > 0)
            else past == th.past.(index := past.index)
  {
  }

  /** What a call notes when it takes the connection's mutex, and when one of its sends fails. */
  lemma PastIsExact(s: State, t: nat, e: Event, s': State)
    requires t < |s.threads| && ThreadStep(s, t, e) == Some(s')
    ensures |s'.threads| == |s.threads|
    ensures var th, past, w := s.threads[t], s'.threads[t].past, s.WireOf(s.threads[t].fd);
            && (th.pc.FdWait? ==>
                  past == Past(th.past.index, w.garbled, w.late, |s.ReturnedOf(th.fd)|, false))
            && (th.pc.Sending? && e.SendFailed? ==> past == th.past.(tore := th.past.tore || th.offset > 0))
            && (HoldsFd(th.pc) && !e.SendFailed? ==> past == th.past.(index := past.index))
  {
    OnlyThread(s, Client(t, e), s');
    match s.threads[t].pc
    case FdWait | GetConfig => FdPast(s, t, e, s');
    case SendLeave => AfterSendTouchesNothing(s, t, e, s');
    case SendWait | Sleeping => RetryTouchesNothing(s, t, e, s');
    case Sending | Reading => TransferPast(s, t, e, s');
    case FindWait | FindSlot | FindLeave => UnlockTouchesNothing(s, t, e, s');
    case Release => ReleaseTouches(s, t, e, s');
    case _ =>
  }
}
