/** Retries never duplicate a request: each transaction is sent whole at most once. */
module TransactionHistory {
  import opened Wrappers
  import opened Transactions
  import opened TransactionFrames
  import opened TransactionLocks
  import opened TransactionStations

  /** A recorded send belongs to a request its thread has begun and, if current, is no longer waiting to send. */
  ghost predicate Recorded(s: State, x: Sent)
  {
    && x.thread < |s.threads|
    && x.serial <= s.threads[x.thread].serial
    && (Pending(s.threads[x.thread]) ==> x.serial < s.threads[x.thread].serial)
  }

  ghost predicate AllRecorded(s: State)
  {
    forall fd, i | 0 <= i < |s.WireOf(fd).sent| :: Recorded(s, s.WireOf(fd).sent[i])
  }

  /** No two complete sends, on one connection or on two, are of the same transaction. */
  ghost predicate SentOnce(s: State)
  {
    forall fd, i, g, j | 0 <= i < |s.WireOf(fd).sent| && 0 <= j < |s.WireOf(g).sent| && (fd != g || i != j) ::
      !SameTransaction(s.WireOf(fd).sent[i], s.WireOf(g).sent[j])
  }

  predicate SameTransaction(x: Sent, y: Sent) { x.thread == y.thread && x.serial == y.serial }

  ghost predicate HistoryInv(s: State) { AllRecorded(s) && SentOnce(s) }

  ghost predicate SendsKept(s: State, s': State)
  {
    forall fd :: s'.WireOf(fd).sent == s.WireOf(fd).sent
  }

  lemma NothingSent(s: State, t: nat, s': State)
    requires HistoryInv(s) && t < |s.threads| == |s'.threads| && s'.threads == s.threads[t := s'.threads[t]]
    requires SendsKept(s, s')
    requires s.threads[t].serial <= s'.threads[t].serial
    requires Pending(s'.threads[t]) ==> s.threads[t].serial < s'.threads[t].serial || Pending(s.threads[t])
    ensures HistoryInv(s')
  {
    forall fd, i | 0 <= i < |s'.WireOf(fd).sent| ensures Recorded(s', s'.WireOf(fd).sent[i]) {
      assert Recorded(s, s.WireOf(fd).sent[i]);
    }
    forall fd, i, g, j | 0 <= i < |s'.WireOf(fd).sent| && 0 <= j < |s'.WireOf(g).sent| && (fd != g || i != j)
      ensures !SameTransaction(s'.WireOf(fd).sent[i], s'.WireOf(g).sent[j])
    {
      assert !SameTransaction(s.WireOf(fd).sent[i], s.WireOf(g).sent[j]);
    }
  }

  lemma SentWhole(s: State, t: nat, e: Event, s': State)
    requires HistoryInv(s) && t < |s.threads| && SendStep(s, t, e) == Some(s')
    requires e.SendSome? && s.threads[t].offset + e.count == |s.threads[t].command|
    ensures HistoryInv(s')
  {
    var th := s.threads[t];
    var n := |s.WireOf(th.fd).sent|;
    assert s'.WireOf(th.fd).sent == s.WireOf(th.fd).sent + [Sent(t, th.serial, th.command)];
    forall fd, i | 0 <= i < |s'.WireOf(fd).sent| ensures Recorded(s', s'.WireOf(fd).sent[i]) {
      if fd != th.fd || i < n { assert Recorded(s, s.WireOf(fd).sent[i]); }
    }
    forall fd, i, g, j | 0 <= i < |s'.WireOf(fd).sent| && 0 <= j < |s'.WireOf(g).sent| && (fd != g || i != j)
      ensures !SameTransaction(s'.WireOf(fd).sent[i], s'.WireOf(g).sent[j])
    {
      if fd != th.fd || i < n { assert Recorded(s, s.WireOf(fd).sent[i]); }
      if g != th.fd || j < n { assert Recorded(s, s.WireOf(g).sent[j]); }
      if (fd != th.fd || i < n) && (g != th.fd || j < n) {
        assert !SameTransaction(s.WireOf(fd).sent[i], s.WireOf(g).sent[j]);
      }
    }
  }

  lemma PackKeepsSerial(s: State, t: nat, e: Event, s': State)
    requires t < |s.threads| && PackStep(s, t, e) == Some(s')
    ensures s'.threads[t].serial == s.threads[t].serial && Pending(s.threads[t])
  {
  }

  lemma PackKeepsHistory(s: State, t: nat, e: Event, s': State)
    requires HistoryInv(s) && t < |s.threads| && PackStep(s, t, e) == Some(s')
    ensures HistoryInv(s')
  {
    PackTouchesNothing(s, t, e, s');
    PackKeepsSerial(s, t, e, s');
    NothingSent(s, t, s');
  }

  lemma ConnectKeepsSerial(s: State, t: nat, e: Event, s': State)
    requires t < |s.threads| && ConnectStep(s, t, e) == Some(s')
    ensures s'.threads[t].serial == s.threads[t].serial && !Pending(s'.threads[t])
  {
    assert s'.threads[t] == s.threads[t].(pc := s'.threads[t].pc);
  }

  lemma ConnectKeepsHistory(s: State, t: nat, e: Event, s': State)
    requires HistoryInv(s) && t < |s.threads| && ConnectStep(s, t, e) == Some(s')
    ensures HistoryInv(s')
  {
    ConnectTouchesNothing(s, t, e, s');
    ConnectKeepsSerial(s, t, e, s');
    NothingSent(s, t, s');
  }

  lemma BeginKeepsHistory(s: State, t: nat, e: Event, s': State)
    requires HistoryInv(s) && t < |s.threads| && BeginStep(s, t, e) == Some(s')
    ensures HistoryInv(s')
  {
    NothingSent(s, t, s');
  }

  lemma NotWholeKeepsSends(s: State, t: nat, e: Event, s': State)
    requires t < |s.threads| && InTransaction(s.threads[t].pc) && ThreadStep(s, t, e) == Some(s')
    requires !(s.threads[t].pc.Sending? && e.SendSome? && s.threads[t].offset + e.count == |s.threads[t].command|)
    ensures SendsKept(s, s')
  {
    match s.threads[t].pc
    case TableWait | TableLookup | TableLeave => LookupTouchesNothing(s, t, e, s');
    case FdWait | GetConfig => FdTouchesNothing(s, t, e, s');
    case SendLeave => AfterSendTouchesNothing(s, t, e, s');
    case SendWait | Sleeping => RetryTouchesNothing(s, t, e, s');
    case FindWait | FindSlot | FindLeave => UnlockTouchesNothing(s, t, e, s');
    case Release => ReleaseTouches(s, t, e, s');
    case Sending | Reading => TransferKeepsSends(s, t, e, s');
  }

  lemma TransferKeepsSends(s: State, t: nat, e: Event, s': State)
    requires t < |s.threads| && (SendStep(s, t, e) == Some(s') || ReadStep(s, t, e) == Some(s'))
    requires !(s.threads[t].pc.Sending? && e.SendSome? && s.threads[t].offset + e.count == |s.threads[t].command|)
    ensures SendsKept(s, s')
  {
  }

  /** Every step keeps the record. */
  lemma NextKeepsHistory(s: State, l: Label, s': State)
    requires HistoryInv(s) && Next(s, l) == Some(s')
    ensures HistoryInv(s')
  {
    if l.Client? {
      var t, e := l.thread, l.event;
      var pc := s.threads[t].pc;
      if InTransaction(pc) {
        if pc.Sending? && e.SendSome? && s.threads[t].offset + e.count == |s.threads[t].command| {
          SentWhole(s, t, e, s');
        } else {
          TransactionLeaves(s, t, e, s');
          NotWholeKeepsSends(s, t, e, s');
          NothingSent(s, t, s');
        }
      } else if pc.Idle? || pc.Done? {
        BeginKeepsHistory(s, t, e, s');
      } else if pc.PackWait? || pc.PackNetwork? || pc.PackStation? || pc.PackLeave? {
        PackKeepsHistory(s, t, e, s');
      } else {
        ConnectKeepsHistory(s, t, e, s');
      }
    } else {
      assert SendsKept(s, s');
      forall fd, i | 0 <= i < |s'.WireOf(fd).sent| ensures Recorded(s', s'.WireOf(fd).sent[i]) {
        assert Recorded(s, s.WireOf(fd).sent[i]);
      }
    }
  }
}
