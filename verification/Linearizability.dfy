/** The order in which requests take effect respects real time: the threads' transactions are linearizable. */
module Linearizability {
  import opened Wrappers
  import opened Transactions
  import opened Serialized
  import TransactionFrames
  import TransactionHistory
  import TransactionPairing
  import TransactionTheorems
  import Plc

  lemma StepExtends(x: System, l: Label, y: System, fd: int)
    requires SystemNext(x, l, y)
    ensures x.log <= y.log && x.state.WireOf(fd).sent <= y.state.WireOf(fd).sent
    ensures x.state.WireOf(fd).Broken() ==> y.state.WireOf(fd).Broken()
  {
    if l.Client? {
      ClientAdvances(x.state, l.thread, l.event, y.state, fd);
    } else {
      PlcAddsOneAnswer(x.state, l.fd, l.response, y.state, fd);
    }
  }

  lemma RunStepExtends(xs: seq<System>, labels: seq<Label>, j: nat, fd: int)
    requires SystemRun(xs, labels) && 0 < j < |xs|
    ensures xs[j - 1].log <= xs[j].log && xs[j - 1].state.WireOf(fd).sent <= xs[j].state.WireOf(fd).sent
    ensures xs[j - 1].state.WireOf(fd).Broken() ==> xs[j].state.WireOf(fd).Broken()
  {
    StepExtends(xs[j - 1], labels[j - 1], xs[j], fd);
  }

  /** Later in a run, the log and the sends of a connection have only grown, and what broke stays broken. */
  lemma {:induction false} LaterExtends(xs: seq<System>, labels: seq<Label>, i: nat, j: nat, fd: int)
    requires SystemRun(xs, labels) && i <= j < |xs|
    ensures xs[i].log <= xs[j].log && xs[i].state.WireOf(fd).sent <= xs[j].state.WireOf(fd).sent
    ensures xs[i].state.WireOf(fd).Broken() ==> xs[j].state.WireOf(fd).Broken()
    decreases j
  {
    if i < j {
      LaterExtends(xs, labels, i, j - 1, fd);
      RunStepExtends(xs, labels, j, fd);
    }
  }

  /** A thread's request is marked clean only while it is read off a connection that is not broken. */
  ghost predicate MarkedFairly(s: State, a: Thread, b: Thread)
  {
    && b.serial >= a.serial && (b.serial > a.serial ==> !b.past.Clean())
    && (b.serial == a.serial ==> b.fd == a.fd && (b.past.Clean() ==> a.past.Clean() || !s.WireOf(b.fd).Broken()))
  }

  lemma BeginMarksFairly(s: State, t: nat, e: Event, s': State)
    requires t < |s.threads| && BeginStep(s, t, e) == Some(s')
    ensures MarkedFairly(s, s.threads[t], s'.threads[t])
  {
  }

  lemma ConnectMarksFairly(s: State, t: nat, e: Event, s': State)
    requires t < |s.threads| && ConnectStep(s, t, e) == Some(s')
    ensures MarkedFairly(s, s.threads[t], s'.threads[t])
  {
  }

  lemma PackMarksFairly(s: State, t: nat, e: Event, s': State)
    requires t < |s.threads| && PackStep(s, t, e) == Some(s')
    ensures MarkedFairly(s, s.threads[t], s'.threads[t])
  {
  }

  lemma LookupMarksFairly(s: State, t: nat, e: Event, s': State)
    requires t < |s.threads| && LookupStep(s, t, e) == Some(s')
    ensures MarkedFairly(s, s.threads[t], s'.threads[t])
  {
  }

  lemma FdMarksFairly(s: State, t: nat, e: Event, s': State)
    requires t < |s.threads| && FdStep(s, t, e) == Some(s')
    ensures MarkedFairly(s, s.threads[t], s'.threads[t])
  {
  }

  lemma RetryMarksFairly(s: State, t: nat, e: Event, s': State)
    requires t < |s.threads| && RetryStep(s, t, e) == Some(s')
    ensures MarkedFairly(s, s.threads[t], s'.threads[t])
  {
  }

  lemma UnlockMarksFairly(s: State, t: nat, e: Event, s': State)
    requires t < |s.threads| && UnlockStep(s, t, e) == Some(s')
    ensures MarkedFairly(s, s.threads[t], s'.threads[t])
  {
  }

  lemma TransferMarksFairly(s: State, t: nat, e: Event, s': State)
    requires t < |s.threads| && (SendStep(s, t, e) == Some(s') || ReadStep(s, t, e) == Some(s'))
    ensures MarkedFairly(s, s.threads[t], s'.threads[t])
  {
  }

  lemma OutsiderMarksFairly(s: State, t: nat, e: Event, s': State)
    requires t < |s.threads| && !HoldsFd(s.threads[t].pc) && ThreadStep(s, t, e) == Some(s')
    ensures MarkedFairly(s, s.threads[t], s'.threads[t])
  {
    match s.threads[t].pc
    case Idle | Done => BeginMarksFairly(s, t, e, s');
    case ConnectWait | ConnectNetwork | ConnectStation | ConnectLeave => ConnectMarksFairly(s, t, e, s');
    case PackWait | PackNetwork | PackStation | PackLeave => PackMarksFairly(s, t, e, s');
    case TableWait | TableLookup | TableLeave => LookupMarksFairly(s, t, e, s');
    case FdWait => FdMarksFairly(s, t, e, s');
  }

  lemma HolderMarksFairly(s: State, t: nat, e: Event, s': State)
    requires t < |s.threads| && HoldsFd(s.threads[t].pc) && ThreadStep(s, t, e) == Some(s')
    ensures MarkedFairly(s, s.threads[t], s'.threads[t])
  {
    match s.threads[t].pc
    case GetConfig => FdMarksFairly(s, t, e, s');
    case SendWait | SendLeave | Sleeping => RetryMarksFairly(s, t, e, s');
    case Sending | Reading => TransferMarksFairly(s, t, e, s');
    case FindWait | FindSlot | FindLeave | Release => UnlockMarksFairly(s, t, e, s');
  }

  lemma StepMarksFairly(s: State, l: Label, s': State, u: nat)
    requires Next(s, l) == Some(s') && u < |s.threads|
    ensures |s'.threads| == |s.threads| && MarkedFairly(s, s.threads[u], s'.threads[u])
  {
    TransactionFrames.OnlyThread(s, l, s');
    if l.Client? && l.thread == u {
      if HoldsFd(s.threads[u].pc) {
        HolderMarksFairly(s, u, l.event, s');
      } else {
        OutsiderMarksFairly(s, u, l.event, s');
      }
    }
  }

  ghost predicate Unclean(serial: nat, th: Thread, fd: int)
  {
    th.serial >= serial && (th.serial > serial && th.fd == fd ==> !th.past.Clean())
  }

  lemma StaysUnclean(s: State, serial: nat, a: Thread, b: Thread, fd: int)
    requires Unclean(serial, a, fd) && MarkedFairly(s, a, b) && s.WireOf(fd).Broken()
    ensures Unclean(serial, b, fd)
  {
  }

  lemma StepKeepsUnclean(x: System, l: Label, y: System, serial: nat, u: nat, fd: int)
    requires SystemNext(x, l, y) && u < |x.state.threads| && Unclean(serial, x.state.threads[u], fd)
    requires x.state.WireOf(fd).Broken()
    ensures u < |y.state.threads| && Unclean(serial, y.state.threads[u], fd) && y.state.WireOf(fd).Broken()
  {
    StepMarksFairly(x.state, l, y.state, u);
    StepExtends(x, l, y, fd);
    StaysUnclean(x.state, serial, x.state.threads[u], y.state.threads[u], fd);
  }

  lemma RunStepKeepsUnclean(xs: seq<System>, labels: seq<Label>, j: nat, serial: nat, u: nat, fd: int)
    requires SystemRun(xs, labels) && 0 < j < |xs| && u < |xs[j - 1].state.threads|
    requires Unclean(serial, xs[j - 1].state.threads[u], fd) && xs[j - 1].state.WireOf(fd).Broken()
    ensures u < |xs[j].state.threads| && Unclean(serial, xs[j].state.threads[u], fd) && xs[j].state.WireOf(fd).Broken()
  {
    StepKeepsUnclean(xs[j - 1], labels[j - 1], xs[j], serial, u, fd);
  }

  /** A request that a thread begins after its connection has broken is never marked clean. */
  lemma {:induction false} BrokenStaysUnclean(xs: seq<System>, labels: seq<Label>, i: nat, j: nat, u: nat, fd: int)
    requires SystemRun(xs, labels) && i <= j < |xs| && u < |xs[i].state.threads| && xs[i].state.WireOf(fd).Broken()
    ensures u < |xs[j].state.threads| && Unclean(xs[i].state.threads[u].serial, xs[j].state.threads[u], fd)
            && xs[j].state.WireOf(fd).Broken()
    decreases j
  {
    if i < j {
      BrokenStaysUnclean(xs, labels, i, j - 1, u, fd);
      RunStepKeepsUnclean(xs, labels, j, xs[i].state.threads[u].serial, u, fd);
    }
  }

  lemma {:induction false} PlacesExtend(log: seq<Entry>, later: seq<Entry>, fd: int)
    requires log <= later
    ensures PlacesOf(log, fd) <= PlacesOf(later, fd)
    ensures forall k | |PlacesOf(log, fd)| <= k < |PlacesOf(later, fd)| :: PlacesOf(later, fd)[k] >= |log|
    decreases |later|
  {
    if |log| == |later| {
      assert log == later;
    } else {
      PlacesExtend(log, later[..|later| - 1], fd);
    }
  }

  /** A send of a request that the thread has yet to begin is not among those made so far. */
  lemma NotSentBefore(s: State, u: nat, serial: nat, before: Wire, after: Wire, index: nat)
    requires TransactionHistory.AllRecorded(s) && u < |s.threads| && s.threads[u].serial < serial
    requires (exists fd :: before == s.WireOf(fd)) && before.sent <= after.sent
    requires index < |after.sent| && after.sent[index].thread == u && after.sent[index].serial == serial
    ensures index >= |before.sent|
  {
    var fd :| before == s.WireOf(fd);
    assert forall n | 0 <= n < |s.WireOf(fd).sent| :: TransactionHistory.Recorded(s, s.WireOf(fd).sent[n]);
  }

  /** A request begun after a moment of the run is served after everything that had been served by then. */
  lemma BegunLaterServedLater(xs: seq<System>, labels: seq<Label>, i: nat, j: nat, u: nat)
    requires SystemRun(xs, labels) && i <= j < |xs| && u < |xs[i].state.threads|
    requires Succeeded(xs[j].state, u) && xs[i].state.threads[u].serial < xs[j].state.threads[u].serial
    ensures Placed(xs[j], u) && |xs[i].log| <= Place(xs[j], u)
  {
    var th := xs[j].state.threads[u];
    var before, after := xs[i].state.WireOf(th.fd), xs[j].state.WireOf(th.fd);
    HasPlace(xs, labels, j, u);
    LaterExtends(xs, labels, i, j, th.fd);
    RunKeepsSystemInv(xs, labels, i);
    TransactionTheorems.ReachableInv(xs[i].state);
    NotSentBefore(xs[i].state, u, th.serial, before, after, th.past.index);
    if before.Broken() { BrokenStaysUnclean(xs, labels, i, j, u, th.fd); }
    assert TransactionPairing.FdWire(xs[i].state, th.fd) && Logged(xs[i], th.fd);
    PlacesExtend(xs[i].log, xs[j].log, th.fd);
  }

  /**
   * The order of the log respects real time: if one transaction had returned before another one began, on whatever
   * threads and connections, it was served before it.
   */
  lemma OrderRespectsRealTime(xs: seq<System>, labels: seq<Label>, i: nat, j: nat, t: nat, u: nat)
    requires SystemRun(xs, labels) && i <= j < |xs| && Succeeded(xs[i].state, t) && u < |xs[i].state.threads|
    requires Succeeded(xs[j].state, u) && xs[i].state.threads[u].serial < xs[j].state.threads[u].serial
    ensures Placed(xs[i], t) && Placed(xs[j], u) && Place(xs[i], t) < Place(xs[j], u)
  {
    HasPlace(xs, labels, i, t);
    BegunLaterServedLater(xs, labels, i, j, u);
  }

  /** Two transactions of a run, of one thread or of two, have the same place only if they are the same. */
  lemma OwnPlace(xs: seq<System>, labels: seq<Label>, i: nat, j: nat, t: nat, u: nat)
    requires SystemRun(xs, labels) && i <= j < |xs| && Succeeded(xs[i].state, t) && Succeeded(xs[j].state, u)
    ensures Placed(xs[i], t) && Placed(xs[j], u)
    ensures Place(xs[i], t) == Place(xs[j], u)
            <==> t == u && xs[i].state.threads[t].serial == xs[j].state.threads[u].serial
  {
    HasPlace(xs, labels, i, t);
    HasPlace(xs, labels, j, u);
    var a, b, log := xs[i].state.threads[t], xs[j].state.threads[u], xs[j].log;
    LaterExtends(xs, labels, i, j, a.fd);
    PlacesExtend(xs[i].log, log, a.fd);
    RunKeepsSystemInv(xs, labels, j);
    var sentA, sentB := xs[j].state.WireOf(a.fd).sent, xs[j].state.WireOf(b.fd).sent;
    assert sentA[a.past.index] == Sent(t, a.serial, a.command) && sentB[b.past.index] == Sent(u, b.serial, b.command);
    if Place(xs[i], t) == Place(xs[j], u) {
      assert a.fd == log[Place(xs[i], t)].fd == b.fd;
      SamePlaceSameIndex(log, a.fd, a.past.index, b.past.index);
    } else if t == u && a.serial == b.serial {
      TransactionTheorems.NeverSentTwice(xs[j].state, a.fd, a.past.index, b.fd, b.past.index);
    }
  }

  lemma SamePlaceSameIndex(log: seq<Entry>, fd: int, m: nat, n: nat)
    requires m < |PlacesOf(log, fd)| && n < |PlacesOf(log, fd)| && PlacesOf(log, fd)[m] == PlacesOf(log, fd)[n]
    ensures m == n
  {
  }

  /**
   * The answer this thread returned is that of its request at place k of the log, served from the memory left by
   * the earlier ones.
   */
  ghost predicate TookEffectAt(m: Plc.Memory, log: seq<Entry>, th: Thread, k: nat)
  {
    && k < |log| && log[k].fd == th.fd && log[k].request == th.command && log[k].protocol == th.protocol
    && th.got == Plc.Serve(Replay(m, log[..k]), th.protocol, th.command).1
  }

  /**
   * Linearizability. In every run of threads, connections and the PLC there is one order of all requests served such
   * that every successful transaction got the answer of a place of its own in it, computed from the memory that the
   * requests before it had left, and the order respects real time.
   */
  lemma Linearizable(xs: seq<System>, labels: seq<Label>, i: nat, j: nat, t: nat, u: nat)
    requires SystemRun(xs, labels) && i <= j < |xs| && Succeeded(xs[i].state, t) && Succeeded(xs[j].state, u)
    ensures Placed(xs[i], t) && Placed(xs[j], u) && xs[i].log <= xs[j].log
    ensures TookEffectAt(xs[0].memory, xs[j].log, xs[i].state.threads[t], Place(xs[i], t))
    ensures TookEffectAt(xs[0].memory, xs[j].log, xs[j].state.threads[u], Place(xs[j], u))
    ensures Place(xs[i], t) == Place(xs[j], u)
            <==> t == u && xs[i].state.threads[t].serial == xs[j].state.threads[u].serial
    ensures u < |xs[i].state.threads| && xs[i].state.threads[u].serial < xs[j].state.threads[u].serial ==>
              Place(xs[i], t) < Place(xs[j], u)
  {
    OwnPlace(xs, labels, i, j, t, u);
    OneOrderForAll(xs, labels, i, t);
    OneOrderForAll(xs, labels, j, u);
    LaterExtends(xs, labels, i, j, 0);
    assert xs[j].log[..Place(xs[i], t)] == xs[i].log[..Place(xs[i], t)];
    if u < |xs[i].state.threads| && xs[i].state.threads[u].serial < xs[j].state.threads[u].serial {
      OrderRespectsRealTime(xs, labels, i, j, t, u);
    }
  }
}
