/**
 * Threads, frames and memory together: any number of threads and connections against one reference PLC. All
 * requests served take effect in one order, and every successful transaction got the answer of its place in it.
 */
module Serialized {
  import opened Wrappers
  import opened Bytes
  import opened Framing
  import opened Devices
  import opened Requests
  import opened Transactions
  import TransactionFrames
  import TransactionLocks
  import TransactionTheorems
  import Decoding
  import EndToEnd
  import Plc
  import Responses

  /** A request the PLC has served, and its memory when it did. */
  datatype Entry = Entry(fd: int, protocol: Protocol, request: seq<Byte>, before: Plc.Memory)

  /** The machine, the PLC's memory, and everything the PLC has served on all connections, in order. */
  datatype System = System(state: State, memory: Plc.Memory, log: seq<Entry>)

  function LastServed(w: Wire): Exchange
    requires |w.served| > 0
  {
    w.served[|w.served| - 1]
  }

  /** A step of the machine in which the PLC, if it moves, serves the request from its memory. */
  ghost predicate SystemNext(x: System, l: Label, y: System)
  {
    && Next(x.state, l) == Some(y.state)
    && if l.Client? then y.memory == x.memory && y.log == x.log
       else
         && |y.state.WireOf(l.fd).served| > 0
         && var p, served := x.state.ProtocolOf(l.fd), LastServed(y.state.WireOf(l.fd));
            && l.response == Plc.Serve(x.memory, p, served.request).1
            && y.memory == Plc.Serve(x.memory, p, served.request).0
            && y.log == x.log + [Entry(l.fd, p, served.request, x.memory)]
  }

  /** A run of the whole system, from the start. */
  ghost predicate SystemRun(xs: seq<System>, labels: seq<Label>)
  {
    && |xs| == |labels| + 1
    && Initial(xs[0].state) && xs[0].log == []
    && forall i {:trigger labels[i]} | 0 <= i < |labels| :: SystemNext(xs[i], labels[i], xs[i + 1])
  }

  /** The memory that results from serving the requests of a log one after the other. */
  function Replay(m: Plc.Memory, log: seq<Entry>): Plc.Memory
  {
    if |log| == 0 then m
    else
      var last := log[|log| - 1];
      Plc.Serve(Replay(m, log[..|log| - 1]), last.protocol, last.request).0
  }

  /** The places in the log of the requests of one connection. */
  function PlacesOf(log: seq<Entry>, fd: int): (ks: seq<nat>)
    ensures forall i | 0 <= i < |ks| :: ks[i] < |log| && log[ks[i]].fd == fd
    ensures forall i, j | 0 <= i < j < |ks| :: ks[i] < ks[j]
  {
    if |log| == 0 then []
    else PlacesOf(log[..|log| - 1], fd) + if log[|log| - 1].fd == fd then [|log| - 1] else []
  }

  /** Every entry found the memory that the entries before it had made. */
  ghost predicate Replayed(m: Plc.Memory, x: System)
  {
    x.memory == Replay(m, x.log) && forall k | 0 <= k < |x.log| :: x.log[k].before == Replay(m, x.log[..k])
  }

  /** What was answered on a connection is what its entries in the log say. */
  ghost predicate Logged(x: System, fd: int)
  {
    var w, ks := x.state.WireOf(fd), PlacesOf(x.log, fd);
    && |w.served| == |ks|
    && forall i | 0 <= i < |ks| ::
         var e := x.log[ks[i]];
         e.protocol == x.state.ProtocolOf(fd)
           && w.served[i] == Exchange(e.request, Plc.Serve(e.before, e.protocol, e.request).1)
  }

  ghost predicate SystemInv(m: Plc.Memory, x: System)
  {
    Reachable(x.state) && Replayed(m, x) && forall fd :: Logged(x, fd)
  }

  /** What may happen to a connection in a step of a thread: sends are added, answers are not. */
  ghost predicate Advances(w: Wire, w': Wire)
  {
    w.sent <= w'.sent && w'.served == w.served && (w.Broken() ==> w'.Broken())
  }

  lemma TransferAdvances(s: State, t: nat, e: Event, s': State, fd: int)
    requires t < |s.threads| && (SendStep(s, t, e) == Some(s') || ReadStep(s, t, e) == Some(s'))
    ensures Advances(s.WireOf(fd), s'.WireOf(fd)) && s'.asciiFds == s.asciiFds
  {
  }

  lemma ClientAdvances(s: State, t: nat, e: Event, s': State, fd: int)
    requires t < |s.threads| && ThreadStep(s, t, e) == Some(s')
    ensures Advances(s.WireOf(fd), s'.WireOf(fd)) && s'.ProtocolOf(fd) == s.ProtocolOf(fd)
  {
    match s.threads[t].pc
    case Idle | Done => TransactionFrames.BeginTouchesNothing(s, t, e, s');
    case ConnectWait | ConnectNetwork | ConnectStation | ConnectLeave =>
      TransactionFrames.ConnectTouchesNothing(s, t, e, s');
    case PackWait | PackNetwork | PackStation | PackLeave => TransactionFrames.PackTouchesNothing(s, t, e, s');
    case TableWait | TableLookup | TableLeave => TransactionFrames.LookupTouchesNothing(s, t, e, s');
    case FdWait | GetConfig => TransactionFrames.FdTouchesNothing(s, t, e, s');
    case SendLeave => TransactionFrames.AfterSendTouchesNothing(s, t, e, s');
    case SendWait | Sleeping => TransactionFrames.RetryTouchesNothing(s, t, e, s');
    case Sending | Reading => TransferAdvances(s, t, e, s', fd);
    case FindWait | FindSlot | FindLeave => TransactionFrames.UnlockTouchesNothing(s, t, e, s');
    case Release => TransactionFrames.ReleaseTouches(s, t, e, s');
  }

  lemma PlcAddsOneAnswer(s: State, fd: int, response: seq<Byte>, s': State, g: int)
    requires PlcStep(s, fd, response) == Some(s')
    ensures s'.ProtocolOf(g) == s.ProtocolOf(g)
    ensures g != fd ==> s'.WireOf(g) == s.WireOf(g)
    ensures |s'.WireOf(fd).served| > 0
    ensures s'.WireOf(fd).served == s.WireOf(fd).served + [Exchange(LastServed(s'.WireOf(fd)).request, response)]
    ensures s'.WireOf(g).sent == s.WireOf(g).sent && s'.WireOf(g).Broken() == s.WireOf(g).Broken()
  {
    var n := TransactionFrames.PlcEffect(s, fd, response, s');
  }

  lemma NextKeepsReplay(m: Plc.Memory, x: System, l: Label, y: System)
    requires Replayed(m, x) && SystemNext(x, l, y)
    ensures Replayed(m, y)
  {
    if l.Plc? {
      ServingKeepsReplay(m, x, y, y.log[|x.log|]);
    }
  }

  lemma ServingKeepsReplay(m: Plc.Memory, x: System, y: System, e: Entry)
    requires Replayed(m, x) && y.log == x.log + [e] && e.before == x.memory
    requires y.memory == Plc.Serve(x.memory, e.protocol, e.request).0
    ensures Replayed(m, y)
  {
    assert y.log[..|x.log|] == x.log;
    forall k | 0 <= k < |y.log| ensures y.log[k].before == Replay(m, y.log[..k]) {
      if k < |x.log| { assert y.log[..k] == x.log[..k] && y.log[k] == x.log[k]; }
    }
  }

  lemma NextKeepsLogged(x: System, l: Label, y: System, fd: int)
    requires Logged(x, fd) && SystemNext(x, l, y)
    ensures Logged(y, fd)
  {
    if l.Client? {
      ClientAdvances(x.state, l.thread, l.event, y.state, fd);
    } else {
      PlcAddsOneAnswer(x.state, l.fd, l.response, y.state, fd);
      assert y.log[..|x.log|] == x.log;
    }
  }

  lemma {:induction false} RunKeepsSystemInv(xs: seq<System>, labels: seq<Label>, i: nat)
    requires SystemRun(xs, labels) && i < |xs|
    ensures SystemInv(xs[0].memory, xs[i])
  {
    var m := xs[0].memory;
    if i == 0 {
      assert Run(xs[0].state, []) == Some(xs[0].state);
      assert Replayed(m, xs[0]);
      forall fd ensures Logged(xs[0], fd) { assert xs[0].state.WireOf(fd) == FRESH_WIRE; }
    } else {
      RunKeepsSystemInv(xs, labels, i - 1);
      assert SystemNext(xs[i - 1], labels[i - 1], xs[i]);
      StepReachable(xs[i - 1].state, labels[i - 1], xs[i].state);
      NextKeepsReplay(m, xs[i - 1], labels[i - 1], xs[i]);
      forall fd ensures Logged(xs[i], fd) { NextKeepsLogged(xs[i - 1], labels[i - 1], xs[i], fd); }
    }
  }

  /** A thread that has returned SUCCESS from a transaction on a connection nobody had broken. */
  predicate Succeeded(s: State, t: nat)
  {
    t < |s.threads| && s.threads[t].pc.Done? && s.threads[t].result.Success? && s.threads[t].past.Clean()
  }

  /** The request that a thread's transaction sent has been served. */
  predicate Placed(x: System, t: nat)
  {
    t < |x.state.threads| && x.state.threads[t].past.index < |PlacesOf(x.log, x.state.threads[t].fd)|
  }

  /** Its place in the log. */
  function Place(x: System, t: nat): nat
    requires Placed(x, t)
  {
    PlacesOf(x.log, x.state.threads[t].fd)[x.state.threads[t].past.index]
  }

  lemma HasPlace(xs: seq<System>, labels: seq<Label>, i: nat, t: nat)
    requires SystemRun(xs, labels) && i < |xs| && Succeeded(xs[i].state, t)
    ensures Placed(xs[i], t)
    ensures var th, w := xs[i].state.threads[t], xs[i].state.WireOf(xs[i].state.threads[t].fd);
            th.past.index < |w.sent| && w.sent[th.past.index] == Sent(t, th.serial, th.command)
  {
    RunKeepsSystemInv(xs, labels, i);
    TransactionTheorems.ResponsesNeverInterleave(xs[i].state, t);
    assert Logged(xs[i], xs[i].state.threads[t].fd);
  }

  /**
   * One order for all. In every run of threads, connections and the PLC, what a successful transaction returned
   * is the answer to its own request at its own place in the one order in which the PLC served all of them.
   */
  lemma OneOrderForAll(xs: seq<System>, labels: seq<Label>, i: nat, t: nat)
    requires SystemRun(xs, labels) && i < |xs| && Succeeded(xs[i].state, t)
    ensures Placed(xs[i], t)
    ensures var th, log, k := xs[i].state.threads[t], xs[i].log, Place(xs[i], t);
            && k < |log| && log[k].fd == th.fd && log[k].request == th.command && log[k].protocol == th.protocol
            && th.got == Plc.Serve(Replay(xs[0].memory, log[..k]), th.protocol, th.command).1
  {
    RunKeepsSystemInv(xs, labels, i);
    HasPlace(xs, labels, i, t);
    var x, th := xs[i], xs[i].state.threads[t];
    TransactionTheorems.ResponsesNeverInterleave(x.state, t);
    TransactionTheorems.ReachableInv(x.state);
    assert TransactionLocks.ThreadLocks(x.state, t);
    assert Logged(x, th.fd);
  }

  // ---- Progress ----

  /** Whatever the PLC answers, it can take the request it can take. */
  lemma AnyAnswerWillDo(s: State, fd: int, response: seq<Byte>, other: seq<Byte>)
    requires PlcStep(s, fd, response).Some? && IsFrame(s.ProtocolOf(fd), other)
    ensures PlcStep(s, fd, other).Some?
  {
  }

  /** The step of the PLC that serves the request at the head of a connection. */
  lemma PlcServes(x: System, fd: int, response: seq<Byte>) returns (l: Label, y: System)
    requires PlcStep(x.state, fd, response).Some?
    ensures l.Plc? && l.fd == fd && SystemNext(x, l, y)
  {
    var p := x.state.ProtocolOf(fd);
    var n := TransactionFrames.PlcEffect(x.state, fd, response, PlcStep(x.state, fd, response).value);
    var request := x.state.WireOf(fd).toPlc[..n];
    var served := Plc.Serve(x.memory, p, request);
    Plc.ServedIsFrame(x.memory, p, request);
    AnyAnswerWillDo(x.state, fd, response, served.1);
    l := Plc(fd, served.1);
    y := System(PlcStep(x.state, fd, served.1).value, served.0, x.log + [Entry(fd, p, request, x.memory)]);
  }

  /**
   * The system never blocks: while a thread is in a call there is a step of a thread in a call, or of the PLC
   * serving a request from its memory; and as long as no stream is garbled, one that is no failure of I/O.
   */
  lemma SystemNeverStuck(xs: seq<System>, labels: seq<Label>, i: nat, t: nat) returns (l: Label, y: System)
    requires SystemRun(xs, labels) && i < |xs| && t < |xs[i].state.threads|
    requires TransactionTheorems.Busy(xs[i].state.threads[t].pc)
    ensures SystemNext(xs[i], l, y)
    ensures l.Client? ==> l.thread < |xs[i].state.threads| && TransactionTheorems.Busy(xs[i].state.threads[l.thread].pc)
    ensures (forall fd :: !xs[i].state.WireOf(fd).garbled) ==> TransactionTheorems.Forward(l)
  {
    RunKeepsSystemInv(xs, labels, i);
    l := TransactionTheorems.NeverStuck(xs[i].state, t);
    if l.Plc? {
      l, y := PlcServes(xs[i], l.fd, l.response);
    } else {
      y := System(Next(xs[i].state, l).value, xs[i].memory, xs[i].log);
    }
  }

  /**
   * Word reads. In every such run a successful read parses to the words that the requests served before it, by
   * whichever thread over whichever connection and protocol, had left at the places this thread asked for.
   */
  lemma ReadsSeeEarlierWrites(xs: seq<System>, labels: seq<Label>, i: nat, t: nat, d: Device, start: int, points: nat)
    requires SystemRun(xs, labels) && i < |xs| && Succeeded(xs[i].state, t)
    ensures Placed(xs[i], t)
    ensures var th, before := xs[i].state.threads[t], Replay(xs[0].memory, xs[i].log[..Place(xs[i], t)]);
            Core(th.protocol, d, start, Read(false, points)) == Some(th.core)
            && Decoding.StartFits(th.protocol, d, start) && 0 < points <= EndToEnd.MaxReadWords(th.protocol) ==>
              && IsFrame(th.protocol, th.got)
              && EndToEnd.ReadResult(th.protocol, false, th.got)
                 == Responses.Parsed(Success, Some(Plc.Load(before, d, start, points)))
  {
    OneOrderForAll(xs, labels, i, t);
    RunKeepsSystemInv(xs, labels, i);
    var s, th := xs[i].state, xs[i].state.threads[t];
    var before := Replay(xs[0].memory, xs[i].log[..Place(xs[i], t)]);
    TransactionTheorems.SentWithOneConnect(s, t);
    if Core(th.protocol, d, start, Read(false, points)) == Some(th.core)
       && Decoding.StartFits(th.protocol, d, start) && 0 < points <= EndToEnd.MaxReadWords(th.protocol) {
      var a :| a in s.connects.Get(th.protocol) && th.command == Pack(th.protocol, th.core, a);
      EndToEnd.ReadAnswered(th.protocol, before, Request(a, d, start, Read(false, points)));
    }
  }
}
