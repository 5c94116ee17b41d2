/** Every call returns: how many writes a transaction makes, and a rank that each step of a call lowers. */
module TransactionProgress {
  import opened Wrappers
  import opened Bytes
  import opened Framing
  import opened Transactions
  import TransactionFrames
  import TransactionPairing
  import TransactionStations
  import TransactionTheorems
  import Sending

  // ---- The number of writes ----

  /** The counters of the send loops agree with the writes made. */
  predicate Counted(th: Thread)
  {
    var l := th.loops;
    match th.pc
    case SendWait => l.attempt <= l.limit && l.tries < 3 && l.writes == 3 * l.attempt + l.tries
    case Sending | SendLeave => l.attempt <= l.limit && l.tries < 3 && l.writes == 3 * l.attempt + l.tries + 1
    case Sleeping => l.attempt < l.limit && l.writes == 3 * l.attempt + 3
    case Reading | FindWait | FindSlot | FindLeave | Release => l.writes <= Sending.Budget(l.limit)
    case _ => true
  }

  ghost predicate AllCounted(s: State) { forall u | 0 <= u < |s.threads| :: Counted(s.threads[u]) }

  lemma FdStaysCounted(s: State, t: nat, e: Event, s': State)
    requires t < |s.threads| && FdStep(s, t, e) == Some(s')
    ensures Counted(s'.threads[t])
  {
  }

  lemma AfterSendStaysCounted(th: Thread)
    requires th.pc.SendLeave? && Counted(th)
    ensures Counted(AfterSend(th))
  {
  }

  lemma RetryStaysCounted(s: State, t: nat, e: Event, s': State)
    requires t < |s.threads| && Counted(s.threads[t]) && !s.threads[t].pc.SendLeave? && RetryStep(s, t, e) == Some(s')
    ensures Counted(s'.threads[t])
  {
  }

  lemma TransferStaysCounted(s: State, t: nat, e: Event, s': State)
    requires t < |s.threads| && Counted(s.threads[t])
    requires SendStep(s, t, e) == Some(s') || ReadStep(s, t, e) == Some(s')
    ensures Counted(s'.threads[t])
  {
  }

  lemma UnlockStaysCounted(s: State, t: nat, e: Event, s': State)
    requires t < |s.threads| && Counted(s.threads[t]) && UnlockStep(s, t, e) == Some(s')
    ensures Counted(s'.threads[t])
  {
  }

  lemma OutsiderStaysCounted(s: State, t: nat, e: Event, s': State)
    requires t < |s.threads| && !HoldsFd(s.threads[t].pc) && ThreadStep(s, t, e) == Some(s')
    ensures Counted(s'.threads[t])
  {
    match s.threads[t].pc
    case Idle | Done => TransactionFrames.BeginTouchesNothing(s, t, e, s');
    case ConnectWait | ConnectNetwork | ConnectStation | ConnectLeave =>
      TransactionFrames.ConnectTouchesNothing(s, t, e, s');
    case PackWait | PackNetwork | PackStation | PackLeave => TransactionFrames.PackTouchesNothing(s, t, e, s');
    case TableWait | TableLookup | TableLeave => TransactionFrames.LookupTouchesNothing(s, t, e, s');
    case FdWait => FdStaysCounted(s, t, e, s');
  }

  lemma HolderStaysCounted(s: State, t: nat, e: Event, s': State)
    requires t < |s.threads| && Counted(s.threads[t]) && HoldsFd(s.threads[t].pc) && ThreadStep(s, t, e) == Some(s')
    ensures Counted(s'.threads[t])
  {
    match s.threads[t].pc
    case GetConfig => FdStaysCounted(s, t, e, s');
    case SendLeave =>
      TransactionFrames.AfterSendTouchesNothing(s, t, e, s');
      AfterSendStaysCounted(s.threads[t]);
    case SendWait | Sleeping => RetryStaysCounted(s, t, e, s');
    case Sending | Reading => TransferStaysCounted(s, t, e, s');
    case FindWait | FindSlot | FindLeave | Release => UnlockStaysCounted(s, t, e, s');
  }

  lemma NextStaysCounted(s: State, l: Label, s': State)
    requires AllCounted(s) && Next(s, l) == Some(s')
    ensures AllCounted(s')
  {
    TransactionFrames.OnlyThread(s, l, s');
    if l.Client? {
      var t := l.thread;
      if HoldsFd(s.threads[t].pc) {
        HolderStaysCounted(s, t, l.event, s');
      } else {
        OutsiderStaysCounted(s, t, l.event, s');
      }
    }
  }

  lemma {:induction false} RunStaysCounted(s: State, labels: seq<Label>, s': State)
    requires AllCounted(s) && Run(s, labels) == Some(s')
    ensures AllCounted(s')
  {
    if |labels| > 0 {
      var m := Run(s, labels[..|labels| - 1]).value;
      RunStaysCounted(s, labels[..|labels| - 1], m);
      NextStaysCounted(m, labels[|labels| - 1], s');
    }
  }

  lemma ReachableCounted(s: State)
    requires Reachable(s)
    ensures AllCounted(s)
  {
    var s0: State, labels: seq<Label> :| Initial(s0) && Run(s0, labels) == Some(s);
    RunStaysCounted(s0, labels, s);
  }

  /** From the configuration on, no transaction calls mc_write_msg more than 3 * (retry_count + 1) times. */
  lemma WritesWithinBudget(s: State, t: nat)
    requires Reachable(s) && t < |s.threads| && HoldsFd(s.threads[t].pc) && !s.threads[t].pc.GetConfig?
    ensures s.threads[t].loops.writes <= Sending.Budget(s.threads[t].loops.limit)
  {
    ReachableCounted(s);
    assert Counted(s.threads[t]);
  }

  // ---- The rank ----

  /** A bound on the bytes of the packed request. */
  function Longest(th: Thread): nat { |th.core| + 22 }

  /** What one more write may cost: its bytes, and the steps around them. */
  function WriteCost(th: Thread): nat { Longest(th) + 3 }

  /** The cost of so many writes. */
  function WritesCost(n: nat, cost: nat): nat { if n == 0 then 0 else cost + WritesCost(n - 1, cost) }

  lemma {:induction false} WritesCostMonotone(m: nat, n: nat, cost: nat)
    requires m <= n
    ensures WritesCost(m, cost) <= WritesCost(n, cost)
    decreases n
  {
    if m < n { WritesCostMonotone(m, n - 1, cost); }
  }

  /** More than any frame has bytes. */
  const FRAME_BOUND: nat := 65554

  const READ_RANK: nat := FRAME_BOUND + 5

  function WritesLeft(th: Thread): nat
  {
    if th.loops.writes <= Sending.Budget(th.loops.limit) then Sending.Budget(th.loops.limit) - th.loops.writes else 0
  }

  /** How many steps a call may still take; max bounds the retry count the configuration may give. */
  function Rank(th: Thread, max: nat): nat
  {
    match th.pc
    case Idle | Done => 0
    case ConnectWait => 4
    case ConnectNetwork => 3
    case ConnectStation => 2
    case ConnectLeave => 1
    case PackWait => ConfigRank(th, max) + 8
    case PackNetwork => ConfigRank(th, max) + 7
    case PackStation => ConfigRank(th, max) + 6
    case PackLeave => ConfigRank(th, max) + 5
    case TableWait => ConfigRank(th, max) + 4
    case TableLookup => ConfigRank(th, max) + 3
    case TableLeave => ConfigRank(th, max) + 2
    case FdWait => ConfigRank(th, max) + 1
    case GetConfig => ConfigRank(th, max)
    case SendWait => LoopRank(th)
    case Sleeping => LoopRank(th) + 1
    case SendLeave => if th.sendOk then READ_RANK + 1 else LoopRank(th) + 2
    case Sending => LoopRank(th) + 2 + if th.offset <= Longest(th) then Longest(th) - th.offset else 0
    case Reading => 5 + if |th.got| < FRAME_BOUND then FRAME_BOUND - |th.got| else 0
    case FindWait => 4
    case FindSlot => 3
    case FindLeave => 2
    case Release => 1
  }

  function ConfigRank(th: Thread, max: nat): nat { READ_RANK + 2 + WritesCost(Sending.Budget(max), WriteCost(th)) }

  function LoopRank(th: Thread): nat { READ_RANK + 1 + WritesCost(WritesLeft(th), WriteCost(th)) }

  /** A step that a system call did not interrupt, with a configuration within the bound. */
  predicate Counts(e: Event, max: nat) { !e.SendInterrupted? && !e.RecvInterrupted? && (e.Config? ==> e.retry <= max) }

  lemma ConnectDescends(s: State, t: nat, e: Event, s': State, max: nat)
    requires t < |s.threads| && ConnectStep(s, t, e) == Some(s')
    ensures Rank(s'.threads[t], max) < Rank(s.threads[t], max)
  {
  }

  lemma PackBeginDescends(s: State, t: nat, e: Event, s': State, max: nat)
    requires t < |s.threads| && (s.threads[t].pc.PackWait? || s.threads[t].pc.PackNetwork?)
    requires PackStep(s, t, e) == Some(s')
    ensures Rank(s'.threads[t], max) < Rank(s.threads[t], max)
  {
  }

  lemma PackEndDescends(s: State, t: nat, e: Event, s': State, max: nat)
    requires t < |s.threads| && (s.threads[t].pc.PackStation? || s.threads[t].pc.PackLeave?)
    requires PackStep(s, t, e) == Some(s')
    ensures Rank(s'.threads[t], max) < Rank(s.threads[t], max)
  {
  }

  lemma LookupDescends(s: State, t: nat, e: Event, s': State, max: nat)
    requires t < |s.threads| && !s.threads[t].pc.TableLeave? && LookupStep(s, t, e) == Some(s')
    ensures Rank(s'.threads[t], max) < Rank(s.threads[t], max)
  {
  }

  lemma TableLeaveDescends(s: State, t: nat, e: Event, s': State, max: nat)
    requires t < |s.threads| && s.threads[t].pc.TableLeave? && LookupStep(s, t, e) == Some(s')
    ensures Rank(s'.threads[t], max) < Rank(s.threads[t], max)
  {
  }

  lemma FdDescends(s: State, t: nat, e: Event, s': State, max: nat)
    requires t < |s.threads| && FdStep(s, t, e) == Some(s') && Counts(e, max)
    ensures Rank(s'.threads[t], max) < Rank(s.threads[t], max)
  {
    var th := s.threads[t];
    if th.pc.GetConfig? && e.retry >= 0 {
      WritesCostMonotone(Sending.Budget(e.retry), Sending.Budget(max), WriteCost(th));
    }
  }

  lemma AttemptDescends(s: State, t: nat, e: Event, s': State, max: nat)
    requires t < |s.threads| && Counted(s.threads[t]) && s.threads[t].pc.SendWait? && RetryStep(s, t, e) == Some(s')
    ensures Rank(s'.threads[t], max) < Rank(s.threads[t], max)
  {
    assert WritesLeft(s.threads[t]) == WritesLeft(s'.threads[t]) + 1;
  }

  lemma AfterSendDescends(th: Thread, max: nat)
    requires Counted(th) && th.pc.SendLeave?
    ensures Rank(AfterSend(th), max) < Rank(th, max)
  {
  }

  lemma SleepDescends(s: State, t: nat, e: Event, s': State, max: nat)
    requires t < |s.threads| && s.threads[t].pc.Sleeping? && RetryStep(s, t, e) == Some(s')
    ensures Rank(s'.threads[t], max) < Rank(s.threads[t], max)
  {
  }

  lemma SendDescends(s: State, t: nat, e: Event, s': State, max: nat)
    requires t < |s.threads| && |s.threads[t].command| <= Longest(s.threads[t])
    requires s.threads[t].offset < |s.threads[t].command|
    requires SendStep(s, t, e) == Some(s') && Counts(e, max)
    ensures Rank(s'.threads[t], max) < Rank(s.threads[t], max)
  {
  }

  lemma FrameSizeBound(p: Protocol, got: seq<Byte>)
    requires Wanted(p, got).Some?
    ensures Wanted(p, got).value < FRAME_BOUND
  {
    if |got| >= HeaderSize(p) { assert DeclaredLength(p, got).value < 0x1_0000; }
  }

  lemma ReadingOnLowers(th: Thread, n: nat, got: seq<Byte>, max: nat)
    requires th.pc.Reading? && n > 0 && |got| == |th.got| + n && WantsMore(th.protocol, th.got)
    requires |got| <= Wanted(th.protocol, th.got).value
    ensures Rank(AfterRead(th, got), max) < Rank(th, max)
  {
    FrameSizeBound(th.protocol, th.got);
    assert |got| < FRAME_BOUND;
  }

  lemma ReadDescends(s: State, t: nat, e: Event, s': State, max: nat)
    requires t < |s.threads| && ReadStep(s, t, e) == Some(s') && Counts(e, max)
    ensures Rank(s'.threads[t], max) < Rank(s.threads[t], max)
  {
    var th, w := s.threads[t], s.WireOf(s.threads[t].fd);
    if e.RecvSome? {
      TransactionFrames.ReadSomeEffect(s, t, e, s');
      ReadingOnLowers(th, e.count, th.got + w.toClient[..e.count], max);
    } else if e.NoMemory? {
      TransactionFrames.NoMemoryEffect(s, t, e, s');
    }
  }

  lemma FindWaitDescends(s: State, t: nat, e: Event, s': State, max: nat)
    requires t < |s.threads| && s.threads[t].pc.FindWait? && UnlockStep(s, t, e) == Some(s')
    ensures Rank(s'.threads[t], max) < Rank(s.threads[t], max)
  {
  }

  lemma FindSlotDescends(s: State, t: nat, e: Event, s': State, max: nat)
    requires t < |s.threads| && s.threads[t].pc.FindSlot? && UnlockStep(s, t, e) == Some(s')
    ensures Rank(s'.threads[t], max) < Rank(s.threads[t], max)
  {
  }

  lemma FindLeaveDescends(s: State, t: nat, e: Event, s': State, max: nat)
    requires t < |s.threads| && s.threads[t].pc.FindLeave? && UnlockStep(s, t, e) == Some(s')
    ensures Rank(s'.threads[t], max) < Rank(s.threads[t], max)
  {
  }

  lemma ReleaseDescends(s: State, t: nat, e: Event, s': State, max: nat)
    requires t < |s.threads| && s.threads[t].pc.Release? && UnlockStep(s, t, e) == Some(s')
    ensures Rank(s'.threads[t], max) < Rank(s.threads[t], max)
  {
  }

  lemma OutsiderDescends(s: State, t: nat, e: Event, s': State, max: nat)
    requires t < |s.threads| && TransactionTheorems.Busy(s.threads[t].pc) && !HoldsFd(s.threads[t].pc)
    requires ThreadStep(s, t, e) == Some(s') && Counts(e, max)
    ensures Rank(s'.threads[t], max) < Rank(s.threads[t], max)
  {
    match s.threads[t].pc
    case ConnectWait | ConnectNetwork | ConnectStation | ConnectLeave => ConnectDescends(s, t, e, s', max);
    case PackWait | PackNetwork => PackBeginDescends(s, t, e, s', max);
    case PackStation | PackLeave => PackEndDescends(s, t, e, s', max);
    case TableWait | TableLookup => LookupDescends(s, t, e, s', max);
    case TableLeave => TableLeaveDescends(s, t, e, s', max);
    case FdWait => FdDescends(s, t, e, s', max);
  }

  lemma HolderDescends(s: State, t: nat, e: Event, s': State, max: nat)
    requires t < |s.threads| && HoldsFd(s.threads[t].pc) && Counted(s.threads[t])
    requires |s.threads[t].command| <= Longest(s.threads[t])
    requires s.threads[t].pc.Sending? ==> s.threads[t].offset < |s.threads[t].command|
    requires ThreadStep(s, t, e) == Some(s') && Counts(e, max)
    ensures Rank(s'.threads[t], max) < Rank(s.threads[t], max)
  {
    match s.threads[t].pc
    case GetConfig => FdDescends(s, t, e, s', max);
    case SendWait => AttemptDescends(s, t, e, s', max);
    case SendLeave =>
      TransactionFrames.AfterSendTouchesNothing(s, t, e, s');
      AfterSendDescends(s.threads[t], max);
    case Sleeping => SleepDescends(s, t, e, s', max);
    case Sending => SendDescends(s, t, e, s', max);
    case Reading => ReadDescends(s, t, e, s', max);
    case FindWait => FindWaitDescends(s, t, e, s', max);
    case FindSlot => FindSlotDescends(s, t, e, s', max);
    case FindLeave => FindLeaveDescends(s, t, e, s', max);
    case Release => ReleaseDescends(s, t, e, s', max);
  }

  /** What a holder's rank relies on. */
  predicate Sane(th: Thread)
  {
    HoldsFd(th.pc) ==> Counted(th) && |th.command| <= Longest(th) && (th.pc.Sending? ==> th.offset < |th.command|)
  }

  /** Every step of a call that a system call does not interrupt lowers its rank. */
  lemma CallDescends(s: State, t: nat, e: Event, s': State, max: nat)
    requires t < |s.threads| == |s'.threads| && TransactionTheorems.Busy(s.threads[t].pc) && Sane(s.threads[t])
    requires ThreadStep(s, t, e) == Some(s') && Counts(e, max)
    ensures Rank(s'.threads[t], max) < Rank(s.threads[t], max)
  {
    if HoldsFd(s.threads[t].pc) {
      HolderDescends(s, t, e, s', max);
    } else {
      OutsiderDescends(s, t, e, s', max);
    }
  }

  lemma ThreadsAreSane(s: State, t: nat)
    requires TransactionTheorems.Inv(s) && AllCounted(s) && t < |s.threads|
    ensures Sane(s.threads[t])
  {
    assert TransactionStations.ThreadStation(s, t) && TransactionPairing.ThreadWire(s, t);
  }

  lemma IdleOnlyBegins(s: State, t: nat, e: Event)
    requires t < |s.threads| && !TransactionTheorems.Busy(s.threads[t].pc) && ThreadStep(s, t, e).Some?
    ensures e.BeginConnect? || e.BeginRequest?
  {
    assert ThreadStep(s, t, e) == BeginStep(s, t, e);
  }

  /** An interrupted call leaves everything as it was. */
  lemma InterruptionChangesNothing(s: State, t: nat, e: Event, s': State)
    requires t < |s.threads| && ThreadStep(s, t, e) == Some(s')
    requires e.SendInterrupted? || e.RecvInterrupted?
    ensures s' == s
  {
  }

  // ---- Whole runs ----

  /** How many steps of t among the labels were not interrupted. */
  function OwnSteps(labels: seq<Label>, t: nat): nat
  {
    if |labels| == 0 then 0
    else
      var l := labels[|labels| - 1];
      OwnSteps(labels[..|labels| - 1], t)
      + if l.Client? && l.thread == t && !l.event.SendInterrupted? && !l.event.RecvInterrupted? then 1 else 0
  }

  /** Thread t begins no new call, and its configuration asks for at most max retries. */
  predicate StaysInCall(labels: seq<Label>, t: nat, max: nat)
  {
    forall i | 0 <= i < |labels| && labels[i].Client? && labels[i].thread == t ::
      !labels[i].event.BeginConnect? && !labels[i].event.BeginRequest?
        && (labels[i].event.Config? ==> labels[i].event.retry <= max)
  }

  lemma {:induction false} RankBoundsSteps(s: State, labels: seq<Label>, s': State, t: nat, max: nat)
    requires TransactionTheorems.Inv(s) && AllCounted(s) && Run(s, labels) == Some(s') && StaysInCall(labels, t, max)
    requires t < |s.threads|
    ensures TransactionTheorems.Inv(s') && AllCounted(s') && |s'.threads| == |s.threads|
    ensures OwnSteps(labels, t) + Rank(s'.threads[t], max) <= Rank(s.threads[t], max)
    decreases |labels|
  {
    if |labels| > 0 {
      var front, l := labels[..|labels| - 1], labels[|labels| - 1];
      var m := Run(s, front).value;
      assert StaysInCall(front, t, max) by { assert forall i | 0 <= i < |front| :: front[i] == labels[i]; }
      RankBoundsSteps(s, front, m, t, max);
      StepReturns(m, l, s', t, max);
    }
  }

  /**
   * Every call returns. However the threads and the PLC are interleaved, from any moment of a call on its thread
   * takes no more uninterrupted steps than the rank of that moment, and once it has taken that many it has returned.
   */
  lemma EveryCallReturns(s: State, labels: seq<Label>, s': State, t: nat, max: nat)
    requires Reachable(s) && Run(s, labels) == Some(s') && StaysInCall(labels, t, max) && t < |s.threads|
    ensures |s'.threads| == |s.threads| && OwnSteps(labels, t) <= Rank(s.threads[t], max)
    ensures OwnSteps(labels, t) == Rank(s.threads[t], max) ==> !TransactionTheorems.Busy(s'.threads[t].pc)
  {
    TransactionTheorems.ReachableInv(s);
    ReachableCounted(s);
    RankBoundsSteps(s, labels, s', t, max);
    RankZero(s'.threads[t], max);
  }

  lemma RankZero(th: Thread, max: nat)
    ensures Rank(th, max) == 0 <==> !TransactionTheorems.Busy(th.pc)
  {
  }

  lemma StepReturns(s: State, l: Label, s': State, t: nat, max: nat)
    requires TransactionTheorems.Inv(s) && AllCounted(s) && Next(s, l) == Some(s') && t < |s.threads|
    requires l.Client? && l.thread == t ==>
               !l.event.BeginConnect? && !l.event.BeginRequest? && (l.event.Config? ==> l.event.retry <= max)
    ensures TransactionTheorems.Inv(s') && AllCounted(s') && |s'.threads| == |s.threads|
    ensures Rank(s'.threads[t], max)
            + (if l.Client? && l.thread == t && !l.event.SendInterrupted? && !l.event.RecvInterrupted? then 1 else 0)
            <= Rank(s.threads[t], max)
  {
    TransactionTheorems.NextKeepsInv(s, l, s');
    NextStaysCounted(s, l, s');
    TransactionFrames.OnlyThread(s, l, s');
    if l.Client? && l.thread == t {
      OwnStep(s, t, l.event, s', max);
    }
  }

  lemma OwnStep(s: State, t: nat, e: Event, s': State, max: nat)
    requires TransactionTheorems.Inv(s) && AllCounted(s) && t < |s.threads| && ThreadStep(s, t, e) == Some(s')
    requires !e.BeginConnect? && !e.BeginRequest? && (e.Config? ==> e.retry <= max)
    ensures t < |s'.threads|
    ensures if e.SendInterrupted? || e.RecvInterrupted? then s' == s
            else Rank(s'.threads[t], max) < Rank(s.threads[t], max)
  {
    TransactionFrames.OnlyThread(s, Client(t, e), s');
    if e.SendInterrupted? || e.RecvInterrupted? {
      InterruptionChangesNothing(s, t, e, s');
    } else {
      if !TransactionTheorems.Busy(s.threads[t].pc) { IdleOnlyBegins(s, t, e); }
      ThreadsAreSane(s, t);
      CallDescends(s, t, e, s', max);
    }
  }
}
