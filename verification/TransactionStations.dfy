/** Every frame carries the address of one completed connect, never a mixture of two. */
module TransactionStations {
  import opened Wrappers
  import opened Framing
  import opened Transactions
  import opened TransactionLocks

  function Latest(s: State, p: Protocol): Address
    requires |s.connects.Get(p)| > 0
  {
    s.connects.Get(p)[|s.connects.Get(p)| - 1]
  }

  predicate Writing(pc: PC) { pc.ConnectStation? || pc.ConnectLeave? }

  ghost predicate AllConnected(s: State) { |s.connects.binary| > 0 && |s.connects.ascii| > 0 }

  ghost predicate ThreadStation(s: State, u: nat)
    requires u < |s.threads| && AllConnected(s)
  {
    var th := s.threads[u];
    var p := th.protocol;
    && (th.pc.ConnectStation? ==> s.address.Get(p).network == th.address.network)
    && (th.pc.ConnectLeave? ==> s.address.Get(p) == th.address)
    && (th.pc.PackStation? ==> th.address.network == Latest(s, p).network)
    && (th.pc.PackLeave? ==> th.address == Latest(s, p))
    && (th.pc.PackLeave? || InTransaction(th.pc) || th.pc.Done? ==>
          th.command == Pack(p, th.core, th.address) && th.address in s.connects.Get(p))
    && (InRequest(th.pc) ==> 0 < |th.core| <= MaxCore(p))
  }

  /** Outside the two stores of a connect, the global address is the one last connected. */
  ghost predicate Settled(s: State, p: Protocol)
    requires AllConnected(s)
  {
    (forall u | 0 <= u < |s.threads| :: !(Writing(s.threads[u].pc) && s.threads[u].protocol == p)) ==>
      s.address.Get(p) == Latest(s, p)
  }

  ghost predicate StationInv(s: State)
  {
    && AllConnected(s)
    && (forall u | 0 <= u < |s.threads| :: ThreadStation(s, u))
    && Settled(s, Binary) && Settled(s, Ascii)
  }

  /** A step that neither starts nor is part of a connect or a pack leaves the addresses alone. */
  lemma OtherStep(s: State, t: nat, s': State)
    requires StationInv(s) && t < |s.threads| == |s'.threads|
    requires s'.threads == s.threads[t := s'.threads[t]] && s'.address == s.address && s'.connects == s.connects
    requires !Writing(s.threads[t].pc) && !Writing(s'.threads[t].pc) && ThreadStation(s', t)
    ensures StationInv(s')
  {
    forall u | 0 <= u < |s'.threads| ensures ThreadStation(s', u) { assert ThreadStation(s, u); }
    forall p ensures Settled(s', p) {
      assert Settled(s, p);
      assert forall u | 0 <= u < |s.threads| && u != t :: s'.threads[u] == s.threads[u];
    }
  }

  /** Only the moving thread changes, and it keeps its request. */
  ghost predicate Leaves(s: State, t: nat, s': State)
    requires t < |s.threads|
  {
    && |s'.threads| == |s.threads| && s'.threads == s.threads[t := s'.threads[t]]
    && s'.address == s.address && s'.connects == s.connects
    && SameRequest(s.threads[t], s'.threads[t])
  }

  /** The thread's current request has not been sent whole. */
  predicate Pending(th: Thread)
  {
    match th.pc
    case PackWait | PackNetwork | PackStation | PackLeave | TableWait | TableLookup | TableLeave => true
    case FdWait | GetConfig | SendWait | Sending | Sleeping => true
    case SendLeave => !th.sendOk
    case _ => false
  }

  predicate SameRequest(a: Thread, b: Thread)
  {
    && b.core == a.core && b.command == a.command && b.address == a.address && b.protocol == a.protocol
    && b.serial == a.serial && (Pending(b) ==> Pending(a))
    && InTransaction(a.pc) && (InTransaction(b.pc) || b.pc.Done?)
  }

  lemma LookupLeaves(s: State, t: nat, e: Event, s': State)
    requires t < |s.threads| && LookupStep(s, t, e) == Some(s')
    ensures Leaves(s, t, s')
  {
  }

  lemma FdLeaves(s: State, t: nat, e: Event, s': State)
    requires t < |s.threads| && FdStep(s, t, e) == Some(s')
    ensures Leaves(s, t, s')
  {
  }

  lemma AfterSendLeaves(s: State, t: nat, e: Event, s': State)
    requires t < |s.threads| && s.threads[t].pc.SendLeave? && RetryStep(s, t, e) == Some(s')
    ensures Leaves(s, t, s')
  {
  }

  lemma RetryLeaves(s: State, t: nat, e: Event, s': State)
    requires t < |s.threads| && !s.threads[t].pc.SendLeave? && RetryStep(s, t, e) == Some(s')
    ensures Leaves(s, t, s')
  {
  }

  lemma SendSomeLeaves(s: State, t: nat, e: Event, s': State)
    requires t < |s.threads| && e.SendSome? && SendStep(s, t, e) == Some(s')
    ensures Leaves(s, t, s')
  {
  }

  lemma SendOtherLeaves(s: State, t: nat, e: Event, s': State)
    requires t < |s.threads| && !e.SendSome? && SendStep(s, t, e) == Some(s')
    ensures Leaves(s, t, s')
  {
  }

  lemma ReadSomeLeaves(s: State, t: nat, e: Event, s': State)
    requires t < |s.threads| && e.RecvSome? && ReadStep(s, t, e) == Some(s')
    ensures Leaves(s, t, s')
  {
  }

  lemma NoMemoryLeaves(s: State, t: nat, e: Event, s': State)
    requires t < |s.threads| && e.NoMemory? && ReadStep(s, t, e) == Some(s')
    ensures Leaves(s, t, s')
  {
  }

  lemma ReadOtherLeaves(s: State, t: nat, e: Event, s': State)
    requires t < |s.threads| && !e.RecvSome? && !e.NoMemory? && ReadStep(s, t, e) == Some(s')
    ensures Leaves(s, t, s')
  {
  }

  lemma FindWaitLeaves(s: State, t: nat, e: Event, s': State)
    requires t < |s.threads| && s.threads[t].pc.FindWait? && UnlockStep(s, t, e) == Some(s')
    ensures Leaves(s, t, s')
  {
  }

  lemma FindSlotLeaves(s: State, t: nat, e: Event, s': State)
    requires t < |s.threads| && s.threads[t].pc.FindSlot? && UnlockStep(s, t, e) == Some(s')
    ensures Leaves(s, t, s')
  {
  }

  lemma FindLeaveLeaves(s: State, t: nat, e: Event, s': State)
    requires t < |s.threads| && s.threads[t].pc.FindLeave? && UnlockStep(s, t, e) == Some(s')
    ensures Leaves(s, t, s')
  {
  }

  lemma ReleaseLeaves(s: State, t: nat, e: Event, s': State)
    requires t < |s.threads| && s.threads[t].pc.Release? && UnlockStep(s, t, e) == Some(s')
    ensures Leaves(s, t, s')
  {
  }

  lemma StoreKeepsStations(s: State, t: nat, e: Event, s': State)
    requires LockInv(s) && StationInv(s) && t < |s.threads| && ConnectStep(s, t, e) == Some(s')
    requires s.threads[t].pc.ConnectNetwork? || s.threads[t].pc.ConnectStation?
    ensures StationInv(s')
  {
    assert ThreadLocks(s, t) && ThreadStation(s, t);
    forall u | 0 <= u < |s'.threads| ensures ThreadStation(s', u) {
      assert ThreadLocks(s, u) && ThreadStation(s, u);
    }
    Resettle(s, t, s');
  }

  lemma FinishKeepsStations(s: State, t: nat, e: Event, s': State)
    requires LockInv(s) && StationInv(s) && t < |s.threads| && ConnectStep(s, t, e) == Some(s')
    requires s.threads[t].pc.ConnectLeave?
    ensures StationInv(s')
  {
    assert ThreadLocks(s, t) && ThreadStation(s, t);
    forall u | 0 <= u < |s'.threads| ensures ThreadStation(s', u) {
      assert ThreadLocks(s, u) && ThreadStation(s, u);
    }
    Resettle(s, t, s');
  }

  lemma Resettle(s: State, t: nat, s': State)
    requires StationInv(s) && AllConnected(s') && t < |s.threads| == |s'.threads|
    requires s'.threads == s.threads[t := s'.threads[t]]
    requires s'.threads[t].protocol == s.threads[t].protocol
    requires forall p | p != s.threads[t].protocol ::
               s'.address.Get(p) == s.address.Get(p) && s'.connects.Get(p) == s.connects.Get(p)
    requires Writing(s'.threads[t].pc) || s'.address.Get(s.threads[t].protocol) == Latest(s', s.threads[t].protocol)
    ensures Settled(s', Binary) && Settled(s', Ascii)
  {
    assert forall u | 0 <= u < |s.threads| && u != t :: s'.threads[u] == s.threads[u];
    forall p ensures Settled(s', p) { assert Settled(s, p); }
  }

  /** Nobody stores an address while another thread holds the global mutex. */
  lemma NobodyWrites(s: State, t: nat)
    requires LockInv(s) && t < |s.threads| && HoldsGlobal(s.threads[t].pc) && !Writing(s.threads[t].pc)
    ensures forall u | 0 <= u < |s.threads| :: !Writing(s.threads[u].pc)
  {
    assert ThreadLocks(s, t);
    forall u | 0 <= u < |s.threads| ensures !Writing(s.threads[u].pc) { assert ThreadLocks(s, u); }
  }

  lemma PackKeepsStations(s: State, t: nat, e: Event, s': State)
    requires LockInv(s) && StationInv(s) && t < |s.threads| && PackStep(s, t, e) == Some(s')
    ensures StationInv(s')
  {
    assert ThreadStation(s, t) && Settled(s, s.threads[t].protocol);
    if s.threads[t].pc.PackWait? || s.threads[t].pc.PackLeave? {
      PackEnds(s, t, e, s');
    } else {
      NobodyWrites(s, t);
      PackReads(s, t, e, s');
    }
    OtherStep(s, t, s');
  }

  /** What packing does to the packing thread's own view of the addresses. */
  ghost predicate PacksWell(s: State, t: nat, s': State)
    requires t < |s.threads| && AllConnected(s)
  {
    && |s'.threads| == |s.threads| && s'.threads == s.threads[t := s'.threads[t]]
    && s'.address == s.address && s'.connects == s.connects && ThreadStation(s', t)
    && !Writing(s.threads[t].pc) && !Writing(s'.threads[t].pc)
  }

  lemma PackEnds(s: State, t: nat, e: Event, s': State)
    requires t < |s.threads| && AllConnected(s) && ThreadStation(s, t) && PackStep(s, t, e) == Some(s')
    requires s.threads[t].pc.PackWait? || s.threads[t].pc.PackLeave?
    ensures PacksWell(s, t, s')
  {
  }

  lemma PackReads(s: State, t: nat, e: Event, s': State)
    requires t < |s.threads| && AllConnected(s) && ThreadStation(s, t) && PackStep(s, t, e) == Some(s')
    requires s.threads[t].pc.PackNetwork? || s.threads[t].pc.PackStation?
    requires s.address.Get(s.threads[t].protocol) == Latest(s, s.threads[t].protocol)
    ensures PacksWell(s, t, s')
  {
  }

  lemma BeginKeepsStations(s: State, t: nat, e: Event, s': State)
    requires StationInv(s) && t < |s.threads| && (s.threads[t].pc.Idle? || s.threads[t].pc.Done?)
    requires BeginStep(s, t, e) == Some(s')
    ensures StationInv(s')
  {
    OtherStep(s, t, s');
  }

  lemma BlockedKeepsStations(s: State, t: nat, e: Event, s': State)
    requires StationInv(s) && t < |s.threads| && s.threads[t].pc.ConnectWait? && ConnectStep(s, t, e) == Some(s')
    ensures StationInv(s')
  {
    assert ThreadStation(s, t);
    OtherStep(s, t, s');
  }

  lemma LeavesKeepsStations(s: State, t: nat, s': State)
    requires StationInv(s) && t < |s.threads| && Leaves(s, t, s')
    ensures StationInv(s')
  {
    assert ThreadStation(s, t);
    OtherStep(s, t, s');
  }

  /** From the first lookup to the release, a step of a thread leaves its request and all addresses alone. */
  lemma TransactionLeaves(s: State, t: nat, e: Event, s': State)
    requires t < |s.threads| && InTransaction(s.threads[t].pc) && ThreadStep(s, t, e) == Some(s')
    ensures Leaves(s, t, s')
  {
    match s.threads[t].pc
    case TableWait | TableLookup | TableLeave => LookupLeaves(s, t, e, s');
    case FdWait | GetConfig => FdLeaves(s, t, e, s');
    case SendWait | Sleeping => RetryLeaves(s, t, e, s');
    case SendLeave => AfterSendLeaves(s, t, e, s');
    case Sending => if e.SendSome? { SendSomeLeaves(s, t, e, s'); } else { SendOtherLeaves(s, t, e, s'); }
    case Reading =>
      if e.RecvSome? {
        ReadSomeLeaves(s, t, e, s');
      } else if e.NoMemory? {
        NoMemoryLeaves(s, t, e, s');
      } else {
        ReadOtherLeaves(s, t, e, s');
      }
    case FindWait => FindWaitLeaves(s, t, e, s');
    case FindSlot => FindSlotLeaves(s, t, e, s');
    case FindLeave => FindLeaveLeaves(s, t, e, s');
    case Release => ReleaseLeaves(s, t, e, s');
  }

  /** Every step keeps the addresses consistent. */
  lemma NextKeepsStations(s: State, l: Label, s': State)
    requires LockInv(s) && StationInv(s) && Next(s, l) == Some(s')
    ensures StationInv(s')
  {
    if l.Client? {
      var t := l.thread;
      var pc := s.threads[t].pc;
      if InTransaction(pc) {
        TransactionLeaves(s, t, l.event, s');
        LeavesKeepsStations(s, t, s');
      } else if pc.Idle? || pc.Done? {
        BeginKeepsStations(s, t, l.event, s');
      } else if pc.ConnectWait? {
        BlockedKeepsStations(s, t, l.event, s');
      } else if pc.ConnectLeave? {
        FinishKeepsStations(s, t, l.event, s');
      } else if pc.ConnectNetwork? || pc.ConnectStation? {
        StoreKeepsStations(s, t, l.event, s');
      } else {
        PackKeepsStations(s, t, l.event, s');
      }
    } else {
      forall u | 0 <= u < |s'.threads| ensures ThreadStation(s', u) { assert ThreadStation(s, u); }
      assert Settled(s, Binary) && Settled(s, Ascii);
    }
  }
}
