/** Lock discipline of the transaction machine: mutual exclusion, the right mutex released, no deadlock. */
module TransactionLocks {
  import opened Wrappers
  import opened Transactions
  import LockTable

  /** From the lookup that answered a mutex up to its release. */
  predicate HasSlot(th: Thread)
  {
    th.pc.FdWait? || HoldsFd(th.pc) || (th.pc.TableLeave? && th.slot.Some?)
  }

  predicate InRequest(pc: PC)
  {
    match pc
    case Idle | ConnectWait | ConnectNetwork | ConnectStation | ConnectLeave | Done => false
    case _ => true
  }

  predicate InTransaction(pc: PC)
  {
    HoldsFd(pc) || pc.TableWait? || pc.TableLookup? || pc.TableLeave? || pc.FdWait?
  }

  ghost predicate ThreadLocks(s: State, u: nat)
    requires u < |s.threads|
  {
    var th := s.threads[u];
    && (HoldsGlobal(th.pc) <==> s.global == Some(u))
    && (InRequest(th.pc) || th.pc.Done? ==> th.protocol == s.ProtocolOf(th.fd))
    && (HasSlot(th) ==>
          th.slot.Some? && th.slot.value < LockTable.MAX_TX_CONNECTIONS
          && LockTable.Holds(s.tables.Get(th.protocol)[th.slot.value], th.fd))
    && (HoldsFd(th.pc) ==>
          Mutex(th.protocol, th.slot.value) in s.owner && s.owner[Mutex(th.protocol, th.slot.value)] == u)
    && (th.pc.FindLeave? || th.pc.Release? ==> th.found == th.slot)
    && (InTransaction(th.pc) ==> th.fd > 0)
  }

  /** The only mutex recorded as held by u is the one its slot names, and only while u holds it. */
  ghost predicate OwnsOnly(s: State, u: nat)
    requires u < |s.threads|
  {
    forall m | m in s.owner && s.owner[m] == u ::
      HoldsFd(s.threads[u].pc) && s.threads[u].protocol == m.protocol && s.threads[u].slot == Some(m.slot)
  }

  ghost predicate TablesValid(s: State)
  {
    LockTable.Valid(s.tables.binary) && LockTable.Valid(s.tables.ascii)
  }

  ghost predicate LockInv(s: State)
  {
    && TablesValid(s)
    && (s.global.Some? ==> s.global.value < |s.threads|)
    && (forall m | m in s.owner :: s.owner[m] < |s.threads|)
    && (forall u | 0 <= u < |s.threads| :: ThreadLocks(s, u))
    && (forall u | 0 <= u < |s.threads| :: OwnsOnly(s, u))
  }

  /** All that a step of thread t does to the state other threads' lock facts depend on. */
  ghost predicate LockChange(s: State, t: nat, s': State)
    requires t < |s.threads| == |s'.threads|
  {
    && s'.threads == s.threads[t := s'.threads[t]]
    && s'.asciiFds == s.asciiFds
    && (s'.tables == s.tables || TablesGrow(s, s'))
    && (s'.global == s.global || (s.global.None? && s'.global == Some(t)) || (s.global == Some(t) && s'.global.None?))
    && (s'.owner == s.owner || OthersOwnTheSame(s, t, s'))
  }

  ghost predicate TablesGrow(s: State, s': State)
  {
    && LockTable.Extends(s.tables.binary, s'.tables.binary) && LockTable.Extends(s.tables.ascii, s'.tables.ascii)
    && TablesValid(s')
  }

  ghost predicate OthersOwnTheSame(s: State, t: nat, s': State)
  {
    && (forall m | m in s.owner && s.owner[m] != t :: m in s'.owner && s'.owner[m] == s.owner[m])
    && (forall m | m in s'.owner && s'.owner[m] != t :: m in s.owner && s.owner[m] == s'.owner[m])
  }

  lemma Frame(s: State, t: nat, s': State)
    requires LockInv(s) && t < |s.threads| && |s'.threads| == |s.threads| && LockChange(s, t, s')
    requires ThreadLocks(s', t) && OwnsOnly(s', t)
    ensures LockInv(s')
  {
    forall u | 0 <= u < |s'.threads| ensures ThreadLocks(s', u) && OwnsOnly(s', u) {
      assert ThreadLocks(s, u) && OwnsOnly(s, u);
      if u != t { assert s'.threads[u] == s.threads[u]; }
    }
    forall m | m in s'.owner ensures s'.owner[m] < |s'.threads| {
      if s'.owner[m] != t { assert s.owner[m] == s'.owner[m]; }
    }
  }

  lemma InitialLocks(s: State)
    requires Initial(s)
    ensures LockInv(s)
  {
    LockTable.EmptyIsValid();
  }

  /** What the moving thread itself may rely on. */
  ghost predicate Own(s: State, t: nat)
    requires t < |s.threads|
  {
    ThreadLocks(s, t) && OwnsOnly(s, t)
  }

  ghost predicate Keeps(s: State, t: nat, s': State)
    requires t < |s.threads|
  {
    |s'.threads| == |s.threads| && LockChange(s, t, s') && ThreadLocks(s', t) && OwnsOnly(s', t)
  }

  lemma BeginKeeps(s: State, t: nat, e: Event, s': State)
    requires t < |s.threads| && Own(s, t)
    requires (s.threads[t].pc.Idle? || s.threads[t].pc.Done?) && BeginStep(s, t, e) == Some(s')
    ensures Keeps(s, t, s')
  {
  }

  lemma ConnectWaitKeeps(s: State, t: nat, e: Event, s': State)
    requires t < |s.threads| && Own(s, t) && s.threads[t].pc.ConnectWait? && ConnectStep(s, t, e) == Some(s')
    ensures Keeps(s, t, s')
  {
  }

  lemma ConnectNetworkKeeps(s: State, t: nat, e: Event, s': State)
    requires t < |s.threads| && Own(s, t) && s.threads[t].pc.ConnectNetwork? && ConnectStep(s, t, e) == Some(s')
    ensures Keeps(s, t, s')
  {
  }

  lemma ConnectStationKeeps(s: State, t: nat, e: Event, s': State)
    requires t < |s.threads| && Own(s, t) && s.threads[t].pc.ConnectStation? && ConnectStep(s, t, e) == Some(s')
    ensures Keeps(s, t, s')
  {
  }

  lemma ConnectLeaveKeeps(s: State, t: nat, e: Event, s': State)
    requires t < |s.threads| && Own(s, t) && s.threads[t].pc.ConnectLeave? && ConnectStep(s, t, e) == Some(s')
    ensures Keeps(s, t, s')
  {
  }

  lemma PackWaitKeeps(s: State, t: nat, e: Event, s': State)
    requires t < |s.threads| && Own(s, t) && s.threads[t].pc.PackWait? && PackStep(s, t, e) == Some(s')
    ensures Keeps(s, t, s')
  {
  }

  lemma PackNetworkKeeps(s: State, t: nat, e: Event, s': State)
    requires t < |s.threads| && Own(s, t) && s.threads[t].pc.PackNetwork? && PackStep(s, t, e) == Some(s')
    ensures Keeps(s, t, s')
  {
  }

  lemma PackStationKeeps(s: State, t: nat, e: Event, s': State)
    requires t < |s.threads| && Own(s, t) && s.threads[t].pc.PackStation? && PackStep(s, t, e) == Some(s')
    ensures Keeps(s, t, s')
  {
  }

  lemma PackLeaveKeeps(s: State, t: nat, e: Event, s': State)
    requires t < |s.threads| && Own(s, t) && s.threads[t].pc.PackLeave? && PackStep(s, t, e) == Some(s')
    ensures Keeps(s, t, s')
  {
  }

  lemma TableWaitKeeps(s: State, t: nat, e: Event, s': State)
    requires t < |s.threads| && Own(s, t) && s.threads[t].pc.TableWait? && LookupStep(s, t, e) == Some(s')
    ensures Keeps(s, t, s')
  {
  }

  lemma TableLeaveKeeps(s: State, t: nat, e: Event, s': State)
    requires t < |s.threads| && Own(s, t) && s.threads[t].pc.TableLeave? && LookupStep(s, t, e) == Some(s')
    ensures Keeps(s, t, s')
  {
  }

  lemma LookupKeeps(s: State, t: nat, e: Event, s': State)
    requires t < |s.threads| && Own(s, t) && TablesValid(s) && s.threads[t].pc.TableLookup?
    requires LookupStep(s, t, e) == Some(s')
    ensures Keeps(s, t, s')
  {
    var th := s.threads[t];
    var r := LockTable.GetOrCreate(s.tables.Get(th.protocol), th.fd, e.initOk);
    LockTable.LookupContract(s.tables.Get(th.protocol), th.fd, e.initOk, r.0, r.1);
    assert TablesGrow(s, s');
  }

  lemma FdWaitKeeps(s: State, t: nat, e: Event, s': State)
    requires t < |s.threads| && Own(s, t) && s.threads[t].pc.FdWait? && FdStep(s, t, e) == Some(s')
    ensures Keeps(s, t, s')
  {
  }

  lemma GetConfigKeeps(s: State, t: nat, e: Event, s': State)
    requires t < |s.threads| && Own(s, t) && s.threads[t].pc.GetConfig? && FdStep(s, t, e) == Some(s')
    ensures Keeps(s, t, s')
  {
  }

  lemma SendWaitKeeps(s: State, t: nat, e: Event, s': State)
    requires t < |s.threads| && Own(s, t) && s.threads[t].pc.SendWait? && RetryStep(s, t, e) == Some(s')
    ensures Keeps(s, t, s')
  {
  }

  lemma SendLeaveKeeps(s: State, t: nat, e: Event, s': State)
    requires t < |s.threads| && Own(s, t) && s.threads[t].pc.SendLeave? && RetryStep(s, t, e) == Some(s')
    ensures Keeps(s, t, s')
  {
  }

  lemma SleepingKeeps(s: State, t: nat, e: Event, s': State)
    requires t < |s.threads| && Own(s, t) && s.threads[t].pc.Sleeping? && RetryStep(s, t, e) == Some(s')
    ensures Keeps(s, t, s')
  {
  }

  lemma SendKeeps(s: State, t: nat, e: Event, s': State)
    requires t < |s.threads| && Own(s, t) && SendStep(s, t, e) == Some(s')
    ensures Keeps(s, t, s')
  {
    StillHolds(s, t, s');
  }

  lemma ReadKeeps(s: State, t: nat, e: Event, s': State)
    requires t < |s.threads| && Own(s, t) && ReadStep(s, t, e) == Some(s')
    ensures Keeps(s, t, s')
  {
    StillHolds(s, t, s');
  }

  /** A step inside the critical section that leaves every lock alone. */
  lemma StillHolds(s: State, t: nat, s': State)
    requires t < |s.threads| && Own(s, t) && HoldsFd(s.threads[t].pc)
    requires s' == s.(threads := s'.threads, wires := s'.wires) && |s'.threads| == |s.threads|
    requires s'.threads == s.threads[t := s'.threads[t]]
    requires s'.threads[t].fd == s.threads[t].fd && s'.threads[t].protocol == s.threads[t].protocol
              && s'.threads[t].slot == s.threads[t].slot
    requires HoldsFd(s'.threads[t].pc) && !s'.threads[t].pc.FindLeave? && !s'.threads[t].pc.Release?
    requires HoldsGlobal(s.threads[t].pc) <==> HoldsGlobal(s'.threads[t].pc)
    ensures Keeps(s, t, s')
  {
  }

  lemma FindWaitKeeps(s: State, t: nat, e: Event, s': State)
    requires t < |s.threads| && Own(s, t) && TablesValid(s) && s.threads[t].pc.FindWait?
    requires UnlockStep(s, t, e) == Some(s')
    ensures Keeps(s, t, s')
  {
  }

  lemma FindSlotKeeps(s: State, t: nat, e: Event, s': State)
    requires t < |s.threads| && Own(s, t) && TablesValid(s) && s.threads[t].pc.FindSlot?
    requires UnlockStep(s, t, e) == Some(s')
    ensures Keeps(s, t, s')
  {
    var th := s.threads[t];
    LockTable.SlotIsFound(s.tables.Get(th.protocol), th.fd, th.slot.value);
  }

  lemma FindLeaveKeeps(s: State, t: nat, e: Event, s': State)
    requires t < |s.threads| && Own(s, t) && TablesValid(s) && s.threads[t].pc.FindLeave?
    requires UnlockStep(s, t, e) == Some(s')
    ensures Keeps(s, t, s')
  {
  }

  lemma ReleaseKeeps(s: State, t: nat, e: Event, s': State)
    requires t < |s.threads| && Own(s, t) && s.threads[t].pc.Release? && UnlockStep(s, t, e) == Some(s')
    ensures Keeps(s, t, s')
  {
  }

  lemma OutsideKeeps(s: State, t: nat, e: Event, s': State)
    requires t < |s.threads| && Own(s, t) && TablesValid(s) && !HoldsFd(s.threads[t].pc)
    requires ThreadStep(s, t, e) == Some(s')
    ensures Keeps(s, t, s')
  {
    match s.threads[t].pc
    case Idle | Done => BeginKeeps(s, t, e, s');
    case ConnectWait => ConnectWaitKeeps(s, t, e, s');
    case ConnectNetwork => ConnectNetworkKeeps(s, t, e, s');
    case ConnectStation => ConnectStationKeeps(s, t, e, s');
    case ConnectLeave => ConnectLeaveKeeps(s, t, e, s');
    case PackWait => PackWaitKeeps(s, t, e, s');
    case PackNetwork => PackNetworkKeeps(s, t, e, s');
    case PackStation => PackStationKeeps(s, t, e, s');
    case PackLeave => PackLeaveKeeps(s, t, e, s');
    case TableWait => TableWaitKeeps(s, t, e, s');
    case TableLookup => LookupKeeps(s, t, e, s');
    case TableLeave => TableLeaveKeeps(s, t, e, s');
    case FdWait => FdWaitKeeps(s, t, e, s');
  }

  lemma HolderKeeps(s: State, t: nat, e: Event, s': State)
    requires t < |s.threads| && Own(s, t) && TablesValid(s) && HoldsFd(s.threads[t].pc)
    requires ThreadStep(s, t, e) == Some(s')
    ensures Keeps(s, t, s')
  {
    match s.threads[t].pc
    case GetConfig => GetConfigKeeps(s, t, e, s');
    case SendWait => SendWaitKeeps(s, t, e, s');
    case Sending => SendKeeps(s, t, e, s');
    case SendLeave => SendLeaveKeeps(s, t, e, s');
    case Sleeping => SleepingKeeps(s, t, e, s');
    case Reading => ReadKeeps(s, t, e, s');
    case FindWait => FindWaitKeeps(s, t, e, s');
    case FindSlot => FindSlotKeeps(s, t, e, s');
    case FindLeave => FindLeaveKeeps(s, t, e, s');
    case Release => ReleaseKeeps(s, t, e, s');
  }

  /** Every step keeps the lock discipline. */
  lemma NextKeepsLocks(s: State, l: Label, s': State)
    requires LockInv(s) && Next(s, l) == Some(s')
    ensures LockInv(s')
  {
    if l.Client? {
      var t := l.thread;
      assert ThreadLocks(s, t) && OwnsOnly(s, t);
      if HoldsFd(s.threads[t].pc) { HolderKeeps(s, t, l.event, s'); } else { OutsideKeeps(s, t, l.event, s'); }
      Frame(s, t, s');
    } else {
      forall u | 0 <= u < |s'.threads| ensures ThreadLocks(s', u) && OwnsOnly(s', u) {
        assert ThreadLocks(s, u) && OwnsOnly(s, u);
      }
    }
  }

  lemma SameFdSameOwner(s: State, t: nat, u: nat)
    requires LockInv(s) && t < |s.threads| && u < |s.threads|
    requires HoldsFd(s.threads[t].pc) && HoldsFd(s.threads[u].pc) && s.threads[t].fd == s.threads[u].fd
    ensures t == u
  {
    assert ThreadLocks(s, t) && ThreadLocks(s, u);
    var table := s.tables.Get(s.threads[t].protocol);
    LockTable.SlotIsFound(table, s.threads[t].fd, s.threads[t].slot.value);
    LockTable.SlotIsFound(table, s.threads[u].fd, s.threads[u].slot.value);
  }
}
