/**
 * Why pairing needs its conditions. After one receive timeout the next transaction, of any thread, returns SUCCESS
 * with the answer to the request that timed out; and a send that fails part way makes its own transaction return
 * SUCCESS with the answer to a request that nobody made.
 */
module BrokenStream {
  import opened Wrappers
  import opened Bytes
  import opened Framing
  import opened Transactions
  import opened TransactionTheorems
  import LockTable

  lemma BeginDispatch(s: State, t: nat, e: Event)
    requires t < |s.threads| && (s.threads[t].pc.Idle? || s.threads[t].pc.Done?)
    ensures ThreadStep(s, t, e) == BeginStep(s, t, e)
  {
  }

  lemma BeginMove(s: State, t: nat, e: Event, s': State)
    requires Reachable(s) && t < |s.threads| && BeginStep(s, t, e) == Some(s')
    requires s.threads[t].pc.Idle? || s.threads[t].pc.Done?
    ensures Reachable(s')
  {
    BeginDispatch(s, t, e);
    ThreadReachable(s, t, e, s');
  }

  lemma PackDispatch(s: State, t: nat, e: Event)
    requires t < |s.threads|
    requires var pc := s.threads[t].pc; pc.PackWait? || pc.PackNetwork? || pc.PackStation? || pc.PackLeave?
    ensures ThreadStep(s, t, e) == PackStep(s, t, e)
  {
  }

  lemma PackMove(s: State, t: nat, e: Event, s': State)
    requires Reachable(s) && t < |s.threads| && PackStep(s, t, e) == Some(s')
    ensures Reachable(s')
  {
    PackDispatch(s, t, e);
    ThreadReachable(s, t, e, s');
  }

  lemma LookupDispatch(s: State, t: nat, e: Event)
    requires t < |s.threads|
    requires s.threads[t].pc.TableWait? || s.threads[t].pc.TableLookup? || s.threads[t].pc.TableLeave?
    ensures ThreadStep(s, t, e) == LookupStep(s, t, e)
  {
  }

  lemma LookupMove(s: State, t: nat, e: Event, s': State)
    requires Reachable(s) && t < |s.threads| && LookupStep(s, t, e) == Some(s')
    ensures Reachable(s')
  {
    LookupDispatch(s, t, e);
    ThreadReachable(s, t, e, s');
  }

  lemma FdDispatch(s: State, t: nat, e: Event)
    requires t < |s.threads| && (s.threads[t].pc.FdWait? || s.threads[t].pc.GetConfig?)
    ensures ThreadStep(s, t, e) == FdStep(s, t, e)
  {
  }

  lemma FdMove(s: State, t: nat, e: Event, s': State)
    requires Reachable(s) && t < |s.threads| && FdStep(s, t, e) == Some(s')
    ensures Reachable(s')
  {
    FdDispatch(s, t, e);
    ThreadReachable(s, t, e, s');
  }

  lemma RetryDispatch(s: State, t: nat, e: Event)
    requires t < |s.threads| && (s.threads[t].pc.SendWait? || s.threads[t].pc.SendLeave? || s.threads[t].pc.Sleeping?)
    ensures ThreadStep(s, t, e) == RetryStep(s, t, e)
  {
  }

  lemma RetryMove(s: State, t: nat, e: Event, s': State)
    requires Reachable(s) && t < |s.threads| && RetryStep(s, t, e) == Some(s')
    ensures Reachable(s')
  {
    RetryDispatch(s, t, e);
    ThreadReachable(s, t, e, s');
  }

  lemma SendDispatch(s: State, t: nat, e: Event)
    requires t < |s.threads| && s.threads[t].pc.Sending?
    ensures ThreadStep(s, t, e) == SendStep(s, t, e)
  {
  }

  lemma SendMove(s: State, t: nat, e: Event, s': State)
    requires Reachable(s) && t < |s.threads| && SendStep(s, t, e) == Some(s')
    ensures Reachable(s')
  {
    SendDispatch(s, t, e);
    ThreadReachable(s, t, e, s');
  }

  lemma ReadDispatch(s: State, t: nat, e: Event)
    requires t < |s.threads| && s.threads[t].pc.Reading?
    ensures ThreadStep(s, t, e) == ReadStep(s, t, e)
  {
  }

  lemma ReadMove(s: State, t: nat, e: Event, s': State)
    requires Reachable(s) && t < |s.threads| && ReadStep(s, t, e) == Some(s')
    ensures Reachable(s')
  {
    ReadDispatch(s, t, e);
    ThreadReachable(s, t, e, s');
  }

  lemma UnlockDispatch(s: State, t: nat, e: Event)
    requires t < |s.threads|
    requires var pc := s.threads[t].pc; pc.FindWait? || pc.FindSlot? || pc.FindLeave? || pc.Release?
    ensures ThreadStep(s, t, e) == UnlockStep(s, t, e)
  {
  }

  lemma UnlockMove(s: State, t: nat, e: Event, s': State)
    requires Reachable(s) && t < |s.threads| && UnlockStep(s, t, e) == Some(s')
    ensures Reachable(s')
  {
    UnlockDispatch(s, t, e);
    ThreadReachable(s, t, e, s');
  }

  /** Thread t is idle or done, connection 1 is binary, and no lock is held. */
  ghost predicate AtRest(s: State, t: nat)
  {
    && Reachable(s) && t < |s.threads| && (s.threads[t].pc.Idle? || s.threads[t].pc.Done?)
    && s.ProtocolOf(1) == Binary && s.global.None? && s.owner == map[]
    && (LockTable.Find(s.tables.binary, 1).Some? || !LockTable.Full(s.tables.binary))
  }

  /** From rest to waiting for the connection's mutex. */
  lemma ReachMutex(s: State, t: nat, core: seq<Byte>) returns (s': State)
    requires AtRest(s, t) && 0 < |core| <= MaxCore(Binary)
    ensures Reachable(s') && |s'.threads| == |s.threads| && s'.threads == s.threads[t := s'.threads[t]]
    ensures var th := s'.threads[t];
            th.pc.FdWait? && th.fd == 1 && th.protocol == Binary && th.core == core
            && th.command == PackBinary(core, s.address.binary) && th.slot.Some?
            && LockTable.Find(s'.tables.binary, 1) == th.slot
    ensures s'.global.None? && s'.owner == map[] && s'.wires == s.wires && s'.returned == s.returned
    ensures s'.asciiFds == s.asciiFds && s'.address == s.address
  {
    var s1 := BeginStep(s, t, BeginRequest(1, core)).value;
    BeginMove(s, t, BeginRequest(1, core), s1);
    var s4 := PackAll(s1, t);
    s' := LookUp(s4, t);
  }

  lemma PackAll(s: State, t: nat) returns (s': State)
    requires Reachable(s) && t < |s.threads| && s.threads[t].pc.PackWait? && s.threads[t].fd == 1
    requires s.threads[t].protocol == Binary && s.global.None?
    ensures Reachable(s')
    ensures var th := s.threads[t];
            s' == s.(threads := s.threads[t := th.(pc := TableWait, address := s.address.binary,
                                                   command := PackBinary(th.core, s.address.binary))])
  {
    var s2 := ReadNetwork(s, t);
    s' := ReadStation(s2, t);
  }

  lemma ReadStation(s: State, t: nat) returns (s': State)
    requires Reachable(s) && t < |s.threads| && s.threads[t].pc.PackStation? && s.threads[t].protocol == Binary
    requires s.threads[t].fd == 1
    requires s.threads[t].address.network == s.address.binary.network
    ensures Reachable(s')
    ensures var th := s.threads[t];
            s' == s.(global := None, threads := s.threads[t := th.(pc := TableWait, address := s.address.binary,
              command := PackBinary(th.core, s.address.binary))])
  {
    var s1 := PackStep(s, t, Step).value;
    PackMove(s, t, Step, s1);
    s' := LeavePack(s1, t);
  }

  lemma LeavePack(s: State, t: nat) returns (s': State)
    requires Reachable(s) && t < |s.threads| && s.threads[t].pc.PackLeave? && s.threads[t].fd == 1
    ensures Reachable(s')
    ensures s' == s.(global := None, threads := s.threads[t := s.threads[t].(pc := TableWait)])
  {
    s' := PackStep(s, t, Step).value;
    PackMove(s, t, Step, s');
  }

  lemma ReadNetwork(s: State, t: nat) returns (s': State)
    requires Reachable(s) && t < |s.threads| && s.threads[t].pc.PackWait? && s.threads[t].protocol == Binary
    requires s.global.None?
    ensures Reachable(s')
    ensures var th := s.threads[t];
            s' == s.(global := Some(t), threads := s.threads[t := th.(pc := PackStation,
              address := th.address.(network := s.address.binary.network))])
  {
    var s1 := PackStep(s, t, Step).value;
    PackMove(s, t, Step, s1);
    s' := PackStep(s1, t, Step).value;
    PackMove(s1, t, Step, s');
  }

  lemma LookUp(s: State, t: nat) returns (s': State)
    requires Reachable(s) && t < |s.threads| && s.threads[t].pc.TableWait? && s.threads[t].fd == 1
              && s.threads[t].protocol == Binary && s.global.None?
    requires LockTable.Find(s.tables.binary, 1).Some? || !LockTable.Full(s.tables.binary)
    ensures Reachable(s') && |s'.threads| == |s.threads|
    ensures s' == s.(tables := s'.tables,
                     threads := s.threads[t := s.threads[t].(pc := FdWait, slot := s'.threads[t].slot)])
    ensures s'.threads[t].slot.Some? && LockTable.Find(s'.tables.binary, 1) == s'.threads[t].slot
  {
    assert LockTable.Valid(s.tables.binary) by { ReachableInv(s); }
    var r := LockTable.GetOrCreate(s.tables.binary, 1, true);
    LockTable.LookupContract(s.tables.binary, 1, true, r.0, r.1);
    var s2 := LookUpSlot(s, t);
    s' := LeaveTable(s2, t);
  }

  lemma LeaveTable(s: State, t: nat) returns (s': State)
    requires Reachable(s) && t < |s.threads| && s.threads[t].pc.TableLeave? && s.threads[t].slot.Some?
    ensures Reachable(s')
    ensures s' == s.(global := None, threads := s.threads[t := s.threads[t].(pc := FdWait)])
  {
    s' := LookupStep(s, t, Step).value;
    LookupMove(s, t, Step, s');
  }

  lemma LookUpSlot(s: State, t: nat) returns (s': State)
    requires Reachable(s) && t < |s.threads| && s.threads[t].pc.TableWait? && s.threads[t].fd == 1
              && s.threads[t].protocol == Binary && s.global.None?
    ensures Reachable(s')
    ensures var r := LockTable.GetOrCreate(s.tables.binary, 1, true);
            s' == s.(global := Some(t), tables := s.tables.(binary := r.0),
                     threads := s.threads[t := s.threads[t].(pc := TableLeave, slot := r.1)])
  {
    var s1 := LookupStep(s, t, Step).value;
    LookupMove(s, t, Step, s1);
    s' := LookupStep(s1, t, Lookup(true)).value;
    LookupMove(s1, t, Lookup(true), s');
  }

  /** From the mutex to sending. */
  lemma TakeMutex(s: State, t: nat) returns (s': State)
    requires Reachable(s) && t < |s.threads| && s.threads[t].pc.FdWait? && s.threads[t].fd == 1
    requires s.threads[t].protocol == Binary
    requires s.global.None? && s.owner == map[] && s.threads[t].slot.Some?
    ensures Reachable(s')
    ensures var th := Entered(s, s.threads[t]);
            s' == s.(owner := map[Mutex(Binary, th.slot.value) := t],
                     threads := s.threads[t := th.(pc := SendWait, loops := Loops(0, 0, 0, 0))])
  {
    var s1 := FdStep(s, t, Step).value;
    FdMove(s, t, Step, s1);
    s' := FdStep(s1, t, Config(0)).value;
    FdMove(s1, t, Config(0), s');
  }

  /** The whole request is sent in one go. */
  lemma SendAll(s: State, t: nat) returns (s': State)
    requires Reachable(s) && t < |s.threads| && s.threads[t].pc.SendWait? && s.threads[t].fd == 1
    requires s.global.None? && |s.threads[t].command| > 0
    ensures Reachable(s')
    ensures var th, w := s.threads[t], s.WireOf(1);
            s' == s.(threads := s.threads[t := th.(pc := Reading, offset := |th.command|, sendOk := true,
                                                   loops := th.loops.(writes := th.loops.writes + 1),
                                                   past := th.past.(index := |w.sent|), got := [])],
                     wires := s.wires[1 := w.(toPlc := w.toPlc + th.command,
                                              sent := w.sent + [Sent(t, th.serial, th.command)])])
  {
    var s1 := EnterSend(s, t);
    s' := SendWhole(s1, t);
    assert s1.threads[t := s'.threads[t]] == s.threads[t := s'.threads[t]];
  }

  lemma EnterSend(s: State, t: nat) returns (s': State)
    requires Reachable(s) && t < |s.threads| && s.threads[t].pc.SendWait? && s.global.None?
    ensures Reachable(s')
    ensures var th := s.threads[t];
            s' == s.(global := Some(t),
                     threads := s.threads[t := th.(pc := Sending, offset := 0,
                                                   loops := th.loops.(writes := th.loops.writes + 1))])
  {
    var th := s.threads[t];
    s' := s.(global := Some(t),
             threads := s.threads[t := th.(pc := Sending, offset := 0,
                                           loops := th.loops.(writes := th.loops.writes + 1))]);
    assert RetryStep(s, t, Step) == Some(s');
    RetryMove(s, t, Step, s');
  }

  lemma SendWhole(s: State, t: nat) returns (s': State)
    requires Reachable(s) && t < |s.threads| && s.threads[t].pc.Sending? && s.threads[t].fd == 1
    requires s.threads[t].offset == 0
    requires s.global == Some(t) && |s.threads[t].command| > 0
    ensures Reachable(s')
    ensures var th, w := s.threads[t], s.WireOf(1);
            s' == s.(global := None,
                     threads := s.threads[t := th.(pc := Reading, offset := |th.command|, sendOk := true,
                                                   past := th.past.(index := |w.sent|), got := [])],
                     wires := s.wires[1 := w.(toPlc := w.toPlc + th.command,
                                              sent := w.sent + [Sent(t, th.serial, th.command)])])
  {
    var s1 := SendBytes(s, t);
    s' := RetryStep(s1, t, Step).value;
    RetryMove(s1, t, Step, s');
    assert s1.threads[t := s'.threads[t]] == s.threads[t := s'.threads[t]];
  }

  lemma SendBytes(s: State, t: nat) returns (s': State)
    requires Reachable(s) && t < |s.threads| && s.threads[t].pc.Sending? && s.threads[t].fd == 1
    requires s.threads[t].offset == 0
    requires |s.threads[t].command| > 0
    ensures Reachable(s')
    ensures var th, w := s.threads[t], s.WireOf(1);
            s' == s.(threads := s.threads[t := th.(pc := SendLeave, offset := |th.command|, sendOk := true,
                                                   past := th.past.(index := |w.sent|), got := [])],
                     wires := s.wires[1 := w.(toPlc := w.toPlc + th.command,
                                              sent := w.sent + [Sent(t, th.serial, th.command)])])
  {
    var th, n := s.threads[t], |s.threads[t].command|;
    assert th.command[0..n] == th.command;
    var w := s.WireOf(1);
    s' := s.(threads := s.threads[t := th.(pc := SendLeave, offset := n, sendOk := true,
                                           past := th.past.(index := |w.sent|), got := [])],
             wires := s.wires[1 := w.(toPlc := w.toPlc + th.command,
                                      sent := w.sent + [Sent(t, th.serial, th.command)])]);
    assert SendStep(s, t, SendSome(n)) == Some(s');
    SendMove(s, t, SendSome(n), s');
  }

  /** The first part of the request is sent before the send fails; the client will try again. */
  lemma SendPart(s: State, t: nat, n: nat) returns (s': State)
    requires Reachable(s) && t < |s.threads| && s.threads[t].pc.SendWait? && s.threads[t].fd == 1
    requires s.global.None? && 0 < n < |s.threads[t].command| && s.threads[t].loops == Loops(0, 0, 0, 0)
    ensures Reachable(s')
    ensures var th, w := s.threads[t], s.WireOf(1);
            s' == s.(threads := s.threads[t := th.(pc := SendWait, loops := Loops(0, 0, 1, 1), offset := n,
                                                   sendOk := false,
                                                   past := th.past.(tore := true))],
                     wires := s.wires[1 := w.(toPlc := w.toPlc + th.command[..n], garbled := true, torn := true)])
  {
    var s1 := EnterSend(s, t);
    var s2 := SendFirst(s1, t, n);
    s' := FailAndRetry(s2, t);
    assert s2.threads[t := s'.threads[t]] == s.threads[t := s'.threads[t]];
    assert s2.wires[1 := s'.WireOf(1)] == s.wires[1 := s'.WireOf(1)];
  }

  lemma FirstStep(s: State, t: nat, n: nat, s': State)
    requires t < |s.threads| && s.threads[t].pc.Sending? && s.threads[t].fd == 1 && s.threads[t].offset == 0
    requires 0 < n < |s.threads[t].command|
    requires var th, w := s.threads[t], s.WireOf(1);
             s' == s.(threads := s.threads[t := th.(offset := n)],
                      wires := s.wires[1 := w.(toPlc := w.toPlc + th.command[..n])])
    ensures SendStep(s, t, SendSome(n)) == Some(s')
  {
    assert s.threads[t].command[0..n] == s.threads[t].command[..n];
  }

  lemma SendFirst(s: State, t: nat, n: nat) returns (s': State)
    requires Reachable(s) && t < |s.threads| && s.threads[t].pc.Sending? && s.threads[t].fd == 1
    requires s.threads[t].offset == 0
    requires 0 < n < |s.threads[t].command|
    ensures Reachable(s')
    ensures var th, w := s.threads[t], s.WireOf(1);
            s' == s.(threads := s.threads[t := th.(offset := n)],
                     wires := s.wires[1 := w.(toPlc := w.toPlc + th.command[..n])])
  {
    var th, w := s.threads[t], s.WireOf(1);
    s' := s.(threads := s.threads[t := th.(offset := n)],
             wires := s.wires[1 := w.(toPlc := w.toPlc + th.command[..n])]);
    FirstStep(s, t, n, s');
    SendMove(s, t, SendSome(n), s');
  }

  lemma FailAndRetry(s: State, t: nat) returns (s': State)
    requires Reachable(s) && t < |s.threads| && s.threads[t].pc.Sending? && s.threads[t].fd == 1
    requires s.global == Some(t) && s.threads[t].offset > 0 && s.threads[t].loops == Loops(0, 0, 0, 1)
    ensures Reachable(s')
    ensures var th, w := s.threads[t], s.WireOf(1);
            s' == s.(global := None, wires := s.wires[1 := w.(garbled := true, torn := true)],
                     threads := s.threads[t := th.(pc := SendWait, loops := Loops(0, 0, 1, 1), sendOk := false,
                                                   past := th.past.(tore := true))])
  {
    var s1 := SendStep(s, t, SendFailed).value;
    SendMove(s, t, SendFailed, s1);
    s' := RetryStep(s1, t, Step).value;
    RetryMove(s1, t, Step, s');
  }

  /** From the end of the read to rest. */
  lemma LetGo(s: State, t: nat) returns (s': State)
    requires Reachable(s) && t < |s.threads| && s.threads[t].pc.FindWait? && s.threads[t].fd == 1
    requires s.threads[t].protocol == Binary
    requires s.global.None? && s.threads[t].slot.Some? && LockTable.Find(s.tables.binary, 1) == s.threads[t].slot
    ensures Reachable(s')
    ensures s' == s.(owner := s.owner - {Mutex(Binary, s.threads[t].slot.value)},
                     returned := s.returned[1 := s.ReturnedOf(1) + [s.threads[t].result]],
                     threads := s.threads[t := s.threads[t].(pc := Done, found := s.threads[t].slot)])
  {
    var s2 := FindAgain(s, t);
    var s3 := Depart(s2, t);
    s' := LeaveMutex(s3, t);
  }

  lemma LeaveMutex(s: State, t: nat) returns (s': State)
    requires Reachable(s) && t < |s.threads| && s.threads[t].pc.Release? && s.threads[t].found.Some?
    ensures Reachable(s')
    ensures var th := s.threads[t];
            s' == s.(owner := s.owner - {Mutex(th.protocol, th.found.value)},
                     returned := s.returned[th.fd := s.ReturnedOf(th.fd) + [th.result]],
                     threads := s.threads[t := th.(pc := Done)])
  {
    var th := s.threads[t];
    s' := s.(owner := s.owner - {Mutex(th.protocol, th.found.value)},
             returned := s.returned[th.fd := s.ReturnedOf(th.fd) + [th.result]],
             threads := s.threads[t := th.(pc := Done)]);
    assert UnlockStep(s, t, Step) == Some(s');
    UnlockMove(s, t, Step, s');
  }

  lemma Depart(s: State, t: nat) returns (s': State)
    requires Reachable(s) && t < |s.threads| && s.threads[t].pc.FindLeave? && s.threads[t].found.Some?
    ensures Reachable(s')
    ensures s' == s.(global := None, threads := s.threads[t := s.threads[t].(pc := Release)])
  {
    s' := UnlockStep(s, t, Step).value;
    UnlockMove(s, t, Step, s');
  }

  lemma FindAgain(s: State, t: nat) returns (s': State)
    requires Reachable(s) && t < |s.threads| && s.threads[t].pc.FindWait? && s.threads[t].fd == 1
    requires s.threads[t].protocol == Binary
    requires s.global.None?
    ensures Reachable(s')
    ensures s' == s.(global := Some(t), threads := s.threads[t := s.threads[t].(pc := FindLeave,
      found := LockTable.Find(s.tables.binary, 1))])
  {
    var s1 := UnlockStep(s, t, Step).value;
    UnlockMove(s, t, Step, s1);
    s' := UnlockStep(s1, t, Step).value;
    UnlockMove(s1, t, Step, s');
  }

  /** Two threads at the start, nothing connected but the defaults. */
  function Start(): State
  {
    var a := Address(0, 0);
    var th := Thread(Idle, 0, Binary, a, 0, [], [], None, None, Loops(0, 0, 0, 0), 0, false, [], Success, NO_PAST);
    State([th, th], None, Per(LockTable.EmptyTable(), LockTable.EmptyTable()), map[], map[], map[], Per(a, a),
          Per([a], [a]), {})
  }

  lemma StartAtRest()
    ensures AtRest(Start(), 0) && AtRest(Start(), 1)
  {
    assert Initial(Start()) && Run(Start(), []) == Some(Start());
    assert LockTable.EmptyTable()[0] == LockTable.EMPTY_SLOT;
  }

  /** Thread t, at rest, is brought to sending its request. */
  lemma Prepare(s: State, t: nat, core: seq<Byte>) returns (s': State)
    requires AtRest(s, t) && 0 < |core| <= MaxCore(Binary)
    ensures Reachable(s') && |s'.threads| == |s.threads| && s'.threads == s.threads[t := s'.threads[t]]
    ensures var th, w := s'.threads[t], s.WireOf(1);
            && th.pc.SendWait? && th.fd == 1 && th.protocol == Binary && th.loops == Loops(0, 0, 0, 0)
            && th.past.late == w.late && th.past.garbled == w.garbled && !th.past.tore
            && th.command == PackBinary(core, s.address.binary) && s'.wires == s.wires && s'.returned == s.returned
            && th.slot.Some? && LockTable.Find(s'.tables.binary, 1) == th.slot
            && s'.owner == map[Mutex(Binary, th.slot.value) := t]
    ensures s'.global.None? && s'.asciiFds == s.asciiFds && s'.address == s.address
  {
    var s1 := ReachMutex(s, t, core);
    s' := TakeMutex(s1, t);
  }

  /** And on to reading the answer to it. */
  lemma Ask(s: State, t: nat, core: seq<Byte>) returns (s': State)
    requires AtRest(s, t) && 0 < |core| <= MaxCore(Binary)
    ensures Reachable(s') && |s'.threads| == |s.threads| && s'.threads == s.threads[t := s'.threads[t]]
    ensures var th, w := s'.threads[t], s.WireOf(1);
            && th.pc.Reading? && th.fd == 1 && th.protocol == Binary && th.got == [] && th.past.index == |w.sent|
            && th.past.late == w.late && th.past.garbled == w.garbled && !th.past.tore
            && th.command == PackBinary(core, s.address.binary) && s'.returned == s.returned
            && s'.wires == s.wires[1 := w.(toPlc := w.toPlc + th.command,
                                           sent := w.sent + [Sent(t, th.serial, th.command)])]
            && th.slot.Some? && LockTable.Find(s'.tables.binary, 1) == th.slot
            && s'.owner == map[Mutex(Binary, th.slot.value) := t]
    ensures s'.global.None? && s'.asciiFds == s.asciiFds && s'.address == s.address
  {
    var s1 := Prepare(s, t, core);
    s' := SendAll(s1, t);
  }

  /** The receive fails before the first byte. */
  lemma LoseAnswer(s: State, t: nat) returns (s': State)
    requires Reachable(s) && t < |s.threads| && s.threads[t].pc.Reading? && s.threads[t].got == []
    ensures Reachable(s')
    ensures var th := s.threads[t];
            s' == s.(wires := s.wires[th.fd := s.WireOf(th.fd).(late := s.WireOf(th.fd).late + 1)],
                     threads := s.threads[t := th.(pc := FindWait, result := SocketRecvFailed)])
  {
    s' := ReadStep(s, t, RecvFailed(SocketRecvFailed)).value;
    ReadMove(s, t, RecvFailed(SocketRecvFailed), s');
  }

  /** Thread 0 sends a request and its receive times out before the PLC answers. */
  lemma TimesOut(core: seq<Byte>) returns (s: State)
    requires 0 < |core| <= MaxCore(Binary)
    ensures AtRest(s, 1) && |s.threads| == 2 && s.address == Start().address
    ensures var c := PackBinary(core, Address(0, 0));
            exists n :: s.WireOf(1) == Wire(c, [], [Sent(0, n, c)], [], false, 1, false)
  {
    StartAtRest();
    var s2 := Ask(Start(), 0, core);
    assert [] + PackBinary(core, Address(0, 0)) == PackBinary(core, Address(0, 0));
    var s3 := LoseAnswer(s2, 0);
    s := LetGo(s3, 0);
  }

  /**
   * For any two requests there is a run in which the second transaction returns SUCCESS with the PLC's
   * answer to the first, which had timed out.
   */
  lemma WrongAnswerAfterTimeout(first: seq<Byte>, second: seq<Byte>) returns (s: State)
    requires 0 < |first| <= MaxCore(Binary) && 0 < |second| <= MaxCore(Binary)
    ensures Reachable(s) && |s.threads| == 2
    ensures var th, w := s.threads[1], s.WireOf(1);
            && th.pc.Done? && th.result.Success? && th.fd == 1 && th.past.Intact() && th.past.late == 1
            && th.command == PackBinary(second, Address(0, 0))
            && w.served == [Exchange(PackBinary(first, Address(0, 0)), th.got)]
            && !Paired(w, 1, th)
  {
    var s1 := TimesOut(first);
    var s3 := Ask(s1, 1, second);
    PackedIsFrame(Binary, first, Address(0, 0));
    var s4 := AnswerHead(s3, PackBinary(first, Address(0, 0)));
    var s5 := ReadAcknowledgement(s4, 1);
    s := LetGo(s5, 1);
  }

  lemma ReadAcknowledgement(s: State, t: nat) returns (s': State)
    requires Reachable(s) && t < |s.threads| && s.threads[t].pc.Reading? && s.threads[t].got == []
    requires s.threads[t].protocol == Binary
    requires s.WireOf(s.threads[t].fd).toClient == Acknowledgement(Binary)
    ensures Reachable(s')
    ensures var th := s.threads[t];
            s' == s.(wires := s.wires[th.fd := s.WireOf(th.fd).(toClient := [])],
                     threads := s.threads[t := th.(pc := FindWait, got := Acknowledgement(Binary), result := Success)])
  {
    var ack := Acknowledgement(Binary);
    assert |ack| == 11 && [] + ack[..11] == ack && ack[11..] == [];
    assert Wanted(Binary, ack) == Some(11);
    s' := ReadStep(s, t, RecvSome(11)).value;
    ReadMove(s, t, RecvSome(11), s');
  }

  /** The PLC answers the frame at the head of the stream. */
  lemma AnswerHead(s: State, f: seq<Byte>) returns (s': State)
    requires Reachable(s) && IsFrame(Binary, f) && s.ProtocolOf(1) == Binary
    requires f <= s.WireOf(1).toPlc && s.WireOf(1).toClient == [] && s.WireOf(1).served == []
    ensures Reachable(s')
    ensures var w := s.WireOf(1);
            s' == s.(wires := s.wires[1 := w.(toPlc := w.toPlc[|f|..], toClient := Acknowledgement(Binary),
                                              served := [Exchange(f, Acknowledgement(Binary))])])
  {
    var w := s.WireOf(1);
    assert w.toPlc[..|f|] == f;
    SizeFromHeader(Binary, w.toPlc, |f|);
    assert FrameSize(Binary, w.toPlc) == Some(|f|);
    assert [] + Acknowledgement(Binary) == Acknowledgement(Binary);
    assert [] + [Exchange(f, Acknowledgement(Binary))] == [Exchange(f, Acknowledgement(Binary))];
    s' := PlcStep(s, 1, Acknowledgement(Binary)).value;
    StepReachable(s, Plc(1, Acknowledgement(Binary)), s');
  }

  /** No memory is found for an acknowledgement, whose header is all of it. */
  lemma DropAcknowledgement(s: State, t: nat) returns (s': State)
    requires Reachable(s) && t < |s.threads| && s.threads[t].pc.Reading? && s.threads[t].got == []
    requires s.threads[t].protocol == Binary
    requires s.WireOf(s.threads[t].fd).toClient == Acknowledgement(Binary)
    ensures Reachable(s')
    ensures var th := s.threads[t];
            s' == s.(wires := s.wires[th.fd := s.WireOf(th.fd).(toClient := [])],
                     threads := s.threads[t := th.(pc := FindWait, got := Acknowledgement(Binary),
                                                   result := MallocFailed)])
  {
    var ack := Acknowledgement(Binary);
    assert |ack| == 11 && [] + ack[..11] == ack && ack[11..] == [];
    assert Wanted(Binary, ack) == Some(11);
    s' := ReadStep(s, t, NoMemory(11)).value;
    ReadMove(s, t, NoMemory(11), s');
  }

  /** MALLOC_FAILED leaves a doubt: here it is the only code returned, and the stream is sound. */
  lemma SoundAfterMallocFailed(core: seq<Byte>) returns (s: State)
    requires 0 < |core| <= MaxCore(Binary)
    ensures Reachable(s) && s.ReturnedOf(1) == [MallocFailed] && !s.WireOf(1).Broken()
  {
    StartAtRest();
    var s1 := Ask(Start(), 0, core);
    PackedIsFrame(Binary, core, Address(0, 0));
    assert [] + PackBinary(core, Address(0, 0)) == PackBinary(core, Address(0, 0));
    var s2 := AnswerHead(s1, PackBinary(core, Address(0, 0)));
    var s3 := DropAcknowledgement(s2, 0);
    s := LetGo(s3, 0);
  }

  // ---- The partial write ----

  /** What the PLC takes for a request when the header of one is followed by the whole of it. */
  function Mangled(command: seq<Byte>): seq<Byte>
    requires |command| >= 11
  {
    command[..11] + command[..|command| - 11]
  }

  lemma MangledIsFrame(core: seq<Byte>, a: Address)
    requires 0 < |core| <= MaxCore(Binary) && core[0] != 0x50
    ensures var c := PackBinary(core, a); IsFrame(Binary, Mangled(c)) && Mangled(c) != c && Mangled(c) <= c[..11] + c
  {
    var c := PackBinary(core, a);
    PackedIsFrame(Binary, core, a);
    assert Mangled(c)[..11] == c[..11];
    SizeFromHeader(Binary, c, 11);
    SizeFromHeader(Binary, Mangled(c), 11);
    assert Mangled(c)[11] == 0x50 && c[11] == core[0];
    assert (c[..11] + c)[..|c|] == Mangled(c);
  }

  /** The header is sent, then the whole request. */
  lemma SendTwice(core: seq<Byte>) returns (s: State)
    requires 0 < |core| <= MaxCore(Binary)
    ensures Reachable(s) && |s.threads| == 2 && s.global.None? && s.ReturnedOf(1) == [] && s.ProtocolOf(1) == Binary
    ensures var th, c := s.threads[0], PackBinary(core, Address(0, 0));
            && th.pc.Reading? && th.fd == 1 && th.protocol == Binary && th.got == [] && th.command == c
            && !th.past.garbled && th.past.late == 0 && th.past.tore
            && th.slot.Some? && LockTable.Find(s.tables.binary, 1) == th.slot
            && s.WireOf(1).toPlc == c[..11] + c && s.WireOf(1).toClient == [] && s.WireOf(1).served == []
  {
    StartAtRest();
    var s1 := Prepare(Start(), 0, core);
    var s2 := SendPart(s1, 0, 11);
    assert [] + s1.threads[0].command[..11] == s1.threads[0].command[..11];
    s := SendAll(s2, 0);
  }

  /**
   * For any request there is a run on a sound connection in which a send fails after the header, the retry succeeds,
   * and the only transaction of the run returns SUCCESS with the answer to a request that nobody made.
   */
  lemma WrongRequestAfterPartialWrite(core: seq<Byte>) returns (s: State)
    requires 0 < |core| <= MaxCore(Binary) && core[0] != 0x50
    ensures Reachable(s) && |s.threads| == 2 && s.ReturnedOf(1) == [Success]
    ensures var th, w := s.threads[0], s.WireOf(1);
            && th.pc.Done? && th.result.Success? && th.fd == 1 && !th.past.garbled && th.past.late == 0 && th.past.tore
            && th.command == PackBinary(core, Address(0, 0))
            && w.served == [Exchange(Mangled(th.command), th.got)] && Mangled(th.command) != th.command
            && !Paired(w, 0, th)
  {
    var s3 := SendTwice(core);
    MangledIsFrame(core, Address(0, 0));
    var s4 := AnswerHead(s3, Mangled(PackBinary(core, Address(0, 0))));
    var s5 := ReadAcknowledgement(s4, 0);
    s := LetGo(s5, 0);
  }
}
