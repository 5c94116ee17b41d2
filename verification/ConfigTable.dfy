/** The 32-slot table of per-connection settings in socket.c, as a bounded map. */
module ConfigTable {
  import opened Wrappers

  const MAX_CONNECTIONS: nat := 32

  datatype Config = Config(sendTimeoutMs: int, recvTimeoutMs: int, retryCount: int, retryIntervalMs: int)

  const DEFAULT_CONFIG := Config(5000, 5000, 3, 500)

  datatype Slot = Slot(fd: int, config: Config, inUse: bool)

  const EMPTY_SLOT := Slot(0, Config(0, 0, 0, 0), false)

  /** The connections in use and their settings. */
  function Contents(t: seq<Slot>): map<int, Config>
  {
    if |t| == 0 then map[]
    else
      var s := t[|t| - 1];
      if s.inUse then Contents(t[..|t| - 1])[s.fd := s.config] else Contents(t[..|t| - 1])
  }

  ghost predicate Distinct(t: seq<Slot>)
  {
    forall i, j | 0 <= i < j < |t| && t[i].inUse && t[j].inUse :: t[i].fd != t[j].fd
  }

  ghost predicate Valid(t: seq<Slot>) { |t| == MAX_CONNECTIONS && Distinct(t) }

  /** A connection is in the map exactly when a slot in use names it, and that slot holds its settings. */
  lemma {:induction false} ContentsContract(t: seq<Slot>, fd: int)
    requires Distinct(t)
    ensures fd in Contents(t) <==> exists i :: 0 <= i < |t| && t[i].inUse && t[i].fd == fd
    ensures forall i | 0 <= i < |t| && t[i].inUse && t[i].fd == fd :: Contents(t)[fd] == t[i].config
  {
    if |t| > 0 { ContentsContract(t[..|t| - 1], fd); }
  }

  function InUse(t: seq<Slot>): nat
  {
    if |t| == 0 then 0 else InUse(t[..|t| - 1]) + if t[|t| - 1].inUse then 1 else 0
  }

  lemma {:induction false} SizeIsSlotsInUse(t: seq<Slot>)
    requires Distinct(t)
    ensures |Contents(t)| == InUse(t)
  {
    if |t| > 0 {
      SizeIsSlotsInUse(t[..|t| - 1]);
      ContentsContract(t[..|t| - 1], t[|t| - 1].fd);
    }
  }

  predicate AllInUse(t: seq<Slot>) { forall i | 0 <= i < |t| :: t[i].inUse }

  lemma {:induction false} InUseBound(t: seq<Slot>)
    ensures InUse(t) <= |t|
    ensures InUse(t) == |t| <==> AllInUse(t)
  {
    if |t| > 0 {
      var u := t[..|t| - 1];
      InUseBound(u);
      assert AllInUse(t) <==> AllInUse(u) && t[|t| - 1].inUse by {
        assert forall i | 0 <= i < |u| :: t[i] == u[i];
      }
    }
  }

  /** Every slot is taken exactly when the map has 32 entries. */
  lemma FullIsFull(t: seq<Slot>)
    requires Valid(t)
    ensures |Contents(t)| <= 32
    ensures |Contents(t)| == 32 <==> AllInUse(t)
  {
    SizeIsSlotsInUse(t);
    InUseBound(t);
  }

  /** Writing slot i changes the map at most at the connections named there before and after. */
  lemma StoreContract(t: seq<Slot>, i: nat, s: Slot)
    requires Valid(t) && i < |t|
    requires s.inUse ==> forall j | 0 <= j < |t| && j != i && t[j].inUse :: t[j].fd != s.fd
    ensures Valid(t[i := s])
    ensures Contents(t[i := s]) ==
            var base := if t[i].inUse then Contents(t) - {t[i].fd} else Contents(t);
            if s.inUse then base[s.fd := s.config] else base
  {
    var u := t[i := s];
    var base := if t[i].inUse then Contents(t) - {t[i].fd} else Contents(t);
    var expected := if s.inUse then base[s.fd := s.config] else base;
    forall fd ensures fd in Contents(u) <==> fd in expected
              ensures fd in expected ==> Contents(u)[fd] == expected[fd]
    {
      ContentsContract(t, fd);
      ContentsContract(u, fd);
      if fd in expected && !(s.inUse && fd == s.fd) {
        var j :| 0 <= j < |t| && t[j].inUse && t[j].fd == fd;
        assert u[j] == t[j];
      }
      if s.inUse && fd == s.fd { assert u[i].inUse && u[i].fd == fd; }
    }
  }

  /** What a bounded map does with one call. */
  datatype Op = Add(fd: int, config: Config) | Remove(fd: int)

  function Accepts(m: map<int, Config>, op: Op): bool { op.Remove? || op.fd in m || |m| < MAX_CONNECTIONS }

  function Apply(m: map<int, Config>, op: Op): map<int, Config>
  {
    match op
    case Add(fd, c) => if Accepts(m, op) then m[fd := c] else m
    case Remove(fd) => m - {fd}
  }

  function ApplyAll(ops: seq<Op>): map<int, Config>
  {
    if |ops| == 0 then map[] else Apply(ApplyAll(ops[..|ops| - 1]), ops[|ops| - 1])
  }

  function Get(m: map<int, Config>, fd: int): Config { if fd in m then m[fd] else DEFAULT_CONFIG }

  lemma OthersUndisturbed(m: map<int, Config>, op: Op, fd: int)
    requires op.fd != fd
    ensures Get(Apply(m, op), fd) == Get(m, fd)
  {
  }

  /** After any run, a lookup gives the last settings accepted for the connection if nothing touched it since. */
  lemma {:induction false} LastAddedWins(ops: seq<Op>, k: nat)
    requires k < |ops| && forall j | k < j < |ops| :: ops[j].fd != ops[k].fd
    ensures Get(ApplyAll(ops), ops[k].fd)
            == if ops[k].Add? && Accepts(ApplyAll(ops[..k]), ops[k]) then ops[k].config else DEFAULT_CONFIG
    decreases |ops|
  {
    var before := ops[..|ops| - 1];
    if k == |ops| - 1 {
      assert before == ops[..k];
    } else {
      assert before[..k] == ops[..k];
      LastAddedWins(before, k);
      OthersUndisturbed(ApplyAll(before), ops[|ops| - 1], ops[k].fd);
    }
  }

  /** The last call of a run that was about a connection. */
  function LastTouch(ops: seq<Op>, fd: int): (k: Option<nat>)
    ensures k.Some? ==> k.value < |ops| && ops[k.value].fd == fd && forall j | k.value < j < |ops| :: ops[j].fd != fd
    ensures k.None? ==> forall j | 0 <= j < |ops| :: ops[j].fd != fd
  {
    if |ops| == 0 then None
    else if ops[|ops| - 1].fd == fd then Some(|ops| - 1)
    else LastTouch(ops[..|ops| - 1], fd)
  }

  /** A connection that no call was about has the default settings. */
  lemma {:induction false} UntouchedIsDefault(ops: seq<Op>, fd: int)
    requires forall j | 0 <= j < |ops| :: ops[j].fd != fd
    ensures Get(ApplyAll(ops), fd) == Config(5000, 5000, 3, 500)
  {
    if |ops| > 0 {
      UntouchedIsDefault(ops[..|ops| - 1], fd);
      OthersUndisturbed(ApplyAll(ops[..|ops| - 1]), ops[|ops| - 1], fd);
    }
  }

  // ---- The slots ----

  predicate Names(s: Slot, fd: int) { s.inUse && s.fd == fd }

  /** find_connection_config: the first slot in use for fd. */
  function FindSlot(t: seq<Slot>, fd: int): (r: Option<nat>)
    ensures r.Some? ==> r.value < |t| && Names(t[r.value], fd) && forall i | 0 <= i < r.value :: !Names(t[i], fd)
    ensures r.None? ==> forall i | 0 <= i < |t| :: !Names(t[i], fd)
  {
    if |t| == 0 then None
    else match FindSlot(t[..|t| - 1], fd)
      case Some(i) => Some(i)
      case None => if Names(t[|t| - 1], fd) then Some(|t| - 1) else None
  }

  function FreeSlot(t: seq<Slot>): (r: Option<nat>)
    ensures r.Some? ==> r.value < |t| && !t[r.value].inUse && forall i | 0 <= i < r.value :: t[i].inUse
    ensures r.None? ==> AllInUse(t)
  {
    if |t| == 0 then None
    else match FreeSlot(t[..|t| - 1])
      case Some(i) => Some(i)
      case None => if !t[|t| - 1].inUse then Some(|t| - 1) else None
  }

  /** What either call makes of the slots, and the index that adding answers. */
  function Step(t: seq<Slot>, op: Op): (r: (seq<Slot>, int))
  {
    match (op, FindSlot(t, op.fd), FreeSlot(t))
    case (Add(_, c), Some(i), _) => (t[i := t[i].(config := c)], i as int)
    case (Add(fd, c), None, Some(i)) => (t[i := Slot(fd, c, true)], i as int)
    case (Add(_, _), None, None) => (t, -1)
    case (Remove(_), Some(i), _) => (t[i := t[i].(inUse := false)], i as int)
    case (Remove(_), None, _) => (t, -1)
  }

  /** One call on the slots is one call on the map; adding is refused exactly when the map refuses it. */
  lemma StepRefines(t: seq<Slot>, op: Op)
    requires Valid(t)
    ensures Valid(Step(t, op).0) && Contents(Step(t, op).0) == Apply(Contents(t), op)
    ensures op.Add? ==> (Step(t, op).1 >= 0 <==> Accepts(Contents(t), op))
    ensures op.Add? && Step(t, op).1 < 0 ==> Step(t, op).0 == t
  {
    ContentsContract(t, op.fd);
    FullIsFull(t);
    match (FindSlot(t, op.fd), FreeSlot(t))
    case (Some(i), _) =>
      assert op.fd in Contents(t);
      StoreContract(t, i, if op.Add? then t[i].(config := op.config) else t[i].(inUse := false));
    case (None, Some(i)) => if op.Add? { StoreContract(t, i, Slot(op.fd, op.config, true)); }
    case (None, None) =>
  }

  function EmptySlots(n: nat): (t: seq<Slot>)
    ensures |t| == n && forall i | 0 <= i < n :: t[i] == EMPTY_SLOT
  {
    if n == 0 then [] else EmptySlots(n - 1) + [EMPTY_SLOT]
  }

  /** The slots after any run of calls. */
  function StepAll(ops: seq<Op>): seq<Slot>
  {
    if |ops| == 0 then EmptySlots(MAX_CONNECTIONS) else Step(StepAll(ops[..|ops| - 1]), ops[|ops| - 1]).0
  }

  lemma {:induction false} RunRefines(ops: seq<Op>)
    ensures Valid(StepAll(ops)) && Contents(StepAll(ops)) == ApplyAll(ops)
  {
    if |ops| == 0 {
      forall fd ensures fd !in Contents(StepAll(ops)) { ContentsContract(StepAll(ops), fd); }
    } else {
      RunRefines(ops[..|ops| - 1]);
      StepRefines(StepAll(ops[..|ops| - 1]), ops[|ops| - 1]);
    }
  }

  /**
   * Over any run of the 32 slots no two in use name the same connection, and a lookup gives the settings of the last
   * call about the connection if that was an addition there was room for, and the default in every other case.
   */
  lemma RunAnswers(ops: seq<Op>, fd: int)
    ensures |StepAll(ops)| == 32 && Valid(StepAll(ops))
    ensures Get(Contents(StepAll(ops)), fd)
            == match LastTouch(ops, fd)
               case Some(k) =>
                 if ops[k].Add? && Step(StepAll(ops[..k]), ops[k]).1 >= 0 then ops[k].config else DEFAULT_CONFIG
               case None => DEFAULT_CONFIG
  {
    RunRefines(ops);
    match LastTouch(ops, fd)
    case Some(k) =>
      RunRefines(ops[..k]);
      StepRefines(StepAll(ops[..k]), ops[k]);
      LastAddedWins(ops, k);
    case None => UntouchedIsDefault(ops, fd);
  }

  /** The static array connection_configs. */
  class ConnectionConfigs {
    var slots: array<Slot>

    ghost predicate Ok() reads this, slots { Valid(slots[..]) }

    ghost function View(): map<int, Config> reads this, slots { Contents(slots[..]) }

    constructor ()
      ensures fresh(slots) && Ok() && View() == map[]
    {
      slots := new Slot[32](_ => EMPTY_SLOT);
      new;
      forall fd ensures fd !in View() { ContentsContract(slots[..], fd); }
    }

    method FindConnectionConfig(fd: int) returns (index: int)
      requires Ok()
      ensures index == match FindSlot(slots[..], fd) case Some(i) => i as int case None => -1
      ensures index >= 0 <==> fd in View()
      ensures index >= 0 ==> View()[fd] == slots[index].config
    {
      ContentsContract(slots[..], fd);
      for i := 0 to slots.Length
        invariant forall k | 0 <= k < i :: !Names(slots[k], fd)
      {
        if slots[i].inUse && slots[i].fd == fd {
          assert Names(slots[..][i], fd);
          return i;
        }
      }
      return -1;
    }

    /** add_connection_config: a slot index, or -1 with nothing changed when the connection is new and 32 are in use. */
    method AddConnectionConfig(fd: int, config: Config) returns (index: int)
      requires Ok()
      modifies slots
      ensures (slots[..], index) == Step(old(slots[..]), Add(fd, config))
      ensures Ok() && View() == Apply(old(View()), Add(fd, config))
      ensures index >= 0 <==> fd in old(View()) || |old(View())| < 32
      ensures View() == if index >= 0 then old(View())[fd := config] else old(View())
    {
      StepRefines(slots[..], Add(fd, config));
      index := FindConnectionConfig(fd);
      if index >= 0 {
        ghost var after := slots[..][index := slots[index].(config := config)];
        slots[index] := slots[index].(config := config);
        assert slots[..] == after;
        return;
      }
      for i := 0 to slots.Length
        invariant forall k | 0 <= k < i :: slots[k].inUse
        invariant slots[..] == old(slots[..])
      {
        if !slots[i].inUse {
          assert FreeSlot(slots[..]) == Some(i);
          slots[i] := slots[i].(fd := fd);
          slots[i] := slots[i].(config := config);
          slots[i] := slots[i].(inUse := true);
          assert slots[..] == old(slots[..])[i := Slot(fd, config, true)];
          return i;
        }
      }
      return -1;
    }

    /** mc_remove_connection_config. */
    method RemoveConnectionConfig(fd: int)
      requires Ok()
      modifies slots
      ensures slots[..] == Step(old(slots[..]), Remove(fd)).0
      ensures Ok() && View() == Apply(old(View()), Remove(fd)) == old(View()) - {fd}
    {
      StepRefines(slots[..], Remove(fd));
      var index := FindConnectionConfig(fd);
      if index >= 0 {
        ghost var after := slots[..][index := slots[index].(inUse := false)];
        slots[index] := slots[index].(inUse := false);
        assert slots[..] == after;
      }
    }

    /** mc_get_comm_config. */
    method GetCommConfig(fd: int) returns (code: Code, config: Config)
      requires Ok()
      ensures code == (if fd <= 0 then InvalidParameter else Success)
      ensures fd > 0 ==> config == if fd in View() then View()[fd] else Config(5000, 5000, 3, 500)
    {
      if fd <= 0 { return InvalidParameter, DEFAULT_CONFIG; }
      var index := FindConnectionConfig(fd);
      if index >= 0 {
        return Success, slots[index].config;
      } else {
        return Success, DEFAULT_CONFIG;
      }
    }
  }
}
