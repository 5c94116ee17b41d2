/** The 64-slot table that gives every connection its own transaction mutex. */
module LockTable {
  import opened Wrappers

  const MAX_TX_CONNECTIONS: nat := 64

  datatype Slot = Slot(fd: int, inUse: bool, initialized: bool)

  const EMPTY_SLOT := Slot(0, false, false)

  type Table = t: seq<Slot> | |t| == MAX_TX_CONNECTIONS witness Repeat(EMPTY_SLOT, MAX_TX_CONNECTIONS)

  function Repeat(s: Slot, n: nat): (t: seq<Slot>)
    ensures |t| == n && forall i | 0 <= i < n :: t[i] == s
  {
    if n == 0 then [] else Repeat(s, n - 1) + [s]
  }

  function EmptyTable(): Table { Repeat(EMPTY_SLOT, MAX_TX_CONNECTIONS) }

  predicate Holds(s: Slot, fd: int) { s.inUse && s.fd == fd }

  /** The first slot in use for fd. */
  function Find(t: seq<Slot>, fd: int): (r: Option<nat>)
    ensures r.Some? ==> r.value < |t| && Holds(t[r.value], fd)
    ensures r.Some? ==> forall i | 0 <= i < r.value :: !Holds(t[i], fd)
    ensures r.None? ==> forall i | 0 <= i < |t| :: !Holds(t[i], fd)
  {
    if |t| == 0 then None
    else match Find(t[..|t| - 1], fd)
      case Some(i) => Some(i)
      case None => if Holds(t[|t| - 1], fd) then Some(|t| - 1) else None
  }

  function FirstFree(t: seq<Slot>): (r: Option<nat>)
    ensures r.Some? ==> r.value < |t| && !t[r.value].inUse && forall i | 0 <= i < r.value :: t[i].inUse
    ensures r.None? ==> forall i | 0 <= i < |t| :: t[i].inUse
  {
    if |t| == 0 then None
    else match FirstFree(t[..|t| - 1])
      case Some(i) => Some(i)
      case None => if !t[|t| - 1].inUse then Some(|t| - 1) else None
  }

  /** mc_get_or_create_fd_tx_mutex_locked: initOk is what mc_mutex_init answers if it is called. */
  function GetOrCreate(t: Table, fd: int, initOk: bool): (r: (Table, Option<nat>))
  {
    match Find(t, fd)
    case Some(i) => (t, Some(i))
    case None =>
      match FirstFree(t)
      case None => (t, None)
      case Some(i) =>
        if t[i].initialized || initOk then (t[i := Slot(fd, true, true)], Some(i))
        else (t[i := Slot(fd, false, false)], None)
  }

  /** In-use slots are the initialised ones, form a prefix and belong to distinct connections. */
  ghost predicate Valid(t: Table)
  {
    && (forall i, j | 0 <= i < j < |t| && t[j].inUse :: t[i].inUse)
    && (forall i, j | 0 <= i < j < |t| && t[i].inUse && t[j].inUse :: t[i].fd != t[j].fd)
    && (forall i | 0 <= i < |t| :: t[i].inUse <==> t[i].initialized)
  }

  /** Nothing in use in t is touched in u. */
  ghost predicate Extends(t: Table, u: Table)
  {
    forall i | 0 <= i < |t| && t[i].inUse :: u[i] == t[i]
  }

  predicate Full(t: Table) { FirstFree(t).None? }

  lemma EmptyIsValid()
    ensures Valid(EmptyTable()) && forall fd :: Find(EmptyTable(), fd).None?
  {
  }

  /** One lookup: what it keeps, what it answers, and exactly when it answers NULL. */
  lemma LookupContract(t: Table, fd: int, initOk: bool, u: Table, r: Option<nat>)
    requires Valid(t) && (u, r) == GetOrCreate(t, fd, initOk)
    ensures |u| == 64 && Valid(u) && Extends(t, u)
    ensures r.None? <==> Find(t, fd).None? && (!initOk || forall i | 0 <= i < 64 :: t[i].inUse)
    ensures r.Some? ==> Find(u, fd) == r
    ensures forall g | g != fd || r.None? :: Find(u, g) == Find(t, g)
  {
    forall g | g != fd || r.None? ensures Find(u, g) == Find(t, g) {
      FindDetermined(u, t, g);
    }
  }

  /** With distinct entries, where a connection sits decides what Find answers. */
  lemma FindDetermined(t: Table, u: Table, fd: int)
    requires forall i | 0 <= i < |t| :: Holds(t[i], fd) <==> Holds(u[i], fd)
    ensures Find(t, fd) == Find(u, fd)
  {
  }

  lemma SlotIsFound(t: Table, fd: int, i: nat)
    requires Valid(t) && i < |t| && Holds(t[i], fd)
    ensures Find(t, fd) == Some(i)
  {
  }

  datatype Lookup = Lookup(fd: int, initOk: bool)

  /** The table after any run of lookups. */
  function Run(ops: seq<Lookup>): Table
  {
    if |ops| == 0 then EmptyTable()
    else GetOrCreate(Run(ops[..|ops| - 1]), ops[|ops| - 1].fd, ops[|ops| - 1].initOk).0
  }

  lemma {:induction false} RunIsValid(ops: seq<Lookup>)
    ensures |Run(ops)| == 64 && Valid(Run(ops))
  {
    if |ops| == 0 {
      EmptyIsValid();
    } else {
      RunIsValid(ops[..|ops| - 1]);
      var op := ops[|ops| - 1];
      LookupContract(Run(ops[..|ops| - 1]), op.fd, op.initOk, Run(ops),
                     GetOrCreate(Run(ops[..|ops| - 1]), op.fd, op.initOk).1);
    }
  }

  /** Over every run: once a connection has a slot, every longer run finds the same one. */
  lemma {:induction false} SlotNeverMoves(ops: seq<Lookup>, n: nat, fd: int)
    requires n <= |ops| && Find(Run(ops[..n]), fd).Some?
    ensures Find(Run(ops), fd) == Find(Run(ops[..n]), fd)
  {
    if n == |ops| {
      assert ops[..n] == ops;
    } else {
      var before := ops[..|ops| - 1];
      assert before[..n] == ops[..n];
      SlotNeverMoves(before, n, fd);
      RunIsValid(before);
      var op := ops[|ops| - 1];
      LookupContract(Run(before), op.fd, op.initOk, Run(ops), GetOrCreate(Run(before), op.fd, op.initOk).1);
    }
  }

  ghost predicate Served(ops: seq<Lookup>, k: nat, fd: int)
  {
    k < |ops| && ops[k].fd == fd && GetOrCreate(Run(ops[..k]), fd, ops[k].initOk).1.Some?
  }

  ghost predicate EverServed(ops: seq<Lookup>, fd: int) { exists k: nat :: Served(ops, k, fd) }

  /** One more lookup serves no connection but its own, and leaves the earlier ones served. */
  lemma ServedByOneMore(ops: seq<Lookup>, n: nat, fd: int)
    requires |ops| == n + 1
    ensures EverServed(ops, fd) <==> Served(ops, n, fd) || EverServed(ops[..n], fd)
  {
    var before := ops[..n];
    forall k: nat | k < n ensures Served(before, k, fd) <==> Served(ops, k, fd) {
      assert before[..k] == ops[..k];
    }
  }

  /** A connection is in the table exactly when one of its lookups answered a mutex. */
  lemma {:induction false} PresentIffServed(ops: seq<Lookup>, fd: int)
    ensures Find(Run(ops), fd).Some? <==> EverServed(ops, fd)
  {
    if |ops| == 0 {
      EmptyIsValid();
    } else {
      var n := |ops| - 1;
      PresentIffServed(ops[..n], fd);
      ServedByOneMore(ops, n, fd);
      RunIsValid(ops[..n]);
      PresentAfterOneMore(Run(ops[..n]), ops[n], fd);
    }
  }

  lemma PresentAfterOneMore(t: Table, op: Lookup, fd: int)
    requires Valid(t)
    ensures var r := GetOrCreate(t, op.fd, op.initOk);
            Find(r.0, fd).Some? <==> Find(t, fd).Some? || (op.fd == fd && r.1.Some?)
  {
    var r := GetOrCreate(t, op.fd, op.initOk);
    LookupContract(t, op.fd, op.initOk, r.0, r.1);
  }

  /** The static array g_tx_connection_locks. */
  class ConnectionLocks {
    var slots: array<Slot>

    ghost predicate Sized() reads this, slots { slots.Length == MAX_TX_CONNECTIONS }

    ghost function View(): Table reads this, slots requires Sized() { slots[..] }

    constructor ()
      ensures fresh(slots) && Sized() && View() == EmptyTable()
    {
      slots := new Slot[64](_ => EMPTY_SLOT);
    }

    method GetOrCreateFdMutex(fd: int, initOk: bool) returns (r: Option<nat>)
      requires Sized()
      modifies slots
      ensures Sized() && (View(), r) == GetOrCreate(old(View()), fd, initOk)
    {
      for i := 0 to slots.Length
        invariant forall k | 0 <= k < i :: !Holds(slots[k], fd)
        invariant slots[..] == old(slots[..])
      {
        if slots[i].inUse && slots[i].fd == fd {
          assert Holds(slots[..][i], fd);
          return Some(i);
        }
      }
      assert Find(slots[..], fd).None?;
      for i := 0 to slots.Length
        invariant forall k | 0 <= k < i :: slots[k].inUse
        invariant slots[..] == old(slots[..])
      {
        if !slots[i].inUse {
          assert FirstFree(slots[..]) == Some(i);
          slots[i] := slots[i].(fd := fd);
          slots[i] := slots[i].(inUse := true);
          if !slots[i].initialized {
            if !initOk {
              slots[i] := slots[i].(inUse := false);
              assert slots[..] == old(slots[..])[i := Slot(fd, false, false)];
              return None;
            }
            slots[i] := slots[i].(initialized := true);
          }
          assert slots[..] == old(slots[..])[i := Slot(fd, true, true)];
          return Some(i);
        }
      }
      return None;
    }

    /** The search inside mc_unlock_fd_transaction. */
    method FindFdMutex(fd: int) returns (r: Option<nat>)
      requires Sized()
      ensures r == Find(View(), fd)
    {
      for i := 0 to slots.Length
        invariant forall k | 0 <= k < i :: !Holds(slots[k], fd)
      {
        if slots[i].inUse && slots[i].fd == fd {
          assert Holds(View()[i], fd);
          return Some(i);
        }
      }
      return None;
    }
  }
}
