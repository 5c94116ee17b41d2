/**
 * Threads running connects and request transactions against one PLC, as an interleaving state machine.
 * A step is one access to shared state; between steps any other thread, or the PLC, may move.
 */
module Transactions {
  import opened Wrappers
  import opened Bytes
  import opened Framing
  import LockTable
  import Sending

  /** One value for each of the two client files, which keep their statics apart. */
  datatype Per<T> = Per(binary: T, ascii: T) {
    function Get(p: Protocol): T { if p.Binary? then binary else ascii }
    function Set(p: Protocol, v: T): Per<T> { if p.Binary? then this.(binary := v) else this.(ascii := v) }
  }

  /** Where a thread is. The names ending in Wait block on a lock. */
  datatype PC =
    | Idle
    | ConnectWait | ConnectNetwork | ConnectStation | ConnectLeave
    | PackWait | PackNetwork | PackStation | PackLeave
    | TableWait | TableLookup | TableLeave
    | FdWait | GetConfig
    | SendWait | Sending | SendLeave | Sleeping
    | Reading
    | FindWait | FindSlot | FindLeave | Release
    | Done

  /**
   * The counters of the two send loops: the configured limit, the outer attempt, the tries of this attempt; and how
   * often mc_write_msg has been called in all.
   */
  datatype Loops = Loops(limit: int, attempt: nat, tries: nat, writes: nat)

  /**
   * History of one call: the place of its send among the sends of the connection; what it found when it took the
   * connection's mutex (whether the stream was garbled, how many late answers were ahead of its own, how many
   * calls had returned); and whether one of its own sends failed part way.
   */
  datatype Past = Past(index: nat, garbled: bool, late: nat, entry: nat, tore: bool)
  {
    /** The stream was not garbled when the mutex was taken, and this call has not torn it. */
    predicate Intact() { !garbled && !tore }

    predicate Clean() { Intact() && late == 0 }
  }

  const NO_PAST := Past(0, true, 0, 0, false)

  /** The locals of one thread, and the history of its call. */
  datatype Thread = Thread(
    pc: PC, serial: nat, protocol: Protocol, address: Address,
    fd: int, core: seq<Byte>, command: seq<Byte>, slot: Option<nat>, found: Option<nat>,
    loops: Loops, offset: nat, sendOk: bool, got: seq<Byte>, result: Code, past: Past)

  /** A request as some thread sent it, and as the PLC answered it. */
  datatype Sent = Sent(thread: nat, serial: nat, command: seq<Byte>)
  datatype Exchange = Exchange(request: seq<Byte>, response: seq<Byte>)

  /**
   * One connection: bytes under way in each direction, the completed sends and the PLC's answers. The rest is
   * history: whether the stream is garbled (a send failed part way, a receive failed after some byte of the
   * response, or a header was rejected), how many receives failed before the first byte, leaving a late answer,
   * and whether any send failed part way.
   */
  datatype Wire = Wire(toPlc: seq<Byte>, toClient: seq<Byte>, sent: seq<Sent>, served: seq<Exchange>,
                       garbled: bool, late: nat, torn: bool)
  {
    predicate Broken() { garbled || late > 0 }
  }

  const FRESH_WIRE := Wire([], [], [], [], false, 0, false)

  datatype Mutex = Mutex(protocol: Protocol, slot: nat)

  datatype State = State(
    threads: seq<Thread>, global: Option<nat>, tables: Per<LockTable.Table>, owner: map<Mutex, nat>,
    wires: map<int, Wire>, returned: map<int, seq<Code>>,
    address: Per<Address>, connects: Per<seq<Address>>, asciiFds: set<int>)
  {
    function ProtocolOf(fd: int): Protocol { if fd in asciiFds then Ascii else Binary }

    function WireOf(fd: int): Wire { if fd in wires then wires[fd] else FRESH_WIRE }

    /** What the transactions that held this connection's mutex have returned so far. */
    function ReturnedOf(fd: int): seq<Code> { if fd in returned then returned[fd] else [] }
  }

  datatype Event =
    | BeginConnect(protocol: Protocol, address: Address)
    | BeginRequest(fd: int, core: seq<Byte>)
    | Step
    | Lookup(initOk: bool)
    | Config(retry: int)
    | SendSome(count: nat)
    | SendInterrupted
    | SendFailed
    | RecvSome(count: nat)
    | RecvInterrupted
    | RecvFailed(code: Code)
    | NoMemory(count: nat)

  datatype Label = Client(thread: nat, event: Event) | Plc(fd: int, response: seq<Byte>)

  function Put(s: State, t: nat, th: Thread): State
    requires t < |s.threads|
  {
    s.(threads := s.threads[t := th])
  }

  function Enter(s: State, t: nat, next: PC): Option<State>
    requires t < |s.threads|
  {
    if s.global.Some? then None else Some(Put(s, t, s.threads[t].(pc := next)).(global := Some(t)))
  }

  /** mc_connect up to the store of the station address. */
  function ConnectStep(s: State, t: nat, e: Event): Option<State>
    requires t < |s.threads|
  {
    var th := s.threads[t];
    var p := th.protocol;
    match th.pc
    case ConnectWait => if e.Step? then Enter(s, t, ConnectNetwork) else None
    case ConnectNetwork =>
      if !e.Step? then None
      else Some(Put(s, t, th.(pc := ConnectStation))
                .(address := s.address.Set(p, s.address.Get(p).(network := th.address.network))))
    case ConnectStation =>
      if !e.Step? then None
      else Some(Put(s, t, th.(pc := ConnectLeave))
                .(address := s.address.Set(p, s.address.Get(p).(station := th.address.station))))
    case ConnectLeave =>
      if !e.Step? then None
      else Some(Put(s, t, th.(pc := Idle))
                .(global := None, connects := s.connects.Set(p, s.connects.Get(p) + [th.address])))
    case _ => None
  }

  /** Packing the command under the global mutex, then the parameter check of the transaction. */
  function PackStep(s: State, t: nat, e: Event): Option<State>
    requires t < |s.threads|
  {
    var th := s.threads[t];
    match th.pc
    case PackWait => if e.Step? then Enter(s, t, PackNetwork) else None
    case PackNetwork =>
      if !e.Step? then None
      else Some(Put(s, t, th.(pc := PackStation,
                              address := th.address.(network := s.address.Get(th.protocol).network))))
    case PackStation =>
      if !e.Step? then None
      else
        var a := th.address.(station := s.address.Get(th.protocol).station);
        Some(Put(s, t, th.(pc := PackLeave, address := a, command := Pack(th.protocol, th.core, a))))
    case PackLeave =>
      if !e.Step? then None
      else Some(Put(s, t, if th.fd <= 0 then th.(pc := Done, result := InvalidParameter) else th.(pc := TableWait))
                .(global := None))
    case _ => None
  }

  /** mc_lock_fd_transaction up to the release of the global mutex. */
  function LookupStep(s: State, t: nat, e: Event): Option<State>
    requires t < |s.threads|
  {
    var th := s.threads[t];
    match th.pc
    case TableWait => if e.Step? then Enter(s, t, TableLookup) else None
    case TableLookup =>
      if !e.Lookup? then None
      else
        var r := LockTable.GetOrCreate(s.tables.Get(th.protocol), th.fd, e.initOk);
        Some(Put(s, t, th.(pc := TableLeave, slot := r.1)).(tables := s.tables.Set(th.protocol, r.0)))
    case TableLeave =>
      if !e.Step? then None
      else Some(Put(s, t, if th.slot.None? then th.(pc := Done, result := Failed) else th.(pc := FdWait))
                .(global := None))
    case _ => None
  }

  function Entered(s: State, th: Thread): Thread
  {
    var w := s.WireOf(th.fd);
    th.(pc := GetConfig, past := Past(th.past.index, w.garbled, w.late, |s.ReturnedOf(th.fd)|, false))
  }

  /** Taking the connection's mutex, then reading the configuration. */
  function FdStep(s: State, t: nat, e: Event): Option<State>
    requires t < |s.threads|
  {
    var th := s.threads[t];
    match th.pc
    case FdWait =>
      if !e.Step? || th.slot.None? || Mutex(th.protocol, th.slot.value) in s.owner then None
      else Some(Put(s, t, Entered(s, th)).(owner := s.owner[Mutex(th.protocol, th.slot.value) := t]))
    case GetConfig =>
      if !e.Config? then None
      else if e.retry < 0 then
        Some(Put(s, t, th.(pc := FindWait, loops := Loops(e.retry, 0, 0, 0), result := SocketSendFailed)))
      else Some(Put(s, t, th.(pc := SendWait, loops := Loops(e.retry, 0, 0, 0))))
    case _ => None
  }

  /** The two nested retry loops around mc_write_msg, which takes the global mutex for every attempt. */
  function RetryStep(s: State, t: nat, e: Event): Option<State>
    requires t < |s.threads|
  {
    var th := s.threads[t];
    if !e.Step? then None
    else
      match th.pc
      case SendWait =>
        if s.global.Some? then None
        else Some(Put(s, t, th.(pc := Sending, offset := 0, loops := th.loops.(writes := th.loops.writes + 1)))
                  .(global := Some(t)))
      case SendLeave => Some(Put(s, t, AfterSend(th)).(global := None))
      case Sleeping =>
        Some(Put(s, t, th.(pc := SendWait, loops := th.loops.(attempt := th.loops.attempt + 1, tries := 0))))
      case _ => None
  }

  /** One send of mc_write_msg. */
  function SendStep(s: State, t: nat, e: Event): Option<State>
    requires t < |s.threads|
  {
    var th := s.threads[t];
    var w := s.WireOf(th.fd);
    if !th.pc.Sending? then None
    else if e.SendInterrupted? then Some(s)
    else if e.SendFailed? then
      Some(Put(s, t, th.(pc := SendLeave, sendOk := false, past := th.past.(tore := th.past.tore || th.offset > 0)))
           .(wires := s.wires[th.fd := w.(garbled := w.garbled || th.offset > 0, torn := w.torn || th.offset > 0)]))
    else if !e.SendSome? || e.count == 0 || th.offset + e.count > |th.command| then None
    else
      var w' := w.(toPlc := w.toPlc + th.command[th.offset..th.offset + e.count]);
      if th.offset + e.count < |th.command| then
        Some(Put(s, t, th.(offset := th.offset + e.count)).(wires := s.wires[th.fd := w']))
      else
        Some(Put(s, t, th.(pc := SendLeave, offset := |th.command|, sendOk := true, past := th.past.(index := |w.sent|),
                           got := []))
             .(wires := s.wires[th.fd := w'.(sent := w.sent + [Sent(t, th.serial, th.command)])]))
  }

  function AfterSend(th: Thread): Thread
  {
    if th.sendOk then th.(pc := Reading)
    else if th.loops.tries + 1 < Sending.MAX_RETRY_TIMES
      then th.(pc := SendWait, loops := th.loops.(tries := th.loops.tries + 1))
    else if th.loops.attempt < th.loops.limit then th.(pc := Sleeping, loops := th.loops.(tries := th.loops.tries + 1))
    else th.(pc := FindWait, loops := th.loops.(tries := th.loops.tries + 1), result := SocketSendFailed)
  }

  /** How far the response reader wants to read, given what it has; None once it rejects the header. */
  function Wanted(p: Protocol, got: seq<Byte>): Option<nat>
  {
    if |got| < HeaderSize(p) then Some(HeaderSize(p)) else FrameSize(p, got)
  }

  predicate WantsMore(p: Protocol, got: seq<Byte>)
  {
    Wanted(p, got).Some? && |got| < Wanted(p, got).value
  }

  function AfterRead(th: Thread, got: seq<Byte>): Thread
  {
    if Wanted(th.protocol, got).None? then th.(pc := FindWait, got := got, result := ResponseHeaderFailed)
    else if WantsMore(th.protocol, got) then th.(got := got)
    else th.(pc := FindWait, got := got, result := Success)
  }

  /** A receive that failed with got already read. */
  function Missed(w: Wire, got: seq<Byte>): Wire
  {
    if got == [] then w.(late := w.late + 1) else w.(garbled := true)
  }

  /** A recv can bring count bytes: they are there, and the reader wants them. */
  predicate Brings(th: Thread, w: Wire, count: nat)
  {
    && 0 < count <= |w.toClient| && WantsMore(th.protocol, th.got)
    && |th.got| + count <= Wanted(th.protocol, th.got).value
  }

  /** The header is there and accepted, so that the reader allocates the response. */
  predicate EndsHeader(th: Thread, got: seq<Byte>)
  {
    |got| == HeaderSize(th.protocol) && Wanted(th.protocol, got).Some?
  }

  /** One recv of the response reader of either client; with NoMemory the allocation that follows it fails. */
  function ReadStep(s: State, t: nat, e: Event): Option<State>
    requires t < |s.threads|
  {
    var th := s.threads[t];
    var w := s.WireOf(th.fd);
    if !th.pc.Reading? then None
    else if e.RecvInterrupted? then Some(s)
    else if e.RecvFailed? then
      if e.code.ConnectionClosed? || e.code.SocketRecvFailed?
      then Some(Put(s, t, th.(pc := FindWait, result := e.code)).(wires := s.wires[th.fd := Missed(w, th.got)]))
      else None
    else if e.RecvSome? && Brings(th, w, e.count) then
      var got := th.got + w.toClient[..e.count];
      Some(Put(s, t, AfterRead(th, got))
           .(wires := s.wires[th.fd := w.(toClient := w.toClient[e.count..],
                                          garbled := w.garbled || Wanted(th.protocol, got).None?)]))
    else if e.NoMemory? && Brings(th, w, e.count) && EndsHeader(th, th.got + w.toClient[..e.count]) then
      var got := th.got + w.toClient[..e.count];
      Some(Put(s, t, th.(pc := FindWait, got := got, result := MallocFailed))
           .(wires := s.wires[th.fd := w.(toClient := w.toClient[e.count..],
                                          garbled := w.garbled || WantsMore(th.protocol, got))]))
    else None
  }

  /** mc_unlock_fd_transaction and the return of the transaction. */
  function UnlockStep(s: State, t: nat, e: Event): Option<State>
    requires t < |s.threads|
  {
    var th := s.threads[t];
    if !e.Step? then None
    else
      match th.pc
      case FindWait => Enter(s, t, FindSlot)
      case FindSlot => Some(Put(s, t, th.(pc := FindLeave, found := LockTable.Find(s.tables.Get(th.protocol), th.fd))))
      case FindLeave =>
        Some(Put(s, t, if th.found.Some? then th.(pc := Release)
                       else th.(pc := Done, result := if th.result.Success? then Failed else th.result))
             .(global := None))
      case Release =>
        if th.found.None? then None
        else Some(Put(s, t, th.(pc := Done))
                  .(owner := s.owner - {Mutex(th.protocol, th.found.value)},
                    returned := s.returned[th.fd := s.ReturnedOf(th.fd) + [th.result]]))
      case _ => None
  }

  /** A thread that is not in a call may begin one; the command must fit the length field of the frame. */
  function BeginStep(s: State, t: nat, e: Event): Option<State>
    requires t < |s.threads|
  {
    var th := s.threads[t];
    match e
    case BeginConnect(p, a) => Some(Put(s, t, th.(pc := ConnectWait, protocol := p, address := a)))
    case BeginRequest(fd, core) =>
      if 0 < |core| <= MaxCore(s.ProtocolOf(fd)) then
        Some(Put(s, t, th.(pc := PackWait, serial := th.serial + 1, protocol := s.ProtocolOf(fd), fd := fd,
                           core := core,
                             past := NO_PAST)))
      else None
    case _ => None
  }

  function ThreadStep(s: State, t: nat, e: Event): Option<State>
    requires t < |s.threads|
  {
    match s.threads[t].pc
    case Idle | Done => BeginStep(s, t, e)
    case ConnectWait | ConnectNetwork | ConnectStation | ConnectLeave => ConnectStep(s, t, e)
    case PackWait | PackNetwork | PackStation | PackLeave => PackStep(s, t, e)
    case TableWait | TableLookup | TableLeave => LookupStep(s, t, e)
    case FdWait | GetConfig => FdStep(s, t, e)
    case SendWait | SendLeave | Sleeping => RetryStep(s, t, e)
    case Sending => SendStep(s, t, e)
    case Reading => ReadStep(s, t, e)
    case FindWait | FindSlot | FindLeave | Release => UnlockStep(s, t, e)
  }

  /** The PLC takes one complete request frame off a connection and appends any one response frame. */
  function PlcStep(s: State, fd: int, response: seq<Byte>): Option<State>
  {
    var p := s.ProtocolOf(fd);
    var w := s.WireOf(fd);
    if |w.toPlc| < HeaderSize(p) || !IsFrame(p, response) then None
    else
      match FrameSize(p, w.toPlc)
      case None => None
      case Some(n) =>
        if |w.toPlc| < n then None
        else Some(s.(wires := s.wires[fd := w.(toPlc := w.toPlc[n..], toClient := w.toClient + response,
                                               served := w.served + [Exchange(w.toPlc[..n], response)])]))
  }

  /** The state after one labelled step; None where the step is not enabled. */
  function Next(s: State, l: Label): Option<State>
  {
    match l
    case Client(t, e) => if t < |s.threads| then ThreadStep(s, t, e) else None
    case Plc(fd, response) => PlcStep(s, fd, response)
  }

  /** The state after any number of steps of any threads and the PLC. */
  function Run(s: State, labels: seq<Label>): Option<State>
  {
    if |labels| == 0 then Some(s)
    else match Run(s, labels[..|labels| - 1])
      case Some(m) => Next(m, labels[|labels| - 1])
      case None => None
  }

  ghost predicate Initial(s: State)
  {
    && (forall u | 0 <= u < |s.threads| :: s.threads[u].pc.Idle?)
    && s.global.None?
    && s.tables == Per(LockTable.EmptyTable(), LockTable.EmptyTable())
    && s.owner == map[]
    && s.wires == map[] && s.returned == map[]
    && s.connects == Per([s.address.binary], [s.address.ascii])
  }

  ghost predicate Reachable(s: State)
  {
    exists s0: State, labels: seq<Label> :: Initial(s0) && Run(s0, labels) == Some(s)
  }

  /** The stretch during which a thread holds the global mutex. */
  predicate HoldsGlobal(pc: PC)
  {
    match pc
    case ConnectNetwork | ConnectStation | ConnectLeave | PackNetwork | PackStation | PackLeave => true
    case TableLookup | TableLeave | Sending | SendLeave | FindSlot | FindLeave => true
    case _ => false
  }

  /** The stretch between taking the connection's mutex and releasing it. */
  predicate HoldsFd(pc: PC)
  {
    match pc
    case GetConfig | SendWait | Sending | SendLeave | Sleeping => true
    case Reading | FindWait | FindSlot | FindLeave | Release => true
    case _ => false
  }

  /** The response this thread returned is the PLC's answer to the very request it sent. */
  ghost predicate Paired(w: Wire, t: nat, th: Thread)
  {
    var i := th.past.index;
    && i < |w.sent| && w.sent[i] == Sent(t, th.serial, th.command)
    && i < |w.served| && w.served[i] == Exchange(th.command, th.got)
  }

  /** It is the PLC's answer to the request sent as many places earlier as there were late answers ahead. */
  ghost predicate HoldsAnswer(w: Wire, t: nat, th: Thread)
  {
    var i, k := th.past.index, th.past.index - th.past.late;
    && i < |w.sent| && w.sent[i] == Sent(t, th.serial, th.command)
    && 0 <= k < |w.served| && w.served[k] == Exchange(w.sent[k].command, th.got)
  }

  lemma StepReachable(s: State, l: Label, s': State)
    requires Reachable(s) && Next(s, l) == Some(s')
    ensures Reachable(s')
  {
    var s0: State, labels: seq<Label> :| Initial(s0) && Run(s0, labels) == Some(s);
    assert (labels + [l])[..|labels|] == labels;
    assert Run(s0, labels + [l]) == Some(s');
  }

  lemma ThreadReachable(s: State, t: nat, e: Event, s': State)
    requires Reachable(s) && t < |s.threads| && ThreadStep(s, t, e) == Some(s')
    ensures Reachable(s')
  {
    StepReachable(s, Client(t, e), s');
  }
}
