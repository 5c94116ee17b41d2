/** One transaction by itself: the call that the machine of Transactions interleaves, with its parts put together. */
module OneCall {
  import opened Wrappers
  import opened Bytes
  import opened Framing
  import LockTable
  import Sending
  import Receiving

  /** Whether the lookup answers a mutex. */
  predicate GetsMutex(t: LockTable.Table, fd: int, initOk: bool)
  {
    LockTable.Find(t, fd).Some? || (!LockTable.Full(t) && initOk)
  }

  /**
   * mc_send_and_receive_transaction of either client. Bad parameters and a lookup without a mutex leave the
   * socket alone; a failed send leaves the stream alone; otherwise the result is the reader's, whatever the
   * second lookup says, because it cannot fail.
   */
  method SendAndReceive(p: Protocol, locks: LockTable.ConnectionLocks, socket: Sending.Socket,
                        connection: Receiving.Connection,
                        fd: int, command: array<Byte>, initOk: bool, retryCount: int, memory: bool)
    returns (code: Code, response: array<Byte>, recvSize: nat)
    requires locks.Sized() && LockTable.Valid(locks.View())
    modifies locks.slots, socket, connection
    ensures locks.Sized() && LockTable.Valid(locks.View()) && LockTable.Extends(old(locks.View()), locks.View())
    ensures fd <= 0 || command.Length == 0 ==> code == InvalidParameter && locks.View() == old(locks.View())
    ensures fd > 0 && command.Length > 0 && !old(GetsMutex(locks.View(), fd, initOk)) ==> code == Code.Failed
    ensures fd <= 0 || command.Length == 0 || !old(GetsMutex(locks.View(), fd, initOk)) ==>
              unchanged(socket) && unchanged(connection)
    ensures fd > 0 && command.Length > 0 && old(GetsMutex(locks.View(), fd, initOk)) ==>
              var a := Sending.Try(old(socket.script), command.Length, Sending.Budget(retryCount));
              var r := Receiving.ReadResponse(p, old(connection.script), memory);
              && LockTable.Find(locks.View(), fd).Some?
              && socket.wire == old(socket.wire) + Sending.OnWire(command[..], a)
              && (!a.ok ==> code == SocketSendFailed && unchanged(connection))
              && (a.ok ==> code == r.code && connection.script == r.rest)
              && (a.ok && code.Success? ==> response[..] == r.frame && recvSize == |r.frame|)
  {
    response, recvSize := command, 0;
    if fd <= 0 || command.Length <= 0 { return InvalidParameter, response, recvSize; }
    var mutex := Lock(locks, fd, initOk);
    if mutex.None? { return Code.Failed, response, recvSize; }
    var sent := socket.SendWithRetry(command, retryCount);
    if !sent {
      code := SocketSendFailed;
    } else {
      code, response, recvSize := connection.ReadResponseFrame(p, memory);
    }
    var found := locks.FindFdMutex(fd);
    if code.Success? && found.None? { code := Code.Failed; }
  }

  /** The lookup of mc_lock_fd_transaction. */
  method Lock(locks: LockTable.ConnectionLocks, fd: int, initOk: bool) returns (mutex: Option<nat>)
    requires locks.Sized() && LockTable.Valid(locks.View())
    modifies locks.slots
    ensures locks.Sized() && LockTable.Valid(locks.View()) && LockTable.Extends(old(locks.View()), locks.View())
    ensures mutex.Some? <==> old(GetsMutex(locks.View(), fd, initOk))
    ensures mutex.Some? ==> LockTable.Find(locks.View(), fd) == mutex
  {
    ghost var before := locks.View();
    mutex := locks.GetOrCreateFdMutex(fd, initOk);
    LockTable.LookupContract(before, fd, initOk, locks.View(), mutex);
  }
}
