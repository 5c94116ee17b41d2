/** The partial-write loop of socket.c and the two retry loops around it, over any behaviour of send(). */
module Sending {
  import opened Bytes

  /** What one call of send() does: take more + 1 bytes (or all that is left), be interrupted, or fail. */
  datatype SendResult = Accepts(more: nat) | Interrupted | Fails

  const MAX_RETRY_TIMES: nat := 3

  /** One mc_write_msg of a message with left bytes to go; sent counts the bytes that reached the wire. */
  datatype Write = Write(ok: bool, sent: nat, rest: seq<SendResult>)

  /** A script that has run out stands for a peer that is gone. */
  function WriteOnce(script: seq<SendResult>, left: nat): (w: Write)
    ensures w.sent <= left
    ensures w.ok <==> w.sent == left
    decreases |script|
  {
    if left == 0 then Write(true, 0, script)
    else if |script| == 0 || script[0].Fails? then Write(false, 0, script[if |script| == 0 then 0 else 1..])
    else if script[0].Interrupted? then WriteOnce(script[1..], left)
    else
      var n := if script[0].more + 1 <= left then script[0].more + 1 else left;
      var w := WriteOnce(script[1..], left - n);
      w.(sent := n + w.sent)
  }

  /** mc_write_msg of n bytes, which refuses an empty message before it touches the socket. */
  function WriteOutcome(script: seq<SendResult>, n: nat): (w: Write)
    ensures w.sent <= n && (w.ok <==> n > 0 && w.sent == n)
  {
    if n == 0 then Write(false, 0, script) else WriteOnce(script, n)
  }

  /** Up to k calls of mc_write_msg, stopping at the first that succeeds; partial lists what the failed ones sent. */
  datatype Attempts = Attempts(ok: bool, partial: seq<nat>, rest: seq<SendResult>)

  function Try(script: seq<SendResult>, n: nat, k: nat): (a: Attempts)
    ensures |a.partial| <= k
    ensures !a.ok ==> |a.partial| == k
    ensures a.ok ==> |a.partial| < k
    decreases k
  {
    if k == 0 then Attempts(false, [], script)
    else
      var w := WriteOutcome(script, n);
      if w.ok then Attempts(true, [], w.rest)
      else
        var a := Try(w.rest, n, k - 1);
        a.(partial := [w.sent] + a.partial)
  }

  /** Each failed call leaves a proper prefix only; an empty message is never sent. */
  lemma {:induction false} OnlyProperPrefixes(script: seq<SendResult>, n: nat, k: nat)
    ensures forall i | 0 <= i < |Try(script, n, k).partial| ::
              Try(script, n, k).partial[i] < n || n == Try(script, n, k).partial[i] == 0
    ensures n == 0 ==> !Try(script, n, k).ok
    decreases k
  {
    if k > 0 && !WriteOutcome(script, n).ok { OnlyProperPrefixes(WriteOutcome(script, n).rest, n, k - 1); }
  }

  /** The prefixes of msg that the failed calls left on the wire, one after the other. */
  function Prefixes(msg: seq<Byte>, partial: seq<nat>): seq<Byte>
  {
    if |partial| == 0 then []
    else (if partial[0] <= |msg| then msg[..partial[0]] else msg) + Prefixes(msg, partial[1..])
  }

  /** Everything the peer receives. */
  function OnWire(msg: seq<Byte>, a: Attempts): seq<Byte>
  {
    Prefixes(msg, a.partial) + if a.ok then msg else []
  }

  /** Failing j times and then trying k more is trying j + k times. */
  lemma {:induction false} TryMore(script: seq<SendResult>, n: nat, j: nat, k: nat)
    requires !Try(script, n, j).ok
    ensures var first, more := Try(script, n, j), Try(Try(script, n, j).rest, n, k);
            Try(script, n, j + k) == more.(partial := first.partial + more.partial)
    decreases j
  {
    if j > 0 {
      var w := WriteOutcome(script, n);
      TryMore(w.rest, n, j - 1, k);
      var more := Try(Try(script, n, j).rest, n, k);
      assert [w.sent] + (Try(w.rest, n, j - 1).partial + more.partial) == Try(script, n, j).partial + more.partial;
    } else {
      var more := Try(script, n, k);
      assert [] + more.partial == more.partial;
    }
  }

  lemma {:induction false} SuccessIsStable(script: seq<SendResult>, n: nat, j: nat, k: nat)
    requires Try(script, n, j).ok && j <= k
    ensures Try(script, n, k) == Try(script, n, j)
    decreases j
  {
    var w := WriteOutcome(script, n);
    if !w.ok { SuccessIsStable(w.rest, n, j - 1, k - 1); }
  }

  lemma {:induction false} PrefixesConcat(msg: seq<Byte>, p: seq<nat>, q: seq<nat>)
    ensures Prefixes(msg, p + q) == Prefixes(msg, p) + Prefixes(msg, q)
  {
    if |p| == 0 {
      assert p + q == q;
    } else {
      assert (p + q)[1..] == p[1..] + q && (p + q)[0] == p[0];
      PrefixesConcat(msg, p[1..], q);
    }
  }

  /** After j failures, what k more calls add to the wire. */
  lemma WireGrows(script: seq<SendResult>, msg: seq<Byte>, wire: seq<Byte>, j: nat, k: nat, first: Attempts,
                  more: Attempts, all: Attempts)
    requires first == Try(script, |msg|, j) && !first.ok
    requires more == Try(first.rest, |msg|, k) && all == Try(script, |msg|, j + k)
    ensures all == more.(partial := first.partial + more.partial)
    ensures wire + OnWire(msg, all) == (wire + Prefixes(msg, first.partial)) + OnWire(msg, more)
    ensures !all.ok ==> OnWire(msg, all) == Prefixes(msg, all.partial)
  {
    TryMore(script, |msg|, j, k);
    PrefixesConcat(msg, first.partial, more.partial);
  }

  /** One call is one try. */
  lemma OneMoreWrite(script: seq<SendResult>, msg: seq<Byte>, wire: seq<Byte>, j: nat, first: Attempts, w: Write,
                     all: Attempts)
    requires first == Try(script, |msg|, j) && !first.ok
    requires w == WriteOutcome(first.rest, |msg|) && all == Try(script, |msg|, j + 1)
    ensures all.ok == w.ok && all.rest == w.rest && |all.partial| == |first.partial| + (if w.ok then 0 else 1)
    ensures wire + OnWire(msg, all) == (wire + Prefixes(msg, first.partial)) + msg[..w.sent]
    ensures !all.ok ==> OnWire(msg, all) == Prefixes(msg, all.partial)
  {
    var one := OneTry(first.rest, msg);
    WireGrows(script, msg, wire, j, 1, first, one, all);
  }

  lemma OneTry(script: seq<SendResult>, msg: seq<Byte>) returns (one: Attempts)
    ensures var w := WriteOutcome(script, |msg|);
            one == Try(script, |msg|, 1) && one == Attempts(w.ok, if w.ok then [] else [w.sent], w.rest)
              && OnWire(msg, one) == msg[..w.sent]
  {
    var w := WriteOutcome(script, |msg|);
    one := Try(script, |msg|, 1);
    assert Try(w.rest, |msg|, 0) == Attempts(false, [], w.rest);
    if !w.ok { assert Prefixes(msg, [w.sent]) == msg[..w.sent] + Prefixes(msg, []); }
  }

  /** The number of mc_write_msg calls a retry count allows. */
  function Budget(retryCount: int): nat { if retryCount < 0 then 0 else MAX_RETRY_TIMES * (retryCount + 1) }

  /** How often mc_write_msg was called, and how often the loop slept between attempts. */
  function Calls(a: Attempts): nat { |a.partial| + if a.ok then 1 else 0 }

  function Sleeps(a: Attempts, retryCount: int): nat
  {
    if retryCount < 0 then 0 else if a.ok then |a.partial| / MAX_RETRY_TIMES else retryCount
  }

  /**
   * The whole send loop, for every behaviour of send(): it succeeds with proper prefixes of the message on the
   * wire followed by the message itself, or fails with proper prefixes only after using up its budget exactly.
   */
  lemma RetryContract(script: seq<SendResult>, msg: seq<Byte>, retryCount: int)
    ensures var a := Try(script, |msg|, Budget(retryCount));
            && (forall i | 0 <= i < |a.partial| :: a.partial[i] < |msg| || |msg| == a.partial[i] == 0)
            && (|msg| == 0 ==> !a.ok)
            && OnWire(msg, a) == Prefixes(msg, a.partial) + (if a.ok then msg else [])
            && Calls(a) <= Budget(retryCount) && (!a.ok ==> Calls(a) == Budget(retryCount))
            && (retryCount >= 0 ==> Sleeps(a, retryCount) <= retryCount)
            && (retryCount < 0 ==> !a.ok && OnWire(msg, a) == [])
  {
    OnlyProperPrefixes(script, |msg|, Budget(retryCount));
  }

  /** Three writes to an attempt, and one sleep between an attempt that failed and the next. */
  lemma ThreeToAnAttempt(script: seq<SendResult>, n: nat, retryCount: int)
    ensures Budget(retryCount) == if retryCount < 0 then 0 else 3 * (retryCount + 1)
    ensures var a := Try(script, n, Budget(retryCount));
            var sleeps := Sleeps(a, retryCount);
            if a.ok then 3 * sleeps < Calls(a) <= 3 * (sleeps + 1)
            else sleeps == if retryCount < 0 then 0 else retryCount
  {
  }

  /** One attempt of the outer loop: three more tries, and the last ones needed if they succeed. */
  lemma OneMoreAttempt(script: seq<SendResult>, msg: seq<Byte>, wire: seq<Byte>, i: nat, retryCount: int,
            first: Attempts, more: Attempts, all: Attempts)
    requires i <= retryCount && first == Try(script, |msg|, MAX_RETRY_TIMES * i) && !first.ok
    requires more == Try(first.rest, |msg|, MAX_RETRY_TIMES) && all == Try(script, |msg|, MAX_RETRY_TIMES * (i + 1))
    ensures all == more.(partial := first.partial + more.partial)
    ensures wire + OnWire(msg, all) == (wire + Prefixes(msg, first.partial)) + OnWire(msg, more)
    ensures !all.ok ==> OnWire(msg, all) == Prefixes(msg, all.partial)
    ensures all.ok ==> all == Try(script, |msg|, Budget(retryCount)) && Sleeps(all, retryCount) == i
  {
    WireGrows(script, msg, wire, MAX_RETRY_TIMES * i, MAX_RETRY_TIMES, first, more, all);
    if all.ok {
      SuccessIsStable(script, |msg|, MAX_RETRY_TIMES * (i + 1), Budget(retryCount));
      assert MAX_RETRY_TIMES * i <= |all.partial| < MAX_RETRY_TIMES * i + MAX_RETRY_TIMES;
    }
  }

  /** A connected socket: what send() will do, what the peer has received, and what the client has spent. */
  class Socket {
    var script: seq<SendResult>
    var wire: seq<Byte>
    var writes: nat
    var sleeps: nat

    constructor (script: seq<SendResult>)
      ensures this.script == script && wire == [] && writes == 0 && sleeps == 0
    {
      this.script, wire, writes, sleeps := script, [], 0, 0;
    }

    /** send(): a positive count, or -1 with interrupted telling EINTR from other errors. */
    method Send(buf: array<Byte>, from: nat, count: nat) returns (nwritten: int, interrupted: bool)
      requires from + count <= buf.Length && count > 0
      modifies this`script, this`wire
      ensures old(|script|) == 0 ==> nwritten == -1 && !interrupted && script == [] && wire == old(wire)
      ensures old(|script|) > 0 ==> script == old(script[1..])
      ensures old(|script|) > 0 ==>
                match old(script[0])
                case Accepts(more) => nwritten == (if more + 1 <= count then more + 1 else count)
                  && wire == old(wire) + buf[from..from + nwritten]
                case Interrupted => nwritten == -1 && interrupted && wire == old(wire)
                case Fails => nwritten == -1 && !interrupted && wire == old(wire)
    {
      if |script| == 0 { return -1, false; }
      var result := script[0];
      script := script[1..];
      match result {
        case Accepts(more) =>
          nwritten := if more + 1 <= count then more + 1 else count;
          interrupted := false;
          wire := wire + buf[from..from + nwritten];
        case Interrupted => nwritten, interrupted := -1, true;
        case Fails => nwritten, interrupted := -1, false;
      }
    }

    /** mc_write_msg on a valid descriptor. */
    method WriteMsg(buf: array<Byte>) returns (r: int)
      modifies this`script, this`wire, this`writes
      ensures var w := WriteOutcome(old(script), buf.Length);
              r == (if w.ok then buf.Length else -1) && script == w.rest && wire == old(wire) + buf[..][..w.sent]
      ensures writes == old(writes) + 1
    {
      writes := writes + 1;
      if buf.Length <= 0 {
        assert wire == old(wire) + buf[..][..0];
        return -1;
      }
      var nleft, ptr := buf.Length, 0;
      while nleft > 0
        invariant 0 <= nleft <= buf.Length && ptr == buf.Length - nleft
        invariant wire == old(wire) + buf[..ptr] && writes == old(writes) + 1
        invariant var w, now := WriteOnce(old(script), buf.Length), WriteOnce(script, nleft);
                  w == now.(sent := ptr + now.sent)
        decreases nleft, |script|
      {
        assert buf[..][..ptr] == buf[..ptr];
        var nwritten, interrupted := Send(buf, ptr, nleft);
        if nwritten <= 0 {
          if !interrupted { return -1; }
        } else {
          assert buf[..ptr] + buf[ptr..ptr + nwritten] == buf[..ptr + nwritten];
          nleft := nleft - nwritten;
          ptr := ptr + nwritten;
        }
      }
      return buf.Length - nleft;
    }

    /** mc_try_send_msg. */
    method TrySendMsg(msg: array<Byte>) returns (ok: bool)
      modifies this`script, this`wire, this`writes
      ensures var a := Try(old(script), msg.Length, MAX_RETRY_TIMES);
              ok == a.ok && script == a.rest && wire == old(wire) + OnWire(msg[..], a)
              && writes == old(writes) + Calls(a)
      ensures writes <= old(writes) + 3 && (!ok ==> writes == old(writes) + 3)
    {
      var retryTimes := 0;
      ghost var a, m := Try(script, msg.Length, 0), msg[..];
      while retryTimes < MAX_RETRY_TIMES
        invariant 0 <= retryTimes <= MAX_RETRY_TIMES
        invariant a == Try(old(script), msg.Length, retryTimes) && !a.ok && script == a.rest
        invariant wire == old(wire) + Prefixes(m, a.partial) && writes == old(writes) + retryTimes
      {
        ghost var all := Try(old(script), msg.Length, retryTimes + 1);
        OneMoreWrite(old(script), m, old(wire), retryTimes, a, WriteOutcome(script, |m|), all);
        var realSends := WriteMsg(msg);
        a := all;
        if realSends == msg.Length {
          SuccessIsStable(old(script), msg.Length, retryTimes + 1, MAX_RETRY_TIMES);
          break;
        }
        retryTimes := retryTimes + 1;
      }
      return retryTimes < MAX_RETRY_TIMES;
    }

    /** The send loop of mc_send_and_receive_transaction: both nested loops together are one bounded retry. */
    method SendWithRetry(msg: array<Byte>, retryCount: int) returns (ok: bool)
      modifies this
      ensures var a := Try(old(script), msg.Length, Budget(retryCount));
              && ok == a.ok && script == a.rest
              && wire == old(wire) + OnWire(msg[..], a)
              && writes == old(writes) + Calls(a)
              && sleeps == old(sleeps) + Sleeps(a, retryCount)
    {
      ok := false;
      var i := 0;
      ghost var a, m := Try(script, msg.Length, 0), msg[..];
      while i <= retryCount
        invariant 0 <= i && (i <= retryCount + 1 || retryCount < 0) && !ok
        invariant retryCount < 0 ==> i == 0
        invariant a == Try(old(script), msg.Length, MAX_RETRY_TIMES * i) && !a.ok && script == a.rest
        invariant wire == old(wire) + Prefixes(m, a.partial) && writes == old(writes) + |a.partial|
        invariant sleeps == old(sleeps) + (if retryCount >= 0 && i == retryCount + 1 then retryCount else i)
      {
        ghost var all := Try(old(script), msg.Length, MAX_RETRY_TIMES * (i + 1));
        OneMoreAttempt(old(script), m, old(wire), i, retryCount, a, Try(script, |m|, MAX_RETRY_TIMES), all);
        ok := TrySendMsg(msg);
        a := all;
        if ok { return; }
        if i < retryCount { sleeps := sleeps + 1; }
        i := i + 1;
      }
    }
  }
}
