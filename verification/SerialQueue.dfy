/** The bounded output queue between the frontend and the serial port. */
module SerialQueue {
  import opened Bytes
  import opened Adapter

  const MAX_BACKLOG: nat := 65536

  /** What one attempt to write to the port comes to. */
  datatype Attempt = Accepts(count: nat) | WouldBlock | Interrupted | Fails

  datatype Sent = Sent(count: nat, failed: bool)

  /** How much of the queue a series of attempts sends, and whether it ends in an error. */
  function Sending(queue: seq<byte>, attempts: seq<Attempt>): (r: Sent)
    ensures r.count <= |queue|
    decreases |attempts|
  {
    if queue == [] || attempts == [] then Sent(0, false)
    else
      match attempts[0]
      case Accepts(count) =>
        var n := if count < |queue| then count else |queue|;
        if n == 0 then Sent(0, false)
        else
          var more := Sending(queue[n..], attempts[1..]);
          Sent(n + more.count, more.failed)
      case Interrupted => Sending(queue, attempts[1..])
      case WouldBlock => Sent(0, false)
      case Fails => Sent(0, true)
  }

  /** An attempt after which writing goes on: an interruption, or some bytes accepted. */
  predicate GoesOn(a: Attempt) {
    a.Interrupted? || (a.Accepts? && a.count > 0)
  }

  /** Attempt `k` is the first after which writing does not go on. */
  ghost predicate StopsAt(attempts: seq<Attempt>, k: nat) {
    && k <= |attempts| && (forall i | 0 <= i < k :: GoesOn(attempts[i]))
    && (k < |attempts| ==> !GoesOn(attempts[k]))
  }

  /** Bytes the first `k` attempts would accept. */
  function Capacity(attempts: seq<Attempt>, k: nat): nat
    requires k <= |attempts|
  {
    if k == 0 then 0
    else Capacity(attempts, k - 1) + if attempts[k - 1].Accepts? then attempts[k - 1].count else 0
  }

  lemma {:induction false} CapacityFirst(attempts: seq<Attempt>, k: nat)
    requires 0 < k <= |attempts|
    ensures Capacity(attempts, k) == Capacity(attempts[..1], 1) + Capacity(attempts[1..], k - 1)
    decreases k
  {
    if k > 1 { CapacityFirst(attempts, k - 1); }
  }

  /**
    * As much is sent as the attempts up to the first that stops accept, and no more than is queued;
    * it is a failure if and only if that attempt comes while something is queued and is an error.
    * A full port, or one that accepts nothing, is none.
    */
  lemma {:induction false} SendingExactly(queue: seq<byte>, attempts: seq<Attempt>, k: nat)
    requires StopsAt(attempts, k)
    ensures var capacity := Capacity(attempts, k);
            && Sending(queue, attempts).count == (if capacity < |queue| then capacity else |queue|)
            && (Sending(queue, attempts).failed <==>
                capacity < |queue| && k < |attempts| && attempts[k].Fails?)
    decreases |attempts|
  {
    if queue != [] && k > 0 {
      var a, rest := attempts[0], attempts[1..];
      assert GoesOn(a);
      CapacityFirst(attempts, k);
      assert StopsAt(rest, k - 1) by {
        assert forall i | 0 <= i < k - 1 :: rest[i] == attempts[i + 1];
      }
      assert Capacity(attempts[..1], 1) == if a.Accepts? then a.count else 0;
      var n := if a.Interrupted? then 0 else if a.count < |queue| then a.count else |queue|;
      SendingExactly(queue[n..], rest, k - 1);
      assert queue[0..] == queue;
    }
  }

  function WithoutInterruptions(attempts: seq<Attempt>): seq<Attempt> {
    if attempts == [] then []
    else (if attempts[0].Interrupted? then [] else [attempts[0]]) + WithoutInterruptions(attempts[1..])
  }

  /** Interruptions change nothing. */
  lemma {:induction false} InterruptionsDoNotMatter(queue: seq<byte>, attempts: seq<Attempt>)
    ensures Sending(queue, WithoutInterruptions(attempts)) == Sending(queue, attempts)
    decreases |attempts|
  {
    if attempts != [] {
      var a, rest := attempts[0], WithoutInterruptions(attempts[1..]);
      if a.Interrupted? {
        assert [] + rest == rest;
        InterruptionsDoNotMatter(queue, attempts[1..]);
      } else {
        assert ([a] + rest)[1..] == rest;
        if queue != [] && a.Accepts? {
          InterruptionsDoNotMatter(queue[if a.count < |queue| then a.count else |queue|..], attempts[1..]);
        }
      }
    }
  }

  /** A port that accepts something every time empties the queue. */
  lemma {:induction false} SendingEmpties(queue: seq<byte>, attempts: seq<Attempt>)
    requires |attempts| >= |queue|
    requires forall a | a in attempts :: a.Accepts? && a.count > 0
    ensures Sending(queue, attempts) == Sent(|queue|, false)
    decreases |attempts|
  {
    if queue != [] {
      assert attempts[0] in attempts;
      var count := attempts[0].count;
      SendingEmpties(queue[if count < |queue| then count else |queue|..], attempts[1..]);
    }
  }

  class Queue {
    var output: seq<byte>
    // Messages accepted and bytes written, from the beginning.
    ghost var accepted: seq<seq<byte>>
    ghost var written: seq<byte>

    /** Nothing accepted is lost, doubled or reordered, and the backlog is bounded. */
    ghost predicate Valid()
      reads this
    {
      written + output == Concat(accepted) && |output| <= MAX_BACKLOG
    }

    constructor ()
      ensures Valid() && accepted == [] && written == []
    {
      output, accepted, written := [], [], [];
    }

    method QueueSerial(bytes: seq<byte>) returns (ok: bool)
      requires Valid()
      modifies this
      ensures Valid()
      ensures ok <==> |old(output)| + |bytes| <= 65536
      ensures output == if ok then old(output) + bytes else old(output)
      ensures accepted == if ok then old(accepted) + [bytes] else old(accepted)
      ensures written == old(written)
    {
      if |output| + |bytes| > MAX_BACKLOG {
        return false;
      }
      ConcatAppend(accepted, bytes);
      assert written + (output + bytes) == (written + output) + bytes;
      output := output + bytes;
      accepted := accepted + [bytes];
      return true;
    }

    /** Any partial writes, in any order with interruptions, keep the order of the bytes. */
    method FlushSerial(attempts: seq<Attempt>) returns (failed: bool)
      requires Valid()
      modifies this
      ensures Valid() && accepted == old(accepted)
      ensures failed == Sending(old(output), attempts).failed
      ensures forall k: nat | StopsAt(attempts, k) :: failed <==>
                Capacity(attempts, k) < |old(output)| && k < |attempts| && attempts[k].Fails?
      ensures forall k: nat | StopsAt(attempts, k) :: |output| ==
                if Capacity(attempts, k) < |old(output)| then |old(output)| - Capacity(attempts, k) else 0
      ensures var n := Sending(old(output), attempts).count;
              written == old(written) + old(output)[..n] && output == old(output)[n..]
    {
      failed := false;
      var next := 0;
      ghost var sent := 0;
      while output != [] && next < |attempts|
        invariant next <= |attempts| && sent <= |old(output)|
        invariant accepted == old(accepted)
        invariant written == old(written) + old(output)[..sent] && output == old(output)[sent..]
        invariant var more := Sending(output, attempts[next..]);
                  Sending(old(output), attempts) == Sent(sent + more.count, more.failed)
      {
        var attempt := attempts[next];
        assert attempts[next..][1..] == attempts[next + 1..];
        next := next + 1;
        match attempt {
          case Accepts(asked) =>
            var count := if asked < |output| then asked else |output|;
            if count == 0 {
              break;
            }
            SentMore(old(written), old(output), sent, count);
            written := written + output[..count];
            output := output[count..];
            sent := sent + count;
          case Interrupted =>
          case WouldBlock =>
            break;
          case Fails =>
            failed := true;
            break;
        }
      }
      SentAndLeft(old(written), old(output), sent);
      forall k: nat | StopsAt(attempts, k)
        ensures failed <==> Capacity(attempts, k) < |old(output)| && k < |attempts| && attempts[k].Fails?
        ensures |output| ==
                if Capacity(attempts, k) < |old(output)| then |old(output)| - Capacity(attempts, k) else 0
      {
        SendingExactly(old(output), attempts, k);
      }
    }
  }

  lemma {:induction false} SentMore(written: seq<byte>, queue: seq<byte>, sent: nat, count: nat)
    requires sent <= |queue| && count <= |queue| - sent
    ensures queue[sent..][count..] == queue[sent + count..]
    ensures written + queue[..sent] + queue[sent..][..count] == written + queue[..sent + count]
  {
    assert queue[..sent] + queue[sent..][..count] == queue[..sent + count];
  }

  lemma {:induction false} SentAndLeft(written: seq<byte>, queue: seq<byte>, sent: nat)
    requires sent <= |queue|
    ensures written + queue[..sent] + queue[sent..] == written + queue
  {
    assert queue[..sent] + queue[sent..] == queue;
  }

  lemma {:induction false} ConcatAppend(messages: seq<seq<byte>>, last: seq<byte>)
    ensures Concat(messages + [last]) == Concat(messages) + last
  {
    if messages == [] {
      assert messages + [last] == [last] && [last][1..] == [];
    } else {
      assert (messages + [last])[1..] == messages[1..] + [last];
      ConcatAppend(messages[1..], last);
    }
  }

  /** What the queue has written is decoded as a beginning of what it accepted, all of it when empty. */
  lemma {:induction false} QueueToAdapter(queue: Queue, items: seq<Item>)
    requires queue.Valid() && Sendable(items) && queue.accepted == Messages(items)
    ensures Drain(queue.written).frames <= Deliveries(items)
    ensures |Drain(queue.written).frames| <= |items|
    ensures forall i | 0 <= i < |Drain(queue.written).frames| :: Shows(Drain(queue.written).frames[i], items[i])
    ensures queue.output == [] ==> |Drain(queue.written).frames| == |items|
  {
    EndToEnd(items, queue.written, queue.output);
  }
}
