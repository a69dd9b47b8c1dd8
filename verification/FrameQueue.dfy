// The bounded multi-priority frame queue of aicwf_txrxif.c. It is proved to be
// one sequence in order of service: dequeue takes its head, enqueue inserts
// behind everything of the same or a higher priority, and on a full queue the
// last element gives way to a more important frame.

module FrameQueue {
  import opened Common

  const MAX_PRIO := 8

  type Frame(==, !new) = nat                      // the identity of an skb

  /** The order of service: the highest priority first, each queue from its oldest frame on. */
  function Order(qs: seq<seq<Frame>>): seq<Frame> {
    if qs == [] then [] else Order(qs[1..]) + qs[0]
  }

  /** The lowest non-empty priority from k on, or -1. */
  function Lowest(qs: seq<seq<Frame>>, k: nat): (p: int)
    requires k <= |qs|
    ensures -1 <= p < |qs|
    ensures p >= 0 ==> k <= p && qs[p] != [] && forall j :: k <= j < p ==> qs[j] == []
    ensures p < 0 ==> forall j :: k <= j < |qs| ==> qs[j] == []
    decreases |qs| - k
  {
    if k == |qs| then -1 else if qs[k] != [] then k else Lowest(qs, k + 1)
  }

  /** The highest non-empty priority below k, or 0. */
  function Highest(qs: seq<seq<Frame>>, k: nat): (p: nat)
    requires k <= |qs| && qs != []
    ensures p < |qs| && forall j :: p < j < k ==> qs[j] == []
    ensures p > 0 ==> p < k && qs[p] != []
  {
    if k <= 1 then 0 else if qs[k - 1] != [] then k - 1 else Highest(qs, k - 1)
  }

  datatype Enqueued = Enqueued(ok: bool, qs: seq<seq<Frame>>, evicted: Option<Frame>)

  /** aicwf_frame_enq */
  function Enqueue(qs: seq<seq<Frame>>, qmax: nat, prio: nat, f: Frame): (r: Enqueued)
    requires prio < |qs|
    ensures |r.qs| == |qs|
  {
    if |Order(qs)| < qmax then Enqueued(true, qs[prio := qs[prio] + [f]], None)
    else
      var low := Lowest(qs, 0);
      if low < 0 || low >= prio then Enqueued(false, qs, None)
      else
        var q := qs[low];
        Enqueued(true, qs[low := q[..|q| - 1] + [f]], Some(q[|q| - 1]))
  }

  datatype Dequeued = Dequeued(frame: Option<Frame>, qs: seq<seq<Frame>>)

  /** aicwf_frame_dequeue */
  function Dequeue(qs: seq<seq<Frame>>): (r: Dequeued)
    requires qs != []
    ensures |r.qs| == |qs|
  {
    var p := Highest(qs, |qs|);
    if qs[p] == [] then Dequeued(None, qs) else Dequeued(Some(qs[p][0]), qs[p := qs[p][1..]])
  }

  // ----- One sequence ------------------------------------------------------------------

  lemma {:induction false} OrderSplit(a: seq<seq<Frame>>, b: seq<seq<Frame>>)
    ensures Order(a + b) == Order(b) + Order(a)
  {
    if a == [] {
      assert a + b == b;
    } else {
      assert (a + b)[1..] == a[1..] + b;
      OrderSplit(a[1..], b);
    }
  }

  /** The order around one priority. */
  lemma OrderAt(qs: seq<seq<Frame>>, p: nat, q: seq<Frame>)
    requires p < |qs|
    ensures Order(qs[p := q]) == Order(qs[p + 1..]) + q + Order(qs[..p])
  {
    var rest := qs[p := q][p..];
    assert qs[p := q] == qs[..p] + rest;
    assert rest == [q] + qs[p + 1..];
    OrderSplit(qs[..p], rest);
    assert rest[1..] == qs[p + 1..];
  }

  lemma {:induction false} OrderEmpty(qs: seq<seq<Frame>>)
    requires forall j :: 0 <= j < |qs| ==> qs[j] == []
    ensures Order(qs) == []
  {
    if qs != [] {
      OrderEmpty(qs[1..]);
    }
  }

  /** Nothing is returned only when there is nothing, and otherwise the head of the order. */
  lemma DequeueTakesHead(qs: seq<seq<Frame>>)
    requires qs != []
    ensures var r := Dequeue(qs);
            if Order(qs) == [] then r == Dequeued(None, qs)
            else r.frame == Some(Order(qs)[0]) && Order(r.qs) == Order(qs)[1..]
  {
    var p := Highest(qs, |qs|);
    OrderAt(qs, p, qs[p]);
    assert qs[p := qs[p]] == qs;
    OrderEmpty(qs[p + 1..]);
    if qs[p] != [] {
      OrderAt(qs, p, qs[p][1..]);
    } else {
      OrderEmpty(qs);
    }
  }

  /** The priority that dequeue comes down to. */
  lemma DequeueAt(qs: seq<seq<Frame>>, p: nat)
    requires p < |qs| && (forall j :: p < j < |qs| ==> qs[j] == []) && (p > 0 ==> qs[p] != [])
    ensures Dequeue(qs) == if qs[p] == [] then Dequeued(None, qs) else Dequeued(Some(qs[p][0]), qs[p := qs[p][1..]])
  {
    assert Highest(qs, |qs|) == p;
  }

  /**
   * With room, the frame goes behind those of its own and every higher priority
   * and before all others. On a full queue nothing changes, or the last frame in
   * order of service is replaced; it had a strictly lower priority than the new
   * frame has, but that is now served in its place.
   */
  lemma EnqueueInserts(qs: seq<seq<Frame>>, qmax: nat, prio: nat, f: Frame)
    requires prio < |qs|
    ensures Order(qs) == Order(qs[prio..]) + Order(qs[..prio])
    ensures var r := Enqueue(qs, qmax, prio, f);
            var n := |Order(qs)|;
            if n < qmax then
              r.ok && r.evicted == None && Order(r.qs) == Order(qs[prio..]) + [f] + Order(qs[..prio])
            else if Order(qs[..prio]) == [] then r == Enqueued(false, qs, None)
            else r.ok && r.evicted == Some(Order(qs)[n - 1]) && Order(r.qs) == Order(qs)[..n - 1] + [f]
  {
    OrderSplit(qs[..prio], qs[prio..]);
    assert qs == qs[..prio] + qs[prio..];
    var low := Lowest(qs, 0);
    if |Order(qs)| < qmax {
      OrderAt(qs, prio, qs[prio] + [f]);
      assert qs[prio..][1..] == qs[prio + 1..];
    } else if low < 0 || low >= prio {
      OrderEmpty(qs[..prio]);
    } else {
      LowIsLast(qs, low, f);
      LowBelow(qs, prio, low);
    }
  }

  lemma LowIsLast(qs: seq<seq<Frame>>, low: nat, f: Frame)
    requires low < |qs| && qs[low] != [] && forall j :: 0 <= j < low ==> qs[j] == []
    ensures var q, n := qs[low], |Order(qs)|;
            && n > 0 && q[|q| - 1] == Order(qs)[n - 1]
            && Order(qs[low := q[..|q| - 1] + [f]]) == Order(qs)[..n - 1] + [f]
  {
    OrderAt(qs, low, qs[low]);
    assert qs[low := qs[low]] == qs;
    OrderAt(qs, low, qs[low][..|qs[low]| - 1] + [f]);
    OrderEmpty(qs[..low]);
    hide Order;
    LastReplaced(Order(qs[low + 1..]), qs[low], f);
  }

  lemma LastReplaced(a: seq<Frame>, q: seq<Frame>, f: Frame)
    requires q != []
    ensures (a + q + [])[|a| + |q| - 1] == q[|q| - 1]
    ensures (a + q + [])[..|a| + |q| - 1] + [f] == a + (q[..|q| - 1] + [f]) + []
  {
  }

  lemma LowBelow(qs: seq<seq<Frame>>, prio: nat, low: nat)
    requires low < prio <= |qs| && qs[low] != []
    ensures Order(qs[..prio]) != []
  {
    OrderAt(qs[..prio], low, qs[low]);
    assert qs[..prio][low := qs[low]] == qs[..prio];
  }

  // ----- Runs ----------------------------------------------------------------------------

  datatype Op = Enq(prio: nat, frame: Frame) | Deq | Flush

  /** How often one frame was enqueued, and how often it was refused, evicted, served or flushed. */
  datatype Ledger = Ledger(frame: Frame, offered: nat, refused: nat, evicted: nat, served: nat, flushed: nat)

  function Is(o: Option<Frame>, f: Frame): nat { if o == Some(f) then 1 else 0 }

  function Count(s: seq<Frame>, w: Frame): nat {
    if s == [] then 0 else Is(Some(s[0]), w) + Count(s[1..], w)
  }

  ghost function Step(qs: seq<seq<Frame>>, qmax: nat, l: Ledger, op: Op): (seq<seq<Frame>>, Ledger)
    requires qs != [] && (op.Enq? ==> op.prio < |qs|)
  {
    match op
    case Enq(prio, f) =>
      var r := Enqueue(qs, qmax, prio, f);
      (r.qs, l.(offered := l.offered + Is(Some(f), l.frame),
                refused := l.refused + (if r.ok then 0 else Is(Some(f), l.frame)),
                evicted := l.evicted + Is(r.evicted, l.frame)))
    case Deq =>
      var r := Dequeue(qs);
      (r.qs, l.(served := l.served + Is(r.frame, l.frame)))
    case Flush => (seq(|qs|, _ => []), l.(flushed := l.flushed + Count(Order(qs), l.frame)))
  }

  ghost predicate Conserved(qs: seq<seq<Frame>>, l: Ledger) {
    l.offered == l.refused + l.evicted + l.served + l.flushed + Count(Order(qs), l.frame)
  }

  lemma {:induction false} CountConcat(a: seq<Frame>, b: seq<Frame>, w: Frame)
    ensures Count(a + b, w) == Count(a, w) + Count(b, w)
  {
    if a == [] {
      assert a + b == b;
    } else {
      assert (a + b)[1..] == a[1..] + b;
      CountConcat(a[1..], b, w);
    }
  }

  lemma CountOne(f: Frame, w: Frame)
    ensures Count([f], w) == Is(Some(f), w)
  {
  }

  lemma Inserted(a: seq<Frame>, b: seq<Frame>, f: Frame, w: Frame)
    ensures Count(a + [f] + b, w) == Count(a + b, w) + Is(Some(f), w)
  {
    CountConcat(a + [f], b, w);
    CountConcat(a, [f], w);
    CountConcat(a, b, w);
    CountOne(f, w);
    hide Count;
  }

  lemma Replaced(s: seq<Frame>, f: Frame, w: Frame)
    requires s != []
    ensures Count(s[..|s| - 1] + [f], w) + Is(Some(s[|s| - 1]), w) == Count(s, w) + Is(Some(f), w)
  {
    var init, last := s[..|s| - 1], s[|s| - 1];
    assert s == init + [last];
    CountConcat(init, [last], w);
    CountConcat(init, [f], w);
    CountOne(last, w);
    CountOne(f, w);
    hide Count;
  }

  lemma NothingIs(w: Frame)
    ensures Is(None, w) == 0
  {
  }

  lemma EnqConserves(qs: seq<seq<Frame>>, qmax: nat, prio: nat, f: Frame, w: Frame)
    requires prio < |qs|
    ensures var r := Enqueue(qs, qmax, prio, f);
            Count(Order(r.qs), w) + Is(r.evicted, w) + (if r.ok then 0 else Is(Some(f), w))
            == Count(Order(qs), w) + Is(Some(f), w)
  {
    EnqueueInserts(qs, qmax, prio, f);
    NothingIs(w);
    hide Enqueue, Order, Is, Count;
    if |Order(qs)| < qmax {
      Inserted(Order(qs[prio..]), Order(qs[..prio]), f, w);
    } else if Order(qs[..prio]) != [] {
      Replaced(Order(qs), f, w);
    }
  }

  lemma DeqConserves(qs: seq<seq<Frame>>, w: Frame)
    requires qs != []
    ensures Count(Order(Dequeue(qs).qs), w) + Is(Dequeue(qs).frame, w) == Count(Order(qs), w)
  {
    DequeueTakesHead(qs);
    NothingIs(w);
    hide Dequeue, Order;
  }

  /** No operation loses a frame or serves it twice. */
  lemma StepConserves(qs: seq<seq<Frame>>, qmax: nat, l: Ledger, op: Op)
    requires qs != [] && (op.Enq? ==> op.prio < |qs|) && Conserved(qs, l)
    ensures Conserved(Step(qs, qmax, l, op).0, Step(qs, qmax, l, op).1)
  {
    match op
    case Enq(prio, f) => EnqConserves(qs, qmax, prio, f, l.frame);
    case Deq => DeqConserves(qs, l.frame);
    case Flush => OrderEmpty(Step(qs, qmax, l, op).0);
    hide Enqueue, Dequeue, Order, Is;
  }

  /** Any run on a queue that was empty at first. */
  ghost function Run(qs: seq<seq<Frame>>, qmax: nat, l: Ledger, ops: seq<Op>): (r: (seq<seq<Frame>>, Ledger))
    requires qs != [] && Conserved(qs, l) && forall k :: 0 <= k < |ops| && ops[k].Enq? ==> ops[k].prio < |qs|
    ensures Conserved(r.0, r.1) && |r.0| == |qs|
    decreases |ops|
  {
    if ops == [] then (qs, l)
    else
      StepConserves(qs, qmax, l, ops[0]);
      var (qs', l') := Step(qs, qmax, l, ops[0]);
      Run(qs', qmax, l', ops[1..])
  }

  lemma RunBounded(qs: seq<seq<Frame>>, qmax: nat, l: Ledger, ops: seq<Op>)
    requires qs != [] && Conserved(qs, l) && forall k :: 0 <= k < |ops| && ops[k].Enq? ==> ops[k].prio < |qs|
    requires |Order(qs)| <= qmax
    ensures |Order(Run(qs, qmax, l, ops).0)| <= qmax
    decreases |ops|
  {
    if ops != [] {
      StepConserves(qs, qmax, l, ops[0]);
      StepBounded(qs, qmax, l, ops[0]);
      RunBounded(Step(qs, qmax, l, ops[0]).0, qmax, Step(qs, qmax, l, ops[0]).1, ops[1..]);
    }
    hide Step, Order, Conserved;
  }

  lemma StepBounded(qs: seq<seq<Frame>>, qmax: nat, l: Ledger, op: Op)
    requires qs != [] && (op.Enq? ==> op.prio < |qs|) && |Order(qs)| <= qmax
    ensures |Order(Step(qs, qmax, l, op).0)| <= qmax
  {
    match op
    case Enq(prio, f) => EnqueueInserts(qs, qmax, prio, f);
    case Deq => DequeueTakesHead(qs);
    case Flush => OrderEmpty(Step(qs, qmax, l, op).0);
    hide Enqueue, Dequeue, Order, Is;
  }

  lemma EmptyConserved(n: nat, w: Frame)
    ensures Order(seq(n, _ => [])) == [] && Conserved(seq(n, _ => []), Ledger(w, 0, 0, 0, 0, 0))
  {
    OrderEmpty(seq(n, _ => []));
  }

  /** A run on n empty priorities, and the ledger of one frame. */
  ghost function FromEmpty(n: nat, qmax: nat, ops: seq<Op>, w: Frame): (seq<seq<Frame>>, Ledger)
    requires n > 0 && forall k :: 0 <= k < |ops| && ops[k].Enq? ==> ops[k].prio < n
  {
    EmptyConserved(n, w);
    Run(seq(n, _ => []), qmax, Ledger(w, 0, 0, 0, 0, 0), ops)
  }

  /** Every frame is refused, evicted, served, flushed or still queued as often as it was offered, and qmax holds. */
  lemma EveryFrame(n: nat, qmax: nat, ops: seq<Op>, w: Frame)
    requires n > 0 && forall k :: 0 <= k < |ops| && ops[k].Enq? ==> ops[k].prio < n
    ensures var (qs, l) := FromEmpty(n, qmax, ops, w);
            l.offered == l.refused + l.evicted + l.served + l.flushed + Count(Order(qs), w) && |Order(qs)| <= qmax
  {
    EmptyConserved(n, w);
    RunBounded(seq(n, _ => []), qmax, Ledger(w, 0, 0, 0, 0, 0), ops);
    SameFrame(seq(n, _ => []), qmax, Ledger(w, 0, 0, 0, 0, 0), ops);
    hide Run, Order, Count;
  }

  lemma {:induction false} SameFrame(qs: seq<seq<Frame>>, qmax: nat, l: Ledger, ops: seq<Op>)
    requires qs != [] && Conserved(qs, l) && forall k :: 0 <= k < |ops| && ops[k].Enq? ==> ops[k].prio < |qs|
    ensures Run(qs, qmax, l, ops).1.frame == l.frame
    decreases |ops|
  {
    if ops != [] {
      StepConserves(qs, qmax, l, ops[0]);
      SameFrame(Step(qs, qmax, l, ops[0]).0, qmax, Step(qs, qmax, l, ops[0]).1, ops[1..]);
    }
    hide Order, Conserved, Enqueue, Dequeue;
  }

  // ----- The queue ---------------------------------------------------------------------------

  class Queue {
    const numPrio: nat
    const qmax: nat
    var hiPrio: nat
    var qcnt: nat
    const queuelist: array<seq<Frame>>

    ghost function Qs(): seq<seq<Frame>>
      requires numPrio <= queuelist.Length
      reads queuelist
    {
      queuelist[..numPrio]
    }

    /** The counter is the sum of the lengths and nothing is above hi_prio. */
    ghost predicate Counted()
      reads this, queuelist
    {
      && queuelist.Length == MAX_PRIO && 1 <= numPrio <= MAX_PRIO
      && hiPrio < numPrio && qcnt == |Order(Qs())|
      && forall p :: hiPrio < p < numPrio ==> queuelist[p] == []
    }

    ghost predicate Valid()
      reads this, queuelist
    {
      Counted() && qcnt <= qmax
    }

    /** aicwf_frame_queue_init */
    constructor (numPrio: nat, maxLen: nat)
      requires 1 <= numPrio <= MAX_PRIO
      ensures Valid() && fresh(queuelist) && this.numPrio == numPrio && qmax == maxLen
      ensures Qs() == seq(numPrio, _ => [])
    {
      var a := new seq<Frame>[MAX_PRIO](_ => []);
      this.numPrio, qmax, hiPrio, qcnt, queuelist := numPrio, maxLen, 0, 0, a;
      new;
      OrderEmpty(Qs());
    }

    /** aicwf_frame_queue_penq: without room in its own queue the frame is not taken. */
    method Penq(prio: nat, f: Frame) returns (ok: bool)
      requires Counted() && prio < numPrio
      modifies this, queuelist
      ensures Counted() && ok == (|old(queuelist[prio])| < qmax)
      ensures Qs() == if ok then old(Qs())[prio := old(queuelist[prio]) + [f]] else old(Qs())
      ensures qcnt == old(qcnt) + if ok then 1 else 0
    {
      OrderAt(Qs(), prio, queuelist[prio]);
      assert Qs()[prio := queuelist[prio]] == Qs();
      OrderAt(Qs(), prio, queuelist[prio] + [f]);
      if |queuelist[prio]| >= qmax {
        return false;
      }
      ghost var was := Qs();
      queuelist[prio] := queuelist[prio] + [f];
      assert Qs() == was[prio := queuelist[prio]];
      hide Order;
      qcnt := qcnt + 1;
      if hiPrio < prio {
        hiPrio := prio;
      }
      ok := true;
    }

    /** aicwf_frame_queue_peek_tail: the newest frame of the lowest non-empty priority. */
    method PeekTail() returns (prio: int, f: Option<Frame>)
      requires Valid()
      ensures if Order(Qs()) == [] then prio == -1 && f == None
              else prio == Lowest(Qs(), 0) >= 0 && prio <= hiPrio && f == Some(queuelist[prio][|queuelist[prio]| - 1])
    {
      if qcnt == 0 {
        return -1, None;
      }
      prio := 0;
      while prio < hiPrio
        invariant 0 <= prio <= hiPrio
        invariant forall j :: 0 <= j < prio ==> queuelist[j] == []
      {
        if queuelist[prio] != [] {
          break;
        }
        prio := prio + 1;
      }
      ghost var low := Lowest(Qs(), 0);
      if low < 0 {
        OrderEmpty(Qs());
      }
      assert low == prio;
      f := Some(queuelist[prio][|queuelist[prio]| - 1]);
    }

    /** aicwf_is_framequeue_empty */
    method IsEmpty() returns (empty: bool)
      requires Valid()
      ensures empty <==> Order(Qs()) == []
    {
      var len := 0;
      OrderSplit(Qs()[..0], Qs());
      for prio := 0 to hiPrio + 1
        invariant len == |Order(Qs()[..prio])|
      {
        OrderSplit(Qs()[..prio], [queuelist[prio]]);
        assert Qs()[..prio + 1] == Qs()[..prio] + [queuelist[prio]];
        assert Order([queuelist[prio]]) == queuelist[prio];
        len := len + |queuelist[prio]|;
      }
      OrderSplit(Qs()[..hiPrio + 1], Qs()[hiPrio + 1..]);
      assert Qs() == Qs()[..hiPrio + 1] + Qs()[hiPrio + 1..];
      OrderEmpty(Qs()[hiPrio + 1..]);
      empty := !(len > 0);
    }

    method FrameDequeue() returns (f: Option<Frame>)
      requires Valid()
      modifies this, queuelist
      ensures Valid() && Dequeued(f, Qs()) == Dequeue(old(Qs()))
    {
      DequeueTakesHead(Qs());
      ghost var was := Qs();
      hide Order, Dequeue, Highest;
      if qcnt == 0 {
        return None;
      }
      while hiPrio > 0 && queuelist[hiPrio] == []
        invariant Valid() && Qs() == was && qcnt == old(qcnt)
        decreases hiPrio
      {
        hiPrio := hiPrio - 1;
      }
      assert was[hiPrio] == queuelist[hiPrio] && forall j :: hiPrio < j < |was| ==> was[j] == queuelist[j];
      DequeueAt(was, hiPrio);
      var q := queuelist[hiPrio];
      if q == [] {
        return None;
      }
      f := Some(q[0]);
      queuelist[hiPrio] := q[1..];
      qcnt := qcnt - 1;
      assert Qs() == was[hiPrio := q[1..]];
    }

    /** aicwf_skb_dequeue_tail */
    method DequeueTail(prio: nat) returns (f: Option<Frame>)
      requires Valid() && prio < numPrio
      modifies this, queuelist
      ensures var q := old(queuelist[prio]);
              && Valid()
              && if q == [] then f == None && Qs() == old(Qs()) && qcnt == old(qcnt)
                 else f == Some(q[|q| - 1]) && Qs() == old(Qs())[prio := q[..|q| - 1]] && qcnt == old(qcnt) - 1
    {
      var q := queuelist[prio];
      if q == [] {
        return None;
      }
      ghost var was := Qs();
      OrderAt(was, prio, q);
      assert was[prio := q] == was;
      OrderAt(was, prio, q[..|q| - 1]);
      hide Order;
      f := Some(q[|q| - 1]);
      queuelist[prio] := q[..|q| - 1];
      qcnt := qcnt - 1;
      assert Qs() == was[prio := q[..|q| - 1]];
    }

    method FrameEnq(f: Frame, prio: nat) returns (ok: bool, evicted: Option<Frame>)
      requires Valid() && prio < numPrio
      modifies this, queuelist
      ensures Valid() && Enqueued(ok, Qs(), evicted) == Enqueue(old(Qs()), qmax, prio, f)
    {
      ghost var was := Qs();
      LongQueue(was, qmax, prio);
      if Lowest(was, 0) >= 0 {
        LongQueue(was, qmax, Lowest(was, 0));
      }
      hide Order, Lowest;
      evicted := None;
      if |queuelist[prio]| < qmax && qcnt < qmax {
        ok := Penq(prio, f);
        return;
      }
      if |queuelist[prio]| >= qmax {
        return false, None;
      }
      var prioModified, p := PeekTail();
      if prioModified >= prio {
        return false, None;
      }
      if prioModified >= 0 {
        evicted := DequeueTail(prioModified);
        ok := Penq(prioModified, f);
        assert Qs() == was[prioModified := was[prioModified][..|was[prioModified]| - 1] + [f]];
      } else {
        ok := false;
      }
    }

    /** aicwf_frame_queue_flush; hi_prio stays as it is. */
    method FrameFlush()
      requires Valid()
      modifies `qcnt, queuelist
      ensures Valid() && Qs() == seq(numPrio, _ => [])
    {
      for prio := 0 to numPrio
        invariant queuelist.Length == MAX_PRIO && qcnt == |Order(Qs())| <= qmax
        invariant forall k :: 0 <= k < prio || hiPrio < k < numPrio ==> queuelist[k] == []
      {
        while queuelist[prio] != []
          invariant queuelist.Length == MAX_PRIO && qcnt == |Order(Qs())| <= qmax
          invariant forall k :: 0 <= k < prio || hiPrio < k < numPrio ==> queuelist[k] == []
          decreases |queuelist[prio]|
        {
          ghost var was, q := Qs(), queuelist[prio];
          OrderAt(was, prio, q);
          assert was[prio := q] == was;
          OrderAt(was, prio, q[1..]);
          queuelist[prio] := queuelist[prio][1..];
          assert Qs() == was[prio := q[1..]];
          qcnt := qcnt - 1;
        }
      }
    }
  }

  /** One queue as long as the whole queue may be: all others are empty. */
  lemma LongQueue(qs: seq<seq<Frame>>, qmax: nat, prio: nat)
    requires prio < |qs| && |Order(qs)| <= qmax
    ensures |qs[prio]| <= |Order(qs)|
    ensures |qs[prio]| >= qmax ==> Order(qs[..prio]) == [] && (Lowest(qs, 0) < 0 || Lowest(qs, 0) >= prio)
  {
    OrderAt(qs, prio, qs[prio]);
    assert qs[prio := qs[prio]] == qs;
    var low := Lowest(qs, 0);
    if 0 <= low < prio {
      LowBelow(qs, prio, low);
    }
  }
}
