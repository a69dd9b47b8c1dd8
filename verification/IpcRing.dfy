// The transmit descriptor rings of ipc_host.c: two free-running 32-bit indices
// masked into an array of host ids, and a confirmation loop whose callback may
// push again or refuse. Each ring is proved to be a FIFO across index
// wrap-around.

module IpcRing {
  import opened Common

  type Id(==, !new) = nat                        // a host id; 0 is the null pointer

  function Next(i: u32): u32 { (i + 1) % 0x1_0000_0000 }

  /** nx_txdesc_cnt: all sizes are powers of two, so masking an index is taking its remainder. */
  predicate IsSize(cnt: nat) { cnt == 8 || cnt == 32 || cnt == 64 }

  function Masked(i: int, cnt: nat): (r: nat)
    requires IsSize(cnt)
    ensures r < cnt
  {
    if cnt == 8 then i % 8 else if cnt == 32 then i % 32 else i % 64
  }

  lemma Mask(i: bv32)
    ensures i & 7 == i % 8 && i & 31 == i % 32 && i & 63 == i % 64
  {
  }

  /** The k-th id of a queue, or null past its end. */
  function At(q: seq<Id>, k: nat): Id { if k < |q| then q[k] else 0 }

  /** The array holds the queue from the used index on and null everywhere else. */
  ghost predicate Holds(ids: seq<Id>, cnt: nat, used: u32, q: seq<Id>) {
    && IsSize(cnt) && |ids| == cnt && |q| <= cnt
    && (forall p :: 0 <= p < cnt ==> ids[p] == At(q, Masked(p - used, cnt)))
    && (forall k :: 0 <= k < |q| ==> q[k] != 0)
  }

  /** The free index is used + |q| modulo 2^32. */
  predicate Spans(used: u32, free: u32, n: nat) { free == (used + n) % 0x1_0000_0000 }

  function Block(i: int, cnt: nat): int
    requires IsSize(cnt)
  {
    if cnt == 8 then i / 8 else if cnt == 32 then i / 32 else i / 64
  }

  function Times(q: int, cnt: nat): int
    requires IsSize(cnt)
  {
    if cnt == 8 then 8 * q else if cnt == 32 then 32 * q else 64 * q
  }

  lemma Divided(i: int, cnt: nat)
    requires IsSize(cnt)
    ensures i == Times(Block(i, cnt), cnt) + Masked(i, cnt)
  {
  }

  lemma Remainder8(i: int, q: int, r: nat)
    requires r < 8 && i == Times(q, 8) + r
    ensures Masked(i, 8) == r
  {
    assert i == 8 * q + r;
  }

  lemma Remainder32(i: int, q: int, r: nat)
    requires r < 32 && i == Times(q, 32) + r
    ensures Masked(i, 32) == r
  {
    assert i == 32 * q + r;
  }

  lemma Remainder64(i: int, q: int, r: nat)
    requires r < 64 && i == Times(q, 64) + r
    ensures Masked(i, 64) == r
  {
    assert i == 64 * q + r;
  }

  lemma Remainder(i: int, q: int, r: nat, cnt: nat)
    requires IsSize(cnt) && r < cnt && i == Times(q, cnt) + r
    ensures Masked(i, cnt) == r
  {
    hide Masked, Times;
    if cnt == 8 {
      Remainder8(i, q, r);
    } else if cnt == 32 {
      Remainder32(i, q, r);
    } else {
      Remainder64(i, q, r);
    }
  }

  lemma MaskedAdd(i: int, cnt: nat)
    requires IsSize(cnt)
    ensures Masked(i + 1, cnt) == if Masked(i, cnt) == cnt - 1 then 0 else Masked(i, cnt) + 1
  {
    Divided(i, cnt);
    var q, r := Block(i, cnt), Masked(i, cnt);
    assert Times(q + 1, cnt) == Times(q, cnt) + cnt;
    hide Masked, Block, Times;
    if r == cnt - 1 {
      Remainder(i + 1, q + 1, 0, cnt);
    } else {
      Remainder(i + 1, q, r + 1, cnt);
    }
  }

  lemma MaskedRound(i: int, cnt: nat)
    requires IsSize(cnt)
    ensures Masked(i + cnt, cnt) == Masked(i, cnt)
  {
    Divided(i, cnt);
    var q := Block(i, cnt);
    assert Times(q + 1, cnt) == Times(q, cnt) + cnt;
    hide Masked, Block, Times;
    Remainder(i + cnt, q + 1, Masked(i, cnt), cnt);
  }

  lemma MaskedWrap(i: int, cnt: nat)
    requires IsSize(cnt)
    ensures Masked(i + 0x1_0000_0000, cnt) == Masked(i, cnt)
  {
    Divided(i, cnt);
    var q := Block(i, cnt) + Block(0x1_0000_0000, cnt);
    assert Times(q, cnt) == Times(Block(i, cnt), cnt) + 0x1_0000_0000;
    hide Masked, Block, Times;
    Remainder(i + 0x1_0000_0000, q, Masked(i, cnt), cnt);
  }

  lemma MaskedDiff(p: nat, i: int, n: nat, cnt: nat)
    requires IsSize(cnt) && p < cnt && n < cnt
    ensures Masked(p - i, cnt) == n <==> p == Masked(i + n, cnt)
  {
    Divided(p - i, cnt);
    Divided(i + n, cnt);
    assert Times(-Block(p - i, cnt), cnt) == -Times(Block(p - i, cnt), cnt);
    assert Times(-Block(i + n, cnt), cnt) == -Times(Block(i + n, cnt), cnt);
    hide Masked, Block, Times;
    if Masked(p - i, cnt) == n {
      Remainder(i + n, -Block(p - i, cnt), p, cnt);
    }
    if p == Masked(i + n, cnt) {
      Remainder(p - i, -Block(i + n, cnt), n, cnt);
    }
  }

  lemma MaskedNext(p: nat, used: u32, cnt: nat)
    requires IsSize(cnt) && p < cnt
    ensures Masked(p - Next(used), cnt) == if p == Masked(used, cnt) then cnt - 1 else Masked(p - used, cnt) - 1
    ensures Masked(p - used, cnt) == 0 <==> p == Masked(used, cnt)
  {
    MaskedAdd(p - used - 1, cnt);
    MaskedWrap(p - used - 1, cnt);
    MaskedDiff(p, used, 0, cnt);
    hide Masked;
  }

  lemma MaskedFree(p: nat, used: u32, free: u32, n: nat, cnt: nat)
    requires IsSize(cnt) && p < cnt && Spans(used, free, n) && n < cnt
    ensures Masked(p - used, cnt) == n <==> p == Masked(free, cnt)
  {
    MaskedWrap(free, cnt);
    MaskedDiff(p, used, n, cnt);
    hide Masked;
  }

  lemma SpansNext(used: u32, free: u32, n: nat)
    ensures n > 0 ==> (Spans(used, free, n) <==> Spans(Next(used), free, n - 1))
    ensures Spans(used, free, n) ==> Spans(used, Next(free), n + 1)
  {
  }

  lemma Pushed(ids: seq<Id>, cnt: nat, used: u32, free: u32, q: seq<Id>, id: Id)
    requires Holds(ids, cnt, used, q) && Spans(used, free, |q|) && |q| < cnt && id != 0
    ensures Holds(ids[Masked(free, cnt) := id], cnt, used, q + [id]) && Spans(used, Next(free), |q| + 1)
  {
    SpansNext(used, free, |q|);
    hide Masked, Next, Spans;
    var after := ids[Masked(free, cnt) := id];
    forall p | 0 <= p < cnt
      ensures after[p] == At(q + [id], Masked(p - used, cnt))
    {
      MaskedFree(p, used, free, |q|, cnt);
    }
  }

  /** The indices tell a full ring, and otherwise the cell at the free index is null. */
  lemma FreeCell(ids: seq<Id>, cnt: nat, used: u32, free: u32, q: seq<Id>)
    requires Holds(ids, cnt, used, q) && Spans(used, free, |q|)
    ensures free == (used + cnt) % 0x1_0000_0000 <==> |q| == cnt
    ensures |q| < cnt ==> ids[Masked(free, cnt)] == 0
  {
    if |q| < cnt {
      MaskedFree(Masked(free, cnt), used, free, |q|, cnt);
    }
    hide Masked;
  }

  lemma Popped(ids: seq<Id>, cnt: nat, used: u32, q: seq<Id>)
    requires Holds(ids, cnt, used, q)
    ensures ids[Masked(used, cnt)] == At(q, 0)
    ensures q != [] ==> Holds(ids[Masked(used, cnt) := 0], cnt, Next(used), q[1..])
  {
    MaskedNext(Masked(used, cnt), used, cnt);
    if q != [] {
      var after := ids[Masked(used, cnt) := 0];
      forall p | 0 <= p < cnt
        ensures after[p] == At(q[1..], Masked(p - Next(used), cnt))
      {
        MaskedNext(p, used, cnt);
      }
    }
    hide Masked, Next;
  }

  /** Putting an id back in front is right as long as its cell was not taken meanwhile. */
  lemma PutBack(ids: seq<Id>, cnt: nat, used: u32, q: seq<Id>, id: Id)
    requires Holds(ids, cnt, Next(used), q) && |q| < cnt && id != 0
    ensures Holds(ids[Masked(used, cnt) := id], cnt, used, [id] + q)
  {
    var after := ids[Masked(used, cnt) := id];
    forall p | 0 <= p < cnt
      ensures after[p] == At([id] + q, Masked(p - used, cnt))
    {
      MaskedNext(p, used, cnt);
    }
    hide Masked, Next;
  }

  // ----- The confirmation loop as a function on queues ----------------------------------

  /** What send_data_cfm does when it is given an id: which ids it wants to push, and its answer. */
  datatype Answer = Accept(pushes: seq<Id>) | Refuse(pushes: seq<Id>)

  /** The ids for which ipc_host_txdesc_get finds a descriptor when n are in a ring. */
  function Taken(ids: seq<Id>, cnt: nat, n: nat): (r: seq<Id>)
    requires n <= cnt
    ensures r <= ids && |r| <= cnt - n && (|r| == |ids| || |r| == cnt - n)
  {
    if |ids| <= cnt - n then ids else ids[..cnt - n]
  }

  datatype Outcome = Outcome(queue: seq<Id>, confirmed: seq<Id>, pushed: seq<Id>)

  /** What the ring holds after the callback has accepted its first id. */
  function Accepted(cnt: nat, q: seq<Id>, pushes: seq<Id>): (r: seq<Id>)
    requires 0 < |q| <= cnt
    ensures |r| == |q| - 1 + |Taken(pushes, cnt, |q| - 1)| <= cnt
  {
    q[1..] + Taken(pushes, cnt, |q| - 1)
  }

  /** The loop ends within these answers: the ring runs empty, or one of them is a refusal. */
  ghost predicate Ends(cnt: nat, q: seq<Id>, answers: seq<Answer>)
    requires |q| <= cnt
    decreases |answers|
  {
    q == [] || (answers != [] && (answers[0].Accept? ==> Ends(cnt, Accepted(cnt, q, answers[0].pushes), answers[1..])))
  }

  /** No refusing callback pushes more than there was room for before it was called. */
  ghost predicate RefusalsFit(cnt: nat, q: seq<Id>, answers: seq<Answer>)
    requires |q| <= cnt
    decreases |answers|
  {
    q == [] || answers == [] ||
    match answers[0]
    case Refuse(pushes) => |q| + |Taken(pushes, cnt, |q| - 1)| <= cnt
    case Accept(pushes) => RefusalsFit(cnt, Accepted(cnt, q, pushes), answers[1..])
  }

  ghost function Confirm(cnt: nat, q: seq<Id>, answers: seq<Answer>): (r: Outcome)
    requires |q| <= cnt && Ends(cnt, q, answers) && RefusalsFit(cnt, q, answers)
    ensures |r.queue| <= cnt
    decreases |answers|
  {
    if q == [] then Outcome([], [], [])
    else
      var more := Taken(answers[0].pushes, cnt, |q| - 1);
      if answers[0].Refuse? then Outcome(q + more, [], more)
      else
        var rest := Confirm(cnt, Accepted(cnt, q, answers[0].pushes), answers[1..]);
        Outcome(rest.queue, [q[0]] + rest.confirmed, more + rest.pushed)
  }

  /** Whatever the callback answers and pushes, ids are confirmed first in, first out, and none is lost. */
  lemma {:induction false} ConfirmIsFifo(cnt: nat, q: seq<Id>, answers: seq<Answer>)
    requires |q| <= cnt && Ends(cnt, q, answers) && RefusalsFit(cnt, q, answers)
    ensures var r := Confirm(cnt, q, answers); r.confirmed + r.queue == q + r.pushed
    decreases |answers|
  {
    if q == [] {
      assert q + [] == q;
    } else if answers[0].Accept? {
      var more := Taken(answers[0].pushes, cnt, |q| - 1);
      ConfirmIsFifo(cnt, Accepted(cnt, q, answers[0].pushes), answers[1..]);
      Regroup(q, more, Confirm(cnt, q[1..] + more, answers[1..]));
    }
    hide RefusalsFit, Taken, Ends;
  }

  lemma Regroup(q: seq<Id>, more: seq<Id>, rest: Outcome)
    requires q != [] && rest.confirmed + rest.queue == (q[1..] + more) + rest.pushed
    ensures ([q[0]] + rest.confirmed) + rest.queue == q + (more + rest.pushed)
  {
    assert ([q[0]] + rest.confirmed) + rest.queue == [q[0]] + (rest.confirmed + rest.queue);
    assert [q[0]] + ((q[1..] + more) + rest.pushed) == q + (more + rest.pushed);
  }

  ghost predicate AllNonNull(ids: seq<Id>) { forall k :: 0 <= k < |ids| ==> ids[k] != 0 }

  ghost predicate NonNull(answers: seq<Answer>) {
    forall k :: 0 <= k < |answers| ==> AllNonNull(answers[k].pushes)
  }

  /** An outcome after some ids have been confirmed and pushed already. */
  ghost function Prefixed(confirmed: seq<Id>, pushed: seq<Id>, r: Outcome): Outcome {
    Outcome(r.queue, confirmed + r.confirmed, pushed + r.pushed)
  }

  /** One turn of the loop, after some ids have been confirmed and pushed. */
  ghost predicate Turned(cnt: nat, q: seq<Id>, answers: seq<Answer>, confirmed: seq<Id>, pushed: seq<Id>, r: Outcome)
    requires |q| <= cnt
  {
    Ends(cnt, q, answers) && RefusalsFit(cnt, q, answers) && r == Prefixed(confirmed, pushed, Confirm(cnt, q, answers))
  }

  lemma ConfirmStep(cnt: nat, q: seq<Id>, answers: seq<Answer>, confirmed: seq<Id>, pushed: seq<Id>, r: Outcome)
    requires |q| <= cnt && Turned(cnt, q, answers, confirmed, pushed, r)
    ensures q == [] ==> r == Outcome([], confirmed, pushed)
    ensures q != [] ==>
              && answers != []
              && var more := Taken(answers[0].pushes, cnt, |q| - 1);
                 if answers[0].Refuse? then |q| + |more| <= cnt && r == Outcome(q + more, confirmed, pushed + more)
                 else Turned(cnt, q[1..] + more, answers[1..], confirmed + [q[0]], pushed + more, r)
  {
    if q != [] && answers[0].Accept? {
      var more := Taken(answers[0].pushes, cnt, |q| - 1);
      var rest := Confirm(cnt, q[1..] + more, answers[1..]);
      assert confirmed + ([q[0]] + rest.confirmed) == (confirmed + [q[0]]) + rest.confirmed;
      assert pushed + (more + rest.pushed) == (pushed + more) + rest.pushed;
    }
  }

  // ----- When the loop ends -----------------------------------------------------------------

  ghost predicate AllAccept(answers: seq<Answer>) { forall k :: 0 <= k < |answers| ==> answers[k].Accept? }

  /** How many ids the first n callbacks push into a ring of len ids. */
  function TakenIn(cnt: nat, len: nat, answers: seq<Answer>, n: nat): nat
    requires len <= cnt && n <= |answers|
    decreases n
  {
    if n == 0 || len == 0 then 0
    else
      var t := |Taken(answers[0].pushes, cnt, len - 1)|;
      t + TakenIn(cnt, len - 1 + t, answers[1..], n - 1)
  }

  /** After n callbacks that all accept, as many ids are confirmed as there ever were, or the next one refuses. */
  ghost predicate EndsAt(cnt: nat, len: nat, answers: seq<Answer>, n: nat)
    requires len <= cnt && n <= |answers|
  {
    AllAccept(answers[..n]) && (len + TakenIn(cnt, len, answers, n) == n || (n < |answers| && answers[n].Refuse?))
  }

  lemma EndsAtStep(cnt: nat, len: nat, answers: seq<Answer>, n: nat)
    requires 0 < len <= cnt && 0 < n <= |answers| && answers[0].Accept?
    ensures var t := |Taken(answers[0].pushes, cnt, len - 1)|;
            EndsAt(cnt, len, answers, n) <==> EndsAt(cnt, len - 1 + t, answers[1..], n - 1)
  {
    var head, tail := answers[..n], answers[1..][..n - 1];
    assert head == [answers[0]] + tail;
    assert AllAccept(head) <==> AllAccept(tail) by {
      assert AllAccept(tail) ==> forall k :: 0 < k < n ==> head[k].Accept?;
      assert AllAccept(head) ==> forall k {:trigger tail[k]} :: 0 <= k < n - 1 ==> head[k + 1].Accept?;
    }
  }

  lemma {:induction false} EndsThere(cnt: nat, q: seq<Id>, answers: seq<Answer>) returns (n: nat)
    requires |q| <= cnt && Ends(cnt, q, answers)
    ensures n <= |answers| && EndsAt(cnt, |q|, answers, n)
    decreases |answers|
  {
    n := 0;
    if q != [] && answers[0].Accept? {
      n := EndsThere(cnt, Accepted(cnt, q, answers[0].pushes), answers[1..]);
      n := n + 1;
      EndsAtStep(cnt, |q|, answers, n);
    }
    hide Taken;
  }

  lemma {:induction false} EndsSo(cnt: nat, q: seq<Id>, answers: seq<Answer>, n: nat)
    requires |q| <= cnt && n <= |answers| && EndsAt(cnt, |q|, answers, n)
    ensures Ends(cnt, q, answers)
    decreases |answers|
  {
    if q != [] && n > 0 {
      assert answers[0] == answers[..n][0];
      EndsAtStep(cnt, |q|, answers, n);
      EndsSo(cnt, Accepted(cnt, q, answers[0].pushes), answers[1..], n - 1);
    }
    hide Taken;
  }

  /** The loop ends within a list of answers exactly if it ends at one of them. */
  lemma EndsIff(cnt: nat, q: seq<Id>, answers: seq<Answer>)
    requires |q| <= cnt
    ensures Ends(cnt, q, answers) <==> exists n :: 0 <= n <= |answers| && EndsAt(cnt, |q|, answers, n)
  {
    hide Ends, EndsAt;
    if Ends(cnt, q, answers) {
      var n := EndsThere(cnt, q, answers);
    }
    if n :| 0 <= n <= |answers| && EndsAt(cnt, |q|, answers, n) {
      EndsSo(cnt, q, answers, n);
    }
  }

  /** The first n answers of a callback that can be asked any number of times. */
  function First(callback: nat -> Answer, n: nat): (r: seq<Answer>)
    ensures |r| == n && forall k :: 0 <= k < n ==> r[k] == callback(k)
  {
    seq(n, k requires 0 <= k => callback(k))
  }

  ghost predicate StopsAt(cnt: nat, len: nat, callback: nat -> Answer, n: nat)
    requires len <= cnt
  {
    AllAccept(First(callback, n)) && (len + TakenIn(cnt, len, First(callback, n), n) == n || callback(n).Refuse?)
  }

  lemma {:induction false} TakenInPrefix(cnt: nat, len: nat, answers: seq<Answer>, n: nat)
    requires len <= cnt && n <= |answers|
    ensures TakenIn(cnt, len, answers, n) == TakenIn(cnt, len, answers[..n], n)
    decreases n
  {
    if n > 0 && len > 0 {
      assert answers[..n][1..] == answers[1..][..n - 1];
      TakenInPrefix(cnt, len - 1 + |Taken(answers[0].pushes, cnt, len - 1)|, answers[1..], n - 1);
    }
  }

  /**
   * For any callback, the loop ends if and only if for some n its first n answers
   * accept, and either the ids in the ring at first and those pushed by then are
   * n in all, or the next answer refuses.
   */
  lemma LoopEndsIff(cnt: nat, q: seq<Id>, callback: nat -> Answer)
    requires |q| <= cnt
    ensures (exists n: nat :: Ends(cnt, q, First(callback, n))) <==> exists n: nat :: StopsAt(cnt, |q|, callback, n)
  {
    if n: nat :| Ends(cnt, q, First(callback, n)) {
      var answers := First(callback, n);
      EndsIff(cnt, q, answers);
      var m :| 0 <= m <= n && EndsAt(cnt, |q|, answers, m);
      TakenInPrefix(cnt, |q|, answers, m);
      assert answers[..m] == First(callback, m);
      assert StopsAt(cnt, |q|, callback, m);
    }
    if n: nat :| StopsAt(cnt, |q|, callback, n) {
      var answers := First(callback, n + 1);
      TakenInPrefix(cnt, |q|, answers, n);
      assert answers[..n] == First(callback, n);
      assert EndsAt(cnt, |q|, answers, n);
      EndsIff(cnt, q, answers);
    }
    hide Ends, TakenIn;
  }

  function Offered(answers: seq<Answer>): nat {
    if answers == [] then 0 else |answers[0].pushes| + Offered(answers[1..])
  }

  /** A callback that always accepts and offers no more ids than it can confirm lets the loop end. */
  lemma {:induction false} EnoughAnswers(cnt: nat, q: seq<Id>, answers: seq<Answer>)
    requires |q| <= cnt && AllAccept(answers) && |q| + Offered(answers) <= |answers|
    ensures Ends(cnt, q, answers)
    decreases |answers|
  {
    if q != [] {
      EnoughAnswers(cnt, Accepted(cnt, q, answers[0].pushes), answers[1..]);
    }
  }

  /** When only accepting answers were needed, everything is confirmed, in the order it was pushed. */
  lemma {:induction false} AllConfirmed(cnt: nat, q: seq<Id>, answers: seq<Answer>)
    requires |q| <= cnt && AllAccept(answers) && Ends(cnt, q, answers)
    ensures RefusalsFit(cnt, q, answers)
    ensures var r := Confirm(cnt, q, answers); r.queue == [] && r.confirmed == q + r.pushed
    decreases |answers|
  {
    if q != [] {
      AllConfirmed(cnt, Accepted(cnt, q, answers[0].pushes), answers[1..]);
    }
    ConfirmIsFifo(cnt, q, answers);
    var r := Confirm(cnt, q, answers);
    assert r.confirmed + [] == r.confirmed;
  }

  /**
   * A callback that accepts and pushes an id every time keeps the loop going,
   * however many answers it has given.
   */
  lemma {:induction false} NeverDone(cnt: nat, q: seq<Id>, answers: seq<Answer>)
    requires 0 < |q| <= cnt && forall k :: 0 <= k < |answers| ==> answers[k].Accept? && answers[k].pushes != []
    ensures !Ends(cnt, q, answers)
    decreases |answers|
  {
    if answers != [] {
      NeverDone(cnt, Accepted(cnt, q, answers[0].pushes), answers[1..]);
    }
  }

  // ----- A refusing callback that pushes --------------------------------------------------

  /** The array after several pushes. */
  function PushAll(ids: seq<Id>, cnt: nat, free: u32, more: seq<Id>): (r: seq<Id>)
    requires IsSize(cnt) && |ids| == cnt
    ensures |r| == cnt
    decreases |more|
  {
    if more == [] then ids else PushAll(ids[Masked(free, cnt) := more[0]], cnt, Next(free), more[1..])
  }

  lemma {:induction false} AllPushed(ids: seq<Id>, cnt: nat, used: u32, free: u32, q: seq<Id>, more: seq<Id>)
    requires Holds(ids, cnt, used, q) && Spans(used, free, |q|) && |q| + |more| <= cnt && AllNonNull(more)
    ensures Holds(PushAll(ids, cnt, free, more), cnt, used, q + more)
    decreases |more|
  {
    if more == [] {
      assert q + more == q;
    } else {
      Pushed(ids, cnt, used, free, q, more[0]);
      assert (q + [more[0]]) + more[1..] == q + more;
      AllPushed(ids[Masked(free, cnt) := more[0]], cnt, used, Next(free), q + [more[0]], more[1..]);
    }
    hide Masked, Next, Holds;
  }

  lemma {:induction false} PushLast(ids: seq<Id>, cnt: nat, free: u32, more: seq<Id>)
    requires IsSize(cnt) && |ids| == cnt && more != []
    ensures var n := |more| - 1;
            PushAll(ids, cnt, free, more) == PushAll(ids, cnt, free, more[..n])[Masked(free + n, cnt) := more[n]]
    decreases |more|
  {
    if |more| > 1 {
      PushLast(ids[Masked(free, cnt) := more[0]], cnt, Next(free), more[1..]);
      assert more[1..][..|more| - 2] == more[..|more| - 1][1..];
      MaskedWrap(Next(free) + (|more| - 2), cnt);
    }
    hide Masked, Next;
  }

  /** What a callback that refuses after pushing leaves in the array. */
  function AfterRefusal(ids: seq<Id>, cnt: nat, used: u32, free: u32, more: seq<Id>): (r: seq<Id>)
    requires IsSize(cnt) && |ids| == cnt
    ensures |r| == cnt
  {
    PushAll(ids[Masked(used, cnt) := 0], cnt, free, more)[Masked(used, cnt) := ids[Masked(used, cnt)]]
  }

  lemma RefusalFits(ids: seq<Id>, cnt: nat, used: u32, free: u32, q: seq<Id>, more: seq<Id>)
    requires Holds(ids, cnt, used, q) && Spans(used, free, |q|) && q != []
    requires AllNonNull(more) && |q| + |more| <= cnt
    ensures Holds(AfterRefusal(ids, cnt, used, free, more), cnt, used, q + more)
  {
    Popped(ids, cnt, used, q);
    SpansNext(used, free, |q|);
    assert q[0] != 0;
    hide Masked, Next, PushAll, AllNonNull, Holds, Spans;
    var emptied := ids[Masked(used, cnt) := 0];
    AllPushed(emptied, cnt, Next(used), free, q[1..], more);
    PutBack(PushAll(emptied, cnt, free, more), cnt, used, q[1..] + more, q[0]);
    assert [q[0]] + (q[1..] + more) == q + more;
  }

  /**
   * The rollback after a refusal is right exactly when the callback pushed no
   * more ids than fitted before it was called. One more still finds a
   * descriptor, because the used index is already advanced; its id is then
   * overwritten by the refused one, the free index is one past a full ring, and
   * the test of ipc_host_txdesc_get finds room there.
   */
  lemma RefusalRestores(ids: seq<Id>, cnt: nat, used: u32, free: u32, q: seq<Id>, more: seq<Id>)
    requires Holds(ids, cnt, used, q) && Spans(used, free, |q|) && q != []
    requires AllNonNull(more) && |q| - 1 + |more| <= cnt
    ensures Holds(AfterRefusal(ids, cnt, used, free, more), cnt, used, q + more) <==> |q| + |more| <= cnt
    ensures |q| + |more| > cnt ==> Holds(AfterRefusal(ids, cnt, used, free, more), cnt, used, q + more[..|more| - 1])
    ensures |q| + |more| > cnt ==> Spans(used, (free + |more|) % 0x1_0000_0000, cnt + 1)
                                   && (free + |more|) % 0x1_0000_0000 != (used + cnt) % 0x1_0000_0000
  {
    SpansMore(used, free, |q|, |more|);
    if |q| + |more| <= cnt {
      RefusalFits(ids, cnt, used, free, q, more);
    } else {
      RefusalFits(ids, cnt, used, free, q, more[..|more| - 1]);
      LastLost(ids, cnt, used, free, |q|, more);
      assert !Holds(AfterRefusal(ids, cnt, used, free, more), cnt, used, q + more);
    }
    hide Masked, Next, PushAll, AllNonNull, Spans, Holds, AfterRefusal;
  }

  lemma SpansMore(used: u32, free: u32, n: nat, m: nat)
    requires Spans(used, free, n) && n + m <= 65
    ensures Spans(used, (free + m) % 0x1_0000_0000, n + m)
    ensures n + m > 0 ==> (free + m) % 0x1_0000_0000 != (used + (n + m - 1)) % 0x1_0000_0000
  {
  }

  /** When the last push took the cell of the refused id, the array is as if it had not happened. */
  lemma LastLost(ids: seq<Id>, cnt: nat, used: u32, free: u32, n: nat, more: seq<Id>)
    requires IsSize(cnt) && |ids| == cnt && Spans(used, free, n) && 0 < n && more != [] && n + |more| == cnt + 1
    ensures AfterRefusal(ids, cnt, used, free, more) == AfterRefusal(ids, cnt, used, free, more[..|more| - 1])
  {
    PushLast(ids[Masked(used, cnt) := 0], cnt, free, more);
    LastCell(used, free, n, cnt);
    hide Masked, PushAll;
  }

  lemma LastCell(used: u32, free: u32, n: nat, cnt: nat)
    requires IsSize(cnt) && Spans(used, free, n) && 0 < n <= cnt
    ensures Masked(free + (cnt - n), cnt) == Masked(used, cnt)
  {
    MaskedWrap(free + (cnt - n), cnt);
    MaskedRound(used, cnt);
    hide Masked;
  }

  lemma Shift(done: seq<Id>, q: seq<Id>)
    requires q != []
    ensures done + q == (done + [q[0]]) + q[1..]
  {
  }

  lemma TakenStep(ids: seq<Id>, i: nat, cnt: nat, n: nat)
    requires i < |ids| && n <= cnt
    ensures Taken(ids[..i + 1], cnt, n) == Taken(ids[..i], cnt, n) + if i < cnt - n then [ids[i]] else []
  {
  }

  /** Equal indices mean an empty ring and nothing else: a full one differs by its size. */
  lemma EmptyIffEqual(used: u32, free: u32, n: nat)
    requires Spans(used, free, n) && n <= 64
    ensures used == free <==> n == 0
  {
  }

  /** ipc_host_tx_frames_pending, over the index pairs of every ring of every queue. */
  method TxFramesPending(used: seq<seq<u32>>, free: seq<seq<u32>>) returns (pending: bool)
    requires |used| == |free| && forall i :: 0 <= i < |used| ==> |used[i]| == |free[i]|
    ensures pending <==> exists i, j :: 0 <= i < |used| && 0 <= j < |used[i]| && used[i][j] != free[i][j]
  {
    pending := false;
    var i := 0;
    while i < |used| && !pending
      invariant 0 <= i <= |used|
      invariant pending ==> exists a, j :: 0 <= a < |used| && 0 <= j < |used[a]| && used[a][j] != free[a][j]
      invariant !pending ==> forall a, j :: 0 <= a < i && 0 <= j < |used[a]| ==> used[a][j] == free[a][j]
      decreases |used| - i
    {
      var k := 0;
      while k < |used[i]|
        invariant 0 <= k <= |used[i]| && !pending
        invariant forall j :: 0 <= j < k ==> used[i][j] == free[i][j]
      {
        if used[i][k] != free[i][k] {
          pending := true;
          break;
        }
        k := k + 1;
      }
      i := i + 1;
    }
  }

  // ----- The ring ---------------------------------------------------------------------------

  class TxRing {
    const cnt: nat
    var usedIdx: u32
    var freeIdx: u32
    const hostId: array<Id>
    ghost var queue: seq<Id>
    ghost var pushed: seq<Id>                     // everything ever pushed
    ghost var done: seq<Id>                       // everything confirmed or flushed

    ghost predicate Valid()
      reads this, hostId
      ensures Valid() ==> |queue| <= cnt
    {
      && Holds(hostId[..], cnt, usedIdx, queue)
      && Spans(usedIdx, freeIdx, |queue|)
      && done + queue == pushed
    }

    constructor (cnt: nat)
      requires IsSize(cnt)
      ensures Valid() && fresh(hostId) && queue == [] && pushed == [] && this.cnt == cnt
    {
      var a := new Id[cnt](_ => 0);
      this.cnt, usedIdx, freeIdx, hostId := cnt, 0, 0, a;
      queue, pushed, done := [], [], [];
    }

    /** ipc_host_txdesc_get: the descriptor to fill in, or -1 when the ring is full. */
    method DescGet() returns (desc: int)
      requires Valid()
      ensures desc == if |queue| < cnt then Masked(freeIdx, cnt) else -1
      ensures |queue| < cnt ==> hostId[desc] == 0
    {
      FreeCell(hostId[..], cnt, usedIdx, freeIdx, queue);
      hide Masked, Holds, Spans;
      if freeIdx != (usedIdx + cnt) % 0x1_0000_0000 {
        desc := Masked(freeIdx, cnt);
      } else {
        desc := -1;
      }
    }

    /** ipc_host_txdesc_push, for the descriptor that was just got. */
    method DescPush(id: Id)
      requires Valid() && |queue| < cnt && id != 0
      modifies this, hostId
      ensures Valid() && queue == old(queue) + [id] && pushed == old(pushed) + [id] && done == old(done)
      ensures usedIdx == old(usedIdx)
    {
      Pushed(hostId[..], cnt, usedIdx, freeIdx, queue, id);
      hide Masked, Holds, Next;
      hostId[Masked(freeIdx, cnt)] := id;
      freeIdx := Next(freeIdx);
      assert (done + queue) + [id] == done + (queue + [id]);
      queue, pushed := queue + [id], pushed + [id];
    }

    /** What a callback pushes: every id for which it gets a descriptor. */
    method Fill(ids: seq<Id>)
      requires Valid() && AllNonNull(ids)
      modifies this, hostId
      ensures Valid() && usedIdx == old(usedIdx) && done == old(done)
      ensures var more := Taken(ids, cnt, old(|queue|)); queue == old(queue) + more && pushed == old(pushed) + more
    {
      for i := 0 to |ids|
        invariant Valid() && usedIdx == old(usedIdx) && done == old(done)
        invariant queue == old(queue) + Taken(ids[..i], cnt, old(|queue|))
        invariant pushed == old(pushed) + Taken(ids[..i], cnt, old(|queue|))
      {
        TakenStep(ids, i, cnt, old(|queue|));
        var desc := DescGet();
        if desc >= 0 {
          assert pushed + [ids[i]] == old(pushed) + (Taken(ids[..i], cnt, old(|queue|)) + [ids[i]]);
          DescPush(ids[i]);
        }
      }
      assert ids[..|ids|] == ids;
    }

    /** ipc_host_tx_flush: the oldest id, or null when the ring is empty. */
    method Flush() returns (id: Id)
      requires Valid()
      modifies this, hostId
      ensures Valid() && pushed == old(pushed)
      ensures if old(queue) == [] then id == 0 && queue == [] && done == old(done)
              else id == old(queue)[0] && queue == old(queue)[1..] && done == old(done) + [id]
    {
      Popped(hostId[..], cnt, usedIdx, queue);
      var u := Masked(usedIdx, cnt);
      id := hostId[u];
      assert id == At(queue, 0) && (id != 0 <==> queue != []);
      hide Masked, Holds, Next;
      if id != 0 {
        SpansNext(usedIdx, freeIdx, |queue|);
        hostId[u] := 0;
        usedIdx := Next(usedIdx);
        Shift(done, queue);
        done, queue := done + [id], queue[1..];
      }
    }

    /**
     * One turn of ipc_host_tx_cfm_handler. The ring is popped before the
     * callback runs, so that what it pushes finds the freed cell.
     */
    method CfmOne(answer: Answer) returns (again: bool, id: Id)
      requires Valid() && AllNonNull(answer.pushes)
      requires queue != [] && answer.Refuse? ==> |queue| + |Taken(answer.pushes, cnt, |queue| - 1)| <= cnt
      modifies this, hostId
      ensures Valid()
      ensures again == (old(queue) != [] && answer.Accept?)
      ensures old(queue) == [] ==> queue == [] && pushed == old(pushed) && done == old(done) && id == 0
                                   && usedIdx == old(usedIdx) && hostId[..] == old(hostId[..])
      ensures old(queue) != [] ==>
                var more := Taken(answer.pushes, cnt, old(|queue|) - 1);
                && id == old(queue)[0] && pushed == old(pushed) + more
                && if again then queue == old(queue)[1..] + more && done == old(done) + [id]
                   else queue == old(queue) + more && done == old(done) && usedIdx == old(usedIdx)
    {
      Popped(hostId[..], cnt, usedIdx, queue);
      ghost var was := hostId[..];
      var used := usedIdx;
      var u := Masked(used, cnt);
      id := hostId[u];
      assert id == At(queue, 0) && (id != 0 <==> queue != []);
      hide Masked, Holds, Next, Spans, AllNonNull, Taken, At;
      usedIdx := Next(usedIdx);
      hostId[u] := 0;
      if id == 0 {
        usedIdx := used;
        assert hostId[..] == was;
        return false, id;
      }
      SpansNext(used, freeIdx, |queue|);
      Shift(done, queue);
      done, queue := done + [id], queue[1..];
      Fill(answer.pushes);
      again := answer.Accept?;
      if !again {
        RollBack(used, id, old(done));
      }
    }

    /** The refused id goes back in front of what the callback left. */
    method RollBack(used: u32, id: Id, ghost before: seq<Id>)
      requires Valid() && usedIdx == Next(used) && |queue| < cnt && id != 0 && done == before + [id]
      modifies this, hostId
      ensures Valid() && usedIdx == used && queue == [id] + old(queue) && done == before && pushed == old(pushed)
    {
      PutBack(hostId[..], cnt, used, queue, id);
      SpansNext(used, freeIdx, |queue| + 1);
      Shift(before, [id] + queue);
      hide Masked, Holds, Next, Spans, At;
      usedIdx := used;
      hostId[Masked(used, cnt)] := id;
      done, queue := before, [id] + queue;
    }

    /** ipc_host_tx_cfm_handler, with the answers the callback gives until the loop ends */
    method CfmHandler(answers: seq<Answer>) returns (confirmed: seq<Id>)
      requires Valid() && NonNull(answers) && Ends(cnt, queue, answers) && RefusalsFit(cnt, queue, answers)
      modifies this, hostId
      ensures Valid()
      ensures var r := Confirm(cnt, old(queue), answers);
              queue == r.queue && confirmed == r.confirmed && done == old(done) + r.confirmed && pushed == old(pushed) + r.pushed
    {
      ghost var r := Prefixed(done, pushed, Confirm(cnt, queue, answers));
      assert Turned(cnt, queue, answers, done, pushed, r);
      hide Holds, Spans, RefusalsFit, Confirm, Ends, Turned, Taken, AllNonNull;
      confirmed := [];
      var left, again := answers, true;
      while again
        invariant Valid() && NonNull(left) && done == old(done) + confirmed
        invariant again ==> Turned(cnt, queue, left, done, pushed, r)
        invariant !again ==> r == Outcome(queue, done, pushed)
        decreases again, |left|
      {
        ConfirmStep(cnt, queue, left, done, pushed, r);
        var id: Id;
        again, id := CfmOne(if left == [] then Refuse([]) else left[0]);   // not asked when the ring is empty
        if again {
          confirmed := confirmed + [id];
        }
        left := if left == [] then [] else left[1..];
      }
      Cancel(old(done), confirmed, Confirm(cnt, old(queue), answers).confirmed);
    }
  }

  lemma Cancel(a: seq<Id>, b: seq<Id>, c: seq<Id>)
    requires a + b == a + c
    ensures b == c
  {
    assert b == (a + b)[|a|..] && c == (a + c)[|a|..];
  }
}
