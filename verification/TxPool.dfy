// The transmit buffers of aicwf_usb.c without CONFIG_USB_TX_AGGR: a free list, a
// post list and the watermarks that stop and wake the network queues. Every
// locked region is one step; the steps of senders, of the transmit thread and of
// completions interleave in any order during one period with the bus up.

module TxPool {
  const TX_URBS := 200
  const LOW_WATER := 50
  const HIGH_WATER := 150

  type Buf(==, !new) = nat

  /**
   * The lists with their counters, and the buffers that are in no list: a sender
   * fills one in, the transmit thread is about to submit one, or it is in flight.
   * Behind them are the calls that still have to look at the watermarks.
   */
  datatype State = State(
    free: seq<Buf>, freeCount: int, post: seq<Buf>, postCount: int, tbusy: bool,
    filling: set<Buf>, picked: set<Buf>, flight: set<Buf>,
    lowPending: nat, highPending: nat)

  function Initial(): State {
    State(seq(TX_URBS, i requires 0 <= i => i), TX_URBS, [], 0, false, {}, {}, {}, 0, 0)
  }

  datatype Event =
    | Take                                        // aicwf_usb_bus_txdata: a buffer from the free list
    | Post(filled: Buf)                           // and, filled in, onto the post list
    | CheckLow                                    // and the low watermark
    | Pick                                        // aicwf_usb_tx_process: a buffer from the post list
    | Submit(sent: Buf, ok: bool)                 // and its transfer is submitted, or refused
    | Return(finished: Buf)                       // aicwf_usb_tx_complete: back onto the free list
    | CheckHigh                                   // and the high watermark

  predicate Enabled(st: State, e: Event) {
    match e
    case Take => true
    case Post(b) => b in st.filling
    case CheckLow => st.lowPending > 0
    case Pick => true
    case Submit(b, _) => b in st.picked
    case Return(b) => b in st.flight
    case CheckHigh => st.highPending > 0
  }

  function Step(st: State, e: Event): State
    requires Enabled(st, e)
  {
    match e
    case Take =>
      if st.free == [] then st.(lowPending := st.lowPending + 1)
      else st.(free := st.free[1..], freeCount := st.freeCount - 1, filling := st.filling + {st.free[0]})
    case Post(b) =>
      st.(filling := st.filling - {b}, post := st.post + [b], postCount := st.postCount + 1, lowPending := st.lowPending + 1)
    case CheckLow => st.(tbusy := st.tbusy || st.freeCount < LOW_WATER, lowPending := st.lowPending - 1)
    case Pick =>
      if st.post == [] then st
      else st.(post := st.post[1..], postCount := st.postCount - 1, picked := st.picked + {st.post[0]})
    case Submit(b, ok) =>
      if ok then st.(picked := st.picked - {b}, flight := st.flight + {b})
      else st.(picked := st.picked - {b}, free := st.free + [b], freeCount := st.freeCount + 1)
    case Return(b) =>
      st.(flight := st.flight - {b}, free := st.free + [b], freeCount := st.freeCount + 1, highPending := st.highPending + 1)
    case CheckHigh => st.(tbusy := st.tbusy && st.freeCount <= HIGH_WATER, highPending := st.highPending - 1)
  }

  // ----- Every buffer is in one place ---------------------------------------------------

  function CountIn(q: seq<Buf>, b: Buf): nat {
    if q == [] then 0 else (if q[0] == b then 1 else 0) + CountIn(q[1..], b)
  }

  function In(s: set<Buf>, b: Buf): nat { if b in s then 1 else 0 }

  /** How often a buffer is anywhere. */
  function Places(st: State, b: Buf): nat {
    CountIn(st.free, b) + CountIn(st.post, b) + In(st.filling, b) + In(st.picked, b) + In(st.flight, b)
  }

  /** Each buffer is in exactly one place, nothing else is, and the counters are the lengths. */
  ghost predicate Partitioned(st: State) {
    && (forall b: Buf :: Places(st, b) == if b < TX_URBS then 1 else 0)
    && st.freeCount == |st.free| && st.postCount == |st.post|
  }

  lemma {:induction false} CountSnoc(q: seq<Buf>, c: Buf, b: Buf)
    ensures CountIn(q + [c], b) == CountIn(q, b) + if c == b then 1 else 0
  {
    if q == [] {
      assert q + [c] == [c];
    } else {
      assert (q + [c])[1..] == q[1..] + [c];
      CountSnoc(q[1..], c, b);
    }
  }

  lemma StepPlaces(st: State, e: Event, b: Buf)
    requires Enabled(st, e) && forall c: Buf :: Places(st, c) <= 1
    ensures Places(Step(st, e), b) == Places(st, b)
  {
    match e
    case Take => if st.free != [] { assert Places(st, st.free[0]) <= 1; }
    case Post(c) => CountSnoc(st.post, c, b);
    case CheckLow =>
    case Pick => if st.post != [] { assert Places(st, st.post[0]) <= 1; }
    case Submit(c, _) =>
      CountSnoc(st.free, c, b);
      assert Places(st, c) <= 1;
    case Return(c) => CountSnoc(st.free, c, b);
    case CheckHigh =>
  }

  lemma StepPartitioned(st: State, e: Event)
    requires Enabled(st, e) && Partitioned(st)
    ensures Partitioned(Step(st, e))
  {
    forall b: Buf
      ensures Places(Step(st, e), b) == if b < TX_URBS then 1 else 0
    {
      StepPlaces(st, e, b);
    }
    hide Places;
  }

  // ----- The wake-up is not lost ----------------------------------------------------------

  /** While the queues are stopped, few buffers are free or a completion has yet to look. */
  predicate WakesUp(st: State) {
    st.tbusy ==> |st.free| <= HIGH_WATER || st.highPending > 0
  }

  /** A refused submission adds the buffer too many while nobody is going to look. */
  predicate Breaks(st: State, e: Event) {
    e.Submit? && !e.ok && st.tbusy && |st.free| == HIGH_WATER && st.highPending == 0
  }

  /** Every other step keeps the wake-up coming, and this one does not. */
  lemma StepWakesUp(st: State, e: Event)
    requires Enabled(st, e) && Partitioned(st) && WakesUp(st)
    ensures WakesUp(Step(st, e)) <==> !Breaks(st, e)
  {
    hide Places;
  }

  /** The queues stop exactly at a check that finds fewer than 50 buffers free, and wake exactly at one that finds more than 150. */
  lemma FlowControlIff(st: State, e: Event)
    requires Enabled(st, e) && Partitioned(st)
    ensures !st.tbusy ==> (Step(st, e).tbusy <==> e == CheckLow && |st.free| < 50)
    ensures st.tbusy ==> (!Step(st, e).tbusy <==> e == CheckHigh && |st.free| > 150)
  {
    hide Places;
  }

  // ----- Runs -------------------------------------------------------------------------------

  ghost predicate Runs(st: State, events: seq<Event>, st': State)
    decreases |events|
  {
    if events == [] then st == st' else Enabled(st, events[0]) && Runs(Step(st, events[0]), events[1..], st')
  }

  /** No step of the run is one that breaks the wake-up. */
  ghost predicate Unbroken(st: State, events: seq<Event>)
    decreases |events|
  {
    events == [] || (Enabled(st, events[0]) ==> !Breaks(st, events[0]) && Unbroken(Step(st, events[0]), events[1..]))
  }

  predicate NoRefusal(events: seq<Event>) { forall k :: 0 <= k < |events| && events[k].Submit? ==> events[k].ok }

  lemma {:induction false} NoRefusalUnbroken(st: State, events: seq<Event>)
    requires NoRefusal(events)
    ensures Unbroken(st, events)
    decreases |events|
  {
    if events != [] && Enabled(st, events[0]) {
      NoRefusalUnbroken(Step(st, events[0]), events[1..]);
    }
  }

  lemma {:induction false} RunKeeps(st: State, events: seq<Event>, st': State)
    requires Runs(st, events, st') && Partitioned(st)
    ensures Partitioned(st')
    ensures Unbroken(st, events) && WakesUp(st) ==> WakesUp(st')
    decreases |events|
  {
    if events != [] {
      StepPartitioned(st, events[0]);
      if WakesUp(st) {
        StepWakesUp(st, events[0]);
      }
      RunKeeps(Step(st, events[0]), events[1..], st');
    }
    hide Step, Partitioned, WakesUp, Enabled;
  }

  lemma {:induction false} CountRange(n: nat, b: Buf)
    ensures CountIn(seq(n, i requires 0 <= i => i), b) == if b < n then 1 else 0
  {
    if n > 0 {
      CountRange(n - 1, b);
      assert seq(n, i requires 0 <= i => i) == seq(n - 1, i requires 0 <= i => i) + [n - 1];
      CountSnoc(seq(n - 1, i requires 0 <= i => i), n - 1, b);
    }
  }

  lemma InitialPartitioned()
    ensures Partitioned(Initial()) && WakesUp(Initial())
  {
    forall b: Buf
      ensures Places(Initial(), b) == if b < TX_URBS then 1 else 0
    {
      CountRange(TX_URBS, b);
    }
  }

  /**
   * Over every interleaving, each buffer is in exactly one place and the
   * counters are right; and unless one of the steps breaks it, as no step does
   * when no submission is refused, stopped queues mean that a wake-up is still to
   * come.
   */
  lemma AlwaysPartitioned(events: seq<Event>, st: State)
    requires Runs(Initial(), events, st)
    ensures Partitioned(st)
    ensures Unbroken(Initial(), events) ==> WakesUp(st)
    ensures NoRefusal(events) ==> Unbroken(Initial(), events)
  {
    if NoRefusal(events) {
      NoRefusalUnbroken(Initial(), events);
    }
    InitialPartitioned();
    RunKeeps(Initial(), events, st);
    hide Partitioned, WakesUp, Runs, Unbroken;
  }

  function Sum(q: seq<Buf>, n: nat): nat { if n == 0 then 0 else Sum(q, n - 1) + CountIn(q, n - 1) }

  lemma {:induction false} SumTail(q: seq<Buf>, n: nat)
    requires q != []
    ensures Sum(q, n) == Sum(q[1..], n) + if q[0] < n then 1 else 0
  {
    if n > 0 {
      SumTail(q, n - 1);
    }
  }

  lemma {:induction false} SumIsLength(q: seq<Buf>, n: nat)
    requires forall k :: 0 <= k < |q| ==> q[k] < n
    ensures Sum(q, n) == |q|
  {
    if q != [] {
      SumTail(q, n);
      SumIsLength(q[1..], n);
    } else {
      SumNone(q, n);
    }
  }

  lemma {:induction false} SumNone(q: seq<Buf>, n: nat)
    requires q == []
    ensures Sum(q, n) == 0
  {
    if n > 0 {
      SumNone(q, n - 1);
    }
  }

  lemma {:induction false} SumOnes(q: seq<Buf>, n: nat)
    requires forall b: Buf :: b < n ==> CountIn(q, b) == 1
    ensures Sum(q, n) == n
  {
    if n > 0 {
      SumOnes(q, n - 1);
    }
  }

  lemma {:induction false} Counted(q: seq<Buf>, k: nat)
    requires k < |q|
    ensures CountIn(q, q[k]) >= 1
  {
    if k > 0 {
      Counted(q[1..], k - 1);
    }
  }

  /** Nobody has a buffer and no completion has yet to look. */
  predicate Quiet(st: State) {
    st.post == [] && st.filling == {} && st.picked == {} && st.flight == {} && st.highPending == 0
  }

  lemma QuietIsFree(st: State)
    requires Partitioned(st) && Quiet(st)
    ensures |st.free| == TX_URBS
  {
    assert forall b: Buf :: Places(st, b) == CountIn(st.free, b);
    forall k | 0 <= k < |st.free|
      ensures st.free[k] < TX_URBS
    {
      Counted(st.free, k);
    }
    SumOnes(st.free, TX_URBS);
    SumIsLength(st.free, TX_URBS);
  }

  /** When everything that was sent has completed, all buffers are free and the queues are awake. */
  lemma QuietIsAwake(events: seq<Event>, st: State)
    requires Runs(Initial(), events, st) && Quiet(st)
    ensures |st.free| == TX_URBS
    ensures Unbroken(Initial(), events) ==> !st.tbusy
  {
    AlwaysPartitioned(events, st);
    QuietIsFree(st);
    hide Runs;
  }

  // ----- Checks ---------------------------------------------------------------------------------

  /** How many sends end, with a buffer posted or without one to take, and so have the low watermark to check. */
  function Sends(st: State, events: seq<Event>): nat
    decreases |events|
  {
    if events == [] || !Enabled(st, events[0]) then 0
    else
      (if events[0].Post? || (events[0].Take? && st.free == []) then 1 else 0) + Sends(Step(st, events[0]), events[1..])
  }

  function Tally(events: seq<Event>, what: Event -> bool): nat {
    if events == [] then 0 else (if what(events[0]) then 1 else 0) + Tally(events[1..], what)
  }

  /** Each send checks the low watermark once and each completion the high one: the checks still pending are the others. */
  lemma {:induction false} ChecksCounted(st: State, events: seq<Event>, st': State)
    requires Runs(st, events, st')
    ensures Tally(events, e => e == CheckLow) + st'.lowPending == st.lowPending + Sends(st, events)
    ensures Tally(events, e => e == CheckHigh) + st'.highPending == st.highPending + Tally(events, (e: Event) => e.Return?)
    decreases |events|
  {
    if events != [] {
      ChecksCounted(Step(st, events[0]), events[1..], st');
    }
  }

  // ----- Order ----------------------------------------------------------------------------------

  /** The buffers that the events put on the post list, in order. */
  function Posted(events: seq<Event>): seq<Buf> {
    if events == [] then [] else (if events[0].Post? then [events[0].filled] else []) + Posted(events[1..])
  }

  /** The buffers that the events submit, in order. */
  function Submitted(events: seq<Event>): seq<Buf> {
    if events == [] then [] else (if events[0].Submit? then [events[0].sent] else []) + Submitted(events[1..])
  }

  /** There is one transmit thread: it submits what it has picked before it picks again. */
  ghost predicate OneThread(st: State, events: seq<Event>)
    decreases |events|
  {
    events == [] ||
    (Enabled(st, events[0]) ==> (events[0].Pick? ==> st.picked == {}) && OneThread(Step(st, events[0]), events[1..]))
  }

  /** What the transmit thread has in hand, as a sequence. */
  ghost predicate InHand(st: State, hand: seq<Buf>) {
    (hand == [] && st.picked == {}) || (|hand| == 1 && st.picked == {hand[0]})
  }

  lemma {:induction false} RunIsFifo(st: State, events: seq<Event>, st': State, hand: seq<Buf>) returns (hand': seq<Buf>)
    requires Runs(st, events, st') && OneThread(st, events) && InHand(st, hand)
    ensures InHand(st', hand') && hand + st.post + Posted(events) == Submitted(events) + (hand' + st'.post)
    decreases |events|
  {
    hand' := hand;
    if events != [] {
      var e := events[0];
      var next := if e.Submit? then [] else if e.Pick? && st.post != [] then [st.post[0]] else hand;
      StepIsFifo(st, e, hand, next);
      hand' := RunIsFifo(Step(st, e), events[1..], st', next);
      var p, q := if e.Post? then [e.filled] else [], if e.Submit? then [e.sent] else [];
      Regroup(hand + st.post, p, Posted(events[1..]), q, next + Step(st, e).post, Submitted(events[1..]), hand' + st'.post);
    }
    hide Step, InHand;
  }

  lemma StepIsFifo(st: State, e: Event, hand: seq<Buf>, next: seq<Buf>)
    requires Enabled(st, e) && InHand(st, hand) && (e.Pick? ==> st.picked == {})
    requires next == if e.Submit? then [] else if e.Pick? && st.post != [] then [st.post[0]] else hand
    ensures InHand(Step(st, e), next)
    ensures var p, q := if e.Post? then [e.filled] else [], if e.Submit? then [e.sent] else [];
            hand + st.post + p == q + (next + Step(st, e).post)
  {
  }

  lemma Regroup(before: seq<Buf>, p: seq<Buf>, posted: seq<Buf>, q: seq<Buf>, mid: seq<Buf>, submitted: seq<Buf>, left: seq<Buf>)
    requires before + p == q + mid && mid + posted == submitted + left
    ensures before + (p + posted) == (q + submitted) + left
  {
    assert before + (p + posted) == (before + p) + posted == (q + mid) + posted == q + (mid + posted);
    assert q + (submitted + left) == (q + submitted) + left;
  }

  /** Over every interleaving with one transmit thread, frames are submitted in the order in which they were posted. */
  lemma SubmittedInOrder(events: seq<Event>, st: State)
    requires Runs(Initial(), events, st) && OneThread(Initial(), events)
    ensures Submitted(events) <= Posted(events)
    ensures st.picked == {} ==> Posted(events) == Submitted(events) + st.post
  {
    var hand := RunIsFifo(Initial(), events, st, []);
    assert [] + Initial().post + Posted(events) == Posted(events);
    assert st.picked == {} ==> hand + st.post == st.post;
    hide Runs, OneThread, Posted, Submitted;
  }

  // ----- Refused submissions lose it ---------------------------------------------------------

  /** k frames are sent, one after the other. */
  function Feed(k: nat): seq<Event> {
    if k == 0 then [] else Feed(k - 1) + [Take, Post(k - 1), CheckLow]
  }

  /** The transmit thread takes k buffers from the post list and every submission is refused. */
  function RefuseFrom(b: nat, k: nat): seq<Event>
    decreases k
  {
    if k == 0 then [] else [Pick, Submit(b, false)] + RefuseFrom(b + 1, k - 1)
  }

  lemma {:induction false} RunsAppend(st: State, a: seq<Event>, mid: State, b: seq<Event>, st': State)
    requires Runs(st, a, mid) && Runs(mid, b, st')
    ensures Runs(st, a + b, st')
    decreases |a|
  {
    if a == [] {
      assert a + b == b;
    } else {
      assert (a + b)[1..] == a[1..] + b;
      RunsAppend(Step(st, a[0]), a[1..], mid, b, st');
    }
    hide Step, Enabled;
  }

  function Range(lo: nat, hi: nat): (r: seq<Buf>)
    requires lo <= hi
    ensures |r| == hi - lo && forall i :: 0 <= i < hi - lo ==> r[i] == lo + i
  {
    seq(hi - lo, i requires 0 <= i => lo + i)
  }

  function Fed(k: nat): State
    requires k <= TX_URBS
  {
    State(Range(k, TX_URBS), TX_URBS - k, Range(0, k), k, k > TX_URBS - LOW_WATER, {}, {}, {}, 0, 0)
  }

  lemma {:induction false} FeedRuns(k: nat)
    requires k <= TX_URBS
    ensures Runs(Initial(), Feed(k), Fed(k))
  {
    if k == 0 {
      assert Initial() == Fed(0);
    } else {
      FeedRuns(k - 1);
      FeedOne(k - 1);
      RunsAppend(Initial(), Feed(k - 1), Fed(k - 1), [Take, Post(k - 1), CheckLow], Fed(k));
    }
    hide Step, Enabled, Fed, Initial;
  }

  lemma FeedOne(k: nat)
    requires k < TX_URBS
    ensures Runs(Fed(k), [Take, Post(k), CheckLow], Fed(k + 1))
  {
    var st1 := Step(Fed(k), Take);
    assert st1.free == Range(k + 1, TX_URBS) && st1.filling == {k};
    var st2 := Step(st1, Post(k));
    assert st2.post == Range(0, k + 1) && st2.filling == {};
    assert Step(st2, CheckLow) == Fed(k + 1);
    ThreeRun(Fed(k), Take, Post(k), CheckLow);
  }

  lemma ThreeRun(st: State, e1: Event, e2: Event, e3: Event)
    requires Enabled(st, e1) && Enabled(Step(st, e1), e2) && Enabled(Step(Step(st, e1), e2), e3)
    ensures Runs(st, [e1, e2, e3], Step(Step(Step(st, e1), e2), e3))
  {
    hide Step, Enabled;
    assert [e1, e2, e3][1..] == [e2, e3] && [e2, e3][1..] == [e3] && [e3][1..] == [];
    var st2 := Step(Step(st, e1), e2);
    assert Runs(st2, [e3], Step(st2, e3));
    assert Runs(Step(st, e1), [e2, e3], Step(st2, e3));
  }

  /** What is left of a stopped queue while its submissions are refused. */
  predicate Refusing(st: State, b: nat, k: nat) {
    st.tbusy && st.post == Range(b, b + k) && st.filling == st.picked == st.flight == {} && st.lowPending == st.highPending == 0
  }

  lemma {:induction false} RefusalsRun(st: State, b: nat, k: nat) returns (st': State)
    requires Refusing(st, b, k)
    ensures Runs(st, RefuseFrom(b, k), st') && st'.tbusy && Quiet(st')
    decreases k
  {
    if k == 0 {
      st' := st;
    } else {
      var st1 := Step(st, Pick);
      assert st1.picked == {b};
      var st2 := Step(st1, Submit(b, false));
      assert st2.picked == {} && st2.post == Range(b + 1, b + k);
      st' := RefusalsRun(st2, b + 1, k - 1);
      var events := RefuseFrom(b, k);
      assert events[0] == Pick && events[1..][0] == Submit(b, false) && events[1..][1..] == RefuseFrom(b + 1, k - 1);
      assert Runs(st1, events[1..], st');
    }
  }

  /**
   * With refused submissions the wake-up can be lost for good: 151 frames are
   * sent and the queues stop; every submission is refused; now all buffers are
   * free, nothing is under way, and the queues are still stopped.
   */
  lemma RefusalsLoseWakeUp() returns (events: seq<Event>, st: State)
    ensures Runs(Initial(), events, st) && Quiet(st) && |st.free| == TX_URBS && st.tbusy
  {
    FeedRuns(151);
    st := RefusalsRun(Fed(151), 0, 151);
    events := Feed(151) + RefuseFrom(0, 151);
    hide Runs, Feed, RefuseFrom;
    RunsAppend(Initial(), Feed(151), Fed(151), RefuseFrom(0, 151), st);
    InitialPartitioned();
    RunKeeps(Initial(), events, st);
    QuietIsFree(st);
  }

  // ----- The lists and the flag ------------------------------------------------------------------

  class UsbDev {
    var txFreeList: seq<Buf>
    var txFreeCount: int
    var txPostList: seq<Buf>
    var txPostCount: int
    var tbusy: bool
    ghost var filling: set<Buf>
    ghost var picked: set<Buf>
    ghost var flight: set<Buf>
    ghost var lowPending: nat
    ghost var highPending: nat

    ghost function St(): State
      reads this
    {
      State(txFreeList, txFreeCount, txPostList, txPostCount, tbusy, filling, picked, flight, lowPending, highPending)
    }

    constructor ()
      ensures St() == Initial()
    {
      txFreeList, txFreeCount := [], 0;
      txPostList, txPostCount, tbusy := [], 0, false;
      filling, picked, flight, lowPending, highPending := {}, {}, {}, 0, 0;
      new;
      for i := 0 to TX_URBS
        invariant St() == Initial().(free := seq(i, k requires 0 <= k => k), freeCount := i)
      {
        txFreeList, txFreeCount := txFreeList + [i], txFreeCount + 1;
      }
    }

    /** aicwf_usb_bus_txdata up to the dequeue; without a buffer the frame is dropped. */
    method TxdataTake() returns (ok: bool, b: Buf)
      modifies this
      ensures St() == Step(old(St()), Take)
      ensures ok == (old(txFreeList) != []) && (ok ==> b == old(txFreeList)[0])
    {
      b := 0;
      ok := txFreeList != [];
      if ok {
        b := txFreeList[0];
        txFreeList, txFreeCount := txFreeList[1..], txFreeCount - 1;
        filling := filling + {b};
      } else {
        lowPending := lowPending + 1;
      }
    }

    method TxdataPost(b: Buf)
      requires b in filling
      modifies this
      ensures St() == Step(old(St()), Post(b))
    {
      txPostList, txPostCount := txPostList + [b], txPostCount + 1;
      filling, lowPending := filling - {b}, lowPending + 1;
    }

    method TxdataFlowCtrl()
      requires lowPending > 0
      modifies this
      ensures St() == Step(old(St()), CheckLow)
    {
      if txFreeCount < LOW_WATER {
        tbusy := true;
      }
      lowPending := lowPending - 1;
    }

    /** One turn of aicwf_usb_tx_process. */
    method TxProcessOne(submitOk: bool)
      requires txPostList != [] && txPostList[0] !in picked
      modifies this
      ensures St() == Step(Step(old(St()), Pick), Submit(old(txPostList)[0], submitOk))
    {
      var b := txPostList[0];
      txPostList, txPostCount := txPostList[1..], txPostCount - 1;
      picked := picked + {b};
      if submitOk {
        flight := flight + {b};
      } else {
        txFreeList, txFreeCount := txFreeList + [b], txFreeCount + 1;
      }
      picked := picked - {b};
    }

    method TxCompleteReturn(b: Buf)
      requires b in flight
      modifies this
      ensures St() == Step(old(St()), Return(b))
    {
      txFreeList, txFreeCount := txFreeList + [b], txFreeCount + 1;
      flight, highPending := flight - {b}, highPending + 1;
    }

    method TxCompleteFlowCtrl()
      requires highPending > 0
      modifies this
      ensures St() == Step(old(St()), CheckHigh)
    {
      if txFreeCount > HIGH_WATER {
        if tbusy {
          tbusy := false;
        }
      }
      highPending := highPending - 1;
    }
  }
}
