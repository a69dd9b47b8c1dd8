// When aicwf_tcp_ack.c lets an ACK through. What the calls of one flow answer
// is written down as a trace, and the answers are tied to the trace alone: to
// the numbers offered, the pushes, and which messages have gone out.

module TcpAckPace {
  import opened Common
  import opened TcpAck

  // ----- What is seen from outside ---------------------------------------------------

  /**
   * One call as its caller sees it: an ACK with the filter's answer and what it
   * dropped, a pushed segment, the timer with what it sent, a message sent off.
   */
  datatype Seen =
    | Offered(msg: Msg, seqNo: u32, now: int, passed: bool, dropped: Option<Msg>)
    | Pushed(number: u32)
    | Fired(sent: Option<Msg>)
    | Finished(done: Msg)

  function Front(t: seq<Seen>): (f: seq<Seen>)
    requires t != []
    ensures |f| == |t| - 1
  {
    t[..|t| - 1]
  }

  function Last(t: seq<Seen>): Seen
    requires t != []
  {
    t[|t| - 1]
  }

  // Each of the following starts from the slot s when nothing has been seen.

  /** The highest number offered, in the signed order. */
  function Latest(s: Slot, t: seq<Seen>): u32 {
    if t == [] then s.seqNo
    else if Last(t).Offered? && Before(Latest(s, Front(t)), Last(t).seqNo) then Last(t).seqNo
    else Latest(s, Front(t))
  }

  /** Whether the trace ends with an ACK that is not older than those before it. */
  predicate InOrder(s: Slot, t: seq<Seen>) {
    t != [] && Last(t).Offered? && Before(Latest(s, Front(t)), Last(t).seqNo)
  }

  /** The last pushed number that no ACK has gone past yet. */
  function Pending(s: Slot, t: seq<Seen>): Option<u32> {
    if t == [] then if s.pshFlag then Some(s.pshSeq) else None
    else if Last(t).Pushed? then Some(Last(t).number)
    else if InOrder(s, t) && Past(Last(t).seqNo, Pending(s, Front(t))) then None
    else Pending(s, Front(t))
  }

  predicate Past(seqNo: u32, push: Option<u32>) { push.Some? && !Before(seqNo, push.value) }

  /** The message on its way to the device. */
  function InFlight(s: Slot, t: seq<Seen>): Option<Msg> {
    if t == [] then s.inSendMsg
    else
      match Last(t)
      case Offered(msg, _, _, passed, _) => if passed then Some(msg) else InFlight(s, Front(t))
      case Fired(sent) => if sent.Some? then sent else InFlight(s, Front(t))
      case Finished(done) => if InFlight(s, Front(t)) == Some(done) then None else InFlight(s, Front(t))
      case Pushed(_) => InFlight(s, Front(t))
  }

  /** The message held back: the last ACK in order, unless it or a later one has gone out. */
  function Kept(s: Slot, t: seq<Seen>): Option<Msg> {
    if t == [] then s.msgbuf
    else if Last(t).Offered? && Last(t).passed then None
    else if Last(t).Fired? && Last(t).sent.Some? then None
    else if InOrder(s, t) then Some(Last(t).msg)
    else Kept(s, Front(t))
  }

  /** How many ACKs in order have been held back since the last message went out. */
  function Since(s: Slot, t: seq<Seen>): int {
    if t == [] then s.dropCnt
    else if Last(t).Offered? && Last(t).passed then 0
    else if Last(t).Fired? && Last(t).sent.Some? then 0
    else if InOrder(s, t) then Since(s, Front(t)) + 1
    else Since(s, Front(t))
  }

  /** When the flow was last heard of. */
  function Heard(s: Slot, t: seq<Seen>): int {
    if t == [] then s.lastTime else if Last(t).Offered? then Last(t).now else Heard(s, Front(t))
  }

  /**
   * An ACK is let through exactly if it is in order and either goes past a
   * pushed number, or nothing is in flight and it is at least the tenth since
   * the last message went out. An ACK in order displaces the one held back, any
   * other is dropped itself. The timer sends the one held back exactly if
   * nothing is in flight.
   */
  predicate Obeys(s: Slot, t: seq<Seen>, e: Seen) {
    match e
    case Offered(msg, seqNo, _, passed, dropped) =>
      && (passed <==>
           && Before(Latest(s, t), seqNo)
           && (Past(seqNo, Pending(s, t)) || (InFlight(s, t).None? && Since(s, t) + 1 >= TCP_ACK_DROP_CNT)))
      && dropped == if Before(Latest(s, t), seqNo) then Kept(s, t) else Some(msg)
    case Fired(sent) => sent == if InFlight(s, t).None? then Kept(s, t) else None
    case _ => true
  }

  ghost predicate Lawful(s: Slot, t: seq<Seen>) {
    forall k :: 0 <= k < |t| ==> ObeysAt(s, t, k)
  }

  predicate ObeysAt(s: Slot, t: seq<Seen>, k: nat)
    requires k < |t|
  {
    Obeys(s, t[..k], t[k])
  }

  // ----- The calls of one flow ---------------------------------------------------------

  /** What one call shows of the flow that slot i serves. */
  ghost function View(st: State, e: Event, i: nat): (v: seq<Seen>)
    requires Booked(st) && i < TCP_ACK_NUM
    ensures |v| <= 1
  {
    match e
    case Send(msg, ack, now) =>
      var r := FilterSend(st, msg, ack, now);
      if ack.Ack? && ack.flow == st.slots[i].flow then [Offered(msg, ack.seqNo, now, !r.filtered, r.dropped)] else []
    case Receive(flow, pushSeq) => if flow == st.slots[i].flow then [Pushed(pushSeq)] else []
    case Timer(j) => if j == i then [Fired(if TimerSends(st.slots[i]) then st.slots[i].msgbuf else None)] else []
    case Done(sent) => [Finished(sent)]
    case Shutdown => []
  }

  /** The flow keeps its slot: it is not given up when the table is aged, and filtering goes on. */
  ghost predicate Stays(st: State, e: Event, i: nat)
    requires Booked(st) && i < TCP_ACK_NUM
  {
    st.enable && st.slots[i].busy && !e.Shutdown? && (e.Send? ==> Age(st, e.now).slots[i].busy)
  }

  ghost predicate StaysOn(st: State, events: seq<Event>, i: nat)
    requires Booked(st) && i < TCP_ACK_NUM
    decreases |events|
  {
    if events == [] then st.enable && st.slots[i].busy
    else
      Stays(st, events[0], i) && (StepBooked(st, events[0]); StaysOn(After(st, events[0]), events[1..], i))
  }

  ghost function Trace(st: State, events: seq<Event>, i: nat): seq<Seen>
    requires Booked(st) && i < TCP_ACK_NUM
    decreases |events|
  {
    if events == [] then []
    else
      StepBooked(st, events[0]);
      View(st, events[0], i) + Trace(After(st, events[0]), events[1..], i)
  }

  ghost function EndOf(st: State, events: seq<Event>): (r: State)
    requires Booked(st)
    ensures Booked(r)
    decreases |events|
  {
    if events == [] then st
    else
      StepBooked(st, events[0]);
      EndOf(After(st, events[0]), events[1..])
  }

  lemma StepBooked(st: State, e: Event)
    requires Booked(st)
    ensures Booked(After(st, e))
  {
    var l := Ledger(0, Held(st.slots, 0), 0, 0, 0);
    StepInv(st, l, e);
    hide *;
  }

  // ----- The slot and the trace agree ------------------------------------------------

  /** The slot holds what the trace tells. */
  predicate Tells(s: Slot, t: seq<Seen>, now: Slot) {
    && now.busy && now.flow == s.flow && now.seqNo == Latest(s, t) && now.lastTime == Heard(s, t)
    && Pending(s, t) == (if now.pshFlag then Some(now.pshSeq) else None)
    && now.inSendMsg == InFlight(s, t) && now.msgbuf == Kept(s, t) && now.dropCnt == Since(s, t)
  }

  lemma LastOf(t: seq<Seen>, e: Seen)
    ensures Front(t + [e]) == t && Last(t + [e]) == e
  {
  }

  lemma OfferedTells(s: Slot, t: seq<Seen>, was: Slot, msg: Msg, seqNo: u32, now: int)
    requires Tells(s, t, was)
    ensures var h := Handle(was, msg, seqNo, now);
            var e := Offered(msg, seqNo, now, !h.filtered, h.dropped);
            Obeys(s, t, e) && Tells(s, t + [e], h.slot)
  {
    hide Before;
    var h := Handle(was, msg, seqNo, now);
    LastOf(t, Offered(msg, seqNo, now, !h.filtered, h.dropped));
  }

  lemma PushedTells(s: Slot, t: seq<Seen>, was: Slot, number: u32)
    requires Tells(s, t, was)
    ensures Tells(s, t + [Pushed(number)], was.(pshFlag := true, pshSeq := number))
  {
    hide Before;
    LastOf(t, Pushed(number));
  }

  lemma FiredTells(s: Slot, t: seq<Seen>, st: State, i: nat)
    requires i < |st.slots| && Tells(s, t, st.slots[i])
    ensures var e := Fired(if TimerSends(st.slots[i]) then st.slots[i].msgbuf else None);
            Obeys(s, t, e) && Tells(s, t + [e], Timeout(st, i).slots[i])
  {
    hide Before;
    LastOf(t, Fired(if TimerSends(st.slots[i]) then st.slots[i].msgbuf else None));
  }

  lemma FinishedTells(s: Slot, t: seq<Seen>, was: Slot, msg: Msg)
    requires Tells(s, t, was)
    ensures Tells(s, t + [Finished(msg)], SendDone(was, msg))
  {
    hide Before;
    LastOf(t, Finished(msg));
  }

  /** In a booked table the search finds the one slot that serves the flow. */
  lemma OnlyMatch(st: State, i: nat, f: Flow)
    requires Booked(st) && i < TCP_ACK_NUM && st.slots[i].busy
    ensures Match(st.slots, f, 0) == i <==> st.slots[i].flow == f
  {
    assert st.slots[i].flow == f ==> st.slots[i].Serves(f);
    hide Busy;
  }

  ghost predicate KeepsTelling(s: Slot, t: seq<Seen>, st: State, e: Event, i: nat)
    requires Booked(st) && i < TCP_ACK_NUM
  {
    var v := View(st, e, i);
    (v != [] ==> Obeys(s, t, v[0])) && Tells(s, t + v, After(st, e).slots[i])
  }

  lemma SendTells(s: Slot, t: seq<Seen>, st: State, e: Event, i: nat)
    requires Booked(st) && i < TCP_ACK_NUM && e.Send? && Stays(st, e, i) && Tells(s, t, st.slots[i])
    ensures KeepsTelling(s, t, st, e, i)
  {
    var a := Age(st, e.now);
    assert a.slots[i] == st.slots[i] && a.enable;
    AgeBooked(st, e.now);
    AllocSucceeds(a);
    if e.ack.Ack? {
      OnlyMatch(a, i, e.ack.flow);
      if e.ack.flow == st.slots[i].flow {
        var was := if e.ack.winScale != 0 then a.slots[i].(winScale := e.ack.winScale) else a.slots[i];
        OfferedTells(s, t, was, e.msg, e.ack.seqNo, e.now);
      }
    }
    assert t + [] == t;
    hide Age, Booked, Handle, Tells, Obeys, Match, AllocIndex;
  }

  lemma ReceiveTells(s: Slot, t: seq<Seen>, st: State, e: Event, i: nat)
    requires Booked(st) && i < TCP_ACK_NUM && e.Receive? && Stays(st, e, i) && Tells(s, t, st.slots[i])
    ensures KeepsTelling(s, t, st, e, i)
  {
    assert t + [] == t;
    OnlyMatch(st, i, e.flow);
    PushedTells(s, t, st.slots[i], e.pushSeq);
    hide Booked, Tells, Obeys, Match;
  }

  lemma TimerTells(s: Slot, t: seq<Seen>, st: State, e: Event, i: nat)
    requires Booked(st) && i < TCP_ACK_NUM && e.Timer? && Stays(st, e, i) && Tells(s, t, st.slots[i])
    ensures KeepsTelling(s, t, st, e, i)
  {
    assert |st.slots| == TCP_ACK_NUM;
    assert t + [] == t;
    FiredTells(s, t, st, i);
    hide Booked, Tells, Obeys, FilterSend;
  }

  lemma DoneTells(s: Slot, t: seq<Seen>, st: State, e: Event, i: nat)
    requires Booked(st) && i < TCP_ACK_NUM && e.Done? && Stays(st, e, i) && Tells(s, t, st.slots[i])
    ensures KeepsTelling(s, t, st, e, i)
  {
    assert |st.slots| == TCP_ACK_NUM;
    FinishedTells(s, t, st.slots[i], e.sent);
    hide Booked, Tells, Obeys, FilterSend, SendDone;
  }

  lemma StepTells(s: Slot, t: seq<Seen>, st: State, e: Event, i: nat)
    requires Booked(st) && i < TCP_ACK_NUM && Stays(st, e, i) && Tells(s, t, st.slots[i])
    ensures KeepsTelling(s, t, st, e, i)
  {
    assert |st.slots| == TCP_ACK_NUM && !e.Shutdown?;
    hide *;
    match e
    case Send(_, _, _) => SendTells(s, t, st, e, i);
    case Receive(_, _) => ReceiveTells(s, t, st, e, i);
    case Timer(_) => TimerTells(s, t, st, e, i);
    case Done(_) => DoneTells(s, t, st, e, i);
  }

  lemma {:induction false} PaceFrom(s: Slot, t: seq<Seen>, st: State, events: seq<Event>, i: nat)
    requires Booked(st) && i < TCP_ACK_NUM && StaysOn(st, events, i) && Tells(s, t, st.slots[i]) && Lawful(s, t)
    ensures Lawful(s, t + Trace(st, events, i)) && Tells(s, t + Trace(st, events, i), EndOf(st, events).slots[i])
    decreases |events|
  {
    assert |st.slots| == TCP_ACK_NUM && st.freeIndex < TCP_ACK_NUM;
    hide Booked, Tells, Obeys, View, After, Stays, Age, FilterSend, TimerSends, Lawful;
    if events == [] {
      assert t + Trace(st, events, i) == t;
    } else {
      var e := events[0];
      var v := View(st, e, i);
      StepTells(s, t, st, e, i);
      StepBooked(st, e);
      LawfulStep(s, t, v);
      PaceFrom(s, t + v, After(st, e), events[1..], i);
      Associate(t, v, Trace(After(st, e), events[1..], i));
    }
  }

  lemma Associate(a: seq<Seen>, b: seq<Seen>, c: seq<Seen>)
    ensures a + (b + c) == (a + b) + c
  {
  }

  lemma LawfulStep(s: Slot, t: seq<Seen>, v: seq<Seen>)
    requires Lawful(s, t) && |v| <= 1 && (v != [] ==> Obeys(s, t, v[0]))
    ensures Lawful(s, t + v)
  {
    hide Obeys;
    forall k | 0 <= k < |t + v|
      ensures ObeysAt(s, t + v, k)
    {
      if k < |t| {
        assert (t + v)[..k] == t[..k];
        assert ObeysAt(s, t, k);
      } else {
        assert (t + v)[..k] == t;
      }
    }
  }

  /**
   * As long as a flow keeps its slot, whatever other calls come in between,
   * every answer it gets obeys the law; and the slot ends up holding exactly
   * what the trace tells.
   */
  lemma Pace(st: State, events: seq<Event>, i: nat)
    requires Booked(st) && i < TCP_ACK_NUM && StaysOn(st, events, i)
    ensures Lawful(st.slots[i], Trace(st, events, i))
    ensures Tells(st.slots[i], Trace(st, events, i), EndOf(st, events).slots[i])
  {
    PaceFrom(st.slots[i], [], st, events, i);
    assert [] + Trace(st, events, i) == Trace(st, events, i);
  }

  // ----- Pushes ----------------------------------------------------------------------

  /** The answer to an ACK whose flow keeps its slot is that of its slot. */
  lemma Answered(st: State, msg: Msg, f: Flow, seqNo: u32, winScale: int, now: int, i: nat)
    requires Booked(st) && st.enable && i < TCP_ACK_NUM && st.slots[i].busy && st.slots[i].flow == f
    requires Age(st, now).slots[i].busy
    ensures var r := FilterSend(st, msg, Ack(f, seqNo, winScale), now);
            var s := if winScale != 0 then st.slots[i].(winScale := winScale) else st.slots[i];
            r.st.slots[i] == Handle(s, msg, seqNo, now).slot && r.filtered == Handle(s, msg, seqNo, now).filtered
            && r.dropped == Handle(s, msg, seqNo, now).dropped
  {
    var a := Age(st, now);
    assert a.slots[i] == st.slots[i] && a.enable;
    AgeBooked(st, now);
    OnlyMatch(a, i, f);
    hide Age, Booked, Match, Handle, AllocIndex;
  }

  /**
   * The ACK that goes past a pushed number is let through at once, whatever is
   * in flight and however few came before it; the one held back is dropped.
   */
  lemma PushAnswered(st: State, f: Flow, p: u32, msg: Msg, seqNo: u32, winScale: int, now: int, i: nat)
    requires Booked(st) && st.enable && i < TCP_ACK_NUM && st.slots[i].busy && st.slots[i].flow == f
    requires Age(st, now).slots[i].busy
    requires Before(st.slots[i].seqNo, seqNo) && !Before(seqNo, p)
    ensures var r := FilterSend(FilterRx(st, f, p), msg, Ack(f, seqNo, winScale), now);
            && !r.filtered && r.dropped == st.slots[i].msgbuf
            && r.st.slots[i].msgbuf.None? && r.st.slots[i].inSendMsg == Some(msg) && !r.st.slots[i].pshFlag
  {
    hide Before;
    PushNoted(st, f, p, now, i);
    Answered(FilterRx(st, f, p), msg, f, seqNo, winScale, now, i);
    hide FilterSend, FilterRx, Booked, Age;
  }

  lemma PushNoted(st: State, f: Flow, p: u32, now: int, i: nat)
    requires Booked(st) && st.enable && i < TCP_ACK_NUM && st.slots[i].busy && st.slots[i].flow == f
    ensures var b := FilterRx(st, f, p);
            && Booked(b) && b.enable && b.slots[i] == st.slots[i].(pshFlag := true, pshSeq := p)
            && Age(b, now).slots[i].busy == Age(st, now).slots[i].busy
  {
    OnlyMatch(st, i, f);
    SameFlowsBooked(st, FilterRx(st, f, p));
    GivenUpIff(st, now, i);
    GivenUpIff(FilterRx(st, f, p), now, i);
    hide Booked, Match, Age, LongAgo;
  }

  // ----- Bursts ------------------------------------------------------------------------

  /** ACKs with rising numbers and nothing else. */
  ghost predicate Burst(s: Slot, t: seq<Seen>) {
    forall k :: 0 <= k < |t| ==> NextAck(s, t, k)
  }

  predicate NextAck(s: Slot, t: seq<Seen>, k: nat)
    requires k < |t|
  {
    InOrder(s, t[..k + 1])
  }

  lemma {:induction false} BurstSoFar(s: Slot, t: seq<Seen>, k: nat)
    requires Burst(s, t) && Lawful(s, t) && k <= |t|
    requires !s.pshFlag && s.inSendMsg.None? && s.dropCnt == 0
    ensures Pending(s, t[..k]).None?
    ensures k < TCP_ACK_DROP_CNT ==> InFlight(s, t[..k]).None? && Since(s, t[..k]) == k
    ensures k >= TCP_ACK_DROP_CNT ==> InFlight(s, t[..k]).Some?
  {
    hide Before;
    if k == 0 {
      assert t[..0] == [];
    } else {
      BurstSoFar(s, t, k - 1);
      assert Front(t[..k]) == t[..k - 1] && Last(t[..k]) == t[k - 1];
      assert NextAck(s, t, k - 1) && ObeysAt(s, t, k - 1);
    }
  }

  /** With nothing held back or in flight before, of a burst exactly the tenth ACK is let through. */
  lemma TenthOfBurst(s: Slot, t: seq<Seen>, k: nat)
    requires Burst(s, t) && Lawful(s, t) && k < |t|
    requires !s.pshFlag && s.inSendMsg.None? && s.dropCnt == 0
    ensures t[k].Offered? && (t[k].passed <==> k == TCP_ACK_DROP_CNT - 1)
  {
    BurstSoFar(s, t, k);
    assert NextAck(s, t, k) && ObeysAt(s, t, k);
    assert Front(t[..k + 1]) == t[..k] && Last(t[..k + 1]) == t[k];
    hide Since, InFlight, Pending, Latest, Kept, Before;
  }

  /** So of the calls of one flow, when only ACKs with rising numbers are offered: the tenth goes out. */
  lemma BurstOfCalls(st: State, events: seq<Event>, i: nat, k: nat)
    requires Booked(st) && i < TCP_ACK_NUM && StaysOn(st, events, i) && k < |Trace(st, events, i)|
    requires Burst(st.slots[i], Trace(st, events, i))
    requires !st.slots[i].pshFlag && st.slots[i].inSendMsg.None? && st.slots[i].dropCnt == 0
    ensures var e := Trace(st, events, i)[k]; e.Offered? && (e.passed <==> k == TCP_ACK_DROP_CNT - 1)
  {
    Pace(st, events, i);
    TenthOfBurst(st.slots[i], Trace(st, events, i), k);
    hide *;
  }

  // ----- Outside the law -----------------------------------------------------------------

  /** Only an ACK of a flow that has a slot, in a table that filters, is ever held back or displaces another. */
  lemma UnservedPass(st: State, msg: Msg, ack: Checked, now: int)
    requires Booked(st)
    requires ack.NotAnAck? || !st.enable || forall i :: 0 <= i < TCP_ACK_NUM && Age(st, now).slots[i].busy ==>
               Age(st, now).slots[i].flow != ack.flow
    ensures var r := FilterSend(st, msg, ack, now); !r.filtered && r.dropped.None?
  {
    if ack.Ack? {
      var i := Match(Age(st, now).slots, ack.flow, 0);
      assert i >= 0 ==> Age(st, now).slots[i].Serves(ack.flow);
    }
    hide Booked, Age, Handle, Match, AllocIndex;
  }

  /**
   * The first ACK of a flow opens its slot, if there is one, and the next one in
   * order is let through exactly if the slot is not sending for an earlier flow.
   */
  lemma OpenedThenPasses(st: State, msg: Msg, ack: Checked, now: int, next: Msg, seqNo: u32, later: int, i: nat)
    requires Booked(st) && st.enable && ack.Ack? && i < TCP_ACK_NUM
    requires !Age(st, now).slots[i].busy && FilterSend(st, msg, ack, now).st.slots[i].busy
    requires Age(FilterSend(st, msg, ack, now).st, later).slots[i].busy && Before(ack.seqNo, seqNo)
    ensures FilterSend(st, msg, ack, now).st.slots[i].flow == ack.flow && !FilterSend(st, msg, ack, now).filtered
    ensures FilterSend(FilterSend(st, msg, ack, now).st, next, Ack(ack.flow, seqNo, 0), later).filtered
            <==> Age(st, now).slots[i].inSendMsg.Some?
  {
    FirstOpens(st, msg, ack, now, i);
    FilterSendBooked(st, msg, ack, now);
    var b := FilterSend(st, msg, ack, now).st;
    Answered(b, next, ack.flow, seqNo, 0, later, i);
    hide Age, Booked, FilterSend, Before;
  }

  lemma FirstOpens(st: State, msg: Msg, ack: Checked, now: int, i: nat)
    requires Booked(st) && ack.Ack? && i < TCP_ACK_NUM
    requires !Age(st, now).slots[i].busy && FilterSend(st, msg, ack, now).st.slots[i].busy
    ensures var r, was := FilterSend(st, msg, ack, now), Age(st, now).slots[i];
            var s := r.st.slots[i];
            && r.st.enable == st.enable && !r.filtered && r.dropped.None?
            && s.flow == ack.flow && s.seqNo == ack.seqNo && s.lastTime == now && !s.pshFlag
            && s.dropCnt == TCP_ACK_DROP_CNT && s.inSendMsg == was.inSendMsg && s.msgbuf == was.msgbuf
  {
    AgeBooked(st, now);
    AllocSucceeds(Age(st, now));
    assert Age(st, now).enable == st.enable;
    hide Age, Booked, Match, AllocIndex, Handle;
  }

  /** A slot that has been given up is left alone by the timer, the receive filter and finished messages. */
  lemma GivenUpRests(st: State, e: Event, i: nat)
    requires Booked(st) && i < TCP_ACK_NUM && !st.slots[i].busy && (e.Timer? || e.Receive? || e.Done?)
    ensures After(st, e).slots[i] == st.slots[i]
  {
    if e.Receive? {
      var j := Match(st.slots, e.flow, 0);
      assert j >= 0 ==> st.slots[j].Serves(e.flow);
    }
    hide Booked, Match;
  }

  // ----- Ageing --------------------------------------------------------------------------

  /** Jiffies from one reading of the clock to a later one, across its wrap. */
  function Elapsed(since: int, now: int): int { (now - since) % LONG_RANGE }

  /** More than the ageing time ago, as far as half the clock's range can tell. */
  predicate LongAgo(since: int, now: int) {
    ACK_OLD_TIME < Elapsed(since, now) <= ACK_OLD_TIME + LONG_RANGE / 2
  }

  lemma TimeAfterIs(since: int, now: int)
    ensures TimeAfter(now, since + ACK_OLD_TIME) <==> LongAgo(since, now)
  {
    var e, q := Elapsed(since, now), (now - since) / LONG_RANGE;
    assert since + ACK_OLD_TIME - now == ACK_OLD_TIME - e - LONG_RANGE * q;
    assert (since + ACK_OLD_TIME - now) % LONG_RANGE == (ACK_OLD_TIME - e) % LONG_RANGE;
  }

  /**
   * A slot is given up exactly when neither the table has been aged nor the flow
   * heard of within the ageing time; it keeps all else it has, and so do the others.
   */
  lemma GivenUpIff(st: State, now: int, i: nat)
    requires i < |st.slots|
    ensures var a := Age(st, now);
            && |a.slots| == |st.slots| && a.enable == st.enable
            && a.slots[i] == st.slots[i].(busy := a.slots[i].busy)
            && (a.slots[i].busy <==> st.slots[i].busy && !(LongAgo(st.lastTime, now) && LongAgo(st.slots[i].lastTime, now)))
            && a.lastTime == if LongAgo(st.lastTime, now) then now else st.lastTime
  {
    TimeAfterIs(st.lastTime, now);
    TimeAfterIs(st.slots[i].lastTime, now);
    hide TimeAfter, LongAgo;
  }

  /** So a flow that keeps its slot until then gives it up exactly when it has not been heard of for that long. */
  lemma SilentFlowLeaves(st: State, events: seq<Event>, i: nat, now: int)
    requires Booked(st) && i < TCP_ACK_NUM && StaysOn(st, events, i)
    ensures var end := EndOf(st, events);
            Age(end, now).slots[i].busy <==>
              !(LongAgo(end.lastTime, now) && LongAgo(Heard(st.slots[i], Trace(st, events, i)), now))
  {
    Pace(st, events, i);
    GivenUpIff(EndOf(st, events), now, i);
    hide Age, LongAgo, EndOf, Trace, Lawful, StaysOn, Heard, Latest, Pending, InFlight, Kept, Since;
  }

  /** Once the filter has been shut down it holds nothing and lets everything through. */
  lemma ShutdownPasses(st: State, msg: Msg, ack: Checked, now: int, i: nat)
    requires Booked(st) && i < TCP_ACK_NUM
    ensures var d := Deinit(st);
            && Booked(d) && !d.enable && d.slots[i].msgbuf.None?
            && !FilterSend(d, msg, ack, now).filtered && FilterSend(d, msg, ack, now).dropped.None?
  {
    var d := Deinit(st);
    SameFlowsBooked(st, d);
    UnservedPass(d, msg, ack, now);
    hide Booked, FilterSend;
  }
}
