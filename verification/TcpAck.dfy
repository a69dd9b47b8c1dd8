// The TCP ACK coalescer of aicwf_tcp_ack.c: a table of 32 flows, each with at
// most one ACK held back. This file says what every call does to the table and
// what whole runs of calls keep of slots and messages; TcpAckPace.dfy says when
// an ACK is let through, TcpAckCover.dfy follows the numbers of the ACKs, and
// TcpAckTable.dfy holds the table.

module TcpAck {
  import opened Common

  const TCP_ACK_NUM := 32
  const TCP_ACK_DROP_CNT := 10
  const ACK_OLD_TIME := 400                      // 4000 ms in jiffies at HZ = 100
  const LONG_RANGE := 0x1_0000_0000_0000_0000
  const TWO_31 := 0x8000_0000

  type Msg(==, !new) = nat

  /** (s32)(a - b) <= 0 */
  predicate Before(a: u32, b: u32) {
    (a - b as int) % TWO_32 == 0 || (a - b as int) % TWO_32 >= TWO_31
  }

  /** time_after(a, b): (long)(b - a) < 0 */
  predicate TimeAfter(a: int, b: int) {
    (b - a) % LONG_RANGE >= LONG_RANGE / 2
  }

  datatype Flow = Flow(saddr: u32, daddr: u32, source: int, dest: int)

  datatype Slot = Slot(
    busy: bool, dropCnt: int, pshFlag: bool, pshSeq: u32, winScale: int, lastTime: int,
    msgbuf: Option<Msg>, inSendMsg: Option<Msg>, flow: Flow, seqNo: u32)
  {
    predicate Serves(f: Flow) { busy && flow == f }
    predicate Expired(now: int) { busy && TimeAfter(now, lastTime + ACK_OLD_TIME) }
  }

  datatype State = State(enable: bool, maxNum: int, freeIndex: int, lastTime: int, slots: seq<Slot>)

  /** What tcp_check_ack finds in a frame that is about to be sent. */
  datatype Checked = NotAnAck | Ack(flow: Flow, seqNo: u32, winScale: int)

  function Initial(now: int): (st: State)
    ensures |st.slots| == TCP_ACK_NUM && st.freeIndex == 0
  {
    State(true, 0, 0, now,
          seq(TCP_ACK_NUM, _ => Slot(false, 0, false, 0, 0, now, None, None, Flow(0, 0, 0, 0), 0)))
  }

  // ----- One call at a time ---------------------------------------------------

  /** The first slot from k on that serves the flow, or -1. */
  function Match(slots: seq<Slot>, f: Flow, k: nat): (i: int)
    requires k <= |slots|
    ensures -1 <= i < |slots|
    ensures i >= 0 ==> k <= i && slots[i].Serves(f) && forall j :: k <= j < i ==> !slots[j].Serves(f)
    ensures i < 0 ==> forall j :: k <= j < |slots| ==> !slots[j].Serves(f)
    decreases |slots| - k
  {
    if k == |slots| then -1 else if slots[k].Serves(f) then k else Match(slots, f, k + 1)
  }

  /** The first slot from k on that is not busy, or -1. */
  function FirstFree(slots: seq<Slot>, k: nat): (i: int)
    requires k <= |slots|
    ensures -1 <= i < |slots|
    ensures i >= 0 ==> k <= i && !slots[i].busy && forall j :: k <= j < i ==> slots[j].busy
    ensures i < 0 ==> forall j :: k <= j < |slots| ==> slots[j].busy
    decreases |slots| - k
  {
    if k == |slots| then -1 else if !slots[k].busy then k else FirstFree(slots, k + 1)
  }

  function FirstExpired(slots: seq<Slot>, now: int, k: nat): (i: int)
    requires k <= |slots|
    ensures -1 <= i < |slots|
    ensures i >= 0 ==> k <= i && slots[i].Expired(now) && forall j :: k <= j < i ==> !slots[j].Expired(now)
    ensures i < 0 ==> forall j :: k <= j < |slots| ==> !slots[j].Expired(now)
    decreases |slots| - k
  {
    if k == |slots| then -1 else if slots[k].Expired(now) then k else FirstExpired(slots, now, k + 1)
  }

  ghost function Busy(slots: seq<Slot>): set<int> {
    set i | 0 <= i < |slots| && slots[i].busy
  }

  function Aged(s: Slot, now: int): Slot {
    if s.Expired(now) then s.(busy := false) else s
  }

  function AgedSlots(slots: seq<Slot>, now: int): (r: seq<Slot>)
    ensures |r| == |slots|
  {
    seq(|slots|, i requires 0 <= i < |slots| => Aged(slots[i], now))
  }

  /** tcp_ack_update: at most once per ageing period, every expired flow gives up its slot. */
  ghost function Age(st: State, now: int): State {
    if !TimeAfter(now, st.lastTime + ACK_OLD_TIME) then st
    else
      var slots := AgedSlots(st.slots, now);
      var first := FirstExpired(st.slots, now, 0);
      State(st.enable, st.maxNum - |Busy(st.slots) - Busy(slots)|,
            if first >= 0 then first else st.freeIndex, now, slots)
  }

  /** The slot tcp_ack_alloc_index hands out, or -1. */
  function AllocIndex(st: State): int {
    if st.maxNum == TCP_ACK_NUM then -1
    else if st.freeIndex >= 0 then st.freeIndex
    else FirstFree(st.slots, 0)
  }

  datatype Handled = Handled(slot: Slot, filtered: bool, dropped: Option<Msg>)

  /** tcp_ack_handle_new: an ACK that is not older replaces the one held, an older one is dropped. */
  function Handle(s: Slot, msg: Msg, seqNo: u32, now: int): Handled {
    if !Before(s.seqNo, seqNo) then Handled(s.(lastTime := now), true, Some(msg))
    else
      var quick := s.pshFlag && !Before(seqNo, s.pshSeq);
      var count := if quick then s.dropCnt else s.dropCnt + 1;
      var psh := s.pshFlag && !quick;
      var send := quick || (s.inSendMsg.None? && count >= TCP_ACK_DROP_CNT);
      Handled(s.(lastTime := now, seqNo := seqNo, pshFlag := psh, dropCnt := if send then 0 else count,
                 inSendMsg := if send then Some(msg) else s.inSendMsg,
                 msgbuf := if send then None else Some(msg)),
              !send, s.msgbuf)
  }

  /** A slot given to a new flow; what it held and what it was sending is left in it. */
  function Opened(s: Slot, ack: Checked, now: int): Slot
    requires ack.Ack?
  {
    s.(busy := true, pshFlag := false, lastTime := now, dropCnt := TCP_ACK_DROP_CNT,
       winScale := if ack.winScale != 0 then ack.winScale else 1, flow := ack.flow, seqNo := ack.seqNo)
  }

  datatype Sent = Sent(st: State, filtered: bool, dropped: Option<Msg>)

  /** filter_send_tcp_ack: a filtered message is the filter's from now on, any other the caller's. */
  ghost function FilterSend(st: State, msg: Msg, ack: Checked, now: int): Sent
    requires |st.slots| == TCP_ACK_NUM && st.freeIndex < TCP_ACK_NUM
  {
    var a := Age(st, now);
    if ack.NotAnAck? then Sent(a, false, None)
    else
      var i := Match(a.slots, ack.flow, 0);
      if i >= 0 then
        var s := if ack.winScale != 0 then a.slots[i].(winScale := ack.winScale) else a.slots[i];
        if a.enable then
          var h := Handle(s, msg, ack.seqNo, now);
          Sent(a.(slots := a.slots[i := h.slot]), h.filtered, h.dropped)
        else Sent(a.(slots := a.slots[i := s]), false, None)
      else
        var j := AllocIndex(a);
        if j < 0 then Sent(a, false, None)
        else Sent(a.(slots := a.slots[j := Opened(a.slots[j], ack, now)], maxNum := a.maxNum + 1, freeIndex := -1), false, None)
  }

  /** filter_rx_tcp_ack for a pushed segment of the reverse direction. */
  function FilterRx(st: State, f: Flow, seqNo: u32): (r: State)
    ensures |r.slots| == |st.slots| && r.freeIndex == st.freeIndex
  {
    var i := Match(st.slots, f, 0);
    if st.enable && i >= 0 then st.(slots := st.slots[i := st.slots[i].(pshFlag := true, pshSeq := seqNo)]) else st
  }

  /** tcp_ack_timeout on one slot: the held message goes out unless one is on its way. */
  function TimerSends(s: Slot): bool { s.busy && s.msgbuf.Some? && s.inSendMsg.None? }

  function Timeout(st: State, i: nat): State
    requires i < |st.slots|
  {
    var s := st.slots[i];
    if TimerSends(s) then st.(slots := st.slots[i := s.(msgbuf := None, dropCnt := 0, inSendMsg := s.msgbuf)]) else st
  }

  function SendDone(s: Slot, msg: Msg): Slot {
    if s.busy && s.inSendMsg == Some(msg) then s.(inSendMsg := None) else s
  }

  /** move_tcpack_msg */
  function MoveMsg(st: State, msg: Msg): State {
    if !st.enable then st
    else st.(slots := seq(|st.slots|, i requires 0 <= i < |st.slots| => SendDone(st.slots[i], msg)))
  }

  /** tcp_ack_deinit drops whatever is held. */
  function Deinit(st: State): (r: State)
    ensures |r.slots| == |st.slots| && r.freeIndex == st.freeIndex
  {
    st.(enable := false, slots := seq(|st.slots|, i requires 0 <= i < |st.slots| => st.slots[i].(msgbuf := None)))
  }

  // ----- Bookkeeping ------------------------------------------------------------

  ghost predicate Booked(st: State) {
    && |st.slots| == TCP_ACK_NUM
    && st.maxNum == |Busy(st.slots)|
    && -1 <= st.freeIndex < TCP_ACK_NUM
    && (st.freeIndex >= 0 ==> !st.slots[st.freeIndex].busy)
    && (forall i, j :: 0 <= i < j < TCP_ACK_NUM && st.slots[i].busy && st.slots[j].busy ==> st.slots[i].flow != st.slots[j].flow)
  }

  lemma BusyUpdate(slots: seq<Slot>, i: nat, s: Slot)
    requires i < |slots|
    ensures Busy(slots[i := s]) == if s.busy then Busy(slots) + {i} else Busy(slots) - {i}
  {
  }

  lemma {:induction false} RangeSize(s: set<int>, n: nat)
    requires forall i :: i in s ==> 0 <= i < n
    ensures |s| <= n
    ensures |s| == n <==> forall i :: 0 <= i < n ==> i in s
  {
    if n > 0 {
      var t := s - {n - 1};
      RangeSize(t, n - 1);
      if n - 1 in s {
        assert s == t + {n - 1};
      } else {
        assert s == t;
      }
    } else {
      assert forall i :: i !in s;
    }
  }

  lemma SubsetSize(a: set<int>, b: set<int>)
    requires b <= a
    ensures |a| - |a - b| == |b|
  {
    assert a == b + (a - b);
  }

  lemma AgeBooked(st: State, now: int)
    requires Booked(st)
    ensures Booked(Age(st, now))
  {
    var slots := AgedSlots(st.slots, now);
    assert forall i :: 0 <= i < TCP_ACK_NUM ==> slots[i].flow == st.slots[i].flow && (slots[i].busy ==> st.slots[i].busy);
    SubsetSize(Busy(st.slots), Busy(slots));
    var first := FirstExpired(st.slots, now, 0);
    assert first >= 0 ==> !slots[first].busy;
    assert st.freeIndex >= 0 ==> !slots[st.freeIndex].busy;
    hide TimeAfter, Busy, AgedSlots, FirstExpired;
  }

  /** An index is refused exactly when all 32 slots are busy, so the scan always finds one when it is reached. */
  lemma AllocSucceeds(st: State)
    requires Booked(st)
    ensures AllocIndex(st) == -1 <==> forall i :: 0 <= i < TCP_ACK_NUM ==> st.slots[i].busy
    ensures AllocIndex(st) != -1 ==> 0 <= AllocIndex(st) < TCP_ACK_NUM && !st.slots[AllocIndex(st)].busy
  {
    RangeSize(Busy(st.slots), TCP_ACK_NUM);
    assert forall i :: 0 <= i < TCP_ACK_NUM ==> (i in Busy(st.slots) <==> st.slots[i].busy);
    if st.freeIndex >= 0 {
      assert st.freeIndex !in Busy(st.slots);
    }
  }

  lemma FilterSendBooked(st: State, msg: Msg, ack: Checked, now: int)
    requires Booked(st)
    ensures Booked(FilterSend(st, msg, ack, now).st)
  {
    AgeBooked(st, now);
    var a := Age(st, now);
    AllocSucceeds(a);
    assert |a.slots| == TCP_ACK_NUM;
    hide Age, Handle, Booked, AllocIndex;
    if ack.Ack? {
      var i, j := Match(a.slots, ack.flow, 0), AllocIndex(a);
      if i >= 0 {
        SameFlowBooked(a, i, FilterSend(st, msg, ack, now).st);
      } else if j >= 0 {
        OpenBooked(a, j, ack, now);
      }
    }
  }

  /** A flow that no busy slot serves gets a slot that is not busy. */
  lemma OpenBooked(a: State, j: nat, ack: Checked, now: int)
    requires Booked(a) && j < TCP_ACK_NUM && !a.slots[j].busy && ack.Ack? && Match(a.slots, ack.flow, 0) < 0
    ensures Booked(a.(slots := a.slots[j := Opened(a.slots[j], ack, now)], maxNum := a.maxNum + 1, freeIndex := -1))
  {
    BusyUpdate(a.slots, j, Opened(a.slots[j], ack, now));
    assert j !in Busy(a.slots);
    hide Busy, Match;
  }

  lemma SameFlowBooked(a: State, i: nat, b: State)
    requires Booked(a) && i < TCP_ACK_NUM && |b.slots| == TCP_ACK_NUM && b == a.(slots := a.slots[i := b.slots[i]])
    requires b.slots[i].busy == a.slots[i].busy && b.slots[i].flow == a.slots[i].flow
    ensures Booked(b)
  {
    BusyUpdate(a.slots, i, b.slots[i]);
    assert Busy(b.slots) == Busy(a.slots);
  }

  /** A call that leaves every busy bit, flow and the counters alone. */
  lemma SameFlowsBooked(a: State, b: State)
    requires Booked(a) && |b.slots| == TCP_ACK_NUM && b.maxNum == a.maxNum && b.freeIndex == a.freeIndex
    requires forall i :: 0 <= i < TCP_ACK_NUM ==> b.slots[i].busy == a.slots[i].busy && b.slots[i].flow == a.slots[i].flow
    ensures Booked(b)
  {
    assert Busy(b.slots) == Busy(a.slots);
  }

  // ----- Runs ---------------------------------------------------------------------

  datatype Event =
    | Send(msg: Msg, ack: Checked, now: int)
    | Receive(flow: Flow, pushSeq: u32)
    | Timer(slot: nat)
    | Done(sent: Msg)
    | Shutdown

  /** How often one message was offered and where it has gone. */
  datatype Ledger = Ledger(msg: Msg, offered: nat, returned: nat, timerSent: nat, dropped: nat)

  /** 1 if the option is the message. */
  function One(o: Option<Msg>, m: Msg): nat { if o == Some(m) then 1 else 0 }

  /** The number of slots that hold the message back. */
  function Held(slots: seq<Slot>, m: Msg): nat {
    if slots == [] then 0 else Held(slots[..|slots| - 1], m) + One(slots[|slots| - 1].msgbuf, m)
  }

  function NoLedger(m: Msg): Ledger { Ledger(m, 0, 0, 0, 0) }

  /** The table after one event. */
  ghost function After(st: State, e: Event): (r: State)
    requires |st.slots| == TCP_ACK_NUM && st.freeIndex < TCP_ACK_NUM
    ensures |r.slots| == TCP_ACK_NUM
  {
    match e
    case Send(msg, ack, now) => FilterSend(st, msg, ack, now).st
    case Receive(flow, pushSeq) => FilterRx(st, flow, pushSeq)
    case Timer(i) => if i < TCP_ACK_NUM then Timeout(st, i) else st
    case Done(sent) => MoveMsg(st, sent)
    case Shutdown => Deinit(st)
  }

  /** And the ledger of a message. */
  ghost function Account(st: State, l: Ledger, e: Event): Ledger
    requires |st.slots| == TCP_ACK_NUM && st.freeIndex < TCP_ACK_NUM
  {
    match e
    case Send(msg, ack, now) =>
      var r := FilterSend(st, msg, ack, now);
      l.(offered := l.offered + One(Some(msg), l.msg),
         returned := l.returned + (if r.filtered then 0 else One(Some(msg), l.msg)),
         dropped := l.dropped + One(r.dropped, l.msg))
    case Timer(i) =>
      if i < TCP_ACK_NUM && TimerSends(st.slots[i]) then l.(timerSent := l.timerSent + One(st.slots[i].msgbuf, l.msg)) else l
    case Shutdown => l.(dropped := l.dropped + Held(st.slots, l.msg))
    case _ => l
  }

  // ----- Every message is in one place ------------------------------------------------

  ghost predicate Conserved(st: State, l: Ledger) {
    l.offered == l.returned + l.timerSent + l.dropped + Held(st.slots, l.msg)
  }

  lemma {:induction false} HeldUpdate(slots: seq<Slot>, i: nat, s: Slot, m: Msg)
    requires i < |slots|
    ensures Held(slots[i := s], m) + One(slots[i].msgbuf, m) == Held(slots, m) + One(s.msgbuf, m)
  {
    var n := |slots| - 1;
    if i < n {
      assert slots[i := s][..n] == slots[..n][i := s];
      HeldUpdate(slots[..n], i, s, m);
    } else {
      assert slots[i := s][..n] == slots[..n];
    }
  }

  lemma {:induction false} HeldSame(a: seq<Slot>, b: seq<Slot>, m: Msg)
    requires |a| == |b| && forall i :: 0 <= i < |a| ==> a[i].msgbuf == b[i].msgbuf
    ensures Held(a, m) == Held(b, m)
  {
    if a != [] {
      HeldSame(a[..|a| - 1], b[..|b| - 1], m);
    }
  }

  lemma {:induction false} HeldNone(a: seq<Slot>, m: Msg)
    requires forall i :: 0 <= i < |a| ==> a[i].msgbuf.None?
    ensures Held(a, m) == 0
  {
    if a != [] {
      HeldNone(a[..|a| - 1], m);
    }
  }

  /** Of the message offered and the message held, tcp_ack_handle_new returns, drops or holds each. */
  lemma HandleMoves(s: Slot, msg: Msg, seqNo: u32, now: int, m: Msg)
    ensures var h := Handle(s, msg, seqNo, now);
            One(h.slot.msgbuf, m) + One(h.dropped, m) + (if h.filtered then 0 else One(Some(msg), m))
            == One(s.msgbuf, m) + One(Some(msg), m)
  {
    hide Before;
  }

  /** The message offered and the messages held before are afterwards returned, dropped or held. */
  lemma FilterSendMoves(st: State, msg: Msg, ack: Checked, now: int, m: Msg)
    requires Booked(st)
    ensures var r := FilterSend(st, msg, ack, now);
            Held(r.st.slots, m) + One(r.dropped, m) + (if r.filtered then 0 else One(Some(msg), m))
            == Held(st.slots, m) + One(Some(msg), m)
  {
    var a, r := Age(st, now), FilterSend(st, msg, ack, now);
    AgeBooked(st, now);
    HeldSame(st.slots, a.slots, m);
    AllocSucceeds(a);
    assert One(None, m) == 0;
    hide Age, Held, Booked, AllocIndex, Match, Handle, One;
    if ack.Ack? {
      var i, j := Match(a.slots, ack.flow, 0), AllocIndex(a);
      if i >= 0 {
        var s := if ack.winScale != 0 then a.slots[i].(winScale := ack.winScale) else a.slots[i];
        HandleMoves(s, msg, ack.seqNo, now, m);
        HeldUpdate(a.slots, i, r.st.slots[i], m);
      } else if j >= 0 {
        HeldUpdate(a.slots, j, r.st.slots[j], m);
      }
    }
  }

  // ----- Safety of every run ------------------------------------------------------------------

  ghost predicate Inv(st: State, l: Ledger) { Booked(st) && Conserved(st, l) }

  lemma InitialInv(now: int, m: Msg)
    ensures Inv(Initial(now), NoLedger(m))
  {
    HeldNone(Initial(now).slots, m);
    assert Busy(Initial(now).slots) == {};
  }

  lemma TimerInv(st: State, l: Ledger, i: nat)
    requires Inv(st, l)
    ensures Inv(After(st, Timer(i)), Account(st, l, Timer(i)))
  {
    if i < TCP_ACK_NUM && TimerSends(st.slots[i]) {
      var st' := After(st, Timer(i));
      SameFlowsBooked(st, st');
      HeldUpdate(st.slots, i, st'.slots[i], l.msg);
      hide Booked, Held;
    }
  }

  /** Calls that move no message and leave flows and counters alone. */
  lemma QuietInv(st: State, l: Ledger, st': State)
    requires Inv(st, l) && |st'.slots| == TCP_ACK_NUM && st'.maxNum == st.maxNum && st'.freeIndex == st.freeIndex
    requires forall i :: 0 <= i < TCP_ACK_NUM ==>
               st'.slots[i] == st.slots[i].(pshFlag := st'.slots[i].pshFlag, pshSeq := st'.slots[i].pshSeq,
                                            inSendMsg := st'.slots[i].inSendMsg)
    ensures Inv(st', l)
  {
    SameFlowsBooked(st, st');
    HeldSame(st.slots, st'.slots, l.msg);
    hide Booked, Held;
  }

  lemma ShutdownInv(st: State, l: Ledger)
    requires Inv(st, l)
    ensures Inv(After(st, Shutdown), Account(st, l, Shutdown))
  {
    SameFlowsBooked(st, After(st, Shutdown));
    HeldNone(After(st, Shutdown).slots, l.msg);
    hide Booked, Held;
  }

  /** Every call keeps the bookkeeping and loses no message. */
  lemma StepInv(st: State, l: Ledger, e: Event)
    requires Inv(st, l)
    ensures Inv(After(st, e), Account(st, l, e))
  {
    assert |st.slots| == TCP_ACK_NUM;
    match e
    case Send(msg, ack, now) =>
      FilterSendBooked(st, msg, ack, now);
      FilterSendMoves(st, msg, ack, now, l.msg);
    case Receive(flow, pushSeq) => QuietInv(st, l, FilterRx(st, flow, pushSeq));
    case Timer(i) => TimerInv(st, l, i);
    case Done(sent) => QuietInv(st, l, MoveMsg(st, sent));
    case Shutdown => ShutdownInv(st, l);
    hide Booked, Held, One, FilterSend;
  }

  ghost function Run(st: State, l: Ledger, events: seq<Event>): (r: (State, Ledger))
    requires Inv(st, l)
    ensures Inv(r.0, r.1) && r.1.msg == l.msg
    decreases |events|
  {
    if events == [] then (st, l)
    else
      StepInv(st, l, events[0]);
      Run(After(st, events[0]), Account(st, l, events[0]), events[1..])
  }

  /** The state and the ledger of a message after any sequence of calls on a table that was just set up. */
  ghost function Reached(now: int, events: seq<Event>, m: Msg): (r: (State, Ledger))
    ensures Inv(r.0, r.1) && r.1.msg == m
  {
    InitialInv(now, m);
    Run(Initial(now), NoLedger(m), events)
  }

  /** The slots that hold a message back. */
  ghost function Holders(slots: seq<Slot>, m: Msg): set<int> {
    set i | 0 <= i < |slots| && slots[i].msgbuf == Some(m)
  }

  lemma {:induction false} HeldCounts(slots: seq<Slot>, m: Msg)
    ensures Held(slots, m) == |Holders(slots, m)|
  {
    if slots == [] {
      assert Holders(slots, m) == {};
    } else {
      var n := |slots| - 1;
      HeldCounts(slots[..n], m);
      assert Holders(slots, m) == if slots[n].msgbuf == Some(m) then Holders(slots[..n], m) + {n} else Holders(slots[..n], m);
    }
  }

  /**
   * Over every run, a message is as often returned to the caller to send, sent by
   * the timer, dropped or held by a slot as it was offered; offered once, it is
   * in exactly one place.
   */
  lemma OnePlace(now: int, events: seq<Event>, m: Msg)
    ensures var (st, l) := Reached(now, events, m);
            l.offered == l.returned + l.timerSent + l.dropped + |Holders(st.slots, m)|
  {
    var (st, l) := Reached(now, events, m);
    HeldCounts(st.slots, m);
    hide Held, Booked;
  }

  /** Over every run, the counters are exact and no two busy slots serve one flow. */
  lemma SlotsBooked(now: int, events: seq<Event>, m: Msg)
    ensures Booked(Reached(now, events, m).0)
  {
    hide Reached;
  }
}
