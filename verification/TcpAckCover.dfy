// The numbers of the ACKs that aicwf_tcp_ack.c drops. Each time a flow gets a
// slot an epoch begins; the history of a run says of every epoch which numbers
// it has seen and where they went, also after its slot has been given away.

module TcpAckCover {
  import opened Common
  import opened TcpAck

  // ----- Serial order ---------------------------------------------------------------

  function Offset(x: u32, base: u32): int { (x as int - base) % TWO_32 }

  predicate InSpan(seen: set<u32>, base: u32) { forall x :: x in seen ==> Offset(x, base) < TWO_31 }

  /** Within half the sequence space the signed difference is the serial order of section 3.4 of RFC 9293. */
  lemma SpanOrder(a: u32, b: u32, base: u32)
    requires Offset(a, base) < TWO_31 && Offset(b, base) < TWO_31
    ensures Before(a, b) <==> Offset(a, base) <= Offset(b, base)
  {
    var d := Offset(a, base) - Offset(b, base);
    var q := (a as int - base) / TWO_32 - (b as int - base) / TWO_32;
    assert a as int - b == d + TWO_32 * q;
    assert (a as int - b) % TWO_32 == d % TWO_32;
  }

  lemma OffsetInjective(a: u32, b: u32, base: u32)
    requires Offset(a, base) == Offset(b, base)
    ensures a == b
  {
    var q := (a as int - base) / TWO_32 - (b as int - base) / TWO_32;
    assert a as int - b == TWO_32 * q;
  }

  ghost predicate Latest(seen: set<u32>, top: u32) {
    forall base: u32 :: InSpan(seen, base) ==> forall x :: x in seen ==> Offset(x, base) <= Offset(top, base)
  }

  function Later(a: u32, b: u32): u32 { if Before(a, b) then b else a }

  lemma LatestGrows(seen: set<u32>, top: u32, seqNo: u32)
    requires Latest(seen, top) && top in seen
    ensures Latest(seen + {seqNo}, Later(top, seqNo))
  {
    forall base: u32 | InSpan(seen + {seqNo}, base)
      ensures forall x :: x in seen + {seqNo} ==> Offset(x, base) <= Offset(Later(top, seqNo), base)
    {
      assert seqNo in seen + {seqNo} && top in seen + {seqNo};
      assert InSpan(seen, base) by { assert forall x :: x in seen ==> x in seen + {seqNo}; }
      SpanOrder(top, seqNo, base);
    }
  }

  // ----- Epochs ------------------------------------------------------------------------

  /**
   * The ACKs of one flow since it got a slot: all that were seen, those that went
   * to the sender, those dropped, the one held back, and the latest number.
   */
  datatype Epoch = Epoch(slot: nat, flow: Flow, seen: set<u32>, handed: set<u32>, dropped: set<u32>, held: set<u32>, top: u32) {
    /** The latest number is out or held. */
    predicate Safe() { top in handed + held }
  }

  /**
   * All epochs of a run, the last one of each slot, and the one whose message is
   * in each slot, which may be an earlier one; -1 where there is none.
   */
  datatype History = History(epochs: seq<Epoch>, current: seq<int>, owner: seq<int>)

  function NoHistory(): History { History([], seq(TCP_ACK_NUM, _ => -1), seq(TCP_ACK_NUM, _ => -1)) }

  ghost predicate Indexed(h: History) {
    && |h.current| == |h.owner| == TCP_ACK_NUM
    && forall i :: 0 <= i < TCP_ACK_NUM ==> -1 <= h.current[i] < |h.epochs| && -1 <= h.owner[i] < |h.epochs|
  }

  /** An ACK that is older than the latest is dropped. */
  function Refused(e: Epoch, seqNo: u32): Epoch { e.(seen := e.seen + {seqNo}, dropped := e.dropped + {seqNo}) }

  /** With the filter disabled every ACK goes to the sender. */
  function Passed(e: Epoch, seqNo: u32): Epoch {
    e.(seen := e.seen + {seqNo}, handed := e.handed + {seqNo}, top := Later(e.top, seqNo))
  }

  /** A new latest ACK is held or goes to the sender. */
  function Renewed(e: Epoch, seqNo: u32, filtered: bool): Epoch {
    e.(seen := e.seen + {seqNo}, top := seqNo,
       handed := if filtered then e.handed else e.handed + {seqNo}, held := if filtered then {seqNo} else {})
  }

  /** The message held is dropped. */
  function Lost(e: Epoch): Epoch { e.(dropped := e.dropped + e.held, held := {}) }

  /** The timer sends the message held. */
  function TimedOut(e: Epoch): Epoch { e.(handed := e.handed + e.held, held := {}) }

  function Begun(slot: nat, flow: Flow, seqNo: u32): Epoch { Epoch(slot, flow, {seqNo}, {seqNo}, {}, {}, seqNo) }

  /** What filter_send_tcp_ack does to the history, on the table after ageing. */
  ghost function Sending(a: State, h: History, ack: Checked, filtered: bool): History
    requires |a.slots| == TCP_ACK_NUM && a.freeIndex < TCP_ACK_NUM && Indexed(h)
  {
    if ack.NotAnAck? then h
    else
      var i, j := Match(a.slots, ack.flow, 0), AllocIndex(a);
      if i >= 0 then
        var c, o := h.current[i], h.owner[i];
        if c < 0 then h
        else if !a.enable then h.(epochs := h.epochs[c := Passed(h.epochs[c], ack.seqNo)])
        else if !Before(a.slots[i].seqNo, ack.seqNo) then h.(epochs := h.epochs[c := Refused(h.epochs[c], ack.seqNo)])
        else
          var es := if o >= 0 then h.epochs[o := Lost(h.epochs[o])] else h.epochs;
          h.(epochs := es[c := Renewed(es[c], ack.seqNo, filtered)], owner := h.owner[i := if filtered then c else -1])
      else if j >= 0 then h.(epochs := h.epochs + [Begun(j, ack.flow, ack.seqNo)], current := h.current[j := |h.epochs|])
      else h
  }

  /** The history after one event. */
  ghost function Chronicle(st: State, h: History, e: Event): History
    requires Booked(st) && Indexed(h)
  {
    match e
    case Send(msg, ack, now) =>
      AgeBooked(st, now);
      Sending(Age(st, now), h, ack, FilterSend(st, msg, ack, now).filtered)
    case Timer(i) =>
      if i < TCP_ACK_NUM && TimerSends(st.slots[i]) && h.owner[i] >= 0 then
        h.(epochs := h.epochs[h.owner[i] := TimedOut(h.epochs[h.owner[i]])], owner := h.owner[i := -1])
      else h
    case Shutdown =>
      h.(epochs := seq(|h.epochs|, k requires 0 <= k < |h.epochs| => Lost(h.epochs[k])), owner := seq(TCP_ACK_NUM, _ => -1))
    case _ => h
  }

  // ----- What every run keeps -------------------------------------------------------------

  ghost predicate EpochOk(e: Epoch) {
    && e.seen == e.handed + e.dropped + e.held && e.held <= {e.top}
    && e.top in e.seen && Latest(e.seen, e.top)
  }

  /** An epoch has a message held only in its own slot, and only while it owns what is there. */
  ghost predicate HeldBy(e: Epoch, k: int, owner: seq<int>) {
    e.held != {} ==> e.slot < |owner| && owner[e.slot] == k
  }

  ghost predicate SlotOk(s: Slot, enable: bool, epochs: seq<Epoch>, c: int, o: int, i: nat)
    requires -1 <= c < |epochs| && -1 <= o < |epochs|
  {
    && (s.busy ==> c >= 0 && epochs[c].flow == s.flow)
    && (c >= 0 ==> epochs[c].slot == i && (enable ==> epochs[c].top == s.seqNo && epochs[c].Safe()))
    && (o >= 0 <==> s.msgbuf.Some?)
    && (o >= 0 ==> enable && epochs[o].slot == i && epochs[o].held == {epochs[o].top})
  }

  ghost predicate Track(st: State, h: History) {
    && Booked(st) && Indexed(h)
    && (forall k :: 0 <= k < |h.epochs| ==> EpochOk(h.epochs[k]) && HeldBy(h.epochs[k], k, h.owner))
    && (forall i :: 0 <= i < TCP_ACK_NUM ==> SlotOk(st.slots[i], st.enable, h.epochs, h.current[i], h.owner[i], i))
  }

  lemma RefusedOk(e: Epoch, seqNo: u32)
    requires EpochOk(e) && !Before(e.top, seqNo)
    ensures EpochOk(Refused(e, seqNo))
  {
    LatestGrows(e.seen, e.top, seqNo);
    hide Latest, Before;
  }

  lemma PassedOk(e: Epoch, seqNo: u32)
    requires EpochOk(e) && e.held == {}
    ensures EpochOk(Passed(e, seqNo))
  {
    LatestGrows(e.seen, e.top, seqNo);
    hide Latest, Before;
  }

  lemma RenewedOk(e: Epoch, seqNo: u32, filtered: bool)
    requires EpochOk(e) && e.held == {} && Before(e.top, seqNo)
    ensures EpochOk(Renewed(e, seqNo, filtered)) && Renewed(e, seqNo, filtered).Safe()
  {
    LatestGrows(e.seen, e.top, seqNo);
    hide Latest, Before;
  }

  lemma MovedOk(e: Epoch)
    requires EpochOk(e)
    ensures EpochOk(Lost(e)) && EpochOk(TimedOut(e))
  {
    hide Latest;
  }

  lemma BegunOk(slot: nat, flow: Flow, seqNo: u32)
    ensures EpochOk(Begun(slot, flow, seqNo)) && Begun(slot, flow, seqNo).Safe()
  {
  }

  /** A change to one slot and to epochs of that slot alone. */
  lemma OneSlot(a: State, h: History, i: nat, b: State, h': History)
    requires Track(a, h) && Booked(b) && Indexed(h') && i < TCP_ACK_NUM && b.enable == a.enable && |h.epochs| <= |h'.epochs|
    requires forall j :: 0 <= j < TCP_ACK_NUM && j != i ==>
               b.slots[j] == a.slots[j] && h'.current[j] == h.current[j] && h'.owner[j] == h.owner[j]
    requires forall k :: 0 <= k < |h.epochs| && h.epochs[k].slot != i ==> h'.epochs[k] == h.epochs[k]
    requires forall k :: 0 <= k < |h'.epochs| && (k < |h.epochs| ==> h.epochs[k].slot == i) ==>
               h'.epochs[k].slot == i && EpochOk(h'.epochs[k]) && HeldBy(h'.epochs[k], k, h'.owner)
    requires SlotOk(b.slots[i], b.enable, h'.epochs, h'.current[i], h'.owner[i], i)
    ensures Track(b, h')
  {
    hide Booked, EpochOk;
  }

  lemma OtherEpochs(a: State, h: History, i: nat, k: nat)
    requires Track(a, h) && i < TCP_ACK_NUM && k < |h.epochs| && h.epochs[k].slot == i && k != h.owner[i]
    ensures h.epochs[k].held == {}
  {
    hide Booked, EpochOk, SlotOk;
  }

  /** What tcp_ack_handle_new leaves in a slot. */
  lemma HandleLeaves(s: Slot, msg: Msg, seqNo: u32, now: int)
    ensures var h := Handle(s, msg, seqNo, now);
            && h.slot.busy == s.busy && h.slot.flow == s.flow
            && if Before(s.seqNo, seqNo) then h.slot.seqNo == seqNo && h.slot.msgbuf == (if h.filtered then Some(msg) else None)
               else h.slot.seqNo == s.seqNo && h.slot.msgbuf == s.msgbuf
  {
    hide Before;
  }

  lemma RefusedTrack(a: State, h: History, i: nat, b: State, seqNo: u32)
    requires Track(a, h) && Booked(b) && i < TCP_ACK_NUM && a.enable && h.current[i] >= 0
    requires b == a.(slots := a.slots[i := b.slots[i]]) && !Before(a.slots[i].seqNo, seqNo)
    requires b.slots[i] == a.slots[i].(winScale := b.slots[i].winScale, lastTime := b.slots[i].lastTime)
    ensures Track(b, h.(epochs := h.epochs[h.current[i] := Refused(h.epochs[h.current[i]], seqNo)]))
  {
    var c, es := h.current[i], h.epochs[h.current[i] := Refused(h.epochs[h.current[i]], seqNo)];
    RefusedOk(h.epochs[c], seqNo);
    assert SlotOk(b.slots[i], b.enable, es, c, h.owner[i], i) by {
      assert SlotOk(a.slots[i], a.enable, h.epochs, c, h.owner[i], i);
    }
    hide Booked, EpochOk, Before, SlotOk, Refused;
    OneSlot(a, h, i, b, h.(epochs := es));
  }

  lemma PassedTrack(a: State, h: History, i: nat, b: State, seqNo: u32)
    requires Track(a, h) && Booked(b) && i < TCP_ACK_NUM && !a.enable && h.current[i] >= 0
    requires b == a.(slots := a.slots[i := b.slots[i]]) && b.slots[i] == a.slots[i].(winScale := b.slots[i].winScale)
    ensures Track(b, h.(epochs := h.epochs[h.current[i] := Passed(h.epochs[h.current[i]], seqNo)]))
  {
    OtherEpochs(a, h, i, h.current[i]);
    PassedOk(h.epochs[h.current[i]], seqNo);
    hide Booked, EpochOk, Before;
    OneSlot(a, h, i, b, h.(epochs := h.epochs[h.current[i] := Passed(h.epochs[h.current[i]], seqNo)]));
  }

  /** The slot when its message, if any, has been dropped. */
  ghost function Emptied(h: History, i: nat): History
    requires Indexed(h) && i < TCP_ACK_NUM
  {
    h.(epochs := if h.owner[i] >= 0 then h.epochs[h.owner[i] := Lost(h.epochs[h.owner[i]])] else h.epochs, owner := h.owner[i := -1])
  }

  lemma EmptiedIs(a: State, h: History, i: nat)
    requires Track(a, h) && i < TCP_ACK_NUM
    ensures Indexed(Emptied(h, i))
    ensures forall k :: 0 <= k < |h.epochs| ==>
              var e := Emptied(h, i).epochs[k];
              && EpochOk(e) && e.slot == h.epochs[k].slot && e.flow == h.epochs[k].flow && e.top == h.epochs[k].top
              && (h.epochs[k].slot != i ==> e == h.epochs[k]) && (h.epochs[k].slot == i ==> e.held == {})
  {
    forall k | 0 <= k < |h.epochs|
      ensures EpochOk(Emptied(h, i).epochs[k])
      ensures h.epochs[k].slot == i ==> Emptied(h, i).epochs[k].held == {}
    {
      MovedOk(h.epochs[k]);
      if h.epochs[k].slot == i && k != h.owner[i] {
        OtherEpochs(a, h, i, k);
      }
    }
    hide Booked, EpochOk;
  }

  lemma RenewedTrack(a: State, h: History, i: nat, b: State, seqNo: u32, filtered: bool)
    requires Track(a, h) && Booked(b) && i < TCP_ACK_NUM && a.enable && a.slots[i].busy
    requires b == a.(slots := a.slots[i := b.slots[i]]) && Before(a.slots[i].seqNo, seqNo)
    requires var s := b.slots[i]; s.busy && s.flow == a.slots[i].flow && s.seqNo == seqNo && (s.msgbuf.Some? <==> filtered)
    ensures Indexed(Emptied(h, i)) && 0 <= h.current[i] < |Emptied(h, i).epochs|
    ensures var es, c := Emptied(h, i).epochs, h.current[i];
            Track(b, History(es[c := Renewed(es[c], seqNo, filtered)], h.current, h.owner[i := if filtered then c else -1]))
  {
    EmptiedIs(a, h, i);
    var es, c := Emptied(h, i).epochs, h.current[i];
    assert SlotOk(a.slots[i], a.enable, h.epochs, c, h.owner[i], i);
    RenewedOk(es[c], seqNo, filtered);
    hide Booked, EpochOk, Before, Emptied;
    OneSlot(a, h, i, b, History(es[c := Renewed(es[c], seqNo, filtered)], h.current, h.owner[i := if filtered then c else -1]));
  }

  lemma BegunTrack(a: State, h: History, j: nat, b: State, ack: Checked, now: int)
    requires Track(a, h) && Booked(b) && j < TCP_ACK_NUM && ack.Ack? && !a.slots[j].busy
    requires b == a.(slots := a.slots[j := Opened(a.slots[j], ack, now)], maxNum := b.maxNum, freeIndex := b.freeIndex)
    ensures Track(b, h.(epochs := h.epochs + [Begun(j, ack.flow, ack.seqNo)], current := h.current[j := |h.epochs|]))
  {
    BegunOk(j, ack.flow, ack.seqNo);
    hide Booked, EpochOk;
    OneSlot(a, h, j, b, h.(epochs := h.epochs + [Begun(j, ack.flow, ack.seqNo)], current := h.current[j := |h.epochs|]));
  }

  lemma AgeLeaves(st: State, now: int)
    ensures var a := Age(st, now);
            && a.enable == st.enable && |a.slots| == |st.slots|
            && forall i :: 0 <= i < |st.slots| ==>
                 a.slots[i] == st.slots[i] || a.slots[i] == st.slots[i].(busy := false)
  {
    hide Busy, FirstExpired, TimeAfter;
  }

  lemma AgeTrack(st: State, h: History, now: int)
    requires Track(st, h)
    ensures Track(Age(st, now), h)
  {
    AgeBooked(st, now);
    AgeLeaves(st, now);
    assert |st.slots| == TCP_ACK_NUM;
    var a := Age(st, now);
    hide Age, Booked, EpochOk, HeldBy;
    forall i | 0 <= i < TCP_ACK_NUM
      ensures SlotOk(a.slots[i], a.enable, h.epochs, h.current[i], h.owner[i], i)
    {
      assert SlotOk(st.slots[i], st.enable, h.epochs, h.current[i], h.owner[i], i);
    }
    hide SlotOk;
  }

  lemma SendTrack(st: State, h: History, msg: Msg, ack: Checked, now: int)
    requires Track(st, h)
    ensures Track(After(st, Send(msg, ack, now)), Chronicle(st, h, Send(msg, ack, now)))
  {
    AgeTrack(st, h, now);
    FilterSendBooked(st, msg, ack, now);
    var a, r := Age(st, now), FilterSend(st, msg, ack, now);
    AllocSucceeds(a);
    assert |a.slots| == TCP_ACK_NUM;
    hide Age, Booked, AllocIndex, Handle, Before, EpochOk;
    if ack.Ack? {
      var i, j := Match(a.slots, ack.flow, 0), AllocIndex(a);
      if i >= 0 {
        assert SlotOk(a.slots[i], a.enable, h.epochs, h.current[i], h.owner[i], i);
        MatchTrack(a, h, i, r, msg, ack, now);
      } else if j >= 0 {
        BegunTrack(a, h, j, r.st, ack, now);
      }
    }
  }

  lemma MatchTrack(a: State, h: History, i: nat, r: Sent, msg: Msg, ack: Checked, now: int)
    requires Track(a, h) && ack.Ack? && Match(a.slots, ack.flow, 0) == i && Booked(r.st)
    requires var s := if ack.winScale != 0 then a.slots[i].(winScale := ack.winScale) else a.slots[i];
             if a.enable then
               var n := Handle(s, msg, ack.seqNo, now);
               r == Sent(a.(slots := a.slots[i := n.slot]), n.filtered, n.dropped)
             else r == Sent(a.(slots := a.slots[i := s]), false, None)
    ensures Track(r.st, Sending(a, h, ack, r.filtered))
  {
    var s := if ack.winScale != 0 then a.slots[i].(winScale := ack.winScale) else a.slots[i];
    HandleLeaves(s, msg, ack.seqNo, now);
    assert SlotOk(a.slots[i], a.enable, h.epochs, h.current[i], h.owner[i], i);
    if !a.enable {
      PassedTrack(a, h, i, r.st, ack.seqNo);
    } else if !Before(a.slots[i].seqNo, ack.seqNo) {
      RefusedTrack(a, h, i, r.st, ack.seqNo);
    } else {
      RenewedTrack(a, h, i, r.st, ack.seqNo, r.filtered);
    }
    hide Booked, EpochOk, SlotOk, Before;
  }

  lemma TimerTrack(st: State, h: History, i: nat)
    requires Track(st, h)
    ensures Track(After(st, Timer(i)), Chronicle(st, h, Timer(i)))
  {
    if i < TCP_ACK_NUM && TimerSends(st.slots[i]) {
      var st', h' := After(st, Timer(i)), Chronicle(st, h, Timer(i));
      SameFlowsBooked(st, st');
      assert SlotOk(st.slots[i], st.enable, h.epochs, h.current[i], h.owner[i], i);
      forall k | 0 <= k < |h.epochs| && h.epochs[k].slot == i
        ensures EpochOk(h'.epochs[k]) && HeldBy(h'.epochs[k], k, h'.owner)
      {
        MovedOk(h.epochs[k]);
        if k != h.owner[i] {
          OtherEpochs(st, h, i, k);
        }
      }
      hide Booked, EpochOk;
      OneSlot(st, h, i, st', h');
    }
  }

  lemma ShutdownTrack(st: State, h: History)
    requires Track(st, h)
    ensures Track(After(st, Shutdown), Chronicle(st, h, Shutdown))
  {
    SameFlowsBooked(st, After(st, Shutdown));
    forall k | 0 <= k < |h.epochs|
      ensures EpochOk(Lost(h.epochs[k]))
    {
      MovedOk(h.epochs[k]);
    }
    hide Booked, EpochOk;
  }

  lemma QuietTrack(st: State, h: History, st': State)
    requires Track(st, h) && Booked(st') && st'.enable == st.enable
    requires forall i :: 0 <= i < TCP_ACK_NUM ==>
               st'.slots[i] == st.slots[i].(pshFlag := st'.slots[i].pshFlag, pshSeq := st'.slots[i].pshSeq,
                                            inSendMsg := st'.slots[i].inSendMsg)
    ensures Track(st', h)
  {
    hide Booked, EpochOk;
  }

  lemma StepTrack(st: State, h: History, e: Event)
    requires Track(st, h)
    ensures Track(After(st, e), Chronicle(st, h, e))
  {
    match e
    case Send(msg, ack, now) => SendTrack(st, h, msg, ack, now);
    case Receive(_, _) =>
      SameFlowsBooked(st, After(st, e));
      QuietTrack(st, h, After(st, e));
    case Timer(i) => TimerTrack(st, h, i);
    case Done(_) =>
      SameFlowsBooked(st, After(st, e));
      QuietTrack(st, h, After(st, e));
    case Shutdown => ShutdownTrack(st, h);
    hide EpochOk, SlotOk;
  }

  /** The state and the history after a sequence of calls. */
  ghost function RunOn(st: State, h: History, events: seq<Event>): (r: (State, History))
    requires Track(st, h)
    ensures Track(r.0, r.1)
    decreases |events|
  {
    if events == [] then (st, h)
    else
      StepTrack(st, h, events[0]);
      RunOn(After(st, events[0]), Chronicle(st, h, events[0]), events[1..])
  }

  lemma InitialTrack(now: int)
    ensures Track(Initial(now), NoHistory())
  {
    assert Busy(Initial(now).slots) == {};
  }

  /** The same on a table that was just set up. */
  ghost function Chronicled(now: int, events: seq<Event>): (r: (State, History))
    ensures Track(r.0, r.1)
  {
    InitialTrack(now);
    RunOn(Initial(now), NoHistory(), events)
  }
  lemma {:induction false} OneRun(st: State, l: Ledger, h: History, events: seq<Event>)
    requires Track(st, h) && Inv(st, l)
    ensures Run(st, l, events).0 == RunOn(st, h, events).0
    decreases |events|
  {
    if events != [] {
      StepTrack(st, h, events[0]);
      StepInv(st, l, events[0]);
      OneRun(After(st, events[0]), Account(st, l, events[0]), Chronicle(st, h, events[0]), events[1..]);
    }
    hide Track, Inv, After, Chronicle, Account;
  }

  // ----- Which epochs are covered ------------------------------------------------------------

  /** Every dropped ACK has one at or after it that went to the sender or is held. */
  ghost predicate Covered(e: Epoch) {
    forall d :: d in e.dropped ==> exists c :: c in e.handed + e.held && Before(d, c)
  }

  lemma CoveredIffSafe(e: Epoch, base: u32)
    requires EpochOk(e) && InSpan(e.seen, base)
    ensures Covered(e) <==> e.Safe()
  {
    if e.Safe() {
      forall d | d in e.dropped
        ensures exists c :: c in e.handed + e.held && Before(d, c)
      {
        SpanOrder(d, e.top, base);
      }
    }
    if Covered(e) && !e.Safe() {
      assert e.top in e.dropped;
      var c :| c in e.handed + e.held && Before(e.top, c);
      SpanOrder(e.top, c, base);
      OffsetInjective(e.top, c, base);
    }
  }

  /**
   * Over every run, an epoch that spans less than half the sequence space, over or
   * not, has all its dropped ACKs covered if and only if its latest number went
   * to the sender or is still held.
   */
  lemma EveryEpoch(now: int, events: seq<Event>, k: nat, base: u32)
    requires k < |Chronicled(now, events).1.epochs| && InSpan(Chronicled(now, events).1.epochs[k].seen, base)
    ensures Covered(Chronicled(now, events).1.epochs[k]) <==> Chronicled(now, events).1.epochs[k].Safe()
  {
    CoveredIffSafe(Chronicled(now, events).1.epochs[k], base);
    hide Covered, EpochOk, InSpan;
  }

  /**
   * While a flow has its slot and filtering is enabled, its dropped ACKs are
   * covered, whatever the slot held when the flow got it.
   */
  lemma DroppedAreCovered(now: int, events: seq<Event>, i: nat, base: u32)
    requires var (st, h) := Chronicled(now, events);
             i < TCP_ACK_NUM && st.slots[i].busy && st.enable && (h.current[i] >= 0 ==> InSpan(h.epochs[h.current[i]].seen, base))
    ensures var (st, h) := Chronicled(now, events);
            h.current[i] >= 0 && h.epochs[h.current[i]].flow == st.slots[i].flow && Covered(h.epochs[h.current[i]])
  {
    var (st, h) := Chronicled(now, events);
    assert SlotOk(st.slots[i], st.enable, h.epochs, h.current[i], h.owner[i], i);
    CoveredIffSafe(h.epochs[h.current[i]], base);
    hide Covered, EpochOk, InSpan;
  }

  /** The ACK of another flow that the slot of epoch k now serves, and that is not older than the number in the slot. */
  ghost predicate Displaces(st: State, h: History, e: Event, k: nat)
    requires Track(st, h) && k < |h.epochs|
  {
    e.Send? && e.ack.Ack? && st.enable &&
    var i := Match(Age(st, e.now).slots, e.ack.flow, 0);
    i >= 0 && i == h.epochs[k].slot && h.current[i] != k && Before(st.slots[i].seqNo, e.ack.seqNo)
  }

  /** The event drops the latest ACK of an epoch, which is held and never went to the sender. */
  ghost predicate Loses(st: State, h: History, e: Event, k: nat)
    requires Track(st, h) && k < |h.epochs|
  {
    h.epochs[k].held != {} && h.epochs[k].top !in h.epochs[k].handed && (e.Shutdown? || Displaces(st, h, e, k))
  }

  /** With the filter disabled, the flow sends a later ACK past it. */
  ghost predicate Regains(st: State, h: History, e: Event, k: nat)
    requires Track(st, h) && k < |h.epochs|
  {
    e.Send? && e.ack.Ack? && !st.enable &&
    var i := Match(Age(st, e.now).slots, e.ack.flow, 0);
    i >= 0 && h.current[i] == k && Before(h.epochs[k].top, e.ack.seqNo)
  }

  lemma SendSafe(st: State, h: History, e: Event, k: nat)
    requires Track(st, h) && k < |h.epochs| && e.Send?
    ensures var k' := Chronicle(st, h, e).epochs;
            |k'| >= |h.epochs| && (k'[k].Safe() <==> if h.epochs[k].Safe() then !Loses(st, h, e, k) else Regains(st, h, e, k))
  {
    AgeTrack(st, h, e.now);
    var a := Age(st, e.now);
    assert a.enable == st.enable && forall i :: 0 <= i < TCP_ACK_NUM ==> a.slots[i].seqNo == st.slots[i].seqNo;
    hide Age, Booked, AllocIndex, Handle, Before;
    if e.ack.Ack? {
      var i := Match(a.slots, e.ack.flow, 0);
      if i >= 0 {
        assert SlotOk(a.slots[i], a.enable, h.epochs, h.current[i], h.owner[i], i);
        MatchSafe(a, h, i, e.ack, FilterSend(st, e.msg, e.ack, e.now).filtered, k);
      }
    }
    hide FilterSend, EpochOk;
  }

  lemma MatchSafe(a: State, h: History, i: nat, ack: Checked, filtered: bool, k: nat)
    requires Track(a, h) && k < |h.epochs| && ack.Ack? && Match(a.slots, ack.flow, 0) == i
    ensures var e, es := h.epochs[k], Sending(a, h, ack, filtered).epochs;
            && |es| == |h.epochs|
            && (es[k].Safe() <==>
                if e.Safe() then !(e.held != {} && e.top !in e.handed && a.enable && e.slot == i && h.current[i] != k
                                   && Before(a.slots[i].seqNo, ack.seqNo))
                else !a.enable && h.current[i] == k && Before(e.top, ack.seqNo))
  {
    var c, o := h.current[i], h.owner[i];
    assert SlotOk(a.slots[i], a.enable, h.epochs, c, o, i);
    assert EpochOk(h.epochs[k]) && HeldBy(h.epochs[k], k, h.owner);
    BeforeItself(h.epochs[k].top);
    hide Booked, Latest, Before, Match, AllocIndex, Track, SlotOk, HeldBy, EpochOk;
  }

  lemma BeforeItself(a: u32)
    ensures Before(a, a)
  {
  }

  /**
   * The latest number of an epoch is out or held from its first ACK on. Exactly
   * two kinds of event end that: filtering is enabled and a flow that has got the
   * slot meanwhile sends an ACK which is not older than the number in the slot,
   * or the filter shuts down, before the timer has sent the message held.
   */
  lemma SafeUnlessLost(st: State, h: History, e: Event, k: nat)
    requires Track(st, h) && k < |h.epochs|
    ensures var es := Chronicle(st, h, e).epochs;
            |es| >= |h.epochs| && (es[k].Safe() <==> if h.epochs[k].Safe() then !Loses(st, h, e, k) else Regains(st, h, e, k))
  {
    if e.Send? {
      SendSafe(st, h, e, k);
    } else if e.Timer? {
      TimerSafe(st, h, e, k);
    } else {
      ShutdownSafe(st, h, e, k);
    }
    hide *;
  }

  lemma TimerSafe(st: State, h: History, e: Event, k: nat)
    requires Track(st, h) && k < |h.epochs| && e.Timer?
    ensures var es := Chronicle(st, h, e).epochs;
            |es| == |h.epochs| && es[k].Safe() == h.epochs[k].Safe() && !Loses(st, h, e, k) && !Regains(st, h, e, k)
  {
    hide Booked, SlotOk, HeldBy, EpochOk, TimerSends;
  }

  lemma ShutdownSafe(st: State, h: History, e: Event, k: nat)
    requires Track(st, h) && k < |h.epochs| && !e.Send? && !e.Timer?
    ensures var es := Chronicle(st, h, e).epochs;
            |es| == |h.epochs| && (es[k].Safe() <==> h.epochs[k].Safe() && !Loses(st, h, e, k)) && !Regains(st, h, e, k)
  {
    assert EpochOk(h.epochs[k]);
    hide Booked, SlotOk, HeldBy, Latest;
  }

  /** No event of the run loses the latest ACK of epoch k. */
  ghost predicate NeverLost(st: State, h: History, events: seq<Event>, k: nat)
    requires Track(st, h) && k < |h.epochs|
    decreases |events|
  {
    events == [] ||
    (StepTrack(st, h, events[0]); SafeUnlessLost(st, h, events[0], k);
     !Loses(st, h, events[0], k) && NeverLost(After(st, events[0]), Chronicle(st, h, events[0]), events[1..], k))
  }

  /** Over any run that does not shut the filter down, the epochs covered are those whose latest ACK is never lost. */
  lemma {:induction false} SafeOverRun(st: State, h: History, events: seq<Event>, k: nat)
    requires Track(st, h) && k < |h.epochs| && st.enable && Shutdown !in events
    ensures |RunOn(st, h, events).1.epochs| >= |h.epochs|
    ensures RunOn(st, h, events).1.epochs[k].Safe() <==> h.epochs[k].Safe() && NeverLost(st, h, events, k)
    decreases |events|
  {
    if events != [] {
      StepTrack(st, h, events[0]);
      SafeUnlessLost(st, h, events[0], k);
      StillEnabled(st, events[0]);
      SafeOverRun(After(st, events[0]), Chronicle(st, h, events[0]), events[1..], k);
      if !h.epochs[k].Safe() {
        assert !Regains(st, h, events[0], k);
      }
    }
    hide Track, After, Chronicle, Loses;
  }

  lemma StillEnabled(st: State, e: Event)
    requires Booked(st) && st.enable && !e.Shutdown?
    ensures After(st, e).enable
  {
    hide Booked, Match, AllocIndex, Handle;
  }
  // ----- A slot that is given away with a message in it -------------------------------------

  const FIRST := Flow(1, 2, 3, 4)
  const SECOND := Flow(1, 2, 3, 5)

  /** The table with one busy slot. */
  ghost function OneBusy(s: Slot, last: int): (st: State)
    ensures |st.slots| == TCP_ACK_NUM && st.freeIndex < TCP_ACK_NUM
  {
    State(true, 1, -1, last, Initial(0).slots[0 := s])
  }

  /** One more ACK of the flow in slot 0, within the ageing period. */
  lemma OneBusySend(s: Slot, last: int, msg: Msg, seqNo: u32)
    requires s.busy && !TimeAfter(last, last + ACK_OLD_TIME)
    ensures var h := Handle(s, msg, seqNo, last);
            FilterSend(OneBusy(s, last), msg, Ack(s.flow, seqNo, 0), last) == Sent(OneBusy(h.slot, last), h.filtered, h.dropped)
    ensures Age(OneBusy(s, last), last) == OneBusy(s, last) && Match(OneBusy(s, last).slots, s.flow, 0) == 0
  {
    hide TimeAfter, Before, Handle;
    var st := OneBusy(s, last);
    assert Match(st.slots, s.flow, 0) == 0;
    assert st.slots[0] == s;
    assert st.slots[0 := Handle(s, msg, seqNo, last).slot] == OneBusy(Handle(s, msg, seqNo, last).slot, last).slots;
  }

  /** The first ACK of another flow, once the flow in slot 0 has expired. */
  lemma OneBusyReopened(s: Slot, msg: Msg, f: Flow, seqNo: u32)
    requires s.busy && s.lastTime == 0
    ensures FilterSend(OneBusy(s, 0), msg, Ack(f, seqNo, 0), 1000)
         == Sent(OneBusy(Opened(s, Ack(f, seqNo, 0), 1000), 1000), false, None)
    ensures var a := Age(OneBusy(s, 0), 1000); Match(a.slots, f, 0) == -1 && AllocIndex(a) == 0
  {
    var st, ack := OneBusy(s, 0), Ack(f, seqNo, 0);
    var a := Age(st, 1000);
    assert s.Expired(1000);
    assert a.slots == Initial(0).slots[0 := s.(busy := false)];
    assert Busy(st.slots) - Busy(a.slots) == {0};
    assert a == State(true, 0, 0, 1000, Initial(0).slots[0 := s.(busy := false)]);
    hide TimeAfter, Age;
    assert Match(a.slots, f, 0) == -1;
    assert a.slots[0 := Opened(a.slots[0], ack, 1000)] == OneBusy(Opened(s, ack, 1000), 1000).slots;
  }

  lemma FirstOpened(f: Flow, msg: Msg, seqNo: u32)
    ensures FilterSend(Initial(0), msg, Ack(f, seqNo, 0), 0)
         == Sent(OneBusy(Opened(Initial(0).slots[0], Ack(f, seqNo, 0), 0), 0), false, None)
    ensures Age(Initial(0), 0) == Initial(0) && Match(Initial(0).slots, f, 0) == -1 && AllocIndex(Initial(0)) == 0
  {
    var st := Initial(0);
    assert Age(st, 0) == st;
    assert Match(st.slots, f, 0) == -1;
    hide TimeAfter, Age;
  }

  /** Slot 0 after the first, second and third ACK of the first flow, and the first and second of the other. */
  const STALE_1 := Slot(true, 10, false, 0, 1, 0, None, None, FIRST, 10)
  const STALE_2 := Slot(true, 0, false, 0, 1, 0, None, Some(2), FIRST, 20)
  const STALE_3 := Slot(true, 1, false, 0, 1, 0, Some(3), Some(2), FIRST, 30)
  const STALE_4 := Slot(true, 10, false, 0, 1, 1000, Some(3), Some(2), SECOND, 5)
  const STALE_5 := Slot(true, 11, false, 0, 1, 1000, Some(5), Some(2), SECOND, 6)

  /** And the epochs. */
  const FIRST_2 := Epoch(0, FIRST, {10, 20}, {10, 20}, {}, {}, 20)
  const FIRST_3 := Epoch(0, FIRST, {10, 20, 30}, {10, 20}, {}, {30}, 30)
  const FIRST_5 := Epoch(0, FIRST, {10, 20, 30}, {10, 20}, {30}, {}, 30)
  const SECOND_5 := Epoch(0, SECOND, {5, 6}, {5}, {}, {6}, 6)

  /** A history in which only slot 0 has been used. */
  function OneSlotHistory(epochs: seq<Epoch>, c: int, o: int): History {
    History(epochs, NoHistory().current[0 := c], NoHistory().owner[0 := o])
  }

  function StaleSend(k: nat): Event
    requires 1 <= k <= 5
  {
    if k == 1 then Send(1, Ack(FIRST, 10, 0), 0)
    else if k == 2 then Send(2, Ack(FIRST, 20, 0), 0)
    else if k == 3 then Send(3, Ack(FIRST, 30, 0), 0)
    else if k == 4 then Send(4, Ack(SECOND, 5, 0), 1000)
    else Send(5, Ack(SECOND, 6, 0), 1000)
  }

  ghost predicate Leads(st: State, h: History, e: Event, st': State, h': History) {
    Track(st, h) && After(st, e) == st' && Chronicle(st, h, e) == h'
  }

  lemma SendingSame(s: Slot, last: int, epochs: seq<Epoch>, c: int, o: int, seqNo: u32, filtered: bool)
    requires 0 <= c < |epochs| && -1 <= o < |epochs| && Before(s.seqNo, seqNo) && Match(OneBusy(s, last).slots, s.flow, 0) == 0
    ensures Indexed(OneSlotHistory(epochs, c, o))
    ensures Sending(OneBusy(s, last), OneSlotHistory(epochs, c, o), Ack(s.flow, seqNo, 0), filtered)
         == var es := if o >= 0 then epochs[o := Lost(epochs[o])] else epochs;
            OneSlotHistory(es[c := Renewed(es[c], seqNo, filtered)], c, if filtered then c else -1)
  {
    hide Before, Match, AllocIndex;
    var h := OneSlotHistory(epochs, c, o);
    assert h.current[0] == c && h.owner[0] == o && OneBusy(s, last).slots[0] == s;
    assert h.owner[0 := if filtered then c else -1] == NoHistory().owner[0 := if filtered then c else -1];
  }

  lemma SendingOpens(a: State, epochs: seq<Epoch>, c: int, o: int, ack: Checked, filtered: bool)
    requires |a.slots| == TCP_ACK_NUM && a.freeIndex < TCP_ACK_NUM
    requires -1 <= c < |epochs| && -1 <= o < |epochs| && ack.Ack? && Match(a.slots, ack.flow, 0) == -1 && AllocIndex(a) == 0
    ensures Indexed(OneSlotHistory(epochs, c, o))
    ensures Sending(a, OneSlotHistory(epochs, c, o), ack, filtered)
         == OneSlotHistory(epochs + [Begun(0, ack.flow, ack.seqNo)], |epochs|, o)
  {
    hide Before, Match, AllocIndex, Begun;
    var h := OneSlotHistory(epochs, c, o);
    assert h.current[0 := |epochs|] == NoHistory().current[0 := |epochs|];
  }

  lemma Stale1()
    ensures Leads(Initial(0), NoHistory(), StaleSend(1), OneBusy(STALE_1, 0), OneSlotHistory([Begun(0, FIRST, 10)], 0, -1))
  {
    InitialTrack(0);
    FirstOpened(FIRST, 1, 10);
    assert Opened(Initial(0).slots[0], Ack(FIRST, 10, 0), 0) == STALE_1;
    hide FilterSend, Age, Match, AllocIndex, Track, Initial;
  }

  lemma Stale2()
    ensures Track(OneBusy(STALE_1, 0), OneSlotHistory([Begun(0, FIRST, 10)], 0, -1)) ==>
              Leads(OneBusy(STALE_1, 0), OneSlotHistory([Begun(0, FIRST, 10)], 0, -1), StaleSend(2),
                    OneBusy(STALE_2, 0), OneSlotHistory([FIRST_2], 0, -1))
  {
    assert !TimeAfter(0, 400);
    OneBusySend(STALE_1, 0, 2, 20);
    assert Handle(STALE_1, 2, 20, 0) == Handled(STALE_2, false, None);
    SendingSame(STALE_1, 0, [Begun(0, FIRST, 10)], 0, -1, 20, false);
    assert Renewed(Begun(0, FIRST, 10), 20, false) == FIRST_2;
    assert [Begun(0, FIRST, 10)][0 := FIRST_2] == [FIRST_2];
    hide FilterSend, Age, Match, AllocIndex, Track, Initial, Handle, TimeAfter, Sending, OneSlotHistory, OneBusy, Renewed, Begun;
  }

  lemma Stale3()
    ensures Track(OneBusy(STALE_2, 0), OneSlotHistory([FIRST_2], 0, -1)) ==>
              Leads(OneBusy(STALE_2, 0), OneSlotHistory([FIRST_2], 0, -1), StaleSend(3),
                    OneBusy(STALE_3, 0), OneSlotHistory([FIRST_3], 0, 0))
  {
    assert !TimeAfter(0, 400);
    OneBusySend(STALE_2, 0, 3, 30);
    assert Handle(STALE_2, 3, 30, 0) == Handled(STALE_3, true, None);
    SendingSame(STALE_2, 0, [FIRST_2], 0, -1, 30, true);
    assert Renewed(FIRST_2, 30, true) == FIRST_3;
    assert [FIRST_2][0 := FIRST_3] == [FIRST_3];
    hide FilterSend, Age, Match, AllocIndex, Track, Initial, Handle, TimeAfter, Sending, OneSlotHistory, OneBusy, Renewed;
  }

  lemma Stale4()
    ensures Track(OneBusy(STALE_3, 0), OneSlotHistory([FIRST_3], 0, 0)) ==>
              Leads(OneBusy(STALE_3, 0), OneSlotHistory([FIRST_3], 0, 0), StaleSend(4),
                    OneBusy(STALE_4, 1000), OneSlotHistory([FIRST_3, Begun(0, SECOND, 5)], 1, 0))
  {
    OneBusyReopened(STALE_3, 4, SECOND, 5);
    assert Opened(STALE_3, Ack(SECOND, 5, 0), 1000) == STALE_4;
    var a := Age(OneBusy(STALE_3, 0), 1000);
    assert |a.slots| == TCP_ACK_NUM;
    hide FilterSend, Age, Match, AllocIndex, Track, Initial, Sending, OneSlotHistory, OneBusy, Begun, Opened;
    SendingOpens(a, [FIRST_3], 0, 0, Ack(SECOND, 5, 0), false);
    assert [FIRST_3] + [Begun(0, SECOND, 5)] == [FIRST_3, Begun(0, SECOND, 5)];
  }

  lemma Stale5()
    ensures Track(OneBusy(STALE_4, 1000), OneSlotHistory([FIRST_3, Begun(0, SECOND, 5)], 1, 0)) ==>
              Leads(OneBusy(STALE_4, 1000), OneSlotHistory([FIRST_3, Begun(0, SECOND, 5)], 1, 0), StaleSend(5),
                    OneBusy(STALE_5, 1000), OneSlotHistory([FIRST_5, SECOND_5], 1, 1))
  {
    assert !TimeAfter(1000, 1400);
    OneBusySend(STALE_4, 1000, 5, 6);
    assert Handle(STALE_4, 5, 6, 1000) == Handled(STALE_5, true, Some(3));
    SendingSame(STALE_4, 1000, [FIRST_3, Begun(0, SECOND, 5)], 1, 0, 6, true);
    assert Lost(FIRST_3) == FIRST_5 && Renewed(Begun(0, SECOND, 5), 6, true) == SECOND_5;
    assert [FIRST_3, Begun(0, SECOND, 5)][0 := FIRST_5] == [FIRST_5, Begun(0, SECOND, 5)];
    assert [FIRST_5, Begun(0, SECOND, 5)][1 := SECOND_5] == [FIRST_5, SECOND_5];
    hide FilterSend, Age, Match, AllocIndex, Track, Initial, Handle, TimeAfter, Sending, OneSlotHistory, OneBusy, Renewed, Begun, Lost;
  }

  /** A run of one event more. */
  lemma RunStep(st: State, h: History, k: nat, st': State, h': History)
    requires 1 <= k <= 5 && Leads(st, h, StaleSend(k), st', h')
    ensures Track(st', h') && RunOn(st, h, StaleFrom(k)) == RunOn(st', h', StaleFrom(k + 1))
  {
    StepTrack(st, h, StaleSend(k));
    assert StaleFrom(k)[0] == StaleSend(k) && StaleFrom(k)[1..] == StaleFrom(k + 1);
    hide Track, After, Chronicle, StaleSend;
  }

  function StaleFrom(k: nat): seq<Event>
    decreases 6 - k
  {
    if k == 0 || k > 5 then [] else [StaleSend(k)] + StaleFrom(k + 1)
  }

  /**
   * The ACK 30 of the first flow is held while that flow expires; the second flow
   * takes over the slot and its next ACK drops it. Of the first flow only 10 and
   * 20 were ever sent: its epoch is not covered. That of the second flow is.
   */
  lemma StaleHeldIsDropped()
    ensures Chronicled(0, StaleFrom(1)) == (OneBusy(STALE_5, 1000), OneSlotHistory([FIRST_5, SECOND_5], 1, 1))
    ensures InSpan(FIRST_5.seen, 10) && !Covered(FIRST_5) && Covered(SECOND_5)
  {
    InitialTrack(0);
    Stale1();
    Stale2();
    Stale3();
    Stale4();
    Stale5();
    NotCovered();
    hide *;
    RunStep(Initial(0), NoHistory(), 1, OneBusy(STALE_1, 0), OneSlotHistory([Begun(0, FIRST, 10)], 0, -1));
    RunStep(OneBusy(STALE_1, 0), OneSlotHistory([Begun(0, FIRST, 10)], 0, -1), 2, OneBusy(STALE_2, 0), OneSlotHistory([FIRST_2], 0, -1));
    RunStep(OneBusy(STALE_2, 0), OneSlotHistory([FIRST_2], 0, -1), 3, OneBusy(STALE_3, 0), OneSlotHistory([FIRST_3], 0, 0));
    RunStep(OneBusy(STALE_3, 0), OneSlotHistory([FIRST_3], 0, 0), 4,
            OneBusy(STALE_4, 1000), OneSlotHistory([FIRST_3, Begun(0, SECOND, 5)], 1, 0));
    RunStep(OneBusy(STALE_4, 1000), OneSlotHistory([FIRST_3, Begun(0, SECOND, 5)], 1, 0), 5,
            OneBusy(STALE_5, 1000), OneSlotHistory([FIRST_5, SECOND_5], 1, 1));
    RunEnds(OneBusy(STALE_5, 1000), OneSlotHistory([FIRST_5, SECOND_5], 1, 1));
  }

  lemma RunEnds(st: State, h: History)
    requires Track(st, h)
    ensures RunOn(st, h, StaleFrom(6)) == (st, h)
    ensures Chronicled(0, StaleFrom(1)) == (InitialTrack(0); RunOn(Initial(0), NoHistory(), StaleFrom(1)))
  {
    hide Track;
  }

  lemma NotCovered()
    ensures InSpan(FIRST_5.seen, 10) && !Covered(FIRST_5) && Covered(SECOND_5)
  {
    assert 30 in FIRST_5.dropped;
    assert !Before(30, 10) && !Before(30, 20);
    hide Before;
  }
}
