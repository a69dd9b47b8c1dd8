// The ack_info array of aicwf_tcp_ack.c, updated in place call by call. Each
// call is proved to do what TcpAck says it does to the table as a value.

module TcpAckTable {
  import opened Common
  import opened TcpAck

  /** The slots when the ageing loop has come down to i, and the counters then. */
  ghost function AgedFrom(slots: seq<Slot>, now: int, i: nat): (r: seq<Slot>)
    ensures |r| == |slots|
  {
    seq(|slots|, k requires 0 <= k < |slots| => if k >= i then Aged(slots[k], now) else slots[k])
  }

  ghost function Freed(slots: seq<Slot>, now: int, i: nat): int {
    |Busy(slots) - Busy(AgedFrom(slots, now, i))|
  }

  lemma AgeStep(slots: seq<Slot>, now: int, i: nat)
    requires i < |slots|
    ensures AgedFrom(slots, now, i + 1)[i] == slots[i]
    ensures AgedFrom(slots, now, i) == AgedFrom(slots, now, i + 1)[i := Aged(slots[i], now)]
    ensures Freed(slots, now, i) == Freed(slots, now, i + 1) + if slots[i].Expired(now) then 1 else 0
    ensures FirstExpired(slots, now, i) == if slots[i].Expired(now) then i else FirstExpired(slots, now, i + 1)
  {
    hide TimeAfter, FirstExpired;
    var next, all := AgedFrom(slots, now, i + 1), AgedFrom(slots, now, i);
    if slots[i].Expired(now) {
      assert Busy(slots) - Busy(all) == (Busy(slots) - Busy(next)) + {i};
    } else {
      assert all == next;
    }
    FirstExpiredStep(slots, now, i);
  }

  lemma FirstExpiredStep(slots: seq<Slot>, now: int, k: nat)
    requires k < |slots|
    ensures FirstExpired(slots, now, k) == if slots[k].Expired(now) then k else FirstExpired(slots, now, k + 1)
  {
  }

  lemma AgeEnds(slots: seq<Slot>, now: int)
    ensures AgedFrom(slots, now, 0) == AgedSlots(slots, now)
    ensures AgedFrom(slots, now, |slots|) == slots
    ensures Freed(slots, now, |slots|) == 0
    ensures FirstExpired(slots, now, |slots|) == -1
  {
    assert Busy(slots) - Busy(slots) == {};
  }

  /** The whole call, in terms of what its loop counts. */
  lemma AgeIs(st: State, now: int)
    ensures Age(st, now) ==
            if TimeAfter(now, st.lastTime + ACK_OLD_TIME) then
              State(st.enable, st.maxNum - Freed(st.slots, now, 0),
                    if FirstExpired(st.slots, now, 0) >= 0 then FirstExpired(st.slots, now, 0) else st.freeIndex,
                    now, AgedFrom(st.slots, now, 0))
            else st
  {
    hide TimeAfter;
    AgeEnds(st.slots, now);
  }

  /** What the slots below k hold of a message, and what a call has dropped of it. */
  lemma HeldSnoc(slots: seq<Slot>, k: nat, m: Msg)
    requires k < |slots|
    ensures Held(slots[..k + 1], m) == Held(slots[..k], m) + One(slots[k].msgbuf, m)
  {
    assert slots[..k + 1][..k] == slots[..k];
  }

  class AckManager {
    var enable: bool
    var maxNum: int
    var freeIndex: int
    var lastTime: int
    const slots: array<Slot>

    ghost function St(): (st: State)
      reads this, slots
      ensures st.slots == slots[..]
    {
      State(enable, maxNum, freeIndex, lastTime, slots[..])
    }

    ghost predicate Valid()
      reads this, slots
    {
      slots.Length == TCP_ACK_NUM && -1 <= freeIndex < TCP_ACK_NUM
    }

    /** tcp_ack_init */
    constructor (now: int)
      ensures Valid() && fresh(slots) && St() == Initial(now)
    {
      var a := new Slot[TCP_ACK_NUM](_ => Slot(false, 0, false, 0, 0, 0, None, None, Flow(0, 0, 0, 0), 0));
      for i := 0 to TCP_ACK_NUM
        invariant forall k :: 0 <= k < TCP_ACK_NUM ==>
                    a[k] == Slot(false, 0, false, 0, 0, if k < i then now else 0, None, None, Flow(0, 0, 0, 0), 0)
      {
        a[i] := a[i].(lastTime := now);
      }
      enable, maxNum, freeIndex, lastTime, slots := true, 0, 0, now, a;
      new;
      assert slots[..] == Initial(now).slots;
    }

    method TcpAckUpdate(now: int)
      requires Valid()
      modifies this, slots
      ensures Valid() && St() == Age(old(St()), now)
    {
      AgeIs(St(), now);
      hide Age, AgedFrom, Freed, FirstExpired, TimeAfter, Busy;
      if TimeAfter(now, lastTime + ACK_OLD_TIME) {
        lastTime := now;
        AgeAll(now);
      }
    }

    /** The loop of tcp_ack_update, down from the last slot. */
    method AgeAll(now: int)
      requires Valid()
      modifies `freeIndex, `maxNum, slots
      ensures Valid() && slots[..] == AgedFrom(old(slots[..]), now, 0)
      ensures freeIndex == var first := FirstExpired(old(slots[..]), now, 0); if first >= 0 then first else old(freeIndex)
      ensures maxNum == old(maxNum) - Freed(old(slots[..]), now, 0)
    {
      ghost var was := slots[..];
      AgeEnds(was, now);
      hide AgedFrom, AgedSlots, Freed, FirstExpired, TimeAfter, Busy;
      var i := TCP_ACK_NUM;
      while i > 0
        invariant 0 <= i <= TCP_ACK_NUM
        invariant slots[..] == AgedFrom(was, now, i)
        invariant freeIndex == (if FirstExpired(was, now, i) >= 0 then FirstExpired(was, now, i) else old(freeIndex))
        invariant maxNum == old(maxNum) - Freed(was, now, i)
      {
        i := i - 1;
        AgeStep(was, now, i);
        assert slots[i] == slots[..][i];
        if slots[i].Expired(now) {
          freeIndex := i;
          maxNum := maxNum - 1;
          slots[i] := slots[i].(busy := false);
        }
      }
    }

    method TcpAckMatch(f: Flow) returns (ret: int)
      requires Valid()
      ensures ret == Match(slots[..], f, 0)
    {
      ret := -1;
      var i := 0;
      while ret < 0 && i < TCP_ACK_NUM
        invariant 0 <= i <= TCP_ACK_NUM && -1 <= ret < TCP_ACK_NUM
        invariant Match(slots[..], f, 0) == if ret >= 0 then ret else Match(slots[..], f, i)
        decreases TCP_ACK_NUM - i
      {
        if slots[i].Serves(f) {
          ret := i;
        }
        i := i + 1;
      }
    }

    method TcpAckAllocIndex() returns (ret: int)
      requires Valid()
      modifies this
      ensures Valid() && -1 <= ret < TCP_ACK_NUM && ret == AllocIndex(old(St()))
      ensures St() == if ret < 0 then old(St()) else old(St()).(maxNum := old(maxNum) + 1, freeIndex := -1)
    {
      if maxNum == TCP_ACK_NUM {
        return -1;
      }
      if freeIndex >= 0 {
        ret := freeIndex;
        freeIndex := -1;
        maxNum := maxNum + 1;
        return;
      }
      ret := -1;
      var i := 0;
      while ret < 0 && i < TCP_ACK_NUM
        invariant 0 <= i <= TCP_ACK_NUM && -1 <= ret < TCP_ACK_NUM && freeIndex == -1
        invariant enable == old(enable) && lastTime == old(lastTime) && maxNum == old(maxNum) + (if ret < 0 then 0 else 1)
        invariant FirstFree(slots[..], 0) == if ret >= 0 then ret else FirstFree(slots[..], i)
        decreases TCP_ACK_NUM - i
      {
        if !slots[i].busy {
          freeIndex := -1;
          maxNum := maxNum + 1;
          ret := i;
        }
        i := i + 1;
      }
    }

    method TcpAckHandleNew(msg: Msg, i: nat, seqNo: u32, now: int) returns (ret: bool, dropMsg: Option<Msg>)
      requires Valid() && i < TCP_ACK_NUM
      modifies slots
      ensures Handled(slots[i], ret, dropMsg) == Handle(old(slots[i]), msg, seqNo, now)
      ensures slots[..] == old(slots[..])[i := slots[i]]
    {
      var quickAck := false;
      ret, dropMsg := false, None;
      var s := slots[i];
      s := s.(lastTime := now);
      if Before(s.seqNo, seqNo) {
        if s.msgbuf.Some? {
          dropMsg := s.msgbuf;
          s := s.(msgbuf := None);
        }
        if s.pshFlag && !Before(seqNo, s.pshSeq) {
          s := s.(pshFlag := false);
          quickAck := true;
        } else {
          s := s.(dropCnt := s.dropCnt + 1);
        }
        s := s.(seqNo := seqNo);
        if quickAck || (s.inSendMsg.None? && s.dropCnt >= TCP_ACK_DROP_CNT) {
          s := s.(dropCnt := 0, inSendMsg := Some(msg));
        } else {
          ret := true;
          s := s.(msgbuf := Some(msg));
        }
      } else {
        dropMsg := Some(msg);
        ret := true;
      }
      slots[i] := s;
    }

    /** What tcp_check_ack reads from the frame comes in as `ack`. */
    method FilterSendTcpAck(msg: Msg, ack: Checked, now: int) returns (ret: bool, dropMsg: Option<Msg>)
      requires Valid()
      modifies this, slots
      ensures Valid() && Sent(St(), ret, dropMsg) == FilterSend(old(St()), msg, ack, now)
    {
      ret, dropMsg := false, None;
      TcpAckUpdate(now);
      if ack.NotAnAck? {
        return;
      }
      ghost var a := St();
      var index := TcpAckMatch(ack.flow);
      if index >= 0 {
        if ack.winScale != 0 && slots[index].winScale != ack.winScale {
          slots[index] := slots[index].(winScale := ack.winScale);
        }
        if enable {
          ret, dropMsg := TcpAckHandleNew(msg, index, ack.seqNo, now);
        }
        assert slots[..] == a.slots[index := slots[index]];
      } else {
        index := TcpAckAllocIndex();
        if index >= 0 {
          slots[index] := slots[index].(busy := true);
          slots[index] := slots[index].(pshFlag := false, lastTime := now, dropCnt := TCP_ACK_DROP_CNT);
          slots[index] := slots[index].(winScale := if ack.winScale != 0 then ack.winScale else 1);
          slots[index] := slots[index].(flow := ack.flow, seqNo := ack.seqNo);
          assert slots[..] == a.slots[index := slots[index]];
        }
      }
    }

    /** The reversed flow and the number of a pushed segment, as tcp_check_quick_ack reads them. */
    method FilterRxTcpAck(f: Flow, seqNo: u32)
      requires Valid()
      modifies slots
      ensures Valid() && St() == FilterRx(old(St()), f, seqNo)
    {
      if !enable {
        return;
      }
      var index := TcpAckMatch(f);
      if index >= 0 {
        slots[index] := slots[index].(pshFlag := true, pshSeq := seqNo);
      }
    }

    /** The timer of slot i; the result is handed to intf_tx. */
    method TcpAckTimeout(i: nat) returns (msg: Option<Msg>)
      requires Valid() && i < TCP_ACK_NUM
      modifies slots
      ensures Valid() && St() == Timeout(old(St()), i)
      ensures msg == if TimerSends(old(slots[i])) then old(slots[i]).msgbuf else None
    {
      msg := None;
      var s := slots[i];
      if s.busy && s.msgbuf.Some? && s.inSendMsg.None? {
        msg := s.msgbuf;
        slots[i] := s.(msgbuf := None, dropCnt := 0, inSendMsg := msg);
      }
    }

    method MoveTcpackMsg(msg: Msg)
      requires Valid()
      modifies slots
      ensures Valid() && St() == MoveMsg(old(St()), msg)
    {
      if !enable {
        return;
      }
      for i := 0 to TCP_ACK_NUM
        invariant forall k :: 0 <= k < TCP_ACK_NUM ==>
                    slots[k] == if k < i then SendDone(old(slots[k]), msg) else old(slots[k])
      {
        if slots[i].busy && slots[i].inSendMsg == Some(msg) {
          slots[i] := slots[i].(inSendMsg := None);
        }
      }
      assert slots[..] == MoveMsg(old(St()), msg).slots;
    }

    /** Every held message is dropped, as often as it is held. */
    method TcpAckDeinit() returns (dropped: seq<Msg>)
      requires Valid()
      modifies `enable, slots
      ensures Valid() && St() == Deinit(old(St()))
      ensures forall m :: multiset(dropped)[m] == Held(old(slots[..]), m)
    {
      ghost var was := slots[..];
      dropped := [];
      enable := false;
      for i := 0 to TCP_ACK_NUM
        invariant forall k :: 0 <= k < TCP_ACK_NUM ==>
                    slots[k] == if k < i then was[k].(msgbuf := None) else was[k]
        invariant forall m :: multiset(dropped)[m] == Held(was[..i], m)
        invariant !enable
      {
        forall m {
          HeldSnoc(was, i, m);
        }
        var dropMsg := slots[i].msgbuf;
        slots[i] := slots[i].(msgbuf := None);
        if dropMsg.Some? {
          dropped := dropped + [dropMsg.value];
        }
      }
      assert was[..TCP_ACK_NUM] == was;
      assert slots[..] == Deinit(old(St())).slots;
    }
  }
}
