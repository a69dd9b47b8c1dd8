// The band-steering block list of aicwf_steering.c: 64 entries with a countdown
// each, proved to be a bounded map from addresses to the passes left.

module Steering {
  const ENTRY_NUM := 64
  const BLOCK_ENTRY_EXPIRE := 60
  const ROAM_BLOCK_ENTRY_EXPIRE := 5

  type Mac(==, !new) = nat                        // 48 bits

  datatype Entry = Entry(used: bool, mac: Mac, expire: nat)

  // ----- The map -------------------------------------------------------------------------

  function Add(m: map<Mac, nat>, mac: Mac): map<Mac, nat> {
    if mac in m || |m| < ENTRY_NUM then m[mac := BLOCK_ENTRY_EXPIRE] else m
  }

  function RoamAdd(m: map<Mac, nat>, mac: Mac): map<Mac, nat> {
    if mac in m || |m| == ENTRY_NUM then m else m[mac := ROAM_BLOCK_ENTRY_EXPIRE]
  }

  function Del(m: map<Mac, nat>, mac: Mac): map<Mac, nat> { m - {mac} }

  /** Everything has one pass less, and what has none left is gone. */
  function Expire(m: map<Mac, nat>): map<Mac, nat> { map mac | mac in m && m[mac] > 1 :: m[mac] - 1 }

  datatype Op = AddOp(mac: Mac) | RoamOp(mac: Mac) | DelOp(mac: Mac) | ExpireOp

  function Step(m: map<Mac, nat>, op: Op): map<Mac, nat> {
    match op
    case AddOp(mac) => Add(m, mac)
    case RoamOp(mac) => RoamAdd(m, mac)
    case DelOp(mac) => Del(m, mac)
    case ExpireOp => Expire(m)
  }

  function Run(m: map<Mac, nat>, ops: seq<Op>): map<Mac, nat>
    decreases |ops|
  {
    if ops == [] then m else Run(Step(m, ops[0]), ops[1..])
  }

  function Passes(ops: seq<Op>): nat {
    if ops == [] then 0 else (if ops[0].ExpireOp? then 1 else 0) + Passes(ops[1..])
  }

  /**
   * Whatever is done to other addresses, and whatever roaming adds for its own,
   * an address that is neither refreshed nor deleted is blocked for exactly as
   * many passes as it had, 60 after a block and 5 after roaming: it is there
   * before the last of them and gone right after it, and stays out unless
   * roaming adds it again.
   */
  lemma {:induction false} BlockedUntil(m: map<Mac, nat>, mac: Mac, ops: seq<Op>)
    requires mac in m && m[mac] >= 1 && AddOp(mac) !in ops && DelOp(mac) !in ops
    ensures Passes(ops) < m[mac] ==> mac in Run(m, ops) && Run(m, ops)[mac] == m[mac] - Passes(ops)
    ensures ops != [] && ops[|ops| - 1].ExpireOp? && Passes(ops) == m[mac] ==> mac !in Run(m, ops)
    ensures Passes(ops) >= m[mac] && RoamOp(mac) !in ops ==> mac !in Run(m, ops)
    decreases |ops|
  {
    if ops != [] {
      var n := Step(m, ops[0]);
      if |ops| > 1 && ops[|ops| - 1].ExpireOp? {
        LastPass(ops[1..]);
      }
      if mac in n {
        BlockedUntil(n, mac, ops[1..]);
      } else {
        StaysOut(n, mac, ops[1..]);
      }
    }
  }

  lemma {:induction false} LastPass(ops: seq<Op>)
    requires ops != [] && ops[|ops| - 1].ExpireOp?
    ensures Passes(ops) >= 1
  {
    if |ops| > 1 {
      LastPass(ops[1..]);
    }
  }

  lemma {:induction false} StaysOut(m: map<Mac, nat>, mac: Mac, ops: seq<Op>)
    requires mac !in m && AddOp(mac) !in ops
    ensures RoamOp(mac) !in ops ==> mac !in Run(m, ops)
    decreases |ops|
  {
    if ops != [] && RoamOp(mac) !in ops {
      StaysOut(Step(m, ops[0]), mac, ops[1..]);
    }
  }

  ghost predicate OthersKept(m: map<Mac, nat>, m': map<Mac, nat>, mac: Mac) {
    forall c :: c != mac ==> (c in m' <==> c in m) && (c in m ==> m'[c] == m[c])
  }

  /**
   * A block, new or refreshed, lasts for exactly 60 passes; without an entry to
   * spare it does nothing. No other address is touched.
   */
  lemma BlockLasts(m: map<Mac, nat>, mac: Mac, ops: seq<Op>)
    requires AddOp(mac) !in ops && DelOp(mac) !in ops
    ensures var after := Run(m, [AddOp(mac)] + ops);
            mac in m || |m| < 64 ==>
              && (Passes(ops) < 60 ==> mac in after && after[mac] == 60 - Passes(ops))
              && (ops != [] && ops[|ops| - 1].ExpireOp? && Passes(ops) == 60 ==> mac !in after)
    ensures OthersKept(m, Run(m, [AddOp(mac)]), mac) && (mac !in m && |m| >= 64 ==> Run(m, [AddOp(mac)]) == m)
  {
    assert ([AddOp(mac)] + ops)[1..] == ops && [AddOp(mac)][1..] == [];
    if mac in m || |m| < 64 {
      BlockedUntil(Add(m, mac), mac, ops);
    }
    assert Run(m, [AddOp(mac)]) == Add(m, mac);
  }

  /** A roam block lasts for 5 passes if the address was not blocked, and changes nothing if it was. */
  lemma RoamLasts(m: map<Mac, nat>, mac: Mac, ops: seq<Op>)
    requires AddOp(mac) !in ops && DelOp(mac) !in ops && mac !in m && |m| < 64
    ensures var after := Run(m, [RoamOp(mac)] + ops);
            && (Passes(ops) < 5 ==> mac in after && after[mac] == 5 - Passes(ops))
            && (ops != [] && ops[|ops| - 1].ExpireOp? && Passes(ops) == 5 ==> mac !in after)
    ensures OthersKept(m, Run(m, [RoamOp(mac)]), mac)
  {
    assert ([RoamOp(mac)] + ops)[1..] == ops && [RoamOp(mac)][1..] == [];
    BlockedUntil(RoamAdd(m, mac), mac, ops);
    assert Run(m, [RoamOp(mac)]) == RoamAdd(m, mac);
  }

  lemma RoamKeeps(m: map<Mac, nat>, mac: Mac)
    requires mac in m || |m| == 64
    ensures Run(m, [RoamOp(mac)]) == m
  {
    assert [RoamOp(mac)][1..] == [];
    assert Run(m, [RoamOp(mac)]) == RoamAdd(m, mac);
  }

  /** A deleted address is not blocked again before it is added again. */
  lemma DeletedIsOut(m: map<Mac, nat>, mac: Mac, ops: seq<Op>)
    requires AddOp(mac) !in ops && RoamOp(mac) !in ops
    ensures mac !in Run(m, [DelOp(mac)] + ops) && OthersKept(m, Run(m, [DelOp(mac)]), mac)
  {
    assert ([DelOp(mac)] + ops)[1..] == ops && [DelOp(mac)][1..] == [];
    StaysOut(Del(m, mac), mac, ops);
    assert Run(m, [DelOp(mac)]) == Del(m, mac);
  }

  // ----- The list as a map -------------------------------------------------------------

  ghost predicate Sound(list: seq<Entry>) {
    && (forall i :: 0 <= i < |list| && list[i].used ==> 1 <= list[i].expire)
    && (forall i, j :: 0 <= i < j < |list| && list[i].used && list[j].used ==> list[i].mac != list[j].mac)
  }

  ghost function MapOf(list: seq<Entry>): map<Mac, nat> {
    if list == [] then map[]
    else
      var m, e := MapOf(list[..|list| - 1]), list[|list| - 1];
      if e.used then m[e.mac := e.expire] else m
  }

  /** The first used entry of the address from k on, or -1. */
  function Find(list: seq<Entry>, mac: Mac, k: nat): (i: int)
    requires k <= |list|
    ensures -1 <= i < |list|
    ensures i >= 0 ==> k <= i && list[i].used && list[i].mac == mac
    ensures i < 0 ==> forall j :: k <= j < |list| ==> !(list[j].used && list[j].mac == mac)
    decreases |list| - k
  {
    if k == |list| then -1 else if list[k].used && list[k].mac == mac then k else Find(list, mac, k + 1)
  }

  lemma {:induction false} MapFinds(list: seq<Entry>, mac: Mac)
    requires Sound(list)
    ensures mac in MapOf(list) <==> Find(list, mac, 0) >= 0
    ensures forall i :: 0 <= i < |list| && list[i].used && list[i].mac == mac ==> mac in MapOf(list) && MapOf(list)[mac] == list[i].expire
  {
    if list != [] {
      var init := list[..|list| - 1];
      MapFinds(init, mac);
      assert forall i :: 0 <= i < |init| ==> init[i] == list[i];
    }
  }

  lemma {:induction false} MapSize(list: seq<Entry>)
    requires Sound(list)
    ensures |MapOf(list)| <= |list|
    ensures |MapOf(list)| == |list| <==> forall i :: 0 <= i < |list| ==> list[i].used
  {
    if list != [] {
      var init, e := list[..|list| - 1], list[|list| - 1];
      MapSize(init);
      assert forall i :: 0 <= i < |init| ==> init[i] == list[i];
      if e.used {
        MapFinds(init, e.mac);
        assert e.mac !in MapOf(init);
        assert MapOf(list).Keys == MapOf(init).Keys + {e.mac};
      }
    }
  }

  /** A map that has what the list has is its map. */
  lemma MapUnique(list: seq<Entry>, m: map<Mac, nat>)
    requires Sound(list)
    requires forall i :: 0 <= i < |list| && list[i].used ==> list[i].mac in m && m[list[i].mac] == list[i].expire
    requires forall mac :: mac in m ==> Find(list, mac, 0) >= 0
    ensures MapOf(list) == m
  {
    forall mac
      ensures mac in MapOf(list) <==> mac in m
      ensures mac in m ==> MapOf(list)[mac] == m[mac]
    {
      MapFinds(list, mac);
    }
    hide MapOf;
  }

  lemma SetEntry(list: seq<Entry>, i: nat, mac: Mac, expire: nat)
    requires Sound(list) && i < |list| && expire >= 1
    requires if list[i].used then list[i].mac == mac else mac !in MapOf(list)
    ensures Sound(list[i := Entry(true, mac, expire)])
    ensures MapOf(list[i := Entry(true, mac, expire)]) == MapOf(list)[mac := expire]
  {
    var after, m := list[i := Entry(true, mac, expire)], MapOf(list)[mac := expire];
    MapFinds(list, mac);
    assert Sound(after);
    forall j | 0 <= j < |after| && after[j].used
      ensures after[j].mac in m && m[after[j].mac] == after[j].expire
    {
      MapFinds(list, after[j].mac);
    }
    forall c | c in m
      ensures Find(after, c, 0) >= 0
    {
      MapFinds(list, c);
      if c == mac {
        assert after[i].used && after[i].mac == c;
      } else {
        var j := Find(list, c, 0);
        assert after[j].used && after[j].mac == c;
      }
    }
    MapUnique(after, m);
  }

  lemma ClearEntry(list: seq<Entry>, i: nat)
    requires Sound(list) && i < |list| && list[i].used
    ensures Sound(list[i := list[i].(used := false)])
    ensures MapOf(list[i := list[i].(used := false)]) == MapOf(list) - {list[i].mac}
  {
    var after, m := list[i := list[i].(used := false)], MapOf(list) - {list[i].mac};
    assert Sound(after);
    forall j | 0 <= j < |after| && after[j].used
      ensures after[j].mac in m && m[after[j].mac] == after[j].expire
    {
      MapFinds(list, after[j].mac);
    }
    forall c | c in m
      ensures Find(after, c, 0) >= 0
    {
      MapFinds(list, c);
      var j := Find(list, c, 0);
      assert after[j].used && after[j].mac == c;
    }
    MapUnique(after, m);
  }

  function Ticked(e: Entry): Entry {
    if e.used && e.expire > 0 then Entry(e.expire > 1, e.mac, e.expire - 1) else e
  }

  lemma TickedMap(list: seq<Entry>, after: seq<Entry>)
    requires Sound(list) && |after| == |list| && forall i :: 0 <= i < |list| ==> after[i] == Ticked(list[i])
    ensures Sound(after) && MapOf(after) == Expire(MapOf(list))
  {
    var m := Expire(MapOf(list));
    forall j | 0 <= j < |after| && after[j].used
      ensures after[j].mac in m && m[after[j].mac] == after[j].expire
    {
      MapFinds(list, after[j].mac);
    }
    forall c | c in m
      ensures Find(after, c, 0) >= 0
    {
      MapFinds(list, c);
      var j := Find(list, c, 0);
      assert after[j].used && after[j].mac == c;
    }
    MapUnique(after, m);
  }

  class BlockList {
    var inited: bool
    const blockList: array<Entry>

    ghost predicate Valid()
      reads this, blockList
    {
      blockList.Length == ENTRY_NUM && (inited ==> Sound(blockList[..]))
    }

    ghost function Blocked(): map<Mac, nat>
      reads this, blockList
    {
      MapOf(blockList[..])
    }

    constructor ()
      ensures Valid() && !inited && fresh(blockList)
    {
      inited, blockList := false, new Entry[ENTRY_NUM](_ => Entry(false, 0, 0));
    }

    /** aicwf_band_steering_init */
    method Init()
      requires Valid()
      modifies this, blockList
      ensures Valid() && inited && Blocked() == map[]
    {
      inited := true;
      for i := 0 to ENTRY_NUM
        invariant blockList.Length == ENTRY_NUM && inited && forall k :: 0 <= k < i ==> blockList[k] == Entry(false, 0, 0)
      {
        blockList[i] := Entry(false, 0, 0);
      }
      MapUnique(blockList[..], map[]);
    }

    method Lookup(mac: Mac) returns (ent: int)
      requires Valid() && inited
      ensures ent == Find(blockList[..], mac, 0)
    {
      for i := 0 to ENTRY_NUM
        invariant Find(blockList[..], mac, 0) == Find(blockList[..], mac, i)
      {
        if blockList[i].used && blockList[i].mac == mac {
          return i;
        }
      }
      ent := -1;
    }

    /** Whether the address is blocked; nothing is before the list is set up. */
    method BlockChk(mac: Mac) returns (ret: bool)
      requires Valid()
      ensures ret <==> inited && mac in Blocked()
    {
      if !inited {
        return false;
      }
      MapFinds(blockList[..], mac);
      var ent := Lookup(mac);
      ret := ent >= 0;
    }

    method FindEmpty() returns (ent: int)
      requires Valid() && inited
      ensures if |Blocked()| == ENTRY_NUM then ent == -1 else 0 <= ent < ENTRY_NUM && !blockList[ent].used
    {
      MapSize(blockList[..]);
      for i := 0 to ENTRY_NUM
        invariant forall k :: 0 <= k < i ==> blockList[k].used
      {
        if !blockList[i].used {
          assert !blockList[..][i].used;
          return i;
        }
      }
      ent := -1;
    }

    method SetAt(i: nat, mac: Mac, expire: nat)
      requires Valid() && inited && i < ENTRY_NUM && expire >= 1
      requires if blockList[i].used then blockList[i].mac == mac else mac !in Blocked()
      modifies blockList
      ensures Valid() && Blocked() == old(Blocked())[mac := expire]
    {
      SetEntry(blockList[..], i, mac, expire);
      ghost var was := blockList[..];
      hide Sound, MapOf;
      blockList[i] := Entry(true, mac, expire);
      assert blockList[..] == was[i := blockList[i]];
    }

    method BlockEntryAdd(mac: Mac)
      requires Valid()
      modifies blockList
      ensures Valid() && (inited ==> Blocked() == Add(old(Blocked()), mac)) && (!inited ==> blockList[..] == old(blockList[..]))
    {
      if !inited {
        return;
      }
      MapFinds(blockList[..], mac);
      MapSize(blockList[..]);
      hide Sound, MapOf;
      var ent := Lookup(mac);
      if ent >= 0 {
        SetAt(ent, mac, BLOCK_ENTRY_EXPIRE);
        return;
      }
      ent := FindEmpty();
      if ent >= 0 {
        SetAt(ent, mac, BLOCK_ENTRY_EXPIRE);
      }
    }

    method RoamBlockEntryAdd(mac: Mac)
      requires Valid()
      modifies blockList
      ensures Valid() && (inited ==> Blocked() == RoamAdd(old(Blocked()), mac)) && (!inited ==> blockList[..] == old(blockList[..]))
    {
      if !inited {
        return;
      }
      MapFinds(blockList[..], mac);
      hide Sound, MapOf;
      var ent := Lookup(mac);
      if ent >= 0 {
        return;
      }
      ent := FindEmpty();
      if ent >= 0 {
        SetAt(ent, mac, ROAM_BLOCK_ENTRY_EXPIRE);
      }
    }

    method BlockEntryDel(mac: Mac)
      requires Valid()
      modifies blockList
      ensures Valid() && (inited ==> Blocked() == Del(old(Blocked()), mac)) && (!inited ==> blockList[..] == old(blockList[..]))
    {
      if !inited {
        return;
      }
      MapFinds(blockList[..], mac);
      ghost var was := blockList[..];
      var ent := Lookup(mac);
      if ent >= 0 {
        ClearEntry(was, ent);
        hide Sound, MapOf;
        blockList[ent] := blockList[ent].(used := false);
        assert blockList[..] == was[ent := blockList[ent]];
      }
    }

    method ExpirePass()
      requires Valid()
      modifies blockList
      ensures Valid() && (inited ==> Blocked() == Expire(old(Blocked()))) && (!inited ==> blockList[..] == old(blockList[..]))
    {
      if !inited {
        return;
      }
      ghost var was := blockList[..];
      for i := 0 to ENTRY_NUM
        invariant forall k :: 0 <= k < ENTRY_NUM ==> blockList[k] == if k < i then Ticked(was[k]) else was[k]
      {
        if blockList[i].used {
          if blockList[i].expire > 0 {
            blockList[i] := blockList[i].(expire := blockList[i].expire - 1);
            if blockList[i].expire == 0 {
              blockList[i] := blockList[i].(used := false);
            }
          }
        }
      }
      TickedMap(was, blockList[..]);
    }

    /** At most 64 addresses are blocked, each with a pass left. */
    lemma Bounded()
      requires Valid() && inited
      ensures |Blocked()| <= ENTRY_NUM && forall mac :: mac in Blocked() ==> Blocked()[mac] >= 1
    {
      MapSize(blockList[..]);
      forall mac | mac in Blocked()
        ensures Blocked()[mac] >= 1
      {
        MapFinds(blockList[..], mac);
      }
    }
  }
}
