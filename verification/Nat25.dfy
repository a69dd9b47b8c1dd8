// The NAT2.5 address table of aic_br_ext.c: sixteen intrusive chains whose
// entries point back at the cell that points to them, refining a finite map.

module Nat25 {
  import opened Common

  type Bytes = seq<bv8>

  const MAX_NETWORK_ADDR_LEN := 17
  const NAT25_HASH_SIZE := 16
  const NAT25_AGEING_TIME := 300
  const HZ := 100
  const LONG_RANGE := 0x1_0000_0000_0000_0000

  type Addr = a: Bytes | |a| == 17 witness seq(17, _ => 0)

  function Xor(a: Bytes, lo: nat, hi: nat): bv8
    requires lo <= hi <= |a|
    decreases hi
  {
    if lo == hi then 0 else Xor(a, lo, hi - 1) ^ a[hi - 1]
  }

  /** The bytes each protocol hashes, folded to a bucket number. */
  function Hash(a: Addr): (h: nat)
    ensures h < NAT25_HASH_SIZE
  {
    var x := match a[0]
      case 1 => Xor(a, 7, 11)    // IPv4
      case 2 => Xor(a, 1, 17)    // IPv6
      case 3 => Xor(a, 1, 11)    // IPX
      case 4 => Xor(a, 1, 4)     // Apple
      case 5 => Xor(a, 0, 9)     // PPPoE
      case _ => Xor(a, 0, 17);
    (x & 15) as nat
  }

  function Ipv4Addr(ip: Bytes): Addr
    requires |ip| == 4
  {
    [1] + seq(6, _ => 0) + ip + seq(6, _ => 0)
  }

  lemma XorNext(a: Bytes, lo: nat, hi: nat)
    requires lo <= hi < |a|
    ensures Xor(a, lo, lo) == 0 && Xor(a, lo, hi + 1) == Xor(a, lo, hi) ^ a[hi]
  {
  }

  lemma XorFour(w: bv8, x: bv8, y: bv8, z: bv8)
    ensures (((0 ^ w) ^ x) ^ y) ^ z == w ^ x ^ y ^ z
  {
  }

  /** The bucket of an IPv4 address is the exclusive or of its four bytes, modulo 16. */
  lemma Ipv4Bucket(ip: Bytes)
    requires |ip| == 4
    ensures Ipv4Addr(ip)[7..11] == ip && Hash(Ipv4Addr(ip)) == ((ip[0] ^ ip[1] ^ ip[2] ^ ip[3]) & 15) as nat
  {
    var a := Ipv4Addr(ip);
    assert a[0] == 1 && a[7] == ip[0] && a[8] == ip[1] && a[9] == ip[2] && a[10] == ip[3];
    assert Hash(a) == (Xor(a, 7, 11) & 15) as nat;
    hide Xor, Hash, Ipv4Addr;
    XorNext(a, 7, 7);
    XorNext(a, 7, 8);
    XorNext(a, 7, 9);
    XorNext(a, 7, 10);
    XorFour(a[7], a[8], a[9], a[10]);
  }

  /** time_before_eq(ageing, now - 300 * HZ) on wrapping jiffies. */
  predicate Expired(ageing: int, now: int) {
    (now - NAT25_AGEING_TIME * HZ - ageing) % LONG_RANGE < LONG_RANGE / 2
  }

  /** Across the wrap, an entry is expired exactly from 300 seconds after it was last refreshed. */
  lemma ExpiredAfter(refreshed: nat, elapsed: nat)
    requires elapsed < LONG_RANGE / 2
    ensures Expired(refreshed % LONG_RANGE, (refreshed + elapsed) % LONG_RANGE) <==> elapsed >= NAT25_AGEING_TIME * HZ
  {
    var d := elapsed - NAT25_AGEING_TIME * HZ;
    var a, n := refreshed % LONG_RANGE, (refreshed + elapsed) % LONG_RANGE;
    var q, p := refreshed / LONG_RANGE, (refreshed + elapsed) / LONG_RANGE;
    assert n - NAT25_AGEING_TIME * HZ - a == d + LONG_RANGE * (q - p);
    assert (d + LONG_RANGE * (q - p)) % LONG_RANGE == d % LONG_RANGE;
  }

  /** atomic_t arithmetic: 32 bits, two's complement. */
  function Signed32(x: int): int {
    (x + 0x8000_0000) % 0x1_0000_0000 - 0x8000_0000
  }

  lemma CountsOn(x: int, d: int)
    ensures Signed32(Signed32(x) + d) == Signed32(x + d)
  {
    var q := (x + 0x8000_0000) / 0x1_0000_0000;
    assert Signed32(x) == x - 0x1_0000_0000 * q;
    assert (x + d + 0x8000_0000 - 0x1_0000_0000 * q) % 0x1_0000_0000 == (x + d + 0x8000_0000) % 0x1_0000_0000;
  }

  /** What the table knows about one address; hits and passes count lookups and expired sweeps. */
  datatype Info = Info(mac: Bytes, ageing: int, hits: nat, passes: nat) {
    function UseCount(): int { Signed32(1 + hits - passes) }

    /** An entry that has been expired at most as often as it was hit keeps a positive count. */
    lemma UseCountPositive()
      requires passes <= hits < 0x7FFF_FFFF + passes
      ensures UseCount() == 1 + hits - passes >= 1
    {
    }
  }

  lemma Countdown(info: Info)
    requires info.passes <= info.hits
    ensures Signed32(info.UseCount() - 1) == 0 <==> info.UseCount() == 1
    ensures info.UseCount() != 1 ==> info.passes < info.hits
    ensures Signed32(info.UseCount() - 1) == info.(passes := info.passes + 1).UseCount()
  {
    CountsOn(1 + info.hits - info.passes, -1);
  }

  /** One sweep over one entry: None when the entry is unlinked and freed. */
  function Sweep(info: Info, now: int): Option<Info> {
    if !Expired(info.ageing, now) then Some(info)
    else if info.UseCount() == 1 then None
    else Some(info.(passes := info.passes + 1))
  }

  function SweepAll(m: map<Addr, Info>, swept: set<Addr>, now: int): map<Addr, Info> {
    map a | a in m && (a in swept ==> Sweep(m[a], now).Some?) :: if a in swept then Sweep(m[a], now).value else m[a]
  }

  /** Repeated sweeps over one entry that stays expired. */
  function SweepOften(info: Info, nows: seq<int>): Option<Info>
    decreases |nows|
  {
    if nows == [] then Some(info)
    else match Sweep(info, nows[0]) case None => None case Some(next) => SweepOften(next, nows[1..])
  }

  /** An expired entry outlives exactly as many sweeps as it had hits left over. */
  lemma {:induction false} Outlives(info: Info, nows: seq<int>)
    requires info.passes <= info.hits < 0x7FFF_FFFF + info.passes
    requires forall i :: 0 <= i < |nows| ==> Expired(info.ageing, nows[i])
    ensures SweepOften(info, nows) ==
            if |nows| <= info.hits - info.passes then Some(info.(passes := info.passes + |nows|)) else None
    decreases |nows|
  {
    if nows != [] {
      info.UseCountPositive();
      if info.passes < info.hits {
        Outlives(info.(passes := info.passes + 1), nows[1..]);
      }
    }
  }

  /** What one pass does to an address: nothing if it is not old, otherwise it goes or counts down. */
  predicate Swept(before: map<Addr, Info>, after: map<Addr, Info>, a: Addr, now: int)
    requires a in before
  {
    if !Expired(before[a].ageing, now) then a in after && after[a] == before[a]
    else if before[a].UseCount() == 1 then a !in after
    else a in after && after[a] == Info(before[a].mac, before[a].ageing, before[a].hits, before[a].passes + 1)
  }

  lemma SweepsEach(m: map<Addr, Info>, swept: set<Addr>, now: int)
    ensures SweepAll(m, swept, now).Keys <= m.Keys
    ensures forall a :: a in m && a in swept ==> Swept(m, SweepAll(m, swept, now), a, now)
    ensures forall a :: a in m && a !in swept ==> a in SweepAll(m, swept, now) && SweepAll(m, swept, now)[a] == m[a]
  {
    hide Expired, Signed32;
  }

  lemma SweepsOne(m: map<Addr, Info>, a: Addr, now: int)
    requires a in m
    ensures Swept(m, SweepAll(m, {a}, now), a, now)
  {
    SweepsEach(m, {a}, now);
    hide Swept, SweepAll;
  }

  /** Passes over the whole table, one after the other. */
  function Passes(m: map<Addr, Info>, nows: seq<int>): map<Addr, Info>
    decreases |nows|
  {
    if nows == [] then m else Passes(SweepAll(m, m.Keys, nows[0]), nows[1..])
  }

  /** How many passes come 300 seconds or more after the last refresh. */
  function Late(elapsed: seq<nat>): nat {
    if elapsed == [] then 0 else (if elapsed[0] >= NAT25_AGEING_TIME * HZ then 1 else 0) + Late(elapsed[1..])
  }

  lemma {:induction false} GoneStaysGone(m: map<Addr, Info>, a: Addr, nows: seq<int>)
    requires a !in m
    ensures a !in Passes(m, nows)
    decreases |nows|
  {
    if nows != [] {
      GoneStaysGone(SweepAll(m, m.Keys, nows[0]), a, nows[1..]);
    }
  }

  /**
   * An entry last refreshed at t and swept at t + elapsed[0], t + elapsed[1] and so
   * on is in the table afterwards if and only if at most as many of these passes
   * are late as it has hits left over.
   */
  lemma {:induction false} SurvivesIff(m: map<Addr, Info>, a: Addr, t: nat, elapsed: seq<nat>, nows: seq<int>)
    requires a in m && m[a].ageing == t % LONG_RANGE && m[a].passes <= m[a].hits < 0x7FFF_FFFF + m[a].passes
    requires |nows| == |elapsed|
    requires forall i :: 0 <= i < |nows| ==> elapsed[i] < LONG_RANGE / 2 && nows[i] == (t + elapsed[i]) % LONG_RANGE
    ensures a in Passes(m, nows) <==> Late(elapsed) <= m[a].hits - m[a].passes
    ensures a in Passes(m, nows) ==> Passes(m, nows)[a] == m[a].(passes := m[a].passes + Late(elapsed))
    decreases |nows|
  {
    if nows != [] {
      ExpiredAfter(t, elapsed[0]);
      m[a].UseCountPositive();
      hide Expired, Signed32;
      var next := SweepAll(m, m.Keys, nows[0]);
      if a in next {
        SurvivesIff(next, a, t, elapsed[1..], nows[1..]);
      } else {
        GoneStaysGone(next, a, nows[1..]);
      }
    }
  }

  lemma SweepOneMore(m: map<Addr, Info>, swept: set<Addr>, a: Addr, now: int)
    requires a !in swept
    ensures SweepAll(SweepAll(m, swept, now), {a}, now) == SweepAll(m, swept + {a}, now)
  {
    hide Sweep;
  }

  // A cell that can point to an entry: the type of pprev_hash.
  datatype Cell = NoCell | Bucket(i: nat) | NextOf(e: Entry)

  class Entry {
    const networkAddr: Addr
    var next: Entry?
    var pprev: Cell
    var useCount: int
    var mac: Bytes
    var ageing: int

    constructor (networkAddr: Addr, mac: Bytes, now: int)
      ensures this.networkAddr == networkAddr && this.mac == mac && ageing == now && useCount == 1
    {
      this.networkAddr := networkAddr;
      this.mac := mac;
      useCount := 1;
      ageing := now;
      next := null;
      pprev := NoCell;
    }

    ghost predicate Records(info: Info)
      reads this
    {
      mac == info.mac && ageing == info.ageing && useCount == info.UseCount() && info.passes <= info.hits
    }
  }

  ghost function At(c: seq<Entry>, k: nat): Entry? {
    if k < |c| then c[k] else null
  }

  ghost function CellBefore(i: nat, c: seq<Entry>, k: nat): Cell
    requires k <= |c|
  {
    if k == 0 then Bucket(i) else NextOf(c[k - 1])
  }

  /** Every entry of the chain hashes to bucket i and no address repeats. */
  ghost predicate Keyed(i: nat, c: seq<Entry>) {
    && (forall k :: 0 <= k < |c| ==> Hash(c[k].networkAddr) == i)
    && (forall j, k :: 0 <= j < k < |c| ==> c[j].networkAddr != c[k].networkAddr)
  }

  ghost predicate Owned(c: seq<Entry>, nodes: set<Entry>) {
    forall k :: 0 <= k < |c| ==> c[k] in nodes
  }

  /** The chain hangs off cell `head` of bucket i, and each pprev names the cell that points to its entry. */
  ghost predicate Threaded(head: Entry?, i: nat, c: seq<Entry>)
    reads c
  {
    && head == At(c, 0)
    && (forall k {:trigger c[k].next} :: 0 <= k < |c| ==> c[k].next == At(c, k + 1))
    && (forall k {:trigger c[k].pprev} :: 0 <= k < |c| ==> c[k].pprev == CellBefore(i, c, k))
  }

  method LinkChain(nethash: array<Entry?>, ent: Entry, hash: nat, ghost c: seq<Entry>)
    requires hash < nethash.Length && Threaded(nethash[hash], hash, c)
    requires Keyed(hash, [ent] + c)
    modifies nethash, ent`next, ent`pprev, (set e | e in c)`pprev
    ensures nethash[..] == old(nethash[..])[hash := ent]
    ensures Threaded(ent, hash, [ent] + c)
  {
    hide Hash, Xor;
    ghost var d := [ent] + c;
    assert d[0] == ent && forall k :: 0 <= k < |c| ==> d[k + 1] == c[k];
    assert forall k :: 0 <= k < |c| ==> c[k].networkAddr != d[0].networkAddr;
    ent.next := nethash[hash];
    if ent.next != null {
      ent.next.pprev := NextOf(ent);
    }
    nethash[hash] := ent;
    ent.pprev := Bucket(hash);
    forall k | 0 <= k < |d|
      ensures d[k].next == At(d, k + 1) && d[k].pprev == CellBefore(hash, d, k)
    {
      if k > 0 {
        assert d[k] == c[k - 1];
      }
    }
  }

  lemma Distinct(i: nat, c: seq<Entry>)
    requires Keyed(i, c)
    ensures forall j, k :: 0 <= j < |c| && 0 <= k < |c| && j != k ==> c[j] != c[k]
  {
    assert forall j, k :: 0 <= j < k < |c| ==> c[j].networkAddr != c[k].networkAddr;
  }

  /** What unlinking c[k] leaves in the other entries threads the chain without it. */
  lemma Bridged(i: nat, c: seq<Entry>, k: nat)
    requires k < |c|
    requires forall j {:trigger c[j].next} :: 0 <= j < |c| && j != k ==>
               c[j].next == At(c, if j + 1 == k then k + 1 else j + 1)
    requires forall j {:trigger c[j].pprev} :: 0 <= j < |c| && j != k ==>
               c[j].pprev == CellBefore(i, c, if j == k + 1 then k else j)
    ensures Threaded(At(c[..k] + c[k + 1..], 0), i, c[..k] + c[k + 1..])
  {
    var d := c[..k] + c[k + 1..];
    forall j | 0 <= j < |d|
      ensures d[j].next == At(d, j + 1) && d[j].pprev == CellBefore(i, d, j)
    {
      var m := if j < k then j else j + 1;
      assert d[j] == c[m];
    }
  }

  /** *(ent->pprev_hash) = ent->next_hash, whichever cell that is. */
  method UnlinkChain(nethash: array<Entry?>, ent: Entry, ghost i: nat, ghost c: seq<Entry>, ghost k: nat)
    requires i < nethash.Length && Threaded(nethash[i], i, c) && Keyed(i, c) && k < |c| && c[k] == ent
    modifies nethash, (set e | e in c)`next, (set e | e in c)`pprev
    ensures nethash[..] == old(nethash[..])[i := At(c[..k] + c[k + 1..], 0)]
    ensures Threaded(nethash[i], i, c[..k] + c[k + 1..])
    ensures ent.next == null && ent.pprev == NoCell
  {
    hide Hash, Xor;
    Distinct(i, c);
    hide Keyed;
    match ent.pprev {
      case Bucket(b) => nethash[b] := ent.next;
      case NextOf(p) => p.next := ent.next;
    }
    if ent.next != null {
      ent.next.pprev := ent.pprev;
    }
    ent.next := null;
    ent.pprev := NoCell;
    assert nethash[i] == At(c[..k] + c[k + 1..], 0);
    Bridged(i, c, k);
  }

  /** The walk over one bucket that lookup, insert and scdb_findEntry share. */
  method FindChain(head: Entry?, ghost i: nat, ghost c: seq<Entry>, a: Addr) returns (db: Entry?)
    requires Threaded(head, i, c)
    ensures db == null ==> forall e :: e in c ==> e.networkAddr != a
    ensures db != null ==> db in c && db.networkAddr == a
  {
    db := head;
    ghost var k := 0;
    while db != null
      invariant k <= |c| && db == At(c, k)
      invariant forall j :: 0 <= j < k ==> c[j].networkAddr != a
      decreases |c| - k
    {
      if db.networkAddr == a {
        return;
      }
      db, k := db.next, k + 1;
    }
  }

  lemma FreshKey(i: nat, db: Entry, c: seq<Entry>)
    requires Keyed(i, c) && Hash(db.networkAddr) == i
    requires forall k :: 0 <= k < |c| ==> c[k].networkAddr != db.networkAddr
    ensures Keyed(i, [db] + c)
  {
  }

  lemma KeysDistinct(chains: seq<seq<Entry>>, e: Entry, f: Entry)
    requires |chains| == NAT25_HASH_SIZE && (forall i :: 0 <= i < NAT25_HASH_SIZE ==> Keyed(i, chains[i]))
    requires e in chains[Hash(e.networkAddr)] && f in chains[Hash(f.networkAddr)] && e != f
    ensures e.networkAddr != f.networkAddr
  {
    hide Hash, Xor;
    var h := Hash(e.networkAddr);
    if h == Hash(f.networkAddr) {
      var j :| 0 <= j < |chains[h]| && chains[h][j] == e;
      var k :| 0 <= k < |chains[h]| && chains[h][k] == f;
      assert Keyed(h, chains[h]);
    }
  }

  /** The addresses in `done` are those of buckets before i and of the first k entries of bucket i. */
  ghost predicate DoneUpTo(chains: seq<seq<Entry>>, i: nat, k: nat, done: set<Addr>) {
    forall j, m :: 0 <= j < |chains| && 0 <= m < |chains[j]| ==>
      (chains[j][m].networkAddr in done <==> j < i || (j == i && m < k))
  }

  lemma Advance(chains: seq<seq<Entry>>, i: nat, k: nat, done: set<Addr>)
    requires forall j :: 0 <= j < |chains| ==> Keyed(j, chains[j])
    requires i < |chains| && k < |chains[i]| && DoneUpTo(chains, i, k, done)
    ensures var done' := done + {chains[i][k].networkAddr};
            && chains[i][k].networkAddr !in done
            && DoneUpTo(chains, i, k + 1, done')
            && DoneUpTo(chains[i := chains[i][..k] + chains[i][k + 1..]], i, k, done')
  {
    hide Hash, Xor;
    var f := chains[i][k];
    forall j, m | 0 <= j < |chains| && 0 <= m < |chains[j]| && (j != i || m != k)
      ensures chains[j][m].networkAddr != f.networkAddr
    {
      assert Keyed(j, chains[j]) && Keyed(i, chains[i]);
      assert Hash(chains[j][m].networkAddr) == j && Hash(f.networkAddr) == i;
    }
    var d := chains[i][..k] + chains[i][k + 1..];
    assert forall m :: 0 <= m < |d| ==> d[m] == chains[i][if m < k then m else m + 1];
  }

  /** The entry is in the bucket of its address. */
  ghost predicate Linked(chains: seq<seq<Entry>>, e: Entry) {
    Hash(e.networkAddr) < |chains| && e in chains[Hash(e.networkAddr)]
  }

  /** Taking one entry out of its chain unlinks it and no other. */
  lemma OthersStayLinked(chains: seq<seq<Entry>>, i: nat, k: nat, e: Entry)
    requires i < |chains| && k < |chains[i]| && Keyed(i, chains[i])
    ensures Linked(chains[i := chains[i][..k] + chains[i][k + 1..]], e) <==> Linked(chains, e) && e != chains[i][k]
  {
    hide Hash;
    var c := chains[i];
    var d := c[..k] + c[k + 1..];
    Distinct(i, c);
    if e in c && e != c[k] {
      var j :| 0 <= j < |c| && c[j] == e;
      assert d[if j < k then j else j - 1] == e;
    }
  }

  class Table {
    const nethash: array<Entry?>
    var scdbEntry: Entry?
    var scdbMac: Bytes
    var scdbIp: Bytes
    ghost var chains: seq<seq<Entry>>
    ghost var nodes: set<Entry>
    ghost var contents: map<Addr, Info>

    /** Acyclic chains, right back-pointers, right buckets, no address twice. */
    ghost predicate Shape()
      reads `chains, `nodes, nethash, nodes
    {
      && nethash.Length == NAT25_HASH_SIZE == |chains|
      && (forall i :: 0 <= i < NAT25_HASH_SIZE ==> Keyed(i, chains[i]) && Owned(chains[i], nodes))
      && (forall i :: 0 <= i < NAT25_HASH_SIZE ==> Threaded(nethash[i], i, chains[i]))
    }

    ghost predicate Holds(e: Entry)
      reads `chains
    {
      Linked(chains, e)
    }

    /** The linked entries are the graph of `contents`. */
    ghost predicate Refines()
      reads `chains, `nodes, `contents, nodes
    {
      && (forall e :: e in nodes && Holds(e) ==> e.networkAddr in contents && e.Records(contents[e.networkAddr]))
      && (forall a :: a in contents ==> exists e :: e in nodes && Holds(e) && e.networkAddr == a)
    }

    ghost predicate Valid()
      reads this, nethash, nodes
    {
      Shape() && Refines() && (scdbEntry == null || (scdbEntry in nodes && Holds(scdbEntry)))
    }

    constructor ()
      ensures Valid() && contents == map[] && scdbEntry == null && nodes == {} && fresh(nethash)
    {
      nethash := new Entry?[NAT25_HASH_SIZE](_ => null);
      scdbEntry, scdbMac, scdbIp := null, seq(6, _ => 0), seq(4, _ => 0);
      chains, nodes := seq(NAT25_HASH_SIZE, _ => []), {};
      contents := map[];
    }

    method Find(a: Addr) returns (db: Entry?)
      requires Valid()
      ensures db == null <==> a !in contents
      ensures db != null ==> db in nodes && Holds(db) && db.networkAddr == a && db.Records(contents[a])
    {
      hide Xor;
      var h := Hash(a);
      hide Hash, Keyed;
      db := FindChain(nethash[h], h, chains[h], a);
    }

    method ScdbFindEntry(ip: Bytes) returns (db: Entry?)
      requires Valid() && |ip| == 4
      ensures db == null <==> Ipv4Addr(ip) !in contents
      ensures db != null ==> db in nodes && Holds(db) && db.networkAddr == Ipv4Addr(ip) && db.Records(contents[Ipv4Addr(ip)])
    {
      db := Find(Ipv4Addr(ip));
    }

    method Link(ent: Entry, hash: nat)
      requires Shape() && hash < NAT25_HASH_SIZE && Keyed(hash, [ent] + chains[hash])
      modifies this`chains, this`nodes, nethash, ent`next, ent`pprev, nodes`pprev
      ensures Shape() && nodes == old(nodes) + {ent}
      ensures chains == old(chains[hash := [ent] + chains[hash]])
    {
      hide Hash, Xor;
      ghost var c := chains[hash];
      LinkChain(nethash, ent, hash, c);
      forall j | 0 <= j < NAT25_HASH_SIZE && j != hash
        ensures Threaded(nethash[j], j, chains[j])
      {
        assert forall e :: e in chains[j] ==> Hash(e.networkAddr) == j;
        assert old(Threaded(nethash[j], j, chains[j]));
      }
      chains, nodes := chains[hash := [ent] + c], nodes + {ent};
    }

    method Unlink(ent: Entry, ghost i: nat, ghost k: nat)
      requires Shape() && i < NAT25_HASH_SIZE && k < |chains[i]| && chains[i][k] == ent
      modifies this`chains, nethash, nodes`next, nodes`pprev
      ensures Shape() && chains == old(chains[i := chains[i][..k] + chains[i][k + 1..]])
      ensures ent.next == null && ent.pprev == NoCell
    {
      hide Hash, Xor;
      ghost var c := chains[i];
      UnlinkChain(nethash, ent, i, c, k);
      forall j | 0 <= j < NAT25_HASH_SIZE && j != i
        ensures Threaded(nethash[j], j, chains[j])
      {
        assert forall e :: e in chains[j] ==> Hash(e.networkAddr) == j;
        assert old(Threaded(nethash[j], j, chains[j]));
      }
      chains := chains[i := c[..k] + c[k + 1..]];
    }

    /** No link moved: the shape stands whatever happened to the other fields. */
    twostate lemma ShapeKept()
      requires old(Shape()) && chains == old(chains) && nodes == old(nodes) && nethash[..] == old(nethash[..])
      requires forall e :: e in nodes ==> e.next == old(e.next) && e.pprev == old(e.pprev)
      ensures Shape()
    {
      hide Hash, Xor, Keyed;
      forall i | 0 <= i < NAT25_HASH_SIZE
        ensures Threaded(nethash[i], i, chains[i])
      {
        assert old(Threaded(nethash[i], i, chains[i]));
        assert nethash[i] == nethash[..][i] && old(nethash[i] == nethash[..][i]);
      }
    }

    /** Only db's record changed, and its entry with it. */
    twostate lemma Rewritten(new db: Entry, new info: Info)
      requires old(Valid()) && db in nodes && Holds(db)
      requires chains == old(chains) && nodes == old(nodes) && scdbEntry == old(scdbEntry)
      requires contents == old(contents)[db.networkAddr := info] && db.Records(info)
      requires forall e :: e in nodes && e != db ==>
                 e.mac == old(e.mac) && e.ageing == old(e.ageing) && e.useCount == old(e.useCount)
      ensures Refines()
    {
      hide Hash, Xor, Threaded, Signed32;
      forall e | e in nodes && Holds(e)
        ensures e.networkAddr in contents && e.Records(contents[e.networkAddr])
      {
        if e != db {
          KeysDistinct(chains, e, db);
          assert old(e.Records(contents[e.networkAddr]));
        }
      }
      forall a | a in contents
        ensures exists e :: e in nodes && Holds(e) && e.networkAddr == a
      {
        if a != db.networkAddr {
          var e: Entry :| e in nodes && old(Holds(e)) && e.networkAddr == a;
          assert Holds(e);
        }
      }
    }

    /** A fresh entry at the head of its bucket records one more address. */
    twostate lemma Added(new db: Entry, new info: Info)
      requires old(Valid()) && db !in old(nodes)
      requires var h := Hash(db.networkAddr); chains == old(chains)[h := [db] + old(chains)[h]]
      requires nodes == old(nodes) + {db} && scdbEntry == old(scdbEntry)
      requires db.networkAddr !in old(contents)
      requires contents == old(contents)[db.networkAddr := info] && db.Records(info)
      requires forall e :: e in old(nodes) ==> e.mac == old(e.mac) && e.ageing == old(e.ageing) && e.useCount == old(e.useCount)
      ensures Refines() && forall e :: e in old(nodes) && old(Holds(e)) ==> Holds(e)
    {
      hide Hash, Xor, Threaded, Signed32;
      assert Holds(db);
      forall e | e in old(nodes)
        ensures Holds(e) <==> old(Holds(e))
      {
      }
      forall e | e in nodes && Holds(e) && e != db
        ensures e.networkAddr in contents && e.Records(contents[e.networkAddr])
      {
        assert old(e.Records(contents[e.networkAddr]));
      }
      forall a | a in contents
        ensures exists e :: e in nodes && Holds(e) && e.networkAddr == a
      {
        if a != db.networkAddr {
          var e: Entry :| e in old(nodes) && old(Holds(e)) && e.networkAddr == a;
          assert Holds(e);
        }
      }
    }

    /** The entry taken out of its chain leaves the other records as they were. */
    twostate lemma Dropped(new f: Entry, new i: nat, new k: nat)
      requires old(Valid())
      requires i < NAT25_HASH_SIZE && k < |old(chains[i])| && old(chains[i][k]) == f
      requires chains == old(chains[i := chains[i][..k] + chains[i][k + 1..]]) && nodes == old(nodes)
      requires contents == old(contents) - {f.networkAddr}
      requires scdbEntry == null || (scdbEntry == old(scdbEntry) && scdbEntry != f)
      requires forall e :: e in nodes ==> e.mac == old(e.mac) && e.ageing == old(e.ageing) && e.useCount == old(e.useCount)
      ensures Refines()
    {
      hide Hash, Xor, Threaded, Signed32;
      assert old(Keyed(i, chains[i])) && old(Holds(f));
      forall e
        ensures Linked(chains, e) <==> Linked(old(chains), e) && e != f
      {
        OthersStayLinked(old(chains), i, k, e);
      }
      forall e | e in nodes && Holds(e)
        ensures e.networkAddr in contents && e.Records(contents[e.networkAddr])
      {
        assert old(e.Records(contents[e.networkAddr]));
        KeysDistinct(old(chains), e, f);
      }
      forall a | a in contents
        ensures exists e :: e in nodes && Holds(e) && e.networkAddr == a
      {
        var e: Entry :| e in nodes && old(Holds(e)) && e.networkAddr == a;
        assert Holds(e);
      }
    }

    /** Rewrites one linked entry; the links stand. */
    method Rewrite(db: Entry, mac: Bytes, ageing: int, useCount: int, ghost info: Info)
      requires Valid() && db in nodes && Holds(db)
      requires mac == info.mac && ageing == info.ageing && useCount == info.UseCount() && info.passes <= info.hits
      modifies this`contents, db`mac, db`ageing, db`useCount
      ensures Valid() && contents == old(contents)[db.networkAddr := info]
    {
      hide Hash, Xor, Signed32, Keyed, Threaded, Holds;
      db.mac, db.ageing, db.useCount := mac, ageing, useCount;
      contents := contents[db.networkAddr := info];
      ShapeKept();
      Rewritten(db, info);
    }

    /** The answer is the recorded MAC, unless the entry has expired; a hit raises the use count. */
    method LookupAndReplace(a: Addr, now: int) returns (found: bool, mac: Option<Bytes>)
      requires Valid()
      modifies this`contents, nodes`mac, nodes`ageing, nodes`useCount
      ensures Valid()
      ensures found <==> a in old(contents)
      ensures mac == if found && !Expired(old(contents)[a].ageing, now) then Some(old(contents)[a].mac) else None
      ensures contents == if mac.None? then old(contents)
                          else old(contents)[a := old(contents)[a].(hits := old(contents)[a].hits + 1)]
    {
      hide Hash, Xor, Expired, Signed32, Keyed, Threaded, Shape, Refines, Holds;
      var db := Find(a);
      found, mac := db != null, None;
      if db != null && !Expired(db.ageing, now) {
        mac := Some(db.mac);
        ghost var info := contents[a].(hits := contents[a].hits + 1);
        CountsOn(info.hits - info.passes, 1);
        Rewrite(db, db.mac, db.ageing, Signed32(db.useCount + 1), info);
      }
    }

    method Insert(mac: Bytes, a: Addr, now: int, memory: bool)
      requires Valid()
      modifies this`contents, this`chains, this`nodes, nethash
      modifies nodes`pprev, nodes`mac, nodes`ageing, nodes`useCount
      ensures Valid()
      ensures contents == if a in old(contents) then old(contents)[a := old(contents)[a].(mac := mac, ageing := now)]
                          else if memory then old(contents)[a := Info(mac, now, 0, 0)]
                          else old(contents)
    {
      hide Hash, Xor, Keyed, Threaded, Shape, Refines, Holds;
      var db := Find(a);
      if db != null {
        Rewrite(db, mac, now, db.useCount, contents[a].(mac := mac, ageing := now));
      } else if memory {
        db := new Entry(a, mac, now);
        Enter(db, Hash(a), Info(mac, now, 0, 0));
      }
    }

    method Enter(db: Entry, hash: nat, ghost info: Info)
      requires Valid() && db !in nodes && db.networkAddr !in contents && hash == Hash(db.networkAddr)
      requires db.Records(info)
      modifies this`contents, this`chains, this`nodes, nethash, db`next, db`pprev, nodes`pprev
      ensures Valid() && contents == old(contents)[db.networkAddr := info]
    {
      hide Hash, Xor, Refines, Threaded, Keyed, Signed32;
      FreshBucket(db, hash);
      Link(db, hash);
      contents := contents[db.networkAddr := info];
      Added(db, info);
    }

    lemma FreshBucket(db: Entry, hash: nat)
      requires Valid() && db.networkAddr !in contents && hash == Hash(db.networkAddr)
      ensures Keyed(hash, [db] + chains[hash])
    {
      hide Hash, Xor, Threaded, Signed32;
      var c := chains[hash];
      forall k | 0 <= k < |c|
        ensures c[k].networkAddr != db.networkAddr
      {
        assert Keyed(hash, c) && c[k] in nodes && Holds(c[k]);
      }
      FreshKey(hash, db, c);
    }

    /** Frees f, after clearing the shortcut that refers to it. */
    method Remove(f: Entry, ghost i: nat, ghost k: nat)
      requires Valid() && i < NAT25_HASH_SIZE && k < |chains[i]| && chains[i][k] == f
      modifies this`contents, this`chains, this`scdbEntry, this`scdbMac, this`scdbIp, nethash, nodes`next, nodes`pprev
      ensures Valid() && contents == old(contents) - {f.networkAddr}
      ensures chains == old(chains[i := chains[i][..k] + chains[i][k + 1..]])
      ensures if old(scdbEntry) == f then scdbEntry == null && scdbMac == seq(6, _ => 0) && scdbIp == seq(4, _ => 0)
              else scdbEntry == old(scdbEntry) && scdbMac == old(scdbMac) && scdbIp == old(scdbIp)
    {
      hide Hash, Xor, Expired, Signed32, Refines, Threaded, Keyed;
      if scdbEntry == f {
        scdbMac := seq(6, _ => 0);
        scdbIp := seq(4, _ => 0);
        scdbEntry := null;
      }
      Unlink(f, i, k);
      contents := contents - {f.networkAddr};
      Dropped(f, i, k);
    }

    lemma Recorded(f: Entry, i: nat, k: nat)
      requires Valid() && i < NAT25_HASH_SIZE && k < |chains[i]| && chains[i][k] == f
      ensures f in nodes && Holds(f) && f.networkAddr in contents && f.Records(contents[f.networkAddr])
      ensures scdbEntry != null ==> scdbEntry.networkAddr in contents
      ensures scdbEntry != null && scdbEntry != f ==> scdbEntry.networkAddr != f.networkAddr
    {
      hide Hash, Xor, Threaded, Signed32;
      assert Keyed(i, chains[i]) && Owned(chains[i], nodes);
      if scdbEntry != null && scdbEntry != f {
        KeysDistinct(chains, scdbEntry, f);
      }
    }

    /** The loop body of nat25_db_expire. */
    method SweepEntry(f: Entry, now: int, ghost i: nat, ghost k: nat)
      requires Valid() && i < NAT25_HASH_SIZE && k < |chains[i]| && chains[i][k] == f
      modifies this`contents, this`chains, this`scdbEntry, this`scdbMac, this`scdbIp, nethash
      modifies nodes`next, nodes`pprev, nodes`mac, nodes`ageing, nodes`useCount
      ensures Valid() && contents == SweepAll(old(contents), {f.networkAddr}, now)
      ensures f.networkAddr in old(contents) && Swept(old(contents), contents, f.networkAddr, now)
      ensures f.networkAddr in contents ==> chains == old(chains)
      ensures f.networkAddr !in contents ==> chains == old(chains[i := chains[i][..k] + chains[i][k + 1..]])
      ensures ScdbFollows(old(scdbEntry), old(scdbMac), old(scdbIp))
    {
      hide Hash, Xor, Expired, Signed32, Keyed, Threaded, Shape, Refines, Holds, Swept;
      Recorded(f, i, k);
      SweepsOne(contents, f.networkAddr, now);
      ghost var info := contents[f.networkAddr];
      if Expired(f.ageing, now) {
        Countdown(info);
        var count := Signed32(f.useCount - 1);
        if count == 0 {
          Remove(f, i, k);
        } else {
          Rewrite(f, f.mac, f.ageing, count, info.(passes := info.passes + 1));
        }
      }
    }

    /** The shortcut is what it was, unless its entry is gone from the table. */
    ghost predicate ScdbFollows(entry: Entry?, mac: Bytes, ip: Bytes)
      reads this
    {
      if entry == null || entry.networkAddr in contents then scdbEntry == entry && scdbMac == mac && scdbIp == ip
      else scdbEntry == null && scdbMac == seq(6, _ => 0) && scdbIp == seq(4, _ => 0)
    }

    method ExpireBucket(i: nat, now: int, ghost before: map<Addr, Info>, ghost done: set<Addr>,
                        ghost entry: Entry?, ghost mac: Bytes, ghost ip: Bytes)
      returns (ghost swept: set<Addr>)
      requires Valid() && i < NAT25_HASH_SIZE && contents == SweepAll(before, done, now)
      requires DoneUpTo(chains, i, 0, done) && ScdbFollows(entry, mac, ip)
      modifies this`contents, this`chains, this`scdbEntry, this`scdbMac, this`scdbIp, nethash
      modifies nodes`next, nodes`pprev, nodes`mac, nodes`ageing, nodes`useCount
      ensures Valid() && contents == SweepAll(before, swept, now)
      ensures DoneUpTo(chains, i + 1, 0, swept) && ScdbFollows(entry, mac, ip)
    {
      hide Hash, Xor, Expired, Signed32, Sweep, Refines, Holds;
      var f := nethash[i];
      ghost var k := 0;
      swept := done;
      assert Threaded(nethash[i], i, chains[i]);
      while f != null
        invariant Valid() && contents == SweepAll(before, swept, now)
        invariant k <= |chains[i]| && f == At(chains[i], k)
        invariant DoneUpTo(chains, i, k, swept) && ScdbFollows(entry, mac, ip)
        decreases |chains[i]| - k
      {
        assert Threaded(nethash[i], i, chains[i]);
        var g := f.next;
        ghost var a := f.networkAddr;
        Advance(chains, i, k, swept);
        SweepOneMore(before, swept, a, now);
        SweepEntry(f, now, i, k);
        swept := swept + {a};
        if a in contents {
          k := k + 1;
        }
        f := g;
      }
    }

    /**
     * Frees exactly the expired entries whose use count is one, counts the
     * other expired ones down and leaves the rest alone.
     */
    method Expire(now: int)
      requires Valid()
      modifies this`contents, this`chains, this`scdbEntry, this`scdbMac, this`scdbIp, nethash
      modifies nodes`next, nodes`pprev, nodes`mac, nodes`ageing, nodes`useCount
      ensures Valid() && contents == SweepAll(old(contents), old(contents).Keys, now)
      ensures contents.Keys <= old(contents).Keys && forall a :: a in old(contents) ==> Swept(old(contents), contents, a, now)
      ensures ScdbFollows(old(scdbEntry), old(scdbMac), old(scdbIp))
    {
      SweepsEach(contents, contents.Keys, now);
      hide Hash, Xor, Expired, Signed32, Sweep, Swept;
      ghost var before, entry, mac, ip := contents, scdbEntry, scdbMac, scdbIp;
      ghost var swept: set<Addr> := {};
      assert entry != null ==> entry.networkAddr in contents;
      hide Refines, Holds;
      for i := 0 to NAT25_HASH_SIZE
        invariant Valid() && contents == SweepAll(before, swept, now)
        invariant DoneUpTo(chains, i, 0, swept) && ScdbFollows(entry, mac, ip)
      {
        swept := ExpireBucket(i, now, before, swept, entry, mac, ip);
      }
      AllSwept(before, swept, now);
    }

    lemma AllSwept(before: map<Addr, Info>, swept: set<Addr>, now: int)
      requires Valid() && DoneUpTo(chains, NAT25_HASH_SIZE, 0, swept) && contents == SweepAll(before, swept, now)
      ensures contents == SweepAll(before, before.Keys, now)
    {
      hide Hash, Xor, Sweep, Signed32, Threaded, Keyed;
      forall a | a in before
        ensures a in swept
      {
        if a in contents {
          var e: Entry :| e in nodes && Holds(e) && e.networkAddr == a;
          var h := Hash(a);
          var m :| 0 <= m < |chains[h]| && chains[h][m] == e;
          assert chains[h][m].networkAddr in swept;
        }
      }
    }

    method Cleanup()
      requires Valid()
      modifies this`contents, this`chains, this`scdbEntry, this`scdbMac, this`scdbIp, nethash
      modifies nodes`next, nodes`pprev
      ensures Valid() && contents == map[] && scdbEntry == null
      ensures ScdbFollows(old(scdbEntry), old(scdbMac), old(scdbIp))
    {
      hide Hash, Xor, Signed32;
      ghost var entry, mac, ip := scdbEntry, scdbMac, scdbIp;
      assert entry != null ==> entry.networkAddr in contents;
      hide Refines, Holds;
      for i := 0 to NAT25_HASH_SIZE
        invariant Valid() && ScdbFollows(entry, mac, ip)
        invariant forall j :: 0 <= j < i ==> chains[j] == []
      {
        CleanupBucket(i, entry, mac, ip);
      }
      Emptied();
    }

    method CleanupBucket(i: nat, ghost entry: Entry?, ghost mac: Bytes, ghost ip: Bytes)
      requires Valid() && i < NAT25_HASH_SIZE && ScdbFollows(entry, mac, ip)
      modifies this`contents, this`chains, this`scdbEntry, this`scdbMac, this`scdbIp, nethash
      modifies nodes`next, nodes`pprev
      ensures Valid() && ScdbFollows(entry, mac, ip)
      ensures chains == old(chains)[i := []]
    {
      hide Hash, Xor, Signed32, Refines, Holds, Keyed;
      var f := nethash[i];
      assert Threaded(nethash[i], i, chains[i]);
      while f != null
        invariant Valid() && ScdbFollows(entry, mac, ip)
        invariant f == At(chains[i], 0) && chains == old(chains)[i := chains[i]]
        decreases |chains[i]|
      {
        assert Threaded(nethash[i], i, chains[i]);
        var g := f.next;
        Recorded(f, i, 0);
        Remove(f, i, 0);
        f := g;
      }
    }

    lemma Emptied()
      requires Valid() && forall j :: 0 <= j < NAT25_HASH_SIZE ==> chains[j] == []
      ensures contents == map[] && scdbEntry == null
    {
      hide Hash, Xor, Signed32, Threaded, Keyed;
      assert forall e :: e in nodes ==> !Holds(e);
    }
  }
}
