/** What the ARP cache knows after whole runs of operations. */
module ArpHistory {
  import opened Bytes
  import opened Ether
  import opened ArpTable
  import Slots

  /** A sender pair learned from an accepted packet, or an address deleted. */
  datatype Op = Learn(mac: Mac, ip: Ip, now: int) | Forget(ip: Ip)

  function Apply(t: Table, init: int, op: Op): (t': Table)
    requires op.Learn? ==> Place(t, init, op.ip) != -1
    ensures |t'| == |t|
  {
    match op
    case Learn(mac, ip, now) => AddTo(t, init, mac, ip, now)
    case Forget(ip) => DeleteFrom(EntryFound, t, ip)
  }

  ghost predicate Placed(t: Table, init: int, ops: seq<Op>)
    decreases |ops|
  {
    ops == [] ||
    (&& (ops[0].Learn? ==> Place(t, init, ops[0].ip) != -1)
     && Placed(Apply(t, init, ops[0]), init, ops[1..]))
  }

  ghost function Run(t: Table, init: int, ops: seq<Op>): (t': Table)
    requires Placed(t, init, ops)
    ensures |t'| == |t|
    decreases |ops|
  {
    if ops == [] then t else Run(Apply(t, init, ops[0]), init, ops[1..])
  }

  // ---------------------------------------------------------------------
  // The latest pairs
  // ---------------------------------------------------------------------

  /** An unbounded cache: the pair of the latest packet for each address since its deletion. */
  ghost function Note(m: map<int, Mac>, op: Op): map<int, Mac> {
    if op.Forget? || op.mac == ZERO_MAC then m - {op.ip} else m[op.ip := op.mac]
  }

  ghost function Known(m: map<int, Mac>, ops: seq<Op>): map<int, Mac>
    decreases |ops|
  {
    if ops == [] then m else Known(Note(m, ops[0]), ops[1..])
  }

  /** The table's answer for an address is what the unbounded cache knows, if it answers at all. */
  ghost predicate SoundAt(t: Table, m: map<int, Mac>, ip: Ip) {
    Lookup(t, ip) == None || (ip in m && Lookup(t, ip) == Some(m[ip]))
  }

  ghost predicate Sound(t: Table, m: map<int, Mac>) {
    Unique(t) && forall ip: Ip :: SoundAt(t, m, ip)
  }

  ghost predicate ExactAt(t: Table, m: map<int, Mac>, ip: Ip) {
    Lookup(t, ip) == if ip in m then Some(m[ip]) else None
  }

  ghost predicate Exact(t: Table, m: map<int, Mac>) {
    && Unique(t)
    && (forall ip :: ip in m ==> 0 <= ip < 0x1_0000_0000)
    && (forall ip: Ip :: ExactAt(t, m, ip))
  }

  lemma LookupAfterApply(t: Table, init: int, op: Op, other: Ip)
    requires Unique(t) && (op.Learn? ==> Place(t, init, op.ip) != -1)
    ensures Unique(Apply(t, init, op))
    ensures var r := Lookup(Apply(t, init, op), other);
            if other == op.ip then r == (if op.Forget? || op.mac == ZERO_MAC then None else Some(op.mac))
            else if op.Learn? && other == t[Place(t, init, op.ip)].Key() then r == None
            else r == Lookup(t, other)
  {
    match op
    case Learn(mac, ip, now) => LookupAfterAdd(t, init, mac, ip, now, other);
    case Forget(ip) => LookupAfterDelete(t, ip, other);
  }

  lemma ApplySound(t: Table, init: int, m: map<int, Mac>, op: Op)
    requires Sound(t, m) && (op.Learn? ==> Place(t, init, op.ip) != -1)
    ensures Sound(Apply(t, init, op), Note(m, op))
  {
    LookupAfterApply(t, init, op, op.ip);
    forall ip: Ip
      ensures SoundAt(Apply(t, init, op), Note(m, op), ip)
    {
      assert SoundAt(t, m, ip);
      LookupAfterApply(t, init, op, ip);
    }
  }

  /**
    Over every run of learning, deleting and evicting, no two live entries share an address, and
    every live pair is the sender pair of the latest accepted packet for its address since that
    address was last deleted.
   */
  lemma {:induction false} RunSound(t: Table, init: int, m: map<int, Mac>, ops: seq<Op>)
    requires Sound(t, m) && Placed(t, init, ops)
    ensures Sound(Run(t, init, ops), Known(m, ops))
    decreases |ops|
  {
    if ops != [] {
      ApplySound(t, init, m, ops[0]);
      RunSound(Apply(t, init, ops[0]), init, Note(m, ops[0]), ops[1..]);
    }
  }

  /** No address is learned on top of sixteen others. */
  ghost predicate Fits(m: map<int, Mac>, ops: seq<Op>)
    decreases |ops|
  {
    ops == [] ||
    (&& (ops[0].Learn? ==> ops[0].ip in m || |m| < ARP_TABLE_NO)
     && Fits(Note(m, ops[0]), ops[1..]))
  }

  lemma CountLive(t: Table)
    requires Unique(t)
    ensures |LiveIps(t)| == |t| <==> FirstFree(t) == -1
  {
    if FirstFree(t) == -1 {
      Slots.FullCount(Keys(t), FREE, |t|);
    } else {
      Slots.SlackCount(Keys(t), FREE, |t|);
    }
  }

  lemma ExactIps(t: Table, m: map<int, Mac>)
    requires Exact(t, m)
    ensures LiveIps(t) == m.Keys
  {
    forall ip: int
      ensures ip in LiveIps(t) <==> ip in m.Keys
    {
      if 0 <= ip < 0x1_0000_0000 {
        assert ExactAt(t, m, ip);
      }
    }
  }

  lemma ExactPlaced(t: Table, init: int, m: map<int, Mac>, ip: Ip)
    requires Exact(t, m) && |t| == ARP_TABLE_NO && (ip in m || |m| < ARP_TABLE_NO)
    ensures Place(t, init, ip) != -1
    ensures t[Place(t, init, ip)].Key() == ip || t[Place(t, init, ip)].Key() == FREE
  {
    assert ExactAt(t, m, ip);
    if ip !in m {
      ExactIps(t, m);
      CountLive(t);
      assert |m| == |m.Keys|;
    }
  }

  lemma ApplyExact(t: Table, init: int, m: map<int, Mac>, op: Op)
    requires Exact(t, m) && |t| == ARP_TABLE_NO
    requires op.Learn? ==> op.ip in m || |m| < ARP_TABLE_NO
    ensures op.Learn? ==> Place(t, init, op.ip) != -1
    ensures Exact(Apply(t, init, op), Note(m, op))
  {
    if op.Learn? {
      ExactPlaced(t, init, m, op.ip);
    }
    LookupAfterApply(t, init, op, op.ip);
    forall ip: Ip
      ensures ExactAt(Apply(t, init, op), Note(m, op), ip)
    {
      assert ExactAt(t, m, ip);
      LookupAfterApply(t, init, op, ip);
    }
  }

  /**
    As long as no more than sixteen addresses are known at a time the table is the unbounded
    cache: every search answers with the latest pair, and with nothing for an unknown or deleted
    address. No entry is evicted, whatever the sentinel.
   */
  lemma {:induction false} RunExact(t: Table, init: int, m: map<int, Mac>, ops: seq<Op>)
    requires Exact(t, m) && |t| == ARP_TABLE_NO && Fits(m, ops)
    ensures Placed(t, init, ops)
    ensures Exact(Run(t, init, ops), Known(m, ops))
    decreases |ops|
  {
    if ops != [] {
      ApplyExact(t, init, m, ops[0]);
      RunExact(Apply(t, init, ops[0]), init, Note(m, ops[0]), ops[1..]);
    }
  }

  // ---------------------------------------------------------------------
  // Least recently refreshed
  // ---------------------------------------------------------------------

  /** The last entry written for an address in a history of refreshes. */
  function Latest(h: seq<Entry>, ip: int): Option<Entry> {
    if h == [] then None
    else if h[|h| - 1].ip == ip then Some(h[|h| - 1])
    else Latest(h[..|h| - 1], ip)
  }

  /** The addresses refreshed since the last refresh of ip. */
  ghost function Newer(h: seq<Entry>, ip: int): set<int> {
    if h == [] || h[|h| - 1].ip == ip then {}
    else Newer(h[..|h| - 1], ip) + {h[|h| - 1].ip as int}
  }

  /** ip is among the sixteen most recently refreshed addresses. */
  ghost predicate Recent(h: seq<Entry>, ip: int) {
    Latest(h, ip) != None && |Newer(h, ip)| < ARP_TABLE_NO
  }

  /** Refreshes with nonzero macs at times that never go back, all below the sentinel. */
  ghost predicate Refreshes(h: seq<Entry>, init: int) {
    && (forall i :: 0 <= i < |h| ==> h[i].mac != ZERO_MAC && h[i].timestamp < init)
    && (forall i, j :: 0 <= i < j < |h| ==> h[i].timestamp <= h[j].timestamp)
  }

  /** The same with no two at the same time. */
  ghost predicate StrictRefreshes(h: seq<Entry>, init: int) {
    Refreshes(h, init) && forall i, j :: 0 <= i < j < |h| ==> h[i].timestamp < h[j].timestamp
  }

  ghost function TimeOf(h: seq<Entry>, ip: int): int
    requires Latest(h, ip) != None
  {
    Latest(h, ip).value.timestamp
  }

  lemma {:induction false} LatestInHistory(h: seq<Entry>, ip: int)
    requires Latest(h, ip) != None
    ensures Latest(h, ip).value in h && Latest(h, ip).value.ip == ip
  {
    if h[|h| - 1].ip != ip {
      LatestInHistory(h[..|h| - 1], ip);
    }
  }

  /** Newer means refreshed at a later time. */
  lemma {:induction false} NewerIsLater(h: seq<Entry>, init: int, a: int, b: int)
    requires StrictRefreshes(h, init) && Latest(h, a) != None
    ensures b in Newer(h, a) <==> Latest(h, b) != None && TimeOf(h, b) > TimeOf(h, a)
  {
    var last, before := h[|h| - 1], h[..|h| - 1];
    if last.ip == a {
      if last.ip != b && Latest(before, b) != None {
        LatestInHistory(before, b);
      }
    } else {
      NewerIsLater(before, init, a, b);
      LatestInHistory(before, a);
    }
  }

  /** The later refreshed of two addresses has strictly fewer addresses newer than it. */
  lemma LaterHasFewerNewer(h: seq<Entry>, init: int, a: int, b: int)
    requires StrictRefreshes(h, init) && Latest(h, a) != None && Latest(h, b) != None && TimeOf(h, a) < TimeOf(h, b)
    ensures Newer(h, b) + {b} <= Newer(h, a) && b !in Newer(h, b)
    ensures |Newer(h, b)| + 1 <= |Newer(h, a)|
  {
    forall x | x in Newer(h, b) + {b}
      ensures x in Newer(h, a)
    {
      NewerIsLater(h, init, a, x);
      NewerIsLater(h, init, b, x);
    }
    NewerIsLater(h, init, b, b);
    Slots.SubsetSize(Newer(h, b) + {b}, Newer(h, a));
  }

  /** What the table says about ip after the refreshes h. */
  ghost predicate HoldsAt(t: Table, h: seq<Entry>, ip: Ip) {
    && (FindIp(t, ip) != -1 <==> Recent(h, ip))
    && (FindIp(t, ip) != -1 ==> Latest(h, ip) == Some(t[FindIp(t, ip)]))
    && (FirstFree(t) != -1 && Latest(h, ip) != None ==> FindIp(t, ip) != -1)
  }

  ghost predicate HoldsNewest(t: Table, h: seq<Entry>) {
    |t| == ARP_TABLE_NO && Unique(t) && forall ip: Ip :: HoldsAt(t, h, ip)
  }

  lemma FindAfterWrite(t: Table, i: nat, e: Entry, other: Ip)
    requires Unique(t) && i < |t| && e.mac != ZERO_MAC
    requires FindIp(t, e.ip) == -1 || FindIp(t, e.ip) == i
    ensures Unique(t[i := e])
    ensures FindIp(t[i := e], other) ==
            if other == e.ip then i else if other == t[i].Key() then -1 else FindIp(t, other)
  {
    assert Keys(t[i := e]) == Keys(t)[i := e.Key()];
    Slots.WriteKeepsDistinct(Keys(t), FREE, i, e.Key());
    Slots.FindAfterWrite(Keys(t), FREE, i, e.Key(), other);
  }

  /** A history one refresh longer. */
  lemma OneMore(h: seq<Entry>, e: Entry, ip: int)
    ensures Latest(h + [e], ip) == if ip == e.ip then Some(e) else Latest(h, ip)
    ensures Newer(h + [e], ip) == if ip == e.ip then {} else Newer(h, ip) + {e.ip as int}
  {
    assert (h + [e])[..|h|] == h;
  }

  /** Refreshing a held address: no other address enters or leaves the sixteen. */
  lemma RefreshHeld(t: Table, init: int, h: seq<Entry>, e: Entry, x: Ip)
    requires HoldsNewest(t, h) && StrictRefreshes(h + [e], init) && StrictRefreshes(h, init)
    requires FindIp(t, e.ip) != -1 && x != e.ip
    ensures Recent(h + [e], x) <==> Recent(h, x)
  {
    OneMore(h, e, x);
    assert HoldsAt(t, h, e.ip);
    if Latest(h, x) != None && e.ip !in Newer(h, x) {
      NewerIsLater(h, init, x, e.ip);
      DistinctTimes(h, init, x, e.ip);
      LaterHasFewerNewer(h, init, e.ip, x);
    } else if Latest(h, x) != None {
      assert Newer(h, x) + {e.ip as int} == Newer(h, x);
    }
  }

  lemma DistinctTimes(h: seq<Entry>, init: int, a: int, b: int)
    requires StrictRefreshes(h, init) && Latest(h, a) != None && Latest(h, b) != None && a != b
    ensures TimeOf(h, a) != TimeOf(h, b)
  {
    LatestInHistory(h, a);
    LatestInHistory(h, b);
    var i :| 0 <= i < |h| && h[i] == Latest(h, a).value;
    var j :| 0 <= j < |h| && h[j] == Latest(h, b).value;
    assert i != j;
  }

  /** With a free entry every refreshed address is held, so there are at most fifteen. */
  lemma RefreshWithRoom(t: Table, init: int, h: seq<Entry>, e: Entry, x: Ip)
    requires HoldsNewest(t, h) && StrictRefreshes(h, init)
    requires FindIp(t, e.ip) == -1 && FirstFree(t) != -1 && x != e.ip
    ensures Recent(h + [e], x) <==> Recent(h, x)
  {
    OneMore(h, e, x);
    assert HoldsAt(t, h, x);
    if Latest(h, x) != None {
      forall y | y in Newer(h, x)
        ensures y in LiveIps(t) - {x as int}
      {
        NewerIsLater(h, init, x, y);
        LatestInHistory(h, y);
        assert HoldsAt(t, h, y);
      }
      Slots.SubsetSize(Newer(h, x), LiveIps(t) - {x as int});
      Slots.SlackCount(Keys(t), FREE, |t|);
    }
  }

  /** In a full table an address that is not held has never been refreshed or sixteen are newer. */
  lemma NotHeldNotNewer(t: Table, init: int, h: seq<Entry>, a: Ip, x: Ip)
    requires HoldsNewest(t, h) && StrictRefreshes(h, init)
    requires FindIp(t, a) == -1 && FindIp(t, x) != -1
    ensures a !in Newer(h, x)
  {
    assert HoldsAt(t, h, a) && HoldsAt(t, h, x);
    NewerIsLater(h, init, x, a);
    if Latest(h, a) != None && TimeOf(h, a) > TimeOf(h, x) {
      LaterHasFewerNewer(h, init, x, a);
    }
  }

  /** The oldest entry of a full table has exactly fifteen addresses newer than it. */
  lemma OldestHasFifteenNewer(t: Table, init: int, h: seq<Entry>)
    requires HoldsNewest(t, h) && StrictRefreshes(h, init) && FirstFree(t) == -1
    ensures Oldest(t, init) != -1 && t[Oldest(t, init)].Key() != FREE
    ensures var o := t[Oldest(t, init)].ip;
            FindIp(t, o) == Oldest(t, init) && |Newer(h, o)| == ARP_TABLE_NO - 1
  {
    AllHeldTimes(t, init, h, 0);
    var no := Oldest(t, init);
    var o := t[no].ip;
    Slots.FoundWhereItIs(Keys(t), FREE, no);
    assert HoldsAt(t, h, o);
    forall y | y in LiveIps(t) - {o as int}
      ensures y in Newer(h, o)
    {
      assert HoldsAt(t, h, y);
      NewerIsLater(h, init, o, y);
      DistinctTimes(h, init, o, y);
    }
    Slots.SubsetSize(LiveIps(t) - {o as int}, Newer(h, o));
    Slots.FullCount(Keys(t), FREE, |t|);
  }

  lemma AllHeldTimes(t: Table, init: int, h: seq<Entry>, i: nat)
    requires HoldsNewest(t, h) && StrictRefreshes(h, init) && i < |t| && FirstFree(t) == -1
    ensures t[i].Key() != FREE && t[i].timestamp < init
  {
    assert Keys(t)[i] != FREE;
    Slots.FoundWhereItIs(Keys(t), FREE, i);
    assert HoldsAt(t, h, t[i].ip);
    LatestInHistory(h, t[i].ip);
  }

  /** Learning a new address in a full table: exactly the oldest address leaves the sixteen. */
  lemma RefreshFull(t: Table, init: int, h: seq<Entry>, e: Entry, x: Ip)
    requires HoldsNewest(t, h) && StrictRefreshes(h, init)
    requires FindIp(t, e.ip) == -1 && FirstFree(t) == -1 && x != e.ip
    ensures Oldest(t, init) != -1
    ensures Recent(h + [e], x) <==> Recent(h, x) && x != t[Oldest(t, init)].ip
  {
    OldestHasFifteenNewer(t, init, h);
    var o := t[Oldest(t, init)].ip;
    OneMore(h, e, x);
    assert HoldsAt(t, h, x) && HoldsAt(t, h, o);
    if FindIp(t, x) != -1 {
      NotHeldNotNewer(t, init, h, e.ip, x);
      if x != o {
        DistinctTimes(h, init, o, x);
        LaterHasFewerNewer(h, init, o, x);
      }
    } else if Latest(h, x) != None {
      Slots.SubsetSize(Newer(h, x), Newer(h, x) + {e.ip as int});
    }
  }

  /** One refresh. */
  lemma RefreshHolds(t: Table, init: int, h: seq<Entry>, e: Entry)
    requires HoldsNewest(t, h) && StrictRefreshes(h, init) && StrictRefreshes(h + [e], init)
    ensures Place(t, init, e.ip) != -1
    ensures HoldsNewest(AddTo(t, init, e.mac, e.ip, e.timestamp), h + [e])
  {
    if FindIp(t, e.ip) == -1 && FirstFree(t) == -1 {
      OldestHasFifteenNewer(t, init, h);
    }
    assert e.mac != ZERO_MAC by { assert (h + [e])[|h|] == e; }
    var t' := AddTo(t, init, e.mac, e.ip, e.timestamp);
    forall x: Ip
      ensures HoldsAt(t', h + [e], x)
    {
      RefreshHoldsAt(t, init, h, e, x);
    }
    FindAfterWrite(t, Place(t, init, e.ip), e, e.ip);
  }

  lemma RefreshHoldsAt(t: Table, init: int, h: seq<Entry>, e: Entry, x: Ip)
    requires HoldsNewest(t, h) && StrictRefreshes(h, init) && StrictRefreshes(h + [e], init) && e.mac != ZERO_MAC
    requires Place(t, init, e.ip) != -1
    ensures HoldsAt(AddTo(t, init, e.mac, e.ip, e.timestamp), h + [e], x)
  {
    var no := Place(t, init, e.ip);
    var t' := t[no := e];
    assert AddTo(t, init, e.mac, e.ip, e.timestamp) == t';
    assert HoldsAt(t, h, x);
    FindAfterWrite(t, no, e, x);
    OneMore(h, e, x);
    if x != e.ip {
      if FindIp(t, e.ip) != -1 {
        RefreshHeld(t, init, h, e, x);
      } else if FirstFree(t) != -1 {
        RefreshWithRoom(t, init, h, e, x);
      } else {
        RefreshFull(t, init, h, e, x);
      }
    }
    RoomShrinks(t, no, e);
  }

  /** A write of a live entry frees nothing. */
  lemma RoomShrinks(t: Table, i: nat, e: Entry)
    requires i < |t| && e.mac != ZERO_MAC
    ensures FirstFree(t[i := e]) != -1 ==> FirstFree(t) != -1
  {
    var j := FirstFree(t[i := e]);
    if j != -1 {
      assert Keys(t)[j] == FREE;
    }
  }

  // ---------------------------------------------------------------------
  // Timestamps that repeat
  // ---------------------------------------------------------------------

  /** What holds for one address even when several refreshes fall into one second. */
  ghost predicate TiedAt(t: Table, h: seq<Entry>, ip: Ip) {
    && (FindIp(t, ip) != -1 ==> Latest(h, ip) == Some(t[FindIp(t, ip)]))
    && (FirstFree(t) != -1 && Latest(h, ip) != None ==> FindIp(t, ip) != -1)
    && (FindIp(t, ip) == -1 && Latest(h, ip) != None ==> NoneOlder(t, TimeOf(h, ip)))
  }

  /** Every live entry was refreshed at the given time or later. */
  ghost predicate NoneOlder(t: Table, time: int) {
    forall i :: 0 <= i < |t| && t[i].Key() != FREE ==> t[i].timestamp >= time
  }

  ghost predicate HoldsTied(t: Table, h: seq<Entry>) {
    |t| == ARP_TABLE_NO && Unique(t) && forall ip: Ip :: TiedAt(t, h, ip)
  }

  lemma TimesBelow(h: seq<Entry>, e: Entry, init: int, ip: int)
    requires Refreshes(h + [e], init) && Latest(h, ip) != None
    ensures TimeOf(h, ip) <= e.timestamp < init && TimeOf(h, ip) < init
  {
    LatestInHistory(h, ip);
    var i :| 0 <= i < |h| && h[i] == Latest(h, ip).value;
    assert (h + [e])[i] == h[i] && (h + [e])[|h|] == e;
  }

  /** A full table always has an oldest entry. */
  lemma TiedPlaced(t: Table, init: int, h: seq<Entry>, e: Entry)
    requires HoldsTied(t, h) && Refreshes(h + [e], init)
    ensures Place(t, init, e.ip) != -1
  {
    if FirstFree(t) == -1 {
      assert Keys(t)[0] != FREE;
      var ip := t[0].ip;
      Slots.FoundWhereItIs(Keys(t), FREE, 0);
      assert TiedAt(t, h, ip);
      TimesBelow(h, e, init, ip);
    }
  }

  lemma RefreshTiedAt(t: Table, init: int, h: seq<Entry>, e: Entry, x: Ip)
    requires HoldsTied(t, h) && Refreshes(h + [e], init) && e.mac != ZERO_MAC && Place(t, init, e.ip) != -1
    ensures TiedAt(AddTo(t, init, e.mac, e.ip, e.timestamp), h + [e], x)
  {
    var no := Place(t, init, e.ip);
    var t' := t[no := e];
    assert AddTo(t, init, e.mac, e.ip, e.timestamp) == t';
    assert TiedAt(t, h, x);
    FindAfterWrite(t, no, e, x);
    OneMore(h, e, x);
    RoomShrinks(t, no, e);
    if x != e.ip && Latest(h, x) != None {
      TimesBelow(h, e, init, x);
      if FindIp(t, x) == no {
        assert NoneOlder(t, TimeOf(h, x));
      }
    }
  }

  lemma RefreshTied(t: Table, init: int, h: seq<Entry>, e: Entry)
    requires HoldsTied(t, h) && Refreshes(h + [e], init)
    ensures Place(t, init, e.ip) != -1
    ensures HoldsTied(AddTo(t, init, e.mac, e.ip, e.timestamp), h + [e])
  {
    TiedPlaced(t, init, h, e);
    assert e.mac != ZERO_MAC by { assert (h + [e])[|h|] == e; }
    var t' := AddTo(t, init, e.mac, e.ip, e.timestamp);
    forall x: Ip
      ensures TiedAt(t', h + [e], x)
    {
      RefreshTiedAt(t, init, h, e, x);
    }
    FindAfterWrite(t, Place(t, init, e.ip), e, e.ip);
  }

  ghost function RefreshAll(t: Table, init: int, h: seq<Entry>): (r: Option<Table>)
    ensures r.Some? ==> |r.value| == |t|
  {
    if h == [] then Some(t)
    else
      var e := h[|h| - 1];
      match RefreshAll(t, init, h[..|h| - 1])
      case None => None
      case Some(t1) => if Place(t1, init, e.ip) == -1 then None else Some(AddTo(t1, init, e.mac, e.ip, e.timestamp))
  }

  /**
    Starting from an empty table, after any run of ArpAddTable calls with nonzero macs at times that
    never go back, every live entry is the latest one of its address; an address is missing only
    when the table is full, and then no live entry was last refreshed before it. When no two
    refreshes fall into one second this says that the live entries are exactly the (at most
    sixteen) most recently refreshed distinct addresses.
   */
  lemma LeastRecentlyRefreshedEvicted(t: Table, init: int, h: seq<Entry>)
    requires |t| == ARP_TABLE_NO && (forall i :: 0 <= i < |t| ==> t[i].mac == ZERO_MAC) && Refreshes(h, init)
    ensures RefreshAll(t, init, h).Some?
    ensures var t' := RefreshAll(t, init, h).value;
            && Unique(t')
            && (forall ip: Ip :: FindIp(t', ip) != -1 ==> Latest(h, ip) == Some(t'[FindIp(t', ip)]))
            && (forall ip: Ip :: FindIp(t', ip) == -1 && Latest(h, ip) != None ==>
                  FirstFree(t') == -1 && NoneOlder(t', TimeOf(h, ip)))
            && (StrictRefreshes(h, init) ==> forall ip: Ip :: FindIp(t', ip) != -1 <==> Recent(h, ip))
  {
    RefreshAllTied(t, init, h);
    var t' := RefreshAll(t, init, h).value;
    forall ip: Ip
      ensures FindIp(t', ip) != -1 ==> Latest(h, ip) == Some(t'[FindIp(t', ip)])
      ensures FindIp(t', ip) == -1 && Latest(h, ip) != None ==> FirstFree(t') == -1 && NoneOlder(t', TimeOf(h, ip))
    {
      assert TiedAt(t', h, ip);
    }
    if StrictRefreshes(h, init) {
      RefreshAllHolds(t, init, h);
      forall ip: Ip
        ensures FindIp(t', ip) != -1 <==> Recent(h, ip)
      {
        assert HoldsAt(t', h, ip);
      }
    }
  }

  lemma {:induction false} RefreshAllTied(t: Table, init: int, h: seq<Entry>)
    requires |t| == ARP_TABLE_NO && (forall i :: 0 <= i < |t| ==> t[i].mac == ZERO_MAC) && Refreshes(h, init)
    ensures RefreshAll(t, init, h).Some? && HoldsTied(RefreshAll(t, init, h).value, h)
  {
    if h == [] {
      forall ip: Ip
        ensures TiedAt(t, h, ip)
      {
      }
    } else {
      var e, before := h[|h| - 1], h[..|h| - 1];
      RefreshAllTied(t, init, before);
      assert before + [e] == h;
      RefreshTied(RefreshAll(t, init, before).value, init, before, e);
    }
  }

  lemma {:induction false} RefreshAllHolds(t: Table, init: int, h: seq<Entry>)
    requires |t| == ARP_TABLE_NO && (forall i :: 0 <= i < |t| ==> t[i].mac == ZERO_MAC) && StrictRefreshes(h, init)
    ensures RefreshAll(t, init, h).Some? && HoldsNewest(RefreshAll(t, init, h).value, h)
  {
    if h == [] {
      EmptyHolds(t);
    } else {
      var e, before := h[|h| - 1], h[..|h| - 1];
      RefreshAllHolds(t, init, before);
      assert before + [e] == h;
      RefreshHolds(RefreshAll(t, init, before).value, init, before, e);
    }
  }

  lemma EmptyHolds(t: Table)
    requires |t| == ARP_TABLE_NO && forall i :: 0 <= i < |t| ==> t[i].mac == ZERO_MAC
    ensures HoldsNewest(t, [])
  {
    assert forall i :: 0 <= i < |t| ==> Keys(t)[i] == FREE;
    forall ip: Ip
      ensures HoldsAt(t, [], ip)
    {
    }
  }
}
