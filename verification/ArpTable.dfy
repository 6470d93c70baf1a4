/** The ARP cache (arp.c): sixteen entries, the least recently refreshed one evicted. */
module ArpTable {
  import opened Bytes
  import opened Ether
  import Slots

  const ARP_TABLE_NO := 16

  datatype Entry = Entry(timestamp: int, mac: Mac, ip: Ip) {
    /** The address of a live entry; an entry is free when its mac is all zero. */
    function Key(): int {
      if mac == ZERO_MAC then FREE else ip
    }
  }

  const FREE := -1

  type Table = seq<Entry>

  function Keys(t: Table): (r: seq<int>)
    ensures |r| == |t| && forall i :: 0 <= i < |t| ==> r[i] == t[i].Key()
  {
    seq(|t|, i requires 0 <= i < |t| => t[i].Key())
  }

  function Times(t: Table): (r: seq<int>)
    ensures |r| == |t| && forall i :: 0 <= i < |t| ==> r[i] == t[i].timestamp
  {
    seq(|t|, i requires 0 <= i < |t| => t[i].timestamp)
  }

  /** No two live entries share an address. */
  ghost predicate Unique(t: Table) {
    Slots.Distinct(Keys(t), FREE)
  }

  function FindIp(t: Table, ip: Ip): (r: int)
    ensures -1 <= r < |t|
    ensures r != -1 ==> t[r].Key() == ip
  {
    Slots.FindKey(Keys(t), ip, |t|)
  }

  function FirstFree(t: Table): (r: int)
    ensures -1 <= r < |t|
    ensures r != -1 ==> t[r].Key() == FREE
  {
    Slots.FindKey(Keys(t), FREE, |t|)
  }

  /** The first live entry with the least timestamp, among those with a timestamp below init. */
  function Oldest(t: Table, init: int): (r: int)
    ensures -1 <= r < |t|
    ensures r == -1 <==> forall j :: 0 <= j < |t| && t[j].Key() != FREE ==> t[j].timestamp >= init
    ensures r != -1 ==>
              && t[r].Key() != FREE && t[r].timestamp < init
              && (forall j :: 0 <= j < |t| && t[j].Key() != FREE ==> t[r].timestamp <= t[j].timestamp)
              && (forall j :: 0 <= j < r && t[j].Key() != FREE ==> t[r].timestamp < t[j].timestamp)
  {
    Slots.FindOldest(Keys(t), FREE, Times(t), init, |t|)
  }

  /** The entry ArpAddTable settles on. */
  function Place(t: Table, init: int, ip: Ip): (r: int)
    ensures -1 <= r < |t|
  {
    var found, free := FindIp(t, ip), FirstFree(t);
    if found != -1 then found else if free != -1 then free else Oldest(t, init)
  }

  /** Where that is: at the address, else at the first free entry, else at the first oldest one. */
  lemma PlaceChosen(t: Table, init: int, ip: Ip)
    requires Place(t, init, ip) != -1
    ensures var no := Place(t, init, ip);
            || t[no].Key() == ip
            || (&& (forall i :: 0 <= i < |t| ==> t[i].Key() != ip)
                && t[no].mac == 0 && forall i :: 0 <= i < no ==> t[i].mac != 0)
            || (&& (forall i :: 0 <= i < |t| ==> t[i].Key() != ip && t[i].mac != 0)
                && (forall i :: 0 <= i < |t| ==> t[no].timestamp <= t[i].timestamp)
                && forall i :: 0 <= i < no ==> t[no].timestamp < t[i].timestamp)
  {
    assert forall i :: 0 <= i < |t| ==> Keys(t)[i] == t[i].Key();
  }

  function AddTo(t: Table, init: int, mac: Mac, ip: Ip, now: int): (t': Table)
    requires Place(t, init, ip) != -1
    ensures |t'| == |t|
  {
    t[Place(t, init, ip) := Entry(now, mac, ip)]
  }

  /**
    The two readings of the deletion. As written the mac cleared is that of entry 0, whatever
    entry was found; meant is the entry found.
   */
  datatype DelReading = AsWritten | EntryFound

  function DeleteFrom(reading: DelReading, t: Table, ip: Ip): (t': Table)
    ensures |t'| == |t|
  {
    var no := FindIp(t, ip);
    if no == -1 then t
    else
      var cleared := if reading == AsWritten then 0 else no;
      var t1 := t[cleared := t[cleared].(mac := ZERO_MAC)];
      t1[no := t1[no].(ip := ANY_IP, timestamp := 0)]
  }

  /** What the table says about an address. */
  function Lookup(t: Table, ip: Ip): Option<Mac> {
    var no := FindIp(t, ip);
    if no == -1 then None else Some(t[no].mac)
  }

  class ArpCache {
    const entries: array<Entry>
    /** The value oldsetTime starts from. */
    const oldestInit: int

    ghost predicate Valid()
      reads entries
    {
      entries.Length == ARP_TABLE_NO
    }

    constructor (memory: Table, oldestInit: int)
      requires |memory| == ARP_TABLE_NO
      ensures Valid() && fresh(entries) && entries[..] == memory && this.oldestInit == oldestInit
    {
      entries := new Entry[|memory|](i requires 0 <= i < |memory| => memory[i]);
      this.oldestInit := oldestInit;
    }

    method Add(mac: Mac, ip: Ip, now: int) returns (no: int)
      requires Valid() && Place(entries[..], oldestInit, ip) != -1
      modifies entries
      ensures Valid() && no == Place(old(entries[..]), oldestInit, ip)
      ensures entries[..] == AddTo(old(entries[..]), oldestInit, mac, ip, now)
    {
      ghost var t := entries[..];
      var freeNo, oldestNo, oldestTime := -1, -1, oldestInit;
      for i := 0 to entries.Length
        invariant entries[..] == t && Slots.FindKey(Keys(t), ip, i) == -1
        invariant freeNo == Slots.FindKey(Keys(t), FREE, i)
        invariant oldestNo == Slots.FindOldest(Keys(t), FREE, Times(t), oldestInit, i)
        invariant oldestTime == if oldestNo == -1 then oldestInit else t[oldestNo].timestamp
      {
        if entries[i].mac == ZERO_MAC {
          if freeNo == -1 {
            freeNo := i;
          }
        } else {
          if entries[i].ip == ip {
            Slots.FoundFirst(Keys(t), ip, i);
            entries[i] := entries[i].(mac := mac, timestamp := now);
            assert entries[..] == t[i := Entry(now, mac, ip)];
            return i;
          }
          if entries[i].timestamp < oldestTime {
            oldestTime := entries[i].timestamp;
            oldestNo := i;
          }
        }
      }
      no := if freeNo == -1 then oldestNo else freeNo;
      assert no == Place(t, oldestInit, ip);
      entries[no] := Entry(now, mac, ip);
    }

    method Del(reading: DelReading, ip: Ip) returns (ret: int)
      requires Valid()
      modifies entries
      ensures Valid() && entries[..] == DeleteFrom(reading, old(entries[..]), ip)
      ensures ret == if Lookup(old(entries[..]), ip) == None then 0 else 1
      ensures ret == 1 ==>
                var no := FindIp(old(entries[..]), ip);
                var cleared := if reading == AsWritten then 0 else no;
                && no != -1 && entries[cleared].mac == 0 && entries[no].ip == 0 && entries[no].timestamp == 0
                && forall i :: 0 <= i < 16 && i != no && i != cleared ==> entries[i] == old(entries[i])
    {
      ghost var t := entries[..];
      for i := 0 to entries.Length
        invariant entries[..] == t && Slots.FindKey(Keys(t), ip, i) == -1
      {
        if entries[i].mac != ZERO_MAC && entries[i].ip == ip {
          Slots.FoundFirst(Keys(t), ip, i);
          var cleared := if reading == AsWritten then 0 else i;
          entries[cleared] := entries[cleared].(mac := ZERO_MAC);
          entries[i] := entries[i].(ip := ANY_IP, timestamp := 0);
          return 1;
        }
      }
      ret := 0;
    }

    /** mac keeps its old value when nothing is found. */
    method Search(ip: Ip, mac: Mac) returns (ret: int, mac': Mac)
      requires Valid()
      ensures ret == if Lookup(entries[..], ip) == None then 0 else 1
      ensures mac' == match Lookup(entries[..], ip) { case None => mac case Some(m) => m }
    {
      for i := 0 to entries.Length
        invariant Slots.FindKey(Keys(entries[..]), ip, i) == -1
      {
        if entries[i].mac != ZERO_MAC && entries[i].ip == ip {
          Slots.FoundFirst(Keys(entries[..]), ip, i);
          return 1, entries[i].mac;
        }
      }
      ret, mac' := 0, mac;
    }
  }

  // ---------------------------------------------------------------------
  // The abstract map
  // ---------------------------------------------------------------------

  /** The addresses of live entries. */
  ghost function LiveIps(t: Table): (r: set<int>)
    ensures forall ip: Ip :: ip in r <==> FindIp(t, ip) != -1
    ensures forall k :: k in r ==> 0 <= k < 0x1_0000_0000
  {
    var r := Slots.KeySet(Keys(t), FREE, |t|);
    assert forall k :: k in r ==> Keys(t)[Slots.FindKey(Keys(t), k, |t|)] == k;
    r
  }

  /** The table as a map from addresses to macs. */
  ghost function Pairs(t: Table): map<int, Mac> {
    map ip: int | ip in LiveIps(t) :: t[FindIp(t, ip)].mac
  }

  lemma LookupIsPairs(t: Table, ip: Ip)
    ensures Lookup(t, ip) == if ip in Pairs(t) then Some(Pairs(t)[ip]) else None
  {
  }

  /** Writing one entry concerns only the address that was and the one that is in it. */
  lemma LookupAfterWrite(t: Table, i: nat, e: Entry, other: Ip)
    requires Unique(t) && i < |t|
    requires e.Key() == FREE || FindIp(t, e.ip) == -1 || FindIp(t, e.ip) == i
    ensures Unique(t[i := e])
    ensures Lookup(t[i := e], other) ==
            if other == e.Key() then Some(e.mac)
            else if other == t[i].Key() then None
            else Lookup(t, other)
  {
    assert Keys(t[i := e]) == Keys(t)[i := e.Key()];
    Slots.WriteKeepsDistinct(Keys(t), FREE, i, e.Key());
    Slots.FindAfterWrite(Keys(t), FREE, i, e.Key(), other);
  }

  /** What adding does to one address: the one added, the one displaced, and any other. */
  lemma LookupAfterAdd(t: Table, init: int, mac: Mac, ip: Ip, now: int, other: Ip)
    requires Unique(t) && Place(t, init, ip) != -1
    ensures var t' := AddTo(t, init, mac, ip, now);
            && Unique(t')
            && Lookup(t', other) ==
               if other == ip then (if mac == ZERO_MAC then None else Some(mac))
               else if other == t[Place(t, init, ip)].Key() then None
               else Lookup(t, other)
  {
    LookupAfterWrite(t, Place(t, init, ip), Entry(now, mac, ip), other);
  }

  /** A map is the table's when it answers every lookup as the table does. */
  lemma SamePairs(t: Table, m: map<int, Mac>)
    requires forall ip :: ip in m ==> 0 <= ip < 0x1_0000_0000
    requires forall ip: Ip :: Lookup(t, ip) == if ip in m then Some(m[ip]) else None
    ensures Pairs(t) == m
  {
    forall ip: int
      ensures ip in Pairs(t) <==> ip in m
      ensures ip in m ==> Pairs(t)[ip] == m[ip]
    {
      if 0 <= ip < 0x1_0000_0000 {
        LookupIsPairs(t, ip);
      }
    }
  }

  /** As meant, deleting removes exactly the address from the map. */
  lemma DeleteFoundRemoves(t: Table, ip: Ip)
    requires Unique(t)
    ensures Unique(DeleteFrom(EntryFound, t, ip))
    ensures Pairs(DeleteFrom(EntryFound, t, ip)) == Pairs(t) - {ip}
  {
    var t' := DeleteFrom(EntryFound, t, ip);
    LookupAfterDelete(t, ip, ip);
    forall other: Ip
      ensures Lookup(t', other) == if other in Pairs(t) - {ip} then Some(Pairs(t)[other]) else None
    {
      LookupIsPairs(t, other);
      LookupAfterDelete(t, ip, other);
    }
    SamePairs(t', Pairs(t) - {ip});
  }

  lemma LookupAfterDelete(t: Table, ip: Ip, other: Ip)
    requires Unique(t)
    ensures Unique(DeleteFrom(EntryFound, t, ip))
    ensures Lookup(DeleteFrom(EntryFound, t, ip), other) == if other == ip then None else Lookup(t, other)
  {
    var no := FindIp(t, ip);
    if no != -1 {
      assert DeleteFrom(EntryFound, t, ip) == t[no := Entry(0, ZERO_MAC, ANY_IP)];
      LookupAfterWrite(t, no, Entry(0, ZERO_MAC, ANY_IP), other);
    }
  }

  /** When clearing the mac of entry 0 instead does no harm. */
  predicate HarmlessAsWritten(t: Table, ip: Ip)
    requires |t| > 0
  {
    var no := FindIp(t, ip);
    no == -1 || no == 0 || (t[0].Key() == ANY_IP && t[0].mac == t[no].mac)
  }

  /**
    Exactly when the deletion as written leaves a sound table without the address: when nothing
    is found, when it is found in entry 0, or when entry 0 holds 0.0.0.0 with the same mac (the
    entry found then takes over its role). Otherwise the entry found stays live under 0.0.0.0.
   */
  lemma DeleteAsWrittenIff(t: Table, ip: Ip)
    requires Unique(t) && |t| == ARP_TABLE_NO
    ensures var t' := DeleteFrom(AsWritten, t, ip);
            (Unique(t') && Pairs(t') == Pairs(t) - {ip}) <==> HarmlessAsWritten(t, ip)
  {
    var t', no := DeleteFrom(AsWritten, t, ip), FindIp(t, ip);
    if no == -1 {
      LookupIsPairs(t, ip);
      assert Pairs(t) - {ip} == Pairs(t);
    } else if no == 0 {
      assert t' == DeleteFrom(EntryFound, t, ip);
      DeleteFoundRemoves(t, ip);
    } else if HarmlessAsWritten(t, ip) {
      HarmlessTakeover(t, ip);
    } else {
      HarmfulAsWritten(t, ip);
    }
  }

  /** The two writes of the deletion as written. */
  lemma AsWrittenWrites(t: Table, ip: Ip)
    requires |t| > 0 && FindIp(t, ip) > 0
    ensures var no, e0 := FindIp(t, ip), t[0].(mac := ZERO_MAC);
            DeleteFrom(AsWritten, t, ip) == t[0 := e0][no := Entry(0, t[no].mac, ANY_IP)]
  {
  }

  lemma HarmlessTakeover(t: Table, ip: Ip)
    requires Unique(t) && |t| == ARP_TABLE_NO && FindIp(t, ip) > 0 && HarmlessAsWritten(t, ip)
    ensures var t' := DeleteFrom(AsWritten, t, ip); Unique(t') && Pairs(t') == Pairs(t) - {ip}
  {
    var t' := DeleteFrom(AsWritten, t, ip);
    LookupAfterTakeover(t, ip, ip);
    forall other: Ip
      ensures Lookup(t', other) == if other in Pairs(t) - {ip} then Some(Pairs(t)[other]) else None
    {
      LookupIsPairs(t, other);
      LookupAfterTakeover(t, ip, other);
    }
    SamePairs(t', Pairs(t) - {ip});
  }

  lemma LookupAfterTakeover(t: Table, ip: Ip, other: Ip)
    requires Unique(t) && |t| == ARP_TABLE_NO && FindIp(t, ip) > 0 && HarmlessAsWritten(t, ip)
    ensures Unique(DeleteFrom(AsWritten, t, ip))
    ensures Lookup(DeleteFrom(AsWritten, t, ip), other) == if other == ip then None else Lookup(t, other)
  {
    var no := FindIp(t, ip);
    var e0, e := t[0].(mac := ZERO_MAC), Entry(0, t[no].mac, ANY_IP);
    AsWrittenWrites(t, ip);
    LookupAfterWrite(t, 0, e0, ANY_IP);
    LookupAfterWrite(t, 0, e0, other);
    LookupAfterWrite(t[0 := e0], no, e, other);
    Slots.FoundWhereItIs(Keys(t), FREE, 0);
  }

  lemma HarmfulAsWritten(t: Table, ip: Ip)
    requires Unique(t) && |t| == ARP_TABLE_NO && !HarmlessAsWritten(t, ip)
    ensures var t' := DeleteFrom(AsWritten, t, ip); !(Unique(t') && Pairs(t') == Pairs(t) - {ip})
  {
    var t', no := DeleteFrom(AsWritten, t, ip), FindIp(t, ip);
    if FindIp(t, ANY_IP) > 0 && ip != ANY_IP {
      TwoUnderAny(t, ip);
    } else if Unique(t') {
      FoundUnderAny(t, ip);
      LookupIsPairs(t', ANY_IP);
      AnyElsewhere(t, ip);
    }
  }

  lemma AnyElsewhere(t: Table, ip: Ip)
    requires |t| > 0 && FindIp(t, ip) > 0 && !HarmlessAsWritten(t, ip)
    requires ip == ANY_IP || FindIp(t, ANY_IP) <= 0
    ensures var m := Pairs(t) - {ip}; ANY_IP in m ==> m[ANY_IP] != t[FindIp(t, ip)].mac
  {
    LookupIsPairs(t, ANY_IP);
  }

  lemma TwoUnderAny(t: Table, ip: Ip)
    requires Unique(t) && FindIp(t, ip) > 0 && FindIp(t, ANY_IP) > 0 && ip != ANY_IP
    ensures !Unique(DeleteFrom(AsWritten, t, ip))
  {
    var t', no, j := DeleteFrom(AsWritten, t, ip), FindIp(t, ip), FindIp(t, ANY_IP);
    AsWrittenWrites(t, ip);
    assert Keys(t')[j] == Keys(t')[no] != FREE;
  }

  lemma FoundUnderAny(t: Table, ip: Ip)
    requires FindIp(t, ip) > 0 && Unique(DeleteFrom(AsWritten, t, ip))
    ensures Lookup(DeleteFrom(AsWritten, t, ip), ANY_IP) == Some(t[FindIp(t, ip)].mac)
  {
    AsWrittenWrites(t, ip);
    Slots.FoundWhereItIs(Keys(DeleteFrom(AsWritten, t, ip)), FREE, FindIp(t, ip));
  }

  /**
    When ArpAddTable finds an entry at all: as for the reassembly table, the literal sentinel
    (ULONG_MAX in a signed time_t) never evicts, one above every timestamp always can.
   */
  lemma PlacedIff(t: Table, init: int, ip: Ip)
    requires |t| == ARP_TABLE_NO && forall i :: 0 <= i < |t| ==> t[i].timestamp >= 0
    ensures init == -1 ==> (Place(t, init, ip) != -1 <==> Lookup(t, ip) != None || FirstFree(t) != -1)
    ensures (forall i :: 0 <= i < |t| ==> t[i].timestamp < init) ==> Place(t, init, ip) != -1
  {
    if FirstFree(t) == -1 {
      assert Keys(t)[0] != FREE;
    }
  }
}
