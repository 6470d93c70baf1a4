/**
  The reassembly table (ip.c): sixteen buffers keyed by IP id, searched, filled, evicted and
  freed in place.
 */
module IpTable {
  import opened Bytes
  import opened Checksum
  import opened Ether
  import opened IpPacket
  import opened Slots

  const IP_RECV_BUF_NO := 16
  const BUF_SIZE := 0x1_0000

  /** A free slot has id -1; its other fields, and the bytes of any slot, are whatever was left there. */
  datatype Slot = Slot(timestamp: int, id: int, data: seq<byte>, len: int)

  /** What the search for the oldest entry starts from. */
  const ULONG_MAX_IN_TIME_T := -1

  ghost predicate Sized(t: seq<Slot>) {
    |t| == IP_RECV_BUF_NO && forall i :: 0 <= i < |t| ==> |t[i].data| == BUF_SIZE
  }

  ghost predicate Unique(t: seq<Slot>) {
    forall i, j :: 0 <= i < j < |t| && t[i].id == t[j].id ==> t[i].id == -1
  }

  // ---------------------------------------------------------------------
  // The three things the scan looks for
  // ---------------------------------------------------------------------

  function Ids(t: seq<Slot>): (r: seq<int>)
    ensures |r| == |t| && forall i :: 0 <= i < |t| ==> r[i] == t[i].id
  {
    seq(|t|, i requires 0 <= i < |t| => t[i].id)
  }

  function Times(t: seq<Slot>): (r: seq<int>)
    ensures |r| == |t| && forall i :: 0 <= i < |t| ==> r[i] == t[i].timestamp
  {
    seq(|t|, i requires 0 <= i < |t| => t[i].timestamp)
  }

  function FindId(t: seq<Slot>, id: int): (r: int)
    ensures -1 <= r < |t|
    ensures r == -1 <==> forall j :: 0 <= j < |t| ==> t[j].id != id
    ensures r != -1 ==> t[r].id == id && forall j :: 0 <= j < r ==> t[j].id != id
  {
    FindKey(Ids(t), id, |t|)
  }

  /** The search for a free slot keeps the last one it sees. */
  function LastFree(t: seq<Slot>): (r: int)
    ensures -1 <= r < |t|
    ensures r == -1 <==> forall j :: 0 <= j < |t| ==> t[j].id != -1
    ensures r != -1 ==> t[r].id == -1 && forall j :: r < j < |t| ==> t[j].id != -1
  {
    FindLastKey(Ids(t), -1, |t|)
  }

  /** The first live slot with the least timestamp, among those with a timestamp below init. */
  function Oldest(t: seq<Slot>, init: int): (r: int)
    ensures -1 <= r < |t|
    ensures r == -1 <==> forall j :: 0 <= j < |t| && t[j].id != -1 ==> t[j].timestamp >= init
    ensures r != -1 ==>
              && t[r].id != -1 && t[r].timestamp < init
              && (forall j :: 0 <= j < |t| && t[j].id != -1 ==> t[r].timestamp <= t[j].timestamp)
              && (forall j :: 0 <= j < r && t[j].id != -1 ==> t[r].timestamp < t[j].timestamp)
  {
    FindOldest(Ids(t), -1, Times(t), init, |t|)
  }

  /** The slot IpRecvBufAdd settles on. */
  function Place(t: seq<Slot>, init: int, id: int): (r: int)
    ensures -1 <= r < |t|
  {
    var found, free := FindId(t, id), LastFree(t);
    if found != -1 then found else if free != -1 then free else Oldest(t, init)
  }

  function AddTo(t: seq<Slot>, init: int, id: int, now: int): (t': seq<Slot>)
    requires Place(t, init, id) != -1
    ensures |t'| == |t|
  {
    var no := Place(t, init, id);
    if t[no].id == id then t else t[no := t[no].(timestamp := now, id := id, len := 0)]
  }

  function DeleteFrom(t: seq<Slot>, id: int): (t': seq<Slot>)
    ensures |t'| == |t|
  {
    var no := FindId(t, id);
    if no == -1 then t else t[no := t[no].(id := -1)]
  }

  /** A reassembled datagram handed to ICMP or UDP. */
  datatype Delivery = Delivery(proto: byte, src: Ip, dst: Ip, data: seq<byte>)

  function Upper(proto: byte, src: Ip, dst: Ip, data: seq<byte>): Option<Delivery> {
    if proto == IPPROTO_ICMP || proto == IPPROTO_UDP then Some(Delivery(proto, src, dst, data)) else None
  }

  /** The table after a piece that has passed the header checksum, and what goes up. */
  function Receive(t: seq<Slot>, init: int, p: Piece, now: int): (r: (seq<Slot>, Option<Delivery>))
    requires Sized(t) && p.off + |p.body| <= BUF_SIZE
    requires Place(t, init, p.id) != -1
    ensures Sized(r.0)
  {
    var no := Place(t, init, p.id);
    var t1 := AddTo(t, init, p.id, now);
    var t2 := t1[no := t1[no].(data := Overlay(t1[no].data, p.off, p.body))];
    if p.more then (t2, None)
    else
      var t3 := t2[no := t2[no].(len := p.off + |p.body|)];
      (DeleteFrom(t3, p.id), Upper(p.proto, p.src, p.dst, t3[no].data[..t3[no].len]))
  }

  /**
    A packet is accepted exactly when the word sum of header and options is divisible by 65535,
    and then the piece received lies behind the options.
   */
  ghost predicate Judged(data: seq<byte>, ret: int)
    requires |data| >= 20 && WellFramed(data)
  {
    var start := BodyStart(data);
    && LiesBehindOptions(data)
    && (ret == 0 <==> ExactSum(Big, data[..start]) % 0xFFFF == 0)
    && (ret == 0 ==> HeaderPasses(data) && Parse(data) == PieceOnWire(data[..20], data[start..start + BodyLen(data)]))
  }

  // ---------------------------------------------------------------------
  // The table object
  // ---------------------------------------------------------------------

  class IpRecvTable {
    const slots: array<Slot>
    /** The value oldestTime starts from: the source writes ULONG_MAX into a time_t. */
    const oldestInit: int

    ghost predicate Valid()
      reads slots
    {
      Sized(slots[..])
    }

    constructor (memory: seq<Slot>, oldestInit: int)
      requires Sized(memory)
      ensures Valid() && fresh(slots) && this.oldestInit == oldestInit
      ensures slots[..] == memory
    {
      slots := new Slot[|memory|](i requires 0 <= i < |memory| => memory[i]);
      this.oldestInit := oldestInit;
    }

    /** IpRecvBufInit: frees every slot and touches nothing else. */
    method Init()
      requires Valid()
      modifies slots
      ensures Valid()
      ensures forall i :: 0 <= i < slots.Length ==> slots[i] == old(slots[i]).(id := -1)
    {
      for i := 0 to slots.Length
        invariant forall j :: 0 <= j < slots.Length ==>
                    slots[j] == if j < i then old(slots[j]).(id := -1) else old(slots[j])
      {
        slots[i] := slots[i].(id := -1);
      }
    }

    method Add(id: word, now: int) returns (no: int)
      requires Valid()
      requires Place(slots[..], oldestInit, id) != -1
      modifies slots
      ensures Valid()
      ensures no == Place(old(slots[..]), oldestInit, id)
      ensures slots[..] == AddTo(old(slots[..]), oldestInit, id, now)
    {
      ghost var t := slots[..];
      var freeNo, oldestNo, oldestTime := -1, -1, oldestInit;
      for i := 0 to slots.Length
        invariant slots[..] == t && FindKey(Ids(t), id, i) == -1
        invariant freeNo == FindLastKey(Ids(t), -1, i)
        invariant oldestNo == FindOldest(Ids(t), -1, Times(t), oldestInit, i)
        invariant oldestTime == if oldestNo == -1 then oldestInit else t[oldestNo].timestamp
      {
        if slots[i].id == -1 {
          freeNo := i;
        } else {
          if slots[i].id == id {
            FoundFirst(Ids(t), id, i);
            return i;
          }
          if slots[i].timestamp < oldestTime {
            oldestTime := slots[i].timestamp;
            oldestNo := i;
          }
        }
      }
      no := if freeNo == -1 then oldestNo else freeNo;
      slots[no] := slots[no].(timestamp := now, id := id, len := 0);
    }

    method Del(id: word) returns (ret: int)
      requires Valid()
      modifies slots
      ensures Valid()
      ensures slots[..] == DeleteFrom(old(slots[..]), id)
      ensures ret == if FindId(old(slots[..]), id) == -1 then 0 else 1
    {
      ghost var t := slots[..];
      for i := 0 to slots.Length
        invariant slots[..] == t && FindKey(Ids(t), id, i) == -1
      {
        if slots[i].id == id {
          FoundFirst(Ids(t), id, i);
          slots[i] := slots[i].(id := -1);
          return 1;
        }
      }
      ret := 0;
    }

    method Search(id: word) returns (ret: int)
      requires Valid()
      ensures ret == 1 || ret == -1
      ensures ret == 1 <==> exists i :: 0 <= i < slots.Length && slots[i].id == id
    {
      for i := 0 to slots.Length
        invariant forall j :: 0 <= j < i ==> slots[j].id != id
      {
        if slots[i].id == id {
          return 1;
        }
      }
      ret := -1;
    }

    /**
      IpRecv. Rejected packets leave the table alone; accepted ones change it, and hand data up,
      as Receive says.
     */
    method IpRecv(data: seq<byte>, now: int) returns (ret: int, up: Option<Delivery>)
      requires Valid()
      requires |data| >= IP_HDR_LEN ==> WellFramed(data)
      requires |data| >= IP_HDR_LEN && HeaderPasses(data) ==>
                 && Offset(data) + BodyLen(data) <= BUF_SIZE
                 && Place(slots[..], oldestInit, WordAt(data, 4)) != -1
      modifies slots
      ensures Valid()
      ensures ret == if |data| >= IP_HDR_LEN && HeaderPasses(data) then 0 else -1
      ensures ret == -1 ==> slots[..] == old(slots[..]) && up == None
      ensures ret == 0 ==> (slots[..], up) == Receive(old(slots[..]), oldestInit, Parse(data), now)
      ensures |data| >= 20 ==> Judged(data, ret)
    {
      if |data| >= IP_HDR_LEN {
        ParsedByPosition(data);
      }
      if |data| < IP_HDR_LEN {
        return -1, None;
      }
      var ok := HeaderSumPasses(data);
      if !ok {
        return -1, None;
      }
      up := Accept(Parse(data), now);
      ret := 0;
    }

    /** The first half of IpRecv: the checksum over the header and its options, if any. */
    static method HeaderSumPasses(data: seq<byte>) returns (ok: bool)
      requires |data| >= IP_HDR_LEN && BodyStart(data) <= |data|
      ensures ok <==> HeaderPasses(data)
    {
      var optionLen: int := HeaderLen(data) - IP_HDR_LEN;
      var sum;
      if optionLen == 0 {
        sum := Checksum.Checksum(HOST, data[..IP_HDR_LEN]);
      } else {
        // a header length below 20 makes optionLen negative: nothing is copied, nothing summed
        var option := if optionLen > 0 then data[IP_HDR_LEN..IP_HDR_LEN + optionLen] else [];
        sum := Checksum2(HOST, data[..IP_HDR_LEN], option);
        assert data[..IP_HDR_LEN] + option == data[..BodyStart(data)];
      }
      ok := !(sum != 0 && sum != 0xFFFF);
    }

    /** The second half: copy the piece into its buffer and, on the last one, deliver and free it. */
    method Accept(p: Piece, now: int) returns (up: Option<Delivery>)
      requires Valid() && p.off + |p.body| <= BUF_SIZE
      requires Place(slots[..], oldestInit, p.id) != -1
      modifies slots
      ensures Valid()
      ensures (slots[..], up) == Receive(old(slots[..]), oldestInit, p, now)
    {
      var no := Add(p.id, now);
      ghost var t1 := slots[..];
      slots[no] := slots[no].(data := Overlay(slots[no].data, p.off, p.body));
      ghost var t2 := slots[..];
      assert t2 == t1[no := t1[no].(data := Overlay(t1[no].data, p.off, p.body))];
      up := None;
      if !p.more {
        slots[no] := slots[no].(len := p.off + |p.body|);
        assert slots[..] == t2[no := t2[no].(len := p.off + |p.body|)];
        up := Upper(p.proto, p.src, p.dst, slots[no].data[..slots[no].len]);
        var _ := Del(p.id);
      }
    }
  }
}
