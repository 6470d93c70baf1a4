/** ARP packets, their reception and the resolution of a next hop (arp.c, param.c). */
module Arp {
  import opened Bytes
  import opened Ether
  import opened ArpTable
  import ArpHistory

  const ARP_LEN := 28
  const ARPOP_REQUEST: word := 1
  const ARPOP_REPLY: word := 2
  const RETRY_COUNT := 3

  /** The configured identity of the host and its network. */
  datatype Param = Param(vmac: Mac, vip: Ip, vmask: Ip, gateway: Ip)

  // ---------------------------------------------------------------------
  // Packets
  // ---------------------------------------------------------------------

  function ArpBytes(op: word, smac: Mac, dmac: Mac, saddr: Ip, daddr: Ip): (r: seq<byte>)
    ensures |r| == ARP_LEN
  {
    Be16(1) + Be16(ETHERTYPE_IP) + [6, 4] + Be16(op) + MacBytes(smac) + IpBytes(saddr) + MacBytes(dmac) + IpBytes(daddr)
  }

  function OpAt(data: seq<byte>): word
    requires |data| >= ARP_LEN
  {
    WordAt(data, 6)
  }

  function SenderMac(data: seq<byte>): Mac
    requires |data| >= ARP_LEN
  {
    MacAt(data, 8)
  }

  function SenderIp(data: seq<byte>): Ip
    requires |data| >= ARP_LEN
  {
    IpAt(data, 14)
  }

  function TargetIp(data: seq<byte>): Ip
    requires |data| >= ARP_LEN
  {
    IpAt(data, 24)
  }

  lemma ArpRead(op: word, smac: Mac, dmac: Mac, saddr: Ip, daddr: Ip, padding: seq<byte>)
    ensures var data := ArpBytes(op, smac, dmac, saddr, daddr) + padding;
            OpAt(data) == op && SenderMac(data) == smac && SenderIp(data) == saddr && TargetIp(data) == daddr
  {
    var data := ArpBytes(op, smac, dmac, saddr, daddr) + padding;
    assert data[6..8] == Be16(op) && data[8..14] == MacBytes(smac);
    assert data[14..18] == IpBytes(saddr) && data[24..28] == IpBytes(daddr);
    WordRead(op, data, 6);
    MacRead(smac, data, 8);
    IpRead(saddr, data, 14);
    IpRead(daddr, data, 24);
  }

  /**
    An ARP frame by position: the Ethernet header, then hardware type 1, protocol 0x0800, address
    sizes 6 and 4, the operation, the sender's pair and the target's pair (RFC 826).
   */
  ghost predicate ArpOnWire(frame: seq<byte>, eSmac: Mac, eDmac: Mac, op: word, smac: Mac, dmac: Mac,
                            saddr: Ip, daddr: Ip)
  {
    && |frame| == 60
    && Num(frame, 0, 6) == eDmac && Num(frame, 6, 6) == eSmac && Num(frame, 12, 2) == 0x0806
    && Num(frame, 14, 2) == 1 && Num(frame, 16, 2) == 0x0800 && frame[18] == 6 && frame[19] == 4
    && Num(frame, 20, 2) == op
    && Num(frame, 22, 6) == smac && Num(frame, 28, 4) == saddr
    && Num(frame, 32, 6) == dmac && Num(frame, 38, 4) == daddr
    && forall k :: 42 <= k < 60 ==> frame[k] == 0
  }

  /** The 28 bytes of the packet. */
  lemma PacketBytes(op: word, smac: Mac, dmac: Mac, saddr: Ip, daddr: Ip)
    ensures var b := ArpBytes(op, smac, dmac, saddr, daddr);
            && Num(b, 0, 2) == 1 && Num(b, 2, 2) == 0x0800 && b[4] == 6 && b[5] == 4 && Num(b, 6, 2) == op
            && Num(b, 8, 6) == smac && Num(b, 14, 4) == saddr && Num(b, 18, 6) == dmac && Num(b, 24, 4) == daddr
  {
    var b := ArpBytes(op, smac, dmac, saddr, daddr);
    assert b[18..24] == MacBytes(dmac) && b[0..2] == Be16(1) && b[2..4] == Be16(ETHERTYPE_IP);
    ArpRead(op, smac, dmac, saddr, daddr, []);
    assert b + [] == b;
    MacRead(dmac, b, 18);
    WordRead(1, b, 0);
    WordRead(ETHERTYPE_IP, b, 2);
    ByPosition(b);
    NumWord(b, 0);
    NumWord(b, 2);
    NumMac(b, 18);
  }

  /** The fields read, by position. */
  lemma ByPosition(data: seq<byte>)
    requires |data| >= ARP_LEN
    ensures Num(data, 6, 2) == OpAt(data) && Num(data, 24, 4) == TargetIp(data)
    ensures Num(data, 8, 6) == SenderMac(data) && Num(data, 14, 4) == SenderIp(data)
  {
    NumWord(data, 6);
    NumMac(data, 8);
    NumIp(data, 14);
    NumIp(data, 24);
  }

  lemma ArpFrameBytes(eSmac: Mac, eDmac: Mac, op: word, smac: Mac, dmac: Mac, saddr: Ip, daddr: Ip)
    ensures ArpOnWire(Frame(eSmac, eDmac, ETHERTYPE_ARP, ArpBytes(op, smac, dmac, saddr, daddr)),
                      eSmac, eDmac, op, smac, dmac, saddr, daddr)
  {
    var b := ArpBytes(op, smac, dmac, saddr, daddr);
    var frame := Frame(eSmac, eDmac, ETHERTYPE_ARP, b);
    FrameBytes(eSmac, eDmac, ETHERTYPE_ARP, b);
    PacketBytes(op, smac, dmac, saddr, daddr);
    assert frame[14..14 + |b|] == b;
    assert frame[18] == frame[14..14 + |b|][4] && frame[19] == frame[14..14 + |b|][5];
    NumShift(frame, 14, b, 0, 2);
    NumShift(frame, 14, b, 2, 2);
    NumShift(frame, 14, b, 6, 2);
    NumShift(frame, 14, b, 8, 6);
    NumShift(frame, 14, b, 14, 4);
    NumShift(frame, 14, b, 18, 6);
    NumShift(frame, 14, b, 24, 4);
  }

  method ArpSend(op: word, eSmac: Mac, eDmac: Mac, smac: Mac, dmac: Mac, saddr: Ip, daddr: Ip)
    returns (frame: seq<byte>)
    ensures frame == Frame(eSmac, eDmac, ETHERTYPE_ARP, ArpBytes(op, smac, dmac, saddr, daddr))
    ensures ArpOnWire(frame, eSmac, eDmac, op, smac, dmac, saddr, daddr)
  {
    ArpFrameBytes(eSmac, eDmac, op, smac, dmac, saddr, daddr);
    var ret, sent := EtherSend(eSmac, eDmac, ETHERTYPE_ARP, ArpBytes(op, smac, dmac, saddr, daddr));
    frame := sent.value;
  }

  /** A request for target; a gratuitous one leaves its own address open. */
  function RequestFrame(p: Param, target: Ip, gratuitous: bool): seq<byte> {
    Frame(p.vmac, BCAST_MAC, ETHERTYPE_ARP,
          ArpBytes(ARPOP_REQUEST, p.vmac, ZERO_MAC, if gratuitous then ANY_IP else p.vip, target))
  }

  /** ArpSendRequest and ArpSendRequestGratuitous. */
  method ArpSendRequest(p: Param, target: Ip, gratuitous: bool) returns (frame: seq<byte>)
    ensures frame == RequestFrame(p, target, gratuitous)
  {
    frame := ArpSend(ARPOP_REQUEST, p.vmac, BCAST_MAC, p.vmac, ZERO_MAC, if gratuitous then ANY_IP else p.vip, target);
  }

  // ---------------------------------------------------------------------
  // Reception
  // ---------------------------------------------------------------------

  /** The packets whose sender is learned: requests for this host, replies to it or to 0.0.0.0. */
  predicate Accepts(p: Param, data: seq<byte>)
    requires |data| >= ARP_LEN
  {
    || (OpAt(data) == ARPOP_REQUEST && TargetIp(data) == p.vip)
    || (OpAt(data) == ARPOP_REPLY && (TargetIp(data) == ANY_IP || TargetIp(data) == p.vip))
  }

  function ReplyFrame(p: Param, shost: Mac, data: seq<byte>): seq<byte>
    requires |data| >= ARP_LEN
  {
    Frame(p.vmac, shost, ETHERTYPE_ARP,
          ArpBytes(ARPOP_REPLY, p.vmac, SenderMac(data), TargetIp(data), SenderIp(data)))
  }

  /** By position: a request for this host, or a reply to it or to 0.0.0.0. */
  ghost predicate Concerns(p: Param, data: seq<byte>)
    requires |data| >= 28
  {
    || (Num(data, 6, 2) == 1 && Num(data, 24, 4) == p.vip)
    || (Num(data, 6, 2) == 2 && (Num(data, 24, 4) == 0 || Num(data, 24, 4) == p.vip))
  }

  /** Sender pairs that are not learned, and answers that are not given, on any other packet. */
  ghost predicate AnsweredOnWire(p: Param, shost: Mac, data: seq<byte>, sent: seq<seq<byte>>)
    requires |data| >= 28
  {
    if Num(data, 6, 2) == 1 && Num(data, 24, 4) == p.vip then
      && |sent| == 1 && Num(data, 8, 6) < 0x1_0000_0000_0000 && Num(data, 14, 4) < 0x1_0000_0000
      && ArpOnWire(sent[0], p.vmac, shost, 2, p.vmac, Num(data, 8, 6), p.vip, Num(data, 14, 4))
    else sent == []
  }

  method ArpRecv(cache: ArpCache, p: Param, shost: Mac, data: seq<byte>, now: int) returns (sent: seq<seq<byte>>)
    requires cache.Valid() && |data| >= ARP_LEN
    requires Accepts(p, data) ==> Place(cache.entries[..], cache.oldestInit, SenderIp(data)) != -1
    modifies cache.entries
    ensures cache.Valid()
    ensures cache.entries[..] ==
            if Accepts(p, data)
            then ArpHistory.Apply(old(cache.entries[..]), cache.oldestInit,
                                  ArpHistory.Learn(SenderMac(data), SenderIp(data), now))
            else old(cache.entries[..])
    ensures sent == if OpAt(data) == ARPOP_REQUEST && TargetIp(data) == p.vip then [ReplyFrame(p, shost, data)] else []
    ensures AnsweredOnWire(p, shost, data, sent)
    ensures if Concerns(p, data) then
              && Num(data, 8, 6) < 0x1_0000_0000_0000 && Num(data, 14, 4) < 0x1_0000_0000
              && Place(old(cache.entries[..]), cache.oldestInit, Num(data, 14, 4)) != -1
              && cache.entries[..] ==
                 AddTo(old(cache.entries[..]), cache.oldestInit, Num(data, 8, 6), Num(data, 14, 4), now)
            else cache.entries[..] == old(cache.entries[..])
  {
    ByPosition(data);
    sent := [];
    if OpAt(data) == ARPOP_REQUEST {
      if TargetIp(data) == p.vip {
        var _ := cache.Add(SenderMac(data), SenderIp(data), now);
        var frame := ArpSend(ARPOP_REPLY, p.vmac, shost, p.vmac, SenderMac(data), TargetIp(data), SenderIp(data));
        sent := [frame];
      }
    }
    if OpAt(data) == ARPOP_REPLY {
      if TargetIp(data) == ANY_IP || TargetIp(data) == p.vip {
        var _ := cache.Add(SenderMac(data), SenderIp(data), now);
      }
    }
  }

  /** A packet as it arrives: padded to the minimum frame. */
  function Padded(packet: seq<byte>): seq<byte> {
    packet + Zeros(Padding(|packet|))
  }

  function RequestData(asker: Param, target: Ip, gratuitous: bool): (r: seq<byte>)
    ensures |r| >= ARP_LEN
  {
    Padded(ArpBytes(ARPOP_REQUEST, asker.vmac, ZERO_MAC, if gratuitous then ANY_IP else asker.vip, target))
  }

  function ReplyData(asked: Param, asker: Param, gratuitous: bool): (r: seq<byte>)
    ensures |r| >= ARP_LEN
  {
    Padded(ArpBytes(ARPOP_REPLY, asked.vmac, asker.vmac, asked.vip, if gratuitous then ANY_IP else asker.vip))
  }

  /**
    The exchange of RFC 826: the request of one host reaches the host asked for, carries the
    asker's pair (0.0.0.0 for a gratuitous request) and is accepted; the answer reaches the asker
    alone, is accepted and carries the pair asked for.
   */
  lemma Exchange(asker: Param, asked: Param, gratuitous: bool)
    requires asker.vmac != asked.vmac && asker.vmac != BCAST_MAC
    ensures var request, reply := RequestData(asker, asked.vip, gratuitous), ReplyData(asked, asker, gratuitous);
            var answer := ReplyFrame(asked, asker.vmac, request);
            && Dispatch(asked.vmac, RequestFrame(asker, asked.vip, gratuitous)) == ToArp(asker.vmac, request)
            && OpAt(request) == ARPOP_REQUEST && TargetIp(request) == asked.vip && Accepts(asked, request)
            && SenderMac(request) == asker.vmac && SenderIp(request) == (if gratuitous then ANY_IP else asker.vip)
            && Dispatch(asker.vmac, answer) == ToArp(asked.vmac, reply)
            && (forall other: Mac :: other != asker.vmac ==> Dispatch(other, answer) == NotForUs)
            && OpAt(reply) == ARPOP_REPLY && Accepts(asker, reply)
            && SenderMac(reply) == asked.vmac && SenderIp(reply) == asked.vip
  {
    var saddr := if gratuitous then ANY_IP else asker.vip;
    var q := ArpBytes(ARPOP_REQUEST, asker.vmac, ZERO_MAC, saddr, asked.vip);
    FrameReceived(asker.vmac, BCAST_MAC, ETHERTYPE_ARP, q, asked.vmac);
    ArpRead(ARPOP_REQUEST, asker.vmac, ZERO_MAC, saddr, asked.vip, Zeros(Padding(ARP_LEN)));
    var a := ArpBytes(ARPOP_REPLY, asked.vmac, asker.vmac, asked.vip, saddr);
    assert ReplyFrame(asked, asker.vmac, Padded(q)) == Frame(asked.vmac, asker.vmac, ETHERTYPE_ARP, a);
    forall other: Mac
      ensures Dispatch(other, Frame(asked.vmac, asker.vmac, ETHERTYPE_ARP, a)) ==
              if other == asker.vmac then ToArp(asked.vmac, Padded(a)) else NotForUs
    {
      FrameReceived(asked.vmac, asker.vmac, ETHERTYPE_ARP, a, other);
    }
    ArpRead(ARPOP_REPLY, asked.vmac, asker.vmac, asked.vip, saddr, Zeros(Padding(ARP_LEN)));
  }

  /**
    A request for another host, a reply to another host and a packet of any other operation are
    not accepted, whoever sends them.
   */
  lemma Overheard(p: Param, op: word, smac: Mac, dmac: Mac, saddr: Ip, daddr: Ip, padding: seq<byte>)
    ensures var data := ArpBytes(op, smac, dmac, saddr, daddr) + padding;
            && (op == 1 && daddr != p.vip ==> !Accepts(p, data) && !Concerns(p, data))
            && (op == 2 && daddr != 0 && daddr != p.vip ==> !Accepts(p, data) && !Concerns(p, data))
            && (op != 1 && op != 2 ==> !Accepts(p, data) && !Concerns(p, data))
  {
    ArpRead(op, smac, dmac, saddr, daddr, padding);
    ByPosition(ArpBytes(op, smac, dmac, saddr, daddr) + padding);
  }

  /** After an exchange each cache answers for the other host, so the asker's next poll succeeds. */
  lemma ExchangeTeaches(asker: Param, asked: Param, tAsker: Table, tAsked: Table, init: int, now: int, now': int)
    requires asker.vmac != asked.vmac && asker.vmac != BCAST_MAC && asker.vmac != ZERO_MAC && asked.vmac != ZERO_MAC
    requires Unique(tAsker) && Unique(tAsked)
    requires Place(tAsked, init, asker.vip) != -1 && Place(tAsker, init, asked.vip) != -1
    ensures var request, reply := RequestData(asker, asked.vip, false), ReplyData(asked, asker, false);
            && SenderIp(request) == asker.vip && SenderIp(reply) == asked.vip
            && Lookup(AddTo(tAsked, init, SenderMac(request), SenderIp(request), now), asker.vip) == Some(asker.vmac)
            && Lookup(AddTo(tAsker, init, SenderMac(reply), SenderIp(reply), now'), asked.vip) == Some(asked.vmac)
  {
    Exchange(asker, asked, false);
    LookupAfterAdd(tAsked, init, asker.vmac, asker.vip, now, asker.vip);
    LookupAfterAdd(tAsker, init, asked.vmac, asked.vip, now', asked.vip);
  }

  // ---------------------------------------------------------------------
  // Resolution
  // ---------------------------------------------------------------------

  function Pow2(n: nat): (r: nat)
    ensures r > 0
  {
    if n == 0 then 1 else 2 * Pow2(n - 1)
  }

  /** The n lowest bits of the bitwise and of two numbers. */
  function AndBits(a: nat, b: nat, n: nat): (r: nat)
    ensures r < Pow2(n)
  {
    if n == 0 then 0 else AndBits(a / 2, b / 2, n - 1) * 2 + (if a % 2 == 1 && b % 2 == 1 then 1 else 0)
  }

  /** Bitwise and of two addresses. */
  function And(a: Ip, b: Ip): nat {
    AndBits(a, b, 32)
  }

  predicate IsSameSubnet(p: Param, addr: Ip) {
    And(addr, p.vmask) == And(p.vip, p.vmask)
  }

  function NextHop(p: Param, daddr: Ip): Ip {
    if IsSameSubnet(p, daddr) then daddr else p.gateway
  }

  /** Bit i of a number, the lowest being bit 0. */
  predicate Bit(a: nat, i: nat) {
    if i == 0 then a % 2 == 1 else Bit(a / 2, i - 1)
  }

  /** Two numbers agree in the n lowest bits of a mask. */
  ghost predicate Agree(a: nat, b: nat, mask: nat, n: nat) {
    forall i: nat :: i < n && Bit(mask, i) ==> (Bit(a, i) <==> Bit(b, i))
  }

  lemma AgreeInHalves(a: nat, b: nat, mask: nat, n: nat)
    requires n > 0
    ensures Agree(a, b, mask, n)
            <==> Agree(a / 2, b / 2, mask / 2, n - 1) && (mask % 2 == 1 ==> a % 2 == b % 2)
  {
    if Agree(a, b, mask, n) {
      assert Bit(mask, 0) ==> (Bit(a, 0) <==> Bit(b, 0));
      forall i: nat | i < n - 1 && Bit(mask / 2, i)
        ensures Bit(a / 2, i) <==> Bit(b / 2, i)
      {
        assert Bit(mask, i + 1) && (Bit(a, i + 1) <==> Bit(b, i + 1));
      }
    } else {
      var i: nat :| i < n && Bit(mask, i) && (Bit(a, i) <==> !Bit(b, i));
      assert i > 0 ==> Bit(mask / 2, i - 1) && (Bit(a / 2, i - 1) <==> !Bit(b / 2, i - 1));
    }
  }

  /** Two numbers agree under a mask exactly when they agree in every bit of the mask. */
  lemma {:induction false} SameUnderMaskIff(a: nat, b: nat, mask: nat, n: nat)
    ensures AndBits(a, mask, n) == AndBits(b, mask, n) <==> Agree(a, b, mask, n)
  {
    if n > 0 {
      SameUnderMaskIff(a / 2, b / 2, mask / 2, n - 1);
      AgreeInHalves(a, b, mask, n);
    }
  }

  lemma AtLeast(m: nat, k: int)
    requires k >= 1
    ensures m * k >= m
  {
  }

  lemma Quotient(m: nat, q: nat, s: nat)
    requires s < m
    ensures (m * q + s) / m == q
  {
    var a := m * q + s;
    var d, e := a / m, a % m;
    assert m * (d - q) == s - e;
    if d > q {
      AtLeast(m, d - q);
    } else if d < q {
      AtLeast(m, q - d);
    }
  }

  lemma HalfFirst(a: nat, m: nat, d: nat)
    requires m > 0 && d == 2 * m
    ensures a / d == a / 2 / m
  {
    var x := a / 2;
    var q, s := x / m, x % m;
    assert m * q + s == x;
    assert d * q == 2 * (m * q);
    assert a == d * q + (2 * s + a % 2);
    Quotient(d, q, 2 * s + a % 2);
  }

  lemma {:induction false} AllOnesKeep(a: nat, n: nat)
    requires a < Pow2(n)
    ensures AndBits(a, Pow2(n) - 1, n) == a
  {
    if n > 0 {
      AllOnesKeep(a / 2, n - 1);
      assert (Pow2(n) - 1) / 2 == Pow2(n - 1) - 1;
    }
  }

  /** Under a mask of n bits, the k lowest of them clear, numbers agree when they agree above bit k. */
  lemma {:induction false} SamePrefixIff(a: nat, b: nat, n: nat, k: nat)
    requires a < Pow2(n) && b < Pow2(n) && k <= n
    ensures Pow2(k) <= Pow2(n)
    ensures AndBits(a, Pow2(n) - Pow2(k), n) == AndBits(b, Pow2(n) - Pow2(k), n) <==> a / Pow2(k) == b / Pow2(k)
  {
    if k == 0 {
      AllOnesKeep(a, n);
      AllOnesKeep(b, n);
    } else {
      SamePrefixIff(a / 2, b / 2, n - 1, k - 1);
      HalfFirst(a, Pow2(k - 1), Pow2(k));
      HalfFirst(b, Pow2(k - 1), Pow2(k));
      assert (Pow2(n) - Pow2(k)) / 2 == Pow2(n - 1) - Pow2(k - 1);
    }
  }

  /** The netmask of a network with k bits for hosts. */
  function Netmask(k: nat): int
    requires k <= 32
  {
    0x1_0000_0000 - Pow2(k)
  }

  /**
    The host asked for, for any mask: the destination itself when it agrees with this host in every
    bit of the mask, else the gateway.
   */
  lemma NextHopByBits(p: Param, daddr: Ip)
    ensures NextHop(p, daddr) ==
            if Agree(daddr, p.vip, p.vmask, 32) then daddr else p.gateway
  {
    SameUnderMaskIff(daddr, p.vip, p.vmask, 32);
  }

  /** The same for the usual masks, of ones followed by k zeros: the network number decides. */
  lemma NextHopByNetwork(p: Param, daddr: Ip, k: nat)
    requires k <= 32 && p.vmask == Netmask(k)
    ensures NextHop(p, daddr) == if daddr / Pow2(k) == p.vip / Pow2(k) then daddr else p.gateway
  {
    AllAddresses();
    SamePrefixIff(daddr, p.vip, 32, k);
  }

  lemma AllAddresses()
    ensures Pow2(32) == 0x1_0000_0000
  {
    assert Pow2(8) == 0x100;
    assert Pow2(16) == 0x1_0000;
    assert Pow2(24) == 0x100_0000;
  }

  /** DummyWait: any other thread may leave anything in the table. */
  method DummyWait(cache: ArpCache, others: Table)
    requires cache.Valid() && |others| == ARP_TABLE_NO
    modifies cache.entries
    ensures cache.Valid() && cache.entries[..] == others
  {
    forall i | 0 <= i < cache.entries.Length {
      cache.entries[i] := others[i];
    }
  }

  /** The contents of the table at the k-th poll: as found, then as left by others during each wait. */
  ghost function AtPoll(before: Table, others: seq<Table>, k: nat): Table
    requires k <= |others|
  {
    if k == 0 then before else others[k - 1]
  }

  /** The k-th poll finds addr. */
  ghost predicate Sees(before: Table, others: seq<Table>, k: nat, addr: Ip)
    requires k <= |others|
  {
    Lookup(AtPoll(before, others, k), addr) != None
  }

  ghost predicate SomePollSees(before: Table, others: seq<Table>, addr: Ip)
    requires |others| == RETRY_COUNT + 1
  {
    exists k :: 0 <= k <= RETRY_COUNT && Sees(before, others, k, addr)
  }

  /**
    Every frame sent asks for hop, with this host's pair unless gratuitous, and a mac returned is
    the one hop has in the table at the successful poll.
   */
  ghost predicate ResolvesHop(p: Param, hop: Ip, gratuitous: bool, before: Table, others: seq<Table>,
                              ret: int, dmac: Mac, sent: seq<seq<byte>>)
  {
    && |others| == RETRY_COUNT + 1 && |sent| <= |others| && (ret == 1 || |sent| == 4)
    && (forall k :: 0 <= k < |sent| ==>
          && ArpOnWire(sent[k], p.vmac, 0xFFFF_FFFF_FFFF, 1, p.vmac, 0, if gratuitous then 0 else p.vip, hop)
          && !Sees(before, others, k, hop))
    && (ret == 1 <==> SomePollSees(before, others, hop))
    && (ret == 1 ==> Lookup(AtPoll(before, others, |sent|), hop) == Some(dmac))
  }

  /**
    GetTargetMac against any interference. It polls at most RETRY_COUNT + 1 times and sends one
    request after each poll that fails; it succeeds exactly when one of those polls sees the next
    hop, and then with the mac live at the first such poll. What arrives during the last wait is
    not looked at.
   */
  method GetTargetMac(cache: ArpCache, p: Param, daddr: Ip, dmac: Mac, gratuitous: bool, others: seq<Table>)
    returns (ret: int, dmac': Mac, sent: seq<seq<byte>>)
    requires cache.Valid() && |others| == RETRY_COUNT + 1
    requires forall k :: 0 <= k < |others| ==> |others[k]| == ARP_TABLE_NO
    modifies cache.entries
    ensures cache.Valid() && |sent| <= RETRY_COUNT + 1
    ensures forall k :: 0 <= k < |sent| ==>
              sent[k] == RequestFrame(p, NextHop(p, daddr), gratuitous) &&
              !Sees(old(cache.entries[..]), others, k, NextHop(p, daddr))
    ensures ret == 1 <==> SomePollSees(old(cache.entries[..]), others, NextHop(p, daddr))
    ensures ret == 1 ==> |sent| <= RETRY_COUNT &&
                         Lookup(AtPoll(old(cache.entries[..]), others, |sent|), NextHop(p, daddr)) == Some(dmac')
    ensures ret != 1 ==> ret == 0 && dmac' == dmac && |sent| == RETRY_COUNT + 1
    ensures ResolvesHop(p, if Agree(daddr, p.vip, p.vmask, 32) then daddr else p.gateway, gratuitous,
                        old(cache.entries[..]), others, ret, dmac', sent)
    ensures forall k: nat :: k <= 32 && p.vmask == Netmask(k) ==>
              ResolvesHop(p, if daddr / Pow2(k) == p.vip / Pow2(k) then daddr else p.gateway, gratuitous,
                          old(cache.entries[..]), others, ret, dmac', sent)
  {
    var addr := if IsSameSubnet(p, daddr) then daddr else p.gateway;
    ghost var before := cache.entries[..];
    ret, dmac', sent := Poll(cache, p, addr, dmac, gratuitous, others);
    RequestsBytes(p, addr, gratuitous, sent);
    assert ResolvesHop(p, addr, gratuitous, before, others, ret, dmac', sent);
    NextHopByBits(p, daddr);
    forall k: nat | k <= 32 && p.vmask == Netmask(k)
      ensures NextHop(p, daddr) == if daddr / Pow2(k) == p.vip / Pow2(k) then daddr else p.gateway
    {
      NextHopByNetwork(p, daddr, k);
    }
  }

  lemma RequestsBytes(p: Param, hop: Ip, gratuitous: bool, sent: seq<seq<byte>>)
    requires forall k :: 0 <= k < |sent| ==> sent[k] == RequestFrame(p, hop, gratuitous)
    ensures forall k :: 0 <= k < |sent| ==>
              ArpOnWire(sent[k], p.vmac, 0xFFFF_FFFF_FFFF, 1, p.vmac, 0, if gratuitous then 0 else p.vip, hop)
  {
    ArpFrameBytes(p.vmac, BCAST_MAC, ARPOP_REQUEST, p.vmac, ZERO_MAC, if gratuitous then ANY_IP else p.vip, hop);
  }

  /** The retry loop of GetTargetMac. */
  method Poll(cache: ArpCache, p: Param, addr: Ip, dmac: Mac, gratuitous: bool, others: seq<Table>)
    returns (ret: int, dmac': Mac, sent: seq<seq<byte>>)
    requires cache.Valid() && |others| == RETRY_COUNT + 1
    requires forall k :: 0 <= k < |others| ==> |others[k]| == ARP_TABLE_NO
    modifies cache.entries
    ensures cache.Valid() && |sent| <= RETRY_COUNT + 1
    ensures forall k :: 0 <= k < |sent| ==>
              sent[k] == RequestFrame(p, addr, gratuitous) && !Sees(old(cache.entries[..]), others, k, addr)
    ensures ret == 1 <==> SomePollSees(old(cache.entries[..]), others, addr)
    ensures ret == 1 ==> |sent| <= RETRY_COUNT &&
                         Lookup(AtPoll(old(cache.entries[..]), others, |sent|), addr) == Some(dmac')
    ensures ret != 1 ==> ret == 0 && dmac' == dmac && |sent| == RETRY_COUNT + 1
  {
    ghost var before := cache.entries[..];
    var count := 0;
    sent := [];
    var found;
    found, dmac' := cache.Search(addr, dmac);
    while found == 0
      invariant cache.Valid() && 0 <= count <= RETRY_COUNT && |sent| == count
      invariant found == if Sees(before, others, count, addr) then 1 else 0
      invariant if found == 0 then dmac' == dmac else Lookup(AtPoll(before, others, count), addr) == Some(dmac')
      invariant forall k :: 0 <= k < count ==>
                  sent[k] == RequestFrame(p, addr, gratuitous) && !Sees(before, others, k, addr)
      decreases RETRY_COUNT - count, 1 - found
    {
      var frame := ArpSendRequest(p, addr, gratuitous);
      sent := sent + [frame];
      DummyWait(cache, others[count]);
      count := count + 1;
      if count > RETRY_COUNT {
        return 0, dmac, sent;
      }
      assert cache.entries[..] == AtPoll(before, others, count);
      found, dmac' := cache.Search(addr, dmac);
    }
    ret := 1;
  }
}
