/** The layers together: resolution and sending, UDP and ICMP messages across the wire. */
module EndToEnd {
  import opened Bytes
  import opened Ether
  import opened IpPacket
  import opened IpTable
  import opened IpTransport
  import opened Fragments
  import opened IpRoundTrip
  import opened Wire
  import ArpTable
  import Arp
  import UdpPorts
  import Udp
  import Icmp

  /**
    IpSend: resolve the next hop, then send to its mac, as live at the poll that found it. When
    no poll finds one, no packet leaves and -1 is returned.
   */
  method IpSend(cache: ArpTable.ArpCache, p: Arp.Param, mtu: nat, reading: MfField, env: Envelope, df: bool,
                data: seq<byte>, others: seq<ArpTable.Table>)
    returns (ret: int, requests: seq<seq<byte>>, wire: seq<seq<byte>>)
    requires cache.Valid() && |others| == Arp.RETRY_COUNT + 1
    requires forall k :: 0 <= k < |others| ==> |others[k]| == ArpTable.ARP_TABLE_NO
    requires IP_HDR_LEN <= mtu <= ETHERMTU && (df || Sendable(mtu, |data|))
    modifies cache.entries
    ensures cache.Valid() && |requests| <= Arp.RETRY_COUNT + 1
    ensures var hop := if Arp.Agree(env.dst, p.vip, p.vmask, 32) then env.dst else p.gateway;
            && hop == Arp.NextHop(p, env.dst)
            && forall k :: 0 <= k < |requests| ==>
                 Arp.ArpOnWire(requests[k], p.vmac, 0xFFFF_FFFF_FFFF, 1, p.vmac, 0, p.vip, hop)
    ensures !Arp.SomePollSees(old(cache.entries[..]), others, Arp.NextHop(p, env.dst)) ==> ret == -1 && wire == []
    ensures Arp.SomePollSees(old(cache.entries[..]), others, Arp.NextHop(p, env.dst)) ==>
              var seen := Arp.AtPoll(old(cache.entries[..]), others, |requests|);
              var live := ArpTable.Lookup(seen, Arp.NextHop(p, env.dst));
              && live.Some?
              && var job := Job(reading, p.vmac, live.value, env, df, data);
                 if df && |data| > mtu - IP_HDR_LEN then ret == -1 && wire == []
                 else && ret == 0 && Sendable(mtu, |data|) && AllWithin(job, Spans(mtu, job))
                      && wire == Frames(job, Spans(mtu, job))
  {
    Arp.NextHopByBits(p, env.dst);
    var found, dmac;
    found, dmac, requests := Arp.GetTargetMac(cache, p, env.dst, ZERO_MAC, false, others);
    if found == 1 {
      ret, wire := IpSendLink(mtu, Job(reading, p.vmac, dmac, env, df, data));
    } else {
      ret, wire := -1, [];
    }
  }

  /** The source's demand on its caller: a packet in the frame is really there. */
  predicate WholePacket(vmac: Mac, frame: seq<byte>)
    requires |frame| >= ETHER_HDR_LEN
  {
    Readable(vmac, frame) &&
    match Dispatch(vmac, frame)
    case ToArp(_, data) => |data| >= Arp.ARP_LEN
    case _ => true
  }

  /** What a frame does to the ARP table: at most one pair learned. */
  function CacheAfter(t: ArpTable.Table, init: int, p: Arp.Param, frame: seq<byte>, now: int): ArpTable.Table
    requires |frame| >= ETHER_HDR_LEN && WholePacket(p.vmac, frame)
    requires Learns(p, frame).Some? ==> ArpTable.Place(t, init, Learns(p, frame).value.1) != -1
  {
    match Learns(p, frame)
    case None => t
    case Some(pair) => ArpTable.AddTo(t, init, pair.0, pair.1, now)
  }

  function Learns(p: Arp.Param, frame: seq<byte>): Option<(Mac, Ip)>
    requires |frame| >= ETHER_HDR_LEN && WholePacket(p.vmac, frame)
  {
    match Dispatch(p.vmac, frame)
    case ToArp(_, data) => if Arp.Accepts(p, data) then Some((Arp.SenderMac(data), Arp.SenderIp(data))) else None
    case _ => None
  }

  /**
    What is learned, by position in the frame: the sender's pair of an ARP request for this host, or
    of a reply to it or to 0.0.0.0, in a frame for this host or for all; nothing else whatsoever.
   */
  lemma LearnsByPosition(p: Arp.Param, frame: seq<byte>)
    requires |frame| >= 14 && WholePacket(p.vmac, frame)
    ensures var forUs := Num(frame, 0, 6) == p.vmac || Num(frame, 0, 6) == 0xFFFF_FFFF_FFFF;
            if forUs && Num(frame, 12, 2) == 0x0806 && |frame| >= 42
               && ((Num(frame, 20, 2) == 1 && Num(frame, 38, 4) == p.vip)
                   || (Num(frame, 20, 2) == 2 && (Num(frame, 38, 4) == 0 || Num(frame, 38, 4) == p.vip)))
            then
              && Learns(p, frame).Some?
              && Learns(p, frame).value.0 == Num(frame, 22, 6) && Learns(p, frame).value.1 == Num(frame, 28, 4)
            else Learns(p, frame) == None
  {
    DispatchByPosition(p.vmac, frame);
    if |frame| >= 42 {
      Arp.ByPosition(frame[14..]);
      ArpFields(frame);
    }
  }

  lemma ArpFields(frame: seq<byte>)
    requires |frame| >= 42
    ensures var data := frame[14..];
            && Num(frame, 20, 2) == Num(data, 6, 2) && Num(frame, 22, 6) == Num(data, 8, 6)
            && Num(frame, 28, 4) == Num(data, 14, 4) && Num(frame, 38, 4) == Num(data, 24, 4)
  {
    var data := frame[14..];
    NumShift(frame, 14, data, 6, 2);
    NumShift(frame, 14, data, 8, 6);
    NumShift(frame, 14, data, 14, 4);
    NumShift(frame, 14, data, 24, 4);
  }

  /**
    EtherRecv over the real tables. A frame for another host changes nothing; an ARP frame touches
    only the ARP table; an IP frame touches only the reassembly table, and only if it is received.
   */
  method EtherRecv(cache: ArpTable.ArpCache, buffers: IpRecvTable, p: Arp.Param, frame: seq<byte>, now: int)
    returns (ret: int, answers: seq<seq<byte>>, up: Option<Delivery>)
    requires cache.Valid() && buffers.Valid()
    requires |frame| >= ETHER_HDR_LEN && WholePacket(p.vmac, frame)
    requires Learns(p, frame).Some? ==>
               ArpTable.Place(cache.entries[..], cache.oldestInit, Learns(p, frame).value.1) != -1
    requires Received(p.vmac, frame).Some? ==>
               && Received(p.vmac, frame).value.off + |Received(p.vmac, frame).value.body| <= BUF_SIZE
               && Place(buffers.slots[..], buffers.oldestInit, Received(p.vmac, frame).value.id) != -1
    modifies cache.entries, buffers.slots
    ensures cache.Valid() && buffers.Valid()
    ensures ret == if Dispatch(p.vmac, frame) == NotForUs then -1 else 0
    ensures cache.entries[..] == CacheAfter(old(cache.entries[..]), cache.oldestInit, p, frame, now)
    ensures (buffers.slots[..], up) == match Received(p.vmac, frame) {
              case None => (old(buffers.slots[..]), None)
              case Some(piece) => Receive(old(buffers.slots[..]), buffers.oldestInit, piece, now)
            }
    ensures answers == match Dispatch(p.vmac, frame) {
              case ToArp(shost, data) =>
                if Arp.OpAt(data) == Arp.ARPOP_REQUEST && Arp.TargetIp(data) == p.vip
                then [Arp.ReplyFrame(p, shost, data)] else []
              case _ => []
            }
  {
    ret, answers, up := 0, [], None;
    ghost var entries, slots := cache.entries[..], buffers.slots[..];
    if MacAt(frame, 0) != BCAST_MAC && MacAt(frame, 0) != p.vmac {
      return -1, [], None;
    }
    var data := frame[ETHER_HDR_LEN..];
    if WordAt(frame, 12) == ETHERTYPE_ARP {
      answers := Arp.ArpRecv(cache, p, MacAt(frame, 6), data, now);
      assert buffers.slots[..] == slots;
    } else if WordAt(frame, 12) == ETHERTYPE_IP {
      var accepted;
      accepted, up := buffers.IpRecv(data, now);
      assert cache.entries[..] == entries;
    }
  }

  /** What UdpRecv makes of a datagram of the given ports and payload. */
  function UdpOutcome(ports: UdpPorts.Ports, sport: word, dport: word, payload: seq<byte>): Udp.Outcome {
    if dport == UdpPorts.DHCP_CLIENT_PORT then Udp.ToDhcp(payload)
    else if UdpPorts.SearchIn(ports, dport) != -1 then Udp.ToPort(sport, dport, payload)
    else Udp.PortUnreachable
  }

  /** A delivery that UdpRecv accepts with this outcome, whatever the buffer holds behind the data. */
  ghost predicate UdpAccepts(up: Option<Delivery>, src: Ip, dst: Ip, ports: UdpPorts.Ports, outcome: Udp.Outcome) {
    && up.Some? && |up.value.data| >= Udp.UDP_HDR_LEN
    && up.value.proto == IPPROTO_UDP && up.value.src == src && up.value.dst == dst
    && forall after: seq<byte> ::
         Udp.Accept(ports, up.value.src, up.value.dst, up.value.proto, up.value.data, after) == outcome
  }

  lemma DatagramAccepts(src: Ip, dst: Ip, sport: word, dport: word, payload: seq<byte>, ports: UdpPorts.Ports)
    ensures UdpAccepts(Upper(IPPROTO_UDP, src, dst, Udp.UdpDatagram(src, dst, sport, dport, payload)),
                       src, dst, ports, UdpOutcome(ports, sport, dport, payload))
  {
    var data := Udp.UdpDatagram(src, dst, sport, dport, payload);
    forall after: seq<byte>
      ensures Udp.Accept(ports, src, dst, IPPROTO_UDP, data, after) == UdpOutcome(ports, sport, dport, payload)
    {
      Udp.DatagramAccepted(ports, src, dst, sport, dport, payload, after);
    }
  }

  /**
    UDP end to end: the frames that UdpSendLink puts on the wire for any ports and any payload the
    buffers can hold, read by the receiving host in any order with repeats and the last fragment
    last, make it hand up one datagram, which UdpRecv accepts with the same ports and payload.
   */
  lemma UdpEndToEnd(mtu: nat, smac: Mac, dmac: Mac, id: word, ttl: byte, src: Ip, dst: Ip, sport: word, dport: word,
                    df: bool, payload: seq<byte>, ports: UdpPorts.Ports, vmac: Mac,
                    t: seq<Slot>, init: int, order: seq<nat>, nows: seq<int>)
    requires var job := Udp.UdpJob(WithOffset, smac, dmac, id, ttl, src, dst, sport, dport, df, payload);
             Delivered(mtu, job, vmac, t, init, order, nows)
    ensures var job := Udp.UdpJob(WithOffset, smac, dmac, id, ttl, src, dst, sport, dport, df, payload);
            && AllWithin(job, Spans(mtu, job))
            && var frames := Shuffled(Frames(job, Spans(mtu, job)), order, nows);
               && Feedable(t, init, vmac, frames)
               && var ups := Feed(t, init, vmac, frames).1;
                  && (forall i :: 0 <= i < |order| - 1 ==> ups[i] == None)
                  && UdpAccepts(ups[|order| - 1], src, dst, ports, UdpOutcome(ports, sport, dport, payload))
  {
    var job := Udp.UdpJob(WithOffset, smac, dmac, id, ttl, src, dst, sport, dport, df, payload);
    FramesDeliver(mtu, job, vmac, t, init, order, nows);
    DatagramAccepts(src, dst, sport, dport, payload, ports);
  }

  /**
    UDP among any other traffic: wherever the last piece of a UDP datagram arrives in a stretch of
    frames in which it has otherwise arrived, it is accepted with its ports and payload.
   */
  lemma UdpAmongTraffic(t: seq<Slot>, init: int, open: Open, vmac: Mac,
                        frames: seq<Arriving>, signs: seq<Option<Event>>,
                        i: nat, src: Ip, dst: Ip, sport: word, dport: word, payload: seq<byte>, ports: UdpPorts.Ports)
    requires Tracks(t, open) && OrderlyTraffic(t, init, open, vmac, frames, signs)
    requires i < |frames| && signs[i].Some? && signs[i].value.Fragment? && signs[i].value.Last()
    requires var dg := signs[i].value.dg;
             && dg.proto == IPPROTO_UDP && dg.src == src && dg.dst == dst
             && dg.payload == Udp.UdpDatagram(src, dst, sport, dport, payload)
    ensures Feedable(t, init, vmac, frames)
    ensures UdpAccepts(Feed(t, init, vmac, frames).1[i], src, dst, ports, UdpOutcome(ports, sport, dport, payload))
  {
    TrafficDelivers(t, init, open, vmac, frames, signs);
    DatagramAccepts(src, dst, sport, dport, payload, ports);
  }

  /** An echo message sent from one host to another. */
  function EchoJob(kind: byte, smac: Mac, dmac: Mac, id: word, ttl: byte, src: Ip, dst: Ip,
                   idSeq: seq<byte>, payload: seq<byte>): (job: Job)
    requires |idSeq| == 4
    ensures job.smac == smac && job.dmac == dmac && !job.df && job.reading == WithOffset
    ensures job.env == Envelope(id, ttl, 1, src, dst)
    ensures Icmp.EchoOnWire(job.data, kind, idSeq, payload)
  {
    Icmp.EchoOnWireBytes(kind, idSeq, payload);
    Job(WithOffset, smac, dmac, Envelope(id, ttl, IPPROTO_ICMP, src, dst), false, Icmp.EchoBytes(kind, idSeq, payload))
  }

  /** A delivery that IcmpRecv of host vip takes with this outcome, whatever the buffer holds behind the data. */
  ghost predicate IcmpAccepts(up: Option<Delivery>, vip: Ip, outcome: Icmp.Outcome) {
    && up.Some? && |up.value.data| >= Icmp.ECHO_HDR_SIZE && up.value.proto == IPPROTO_ICMP
    && forall after: seq<byte> :: Icmp.Accept(vip, up.value.src, up.value.dst, up.value.data, after) == outcome
  }

  lemma EchoAccepts(asker: Ip, asked: Ip, idSeq: seq<byte>, payload: seq<byte>)
    requires |idSeq| == 4
    ensures IcmpAccepts(Upper(IPPROTO_ICMP, asker, asked, Icmp.EchoBytes(Icmp.ICMP_ECHO, idSeq, payload)), asked,
                        Icmp.SendReply(asked, asker, Icmp.EchoBytes(Icmp.ICMP_ECHOREPLY, idSeq, payload)))
    ensures IcmpAccepts(Upper(IPPROTO_ICMP, asked, asker, Icmp.EchoBytes(Icmp.ICMP_ECHOREPLY, idSeq, payload)), asker,
                        Icmp.CheckReply(idSeq))
  {
    var request := Icmp.EchoBytes(Icmp.ICMP_ECHO, idSeq, payload);
    var reply := Icmp.EchoBytes(Icmp.ICMP_ECHOREPLY, idSeq, payload);
    forall after: seq<byte>
      ensures Icmp.Accept(asked, asker, asked, request, after) == Icmp.SendReply(asked, asker, reply)
      ensures Icmp.Accept(asker, asked, asker, reply, after) == Icmp.CheckReply(idSeq)
    {
      Icmp.EchoMirrored(asker, asked, idSeq, payload, after, after);
    }
  }

  /**
    Ping end to end: the frames of a request of any size make the host it names send the reply with
    the same identifier, sequence number and payload, and the frames of that reply make the asker
    recognise its own identifier and sequence number.
   */
  lemma PingEndToEnd(mtu: nat, a: Mac, b: Mac, ipA: Ip, ipB: Ip, id: word, id': word, ttl: byte,
                     idSeq: seq<byte>, payload: seq<byte>, tB: seq<Slot>, tA: seq<Slot>, init: int,
                     order: seq<nat>, nows: seq<int>, order': seq<nat>, nows': seq<int>)
    requires |idSeq| == 4
    requires Delivered(mtu, EchoJob(Icmp.ICMP_ECHO, a, b, id, ttl, ipA, ipB, idSeq, payload), b, tB, init, order, nows)
    requires Delivered(mtu, EchoJob(Icmp.ICMP_ECHOREPLY, b, a, id', ttl, ipB, ipA, idSeq, payload),
                       a, tA, init, order', nows')
    ensures var request := EchoJob(Icmp.ICMP_ECHO, a, b, id, ttl, ipA, ipB, idSeq, payload);
            var reply := EchoJob(Icmp.ICMP_ECHOREPLY, b, a, id', ttl, ipB, ipA, idSeq, payload);
            && AllWithin(request, Spans(mtu, request)) && AllWithin(reply, Spans(mtu, reply))
            && var frames := Shuffled(Frames(request, Spans(mtu, request)), order, nows);
               var frames' := Shuffled(Frames(reply, Spans(mtu, reply)), order', nows');
               && Feedable(tB, init, b, frames) && Feedable(tA, init, a, frames')
               && IcmpAccepts(Feed(tB, init, b, frames).1[|order| - 1], ipB, Icmp.SendReply(ipB, ipA, reply.data))
               && IcmpAccepts(Feed(tA, init, a, frames').1[|order'| - 1], ipA, Icmp.CheckReply(idSeq))
  {
    var request := EchoJob(Icmp.ICMP_ECHO, a, b, id, ttl, ipA, ipB, idSeq, payload);
    var reply := EchoJob(Icmp.ICMP_ECHOREPLY, b, a, id', ttl, ipB, ipA, idSeq, payload);
    FramesDeliver(mtu, request, b, tB, init, order, nows);
    FramesDeliver(mtu, reply, a, tA, init, order', nows');
    EchoAccepts(ipA, ipB, idSeq, payload);
  }
}
