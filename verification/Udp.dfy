/** UDP datagrams: building, checksumming, receiving (udp.c). */
module Udp {
  import opened Bytes
  import opened Checksum
  import opened Ether
  import opened IpPacket
  import opened Fragments
  import opened UdpPorts

  const UDP_HDR_LEN := 8
  const SBUF_SIZE := 0x1_0000

  /** The pseudo-header: addresses, zero, protocol and the length as htons leaves it. */
  function PseudoHeader(src: Ip, dst: Ip, proto: byte, len: nat): (r: seq<byte>)
    ensures |r| == 12
  {
    IpBytes(src) + IpBytes(dst) + [0, proto] + Be16(len % 0x1_0000)
  }

  /**
    The number a UDP checksum is about, by the pseudo-header of RFC 768: the words of both
    addresses, the protocol, the length and the words of the data.
   */
  function WireSum(src: Ip, dst: Ip, proto: byte, data: seq<byte>): nat {
    src / 0x1_0000 + src % 0x1_0000 + dst / 0x1_0000 + dst % 0x1_0000
    + proto + |data| % 0x1_0000 + ExactSum(Big, data)
  }

  lemma AddressOnWire(a: Ip)
    ensures ExactSum(Big, IpBytes(a)) == a / 0x1_0000 + a % 0x1_0000
  {
    WordOnWire(a / 0x1_0000);
    WordOnWire(a % 0x1_0000);
    ExactSumAppend(Big, Be16(a / 0x1_0000), Be16(a % 0x1_0000));
  }

  lemma ProtocolOnWire(proto: byte)
    ensures ExactSum(Big, [0, proto]) == proto
  {
  }

  lemma WireSumIsExact(src: Ip, dst: Ip, proto: byte, data: seq<byte>)
    ensures ExactSum(Big, PseudoHeader(src, dst, proto, |data|) + data) == WireSum(src, dst, proto, data)
  {
    SumOfParts(IpBytes(src), IpBytes(dst), [0, proto], Be16(|data| % 0x1_0000), data);
    PartsOnWire(src, dst, proto, |data| % 0x1_0000);
  }

  lemma PartsOnWire(src: Ip, dst: Ip, proto: byte, len: word)
    ensures ExactSum(Big, IpBytes(src)) + ExactSum(Big, IpBytes(dst))
            + ExactSum(Big, [0, proto]) + ExactSum(Big, Be16(len)) ==
            src / 0x1_0000 + src % 0x1_0000 + dst / 0x1_0000 + dst % 0x1_0000 + proto + len
  {
    AddressOnWire(src);
    AddressOnWire(dst);
    ProtocolOnWire(proto);
    WordOnWire(len);
  }

  lemma SumOfParts(a: seq<byte>, b: seq<byte>, c: seq<byte>, d: seq<byte>, e: seq<byte>)
    requires |a| == |b| == 4 && |c| == |d| == 2
    ensures ExactSum(Big, a + b + c + d + e) ==
            ExactSum(Big, a) + ExactSum(Big, b) + ExactSum(Big, c) + ExactSum(Big, d) + ExactSum(Big, e)
  {
    ExactSumAppend(Big, a, b);
    ExactSumAppend(Big, a + b, c);
    ExactSumAppend(Big, a + b + c, d);
    ExactSumAppend(Big, a + b + c + d, e);
  }

  /** The checksum as it is stored completes that number to a multiple of 65535 and is never zero. */
  ghost predicate Completes(sum: word, total: nat) {
    var field := Num(Store(HOST, sum), 0, 2);
    field != 0 && (total + field) % 0xFFFF == 0
  }

  lemma UdpSumCompletes(src: Ip, dst: Ip, proto: byte, data: seq<byte>)
    ensures Completes(UdpSum(src, dst, proto, data), WireSum(src, dst, proto, data))
  {
    WireSumIsExact(src, dst, proto, data);
    var total := WireSum(src, dst, proto, data);
    StoredOnWire(PseudoHeader(src, dst, proto, |data|) + data);
    NumWord(Store(HOST, 0xFFFF), 0);
    ModShift(total, 1);
  }

  /** UdpChecksum: a computed zero is sent as all ones. */
  function UdpSum(src: Ip, dst: Ip, proto: byte, data: seq<byte>): (r: word)
    ensures r != 0
  {
    var sum := Sum16(HOST, PseudoHeader(src, dst, proto, |data|) + data);
    if sum == 0 then 0xFFFF else sum
  }

  method UdpChecksum(src: Ip, dst: Ip, proto: byte, data: seq<byte>) returns (sum: word)
    ensures sum == UdpSum(src, dst, proto, data)
    ensures Completes(sum, WireSum(src, dst, proto, data))
  {
    UdpSumCompletes(src, dst, proto, data);
    sum := Checksum2(HOST, PseudoHeader(src, dst, proto, |data|), data);
    if sum == 0 {
      sum := 0xFFFF;
    }
  }

  /** Received data pass exactly when the word sum with the pseudo-header is divisible by 65535. */
  lemma UdpAcceptedIff(src: Ip, dst: Ip, proto: byte, data: seq<byte>)
    ensures Passes(UdpSum(src, dst, proto, data)) <==> WireSum(src, dst, proto, data) % 0xFFFF == 0
  {
    WireSumIsExact(src, dst, proto, data);
    AcceptedOnWire(PseudoHeader(src, dst, proto, |data|) + data);
  }

  // ---------------------------------------------------------------------
  // Datagrams
  // ---------------------------------------------------------------------

  function UdpHeader(sport: word, dport: word, len: nat, check: seq<byte>): seq<byte> {
    Be16(sport) + Be16(dport) + Be16((UDP_HDR_LEN + len) % 0x1_0000) + check
  }

  function UdpDatagram(src: Ip, dst: Ip, sport: word, dport: word, payload: seq<byte>): (r: seq<byte>)
    ensures |r| == UDP_HDR_LEN + |payload|
  {
    var blank := UdpHeader(sport, dport, |payload|, [0, 0]) + payload;
    UdpHeader(sport, dport, |payload|, Store(HOST, UdpSum(src, dst, IPPROTO_UDP, blank))) + payload
  }

  /**
    A datagram by position: ports, length and checksum in 8 bytes, then the payload. The checksum
    is not zero and completes the sum over the whole datagram.
   */
  ghost predicate DatagramOnWire(data: seq<byte>, src: Ip, dst: Ip, sport: word, dport: word, payload: seq<byte>) {
    && |data| == 8 + |payload|
    && Num(data, 0, 2) == sport && Num(data, 2, 2) == dport && Num(data, 4, 2) == |data| % 0x1_0000
    && Num(data, 6, 2) != 0 && WireSum(src, dst, 17, data) % 0xFFFF == 0
    && data[8..] == payload
  }

  lemma DatagramBytes(src: Ip, dst: Ip, sport: word, dport: word, payload: seq<byte>)
    ensures DatagramOnWire(UdpDatagram(src, dst, sport, dport, payload), src, dst, sport, dport, payload)
  {
    var data := UdpDatagram(src, dst, sport, dport, payload);
    var blank := UdpHeader(sport, dport, |payload|, [0, 0]) + payload;
    var field := Store(HOST, UdpSum(src, dst, IPPROTO_UDP, blank));
    ChecksumFilled(src, dst, sport, dport, payload);
    UdpAcceptedIff(src, dst, IPPROTO_UDP, data);
    UdpSumCompletes(src, dst, IPPROTO_UDP, blank);
    assert data[0..2] == Be16(sport) && data[2..4] == Be16(dport) && data[4..6] == Be16(|data| % 0x1_0000);
    assert data[6] == field[0] && data[7] == field[1];
    WordRead(sport, data, 0);
    WordRead(dport, data, 2);
    WordRead(|data| % 0x1_0000, data, 4);
    NumWord(data, 0);
    NumWord(data, 2);
    NumWord(data, 4);
    NumWord(data, 6);
    NumWord(field, 0);
  }

  /** The datagram built step by step in sbuf. */
  method BuildDatagram(src: Ip, dst: Ip, sport: word, dport: word, payload: seq<byte>) returns (datagram: seq<byte>)
    requires UDP_HDR_LEN + |payload| <= SBUF_SIZE
    ensures datagram == UdpDatagram(src, dst, sport, dport, payload)
    ensures DatagramOnWire(datagram, src, dst, sport, dport, payload)
  {
    var sbuf := new byte[SBUF_SIZE](_ => 0);
    var ptr := UDP_HDR_LEN + |payload|;
    FillBlank(sbuf, sport, dport, payload);
    var check := UdpChecksum(src, dst, IPPROTO_UDP, sbuf[..ptr]);
    PutCheck(sbuf, sport, dport, payload, check);
    datagram := sbuf[..ptr];
    DatagramBytes(src, dst, sport, dport, payload);
  }

  /** The header with a zero checksum, and the payload. */
  method FillBlank(sbuf: array<byte>, sport: word, dport: word, payload: seq<byte>)
    requires UDP_HDR_LEN + |payload| <= sbuf.Length
    modifies sbuf
    ensures sbuf[..UDP_HDR_LEN + |payload|] == UdpHeader(sport, dport, |payload|, [0, 0]) + payload
  {
    MemCpy(sbuf, 0, Be16(sport));
    MemCpy(sbuf, 2, Be16(dport));
    MemCpy(sbuf, 4, Be16((UDP_HDR_LEN + |payload|) % 0x1_0000));
    MemCpy(sbuf, 6, [0, 0]);
    MemCpy(sbuf, UDP_HDR_LEN, payload);
  }

  /** Stores the checksum over its zero field. */
  method PutCheck(sbuf: array<byte>, ghost sport: word, ghost dport: word, ghost payload: seq<byte>, check: word)
    requires UDP_HDR_LEN + |payload| <= sbuf.Length
    requires sbuf[..UDP_HDR_LEN + |payload|] == UdpHeader(sport, dport, |payload|, [0, 0]) + payload
    modifies sbuf
    ensures sbuf[..UDP_HDR_LEN + |payload|] == UdpHeader(sport, dport, |payload|, Store(HOST, check)) + payload
  {
    ghost var before := sbuf[..UDP_HDR_LEN + |payload|];
    MemCpy(sbuf, 6, Store(HOST, check));
    assert sbuf[..UDP_HDR_LEN + |payload|] == before[..6] + Store(HOST, check) + before[8..];
  }

  function UdpJob(reading: MfField, smac: Mac, dmac: Mac, id: word, ttl: byte, src: Ip, dst: Ip,
                  sport: word, dport: word, df: bool, payload: seq<byte>): Job
  {
    Job(reading, smac, dmac, Envelope(id, ttl, IPPROTO_UDP, src, dst), df, UdpDatagram(src, dst, sport, dport, payload))
  }

  /** UdpSendLink: it returns 0 whatever IpSendLink says. */
  method UdpSendLink(reading: MfField, mtu: nat, smac: Mac, dmac: Mac, id: word, ttl: byte, src: Ip, dst: Ip,
                     sport: word, dport: word, df: bool, payload: seq<byte>)
    returns (ret: int, wire: seq<seq<byte>>)
    requires IP_HDR_LEN <= mtu <= ETHERMTU && UDP_HDR_LEN + |payload| <= SBUF_SIZE
    requires df || Sendable(mtu, UDP_HDR_LEN + |payload|)
    ensures ret == 0
    ensures var job := UdpJob(reading, smac, dmac, id, ttl, src, dst, sport, dport, df, payload);
            if df && |job.data| > mtu - IP_HDR_LEN then wire == []
            else Sendable(mtu, |job.data|) && AllWithin(job, Cut(mtu, |job.data|, 0)) &&
                 wire == Frames(job, Cut(mtu, |job.data|, 0))
    ensures var datagram := UdpDatagram(src, dst, sport, dport, payload);
            var job := Job(reading, smac, dmac, Envelope(id, ttl, 17, src, dst), df, datagram);
            && DatagramOnWire(datagram, src, dst, sport, dport, payload)
            && forall k :: 0 <= k < |wire| ==>
                 Sendable(mtu, |datagram|) && k < |Cut(mtu, |datagram|, 0)|
                 && SentOnWire(job, Cut(mtu, |datagram|, 0)[k], wire[k])
  {
    var datagram := BuildDatagram(src, dst, sport, dport, payload);
    var sent;
    sent, wire := IpSendLink(mtu, Job(reading, smac, dmac, Envelope(id, ttl, IPPROTO_UDP, src, dst), df, datagram));
    ret := 0;
  }

  // ---------------------------------------------------------------------
  // Reception
  // ---------------------------------------------------------------------

  /** What UdpRecv does with a datagram. */
  datatype Outcome =
    | BadChecksum
    | ToDhcp(payload: seq<byte>)
    | ToPort(sport: word, dport: word, payload: seq<byte>)
    | PortUnreachable

  /**
    after is what the reassembly buffer holds behind the data: the ports of a datagram shorter than
    its header are read from there.
   */
  function Accept(ports: Ports, src: Ip, dst: Ip, proto: byte, data: seq<byte>, after: seq<byte>): Outcome
    requires |data| + |after| >= UDP_HDR_LEN
  {
    var sport, dport := WordAt(data + after, 0), WordAt(data + after, 2);
    var payload := if |data| >= UDP_HDR_LEN then data[UDP_HDR_LEN..] else [];
    if !Passes(UdpSum(src, dst, proto, data)) then BadChecksum
    else if dport == DHCP_CLIENT_PORT then ToDhcp(payload)
    else if SearchIn(ports, dport) != -1 then ToPort(sport, dport, payload)
    else PortUnreachable
  }

  /**
    By position: bytes 2 and 3 of a sound datagram decide where its bytes from the eighth on go. The
    ports of a shorter one are those left in the buffer, and it has no payload.
   */
  ghost predicate Dispatched(ports: Ports, data: seq<byte>, after: seq<byte>, outcome: Outcome)
    requires |data| + |after| >= 8
  {
    var sport, dport := Num(data + after, 0, 2), Num(data + after, 2, 2);
    var payload := if |data| < 8 then [] else data[8..];
    if dport == 68 then outcome == ToDhcp(payload)
    else if dport in Opened(ports) || (dport == 0 && |Opened(ports)| < 16) then
      outcome.ToPort? && outcome.sport == sport && outcome.dport == dport && outcome.payload == payload
    else outcome == PortUnreachable
  }

  lemma AcceptDispatches(ports: Ports, src: Ip, dst: Ip, proto: byte, data: seq<byte>, after: seq<byte>)
    requires Sound(ports) && |data| + |after| >= UDP_HDR_LEN
    ensures WireSum(src, dst, proto, data) % 0xFFFF == 0 ==>
              Dispatched(ports, data, after, Accept(ports, src, dst, proto, data, after))
  {
    UdpAcceptedIff(src, dst, proto, data);
    FullIff(ports);
    SubsetOfSixteen(ports);
    NumWord(data + after, 0);
    NumWord(data + after, 2);
  }

  method UdpRecv(table: UdpTable, src: Ip, dst: Ip, proto: byte, data: seq<byte>, after: seq<byte>)
    returns (ret: int, outcome: Outcome)
    requires table.Valid() && |data| + |after| >= UDP_HDR_LEN
    ensures outcome == Accept(table.ports[..], src, dst, proto, data, after)
    ensures ret == if outcome == BadChecksum then -1 else 0
    ensures outcome == BadChecksum <==> WireSum(src, dst, proto, data) % 0xFFFF != 0
    ensures outcome != BadChecksum ==> Dispatched(table.ports[..], data, after, outcome)
  {
    UdpAcceptedIff(src, dst, proto, data);
    AcceptDispatches(table.ports[..], src, dst, proto, data, after);
    var sum := UdpChecksum(src, dst, proto, data);
    if sum != 0 && sum != 0xFFFF {
      return -1, BadChecksum;
    }
    var buffer := data + after;
    var sport, dport := WordAt(buffer, 0), WordAt(buffer, 2);
    var payload := if |data| >= UDP_HDR_LEN then data[UDP_HDR_LEN..] else [];
    if dport == DHCP_CLIENT_PORT {
      outcome := ToDhcp(payload);
    } else {
      var no := table.Search(dport);
      outcome := if no != -1 then ToPort(sport, dport, payload) else PortUnreachable;
    }
    ret := 0;
  }

  /**
    Sender and receiver checksum the same pseudo-header and length: every datagram built is
    accepted, with the ports and the payload it was built from, whatever follows it in the buffer.
   */
  lemma DatagramAccepted(ports: Ports, src: Ip, dst: Ip, sport: word, dport: word, payload: seq<byte>, after: seq<byte>)
    ensures Accept(ports, src, dst, IPPROTO_UDP, UdpDatagram(src, dst, sport, dport, payload), after) ==
            if dport == DHCP_CLIENT_PORT then ToDhcp(payload)
            else if SearchIn(ports, dport) != -1 then ToPort(sport, dport, payload)
            else PortUnreachable
  {
    var data := UdpDatagram(src, dst, sport, dport, payload);
    var buffer := data + after;
    ChecksumFilled(src, dst, sport, dport, payload);
    assert buffer[0..2] == Be16(sport) && buffer[2..4] == Be16(dport);
    WordRead(sport, buffer, 0);
    WordRead(dport, buffer, 2);
    assert data[UDP_HDR_LEN..] == payload;
  }

  lemma ChecksumFilled(src: Ip, dst: Ip, sport: word, dport: word, payload: seq<byte>)
    ensures Passes(UdpSum(src, dst, IPPROTO_UDP, UdpDatagram(src, dst, sport, dport, payload)))
  {
    var blank := UdpHeader(sport, dport, |payload|, [0, 0]) + payload;
    var check := UdpSum(src, dst, IPPROTO_UDP, blank);
    var data := UdpDatagram(src, dst, sport, dport, payload);
    var pseudo := PseudoHeader(src, dst, IPPROTO_UDP, |data|);
    var pre := pseudo + UdpHeader(sport, dport, |payload|, []);
    assert pre + [0, 0] + payload == pseudo + blank;
    assert pre + Store(HOST, check) + payload == pseudo + data;
    FilledPasses(HOST, pre, payload, check);
  }

  /**
    Port 0 stands for a free slot in the table, so a datagram for port 0 is handed up exactly when
    some slot is free.
   */
  lemma PortZeroAcceptedIff(ports: Ports, src: Ip, dst: Ip, sport: word, payload: seq<byte>, after: seq<byte>)
    requires Sound(ports)
    ensures Accept(ports, src, dst, IPPROTO_UDP, UdpDatagram(src, dst, sport, 0, payload), after).ToPort?
            <==> |Opened(ports)| < UDP_TABLE_NO
  {
    DatagramAccepted(ports, src, dst, sport, 0, payload, after);
    FullIff(ports);
  }
}
