/** The IPv4 header as ip.c writes and reads it. */
module IpPacket {
  import opened Bytes
  import opened Checksum
  import opened Ether

  const IP_HDR_LEN := 20
  const IP_DF: word := 0x4000
  const IP_MF: word := 0x2000
  /** IP_OFFMASK + 1 */
  const OFF_RANGE := 0x2000
  const IPPROTO_ICMP: byte := 1
  const IPPROTO_UDP: byte := 17

  /** The fields the sender sets; ip_v is 4 and ip_hl is 5. */
  datatype Header = Header(len: word, id: word, frag: word, ttl: byte, proto: byte, src: Ip, dst: Ip)

  function BeforeSum(h: Header): (r: seq<byte>)
    ensures |r| == 10
  {
    [0x45, 0] + Be16(h.len) + Be16(h.id) + Be16(h.frag) + [h.ttl, h.proto]
  }

  /** The header with its checksum, filled in over a zero field. */
  function HeaderBytes(h: Header): (r: seq<byte>)
    ensures |r| == IP_HDR_LEN
  {
    var post := IpBytes(h.src) + IpBytes(h.dst);
    BeforeSum(h) + Store(HOST, Sum16(HOST, BeforeSum(h) + [0, 0] + post)) + post
  }

  /** The header by position. */
  lemma HeaderOnWire(h: Header)
    ensures var b := HeaderBytes(h);
            && b[0] == 0x45 && b[1] == 0 && Num(b, 2, 2) == h.len && Num(b, 4, 2) == h.id && Num(b, 6, 2) == h.frag
            && b[8] == h.ttl && b[9] == h.proto && Num(b, 12, 4) == h.src && Num(b, 16, 4) == h.dst
            && ExactSum(Big, b) % 0xFFFF == 0 && Num(b, 10, 2) != 0xFFFF
  {
    var b, post := HeaderBytes(h), IpBytes(h.src) + IpBytes(h.dst);
    assert b[2..4] == Be16(h.len) && b[4..6] == Be16(h.id) && b[6..8] == Be16(h.frag);
    assert b[12..16] == IpBytes(h.src) && b[16..20] == IpBytes(h.dst);
    WordRead(h.len, b, 2);
    WordRead(h.id, b, 4);
    WordRead(h.frag, b, 6);
    IpRead(h.src, b, 12);
    IpRead(h.dst, b, 16);
    NumWord(b, 2);
    NumWord(b, 4);
    NumWord(b, 6);
    NumIp(b, 12);
    NumIp(b, 16);
    HeaderSum(h);
  }

  lemma HeaderSum(h: Header)
    ensures ExactSum(Big, HeaderBytes(h)) % 0xFFFF == 0 && Num(HeaderBytes(h), 10, 2) != 0xFFFF
  {
    var b, post := HeaderBytes(h), IpBytes(h.src) + IpBytes(h.dst);
    var blank := BeforeSum(h) + [0, 0] + post;
    FilledMessagePasses(HOST, BeforeSum(h), post);
    AcceptedOnWire(b);
    StoredOnWire(blank);
    assert blank[0] == 0x45;
    NumShift(b, 10, Store(HOST, Sum16(HOST, blank)), 0, 2);
  }

  /** What the receiver takes out of a packet. off is in bytes. */
  datatype Piece = Piece(id: word, off: nat, more: bool, proto: byte, src: Ip, dst: Ip, body: seq<byte>)

  /** ip_hl * 4 */
  function HeaderLen(data: seq<byte>): nat
    requires |data| >= IP_HDR_LEN
  {
    data[0] % 16 * 4
  }

  /** Where the payload starts: after the fixed header and any options. */
  function BodyStart(data: seq<byte>): (r: nat)
    requires |data| >= IP_HDR_LEN
    ensures r >= IP_HDR_LEN
  {
    if HeaderLen(data) > IP_HDR_LEN then HeaderLen(data) else IP_HDR_LEN
  }

  /** The header checksum covers the options when there are any. */
  predicate HeaderPasses(data: seq<byte>)
    requires |data| >= IP_HDR_LEN && BodyStart(data) <= |data|
  {
    Passes(Sum16(HOST, data[..BodyStart(data)]))
  }

  function BodyLen(data: seq<byte>): int
    requires |data| >= IP_HDR_LEN
  {
    WordAt(data, 2) as int - HeaderLen(data)
  }

  /** The frame really contains the header, its options and ip_len bytes of packet. */
  predicate WellFramed(data: seq<byte>)
    requires |data| >= IP_HDR_LEN
  {
    && BodyStart(data) <= |data|
    && (HeaderPasses(data) ==> 0 <= BodyLen(data) <= |data| - BodyStart(data))
  }

  function Offset(data: seq<byte>): nat
    requires |data| >= IP_HDR_LEN
  {
    WordAt(data, 6) % OFF_RANGE * 8
  }

  predicate More(data: seq<byte>)
    requires |data| >= IP_HDR_LEN
  {
    WordAt(data, 6) / IP_MF % 2 == 1
  }

  function Parse(data: seq<byte>): Piece
    requires |data| >= IP_HDR_LEN && WellFramed(data) && HeaderPasses(data)
  {
    Piece(WordAt(data, 4), Offset(data), More(data), data[9], IpAt(data, 12), IpAt(data, 16),
          data[BodyStart(data)..BodyStart(data) + BodyLen(data)])
  }

  /**
    Any packet, with or without options, of any version: hdr is the fixed header, the low half of
    its first byte the header length in words. Options are summed with the header and skipped, and
    the payload is what ip_len leaves behind them; a header length below five means no options.
   */
  lemma PacketParses(hdr: seq<byte>, options: seq<byte>, body: seq<byte>, padding: seq<byte>)
    requires |hdr| == 20 && |options| == (if hdr[0] % 16 > 5 then hdr[0] % 16 * 4 - 20 else 0)
    requires Num(hdr, 2, 2) == hdr[0] % 16 * 4 + |body|
    ensures var data := hdr + options + body + padding;
            && WellFramed(data)
            && (HeaderPasses(data) <==> ExactSum(Big, hdr + options) % 0xFFFF == 0)
            && (HeaderPasses(data) ==> Parse(data) == PieceOnWire(hdr, body))
  {
    var data := hdr + options + body + padding;
    var start := 20 + |options|;
    assert BodyStart(data) == start && data[..start] == hdr + options;
    AcceptedOnWire(hdr + options);
    SameHeader(hdr, data);
    assert data[start..start + |body|] == body;
  }

  /** What the twenty bytes of a fixed header say, by position (section 3.1 of RFC 791). */
  function PieceOnWire(hdr: seq<byte>, body: seq<byte>): Piece
    requires |hdr| == 20
  {
    NumWord(hdr, 4);
    NumIp(hdr, 12);
    NumIp(hdr, 16);
    Piece(Num(hdr, 4, 2), Num(hdr, 6, 2) % 0x2000 * 8, hdr[6] / 0x20 % 2 == 1, hdr[9],
          Num(hdr, 12, 4), Num(hdr, 16, 4), body)
  }

  /** The same for the bytes as they lie in the buffer. */
  lemma ParsedByPosition(data: seq<byte>)
    requires |data| >= 20 && WellFramed(data)
    ensures LiesBehindOptions(data)
    ensures HeaderPasses(data) <==> ExactSum(Big, data[..BodyStart(data)]) % 0xFFFF == 0
    ensures HeaderPasses(data) ==>
              var start := BodyStart(data);
              Parse(data) == PieceOnWire(data[..20], data[start..start + BodyLen(data)])
  {
    AcceptedOnWire(data[..BodyStart(data)]);
    NumWord(data, 2);
    if HeaderPasses(data) {
      PieceByPosition(data);
    }
  }

  /** Where the payload starts, and how long it is, by the header length in words and ip_len. */
  ghost predicate LiesBehindOptions(data: seq<byte>)
    requires |data| >= 20
  {
    var words := data[0] % 16;
    BodyStart(data) == (if words > 5 then words * 4 else 20) && BodyLen(data) == Num(data, 2, 2) - words * 4
  }

  lemma PieceByPosition(data: seq<byte>)
    requires |data| >= 20 && WellFramed(data) && HeaderPasses(data)
    ensures var start := BodyStart(data);
            Parse(data) == PieceOnWire(data[..20], data[start..start + BodyLen(data)])
  {
    SameHeader(data[..20], data);
  }

  /** The fields of a header are read alike in the packet it begins. */
  lemma SameHeader(hdr: seq<byte>, data: seq<byte>)
    requires |hdr| == 20 <= |data| && data[..20] == hdr
    ensures WordAt(data, 2) == Num(hdr, 2, 2) && WordAt(data, 4) == Num(hdr, 4, 2)
    ensures Offset(data) == Num(hdr, 6, 2) % 0x2000 * 8 && (More(data) <==> hdr[6] / 0x20 % 2 == 1)
    ensures IpAt(data, 12) == Num(hdr, 12, 4) && IpAt(data, 16) == Num(hdr, 16, 4) && data[9] == hdr[9]
  {
    assert forall k :: 0 <= k < 20 ==> data[k] == hdr[k];
    NumWord(hdr, 2);
    NumWord(hdr, 4);
    NumWord(hdr, 6);
    NumIp(hdr, 12);
    NumIp(hdr, 16);
    FlagByte(hdr[6], hdr[7]);
  }

  lemma FlagByte(h: byte, l: byte)
    ensures (h * 0x100 + l) / IP_MF % 2 == h / 0x20 % 2
  {
  }

  /** Padding after the packet is never read: the receiver goes by ip_len. */
  lemma SentPacketParses(h: Header, body: seq<byte>, padding: seq<byte>)
    requires h.len == IP_HDR_LEN + |body|
    ensures var data := HeaderBytes(h) + body + padding;
            && WellFramed(data)
            && HeaderPasses(data)
            && Parse(data) == Piece(h.id, h.frag % OFF_RANGE * 8, h.frag / IP_MF % 2 == 1, h.proto, h.src, h.dst, body)
  {
    var hdr := HeaderBytes(h);
    var data := hdr + body + padding;
    assert data[0] == 0x45 && data[9] == h.proto;
    assert data[2..4] == Be16(h.len) && data[4..6] == Be16(h.id) && data[6..8] == Be16(h.frag);
    WordRead(h.len, data, 2);
    WordRead(h.id, data, 4);
    WordRead(h.frag, data, 6);
    assert data[..20] == hdr;
    FilledMessagePasses(HOST, BeforeSum(h), IpBytes(h.src) + IpBytes(h.dst));
    assert data[12..16] == IpBytes(h.src) && data[16..20] == IpBytes(h.dst);
    IpRead(h.src, data, 12);
    IpRead(h.dst, data, 16);
    assert data[20..20 + |body|] == body;
  }
}
