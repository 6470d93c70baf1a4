/** Ethernet framing (ether.c). */
module Ether {
  import opened Bytes

  const ETHERMTU := 1500
  const ETH_ZLEN := 60
  const ETHER_HDR_LEN := 14
  const ETHERTYPE_IP: word := 0x0800
  const ETHERTYPE_ARP: word := 0x0806

  /** A hardware address, most significant byte first. */
  type Mac = m: int | 0 <= m < 0x1_0000_0000_0000

  /** An internet address, s_addr read in network order. */
  type Ip = a: int | 0 <= a < 0x1_0000_0000

  function MacBytes(m: Mac): (r: seq<byte>)
    ensures |r| == 6
  {
    Be16(m / 0x1_0000 / 0x1_0000) + Be16(m / 0x1_0000 % 0x1_0000) + Be16(m % 0x1_0000)
  }

  function MacAt(data: seq<byte>, i: nat): Mac
    requires i + 6 <= |data|
  {
    WordAt(data, i) as int * 0x1_0000_0000 + WordAt(data, i + 2) as int * 0x1_0000 + WordAt(data, i + 4) as int
  }

  function IpBytes(a: Ip): (r: seq<byte>)
    ensures |r| == 4
  {
    Be16(a / 0x1_0000) + Be16(a % 0x1_0000)
  }

  function IpAt(data: seq<byte>, i: nat): Ip
    requires i + 4 <= |data|
  {
    WordAt(data, i) as int * 0x1_0000 + WordAt(data, i + 2) as int
  }

  const BCAST_MAC: Mac := 0xFFFF_FFFF_FFFF
  const ZERO_MAC: Mac := 0
  const ANY_IP: Ip := 0

  lemma WordRead(w: word, data: seq<byte>, i: nat)
    requires i + 2 <= |data| && data[i..i + 2] == Be16(w)
    ensures WordAt(data, i) == w
  {
    assert data[i] == data[i..i + 2][0] && data[i + 1] == data[i..i + 2][1];
  }

  lemma SubSlice(data: seq<byte>, i: nat, n: nat, j: nat)
    requires i + n <= |data| && j + 2 <= n
    ensures data[i + j..i + j + 2] == data[i..i + n][j..j + 2]
  {
    var l, r := data[i + j..i + j + 2], data[i..i + n][j..j + 2];
    assert l[0] == r[0] && l[1] == r[1];
  }

  lemma MacRead(m: Mac, data: seq<byte>, i: nat)
    requires i + 6 <= |data| && data[i..i + 6] == MacBytes(m)
    ensures MacAt(data, i) == m
  {
    SubSlice(data, i, 6, 0);
    SubSlice(data, i, 6, 2);
    SubSlice(data, i, 6, 4);
    WordRead(m / 0x1_0000 / 0x1_0000, data, i);
    WordRead(m / 0x1_0000 % 0x1_0000, data, i + 2);
    WordRead(m % 0x1_0000, data, i + 4);
  }

  lemma IpRead(a: Ip, data: seq<byte>, i: nat)
    requires i + 4 <= |data| && data[i..i + 4] == IpBytes(a)
    ensures IpAt(data, i) == a
  {
    SubSlice(data, i, 4, 0);
    SubSlice(data, i, 4, 2);
    WordRead(a / 0x1_0000, data, i);
    WordRead(a % 0x1_0000, data, i + 2);
  }

  lemma NumIp(data: seq<byte>, i: nat)
    requires i + 4 <= |data|
    ensures Num(data, i, 4) == IpAt(data, i)
  {
    NumWord(data, i);
    assert Num(data, i, 3) == Num(data, i, 2) * 0x100 + data[i + 2];
  }

  lemma NumMac(data: seq<byte>, i: nat)
    requires i + 6 <= |data|
    ensures Num(data, i, 6) == MacAt(data, i)
  {
    NumIp(data, i);
    assert Num(data, i, 5) == Num(data, i, 4) * 0x100 + data[i + 4];
  }

  /** Zero bytes appended to reach the minimum frame length. */
  function Padding(len: nat): nat {
    if ETHER_HDR_LEN + len < ETH_ZLEN then ETH_ZLEN - ETHER_HDR_LEN - len else 0
  }

  function Frame(smac: Mac, dmac: Mac, etherType: word, data: seq<byte>): seq<byte> {
    MacBytes(dmac) + MacBytes(smac) + Be16(etherType) + data + Zeros(Padding(|data|))
  }

  /**
    An Ethernet frame by position: destination, source and type in 14 bytes, then the data, and
    zeros behind it only as far as the least length of 60.
   */
  ghost predicate FrameOnWire(frame: seq<byte>, smac: Mac, dmac: Mac, etherType: word, data: seq<byte>) {
    && |frame| == (if |data| < 46 then 60 else 14 + |data|)
    && Num(frame, 0, 6) == dmac && Num(frame, 6, 6) == smac && Num(frame, 12, 2) == etherType
    && frame[14..14 + |data|] == data
    && forall k :: 14 + |data| <= k < |frame| ==> frame[k] == 0
  }

  lemma FrameBytes(smac: Mac, dmac: Mac, etherType: word, data: seq<byte>)
    ensures FrameOnWire(Frame(smac, dmac, etherType, data), smac, dmac, etherType, data)
  {
    var frame := Frame(smac, dmac, etherType, data);
    assert frame[0..6] == MacBytes(dmac) && frame[6..12] == MacBytes(smac) && frame[12..14] == Be16(etherType);
    MacRead(dmac, frame, 0);
    MacRead(smac, frame, 6);
    WordRead(etherType, frame, 12);
    NumMac(frame, 0);
    NumMac(frame, 6);
    NumWord(frame, 12);
  }

  /** Builds the frame in place and hands it to write(): None when nothing is written. */
  method EtherSend(smac: Mac, dmac: Mac, etherType: word, data: seq<byte>)
    returns (ret: int, frame: Option<seq<byte>>)
    ensures |data| > ETHERMTU ==> ret == -1 && frame == None
    ensures |data| <= ETHERMTU ==> ret == 0 && frame == Some(Frame(smac, dmac, etherType, data))
  {
    if |data| > ETHERMTU {
      return -1, None;
    }
    var sbuf := new byte[ETHER_HDR_LEN + ETHERMTU](_ => 0);
    MemCpy(sbuf, 0, MacBytes(dmac));
    MemCpy(sbuf, 6, MacBytes(smac));
    MemCpy(sbuf, 12, Be16(etherType));
    var ptr := ETHER_HDR_LEN;
    MemCpy(sbuf, ptr, data);
    ptr := ptr + |data|;
    assert sbuf[..ptr] == MacBytes(dmac) + MacBytes(smac) + Be16(etherType) + data;
    if ptr < ETH_ZLEN {
      var padlen := ETH_ZLEN - ptr;
      MemCpy(sbuf, ptr, Zeros(padlen));
      ptr := ptr + padlen;
      assert sbuf[..ptr] == MacBytes(dmac) + MacBytes(smac) + Be16(etherType) + data + Zeros(padlen);
    }
    assert sbuf[..ptr] == Frame(smac, dmac, etherType, data);
    ret, frame := 0, Some(sbuf[..ptr]);
  }

  /** What EtherRecv does with a frame. */
  datatype Upcall =
    | NotForUs
    | ToArp(shost: Mac, data: seq<byte>)
    | ToIp(data: seq<byte>)
    | Ignored

  /** EtherRecv's decision, from the frame alone; the caller supplies a whole Ethernet header. */
  function Dispatch(vmac: Mac, frame: seq<byte>): Upcall
    requires |frame| >= ETHER_HDR_LEN
  {
    var data := frame[ETHER_HDR_LEN..];
    if MacAt(frame, 0) != BCAST_MAC && MacAt(frame, 0) != vmac then NotForUs
    else if WordAt(frame, 12) == ETHERTYPE_ARP then ToArp(MacAt(frame, 6), data)
    else if WordAt(frame, 12) == ETHERTYPE_IP then ToIp(data)
    else Ignored
  }

  /** The decision by position, for any frame. */
  lemma DispatchByPosition(vmac: Mac, frame: seq<byte>)
    requires |frame| >= 14
    ensures var upcall := Dispatch(vmac, frame);
            if Num(frame, 0, 6) != vmac && Num(frame, 0, 6) != 0xFFFF_FFFF_FFFF then upcall == NotForUs
            else if Num(frame, 12, 2) == 0x0806 then
              upcall.ToArp? && upcall.shost == Num(frame, 6, 6) && upcall.data == frame[14..]
            else if Num(frame, 12, 2) == 0x0800 then upcall == ToIp(frame[14..])
            else upcall == Ignored
  {
    NumMac(frame, 0);
    NumMac(frame, 6);
    NumWord(frame, 12);
  }

  /**
    Framing loses nothing: a packet that fits travels whole to exactly the hosts it is addressed
    to, in a frame of legal size, followed by zero padding only.
   */
  lemma FrameReceived(smac: Mac, dmac: Mac, etherType: word, data: seq<byte>, vmac: Mac)
    requires |data| <= ETHERMTU
    ensures var frame := Frame(smac, dmac, etherType, data);
            && ETH_ZLEN <= |frame| <= ETHER_HDR_LEN + ETHERMTU
            && Dispatch(vmac, frame) ==
               if dmac != BCAST_MAC && dmac != vmac then NotForUs
               else if etherType == ETHERTYPE_ARP then ToArp(smac, data + Zeros(Padding(|data|)))
               else if etherType == ETHERTYPE_IP then ToIp(data + Zeros(Padding(|data|)))
               else Ignored
  {
    var frame := Frame(smac, dmac, etherType, data);
    assert frame[0..6] == MacBytes(dmac) && frame[6..12] == MacBytes(smac) && frame[12..14] == Be16(etherType);
    MacRead(dmac, frame, 0);
    MacRead(smac, frame, 6);
    WordRead(etherType, frame, 12);
    assert frame[14..] == data + Zeros(Padding(|data|));
  }
}
