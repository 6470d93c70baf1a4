/** Cutting a payload into fragments and sending them (ip.c, IpSendLink). */
module Fragments {
  import opened Bytes
  import opened Checksum
  import opened Ether
  import opened IpPacket

  /**
    The two readings of the ip_off field of a fragment with more to follow. As written the field
    is IP_MF alone and the offset computed just before is dropped; meant is IP_MF | offset.
   */
  datatype MfField = AsWritten | WithOffset

  /** What every fragment of one datagram shares. */
  datatype Envelope = Envelope(id: word, ttl: byte, proto: byte, src: Ip, dst: Ip)

  datatype Span = Span(off: nat, len: nat)

  /** Payload bytes of a fragment that is not the last. */
  function Chunk(mtu: nat): nat
    requires mtu >= IP_HDR_LEN
  {
    (mtu - IP_HDR_LEN) / 8 * 8
  }

  /** The sending loop makes progress: the exact condition is TerminatesIff. */
  predicate Sendable(mtu: nat, len: nat) {
    IP_HDR_LEN <= mtu <= ETHERMTU && (Chunk(mtu) > 0 || len <= mtu - IP_HDR_LEN)
  }

  /** The fragments of the payload bytes from off on. */
  function Cut(mtu: nat, len: nat, off: nat): seq<Span>
    requires Sendable(mtu, len) && off <= len
    decreases len - off
  {
    if off == len then []
    else if len - off > mtu - IP_HDR_LEN then [Span(off, Chunk(mtu))] + Cut(mtu, len, off + Chunk(mtu))
    else [Span(off, len - off)]
  }

  function FragField(reading: MfField, df: bool, more: bool, off8: nat): word {
    if df then IP_DF
    else if more && reading == AsWritten then IP_MF
    else (if more then IP_MF else 0) + off8 % OFF_RANGE
  }

  /** The arguments of one call of IpSendLink. */
  datatype Job = Job(reading: MfField, smac: Mac, dmac: Mac, env: Envelope, df: bool, data: seq<byte>)

  predicate Within(job: Job, span: Span) {
    span.len + IP_HDR_LEN <= ETHERMTU && span.off + span.len <= |job.data|
  }

  function HeaderFor(job: Job, span: Span): Header
    requires Within(job, span)
  {
    Header(IP_HDR_LEN + span.len, job.env.id,
           FragField(job.reading, job.df, span.off + span.len < |job.data|, span.off / 8),
           job.env.ttl, job.env.proto, job.env.src, job.env.dst)
  }

  function PacketFor(job: Job, span: Span): seq<byte>
    requires Within(job, span)
  {
    HeaderBytes(HeaderFor(job, span)) + job.data[span.off..span.off + span.len]
  }

  function FrameFor(job: Job, span: Span): seq<byte>
    requires Within(job, span)
  {
    Frame(job.smac, job.dmac, ETHERTYPE_IP, PacketFor(job, span))
  }

  ghost predicate AllWithin(job: Job, spans: seq<Span>) {
    forall i :: 0 <= i < |spans| ==> Within(job, spans[i])
  }

  /**
    A fragment by position: the Ethernet header, the twenty bytes of section 3.1 of RFC 791, its
    part of the payload, zeros to the least length.
   */
  ghost predicate SentOnWire(job: Job, span: Span, frame: seq<byte>) {
    var more := span.off + span.len < |job.data|;
    && |frame| == (if 34 + span.len < 60 then 60 else 34 + span.len) && span.off + span.len <= |job.data|
    && Num(frame, 0, 6) == job.dmac && Num(frame, 6, 6) == job.smac && frame[12] == 0x08 && frame[13] == 0x00
    && frame[14] == 0x45 && frame[15] == 0 && Num(frame, 16, 2) == 20 + span.len && Num(frame, 18, 2) == job.env.id
    && FlagsOnWire(job, more, span.off, Num(frame, 20, 2))
    && frame[22] == job.env.ttl && frame[23] == job.env.proto
    && ExactSum(Big, frame[14..34]) % 0xFFFF == 0 && Num(frame, 24, 2) != 0xFFFF
    && Num(frame, 26, 4) == job.env.src && Num(frame, 30, 4) == job.env.dst
    && frame[34..34 + span.len] == job.data[span.off..span.off + span.len]
    && forall k :: 34 + span.len <= k < |frame| ==> frame[k] == 0
  }

  /** The reserved bit, DF, MF and the offset in units of 8 bytes. */
  ghost predicate FlagsOnWire(job: Job, more: bool, off: nat, field: nat) {
    && field < 0x8000
    && (field / 0x4000 == 1 <==> job.df)
    && (field / 0x2000 % 2 == 1 <==> more && !job.df)
    && field % 0x2000 == if job.df || (more && job.reading == AsWritten) then 0 else off / 8 % 0x2000
  }

  lemma FlagsStored(job: Job, more: bool, off: nat)
    ensures FlagsOnWire(job, more, off, FragField(job.reading, job.df, more, off / 8))
  {
  }

  /** The header where it lies in a frame. */
  lemma HeaderInFrame(h: Header, frame: seq<byte>)
    requires |frame| >= 34 && frame[14..34] == HeaderBytes(h)
    ensures frame[14] == 0x45 && frame[15] == 0 && Num(frame, 16, 2) == h.len && Num(frame, 18, 2) == h.id
    ensures Num(frame, 20, 2) == h.frag && frame[22] == h.ttl && frame[23] == h.proto
    ensures ExactSum(Big, frame[14..34]) % 0xFFFF == 0 && Num(frame, 24, 2) != 0xFFFF
    ensures Num(frame, 26, 4) == h.src && Num(frame, 30, 4) == h.dst
  {
    var b := HeaderBytes(h);
    HeaderOnWire(h);
    assert forall k :: 0 <= k < 20 ==> frame[14..34][k] == frame[14 + k];
    NumShift(frame, 14, b, 2, 2);
    NumShift(frame, 14, b, 4, 2);
    NumShift(frame, 14, b, 6, 2);
    NumShift(frame, 14, b, 10, 2);
    NumShift(frame, 14, b, 12, 4);
    NumShift(frame, 14, b, 16, 4);
  }

  /** Every frame of IpSendLink is its fragment, byte for byte. */
  lemma FrameBytesOf(job: Job, span: Span)
    requires Within(job, span)
    ensures SentOnWire(job, span, FrameFor(job, span))
  {
    var h, packet, frame := HeaderFor(job, span), PacketFor(job, span), FrameFor(job, span);
    var part := job.data[span.off..span.off + span.len];
    FrameBytes(job.smac, job.dmac, ETHERTYPE_IP, packet);
    PartsOf(frame, HeaderBytes(h), part);
    HeaderInFrame(h, frame);
    FlagsStored(job, span.off + span.len < |job.data|, span.off);
    NumWord(frame, 12);
  }

  lemma PartsOf(frame: seq<byte>, head: seq<byte>, part: seq<byte>)
    requires |head| == 20 && 34 + |part| <= |frame| && frame[14..14 + |head + part|] == head + part
    ensures frame[14..34] == head && frame[34..34 + |part|] == part
  {
    var whole := frame[14..14 + |head + part|];
    assert frame[14..34] == whole[..20] && frame[34..34 + |part|] == whole[20..];
  }

  /** The frames that go out for a list of fragments. */
  ghost function Frames(job: Job, spans: seq<Span>): (r: seq<seq<byte>>)
    requires AllWithin(job, spans)
    ensures |r| == |spans|
  {
    seq(|spans|, i requires 0 <= i < |spans| => FrameFor(job, spans[i]))
  }

  // ---------------------------------------------------------------------
  // The shape of the fragments
  // ---------------------------------------------------------------------

  /**
    A contiguous partition of the payload from off on: the first fragment starts at off, each next
    one where the one before ends, every one but the last is a whole chunk, the last is not empty
    and ends where the payload ends, and none makes a packet longer than the MTU.
   */
  ghost predicate Partition(mtu: nat, len: nat, off: nat, spans: seq<Span>)
    requires mtu >= IP_HDR_LEN
  {
    var n := |spans|;
    && n > 0 && spans[0].off == off
    && spans[n - 1].len > 0 && spans[n - 1].off + spans[n - 1].len == len
    && (forall k :: 0 <= k < n ==> spans[k].len + IP_HDR_LEN <= mtu)
    && (forall k :: 0 <= k < n - 1 ==> spans[k].len == Chunk(mtu) && Joins(spans, k, len))
  }

  ghost predicate Joins(spans: seq<Span>, k: nat, len: nat)
    requires k + 1 < |spans|
  {
    spans[k].off + spans[k].len == spans[k + 1].off < len
  }

  lemma PartitionExtends(mtu: nat, len: nat, off: nat, c: nat, rest: seq<Span>)
    requires mtu >= IP_HDR_LEN && c == Chunk(mtu) && c + IP_HDR_LEN <= mtu
    requires off + c < len && Partition(mtu, len, off + c, rest)
    ensures Partition(mtu, len, off, [Span(off, c)] + rest)
  {
    var spans := [Span(off, c)] + rest;
    forall k | 0 <= k < |spans| - 1
      ensures spans[k].len == Chunk(mtu) && Joins(spans, k, len)
    {
      if k > 0 {
        assert spans[k] == rest[k - 1] && Joins(rest, k - 1, len);
      }
    }
  }

  /** The sending loop partitions the payload into chunks that are a positive multiple of 8 bytes. */
  lemma {:induction false} CutShape(mtu: nat, len: nat, off: nat)
    requires Sendable(mtu, len) && off < len
    ensures Partition(mtu, len, off, Cut(mtu, len, off))
    ensures |Cut(mtu, len, off)| > 1 ==> Chunk(mtu) >= 8 && Chunk(mtu) % 8 == 0
    decreases len - off
  {
    ChunkBounds(mtu);
    if len - off > mtu - IP_HDR_LEN {
      var c := Chunk(mtu);
      CutShape(mtu, len, off + c);
      PartitionExtends(mtu, len, off, c, Cut(mtu, len, off + c));
    }
  }

  lemma {:induction false} CutAligned(mtu: nat, len: nat, off: nat, k: nat)
    requires Sendable(mtu, len) && off < len && k < |Cut(mtu, len, off)|
    ensures Cut(mtu, len, off)[k].off % 8 == off % 8
    decreases len - off
  {
    if k > 0 {
      ChunkBounds(mtu);
      SameResidue8(off, Chunk(mtu));
      CutAligned(mtu, len, off + Chunk(mtu), k - 1);
    }
  }

  /** A fragment with more to follow carries as much as offsets in units of 8 bytes allow. */
  lemma ChunkIsLargest(mtu: nat, c: nat)
    requires mtu >= IP_HDR_LEN
    ensures Chunk(mtu) % 8 == 0 && 20 + Chunk(mtu) <= mtu
    ensures c % 8 == 0 && 20 + c <= mtu ==> c <= Chunk(mtu)
  {
  }

  lemma ChunkBounds(mtu: nat)
    requires mtu >= IP_HDR_LEN
    ensures Chunk(mtu) <= mtu - IP_HDR_LEN && Chunk(mtu) % 8 == 0
    ensures Chunk(mtu) > 0 ==> Chunk(mtu) >= 8
  {
  }

  lemma SameResidue8(off: nat, c: nat)
    requires c % 8 == 0
    ensures (off + c) % 8 == off % 8
  {
  }

  /** Only the last fragment ends the payload, and offsets in units of 8 bytes fit the 13-bit field. */
  lemma OffsetsFit(mtu: nat, len: nat, k: nat)
    requires Sendable(mtu, len) && 0 < len <= 0x1_0000 && k < |Cut(mtu, len, 0)|
    ensures var span := Cut(mtu, len, 0)[k];
            && span.len > 0 && span.len + IP_HDR_LEN <= mtu && span.off + span.len <= len
            && (span.off + span.len < len <==> k < |Cut(mtu, len, 0)| - 1)
            && span.off % 8 == 0 && span.off / 8 < OFF_RANGE
  {
    CutShape(mtu, len, 0);
    CutAligned(mtu, len, 0, k);
    var spans := Cut(mtu, len, 0);
    if k < |spans| - 1 {
      assert Joins(spans, k, len);
    }
  }

  /** Every byte of the payload is in some fragment. */
  lemma {:induction false} CutCovers(mtu: nat, len: nat, off: nat, k: nat) returns (i: nat)
    requires Sendable(mtu, len) && off <= k < len
    ensures i < |Cut(mtu, len, off)|
    ensures Cut(mtu, len, off)[i].off <= k < Cut(mtu, len, off)[i].off + Cut(mtu, len, off)[i].len
    decreases len - off
  {
    i := 0;
    if len - off > mtu - IP_HDR_LEN && k >= off + Chunk(mtu) {
      i := CutCovers(mtu, len, off + Chunk(mtu), k);
      i := i + 1;
    }
  }

  // ---------------------------------------------------------------------
  // Termination
  // ---------------------------------------------------------------------

  /** lest after one more round of the loop. */
  function Round(mtu: nat, lest: nat): nat
    requires mtu >= IP_HDR_LEN
  {
    if lest > mtu - IP_HDR_LEN then lest - Chunk(mtu) else 0
  }

  function Rounds(mtu: nat, lest: nat, n: nat): nat
    requires mtu >= IP_HDR_LEN
  {
    if n == 0 then lest else Rounds(mtu, Round(mtu, lest), n - 1)
  }

  /** With MTU 20..27 a chunk is empty: the loop ends exactly when no fragmentation is needed. */
  lemma {:induction false} TerminatesIff(mtu: nat, len: nat)
    requires mtu >= IP_HDR_LEN
    ensures (exists n: nat :: Rounds(mtu, len, n) == 0) <==> mtu >= 28 || len <= mtu - IP_HDR_LEN
    decreases len
  {
    if mtu >= 28 || len <= mtu - IP_HDR_LEN {
      if len == 0 {
        assert Rounds(mtu, len, 0) == 0;
      } else {
        TerminatesIff(mtu, Round(mtu, len));
        var n: nat :| Rounds(mtu, Round(mtu, len), n) == 0;
        assert Rounds(mtu, len, n + 1) == 0;
      }
    } else {
      forall n: nat
        ensures Rounds(mtu, len, n) != 0
      {
        Stuck(mtu, len, n);
      }
    }
  }

  /** The sender's demand on its caller is exactly that the loop ends. */
  lemma SendableIffTerminates(mtu: nat, len: nat)
    requires 20 <= mtu <= 1500
    ensures Sendable(mtu, len) <==> exists n: nat :: Rounds(mtu, len, n) == 0
  {
    TerminatesIff(mtu, len);
  }

  /** The loop sends one fragment a round: it has nothing left after them, and not before. */
  lemma {:induction false} FragmentPerRound(mtu: nat, len: nat, off: nat, n: nat)
    requires Sendable(mtu, len) && off <= len
    ensures Rounds(mtu, len - off, n) == 0 <==> n >= |Cut(mtu, len, off)|
    decreases n
  {
    ChunkBounds(mtu);
    if n > 0 && len - off > mtu - IP_HDR_LEN {
      FragmentPerRound(mtu, len, off + Chunk(mtu), n - 1);
    } else if n > 0 {
      FragmentPerRound(mtu, len, len, n - 1);
    }
  }

  lemma {:induction false} Stuck(mtu: nat, lest: nat, n: nat)
    requires IP_HDR_LEN <= mtu < 28 && lest > mtu - IP_HDR_LEN
    ensures Rounds(mtu, lest, n) == lest
  {
    if n > 0 {
      Stuck(mtu, lest, n - 1);
    }
  }

  // ---------------------------------------------------------------------
  // IpSendLink
  // ---------------------------------------------------------------------

  /** One round: the packet built in sbuf and framed. */
  method SendFragment(job: Job, span: Span) returns (frame: seq<byte>)
    requires Within(job, span)
    ensures frame == FrameFor(job, span)
  {
    var h := HeaderFor(job, span);
    var sbuf := new byte[ETHERMTU](_ => 0);
    FillHeader(sbuf, h);
    var ptr := IP_HDR_LEN;
    MemCpy(sbuf, ptr, job.data[span.off..span.off + span.len]);
    ptr := ptr + span.len;
    assert sbuf[..ptr] == sbuf[..IP_HDR_LEN] + job.data[span.off..span.off + span.len];
    var ret, sent := EtherSend(job.smac, job.dmac, ETHERTYPE_IP, sbuf[..ptr]);
    frame := sent.value;
  }

  /** The header, its checksum computed over a zero field and then stored in it. */
  method FillHeader(sbuf: array<byte>, h: Header)
    requires sbuf.Length >= IP_HDR_LEN
    modifies sbuf
    ensures sbuf[..IP_HDR_LEN] == HeaderBytes(h)
  {
    ghost var pre, post := BeforeSum(h), IpBytes(h.src) + IpBytes(h.dst);
    MemCpy(sbuf, 0, BeforeSum(h));
    MemCpy(sbuf, 10, [0, 0]);
    MemCpy(sbuf, 12, IpBytes(h.src));
    MemCpy(sbuf, 16, IpBytes(h.dst));
    assert sbuf[..IP_HDR_LEN] == pre + [0, 0] + post;
    var sum := Checksum.Checksum(HOST, sbuf[..IP_HDR_LEN]);
    MemCpy(sbuf, 10, Store(HOST, sum));
    assert sbuf[..IP_HDR_LEN] == pre + Store(HOST, sum) + post;
  }

  method IpSendLink(mtu: nat, job: Job) returns (ret: int, wire: seq<seq<byte>>)
    requires IP_HDR_LEN <= mtu <= ETHERMTU
    requires job.df || Sendable(mtu, |job.data|)
    ensures job.df && |job.data| > mtu - IP_HDR_LEN ==> ret == -1 && wire == []
    ensures !(job.df && |job.data| > mtu - IP_HDR_LEN) ==>
              && ret == 0
              && Sendable(mtu, |job.data|) && AllWithin(job, Cut(mtu, |job.data|, 0))
              && wire == Frames(job, Cut(mtu, |job.data|, 0))
              && forall k :: 0 <= k < |wire| ==> SentOnWire(job, Cut(mtu, |job.data|, 0)[k], wire[k])
  {
    var len := |job.data|;
    if job.df && len > mtu - IP_HDR_LEN {
      return -1, [];
    }
    wire := [];
    ghost var sent: seq<Span> := [];
    var dptr, lest := 0, len;
    while lest > 0
      invariant 0 <= lest && 0 <= dptr && dptr + lest == len
      invariant sent + Cut(mtu, len, dptr) == Cut(mtu, len, 0)
      invariant AllWithin(job, sent) && wire == Frames(job, sent)
      decreases lest
    {
      ChunkBounds(mtu);
      var sendLen := if lest > mtu - IP_HDR_LEN then (mtu - IP_HDR_LEN) / 8 * 8 else lest;
      var span := Span(dptr, sendLen);
      assert sent + Cut(mtu, len, dptr) == (sent + [span]) + Cut(mtu, len, dptr + sendLen);
      var frame := SendFragment(job, span);
      FramesAppend(job, sent, span);
      wire := wire + [frame];
      sent := sent + [span];
      dptr := dptr + sendLen;
      lest := lest - sendLen;
    }
    assert sent == Cut(mtu, len, 0);
    WireBytes(job, sent);
    ret := 0;
  }

  lemma WireBytes(job: Job, spans: seq<Span>)
    requires AllWithin(job, spans)
    ensures forall k :: 0 <= k < |spans| ==> SentOnWire(job, spans[k], Frames(job, spans)[k])
  {
    forall k | 0 <= k < |spans|
      ensures SentOnWire(job, spans[k], Frames(job, spans)[k])
    {
      FrameBytesOf(job, spans[k]);
    }
  }

  lemma FramesAppend(job: Job, spans: seq<Span>, span: Span)
    requires AllWithin(job, spans) && Within(job, span)
    ensures AllWithin(job, spans + [span])
    ensures Frames(job, spans + [span]) == Frames(job, spans) + [FrameFor(job, span)]
  {
  }
}
