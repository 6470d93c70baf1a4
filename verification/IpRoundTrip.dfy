/** From IpSendLink on one host to the delivery by IpRecv on another. */
module IpRoundTrip {
  import opened Bytes
  import opened Ether
  import opened IpPacket
  import opened IpTable
  import opened Checksum
  import opened IpTransport
  import opened Fragments

  // ---------------------------------------------------------------------
  // On the wire
  // ---------------------------------------------------------------------

  /** The piece a host with address vmac takes out of a frame, if it accepts it as an IP packet. */
  function Received(vmac: Mac, frame: seq<byte>): Option<Piece>
    requires |frame| >= ETHER_HDR_LEN
  {
    match Dispatch(vmac, frame)
    case ToIp(data) =>
      if |data| >= IP_HDR_LEN && WellFramed(data) && HeaderPasses(data) then Some(Parse(data)) else None
    case _ => None
  }

  /**
    Reception by position, of frames from any stack: fourteen bytes for this host or for all, of
    type 0x0800, then a packet with or without options. It is refused exactly when the word sum of
    header and options is not divisible by 65535; otherwise the piece is what the header says.
   */
  lemma ReceivedOnWire(vmac: Mac, ether: seq<byte>, hdr: seq<byte>, options: seq<byte>, body: seq<byte>,
                       padding: seq<byte>)
    requires |ether| == 14 && Num(ether, 12, 2) == 0x0800
    requires |hdr| == 20 && |options| == (if hdr[0] % 16 > 5 then hdr[0] % 16 * 4 - 20 else 0)
    requires Num(hdr, 2, 2) == hdr[0] % 16 * 4 + |body|
    ensures var frame := ether + (hdr + options + body + padding);
            Received(vmac, frame) ==
            if Num(ether, 0, 6) !in {vmac as int, 0xFFFF_FFFF_FFFF} then None
            else if ExactSum(Big, hdr + options) % 0xFFFF != 0 then None
            else Some(PieceOnWire(hdr, body))
  {
    var data := hdr + options + body + padding;
    var frame := ether + data;
    assert frame[..14] == ether && frame[14..] == data;
    NumShift(frame, 0, ether, 0, 6);
    NumShift(frame, 0, ether, 12, 2);
    NumMac(frame, 0);
    NumWord(frame, 12);
    PacketParses(hdr, options, body, padding);
  }

  predicate Reaches(vmac: Mac, dmac: Mac) {
    dmac == vmac || dmac == BCAST_MAC
  }

  /** What the header of a fragment says about it. */
  function PieceFor(job: Job, span: Span): Piece
    requires Within(job, span)
  {
    var h := HeaderFor(job, span);
    Piece(h.id, h.frag % OFF_RANGE * 8, h.frag / IP_MF % 2 == 1, h.proto, h.src, h.dst,
          job.data[span.off..span.off + span.len])
  }

  /** Framed, padded, unframed and parsed, a fragment is what its header says. */
  lemma FrameReceivedAs(job: Job, span: Span, vmac: Mac)
    requires Within(job, span) && Reaches(vmac, job.dmac)
    ensures Received(vmac, FrameFor(job, span)) == Some(PieceFor(job, span))
  {
    var h := HeaderFor(job, span);
    var body := job.data[span.off..span.off + span.len];
    var packet := PacketFor(job, span);
    FrameReceived(job.smac, job.dmac, ETHERTYPE_IP, packet, vmac);
    SentPacketParses(h, body, Zeros(Padding(|packet|)));
    assert HeaderBytes(h) + body + Zeros(Padding(|packet|)) == packet + Zeros(Padding(|packet|));
  }

  /** No fragment is refused by EtherSend: its packet fits the MTU and its frame has a legal size. */
  lemma FrameFits(mtu: nat, job: Job, k: nat)
    requires Proper(mtu, job) && k < |Spans(mtu, job)|
    ensures Within(job, Spans(mtu, job)[k])
    ensures |PacketFor(job, Spans(mtu, job)[k])| <= mtu
    ensures ETH_ZLEN <= |FrameFor(job, Spans(mtu, job)[k])| <= ETHER_HDR_LEN + ETHERMTU
  {
    OffsetsFit(mtu, |job.data|, k);
    FrameReceived(job.smac, job.dmac, ETHERTYPE_IP, PacketFor(job, Spans(mtu, job)[k]), job.dmac);
  }

  /** The datagram a call of IpSendLink sends. */
  function Sent(job: Job): Datagram {
    Datagram(job.env.id, job.env.proto, job.env.src, job.env.dst, job.data)
  }

  ghost predicate Proper(mtu: nat, job: Job) {
    && Sendable(mtu, |job.data|) && 0 < |job.data| <= BUF_SIZE
    && (job.df ==> |job.data| <= mtu - IP_HDR_LEN)
  }

  function Spans(mtu: nat, job: Job): seq<Span>
    requires Sendable(mtu, |job.data|)
  {
    Cut(mtu, |job.data|, 0)
  }

  /** The k-th fragment arriving, as an event of the receiving table. */
  ghost function Arrival(mtu: nat, job: Job, k: nat, now: int): (e: Event)
    requires Proper(mtu, job) && k < |Spans(mtu, job)|
    ensures e.Fragment? && e.WellFormed() && (e.Last() <==> k == |Spans(mtu, job)| - 1)
  {
    OffsetsFit(mtu, |job.data|, k);
    Fragment(Sent(job), Spans(mtu, job)[k].off, Spans(mtu, job)[k].len, now)
  }

  lemma SingleFragment(mtu: nat, job: Job)
    requires Proper(mtu, job) && |job.data| <= mtu - IP_HDR_LEN
    ensures |Spans(mtu, job)| == 1 && Spans(mtu, job)[0].off == 0
  {
  }

  /** With the offset in the field, every fragment arrives as the piece of the payload it is. */
  lemma FragmentArrives(mtu: nat, job: Job, k: nat, vmac: Mac, now: int)
    requires Proper(mtu, job) && k < |Spans(mtu, job)| && Reaches(vmac, job.dmac)
    requires job.reading == WithOffset
    ensures Within(job, Spans(mtu, job)[k])
    ensures Received(vmac, FrameFor(job, Spans(mtu, job)[k])) == Some(Arrival(mtu, job, k, now).ToPiece())
  {
    PieceIsArrival(mtu, job, k, now);
    FrameReceivedAs(job, Spans(mtu, job)[k], vmac);
  }

  lemma PieceIsArrival(mtu: nat, job: Job, k: nat, now: int)
    requires Proper(mtu, job) && k < |Spans(mtu, job)| && job.reading == WithOffset
    ensures Within(job, Spans(mtu, job)[k])
    ensures PieceFor(job, Spans(mtu, job)[k]) == Arrival(mtu, job, k, now).ToPiece()
  {
    var span := Spans(mtu, job)[k];
    OffsetsFit(mtu, |job.data|, k);
    if job.df {
      SingleFragment(mtu, job);
    }
    FieldDecodes(job.reading, job.df, span.off + span.len < |job.data|, span.off);
  }

  lemma FieldDecodes(reading: MfField, df: bool, more: bool, off: nat)
    requires off % 8 == 0 && off / 8 < OFF_RANGE
    requires df ==> off == 0 && !more
    requires more && reading == AsWritten ==> off == 0
    ensures var f := FragField(reading, df, more, off / 8);
            f % OFF_RANGE * 8 == off && (f / IP_MF % 2 == 1 <==> more)
  {
  }

  // ---------------------------------------------------------------------
  // One datagram, any order
  // ---------------------------------------------------------------------

  /** Every fragment arrives, some perhaps more than once, the last one once and at the end. */
  ghost predicate LastOneLast(order: seq<nat>, n: nat) {
    && |order| > 0
    && (forall i :: 0 <= i < |order| ==> order[i] < n && (order[i] == n - 1 <==> i == |order| - 1))
    && (forall k :: 0 <= k < n ==> k in order)
  }

  ghost function Arrivals(mtu: nat, job: Job, order: seq<nat>, nows: seq<int>): (es: seq<Event>)
    requires Proper(mtu, job) && LastOneLast(order, |Spans(mtu, job)|) && |nows| == |order|
    ensures |es| == |order|
  {
    seq(|order|, i requires 0 <= i < |order| => Arrival(mtu, job, order[i], nows[i]))
  }

  ghost predicate Covered(open: Open, id: int, es: seq<Event>, k: int) {
    || (id in open && k in open[id].got)
    || exists i :: 0 <= i < |es| && es[i].Fragment? && k in Range(es[i].off, es[i].len)
  }

  /** The remaining arrivals up to the last piece of one datagram, the only one followed, among others. */
  ghost predicate UpToLastPiece(open: Open, dg: Datagram, es: seq<Event>) {
    && open.Keys <= {dg.id} && (dg.id in open ==> open[dg.id].dg == dg)
    && (forall i :: 0 <= i < |es| ==>
          && es[i].WellFormed()
          && (es[i].Fragment? ==> es[i].dg == dg && (es[i].Last() <==> i == |es| - 1))
          && (es[i].Other? ==> es[i].piece.id != dg.id && i < |es| - 1))
    && (es != [] ==> forall k :: 0 <= k < |dg.payload| ==> Covered(open, dg.id, es, k))
  }

  ghost predicate OneDatagram(open: Open, dg: Datagram, es: seq<Event>) {
    UpToLastPiece(open, dg, es) && forall i :: 0 <= i < |es| ==> es[i].Fragment?
  }

  lemma CoverageMoves(open: Open, dg: Datagram, es: seq<Event>)
    requires UpToLastPiece(open, dg, es) && es != []
    ensures Orderly(open, es[0])
    ensures UpToLastPiece(After(open, es[0]), dg, es[1..])
  {
    var open', rest := After(open, es[0]), es[1..];
    if rest == [] {
      forall k | k in Range(0, |dg.payload|)
        ensures k in Got(open, es[0])
      {
        assert Covered(open, dg.id, es, k);
      }
    } else {
      forall k | 0 <= k < |dg.payload|
        ensures Covered(open', dg.id, rest, k)
      {
        CoveredLater(open, dg, es, k);
      }
    }
  }

  lemma CoveredLater(open: Open, dg: Datagram, es: seq<Event>, k: int)
    requires UpToLastPiece(open, dg, es) && |es| > 1 && 0 <= k < |dg.payload|
    ensures Covered(After(open, es[0]), dg.id, es[1..], k)
  {
    assert Covered(open, dg.id, es, k);
    if (dg.id in open ==> k !in open[dg.id].got) && !(es[0].Fragment? && k in Range(es[0].off, es[0].len)) {
      var i :| 0 <= i < |es| && es[i].Fragment? && k in Range(es[i].off, es[i].len);
      assert es[i] == es[1..][i - 1];
    }
  }

  lemma {:induction false} OneDatagramRun(t: seq<Slot>, init: int, open: Open, dg: Datagram, es: seq<Event>)
    requires Tracks(t, open) && OneDatagram(open, dg, es)
    requires es != [] ==> Place(t, init, dg.id) != -1
    ensures OrderlyRun(t, init, open, es)
    ensures var t' := Run(t, init, open, es).0;
            && (es != [] ==> !Live(t', dg.id))
            && forall i :: 0 <= i < |t| && es != [] && i != Place(t, init, dg.id) ==> t'[i] == t[i]
    decreases |es|
  {
    if es != [] {
      CoverageMoves(open, dg, es);
      var p, now := es[0].ToPiece(), es[0].now;
      StepTracks(t, init, open, es[0]);
      ReceiveKeepsUnique(t, init, p, now);
      OwnSlotAfter(t, init, p, now);
      var t' := Step(t, init, es[0]).0;
      if es[1..] != [] {
        FoundWhereItIs(t', Place(t, init, dg.id));
      }
      OneDatagramRun(t', init, After(open, es[0]), dg, es[1..]);
    }
  }

  lemma ArrivalsAreOneDatagram(mtu: nat, job: Job, order: seq<nat>, nows: seq<int>)
    requires Proper(mtu, job) && LastOneLast(order, |Spans(mtu, job)|) && |nows| == |order|
    ensures OneDatagram(map[], Sent(job), Arrivals(mtu, job, order, nows))
  {
    var es := Arrivals(mtu, job, order, nows);
    forall k | 0 <= k < |job.data|
      ensures Covered(map[], job.env.id, es, k)
    {
      var j := CutCovers(mtu, |job.data|, 0, k);
      assert j in order;
      var i :| 0 <= i < |order| && order[i] == j;
      assert k in Range(es[i].off, es[i].len);
    }
  }

  /**
    The round trip of section 3.2 of RFC 791. Take any payload the buffers can hold, any MTU the
    sender can work with, and any receiving table in which the first fragment finds a slot. When
    the frames of IpSendLink arrive in any order, repeats allowed, with the last fragment last,
    nothing goes up before the end and then exactly the payload does, whatever bytes the buffer
    held before; the slot is freed and no other slot is touched.
   */
  lemma RoundTrip(mtu: nat, job: Job, vmac: Mac, t: seq<Slot>, init: int, order: seq<nat>, nows: seq<int>)
    requires Proper(mtu, job) && job.reading == WithOffset && Reaches(vmac, job.dmac)
    requires Sized(t) && Unique(t) && Place(t, init, job.env.id) != -1
    requires LastOneLast(order, |Spans(mtu, job)|) && |nows| == |order|
    ensures AllWithin(job, Spans(mtu, job))
    ensures var es := Arrivals(mtu, job, order, nows);
            && (forall i :: 0 <= i < |order| ==>
                  Received(vmac, FrameFor(job, Spans(mtu, job)[order[i]])) == Some(es[i].ToPiece()))
            && OrderlyRun(t, init, map[], es)
            && var (t', ups) := Run(t, init, map[], es);
               && (forall i :: 0 <= i < |order| - 1 ==> ups[i] == None)
               && ups[|order| - 1] == Upper(job.env.proto, job.env.src, job.env.dst, job.data)
               && !Live(t', job.env.id)
               && (forall i :: 0 <= i < |t| && i != Place(t, init, job.env.id) ==> t'[i] == t[i])
  {
    var es := Arrivals(mtu, job, order, nows);
    forall k | 0 <= k < |Spans(mtu, job)|
      ensures Within(job, Spans(mtu, job)[k])
    {
      OffsetsFit(mtu, |job.data|, k);
    }
    forall i | 0 <= i < |order|
      ensures Received(vmac, FrameFor(job, Spans(mtu, job)[order[i]])) == Some(es[i].ToPiece())
    {
      FragmentArrives(mtu, job, order[i], vmac, nows[i]);
    }
    ArrivalsAreOneDatagram(mtu, job, order, nows);
    OneDatagramRun(t, init, map[], Sent(job), es);
    RunDelivers(t, init, map[], es);
    assert forall i :: 0 <= i < |order| ==> Run(t, init, map[], es).1[i] == es[i].Expected();
  }
}
