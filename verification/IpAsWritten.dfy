/**
  IpSendLink exactly as written: a fragment with more to follow carries IP_MF without its offset.
  The round trip then holds for every receiving table precisely when at most two fragments are sent.
 */
module IpAsWritten {
  import opened Bytes
  import opened Ether
  import opened IpPacket
  import opened IpTable
  import opened IpTransport
  import opened Fragments
  import opened IpRoundTrip

  /** What the k-th fragment looks like to the receiver. */
  ghost function WrittenPiece(mtu: nat, job: Job, k: nat): (p: Piece)
    requires Proper(mtu, job) && k < |Spans(mtu, job)|
    ensures p.id == job.env.id && p.off + |p.body| <= BUF_SIZE
    ensures p.more <==> k < |Spans(mtu, job)| - 1
  {
    var span := Spans(mtu, job)[k];
    OffsetsFit(mtu, |job.data|, k);
    var more := k < |Spans(mtu, job)| - 1;
    Piece(job.env.id, if more then 0 else span.off, more, job.env.proto, job.env.src, job.env.dst,
          job.data[span.off..span.off + span.len])
  }

  /** The k-th frame on the wire really arrives as that piece. */
  lemma WrittenFragmentArrives(mtu: nat, job: Job, k: nat, vmac: Mac)
    requires Proper(mtu, job) && job.reading == AsWritten && k < |Spans(mtu, job)| && Reaches(vmac, job.dmac)
    ensures Within(job, Spans(mtu, job)[k])
    ensures Received(vmac, FrameFor(job, Spans(mtu, job)[k])) == Some(WrittenPiece(mtu, job, k))
  {
    PieceIsWritten(mtu, job, k);
    FrameReceivedAs(job, Spans(mtu, job)[k], vmac);
  }

  lemma PieceIsWritten(mtu: nat, job: Job, k: nat)
    requires Proper(mtu, job) && job.reading == AsWritten && k < |Spans(mtu, job)|
    ensures Within(job, Spans(mtu, job)[k])
    ensures PieceFor(job, Spans(mtu, job)[k]) == WrittenPiece(mtu, job, k)
  {
    var span := Spans(mtu, job)[k];
    OffsetsFit(mtu, |job.data|, k);
    if job.df {
      SingleFragment(mtu, job);
    }
    var more := span.off + span.len < |job.data|;
    FieldDecodes(job.reading, job.df, more, if more then 0 else span.off);
  }

  /** All the fragments, in the order they are sent. */
  ghost function WrittenRun(mtu: nat, job: Job): (es: seq<Event>)
    requires Proper(mtu, job)
    ensures |es| == |Spans(mtu, job)|
  {
    seq(|Spans(mtu, job)|, k requires 0 <= k < |Spans(mtu, job)| => Other(WrittenPiece(mtu, job, k), 0))
  }

  /** The run is possible and its last arrival hands up the payload. */
  ghost predicate Delivers(mtu: nat, job: Job, t: seq<Slot>, init: int)
    requires Proper(mtu, job) && Sized(t)
  {
    var es := WrittenRun(mtu, job);
    && OrderlyRun(t, init, map[], es)
    && |es| > 0
    && Run(t, init, map[], es).1[|es| - 1] == Upper(job.env.proto, job.env.src, job.env.dst, job.data)
  }

  /** A table that can take a new datagram. */
  ghost predicate Ready(t: seq<Slot>, id: word) {
    Sized(t) && Unique(t) && !Live(t, id) && LastFree(t) != -1
  }

  ghost predicate SamePieces(es: seq<Event>, es': seq<Event>) {
    |es| == |es'| &&
    forall i :: 0 <= i < |es| ==>
                  es[i].WellFormed() && es'[i].Other? && es'[i].piece == es[i].ToPiece() && es'[i].now == es[i].now
  }

  /** The table and the deliveries depend on the pieces that arrive, not on what is followed. */
  lemma {:induction false} SamePiecesSameRun(t: seq<Slot>, init: int, open: Open, es: seq<Event>, es': seq<Event>)
    requires Sized(t) && OrderlyRun(t, init, open, es) && SamePieces(es, es')
    ensures OrderlyRun(t, init, map[], es')
    ensures Run(t, init, map[], es') == Run(t, init, open, es)
    decreases |es|
  {
    if es != [] {
      var t' := Step(t, init, es[0]).0;
      SamePiecesSameRun(t', init, After(open, es[0]), es[1..], es'[1..]);
    }
  }

  lemma WrittenAsMeant(mtu: nat, job: Job, k: nat)
    requires Proper(mtu, job) && |Spans(mtu, job)| <= 2 && k < |Spans(mtu, job)|
    ensures Arrival(mtu, job, k, 0).ToPiece() == WrittenPiece(mtu, job, k)
  {
    OffsetsFit(mtu, |job.data|, k);
    CutShape(mtu, |job.data|, 0);
  }

  lemma SendingOrder(mtu: nat, job: Job) returns (order: seq<nat>, nows: seq<int>)
    requires Proper(mtu, job) && |Spans(mtu, job)| <= 2
    ensures |order| == |nows| == |Spans(mtu, job)| && LastOneLast(order, |order|)
    ensures forall k :: 0 <= k < |order| ==> order[k] == k && nows[k] == 0
  {
    CutShape(mtu, |job.data|, 0);
    order := if |Spans(mtu, job)| == 1 then [0] else [0, 1];
    nows := if |Spans(mtu, job)| == 1 then [0] else [0, 0];
    assert order[0] == 0 && (|order| == 2 ==> order[1] == 1);
  }

  lemma WrittenRunAsMeant(mtu: nat, job: Job, order: seq<nat>, nows: seq<int>)
    requires Proper(mtu, job) && |Spans(mtu, job)| <= 2
    requires |order| == |nows| == |Spans(mtu, job)| && LastOneLast(order, |order|)
    requires forall k :: 0 <= k < |order| ==> order[k] == k && nows[k] == 0
    ensures SamePieces(Arrivals(mtu, job, order, nows), WrittenRun(mtu, job))
  {
    forall k | 0 <= k < |order|
      ensures Arrival(mtu, job, k, 0).ToPiece() == WrittenPiece(mtu, job, k)
    {
      WrittenAsMeant(mtu, job, k);
    }
  }

  lemma TwoFragmentsDeliver(mtu: nat, job: Job, t: seq<Slot>, init: int)
    requires Proper(mtu, job) && |Spans(mtu, job)| <= 2 && Ready(t, job.env.id)
    ensures Delivers(mtu, job, t, init)
  {
    var order, nows := SendingOrder(mtu, job);
    InOrderDelivers(mtu, job, t, init, order, nows);
    WrittenRunAsMeant(mtu, job, order, nows);
    SamePiecesSameRun(t, init, map[], Arrivals(mtu, job, order, nows), WrittenRun(mtu, job));
  }

  lemma InOrderDelivers(mtu: nat, job: Job, t: seq<Slot>, init: int, order: seq<nat>, nows: seq<int>)
    requires Proper(mtu, job) && Ready(t, job.env.id)
    requires LastOneLast(order, |Spans(mtu, job)|) && |nows| == |order|
    ensures var es := Arrivals(mtu, job, order, nows);
            && OrderlyRun(t, init, map[], es)
            && Run(t, init, map[], es).1[|es| - 1] == Upper(job.env.proto, job.env.src, job.env.dst, job.data)
  {
    var es := Arrivals(mtu, job, order, nows);
    ArrivalsAreOneDatagram(mtu, job, order, nows);
    OneDatagramRun(t, init, map[], Sent(job), es);
    RunDelivers(t, init, map[], es);
    assert Run(t, init, map[], es).1[|es| - 1] == es[|es| - 1].Expected();
  }

  // ---------------------------------------------------------------------
  // Three fragments or more: a stale byte shows through
  // ---------------------------------------------------------------------

  ghost predicate AllHave(t: seq<Slot>, c: nat, b: byte) {
    forall i :: 0 <= i < |t| ==> c < |t[i].data| && t[i].data[c] == b
  }

  ghost predicate ShowsStale(up: Option<Delivery>, c: nat, b: byte) {
    up.Some? ==> c < |up.value.data| && up.value.data[c] == b
  }

  ghost predicate Misses(p: Piece, c: nat) {
    p.off + |p.body| <= c || c < p.off
  }

  lemma StaleByteStays(t: seq<Slot>, init: int, p: Piece, now: int, c: nat, b: byte)
    requires Sized(t) && p.off + |p.body| <= BUF_SIZE && Place(t, init, p.id) != -1
    requires AllHave(t, c, b) && Misses(p, c)
    ensures AllHave(Receive(t, init, p, now).0, c, b)
    ensures !p.more && c < p.off + |p.body| ==> ShowsStale(Receive(t, init, p, now).1, c, b)
  {
    var t1 := AddTo(t, init, p.id, now);
    assert AllHave(t1, c, b);
    var no := Place(t, init, p.id);
    var t2 := t1[no := t1[no].(data := Overlay(t1[no].data, p.off, p.body))];
    assert AllHave(t2, c, b);
  }

  /** A run of pieces that all miss byte c, ending with the last piece of a datagram beyond c. */
  ghost predicate MissingRun(es: seq<Event>, c: nat) {
    && |es| > 0 && Ends(es[|es| - 1], c)
    && forall i :: 0 <= i < |es| ==> es[i].Other? && Misses(es[i].piece, c)
  }

  lemma MissingRest(es: seq<Event>, c: nat)
    requires MissingRun(es, c) && |es| > 1
    ensures MissingRun(es[1..], c)
  {
    assert es[1..][|es| - 2] == es[|es| - 1];
  }

  lemma {:induction false} StaleByteDelivered(t: seq<Slot>, init: int, es: seq<Event>, c: nat, b: byte)
    requires Sized(t) && AllHave(t, c, b) && OrderlyRun(t, init, map[], es) && MissingRun(es, c)
    ensures ShowsStale(Run(t, init, map[], es).1[|es| - 1], c, b)
    decreases |es|
  {
    StaleByteStays(t, init, es[0].piece, es[0].now, c, b);
    if |es| > 1 {
      LastOfRun(t, init, map[], es);
      MissingRest(es, c);
      StaleByteDelivered(Step(t, init, es[0]).0, init, es[1..], c, b);
    }
  }

  ghost predicate Ends(e: Event, c: nat) {
    e.Other? && !e.piece.more && c < e.piece.off + |e.piece.body|
  }

  /** A fresh table whose buffers hold the byte b throughout. */
  ghost function FreshTable(b: byte): (t: seq<Slot>)
    ensures Ready(t, 0) && forall id: word :: Ready(t, id)
    ensures forall c :: 0 <= c < BUF_SIZE ==> AllHave(t, c, b)
  {
    seq(IP_RECV_BUF_NO, _ => Slot(0, -1, seq(BUF_SIZE, _ => b), 0))
  }

  lemma ThreeFragmentsFail(mtu: nat, job: Job, init: int) returns (t: seq<Slot>)
    requires Proper(mtu, job) && |Spans(mtu, job)| > 2
    requires job.env.proto == IPPROTO_ICMP || job.env.proto == IPPROTO_UDP
    ensures Ready(t, job.env.id) && !Delivers(mtu, job, t, init)
  {
    var es, c := WrittenRun(mtu, job), Chunk(mtu);
    SecondChunkMissed(mtu, job);
    var b: byte := (job.data[c] as int + 1) % 0x100;
    t := FreshTable(b);
    if OrderlyRun(t, init, map[], es) {
      StaleByteDelivered(t, init, es, c, b);
    }
  }

  /** No fragment is written where the second one belongs. */
  lemma SecondChunkMissed(mtu: nat, job: Job)
    requires Proper(mtu, job) && |Spans(mtu, job)| > 2
    ensures var es, c := WrittenRun(mtu, job), Chunk(mtu);
            c < |job.data| && MissingRun(es, c)
  {
    var n := |Spans(mtu, job)|;
    CutShape(mtu, |job.data|, 0);
    assert Cut(mtu, |job.data|, 0)[n - 1] == Cut(mtu, |job.data|, Chunk(mtu))[n - 2];
    LaterStart(mtu, |job.data|, Chunk(mtu), n - 2);
    OffsetsFit(mtu, |job.data|, n - 1);
  }

  /** Every fragment but the first starts at least a chunk further on. */
  lemma {:induction false} LaterStart(mtu: nat, len: nat, off: nat, k: nat)
    requires Sendable(mtu, len) && off <= len && 0 < k < |Cut(mtu, len, off)|
    ensures Cut(mtu, len, off)[k].off >= off + Chunk(mtu)
    decreases k
  {
    var next := off + Chunk(mtu);
    assert Cut(mtu, len, off)[k] == Cut(mtu, len, next)[k - 1];
    if k > 1 {
      LaterStart(mtu, len, next, k - 1);
    }
  }

  lemma AtMostTwoIff(mtu: nat, job: Job)
    requires Proper(mtu, job)
    ensures |Spans(mtu, job)| <= 2 <==> |job.data| <= mtu - IP_HDR_LEN + Chunk(mtu)
  {
    var len, c := |job.data|, Chunk(mtu);
    if len > mtu - IP_HDR_LEN {
      ChunkBounds(mtu);
      assert Spans(mtu, job) == [Span(0, c)] + Cut(mtu, len, c);
      if len - c > mtu - IP_HDR_LEN {
        assert Cut(mtu, len, c) == [Span(c, c)] + Cut(mtu, len, c + c);
        CutShape(mtu, len, c + c);
      }
    }
  }

  /**
    Exactly when the code as written delivers what was sent, whatever the receiving buffers held:
    when the payload needs at most two fragments.
   */
  lemma AsWrittenDeliversIff(mtu: nat, job: Job, init: int)
    requires Proper(mtu, job)
    requires job.env.proto == IPPROTO_ICMP || job.env.proto == IPPROTO_UDP
    ensures (forall t: seq<Slot> :: Ready(t, job.env.id) ==> Delivers(mtu, job, t, init))
            <==> |job.data| <= mtu - IP_HDR_LEN + Chunk(mtu)
  {
    AtMostTwoIff(mtu, job);
    if |Spans(mtu, job)| <= 2 {
      forall t: seq<Slot> | Ready(t, job.env.id)
        ensures Delivers(mtu, job, t, init)
      {
        TwoFragmentsDeliver(mtu, job, t, init);
      }
    } else {
      var t := ThreeFragmentsFail(mtu, job, init);
    }
  }
}
