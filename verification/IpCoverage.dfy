/**
  IpRecv delivers on the first fragment without IP_MF, whether or not the others have come. The
  exact condition under which that is right.
 */
module IpCoverage {
  import opened Bytes
  import opened IpPacket
  import opened IpTable
  import opened IpTransport
  import opened Fragments
  import opened IpRoundTrip
  import opened IpAsWritten

  /** Fragments arriving up to the first arrival of the last one. */
  ghost predicate UpToLast(order: seq<nat>, n: nat) {
    |order| > 0 && forall i :: 0 <= i < |order| ==> order[i] < n && (order[i] == n - 1 <==> i == |order| - 1)
  }

  ghost function ArrivedPieces(mtu: nat, job: Job, order: seq<nat>, nows: seq<int>): (es: seq<Event>)
    requires Proper(mtu, job) && UpToLast(order, |Spans(mtu, job)|) && |nows| == |order|
    ensures |es| == |order|
  {
    seq(|order|, i requires 0 <= i < |order| => Other(Arrival(mtu, job, order[i], nows[i]).ToPiece(), nows[i]))
  }

  /** The run is possible and its last arrival hands up the payload. */
  ghost predicate DeliversAfter(mtu: nat, job: Job, t: seq<Slot>, init: int, order: seq<nat>, nows: seq<int>)
    requires Proper(mtu, job) && Sized(t) && UpToLast(order, |Spans(mtu, job)|) && |nows| == |order|
  {
    var es := ArrivedPieces(mtu, job, order, nows);
    && OrderlyRun(t, init, map[], es)
    && Run(t, init, map[], es).1[|es| - 1] == Upper(job.env.proto, job.env.src, job.env.dst, job.data)
  }

  /** Fragments are in order and do not overlap. */
  lemma {:induction false} SpansApart(mtu: nat, job: Job, i: nat, k: nat)
    requires Proper(mtu, job) && i < k < |Spans(mtu, job)|
    ensures Spans(mtu, job)[i].off + Spans(mtu, job)[i].len <= Spans(mtu, job)[k].off
    decreases k
  {
    CutShape(mtu, |job.data|, 0);
    assert Joins(Spans(mtu, job), k - 1, |job.data|);
    if i < k - 1 {
      SpansApart(mtu, job, i, k - 1);
    }
  }

  /** The first byte of a fragment that never came is written by no other. */
  lemma MissingFragment(mtu: nat, job: Job, order: seq<nat>, nows: seq<int>, k: nat)
    requires Proper(mtu, job) && UpToLast(order, |Spans(mtu, job)|) && |nows| == |order|
    requires k < |Spans(mtu, job)| && k !in order
    ensures Spans(mtu, job)[k].off < |job.data|
    ensures MissingRun(ArrivedPieces(mtu, job, order, nows), Spans(mtu, job)[k].off)
  {
    var n, c, es := |Spans(mtu, job)|, Spans(mtu, job)[k].off, ArrivedPieces(mtu, job, order, nows);
    OffsetsFit(mtu, |job.data|, k);
    assert order[|order| - 1] == n - 1;
    forall i | 0 <= i < |es|
      ensures Misses(es[i].piece, c)
    {
      assert order[i] in order;
      if order[i] < k {
        SpansApart(mtu, job, order[i], k);
      } else {
        SpansApart(mtu, job, k, order[i]);
      }
    }
    SpansApart(mtu, job, k, n - 1);
    OffsetsFit(mtu, |job.data|, n - 1);
  }

  lemma IncompleteFails(mtu: nat, job: Job, init: int, order: seq<nat>, nows: seq<int>, k: nat) returns (t: seq<Slot>)
    requires Proper(mtu, job) && UpToLast(order, |Spans(mtu, job)|) && |nows| == |order|
    requires job.env.proto == IPPROTO_ICMP || job.env.proto == IPPROTO_UDP
    requires k < |Spans(mtu, job)| && k !in order
    ensures Ready(t, job.env.id) && !DeliversAfter(mtu, job, t, init, order, nows)
  {
    MissingFragment(mtu, job, order, nows, k);
    var es, c := ArrivedPieces(mtu, job, order, nows), Spans(mtu, job)[k].off;
    var b: byte := (job.data[c] as int + 1) % 0x100;
    t := FreshTable(b);
    if OrderlyRun(t, init, map[], es) {
      StaleByteDelivered(t, init, es, c, b);
    }
  }

  lemma CompleteDelivers(mtu: nat, job: Job, t: seq<Slot>, init: int, order: seq<nat>, nows: seq<int>)
    requires Proper(mtu, job) && LastOneLast(order, |Spans(mtu, job)|) && |nows| == |order|
    requires Ready(t, job.env.id)
    ensures DeliversAfter(mtu, job, t, init, order, nows)
  {
    InOrderDelivers(mtu, job, t, init, order, nows);
    SamePiecesSameRun(t, init, map[], Arrivals(mtu, job, order, nows), ArrivedPieces(mtu, job, order, nows));
  }

  /**
    With offsets as meant, the first arrival of the last fragment makes IpRecv deliver what was
    sent, whatever the buffers held, exactly when every other fragment has arrived before it.
   */
  lemma LastFragmentDeliversIff(mtu: nat, job: Job, init: int, order: seq<nat>, nows: seq<int>)
    requires Proper(mtu, job) && UpToLast(order, |Spans(mtu, job)|) && |nows| == |order|
    requires job.env.proto == IPPROTO_ICMP || job.env.proto == IPPROTO_UDP
    ensures (forall t: seq<Slot> :: Ready(t, job.env.id) ==> DeliversAfter(mtu, job, t, init, order, nows))
            <==> (forall k :: 0 <= k < |Spans(mtu, job)| ==> k in order)
  {
    if forall k :: 0 <= k < |Spans(mtu, job)| ==> k in order {
      forall t: seq<Slot> | Ready(t, job.env.id)
        ensures DeliversAfter(mtu, job, t, init, order, nows)
      {
        CompleteDelivers(mtu, job, t, init, order, nows);
      }
    } else {
      var k :| 0 <= k < |Spans(mtu, job)| && k !in order;
      var t := IncompleteFails(mtu, job, init, order, nows, k);
    }
  }
}
