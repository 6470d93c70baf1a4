/** Reassembly stated on frames: what the receiving host makes of the bytes that arrive. */
module Wire {
  import opened Bytes
  import opened Ether
  import opened IpPacket
  import opened IpTable
  import opened IpTransport
  import opened Fragments
  import opened IpRoundTrip

  /** A frame and the time at which it is read. */
  datatype Arriving = Arriving(frame: seq<byte>, now: int)

  /** The frame contains the headers and the packet it announces. */
  predicate Readable(vmac: Mac, frame: seq<byte>) {
    |frame| >= ETHER_HDR_LEN &&
    match Dispatch(vmac, frame)
    case ToIp(data) => |data| >= IP_HDR_LEN ==> WellFramed(data)
    case _ => true
  }

  ghost predicate Takes(t: seq<Slot>, init: int, vmac: Mac, a: Arriving) {
    && Readable(vmac, a.frame)
    && match Received(vmac, a.frame) {
         case None => true
         case Some(p) => p.off + |p.body| <= BUF_SIZE && Place(t, init, p.id) != -1
       }
  }

  /** One frame: not for the host, not IP, badly summed, or a piece for the table. */
  ghost function FeedOne(t: seq<Slot>, init: int, vmac: Mac, a: Arriving): (r: (seq<Slot>, Option<Delivery>))
    requires Sized(t) && Takes(t, init, vmac, a)
    ensures Sized(r.0)
  {
    match Received(vmac, a.frame)
    case None => (t, None)
    case Some(p) => Receive(t, init, p, a.now)
  }

  ghost predicate Feedable(t: seq<Slot>, init: int, vmac: Mac, frames: seq<Arriving>)
    requires Sized(t)
    decreases |frames|
  {
    frames == [] ||
    (Takes(t, init, vmac, frames[0]) && Feedable(FeedOne(t, init, vmac, frames[0]).0, init, vmac, frames[1..]))
  }

  /** The table after all the frames, and what goes up with each. */
  ghost function Feed(t: seq<Slot>, init: int, vmac: Mac, frames: seq<Arriving>)
    : (r: (seq<Slot>, seq<Option<Delivery>>))
    requires Sized(t) && Feedable(t, init, vmac, frames)
    ensures Sized(r.0) && |r.1| == |frames|
    decreases |frames|
  {
    if frames == [] then (t, [])
    else
      var (t', up) := FeedOne(t, init, vmac, frames[0]);
      var (t'', ups) := Feed(t', init, vmac, frames[1..]);
      (t'', [up] + ups)
  }

  // ---------------------------------------------------------------------
  // Datagrams among any other traffic
  // ---------------------------------------------------------------------

  /** A frame stands for an event of the table, or for nothing the table sees. */
  ghost predicate StandsFor(vmac: Mac, a: Arriving, sign: Option<Event>) {
    && Readable(vmac, a.frame)
    && match sign {
         case None => Received(vmac, a.frame) == None
         case Some(e) => e.WellFormed() && e.now == a.now && Received(vmac, a.frame) == Some(e.ToPiece())
       }
  }

  /** A stretch of traffic in which the followed datagrams arrive as they must; see Orderly and Spares. */
  ghost predicate OrderlyTraffic(t: seq<Slot>, init: int, open: Open, vmac: Mac,
                                 frames: seq<Arriving>, signs: seq<Option<Event>>)
    requires Sized(t)
    decreases |frames|
  {
    && |signs| == |frames|
    && (frames == [] ||
        (&& StandsFor(vmac, frames[0], signs[0])
         && match signs[0] {
              case None => OrderlyTraffic(t, init, open, vmac, frames[1..], signs[1..])
              case Some(e) =>
                && Orderly(open, e) && Spares(t, init, open, e)
                && OrderlyTraffic(Step(t, init, e).0, init, After(open, e), vmac, frames[1..], signs[1..])
            }))
  }

  /** One frame does what the event it stands for does. */
  lemma SignStep(t: seq<Slot>, init: int, open: Open, vmac: Mac, a: Arriving, sign: Option<Event>)
    requires Tracks(t, open) && StandsFor(vmac, a, sign)
    requires sign.Some? ==> Orderly(open, sign.value) && Spares(t, init, open, sign.value)
    ensures Takes(t, init, vmac, a)
    ensures sign.None? ==> FeedOne(t, init, vmac, a) == (t, None)
    ensures sign.Some? ==>
              var (t', up) := FeedOne(t, init, vmac, a);
              && t' == Step(t, init, sign.value).0 && Tracks(t', After(open, sign.value))
              && (sign.value.Fragment? ==> up == sign.value.Expected())
  {
    if sign.Some? {
      StepTracks(t, init, open, sign.value);
    }
  }

  /**
    On the wire: among frames for other hosts, frames that are not IP, damaged packets and packets
    of other datagrams, every frame that carries a piece of a followed datagram hands up nothing,
    except its last piece, which hands up exactly the payload.
   */
  lemma {:induction false} TrafficDelivers(t: seq<Slot>, init: int, open: Open, vmac: Mac,
                                           frames: seq<Arriving>, signs: seq<Option<Event>>)
    requires Tracks(t, open) && OrderlyTraffic(t, init, open, vmac, frames, signs)
    ensures Feedable(t, init, vmac, frames)
    ensures forall i :: 0 <= i < |frames| && signs[i].Some? && signs[i].value.Fragment? ==>
                          Feed(t, init, vmac, frames).1[i] == signs[i].value.Expected()
    decreases |frames|
  {
    if frames != [] {
      SignStep(t, init, open, vmac, frames[0], signs[0]);
      var (t', up) := FeedOne(t, init, vmac, frames[0]);
      match signs[0] {
        case None => TrafficDelivers(t, init, open, vmac, frames[1..], signs[1..]);
        case Some(e) => TrafficDelivers(t', init, After(open, e), vmac, frames[1..], signs[1..]);
      }
      var ups := Feed(t', init, vmac, frames[1..]).1;
      assert Feed(t, init, vmac, frames).1 == [up] + ups;
      forall i | 0 <= i < |frames| && signs[i].Some? && signs[i].value.Fragment?
        ensures ([up] + ups)[i] == signs[i].value.Expected()
      {
        if i > 0 {
          assert signs[i] == signs[1..][i - 1];
        }
      }
    }
  }

  ghost predicate AllStandFor(vmac: Mac, frames: seq<Arriving>, es: seq<Event>) {
    |frames| == |es| && forall i :: 0 <= i < |es| ==> StandsFor(vmac, frames[i], Some(es[i]))
  }

  ghost function Signs(es: seq<Event>): (r: seq<Option<Event>>)
    ensures |r| == |es| && forall i :: 0 <= i < |es| ==> r[i] == Some(es[i])
  {
    seq(|es|, i requires 0 <= i < |es| => Some(es[i]))
  }

  /**
    Frames that stand for the events of a run are orderly exactly when the run is, and a frame that
    the table does not see can be put in front of any traffic.
   */
  lemma {:induction false} OrderlyTrafficIff(t: seq<Slot>, init: int, open: Open, vmac: Mac,
                                             frames: seq<Arriving>, es: seq<Event>)
    requires Sized(t) && AllStandFor(vmac, frames, es)
    ensures OrderlyTraffic(t, init, open, vmac, frames, Signs(es)) <==> OrderlyRun(t, init, open, es)
    decreases |es|
  {
    if es != [] {
      assert StandsFor(vmac, frames[0], Some(es[0]));
      assert Signs(es)[1..] == Signs(es[1..]);
      if Orderly(open, es[0]) && Spares(t, init, open, es[0]) {
        var t' := Step(t, init, es[0]).0;
        OrderlyTrafficIff(t', init, After(open, es[0]), vmac, frames[1..], es[1..]);
      }
    }
  }

  /** Frames the table does not see, by position: for another host, of another type, or too short. */
  lemma Unseen(vmac: Mac, frame: seq<byte>)
    requires |frame| >= 14
    requires || (Num(frame, 0, 6) != vmac && Num(frame, 0, 6) != 0xFFFF_FFFF_FFFF)
             || Num(frame, 12, 2) != 0x0800 || |frame| < 34
    ensures Readable(vmac, frame) && Received(vmac, frame) == None
  {
    DispatchByPosition(vmac, frame);
  }

  lemma OtherFrameFirst(t: seq<Slot>, init: int, open: Open, vmac: Mac, a: Arriving,
                        frames: seq<Arriving>, signs: seq<Option<Event>>)
    requires Sized(t) && Readable(vmac, a.frame) && Received(vmac, a.frame) == None
    ensures OrderlyTraffic(t, init, open, vmac, [a] + frames, [None] + signs)
            <==> OrderlyTraffic(t, init, open, vmac, frames, signs)
  {
    assert ([a] + frames)[1..] == frames;
    assert ([None] + signs)[1..] == signs;
  }

  // ---------------------------------------------------------------------
  // The frames of one datagram
  // ---------------------------------------------------------------------

  /** A frame that IpSendLink sends stands for its fragment. */
  lemma OwnFrameStandsFor(mtu: nat, job: Job, k: nat, vmac: Mac, now: int)
    requires Proper(mtu, job) && k < |Spans(mtu, job)| && Reaches(vmac, job.dmac) && job.reading == WithOffset
    ensures Within(job, Spans(mtu, job)[k])
    ensures StandsFor(vmac, Arriving(FrameFor(job, Spans(mtu, job)[k]), now), Some(Arrival(mtu, job, k, now)))
  {
    FragmentArrives(mtu, job, k, vmac, now);
    FrameFits(mtu, job, k);
  }

  /** The table and the deliveries of frames are those of the events they stand for. */
  lemma {:induction false} FeedIsRun(t: seq<Slot>, init: int, open: Open, vmac: Mac,
                                     frames: seq<Arriving>, es: seq<Event>)
    requires Sized(t) && OrderlyRun(t, init, open, es) && |frames| == |es|
    requires forall i :: 0 <= i < |es| ==> StandsFor(vmac, frames[i], Some(es[i]))
    ensures Feedable(t, init, vmac, frames) && Feed(t, init, vmac, frames) == Run(t, init, open, es)
    decreases |es|
  {
    if es != [] {
      assert StandsFor(vmac, frames[0], Some(es[0]));
      FeedIsRun(Step(t, init, es[0]).0, init, After(open, es[0]), vmac, frames[1..], es[1..]);
    }
  }

  /** The frames of a wire as they arrive: frame order[i] at time nows[i]. */
  ghost function Shuffled(wire: seq<seq<byte>>, order: seq<nat>, nows: seq<int>): (r: seq<Arriving>)
    requires |order| == |nows| && forall i :: 0 <= i < |order| ==> order[i] < |wire|
    ensures |r| == |order|
  {
    seq(|order|, i requires 0 <= i < |order| => Arriving(wire[order[i]], nows[i]))
  }

  /** The hypotheses of the round trip: who receives, into which table, in which order. */
  ghost predicate Delivered(mtu: nat, job: Job, vmac: Mac, t: seq<Slot>, init: int, order: seq<nat>, nows: seq<int>) {
    && Proper(mtu, job) && job.reading == WithOffset && Reaches(vmac, job.dmac)
    && Sized(t) && Unique(t) && Place(t, init, job.env.id) != -1
    && LastOneLast(order, |Spans(mtu, job)|) && |nows| == |order|
  }

  /**
    The round trip on bytes: the frames that IpSendLink puts on the wire, read in any order with
    repeats and the last fragment last, hand up nothing before the end and then exactly the payload;
    the slot is freed.
   */
  lemma FramesDeliver(mtu: nat, job: Job, vmac: Mac, t: seq<Slot>, init: int, order: seq<nat>, nows: seq<int>)
    requires Delivered(mtu, job, vmac, t, init, order, nows)
    ensures AllWithin(job, Spans(mtu, job))
    ensures var frames := Shuffled(Frames(job, Spans(mtu, job)), order, nows);
            && Feedable(t, init, vmac, frames)
            && var (t', ups) := Feed(t, init, vmac, frames);
               && (forall i :: 0 <= i < |order| - 1 ==> ups[i] == None)
               && ups[|order| - 1] == Upper(job.env.proto, job.env.src, job.env.dst, job.data)
               && !Live(t', job.env.id)
  {
    RoundTrip(mtu, job, vmac, t, init, order, nows);
    var frames, es := Shuffled(Frames(job, Spans(mtu, job)), order, nows), Arrivals(mtu, job, order, nows);
    forall i | 0 <= i < |es|
      ensures StandsFor(vmac, frames[i], Some(es[i]))
    {
      OwnFrameStandsFor(mtu, job, order[i], vmac, nows[i]);
    }
    FeedIsRun(t, init, map[], vmac, frames, es);
  }
}
