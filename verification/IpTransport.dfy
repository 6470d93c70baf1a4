/**
  What the reassembly table guarantees over whole runs: every datagram whose pieces all arrive,
  the last one last, is handed up exactly, whatever else arrives in between and whatever bytes
  the buffers held before.
 */
module IpTransport {
  import opened Bytes
  import opened Ether
  import opened IpPacket
  import opened IpTable
  import Slots

  // ---------------------------------------------------------------------
  // Invariants of the table operations
  // ---------------------------------------------------------------------

  ghost predicate Live(t: seq<Slot>, id: int) {
    id != -1 && FindId(t, id) != -1
  }

  /** In a table without repeated ids an id is found in the one slot that holds it. */
  lemma FoundWhereItIs(t: seq<Slot>, i: nat)
    requires Unique(t) && i < |t| && t[i].id != -1
    ensures FindId(t, t[i].id) == i
  {
  }

  /**
    IpRecvBufAdd: afterwards id has a slot, still the only one. Every other live id keeps its
    slot untouched unless the table is full, and then only one with the least creation time goes.
   */
  lemma AddKeepsOthers(t: seq<Slot>, init: int, id: word, now: int)
    requires Unique(t) && Place(t, init, id) != -1
    ensures var t' := AddTo(t, init, id, now);
            var no := Place(t, init, id);
            && Unique(t') && t'[no].id == id && t'[no].data == t[no].data
            && (forall i :: 0 <= i < |t| && i != no ==> t'[i] == t[i])
            && (t[no].id == id ==> t' == t)
            && (t[no].id != id ==> t'[no].timestamp == now && t'[no].len == 0)
            && (t[no].id != id && t[no].id != -1 ==>
                  forall i :: 0 <= i < |t| ==> t[i].id != -1 && t[no].timestamp <= t[i].timestamp)
  {
  }

  /** Since an id has at most one slot, IpRecvBufDel removes it completely and nothing else. */
  lemma DeleteRemoves(t: seq<Slot>, id: word)
    requires Unique(t)
    ensures var t' := DeleteFrom(t, id);
            && Unique(t') && !Live(t', id)
            && forall i :: 0 <= i < |t| && t[i].id != id ==> t'[i] == t[i]
  {
  }

  /** Receiving one piece gives no id a second slot and touches one slot at most. */
  lemma ReceiveKeepsUnique(t: seq<Slot>, init: int, p: Piece, now: int)
    requires Sized(t) && Unique(t) && p.off + |p.body| <= BUF_SIZE && Place(t, init, p.id) != -1
    ensures Unique(Receive(t, init, p, now).0)
    ensures forall i :: 0 <= i < |t| && i != Place(t, init, p.id) ==> Receive(t, init, p, now).0[i] == t[i]
  {
    AddKeepsOthers(t, init, p.id, now);
    var no := Place(t, init, p.id);
    var t1 := AddTo(t, init, p.id, now);
    var t2 := t1[no := t1[no].(data := Overlay(t1[no].data, p.off, p.body))];
    if !p.more {
      var t3 := t2[no := t2[no].(len := p.off + |p.body|)];
      FoundWhereItIs(t3, no);
      DeleteRemoves(t3, p.id);
    }
  }

  /**
    What goes up: nothing while more is to follow and nothing of other protocols; with the last
    piece of an ICMP or UDP datagram the bytes of its buffer up to the end of the piece. The last
    piece frees the slot in any case.
   */
  lemma UpOnlyTo(t: seq<Slot>, init: int, p: Piece, now: int)
    requires Sized(t) && Unique(t) && p.off + |p.body| <= BUF_SIZE && Place(t, init, p.id) != -1
    ensures var no, (t', up) := Place(t, init, p.id), Receive(t, init, p, now);
            && (up.Some? <==> !p.more && p.proto in {1, 17})
            && (up.Some? ==> up.value == Delivery(p.proto, p.src, p.dst, t'[no].data[..p.off + |p.body|]))
            && (!p.more ==> !Live(t', p.id))
            && t'[no].data == Overlay(t[no].data, p.off, p.body)
  {
    AddKeepsOthers(t, init, p.id, now);
    OwnSlotAfter(t, init, p, now);
  }

  // ---------------------------------------------------------------------
  // The literal sentinel
  // ---------------------------------------------------------------------

  /**
    When IpRecvBufAdd finds a slot at all. Started from ULONG_MAX converted to a signed time_t
    it does so exactly when the id is present or a slot is free: nothing is ever evicted, and a
    full table sends the store to index -1. Started above every timestamp it always does.
   */
  lemma PlacedIff(t: seq<Slot>, init: int, id: word)
    requires |t| == IP_RECV_BUF_NO && forall i :: 0 <= i < |t| ==> t[i].timestamp >= 0
    ensures init == ULONG_MAX_IN_TIME_T ==> (Place(t, init, id) != -1 <==> Live(t, id) || LastFree(t) != -1)
    ensures (forall i :: 0 <= i < |t| ==> t[i].timestamp < init) ==> Place(t, init, id) != -1
  {
    if LastFree(t) == -1 {
      assert t[0].id != -1;
    }
  }

  // ---------------------------------------------------------------------
  // Datagrams and events
  // ---------------------------------------------------------------------

  datatype Datagram = Datagram(id: word, proto: byte, src: Ip, dst: Ip, payload: seq<byte>)

  /** A piece of a followed datagram, from byte off on for len bytes, or any other packet. */
  datatype Event =
    | Fragment(dg: Datagram, off: nat, len: nat, now: int)
    | Other(piece: Piece, now: int)
  {
    ghost predicate WellFormed() {
      match this
      case Fragment(dg, off, len, _) => off + len <= |dg.payload| <= BUF_SIZE
      case Other(p, _) => p.off + |p.body| <= BUF_SIZE
    }

    ghost predicate Last()
      requires Fragment?
    {
      off + len == |dg.payload|
    }

    ghost function ToPiece(): (p: Piece)
      requires WellFormed()
      ensures p.off + |p.body| <= BUF_SIZE
    {
      match this
      case Fragment(dg, off, len, _) =>
        Piece(dg.id, off, !Last(), dg.proto, dg.src, dg.dst, dg.payload[off..off + len])
      case Other(p, _) => p
    }

    /** What must go up: the whole payload with the last piece, nothing before. */
    ghost function Expected(): Option<Delivery>
      requires Fragment?
    {
      if Last() then Upper(dg.proto, dg.src, dg.dst, dg.payload) else None
    }
  }

  /** A datagram under way and the byte positions that have arrived. */
  datatype Progress = Progress(dg: Datagram, got: set<int>)

  type Open = map<int, Progress>

  ghost function Range(off: nat, len: nat): (r: set<int>)
    ensures forall k :: k in r <==> off <= k < off + len
  {
    if len == 0 then {} else Range(off, len - 1) + {off + len - 1}
  }

  ghost function Got(open: Open, e: Event): set<int>
    requires e.Fragment?
  {
    (if e.dg.id in open then open[e.dg.id].got else {}) + Range(e.off, e.len)
  }

  ghost function After(open: Open, e: Event): Open {
    if e.Other? then open
    else if e.off + e.len == |e.dg.payload| then open - {e.dg.id}
    else open[e.dg.id := Progress(e.dg, Got(open, e))]
  }

  /**
    The hypotheses on one arrival: a followed id is used by one datagram at a time, its last piece
    comes when all other bytes are there, and other packets carry other ids.
   */
  ghost predicate Orderly(open: Open, e: Event) {
    && e.WellFormed()
    && (e.Fragment? ==>
          && (e.dg.id in open ==> open[e.dg.id].dg == e.dg)
          && (e.Last() ==> Range(0, |e.dg.payload|) <= Got(open, e)))
    && (e.Other? ==> e.piece.id !in open)
  }

  /** The arrival finds a slot without evicting a followed datagram. */
  ghost predicate Spares(t: seq<Slot>, init: int, open: Open, e: Event)
    requires e.WellFormed()
  {
    var no := Place(t, init, e.ToPiece().id);
    no != -1 && (t[no].id in open ==> t[no].id == e.ToPiece().id)
  }

  /** Every followed datagram has a slot whose buffer agrees with it wherever a byte has arrived. */
  ghost predicate Tracks(t: seq<Slot>, open: Open) {
    && Sized(t) && Unique(t)
    && forall id :: id in open ==> Holds(t, id, open[id])
  }

  ghost predicate Holds(t: seq<Slot>, id: int, p: Progress) {
    var s := FindId(t, id);
    && id != -1 && s != -1
    && forall k :: k in p.got ==> 0 <= k < |p.dg.payload| && k < |t[s].data| && t[s].data[k] == p.dg.payload[k]
  }

  ghost function Step(t: seq<Slot>, init: int, e: Event): (seq<Slot>, Option<Delivery>)
    requires Sized(t) && e.WellFormed() && Place(t, init, e.ToPiece().id) != -1
  {
    Receive(t, init, e.ToPiece(), e.now)
  }

  // ---------------------------------------------------------------------
  // One arrival
  // ---------------------------------------------------------------------

  /** The bytes of the slot written agree with the datagram wherever a piece of it has been written. */
  lemma WrittenBytes(t: seq<Slot>, init: int, open: Open, e: Event)
    requires Tracks(t, open) && Orderly(open, e) && e.Fragment?
    requires Place(t, init, e.dg.id) != -1
    ensures var no := Place(t, init, e.dg.id);
            var data := Overlay(AddTo(t, init, e.dg.id, e.now)[no].data, e.off, e.ToPiece().body);
            forall k :: k in Got(open, e) ==> 0 <= k < |e.dg.payload| && data[k] == e.dg.payload[k]
  {
    var no := Place(t, init, e.dg.id);
    AddKeepsOthers(t, init, e.dg.id, e.now);
    if e.dg.id in open {
      assert Holds(t, e.dg.id, open[e.dg.id]);
      assert no == FindId(t, e.dg.id);
    }
  }

  /** Slots that the arrival does not settle on keep what they hold. */
  lemma OthersHeld(t: seq<Slot>, init: int, open: Open, e: Event, id: int)
    requires Tracks(t, open) && e.WellFormed() && Spares(t, init, open, e)
    requires id in open && id != e.ToPiece().id
    ensures Holds(Step(t, init, e).0, id, open[id])
  {
    var p := e.ToPiece();
    ReceiveKeepsUnique(t, init, p, e.now);
    assert Holds(t, id, open[id]);
    var s := FindId(t, id);
    assert s != Place(t, init, p.id);
    FoundWhereItIs(Step(t, init, e).0, s);
  }

  lemma OwnSlotAfter(t: seq<Slot>, init: int, p: Piece, now: int)
    requires Sized(t) && Unique(t) && p.off + |p.body| <= BUF_SIZE && Place(t, init, p.id) != -1
    ensures var no := Place(t, init, p.id);
            var data := Overlay(AddTo(t, init, p.id, now)[no].data, p.off, p.body);
            var (t', up) := Receive(t, init, p, now);
            && t'[no].data == data
            && (p.more ==> t'[no].id == p.id && up == None)
            && (!p.more ==> !Live(t', p.id) && up == Upper(p.proto, p.src, p.dst, data[..p.off + |p.body|]))
  {
    AddKeepsOthers(t, init, p.id, now);
    var no := Place(t, init, p.id);
    var t1 := AddTo(t, init, p.id, now);
    var t2 := t1[no := t1[no].(data := Overlay(t1[no].data, p.off, p.body))];
    if !p.more {
      var t3 := t2[no := t2[no].(len := p.off + |p.body|)];
      FoundWhereItIs(t3, no);
      DeleteRemoves(t3, p.id);
    }
  }

  /** One arrival keeps the correspondence and hands up exactly what it should. */
  lemma StepTracks(t: seq<Slot>, init: int, open: Open, e: Event)
    requires Tracks(t, open) && Orderly(open, e) && Spares(t, init, open, e)
    ensures Tracks(Step(t, init, e).0, After(open, e))
    ensures e.Fragment? ==> Step(t, init, e).1 == e.Expected()
  {
    var p := e.ToPiece();
    var (t', up) := Step(t, init, e);
    ReceiveKeepsUnique(t, init, p, e.now);
    forall id | id in open && id != p.id
      ensures Holds(t', id, open[id])
    {
      OthersHeld(t, init, open, e, id);
    }
    if e.Fragment? {
      WrittenBytes(t, init, open, e);
      OwnSlotAfter(t, init, p, e.now);
      if e.Last() {
        WholeDelivered(t, init, open, e);
      } else {
        FoundWhereItIs(t', Place(t, init, p.id));
        assert Holds(t', p.id, Progress(e.dg, Got(open, e)));
      }
    }
  }

  lemma WholeDelivered(t: seq<Slot>, init: int, open: Open, e: Event)
    requires Tracks(t, open) && Orderly(open, e) && Spares(t, init, open, e)
    requires e.Fragment? && e.Last()
    ensures Step(t, init, e).1 == e.Expected()
  {
    var p := e.ToPiece();
    var no := Place(t, init, p.id);
    var data := Overlay(AddTo(t, init, p.id, e.now)[no].data, p.off, p.body);
    OwnSlotAfter(t, init, p, e.now);
    WrittenBytes(t, init, open, e);
    forall k | 0 <= k < |e.dg.payload|
      ensures data[k] == e.dg.payload[k]
    {
      assert k in Range(0, |e.dg.payload|);
    }
    assert data[..|e.dg.payload|] == e.dg.payload;
  }

  // ---------------------------------------------------------------------
  // Whole runs
  // ---------------------------------------------------------------------

  /** Every arrival of the run is orderly and evicts no followed datagram. */
  ghost predicate OrderlyRun(t: seq<Slot>, init: int, open: Open, es: seq<Event>)
    requires Sized(t)
    decreases |es|
  {
    es == [] ||
    (&& Orderly(open, es[0]) && Spares(t, init, open, es[0])
     && OrderlyRun(Step(t, init, es[0]).0, init, After(open, es[0]), es[1..]))
  }

  /** The table and the deliveries of a run. */
  ghost function Run(t: seq<Slot>, init: int, open: Open, es: seq<Event>): (r: (seq<Slot>, seq<Option<Delivery>>))
    requires Sized(t) && OrderlyRun(t, init, open, es)
    ensures Sized(r.0) && |r.1| == |es|
    decreases |es|
  {
    if es == [] then (t, [])
    else
      var (t', up) := Step(t, init, es[0]);
      var (t'', ups) := Run(t', init, After(open, es[0]), es[1..]);
      (t'', [up] + ups)
  }

  lemma LastOfRun(t: seq<Slot>, init: int, open: Open, es: seq<Event>)
    requires Sized(t) && OrderlyRun(t, init, open, es) && |es| > 1
    ensures Run(t, init, open, es).1[|es| - 1] ==
            Run(Step(t, init, es[0]).0, init, After(open, es[0]), es[1..]).1[|es| - 2]
  {
  }

  ghost function AfterAll(open: Open, es: seq<Event>): Open
    decreases |es|
  {
    if es == [] then open else AfterAll(After(open, es[0]), es[1..])
  }

  /**
    The main theorem on reassembly. Whatever the table held, whatever other packets arrive, in
    whatever order (and however often repeated) the pieces of the followed datagrams come, each
    arrival of a piece hands up nothing, except the last of its datagram, which hands up exactly
    the payload.
   */
  lemma {:induction false} RunDelivers(t: seq<Slot>, init: int, open: Open, es: seq<Event>)
    requires Tracks(t, open) && OrderlyRun(t, init, open, es)
    ensures Tracks(Run(t, init, open, es).0, AfterAll(open, es))
    ensures forall i :: 0 <= i < |es| && es[i].Fragment? ==> Run(t, init, open, es).1[i] == es[i].Expected()
    decreases |es|
  {
    if es != [] {
      StepTracks(t, init, open, es[0]);
      RunDelivers(Step(t, init, es[0]).0, init, After(open, es[0]), es[1..]);
      var ups := Run(t, init, open, es).1;
      forall i | 0 <= i < |es| && es[i].Fragment?
        ensures ups[i] == es[i].Expected()
      {
        if i > 0 {
          assert es[i] == es[1..][i - 1];
        }
      }
    }
  }

  // ---------------------------------------------------------------------
  // Sixteen open datagrams fit
  // ---------------------------------------------------------------------

  ghost function LiveIds(t: seq<Slot>): (r: set<int>)
    ensures forall id :: id in r <==> Live(t, id)
  {
    Slots.KeySet(Ids(t), -1, |t|)
  }

  lemma FullTableCount(t: seq<Slot>)
    requires Unique(t) && LastFree(t) == -1
    ensures |LiveIds(t)| == |t|
  {
    assert Slots.Distinct(Ids(t), -1);
    Slots.FullCount(Ids(t), -1, |t|);
  }

  /** The table holds exactly the open datagrams. */
  ghost predicate Mirrors(t: seq<Slot>, open: Open) {
    Tracks(t, open) && LiveIds(t) == open.Keys
  }

  /** An arrival among datagrams that are never more than sixteen. */
  ghost predicate Fits(open: Open, e: Event) {
    e.Fragment? && Orderly(open, e) && (e.dg.id in open || |open| < IP_RECV_BUF_NO)
  }

  ghost predicate FitsRun(open: Open, es: seq<Event>)
    decreases |es|
  {
    es == [] || (Fits(open, es[0]) && FitsRun(After(open, es[0]), es[1..]))
  }

  lemma FitsSpares(t: seq<Slot>, init: int, open: Open, e: Event)
    requires Mirrors(t, open) && Fits(open, e)
    ensures Spares(t, init, open, e)
    ensures var no := Place(t, init, e.dg.id); t[no].id == -1 || t[no].id == e.dg.id
  {
    if LastFree(t) == -1 {
      FullTableCount(t);
      assert |open.Keys| == |open| == IP_RECV_BUF_NO;
    }
  }

  lemma StepMirrors(t: seq<Slot>, init: int, open: Open, e: Event)
    requires Mirrors(t, open) && Fits(open, e)
    ensures Spares(t, init, open, e)
    ensures Mirrors(Step(t, init, e).0, After(open, e))
  {
    FitsSpares(t, init, open, e);
    StepTracks(t, init, open, e);
    var t' := Step(t, init, e).0;
    forall id: int
      ensures id in LiveIds(t') <==> id in After(open, e).Keys
    {
      StepLiveness(t, init, open, e, id);
    }
  }

  lemma StepLiveness(t: seq<Slot>, init: int, open: Open, e: Event, id: int)
    requires Mirrors(t, open) && Fits(open, e)
    ensures Spares(t, init, open, e)
    ensures Live(Step(t, init, e).0, id) <==> id in After(open, e)
  {
    var p := e.ToPiece();
    var no := Place(t, init, p.id);
    FitsSpares(t, init, open, e);
    var t' := Step(t, init, e).0;
    ReceiveKeepsUnique(t, init, p, e.now);
    OwnSlotAfter(t, init, p, e.now);
    if id != p.id {
      assert t'[no].id == p.id || t'[no].id == -1 by { SlotIdAfter(t, init, p, e.now); }
      if id != -1 {
        SameLiveness(t, t', no, id);
      }
    } else if p.more {
      FoundWhereItIs(t', no);
    }
  }

  lemma SlotIdAfter(t: seq<Slot>, init: int, p: Piece, now: int)
    requires Sized(t) && Unique(t) && p.off + |p.body| <= BUF_SIZE && Place(t, init, p.id) != -1
    ensures var id := Receive(t, init, p, now).0[Place(t, init, p.id)].id; id == p.id || id == -1
  {
    AddKeepsOthers(t, init, p.id, now);
  }

  /** Changing one slot concerns only the ids that were or are in it. */
  lemma SameLiveness(t: seq<Slot>, t': seq<Slot>, no: nat, id: int)
    requires |t| == |t'| && no < |t| && Unique(t) && Unique(t')
    requires forall i :: 0 <= i < |t| && i != no ==> t'[i] == t[i]
    ensures id != t[no].id && id != t'[no].id ==> (Live(t, id) <==> Live(t', id))
    ensures id == t'[no].id != -1 ==> Live(t', id)
  {
    if Live(t, id) && id != t[no].id {
      FoundWhereItIs(t', FindId(t, id));
    }
  }

  lemma {:induction false} RunFits(t: seq<Slot>, init: int, open: Open, es: seq<Event>)
    requires Mirrors(t, open) && FitsRun(open, es)
    ensures OrderlyRun(t, init, open, es)
    ensures Mirrors(Run(t, init, open, es).0, AfterAll(open, es))
    decreases |es|
  {
    if es != [] {
      StepMirrors(t, init, open, es[0]);
      RunFits(Step(t, init, es[0]).0, init, After(open, es[0]), es[1..]);
    }
  }

  /**
    From a table all of whose slots are free (as IpRecvBufInit leaves it) any interleaving of any
    number of datagrams with never more than sixteen open at a time is reassembled exactly, no
    datagram seeing a byte of another, and the slots in use at the end are those of the datagrams
    still open. No slot is ever evicted, so the literal sentinel is as good as the intended one.
   */
  lemma InterleavedDatagrams(t: seq<Slot>, init: int, es: seq<Event>)
    requires Sized(t) && (forall i :: 0 <= i < |t| ==> t[i].id == -1)
    requires FitsRun(map[], es)
    ensures OrderlyRun(t, init, map[], es)
    ensures forall i :: 0 <= i < |es| ==> es[i].Fragment? && Run(t, init, map[], es).1[i] == es[i].Expected()
    ensures LiveIds(Run(t, init, map[], es).0) == AfterAll(map[], es).Keys
  {
    var open: Open := map[];
    forall id: int
      ensures id !in LiveIds(t)
    {
    }
    RunFits(t, init, open, es);
    RunDelivers(t, init, open, es);
    AllFragments(open, es);
  }

  lemma {:induction false} AllFragments(open: Open, es: seq<Event>)
    requires FitsRun(open, es)
    ensures forall i :: 0 <= i < |es| ==> es[i].Fragment?
    decreases |es|
  {
    if es != [] {
      AllFragments(After(open, es[0]), es[1..]);
      forall i | 0 < i < |es|
        ensures es[i].Fragment?
      {
        assert es[i] == es[1..][i - 1];
      }
    }
  }
}
