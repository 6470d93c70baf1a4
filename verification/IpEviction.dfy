/**
  The reassembly table evicts when it is full. With the search for the oldest slot started above
  every timestamp, a datagram under way is safe until sixteen other packets have taken a slot.
 */
module IpEviction {
  import opened Bytes
  import opened IpPacket
  import opened IpTable
  import opened IpTransport
  import opened IpRoundTrip
  import Slots

  /** All timestamps, those in the table and those to come, are below the value the search starts from. */
  ghost predicate Roomy(t: seq<Slot>, init: int, es: seq<Event>) {
    && Sized(t)
    && (forall i :: 0 <= i < |t| && t[i].id != -1 ==> t[i].timestamp < init)
    && (forall i :: 0 <= i < |es| ==> es[i].WellFormed() && es[i].now < init)
  }

  lemma RoomyStep(t: seq<Slot>, init: int, es: seq<Event>)
    requires Roomy(t, init, es) && es != []
    ensures Place(t, init, es[0].ToPiece().id) != -1
    ensures Roomy(Step(t, init, es[0]).0, init, es[1..])
  {
    if LastFree(t) == -1 {
      assert t[0].timestamp < init;
    }
  }

  /** How many arrivals take a slot: those of an id that has none. */
  ghost function Takings(t: seq<Slot>, init: int, es: seq<Event>): nat
    requires Roomy(t, init, es)
    decreases |es|
  {
    if es == [] then 0
    else
      RoomyStep(t, init, es);
      (if Live(t, es[0].ToPiece().id) then 0 else 1) + Takings(Step(t, init, es[0]).0, init, es[1..])
  }

  ghost function TableAfter(t: seq<Slot>, init: int, es: seq<Event>): (t': seq<Slot>)
    requires Roomy(t, init, es)
    decreases |es|
  {
    if es == [] then t
    else
      RoomyStep(t, init, es);
      TableAfter(Step(t, init, es[0]).0, init, es[1..])
  }

  // ---------------------------------------------------------------------
  // Rivals
  // ---------------------------------------------------------------------

  ghost predicate Rival(t: seq<Slot>, s: int, j: int)
    requires 0 <= s < |t|
  {
    0 <= j < |t| && j != s && t[j].id != -1 && t[j].timestamp >= t[s].timestamp
  }

  /** The other slots in use that are no older than slot s: it goes only after all others are. */
  ghost function Rivals(t: seq<Slot>, s: int): (r: set<int>)
    requires 0 <= s < |t|
    ensures forall j :: j in r <==> Rival(t, s, j)
  {
    set j | 0 <= j < |t| && Rival(t, s, j)
  }

  lemma {:induction false} RangeSize(off: nat, len: nat)
    ensures |Range(off, len)| == len
  {
    if len > 0 {
      RangeSize(off, len - 1);
    }
  }

  lemma SameSizeSubset(a: set<int>, b: set<int>)
    requires a <= b && |a| == |b|
    ensures a == b
  {
    assert b == a + (b - a);
  }

  ghost function OtherSlots(n: nat, s: nat): (r: set<int>)
    requires s < n
    ensures |r| == n - 1 && forall j :: j in r <==> 0 <= j < n && j != s
  {
    RangeSize(0, n);
    Range(0, n) - {s}
  }

  /** There are at most fifteen rivals, and fifteen exactly when every other slot is one. */
  lemma RivalCount(t: seq<Slot>, s: int)
    requires |t| == IP_RECV_BUF_NO && 0 <= s < |t|
    ensures |Rivals(t, s)| < IP_RECV_BUF_NO
    ensures |Rivals(t, s)| == IP_RECV_BUF_NO - 1 <==> forall j :: 0 <= j < |t| && j != s ==> Rival(t, s, j)
  {
    var rivals, others := Rivals(t, s), OtherSlots(|t|, s);
    assert rivals <= others;
    Slots.SubsetSize(rivals, others);
    assert (forall j :: 0 <= j < |t| && j != s ==> Rival(t, s, j)) ==> rivals == others;
    if |rivals| == |others| {
      SameSizeSubset(rivals, others);
      assert forall j :: 0 <= j < |t| && j != s ==> j in others;
    }
  }

  /** A slot is taken away only when every other slot is in use and no older. */
  lemma TakenOnlyAfterOthers(t: seq<Slot>, init: int, s: int, id: word)
    requires |t| == IP_RECV_BUF_NO && 0 <= s < |t| && t[s].id != -1
    requires !Live(t, id) && Place(t, init, id) == s
    ensures |Rivals(t, s)| == IP_RECV_BUF_NO - 1
  {
    RivalCount(t, s);
  }

  /** An arrival that settles on another slot leaves slot s alone and makes at most that slot a rival. */
  lemma RivalsAfter(t: seq<Slot>, init: int, s: int, p: Piece, now: int)
    requires Sized(t) && Unique(t) && 0 <= s < |t| && t[s].id != -1
    requires p.off + |p.body| <= BUF_SIZE && Place(t, init, p.id) != -1
    requires Place(t, init, p.id) != s
    ensures var t' := Receive(t, init, p, now).0;
            && Unique(t') && t'[s] == t[s] && FindId(t', t[s].id) == s
            && Rivals(t', s) <= Rivals(t, s) + (if Live(t, p.id) then {} else {Place(t, init, p.id)})
  {
    ReceiveKeepsUnique(t, init, p, now);
    var t' := Receive(t, init, p, now).0;
    FoundWhereItIs(t', s);
    if Live(t, p.id) {
      SlotStays(t, init, p, now);
    }
  }

  /** A piece of an id that has a slot moves no timestamp and frees at most that slot. */
  lemma SlotStays(t: seq<Slot>, init: int, p: Piece, now: int)
    requires Sized(t) && Unique(t) && p.off + |p.body| <= BUF_SIZE && Live(t, p.id)
    ensures var no, t' := FindId(t, p.id), Receive(t, init, p, now).0;
            && t'[no].timestamp == t[no].timestamp && t'[no].id == if p.more then p.id else -1
  {
    AddKeepsOthers(t, init, p.id, now);
    var no := Place(t, init, p.id);
    if !p.more {
      var t3 := t[no := t[no].(data := Overlay(t[no].data, p.off, p.body), len := p.off + |p.body|)];
      FoundWhereItIs(t3, no);
    }
  }

  lemma SmallUnion(a: set<int>, b: set<int>, x: int)
    requires a <= b + {x}
    ensures |a| <= |b| + 1
  {
    Slots.SubsetSize(a, b + {x});
    assert |b + {x}| <= |b| + 1;
  }

  /** Rivals and takings together: no arrival of another id raises their sum. */
  lemma OtherArrival(t: seq<Slot>, init: int, s: int, es: seq<Event>)
    requires Roomy(t, init, es) && es != [] && Unique(t) && 0 <= s < |t| && t[s].id != -1
    requires es[0].ToPiece().id != t[s].id
    requires |Rivals(t, s)| + Takings(t, init, es) < IP_RECV_BUF_NO
    ensures Place(t, init, es[0].ToPiece().id) != -1 && Place(t, init, es[0].ToPiece().id) != s
    ensures var t' := Step(t, init, es[0]).0;
            && Unique(t') && t'[s] == t[s] && FindId(t', t[s].id) == s
            && Roomy(t', init, es[1..])
            && |Rivals(t', s)| + Takings(t', init, es[1..]) < IP_RECV_BUF_NO
  {
    var p := es[0].ToPiece();
    RoomyStep(t, init, es);
    if Place(t, init, p.id) == s {
      TakenOnlyAfterOthers(t, init, s, p.id);
    }
    RivalsAfter(t, init, s, p, es[0].now);
    var t' := Step(t, init, es[0]).0;
    if Live(t, p.id) {
      Slots.SubsetSize(Rivals(t', s), Rivals(t, s));
    } else {
      SmallUnion(Rivals(t', s), Rivals(t, s), Place(t, init, p.id));
    }
  }

  // ---------------------------------------------------------------------
  // A datagram survives to its last piece
  // ---------------------------------------------------------------------

  /** A piece of the followed datagram that is not its last moves no timestamp and frees no slot. */
  lemma OwnArrival(t: seq<Slot>, init: int, s: int, es: seq<Event>)
    requires Roomy(t, init, es) && es != [] && Unique(t) && 0 <= s < |t| && t[s].id != -1
    requires es[0].ToPiece().id == t[s].id && es[0].ToPiece().more
    requires |Rivals(t, s)| + Takings(t, init, es) < IP_RECV_BUF_NO
    ensures Place(t, init, es[0].ToPiece().id) == s
    ensures var t' := Step(t, init, es[0]).0;
            && Unique(t') && FindId(t', t[s].id) == s && Roomy(t', init, es[1..])
            && |Rivals(t', s)| + Takings(t', init, es[1..]) < IP_RECV_BUF_NO
  {
    var p := es[0].ToPiece();
    RoomyStep(t, init, es);
    FoundWhereItIs(t, s);
    ReceiveKeepsUnique(t, init, p, es[0].now);
    SlotStays(t, init, p, es[0].now);
    var t' := Step(t, init, es[0]).0;
    FoundWhereItIs(t', s);
    assert Rivals(t', s) == Rivals(t, s);
  }

  /**
    A datagram under way in slot s meets no eviction up to its last piece when the slots that are no
    older and the slots taken meanwhile are together fewer than sixteen. Pieces of other datagrams
    are among the other packets.
   */
  lemma {:induction false} SparedToLastPiece(t: seq<Slot>, init: int, open: Open, dg: Datagram, es: seq<Event>)
    requires Tracks(t, open) && dg.id in open && UpToLastPiece(open, dg, es) && Roomy(t, init, es)
    requires |Rivals(t, FindId(t, dg.id))| + Takings(t, init, es) < IP_RECV_BUF_NO
    ensures OrderlyRun(t, init, open, es)
    decreases |es|
  {
    if es != [] {
      var s, p := FindId(t, dg.id), es[0].ToPiece();
      assert Holds(t, dg.id, open[dg.id]);
      CoverageMoves(open, dg, es);
      RoomyStep(t, init, es);
      if es[0].Other? {
        OtherArrival(t, init, s, es);
      } else if !es[0].Last() {
        OwnArrival(t, init, s, es);
      }
      StepTracks(t, init, open, es[0]);
      if es[0].Other? || !es[0].Last() {
        SparedToLastPiece(Step(t, init, es[0]).0, init, After(open, es[0]), dg, es[1..]);
      }
    }
  }

  /** A new datagram, later than everything in the table, has no rival. */
  lemma OpenedWithoutRivals(t: seq<Slot>, init: int, p: Piece, now: int)
    requires Sized(t) && Unique(t) && p.off + |p.body| <= BUF_SIZE && Place(t, init, p.id) != -1
    requires !Live(t, p.id) && p.more
    requires forall i :: 0 <= i < |t| && t[i].id != -1 ==> t[i].timestamp < now
    ensures var t' := Receive(t, init, p, now).0;
            && FindId(t', p.id) != -1 && t'[FindId(t', p.id)].timestamp == now
            && Rivals(t', FindId(t', p.id)) == {}
  {
    AddKeepsOthers(t, init, p.id, now);
    ReceiveKeepsUnique(t, init, p, now);
    FoundWhereItIs(Receive(t, init, p, now).0, Place(t, init, p.id));
  }

  /** The arrivals of one new datagram among others, from its first piece to its last. */
  ghost predicate Opens(t: seq<Slot>, init: int, dg: Datagram, es: seq<Event>) {
    && Sized(t) && Unique(t) && Roomy(t, init, es) && UpToLastPiece(map[], dg, es)
    && es != [] && es[0].Fragment? && !Live(t, dg.id)
    && forall i :: 0 <= i < |t| && t[i].id != -1 ==> t[i].timestamp < es[0].now
  }

  /**
    Under eviction: a datagram whose first piece is later than everything in the table is delivered
    exactly by its last piece, in any order of its pieces and among any other packets, provided
    fewer than sixteen of these take a slot in between.
   */
  lemma SurvivesEviction(t: seq<Slot>, init: int, dg: Datagram, es: seq<Event>)
    requires Opens(t, init, dg, es) && Takings(t, init, es) <= IP_RECV_BUF_NO
    ensures OrderlyRun(t, init, map[], es)
    ensures var ups := Run(t, init, map[], es).1;
            && (forall i :: 0 <= i < |es| - 1 && es[i].Fragment? ==> ups[i] == None)
            && ups[|es| - 1] == Upper(dg.proto, dg.src, dg.dst, dg.payload)
  {
    RoomyStep(t, init, es);
    CoverageMoves(map[], dg, es);
    StepTracks(t, init, map[], es[0]);
    if !es[0].Last() {
      OpenedWithoutRivals(t, init, es[0].ToPiece(), es[0].now);
      SparedToLastPiece(Step(t, init, es[0]).0, init, After(map[], es[0]), dg, es[1..]);
    }
    RunDelivers(t, init, map[], es);
  }

  // ---------------------------------------------------------------------
  // Sixteen is exact
  // ---------------------------------------------------------------------

  /** Arrivals of unfinished datagrams of other ids, later than the datagram in slot s. */
  ghost predicate Crowd(es: seq<Event>, id: int, time: int) {
    forall i :: 0 <= i < |es| ==> es[i].Other? && es[i].piece.more && es[i].piece.id != id && es[i].now > time
  }

  /** No other slot in use is as old as slot s to the second. */
  ghost predicate Untied(t: seq<Slot>, s: int)
    requires 0 <= s < |t|
  {
    forall j :: 0 <= j < |t| && j != s && t[j].id != -1 ==> t[j].timestamp != t[s].timestamp
  }

  /** Such an arrival takes a slot that is no rival, while there is one. */
  lemma TakesNoRival(t: seq<Slot>, init: int, s: int, id: word)
    requires |t| == IP_RECV_BUF_NO && 0 <= s < |t| && t[s].id != -1 && Untied(t, s)
    requires !Live(t, id) && Place(t, init, id) != -1
    ensures Place(t, init, id) == s <==> |Rivals(t, s)| == IP_RECV_BUF_NO - 1
    ensures !Rival(t, s, Place(t, init, id))
  {
    RivalCount(t, s);
    if forall j :: 0 <= j < |t| && j != s ==> Rival(t, s, j) {
      forall j | 0 <= j < |t| && j != s
        ensures t[j].id != -1 && t[s].timestamp < t[j].timestamp
      {
        assert Rival(t, s, j);
      }
    }
  }

  /** Exactly the slot taken, if one is taken, becomes a rival. */
  lemma CrowdRivals(t: seq<Slot>, init: int, s: int, p: Piece, now: int)
    requires Sized(t) && Unique(t) && 0 <= s < |t| && t[s].id != -1 && p.off + |p.body| <= BUF_SIZE
    requires p.more && p.id != t[s].id && now > t[s].timestamp && Untied(t, s)
    requires Place(t, init, p.id) !in {-1, s}
    ensures var t' := Receive(t, init, p, now).0;
            && Untied(t', s)
            && Rivals(t', s) == Rivals(t, s) + (if Live(t, p.id) then {} else {Place(t, init, p.id)})
  {
    var no, t' := Place(t, init, p.id), Receive(t, init, p, now).0;
    RivalsAfter(t, init, s, p, now);
    ReceiveKeepsUnique(t, init, p, now);
    AddKeepsOthers(t, init, p.id, now);
    assert t'[no].id == p.id && t'[no].timestamp == if Live(t, p.id) then t[no].timestamp else now;
    assert forall j :: Rival(t, s, j) ==> Rival(t', s, j);
  }

  /** One arrival of the crowd keeps the sum of rivals and takings. */
  lemma CrowdStep(t: seq<Slot>, init: int, s: int, es: seq<Event>)
    requires Roomy(t, init, es) && es != [] && Unique(t) && 0 <= s < |t| && t[s].id != -1
    requires Untied(t, s) && Crowd(es, t[s].id, t[s].timestamp)
    requires Place(t, init, es[0].ToPiece().id) !in {-1, s}
    ensures var t' := Step(t, init, es[0]).0;
            && Unique(t') && t'[s] == t[s] && FindId(t', t[s].id) == s && Untied(t', s)
            && Roomy(t', init, es[1..])
            && |Rivals(t', s)| + Takings(t', init, es[1..]) == |Rivals(t, s)| + Takings(t, init, es)
  {
    var p, now := es[0].piece, es[0].now;
    RoomyStep(t, init, es);
    RivalsAfter(t, init, s, p, now);
    CrowdRivals(t, init, s, p, now);
    if !Live(t, p.id) {
      TakesNoRival(t, init, s, p.id);
      assert Place(t, init, p.id) !in Rivals(t, s);
    }
  }

  /** An id that nothing brings back stays away. */
  lemma {:induction false} StaysAway(t: seq<Slot>, init: int, id: int, es: seq<Event>)
    requires Roomy(t, init, es) && Unique(t) && !Live(t, id)
    requires forall i :: 0 <= i < |es| ==> es[i].ToPiece().id != id
    ensures !Live(TableAfter(t, init, es), id)
    decreases |es|
  {
    if es != [] {
      var p := es[0].ToPiece();
      RoomyStep(t, init, es);
      ReceiveKeepsUnique(t, init, p, es[0].now);
      SlotIdAfter(t, init, p, es[0].now);
      StaysAway(Step(t, init, es[0]).0, init, id, es[1..]);
    }
  }

  /**
    The bound is exact: among arrivals of other unfinished datagrams, all later, a datagram keeps
    its slot precisely while the rivals it had and the slots taken since are fewer than sixteen.
   */
  lemma {:induction false} SurvivesCrowdIff(t: seq<Slot>, init: int, id: int, es: seq<Event>)
    requires Roomy(t, init, es) && Unique(t) && Live(t, id)
    requires var s := FindId(t, id); Untied(t, s) && Crowd(es, id, t[s].timestamp)
    ensures Live(TableAfter(t, init, es), id)
            <==> |Rivals(t, FindId(t, id))| + Takings(t, init, es) < IP_RECV_BUF_NO
    decreases |es|
  {
    var s := FindId(t, id);
    RivalCount(t, s);
    if es != [] {
      var p, t' := es[0].ToPiece(), Step(t, init, es[0]).0;
      RoomyStep(t, init, es);
      if Place(t, init, p.id) == s {
        TakesNoRival(t, init, s, p.id);
        Evicted(t, init, p, es[0].now, id);
        StaysAway(t', init, id, es[1..]);
      } else {
        CrowdStep(t, init, s, es);
        SurvivesCrowdIff(t', init, id, es[1..]);
      }
    }
  }

  lemma Evicted(t: seq<Slot>, init: int, p: Piece, now: int, id: int)
    requires Sized(t) && Unique(t) && p.off + |p.body| <= BUF_SIZE && Live(t, id) && p.id != id
    requires Place(t, init, p.id) == FindId(t, id)
    ensures Unique(Receive(t, init, p, now).0) && !Live(Receive(t, init, p, now).0, id)
  {
    ReceiveKeepsUnique(t, init, p, now);
    SlotIdAfter(t, init, p, now);
  }
}
