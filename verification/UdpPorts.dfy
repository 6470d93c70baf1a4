/** The table of open UDP ports (udp.c). A free slot holds port 0. */
module UdpPorts {
  import opened Bytes
  import Slots

  const UDP_TABLE_NO := 16
  const DHCP_CLIENT_PORT: word := 68
  const FIRST_FREE_PORT := 32768
  const LAST_FREE_PORT := 61000

  type Ports = seq<int>

  /** Sixteen 16-bit ports, the nonzero ones pairwise distinct. */
  ghost predicate Sound(t: Ports) {
    |t| == UDP_TABLE_NO && Slots.Distinct(t, 0) && forall i :: 0 <= i < |t| ==> 0 <= t[i] < 0x1_0000
  }

  /** The open ports. */
  ghost function Opened(t: Ports): (r: set<int>)
    ensures |r| <= |t|
    ensures forall p :: p in r <==> p != 0 && SearchIn(t, p) != -1
  {
    Slots.KeySet(t, 0, |t|)
  }

  function SearchIn(t: Ports, port: int): (r: int)
    ensures -1 <= r < |t|
    ensures r != -1 ==> t[r] == port
  {
    Slots.FindKey(t, port, |t|)
  }

  /** The table after UdpAddTable; unchanged when the port is there or no slot is free. */
  function AddTo(t: Ports, port: word): (t': Ports)
    ensures |t'| == |t|
  {
    var free := SearchIn(t, 0);
    if SearchIn(t, port) != -1 || free == -1 then t else t[free := port]
  }

  /**
    The two readings of the value returned when a free port is found: as written -1, which as a
    u_int16_t is 65535; meant the port.
   */
  datatype FreeReading = AsWritten | PortFound

  class UdpTable {
    const ports: array<word>

    ghost predicate Valid()
      reads ports
    {
      Sound(ports[..])
    }

    constructor ()
      ensures Valid() && fresh(ports)
      ensures Opened(ports[..]) == {}
    {
      ports := new word[UDP_TABLE_NO](_ => 0);
      new;
      assert forall i :: 0 <= i < UDP_TABLE_NO ==> ports[..][i] == 0;
      assert forall p :: p !in Opened(ports[..]);
    }

    /** UdpAddTable(0) is never called: UdpSocket replaces port 0 first. */
    method Add(port: word) returns (no: int)
      requires Valid() && port != 0
      modifies ports
      ensures Valid()
      ensures ports[..] == AddTo(old(ports[..]), port)
      ensures no == if SearchIn(old(ports[..]), port) != -1 then -1 else SearchIn(old(ports[..]), 0)
      ensures no == -1 <==> port in old(ports[..]) || 0 !in old(ports[..])
      ensures no != -1 ==>
                && 0 <= no < 16 && old(ports[no]) == 0 && ports[no] == port
                && forall j :: 0 <= j < 16 && j != no ==> ports[j] == old(ports[j]) && (j < no ==> ports[j] != 0)
    {
      ghost var t: Ports := ports[..];
      var freeNo := -1;
      for i := 0 to ports.Length
        invariant ports[..] == t && Slots.FindKey(t, port, i) == -1
        invariant freeNo == Slots.FindKey(t, 0, i)
      {
        if ports[i] == port {
          Slots.FoundFirst(t, port, i);
          return -1;
        } else if ports[i] == 0 {
          if freeNo == -1 {
            freeNo := i;
          }
        }
      }
      if freeNo == -1 {
        return -1;
      }
      WriteKeepsSound(t, freeNo, port);
      ports[freeNo] := port;
      no := freeNo;
    }

    method Search(port: word) returns (no: int)
      requires Valid()
      ensures no == SearchIn(ports[..], port)
    {
      for i := 0 to ports.Length
        invariant Slots.FindKey(ports[..], port, i) == -1
      {
        if ports[i] == port {
          Slots.FoundFirst(ports[..], port, i);
          return i;
        }
      }
      no := -1;
    }

    /** While the lock is not held other threads may leave any sound table behind. */
    method Unlocked(others: seq<word>)
      requires Valid() && Sound(others)
      modifies ports
      ensures Valid() && ports[..] == others
    {
      forall i | 0 <= i < ports.Length {
        ports[i] := others[i];
      }
    }

    /** Each candidate is looked up under the lock, which is given up after every look. */
    method SearchFreePort(reading: FreeReading, others: seq<seq<word>>) returns (port: word)
      requires Valid() && AllSound(others)
      modifies ports
      ensures Valid()
      ensures (port, ports[..]) == Picked(reading, old(ports[..]), others, FirstUnused(old(ports[..]), others, 0))
    {
      ghost var before := ports[..];
      for i := 0 to CANDIDATES
        invariant ports[..] == SeenAt(before, others, i)
        invariant forall q :: 0 <= q < i ==> Busy(before, others, q)
      {
        var no := Search(FIRST_FREE_PORT + i);
        assert Busy(before, others, i) <==> no != -1;
        Unlocked(others[i]);
        if no == -1 {
          FirstUnusedIs(before, others, i);
          port := if reading == AsWritten then 0xFFFF else FIRST_FREE_PORT + i;
          assert (port, ports[..]) == Picked(reading, before, others, i);
          return;
        }
      }
      FirstUnusedIs(before, others, CANDIDATES);
      port := 0;
      assert (port, ports[..]) == Picked(reading, before, others, CANDIDATES);
    }

    method Socket(reading: FreeReading, port: word, others: seq<seq<word>>) returns (ret: int)
      requires Valid() && AllSound(others)
      modifies ports
      ensures Valid()
      ensures (ret, ports[..]) == SocketDuring(reading, old(ports[..]), others, port)
    {
      if port == DHCP_CLIENT_PORT {
        return -1;
      }
      var chosen := port;
      if port == 0 {
        chosen := SearchFreePort(reading, others);
        if chosen == 0 {
          return -1;
        }
      }
      var no := Add(chosen);
      ret := if no == -1 then -1 else 0;
    }

    /** The lock is given up between the search and the write, which hits the slot found before. */
    method Close(port: word, meanwhile: seq<word>) returns (ret: int)
      requires Valid() && Sound(meanwhile)
      modifies ports
      ensures Valid()
      ensures (ret, ports[..]) == CloseDuring(old(ports[..]), meanwhile, port)
    {
      var no := Search(port);
      if no == -1 {
        return -1;
      }
      Unlocked(meanwhile);
      WriteKeepsSound(meanwhile, no, 0);
      ports[no] := 0;
      ret := 0;
    }
  }

  // ---------------------------------------------------------------------
  // The first unused candidate
  // ---------------------------------------------------------------------

  const CANDIDATES := LAST_FREE_PORT - FIRST_FREE_PORT

  ghost predicate AllSound(others: seq<Ports>) {
    |others| == CANDIDATES && forall k :: 0 <= k < |others| ==> Sound(others[k])
  }

  /** The table at the k-th look: as found, then as others left it. */
  function SeenAt(before: Ports, others: seq<Ports>, k: nat): Ports
    requires k <= |others|
  {
    if k == 0 then before else others[k - 1]
  }

  /** The k-th candidate is open when it is looked at. */
  predicate Busy(before: Ports, others: seq<Ports>, k: nat)
    requires k <= |others|
  {
    SearchIn(SeenAt(before, others, k), FIRST_FREE_PORT + k) != -1
  }

  /** The first candidate from the k-th on that is closed when it is looked at. */
  function FirstUnused(before: Ports, others: seq<Ports>, k: nat): (r: nat)
    requires k <= CANDIDATES == |others|
    ensures k <= r <= CANDIDATES
    ensures r < CANDIDATES ==> !Busy(before, others, r)
    ensures forall q :: k <= q < r ==> Busy(before, others, q)
    decreases CANDIDATES - k
  {
    if k == CANDIDATES || !Busy(before, others, k) then k
    else FirstUnused(before, others, k + 1)
  }

  lemma FirstUnusedIs(before: Ports, others: seq<Ports>, k: nat)
    requires k <= CANDIDATES == |others|
    requires k < CANDIDATES ==> !Busy(before, others, k)
    requires forall q :: 0 <= q < k ==> Busy(before, others, q)
    ensures FirstUnused(before, others, 0) == k
  {
    var r := FirstUnused(before, others, 0);
    assert k < CANDIDATES ==> k >= r;
  }

  /** What is returned for the k-th candidate, 0 for none, and the table by then. */
  function Picked(reading: FreeReading, before: Ports, others: seq<Ports>, k: nat): (word, Ports)
    requires k <= CANDIDATES == |others|
  {
    if k == CANDIDATES then (0, SeenAt(before, others, k))
    else (if reading == AsWritten then 0xFFFF else FIRST_FREE_PORT + k, SeenAt(before, others, k + 1))
  }

  /** Nobody interferes. */
  function Undisturbed(t: Ports): (others: seq<Ports>)
    ensures |others| == CANDIDATES && forall k :: 0 <= k < CANDIDATES ==> others[k] == t
  {
    seq(CANDIDATES, _ => t)
  }

  ghost function Candidates(n: nat): (r: set<int>)
    ensures |r| == n
    ensures forall p :: p in r <==> FIRST_FREE_PORT <= p < FIRST_FREE_PORT + n
  {
    if n == 0 then {} else Candidates(n - 1) + {FIRST_FREE_PORT + n - 1}
  }

  /**
    By pigeonhole a table of sixteen cannot hold seventeen candidates: undisturbed, the search
    finds an unused port among the first seventeen, the least one, and never gives up.
   */
  lemma AlwaysAFreePort(t: Ports)
    requires |t| == UDP_TABLE_NO
    ensures var k := FirstUnused(t, Undisturbed(t), 0);
            && k <= UDP_TABLE_NO && SearchIn(t, FIRST_FREE_PORT + k) == -1
            && forall p :: FIRST_FREE_PORT <= p < FIRST_FREE_PORT + k ==> SearchIn(t, p) != -1
  {
    var k := FirstUnused(t, Undisturbed(t), 0);
    forall p | FIRST_FREE_PORT <= p < FIRST_FREE_PORT + k
      ensures SearchIn(t, p) != -1
    {
      BusyUndisturbed(t, p - FIRST_FREE_PORT);
    }
    AtMostSixteenBusy(t, k);
    BusyUndisturbed(t, k);
  }

  lemma BusyUndisturbed(t: Ports, k: nat)
    requires k < CANDIDATES
    ensures Busy(t, Undisturbed(t), k) <==> SearchIn(t, FIRST_FREE_PORT + k) != -1
  {
  }

  lemma AtMostSixteenBusy(t: Ports, k: nat)
    requires |t| == UDP_TABLE_NO
    requires forall p :: FIRST_FREE_PORT <= p < FIRST_FREE_PORT + k ==> SearchIn(t, p) != -1
    ensures k <= UDP_TABLE_NO
  {
    assert Candidates(k) <= Opened(t);
    Slots.SubsetSize(Candidates(k), Opened(t));
  }

  // ---------------------------------------------------------------------
  // Opening and closing as operations on the set of open ports
  // ---------------------------------------------------------------------

  /** The locked region of UdpAddTable: result of the open and table. */
  function AddOn(t: Ports, port: word): (int, Ports) {
    (if SearchIn(t, port) != -1 || SearchIn(t, 0) == -1 then -1 else 0, AddTo(t, port))
  }

  /** The port asked for in the end, 0 when no candidate was free, and the table it is added to. */
  function Chosen(reading: FreeReading, before: Ports, others: seq<Ports>, port: word): (word, Ports)
    requires |others| == CANDIDATES
  {
    if port != 0 then (port, before) else Picked(reading, before, others, FirstUnused(before, others, 0))
  }

  /** UdpSocket, others acting whenever the lock is not held. */
  function SocketDuring(reading: FreeReading, before: Ports, others: seq<Ports>, port: word): (int, Ports)
    requires |others| == CANDIDATES
  {
    var (chosen, at) := Chosen(reading, before, others, port);
    if port == DHCP_CLIENT_PORT then (-1, before)
    else if chosen == 0 then (-1, at)
    else AddOn(at, chosen)
  }

  /** UdpSocketClose, others leaving `meanwhile` between the search and the write. */
  function CloseDuring(before: Ports, meanwhile: Ports, port: word): (int, Ports)
    requires |before| == |meanwhile|
  {
    var no := SearchIn(before, port);
    if no == -1 then (-1, before) else (0, meanwhile[no := 0])
  }

  /** The undisturbed calls. */
  function SocketOn(reading: FreeReading, t: Ports, port: word): (int, Ports) {
    SocketDuring(reading, t, Undisturbed(t), port)
  }

  function CloseOn(t: Ports, port: word): (int, Ports) {
    CloseDuring(t, t, port)
  }

  /** Writing one slot, as an operation on the set. */
  lemma WriteOpens(t: Ports, i: nat, port: word)
    requires Sound(t) && i < |t| && (port == 0 || SearchIn(t, port) == -1)
    ensures Sound(t[i := port])
    ensures Opened(t[i := port]) == Opened(t) - {t[i]} + (if port == 0 then {} else {port as int})
  {
    WriteKeepsSound(t, i, port);
    var after, before, held := Opened(t[i := port]), Opened(t), t[i];
    var gained: set<int> := if port == 0 then {} else {port as int};
    forall p: int
      ensures p in after <==> p in before - {held} + gained
    {
      OpenAfterWrite(t, i, port, p);
    }
  }

  lemma WriteKeepsSound(t: Ports, i: nat, port: word)
    requires Sound(t) && i < |t| && (port == 0 || SearchIn(t, port) == -1)
    ensures Sound(t[i := port])
  {
    Slots.WriteKeepsDistinct(t, 0, i, port);
  }

  lemma OpenAfterWrite(t: Ports, i: nat, port: word, p: int)
    requires Sound(t) && i < |t| && (port == 0 || SearchIn(t, port) == -1)
    ensures p in Opened(t[i := port]) <==> p != 0 && (p == port || (p in Opened(t) && p != t[i]))
  {
    if p != 0 {
      Slots.FindAfterWrite(t, 0, i, port, p);
    }
  }

  lemma FullIff(t: Ports)
    requires Sound(t)
    ensures SearchIn(t, 0) == -1 <==> |Opened(t)| == UDP_TABLE_NO
  {
    if SearchIn(t, 0) == -1 {
      Slots.FullCount(t, 0, |t|);
    } else {
      Slots.SlackCount(t, 0, |t|);
    }
  }

  /** Adding inserts into a set of at most sixteen; it fails exactly for an open port or a full set. */
  lemma AddInserts(t: Ports, port: word)
    requires Sound(t) && port != 0
    ensures var (ret, t') := AddOn(t, port);
            && Sound(t') && (ret == 0 || ret == -1)
            && (ret == 0 <==> port as int !in Opened(t) && |Opened(t)| < UDP_TABLE_NO)
            && Opened(t') == Opened(t) + (if ret == 0 then {port as int} else {})
            && (ret == -1 ==> t' == t)
  {
    FullIff(t);
    if AddOn(t, port).0 == 0 {
      WriteOpens(t, SearchIn(t, 0), port);
    }
  }

  /**
    UdpSocket whatever other threads do between its locked regions: it succeeds exactly when the
    port asked for in the end is closed and the set not full at the moment of the add, and then
    inserts that port and nothing else.
   */
  lemma SocketDuringIff(reading: FreeReading, before: Ports, others: seq<Ports>, port: word)
    requires Sound(before) && AllSound(others)
    ensures var (ret, t') := SocketDuring(reading, before, others, port);
            var (chosen, at) := Chosen(reading, before, others, port);
            && Sound(at) && Sound(t')
            && (ret == 0 <==> port != DHCP_CLIENT_PORT && chosen != 0 &&
                              chosen as int !in Opened(at) && |Opened(at)| < UDP_TABLE_NO)
            && (ret == 0 ==> Opened(t') == Opened(at) + {chosen as int})
            && (ret != 0 ==> ret == -1 && (t' == at || t' == before))
  {
    var (chosen, at) := Chosen(reading, before, others, port);
    if chosen != 0 {
      AddInserts(at, chosen);
    }
  }

  /**
    The port picked for port 0 as meant was closed when it was looked at; none is picked only if
    every candidate was open when it was looked at.
   */
  lemma PickedWasClosed(before: Ports, others: seq<Ports>)
    requires |others| == CANDIDATES
    ensures var (chosen, at) := Chosen(PortFound, before, others, 0);
            if chosen == 0 then forall q :: 0 <= q < CANDIDATES ==> Busy(before, others, q)
            else 32768 <= chosen < 61000 && SearchIn(SeenAt(before, others, chosen - 32768), chosen) == -1
  {
  }

  /** Undisturbed, a port is always chosen, and the one picked for port 0 as meant is closed. */
  lemma ChosenUndisturbed(reading: FreeReading, t: Ports, port: word)
    requires Sound(t)
    ensures var (chosen, at) := Chosen(reading, t, Undisturbed(t), port);
            && chosen != 0 && at == t
            && (port == 0 && reading == AsWritten ==> chosen == 0xFFFF)
            && (port == 0 && reading == PortFound ==> chosen as int !in Opened(t))
    ensures SocketOn(reading, t, port) ==
            if port == DHCP_CLIENT_PORT then (-1, t) else AddOn(t, Chosen(reading, t, Undisturbed(t), port).0)
  {
    AlwaysAFreePort(t);
  }

  /**
    Undisturbed, opening a given port fails exactly for the DHCP client port, an open port, or a
    full set; opening port 0 as meant picks a port that was not open, and fails only for a full set.
   */
  lemma SocketOpens(t: Ports, port: word)
    requires Sound(t)
    ensures var (ret, t') := SocketOn(PortFound, t, port);
            var chosen: int := Chosen(PortFound, t, Undisturbed(t), port).0;
            && Sound(t')
            && (ret == -1 <==>
                  port == DHCP_CLIENT_PORT || (port != 0 && port as int in Opened(t)) || |Opened(t)| == UDP_TABLE_NO)
            && Opened(t') == Opened(t) + (if ret == 0 then {chosen} else {})
            && (port == 0 ==> chosen != 0 && chosen !in Opened(t))
  {
    ChosenUndisturbed(PortFound, t, port);
    AddInserts(t, Chosen(PortFound, t, Undisturbed(t), port).0);
    SubsetOfSixteen(t);
  }

  lemma SubsetOfSixteen(t: Ports)
    requires Sound(t)
    ensures |Opened(t)| <= UDP_TABLE_NO
  {
  }

  /**
    Opening port 0 as written always asks for port 65535: it succeeds exactly when that port is
    still closed and the set is not full, so never twice in a row.
   */
  lemma AnyPortAsWrittenIff(t: Ports)
    requires Sound(t)
    ensures var (ret, t') := SocketOn(AsWritten, t, 0);
            && Sound(t')
            && (ret == 0 <==> 0xFFFF !in Opened(t) && |Opened(t)| < UDP_TABLE_NO)
            && Opened(t') == Opened(t) + (if ret == 0 then {0xFFFF} else {})
            && SocketOn(AsWritten, t', 0).0 == -1
  {
    AsWrittenOnce(t);
    AsWrittenOnce(SocketOn(AsWritten, t, 0).1);
  }

  lemma AsWrittenOnce(t: Ports)
    requires Sound(t)
    ensures var (ret, t') := SocketOn(AsWritten, t, 0);
            && Sound(t') && (ret == 0 || ret == -1)
            && (ret == 0 <==> 0xFFFF !in Opened(t) && |Opened(t)| < UDP_TABLE_NO)
            && Opened(t') == Opened(t) + (if ret == 0 then {0xFFFF} else {})
  {
    ChosenUndisturbed(AsWritten, t, 0);
    AddInserts(t, 0xFFFF);
  }

  /**
    Undisturbed, closing removes the port from the set and fails exactly for a port that is not
    open. Port 0 stands for a free slot: closing it changes nothing and succeeds exactly when the
    set is not full.
   */
  lemma CloseCloses(t: Ports, port: word)
    requires Sound(t)
    ensures var (ret, t') := CloseOn(t, port);
            && Sound(t') && (ret == 0 || ret == -1) && Opened(t') == Opened(t) - {port as int}
            && (port != 0 ==> (ret == 0 <==> port as int in Opened(t)))
            && (port == 0 ==> t' == t && (ret == 0 <==> |Opened(t)| < UDP_TABLE_NO))
  {
    FullIff(t);
    SubsetOfSixteen(t);
    if SearchIn(t, port) != -1 {
      WriteOpens(t, SearchIn(t, port), 0);
    }
  }

  /** Closing what was opened, by its own number or the one chosen for 0, gives back the same open ports. */
  lemma CloseUndoesOpen(reading: FreeReading, t: Ports, port: word)
    requires Sound(t) && SocketOn(reading, t, port).0 == 0
    ensures var t' := SocketOn(reading, t, port).1;
            var chosen := Chosen(reading, t, Undisturbed(t), port).0;
            && CloseOn(t', chosen).0 == 0
            && Opened(CloseOn(t', chosen).1) == Opened(t)
  {
    var chosen := Chosen(reading, t, Undisturbed(t), port).0;
    ChosenUndisturbed(reading, t, port);
    AddInserts(t, chosen);
    CloseCloses(SocketOn(reading, t, port).1, chosen);
    assert chosen as int !in Opened(t);
  }

  // ---------------------------------------------------------------------
  // Runs of locked regions
  // ---------------------------------------------------------------------

  /** The two locked regions that write: an add of any port, and a close's write to any slot. */
  datatype Locked = AddPort(port: word) | ClearSlot(no: nat)

  function Step(t: Ports, w: Locked): (t': Ports)
    ensures |t'| == |t|
  {
    match w
    case AddPort(port) => if port == 0 then t else AddTo(t, port)
    case ClearSlot(no) => if no < |t| then t[no := 0] else t
  }

  function Steps(t: Ports, ws: seq<Locked>): Ports
    decreases |ws|
  {
    if ws == [] then t else Steps(Step(t, ws[0]), ws[1..])
  }

  /**
    However the calls of any number of threads interleave, after any run of locked regions the
    nonzero ports are pairwise distinct 16-bit numbers in sixteen slots.
   */
  lemma {:induction false} PortsStayDistinct(t: Ports, ws: seq<Locked>)
    requires Sound(t)
    ensures Sound(Steps(t, ws))
    decreases |ws|
  {
    if ws != [] {
      match ws[0] {
        case AddPort(port) =>
          if port != 0 {
            AddInserts(t, port);
          }
        case ClearSlot(no) =>
          if no < |t| {
            WriteKeepsSound(t, no, 0);
          }
      }
      PortsStayDistinct(Step(t, ws[0]), ws[1..]);
    }
  }

  /**
    UdpSocketClose gives up the lock between its search and its write. Whatever other threads do
    in between, the write closes the port asked for and nothing else exactly when the slot found
    still holds that port, or is free and the port is closed already.
   */
  lemma CloseInTwoStepsIff(found: Ports, meanwhile: Ports, port: word)
    requires Sound(found) && Sound(meanwhile) && port != 0 && SearchIn(found, port) != -1
    ensures var no := SearchIn(found, port);
            Opened(CloseDuring(found, meanwhile, port).1) == Opened(meanwhile) - {port as int}
            <==> meanwhile[no] == port || (meanwhile[no] == 0 && SearchIn(meanwhile, port) == -1)
  {
    var no := SearchIn(found, port);
    var held := meanwhile[no];
    WriteOpens(meanwhile, no, 0);
    assert held != 0 ==> held in Opened(meanwhile) by {
      if held != 0 {
        Slots.FoundWhereItIs(meanwhile, 0, no);
      }
    }
    assert port as int in Opened(meanwhile) <==> SearchIn(meanwhile, port) != -1;
    if held == 0 {
      assert Opened(meanwhile) - {held} == Opened(meanwhile);
    }
  }
}
