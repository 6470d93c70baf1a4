/** The options region of a DHCP packet (dhcp.c, dhcp.h), in the format of RFC 2132. */
module Dhcp {
  import opened Bytes
  import opened Ether

  const COOKIE: seq<byte> := [99, 130, 83, 99]
  const OPTION_LEN := 1222
  const PAD: byte := 0
  const END: byte := 255

  /** What a region is made of, up to its end. */
  datatype Item = Pad | Opt(tag: byte, value: seq<byte>) {
    predicate Proper() {
      Opt? ==> 0 < tag < END
    }
  }

  /** The value as it is sent: at most 255 bytes. */
  function Clip(value: seq<byte>): (r: seq<byte>)
    ensures |r| <= 255
  {
    if |value| > 255 then value[..255] else value
  }

  function Encode(tag: byte, value: seq<byte>): (r: seq<byte>)
    ensures |r| == 2 + |Clip(value)|
  {
    [tag, |Clip(value)|] + Clip(value)
  }

  function EncodeItem(item: Item): seq<byte> {
    match item
    case Pad => [PAD]
    case Opt(tag, value) => Encode(tag, value)
  }

  function EncodeAll(items: seq<Item>): seq<byte> {
    if items == [] then [] else EncodeItem(items[0]) + EncodeAll(items[1..])
  }

  // ---------------------------------------------------------------------
  // Writing
  // ---------------------------------------------------------------------

  /** As written dhcp_set_option steps over the tag byte without storing the tag. */
  datatype TagReading = AsWritten | TagStored

  function Written(reading: TagReading, mem: seq<byte>, ptr: nat, tag: byte, value: seq<byte>): seq<byte>
    requires ptr + 2 + |Clip(value)| <= |mem|
  {
    Overlay(mem, ptr, Encode(if reading == AsWritten then mem[ptr] else tag, value))
  }

  /** By position: the tag, the length, at most 255 bytes of the value, and nothing else changed. */
  ghost predicate OptionOnWire(reading: TagReading, mem: seq<byte>, mem': seq<byte>, ptr: nat, tag: byte,
                               value: seq<byte>)
  {
    var n := if |value| > 255 then 255 else |value|;
    && ptr + 2 + n <= |mem'| == |mem|
    && mem'[ptr] == (if reading == AsWritten then mem[ptr] else tag) && mem'[ptr + 1] == n
    && (forall i :: 0 <= i < n ==> mem'[ptr + 2 + i] == value[i])
    && forall i :: 0 <= i < |mem| && !(ptr <= i < ptr + 2 + n) ==> mem'[i] == mem[i]
  }

  method SetOption(reading: TagReading, region: array<byte>, ptr: nat, tag: byte, value: seq<byte>) returns (ptr': nat)
    requires ptr + 2 + |Clip(value)| <= region.Length
    modifies region
    ensures ptr' == ptr + 2 + |Clip(value)|
    ensures region[..] == Written(reading, old(region[..]), ptr, tag, value)
    ensures OptionOnWire(reading, old(region[..]), region[..], ptr, tag, value)
  {
    ghost var mem := region[..];
    ghost var stored := if reading == AsWritten then mem[ptr] else tag;
    if reading == TagStored {
      region[ptr] := tag;
    }
    ptr' := ptr + 1;
    var size := |value|;
    if size > 255 {
      size := 255;
    }
    region[ptr'] := size;
    assert region[..] == mem[ptr := stored][ptr + 1 := size];
    ptr' := ptr' + 1;
    assert value[..size] == Clip(value);
    MemCpy(region, ptr', value[..size]);
    OverlayInSteps(mem, ptr, stored, size, Clip(value));
    ptr' := ptr' + size;
  }

  lemma OverlayInSteps(mem: seq<byte>, ptr: nat, x: byte, y: byte, v: seq<byte>)
    requires ptr + 2 + |v| <= |mem|
    ensures Overlay(mem[ptr := x][ptr + 1 := y], ptr + 2, v) == Overlay(mem, ptr, [x, y] + v)
  {
  }

  /** The option is written as meant exactly when its tag happens to be in memory already. */
  lemma SetOptionAsWrittenIff(mem: seq<byte>, ptr: nat, tag: byte, value: seq<byte>)
    requires ptr + 2 + |Clip(value)| <= |mem|
    ensures Written(AsWritten, mem, ptr, tag, value) == Written(TagStored, mem, ptr, tag, value) <==> mem[ptr] == tag
  {
    assert Written(AsWritten, mem, ptr, tag, value)[ptr] == mem[ptr];
    assert Written(TagStored, mem, ptr, tag, value)[ptr] == tag;
  }

  // ---------------------------------------------------------------------
  // Reading
  // ---------------------------------------------------------------------

  /** An option begun at the last byte of a packet is read this far beyond its end. */
  const MARGIN := 256

  /**
    The value found from position i on, as dhcp_get_option scans: mem is memory from the options
    on, of which the first size bytes belong to the packet. Only the position of a tag is compared
    with size; its length and value are read wherever they lie.
   */
  function Scan(mem: seq<byte>, size: nat, i: nat, opno: int): (r: Option<seq<byte>>)
    requires size + MARGIN <= |mem|
    ensures r.Some? ==> |r.value| <= 255
    decreases size - i
  {
    if i >= size || mem[i] == END then None
    else if mem[i] == PAD then Scan(mem, size, i + 1, opno)
    else if mem[i] == opno then Some(mem[i + 2..i + 2 + mem[i + 1]])
    else Scan(mem, size, i + 2 + mem[i + 1], opno)
  }

  method GetOption(mem: seq<byte>, size: nat, opno: int, val: array<byte>) returns (ret: int)
    requires size + MARGIN <= |mem| && val.Length >= 255
    modifies val
    ensures ret == if mem[0] == 99 && mem[1] == 130 && mem[2] == 83 && mem[3] == 99 then 0 else -1
    ensures val[..] == if ret == 0 && Scan(mem, size, 4, opno).Some?
                       then Overlay(old(val[..]), 0, Scan(mem, size, 4, opno).value)
                       else old(val[..])
  {
    CookieBytes(mem);
    var cookie := mem[..4];
    if cookie != COOKIE {
      return -1;
    }
    ScanOptions(mem, size, opno, val);
    ret := 0;
  }

  lemma CookieBytes(mem: seq<byte>)
    requires |mem| >= 4
    ensures mem[..4] == COOKIE <==> mem[0] == 99 && mem[1] == 130 && mem[2] == 83 && mem[3] == 99
  {
  }

  /** The loop of dhcp_get_option. */
  method ScanOptions(mem: seq<byte>, size: nat, opno: int, val: array<byte>)
    requires size + MARGIN <= |mem| && val.Length >= 255
    modifies val
    ensures val[..] == match Scan(mem, size, 4, opno) {
              case None => old(val[..])
              case Some(v) => Overlay(old(val[..]), 0, v)
            }
  {
    var ptr := 4;
    var end := false;
    while ptr < size && !end
      invariant ptr >= 4
      invariant !end ==> val[..] == old(val[..]) && Scan(mem, size, ptr, opno) == Scan(mem, size, 4, opno)
      invariant end ==> val[..] == match Scan(mem, size, 4, opno) {
                          case None => old(val[..])
                          case Some(v) => Overlay(old(val[..]), 0, v)
                        }
      decreases !end, size - ptr
    {
      if mem[ptr] == PAD {
        ptr := ptr + 1;
      } else if mem[ptr] == END {
        end := true;
      } else if mem[ptr] == opno {
        ptr := ptr + 1;
        var n := mem[ptr];
        ptr := ptr + 1;
        MemCpy(val, 0, mem[ptr..ptr + n]);
        ptr := ptr + n;
        end := true;
      } else {
        ptr := ptr + 1;
        var n := mem[ptr];
        ptr := ptr + 1;
        ptr := ptr + n;
      }
    }
  }

  // ---------------------------------------------------------------------
  // Round trip
  // ---------------------------------------------------------------------

  /** The first value written under the tag. */
  function FirstMatch(items: seq<Item>, opno: int): Option<seq<byte>> {
    if items == [] then None
    else if items[0].Opt? && items[0].tag == opno then Some(Clip(items[0].value))
    else FirstMatch(items[1..], opno)
  }

  ghost predicate AllProper(items: seq<Item>) {
    forall i :: 0 <= i < |items| ==> items[i].Proper()
  }

  /**
    The scan follows whole options one by one, whatever comes after them: value bytes are never
    taken for tags.
   */
  lemma {:induction false} ScanFollowsItems(mem: seq<byte>, size: nat, i: nat, stop: nat, items: seq<Item>, opno: int)
    requires AllProper(items) && 0 < opno < END
    requires i <= stop <= size && size + MARGIN <= |mem| && mem[i..stop] == EncodeAll(items)
    ensures Scan(mem, size, i, opno) ==
            if FirstMatch(items, opno).Some? then FirstMatch(items, opno) else Scan(mem, size, stop, opno)
    decreases |items|
  {
    if items != [] {
      var next := i + |EncodeItem(items[0])|;
      HeadEncoded(mem, i, stop, items);
      ScanStep(mem, size, i, next, items[0], opno);
      ScanFollowsItems(mem, size, next, stop, items[1..], opno);
    }
  }

  lemma HeadEncoded(mem: seq<byte>, i: nat, stop: nat, items: seq<Item>)
    requires AllProper(items) && items != [] && i <= stop <= |mem| && mem[i..stop] == EncodeAll(items)
    ensures var next := i + |EncodeItem(items[0])|;
            && items[0].Proper() && AllProper(items[1..]) && next <= stop
            && mem[i..next] == EncodeItem(items[0]) && mem[next..stop] == EncodeAll(items[1..])
  {
    SplitAt(mem, i, stop, EncodeItem(items[0]), EncodeAll(items[1..]));
  }

  lemma SplitAt(mem: seq<byte>, i: nat, stop: nat, a: seq<byte>, b: seq<byte>)
    requires i <= stop <= |mem| && mem[i..stop] == a + b
    ensures i + |a| <= stop && mem[i..i + |a|] == a && mem[i + |a|..stop] == b
  {
    assert |mem[i..stop]| == |a| + |b|;
    assert mem[i..i + |a|] == mem[i..stop][..|a|];
    assert mem[i + |a|..stop] == mem[i..stop][|a|..];
  }

  /** One item: skipped, or taken when it carries the tag looked for. */
  lemma ScanStep(mem: seq<byte>, size: nat, i: nat, next: nat, item: Item, opno: int)
    requires item.Proper() && 0 < opno < END
    requires i <= next <= size && size + MARGIN <= |mem| && mem[i..next] == EncodeItem(item)
    ensures Scan(mem, size, i, opno) ==
            if item.Opt? && item.tag == opno then Some(Clip(item.value)) else Scan(mem, size, next, opno)
  {
    var enc := EncodeItem(item);
    assert |mem[i..next]| == |enc|;
    assert mem[i] == mem[i..next][0] == enc[0];
    if item.Opt? {
      var v := Clip(item.value);
      assert mem[i + 1] == mem[i..next][1] == |v|;
      SplitAt(mem, i, next, [item.tag, |v|], v);
    }
  }

  /**
    A written region read back: the first matching value, clipped to 255 bytes, or nothing.
    Neither the bytes after the end marker nor those after the packet matter.
   */
  lemma OptionRoundTrip(items: seq<Item>, rest: seq<byte>, size: nat, opno: int)
    requires AllProper(items) && 0 < opno < END
    requires 4 + |EncodeAll(items)| + 1 <= size && size + MARGIN <= 4 + |EncodeAll(items)| + 1 + |rest|
    ensures var mem := COOKIE + EncodeAll(items) + [END] + rest;
            mem[..4] == COOKIE && Scan(mem, size, 4, opno) == FirstMatch(items, opno)
  {
    ScanFollowsItems(COOKIE + EncodeAll(items) + [END] + rest, size, 4, 4 + |EncodeAll(items)|, items, opno);
  }

  // ---------------------------------------------------------------------
  // Packets cut short
  // ---------------------------------------------------------------------

  /** A packet that ends c bytes into an option. */
  function CutShort(items: seq<Item>, tag: byte, value: seq<byte>, c: nat): seq<byte>
    requires c <= 2 + |Clip(value)|
  {
    COOKIE + EncodeAll(items) + Encode(tag, value)[..c]
  }

  /** The answer does not depend on memory after the packet. */
  ghost predicate Determined(packet: seq<byte>, opno: int) {
    forall m, m' :: |m| >= MARGIN && |m'| >= MARGIN ==>
                      Scan(packet + m, |packet|, 4, opno) == Scan(packet + m', |packet|, 4, opno)
  }

  /** A packet cut short, scanned up to its last, incomplete option. */
  lemma ScanToCut(items: seq<Item>, tag: byte, value: seq<byte>, c: nat, m: seq<byte>, opno: int)
    requires AllProper(items) && 0 < opno < END && 0 < tag < END && 0 < c < 2 + |Clip(value)| && |m| >= MARGIN
    ensures var packet := CutShort(items, tag, value, c);
            Scan(packet + m, |packet|, 4, opno) ==
            if FirstMatch(items, opno).Some? then FirstMatch(items, opno)
            else if tag != opno then None
            else var n := if c == 1 then m[0] else |Clip(value)|;
                 Some((Encode(tag, value)[..c] + m)[2..2 + n])
  {
    var begun := Encode(tag, value)[..c];
    var packet := CutShort(items, tag, value, c);
    ScanFollowsItems(packet + m, |packet|, 4, 4 + |EncodeAll(items)|, items, opno);
    ScanBegun(COOKIE + EncodeAll(items), tag, value, c, m, opno);
  }

  /** The incomplete option itself. */
  lemma ScanBegun(pre: seq<byte>, tag: byte, value: seq<byte>, c: nat, m: seq<byte>, opno: int)
    requires 0 < opno < END && 0 < tag < END && 0 < c < 2 + |Clip(value)| && |m| >= MARGIN
    ensures var begun := Encode(tag, value)[..c];
            Scan(pre + begun + m, |pre| + c, |pre|, opno) ==
            if tag != opno then None
            else var n := if c == 1 then m[0] else |Clip(value)|; Some((begun + m)[2..2 + n])
  {
    var begun := Encode(tag, value)[..c];
    var mem, at := pre + begun + m, |pre|;
    assert mem[at..] == begun + m;
    assert mem[at] == tag;
    var n := if c == 1 then m[0] else |Clip(value)|;
    assert mem[at + 1] == n;
    assert mem[at + 2..at + 2 + n] == (begun + m)[2..2 + n];
  }

  /**
    dhcp_get_option reads past a packet that is cut short: its answer is determined by the packet
    exactly when the incomplete option is not the one looked for, or a whole one precedes it.
   */
  lemma CutShortIff(items: seq<Item>, tag: byte, value: seq<byte>, c: nat, opno: int)
    requires AllProper(items) && 0 < opno < END && 0 < tag < END && 0 < c < 2 + |Clip(value)|
    ensures Determined(CutShort(items, tag, value, c), opno) <==> tag != opno || FirstMatch(items, opno).Some?
  {
    var packet := CutShort(items, tag, value, c);
    if tag != opno || FirstMatch(items, opno).Some? {
      forall m: seq<byte>, m': seq<byte> | |m| >= MARGIN && |m'| >= MARGIN
        ensures Scan(packet + m, |packet|, 4, opno) == Scan(packet + m', |packet|, 4, opno)
      {
        ScanToCut(items, tag, value, c, m, opno);
        ScanToCut(items, tag, value, c, m', opno);
      }
    } else {
      var m, m' := Zeros(MARGIN), Ones(MARGIN);
      ScanToCut(items, tag, value, c, m, opno);
      ScanToCut(items, tag, value, c, m', opno);
      DifferentMemories(Encode(tag, value)[..c], |Clip(value)|);
      assert Scan(packet + m, |packet|, 4, opno) != Scan(packet + m', |packet|, 4, opno);
    }
  }

  function Ones(n: nat): (r: seq<byte>)
    ensures |r| == n && forall k :: 0 <= k < n ==> r[k] == 1
  {
    seq(n, _ => 1)
  }

  lemma DifferentMemories(begun: seq<byte>, n: byte)
    requires 0 < |begun| < 2 + n
    ensures var m, m' := Zeros(MARGIN), Ones(MARGIN);
            (begun + m)[2..2 + (if |begun| == 1 then m[0] else n)] !=
            (begun + m')[2..2 + (if |begun| == 1 then m'[0] else n)]
  {
    var m, m' := Zeros(MARGIN), Ones(MARGIN);
    if |begun| > 1 {
      assert (begun + m)[2..2 + n][n - 1] == 0;
      assert (begun + m')[2..2 + n][n - 1] == 1;
    }
  }

  // ---------------------------------------------------------------------
  // MakeDhcpRequest
  // ---------------------------------------------------------------------

  /** htons stored in a 32-bit variable: two bytes of lease time followed by two zeros. */
  function LeaseBytes(lease: nat): (r: seq<byte>)
    ensures |r| == 4
  {
    Be16(lease % 0x1_0000) + [0, 0]
  }

  function RequestItems(mtype: byte, lease: nat, reqIp: Option<Ip>, server: Option<Ip>): seq<Item> {
    [Opt(53, [mtype]), Opt(51, LeaseBytes(lease))]
    + AddressItem(50, reqIp) + AddressItem(54, server) + [Opt(55, [1, 3])]
  }

  function AddressItem(tag: byte, address: Option<Ip>): seq<Item> {
    if address.Some? then [Opt(tag, IpBytes(address.value))] else []
  }

  /**
    A request by position: the magic cookie of section 3 of RFC 2131, the message type (53), the
    lease time (51), the requested address (50) and the server (54) when they are given, the
    parameters asked for (55): netmask and router; the end.
   */
  ghost predicate RequestOnWire(packet: seq<byte>, mtype: byte, lease: nat, reqIp: Option<Ip>, server: Option<Ip>) {
    exists r, s | AddressOption(r, 50, reqIp) && AddressOption(s, 54, server) ::
      packet == [99, 130, 83, 99] + [53, 1, mtype]
                + [51, 4, lease / 0x100 % 0x100, lease % 0x100, 0, 0] + r + s + [55, 2, 1, 3] + [255, 0]
  }

  ghost predicate AddressOption(o: seq<byte>, tag: byte, address: Option<Ip>) {
    if address.None? then o == []
    else |o| == 6 && o[0] == tag && o[1] == 4 && Num(o, 2, 4) == address.value
  }

  lemma AddressOptionBytes(tag: byte, address: Option<Ip>)
    ensures AddressOption(AddressBytes(tag, address), tag, address)
  {
    if address.Some? {
      var o := AddressBytes(tag, address);
      assert o[2..6] == IpBytes(address.value);
      IpRead(address.value, o, 2);
      NumIp(o, 2);
    }
  }

  lemma RequestByPosition(mtype: byte, lease: nat, reqIp: Option<Ip>, server: Option<Ip>)
    ensures RequestOnWire(COOKIE + EncodeAll(RequestItems(mtype, lease, reqIp, server)) + [END] + [0],
                          mtype, lease, reqIp, server)
  {
    RequestBytes(mtype, lease, reqIp, server);
    AddressOptionBytes(50, reqIp);
    AddressOptionBytes(54, server);
    var r, s := AddressBytes(50, reqIp), AddressBytes(54, server);
    LeaseDigits(lease);
    assert Encode(53, [mtype]) == [53, 1, mtype] && Encode(55, [1, 3]) == [55, 2, 1, 3];
    assert Encode(51, LeaseBytes(lease)) == [51, 4, lease / 0x100 % 0x100, lease % 0x100, 0, 0];
    assert [END] + [0] == [255, 0];
  }

  lemma LeaseDigits(lease: nat)
    ensures lease % 0x1_0000 / 0x100 == lease / 0x100 % 0x100 && lease % 0x1_0000 % 0x100 == lease % 0x100
  {
  }

  /** dhcp_set_option as a step of building a region: one more option after the bytes so far. */
  method Append(region: array<byte>, ptr: nat, ghost done: seq<byte>, tag: byte, value: seq<byte>) returns (ptr': nat)
    requires ptr + 2 + |Clip(value)| <= region.Length && region[..ptr] == done
    modifies region
    ensures ptr' == ptr + 2 + |Clip(value)| && region[..ptr'] == done + Encode(tag, value)
  {
    ghost var before := region[..];
    ptr' := SetOption(TagStored, region, ptr, tag, value);
    OverlayPrefix(before, ptr, Encode(tag, value));
  }

  lemma OverlayPrefix(mem: seq<byte>, ptr: nat, src: seq<byte>)
    requires ptr + |src| <= |mem|
    ensures Overlay(mem, ptr, src)[..ptr + |src|] == mem[..ptr] + src
  {
  }

  /** The options region of MakeDhcpRequest, as meant; the caller has cleared the packet. */
  method MakeDhcpRequest(region: array<byte>, mtype: byte, lease: nat, reqIp: Option<Ip>, server: Option<Ip>)
    returns (size: nat)
    requires region.Length == OPTION_LEN
    modifies region
    ensures size <= region.Length
    ensures region[..size] == COOKIE + EncodeAll(RequestItems(mtype, lease, reqIp, server)) + [END] + [0]
    ensures RequestOnWire(region[..size], mtype, lease, reqIp, server)
  {
    var ptr := AppendItems(region, mtype, lease, reqIp, server);
    size := Append(region, ptr, region[..ptr], END, []);
    RequestBytes(mtype, lease, reqIp, server);
    assert Encode(END, []) == [END] + [0];
    RequestByPosition(mtype, lease, reqIp, server);
  }

  /** The cookie and the options proper, up to the end marker. */
  method AppendItems(region: array<byte>, mtype: byte, lease: nat, reqIp: Option<Ip>, server: Option<Ip>)
    returns (ptr: nat)
    requires region.Length == OPTION_LEN
    modifies region
    ensures ptr <= 32 && region[..ptr] == RequestPrefix(mtype, lease, reqIp, server)
  {
    MemCpy(region, 0, COOKIE);
    ptr := 4;
    ghost var done := COOKIE;
    assert region[..ptr] == done;
    ptr := Append(region, ptr, done, 53, [mtype]);
    done := done + Encode(53, [mtype]);
    ptr := Append(region, ptr, done, 51, LeaseBytes(lease));
    done := done + Encode(51, LeaseBytes(lease));
    ptr := AppendAddress(region, ptr, done, 50, reqIp);
    done := done + AddressBytes(50, reqIp);
    ptr := AppendAddress(region, ptr, done, 54, server);
    done := done + AddressBytes(54, server);
    ptr := Append(region, ptr, done, 55, [1, 3]);
  }

  function RequestPrefix(mtype: byte, lease: nat, reqIp: Option<Ip>, server: Option<Ip>): seq<byte> {
    COOKIE + Encode(53, [mtype]) + Encode(51, LeaseBytes(lease))
    + AddressBytes(50, reqIp) + AddressBytes(54, server) + Encode(55, [1, 3])
  }

  function AddressBytes(tag: byte, address: Option<Ip>): (r: seq<byte>)
    ensures |r| <= 6
  {
    if address.Some? then Encode(tag, IpBytes(address.value)) else []
  }

  /** An option written only when the caller gives an address. */
  method AppendAddress(region: array<byte>, ptr: nat, ghost done: seq<byte>, tag: byte, address: Option<Ip>)
    returns (ptr': nat)
    requires ptr + 6 <= region.Length && region[..ptr] == done
    modifies region
    ensures ptr' == ptr + |AddressBytes(tag, address)| && region[..ptr'] == done + AddressBytes(tag, address)
  {
    ptr' := ptr;
    if address.Some? {
      ptr' := Append(region, ptr, done, tag, IpBytes(address.value));
    } else {
      assert done + AddressBytes(tag, address) == done;
    }
  }

  lemma {:induction false} EncodeConcat(a: seq<Item>, b: seq<Item>)
    ensures EncodeAll(a + b) == EncodeAll(a) + EncodeAll(b)
  {
    if a == [] {
      assert a + b == b;
    } else {
      assert (a + b)[1..] == a[1..] + b;
      EncodeConcat(a[1..], b);
    }
  }

  lemma EncodeOne(item: Item)
    ensures EncodeAll([item]) == EncodeItem(item)
  {
    assert [item][1..] == [];
  }

  lemma RequestBytes(mtype: byte, lease: nat, reqIp: Option<Ip>, server: Option<Ip>)
    ensures RequestPrefix(mtype, lease, reqIp, server) == COOKIE + EncodeAll(RequestItems(mtype, lease, reqIp, server))
  {
    var r, t := AddressItem(50, reqIp), AddressItem(54, server);
    EncodeFive(Opt(53, [mtype]), Opt(51, LeaseBytes(lease)), r, t, Opt(55, [1, 3]));
    EncodeAddress(50, reqIp);
    EncodeAddress(54, server);
    Reassociate(COOKIE, Encode(53, [mtype]), Encode(51, LeaseBytes(lease)),
                AddressBytes(50, reqIp), AddressBytes(54, server), Encode(55, [1, 3]));
  }

  lemma EncodeAddress(tag: byte, address: Option<Ip>)
    ensures EncodeAll(AddressItem(tag, address)) == AddressBytes(tag, address)
  {
    if address.Some? {
      EncodeOne(Opt(tag, IpBytes(address.value)));
    }
  }

  lemma EncodeFive(i1: Item, i2: Item, r: seq<Item>, t: seq<Item>, i5: Item)
    ensures EncodeAll([i1, i2] + r + t + [i5]) ==
            EncodeItem(i1) + EncodeItem(i2) + EncodeAll(r) + EncodeAll(t) + EncodeItem(i5)
  {
    EncodeConcat([i1, i2] + r + t, [i5]);
    EncodeConcat([i1, i2] + r, t);
    EncodeConcat([i1, i2], r);
    assert [i1, i2] == [i1] + [i2];
    EncodeConcat([i1], [i2]);
    EncodeOne(i1);
    EncodeOne(i2);
    EncodeOne(i5);
  }

  lemma Reassociate(c: seq<byte>, a1: seq<byte>, a2: seq<byte>, a3: seq<byte>, a4: seq<byte>, a5: seq<byte>)
    ensures c + a1 + a2 + a3 + a4 + a5 == c + (a1 + a2 + a3 + a4 + a5)
  {
  }

  /**
    Every option of a request is read back as it was asked for; other tags are not found. The byte
    after the end marker is the length that dhcp_set_option stores for it too.
   */
  lemma RequestReadBack(mtype: byte, lease: nat, reqIp: Option<Ip>, server: Option<Ip>, beyond: seq<byte>, opno: int)
    requires 0 < opno < END && |beyond| >= MARGIN
    ensures var packet := COOKIE + EncodeAll(RequestItems(mtype, lease, reqIp, server)) + [END] + [0];
            Scan(packet + beyond, |packet|, 4, opno) ==
            if opno == 53 then Some([mtype])
            else if opno == 51 then Some(LeaseBytes(lease))
            else if opno == 50 && reqIp.Some? then Some(IpBytes(reqIp.value))
            else if opno == 54 && server.Some? then Some(IpBytes(server.value))
            else if opno == 55 then Some([1, 3])
            else None
  {
    var items := RequestItems(mtype, lease, reqIp, server);
    var head := COOKIE + EncodeAll(items) + [END];
    assert (head + [0]) + beyond == head + ([0] + beyond);
    OptionRoundTrip(items, [0] + beyond, |head| + 1, opno);
    RequestMatches(mtype, lease, reqIp, server, opno);
  }

  lemma RequestMatches(mtype: byte, lease: nat, reqIp: Option<Ip>, server: Option<Ip>, opno: int)
    ensures FirstMatch(RequestItems(mtype, lease, reqIp, server), opno) ==
            if opno == 53 then Some([mtype])
            else if opno == 51 then Some(LeaseBytes(lease))
            else if opno == 50 && reqIp.Some? then Some(IpBytes(reqIp.value))
            else if opno == 54 && server.Some? then Some(IpBytes(server.value))
            else if opno == 55 then Some([1, 3])
            else None
  {
    var items := RequestItems(mtype, lease, reqIp, server);
    assert items[0] == Opt(53, [mtype]);
    assert items[1..][0] == Opt(51, LeaseBytes(lease));
    MatchTail(reqIp, server, opno);
    assert items[1..][1..] == RequestTail(reqIp, server);
  }

  function RequestTail(reqIp: Option<Ip>, server: Option<Ip>): seq<Item> {
    AddressItem(50, reqIp) + AddressItem(54, server) + [Opt(55, [1, 3])]
  }

  lemma MatchTail(reqIp: Option<Ip>, server: Option<Ip>, opno: int)
    ensures FirstMatch(RequestTail(reqIp, server), opno) ==
            if opno == 50 && reqIp.Some? then Some(IpBytes(reqIp.value))
            else if opno == 54 && server.Some? then Some(IpBytes(server.value))
            else if opno == 55 then Some([1, 3])
            else None
  {
    var last := [Opt(55, [1, 3])];
    assert FirstMatch(last, opno) == if opno == 55 then Some([1, 3]) else None;
    var mid := AddressItem(54, server) + last;
    assert server.Some? ==> mid[1..] == last;
    assert server.None? ==> mid == last;
    assert reqIp.Some? ==> RequestTail(reqIp, server)[1..] == mid;
    assert reqIp.None? ==> RequestTail(reqIp, server) == mid;
  }

  /**
    htons in place of htonl: read as the 32-bit number of seconds of RFC 2132, the lease time on
    the wire is the requested one only for a request of zero.
   */
  lemma LeaseOnWireIff(lease: nat)
    requires lease < 0x1_0000_0000
    ensures IpAt(LeaseBytes(lease), 0) == lease % 0x1_0000 * 0x1_0000
    ensures IpAt(LeaseBytes(lease), 0) == lease <==> lease == 0
  {
    var b := LeaseBytes(lease);
    assert b[0..2] == Be16(lease % 0x1_0000);
    WordRead(lease % 0x1_0000, b, 0);
  }

  // ---------------------------------------------------------------------
  // The one request the program builds, as written
  // ---------------------------------------------------------------------

  /** The options of a DISCOVER, which gives no addresses, written one after the other into cleared memory. */
  function DiscoverRegion(reading: TagReading, lease: nat): (r: seq<byte>)
    ensures |r| == 19
  {
    var m0 := Overlay(Zeros(19), 0, COOKIE);
    var m1 := Written(reading, m0, 4, 53, [1]);
    var m2 := Written(reading, m1, 7, 51, LeaseBytes(lease));
    var m3 := Written(reading, m2, 13, 55, [1, 3]);
    Written(reading, m3, 17, END, [])
  }

  /** With the tags stored this is the request whose options are all read back. */
  lemma DiscoverAsMeant(lease: nat)
    ensures DiscoverRegion(TagStored, lease) == COOKIE + EncodeAll(RequestItems(1, lease, None, None)) + [END] + [0]
  {
    RequestBytes(1, lease, None, None);
    NoAddresses(lease);
    DiscoverBytes(TagStored, lease);
  }

  lemma NoAddresses(lease: nat)
    ensures var v := lease % 0x1_0000;
            RequestPrefix(1, lease, None, None) ==
            COOKIE + [53, 1, 1] + [51, 4, v / 0x100, v % 0x100, 0, 0] + [55, 2, 1, 3]
  {
  }

  lemma DiscoverAsMeantReadable(lease: nat, beyond: seq<byte>)
    requires |beyond| >= MARGIN
    ensures Scan(DiscoverRegion(TagStored, lease) + beyond, 19, 4, 53) == Some([1])
  {
    DiscoverAsMeant(lease);
    RequestReadBack(1, lease, None, None, beyond, 53);
  }

  lemma DiscoverBytes(reading: TagReading, lease: nat)
    ensures var v, t := lease % 0x1_0000, reading == TagStored;
            DiscoverRegion(reading, lease) ==
            COOKIE + [if t then 53 else 0, 1, 1] + [if t then 51 else 0, 4, v / 0x100, v % 0x100, 0, 0]
            + [if t then 55 else 0, 2, 1, 3] + [if t then END else 0, 0]
  {
  }

  /**
    As written a request cannot be read back: with no tags stored, lengths and values are taken for
    tags. Whatever the configured lease and whatever follows in memory, looking for the message
    type of the DISCOVER finds nothing, or an empty value when the lease itself reads as 53.
   */
  lemma DiscoverAsWrittenUnreadable(lease: nat, beyond: seq<byte>)
    requires |beyond| >= MARGIN
    ensures Scan(DiscoverRegion(TagStored, lease) + beyond, 19, 4, 53) == Some([1])
    ensures Scan(DiscoverRegion(AsWritten, lease) + beyond, 19, 4, 53) ==
            if lease % 0x1_0000 == 53 then Some([]) else None
  {
    DiscoverAsMeantReadable(lease, beyond);
    var v := lease % 0x1_0000;
    var region := DiscoverRegion(AsWritten, lease);
    DiscoverBytes(AsWritten, lease);
    assert (region + beyond)[..19] == region;
    Misread(region + beyond, v / 0x100, v % 0x100);
  }

  /** The bytes of the DISCOVER as written: hi and lo are those of the lease. */
  ghost predicate UntaggedDiscover(mem: seq<byte>, hi: byte, lo: byte) {
    && |mem| >= 19 + MARGIN && mem[..19] == COOKIE + [0, 1, 1] + [0, 4, hi, lo, 0, 0] + [0, 2, 1, 3] + [0, 0]
  }

  lemma Misread(mem: seq<byte>, hi: byte, lo: byte)
    requires UntaggedDiscover(mem, hi, lo)
    ensures Scan(mem, 19, 4, 53) == if hi == 0 && lo == 53 then Some([]) else None
  {
    var d := mem[..19];
    assert mem[4] == d[4] == 0 && mem[5] == d[5] == 1 && mem[6] == d[6] == 1 && mem[8] == d[8] == 4;
    assert mem[9] == d[9] == hi && mem[10] == d[10] == lo && mem[11] == d[11] == 0;
    MisreadTail(mem, hi, lo);
    assert Scan(mem, 19, 4, 53) == Scan(mem, 19, 5, 53) == Scan(mem, 19, 8, 53) == Scan(mem, 19, 10 + hi, 53);
    if hi == 0 && lo == 53 {
      assert mem[12..12] == [];
    } else if hi == 0 && lo != 0 && lo != END {
      assert Scan(mem, 19, 10, 53) == Scan(mem, 19, 12, 53);
    }
  }

  /** From the zero bytes of the lease on no scan finds anything, wherever it starts. */
  lemma MisreadTail(mem: seq<byte>, hi: byte, lo: byte)
    requires UntaggedDiscover(mem, hi, lo)
    ensures forall i :: 11 <= i ==> Scan(mem, 19, i, 53) == None
  {
    var d := mem[..19];
    assert mem[11] == d[11] == 0 && mem[12] == d[12] == 0 && mem[13] == d[13] == 0 && mem[14] == d[14] == 2;
    assert mem[15] == d[15] == 1 && mem[16] == d[16] == 3 && mem[17] == d[17] == 0 && mem[18] == d[18] == 0;
    assert forall i :: 19 <= i ==> Scan(mem, 19, i, 53) == None;
    assert Scan(mem, 19, 18, 53) == None;
    assert Scan(mem, 19, 17, 53) == None;
    assert Scan(mem, 19, 16, 53) == Scan(mem, 19, 18, 53);
    assert Scan(mem, 19, 15, 53) == Scan(mem, 19, 20, 53);
    assert Scan(mem, 19, 14, 53) == Scan(mem, 19, 17, 53);
    assert Scan(mem, 19, 13, 53) == None;
    assert Scan(mem, 19, 12, 53) == None;
    assert Scan(mem, 19, 11, 53) == None;
  }
}
