/** ICMP echo (icmp.c). */
module Icmp {
  import opened Bytes
  import opened Checksum
  import opened Ether

  const ECHO_HDR_SIZE := 8
  const SBUF_SIZE := 0x1_0000
  const ICMP_ECHOREPLY: byte := 0
  const ICMP_ECHO: byte := 8

  /** An echo message; idSeq are the four bytes of identifier and sequence number. */
  function EchoBytes(kind: byte, idSeq: seq<byte>, payload: seq<byte>): (r: seq<byte>)
    requires |idSeq| == 4
    ensures |r| == ECHO_HDR_SIZE + |payload|
  {
    [kind, 0] + Store(HOST, Sum16(HOST, [kind, 0] + [0, 0] + (idSeq + payload))) + (idSeq + payload)
  }

  /** An echo message by position (RFC 792): type, code 0, checksum, four bytes, payload. */
  ghost predicate EchoOnWire(m: seq<byte>, kind: byte, idSeq: seq<byte>, payload: seq<byte>) {
    && |m| == 8 + |payload| && m[0] == kind && m[1] == 0 && m[4..8] == idSeq && m[8..] == payload
    && ExactSum(Big, m) % 0xFFFF == 0 && (Num(m, 2, 2) == 0xFFFF ==> ExactSum(Big, m) == 0xFFFF)
  }

  lemma EchoOnWireBytes(kind: byte, idSeq: seq<byte>, payload: seq<byte>)
    requires |idSeq| == 4
    ensures EchoOnWire(EchoBytes(kind, idSeq, payload), kind, idSeq, payload)
  {
    var m, post := EchoBytes(kind, idSeq, payload), idSeq + payload;
    var blank := [kind, 0] + [0, 0] + post;
    var field := Store(HOST, Sum16(HOST, blank));
    EchoFields(kind, idSeq, payload);
    AcceptedOnWire(m);
    StoredOnWire(blank);
    assert field == [field[0], field[1]];
    ExactSumAround(Big, [kind, 0], field[0], field[1], post);
    ExactSumAround(Big, [kind, 0], 0, 0, post);
    NumWord(field, 0);
    NumWord(m, 2);
  }

  /** The payload of an echo request: bytes counting up. */
  function Pattern(n: nat): (r: seq<byte>)
    ensures |r| == n
  {
    seq(n, i requires 0 <= i < n => i % 0x100)
  }

  /** Fills sbuf with an echo message, the checksum last. */
  method FillEcho(sbuf: array<byte>, kind: byte, idSeq: seq<byte>, payload: seq<byte>)
    requires |idSeq| == 4 && ECHO_HDR_SIZE + |payload| <= sbuf.Length
    modifies sbuf
    ensures sbuf[..ECHO_HDR_SIZE + |payload|] == EchoBytes(kind, idSeq, payload)
  {
    ghost var post := idSeq + payload;
    MemCpy(sbuf, 0, [kind, 0, 0, 0]);
    MemCpy(sbuf, 4, idSeq);
    MemCpy(sbuf, ECHO_HDR_SIZE, payload);
    var ptr := ECHO_HDR_SIZE + |payload|;
    assert sbuf[..ptr] == [kind, 0, 0, 0] + post;
    assert [kind, 0, 0, 0] + post == [kind, 0] + [0, 0] + post;
    var sum := Checksum.Checksum(HOST, sbuf[..ptr]);
    PutSum(sbuf, ptr, kind, sum, post);
  }

  /** Stores the checksum over its zero field. */
  method PutSum(sbuf: array<byte>, ptr: nat, kind: byte, sum: word, ghost post: seq<byte>)
    requires 4 <= ptr <= sbuf.Length && sbuf[..ptr] == [kind, 0, 0, 0] + post
    modifies sbuf
    ensures sbuf[..ptr] == [kind, 0] + Store(HOST, sum) + post
  {
    ghost var before := sbuf[..ptr];
    MemCpy(sbuf, 2, Store(HOST, sum));
    assert sbuf[..ptr] == before[..2] + Store(HOST, sum) + before[4..];
  }

  /** IcmpSendEcho: a size below the header size sends the header alone. */
  method EchoRequest(pid: word, seqNo: word, size: int) returns (message: seq<byte>)
    requires size <= SBUF_SIZE
    ensures message == EchoBytes(ICMP_ECHO, Be16(pid) + Be16(seqNo),
                                 Pattern(if size < ECHO_HDR_SIZE then 0 else size - ECHO_HDR_SIZE))
    ensures |message| == (if size < 8 then 8 else size) && message[0] == 8 && message[1] == 0
    ensures Num(message, 4, 2) == pid && Num(message, 6, 2) == seqNo
    ensures forall i :: 8 <= i < |message| ==> message[i] == (i - 8) % 0x100
    ensures ExactSum(Big, message) % 0xFFFF == 0
  {
    var psize := size - ECHO_HDR_SIZE;
    var payload: seq<byte> := [];
    var i := 0;
    while i < psize
      invariant i >= 0 && (i <= psize || i == 0)
      invariant payload == Pattern(i)
    {
      payload := payload + [i % 0x100];
      i := i + 1;
    }
    var sbuf := new byte[SBUF_SIZE](_ => 0);
    FillEcho(sbuf, ICMP_ECHO, Be16(pid) + Be16(seqNo), payload);
    message := sbuf[..ECHO_HDR_SIZE + |payload|];
    RequestBytes(pid, seqNo, |payload|);
  }

  lemma RequestBytes(pid: word, seqNo: word, n: nat)
    ensures var m := EchoBytes(ICMP_ECHO, Be16(pid) + Be16(seqNo), Pattern(n));
            && m[0] == 8 && m[1] == 0 && Num(m, 4, 2) == pid && Num(m, 6, 2) == seqNo
            && (forall i :: 8 <= i < 8 + n ==> m[i] == (i - 8) % 0x100)
            && ExactSum(Big, m) % 0xFFFF == 0
  {
    var idSeq := Be16(pid) + Be16(seqNo);
    var m := EchoBytes(ICMP_ECHO, idSeq, Pattern(n));
    EchoOnWireBytes(ICMP_ECHO, idSeq, Pattern(n));
    assert forall i :: 8 <= i < 8 + n ==> m[i] == m[8..][i - 8];
    assert m[4..8][0..2] == m[4..6] && m[4..8][2..4] == m[6..8];
    WordRead(pid, m, 4);
    WordRead(seqNo, m, 6);
    NumWord(m, 4);
    NumWord(m, 6);
  }

  /** What IcmpRecv does with a message; a reply is sent back to the source of the packet. */
  datatype Outcome =
    | BadChecksum
    | SendReply(from: Ip, to: Ip, message: seq<byte>)
    | CheckReply(idSeq: seq<byte>)
    | Nothing

  /**
    after is what the reassembly buffer holds behind the data: the fields of a message shorter than
    its header are read from there.
   */
  predicate IsRequest(vip: Ip, dst: Ip, data: seq<byte>, after: seq<byte>)
    requires |data| + |after| >= ECHO_HDR_SIZE
  {
    Passes(Sum16(HOST, data)) && dst == vip && (data + after)[0] == ICMP_ECHO
  }

  /** A request shorter than its header would make the reply copy a negative length. */
  predicate Answerable(vip: Ip, dst: Ip, data: seq<byte>, after: seq<byte>)
    requires |data| + |after| >= ECHO_HDR_SIZE
  {
    IsRequest(vip, dst, data, after) ==> |data| >= ECHO_HDR_SIZE
  }

  function Accept(vip: Ip, src: Ip, dst: Ip, data: seq<byte>, after: seq<byte>): Outcome
    requires |data| + |after| >= ECHO_HDR_SIZE && Answerable(vip, dst, data, after)
  {
    var buffer := data + after;
    if !Passes(Sum16(HOST, data)) then BadChecksum
    else if dst != vip then Nothing
    else if buffer[0] == ICMP_ECHO then
      SendReply(dst, src, EchoBytes(ICMP_ECHOREPLY, data[4..8], data[ECHO_HDR_SIZE..]))
    else if buffer[0] == ICMP_ECHOREPLY then CheckReply(buffer[4..8])
    else Nothing
  }

  /**
    By position: a message for another host is dropped; an echo request (type 8) is answered from
    this host to its source with its own bytes from the fourth on; an echo reply (type 0) goes to
    the check of its identifier and sequence number; any other type is dropped.
   */
  ghost predicate Answered(vip: Ip, src: Ip, dst: Ip, data: seq<byte>, after: seq<byte>, outcome: Outcome)
    requires |data| + |after| >= 8
  {
    var kind := (data + after)[0];
    && (outcome.SendReply? <==> dst == vip && kind == 8)
    && (outcome.SendReply? ==>
          && outcome.from == vip && outcome.to == src && |data| >= 8
          && EchoOnWire(outcome.message, 0, data[4..8], data[8..]))
    && (outcome.CheckReply? <==> dst == vip && kind == 0)
    && (outcome.CheckReply? ==> outcome.idSeq == (data + after)[4..8])
  }

  method IcmpRecv(vip: Ip, src: Ip, dst: Ip, data: seq<byte>, after: seq<byte>) returns (ret: int, outcome: Outcome)
    requires |data| + |after| >= ECHO_HDR_SIZE && |data| <= SBUF_SIZE && Answerable(vip, dst, data, after)
    ensures outcome == Accept(vip, src, dst, data, after)
    ensures ret == if outcome == BadChecksum then -1 else 0
    ensures outcome == BadChecksum <==> ExactSum(Big, data) % 0xFFFF != 0
    ensures outcome != BadChecksum ==> Answered(vip, src, dst, data, after, outcome)
  {
    AcceptedOnWire(data);
    var sum := Checksum.Checksum(HOST, data);
    if sum != 0 && sum != 0xFFFF {
      return -1, BadChecksum;
    }
    var buffer := data + after;
    outcome := Nothing;
    if dst == vip {
      if buffer[0] == ICMP_ECHO {
        var payload := data[ECHO_HDR_SIZE..];
        var sbuf := new byte[SBUF_SIZE](_ => 0);
        FillEcho(sbuf, ICMP_ECHOREPLY, data[4..8], payload);
        EchoOnWireBytes(ICMP_ECHOREPLY, data[4..8], payload);
        outcome := SendReply(dst, src, sbuf[..ECHO_HDR_SIZE + |payload|]);
      } else if buffer[0] == ICMP_ECHOREPLY {
        outcome := CheckReply(buffer[4..8]);
      }
    }
    ret := 0;
  }

  lemma EchoFields(kind: byte, idSeq: seq<byte>, payload: seq<byte>)
    requires |idSeq| == 4
    ensures var m := EchoBytes(kind, idSeq, payload);
            && Passes(Sum16(HOST, m))
            && m[0] == kind && m[4..] == idSeq + payload && m[4..8] == idSeq && m[ECHO_HDR_SIZE..] == payload
  {
    FilledMessagePasses(HOST, [kind, 0], idSeq + payload);
  }

  /**
    An echo request accepted by the host it is for is answered to its source with the same
    identifier, sequence number and payload, and that answer in turn passes the source's test.
   */
  lemma EchoMirrored(asker: Ip, asked: Ip, idSeq: seq<byte>, payload: seq<byte>, after: seq<byte>, after': seq<byte>)
    requires |idSeq| == 4
    ensures Accept(asked, asker, asked, EchoBytes(ICMP_ECHO, idSeq, payload), after) ==
            SendReply(asked, asker, EchoBytes(ICMP_ECHOREPLY, idSeq, payload))
    ensures Accept(asker, asked, asker, EchoBytes(ICMP_ECHOREPLY, idSeq, payload), after') == CheckReply(idSeq)
  {
    EchoFields(ICMP_ECHO, idSeq, payload);
    EchoFields(ICMP_ECHOREPLY, idSeq, payload);
    var reply := EchoBytes(ICMP_ECHOREPLY, idSeq, payload);
    assert (reply + after')[4..8] == reply[4..8];
  }
}
