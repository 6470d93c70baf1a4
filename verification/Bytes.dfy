/** Bytes, 16-bit words and the memory operations (memcpy, htons) the stack is written in. */
module Bytes {
  datatype Option<+T> = None | Some(value: T)

  type byte = b: int | 0 <= b < 0x100
  type word = w: int | 0 <= w < 0x1_0000

  /** The two bytes htons leaves in memory: most significant first. */
  function Be16(w: word): (r: seq<byte>)
    ensures |r| == 2
  {
    [w / 0x100, w % 0x100]
  }

  /** ntohs of the two bytes at position i. */
  function WordAt(data: seq<byte>, i: nat): word
    requires i + 2 <= |data|
  {
    data[i] as int * 0x100 + data[i + 1] as int
  }

  /**
    The number in the n bytes from position i on, most significant first. What goes over the wire
    is stated with it, byte position by byte position, without the functions that write the bytes.
   */
  function Num(data: seq<byte>, i: nat, n: nat): nat
    requires i + n <= |data|
  {
    if n == 0 then 0 else Num(data, i, n - 1) * 0x100 + data[i + n - 1]
  }

  lemma NumWord(data: seq<byte>, i: nat)
    requires i + 2 <= |data|
    ensures Num(data, i, 2) == WordAt(data, i)
  {
    assert Num(data, i, 1) == data[i];
  }

  /** Numbers of a part are read alike in the whole. */
  lemma {:induction false} NumShift(data: seq<byte>, at: nat, part: seq<byte>, i: nat, n: nat)
    requires at + |part| <= |data| && data[at..at + |part|] == part && i + n <= |part|
    ensures Num(data, at + i, n) == Num(part, i, n)
  {
    if n > 0 {
      NumShift(data, at, part, i, n - 1);
      assert data[at..at + |part|][i + n - 1] == part[i + n - 1];
    }
  }

  /** memcpy(buf + off, src, |src|) as a function on the contents of buf. */
  function Overlay(buf: seq<byte>, off: nat, src: seq<byte>): (r: seq<byte>)
    requires off + |src| <= |buf|
    ensures |r| == |buf|
    ensures forall k :: 0 <= k < |buf| ==>
              r[k] == if off <= k < off + |src| then src[k - off] else buf[k]
  {
    buf[..off] + src + buf[off + |src|..]
  }

  function Zeros(n: nat): (r: seq<byte>)
    ensures |r| == n
    ensures forall k :: 0 <= k < n ==> r[k] == 0
  {
    seq(n, _ => 0)
  }

  method MemCpy(dst: array<byte>, off: nat, src: seq<byte>)
    requires off + |src| <= dst.Length
    modifies dst
    ensures dst[..] == Overlay(old(dst[..]), off, src)
  {
    for i := 0 to |src|
      invariant forall k :: 0 <= k < dst.Length ==>
                  dst[k] == if off <= k < off + i then src[k - off] else old(dst[k])
    {
      dst[off + i] := src[i];
    }
  }
}
