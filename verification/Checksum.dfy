/**
  The Internet checksum (sock.c), proved against sections 1 and 2 of RFC 1071.
 */
module Checksum {
  import opened Bytes

  /** Byte order of the machine: it decides what a 16-bit load or store sees. */
  datatype ByteOrder = Little | Big

  /** The order of the machines the program is built for. */
  const HOST: ByteOrder := Little

  function Load(o: ByteOrder, first: byte, second: byte): word {
    match o
    case Little => first + 0x100 * second
    case Big => 0x100 * first + second
  }

  function Store(o: ByteOrder, w: word): (r: seq<byte>)
    ensures |r| == 2
    ensures Load(o, r[0], r[1]) == w
  {
    match o
    case Little => [w % 0x100, w / 0x100]
    case Big => [w / 0x100, w % 0x100]
  }

  // ---------------------------------------------------------------------
  // Specification: RFC 1071
  // ---------------------------------------------------------------------

  /** 16-bit one's complement addition: a carry out of bit 15 re-enters at bit 0. */
  function OnesAdd(x: word, y: word): word {
    if x + y > 0xFFFF then x + y - 0xFFFF else x + y
  }

  /** The one's complement sum of the 16-bit words of data; an odd last byte is padded with zero. */
  function OnesSum(o: ByteOrder, data: seq<byte>): word {
    if |data| == 0 then 0
    else if |data| == 1 then Load(o, data[0], 0)
    else OnesAdd(Load(o, data[0], data[1]), OnesSum(o, data[2..]))
  }

  /** The same sum without any carry handling, as an unbounded number. */
  function ExactSum(o: ByteOrder, data: seq<byte>): nat {
    if |data| == 0 then 0
    else if |data| == 1 then Load(o, data[0], 0)
    else Load(o, data[0], data[1]) + ExactSum(o, data[2..])
  }

  /** The checksum field for data: the complement of the one's complement sum. */
  function Sum16(o: ByteOrder, data: seq<byte>): word {
    0xFFFF - OnesSum(o, data)
  }

  /** The test every receiver of the stack makes on the sum of a whole message. */
  predicate Passes(sum: word) {
    sum == 0 || sum == 0xFFFF
  }

  /** Representative in 1..65535 of a positive number modulo 65535; zero stands for itself. */
  function Norm(s: nat): word {
    if s <= 0xFFFF then s else Norm(s - 0xFFFF)
  }

  // ---------------------------------------------------------------------
  // Arithmetic modulo 65535
  // ---------------------------------------------------------------------

  lemma ModShift(x: nat, k: nat)
    ensures (x + 0xFFFF * k) % 0xFFFF == x % 0xFFFF
  {
  }

  lemma {:induction false} NormIsResidue(s: nat)
    ensures Norm(s) == if s == 0 then 0 else (s - 1) % 0xFFFF + 1
  {
    if s > 0xFFFF {
      NormIsResidue(s - 0xFFFF);
      ModShift(s - 0x1_0000, 1);
    }
  }

  lemma NormShift(x: nat, k: nat)
    requires x > 0
    ensures Norm(x + 0xFFFF * k) == Norm(x)
  {
    NormIsResidue(x);
    NormIsResidue(x + 0xFFFF * k);
    ModShift(x - 1, k);
  }

  lemma ShiftResidue(s: nat)
    requires s > 0
    ensures s % 0xFFFF == if (s - 1) % 0xFFFF == 0xFFFE then 0 else (s - 1) % 0xFFFF + 1
  {
  }

  /** Two sums have the same representative exactly when they agree modulo 65535 and on being zero. */
  lemma NormEqual(x: nat, y: nat)
    ensures Norm(x) == Norm(y) <==> x % 0xFFFF == y % 0xFFFF && (x == 0 <==> y == 0)
  {
    NormIsResidue(x);
    NormIsResidue(y);
    if x > 0 {
      ShiftResidue(x);
    }
    if y > 0 {
      ShiftResidue(y);
    }
  }

  /** The low half of a 32-bit sum plus its high half. */
  function Fold(s: nat): (r: nat)
    ensures r <= s
  {
    s % 0x1_0000 + s / 0x1_0000
  }

  /** One fold, anywhere inside a sum. */
  lemma FoldKeepsNorm(s: nat, rest: nat)
    ensures Norm(Fold(s) + rest) == Norm(s + rest)
  {
    var x := Fold(s) + rest;
    assert s + rest == x + 0xFFFF * (s / 0x1_0000);
    if x > 0 {
      NormShift(x, s / 0x1_0000);
    }
  }

  lemma OnesAddIsNorm(x: word, s: nat)
    ensures OnesAdd(x, Norm(s)) == Norm(x + s)
  {
    if s > 0 {
      NormIsResidue(s);
      var k := (s - 1) / 0xFFFF;
      assert x + s == x + Norm(s) as int + 0xFFFF * k;
      NormShift(x + Norm(s), k);
    }
  }

  /** The end-around-carry sum is the exact sum modulo 65535, and zero only for all-zero data. */
  lemma {:induction false} OnesSumIsNorm(o: ByteOrder, data: seq<byte>)
    ensures OnesSum(o, data) == Norm(ExactSum(o, data))
  {
    if |data| > 1 {
      OnesSumIsNorm(o, data[2..]);
      OnesAddIsNorm(Load(o, data[0], data[1]), ExactSum(o, data[2..]));
    }
  }

  /** A receiver accepts a message exactly when its word sum is divisible by 65535. */
  lemma AcceptedIff(o: ByteOrder, data: seq<byte>)
    ensures Passes(Sum16(o, data)) <==> ExactSum(o, data) % 0xFFFF == 0
  {
    var s := ExactSum(o, data);
    OnesSumIsNorm(o, data);
    NormIsResidue(s);
    if s > 0 {
      ShiftResidue(s);
    }
  }

  lemma {:induction false} ExactSumAppend(o: ByteOrder, a: seq<byte>, b: seq<byte>)
    requires |a| % 2 == 0
    ensures ExactSum(o, a + b) == ExactSum(o, a) + ExactSum(o, b)
  {
    if |a| == 0 {
      assert a + b == b;
    } else {
      assert (a + b)[2..] == a[2..] + b;
      ExactSumAppend(o, a[2..], b);
    }
  }

  /** A message seen as the word (x, y) at an even position inside it. */
  lemma ExactSumAround(o: ByteOrder, pre: seq<byte>, x: byte, y: byte, post: seq<byte>)
    requires |pre| % 2 == 0
    ensures ExactSum(o, pre + [x, y] + post) == ExactSum(o, pre) + Load(o, x, y) + ExactSum(o, post)
  {
    assert pre + [x, y] + post == pre + ([x, y] + post);
    ExactSumAppend(o, pre, [x, y] + post);
    ExactSumAppend(o, [x, y], post);
    assert [x, y][2..] == [];
  }

  // ---------------------------------------------------------------------
  // The accumulator
  // ---------------------------------------------------------------------

  /** u_int32_t and its wrapping addition. */
  type u32 = x: int | 0 <= x < 0x1_0000_0000

  function Add32(x: u32, y: u32): u32 {
    if x + y >= 0x1_0000_0000 then x + y - 0x1_0000_0000 else x + y
  }

  /** One round of the summing loops: add a word, fold early if bit 31 is set. */
  function Accumulate(sum: u32, w: word): u32 {
    var s := Add32(sum, w);
    if s >= 0x8000_0000 then Fold(s) else s
  }

  /** No addition of the loop, started from sum, ever carries out of bit 31. */
  predicate NeverWraps(o: ByteOrder, sum: u32, data: seq<byte>)
    decreases |data|
  {
    if |data| == 0 then true
    else if |data| == 1 then sum + Load(o, data[0], 0) < 0x1_0000_0000
    else
      var w := Load(o, data[0], data[1]);
      sum + w < 0x1_0000_0000 && NeverWraps(o, Accumulate(sum, w), data[2..])
  }

  /** Early folding keeps the accumulator clear of wrap-around for data of any length. */
  lemma {:induction false} AccumulatorNeverWraps(o: ByteOrder, sum: u32, data: seq<byte>)
    requires sum <= 0x8000_FFFF
    ensures NeverWraps(o, sum, data)
    decreases |data|
  {
    if |data| > 1 {
      AccumulatorNeverWraps(o, Accumulate(sum, Load(o, data[0], data[1])), data[2..]);
    }
  }

  /** Within these bounds a round neither wraps nor changes the sum modulo 65535. */
  lemma AccumulateRound(sum: u32, w: word, tail: nat)
    requires sum <= 0x8000_FFFF
    ensures Accumulate(sum, w) < 0x8000_0000
    ensures Norm(Accumulate(sum, w) + tail) == Norm(sum + w + tail)
  {
    var s := sum + w;
    if s >= 0x8000_0000 {
      FoldKeepsNorm(s, tail);
    }
  }

  /** The accumulator after all full words of data. */
  function AccumulateWords(o: ByteOrder, sum: u32, data: seq<byte>): u32
    decreases |data|
  {
    if |data| <= 1 then sum else AccumulateWords(o, Accumulate(sum, Load(o, data[0], data[1])), data[2..])
  }

  /** What the loop leaves to be added: nothing, or an odd last byte. */
  function OddByte(o: ByteOrder, data: seq<byte>): word {
    if |data| % 2 == 1 then Load(o, data[|data| - 1], 0) else 0
  }

  /** The deferred-carry loop moves the exact sum into the accumulator, modulo 65535. */
  lemma {:induction false} AccumulateWordsKeepsNorm(o: ByteOrder, sum: u32, data: seq<byte>, tail: nat)
    requires sum <= 0x8000_FFFF
    ensures AccumulateWords(o, sum, data) <= 0x8000_FFFF
    ensures sum < 0x8000_0000 ==> AccumulateWords(o, sum, data) < 0x8000_0000
    ensures Norm(AccumulateWords(o, sum, data) + OddByte(o, data) + tail) == Norm(sum + ExactSum(o, data) + tail)
    decreases |data|
  {
    if |data| > 1 {
      var w, rest := Load(o, data[0], data[1]), data[2..];
      assert OddByte(o, data) == OddByte(o, rest);
      AccumulateRound(sum, w, ExactSum(o, rest) + tail);
      AccumulateWordsKeepsNorm(o, Accumulate(sum, w), rest, tail);
    }
  }

  /** The accumulator after the loop and the odd last byte. */
  function AccumulateAll(o: ByteOrder, sum: u32, data: seq<byte>): u32 {
    var s := AccumulateWords(o, sum, data);
    if |data| % 2 == 1 then Add32(s, OddByte(o, data)) else s
  }

  lemma AccumulateAllKeepsNorm(o: ByteOrder, sum: u32, data: seq<byte>)
    requires sum <= 0x8000_FFFF
    ensures Norm(AccumulateAll(o, sum, data)) == Norm(sum + ExactSum(o, data))
  {
    AccumulateWordsKeepsNorm(o, sum, data, 0);
  }

  // ---------------------------------------------------------------------
  // checksum and checksum2
  // ---------------------------------------------------------------------

  /** The final folds, until nothing is left above bit 15, and the complement. */
  method FoldAndComplement(start: u32) returns (r: word)
    ensures r == 0xFFFF - Norm(start)
  {
    var sum: nat := start;
    while sum / 0x1_0000 != 0
      invariant sum >= 0
      invariant Norm(sum) == Norm(start)
      decreases sum
    {
      FoldKeepsNorm(sum, 0);
      sum := Fold(sum);
    }
    r := 0xFFFF - sum;
  }

  /** The summing loop over whole words, with its early fold. */
  method AddWords(o: ByteOrder, start: u32, data: seq<byte>) returns (sum: u32)
    ensures sum == AccumulateWords(o, start, data)
  {
    sum := start;
    var c := |data|;
    while c > 1
      invariant 0 <= c <= |data|
      invariant AccumulateWords(o, sum, data[|data| - c..]) == AccumulateWords(o, start, data)
    {
      var at := |data| - c;
      assert data[at..][2..] == data[at + 2..];
      sum := Add32(sum, Load(o, data[at], data[at + 1]));
      if sum >= 0x8000_0000 {
        sum := Fold(sum);
      }
      c := c - 2;
    }
  }

  /** sum is a state of the accumulator from which adding rest gives total, modulo 65535. */
  ghost predicate Carries(sum: u32, rest: nat, total: nat) {
    sum <= 0x8000_FFFF && Norm(sum + rest) == Norm(total)
  }

  /** The summing loop, the odd last byte and the final folds, shared by both checksums. */
  method Finish(o: ByteOrder, start: u32, data: seq<byte>, ghost all: seq<byte>) returns (r: word)
    requires Carries(start, ExactSum(o, data), ExactSum(o, all))
    ensures r == Sum16(o, all)
  {
    var sum := AddWords(o, start, data);
    if |data| % 2 == 1 {
      sum := Add32(sum, Load(o, data[|data| - 1], 0));
    }
    assert sum == AccumulateAll(o, start, data);
    r := FoldAndComplement(sum);
    assert r == Sum16(o, all) by {
      AccumulateAllKeepsNorm(o, start, data);
      OnesSumIsNorm(o, all);
    }
  }

  method Checksum(o: ByteOrder, data: seq<byte>) returns (r: word)
    ensures r == Sum16(o, data)
  {
    r := Finish(o, 0, data, data);
  }

  /**
    What checksum2 really sums. For an even first length this is the concatenation; for an
    odd one the pair of bytes that straddles the two buffers enters with its bytes exchanged.
   */
  function Joined(a: seq<byte>, b: seq<byte>): (r: seq<byte>)
    requires |a| % 2 == 1 ==> |b| > 0
    ensures |r| == |a| + |b|
  {
    if |a| % 2 == 0 then a + b
    else a[..|a| - 1] + [b[0], a[|a| - 1]] + b[1..]
  }

  method Checksum2(o: ByteOrder, a: seq<byte>, b: seq<byte>) returns (r: word)
    requires |a| % 2 == 1 ==> o == Little && |b| > 0
    ensures r == Sum16(o, Joined(a, b))
  {
    var sum := AddWords(o, 0, a);
    if |a| % 2 == 1 {
      // the last byte of the first buffer shifted up plus the first of the second, in 16 bits
      var val: int := (a[|a| - 1] as int * 0x100 + b[0] as int) % 0x1_0000;
      assert val == Load(o, b[0], a[|a| - 1]);
      OddSeamKeepsNorm(o, a, b);
      sum := Add32(sum, val);
      // the mask 0X8000000 has a digit less than the others: bit 27
      if sum / 0x800_0000 % 2 == 1 {
        sum := Fold(sum);
      }
      r := Finish(o, sum, b[1..], Joined(a, b));
    } else {
      EvenSeamKeepsNorm(o, a, b);
      r := Finish(o, sum, b, Joined(a, b));
    }
  }

  lemma EvenSeamKeepsNorm(o: ByteOrder, a: seq<byte>, b: seq<byte>)
    requires |a| % 2 == 0
    ensures Carries(AccumulateWords(o, 0, a), ExactSum(o, b), ExactSum(o, Joined(a, b)))
  {
    EvenWordsKeepNorm(o, a, ExactSum(o, b));
    ExactSumAppend(o, a, b);
  }

  lemma FoldCarries(sum: u32, rest: nat, total: nat)
    requires Carries(sum, rest, total)
    ensures Carries(Fold(sum), rest, total)
  {
    FoldKeepsNorm(sum, rest);
  }

  lemma AddCarries(acc: u32, w: word, rest: nat, total: nat)
    requires acc < 0x8000_0000 && Norm(acc + (w + rest)) == Norm(total)
    ensures Carries(Add32(acc, w), rest, total)
  {
    assert acc + (w + rest) == Add32(acc, w) + rest;
  }

  /** The straddling pair of an odd first buffer, with or without the fold on bit 27. */
  lemma OddSeamKeepsNorm(o: ByteOrder, a: seq<byte>, b: seq<byte>)
    requires |a| % 2 == 1 && |b| > 0
    ensures var s := Add32(AccumulateWords(o, 0, a), Load(o, b[0], a[|a| - 1]));
            var rest, total := ExactSum(o, b[1..]), ExactSum(o, Joined(a, b));
            Carries(s, rest, total) && Carries(Fold(s), rest, total)
  {
    var pre, x, y, post := a[..|a| - 1], a[|a| - 1], b[0], b[1..];
    var rest, total := ExactSum(o, post), ExactSum(o, Joined(a, b));
    assert total == ExactSum(o, pre) + Load(o, y, x) + rest by {
      ExactSumAround(o, pre, y, x, post);
    }
    assert AccumulateWords(o, 0, a) == AccumulateWords(o, 0, pre) by {
      assert a == pre + [x];
      AccumulateDropsOddByte(o, 0, pre, x);
    }
    SeamCarries(o, pre, Load(o, y, x), rest, total);
    FoldCarries(Add32(AccumulateWords(o, 0, pre), Load(o, y, x)), rest, total);
  }

  lemma SeamCarries(o: ByteOrder, pre: seq<byte>, w: word, rest: nat, total: nat)
    requires |pre| % 2 == 0 && total == ExactSum(o, pre) + w + rest
    ensures Carries(Add32(AccumulateWords(o, 0, pre), w), rest, total)
  {
    EvenWordsKeepNorm(o, pre, w + rest);
    AddCarries(AccumulateWords(o, 0, pre), w, rest, total);
  }

  lemma EvenWordsKeepNorm(o: ByteOrder, a: seq<byte>, tail: nat)
    requires |a| % 2 == 0
    ensures AccumulateWords(o, 0, a) < 0x8000_0000
    ensures Norm(AccumulateWords(o, 0, a) + tail) == Norm(ExactSum(o, a) + tail)
  {
    AccumulateWordsKeepsNorm(o, 0, a, tail);
  }

  lemma {:induction false} AccumulateDropsOddByte(o: ByteOrder, sum: u32, pre: seq<byte>, x: byte)
    requires |pre| % 2 == 0
    ensures AccumulateWords(o, sum, pre + [x]) == AccumulateWords(o, sum, pre)
    decreases |pre|
  {
    if |pre| > 0 {
      assert (pre + [x])[2..] == pre[2..] + [x];
      AccumulateDropsOddByte(o, Accumulate(sum, Load(o, pre[0], pre[1])), pre[2..], x);
    }
  }

  /**
    checksum2 computes the checksum of the concatenation exactly when the first length is
    even or the two bytes at the seam are equal.
   */
  lemma Checksum2IsConcatenationIff(a: seq<byte>, b: seq<byte>)
    requires |a| % 2 == 1 ==> |b| > 0
    ensures Sum16(Little, Joined(a, b)) == Sum16(Little, a + b)
            <==> (|a| % 2 == 0 || a[|a| - 1] == b[0])
  {
    if |a| % 2 == 1 {
      var pre, x, y, post := a[..|a| - 1], a[|a| - 1], b[0], b[1..];
      assert a + b == pre + [x, y] + post;
      ExactSumAround(Little, pre, x, y, post);
      ExactSumAround(Little, pre, y, x, post);
      OnesSumIsNorm(Little, a + b);
      OnesSumIsNorm(Little, Joined(a, b));
      ExchangedPair(ExactSum(Little, pre) + ExactSum(Little, post), x, y);
    }
  }

  lemma ExchangedPair(s: nat, x: byte, y: byte)
    ensures Norm(s + Load(Little, x, y)) == Norm(s + Load(Little, y, x)) <==> x == y
  {
    var l, r := s + Load(Little, x, y), s + Load(Little, y, x);
    NormEqual(l, r);
    if x < y {
      assert l == r + 0xFF * (y - x);
      SmallGap(r, 0xFF * (y - x));
    } else if y < x {
      assert r == l + 0xFF * (x - y);
      SmallGap(l, 0xFF * (x - y));
    }
  }

  lemma SmallGap(x: nat, d: nat)
    requires 0 < d < 0xFFFF
    ensures (x + d) % 0xFFFF != x % 0xFFFF
  {
  }

  // ---------------------------------------------------------------------
  // What the checksum is for
  // ---------------------------------------------------------------------

  /** Storing the checksum in a zeroed field at an even position makes the whole message pass. */
  lemma FilledMessagePasses(o: ByteOrder, pre: seq<byte>, post: seq<byte>)
    requires |pre| % 2 == 0
    ensures Passes(Sum16(o, pre + Store(o, Sum16(o, pre + [0, 0] + post)) + post))
  {
    var blank := pre + [0, 0] + post;
    FilledPasses(o, pre, post, Sum16(o, blank));
  }

  /** The same for any field value congruent to the checksum, such as UDP's 0xFFFF for 0. */
  lemma FilledPasses(o: ByteOrder, pre: seq<byte>, post: seq<byte>, c: word)
    requires |pre| % 2 == 0
    requires c % 0xFFFF == Sum16(o, pre + [0, 0] + post) % 0xFFFF
    ensures Passes(Sum16(o, pre + Store(o, c) + post))
  {
    var blank := pre + [0, 0] + post;
    var f := Store(o, c);
    assert f == [f[0], f[1]];
    ExactSumAround(o, pre, 0, 0, post);
    ExactSumAround(o, pre, f[0], f[1], post);
    OnesSumIsNorm(o, blank);
    AcceptedIff(o, pre + f + post);
    Complement(ExactSum(o, blank), c);
  }

  lemma Complement(s: nat, c: word)
    requires c % 0xFFFF == (0xFFFF - Norm(s)) % 0xFFFF
    ensures (s + c) % 0xFFFF == 0
  {
    NormIsResidue(s);
  }

  /**
    Changing one 16-bit word of an accepted message is detected, except for the change
    between the two zeros of one's complement arithmetic.
   */
  lemma OneWordErrorDetected(o: ByteOrder, pre: seq<byte>, x: byte, y: byte, x': byte, y': byte, post: seq<byte>)
    requires |pre| % 2 == 0
    requires Passes(Sum16(o, pre + [x, y] + post))
    requires (x, y) != (x', y')
    ensures Passes(Sum16(o, pre + [x', y'] + post))
            <==> (x == y == 0 && x' == y' == 0xFF) || (x == y == 0xFF && x' == y' == 0)
  {
    ExactSumAround(o, pre, x, y, post);
    ExactSumAround(o, pre, x', y', post);
    AcceptedIff(o, pre + [x, y] + post);
    AcceptedIff(o, pre + [x', y'] + post);
    ReplacedWord(ExactSum(o, pre) + ExactSum(o, post), Load(o, x, y), Load(o, x', y'));
  }

  lemma ReplacedWord(s: nat, w: word, w': word)
    requires (s + w) % 0xFFFF == 0
    ensures (s + w') % 0xFFFF == 0 <==> w == w' || (w == 0 && w' == 0xFFFF) || (w == 0xFFFF && w' == 0)
  {
    if w < w' < w + 0xFFFF {
      SmallGap(s + w, w' - w);
    } else if w' < w < w' + 0xFFFF {
      SmallGap(s + w', w - w');
    }
  }

  /** A changed odd last byte is always detected. */
  lemma OddByteErrorDetected(o: ByteOrder, pre: seq<byte>, x: byte, x': byte)
    requires |pre| % 2 == 0
    requires Passes(Sum16(o, pre + [x])) && x != x'
    ensures !Passes(Sum16(o, pre + [x']))
  {
    ExactSumAppend(o, pre, [x]);
    ExactSumAppend(o, pre, [x']);
    AcceptedIff(o, pre + [x]);
    AcceptedIff(o, pre + [x']);
    ReplacedWord(ExactSum(o, pre), Load(o, x, 0), Load(o, x', 0));
  }

  // ---------------------------------------------------------------------
  // Byte order independence: RFC 1071, section 2(B)
  // ---------------------------------------------------------------------

  function Swap(w: word): word {
    w % 0x100 * 0x100 + w / 0x100
  }

  lemma SameResidue(x: nat, y: nat, k: nat)
    requires x == y + 0xFFFF * k
    ensures x % 0xFFFF == y % 0xFFFF
  {
    ModShift(y, k);
  }

  lemma AddResidue(a: nat, x: nat, y: nat)
    requires x % 0xFFFF == y % 0xFFFF
    ensures (a + x) % 0xFFFF == (a + y) % 0xFFFF
  {
  }

  lemma LoadBigIsLittleTimes256(x: byte, y: byte)
    ensures 0x100 * Load(Little, x, y) as int == Load(Big, x, y) as int + 0xFFFF * y as int
  {
  }

  /** Summing in the other byte order multiplies the exact sum by 256, modulo 65535. */
  lemma {:induction false} BigIsLittleTimes256(data: seq<byte>)
    ensures ExactSum(Big, data) % 0xFFFF == 0x100 * ExactSum(Little, data) % 0xFFFF
    ensures ExactSum(Big, data) == 0 <==> ExactSum(Little, data) == 0
  {
    if |data| == 1 {
      LoadBigIsLittleTimes256(data[0], 0);
    } else if |data| > 1 {
      var x, y, rest := data[0], data[1], data[2..];
      BigIsLittleTimes256(rest);
      LoadBigIsLittleTimes256(x, y);
      AddResidue(Load(Big, x, y), ExactSum(Big, rest), 0x100 * ExactSum(Little, rest));
      SameResidue(0x100 * ExactSum(Little, data), Load(Big, x, y) + 0x100 * ExactSum(Little, rest), y);
    }
  }

  lemma TimesUnit(l: nat)
    ensures 0x100 * l % 0xFFFF == 0 <==> l % 0xFFFF == 0
  {
    if 0x100 * l % 0xFFFF == 0 {
      var k := 0x100 * l / 0xFFFF;
      assert l == 0xFFFF * (0x100 * k - l);
    }
  }

  /** Acceptance by the host, on the words as they are on the wire. */
  lemma AcceptedOnWire(data: seq<byte>)
    ensures Passes(Sum16(HOST, data)) <==> ExactSum(Big, data) % 0xFFFF == 0
    ensures ExactSum(HOST, data) % 0xFFFF == 0 <==> ExactSum(Big, data) % 0xFFFF == 0
  {
    AcceptedIff(HOST, data);
    BigIsLittleTimes256(data);
    TimesUnit(ExactSum(Little, data));
  }

  /** The field stored by the host completes the word sum on the wire to a multiple of 65535. */
  lemma StoredOnWire(data: seq<byte>)
    ensures var field := Store(HOST, Sum16(HOST, data));
            && (ExactSum(Big, data) + Num(field, 0, 2)) % 0xFFFF == 0
            && (Num(field, 0, 2) == 0xFFFF <==> ExactSum(Big, data) == 0)
            && (Num(field, 0, 2) == 0 <==> Sum16(HOST, data) == 0)
  {
    var field := Store(HOST, Sum16(HOST, data));
    ByteOrderIndependent(data);
    OnesSumIsNorm(Big, data);
    NumWord(field, 0);
    Complement(ExactSum(Big, data), Sum16(Big, data));
    NormIsResidue(ExactSum(Big, data));
  }

  lemma WordOnWire(w: word)
    ensures ExactSum(Big, Be16(w)) == w
  {
  }

  lemma SwapIsTimes256(s: nat)
    ensures Swap(Norm(s)) == Norm(0x100 * s)
  {
    if s > 0 {
      NormIsResidue(s);
      var n: int := Norm(s);
      var k := (s - 1) / 0xFFFF;
      assert s == n + 0xFFFF * k;
      assert 0x100 * n == Swap(n) + 0xFFFF * (n / 0x100);
      assert 0x100 * s == Swap(n) + 0xFFFF * (n / 0x100 + 0x100 * k);
      NormShift(Swap(n), n / 0x100 + 0x100 * k);
    }
  }

  /** The two bytes put in the message do not depend on the machine's byte order. */
  lemma ByteOrderIndependent(data: seq<byte>)
    ensures Store(Little, Sum16(Little, data)) == Store(Big, Sum16(Big, data))
  {
    BigIsLittleTimes256(data);
    OnesSumIsNorm(Little, data);
    OnesSumIsNorm(Big, data);
    var l := ExactSum(Little, data);
    NormEqual(ExactSum(Big, data), 0x100 * l);
    SwapIsTimes256(l);
    SwappedStores(Norm(l));
  }

  lemma SwappedStores(n: word)
    ensures Store(Little, 0xFFFF - n) == Store(Big, 0xFFFF - Swap(n))
  {
    var h, l := n / 0x100, n % 0x100;
    Digits(0xFF - h, 0xFF - l);
    Digits(0xFF - l, 0xFF - h);
  }

  lemma Digits(h: byte, l: byte)
    ensures (h as int * 0x100 + l) / 0x100 == h && (h as int * 0x100 + l) % 0x100 == l
  {
  }
}
