/**
  Searching a fixed table by key. Each of the three tables of the stack (reassembly buffers, ARP
  entries, UDP ports) is a row of slots of which some are free; what matters for the searches is
  the row of their keys, with one reserved value for a free slot.
 */
module Slots {
  /** No key but the free one occurs twice. */
  ghost predicate Distinct(keys: seq<int>, free: int) {
    forall i, j :: 0 <= i < j < |keys| && keys[i] == keys[j] ==> keys[i] == free
  }

  /** The first of the first n slots with key k, or -1. */
  function FindKey(keys: seq<int>, k: int, n: nat): (r: int)
    requires n <= |keys|
    ensures -1 <= r < n
    ensures r == -1 <==> forall j :: 0 <= j < n ==> keys[j] != k
    ensures r != -1 ==> keys[r] == k && forall j :: 0 <= j < r ==> keys[j] != k
  {
    if n == 0 then -1
    else
      var r := FindKey(keys, k, n - 1);
      if r == -1 && keys[n - 1] == k then n - 1 else r
  }

  /** The last of the first n slots with key k, or -1. */
  function FindLastKey(keys: seq<int>, k: int, n: nat): (r: int)
    requires n <= |keys|
    ensures -1 <= r < n
    ensures r == -1 <==> forall j :: 0 <= j < n ==> keys[j] != k
    ensures r != -1 ==> keys[r] == k && forall j :: r < j < n ==> keys[j] != k
  {
    if n == 0 then -1
    else if keys[n - 1] == k then n - 1
    else FindLastKey(keys, k, n - 1)
  }

  /** The first slot in use with the least time, among those with a time below init, or -1. */
  function FindOldest(keys: seq<int>, free: int, times: seq<int>, init: int, n: nat): (r: int)
    requires n <= |keys| == |times|
    ensures -1 <= r < n
    ensures r == -1 <==> forall j :: 0 <= j < n && keys[j] != free ==> times[j] >= init
    ensures r != -1 ==>
              && keys[r] != free && times[r] < init
              && (forall j :: 0 <= j < n && keys[j] != free ==> times[r] <= times[j])
              && (forall j :: 0 <= j < r && keys[j] != free ==> times[r] < times[j])
  {
    if n == 0 then -1
    else
      var r := FindOldest(keys, free, times, init, n - 1);
      var time := if r == -1 then init else times[r];
      if keys[n - 1] != free && times[n - 1] < time then n - 1 else r
  }

  lemma FoundFirst(keys: seq<int>, k: int, i: nat)
    requires i < |keys| && FindKey(keys, k, i) == -1 && keys[i] == k
    ensures FindKey(keys, k, |keys|) == i
  {
  }

  lemma FoundWhereItIs(keys: seq<int>, free: int, i: nat)
    requires Distinct(keys, free) && i < |keys| && keys[i] != free
    ensures FindKey(keys, keys[i], |keys|) == i
  {
  }

  /** The keys in use among the first n slots. */
  ghost function KeySet(keys: seq<int>, free: int, n: nat): (r: set<int>)
    requires n <= |keys|
    ensures forall k :: k in r <==> k != free && FindKey(keys, k, n) != -1
    ensures |r| <= n
  {
    if n == 0 then {} else KeySet(keys, free, n - 1) + (if keys[n - 1] == free then {} else {keys[n - 1]})
  }

  lemma SubsetSize(a: set<int>, b: set<int>)
    requires a <= b
    ensures |a| <= |b|
  {
    assert b == a + (b - a);
  }

  /** A table without a free slot holds as many keys as slots. */
  lemma {:induction false} FullCount(keys: seq<int>, free: int, n: nat)
    requires n <= |keys| && Distinct(keys, free) && FindKey(keys, free, n) == -1
    ensures |KeySet(keys, free, n)| == n
  {
    if n > 0 {
      FullCount(keys, free, n - 1);
      assert FindKey(keys, keys[n - 1], n - 1) == -1;
    }
  }

  /** A table with a free slot holds fewer. */
  lemma {:induction false} SlackCount(keys: seq<int>, free: int, n: nat)
    requires n <= |keys| && FindKey(keys, free, n) != -1
    ensures |KeySet(keys, free, n)| < n
  {
    var before := KeySet(keys, free, n - 1);
    if keys[n - 1] != free {
      SlackCount(keys, free, n - 1);
      assert |before + {keys[n - 1]}| <= |before| + 1;
    }
  }

  /** Writing one slot concerns only the keys that were or are in it. */
  lemma FindAfterWrite(keys: seq<int>, free: int, i: nat, k: int, x: int)
    requires i < |keys| && Distinct(keys, free) && x != free
    requires k == free || FindKey(keys, k, |keys|) == -1 || FindKey(keys, k, |keys|) == i
    ensures FindKey(keys[i := k], x, |keys|) ==
            if x == k then i else if x == keys[i] then -1 else FindKey(keys, x, |keys|)
  {
    var keys' := keys[i := k];
    var j := FindKey(keys, x, |keys|);
    if x == k {
      WriteKeepsDistinct(keys, free, i, k);
      FoundWhereItIs(keys', free, i);
    } else if x != keys[i] && j != -1 {
      WriteKeepsDistinct(keys, free, i, k);
      FoundWhereItIs(keys', free, j);
    }
  }

  lemma WriteKeepsDistinct(keys: seq<int>, free: int, i: nat, k: int)
    requires i < |keys| && Distinct(keys, free)
    requires k == free || FindKey(keys, k, |keys|) == -1 || FindKey(keys, k, |keys|) == i
    ensures Distinct(keys[i := k], free)
  {
  }
}
