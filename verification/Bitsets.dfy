// Bitsets, the rank that addresses a popcount-compressed array, and the word-level forms of
// both that the lookup paths compute.  A bitset of n 64-bit words is a seq<bool> of 64n bits.
module Bitsets {

  function Count(s: seq<bool>): (r: nat)
    ensures r <= |s|
  {
    if |s| == 0 then 0 else Count(s[..|s| - 1]) + (if s[|s| - 1] then 1 else 0)
  }

  // How many members come before i.
  function Rank(s: seq<bool>, i: nat): (r: nat)
    requires i <= |s|
    ensures r <= i
  {
    Count(s[..i])
  }

  lemma RankStep(s: seq<bool>, i: nat)
    requires i < |s|
    ensures Rank(s, i + 1) == Rank(s, i) + if s[i] then 1 else 0
  {
    assert s[..i + 1][..i] == s[..i];
  }

  lemma RankAll(s: seq<bool>)
    ensures Rank(s, |s|) == Count(s)
  {
    assert s[..|s|] == s;
  }

  lemma {:induction false} RankMono(s: seq<bool>, i: nat, j: nat)
    requires i <= j <= |s|
    ensures Rank(s, i) <= Rank(s, j)
    ensures i < j && s[i] ==> Rank(s, i) < Rank(s, j)
  {
    if i < j {
      RankStep(s, j - 1);
      RankMono(s, i, j - 1);
    }
  }

  lemma RankBelowCount(s: seq<bool>, i: nat)
    requires i < |s| && s[i]
    ensures Rank(s, i) < Count(s)
  {
    RankMono(s, i, |s|);
    RankAll(s);
  }

  // Setting or clearing one bit moves the ranks above it by one.
  lemma {:induction false} RankUpdate(s: seq<bool>, i: nat, b: bool, j: nat)
    requires i < |s| && j <= |s| && s[i] != b
    ensures Rank(s[i := b], j) == Rank(s, j) + if j <= i then 0 else if b then 1 else -1
  {
    if j > 0 {
      RankUpdate(s, i, b, j - 1);
      RankStep(s, j - 1);
      RankStep(s[i := b], j - 1);
    }
  }

  lemma CountUpdate(s: seq<bool>, i: nat, b: bool)
    requires i < |s| && s[i] != b
    ensures Count(s[i := b]) == Count(s) + if b then 1 else -1
  {
    RankUpdate(s, i, b, |s|);
    RankAll(s);
    RankAll(s[i := b]);
  }

  lemma {:induction false} CountSplit(s: seq<bool>, i: nat, j: nat)
    requires i <= j <= |s|
    ensures Rank(s, j) == Rank(s, i) + Count(s[i..j])
  {
    if i < j {
      CountSplit(s, i, j - 1);
      RankStep(s, j - 1);
      assert s[i..j][..j - 1 - i] == s[i..j - 1];
    }
  }

  lemma {:induction false} CountZeros(n: nat)
    ensures Count(Zeros(n)) == 0
  {
    if n > 0 {
      CountZeros(n - 1);
      assert Zeros(n)[..n - 1] == Zeros(n - 1);
    }
  }

  function Zeros(n: nat): (s: seq<bool>)
    ensures |s| == n && forall i :: 0 <= i < n ==> !s[i]
  {
    seq(n, _ => false)
  }

  // ---------------------------------------------------------------- word-level rank

  // The bits of the word holding position i that lie below it: OnesCount64(w & (bit - 1)).
  function BelowInWord(s: seq<bool>, i: nat): nat
    requires i < |s|
  {
    Count(s[i / 64 * 64..i])
  }

  // One running total per word, as the frozen nodes and the bit groups carry them.
  ghost predicate Running(s: seq<bool>, ranks: seq<nat>) {
    |s| == 64 * |ranks| && forall w :: 0 <= w < |ranks| ==> ranks[w] == Rank(s, 64 * w)
  }

  // Running total plus the count within the word is the rank.
  lemma WordRank(s: seq<bool>, ranks: seq<nat>, i: nat)
    requires Running(s, ranks) && i < |s|
    ensures i / 64 < |ranks| && ranks[i / 64] + BelowInWord(s, i) == Rank(s, i)
  {
    CountSplit(s, i / 64 * 64, i);
  }

  method RunningRanks(s: seq<bool>) returns (ranks: seq<nat>)
    requires |s| % 64 == 0
    ensures Running(s, ranks)
  {
    ranks := [];
    var running := 0;
    for word := 0 to |s| / 64
      invariant |ranks| == word && running == Rank(s, 64 * word)
      invariant forall w :: 0 <= w < word ==> ranks[w] == Rank(s, 64 * w)
    {
      ranks := ranks + [running];
      running := running + Count(s[64 * word..64 * word + 64]);
      CountSplit(s, 64 * word, 64 * word + 64);
    }
  }

  // ---------------------------------------------------------------- compressed arrays

  function InsertAt<T>(items: seq<T>, at: nat, value: T): (r: seq<T>)
    requires at <= |items|
    ensures |r| == |items| + 1 && r[at] == value
    ensures forall k :: 0 <= k < at ==> r[k] == items[k]
    ensures forall k :: at <= k < |items| ==> r[k + 1] == items[k]
  {
    items[..at] + [value] + items[at..]
  }

  function DeleteAt<T>(items: seq<T>, at: nat): (r: seq<T>)
    requires at < |items|
    ensures |r| == |items| - 1
    ensures forall k :: 0 <= k < at ==> r[k] == items[k]
    ensures forall k :: at <= k < |r| ==> r[k] == items[k + 1]
  {
    items[..at] + items[at + 1..]
  }

  // A popcount-compressed array: one item per set bit, in bit order.
  datatype Sparse<T> = Sparse(bits: seq<bool>, items: seq<T>) {

    ghost predicate Wf(n: nat) {
      |bits| == n && |items| == Count(bits)
    }

    predicate Has(i: nat) {
      i < |bits| && bits[i]
    }

    function At(i: nat): T
      requires Wf(|bits|) && Has(i)
    {
      RankBelowCount(bits, i);
      items[Rank(bits, i)]
    }

    // A member gets a new item; a new member's item goes where its rank says.
    function Put(i: nat, value: T): (r: Sparse<T>)
      requires Wf(|bits|) && i < |bits|
      ensures r.Wf(|bits|)
    {
      var at := Rank(bits, i);
      if bits[i] then
        RankBelowCount(bits, i);
        Sparse(bits, items[at := value])
      else
        CountUpdate(bits, i, true);
        RankMono(bits, i, |bits|);
        RankAll(bits);
        Sparse(bits[i := true], InsertAt(items, at, value))
    }

    function Remove(i: nat): (r: Sparse<T>)
      requires Wf(|bits|) && Has(i)
      ensures r.Wf(|bits|)
    {
      RankBelowCount(bits, i);
      CountUpdate(bits, i, false);
      Sparse(bits[i := false], DeleteAt(items, Rank(bits, i)))
    }
  }

  function Empty<T>(n: nat): (r: Sparse<T>)
    ensures r.Wf(n) && forall i :: !r.Has(i)
  {
    CountZeros(n);
    Sparse(Zeros(n), [])
  }

  lemma RankFits<T>(s: Sparse<T>, i: nat)
    requires s.Wf(|s.bits|) && i <= |s.bits|
    ensures Rank(s.bits, i) <= |s.items|
    ensures s.Has(i) ==> Rank(s.bits, i) < |s.items|
  {
    RankMono(s.bits, i, |s.bits|);
    RankAll(s.bits);
  }

  lemma RankOrder(s: seq<bool>, i: nat, j: nat)
    requires i < |s| && j < |s|
    ensures i < j && s[i] ==> Rank(s, i) < Rank(s, j)
    ensures i < j ==> Rank(s, i) <= Rank(s, j)
    ensures j < i && s[j] ==> Rank(s, j) < Rank(s, i)
    ensures j < i ==> Rank(s, j) <= Rank(s, i)
  {
    if i <= j { RankMono(s, i, j); } else { RankMono(s, j, i); }
  }

  // Put is map update: the written slot reads back, every other slot is unchanged.
  lemma PutReads<T>(s: Sparse<T>, i: nat, value: T, j: nat)
    requires s.Wf(|s.bits|) && i < |s.bits|
    ensures s.Put(i, value).Has(j) <==> s.Has(j) || j == i
    ensures s.Put(i, value).Has(j) ==> s.Put(i, value).At(j) == if j == i then value else s.At(j)
  {
    hide Rank;
    if s.Put(i, value).Has(j) {
      RankFits(s, i);
      RankFits(s, j);
      RankOrder(s.bits, i, j);
      if !s.bits[i] {
        RankUpdate(s.bits, i, true, j);
      }
    }
  }

  // Remove is map removal.
  lemma RemoveReads<T>(s: Sparse<T>, i: nat, j: nat)
    requires s.Wf(|s.bits|) && s.Has(i)
    ensures s.Remove(i).Has(j) <==> s.Has(j) && j != i
    ensures s.Remove(i).Has(j) ==> s.Remove(i).At(j) == s.At(j)
  {
    hide Rank;
    if s.Remove(i).Has(j) {
      RankFits(s, i);
      RankFits(s, j);
      RankOrder(s.bits, i, j);
      RankUpdate(s.bits, i, false, j);
    }
  }
}
