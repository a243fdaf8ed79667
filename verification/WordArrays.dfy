// 128-bit boundaries kept as two parallel arrays of words; the low array is dropped when every low
// word is zero.
module WordArrays {
  import opened Bits
  import opened Words

  datatype Pairs = Pairs(high: seq<nat>, low: seq<nat>)

  function LowAt(s: Pairs, i: nat): nat
    requires s.low == [] || i < |s.low|
  {
    if s.low == [] then 0 else s.low[i]
  }

  ghost predicate PairAt(s: Pairs, bounds: seq<nat>, i: nat)
    requires i < |bounds| == |s.high| && (s.low == [] || |s.low| == |bounds|)
  {
    s.high[i] < WORD && LowAt(s, i) < WORD && Wide(s.high[i], LowAt(s, i)) == bounds[i]
  }

  ghost predicate PairsOf(s: Pairs, bounds: seq<nat>) {
    && |s.high| == |bounds| && (s.low == [] || |s.low| == |bounds|)
    && forall i :: 0 <= i < |bounds| ==> PairAt(s, bounds, i)
  }

  method SplitWords(bounds: seq<nat>) returns (s: Pairs)
    requires forall i :: 0 <= i < |bounds| ==> bounds[i] < Pow2(128)
    ensures PairsOf(s, bounds)
  {
    var high: seq<nat>, low: seq<nat> := [], [];
    var needLow := false;
    for i := 0 to |bounds|
      invariant |high| == |low| == i
      invariant forall j :: 0 <= j < i ==> high[j] == High(bounds[j]) && low[j] == Low(bounds[j])
      invariant !needLow ==> forall j :: 0 <= j < i ==> low[j] == 0
    {
      high := high + [High(bounds[i])];
      low := low + [Low(bounds[i])];
      if Low(bounds[i]) != 0 {
        needLow := true;
      }
    }
    s := Pairs(high, if needLow then low else []);
    forall i | 0 <= i < |bounds| ensures PairAt(s, bounds, i) {
      WideParts(bounds[i]);
    }
  }

  // The test that a boundary lies past the key; the low words are read only on a tie.
  predicate Past(s: Pairs, i: nat, keyHigh: nat, keyLow: nat)
    requires i < |s.high| && (s.low == [] || i < |s.low|)
  {
    if s.low == [] then s.high[i] > keyHigh
    else s.high[i] > keyHigh || (s.high[i] == keyHigh && s.low[i] > keyLow)
  }

  lemma PastIsAbove(s: Pairs, bounds: seq<nat>, i: nat, keyHigh: nat, keyLow: nat)
    requires PairsOf(s, bounds) && i < |bounds| && keyHigh < WORD && keyLow < WORD
    ensures Past(s, i, keyHigh, keyLow) <==> bounds[i] > Wide(keyHigh, keyLow)
  {
    assert PairAt(s, bounds, i);
    Cmp128IsOrder(keyHigh, keyLow, s.high[i], LowAt(s, i));
  }
}
