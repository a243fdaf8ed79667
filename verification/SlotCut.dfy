// slotlpm's second cut: inside a crowded slot the steps are bucketed by one more octet, the one
// below the level-one window that spreads them best among those whose order is the key order.
module SlotCut {
  import opened Bits
  import opened Slots
  import opened SlotSweep

  datatype SubEntry = SubEntry(off: nat, id: nat)

  const SUB_ENTRIES := 257

  function Bounds(steps: seq<Step>): (r: seq<nat>)
    ensures |r| == |steps| && forall i :: 0 <= i < |steps| ==> r[i] == steps[i].bound
  {
    seq(|steps|, i requires 0 <= i < |steps| => steps[i].bound)
  }

  // The winner just before step k begins.
  function BaseID(steps: seq<Step>, k: nat): nat
    requires k <= |steps|
  {
    if k > 0 then steps[k - 1].id else 0
  }

  // ---------------------------------------------------------------- choosing the octet

  function Load(bs: seq<nat>, shift: nat, bucket: nat): nat {
    if |bs| == 0 then 0
    else Load(bs[..|bs| - 1], shift, bucket) + if OctetFrom(bs[|bs| - 1], shift) == bucket then 1 else 0
  }

  // The fullest bucket's load.
  function WorstLoad(bs: seq<nat>, shift: nat): nat {
    if |bs| == 0 then 0
    else
      var worst, load := WorstLoad(bs[..|bs| - 1], shift), Load(bs, shift, OctetFrom(bs[|bs| - 1], shift));
      if load > worst then load else worst
  }

  lemma {:induction false} WorstBounds(bs: seq<nat>, shift: nat, bucket: nat)
    ensures Load(bs, shift, bucket) <= WorstLoad(bs, shift)
  {
    if |bs| > 0 {
      WorstBounds(bs[..|bs| - 1], shift, bucket);
    }
  }

  ghost predicate Constant(bs: seq<nat>, shift: nat) {
    forall i :: 0 <= i < |bs| ==> OctetFrom(bs[i], shift) == OctetFrom(bs[0], shift)
  }

  // The octet k places below the top one.
  function Down(first: nat, k: nat): nat
    requires 8 * k <= first
  {
    first - 8 * k
  }

  // The k octets above the one k places down are each the same in all of bs.
  ghost predicate Eligible(bs: seq<nat>, first: nat, k: nat) {
    8 * k <= first && forall j :: 0 <= j < k ==> Constant(bs, Down(first, j))
  }

  method ConstantOctet(bs: seq<nat>, shift: nat) returns (same: bool)
    requires |bs| > 0
    ensures same <==> Constant(bs, shift)
  {
    hide OctetFrom;
    var first := OctetFrom(bs[0], shift);
    for i := 0 to |bs|
      invariant forall j :: 0 <= j < i ==> OctetFrom(bs[j], shift) == first
    {
      if OctetFrom(bs[i], shift) != first {
        return false;
      }
    }
    return true;
  }

  method FullestBucket(bs: seq<nat>, shift: nat) returns (worst: nat)
    ensures worst == WorstLoad(bs, shift)
  {
    hide OctetFrom;
    var counts := new nat[256](_ => 0);
    worst := 0;
    assert bs[..0] == [];
    for i := 0 to |bs|
      invariant forall b :: 0 <= b < 256 ==> counts[b] == Load(bs[..i], shift, b)
      invariant worst == WorstLoad(bs[..i], shift)
    {
      assert bs[..i + 1][..i] == bs[..i];
      var bucket := OctetFrom(bs[i], shift);
      counts[bucket] := counts[bucket] + 1;
      if counts[bucket] > worst {
        worst := counts[bucket];
      }
    }
    assert bs[..|bs|] == bs;
  }

  // The octet k places down is the lightest of the eligible ones above the floor, and the highest such.
  ghost predicate Lightest(bs: seq<nat>, first: nat, floor: nat, k: nat) {
    && Eligible(bs, first, k) && floor <= Down(first, k)
    && forall j: nat :: 8 * j <= first && floor <= Down(first, j) && Eligible(bs, first, j) ==> NoLighter(bs, first, k, j)
  }

  ghost predicate NoLighter(bs: seq<nat>, first: nat, k: nat, j: nat)
    requires 8 * j <= first && 8 * k <= first
  {
    && WorstLoad(bs, Down(first, k)) <= WorstLoad(bs, Down(first, j))
    && (j < k ==> WorstLoad(bs, Down(first, k)) < WorstLoad(bs, Down(first, j)))
  }

  // The first k octets have been tried; the best of them is depth places down.
  ghost predicate BestSoFar(bs: seq<nat>, first: nat, k: nat, depth: nat, bestMax: nat)
    requires 8 * k <= first + 8
  {
    if k == 0 then depth == 0 && bestMax == |bs| + 1
    else
      && depth < k && Eligible(bs, first, k - 1) && Eligible(bs, first, depth)
      && bestMax == WorstLoad(bs, Down(first, depth)) && forall j: nat :: j < k ==> NoLighter(bs, first, depth, j)
  }

  lemma Tried(bs: seq<nat>, first: nat, k: nat, depth: nat, bestMax: nat, worst: nat)
    requires 8 * k <= first && BestSoFar(bs, first, k, depth, bestMax) && Eligible(bs, first, k)
    requires worst == WorstLoad(bs, Down(first, k)) <= |bs|
    ensures BestSoFar(bs, first, k + 1, if worst < bestMax then k else depth, if worst < bestMax then worst else bestMax)
  {
    hide WorstLoad, Eligible;
    if k > 0 && worst < bestMax {
      forall j: nat | j < k ensures NoLighter(bs, first, k, j) {
        assert NoLighter(bs, first, depth, j);
      }
    }
  }

  lemma Exhausted(bs: seq<nat>, first: nat, floor: nat, k: nat, depth: nat, bestMax: nat)
    requires 0 < k && 8 * k <= first + 8 && BestSoFar(bs, first, k, depth, bestMax) && floor <= Down(first, depth)
    requires forall j: nat :: k <= j && 8 * j <= first && floor <= Down(first, j) ==> !Eligible(bs, first, j)
    ensures Lightest(bs, first, floor, depth)
  {
    hide WorstLoad, Eligible;
  }

  // shift cuts at the eligible octet with the lightest fullest bucket, the highest such on a tie.
  ghost predicate CutAt(bs: seq<nat>, first: nat, floor: nat, shift: nat) {
    exists k: nat :: 8 * k <= first && shift == Down(first, k) && Lightest(bs, first, floor, k)
  }

  // Picks the eligible octet with the lightest fullest bucket, the highest such on a tie.
  method BestShift(bs: seq<nat>, first: nat, floor: nat) returns (best: nat)
    requires |bs| > 0 && floor <= first && (first - floor) % 8 == 0
    ensures CutAt(bs, first, floor, best)
  {
    hide WorstLoad, Constant, Eligible, BestSoFar, NoLighter, Lightest;
    best := first;
    ghost var depth: nat := 0;
    var bestMax: nat := |bs| + 1;
    var shift := first;
    ghost var k: nat := 0;
    Untried(bs, first);
    while true
      invariant 8 * k <= first && shift == Down(first, k) && floor <= shift && (shift - floor) % 8 == 0
      invariant 8 * depth <= first && best == Down(first, depth) && floor <= best
      invariant BestSoFar(bs, first, k, depth, bestMax) && (k == 0 ==> Eligible(bs, first, k))
      decreases shift
    {
      if shift != first {
        var same := ConstantOctet(bs, shift + 8);
        assert Down(first, k - 1) == shift + 8;
        if !same {
          NotConstant(bs, first, k - 1);
          Exhausted(bs, first, floor, k, depth, bestMax);
          return;
        }
        EligibleStep(bs, first, k, depth, bestMax);
      }
      var worst := FullestBucket(bs, shift);
      WorstFits(bs, shift);
      Tried(bs, first, k, depth, bestMax, worst);
      if worst < bestMax {
        best, bestMax := shift, worst;
        depth := k;
      }
      if shift == floor {
        Exhausted(bs, first, floor, k + 1, depth, bestMax);
        return;
      }
      shift, k := shift - 8, k + 1;
    }
  }

  lemma Untried(bs: seq<nat>, first: nat)
    ensures BestSoFar(bs, first, 0, 0, |bs| + 1) && Eligible(bs, first, 0)
  {
  }

  lemma EligibleStep(bs: seq<nat>, first: nat, k: nat, depth: nat, bestMax: nat)
    requires 0 < k && 8 * k <= first && BestSoFar(bs, first, k, depth, bestMax) && Constant(bs, Down(first, k - 1))
    ensures Eligible(bs, first, k)
  {
  }

  lemma NotConstant(bs: seq<nat>, first: nat, blocked: nat)
    requires 8 * blocked <= first && !Constant(bs, Down(first, blocked))
    ensures forall j: nat :: blocked < j ==> !Eligible(bs, first, j)
  {
  }

  lemma {:induction false} LoadFits(bs: seq<nat>, shift: nat, bucket: nat)
    ensures Load(bs, shift, bucket) <= |bs|
  {
    if |bs| > 0 {
      LoadFits(bs[..|bs| - 1], shift, bucket);
    }
  }

  lemma {:induction false} WorstFits(bs: seq<nat>, shift: nat)
    ensures WorstLoad(bs, shift) <= |bs|
  {
    if |bs| > 0 {
      WorstFits(bs[..|bs| - 1], shift);
      LoadFits(bs, shift, OctetFrom(bs[|bs| - 1], shift));
    }
  }

  // Below the window an eligible octet sees one common value above it.
  lemma {:induction false} EligibleAbove(bs: seq<nat>, first: nat, k: nat, i: nat, j: nat)
    requires Eligible(bs, first, k) && i < |bs| && j < |bs| && Shr(bs[i], first + 8) == Shr(bs[j], first + 8)
    ensures Shr(bs[i], Down(first, k) + 8) == Shr(bs[j], Down(first, k) + 8)
  {
    hide Shr, OctetFrom;
    if k > 0 {
      assert Constant(bs, Down(first, k - 1));
      EligibleAbove(bs, first, k - 1, i, j);
      OctetSplit(bs[i], Down(first, k - 1));
      OctetSplit(bs[j], Down(first, k - 1));
    }
  }

  // ---------------------------------------------------------------- the sub block

  // A bucket's entry: the first step of the slot in it or past it, and the winner there.
  ghost predicate BucketOk(steps: seq<Step>, low: nat, high: nat, shift: nat, octet: nat, e: SubEntry) {
    && low <= e.off <= high <= |steps| && e.id == BaseID(steps, e.off)
    && (forall i :: low <= i < e.off ==> OctetFrom(steps[i].bound, shift) < octet)
    && (forall i :: e.off <= i < high ==> OctetFrom(steps[i].bound, shift) >= octet)
  }

  ghost predicate BlockOk(steps: seq<Step>, low: nat, high: nat, shift: nat, block: seq<SubEntry>) {
    && |block| == SUB_ENTRIES && block[256].off == high
    && forall o :: 0 <= o < 256 ==> BucketOk(steps, low, high, shift, o, block[o])
  }

  // Extends the table by one entry per octet: where the octet's steps start and which id holds there.
  method AppendSubBlock(sub: seq<SubEntry>, steps: seq<Step>, low: nat, high: nat, baseID: nat, shift: nat)
    returns (r: seq<SubEntry>)
    requires low <= high <= |steps| && baseID == BaseID(steps, low)
    requires forall i, j :: low <= i <= j < high ==> OctetFrom(steps[i].bound, shift) <= OctetFrom(steps[j].bound, shift)
    ensures |r| == |sub| + SUB_ENTRIES && sub <= r && BlockOk(steps, low, high, shift, r[|sub|..])
  {
    hide OctetFrom;
    var block: seq<SubEntry> := [];
    var next, carried := low, baseID;
    for octet := 0 to 256
      invariant |block| == octet && low <= next <= high && carried == BaseID(steps, next)
      invariant forall i :: low <= i < next ==> OctetFrom(steps[i].bound, shift) < octet
      invariant forall o :: 0 <= o < octet ==> BucketOk(steps, low, high, shift, o, block[o])
    {
      while next < high && OctetFrom(steps[next].bound, shift) < octet
        invariant low <= next <= high && carried == BaseID(steps, next)
        invariant forall i :: low <= i < next ==> OctetFrom(steps[i].bound, shift) < octet
      {
        carried := steps[next].id;
        next := next + 1;
      }
      assert BucketOk(steps, low, high, shift, octet, SubEntry(next, carried));
      block := block + [SubEntry(next, carried)];
    }
    block := block + [SubEntry(high, carried)];
    r := sub + block;
    assert r[|sub|..] == block;
  }
}
