// slotlpm's two lookups, and exactly which keys they answer with the longest match.
module SlotLookup {
  import opened Bits
  import opened Prefixes
  import opened Words
  import opened WordArrays
  import opened Slots
  import opened SlotSweep
  import opened SlotCut
  import opened SlotIndex

  const WRAP := 0x1_0000_0000

  // ---------------------------------------------------------------- searching a run of steps

  lemma {:induction false} SeekSplit(steps: seq<Step>, low: nat, mid: nat, high: nat, id: nat, key: nat)
    requires low <= mid <= high <= |steps|
    requires forall i :: low <= i < mid ==> steps[i].bound <= key
    requires forall i :: mid <= i < high ==> steps[i].bound > key
    ensures Seek(steps, low, high, id, key) == if mid == low then id else steps[mid - 1].id
  {
    if mid < high {
      SeekSplit(steps, low, mid, high - 1, id, key);
    }
  }

  method Scan(steps: seq<Step>, low: nat, high: nat, start: nat, key: nat) returns (id: nat)
    requires Ascending(steps) && low <= high <= |steps|
    ensures id == Seek(steps, low, high, start, key)
  {
    id := start;
    for i := low to high
      invariant id == if i == low then start else steps[i - 1].id
      invariant forall j :: low <= j < i ==> steps[j].bound <= key
    {
      if steps[i].bound > key {
        SeekSplit(steps, low, i, high, start, key);
        return;
      }
      id := steps[i].id;
    }
    SeekSplit(steps, low, high, high, start, key);
  }

  // Indices are 32-bit words, so the midpoint's sum must not wrap.
  method Bisect(steps: seq<Step>, base: nat, end: nat, start: nat, key: nat) returns (id: nat)
    requires Ascending(steps) && base <= end <= |steps| <= WRAP / 2
    ensures id == Seek(steps, base, end, start, key)
  {
    var low, high := base, end;
    while low < high
      invariant base <= low <= high <= end
      invariant forall j :: base <= j < low ==> steps[j].bound <= key
      invariant forall j :: high <= j < end ==> steps[j].bound > key
    {
      var mid := (low + high) % WRAP / 2;
      if steps[mid].bound > key {
        high := mid;
      } else {
        low := mid + 1;
      }
    }
    SeekSplit(steps, base, low, end, start, key);
    id := if low == base then start else steps[low - 1].id;
  }

  // The bucket a crowded slot's record narrows the search to.
  method Narrow(x: Cuts, d: Dense, octet: nat, low: nat, high: nat) returns (r: Run)
    requires d.subBase + SUB_ENTRIES <= |x.sub| && d.subBase != NO_BLOCK && octet < 256
    ensures r == BucketRun(x, d, octet)
  {
    r := Run(low, high, d.baseID);
    if d.subBase != NO_BLOCK {
      var base := d.subBase + octet;
      r := Run(x.sub[base].off, x.sub[base + 1].off, x.sub[base].id);
    }
  }

  // The window in terms of the table's entries.
  lemma WindowReads(w: nat, floor: nat, x: Cuts, steps: seq<Step>, key: nat, slot: nat)
    requires w >= 24 && CutsOk(w, floor, x, steps) && StepArray(w, steps) && key < Pow2(w) && |steps| >= 2
    requires slot == Shr(key, x.shift)
    ensures slot + 1 < |x.slots|
    ensures x.slots[slot].off == x.slots[slot + 1].off || x.slots[slot].id < DENSE_TAG ==>
              Window(w, floor, x, steps, key) == Run(x.slots[slot].off, x.slots[slot + 1].off, x.slots[slot].id)
    ensures x.slots[slot].off != x.slots[slot + 1].off && x.slots[slot].id >= DENSE_TAG ==>
              DenseReads(x, x.slots[slot].id - DENSE_TAG, key, Window(w, floor, x, steps, key))
  {
    hide CutsOk, SlotOk, StepArray, Shr, OctetFrom, Pow2;
    SlotReads(w, floor, x, steps, key);
  }

  // The k-th record narrows key to the run r.
  ghost predicate DenseReads(x: Cuts, k: nat, key: nat, r: Run) {
    && k < |x.dense| && x.dense[k].subBase + SUB_ENTRIES <= |x.sub| && x.dense[k].subBase != NO_BLOCK
    && r == BucketRun(x, x.dense[k], OctetFrom(key, x.dense[k].subShift))
  }

  function BucketRun(x: Cuts, d: Dense, octet: nat): Run
    requires d.subBase + SUB_ENTRIES <= |x.sub| && octet < 256
  {
    Run(x.sub[d.subBase + octet].off, x.sub[d.subBase + octet + 1].off, x.sub[d.subBase + octet].id)
  }

  method Locate4(x: Cuts, key: nat, ghost steps: seq<Step>) returns (r: Run)
    requires CutsOk(32, 0, x, steps) && StepArray(32, steps) && key < Pow2(32) && |steps| >= 2
    ensures r == Window(32, 0, x, steps, key)
  {
    hide CutsOk, StepArray, Shr, OctetFrom, Pow2, Window, BucketRun;
    var slot := Shr(key, x.shift);
    WindowReads(32, 0, x, steps, key, slot);
    var first := x.slots[slot];
    r := Run(first.off, x.slots[slot + 1].off, first.id);
    if r.low != r.high && r.id >= DENSE_TAG {
      var d := x.dense[r.id - DENSE_TAG];
      r := Narrow(x, d, OctetFrom(key, d.subShift), r.low, r.high);
    }
  }

  // Compiled steps whose search answers the table m.
  ghost predicate Compiled(w: nat, floor: nat, x: Cuts, steps: seq<Step>, m: map<Prefix, nat>)
    requires w >= 24
  {
    && AllValid(w, m.Keys) && StepArray(w, steps) && CutsOk(w, floor, x, steps)
    && Collapsed(steps) && (steps == [] <==> m == map[])
    && forall a: nat | a < Pow2(w) :: Answers(w, m, a, StepAt(steps, a))
  }

  // The table's answer is what the step array has in force.
  lemma AnswerIsStepAt(w: nat, floor: nat, x: Cuts, steps: seq<Step>, m: map<Prefix, nat>, key: nat)
    requires w >= 24 && Compiled(w, floor, x, steps, m) && key < Pow2(w)
    ensures CutsOk(w, floor, x, steps) && StepArray(w, steps) && Answers(w, m, key, StepAt(steps, key))
  {
  }

  // Every key of a slot that is not crowded is answered with its longest covering prefix, and every
  // key of a crowded slot that agrees with the slot's steps above the cut octet.  Any other key gets
  // the winner at one end of its bucket where the right answer is the winner at that end of the slot.
  method Lookup4(x: Cuts, steps: seq<Step>, key: nat, ghost m: map<Prefix, nat>)
    returns (id: nat, ghost at: Place)
    requires Compiled(32, 0, x, steps, m) && key < Pow2(32) && |steps| <= WRAP / 2
    ensures CutsOk(32, 0, x, steps) && StepArray(32, steps) && id == Find(32, 0, x, steps, key)
    ensures at.low <= at.high <= |steps|
    ensures |steps| >= 2 ==>
              forall i | 0 <= i < |steps| :: at.low <= i < at.high <==> Shr(steps[i].bound, x.shift) == Shr(key, x.shift)
    ensures at.high - at.low <= SUB_THRESHOLD ==> Answers(32, m, key, id)
    ensures at.high - at.low > SUB_THRESHOLD ==>
              && at.low <= at.from <= at.to <= at.high
              && 8 <= x.shift && CutAt(Bounds(steps)[at.low..at.high], x.shift - 8, 0, at.cut)
              && (forall i | at.low <= i < at.high :: i < at.from <==> OctetFrom(steps[i].bound, at.cut) < OctetFrom(key, at.cut))
              && (forall i | at.low <= i < at.high :: i < at.to <==> OctetFrom(steps[i].bound, at.cut) <= OctetFrom(key, at.cut))
              && var above, mine := Shr(steps[at.low].bound, at.cut + 8), Shr(key, at.cut + 8);
              && (at.cut + 8 == x.shift ==> mine == above) && (mine == above ==> Answers(32, m, key, id))
              && (mine < above ==> 0 < at.low && id == steps[at.from - 1].id && Answers(32, m, key, steps[at.low - 1].id))
              && (mine > above ==> id == if at.to == 0 then 0 else steps[at.to - 1].id)
              && (mine > above ==> Answers(32, m, key, steps[at.high - 1].id))
  {
    hide Compiled, CutsOk, StepArray, Window, Seek, Ascending, StepAt, Answers, Shr, OctetFrom, Pow2, CutAt;
    AnswerIsStepAt(32, 0, x, steps, m, key);
    SlotsEmpty(32, 0, x, steps);
    StepsAscend(32, steps);
    if |x.slots| == 0 {
      id := x.uniform;
    } else {
      var r := Locate4(x, key, steps);
      if r.high - r.low <= SCAN_LIMIT {
        id := Scan(steps, r.low, r.high, r.id, key);
      } else {
        id := Bisect(steps, r.low, r.high, r.id, key);
      }
    }
    at := FindIsStepAt(32, 0, x, steps, key, id);
  }

  lemma SlotsEmpty(w: nat, floor: nat, x: Cuts, steps: seq<Step>)
    requires w >= 24 && CutsOk(w, floor, x, steps)
    ensures |x.slots| == 0 <==> |steps| < 2
  {
  }

  // ---------------------------------------------------------------- split arrays

  // The IPv6 steps as parallel arrays.
  datatype Split = Split(words: Pairs, ids: seq<nat>)

  ghost predicate SplitOf(s: Split, steps: seq<Step>) {
    PairsOf(s.words, Bounds(steps)) && |s.ids| == |steps| && forall i :: 0 <= i < |steps| ==> s.ids[i] == steps[i].id
  }

  method SplitSteps(steps: seq<Step>) returns (s: Split)
    requires StepArray(128, steps)
    ensures SplitOf(s, steps)
  {
    var words := SplitWords(Bounds(steps));
    s := Split(words, seq(|steps|, i requires 0 <= i < |steps| => steps[i].id));
  }

  lemma PastStep(s: Split, steps: seq<Step>, i: nat, keyHigh: nat, keyLow: nat)
    requires SplitOf(s, steps) && i < |steps| && keyHigh < WORD && keyLow < WORD
    ensures Past(s.words, i, keyHigh, keyLow) <==> steps[i].bound > Wide(keyHigh, keyLow)
    ensures s.ids[i] == steps[i].id
  {
    PastIsAbove(s.words, Bounds(steps), i, keyHigh, keyLow);
  }

  method Lookup6(x: Cuts, s: Split, keyHigh: nat, keyLow: nat, ghost steps: seq<Step>, ghost m: map<Prefix, nat>)
    returns (id: nat, ghost at: Place)
    requires Compiled(128, 64, x, steps, m) && SplitOf(s, steps) && |steps| <= WRAP / 2
    requires keyHigh < WORD && keyLow < WORD && Wide(keyHigh, keyLow) < Pow2(128)
    ensures CutsOk(128, 64, x, steps) && StepArray(128, steps) && id == Find(128, 64, x, steps, Wide(keyHigh, keyLow))
    ensures at.low <= at.high <= |steps|
    ensures var key := Wide(keyHigh, keyLow); |steps| >= 2 ==>
              forall i | 0 <= i < |steps| :: at.low <= i < at.high <==> Shr(steps[i].bound, x.shift) == Shr(key, x.shift)
    ensures at.high - at.low <= SUB_THRESHOLD ==> Answers(128, m, Wide(keyHigh, keyLow), id)
    ensures var key := Wide(keyHigh, keyLow); at.high - at.low > SUB_THRESHOLD ==>
              && at.low <= at.from <= at.to <= at.high
              && 8 <= x.shift && CutAt(Bounds(steps)[at.low..at.high], x.shift - 8, 64, at.cut)
              && (forall i | at.low <= i < at.high :: i < at.from <==> OctetFrom(steps[i].bound, at.cut) < OctetFrom(key, at.cut))
              && (forall i | at.low <= i < at.high :: i < at.to <==> OctetFrom(steps[i].bound, at.cut) <= OctetFrom(key, at.cut))
              && var above, mine := Shr(steps[at.low].bound, at.cut + 8), Shr(key, at.cut + 8);
              && (at.cut + 8 == x.shift ==> mine == above) && (mine == above ==> Answers(128, m, key, id))
              && (mine < above ==> 0 < at.low && id == steps[at.from - 1].id && Answers(128, m, key, steps[at.low - 1].id))
              && (mine > above ==> id == if at.to == 0 then 0 else steps[at.to - 1].id)
              && (mine > above ==> Answers(128, m, key, steps[at.high - 1].id))
  {
    hide Compiled, CutsOk, StepArray, Window, Seek, Ascending, StepAt, Answers, Shr, OctetFrom, Pow2, CutAt, SplitOf, Wide;
    AnswerIsStepAt(128, 64, x, steps, m, Wide(keyHigh, keyLow));
    SlotsEmpty(128, 64, x, steps);
    StepsAscend(128, steps);
    if |x.slots| == 0 {
      id := x.uniform;
    } else {
      var r := Locate6(x, keyHigh, keyLow, steps);
      id := Search6(s, r.low, r.high, r.id, keyHigh, keyLow, steps);
    }
    at := FindIsStepAt(128, 64, x, steps, Wide(keyHigh, keyLow), id);
  }

  method Locate6(x: Cuts, keyHigh: nat, keyLow: nat, ghost steps: seq<Step>) returns (r: Run)
    requires CutsOk(128, 64, x, steps) && StepArray(128, steps) && |steps| >= 2
    requires keyHigh < WORD && keyLow < WORD && Wide(keyHigh, keyLow) < Pow2(128)
    ensures r == Window(128, 64, x, steps, Wide(keyHigh, keyLow))
  {
    hide CutsOk, StepArray, Shr, OctetFrom, Pow2, Window, BucketRun, Wide;
    ghost var key := Wide(keyHigh, keyLow);
    ShiftsHigh(x, steps, keyHigh, keyLow);
    var slot := Shr(keyHigh, x.shift - 64);
    WindowReads(128, 64, x, steps, key, slot);
    var first := x.slots[slot];
    r := Run(first.off, x.slots[slot + 1].off, first.id);
    if r.low != r.high && r.id >= DENSE_TAG {
      var d := x.dense[r.id - DENSE_TAG];
      r := Narrow(x, d, OctetFrom(keyHigh, d.subShift - 64), r.low, r.high);
    }
  }

  // Every shift of the compiled cuts stays in the high word.
  lemma ShiftsHigh(x: Cuts, steps: seq<Step>, keyHigh: nat, keyLow: nat)
    requires CutsOk(128, 64, x, steps) && StepArray(128, steps) && |steps| >= 2 && keyLow < WORD
    requires Wide(keyHigh, keyLow) < Pow2(128)
    ensures x.shift >= 64 && Shr(Wide(keyHigh, keyLow), x.shift) == Shr(keyHigh, x.shift - 64) < |x.slots|
    ensures var id := x.slots[Shr(keyHigh, x.shift - 64)].id;
            id >= DENSE_TAG ==> id - DENSE_TAG < |x.dense| && var cut := x.dense[id - DENSE_TAG].subShift;
              cut >= 64 && OctetFrom(Wide(keyHigh, keyLow), cut) == OctetFrom(keyHigh, cut - 64)
  {
    SlotReads(128, 64, x, steps, Wide(keyHigh, keyLow));
    hide Shr, Runs, Pow2, BlockOk, IsOff, Wide, CutAt, BaseID;
    ShrHigh(keyHigh, keyLow, x.shift - 64);
    var slot := Shr(keyHigh, x.shift - 64);
    if x.slots[slot].id >= DENSE_TAG {
      DenseCutFits(x, steps, 64, x.slots[slot].off, x.slots[slot + 1].off, x.slots[slot].id - DENSE_TAG);
      ShrHigh(keyHigh, keyLow, x.dense[x.slots[slot].id - DENSE_TAG].subShift - 64);
    }
  }

  lemma DenseCutFits(x: Cuts, steps: seq<Step>, floor: nat, low: nat, high: nat, k: nat)
    requires low <= high <= |steps| && 8 <= x.shift && DenseOk(x.dense, x.sub, steps, x.shift, floor, low, high, k)
    ensures floor <= x.dense[k].subShift
  {
    hide BlockOk, BaseID;
    CutFits(Bounds(steps)[low..high], x.shift - 8, floor, x.dense[k].subShift);
  }

  lemma CutFits(bs: seq<nat>, first: nat, floor: nat, cut: nat)
    requires CutAt(bs, first, floor, cut)
    ensures floor <= cut
  {
  }

  method Search6(s: Split, base: nat, end: nat, start: nat, keyHigh: nat, keyLow: nat, ghost steps: seq<Step>)
    returns (id: nat)
    requires Ascending(steps) && SplitOf(s, steps) && base <= end <= |steps| <= WRAP / 2
    requires keyHigh < WORD && keyLow < WORD
    ensures id == Seek(steps, base, end, start, Wide(keyHigh, keyLow))
  {
    hide SplitOf, Wide, Past, Seek, Ascending;
    if end - base <= SCAN_LIMIT {
      id := Scan6(s, base, end, start, keyHigh, keyLow, steps);
    } else {
      id := Bisect6(s, base, end, start, keyHigh, keyLow, steps);
    }
  }

  method Scan6(s: Split, base: nat, end: nat, start: nat, keyHigh: nat, keyLow: nat, ghost steps: seq<Step>)
    returns (id: nat)
    requires Ascending(steps) && SplitOf(s, steps) && base <= end <= |steps|
    requires keyHigh < WORD && keyLow < WORD
    ensures id == Seek(steps, base, end, start, Wide(keyHigh, keyLow))
  {
    hide Wide, Past, Seek, SplitOf;
    ghost var key := Wide(keyHigh, keyLow);
    SplitSizes(s, steps);
    id := start;
    for i := base to end
      invariant id == if i == base then start else steps[i - 1].id
      invariant forall j :: base <= j < i ==> steps[j].bound <= key
    {
      PastStep(s, steps, i, keyHigh, keyLow);
      if Past(s.words, i, keyHigh, keyLow) {
        SeekSplit(steps, base, i, end, start, key);
        return;
      }
      id := s.ids[i];
    }
    SeekSplit(steps, base, end, end, start, key);
  }

  method Bisect6(s: Split, base: nat, end: nat, start: nat, keyHigh: nat, keyLow: nat, ghost steps: seq<Step>)
    returns (id: nat)
    requires Ascending(steps) && SplitOf(s, steps) && base <= end <= |steps| <= WRAP / 2
    requires keyHigh < WORD && keyLow < WORD
    ensures id == Seek(steps, base, end, start, Wide(keyHigh, keyLow))
  {
    hide Wide, Past, Seek, SplitOf;
    ghost var key := Wide(keyHigh, keyLow);
    SplitSizes(s, steps);
    var low, high := base, end;
    while low < high
      invariant base <= low <= high <= end
      invariant forall j :: base <= j < low ==> steps[j].bound <= key
      invariant forall j :: high <= j < end ==> steps[j].bound > key
    {
      var mid := (low + high) % WRAP / 2;
      PastStep(s, steps, mid, keyHigh, keyLow);
      if Past(s.words, mid, keyHigh, keyLow) {
        high := mid;
      } else {
        low := mid + 1;
      }
    }
    SeekSplit(steps, base, low, end, start, key);
    if low == base {
      return start;
    }
    PastStep(s, steps, low - 1, keyHigh, keyLow);
    return s.ids[low - 1];
  }

  lemma SplitSizes(s: Split, steps: seq<Step>)
    requires SplitOf(s, steps)
    ensures |s.words.high| == |s.ids| == |steps| && (s.words.low == [] || |s.words.low| == |steps|)
  {
  }
}
