// slotlpm's compiled index: level-one slots over the step array, a second cut in crowded slots,
// and the search inside what is left.
module SlotIndex {
  import opened Bits
  import opened Slots
  import opened SlotSweep
  import opened SlotCut

  const DENSE_TAG := 0x8000_0000
  const NO_BLOCK := 0xffff_ffff
  const SUB_THRESHOLD := 12
  const SCAN_LIMIT := 32
  const MIN_SEPARATED_SLOTS := 8

  datatype SlotEntry = SlotEntry(off: nat, id: nat)
  datatype Dense = Dense(baseID: nat, subBase: nat, subShift: nat)

  // Everything but the steps themselves, which the families keep in different layouts.
  datatype Cuts = Cuts(slots: seq<SlotEntry>, shift: nat, dense: seq<Dense>, sub: seq<SubEntry>, uniform: nat)

  // The step arrays the sweep produces for a w-bit family.
  ghost predicate StepArray(w: nat, steps: seq<Step>) {
    && Ascending(steps) && (|steps| > 0 ==> steps[0].bound == 0)
    && forall i :: 0 <= i < |steps| ==> steps[i].bound < Pow2(w) && steps[i].id < DENSE_TAG
  }

  ghost predicate DenseOk(dense: seq<Dense>, sub: seq<SubEntry>, steps: seq<Step>, shift: nat, floor: nat,
                          low: nat, high: nat, k: nat)
    requires low <= high <= |steps| && 8 <= shift
  {
    && k < |dense| && dense[k].baseID == BaseID(steps, low) && dense[k].subBase != NO_BLOCK
    && dense[k].subBase + SUB_ENTRIES <= |sub|
    && CutAt(Bounds(steps)[low..high], shift - 8, floor, dense[k].subShift)
    && BlockOk(steps, low, high, dense[k].subShift, sub[dense[k].subBase..dense[k].subBase + SUB_ENTRIES])
  }

  ghost predicate SlotOk(dense: seq<Dense>, sub: seq<SubEntry>, steps: seq<Step>, shift: nat, floor: nat,
                         s: nat, low: nat, high: nat, id: nat)
    requires 8 <= shift
  {
    && IsOff(Bounds(steps), shift, s, low) && IsOff(Bounds(steps), shift, s + 1, high) && low <= high
    && if high - low <= SUB_THRESHOLD then id == BaseID(steps, low)
       else id >= DENSE_TAG && DenseOk(dense, sub, steps, shift, floor, low, high, id - DENSE_TAG)
  }

  // floor is the shift of the lowest octet a second cut may use.
  ghost predicate CutsOk(w: nat, floor: nat, x: Cuts, steps: seq<Step>)
    requires w >= 24
  {
    if |steps| < 2 then x.slots == [] && x.uniform == BaseID(steps, |steps|)
    else
      && x.shift == w - (if Runs(Bounds(steps), w - 16) >= MIN_SEPARATED_SLOTS then 16 else 8)
      && |x.slots| == Pow2(w - x.shift) + 1
      && forall s :: 0 <= s < |x.slots| - 1 ==>
           SlotOk(x.dense, x.sub, steps, x.shift, floor, s, x.slots[s].off, x.slots[s + 1].off, x.slots[s].id)
  }

  // ---------------------------------------------------------------- compiling

  lemma SlotGrows(dense: seq<Dense>, sub: seq<SubEntry>, dense': seq<Dense>, sub': seq<SubEntry>, steps: seq<Step>,
                  shift: nat, floor: nat, s: nat, low: nat, high: nat, id: nat)
    requires 8 <= shift && SlotOk(dense, sub, steps, shift, floor, s, low, high, id)
    requires dense <= dense' && sub <= sub'
    ensures SlotOk(dense', sub', steps, shift, floor, s, low, high, id)
  {
    hide IsOff, CutAt, BlockOk;
    if high - low > SUB_THRESHOLD {
      var b := dense[id - DENSE_TAG].subBase;
      assert sub'[b..b + SUB_ENTRIES] == sub[b..b + SUB_ENTRIES];
    }
  }

  lemma BoundsRise(steps: seq<Step>)
    requires Ascending(steps)
    ensures Rising(Bounds(steps))
  {
  }

  lemma SlotsFit(w: nat, steps: seq<Step>, shift: nat)
    requires StepArray(w, steps) && shift <= w
    ensures forall i :: 0 <= i < |steps| ==> Shr(Bounds(steps)[i], shift) < Pow2(w - shift)
  {
    forall i | 0 <= i < |steps| ensures Shr(Bounds(steps)[i], shift) < Pow2(w - shift) {
      KeySlot(w, steps[i].bound, shift);
    }
  }

  lemma KeySlot(w: nat, key: nat, shift: nat)
    requires key < Pow2(w) && shift <= w
    ensures Shr(key, shift) < Pow2(w - shift)
  {
    Pow2Add(shift, w - shift);
    DivBracket(key, Pow2(shift));
    assert Pow2(w - shift) * Pow2(shift) == Pow2(shift) * Pow2(w - shift);
    if Shr(key, shift) >= Pow2(w - shift) {
      MulMono(Pow2(w - shift), Shr(key, shift), Pow2(shift));
    }
  }

  // Within a slot an eligible octet orders the steps as their bounds do.
  lemma CutMonotone(steps: seq<Step>, shift: nat, floor: nat, s: nat, low: nat, high: nat, cut: nat)
    requires Ascending(steps) && 8 <= shift && low <= high <= |steps|
    requires forall i :: low <= i < high ==> Shr(Bounds(steps)[i], shift) == s
    requires CutAt(Bounds(steps)[low..high], shift - 8, floor, cut)
    ensures forall i, j :: low <= i < high && low <= j < high ==> Shr(steps[i].bound, cut + 8) == Shr(steps[j].bound, cut + 8)
    ensures forall i, j :: low <= i <= j < high ==> OctetFrom(steps[i].bound, cut) <= OctetFrom(steps[j].bound, cut)
  {
    hide Shr, OctetFrom, Lightest;
    var bs, first := Bounds(steps)[low..high], shift - 8;
    var k: nat :| 8 * k <= first && cut == Down(first, k) && Lightest(bs, first, floor, k);
    assert Eligible(bs, first, k) by { LightestIsEligible(bs, first, floor, k); }
    forall i, j | low <= i < high && low <= j < high
      ensures Shr(steps[i].bound, cut + 8) == Shr(steps[j].bound, cut + 8)
    {
      assert bs[i - low] == Bounds(steps)[i] && bs[j - low] == Bounds(steps)[j];
      EligibleAbove(bs, first, k, i - low, j - low);
    }
    forall i, j | low <= i <= j < high ensures OctetFrom(steps[i].bound, cut) <= OctetFrom(steps[j].bound, cut) {
      SameAbove(steps[i].bound, steps[j].bound, cut);
    }
  }

  lemma LightestIsEligible(bs: seq<nat>, first: nat, floor: nat, k: nat)
    requires Lightest(bs, first, floor, k)
    ensures Eligible(bs, first, k)
  {
  }

  lemma SlotMembers(bounds: seq<nat>, shift: nat, s: nat, low: nat, high: nat)
    requires IsOff(bounds, shift, s, low) && IsOff(bounds, shift, s + 1, high)
    ensures low <= high <= |bounds| && forall i :: low <= i < high ==> Shr(bounds[i], shift) == s
  {
    hide Shr;
    OffsetsRise(bounds, shift, s, s + 1, low, high);
  }

  method CompileSlot(steps: seq<Step>, shift: nat, floor: nat, ghost s: nat, low: nat, high: nat,
                     dense0: seq<Dense>, sub0: seq<SubEntry>)
    returns (id: nat, dense: seq<Dense>, sub: seq<SubEntry>)
    requires Ascending(steps) && 8 + floor <= shift && (shift - 8 - floor) % 8 == 0
    requires IsOff(Bounds(steps), shift, s, low) && IsOff(Bounds(steps), shift, s + 1, high)
    requires |sub0| != NO_BLOCK
    ensures dense0 <= dense && sub0 <= sub && |sub| <= |sub0| + SUB_ENTRIES
    ensures SlotOk(dense, sub, steps, shift, floor, s, low, high, id)
  {
    hide IsOff, OctetFrom, Shr, CutAt, BlockOk;
    SlotMembers(Bounds(steps), shift, s, low, high);
    dense, sub, id := dense0, sub0, BaseID(steps, low);
    if high - low <= SUB_THRESHOLD {
      return;
    }
    var bs := Bounds(steps)[low..high];
    var cut := BestShift(bs, shift - 8, floor);
    CutMonotone(steps, shift, floor, s, low, high, cut);
    var record := Dense(id, |sub|, cut);
    sub := AppendSubBlock(sub, steps, low, high, id, cut);
    assert sub[|sub0|..] == sub[|sub0|..|sub0| + SUB_ENTRIES];
    id := DENSE_TAG + |dense|;
    dense := dense + [record];
  }

  ghost predicate SlotsDone(dense: seq<Dense>, sub: seq<SubEntry>, steps: seq<Step>, shift: nat, floor: nat,
                            offsets: seq<nat>, slots: seq<SlotEntry>)
    requires 8 <= shift
  {
    && |slots| < |offsets|
    && forall s :: 0 <= s < |slots| ==>
         slots[s].off == offsets[s] && SlotOk(dense, sub, steps, shift, floor, s, offsets[s], offsets[s + 1], slots[s].id)
  }

  lemma SlotDone(dense0: seq<Dense>, sub0: seq<SubEntry>, dense: seq<Dense>, sub: seq<SubEntry>, steps: seq<Step>,
                 shift: nat, floor: nat, offsets: seq<nat>, slots: seq<SlotEntry>, id: nat)
    requires 8 <= shift && SlotsDone(dense0, sub0, steps, shift, floor, offsets, slots)
    requires dense0 <= dense && sub0 <= sub && |slots| + 1 < |offsets|
    requires SlotOk(dense, sub, steps, shift, floor, |slots|, offsets[|slots|], offsets[|slots| + 1], id)
    ensures SlotsDone(dense, sub, steps, shift, floor, offsets, slots + [SlotEntry(offsets[|slots|], id)])
  {
    hide SlotOk;
    forall s | 0 <= s < |slots|
      ensures SlotOk(dense, sub, steps, shift, floor, s, offsets[s], offsets[s + 1], slots[s].id)
    {
      SlotGrows(dense0, sub0, dense, sub, steps, shift, floor, s, offsets[s], offsets[s + 1], slots[s].id);
    }
  }

  lemma AllDone(dense: seq<Dense>, sub: seq<SubEntry>, steps: seq<Step>, shift: nat, floor: nat,
                offsets: seq<nat>, slots: seq<SlotEntry>)
    requires 8 <= shift && SlotsDone(dense, sub, steps, shift, floor, offsets, slots)
    requires |offsets| == |slots| + 1 && offsets[|slots|] == |steps|
    ensures var all := slots + [SlotEntry(|steps|, 0)];
            forall s :: 0 <= s < |all| - 1 ==>
              SlotOk(dense, sub, steps, shift, floor, s, all[s].off, all[s + 1].off, all[s].id)
  {
    hide SlotOk;
  }

  method Compile(w: nat, floor: nat, steps: seq<Step>) returns (x: Cuts)
    requires w >= 24 && floor + 24 <= w && (w - 16 - floor) % 8 == 0 && StepArray(w, steps)
    ensures CutsOk(w, floor, x, steps)
  {
    if |steps| == 0 {
      return Cuts([], 0, [], [], 0);
    }
    if |steps| == 1 {
      return Cuts([], 0, [], [], steps[0].id);
    }
    BoundsRise(steps);
    StepsAscend(w, steps);
    hide *;
    var bits := ChooseLevel1Bits(Bounds(steps), w - 16, MIN_SEPARATED_SLOTS);
    LevelFits(w, floor, bits);
    x := CompileLevel(w, steps, w - bits, floor);
    LevelCompiled(w, floor, x, steps);
  }

  method CompileLevel(w: nat, steps: seq<Step>, shift: nat, floor: nat) returns (x: Cuts)
    requires shift <= w && 8 + floor <= shift && (shift - 8 - floor) % 8 == 0 && Pow2(w - shift) <= 65536
    requires StepArray(w, steps) && Ascending(steps) && Rising(Bounds(steps))
    ensures x.shift == shift && |x.slots| == Pow2(w - shift) + 1
    ensures forall s :: 0 <= s < |x.slots| - 1 ==>
              SlotOk(x.dense, x.sub, steps, shift, floor, s, x.slots[s].off, x.slots[s + 1].off, x.slots[s].id)
  {
    hide *;
    SlotsFit(w, steps, shift);
    var offsets := BuildSlotOffsets(Bounds(steps), shift, Pow2(w - shift));
    BoundsCount(steps);
    var slots, dense, sub := CompileSlots(steps, shift, floor, Pow2(w - shift), offsets);
    // One entry past the last slot, so every slot can read where it ends.
    AllDone(dense, sub, steps, shift, floor, offsets, slots);
    x := Cuts(slots + [SlotEntry(|steps|, 0)], shift, dense, sub, 0);
  }

  lemma BoundsCount(steps: seq<Step>)
    ensures |Bounds(steps)| == |steps|
  {
  }

  lemma StepsAscend(w: nat, steps: seq<Step>)
    requires StepArray(w, steps)
    ensures Ascending(steps)
  {
  }

  lemma LevelCompiled(w: nat, floor: nat, x: Cuts, steps: seq<Step>)
    requires w >= 24 && |steps| >= 2
    requires x.shift == w - (if Runs(Bounds(steps), w - 16) >= MIN_SEPARATED_SLOTS then 16 else 8)
    requires |x.slots| == Pow2(w - x.shift) + 1
    requires forall s :: 0 <= s < |x.slots| - 1 ==>
               SlotOk(x.dense, x.sub, steps, x.shift, floor, s, x.slots[s].off, x.slots[s + 1].off, x.slots[s].id)
    ensures CutsOk(w, floor, x, steps)
  {
  }

  method CompileSlots(steps: seq<Step>, shift: nat, floor: nat, count: nat, offsets: seq<nat>)
    returns (slots: seq<SlotEntry>, dense: seq<Dense>, sub: seq<SubEntry>)
    requires Ascending(steps) && 8 + floor <= shift && (shift - 8 - floor) % 8 == 0
    requires count <= 65536 && |offsets| == count + 1
    requires forall s :: 0 <= s <= count ==> IsOff(Bounds(steps), shift, s, offsets[s])
    ensures |slots| == count && SlotsDone(dense, sub, steps, shift, floor, offsets, slots)
  {
    slots, dense, sub := [], [], [];
    assert SlotsDone(dense, sub, steps, shift, floor, offsets, slots);
    hide IsOff, SlotOk, SlotsDone, Ascending;
    for slot := 0 to count
      invariant |slots| == slot && |sub| <= SUB_ENTRIES * slot
      invariant SlotsDone(dense, sub, steps, shift, floor, offsets, slots)
    {
      ghost var dense0, sub0 := dense, sub;
      var id;
      id, dense, sub := CompileSlot(steps, shift, floor, slot, offsets[slot], offsets[slot + 1], dense, sub);
      SlotDone(dense0, sub0, dense, sub, steps, shift, floor, offsets, slots, id);
      slots := slots + [SlotEntry(offsets[slot], id)];
    }
  }

  lemma LevelFits(w: nat, floor: nat, bits: nat)
    requires bits == 8 || bits == 16
    requires floor + 24 <= w && (w - 16 - floor) % 8 == 0
    ensures Pow2(bits) <= 65536 && 8 + floor <= w - bits && (w - bits - 8 - floor) % 8 == 0
  {
    Pow2Small();
    Pow2Large();
  }

  // ---------------------------------------------------------------- searching

  // The id of the last of steps[low..high) at or below key, or id.
  function Seek(steps: seq<Step>, low: nat, high: nat, id: nat, key: nat): nat
    requires high <= |steps|
    decreases high
  {
    if high <= low then id
    else if steps[high - 1].bound <= key then steps[high - 1].id
    else Seek(steps, low, high - 1, id, key)
  }

  // A search between two cuts, the winner at the lower one known, is the search of all the steps.
  lemma {:induction false} SeekIsStepAt(steps: seq<Step>, low: nat, high: nat, key: nat)
    requires low <= high <= |steps|
    requires forall i :: 0 <= i < low ==> steps[i].bound <= key
    requires forall i :: high <= i < |steps| ==> steps[i].bound > key
    ensures Seek(steps, low, high, BaseID(steps, low), key) == StepAt(steps, key)
  {
    StepAtPrefix(steps, high, key);
    if low < high && steps[high - 1].bound > key {
      SeekIsStepAt(steps, low, high - 1, key);
    }
  }

  lemma {:induction false} StepAtPrefix(steps: seq<Step>, high: nat, key: nat)
    requires high <= |steps| && forall i :: high <= i < |steps| ==> steps[i].bound > key
    ensures StepAt(steps, key) == StepAt(steps[..high], key)
    decreases |steps|
  {
    if high < |steps| {
      var front := steps[..|steps| - 1];
      StepAtPrefix(front, high, key);
      assert front[..high] == steps[..high];
    } else {
      assert steps[..high] == steps;
    }
  }

  // A search that finds every bound past the key, or none, is decided by its ends.
  lemma {:induction false} SeekEnds(steps: seq<Step>, low: nat, high: nat, id: nat, key: nat)
    requires low <= high <= |steps|
    ensures (forall i :: low <= i < high ==> steps[i].bound > key) ==> Seek(steps, low, high, id, key) == id
    ensures (forall i :: low <= i < high ==> steps[i].bound <= key) ==>
              Seek(steps, low, high, id, key) == if low < high then BaseID(steps, high) else id
  {
    if low < high {
      SeekEnds(steps, low, high - 1, id, key);
    }
  }

  // The record a crowded slot's id points at.
  function RecordOf(x: Cuts, slot: nat): Dense
    requires slot < |x.slots| && x.slots[slot].id >= DENSE_TAG && x.slots[slot].id - DENSE_TAG < |x.dense|
  {
    x.dense[x.slots[slot].id - DENSE_TAG]
  }

  // The two sub entries around a key, when the key's slot has a second cut.
  function Bucket(x: Cuts, d: Dense, key: nat): (SubEntry, SubEntry)
    requires d.subBase + SUB_ENTRIES <= |x.sub|
  {
    var base := d.subBase + OctetFrom(key, d.subShift);
    (x.sub[base], x.sub[base + 1])
  }

  // What is left to search: the steps in [low, high), and the answer should none of them apply.
  datatype Run = Run(low: nat, high: nat, id: nat)

  // The run a key's slot, and the slot's second cut if it has one, leaves to search.
  function Window(w: nat, floor: nat, x: Cuts, steps: seq<Step>, key: nat): (r: Run)
    requires w >= 24 && CutsOk(w, floor, x, steps) && StepArray(w, steps) && key < Pow2(w) && |steps| >= 2
    ensures r.low <= r.high <= |steps|
  {
    SlotReads(w, floor, x, steps, key);
    var slot := Shr(key, x.shift);
    var first := x.slots[slot];
    var low, high := first.off, x.slots[slot + 1].off;
    if low < high && first.id >= DENSE_TAG then
      var sub := Bucket(x, RecordOf(x, slot), key);
      Run(sub.0.off, sub.1.off, sub.0.id)
    else Run(low, high, first.id)
  }

  // What a lookup computes.
  function Find(w: nat, floor: nat, x: Cuts, steps: seq<Step>, key: nat): nat
    requires w >= 24 && CutsOk(w, floor, x, steps) && StepArray(w, steps) && key < Pow2(w)
  {
    if |steps| < 2 then x.uniform
    else
      var r := Window(w, floor, x, steps, key);
      Seek(steps, r.low, r.high, r.id, key)
  }

  // A key's slot is in the table and its entries are in order.
  lemma SlotReads(w: nat, floor: nat, x: Cuts, steps: seq<Step>, key: nat)
    requires w >= 24 && CutsOk(w, floor, x, steps) && StepArray(w, steps) && key < Pow2(w) && |steps| >= 2
    ensures var slot := Shr(key, x.shift);
            && 8 <= x.shift <= w && slot + 1 < |x.slots| && x.slots[slot].off <= x.slots[slot + 1].off <= |steps|
            && SlotOk(x.dense, x.sub, steps, x.shift, floor, slot, x.slots[slot].off, x.slots[slot + 1].off, x.slots[slot].id)
            && (x.slots[slot].id >= DENSE_TAG <==> x.slots[slot + 1].off - x.slots[slot].off > SUB_THRESHOLD)
            && (x.slots[slot].id >= DENSE_TAG ==>
                  && x.slots[slot].id - DENSE_TAG < |x.dense| && var d := RecordOf(x, slot);
                  && d.subBase + SUB_ENTRIES <= |x.sub| && d.subBase != NO_BLOCK
                  && x.slots[slot].off <= Bucket(x, d, key).0.off <= Bucket(x, d, key).1.off <= x.slots[slot + 1].off)
  {
    hide Shr, Pow2, Runs, StepArray, CutAt, OctetFrom;
    KeySlotFits(w, steps, x.shift, key);
    var slot := Shr(key, x.shift);
    var low, high := x.slots[slot].off, x.slots[slot + 1].off;
    assert SlotOk(x.dense, x.sub, steps, x.shift, floor, slot, low, high, x.slots[slot].id);
    BaseFits(w, steps, low);
    if x.slots[slot].id >= DENSE_TAG {
      BucketRises(x, steps, low, high, RecordOf(x, slot), key);
    }
  }

  lemma KeySlotFits(w: nat, steps: seq<Step>, shift: nat, key: nat)
    requires key < Pow2(w) && shift <= w
    ensures Shr(key, shift) + 1 < Pow2(w - shift) + 1
  {
    KeySlot(w, key, shift);
  }

  lemma BaseFits(w: nat, steps: seq<Step>, k: nat)
    requires StepArray(w, steps) && k <= |steps|
    ensures BaseID(steps, k) < DENSE_TAG
  {
  }

  // The entry after a bucket's, for the last bucket the slot's end.
  ghost predicate NextBucket(steps: seq<Step>, low: nat, high: nat, shift: nat, octet: nat, off: nat) {
    && low <= off <= high <= |steps|
    && (forall i :: low <= i < off ==> OctetFrom(steps[i].bound, shift) <= octet)
    && (forall i :: off <= i < high ==> OctetFrom(steps[i].bound, shift) > octet)
  }

  lemma BucketRises(x: Cuts, steps: seq<Step>, low: nat, high: nat, d: Dense, key: nat)
    requires d.subBase + SUB_ENTRIES <= |x.sub| && low <= high <= |steps|
    requires BlockOk(steps, low, high, d.subShift, x.sub[d.subBase..d.subBase + SUB_ENTRIES])
    ensures var o, sub := OctetFrom(key, d.subShift), Bucket(x, d, key);
            && BucketOk(steps, low, high, d.subShift, o, sub.0)
            && NextBucket(steps, low, high, d.subShift, o, sub.1.off)
            && low <= sub.0.off <= sub.1.off <= high
  {
    var o := OctetFrom(key, d.subShift);
    var block := x.sub[d.subBase..d.subBase + SUB_ENTRIES];
    assert block[o] == Bucket(x, d, key).0 && block[o + 1] == Bucket(x, d, key).1;
    assert BucketOk(steps, low, high, d.subShift, o, block[o]);
    assert o < 255 ==> BucketOk(steps, low, high, d.subShift, o + 1, block[o + 1]);
    hide OctetFrom, Shr;
    BucketsRise(steps, low, high, d.subShift, o, block[o], block[o + 1].off);
  }

  lemma BucketsRise(steps: seq<Step>, low: nat, high: nat, shift: nat, o: nat, e: SubEntry, off: nat)
    requires BucketOk(steps, low, high, shift, o, e) && NextBucket(steps, low, high, shift, o, off)
    ensures e.off <= off
  {
    hide OctetFrom;
    assert off < high ==> OctetFrom(steps[off].bound, shift) > o;
  }

  // ---------------------------------------------------------------- when the answer is right

  // Where a key falls: the steps of its slot and, in a crowded one, the octet of the second cut and
  // the slot's steps in the key's bucket.
  datatype Place = Place(low: nat, high: nat, cut: nat, from: nat, to: nat)

  // Which keys the localised lookup answers as a search of the whole step array does: all of a slot
  // that is not crowded, and in a crowded one those that agree with its steps above the cut octet.
  // Any other key gets the winner at one end of its bucket instead of the one at that end of the slot.
  lemma FindIsStepAt(w: nat, floor: nat, x: Cuts, steps: seq<Step>, key: nat, id: nat) returns (at: Place)
    requires w >= 24 && CutsOk(w, floor, x, steps) && StepArray(w, steps) && key < Pow2(w)
    requires id == Find(w, floor, x, steps, key)
    ensures at.low <= at.high <= |steps|
    ensures |steps| >= 2 ==>
              forall i | 0 <= i < |steps| :: at.low <= i < at.high <==> Shr(steps[i].bound, x.shift) == Shr(key, x.shift)
    ensures at.high - at.low <= SUB_THRESHOLD ==> id == StepAt(steps, key)
    ensures at.high - at.low > SUB_THRESHOLD ==>
              && at.low <= at.from <= at.to <= at.high
              && 8 <= x.shift && CutAt(Bounds(steps)[at.low..at.high], x.shift - 8, floor, at.cut)
              && (forall i | at.low <= i < at.high :: i < at.from <==> OctetFrom(steps[i].bound, at.cut) < OctetFrom(key, at.cut))
              && (forall i | at.low <= i < at.high :: i < at.to <==> OctetFrom(steps[i].bound, at.cut) <= OctetFrom(key, at.cut))
              && var above, mine := Shr(steps[at.low].bound, at.cut + 8), Shr(key, at.cut + 8);
              && (at.cut + 8 == x.shift ==> mine == above) && (mine == above ==> id == StepAt(steps, key))
              && (mine < above ==> 0 < at.low && id == steps[at.from - 1].id && StepAt(steps, key) == steps[at.low - 1].id)
              && (mine > above ==> id == if at.to == 0 then 0 else steps[at.to - 1].id)
              && (mine > above ==> StepAt(steps, key) == steps[at.high - 1].id)
  {
    hide Shr, Pow2, CutsOk, StepArray, Seek, StepAt, OctetFrom, Find, CutTells, CutAt, Bucket;
    if |steps| < 2 {
      ShortFind(w, floor, x, steps, key);
      return Place(0, |steps|, 0, 0, 0);
    }
    var low, high, d := SlotTells(w, floor, x, steps, key, id);
    at := Place(low, high, 0, 0, 0);
    if high - low > SUB_THRESHOLD {
      at := CutOpens(x, steps, floor, key, low, high, d, id);
    }
  }

  lemma ShortFind(w: nat, floor: nat, x: Cuts, steps: seq<Step>, key: nat)
    requires w >= 24 && CutsOk(w, floor, x, steps) && StepArray(w, steps) && key < Pow2(w) && |steps| < 2
    ensures Find(w, floor, x, steps, key) == StepAt(steps, key)
  {
    ShortSteps(steps, key);
  }

  lemma SlotTells(w: nat, floor: nat, x: Cuts, steps: seq<Step>, key: nat, id: nat) returns (low: nat, high: nat, d: Dense)
    requires w >= 24 && CutsOk(w, floor, x, steps) && StepArray(w, steps) && key < Pow2(w) && |steps| >= 2
    requires id == Find(w, floor, x, steps, key)
    ensures low <= high <= |steps|
    ensures forall i | 0 <= i < |steps| :: low <= i < high <==> Shr(steps[i].bound, x.shift) == Shr(key, x.shift)
    ensures high - low <= SUB_THRESHOLD ==> id == StepAt(steps, key)
    ensures high - low > SUB_THRESHOLD ==>
              && d.subBase + SUB_ENTRIES <= |x.sub| && CutTells(x, steps, key, low, high, d)
              && 8 <= x.shift && CutAt(Bounds(steps)[low..high], x.shift - 8, floor, d.subShift)
              && var sub := Bucket(x, d, key); id == Seek(steps, sub.0.off, sub.1.off, sub.0.id, key)
  {
    hide Shr, Pow2, CutsOk, StepArray, Seek, StepAt, OctetFrom, Find, CutTells, CutAt, BlockOk, Bucket, IsOff;
    SlotReads(w, floor, x, steps, key);
    var slot := Shr(key, x.shift);
    low, high := x.slots[slot].off, x.slots[slot + 1].off;
    FindOpens(w, floor, x, steps, key, slot);
    SlotHolds(floor, x, steps, slot, low, high);
    SlotFind(w, floor, x, steps, key, slot, low, high);
    d := if high - low > SUB_THRESHOLD then RecordOf(x, slot) else Dense(0, 0, 0);
  }

  lemma CutOpens(x: Cuts, steps: seq<Step>, floor: nat, key: nat, low: nat, high: nat, d: Dense, id: nat) returns (at: Place)
    requires low < high <= |steps| && d.subBase + SUB_ENTRIES <= |x.sub| && CutTells(x, steps, key, low, high, d)
    requires var sub := Bucket(x, d, key); id == Seek(steps, sub.0.off, sub.1.off, sub.0.id, key)
    ensures at.low == low && at.high == high && at.cut == d.subShift && low <= at.from <= at.to <= high
    ensures forall i | low <= i < high :: i < at.from <==> OctetFrom(steps[i].bound, at.cut) < OctetFrom(key, at.cut)
    ensures forall i | low <= i < high :: i < at.to <==> OctetFrom(steps[i].bound, at.cut) <= OctetFrom(key, at.cut)
    ensures var above, mine := Shr(steps[low].bound, at.cut + 8), Shr(key, at.cut + 8);
            && (at.cut + 8 == x.shift ==> mine == above) && (mine == above ==> id == StepAt(steps, key))
            && (mine < above ==> 0 < low && id == steps[at.from - 1].id && StepAt(steps, key) == steps[low - 1].id)
            && (mine > above ==> id == if at.to == 0 then 0 else steps[at.to - 1].id)
            && (mine > above ==> StepAt(steps, key) == steps[high - 1].id)
  {
    hide Shr, OctetFrom, Seek, StepAt;
    var sub := Bucket(x, d, key);
    at := Place(low, high, d.subShift, sub.0.off, sub.1.off);
  }

  // The search a lookup makes once it knows the key's slot.
  lemma FindOpens(w: nat, floor: nat, x: Cuts, steps: seq<Step>, key: nat, slot: nat)
    requires w >= 24 && CutsOk(w, floor, x, steps) && StepArray(w, steps) && key < Pow2(w) && |steps| >= 2
    requires slot == Shr(key, x.shift) && slot + 1 < |x.slots| && x.slots[slot].off <= x.slots[slot + 1].off <= |steps|
    ensures x.slots[slot + 1].off - x.slots[slot].off <= SUB_THRESHOLD ==>
              Find(w, floor, x, steps, key) == Seek(steps, x.slots[slot].off, x.slots[slot + 1].off, x.slots[slot].id, key)
    ensures x.slots[slot + 1].off - x.slots[slot].off > SUB_THRESHOLD ==>
              && 0 <= x.slots[slot].id - DENSE_TAG < |x.dense| && RecordOf(x, slot).subBase + SUB_ENTRIES <= |x.sub|
              && var sub := Bucket(x, RecordOf(x, slot), key);
              && sub.1.off <= |steps| && Find(w, floor, x, steps, key) == Seek(steps, sub.0.off, sub.1.off, sub.0.id, key)
  {
    hide Shr, Pow2, CutsOk, StepArray, SlotOk, Seek, OctetFrom;
    SlotReads(w, floor, x, steps, key);
  }

  lemma SlotHolds(floor: nat, x: Cuts, steps: seq<Step>, slot: nat, low: nat, high: nat)
    requires 8 <= x.shift && slot < |x.slots|
    requires SlotOk(x.dense, x.sub, steps, x.shift, floor, slot, low, high, x.slots[slot].id)
    ensures low <= high <= |steps| && forall i | 0 <= i < |steps| :: low <= i < high <==> Shr(steps[i].bound, x.shift) == slot
  {
    hide Shr, DenseOk, BaseID;
    assert forall i | 0 <= i < |steps| :: Bounds(steps)[i] == steps[i].bound;
  }

  lemma {:induction false} SlotFind(w: nat, floor: nat, x: Cuts, steps: seq<Step>, key: nat, slot: nat, low: nat, high: nat)
    requires StepArray(w, steps) && 8 <= x.shift && slot == Shr(key, x.shift) && slot < |x.slots|
    requires SlotOk(x.dense, x.sub, steps, x.shift, floor, slot, low, high, x.slots[slot].id)
    requires low <= high <= |steps|
    requires x.slots[slot].id >= DENSE_TAG <==> high - low > SUB_THRESHOLD
    ensures high - low <= SUB_THRESHOLD ==> Seek(steps, low, high, x.slots[slot].id, key) == StepAt(steps, key)
    ensures high - low > SUB_THRESHOLD ==>
              && x.slots[slot].id - DENSE_TAG < |x.dense| && var d := RecordOf(x, slot);
              && d.subBase + SUB_ENTRIES <= |x.sub| && CutTells(x, steps, key, low, high, d)
  {
    SlotSplits(Bounds(steps), x.shift, key, low, high);
    assert forall i :: 0 <= i < |steps| ==> Bounds(steps)[i] == steps[i].bound;
    hide Shr, BlockOk, CutAt, IsOff, StepAt, Seek, CutTells, StepArray, OctetFrom;
    if high - low > SUB_THRESHOLD {
      CutFind(w, floor, x, steps, key, slot, low, high, RecordOf(x, slot));
    } else {
      SeekIsStepAt(steps, low, high, key);
    }
  }

  // What the lookup and the search give in a crowded slot.
  ghost predicate CutTells(x: Cuts, steps: seq<Step>, key: nat, low: nat, high: nat, d: Dense)
    requires low < high <= |steps| && d.subBase + SUB_ENTRIES <= |x.sub|
    ensures CutTells(x, steps, key, low, high, d) ==> Bucket(x, d, key).1.off <= |steps|
  {
    var o, sub := OctetFrom(key, d.subShift), Bucket(x, d, key);
    var above, mine := Shr(steps[low].bound, d.subShift + 8), Shr(key, d.subShift + 8);
    && low <= sub.0.off <= sub.1.off <= high
    && (forall i | low <= i < high :: i < sub.0.off <==> OctetFrom(steps[i].bound, d.subShift) < o)
    && (forall i | low <= i < high :: i < sub.1.off <==> OctetFrom(steps[i].bound, d.subShift) <= o)
    && var id := Seek(steps, sub.0.off, sub.1.off, sub.0.id, key);
    && (d.subShift + 8 == x.shift ==> mine == above) && (mine == above ==> id == StepAt(steps, key))
    && (mine < above ==> 0 < low && id == BaseID(steps, sub.0.off) && StepAt(steps, key) == BaseID(steps, low))
    && (mine > above ==> id == BaseID(steps, sub.1.off) && StepAt(steps, key) == BaseID(steps, high))
  }

  lemma ShortSteps(steps: seq<Step>, key: nat)
    requires |steps| < 2 && (|steps| > 0 ==> steps[0].bound == 0)
    ensures StepAt(steps, key) == BaseID(steps, |steps|)
  {
  }

  lemma {:induction false} CutFind(w: nat, floor: nat, x: Cuts, steps: seq<Step>, key: nat, slot: nat, low: nat, high: nat, d: Dense)
    requires StepArray(w, steps) && 8 <= x.shift && slot == Shr(key, x.shift)
    requires low < high <= |steps| && d.subBase + SUB_ENTRIES <= |x.sub| && d.baseID == BaseID(steps, low)
    requires IsOff(Bounds(steps), x.shift, slot, low) && IsOff(Bounds(steps), x.shift, slot + 1, high)
    requires CutAt(Bounds(steps)[low..high], x.shift - 8, floor, d.subShift)
    requires BlockOk(steps, low, high, d.subShift, x.sub[d.subBase..d.subBase + SUB_ENTRIES])
    requires forall i :: 0 <= i < low ==> steps[i].bound <= key
    requires forall i :: high <= i < |steps| ==> steps[i].bound > key
    ensures CutTells(x, steps, key, low, high, d)
  {
    hide Shr, OctetFrom, BlockOk, CutAt, IsOff, Bucket, StepArray, Seek, StepAt, Pow2;
    StepsAscend(w, steps);
    BoundsCount(steps);
    BucketRises(x, steps, low, high, d, key);
    SlotMembers(Bounds(steps), x.shift, slot, low, high);
    CutMonotone(steps, x.shift, floor, slot, low, high, d.subShift);
    var sub := Bucket(x, d, key);
    var above, mine := Shr(steps[low].bound, d.subShift + 8), Shr(key, d.subShift + 8);
    if d.subShift + 8 == x.shift {
      DirectCutAgrees(steps, x.shift, low, high, key);
    }
    EntriesTell(steps, low, high, d.subShift, OctetFrom(key, d.subShift), sub.0, sub.1.off);
    if mine == above {
      BucketSplits(steps, low, high, d.subShift, key, sub.0, sub.1.off);
      SeekIsStepAt(steps, sub.0.off, sub.1.off, key);
    } else {
      OneSide(steps, d.subShift + 8, low, high, key);
      StepsStart(w, steps);
      SeekEnds(steps, sub.0.off, sub.1.off, sub.0.id, key);
      SeekEnds(steps, low, high, BaseID(steps, low), key);
      SeekIsStepAt(steps, low, high, key);
    }
  }

  lemma StepsStart(w: nat, steps: seq<Step>)
    requires StepArray(w, steps)
    ensures |steps| > 0 ==> steps[0].bound == 0
  {
  }

  lemma EntriesTell(steps: seq<Step>, low: nat, high: nat, shift: nat, o: nat, e: SubEntry, off: nat)
    requires BucketOk(steps, low, high, shift, o, e) && NextBucket(steps, low, high, shift, o, off)
    ensures e.id == BaseID(steps, e.off)
    ensures forall i | low <= i < high :: i < e.off <==> OctetFrom(steps[i].bound, shift) < o
    ensures forall i | low <= i < high :: i < off <==> OctetFrom(steps[i].bound, shift) <= o
  {
    hide OctetFrom, BaseID;
  }

  // Steps that agree above a shift lie on one side of a key that does not agree with them.
  lemma OneSide(steps: seq<Step>, shift: nat, low: nat, high: nat, key: nat)
    requires low < high <= |steps|
    requires forall i :: low <= i < high ==> Shr(steps[i].bound, shift) == Shr(steps[low].bound, shift)
    ensures Shr(key, shift) < Shr(steps[low].bound, shift) ==> forall i :: low <= i < high ==> steps[i].bound > key
    ensures Shr(key, shift) > Shr(steps[low].bound, shift) ==> forall i :: low <= i < high ==> steps[i].bound <= key
  {
    hide Shr;
    forall i | low <= i < high
      ensures Shr(key, shift) < Shr(steps[low].bound, shift) ==> steps[i].bound > key
      ensures Shr(key, shift) > Shr(steps[low].bound, shift) ==> steps[i].bound <= key
    {
      if steps[i].bound <= key {
        ShrMono(steps[i].bound, key, shift);
      } else {
        ShrMono(key, steps[i].bound, shift);
      }
    }
  }

  // When the octets above agree, the bucket's ends split the slot's steps around the key.
  lemma BucketSplits(steps: seq<Step>, low: nat, high: nat, shift: nat, key: nat, e: SubEntry, off: nat)
    requires BucketOk(steps, low, high, shift, OctetFrom(key, shift), e)
    requires NextBucket(steps, low, high, shift, OctetFrom(key, shift), off)
    requires forall i :: low <= i < high ==> Shr(steps[i].bound, shift + 8) == Shr(key, shift + 8)
    ensures forall i :: low <= i < e.off ==> steps[i].bound <= key
    ensures forall i :: off <= i < high ==> steps[i].bound > key
  {
    hide Shr, OctetFrom;
    forall i | low <= i < e.off ensures steps[i].bound <= key {
      SameAbove(steps[i].bound, key, shift);
    }
    forall i | off <= i < high ensures steps[i].bound > key {
      SameAbove(key, steps[i].bound, shift);
    }
  }

  // A key of the slot agrees with its steps above a cut directly below the window.
  lemma DirectCutAgrees(steps: seq<Step>, shift: nat, low: nat, high: nat, key: nat)
    requires low < high <= |steps| && IsOff(Bounds(steps), shift, Shr(key, shift), low)
    requires IsOff(Bounds(steps), shift, Shr(key, shift) + 1, high)
    ensures Shr(key, shift) == Shr(steps[low].bound, shift)
  {
    SlotMembers(Bounds(steps), shift, Shr(key, shift), low, high);
  }
}
