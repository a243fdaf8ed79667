// The localisation layer slotlpm and parityset share: a level-one table of slots cut by the top
// bits of the key, and the ordering facts that let a search stay inside one slot.
module Slots {
  import opened Bits
  import opened Prefixes

  const SLOTS := 65536

  // Entry off of a cut at s: everything before it lies below slot s, everything else does not.
  ghost predicate IsOff(bounds: seq<nat>, shift: nat, s: nat, off: nat) {
    && off <= |bounds|
    && (forall i :: 0 <= i < off ==> Shr(bounds[i], shift) < s)
    && (forall i :: off <= i < |bounds| ==> Shr(bounds[i], shift) >= s)
  }

  ghost predicate Rising(bounds: seq<nat>) {
    forall i, j :: 0 <= i < j < |bounds| ==> bounds[i] < bounds[j]
  }

  // Entry i of the table is the index of the first bound lying in slot i.
  method BuildSlotOffsets(bounds: seq<nat>, shift: nat, slots: nat) returns (offsets: seq<nat>)
    requires Rising(bounds) && forall i :: 0 <= i < |bounds| ==> Shr(bounds[i], shift) < slots
    ensures |offsets| == slots + 1 && offsets[slots] == |bounds|
    ensures forall s :: 0 <= s <= slots ==> IsOff(bounds, shift, s, offsets[s])
  {
    hide Shr;
    offsets := [];
    var next: nat := 0;
    for slot := 0 to slots
      invariant |offsets| == slot && next <= |bounds|
      invariant forall i :: 0 <= i < next ==> Shr(bounds[i], shift) < slot
      invariant forall s :: 0 <= s < slot ==> IsOff(bounds, shift, s, offsets[s])
    {
      while next < |bounds| && Shr(bounds[next], shift) < slot
        invariant next <= |bounds| && forall i :: 0 <= i < next ==> Shr(bounds[i], shift) < slot
      {
        next := next + 1;
      }
      forall i | next <= i < |bounds| ensures Shr(bounds[i], shift) >= slot {
        ShrMono(bounds[next], bounds[i], shift);
      }
      offsets := offsets + [next];
    }
    offsets := offsets + [|bounds|];
  }

  lemma ShrMono(a: nat, b: nat, n: nat)
    requires a <= b
    ensures Shr(a, n) <= Shr(b, n)
  {
    DivMono(a, b, Pow2(n));
  }

  lemma OffsetsRise(bounds: seq<nat>, shift: nat, s: nat, t: nat, low: nat, high: nat)
    requires IsOff(bounds, shift, s, low) && IsOff(bounds, shift, t, high) && s <= t
    ensures low <= high
  {
    hide Shr;
    if high < low {
      NotBetween(bounds, shift, s, t, low, high, high);
    }
  }

  lemma NotBetween(bounds: seq<nat>, shift: nat, s: nat, t: nat, low: nat, high: nat, i: nat)
    requires IsOff(bounds, shift, s, low) && IsOff(bounds, shift, t, high) && s <= t && i < |bounds|
    ensures !(high <= i < low)
  {
    assert i < low ==> Shr(bounds[i], shift) < s;
  }

  // A key's slot splits the bounds at the two offsets around it.
  lemma SlotSplits(bounds: seq<nat>, shift: nat, key: nat, low: nat, high: nat)
    requires IsOff(bounds, shift, Shr(key, shift), low) && IsOff(bounds, shift, Shr(key, shift) + 1, high)
    ensures low <= high <= |bounds|
    ensures forall i :: 0 <= i < low ==> bounds[i] < key
    ensures forall i :: high <= i < |bounds| ==> bounds[i] > key
    ensures forall i :: low <= i < high ==> Shr(bounds[i], shift) == Shr(key, shift)
  {
    hide Shr;
    OffsetsRise(bounds, shift, Shr(key, shift), Shr(key, shift) + 1, low, high);
    forall i | 0 <= i < low ensures bounds[i] < key {
      if key <= bounds[i] { ShrMono(key, bounds[i], shift); }
    }
    forall i | high <= i < |bounds| ensures bounds[i] > key {
      if bounds[i] <= key { ShrMono(bounds[i], key, shift); }
    }
  }

  // The octet just above a shift.
  function OctetFrom(a: nat, shift: nat): (r: nat)
    ensures r < 256
  {
    Shr(a, shift) % 256
  }

  lemma OctetSplit(a: nat, shift: nat)
    ensures Shr(a, shift) == 256 * Shr(a, shift + 8) + OctetFrom(a, shift)
  {
    ShiftShift(a, shift, 8);
    Pow2Small();
  }

  // Keys that agree above an octet compare by that octet and what follows.
  lemma SameAbove(a: nat, b: nat, shift: nat)
    requires Shr(a, shift + 8) == Shr(b, shift + 8)
    ensures OctetFrom(a, shift) < OctetFrom(b, shift) ==> a < b
    ensures OctetFrom(a, shift) == OctetFrom(b, shift) <==> Shr(a, shift) == Shr(b, shift)
    ensures a <= b ==> OctetFrom(a, shift) <= OctetFrom(b, shift)
  {
    hide Shr, OctetFrom;
    OctetSplit(a, shift);
    OctetSplit(b, shift);
    if b <= a {
      ShrMono(b, a, shift);
    }
    if a <= b {
      ShrMono(a, b, shift);
    }
  }

  // One 16-bit slot run per change of slot, counted until there are enough.
  function Runs(bounds: seq<nat>, shift: nat): nat {
    if |bounds| == 0 then 0
    else Runs(bounds[..|bounds| - 1], shift)
         + if |bounds| > 1 && Shr(bounds[|bounds| - 2], shift) == Shr(bounds[|bounds| - 1], shift) then 0 else 1
  }

  lemma {:induction false} RunsMono(bounds: seq<nat>, shift: nat, i: nat)
    requires i <= |bounds|
    ensures Runs(bounds[..i], shift) <= Runs(bounds, shift)
    decreases |bounds| - i
  {
    if i == |bounds| {
      assert bounds[..i] == bounds;
    } else {
      RunsMono(bounds, shift, i + 1);
      RunsStep(bounds, shift, i);
    }
  }

  lemma RunsStep(bounds: seq<nat>, shift: nat, i: nat)
    requires i < |bounds|
    ensures Runs(bounds[..i + 1], shift) == Runs(bounds[..i], shift)
              + if i > 0 && Shr(bounds[i - 1], shift) == Shr(bounds[i], shift) then 0 else 1
  {
    assert bounds[..i + 1][..i] == bounds[..i];
  }

  // Sixteen bits when they separate at least enough slots, else eight.
  method ChooseLevel1Bits(bounds: seq<nat>, shift: nat, enough: nat) returns (bits: nat)
    requires enough > 0
    ensures bits == if Runs(bounds, shift) >= enough then 16 else 8
  {
    var seen: nat := 0;
    var previous: int := -1;
    assert Runs(bounds[..0], shift) == 0;
    hide Shr, Runs;
    for i := 0 to |bounds|
      invariant seen == Runs(bounds[..i], shift) < enough
      invariant if i == 0 then previous == -1 else previous == Shr(bounds[i - 1], shift)
    {
      RunsStep(bounds, shift, i);
      var slot := Shr(bounds[i], shift);
      if slot != previous {
        previous := slot;
        seen := seen + 1;
        if seen >= enough {
          RunsMono(bounds, shift, i + 1);
          return 16;
        }
      }
    }
    assert bounds[..|bounds|] == bounds;
    return 8;
  }

  // The top sixteen bits of a key number a slot.
  lemma KeyInSlots(w: nat, shift: nat, key: nat)
    requires w == shift + 16 && key < Pow2(w)
    ensures Shr(key, shift) < SLOTS
  {
    TopFits(w, 16, key);
    Pow2Large();
  }
}
