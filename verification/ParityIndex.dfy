// parityset's compiled index: slots over the boundaries, a packed two-bit classifier of each slot, and
// for IPv6 a second cut on the third octet of crowded slots.
module ParityIndex {
  import opened Bits
  import opened WordArrays
  import opened Slots

  const SLOT_TABLE_LIMIT := 96
  const SCAN_LIMIT := 32
  const SUB_THRESHOLD := 8
  const SUB_ENTRIES := 257
  const NO_BLOCK := 0xffff_ffff

  const FRONT_NONE := 0
  const FRONT_ALL := 1
  const FRONT_DEEPER := 2

  // ---------------------------------------------------------------- the front table

  // The two-bit code of a slot: thirty-two to a word.
  function FrontCode(front: seq<nat>, slot: nat): nat
    requires slot / 32 < |front|
  {
    Code(front[slot / 32], slot % 32)
  }

  function Code(word: nat, i: nat): nat {
    Shr(word, 2 * i) % 4
  }

  // word | code << 2j, for a word with nothing yet at or above that place.
  function Packed(word: nat, j: nat, code: nat): nat {
    word + code * Pow2(2 * j)
  }

  // Setting the next code of a word leaves the earlier ones alone.
  lemma PackStep(word: nat, j: nat, code: nat)
    requires word < Pow2(2 * j) && code < 4
    ensures Packed(word, j, code) < Pow2(2 * (j + 1)) && Code(Packed(word, j, code), j) == code
    ensures forall i: nat | i < j :: Code(Packed(word, j, code), i) == Code(word, i)
  {
    var m := Pow2(2 * j);
    assert Pow2(2 * (j + 1)) == 4 * m by { assert 2 * (j + 1) == 2 * j + 2; assert Pow2(2 * j + 2) == 2 * Pow2(2 * j + 1); }
    DivUnique(Packed(word, j, code), m, code);
    hide Pow2;
    forall i: nat | i < j ensures Code(Packed(word, j, code), i) == Code(word, i) {
      LowerCode(word, j, code, i);
    }
  }

  lemma LowerCode(word: nat, j: nat, code: nat, i: nat)
    requires i < j
    ensures Code(Packed(word, j, code), i) == Code(word, i)
  {
    var rest := 2 * (j - i - 1);
    Pow2Add(2 + rest, 2 * i);
    assert 2 + rest + 2 * i == 2 * j;
    Pow2Add(2, rest);
    assert Pow2(2) == 2 * Pow2(1);
    hide Pow2;
    LowerDigits(word, code, Pow2(2 * i), Pow2(rest), Pow2(2 * j));
  }

  lemma LowerDigits(word: nat, code: nat, m: nat, rest: nat, big: nat)
    requires m > 0 && big == (4 * rest) * m
    ensures (word + code * big) / m % 4 == word / m % 4
  {
    MulShuffle(code, 4 * rest, m);
    FourTimes(code, rest);
    AddBlocks(word, (code * rest) * 4, m);
    AddFours(word / m, code * rest);
  }

  lemma FourTimes(code: nat, rest: nat)
    ensures code * (4 * rest) == (code * rest) * 4
  {
    MulShuffle(code, rest, 4);
  }

  lemma AddBlocks(word: nat, k: nat, m: nat)
    requires m > 0
    ensures (word + k * m) / m == word / m + k
  {
    DivBracket(word, m);
    assert (word / m + k) * m == word / m * m + k * m;
    DivUnique(word + k * m, m, word / m + k);
  }

  lemma AddFours(x: nat, k: nat)
    ensures (x + k * 4) % 4 == x % 4
  {
  }

  // What a slot's code says: no boundary inside, and then the parity below it; or look deeper.
  function SlotCode(slots: seq<nat>, slot: nat): nat
    requires slot + 1 < |slots|
  {
    if slots[slot] == slots[slot + 1] then if slots[slot] % 2 == 1 then FRONT_ALL else FRONT_NONE
    else FRONT_DEEPER
  }

  ghost predicate FrontOk(slots: seq<nat>, front: seq<nat>) {
    |slots| == SLOTS + 1 && |front| == SLOTS / 32
    && forall s :: 0 <= s < SLOTS ==> FrontCode(front, s) == SlotCode(slots, s)
  }

  method BuildFront(slots: seq<nat>) returns (front: seq<nat>)
    requires |slots| == SLOTS + 1
    ensures FrontOk(slots, front)
  {
    front := [];
    hide Code, SlotCode, Pow2;
    for w := 0 to SLOTS / 32
      invariant |front| == w
      invariant forall s :: 0 <= s < 32 * w ==> FrontCode(front, s) == SlotCode(slots, s)
    {
      var word := PackWord(slots, w);
      ghost var before := front;
      front := front + [word];
      forall s | 0 <= s < 32 * (w + 1) ensures FrontCode(front, s) == SlotCode(slots, s) {
        if s >= 32 * w {
          assert s / 32 == w && s == 32 * w + s % 32;
        } else {
          assert FrontCode(before, s) == FrontCode(front, s);
        }
      }
    }
  }

  method PackWord(slots: seq<nat>, w: nat) returns (word: nat)
    requires |slots| == SLOTS + 1 && w < SLOTS / 32
    ensures forall i: nat | i < 32 :: Code(word, i) == SlotCode(slots, 32 * w + i)
  {
    word := 0;
    assert Pow2(2 * 0) == 1;
    hide Code, Pow2, SlotCode, Packed;
    for j := 0 to 32
      invariant word < Pow2(2 * j)
      invariant forall i: nat | i < j :: Code(word, i) == SlotCode(slots, 32 * w + i)
    {
      var code := SlotCode(slots, 32 * w + j);
      CodeFits(slots, 32 * w + j);
      PackStep(word, j, code);
      word := Packed(word, j, code);
    }
  }

  lemma CodeFits(slots: seq<nat>, slot: nat)
    requires slot + 1 < |slots|
    ensures SlotCode(slots, slot) < 4
  {
  }

  // ---------------------------------------------------------------- the second cut

  // Offsets of a slot's boundaries bucketed by one more octet.
  ghost predicate SubOk(bounds: seq<nat>, low: nat, high: nat, shift: nat, block: seq<nat>) {
    && low <= high <= |bounds| && |block| == SUB_ENTRIES && block[256] == high
    && forall o :: 0 <= o < 256 ==> OctetOff(bounds, low, high, shift, o, block[o])
  }

  ghost predicate OctetOff(bounds: seq<nat>, low: nat, high: nat, shift: nat, o: nat, off: nat) {
    && low <= off <= high <= |bounds|
    && (forall i :: low <= i < off ==> OctetFrom(bounds[i], shift) < o)
    && (forall i :: off <= i < high ==> OctetFrom(bounds[i], shift) >= o)
  }

  // All the boundaries of one slot share what lies above the octet, so the octet follows their order.
  lemma SlotOctetsRise(bounds: seq<nat>, low: nat, high: nat, shift: nat, s: nat)
    requires Rising(bounds) && low <= high <= |bounds| && forall i :: low <= i < high ==> Shr(bounds[i], shift + 8) == s
    ensures forall i, j :: low <= i <= j < high ==> OctetFrom(bounds[i], shift) <= OctetFrom(bounds[j], shift)
  {
    hide Shr, OctetFrom;
    forall i, j | low <= i <= j < high ensures OctetFrom(bounds[i], shift) <= OctetFrom(bounds[j], shift) {
      SameAbove(bounds[i], bounds[j], shift);
    }
  }

  method SubBlock(bounds: seq<nat>, low: nat, high: nat, shift: nat) returns (block: seq<nat>)
    requires low <= high <= |bounds|
    requires forall i, j :: low <= i <= j < high ==> OctetFrom(bounds[i], shift) <= OctetFrom(bounds[j], shift)
    ensures SubOk(bounds, low, high, shift, block)
  {
    hide OctetFrom;
    block := [];
    var next: nat := low;
    for octet := 0 to 256
      invariant |block| == octet && low <= next <= high
      invariant forall i :: low <= i < next ==> OctetFrom(bounds[i], shift) < octet
      invariant forall o :: 0 <= o < octet ==> OctetOff(bounds, low, high, shift, o, block[o])
    {
      while next < high && OctetFrom(bounds[next], shift) < octet
        invariant low <= next <= high && forall i :: low <= i < next ==> OctetFrom(bounds[i], shift) < octet
      {
        next := next + 1;
      }
      assert OctetOff(bounds, low, high, shift, octet, next);
      block := block + [next];
    }
    block := block + [high];
  }

  ghost predicate BlocksOk(bounds: seq<nat>, slots: seq<nat>, shift: nat, subBlock: seq<nat>, sub: seq<nat>, upto: nat)
    requires upto <= |subBlock| && upto < |slots|
  {
    forall s :: 0 <= s < upto ==> BlockOk(bounds, slots[s], slots[s + 1], shift, subBlock[s], sub)
  }

  ghost predicate BlockOk(bounds: seq<nat>, low: nat, high: nat, shift: nat, block: nat, sub: seq<nat>) {
    block != NO_BLOCK ==>
      block * SUB_ENTRIES + SUB_ENTRIES <= |sub|
      && SubOk(bounds, low, high, shift, sub[block * SUB_ENTRIES..block * SUB_ENTRIES + SUB_ENTRIES])
  }

  lemma BlockKept(bounds: seq<nat>, low: nat, high: nat, shift: nat, block: nat, sub: seq<nat>, more: seq<nat>)
    requires BlockOk(bounds, low, high, shift, block, sub)
    ensures BlockOk(bounds, low, high, shift, block, sub + more)
  {
    hide SubOk;
    if block != NO_BLOCK {
      assert (sub + more)[block * SUB_ENTRIES..block * SUB_ENTRIES + SUB_ENTRIES]
          == sub[block * SUB_ENTRIES..block * SUB_ENTRIES + SUB_ENTRIES];
    }
  }

  // The second-level tables, absent when no slot is crowded.
  ghost predicate SubTables(bounds: seq<nat>, slots: seq<nat>, shift: nat, subBlock: seq<nat>, sub: seq<nat>) {
    subBlock == [] || (|subBlock| == SLOTS < |slots| && BlocksOk(bounds, slots, shift, subBlock, sub, SLOTS))
  }

  method BuildSub(bounds: seq<nat>, slots: seq<nat>, shift: nat) returns (subBlock: seq<nat>, sub: seq<nat>)
    requires Rising(bounds) && |slots| == SLOTS + 1
    requires forall s :: 0 <= s <= SLOTS ==> IsOff(bounds, shift + 8, s, slots[s])
    ensures SubTables(bounds, slots, shift, subBlock, sub)
    ensures subBlock == [] <==> forall s :: 0 <= s < SLOTS ==> slots[s + 1] - slots[s] <= SUB_THRESHOLD
  {
    hide IsOff, BlocksOk, Rising;
    for s := 0 to SLOTS
      invariant forall t :: 0 <= t < s ==> slots[t + 1] - slots[t] <= SUB_THRESHOLD
    {
      if slots[s + 1] - slots[s] > SUB_THRESHOLD {
        subBlock, sub := CutSlots(bounds, slots, shift);
        return;
      }
    }
    return [], [];
  }

  // A block for every slot with more boundaries than are worth searching directly.
  method CutSlots(bounds: seq<nat>, slots: seq<nat>, shift: nat) returns (subBlock: seq<nat>, sub: seq<nat>)
    requires Rising(bounds) && |slots| == SLOTS + 1
    requires forall s :: 0 <= s <= SLOTS ==> IsOff(bounds, shift + 8, s, slots[s])
    ensures |subBlock| == SLOTS && BlocksOk(bounds, slots, shift, subBlock, sub, SLOTS)
  {
    subBlock, sub := [], [];
    var block: nat := 0;
    hide IsOff, SubOk, Rising, Shr, OctetFrom;
    for s := 0 to SLOTS
      invariant |subBlock| == s && block <= s && |sub| == block * SUB_ENTRIES
      invariant BlocksOk(bounds, slots, shift, subBlock, sub, s)
    {
      var low, high := slots[s], slots[s + 1];
      SlotHolds(bounds, shift + 8, s, low, high);
      ghost var blocks, before := subBlock, sub;
      if high - low <= SUB_THRESHOLD {
        subBlock := subBlock + [NO_BLOCK];
      } else {
        SlotOctetsRise(bounds, low, high, shift, s);
        var entries := SubBlock(bounds, low, high, shift);
        LastBlock(bounds, low, high, shift, block, sub, entries);
        subBlock := subBlock + [block];
        sub := sub + entries;
        block := block + 1;
        forall q | 0 <= q < s ensures BlockOk(bounds, slots[q], slots[q + 1], shift, subBlock[q], sub) {
          BlockKept(bounds, slots[q], slots[q + 1], shift, blocks[q], before, entries);
        }
      }
    }
  }

  lemma SlotHolds(bounds: seq<nat>, shift: nat, s: nat, low: nat, high: nat)
    requires IsOff(bounds, shift, s, low) && IsOff(bounds, shift, s + 1, high)
    ensures low <= high <= |bounds| && forall i :: low <= i < high ==> Shr(bounds[i], shift) == s
  {
    hide Shr;
    OffsetsRise(bounds, shift, s, s + 1, low, high);
  }

  lemma LastBlock(bounds: seq<nat>, low: nat, high: nat, shift: nat, block: nat, sub: seq<nat>, entries: seq<nat>)
    requires |sub| == block * SUB_ENTRIES && SubOk(bounds, low, high, shift, entries)
    ensures BlockOk(bounds, low, high, shift, block, sub + entries) && |sub + entries| == (block + 1) * SUB_ENTRIES
  {
    assert |entries| == SUB_ENTRIES;
    hide SubOk;
    assert (sub + entries)[block * SUB_ENTRIES..block * SUB_ENTRIES + SUB_ENTRIES] == entries;
  }
}
