// parityset's compiled set and its membership tests: the whole-space flag, the front codes, the slots,
// the second cut and the two ways of searching all come to the parity of the boundaries at or below
// the key.
module ParityLookup {
  import opened Bits
  import opened Prefixes
  import opened Words
  import opened WordArrays
  import opened Slots
  import opened ParityRanges
  import opened ParityBounds
  import opened ParityIndex

  const SPACE4 := 0x1_0000_0000
  const SPACE6 := WORD * WORD

  // ---------------------------------------------------------------- counting boundaries

  // c splits the run [low, high) at the key.
  ghost predicate SplitsIn(bounds: seq<nat>, low: nat, high: nat, key: nat, c: nat) {
    && low <= c <= high <= |bounds|
    && (forall i :: low <= i < c ==> bounds[i] <= key)
    && (forall i :: c <= i < high ==> bounds[i] > key)
  }

  method CountAtOrBelow4(bounds: seq<nat>, base: nat, end: nat, key: nat) returns (c: nat)
    requires Rising(bounds) && base <= end <= |bounds|
    ensures SplitsIn(bounds, base, end, key, c)
  {
    var low, high := base, end;
    while low < high
      invariant base <= low <= high <= end
      invariant forall i :: base <= i < low ==> bounds[i] <= key
      invariant forall i :: high <= i < end ==> bounds[i] > key
    {
      var mid := (low + high) / 2;
      if bounds[mid] > key {
        high := mid;
      } else {
        low := mid + 1;
      }
    }
    c := low;
  }

  method Count4(bounds: seq<nat>, low: nat, high: nat, key: nat) returns (c: nat)
    requires Rising(bounds) && low <= high <= |bounds|
    ensures SplitsIn(bounds, low, high, key, c)
  {
    if high - low > SCAN_LIMIT {
      c := CountAtOrBelow4(bounds, low, high, key);
      return;
    }
    c := low;
    for i := low to high
      invariant c == i && forall j :: low <= j < i ==> bounds[j] <= key
    {
      if bounds[i] > key {
        return;
      }
      c := c + 1;
    }
  }

  method CountAtOrBelow6(x: Pairs, base: nat, end: nat, keyHigh: nat, keyLow: nat, ghost bounds: seq<nat>)
    returns (c: nat)
    requires Rising(bounds) && PairsOf(x, bounds) && base <= end <= |bounds| && keyHigh < WORD && keyLow < WORD
    ensures SplitsIn(bounds, base, end, Wide(keyHigh, keyLow), c)
  {
    ghost var key := Wide(keyHigh, keyLow);
    assert |x.high| == |bounds| && (x.low == [] || |x.low| == |bounds|);
    hide Wide, Past, PairsOf;
    var low, high := base, end;
    while low < high
      invariant base <= low <= high <= end
      invariant forall i :: base <= i < low ==> bounds[i] <= key
      invariant forall i :: high <= i < end ==> bounds[i] > key
    {
      var mid := (low + high) / 2;
      PastIsAbove(x, bounds, mid, keyHigh, keyLow);
      if Past(x, mid, keyHigh, keyLow) {
        high := mid;
      } else {
        low := mid + 1;
      }
    }
    c := low;
  }

  method Count6(x: Pairs, low: nat, high: nat, keyHigh: nat, keyLow: nat, ghost bounds: seq<nat>) returns (c: nat)
    requires Rising(bounds) && PairsOf(x, bounds) && low <= high <= |bounds| && keyHigh < WORD && keyLow < WORD
    ensures SplitsIn(bounds, low, high, Wide(keyHigh, keyLow), c)
  {
    ghost var key := Wide(keyHigh, keyLow);
    assert |x.high| == |bounds| && (x.low == [] || |x.low| == |bounds|);
    hide Wide, Past, PairsOf;
    if high - low > SCAN_LIMIT {
      c := CountAtOrBelow6(x, low, high, keyHigh, keyLow, bounds);
      return;
    }
    c := low;
    for i := low to high
      invariant c == i && forall j :: low <= j < i ==> bounds[j] <= key
    {
      PastIsAbove(x, bounds, i, keyHigh, keyLow);
      if Past(x, i, keyHigh, keyLow) {
        return;
      }
      c := c + 1;
    }
  }

  // ---------------------------------------------------------------- what the cuts promise

  // Slots and front codes, present only for enough boundaries.
  ghost predicate Cut(bounds: seq<nat>, shift: nat, slots: seq<nat>, front: seq<nat>) {
    if |bounds| < SLOT_TABLE_LIMIT then slots == [] && front == []
    else SlotsOk(bounds, shift, slots) && FrontOk(slots, front)
  }

  ghost predicate SlotsOk(bounds: seq<nat>, shift: nat, slots: seq<nat>) {
    |slots| == SLOTS + 1 && forall s :: 0 <= s <= SLOTS ==> IsOff(bounds, shift, s, slots[s])
  }

  // The flag and boundaries the canonical ranges compile to.
  ghost predicate FormOf(space: nat, rs: seq<Range>, all: bool, bounds: seq<nat>) {
    Canonical(space, rs) && Form(space, rs) == (all, bounds)
  }

  lemma FormFacts(space: nat, rs: seq<Range>, all: bool, bounds: seq<nat>)
    requires space > 0 && FormOf(space, rs, all, bounds)
    ensures Rising(bounds) && forall i :: 0 <= i < |bounds| ==> bounds[i] < space
    ensures all ==> forall a: nat :: a < space ==> Union(rs, a)
    ensures !all ==> bounds == BoundsOf(space, rs)
  {
    BoundsRise(space, rs);
    if all {
      forall a: nat | a < space ensures Union(rs, a) {
        assert In(rs[0], a);
      }
    }
  }

  // Counting all boundaries at or below an address tells membership by parity.
  lemma ParityTells(space: nat, rs: seq<Range>, bounds: seq<nat>, a: nat, c: nat)
    requires FormOf(space, rs, false, bounds) && a < space && Splits(bounds, a, c)
    ensures c % 2 == 1 <==> Union(rs, a)
  {
    hide BoundsOf, Canonical, Union, Splits;
    ParityIsUnion(space, rs, a, c);
  }

  // Splitting a slot's run splits the whole array.
  lemma SlotSplitsAll(bounds: seq<nat>, shift: nat, slots: seq<nat>, key: nat, slot: nat, c: nat)
    requires SlotsOk(bounds, shift, slots) && slot == Shr(key, shift) < SLOTS
    ensures slot + 1 < |slots| && slots[slot] <= slots[slot + 1] <= |bounds|
    ensures SplitsIn(bounds, slots[slot], slots[slot + 1], key, c) ==> Splits(bounds, key, c)
  {
    hide Shr;
    SlotSplits(bounds, shift, key, slots[slot], slots[slot + 1]);
  }

  // Splitting the run [low, high) settles where the key splits the whole array.
  ghost predicate Resolves(bounds: seq<nat>, low: nat, high: nat, key: nat) {
    low <= high <= |bounds| && forall c: nat :: SplitsIn(bounds, low, high, key, c) ==> Splits(bounds, key, c)
  }

  lemma SlotResolves(bounds: seq<nat>, shift: nat, slots: seq<nat>, key: nat, slot: nat)
    requires SlotsOk(bounds, shift, slots) && slot == Shr(key, shift) < SLOTS
    ensures Resolves(bounds, slots[slot], slots[slot + 1], key)
  {
    hide SlotsOk, Shr, SplitsIn, Splits;
    SlotSplitsAll(bounds, shift, slots, key, slot, 0);
    forall c: nat ensures SplitsIn(bounds, slots[slot], slots[slot + 1], key, c) ==> Splits(bounds, key, c) {
      SlotSplitsAll(bounds, shift, slots, key, slot, c);
    }
  }

  lemma WholeResolves(bounds: seq<nat>, key: nat)
    ensures Resolves(bounds, 0, |bounds|, key)
  {
  }

  lemma Resolved(bounds: seq<nat>, low: nat, high: nat, key: nat, c: nat)
    requires Resolves(bounds, low, high, key) && SplitsIn(bounds, low, high, key, c)
    ensures Splits(bounds, key, c)
  {
  }

  // An empty slot's code is its answer.
  lemma UniformSlot(bounds: seq<nat>, shift: nat, slots: seq<nat>, front: seq<nat>, key: nat, slot: nat, code: nat)
    requires SlotsOk(bounds, shift, slots) && FrontOk(slots, front) && slot == Shr(key, shift) < SLOTS
    requires code == FrontCode(front, slot) && code != FRONT_DEEPER
    ensures Splits(bounds, key, slots[slot]) && (slots[slot] % 2 == 1 <==> code == FRONT_ALL)
  {
    hide Shr, FrontCode;
    assert code == SlotCode(slots, slot);
    SlotSplitsAll(bounds, shift, slots, key, slot, slots[slot]);
  }

  // Splitting an octet's bucket splits its slot.
  lemma BucketSplits(bounds: seq<nat>, low: nat, high: nat, shift: nat, block: seq<nat>, key: nat, o: nat, c: nat)
    requires SubOk(bounds, low, high, shift, block) && o == OctetFrom(key, shift)
    requires forall i :: low <= i < high ==> Shr(bounds[i], shift + 8) == Shr(key, shift + 8)
    ensures o + 1 < |block| && block[o] <= block[o + 1] <= |bounds|
    ensures SplitsIn(bounds, block[o], block[o + 1], key, c) ==> SplitsIn(bounds, low, high, key, c)
  {
    hide Shr, OctetFrom;
    var from, to := block[o], block[o + 1];
    assert OctetOff(bounds, low, high, shift, o, from);
    assert o + 1 < 256 ==> OctetOff(bounds, low, high, shift, o + 1, to);
    BucketRises(bounds, low, high, shift, o, from, to);
    forall i | low <= i < from ensures bounds[i] < key {
      SameAbove(bounds[i], key, shift);
    }
    forall i | to <= i < high ensures bounds[i] > key {
      SameAbove(key, bounds[i], shift);
    }
  }

  lemma BucketRises(bounds: seq<nat>, low: nat, high: nat, shift: nat, o: nat, from: nat, to: nat)
    requires OctetOff(bounds, low, high, shift, o, from)
    requires if o + 1 < 256 then OctetOff(bounds, low, high, shift, o + 1, to) else to == high
    ensures from <= to
  {
    hide OctetFrom;
    if to < from {
      NotInBoth(bounds, low, high, shift, o, from, to, to);
    }
  }

  lemma NotInBoth(bounds: seq<nat>, low: nat, high: nat, shift: nat, o: nat, from: nat, to: nat, i: nat)
    requires OctetOff(bounds, low, high, shift, o, from) && low <= i < high
    requires if o + 1 < 256 then OctetOff(bounds, low, high, shift, o + 1, to) else to == high
    ensures !(to <= i < from)
  {
    hide OctetFrom;
    assert i < from ==> OctetFrom(bounds[i], shift) < o;
  }

  // ---------------------------------------------------------------- IPv4

  datatype Index4 = Index4(all: bool, bounds: seq<nat>, slots: seq<nat>, front: seq<nat>)

  ghost predicate Compiled4(rs: seq<Range>, x: Index4) {
    FormOf(SPACE4, rs, x.all, x.bounds) && Cut(x.bounds, 16, x.slots, x.front)
  }

  method Compile4(rs: seq<Range>) returns (x: Index4)
    requires Canonical(SPACE4, rs)
    ensures Compiled4(rs, x)
  {
    if |rs| == 0 {
      return Index4(false, [], [], []);
    }
    if |rs| == 1 && rs[0].first == 0 && rs[0].last == SPACE4 - 1 {
      return Index4(true, [], [], []);
    }
    var bounds := ListBounds(SPACE4, rs);
    FormFacts(SPACE4, rs, false, bounds);
    var slots: seq<nat>, front: seq<nat> := [], [];
    if |bounds| >= SLOT_TABLE_LIMIT {
      SpaceSizes();
      BoundsInSlots(32, 16, bounds);
      slots := BuildSlotOffsets(bounds, 16, SLOTS);
      front := BuildFront(slots);
    }
    x := Index4(false, bounds, slots, front);
  }

  method ListBounds(space: nat, rs: seq<Range>) returns (bounds: seq<nat>)
    ensures bounds == BoundsOf(space, rs)
  {
    bounds := [];
    for i := 0 to |rs|
      invariant bounds == BoundsOf(space, rs[..i])
    {
      assert rs[..i + 1][..i] == rs[..i];
      bounds := bounds + [rs[i].first];
      if rs[i].last + 1 < space {
        bounds := bounds + [rs[i].last + 1];
      }
    }
    assert rs[..|rs|] == rs;
  }

  lemma BoundsInSlots(w: nat, shift: nat, bounds: seq<nat>)
    requires w == shift + 16 && forall i :: 0 <= i < |bounds| ==> bounds[i] < Pow2(w)
    ensures forall i :: 0 <= i < |bounds| ==> Shr(bounds[i], shift) < SLOTS
  {
    forall i | 0 <= i < |bounds| ensures Shr(bounds[i], shift) < SLOTS {
      KeyInSlots(w, shift, bounds[i]);
    }
  }

  lemma SpaceSizes()
    ensures Pow2(32) == SPACE4 && Pow2(128) == SPACE6
  {
    Pow2Word();
    Pow2Large();
  }

  method Odd4(bounds: seq<nat>, low: nat, high: nat, key: nat, ghost rs: seq<Range>) returns (r: bool)
    requires FormOf(SPACE4, rs, false, bounds) && Rising(bounds) && key < SPACE4 && Resolves(bounds, low, high, key)
    ensures r <==> Union(rs, key)
  {
    assert low <= high <= |bounds|;
    hide FormOf, Union, Resolves, Rising, SplitsIn, Splits;
    var count := Count4(bounds, low, high, key);
    Resolved(bounds, low, high, key, count);
    ParityTells(SPACE4, rs, bounds, key, count);
    r := count % 2 == 1;
  }

  method Contains4(x: Index4, key: nat, ghost rs: seq<Range>) returns (r: bool)
    requires Compiled4(rs, x) && key < SPACE4
    ensures r <==> Union(rs, key)
  {
    FormFacts(SPACE4, rs, x.all, x.bounds);
    hide FormOf, Cut, BoundsOf, Union, Rising;
    if x.all {
      return true;
    }
    WholeResolves(x.bounds, key);
    CutSize(x.bounds, 16, x.slots, x.front);
    hide Resolves;
    if x.front != [] {
      r := ContainsIn4(x, key, rs);
    } else if |x.bounds| == 0 {
      ParityTells(SPACE4, rs, x.bounds, key, 0);
      return false;
    } else {
      r := Odd4(x.bounds, 0, |x.bounds|, key, rs);
    }
  }

  lemma CutSize(bounds: seq<nat>, shift: nat, slots: seq<nat>, front: seq<nat>)
    requires Cut(bounds, shift, slots, front)
    ensures front != [] ==> SlotsOk(bounds, shift, slots) && FrontOk(slots, front)
  {
  }

  // By the front code, or in the slot.
  method ContainsIn4(x: Index4, key: nat, ghost rs: seq<Range>) returns (r: bool)
    requires FormOf(SPACE4, rs, false, x.bounds) && Rising(x.bounds) && key < SPACE4
    requires SlotsOk(x.bounds, 16, x.slots) && FrontOk(x.slots, x.front)
    ensures r <==> Union(rs, key)
  {
    SpaceSizes();
    KeyInSlots(32, 16, key);
    assert |x.front| == SLOTS / 32 && |x.slots| == SLOTS + 1;
    hide Shr, FrontCode, FormOf, SlotsOk, FrontOk, Rising, Pow2, Union, Resolves, Splits;
    var slot := Shr(key, 16);
    var code := FrontCode(x.front, slot);
    if code == FRONT_NONE || code == FRONT_ALL {
      UniformSlot(x.bounds, 16, x.slots, x.front, key, slot, code);
      ParityTells(SPACE4, rs, x.bounds, key, x.slots[slot]);
      return code == FRONT_ALL;
    }
    SlotResolves(x.bounds, 16, x.slots, key, slot);
    r := Odd4(x.bounds, x.slots[slot], x.slots[slot + 1], key, rs);
  }

  // ---------------------------------------------------------------- IPv6

  datatype Index6 = Index6(all: bool, words: Pairs, slots: seq<nat>, front: seq<nat>, subBlock: seq<nat>, sub: seq<nat>)

  // The boundaries as numbers.
  ghost function Bounds6(rs: seq<Range>): seq<nat> {
    Form(SPACE6, rs).1
  }

  ghost predicate Compiled6(rs: seq<Range>, x: Index6) {
    Split6(rs, x, Bounds6(rs))
  }

  ghost predicate Split6(rs: seq<Range>, x: Index6, bounds: seq<nat>) {
    && FormOf(SPACE6, rs, x.all, bounds) && PairsOf(x.words, bounds) && Cut(bounds, 112, x.slots, x.front)
    && SubTables(bounds, x.slots, 104, x.subBlock, x.sub) && (x.front == [] ==> x.subBlock == [])
  }

  method Compile6(rs: seq<Range>) returns (x: Index6)
    requires Canonical(SPACE6, rs)
    ensures Compiled6(rs, x)
  {
    if |rs| == 0 {
      return Index6(false, Pairs([], []), [], [], [], []);
    }
    if |rs| == 1 && rs[0].first == 0 && rs[0].last == SPACE6 - 1 {
      return Index6(true, Pairs([], []), [], [], [], []);
    }
    var bounds := ListBounds(SPACE6, rs);
    FormFacts(SPACE6, rs, false, bounds);
    Pow2Word();
    var words := SplitWords(bounds);
    var slots: seq<nat>, front: seq<nat>, subBlock: seq<nat>, sub: seq<nat> := [], [], [], [];
    if |bounds| >= SLOT_TABLE_LIMIT {
      BoundsInSlots(128, 112, bounds);
      hide Shr, IsOff, SubTables, Rising, Pow2;
      slots := BuildSlotOffsets(bounds, 112, SLOTS);
      front := BuildFront(slots);
      subBlock, sub := BuildSub(bounds, slots, 104);
    }
    x := Index6(false, words, slots, front, subBlock, sub);
  }

  // Where to search for a key: the bucket of a crowded slot, or else the slot.
  method Locate6(x: Index6, slot: nat, keyHigh: nat, ghost keyLow: nat, ghost bounds: seq<nat>) returns (low: nat, high: nat)
    requires SlotsOk(bounds, 112, x.slots) && SubTables(bounds, x.slots, 104, x.subBlock, x.sub)
    requires keyLow < WORD && slot == Shr(Wide(keyHigh, keyLow), 112) < SLOTS
    ensures Resolves(bounds, low, high, Wide(keyHigh, keyLow))
  {
    hide Shr, Wide, SplitsIn, Splits, IsOff, SubOk;
    ghost var key := Wide(keyHigh, keyLow);
    ShrHigh(keyHigh, keyLow, 40);
    SlotResolves(bounds, 112, x.slots, key, slot);
    if x.subBlock != [] {
      var block := x.subBlock[slot];
      if block != NO_BLOCK {
        assert BlockOk(bounds, x.slots[slot], x.slots[slot + 1], 104, block, x.sub);
        var octet := OctetFrom(keyHigh, 40);
        var base := block * SUB_ENTRIES + octet;
        ghost var entries := x.sub[block * SUB_ENTRIES..block * SUB_ENTRIES + SUB_ENTRIES];
        SlotHolds(bounds, 112, slot, x.slots[slot], x.slots[slot + 1]);
        BucketFound(bounds, x.slots[slot], x.slots[slot + 1], entries, key, octet);
        low, high := x.sub[base], x.sub[base + 1];
        return;
      }
    }
    low, high := x.slots[slot], x.slots[slot + 1];
  }

  lemma BucketFound(bounds: seq<nat>, low: nat, high: nat, block: seq<nat>, key: nat, o: nat)
    requires SubOk(bounds, low, high, 104, block) && o == OctetFrom(key, 104)
    requires forall i :: low <= i < high ==> Shr(bounds[i], 112) == Shr(key, 112)
    ensures o + 1 < |block| && block[o] <= block[o + 1] <= |bounds|
    ensures forall c: nat :: SplitsIn(bounds, block[o], block[o + 1], key, c) ==> SplitsIn(bounds, low, high, key, c)
  {
    hide Shr, OctetFrom, SubOk, SplitsIn;
    BucketSplits(bounds, low, high, 104, block, key, o, 0);
    forall c: nat ensures SplitsIn(bounds, block[o], block[o + 1], key, c) ==> SplitsIn(bounds, low, high, key, c) {
      BucketSplits(bounds, low, high, 104, block, key, o, c);
    }
  }

  method Odd6(words: Pairs, low: nat, high: nat, keyHigh: nat, keyLow: nat, ghost rs: seq<Range>, ghost bounds: seq<nat>)
    returns (r: bool)
    requires FormOf(SPACE6, rs, false, bounds) && Rising(bounds) && PairsOf(words, bounds)
    requires keyHigh < WORD && keyLow < WORD && Resolves(bounds, low, high, Wide(keyHigh, keyLow))
    ensures r <==> Union(rs, Wide(keyHigh, keyLow))
  {
    ghost var key := Wide(keyHigh, keyLow);
    assert key < SPACE6 && low <= high <= |bounds|;
    hide FormOf, Union, Resolves, Rising, SplitsIn, Splits, PairsOf, Wide;
    var count := Count6(words, low, high, keyHigh, keyLow, bounds);
    Resolved(bounds, low, high, key, count);
    ParityTells(SPACE6, rs, bounds, key, count);
    r := count % 2 == 1;
  }

  method Contains6(x: Index6, keyHigh: nat, keyLow: nat, ghost rs: seq<Range>) returns (r: bool)
    requires Compiled6(rs, x) && keyHigh < WORD && keyLow < WORD
    ensures r <==> Union(rs, Wide(keyHigh, keyLow))
  {
    ghost var key, bounds := Wide(keyHigh, keyLow), Bounds6(rs);
    assert key < SPACE6;
    FormFacts(SPACE6, rs, x.all, bounds);
    assert |x.words.high| == |bounds|;
    hide FormOf, Cut, BoundsOf, Bounds6, Union, Rising, PairsOf, SubTables, Wide;
    if x.all {
      return true;
    }
    WholeResolves(bounds, key);
    CutSize(bounds, 112, x.slots, x.front);
    hide Resolves;
    if x.front != [] {
      r := ContainsIn6(x, keyHigh, keyLow, rs, bounds);
    } else if |x.words.high| == 0 {
      ParityTells(SPACE6, rs, bounds, key, 0);
      return false;
    } else {
      r := Odd6(x.words, 0, |x.words.high|, keyHigh, keyLow, rs, bounds);
    }
  }

  // By the front code, in the bucket of a crowded slot, or in the slot.
  method ContainsIn6(x: Index6, keyHigh: nat, keyLow: nat, ghost rs: seq<Range>, ghost bounds: seq<nat>) returns (r: bool)
    requires FormOf(SPACE6, rs, false, bounds) && Rising(bounds) && PairsOf(x.words, bounds)
    requires SlotsOk(bounds, 112, x.slots) && FrontOk(x.slots, x.front)
    requires SubTables(bounds, x.slots, 104, x.subBlock, x.sub) && keyHigh < WORD && keyLow < WORD
    ensures r <==> Union(rs, Wide(keyHigh, keyLow))
  {
    ghost var key := Wide(keyHigh, keyLow);
    assert key < SPACE6;
    SpaceSizes();
    KeyInSlots(128, 112, key);
    ShrHigh(keyHigh, keyLow, 48);
    assert |x.front| == SLOTS / 32 && |x.slots| == SLOTS + 1;
    hide Shr, FrontCode, FormOf, SlotsOk, FrontOk, Rising, Pow2, Union, Splits, PairsOf, SubTables, Wide;
    var slot := Shr(keyHigh, 48);
    var code := FrontCode(x.front, slot);
    if code == FRONT_NONE || code == FRONT_ALL {
      UniformSlot(bounds, 112, x.slots, x.front, key, slot, code);
      ParityTells(SPACE6, rs, bounds, key, x.slots[slot]);
      return code == FRONT_ALL;
    }
    var low, high := Locate6(x, slot, keyHigh, keyLow, bounds);
    if low == high {
      EmptyRun(bounds, low, key);
      ParityTells(SPACE6, rs, bounds, key, low);
      return low % 2 == 1;
    }
    r := Odd6(x.words, low, high, keyHigh, keyLow, rs, bounds);
  }

  lemma EmptyRun(bounds: seq<nat>, low: nat, key: nat)
    requires Resolves(bounds, low, low, key)
    ensures Splits(bounds, key, low)
  {
    assert SplitsIn(bounds, low, low, key, low);
  }
}
