// The 16-8-8 IPv4 forwarding table of blocklpm and dirlpm: a 16-bit root, 256-cell blocks for
// prefixes of 17 to 24 bits, and 256-cell blocks for longer ones, each block starting from the
// value of the cell it replaces.
module Blocks4 {
  import opened Bits
  import opened Prefixes
  import opened Sorting
  import opened Painting

  // A cell with the top bit set leads to a block.
  const NEXT := 0x8000_0000
  const ROOT := 65536
  const BLOCK := 256

  // blocklpm's tags carry the block's number, dirlpm's the block's first cell.
  datatype Tagging = Numbered | Scaled

  datatype Table4 = Table4(root: seq<nat>, level2: seq<nat>, level3: seq<nat>, tagging: Tagging)

  function TagOf(tagging: Tagging, block: nat): nat {
    if tagging.Scaled? then NEXT + BLOCK * block else NEXT + block
  }

  // The first cell of the block a tagged cell leads to.
  function BaseOf(tagging: Tagging, cell: nat): nat
    requires cell >= NEXT
  {
    if tagging.Scaled? then cell - NEXT else (cell - NEXT) * BLOCK
  }

  lemma TagBase(tagging: Tagging, block: nat)
    ensures TagOf(tagging, block) >= NEXT && BaseOf(tagging, TagOf(tagging, block)) == BLOCK * block
  {
  }

  // ---------------------------------------------------------------- cells and their keys

  // Block b's cells stand for the keys below home[b].
  function CellKey(home: seq<nat>, i: nat): nat
    requires i / BLOCK < |home|
  {
    home[i / BLOCK] * BLOCK + i % BLOCK
  }

  function Address(l: nat, q: nat): nat
    requires l <= 32
  {
    q * Pow2(32 - l)
  }

  // What the cell for q holds once the first j entries of least to l bits are painted.
  ghost function CellValue(l: nat, es: seq<Entry>, j: nat, least: nat, q: nat): nat
    requires l <= 32 && j <= |es| && least > 0
  {
    Over(32, es[..j], least, l, Address(l, q), Over(32, es, 0, least - 1, Address(l, q), 0))
  }

  ghost predicate CellsRight(l: nat, es: seq<Entry>, j: nat, least: nat, home: seq<nat>, cells: seq<nat>)
    requires l <= 32 && j <= |es| && least > 0
  {
    |cells| == BLOCK * |home| && forall i :: 0 <= i < |cells| ==> cells[i] == CellValue(l, es, j, least, CellKey(home, i))
  }

  ghost predicate Apart(home: seq<nat>) {
    forall b, c :: 0 <= b < |home| && 0 <= c < |home| && b != c ==> home[b] != home[c]
  }

  // An entry paints an aligned run inside one block.
  lemma RunInBlock(l: nat, p: Prefix)
    requires Valid(32, p) && 8 <= l <= 32 && l - 8 < p.len <= l
    ensures Shr(p.key, 32 - l) % BLOCK + Pow2(l - p.len) <= BLOCK
    ensures Shr(p.key, 32 - l) == Shr(p.key, 40 - l) * BLOCK + Shr(p.key, 32 - l) % BLOCK
  {
    TrimValid(32, l, p);
    SmallPowers(l - p.len);
    ShiftShift(p.key, 32 - l, 8);
    SmallPowers(8);
    assert 32 - l + 8 == 40 - l;
    AlignedInBlock(Shr(p.key, 32 - l), l - p.len);
  }

  lemma SmallPowers(n: nat)
    requires n <= 8
    ensures Pow2(n) == [1, 2, 4, 8, 16, 32, 64, 128, 256][n]
  {
    Pow2Small();
  }

  lemma AlignedInBlock(q: nat, n: nat)
    requires n < 8 && q % Pow2(n) == 0
    ensures q % 256 + Pow2(n) <= 256
  {
    Pow2Add(8 - n, n);
    Pow2Small();
    hide Pow2;
    AlignedRest(q, Pow2(n), Pow2(8 - n));
  }

  lemma AlignedRest(q: nat, m: nat, c: nat)
    requires m > 0 && q % m == 0 && c * m == 256
    ensures q % 256 + m <= 256
  {
    var k, s: nat := q / 256, q % 256;
    assert q == k * 256 + s;
    var t := q / m;
    assert q == t * m;
    Remainder(t, k, m, c, s);
    BlockFits(s, m, c, 256);
  }

  lemma Remainder(t: nat, k: nat, m: nat, c: nat, s: nat)
    requires s == t * m - k * 256 && c * m == 256 && m > 0
    ensures s % m == 0
  {
    MulShuffle(k, c, m);
    TakeTimes(t, k * c, m);
    DivUnique(s, m, t - k * c);
  }

  // Painting one entry into its block.
  lemma CellPainted(l: nat, es: seq<Entry>, j: nat, least: nat, home: seq<nat>, cells: seq<nat>, b: nat, start: nat,
                    count: nat, painted: seq<nat>)
    requires 8 <= l <= 32 && j < |es| && least == l - 7 && least <= es[j].p.len <= l
    requires ValidEntries(32, es) && CellsRight(l, es, j, least, home, cells) && Apart(home)
    requires b < |home| && home[b] == Shr(es[j].p.key, 40 - l)
    requires start == BLOCK * b + Shr(es[j].p.key, 32 - l) % BLOCK && count == Pow2(l - es[j].p.len)
    requires |painted| == |cells|
    requires forall i :: 0 <= i < |cells| ==> painted[i] == if start <= i < start + count then es[j].value else cells[i]
    ensures CellsRight(l, es, j + 1, least, home, painted)
  {
    var p := es[j].p;
    RunInBlock(l, p);
    forall i | 0 <= i < |cells| ensures painted[i] == CellValue(l, es, j + 1, least, CellKey(home, i)) {
      var q := CellKey(home, i);
      OverStep(32, es, j, least, l, Address(l, q), Over(32, es, 0, least - 1, Address(l, q), 0));
      CellCovers(32, l, p, q);
      LevelSpan(32, l, p, q);
      hide Shr, Pow2, Covers;
      InRun(home, i, b, Shr(p.key, 32 - l), count);
    }
  }

  // A cell lies in the painted run exactly when its key does.
  lemma InRun(home: seq<nat>, i: nat, b: nat, first: nat, count: nat)
    requires b < |home| && i / BLOCK < |home| && Apart(home)
    requires first == home[b] * BLOCK + first % BLOCK && first % BLOCK + count <= BLOCK
    ensures BLOCK * b + first % BLOCK <= i < BLOCK * b + first % BLOCK + count <==> first <= CellKey(home, i) < first + count
  {
    if i / BLOCK != b {
      assert home[i / BLOCK] != home[b];
    }
  }

  lemma CellSkipped(l: nat, es: seq<Entry>, j: nat, least: nat, home: seq<nat>, cells: seq<nat>)
    requires l <= 32 && j < |es| && least > 0 && !(least <= es[j].p.len <= l)
    requires CellsRight(l, es, j, least, home, cells)
    ensures CellsRight(l, es, j + 1, least, home, cells)
  {
    forall i | 0 <= i < |cells| ensures cells[i] == CellValue(l, es, j + 1, least, CellKey(home, i)) {
      var a := Address(l, CellKey(home, i));
      OverStep(32, es, j, least, l, a, Over(32, es, 0, least - 1, a, 0));
    }
  }

  // A fresh block below key, filled with the value of the cell it replaces.
  lemma BlockAdded(l: nat, es: seq<Entry>, least: nat, home: seq<nat>, cells: seq<nat>, key: nat, base: nat)
    requires 8 <= l <= 32 && least == l - 7 && CellsRight(l, es, 0, least, home, cells)
    requires base == Over(32, es, 0, l - 8, Address(l - 8, key), 0)
    ensures CellsRight(l, es, 0, least, home + [key], cells + seq(BLOCK, _ => base))
  {
    var home', cells' := home + [key], cells + seq(BLOCK, _ => base);
    assert es[..0] == [];
    forall i | 0 <= i < |cells'| ensures cells'[i] == CellValue(l, es, 0, least, CellKey(home', i)) {
      if i < |cells| {
        assert home'[i / BLOCK] == home[i / BLOCK];
      } else {
        BelowCell(l, key, i % BLOCK);
        OverTop(32, es, 0, l - 8, l - 8, Address(l, CellKey(home', i)), Address(l - 8, key), 0);
      }
    }
  }

  // The addresses of a block's cells share the bits of the cell the block replaces.
  lemma BelowCell(l: nat, key: nat, octet: nat)
    requires 8 <= l <= 32 && octet < BLOCK
    ensures Shr(Address(l, key * BLOCK + octet), 40 - l) == key
    ensures Shr(Address(l - 8, key), 40 - l) == key
  {
    var q := key * BLOCK + octet;
    SmallPowers(8);
    ShiftShift(Address(l, q), 32 - l, 8);
    DivUnique(Address(l, q), Pow2(32 - l), q);
    DivUnique(q, BLOCK, key);
    DivUnique(Address(l - 8, key), Pow2(40 - l), key);
  }

  // ---------------------------------------------------------------- which cells lead deeper

  // Something longer than l bits lies below the l-bit key q.
  ghost predicate Deeper(es: seq<Entry>, l: nat, q: nat)
    requires l <= 32
  {
    exists i :: 0 <= i < |es| && Goes(es[i].p, l, q)
  }

  predicate Goes(p: Prefix, l: nat, q: nat)
    requires l <= 32
  {
    p.len > l && Shr(p.key, 32 - l) == q
  }

  // The cell leads to the block whose home is q.
  ghost predicate Tagged(tagging: Tagging, cell: nat, home: seq<nat>, q: nat) {
    exists b :: 0 <= b < |home| && Leads(tagging, cell, home, q, b)
  }

  predicate Leads(tagging: Tagging, cell: nat, home: seq<nat>, q: nat, b: nat)
    requires b < |home|
  {
    cell == TagOf(tagging, b) && home[b] == q
  }

  lemma TaggedGrows(tagging: Tagging, cell: nat, home: seq<nat>, more: seq<nat>, q: nat)
    requires Tagged(tagging, cell, home, q)
    ensures Tagged(tagging, cell, home + more, q)
  {
    var b :| 0 <= b < |home| && Leads(tagging, cell, home, q, b);
    assert Leads(tagging, cell, home + more, q, b);
  }

  ghost predicate CellDone(l: nat, es: seq<Entry>, tagging: Tagging, q: nat, cell: nat, home: seq<nat>)
    requires l <= 32
  {
    if Deeper(es, l, q) then Tagged(tagging, cell, home, q) else cell == Over(32, es, 0, l, Address(l, q), 0)
  }

  ghost predicate RootDone(es: seq<Entry>, tagging: Tagging, root: seq<nat>, home2: seq<nat>) {
    |root| == ROOT && forall k :: 0 <= k < ROOT ==> CellDone(16, es, tagging, k, root[k], home2)
  }

  ghost predicate Level2Done(es: seq<Entry>, tagging: Tagging, home2: seq<nat>, level2: seq<nat>, home3: seq<nat>) {
    |level2| == BLOCK * |home2|
    && forall i :: 0 <= i < |level2| ==> CellDone(24, es, tagging, CellKey(home2, i), level2[i], home3)
  }

  // ---------------------------------------------------------------- the root

  // A zero-length prefix covers everything.
  lemma {:induction false} Inherited(es: seq<Entry>, a: nat, b: nat)
    requires a < Pow2(32) && b < Pow2(32) && ValidEntries(32, es)
    ensures Over(32, es, 0, 0, a, 0) == Over(32, es, 0, 0, b, 0)
  {
    LeadZero(a);
    LeadZero(b);
    OverTop(32, es, 0, 0, 0, a, b, 0);
  }

  lemma LeadZero(a: nat)
    requires a < Pow2(32)
    ensures Shr(a, 32 - 0) == 0
  {
    DivUnique(a, Pow2(32), 0);
  }

  lemma RootAddress(k: nat)
    requires k < ROOT
    ensures Address(16, k) < Pow2(32)
  {
    SmallPowers(8);
    Pow2Add(8, 8);
    Pow2Add(16, 16);
  }

  lemma ZeroCovers(p: Prefix, a: nat)
    requires Valid(32, p) && p.len == 0 && a < Pow2(32)
    ensures Covers(32, p, a)
  {
    LeadZero(a);
    LeadZero(p.key);
  }

  method InheritedValue(es: seq<Entry>) returns (inherited: nat)
    requires ValidEntries(32, es)
    ensures inherited == Over(32, es, 0, 0, 0, 0)
  {
    inherited := 0;
    for j := 0 to |es|
      invariant inherited == Over(32, es[..j], 0, 0, 0, 0)
    {
      OverStep(32, es, j, 0, 0, 0, 0);
      if es[j].p.len == 0 {
        ZeroCovers(es[j].p, 0);
        inherited := es[j].value;
      }
    }
    assert es[..|es|] == es;
  }

  ghost predicate RootPainted(es: seq<Entry>, j: nat, inherited: nat, root: seq<nat>)
    requires j <= |es|
  {
    |root| == ROOT && forall k :: 0 <= k < ROOT ==> root[k] == Over(32, es[..j], 1, 16, Address(16, k), inherited)
  }

  lemma RootStep(es: seq<Entry>, j: nat, inherited: nat, root: seq<nat>, painted: seq<nat>, start: nat, count: nat)
    requires j < |es| && ValidEntries(32, es) && RootPainted(es, j, inherited, root) && |painted| == ROOT
    requires 1 <= es[j].p.len <= 16 ==>
               && start == Shr(es[j].p.key, 16) && count == Pow2(16 - es[j].p.len)
               && forall k :: 0 <= k < ROOT ==> painted[k] == if start <= k < start + count then es[j].value else root[k]
    requires !(1 <= es[j].p.len <= 16) ==> painted == root
    ensures RootPainted(es, j + 1, inherited, painted)
  {
    forall k | 0 <= k < ROOT ensures painted[k] == Over(32, es[..j + 1], 1, 16, Address(16, k), inherited) {
      OverStep(32, es, j, 1, 16, Address(16, k), inherited);
      if 1 <= es[j].p.len <= 16 {
        CellCovers(32, 16, es[j].p, k);
        LevelSpan(32, 16, es[j].p, k);
      }
    }
  }

  lemma RootStarts(es: seq<Entry>, inherited: nat, root: seq<nat>)
    requires |root| == ROOT && forall k :: 0 <= k < ROOT ==> root[k] == inherited
    ensures RootPainted(es, 0, inherited, root)
  {
    assert es[..0] == [];
  }

  lemma RootEnds(es: seq<Entry>, inherited: nat, root: seq<nat>)
    requires ShortFirst(es) && ValidEntries(32, es) && inherited == Over(32, es, 0, 0, 0, 0)
    requires RootPainted(es, |es|, inherited, root)
    ensures |root| == ROOT && forall k :: 0 <= k < ROOT ==> root[k] == Over(32, es, 0, 16, Address(16, k), 0)
  {
    hide Over, ShortFirst, ValidEntries, Pow2;
    assert es[..|es|] == es;
    forall k | 0 <= k < ROOT ensures root[k] == Over(32, es, 0, 16, Address(16, k), 0) {
      RootEnd(es, inherited, root, k);
    }
  }

  lemma RootEnd(es: seq<Entry>, inherited: nat, root: seq<nat>, k: nat)
    requires ShortFirst(es) && ValidEntries(32, es) && inherited == Over(32, es, 0, 0, 0, 0)
    requires RootPainted(es, |es|, inherited, root) && es[..|es|] == es && k < ROOT
    ensures |root| == ROOT && root[k] == Over(32, es, 0, 16, Address(16, k), 0)
  {
    hide Over, ShortFirst, ValidEntries, Pow2;
    RootAddress(k);
    Inherited(es, Address(16, k), 0);
    OverSplit(32, es, 0, 0, 16, Address(16, k), 0);
  }

  // Paints the prefixes of up to 16 bits, every cell starting from the zero-length one.
  method PaintRoot(es: seq<Entry>) returns (root: seq<nat>)
    requires ShortFirst(es) && ValidEntries(32, es)
    ensures |root| == ROOT && forall k :: 0 <= k < ROOT ==> root[k] == Over(32, es, 0, 16, Address(16, k), 0)
  {
    hide Over, Valid, RootPainted, ShortFirst;
    var inherited := InheritedValue(es);
    root := seq(ROOT, _ => inherited);
    RootStarts(es, inherited, root);
    for j := 0 to |es|
      invariant RootPainted(es, j, inherited, root) && |root| == ROOT
    {
      var p := es[j].p;
      ghost var before := root;
      if 1 <= p.len <= 16 {
        LevelSpan(32, 16, p, 0);
        Pow2Large();
        root := PaintCells(root, Shr(p.key, 16), Pow2(16 - p.len), es[j].value);
        RootStep(es, j, inherited, before, root, Shr(p.key, 16), Pow2(16 - p.len));
      } else {
        RootStep(es, j, inherited, root, root, 0, 0);
      }
    }
    RootEnds(es, inherited, root);
  }

  // ---------------------------------------------------------------- adding and painting blocks

  // The 16-bit keys with something longer below them, and the 24-bit ones.
  method Needed(es: seq<Entry>) returns (need2: set<nat>, need3: set<nat>)
    requires ValidEntries(32, es)
    ensures forall k :: k in need2 <==> Deeper(es, 16, k)
    ensures forall q :: q in need3 <==> Deeper(es, 24, q)
    ensures forall k <- need2 :: k < ROOT
  {
    need2, need3 := {}, {};
    hide Valid, Shr;
    for j := 0 to |es|
      invariant forall k :: k in need2 <==> Deeper(es[..j], 16, k)
      invariant forall q :: q in need3 <==> Deeper(es[..j], 24, q)
      invariant forall k <- need2 :: k < ROOT
    {
      var p := es[j].p;
      DeeperStep(es, j, 16);
      DeeperStep(es, j, 24);
      if p.len > 16 {
        need2 := need2 + {Shr(p.key, 16)};
        KeyFits(p);
      }
      if p.len > 24 {
        need3 := need3 + {Shr(p.key, 8)};
      }
    }
    assert es[..|es|] == es;
  }

  lemma DeeperStep(es: seq<Entry>, j: nat, l: nat)
    requires j < |es| && l <= 32
    ensures forall q :: Deeper(es[..j + 1], l, q) <==> Deeper(es[..j], l, q) || Goes(es[j].p, l, q)
  {
    hide Goes;
    forall q ensures Deeper(es[..j + 1], l, q) <==> Deeper(es[..j], l, q) || Goes(es[j].p, l, q) {
      if Goes(es[j].p, l, q) {
        assert es[..j + 1][j] == es[j];
      }
      if i :| 0 <= i < j && Goes(es[..j][i].p, l, q) {
        assert es[..j + 1][i] == es[..j][i];
      }
    }
  }

  lemma KeyFits(p: Prefix)
    requires Valid(32, p)
    ensures Shr(p.key, 16) < ROOT
  {
    TopFits(32, 16, p.key);
    Pow2Large();
  }

  // Hangs a block below every root cell that needs one, in key order.
  method AddLevel2(es: seq<Entry>, tagging: Tagging, painted: seq<nat>, need2: set<nat>)
    returns (root: seq<nat>, level2: seq<nat>, ghost home2: seq<nat>)
    requires |painted| == ROOT && forall k :: 0 <= k < ROOT ==> painted[k] == Over(32, es, 0, 16, Address(16, k), 0)
    requires forall k :: k in need2 <==> Deeper(es, 16, k)
    ensures RootDone(es, tagging, root, home2) && CellsRight(24, es, 0, 17, home2, level2) && Apart(home2)
    ensures forall b :: 0 <= b < |home2| ==> home2[b] < ROOT
  {
    root, level2, home2 := painted, [], [];
    hide Over, Deeper, Tagged, CellsRight;
    assert CellsRight(24, es, 0, 17, [], []) by { NoCells(24, es, 17); }
    for k := 0 to ROOT
      invariant |root| == ROOT && CellsRight(24, es, 0, 17, home2, level2) && |level2| == BLOCK * |home2|
      invariant Apart(home2) && forall b :: 0 <= b < |home2| ==> home2[b] < k
      invariant forall q :: k <= q < ROOT ==> root[q] == Over(32, es, 0, 16, Address(16, q), 0)
      invariant forall q :: 0 <= q < k ==> CellDone(16, es, tagging, q, root[q], home2)
    {
      if k in need2 {
        ghost var before, cells := home2, level2;
        var block, base := |level2| / BLOCK, root[k];
        level2 := level2 + seq(BLOCK, _ => base);
        home2 := home2 + [k];
        root := root[k := TagOf(tagging, block)];
        BlockAdded(24, es, 17, before, cells, k, base);
        NewBlock(tagging, before, k);
        forall q | 0 <= q < k ensures CellDone(16, es, tagging, q, root[q], home2) {
          CellStays(16, es, tagging, q, root[q], before, k);
        }
      }
    }
  }

  lemma NoCells(l: nat, es: seq<Entry>, least: nat)
    requires l <= 32 && least > 0
    ensures CellsRight(l, es, 0, least, [], [])
  {
  }

  lemma NewBlock(tagging: Tagging, home: seq<nat>, q: nat)
    ensures Tagged(tagging, TagOf(tagging, |home|), home + [q], q)
  {
    assert Leads(tagging, TagOf(tagging, |home|), home + [q], q, |home|);
  }

  lemma CellStays(l: nat, es: seq<Entry>, tagging: Tagging, q: nat, cell: nat, home: seq<nat>, more: nat)
    requires l <= 32 && CellDone(l, es, tagging, q, cell, home)
    ensures CellDone(l, es, tagging, q, cell, home + [more])
  {
    hide Deeper, Tagged, Over;
    if Deeper(es, l, q) {
      TaggedGrows(tagging, cell, home, [more], q);
    }
  }

  // The block a tagged cell leads to.
  lemma FollowTag(tagging: Tagging, cell: nat, home: seq<nat>, q: nat) returns (b: nat)
    requires Tagged(tagging, cell, home, q)
    ensures b < |home| && home[b] == q && cell >= NEXT && BaseOf(tagging, cell) == BLOCK * b
  {
    b :| 0 <= b < |home| && Leads(tagging, cell, home, q, b);
    TagBase(tagging, b);
  }

  lemma EntryGoes(es: seq<Entry>, i: nat, l: nat)
    requires i < |es| && l <= 32 && es[i].p.len > l
    ensures Deeper(es, l, Shr(es[i].p.key, 32 - l))
  {
    assert Goes(es[i].p, l, Shr(es[i].p.key, 32 - l));
  }

  // Prefixes of 17 to 24 bits fill runs of their 16-bit block.
  method PaintLevel2(es: seq<Entry>, tagging: Tagging, root: seq<nat>, cells: seq<nat>, ghost home2: seq<nat>)
    returns (level2: seq<nat>)
    requires ValidEntries(32, es) && RootDone(es, tagging, root, home2) && CellsRight(24, es, 0, 17, home2, cells)
    requires Apart(home2)
    ensures CellsRight(24, es, |es|, 17, home2, level2)
  {
    level2 := cells;
    hide Over, Deeper, Tagged, CellsRight, Shr, Valid, Apart, Pow2;
    for j := 0 to |es|
      invariant CellsRight(24, es, j, 17, home2, level2)
    {
      var p := es[j].p;
      if p.len <= 16 || p.len > 24 {
        CellSkipped(24, es, j, 17, home2, level2);
      } else {
        KeyFits(p);
        EntryGoes(es, j, 16);
        assert CellDone(16, es, tagging, Shr(p.key, 16), root[Shr(p.key, 16)], home2);
        ghost var b := FollowTag(tagging, root[Shr(p.key, 16)], home2, Shr(p.key, 16));
        level2 := PaintBlock(24, es, j, home2, level2, b, BaseOf(tagging, root[Shr(p.key, 16)]));
      }
    }
  }

  method PaintBlock(l: nat, es: seq<Entry>, j: nat, ghost home: seq<nat>, cells: seq<nat>, ghost b: nat, base: nat)
    returns (painted: seq<nat>)
    requires (l == 24 || l == 32) && j < |es| && l - 7 <= es[j].p.len <= l && ValidEntries(32, es)
    requires CellsRight(l, es, j, l - 7, home, cells) && Apart(home)
    requires b < |home| && home[b] == Shr(es[j].p.key, 40 - l) && base == BLOCK * b
    ensures CellsRight(l, es, j + 1, l - 7, home, painted)
  {
    var p := es[j].p;
    RunInBlock(l, p);
    BlockInCells(l, es, j, home, cells, b);
    var start, count := base + Shr(p.key, 32 - l) % BLOCK, Pow2(l - p.len);
    hide Shr, Pow2, CellsRight, Valid, Apart;
    painted := PaintCells(cells, start, count, es[j].value);
    CellPainted(l, es, j, l - 7, home, cells, b, start, count, painted);
  }

  lemma BlockInCells(l: nat, es: seq<Entry>, j: nat, home: seq<nat>, cells: seq<nat>, b: nat)
    requires 8 <= l <= 32 && j <= |es| && CellsRight(l, es, j, l - 7, home, cells) && b < |home|
    ensures BLOCK * b + BLOCK <= |cells|
  {
  }

  // Once all are painted the shorter and the longer entries together decide a cell.
  lemma CellsFinal(l: nat, es: seq<Entry>, home: seq<nat>, cells: seq<nat>, i: nat)
    requires 8 <= l <= 32 && ShortFirst(es) && CellsRight(l, es, |es|, l - 7, home, cells) && i < |cells|
    ensures cells[i] == Over(32, es, 0, l, Address(l, CellKey(home, i)), 0)
  {
    assert es[..|es|] == es;
    OverSplit(32, es, 0, l - 8, l, Address(l, CellKey(home, i)), 0);
  }

  lemma NothingApart()
    ensures Apart([])
  {
  }

  // Hangs a block below every 24-bit cell that needs one, in any order.  dirlpm refuses a first
  // cell that would reach the tag bit.
  method AddLevel3(es: seq<Entry>, tagging: Tagging, root: seq<nat>, painted: seq<nat>, ghost home2: seq<nat>,
                   need3: set<nat>)
    returns (level2: seq<nat>, level3: seq<nat>, ghost home3: seq<nat>, tooLarge: bool)
    requires ValidEntries(32, es) && ShortFirst(es) && RootDone(es, tagging, root, home2) && Apart(home2)
    requires CellsRight(24, es, |es|, 17, home2, painted) && forall q :: q in need3 <==> Deeper(es, 24, q)
    ensures tooLarge ==> tagging.Scaled? && BLOCK * |need3| > NEXT
    ensures !tooLarge ==> Level2Done(es, tagging, home2, level2, home3) && CellsRight(32, es, 0, 25, home3, level3)
    ensures !tooLarge ==> Apart(home3)
  {
    hide Over, Deeper, Tagged, CellsRight, Shr, Valid, Apart, Pow2, Pending, ValidEntries, ShortFirst;
    level2, level3, home3, tooLarge := painted, [], [], false;
    var order := Elements(need3);
    NoRepeats(order, need3);
    ghost var done: set<nat> := {};
    NoCells(32, es, 25);
    NothingApart();
    NothingDone(es, tagging, home2, painted);
    for n := 0 to |order|
      invariant Pending(es, tagging, home2, level2, home3, done) && CellsRight(32, es, 0, 25, home3, level3)
      invariant |level3| == BLOCK * |home3| && |home3| == n && Apart(home3)
      invariant forall q :: q in done <==> q in order[..n]
      invariant forall b :: 0 <= b < |home3| ==> home3[b] == order[b]
    {
      var key24 := order[n];
      if tagging.Scaled? && |level3| >= NEXT {
        SetSize(order, need3);
        return level2, level3, home3, true;
      }
      ghost var i := Slot3(es, tagging, root, home2, key24);
      var slot2 := BaseOf(tagging, root[key24 / BLOCK]) + key24 % BLOCK;
      ghost var before, cells, c2 := home3, level3, level2;
      PendingCell(es, tagging, home2, level2, home3, done, i, key24);
      var block, base := |level3| / BLOCK, level2[slot2];
      level3 := level3 + seq(BLOCK, _ => base);
      level2 := level2[slot2 := TagOf(tagging, block)];
      home3 := home3 + [key24];
      BlockAdded(32, es, 25, before, cells, key24, base);
      StillApart(before, order, n);
      PendingStep(es, tagging, home2, c2, before, done, i, key24, block);
      done := done + {key24};
    }
    AllHung(es, tagging, home2, level2, home3, done, need3);
  }

  lemma SetSize(order: seq<nat>, need: set<nat>)
    requires multiset(order) == multiset(need)
    ensures |order| == |need|
  {
    assert |multiset(order)| == |multiset(need)|;
  }

  lemma StillApart(home: seq<nat>, order: seq<nat>, n: nat)
    requires n < |order| && |home| == n && Apart(home) && (forall b :: 0 <= b < n ==> home[b] == order[b])
    requires forall i, j :: 0 <= i < j < |order| ==> order[i] != order[j]
    ensures Apart(home + [order[n]])
  {
  }

  // Level-2 cells while their blocks are being hung: the keys in done have theirs.
  ghost predicate Pending(es: seq<Entry>, tagging: Tagging, home2: seq<nat>, level2: seq<nat>, home3: seq<nat>, done: set<nat>) {
    |level2| == BLOCK * |home2|
    && forall i :: 0 <= i < |level2| ==> PendingOk(es, tagging, CellKey(home2, i), level2[i], home3, done)
  }

  ghost predicate PendingOk(es: seq<Entry>, tagging: Tagging, q: nat, cell: nat, home3: seq<nat>, done: set<nat>) {
    if q in done then Tagged(tagging, cell, home3, q) else cell == Over(32, es, 0, 24, Address(24, q), 0)
  }

  lemma NothingDone(es: seq<Entry>, tagging: Tagging, home2: seq<nat>, cells: seq<nat>)
    requires ShortFirst(es) && CellsRight(24, es, |es|, 17, home2, cells)
    ensures Pending(es, tagging, home2, cells, [], {})
  {
    forall i | 0 <= i < |cells| ensures PendingOk(es, tagging, CellKey(home2, i), cells[i], [], {}) {
      CellsFinal(24, es, home2, cells, i);
    }
  }

  // Where a needed 24-bit key's cell is.
  lemma Slot3(es: seq<Entry>, tagging: Tagging, root: seq<nat>, home2: seq<nat>, q: nat) returns (i: nat)
    requires ValidEntries(32, es) && RootDone(es, tagging, root, home2) && Deeper(es, 24, q)
    ensures q / BLOCK < ROOT && root[q / BLOCK] >= NEXT && i == BaseOf(tagging, root[q / BLOCK]) + q % BLOCK
    ensures i / BLOCK < |home2| && CellKey(home2, i) == q
  {
    var e :| 0 <= e < |es| && Goes(es[e].p, 24, q);
    KeyFits(es[e].p);
    EntryGoes(es, e, 16);
    HighOctets(es[e].p.key);
    hide Shr, Over, Deeper, Tagged, Valid, CellKey;
    assert CellDone(16, es, tagging, q / BLOCK, root[q / BLOCK], home2);
    var b := FollowTag(tagging, root[q / BLOCK], home2, q / BLOCK);
    i := BLOCK * b + q % BLOCK;
    BlockCell(home2, b, q);
  }

  lemma BlockCell(home: seq<nat>, b: nat, q: nat)
    requires b < |home| && home[b] == q / BLOCK
    ensures (BLOCK * b + q % BLOCK) / BLOCK == b && CellKey(home, BLOCK * b + q % BLOCK) == q
  {
  }

  lemma PendingCell(es: seq<Entry>, tagging: Tagging, home2: seq<nat>, level2: seq<nat>, home3: seq<nat>, done: set<nat>,
                    i: nat, q: nat)
    requires Pending(es, tagging, home2, level2, home3, done) && i / BLOCK < |home2| && CellKey(home2, i) == q && q !in done
    ensures i < |level2| && level2[i] == Over(32, es, 0, 24, Address(24, q), 0)
  {
    hide Over, Tagged;
    assert i < |level2|;
    assert PendingOk(es, tagging, CellKey(home2, i), level2[i], home3, done);
  }

  lemma PendingStep(es: seq<Entry>, tagging: Tagging, home2: seq<nat>, level2: seq<nat>, home3: seq<nat>, done: set<nat>,
                    i: nat, q: nat, block: nat)
    requires Pending(es, tagging, home2, level2, home3, done) && i < |level2| && i / BLOCK < |home2| && CellKey(home2, i) == q
    requires Apart(home2) && block == |home3|
    ensures Pending(es, tagging, home2, level2[i := TagOf(tagging, block)], home3 + [q], done + {q})
  {
    hide Over, Tagged;
    var level2' := level2[i := TagOf(tagging, block)];
    forall c | 0 <= c < |level2'| ensures PendingOk(es, tagging, CellKey(home2, c), level2'[c], home3 + [q], done + {q}) {
      assert PendingOk(es, tagging, CellKey(home2, c), level2[c], home3, done);
      if c == i {
        NewBlock(tagging, home3, q);
      } else {
        DifferentKeys(home2, c, i);
        if CellKey(home2, c) in done {
          TaggedGrows(tagging, level2[c], home3, [q], CellKey(home2, c));
        }
      }
    }
  }

  lemma DifferentKeys(home: seq<nat>, c: nat, i: nat)
    requires Apart(home) && c / BLOCK < |home| && i / BLOCK < |home| && c != i
    ensures CellKey(home, c) != CellKey(home, i)
  {
    if c / BLOCK != i / BLOCK {
      assert home[c / BLOCK] != home[i / BLOCK];
    }
  }

  lemma AllHung(es: seq<Entry>, tagging: Tagging, home2: seq<nat>, level2: seq<nat>, home3: seq<nat>, done: set<nat>, need3: set<nat>)
    requires Pending(es, tagging, home2, level2, home3, done) && (forall q :: q in need3 <==> Deeper(es, 24, q))
    requires forall q :: q in done <==> q in need3
    ensures Level2Done(es, tagging, home2, level2, home3)
  {
    hide Over, Tagged, Deeper;
    forall i | 0 <= i < |level2| ensures CellDone(24, es, tagging, CellKey(home2, i), level2[i], home3) {
      assert PendingOk(es, tagging, CellKey(home2, i), level2[i], home3, done);
    }
  }

  // Prefixes longer than 24 bits fill runs of their 24-bit block.
  method PaintLevel3(es: seq<Entry>, tagging: Tagging, root: seq<nat>, level2: seq<nat>, cells: seq<nat>,
                     ghost home2: seq<nat>, ghost home3: seq<nat>) returns (level3: seq<nat>)
    requires ValidEntries(32, es) && RootDone(es, tagging, root, home2) && Level2Done(es, tagging, home2, level2, home3)
    requires CellsRight(32, es, 0, 25, home3, cells) && Apart(home3)
    ensures CellsRight(32, es, |es|, 25, home3, level3)
  {
    level3 := cells;
    hide Over, Deeper, Tagged, CellsRight, Shr, Valid, Apart, Pow2;
    for j := 0 to |es|
      invariant CellsRight(32, es, j, 25, home3, level3)
    {
      var p := es[j].p;
      EntryFits(es, j);
      if p.len <= 24 {
        CellSkipped(32, es, j, 25, home3, level3);
      } else {
        EntryGoes(es, j, 24);
        ghost var i := Slot3(es, tagging, root, home2, Shr(p.key, 8));
        assert CellDone(24, es, tagging, CellKey(home2, i), level2[i], home3);
        HighOctets(p.key);
        var entry2 := level2[BaseOf(tagging, root[Shr(p.key, 16)]) + Shr(p.key, 8) % BLOCK];
        ghost var b := FollowTag(tagging, entry2, home3, Shr(p.key, 8));
        level3 := PaintBlock(32, es, j, home3, level3, b, BaseOf(tagging, entry2));
      }
    }
  }

  lemma EntryFits(es: seq<Entry>, j: nat)
    requires ValidEntries(32, es) && j < |es|
    ensures es[j].p.len <= 32
  {
  }

  lemma HighOctets(key: nat)
    ensures Shr(key, 8) / BLOCK == Shr(key, 16)
  {
    ShiftShift(key, 8, 8);
    SmallPowers(8);
  }

  // ---------------------------------------------------------------- compiling and looking up

  ghost predicate TableRight(es: seq<Entry>, t: Table4, home2: seq<nat>, home3: seq<nat>) {
    && RootDone(es, t.tagging, t.root, home2) && Level2Done(es, t.tagging, home2, t.level2, home3)
    && |t.level3| == BLOCK * |home3|
    && forall i :: 0 <= i < |t.level3| ==> t.level3[i] == Over(32, es, 0, 32, Address(32, CellKey(home3, i)), 0)
  }

  // The table of a shortest-first list; only dirlpm's can outgrow its cells, and only when 2^23 or
  // more 24-bit keys lead deeper.
  method Compile4(es: seq<Entry>, tagging: Tagging)
    returns (t: Table4, tooLarge: bool, ghost home2: seq<nat>, ghost home3: seq<nat>, ghost need3: set<nat>)
    requires ShortFirst(es) && ValidEntries(32, es)
    ensures t.tagging == tagging && (!tooLarge ==> TableRight(es, t, home2, home3))
    ensures tooLarge ==> tagging.Scaled? && BLOCK * |need3| > NEXT
    ensures forall q :: q in need3 <==> Deeper(es, 24, q)
  {
    hide Over, Deeper, CellsRight, Valid, ShortFirst, ValidEntries, RootDone, Level2Done, Apart;
    var need2, deep := Needed(es);
    need3 := deep;
    var root := PaintRoot(es);
    var level2, level3;
    root, level2, home2 := AddLevel2(es, tagging, root, need2);
    level2 := PaintLevel2(es, tagging, root, level2, home2);
    level2, level3, home3, tooLarge := AddLevel3(es, tagging, root, level2, home2, deep);
    if tooLarge {
      return Table4([], [], [], tagging), true, home2, home3, need3;
    }
    level3 := PaintLevel3(es, tagging, root, level2, level3, home2, home3);
    t := Table4(root, level2, level3, tagging);
    Level3Final(es, home3, level3);
  }

  lemma Level3Final(es: seq<Entry>, home3: seq<nat>, level3: seq<nat>)
    requires ShortFirst(es) && CellsRight(32, es, |es|, 25, home3, level3)
    ensures |level3| == BLOCK * |home3|
    ensures forall i :: 0 <= i < |level3| ==> level3[i] == Over(32, es, 0, 32, Address(32, CellKey(home3, i)), 0)
  {
    forall i | 0 <= i < |level3| ensures level3[i] == Over(32, es, 0, 32, Address(32, CellKey(home3, i)), 0) {
      CellsFinal(32, es, home3, level3, i);
    }
  }

  ghost predicate Small(es: seq<Entry>) {
    forall i :: 0 <= i < |es| ==> es[i].value < NEXT
  }

  lemma {:induction false} OverSmall(es: seq<Entry>, least: nat, most: nat, a: nat)
    requires Small(es)
    ensures Over(32, es, least, most, a, 0) < NEXT
  {
    if |es| > 0 {
      OverSmall(es[..|es| - 1], least, most, a);
    }
  }

  // With nothing longer below its top bits, an address is decided by the shorter entries.
  lemma NoDeeper(es: seq<Entry>, l: nat, a: nat)
    requires ShortFirst(es) && ValidEntries(32, es) && l <= 32 && !Deeper(es, l, Shr(a, 32 - l))
    ensures Over(32, es, 0, l, Address(l, Shr(a, 32 - l)), 0) == Over(32, es, 0, 32, a, 0)
  {
    var q := Shr(a, 32 - l);
    DivUnique(Address(l, q), Pow2(32 - l), q);
    OverTop(32, es, 0, l, l, Address(l, q), a, 0);
    OverSplit(32, es, 0, l, 32, a, 0);
    forall i | 0 <= i < |es| && es[i].p.len > l ensures !Covers(32, es[i].p, a) {
      if Covers(32, es[i].p, a) {
        LongGoes(es[i].p, l, a);
      }
    }
    OverMissing(es, l + 1, a, Over(32, es, 0, l, a, 0));
  }

  // A longer prefix covering an address shares its top bits.
  lemma LongGoes(p: Prefix, l: nat, a: nat)
    requires l < p.len <= 32 && Covers(32, p, a)
    ensures Goes(p, l, Shr(a, 32 - l))
  {
    ShiftShift(a, 32 - p.len, p.len - l);
    ShiftShift(p.key, 32 - p.len, p.len - l);
    assert 32 - p.len + (p.len - l) == 32 - l;
  }

  lemma {:induction false} OverMissing(es: seq<Entry>, least: nat, a: nat, below: nat)
    requires forall i :: 0 <= i < |es| && es[i].p.len >= least ==> !Covers(32, es[i].p, a)
    ensures Over(32, es, least, 32, a, below) == below
  {
    if |es| > 0 {
      OverMissing(es[..|es| - 1], least, a, below);
    }
  }

  // Follows the tags from the root cell down to a value.
  method Lookup4(t: Table4, key: nat, ghost es: seq<Entry>, ghost home2: seq<nat>, ghost home3: seq<nat>) returns (cell: nat)
    requires ShortFirst(es) && ValidEntries(32, es) && Small(es) && TableRight(es, t, home2, home3) && key < Pow2(32)
    ensures cell == Over(32, es, 0, 32, key, 0)
  {
    var k := Shr(key, 16);
    TopFits(32, 16, key);
    Pow2Large();
    HighOctets(key);
    hide Over, Deeper, Tagged, Shr, Small, ShortFirst, ValidEntries, Pow2, CellKey;
    cell := t.root[k];
    assert CellDone(16, es, t.tagging, k, cell, home2);
    if cell < NEXT {
      NotTagged(es, 16, t.tagging, k, cell, home2);
      NoDeeper(es, 16, key);
      return;
    }
    ghost var b2 := Descends(es, 16, t.tagging, k, cell, home2);
    var slot := BaseOf(t.tagging, cell) + Shr(key, 8) % BLOCK;
    BlockCell(home2, b2, Shr(key, 8));
    cell := t.level2[slot];
    assert CellDone(24, es, t.tagging, Shr(key, 8), cell, home3);
    if cell < NEXT {
      NotTagged(es, 24, t.tagging, Shr(key, 8), cell, home3);
      NoDeeper(es, 24, key);
      return;
    }
    ghost var b3 := Descends(es, 24, t.tagging, Shr(key, 8), cell, home3);
    LowOctet(key);
    slot := BaseOf(t.tagging, cell) + key % BLOCK;
    BlockCell(home3, b3, key);
    assert Address(32, key) == key;
    cell := t.level3[slot];
  }

  lemma LowOctet(key: nat)
    ensures key / BLOCK == Shr(key, 8) && Pow2(0) == 1
  {
    SmallPowers(8);
  }

  lemma NotTagged(es: seq<Entry>, l: nat, tagging: Tagging, q: nat, cell: nat, home: seq<nat>)
    requires l <= 32 && CellDone(l, es, tagging, q, cell, home) && cell < NEXT
    ensures !Deeper(es, l, q) && cell == Over(32, es, 0, l, Address(l, q), 0)
  {
    hide Over, Deeper;
    if Tagged(tagging, cell, home, q) {
      var b := FollowTag(tagging, cell, home, q);
    }
  }

  lemma Descends(es: seq<Entry>, l: nat, tagging: Tagging, q: nat, cell: nat, home: seq<nat>) returns (b: nat)
    requires l <= 32 && CellDone(l, es, tagging, q, cell, home) && cell >= NEXT && Small(es)
    ensures b < |home| && home[b] == q && BaseOf(tagging, cell) == BLOCK * b
  {
    hide Over, Deeper, Small;
    OverSmall(es, 0, l, Address(l, q));
    b := FollowTag(tagging, cell, home, q);
  }

  // The value a lookup returns is the table's answer.
  lemma Lookup4Answers(es: seq<Entry>, m: map<Prefix, nat>, key: nat)
    requires ShortFirst(es) && ValidEntries(32, es) && Lists(es, m)
    ensures Answers(32, m, key, Over(32, es, 0, 32, key, 0))
  {
    OverIsAnswer(32, es, m, key);
  }
}
