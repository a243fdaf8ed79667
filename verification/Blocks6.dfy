// blocklpm's IPv6 table: a throwaway trie of 8-bit strides, filled shortest first, flattened into a
// 16-bit root over blocks of 256 cells with every inherited value pushed down to the leaves.
module Blocks6 {
  import opened Bits
  import opened Options
  import opened Prefixes
  import opened Words
  import opened Octets
  import opened Sorting
  import opened Painting
  import opened Blocks4

  const STRIDES := 16

  datatype Node = Node(child: map<nat, Node>, value: nat)

  const EMPTY := Node(map[], 0)

  function Kid(n: Node, o: nat): Node {
    if o in n.child then n.child[o] else EMPTY
  }

  // ---------------------------------------------------------------- the build trie

  // The value an address reaches from a node, inheriting the nearest one above it.
  function Follow(n: Node, a: seq<nat>, stride: nat, inherited: nat): nat
    requires stride <= |a|
    decreases |a| - stride
  {
    var value := if n.value != 0 then n.value else inherited;
    if stride < |a| && a[stride] in n.child then Follow(n.child[a[stride]], a, stride + 1, value) else value
  }

  // At most d strides lie below a node.
  ghost predicate Shallow(n: Node, d: nat) {
    if d == 0 then n.child == map[] else forall o <- n.child :: o < 256 && Shallow(n.child[o], d - 1)
  }

  lemma {:induction false} ShallowDeeper(n: Node, d: nat, e: nat)
    requires Shallow(n, d) && d <= e
    ensures Shallow(n, e)
    decreases d
  {
    if d > 0 {
      forall o <- n.child ensures Shallow(n.child[o], e - 1) {
        ShallowDeeper(n.child[o], d - 1, e - 1);
      }
    }
  }

  // The octets a partial last octet expands to.
  predicate InSpan(o: nat, octet: nat, rest: nat)
    requires rest <= 8
  {
    var count := StridePow(8 - rest);
    octet - octet % count <= o < octet - octet % count + count
  }

  lemma SpanIsIdx(o: nat, octet: nat, rest: nat)
    requires o < 256 && octet < 256 && 1 <= rest <= 8
    ensures InSpan(o, octet, rest) <==> PfxToIdx(o, rest) == PfxToIdx(octet, rest)
  {
  }

  // Writes the value on every child a partial octet covers.
  function Expand(child: map<nat, Node>, octet: nat, rest: nat, value: nat): (r: map<nat, Node>)
    requires octet < 256 && rest <= 8
    ensures forall o :: o in r <==> o in child || (o < 256 && InSpan(o, octet, rest))
    ensures forall o <- r :: r[o] == if o < 256 && InSpan(o, octet, rest) then Kid(Node(child, 0), o).(value := value)
                                     else child[o]
  {
    map o | o in child.Keys + (set i: nat | i < 256 && InSpan(i, octet, rest)) ::
      if o < 256 && InSpan(o, octet, rest) then Kid(Node(child, 0), o).(value := value) else child[o]
  }

  // Walks or creates the full strides, then writes the value at the node or over its children.
  function Insert(n: Node, key: seq<nat>, len: nat, value: nat, stride: nat): Node
    requires IsKey(key) && len <= 8 * |key| && stride <= len / 8
    decreases len / 8 - stride
  {
    if stride < len / 8 then
      n.(child := n.child[key[stride] := Insert(Kid(n, key[stride]), key, len, value, stride + 1)])
    else if len % 8 == 0 then n.(value := value)
    else n.(child := Expand(n.child, key[stride], len % 8, value))
  }

  // The strides a length takes.
  function Strided(len: nat): nat {
    (len + 7) / 8
  }

  // From this stride on the key and the address agree on the prefix's bits.
  ghost predicate Agree(key: seq<nat>, len: nat, a: seq<nat>, stride: nat)
    requires IsKey(key) && IsKey(a) && |key| == |a| && len <= 8 * |key| && stride <= len / 8
  {
    && (forall i :: stride <= i < len / 8 ==> key[i] == a[i])
    && (len % 8 == 0 || PfxToIdx(key[len / 8], len % 8) == PfxToIdx(a[len / 8], len % 8))
  }

  // A prefix at least as long as everything inserted takes over exactly the addresses it covers.
  lemma {:induction false} InsertFollows(n: Node, key: seq<nat>, len: nat, value: nat, stride: nat, a: seq<nat>, inherited: nat)
    requires IsKey(key) && IsKey(a) && |key| == |a| && len <= 8 * |key| && stride <= len / 8 && value > 0
    requires Shallow(n, Strided(len) - stride)
    ensures Shallow(Insert(n, key, len, value, stride), Strided(len) - stride)
    ensures Follow(Insert(n, key, len, value, stride), a, stride, inherited) ==
              if Agree(key, len, a, stride) then value else Follow(n, a, stride, inherited)
    decreases len / 8 - stride
  {
    if stride < len / 8 {
      var kid := Kid(n, key[stride]);
      var below := if n.value != 0 then n.value else inherited;
      EmptyShallow(Strided(len) - stride - 1);
      InsertFollows(kid, key, len, value, stride + 1, a, below);
      NextStride(key, len, a, stride);
    } else if len % 8 != 0 {
      ExpandFollows(n, key[stride], len % 8, value, a, stride, inherited);
    }
  }

  lemma EmptyShallow(d: nat)
    ensures Shallow(EMPTY, d)
  {
  }

  lemma NextStride(key: seq<nat>, len: nat, a: seq<nat>, stride: nat)
    requires IsKey(key) && IsKey(a) && |key| == |a| && len <= 8 * |key| && stride < len / 8
    ensures Agree(key, len, a, stride) <==> key[stride] == a[stride] && Agree(key, len, a, stride + 1)
  {
  }

  lemma ExpandFollows(n: Node, octet: nat, rest: nat, value: nat, a: seq<nat>, stride: nat, inherited: nat)
    requires octet < 256 && 1 <= rest < 8 && IsKey(a) && stride < |a| && value > 0 && Shallow(n, 1)
    ensures Shallow(n.(child := Expand(n.child, octet, rest, value)), 1)
    ensures Follow(n.(child := Expand(n.child, octet, rest, value)), a, stride, inherited) ==
              if PfxToIdx(octet, rest) == PfxToIdx(a[stride], rest) then value else Follow(n, a, stride, inherited)
  {
    var r := Expand(n.child, octet, rest, value);
    SpanIsIdx(a[stride], octet, rest);
    hide InSpan, PfxToIdx;
    forall o <- r ensures Shallow(r[o], 0) {
      if o in n.child { assert Shallow(n.child[o], 0); }
    }
  }

  // Agreement from the first stride on is coverage.
  lemma AgreeIsCovers(p: Prefix, a: nat)
    requires Valid(128, p) && a < Pow2(128)
    ensures Agree(KeyOctets(16, p.key), p.len, KeyOctets(16, a), 0) <==> Covers(128, p, a)
  {
    PosCoversIsCovers(Floor, 16, p, a);
    var k, x, full := KeyOctets(16, p.key), KeyOctets(16, a), p.len / 8;
    assert k[..full] <= x <==> forall i :: 0 <= i < full ==> k[i] == x[i];
    if p.len % 8 != 0 {
      IdxLenOfPfx(k[full], p.len % 8);
    }
  }

  ghost predicate SmallValues(n: Node, d: nat)
    decreases d
  {
    n.value < NEXT && (d > 0 ==> forall o <- n.child :: SmallValues(n.child[o], d - 1))
  }

  lemma {:induction false} InsertSmall(n: Node, key: seq<nat>, len: nat, value: nat, stride: nat, d: nat)
    requires IsKey(key) && len <= 8 * |key| && stride <= len / 8 && value < NEXT && SmallValues(n, d)
    ensures SmallValues(Insert(n, key, len, value, stride), d)
    decreases len / 8 - stride
  {
    hide InSpan;
    if d > 0 && stride < len / 8 {
      assert SmallValues(EMPTY, d - 1);
      InsertSmall(Kid(n, key[stride]), key, len, value, stride + 1, d - 1);
    } else if d > 0 && len % 8 != 0 {
      var r := Expand(n.child, key[stride], len % 8, value);
      forall o <- r ensures SmallValues(r[o], d - 1) {
        assert SmallValues(EMPTY.(value := value), d - 1);
        if o in n.child { assert SmallValues(n.child[o], d - 1); }
      }
    }
  }

  // ---------------------------------------------------------------- how many blocks a trie needs

  // The strides the lookups find in blocks, and the most blocks a route can need.
  const DEEP := 14

  // The blocks for a node with d strides below it: one for each node from the third stride on that
  // has children.
  ghost function Needs(n: Node, d: nat): nat
    decreases d, 0
  {
    if d == 0 || n.child == map[] then 0
    else (if d <= DEEP then 1 else 0) + NeedsOf(n, d - 1, n.child.Keys, BLOCK)
  }

  // The blocks for the children in s among the first k octets.
  ghost function NeedsOf(n: Node, d: nat, s: set<nat>, k: nat): nat
    decreases d, k + 1
  {
    if k == 0 then 0
    else NeedsOf(n, d, s, k - 1) + if k - 1 in s then Needs(Kid(n, k - 1), d) else 0
  }

  lemma {:induction false} NeedsAdded(n: Node, d: nat, s: set<nat>, o: nat, k: nat)
    requires o !in s
    ensures NeedsOf(n, d, s + {o}, k) == NeedsOf(n, d, s, k) + if o < k then Needs(Kid(n, o), d) else 0
  {
    if k > 0 {
      NeedsAdded(n, d, s, o, k - 1);
    }
  }

  // Only a child that stands for octet o has changed, and by at most extra blocks.
  lemma {:induction false} NeedsChanged(n: Node, r: Node, d: nat, s: set<nat>, t: set<nat>, o: nat, extra: nat, k: nat)
    requires forall q :: q != o && q in t ==> Needs(Kid(r, q), d) <= if q in s then Needs(Kid(n, q), d) else 0
    requires o in t ==> Needs(Kid(r, o), d) <= (if o in s then Needs(Kid(n, o), d) else 0) + extra
    ensures NeedsOf(r, d, t, k) <= NeedsOf(n, d, s, k) + if o < k then extra else 0
  {
    hide Needs, Kid;
    if k > 0 {
      NeedsChanged(n, r, d, s, t, o, extra, k - 1);
    }
  }

  lemma ValueNeedsNone(n: Node, value: nat, d: nat)
    ensures Needs(n.(value := value), d) == Needs(n, d)
  {
    if d > 0 && n.child != map[] {
      SameKids(n, n.(value := value), d - 1, n.child.Keys, BLOCK);
    }
  }

  lemma {:induction false} SameKids(n: Node, r: Node, d: nat, s: set<nat>, k: nat)
    requires n.child == r.child
    ensures NeedsOf(n, d, s, k) == NeedsOf(r, d, s, k)
  {
    if k > 0 {
      SameKids(n, r, d, s, k - 1);
    }
  }

  // An insertion needs at most one more block a stride.
  lemma {:induction false} InsertNeeds(n: Node, key: seq<nat>, len: nat, value: nat, stride: nat, d: nat)
    requires IsKey(key) && len <= 8 * |key| && stride <= len / 8
    ensures Needs(Insert(n, key, len, value, stride), d) <= Needs(n, d) + if d <= DEEP then d else DEEP
    decreases d
  {
    if d == 0 {
    } else if stride < len / 8 {
      var o := key[stride];
      InsertNeeds(Kid(n, o), key, len, value, stride + 1, d - 1);
      InsertKid(n, o, Insert(Kid(n, o), key, len, value, stride + 1), d - 1,
                if d - 1 <= DEEP then d - 1 else DEEP);
    } else if len % 8 == 0 {
      ValueNeedsNone(n, value, d);
    } else {
      ExpandNeeds(n, key[stride], len % 8, value, d - 1);
    }
  }

  lemma InsertKid(n: Node, o: nat, kid: Node, d: nat, extra: nat)
    requires Needs(kid, d) <= Needs(Kid(n, o), d) + extra
    ensures NeedsOf(n.(child := n.child[o := kid]), d, n.child.Keys + {o}, BLOCK) <=
              NeedsOf(n, d, n.child.Keys, BLOCK) + extra
    ensures n.child[o := kid].Keys == n.child.Keys + {o}
    ensures n.child == map[] ==> NeedsOf(n, d, n.child.Keys, BLOCK) == 0
  {
    var r := n.(child := n.child[o := kid]);
    assert Needs(EMPTY, d) == 0;
    hide Needs;
    NeedsChanged(n, r, d, n.child.Keys, n.child.Keys + {o}, o, extra, BLOCK);
    NeedsNone(n, d, BLOCK);
    assert n.child == map[] ==> n.child.Keys == {};
  }

  lemma {:induction false} NeedsNone(n: Node, d: nat, k: nat)
    ensures NeedsOf(n, d, {}, k) == 0
  {
    if k > 0 {
      NeedsNone(n, d, k - 1);
    }
  }

  lemma ExpandNeeds(n: Node, octet: nat, rest: nat, value: nat, d: nat)
    requires octet < 256 && rest <= 8
    ensures NeedsOf(n.(child := Expand(n.child, octet, rest, value)), d, Expand(n.child, octet, rest, value).Keys, BLOCK) <=
              NeedsOf(n, d, n.child.Keys, BLOCK)
    ensures n.child == map[] ==> NeedsOf(n, d, n.child.Keys, BLOCK) == 0
  {
    var child := Expand(n.child, octet, rest, value);
    var r := n.(child := child);
    assert Needs(EMPTY, d) == 0;
    hide Needs, InSpan;
    forall q | q in child ensures Needs(Kid(r, q), d) <= if q in n.child then Needs(Kid(n, q), d) else 0 {
      ValueNeedsNone(Kid(n, q), value, d);
      assert Kid(r, q) == child[q] && (q !in n.child ==> Kid(n, q) == EMPTY);
      assert child[q] == Kid(n, q).(value := value) || child[q] == Kid(n, q);
    }
    NeedsChanged(n, r, d, n.child.Keys, child.Keys, BLOCK, 0, BLOCK);
    NeedsNone(n, d, BLOCK);
    assert n.child == map[] ==> n.child.Keys == {};
  }

  // The trie holds the painted value of every address.
  ghost predicate Painted(root: Node, es: seq<Entry>, j: nat)
    requires j <= |es|
  {
    forall a: nat | a < Pow2(128) :: Follow(root, KeyOctets(16, a), 0, 0) == Over(128, es[..j], 0, 128, a, 0)
  }

  method BuildTrie(es: seq<Entry>) returns (root: Node)
    requires ShortFirst(es) && ValidEntries(128, es)
    ensures Painted(root, es, |es|) && Shallow(root, 16)
    ensures Small(es) ==> SmallValues(root, 16)
    ensures Needs(root, 16) <= DEEP * |es|
  {
    root := EMPTY;
    EmptyShallow(0);
    ghost var depth: nat := 0;
    assert Painted(root, es, 0);
    assert SmallValues(EMPTY, 16);
    hide Painted, Shallow, Valid, KeyOctets, Pow2, SmallValues, Insert, Needs;
    for j := 0 to |es|
      invariant Painted(root, es, j) && Shallow(root, depth) && depth <= 16
      invariant forall i :: j <= i < |es| ==> depth <= Strided(es[i].p.len)
      invariant Small(es) ==> SmallValues(root, 16)
      invariant Needs(root, 16) <= DEEP * j
    {
      var e := es[j];
      EntryLen(es, j);
      ShallowDeeper(root, depth, Strided(e.p.len));
      InsertStep(root, es, j);
      InsertNeeds(root, KeyOctets(16, e.p.key), e.p.len, e.value, 0, 16);
      if e.value < NEXT && SmallValues(root, 16) {
        InsertSmall(root, KeyOctets(16, e.p.key), e.p.len, e.value, 0, 16);
      }
      root := Insert(root, KeyOctets(16, e.p.key), e.p.len, e.value, 0);
      depth := Strided(e.p.len);
    }
    ShallowDeeper(root, depth, 16);
  }

  lemma EntryLen(es: seq<Entry>, j: nat)
    requires ValidEntries(128, es) && j < |es|
    ensures es[j].p.len <= 128 && es[j].value > 0 && Valid(128, es[j].p)
  {
  }

  lemma InsertStep(root: Node, es: seq<Entry>, j: nat)
    requires j < |es| && ValidEntries(128, es) && Painted(root, es, j) && Shallow(root, Strided(es[j].p.len))
    requires es[j].p.len <= 128
    ensures Painted(Insert(root, KeyOctets(16, es[j].p.key), es[j].p.len, es[j].value, 0), es, j + 1)
    ensures Shallow(Insert(root, KeyOctets(16, es[j].p.key), es[j].p.len, es[j].value, 0), Strided(es[j].p.len))
  {
    var e := es[j];
    EntryLen(es, j);
    var key := KeyOctets(16, e.p.key);
    var r := Insert(root, key, e.p.len, e.value, 0);
    InsertFollows(root, key, e.p.len, e.value, 0, key, 0);
    hide Shallow, Insert, Covers, Valid, Agree;
    forall a: nat | a < Pow2(128) ensures Follow(r, KeyOctets(16, a), 0, 0) == Over(128, es[..j + 1], 0, 128, a, 0) {
      InsertFollows(root, key, e.p.len, e.value, 0, KeyOctets(16, a), 0);
      AgreeIsCovers(e.p, a);
      OverStep(128, es, j, 0, 128, a, 0);
    }
  }

  // ---------------------------------------------------------------- flattening

  // What a cell leads a key to; only blocks from floor on may be visited.
  function Walk(blocks: seq<nat>, floor: nat, cell: nat, a: seq<nat>, stride: nat): Option<nat>
    requires stride <= |a|
    decreases |a| - stride
  {
    if cell < NEXT then Some(cell)
    else if stride < |a| && floor <= (cell - NEXT) * BLOCK + a[stride] < |blocks|
    then Walk(blocks, floor, blocks[(cell - NEXT) * BLOCK + a[stride]], a, stride + 1)
    else None
  }

  ghost predicate Keeps(blocks: seq<nat>, more: seq<nat>, floor: nat) {
    |blocks| <= |more| && forall i :: floor <= i < |blocks| ==> more[i] == blocks[i]
  }

  // Growing the blocks, or patching them below the floor, does not disturb a walk.
  lemma {:induction false} WalkKept(blocks: seq<nat>, more: seq<nat>, floor: nat, low: nat, cell: nat, a: seq<nat>, stride: nat)
    requires stride <= |a| && Walk(blocks, floor, cell, a, stride).Some? && Keeps(blocks, more, floor) && low <= floor
    ensures Walk(more, low, cell, a, stride) == Walk(blocks, floor, cell, a, stride)
    decreases |a| - stride
  {
    if cell >= NEXT {
      WalkKept(blocks, more, floor, low, blocks[(cell - NEXT) * BLOCK + a[stride]], a, stride + 1);
    }
  }

  // The cell answers for the subtree of a node.
  ghost predicate CellRight(blocks: seq<nat>, floor: nat, cell: nat, n: Node, stride: nat, inherited: nat)
    requires stride <= STRIDES
  {
    forall a: seq<nat> | |a| == STRIDES && IsKey(a) :: KeyRight(blocks, floor, cell, n, stride, inherited, a)
  }

  ghost predicate KeyRight(blocks: seq<nat>, floor: nat, cell: nat, n: Node, stride: nat, inherited: nat, a: seq<nat>)
    requires stride <= |a|
  {
    Walk(blocks, floor, cell, a, stride) == Some(Follow(n, a, stride, inherited))
  }

  lemma CellKept(blocks: seq<nat>, more: seq<nat>, floor: nat, low: nat, cell: nat, n: Node, stride: nat, inherited: nat)
    requires stride <= STRIDES && CellRight(blocks, floor, cell, n, stride, inherited)
    requires Keeps(blocks, more, floor) && low <= floor
    ensures CellRight(more, low, cell, n, stride, inherited)
  {
    forall a: seq<nat> | |a| == STRIDES && IsKey(a) ensures KeyRight(more, low, cell, n, stride, inherited, a) {
      assert KeyRight(blocks, floor, cell, n, stride, inherited, a);
      WalkKept(blocks, more, floor, low, cell, a, stride);
    }
  }

  // A node's own value or what it inherits, and a leaf for it.
  lemma LeafCell(blocks: seq<nat>, floor: nat, n: Node, stride: nat, inherited: nat)
    requires stride <= STRIDES && n.child == map[] && n.value < NEXT && inherited < NEXT
    ensures CellRight(blocks, floor, if n.value != 0 then n.value else inherited, n, stride, inherited)
  {
  }

  // The cells of a block whose children in done are in place, the rest still inheriting.
  ghost predicate BlockRight(blocks: seq<nat>, at: nat, low: nat, n: Node, stride: nat, value: nat, done: set<nat>)
    requires stride < STRIDES
  {
    at + BLOCK <= |blocks| && low <= |blocks|
    && forall o :: 0 <= o < BLOCK ==>
         if o in done then CellRight(blocks, low, blocks[at + o], Kid(n, o), stride + 1, value) else blocks[at + o] == value
  }

  // One more child flattened and its cell patched.
  lemma BlockStep(blocks: seq<nat>, grown: seq<nat>, at: nat, low: nat, n: Node, stride: nat, value: nat, done: set<nat>,
                  o: nat, cell: nat)
    requires stride < STRIDES && o < BLOCK && BlockRight(blocks, at, low, n, stride, value, done) && at + BLOCK <= low
    requires blocks <= grown && CellRight(grown, |blocks|, cell, Kid(n, o), stride + 1, value)
    ensures BlockRight(grown[at + o := cell], at, low, n, stride, value, done + {o})
  {
    hide CellRight;
    var patched := grown[at + o := cell];
    forall p | 0 <= p < BLOCK
      ensures if p in done + {o} then CellRight(patched, low, patched[at + p], Kid(n, p), stride + 1, value)
              else patched[at + p] == value
    {
      if p == o {
        CellKept(grown, patched, |blocks|, low, cell, Kid(n, o), stride + 1, value);
      } else if p in done {
        CellKept(blocks, patched, low, low, blocks[at + p], Kid(n, p), stride + 1, value);
      }
    }
  }

  // A finished block answers for its node.
  lemma BlockAnswers(blocks: seq<nat>, at: nat, floor: nat, low: nat, n: Node, stride: nat, inherited: nat, block: nat)
    requires stride < STRIDES && at == BLOCK * block && floor <= at && floor <= low
    requires BlockRight(blocks, at, low, n, stride, if n.value != 0 then n.value else inherited, n.child.Keys)
    requires n.value < NEXT && inherited < NEXT
    ensures CellRight(blocks, floor, NEXT + block, n, stride, inherited)
  {
    var value := if n.value != 0 then n.value else inherited;
    forall a: seq<nat> | |a| == STRIDES && IsKey(a) ensures KeyRight(blocks, floor, NEXT + block, n, stride, inherited, a) {
      var o := a[stride];
      if o in n.child {
        CellKept(blocks, blocks, low, floor, blocks[at + o], n.child[o], stride + 1, value);
        assert KeyRight(blocks, floor, blocks[at + o], n.child[o], stride + 1, value, a);
      }
    }
  }

  ghost function Seen(order: seq<nat>): set<nat> {
    set o | o in order
  }

  // Flattens one node: its inherited value when nothing lies below, else a block of its children.
  method FlattenSlot(blocks: seq<nat>, n: Node, stride: nat, inherited: nat) returns (cell: nat, r: seq<nat>)
    requires stride <= STRIDES && Shallow(n, STRIDES - stride) && SmallValues(n, STRIDES - stride)
    requires inherited < NEXT && |blocks| % BLOCK == 0
    ensures blocks <= r && |r| % BLOCK == 0 && CellRight(r, |blocks|, cell, n, stride, inherited)
    ensures stride >= 2 ==> |r| == |blocks| + BLOCK * Needs(n, STRIDES - stride)
    decreases STRIDES - stride, 1
  {
    var value := if n.value != 0 then n.value else inherited;
    if |n.child| == 0 || stride >= STRIDES {
      LeafCell(blocks, |blocks|, n, stride, inherited);
      return value, blocks;
    }
    var block := |blocks| / BLOCK;
    r := FlattenKids(blocks + seq(BLOCK, _ => value), n, stride, value, |blocks|);
    BlockAnswers(r, |blocks|, |blocks|, |blocks| + BLOCK, n, stride, inherited, block);
    cell := NEXT + block;
  }

  // Children in any order, each patched into its cell.
  method FlattenKids(blocks: seq<nat>, n: Node, stride: nat, value: nat, at: nat) returns (r: seq<nat>)
    requires stride < STRIDES && Shallow(n, STRIDES - stride) && SmallValues(n, STRIDES - stride) && value < NEXT
    requires |blocks| % BLOCK == 0 && |blocks| == at + BLOCK && BlockRight(blocks, at, |blocks|, n, stride, value, {})
    ensures |blocks| <= |r| && blocks[..at] == r[..at] && |r| % BLOCK == 0
    ensures BlockRight(r, at, at + BLOCK, n, stride, value, n.child.Keys)
    ensures stride >= 2 ==> |r| == |blocks| + BLOCK * NeedsOf(n, STRIDES - stride - 1, n.child.Keys, BLOCK)
    decreases STRIDES - stride, 0
  {
    r := blocks;
    var order := Elements(n.child.Keys);
    assert Seen(order[..0]) == {};
    NoRepeats(order, n.child.Keys);
    ghost var d: nat := STRIDES - stride - 1;
    NeedsNone(n, d, BLOCK);
    hide BlockRight, CellRight, Needs, NeedsOf, Shallow, SmallValues;
    for i := 0 to |order|
      invariant stride >= 2 ==> |r| == |blocks| + BLOCK * NeedsOf(n, d, Seen(order[..i]), BLOCK)
      invariant |blocks| <= |r| && blocks[..at] == r[..at] && |r| % BLOCK == 0
      invariant BlockRight(r, at, at + BLOCK, n, stride, value, Seen(order[..i]))
    {
      var o := order[i];
      KidFits(n, stride, o);
      ghost var before := r;
      var cell, grown := FlattenSlot(r, n.child[o], stride + 1, value);
      BlockStep(before, grown, at, at + BLOCK, n, stride, value, Seen(order[..i]), o, cell);
      r := grown[at + o := cell];
      assert Seen(order[..i]) + {o} == Seen(order[..i + 1]);
      NeedsAdded(n, d, Seen(order[..i]), o, BLOCK);
    }
    assert Seen(order[..|order|]) == n.child.Keys;
  }

  lemma KidFits(n: Node, stride: nat, o: nat)
    requires stride < STRIDES && Shallow(n, STRIDES - stride) && SmallValues(n, STRIDES - stride) && o in n.child
    ensures o < BLOCK && Shallow(n.child[o], STRIDES - stride - 1) && SmallValues(n.child[o], STRIDES - stride - 1)
  {
  }

  // ---------------------------------------------------------------- the table

  // A cell's index is a 32-bit word.
  const CELLS := 0x1_0000_0000

  datatype Table6 = Table6(root: seq<nat>, blocks: seq<nat>)

  // The root cell of a 16-bit key answers for the second stride's node.
  ghost predicate RootCell(t: Table6, root: Node, k: nat)
    requires k < ROOT && |t.root| == ROOT
  {
    if k / BLOCK in root.child then
      var child := root.child[k / BLOCK];
      CellRight(t.blocks, 0, t.root[k], Kid(child, k % BLOCK), 2, if child.value != 0 then child.value else root.value)
    else t.root[k] == root.value
  }

  ghost predicate TableRight6(t: Table6, root: Node) {
    |t.root| == ROOT && forall k :: 0 <= k < ROOT ==> RootCell(t, root, k)
  }

  method FlattenRoot(root: Node) returns (t: Table6)
    requires Shallow(root, 16) && SmallValues(root, 16)
    ensures TableRight6(t, root) && |t.blocks| == BLOCK * Needs(root, 16)
  {
    var cells: seq<nat>, blocks: seq<nat> := seq(ROOT, _ => root.value), [];
    var order := Elements(root.child.Keys);
    NoRepeats(order, root.child.Keys);
    NeedsNone(root, 15, BLOCK);
    assert Seen(order[..0]) == {};
    hide CellRight, Needs, NeedsOf, Shallow, SmallValues;
    for i := 0 to |order|
      invariant |cells| == ROOT && |blocks| % BLOCK == 0
      invariant |blocks| == BLOCK * NeedsOf(root, 15, Seen(order[..i]), BLOCK)
      invariant forall k :: 0 <= k < ROOT && k / BLOCK !in order[..i] ==> cells[k] == root.value
      invariant forall k :: 0 <= k < ROOT && k / BLOCK in order[..i] ==> RootCell(Table6(cells, blocks), root, k)
    {
      cells, blocks := FlattenSecond(root, order[..i], order[i], cells, blocks);
      KidFits(root, 0, order[i]);
      assert Seen(order[..i]) + {order[i]} == Seen(order[..i + 1]);
      NeedsAdded(root, 15, Seen(order[..i]), order[i], BLOCK);
    }
    assert order[..|order|] == order && Seen(order) == root.child.Keys;
    RootNeeds(root);
    t := Table6(cells, blocks);
  }

  lemma RootNeeds(root: Node)
    ensures Needs(root, 16) == NeedsOf(root, 15, root.child.Keys, BLOCK)
  {
    if root.child == map[] {
      assert root.child.Keys == {};
      NeedsNone(root, 15, BLOCK);
    }
  }

  lemma SecondNeeds(child: Node)
    ensures Needs(child, 15) == NeedsOf(child, 14, child.child.Keys, BLOCK)
  {
    if child.child == map[] {
      assert child.child.Keys == {};
      NeedsNone(child, 14, BLOCK);
    }
  }

  // The 256 root cells below one first octet.
  method FlattenSecond(root: Node, done: seq<nat>, o: nat, cells0: seq<nat>, blocks0: seq<nat>)
    returns (cells: seq<nat>, blocks: seq<nat>)
    requires Shallow(root, 16) && SmallValues(root, 16) && o in root.child && o !in done
    requires |cells0| == ROOT && |blocks0| % BLOCK == 0
    requires forall k :: 0 <= k < ROOT && k / BLOCK !in done ==> cells0[k] == root.value
    requires forall k :: 0 <= k < ROOT && k / BLOCK in done ==> RootCell(Table6(cells0, blocks0), root, k)
    ensures |cells| == ROOT && |blocks| % BLOCK == 0
    ensures |blocks| == |blocks0| + BLOCK * Needs(Kid(root, o), 15)
    ensures forall k :: 0 <= k < ROOT && k / BLOCK !in done + [o] ==> cells[k] == root.value
    ensures forall k :: 0 <= k < ROOT && k / BLOCK in done + [o] ==> RootCell(Table6(cells, blocks), root, k)
  {
    cells, blocks := cells0, blocks0;
    KidFits(root, 0, o);
    var child := root.child[o];
    assert child.value < NEXT && root.value < NEXT;
    var inherited := if child.value != 0 then child.value else root.value;
    SecondNeeds(child);
    assert NeedsOf(child, 14, child.child.Keys, 0) == 0;
    hide CellRight, Shallow, SmallValues, Needs, NeedsOf;
    for j := 0 to 256
      invariant |cells| == ROOT && |blocks| % BLOCK == 0
      invariant |blocks| == |blocks0| + BLOCK * NeedsOf(child, 14, child.child.Keys, j)
      invariant forall k :: 0 <= k < ROOT && k / BLOCK !in done && k / BLOCK != o ==> cells[k] == root.value
      invariant forall k :: 0 <= k < ROOT && k / BLOCK in done ==> RootCell(Table6(cells, blocks), root, k)
      invariant forall k :: o * BLOCK <= k < o * BLOCK + j ==> RootCell(Table6(cells, blocks), root, k)
    {
      ghost var before := Table6(cells, blocks);
      SecondFits(child, j);
      NeedsStep(child, 14, j);
      var cell;
      cell, blocks := FlattenSlot(blocks, Kid(child, j), 2, inherited);
      CellKept(blocks, blocks, |before.blocks|, 0, cell, Kid(child, j), 2, inherited);
      cells := cells[o * BLOCK + j := cell];
      RootKept(before, Table6(cells, blocks), root, o * BLOCK + j);
    }
  }

  lemma NeedsStep(n: Node, d: nat, j: nat)
    ensures NeedsOf(n, d, n.child.Keys, j + 1) == NeedsOf(n, d, n.child.Keys, j) + Needs(Kid(n, j), d)
  {
  }

  lemma SecondFits(child: Node, j: nat)
    requires Shallow(child, STRIDES - 1) && SmallValues(child, STRIDES - 1)
    ensures Shallow(Kid(child, j), STRIDES - 2) && SmallValues(Kid(child, j), STRIDES - 2)
  {
    assert Shallow(EMPTY, STRIDES - 2) && SmallValues(EMPTY, STRIDES - 2);
  }

  // Growing the blocks and writing one cell leaves the other root cells right.
  lemma RootKept(t: Table6, u: Table6, root: Node, at: nat)
    requires |t.root| == |u.root| == ROOT && t.blocks <= u.blocks
    requires forall k :: 0 <= k < ROOT && k != at ==> u.root[k] == t.root[k]
    ensures forall k :: 0 <= k < ROOT && k != at && RootCell(t, root, k) ==> RootCell(u, root, k)
  {
    hide CellRight;
    forall k | 0 <= k < ROOT && k != at && RootCell(t, root, k) ensures RootCell(u, root, k) {
      if k / BLOCK in root.child {
        var child := root.child[k / BLOCK];
        CellKept(t.blocks, u.blocks, 0, 0, t.root[k], Kid(child, k % BLOCK), 2,
                 if child.value != 0 then child.value else root.value);
      }
    }
  }

  lemma TwoOctets(key: nat)
    requires key < Pow2(128)
    ensures Shr(key, 112) < ROOT
    ensures Shr(key, 112) / BLOCK == OctetAt(16, key, 0) && Shr(key, 112) % BLOCK == OctetAt(16, key, 1)
  {
    hide Pow2;
    Pow2Small();
    Pow2Large();
    TopFits(128, 16, key);
    ShiftShift(key, 112, 8);
  }

  // The root cell for the first two octets, then tagged cells by successive octets.  Cell indices are
  // 32-bit words, which bounds the blocks.
  method Lookup6(t: Table6, high: nat, low: nat, ghost root: Node) returns (cell: nat)
    requires TableRight6(t, root) && root.value < NEXT && |t.blocks| <= CELLS
    requires high < WORD && low < WORD && Wide(high, low) < Pow2(128)
    ensures cell == Follow(root, KeyOctets(16, Wide(high, low)), 0, 0)
  {
    ghost var key := Wide(high, low);
    ghost var a := KeyOctets(16, key);
    var k := Shr(high, 48);
    ShrHigh(high, low, 48);
    TwoOctets(key);
    assert RootCell(t, root, k);
    cell := t.root[k];
    RootFollows(t, root, k, a);
    hide OctetAt, Byte6, Follow, RootCell, Shr, Pow2, Wide;
    ghost var answer := Follow(root, a, 0, 0);
    var stride: nat := 2;
    while cell >= NEXT && stride < STRIDES
      invariant stride <= STRIDES && Walk(t.blocks, 0, cell, a, stride) == Some(answer)
      decreases STRIDES - stride
    {
      Byte6IsOctet(high, low, stride);
      cell := t.blocks[(cell - NEXT) * BLOCK + Byte6(high, low, stride)];
      stride := stride + 1;
    }
  }

  lemma RootFollows(t: Table6, root: Node, k: nat, a: seq<nat>)
    requires |t.root| == ROOT && k < ROOT && RootCell(t, root, k) && |a| == STRIDES && IsKey(a)
    requires k / BLOCK == a[0] && k % BLOCK == a[1] && root.value < NEXT
    ensures Walk(t.blocks, 0, t.root[k], a, 2) == Some(Follow(root, a, 0, 0))
  {
    if a[0] in root.child {
      var child := root.child[a[0]];
      var inherited := if child.value != 0 then child.value else root.value;
      assert KeyRight(t.blocks, 0, t.root[k], Kid(child, a[1]), 2, inherited, a);
    }
  }
}
