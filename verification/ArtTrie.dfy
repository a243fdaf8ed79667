// artlpm's trie: one octet a node, a 512-bit bitmap of the prefixes that end in the stride, children
// packed by popcount, and leaves that stand for a whole chain of single-child nodes.
module ArtTrie {
  import opened Bitsets
  import opened Prefixes
  import opened Octets
  import opened Options
  import opened PathKeys

  // A path-compressed prefix: the whole key, so the elided octets can be checked.
  datatype Leaf<V> = Leaf(prefix: Prefix, val: V)

  datatype Node<V> = Node(child: Sparse<Node<V>>, pfx: Sparse<V>, leaf: Sparse<Leaf<V>>)

  function NewNode<V>(): Node<V> {
    Node(Empty(256), Empty(512), Empty(256))
  }

  // Nothing is stored in the node or below it.
  predicate IsEmpty<V>(n: Node<V>) {
    n.child.items == [] && n.pfx.items == [] && n.leaf.items == []
  }

  // ---------------------------------------------------------------- shape

  ghost predicate Sized<V>(n: Node<V>) {
    && n.child.Wf(256) && n.pfx.Wf(512) && n.leaf.Wf(256)
    && forall o :: 0 <= o < 256 ==> !(n.child.Has(o) && n.leaf.Has(o))
  }

  // The leaf's own node would lie at or below this path.
  ghost predicate LeafFits<V>(d: nat, lf: Leaf<V>, path: seq<nat>) {
    Valid(8 * d, lf.prefix) && path <= PosOf(Ceil, d, lf.prefix).path
  }

  ghost predicate Wf<V>(d: nat, n: Node<V>, path: seq<nat>)
    decreases d - |path|
  {
    && |path| < d && IsKey(path) && Sized(n)
    && (forall i :: 0 <= i < 512 && n.pfx.Has(i) ==> Canonical(Ceil, d, Pos(path, i)))
    && (forall o :: 0 <= o < 256 && n.leaf.Has(o) ==> LeafFits(d, n.leaf.At(o), path + [o]))
    && (forall o :: 0 <= o < 256 && n.child.Has(o) ==> !IsEmpty(n.child.At(o)) && Wf(d, n.child.At(o), path + [o]))
  }

  // ---------------------------------------------------------------- contents

  datatype Slot<V> = Nothing | Tail(lf: Leaf<V>) | Kid(node: Node<V>)

  ghost function SlotAt<V>(n: Node<V>, o: nat): Slot<V>
    requires Sized(n)
  {
    if n.leaf.Has(o) then Tail(n.leaf.At(o)) else if n.child.Has(o) then Kid(n.child.At(o)) else Nothing
  }

  ghost function Own<V>(n: Node<V>, i: nat): Option<V>
    requires Sized(n)
  {
    if n.pfx.Has(i) then Some(n.pfx.At(i)) else None
  }

  // What is stored for the position x at or below a node.
  ghost function Find<V>(d: nat, n: Node<V>, path: seq<nat>, x: Pos): Option<V>
    requires Wf(d, n, path)
    decreases d - |path|
  {
    if |x.path| <= |path| then Own(n, x.idx)
    else
      match SlotAt(n, x.path[|path|])
      case Nothing => None
      case Tail(lf) => if PosOf(Ceil, d, lf.prefix) == x then Some(lf.val) else None
      case Kid(c) => assert x.path[|path|] < 256; Find(d, c, path + [x.path[|path|]], x)
  }

  ghost predicate Under(path: seq<nat>, x: Pos) {
    path <= x.path
  }

  // ---------------------------------------------------------------- one slot of a node changed

  lemma ReadChild<V>(n: Node<V>, o: nat, c: Node<V>, q: nat)
    requires Sized(n) && o < 256 && !n.leaf.Has(o)
    ensures var r := n.(child := n.child.Put(o, c));
            Sized(r) && SlotAt(r, q) == if q == o then Kid(c) else SlotAt(n, q)
  {
    forall p: nat ensures n.child.Put(o, c).Has(p) <==> n.child.Has(p) || p == o {
      PutReads(n.child, o, c, p);
    }
    PutReads(n.child, o, c, q);
  }

  lemma ReadLeaf<V>(n: Node<V>, o: nat, lf: Leaf<V>, q: nat)
    requires Sized(n) && o < 256 && !n.child.Has(o)
    ensures var r := n.(leaf := n.leaf.Put(o, lf));
            Sized(r) && SlotAt(r, q) == if q == o then Tail(lf) else SlotAt(n, q)
  {
    forall p: nat ensures n.leaf.Put(o, lf).Has(p) <==> n.leaf.Has(p) || p == o {
      PutReads(n.leaf, o, lf, p);
    }
    PutReads(n.leaf, o, lf, q);
  }

  lemma ReadNoLeaf<V>(n: Node<V>, o: nat, q: nat)
    requires Sized(n) && o < 256 && n.leaf.Has(o)
    ensures var r := n.(leaf := n.leaf.Remove(o));
            Sized(r) && !r.leaf.Has(o) && SlotAt(r, q) == if q == o then Nothing else SlotAt(n, q)
  {
    forall p: nat ensures n.leaf.Remove(o).Has(p) <==> n.leaf.Has(p) && p != o {
      RemoveReads(n.leaf, o, p);
    }
    RemoveReads(n.leaf, o, q);
  }

  lemma ReadNoChild<V>(n: Node<V>, o: nat, q: nat)
    requires Sized(n) && o < 256 && n.child.Has(o)
    ensures var r := n.(child := n.child.Remove(o));
            Sized(r) && SlotAt(r, q) == if q == o then Nothing else SlotAt(n, q)
  {
    forall p: nat ensures n.child.Remove(o).Has(p) <==> n.child.Has(p) && p != o {
      RemoveReads(n.child, o, p);
    }
    RemoveReads(n.child, o, q);
  }

  lemma ReadOwn<V>(n: Node<V>, i: nat, v: V, j: nat)
    requires Sized(n) && i < 512
    ensures var r := n.(pfx := n.pfx.Put(i, v));
            Sized(r) && Own(r, j) == if j == i then Some(v) else Own(n, j)
  {
    PutReads(n.pfx, i, v, j);
  }

  lemma ReadNoOwn<V>(n: Node<V>, i: nat, j: nat)
    requires Sized(n) && i < 512 && n.pfx.Has(i)
    ensures var r := n.(pfx := n.pfx.Remove(i));
            Sized(r) && Own(r, j) == if j == i then None else Own(n, j)
  {
    RemoveReads(n.pfx, i, j);
  }

  // What a slot may hold.
  ghost predicate SlotFits<V>(d: nat, s: Slot<V>, path: seq<nat>)
    decreases d - |path|
  {
    match s
    case Nothing => true
    case Tail(lf) => LeafFits(d, lf, path)
    case Kid(c) => !IsEmpty(c) && Wf(d, c, path)
  }

  ghost predicate SlotsFit<V>(d: nat, n: Node<V>, path: seq<nat>)
    requires Sized(n)
  {
    forall o :: 0 <= o < 256 ==> SlotFits(d, SlotAt(n, o), path + [o])
  }

  ghost predicate OwnFits<V>(d: nat, n: Node<V>, path: seq<nat>)
    requires Sized(n)
  {
    forall i :: 0 <= i < 512 && Own(n, i).Some? ==> Canonical(Ceil, d, Pos(path, i))
  }

  // Well-formedness slot by slot.
  lemma WfBySlots<V>(d: nat, n: Node<V>, path: seq<nat>)
    ensures Wf(d, n, path) <==> |path| < d && IsKey(path) && Sized(n) && OwnFits(d, n, path) && SlotsFit(d, n, path)
  {
    if |path| < d && IsKey(path) && Sized(n) {
      hide LeafFits, IsEmpty, Canonical;
      if Wf(d, n, path) {
        forall o | 0 <= o < 256 ensures SlotFits(d, SlotAt(n, o), path + [o]) {
        }
      }
      if SlotsFit(d, n, path) && OwnFits(d, n, path) {
        forall o | 0 <= o < 256 && n.leaf.Has(o) ensures LeafFits(d, n.leaf.At(o), path + [o]) {
          assert SlotFits(d, SlotAt(n, o), path + [o]);
        }
        forall o | 0 <= o < 256 && n.child.Has(o) ensures !IsEmpty(n.child.At(o)) && Wf(d, n.child.At(o), path + [o]) {
          assert SlotFits(d, SlotAt(n, o), path + [o]);
        }
        forall i | 0 <= i < 512 && n.pfx.Has(i) ensures Canonical(Ceil, d, Pos(path, i)) {
          assert Own(n, i).Some?;
        }
      }
    }
  }

  ghost function FindIn<V>(d: nat, s: Slot<V>, path: seq<nat>, x: Pos): Option<V>
    requires SlotFits(d, s, path)
  {
    match s
    case Nothing => None
    case Tail(lf) => if PosOf(Ceil, d, lf.prefix) == x then Some(lf.val) else None
    case Kid(c) => Find(d, c, path, x)
  }

  // A position below a slot is looked for there.
  lemma FindBySlot<V>(d: nat, n: Node<V>, path: seq<nat>, o: nat, x: Pos)
    requires Wf(d, n, path) && o < 256 && Under(path + [o], x)
    ensures SlotFits(d, SlotAt(n, o), path + [o]) && Find(d, n, path, x) == FindIn(d, SlotAt(n, o), path + [o], x)
  {
    assert x.path[|path|] == (path + [o])[|path|];
  }

  lemma FindOwn<V>(d: nat, n: Node<V>, path: seq<nat>, x: Pos)
    requires Wf(d, n, path) && x.path == path
    ensures Find(d, n, path, x) == Own(n, x.idx)
  {
  }

  // Changing what one slot holds changes only what is found below that slot.
  lemma SlotUpdated<V>(d: nat, n: Node<V>, r: Node<V>, path: seq<nat>, o: nat, s: Slot<V>, x: Pos, ov: Option<V>)
    requires Wf(d, n, path) && Sized(r) && o < 256 && Under(path + [o], x) && SlotFits(d, s, path + [o])
    requires forall j: nat :: Own(r, j) == Own(n, j)
    requires forall q: nat :: SlotAt(r, q) == if q == o then s else SlotAt(n, q)
    requires SlotFits(d, SlotAt(n, o), path + [o])
    requires forall y | Under(path + [o], y) ::
               FindIn(d, s, path + [o], y) == if y == x then ov else FindIn(d, SlotAt(n, o), path + [o], y)
    ensures Wf(d, r, path)
    ensures forall y | Under(path, y) :: Find(d, r, path, y) == if y == x then ov else Find(d, n, path, y)
  {
    WfBySlots(d, n, path);
    WfBySlots(d, r, path);
    hide Own, SlotAt, FindIn, SlotFits, Sized;
    forall y | Under(path, y) ensures Find(d, r, path, y) == if y == x then ov else Find(d, n, path, y) {
      if |y.path| > |path| && y.path[|path|] == o {
        assert Under(path + [o], y);
        FindBySlot(d, n, path, o, y);
        FindBySlot(d, r, path, o, y);
      } else {
        assert y != x by { assert (path + [o])[|path|] == o; }
        FindElsewhere(d, n, r, path, o, y);
      }
    }
  }

  lemma FindElsewhere<V>(d: nat, n: Node<V>, r: Node<V>, path: seq<nat>, o: nat, y: Pos)
    requires Wf(d, n, path) && Wf(d, r, path) && Under(path, y)
    requires forall j: nat :: Own(r, j) == Own(n, j)
    requires forall q: nat | q != o :: SlotAt(r, q) == SlotAt(n, q)
    requires |y.path| > |path| ==> y.path[|path|] != o
    ensures Find(d, r, path, y) == Find(d, n, path, y)
  {
    hide Own, SlotAt, Sized;
  }

  // Changing one of the node's own prefixes changes only that position.
  lemma OwnUpdated<V>(d: nat, n: Node<V>, r: Node<V>, path: seq<nat>, x: Pos, ov: Option<V>)
    requires Wf(d, n, path) && Sized(r) && x.path == path && x.idx < 512 && Canonical(Ceil, d, x)
    requires forall j: nat :: Own(r, j) == if j == x.idx then ov else Own(n, j)
    requires forall q: nat :: SlotAt(r, q) == SlotAt(n, q)
    ensures Wf(d, r, path)
    ensures forall y | Under(path, y) :: Find(d, r, path, y) == if y == x then ov else Find(d, n, path, y)
  {
    WfBySlots(d, n, path);
    WfBySlots(d, r, path);
    hide Own, SlotAt, Sized, SlotFits, Canonical;
    forall y | Under(path, y) ensures Find(d, r, path, y) == if y == x then ov else Find(d, n, path, y) {
      if |y.path| == |path| {
        FindOwn(d, n, path, y);
        FindOwn(d, r, path, y);
      }
    }
  }

  lemma NewIsEmpty<V>(d: nat, path: seq<nat>)
    requires |path| < d && IsKey(path)
    ensures IsEmpty<V>(NewNode()) && Wf<V>(d, NewNode(), path)
    ensures forall y :: Find<V>(d, NewNode(), path, y) == None
  {
  }

  lemma EmptyHasNone<V>(d: nat, n: Node<V>, path: seq<nat>, y: Pos)
    requires Wf(d, n, path) && IsEmpty(n)
    ensures Find(d, n, path, y) == None
  {
    if |y.path| <= |path| {
      NoItems(n.pfx, y.idx);
    } else {
      NoItems(n.leaf, y.path[|path|]);
      NoItems(n.child, y.path[|path|]);
    }
  }

  lemma NoItems<T>(s: Sparse<T>, i: nat)
    requires s.Wf(|s.bits|)
    ensures s.items == [] ==> !s.Has(i)
  {
    if s.Has(i) {
      RankBelowCount(s.bits, i);
    }
  }

  // ---------------------------------------------------------------- where a prefix goes

  // The position of a prefix: its stride's path and index.
  lemma CeilPos(d: nat, p: Prefix)
    requires d > 0 && Valid(8 * d, p)
    ensures var x := PosOf(Ceil, d, p);
            && |x.path| == Depth(Ceil, p.len) < d && Canonical(Ceil, d, x)
            && x.path == KeyOctets(d, p.key)[..|x.path|] && 1 <= x.idx < 512
  {
    var x := PosOf(Ceil, d, p);
    var rest := p.len - 8 * Depth(Ceil, p.len);
    if rest > 0 {
      IdxLenOfPfx(OctetAt(d, p.key, |x.path|), rest);
    }
  }

  // The next octet of the prefix extends the path of its descent.
  lemma NextOctet(d: nat, p: Prefix, path: seq<nat>, o: nat)
    requires d > 0 && Valid(8 * d, p) && path <= PosOf(Ceil, d, p).path && |path| < Depth(Ceil, p.len)
    requires |path| < d && o == OctetAt(d, p.key, |path|)
    ensures o < 256 && path + [o] <= PosOf(Ceil, d, p).path
  {
    CeilPos(d, p);
    var x := PosOf(Ceil, d, p);
    hide PosOf, Canonical, Valid;
    assert x.path[|path|] == o;
    assert path + [o] == x.path[..|path| + 1];
  }

  // ---------------------------------------------------------------- insertion

  // What an insertion or deletion leaves behind.
  ghost predicate Changed<V>(d: nat, n: Node<V>, r: Node<V>, path: seq<nat>, x: Pos, ov: Option<V>) {
    && Wf(d, n, path) && Wf(d, r, path)
    && forall y | Under(path, y) :: Find(d, r, path, y) == if y == x then ov else Find(d, n, path, y)
  }

  lemma PutHolds<T>(s: Sparse<T>, i: nat, v: T)
    requires s.Wf(|s.bits|) && i < |s.bits|
    ensures s.Put(i, v).items != []
  {
    PutReads(s, i, v, i);
    NoItems(s.Put(i, v), i);
  }

  lemma OwnPut<V>(d: nat, n: Node<V>, path: seq<nat>, x: Pos, v: V)
    requires Wf(d, n, path) && x.path == path && x.idx < 512 && Canonical(Ceil, d, x)
    ensures var r := n.(pfx := n.pfx.Put(x.idx, v));
            Changed(d, n, r, path, x, Some(v)) && !IsEmpty(r)
  {
    var r := n.(pfx := n.pfx.Put(x.idx, v));
    forall j: nat ensures Own(r, j) == (if j == x.idx then Some(v) else Own(n, j)) && Sized(r) {
      ReadOwn(n, x.idx, v, j);
    }
    PutHolds(n.pfx, x.idx, v);
    ReadOwn(n, x.idx, v, 0);
    OwnUpdated(d, n, r, path, x, Some(v));
  }

  lemma OwnDrop<V>(d: nat, n: Node<V>, path: seq<nat>, x: Pos)
    requires Wf(d, n, path) && x.path == path && x.idx < 512 && Canonical(Ceil, d, x) && n.pfx.Has(x.idx)
    ensures Changed(d, n, n.(pfx := n.pfx.Remove(x.idx)), path, x, None)
  {
    var r := n.(pfx := n.pfx.Remove(x.idx));
    forall j: nat ensures Own(r, j) == (if j == x.idx then None else Own(n, j)) && Sized(r) {
      ReadNoOwn(n, x.idx, j);
    }
    ReadNoOwn(n, x.idx, 0);
    OwnUpdated(d, n, r, path, x, None);
  }

  // A leaf in an empty slot, or in place of the same prefix's leaf.
  lemma LeafPut<V>(d: nat, n: Node<V>, path: seq<nat>, o: nat, p: Prefix, v: V, x: Pos)
    requires Wf(d, n, path) && o < 256 && !n.child.Has(o) && (n.leaf.Has(o) ==> n.leaf.At(o).prefix == p)
    requires Valid(8 * d, p) && x == PosOf(Ceil, d, p) && Under(path + [o], x)
    ensures var r := n.(leaf := n.leaf.Put(o, Leaf(p, v)));
            Changed(d, n, r, path, x, Some(v)) && !IsEmpty(r)
    ensures Find(d, n, path, x).None? <==> !n.leaf.Has(o)
  {
    var r := n.(leaf := n.leaf.Put(o, Leaf(p, v)));
    forall q: nat ensures SlotAt(r, q) == (if q == o then Tail(Leaf(p, v)) else SlotAt(n, q)) && Sized(r) {
      ReadLeaf(n, o, Leaf(p, v), q);
    }
    PutHolds(n.leaf, o, Leaf(p, v));
    ReadLeaf(n, o, Leaf(p, v), o);
    FindBySlot(d, n, path, o, x);
    hide PosOf, Valid, Wf;
    SlotUpdated(d, n, r, path, o, Tail(Leaf(p, v)), x, Some(v));
  }

  lemma LeafDrop<V>(d: nat, n: Node<V>, path: seq<nat>, o: nat, p: Prefix, x: Pos)
    requires Wf(d, n, path) && o < 256 && n.leaf.Has(o) && n.leaf.At(o).prefix == p
    requires Valid(8 * d, p) && x == PosOf(Ceil, d, p) && Under(path + [o], x)
    ensures Changed(d, n, n.(leaf := n.leaf.Remove(o)), path, x, None) && Find(d, n, path, x).Some?
  {
    var r := n.(leaf := n.leaf.Remove(o));
    forall q: nat ensures SlotAt(r, q) == (if q == o then Nothing else SlotAt(n, q)) && Sized(r) {
      ReadNoLeaf(n, o, q);
    }
    ReadNoLeaf(n, o, o);
    FindBySlot(d, n, path, o, x);
    hide PosOf, Valid, Wf;
    SlotUpdated(d, n, r, path, o, Nothing, x, None);
  }

  // A leaf of another prefix is pushed down into a node of its own first.
  lemma LeafSplit<V>(d: nat, n: Node<V>, path: seq<nat>, o: nat, p: Prefix, v: V, x: Pos, pushed: Node<V>, c: Node<V>)
    requires d > 0 && Wf(d, n, path) && o < 256 && n.leaf.Has(o) && n.leaf.At(o).prefix != p
    requires Valid(8 * d, p) && x == PosOf(Ceil, d, p) && Under(path + [o], x)
    requires Changed(d, NewNode(), pushed, path + [o], PosOf(Ceil, d, n.leaf.At(o).prefix), Some(n.leaf.At(o).val))
    requires Changed(d, pushed, c, path + [o], x, Some(v)) && !IsEmpty(c)
    ensures Changed(d, n, n.(child := n.child.Put(o, c), leaf := n.leaf.Remove(o)), path, x, Some(v))
    ensures !IsEmpty(n.(child := n.child.Put(o, c), leaf := n.leaf.Remove(o))) && Find(d, n, path, x).None?
  {
    var lf := n.leaf.At(o);
    var bare := n.(leaf := n.leaf.Remove(o));
    var r := bare.(child := bare.child.Put(o, c));
    ReadNoLeaf(n, o, o);
    forall q: nat ensures SlotAt(r, q) == (if q == o then Kid(c) else SlotAt(n, q)) && Sized(r) {
      ReadNoLeaf(n, o, q);
      ReadChild(bare, o, c, q);
    }
    ReadChild(bare, o, c, o);
    PutHolds(n.child, o, c);
    FindBySlot(d, n, path, o, x);
    var y := PosOf(Ceil, d, lf.prefix);
    if x == y {
      PosInjective(Ceil, d, p, lf.prefix);
    }
    NewIsEmpty<V>(d, path + [o]);
    hide PosOf, Valid, Wf, NewNode;
    SlotUpdated(d, n, r, path, o, Kid(c), x, Some(v));
  }

  lemma KidPut<V>(d: nat, n: Node<V>, path: seq<nat>, o: nat, x: Pos, ov: Option<V>, c: Node<V>)
    requires Wf(d, n, path) && o < 256 && !n.leaf.Has(o) && n.child.Has(o) && Under(path + [o], x)
    requires Changed(d, n.child.At(o), c, path + [o], x, ov) && !IsEmpty(c)
    ensures var r := n.(child := n.child.Put(o, c));
            Changed(d, n, r, path, x, ov) && !IsEmpty(r)
    ensures Find(d, n, path, x) == Find(d, n.child.At(o), path + [o], x)
  {
    var r := n.(child := n.child.Put(o, c));
    forall q: nat ensures SlotAt(r, q) == (if q == o then Kid(c) else SlotAt(n, q)) && Sized(r) {
      ReadChild(n, o, c, q);
    }
    ReadChild(n, o, c, o);
    PutHolds(n.child, o, c);
    FindBySlot(d, n, path, o, x);
    hide Wf;
    SlotUpdated(d, n, r, path, o, Kid(c), x, ov);
  }

  // An emptied child is unlinked.
  lemma KidDrop<V>(d: nat, n: Node<V>, path: seq<nat>, o: nat, x: Pos, c: Node<V>)
    requires Wf(d, n, path) && o < 256 && !n.leaf.Has(o) && n.child.Has(o) && Under(path + [o], x)
    requires Changed(d, n.child.At(o), c, path + [o], x, None) && IsEmpty(c)
    ensures Changed(d, n, n.(child := n.child.Remove(o)), path, x, None)
    ensures Find(d, n, path, x) == Find(d, n.child.At(o), path + [o], x)
  {
    var r := n.(child := n.child.Remove(o));
    forall q: nat ensures SlotAt(r, q) == (if q == o then Nothing else SlotAt(n, q)) && Sized(r) {
      ReadNoChild(n, o, q);
    }
    ReadNoChild(n, o, o);
    FindBySlot(d, n, path, o, x);
    forall y ensures Find(d, c, path + [o], y) == None {
      EmptyHasNone(d, c, path + [o], y);
    }
    hide Wf;
    SlotUpdated(d, n, r, path, o, Nothing, x, None);
  }

  // One of the three things a slot below the prefix's own node can hold.
  lemma SlotKinds<V>(d: nat, n: Node<V>, path: seq<nat>, o: nat)
    requires Wf(d, n, path) && o < 256
    ensures Sized(n) && IsKey(path + [o]) && |path| < d
    ensures n.leaf.Has(o) ==> LeafFits(d, n.leaf.At(o), path + [o]) && !n.child.Has(o)
    ensures n.child.Has(o) ==> Wf(d, n.child.At(o), path + [o]) && !IsEmpty(n.child.At(o))
  {
  }

  lemma NothingThere<V>(d: nat, n: Node<V>, path: seq<nat>, o: nat, x: Pos)
    requires Wf(d, n, path) && o < 256 && Under(path + [o], x)
    ensures !n.leaf.Has(o) && !n.child.Has(o) ==> Find(d, n, path, x).None?
    ensures n.leaf.Has(o) && PosOf(Ceil, d, n.leaf.At(o).prefix) != x ==> Find(d, n, path, x).None?
  {
    FindBySlot(d, n, path, o, x);
  }

  method Insert<V>(d: nat, n: Node<V>, k: nat, p: Prefix, v: V, ghost path: seq<nat>) returns (r: Node<V>, added: bool)
    requires d > 0 && Wf(d, n, path) && |path| == k && Valid(8 * d, p) && path <= PosOf(Ceil, d, p).path
    ensures Changed(d, n, r, path, PosOf(Ceil, d, p), Some(v)) && !IsEmpty(r)
    ensures added <==> Find(d, n, path, PosOf(Ceil, d, p)).None?
    decreases d - k
  {
    CeilPos(d, p);
    ghost var x := PosOf(Ceil, d, p);
    var depth := Depth(Ceil, p.len);
    if k == depth {
      var idx := if p.len == 0 then 1 else PfxToIdx(OctetAt(d, p.key, depth), p.len - 8 * depth);
      assert idx == x.idx && path == x.path;
      hide PosOf, Canonical, Valid, IsEmpty;
      OwnPut(d, n, path, x, v);
      FindOwn(d, n, path, x);
      hide Wf, Changed, Find;
      return n.(pfx := n.pfx.Put(idx, v)), !n.pfx.Has(idx);
    }
    var o := OctetAt(d, p.key, k);
    NextOctet(d, p, path, o);
    SlotKinds(d, n, path, o);
    hide PosOf, Canonical, Valid, IsEmpty, Wf, Find, Changed;
    if n.leaf.Has(o) {
      var lf := n.leaf.At(o);
      if lf.prefix == p {
        LeafPut(d, n, path, o, p, v, x);
        return n.(leaf := n.leaf.Put(o, Leaf(p, v))), false;
      }
      NewIsEmpty<V>(d, path + [o]);
      var child, _ := Insert(d, NewNode(), k + 1, lf.prefix, lf.val, path + [o]);
      ghost var pushed := child;
      WfChanged(d, NewNode(), child, path + [o], PosOf(Ceil, d, lf.prefix), Some(lf.val));
      child, added := Insert(d, child, k + 1, p, v, path + [o]);
      LeafSplit(d, n, path, o, p, v, x, pushed, child);
      r := n.(child := n.child.Put(o, child), leaf := n.leaf.Remove(o));
    } else if n.child.Has(o) {
      var child;
      child, added := Insert(d, n.child.At(o), k + 1, p, v, path + [o]);
      KidPut(d, n, path, o, x, Some(v), child);
      r := n.(child := n.child.Put(o, child));
    } else {
      LeafPut(d, n, path, o, p, v, x);
      return n.(leaf := n.leaf.Put(o, Leaf(p, v))), true;
    }
  }

  lemma WfChanged<V>(d: nat, n: Node<V>, r: Node<V>, path: seq<nat>, x: Pos, ov: Option<V>)
    requires Changed(d, n, r, path, x, ov)
    ensures Wf(d, r, path)
  {
  }

  // ---------------------------------------------------------------- deletion

  // Removes the prefix and, on the way back up, every node it leaves empty.
  method Delete<V>(d: nat, n: Node<V>, k: nat, p: Prefix, ghost path: seq<nat>) returns (r: Node<V>, found: bool)
    requires d > 0 && Wf(d, n, path) && |path| == k && Valid(8 * d, p) && path <= PosOf(Ceil, d, p).path
    ensures Wf(d, r, path) && (found <==> Find(d, n, path, PosOf(Ceil, d, p)).Some?)
    ensures if found then Changed(d, n, r, path, PosOf(Ceil, d, p), None) else r == n
    decreases d - k
  {
    CeilPos(d, p);
    ghost var x := PosOf(Ceil, d, p);
    var depth := Depth(Ceil, p.len);
    if k == depth {
      var idx := if p.len == 0 then 1 else PfxToIdx(OctetAt(d, p.key, depth), p.len - 8 * depth);
      assert idx == x.idx && path == x.path;
      hide PosOf, Canonical, Valid;
      FindOwn(d, n, path, x);
      if !n.pfx.Has(idx) {
        return n, false;
      }
      OwnDrop(d, n, path, x);
      return n.(pfx := n.pfx.Remove(idx)), true;
    }
    var o := OctetAt(d, p.key, k);
    NextOctet(d, p, path, o);
    SlotKinds(d, n, path, o);
    NothingThere(d, n, path, o, x);
    hide PosOf, Canonical, Valid, IsEmpty, Wf, Find, Changed;
    if n.leaf.Has(o) {
      var lf := n.leaf.At(o);
      if lf.prefix != p {
        LeafDiffers(d, lf.prefix, p);
        return n, false;
      }
      LeafDrop(d, n, path, o, p, x);
      r, found := n.(leaf := n.leaf.Remove(o)), true;
      WfChanged(d, n, r, path, x, None);
    } else if n.child.Has(o) {
      var child;
      child, found := Delete(d, n.child.At(o), k + 1, p, path + [o]);
      KidFind(d, n, path, o, x);
      if !found {
        return n, false;
      }
      if IsEmpty(child) {
        KidDrop(d, n, path, o, x, child);
        r := n.(child := n.child.Remove(o));
      } else {
        KidPut(d, n, path, o, x, None, child);
        r := n.(child := n.child.Put(o, child));
      }
      WfChanged(d, n, r, path, x, None);
    } else {
      return n, false;
    }
  }

  lemma KidFind<V>(d: nat, n: Node<V>, path: seq<nat>, o: nat, x: Pos)
    requires Wf(d, n, path) && o < 256 && !n.leaf.Has(o) && n.child.Has(o) && Under(path + [o], x)
    ensures Wf(d, n.child.At(o), path + [o]) && Find(d, n, path, x) == Find(d, n.child.At(o), path + [o], x)
  {
    FindBySlot(d, n, path, o, x);
  }

  lemma LeafDiffers(d: nat, p: Prefix, q: Prefix)
    requires d > 0 && Valid(8 * d, p) && Valid(8 * d, q) && p != q
    ensures PosOf(Ceil, d, p) != PosOf(Ceil, d, q)
  {
    if PosOf(Ceil, d, p) == PosOf(Ceil, d, q) {
      PosInjective(Ceil, d, p, q);
    }
  }
}
