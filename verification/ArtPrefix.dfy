// artlpm's match for a whole prefix: the path down is kept on a stack, and unwinding it finds the longest
// stored prefix that contains the query.
module ArtPrefix {
  import opened Bits
  import opened Bitsets
  import opened Prefixes
  import opened Octets
  import opened Options
  import opened PathKeys
  import opened ArtSearch
  import opened ArtTrie
  import opened ArtLookup
  import opened ArtMap

  // idx is the longest member of the stride on the octet's path of at most len bits.
  ghost predicate IsTopWithin(s: seq<bool>, octet: nat, len: nat, idx: int)
    requires octet < 256
  {
    if idx < 0 then forall j :: 0 <= j < |s| && s[j] && Anc(j, octet) ==> IdxLen(j) > len
    else
      && idx < |s| && s[idx] && Anc(idx, octet) && IdxLen(idx) <= len
      && forall j :: 0 <= j < |s| && s[j] && Anc(j, octet) && IdxLen(j) <= len ==> IdxLen(j) <= IdxLen(idx)
  }

  // Climbs from an index towards the root of its stride.
  method Lpm(s: seq<bool>, octet: nat, len: nat) returns (idx: int)
    requires octet < 256 && len <= 8 && |s| == 512
    ensures idx < |s| && IsTopWithin(s, octet, len, idx)
  {
    var i: nat := PfxToIdx(octet, len);
    IdxLenOfPfx(octet, len);
    hide Anc, IdxLen;
    while i > 0
      invariant i < 512 && (i > 0 ==> Anc(i, octet) && IdxLen(i) <= len)
      invariant forall j :: 0 <= j < |s| && s[j] && Anc(j, octet) && IdxLen(j) <= len ==> i > 0 && IdxLen(j) <= IdxLen(i)
    {
      if s[i] {
        return i;
      }
      forall j | 0 <= j < |s| && s[j] && Anc(j, octet) && IdxLen(j) <= len
        ensures i >= 2 && IdxLen(j) <= IdxLen(i) - 1
      {
        AncOrder(j, i, octet);
        ShorterThan(j, i);
      }
      if i >= 2 {
        HalfIsAnc(i, octet);
      }
      i := i / 2;
    }
    return -1;
  }

  lemma ShorterThan(j: nat, i: nat)
    requires 1 <= j < i < 512 || (j != i && IdxLen(j) < IdxLen(i))
    ensures i >= 2
  {
  }

  // ---------------------------------------------------------------- hits no longer than the query

  ghost predicate Within<V>(d: nat, n: Node<V>, a: seq<nat>, cap: nat, x: Pos)
    requires Wf(d, n, [])
  {
    Hits(d, n, [], a, x) && PosLen(x) <= cap
  }

  ghost predicate BestWithin<V>(d: nat, n: Node<V>, a: seq<nat>, cap: nat, r: Option<V>)
    requires Wf(d, n, [])
  {
    if exists x :: Within(d, n, a, cap, x)
    then exists x :: Within(d, n, a, cap, x) && r == Find(d, n, [], x)
                     && forall y :: Within(d, n, a, cap, y) ==> PosLen(y) <= PosLen(x)
    else r == None
  }

  // The stack holds the nodes on the key's path, each seeing what the root sees below it.
  ghost predicate OnPath<V>(d: nat, root: Node<V>, a: seq<nat>, stack: seq<Node<V>>)
    requires Wf(d, root, [])
  {
    && |stack| <= d == |a|
    && forall i :: 0 <= i < |stack| ==> Wf(d, stack[i], a[..i]) && Sees(d, root, stack[i], a[..i])
  }

  ghost predicate Sees<V>(d: nat, root: Node<V>, n: Node<V>, path: seq<nat>)
    requires Wf(d, root, []) && Wf(d, n, path)
  {
    forall x | Under(path, x) :: Find(d, root, [], x) == Find(d, n, path, x)
  }

  // Below the last stride of the query no stored prefix is short enough.
  lemma CapDepth<V>(d: nat, n: Node<V>, a: seq<nat>, cap: nat, x: Pos)
    requires d > 0 && Wf(d, n, []) && Within(d, n, a, cap, x)
    ensures |x.path| <= Depth(Ceil, cap) && Canonical(Ceil, d, x)
  {
    FindCanonical(d, n, [], x);
  }

  // A hit at a depth on the stack is a set bit of that node on the key's octet.
  lemma LevelHit<V>(d: nat, root: Node<V>, a: seq<nat>, stack: seq<Node<V>>, x: Pos)
    requires Wf(d, root, []) && IsKey(a) && OnPath(d, root, a, stack) && |x.path| < |stack|
    ensures Hits(d, root, [], a, x) <==>
              x.path == a[..|x.path|] && stack[|x.path|].pfx.Has(x.idx) && Anc(x.idx, a[|x.path|])
  {
    var k := |x.path|;
    if x.path == a[..k] {
      OwnHit(d, stack[k], a[..k], a, x);
      assert Under(a[..k], x);
      assert Find(d, root, [], x) == Find(d, stack[k], a[..k], x);
    }
  }

  // ---------------------------------------------------------------- unwinding

  // No hit short enough lies at depth k or deeper.
  ghost predicate NoneFrom<V>(d: nat, root: Node<V>, a: seq<nat>, cap: nat, k: nat)
    requires Wf(d, root, [])
  {
    forall x: Pos :: Within(d, root, a, cap, x) ==> |x.path| < k
  }

  // How much of a stride at depth k the query leaves room for.
  function Room(cap: nat, k: nat): (r: nat)
    ensures r <= 8
  {
    if k == Depth(Ceil, cap) then (if cap == 0 then 0 else cap - 8 * k) else 8
  }

  lemma FitsRoom(cap: nat, k: nat, idx: nat)
    requires k <= Depth(Ceil, cap)
    ensures 8 * k + IdxLen(idx) <= cap <==> IdxLen(idx) <= Room(cap, k)
  {
  }

  lemma TopFound<V>(d: nat, root: Node<V>, a: seq<nat>, stack: seq<Node<V>>, cap: nat, k: nat, idx: nat)
    requires d > 0 && Wf(d, root, []) && IsKey(a) && OnPath(d, root, a, stack) && k < |stack| && k <= Depth(Ceil, cap)
    requires NoneFrom(d, root, a, cap, k + 1) && Sized(stack[k])
    requires idx < 512 && IsTopWithin(stack[k].pfx.bits, a[k], Room(cap, k), idx)
    ensures BestWithin(d, root, a, cap, Some(stack[k].pfx.At(idx)))
  {
    var x := Pos(a[..k], idx);
    LevelHit(d, root, a, stack, x);
    FitsRoom(cap, k, idx);
    FindOwn(d, stack[k], a[..k], x);
    assert Under(a[..k], x);
    assert Find(d, root, [], x) == Find(d, stack[k], a[..k], x);
    forall y: Pos | Within(d, root, a, cap, y) ensures PosLen(y) <= PosLen(x) {
      if |y.path| == k {
        LevelHit(d, root, a, stack, y);
        FitsRoom(cap, k, y.idx);
      } else {
        CapDepth(d, root, a, cap, y);
        DeeperLonger(d, root, a, x, y, idx);
      }
    }
    assert Within(d, root, a, cap, x);
  }

  // A prefix of an earlier stride is no longer than one of a later stride.
  lemma DeeperLonger<V>(d: nat, root: Node<V>, a: seq<nat>, x: Pos, y: Pos, idx: nat)
    requires d > 0 && Wf(d, root, []) && Hits(d, root, [], a, x) && |y.path| < |x.path|
    ensures PosLen(y) <= PosLen(x)
  {
  }

  lemma NotFound<V>(d: nat, root: Node<V>, a: seq<nat>, stack: seq<Node<V>>, cap: nat, k: nat)
    requires d > 0 && Wf(d, root, []) && IsKey(a) && OnPath(d, root, a, stack) && k < |stack| && k <= Depth(Ceil, cap)
    requires NoneFrom(d, root, a, cap, k + 1) && Sized(stack[k])
    requires IsTopWithin(stack[k].pfx.bits, a[k], Room(cap, k), -1)
    ensures NoneFrom(d, root, a, cap, k)
  {
    forall y: Pos | Within(d, root, a, cap, y) ensures |y.path| < k {
      if |y.path| == k {
        LevelHit(d, root, a, stack, y);
        FitsRoom(cap, k, y.idx);
      }
    }
  }

  // Tries the stack from the deepest node up.
  method Unwind<V>(d: nat, ghost root: Node<V>, key: nat, stack: seq<Node<V>>, cap: nat) returns (r: Option<V>)
    requires d > 0 && Wf(d, root, []) && key < Pow2(8 * d) && OnPath(d, root, KeyOctets(d, key), stack)
    requires |stack| <= Depth(Ceil, cap) + 1 && NoneFrom(d, root, KeyOctets(d, key), cap, |stack|)
    ensures BestWithin(d, root, KeyOctets(d, key), cap, r)
  {
    ghost var a := KeyOctets(d, key);
    hide Wf, KeyOctets, BestWithin, NoneFrom, IsTopWithin, Sees;
    var k: nat := |stack|;
    while k > 0
      invariant k <= |stack| && NoneFrom(d, root, a, cap, k)
    {
      k := k - 1;
      var n := stack[k];
      WfBounds(d, n, a[..k]);
      if n.pfx.items == [] {
        NoPrefixes(n.pfx, a[k], Room(cap, k));
        NotFound(d, root, a, stack, cap, k);
      } else {
        var idx := Lpm(n.pfx.bits, OctetAt(d, key, k), Room(cap, k));
        if idx >= 0 {
          TopIsSet(n.pfx.bits, a[k], Room(cap, k), idx);
          TopFound(d, root, a, stack, cap, k, idx);
          return Some(n.pfx.At(idx));
        }
        NegativeTop(n.pfx.bits, a[k], Room(cap, k), idx);
        NotFound(d, root, a, stack, cap, k);
      }
    }
    NoneAtAll(d, root, a, cap);
    r := None;
  }

  lemma NoPrefixes<V>(s: Sparse<V>, octet: nat, len: nat)
    requires s.Wf(512) && s.items == [] && octet < 256
    ensures IsTopWithin(s.bits, octet, len, -1)
  {
    forall j | 0 <= j < 512 ensures !s.bits[j] {
      NoItems(s, j);
    }
  }

  lemma TopIsSet(s: seq<bool>, octet: nat, len: nat, idx: int)
    requires octet < 256 && idx >= 0 && IsTopWithin(s, octet, len, idx)
    ensures idx < |s| && s[idx]
  {
  }

  lemma NegativeTop(s: seq<bool>, octet: nat, len: nat, idx: int)
    requires octet < 256 && idx < 0 && IsTopWithin(s, octet, len, idx)
    ensures IsTopWithin(s, octet, len, -1)
  {
  }

  lemma NoneAtAll<V>(d: nat, root: Node<V>, a: seq<nat>, cap: nat)
    requires Wf(d, root, []) && NoneFrom(d, root, a, cap, 0)
    ensures BestWithin(d, root, a, cap, None)
  {
    forall x: Pos ensures !Within(d, root, a, cap, x) {
      assert |x.path| >= 0;
    }
  }

  // ---------------------------------------------------------------- descending

  // The walk down ends at the query's own stride, at an empty slot, or at a leaf.
  lemma StopsAt<V>(d: nat, root: Node<V>, key: nat, stack: seq<Node<V>>, cap: nat, o: nat)
    requires d > 0 && Wf(d, root, []) && key < Pow2(8 * d) && OnPath(d, root, KeyOctets(d, key), stack) && |stack| > 0
    requires o == OctetAt(d, key, |stack| - 1) && Sized(stack[|stack| - 1])
    ensures |stack| == Depth(Ceil, cap) + 1 ==> NoneFrom(d, root, KeyOctets(d, key), cap, |stack|)
    ensures SlotAt(stack[|stack| - 1], o) == Nothing ==> NoneFrom(d, root, KeyOctets(d, key), cap, |stack|)
    ensures SlotAt(stack[|stack| - 1], o).Tail? ==>
              var lf := SlotAt(stack[|stack| - 1], o).lf;
              if lf.prefix.len <= cap && Covers(8 * d, lf.prefix, key)
              then BestWithin(d, root, KeyOctets(d, key), cap, Some(lf.val))
              else NoneFrom(d, root, KeyOctets(d, key), cap, |stack|)
  {
    var a, k := KeyOctets(d, key), |stack| - 1;
    var n := stack[k];
    assert a[..k] + [o] == a[..k + 1];
    forall x: Pos | Within(d, root, a, cap, x) && |x.path| > k
      ensures |x.path| <= Depth(Ceil, cap) && Under(a[..k] + [o], x) && Find(d, root, [], x) == Find(d, n, a[..k], x)
    {
      CapDepth(d, root, a, cap, x);
      assert x.path <= a;
      assert x.path[..k + 1] == a[..k + 1];
      assert Under(a[..k], x);
    }
    hide Within, Wf, Covers, PosOf, KeyOctets, OctetAt;
    if SlotAt(n, o) == Nothing {
      forall x: Pos | Within(d, root, a, cap, x) ensures |x.path| <= k {
        if |x.path| > k {
          NothingBelow(d, n, a[..k], o, x);
          FoundIt(d, root, a, cap, x);
        }
      }
    } else if SlotAt(n, o).Tail? {
      LeafEnds(d, root, n, key, a, k, o, cap);
    }
  }

  lemma FoundIt<V>(d: nat, n: Node<V>, a: seq<nat>, cap: nat, x: Pos)
    requires Wf(d, n, []) && Within(d, n, a, cap, x)
    ensures Find(d, n, [], x).Some? && PosCovers(x, a) && PosLen(x) <= cap
  {
  }

  lemma NothingBelow<V>(d: nat, n: Node<V>, path: seq<nat>, o: nat, x: Pos)
    requires Wf(d, n, path) && o < 256 && Under(path + [o], x) && SlotAt(n, o) == Nothing
    ensures Find(d, n, path, x) == None
  {
    FindBySlot(d, n, path, o, x);
  }

  lemma LeafEnds<V>(d: nat, root: Node<V>, n: Node<V>, key: nat, a: seq<nat>, k: nat, o: nat, cap: nat)
    requires d > 0 && Wf(d, root, []) && key < Pow2(8 * d) && a == KeyOctets(d, key) && k < d && o == a[k]
    requires Wf(d, n, a[..k]) && Sees(d, root, n, a[..k]) && SlotAt(n, o).Tail?
    requires forall x: Pos | Within(d, root, a, cap, x) && |x.path| > k :: Under(a[..k] + [o], x)
    ensures var lf := SlotAt(n, o).lf;
            if lf.prefix.len <= cap && Covers(8 * d, lf.prefix, key) then BestWithin(d, root, a, cap, Some(lf.val))
            else NoneFrom(d, root, a, cap, k + 1)
  {
    var lf := SlotAt(n, o).lf;
    SlotKinds(d, n, a[..k], o);
    var z := PosOf(Ceil, d, lf.prefix);
    PosCoversIsCovers(Ceil, d, lf.prefix, key);
    assert Under(a[..k] + [o], z) && Under(a[..k], z);
    assert |z.path| > k;
    FindBySlot(d, n, a[..k], o, z);
    hide PosOf, Covers, PosCovers;
    forall x: Pos | Within(d, root, a, cap, x) && |x.path| > k ensures x == z {
      FindBySlot(d, n, a[..k], o, x);
      assert Under(a[..k], x);
      assert Find(d, root, [], x) == Find(d, n, a[..k], x);
    }
    if lf.prefix.len <= cap && Covers(8 * d, lf.prefix, key) {
      assert Find(d, root, [], z) == Find(d, n, a[..k], z);
      assert Within(d, root, a, cap, z);
      forall y: Pos | Within(d, root, a, cap, y) ensures PosLen(y) <= PosLen(z) {
      }
    }
  }

  lemma PathGrows<V>(d: nat, root: Node<V>, key: nat, stack: seq<Node<V>>, o: nat, c: Node<V>)
    requires d > 0 && Wf(d, root, []) && OnPath(d, root, KeyOctets(d, key), stack) && |stack| > 0
    requires o == OctetAt(d, key, |stack| - 1) && Sized(stack[|stack| - 1]) && SlotAt(stack[|stack| - 1], o) == Kid(c)
    ensures OnPath(d, root, KeyOctets(d, key), stack + [c])
  {
    var a := KeyOctets(d, key);
    assert IsKey(a) && o == a[|stack| - 1] by { KeyIsKey(d, key); }
    hide *;
    PathGrowsAt(d, root, KeyOctets(d, key), stack, o, c);
  }

  lemma KeyIsKey(d: nat, key: nat)
    ensures IsKey(KeyOctets(d, key))
  {
  }

  lemma KeyOctet(a: seq<nat>, k: nat)
    requires IsKey(a) && k < |a|
    ensures a[k] < 256
  {
  }

  lemma PathGrowsAt<V>(d: nat, root: Node<V>, a: seq<nat>, stack: seq<Node<V>>, o: nat, c: Node<V>)
    requires Wf(d, root, []) && OnPath(d, root, a, stack) && |stack| > 0 && IsKey(a)
    requires o == a[|stack| - 1] && Sized(stack[|stack| - 1]) && SlotAt(stack[|stack| - 1], o) == Kid(c)
    ensures OnPath(d, root, a, stack + [c])
  {
    hide Wf, Sees, SlotAt, Find, Sized, IsKey;
    var k := |stack| - 1;
    var n, path, below := stack[k], a[..k], a[..k + 1];
    KeyOctet(a, k);
    assert path + [o] == below;
    KidSees(d, root, n, path, o, c, below);
    var grown := stack + [c];
    assert forall j :: 0 <= j < |stack| ==> grown[j] == stack[j];
  }

  lemma KidSees<V>(d: nat, root: Node<V>, n: Node<V>, path: seq<nat>, o: nat, c: Node<V>, below: seq<nat>)
    requires Wf(d, root, []) && Wf(d, n, path) && Sees(d, root, n, path) && o < 256
    requires below == path + [o] && Sized(n) && SlotAt(n, o) == Kid(c)
    ensures Wf(d, c, below) && Sees(d, root, c, below) && |below| < d
  {
    WfBySlots(d, n, path);
    assert SlotFits(d, SlotAt(n, o), path + [o]);
    forall x | Under(below, x) ensures Find(d, root, [], x) == Find(d, c, below, x) {
      assert Under(path, x);
      FindBySlot(d, n, path, o, x);
    }
  }

  method LookupPrefix<V>(d: nat, root: Node<V>, p: Prefix) returns (r: Option<V>)
    requires d > 0 && Wf(d, root, []) && Prefixes.Valid(8 * d, p)
    ensures BestWithin(d, root, KeyOctets(d, p.key), p.len, r)
  {
    var last := Depth(Ceil, p.len);
    ghost var a := KeyOctets(d, p.key);
    CeilPos(d, p);
    hide Wf, KeyOctets, BestWithin, NoneFrom, Covers, Sees, PosOf, Canonical;
    var stack := [root];
    assert OnPath(d, root, a, stack) by { RootSees(d, root, a); }
    while true
      invariant 0 < |stack| <= last + 1 && OnPath(d, root, a, stack)
      decreases last + 1 - |stack|
    {
      var k, n := |stack| - 1, stack[|stack| - 1];
      var o := OctetAt(d, p.key, k);
      SlotReads(d, n, a[..k], o);
      StopsAt(d, root, p.key, stack, p.len, o);
      if k == last {
        break;
      }
      if n.leaf.Has(o) {
        var lf := n.leaf.At(o);
        if lf.prefix.len <= p.len && Covers(8 * d, lf.prefix, p.key) {
          return Some(lf.val);
        }
        break;
      }
      if !n.child.Has(o) {
        break;
      }
      PathGrows(d, root, p.key, stack, o, n.child.At(o));
      stack := stack + [n.child.At(o)];
    }
    r := Unwind(d, root, p.key, stack, p.len);
  }

  lemma RootSees<V>(d: nat, root: Node<V>, a: seq<nat>)
    requires d > 0 && Wf(d, root, []) && |a| == d
    ensures OnPath(d, root, a, [root])
  {
    assert a[..0] == [];
  }

  // ---------------------------------------------------------------- in terms of the map

  // The longest stored prefix that contains the query.
  ghost predicate Contains<V>(w: nat, m: map<Prefix, V>, p: Prefix, r: Option<V>) {
    match r
    case None => forall q <- m.Keys :: !Contained(w, q, p)
    case Some(v) => exists q <- m.Keys :: LongestContaining(w, m.Keys, p, q) && m[q] == v
  }

  ghost predicate LongestContaining(w: nat, qs: set<Prefix>, p: Prefix, q: Prefix) {
    q in qs && Contained(w, q, p) && forall s <- qs :: Contained(w, s, p) ==> s.len <= q.len
  }

  predicate Contained(w: nat, q: Prefix, p: Prefix) {
    q.len <= p.len && Covers(w, q, p.key)
  }

  lemma BestIsContaining<V>(d: nat, n: Node<V>, m: map<Prefix, V>, p: Prefix, r: Option<V>)
    requires Stores(d, n, m) && Prefixes.Valid(8 * d, p) && BestWithin(d, n, KeyOctets(d, p.key), p.len, r)
    ensures Contains(8 * d, m, p, r)
  {
    var a := KeyOctets(d, p.key);
    if x :| Within(d, n, a, p.len, x) && r == Find(d, n, [], x)
            && forall y :: Within(d, n, a, p.len, y) ==> PosLen(y) <= PosLen(x) {
      var q := HitIsMember(d, n, m, p.key, x);
      hide PosOf, Wf, Find, Prefixes.Valid, Covers, KeyOctets, PosCovers, Hits, Within, Contained;
      forall s | s in m.Keys && Contained(8 * d, s, p) ensures s.len <= q.len {
        MemberWithin(d, n, m, p, s);
      }
      assert LongestContaining(8 * d, m.Keys, p, q) by { WithinContained(d, n, p, a, x, q); }
    } else {
      hide PosOf, Wf, Find, Prefixes.Valid, Covers, KeyOctets, PosCovers, Hits, Within, Contained;
      forall s | s in m.Keys ensures !Contained(8 * d, s, p) {
        MemberWithin(d, n, m, p, s);
      }
    }
  }

  lemma MemberWithin<V>(d: nat, n: Node<V>, m: map<Prefix, V>, p: Prefix, s: Prefix)
    requires Stores(d, n, m) && Prefixes.Valid(8 * d, p) && s in m
    ensures s.len <= 8 * d && PosLen(PosOf(Ceil, d, s)) == s.len
    ensures Contained(8 * d, s, p) ==> Within(d, n, KeyOctets(d, p.key), p.len, PosOf(Ceil, d, s))
  {
    assert Prefixes.Valid(8 * d, s);
    if Contained(8 * d, s, p) {
      hide PosOf, Wf, Find, Covers, KeyOctets, PosCovers;
      MemberIsHit(d, n, m, p.key, s);
    }
  }

  lemma WithinContained<V>(d: nat, n: Node<V>, p: Prefix, a: seq<nat>, x: Pos, q: Prefix)
    requires Wf(d, n, []) && Within(d, n, a, p.len, x) && PosLen(x) == q.len && Covers(8 * d, q, p.key)
    ensures Contained(8 * d, q, p)
  {
  }
}
