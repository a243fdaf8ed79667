// The descent through flatart's arenas as a function, what it means for a reference to answer
// for a subtree, and why growing or patching the arenas above it cannot change that answer.
module FlatWalk {
  import opened Bits
  import opened Options
  import opened Prefixes
  import opened Octets
  import opened Bitsets
  import opened FlatIndex
  import opened PathKeys

  function Strides(is4: bool): nat {
    if is4 then 4 else 16
  }

  function Width(is4: bool): nat {
    8 * Strides(is4)
  }

  function Leaves(a: Arena, is4: bool): seq<Leaf> {
    if is4 then a.leaf4 else a.leaf6
  }

  // The leaf's own prefix if it covers the key, and otherwise what the leaf inherited.
  function LeafValue(is4: bool, lf: Leaf, key: nat): nat {
    if Covers(Width(is4), Prefix(lf.key, lf.bits), key) then lf.value else lf.inherit
  }

  predicate HasKid(n: Node, o: nat)
    requires NodeWf(n) && o < 256
  {
    n.groups[o / 64].mask[o % 64]
  }

  // The group's first child plus the children below o within the group.
  function KidIndex(n: Node, o: nat): nat
    requires NodeWf(n) && o < 256
  {
    n.groups[o / 64].slot + Count(n.groups[o / 64].mask[..o % 64])
  }

  // The value a reference resolves to for a key from octet i on.  Only nodes from fn on and
  // child references from fr on may be visited, and a child reference is never a terminal
  // value; None is a descent that breaks these rules.
  function Walk(a: Arena, is4: bool, fn: nat, fr: nat, slot: nat, key: nat, i: nat): Option<nat>
    decreases Strides(is4) - i
  {
    if i >= Strides(is4) then None
    else
      var o := OctetAt(Strides(is4), key, i);
      if slot >= TAG_STOP then
        var at := slot - TAG_STOP;
        if at < |a.stops| && StopWf(a.stops[at]) then Some(ResolveStop(a.stops[at], o)) else None
      else if slot < TAG_NODE then Some(slot)
      else if slot >= TAG_LEAF then
        var at := slot - TAG_LEAF;
        if at < |Leaves(a, is4)| then Some(LeafValue(is4, Leaves(a, is4)[at], key)) else None
      else
        var at := slot - TAG_NODE;
        if fn <= at < |a.nodes| && NodeWf(a.nodes[at]) then
          if !HasKid(a.nodes[at], o) then Some(ResolveNode(a.nodes[at], o))
          else
            var r := KidIndex(a.nodes[at], o);
            if fr <= r < |a.refs| && a.refs[r] >= TAG_NODE then Walk(a, is4, fn, fr, a.refs[r], key, i + 1) else None
        else None
  }

  // ---------------------------------------------------------------- one stored prefix

  // A position a prefix longer than the root can be stored at.
  ghost predicate Spot(is4: bool, x: Pos) {
    |x.path| < Strides(is4) && IsKey(x.path) && 2 <= x.idx < 512
  }

  lemma SpotPrefix(is4: bool, x: Pos)
    requires Spot(is4, x)
    ensures 1 <= x.idx < 512 && |x.path| < Strides(is4) && PosPrefix(Strides(is4), x).len <= Width(is4)
    ensures Valid(Width(is4), PosPrefix(Strides(is4), x)) && PosOf(Ceil, Strides(is4), PosPrefix(Strides(is4), x)) == x
  {
    PosRoundTrip(Ceil, Strides(is4), x);
    hide PosPrefix, PosOf;
    LengthFits(Width(is4), PosPrefix(Strides(is4), x));
  }

  // The value of one of a stride's own indices: members own consecutive values in index order.
  function Member(host: seq<bool>, short: seq<bool>, hostBase: nat, shortBase: nat, idx: nat): nat
    requires idx < 512 && |host| == 256 && |short| == 256
  {
    if idx >= 256 then (if host[idx - 256] then hostBase + Rank(host, idx - 256) else 0)
    else if short[idx] then shortBase + Rank(short, idx)
    else 0
  }

  // A set whose members all have values of their own, behind prefix sums that agree with it.
  ghost predicate Packed(bits: seq<bool>, base: nat, pre: nat) {
    |bits| == 256 && pre == PackPrefixSums(bits) && forall i :: 0 <= i < 256 && bits[i] ==> base + Rank(bits, i) > 0
  }

  // Both sets of a stride; no prefix has index zero.
  ghost predicate StridePacked(host: seq<bool>, short: seq<bool>, hostBase: nat, shortBase: nat, hostPre: nat, shortPre: nat) {
    Packed(host, hostBase, hostPre) && Packed(short, shortBase, shortPre) && !short[0]
  }

  ghost predicate NodePacked(n: Node) {
    && NodeWf(n)
    && StridePacked(n.host, n.short, n.groups[0].aux, n.groups[1].aux, n.groups[2].aux, n.groups[3].aux)
  }

  ghost predicate StopPacked(s: Stop) {
    StridePacked(s.host, s.short, s.hostBase, s.shortBase, s.hostPre, s.shortPre)
  }

  // A leaf's prefix has a value of its own and lies below the path that leads to the leaf.
  ghost predicate LeafFits(is4: bool, lf: Leaf, path: seq<nat>) {
    && lf.value > 0 && lf.bits <= Width(is4) && Valid(Width(is4), Prefix(lf.key, lf.bits))
    && Spot(is4, PosOf(Ceil, Strides(is4), Prefix(lf.key, lf.bits)))
    && path <= PosOf(Ceil, Strides(is4), Prefix(lf.key, lf.bits)).path
  }

  function NodeMember(n: Node, idx: nat): nat
    requires NodeWf(n) && idx < 512
  {
    Member(n.host, n.short, n.groups[0].aux, n.groups[1].aux, idx)
  }

  function StopMember(s: Stop, idx: nat): nat
    requires StopWf(s) && idx < 512
  {
    Member(s.host, s.short, s.hostBase, s.shortBase, idx)
  }

  // The value stored for exactly the position x, zero when there is none, descending from octet i on
  // under the same rules as Walk.
  ghost function ExactWalk(a: Arena, is4: bool, fn: nat, fr: nat, slot: nat, x: Pos, i: nat): Option<nat>
    decreases |x.path| - i
  {
    if i > |x.path| || |x.path| >= Strides(is4) || x.idx >= 512 then None
    else if slot >= TAG_STOP then
      var at := slot - TAG_STOP;
      if at < |a.stops| && StopPacked(a.stops[at])
      then Some(if i == |x.path| then StopMember(a.stops[at], x.idx) else 0) else None
    else if slot < TAG_NODE then Some(0)
    else if slot >= TAG_LEAF then
      var at := slot - TAG_LEAF;
      if at < |Leaves(a, is4)| && x.idx > 0 && LeafFits(is4, Leaves(a, is4)[at], x.path[..i])
      then Some(LeafMember(is4, Leaves(a, is4)[at], x)) else None
    else
      var at := slot - TAG_NODE;
      if fn <= at < |a.nodes| && NodePacked(a.nodes[at]) then
        if i == |x.path| then Some(NodeMember(a.nodes[at], x.idx))
        else if x.path[i] >= 256 then None
        else if !HasKid(a.nodes[at], x.path[i]) then Some(0)
        else
          var r := KidIndex(a.nodes[at], x.path[i]);
          if fr <= r < |a.refs| && a.refs[r] >= TAG_NODE then ExactWalk(a, is4, fn, fr, a.refs[r], x, i + 1) else None
      else None
  }

  // A leaf stores one prefix.
  function LeafMember(is4: bool, lf: Leaf, x: Pos): nat
    requires |x.path| < Strides(is4) && 1 <= x.idx < 512
  {
    if Prefix(lf.key, lf.bits) == PosPrefix(Strides(is4), x) then lf.value else 0
  }

  // b keeps everything of a that a descent above the floors can read.
  ghost predicate Keeps(a: Arena, b: Arena, fn: nat, fr: nat) {
    && |a.nodes| <= |b.nodes| && (forall j :: fn <= j < |a.nodes| ==> b.nodes[j] == a.nodes[j])
    && |a.refs| <= |b.refs| && (forall j :: fr <= j < |a.refs| ==> b.refs[j] == a.refs[j])
    && a.stops <= b.stops && a.leaf4 <= b.leaf4 && a.leaf6 <= b.leaf6
  }

  // Growing the arenas, or patching them below the floors, does not disturb a descent.
  lemma {:induction false} WalkKept(a: Arena, b: Arena, is4: bool, fn: nat, fr: nat, gn: nat, gr: nat,
                                    slot: nat, key: nat, i: nat)
    requires Walk(a, is4, fn, fr, slot, key, i).Some? && Keeps(a, b, fn, fr) && gn <= fn && gr <= fr
    ensures Walk(b, is4, gn, gr, slot, key, i) == Walk(a, is4, fn, fr, slot, key, i)
    decreases Strides(is4) - i
  {
    hide OctetAt, ResolveNode, ResolveStop, LeafValue, KidIndex, HasKid;
    if TAG_NODE <= slot < TAG_LEAF {
      var at := slot - TAG_NODE;
      var o := OctetAt(Strides(is4), key, i);
      if HasKid(a.nodes[at], o) {
        WalkKept(a, b, is4, fn, fr, gn, gr, a.refs[KidIndex(a.nodes[at], o)], key, i + 1);
      }
    }
  }

  lemma {:induction false} ExactWalkKept(a: Arena, b: Arena, is4: bool, fn: nat, fr: nat, gn: nat, gr: nat,
                                         slot: nat, x: Pos, i: nat)
    requires ExactWalk(a, is4, fn, fr, slot, x, i).Some? && Keeps(a, b, fn, fr) && gn <= fn && gr <= fr
    ensures ExactWalk(b, is4, gn, gr, slot, x, i) == ExactWalk(a, is4, fn, fr, slot, x, i)
    decreases |x.path| - i
  {
    hide NodeMember, StopMember, LeafMember, KidIndex, HasKid, PackPrefixSums, PosPrefix;
    if TAG_NODE <= slot < TAG_LEAF && i < |x.path| {
      var at := slot - TAG_NODE;
      if x.path[i] < 256 && HasKid(a.nodes[at], x.path[i]) {
        ExactWalkKept(a, b, is4, fn, fr, gn, gr, a.refs[KidIndex(a.nodes[at], x.path[i])], x, i + 1);
      }
    }
  }

  // For one key under path, the reference resolves to the longest of the subtree's prefixes
  // covering the key, or to what the subtree inherited.
  ghost predicate KeyRight(a: Arena, is4: bool, fn: nat, fr: nat, slot: nat, key: nat,
                           m: map<Pos, nat>, path: seq<nat>, refOf: seq<nat>, inherit: nat)
    requires inherit < |refOf|
  {
    match Walk(a, is4, fn, fr, slot, key, |path|)
    case None => false
    case Some(v) =>
      v < |refOf| && AnswersOr(Sub(m, path), KeyOctets(Strides(is4), key), refOf[inherit], refOf[v])
  }

  ghost predicate Under(is4: bool, key: nat, path: seq<nat>) {
    key < Pow2(Width(is4)) && path <= KeyOctets(Strides(is4), key)
  }

  ghost predicate KeysRight(a: Arena, is4: bool, fn: nat, fr: nat, slot: nat,
                            m: map<Pos, nat>, path: seq<nat>, refOf: seq<nat>, inherit: nat)
    requires inherit < |refOf|
  {
    forall key | Under(is4, key, path) :: KeyRight(a, is4, fn, fr, slot, key, m, path, refOf, inherit)
  }

  // For one position under path, the reference finds its prefix's value, and zero if there is none.
  ghost predicate SpotRight(a: Arena, is4: bool, fn: nat, fr: nat, slot: nat, x: Pos,
                            m: map<Pos, nat>, path: seq<nat>, refOf: seq<nat>)
  {
    match ExactWalk(a, is4, fn, fr, slot, x, |path|)
    case None => false
    case Some(v) => if x in m then 0 < v < |refOf| && refOf[v] == m[x] else v == 0
  }

  ghost predicate SpotsRight(a: Arena, is4: bool, fn: nat, fr: nat, slot: nat,
                             m: map<Pos, nat>, path: seq<nat>, refOf: seq<nat>)
  {
    forall x: Pos | Spot(is4, x) && path <= x.path :: SpotRight(a, is4, fn, fr, slot, x, m, path, refOf)
  }

  // The reference answers every key and finds every prefix of the subtree.
  ghost predicate SubtreeRight(a: Arena, is4: bool, fn: nat, fr: nat, slot: nat,
                               m: map<Pos, nat>, path: seq<nat>, refOf: seq<nat>, inherit: nat)
  {
    && inherit < |refOf| && KeysRight(a, is4, fn, fr, slot, m, path, refOf, inherit)
    && SpotsRight(a, is4, fn, fr, slot, m, path, refOf)
  }

  lemma SubtreeKept(a: Arena, b: Arena, is4: bool, fn: nat, fr: nat, gn: nat, gr: nat, slot: nat,
                    m: map<Pos, nat>, path: seq<nat>, refOf: seq<nat>, refOf': seq<nat>, inherit: nat)
    requires SubtreeRight(a, is4, fn, fr, slot, m, path, refOf, inherit)
    requires Keeps(a, b, fn, fr) && gn <= fn && gr <= fr && refOf <= refOf'
    ensures SubtreeRight(b, is4, gn, gr, slot, m, path, refOf', inherit)
  {
    hide Walk, ExactWalk, Keeps, AnswersOr, Under, Spot;
    forall key | Under(is4, key, path)
      ensures KeyRight(b, is4, gn, gr, slot, key, m, path, refOf', inherit)
    {
      assert KeyRight(a, is4, fn, fr, slot, key, m, path, refOf, inherit);
      WalkKept(a, b, is4, fn, fr, gn, gr, slot, key, |path|);
    }
    forall x: Pos | Spot(is4, x) && path <= x.path ensures SpotRight(b, is4, gn, gr, slot, x, m, path, refOf') {
      assert SpotRight(a, is4, fn, fr, slot, x, m, path, refOf);
      ExactWalkKept(a, b, is4, fn, fr, gn, gr, slot, x, |path|);
    }
  }

  // The prefixes below an octet beat the stride's own, which beat what it inherited.
  lemma Combine(m: map<Pos, nat>, path: seq<nat>, a: seq<nat>, default: nat, own: nat, id: nat)
    requires path <= a && |path| < |a|
    requires forall x <- m :: x.idx < 512
    requires AnswersOr(Own(m, path), a, default, own)
    requires AnswersOr(Sub(m, path + [a[|path|]]), a, own, id)
    ensures AnswersOr(Sub(m, path), a, default, id)
  {
    var below := path + [a[|path|]];
    var all, deep, mine := Sub(m, path), Sub(m, below), Own(m, path);
    assert forall x <- deep :: path <= below <= x.path;
    forall x <- all | PosCovers(x, a) ensures x in deep || x in mine {
      if |x.path| > |path| {
        assert below <= x.path;
      }
    }
    if p :| p in deep.Keys && PosCovers(p, a) {
      var q :| q in deep.Keys && PosLongest(deep.Keys, a, q) && deep[q] == id;
      assert PosLongest(all.Keys, a, q);
    } else if p :| p in mine.Keys && PosCovers(p, a) {
      var q :| q in mine.Keys && PosLongest(mine.Keys, a, q) && mine[q] == own;
      assert PosLongest(all.Keys, a, q);
    }
  }
}
