// flatart's enumeration: the table of short prefixes, then every subtree below the root, each stride's
// own prefixes before its children's; every inserted prefix comes out once, with its value.
module FlatAll {
  import opened Bits
  import opened Options
  import opened Prefixes
  import opened Octets
  import opened Bitsets
  import opened PathKeys
  import opened Listing
  import opened FlatIndex
  import opened FlatWalk
  import opened FlatBuild
  import opened FlatRoot
  import opened FlatExact

  // ---------------------------------------------------------------- what is listed below a reference

  ghost predicate Below(is4: bool, path: seq<nat>, x: Pos) {
    Spot(is4, x) && path <= x.path
  }

  // The value stored at a position below the path that leads to the reference.
  ghost function Value(a: Arena, is4: bool, slot: nat, path: seq<nat>, x: Pos): nat {
    match ExactWalk(a, is4, 0, 0, slot, x, |path|)
    case Some(v) => v
    case None => 0
  }

  // Every descent below the path obeys the arenas' rules.
  ghost predicate Sound(a: Arena, is4: bool, slot: nat, path: seq<nat>) {
    && IsKey(path) && |path| < Strides(is4) && slot >= TAG_NODE
    && (forall x: Pos | Below(is4, path, x) :: ExactWalk(a, is4, 0, 0, slot, x, |path|).Some?)
    && forall key | Under(is4, key, path) :: Walk(a, is4, 0, 0, slot, key, |path|).Some?
  }

  ghost predicate Stands(a: Arena, is4: bool, slot: nat, path: seq<nat>, x: Pos, e: Entry<nat>) {
    && Below(is4, path, x) && e.val > 0 && e.val == Value(a, is4, slot, path, x)
    && e.prefix == PosPrefix(Strides(is4), x)
  }

  ghost predicate Apart(spots: seq<Pos>) {
    forall i, j :: 0 <= i < j < |spots| ==> spots[i] != spots[j]
  }

  ghost predicate Tells(a: Arena, is4: bool, slot: nat, path: seq<nat>, spots: seq<Pos>, out: seq<Entry<nat>>) {
    && |out| == |spots| && Apart(spots)
    && forall i :: 0 <= i < |spots| ==> Stands(a, is4, slot, path, spots[i], out[i])
  }

  // How far the enumeration of a stride has come: its full octets, its partial indices, its children.
  ghost predicate Reached(path: seq<nat>, hosts: nat, shorts: nat, kids: nat, x: Pos) {
    if |x.path| <= |path| then (if x.idx >= 256 then x.idx - 256 < hosts else x.idx < shorts)
    else x.path[|path|] < kids
  }

  ghost predicate ListsTo(a: Arena, is4: bool, slot: nat, path: seq<nat>, hosts: nat, shorts: nat, kids: nat,
                          spots: seq<Pos>, out: seq<Entry<nat>>) {
    && Tells(a, is4, slot, path, spots, out)
    && forall x: Pos | Below(is4, path, x) && Value(a, is4, slot, path, x) > 0 ::
         x in spots <==> Reached(path, hosts, shorts, kids, x)
  }

  ghost predicate ListsAll(a: Arena, is4: bool, slot: nat, path: seq<nat>, spots: seq<Pos>, out: seq<Entry<nat>>) {
    && Tells(a, is4, slot, path, spots, out)
    && forall x: Pos | Below(is4, path, x) && Value(a, is4, slot, path, x) > 0 :: x in spots
  }

  lemma ListsNone(a: Arena, is4: bool, slot: nat, path: seq<nat>)
    ensures ListsTo(a, is4, slot, path, 0, 0, 0, [], [])
  {
  }

  // One more position of the stride.
  lemma ListsOne(a: Arena, is4: bool, slot: nat, path: seq<nat>, hosts: nat, shorts: nat, hosts1: nat, shorts1: nat,
                 spots: seq<Pos>, out: seq<Entry<nat>>, x: Pos, e: Entry<nat>)
    requires ListsTo(a, is4, slot, path, hosts, shorts, 0, spots, out)
    requires Stands(a, is4, slot, path, x, e) && x.path == path
    requires if x.idx >= 256 then hosts1 == hosts + 1 == x.idx - 255 && shorts1 == shorts
             else shorts1 == shorts + 1 == x.idx + 1 && hosts1 == hosts
    ensures ListsTo(a, is4, slot, path, hosts1, shorts1, 0, spots + [x], out + [e])
  {
    hide Stands, Below, Tells, Value;
    Standing(a, is4, slot, path, x, e);
    assert x !in spots;
    TellsOne(a, is4, slot, path, spots, out, x, e);
    forall y: Pos | Below(is4, path, y) && Value(a, is4, slot, path, y) > 0
      ensures y in spots + [x] <==> Reached(path, hosts1, shorts1, 0, y)
    {
      assert y in spots <==> Reached(path, hosts, shorts, 0, y);
      if |y.path| <= |path| {
        assert y.path == path by { BelowSame(is4, path, y); }
      }
    }
  }

  lemma TellsOne(a: Arena, is4: bool, slot: nat, path: seq<nat>, spots: seq<Pos>, out: seq<Entry<nat>>, x: Pos,
                 e: Entry<nat>)
    requires Tells(a, is4, slot, path, spots, out) && Stands(a, is4, slot, path, x, e) && x !in spots
    ensures Tells(a, is4, slot, path, spots + [x], out + [e])
  {
    hide Stands;
  }

  lemma Standing(a: Arena, is4: bool, slot: nat, path: seq<nat>, x: Pos, e: Entry<nat>)
    requires Stands(a, is4, slot, path, x, e)
    ensures Below(is4, path, x) && Value(a, is4, slot, path, x) > 0
  {
  }

  lemma BelowSame(is4: bool, path: seq<nat>, y: Pos)
    requires Below(is4, path, y) && |y.path| <= |path|
    ensures y.path == path
  {
  }

  // An index without a prefix adds nothing.
  lemma ListsSkip(a: Arena, is4: bool, slot: nat, path: seq<nat>, hosts: nat, shorts: nat, hosts1: nat, shorts1: nat,
                  spots: seq<Pos>, out: seq<Entry<nat>>, x: Pos)
    requires ListsTo(a, is4, slot, path, hosts, shorts, 0, spots, out)
    requires x.path == path && (Below(is4, path, x) ==> Value(a, is4, slot, path, x) == 0)
    requires if x.idx >= 256 then hosts1 == hosts + 1 == x.idx - 255 && shorts1 == shorts
             else shorts1 == shorts + 1 == x.idx + 1 && hosts1 == hosts
    ensures ListsTo(a, is4, slot, path, hosts1, shorts1, 0, spots, out)
  {
    hide Tells, Below, Value;
    forall y: Pos | Below(is4, path, y) && Value(a, is4, slot, path, y) > 0
      ensures y in spots <==> Reached(path, hosts1, shorts1, 0, y)
    {
      assert y in spots <==> Reached(path, hosts, shorts, 0, y);
      if |y.path| <= |path| {
        assert y.path == path by { BelowSame(is4, path, y); }
      }
    }
  }

  // A child's list continues its parent's.
  lemma ListsKid(a: Arena, is4: bool, slot: nat, path: seq<nat>, o: nat, ref: nat, spots: seq<Pos>, out: seq<Entry<nat>>,
                 spots1: seq<Pos>, out1: seq<Entry<nat>>)
    requires ListsTo(a, is4, slot, path, 256, 256, o, spots, out)
    requires ListsAll(a, is4, ref, path + [o], spots1, out1)
    requires forall x: Pos | Below(is4, path + [o], x) ::
               Value(a, is4, slot, path, x) == Value(a, is4, ref, path + [o], x)
    ensures ListsTo(a, is4, slot, path, 256, 256, o + 1, spots + spots1, out + out1)
  {
    BelowKids(is4, path, o);
    hide Below, Value;
    KidTells(a, is4, slot, path, o, ref, spots, out, spots1, out1);
    hide Tells;
    forall x: Pos | Below(is4, path, x) && Value(a, is4, slot, path, x) > 0
      ensures x in spots + spots1 <==> Reached(path, 256, 256, o + 1, x)
    {
      assert x in spots <==> Reached(path, 256, 256, o, x);
      KidSpots(a, is4, ref, path + [o], spots1, out1, x);
    }
  }

  lemma KidSpots(a: Arena, is4: bool, ref: nat, path: seq<nat>, spots: seq<Pos>, out: seq<Entry<nat>>, x: Pos)
    requires ListsAll(a, is4, ref, path, spots, out)
    ensures x in spots ==> Below(is4, path, x)
    ensures Below(is4, path, x) && Value(a, is4, ref, path, x) > 0 ==> x in spots
  {
    hide Below, Value;
  }

  // Below the path at octet o is below its child there.
  ghost predicate AtOctet(is4: bool, path: seq<nat>, o: nat, x: Pos) {
    Below(is4, path, x) && |x.path| > |path| && x.path[|path|] == o
  }

  lemma BelowKids(is4: bool, path: seq<nat>, o: nat)
    ensures forall x: Pos :: Below(is4, path + [o], x) <==> AtOctet(is4, path, o, x)
  {
    forall x: Pos | Below(is4, path + [o], x) ensures AtOctet(is4, path, o, x) {
      assert x.path[|path|] == (path + [o])[|path|];
    }
  }

  lemma KidTells(a: Arena, is4: bool, slot: nat, path: seq<nat>, o: nat, ref: nat, spots: seq<Pos>, out: seq<Entry<nat>>,
                 spots1: seq<Pos>, out1: seq<Entry<nat>>)
    requires ListsTo(a, is4, slot, path, 256, 256, o, spots, out)
    requires Tells(a, is4, ref, path + [o], spots1, out1)
    requires forall x: Pos | Below(is4, path + [o], x) ::
               Value(a, is4, slot, path, x) == Value(a, is4, ref, path + [o], x)
    requires forall x: Pos :: Below(is4, path + [o], x) <==> AtOctet(is4, path, o, x)
    ensures Tells(a, is4, slot, path, spots + spots1, out + out1)
  {
    hide Below, Value, PosPrefix;
    forall j | 0 <= j < |spots1| ensures Stands(a, is4, slot, path, spots1[j], out1[j]) && spots1[j] !in spots {
      assert Stands(a, is4, ref, path + [o], spots1[j], out1[j]);
      assert !Reached(path, 256, 256, o, spots1[j]);
    }
  }

  lemma ListsNoKid(a: Arena, is4: bool, slot: nat, path: seq<nat>, o: nat, spots: seq<Pos>, out: seq<Entry<nat>>)
    requires ListsTo(a, is4, slot, path, 256, 256, o, spots, out)
    requires forall x: Pos | Below(is4, path + [o], x) :: Value(a, is4, slot, path, x) == 0
    ensures ListsTo(a, is4, slot, path, 256, 256, o + 1, spots, out)
  {
    BelowKids(is4, path, o);
    hide Tells, Below, Value;
  }

  lemma ListsDone(a: Arena, is4: bool, slot: nat, path: seq<nat>, spots: seq<Pos>, out: seq<Entry<nat>>)
    requires ListsTo(a, is4, slot, path, 256, 256, 256, spots, out)
    ensures ListsAll(a, is4, slot, path, spots, out)
  {
    hide Tells, Value;
  }

  // ---------------------------------------------------------------- the prefixes of one stride

  // The stride's sets say what is stored at its own positions.
  ghost predicate Owns(a: Arena, is4: bool, slot: nat, path: seq<nat>, host: seq<bool>, short: seq<bool>,
                       hostBase: nat, shortBase: nat)
  {
    && |host| == 256 && |short| == 256
    && forall idx: nat :: 2 <= idx < 512 ==>
         Value(a, is4, slot, path, Pos(path, idx)) == Member(host, short, hostBase, shortBase, idx)
  }

  // A position's prefix from the path's key: the index's octet planted after it.
  lemma PrefixAt(is4: bool, path: seq<nat>, key: nat, idx: nat)
    requires IsKey(path) && |path| < Strides(is4) && key == PathKey(Strides(is4), path) && 2 <= idx < 512
    ensures Below(is4, path, Pos(path, idx))
    ensures PosPrefix(Strides(is4), Pos(path, idx)) ==
              Prefix(WithOctet(Strides(is4), key, |path|, IdxOctet(idx)), 8 * |path| + IdxLen(idx))
    ensures idx >= 256 ==> IdxOctet(idx) == idx - 256 && IdxLen(idx) == 8
  {
    PlantOctet(Strides(is4), path, IdxOctet(idx));
    hide PathKey, WithOctet;
  }

  lemma OwnStands(a: Arena, is4: bool, slot: nat, path: seq<nat>, host: seq<bool>, short: seq<bool>,
                  hostBase: nat, shortBase: nat, hostPre: nat, shortPre: nat, key: nat, idx: nat)
    requires IsKey(path) && |path| < Strides(is4) && key == PathKey(Strides(is4), path) && 2 <= idx < 512
    requires Owns(a, is4, slot, path, host, short, hostBase, shortBase)
    requires StridePacked(host, short, hostBase, shortBase, hostPre, shortPre)
    ensures var set_, base, i := if idx >= 256 then host else short, if idx >= 256 then hostBase else shortBase,
                                 if idx >= 256 then idx - 256 else idx;
            && Below(is4, path, Pos(path, idx))
            && (if set_[i] then
                  Stands(a, is4, slot, path, Pos(path, idx),
                         Entry(Prefix(WithOctet(Strides(is4), key, |path|, IdxOctet(idx)), 8 * |path| + IdxLen(idx)),
                               base + Rank(set_, i)))
                else Value(a, is4, slot, path, Pos(path, idx)) == 0)
    ensures idx >= 256 ==> IdxOctet(idx) == idx - 256 && IdxLen(idx) == 8
  {
    PrefixAt(is4, path, key, idx);
    hide Value, Below, PosPrefix, WithOctet, IdxOctet, IdxLen, PackPrefixSums, Rank, PathKey;
  }

  // The set bits of each set in ascending order; the i-th one has the i-th value.
  method AllSets(host: seq<bool>, short: seq<bool>, hostBase: nat, shortBase: nat, i: nat, key: nat, is4: bool,
                 ghost a: Arena, ghost slot: nat, ghost path: seq<nat>, ghost hostPre: nat, ghost shortPre: nat)
    returns (out: seq<Entry<nat>>, ghost spots: seq<Pos>)
    requires IsKey(path) && |path| == i < Strides(is4) && key == PathKey(Strides(is4), path)
    requires Owns(a, is4, slot, path, host, short, hostBase, shortBase)
    requires StridePacked(host, short, hostBase, shortBase, hostPre, shortPre)
    ensures ListsTo(a, is4, slot, path, 256, 256, 0, spots, out)
  {
    ListsNone(a, is4, slot, path);
    hide ListsTo, Owns, Stands, Rank, WithOctet, Below, Value, Spot, StridePacked;
    out, spots := [], [];
    assert |host| == 256 && |short| == 256 && !short[0] by { Sizes(host, short, hostBase, shortBase, hostPre, shortPre); }
    var position: nat := 0;
    NoRank(host);
    for octet := 0 to 256
      invariant position == Rank(host, octet) && ListsTo(a, is4, slot, path, octet, 0, 0, spots, out)
    {
      OwnStands(a, is4, slot, path, host, short, hostBase, shortBase, hostPre, shortPre, key, 256 + octet);
      RankStep(host, octet);
      ghost var x := Pos(path, 256 + octet);
      if host[octet] {
        var e: Entry<nat> := Entry(Prefix(WithOctet(Strides(is4), key, i, octet), 8 * i + 8), hostBase + position);
        ListsOne(a, is4, slot, path, octet, 0, octet + 1, 0, spots, out, x, e);
        out, spots := out + [e], spots + [x];
        position := position + 1;
      } else {
        ListsSkip(a, is4, slot, path, octet, 0, octet + 1, 0, spots, out, x);
      }
    }
    position := 0;
    NoRank(short);
    for idx := 0 to 256
      invariant position == Rank(short, idx) && ListsTo(a, is4, slot, path, 256, idx, 0, spots, out)
    {
      ghost var x := Pos(path, idx);
      RankStep(short, idx);
      if short[idx] {
        if idx == 1 {
          Unlisted(is4, path, x);
          ListsSkip(a, is4, slot, path, 256, idx, 256, idx + 1, spots, out, x);
        } else {
          OwnStands(a, is4, slot, path, host, short, hostBase, shortBase, hostPre, shortPre, key, idx);
          var e: Entry<nat> := Entry(Prefix(WithOctet(Strides(is4), key, i, IdxOctet(idx)), 8 * i + IdxLen(idx)), shortBase + position);
          ListsOne(a, is4, slot, path, 256, idx, 256, idx + 1, spots, out, x, e);
          out, spots := out + [e], spots + [x];
        }
        position := position + 1;
      } else {
        if idx >= 2 {
          OwnStands(a, is4, slot, path, host, short, hostBase, shortBase, hostPre, shortPre, key, idx);
        } else {
          Unlisted(is4, path, x);
        }
        ListsSkip(a, is4, slot, path, 256, idx, 256, idx + 1, spots, out, x);
      }
    }
  }

  // Index 1 is what the stride inherits, not a prefix of its own.
  lemma Unlisted(is4: bool, path: seq<nat>, x: Pos)
    requires x.idx < 2
    ensures !Below(is4, path, x)
  {
  }

  lemma Sizes(host: seq<bool>, short: seq<bool>, hostBase: nat, shortBase: nat, hostPre: nat, shortPre: nat)
    requires StridePacked(host, short, hostBase, shortBase, hostPre, shortPre)
    ensures |host| == 256 && |short| == 256 && !short[0]
  {
  }

  lemma NoRank(bits: seq<bool>)
    ensures Rank(bits, 0) == 0
  {
  }

  // ---------------------------------------------------------------- one reference

  // Some position lies below every path that ends inside the key.
  lemma SomeBelow(a: Arena, is4: bool, slot: nat, path: seq<nat>)
    requires Sound(a, is4, slot, path)
    ensures ExactWalk(a, is4, 0, 0, slot, Pos(path, 2), |path|).Some?
  {
    hide ExactWalk, Walk;
    assert Below(is4, path, Pos(path, 2));
  }

  lemma StopOwns(a: Arena, is4: bool, slot: nat, path: seq<nat>)
    requires Sound(a, is4, slot, path) && slot >= TAG_STOP
    ensures slot - TAG_STOP < |a.stops|
    ensures var s := a.stops[slot - TAG_STOP];
            && StopPacked(s) && Owns(a, is4, slot, path, s.host, s.short, s.hostBase, s.shortBase)
            && forall x: Pos | Below(is4, path, x) && |x.path| > |path| :: Value(a, is4, slot, path, x) == 0
  {
    SomeBelow(a, is4, slot, path);
    hide Sound, Member, StridePacked;
  }

  lemma LeafLists(a: Arena, is4: bool, slot: nat, path: seq<nat>) returns (x: Pos)
    requires Sound(a, is4, slot, path) && TAG_LEAF <= slot < TAG_STOP
    ensures slot - TAG_LEAF < |Leaves(a, is4)|
    ensures var lf := Leaves(a, is4)[slot - TAG_LEAF];
            ListsAll(a, is4, slot, path, [x], [Entry(Prefix(lf.key, lf.bits), lf.value)])
  {
    hide Sound, LeafFits, LeafMember;
    SomeBelow(a, is4, slot, path);
    assert Pos(path, 2).path[..|path|] == path;
    var lf := Leaves(a, is4)[slot - TAG_LEAF];
    x := LeafSpot(is4, lf, path);
    forall y: Pos | Below(is4, path, y)
      ensures Value(a, is4, slot, path, y) == if y == x then lf.value else 0
    {
      assert y.path[..|path|] == path;
      LeafValueAt(is4, lf, path, x, y);
    }
  }

  lemma LeafSpot(is4: bool, lf: Leaf, path: seq<nat>) returns (x: Pos)
    requires LeafFits(is4, lf, path)
    ensures Below(is4, path, x) && PosPrefix(Strides(is4), x) == Prefix(lf.key, lf.bits) && lf.value > 0
  {
    hide PosPrefix, PosOf, Spot;
    x := PosOf(Ceil, Strides(is4), Prefix(lf.key, lf.bits));
    SpotPrefix(is4, x);
    PosInjective(Ceil, Strides(is4), PosPrefix(Strides(is4), x), Prefix(lf.key, lf.bits));
  }

  lemma LeafValueAt(is4: bool, lf: Leaf, path: seq<nat>, x: Pos, y: Pos)
    requires Below(is4, path, x) && Below(is4, path, y) && PosPrefix(Strides(is4), x) == Prefix(lf.key, lf.bits)
    ensures LeafMember(is4, lf, y) == if y == x then lf.value else 0
  {
    hide PosPrefix, PosOf;
    SpotPrefix(is4, x);
    SpotPrefix(is4, y);
  }

  lemma NodeOwns(a: Arena, is4: bool, slot: nat, path: seq<nat>)
    requires Sound(a, is4, slot, path) && TAG_NODE <= slot < TAG_LEAF
    ensures slot - TAG_NODE < |a.nodes|
    ensures var n := a.nodes[slot - TAG_NODE];
            NodePacked(n) && Owns(a, is4, slot, path, n.host, n.short, n.groups[0].aux, n.groups[1].aux)
  {
    SomeBelow(a, is4, slot, path);
    hide Sound, Member, StridePacked;
  }

  // Below an octet a node stores what its child stores, and nothing when it has none.
  lemma NodeKids(a: Arena, is4: bool, slot: nat, path: seq<nat>, o: nat)
    requires Sound(a, is4, slot, path) && TAG_NODE <= slot < TAG_LEAF && o < 256
    requires slot - TAG_NODE < |a.nodes| && NodePacked(a.nodes[slot - TAG_NODE])
    ensures var n := a.nodes[slot - TAG_NODE];
            if HasKid(n, o) then
              && |path| + 1 < Strides(is4) && KidIndex(n, o) < |a.refs|
              && Sound(a, is4, a.refs[KidIndex(n, o)], path + [o])
              && forall x: Pos | Below(is4, path + [o], x) ::
                   Value(a, is4, slot, path, x) == Value(a, is4, a.refs[KidIndex(n, o)], path + [o], x)
            else forall x: Pos | Below(is4, path + [o], x) :: Value(a, is4, slot, path, x) == 0
  {
    hide Below, ExactWalk, Walk, HasKid, KidIndex, StridePacked, Value, Under;
    BelowKids(is4, path, o);
    if HasKid(a.nodes[slot - TAG_NODE], o) {
      KidKeys(a, is4, slot, path, o);
      KidBelow(a, is4, slot, path, o);
    } else {
      NoKidBelow(a, is4, slot, path, o);
    }
  }

  lemma NoKidBelow(a: Arena, is4: bool, slot: nat, path: seq<nat>, o: nat)
    requires TAG_NODE <= slot < TAG_LEAF && o < 256
    requires slot - TAG_NODE < |a.nodes| && NodePacked(a.nodes[slot - TAG_NODE]) && !HasKid(a.nodes[slot - TAG_NODE], o)
    requires forall x: Pos :: Below(is4, path + [o], x) <==> AtOctet(is4, path, o, x)
    ensures forall x: Pos | Below(is4, path + [o], x) :: Value(a, is4, slot, path, x) == 0
  {
    hide HasKid, StridePacked, Below;
  }

  // A child's own descents: the parent's one octet further on.
  lemma KidKeys(a: Arena, is4: bool, slot: nat, path: seq<nat>, o: nat)
    requires Sound(a, is4, slot, path) && TAG_NODE <= slot < TAG_LEAF && o < 256
    requires slot - TAG_NODE < |a.nodes| && NodePacked(a.nodes[slot - TAG_NODE]) && HasKid(a.nodes[slot - TAG_NODE], o)
    ensures |path| + 1 < Strides(is4) && KidIndex(a.nodes[slot - TAG_NODE], o) < |a.refs|
    ensures a.refs[KidIndex(a.nodes[slot - TAG_NODE], o)] >= TAG_NODE
    ensures forall key | Under(is4, key, path + [o]) ::
              Walk(a, is4, 0, 0, a.refs[KidIndex(a.nodes[slot - TAG_NODE], o)], key, |path| + 1).Some?
  {
    hide HasKid, KidIndex, OctetAt, ExactWalk, Under, PathKey, StridePacked;
    var key := SomeKey(is4, path + [o]);
    forall k | Under(is4, k, path + [o]) ensures Under(is4, k, path) && OctetAt(Strides(is4), k, |path|) == o {
      KidUnder(is4, k, path, o);
    }
    assert Walk(a, is4, 0, 0, slot, key, |path|).Some?;
    assert Walk(a, is4, 0, 0, a.refs[KidIndex(a.nodes[slot - TAG_NODE], o)], key, |path| + 1).Some?;
  }

  // Some address lies below every path.
  lemma SomeKey(is4: bool, path: seq<nat>) returns (key: nat)
    requires IsKey(path) && |path| <= Strides(is4)
    ensures Under(is4, key, path)
  {
    hide PathKey, KeyOctets;
    key := PathKey(Strides(is4), path);
    PathKeyFits(Strides(is4), path);
    PathKeyPath(Strides(is4), path);
  }

  lemma KidUnder(is4: bool, k: nat, path: seq<nat>, o: nat)
    requires Under(is4, k, path + [o]) && |path| < Strides(is4)
    ensures Under(is4, k, path) && OctetAt(Strides(is4), k, |path|) == o
  {
    var x := KeyOctets(Strides(is4), k);
    assert x[|path|] == (path + [o])[|path|];
  }

  lemma KidBelow(a: Arena, is4: bool, slot: nat, path: seq<nat>, o: nat)
    requires Sound(a, is4, slot, path) && TAG_NODE <= slot < TAG_LEAF && o < 256 && |path| + 1 < Strides(is4)
    requires slot - TAG_NODE < |a.nodes| && NodePacked(a.nodes[slot - TAG_NODE]) && HasKid(a.nodes[slot - TAG_NODE], o)
    requires KidIndex(a.nodes[slot - TAG_NODE], o) < |a.refs|
    requires a.refs[KidIndex(a.nodes[slot - TAG_NODE], o)] >= TAG_NODE
    requires forall x: Pos :: Below(is4, path + [o], x) <==> AtOctet(is4, path, o, x)
    ensures forall x: Pos | Below(is4, path + [o], x) ::
              && ExactWalk(a, is4, 0, 0, a.refs[KidIndex(a.nodes[slot - TAG_NODE], o)], x, |path| + 1).Some?
              && Value(a, is4, slot, path, x) == Value(a, is4, a.refs[KidIndex(a.nodes[slot - TAG_NODE], o)], path + [o], x)
  {
    hide HasKid, KidIndex, Walk, Below, StridePacked;
    forall x: Pos | Below(is4, path + [o], x)
      ensures ExactWalk(a, is4, 0, 0, slot, x, |path|) ==
                ExactWalk(a, is4, 0, 0, a.refs[KidIndex(a.nodes[slot - TAG_NODE], o)], x, |path| + 1)
    {
      assert |x.path| < Strides(is4) && x.idx < 512 by { BelowFits(is4, path, x); }
    }
  }

  lemma BelowFits(is4: bool, path: seq<nat>, x: Pos)
    requires Below(is4, path, x)
    ensures |x.path| < Strides(is4) && x.idx < 512
  {
  }

  // Dispatches on the tag; a node's children come after its own prefixes, in octet order.
  method AllRef(a: Arena, slot: nat, i: nat, key: nat, is4: bool, ghost path: seq<nat>)
    returns (out: seq<Entry<nat>>, ghost spots: seq<Pos>)
    requires Sound(a, is4, slot, path) && |path| == i && key == PathKey(Strides(is4), path)
    ensures ListsAll(a, is4, slot, path, spots, out)
    decreases Strides(is4) - i
  {
    assert IsKey(path) && |path| < Strides(is4) && slot >= TAG_NODE;
    hide Sound, ListsTo, ListsAll, Owns, StridePacked, Value, Below, PathKey, WithOctet, HasKid, KidIndex;
    if slot >= TAG_STOP {
      StopOwns(a, is4, slot, path);
      var s := a.stops[slot - TAG_STOP];
      out, spots := AllSets(s.host, s.short, s.hostBase, s.shortBase, i, key, is4, a, slot, path, s.hostPre, s.shortPre);
      NoKids(a, is4, slot, path, spots, out);
      return;
    }
    if slot >= TAG_LEAF {
      ghost var x := LeafLists(a, is4, slot, path);
      var lf := Leaves(a, is4)[slot - TAG_LEAF];
      return [Entry(Prefix(lf.key, lf.bits), lf.value)], [x];
    }
    NodeOwns(a, is4, slot, path);
    var n := a.nodes[slot - TAG_NODE];
    out, spots := AllSets(n.host, n.short, n.groups[0].aux, n.groups[1].aux, i, key, is4, a, slot, path,
                          n.groups[2].aux, n.groups[3].aux);
    for o := 0 to 256
      invariant ListsTo(a, is4, slot, path, 256, 256, o, spots, out)
    {
      NodeKids(a, is4, slot, path, o);
      if HasKid(n, o) {
        var ref := a.refs[KidIndex(n, o)];
        PlantOctet(Strides(is4), path, o);
        var more, moreSpots := AllRef(a, ref, i + 1, WithOctet(Strides(is4), key, i, o), is4, path + [o]);
        ListsKid(a, is4, slot, path, o, ref, spots, out, moreSpots, more);
        out, spots := out + more, spots + moreSpots;
      } else {
        ListsNoKid(a, is4, slot, path, o, spots, out);
      }
    }
    ListsDone(a, is4, slot, path, spots, out);
  }

  lemma NoKids(a: Arena, is4: bool, slot: nat, path: seq<nat>, spots: seq<Pos>, out: seq<Entry<nat>>)
    requires ListsTo(a, is4, slot, path, 256, 256, 0, spots, out)
    requires forall x: Pos | Below(is4, path, x) && |x.path| > |path| :: Value(a, is4, slot, path, x) == 0
    ensures ListsAll(a, is4, slot, path, spots, out)
  {
    hide Tells, Value;
  }

  // ---------------------------------------------------------------- one family

  // A prefix counted in root slots, back in the family's own width.
  function Widen(w: nat, p: Prefix): Prefix
    requires w >= ROOT_BITS
  {
    Prefix(p.key * Pow2(w - ROOT_BITS), p.len)
  }

  lemma WidenShort(w: nat, p: Prefix)
    requires w >= ROOT_BITS && Valid(ROOT_BITS, p)
    ensures Valid(w, Widen(w, p)) && Short(w, Widen(w, p)) == p
  {
    var low, m := w - ROOT_BITS, Pow2(w - ROOT_BITS);
    Pow2Add(ROOT_BITS, low);
    assert ROOT_BITS + low == w;
    MulMono(p.key + 1, Pow2(ROOT_BITS), m);
    AddTimes(p.key, 1, m);
    DivExact(p.key, m);
    Pow2Add(ROOT_BITS - p.len, low);
    assert ROOT_BITS - p.len + low == w - p.len;
    WidenMasked(p.key, Pow2(ROOT_BITS - p.len), m);
  }

  lemma WidenMasked(key: nat, span: nat, m: nat)
    requires span > 0 && m > 0 && key % span == 0 && span * m > 0
    ensures key * m % (span * m) == 0
  {
    var q := WholeQuotient(key, span);
    MulShuffle(q, span, m);
    DivExact(q, span * m);
  }

  lemma WholeQuotient(key: nat, span: nat) returns (q: nat)
    requires span > 0 && key % span == 0
    ensures key == q * span
  {
    DivNonNegative(key, span);
    q := key / span;
  }

  // What an exact match returns for the entry's prefix is the entry's value.
  ghost predicate Exactly(a: Arena, is4: bool, hi: seq<nat>, lo: seq<nat>, exact: seq<nat>, e: Entry<nat>) {
    && e.prefix.len <= Width(is4) && Valid(Width(is4), e.prefix)
    && e.val > 0 && ExactValue(a, is4, hi, lo, exact, e.prefix) == Some(e.val)
  }

  // An exact match finds the prefix, and it is short or lies below one of the first n root slots.
  ghost predicate Findable(a: Arena, is4: bool, hi: seq<nat>, lo: seq<nat>, exact: seq<nat>, n: nat, p: Prefix) {
    && p.len <= Width(is4) && Valid(Width(is4), p)
    && (p.len <= ROOT_BITS || Shr(p.key, Width(is4) - ROOT_BITS) < n)
    && ExactValue(a, is4, hi, lo, exact, p).Some? && ExactValue(a, is4, hi, lo, exact, p).value > 0
  }

  ghost predicate FamilyTo(a: Arena, is4: bool, hi: seq<nat>, lo: seq<nat>, exact: seq<nat>, n: nat,
                           out: seq<Entry<nat>>)
  {
    && Distinct(out) && (forall e <- out :: Exactly(a, is4, hi, lo, exact, e))
    && forall p :: Has(out, p) <==> Findable(a, is4, hi, lo, exact, n, p)
  }

  // Rebuilds the prefixes of the exact table.
  method AllShort(a: Arena, is4: bool, hi: seq<nat>, lo: seq<nat>, exact: seq<nat>) returns (out: seq<Entry<nat>>)
    requires Rising(exact) && WordsReal(exact)
    ensures FamilyTo(a, is4, hi, lo, exact, 0, out)
  {
    hide Rising, WordsReal, FamilyTo, Widen, WordPrefix;
    out := [];
    for i := 0 to |exact|
      invariant |out| == i
      invariant forall k :: 0 <= k < i ==> out[k] == Entry(Widen(Width(is4), WordPrefix(exact[k])), exact[k] % VALUE_SPAN)
    {
      out := out + [Entry(Widen(Width(is4), WordPrefix(exact[i])), exact[i] % VALUE_SPAN)];
    }
    ShortListed(a, is4, hi, lo, exact, out);
  }

  lemma ShortListed(a: Arena, is4: bool, hi: seq<nat>, lo: seq<nat>, exact: seq<nat>, out: seq<Entry<nat>>)
    requires Rising(exact) && WordsReal(exact) && |out| == |exact|
    requires forall k :: 0 <= k < |out| ==> out[k] == Entry(Widen(Width(is4), WordPrefix(exact[k])), exact[k] % VALUE_SPAN)
    ensures FamilyTo(a, is4, hi, lo, exact, 0, out)
  {
    hide Widen, WordPrefix, Exactly, Findable, Rising, WordsReal;
    forall i, j | 0 <= i < j < |out| ensures out[i].prefix != out[j].prefix {
      WordsApart(Width(is4), exact, i, j);
    }
    forall i | 0 <= i < |out| ensures Exactly(a, is4, hi, lo, exact, out[i]) && Findable(a, is4, hi, lo, exact, 0, out[i].prefix) {
      WordFound(a, is4, hi, lo, exact, i);
    }
    forall p | Findable(a, is4, hi, lo, exact, 0, p) ensures Has(out, p) {
      var i := WordOf(a, is4, hi, lo, exact, p);
      assert out[i].prefix == p;
    }
  }

  lemma WordsApart(w: nat, exact: seq<nat>, i: nat, j: nat)
    requires w >= ROOT_BITS && Rising(exact) && WordsReal(exact) && i < j < |exact|
    ensures Widen(w, WordPrefix(exact[i])) != Widen(w, WordPrefix(exact[j]))
  {
    WidenShort(w, WordPrefix(exact[i]));
    WidenShort(w, WordPrefix(exact[j]));
    hide Widen, Short, Valid;
    Packing(exact[i]);
    Packing(exact[j]);
  }

  // Key and length from the upper word, and back.
  lemma Packing(word: nat)
    ensures PackExact(WordPrefix(word).key, WordPrefix(word).len) == word / VALUE_SPAN
  {
  }

  lemma WordFound(a: Arena, is4: bool, hi: seq<nat>, lo: seq<nat>, exact: seq<nat>, i: nat)
    requires Rising(exact) && WordsReal(exact) && i < |exact|
    ensures Exactly(a, is4, hi, lo, exact, Entry(Widen(Width(is4), WordPrefix(exact[i])), exact[i] % VALUE_SPAN))
    ensures Findable(a, is4, hi, lo, exact, 0, Widen(Width(is4), WordPrefix(exact[i])))
  {
    var q := WordPrefix(exact[i]);
    WidenShort(Width(is4), q);
    LengthFits(ROOT_BITS, q);
    assert Widen(Width(is4), q).len == q.len;
    hide Widen, Short, Valid, TableValue, PackExact;
    Packing(exact[i]);
    TableAt(exact, i);
  }

  lemma WordOf(a: Arena, is4: bool, hi: seq<nat>, lo: seq<nat>, exact: seq<nat>, p: Prefix) returns (i: nat)
    requires Rising(exact) && WordsReal(exact) && Findable(a, is4, hi, lo, exact, 0, p)
    ensures i < |exact| && Widen(Width(is4), WordPrefix(exact[i])) == p
  {
    hide Widen, TableValue, PackExact, WordPrefix, Valid;
    var q := Short(Width(is4), p);
    assert q.len == p.len && p.len <= ROOT_BITS;
    hide Short;
    if forall j :: 0 <= j < |exact| ==> exact[j] / VALUE_SPAN != PackExact(q.key, q.len) {
      TableNone(exact, PackExact(q.key, q.len));
    }
    i :| i < |exact| && exact[i] / VALUE_SPAN == PackExact(q.key, q.len);
    Packing(exact[i]);
    LengthFits(ROOT_BITS, WordPrefix(exact[i]));
    PackInjective(q, WordPrefix(exact[i]));
    WidenShort(Width(is4), q);
    RootInjective(Width(is4), p, Widen(Width(is4), q));
  }

  // Every descent from the root obeys the arenas' rules.
  ghost predicate Descends(a: Arena, is4: bool, hi: seq<nat>, lo: seq<nat>, exact: seq<nat>) {
    && (forall p: Prefix | p.len <= Width(is4) && Valid(Width(is4), p) :: ExactValue(a, is4, hi, lo, exact, p).Some?)
    && forall key: nat | key < Pow2(Width(is4)) :: WalkRoot(a, is4, hi, lo, key).Some?
  }

  ghost predicate IsSlot(hi: seq<nat>, lo: seq<nat>, q: nat, slot: nat) {
    q < ROOT_SLOTS && q / 256 < |hi| && hi[q / 256] + q % 256 < |lo| && lo[hi[q / 256] + q % 256] == slot
  }

  lemma SlotThere(a: Arena, is4: bool, hi: seq<nat>, lo: seq<nat>, exact: seq<nat>, q: nat)
    requires Descends(a, is4, hi, lo, exact) && q < ROOT_SLOTS
    ensures q / 256 < |hi| && hi[q / 256] + q % 256 < |lo| && IsSlot(hi, lo, q, lo[hi[q / 256] + q % 256])
  {
    var key := RootAddress(is4, q);
    assert WalkRoot(a, is4, hi, lo, key).Some?;
  }

  // The first address below a root slot.
  lemma RootAddress(is4: bool, q: nat) returns (key: nat)
    requires q < ROOT_SLOTS
    ensures key < Pow2(Width(is4)) && Shr(key, Width(is4) - ROOT_BITS) == q
  {
    var m := Pow2(Width(is4) - ROOT_BITS);
    key := q * m;
    DivExact(q, m);
    Pow2Large();
    Pow2Add(ROOT_BITS, Width(is4) - ROOT_BITS);
    assert ROOT_BITS + (Width(is4) - ROOT_BITS) == Width(is4);
    MulMono(q + 1, ROOT_SLOTS, m);
    AddTimes(q, 1, m);
  }

  // A position below a root slot belongs to a prefix whose key starts with the slot's.
  lemma SpotRoot(is4: bool, x: Pos, q: nat)
    requires q < ROOT_SLOTS && Below(is4, RootPath(q), x)
    ensures 1 <= x.idx < 512 && |x.path| < Strides(is4)
    ensures var p := PosPrefix(Strides(is4), x);
            && p.len <= Width(is4) && Valid(Width(is4), p) && PosOf(Ceil, Strides(is4), p) == x
            && p.len > ROOT_BITS && Shr(p.key, Width(is4) - ROOT_BITS) == q
  {
    SpotPrefix(is4, x);
    LongSpot(is4, PosPrefix(Strides(is4), x));
    hide PosPrefix, PosOf, Valid, Shr;
    var r := Shr(PosPrefix(Strides(is4), x).key, Width(is4) - ROOT_BITS);
    assert RootPath(r)[0] == x.path[0] == RootPath(q)[0] && RootPath(r)[1] == x.path[1] == RootPath(q)[1];
  }

  lemma SlotSound(a: Arena, is4: bool, hi: seq<nat>, lo: seq<nat>, exact: seq<nat>, q: nat, slot: nat)
    requires Descends(a, is4, hi, lo, exact) && IsSlot(hi, lo, q, slot) && slot >= TAG_NODE
    ensures Sound(a, is4, slot, RootPath(q))
  {
    hide PosPrefix, PosOf, Valid, Shr, ExactWalk, Walk, KeyOctets, RootPath, Below;
    forall x: Pos | Below(is4, RootPath(q), x) ensures ExactWalk(a, is4, 0, 0, slot, x, |RootPath(q)|).Some? {
      SpotRoot(is4, x, q);
      assert ExactValue(a, is4, hi, lo, exact, PosPrefix(Strides(is4), x)).Some?;
    }
    forall key | Under(is4, key, RootPath(q)) ensures Walk(a, is4, 0, 0, slot, key, |RootPath(q)|).Some? {
      UnderRoot(is4, key, q);
      assert WalkRoot(a, is4, hi, lo, key).Some?;
    }
  }

  lemma UnderRoot(is4: bool, key: nat, q: nat)
    requires q < ROOT_SLOTS && Under(is4, key, RootPath(q))
    ensures key < Pow2(Width(is4)) && Shr(key, Width(is4) - ROOT_BITS) == q
  {
    RootOctets(is4, key);
    var x := KeyOctets(Strides(is4), key);
    hide KeyOctets, Shr;
    var r := Shr(key, Width(is4) - ROOT_BITS);
    assert RootPath(r)[0] == x[0] == RootPath(q)[0] && RootPath(r)[1] == x[1] == RootPath(q)[1];
  }

  // What an exact match finds below a root slot, as the slot's reference stores it.
  lemma SlotValue(a: Arena, is4: bool, hi: seq<nat>, lo: seq<nat>, exact: seq<nat>, q: nat, slot: nat, x: Pos)
    requires IsSlot(hi, lo, q, slot) && Below(is4, RootPath(q), x)
    ensures 1 <= x.idx < 512 && |x.path| < Strides(is4)
    ensures var p := PosPrefix(Strides(is4), x);
            && p.len <= Width(is4) && Valid(Width(is4), p) && p.len > ROOT_BITS
            && Shr(p.key, Width(is4) - ROOT_BITS) == q
            && ExactValue(a, is4, hi, lo, exact, p) == ExactWalk(a, is4, 0, 0, slot, x, 2)
  {
    hide PosPrefix, PosOf, Valid, Shr, ExactWalk, RootPath, Below;
    SpotRoot(is4, x, q);
  }

  lemma SlotSpotOf(is4: bool, p: Prefix) returns (x: Pos)
    requires p.len <= Width(is4) && Valid(Width(is4), p) && p.len > ROOT_BITS
    ensures Shr(p.key, Width(is4) - ROOT_BITS) < ROOT_SLOTS
    ensures Below(is4, RootPath(Shr(p.key, Width(is4) - ROOT_BITS)), x) && PosPrefix(Strides(is4), x) == p
  {
    x := PosOf(Ceil, Strides(is4), p);
    LongSpot(is4, p);
    PosPrefixOf(is4, p);
  }

  lemma FamilySkip(a: Arena, is4: bool, hi: seq<nat>, lo: seq<nat>, exact: seq<nat>, q: nat, slot: nat, out: seq<Entry<nat>>)
    requires FamilyTo(a, is4, hi, lo, exact, q, out) && IsSlot(hi, lo, q, slot) && slot < TAG_NODE
    ensures FamilyTo(a, is4, hi, lo, exact, q + 1, out)
  {
    hide PosPrefix, Valid, Shr, Below, ExactValue, Exactly, Has, Distinct, RootPath;
    forall p ensures Findable(a, is4, hi, lo, exact, q + 1, p) <==> Findable(a, is4, hi, lo, exact, q, p) {
      if Findable(a, is4, hi, lo, exact, q + 1, p) && !Findable(a, is4, hi, lo, exact, q, p) {
        var x := SlotSpotOf(is4, p);
        SlotValue(a, is4, hi, lo, exact, q, slot, x);
      }
    }
  }

  lemma FamilyMore(a: Arena, is4: bool, hi: seq<nat>, lo: seq<nat>, exact: seq<nat>, q: nat, slot: nat,
                   out: seq<Entry<nat>>, spots: seq<Pos>, more: seq<Entry<nat>>)
    requires FamilyTo(a, is4, hi, lo, exact, q, out) && IsSlot(hi, lo, q, slot) && q < ROOT_SLOTS
    requires Sound(a, is4, slot, RootPath(q)) && ListsAll(a, is4, slot, RootPath(q), spots, more)
    ensures FamilyTo(a, is4, hi, lo, exact, q + 1, out + more)
  {
    hide Sound, ListsAll, Findable, Exactly, Has, Distinct, RootPath, IsSlot;
    forall e | e in more
      ensures Exactly(a, is4, hi, lo, exact, e) && Findable(a, is4, hi, lo, exact, q + 1, e.prefix)
      ensures !Findable(a, is4, hi, lo, exact, q, e.prefix)
    {
      SlotEntry(a, is4, hi, lo, exact, q, slot, spots, more, e);
    }
    forall p ensures Has(more, p) ==> !Findable(a, is4, hi, lo, exact, q, p) && Findable(a, is4, hi, lo, exact, q + 1, p) {
      if Has(more, p) {
        var e := HasEntry(more, p);
      }
    }
    SlotDistinct(a, is4, slot, q, spots, more);
    DistinctAppend(out, more);
    forall p ensures Has(out + more, p) <==> Findable(a, is4, hi, lo, exact, q + 1, p) {
      HasAppend(out, more, p);
      FoundNext(a, is4, hi, lo, exact, q, slot, spots, more, p);
    }
  }

  lemma HasEntry(out: seq<Entry<nat>>, p: Prefix) returns (e: Entry<nat>)
    requires Has(out, p)
    ensures e in out && e.prefix == p
  {
    var i :| 0 <= i < |out| && out[i].prefix == p;
    e := out[i];
  }

  lemma SlotEntry(a: Arena, is4: bool, hi: seq<nat>, lo: seq<nat>, exact: seq<nat>, q: nat, slot: nat,
                  spots: seq<Pos>, more: seq<Entry<nat>>, e: Entry<nat>)
    requires IsSlot(hi, lo, q, slot) && Sound(a, is4, slot, RootPath(q))
    requires ListsAll(a, is4, slot, RootPath(q), spots, more) && e in more
    ensures Exactly(a, is4, hi, lo, exact, e) && Findable(a, is4, hi, lo, exact, q + 1, e.prefix)
    ensures !Findable(a, is4, hi, lo, exact, q, e.prefix)
  {
    hide PosPrefix, Valid, Shr, Below, ExactValue, IsSlot, ExactWalk, Walk;
    var i :| 0 <= i < |more| && more[i] == e;
    assert Stands(a, is4, slot, RootPath(q), spots[i], e);
    SlotValue(a, is4, hi, lo, exact, q, slot, spots[i]);
  }

  lemma SlotDistinct(a: Arena, is4: bool, slot: nat, q: nat, spots: seq<Pos>, more: seq<Entry<nat>>)
    requires q < ROOT_SLOTS && ListsAll(a, is4, slot, RootPath(q), spots, more)
    ensures Distinct(more)
  {
    hide PosPrefix, PosOf, Valid, Value, RootPath, Spot;
    forall i, j | 0 <= i < j < |more| ensures more[i].prefix != more[j].prefix {
      assert Stands(a, is4, slot, RootPath(q), spots[i], more[i]) && Stands(a, is4, slot, RootPath(q), spots[j], more[j]);
      SpotPrefix(is4, spots[i]);
      SpotPrefix(is4, spots[j]);
    }
  }

  // The slot adds exactly the prefixes found below it.
  lemma FoundNext(a: Arena, is4: bool, hi: seq<nat>, lo: seq<nat>, exact: seq<nat>, q: nat, slot: nat,
                  spots: seq<Pos>, more: seq<Entry<nat>>, p: Prefix)
    requires IsSlot(hi, lo, q, slot) && ListsAll(a, is4, slot, RootPath(q), spots, more)
    ensures Findable(a, is4, hi, lo, exact, q, p) ==> Findable(a, is4, hi, lo, exact, q + 1, p)
    ensures Findable(a, is4, hi, lo, exact, q + 1, p) ==> Findable(a, is4, hi, lo, exact, q, p) || Has(more, p)
  {
    hide PosPrefix, Valid, Shr, Below, ExactValue, IsSlot, ExactWalk, RootPath;
    if Findable(a, is4, hi, lo, exact, q + 1, p) && !Findable(a, is4, hi, lo, exact, q, p) {
      var x := SlotSpotOf(is4, p);
      SlotValue(a, is4, hi, lo, exact, q, slot, x);
      assert x in spots;
      var i :| 0 <= i < |spots| && spots[i] == x;
      assert Stands(a, is4, slot, RootPath(q), spots[i], more[i]);
    }
  }

  // The exact table, then the subtrees below each /8 of the root.
  method AllFamily(a: Arena, is4: bool, hi: seq<nat>, lo: seq<nat>, exact: seq<nat>) returns (out: seq<Entry<nat>>)
    requires Rising(exact) && WordsReal(exact) && Descends(a, is4, hi, lo, exact)
    ensures FamilyTo(a, is4, hi, lo, exact, ROOT_SLOTS, out)
  {
    hide Rising, WordsReal, Descends, FamilyTo, IsSlot, Sound, ListsAll, PathKey;
    out := AllShort(a, is4, hi, lo, exact);
    for top := 0 to 256
      invariant FamilyTo(a, is4, hi, lo, exact, 256 * top, out)
    {
      for offset := 0 to 256
        invariant FamilyTo(a, is4, hi, lo, exact, 256 * top + offset, out)
      {
        var key := 256 * top + offset;
        SlotThere(a, is4, hi, lo, exact, key);
        assert key / 256 == top && key % 256 == offset;
        var slot := lo[hi[top] + offset];
        if slot < TAG_NODE {
          FamilySkip(a, is4, hi, lo, exact, key, slot, out);
        } else {
          SlotSound(a, is4, hi, lo, exact, key, slot);
          RootPathKey(is4, key);
          ghost var spots;
          var more;
          more, spots := AllRef(a, slot, ROOT_BITS / 8, key * Pow2(Width(is4) - ROOT_BITS), is4, RootPath(key));
          FamilyMore(a, is4, hi, lo, exact, key, slot, out, spots, more);
          out := out + more;
        }
      }
    }
  }

  lemma RootPathKey(is4: bool, q: nat)
    requires q < ROOT_SLOTS
    ensures q * Pow2(Width(is4) - ROOT_BITS) == PathKey(Strides(is4), RootPath(q))
  {
    var path := RootPath(q);
    assert path[..1] == [q / 256] && path[..1][..0] == [];
    assert PathNum(path[..1]) == q / 256;
    assert PathNum(path) == q;
  }

  // ---------------------------------------------------------------- the enumeration

  // Each inserted prefix once, with the value an exact match returns for it, which is its last reference's.
  ghost predicate Enumerates(a: Arena, is4: bool, hi: seq<nat>, lo: seq<nat>, exact: seq<nat>, refOf: seq<nat>,
                             catalog: map<Prefix, nat>, out: seq<Entry<nat>>)
  {
    && Distinct(out)
    && (forall e <- out :: Exactly(a, is4, hi, lo, exact, e) && e.prefix in catalog
                           && e.val < |refOf| && refOf[e.val] == catalog[e.prefix])
    && forall p <- catalog :: Has(out, p)
  }

  lemma CompiledDescends(a: Arena, is4: bool, hi: seq<nat>, lo: seq<nat>, exact: seq<nat>, refOf: seq<nat>,
                         catalog: map<Prefix, nat>)
    requires Compiled(a, is4, hi, lo, refOf, catalog) && ExactCompiled(a, is4, hi, lo, exact, refOf, catalog)
    ensures Descends(a, is4, hi, lo, exact) && Rising(exact) && WordsReal(exact)
  {
    hide WalkRoot, ExactValue, Valid, Rising, WordsReal;
    forall p: Prefix | p.len <= Width(is4) && Valid(Width(is4), p) ensures ExactValue(a, is4, hi, lo, exact, p).Some? {
      assert PrefixCompiled(a, is4, hi, lo, exact, refOf, catalog, p);
    }
    forall key: nat | key < Pow2(Width(is4)) ensures WalkRoot(a, is4, hi, lo, key).Some? {
      assert KeyCompiled(a, is4, hi, lo, refOf, catalog, key);
    }
  }

  lemma ListedIsCatalog(a: Arena, is4: bool, hi: seq<nat>, lo: seq<nat>, exact: seq<nat>, refOf: seq<nat>,
                        catalog: map<Prefix, nat>, out: seq<Entry<nat>>)
    requires ExactCompiled(a, is4, hi, lo, exact, refOf, catalog) && AllValid(Width(is4), catalog.Keys)
    requires FamilyTo(a, is4, hi, lo, exact, ROOT_SLOTS, out)
    ensures Enumerates(a, is4, hi, lo, exact, refOf, catalog, out)
  {
    hide ExactValue, Valid, Rising, WordsReal, Distinct, Has, Shr;
    forall e | e in out ensures e.prefix in catalog && e.val < |refOf| && refOf[e.val] == catalog[e.prefix] {
      assert PrefixCompiled(a, is4, hi, lo, exact, refOf, catalog, e.prefix);
    }
    forall p | p in catalog ensures Has(out, p) {
      LengthFits(Width(is4), p);
      assert PrefixCompiled(a, is4, hi, lo, exact, refOf, catalog, p);
      RootFits(is4, p);
    }
  }

  lemma RootFits(is4: bool, p: Prefix)
    requires p.len <= Width(is4) && Valid(Width(is4), p)
    ensures Shr(p.key, Width(is4) - ROOT_BITS) < ROOT_SLOTS
  {
    RootKeyFits(Width(is4), p.key);
  }

  // Both families' prefixes, IPv4's first.
  method All(ix: Index, ghost refOf: seq<nat>, ghost catalog4: map<Prefix, nat>, ghost catalog6: map<Prefix, nat>)
    returns (v4: seq<Entry<nat>>, v6: seq<Entry<nat>>)
    requires AllValid(32, catalog4.Keys) && AllValid(128, catalog6.Keys)
    requires Compiled(ix.arena, true, ix.rootHi4, ix.rootLo4, refOf, catalog4)
    requires Compiled(ix.arena, false, ix.rootHi6, ix.rootLo6, refOf, catalog6)
    requires ExactCompiled(ix.arena, true, ix.rootHi4, ix.rootLo4, ix.exact4, refOf, catalog4)
    requires ExactCompiled(ix.arena, false, ix.rootHi6, ix.rootLo6, ix.exact6, refOf, catalog6)
    ensures Enumerates(ix.arena, true, ix.rootHi4, ix.rootLo4, ix.exact4, refOf, catalog4, v4)
    ensures Enumerates(ix.arena, false, ix.rootHi6, ix.rootLo6, ix.exact6, refOf, catalog6, v6)
  {
    hide Compiled, ExactCompiled, Enumerates, FamilyTo, Descends, Rising, WordsReal, AllValid;
    CompiledDescends(ix.arena, true, ix.rootHi4, ix.rootLo4, ix.exact4, refOf, catalog4);
    CompiledDescends(ix.arena, false, ix.rootHi6, ix.rootLo6, ix.exact6, refOf, catalog6);
    v4 := AllFamily(ix.arena, true, ix.rootHi4, ix.rootLo4, ix.exact4);
    v6 := AllFamily(ix.arena, false, ix.rootHi6, ix.rootLo6, ix.exact6);
    ListedIsCatalog(ix.arena, true, ix.rootHi4, ix.rootLo4, ix.exact4, refOf, catalog4, v4);
    ListedIsCatalog(ix.arena, false, ix.rootHi6, ix.rootLo6, ix.exact6, refOf, catalog6, v6);
  }
}
