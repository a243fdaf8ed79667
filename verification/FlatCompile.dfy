// flatart's compiler: appends strides, child references and leaves to the arenas, numbering
// values so that each stride's prefixes are consecutive, and pushing inherited defaults down.
module FlatCompile {
  import opened Options
  import opened Prefixes
  import opened Octets
  import opened Bitsets
  import opened Sorting
  import opened PathKeys
  import opened FlatIndex
  import opened FlatWalk
  import opened FlatBuild
  import opened FlatWeight
  import opened FlatSummary

  // What a stride needs to resolve an octet, whichever arena it will end up in.
  datatype Stage = Stage(host: seq<bool>, short: seq<bool>, hostBase: nat, shortBase: nat, hostPre: nat, shortPre: nat)

  // The stride resolves its own prefixes and its inherited default.
  ghost predicate StageOk(refOf: seq<nat>, s: Stage, pfx: map<nat, nat>, inherit: nat) {
    && |refOf| > 0 && refOf[0] == 0 && inherit < |refOf|
    && Staged(refOf, s.host, s.hostBase, s.hostPre, HostEntries(pfx))
    && Staged(refOf, s.short, s.shortBase, s.shortPre, ShortEntries(pfx, inherit, refOf[inherit]))
  }

  lemma StagedGrows(refOf: seq<nat>, refOf': seq<nat>, set_: seq<bool>, base: nat, pre: nat, entries: map<nat, nat>)
    requires Staged(refOf, set_, base, pre, entries) && refOf <= refOf'
    ensures Staged(refOf', set_, base, pre, entries)
  {
  }

  lemma StageGrows(refOf: seq<nat>, refOf': seq<nat>, s: Stage, pfx: map<nat, nat>, inherit: nat)
    requires StageOk(refOf, s, pfx, inherit) && refOf <= refOf'
    ensures StageOk(refOf', s, pfx, inherit)
  {
    StagedGrows(refOf, refOf', s.host, s.hostBase, s.hostPre, HostEntries(pfx));
    StagedGrows(refOf, refOf', s.short, s.shortBase, s.shortPre, ShortEntries(pfx, inherit, refOf[inherit]));
  }

  function StageResolve(s: Stage, o: nat): nat
    requires o < 256 && |s.host| == 256 && |s.short| == 256
  {
    Resolve(s.host, s.short, s.hostBase, s.shortBase, s.hostPre, s.shortPre, o)
  }

  // What the stride answers for any key below its path.
  lemma StageAnswers(refOf: seq<nat>, s: Stage, d: nat, t: Trie, i: nat, inherit: nat, a: seq<nat>)
    requires Inv(d, t) && i < |t.pool| && StageOk(refOf, s, t.pool[i].pfx, inherit)
    requires t.paths[i] <= a && |t.paths[i]| < |a| && IsKey(a)
    ensures StageResolve(s, a[|t.paths[i]|]) < |refOf|
    ensures AnswersOr(Own(t.stored, t.paths[i]), a, refOf[inherit], refOf[StageResolve(s, a[|t.paths[i]|])])
  {
    assert NodeOk(t, i);
    StrideAnswers(refOf, s.host, s.short, s.hostBase, s.shortBase, s.hostPre, s.shortPre,
                  t.pool[i].pfx, inherit, t.stored, t.paths[i], a);
  }

  // Nothing below the octet: the stride's own answer stands.
  lemma NothingBelow(m: map<Pos, nat>, path: seq<nat>, a: seq<nat>, default: nat, own: nat)
    requires path <= a && |path| < |a| && Nothing(m, path + [a[|path|]]) && forall x <- m :: x.idx < 512
    requires AnswersOr(Own(m, path), a, default, own)
    ensures AnswersOr(Sub(m, path), a, default, own)
  {
    assert Sub(m, path + [a[|path|]]) == map[];
    Combine(m, path, a, default, own, own);
  }

  // ---------------------------------------------------------------- the three arena entries

  lemma UnderOctet(is4: bool, key: nat, path: seq<nat>)
    requires Under(is4, key, path) && |path| < Strides(is4)
    ensures var a := KeyOctets(Strides(is4), key);
            a[|path|] == OctetAt(Strides(is4), key, |path|) && Under(is4, key, path + [a[|path|]]) && IsKey(a)
  {
    var a := KeyOctets(Strides(is4), key);
    assert path + [a[|path|]] == a[..|path| + 1];
  }

  // The stride's own answer for a key, final when no child lies at the key's octet.
  lemma OwnKey(is4: bool, refOf: seq<nat>, s: Stage, t: Trie, i: nat, inherit: nat, key: nat)
    requires Inv(Strides(is4), t) && i < |t.pool| && StageOk(refOf, s, t.pool[i].pfx, inherit)
    requires i < |t.paths| && Under(is4, key, t.paths[i])
    ensures |t.paths[i]| < Strides(is4) && inherit < |refOf| && |s.host| == 256 && |s.short| == 256
    ensures var o, x := OctetAt(Strides(is4), key, |t.paths[i]|), KeyOctets(Strides(is4), key);
            && x[|t.paths[i]|] == o && StageResolve(s, o) < |refOf| && Under(is4, key, t.paths[i] + [o])
            && AnswersOr(Own(t.stored, t.paths[i]), x, refOf[inherit], refOf[StageResolve(s, o)])
            && (o !in t.pool[i].children ==>
                  AnswersOr(Sub(t.stored, t.paths[i]), x, refOf[inherit], refOf[StageResolve(s, o)]))
    ensures t.paths[i] <= KeyOctets(Strides(is4), key) && forall x <- t.stored :: x.idx < 512
  {
    var x := KeyOctets(Strides(is4), key);
    UnderOctet(is4, key, t.paths[i]);
    StageAnswers(refOf, s, Strides(is4), t, i, inherit, x);
    assert NodeOk(t, i);
    if x[|t.paths[i]|] !in t.pool[i].children {
      NothingBelow(t.stored, t.paths[i], x, refOf[inherit], refOf[StageResolve(s, x[|t.paths[i]|])]);
    }
  }

  lemma StopRight(a: Arena, is4: bool, at: nat, fn: nat, fr: nat, s: Stage, t: Trie, i: nat, refOf: seq<nat>, inherit: nat)
    requires Inv(Strides(is4), t) && i < |t.pool| == |t.paths| && StageOk(refOf, s, t.pool[i].pfx, inherit)
    requires |t.pool[i].children| == 0
    requires at < |a.stops| && a.stops[at] == Stop(s.hostBase, s.shortBase, s.hostPre, s.shortPre, s.host, s.short)
    ensures SubtreeRight(a, is4, fn, fr, TAG_STOP + at, t.stored, t.paths[i], refOf, inherit)
  {
    hide Inv, StageOk, AnswersOr, Resolve, Under, OctetAt, Spot, Member, PackPrefixSums;
    StageBound(refOf, s, t.pool[i].pfx, inherit);
    forall key | Under(is4, key, t.paths[i])
      ensures KeyRight(a, is4, fn, fr, TAG_STOP + at, key, t.stored, t.paths[i], refOf, inherit)
    {
      OwnKey(is4, refOf, s, t, i, inherit, key);
    }
    forall x: Pos | Spot(is4, x) && t.paths[i] <= x.path
      ensures SpotRight(a, is4, fn, fr, TAG_STOP + at, x, t.stored, t.paths[i], refOf)
    {
      StageSpot(is4, refOf, s, t, i, inherit, x);
    }
  }

  // What a stride stores at a position below its path: one of its own values, or nothing when no child
  // leads there.
  lemma StageSpot(is4: bool, refOf: seq<nat>, s: Stage, t: Trie, i: nat, inherit: nat, x: Pos)
    requires Inv(Strides(is4), t) && i < |t.pool| == |t.paths| && StageOk(refOf, s, t.pool[i].pfx, inherit)
    requires Spot(is4, x) && t.paths[i] <= x.path
    ensures |x.path| < Strides(is4) && x.idx < 512 && |s.host| == 256 && |s.short| == 256 && StagePacked(s)
    ensures x.path == t.paths[i] ==>
              if x in t.stored then 0 < StageMember(s, x.idx) < |refOf| && refOf[StageMember(s, x.idx)] == t.stored[x]
              else StageMember(s, x.idx) == 0
    ensures |x.path| > |t.paths[i]| ==>
              x.path[|t.paths[i]|] < 256 && (x.path[|t.paths[i]|] !in t.pool[i].children ==> x !in t.stored)
  {
    var path, pfx := t.paths[i], t.pool[i].pfx;
    assert NodeOk(t, i);
    hide Inv, StageOk, Member, NodeOk, Lists, Nothing, StagePacked;
    StageIsPacked(refOf, s, t, i, inherit);
    NodeLists(t, i);
    if x.path == path {
      OwnSpot(refOf, s, pfx, inherit, t.stored, path, x);
    } else {
      DeepSpot(t, i, x);
    }
  }

  lemma NodeLists(t: Trie, i: nat)
    requires i < |t.pool| == |t.paths| && NodeOk(t, i)
    ensures Lists(t.pool[i].pfx, t.stored, t.paths[i])
  {
  }

  lemma OwnSpot(refOf: seq<nat>, s: Stage, pfx: map<nat, nat>, inherit: nat, m: map<Pos, nat>, path: seq<nat>, x: Pos)
    requires StageOk(refOf, s, pfx, inherit) && Lists(pfx, m, path) && x.path == path && 2 <= x.idx < 512
    ensures |s.host| == 256 && |s.short| == 256
    ensures if x in m then 0 < StageMember(s, x.idx) < |refOf| && refOf[StageMember(s, x.idx)] == m[x]
            else StageMember(s, x.idx) == 0
  {
    hide StageOk, Member;
    assert x == Pos(path, x.idx);
    StageOwn(refOf, s, pfx, inherit, x.idx);
  }

  lemma DeepSpot(t: Trie, i: nat, x: Pos)
    requires i < |t.pool| == |t.paths| && NodeOk(t, i) && t.paths[i] <= x.path && |x.path| > |t.paths[i]|
    requires IsKey(x.path)
    ensures x.path[|t.paths[i]|] < 256 && (x.path[|t.paths[i]|] !in t.pool[i].children ==> x !in t.stored)
  {
    hide Lists;
    if x in t.stored {
      assert t.paths[i] + [x.path[|t.paths[i]|]] <= x.path;
    }
  }

  function StageMember(s: Stage, idx: nat): nat
    requires idx < 512 && |s.host| == 256 && |s.short| == 256
  {
    Member(s.host, s.short, s.hostBase, s.shortBase, idx)
  }

  lemma StageOwn(refOf: seq<nat>, s: Stage, pfx: map<nat, nat>, inherit: nat, idx: nat)
    requires StageOk(refOf, s, pfx, inherit) && 2 <= idx < 512
    ensures |s.host| == 256 && |s.short| == 256
    ensures if idx in pfx then 0 < StageMember(s, idx) < |refOf| && refOf[StageMember(s, idx)] == pfx[idx]
            else StageMember(s, idx) == 0
  {
    if idx >= 256 {
      assert HostIdx(idx - 256) == idx;
    }
  }

  lemma StageBound(refOf: seq<nat>, s: Stage, pfx: map<nat, nat>, inherit: nat)
    requires StageOk(refOf, s, pfx, inherit)
    ensures inherit < |refOf| && |s.host| == 256 && |s.short| == 256
    ensures s.hostPre == PackPrefixSums(s.host) && s.shortPre == PackPrefixSums(s.short)
  {
  }

  ghost predicate StagePacked(s: Stage) {
    StridePacked(s.host, s.short, s.hostBase, s.shortBase, s.hostPre, s.shortPre)
  }

  lemma StageIsPacked(refOf: seq<nat>, s: Stage, t: Trie, i: nat, inherit: nat)
    requires i < |t.pool| == |t.paths| && NodeOk(t, i) && StageOk(refOf, s, t.pool[i].pfx, inherit)
    ensures StagePacked(s)
  {
    hide Rank, PackPrefixSums, HostEntries;
    assert Lists(t.pool[i].pfx, t.stored, t.paths[i]);
    assert 0 !in ShortEntries(t.pool[i].pfx, inherit, refOf[inherit]);
  }

  lemma LeafRight(a: Arena, is4: bool, at: nat, fn: nat, fr: nat, x: Pos, t: Trie, i: nat, refOf: seq<nat>, inherit: nat)
    requires Inv(Strides(is4), t) && i < |t.pool| && inherit < |refOf| && OnlyBelow(t.stored, t.paths[i], x)
    requires 1 <= x.idx < 512 && |x.path| < Strides(is4)
    requires at < |Leaves(a, is4)|
    requires var lf := Leaves(a, is4)[at];
             && Prefix(lf.key, lf.bits) == PosPrefix(Strides(is4), x) && lf.inherit == inherit
             && lf.value < |refOf| && refOf[lf.value] == t.stored[x]
    ensures SubtreeRight(a, is4, fn, fr, TAG_LEAF + at, t.stored, t.paths[i], refOf, inherit)
    requires at < TAG_NODE && refOf[0] == 0
  {
    var path := t.paths[i];
    StoredSpot(is4, t, i, x);
    hide Inv, Spot, PosPrefix, Under, Canonical, OnlyBelow;
    forall y: Pos | Spot(is4, y) && path <= y.path
      ensures SpotRight(a, is4, fn, fr, TAG_LEAF + at, y, t.stored, path, refOf)
    {
      LeafSpot(a, is4, at, fn, fr, x, t.stored, path, refOf, y);
    }
    forall key | Under(is4, key, path)
      ensures KeyRight(a, is4, fn, fr, TAG_LEAF + at, key, t.stored, path, refOf, inherit)
    {
      LeafKey(a, is4, at, fn, fr, x, t.stored, path, refOf, inherit, key);
    }
  }

  lemma LeafKey(a: Arena, is4: bool, at: nat, fn: nat, fr: nat, x: Pos, m: map<Pos, nat>, path: seq<nat>,
                refOf: seq<nat>, inherit: nat, key: nat)
    requires OnlyBelow(m, path, x) && Canonical(Ceil, Strides(is4), x) && inherit < |refOf|
    requires at < |Leaves(a, is4)| && at < TAG_NODE && Under(is4, key, path) && |path| < Strides(is4)
    requires var lf := Leaves(a, is4)[at];
             && 1 <= x.idx < 512 && |x.path| < Strides(is4) && Prefix(lf.key, lf.bits) == PosPrefix(Strides(is4), x)
             && lf.inherit == inherit && lf.value < |refOf| && refOf[lf.value] == m[x]
    ensures KeyRight(a, is4, fn, fr, TAG_LEAF + at, key, m, path, refOf, inherit)
  {
    var p := PosPrefix(Strides(is4), x);
    PosRoundTrip(Ceil, Strides(is4), x);
    PosCoversIsCovers(Ceil, Strides(is4), p, key);
    hide PosPrefix, PosOf, Canonical, Covers, PosCovers, OctetAt, AnswersOr, Valid;
    OnlyAnswers(m, path, x, KeyOctets(Strides(is4), key), refOf[inherit]);
  }

  lemma StoredSpot(is4: bool, t: Trie, i: nat, x: Pos)
    requires Inv(Strides(is4), t) && i < |t.pool| && OnlyBelow(t.stored, t.paths[i], x)
    ensures Canonical(Ceil, Strides(is4), x) && Spot(is4, x) && t.stored[x] > 0 && |t.paths[i]| < Strides(is4)
  {
  }

  lemma LeafSpot(a: Arena, is4: bool, at: nat, fn: nat, fr: nat, x: Pos, m: map<Pos, nat>, path: seq<nat>,
                 refOf: seq<nat>, y: Pos)
    requires OnlyBelow(m, path, x) && Spot(is4, x) && m[x] > 0
    requires at < |Leaves(a, is4)| && at < TAG_NODE && Spot(is4, y) && path <= y.path
    requires |refOf| > 0 && refOf[0] == 0
    requires var lf := Leaves(a, is4)[at];
             && 1 <= x.idx < 512 && |x.path| < Strides(is4) && Prefix(lf.key, lf.bits) == PosPrefix(Strides(is4), x)
             && lf.value < |refOf| && refOf[lf.value] == m[x]
    ensures SpotRight(a, is4, fn, fr, TAG_LEAF + at, y, m, path, refOf)
  {
    hide PosPrefix, PosOf, Valid, LeafFits, Spot;
    LeafIsFit(is4, Leaves(a, is4)[at], x, path);
    SpotPrefix(is4, x);
    SpotPrefix(is4, y);
    assert y.path[..|path|] == path;
  }

  lemma LeafIsFit(is4: bool, lf: Leaf, x: Pos, path: seq<nat>)
    requires Spot(is4, x) && Prefix(lf.key, lf.bits) == PosPrefix(Strides(is4), x) && lf.value > 0 && path <= x.path
    ensures LeafFits(is4, lf, path)
  {
    hide PosPrefix, PosOf;
    SpotPrefix(is4, x);
  }

  lemma OnlyAnswers(m: map<Pos, nat>, path: seq<nat>, x: Pos, a: seq<nat>, default: nat)
    requires OnlyBelow(m, path, x)
    ensures AnswersOr(Sub(m, path), a, default, if PosCovers(x, a) then m[x] else default)
  {
    assert Sub(m, path).Keys == {x};
    if PosCovers(x, a) {
      assert PosLongest(Sub(m, path).Keys, a, x);
    }
  }

  // A node stride whose groups hold the child set and absolute child indices.
  ghost predicate NodeIs(n: Node, s: Stage, kids: seq<bool>, refBase: nat) {
    && NodeWf(n) && |kids| == 256 && n.host == s.host && n.short == s.short
    && n.groups[0].aux == s.hostBase && n.groups[1].aux == s.shortBase
    && n.groups[2].aux == s.hostPre && n.groups[3].aux == s.shortPre
    && forall g :: 0 <= g < 4 ==> n.groups[g].mask == kids[64 * g..64 * g + 64]
                                  && n.groups[g].slot == refBase + Rank(kids, 64 * g)
  }

  lemma NodeReads(n: Node, s: Stage, kids: seq<bool>, refBase: nat, o: nat)
    requires NodeIs(n, s, kids, refBase) && o < 256
    ensures HasKid(n, o) == kids[o] && KidIndex(n, o) == refBase + Rank(kids, o)
  {
    var g := o / 64;
    assert n.groups[g].mask[..o % 64] == kids[64 * g..o];
    CountSplit(kids, 64 * g, o);
  }

  // Every child slot of a finished node answers for the prefixes below it.
  ghost predicate KidsRight(a: Arena, is4: bool, fn: nat, fr: nat, kids: seq<bool>, refBase: nat, upto: nat,
                            s: Stage, m: map<Pos, nat>, path: seq<nat>, refOf: seq<nat>)
    requires upto <= 256 == |kids| && |s.host| == 256 && |s.short| == 256
  {
    forall o | 0 <= o < upto && kids[o] ::
      && refBase + Rank(kids, o) < |a.refs| && a.refs[refBase + Rank(kids, o)] >= TAG_NODE
      && SubtreeRight(a, is4, fn, fr, a.refs[refBase + Rank(kids, o)], m, path + [o], refOf, StageResolve(s, o))
  }

  lemma NodeRight(a: Arena, is4: bool, at: nat, gn: nat, gr: nat, kids: seq<bool>, refBase: nat, s: Stage,
                  t: Trie, i: nat, refOf: seq<nat>, inherit: nat)
    requires Inv(Strides(is4), t) && i < |t.pool| == |t.paths| && StageOk(refOf, s, t.pool[i].pfx, inherit)
    requires |s.host| == 256 && |s.short| == 256
    requires |kids| == 256 && forall o :: 0 <= o < 256 ==> (kids[o] <==> o in t.pool[i].children)
    requires at < |a.nodes| && at < TAG_NODE && NodeIs(a.nodes[at], s, kids, refBase)
    requires at <= gn && refBase <= gr
    requires KidsRight(a, is4, gn, gr, kids, refBase, 256, s, t.stored, t.paths[i], refOf)
    ensures SubtreeRight(a, is4, at, refBase, TAG_NODE + at, t.stored, t.paths[i], refOf, inherit)
  {
    hide Inv, StageOk, AnswersOr, Resolve, Under, OctetAt, Walk, NodeIs;
    assert inherit < |refOf| by { StageBound(refOf, s, t.pool[i].pfx, inherit); }
    forall key | Under(is4, key, t.paths[i])
      ensures KeyRight(a, is4, at, refBase, TAG_NODE + at, key, t.stored, t.paths[i], refOf, inherit)
    {
      NodeKey(a, is4, at, gn, gr, kids, refBase, s, t, i, refOf, inherit, key);
    }
    forall x: Pos | Spot(is4, x) && t.paths[i] <= x.path
      ensures SpotRight(a, is4, at, refBase, TAG_NODE + at, x, t.stored, t.paths[i], refOf)
    {
      NodeSpot(a, is4, at, gn, gr, kids, refBase, s, t, i, refOf, inherit, x);
    }
  }

  lemma NodeSpot(a: Arena, is4: bool, at: nat, gn: nat, gr: nat, kids: seq<bool>, refBase: nat, s: Stage,
                 t: Trie, i: nat, refOf: seq<nat>, inherit: nat, x: Pos)
    requires Inv(Strides(is4), t) && i < |t.pool| == |t.paths| && StageOk(refOf, s, t.pool[i].pfx, inherit)
    requires |s.host| == 256 && |s.short| == 256 && Spot(is4, x) && t.paths[i] <= x.path
    requires |kids| == 256 && forall o :: 0 <= o < 256 ==> (kids[o] <==> o in t.pool[i].children)
    requires at < |a.nodes| && at < TAG_NODE && NodeIs(a.nodes[at], s, kids, refBase)
    requires at <= gn && refBase <= gr
    requires KidsRight(a, is4, gn, gr, kids, refBase, 256, s, t.stored, t.paths[i], refOf)
    ensures SpotRight(a, is4, at, refBase, TAG_NODE + at, x, t.stored, t.paths[i], refOf)
  {
    hide Inv, StageOk, Spot, ExactWalk, NodeIs, HasKid, KidIndex, SubtreeRight, Member, Resolve;
    var path := t.paths[i];
    StageBound(refOf, s, t.pool[i].pfx, inherit);
    StageSpot(is4, refOf, s, t, i, inherit, x);
    NodeExactWalk(a, is4, at, refBase, x, |path|, s, kids);
    if |x.path| == |path| {
      assert x.path == path;
    } else {
      var o := x.path[|path|];
      if kids[o] {
        var r := a.refs[refBase + Rank(kids, o)];
        KidSpot(a, is4, gn, gr, at, refBase, r, t.stored, path, o, refOf, StageResolve(s, o), x);
      }
    }
  }

  lemma KidSpot(a: Arena, is4: bool, fn: nat, fr: nat, gn: nat, gr: nat, r: nat, m: map<Pos, nat>, path: seq<nat>,
                o: nat, refOf: seq<nat>, inherit: nat, x: Pos)
    requires SubtreeRight(a, is4, fn, fr, r, m, path + [o], refOf, inherit) && gn <= fn && gr <= fr
    requires Spot(is4, x) && path <= x.path && |path| < |x.path| && x.path[|path|] == o
    ensures match ExactWalk(a, is4, gn, gr, r, x, |path| + 1)
            case None => false
            case Some(v) => if x in m then 0 < v < |refOf| && refOf[v] == m[x] else v == 0
  {
    hide ExactWalk, Spot, KeysRight;
    assert path + [o] <= x.path;
    assert SpotRight(a, is4, fn, fr, r, x, m, path + [o], refOf);
    ExactWalkKept(a, a, is4, fn, fr, gn, gr, r, x, |path| + 1);
  }

  // One step of the descent to a position through a finished node.
  lemma NodeExactWalk(a: Arena, is4: bool, at: nat, refBase: nat, x: Pos, i: nat, s: Stage, kids: seq<bool>)
    requires at < |a.nodes| && at < TAG_NODE && NodeIs(a.nodes[at], s, kids, refBase)
    requires i <= |x.path| < Strides(is4) && x.idx < 512 && (i < |x.path| ==> x.path[i] < 256)
    requires |s.host| == 256 && |s.short| == 256 && StagePacked(s)
    ensures ExactWalk(a, is4, at, refBase, TAG_NODE + at, x, i) ==
              if i == |x.path| then Some(StageMember(s, x.idx))
              else if !kids[x.path[i]] then Some(0)
              else if refBase + Rank(kids, x.path[i]) < |a.refs| && a.refs[refBase + Rank(kids, x.path[i])] >= TAG_NODE
              then ExactWalk(a, is4, at, refBase, a.refs[refBase + Rank(kids, x.path[i])], x, i + 1) else None
  {
    hide HasKid, KidIndex, Member, Rank, PackPrefixSums, NodeIs, NodePacked, NodeMember, StageMember, LeafMember, StopMember,
         StagePacked;
    NodeHolds(a.nodes[at], s, kids, refBase, x.idx);
    if i < |x.path| {
      NodeReads(a.nodes[at], s, kids, refBase, x.path[i]);
    }
  }

  lemma NodeHolds(n: Node, s: Stage, kids: seq<bool>, refBase: nat, idx: nat)
    requires NodeIs(n, s, kids, refBase) && idx < 512 && |s.host| == 256 && |s.short| == 256 && StagePacked(s)
    ensures NodeWf(n) && NodePacked(n) && NodeMember(n, idx) == StageMember(s, idx)
  {
    hide Packed;
  }

  lemma NodeKey(a: Arena, is4: bool, at: nat, gn: nat, gr: nat, kids: seq<bool>, refBase: nat, s: Stage,
                t: Trie, i: nat, refOf: seq<nat>, inherit: nat, key: nat)
    requires Inv(Strides(is4), t) && i < |t.pool| == |t.paths| && StageOk(refOf, s, t.pool[i].pfx, inherit)
    requires |s.host| == 256 && |s.short| == 256 && inherit < |refOf| && Under(is4, key, t.paths[i])
    requires |kids| == 256 && forall o :: 0 <= o < 256 ==> (kids[o] <==> o in t.pool[i].children)
    requires at < |a.nodes| && at < TAG_NODE && NodeIs(a.nodes[at], s, kids, refBase)
    requires at <= gn && refBase <= gr
    requires KidsRight(a, is4, gn, gr, kids, refBase, 256, s, t.stored, t.paths[i], refOf)
    ensures KeyRight(a, is4, at, refBase, TAG_NODE + at, key, t.stored, t.paths[i], refOf, inherit)
  {
    hide Inv, StageOk, AnswersOr, Resolve, Under, OctetAt, Walk, NodeIs, HasKid, KidIndex;
    var path := t.paths[i];
    OwnKey(is4, refOf, s, t, i, inherit, key);
    var x, o := KeyOctets(Strides(is4), key), OctetAt(Strides(is4), key, |path|);
    NodeReads(a.nodes[at], s, kids, refBase, o);
    NodeWalk(a, is4, at, refBase, key, |path|, s, kids);
    if kids[o] {
      var r := a.refs[refBase + Rank(kids, o)];
      SubtreeKept(a, a, is4, gn, gr, at, refBase, r, t.stored, path + [o], refOf, refOf, StageResolve(s, o));
      assert KeyRight(a, is4, at, refBase, r, key, t.stored, path + [o], refOf, StageResolve(s, o));
      var v := Walk(a, is4, at, refBase, r, key, |path| + 1).value;
      Combine(t.stored, path, x, refOf[inherit], refOf[StageResolve(s, o)], refOf[v]);
    }
  }

  // One step of the descent through a finished node.
  lemma NodeWalk(a: Arena, is4: bool, at: nat, refBase: nat, key: nat, i: nat, s: Stage, kids: seq<bool>)
    requires at < |a.nodes| && at < TAG_NODE && NodeIs(a.nodes[at], s, kids, refBase) && i < Strides(is4)
    requires |s.host| == 256 && |s.short| == 256
    ensures var o := OctetAt(Strides(is4), key, i);
            Walk(a, is4, at, refBase, TAG_NODE + at, key, i) ==
              if !kids[o] then Some(StageResolve(s, o))
              else if refBase + Rank(kids, o) < |a.refs| && a.refs[refBase + Rank(kids, o)] >= TAG_NODE
              then Walk(a, is4, at, refBase, a.refs[refBase + Rank(kids, o)], key, i + 1) else None
  {
    NodeReads(a.nodes[at], s, kids, refBase, OctetAt(Strides(is4), key, i));
    hide HasKid, KidIndex, Resolve, OctetAt, Rank;
  }

  // ---------------------------------------------------------------- the compiler

  ghost predicate Extends(a: Arena, b: Arena) {
    a.nodes <= b.nodes && a.stops <= b.stops && a.refs <= b.refs && a.leaf4 <= b.leaf4 && a.leaf6 <= b.leaf6
  }

  // Growth that may rewrite child references from r on.
  ghost predicate GrownAbove(a: Arena, b: Arena, r: nat) {
    && a.nodes <= b.nodes && a.stops <= b.stops && a.leaf4 <= b.leaf4 && a.leaf6 <= b.leaf6
    && r <= |a.refs| <= |b.refs| && a.refs[..r] == b.refs[..r]
  }

  // Reserving a node and k references, emitting below them and patching the node is growth.
  lemma NodeExtends(a: Arena, b: Arena, c: Arena, pending: Node, k: nat, n: Node)
    requires b == a.(nodes := a.nodes + [pending], refs := a.refs + seq(k, _ => 0)) && GrownAbove(b, c, |a.refs|)
    ensures Extends(a, c) && |a.nodes| < |c.nodes| && Extends(a, c.(nodes := c.nodes[|a.nodes| := n]))
  {
    assert a.refs == b.refs[..|a.refs|];
  }

  // Some arena has as many entries as a reference can name.
  ghost predicate Full(a: Arena) {
    |a.nodes| > REF_MASK || |a.stops| > REF_MASK || |a.refs| + 256 > REF_MASK
    || |a.leaf4| > REF_MASK || |a.leaf6| > REF_MASK
  }

  function KidSet(children: map<nat, nat>): (kids: seq<bool>)
    ensures |kids| == 256 && forall o :: 0 <= o < 256 ==> (kids[o] <==> o in children)
  {
    seq(256, o => o in children)
  }

  // The groups of a finished node: masks, absolute indices of first children, packed resolution state.
  function FinishedNode(s: Stage, kids: seq<bool>, refBase: nat): (n: Node)
    requires |kids| == 256 && |s.host| == 256 && |s.short| == 256
    ensures NodeIs(n, s, kids, refBase)
  {
    Node([Group(kids[0..64], refBase + Rank(kids, 0), s.hostBase),
          Group(kids[64..128], refBase + Rank(kids, 64), s.shortBase),
          Group(kids[128..192], refBase + Rank(kids, 128), s.hostPre),
          Group(kids[192..256], refBase + Rank(kids, 192), s.shortPre)], s.host, s.short)
  }

  // The pending form: resolution state only, no children yet.
  function PendingNode(s: Stage): (n: Node) {
    var none := Zeros(64);
    Node([Group(none, 0, s.hostBase), Group(none, 0, s.shortBase), Group(none, 0, s.hostPre), Group(none, 0, s.shortPre)],
         s.host, s.short)
  }

  lemma KidsKept(a: Arena, b: Arena, is4: bool, fn: nat, fr: nat, kids: seq<bool>, refBase: nat, upto: nat,
                 s: Stage, m: map<Pos, nat>, path: seq<nat>, refOf: seq<nat>, refOf': seq<nat>)
    requires upto <= 256 == |kids| && |s.host| == 256 && |s.short| == 256
    requires KidsRight(a, is4, fn, fr, kids, refBase, upto, s, m, path, refOf)
    requires Keeps(a, b, fn, fr) && refOf <= refOf'
    requires forall r :: refBase <= r < refBase + Rank(kids, upto) && r < |a.refs| ==> b.refs[r] == a.refs[r]
    ensures KidsRight(b, is4, fn, fr, kids, refBase, upto, s, m, path, refOf')
  {
    hide SubtreeRight, Rank, Resolve;
    forall o | 0 <= o < upto && kids[o]
      ensures refBase + Rank(kids, o) < |b.refs| && b.refs[refBase + Rank(kids, o)] >= TAG_NODE
      ensures SubtreeRight(b, is4, fn, fr, b.refs[refBase + Rank(kids, o)], m, path + [o], refOf', StageResolve(s, o))
    {
      RankMono(kids, o, upto);
      SubtreeKept(a, b, is4, fn, fr, fn, fr, a.refs[refBase + Rank(kids, o)], m, path + [o], refOf, refOf', StageResolve(s, o));
    }
  }

  // The finished node answers for its subtree.
  lemma Finished(a: Arena, b: Arena, is4: bool, at: nat, kids: seq<bool>, refBase: nat, s: Stage,
                 t: Trie, i: nat, refOf: seq<nat>, inherit: nat)
    requires Inv(Strides(is4), t) && i < |t.pool| == |t.paths| && StageOk(refOf, s, t.pool[i].pfx, inherit)
    requires |s.host| == 256 && |s.short| == 256 && kids == KidSet(t.pool[i].children)
    requires at < |a.nodes| && at < TAG_NODE && b == a.(nodes := a.nodes[at := FinishedNode(s, kids, refBase)])
    requires KidsRight(a, is4, at + 1, refBase + Count(kids), kids, refBase, 256, s, t.stored, t.paths[i], refOf)
    ensures SubtreeRight(b, is4, at, refBase, TAG_NODE + at, t.stored, t.paths[i], refOf, inherit)
  {
    hide Inv, KidsRight, SubtreeRight, StageOk, NodeIs;
    var fr := refBase + Count(kids);
    KidsKept(a, b, is4, at + 1, fr, kids, refBase, 256, s, t.stored, t.paths[i], refOf, refOf);
    NodeRight(b, is4, at, at + 1, fr, kids, refBase, s, t, i, refOf, inherit);
  }

  lemma NextKid(kids: seq<bool>, o: nat)
    requires o < 256 == |kids| && kids[o]
    ensures Rank(kids, o + 1) == Rank(kids, o) + 1 <= Count(kids)
  {
    RankStep(kids, o);
    RankMono(kids, o + 1, 256);
    RankAll(kids);
  }

  // One more child emitted and its reserved reference patched.
  lemma KidStep(a: Arena, b: Arena, is4: bool, fn: nat, fr: nat, kids: seq<bool>, refBase: nat, o: nat, ref: nat,
                s: Stage, m: map<Pos, nat>, path: seq<nat>, refOf: seq<nat>, refOf': seq<nat>)
    requires o < 256 == |kids| && |s.host| == 256 && |s.short| == 256 && kids[o] && ref >= TAG_NODE
    requires KidsRight(a, is4, fn, fr, kids, refBase, o, s, m, path, refOf)
    requires Extends(a, b) && fn <= |a.nodes| && fr == refBase + Count(kids) <= |a.refs| && refOf <= refOf'
    requires SubtreeRight(b, is4, |a.nodes|, |a.refs|, ref, m, path + [o], refOf', StageResolve(s, o))
    ensures refBase + Rank(kids, o) < |b.refs| && Rank(kids, o + 1) == Rank(kids, o) + 1
    ensures KidsRight(b.(refs := b.refs[refBase + Rank(kids, o) := ref]), is4, fn, fr, kids, refBase, o + 1, s, m, path, refOf')
  {
    hide SubtreeRight, Rank, Count, Resolve, KidsRight;
    NextKid(kids, o);
    var c := b.(refs := b.refs[refBase + Rank(kids, o) := ref]);
    KidsKept(a, c, is4, fn, fr, kids, refBase, o, s, m, path, refOf, refOf');
    SubtreeKept(b, c, is4, |a.nodes|, |a.refs|, fn, fr, ref, m, path + [o], refOf', refOf', StageResolve(s, o));
    KidAdded(c, is4, fn, fr, kids, refBase, o, s, m, path, refOf');
  }

  lemma KidAdded(a: Arena, is4: bool, fn: nat, fr: nat, kids: seq<bool>, refBase: nat, o: nat,
                 s: Stage, m: map<Pos, nat>, path: seq<nat>, refOf: seq<nat>)
    requires o < 256 == |kids| && |s.host| == 256 && |s.short| == 256
    requires KidsRight(a, is4, fn, fr, kids, refBase, o, s, m, path, refOf)
    requires refBase + Rank(kids, o) < |a.refs| && a.refs[refBase + Rank(kids, o)] >= TAG_NODE
    requires SubtreeRight(a, is4, fn, fr, a.refs[refBase + Rank(kids, o)], m, path + [o], refOf, StageResolve(s, o))
    ensures KidsRight(a, is4, fn, fr, kids, refBase, o + 1, s, m, path, refOf)
  {
    hide SubtreeRight, Rank, Resolve;
  }

  lemma KidSkip(a: Arena, is4: bool, fn: nat, fr: nat, kids: seq<bool>, refBase: nat, o: nat,
                s: Stage, m: map<Pos, nat>, path: seq<nat>, refOf: seq<nat>)
    requires o < 256 == |kids| && |s.host| == 256 && |s.short| == 256 && !kids[o]
    requires KidsRight(a, is4, fn, fr, kids, refBase, o, s, m, path, refOf)
    ensures KidsRight(a, is4, fn, fr, kids, refBase, o + 1, s, m, path, refOf)
  {
  }

  lemma OwnPositive(d: nat, t: Trie, i: nat)
    requires Inv(d, t) && i < |t.pool|
    ensures forall idx <- t.pool[i].pfx :: t.pool[i].pfx[idx] > 0
  {
    assert NodeOk(t, i);
  }

  lemma RankZero(bits: seq<bool>)
    ensures Rank(bits, 0) == 0
  {
  }

  // Host and short entries are different prefixes of the stride, and the default is one more.
  lemma EntriesFit(pfx: map<nat, nat>, inherit: nat, default: nat)
    ensures |HostEntries(pfx)| + |ShortEntries(pfx, inherit, default)| <= |pfx| + 1
  {
    var host, short := HostEntries(pfx).Keys, ShortEntries(pfx, inherit, default).Keys;
    var high := set o | o in host :: HostIdx(o);
    SameMany(host, high);
    var low := short - {1};
    assert high <= pfx.Keys && low <= pfx.Keys && high !! low;
    BothWithin(high, low, pfx.Keys);
    assert |short| <= |low| + 1 by {
      assert short <= low + {1};
      Subset(short, low + {1});
    }
  }

  lemma {:induction false} SameMany(s: set<nat>, r: set<nat>)
    requires r == set o | o in s :: HostIdx(o)
    ensures |r| == |s|
  {
    if s != {} {
      var o :| o in s;
      SameMany(s - {o}, r - {HostIdx(o)});
    }
  }

  lemma BothWithin(s: set<nat>, r: set<nat>, all: set<nat>)
    requires s <= all && r <= all && s !! r
    ensures |s| + |r| <= |all|
  {
    assert |s + r| == |s| + |r|;
    Subset(s + r, all);
  }

  // A set of octets has as many bits as it has members.
  lemma {:induction false} FewerThan(bits: seq<bool>, members: set<nat>, n: nat)
    requires n <= |bits| && forall i :: 0 <= i < n && bits[i] ==> i in members
    ensures Rank(bits, n) <= |members|
  {
    if n > 0 {
      RankStep(bits, n - 1);
      hide Rank;
      if bits[n - 1] {
        FewerThan(bits, members - {n - 1}, n - 1);
      } else {
        FewerThan(bits, members, n - 1);
      }
    } else {
      RankZero(bits);
    }
  }

  lemma SummaryAt(d: nat, t: Trie, sums: map<nat, Summary>, i: nat)
    requires i < |t.paths| && SumsOk(d, t, sums) && Summarised(t, sums, i)
    ensures i in sums && SummaryOk(d, t, i, sums[i])
  {
    hide SummaryOk;
    assert t.paths[i] <= t.paths[i];
  }

  // The sole prefix of a summarised subtree, and its reference.
  lemma OnlyOf(d: nat, t: Trie, i: nat, s: Summary) returns (x: Pos)
    requires Inv(d, t) && i < |t.paths| && SummaryOk(d, t, i, s) && s.count == 1
    ensures OnlyBelow(t.stored, t.paths[i], x) && 1 <= x.idx < 512 && |x.path| < d
    ensures s.only == PosPrefix(d, x) && s.ref == t.stored[x] && s.ref > 0
  {
    x :| OnlyIs(d, t.stored, t.paths[i], x, s.only, s.ref);
  }

  class Compiler {
    var refOf: seq<nat>
    var nodes: seq<Node>
    var stops: seq<Stop>
    var refs: seq<nat>
    var leaf4: seq<Leaf>
    var leaf6: seq<Leaf>

    ghost function Now(): Arena
      reads this
    {
      Arena(nodes, stops, refs, leaf4, leaf6)
    }

    // Values assigned and arena entries made so far.
    ghost function Size(): nat
      reads this
    {
      |refOf| + |nodes| + |stops| + |refs| + |leaf4| + |leaf6|
    }

    // Value zero means no match and has no reference; all other values have one.
    ghost predicate Ready()
      reads this
    {
      |refOf| > 0 && refOf[0] == 0 && forall v :: 0 < v < |refOf| ==> refOf[v] > 0
    }

    constructor ()
      ensures Ready() && refOf == [0] && Now() == Arena([], [], [], [], [])
    {
      refOf, nodes, stops, refs, leaf4, leaf6 := [0], [], [], [], [], [];
    }

    // Gives the reference a value of its own, numbered after all the others.
    method Assign(ref: nat) returns (value: nat)
      requires Ready() && ref > 0
      modifies this`refOf
      ensures Ready() && value == old(|refOf|) && refOf == old(refOf) + [ref]
    {
      value := |refOf|;
      refOf := refOf + [ref];
    }

    // Numbers a set of stride prefixes one after another, lowest index first.
    method AssignRun(entries: map<nat, nat>) returns (bits: seq<bool>, base: nat)
      requires Ready() && forall i <- entries :: entries[i] > 0
      modifies this`refOf
      ensures Ready() && old(refOf) <= refOf && |bits| == 256
      ensures Staged(refOf, bits, base, PackPrefixSums(bits), entries)
      ensures |refOf| <= old(|refOf|) + |entries|
    {
      hide Rank, PackPrefixSums;
      ghost var start := |refOf|;
      bits, base := Zeros(256), 0;
      RankZero(bits);
      for i := 0 to 256
        invariant Ready() && old(refOf) <= refOf && |bits| == 256 && |refOf| == start + Rank(bits, i)
        invariant forall j :: 0 <= j < i ==> (bits[j] <==> j in entries)
        invariant forall j :: i <= j < 256 ==> !bits[j]
        invariant forall j :: 0 <= j < i && bits[j] ==>
                    start + Rank(bits, j) < |refOf| && refOf[start + Rank(bits, j)] == entries[j]
        invariant if Rank(bits, i) == 0 then base == 0 else base == start
      {
        if i in entries {
          ghost var before := bits;
          bits := bits[i := true];
          forall j | 0 <= j <= i ensures Rank(bits, j) == Rank(before, j) {
            RankUpdate(before, i, true, j);
          }
          var value := Assign(entries[i]);
          if base == 0 {
            base := value;
          }
        }
        RankStep(bits, i);
      }
      forall i | 0 <= i < 256 && bits[i] ensures base == start {
        RankMono(bits, i, 256);
      }
      FewerThan(bits, entries.Keys, 256);
    }

    // Emits node i of the build trie with everything below it and returns the tagged reference.
    method Flatten(d: nat, pool: seq<BNode>, i: nat, inherit: nat, sums: map<nat, Summary>, is4: bool, ghost t: Trie)
      returns (ref: nat, err: bool)
      requires Ready() && inherit < |refOf| && d == Strides(is4) && Inv(d, t) && pool == t.pool && i < |pool| == |t.paths|
      requires SumsOk(d, t, sums) && Summarised(t, sums, i)
      modifies this
      ensures Ready() && old(refOf) <= refOf && Extends(old(Now()), Now())
      ensures err ==> Full(Now())
      ensures !err ==> ref >= TAG_NODE
      ensures !err ==>
                SubtreeRight(Now(), is4, old(|nodes|), old(|refs|), ref, t.stored, t.paths[i], refOf, inherit)
      ensures !err ==> Size() < old(Size()) + Weight(t, t.paths[i], |pool|)
      ensures err ==> old(Size()) + Weight(t, t.paths[i], |pool|) > REF_MASK
      decreases |pool| - i, 4
    {
      hide Inv, SumsOk, Summarised, SubtreeRight, StageOk, Weight, SummaryOk;
      SummaryAt(d, t, sums, i);
      WeightOwn(t, i, 0, |pool|);
      if sums[i].count == 1 {
        ref, err := EmitLeaf(d, i, sums[i], inherit, is4, t);
        return;
      }
      var bn := pool[i];
      OwnPositive(d, t, i);
      var s := MakeStage(bn.pfx, inherit);
      if |bn.children| == 0 {
        ref, err := EmitStop(d, i, s, inherit, is4, t);
      } else {
        ref, err := EmitNode(d, pool, i, s, inherit, sums, is4, t);
      }
    }

    // Numbers the stride's own prefixes: stride-aligned ones first, then the partial ones with the
    // inherited default at index 1.
    method MakeStage(pfx: map<nat, nat>, inherit: nat) returns (s: Stage)
      requires Ready() && inherit < |refOf| && forall idx <- pfx :: pfx[idx] > 0
      modifies this`refOf
      ensures Ready() && old(refOf) <= refOf && StageOk(refOf, s, pfx, inherit)
      ensures |refOf| <= old(|refOf|) + |pfx| + 1
    {
      var host, hostBase := AssignRun(HostEntries(pfx));
      ghost var middle := refOf;
      var short, shortBase := AssignRun(ShortEntries(pfx, inherit, refOf[inherit]));
      StagedGrows(middle, refOf, host, hostBase, PackPrefixSums(host), HostEntries(pfx));
      s := Stage(host, short, hostBase, shortBase, PackPrefixSums(host), PackPrefixSums(short));
      EntriesFit(pfx, inherit, refOf[inherit]);
    }

    method EmitLeaf(d: nat, ghost i: nat, only: Summary, inherit: nat, is4: bool, ghost t: Trie)
      returns (ref: nat, err: bool)
      requires Ready() && inherit < |refOf| && d == Strides(is4) && Inv(d, t) && i < |t.pool| == |t.paths|
      requires SummaryOk(d, t, i, only) && only.count == 1
      modifies this
      ensures Ready() && old(refOf) <= refOf && Extends(old(Now()), Now())
      ensures err ==> Full(Now())
      ensures !err ==> ref >= TAG_NODE
      ensures !err ==>
                SubtreeRight(Now(), is4, old(|nodes|), old(|refs|), ref, t.stored, t.paths[i], refOf, inherit)
      ensures !err ==> Size() == old(Size()) + 2
      ensures err ==> old(Size()) > REF_MASK
    {
      hide Inv, SubtreeRight, SummaryOk, PosPrefix, OnlyBelow, PosLen, IdxLen;
      ghost var x := OnlyOf(d, t, i, only);
      var value := Assign(only.ref);
      var lf := Leaf(only.only.key, only.only.len, value, inherit);
      var index := if is4 then |leaf4| else |leaf6|;
      if index > REF_MASK {
        return 0, true;
      }
      if is4 { leaf4 := leaf4 + [lf]; } else { leaf6 := leaf6 + [lf]; }
      ref, err := TAG_LEAF + index, false;
      LeafRight(Now(), is4, index, old(|nodes|), old(|refs|), x, t, i, refOf, inherit);
    }

    method EmitStop(d: nat, ghost i: nat, s: Stage, inherit: nat, is4: bool, ghost t: Trie)
      returns (ref: nat, err: bool)
      requires Ready() && d == Strides(is4) && Inv(d, t) && i < |t.pool| == |t.paths|
      requires StageOk(refOf, s, t.pool[i].pfx, inherit) && |t.pool[i].children| == 0
      modifies this`stops
      ensures Extends(old(Now()), Now())
      ensures err ==> Full(Now())
      ensures !err ==> ref >= TAG_NODE
      ensures !err ==>
                SubtreeRight(Now(), is4, |nodes|, |refs|, ref, t.stored, t.paths[i], refOf, inherit)
      ensures !err ==> Size() == old(Size()) + 1
      ensures err ==> old(Size()) > REF_MASK
    {
      var index := |stops|;
      if index > REF_MASK {
        return 0, true;
      }
      stops := stops + [Stop(s.hostBase, s.shortBase, s.hostPre, s.shortPre, s.host, s.short)];
      StopRight(Now(), is4, index, |nodes|, |refs|, s, t, i, refOf, inherit);
      return TAG_STOP + index, false;
    }

    // Parks the pending node and reserves one reference per child.
    method Reserve(s: Stage, k: nat) returns (err: bool)
      requires k <= 256
      modifies this`nodes, this`refs
      ensures err ==> Full(Now()) && Extends(old(Now()), Now()) && old(Size()) + k > REF_MASK
      ensures !err ==> |old(nodes)| < TAG_NODE && Now() == old(Now()).(nodes := old(nodes) + [PendingNode(s)],
                                                                       refs := old(refs) + seq(k, _ => 0))
    {
      if |nodes| > REF_MASK {
        return true;
      }
      nodes := nodes + [PendingNode(s)];
      if |refs| + k > REF_MASK {
        return true;
      }
      refs := refs + seq(k, _ => 0);
      return false;
    }

    // Child references are reserved first and patched as the children are emitted; the node's
    // groups are patched last.
    method EmitNode(d: nat, pool: seq<BNode>, i: nat, s: Stage, inherit: nat, sums: map<nat, Summary>, is4: bool,
                    ghost t: Trie) returns (ref: nat, err: bool)
      requires Ready() && d == Strides(is4) && Inv(d, t) && pool == t.pool && i < |pool| == |t.paths|
      requires StageOk(refOf, s, pool[i].pfx, inherit) && SumsOk(d, t, sums) && Summarised(t, sums, i)
      modifies this
      ensures Ready() && old(refOf) <= refOf && Extends(old(Now()), Now())
      ensures err ==> Full(Now())
      ensures !err ==> ref >= TAG_NODE
      ensures !err ==>
                SubtreeRight(Now(), is4, old(|nodes|), old(|refs|), ref, t.stored, t.paths[i], refOf, inherit)
      ensures !err ==> Size() + Cost(pool[i]) <= old(Size()) + Weight(t, t.paths[i], |pool|) + 1
      ensures err ==> old(Size()) + Weight(t, t.paths[i], |pool|) + 2 > REF_MASK + Cost(pool[i])
      decreases |pool| - i, 3
    {
      hide Inv, SumsOk, Summarised, SubtreeRight, StageOk, Extends, PendingNode, KidSet, Count, PackPrefixSums, Weight, Cost;
      StageBound(refOf, s, pool[i].pfx, inherit);
      var kids := KidSet(pool[i].children);
      var nodeIndex, refBase := |nodes|, |refs|;
      KidsPay(d, t, i, kids);
      err := Reserve(s, Count(kids));
      if err {
        return 0, true;
      }
      err := FillNode(d, pool, i, s, inherit, sums, is4, kids, nodeIndex, refBase, old(Now()), t);
      return TAG_NODE + nodeIndex, err;
    }

    method FillNode(d: nat, pool: seq<BNode>, i: nat, s: Stage, ghost inherit: nat, sums: map<nat, Summary>, is4: bool,
                    kids: seq<bool>, nodeIndex: nat, refBase: nat, ghost start: Arena, ghost t: Trie) returns (err: bool)
      requires Ready() && d == Strides(is4) && Inv(d, t) && pool == t.pool && i < |pool| == |t.paths|
      requires StageOk(refOf, s, pool[i].pfx, inherit) && SumsOk(d, t, sums) && Summarised(t, sums, i)
      requires |s.host| == 256 && |s.short| == 256 && kids == KidSet(pool[i].children) && nodeIndex < TAG_NODE
      requires nodeIndex == |start.nodes| && refBase == |start.refs|
      requires Now() == start.(nodes := start.nodes + [PendingNode(s)], refs := start.refs + seq(Count(kids), _ => 0))
      modifies this
      ensures Ready() && old(refOf) <= refOf && Extends(start, Now())
      ensures err ==> Full(Now())
      ensures !err ==>
        SubtreeRight(Now(), is4, nodeIndex, refBase, TAG_NODE + nodeIndex, t.stored, t.paths[i], refOf, inherit)
      ensures !err ==> Size() + Cost(pool[i]) + Count(kids) <= old(Size()) + Weight(t, t.paths[i], |pool|)
      ensures err ==> old(Size()) + Weight(t, t.paths[i], |pool|) + 1 > REF_MASK + Cost(pool[i]) + Count(kids)
      decreases |pool| - i, 2
    {
      hide Inv, SumsOk, Summarised, KidsRight, SubtreeRight, StageOk, NodeIs, Extends, GrownAbove, FinishedNode, PendingNode, Weight, Cost, Count;
      ghost var reserved := Now();
      err := EmitKids(d, pool, i, s, inherit, sums, is4, kids, nodeIndex + 1, refBase, t);
      ghost var before := Now();
      NodeExtends(start, reserved, before, PendingNode(s), Count(kids), FinishedNode(s, kids, refBase));
      if err {
        return;
      }
      nodes := nodes[nodeIndex := FinishedNode(s, kids, refBase)];
      StageGrows(old(refOf), refOf, s, pool[i].pfx, inherit);
      Finished(before, Now(), is4, nodeIndex, kids, refBase, s, t, i, refOf, inherit);
    }

    // Emits the child at octet o, if there is one, into the reserved reference slot.
    method EmitKid(d: nat, pool: seq<BNode>, i: nat, s: Stage, ghost inherit: nat, sums: map<nat, Summary>, is4: bool,
                   kids: seq<bool>, ghost fn: nat, refBase: nat, o: nat, ghost refOf0: seq<nat>, ghost t: Trie)
      returns (err: bool)
      requires Ready() && d == Strides(is4) && Inv(d, t) && pool == t.pool && i < |pool| == |t.paths| && o < 256
      requires StageOk(refOf0, s, pool[i].pfx, inherit) && refOf0 <= refOf && |s.host| == 256 && |s.short| == 256
      requires SumsOk(d, t, sums) && Summarised(t, sums, i) && kids == KidSet(pool[i].children)
      requires fn <= |nodes| && refBase + Count(kids) <= |refs|
      requires KidsRight(Now(), is4, fn, refBase + Count(kids), kids, refBase, o, s, t.stored, t.paths[i], refOf)
      modifies this
      ensures Ready() && old(refOf) <= refOf && GrownAbove(old(Now()), Now(), refBase)
      ensures err ==> Full(Now())
      ensures !err ==>
        KidsRight(Now(), is4, fn, refBase + Count(kids), kids, refBase, o + 1, s, t.stored, t.paths[i], refOf)
      ensures !err ==> Size() + Rank(kids, o + 1) + WeightTo(t, t.paths[i], o, |pool|)
                         <= old(Size()) + Rank(kids, o) + WeightTo(t, t.paths[i], o + 1, |pool|)
      ensures err ==> old(Size()) + WeightTo(t, t.paths[i], o + 1, |pool|) > REF_MASK + WeightTo(t, t.paths[i], o, |pool|)
      decreases |pool| - i, 0
    {
      hide Inv, SumsOk, Summarised, KidsRight, SubtreeRight, StageOk, Weight, WeightTo, Rank, Count;
      RankStep(kids, o);
      WeightNext(t, t.paths[i], o, |pool|);
      ghost var fr := refBase + Count(kids);
      if !kids[o] {
        KidSkip(Now(), is4, fn, fr, kids, refBase, o, s, t.stored, t.paths[i], refOf);
        return false;
      }
      var childInherit := StageResolve(s, o);
      ghost var before := Now();
      ChildReady(d, t, i, o, sums, refOf0, refOf, s, inherit, is4);
      var ref;
      ref, err := Flatten(d, pool, pool[i].children[o], childInherit, sums, is4, t);
      if err {
        return;
      }
      ghost var emitted := Now();
      KidStep(before, emitted, is4, fn, fr, kids, refBase, o, ref, s, t.stored, t.paths[i], old(refOf), refOf);
      refs := refs[refBase + Rank(kids, o) := ref];
      assert Now() == emitted.(refs := emitted.refs[refBase + Rank(kids, o) := ref]);
    }

    method EmitKids(d: nat, pool: seq<BNode>, i: nat, s: Stage, ghost inherit: nat, sums: map<nat, Summary>, is4: bool,
                    kids: seq<bool>, ghost fn: nat, refBase: nat, ghost t: Trie) returns (err: bool)
      requires Ready() && d == Strides(is4) && Inv(d, t) && pool == t.pool && i < |pool| == |t.paths|
      requires StageOk(refOf, s, pool[i].pfx, inherit) && SumsOk(d, t, sums) && Summarised(t, sums, i)
      requires |s.host| == 256 && |s.short| == 256
      requires kids == KidSet(pool[i].children) && fn <= |nodes| && |refs| == refBase + Count(kids)
      modifies this
      ensures Ready() && old(refOf) <= refOf && GrownAbove(old(Now()), Now(), refBase)
      ensures err ==> Full(Now())
      ensures !err ==>
        KidsRight(Now(), is4, fn, refBase + Count(kids), kids, refBase, 256, s, t.stored, t.paths[i], refOf)
      ensures !err ==> Size() + Cost(pool[i]) + Count(kids) <= old(Size()) + Weight(t, t.paths[i], |pool|)
      ensures err ==> old(Size()) + Weight(t, t.paths[i], |pool|) + 1 > REF_MASK + Cost(pool[i]) + Count(kids)
      decreases |pool| - i, 1
    {
      hide Inv, SumsOk, Summarised, SubtreeRight, StageOk;
      ghost var fr := refBase + Count(kids);
      assert KidsRight(Now(), is4, fn, fr, kids, refBase, 0, s, t.stored, t.paths[i], refOf);
      hide KidsRight, Weight, WeightTo, Rank, Count, Cost;
      WeightOwn(t, i, 0, |pool|);
      RankZero(kids);
      for o := 0 to 256
        invariant Ready() && old(refOf) <= refOf && GrownAbove(old(Now()), Now(), refBase)
        invariant Size() + Rank(kids, o) + Cost(pool[i]) <= old(Size()) + WeightTo(t, t.paths[i], o, |pool|)
        invariant KidsRight(Now(), is4, fn, fr, kids, refBase, o, s, t.stored, t.paths[i], refOf)
      {
        KidsWeigh(d, t, i, kids, o + 1);
        RankStep(kids, o);
        err := EmitKid(d, pool, i, s, inherit, sums, is4, kids, fn, refBase, o, old(refOf), t);
        if err {
          return;
        }
      }
      AllWeighed(d, t, i);
      RankAll(kids);
      err := false;
    }
  }

  // What a node reserves is within its weight.
  lemma KidsPay(d: nat, t: Trie, i: nat, kids: seq<bool>)
    requires Inv(d, t) && i < |t.pool| == |t.paths| && kids == KidSet(t.pool[i].children)
    ensures Count(kids) + Cost(t.pool[i]) <= Weight(t, t.paths[i], |t.pool|)
  {
    hide Inv, Count, Cost, Weight, WeightTo;
    KidsWeigh(d, t, i, kids, 0);
    RankZero(kids);
    WeightOwn(t, i, 0, |t.pool|);
  }

  // A child may be emitted with what its parent resolves at its octet.
  lemma ChildReady(d: nat, t: Trie, i: nat, o: nat, sums: map<nat, Summary>, refOf0: seq<nat>, refOf: seq<nat>,
                   s: Stage, inherit: nat, is4: bool)
    requires d == Strides(is4) && Inv(d, t) && i < |t.pool| == |t.paths| && o in t.pool[i].children
    requires StageOk(refOf0, s, t.pool[i].pfx, inherit) && refOf0 <= refOf && Summarised(t, sums, i)
    ensures o < 256 && StageResolve(s, o) < |refOf|
    ensures i < t.pool[i].children[o] < |t.pool| && t.paths[t.pool[i].children[o]] == t.paths[i] + [o]
    ensures Summarised(t, sums, t.pool[i].children[o])
  {
    assert NodeOk(t, i);
    var path := t.paths[i] + [o];
    var a := path + seq(d - |path|, _ => 0);
    assert t.paths[i] <= a && a[|t.paths[i]|] == o;
    StageAnswers(refOf0, s, d, t, i, inherit, a);
    assert forall j :: 0 <= j < |t.paths| && path <= t.paths[j] ==> t.paths[i] <= t.paths[j];
  }
}
