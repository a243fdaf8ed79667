// flatart's compiled form: tagged references into arenas of strides and leaves, a two-level
// root, and the lookups.  A stride keeps its prefixes as two bitsets whose members own
// consecutive value indices, so resolution is base plus rank.
module FlatIndex {
  import opened Prefixes
  import opened Octets
  import opened Bitsets
  import opened ArtSearch

  // How a reference names its arena: below TAG_NODE it is already a value.
  const REF_MASK := 0x3fff_ffff
  const TAG_NODE := 0x4000_0000
  const TAG_LEAF := 0x8000_0000
  const TAG_STOP := 0xc000_0000

  datatype Group = Group(mask: seq<bool>, slot: nat, aux: nat)
  datatype Node = Node(groups: seq<Group>, host: seq<bool>, short: seq<bool>)
  datatype Stop = Stop(hostBase: nat, shortBase: nat, hostPre: nat, shortPre: nat, host: seq<bool>, short: seq<bool>)
  datatype Leaf = Leaf(key: nat, bits: nat, value: nat, inherit: nat)

  datatype Arena = Arena(nodes: seq<Node>, stops: seq<Stop>, refs: seq<nat>, leaf4: seq<Leaf>, leaf6: seq<Leaf>)

  predicate NodeWf(n: Node) {
    |n.groups| == 4 && |n.host| == 256 && |n.short| == 256 && forall g <- n.groups :: |g.mask| == 64
  }

  predicate StopWf(s: Stop) {
    |s.host| == 256 && |s.short| == 256
  }

  // ---------------------------------------------------------------- packed prefix sums

  function ByteShift(word: nat): (r: nat)
    requires word < 4
    ensures r > 0
  {
    [1, 256, 65536, 16777216][word]
  }

  // The running population of the preceding words, one byte per word.
  function PackPrefixSums(bits: seq<bool>): nat
    requires |bits| == 256
  {
    var c1 := Count(bits[0..64]);
    var c2 := c1 + Count(bits[64..128]);
    var c3 := c2 + Count(bits[128..192]);
    c1 * 256 + c2 * 65536 + c3 * 16777216
  }

  function RankAt(bits: seq<bool>, pre: nat, i: nat): nat
    requires i < |bits| == 256
  {
    pre / ByteShift(i / 64) % 256 + BelowInWord(bits, i)
  }

  lemma Unpack(c1: nat, c2: nat, c3: nat, word: nat)
    requires c1 <= 64 && c2 <= 128 && c3 <= 192 && word < 4
    ensures (c1 * 256 + c2 * 65536 + c3 * 16777216) / ByteShift(word) % 256 == [0, c1, c2, c3][word]
  {
    var pre := c1 * 256 + c2 * 65536 + c3 * 16777216;
    if word == 1 {
      assert pre / 256 == c1 + 256 * (c2 + 256 * c3);
    } else if word == 2 {
      assert pre / 65536 == c2 + 256 * c3;
    } else if word == 3 {
      assert pre / 16777216 == c3;
    }
  }

  // No byte of the packed sums overflows, so the packed rank is the rank.
  lemma PackedRank(bits: seq<bool>, i: nat)
    requires i < |bits| == 256
    ensures RankAt(bits, PackPrefixSums(bits), i) == Rank(bits, i)
  {
    CountSplit(bits, 0, 64);
    CountSplit(bits, 64, 128);
    CountSplit(bits, 128, 192);
    CountSplit(bits, i / 64 * 64, i);
    Unpack(Rank(bits, 64), Rank(bits, 128), Rank(bits, 192), i / 64);
  }

  // ---------------------------------------------------------------- stride resolution

  function HostValue(bits: seq<bool>, base: nat, pre: nat, o: nat): nat
    requires o < |bits| == 256
  {
    if !bits[o] then 0 else base + RankAt(bits, pre, o)
  }

  // The highest short prefix covering o, word by word from the top.
  function ShortValue(bits: seq<bool>, base: nat, pre: nat, o: nat): nat
    requires o < |bits| == 256
  {
    var top := LpmTop(bits, o);
    if top < 0 then 0 else base + RankAt(bits, pre, top)
  }

  function Resolve(host: seq<bool>, short: seq<bool>, hostBase: nat, shortBase: nat, hostPre: nat, shortPre: nat,
                   o: nat): nat
    requires o < 256 && |host| == 256 && |short| == 256
  {
    var value := HostValue(host, hostBase, hostPre, o);
    if value != 0 then value else ShortValue(short, shortBase, shortPre, o)
  }

  function ResolveNode(n: Node, o: nat): nat
    requires NodeWf(n) && o < 256
  {
    Resolve(n.host, n.short, n.groups[0].aux, n.groups[1].aux, n.groups[2].aux, n.groups[3].aux, o)
  }

  function ResolveStop(s: Stop, o: nat): nat
    requires StopWf(s) && o < 256
  {
    Resolve(s.host, s.short, s.hostBase, s.shortBase, s.hostPre, s.shortPre, o)
  }

  // The members of a set own consecutive value indices from base, in ascending order, and
  // those indices belong to the listed references.
  ghost predicate Staged(refOf: seq<nat>, bits: seq<bool>, base: nat, pre: nat, entries: map<nat, nat>) {
    && |bits| == 256 && pre == PackPrefixSums(bits)
    && (forall i :: 0 <= i < 256 ==> (bits[i] <==> i in entries))
    && (forall i :: 0 <= i < 256 && bits[i] ==>
          0 < base + Rank(bits, i) < |refOf| && refOf[base + Rank(bits, i)] == entries[i])
  }

  // The allotment index of a full octet.
  function HostIdx(o: nat): nat {
    256 + o
  }

  // Prefixes ending on the stride boundary, by octet.
  function HostEntries(pfx: map<nat, nat>): map<nat, nat> {
    map o: nat | o < 256 && HostIdx(o) in pfx :: pfx[HostIdx(o)]
  }

  // Partial-stride prefixes by index, with the inherited default at index 1.
  function ShortEntries(pfx: map<nat, nat>, inherit: nat, default: nat): map<nat, nat> {
    map i: nat | i < 256 && (i in pfx || (i == 1 && inherit != 0)) :: if i == 1 && inherit != 0 then default else pfx[i]
  }

  // The rule restricted to some prefixes, with an answer for when none of them covers.
  ghost predicate AnswersOr(m: map<Pos, nat>, a: seq<nat>, default: nat, id: nat) {
    if exists p <- m.Keys :: PosCovers(p, a)
    then exists p <- m.Keys :: PosLongest(m.Keys, a, p) && m[p] == id
    else id == default
  }

  ghost function Own(m: map<Pos, nat>, path: seq<nat>): map<Pos, nat> {
    map x | x in m && x.path == path :: m[x]
  }

  ghost function Sub(m: map<Pos, nat>, path: seq<nat>): map<Pos, nat> {
    map x | x in m && path <= x.path :: m[x]
  }

  // pfx lists the prefixes of m stored at one stride.
  ghost predicate Lists(pfx: map<nat, nat>, m: map<Pos, nat>, path: seq<nat>) {
    && (forall idx <- pfx :: 2 <= idx < 512)
    && (forall idx :: idx in pfx <==> Pos(path, idx) in m)
    && (forall idx <- pfx :: pfx[idx] == m[Pos(path, idx)])
  }

  lemma HostIsLongest(idx: nat, o: nat)
    requires o < 256 && 1 <= idx < 512 && Anc(idx, o)
    ensures idx >= 256 ==> idx == 256 + o
    ensures IdxLen(idx) == 8 <==> idx >= 256
    ensures Anc(256 + o, o) && IdxLen(256 + o) == 8 && Anc(1, o)
  {
  }

  // One stride resolves to its longest prefix covering the octet, or to the inherited default:
  // the deepest stride already knows the answer.
  lemma StrideAnswers(refOf: seq<nat>, host: seq<bool>, short: seq<bool>, hostBase: nat, shortBase: nat,
                      hostPre: nat, shortPre: nat, pfx: map<nat, nat>, inherit: nat,
                      m: map<Pos, nat>, path: seq<nat>, a: seq<nat>)
    requires |refOf| > 0 && refOf[0] == 0 && inherit < |refOf| && Lists(pfx, m, path)
    requires Staged(refOf, host, hostBase, hostPre, HostEntries(pfx))
    requires Staged(refOf, short, shortBase, shortPre, ShortEntries(pfx, inherit, refOf[inherit]))
    requires path <= a && |path| < |a| && IsKey(a)
    ensures var v := Resolve(host, short, hostBase, shortBase, hostPre, shortPre, a[|path|]);
            v < |refOf| && AnswersOr(Own(m, path), a, refOf[inherit], refOf[v])
  {
    var o, own := a[|path|], Own(m, path);
    assert host[o] <==> HostIdx(o) in pfx;
    if host[o] {
      PackedRank(host, o);
      HostIsLongest(HostIdx(o), o);
      HostAnswers(m, path, a);
      assert own[Pos(path, HostIdx(o))] == pfx[HostIdx(o)];
    } else {
      ShortAnswers(refOf, short, shortBase, shortPre, pfx, inherit, m, path, a);
    }
  }

  lemma HostAnswers(m: map<Pos, nat>, path: seq<nat>, a: seq<nat>)
    requires path <= a && |path| < |a| && IsKey(a) && Pos(path, HostIdx(a[|path|])) in m
    ensures PosLongest(Own(m, path).Keys, a, Pos(path, HostIdx(a[|path|])))
  {
    HostIsLongest(HostIdx(a[|path|]), a[|path|]);
  }

  // The stride's covering prefixes are the set bits on the octet's path, index 1 apart.
  lemma ShortCovers(pfx: map<nat, nat>, m: map<Pos, nat>, path: seq<nat>, a: seq<nat>, x: Pos)
    requires Lists(pfx, m, path) && path <= a && |path| < |a| && IsKey(a) && HostIdx(a[|path|]) !in pfx
    requires x in Own(m, path) && PosCovers(x, a)
    ensures x == Pos(path, x.idx) && x.idx in pfx && 2 <= x.idx < 256 && Anc(x.idx, a[|path|])
  {
    HostIsLongest(x.idx, a[|path|]);
  }

  lemma ShortRead(refOf: seq<nat>, short: seq<bool>, shortBase: nat, shortPre: nat, entries: map<nat, nat>, o: nat)
    requires o < 256 && |refOf| > 0 && Staged(refOf, short, shortBase, shortPre, entries)
    ensures var top, v := LpmTop(short, o), ShortValue(short, shortBase, shortPre, o);
            && v < |refOf|
            && (if top < 0 then v == 0 else top in entries && refOf[v] == entries[top])
  {
    hide RankAt, Anc, PackPrefixSums, Rank, IsTop;
    var top := LpmTop(short, o);
    if top >= 0 {
      assert short[top] by { TopIsSet(short, o); }
      PackedRank(short, top);
    }
  }

  lemma TopIsSet(short: seq<bool>, o: nat)
    requires o < 256 && |short| % 64 == 0
    ensures LpmTop(short, o) >= 0 ==> short[LpmTop(short, o)]
  {
  }

  lemma ShortLongest(short: seq<bool>, pfx: map<nat, nat>, m: map<Pos, nat>, path: seq<nat>, a: seq<nat>)
    requires Lists(pfx, m, path) && path <= a && |path| < |a| && IsKey(a) && HostIdx(a[|path|]) !in pfx
    requires |short| == 256 && forall i :: 2 <= i < 256 ==> (short[i] <==> i in pfx)
    ensures var top := LpmTop(short, a[|path|]);
            if top >= 2 then PosLongest(Own(m, path).Keys, a, Pos(path, top))
            else forall x <- Own(m, path) :: !PosCovers(x, a)
  {
    var o, own := a[|path|], Own(m, path);
    var top := LpmTop(short, o);
    assert 2 <= top ==> Pos(path, top) in own && PosCovers(Pos(path, top), a);
    forall x <- own | PosCovers(x, a) ensures 2 <= top && PosLen(x) <= PosLen(Pos(path, top)) {
      ShortCovers(pfx, m, path, a, x);
      assert short[x.idx];
    }
  }

  lemma ShortAnswers(refOf: seq<nat>, short: seq<bool>, shortBase: nat, shortPre: nat,
                     pfx: map<nat, nat>, inherit: nat, m: map<Pos, nat>, path: seq<nat>, a: seq<nat>)
    requires |refOf| > 0 && refOf[0] == 0 && inherit < |refOf| && Lists(pfx, m, path)
    requires path <= a && |path| < |a| && IsKey(a) && HostIdx(a[|path|]) !in pfx
    requires Staged(refOf, short, shortBase, shortPre, ShortEntries(pfx, inherit, refOf[inherit]))
    ensures var v := ShortValue(short, shortBase, shortPre, a[|path|]);
            v < |refOf| && AnswersOr(Own(m, path), a, refOf[inherit], refOf[v])
  {
    var o := a[|path|];
    HostIsLongest(1, o);
    assert inherit != 0 ==> short[1];
    ShortRead(refOf, short, shortBase, shortPre, ShortEntries(pfx, inherit, refOf[inherit]), o);
    ShortLongest(short, pfx, m, path, a);
  }
}
