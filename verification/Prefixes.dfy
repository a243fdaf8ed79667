// The specification every index in this project is proved against: a prefix is a masked
// key and a length in a w-bit address space (w is 32 for IPv4 and 128 for IPv6), it covers
// the addresses that agree with it on its first `len` bits, and a table answers with the
// longest stored prefix covering the address.
module Prefixes {
  import opened Bits
  import opened Options

  datatype Prefix = Prefix(key: nat, len: nat)

  ghost predicate Valid(w: nat, p: Prefix) {
    p.len <= w && p.key < Pow2(w) && p.key % Pow2(w - p.len) == 0
  }

  // The number of addresses under a prefix of this length.
  function Span(w: nat, len: nat): (r: nat)
    requires len <= w
    ensures r > 0
  {
    Pow2(w - len)
  }

  function Last(w: nat, p: Prefix): nat
    requires p.len <= w
  {
    p.key + Span(w, p.len) - 1
  }

  // Agreement on the leading bits, the form the leaf and parent tests compute by shifting.
  predicate Covers(w: nat, p: Prefix, a: nat) {
    p.len <= w && Shr(a, w - p.len) == Shr(p.key, w - p.len)
  }

  ghost predicate AllValid(w: nat, ps: set<Prefix>) {
    forall p <- ps :: Valid(w, p)
  }

  // p is the longest member of ps covering a.
  ghost predicate Longest(w: nat, ps: set<Prefix>, a: nat, p: Prefix) {
    p in ps && Covers(w, p, a) && forall q <- ps :: Covers(w, q, a) ==> q.len <= p.len
  }

  // The longest-match rule for a table of non-zero ids: the id of the longest covering
  // prefix, and 0 exactly when nothing covers the address.
  ghost predicate Answers(w: nat, m: map<Prefix, nat>, a: nat, id: nat) {
    if exists p <- m.Keys :: Covers(w, p, a)
    then exists p <- m.Keys :: Longest(w, m.Keys, a, p) && m[p] == id
    else id == 0
  }

  // The longest match of a table of values.
  ghost predicate Matches<V>(w: nat, m: map<Prefix, V>, a: nat, r: Option<V>) {
    match r
    case None => forall p <- m.Keys :: !Covers(w, p, a)
    case Some(v) => exists p <- m.Keys :: Longest(w, m.Keys, a, p) && m[p] == v
  }

  // ---------------------------------------------------------------- the two families

  // A canonical prefix with its family.
  datatype Network = Network(is4: bool, prefix: Prefix)

  function FamilyWidth(is4: bool): nat {
    if is4 then 32 else 128
  }

  ghost predicate ValidNetwork(n: Network) {
    Valid(FamilyWidth(n.is4), n.prefix)
  }

  // One family's part of a catalogue of both.
  ghost function Family<V>(m: map<Network, V>, is4: bool): map<Prefix, V> {
    map n | n in m && n.is4 == is4 :: n.prefix := m[n]
  }

  lemma FamilyHas<V>(m: map<Network, V>, is4: bool, p: Prefix)
    ensures p in Family(m, is4) <==> Network(is4, p) in m
    ensures p in Family(m, is4) ==> Family(m, is4)[p] == m[Network(is4, p)]
  {
  }

  // ---------------------------------------------------------------- geometry of prefixes

  // Covering in the masked form is membership in the closed range [key, Last].
  lemma CoversIsRange(w: nat, p: Prefix, a: nat)
    requires Valid(w, p)
    ensures Covers(w, p, a) <==> p.key <= a <= Last(w, p)
  {
    var m := Pow2(w - p.len);
    var q := p.key / m;
    assert p.key == q * m;
    DivBracket(a, m);
    if p.key <= a <= Last(w, p) {
      DivUnique(a, m, q);
    }
  }

  lemma ValidFits(w: nat, p: Prefix)
    requires Valid(w, p)
    ensures p.key <= Last(w, p) < Pow2(w)
  {
    Pow2Add(p.len, w - p.len);
    assert p.len + (w - p.len) == w;
    BlockFits(p.key, Pow2(w - p.len), Pow2(p.len), Pow2(w));
  }

  // Two covering prefixes of one address are nested: the longer lies inside the shorter.
  lemma Nested(w: nat, p: Prefix, q: Prefix, a: nat, b: nat)
    requires Covers(w, p, a) && Covers(w, q, a) && p.len <= q.len && Covers(w, q, b)
    ensures Covers(w, p, b)
  {
    ShiftShift(a, w - q.len, q.len - p.len);
    ShiftShift(b, w - q.len, q.len - p.len);
    assert w - q.len + (q.len - p.len) == w - p.len;
  }

  lemma LengthFits(w: nat, p: Prefix)
    requires Valid(w, p)
    ensures p.len <= w
  {
  }

  lemma SelfCovers(w: nat, p: Prefix)
    requires Valid(w, p)
    ensures Covers(w, p, p.key)
  {
  }

  // At one address there is at most one covering prefix of each length.
  lemma SameLengthSame(w: nat, p: Prefix, q: Prefix, a: nat)
    requires Valid(w, p) && Valid(w, q) && Covers(w, p, a) && Covers(w, q, a) && p.len == q.len
    ensures p == q
  {
    var m := Pow2(w - p.len);
    assert p.key == (p.key / m) * m;
    assert q.key == (q.key / m) * m;
  }

  // The rule determines the answer.
  lemma AnswerUnique(w: nat, m: map<Prefix, nat>, a: nat, x: nat, y: nat)
    requires AllValid(w, m.Keys)
    requires Answers(w, m, a, x) && Answers(w, m, a, y)
    ensures x == y
  {
    if exists p <- m.Keys :: Covers(w, p, a) {
      var p :| p in m.Keys && Longest(w, m.Keys, a, p) && m[p] == x;
      var q :| q in m.Keys && Longest(w, m.Keys, a, q) && m[q] == y;
      SameLengthSame(w, p, q, a);
    }
  }

  // ---------------------------------------------------------------- the top of the space

  // A prefix of at most l bits in the space of the top l bits.
  function Trim(w: nat, l: nat, p: Prefix): Prefix
    requires l <= w
  {
    Prefix(Shr(p.key, w - l), p.len)
  }

  // Trimming keeps what a prefix covers: the addresses below one top-bits value all agree.
  lemma TrimCovers(w: nat, l: nat, p: Prefix, a: nat)
    requires p.len <= l <= w
    ensures Covers(l, Trim(w, l, p), Shr(a, w - l)) <==> Covers(w, p, a)
  {
    hide Pow2, Shr;
    var high, rest := w - l, l - p.len;
    ShiftShift(a, high, rest);
    ShiftShift(p.key, high, rest);
    assert high + rest == w - p.len;
  }

  lemma TopFits(w: nat, l: nat, a: nat)
    requires l <= w && a < Pow2(w)
    ensures Shr(a, w - l) < Pow2(l)
  {
    Pow2Add(w - l, l);
    DivBracket(a, Pow2(w - l));
    assert Pow2(l) * Pow2(w - l) == Pow2(w - l) * Pow2(l);
    if Shr(a, w - l) >= Pow2(l) {
      MulMono(Pow2(l), Shr(a, w - l), Pow2(w - l));
    }
  }

  lemma TrimValid(w: nat, l: nat, p: Prefix)
    requires l <= w && Valid(w, p) && p.len <= l
    ensures Valid(l, Trim(w, l, p))
  {
    TopFits(w, l, p.key);
    Pow2Add(w - l, l - p.len);
    assert w - l + (l - p.len) == w - p.len;
    MultipleOfProduct(p.key, Pow2(w - l), Pow2(l - p.len));
  }

  lemma MultipleOfProduct(k: nat, m: nat, n: nat)
    requires m > 0 && n > 0 && m * n > 0 && k % (m * n) == 0
    ensures k / m % n == 0
  {
    var q := k / (m * n);
    assert k == q * (m * n);
    assert q * (m * n) == (q * n) * m by { assert m * n == n * m; MulShuffle(q, n, m); }
    DivUnique(k, m, q * n);
    DivUnique(q * n, n, q);
  }

  // ---------------------------------------------------------------- preorder catalogues

  // Address first, then shortest first: every prefix precedes what it contains.
  predicate Before(p: Prefix, q: Prefix) {
    p.key < q.key || (p.key == q.key && p.len < q.len)
  }

  ghost predicate Preordered(ps: seq<Prefix>) {
    forall i, j :: 0 <= i < j < |ps| ==> Before(ps[i], ps[j])
  }

  ghost predicate ValidSeq(w: nat, ps: seq<Prefix>) {
    forall i :: 0 <= i < |ps| ==> Valid(w, ps[i])
  }

  // Of two catalogue entries covering an address the later one is the longer.
  lemma LaterIsLonger(w: nat, ps: seq<Prefix>, i: nat, j: nat, a: nat)
    requires ValidSeq(w, ps) && Preordered(ps) && i < j < |ps|
    requires Covers(w, ps[i], a) && Covers(w, ps[j], a)
    ensures ps[i].len < ps[j].len
  {
    var p, q := ps[i], ps[j];
    assert Before(p, q);
    if q.len <= p.len {
      SelfCovers(w, p);
      Nested(w, q, p, a, p.key);
      CoversIsRange(w, q, p.key);
      if p.len == q.len {
        SameLengthSame(w, p, q, a);
      }
    }
  }

  // The position of the last entry covering a, or -1.
  function LastCover(w: nat, ps: seq<Prefix>, a: nat): (r: int)
    ensures -1 <= r < |ps|
    ensures r >= 0 ==> Covers(w, ps[r], a)
    ensures forall i :: r < i < |ps| ==> !Covers(w, ps[i], a)
  {
    if |ps| == 0 then -1
    else if Covers(w, ps[|ps| - 1], a) then |ps| - 1
    else LastCover(w, ps[..|ps| - 1], a)
  }

  ghost function Members(ps: seq<Prefix>): set<Prefix> {
    set p | p in ps
  }

  // In a preordered catalogue the longest match is simply the last covering entry.
  lemma LastCoverIsLongest(w: nat, ps: seq<Prefix>, a: nat)
    requires ValidSeq(w, ps) && Preordered(ps)
    ensures LastCover(w, ps, a) >= 0 ==> Longest(w, Members(ps), a, ps[LastCover(w, ps, a)])
    ensures LastCover(w, ps, a) < 0 ==> forall p <- Members(ps) :: !Covers(w, p, a)
  {
    var r := LastCover(w, ps, a);
    if r >= 0 {
      forall q <- Members(ps) | Covers(w, q, a)
        ensures q.len <= ps[r].len
      {
        var i :| 0 <= i < |ps| && ps[i] == q;
        if i < r {
          LaterIsLonger(w, ps, i, r, a);
        }
      }
    }
  }

  // ---------------------------------------------------------------- shortest-first order

  ghost predicate ShortestFirst(ps: seq<Prefix>) {
    forall i, j :: 0 <= i < j < |ps| ==> ps[i].len <= ps[j].len && ps[i] != ps[j]
  }

  // Painting shortest first leaves each address with its longest covering prefix.
  lemma LastPaintedIsLongest(w: nat, ps: seq<Prefix>, a: nat)
    requires ValidSeq(w, ps) && ShortestFirst(ps)
    ensures LastCover(w, ps, a) >= 0 ==> Longest(w, Members(ps), a, ps[LastCover(w, ps, a)])
    ensures LastCover(w, ps, a) < 0 ==> forall p <- Members(ps) :: !Covers(w, p, a)
  {
    var r := LastCover(w, ps, a);
    if r >= 0 {
      forall q <- Members(ps) | Covers(w, q, a)
        ensures q.len <= ps[r].len
      {
        var i :| 0 <= i < |ps| && ps[i] == q;
        assert i <= r;
      }
    }
  }

  // One more prefix painted.
  lemma LastCoverStep(w: nat, ps: seq<Prefix>, p: Prefix, a: nat)
    ensures LastCover(w, ps + [p], a) == if Covers(w, p, a) then |ps| else LastCover(w, ps, a)
  {
    assert (ps + [p])[..|ps|] == ps;
  }
}
