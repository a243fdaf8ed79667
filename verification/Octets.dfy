// Big-endian octet strings, the stride positions the tries store prefixes at, and the bridge
// from both to the numeric specification in Prefixes.
module Octets {
  import opened Bits
  import opened Prefixes

  // Octet i of a d-octet key, counted from the most significant end.
  function OctetAt(d: nat, a: nat, i: nat): (r: nat)
    requires i < d
    ensures r < 256
  {
    Shr(a, 8 * (d - 1 - i)) % 256
  }

  function KeyOctets(d: nat, a: nat): (s: seq<nat>)
    ensures |s| == d
    ensures forall i :: 0 <= i < d ==> s[i] == OctetAt(d, a, i) && s[i] < 256
  {
    seq(d, i requires 0 <= i < d => OctetAt(d, a, i))
  }

  // ---------------------------------------------------------------- ART stride indices

  // Two to the power of a within-stride length.
  function StridePow(len: nat): (r: nat)
    requires len <= 8
    ensures r == Pow2(len)
  {
    Pow2Small();
    [1, 2, 4, 8, 16, 32, 64, 128, 256][len]
  }

  // The allotment index of the first len bits of an octet: a leading one and then the bits.
  function PfxToIdx(octet: nat, len: nat): (r: nat)
    requires octet < 256 && len <= 8
    ensures StridePow(len) <= r < 2 * StridePow(len)
  {
    octet / StridePow(8 - len) + StridePow(len)
  }

  // bits.Len(idx) - 1, the within-stride length of an index.
  function IdxLen(idx: nat): (r: nat)
    ensures r <= 8
  {
    if idx < 2 then 0 else if idx < 4 then 1 else if idx < 8 then 2 else if idx < 16 then 3
    else if idx < 32 then 4 else if idx < 64 then 5 else if idx < 128 then 6 else if idx < 256 then 7 else 8
  }

  // The first octet an index covers.
  function IdxOctet(idx: nat): (r: nat)
    requires 1 <= idx < 512
    ensures r < 256
    ensures PfxToIdx(r, IdxLen(idx)) == idx
  {
    IdxOctetFits(idx, IdxLen(idx));
    (idx - StridePow(IdxLen(idx))) * StridePow(8 - IdxLen(idx))
  }

  lemma IdxOctetFits(idx: nat, len: nat)
    requires 1 <= idx < 512 && len == IdxLen(idx)
    ensures 0 <= (idx - StridePow(len)) * StridePow(8 - len) < 256
    ensures PfxToIdx((idx - StridePow(len)) * StridePow(8 - len), len) == idx
  {
    IdxRange(idx);
    Pow2Small();
    Pow2Add(len, 8 - len);
    hide Pow2, IdxLen;
    var p, q := StridePow(len), StridePow(8 - len);
    hide StridePow;
    assert p <= idx < 2 * p && p * q == 256;
    MulMono(idx - p + 1, p, q);
    AddTimes(idx - p, 1, q);
    DivUnique((idx - p) * q, q, idx - p);
  }

  lemma IdxRange(idx: nat)
    requires 1 <= idx < 512
    ensures StridePow(IdxLen(idx)) <= idx < 2 * StridePow(IdxLen(idx))
  {
  }

  // idx lies on the path from octet's host index up to the root of the stride.
  predicate Anc(idx: nat, octet: nat)
    requires octet < 256
  {
    idx >= 1 && idx == PfxToIdx(octet, IdxLen(idx))
  }

  lemma IdxLenOfPfx(octet: nat, len: nat)
    requires octet < 256 && len <= 8
    ensures IdxLen(PfxToIdx(octet, len)) == len
    ensures Anc(PfxToIdx(octet, len), octet)
  {
  }

  // On one path a larger index is a longer prefix.
  lemma AncOrder(x: nat, y: nat, octet: nat)
    requires octet < 256 && Anc(x, octet) && Anc(y, octet)
    ensures x < y <==> IdxLen(x) < IdxLen(y)
    ensures IdxLen(x) == IdxLen(y) ==> x == y
  {
  }

  // ---------------------------------------------------------------- positions

  // A prefix as a trie stores it: the octets fixed above its stride, and its index in it.
  datatype Pos = Pos(path: seq<nat>, idx: nat)

  function PosLen(p: Pos): nat {
    8 * |p.path| + IdxLen(p.idx)
  }

  ghost predicate IsKey(a: seq<nat>) {
    forall i :: 0 <= i < |a| ==> a[i] < 256
  }

  predicate PosCovers(p: Pos, a: seq<nat>) {
    && p.path <= a
    && (p.idx == 1 || (|p.path| < |a| && a[|p.path|] < 256 && Anc(p.idx, a[|p.path|])))
  }

  ghost predicate PosLongest(ps: set<Pos>, a: seq<nat>, p: Pos) {
    p in ps && PosCovers(p, a) && forall q <- ps :: PosCovers(q, a) ==> PosLen(q) <= PosLen(p)
  }

  ghost predicate PosAnswers(m: map<Pos, nat>, a: seq<nat>, id: nat) {
    if exists p <- m.Keys :: PosCovers(p, a)
    then exists p <- m.Keys :: PosLongest(m.Keys, a, p) && m[p] == id
    else id == 0
  }

  // The two canonical splits: Floor puts a stride-aligned length at the start of the next
  // stride (index 1), Ceil at the end of the stride it fills (index 256 and up).
  datatype Split = Floor | Ceil

  function Depth(s: Split, len: nat): nat {
    if s.Ceil? && len > 0 then (len - 1) / 8 else len / 8
  }

  function PosOf(s: Split, d: nat, p: Prefix): (r: Pos)
    requires p.len <= 8 * d
    ensures |r.path| == Depth(s, p.len) && PosLen(r) == p.len
  {
    var depth := Depth(s, p.len);
    var rest := p.len - 8 * depth;
    var a := KeyOctets(d, p.key);
    if rest == 0 then Pos(a[..depth], 1)
    else
      IdxLenOfPfx(a[depth], rest);
      Pos(a[..depth], PfxToIdx(a[depth], rest))
  }

  // ---------------------------------------------------------------- the bridge

  // One more octet of a key is the leading part times 256 plus that octet.
  lemma Leading(d: nat, a: nat, i: nat)
    requires i < d
    ensures Shr(a, 8 * (d - i - 1)) == 256 * Shr(a, 8 * (d - i)) + OctetAt(d, a, i)
  {
    ShiftShift(a, 8 * (d - i - 1), 8);
    Pow2Small();
    assert 8 * (d - i - 1) + 8 == 8 * (d - i);
    assert d - 1 - i == d - i - 1;
  }

  lemma LeadingZero(w: nat, a: nat)
    requires a < Pow2(w)
    ensures Shr(a, w) == 0
  {
    DivUnique(a, Pow2(w), 0);
  }

  lemma {:induction false} PathIsLeading(d: nat, a: nat, b: nat, i: nat)
    requires i <= d && a < Pow2(8 * d) && b < Pow2(8 * d)
    ensures KeyOctets(d, a)[..i] == KeyOctets(d, b)[..i] <==> Shr(a, 8 * (d - i)) == Shr(b, 8 * (d - i))
  {
    if i == 0 {
      LeadingZero(8 * d, a);
      LeadingZero(8 * d, b);
      assert 8 * (d - 0) == 8 * d;
    } else {
      PathIsLeading(d, a, b, i - 1);
      Leading(d, a, i - 1);
      Leading(d, b, i - 1);
      assert d - (i - 1) - 1 == d - i;
      var x, y := KeyOctets(d, a), KeyOctets(d, b);
      assert x[..i] == x[..i - 1] + [x[i - 1]];
      assert y[..i] == y[..i - 1] + [y[i - 1]];
    }
  }

  lemma StrideShift(x: nat, o: nat, rest: nat)
    requires o < 256 && 1 <= rest <= 8
    ensures Shr(256 * x + o, 8 - rest) == StridePow(rest) * x + o / StridePow(8 - rest)
    ensures o / StridePow(8 - rest) < StridePow(rest)
  {
  }

  lemma QuotientRest(m: nat, x: nat, o: nat, y: nat, p: nat)
    requires o < m && p < m
    ensures m * x + o == m * y + p <==> x == y && o == p
  {
    if m * x + o == m * y + p {
      DivUnique(m * x + o, m, x);
      DivUnique(m * y + p, m, y);
    }
  }

  // Agreement on 8*i + rest leading bits is agreement on i octets and on rest bits of the next.
  lemma LeadingBits(d: nat, a: nat, b: nat, i: nat, rest: nat)
    requires i < d && 1 <= rest <= 8 && a < Pow2(8 * d) && b < Pow2(8 * d)
    ensures Shr(a, 8 * d - 8 * i - rest) == Shr(b, 8 * d - 8 * i - rest)
       <==> && Shr(a, 8 * (d - i)) == Shr(b, 8 * (d - i))
            && PfxToIdx(OctetAt(d, a, i), rest) == PfxToIdx(OctetAt(d, b, i), rest)
  {
    hide Pow2, Shr, OctetAt, StridePow;
    Leading(d, a, i);
    Leading(d, b, i);
    var low := 8 * (d - i - 1);
    assert 8 * d - 8 * i - rest == low + (8 - rest);
    ShiftShift(a, low, 8 - rest);
    ShiftShift(b, low, 8 - rest);
    var o, p := OctetAt(d, a, i), OctetAt(d, b, i);
    var x, y := Shr(a, 8 * (d - i)), Shr(b, 8 * (d - i));
    StrideShift(x, o, rest);
    StrideShift(y, p, rest);
    QuotientRest(StridePow(rest), x, o / StridePow(8 - rest), y, p / StridePow(8 - rest));
  }

  // A prefix covers an address exactly when its stride position covers the address's octets.
  lemma PosCoversIsCovers(s: Split, d: nat, p: Prefix, a: nat)
    requires d > 0 && Valid(8 * d, p) && a < Pow2(8 * d)
    ensures PosCovers(PosOf(s, d, p), KeyOctets(d, a)) <==> Covers(8 * d, p, a)
  {
    var depth := Depth(s, p.len);
    var rest := p.len - 8 * depth;
    var x, k := KeyOctets(d, a), KeyOctets(d, p.key);
    assert (k[..depth] <= x) <==> k[..depth] == x[..depth];
    PathIsLeading(d, a, p.key, depth);
    if rest == 0 {
      assert 8 * (d - depth) == 8 * d - p.len;
    } else {
      LeadingBits(d, a, p.key, depth, rest);
      IdxLenOfPfx(k[depth], rest);
    }
  }

  lemma PosInjective(s: Split, d: nat, p: Prefix, q: Prefix)
    requires d > 0 && Valid(8 * d, p) && Valid(8 * d, q) && PosOf(s, d, p) == PosOf(s, d, q)
    ensures p == q
  {
    PosCoversIsCovers(s, d, q, q.key);
    PosCoversIsCovers(s, d, p, q.key);
    SameLengthSame(8 * d, p, q, q.key);
  }

  ghost predicate At(s: Split, d: nat, p: Prefix, x: Pos) {
    p.len <= 8 * d && PosOf(s, d, p) == x
  }

  // M is the table m with every prefix written as its stride position.
  ghost predicate Encodes(s: Split, d: nat, m: map<Prefix, nat>, M: map<Pos, nat>) {
    && AllValid(8 * d, m.Keys)
    && (forall p <- m :: p.len <= 8 * d && PosOf(s, d, p) in M && M[PosOf(s, d, p)] == m[p])
    && (forall x <- M :: exists p <- m :: At(s, d, p, x))
  }

  // The prefix behind a stored position.
  lemma EncodedBack(s: Split, d: nat, m: map<Prefix, nat>, M: map<Pos, nat>, y: Pos) returns (p: Prefix)
    requires Encodes(s, d, m, M) && y in M
    ensures p in m && p.len <= 8 * d && PosOf(s, d, p) == y && m[p] == M[y] && PosLen(y) == p.len
  {
    hide PosOf, Valid;
    p :| p in m && At(s, d, p, y);
  }

  lemma EncodedIn(s: Split, d: nat, m: map<Prefix, nat>, M: map<Pos, nat>, p: Prefix)
    requires Encodes(s, d, m, M) && p in m
    ensures p.len <= 8 * d && PosOf(s, d, p) in M.Keys && M[PosOf(s, d, p)] == m[p]
    ensures PosLen(PosOf(s, d, p)) == p.len
  {
    hide PosOf, Valid;
  }

  lemma EncodedStep(s: Split, d: nat, m: map<Prefix, nat>, M: map<Pos, nat>, p: Prefix, id: nat)
    requires d > 0 && Encodes(s, d, m, M) && Valid(8 * d, p)
    ensures Encodes(s, d, m[p := id], M[PosOf(s, d, p) := id])
  {
    hide PosOf, PosCovers, Covers;
    var y := PosOf(s, d, p);
    var m', M' := m[p := id], M[y := id];
    forall q <- m' ensures At(s, d, q, PosOf(s, d, q)) && PosOf(s, d, q) in M' && M'[PosOf(s, d, q)] == m'[q] {
      if q != p && PosOf(s, d, q) == y {
        PosInjective(s, d, p, q);
      }
    }
    forall x <- M' ensures exists q <- m' :: At(s, d, q, x) {
      if x == y {
        assert At(s, d, p, x);
      } else {
        var q :| q in m && At(s, d, q, x);
        assert q in m';
      }
    }
  }

  lemma EncodedDrop(s: Split, d: nat, m: map<Prefix, nat>, M: map<Pos, nat>, p: Prefix)
    requires d > 0 && Encodes(s, d, m, M) && Valid(8 * d, p)
    ensures Encodes(s, d, m - {p}, M - {PosOf(s, d, p)})
    ensures p in m <==> PosOf(s, d, p) in M
  {
    hide PosOf, PosCovers, Covers;
    var y := PosOf(s, d, p);
    var m', M' := m - {p}, M - {y};
    if y in M {
      var q :| q in m && At(s, d, q, y);
      PosInjective(s, d, p, q);
    }
    forall q <- m' ensures At(s, d, q, PosOf(s, d, q)) && PosOf(s, d, q) in M' && M'[PosOf(s, d, q)] == m'[q] {
      if PosOf(s, d, q) == y {
        PosInjective(s, d, p, q);
      }
    }
    forall x <- M' ensures exists q <- m' :: At(s, d, q, x) {
      var q :| q in m && At(s, d, q, x);
      assert q in m';
    }
  }

  // A trie that answers over positions answers the numeric specification.
  lemma PosAnswersIsAnswers(s: Split, d: nat, m: map<Prefix, nat>, M: map<Pos, nat>, a: nat, id: nat)
    requires d > 0 && Encodes(s, d, m, M) && a < Pow2(8 * d)
    requires PosAnswers(M, KeyOctets(d, a), id)
    ensures Answers(8 * d, m, a, id)
  {
    hide PosOf, PosCovers, Covers, Pow2, Valid, KeyOctets, Answers, PosAnswers;
    var x := KeyOctets(d, a);
    forall p <- m ensures Covers(8 * d, p, a) <==> PosCovers(PosOf(s, d, p), x) {
      PosCoversIsCovers(s, d, p, a);
    }
    Transfer(s, d, m, M, a, x, id);
  }

  lemma Transfer(s: Split, d: nat, m: map<Prefix, nat>, M: map<Pos, nat>, a: nat, x: seq<nat>, id: nat)
    requires Encodes(s, d, m, M) && PosAnswers(M, x, id)
    requires forall p <- m :: Covers(8 * d, p, a) <==> PosCovers(PosOf(s, d, p), x)
    ensures Answers(8 * d, m, a, id)
  {
    hide PosOf, PosCovers, Covers, Pow2, Valid, Encodes, PosAnswers, Answers;
    if p :| p in m && Covers(8 * d, p, a) {
      TransferLongest(s, d, m, M, a, x, id, p);
    } else {
      TransferNone(s, d, m, M, a, x, id);
    }
  }

  lemma TransferLongest(s: Split, d: nat, m: map<Prefix, nat>, M: map<Pos, nat>, a: nat, x: seq<nat>, id: nat, p: Prefix)
    requires Encodes(s, d, m, M) && PosAnswers(M, x, id) && p in m && Covers(8 * d, p, a)
    requires forall p <- m :: Covers(8 * d, p, a) <==> PosCovers(PosOf(s, d, p), x)
    ensures Answers(8 * d, m, a, id)
  {
    hide PosOf, PosCovers, Covers, Pow2, Valid, PosLen, Encodes;
    EncodedIn(s, d, m, M, p);
    var y :| y in M.Keys && PosLongest(M.Keys, x, y) && M[y] == id;
    var q := EncodedBack(s, d, m, M, y);
    forall r <- m.Keys | Covers(8 * d, r, a) ensures r.len <= q.len {
      EncodedIn(s, d, m, M, r);
    }
    assert Longest(8 * d, m.Keys, a, q);
  }

  lemma TransferNone(s: Split, d: nat, m: map<Prefix, nat>, M: map<Pos, nat>, a: nat, x: seq<nat>, id: nat)
    requires Encodes(s, d, m, M) && PosAnswers(M, x, id) && forall p <- m.Keys :: !Covers(8 * d, p, a)
    requires forall p <- m :: Covers(8 * d, p, a) <==> PosCovers(PosOf(s, d, p), x)
    ensures Answers(8 * d, m, a, id)
  {
    hide PosOf, PosCovers, Covers, Pow2, Valid, PosLen, Encodes;
    forall y <- M.Keys ensures !PosCovers(y, x) {
      var q := EncodedBack(s, d, m, M, y);
    }
  }
}
