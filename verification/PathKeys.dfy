// Rebuilding a prefix from its stride position: the octets on the path and the octet of the
// index are planted into an all-zero key.
module PathKeys {
  import opened Bits
  import opened Prefixes
  import opened Octets

  function PathNum(path: seq<nat>): nat {
    if |path| == 0 then 0 else 256 * PathNum(path[..|path| - 1]) + path[|path| - 1]
  }

  // The key whose leading octets are the path and whose remaining octets are zero.
  function PathKey(d: nat, path: seq<nat>): nat
    requires |path| <= d
  {
    PathNum(path) * Pow2(8 * (d - |path|))
  }

  // Planting one octet: withOctet on a key that is zero from that octet on.
  function WithOctet(d: nat, key: nat, i: nat, octet: nat): nat
    requires i < d
  {
    key + octet * Pow2(8 * (d - 1 - i))
  }

  lemma PlantOctet(d: nat, path: seq<nat>, octet: nat)
    requires |path| < d
    ensures PathKey(d, path + [octet]) == WithOctet(d, PathKey(d, path), |path|, octet)
  {
    var n, i := PathNum(path), |path|;
    var low := 8 * (d - 1 - i);
    assert (path + [octet])[..i] == path;
    Pow2Small();
    Pow2Add(8, low);
    assert 8 + low == 8 * (d - i);
    assert d - (i + 1) == d - 1 - i;
    Distribute(n, octet, Pow2(low));
  }

  lemma Distribute(n: nat, o: nat, m: nat)
    ensures (256 * n + o) * m == n * (256 * m) + o * m
  {
  }

  lemma {:induction false} PathNumFits(path: seq<nat>)
    requires IsKey(path)
    ensures PathNum(path) < Pow2(8 * |path|)
  {
    if |path| > 0 {
      var front := path[..|path| - 1];
      PathNumFits(front);
      Pow2Small();
      Pow2Add(8, 8 * |front|);
      assert 8 + 8 * |front| == 8 * |path|;
    }
  }

  lemma DivExact(n: nat, m: nat)
    requires m > 0
    ensures n * m / m == n && n * m % m == 0
  {
    DivUnique(n * m, m, n);
  }

  lemma PathKeyFits(d: nat, path: seq<nat>)
    requires |path| <= d && IsKey(path)
    ensures PathKey(d, path) < Pow2(8 * d)
    ensures Shr(PathKey(d, path), 8 * (d - |path|)) == PathNum(path)
    ensures PathKey(d, path) % Pow2(8 * (d - |path|)) == 0
  {
    var m := Pow2(8 * (d - |path|));
    PathNumFits(path);
    Pow2Add(8 * |path|, 8 * (d - |path|));
    assert 8 * |path| + 8 * (d - |path|) == 8 * d;
    MulMono(PathNum(path) + 1, Pow2(8 * |path|), m);
    assert (PathNum(path) + 1) * m == PathNum(path) * m + m;
    DivExact(PathNum(path), m);
  }

  // The number above octet i of the key is the number of the path's first i octets.
  lemma {:induction false} PathLeading(d: nat, path: seq<nat>, i: nat)
    requires i <= |path| <= d && IsKey(path)
    ensures Shr(PathKey(d, path), 8 * (d - i)) == PathNum(path[..i])
    decreases |path| - i
  {
    var k := PathKey(d, path);
    if i == |path| {
      assert path[..i] == path;
      PathKeyFits(d, path);
    } else {
      PathLeading(d, path, i + 1);
      Leading(d, k, i);
      assert d - i - 1 == d - (i + 1);
      assert path[..i + 1][..i] == path[..i];
      QuotientRest(256, Shr(k, 8 * (d - i)), OctetAt(d, k, i), PathNum(path[..i]), path[i]);
    }
  }

  lemma PathKeyOctets(d: nat, path: seq<nat>, i: nat)
    requires i < |path| <= d && IsKey(path)
    ensures OctetAt(d, PathKey(d, path), i) == path[i]
  {
    var k := PathKey(d, path);
    PathLeading(d, path, i + 1);
    PathLeading(d, path, i);
    Leading(d, k, i);
    assert d - i - 1 == d - (i + 1);
    assert path[..i + 1][..i] == path[..i];
  }

  lemma PathKeyPath(d: nat, path: seq<nat>)
    requires |path| <= d && IsKey(path)
    ensures KeyOctets(d, PathKey(d, path))[..|path|] == path
  {
    forall i | 0 <= i < |path| ensures KeyOctets(d, PathKey(d, path))[i] == path[i] {
      PathKeyOctets(d, path, i);
    }
  }

  // ---------------------------------------------------------------- positions back to prefixes

  // Which positions a split produces.
  ghost predicate Canonical(s: Split, d: nat, x: Pos) {
    && IsKey(x.path)
    && match s
       case Floor => 1 <= x.idx < 256 && (|x.path| < d || (|x.path| == d && x.idx == 1))
       case Ceil => |x.path| < d && (2 <= x.idx < 512 || (x.path == [] && x.idx == 1))
  }

  function PosPath(x: Pos): (r: seq<nat>)
    requires 1 <= x.idx < 512
  {
    if x.idx == 1 then x.path else x.path + [IdxOctet(x.idx)]
  }

  function PosPrefix(d: nat, x: Pos): (p: Prefix)
    requires 1 <= x.idx < 512 && (|x.path| < d || (|x.path| == d && x.idx == 1))
  {
    Prefix(PathKey(d, PosPath(x)), PosLen(x))
  }

  // The octet of an index is a multiple of the addresses the index leaves free.
  lemma StrideMultiple(n: nat, idx: nat, m: nat) returns (q: nat)
    requires 2 <= idx < 512 && m > 0
    ensures (256 * n + IdxOctet(idx)) * m == q * (StridePow(8 - IdxLen(idx)) * m)
  {
    var l := IdxLen(idx);
    q := n * StridePow(l) + (idx - StridePow(l));
    StrideProduct(l);
    Regroup(n, StridePow(l), idx - StridePow(l), StridePow(8 - l), m);
  }

  lemma Regroup(n: nat, a: nat, b: nat, c: nat, m: nat)
    requires a * c == 256
    ensures (256 * n + b * c) * m == (n * a + b) * (c * m)
  {
    var q := n * a + b;
    MulShuffle(n, a, c);
    AddTimes(n * a, b, c);
    assert n * 256 == 256 * n;
    assert q * c == 256 * n + b * c;
    MulShuffle(q, c, m);
  }

  lemma StrideProduct(l: nat)
    requires l <= 8
    ensures StridePow(l) * StridePow(8 - l) == 256
  {
  }

  // The rebuilt prefix is masked.
  lemma PosPrefixValid(d: nat, x: Pos)
    requires IsKey(x.path) && 1 <= x.idx < 512 && (|x.path| < d || (|x.path| == d && x.idx == 1))
    ensures Valid(8 * d, PosPrefix(d, x))
  {
    hide Pow2, PathKey;
    PathKeyFits(d, PosPath(x));
    if x.idx > 1 {
      StrideKeyMasked(d, x);
    } else {
      assert 8 * (d - |x.path|) == 8 * d - PosLen(x);
    }
  }

  lemma StrideKeyMasked(d: nat, x: Pos)
    requires IsKey(x.path) && 1 < x.idx < 512 && |x.path| < d
    ensures PosLen(x) <= 8 * d && PathKey(d, PosPath(x)) % Pow2(8 * d - PosLen(x)) == 0
  {
    hide Pow2;
    var i, l := |x.path|, IdxLen(x.idx);
    var low := 8 * (d - i - 1);
    assert PosPath(x)[..i] == x.path;
    assert d - (i + 1) == d - i - 1;
    var q := StrideMultiple(PathNum(x.path), x.idx, Pow2(low));
    Pow2Add(8 - l, low);
    assert 8 - l + low == 8 * d - PosLen(x);
    DivExact(q, Pow2(8 * d - PosLen(x)));
  }

  // Rebuilding a position's prefix and splitting it again gives the position back.
  lemma PosRoundTrip(s: Split, d: nat, x: Pos)
    requires Canonical(s, d, x)
    ensures Valid(8 * d, PosPrefix(d, x)) && PosOf(s, d, PosPrefix(d, x)) == x
  {
    PosPrefixValid(d, x);
    var k, path := PathKey(d, PosPath(x)), PosPath(x);
    PathKeyPath(d, path);
    assert path[..|x.path|] == x.path;
    assert KeyOctets(d, k)[..|path|][..|x.path|] == KeyOctets(d, k)[..|x.path|];
    if x.idx > 1 {
      assert KeyOctets(d, k)[|x.path|] == path[|x.path|];
      assert PfxToIdx(IdxOctet(x.idx), IdxLen(x.idx)) == x.idx;
    }
  }
}
