// What the managed tables make of a prefix handed to them: the family, the address masked to the
// length, or a refusal.
module Requests {
  import opened Bits
  import opened Options
  import opened Prefixes

  // A prefix value may be invalid, and its address may have bits past its length.
  datatype Raw = Invalid | Raw(is4: bool, addr: nat, len: nat)

  // An address of its family.
  ghost predicate InFamily(r: Raw) {
    r.Raw? ==> r.addr < Pow2(FamilyWidth(r.is4))
  }

  function Mask(w: nat, a: nat, len: nat): Prefix
    requires len <= w
  {
    Prefix(Shr(a, w - len) * Pow2(w - len), len)
  }

  // A prefix taken in its own family.
  function Normalize(r: Raw): Option<Network> {
    if r.Invalid? || r.len > FamilyWidth(r.is4) then None
    else Some(Network(r.is4, Mask(FamilyWidth(r.is4), r.addr, r.len)))
  }

  const MAPPED := 0xffff

  // An IPv4 address written as an IPv6 one, below ::ffff:0:0/96.
  predicate Is4In6(r: Raw) {
    r.Raw? && !r.is4 && r.addr / 0x1_0000_0000 == MAPPED
  }

  function Unmap(r: Raw): Raw
    requires Is4In6(r) && r.len >= 96
  {
    Raw(true, r.addr % 0x1_0000_0000, r.len - 96)
  }

  // A mapped prefix is the IPv4 prefix it stands for, and refused when it is shorter than the mapping.
  function Decompose(r: Raw): Option<Network> {
    if Is4In6(r) && r.len <= 128 then if r.len < 96 then None else Normalize(Unmap(r))
    else Normalize(r)
  }

  // Masking gives the canonical prefix of the addresses that agree with a on the first len bits.
  lemma MaskIsCanonical(w: nat, a: nat, len: nat, b: nat)
    requires len <= w && a < Pow2(w)
    ensures Valid(w, Mask(w, a, len))
    ensures Covers(w, Mask(w, a, len), b) <==> Shr(b, w - len) == Shr(a, w - len)
    ensures Valid(w, Prefix(a, len)) ==> Mask(w, a, len) == Prefix(a, len)
  {
    var m := Pow2(w - len);
    hide Pow2;
    MaskNumbers(a, m);
  }

  lemma MaskNumbers(a: nat, m: nat)
    requires m > 0
    ensures 0 <= a / m * m <= a && a / m * m / m == a / m && a / m * m % m == 0
    ensures a % m == 0 ==> a / m * m == a
  {
    DivNonNegative(a, m);
    DivBracket(a, m);
    DivUnique(a / m * m, m, a / m);
  }

  // What is accepted is canonical, and a canonical prefix is accepted as it is.
  lemma NormalizeIsCanonical(r: Raw)
    requires InFamily(r)
    ensures Normalize(r).Some? ==> ValidNetwork(Normalize(r).value)
    ensures r.Raw? && ValidNetwork(Network(r.is4, Prefix(r.addr, r.len))) ==>
              Normalize(r) == Some(Network(r.is4, Prefix(r.addr, r.len)))
  {
    if r.Raw? && r.len <= FamilyWidth(r.is4) {
      var w := FamilyWidth(r.is4);
      hide Pow2, Shr, Valid, Mask, FamilyWidth;
      MaskIsCanonical(w, r.addr, r.len, 0);
      assert Valid(w, Prefix(r.addr, r.len)) ==> r.len <= w;
    }
  }

  // A prefix is accepted exactly when it has an address of its family and no more bits than that; it keeps its
  // family and length, and covers the addresses that agree with the one given on so many bits.
  lemma NormalizeMeans(r: Raw, b: nat)
    requires InFamily(r)
    ensures Normalize(r).Some? <==> r.Raw? && r.len <= if r.is4 then 32 else 128
    ensures Normalize(r).Some? ==>
              var n, low: nat := Normalize(r).value, (if r.is4 then 32 else 128) - r.len;
              && n.is4 == r.is4 && n.prefix.len == r.len && Valid(if r.is4 then 32 else 128, n.prefix)
              && (Covers(if r.is4 then 32 else 128, n.prefix, b) <==> Shr(b, low) == Shr(r.addr, low))
  {
    if Normalize(r).Some? {
      MaskIsCanonical(FamilyWidth(r.is4), r.addr, r.len, b);
    }
  }

  // The same for requests that unmap, on prefixes that are not mapped.
  lemma DecomposeIsCanonical(r: Raw)
    requires InFamily(r)
    ensures Decompose(r).Some? ==> ValidNetwork(Decompose(r).value)
    ensures r.Raw? && !Is4In6(r) && ValidNetwork(Network(r.is4, Prefix(r.addr, r.len))) ==>
              Decompose(r) == Some(Network(r.is4, Prefix(r.addr, r.len)))
  {
    hide Normalize, ValidNetwork;
    NormalizeIsCanonical(r);
    if Is4In6(r) && 96 <= r.len <= 128 {
      Pow2Large();
      NormalizeIsCanonical(Unmap(r));
    }
  }

  // Requests that unmap: a mapped prefix is accepted exactly when it reaches past the mapping, as the IPv4
  // prefix of what remains; any other as it would be normalised.
  lemma DecomposeMeans(r: Raw, b: nat)
    requires InFamily(r)
    ensures r.Raw? && !r.is4 && r.addr / 0x1_0000_0000 == 0xffff ==>
              && (Decompose(r).Some? <==> 96 <= r.len <= 128)
              && (Decompose(r).Some? ==>
                    var n, low: nat := Decompose(r).value, 128 - r.len;
                    && n.is4 && n.prefix.len == r.len - 96 && Valid(32, n.prefix)
                    && (Covers(32, n.prefix, b) <==> Shr(b, low) == Shr(r.addr % 0x1_0000_0000, low)))
    ensures !(r.Raw? && !r.is4 && r.addr / 0x1_0000_0000 == 0xffff) ==>
              && (Decompose(r).Some? <==> r.Raw? && r.len <= if r.is4 then 32 else 128)
              && (Decompose(r).Some? ==>
                    var n, low: nat := Decompose(r).value, (if r.is4 then 32 else 128) - r.len;
                    && n.is4 == r.is4 && n.prefix.len == r.len && Valid(if r.is4 then 32 else 128, n.prefix)
                    && (Covers(if r.is4 then 32 else 128, n.prefix, b) <==> Shr(b, low) == Shr(r.addr, low)))
  {
    hide Valid, Covers, Shr, Pow2, Mask, Normalize;
    NormalizeMeans(r, b);
    if Is4In6(r) && 96 <= r.len <= 128 {
      Pow2Large();
      NormalizeMeans(Unmap(r), b);
    }
  }

  // The IPv6 form of an IPv4 address.
  function Map4(b: nat): nat {
    MAPPED * 0x1_0000_0000 + b
  }

  // Unmapping keeps what the prefix covers: an IPv4 address lies in the result exactly when its mapped
  // form lies in the request, and nothing but mapped addresses does.
  lemma UnmapKeepsCovers(r: Raw, b: nat)
    requires InFamily(r) && Is4In6(r) && 96 <= r.len <= 128 && b < Pow2(32)
    ensures Decompose(r).Some? && Decompose(r).value.is4
    ensures Covers(32, Decompose(r).value.prefix, b) <==> Covers(128, Mask(128, r.addr, r.len), Map4(b))
  {
    var low := 128 - r.len;
    var a := r.addr % 0x1_0000_0000;
    assert Decompose(r) == Some(Network(true, Mask(32, a, r.len - 96)));
    Pow2Large();
    MaskIsCanonical(32, a, r.len - 96, b);
    MaskIsCanonical(128, r.addr, r.len, Map4(b));
    assert 32 - (r.len - 96) == low && r.addr == Map4(a);
    Map4Shift(a, low);
    Map4Shift(b, low);
  }

  lemma Map4Shift(b: nat, low: nat)
    requires b < Pow2(32) && low <= 32
    ensures Shr(Map4(b), low) == MAPPED * Pow2(32 - low) + Shr(b, low)
  {
    Pow2Large();
    Pow2Add(32 - low, low);
    assert 32 - low + low == 32;
    ShiftOver(MAPPED, Pow2(32 - low), Pow2(low), b);
  }

  lemma ShiftOver(k: nat, n: nat, m: nat, b: nat)
    requires m > 0
    ensures (k * (n * m) + b) / m == k * n + b / m
  {
    DivBracket(b, m);
    MulShuffle(k, n, m);
    assert (k * n) * m == k * (n * m) by {
      assert n * m == m * n;
    }
    AddTimes(k * n, b / m, m);
    DivUnique(k * (n * m) + b, m, k * n + b / m);
  }

  lemma ValidIn(n: Network)
    requires ValidNetwork(n)
    ensures n.is4 ==> Prefixes.Valid(32, n.prefix)
    ensures !n.is4 ==> Prefixes.Valid(128, n.prefix)
  {
  }

  // ---------------------------------------------------------------- entries

  datatype Entry<V> = Entry(prefix: Raw, value: V)

  ghost predicate Sound<V>(es: seq<Entry<V>>) {
    forall e <- es :: InFamily(e.prefix)
  }

  // The last value given for each prefix, as the table reads prefixes.
  ghost function CatalogOf<V>(es: seq<Entry<V>>, read: Raw -> Option<Network>): map<Network, V>
    requires forall e <- es :: read(e.prefix).Some?
  {
    if |es| == 0 then map[]
    else CatalogOf(es[..|es| - 1], read)[read(es[|es| - 1].prefix).value := es[|es| - 1].value]
  }

  // Every entry counts unless a later one is read as the same network, and nothing else is in the table.
  lemma {:induction false} CatalogMeans<V>(es: seq<Entry<V>>, read: Raw -> Option<Network>)
    requires forall e <- es :: read(e.prefix).Some?
    ensures forall i :: 0 <= i < |es| && (forall j :: i < j < |es| ==> read(es[j].prefix) != read(es[i].prefix)) ==>
              var n := read(es[i].prefix).value; n in CatalogOf(es, read) && CatalogOf(es, read)[n] == es[i].value
    ensures forall n <- CatalogOf(es, read) :: exists i :: 0 <= i < |es| && read(es[i].prefix) == Some(n)
  {
    if |es| > 0 {
      var front, k := es[..|es| - 1], |es| - 1;
      CatalogMeans(front, read);
      forall i | 0 <= i < |es| && forall j :: i < j < |es| ==> read(es[j].prefix) != read(es[i].prefix)
        ensures var n := read(es[i].prefix).value; n in CatalogOf(es, read) && CatalogOf(es, read)[n] == es[i].value
      {
        assert es[k] in es && es[i] in es;
        if i < k {
          assert front[i] == es[i] && forall j :: i < j < |front| ==> front[j] == es[j];
        }
      }
      forall n | n in CatalogOf(es, read) ensures exists i :: 0 <= i < |es| && read(es[i].prefix) == Some(n) {
        if read(es[k].prefix) != Some(n) {
          var i :| 0 <= i < |front| && read(front[i].prefix) == Some(n);
          assert es[i] == front[i];
        }
      }
    }
  }

  lemma {:induction false} CatalogValid<V>(es: seq<Entry<V>>)
    requires Sound(es) && forall e <- es :: Normalize(e.prefix).Some?
    ensures forall n <- CatalogOf(es, Normalize) :: ValidNetwork(n)
  {
    if |es| > 0 {
      CatalogValid(es[..|es| - 1]);
      assert es[|es| - 1] in es;
      NormalizeIsCanonical(es[|es| - 1].prefix);
    }
  }
}
