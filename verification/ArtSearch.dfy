// The within-stride longest match: intersect a stride's prefix bitset with the precomputed
// ancestors of an octet and take the highest set bit, a word at a time.
module ArtSearch {
  import opened Bitsets
  import opened Octets

  // The bits that stand for the prefixes covering octet, below index n.
  predicate IsCoverMask(mask: seq<bool>, octet: nat)
    requires octet < 256
  {
    forall i :: 0 <= i < |mask| ==> (mask[i] <==> Anc(i, octet))
  }

  // The table row an octet selects; CoverRow and AncestorRow below fill it.
  function CoverMask(octet: nat, n: nat): (mask: seq<bool>)
    requires octet < 256
    ensures |mask| == n && IsCoverMask(mask, octet)
  {
    seq(n, i requires 0 <= i => Anc(i, octet))
  }

  // The highest set position, or -1: 63 - LeadingZeros64.
  function HighBit(s: seq<bool>): (r: int)
    ensures -1 <= r < |s|
    ensures r >= 0 ==> s[r]
    ensures forall i :: r < i < |s| ==> !s[i]
  {
    if |s| == 0 then -1
    else if s[|s| - 1] then |s| - 1
    else HighBit(s[..|s| - 1])
  }

  function AndWord(s: seq<bool>, mask: seq<bool>, word: nat): (r: seq<bool>)
    requires |s| == |mask| && 64 * word + 64 <= |s|
    ensures |r| == 64 && forall i :: 0 <= i < 64 ==> r[i] == (s[64 * word + i] && mask[64 * word + i])
  {
    seq(64, i requires 0 <= i < 64 => s[64 * word + i] && mask[64 * word + i])
  }

  // The words are tried from the most significant down; the first hit is the answer.
  function TopHit(s: seq<bool>, mask: seq<bool>, words: nat): (r: int)
    requires |s| == |mask| && 64 * words <= |s|
    ensures -1 <= r < 64 * words
    ensures r >= 0 ==> s[r] && mask[r]
    ensures forall i :: r < i < 64 * words ==> !(s[i] && mask[i])
  {
    if words == 0 then -1
    else
      var hit := AndWord(s, mask, words - 1);
      var high := HighBit(hit);
      assert forall i :: 64 * (words - 1) <= i < 64 * words ==>
          hit[i - 64 * (words - 1)] == (s[i] && mask[i]);
      if high >= 0 then 64 * (words - 1) + high
      else TopHit(s, mask, words - 1)
  }

  // idx is the longest prefix stored in the stride covering octet.
  ghost predicate IsTop(s: seq<bool>, octet: nat, idx: int)
    requires octet < 256
  {
    if idx < 0 then forall j :: 0 <= j < |s| && s[j] ==> !Anc(j, octet)
    else
      && idx < |s| && s[idx] && Anc(idx, octet)
      && forall j :: 0 <= j < |s| && s[j] && Anc(j, octet) ==> j <= idx && IdxLen(j) <= IdxLen(idx)
  }

  // The longest prefix of a stride covering an octet, or -1.
  function LpmTop(s: seq<bool>, octet: nat): (r: int)
    requires octet < 256 && |s| % 64 == 0
    ensures r < |s| && IsTop(s, octet, r)
  {
    TopHitIsTop(s, CoverMask(octet, |s|), octet);
    TopHit(s, CoverMask(octet, |s|), |s| / 64)
  }

  // The highest common bit is the longest covering prefix of the stride.
  lemma TopHitIsTop(s: seq<bool>, mask: seq<bool>, octet: nat)
    requires octet < 256 && |s| == |mask| && |s| % 64 == 0 && IsCoverMask(mask, octet)
    ensures IsTop(s, octet, TopHit(s, mask, |s| / 64))
  {
    var r := TopHit(s, mask, |s| / 64);
    forall j | 0 <= j < |s| && s[j] && Anc(j, octet)
      ensures 0 <= r && j <= r && IdxLen(j) <= IdxLen(r)
    {
      assert mask[j];
      AncOrder(j, r, octet);
    }
  }

  // The table rows are filled one length at a time (lengths 0 to 7, indices below 256).
  method CoverRow(octet: nat) returns (mask: seq<bool>)
    requires octet < 256
    ensures mask == CoverMask(octet, 256)
  {
    mask := Zeros(256);
    for length := 0 to 8
      invariant |mask| == 256
      invariant forall i :: 0 <= i < 256 ==> (mask[i] <==> Anc(i, octet) && IdxLen(i) < length)
    {
      var idx := PfxToIdx(octet, length);
      IdxLenOfPfx(octet, length);
      mask := mask[idx := true];
    }
  }

  // Halving an ancestor gives the ancestor one bit shorter.
  lemma HalfIsAnc(idx: nat, octet: nat)
    requires octet < 256 && 2 <= idx && Anc(idx, octet)
    ensures Anc(idx / 2, octet) && IdxLen(idx / 2) == IdxLen(idx) - 1
  {
  }

  // The same rows filled by walking from the host index up to the root.
  method AncestorRow(octet: nat, n: nat) returns (mask: seq<bool>)
    requires octet < 256 && (n == 256 || n == 512)
    ensures mask == CoverMask(octet, n)
  {
    mask := Zeros(n);
    var idx := octet + 256;
    IdxLenOfPfx(octet, 8);
    if n == 256 {
      HalfIsAnc(idx, octet);
      idx := idx / 2;
    }
    hide Anc, IdxLen;
    while idx > 0
      invariant |mask| == n && idx < n
      invariant idx > 0 ==> Anc(idx, octet)
      invariant forall i :: 0 <= i < n ==> (mask[i] <==> Anc(i, octet) && i > idx)
    {
      mask := mask[idx := true];
      ghost var was := idx;
      if idx >= 2 {
        HalfIsAnc(idx, octet);
      }
      idx := idx / 2;
      forall i | 0 <= i < n && Anc(i, octet) && idx < i ensures i >= was {
        AncOrder(i, was, octet);
        if idx > 0 { AncOrder(i, idx, octet); }
      }
    }
  }
}
