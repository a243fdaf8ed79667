// Leaf pushing: entries painted shortest first leave every address with the value of its longest
// covering prefix, whatever the order or the layout of the blocks that hold the cells.
module Painting {
  import opened Options
  import opened Bits
  import opened Prefixes

  datatype Entry = Entry(p: Prefix, value: nat)

  ghost predicate ShortFirst(es: seq<Entry>) {
    forall i, j :: 0 <= i < j < |es| ==> es[i].p.len <= es[j].p.len
  }

  ghost predicate ValidEntries(w: nat, es: seq<Entry>) {
    forall i :: 0 <= i < |es| ==> Valid(w, es[i].p) && es[i].value > 0
  }

  // The value of the last entry of least to most bits covering a, or what lies below them.
  function Over(w: nat, es: seq<Entry>, least: nat, most: nat, a: nat, below: nat): nat {
    if |es| == 0 then below
    else
      var e := es[|es| - 1];
      if least <= e.p.len <= most && Covers(w, e.p, a) then e.value
      else Over(w, es[..|es| - 1], least, most, a, below)
  }

  lemma OverStep(w: nat, es: seq<Entry>, j: nat, least: nat, most: nat, a: nat, below: nat)
    requires j < |es|
    ensures Over(w, es[..j + 1], least, most, a, below) ==
              if least <= es[j].p.len <= most && Covers(w, es[j].p, a) then es[j].value
              else Over(w, es[..j], least, most, a, below)
  {
    assert es[..j + 1][..j] == es[..j];
  }

  lemma {:induction false} OverNone(w: nat, es: seq<Entry>, least: nat, most: nat, a: nat, below: nat)
    requires forall i :: 0 <= i < |es| ==> es[i].p.len < least
    ensures Over(w, es, least, most, a, below) == below
  {
    if |es| > 0 {
      OverNone(w, es[..|es| - 1], least, most, a, below);
    }
  }

  lemma {:induction false} OverCap(w: nat, es: seq<Entry>, least: nat, most: nat, cap: nat, a: nat, below: nat)
    requires cap <= most && forall i :: 0 <= i < |es| ==> es[i].p.len <= cap
    ensures Over(w, es, least, most, a, below) == Over(w, es, least, cap, a, below)
  {
    if |es| > 0 {
      OverCap(w, es[..|es| - 1], least, most, cap, a, below);
    }
  }

  // Painting the shorter entries first and the longer ones over them is painting them all.
  lemma {:induction false} OverSplit(w: nat, es: seq<Entry>, least: nat, mid: nat, most: nat, a: nat, below: nat)
    requires ShortFirst(es) && least <= mid + 1 && mid <= most
    ensures Over(w, es, least, most, a, below) == Over(w, es, mid + 1, most, a, Over(w, es, least, mid, a, below))
  {
    if |es| > 0 {
      var n := |es| - 1;
      if es[n].p.len <= mid {
        OverCap(w, es, least, most, mid, a, below);
        OverNone(w, es, mid + 1, most, a, Over(w, es, least, mid, a, below));
      } else {
        OverSplit(w, es[..n], least, mid, most, a, below);
      }
    }
  }

  // Entries of at most l bits cannot tell addresses with the same top l bits apart.
  lemma {:induction false} OverTop(w: nat, es: seq<Entry>, least: nat, most: nat, l: nat, a: nat, b: nat, below: nat)
    requires most <= l <= w && Shr(a, w - l) == Shr(b, w - l)
    ensures Over(w, es, least, most, a, below) == Over(w, es, least, most, b, below)
  {
    hide Covers, Shr;
    if |es| > 0 {
      var e := es[|es| - 1];
      if e.p.len <= most {
        TrimCovers(w, l, e.p, a);
        TrimCovers(w, l, e.p, b);
      }
      OverTop(w, es[..|es| - 1], least, most, l, a, b, below);
    }
  }

  // ---------------------------------------------------------------- the longest match

  // The value of the last entry for a prefix.
  ghost function LastValue(es: seq<Entry>, p: Prefix): Option<nat> {
    if |es| == 0 then None
    else if es[|es| - 1].p == p then Some(es[|es| - 1].value)
    else LastValue(es[..|es| - 1], p)
  }

  // The table of the entries, later ones for a prefix replacing earlier ones.
  ghost predicate Lists(es: seq<Entry>, m: map<Prefix, nat>) {
    forall p :: LastValue(es, p) == if p in m then Some(m[p]) else None
  }

  lemma {:induction false} LastValueAt(es: seq<Entry>, i: nat)
    requires i < |es| && forall j :: i < j < |es| ==> es[j].p != es[i].p
    ensures LastValue(es, es[i].p) == Some(es[i].value)
  {
    if i < |es| - 1 {
      LastValueAt(es[..|es| - 1], i);
    }
  }

  lemma {:induction false} LastValueEntry(es: seq<Entry>, p: Prefix) returns (i: nat)
    requires LastValue(es, p).Some?
    ensures i < |es| && es[i] == Entry(p, LastValue(es, p).value)
  {
    if es[|es| - 1].p == p {
      return |es| - 1;
    }
    i := LastValueEntry(es[..|es| - 1], p);
  }

  lemma {:induction false} EntryListed(es: seq<Entry>, m: map<Prefix, nat>, i: nat)
    requires Lists(es, m) && i < |es|
    ensures es[i].p in m
  {
    EntryHasLast(es, i);
  }

  lemma {:induction false} EntryHasLast(es: seq<Entry>, i: nat)
    requires i < |es|
    ensures LastValue(es, es[i].p).Some?
  {
    if i < |es| - 1 {
      EntryHasLast(es[..|es| - 1], i);
    }
  }

  // Fully painted, a cell holds the answer.
  lemma OverIsAnswer(w: nat, es: seq<Entry>, m: map<Prefix, nat>, a: nat)
    requires ShortFirst(es) && ValidEntries(w, es) && Lists(es, m)
    ensures Answers(w, m, a, Over(w, es, 0, w, a, 0))
  {
    hide Covers, Valid, Over;
    if p :| p in m.Keys && Covers(w, p, a) {
      var i := LastValueEntry(es, p);
      var k := OverIndex(w, es, a, i);
      LastValueAt(es, k);
      forall q <- m.Keys | Covers(w, q, a) ensures q.len <= es[k].p.len {
        var j := LastValueEntry(es, q);
        assert j <= k;
      }
      assert Longest(w, m.Keys, a, es[k].p);
    } else {
      forall i | 0 <= i < |es| ensures !Covers(w, es[i].p, a) {
        EntryListed(es, m, i);
      }
      OverMiss(w, es, a);
    }
  }

  lemma {:induction false} OverIndex(w: nat, es: seq<Entry>, a: nat, i: nat) returns (k: nat)
    requires ValidEntries(w, es) && i < |es| && Covers(w, es[i].p, a)
    ensures k < |es| && Covers(w, es[k].p, a) && Over(w, es, 0, w, a, 0) == es[k].value
    ensures forall j :: k < j < |es| ==> !Covers(w, es[j].p, a)
  {
    hide Covers, Valid;
    if Covers(w, es[|es| - 1].p, a) {
      k := |es| - 1;
      assert es[k].p.len <= w by { CoverFits(w, es[k].p, a); }
    } else {
      k := OverIndex(w, es[..|es| - 1], a, i);
    }
  }

  lemma CoverFits(w: nat, p: Prefix, a: nat)
    requires Covers(w, p, a)
    ensures p.len <= w
  {
  }

  lemma {:induction false} OverMiss(w: nat, es: seq<Entry>, a: nat)
    requires forall i :: 0 <= i < |es| ==> !Covers(w, es[i].p, a)
    ensures Over(w, es, 0, w, a, 0) == 0
  {
    if |es| > 0 {
      OverMiss(w, es[..|es| - 1], a);
    }
  }

  // ---------------------------------------------------------------- painting a run of cells

  method PaintSpan(a: array<nat>, start: nat, count: nat, value: nat)
    requires start + count <= a.Length
    modifies a
    ensures forall i :: 0 <= i < a.Length ==> a[i] == if start <= i < start + count then value else old(a[i])
  {
    for i := start to start + count
      invariant forall k :: 0 <= k < a.Length ==> a[k] == if start <= k < i then value else old(a[k])
    {
      a[i] := value;
    }
  }

  method PaintCells(cells: seq<nat>, start: nat, count: nat, value: nat) returns (r: seq<nat>)
    requires start + count <= |cells|
    ensures |r| == |cells|
    ensures forall i :: 0 <= i < |cells| ==> r[i] == if start <= i < start + count then value else cells[i]
  {
    r := cells;
    for i := start to start + count
      invariant |r| == |cells|
      invariant forall k :: 0 <= k < |cells| ==> r[k] == if start <= k < i then value else cells[k]
    {
      r := r[i := value];
    }
  }

  // The cells an entry paints among those of the top l bits: a run starting at its own key.
  lemma LevelSpan(w: nat, l: nat, p: Prefix, q: nat)
    requires Valid(w, p) && p.len <= l <= w
    ensures Covers(l, Trim(w, l, p), q) <==> Shr(p.key, w - l) <= q < Shr(p.key, w - l) + Pow2(l - p.len)
    ensures Shr(p.key, w - l) + Pow2(l - p.len) <= Pow2(l)
  {
    TrimValid(w, l, p);
    CoversIsRange(l, Trim(w, l, p), q);
    ValidFits(l, Trim(w, l, p));
  }

  // Any address under a cell's top bits shows what covers the cell.
  lemma CellCovers(w: nat, l: nat, p: Prefix, q: nat)
    requires p.len <= l <= w
    ensures Covers(w, p, q * Pow2(w - l)) <==> Covers(l, Trim(w, l, p), q)
  {
    TrimCovers(w, l, p, q * Pow2(w - l));
    DivUnique(q * Pow2(w - l), Pow2(w - l), q);
  }
}
