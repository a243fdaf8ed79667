// flatart's Build and the two decoded lookups: the unrolled IPv4 form and the IPv6 loop, both
// proved to return the value whose reference belongs to the longest inserted prefix.
module FlatLookup {
  import opened Bits
  import opened Options
  import opened Prefixes
  import opened Octets
  import opened FlatIndex
  import opened FlatWalk
  import opened FlatBuild
  import opened FlatCompile
  import opened FlatRoot
  import opened FlatExact

  const MAX_ENTRIES := REF_MASK

  // A whole flat root, every slot right for its keys.
  ghost predicate RootRight(a: Arena, is4: bool, t: Trie, short: map<Prefix, nat>, refOf: seq<nat>, root: seq<nat>) {
    |root| == ROOT_SLOTS && forall k :: 0 <= k < ROOT_SLOTS ==> SlotRight(a, is4, t, short, refOf, k, root[k])
  }

  lemma RootKept(a: Arena, b: Arena, is4: bool, t: Trie, short: map<Prefix, nat>, refOf: seq<nat>, refOf': seq<nat>,
                 root: seq<nat>)
    requires RootRight(a, is4, t, short, refOf, root) && Extends(a, b) && refOf <= refOf'
    ensures RootRight(b, is4, t, short, refOf', root)
  {
    hide SlotRight;
    forall k | 0 <= k < ROOT_SLOTS ensures SlotRight(b, is4, t, short, refOf', k, root[k]) {
      SlotKept(a, b, is4, t, short, refOf, refOf', k, root[k]);
    }
  }

  lemma KeyIsCompiled(a: Arena, f: Family, refOf: seq<nat>, root: seq<nat>, hi: seq<nat>, lo: seq<nat>, key: nat)
    requires f.Valid() && RootRight(a, f.is4, f.Now(), f.rootPfx, refOf, root) && SplitOf(root, hi, lo)
    requires key < Pow2(Width(f.is4)) && |refOf| <= TAG_NODE
    requires |refOf| > 0 && refOf[0] == 0 && forall v :: 0 < v < |refOf| ==> refOf[v] > 0
    ensures KeyCompiled(a, f.is4, hi, lo, refOf, f.catalog, key)
  {
    hide Family.Valid, SlotRight, Answers, Shr, Walk;
    var q := Shr(key, Width(f.is4) - ROOT_BITS);
    RootOctets(f.is4, key);
    assert BlockReads(root, hi, lo, q) && SlotRight(a, f.is4, f.Now(), f.rootPfx, refOf, q, root[q]);
    if q in f.subtrees {
      KeyBelowSubtree(a, f, refOf, q, root[q], key);
    } else {
      KeyAtTerminal(a, f, refOf, q, root[q], key);
    }
  }

  // The parts of a family's state an answer depends on.
  lemma FamilyParts(f: Family)
    requires f.Valid()
    ensures AllValid(Width(f.is4), f.catalog.Keys) && RootHolds(Width(f.is4), f.catalog, f.rootPfx)
    ensures Encodes(Ceil, Strides(f.is4), LongOnes(f.catalog), f.stored)
    ensures forall y <- f.stored :: |y.path| >= 2
    ensures forall q: nat | q < 65536 && q !in f.subtrees :: Nothing(f.stored, RootPath(q))
  {
  }

  lemma KeyAtTerminal(a: Arena, f: Family, refOf: seq<nat>, q: nat, slot: nat, key: nat)
    requires f.Valid() && q !in f.subtrees && SlotRight(a, f.is4, f.Now(), f.rootPfx, refOf, q, slot)
    requires key < Pow2(Width(f.is4)) && q == Shr(key, Width(f.is4) - ROOT_BITS) && |refOf| <= TAG_NODE
    ensures slot < |refOf| && Answers(Width(f.is4), f.catalog, key, refOf[slot])
    ensures Walk(a, f.is4, 0, 0, slot, key, 2) == Some(slot)
  {
    hide Family.Valid, Shr, Answers, RootHolds, Encodes, KeyOctets, SlotRight, Covers, PosCovers, Valid, Pow2, AnswersOr, Nothing, LongOnes;
    var x := KeyOctets(Strides(f.is4), key);
    RootOctets(f.is4, key);
    FamilyParts(f);
    SubAll(f.stored, RootPath(q), x, slot, refOf, a, f.is4, f.Now(), f.rootPfx, q);
    FamilyAnswer(f.Now(), f.is4, f.catalog, f.rootPfx, key, refOf[slot], refOf[slot]);
  }

  // With no subtree below the root key, no long prefix covers the key.
  lemma SubAll(stored: map<Pos, nat>, path: seq<nat>, x: seq<nat>, slot: nat, refOf: seq<nat>,
               a: Arena, is4: bool, t: Trie, short: map<Prefix, nat>, q: nat)
    requires Nothing(stored, path) && |x| >= 2 && |path| == 2 && x[..2] == path
    requires forall y <- stored :: |y.path| >= 2
    requires q !in t.subtrees && SlotRight(a, is4, t, short, refOf, q, slot)
    ensures slot < |refOf| && AnswersOr(stored, x, refOf[slot], refOf[slot]) && Answers(ROOT_BITS, short, q, refOf[slot])
  {
    forall y <- stored.Keys ensures !PosCovers(y, x) {
    }
  }

  // The value a subtree was compiled with as its default.
  lemma SlotDefault(a: Arena, f: Family, refOf: seq<nat>, q: nat, slot: nat) returns (pv: nat)
    requires q in f.subtrees && SlotRight(a, f.is4, f.Now(), f.rootPfx, refOf, q, slot)
    ensures q < ROOT_SLOTS && pv < |refOf| && Answers(ROOT_BITS, f.rootPfx, q, refOf[pv])
    ensures SubtreeRight(a, f.is4, 0, 0, slot, f.stored, RootPath(q), refOf, pv)
  {
    hide Answers, SubtreeRight, RootPath;
    pv :| pv < |refOf| && Answers(ROOT_BITS, f.rootPfx, q, refOf[pv])
          && SubtreeRight(a, f.is4, 0, 0, slot, f.stored, RootPath(q), refOf, pv);
  }

  lemma KeyBelowSubtree(a: Arena, f: Family, refOf: seq<nat>, q: nat, slot: nat, key: nat)
    requires f.Valid() && q in f.subtrees && SlotRight(a, f.is4, f.Now(), f.rootPfx, refOf, q, slot)
    requires key < Pow2(Width(f.is4)) && q == Shr(key, Width(f.is4) - ROOT_BITS)
    ensures match Walk(a, f.is4, 0, 0, slot, key, 2)
            case None => false
            case Some(v) => v < |refOf| && Answers(Width(f.is4), f.catalog, key, refOf[v])
  {
    hide Family.Valid, SlotRight, Shr, Answers, RootHolds, Encodes, KeyOctets, Walk, Covers, PosCovers, Valid, AnswersOr,
         Pow2, Nothing, LongOnes;
    var x := KeyOctets(Strides(f.is4), key);
    RootOctets(f.is4, key);
    FamilyParts(f);
    var pv := SlotDefault(a, f, refOf, q, slot);
    assert RootPath(q) <= x && Under(f.is4, key, RootPath(q));
    assert KeyRight(a, f.is4, 0, 0, slot, key, f.stored, RootPath(q), refOf, pv);
    hide SubtreeRight;
    var v := Walk(a, f.is4, 0, 0, slot, key, 2).value;
    SubIsAll(f.stored, RootPath(q), x, refOf[pv], refOf[v]);
    FamilyAnswer(f.Now(), f.is4, f.catalog, f.rootPfx, key, refOf[pv], refOf[v]);
  }

  // Only the prefixes below the key's own root slot can cover it.
  lemma SubIsAll(m: map<Pos, nat>, path: seq<nat>, x: seq<nat>, default: nat, id: nat)
    requires path <= x && |path| == 2 && (forall y <- m :: |y.path| >= 2) && AnswersOr(Sub(m, path), x, default, id)
    ensures AnswersOr(m, x, default, id)
  {
    var sub := Sub(m, path);
    forall y <- m | PosCovers(y, x) ensures y in sub {
      assert y.path[..2] == path;
    }
    if y :| y in m.Keys && PosCovers(y, x) {
      var z :| z in sub.Keys && PosLongest(sub.Keys, x, z) && sub[z] == id;
      assert PosLongest(m.Keys, x, z);
    }
  }

  // ---------------------------------------------------------------- building

  lemma CountsPaid(count4: nat, count6: nat)
    ensures Paid(true, count4) == 7 * count4 && Paid(false, count6) == 43 * count6
  {
  }

  class Builder {
    const v4: Family
    const v6: Family
    const wantExact: bool

    ghost predicate Valid()
      reads this, v4, v6
    {
      v4.is4 && !v6.is4 && v4 != v6 && v4.Valid() && v6.Valid()
    }

    constructor (wantExact: bool)
      ensures Valid() && fresh(v4) && fresh(v6) && v4.catalog == map[] && v6.catalog == map[]
      ensures this.wantExact == wantExact
    {
      v4 := new Family(true);
      v6 := new Family(false);
      this.wantExact := wantExact;
    }

    // One family's root and subtrees, or the all-zero root when nothing was inserted.
    method BuildFamily(c: Compiler, f: Family)
      returns (hi: seq<nat>, lo: seq<nat>, exact: seq<nat>, err: bool, ghost root: seq<nat>)
      requires c.Ready() && f.Valid()
      modifies c
      ensures c.Ready() && old(c.refOf) <= c.refOf && Extends(old(c.Now()), c.Now())
      ensures err ==> Full(c.Now()) && old(c.Size()) + Paid(f.is4, f.count) > REF_MASK
      ensures !err ==> c.Size() <= old(c.Size()) + Paid(f.is4, f.count)
      ensures !err && f.count > 0 ==>
                RootRight(c.Now(), f.is4, f.Now(), f.rootPfx, c.refOf, root) && SplitOf(root, hi, lo)
      ensures !err && f.count == 0 ==> hi == seq(256, _ => 0) && lo == seq(256, _ => 0)
      ensures !err && wantExact ==> AllRecorded(f.rootPfx, c.refOf, exact)
    {
      exact, root, err := [], [], false;
      if f.count == 0 {
        NothingRecorded(f, c.refOf);
        hi, lo := seq(256, _ => 0), seq(256, _ => 0);
        return;
      }
      ShortPositive(f);
      FamilyPaid(f);
      hide TotalCost, Paid, Hung;
      hide Family.Valid, SlotRight, AllRecorded;
      var flat := new nat[ROOT_SLOTS](_ => 0);
      exact := PaintRoot(c, f, wantExact, flat);
      ghost var painted := c.refOf;
      NoneHung(c.Now(), f.is4, f.Now(), f.rootPfx, c.refOf, flat[..]);
      err := HangSubtrees(c, f, flat);
      if err {
        hi, lo := [], [];
        return;
      }
      root := flat[..];
      AllHung(c.Now(), f.is4, f.Now(), f.rootPfx, c.refOf, root);
      hi, lo := SplitRoot(flat[..]);
      if wantExact {
        RecordedGrows(f.rootPfx, painted, c.refOf, exact);
      }
    }

    // The index and, for each value it assigns, the reference the value belongs to.  A build of few enough
    // prefixes succeeds and every value stays below the tags.
    method Build() returns (ix: Index, refOf: seq<nat>, err: bool)
      requires Valid()
      ensures 1 + 7 * v4.count + 43 * v6.count < 0x4000_0000 ==> !err && |refOf| <= TAG_NODE
      ensures v4.count + v6.count > MAX_ENTRIES ==> err
      ensures !err ==> |refOf| > 0 && refOf[0] == 0 && ix.values == |refOf|
      ensures !err && |refOf| <= TAG_NODE ==>
                && Compiled(ix.arena, true, ix.rootHi4, ix.rootLo4, refOf, v4.catalog)
                && Compiled(ix.arena, false, ix.rootHi6, ix.rootLo6, refOf, v6.catalog)
      ensures !err && |refOf| <= TAG_NODE && wantExact ==>
                && ExactCompiled(ix.arena, true, ix.rootHi4, ix.rootLo4, ix.exact4, refOf, v4.catalog)
                && ExactCompiled(ix.arena, false, ix.rootHi6, ix.rootLo6, ix.exact6, refOf, v6.catalog)
    {
      hide Family.Valid, RootRight, SplitOf, Compiled, ExactCompiled, AllRecorded, Taken, Paid;
      CountsPaid(v4.count, v6.count);
      ix, refOf := Index([], [], [], [], Arena([], [], [], [], []), [], [], 0), [];
      if v4.count + v6.count > MAX_ENTRIES {
        return ix, refOf, true;
      }
      var c := new Compiler();
      var hi4, lo4, words4, err4, root4 := BuildFamily(c, v4);
      ghost var a4, refOf4 := c.Now(), c.refOf;
      if err4 {
        return ix, refOf, true;
      }
      var exact4 := Take(words4, v4, c.refOf);
      var hi6, lo6, words6, err6, root6 := BuildFamily(c, v6);
      if err6 {
        return ix, refOf, true;
      }
      var exact6 := Take(words6, v6, c.refOf);
      refOf := c.refOf;
      var arena := Arena(c.nodes, c.stops, c.refs, c.leaf4, c.leaf6);
      ix := Index(hi4, lo4, hi6, lo6, arena, exact4, exact6, |refOf|);
      err := false;
      if v4.count > 0 {
        RootKept(a4, c.Now(), true, v4.Now(), v4.rootPfx, refOf4, refOf, root4);
      }
      if wantExact {
        TakenGrows(exact4, v4.rootPfx, refOf4, refOf);
      }
      if |refOf| <= TAG_NODE {
        FamilyCompiled(arena, v4, refOf, root4, hi4, lo4);
        FamilyCompiled(arena, v6, refOf, root6, hi6, lo6);
        if wantExact {
          FamilyExact(arena, v4, refOf, root4, hi4, lo4, exact4);
          FamilyExact(arena, v6, refOf, root6, hi6, lo6, exact6);
        }
      }
    }

    // The recorded words in order, or no table when none was asked for.
    method Take(words: seq<nat>, f: Family, ghost refOf: seq<nat>) returns (exact: seq<nat>)
      requires wantExact ==> AllRecorded(f.rootPfx, refOf, words)
      ensures wantExact ==> Taken(exact, f.rootPfx, refOf)
    {
      hide AllRecorded, Taken;
      if !wantExact || |words| == 0 {
        if wantExact {
          NoWords(f.rootPfx, refOf);
        }
        return [];
      }
      exact := TakeExact(words, f.rootPfx, refOf);
    }
  }

  lemma NoneHung(a: Arena, is4: bool, t: Trie, short: map<Prefix, nat>, refOf: seq<nat>, slots: seq<nat>)
    requires |slots| == ROOT_SLOTS && forall i :: 0 <= i < ROOT_SLOTS ==> SlotReady(short, refOf, i, slots[i])
    ensures Hung(a, is4, t, short, refOf, 0, slots)
  {
  }

  lemma AllHung(a: Arena, is4: bool, t: Trie, short: map<Prefix, nat>, refOf: seq<nat>, slots: seq<nat>)
    requires Hung(a, is4, t, short, refOf, ROOT_SLOTS, slots)
    ensures RootRight(a, is4, t, short, refOf, slots)
  {
    hide SlotRight;
  }

  lemma FamilyPaid(f: Family)
    requires f.Valid()
    ensures |f.rootPfx| + TotalCost(f.pool) <= Paid(f.is4, f.count)
  {
  }

  lemma NoWords(root: map<Prefix, nat>, refOf: seq<nat>)
    requires AllRecorded(root, refOf, [])
    ensures Taken([], root, refOf)
  {
    hide AllRecorded;
    var none: seq<nat> := [];
    assert multiset(none) == multiset(none) && AllRecorded(root, refOf, none);
  }

  lemma ShortInserted(w: nat, m: map<Prefix, nat>, root: map<Prefix, nat>)
    requires w >= ROOT_BITS && RootHolds(w, m, root)
    ensures root != map[] ==> m != map[]
  {
    if root != map[] {
      var q :| q in root;
      var p :| p in m && p.len <= ROOT_BITS && Short(w, p) == q;
    }
  }

  lemma NothingRecorded(f: Family, refOf: seq<nat>)
    requires f.Valid() && f.count == 0 && |refOf| > 0
    ensures AllRecorded(f.rootPfx, refOf, [])
  {
    hide Inv, Encodes, AllValid;
    ShortInserted(Width(f.is4), f.catalog, f.rootPfx);
    assert Recorded([], f.rootPfx, refOf, 1, []) && OncePushed([], f.rootPfx);
  }

  // Every prefix of a compiled family is found exactly.
  lemma FamilyExact(a: Arena, f: Family, refOf: seq<nat>, root: seq<nat>, hi: seq<nat>, lo: seq<nat>, exact: seq<nat>)
    requires f.Valid() && |refOf| <= TAG_NODE && Taken(exact, f.rootPfx, refOf)
    requires if f.count > 0 then RootRight(a, f.is4, f.Now(), f.rootPfx, refOf, root) && SplitOf(root, hi, lo)
             else hi == seq(256, _ => 0) && lo == seq(256, _ => 0)
    ensures ExactCompiled(a, f.is4, hi, lo, exact, refOf, f.catalog)
  {
    hide Family.Valid, RootRight, SplitOf, Taken, PrefixCompiled, Valid, WordFor, Rising;
    TakenRight(exact, f.rootPfx, refOf);
    forall i | 0 <= i < |exact| ensures Valid(ROOT_BITS, WordPrefix(exact[i])) && exact[i] % VALUE_SPAN > 0 {
      WordIsReal(exact[i], f.rootPfx, refOf);
    }
    forall p: Prefix | p.len <= Width(f.is4) && Valid(Width(f.is4), p)
      ensures PrefixCompiled(a, f.is4, hi, lo, exact, refOf, f.catalog, p)
    {
      PrefixIsCompiled(a, f, refOf, root, hi, lo, exact, p);
    }
  }

  lemma PrefixIsCompiled(a: Arena, f: Family, refOf: seq<nat>, root: seq<nat>, hi: seq<nat>, lo: seq<nat>,
                         exact: seq<nat>, p: Prefix)
    requires f.Valid() && |refOf| <= TAG_NODE && TableRight(exact, f.rootPfx, refOf)
    requires if f.count > 0 then RootRight(a, f.is4, f.Now(), f.rootPfx, refOf, root) && SplitOf(root, hi, lo)
             else hi == seq(256, _ => 0) && lo == seq(256, _ => 0)
    requires p.len <= Width(f.is4) && Valid(Width(f.is4), p)
    ensures PrefixCompiled(a, f.is4, hi, lo, exact, refOf, f.catalog, p)
  {
    FamilyParts(f);
    FamilyInv(f);
    hide Family.Valid, SplitOf, SlotRight, PrefixCompiled, TableRight, Valid, Inv, Encodes, RootHolds, AllValid;
    if p.len <= ROOT_BITS {
      ShortIsCompiled(a, f.is4, hi, lo, exact, refOf, f.catalog, f.rootPfx, p);
    } else if f.count > 0 {
      LongIsCompiled(a, f.is4, f.Now(), hi, lo, exact, refOf, f.catalog, f.rootPfx, root, p);
    } else {
      EmptyExact(a, f, hi, lo, exact, refOf, p);
    }
  }

  lemma FamilyInv(f: Family)
    requires f.Valid()
    ensures Inv(Strides(f.is4), f.Now()) && (f.count == 0 ==> f.catalog == map[])
  {
  }

  lemma EmptyExact(a: Arena, f: Family, hi: seq<nat>, lo: seq<nat>, exact: seq<nat>, refOf: seq<nat>, p: Prefix)
    requires f.catalog == map[] && hi == seq(256, _ => 0) && lo == seq(256, _ => 0)
    requires ROOT_BITS < p.len <= Width(f.is4) && Valid(Width(f.is4), p)
    ensures PrefixCompiled(a, f.is4, hi, lo, exact, refOf, f.catalog, p)
  {
    LongSpot(f.is4, p);
    hide Valid, PosOf, Shr;
  }

  lemma ShortPositive(f: Family)
    requires f.Valid()
    ensures forall p <- f.rootPfx :: Prefixes.Valid(ROOT_BITS, p) && f.rootPfx[p] > 0
  {
    forall q <- f.rootPfx ensures Prefixes.Valid(ROOT_BITS, q) && f.rootPfx[q] > 0 {
      var p :| p in f.catalog && p.len <= ROOT_BITS && Short(Width(f.is4), p) == q;
      TrimValid(Width(f.is4), ROOT_BITS, p);
    }
  }

  lemma FamilyCompiled(a: Arena, f: Family, refOf: seq<nat>, root: seq<nat>, hi: seq<nat>, lo: seq<nat>)
    requires f.Valid() && |refOf| <= TAG_NODE
    requires |refOf| > 0 && refOf[0] == 0 && forall v :: 0 < v < |refOf| ==> refOf[v] > 0
    requires if f.count > 0 then RootRight(a, f.is4, f.Now(), f.rootPfx, refOf, root) && SplitOf(root, hi, lo)
             else hi == seq(256, _ => 0) && lo == seq(256, _ => 0)
    ensures Compiled(a, f.is4, hi, lo, refOf, f.catalog)
  {
    forall key: nat | key < Pow2(Width(f.is4)) ensures KeyCompiled(a, f.is4, hi, lo, refOf, f.catalog, key) {
      hide Family.Valid, RootRight, SplitOf, KeyCompiled;
      if f.count > 0 {
        KeyIsCompiled(a, f, refOf, root, hi, lo, key);
      } else {
        EmptyCompiled(a, f, refOf, hi, lo, key);
      }
    }
  }

  lemma EmptyCompiled(a: Arena, f: Family, refOf: seq<nat>, hi: seq<nat>, lo: seq<nat>, key: nat)
    requires f.Valid() && f.count == 0 && |refOf| > 0 && refOf[0] == 0 && key < Pow2(Width(f.is4))
    requires hi == seq(256, _ => 0) && lo == seq(256, _ => 0)
    ensures KeyCompiled(a, f.is4, hi, lo, refOf, f.catalog, key)
  {
    RootKeyFits(Width(f.is4), key);
    hide Inv, Encodes, RootHolds, Shr;
  }

  // ---------------------------------------------------------------- lookups

  // The decoded IPv4 path, written out: at most two strides below the root.
  method Descend4(ix: Index, key: nat) returns (value: nat)
    requires WalkRoot(ix.arena, true, ix.rootHi4, ix.rootLo4, key).Some?
    ensures Some(value) == WalkRoot(ix.arena, true, ix.rootHi4, ix.rootLo4, key)
  {
    hide Shr, ResolveStop, ResolveNode, OctetAt, LeafValue, KidIndex, HasKid;
    var q := Shr(key, 16);
    var slot := ix.rootLo4[ix.rootHi4[q / 256] + q % 256];
    if slot >= TAG_STOP {
      return ResolveStop(ix.arena.stops[slot - TAG_STOP], OctetAt(4, key, 2));
    }
    if slot < TAG_NODE {
      // terminal value already, a miss included
      return slot;
    }
    if slot < TAG_LEAF {
      var n := ix.arena.nodes[slot - TAG_NODE];
      var octet := OctetAt(4, key, 2);
      if !HasKid(n, octet) {
        return ResolveNode(n, octet);
      }
      slot := ix.arena.refs[KidIndex(n, octet)];
      assert Walk(ix.arena, true, 0, 0, slot, key, 3).Some?;
      if slot >= TAG_STOP {
        return ResolveStop(ix.arena.stops[slot - TAG_STOP], OctetAt(4, key, 3));
      }
      if slot < TAG_LEAF {
        LastStride(ix.arena, slot, key);
        return ResolveNode(ix.arena.nodes[slot - TAG_NODE], OctetAt(4, key, 3));
      }
    }
    return LeafValue(true, ix.arena.leaf4[slot - TAG_LEAF], key);
  }

  // A node at the last octet has no children to test.
  lemma LastStride(a: Arena, slot: nat, key: nat)
    requires TAG_NODE <= slot < TAG_LEAF && Walk(a, true, 0, 0, slot, key, 3).Some?
    ensures slot - TAG_NODE < |a.nodes| && NodeWf(a.nodes[slot - TAG_NODE])
    ensures Walk(a, true, 0, 0, slot, key, 3) == Some(ResolveNode(a.nodes[slot - TAG_NODE], OctetAt(4, key, 3)))
  {
    hide ResolveStop, ResolveNode, OctetAt, LeafValue, KidIndex, HasKid;
  }

  // The decoded IPv6 path: the same tag tests in a loop over the remaining octets.
  method Descend6(ix: Index, key: nat) returns (value: nat)
    requires WalkRoot(ix.arena, false, ix.rootHi6, ix.rootLo6, key).Some?
    ensures Some(value) == WalkRoot(ix.arena, false, ix.rootHi6, ix.rootLo6, key)
  {
    hide Shr, ResolveStop, ResolveNode, OctetAt, LeafValue, KidIndex, HasKid;
    value := 0;
    var q := Shr(key, 112);
    var slot: nat := ix.rootLo6[ix.rootHi6[q / 256] + q % 256];
    ghost var answer := Walk(ix.arena, false, 0, 0, slot, key, 2);
    for byteIndex := 2 to 16
      invariant Walk(ix.arena, false, 0, 0, slot, key, byteIndex) == answer
    {
      var octet := OctetAt(16, key, byteIndex);
      if slot >= TAG_STOP {
        return ResolveStop(ix.arena.stops[slot - TAG_STOP], octet);
      }
      if slot < TAG_NODE {
        return slot;
      }
      if slot >= TAG_LEAF {
        return LeafValue(false, ix.arena.leaf6[slot - TAG_LEAF], key);
      }
      var n := ix.arena.nodes[slot - TAG_NODE];
      if !HasKid(n, octet) {
        return ResolveNode(n, octet);
      }
      slot := ix.arena.refs[KidIndex(n, octet)];
    }
  }

  method Lookup4(ix: Index, key: nat, ghost refOf: seq<nat>, ghost catalog: map<Prefix, nat>) returns (value: nat)
    requires Compiled(ix.arena, true, ix.rootHi4, ix.rootLo4, refOf, catalog) && key < Pow2(32)
    ensures value < |refOf| && Answers(32, catalog, key, refOf[value])
    ensures value == 0 <==> refOf[value] == 0
  {
    assert KeyCompiled(ix.arena, true, ix.rootHi4, ix.rootLo4, refOf, catalog, key);
    hide Answers, WalkRoot;
    value := Descend4(ix, key);
  }

  method Lookup6(ix: Index, key: nat, ghost refOf: seq<nat>, ghost catalog: map<Prefix, nat>) returns (value: nat)
    requires Compiled(ix.arena, false, ix.rootHi6, ix.rootLo6, refOf, catalog) && key < Pow2(128)
    ensures value < |refOf| && Answers(128, catalog, key, refOf[value])
    ensures value == 0 <==> refOf[value] == 0
  {
    assert KeyCompiled(ix.arena, false, ix.rootHi6, ix.rootLo6, refOf, catalog, key);
    hide Answers, WalkRoot;
    value := Descend6(ix, key);
  }
}
