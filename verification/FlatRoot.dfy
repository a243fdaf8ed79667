// flatart's root: short prefixes painted into a 16-bit array, subtrees hung below it, the
// two-level split that shares uniform blocks, and the lookups with their end-to-end theorem.
module FlatRoot {
  import opened Bits
  import opened Options
  import opened Prefixes
  import opened Octets
  import opened Sorting
  import Painting
  import opened PathKeys
  import opened FlatIndex
  import opened FlatWalk
  import opened FlatBuild
  import opened FlatWeight
  import opened FlatSummary
  import opened FlatCompile

  const ROOT_SLOTS := 65536
  const ROOT_BLOCK := 256

  // ---------------------------------------------------------------- painting

  lemma RootSpan(p: Prefix, i: nat)
    requires Valid(ROOT_BITS, p)
    ensures p.len <= ROOT_BITS && p.key + Span(ROOT_BITS, p.len) <= ROOT_SLOTS
    ensures p.key <= i < p.key + Span(ROOT_BITS, p.len) <==> Covers(ROOT_BITS, p, i)
  {
    CoversIsRange(ROOT_BITS, p, i);
    ValidFits(ROOT_BITS, p);
    Pow2Small();
    Pow2Large();
  }

  // A slot holds the value of the last painted prefix covering it, or zero.
  ghost predicate Painted(ps: seq<Prefix>, root: map<Prefix, nat>, refOf: seq<nat>, i: nat, v: nat) {
    var r := LastCover(ROOT_BITS, ps, i);
    && v < |refOf|
    && if r < 0 then v == 0 else ps[r] in root && refOf[v] == root[ps[r]]
  }

  // The keys of the short-prefix map, shortest first.
  method PushOrder(root: map<Prefix, nat>) returns (pushed: seq<Prefix>)
    requires forall p <- root :: Valid(ROOT_BITS, p)
    ensures ShortestFirst(pushed) && ValidSeq(ROOT_BITS, pushed) && Members(pushed) == root.Keys
    ensures |pushed| == |root| && forall i, j :: 0 <= i < j < |pushed| ==> pushed[i] != pushed[j]
  {
    hide Valid;
    var keys := Elements(root.Keys);
    assert |keys| == |multiset(root.Keys)| == |root.Keys|;
    pushed := Sort(keys, (p: Prefix) => (p.len, p.key));
    NoRepeats(pushed, root.Keys);
    SortedShortest(pushed);
  }

  lemma SortedShortest(ps: seq<Prefix>)
    requires Sorted(ps, (p: Prefix) => (p.len, p.key)) && forall i, j :: 0 <= i < j < |ps| ==> ps[i] != ps[j]
    ensures ShortestFirst(ps)
  {
    assert forall i, j :: 0 <= i < j < |ps| ==> !KeyLess((ps[j].len, ps[j].key), (ps[i].len, ps[i].key));
  }

  lemma PaintedIsAnswer(ps: seq<Prefix>, root: map<Prefix, nat>, refOf: seq<nat>, i: nat, v: nat)
    requires ValidSeq(ROOT_BITS, ps) && ShortestFirst(ps) && Members(ps) == root.Keys
    requires Painted(ps, root, refOf, i, v) && |refOf| > 0 && refOf[0] == 0
    ensures v < |refOf| && Answers(ROOT_BITS, root, i, refOf[v])
  {
    LastPaintedIsLongest(ROOT_BITS, ps, i);
    var r := LastCover(ROOT_BITS, ps, i);
    if r >= 0 {
      assert Longest(ROOT_BITS, root.Keys, i, ps[r]);
    }
  }

  // ---------------------------------------------------------------- splitting the root

  // The flat root seen through the two levels.
  ghost predicate SplitOf(root: seq<nat>, hi: seq<nat>, lo: seq<nat>) {
    && |root| == ROOT_SLOTS && |hi| == ROOT_BLOCK
    && forall k :: 0 <= k < ROOT_SLOTS ==> BlockReads(root, hi, lo, k)
  }

  ghost predicate BlockReads(root: seq<nat>, hi: seq<nat>, lo: seq<nat>, k: nat)
    requires k < |root| && k / 256 < |hi|
  {
    hi[k / 256] + k % 256 < |lo| && lo[hi[k / 256] + k % 256] == root[k]
  }

  // Two /8s with the same uniform contents get the same block; no slot reads differently for it.
  method SplitRoot(root: seq<nat>) returns (hi: seq<nat>, lo: seq<nat>)
    requires |root| == ROOT_SLOTS
    ensures SplitOf(root, hi, lo)
  {
    hi, lo := [], [];
    var uniform: map<nat, nat> := map[];
    for top := 0 to ROOT_BLOCK
      invariant |hi| == top
      invariant forall k :: 0 <= k < 256 * top ==> BlockReads(root, hi, lo, k)
      invariant forall v <- uniform :: uniform[v] + 256 <= |lo| && Uniform(lo[uniform[v]..uniform[v] + 256], v)
    {
      var block := root[top * 256..top * 256 + 256];
      var same := true;
      for j := 1 to 256
        invariant same <==> forall q :: 0 <= q < j ==> block[q] == block[0]
      {
        if block[j] != block[0] {
          same := false;
          break;
        }
      }
      ghost var before := hi;
      if same && block[0] in uniform {
        hi := hi + [uniform[block[0]]];
        SharedReads(root, before, hi, lo, lo, top, uniform[block[0]]);
      } else {
        if same {
          uniform := uniform[block[0] := |lo|];
        }
        hi := hi + [|lo|];
        ghost var base, lo0 := |lo|, lo;
        lo := lo + block;
        forall v <- uniform ensures uniform[v] + 256 <= |lo| && Uniform(lo[uniform[v]..uniform[v] + 256], v) {
          if uniform[v] + 256 <= |lo0| {
            assert lo[uniform[v]..uniform[v] + 256] == lo0[uniform[v]..uniform[v] + 256];
          } else {
            assert lo[base..base + 256] == block;
          }
        }
        assert lo[base..base + 256] == block;
        SharedReads(root, before, hi, lo0, lo, top, base);
      }
    }
  }

  ghost predicate Uniform(block: seq<nat>, v: nat) {
    forall j :: 0 <= j < |block| ==> block[j] == v
  }

  lemma SharedReads(root: seq<nat>, hi: seq<nat>, hi': seq<nat>, lo: seq<nat>, lo': seq<nat>, top: nat, base: nat)
    requires |root| == ROOT_SLOTS && top < 256 && |hi| == top && hi' == hi + [base] && lo <= lo'
    requires forall k :: 0 <= k < 256 * top ==> BlockReads(root, hi, lo, k)
    requires base + 256 <= |lo'| && lo'[base..base + 256] == root[top * 256..top * 256 + 256]
    ensures forall k :: 0 <= k < 256 * (top + 1) ==> BlockReads(root, hi', lo', k)
  {
    forall k | 0 <= k < 256 * (top + 1) ensures BlockReads(root, hi', lo', k) {
      if k < 256 * top {
        assert BlockReads(root, hi, lo, k);
      } else {
        assert k / 256 == top && k % 256 == k - 256 * top;
        assert lo'[base..base + 256][k % 256] == root[top * 256..top * 256 + 256][k % 256];
      }
    }
  }

  // ---------------------------------------------------------------- compiling one family

  // An exact-table word: the packed root key and length above the value index.
  function PackExact(key: nat, len: nat): nat {
    key * 256 + len
  }

  const VALUE_SPAN := 0x1_0000_0000

  function TableWord(p: Prefix, value: nat): nat {
    PackExact(p.key, p.len) * VALUE_SPAN + value
  }

  // Word q of the unsorted table is the q-th pushed prefix with the q-th value assigned.
  ghost predicate Recorded(ps: seq<Prefix>, root: map<Prefix, nat>, refOf: seq<nat>, start: nat, exact: seq<nat>) {
    && |exact| == |ps| && start + |ps| <= |refOf|
    && forall q :: 0 <= q < |ps| ==>
         ps[q] in root && exact[q] == TableWord(ps[q], start + q) && refOf[start + q] == root[ps[q]]
  }

  // Every short prefix is recorded once, with a value of its own.
  ghost predicate AllRecorded(root: map<Prefix, nat>, refOf: seq<nat>, exact: seq<nat>) {
    exists ps, start :: start > 0 && Recorded(ps, root, refOf, start, exact) && OncePushed(ps, root)
  }

  ghost predicate OncePushed(ps: seq<Prefix>, root: map<Prefix, nat>) {
    && ValidSeq(ROOT_BITS, ps) && Members(ps) == root.Keys
    && forall i, j :: 0 <= i < j < |ps| ==> ps[i] != ps[j]
  }

  lemma RecordedGrows(root: map<Prefix, nat>, refOf: seq<nat>, refOf': seq<nat>, exact: seq<nat>)
    requires AllRecorded(root, refOf, exact) && refOf <= refOf'
    ensures AllRecorded(root, refOf', exact)
  {
    hide OncePushed, TableWord;
    var ps, start :| start > 0 && Recorded(ps, root, refOf, start, exact) && OncePushed(ps, root);
    assert Recorded(ps, root, refOf', start, exact);
  }

  // Pushes the short prefixes into the flat root, a longer one overwriting the ones it nests in.
  method PaintRoot(c: Compiler, f: Family, wantExact: bool, root: array<nat>) returns (exact: seq<nat>)
    requires c.Ready() && root.Length == ROOT_SLOTS && forall i :: 0 <= i < ROOT_SLOTS ==> root[i] == 0
    requires forall p <- f.rootPfx :: Valid(ROOT_BITS, p) && f.rootPfx[p] > 0
    modifies c`refOf, root
    ensures c.Ready() && old(c.refOf) <= c.refOf && |c.refOf| == old(|c.refOf|) + |f.rootPfx|
    ensures forall i :: 0 <= i < ROOT_SLOTS ==>
              root[i] < |c.refOf| && Answers(ROOT_BITS, f.rootPfx, i, c.refOf[root[i]])
    ensures if wantExact then AllRecorded(f.rootPfx, c.refOf, exact) else exact == []
  {
    hide Painted, Valid, Recorded, Answers, ShortestFirst;
    var pushed := PushOrder(f.rootPfx);
    forall i | 0 <= i < ROOT_SLOTS ensures Painted(pushed[..0], f.rootPfx, c.refOf, i, root[i]) {
      NonePainted(f.rootPfx, c.refOf, i);
    }
    exact := [];
    ghost var start := |c.refOf|;
    NoneRecorded(f.rootPfx, c.refOf, start);
    for j := 0 to |pushed|
      invariant c.Ready() && old(c.refOf) <= c.refOf && |c.refOf| == start + j
      invariant forall i :: 0 <= i < ROOT_SLOTS ==> Painted(pushed[..j], f.rootPfx, c.refOf, i, root[i])
      invariant if wantExact then Recorded(pushed[..j], f.rootPfx, c.refOf, start, exact) else exact == []
    {
      var p := pushed[j];
      assert p in Members(pushed) && pushed[..j + 1] == pushed[..j] + [p];
      ghost var refOf0 := c.refOf;
      var value := c.Assign(f.rootPfx[p]);
      PaintOne(root, p, value, pushed[..j], f.rootPfx, refOf0, c.refOf);
      if wantExact {
        RecordedStep(pushed[..j], p, f.rootPfx, refOf0, start, exact);
        exact := exact + [TableWord(p, value)];
      }
    }
    assert pushed[..|pushed|] == pushed;
    assert OncePushed(pushed, f.rootPfx);
    forall i | 0 <= i < ROOT_SLOTS
      ensures root[i] < |c.refOf| && Answers(ROOT_BITS, f.rootPfx, i, c.refOf[root[i]])
    {
      PaintedIsAnswer(pushed, f.rootPfx, c.refOf, i, root[i]);
    }
  }

  lemma NonePainted(root: map<Prefix, nat>, refOf: seq<nat>, i: nat)
    requires |refOf| > 0 && refOf[0] == 0
    ensures Painted([], root, refOf, i, 0)
  {
  }

  lemma NoneRecorded(root: map<Prefix, nat>, refOf: seq<nat>, start: nat)
    requires start <= |refOf|
    ensures Recorded([], root, refOf, start, [])
  {
  }

  lemma RecordedStep(ps: seq<Prefix>, p: Prefix, root: map<Prefix, nat>, refOf: seq<nat>, start: nat, exact: seq<nat>)
    requires Recorded(ps, root, refOf, start, exact) && p in root && |refOf| == start + |ps|
    ensures Recorded(ps + [p], root, refOf + [root[p]], start, exact + [TableWord(p, |refOf|)])
  {
    hide TableWord;
  }

  method PaintOne(a: array<nat>, p: Prefix, value: nat, ghost ps: seq<Prefix>, ghost root: map<Prefix, nat>,
                  ghost refOf: seq<nat>, ghost refOf': seq<nat>)
    requires a.Length == ROOT_SLOTS && Valid(ROOT_BITS, p) && p in root
    requires refOf' == refOf + [root[p]] && value == |refOf|
    requires forall i :: 0 <= i < ROOT_SLOTS ==> Painted(ps, root, refOf, i, a[i])
    modifies a
    ensures forall i :: 0 <= i < ROOT_SLOTS ==> Painted(ps + [p], root, refOf', i, a[i])
  {
    hide Painted, Covers, Valid;
    RootSpan(p, 0);
    ghost var before := a[..];
    Painting.PaintSpan(a, p.key, Span(ROOT_BITS, p.len), value);
    forall i | 0 <= i < ROOT_SLOTS ensures Painted(ps + [p], root, refOf', i, a[i]) {
      PaintStep(ps, p, root, refOf, refOf', i, before[i], value);
    }
  }

  lemma PaintStep(ps: seq<Prefix>, p: Prefix, root: map<Prefix, nat>, refOf: seq<nat>, refOf': seq<nat>,
                  i: nat, v: nat, value: nat)
    requires Painted(ps, root, refOf, i, v) && Valid(ROOT_BITS, p) && p in root
    requires refOf' == refOf + [root[p]] && value == |refOf|
    ensures Painted(ps + [p], root, refOf', i,
                    if p.key <= i < p.key + Span(ROOT_BITS, p.len) then value else v)
  {
    RootSpan(p, i);
    LastCoverStep(ROOT_BITS, ps, p, i);
  }

  // A root slot below which a subtree hangs answers for it; any other slot is a terminal value.
  ghost predicate SlotRight(a: Arena, is4: bool, t: Trie, root: map<Prefix, nat>, refOf: seq<nat>, k: nat, slot: nat) {
    k < ROOT_SLOTS &&
    if k in t.subtrees then
      slot >= TAG_NODE && exists pv: nat :: pv < |refOf| && Answers(ROOT_BITS, root, k, refOf[pv])
                                            && SubtreeRight(a, is4, 0, 0, slot, t.stored, RootPath(k), refOf, pv)
    else slot < |refOf| && Answers(ROOT_BITS, root, k, refOf[slot])
  }

  lemma SlotKept(a: Arena, b: Arena, is4: bool, t: Trie, root: map<Prefix, nat>, refOf: seq<nat>, refOf': seq<nat>,
                 k: nat, slot: nat)
    requires SlotRight(a, is4, t, root, refOf, k, slot) && Extends(a, b) && refOf <= refOf'
    ensures SlotRight(b, is4, t, root, refOf', k, slot)
  {
    if k in t.subtrees {
      var pv: nat :| pv < |refOf| && Answers(ROOT_BITS, root, k, refOf[pv])
                     && SubtreeRight(a, is4, 0, 0, slot, t.stored, RootPath(k), refOf, pv);
      SubtreeKept(a, b, is4, 0, 0, 0, 0, slot, t.stored, RootPath(k), refOf, refOf', pv);
      assert refOf'[pv] == refOf[pv];
    }
  }

  // A slot not visited yet: its painted value.
  ghost predicate SlotReady(root: map<Prefix, nat>, refOf: seq<nat>, k: nat, slot: nat) {
    slot < |refOf| && Answers(ROOT_BITS, root, k, refOf[slot])
  }

  // Compiles the subtree below one root key and hangs its reference in the slot.
  method HangOne(c: Compiler, f: Family, key: nat, slot: nat, sums: map<nat, Summary>)
    returns (ref: nat, r: map<nat, Summary>, err: bool)
    requires c.Ready() && f.Valid() && key in f.subtrees && SlotReady(f.rootPfx, c.refOf, key, slot)
    requires SumsOk(Strides(f.is4), f.Now(), sums)
    modifies c
    ensures c.Ready() && old(c.refOf) <= c.refOf && Extends(old(c.Now()), c.Now())
    ensures SumsOk(Strides(f.is4), f.Now(), r)
    ensures err ==> Full(c.Now())
    ensures !err ==> key < ROOT_SLOTS && SlotRight(c.Now(), f.is4, f.Now(), f.rootPfx, c.refOf, key, ref)
    ensures key < ROOT_SLOTS && |f.pool| == |f.paths|
    ensures !err ==> c.Size() <= old(c.Size()) + Weight(f.Now(), RootPath(key), |f.pool|)
    ensures err ==> old(c.Size()) + Weight(f.Now(), RootPath(key), |f.pool|) > REF_MASK
  {
    ghost var t := f.Now();
    SubtreeAt(Strides(f.is4), t, key);
    hide Inv, SumsOk, SubtreeRight, Encodes, RootHolds, Answers, PathKey, Weight;
    var i := f.subtrees[key];
    r := Summarize(Strides(f.is4), f.pool, i, 2, key * Pow2(Width(f.is4) - ROOT_BITS), sums, t);
    ref, err := c.Flatten(Strides(f.is4), f.pool, i, slot, r, f.is4, t);
    if !err {
      SubtreeKept(c.Now(), c.Now(), f.is4, old(|c.nodes|), old(|c.refs|), 0, 0, ref, t.stored, RootPath(key), c.refOf, c.refOf, slot);
    }
  }

  // The node below a root key, and that key planted in an empty address.
  lemma SubtreeAt(d: nat, t: Trie, key: nat)
    requires Inv(d, t) && key in t.subtrees
    ensures key < ROOT_SLOTS && t.subtrees[key] < |t.pool| == |t.paths| && t.paths[t.subtrees[key]] == RootPath(key)
    ensures 2 < d && key * Pow2(8 * d - ROOT_BITS) == PathKey(d, RootPath(key))
  {
    var path := RootPath(key);
    assert path[..1] == [key / 256] && path[..1][..0] == [];
    assert PathNum(path[..1]) == key / 256;
    assert PathNum(path) == key;
    assert 8 * (d - 2) == 8 * d - ROOT_BITS;
  }

  // The slots below key are right, the others still painted.
  ghost predicate Hung(a: Arena, is4: bool, t: Trie, short: map<Prefix, nat>, refOf: seq<nat>, key: nat, slots: seq<nat>) {
    && |slots| == ROOT_SLOTS
    && (forall i :: 0 <= i < key && i < ROOT_SLOTS ==> SlotRight(a, is4, t, short, refOf, i, slots[i]))
    && forall i :: key <= i < ROOT_SLOTS ==> SlotReady(short, refOf, i, slots[i])
  }

  lemma HungNext(a: Arena, b: Arena, is4: bool, t: Trie, short: map<Prefix, nat>, refOf: seq<nat>, refOf': seq<nat>,
                 key: nat, slots: seq<nat>, ref: nat)
    requires key < ROOT_SLOTS && Hung(a, is4, t, short, refOf, key, slots) && Extends(a, b) && refOf <= refOf'
    requires SlotRight(b, is4, t, short, refOf', key, ref)
    ensures Hung(b, is4, t, short, refOf', key + 1, slots[key := ref])
  {
    hide SlotRight, Answers, Extends;
    forall i | 0 <= i < key ensures SlotRight(b, is4, t, short, refOf', i, slots[i]) {
      SlotKept(a, b, is4, t, short, refOf, refOf', i, slots[i]);
    }
  }

  lemma HungSkip(a: Arena, is4: bool, t: Trie, short: map<Prefix, nat>, refOf: seq<nat>, key: nat, slots: seq<nat>)
    requires key < ROOT_SLOTS && key !in t.subtrees && Hung(a, is4, t, short, refOf, key, slots)
    ensures Hung(a, is4, t, short, refOf, key + 1, slots)
  {
    hide Answers, SubtreeRight;
  }

  method HangSubtrees(c: Compiler, f: Family, root: array<nat>) returns (err: bool)
    requires c.Ready() && f.Valid() && Hung(c.Now(), f.is4, f.Now(), f.rootPfx, c.refOf, 0, root[..])
    modifies c, root
    ensures c.Ready() && old(c.refOf) <= c.refOf && Extends(old(c.Now()), c.Now())
    ensures err ==> Full(c.Now())
    ensures !err ==> Hung(c.Now(), f.is4, f.Now(), f.rootPfx, c.refOf, ROOT_SLOTS, root[..])
    ensures !err ==> c.Size() <= old(c.Size()) + TotalCost(f.pool)
    ensures err ==> old(c.Size()) + TotalCost(f.pool) > REF_MASK
  {
    hide Inv, SubtreeRight, Encodes, RootHolds, Answers, SlotRight, Weight, RootWeight, TotalCost, Hung, SlotReady, Extends,
         SumsOk, LongOnes, Full, AllValid, Paid;
    PoolPaths(f);
    ghost var t := f.Now();
    RootNone(t, |f.pool|);
    ExtendsOn(c.Now(), c.Now(), c.Now());
    var sums: map<nat, Summary> := map[];
    NoSums(Strides(f.is4), t);
    for key := 0 to ROOT_SLOTS
      invariant c.Ready() && old(c.refOf) <= c.refOf && Extends(old(c.Now()), c.Now())
      invariant SumsOk(Strides(f.is4), t, sums) && c.Size() <= old(c.Size()) + RootWeight(t, key, |f.pool|)
      invariant Hung(c.Now(), f.is4, t, f.rootPfx, c.refOf, key, root[..])
    {
      RootNext(Strides(f.is4), t, key, |f.pool|);
      WholeRoot(t, key + 1);
      HungHere(c.Now(), f.is4, t, f.rootPfx, c.refOf, key, root[..]);
      if key in f.subtrees {
        ghost var a, refOf0, slots := c.Now(), c.refOf, root[..];
        var ref;
        ref, sums, err := HangOne(c, f, key, root[key], sums);
        ExtendsOn(old(c.Now()), a, c.Now());
        if err {
          return;
        }
        HungNext(a, c.Now(), f.is4, t, f.rootPfx, refOf0, c.refOf, key, slots, ref);
        root[key] := ref;
        assert root[..] == slots[key := ref];
      } else {
        HungSkip(c.Now(), f.is4, t, f.rootPfx, c.refOf, key, root[..]);
      }
    }
    WholeRoot(t, ROOT_SLOTS);
    err := false;
  }

  lemma NoSums(d: nat, t: Trie)
    ensures SumsOk(d, t, map[])
  {
  }

  lemma ExtendsOn(a: Arena, b: Arena, c: Arena)
    ensures Extends(a, a) && (Extends(a, b) && Extends(b, c) ==> Extends(a, c))
  {
  }

  lemma HungHere(a: Arena, is4: bool, t: Trie, short: map<Prefix, nat>, refOf: seq<nat>, key: nat, slots: seq<nat>)
    requires key < ROOT_SLOTS && Hung(a, is4, t, short, refOf, key, slots)
    ensures |slots| == ROOT_SLOTS && SlotReady(short, refOf, key, slots[key])
  {
    hide SlotReady, SlotRight;
  }

  lemma PoolPaths(f: Family)
    requires f.Valid()
    ensures |f.pool| == |f.paths|
  {
  }

  lemma WholeRoot(t: Trie, k: nat)
    requires |t.pool| == |t.paths|
    ensures RootWeight(t, k, |t.pool|) <= TotalCost(t.pool)
  {
    RootWithin(t, k, |t.pool|);
    assert t.pool[..|t.pool|] == t.pool;
  }

  // ---------------------------------------------------------------- one family's answer

  // The reference of the longest prefix inserted, long or short, for one key.
  lemma FamilyAnswer(f: Trie, is4: bool, catalog: map<Prefix, nat>, root: map<Prefix, nat>, key: nat, pid: nat, id: nat)
    requires key < Pow2(Width(is4)) && AllValid(Width(is4), catalog.Keys)
    requires RootHolds(Width(is4), catalog, root) && Encodes(Ceil, Strides(is4), LongOnes(catalog), f.stored)
    requires Answers(ROOT_BITS, root, Shr(key, Width(is4) - ROOT_BITS), pid)
    requires AnswersOr(f.stored, KeyOctets(Strides(is4), key), pid, id)
    ensures Answers(Width(is4), catalog, key, id)
  {
    hide Covers, PosOf, PosCovers, Valid, Pow2, KeyOctets, RootHolds, Encodes, Answers, Shr;
    var w, x := Width(is4), KeyOctets(Strides(is4), key);
    var q := Shr(key, w - ROOT_BITS);
    forall p <- catalog | p.len > ROOT_BITS
      ensures p in LongOnes(catalog) && p.len <= 8 * Strides(is4)
      ensures PosOf(Ceil, Strides(is4), p) in f.stored.Keys
      ensures Covers(w, p, key) <==> PosCovers(PosOf(Ceil, Strides(is4), p), x)
    {
      LengthFits(w, p);
      EncodedIn(Ceil, Strides(is4), LongOnes(catalog), f.stored, p);
      PosCoversIsCovers(Ceil, Strides(is4), p, key);
    }
    forall p <- catalog | p.len <= ROOT_BITS
      ensures Covers(w, p, key) <==> Covers(ROOT_BITS, Short(w, p), q)
    {
      RootCovers(w, p, key);
    }
    if y :| y in f.stored.Keys && PosCovers(y, x) {
      LongAnswer(f, is4, catalog, key, pid, id);
    } else {
      ShortAnswer(w, catalog, root, key, q, pid);
    }
  }

  lemma LongAnswer(f: Trie, is4: bool, catalog: map<Prefix, nat>, key: nat, pid: nat, id: nat)
    requires Encodes(Ceil, Strides(is4), LongOnes(catalog), f.stored)
    requires AnswersOr(f.stored, KeyOctets(Strides(is4), key), pid, id)
    requires exists y :: y in f.stored.Keys && PosCovers(y, KeyOctets(Strides(is4), key))
    requires forall p <- catalog :: p.len > ROOT_BITS ==>
               && p in LongOnes(catalog) && p.len <= 8 * Strides(is4)
               && (Covers(Width(is4), p, key) <==> PosCovers(PosOf(Ceil, Strides(is4), p), KeyOctets(Strides(is4), key)))
    ensures Answers(Width(is4), catalog, key, id)
  {
    hide Covers, PosOf, PosCovers, Valid, Pow2, KeyOctets, PosLen, Encodes;
    var x := KeyOctets(Strides(is4), key);
    var y :| y in f.stored.Keys && PosLongest(f.stored.Keys, x, y) && f.stored[y] == id;
    var p := EncodedBack(Ceil, Strides(is4), LongOnes(catalog), f.stored, y);
    forall r <- catalog.Keys | Covers(Width(is4), r, key) ensures r.len <= p.len {
      if r.len > ROOT_BITS {
        EncodedIn(Ceil, Strides(is4), LongOnes(catalog), f.stored, r);
      }
    }
    assert Longest(Width(is4), catalog.Keys, key, p);
  }

  lemma ShortAnswer(w: nat, catalog: map<Prefix, nat>, root: map<Prefix, nat>, key: nat, q: nat, pid: nat)
    requires w >= ROOT_BITS && RootHolds(w, catalog, root) && Answers(ROOT_BITS, root, q, pid)
    requires forall p <- catalog :: if p.len > ROOT_BITS then !Covers(w, p, key)
                                    else Covers(w, p, key) <==> Covers(ROOT_BITS, Short(w, p), q)
    ensures Answers(w, catalog, key, pid)
  {
    hide Covers, Pow2, Shr;
    if p :| p in catalog.Keys && Covers(w, p, key) {
      assert Short(w, p) in root.Keys;
      var s :| s in root.Keys && Longest(ROOT_BITS, root.Keys, q, s) && root[s] == pid;
      var r :| r in catalog && r.len <= ROOT_BITS && Short(w, r) == s;
      forall y <- catalog.Keys | Covers(w, y, key) ensures y.len <= r.len {
        assert Short(w, y) in root.Keys;
      }
      assert Longest(w, catalog.Keys, key, r);
    } else {
      forall s <- root.Keys ensures !Covers(ROOT_BITS, s, q) {
        var r :| r in catalog && r.len <= ROOT_BITS && Short(w, r) == s;
      }
    }
  }

  // ---------------------------------------------------------------- the index

  datatype Index = Index(rootHi4: seq<nat>, rootLo4: seq<nat>, rootHi6: seq<nat>, rootLo6: seq<nat>,
                         arena: Arena, exact4: seq<nat>, exact6: seq<nat>, values: nat)

  // Descent from the split root.
  function WalkRoot(a: Arena, is4: bool, hi: seq<nat>, lo: seq<nat>, key: nat): Option<nat> {
    var q := Shr(key, Width(is4) - ROOT_BITS);
    if q / 256 < |hi| && hi[q / 256] + q % 256 < |lo|
    then Walk(a, is4, 0, 0, lo[hi[q / 256] + q % 256], key, 2) else None
  }

  ghost predicate KeyCompiled(a: Arena, is4: bool, hi: seq<nat>, lo: seq<nat>, refOf: seq<nat>,
                              catalog: map<Prefix, nat>, key: nat) {
    match WalkRoot(a, is4, hi, lo, key)
    case None => false
    case Some(v) => v < |refOf| && Answers(Width(is4), catalog, key, refOf[v]) && (v == 0 <==> refOf[v] == 0)
  }

  // Every key of the family resolves to the reference of the longest inserted prefix.
  ghost predicate Compiled(a: Arena, is4: bool, hi: seq<nat>, lo: seq<nat>, refOf: seq<nat>, catalog: map<Prefix, nat>) {
    forall key: nat | key < Pow2(Width(is4)) :: KeyCompiled(a, is4, hi, lo, refOf, catalog, key)
  }
}
