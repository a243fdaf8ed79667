// flatart's exact match: a sorted table of words for the prefixes the root holds, a descent for the longer
// ones, and what both find: the value of that very prefix, never a covering one or an inherited default.
module FlatExact {
  import opened Bits
  import opened Options
  import opened Prefixes
  import opened Octets
  import opened Bitsets
  import opened Sorting
  import opened PathKeys
  import opened FlatIndex
  import opened FlatWalk
  import opened FlatBuild
  import opened FlatRoot

  // ---------------------------------------------------------------- the table of short prefixes

  // The value in the word for a packed key, zero when there is none.
  function TableValue(exact: seq<nat>, packed: nat): nat {
    if |exact| == 0 then 0
    else if exact[|exact| - 1] / VALUE_SPAN == packed then exact[|exact| - 1] % VALUE_SPAN
    else TableValue(exact[..|exact| - 1], packed)
  }

  ghost predicate Rising(exact: seq<nat>) {
    forall i, j :: 0 <= i < j < |exact| ==> exact[i] / VALUE_SPAN < exact[j] / VALUE_SPAN
  }

  lemma {:induction false} TableAt(exact: seq<nat>, i: nat)
    requires Rising(exact) && i < |exact|
    ensures TableValue(exact, exact[i] / VALUE_SPAN) == exact[i] % VALUE_SPAN
  {
    if i < |exact| - 1 {
      TableAt(exact[..|exact| - 1], i);
    }
  }

  lemma {:induction false} TableNone(exact: seq<nat>, packed: nat)
    requires forall i :: 0 <= i < |exact| ==> exact[i] / VALUE_SPAN != packed
    ensures TableValue(exact, packed) == 0
  {
    if |exact| > 0 {
      TableNone(exact[..|exact| - 1], packed);
    }
  }

  // A bisection for the first word not below the key with a zero value.
  method TableLookup(exact: seq<nat>, packed: nat) returns (value: nat)
    requires Rising(exact)
    ensures value == TableValue(exact, packed)
  {
    var target := packed * VALUE_SPAN;
    var low, high := 0, |exact|;
    while low < high
      invariant 0 <= low <= high <= |exact|
      invariant forall j :: 0 <= j < low ==> exact[j] / VALUE_SPAN < packed
      invariant forall j :: high <= j < |exact| ==> exact[j] / VALUE_SPAN >= packed
    {
      var mid := (low + high) / 2;
      if exact[mid] < target {
        low := mid + 1;
      } else {
        high := mid;
      }
    }
    if low < |exact| && exact[low] / VALUE_SPAN == packed {
      TableAt(exact, low);
      return exact[low] % VALUE_SPAN;
    }
    TableNone(exact, packed);
    return 0;
  }

  // The table holds each short prefix once, under the value of its reference, and nothing else.
  ghost predicate TableRight(exact: seq<nat>, root: map<Prefix, nat>, refOf: seq<nat>) {
    && Rising(exact)
    && (forall i :: 0 <= i < |exact| ==> WordFor(exact[i], root, refOf))
    && (forall p <- root :: exists i :: 0 <= i < |exact| && exact[i] / VALUE_SPAN == PackExact(p.key, p.len))
  }

  ghost predicate WordFor(word: nat, root: map<Prefix, nat>, refOf: seq<nat>) {
    exists p <- root :: Valid(ROOT_BITS, p) && p.len < 256 && word / VALUE_SPAN == PackExact(p.key, p.len)
                        && 0 < word % VALUE_SPAN < |refOf| && refOf[word % VALUE_SPAN] == root[p]
  }

  function WordOrder(word: nat): Key {
    (word, 0)
  }

  lemma WordIsReal(word: nat, root: map<Prefix, nat>, refOf: seq<nat>)
    requires WordFor(word, root, refOf)
    ensures Valid(ROOT_BITS, WordPrefix(word)) && word % VALUE_SPAN > 0
  {
    hide Valid, PackExact;
    var p :| p in root && Valid(ROOT_BITS, p) && p.len < 256 && word / VALUE_SPAN == PackExact(p.key, p.len)
             && 0 < word % VALUE_SPAN;
    Unpacked(p);
  }

  lemma Unpacked(p: Prefix)
    requires p.len < 256
    ensures PackExact(p.key, p.len) / 256 == p.key && PackExact(p.key, p.len) % 256 == p.len
  {
  }

  // The sorted words of the recorded prefixes.
  ghost predicate Taken(exact: seq<nat>, root: map<Prefix, nat>, refOf: seq<nat>) {
    Sorted(exact, WordOrder) && exists words: seq<nat> :: multiset(exact) == multiset(words) && AllRecorded(root, refOf, words)
  }

  method TakeExact(words: seq<nat>, ghost root: map<Prefix, nat>, ghost refOf: seq<nat>) returns (exact: seq<nat>)
    requires AllRecorded(root, refOf, words)
    ensures Taken(exact, root, refOf)
  {
    hide AllRecorded;
    exact := Sort(words, WordOrder);
  }

  lemma TakenGrows(exact: seq<nat>, root: map<Prefix, nat>, refOf: seq<nat>, refOf': seq<nat>)
    requires Taken(exact, root, refOf) && refOf <= refOf'
    ensures Taken(exact, root, refOf')
  {
    hide AllRecorded, Sorted;
    var words: seq<nat> :| multiset(exact) == multiset(words) && AllRecorded(root, refOf, words);
    RecordedGrows(root, refOf, refOf', words);
  }

  // A recorded word splits back into its prefix and its value.
  lemma EntryParts(p: Prefix, value: nat)
    requires value < VALUE_SPAN
    ensures TableWord(p, value) / VALUE_SPAN == PackExact(p.key, p.len) && TableWord(p, value) % VALUE_SPAN == value
  {
  }

  lemma PackInjective(p: Prefix, q: Prefix)
    requires p.len < 256 && q.len < 256 && PackExact(p.key, p.len) == PackExact(q.key, q.len)
    ensures p == q
  {
  }

  lemma WordParts(ps: seq<Prefix>, root: map<Prefix, nat>, refOf: seq<nat>, start: nat, words: seq<nat>, k: nat)
    requires start > 0 && Recorded(ps, root, refOf, start, words) && OncePushed(ps, root) && |refOf| <= TAG_NODE
    requires k < |words|
    ensures k < |ps| && ps[k].len < 256 && words[k] / VALUE_SPAN == PackExact(ps[k].key, ps[k].len)
    ensures WordFor(words[k], root, refOf)
  {
    EntryParts(ps[k], start + k);
    assert Valid(ROOT_BITS, ps[k]);
    LengthFits(ROOT_BITS, ps[k]);
    hide Valid, TableWord, PackExact;
    assert ps[k] in root;
  }

  lemma WordsApart(ps: seq<Prefix>, root: map<Prefix, nat>, refOf: seq<nat>, start: nat, words: seq<nat>, j: nat, k: nat)
    requires start > 0 && Recorded(ps, root, refOf, start, words) && OncePushed(ps, root) && |refOf| <= TAG_NODE
    requires j < |words| && k < |words| && words[j] / VALUE_SPAN == words[k] / VALUE_SPAN
    ensures j == k
  {
    hide Recorded, WordFor, PackExact;
    WordParts(ps, root, refOf, start, words, j);
    WordParts(ps, root, refOf, start, words, k);
    PackInjective(ps[j], ps[k]);
  }

  // Sorting the recorded words makes the table.
  lemma TakenRight(exact: seq<nat>, root: map<Prefix, nat>, refOf: seq<nat>)
    requires Taken(exact, root, refOf) && |refOf| <= TAG_NODE
    ensures TableRight(exact, root, refOf)
  {
    hide Recorded, OncePushed, WordFor, PackExact, Sorted, AllRecorded, Rising, Taken, WordOrder;
    var words, ps, start := TakenParts(exact, root, refOf);
    WordsRise(ps, root, refOf, start, words, exact);
    SameElements(exact, words);
    forall i | 0 <= i < |exact| ensures WordFor(exact[i], root, refOf) {
      assert exact[i] in words;
      var k :| 0 <= k < |words| && words[k] == exact[i];
      WordParts(ps, root, refOf, start, words, k);
    }
    forall p | p in root ensures exists i :: 0 <= i < |exact| && exact[i] / VALUE_SPAN == PackExact(p.key, p.len) {
      var k := PushedAt(ps, root, refOf, start, words, p);
      WordParts(ps, root, refOf, start, words, k);
      assert words[k] in exact;
    }
  }

  lemma TakenParts(exact: seq<nat>, root: map<Prefix, nat>, refOf: seq<nat>)
    returns (words: seq<nat>, ps: seq<Prefix>, start: nat)
    requires Taken(exact, root, refOf)
    ensures Sorted(exact, WordOrder) && multiset(exact) == multiset(words)
    ensures start > 0 && Recorded(ps, root, refOf, start, words) && OncePushed(ps, root)
  {
    hide Recorded, OncePushed, Sorted;
    words :| multiset(exact) == multiset(words) && AllRecorded(root, refOf, words);
    ps, start :| start > 0 && Recorded(ps, root, refOf, start, words) && OncePushed(ps, root);
  }

  lemma PushedAt(ps: seq<Prefix>, root: map<Prefix, nat>, refOf: seq<nat>, start: nat, words: seq<nat>, p: Prefix)
    returns (k: nat)
    requires Recorded(ps, root, refOf, start, words) && OncePushed(ps, root) && p in root
    ensures k < |words| && k < |ps| && ps[k] == p
  {
    assert p in Members(ps);
    k :| k < |ps| && ps[k] == p;
  }

  lemma WordsRise(ps: seq<Prefix>, root: map<Prefix, nat>, refOf: seq<nat>, start: nat, words: seq<nat>, exact: seq<nat>)
    requires start > 0 && Recorded(ps, root, refOf, start, words) && OncePushed(ps, root) && |refOf| <= TAG_NODE
    requires multiset(exact) == multiset(words) && Sorted(exact, WordOrder)
    ensures Rising(exact)
  {
    hide Recorded, OncePushed;
    forall j, k | 0 <= j < k < |words| ensures words[j] != words[k] {
      if words[j] == words[k] {
        WordsApart(ps, root, refOf, start, words, j, k);
      }
    }
    SameApart(exact, words);
    SameElements(exact, words);
    forall i, j | 0 <= i < j < |exact| ensures exact[i] / VALUE_SPAN < exact[j] / VALUE_SPAN {
      assert !KeyLess(WordOrder(exact[j]), WordOrder(exact[i]));
      assert exact[i] in words && exact[j] in words;
      var a: nat :| a < |words| && words[a] == exact[i];
      var b: nat :| b < |words| && words[b] == exact[j];
      if exact[i] / VALUE_SPAN == exact[j] / VALUE_SPAN {
        WordsApart(ps, root, refOf, start, words, a, b);
      }
      DivMono(exact[i], exact[j], VALUE_SPAN);
    }
  }

  // ---------------------------------------------------------------- what an exact match finds

  // Descent from the split root to one position.
  ghost function ExactRoot(a: Arena, is4: bool, hi: seq<nat>, lo: seq<nat>, p: Prefix): Option<nat>
    requires p.len <= Width(is4)
  {
    var q := Shr(p.key, Width(is4) - ROOT_BITS);
    if q / 256 < |hi| && hi[q / 256] + q % 256 < |lo|
    then ExactWalk(a, is4, 0, 0, lo[hi[q / 256] + q % 256], PosOf(Ceil, Strides(is4), p), 2) else None
  }

  ghost function ExactValue(a: Arena, is4: bool, hi: seq<nat>, lo: seq<nat>, exact: seq<nat>, p: Prefix): Option<nat>
    requires p.len <= Width(is4)
  {
    if p.len <= ROOT_BITS then Some(TableValue(exact, PackExact(Short(Width(is4), p).key, p.len)))
    else ExactRoot(a, is4, hi, lo, p)
  }

  ghost predicate PrefixCompiled(a: Arena, is4: bool, hi: seq<nat>, lo: seq<nat>, exact: seq<nat>, refOf: seq<nat>,
                                 catalog: map<Prefix, nat>, p: Prefix)
    requires p.len <= Width(is4)
  {
    match ExactValue(a, is4, hi, lo, exact, p)
    case None => false
    case Some(v) => if p in catalog then 0 < v < |refOf| && refOf[v] == catalog[p] else v == 0
  }

  // The word's prefix, its key counted in root slots.
  function WordPrefix(word: nat): Prefix {
    Prefix(word / VALUE_SPAN / 256, word / VALUE_SPAN % 256)
  }

  ghost predicate WordsReal(exact: seq<nat>) {
    forall i :: 0 <= i < |exact| ==> Valid(ROOT_BITS, WordPrefix(exact[i])) && exact[i] % VALUE_SPAN > 0
  }

  // Every prefix of the family is found with the value of its last reference if it was inserted, and not
  // found otherwise.
  ghost predicate ExactCompiled(a: Arena, is4: bool, hi: seq<nat>, lo: seq<nat>, exact: seq<nat>, refOf: seq<nat>,
                                catalog: map<Prefix, nat>)
  {
    && Rising(exact) && WordsReal(exact)
    && forall p: Prefix | p.len <= Width(is4) && Valid(Width(is4), p) ::
         PrefixCompiled(a, is4, hi, lo, exact, refOf, catalog, p)
  }

  lemma ShortIsCompiled(a: Arena, is4: bool, hi: seq<nat>, lo: seq<nat>, exact: seq<nat>, refOf: seq<nat>,
                        catalog: map<Prefix, nat>, root: map<Prefix, nat>, p: Prefix)
    requires AllValid(Width(is4), catalog.Keys) && RootHolds(Width(is4), catalog, root)
    requires TableRight(exact, root, refOf) && Valid(Width(is4), p) && p.len <= ROOT_BITS
    ensures PrefixCompiled(a, is4, hi, lo, exact, refOf, catalog, p)
  {
    hide RootHolds, AllValid, Valid, TableValue, PackExact, Short, TableRight;
    ShortMember(Width(is4), catalog, root, p);
    TableFinds(exact, root, refOf, Short(Width(is4), p));
  }

  lemma TableFinds(exact: seq<nat>, root: map<Prefix, nat>, refOf: seq<nat>, p: Prefix)
    requires TableRight(exact, root, refOf) && p.len < 256
    ensures var v := TableValue(exact, PackExact(p.key, p.len));
            if p in root then 0 < v < |refOf| && refOf[v] == root[p] else v == 0
  {
    hide TableValue, PackExact;
    if i :| 0 <= i < |exact| && exact[i] / VALUE_SPAN == PackExact(p.key, p.len) {
      TableAt(exact, i);
      assert WordFor(exact[i], root, refOf);
      var q :| q in root && q.len < 256 && exact[i] / VALUE_SPAN == PackExact(q.key, q.len)
               && 0 < exact[i] % VALUE_SPAN < |refOf| && refOf[exact[i] % VALUE_SPAN] == root[q];
      PackInjective(p, q);
    } else {
      TableNone(exact, PackExact(p.key, p.len));
    }
  }

  lemma ShortMember(w: nat, catalog: map<Prefix, nat>, root: map<Prefix, nat>, p: Prefix)
    requires w >= ROOT_BITS && AllValid(w, catalog.Keys) && RootHolds(w, catalog, root)
    requires Valid(w, p) && p.len <= ROOT_BITS
    ensures p in catalog <==> Short(w, p) in root
    ensures p in catalog ==> root[Short(w, p)] == catalog[p]
    ensures Short(w, p).len == p.len
  {
    if Short(w, p) in root {
      var q :| q in catalog && q.len <= ROOT_BITS && Short(w, q) == Short(w, p);
      RootInjective(w, p, q);
    }
  }

  lemma LongIsCompiled(a: Arena, is4: bool, t: Trie, hi: seq<nat>, lo: seq<nat>, exact: seq<nat>, refOf: seq<nat>,
                       catalog: map<Prefix, nat>, root: map<Prefix, nat>, flat: seq<nat>, p: Prefix)
    requires Encodes(Ceil, Strides(is4), LongOnes(catalog), t.stored) && Inv(Strides(is4), t)
    requires SplitOf(flat, hi, lo) && (forall k :: 0 <= k < ROOT_SLOTS ==> SlotRight(a, is4, t, root, refOf, k, flat[k]))
    requires Valid(Width(is4), p) && ROOT_BITS < p.len <= Width(is4) && |refOf| <= TAG_NODE
    ensures PrefixCompiled(a, is4, hi, lo, exact, refOf, catalog, p)
  {
    hide Inv, Encodes, SlotRight, PosOf, Valid, Shr, ExactWalk, Spot, LongOnes, BlockReads, RootPath;
    var x := PosOf(Ceil, Strides(is4), p);
    var q := Shr(p.key, Width(is4) - ROOT_BITS);
    LongSpot(is4, p);
    LongMember(is4, t.stored, catalog, p);
    SplitReads(flat, hi, lo, q);
    SlotSpot(a, is4, t, root, refOf, q, flat[q], x);
  }

  lemma SplitReads(flat: seq<nat>, hi: seq<nat>, lo: seq<nat>, q: nat)
    requires SplitOf(flat, hi, lo) && q < ROOT_SLOTS
    ensures q / 256 < |hi| && hi[q / 256] + q % 256 < |lo| && lo[hi[q / 256] + q % 256] == flat[q]
  {
    assert BlockReads(flat, hi, lo, q);
  }

  // A long prefix's position lies below its root key.
  lemma LongSpot(is4: bool, p: Prefix)
    requires Valid(Width(is4), p) && ROOT_BITS < p.len <= Width(is4)
    ensures Shr(p.key, Width(is4) - ROOT_BITS) < ROOT_SLOTS
    ensures Spot(is4, PosOf(Ceil, Strides(is4), p))
    ensures RootPath(Shr(p.key, Width(is4) - ROOT_BITS)) <= PosOf(Ceil, Strides(is4), p).path
  {
    var depth: nat := (p.len - ROOT_BITS - 1) / 8;
    var x := PosOf(Ceil, Strides(is4), p);
    LongPos(is4, p, x, depth, p.len - ROOT_BITS - 8 * depth);
    assert x.path == KeyOctets(Strides(is4), p.key)[..|x.path|];
  }

  lemma LongMember(is4: bool, stored: map<Pos, nat>, catalog: map<Prefix, nat>, p: Prefix)
    requires Encodes(Ceil, Strides(is4), LongOnes(catalog), stored)
    requires Valid(Width(is4), p) && ROOT_BITS < p.len <= Width(is4)
    ensures p in catalog <==> PosOf(Ceil, Strides(is4), p) in stored
    ensures p in catalog ==> stored[PosOf(Ceil, Strides(is4), p)] == catalog[p]
  {
    hide PosOf, Valid;
    if PosOf(Ceil, Strides(is4), p) in stored {
      var r := EncodedBack(Ceil, Strides(is4), LongOnes(catalog), stored, PosOf(Ceil, Strides(is4), p));
      PosInjective(Ceil, Strides(is4), p, r);
    }
    if p in catalog {
      EncodedIn(Ceil, Strides(is4), LongOnes(catalog), stored, p);
    }
  }

  // Below a root slot a position is found as the subtree stores it; a terminal slot stores nothing.
  lemma SlotSpot(a: Arena, is4: bool, t: Trie, root: map<Prefix, nat>, refOf: seq<nat>, q: nat, slot: nat, x: Pos)
    requires q < ROOT_SLOTS && SlotRight(a, is4, t, root, refOf, q, slot) && Inv(Strides(is4), t) && |refOf| <= TAG_NODE
    requires Spot(is4, x) && RootPath(q) <= x.path
    ensures match ExactWalk(a, is4, 0, 0, slot, x, 2)
            case None => false
            case Some(v) => if x in t.stored then 0 < v < |refOf| && refOf[v] == t.stored[x] else v == 0
  {
    if q in t.subtrees {
      var pv: nat :| pv < |refOf| && Answers(ROOT_BITS, root, q, refOf[pv])
                     && SubtreeRight(a, is4, 0, 0, slot, t.stored, RootPath(q), refOf, pv);
      hide Inv, Answers, ExactWalk, KeysRight, Spot;
      assert SpotRight(a, is4, 0, 0, slot, x, t.stored, RootPath(q), refOf);
    } else {
      assert Nothing(t.stored, RootPath(q));
    }
  }

  // ---------------------------------------------------------------- the exact match

  // One index of a stride, by its octet and how many bits of it count.
  function ExactAt(host: seq<bool>, short: seq<bool>, hostBase: nat, shortBase: nat, hostPre: nat, shortPre: nat,
                   octet: nat, remain: nat): nat
    requires octet < 256 && 1 <= remain <= 8 && |host| == 256 && |short| == 256
  {
    if remain == 8 then (if host[octet] then hostBase + RankAt(host, hostPre, octet) else 0)
    else
      var idx := PfxToIdx(octet, remain);
      ShortIdx(octet, remain);
      if short[idx] then shortBase + RankAt(short, shortPre, idx) else 0
  }

  lemma ShortIdx(octet: nat, remain: nat)
    requires octet < 256 && 1 <= remain <= 8
    ensures remain < 8 ==> PfxToIdx(octet, remain) < 256
    ensures remain == 8 ==> PfxToIdx(octet, remain) == 256 + octet
  {
  }

  lemma ExactAtIsMember(host: seq<bool>, short: seq<bool>, hostBase: nat, shortBase: nat, octet: nat, remain: nat)
    requires octet < 256 && 1 <= remain <= 8 && |host| == 256 && |short| == 256
    ensures PfxToIdx(octet, remain) < 512
    ensures ExactAt(host, short, hostBase, shortBase, PackPrefixSums(host), PackPrefixSums(short), octet, remain) ==
              Member(host, short, hostBase, shortBase, PfxToIdx(octet, remain))
  {
    ShortIdx(octet, remain);
    hide RankAt, Rank, PackPrefixSums, PfxToIdx;
    if remain == 8 {
      PackedRank(host, octet);
    } else {
      PackedRank(short, PfxToIdx(octet, remain));
    }
  }

  // Value and answer of an exact match in one family.
  method Exact(ix: Index, is4: bool, p: Prefix, ghost refOf: seq<nat>, ghost catalog: map<Prefix, nat>)
    returns (value: nat)
    requires Valid(Width(is4), p)
    requires if is4 then ExactCompiled(ix.arena, true, ix.rootHi4, ix.rootLo4, ix.exact4, refOf, catalog)
             else ExactCompiled(ix.arena, false, ix.rootHi6, ix.rootLo6, ix.exact6, refOf, catalog)
    ensures value != 0 <==> p in catalog
    ensures p in catalog ==> value < |refOf| && refOf[value] == catalog[p]
  {
    hide ExactCompiled, Valid;
    if is4 {
      value := ExactIn(ix.arena, true, ix.rootHi4, ix.rootLo4, ix.exact4, p, refOf, catalog);
    } else {
      value := ExactIn(ix.arena, false, ix.rootHi6, ix.rootLo6, ix.exact6, p, refOf, catalog);
    }
  }

  lemma PrefixFound(a: Arena, is4: bool, hi: seq<nat>, lo: seq<nat>, exact: seq<nat>, refOf: seq<nat>,
                    catalog: map<Prefix, nat>, p: Prefix)
    requires Valid(Width(is4), p) && ExactCompiled(a, is4, hi, lo, exact, refOf, catalog)
    ensures p.len <= Width(is4) && Rising(exact) && PrefixCompiled(a, is4, hi, lo, exact, refOf, catalog, p)
  {
    hide Valid, PrefixCompiled, Rising;
    LengthFits(Width(is4), p);
  }

  // The table for the root's prefixes; for the longer ones a descent that ends at the prefix's own stride.
  method ExactIn(a: Arena, is4: bool, hi: seq<nat>, lo: seq<nat>, exact: seq<nat>, p: Prefix,
                 ghost refOf: seq<nat>, ghost catalog: map<Prefix, nat>)
    returns (value: nat)
    requires Valid(Width(is4), p) && ExactCompiled(a, is4, hi, lo, exact, refOf, catalog)
    ensures value != 0 <==> p in catalog
    ensures p in catalog ==> value < |refOf| && refOf[value] == catalog[p]
    ensures p.len <= Width(is4) && Some(value) == ExactValue(a, is4, hi, lo, exact, p)
  {
    hide Valid, Shr, ExactWalk, TableValue, PackExact, ExactCompiled, Rising, PosOf;
    PrefixFound(a, is4, hi, lo, exact, refOf, catalog, p);
    if p.len <= ROOT_BITS {
      value := TableLookup(exact, PackExact(Shr(p.key, Width(is4) - ROOT_BITS), p.len));
    } else {
      var q := Shr(p.key, Width(is4) - ROOT_BITS);
      value := DescendExact(a, is4, lo[hi[q / 256] + q % 256], p);
    }
  }

  method DescendExact(a: Arena, is4: bool, slot0: nat, p: Prefix) returns (value: nat)
    requires Valid(Width(is4), p) && ROOT_BITS < p.len <= Width(is4)
    requires ExactWalk(a, is4, 0, 0, slot0, PosOf(Ceil, Strides(is4), p), 2).Some?
    ensures Some(value) == ExactWalk(a, is4, 0, 0, slot0, PosOf(Ceil, Strides(is4), p), 2)
  {
    ghost var x := PosOf(Ceil, Strides(is4), p);
    var slot := slot0;
    value := 0;
    if slot < TAG_NODE {
      return 0;
    }
    var depth: nat := (p.len - ROOT_BITS - 1) / 8;
    var remain: nat := p.len - ROOT_BITS - 8 * depth;
    LongPos(is4, p, x, depth, remain);
    PosPrefixOf(is4, p);
    hide Valid, PosOf, PfxToIdx, Member, ExactAt, OctetAt, PosPrefix;
    for d := 0 to depth + 1
      invariant slot >= TAG_NODE && ExactWalk(a, is4, 0, 0, slot, x, 2 + d) == ExactWalk(a, is4, 0, 0, slot0, x, 2)
    {
      var octet := OctetAt(Strides(is4), p.key, 2 + d);
      if slot >= TAG_STOP {
        if d != depth {
          return 0;
        }
        var s := a.stops[slot - TAG_STOP];
        ExactAtIsMember(s.host, s.short, s.hostBase, s.shortBase, octet, remain);
        return ExactAt(s.host, s.short, s.hostBase, s.shortBase, s.hostPre, s.shortPre, octet, remain);
      }
      if slot >= TAG_LEAF {
        var lf := Leaves(a, is4)[slot - TAG_LEAF];
        return if lf.bits == p.len && lf.key == p.key then lf.value else 0;
      }
      var n := a.nodes[slot - TAG_NODE];
      if d == depth {
        ExactAtIsMember(n.host, n.short, n.groups[0].aux, n.groups[1].aux, octet, remain);
        return ExactAt(n.host, n.short, n.groups[0].aux, n.groups[1].aux, n.groups[2].aux, n.groups[3].aux, octet, remain);
      }
      assert octet == x.path[2 + d];
      if !HasKid(n, octet) {
        return 0;
      }
      slot := a.refs[KidIndex(n, octet)];
    }
    assert false;
  }

  // The prefix rebuilt from its own position is itself.
  lemma PosPrefixOf(is4: bool, p: Prefix)
    requires Valid(Width(is4), p) && ROOT_BITS < p.len <= Width(is4)
    ensures 1 <= PosOf(Ceil, Strides(is4), p).idx < 512 && |PosOf(Ceil, Strides(is4), p).path| < Strides(is4)
    ensures PosPrefix(Strides(is4), PosOf(Ceil, Strides(is4), p)) == p
  {
    LongSpot(is4, p);
    var x := PosOf(Ceil, Strides(is4), p);
    PosRoundTrip(Ceil, Strides(is4), x);
    hide PosOf, Valid, PosPrefix;
    PosInjective(Ceil, Strides(is4), p, PosPrefix(Strides(is4), x));
  }
}
