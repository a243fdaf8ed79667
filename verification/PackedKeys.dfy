// The packed forms the managed tables store prefixes in: one word for IPv4, two words and a length for
// IPv6, ordered by address and then length.
module PackedKeys {
  import opened Bits
  import opened Prefixes
  import opened Words
  import opened Sorting
  import opened PackedLists

  datatype Entry6 = Entry6(high: nat, low: nat, bits: nat)

  function Pack4(p: Prefix): nat {
    p.key * 256 + p.len
  }

  function Unpack4(packed: nat): Prefix {
    Prefix(packed / 256, packed % 256)
  }

  function Key4(packed: nat): Key {
    (packed, 0)
  }

  function Enter6(p: Prefix): Entry6 {
    Entry6(High(p.key), Low(p.key), p.len)
  }

  function Prefix6(e: Entry6): Prefix {
    Prefix(Wide(e.high, e.low), e.bits)
  }

  function Key6(e: Entry6): Key {
    (Wide(e.high, e.low), e.bits)
  }

  predicate Less6(a: Entry6, b: Entry6) {
    if a.high != b.high then a.high < b.high
    else if a.low != b.low then a.low < b.low
    else a.bits < b.bits
  }

  // Packed words and entries are ordered by address and then length, and unpack to what was packed.
  lemma PackedOrder(p: Prefix, q: Prefix)
    requires p.len < 256 && q.len < 256
    ensures Unpack4(Pack4(p)) == p && (Pack4(p) < Pack4(q) <==> Before(p, q))
  {
  }

  lemma EntryOrder(p: Prefix, q: Prefix)
    requires p.key < Pow2(128) && q.key < Pow2(128)
    ensures Prefix6(Enter6(p)) == p && (Less6(Enter6(p), Enter6(q)) <==> Before(p, q))
  {
    WideParts(p.key);
    WideParts(q.key);
    Cmp128IsOrder(High(p.key), Low(p.key), High(q.key), Low(q.key));
  }

  ghost predicate Kept4(v: seq<nat>) {
    Strict(v, Key4) && forall x <- v :: Valid(32, Unpack4(x))
  }

  ghost predicate Kept6(v: seq<Entry6>) {
    Strict(v, Key6) && forall e <- v :: e.high < WORD && e.low < WORD && Valid(128, Prefix6(e))
  }

  lemma EntryIs(e: Entry6, p: Prefix)
    requires e.low < WORD && Prefix6(e) == p
    ensures e == Enter6(p)
  {
  }

  // An entry's key is its own.
  lemma KeysDiffer(v: seq<Entry6>, e: Entry6)
    requires Kept6(v) && e.low < WORD
    ensures forall i :: 0 <= i < |v| && Key6(v[i]) == Key6(e) ==> v[i] == e
  {
    forall i | 0 <= i < |v| && Key6(v[i]) == Key6(e) ensures v[i] == e {
      EntryIs(v[i], Prefix6(e));
      EntryIs(e, Prefix6(e));
    }
  }
}
