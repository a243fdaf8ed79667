// What an enumeration yields: prefixes with their values, each prefix once.
module Listing {
  import opened Prefixes

  datatype Entry<V> = Entry(prefix: Prefix, val: V)

  ghost predicate Has<V>(out: seq<Entry<V>>, p: Prefix) {
    exists i :: 0 <= i < |out| && out[i].prefix == p
  }

  ghost predicate Distinct<V>(out: seq<Entry<V>>) {
    forall i, j :: 0 <= i < j < |out| ==> out[i].prefix != out[j].prefix
  }

  // Each entry of the map once, with its value, and nothing else.
  ghost predicate ListsMap<V>(out: seq<Entry<V>>, m: map<Prefix, V>) {
    && Distinct(out) && (forall e <- out :: e.prefix in m && m[e.prefix] == e.val)
    && forall p <- m :: Has(out, p)
  }

  lemma HasAppend<V>(out: seq<Entry<V>>, more: seq<Entry<V>>, p: Prefix)
    ensures Has(out + more, p) <==> Has(out, p) || Has(more, p)
  {
    if i :| 0 <= i < |out| && out[i].prefix == p {
      assert (out + more)[i].prefix == p;
    }
    if i :| 0 <= i < |more| && more[i].prefix == p {
      assert (out + more)[|out| + i].prefix == p;
    }
  }

  lemma DistinctAppend<V>(out: seq<Entry<V>>, more: seq<Entry<V>>)
    requires Distinct(out) && Distinct(more) && forall p :: !(Has(out, p) && Has(more, p))
    ensures Distinct(out + more)
  {
    forall i, j | 0 <= i < |out| && 0 <= j < |more| ensures out[i].prefix != more[j].prefix {
      assert Has(out, out[i].prefix) && Has(more, more[j].prefix);
    }
  }

  lemma OnlyOne<V>(e: Entry<V>, p: Prefix)
    ensures Distinct([e]) && (Has([e], p) <==> p == e.prefix)
  {
    assert [e][0] == e;
  }
}
