// Replacing a managed table's contents: the entries are packed, sorted keeping the order of equal keys,
// and collapsed so that the last value given for a prefix wins.
module StoreReset {
  import opened Options
  import opened Prefixes
  import opened Requests
  import opened Words
  import opened Sorting
  import opened PackedLists
  import opened PackedKeys
  import opened PackedStore

  datatype Item<T, V> = Item(key: T, value: V)

  // The value of the last item with a key.
  ghost function LastOf<T, V>(items: seq<Item<T, V>>, k: T): Option<V> {
    if |items| == 0 then None
    else if items[|items| - 1].key == k then Some(items[|items| - 1].value)
    else LastOf(items[..|items| - 1], k)
  }

  lemma {:induction false} LastOfWhere<T, V>(s: seq<Item<T, V>>, k: T, kind: Item<T, V> -> bool)
    requires forall x :: kind(x) <==> x.key == k
    ensures LastWhere(s, kind).Some? == LastOf(s, k).Some?
    ensures LastOf(s, k).Some? ==> LastWhere(s, kind).value.value == LastOf(s, k).value
  {
    if |s| > 0 {
      LastOfWhere(s[..|s| - 1], k, kind);
    }
  }

  // Sorting keeps the last value of every key.
  lemma SortKeepsValue<T(!new), V(!new)>(s: seq<Item<T, V>>, f: Item<T, V> -> Key, key: T -> Key, k: T)
    requires forall i :: f(i) == key(i.key)
    ensures LastOf(Sort(s, f), k) == LastOf(s, k)
  {
    var kind := (x: Item<T, V>) => x.key == k;
    SortKeepsLast(s, f, kind);
    LastOfWhere(s, k, kind);
    LastOfWhere(Sort(s, f), k, kind);
  }

  // keys and vals give each key of the items its last value.
  ghost predicate Binds<T(!new), V>(keys: seq<T>, vals: seq<V>, items: seq<Item<T, V>>) {
    && |keys| == |vals| && (forall i :: 0 <= i < |keys| ==> LastOf(items, keys[i]) == Some(vals[i]))
    && (forall k :: LastOf(items, k).Some? ==> k in keys)
  }

  ghost predicate Injective<T(!new), V>(items: seq<Item<T, V>>, key: T -> Key) {
    forall i, j :: 0 <= i < |items| && 0 <= j < |items| && key(items[i].key) == key(items[j].key) ==> items[i].key == items[j].key
  }

  // Collapses runs of equal keys, the later value winning.
  method Collapse<T(==, !new), V(!new)>(items: seq<Item<T, V>>, key: T -> Key) returns (keys: seq<T>, vals: seq<V>)
    requires Injective(items, key)
    requires forall i, j :: 0 <= i < j < |items| ==> !KeyLess(key(items[j].key), key(items[i].key))
    ensures Strict(keys, key) && Binds(keys, vals, items) && |keys| <= |items|
    ensures forall k :: k in keys ==> exists i :: 0 <= i < |items| && items[i].key == k
  {
    keys, vals := [], [];
    for i := 0 to |items|
      invariant Strict(keys, key) && Binds(keys, vals, items[..i]) && |keys| <= i
      invariant if i == 0 then keys == [] else |keys| > 0 && keys[|keys| - 1] == items[i - 1].key
      invariant forall k :: k in keys ==> exists i :: 0 <= i < |items| && items[i].key == k
    {
      var item := items[i];
      assert items[..i + 1] == items[..i] + [item];
      assert items[..i + 1][..i] == items[..i];
      var n := |keys|;
      if n > 0 && keys[n - 1] == item.key {
        vals := vals[n - 1 := item.value];
        Repeated(keys, key, n - 1);
      } else {
        Ascends(items, key, keys, i);
        keys := keys + [item.key];
        vals := vals + [item.value];
      }
    }
    assert items[..|items|] == items;
  }

  lemma Repeated<T(!new)>(keys: seq<T>, key: T -> Key, at: nat)
    requires Strict(keys, key) && at < |keys|
    ensures forall i :: 0 <= i < |keys| && i != at ==> keys[i] != keys[at]
  {
    forall i | 0 <= i < |keys| && i != at ensures keys[i] != keys[at] {
      StrictOnce(keys, key, i, at);
    }
  }

  // A new key is above every key so far.
  lemma Ascends<T(!new), V>(items: seq<Item<T, V>>, key: T -> Key, keys: seq<T>, i: nat)
    requires Injective(items, key) && i < |items| && Strict(keys, key)
    requires forall i, j :: 0 <= i < j < |items| ==> !KeyLess(key(items[j].key), key(items[i].key))
    requires if i == 0 then keys == [] else |keys| > 0 && keys[|keys| - 1] == items[i - 1].key != items[i].key
    ensures forall j :: 0 <= j < |keys| ==> KeyLess(key(keys[j]), key(items[i].key)) && keys[j] != items[i].key
  {
    if i > 0 {
      var last, x := keys[|keys| - 1], items[i].key;
      assert !KeyLess(key(x), key(last)) && key(x) != key(last);
      assert KeyLess(key(last), key(x));
      forall j | 0 <= j < |keys| ensures KeyLess(key(keys[j]), key(x)) && keys[j] != x {
        assert j < |keys| - 1 ==> KeyLess(key(keys[j]), key(last));
        assert !KeyLess(key(x), key(x));
      }
    }
  }

  // The items of one family stand for its part of the catalogue.
  ghost predicate Mirrors<T(!new), V>(items: seq<Item<T, V>>, name: T -> Network, is4: bool, c: map<Network, V>) {
    && (forall k :: LastOf(items, k).Some? ==>
          name(k) in c && name(k).is4 == is4 && Some(c[name(k)]) == LastOf(items, k))
    && (forall n :: n in c && n.is4 == is4 ==> Held(items, name, n))
  }

  ghost predicate Held<T(!new), V>(items: seq<Item<T, V>>, name: T -> Network, n: Network) {
    exists k :: name(k) == n && LastOf(items, k).Some?
  }

  lemma MirrorStep<T(!new), V>(items: seq<Item<T, V>>, name: T -> Network, is4: bool, c: map<Network, V>, x: T, v: V)
    requires Mirrors(items, name, is4, c) && name(x).is4 == is4
    requires forall k :: LastOf(items, k).Some? && name(k) == name(x) ==> k == x
    ensures Mirrors(items + [Item(x, v)], name, is4, c[name(x) := v])
  {
    var items', c' := items + [Item(x, v)], c[name(x) := v];
    forall k ensures LastOf(items', k) == if k == x then Some(v) else LastOf(items, k) {
      assert items'[..|items|] == items;
    }
    forall n | n in c' && n.is4 == is4 ensures Held(items', name, n) {
      if n == name(x) {
        assert LastOf(items', x).Some?;
      } else {
        assert Held(items, name, n);
        var k :| name(k) == n && LastOf(items, k).Some?;
        assert LastOf(items', k).Some?;
      }
    }
  }

  lemma MirrorApart<T(!new), V>(items: seq<Item<T, V>>, name: T -> Network, is4: bool, c: map<Network, V>, n: Network, v: V)
    requires Mirrors(items, name, is4, c) && n.is4 != is4
    ensures Mirrors(items, name, is4, c[n := v])
  {
  }

  // Collapsed items that mirror a catalogue are its slices.
  lemma CollapsedIsColumn<T(!new), V>(items: seq<Item<T, V>>, sorted: seq<Item<T, V>>, keys: seq<T>, vals: seq<V>,
                                      key: T -> Key, name: T -> Network, is4: bool, c: map<Network, V>)
    requires Strict(keys, key) && Binds(keys, vals, sorted) && Mirrors(items, name, is4, c)
    requires forall k :: LastOf(sorted, k) == LastOf(items, k)
    ensures Column(keys, vals, key, name, is4, c)
  {
    forall n | n in c && n.is4 == is4 ensures Named(keys, name, n) {
      assert Held(items, name, n);
      var k :| name(k) == n && LastOf(items, k).Some?;
      assert k in keys;
      var i :| 0 <= i < |keys| && keys[i] == k;
      assert name(keys[i]) == n;
    }
  }

  // ---------------------------------------------------------------- both families

  function ItemKey4<V>(i: Item<nat, V>): Key {
    Key4(i.key)
  }

  function ItemKey6<V>(i: Item<Entry6, V>): Key {
    Key6(i.key)
  }

  ghost predicate Sound4<V>(items: seq<Item<nat, V>>) {
    forall i :: 0 <= i < |items| ==> Valid(32, Unpack4(items[i].key))
  }

  ghost predicate Sound6<V>(items: seq<Item<Entry6, V>>) {
    forall i :: 0 <= i < |items| ==>
      items[i].key.high < WORD && items[i].key.low < WORD && Valid(128, Prefix6(items[i].key))
  }

  lemma {:induction false} LastIsItem<T, V>(items: seq<Item<T, V>>, k: T)
    ensures LastOf(items, k).Some? ==> exists i :: 0 <= i < |items| && items[i].key == k
  {
    if |items| > 0 && items[|items| - 1].key != k {
      LastIsItem(items[..|items| - 1], k);
    }
  }

  lemma Packed4<V>(items: seq<Item<nat, V>>, c: map<Network, V>, p: Prefix, v: V)
    requires Sound4(items) && Mirrors(items, Name4, true, c) && Valid(32, p)
    ensures Sound4(items + [Item(Pack4(p), v)]) && Mirrors(items + [Item(Pack4(p), v)], Name4, true, c[Network(true, p) := v])
  {
    LengthFits(32, p);
    PackedOrder(p, p);
    MirrorStep(items, Name4, true, c, Pack4(p), v);
  }

  lemma Packed6<V>(items: seq<Item<Entry6, V>>, c: map<Network, V>, p: Prefix, v: V)
    requires Sound6(items) && Mirrors(items, Name6, false, c) && Valid(128, p)
    ensures Sound6(items + [Item(Enter6(p), v)]) && Mirrors(items + [Item(Enter6(p), v)], Name6, false, c[Network(false, p) := v])
  {
    EntryOrder(p, p);
    WideParts(p.key);
    var x := Enter6(p);
    forall k | LastOf(items, k).Some? && Name6(k) == Name6(x) ensures k == x {
      LastIsItem(items, k);
      EntryIs(k, p);
    }
    MirrorStep(items, Name6, false, c, x, v);
  }

  // The slices of the entries' catalogue, or a refusal when a prefix is bad.
  method Repack<V(!new)>(entries: seq<Entry<V>>) returns (s: Option<Store<V>>)
    requires Requests.Sound(entries)
    ensures s.Some? <==> forall e <- entries :: Decompose(e.prefix).Some?
    ensures s.Some? ==> Keeps(s.value, CatalogOf(entries, Decompose)) && |s.value.keys4| + |s.value.keys6| <= |entries|
  {
    hide Decompose, Mirrors, Sound4, Sound6, Valid, ValidNetwork, Pack4, Enter6, Name4, Name6;
    var list4: seq<Item<nat, V>>, list6: seq<Item<Entry6, V>> := [], [];
    Nothing<V>();
    for i := 0 to |entries|
      invariant forall e <- entries[..i] :: Decompose(e.prefix).Some?
      invariant Sound4(list4) && Mirrors(list4, Name4, true, CatalogOf(entries[..i], Decompose))
      invariant Sound6(list6) && Mirrors(list6, Name6, false, CatalogOf(entries[..i], Decompose))
      invariant |list4| + |list6| == i
    {
      assert entries[..i + 1][..i] == entries[..i];
      assert entries[i] in entries;
      DecomposeIsCanonical(entries[i].prefix);
      var d := Decompose(entries[i].prefix);
      if d.None? {
        return None;
      }
      ghost var c := CatalogOf(entries[..i], Decompose);
      ValidIn(d.value);
      if d.value.is4 {
        Packed4(list4, c, d.value.prefix, entries[i].value);
        MirrorApart(list6, Name6, false, c, d.value, entries[i].value);
        list4 := list4 + [Item(Pack4(d.value.prefix), entries[i].value)];
      } else {
        Packed6(list6, c, d.value.prefix, entries[i].value);
        MirrorApart(list4, Name4, true, c, d.value, entries[i].value);
        list6 := list6 + [Item(Enter6(d.value.prefix), entries[i].value)];
      }
    }
    assert entries[..|entries|] == entries;
    var store := Collapsed(list4, list6, CatalogOf(entries, Decompose));
    s := Some(store);
  }

  lemma Nothing<V(!new)>()
    ensures Sound4<V>([]) && Mirrors<nat, V>([], Name4, true, map[])
    ensures Sound6<V>([]) && Mirrors<Entry6, V>([], Name6, false, map[])
  {
  }

  method Collapsed<V(!new)>(list4: seq<Item<nat, V>>, list6: seq<Item<Entry6, V>>, ghost c: map<Network, V>) returns (s: Store<V>)
    requires Sound4(list4) && Mirrors(list4, Name4, true, c)
    requires Sound6(list6) && Mirrors(list6, Name6, false, c)
    ensures Keeps(s, c) && |s.keys4| + |s.keys6| <= |list4| + |list6|
  {
    hide Mirrors, Column, Valid, Prefix6, Unpack4, Wide;
    var keys4, vals4 := Collapsed4(list4, c);
    var keys6, vals6 := Collapsed6(list6, c);
    s := Store(keys4, vals4, keys6, vals6);
  }

  method Collapsed4<V(!new)>(list: seq<Item<nat, V>>, ghost c: map<Network, V>) returns (keys: seq<nat>, vals: seq<V>)
    requires Sound4(list) && Mirrors(list, Name4, true, c)
    ensures Kept4(keys) && Column(keys, vals, Key4, Name4, true, c) && |keys| <= |list|
  {
    var sorted := Sort(list, ItemKey4);
    SameElements(sorted, list);
    forall k: nat ensures LastOf(sorted, k) == LastOf(list, k) {
      SortKeepsValue(list, ItemKey4, Key4, k);
    }
    hide Mirrors, Column, Valid, Unpack4, LastOf;
    keys, vals := Collapse(sorted, Key4);
    CollapsedIsColumn(list, sorted, keys, vals, Key4, Name4, true, c);
    forall x | x in keys ensures Valid(32, Unpack4(x)) {
      var i :| 0 <= i < |sorted| && sorted[i].key == x;
      assert sorted[i] in list;
    }
  }

  method Collapsed6<V(!new)>(list: seq<Item<Entry6, V>>, ghost c: map<Network, V>) returns (keys: seq<Entry6>, vals: seq<V>)
    requires Sound6(list) && Mirrors(list, Name6, false, c)
    ensures Kept6(keys) && Column(keys, vals, Key6, Name6, false, c) && |keys| <= |list|
  {
    var sorted := Sort(list, ItemKey6);
    Sorted6(list, sorted);
    hide Mirrors, Column, Valid, Prefix6, LastOf, Key6, Injective, Sorted, Sound6;
    keys, vals := Collapse(sorted, Key6);
    CollapsedIsColumn(list, sorted, keys, vals, Key6, Name6, false, c);
    KeysKept(sorted, keys);
  }

  lemma Sorted6<V(!new)>(list: seq<Item<Entry6, V>>, sorted: seq<Item<Entry6, V>>)
    requires Sound6(list) && sorted == Sort(list, ItemKey6)
    ensures Sound6(sorted) && Injective(sorted, Key6) && |sorted| == |list|
    ensures forall i, j :: 0 <= i < j < |sorted| ==> !KeyLess(Key6(sorted[j].key), Key6(sorted[i].key))
    ensures forall k :: LastOf(sorted, k) == LastOf(list, k)
  {
    SameElements(sorted, list);
    forall k: Entry6 ensures LastOf(sorted, k) == LastOf(list, k) {
      SortKeepsValue(list, ItemKey6, Key6, k);
    }
    hide Sort, LastOf;
    forall i | 0 <= i < |sorted| ensures sorted[i] in list {
    }
    Apart6(sorted);
  }

  lemma KeysKept<V>(items: seq<Item<Entry6, V>>, keys: seq<Entry6>)
    requires Sound6(items) && Strict(keys, Key6)
    requires forall k :: k in keys ==> exists i :: 0 <= i < |items| && items[i].key == k
    ensures Kept6(keys)
  {
  }

  lemma Apart6<V>(items: seq<Item<Entry6, V>>)
    requires Sound6(items)
    ensures Injective(items, Key6)
  {
    forall i, j | 0 <= i < |items| && 0 <= j < |items| && Key6(items[i].key) == Key6(items[j].key)
      ensures items[i].key == items[j].key
    {
      EntryIs(items[i].key, Prefix6(items[j].key));
      EntryIs(items[j].key, Prefix6(items[j].key));
    }
  }
}
