// The authoritative side of the managed value tables: sorted packed keys beside their values, one pair
// of slices a family, and the batch of mutations applied to them.
module PackedStore {
  import opened Bits
  import opened Options
  import opened Prefixes
  import opened Requests
  import opened Words
  import opened Sorting
  import opened PackedLists
  import opened PackedKeys

  // ---------------------------------------------------------------- one family's slices

  // keys and vals hold one family's part of the catalogue, in key order; name tells which network a
  // packed key stands for.
  ghost predicate Column<T(!new), V>(keys: seq<T>, vals: seq<V>, key: T -> Key, name: T -> Network, is4: bool,
                                     c: map<Network, V>)
  {
    && Strict(keys, key) && |keys| == |vals|
    && (forall i :: 0 <= i < |keys| ==> name(keys[i]) in c && c[name(keys[i])] == vals[i] && name(keys[i]).is4 == is4)
    && (forall n :: n in c && n.is4 == is4 ==> Named(keys, name, n))
  }

  ghost predicate Named<T(!new)>(keys: seq<T>, name: T -> Network, n: Network) {
    exists i :: 0 <= i < |keys| && name(keys[i]) == n
  }

  // x is the only key of its name.
  ghost predicate OwnName<T(!new)>(keys: seq<T>, name: T -> Network, x: T) {
    forall i :: 0 <= i < |keys| && name(keys[i]) == name(x) ==> keys[i] == x
  }

  lemma ColumnHas<T(!new), V>(keys: seq<T>, vals: seq<V>, key: T -> Key, name: T -> Network, is4: bool,
                              c: map<Network, V>, x: T)
    requires Column(keys, vals, key, name, is4, c) && OwnName(keys, name, x) && name(x).is4 == is4
    ensures x in keys <==> name(x) in c
  {
    if name(x) in c {
      assert Named(keys, name, name(x));
    }
  }

  lemma ColumnPut<T(!new), V>(keys: seq<T>, vals: seq<V>, key: T -> Key, name: T -> Network, is4: bool,
                              c: map<Network, V>, at: nat, v: V)
    requires Column(keys, vals, key, name, is4, c) && at < |keys| && OwnName(keys, name, keys[at])
    ensures Column(keys, vals[at := v], key, name, is4, c[name(keys[at]) := v])
  {
    forall i | 0 <= i < |keys| && i != at ensures name(keys[i]) != name(keys[at]) {
      StrictOnce(keys, key, i, at);
    }
  }

  lemma StrictOnce<T(!new)>(keys: seq<T>, key: T -> Key, i: nat, j: nat)
    requires Strict(keys, key) && i < |keys| && j < |keys| && i != j
    ensures keys[i] != keys[j]
  {
    assert if i < j then KeyLess(key(keys[i]), key(keys[j])) else KeyLess(key(keys[j]), key(keys[i]));
  }

  lemma ColumnIn<T(!new), V>(keys: seq<T>, vals: seq<V>, key: T -> Key, name: T -> Network, is4: bool,
                             c: map<Network, V>, x: T, at: nat, v: V)
    requires Column(keys, vals, key, name, is4, c) && Lower(keys, key, key(x), at) && name(x) !in c && name(x).is4 == is4
    requires forall i :: 0 <= i < |keys| ==> key(keys[i]) != key(x)
    ensures Column(keys[..at] + [x] + keys[at..], vals[..at] + [v] + vals[at..], key, name, is4, c[name(x) := v])
  {
    SplicedIn(keys, key, x, at);
    var keys', vals', c' := keys[..at] + [x] + keys[at..], vals[..at] + [v] + vals[at..], c[name(x) := v];
    forall i | 0 <= i < |keys'| ensures name(keys'[i]) in c' && c'[name(keys'[i])] == vals'[i] && name(keys'[i]).is4 == is4 {
      if i < at {
        assert keys'[i] == keys[i] && vals'[i] == vals[i];
      } else if i > at {
        assert keys'[i] == keys[i - 1] && vals'[i] == vals[i - 1];
      }
    }
    forall n | n in c' && n.is4 == is4 ensures Named(keys', name, n) {
      if n == name(x) {
        assert keys'[at] == x;
      } else {
        assert Named(keys, name, n);
        var i :| 0 <= i < |keys| && name(keys[i]) == n;
        assert keys'[if i < at then i else i + 1] == keys[i];
      }
    }
  }

  lemma ColumnOut<T(!new), V>(keys: seq<T>, vals: seq<V>, key: T -> Key, name: T -> Network, is4: bool,
                              c: map<Network, V>, at: nat)
    requires Column(keys, vals, key, name, is4, c) && at < |keys| && OwnName(keys, name, keys[at])
    ensures Column(keys[..at] + keys[at + 1..], vals[..at] + vals[at + 1..], key, name, is4, c - {name(keys[at])})
  {
    SplicedOut(keys, key, keys[at], at);
    var keys', vals', c' := keys[..at] + keys[at + 1..], vals[..at] + vals[at + 1..], c - {name(keys[at])};
    forall i | 0 <= i < |keys'| ensures name(keys'[i]) in c' && c'[name(keys'[i])] == vals'[i] && name(keys'[i]).is4 == is4 {
      var j := if i < at then i else i + 1;
      assert keys'[i] == keys[j] && vals'[i] == vals[j];
      StrictOnce(keys, key, j, at);
    }
    forall n | n in c' && n.is4 == is4 ensures Named(keys', name, n) {
      assert Named(keys, name, n);
      var i :| 0 <= i < |keys| && name(keys[i]) == n;
      assert i != at;
      assert keys'[if i < at then i else i - 1] == keys[i];
    }
  }

  // A change to the other family leaves the slices right.
  lemma ColumnApart<T(!new), V>(keys: seq<T>, vals: seq<V>, key: T -> Key, name: T -> Network, is4: bool,
                                c: map<Network, V>, c': map<Network, V>)
    requires Column(keys, vals, key, name, is4, c)
    requires forall n: Network :: n.is4 == is4 ==> (n in c' <==> n in c) && (n in c ==> c'[n] == c[n])
    ensures Column(keys, vals, key, name, is4, c')
  {
  }

  // ---------------------------------------------------------------- both families

  datatype Store<V> = Store(keys4: seq<nat>, vals4: seq<V>, keys6: seq<Entry6>, vals6: seq<V>)

  function Name4(packed: nat): Network {
    Network(true, Unpack4(packed))
  }

  function Name6(e: Entry6): Network {
    Network(false, Prefix6(e))
  }

  ghost predicate Keeps<V>(s: Store<V>, c: map<Network, V>) {
    && Kept4(s.keys4) && Kept6(s.keys6)
    && Column(s.keys4, s.vals4, Key4, Name4, true, c) && Column(s.keys6, s.vals6, Key6, Name6, false, c)
  }

  lemma Own4(keys: seq<nat>, x: nat)
    ensures OwnName(keys, Name4, x)
  {
  }

  lemma Own6(keys: seq<Entry6>, e: Entry6)
    requires Kept6(keys) && e.low < WORD
    ensures OwnName(keys, Name6, e)
  {
    forall i | 0 <= i < |keys| && Name6(keys[i]) == Name6(e) ensures keys[i] == e {
      EntryIs(keys[i], Prefix6(e));
      EntryIs(e, Prefix6(e));
    }
  }

  // ---------------------------------------------------------------- one mutation

  datatype Mutation<V> = Mutation(prefix: Raw, value: V, delete: bool)

  function Apply<V>(c: map<Network, V>, n: Network, m: Mutation<V>): map<Network, V> {
    if m.delete then c - {n} else c[n := m.value]
  }

  // Whether applying it would add or remove a prefix.
  predicate Structural<V>(c: map<Network, V>, n: Network, m: Mutation<V>) {
    (n in c) == m.delete
  }

  method Locate4<V>(s: Store<V>, p: Prefix, ghost c: map<Network, V>) returns (at: nat, exists_: bool)
    requires Keeps(s, c) && Valid(32, p)
    ensures Lower(s.keys4, Key4, Key4(Pack4(p)), at) && Name4(Pack4(p)) == Network(true, p)
    ensures exists_ == (at < |s.keys4| && s.keys4[at] == Pack4(p)) == (Network(true, p) in c)
  {
    LengthFits(32, p);
    PackedOrder(p, p);
    Own4(s.keys4, Pack4(p));
    ColumnHas(s.keys4, s.vals4, Key4, Name4, true, c, Pack4(p));
    hide Valid, Pack4, Unpack4, OwnName;
    at := Search(s.keys4, Key4, Key4(Pack4(p)));
    Present(s.keys4, Key4, Pack4(p), at);
    exists_ := at < |s.keys4| && s.keys4[at] == Pack4(p);
  }

  method Locate6<V>(s: Store<V>, p: Prefix, ghost c: map<Network, V>) returns (at: nat, exists_: bool)
    requires Keeps(s, c) && Valid(128, p)
    ensures Lower(s.keys6, Key6, Key6(Enter6(p)), at) && Name6(Enter6(p)) == Network(false, p)
    ensures exists_ == (at < |s.keys6| && s.keys6[at] == Enter6(p)) == (Network(false, p) in c)
  {
    EntryOrder(p, p);
    WideParts(p.key);
    Own6(s.keys6, Enter6(p));
    KeysDiffer(s.keys6, Enter6(p));
    ColumnHas(s.keys6, s.vals6, Key6, Name6, false, c, Enter6(p));
    hide Valid, Enter6, Prefix6, OwnName, Key6;
    at := Search(s.keys6, Key6, Key6(Enter6(p)));
    Present(s.keys6, Key6, Enter6(p), at);
    exists_ := at < |s.keys6| && s.keys6[at] == Enter6(p);
  }

  method Apply4<V>(s: Store<V>, p: Prefix, m: Mutation<V>, ghost c: map<Network, V>) returns (r: Store<V>)
    requires Keeps(s, c) && Valid(32, p)
    ensures Keeps(r, Apply(c, Network(true, p), m)) && r.keys6 == s.keys6 && r.vals6 == s.vals6
    ensures |r.keys4| <= |s.keys4| + 1
    ensures !Structural(c, Network(true, p), m) ==> r.keys4 == s.keys4
  {
    var at, exists_ := Locate4(s, p, c);
    var packed := Pack4(p);
    Own4(s.keys4, packed);
    ghost var n, c' := Network(true, p), Apply(c, Network(true, p), m);
    ColumnApart(s.keys6, s.vals6, Key6, Name6, false, c, c');
    if m.delete && exists_ {
      ColumnOut(s.keys4, s.vals4, Key4, Name4, true, c, at);
      SplicedOut(s.keys4, Key4, packed, at);
      r := s.(keys4 := s.keys4[..at] + s.keys4[at + 1..], vals4 := s.vals4[..at] + s.vals4[at + 1..]);
    } else if !m.delete && exists_ {
      ColumnPut(s.keys4, s.vals4, Key4, Name4, true, c, at, m.value);
      r := s.(vals4 := s.vals4[at := m.value]);
    } else if !m.delete {
      Absent(s.keys4, Key4, packed, at);
      ColumnIn(s.keys4, s.vals4, Key4, Name4, true, c, packed, at, m.value);
      SplicedIn(s.keys4, Key4, packed, at);
      r := s.(keys4 := s.keys4[..at] + [packed] + s.keys4[at..], vals4 := s.vals4[..at] + [m.value] + s.vals4[at..]);
    } else {
      assert c' == c;
      r := s;
    }
  }

  // A key that is not where the search stops is nowhere.
  lemma Absent<T(!new)>(keys: seq<T>, key: T -> Key, x: T, at: nat)
    requires Strict(keys, key) && Lower(keys, key, key(x), at) && !(at < |keys| && keys[at] == x)
    requires forall i :: 0 <= i < |keys| && key(keys[i]) == key(x) ==> keys[i] == x
    ensures forall i :: 0 <= i < |keys| ==> key(keys[i]) != key(x)
  {
    Present(keys, key, x, at);
  }

  method Apply6<V>(s: Store<V>, p: Prefix, m: Mutation<V>, ghost c: map<Network, V>) returns (r: Store<V>)
    requires Keeps(s, c) && Valid(128, p)
    ensures Keeps(r, Apply(c, Network(false, p), m)) && r.keys4 == s.keys4 && r.vals4 == s.vals4
    ensures |r.keys6| <= |s.keys6| + 1
    ensures !Structural(c, Network(false, p), m) ==> r.keys6 == s.keys6
  {
    var at, exists_ := Locate6(s, p, c);
    var want := Enter6(p);
    EntryOrder(p, p);
    WideParts(p.key);
    Own6(s.keys6, want);
    KeysDiffer(s.keys6, want);
    ghost var n, c' := Network(false, p), Apply(c, Network(false, p), m);
    ColumnApart(s.keys4, s.vals4, Key4, Name4, true, c, c');
    hide Prefix6, Enter6, Key6, Valid, Pow2, Wide;
    if m.delete && exists_ {
      ColumnOut(s.keys6, s.vals6, Key6, Name6, false, c, at);
      SplicedOut(s.keys6, Key6, want, at);
      r := s.(keys6 := s.keys6[..at] + s.keys6[at + 1..], vals6 := s.vals6[..at] + s.vals6[at + 1..]);
    } else if !m.delete && exists_ {
      ColumnPut(s.keys6, s.vals6, Key6, Name6, false, c, at, m.value);
      r := s.(vals6 := s.vals6[at := m.value]);
    } else if !m.delete {
      Absent(s.keys6, Key6, want, at);
      ColumnIn(s.keys6, s.vals6, Key6, Name6, false, c, want, at, m.value);
      SplicedIn(s.keys6, Key6, want, at);
      r := s.(keys6 := s.keys6[..at] + [want] + s.keys6[at..], vals6 := s.vals6[..at] + [m.value] + s.vals6[at..]);
    } else {
      assert c' == c;
      r := s;
    }
  }

  method ApplyOne<V>(s: Store<V>, n: Network, m: Mutation<V>, ghost c: map<Network, V>) returns (r: Store<V>)
    requires Keeps(s, c) && ValidNetwork(n)
    ensures Keeps(r, Apply(c, n, m)) && |r.keys4| + |r.keys6| <= |s.keys4| + |s.keys6| + 1
  {
    ValidIn(n);
    hide Keeps, Valid, Apply;
    if n.is4 {
      r := Apply4(s, n.prefix, m, c);
    } else {
      r := Apply6(s, n.prefix, m, c);
    }
  }

  // Splicing a stored prefix out.
  method Remove4<V>(s: Store<V>, p: Prefix, m: Mutation<V>, ghost c: map<Network, V>) returns (r: Store<V>)
    requires Keeps(s, c) && Valid(32, p) && m.delete && Network(true, p) in c
    ensures Keeps(r, c - {Network(true, p)}) && |r.keys4| < |s.keys4| && r.keys6 == s.keys6
  {
    var at, there := Locate4(s, p, c);
    Own4(s.keys4, Pack4(p));
    ColumnApart(s.keys6, s.vals6, Key6, Name6, false, c, c - {Network(true, p)});
    ColumnOut(s.keys4, s.vals4, Key4, Name4, true, c, at);
    SplicedOut(s.keys4, Key4, Pack4(p), at);
    r := s.(keys4 := s.keys4[..at] + s.keys4[at + 1..], vals4 := s.vals4[..at] + s.vals4[at + 1..]);
  }

  method Remove6<V>(s: Store<V>, p: Prefix, m: Mutation<V>, ghost c: map<Network, V>) returns (r: Store<V>)
    requires Keeps(s, c) && Valid(128, p) && m.delete && Network(false, p) in c
    ensures Keeps(r, c - {Network(false, p)}) && |r.keys6| < |s.keys6| && r.keys4 == s.keys4
  {
    var at, there := Locate6(s, p, c);
    EntryOrder(p, p);
    WideParts(p.key);
    Own6(s.keys6, Enter6(p));
    ColumnApart(s.keys4, s.vals4, Key4, Name4, true, c, c - {Network(false, p)});
    hide Prefix6, Enter6, Key6, Valid, Pow2, Wide;
    ColumnOut(s.keys6, s.vals6, Key6, Name6, false, c, at);
    SplicedOut(s.keys6, Key6, Enter6(p), at);
    r := s.(keys6 := s.keys6[..at] + s.keys6[at + 1..], vals6 := s.vals6[..at] + s.vals6[at + 1..]);
  }

  // ---------------------------------------------------------------- the values vector

  // Slot 0 is the zero value; route ids index the rest, IPv4 first.
  function Vector<V>(zero: V, s: Store<V>): seq<V> {
    [zero] + s.vals4 + s.vals6
  }

  // Where a stored prefix's value stands in the vector.
  ghost predicate SlotOf(keys4: seq<nat>, keys6: seq<Entry6>, n: Network, slot: nat) {
    if n.is4 then 0 < slot <= |keys4| && Name4(keys4[slot - 1]) == n
    else |keys4| < slot <= |keys4| + |keys6| && Name6(keys6[slot - 1 - |keys4|]) == n
  }

  method Locate<V>(s: Store<V>, n: Network, ghost c: map<Network, V>) returns (slot: nat, exists_: bool)
    requires Keeps(s, c) && ValidNetwork(n)
    ensures exists_ == (n in c) && (exists_ ==> SlotOf(s.keys4, s.keys6, n, slot))
  {
    ValidIn(n);
    hide Keeps, Valid, ValidNetwork, Pow2, Wide, Name4, Name6;
    if n.is4 {
      var at;
      at, exists_ := Locate4(s, n.prefix, c);
      slot := at + 1;
    } else {
      var at;
      at, exists_ := Locate6(s, n.prefix, c);
      slot := |s.keys4| + at + 1;
    }
  }

  // The slices with the value of one route id replaced.
  function Patched<V>(s: Store<V>, slot: nat, v: V): Store<V> {
    if 0 < slot <= |s.vals4| then s.(vals4 := s.vals4[slot - 1 := v])
    else if |s.vals4| < slot <= |s.vals4| + |s.vals6| then s.(vals6 := s.vals6[slot - 1 - |s.vals4| := v])
    else s
  }

  // Replacing a stored prefix's value replaces one entry of the catalogue and of the vector.
  lemma PatchKeeps<V>(s: Store<V>, c: map<Network, V>, n: Network, slot: nat, v: V, zero: V)
    requires Keeps(s, c) && SlotOf(s.keys4, s.keys6, n, slot)
    ensures Keeps(Patched(s, slot, v), c[n := v])
    ensures Patched(s, slot, v).keys4 == s.keys4 && Patched(s, slot, v).keys6 == s.keys6
    ensures 0 < slot < |Vector(zero, s)| && Vector(zero, Patched(s, slot, v)) == Vector(zero, s)[slot := v]
  {
    hide Vector, Kept4, Kept6, Column, Name4, Name6;
    ColumnSizes(s, c);
    PatchedVector(s, slot, v, zero);
    if n.is4 {
      PatchKeeps4(s, c, slot - 1, v);
    } else {
      PatchKeeps6(s, c, slot - 1 - |s.keys4|, v);
    }
  }

  lemma ColumnSizes<V>(s: Store<V>, c: map<Network, V>)
    requires Keeps(s, c)
    ensures |s.vals4| == |s.keys4| && |s.vals6| == |s.keys6|
  {
  }

  lemma PatchedVector<V>(s: Store<V>, slot: nat, v: V, zero: V)
    requires 0 < slot <= |s.vals4| + |s.vals6|
    ensures slot < |Vector(zero, s)| && Vector(zero, Patched(s, slot, v)) == Vector(zero, s)[slot := v]
  {
  }

  lemma PatchKeeps4<V>(s: Store<V>, c: map<Network, V>, at: nat, v: V)
    requires Keeps(s, c) && at < |s.keys4|
    ensures Keeps(s.(vals4 := s.vals4[at := v]), c[Name4(s.keys4[at]) := v])
  {
    Own4(s.keys4, s.keys4[at]);
    hide Kept4, Kept6, OwnName;
    ColumnPut(s.keys4, s.vals4, Key4, Name4, true, c, at, v);
    ColumnApart(s.keys6, s.vals6, Key6, Name6, false, c, c[Name4(s.keys4[at]) := v]);
    hide Column;
  }

  lemma PatchKeeps6<V>(s: Store<V>, c: map<Network, V>, at: nat, v: V)
    requires Keeps(s, c) && at < |s.keys6|
    ensures Keeps(s.(vals6 := s.vals6[at := v]), c[Name6(s.keys6[at]) := v])
  {
    assert s.keys6[at] in s.keys6;
    Own6(s.keys6, s.keys6[at]);
    hide Kept4, Kept6, OwnName;
    ColumnPut(s.keys6, s.vals6, Key6, Name6, false, c, at, v);
    ColumnApart(s.keys4, s.vals4, Key4, Name4, true, c, c[Name6(s.keys6[at]) := v]);
    hide Column;
  }

  // ---------------------------------------------------------------- batches

  // The mutations applied in order.
  ghost function Fold<V>(c: map<Network, V>, ms: seq<Mutation<V>>): map<Network, V>
    requires forall m <- ms :: Decompose(m.prefix).Some?
  {
    if |ms| == 0 then c
    else
      var m := ms[|ms| - 1];
      Apply(Fold(c, ms[..|ms| - 1]), Decompose(m.prefix).value, m)
  }

  lemma FoldStep<V>(c: map<Network, V>, ms: seq<Mutation<V>>, i: nat)
    requires i < |ms| && forall m <- ms[..i + 1] :: Decompose(m.prefix).Some?
    ensures forall m <- ms[..i] :: Decompose(m.prefix).Some?
    ensures Decompose(ms[i].prefix).Some?
    ensures Fold(c, ms[..i + 1]) == Apply(Fold(c, ms[..i]), Decompose(ms[i].prefix).value, ms[i])
  {
    hide Decompose;
    assert ms[..i + 1] == ms[..i] + [ms[i]];
    assert ms[..i + 1][..i] == ms[..i];
    assert forall m <- ms[..i] :: m in ms[..i + 1];
    assert ms[i] in ms[..i + 1];
  }

  // The last mutation naming a network decides it; a network no mutation names is as it was.
  lemma {:induction false} FoldMeans<V>(c: map<Network, V>, ms: seq<Mutation<V>>)
    requires forall m <- ms :: Decompose(m.prefix).Some?
    ensures forall i :: 0 <= i < |ms| && (forall j :: i < j < |ms| ==> Decompose(ms[j].prefix) != Decompose(ms[i].prefix)) ==>
              var n, after := Decompose(ms[i].prefix).value, Fold(c, ms);
              if ms[i].delete then n !in after else n in after && after[n] == ms[i].value
    ensures forall n: Network :: (forall i :: 0 <= i < |ms| ==> Decompose(ms[i].prefix) != Some(n)) ==>
              (n in Fold(c, ms) <==> n in c) && (n in c ==> Fold(c, ms)[n] == c[n])
  {
    hide Decompose;
    if |ms| > 0 {
      var front, k := ms[..|ms| - 1], |ms| - 1;
      FoldMeans(c, front);
      assert ms[k] in ms;
      forall i | 0 <= i < |ms| && forall j :: i < j < |ms| ==> Decompose(ms[j].prefix) != Decompose(ms[i].prefix)
        ensures var n, after := Decompose(ms[i].prefix).value, Fold(c, ms);
                if ms[i].delete then n !in after else n in after && after[n] == ms[i].value
      {
        assert ms[i] in ms;
        if i < k {
          assert front[i] == ms[i] && forall j :: i < j < |front| ==> front[j] == ms[j];
        }
      }
      forall n: Network | forall i :: 0 <= i < |ms| ==> Decompose(ms[i].prefix) != Some(n)
        ensures (n in Fold(c, ms) <==> n in c) && (n in c ==> Fold(c, ms)[n] == c[n])
      {
        assert forall i :: 0 <= i < |front| ==> front[i] == ms[i];
      }
    }
  }

  // A mutation that neither adds nor removes a prefix of the catalogue keeps its domain.
  lemma DomainKept<V>(c: map<Network, V>, n: Network, m: Mutation<V>)
    requires !Structural(c, n, m)
    ensures Apply(c, n, m).Keys == c.Keys && (n !in c ==> Apply(c, n, m) == c)
    ensures n in c ==> Apply(c, n, m) == c[n := m.value]
  {
    if n !in c {
      assert c - {n} == c;
    }
  }
}
