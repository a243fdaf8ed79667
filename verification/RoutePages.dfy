// Payloads by route id, in pages of 256.  An update builds a second mapping beside the first: what a
// reader of the first one sees is proved to stay as it was.
module RoutePages {
  import opened Sorting

  const PAGE_SIZE := 256

  // Missing pages stay null until written.
  datatype Pages<V> = Pages(pages: seq<array?<V>>) {

    ghost predicate Shaped() {
      forall k :: 0 <= k < |pages| && pages[k] != null ==> pages[k].Length == PAGE_SIZE
    }

    ghost function Frame(): set<object> {
      set k | 0 <= k < |pages| && pages[k] != null :: pages[k]
    }

    // The page an id lives in exists.
    ghost predicate Live(id: nat) {
      id / PAGE_SIZE < |pages| && pages[id / PAGE_SIZE] != null
    }

    function Get(id: nat): V
      requires Shaped() && Live(id)
      reads pages[id / PAGE_SIZE]
    {
      pages[id / PAGE_SIZE][id % PAGE_SIZE]
    }
  }

  // Pages holding values keyed by route id; a page is allocated when an id first falls in it.
  method New<V>(values: map<nat, V>, maxID: nat, zero: V) returns (p: Pages<V>)
    requires forall id <- values :: id <= maxID
    ensures p.Shaped() && fresh(p.Frame())
    ensures forall id <- values :: p.Live(id) && p.Get(id) == values[id]
  {
    var pages: seq<array?<V>> := seq(maxID / PAGE_SIZE + 1, _ => null);
    p := Write(Pages(pages), values, {}, zero);
  }

  // A new mapping with the updates applied; every page of the old one still holds what it held.
  method With<V>(p: Pages<V>, updates: map<nat, V>, maxID: nat, zero: V) returns (next: Pages<V>)
    requires p.Shaped() && forall id <- updates :: id <= maxID
    ensures next.Shaped() && |next.pages| == maxID / PAGE_SIZE + 1
    ensures forall id <- updates :: next.Live(id) && next.Get(id) == updates[id]
    ensures forall id: nat | id <= maxID && id !in updates && p.Live(id) :: next.Live(id) && next.Get(id) == p.Get(id)
    ensures forall k :: 0 <= k < |p.pages| && p.pages[k] != null ==> p.pages[k][..] == old(p.pages[k][..])
    ensures forall k :: 0 <= k < |next.pages| && k < |p.pages| ==> next.pages[k] == p.pages[k] || fresh(next.pages[k])
  {
    var count := maxID / PAGE_SIZE + 1;
    var shared: seq<array?<V>> :=
      if count <= |p.pages| then p.pages[..count] else p.pages + seq(count - |p.pages|, _ => null);
    next := Write(Pages(shared), updates, {}, zero);
    forall id: nat | id <= maxID && id !in updates && p.Live(id) ensures next.Live(id) && next.Get(id) == p.Get(id) {
      assert Pages(shared).Live(id) && Pages(shared).Get(id) == p.Get(id);
    }
  }

  // Two ids in one page share it; ids in different pages never do.
  ghost predicate Separate<V>(p: Pages<V>, copied: set<nat>) {
    && (forall k <- copied :: k < |p.pages| && p.pages[k] != null)
    && (forall k, l :: k in copied && 0 <= l < |p.pages| && k != l ==> p.pages[k] != p.pages[l])
  }

  // Writes the updates, cloning every page not yet copied before it is first touched.
  method Write<V>(p: Pages<V>, updates: map<nat, V>, copied0: set<nat>, zero: V) returns (next: Pages<V>)
    requires p.Shaped() && copied0 == {}
    requires forall id <- updates :: id / PAGE_SIZE < |p.pages|
    ensures next.Shaped() && |next.pages| == |p.pages|
    ensures forall k :: 0 <= k < |p.pages| ==> next.pages[k] == p.pages[k] || fresh(next.pages[k])
    ensures forall id <- updates :: next.Live(id) && next.Get(id) == updates[id]
    ensures forall id: nat | id !in updates && p.Live(id) :: next.Live(id) && next.Get(id) == p.Get(id)
  {
    next := p;
    var copied: set<nat> := copied0;
    var order: seq<nat> := Elements(updates.Keys);
    assert forall id :: id in order <==> id in updates;
    for i := 0 to |order|
      invariant next.Shaped() && |next.pages| == |p.pages| && Separate(next, copied)
      invariant forall k :: 0 <= k < |p.pages| ==>
                  if k in copied then next.pages[k] != null && fresh(next.pages[k]) else next.pages[k] == p.pages[k]
      invariant forall j :: 0 <= j < i ==> order[j] / PAGE_SIZE in copied && next.Get(order[j]) == updates[order[j]]
      invariant forall id: nat | id !in order[..i] && p.Live(id) :: next.Live(id) && next.Get(id) == p.Get(id)
    {
      var id: nat := order[i];
      var page: nat := id / PAGE_SIZE;
      assert id in order;
      if page !in copied {
        var clone := Clone(next.pages[page], zero);
        next := Pages(next.pages[page := clone]);
        copied := copied + {page};
      }
      next.pages[page][id % PAGE_SIZE] := updates[id];
    }
  }

  method Clone<V>(page: array?<V>, zero: V) returns (clone: array<V>)
    requires page != null ==> page.Length == PAGE_SIZE
    ensures fresh(clone) && clone.Length == PAGE_SIZE
    ensures forall s :: 0 <= s < PAGE_SIZE ==> clone[s] == if page != null then page[s] else zero
  {
    clone := new V[PAGE_SIZE](_ => zero);
    if page != null {
      forall s | 0 <= s < PAGE_SIZE {
        clone[s] := page[s];
      }
    }
  }
}
