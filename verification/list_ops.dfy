/** The operations of b_list.c on a list and the nodes it owns: node and
    list construction, the ends operations, indexed and predicate access,
    insertion, deletion and teardown. A NULL `b_list *` or `b_list_node *`
    argument is `None`; a NULL result is `None`. */
module ListOps {
  import opened Wrappers
  import opened ListTypes

  /** The heap, the list record and the node an operation returns. */
  datatype Update<T> = Update(heap: Heap<T>, list: Option<List>, node: Option<Ref>)

  /** The heap and list record after a deletion, and the payloads handed to
      the list's destructor, in call order. */
  datatype Removal<T> = Removal(heap: Heap<T>, list: Option<List>, destructed: seq<T>)

  /** A node that belongs to no list: both links NULL. */
  predicate Detached<T>(h: Heap<T>, n: Ref)
    requires n in h
  {
    h[n].prev.None? && h[n].next.None?
  }

  /** A node linked in front of a chain's first node extends the chain. */
  lemma PrependLinked<T>(h: Heap<T>, h': Heap<T>, n: Ref, ns: seq<Ref>)
    requires Linked(h, ns) && n in h && n !in ns && |ns| > 0
    requires h'.Keys == h.Keys
    requires h'[n] == h[n].(prev := None, next := Some(ns[0]))
    requires h'[ns[0]] == h[ns[0]].(prev := Some(n))
    requires forall x | x in h && x != n && x != ns[0] :: h'[x] == h[x]
    ensures Linked(h', [n] + ns)
  {
    var r := [n] + ns;
    forall i | 0 <= i < |r| ensures r[i] in h' && h'[r[i]].prev == PrevOf(r, i) && h'[r[i]].next == NextOf(r, i) {
      if i == 0 {
      } else if i == 1 {
        assert r[1] == ns[0] && h'[ns[0]].next == h[ns[0]].next;
      } else {
        assert r[i] == ns[i - 1] && r[i - 1] == ns[i - 2] && h'[ns[i - 1]] == h[ns[i - 1]];
      }
    }
  }

  /** A node linked after a chain's last node extends the chain. */
  lemma AppendLinked<T>(h: Heap<T>, h': Heap<T>, n: Ref, ns: seq<Ref>)
    requires Linked(h, ns) && n in h && n !in ns && |ns| > 0
    requires h'.Keys == h.Keys
    requires h'[n] == h[n].(prev := Some(ns[|ns| - 1]), next := None)
    requires h'[ns[|ns| - 1]] == h[ns[|ns| - 1]].(next := Some(n))
    requires forall x | x in h && x != n && x != ns[|ns| - 1] :: h'[x] == h[x]
    ensures Linked(h', ns + [n])
  {
    var r := ns + [n];
    forall i | 0 <= i < |r| ensures r[i] in h' && h'[r[i]].prev == PrevOf(r, i) && h'[r[i]].next == NextOf(r, i) {
      if i == |r| - 1 {
      } else if i == |r| - 2 {
        assert r[i] == ns[i] && h'[ns[i]].prev == h[ns[i]].prev;
      } else {
        assert r[i] == ns[i] && r[i + 1] == ns[i + 1] && h'[ns[i]] == h[ns[i]];
      }
    }
  }

  /** A node linked between the (k-1)-th and k-th nodes of a chain takes
      position k. */
  lemma SpliceLinked<T>(h: Heap<T>, h': Heap<T>, n: Ref, ns: seq<Ref>, k: nat)
    requires Linked(h, ns) && n in h && n !in ns && 0 < k < |ns|
    requires h'.Keys == h.Keys
    requires h'[n] == h[n].(prev := Some(ns[k - 1]), next := Some(ns[k]))
    requires h'[ns[k - 1]] == h[ns[k - 1]].(next := Some(n))
    requires h'[ns[k]] == h[ns[k]].(prev := Some(n))
    requires forall x | x in h && x != n && x != ns[k - 1] && x != ns[k] :: h'[x] == h[x]
    ensures Linked(h', ns[..k] + [n] + ns[k..])
    ensures First(ns[..k] + [n] + ns[k..]) == First(ns) && Last(ns[..k] + [n] + ns[k..]) == Last(ns)
  {
    var r := ns[..k] + [n] + ns[k..];
    InsertedAt(ns, n, k, 0);
    InsertedAt(ns, n, k, |ns|);
    forall i | 0 <= i < |r| ensures r[i] in h' && h'[r[i]].prev == PrevOf(r, i) && h'[r[i]].next == NextOf(r, i) {
      SpliceNode(h, h', n, ns, k, i);
    }
  }

  lemma SpliceNode<T>(h: Heap<T>, h': Heap<T>, n: Ref, ns: seq<Ref>, k: nat, i: nat)
    requires Linked(h, ns) && n in h && n !in ns && 0 < k < |ns|
    requires h'.Keys == h.Keys
    requires h'[n] == h[n].(prev := Some(ns[k - 1]), next := Some(ns[k]))
    requires h'[ns[k - 1]] == h[ns[k - 1]].(next := Some(n))
    requires h'[ns[k]] == h[ns[k]].(prev := Some(n))
    requires forall x | x in h && x != n && x != ns[k - 1] && x != ns[k] :: h'[x] == h[x]
    requires i <= |ns|
    ensures var r := ns[..k] + [n] + ns[k..];
      r[i] in h' && h'[r[i]].prev == PrevOf(r, i) && h'[r[i]].next == NextOf(r, i)
  {
    if i < k - 1 {
      SpliceLeft(h, h', n, ns, k, i);
    } else if i <= k + 1 {
      SpliceNear(h, h', n, ns, k, i);
    } else {
      SpliceRight(h, h', n, ns, k, i);
    }
  }

  lemma SpliceLeft<T>(h: Heap<T>, h': Heap<T>, n: Ref, ns: seq<Ref>, k: nat, i: nat)
    requires Linked(h, ns) && n in h && n !in ns && 0 < k < |ns|
    requires h'.Keys == h.Keys
    requires forall x | x in h && x != n && x != ns[k - 1] && x != ns[k] :: h'[x] == h[x]
    requires i < k - 1
    ensures var r := ns[..k] + [n] + ns[k..];
      r[i] in h' && h'[r[i]].prev == PrevOf(r, i) && h'[r[i]].next == NextOf(r, i)
  {
    InsertedAt(ns, n, k, i);
    InsertedAt(ns, n, k, i + 1);
    if i > 0 { InsertedAt(ns, n, k, i - 1); }
    assert ns[i] in ns;
    LinkedInjective(h, ns, i, k - 1);
    LinkedInjective(h, ns, i, k);
    assert h'[ns[i]] == h[ns[i]];
  }

  lemma SpliceNear<T>(h: Heap<T>, h': Heap<T>, n: Ref, ns: seq<Ref>, k: nat, i: nat)
    requires Linked(h, ns) && n in h && n !in ns && 0 < k < |ns|
    requires h'.Keys == h.Keys
    requires h'[n] == h[n].(prev := Some(ns[k - 1]), next := Some(ns[k]))
    requires h'[ns[k - 1]] == h[ns[k - 1]].(next := Some(n))
    requires h'[ns[k]] == h[ns[k]].(prev := Some(n))
    requires k - 1 <= i <= k + 1 && i <= |ns|
    ensures var r := ns[..k] + [n] + ns[k..];
      r[i] in h' && h'[r[i]].prev == PrevOf(r, i) && h'[r[i]].next == NextOf(r, i)
  {
    InsertedAt(ns, n, k, k - 1);
    InsertedAt(ns, n, k, k);
    InsertedAt(ns, n, k, k + 1);
    if i == k - 1 && i > 0 {
      InsertedAt(ns, n, k, i - 1);
    } else if i == k + 1 && i < |ns| {
      InsertedAt(ns, n, k, i + 1);
    }
  }

  lemma SpliceRight<T>(h: Heap<T>, h': Heap<T>, n: Ref, ns: seq<Ref>, k: nat, i: nat)
    requires Linked(h, ns) && n in h && n !in ns && 0 < k < |ns|
    requires h'.Keys == h.Keys
    requires forall x | x in h && x != n && x != ns[k - 1] && x != ns[k] :: h'[x] == h[x]
    requires k + 1 < i <= |ns|
    ensures var r := ns[..k] + [n] + ns[k..];
      r[i] in h' && h'[r[i]].prev == PrevOf(r, i) && h'[r[i]].next == NextOf(r, i)
  {
    InsertedAt(ns, n, k, i);
    InsertedAt(ns, n, k, i - 1);
    if i < |ns| { InsertedAt(ns, n, k, i + 1); }
    assert ns[i - 1] in ns;
    LinkedInjective(h, ns, k - 1, i - 1);
    LinkedInjective(h, ns, k, i - 1);
    assert h'[ns[i - 1]] == h[ns[i - 1]];
  }

  /** The k-th node of a chain and its two neighbours are three nodes. */
  lemma NeighboursDistinct<T>(h: Heap<T>, ns: seq<Ref>, k: nat)
    requires Linked(h, ns) && k < |ns|
    ensures k > 0 ==> ns[k - 1] != ns[k]
    ensures k < |ns| - 1 ==> ns[k] != ns[k + 1]
    ensures 0 < k < |ns| - 1 ==> ns[k - 1] != ns[k + 1]
  {
    if k > 0 { LinkedInjective(h, ns, k - 1, k); }
    if k < |ns| - 1 { LinkedInjective(h, ns, k, k + 1); }
    if 0 < k < |ns| - 1 { LinkedInjective(h, ns, k - 1, k + 1); }
  }

  /** Splicing a node in touches only that node and its new neighbours. */
  lemma SpliceFrame<T>(h: Heap<T>, h': Heap<T>, n: Ref, ns: seq<Ref>, k: nat)
    requires 0 < k < |ns|
    requires h'.Keys == h.Keys
    requires forall x | x in h && x != n && x != ns[k - 1] && x != ns[k] :: h'[x] == h[x]
    requires forall x | x in h' :: h'[x].data == h[x].data
    ensures Frame(h, h', [n] + ns)
  {
    forall x | x in h && x !in [n] + ns ensures x in h' && h'[x] == h[x] {
      assert x != n && x != ns[k - 1] && x != ns[k];
    }
  }

  /** Where the elements of `ns[..k] + [n] + ns[k..]` come from. */
  lemma InsertedAt(ns: seq<Ref>, n: Ref, k: nat, i: nat)
    requires k <= |ns| && i <= |ns|
    ensures (ns[..k] + [n] + ns[k..])[i] == if i < k then ns[i] else if i == k then n else ns[i - 1]
  {
  }

  /** Removing position k of `ns[..k] + [n] + ns[k..]` gives back `ns`. */
  lemma RemoveInserted(ns: seq<Ref>, n: Ref, k: nat)
    requires k <= |ns|
    ensures var r := ns[..k] + [n] + ns[k..]; r[k] == n && r[..k] + r[k + 1..] == ns
  {
    var r := ns[..k] + [n] + ns[k..];
    assert r[..k] == ns[..k];
    assert r[k + 1..] == ns[k..];
  }

  /** Where the elements of `ns[..k] + ns[k + 1..]` come from. */
  lemma RemovedAt(ns: seq<Ref>, k: nat, i: nat)
    requires k < |ns| && i < |ns| - 1
    ensures (ns[..k] + ns[k + 1..])[i] == if i < k then ns[i] else ns[i + 1]
  {
  }

  /** The ends of `ns[..k] + ns[k + 1..]`. */
  lemma RemovedEnds(ns: seq<Ref>, k: nat)
    requires k < |ns|
    ensures First(ns[..k] + ns[k + 1..]) == if k == 0 then NextOf(ns, 0) else First(ns)
    ensures Last(ns[..k] + ns[k + 1..]) == if k == |ns| - 1 then PrevOf(ns, k) else Last(ns)
  {
    if |ns| > 1 {
      RemovedAt(ns, k, 0);
      RemovedAt(ns, k, |ns| - 2);
    }
  }

  /** Removing the k-th node of a chain and joining its neighbours leaves
      the other nodes linked in order. */
  lemma UnlinkLinked<T>(h: Heap<T>, h': Heap<T>, ns: seq<Ref>, k: nat)
    requires Linked(h, ns) && k < |ns|
    requires h'.Keys == h.Keys - {ns[k]}
    requires k > 0 ==> ns[k - 1] in h' && h'[ns[k - 1]] == h[ns[k - 1]].(next := NextOf(ns, k))
    requires k < |ns| - 1 ==> ns[k + 1] in h' && h'[ns[k + 1]] == h[ns[k + 1]].(prev := PrevOf(ns, k))
    requires forall x | x in h' && (k == 0 || x != ns[k - 1]) && (k == |ns| - 1 || x != ns[k + 1]) :: h'[x] == h[x]
    ensures Linked(h', ns[..k] + ns[k + 1..])
    ensures First(ns[..k] + ns[k + 1..]) == if k == 0 then NextOf(ns, 0) else First(ns)
    ensures Last(ns[..k] + ns[k + 1..]) == if k == |ns| - 1 then PrevOf(ns, k) else Last(ns)
  {
    var r := ns[..k] + ns[k + 1..];
    RemovedEnds(ns, k);
    forall i | 0 <= i < |r| ensures r[i] in h' && h'[r[i]].prev == PrevOf(r, i) && h'[r[i]].next == NextOf(r, i) {
      if i + 1 < k {
        UnlinkLeft(h, h', ns, k, i);
      } else if i + 1 == k {
        UnlinkPrev(h, h', ns, k);
      } else if i == k {
        UnlinkNext(h, h', ns, k);
      } else {
        UnlinkRight(h, h', ns, k, i);
      }
    }
  }

  lemma UnlinkLeft<T>(h: Heap<T>, h': Heap<T>, ns: seq<Ref>, k: nat, i: nat)
    requires Linked(h, ns) && k < |ns|
    requires h'.Keys == h.Keys - {ns[k]}
    requires forall x | x in h' && (k == 0 || x != ns[k - 1]) && (k == |ns| - 1 || x != ns[k + 1]) :: h'[x] == h[x]
    requires i + 1 < k
    ensures var r := ns[..k] + ns[k + 1..];
      r[i] in h' && h'[r[i]].prev == PrevOf(r, i) && h'[r[i]].next == NextOf(r, i)
  {
    RemovedAt(ns, k, i);
    RemovedAt(ns, k, i + 1);
    if i > 0 { RemovedAt(ns, k, i - 1); }
    LinkedInjective(h, ns, i, k - 1);
    LinkedInjective(h, ns, i, k);
    if k < |ns| - 1 {
      LinkedInjective(h, ns, i, k + 1);
    }
    assert h'[ns[i]] == h[ns[i]];
  }

  lemma UnlinkPrev<T>(h: Heap<T>, h': Heap<T>, ns: seq<Ref>, k: nat)
    requires Linked(h, ns) && 0 < k < |ns|
    requires ns[k - 1] in h' && h'[ns[k - 1]] == h[ns[k - 1]].(next := NextOf(ns, k))
    ensures var r := ns[..k] + ns[k + 1..];
      r[k - 1] in h' && h'[r[k - 1]].prev == PrevOf(r, k - 1) && h'[r[k - 1]].next == NextOf(r, k - 1)
  {
    RemovedAt(ns, k, k - 1);
    if k > 1 { RemovedAt(ns, k, k - 2); }
    if k < |ns| - 1 { RemovedAt(ns, k, k); }
  }

  lemma UnlinkNext<T>(h: Heap<T>, h': Heap<T>, ns: seq<Ref>, k: nat)
    requires Linked(h, ns) && k < |ns| - 1
    requires ns[k + 1] in h' && h'[ns[k + 1]] == h[ns[k + 1]].(prev := PrevOf(ns, k))
    ensures var r := ns[..k] + ns[k + 1..];
      r[k] in h' && h'[r[k]].prev == PrevOf(r, k) && h'[r[k]].next == NextOf(r, k)
  {
    RemovedAt(ns, k, k);
    if k > 0 { RemovedAt(ns, k, k - 1); }
    if k + 2 < |ns| { RemovedAt(ns, k, k + 1); }
  }

  lemma UnlinkRight<T>(h: Heap<T>, h': Heap<T>, ns: seq<Ref>, k: nat, i: nat)
    requires Linked(h, ns) && k < |ns|
    requires h'.Keys == h.Keys - {ns[k]}
    requires forall x | x in h' && (k == 0 || x != ns[k - 1]) && (k == |ns| - 1 || x != ns[k + 1]) :: h'[x] == h[x]
    requires k < i < |ns| - 1
    ensures var r := ns[..k] + ns[k + 1..];
      r[i] in h' && h'[r[i]].prev == PrevOf(r, i) && h'[r[i]].next == NextOf(r, i)
  {
    RemovedAt(ns, k, i);
    RemovedAt(ns, k, i - 1);
    if i + 2 < |ns| { RemovedAt(ns, k, i + 1); }
    LinkedInjective(h, ns, k, i + 1);
    LinkedInjective(h, ns, k + 1, i + 1);
    if k > 0 {
      LinkedInjective(h, ns, k - 1, i + 1);
    }
    assert h'[ns[i + 1]] == h[ns[i + 1]];
  }

  /** Unlinking the k-th node touches only nodes of the chain. */
  lemma UnlinkFrame<T>(h: Heap<T>, h': Heap<T>, ns: seq<Ref>, k: nat)
    requires k < |ns|
    requires h'.Keys == h.Keys - {ns[k]}
    requires forall x | x in h' && (k == 0 || x != ns[k - 1]) && (k == |ns| - 1 || x != ns[k + 1]) :: h'[x] == h[x]
    requires forall x | x in h' :: h'[x].data == h[x].data
    ensures Frame(h, h', ns)
  {
    forall x | x in h && x !in ns ensures x in h' && h'[x] == h[x] {
      assert x != ns[k];
      assert k > 0 ==> x != ns[k - 1];
      assert k < |ns| - 1 ==> x != ns[k + 1];
    }
  }

  /** Cutting the first node off a chain of two or more leaves the rest linked. */
  lemma PopFrontLinked<T>(h: Heap<T>, h': Heap<T>, ns: seq<Ref>)
    requires Linked(h, ns) && |ns| > 1
    requires h' == var h1 := SetPrev(h, ns[1], None); h1[ns[0] := h1[ns[0]].(prev := None, next := None)]
    ensures Linked(h', ns[1..])
  {
    var r := ns[1..];
    forall i | 0 <= i < |r| ensures r[i] in h' && h'[r[i]].prev == PrevOf(r, i) && h'[r[i]].next == NextOf(r, i) {
      assert r[i] == ns[i + 1] && h'[ns[i + 1]].next == h[ns[i + 1]].next;
      if i > 0 {
        assert r[i - 1] == ns[i] && h'[ns[i + 1]] == h[ns[i + 1]];
      }
    }
  }

  /** Cutting the last node off a chain of two or more leaves the rest linked. */
  lemma PopBackLinked<T>(h: Heap<T>, h': Heap<T>, ns: seq<Ref>)
    requires Linked(h, ns) && |ns| > 1
    requires h' == var h1 := SetNext(h, ns[|ns| - 2], None); h1[ns[|ns| - 1] := h1[ns[|ns| - 1]].(prev := None, next := None)]
    ensures Linked(h', ns[..|ns| - 1])
  {
    var r := ns[..|ns| - 1];
    forall i | 0 <= i < |r| ensures r[i] in h' && h'[r[i]].prev == PrevOf(r, i) && h'[r[i]].next == NextOf(r, i) {
      assert r[i] == ns[i] && h'[ns[i]].prev == h[ns[i]].prev;
      if i < |r| - 1 {
        assert r[i + 1] == ns[i + 1] && h'[ns[i]] == h[ns[i]];
      }
    }
  }

  /** b_new_list_node: the node `addr` (the address malloc returned, not
      yet allocated) wraps `data` and is detached. */
  function NewNode<T>(h: Heap<T>, addr: Ref, data: T): (r: Heap<T>)
    requires addr !in h
    ensures r.Keys == h.Keys + {addr}
    ensures r[addr].data == data && Detached(r, addr)
    ensures forall x | x in h :: r[x] == h[x]
  {
    h[addr := Node(None, None, data)]
  }

  /** b_new_list: an empty list without destructor. */
  function NewList<T>(h: Heap<T>): (l: List)
    ensures Valid(h, l, []) && !l.destructor
  {
    List(None, None, 0, false)
  }

  /** b_new_list_with_func: an empty list that stores the given destructor;
      `bound` says whether that function pointer is non-NULL. A NULL one
      leaves the list without a destructor, as b_new_list does. */
  function NewListWithFunc<T>(h: Heap<T>, bound: bool): (l: List)
    ensures Valid(h, l, []) && l.destructor == bound
  {
    List(None, None, 0, bound)
  }

  /** b_list_lpush: clear the node's links and make it the new head. */
  function LPush<T>(h: Heap<T>, ol: Option<List>, on: Option<Ref>, ghost ns: seq<Ref>): (r: Update<T>)
    requires ol.Some? ==> Valid(h, ol.value, ns)
    requires ol.Some? && on.Some? ==> on.value in h && on.value !in ns
    ensures ol.None? || on.None? ==> r == Update(h, ol, None)
    ensures ol.Some? && on.Some? ==>
      && r.node == on && r.list.Some?
      && Valid(r.heap, r.list.value, [on.value] + ns)
      && r.list.value.destructor == ol.value.destructor
      && r.heap.Keys == h.Keys && Frame(h, r.heap, [on.value] + ns)
  {
    if ol.None? || on.None? then Update(h, ol, None)
    else
      var l, n := ol.value, on.value;
      var h1 := h[n := h[n].(prev := None, next := None)];
      LinkedFrame(h, h1, ns);
      if l.size == 0 then
        Update(h1, Some(l.(head := on, tail := on, size := l.size + 1)), on)
      else
        var h2 := SetNext(SetPrev(h1, l.head.value, on), n, l.head);
        PrependLinked(h, h2, n, ns);
        Update(h2, Some(l.(head := on, size := l.size + 1)), on)
  }

  /** b_list_rpush: clear the node's links and make it the new tail. */
  function RPush<T>(h: Heap<T>, ol: Option<List>, on: Option<Ref>, ghost ns: seq<Ref>): (r: Update<T>)
    requires ol.Some? ==> Valid(h, ol.value, ns)
    requires ol.Some? && on.Some? ==> on.value in h && on.value !in ns
    ensures ol.None? || on.None? ==> r == Update(h, ol, None)
    ensures ol.Some? && on.Some? ==>
      && r.node == on && r.list.Some?
      && Valid(r.heap, r.list.value, ns + [on.value])
      && r.list.value.destructor == ol.value.destructor
      && r.heap.Keys == h.Keys && Frame(h, r.heap, ns + [on.value])
  {
    if ol.None? || on.None? then Update(h, ol, None)
    else
      var l, n := ol.value, on.value;
      var h1 := h[n := h[n].(prev := None, next := None)];
      LinkedFrame(h, h1, ns);
      if l.size == 0 then
        Update(h1, Some(l.(head := on, tail := on, size := l.size + 1)), on)
      else
        var h2 := SetPrev(SetNext(h1, l.tail.value, on), n, l.tail);
        AppendLinked(h, h2, n, ns);
        Update(h2, Some(l.(tail := on, size := l.size + 1)), on)
  }

  /** b_list_lpop: detach and return the head; the payload is not destructed. */
  function LPop<T>(h: Heap<T>, ol: Option<List>, ghost ns: seq<Ref>): (r: Update<T>)
    requires ol.Some? ==> Valid(h, ol.value, ns)
    ensures ol.None? || ol.value.size == 0 ==> r == Update(h, ol, None)
    ensures ol.Some? && |ns| > 0 ==>
      && r.node == Some(ns[0]) && r.list.Some?
      && Valid(r.heap, r.list.value, ns[1..])
      && r.list.value.destructor == ol.value.destructor
      && ns[0] in r.heap && Detached(r.heap, ns[0])
      && r.heap.Keys == h.Keys && Frame(h, r.heap, ns)
  {
    if ol.None? || ol.value.size == 0 then Update(h, ol, None)
    else
      var l := ol.value;
      var n := l.head.value;
      if l.size == 1 then
        assert h[ns[0]].next == NextOf(ns, 0);
        Update(h, Some(l.(head := None, tail := None, size := l.size - 1)), l.head)
      else
        var h1 := SetPrev(h, h[n].next.value, None);
        var h2 := h1[n := h1[n].(prev := None, next := None)];
        PopFrontLinked(h, h2, ns);
        Update(h2, Some(l.(head := h[n].next, size := l.size - 1)), l.head)
  }

  /** b_list_rpop: detach and return the tail; the payload is not destructed. */
  function RPop<T>(h: Heap<T>, ol: Option<List>, ghost ns: seq<Ref>): (r: Update<T>)
    requires ol.Some? ==> Valid(h, ol.value, ns)
    ensures ol.None? || ol.value.size == 0 ==> r == Update(h, ol, None)
    ensures ol.Some? && |ns| > 0 ==>
      && r.node == Some(ns[|ns| - 1]) && r.list.Some?
      && Valid(r.heap, r.list.value, ns[..|ns| - 1])
      && r.list.value.destructor == ol.value.destructor
      && ns[|ns| - 1] in r.heap && Detached(r.heap, ns[|ns| - 1])
      && r.heap.Keys == h.Keys && Frame(h, r.heap, ns)
  {
    if ol.None? || ol.value.size == 0 then Update(h, ol, None)
    else
      var l := ol.value;
      var n := l.tail.value;
      if l.size == 1 then
        assert h[ns[0]].prev == PrevOf(ns, 0);
        Update(h, Some(l.(head := None, tail := None, size := l.size - 1)), l.tail)
      else
        var h1 := SetNext(h, h[n].prev.value, None);
        var h2 := h1[n := h1[n].(prev := None, next := None)];
        PopBackLinked(h, h2, ns);
        Update(h2, Some(l.(tail := h[n].prev, size := l.size - 1)), l.tail)
  }

  /** b_list_fetch: the node at a 0-based index, found by walking from head;
      NULL for an index outside [0, size). */
  function Fetch<T>(h: Heap<T>, ol: Option<List>, index: int, ghost ns: seq<Ref>): (r: Option<Ref>)
    requires ol.Some? ==> Valid(h, ol.value, ns)
    ensures r == if ol.Some? && 0 <= index < |ns| then Some(ns[index]) else None
  {
    if ol.None? || ol.value.size == 0 || index < 0 || index >= ol.value.size then None
    else Some(Walk(h, ol.value.head.value, index, ns, 0))
  }

  /** b_list_find: the first node from head whose payload matches `key`
      (a nonzero result of `matches`), or NULL when there is none. */
  method Find<T>(h: Heap<T>, ol: Option<List>, matches: (T, T) -> int, key: T, ghost ns: seq<Ref>) returns (r: Option<Ref>)
    requires ol.Some? ==> Valid(h, ol.value, ns)
    ensures ol.None? ==> r.None?
    ensures ol.Some? && r.None? ==> forall i | 0 <= i < |ns| :: matches(h[ns[i]].data, key) == 0
    ensures ol.Some? && r.Some? ==>
      exists i | 0 <= i < |ns| :: && ns[i] == r.value
                                  && matches(h[ns[i]].data, key) != 0
                                  && forall j | 0 <= j < i :: matches(h[ns[j]].data, key) == 0
  {
    if ol.None? {
      return None;
    }
    var node := ol.value.head;
    ghost var i := 0;
    while node.Some? && matches(h[node.value].data, key) == 0
      invariant 0 <= i <= |ns|
      invariant node == if i < |ns| then Some(ns[i]) else None
      invariant forall j | 0 <= j < i :: matches(h[ns[j]].data, key) == 0
      decreases |ns| - i
    {
      node := h[node.value].next;
      i := i + 1;
    }
    r := node;
  }

  /** b_list_insert: the node takes position `index` in [0, size]; any other
      index, or a NULL argument, changes nothing and yields NULL. */
  function Insert<T>(h: Heap<T>, ol: Option<List>, on: Option<Ref>, index: int, ghost ns: seq<Ref>): (r: Update<T>)
    requires ol.Some? ==> Valid(h, ol.value, ns)
    requires ol.Some? && on.Some? && 0 <= index <= |ns| ==> on.value in h && on.value !in ns
    ensures ol.None? || on.None? || index < 0 || index > |ns| ==> r == Update(h, ol, None)
    ensures ol.Some? && on.Some? && 0 <= index <= |ns| ==>
      && r.node == on && r.list.Some?
      && Valid(r.heap, r.list.value, ns[..index] + [on.value] + ns[index..])
      && r.list.value.destructor == ol.value.destructor
      && r.heap.Keys == h.Keys && Frame(h, r.heap, [on.value] + ns)
  {
    if ol.None? || on.None? || index < 0 || index > ol.value.size then Update(h, ol, None)
    else if ol.value.size == 0 || index == 0 then
      // the same relinking as b_list_lpush
      assert ns[..index] + [on.value] + ns[index..] == [on.value] + ns;
      LPush(h, ol, on, ns)
    else if index == ol.value.size then
      // the same relinking as b_list_rpush
      assert ns[..index] + [on.value] + ns[index..] == ns + [on.value];
      RPush(h, ol, on, ns)
    else
      InsertBetween(h, ol.value, on.value, index, ns)
  }

  /** The middle branch of b_list_insert: walk to the node at `index` and
      link the new node between it and its predecessor. */
  function InsertBetween<T>(h: Heap<T>, l: List, n: Ref, index: nat, ghost ns: seq<Ref>): (r: Update<T>)
    requires Valid(h, l, ns)
    requires n in h && n !in ns && 0 < index < |ns|
    ensures r.node == Some(n) && r.list.Some?
    ensures Valid(r.heap, r.list.value, ns[..index] + [n] + ns[index..])
    ensures r.list.value.destructor == l.destructor
    ensures r.heap.Keys == h.Keys && Frame(h, r.heap, [n] + ns)
  {
    var node := Walk(h, l.head.value, index, ns, 0);
    var p := h[node].prev.value;
    assert p == ns[index - 1];
    LinkedInjective(h, ns, index - 1, index);
    var h2 := Splice(h, n, p, node);
    SpliceLinked(h, h2, n, ns, index);
    SpliceFrame(h, h2, n, ns, index);
    Update(h2, Some(l.(size := l.size + 1)), Some(n))
  }

  /** The heap after linking `n` between the adjacent nodes `p` and `q`. */
  function Splice<T>(h: Heap<T>, n: Ref, p: Ref, q: Ref): (h': Heap<T>)
    requires n in h && p in h && q in h && n != p && n != q && p != q
    ensures h'.Keys == h.Keys
    ensures h'[n] == h[n].(prev := Some(p), next := Some(q))
    ensures h'[p] == h[p].(next := Some(n)) && h'[q] == h[q].(prev := Some(n))
    ensures forall x | x in h && x != n && x != p && x != q :: h'[x] == h[x]
    ensures forall x | x in h' :: h'[x].data == h[x].data
  {
    h[n := h[n].(prev := Some(p), next := Some(q))][p := h[p].(next := Some(n))][q := h[q].(prev := Some(n))]
  }

  /** The heap after b_list_delete's relinking of both neighbours of `n`
      and the release of `n`. */
  function Unlink<T>(h: Heap<T>, n: Ref): (h': Heap<T>)
    requires n in h
    requires h[n].prev.Some? ==> h[n].prev.value in h && h[n].prev.value != n
    requires h[n].next.Some? ==> h[n].next.value in h && h[n].next.value != n
    requires h[n].prev.Some? && h[n].next.Some? ==> h[n].prev.value != h[n].next.value
    ensures h'.Keys == h.Keys - {n}
    ensures h[n].prev.Some? ==> h'[h[n].prev.value] == h[h[n].prev.value].(next := h[n].next)
    ensures h[n].next.Some? ==> h'[h[n].next.value] == h[h[n].next.value].(prev := h[n].prev)
    ensures forall x | x in h' && h[n].prev != Some(x) && h[n].next != Some(x) :: h'[x] == h[x]
    ensures forall x | x in h' :: h'[x].data == h[x].data
  {
    var p, q := h[n].prev, h[n].next;
    var h1 := if p.Some? then SetNext(h, p.value, q) else h;
    var h2 := if q.Some? && q.value in h1 then SetPrev(h1, q.value, p) else h1;
    h2 - {n}
  }

  /** b_list_delete: unlink a member node, hand its payload to the bound
      destructor once, and release the node. */
  function Delete<T>(h: Heap<T>, ol: Option<List>, on: Option<Ref>, ghost ns: seq<Ref>): (r: Removal<T>)
    requires ol.Some? ==> Valid(h, ol.value, ns)
    requires ol.Some? && on.Some? ==> on.value in ns
    ensures ol.None? || on.None? ==> r == Removal(h, ol, [])
    ensures ol.Some? && on.Some? ==>
      var k := IndexOf(ns, on.value);
      && r.list.Some?
      && Valid(r.heap, r.list.value, ns[..k] + ns[k + 1..])
      && r.list.value.destructor == ol.value.destructor
      && r.destructed == (if ol.value.destructor then [h[on.value].data] else [])
      && r.heap.Keys == h.Keys - {on.value} && Frame(h, r.heap, ns)
  {
    if ol.None? || on.None? then Removal(h, ol, [])
    else DeleteMember(h, ol.value, on.value, ns, IndexOf(ns, on.value))
  }

  /** b_list_delete on a member node: the node at position k. */
  function DeleteMember<T>(h: Heap<T>, l: List, n: Ref, ghost ns: seq<Ref>, ghost k: nat): (r: Removal<T>)
    requires Valid(h, l, ns) && k < |ns| && ns[k] == n
    ensures r.list.Some?
    ensures Valid(r.heap, r.list.value, ns[..k] + ns[k + 1..])
    ensures r.list.value.destructor == l.destructor
    ensures r.destructed == (if l.destructor then [h[n].data] else [])
    ensures r.heap.Keys == h.Keys - {n} && Frame(h, r.heap, ns)
  {
    assert h[ns[k]].prev == PrevOf(ns, k) && h[ns[k]].next == NextOf(ns, k);
    NeighboursDistinct(h, ns, k);
    var p, q := h[n].prev, h[n].next;
    var head := if p.Some? then l.head else q;
    var tail := if q.Some? then l.tail else p;
    UnlinkLinked(h, Unlink(h, n), ns, k);
    UnlinkFrame(h, Unlink(h, n), ns, k);
    Removal(Unlink(h, n), Some(l.(head := head, tail := tail, size := l.size - 1)),
            if l.destructor then [h[n].data] else [])
  }


  /** b_list_delete_at as written: an index in [0, size) is removed, the ends
      through b_list_delete, a middle node by relinking its neighbours and
      releasing it without handing its payload to the destructor. Any other
      index, or a NULL list, changes nothing. */
  function DeleteAt<T>(h: Heap<T>, ol: Option<List>, index: int, ghost ns: seq<Ref>): (r: Removal<T>)
    requires ol.Some? ==> Valid(h, ol.value, ns)
    ensures ol.None? || index < 0 || index >= |ns| ==> r == Removal(h, ol, [])
    ensures ol.Some? && 0 <= index < |ns| ==>
      && r.list.Some?
      && Valid(r.heap, r.list.value, ns[..index] + ns[index + 1..])
      && r.list.value.destructor == ol.value.destructor
      && r.destructed == (if ol.value.destructor && (index == 0 || index == |ns| - 1) then [h[ns[index]].data] else [])
      && r.heap.Keys == h.Keys - {ns[index]} && Frame(h, r.heap, ns)
  {
    if ol.None? || index < 0 || index >= ol.value.size then Removal(h, ol, [])
    else
      var l := ol.value;
      if index == 0 then DeleteMember(h, l, l.head.value, ns, 0)
      else if index == l.size - 1 then DeleteMember(h, l, l.tail.value, ns, index)
      else
        var n := Walk(h, l.head.value, index, ns, 0);
        assert h[ns[index]].prev == PrevOf(ns, index) && h[ns[index]].next == NextOf(ns, index);
        NeighboursDistinct(h, ns, index);
        UnlinkLinked(h, Unlink(h, n), ns, index);
        UnlinkFrame(h, Unlink(h, n), ns, index);
        Removal(Unlink(h, n), Some(l.(size := l.size - 1)), [])
  }

  /** b_list_delete_at with the payload of every removed node, the middle
      ones included, handed to the bound destructor. */
  function DeleteAtReleasing<T>(h: Heap<T>, ol: Option<List>, index: int, ghost ns: seq<Ref>): (r: Removal<T>)
    requires ol.Some? ==> Valid(h, ol.value, ns)
    ensures ol.None? || index < 0 || index >= |ns| ==> r == Removal(h, ol, [])
    ensures ol.Some? && 0 <= index < |ns| ==>
      && r.list.Some?
      && Valid(r.heap, r.list.value, ns[..index] + ns[index + 1..])
      && r.list.value.destructor == ol.value.destructor
      && r.destructed == (if ol.value.destructor then [h[ns[index]].data] else [])
      && r.heap.Keys == h.Keys - {ns[index]} && Frame(h, r.heap, ns)
  {
    if ol.None? || index < 0 || index >= ol.value.size then Removal(h, ol, [])
    else DeleteMember(h, ol.value, Walk(h, ol.value.head.value, index, ns, 0), ns, index)
  }

  /** With a destructor bound, every payload the list held before a removal
      is afterwards either still held or was handed to the destructor. */
  ghost predicate Conserved<T>(h: Heap<T>, ns: seq<Ref>, r: Removal<T>, ns': seq<Ref>)
    requires forall x | x in ns :: x in h
    requires forall x | x in ns' :: x in r.heap
  {
    multiset(Contents(h, ns)) == multiset(Contents(r.heap, ns')) + multiset(r.destructed)
  }

  /** The payloads of a chain with one node removed. */
  lemma ContentsRemoved<T>(h: Heap<T>, h': Heap<T>, ns: seq<Ref>, k: nat)
    requires k < |ns|
    requires forall x | x in ns :: x in h
    requires forall i | 0 <= i < |ns| && i != k :: ns[i] in h' && h'[ns[i]].data == h[ns[i]].data
    ensures Contents(h, ns) == Contents(h', ns[..k]) + [h[ns[k]].data] + Contents(h', ns[k + 1..])
  {
    var a, b := Contents(h', ns[..k]), Contents(h', ns[k + 1..]);
    var c := a + [h[ns[k]].data] + b;
    forall i | 0 <= i < |ns| ensures Contents(h, ns)[i] == c[i] {
      if i < k {
        assert c[i] == a[i];
      } else if i > k {
        assert c[i] == b[i - k - 1];
      }
    }
  }

  /** Removing the k-th node of a chain moves its payload, and only it, out
      of the chain's contents. */
  lemma RemovalConserves<T>(h: Heap<T>, h': Heap<T>, ns: seq<Ref>, k: nat)
    requires k < |ns|
    requires forall x | x in ns :: x in h
    requires forall i | 0 <= i < |ns| && i != k :: ns[i] in h' && h'[ns[i]].data == h[ns[i]].data
    ensures forall x | x in ns[..k] + ns[k + 1..] :: x in h'
    ensures multiset(Contents(h, ns)) == multiset(Contents(h', ns[..k] + ns[k + 1..])) + multiset{h[ns[k]].data}
  {
    var rest := ns[..k] + ns[k + 1..];
    forall i | 0 <= i < |rest| ensures rest[i] in h' {
      assert rest[i] == ns[if i < k then i else i + 1];
    }
    ContentsRemoved(h, h', ns, k);
    ContentsAppend(h', ns[..k], ns[k + 1..]);
    var a, b, d := Contents(h', ns[..k]), Contents(h', ns[k + 1..]), h[ns[k]].data;
    assert multiset(a + [d] + b) == multiset(a + b) + multiset{d};
  }

  /** The corrected removal conserves payloads; the removed node's payload
      is the one handed over. */
  lemma DeleteAtReleasingConserves<T>(h: Heap<T>, l: List, index: nat, ns: seq<Ref>)
    requires Valid(h, l, ns) && l.destructor && index < |ns|
    ensures var r := DeleteAtReleasing(h, Some(l), index, ns);
      Conserved(h, ns, r, ns[..index] + ns[index + 1..])
  {
    var r := DeleteAtReleasing(h, Some(l), index, ns);
    var rest := ns[..index] + ns[index + 1..];
    forall i | 0 <= i < |ns| && i != index ensures ns[i] in r.heap && r.heap[ns[i]].data == h[ns[i]].data {
      assert ns[i] == rest[if i < index then i else i - 1];
    }
    RemovalConserves(h, r.heap, ns, index);
  }

  /** The middle branch of b_list_delete_at releases the node but neither
      keeps nor destructs its payload: with a destructor bound, the payload
      is lost. */
  lemma DeleteAtMiddleLeaks<T>(h: Heap<T>, l: List, index: nat, ns: seq<Ref>)
    requires Valid(h, l, ns) && l.destructor && 0 < index < |ns| - 1
    ensures var r := DeleteAt(h, Some(l), index, ns);
      && r.destructed == []
      && ns[index] !in r.heap
      && !Conserved(h, ns, r, ns[..index] + ns[index + 1..])
  {
    var r := DeleteAt(h, Some(l), index, ns);
    var rest := ns[..index] + ns[index + 1..];
    assert |multiset(Contents(h, ns))| == |ns|;
    assert |multiset(Contents(r.heap, rest))| == |ns| - 1;
  }

  /** A three-node list with a destructor bound, as a concrete witness. */
  lemma DeleteAtLeakExample()
    ensures var h := map[1 := Node(None, Some(2), 10), 2 := Node(Some(1), Some(3), 20), 3 := Node(Some(2), None, 30)];
      var l := List(Some(1), Some(3), 3, true);
      && Valid(h, l, [1, 2, 3])
      && DeleteAt(h, Some(l), 1, [1, 2, 3]).destructed == []
      && DeleteAtReleasing(h, Some(l), 1, [1, 2, 3]).destructed == [20]
  {
    var h := map[1 := Node(None, Some(2), 10), 2 := Node(Some(1), Some(3), 20), 3 := Node(Some(2), None, 30)];
    var ns: seq<Ref> := [1, 2, 3];
    assert Linked(h, ns) by {
      forall i | 0 <= i < |ns| ensures h[ns[i]].prev == PrevOf(ns, i) && h[ns[i]].next == NextOf(ns, i) {
        assert i == 0 || i == 1 || i == 2;
      }
    }
  }

  /** The heap after b_free_list has released the first i nodes of the
      chain `ns`: those are gone, and every other node is as it was. */
  ghost predicate Released<T>(h: Heap<T>, h': Heap<T>, ns: seq<Ref>, i: nat)
  {
    && i <= |ns|
    && (forall j | i <= j < |ns| :: ns[j] in h')
    && (forall j | 0 <= j < i :: ns[j] !in h')
    && (forall x | x in h && x !in ns :: x in h')
    && (forall x | x in h' :: x in h && h'[x] == h[x])
  }

  lemma ReleaseStart<T>(h: Heap<T>, ns: seq<Ref>)
    requires Linked(h, ns)
    ensures Released(h, h, ns, 0)
  {
  }

  /** Releasing the i-th node of the chain. */
  lemma ReleaseStep<T>(h: Heap<T>, h': Heap<T>, ns: seq<Ref>, i: nat)
    requires Linked(h, ns) && Released(h, h', ns, i) && i < |ns|
    ensures ns[i] in h' && h'[ns[i]] == h[ns[i]]
    ensures Released(h, h' - {ns[i]}, ns, i + 1)
  {
    var n := ns[i];
    var g := h' - {n};
    forall j | i < j < |ns| ensures ns[j] in g {
      LinkedInjective(h, ns, i, j);
    }
    forall j | 0 <= j < i + 1 ensures ns[j] !in g {
    }
    forall x | x in h && x !in ns ensures x in g {
      assert n in ns;
    }
    forall x | x in g ensures x in h && g[x] == h[x] {
    }
  }

  /** Once every node of the chain is released, exactly the chain is gone. */
  lemma ReleaseDone<T>(h: Heap<T>, h': Heap<T>, ns: seq<Ref>)
    requires Released(h, h', ns, |ns|)
    ensures forall x | x in h :: x in h' <==> x !in ns
    ensures forall x | x in h' :: x in h && h'[x] == h[x]
  {
    forall x | x in h && x in ns ensures x !in h' {
      var j :| 0 <= j < |ns| && ns[j] == x;
    }
  }

  /** Extending a prefix of `c` by one entry appends the next entry. */
  lemma DestructedStep<T>(c: seq<T>, i: nat)
    requires i < |c|
    ensures c[..i + 1] == c[..i] + [c[i]]
  {
  }

  /** b_free_list: walk from head, hand each payload to the bound destructor
      and release each node; a NULL list does nothing. */
  method FreeList<T>(h: Heap<T>, ol: Option<List>, ghost ns: seq<Ref>) returns (h': Heap<T>, destructed: seq<T>)
    requires ol.Some? ==> Valid(h, ol.value, ns)
    ensures ol.None? ==> h' == h && destructed == []
    ensures ol.Some? ==> forall x | x in h :: x in h' <==> x !in ns
    ensures forall x | x in h' :: x in h && h'[x] == h[x]
    ensures ol.Some? ==> destructed == if ol.value.destructor then Contents(h, ns) else []
  {
    h', destructed := h, [];
    if ol.None? {
      return;
    }
    var l := ol.value;
    ghost var c := Contents(h, ns);
    var node := l.head;
    ghost var i := 0;
    ReleaseStart(h, ns);
    while node.Some?
      invariant Released(h, h', ns, i)
      invariant node == if i < |ns| then Some(ns[i]) else None
      invariant destructed == if l.destructor then c[..i] else []
      decreases |ns| - i
    {
      var n := node.value;
      ReleaseStep(h, h', ns, i);
      if l.destructor {
        DestructedStep(c, i);
        destructed := destructed + [h'[n].data];
      }
      node := h'[n].next;
      h' := h' - {n};
      i := i + 1;
    }
    ReleaseDone(h, h', ns);
    assert c[..|ns|] == c;
  }

  /** After linking `n` into a chain and unlinking it again, the chain's
      list record and nodes are those before, and `n` is released. */
  lemma RemoveInsertedRestores<T>(h: Heap<T>, l: List, n: Ref, ns: seq<Ref>, ns': seq<Ref>, h1: Heap<T>, h2: Heap<T>, l2: List)
    requires Valid(h, l, ns) && n in h && n !in ns
    requires forall x | x in ns' :: x == n || x in ns
    requires h1.Keys == h.Keys && Frame(h, h1, [n] + ns)
    requires Valid(h2, l2, ns) && l2.destructor == l.destructor
    requires h2.Keys == h1.Keys - {n} && Frame(h1, h2, ns')
    ensures l2 == l && h2 == h - {n}
  {
    var h0 := h - {n};
    LinkedFrame(h, h0, ns);
    forall x | x in h2 && x !in ns ensures h2[x] == h0[x] {
      assert x !in [n] + ns && x !in ns';
    }
    SameChainSameHeap(h2, h0, ns);
  }

  /** b_list_lpop undoes b_list_lpush: the node comes back detached and the
      list record and every other node are as before. */
  lemma {:induction false} LPushThenLPop<T>(h: Heap<T>, l: List, n: Ref, ns: seq<Ref>)
    requires Valid(h, l, ns) && n in h && n !in ns
    ensures var u := LPush(h, Some(l), Some(n), ns);
      var v := LPop(u.heap, u.list, [n] + ns);
      && v.node == Some(n) && v.list == Some(l)
      && v.heap == h[n := h[n].(prev := None, next := None)]
  {
    var u := LPush(h, Some(l), Some(n), ns);
    var v := LPop(u.heap, u.list, [n] + ns);
    var h1 := h[n := h[n].(prev := None, next := None)];
    LinkedFrame(h, h1, ns);
    assert ([n] + ns)[1..] == ns;
    SameChainSameHeap(v.heap, h1, ns);
  }

  /** b_list_rpop undoes b_list_rpush. */
  lemma {:induction false} RPushThenRPop<T>(h: Heap<T>, l: List, n: Ref, ns: seq<Ref>)
    requires Valid(h, l, ns) && n in h && n !in ns
    ensures var u := RPush(h, Some(l), Some(n), ns);
      var v := RPop(u.heap, u.list, ns + [n]);
      && v.node == Some(n) && v.list == Some(l)
      && v.heap == h[n := h[n].(prev := None, next := None)]
  {
    var u := RPush(h, Some(l), Some(n), ns);
    var v := RPop(u.heap, u.list, ns + [n]);
    var h1 := h[n := h[n].(prev := None, next := None)];
    LinkedFrame(h, h1, ns);
    assert (ns + [n])[..|ns|] == ns;
    SameChainSameHeap(v.heap, h1, ns);
  }

  /** Deleting, with b_list_delete_at as written, the node just inserted at
      `index` restores the list record and every other node and releases
      the inserted node; its payload reaches a bound destructor only when it
      sits at either end. */
  lemma {:induction false} InsertThenDeleteAt<T>(h: Heap<T>, l: List, n: Ref, index: nat, ns: seq<Ref>)
    requires Valid(h, l, ns) && n in h && n !in ns && index <= |ns|
    ensures var u := Insert(h, Some(l), Some(n), index, ns);
      var v := DeleteAt(u.heap, u.list, index, ns[..index] + [n] + ns[index..]);
      && v.list == Some(l)
      && v.heap == h - {n}
      && v.destructed == if l.destructor && (index == 0 || index == |ns|) then [h[n].data] else []
  {
    var ns' := ns[..index] + [n] + ns[index..];
    var u := Insert(h, Some(l), Some(n), index, ns);
    var v := DeleteAt(u.heap, u.list, index, ns');
    RemoveInserted(ns, n, index);
    RemoveInsertedRestores(h, l, n, ns, ns', u.heap, v.heap, v.list.value);
  }

  /** Deleting, with the corrected b_list_delete_at, the node just inserted
      at `index` restores the list record and every other node, releases the
      inserted node and hands its payload to a bound destructor. */
  lemma {:induction false} InsertThenDeleteAtReleasing<T>(h: Heap<T>, l: List, n: Ref, index: nat, ns: seq<Ref>)
    requires Valid(h, l, ns) && n in h && n !in ns && index <= |ns|
    ensures var u := Insert(h, Some(l), Some(n), index, ns);
      var v := DeleteAtReleasing(u.heap, u.list, index, ns[..index] + [n] + ns[index..]);
      && v.list == Some(l)
      && v.heap == h - {n}
      && v.destructed == if l.destructor then [h[n].data] else []
  {
    var ns' := ns[..index] + [n] + ns[index..];
    var u := Insert(h, Some(l), Some(n), index, ns);
    var v := DeleteAtReleasing(u.heap, u.list, index, ns');
    RemoveInserted(ns, n, index);
    RemoveInsertedRestores(h, l, n, ns, ns', u.heap, v.heap, v.list.value);
  }

  /** The node inserted at `index` is the one b_list_fetch finds there. */
  lemma InsertThenFetch<T>(h: Heap<T>, l: List, n: Ref, index: nat, ns: seq<Ref>)
    requires Valid(h, l, ns) && n in h && n !in ns && index <= |ns|
    ensures var u := Insert(h, Some(l), Some(n), index, ns);
      Fetch(u.heap, u.list, index, ns[..index] + [n] + ns[index..]) == Some(n)
  {
    assert (ns[..index] + [n] + ns[index..])[index] == n;
  }

  /** b_list_delete of the node b_list_fetch finds at `index` is the
      corrected b_list_delete_at of that index. */
  lemma DeleteFetched<T>(h: Heap<T>, l: List, index: nat, ns: seq<Ref>)
    requires Valid(h, l, ns) && index < |ns|
    ensures Delete(h, Some(l), Fetch(h, Some(l), index, ns), ns) == DeleteAtReleasing(h, Some(l), index, ns)
  {
    LinkedDistinct(h, ns);
    assert IndexOf(ns, ns[index]) == index;
  }

  /** At the first and the last index, b_list_delete_at as written is
      b_list_delete of the node there. */
  lemma DeleteAtEnds<T>(h: Heap<T>, l: List, index: nat, ns: seq<Ref>)
    requires Valid(h, l, ns) && (index == 0 || index + 1 == |ns|) && index < |ns|
    ensures DeleteAt(h, Some(l), index, ns) == Delete(h, Some(l), Some(ns[index]), ns)
  {
    LinkedDistinct(h, ns);
    assert IndexOf(ns, ns[index]) == index;
  }
}
