/** The node and list records of b_list.h, the heap they live in, and the
    list invariant that every operation keeps. */
module ListTypes {
  import opened Wrappers

  /** The address of a node. */
  type Ref = nat

  /** b_list_node: the two neighbour links and the opaque payload. */
  datatype Node<T> = Node(prev: Option<Ref>, next: Option<Ref>, data: T)

  /** The nodes that are currently allocated, by address. Releasing a node
      removes its address. */
  type Heap<T> = map<Ref, Node<T>>

  /** b_list: head, tail, size and whether a payload destructor is bound. */
  datatype List = List(head: Option<Ref>, tail: Option<Ref>, size: nat, destructor: bool)

  function First(ns: seq<Ref>): Option<Ref>
  {
    if |ns| == 0 then None else Some(ns[0])
  }

  function Last(ns: seq<Ref>): Option<Ref>
  {
    if |ns| == 0 then None else Some(ns[|ns| - 1])
  }

  /** The neighbours the chain `ns` prescribes for its i-th node. */
  function PrevOf(ns: seq<Ref>, i: nat): Option<Ref>
    requires i < |ns|
  {
    if i == 0 then None else Some(ns[i - 1])
  }

  function NextOf(ns: seq<Ref>, i: nat): Option<Ref>
    requires i < |ns|
  {
    if i == |ns| - 1 then None else Some(ns[i + 1])
  }

  ghost predicate Distinct<X>(s: seq<X>)
  {
    forall i, j | 0 <= i < j < |s| :: s[i] != s[j]
  }

  /** The first position of `x` in `s`. */
  function IndexOf(s: seq<Ref>, x: Ref): (k: nat)
    requires x in s
    ensures k < |s| && s[k] == x
    ensures forall j | 0 <= j < k :: s[j] != x
  {
    if s[0] == x then 0 else 1 + IndexOf(s[1..], x)
  }

  /** `ns` is a detached, doubly linked chain in `h`: every node is
      allocated, its `prev` is its predecessor in `ns` (none for the first)
      and its `next` is its successor (none for the last). No node can occur
      twice in such a chain (LinkedInjective). */
  ghost predicate Linked<T>(h: Heap<T>, ns: seq<Ref>)
  {
    && (forall i | 0 <= i < |ns| :: ns[i] in h)
    && (forall i {:trigger h[ns[i]]} | 0 <= i < |ns| :: h[ns[i]].prev == PrevOf(ns, i))
    && (forall i {:trigger h[ns[i]]} | 0 <= i < |ns| :: h[ns[i]].next == NextOf(ns, i))
  }

  /** The `prev` links rule out repetitions: walking back from two equal
      entries would reach the head (whose `prev` is NULL) from one of them
      while the other still has a predecessor. */
  lemma {:induction false} LinkedInjective<T>(h: Heap<T>, ns: seq<Ref>, i: nat, j: nat)
    requires Linked(h, ns) && i < j < |ns|
    ensures ns[i] != ns[j]
    decreases i
  {
    assert h[ns[i]].prev == PrevOf(ns, i) && h[ns[j]].prev == PrevOf(ns, j);
    if i > 0 {
      LinkedInjective(h, ns, i - 1, j - 1);
    }
  }

  lemma LinkedDistinct<T>(h: Heap<T>, ns: seq<Ref>)
    requires Linked(h, ns)
    ensures Distinct(ns)
  {
    forall i, j | 0 <= i < j < |ns| ensures ns[i] != ns[j] {
      LinkedInjective(h, ns, i, j);
    }
  }

  /** Linking is unaffected by changes to nodes outside the chain. */
  lemma LinkedFrame<T>(h: Heap<T>, h': Heap<T>, ns: seq<Ref>)
    requires Linked(h, ns)
    requires forall i | 0 <= i < |ns| :: ns[i] in h' && h'[ns[i]] == h[ns[i]]
    ensures Linked(h', ns)
  {
    forall i | 0 <= i < |ns| ensures h'[ns[i]].prev == PrevOf(ns, i) && h'[ns[i]].next == NextOf(ns, i) {
      assert h'[ns[i]] == h[ns[i]];
    }
  }

  /** The list invariant: `l` holds exactly the chain `ns`, head first. */
  ghost predicate Valid<T>(h: Heap<T>, l: List, ns: seq<Ref>)
  {
    && Linked(h, ns)
    && l.size == |ns|
    && l.head == First(ns)
    && l.tail == Last(ns)
  }

  /** Nothing outside `touched` changes, no node is allocated, and no payload
      changes: the operations only relink nodes. */
  ghost predicate Frame<T>(h: Heap<T>, h': Heap<T>, touched: seq<Ref>)
  {
    && (forall x | x in h' :: x in h && h'[x].data == h[x].data)
    && (forall x | x in h && x !in touched :: x in h' && h'[x] == h[x])
  }

  /** The payloads of the chain `ns`, in order. */
  function Contents<T>(h: Heap<T>, ns: seq<Ref>): (r: seq<T>)
    requires forall x | x in ns :: x in h
    ensures |r| == |ns|
    ensures forall i {:trigger r[i]} | 0 <= i < |ns| :: r[i] == h[ns[i]].data
  {
    seq(|ns|, i requires 0 <= i < |ns| => h[ns[i]].data)
  }

  /** Contents distributes over concatenation of chains. */
  lemma ContentsAppend<T>(h: Heap<T>, a: seq<Ref>, b: seq<Ref>)
    requires forall x | x in a :: x in h
    requires forall x | x in b :: x in h
    ensures Contents(h, a + b) == Contents(h, a) + Contents(h, b)
  {
    var c := Contents(h, a) + Contents(h, b);
    forall i | 0 <= i < |a + b| ensures Contents(h, a + b)[i] == c[i] {
      if i >= |a| { assert (a + b)[i] == b[i - |a|]; }
    }
  }

  /** The payload of every allocated node, by address. */
  function Payloads<T>(h: Heap<T>): (p: map<Ref, T>)
    ensures p.Keys == h.Keys
    ensures forall x | x in h :: p[x] == h[x].data
  {
    map x | x in h :: h[x].data
  }

  function SetNext<T>(h: Heap<T>, x: Ref, v: Option<Ref>): Heap<T>
    requires x in h
  {
    h[x := h[x].(next := v)]
  }

  function SetPrev<T>(h: Heap<T>, x: Ref, v: Option<Ref>): Heap<T>
    requires x in h
  {
    h[x := h[x].(prev := v)]
  }

  /** The index walks of fetch, insert, delete_at and the iterators: from
      the i-th node of a chain, following `k` `next` links reaches the
      (i+k)-th node. */
  function Walk<T>(h: Heap<T>, node: Ref, k: nat, ghost ns: seq<Ref>, ghost i: nat): (r: Ref)
    requires Linked(h, ns)
    requires i + k < |ns| && node == ns[i]
    ensures r == ns[i + k]
    decreases k
  {
    if k == 0 then node
    else
      assert h[ns[i]].next == Some(ns[i + 1]);
      Walk(h, h[node].next.value, k - 1, ns, i + 1)
  }

  /** The nodes reached by following `next` from `start`, at most `fuel` of them. */
  function Follow<T>(h: Heap<T>, start: Option<Ref>, fuel: nat): seq<Ref>
    decreases fuel
  {
    if fuel == 0 || start.None? || start.value !in h then []
    else [start.value] + Follow(h, h[start.value].next, fuel - 1)
  }

  /** Following `next` from the i-th node of a chain visits exactly the rest
      of the chain and then meets NULL, however much fuel remains. */
  lemma {:induction false} FollowChain<T>(h: Heap<T>, ns: seq<Ref>, i: nat, extra: nat)
    requires Linked(h, ns) && i <= |ns|
    ensures Follow(h, if i < |ns| then Some(ns[i]) else None, |ns| - i + extra) == ns[i..]
    decreases |ns| - i
  {
    if i < |ns| {
      FollowChain(h, ns, i + 1, extra);
      assert ns[i..] == [ns[i]] + ns[i + 1..];
    }
  }

  /** The C-level invariant stated on the b_list record: size is zero exactly
      when head and tail are NULL, the ends point outwards to NULL, every
      `next` link is mirrored by a `prev` link, and size is the number of
      nodes reachable from head. */
  lemma ValidIsListInvariant<T>(h: Heap<T>, l: List, ns: seq<Ref>)
    requires Valid(h, l, ns)
    ensures l.size == 0 <==> l.head.None?
    ensures l.size == 0 <==> l.tail.None?
    ensures l.head.Some? ==> l.head.value in h && h[l.head.value].prev.None?
    ensures l.tail.Some? ==> l.tail.value in h && h[l.tail.value].next.None?
    ensures forall x | x in ns && h[x].next.Some? ::
              h[x].next.value in h && h[h[x].next.value].prev == Some(x)
    ensures |Follow(h, l.head, l.size + 1)| == l.size
  {
    if |ns| > 0 {
      assert h[ns[0]].prev == None;
      assert h[ns[|ns| - 1]].next == None;
    }
    forall x | x in ns && h[x].next.Some?
      ensures h[x].next.value in h && h[h[x].next.value].prev == Some(x)
    {
      var i :| 0 <= i < |ns| && ns[i] == x;
      assert h[x].next == Some(ns[i + 1]);
    }
    FollowChain(h, ns, 0, 1);
  }

  /** Two heaps with the same addresses and payloads that agree outside a
      chain and both link that chain are the same heap: the chain fixes
      every link of its nodes. */
  lemma SameChainSameHeap<T>(h1: Heap<T>, h2: Heap<T>, ns: seq<Ref>)
    requires Linked(h1, ns) && Linked(h2, ns)
    requires h1.Keys == h2.Keys
    requires forall x | x in h1 :: h1[x].data == h2[x].data
    requires forall x | x in h1 && x !in ns :: h1[x] == h2[x]
    ensures h1 == h2
  {
    forall x | x in h1 ensures h1[x] == h2[x] {
      if x in ns {
        var i :| 0 <= i < |ns| && ns[i] == x;
        assert h1[ns[i]].prev == h2[ns[i]].prev && h1[ns[i]].next == h2[ns[i]].next;
      }
    }
  }
}
