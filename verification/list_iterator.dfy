/** The iterators of b_list.c: a cursor on a node and a direction. Creating
    one from a list, a node or an index, and advancing it one node at a
    time, head to tail for `Begin` and tail to head for `End`. */
module ListIterator {
  import opened Wrappers
  import opened ListTypes

  /** b_list_iterator_direction. */
  datatype Direction = Begin | End

  /** b_list_iterator: the node the next call yields (NULL when exhausted)
      and the direction of travel. */
  datatype Iterator = Iterator(next: Option<Ref>, direction: Direction)

  /** The link an iterator follows out of `n`. */
  function Step<T>(h: Heap<T>, n: Ref, d: Direction): Option<Ref>
    requires n in h
  {
    if d == Begin then h[n].next else h[n].prev
  }

  /** `s` reversed. */
  function Reverse<X>(s: seq<X>): (r: seq<X>)
    ensures |r| == |s|
    ensures forall i | 0 <= i < |s| :: r[i] == s[|s| - 1 - i]
  {
    seq(|s|, i requires 0 <= i < |s| => s[|s| - 1 - i])
  }

  /** Following direction `d` from each node of `os` reaches the next one,
      and from the last reaches NULL. */
  ghost predicate Ordered<T>(h: Heap<T>, os: seq<Ref>, d: Direction) {
    forall i | 0 <= i < |os| :: os[i] in h && Step(h, os[i], d) == NextOf(os, i)
  }

  /** A chain read forward is ordered for `Begin`. */
  lemma ForwardOrdered<T>(h: Heap<T>, ns: seq<Ref>)
    requires Linked(h, ns)
    ensures Ordered(h, ns, Begin)
  {
    forall i | 0 <= i < |ns| ensures ns[i] in h && Step(h, ns[i], Begin) == NextOf(ns, i) {
      assert h[ns[i]].next == NextOf(ns, i);
    }
  }

  /** A chain read backward is ordered for `End`. */
  lemma BackwardOrdered<T>(h: Heap<T>, ns: seq<Ref>)
    requires Linked(h, ns)
    ensures Ordered(h, Reverse(ns), End)
  {
    var rs := Reverse(ns);
    forall i | 0 <= i < |rs| ensures rs[i] in h && Step(h, rs[i], End) == NextOf(rs, i) {
      var j := |ns| - 1 - i;
      assert rs[i] == ns[j];
      assert h[ns[j]].prev == PrevOf(ns, j);
      if i < |rs| - 1 {
        assert rs[i + 1] == ns[j - 1];
      }
    }
  }

  /** b_new_list_iterator: from the head for `Begin`, from the tail for
      `End`; NULL for a NULL list. */
  function NewIterator<T>(h: Heap<T>, ol: Option<List>, d: Direction, ghost ns: seq<Ref>): (r: Option<Iterator>)
    requires ol.Some? ==> Valid(h, ol.value, ns)
    ensures ol.None? <==> r.None?
    ensures r.Some? ==> r.value.direction == d
    ensures r.Some? && d == Begin ==> r.value.next == First(ns)
    ensures r.Some? && d == End ==> r.value.next == First(Reverse(ns))
  {
    if ol.None? then None
    else
      assert |ns| > 0 ==> Reverse(ns)[0] == ns[|ns| - 1];
      Some(Iterator(if d == Begin then ol.value.head else ol.value.tail, d))
  }

  /** b_new_list_iterator_from_node: start at the given node; NULL for a
      NULL node. */
  function FromNode(on: Option<Ref>, d: Direction): (r: Option<Iterator>)
    ensures on.None? <==> r.None?
    ensures r.Some? ==> r.value.next == on && r.value.direction == d
  {
    if on.None? then None else Some(Iterator(on, d))
  }

  /** b_new_list_iterator_from_index: start at the node at a 0-based index
      in [0, size); NULL for any other index or a NULL list. The branch for
      `index == size` is kept although the guard before it excludes it. */
  function FromIndex<T>(h: Heap<T>, ol: Option<List>, index: int, d: Direction, ghost ns: seq<Ref>): (r: Option<Iterator>)
    requires ol.Some? ==> Valid(h, ol.value, ns)
    ensures r.Some? <==> ol.Some? && 0 <= index < |ns|
    ensures r.Some? ==> r.value.next == Some(ns[index]) && r.value.direction == d
  {
    if ol.None? then None
    else
      var l := ol.value;
      if index < 0 || index >= l.size then None
      else if index == l.size then Some(Iterator(l.tail, d))
      else Some(Iterator(Some(Walk(h, l.head.value, index, ns, 0)), d))
  }

  /** b_list_iterator_next: yield the current node and move along the
      direction's link. Calling it on an exhausted iterator dereferences
      NULL, so a non-NULL iterator must have a current node. */
  function Next<T>(h: Heap<T>, oit: Option<Iterator>): (r: (Option<Ref>, Option<Iterator>))
    requires oit.Some? ==> oit.value.next.Some? && oit.value.next.value in h
    ensures oit.None? ==> r == (None, None)
    ensures oit.Some? ==>
      && r.0 == oit.value.next
      && r.1 == Some(oit.value.(next := Step(h, oit.value.next.value, oit.value.direction)))
  {
    if oit.None? then (None, None)
    else
      var it := oit.value;
      var node := it.next.value;
      (Some(node), Some(it.(next := if it.direction == Begin then h[node].next else h[node].prev)))
  }

  /** On an ordered sequence, b_list_iterator_next at the k-th node yields
      that node and moves the cursor to the (k+1)-th, or to NULL after the
      last. */
  lemma NextInOrder<T>(h: Heap<T>, it: Iterator, os: seq<Ref>, k: nat)
    requires Ordered(h, os, it.direction) && k < |os| && it.next == Some(os[k])
    ensures var r := Next(h, Some(it));
      && r.0 == Some(os[k])
      && r.1 == Some(Iterator(if k + 1 < |os| then Some(os[k + 1]) else None, it.direction))
  {
    assert os[k] in h && Step(h, os[k], it.direction) == NextOf(os, k);
  }

  /** Call b_list_iterator_next until the iterator is exhausted, collecting
      the yielded nodes: the iterator at position i of an ordered sequence
      yields the rest of it. */
  method Drain<T>(h: Heap<T>, it: Iterator, ghost os: seq<Ref>, ghost i: nat) returns (visited: seq<Ref>)
    requires Ordered(h, os, it.direction) && i <= |os|
    requires it.next == if i < |os| then Some(os[i]) else None
    ensures visited == os[i..]
  {
    var cur := Some(it);
    visited := [];
    ghost var k := i;
    while cur.value.next.Some?
      invariant i <= k <= |os| && cur.Some? && cur.value.direction == it.direction
      invariant cur.value.next == if k < |os| then Some(os[k]) else None
      invariant visited == os[i..k]
      decreases |os| - k
    {
      NextInOrder(h, cur.value, os, k);
      var step := Next(h, cur);
      visited := visited + [step.0.value];
      cur := step.1;
      assert os[i..k + 1] == os[i..k] + [os[k]];
      k := k + 1;
    }
  }

  /** The i-th node seen from the tail, and the reversed prefix up to it. */
  lemma ReverseSuffix<X>(s: seq<X>, index: nat)
    requires index < |s|
    ensures Reverse(s)[|s| - 1 - index] == s[index]
    ensures Reverse(s)[|s| - 1 - index..] == Reverse(s[..index + 1])
  {
  }

  /** Iterating a whole list visits its nodes in order for `Begin` and in
      reverse order for `End`. */
  method Traverse<T>(h: Heap<T>, l: List, d: Direction, ghost ns: seq<Ref>) returns (visited: seq<Ref>)
    requires Valid(h, l, ns)
    ensures visited == if d == Begin then ns else Reverse(ns)
  {
    var it := NewIterator(h, Some(l), d, ns).value;
    if d == Begin {
      ForwardOrdered(h, ns);
      visited := Drain(h, it, ns, 0);
    } else {
      BackwardOrdered(h, ns);
      visited := Drain(h, it, Reverse(ns), 0);
    }
  }

  /** Iterating from the node at `index` visits the nodes from it to the
      tail for `Begin`, and from it back to the head for `End`. */
  method TraverseFrom<T>(h: Heap<T>, l: List, index: nat, d: Direction, ghost ns: seq<Ref>) returns (visited: seq<Ref>)
    requires Valid(h, l, ns) && index < |ns|
    ensures visited == if d == Begin then ns[index..] else Reverse(ns[..index + 1])
  {
    var it := FromIndex(h, Some(l), index, d, ns).value;
    if d == Begin {
      ForwardOrdered(h, ns);
      visited := Drain(h, it, ns, index);
    } else {
      BackwardOrdered(h, ns);
      ReverseSuffix(ns, index);
      visited := Drain(h, it, Reverse(ns), |ns| - 1 - index);
    }
  }

  /** Iterating from a node of a list visits the nodes from it to the tail
      for `Begin`, and from it back to the head for `End`. */
  method TraverseFromNode<T>(h: Heap<T>, l: List, n: Ref, d: Direction, ghost ns: seq<Ref>, ghost index: nat)
    returns (visited: seq<Ref>)
    requires Valid(h, l, ns) && index < |ns| && n == ns[index]
    ensures visited == if d == Begin then ns[index..] else Reverse(ns[..index + 1])
  {
    var it := FromNode(Some(n), d).value;
    if d == Begin {
      ForwardOrdered(h, ns);
      visited := Drain(h, it, ns, index);
    } else {
      BackwardOrdered(h, ns);
      ReverseSuffix(ns, index);
      visited := Drain(h, it, Reverse(ns), |ns| - 1 - index);
    }
  }
}
