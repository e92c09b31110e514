/** b_list_sort: a top-down merge sort that relinks the nodes of the list in
    place. Each level cuts the chain after its ceil(n/2)-th node (found with
    a slow and a fast pointer), sorts both halves and merges them; the
    result is proved to be the chain the reference merge sort of
    StableSort computes, with node payloads as keys. */
module ListSort {
  import opened Wrappers
  import opened ListTypes
  import StableSort

  /** In a sequence without repetitions every entry occurs exactly once. */
  lemma DistinctOnce<X>(s: seq<X>)
    requires Distinct(s)
    ensures forall x | x in s :: multiset(s)[x] == 1
  {
    forall x | x in s ensures multiset(s)[x] == 1 {
      var k :| 0 <= k < |s| && s[k] == x;
      assert s == s[..k] + [x] + s[k + 1..];
      forall i | 0 <= i < k ensures s[..k][i] != x {
        assert s[..k][i] == s[i];
      }
      assert x !in s[..k] && x !in s[k + 1..];
    }
  }

  /** A sequence whose entries occur once each has no repetitions. */
  lemma OnceDistinct<X>(s: seq<X>)
    requires forall x | x in s :: multiset(s)[x] == 1
    ensures Distinct(s)
  {
    forall i, j | 0 <= i < j < |s| ensures s[i] != s[j] {
      assert s == s[..j] + s[j..];
      assert multiset(s)[s[j]] == multiset(s[..j])[s[j]] + multiset(s[j..])[s[j]];
      assert s[j..][0] == s[j];
      assert s[..j][i] == s[i];
    }
  }

  /** The merge of two disjoint chains repeats no node. */
  lemma MergeDistinct<T, K>(h: Heap<T>, a: seq<Ref>, b: seq<Ref>, key: map<Ref, K>, cmp: (K, K) -> int)
    requires Linked(h, a) && Linked(h, b)
    requires forall x | x in a :: x !in b
    ensures Distinct(StableSort.Merge(a, b, key, cmp))
  {
    var m := StableSort.Merge(a, b, key, cmp);
    StableSort.MergePermutation(a, b, key, cmp);
    LinkedDistinct(h, a);
    LinkedDistinct(h, b);
    DistinctOnce(a);
    DistinctOnce(b);
    forall x | x in m ensures multiset(m)[x] == 1 {
      assert x in multiset(m);
      if x in a {
        assert multiset(b)[x] == 0;
      } else {
        assert multiset(a)[x] == 0;
      }
    }
    OnceDistinct(m);
  }

  /** `pos` gives the position of every entry of `m`, so no entry occurs
      twice. */
  ghost predicate Numbered(m: seq<Ref>, pos: map<Ref, nat>)
  {
    forall k | 0 <= k < |m| :: m[k] in pos && pos[m[k]] == k
  }

  /** Every entry of `m` mapped to its position. */
  ghost function Positions(m: seq<Ref>): map<Ref, nat>
  {
    map x | x in m :: IndexOf(m, x)
  }

  /** The merge of two disjoint chains is numbered by its positions. */
  lemma MergeNumbered<T, K>(h: Heap<T>, a: seq<Ref>, b: seq<Ref>, key: map<Ref, K>, cmp: (K, K) -> int)
    requires Linked(h, a) && Linked(h, b)
    requires forall x | x in a :: x !in b
    ensures var m := StableSort.Merge(a, b, key, cmp); Numbered(m, Positions(m))
  {
    var m := StableSort.Merge(a, b, key, cmp);
    MergeDistinct(h, a, b, key, cmp);
    forall k | 0 <= k < |m| ensures m[k] in Positions(m) && Positions(m)[m[k]] == k {
      var k' := IndexOf(m, m[k]);
      assert m[k'] == m[k];
    }
  }

  /** One step of merge's output loops: the node `last` written last (NULL
      for the on-stack sentinel) links to `x`, and `x` links back to it. */
  function Attach<T>(h: Heap<T>, last: Option<Ref>, x: Ref): (h': Heap<T>)
    requires x in h && (last.Some? ==> last.value in h)
    ensures h'.Keys == h.Keys
    ensures forall y {:trigger h'[y]} | y in h' :: h'[y].data == h[y].data
    ensures last != Some(x) ==> h'[x] == h[x].(prev := last)
    ensures last.Some? && last.value != x ==> h'[last.value] == h[last.value].(next := Some(x))
    ensures forall y {:trigger h'[y]} | y in h && y != x && Some(y) != last :: h'[y] == h[y]
  {
    var h1 := if last.Some? then SetNext(h, last.value, Some(x)) else h;
    SetPrev(h1, x, last)
  }

  /** The node written before position t of the output (NULL at the start). */
  function Before(m: seq<Ref>, t: nat): Option<Ref>
    requires t <= |m|
  {
    if t == 0 then None else Some(m[t - 1])
  }

  /** The nodes of a merge are those of its runs. */
  lemma MergeMembers<X, K>(a: seq<X>, b: seq<X>, key: map<X, K>, cmp: (K, K) -> int)
    ensures forall x | x in StableSort.Merge(a, b, key, cmp) :: x in a || x in b
  {
    var m := StableSort.Merge(a, b, key, cmp);
    StableSort.MergePermutation(a, b, key, cmp);
    forall x | x in m ensures x in a || x in b {
      assert x in multiset(m);
    }
  }

  lemma MergeLength<X, K>(a: seq<X>, b: seq<X>, key: map<X, K>, cmp: (K, K) -> int)
    ensures |StableSort.Merge(a, b, key, cmp)| == |a| + |b|
  {
    StableSort.MergePermutation(a, b, key, cmp);
    assert |multiset(StableSort.Merge(a, b, key, cmp))| == |multiset(a)| + |multiset(b)|;
  }

  /** The k-th output node once merge has written t nodes: the nodes before
      the t-th are linked both ways, the t-th links back but keeps its old
      `next`, and the rest are untouched. */
  function Rewired<T>(n: Node<T>, m: seq<Ref>, k: nat, t: nat): Node<T>
    requires k < |m|
  {
    if k + 1 < t then n.(prev := PrevOf(m, k), next := NextOf(m, k))
    else if k + 1 == t then n.(prev := PrevOf(m, k))
    else n
  }

  /** The heap once merge has written the first t nodes of the output `m`,
      numbered by `pos`, each linked after the one written before it. */
  ghost function Relinked<T>(h0: Heap<T>, m: seq<Ref>, pos: map<Ref, nat>, t: nat): (h: Heap<T>)
    ensures h.Keys == h0.Keys
    ensures forall x {:trigger h[x]} | x in h :: h[x].data == h0[x].data
  {
    map x | x in h0 :: if x in pos && pos[x] < |m| && m[pos[x]] == x then Rewired(h0[x], m, pos[x], t) else h0[x]
  }

  /** Before the first node is written nothing is relinked. */
  lemma RelinkedStart<T>(h0: Heap<T>, m: seq<Ref>, pos: map<Ref, nat>)
    ensures Relinked(h0, m, pos, 0) == h0
  {
    var h := Relinked(h0, m, pos, 0);
    forall x | x in h0 ensures h[x] == h0[x] {
    }
  }

  /** Writing the t-th output node, node by node. */
  lemma RelinkedStepAt<T>(h0: Heap<T>, m: seq<Ref>, pos: map<Ref, nat>, t: nat, x: Ref)
    requires t < |m| && Numbered(m, pos) && m[t] in h0 && (t > 0 ==> m[t - 1] in h0) && x in h0
    ensures Attach(Relinked(h0, m, pos, t), Before(m, t), m[t])[x] == Relinked(h0, m, pos, t + 1)[x]
  {
    assert pos[m[t]] == t;
    if t > 0 {
      assert pos[m[t - 1]] == t - 1;
    }
    if x in pos && pos[x] < |m| && m[pos[x]] == x {
      var k := pos[x];
      assert k == t || (t > 0 && k == t - 1) || (x != m[t] && (t == 0 || x != m[t - 1]));
    }
  }

  /** Writing the t-th output node after the one written before it gives
      the heap with t + 1 nodes written. */
  lemma RelinkedStep<T>(h0: Heap<T>, m: seq<Ref>, pos: map<Ref, nat>, t: nat)
    requires t < |m| && Numbered(m, pos) && m[t] in h0 && (t > 0 ==> m[t - 1] in h0)
    ensures Attach(Relinked(h0, m, pos, t), Before(m, t), m[t]) == Relinked(h0, m, pos, t + 1)
  {
    var g, h' := Attach(Relinked(h0, m, pos, t), Before(m, t), m[t]), Relinked(h0, m, pos, t + 1);
    forall x | x in h0 ensures g[x] == h'[x] {
      RelinkedStepAt(h0, m, pos, t, x);
    }
    assert g.Keys == h'.Keys;
  }

  /** An output node once t nodes are written. */
  lemma RelinkedNode<T>(h0: Heap<T>, m: seq<Ref>, pos: map<Ref, nat>, t: nat, k: nat)
    requires k < |m| && m[k] in h0 && Numbered(m, pos)
    ensures m[k] in Relinked(h0, m, pos, t)
    ensures Relinked(h0, m, pos, t)[m[k]] == Rewired(h0[m[k]], m, k, t)
  {
    assert pos[m[k]] == k;
  }

  /** Once all of `m` is written and its last node was the end of its run,
      `m` is a chain. */
  lemma RelinkedLinked<T>(h0: Heap<T>, m: seq<Ref>, pos: map<Ref, nat>)
    requires |m| > 0 && (forall k | 0 <= k < |m| :: m[k] in h0) && Numbered(m, pos)
    requires h0[m[|m| - 1]].next.None?
    ensures Linked(Relinked(h0, m, pos, |m|), m)
  {
    var h := Relinked(h0, m, pos, |m|);
    forall k | 0 <= k < |m| ensures m[k] in h && h[m[k]].prev == PrevOf(m, k) && h[m[k]].next == NextOf(m, k) {
      RelinkedNode(h0, m, pos, |m|, k);
    }
  }

  /** Merge writes no node outside its output. */
  lemma RelinkedFrame<T>(h0: Heap<T>, m: seq<Ref>, pos: map<Ref, nat>, t: nat)
    ensures Frame(h0, Relinked(h0, m, pos, t), m)
  {
    var h := Relinked(h0, m, pos, t);
    forall x | x in h0 && x !in m ensures x in h && h[x] == h0[x] {
      if x in pos && pos[x] < |m| && m[pos[x]] == x {
        assert false;
      }
    }
  }

  /** Where both runs have nodes left, the merge continues with the head
      of the left run if it may precede the head of the right run, and with
      the head of the right run otherwise. */
  lemma MergeAdvance<X, K>(a: seq<X>, b: seq<X>, key: map<X, K>, cmp: (K, K) -> int, m: seq<X>, i: nat, j: nat)
    requires i < |a| && j < |b| && i + j <= |m| && m[i + j..] == StableSort.Merge(a[i..], b[j..], key, cmp)
    ensures i + j < |m|
    ensures StableSort.Le(key, cmp, a[i], b[j]) ==>
      m[i + j] == a[i] && m[i + j + 1..] == StableSort.Merge(a[i + 1..], b[j..], key, cmp)
    ensures !StableSort.Le(key, cmp, a[i], b[j]) ==>
      m[i + j] == b[j] && m[i + j + 1..] == StableSort.Merge(a[i..], b[j + 1..], key, cmp)
  {
    var t := i + j;
    assert a[i..][0] == a[i] && b[j..][0] == b[j];
    assert a[i..][1..] == a[i + 1..] && b[j..][1..] == b[j + 1..];
    assert m[t..][0] == m[t] && m[t..][1..] == m[t + 1..];
  }

  /** Where one run is used up, the merge is the rest of the other. */
  lemma MergeRest<X, K>(a: seq<X>, b: seq<X>, key: map<X, K>, cmp: (K, K) -> int, m: seq<X>, i: nat, j: nat)
    requires i <= |a| && j <= |b| && (i == |a| || j == |b|) && i + j <= |m|
    requires m[i + j..] == StableSort.Merge(a[i..], b[j..], key, cmp)
    ensures i == |a| ==> m[i + j..] == b[j..]
    ensures j == |b| ==> m[i + j..] == a[i..]
  {
  }

  /** Stepping along a common suffix. */
  lemma SuffixAdvance<X>(m: seq<X>, t: nat, src: seq<X>, p: nat)
    requires t <= |m| && p < |src| && m[t..] == src[p..]
    ensures t < |m| && m[t] == src[p] && m[t + 1..] == src[p + 1..]
  {
    assert m[t..][0] == src[p..][0];
    assert m[t..][1..] == src[p..][1..];
  }

  /** The state of merge's first loop after it has taken i nodes from the
      run `a` and j from the run `b`: `left` and `right` are the heads of
      what is left of them, the output `m` from position i + j on is their
      merge, `last` is the node written last and `start` the first, and the
      heap is the one with the first i + j output nodes written. */
  ghost predicate Interleaved<T>(h0: Heap<T>, h: Heap<T>, cmp: (T, T) -> int,
                                 a: seq<Ref>, b: seq<Ref>, m: seq<Ref>, pos: map<Ref, nat>, i: nat, j: nat,
                                 left: Option<Ref>, right: Option<Ref>, last: Option<Ref>, start: Option<Ref>)
  {
    && Linked(h0, a) && Linked(h0, b) && |m| == |a| + |b|
    && Numbered(m, pos) && (forall k | 0 <= k < |m| :: m[k] in h0)
    && i <= |a| && j <= |b| && (i < |a| || j < |b|)
    && left == (if i < |a| then Some(a[i]) else None)
    && right == (if j < |b| then Some(b[j]) else None)
    && m[i + j..] == StableSort.Merge(a[i..], b[j..], Payloads(h0), cmp)
    && last == Before(m, i + j)
    && (i + j > 0 ==> start == Some(m[0]))
    && h == Relinked(h0, m, pos, i + j)
  }

  /** The first loop starts from the heads of both runs with nothing written. */
  lemma InterleavedStart<T>(h0: Heap<T>, cmp: (T, T) -> int, a: seq<Ref>, b: seq<Ref>, m: seq<Ref>, pos: map<Ref, nat>)
    requires Linked(h0, a) && Linked(h0, b) && |a| > 0 && |b| > 0
    requires m == StableSort.Merge(a, b, Payloads(h0), cmp) && |m| == |a| + |b|
    requires Numbered(m, pos) && forall k | 0 <= k < |m| :: m[k] in h0
    ensures Interleaved(h0, h0, cmp, a, b, m, pos, 0, 0, Some(a[0]), Some(b[0]), None, None)
  {
    assert a[0..] == a && b[0..] == b && m[0..] == m;
    RelinkedStart(h0, m, pos);
  }

  /** While both runs have nodes left, their heads and the node written
      last are allocated. */
  lemma Heads<T>(h0: Heap<T>, h: Heap<T>, cmp: (T, T) -> int, left: Ref, right: Ref,
                 last: Option<Ref>, start: Option<Ref>,
                 a: seq<Ref>, b: seq<Ref>, m: seq<Ref>, pos: map<Ref, nat>, i: nat, j: nat)
    requires Interleaved(h0, h, cmp, a, b, m, pos, i, j, Some(left), Some(right), last, start)
    ensures left in h && right in h && (last.Some? ==> last.value in h)
  {
  }

  /** Taking the head of the left run when it compares <= 0 to the head of
      the right run moves the first loop on by one node. */
  lemma TakeLeft<T>(h0: Heap<T>, h: Heap<T>, cmp: (T, T) -> int, left: Ref, right: Ref,
                    last: Option<Ref>, start: Option<Ref>,
                    a: seq<Ref>, b: seq<Ref>, m: seq<Ref>, pos: map<Ref, nat>, i: nat, j: nat,
                    h': Heap<T>, left': Option<Ref>, right': Option<Ref>, last': Option<Ref>, start': Option<Ref>, i': nat, j': nat)
    requires Interleaved(h0, h, cmp, a, b, m, pos, i, j, Some(left), Some(right), last, start)
    requires left in h && (last.Some? ==> last.value in h) && cmp(h[left].data, h[right].data) <= 0
    requires h' == Attach(h, last, left) && left' == h[left].next && right' == Some(right) && last' == Some(left)
    requires start' == (if last.None? then Some(left) else start) && i' == i + 1 && j' == j
    ensures Interleaved(h0, h', cmp, a, b, m, pos, i', j', left', right', last', start')
  {
    var t := i + j;
    RelinkedStep(h0, m, pos, t);
    assert pos[m[t]] == t;
    MergeAdvance(a, b, Payloads(h0), cmp, m, i, j);
  }

  /** Taking the head of the right run when the head of the left run
      compares > 0 to it moves the first loop on by one node. */
  lemma TakeRight<T>(h0: Heap<T>, h: Heap<T>, cmp: (T, T) -> int, left: Ref, right: Ref,
                     last: Option<Ref>, start: Option<Ref>,
                     a: seq<Ref>, b: seq<Ref>, m: seq<Ref>, pos: map<Ref, nat>, i: nat, j: nat,
                     h': Heap<T>, left': Option<Ref>, right': Option<Ref>, last': Option<Ref>, start': Option<Ref>, i': nat, j': nat)
    requires Interleaved(h0, h, cmp, a, b, m, pos, i, j, Some(left), Some(right), last, start)
    requires right in h && (last.Some? ==> last.value in h) && cmp(h[left].data, h[right].data) > 0
    requires h' == Attach(h, last, right) && left' == Some(left) && right' == h[right].next && last' == Some(right)
    requires start' == (if last.None? then Some(right) else start) && i' == i && j' == j + 1
    ensures Interleaved(h0, h', cmp, a, b, m, pos, i', j', left', right', last', start')
  {
    var t := i + j;
    RelinkedStep(h0, m, pos, t);
    assert pos[m[t]] == t;
    MergeAdvance(a, b, Payloads(h0), cmp, m, i, j);
  }

  /** The state of merge's second loop: the first t output nodes are
      written, the last of them is `node`, and what is left of the output is
      the run `src` from its p-th node `remainder` on. */
  ghost predicate Appending<T>(h0: Heap<T>, h: Heap<T>, m: seq<Ref>, pos: map<Ref, nat>, t: nat, node: Ref,
                               src: seq<Ref>, p: nat, remainder: Option<Ref>)
  {
    && Linked(h0, src) && p <= |src|
    && remainder == (if p < |src| then Some(src[p]) else None)
    && 0 < t <= |m| && m[t..] == src[p..] && node == m[t - 1]
    && Numbered(m, pos) && (forall k | 0 <= k < |m| :: m[k] in h0)
    && (remainder.None? ==> h0[node].next.None?)
    && h == Relinked(h0, m, pos, t)
  }

  /** When one run is used up, the second loop takes over with the rest of
      the other. */
  lemma InterleavedDone<T>(h0: Heap<T>, h: Heap<T>, cmp: (T, T) -> int, a: seq<Ref>, b: seq<Ref>,
                           m: seq<Ref>, pos: map<Ref, nat>, i: nat, j: nat,
                           left: Option<Ref>, right: Option<Ref>, last: Option<Ref>, start: Option<Ref>)
    requires Interleaved(h0, h, cmp, a, b, m, pos, i, j, left, right, last, start)
    requires i + j > 0 && (left.None? || right.None?)
    ensures last.Some? && start == Some(m[0])
    ensures left.Some? ==> Appending(h0, h, m, pos, i + j, last.value, a, i, left)
    ensures left.None? ==> right.Some? && Appending(h0, h, m, pos, i + j, last.value, b, j, right)
  {
    MergeRest(a, b, Payloads(h0), cmp, m, i, j);
  }

  /** Appending the next node of the remaining run moves the second loop on. */
  lemma AppendStep<T>(h0: Heap<T>, h: Heap<T>, m: seq<Ref>, pos: map<Ref, nat>, t: nat, node: Ref,
                      src: seq<Ref>, p: nat, remainder: Option<Ref>)
    requires Appending(h0, h, m, pos, t, node, src, p, remainder) && remainder.Some?
    ensures remainder.value in h && node in h
    ensures var h' := Attach(h, Some(node), remainder.value);
      Appending(h0, h', m, pos, t + 1, remainder.value, src, p + 1, h'[remainder.value].next)
  {
    SuffixAdvance(m, t, src, p);
    RelinkedStep(h0, m, pos, t);
    assert pos[m[t]] == t;
    assert h0[src[p]].next == NextOf(src, p);
  }

  /** When the remaining run is used up, the whole output is a chain ending
      at `node`, and no other node changed. */
  lemma AppendDone<T>(h0: Heap<T>, h: Heap<T>, m: seq<Ref>, pos: map<Ref, nat>, t: nat, node: Ref,
                      src: seq<Ref>, p: nat)
    requires Appending(h0, h, m, pos, t, node, src, p, None)
    ensures Linked(h, m) && Frame(h0, h, m) && h.Keys == h0.Keys && node == m[|m| - 1]
  {
    assert t == |m| by {
      assert |m[t..]| == |src[p..]|;
    }
    RelinkedLinked(h0, m, pos);
    RelinkedFrame(h0, m, pos, |m|);
  }

  /** One iteration of merge's first loop: compare the two heads, take the
      left one if it compares <= 0 and the right one otherwise, and link it
      after the node written last. */
  method MergeOne<T>(h0: Heap<T>, h: Heap<T>, cmp: (T, T) -> int, left: Ref, right: Ref,
                     last: Option<Ref>, start: Option<Ref>,
                     ghost a: seq<Ref>, ghost b: seq<Ref>, ghost m: seq<Ref>, ghost pos: map<Ref, nat>, ghost i: nat, ghost j: nat)
    returns (h': Heap<T>, left': Option<Ref>, right': Option<Ref>, last': Option<Ref>, start': Option<Ref>,
             ghost i': nat, ghost j': nat)
    requires Interleaved(h0, h, cmp, a, b, m, pos, i, j, Some(left), Some(right), last, start)
    ensures Interleaved(h0, h', cmp, a, b, m, pos, i', j', left', right', last', start')
    ensures i' + j' == i + j + 1
  {
    Heads(h0, h, cmp, left, right, last, start, a, b, m, pos, i, j);
    var comp := cmp(h[left].data, h[right].data);
    if comp <= 0 {
      h', left', right' := Attach(h, last, left), h[left].next, Some(right);
      last', start' := Some(left), if last.None? then Some(left) else start;
      i', j' := i + 1, j;
      TakeLeft(h0, h, cmp, left, right, last, start, a, b, m, pos, i, j, h', left', right', last', start', i', j');
    } else {
      h', left', right' := Attach(h, last, right), Some(left), h[right].next;
      last', start' := Some(right), if last.None? then Some(right) else start;
      i', j' := i, j + 1;
      TakeRight(h0, h, cmp, left, right, last, start, a, b, m, pos, i, j, h', left', right', last', start', i', j');
    }
  }

  /** The nodes of a merge of two chains are allocated. */
  lemma MergeAllocated<T, K>(h: Heap<T>, a: seq<Ref>, b: seq<Ref>, key: map<Ref, K>, cmp: (K, K) -> int)
    requires Linked(h, a) && Linked(h, b)
    ensures var m := StableSort.Merge(a, b, key, cmp); forall k | 0 <= k < |m| :: m[k] in h
  {
    var m := StableSort.Merge(a, b, key, cmp);
    MergeMembers(a, b, key, cmp);
    forall k | 0 <= k < |m| ensures m[k] in h {
      assert m[k] in m;
    }
  }

  /** One iteration of merge's second loop: link the head of the remaining
      run after the node written last and move on to its successor. */
  method AppendOne<T>(h0: Heap<T>, h: Heap<T>, last: Ref, x: Ref,
                      ghost m: seq<Ref>, ghost pos: map<Ref, nat>, ghost t: nat, ghost src: seq<Ref>, ghost p: nat)
    returns (h': Heap<T>, last': Ref, remainder': Option<Ref>, ghost t': nat, ghost p': nat)
    requires Appending(h0, h, m, pos, t, last, src, p, Some(x))
    ensures Appending(h0, h', m, pos, t', last', src, p', remainder')
    ensures p' == p + 1
  {
    AppendStep(h0, h, m, pos, t, last, src, p, Some(x));
    h' := Attach(h, Some(last), x);
    last' := x;
    remainder' := h'[x].next;
    t', p' := t + 1, p + 1;
  }

  /** merge's two loops, for two non-empty runs whose merge `m` is
      numbered by `pos`. */
  method MergeNonEmpty<T>(h0: Heap<T>, l1: Ref, l2: Ref, cmp: (T, T) -> int,
                          ghost a: seq<Ref>, ghost b: seq<Ref>, ghost m: seq<Ref>, ghost pos: map<Ref, nat>)
    returns (h: Heap<T>, head: Ref, tail: Ref)
    requires Linked(h0, a) && Linked(h0, b) && |a| > 0 && |b| > 0 && l1 == a[0] && l2 == b[0]
    requires m == StableSort.Merge(a, b, Payloads(h0), cmp) && |m| == |a| + |b|
    requires Numbered(m, pos) && forall k | 0 <= k < |m| :: m[k] in h0
    ensures Linked(h, m) && head == m[0] && tail == m[|m| - 1]
    ensures h.Keys == h0.Keys && Frame(h0, h, m)
  {
    InterleavedStart(h0, cmp, a, b, m, pos);
    h := h0;
    var left, right := Some(l1), Some(l2);
    var node: Option<Ref> := None;
    var start: Option<Ref> := None;
    ghost var i, j := 0, 0;
    while left.Some? && right.Some?
      invariant Interleaved(h0, h, cmp, a, b, m, pos, i, j, left, right, node, start)
      invariant i + j > 0 || (left.Some? && right.Some?)
      decreases |a| + |b| - i - j
    {
      h, left, right, node, start, i, j := MergeOne(h0, h, cmp, left.value, right.value, node, start, a, b, m, pos, i, j);
    }
    InterleavedDone(h0, h, cmp, a, b, m, pos, i, j, left, right, node, start);
    var remainder := if left.Some? then left else right;
    ghost var src := if left.Some? then a else b;
    ghost var p := if left.Some? then i else j;
    ghost var t := i + j;
    var last := node.value;
    while remainder.Some?
      invariant Appending(h0, h, m, pos, t, last, src, p, remainder)
      decreases |src| - p
    {
      h, last, remainder, t, p := AppendOne(h0, h, last, remainder.value, m, pos, t, src, p);
    }
    AppendDone(h0, h, m, pos, t, last, src, p);
    head, tail := start.value, last;
  }

  /** merge: merge the NULL-terminated runs starting at `l1` and `l2`, taking
      from the left run while compare(left, right) <= 0 and then appending
      the rest of the run that is left. The on-stack sentinel is `None` as
      the node written last, and its `next` is kept in `start`. The first
      node of the result is returned for `*l1` and its last for `*tail_ref`;
      when a run is empty nothing is relinked and `*tail_ref` is left as it
      was. */
  method Merge<T>(h0: Heap<T>, l1: Option<Ref>, l2: Option<Ref>, tailIn: Option<Ref>, cmp: (T, T) -> int,
                  ghost a: seq<Ref>, ghost b: seq<Ref>)
    returns (h: Heap<T>, head: Option<Ref>, tail: Option<Ref>)
    requires Linked(h0, a) && Linked(h0, b)
    requires forall x | x in a :: x !in b
    requires l1 == First(a) && l2 == First(b)
    ensures var m := StableSort.Merge(a, b, Payloads(h0), cmp);
      && Linked(h, m) && head == First(m)
      && tail == (if |a| > 0 && |b| > 0 then Last(m) else tailIn)
      && h.Keys == h0.Keys && Frame(h0, h, m)
  {
    ghost var key := Payloads(h0);
    ghost var m := StableSort.Merge(a, b, key, cmp);
    if l1.None? {
      assert m == b;
      return h0, l2, tailIn;
    }
    if l2.None? {
      assert m == a;
      return h0, l1, tailIn;
    }
    MergeNumbered(h0, a, b, key, cmp);
    MergeAllocated(h0, a, b, key, cmp);
    MergeLength(a, b, key, cmp);
    var first, last;
    h, first, last := MergeNonEmpty(h0, l1.value, l2.value, cmp, a, b, m, Positions(m));
    head, tail := Some(first), Some(last);
  }

  /** One round of the slow/fast walk while `fast` (the (2k+1)-th node) has
      a successor: `slow` moves to the (k+1)-th node and `fast` to the
      (2k+3)-th, or to NULL past the end. */
  lemma MiddleStep<T>(h: Heap<T>, s: seq<Ref>, k: nat, slow: Ref, fast: Ref)
    requires Linked(h, s) && 2 * k + 1 < |s| && slow == s[k] && fast == s[2 * k + 1]
    requires h[fast].next.Some?
    ensures 2 * (k + 1) + 1 <= |s|
    ensures h[slow].next == Some(s[k + 1]) && h[fast].next.value in h
    ensures h[h[fast].next.value].next == if 2 * (k + 1) + 1 < |s| then Some(s[2 * (k + 1) + 1]) else None
  {
    assert h[s[2 * k + 1]].next == NextOf(s, 2 * k + 1);
    assert h[s[k]].next == NextOf(s, k);
    assert h[s[2 * k + 2]].next == NextOf(s, 2 * k + 2);
  }

  /** The walk stops when `fast` or its successor is NULL: `slow`, the k-th
      node, ends the first ceil(n/2) nodes. */
  lemma MiddleExit<T>(h: Heap<T>, s: seq<Ref>, k: nat, fast: Option<Ref>)
    requires Linked(h, s) && 2 * k + 1 <= |s|
    requires fast == if 2 * k + 1 < |s| then Some(s[2 * k + 1]) else None
    requires fast.Some? ==> h[fast.value].next.None?
    ensures StableSort.FirstHalf(|s|) == k + 1
  {
    if 2 * k + 1 < |s| {
      assert h[s[2 * k + 1]].next == NextOf(s, 2 * k + 1);
    }
  }

  /** The slow/fast walk of merge_sort from the k-th node (`slow`) and the
      (2k+1)-th node (`fast`, NULL past the end): while `fast` and its
      successor exist, `slow` moves one node and `fast` two. It stops on the
      node that ends the first ceil(n/2) nodes. */
  function MiddleFrom<T>(h: Heap<T>, slow: Ref, fast: Option<Ref>, ghost s: seq<Ref>, ghost k: nat): (mid: Ref)
    requires Linked(h, s) && 2 * k + 1 <= |s| && slow == s[k]
    requires fast == if 2 * k + 1 < |s| then Some(s[2 * k + 1]) else None
    ensures mid == s[StableSort.FirstHalf(|s|) - 1]
    decreases |s| - k
  {
    if fast.Some? && h[fast.value].next.Some? then
      MiddleStep(h, s, k, slow, fast.value);
      MiddleFrom(h, h[slow].next.value, h[h[fast.value].next.value].next, s, k + 1)
    else
      MiddleExit(h, s, k, fast);
      slow
  }

  /** The walk as merge_sort starts it: `slow` on the head and `fast` on the
      second node. */
  function Middle<T>(h: Heap<T>, head: Ref, ghost s: seq<Ref>): (mid: Ref)
    requires Linked(h, s) && |s| > 1 && head == s[0]
    ensures mid == s[StableSort.FirstHalf(|s|) - 1]
  {
    assert h[s[0]].next == NextOf(s, 0);
    MiddleFrom(h, head, h[head].next, s, 0)
  }

  /** The heap after cutting a chain between its k-th and (k+1)-th nodes. */
  function CutAfter<T>(h: Heap<T>, s: seq<Ref>, k: nat): Heap<T>
    requires Linked(h, s) && k + 1 < |s|
  {
    SetPrev(SetNext(h, s[k], None), s[k + 1], None)
  }

  /** The i-th node of the first half after the cut. */
  lemma CutLeftAt<T>(h: Heap<T>, s: seq<Ref>, k: nat, i: nat)
    requires Linked(h, s) && k + 1 < |s| && i <= k
    ensures var h', a := CutAfter(h, s, k), s[..k + 1];
      a[i] in h' && h'[a[i]].prev == PrevOf(a, i) && h'[a[i]].next == NextOf(a, i)
  {
    var a := s[..k + 1];
    LinkedInjective(h, s, i, k + 1);
    if i < k {
      LinkedInjective(h, s, i, k);
      assert a[i + 1] == s[i + 1];
    }
    assert a[i] == s[i] && h[s[i]].prev == PrevOf(s, i) && h[s[i]].next == NextOf(s, i);
    if i > 0 {
      assert a[i - 1] == s[i - 1];
    }
  }

  /** The i-th node of the second half after the cut. */
  lemma CutRightAt<T>(h: Heap<T>, s: seq<Ref>, k: nat, i: nat)
    requires Linked(h, s) && k + 1 < |s| && k + 1 + i < |s|
    ensures var h', b := CutAfter(h, s, k), s[k + 1..];
      b[i] in h' && h'[b[i]].prev == PrevOf(b, i) && h'[b[i]].next == NextOf(b, i)
  {
    var b := s[k + 1..];
    var j := k + 1 + i;
    LinkedInjective(h, s, k, j);
    if i > 0 {
      LinkedInjective(h, s, k + 1, j);
      assert b[i - 1] == s[j - 1];
    }
    assert b[i] == s[j] && h[s[j]].prev == PrevOf(s, j) && h[s[j]].next == NextOf(s, j);
    if i + 1 < |b| {
      assert b[i + 1] == s[j + 1];
    }
  }

  /** Cutting a chain between its k-th and (k+1)-th nodes leaves two chains. */
  lemma CutLinked<T>(h: Heap<T>, s: seq<Ref>, k: nat)
    requires Linked(h, s) && k + 1 < |s|
    ensures Linked(CutAfter(h, s, k), s[..k + 1]) && Linked(CutAfter(h, s, k), s[k + 1..])
  {
    var h', a, b := CutAfter(h, s, k), s[..k + 1], s[k + 1..];
    forall i | 0 <= i < |a| ensures a[i] in h' && h'[a[i]].prev == PrevOf(a, i) && h'[a[i]].next == NextOf(a, i) {
      CutLeftAt(h, s, k, i);
    }
    forall i | 0 <= i < |b| ensures b[i] in h' && h'[b[i]].prev == PrevOf(b, i) && h'[b[i]].next == NextOf(b, i) {
      CutRightAt(h, s, k, i);
    }
  }

  /** The cut of merge_sort: the chain is split between its k-th and
      (k+1)-th nodes by clearing the link between them in both directions;
      the (k+1)-th node, the head of the second half, is returned. */
  function Cut<T>(h: Heap<T>, mid: Ref, ghost s: seq<Ref>, ghost k: nat): (r: (Heap<T>, Ref))
    requires Linked(h, s) && k + 1 < |s| && mid == s[k]
    ensures r.1 == s[k + 1]
    ensures Linked(r.0, s[..k + 1]) && Linked(r.0, s[k + 1..])
    ensures r.0.Keys == h.Keys && Frame(h, r.0, s)
  {
    assert h[s[k]].next == NextOf(s, k);
    var second := h[mid].next.value;
    CutLinked(h, s, k);
    assert s[k] in s && s[k + 1] in s;
    (SetPrev(SetNext(h, mid, None), second, None), second)
  }

  /** Heaps with the same addresses and payloads have the same payload map. */
  lemma SamePayloads<T>(h: Heap<T>, h': Heap<T>)
    requires h'.Keys == h.Keys
    requires forall x | x in h' :: h'[x].data == h[x].data
    ensures Payloads(h') == Payloads(h)
  {
  }

  /** Every entry of `t` is an entry of `s`. */
  ghost predicate Within<X>(t: seq<X>, s: seq<X>)
  {
    forall x | x in t :: x in s
  }

  lemma WithinPermutation<X>(t: seq<X>, s: seq<X>, u: seq<X>)
    requires multiset(t) == multiset(u) && Within(u, s)
    ensures Within(t, s)
  {
    forall x | x in t ensures x in s {
      assert x in multiset(u);
    }
  }

  /** Frames compose when both touched sets lie inside `s`. */
  lemma FrameCompose<T>(h0: Heap<T>, h1: Heap<T>, h2: Heap<T>, t1: seq<Ref>, t2: seq<Ref>, s: seq<Ref>)
    requires Frame(h0, h1, t1) && Frame(h1, h2, t2) && Within(t1, s) && Within(t2, s)
    ensures Frame(h0, h2, s)
  {
  }

  /** The halves of a chain, sorted, are disjoint and lie inside it. */
  lemma HalvesApart<T>(h: Heap<T>, s: seq<Ref>, k: nat, r1: seq<Ref>, r2: seq<Ref>)
    requires Linked(h, s) && k + 1 < |s|
    requires multiset(r1) == multiset(s[..k + 1]) && multiset(r2) == multiset(s[k + 1..])
    ensures forall x | x in r1 :: x !in s[k + 1..]
    ensures forall x | x in r1 :: x !in r2
    ensures Within(s[..k + 1], s) && Within(s[k + 1..], s)
    ensures multiset(r1) + multiset(r2) == multiset(s)
  {
    StableSort.SplitAt(s, k + 1);
    HalvesDisjoint(h, s, k, s[..k + 1], s[k + 1..]);
    forall x | x in r1 ensures x !in s[k + 1..] && x !in r2 {
      assert x in multiset(s[..k + 1]);
      assert x in s[..k + 1];
      assert x !in multiset(s[k + 1..]);
    }
  }

  /** A sorted half stays linked while the other half is sorted. */
  lemma KeepLinked<T>(h: Heap<T>, h': Heap<T>, r: seq<Ref>, t: seq<Ref>)
    requires Linked(h, r) && Frame(h, h', t)
    requires forall x | x in r :: x !in t
    ensures Linked(h', r)
  {
    forall i | 0 <= i < |r| ensures r[i] in h' && h'[r[i]] == h[r[i]] {
      assert r[i] in r;
    }
    LinkedFrame(h, h', r);
  }

  /** The two halves of a chain share no node. */
  lemma HalvesDisjoint<T>(h: Heap<T>, s: seq<Ref>, k: nat, a: seq<Ref>, b: seq<Ref>)
    requires Linked(h, s) && k + 1 < |s| && a == s[..k + 1] && b == s[k + 1..]
    ensures forall x | x in a :: x !in b
  {
    forall x | x in a ensures x !in b {
      var i :| 0 <= i < k + 1 && a[i] == x;
      if x in b {
        var j :| 0 <= j < |s| - k - 1 && b[j] == x;
        LinkedInjective(h, s, i, k + 1 + j);
      }
    }
  }

  /** Sorting the first half leaves the second half linked. */
  lemma SecondHalfKept<T>(h0: Heap<T>, h1: Heap<T>, h2: Heap<T>, s: seq<Ref>, k: nat)
    requires Linked(h0, s) && k + 1 < |s|
    requires Linked(h1, s[k + 1..]) && Frame(h1, h2, s[..k + 1])
    ensures Linked(h2, s[k + 1..])
  {
    HalvesDisjoint(h0, s, k, s[..k + 1], s[k + 1..]);
    KeepLinked(h1, h2, s[k + 1..], s[..k + 1]);
  }

  /** Before the final merge: the payloads are those of the input, the
      sorted first half is still linked, the sorted halves are disjoint, and
      only nodes of the chain have changed. */
  lemma BeforeMerge<T>(h0: Heap<T>, h1: Heap<T>, h2: Heap<T>, h3: Heap<T>, cmp: (T, T) -> int, s: seq<Ref>, k: nat)
    requires Linked(h0, s) && k + 1 < |s|
    requires h1.Keys == h0.Keys && Frame(h0, h1, s)
    requires h2.Keys == h1.Keys && Frame(h1, h2, s[..k + 1])
    requires h3.Keys == h2.Keys && Frame(h2, h3, s[k + 1..])
    requires Linked(h2, StableSort.MergeSort(s[..k + 1], Payloads(h1), cmp))
    ensures Payloads(h1) == Payloads(h0) && Payloads(h2) == Payloads(h0) && Payloads(h3) == Payloads(h0)
    ensures var r1, r2 := StableSort.MergeSort(s[..k + 1], Payloads(h0), cmp), StableSort.MergeSort(s[k + 1..], Payloads(h0), cmp);
      && Linked(h3, r1) && |r1| > 0 && |r2| > 0
      && (forall x | x in r1 :: x !in r2)
      && multiset(r1) + multiset(r2) == multiset(s)
    ensures h3.Keys == h0.Keys && Frame(h0, h3, s)
  {
    var key := Payloads(h0);
    SamePayloads(h0, h1);
    SamePayloads(h1, h2);
    SamePayloads(h2, h3);
    var s1, s2 := s[..k + 1], s[k + 1..];
    var r1, r2 := StableSort.MergeSort(s1, key, cmp), StableSort.MergeSort(s2, key, cmp);
    StableSort.MergeSortPermutation(s1, key, cmp);
    StableSort.MergeSortPermutation(s2, key, cmp);
    HalvesApart(h0, s, k, r1, r2);
    assert |multiset(r1)| == |s1| && |multiset(r2)| == |s2|;
    KeepLinked(h2, h3, r1, s2);
    FrameCompose(h0, h1, h2, s, s1, s);
    FrameCompose(h0, h2, h3, s, s2, s);
  }

  /** After the final merge: the merged chain is the reference merge sort of
      the input, and only nodes of the chain have changed. */
  lemma AfterMerge<T>(h0: Heap<T>, h3: Heap<T>, h: Heap<T>, cmp: (T, T) -> int, s: seq<Ref>, k: nat,
                      head: Option<Ref>, tail: Option<Ref>)
    requires |s| > 1 && k + 1 == StableSort.FirstHalf(|s|)
    requires h3.Keys == h0.Keys && Frame(h0, h3, s) && Payloads(h3) == Payloads(h0)
    requires var r1, r2 := StableSort.MergeSort(s[..k + 1], Payloads(h0), cmp), StableSort.MergeSort(s[k + 1..], Payloads(h0), cmp);
      var m := StableSort.Merge(r1, r2, Payloads(h3), cmp);
      && multiset(r1) + multiset(r2) == multiset(s)
      && Linked(h, m) && head == First(m)
      && tail == Last(m)
      && h.Keys == h3.Keys && Frame(h3, h, m)
    ensures var r := StableSort.MergeSort(s, Payloads(h0), cmp);
      && Linked(h, r) && head == First(r) && tail == Last(r)
      && h.Keys == h0.Keys && Frame(h0, h, s)
  {
    var key := Payloads(h0);
    var r1, r2 := StableSort.MergeSort(s[..k + 1], key, cmp), StableSort.MergeSort(s[k + 1..], key, cmp);
    var m := StableSort.Merge(r1, r2, key, cmp);
    MergeSortUnfold(s, k, key, cmp);
    StableSort.MergePermutation(r1, r2, key, cmp);
    WithinPermutation(m, s, s);
    FrameCompose(h0, h3, h, s, m, s);
  }

  /** One level of the reference merge sort, split after the k-th entry. */
  lemma MergeSortUnfold<X, K>(s: seq<X>, k: nat, key: map<X, K>, cmp: (K, K) -> int)
    requires |s| > 1 && k + 1 == StableSort.FirstHalf(|s|)
    ensures StableSort.Merge(StableSort.MergeSort(s[..k + 1], key, cmp), StableSort.MergeSort(s[k + 1..], key, cmp), key, cmp)
      == StableSort.MergeSort(s, key, cmp)
  {
  }

  /** merge_sort: a chain of at most one node is left alone; a longer one is
      cut after its middle node, both halves are sorted (the second one
      starting from the `*tail_ref` the first one left) and merged. The
      result links the nodes in the order of the reference merge sort, and
      `*tail_ref` is the last of them whenever a merge took place. */
  method MergeSort<T>(h0: Heap<T>, head: Option<Ref>, tailIn: Option<Ref>, cmp: (T, T) -> int, ghost s: seq<Ref>)
    returns (h: Heap<T>, head': Option<Ref>, tail: Option<Ref>)
    requires Linked(h0, s) && head == First(s)
    ensures var r := StableSort.MergeSort(s, Payloads(h0), cmp);
      && Linked(h, r) && head' == First(r)
      && tail == (if |s| <= 1 then tailIn else Last(r))
      && h.Keys == h0.Keys && Frame(h0, h, s)
    decreases |s|
  {
    if head.None? {
      return h0, head, tailIn;
    }
    assert h0[s[0]].next == NextOf(s, 0);
    if h0[head.value].next.None? {
      return h0, head, tailIn;
    }
    var mid := Middle(h0, head.value, s);
    ghost var k := StableSort.FirstHalf(|s|) - 1;
    var (h1, second) := Cut(h0, mid, s, k);
    var h2, head1, tail1 := MergeSort(h1, head, tailIn, cmp, s[..k + 1]);
    SecondHalfKept(h0, h1, h2, s, k);
    var h3, head2, tail2 := MergeSort(h2, Some(second), tail1, cmp, s[k + 1..]);
    BeforeMerge(h0, h1, h2, h3, cmp, s, k);
    ghost var key := Payloads(h0);
    h, head', tail := Merge(h3, head1, head2, tail2, cmp, StableSort.MergeSort(s[..k + 1], key, cmp), StableSort.MergeSort(s[k + 1..], key, cmp));
    AfterMerge(h0, h3, h, cmp, s, k, head', tail);
  }

  /** A chain's nodes all have payloads. */
  lemma LinkedKeyed<T>(h: Heap<T>, ns: seq<Ref>)
    requires Linked(h, ns)
    ensures StableSort.Keyed(ns, Payloads(h))
  {
    forall x | x in ns ensures x in Payloads(h) {
      var i :| 0 <= i < |ns| && ns[i] == x;
    }
  }

  /** b_list_sort: a NULL list or one of at most one node is left alone;
      otherwise the nodes are relinked in the order of the reference merge
      sort of their payloads, and head and tail follow. The result is a
      permutation of the nodes; when `compare` is a total preorder on the
      payloads it is sorted, and nodes that compare equal keep their
      relative order. */
  method Sort<T>(h: Heap<T>, ol: Option<List>, cmp: (T, T) -> int, ghost ns: seq<Ref>)
    returns (h': Heap<T>, ol': Option<List>, ghost ns': seq<Ref>)
    requires ol.Some? ==> Valid(h, ol.value, ns)
    ensures ol.None? ==> h' == h && ol' == None
    ensures ol.Some? && |ns| <= 1 ==> h' == h && ol' == ol
    ensures ol.Some? ==> ol'.Some? && Valid(h', ol'.value, ns')
    ensures ol.Some? ==> ol'.value.size == ol.value.size && ol'.value.destructor == ol.value.destructor
    ensures ol.Some? ==> ns' == StableSort.MergeSort(ns, Payloads(h), cmp)
    ensures ol.Some? ==> multiset(ns') == multiset(ns)
    ensures ol.Some? && StableSort.TotalPreorder(Payloads(h), cmp) ==> StableSort.Sorted(ns', Payloads(h), cmp)
    ensures ol.Some? && StableSort.TotalPreorder(Payloads(h), cmp) ==>
              forall e :: StableSort.Class(ns', Payloads(h), cmp, e) == StableSort.Class(ns, Payloads(h), cmp, e)
    ensures h'.Keys == h.Keys && Payloads(h') == Payloads(h) && Frame(h, h', ns)
  {
    ghost var key := Payloads(h);
    ns' := StableSort.MergeSort(ns, key, cmp);
    if ol.Some? {
      StableSort.MergeSortPermutation(ns, key, cmp);
      LinkedKeyed(h, ns);
      if StableSort.TotalPreorder(key, cmp) {
        StableSort.MergeSortSorted(ns, key, cmp);
        forall e ensures StableSort.Class(ns', key, cmp, e) == StableSort.Class(ns, key, cmp, e) {
          StableSort.MergeSortStable(ns, key, cmp, e);
        }
      }
    }
    if ol.None? || ol.value.size <= 1 {
      return h, ol, ns';
    }
    var l := ol.value;
    var head, tail;
    h', head, tail := MergeSort(h, l.head, l.tail, cmp, ns);
    SamePayloads(h, h');
    assert |multiset(ns')| == |ns|;
    ol' := Some(l.(head := head, tail := tail));
  }
}
