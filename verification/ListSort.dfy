/**
 STRING_LIST nodes and listsort (gattrib/src/listsort.c) on them: a bottom-up merge sort that only
 relinks. Linear, doubly linked lists, as every caller asks for.
 */
module ListSort {
  import opened Wrappers
  import opened NaturalOrder
  import opened MergeSort

  /** STRING_LIST */
  class Node {
    var data: Option<string>
    var pos: int
    var prev: Node?
    var next: Node?

    /** s_string_list_new, or a node of its own with data. */
    constructor (data: Option<string>, pos: int)
      ensures this.data == data && this.pos == pos && prev == null && next == null
    {
      this.data, this.pos := data, pos;
      prev, next := null, null;
    }
  }

  function KeyOf(n: Node): Key
    reads n`data, n`pos
  {
    Key(n.pos, if n.data.Some? then n.data.value else "")
  }

  function Keys(nodes: seq<Node>): (r: seq<Key>)
    reads nodes
    ensures |r| == |nodes| && forall i | 0 <= i < |r| :: r[i] == KeyOf(nodes[i])
  {
    seq(|nodes|, i requires 0 <= i < |nodes| reads nodes => KeyOf(nodes[i]))
  }

  ghost predicate Distinct(nodes: seq<Node>) {
    forall i, j | 0 <= i < j < |nodes| :: nodes[i] != nodes[j]
  }

  function NodeAt(nodes: seq<Node>, i: int): Node? {
    if 0 <= i < |nodes| then nodes[i] else null
  }

  /** A linear list: each node points to the following one, the last to none. */
  ghost predicate Chain(nodes: seq<Node>)
    reads nodes`next
  {
    Distinct(nodes) && forall i {:trigger nodes[i].next} | 0 <= i < |nodes| :: nodes[i].next == NodeAt(nodes, i + 1)
  }

  /** Linked consistently both ways. */
  ghost predicate DoublyLinked(nodes: seq<Node>)
    reads nodes`next, nodes`prev
  {
    Chain(nodes) && forall i {:trigger nodes[i].prev} | 0 <= i < |nodes| :: nodes[i].prev == NodeAt(nodes, i - 1)
  }

  // ---- elements of the specification and the nodes they stand for ----

  ghost predicate Fits(nodes: seq<Node>, s: seq<Elem>) {
    forall i | 0 <= i < |s| :: s[i].place < |nodes|
  }

  function Of(nodes: seq<Node>, s: seq<Elem>, i: int): Node?
    requires 0 <= i < |s| ==> s[i].place < |nodes|
  {
    if 0 <= i < |s| then nodes[s[i].place] else null
  }

  function Nodes(nodes: seq<Node>, s: seq<Elem>): (r: seq<Node>)
    requires forall i | 0 <= i < |s| :: s[i].place < |nodes|
    ensures |r| == |s| && forall i | 0 <= i < |s| :: r[i] == nodes[s[i].place]
  {
    seq(|s|, i requires 0 <= i < |s| => nodes[s[i].place])
  }

  ghost predicate KeysAre(nodes: seq<Node>, keys: seq<Key>)
    reads nodes`data, nodes`pos
  {
    |keys| == |nodes| && forall i | 0 <= i < |nodes| :: KeyOf(nodes[i]) == keys[i]
  }

  /** `s` names distinct places and carries their keys. */
  ghost predicate Proper(keys: seq<Key>, s: seq<Elem>) {
    (forall i | 0 <= i < |s| :: s[i].place < |keys| && s[i].key == keys[s[i].place]) && NoTwice(s)
  }

  ghost predicate NoTwice(s: seq<Elem>) {
    forall i, j | 0 <= i < j < |s| :: s[i].place != s[j].place
  }

  /** The nodes of s[lo..hi] still point to their successors in `s`. */
  ghost predicate Pending(nodes: seq<Node>, s: seq<Elem>, lo: nat, hi: nat)
    requires Fits(nodes, s) && hi <= |s|
    reads nodes`next
  {
    forall i {:trigger nodes[s[i].place].next} | lo <= i < hi :: nodes[s[i].place].next == Of(nodes, s, i + 1)
  }

  /** The list built so far: linked both ways, but for what its last node points to. */
  ghost predicate Built(nodes: seq<Node>, out: seq<Elem>)
    requires Fits(nodes, out)
    reads nodes`next, nodes`prev
  {
    && (forall i {:trigger nodes[out[i].place].next} | 0 <= i < |out| - 1 :: nodes[out[i].place].next == Of(nodes, out, i + 1))
    && (forall i {:trigger nodes[out[i].place].prev} | 0 <= i < |out| :: nodes[out[i].place].prev == Of(nodes, out, i - 1))
  }

  /** No place of `out` is one of s[lo..hi]. */
  ghost predicate Apart(out: seq<Elem>, s: seq<Elem>, lo: nat, hi: nat)
    requires hi <= |s|
  {
    forall i, j | 0 <= i < |out| && lo <= j < hi :: out[i].place != s[j].place
  }

  /** The elements behind a merge state: those merged already, and two runs s[a..mid] and s[b..] to come. */
  ghost predicate Split(keys: seq<Key>, s: seq<Elem>, out: seq<Elem>, a: nat, mid: nat, b: nat) {
    && Proper(keys, s) && Proper(keys, out)
    && a <= mid <= b <= |s|
    && Apart(out, s, a, mid) && Apart(out, s, b, |s|)
  }

  lemma TailApart(nodes: seq<Node>, keys: seq<Key>, s: seq<Elem>, out: seq<Elem>, a: nat, mid: nat, b: nat)
    requires Split(keys, s, out, a, mid, b) && |keys| == |nodes| && Distinct(nodes)
    ensures Fits(nodes, s) && Fits(nodes, out)
    ensures forall i | a <= i < mid || b <= i < |s| :: nodes[s[i].place] != Of(nodes, out, |out| - 1)
  {
    if out != [] {
      forall i | a <= i < mid || b <= i < |s| ensures nodes[s[i].place] != nodes[out[|out| - 1].place] {
        assert out[|out| - 1].place != s[i].place;
      }
    }
  }

  lemma SplitStep(keys: seq<Key>, s: seq<Elem>, out: seq<Elem>, a: nat, mid: nat, b: nat, fromP: bool)
    requires Split(keys, s, out, a, mid, b) && if fromP then a < mid else b < |s|
    ensures var x := if fromP then s[a] else s[b];
      && NoTwice(out + [x])
      && Split(keys, s, out + [x], if fromP then a + 1 else a, mid, if fromP then b else b + 1)
  {
  }

  /** The lines that add `e` to the merged list: link the tail to it, and it back to the tail. */
  method Append(e: Node, list: Node?, tail: Node?, ghost nodes: seq<Node>, ghost out: seq<Elem>, ghost x: Elem)
    returns (list': Node?, tail': Node?)
    requires Distinct(nodes) && Fits(nodes, out) && x.place < |nodes| && e == nodes[x.place]
    requires NoTwice(out + [x])
    requires Built(nodes, out) && list == Of(nodes, out, 0) && tail == Of(nodes, out, |out| - 1)
    modifies (if tail == null then {} else {tail})`next, e`prev
    ensures Built(nodes, out + [x]) && list' == Of(nodes, out + [x], 0) && tail' == Of(nodes, out + [x], |out|)
  {
    hide Distinct, NoTwice;
    ghost var o, m := out + [x], |out|;
    OthersApart(nodes, out, x);
    list' := list;
    if tail != null {
      tail.next := e;
    } else {
      list' := e;
    }
    e.prev := tail;
    tail' := e;
    assert forall i | 0 <= i < m :: o[i] == out[i] && Of(nodes, o, i) == Of(nodes, out, i);
    forall i | 0 <= i < m ensures nodes[o[i].place].next == Of(nodes, o, i + 1) {
      assert i < m - 1 ==> nodes[out[i].place] != tail;
    }
    forall i | 0 <= i <= m ensures nodes[o[i].place].prev == Of(nodes, o, i - 1) {
      assert i < m ==> nodes[out[i].place] != e;
    }
  }

  lemma OthersApart(nodes: seq<Node>, out: seq<Elem>, x: Elem)
    requires Distinct(nodes) && Fits(nodes, out) && x.place < |nodes| && NoTwice(out + [x])
    ensures forall i | 0 <= i < |out| :: nodes[out[i].place] != nodes[x.place]
    ensures forall i | 0 <= i < |out| - 1 :: nodes[out[i].place] != Of(nodes, out, |out| - 1)
  {
    var o := out + [x];
    forall i | 0 <= i < |out| ensures nodes[out[i].place] != nodes[x.place] {
      assert o[i].place != o[|out|].place;
    }
    forall i | 0 <= i < |out| - 1 ensures nodes[out[i].place] != nodes[out[|out| - 1].place] {
      assert o[i].place != o[|out| - 1].place;
    }
  }

  /** What holds while the runs s[a..mid] and s[b..] are still to be merged behind `out`. */
  ghost predicate Merging(nodes: seq<Node>, keys: seq<Key>, s: seq<Elem>, out: seq<Elem>, a: nat, mid: nat, b: nat,
                          list: Node?, tail: Node?)
    reads nodes
  {
    && Distinct(nodes) && |keys| == |nodes| && KeysAre(nodes, keys)
    && Fits(nodes, s) && Fits(nodes, out) && Split(keys, s, out, a, mid, b)
    && Pending(nodes, s, a, mid) && Pending(nodes, s, b, |s|)
    && Built(nodes, out) && list == Of(nodes, out, 0) && tail == Of(nodes, out, |out| - 1)
  }

  /** Append on a merge state. */
  method AppendNext(e: Node, list: Node?, tail: Node?, ghost nodes: seq<Node>, ghost keys: seq<Key>,
                    ghost s: seq<Elem>, ghost out: seq<Elem>, ghost a: nat, ghost mid: nat, ghost b: nat, ghost fromP: bool)
    returns (list': Node?, tail': Node?)
    requires Merging(nodes, keys, s, out, a, mid, b, list, tail)
    requires if fromP then a < mid && e == nodes[s[a].place] else b < |s| && e == nodes[s[b].place]
    modifies (set n | n in nodes)`next, (set n | n in nodes)`prev
    ensures Merging(nodes, keys, s, out + [if fromP then s[a] else s[b]],
                    if fromP then a + 1 else a, mid, if fromP then b else b + 1, list', tail')
  {
    hide Built, Distinct, NoTwice, KeyOf, Proper, Apart;
    ghost var x := if fromP then s[a] else s[b];
    SplitStep(keys, s, out, a, mid, b, fromP);
    TailApart(nodes, keys, s, out, a, mid, b);
    list', tail' := Append(e, list, tail, nodes, out, x);
  }

  /** The comparison of two items: `cmp` itself, or the order it is described as. */
  method CompareItems(p: Node, q: Node, stray: bool) returns (r: int)
    requires stray && KeyOf(p).pos == KeyOf(q).pos ==> StaysInside(KeyOf(p).data, 0, KeyOf(q).data, 0)
    ensures r == KeyCompare(stray, KeyOf(p), KeyOf(q))
  {
    if stray {
      var c := Cmp(KeyOf(p), KeyOf(q));
      return c.value;
    }
    return KeyCompare(false, KeyOf(p), KeyOf(q));
  }

  /** The heads of two runs that are being merged are different items. */
  lemma HeadsApart(nodes: seq<Node>, keys: seq<Key>, s: seq<Elem>, out: seq<Elem>, a: nat, mid: nat, b: nat,
                   list: Node?, tail: Node?)
    requires Merging(nodes, keys, s, out, a, mid, b, list, tail) && a < mid && b < |s| && KeysComparable(keys)
    ensures KeyOf(nodes[s[a].place]).pos == KeyOf(nodes[s[b].place]).pos ==>
      StaysInside(KeyOf(nodes[s[a].place]).data, 0, KeyOf(nodes[s[b].place]).data, 0)
  {
    assert s[a].place != s[b].place;
    assert KeyOf(nodes[s[a].place]) == keys[s[a].place] && KeyOf(nodes[s[b].place]) == keys[s[b].place];
  }

  /** Where the next element of a merge comes from. */
  method TakeNext(p: Node?, q: Node?, psize: nat, qsize: nat, stray: bool, ghost nodes: seq<Node>, ghost keys: seq<Key>,
                  ghost s: seq<Elem>, ghost out: seq<Elem>, ghost a: nat, ghost mid: nat, ghost b: nat, ghost end: nat,
                  list: Node?, tail: Node?)
    returns (e: Node, p': Node?, q': Node?, psize': nat, qsize': nat)
    requires Merging(nodes, keys, s, out, a, mid, b, list, tail)
    requires psize == mid - a && b <= end <= |s| && (b == end <==> qsize == 0 || b == |s|)
    requires psize > 0 || b < end
    requires psize > 0 ==> p == Of(nodes, s, a)
    requires q == Of(nodes, s, b) && (stray ==> KeysComparable(keys))
    ensures var fromP := a < mid && (b == end || Compared(stray, s[a], s[b]) <= 0);
      if fromP then
        e == nodes[s[a].place] && p' == Of(nodes, s, a + 1) && q' == q && psize' == psize - 1 && qsize' == qsize
      else
        b < end && e == nodes[s[b].place] && q' == Of(nodes, s, b + 1) && p' == p && psize' == psize && qsize' == qsize - 1
  {
    hide Built, Distinct, NoTwice, KeyCompare, StaysInside;
    p', q', psize', qsize' := p, q, psize, qsize;
    if stray && psize > 0 && b < end { HeadsApart(nodes, keys, s, out, a, mid, b, list, tail); }
    if psize == 0 {
      e := q; q' := q.next; qsize' := qsize - 1;
    } else if qsize == 0 || q == null {
      e := p; p' := p.next; psize' := psize - 1;
    } else {
      var c := CompareItems(p, q, stray);
      if c <= 0 {
        e := p; p' := p.next; psize' := psize - 1;
      } else {
        e := q; q' := q.next; qsize' := qsize - 1;
      }
    }
  }

  /** The inner loop: merges s[k..k+psize], at `p`, with the up to `insize` elements after it, at `q`. */
  method MergeRuns(p0: Node?, q0: Node?, psize0: nat, insize: nat, list0: Node?, tail0: Node?, stray: bool,
                   ghost nodes: seq<Node>, ghost keys: seq<Key>, ghost s: seq<Elem>, ghost out0: seq<Elem>,
                   ghost k: nat, ghost end: nat)
    returns (q: Node?, list: Node?, tail: Node?, ghost out: seq<Elem>)
    requires Fits(nodes, s) && Merging(nodes, keys, s, out0, k, k + psize0, k + psize0, list0, tail0)
    requires 0 < psize0 && k + psize0 <= end <= |s| && (stray ==> KeysComparable(keys))
    requires end == if k + psize0 + insize <= |s| then k + psize0 + insize else |s|
    requires p0 == Of(nodes, s, k) && q0 == Of(nodes, s, k + psize0)
    modifies (set n | n in nodes)`next, (set n | n in nodes)`prev
    ensures out == out0 + Merge(stray, s[k..k + psize0], s[k + psize0..end])
    ensures Merging(nodes, keys, s, out, end, end, end, list, tail) && q == Of(nodes, s, end)
  {
    hide Merge, Merging, Compared, KeysComparable, Split, Built, Distinct, NoTwice, KeyOf, Pending, KeysAre, Proper, Apart;
    var p := p0;
    q, list, tail, out := q0, list0, tail0, out0;
    var psize, qsize := psize0, insize;
    ghost var mid: nat := k + psize;
    ghost var a: nat, b: nat := k, mid;
    ghost var all := out0 + Merge(stray, s[k..mid], s[mid..end]);
    while psize > 0 || (qsize > 0 && q != null)
      invariant psize == mid - a && qsize == insize - (b - mid) && a <= mid <= b <= end
      invariant Fits(nodes, s) && (psize > 0 ==> p == Of(nodes, s, a)) && q == Of(nodes, s, b)
      invariant Merging(nodes, keys, s, out, a, mid, b, list, tail)
      invariant all == out + Merge(stray, s[a..mid], s[b..end])
      decreases psize + (end - b)
    {
      ghost var fromP := a < mid && (b == end || Compared(stray, s[a], s[b]) <= 0);
      ghost var x := if fromP then s[a] else s[b];
      MergeStep(stray, s, a, mid, b, end);
      var e: Node;
      e, p, q, psize, qsize := TakeNext(p, q, psize, qsize, stray, nodes, keys, s, out, a, mid, b, end, list, tail);
      list, tail := AppendNext(e, list, tail, nodes, keys, s, out, a, mid, b, fromP);
      MoveOver(out, x, Merge(stray, s[if fromP then a + 1 else a..mid], s[if fromP then b else b + 1..end]));
      out := out + [x];
      a, b := if fromP then a + 1 else a, if fromP then b else b + 1;
    }
    MergeEmpty(stray, s[a..mid], s[b..end]);
    MergingEnd(nodes, keys, s, out, a, mid, b, end, list, tail);
  }

  lemma MergingSplit(nodes: seq<Node>, keys: seq<Key>, s: seq<Elem>, out: seq<Elem>, k: nat, mid: nat,
                     list: Node?, tail: Node?)
    requires Merging(nodes, keys, s, out, k, k, k, list, tail) && k <= mid <= |s|
    ensures Merging(nodes, keys, s, out, k, mid, mid, list, tail) && Pending(nodes, s, k, |s|)
  {
  }

  lemma Assoc(a: seq<Elem>, b: seq<Elem>, c: seq<Elem>)
    ensures a + (b + c) == (a + b) + c
  {
  }

  lemma NothingLeft(stray: bool, s: seq<Elem>, w: nat)
    requires s == [] && w > 0
    ensures Pass(stray, s, w) == [] && RunCount(0, 2 * w) == 0
  {
  }

  lemma MoveOver(out: seq<Elem>, x: Elem, rest: seq<Elem>)
    ensures out + ([x] + rest) == (out + [x]) + rest
  {
  }

  lemma MergeEmpty(stray: bool, p: seq<Elem>, q: seq<Elem>)
    requires p == [] && q == []
    ensures Merge(stray, p, q) == []
  {
  }

  lemma MergingEnd(nodes: seq<Node>, keys: seq<Key>, s: seq<Elem>, out: seq<Elem>, a: nat, mid: nat, b: nat, end: nat,
                   list: Node?, tail: Node?)
    requires Merging(nodes, keys, s, out, a, mid, b, list, tail) && a == mid && b == end
    ensures Merging(nodes, keys, s, out, end, end, end, list, tail)
  {
  }

  /** One step of Merge on s[a..mid] and s[b..end]. */
  lemma MergeStep(stray: bool, s: seq<Elem>, a: nat, mid: nat, b: nat, end: nat)
    requires a <= mid <= b <= end <= |s| && (a < mid || b < end)
    ensures var fromP := a < mid && (b == end || Compared(stray, s[a], s[b]) <= 0);
      Merge(stray, s[a..mid], s[b..end]) ==
      if fromP then [s[a]] + Merge(stray, s[a + 1..mid], s[b..end]) else [s[b]] + Merge(stray, s[a..mid], s[b + 1..end])
  {
    if a < mid {
      assert s[a..mid][1..] == s[a + 1..mid];
    }
    if b < end {
      assert s[b..end][1..] == s[b + 1..end];
    }
    if a < mid && b == end {
      assert s[a..mid] == [s[a]] + s[a + 1..mid];
    }
    if a == mid {
      assert s[b..end] == [s[b]] + s[b + 1..end];
    }
  }

  /** One merge of a pass, on the elements from `k` on. */
  lemma PassStep(stray: bool, s: seq<Elem>, k: nat, w: nat, mid: nat, end: nat)
    requires w > 0 && k < |s|
    requires mid == (if k + w <= |s| then k + w else |s|) && end == if mid + w <= |s| then mid + w else |s|
    ensures Pass(stray, s[k..], w) == Merge(stray, s[k..mid], s[mid..end]) + Pass(stray, s[end..], w)
    ensures RunCount(|s| - k, 2 * w) == 1 + RunCount(|s| - end, 2 * w)
  {
    hide Merge;
    MergeNothing(stray, s[k..mid]);
    var t := s[k..];
    if |t| <= w {
      assert s[k..mid] == t && s[mid..end] == [] && s[end..] == [];
    } else if |t| <= 2 * w {
      assert t[..w] == s[k..mid] && t[w..] == s[mid..end] && s[end..] == [];
    } else {
      assert t[..w] == s[k..mid] && t[w..2 * w] == s[mid..end] && t[2 * w..] == s[end..];
    }
  }

  lemma MergeNothing(stray: bool, p: seq<Elem>)
    ensures Merge(stray, p, []) == p
  {
  }

  /** The whole of `s` is a list that can be walked by next, starting at `list`. */
  ghost predicate Walkable(nodes: seq<Node>, keys: seq<Key>, s: seq<Elem>, list: Node?)
    reads nodes
  {
    && Distinct(nodes) && |keys| == |nodes| && KeysAre(nodes, keys) && Proper(keys, s)
    && Fits(nodes, s) && Pending(nodes, s, 0, |s|) && list == Of(nodes, s, 0)
  }

  lemma StartMerging(nodes: seq<Node>, keys: seq<Key>, s: seq<Elem>, list: Node?)
    requires Walkable(nodes, keys, s, list)
    ensures Fits(nodes, s) && list == Of(nodes, s, 0) && Merging(nodes, keys, s, [], 0, 0, 0, null, null)
  {
  }

  /** Steps up to `insize` places along from `p`. */
  method StepAlong(p: Node?, insize: nat, ghost nodes: seq<Node>, ghost s: seq<Elem>, ghost k: nat)
    returns (q: Node?, psize: nat)
    requires Fits(nodes, s) && k < |s| && Pending(nodes, s, k, |s|) && p == Of(nodes, s, k) && insize > 0
    ensures psize == (if k + insize <= |s| then insize else |s| - k) && q == Of(nodes, s, k + psize)
  {
    q := p;
    psize := 0;
    var i := 0;
    while i < insize
      invariant i == psize <= insize && k + psize <= |s| && q == Of(nodes, s, k + psize) && q != null
    {
      psize := psize + 1;
      q := q.next;
      if q == null { break; }
      i := i + 1;
    }
  }

  /** The end of a pass: what was the last node of some run gets no successor. */
  method CloseList(list: Node?, tail: Node?, ghost nodes: seq<Node>, ghost keys: seq<Key>, ghost s: seq<Elem>,
                   ghost t: seq<Elem>)
    requires Merging(nodes, keys, s, t, |s|, |s|, |s|, list, tail) && t != []
    modifies (set n | n in nodes)`next
    ensures Walkable(nodes, keys, t, list) && Built(nodes, t)
  {
    hide Distinct, KeyOf;
    LastApart(nodes, keys, s, t);
    tail.next := null;
  }

  lemma LastApart(nodes: seq<Node>, keys: seq<Key>, s: seq<Elem>, out: seq<Elem>)
    requires Split(keys, s, out, |s|, |s|, |s|) && |keys| == |nodes| && Distinct(nodes) && Fits(nodes, out)
    ensures forall i | 0 <= i < |out| - 1 :: nodes[out[i].place] != Of(nodes, out, |out| - 1)
  {
    forall i | 0 <= i < |out| - 1 ensures nodes[out[i].place] != nodes[out[|out| - 1].place] {
      assert out[i].place != out[|out| - 1].place;
    }
  }

  /** One pass of listsort's outer loop. */
  method SortPass(list0: Node, insize: nat, stray: bool, ghost nodes: seq<Node>, ghost keys: seq<Key>, ghost s: seq<Elem>)
    returns (list: Node?, nmerges: nat, ghost t: seq<Elem>)
    requires insize > 0 && Walkable(nodes, keys, s, list0) && (stray ==> KeysComparable(keys))
    modifies (set n | n in nodes)`next, (set n | n in nodes)`prev
    ensures t == Pass(stray, s, insize) && nmerges == RunCount(|s|, 2 * insize)
    ensures Walkable(nodes, keys, t, list) && Built(nodes, t)
  {
    hide Walkable, Merging, KeysComparable, Merge, Pass, RunCount, Built, Distinct, KeysAre, Proper, Split, Apart, NoTwice, Pending;
    var p: Node? := list0;
    list := null;
    var tail: Node? := null;
    nmerges := 0;
    t := [];
    ghost var k := 0;
    StartMerging(nodes, keys, s, list0);
    assert s[0..] == s && [] + Pass(stray, s, insize) == Pass(stray, s, insize);
    while p != null
      invariant 0 <= k <= |s| && Fits(nodes, s) && p == Of(nodes, s, k)
      invariant Merging(nodes, keys, s, t, k, k, k, list, tail)
      invariant t + Pass(stray, s[k..], insize) == Pass(stray, s, insize)
      invariant nmerges + RunCount(|s| - k, 2 * insize) == RunCount(|s|, 2 * insize)
      decreases |s| - k
    {
      nmerges := nmerges + 1;
      ghost var mid := if k + insize <= |s| then k + insize else |s|;
      ghost var end := if mid + insize <= |s| then mid + insize else |s|;
      PassStep(stray, s, k, insize, mid, end);
      MergingSplit(nodes, keys, s, t, k, mid, list, tail);
      var q, psize := StepAlong(p, insize, nodes, s, k);
      ghost var before := t;
      q, list, tail, t := MergeRuns(p, q, psize, insize, list, tail, stray, nodes, keys, s, t, k, end);
      Assoc(before, Merge(stray, s[k..mid], s[mid..end]), Pass(stray, s[end..], insize));
      p := q;
      k := end;
    }
    NothingLeft(stray, s[k..], insize);
    CloseList(list, tail, nodes, keys, s, t);
  }

  /** What a sorted list looks like: linked both ways, from `list` on, over the nodes of `t`. */
  lemma Sorted(nodes: seq<Node>, keys: seq<Key>, t: seq<Elem>, list: Node?)
    requires Walkable(nodes, keys, t, list) && Built(nodes, t)
    ensures Fits(nodes, t) && DoublyLinked(Nodes(nodes, t)) && list == NodeAt(Nodes(nodes, t), 0)
  {
    hide KeysAre, Of;
    var r := Nodes(nodes, t);
    forall i, j | 0 <= i < j < |r| ensures r[i] != r[j] {
      assert t[i].place != t[j].place;
    }
    forall i | -1 <= i <= |t| ensures Of(nodes, t, i) == NodeAt(r, i) {
      OfIs(nodes, t, i);
    }
    forall i | 0 <= i < |r| ensures r[i].next == NodeAt(r, i + 1) && r[i].prev == NodeAt(r, i - 1) {
      assert nodes[t[i].place].next == Of(nodes, t, i + 1) && nodes[t[i].place].prev == Of(nodes, t, i - 1);
    }
  }

  lemma OfIs(nodes: seq<Node>, t: seq<Elem>, i: int)
    requires Fits(nodes, t)
    ensures Of(nodes, t, i) == NodeAt(Nodes(nodes, t), i)
  {
  }

  /**
   listsort(list, 0, 1): relinks the nodes of a list into sorted order. `order` is the resulting
   arrangement, the one of MergeSort.Sorts. The code must be able to compare the items: on others it
   reads past the end of a string (NaturalOrder.LeavesStrings).
   */
  method ListSort(list0: Node?, stray: bool, ghost nodes: seq<Node>) returns (list: Node?, ghost order: seq<Elem>)
    requires Chain(nodes) && list0 == NodeAt(nodes, 0)
    requires |nodes| > 1 ==> forall n | n in nodes :: n.data.Some?
    requires stray ==> KeysComparable(Keys(nodes))
    modifies (set n | n in nodes)`next, (set n | n in nodes)`prev
    ensures Ordered(stray, order) && multiset(order) == multiset(Elems(old(Keys(nodes))))
    ensures Fits(nodes, order) && DoublyLinked(Nodes(nodes, order)) && list == NodeAt(Nodes(nodes, order), 0)
  {
    hide Walkable, Built, KeysComparable, Pass, Passes, DoublyLinked, Chain, Distinct, KeyOf, Nodes, Elems, Ordered;
    ghost var keys := Keys(nodes);
    order := Elems(keys);
    Sorts(stray, keys);
    if list0 == null {
      EmptyList(stray, nodes, order);
      return null, order;
    }
    list := list0;
    StartSorting(nodes, keys, list);
    var insize := 1;
    while true
      invariant insize > 0 && list != null && Walkable(nodes, keys, order, list)
      invariant Passes(stray, order, insize) == Passes(stray, Elems(keys), 1)
      decreases |order| - insize
    {
      var nmerges;
      NextPass(stray, order, insize);
      list, nmerges, order := SortPass(list, insize, stray, nodes, keys, order);
      Sorted(nodes, keys, order, list);
      if nmerges <= 1 {
        return;
      }
      insize := insize * 2;
    }
  }

  lemma EmptyList(stray: bool, nodes: seq<Node>, order: seq<Elem>)
    requires nodes == [] && order == []
    ensures Passes(stray, order, 1) == order
    ensures DoublyLinked(Nodes(nodes, order)) && NodeAt(Nodes(nodes, order), 0) == null
  {
  }

  lemma StartSorting(nodes: seq<Node>, keys: seq<Key>, list: Node?)
    requires Chain(nodes) && keys == Keys(nodes) && list == NodeAt(nodes, 0)
    ensures Walkable(nodes, keys, Elems(keys), list)
  {
  }

  lemma NextPass(stray: bool, s: seq<Elem>, w: nat)
    requires w > 0
    ensures RunCount(|s|, 2 * w) <= 1 <==> |s| <= 2 * w
    ensures Passes(stray, s, w) ==
      if |s| <= 2 * w then Pass(stray, s, w) else Passes(stray, Pass(stray, s, w), 2 * w)
  {
    RunsHalve(|s|, w);
  }
}
