/**
 What listsort computes, on plain sequences: bottom-up merging of runs whose length doubles with
 every pass. Each element remembers its place in the original list, so that a stable sorted
 permutation is simply an order by key and then by place.
 */
module MergeSort {
  import opened NaturalOrder

  datatype Elem = Elem(place: nat, key: Key)

  function Compared(stray: bool, x: Elem, y: Elem): int {
    KeyCompare(stray, x.key, y.key)
  }

  // ---- the specification ----

  predicate Before(stray: bool, x: Elem, y: Elem) {
    Compared(stray, x, y) < 0 || (Compared(stray, x, y) == 0 && x.place < y.place)
  }

  ghost predicate Ordered(stray: bool, s: seq<Elem>) {
    forall i, j | 0 <= i < j < |s| :: Before(stray, s[i], s[j])
  }

  /** `s` holds the places lo..lo+|s|-1 only. */
  ghost predicate Places(s: seq<Elem>, lo: nat) {
    forall i | 0 <= i < |s| :: lo <= s[i].place < lo + |s|
  }

  /** A sorted run made of the elements that started at lo.. */
  ghost predicate Run(stray: bool, s: seq<Elem>, lo: nat) {
    Ordered(stray, s) && Places(s, lo)
  }

  /** `s` is sorted runs of length `w`, the last one possibly shorter. */
  ghost predicate Runs(stray: bool, s: seq<Elem>, lo: nat, w: nat)
    requires w > 0
    decreases |s|
  {
    if |s| <= w then Run(stray, s, lo)
    else Run(stray, s[..w], lo) && Runs(stray, s[w..], lo + w, w)
  }

  function RunCount(n: nat, w: nat): nat
    requires w > 0
  {
    if n == 0 then 0 else if n <= w then 1 else 1 + RunCount(n - w, w)
  }

  // ---- the algorithm ----

  function Merge(stray: bool, p: seq<Elem>, q: seq<Elem>): (r: seq<Elem>)
    ensures |r| == |p| + |q|
    decreases |p| + |q|
  {
    if p == [] then q
    else if q == [] then p
    else if Compared(stray, p[0], q[0]) <= 0 then [p[0]] + Merge(stray, p[1..], q)
    else [q[0]] + Merge(stray, p, q[1..])
  }

  /** One pass over the list, merging neighbouring runs of length `w`. */
  function Pass(stray: bool, s: seq<Elem>, w: nat): (r: seq<Elem>)
    requires w > 0
    ensures |r| == |s|
    decreases |s|
  {
    if |s| <= w then s
    else if |s| <= 2 * w then Merge(stray, s[..w], s[w..])
    else Merge(stray, s[..w], s[w..2 * w]) + Pass(stray, s[2 * w..], w)
  }

  /** All passes from run length `w` on; the last one is the first that needs at most one merge. */
  function Passes(stray: bool, s: seq<Elem>, w: nat): (r: seq<Elem>)
    requires w > 0
    ensures |r| == |s|
    decreases |s| - w
  {
    var t := Pass(stray, s, w);
    if |s| <= 2 * w then t else Passes(stray, t, 2 * w)
  }

  // ---- merging ----

  lemma BeforeTransitive(stray: bool, x: Elem, y: Elem, z: Elem)
    requires Before(stray, x, y) && Before(stray, y, z)
    ensures Before(stray, x, z) && !Before(stray, y, x)
  {
    TotalPreorder(stray, x.key, y.key, z.key);
    TotalPreorder(stray, z.key, x.key, y.key);
    TotalPreorder(stray, y.key, z.key, x.key);
  }

  lemma {:induction false} MergeKeeps(stray: bool, p: seq<Elem>, q: seq<Elem>)
    ensures multiset(Merge(stray, p, q)) == multiset(p) + multiset(q)
    decreases |p| + |q|
  {
    if p != [] && q != [] {
      assert p == [p[0]] + p[1..] && q == [q[0]] + q[1..];
      if Compared(stray, p[0], q[0]) <= 0 {
        MergeKeeps(stray, p[1..], q);
      } else {
        MergeKeeps(stray, p, q[1..]);
      }
    }
  }

  lemma MergeHolds(stray: bool, p: seq<Elem>, q: seq<Elem>, e: Elem)
    ensures e in Merge(stray, p, q) <==> e in p || e in q
  {
    MergeKeeps(stray, p, q);
    assert e in Merge(stray, p, q) <==> e in multiset(Merge(stray, p, q));
    assert e in multiset(p) + multiset(q) <==> e in multiset(p) || e in multiset(q);
  }

  /** Merging two sorted runs, the first all from earlier places, gives one sorted run. */
  lemma {:induction false} MergeOrdered(stray: bool, p: seq<Elem>, q: seq<Elem>)
    requires Ordered(stray, p) && Ordered(stray, q)
    requires forall x, y | x in p && y in q :: x.place < y.place
    ensures Ordered(stray, Merge(stray, p, q))
    decreases |p| + |q|
  {
    hide KeyCompare;
    if p != [] && q != [] {
      var first := Compared(stray, p[0], q[0]) <= 0;
      var head, other := if first then p[0] else q[0], if first then q[0] else p[0];
      var rest := if first then Merge(stray, p[1..], q) else Merge(stray, p, q[1..]);
      if first {
        MergeOrdered(stray, p[1..], q);
      } else {
        MergeOrdered(stray, p, q[1..]);
      }
      TotalPreorder(stray, p[0].key, q[0].key, p[0].key);
      assert p[0] in p && q[0] in q;
      assert Before(stray, head, other);
      forall i | 0 <= i < |rest| ensures Before(stray, head, rest[i]) {
        MergeHolds(stray, if first then p[1..] else p, if first then q else q[1..], rest[i]);
        assert rest[i] in rest;
        HeadBefore(stray, p, q, head, other, rest[i]);
      }
      assert Merge(stray, p, q) == [head] + rest;
    }
  }

  lemma HeadBefore(stray: bool, p: seq<Elem>, q: seq<Elem>, head: Elem, other: Elem, e: Elem)
    requires p != [] && q != [] && Ordered(stray, p) && Ordered(stray, q) && Before(stray, head, other)
    requires (head == p[0] && other == q[0] && (e in p[1..] || e in q)) ||
             (head == q[0] && other == p[0] && (e in q[1..] || e in p))
    ensures Before(stray, head, e)
  {
    if i :| 0 <= i < |p| && p[i] == e && (i > 0 || head == q[0]) {
      if head == q[0] && i > 0 { BeforeTransitive(stray, head, p[0], e); }
    }
    if i :| 0 <= i < |q| && q[i] == e && (i > 0 || head == p[0]) {
      if head == p[0] && i > 0 { BeforeTransitive(stray, head, q[0], e); }
    }
  }

  lemma MergeRun(stray: bool, p: seq<Elem>, q: seq<Elem>, lo: nat)
    requires Run(stray, p, lo) && Run(stray, q, lo + |p|)
    ensures Run(stray, Merge(stray, p, q), lo)
  {
    MergeOrdered(stray, p, q);
    var r := Merge(stray, p, q);
    forall i | 0 <= i < |r| ensures lo <= r[i].place < lo + |r| {
      MergeHolds(stray, p, q, r[i]);
    }
  }

  // ---- one pass ----

  lemma {:induction false} PassKeeps(stray: bool, s: seq<Elem>, w: nat)
    requires w > 0
    ensures multiset(Pass(stray, s, w)) == multiset(s)
    decreases |s|
  {
    hide Merge;
    if |s| > 2 * w {
      var p, q, rest := s[..w], s[w..2 * w], s[2 * w..];
      MergeKeeps(stray, p, q);
      PassKeeps(stray, rest, w);
      Joined(Merge(stray, p, q), Pass(stray, rest, w));
      Joined(p, q);
      Joined(p + q, rest);
      assert s == p + q + rest;
    } else if |s| > w {
      MergeKeeps(stray, s[..w], s[w..]);
      Joined(s[..w], s[w..]);
      assert s == s[..w] + s[w..];
    }
  }

  lemma Joined(a: seq<Elem>, b: seq<Elem>)
    ensures multiset(a + b) == multiset(a) + multiset(b)
  {
  }

  /** A pass turns sorted runs of length w into sorted runs of length 2w. */
  lemma {:induction false} PassRuns(stray: bool, s: seq<Elem>, lo: nat, w: nat)
    requires w > 0 && Runs(stray, s, lo, w)
    ensures Runs(stray, Pass(stray, s, w), lo, 2 * w)
    decreases |s|
  {
    if |s| > 2 * w {
      FirstRuns(stray, s, lo, w);
      MergeRun(stray, s[..w], s[w..2 * w], lo);
      PassRuns(stray, s[2 * w..], lo + 2 * w, w);
      var r := Pass(stray, s, w);
      assert r[..2 * w] == Merge(stray, s[..w], s[w..2 * w]) && r[2 * w..] == Pass(stray, s[2 * w..], w);
    } else if |s| > w {
      MergeRun(stray, s[..w], s[w..], lo);
    }
  }

  lemma FirstRuns(stray: bool, s: seq<Elem>, lo: nat, w: nat)
    requires w > 0 && Runs(stray, s, lo, w) && |s| > 2 * w
    ensures Run(stray, s[..w], lo) && Run(stray, s[w..2 * w], lo + w) && Runs(stray, s[2 * w..], lo + 2 * w, w)
  {
    assert s[w..][..w] == s[w..2 * w] && s[w..][w..] == s[2 * w..];
  }

  /** The number of runs halves, rounding up, so a single one is left in the end. */
  lemma {:induction false} RunsHalve(n: nat, w: nat)
    requires w > 0
    ensures RunCount(n, 2 * w) == (RunCount(n, w) + 1) / 2
    ensures RunCount(n, 2 * w) <= 1 <==> n <= 2 * w
    decreases n
  {
    if n > 2 * w {
      RunsHalve(n - 2 * w, w);
    }
  }

  // ---- all passes ----

  lemma {:induction false} PassesSort(stray: bool, s: seq<Elem>, w: nat)
    requires w > 0 && Runs(stray, s, 0, w)
    ensures multiset(Passes(stray, s, w)) == multiset(s) && Run(stray, Passes(stray, s, w), 0)
    decreases |s| - w
  {
    PassKeeps(stray, s, w);
    PassRuns(stray, s, 0, w);
    if |s| > 2 * w {
      PassesSort(stray, Pass(stray, s, w), 2 * w);
    }
  }

  /** The elements of a list in their original places. */
  function Elems(keys: seq<Key>): (r: seq<Elem>)
    ensures |r| == |keys| && forall i | 0 <= i < |r| :: r[i] == Elem(i, keys[i])
  {
    seq(|keys|, i requires 0 <= i < |keys| => Elem(i, keys[i]))
  }

  lemma {:induction false} SingleRuns(stray: bool, s: seq<Elem>, lo: nat)
    requires forall i | 0 <= i < |s| :: s[i].place == lo + i
    ensures Runs(stray, s, lo, 1)
    decreases |s|
  {
    if |s| > 1 {
      SingleRuns(stray, s[1..], lo + 1);
    }
  }

  /** listsort's result: every element once, in order of key, equal keys in their original order. */
  lemma Sorts(stray: bool, keys: seq<Key>)
    ensures Ordered(stray, Passes(stray, Elems(keys), 1))
    ensures multiset(Passes(stray, Elems(keys), 1)) == multiset(Elems(keys))
  {
    SingleRuns(stray, Elems(keys), 0);
    PassesSort(stray, Elems(keys), 1);
  }

  lemma SameHead(stray: bool, s: seq<Elem>, t: seq<Elem>)
    requires Ordered(stray, s) && Ordered(stray, t) && s != [] && t != [] && s[0] in t && t[0] in s
    ensures s[0] == t[0]
  {
    hide Before;
    if s[0] != t[0] {
      var i :| 0 <= i < |t| && t[i] == s[0];
      var j :| 0 <= j < |s| && s[j] == t[0];
      BeforeTransitive(stray, s[0], t[0], s[0]);
      assert false;
    }
  }

  /** There is only one such arrangement. */
  lemma {:induction false} SortedUnique(stray: bool, s: seq<Elem>, t: seq<Elem>)
    requires Ordered(stray, s) && Ordered(stray, t) && multiset(s) == multiset(t)
    ensures s == t
    decreases |s|
  {
    hide Ordered;
    SameLength(s, t);
    if s != [] {
      assert s[0] in multiset(t) && t[0] in multiset(s);
      SameHead(stray, s, t);
      Tail(stray, s);
      Tail(stray, t);
      SortedUnique(stray, s[1..], t[1..]);
      assert s == [s[0]] + s[1..] && t == [t[0]] + t[1..];
    }
  }

  // ---- the two readings of the comparator ----

  /** The code can compare any two keys of the same position. */
  ghost predicate KeysComparable(keys: seq<Key>) {
    forall i, j | 0 <= i < |keys| && 0 <= j < |keys| && i != j && keys[i].pos == keys[j].pos ::
      StaysInside(keys[i].data, 0, keys[j].data, 0)
  }

  /** Names without repeats are comparable as keys if they are as names. */
  lemma NamesComparable(names: seq<string>, keys: seq<Key>)
    requires Comparable(names) && |keys| == |names| && forall i | 0 <= i < |keys| :: keys[i].data == names[i]
    requires forall i, j | 0 <= i < j < |names| :: names[i] != names[j]
    ensures KeysComparable(keys)
  {
  }

  /**
   If every pair of equal numbers met in two keys of the same position is followed by the same
   character, the code sorts as described.
   */
  lemma SameArrangement(keys: seq<Key>)
    requires forall i, j | 0 <= i < |keys| && 0 <= j < |keys| && i != j && keys[i].pos == keys[j].pos ::
      SameAfterRuns(keys[i].data, 0, keys[j].data, 0)
    ensures KeysComparable(keys)
    ensures Passes(true, Elems(keys), 1) == Passes(false, Elems(keys), 1)
  {
    forall i, j | 0 <= i < |keys| && 0 <= j < |keys| && i != j && keys[i].pos == keys[j].pos
      ensures StaysInside(keys[i].data, 0, keys[j].data, 0)
      ensures KeyCompare(true, keys[i], keys[j]) == KeyCompare(false, keys[i], keys[j])
    {
      SameStaysInside(keys[i].data, 0, keys[j].data, 0);
      AgreesWhenSame(keys[i].data, 0, keys[j].data, 0);
      WalkIsTokenOrder(keys[i].data, 0, keys[j].data, 0);
    }
    var s := Passes(true, Elems(keys), 1);
    Sorts(true, keys);
    Sorts(false, keys);
    hide KeyCompare;
    forall i, j | 0 <= i < j < |s| ensures Before(false, s[i], s[j]) {
      assert s[i] in multiset(Elems(keys)) && s[j] in multiset(Elems(keys));
      assert Before(true, s[i], s[j]);
      BeforeEither(keys, s[i], s[j]);
    }
    SortedUnique(false, s, Passes(false, Elems(keys), 1));
  }

  lemma BeforeEither(keys: seq<Key>, x: Elem, y: Elem)
    requires x in Elems(keys) && y in Elems(keys) && Before(true, x, y)
    requires forall i, j | 0 <= i < |keys| && 0 <= j < |keys| && i != j && keys[i].pos == keys[j].pos ::
      KeyCompare(true, keys[i], keys[j]) == KeyCompare(false, keys[i], keys[j])
    ensures Before(false, x, y)
  {
    TotalPreorder(true, x.key, x.key, x.key);
    hide Compare;
    assert x.place < |keys| && y.place < |keys| && x.key == keys[x.place] && y.key == keys[y.place];
  }

  lemma SameLength(s: seq<Elem>, t: seq<Elem>)
    requires multiset(s) == multiset(t)
    ensures |s| == |t|
  {
    assert |s| == |multiset(s)| && |t| == |multiset(t)|;
  }

  lemma Tail(stray: bool, s: seq<Elem>)
    requires Ordered(stray, s) && s != []
    ensures Ordered(stray, s[1..]) && multiset(s[1..]) == multiset(s) - multiset{s[0]}
  {
    assert s == [s[0]] + s[1..];
  }
}
