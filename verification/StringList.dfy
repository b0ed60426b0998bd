/**
 STRING_LIST as gattrib keeps it (gattrib/src/s_string_list.c): a head pointer and a count, over
 doubly linked nodes. The empty list is a head node without data; deleting the only item leaves no
 head at all.
 */
module StringList {
  import opened Wrappers
  import opened NaturalOrder
  import opened MergeSort
  import opened ListSort

  ghost predicate NoRepeats(s: seq<string>) {
    forall i, j | 0 <= i < j < |s| :: s[i] != s[j]
  }

  lemma AppendNew(s: seq<string>, item: string)
    requires NoRepeats(s) && item !in s
    ensures NoRepeats(s + [item])
  {
  }

  lemma DropOne(s: seq<string>, k: nat)
    requires NoRepeats(s) && k < |s|
    ensures NoRepeats(s[..k] + s[k + 1..])
  {
  }

  /** Links `node` behind the last node of a list. */
  method LinkLast(prev: Node, node: Node, ghost nodes: seq<Node>)
    requires DoublyLinked(nodes) && nodes != [] && prev == nodes[|nodes| - 1] && node !in nodes
    modifies prev`next, node`next, node`prev
    ensures DoublyLinked(nodes + [node])
  {
    ghost var m := |nodes|;
    assert forall i | 0 <= i < m - 1 :: nodes[i] != prev;
    node.next := null;
    node.prev := prev;
    prev.next := node;
    ghost var r := nodes + [node];
    assert forall i | 0 <= i < m :: r[i] == nodes[i];
    forall i | 0 <= i <= m ensures r[i].next == NodeAt(r, i + 1) && r[i].prev == NodeAt(r, i - 1) {
      assert i < m ==> nodes[i].prev == NodeAt(nodes, i - 1);
      assert i < m - 1 ==> nodes[i].next == NodeAt(nodes, i + 1);
    }
  }

  /** Makes the neighbours of node `k` point past it. */
  method Bypass(list: Node, head0: Node, ghost nodes: seq<Node>, ghost k: nat) returns (head: Node?)
    requires DoublyLinked(nodes) && k < |nodes| && list == nodes[k] && head0 == nodes[0]
    modifies (set n | n in nodes)`next, (set n | n in nodes)`prev
    ensures forall j {:trigger nodes[j].next} | 0 <= j < |nodes| && j != k ::
      nodes[j].next == NodeAt(nodes, if j == k - 1 then k + 1 else j + 1)
    ensures forall j {:trigger nodes[j].prev} | 0 <= j < |nodes| && j != k ::
      nodes[j].prev == NodeAt(nodes, if j == k + 1 then k - 1 else j - 1)
    ensures head == if k == 0 then NodeAt(nodes, 1) else head0
  {
    head := head0;
    var prev, next := list.prev, list.next;
    assert prev == NodeAt(nodes, k - 1) && next == NodeAt(nodes, k + 1);
    if next == null && prev == null {
      head := null;
    } else if next == null && prev != null {
      prev.next := null;
    } else if next != null && prev == null {
      next.prev := null;
      head := next;
    } else {
      prev.next := next;
      next.prev := prev;
    }
  }

  /** Takes node `k` out of a list. */
  method UnlinkNode(list: Node, head0: Node, ghost nodes: seq<Node>, ghost k: nat, ghost r: seq<Node>)
    returns (head: Node?)
    requires DoublyLinked(nodes) && k < |nodes| && list == nodes[k] && head0 == nodes[0]
    requires r == nodes[..k] + nodes[k + 1..]
    modifies (set n | n in nodes)`next, (set n | n in nodes)`prev
    ensures DoublyLinked(r) && head == NodeAt(r, 0)
  {
    hide Distinct, NodeAt;
    head := Bypass(list, head0, nodes, k);
    forall i | 0 <= i < |r| ensures r[i].next == NodeAt(r, i + 1) && r[i].prev == NodeAt(r, i - 1) {
      var j := if i < k then i else i + 1;
      Renamed(nodes, k, r, i);
      assert nodes[j].next == NodeAt(nodes, if j == k - 1 then k + 1 else j + 1);
      assert nodes[j].prev == NodeAt(nodes, if j == k + 1 then k - 1 else j - 1);
    }
    DistinctWithout(nodes, k);
    HeadWithout(nodes, k, r);
  }

  lemma Renamed(nodes: seq<Node>, k: nat, r: seq<Node>, i: nat)
    requires k < |nodes| && r == nodes[..k] + nodes[k + 1..] && i < |r|
    ensures r[i] == nodes[if i < k then i else i + 1]
    ensures NodeAt(r, i + 1) == NodeAt(nodes, if i + 1 < k then i + 1 else i + 2)
    ensures NodeAt(r, i - 1) == NodeAt(nodes, if i - 1 < k then i - 1 else i)
  {
  }

  lemma HeadWithout(nodes: seq<Node>, k: nat, r: seq<Node>)
    requires k < |nodes| && r == nodes[..k] + nodes[k + 1..]
    ensures NodeAt(r, 0) == NodeAt(nodes, if k == 0 then 1 else 0) && NodeAt(nodes, 0) == nodes[0]
  {
  }

  lemma DistinctWithout(nodes: seq<Node>, k: nat)
    requires Distinct(nodes) && k < |nodes|
    ensures Distinct(nodes[..k] + nodes[k + 1..])
  {
  }

  class StringList {
    var head: Node?
    var count: int
    ghost var nodes: seq<Node>
    /** The strings in list order. */
    ghost var items: seq<string>

    /** The form s_string_list_new gives: one node, no data. */
    ghost predicate IsBlank()
      reads this, nodes
    {
      |nodes| == 1 && nodes[0].data.None?
    }

    ghost predicate Valid()
      reads this, nodes
    {
      && DoublyLinked(nodes) && head == NodeAt(nodes, 0)
      && count == |items| && NoRepeats(items)
      && if IsBlank() then items == []
         else |items| == |nodes| && forall i | 0 <= i < |nodes| :: nodes[i].data == Some(items[i])
    }

    /** Where following the list starts. */
    lemma First()
      requires Valid() && head != null
      ensures nodes != [] && head == NodeAt(nodes, 0) && (head.data.None? <==> IsBlank())
      ensures IsBlank() ==> items == []
      ensures !IsBlank() ==> |nodes| == |items|
    {
    }

    /** How it goes on. */
    lemma Following(k: nat)
      requires Valid() && !IsBlank() && k < |nodes|
      ensures |nodes| == |items| && nodes[k].data == Some(items[k]) && nodes[k].next == NodeAt(nodes, k + 1)
    {
    }

    /** s_string_list_new */
    constructor ()
      ensures Valid() && items == [] && head != null && fresh(nodes)
    {
      var n := new Node(None, -1);
      head := n;
      count := 0;
      nodes := [n];
      items := [];
    }

    /** s_string_list_add_item */
    method AddItem(item: string)
      requires Valid()
      modifies this, nodes
      ensures Valid() && (head == null <==> old(head) == null)
      ensures forall i | 0 <= i < |nodes| :: nodes[i] in old(nodes) || fresh(nodes[i])
      ensures items == if old(head) == null || item in old(items) then old(items) else old(items) + [item]
    {
      if head == null {
        return;
      }
      if head.data.None? {
        head.data := Some(item);
        head.next := null;
        head.prev := null;
        head.pos := count;
        count := count + 1;
        items := [item];
        return;
      }
      var prev := head;
      var list: Node? := head;
      ghost var k := 0;
      while list != null
        invariant 0 <= k <= |nodes| && list == NodeAt(nodes, k) && prev == nodes[if k == 0 then 0 else k - 1]
        invariant item !in items[..k]
        decreases |nodes| - k
      {
        if list.data.value == item {
          assert items[k] == item;
          return;
        }
        prev := list;
        list := list.next;
        k := k + 1;
      }
      assert items[..k] == items;
      AppendNode(prev, item);
    }

    /** The last lines of s_string_list_add_item: a new node behind the last one. */
    method AppendNode(prev: Node, item: string)
      requires Valid() && !IsBlank() && nodes != [] && prev == nodes[|nodes| - 1] && item !in items
      modifies this, nodes
      ensures Valid() && head == old(head)
      ensures forall i | 0 <= i < |nodes| :: nodes[i] in old(nodes) || fresh(nodes[i])
      ensures items == old(items) + [item]
    {
      hide DoublyLinked, NoRepeats;
      AppendNew(items, item);
      var node := new Node(Some(item), 0);
      LinkLast(prev, node, nodes);
      node.pos := count;
      count := count + 1;
      nodes := nodes + [node];
      items := items + [item];
    }

    /** s_string_list_find_in_list */
    method FindInList(item: string) returns (index: int)
      requires Valid() && head != null
      ensures if item in items then 0 <= index < |items| && items[index] == item else index == -1
    {
      if head.data.None? {
        return -1;
      }
      index := 0;
      var list: Node? := head;
      while list != null
        invariant 0 <= index <= |nodes| && list == NodeAt(nodes, index)
        invariant item !in items[..index]
        decreases |nodes| - index
      {
        if list.data.value == item {
          return index;
        }
        list := list.next;
        index := index + 1;
      }
      assert items[..index] == items;
      return -1;
    }

    /**
     s_string_list_get_data_at_index. One past the end the C code follows a null pointer, so callers
     must not ask for it.
     */
    method GetDataAtIndex(index: int) returns (data: Option<string>)
      requires Valid() && head != null && (items != [] ==> index != |items|)
      ensures data == if items == [] || index > |items| then None else Some(items[if index < 0 then 0 else index])
    {
      if head.data.None? {
        return None;
      }
      var item: Node? := head;
      var i := 0;
      while i < index
        invariant 0 <= i <= |nodes| && (index < 0 ==> i == 0) && (0 <= index ==> i <= index)
        invariant item == NodeAt(nodes, i)
      {
        if item == null {
          return None;
        } else {
          item := item.next;
        }
        i := i + 1;
      }
      return item.data;
    }

    /** Looking up an item and reading at that index are inverse to each other. */
    method LookupRoundTrip(index: nat) returns (data: Option<string>, back: int)
      requires Valid() && head != null && index < |items|
      ensures data == Some(items[index]) && back == index
    {
      data := GetDataAtIndex(index);
      back := FindInList(data.value);
    }

    /** The part of s_string_list_delete_item that takes the node found out of the list. */
    method Unlink(list: Node, ghost k: nat)
      requires Valid() && !IsBlank() && k < |nodes| && list == nodes[k] && NoRepeats(items[..k] + items[k + 1..])
      modifies this, nodes
      ensures Valid() && forall n | n in nodes :: n in old(nodes)
      ensures items == old(items)[..k] + old(items)[k + 1..]
      ensures head == null <==> |old(items)| == 1
    {
      hide DoublyLinked, NoRepeats;
      ghost var was := nodes;
      head := UnlinkNode(list, head, nodes, k, nodes[..k] + nodes[k + 1..]);
      count := count - 1;
      nodes := nodes[..k] + nodes[k + 1..];
      items := items[..k] + items[k + 1..];
      assert forall i | 0 <= i < |nodes| :: nodes[i] == was[if i < k then i else i + 1];
    }

    /** s_string_list_delete_item */
    method DeleteItem(item: string)
      requires Valid() && head != null
      modifies this, nodes
      ensures Valid() && forall n | n in nodes :: n in old(nodes)
      ensures item !in old(items) ==> items == old(items) && head == old(head)
      ensures item in old(items) ==>
        items == Without(old(items), item) && (head == null <==> |old(items)| == 1)
    {
      if head.data.None? {
        return;
      }
      var list: Node? := head;
      ghost var k := 0;
      while list != null
        invariant 0 <= k <= |nodes| && list == NodeAt(nodes, k)
        invariant item !in items[..k]
        decreases |nodes| - k
      {
        if list.data.value == item {
          WithoutAt(items, k);
          DropOne(items, k);
          Unlink(list, k);
          return;
        }
        list := list.next;
        k := k + 1;
      }
      assert items[..k] == items;
    }

    // ---- sorting the master lists ----

    /** Gives every item its sort position. */
    method SetPositions(ofAttribs: bool)
      requires Valid()
      modifies nodes`pos
      ensures Valid() && forall i | 0 <= i < |nodes| && nodes[i].data.Some? ::
        nodes[i].pos == if ofAttribs then AttribPos(nodes[i].data.value) else 0
    {
      var p := head;
      ghost var k := 0;
      while p != null
        invariant 0 <= k <= |nodes| && p == NodeAt(nodes, k)
        invariant forall i | 0 <= i < k && nodes[i].data.Some? ::
          nodes[i].pos == if ofAttribs then AttribPos(nodes[i].data.value) else 0
        decreases |nodes| - k
      {
        if !ofAttribs {
          p.pos := 0;
        } else {
          p.pos := DEFAULT_ATTRIB_POS;
          if p.data.Some? {
            p.pos := AttribPos(p.data.value);
          }
        }
        p := p.next;
        k := k + 1;
      }
    }

    /** Renumbers the items in list order. */
    method Renumber()
      requires Valid()
      modifies nodes`pos
      ensures Valid() && forall i | 0 <= i < |nodes| :: nodes[i].pos == i
    {
      var i := 0;
      var list := head;
      while list != null
        invariant 0 <= i <= |nodes| && list == NodeAt(nodes, i)
        invariant forall k | 0 <= k < i :: nodes[k].pos == k
        decreases |nodes| - i
      {
        list.pos := i;
        i := i + 1;
        list := list.next;
      }
    }

    /**
     s_string_list_sort_master_comp_attrib_list, and s_string_list_sort_master_comp_list when not
     `ofAttribs`; the latter follows the head, so there must be one. `order` says which item of the old
     list comes where.
     */
    method SortMaster(ofAttribs: bool, stray: bool) returns (ghost order: seq<Elem>)
      requires Valid() && (stray ==> Comparable(items)) && (head == null ==> ofAttribs)
      modifies this, nodes
      ensures Valid() && (head == null <==> old(head) == null)
      ensures forall n :: n in nodes <==> n in old(nodes)
      ensures forall i | 0 <= i < |nodes| :: nodes[i].pos == i
      ensures items == Names(order) && Ordered(stray, order)
      ensures multiset(order) == multiset(Elems(ItemKeys(ofAttribs, old(items))))
    {
      hide DoublyLinked, NoRepeats, Ordered, Distinct, AttribPos, Elems, Names, Comparable;
      SetPositions(ofAttribs);
      order := SortItems(ofAttribs, stray);
      assert forall i | 0 <= i < |nodes| :: nodes[i] in nodes && nodes[i] in old(nodes);
      Renumber();
    }

    /** The listsort call of both functions. */
    method SortItems(ofAttribs: bool, stray: bool) returns (ghost order: seq<Elem>)
      requires Valid() && (stray ==> Comparable(items))
      requires forall i | 0 <= i < |nodes| && nodes[i].data.Some? ::
        nodes[i].pos == if ofAttribs then AttribPos(nodes[i].data.value) else 0
      modifies this, nodes
      ensures Valid() && (head == null <==> old(head) == null)
      ensures forall n :: n in nodes <==> n in old(nodes)
      ensures items == Names(order) && Ordered(stray, order)
      ensures multiset(order) == multiset(Elems(ItemKeys(ofAttribs, old(items))))
    {
      hide DoublyLinked, NoRepeats, Ordered, Distinct, Comparable, KeysComparable, AttribPos, Chain, Elems, Nodes, Names, SameItems, Keys, KeyOf;
      if head != null && head.data.None? {
        // a single node: listsort gives it back as it is
        NothingSorted(stray, ofAttribs, items);
        return [];
      }
      ghost var was, old_items := nodes, items;
      LinkedIsChain(nodes);
      KeysOfItems(ofAttribs, nodes, items);
      ItemsComparable(ofAttribs, items);
      var list;
      list, order := ListSort.ListSort(head, stray, nodes);
      ArrangedNames(ofAttribs, old_items, order);
      Rearranged(ItemKeys(ofAttribs, old_items), was, order);
      ghost var ns, its := Nodes(was, order), Names(order);
      forall i | 0 <= i < |ns| ensures ns[i].data == Some(its[i]) {
        assert its[i] == old_items[order[i].place] && ns[i] == was[order[i].place];
      }
      Adopt(list, ns, its);
    }

    /** The list now starts at `list`. */
    method Adopt(list: Node?, ghost ns: seq<Node>, ghost its: seq<string>)
      requires DoublyLinked(ns) && list == NodeAt(ns, 0)
      requires count == |its| == |ns| && NoRepeats(its) && forall i | 0 <= i < |ns| :: ns[i].data == Some(its[i])
      modifies `head, `nodes, `items
      ensures Valid() && nodes == ns && items == its && head == list
    {
      hide DoublyLinked, NoRepeats;
      head := list;
      nodes := ns;
      items := its;
    }
  }

  lemma NothingSorted(stray: bool, ofAttribs: bool, items: seq<string>)
    requires items == []
    ensures Ordered(stray, []) && Names([]) == [] && multiset(Elems(ItemKeys(ofAttribs, items))) == multiset([])
  {
  }

  lemma KeysOfItems(ofAttribs: bool, nodes: seq<Node>, items: seq<string>)
    requires |nodes| == |items| && forall i | 0 <= i < |nodes| :: nodes[i].data == Some(items[i])
    requires forall i | 0 <= i < |nodes| && nodes[i].data.Some? ::
      nodes[i].pos == if ofAttribs then AttribPos(nodes[i].data.value) else 0
    ensures Keys(nodes) == ItemKeys(ofAttribs, items)
  {
  }

  lemma ItemsComparable(ofAttribs: bool, items: seq<string>)
    requires NoRepeats(items)
    ensures Comparable(items) ==> KeysComparable(ItemKeys(ofAttribs, items))
  {
    if Comparable(items) { NamesComparable(items, ItemKeys(ofAttribs, items)); }
  }

  lemma LinkedIsChain(nodes: seq<Node>)
    requires DoublyLinked(nodes)
    ensures Chain(nodes)
  {
  }

  /** A sorted arrangement of the nodes of a list holds each node and each key once. */
  lemma Rearranged(keys: seq<Key>, nodes: seq<Node>, order: seq<Elem>)
    requires |keys| == |nodes| && multiset(order) == multiset(Elems(keys)) && Fits(nodes, order)
    ensures |order| == |nodes|
    ensures forall i | 0 <= i < |order| :: order[i].key == keys[order[i].place]
    ensures forall n :: n in Nodes(nodes, order) <==> n in nodes
  {
    assert |order| == |multiset(order)| && |Elems(keys)| == |multiset(Elems(keys))|;
    forall i | 0 <= i < |order| ensures order[i].key == keys[order[i].place] {
      assert order[i] in multiset(Elems(keys));
    }
    forall n | n in nodes ensures n in Nodes(nodes, order) {
      var p :| 0 <= p < |nodes| && nodes[p] == n;
      assert Elems(keys)[p] in multiset(order);
      var i :| 0 <= i < |order| && order[i] == Elem(p, keys[p]);
      assert Nodes(nodes, order)[i] == n;
    }
  }

  /** `order` arranges the items: each occurs in it, with its key, and nothing else does. */
  ghost predicate SameItems(ofAttribs: bool, items: seq<string>, order: seq<Elem>) {
    && (forall x :: x in Names(order) <==> x in items)
    && forall i | 0 <= i < |order| ::
         order[i].place < |items| && order[i].key == ItemKey(ofAttribs, items[order[i].place])
  }

  lemma ArrangedNames(ofAttribs: bool, items: seq<string>, order: seq<Elem>)
    requires NoRepeats(items) && multiset(order) == multiset(Elems(ItemKeys(ofAttribs, items)))
    ensures NoRepeats(Names(order)) && |order| == |items| && SameItems(ofAttribs, items, order)
    ensures forall i | 0 <= i < |order| :: order[i].place < |items| && Names(order)[i] == items[order[i].place]
  {
    var elems := Elems(ItemKeys(ofAttribs, items));
    assert |order| == |multiset(order)| && |elems| == |multiset(elems)|;
    forall i | 0 <= i < |order|
      ensures order[i].place < |items| && order[i].key == ItemKey(ofAttribs, items[order[i].place])
    {
      assert order[i] in multiset(elems);
    }
    forall x | x in items ensures x in Names(order) {
      var p :| 0 <= p < |items| && items[p] == x;
      assert elems[p] in multiset(order);
      var i :| 0 <= i < |order| && order[i] == elems[p];
      assert Names(order)[i] == x;
    }
    OnceEach(elems);
    forall i, j | 0 <= i < j < |order| ensures Names(order)[i] != Names(order)[j] {
      if order[i] == order[j] { TwiceIn(order, i, j); }
    }
  }

  /** No element of a list in its original order occurs twice. */
  lemma {:induction false} OnceEach(s: seq<Elem>)
    requires forall i, j | 0 <= i < j < |s| :: s[i] != s[j]
    ensures forall x :: multiset(s)[x] <= 1
  {
    if s != [] {
      OnceEach(s[1..]);
      assert s == [s[0]] + s[1..];
    }
  }

  lemma TwiceIn(s: seq<Elem>, i: nat, j: nat)
    requires i < j < |s| && s[i] == s[j]
    ensures multiset(s)[s[i]] >= 2
  {
    var a, b := s[..i + 1], s[i + 1..];
    assert s == a + b;
    assert a[i] in multiset(a) && b[j - i - 1] in multiset(b);
  }

  const DEFAULT_ATTRIB_POS := 100

  /** The certain_attribs table. */
  function AttribPos(name: string): int {
    if name == "device" then 1
    else if name == "footprint" then 2
    else if name == "value" then 3
    else if name == "symversion" then 200
    else DEFAULT_ATTRIB_POS
  }

  function ItemKey(ofAttribs: bool, item: string): Key {
    Key(if ofAttribs then AttribPos(item) else 0, item)
  }

  function ItemKeys(ofAttribs: bool, items: seq<string>): (r: seq<Key>)
    ensures |r| == |items| && forall i | 0 <= i < |r| :: r[i] == ItemKey(ofAttribs, items[i])
  {
    seq(|items|, i requires 0 <= i < |items| => ItemKey(ofAttribs, items[i]))
  }

  function Names(order: seq<Elem>): (r: seq<string>)
    ensures |r| == |order| && forall i | 0 <= i < |r| :: r[i] == order[i].key.data
  {
    seq(|order|, i requires 0 <= i < |order| => order[i].key.data)
  }

  /** Where the fixed attributes stand after sorting: the first three in front, symversion at the end, the others in order. */
  lemma AttribColumns(stray: bool, items: seq<string>, order: seq<Elem>)
    requires NoRepeats(items) && Ordered(stray, order) && multiset(order) == multiset(Elems(ItemKeys(true, items)))
    ensures var c := Names(order);
      var d := if "device" in items then 1 else 0;
      var f := if "footprint" in items then 1 else 0;
      && |c| == |items|
      && ("device" in items ==> c[0] == "device")
      && ("footprint" in items ==> c[d] == "footprint")
      && ("value" in items ==> c[d + f] == "value")
      && ("symversion" in items ==> c[|c| - 1] == "symversion")
    ensures forall i, j | 0 <= i < j < |order| ::
      var x, y, fixed := Names(order)[i], Names(order)[j], ["device", "footprint", "value", "symversion"];
      x !in fixed && y !in fixed ==> Compare(stray, x, y) <= 0
  {
    hide Compare, Ordered, AttribPos, NoRepeats, Names, Elems, ItemKeys;
    AttribsByPosition(stray, items, order);
    forall i, j | 0 <= i < j < |order|
      ensures var x, y, fixed := Names(order)[i], Names(order)[j], ["device", "footprint", "value", "symversion"];
        x !in fixed && y !in fixed ==> Compare(stray, x, y) <= 0
    {
      OtherAttrib(Names(order)[i]);
      OtherAttrib(Names(order)[j]);
    }
  }

  lemma AttribsByPosition(stray: bool, items: seq<string>, order: seq<Elem>)
    requires NoRepeats(items) && Ordered(stray, order) && multiset(order) == multiset(Elems(ItemKeys(true, items)))
    ensures var c := Names(order);
      var d := if "device" in items then 1 else 0;
      var f := if "footprint" in items then 1 else 0;
      && |c| == |items|
      && ("device" in items ==> c[0] == "device")
      && ("footprint" in items ==> c[d] == "footprint")
      && ("value" in items ==> c[d + f] == "value")
      && ("symversion" in items ==> c[|c| - 1] == "symversion")
      && forall i, j | 0 <= i < j < |c| && AttribPos(c[i]) == DEFAULT_ATTRIB_POS == AttribPos(c[j]) ::
           Compare(stray, c[i], c[j]) <= 0
  {
    hide Compare, Ordered, AttribPos, NoRepeats;
    ArrangedNames(true, items, order);
    var c := Names(order);
    forall i, j | 0 <= i < j < |c|
      ensures AttribPos(c[i]) <= AttribPos(c[j])
      ensures AttribPos(c[i]) == AttribPos(c[j]) ==> Compare(stray, c[i], c[j]) <= 0
    {
      OrderedNames(stray, items, order, i, j);
    }
    FixedColumns(c);
  }

  lemma OtherAttrib(name: string)
    ensures name !in ["device", "footprint", "value", "symversion"] ==> AttribPos(name) == DEFAULT_ATTRIB_POS
  {
  }

  /** Designators are in the order of the comparison alone. */
  lemma RowsInOrder(stray: bool, items: seq<string>, order: seq<Elem>)
    requires Ordered(stray, order) && multiset(order) == multiset(Elems(ItemKeys(false, items)))
    ensures forall i, j | 0 <= i < j < |order| :: Compare(stray, Names(order)[i], Names(order)[j]) <= 0
  {
    hide Compare;
    forall i, j | 0 <= i < j < |order| ensures Compare(stray, Names(order)[i], Names(order)[j]) <= 0 {
      assert order[i] in multiset(Elems(ItemKeys(false, items))) && order[j] in multiset(Elems(ItemKeys(false, items)));
      assert Before(stray, order[i], order[j]);
    }
  }

  lemma OrderedNames(stray: bool, items: seq<string>, order: seq<Elem>, i: nat, j: nat)
    requires Ordered(stray, order) && SameItems(true, items, order) && i < j < |order|
    ensures AttribPos(order[i].key.data) <= AttribPos(order[j].key.data)
    ensures AttribPos(order[i].key.data) == AttribPos(order[j].key.data) ==>
      Compare(stray, order[i].key.data, order[j].key.data) <= 0
  {
    hide Compare;
    assert Before(stray, order[i], order[j]);
  }

  lemma FixedColumns(c: seq<string>)
    requires NoRepeats(c) && forall i, j | 0 <= i < j < |c| :: AttribPos(c[i]) <= AttribPos(c[j])
    ensures var d := if "device" in c then 1 else 0;
      var f := if "footprint" in c then 1 else 0;
      && ("device" in c ==> c[0] == "device")
      && ("footprint" in c ==> d < |c| && c[d] == "footprint")
      && ("value" in c ==> d + f < |c| && c[d + f] == "value")
      && ("symversion" in c ==> c[|c| - 1] == "symversion")
  {
    if "device" in c { var k := Find(c, "device"); PosBefore(c, k, 0); }
    if "symversion" in c { var k := Find(c, "symversion"); PosBefore(c, |c| - 1, k); }
    if "footprint" in c { FootprintColumn(c); }
    if "value" in c { ValueColumn(c); }
  }

  lemma FootprintColumn(c: seq<string>)
    requires NoRepeats(c) && forall i, j | 0 <= i < j < |c| :: AttribPos(c[i]) <= AttribPos(c[j])
    requires "footprint" in c
    ensures var d := if "device" in c then 1 else 0; d < |c| && c[d] == "footprint"
  {
    var k := Find(c, "footprint");
    forall i | 0 <= i < k ensures c[i] == "device" && "device" in c { PosBefore(c, k, i); }
    assert |c| > 1 ==> c[0] != c[1];
    if "device" in c { var m := Find(c, "device"); PosBefore(c, m, k); }
  }

  lemma ValueColumn(c: seq<string>)
    requires NoRepeats(c) && forall i, j | 0 <= i < j < |c| :: AttribPos(c[i]) <= AttribPos(c[j])
    requires "value" in c
    ensures var k := (if "device" in c then 1 else 0) + (if "footprint" in c then 1 else 0);
      k < |c| && c[k] == "value"
  {
    var k := Find(c, "value");
    forall i | 0 <= i < k
      ensures (c[i] == "device" && "device" in c) || (c[i] == "footprint" && "footprint" in c)
    {
      PosBefore(c, k, i);
    }
    assert |c| > 1 ==> c[0] != c[1];
    assert |c| > 2 ==> c[0] != c[2] && c[1] != c[2];
    if "device" in c { var m := Find(c, "device"); PosBefore(c, m, k); }
    if "footprint" in c { var m := Find(c, "footprint"); PosBefore(c, m, k); }
  }

  lemma PosBefore(c: seq<string>, k: nat, i: nat)
    requires k < |c| && i < |c| && NoRepeats(c)
    requires forall i, j | 0 <= i < j < |c| :: AttribPos(c[i]) <= AttribPos(c[j])
    ensures i < k ==> AttribPos(c[i]) <= AttribPos(c[k]) && c[i] != c[k]
    ensures k < i ==> AttribPos(c[k]) <= AttribPos(c[i]) && c[i] != c[k]
  {
  }

  lemma Find(s: seq<string>, item: string) returns (k: nat)
    requires item in s
    ensures k < |s| && s[k] == item
  {
    k :| 0 <= k < |s| && s[k] == item;
  }

  /** `s` without every occurrence of `item`. */
  function Without(s: seq<string>, item: string): seq<string> {
    if s == [] then []
    else if s[0] == item then Without(s[1..], item)
    else [s[0]] + Without(s[1..], item)
  }

  lemma {:induction false} WithoutAbsent(s: seq<string>, item: string)
    requires item !in s
    ensures Without(s, item) == s
  {
    if s != [] { WithoutAbsent(s[1..], item); }
  }

  lemma {:induction false} WithoutAt(s: seq<string>, k: nat)
    requires NoRepeats(s) && k < |s|
    ensures Without(s, s[k]) == s[..k] + s[k + 1..]
  {
    if k == 0 {
      assert s[0] !in s[1..];
      WithoutAbsent(s[1..], s[0]);
      assert s[..0] + s[1..] == s[1..];
    } else {
      WithoutAt(s[1..], k - 1);
      assert s[..k] + s[k + 1..] == [s[0]] + (s[1..][..k - 1] + s[1..][k..]);
    }
  }
}
