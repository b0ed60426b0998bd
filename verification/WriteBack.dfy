/**
 The last step of saving (gattrib/src/s_toplevel.c, s_object.c): the name=value pairs that the sheet
 holds for a component are merged with the attribute texts attached to it. Which texts liblepton
 takes for attributes is its own rule: no space beside the equals sign, and nothing empty.
 */
module WriteBack {
  import opened Wrappers
  import opened NaturalOrder
  import opened ListSort
  import opened StringList
  import opened AttribTable

  // ---- the texts attached to a component ----

  /** o_attrib_string_get_name_value accepts the text. */
  predicate IsAttribute(text: string) {
    var k := IndexOf(text, '=');
    0 < k < |text| - 1 && text[k - 1] != ' ' && text[k + 1] != ' '
  }

  /** The name liblepton gives it, leading spaces and all. */
  function LibName(text: string): string {
    text[..IndexOf(text, '=')]
  }

  /** The text is found under the name that gattrib gives it. */
  predicate Found(text: string) {
    IsAttribute(text) && text[0] != ' '
  }

  /** o_attrib_search_attached_attribs_by_name, for the first attribute of that name. */
  function SearchValue(texts: seq<string>, name: string): Option<string> {
    if texts == [] then None
    else if IsAttribute(texts[0]) && LibName(texts[0]) == name then Some(texts[0][|name| + 1..])
    else SearchValue(texts[1..], name)
  }

  // ---- the designator ----

  function Built(refdes: Option<string>, uref: Option<string>, numslots: Option<string>, slot: Option<string>): Option<string> {
    var base := if refdes.Some? then refdes else uref;
    if base.None? || numslots.None? then base
    else Some(base.value + "." + if slot.Some? then slot.value else "")
  }

  /** s_attrib_get_refdes of a component with these texts, whose symbol has the `inherited` attributes. */
  function Designator(texts: seq<string>, inherited: seq<string>): Option<string> {
    var all := texts + inherited;
    Built(SearchValue(all, "refdes"), SearchValue(all, "uref"), SearchValue(all, "numslots"), SearchValue(all, "slot"))
  }

  /** Components with the same refdes and with slots have different designators iff their slots differ. */
  lemma SlotsTellApart(texts: seq<string>, inherited: seq<string>, texts': seq<string>, inherited': seq<string>)
    requires SearchValue(texts + inherited, "refdes").Some?
    requires SearchValue(texts + inherited, "refdes") == SearchValue(texts' + inherited', "refdes")
    requires SearchValue(texts + inherited, "numslots").Some? && SearchValue(texts' + inherited', "numslots").Some?
    requires SearchValue(texts + inherited, "slot").Some? && SearchValue(texts' + inherited', "slot").Some?
    ensures Designator(texts, inherited) == Designator(texts', inherited') <==>
      SearchValue(texts + inherited, "slot") == SearchValue(texts' + inherited', "slot")
  {
    hide SearchValue;
    var r := SearchValue(texts + inherited, "refdes").value;
    var s, s' := SearchValue(texts + inherited, "slot").value, SearchValue(texts' + inherited', "slot").value;
    assert (r + "." + s)[|r| + 1..] == s && (r + "." + s')[|r| + 1..] == s';
  }

  predicate HasName(texts: seq<string>, name: string) {
    exists k :: 0 <= k < |texts| && NameOf(texts[k]) == name
  }

  function ReplaceFirst(texts: seq<string>, name: string, text: string): seq<string> {
    if texts == [] then []
    else if NameOf(texts[0]) == name then [text] + texts[1..]
    else [texts[0]] + ReplaceFirst(texts[1..], name, text)
  }

  function RemoveFirst(texts: seq<string>, name: string): seq<string> {
    if texts == [] then []
    else if NameOf(texts[0]) == name then texts[1..]
    else [texts[0]] + RemoveFirst(texts[1..], name)
  }

  /** The four cases for one name. */
  function Merged(texts: seq<string>, name: string, value: Option<string>): seq<string> {
    if SearchValue(texts, name).Some? then
      if value.Some? then ReplaceFirst(texts, name, Pair(name, value.value)) else RemoveFirst(texts, name)
    else if value.Some? then texts + [Pair(name, value.value)]
    else texts
  }

  /** What a component is saved with: attributes of its symbol, designators and names listed, its pairs. */
  datatype Saving = Saving(inherited: seq<string>, rows: seq<string>, cols: seq<string>, pairs: seq<string>)

  /** What the sheet says about an item of the complete list. */
  function NewValue(e: Saving, refdes: string, item: string): Option<string> {
    if item in e.pairs && refdes in e.rows && NameOf(item) in e.cols then ValueOf(item) else None
  }

  /** One turn of the loop. Without a designator to look up in the list it follows a null pointer. */
  function Turn(e: Saving, texts: seq<string>, item: string): Option<seq<string>> {
    var refdes := Designator(texts, e.inherited);
    if refdes.None? then None else Some(Merged(texts, NameOf(item), NewValue(e, refdes.value, item)))
  }

  function MergeAll(e: Saving, texts: seq<string>, items: seq<string>): Option<seq<string>> {
    if items == [] then Some(texts)
    else
      var before := MergeAll(e, texts, items[..|items| - 1]);
      if before.None? then None else Turn(e, before.value, items[|items| - 1])
  }

  /** The attached texts whose names the sheet no longer has for the component. */
  function OldTexts(texts: seq<string>, pairs: seq<string>): seq<string> {
    if texts == [] then []
    else
      var text := texts[|texts| - 1];
      OldTexts(texts[..|texts| - 1], pairs) +
        if Excluded(NameOf(text)) || HasName(pairs, NameOf(text)) then [] else [text]
  }

  function Complete(texts: seq<string>, pairs: seq<string>): seq<string> {
    AddAll(pairs, OldTexts(texts, pairs))
  }

  // ---- the code ----

  lemma OldTextsStep(texts: seq<string>, pairs: seq<string>)
    ensures OldTexts(texts[..0], pairs) == []
    ensures forall k {:trigger texts[k]} | 0 <= k < |texts| ::
      OldTexts(texts[..k + 1], pairs) ==
        if Excluded(NameOf(texts[k])) || HasName(pairs, NameOf(texts[k])) then OldTexts(texts[..k], pairs)
        else OldTexts(texts[..k], pairs) + [texts[k]]
  {
    forall k | 0 <= k < |texts| ensures texts[..k + 1][..k] == texts[..k] && texts[..k + 1][k] == texts[k] {
    }
  }

  lemma NotBefore(list: StringList, k: nat)
    requires list.Valid() && k < |list.items|
    ensures list.items[k] !in list.items[..k]
  {
  }

  /** s_string_list_duplicate_string_list */
  method Duplicate(list: StringList) returns (copy: StringList)
    requires list.Valid() && list.head != null
    ensures fresh(copy) && copy.Valid() && copy.head != null && copy.items == list.items
    ensures forall i | 0 <= i < |copy.nodes| :: fresh(copy.nodes[i])
  {
    hide StringList.Valid, StringList.IsBlank;
    copy := new StringList();
    list.First();
    if list.head.data.None? {
      return;
    }
    ghost var items := list.items;
    var item: Node? := list.head;
    ghost var k := 0;
    while item != null
      invariant 0 <= k <= |list.nodes| && item == NodeAt(list.nodes, k) && list.Valid() && !list.IsBlank()
      invariant list.items == items && list.nodes == old(list.nodes)
      invariant fresh(copy) && copy.Valid() && copy.head != null && copy.items == items[..k]
      invariant forall i | 0 <= i < |copy.nodes| :: fresh(copy.nodes[i])
      decreases |list.nodes| - k
    {
      list.Following(k);
      assert items[..k + 1] == items[..k] + [items[k]];
      NotBefore(list, k);
      copy.AddItem(item.data.value);
      item := item.next;
      k := k + 1;
    }
    assert items[..k] == items;
  }

  /** s_string_list_in_list */
  method InList(list: StringList, item: string) returns (found: bool)
    requires list.Valid() && list.head != null
    ensures found == (item in list.items)
  {
    if list.head.data.None? {
      return false;
    }
    var node: Node? := list.head;
    ghost var k := 0;
    while node != null
      invariant 0 <= k <= |list.nodes| && node == NodeAt(list.nodes, k) && item !in list.items[..k]
      decreases |list.nodes| - k
    {
      if node.data.value == item {
        return true;
      }
      node := node.next;
      k := k + 1;
    }
    assert list.items[..k] == list.items;
    return false;
  }

  /** s_attrib_name_in_list */
  method NameInList(list: StringList, name: string) returns (found: bool)
    requires list.Valid() && list.head != null
    ensures found == HasName(list.items, name)
  {
    var node: Node? := list.head;
    ghost var k := 0;
    while node != null
      invariant 0 <= k <= |list.nodes| && node == NodeAt(list.nodes, k)
      invariant forall i | 0 <= i < k && i < |list.items| :: NameOf(list.items[i]) != name
      decreases |list.nodes| - k
    {
      if node.data.Some? && NameOf(node.data.value) == name {
        assert NameOf(list.items[k]) == name;
        return true;
      }
      node := node.next;
      k := k + 1;
    }
    return false;
  }

  /** o_attrib_search_attrib_list_by_name, for the first attribute of that name */
  method Search(texts: seq<string>, name: string) returns (value: Option<string>)
    ensures value == SearchValue(texts, name)
  {
    var k := 0;
    assert texts[0..] == texts;
    while k < |texts|
      invariant 0 <= k <= |texts| && SearchValue(texts[k..], name) == SearchValue(texts, name)
    {
      assert texts[k..][1..] == texts[k + 1..];
      if IsAttribute(texts[k]) && LibName(texts[k]) == name {
        return Some(texts[k][|name| + 1..]);
      }
      k := k + 1;
    }
    return None;
  }

  /** A component with the texts attached to it and the attributes of its symbol. */
  class Attached {
    var texts: seq<string>
    const inherited: seq<string>

    constructor (texts: seq<string>, inherited: seq<string>)
      ensures this.texts == texts && this.inherited == inherited
    {
      this.texts := texts;
      this.inherited := inherited;
    }

    /** s_attrib_get_refdes */
    method GetRefdes() returns (refdes: Option<string>)
      ensures refdes == Designator(texts, inherited)
      ensures forall r | SearchValue(texts + inherited, "refdes") == Some(r) ::
        && (SearchValue(texts + inherited, "numslots").None? ==> refdes == Some(r))
        && (SearchValue(texts + inherited, "numslots").Some? ==>
            && (forall s | SearchValue(texts + inherited, "slot") == Some(s) :: refdes == Some(r + "." + s))
            && (SearchValue(texts + inherited, "slot").None? ==> refdes == Some(r + ".")))
      ensures SearchValue(texts + inherited, "refdes").None? ==> forall u | SearchValue(texts + inherited, "uref") == Some(u) ::
        && (SearchValue(texts + inherited, "numslots").None? ==> refdes == Some(u))
        && (SearchValue(texts + inherited, "numslots").Some? ==>
            && (forall s | SearchValue(texts + inherited, "slot") == Some(s) :: refdes == Some(u + "." + s))
            && (SearchValue(texts + inherited, "slot").None? ==> refdes == Some(u + ".")))
      ensures SearchValue(texts + inherited, "refdes").None? && SearchValue(texts + inherited, "uref").None? ==> refdes.None?
    {
      refdes := Search(texts + inherited, "refdes");
      if refdes.None? {
        refdes := Search(texts + inherited, "uref");
        if refdes.None? {
          return;
        }
      }
      var numslots := Search(texts + inherited, "numslots");
      if numslots.Some? {
        var slot := Search(texts + inherited, "slot");
        assert refdes.value + "." + "" == refdes.value + ".";
        refdes := Some(refdes.value + "." + if slot.Some? then slot.value else "");
      }
    }

    /** s_object_replace_attrib_in_object */
    method Replace(name: string, value: string)
      requires HasName(texts, name)
      modifies this
      ensures texts == ReplaceFirst(old(texts), name, Pair(name, value))
    {
      var k := 0;
      while NameOf(texts[k]) != name
        invariant 0 <= k < |texts| && texts == old(texts) && forall i | 0 <= i < k :: NameOf(texts[i]) != name
        decreases |texts| - k
      {
        k := k + 1;
      }
      FirstAt(texts, name, k, Pair(name, value));
      texts := texts[k := Pair(name, value)];
    }

    /** s_object_remove_attrib_in_object */
    method Remove(name: string)
      requires HasName(texts, name)
      modifies this
      ensures texts == RemoveFirst(old(texts), name)
    {
      var k := 0;
      while NameOf(texts[k]) != name
        invariant 0 <= k < |texts| && texts == old(texts) && forall i | 0 <= i < k :: NameOf(texts[i]) != name
        decreases |texts| - k
      {
        k := k + 1;
      }
      FirstAt(texts, name, k, "");
      texts := texts[..k] + texts[k + 1..];
    }

    /** s_object_add_comp_attrib_to_object */
    method Add(name: string, value: string)
      modifies this
      ensures texts == if value == "" then old(texts) else old(texts) + [Pair(name, value)]
    {
      if |value| != 0 {
        texts := texts + [Pair(name, value)];
      }
    }

    /** One turn of the main loop of s_toplevel_update_component_attribs_in_toplevel. */
    method Merge(item: string, pairs: StringList, comps: StringList, attribs: StringList) returns (ok: bool)
      requires pairs.Valid() && pairs.head != null && comps.Valid() && comps.items != []
      requires attribs.Valid() && (attribs.items != [] || attribs.head == null)
      modifies this
      ensures var r := Turn(Saving(inherited, comps.items, attribs.items, pairs.items), old(texts), item);
        ok == r.Some? && texts == if ok then r.value else old(texts)
    {
      hide pairs.Valid, Designator, SearchValue, ReplaceFirst, RemoveFirst, HasName;
      var name := NameOf(item);
      var oldValue := Search(texts, name);
      FoundHasName(texts, name);
      var value: Option<string> := None;
      var listed := InList(pairs, item);
      if listed {
        value := RemainingString(item, '=', 1);
      }
      var refdes := GetRefdes();
      if refdes.None? {
        return false;
      }
      var row := GetIndex(comps, refdes.value);
      var col := GetIndex(attribs, name);
      if row == -1 || col == -1 {
        value := None;
      }
      if oldValue.Some? && value.Some? && |value.value| != 0 {
        Replace(name, value.value);
      } else if oldValue.Some? && value.None? {
        Remove(name);
      } else if oldValue.None? && value.Some? {
        Add(name, value.value);
      }
      return true;
    }

    /** The list of all names to look at: those of the pairs, then those only the component has. */
    method CompleteList(pairs: StringList) returns (complete: StringList)
      requires pairs.Valid() && pairs.head != null
      ensures fresh(complete) && complete.Valid() && complete.head != null
      ensures complete.items == Complete(texts, pairs.items)
    {
      hide StringList.Valid, HasName, OldTexts, NameOf, Excluded, AddAll;
      var own := texts;
      ghost var items := pairs.items;
      complete := Duplicate(pairs);
      var k := 0;
      AddNone(items);
      OldTextsStep(own, items);
      while k < |own|
        invariant 0 <= k <= |own| && pairs.Valid() && pairs.head != null && pairs.items == items
        invariant fresh(complete) && complete.Valid() && complete.head != null
        invariant forall i | 0 <= i < |complete.nodes| :: fresh(complete.nodes[i])
        invariant complete.items == AddAll(items, OldTexts(own[..k], items))
      {
        var text := own[k];
        var inPairs := NameInList(pairs, NameOf(text));
        if !Excluded(NameOf(text)) && !inPairs {
          AddOne(items, OldTexts(own[..k], items), text);
          complete.AddItem(text);
        }
        k := k + 1;
      }
      assert own[..k] == own;
    }

    /** s_toplevel_update_component_attribs_in_toplevel; not ok if it follows a null pointer on the way. */
    method Update(pairs: StringList, comps: StringList, attribs: StringList) returns (ok: bool)
      requires pairs.Valid() && pairs.head != null && comps.Valid() && comps.items != []
      requires attribs.Valid() && (attribs.items != [] || attribs.head == null)
      modifies this
      ensures var e := Saving(inherited, comps.items, attribs.items, pairs.items);
        var r := MergeAll(e, old(texts), Complete(old(texts), pairs.items));
        ok == r.Some? && (ok ==> texts == r.value)
    {
      hide Turn, MergeAll, StringList.Valid, StringList.IsBlank;
      ghost var e := Saving(inherited, comps.items, attribs.items, pairs.items);
      var complete := CompleteList(pairs);
      complete.First();
      MergeNone(e, texts, complete.items);
      if complete.head.data.None? {
        return true;
      }
      ghost var items, before := complete.items, texts;
      var node: Node? := complete.head;
      ghost var k := 0;
      while node != null
        invariant 0 <= k <= |complete.nodes| == |items| && node == NodeAt(complete.nodes, k)
        invariant complete.Valid() && complete.items == items && !complete.IsBlank()
        invariant pairs.Valid() && comps.Valid() && attribs.Valid()
        invariant Some(texts) == MergeAll(e, before, items[..k])
        decreases |items| - k
      {
        MergeNext(e, before, items, k);
        complete.Following(k);
        ok := Merge(node.data.value, pairs, comps, attribs);
        if !ok {
          NoneStays(e, before, items, k + 1);
          return false;
        }
        node := node.next;
        k := k + 1;
      }
      assert items[..k] == items;
      return true;
    }
  }

  lemma MergeNone(e: Saving, texts: seq<string>, items: seq<string>)
    ensures MergeAll(e, texts, items[..0]) == Some(texts) && (items == [] ==> MergeAll(e, texts, items) == Some(texts))
  {
  }

  lemma MergeNext(e: Saving, texts: seq<string>, items: seq<string>, k: nat)
    requires k < |items|
    ensures var before := MergeAll(e, texts, items[..k]);
      MergeAll(e, texts, items[..k + 1]) == if before.None? then None else Turn(e, before.value, items[k])
  {
    assert items[..k + 1][..k] == items[..k];
  }

  /** Nothing comes after a null pointer. */
  lemma {:induction false} NoneStays(e: Saving, texts: seq<string>, items: seq<string>, k: nat)
    requires k <= |items| && MergeAll(e, texts, items[..k]).None?
    ensures MergeAll(e, texts, items).None?
  {
    if k < |items| {
      assert items[..|items| - 1][..k] == items[..k];
      NoneStays(e, texts, items[..|items| - 1], k);
    } else {
      assert items[..k] == items;
    }
  }

  lemma FirstAt(texts: seq<string>, name: string, k: nat, text: string)
    requires k < |texts| && NameOf(texts[k]) == name && forall i | 0 <= i < k :: NameOf(texts[i]) != name
    ensures ReplaceFirst(texts, name, text) == texts[k := text]
    ensures RemoveFirst(texts, name) == texts[..k] + texts[k + 1..]
  {
    ReplacedAt(texts, name, k, text);
    RemovedAt(texts, name, k);
  }

  lemma {:induction false} ReplacedAt(texts: seq<string>, name: string, k: nat, text: string)
    requires k < |texts| && NameOf(texts[k]) == name && forall i | 0 <= i < k :: NameOf(texts[i]) != name
    ensures ReplaceFirst(texts, name, text) == texts[k := text]
  {
    hide NameOf;
    if k > 0 {
      assert forall i | 0 <= i < k :: texts[1..][i] == texts[i + 1];
      ReplacedAt(texts[1..], name, k - 1, text);
      assert texts[k := text] == [texts[0]] + texts[1..][k - 1 := text];
    }
  }

  lemma {:induction false} RemovedAt(texts: seq<string>, name: string, k: nat)
    requires k < |texts| && NameOf(texts[k]) == name && forall i | 0 <= i < k :: NameOf(texts[i]) != name
    ensures RemoveFirst(texts, name) == texts[..k] + texts[k + 1..]
  {
    hide NameOf;
    if k > 0 {
      assert forall i | 0 <= i < k :: texts[1..][i] == texts[i + 1];
      RemovedAt(texts[1..], name, k - 1);
      assert texts[..k] + texts[k + 1..] == [texts[0]] + (texts[1..][..k - 1] + texts[1..][k..]);
    }
  }

  lemma FoundName(text: string)
    ensures Found(text) ==> LibName(text) == NameOf(text)
    ensures IsAttribute(text) && !Found(text) ==> LibName(text) != [] && LibName(text)[0] == ' '
  {
    if Found(text) { assert SkipSpaces(text) == text; }
  }

  lemma FoundLonger(text: string)
    requires Found(text)
    ensures |NameOf(text)| + 1 <= |text|
  {
    FoundName(text);
  }

  /** The search finds the texts of a name that are attributes without leading spaces. */
  lemma {:induction false} FoundHasName(texts: seq<string>, name: string)
    requires name != "" ==> name[0] != ' '
    ensures SearchValue(texts, name).Some? <==> exists k :: 0 <= k < |texts| && NameOf(texts[k]) == name && Found(texts[k])
    ensures SearchValue(texts, name).Some? ==>
      exists k :: 0 <= k < |texts| && NameOf(texts[k]) == name && Found(texts[k])
                  && SearchValue(texts, name).value == texts[k][|name| + 1..]
    ensures SearchValue(texts, name).Some? ==> HasName(texts, name)
  {
    hide NameOf, LibName, Found, IsAttribute;
    if texts != [] {
      FirstFound(texts, name);
      FoundHasName(texts[1..], name);
      forall t: string | Found(t) ensures |NameOf(t)| + 1 <= |t| {
        FoundLonger(t);
      }
      if SearchValue(texts[1..], name).Some? {
        var k :| 0 <= k < |texts| - 1 && NameOf(texts[1..][k]) == name && Found(texts[1..][k])
                 && SearchValue(texts[1..], name).value == texts[1..][k][|name| + 1..];
        assert texts[k + 1] == texts[1..][k];
      }
      if k :| 0 < k < |texts| && NameOf(texts[k]) == name && Found(texts[k]) {
        assert texts[1..][k - 1] == texts[k];
      }
    }
  }

  lemma FirstFound(texts: seq<string>, name: string)
    requires texts != [] && (name != "" ==> name[0] != ' ')
    ensures SearchValue(texts, name) ==
      if Found(texts[0]) && NameOf(texts[0]) == name then Some(texts[0][|name| + 1..]) else SearchValue(texts[1..], name)
    ensures Found(texts[0]) && NameOf(texts[0]) == name ==> |name| + 1 <= |texts[0]|
  {
    FoundName(texts[0]);
  }

  /** The first text found gives the value, which is what follows its equals sign. */
  lemma {:induction false} SearchFirst(texts: seq<string>, name: string, k: nat, value: string)
    requires name != "" ==> name[0] != ' '
    requires k < |texts| && Found(texts[k]) && texts[k] == name + "=" + value && '=' !in name
    requires forall i | 0 <= i < k :: !(Found(texts[i]) && NameOf(texts[i]) == name)
    ensures SearchValue(texts, name) == Some(value)
  {
    hide NameOf, LibName, Found, IsAttribute;
    FirstFound(texts, name);
    if k > 0 {
      assert Found(texts[0]) && NameOf(texts[0]) == name ==> false;
      assert forall i | 0 <= i < k - 1 :: texts[1..][i] == texts[i + 1];
      SearchFirst(texts[1..], name, k - 1, value);
    } else {
      NameOfPair(name, value);
      assert texts[0][|name| + 1..] == value;
    }
  }

  /** Around the first equals sign of an attribute there are a name and a value, and no space beside it. */
  lemma AttributeIff(name: string, value: string)
    requires '=' !in name
    ensures IsAttribute(name + "=" + value) <==>
      name != "" && value != "" && name[|name| - 1] != ' ' && value[0] != ' '
    ensures LibName(name + "=" + value) == name
  {
    IndexOfPair(name, value);
    var text := Pair(name, value);
    assert name != "" ==> text[|name| - 1] == name[|name| - 1];
    assert value != "" ==> text[|name| + 1] == value[0];
  }

  lemma NoEqualsSign(text: string)
    requires '=' !in text
    ensures !IsAttribute(text)
  {
  }
}
