/**
 The master lists and the component table of gattrib (s_sheet_data.c, s_table.c, s_misc.c), on
 components given as a reference designator and a list of attribute texts.
 */
module AttribTable {
  import opened Wrappers
  import opened NaturalOrder
  import opened MergeSort
  import opened ListSort
  import opened StringList

  /** A component on a page: what s_attrib_get_refdes finds for it, and its attribute texts. */
  datatype Component = Component(refdes: Option<string>, attribs: seq<string>)

  // ---- attribute texts ----

  /** strchr, as an index; the length when the character is absent. */
  function IndexOf(s: string, c: char): (k: nat)
    ensures k <= |s| && (k < |s| ==> s[k] == c) && c !in s[..k]
  {
    if s == [] || s[0] == c then 0 else 1 + IndexOf(s[1..], c)
  }

  function SkipSpaces(s: string): (r: string)
    ensures r != [] ==> r[0] != ' '
  {
    if s != [] && s[0] == ' ' then SkipSpaces(s[1..]) else s
  }

  /**
   u_basic_breakup_string: the part of an attribute text before its first '=' (the whole text if there
   is none), without leading spaces.
   */
  function NameOf(text: string): (name: string)
    ensures '=' !in name && (name != "" ==> name[0] != ' ')
  {
    var t := SkipSpaces(text);
    t[..IndexOf(t, '=')]
  }

  /** The part after it without leading spaces, absent when empty. */
  function ValueOf(text: string): (v: Option<string>)
    ensures v.Some? ==> v.value != "" && v.value[0] != ' '
  {
    var k := IndexOf(text, '=');
    if k == |text| then None
    else
      var v := SkipSpaces(text[k + 1..]);
      if v == "" then None else Some(v)
  }

  /** What follows the first `count` delimiters. */
  function Behind(text: string, delimiter: char, count: nat): Option<string> {
    if count == 0 then Some(text)
    else
      var k := IndexOf(text, delimiter);
      if k == |text| then None else Behind(text[k + 1..], delimiter, count - 1)
  }

  /** s_misc_remaining_string; with count = 1 it gives the value of an attribute text. */
  method RemainingString(text: string, delimiter: char, count: nat) returns (r: Option<string>)
    ensures var behind := Behind(text, delimiter, count);
      r == if behind.None? || SkipSpaces(behind.value) == "" then None else Some(SkipSpaces(behind.value))
    ensures delimiter == '=' && count == 1 ==> r == ValueOf(text)
  {
    var remaining := text;
    var i := 0;
    ghost var k0 := IndexOf(text, delimiter);
    assert k0 < |text| ==> Behind(text, delimiter, 1) == Behind(text[k0 + 1..], delimiter, 0);
    while i < count
      invariant 0 <= i <= count
      invariant Behind(remaining, delimiter, count - i) == Behind(text, delimiter, count)
    {
      var k := IndexOf(remaining, delimiter);
      if k == |remaining| {
        return None;
      }
      remaining := remaining[k + 1..];
      i := i + 1;
    }
    ghost var tail := SkipSpaces(remaining);
    while remaining != [] && remaining[0] == ' '
      invariant SkipSpaces(remaining) == tail
      decreases |remaining|
    {
      remaining := remaining[1..];
    }
    if remaining == [] {
      return None;
    }
    return Some(remaining);
  }

  /** The attributes that never become columns. */
  predicate Excluded(name: string) {
    name == "refdes" || name == "net" || name == "slot"
  }

  // ---- what goes into the lists and the table ----

  /** One attribute of one component as it enters the table. */
  datatype Write = Write(refdes: string, name: string, value: Option<string>)

  function WritesOf(refdes: string, attribs: seq<string>): seq<Write> {
    if attribs == [] then []
    else
      var text := attribs[|attribs| - 1];
      WritesOf(refdes, attribs[..|attribs| - 1]) +
        if Excluded(NameOf(text)) then [] else [Write(refdes, NameOf(text), ValueOf(text))]
  }

  function Writes(objs: seq<Component>): seq<Write> {
    if objs == [] then []
    else
      var o := objs[|objs| - 1];
      Writes(objs[..|objs| - 1]) + if o.refdes.None? then [] else WritesOf(o.refdes.value, o.attribs)
  }

  /** The last write to row `r`, column `c`. */
  function LastWrite(ws: seq<Write>, r: string, c: string): Option<Write> {
    if ws == [] then None
    else
      var w := ws[|ws| - 1];
      if w.refdes == r && w.name == c then Some(w) else LastWrite(ws[..|ws| - 1], r, c)
  }

  /** Adding names one by one to a list without repeats. */
  function AddAll(s: seq<string>, names: seq<string>): seq<string> {
    if names == [] then s
    else
      var t := AddAll(s, names[..|names| - 1]);
      if names[|names| - 1] in t then t else t + [names[|names| - 1]]
  }

  /** The names a component contributes to the list of columns. */
  function ColumnNames(attribs: seq<string>): seq<string> {
    if attribs == [] then []
    else
      var name := NameOf(attribs[|attribs| - 1]);
      ColumnNames(attribs[..|attribs| - 1]) + if Excluded(name) then [] else [name]
  }

  function AllColumnNames(objs: seq<Component>): seq<string> {
    if objs == [] then []
    else AllColumnNames(objs[..|objs| - 1]) + ColumnNames(objs[|objs| - 1].attribs)
  }

  /** Components without attributes, or without a designator, get no row. */
  function RowNames(objs: seq<Component>): seq<string> {
    if objs == [] then []
    else
      var o := objs[|objs| - 1];
      RowNames(objs[..|objs| - 1]) + if o.attribs == [] || o.refdes.None? then [] else [o.refdes.value]
  }

  lemma {:induction false} AddAllAppends(s: seq<string>, a: seq<string>, b: seq<string>)
    ensures AddAll(s, a + b) == AddAll(AddAll(s, a), b)
  {
    if b == [] {
      assert a + b == a;
    } else {
      assert (a + b)[..|a + b| - 1] == a + b[..|b| - 1];
      AddAllAppends(s, a, b[..|b| - 1]);
    }
  }

  lemma {:induction false} AddAllHas(s: seq<string>, names: seq<string>)
    ensures forall x :: x in AddAll(s, names) <==> x in s || x in names
  {
    if names != [] {
      AddAllHas(s, names[..|names| - 1]);
      assert names == names[..|names| - 1] + [names[|names| - 1]];
    }
  }

  /** A designator turns up iff some component with attributes has it. */
  lemma {:induction false} RowNamesAre(objs: seq<Component>)
    ensures forall x :: x in RowNames(objs) <==> exists o :: o in objs && o.refdes == Some(x) && o.attribs != []
  {
    if objs != [] {
      var before, o := objs[..|objs| - 1], objs[|objs| - 1];
      RowNamesAre(before);
      assert objs == before + [o];
    }
  }

  /** An attribute name turns up iff some text has it, and it is none of the three. */
  lemma {:induction false} ColumnNamesAre(attribs: seq<string>)
    ensures forall x :: x in ColumnNames(attribs) <==>
      x != "refdes" && x != "net" && x != "slot" && exists text :: text in attribs && NameOf(text) == x
  {
    hide NameOf;
    if attribs != [] {
      var before, text := attribs[..|attribs| - 1], attribs[|attribs| - 1];
      ColumnNamesAre(before);
      assert attribs == before + [text];
    }
  }

  lemma {:induction false} AllColumnNamesAre(objs: seq<Component>)
    ensures forall x :: x in AllColumnNames(objs) <==>
      x != "refdes" && x != "net" && x != "slot" && exists o, text :: o in objs && text in o.attribs && NameOf(text) == x
  {
    hide NameOf, ColumnNames;
    if objs != [] {
      var before, o := objs[..|objs| - 1], objs[|objs| - 1];
      AllColumnNamesAre(before);
      ColumnNamesAre(o.attribs);
      assert objs == before + [o];
    }
  }

  // ---- building the master lists ----

  lemma AddOne(s: seq<string>, names: seq<string>, x: string)
    ensures AddAll(s, names + [x]) == (var t := AddAll(s, names); if x in t then t else t + [x])
  {
    assert (names + [x])[..|names|] == names;
  }

  /** s_sheet_data_add_master_comp_list_items */
  method AddMasterCompListItems(list: StringList, objs: seq<Component>)
    requires list.Valid() && list.head != null
    modifies list, list.nodes
    ensures list.Valid() && list.head != null && list.items == AddAll(old(list.items), RowNames(objs))
    ensures forall x :: x in list.items <==>
      x in old(list.items) || exists o :: o in objs && o.refdes == Some(x) && o.attribs != []
    ensures forall i | 0 <= i < |list.nodes| :: list.nodes[i] in old(list.nodes) || fresh(list.nodes[i])
  {
    hide list.Valid, AddAll;
    RowNamesAre(objs);
    AddAllHas(list.items, RowNames(objs));
    var k := 0;
    AddNone(list.items);
    while k < |objs|
      invariant 0 <= k <= |objs| && list.Valid() && list.head != null
      invariant list.items == AddAll(old(list.items), RowNames(objs[..k]))
      invariant forall i | 0 <= i < |list.nodes| :: list.nodes[i] in old(list.nodes) || fresh(list.nodes[i])
    {
      assert objs[..k + 1][..k] == objs[..k];
      if objs[k].attribs != [] && objs[k].refdes.Some? {
        AddOne(old(list.items), RowNames(objs[..k]), objs[k].refdes.value);
        list.AddItem(objs[k].refdes.value);
      } else {
        assert RowNames(objs[..k + 1]) == RowNames(objs[..k]);
      }
      k := k + 1;
    }
    assert objs[..k] == objs;
  }

  lemma AddNone(s: seq<string>)
    ensures AddAll(s, []) == s
  {
  }

  /** s_sheet_data_add_master_comp_attrib_list_items */
  method AddMasterCompAttribListItems(list: StringList, objs: seq<Component>)
    requires list.Valid() && list.head != null
    modifies list, list.nodes
    ensures list.Valid() && list.head != null && list.items == AddAll(old(list.items), AllColumnNames(objs))
    ensures forall x :: x in list.items <==>
      || x in old(list.items)
      || (x != "refdes" && x != "net" && x != "slot" && exists o, text :: o in objs && text in o.attribs && NameOf(text) == x)
    ensures forall i | 0 <= i < |list.nodes| :: list.nodes[i] in old(list.nodes) || fresh(list.nodes[i])
  {
    hide list.Valid, AddAll, NameOf, ColumnNames;
    AllColumnNamesAre(objs);
    AddAllHas(list.items, AllColumnNames(objs));
    var k := 0;
    AddNone(list.items);
    while k < |objs|
      invariant 0 <= k <= |objs| && list.Valid() && list.head != null
      invariant list.items == AddAll(old(list.items), AllColumnNames(objs[..k]))
      invariant forall i | 0 <= i < |list.nodes| :: list.nodes[i] in old(list.nodes) || fresh(list.nodes[i])
    {
      assert objs[..k + 1][..k] == objs[..k];
      AddAllAppends(old(list.items), AllColumnNames(objs[..k]), ColumnNames(objs[k].attribs));
      AddColumnNames(list, objs[k].attribs);
      k := k + 1;
    }
    assert objs[..k] == objs;
  }

  /** Its inner loop, over the attributes of one component. */
  method AddColumnNames(list: StringList, attribs: seq<string>)
    requires list.Valid() && list.head != null
    modifies list, list.nodes
    ensures list.Valid() && list.head != null && list.items == AddAll(old(list.items), ColumnNames(attribs))
    ensures forall i | 0 <= i < |list.nodes| :: list.nodes[i] in old(list.nodes) || fresh(list.nodes[i])
  {
    hide list.Valid, AddAll;
    var m := 0;
    AddNone(list.items);
    while m < |attribs|
      invariant 0 <= m <= |attribs| && list.Valid() && list.head != null
      invariant list.items == AddAll(old(list.items), ColumnNames(attribs[..m]))
      invariant forall i | 0 <= i < |list.nodes| :: list.nodes[i] in old(list.nodes) || fresh(list.nodes[i])
    {
      assert attribs[..m + 1][..m] == attribs[..m];
      var name := NameOf(attribs[m]);
      if !Excluded(name) {
        AddOne(old(list.items), ColumnNames(attribs[..m]), name);
        list.AddItem(name);
      } else {
        assert ColumnNames(attribs[..m + 1]) == ColumnNames(attribs[..m]);
      }
      m := m + 1;
    }
    assert attribs[..m] == attribs;
  }

  // ---- the table ----

  /** TABLE: one cell of the component table. */
  datatype Entry = Entry(row: int, col: int, rowName: Option<string>, colName: Option<string>, value: Option<string>)

  /** The cell after the last write to it; untouched cells are as s_table_new made them. */
  function EntryOf(ws: seq<Write>, rows: seq<string>, cols: seq<string>, i: nat, j: nat): Entry
    requires i < |rows| && j < |cols|
  {
    var w := LastWrite(ws, rows[i], cols[j]);
    if w.None? then Entry(i, j, None, None, None) else Entry(i, j, Some(rows[i]), Some(cols[j]), w.value.value)
  }

  ghost predicate Holds(table: array2<Entry>, ws: seq<Write>, rows: seq<string>, cols: seq<string>)
    reads table
  {
    && table.Length0 == |rows| && table.Length1 == |cols|
    && forall i, j | 0 <= i < |rows| && 0 <= j < |cols| :: table[i, j] == EntryOf(ws, rows, cols, i, j)
  }

  /** The value last written to row `r`, column `c`. */
  function ValueIn(ws: seq<Write>, r: string, c: string): Option<string> {
    var w := LastWrite(ws, r, c);
    if w.None? then None else w.value.value
  }

  /** The table has every value, and its column's name beside it. */
  ghost predicate Shows(table: array2<Entry>, ws: seq<Write>, rows: seq<string>, cols: seq<string>)
    reads table
  {
    && table.Length0 == |rows| && table.Length1 == |cols|
    && forall i, j | 0 <= i < |rows| && 0 <= j < |cols| ::
         table[i, j].value == ValueIn(ws, rows[i], cols[j]) &&
         (table[i, j].value.Some? ==> table[i, j].colName == Some(cols[j]))
  }

  /** s_table_new */
  method NewTable(rows: nat, cols: nat) returns (table: array2<Entry>)
    ensures fresh(table) && table.Length0 == rows && table.Length1 == cols
    ensures forall i, j | 0 <= i < rows && 0 <= j < cols :: table[i, j] == Entry(i, j, None, None, None)
  {
    table := new Entry[rows, cols];
    for i := 0 to rows
      invariant forall r, c | 0 <= r < i && 0 <= c < cols :: table[r, c] == Entry(r, c, None, None, None)
    {
      for j := 0 to cols
        invariant forall r, c | 0 <= r < i && 0 <= c < cols :: table[r, c] == Entry(r, c, None, None, None)
        invariant forall c | 0 <= c < j :: table[i, c] == Entry(i, c, None, None, None)
      {
        table[i, j] := Entry(i, j, None, None, None);
      }
    }
  }

  /** s_table_resize: more columns, the old entries kept. */
  method ResizeTable(table: array2<Entry>, newCols: nat) returns (resized: array2<Entry>)
    requires newCols >= table.Length1
    ensures fresh(resized) && resized.Length0 == table.Length0 && resized.Length1 == newCols
    ensures forall i, j | 0 <= i < resized.Length0 && 0 <= j < newCols ::
      resized[i, j] == if j < table.Length1 then table[i, j] else Entry(i, j, None, None, None)
  {
    resized := new Entry[table.Length0, newCols];
    for i := 0 to table.Length0
      invariant forall k, j | 0 <= k < i && 0 <= j < newCols ::
        resized[k, j] == if j < table.Length1 then table[k, j] else Entry(k, j, None, None, None)
    {
      for j := 0 to newCols
        invariant forall k, j | 0 <= k < i && 0 <= j < newCols ::
          resized[k, j] == if j < table.Length1 then table[k, j] else Entry(k, j, None, None, None)
        invariant forall k | 0 <= k < j ::
          resized[i, k] == if k < table.Length1 then table[i, k] else Entry(i, k, None, None, None)
      {
        resized[i, j] := if j < table.Length1 then table[i, j] else Entry(i, j, None, None, None);
      }
    }
  }

  /** s_table_get_index, on a list that has items or on the null one. */
  method GetIndex(list: StringList, item: string) returns (count: int)
    requires list.Valid() && (list.items != [] || list.head == null)
    ensures if item in list.items then 0 <= count < |list.items| && list.items[count] == item else count == -1
  {
    count := 0;
    var element := list.head;
    while element != null
      invariant 0 <= count <= |list.nodes| && element == NodeAt(list.nodes, count)
      invariant item !in list.items[..count]
      decreases |list.nodes| - count
    {
      if element.data.value == item {
        return count;
      }
      count := count + 1;
      element := element.next;
    }
    assert list.items[..count] == list.items;
    return -1;
  }

  /** Storing one attribute: the effect of the innermost lines of the table loop. */
  method Store(table: array2<Entry>, comps: StringList, attribs: StringList, w: Write, ghost ws: seq<Write>)
    requires comps.Valid() && attribs.Valid() && comps.items != [] && attribs.items != []
    requires Holds(table, ws, comps.items, attribs.items)
    modifies table
    ensures Holds(table, ws + [w], comps.items, attribs.items)
  {
    var row := GetIndex(comps, w.refdes);
    var col := GetIndex(attribs, w.name);
    ghost var rows, cols := comps.items, attribs.items;
    hide comps.Valid, attribs.Valid;
    forall i, j | 0 <= i < |rows| && 0 <= j < |cols|
      ensures EntryOf(ws + [w], rows, cols, i, j) ==
        if rows[i] == w.refdes && cols[j] == w.name then Entry(i, j, Some(w.refdes), Some(w.name), w.value)
        else EntryOf(ws, rows, cols, i, j)
    {
      assert (ws + [w])[..|ws|] == ws;
    }
    if row != -1 && col != -1 {
      table[row, col] := Entry(row, col, Some(w.refdes), Some(w.name), w.value);
    }
  }

  /** s_table_add_toplevel_comp_items_to_comp_table: one component. */
  method StoreComponent(table: array2<Entry>, comps: StringList, attribs: StringList, refdes: string,
                        texts: seq<string>, ghost ws: seq<Write>)
    requires comps.Valid() && attribs.Valid() && (WritesOf(refdes, texts) != [] ==> comps.items != [] && attribs.items != [])
    requires Holds(table, ws, comps.items, attribs.items)
    modifies table
    ensures Holds(table, ws + WritesOf(refdes, texts), comps.items, attribs.items)
  {
    hide StringList.Valid, Holds, NameOf, ValueOf, WritesOf;
    var m := 0;
    WritesOfNone(refdes, texts);
    assert ws + [] == ws;
    while m < |texts|
      invariant 0 <= m <= |texts| && comps.Valid() && attribs.Valid()
      invariant Holds(table, ws + WritesOf(refdes, texts[..m]), comps.items, attribs.items)
    {
      WritesOfStep(refdes, texts, m);
      var name := NameOf(texts[m]);
      var value := RemainingString(texts[m], '=', 1);
      if !Excluded(name) {
        ghost var done := WritesOf(refdes, texts[..m]);
        Store(table, comps, attribs, Write(refdes, name, value), ws + done);
        assert ws + done + [Write(refdes, name, value)] == ws + (done + [Write(refdes, name, value)]);
      }
      m := m + 1;
    }
    assert texts[..m] == texts;
  }

  lemma WritesOfNone(refdes: string, texts: seq<string>)
    ensures WritesOf(refdes, texts[..0]) == []
  {
  }

  lemma WritesOfStep(refdes: string, texts: seq<string>, m: nat)
    requires m < |texts|
    ensures var name, done := NameOf(texts[m]), WritesOf(refdes, texts[..m]);
      if Excluded(name) then WritesOf(refdes, texts[..m + 1]) == done
      else WritesOf(refdes, texts[..m + 1]) == done + [Write(refdes, name, ValueOf(texts[m]))] && WritesOf(refdes, texts) != []
  {
    assert texts[..m + 1][..m] == texts[..m];
    if !Excluded(NameOf(texts[m])) { WritesMonotone(refdes, texts, m + 1); }
  }

  lemma {:induction false} WritesMonotone(refdes: string, texts: seq<string>, m: nat)
    requires m <= |texts| && WritesOf(refdes, texts[..m]) != []
    ensures WritesOf(refdes, texts) != []
    decreases |texts|
  {
    if m < |texts| {
      assert texts[..|texts| - 1][..m] == texts[..m];
      WritesMonotone(refdes, texts[..|texts| - 1], m);
    } else {
      assert texts[..m] == texts;
    }
  }

  /** s_table_add_toplevel_comp_items_to_comp_table */
  method FillTable(table: array2<Entry>, comps: StringList, attribs: StringList, objs: seq<Component>)
    requires comps.Valid() && attribs.Valid() && (Writes(objs) != [] ==> comps.items != [] && attribs.items != [])
    requires Holds(table, [], comps.items, attribs.items)
    modifies table
    ensures Holds(table, Writes(objs), comps.items, attribs.items)
  {
    hide StringList.Valid, Holds, Writes, WritesOf;
    var k := 0;
    WritesNone(objs);
    while k < |objs|
      invariant 0 <= k <= |objs| && comps.Valid() && attribs.Valid()
      invariant Holds(table, Writes(objs[..k]), comps.items, attribs.items)
    {
      WritesStep(objs, k);
      if objs[k].refdes.Some? {
        StoreComponent(table, comps, attribs, objs[k].refdes.value, objs[k].attribs, Writes(objs[..k]));
      }
      k := k + 1;
    }
    assert objs[..k] == objs;
  }

  lemma WritesNone(objs: seq<Component>)
    ensures Writes(objs[..0]) == []
  {
  }

  lemma WritesStep(objs: seq<Component>, k: nat)
    requires k < |objs|
    ensures objs[k].refdes.None? ==> Writes(objs[..k + 1]) == Writes(objs[..k])
    ensures objs[k].refdes.Some? ==>
      var more := WritesOf(objs[k].refdes.value, objs[k].attribs);
      Writes(objs[..k + 1]) == Writes(objs[..k]) + more && (more != [] ==> Writes(objs) != [])
  {
    assert objs[..k + 1][..k] == objs[..k];
    if objs[k].refdes.Some? && WritesOf(objs[k].refdes.value, objs[k].attribs) != [] {
      SomeWrites(objs, k + 1);
    }
  }

  lemma {:induction false} SomeWrites(objs: seq<Component>, k: nat)
    requires k <= |objs| && Writes(objs[..k]) != []
    ensures Writes(objs) != []
    decreases |objs|
  {
    if k < |objs| {
      assert objs[..|objs| - 1][..k] == objs[..k];
      SomeWrites(objs[..|objs| - 1], k);
    } else {
      assert objs[..k] == objs;
    }
  }

  // ---- reading a component's attributes back ----

  function Pair(name: string, value: string): string {
    name + "=" + value
  }

  /** The name=value pairs of row `r`, in the order of the first `n` columns. */
  function RowPairs(ws: seq<Write>, r: string, cols: seq<string>, n: nat): seq<string>
    requires n <= |cols|
  {
    if n == 0 then []
    else
      var w := LastWrite(ws, r, cols[n - 1]);
      RowPairs(ws, r, cols, n - 1) +
        if w.Some? && w.value.value.Some? then [Pair(cols[n - 1], w.value.value.value)] else []
  }

  ghost predicate Plain(names: seq<string>) {
    forall i | 0 <= i < |names| :: '=' !in names[i]
  }

  lemma PairsDiffer(a: string, v: string, b: string, w: string)
    requires '=' !in a && '=' !in b && Pair(a, v) == Pair(b, w)
    ensures a == b && v == w
  {
    IndexOfPair(a, v);
    IndexOfPair(b, w);
    assert Pair(a, v)[..|a|] == a && Pair(b, w)[..|b|] == b;
    assert Pair(a, v)[|a| + 1..] == v && Pair(b, w)[|b| + 1..] == w;
  }

  /** A pair reads back as the attribute it was made from. */
  lemma NameOfPair(a: string, v: string)
    requires '=' !in a && (a != "" ==> a[0] != ' ')
    ensures |Pair(a, v)| > |a| && NameOf(Pair(a, v)) == a
    ensures v != "" && v[0] != ' ' ==> ValueOf(Pair(a, v)) == Some(v)
  {
    IndexOfPair(a, v);
    var s := Pair(a, v);
    assert SkipSpaces(s) == s;
    assert s[..|a|] == a && s[|a| + 1..] == v;
  }

  lemma {:induction false} IndexOfPair(a: string, v: string)
    requires '=' !in a
    ensures IndexOf(Pair(a, v), '=') == |a|
  {
    if a != [] {
      assert Pair(a, v)[1..] == Pair(a[1..], v);
      IndexOfPair(a[1..], v);
    }
  }

  /** A pair of a later column is never among those of the earlier ones. */
  lemma {:induction false} NewPair(ws: seq<Write>, r: string, cols: seq<string>, n: nat, k: nat, v: string)
    requires n <= k < |cols| && NoRepeats(cols) && Plain(cols)
    ensures Pair(cols[k], v) !in RowPairs(ws, r, cols, n)
  {
    if n > 0 {
      NewPair(ws, r, cols, n - 1, k, v);
      var w := LastWrite(ws, r, cols[n - 1]);
      if w.Some? && w.value.value.Some? && Pair(cols[k], v) == Pair(cols[n - 1], w.value.value.value) {
        PairsDiffer(cols[k], v, cols[n - 1], w.value.value.value);
      }
    }
  }

  lemma ShownAt(table: array2<Entry>, ws: seq<Write>, rows: seq<string>, cols: seq<string>, i: nat, j: nat)
    requires Shows(table, ws, rows, cols) && i < |rows| && j < |cols|
    ensures i < table.Length0 && j < table.Length1
    ensures table[i, j].value == ValueIn(ws, rows[i], cols[j])
    ensures table[i, j].value.Some? ==> table[i, j].colName == Some(cols[j])
  {
  }

  lemma RowPairsStep(ws: seq<Write>, r: string, cols: seq<string>)
    ensures RowPairs(ws, r, cols, 0) == []
    ensures forall n {:trigger cols[n]} | 0 <= n < |cols| ::
      var v := ValueIn(ws, r, cols[n]);
      RowPairs(ws, r, cols, n + 1) ==
        if v.Some? then RowPairs(ws, r, cols, n) + [Pair(cols[n], v.value)] else RowPairs(ws, r, cols, n)
  {
  }

  /** s_table_create_attrib_pair */
  method CreateAttribPair(rowName: string, table: array2<Entry>, rowList: StringList, numAttribs: nat,
                          ghost ws: seq<Write>, ghost cols: seq<string>)
    returns (pairs: StringList)
    requires rowList.Valid() && rowList.items != [] && Shows(table, ws, rowList.items, cols)
    requires numAttribs == |cols| && NoRepeats(cols) && Plain(cols)
    ensures fresh(pairs) && pairs.Valid() && pairs.head != null
    ensures pairs.items == if rowName in rowList.items then RowPairs(ws, rowName, cols, |cols|) else []
  {
    hide NoRepeats, Plain, LastWrite, ValueIn, RowPairs, Shows, Pair, NameOf, DoublyLinked;
    RowPairsStep(ws, rowName, cols);
    pairs := new StringList();
    var row := GetIndex(rowList, rowName);
    if row == -1 {
      return;
    }
    hide StringList.Valid;
    var col := 0;
    while col < numAttribs
      invariant 0 <= col <= numAttribs && fresh(pairs) && pairs.Valid() && pairs.head != null
      invariant forall i | 0 <= i < |pairs.nodes| :: fresh(pairs.nodes[i])
      invariant pairs.items == RowPairs(ws, rowName, cols, col)
    {
      ShownAt(table, ws, rowList.items, cols, row, col);
      if table[row, col].value.Some? {
        var attribName, attribValue := table[row, col].colName.value, table[row, col].value.value;
        NewPair(ws, rowName, cols, col, col, attribValue);
        pairs.AddItem(Pair(attribName, attribValue));
      }
      col := col + 1;
    }
  }

  // ---- end to end ----

  /** No two components share a designator, and no component carries an attribute name twice. */
  ghost predicate UniqueRefdes(objs: seq<Component>) {
    forall i, j | 0 <= i < j < |objs| && objs[i].refdes.Some? && objs[j].refdes.Some? :: objs[i].refdes != objs[j].refdes
  }

  ghost predicate UniqueNames(attribs: seq<string>) {
    forall i, j | 0 <= i < j < |attribs| :: NameOf(attribs[i]) != NameOf(attribs[j])
  }

  /** With unique names the last write to a column is the component's one attribute of that name. */
  lemma {:induction false} LastWriteOf(r: string, attribs: seq<string>, k: nat, c: string)
    requires UniqueNames(attribs) && k < |attribs| && NameOf(attribs[k]) == c && !Excluded(c)
    ensures LastWrite(WritesOf(r, attribs), r, c) == Some(Write(r, c, ValueOf(attribs[k])))
  {
    var m := |attribs| - 1;
    var before := WritesOf(r, attribs[..m]);
    if k < m {
      LastWriteOf(r, attribs[..m], k, c);
      assert NameOf(attribs[m]) != c;
      SkipWrites(before, WritesOf(r, attribs)[|before|..], r, c);
      assert WritesOf(r, attribs) == before + WritesOf(r, attribs)[|before|..];
    }
  }

  lemma {:induction false} SkipWrites(a: seq<Write>, b: seq<Write>, r: string, c: string)
    requires forall w | w in b :: w.refdes != r || w.name != c
    ensures LastWrite(a + b, r, c) == LastWrite(a, r, c)
  {
    if b == [] {
      assert a + b == a;
    } else {
      assert (a + b)[..|a + b| - 1] == a + b[..|b| - 1];
      SkipWrites(a, b[..|b| - 1], r, c);
    }
  }

  /** A name that a component does not carry is not written for it. */
  lemma {:induction false} NoWriteOf(r: string, attribs: seq<string>, c: string)
    requires Excluded(c) || forall k | 0 <= k < |attribs| :: NameOf(attribs[k]) != c
    ensures forall w | w in WritesOf(r, attribs) :: w.refdes == r && w.name != c
  {
    if attribs != [] { NoWriteOf(r, attribs[..|attribs| - 1], c); }
  }

  lemma {:induction false} WritesRefdes(r: string, attribs: seq<string>)
    ensures forall w | w in WritesOf(r, attribs) :: w.refdes == r
  {
    if attribs != [] { WritesRefdes(r, attribs[..|attribs| - 1]); }
  }

  lemma {:induction false} LastOfTail(a: seq<Write>, b: seq<Write>, r: string, c: string)
    ensures LastWrite(a + b, r, c) == if LastWrite(b, r, c).Some? then LastWrite(b, r, c) else LastWrite(a, r, c)
  {
    if b == [] {
      assert a + b == a;
    } else {
      assert (a + b)[..|a + b| - 1] == a + b[..|b| - 1];
      LastOfTail(a, b[..|b| - 1], r, c);
    }
  }

  /** The row of a component with a unique designator is written by that component alone. */
  lemma {:induction false} OwnWrites(objs: seq<Component>, i: nat, r: string, c: string)
    requires UniqueRefdes(objs) && i < |objs| && objs[i].refdes == Some(r)
    ensures LastWrite(Writes(objs), r, c) == LastWrite(WritesOf(r, objs[i].attribs), r, c)
    decreases |objs|
  {
    hide LastWrite, WritesOf;
    var m := |objs| - 1;
    var o := objs[m];
    if i < m {
      OwnWrites(objs[..m], i, r, c);
      if o.refdes.Some? {
        WritesRefdes(o.refdes.value, o.attribs);
        SkipWrites(Writes(objs[..m]), WritesOf(o.refdes.value, o.attribs), r, c);
      } else {
        assert Writes(objs) == Writes(objs[..m]);
      }
    } else {
      NoRowBefore(objs[..m], r);
      NoLastWrite(Writes(objs[..m]), r, c);
      LastOfTail(Writes(objs[..m]), WritesOf(r, o.attribs), r, c);
    }
  }

  lemma {:induction false} NoLastWrite(ws: seq<Write>, r: string, c: string)
    requires forall w | w in ws :: w.refdes != r || w.name != c
    ensures LastWrite(ws, r, c) == None
  {
    if ws != [] { NoLastWrite(ws[..|ws| - 1], r, c); }
  }

  lemma {:induction false} NoRowBefore(objs: seq<Component>, r: string)
    requires forall k | 0 <= k < |objs| :: objs[k].refdes != Some(r)
    ensures forall w | w in Writes(objs) :: w.refdes != r
  {
    if objs != [] {
      var o := objs[|objs| - 1];
      NoRowBefore(objs[..|objs| - 1], r);
      if o.refdes.Some? { WritesRefdes(o.refdes.value, o.attribs); }
    }
  }

  /** `x` is the name=value form of an attribute of the component that has a value and a column. */
  ghost predicate Carries(attribs: seq<string>, x: string) {
    exists k :: 0 <= k < |attribs| && CarriesAt(attribs[k], x)
  }

  predicate CarriesAt(text: string, x: string) {
    !Excluded(NameOf(text)) && ValueOf(text).Some? && x == Pair(NameOf(text), ValueOf(text).value)
  }

  /** So the pair of each attribute with a value is carried, those of the three names apart. */
  lemma CarriesIff(attribs: seq<string>, x: string)
    ensures Carries(attribs, x) <==>
      exists text :: text in attribs && NameOf(text) != "refdes" && NameOf(text) != "net" && NameOf(text) != "slot" &&
                     ValueOf(text).Some? && x == NameOf(text) + "=" + ValueOf(text).value
  {
    hide NameOf, ValueOf;
    if Carries(attribs, x) {
      var k :| 0 <= k < |attribs| && CarriesAt(attribs[k], x);
      assert attribs[k] in attribs;
    }
    if text :| text in attribs && NameOf(text) != "refdes" && NameOf(text) != "net" && NameOf(text) != "slot" &&
               ValueOf(text).Some? && x == NameOf(text) + "=" + ValueOf(text).value {
      var k := Find(attribs, text);
      assert CarriesAt(attribs[k], x);
    }
  }

  /** The pairs of the first `n` columns are the component's attributes in those columns, and no others. */
  lemma {:induction false} RowPairsExact(objs: seq<Component>, i: nat, r: string, cols: seq<string>, n: nat)
    requires UniqueRefdes(objs) && i < |objs| && objs[i].refdes == Some(r) && UniqueNames(objs[i].attribs)
    requires n <= |cols|
    ensures forall x :: x in RowPairs(Writes(objs), r, cols, n) <==>
      exists k :: 0 <= k < |objs[i].attribs| && CarriesAt(objs[i].attribs[k], x) && NameOf(objs[i].attribs[k]) in cols[..n]
  {
    hide NameOf, ValueOf, Excluded, LastWrite, Writes, WritesOf, UniqueRefdes, Pair;
    var texts, ws := objs[i].attribs, Writes(objs);
    if n > 0 {
      var c := cols[n - 1];
      RowPairsExact(objs, i, r, cols, n - 1);
      OwnWrites(objs, i, r, c);
      assert cols[..n] == cols[..n - 1] + [c];
      if k :| 0 <= k < |texts| && NameOf(texts[k]) == c && !Excluded(c) {
        LastWriteOf(r, texts, k, c);
        assert forall m | 0 <= m < |texts| && m != k :: NameOf(texts[m]) != c;
      } else {
        NoColumn(r, texts, c);
      }
    }
  }

  lemma NoColumn(r: string, attribs: seq<string>, c: string)
    requires Excluded(c) || forall k | 0 <= k < |attribs| :: NameOf(attribs[k]) != c
    ensures LastWrite(WritesOf(r, attribs), r, c) == None
  {
    NoWriteOf(r, attribs, c);
    NoLastWrite(WritesOf(r, attribs), r, c);
  }

  lemma {:induction false} PlainColumns(objs: seq<Component>)
    ensures forall c | c in AllColumnNames(objs) :: '=' !in c && !Excluded(c)
  {
    if objs != [] {
      PlainColumns(objs[..|objs| - 1]);
      PlainNames(objs[|objs| - 1].attribs);
    }
  }

  lemma {:induction false} PlainNames(attribs: seq<string>)
    ensures forall c | c in ColumnNames(attribs) :: '=' !in c && !Excluded(c)
    ensures forall k | 0 <= k < |attribs| && !Excluded(NameOf(attribs[k])) :: NameOf(attribs[k]) in ColumnNames(attribs)
  {
    if attribs != [] { PlainNames(attribs[..|attribs| - 1]); }
  }

  /** Every component with a designator has its row and its columns. */
  lemma {:induction false} InLists(objs: seq<Component>, i: nat)
    requires i < |objs|
    ensures objs[i].attribs != [] && objs[i].refdes.Some? ==> objs[i].refdes.value in RowNames(objs)
    ensures forall c | c in ColumnNames(objs[i].attribs) :: c in AllColumnNames(objs)
    decreases |objs|
  {
    if i < |objs| - 1 { InLists(objs[..|objs| - 1], i); }
  }

  lemma {:induction false} WritesListed(objs: seq<Component>)
    ensures Writes(objs) != [] ==> RowNames(objs) != [] && AllColumnNames(objs) != []
  {
    if objs != [] {
      var o := objs[|objs| - 1];
      WritesListed(objs[..|objs| - 1]);
      if o.refdes.Some? { ColumnsOfWrites(o.refdes.value, o.attribs); }
    }
  }

  lemma {:induction false} ColumnsOfWrites(r: string, attribs: seq<string>)
    ensures WritesOf(r, attribs) != [] ==> attribs != [] && ColumnNames(attribs) != []
  {
    if attribs != [] { ColumnsOfWrites(r, attribs[..|attribs| - 1]); }
  }

  ghost predicate DisjointNodes(a: seq<Node>, b: seq<Node>) {
    forall i, j | 0 <= i < |a| && 0 <= j < |b| :: a[i] != b[j]
  }

  lemma RearrangedDisjoint(a: seq<Node>, a': seq<Node>, b: seq<Node>)
    requires DisjointNodes(a, b) && forall n :: n in a' <==> n in a
    ensures DisjointNodes(a', b) && DisjointNodes(b, a')
  {
    forall i, j | 0 <= i < |a'| && 0 <= j < |b| ensures a'[i] != b[j] {
      assert a'[i] in a';
      var k :| 0 <= k < |a| && a[k] == a'[i];
    }
  }

  /** Two new lists holding the names of a set of components, in the order they turn up. */
  method CollectNames(objs: seq<Component>) returns (comps: StringList, attribs: StringList)
    ensures fresh(comps) && fresh(attribs) && comps != attribs && comps.Valid() && attribs.Valid()
    ensures fresh(comps.nodes) && fresh(attribs.nodes) && DisjointNodes(comps.nodes, attribs.nodes)
    ensures comps.head != null && comps.items == AddAll([], RowNames(objs))
    ensures attribs.head != null && attribs.items == AddAll([], AllColumnNames(objs))
  {
    hide AddAll;
    comps := new StringList();
    attribs := new StringList();
    hide comps.Valid;
    AddMasterCompListItems(comps, objs);
    assert DisjointNodes(comps.nodes, attribs.nodes);
    AddMasterCompAttribListItems(attribs, objs);
  }

  /** The code can compare any two designators and any two attribute names. */
  ghost predicate Sortable(stray: bool, objs: seq<Component>) {
    stray ==> Comparable(RowNames(objs)) && Comparable(AllColumnNames(objs))
  }

  lemma CollectedComparable(names: seq<string>)
    requires Comparable(names)
    ensures Comparable(AddAll([], names))
  {
    hide StaysInside;
    AddAllHas([], names);
  }

  /** The master lists of a set of components, sorted: each holds its names once, in sorted order. */
  method MasterLists(objs: seq<Component>, stray: bool)
    returns (comps: StringList, attribs: StringList, ghost rowOrder: seq<Elem>, ghost colOrder: seq<Elem>)
    requires Sortable(stray, objs)
    ensures fresh(comps) && fresh(attribs) && comps.Valid() && attribs.Valid()
    ensures comps != attribs && DisjointNodes(comps.nodes, attribs.nodes)
    ensures comps.items == Names(rowOrder) && Ordered(stray, rowOrder)
    ensures attribs.items == Names(colOrder) && Ordered(stray, colOrder)
    ensures multiset(rowOrder) == multiset(Elems(ItemKeys(false, AddAll([], RowNames(objs)))))
    ensures multiset(colOrder) == multiset(Elems(ItemKeys(true, AddAll([], AllColumnNames(objs)))))
  {
    hide Elems, ItemKeys, AddAll, Ordered, Names, Comparable;
    if stray {
      CollectedComparable(RowNames(objs));
      CollectedComparable(AllColumnNames(objs));
    }
    comps, attribs := CollectNames(objs);
    hide comps.Valid;
    ghost var a, b := comps.nodes, attribs.nodes;
    rowOrder := comps.SortMaster(false, stray);
    RearrangedDisjoint(a, comps.nodes, b);
    colOrder := attribs.SortMaster(true, stray);
    RearrangedDisjoint(b, attribs.nodes, comps.nodes);
  }

  lemma {:induction false} AddAllNoRepeats(s: seq<string>, names: seq<string>)
    requires NoRepeats(s)
    ensures NoRepeats(AddAll(s, names))
  {
    if names != [] { AddAllNoRepeats(s, names[..|names| - 1]); }
  }

  /** What the sorted master lists hold: the names that turned up, once each. */
  lemma SortedNames(ofAttribs: bool, names: seq<string>, order: seq<Elem>)
    requires multiset(order) == multiset(Elems(ItemKeys(ofAttribs, AddAll([], names))))
    ensures NoRepeats(Names(order)) && forall x :: x in Names(order) <==> x in names
  {
    AddAllNoRepeats([], names);
    AddAllHas([], names);
    ArrangedNames(ofAttribs, AddAll([], names), order);
  }

  lemma PlainSorted(objs: seq<Component>, cols: seq<string>)
    requires forall x :: x in cols <==> x in AllColumnNames(objs)
    ensures Plain(cols)
  {
    PlainColumns(objs);
    assert forall i | 0 <= i < |cols| :: cols[i] in cols;
  }

  /** Master lists, sorted, and the filled table. */
  method LoadTable(objs: seq<Component>, stray: bool)
    returns (comps: StringList, attribs: StringList, table: array2<Entry>)
    requires Sortable(stray, objs)
    ensures fresh(comps) && fresh(attribs) && fresh(table) && comps.Valid() && attribs.Valid()
    ensures comps != attribs && DisjointNodes(comps.nodes, attribs.nodes)
    ensures NoRepeats(comps.items) && forall x :: x in comps.items <==> x in RowNames(objs)
    ensures NoRepeats(attribs.items) && forall x :: x in attribs.items <==> x in AllColumnNames(objs)
    ensures SortedBy(false, stray, comps.items) && SortedBy(true, stray, attribs.items)
    ensures Holds(table, Writes(objs), comps.items, attribs.items)
  {
    hide Sortable, Elems, ItemKeys, AddAll, Names, Ordered, SortedBy, Holds, Writes, RowNames, AllColumnNames, NoRepeats, StringList.Valid;
    ghost var rowOrder, colOrder;
    comps, attribs, rowOrder, colOrder := MasterLists(objs, stray);
    SortedNames(false, RowNames(objs), rowOrder);
    SortedNames(true, AllColumnNames(objs), colOrder);
    OrderSorts(false, stray, AddAll([], RowNames(objs)), rowOrder);
    OrderSorts(true, stray, AddAll([], AllColumnNames(objs)), colOrder);
    WritesListed(objs);
    NonEmpty(comps.items, RowNames(objs));
    NonEmpty(attribs.items, AllColumnNames(objs));
    var rows, cols := Count(comps), Count(attribs);
    table := NewTable(rows, cols);
    HoldsNothing(table, comps.items, attribs.items);
    FillTable(table, comps, attribs, objs);
  }

  lemma HoldsNothing(table: array2<Entry>, rows: seq<string>, cols: seq<string>)
    requires table.Length0 == |rows| && table.Length1 == |cols|
    requires forall i, j | 0 <= i < |rows| && 0 <= j < |cols| :: table[i, j] == Entry(i, j, None, None, None)
    ensures Holds(table, [], rows, cols)
  {
  }

  function Count(list: StringList): (n: nat)
    requires list.Valid()
    reads list, list.nodes
    ensures n == |list.items|
  {
    list.count
  }

  lemma NonEmpty(a: seq<string>, b: seq<string>)
    requires forall x :: x in a <==> x in b
    ensures b != [] ==> a != []
  {
    if b != [] { assert b[0] in b; }
  }

  /** In order of sort position, then of name. */
  ghost predicate SortedBy(ofAttribs: bool, stray: bool, names: seq<string>) {
    forall i, j | 0 <= i < j < |names| ::
      KeyCompare(stray, ItemKey(ofAttribs, names[i]), ItemKey(ofAttribs, names[j])) <= 0
  }

  lemma OrderSorts(ofAttribs: bool, stray: bool, items: seq<string>, order: seq<Elem>)
    requires Ordered(stray, order) && multiset(order) == multiset(Elems(ItemKeys(ofAttribs, items)))
    ensures SortedBy(ofAttribs, stray, Names(order))
  {
    hide KeyCompare;
    forall i, j | 0 <= i < j < |order|
      ensures KeyCompare(stray, ItemKey(ofAttribs, order[i].key.data), ItemKey(ofAttribs, order[j].key.data)) <= 0
    {
      assert order[i] in multiset(Elems(ItemKeys(ofAttribs, items))) && order[j] in multiset(Elems(ItemKeys(ofAttribs, items)));
      assert Before(stray, order[i], order[j]);
    }
  }

  /**
   From components to the name=value pairs of one of them: with unique names the pairs are exactly
   its attributes, other than refdes, net and slot, that have a value, in column order.
   */
  method AttributesOf(objs: seq<Component>, i: nat, stray: bool) returns (pairs: StringList, ghost cols: seq<string>)
    requires i < |objs| && objs[i].refdes.Some? && objs[i].attribs != []
    requires UniqueRefdes(objs) && UniqueNames(objs[i].attribs) && Sortable(stray, objs)
    ensures pairs.Valid() && forall x :: x in pairs.items <==>
      exists text :: text in objs[i].attribs && NameOf(text) != "refdes" && NameOf(text) != "net" && NameOf(text) != "slot" &&
                     ValueOf(text).Some? && x == NameOf(text) + "=" + ValueOf(text).value
    ensures pairs.items == RowPairs(Writes(objs), objs[i].refdes.value, cols, |cols|)
    ensures SortedBy(true, stray, cols) && NoRepeats(cols)
    ensures forall x :: x in cols <==>
      x != "refdes" && x != "net" && x != "slot" && exists o, text :: o in objs && text in o.attribs && NameOf(text) == x
  {
    hide NameOf, ValueOf, ColumnNames, AllColumnNames, RowPairs, Writes, Carries, RowNames;
    var comps, attribs, table := LoadTable(objs, stray);
    cols := attribs.items;
    var r := objs[i].refdes.value;
    InLists(objs, i);
    PlainSorted(objs, cols);
    pairs := CreateAttribPair(r, table, comps, Count(attribs), Writes(objs), cols);
    AllPairs(objs, i, r, cols);
    AllColumnNamesAre(objs);
    forall x ensures Carries(objs[i].attribs, x) <==>
      exists text :: text in objs[i].attribs && NameOf(text) != "refdes" && NameOf(text) != "net" && NameOf(text) != "slot" &&
                     ValueOf(text).Some? && x == NameOf(text) + "=" + ValueOf(text).value
    {
      CarriesIff(objs[i].attribs, x);
    }
  }

  lemma AllPairs(objs: seq<Component>, i: nat, r: string, cols: seq<string>)
    requires UniqueRefdes(objs) && i < |objs| && objs[i].refdes == Some(r) && UniqueNames(objs[i].attribs)
    requires forall x :: x in cols <==> x in AllColumnNames(objs)
    ensures forall x :: x in RowPairs(Writes(objs), r, cols, |cols|) <==> Carries(objs[i].attribs, x)
  {
    RowPairsExact(objs, i, r, cols, |cols|);
    InLists(objs, i);
    PlainNames(objs[i].attribs);
    assert cols[..|cols|] == cols;
  }
}
