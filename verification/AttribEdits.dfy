/**
 Editing a loaded design (s_toplevel.c with s_string_list.c, s_table.c and the sheet): attribute
 columns are added to and deleted from the sorted master list and from the sheet separately. What
 is proved is that the two stay in step, so that saving finds every value under its own name.
 */
module AttribEdits {
  import opened Wrappers
  import opened Grid
  import opened NaturalOrder
  import opened MergeSort
  import opened ListSort
  import opened StringList
  import opened AttribTable
  import SheetTable
  import L = SheetLines
  import C = CellStore
  import S = Sheet

  // ---- what an edit of the columns amounts to ----

  function ColumnKey(name: string): Key {
    ItemKey(true, name)
  }

  /** The place of a new column: after every column that does not come after it. */
  function Rank(stray: bool, cols: seq<string>, name: string): (k: nat)
    ensures k <= |cols|
  {
    if cols == [] || KeyCompare(stray, ColumnKey(cols[0]), ColumnKey(name)) > 0 then 0
    else 1 + Rank(stray, cols[1..], name)
  }

  lemma {:induction false} RankIs(stray: bool, cols: seq<string>, name: string, k: nat)
    requires k <= |cols|
    requires forall i | 0 <= i < k :: KeyCompare(stray, ColumnKey(cols[i]), ColumnKey(name)) <= 0
    requires k < |cols| ==> KeyCompare(stray, ColumnKey(cols[k]), ColumnKey(name)) > 0
    ensures Rank(stray, cols, name) == k
  {
    hide KeyCompare;
    if k > 0 {
      assert forall i | 0 <= i < k - 1 :: cols[1..][i] == cols[i + 1];
      RankIs(stray, cols[1..], name, k - 1);
    }
  }

  /** Sorting a sorted list again changes nothing. */
  lemma ResortSame(stray: bool, cols: seq<string>, order: seq<Elem>)
    requires SortedBy(true, stray, cols) && Ordered(stray, order)
    requires multiset(order) == multiset(Elems(ItemKeys(true, cols)))
    ensures Names(order) == cols
  {
    hide KeyCompare;
    SortedElems(stray, cols);
    SortedUnique(stray, order, Elems(ItemKeys(true, cols)));
  }

  lemma SortedElems(stray: bool, cols: seq<string>)
    requires SortedBy(true, stray, cols)
    ensures Ordered(stray, Elems(ItemKeys(true, cols)))
  {
    hide KeyCompare;
    var e := Elems(ItemKeys(true, cols));
    forall i, j | 0 <= i < j < |e| ensures Before(stray, e[i], e[j]) {
      assert KeyCompare(stray, ItemKey(true, cols[i]), ItemKey(true, cols[j])) <= 0;
    }
  }

  /** Sorting a sorted list with one more name at its end moves that name to its rank. */
  lemma SortedInsert(stray: bool, cols: seq<string>, name: string, order: seq<Elem>)
    requires SortedBy(true, stray, cols) && Ordered(stray, order)
    requires multiset(order) == multiset(Elems(ItemKeys(true, cols + [name])))
    ensures Names(order) == Splice(cols, Rank(stray, cols, name), [name])
  {
    hide KeyCompare, Ordered, SortedBy, Rank;
    var e, x := Elems(ItemKeys(true, cols)), Elem(|cols|, ColumnKey(name));
    assert Elems(ItemKeys(true, cols + [name])) == e + [x];
    var k := WithoutOne(stray, order, e, x);
    SortedElems(stray, cols);
    SortedUnique(stray, order[..k] + order[k + 1..], e);
    assert Names(e) == cols;
    RankOfElem(stray, cols, name, order, k);
    NamesAround(order, k, cols);
  }

  lemma WithoutOne(stray: bool, order: seq<Elem>, e: seq<Elem>, x: Elem) returns (k: nat)
    requires Ordered(stray, order) && multiset(order) == multiset(e + [x])
    ensures k < |order| == |e| + 1 && order[k] == x
    ensures Ordered(stray, order[..k] + order[k + 1..])
    ensures multiset(order[..k] + order[k + 1..]) == multiset(e)
  {
    hide Before, Ordered;
    SameLength(order, e + [x]);
    assert x in multiset(e + [x]);
    assert x in multiset(order);
    k :| 0 <= k < |order| && order[k] == x;
    var a, b := order[..k], order[k + 1..];
    calc {
      multiset(e);
      multiset(e + [x]) - multiset{x};
      { assert order == a + [x] + b; }
      multiset(a + b);
    }
    OrderedWithout(stray, order, k);
  }

  lemma OrderedWithout(stray: bool, order: seq<Elem>, k: nat)
    requires Ordered(stray, order) && k < |order|
    ensures Ordered(stray, order[..k] + order[k + 1..])
  {
    hide Before;
    var rest := order[..k] + order[k + 1..];
    assert forall i | 0 <= i < |rest| :: rest[i] == order[if i < k then i else i + 1];
  }

  lemma NamesAround(order: seq<Elem>, k: nat, cols: seq<string>)
    requires k < |order| && Names(order[..k] + order[k + 1..]) == cols
    ensures Names(order) == Splice(cols, k, [order[k].key.data])
  {
    var rest, name := order[..k] + order[k + 1..], order[k].key.data;
    forall i | 0 <= i < |order| ensures Names(order)[i] == (cols[..k] + [name] + cols[k..])[i] {
      assert i != k ==> order[i] == rest[if i < k then i else i - 1];
    }
    assert Names(order) == cols[..k] + [name] + cols[k..];
  }

  lemma RankOfElem(stray: bool, cols: seq<string>, name: string, order: seq<Elem>, k: nat)
    requires Ordered(stray, order) && k < |order| == |cols| + 1 && order[k] == Elem(|cols|, ColumnKey(name))
    requires order[..k] + order[k + 1..] == Elems(ItemKeys(true, cols))
    ensures Rank(stray, cols, name) == k
  {
    hide KeyCompare;
    var e := Elems(ItemKeys(true, cols));
    assert forall i | 0 <= i < |e| :: e[i] == order[if i < k then i else i + 1];
    forall i | 0 <= i < k ensures KeyCompare(stray, ColumnKey(cols[i]), ColumnKey(name)) <= 0 {
      assert Before(stray, order[i], order[k]) && order[i] == e[i];
    }
    if k < |cols| {
      assert Before(stray, order[k], order[k + 1]) && order[k + 1] == e[k];
      TotalPreorder(stray, ColumnKey(cols[k]), ColumnKey(name), ColumnKey(name));
    }
    RankIs(stray, cols, name, k);
  }

  // ---- the values of a design under edits ----

  /** The columns of a design, in order, and the values written so far. */
  datatype Design = Design(cols: seq<string>, ws: seq<Write>)

  datatype Edit =
    | Enter(i: int, j: int, text: Option<string>)
    | AddColumn(name: string)
    | DeleteColumn(at: nat)

  /** The values without those of one column. */
  function DropWrites(ws: seq<Write>, c: string): seq<Write> {
    if ws == [] then []
    else DropWrites(ws[..|ws| - 1], c) + if ws[|ws| - 1].name == c then [] else [ws[|ws| - 1]]
  }

  lemma {:induction false} DropWritesValue(ws: seq<Write>, dropped: string, r: string, c: string)
    ensures ValueIn(DropWrites(ws, dropped), r, c) == if c == dropped then None else ValueIn(ws, r, c)
    ensures forall w | w in DropWrites(ws, dropped) :: w in ws && w.name != dropped
  {
    if ws != [] {
      var before, w := DropWrites(ws[..|ws| - 1], dropped), ws[|ws| - 1];
      DropWritesValue(ws[..|ws| - 1], dropped, r, c);
      ValueOfLast(ws, r, c);
      hide ValueIn;
      if w.name == dropped {
        assert DropWrites(ws, dropped) == before;
      } else {
        assert DropWrites(ws, dropped) == before + [w];
        ValueOfLast(before + [w], r, c);
        assert (before + [w])[..|before|] == before;
      }
    }
  }

  lemma ValueOfLast(ws: seq<Write>, r: string, c: string)
    requires ws != []
    ensures var w := ws[|ws| - 1];
      ValueIn(ws, r, c) == if w.refdes == r && w.name == c then w.value else ValueIn(ws[..|ws| - 1], r, c)
  {
  }

  function Edited(stray: bool, rows: seq<string>, d: Design, e: Edit): Design {
    match e
    case Enter(i, j, text) =>
      if 0 <= i < |rows| && 0 <= j < |d.cols| then d.(ws := d.ws + [Write(rows[i], d.cols[j], Shown(text))]) else d
    case AddColumn(name) => d.(cols := Splice(d.cols, Rank(stray, d.cols, name), [name]))
    case DeleteColumn(at) => if at < |d.cols| then Design(Cut(d.cols, at, 1), DropWrites(d.ws, d.cols[at])) else d
  }

  function EditedAll(stray: bool, rows: seq<string>, d: Design, es: seq<Edit>): Design {
    if es == [] then d else Edited(stray, rows, EditedAll(stray, rows, d, es[..|es| - 1]), es[|es| - 1])
  }

  ghost predicate Sound(stray: bool, d: Design) {
    && NoRepeats(d.cols) && SortedBy(true, stray, d.cols)
    && (stray ==> Comparable(d.cols))
    && forall w | w in d.ws :: w.name in d.cols
  }

  /**
   An attribute may be added if it is new, can be compared with the others and the list still has its
   head; a column deleted if it is there.
   */
  ghost predicate Permitted(stray: bool, d: Design, e: Edit) {
    match e
    case Enter(_, _, _) => true
    case AddColumn(name) => name !in d.cols && d.cols != [] && (stray ==> Comparable(d.cols + [name]))
    case DeleteColumn(at) => at < |d.cols|
  }

  /** Edits keep the columns sorted and every value in a column. */
  lemma EditKeeps(stray: bool, rows: seq<string>, d: Design, e: Edit)
    requires Sound(stray, d) && Permitted(stray, d, e)
    ensures Sound(stray, Edited(stray, rows, d, e))
  {
    hide StaysInside, KeyCompare;
    match e
    case Enter(_, _, _) =>
    case AddColumn(name) =>
      var order := Passes(stray, Elems(ItemKeys(true, d.cols + [name])), 1);
      Sorts(stray, ItemKeys(true, d.cols + [name]));
      SortedInsert(stray, d.cols, name, order);
      OrderSorts(true, stray, d.cols + [name], order);
      InsertKeeps(d.cols, Rank(stray, d.cols, name), name);
    case DeleteColumn(at) =>
      CutKeeps(stray, d.cols, at);
      DropWritesValue(d.ws, d.cols[at], "", "");
  }

  lemma InsertKeeps(cols: seq<string>, k: nat, name: string)
    requires NoRepeats(cols) && k <= |cols| && name !in cols
    ensures var s := Splice(cols, k, [name]);
      |s| == |cols| + 1 && NoRepeats(s) && s[k] == name && forall x :: x in s <==> x in cols || x == name
  {
    var s := Splice(cols, k, [name]);
    forall x | x in cols ensures x in s {
      var i := Find(cols, x);
      assert s[if i < k then i else i + 1] == x;
    }
  }

  lemma CutKeeps(stray: bool, cols: seq<string>, at: nat)
    requires NoRepeats(cols) && SortedBy(true, stray, cols) && at < |cols|
    ensures var s := Cut(cols, at, 1);
      && |s| == |cols| - 1 && NoRepeats(s) && SortedBy(true, stray, s)
      && s == cols[..at] + cols[at + 1..] && forall x :: x in s <==> x in cols && x != cols[at]
  {
    hide KeyCompare;
    var s := Cut(cols, at, 1);
    assert s == cols[..at] + cols[at + 1..];
    forall x | x in cols && x != cols[at] ensures x in s {
      var i := Find(cols, x);
      assert s[if i < at then i else i - 1] == x;
    }
  }

  /** Whatever is edited, the values of a column that no edit names stay. */
  lemma {:induction false} OthersUntouched(stray: bool, rows: seq<string>, d: Design, es: seq<Edit>, r: string, c: string)
    requires c in d.cols && Sound(stray, d)
    requires forall k | 0 <= k < |es| :: Permitted(stray, EditedAll(stray, rows, d, es[..k]), es[k])
    requires forall k | 0 <= k < |es| :: var cols := EditedAll(stray, rows, d, es[..k]).cols;
      && (es[k].DeleteColumn? && es[k].at < |cols| ==> cols[es[k].at] != c)
      && (es[k].Enter? && 0 <= es[k].j < |cols| ==> cols[es[k].j] != c)
    ensures var d' := EditedAll(stray, rows, d, es);
      c in d'.cols && Sound(stray, d') && ValueIn(d'.ws, r, c) == ValueIn(d.ws, r, c)
  {
    hide Edited, Sound, ValueIn;
    if es != [] {
      var n := |es| - 1;
      assert forall k | 0 <= k < n :: es[..n][..k] == es[..k];
      OthersUntouched(stray, rows, d, es[..n], r, c);
      var d' := EditedAll(stray, rows, d, es[..n]);
      assert es[..n] == es[..n][..n];
      EditKeeps(stray, rows, d', es[n]);
      OneUntouched(stray, rows, d', es[n], r, c);
    }
  }

  lemma OneUntouched(stray: bool, rows: seq<string>, d: Design, e: Edit, r: string, c: string)
    requires c in d.cols && Sound(stray, d) && Permitted(stray, d, e)
    requires e.DeleteColumn? ==> d.cols[e.at] != c
    requires e.Enter? && 0 <= e.j < |d.cols| ==> d.cols[e.j] != c
    ensures var d' := Edited(stray, rows, d, e); c in d'.cols && ValueIn(d'.ws, r, c) == ValueIn(d.ws, r, c)
  {
    match e
    case Enter(i, j, text) =>
      if 0 <= i < |rows| && 0 <= j < |d.cols| {
        var w := Write(rows[i], d.cols[j], Shown(text));
        assert (d.ws + [w])[..|d.ws|] == d.ws;
      }
    case AddColumn(name) => InsertKeeps(d.cols, Rank(stray, d.cols, name), name);
    case DeleteColumn(at) =>
      CutKeeps(stray, d.cols, at);
      DropWritesValue(d.ws, d.cols[at], r, c);
  }

  // ---- the list and the sheet ----

  /** The sheet shows the values of the design, each under its own label. */
  ghost predicate Agrees(s: S.Sheet, rows: seq<string>, d: Design)
    reads s
    requires s.Stored()
  {
    ShowsValues(s.Contents(), rows, d) && ShowsLabels(s.ColumnRecords(), d.cols)
  }

  ghost predicate ShowsValues(g: Grid, rows: seq<string>, d: Design) {
    && g.Valid() && |g.rows| == |rows| && g.width == |d.cols|
    && forall i, j | 0 <= i < |rows| && 0 <= j < |d.cols| :: g.At(i, j) == ValueIn(d.ws, rows[i], d.cols[j])
  }

  ghost predicate ShowsLabels(records: seq<L.Line>, cols: seq<string>) {
    |records| == |cols| && forall j | 0 <= j < |cols| :: records[j].caption == Some(cols[j])
  }

  lemma ValuesInserted(g: Grid, stray: bool, rows: seq<string>, d: Design, name: string)
    requires ShowsValues(g, rows, d) && Sound(stray, d) && name !in d.cols
    ensures ShowsValues(InsertColumns(g, Rank(stray, d.cols, name), 1), rows, Edited(stray, rows, d, AddColumn(name)))
  {
    hide SortedBy, NoRepeats, Rank, LastWrite;
    var at, d' := Rank(stray, d.cols, name), Edited(stray, rows, d, AddColumn(name));
    InsertColumnsAt(g, at, 1);
    forall i, j | 0 <= i < |rows| && 0 <= j < |d'.cols|
      ensures InsertColumns(g, at, 1).At(i, j) == ValueIn(d'.ws, rows[i], d'.cols[j])
    {
      SpliceIndex(d.cols, at, [name], j);
      if j == at {
        NoLastWrite(d.ws, rows[i], name);
      } else {
        assert d'.cols[j] == d.cols[if j < at then j else j - 1];
      }
    }
  }

  /** The column at `k` is blank, each later one shows what its left neighbour should, the last is beyond the names. */
  ghost predicate ShiftedFrom(g: Grid, rows: seq<string>, d: Design, k: nat) {
    && g.width == |d.cols| + 1
    && forall i, j | 0 <= i < |rows| && 0 <= j < |d.cols| ::
         g.At(i, j) == if j < k then ValueIn(d.ws, rows[i], d.cols[j])
                       else if j == k then None else ValueIn(d.ws, rows[i], d.cols[j - 1])
  }

  lemma ValuesShifted(g: Grid, rows: seq<string>, d: Design, k: nat)
    requires ShowsValues(g, rows, d) && k < |d.cols|
    ensures ShiftedFrom(InsertColumns(g, k, 1), rows, d, k)
  {
    hide ValueIn;
    var h := InsertColumns(g, k, 1);
    InsertColumnsAt(g, k, 1);
    forall i, j | 0 <= i < |rows| && 0 <= j < |d.cols|
      ensures h.At(i, j) == if j < k then ValueIn(d.ws, rows[i], d.cols[j])
                            else if j == k then None else ValueIn(d.ws, rows[i], d.cols[j - 1])
    {
      assert h.At(i, j) == if j < k then g.At(i, j) else if j == k then None else g.At(i, j - 1);
      assert g.At(i, j) == ValueIn(d.ws, rows[i], d.cols[j]);
      assert j > 0 ==> g.At(i, j - 1) == ValueIn(d.ws, rows[i], d.cols[j - 1]);
    }
  }

  lemma ValuesCut(g: Grid, rows: seq<string>, d: Design, at: nat)
    requires ShowsValues(g, rows, d) && NoRepeats(d.cols) && at < |d.cols|
    ensures ShowsValues(DeleteColumns(g, at, 1), rows, Design(Cut(d.cols, at, 1), DropWrites(d.ws, d.cols[at])))
  {
    hide ValueIn, DropWrites;
    var cols, ws := Cut(d.cols, at, 1), DropWrites(d.ws, d.cols[at]);
    DeleteColumnsAt(g, at, 1);
    CutLength(d.cols, at, 1);
    forall i, j | 0 <= i < |rows| && 0 <= j < |cols|
      ensures DeleteColumns(g, at, 1).At(i, j) == ValueIn(ws, rows[i], cols[j])
    {
      CutIndex(d.cols, at, 1, j);
      DropWritesValue(d.ws, d.cols[at], rows[i], cols[j]);
      var from := if j < at then j else j + 1;
      assert cols[j] == d.cols[from] && cols[j] != d.cols[at];
      assert g.At(i, from) == ValueIn(d.ws, rows[i], d.cols[from]);
    }
  }

  lemma ValuesEntered(g: Grid, stray: bool, rows: seq<string>, d: Design, i: int, j: int, text: Option<string>)
    requires ShowsValues(g, rows, d) && NoRepeats(rows) && NoRepeats(d.cols)
    ensures ShowsValues(SetText(g, i, j, Shown(text)), rows, Edited(stray, rows, d, Enter(i, j, text)))
  {
    if 0 <= i < |rows| && 0 <= j < |d.cols| {
      var w := Write(rows[i], d.cols[j], Shown(text));
      SetTextAt(g, i, j, Shown(text));
      assert (d.ws + [w])[..|d.ws|] == d.ws;
    } else {
      SetTextOutside(g, i, j, Shown(text));
    }
  }

  /** x_gtksheet_add_col_labels; `asked` and `least` give the widths of a label and of a column's cells. */
  method AddColumnLabels(s: S.Sheet, list: StringList, asked: string -> L.Size, least: nat)
    requires s.Stored() && list.Valid() && |list.items| <= s.maxCol + 1
    modifies s`row, s`column, s`columnTitleHeight
    ensures s.Stored() && s.Contents() == old(s.Contents()) && s.maxRow == old(s.maxRow) && s.maxCol == old(s.maxCol)
    ensures |s.ColumnRecords()| == |old(s.ColumnRecords())|
    ensures forall j | 0 <= j < |s.ColumnRecords()| ::
      s.ColumnRecords()[j].caption == if j < |list.items| then Some(list.items[j]) else old(s.ColumnRecords())[j].caption
    ensures old(s.ColumnPixelsExact()) ==> s.ColumnPixelsExact()
  {
    hide C.Dense, C.Laid, L.PixelsExact, L.Records, NoRepeats;
    if list.count == 0 || list.head == null {
      return;
    }
    var item := list.head;
    var j := 0;
    while j < list.count
      invariant 0 <= j <= list.count && item == NodeAt(list.nodes, j)
      invariant s.Stored() && s.Contents() == old(s.Contents()) && s.maxRow == old(s.maxRow) && s.maxCol == old(s.maxCol)
      invariant forall k | 0 <= k < |s.ColumnRecords()| ::
        s.ColumnRecords()[k].caption == if k < j then Some(list.items[k]) else old(s.ColumnRecords())[k].caption
      invariant old(s.ColumnPixelsExact()) ==> s.ColumnPixelsExact()
    {
      s.SetColumnLabel(j, item.data.value, asked(item.data.value), least);
      item := item.next;
      j := j + 1;
    }
  }

  /**
   s_toplevel_add_new_attrib. The name is not checked against the columns there are: the sheet gets
   a column in any case, the list only a new one.
   */
  method AddAttrib(s: S.Sheet, attribs: StringList, name: string, stray: bool, asked: string -> L.Size, least: nat,
                   ghost rows: seq<string>, ghost ws: seq<Write>)
    requires s.Stored() && attribs.Valid() && attribs.items != []
    requires Agrees(s, rows, Design(attribs.items, ws)) && Sound(stray, Design(attribs.items, ws))
    requires stray ==> Comparable(attribs.items + [name])
    modifies s, attribs, attribs.nodes
    ensures s.Stored() && attribs.Valid() && attribs.head != null
    ensures forall i | 0 <= i < |attribs.nodes| :: attribs.nodes[i] in old(attribs.nodes) || fresh(attribs.nodes[i])
    ensures name !in old(attribs.items) ==>
      attribs.items == Edited(stray, rows, Design(old(attribs.items), ws), AddColumn(name)).cols
    ensures name in old(attribs.items) ==>
      && attribs.items == old(attribs.items)
      && exists k: nat :: k < |attribs.items| && attribs.items[k] == name
                     && ShiftedFrom(s.Contents(), rows, Design(attribs.items, ws), k)
    ensures Agrees(s, rows, Design(attribs.items, ws)) <==> name !in old(attribs.items)
  {
    hide ShowsValues, ShowsLabels, ShiftedFrom, SortedBy, C.Dense, C.Laid, L.PixelsExact, L.Records, InsertColumns, Rank, StringList.Valid, NoRepeats, Splice, KeyCompare;
    ghost var cols, g := attribs.items, s.Contents();
    Unrepeated(attribs);
    var newIndex := AddToList(attribs, name, stray);
    if name !in cols {
      ValuesInserted(g, stray, rows, Design(cols, ws), name);
    } else {
      ValuesShifted(g, rows, Design(cols, ws), newIndex);
    }
    WidthShown(g, rows, Design(cols, ws));
    s.Shape();
    AddToSheet(s, attribs, newIndex, asked, least);
    s.Shape();
    if name in cols {
      WidthShown(s.Contents(), rows, Design(cols, ws));
    } else {
      LabelsShown(s.ColumnRecords(), attribs.items);
    }
  }

  /** Its list part: the name takes its place in the sorted list. */
  method AddToList(attribs: StringList, name: string, stray: bool) returns (newIndex: nat)
    requires attribs.Valid() && attribs.head != null && attribs.items != [] && SortedBy(true, stray, attribs.items)
    requires stray ==> Comparable(attribs.items + [name])
    modifies attribs, attribs.nodes
    ensures attribs.Valid() && attribs.head != null
    ensures forall i | 0 <= i < |attribs.nodes| :: attribs.nodes[i] in old(attribs.nodes) || fresh(attribs.nodes[i])
    ensures newIndex < |attribs.items| && attribs.items[newIndex] == name
    ensures name in old(attribs.items) ==> attribs.items == old(attribs.items)
    ensures var cols := old(attribs.items);
      name !in cols ==>
        && newIndex == Rank(stray, cols, name) && |attribs.items| == |cols| + 1
        && attribs.items == Splice(cols, newIndex, [name])
  {
    hide SortedBy, Rank, Ordered, StringList.Valid, Splice, Names, Elems, ItemKeys;
    ghost var cols := attribs.items;
    Unrepeated(attribs);
    attribs.AddItem(name);
    ghost var mid := attribs.nodes;
    assert forall n | n in mid :: n in old(attribs.nodes) || fresh(n);
    ghost var order := attribs.SortMaster(true, stray);
    assert forall i | 0 <= i < |attribs.nodes| :: attribs.nodes[i] in attribs.nodes && attribs.nodes[i] in mid;
    if name in cols {
      ResortSame(stray, cols, order);
    } else {
      SortedInsert(stray, cols, name, order);
      InsertKeeps(cols, Rank(stray, cols, name), name);
    }
    newIndex := attribs.FindInList(name);
  }

  lemma Unrepeated(list: StringList)
    requires list.Valid()
    ensures NoRepeats(list.items) && (list.items != [] ==> list.head != null)
  {
  }

  /** Its sheet part. */
  method AddToSheet(s: S.Sheet, attribs: StringList, newIndex: nat, asked: string -> L.Size, least: nat)
    requires s.Stored() && attribs.Valid() && newIndex <= s.maxCol + 1 && |attribs.items| <= s.maxCol + 2
    modifies s
    ensures s.Stored() && s.Contents() == InsertColumns(old(s.Contents()), newIndex, 1)
    ensures |s.ColumnRecords()| == old(s.maxCol) + 2
    ensures forall j | 0 <= j < |attribs.items| :: s.ColumnRecords()[j].caption == Some(attribs.items[j])
  {
    hide C.Dense, C.Laid, L.PixelsExact, L.Records, InsertColumns, StringList.Valid, Splice;
    s.InsertColumn(newIndex, 1);
    s.Shape();
    AddColumnLabels(s, attribs, asked, least);
  }

  lemma WidthShown(g: Grid, rows: seq<string>, d: Design)
    ensures ShowsValues(g, rows, d) ==> g.width == |d.cols|
  {
  }

  lemma LabelsShown(records: seq<L.Line>, cols: seq<string>)
    requires |records| == |cols| && forall j | 0 <= j < |records| :: records[j].caption == Some(cols[j])
    ensures ShowsLabels(records, cols)
  {
  }

  /** s_toplevel_delete_attrib_col, for the one column selected. */
  method DeleteAttrib(s: S.Sheet, attribs: StringList, at: nat, stray: bool, ghost rows: seq<string>, ghost ws: seq<Write>)
    requires s.Stored() && attribs.Valid() && at < |attribs.items|
    requires Agrees(s, rows, Design(attribs.items, ws)) && Sound(stray, Design(attribs.items, ws))
    modifies s, attribs, attribs.nodes
    ensures s.Stored() && attribs.Valid()
    ensures forall i | 0 <= i < |attribs.nodes| :: attribs.nodes[i] in old(attribs.nodes)
    ensures var d := Edited(stray, rows, Design(old(attribs.items), ws), DeleteColumn(at));
      && attribs.items == d.cols && Agrees(s, rows, d)
      && (attribs.head == null <==> d.cols == [])
  {
    hide ShowsValues, ShowsLabels, SortedBy, C.Dense, C.Laid, L.PixelsExact, L.Records, DeleteColumns, StringList.Valid, KeyCompare, Cut;
    ghost var cols, g, records := attribs.items, s.Contents(), s.ColumnRecords();
    ValuesCut(g, rows, Design(cols, ws), at);
    LabelsCut(records, cols, at);
    CutKeeps(stray, cols, at);
    s.Shape();
    WidthShown(g, rows, Design(cols, ws));
    var name := s.GetColumnLabel(at);
    Unrepeated(attribs);
    if name.Some? {
      DeleteFromList(attribs, at, name.value, stray);
    }
    s.DeleteColumn(at, 1);
  }

  lemma LabelsCut(records: seq<L.Line>, cols: seq<string>, at: nat)
    requires ShowsLabels(records, cols) && at < |cols|
    ensures records[at].caption == Some(cols[at]) && ShowsLabels(Cut(records, at, 1), Cut(cols, at, 1))
  {
  }

  method DeleteFromList(attribs: StringList, ghost at: nat, name: string, stray: bool)
    requires attribs.Valid() && attribs.head != null && SortedBy(true, stray, attribs.items)
    requires stray ==> Comparable(attribs.items)
    requires at < |attribs.items| && attribs.items[at] == name
    modifies attribs, attribs.nodes
    ensures attribs.Valid() && attribs.items == Cut(old(attribs.items), at, 1)
    ensures forall i | 0 <= i < |attribs.nodes| :: attribs.nodes[i] in old(attribs.nodes)
    ensures attribs.head == null <==> attribs.items == []
  {
    hide SortedBy, Ordered, StringList.Valid, Names, Elems, ItemKeys, Without;
    ghost var cols := attribs.items;
    Unrepeated(attribs);
    WithoutAt(cols, at);
    CutKeeps(stray, cols, at);
    attribs.DeleteItem(name);
    ghost var mid := attribs.nodes;
    assert forall i | 0 <= i < |mid| :: mid[i] in mid && mid[i] in old(attribs.nodes);
    ghost var order := attribs.SortMaster(true, stray);
    assert forall i | 0 <= i < |attribs.nodes| :: attribs.nodes[i] in attribs.nodes && attribs.nodes[i] in mid;
    ResortSame(stray, Cut(cols, at, 1), order);
  }

  /** A value typed into a cell of the sheet. */
  method EnterValue(s: S.Sheet, i: int, j: int, text: Option<string>, ghost stray: bool, ghost rows: seq<string>, ghost d: Design)
    requires s.Stored() && NoRepeats(rows) && NoRepeats(d.cols) && Agrees(s, rows, d)
    modifies s
    ensures s.Stored() && Agrees(s, rows, Edited(stray, rows, d, Enter(i, j, text)))
  {
    hide ShowsValues, ShowsLabels, C.Dense, C.Laid, L.PixelsExact, L.Records, NoRepeats;
    ValuesEntered(s.Contents(), stray, rows, d, i, j, text);
    s.SetCell(i, j, text);
  }

  // ---- editing sessions ----

  lemma {:induction false} WritesNamed(objs: seq<Component>)
    ensures forall w | w in Writes(objs) :: w.name in AllColumnNames(objs)
  {
    if objs != [] {
      var o := objs[|objs| - 1];
      WritesNamed(objs[..|objs| - 1]);
      if o.refdes.Some? { WritesOfNamed(o.refdes.value, o.attribs); }
    }
  }

  lemma {:induction false} WritesOfNamed(r: string, attribs: seq<string>)
    ensures forall w | w in WritesOf(r, attribs) :: w.name in ColumnNames(attribs)
  {
    if attribs != [] { WritesOfNamed(r, attribs[..|attribs| - 1]); }
  }

  /** A design just loaded is a state a session can start from: lists, table and sheet agree. */
  method OpenDesign(objs: seq<Component>, stray: bool, rowHeight: nat, asked: string -> L.Size, least: nat)
    returns (s: S.Sheet, comps: StringList, attribs: StringList, table: array2<Entry>)
    requires RowNames(objs) != [] && AllColumnNames(objs) != [] && Sortable(stray, objs)
    ensures s.Stored() && comps.Valid() && attribs.Valid()
    ensures comps != attribs && DisjointNodes(comps.nodes, attribs.nodes)
    ensures (forall x :: x in comps.items <==> x in RowNames(objs)) && Plain(attribs.items)
    ensures Agrees(s, comps.items, Design(attribs.items, Writes(objs)))
    ensures Sound(stray, Design(attribs.items, Writes(objs)))
    ensures table.Length0 == |comps.items| && table.Length1 == |attribs.items|
  {
    hide StringList.Valid, Writes, SortedBy, AllColumnNames, RowNames, C.Dense, L.Records, L.PixelsExact, NoRepeats, Plain, KeyCompare;
    comps, attribs, table := LoadTable(objs, stray);
    NonEmpty(comps.items, RowNames(objs));
    NonEmpty(attribs.items, AllColumnNames(objs));
    PlainSorted(objs, attribs.items);
    WritesNamed(objs);
    SheetTable.WritesNonEmpty(objs);
    s := new S.Sheet(Count(comps), Count(attribs), rowHeight);
    SheetTable.TableToSheet(s, table);
    ShownValues(s.Contents(), table, Writes(objs), comps.items, attribs.items);
    s.Shape();
    AddColumnLabels(s, attribs, asked, least);
    s.Shape();
    LabelsShown(s.ColumnRecords(), attribs.items);
  }

  lemma ShownValues(g: Grid, table: array2<Entry>, ws: seq<Write>, rows: seq<string>, cols: seq<string>)
    requires Holds(table, ws, rows, cols) && SheetTable.ShowsCells(g, table, table.Length0, 0)
    requires forall w | w in ws :: w.value != Some("")
    ensures ShowsValues(g, rows, Design(cols, ws))
  {
    forall i, j | 0 <= i < |rows| && 0 <= j < |cols| ensures g.At(i, j) == ValueIn(ws, rows[i], cols[j]) {
      assert table[i, j] == EntryOf(ws, rows, cols, i, j);
      SheetTable.LastIn(ws, rows[i], cols[j]);
    }
  }

  /** Saving: the pairs of one component, read back from the sheet. */
  method Save(s: S.Sheet, comps: StringList, attribs: StringList, table: array2<Entry>, r: string, ghost ws: seq<Write>)
    returns (pairs: StringList)
    requires s.Stored() && comps.Valid() && attribs.Valid() && comps.items != []
    requires Agrees(s, comps.items, Design(attribs.items, ws)) && Plain(attribs.items)
    requires table.Length0 == |comps.items| && table.Length1 == |attribs.items|
    modifies table
    ensures fresh(pairs) && pairs.Valid() && pairs.head != null
    ensures pairs.items ==
      if r in comps.items then RowPairs(ws, r, attribs.items, |attribs.items|) else []
  {
    hide C.Dense, C.Laid, L.Records, StringList.Valid, Plain, RowPairs, ValueIn;
    s.Shape();
    Unrepeated(attribs);
    SheetTable.SheetToTable(s, comps, attribs, table);
    pairs := CreateAttribPair(r, table, comps, Count(attribs), ws, attribs.items);
  }

  /** One edit: the list, the sheet and the size of the table stay in step. */
  method Apply(s: S.Sheet, attribs: StringList, table: array2<Entry>, e: Edit, stray: bool, asked: string -> L.Size, least: nat,
               ghost rows: seq<string>, ghost ws: seq<Write>)
    returns (table': array2<Entry>, ghost ws': seq<Write>)
    requires s.Stored() && attribs.Valid() && NoRepeats(rows)
    requires Agrees(s, rows, Design(attribs.items, ws)) && Sound(stray, Design(attribs.items, ws))
    requires Permitted(stray, Design(attribs.items, ws), e) && (attribs.items != [] || attribs.head == null)
    requires table.Length0 == |rows| && table.Length1 == |attribs.items|
    modifies s, attribs, attribs.nodes
    ensures s.Stored() && attribs.Valid() && (attribs.items != [] || attribs.head == null)
    ensures forall i | 0 <= i < |attribs.nodes| :: attribs.nodes[i] in old(attribs.nodes) || fresh(attribs.nodes[i])
    ensures Design(attribs.items, ws') == Edited(stray, rows, Design(old(attribs.items), ws), e)
    ensures Agrees(s, rows, Design(attribs.items, ws')) && Sound(stray, Design(attribs.items, ws'))
    ensures (table' == table || fresh(table')) && table'.Length0 == |rows| && table'.Length1 == |attribs.items|
  {
    hide ShowsValues, ShowsLabels, C.Dense, C.Laid, L.Records, StringList.Valid, SortedBy, NoRepeats, Splice, Cut, Rank;
    ghost var d := Design(attribs.items, ws);
    table', ws' := table, Edited(stray, rows, d, e).ws;
    EditKeeps(stray, rows, d, e);
    match e
    case Enter(i, j, text) =>
      Unrepeated(attribs);
      EnterValue(s, i, j, text, stray, rows, d);
    case AddColumn(name) =>
      AddAttrib(s, attribs, name, stray, asked, least, rows, ws);
      SpliceLength(d.cols, Rank(stray, d.cols, name), [name]);
      table' := ResizeTable(table, Count(attribs));
    case DeleteColumn(at) =>
      DeleteAttrib(s, attribs, at, stray, rows, ws);
      table' := NewTable(table.Length0, Count(attribs));
  }

  /**
   A whole session: whatever values are entered and whatever columns come and go, what is saved for
   a component is, in column order, what was last entered under each name; nothing if no column is left.
   */
  method Session(s: S.Sheet, comps: StringList, attribs: StringList, table: array2<Entry>, es: seq<Edit>, stray: bool,
                 asked: string -> L.Size, least: nat, r: string, ghost ws: seq<Write>)
    returns (pairs: StringList)
    requires s.Stored() && comps.Valid() && attribs.Valid() && comps != attribs && DisjointNodes(comps.nodes, attribs.nodes)
    requires Agrees(s, comps.items, Design(attribs.items, ws)) && Sound(stray, Design(attribs.items, ws))
    requires table.Length0 == |comps.items| && table.Length1 == |attribs.items| && comps.items != []
    requires attribs.items != [] || attribs.head == null
    requires forall k | 0 <= k < |es| ::
      Permitted(stray, EditedAll(stray, comps.items, Design(attribs.items, ws), es[..k]), es[k])
    requires Plain(EditedAll(stray, comps.items, Design(attribs.items, ws), es).cols)
    modifies s, attribs, attribs.nodes, table
    ensures pairs.Valid() && pairs.head != null && comps.Valid() && attribs.Valid()
    ensures comps.items == old(comps.items) && comps.head == old(comps.head)
    ensures attribs.items != [] || attribs.head == null
    ensures var d := old(EditedAll(stray, comps.items, Design(attribs.items, ws), es));
      && attribs.items == d.cols && NoRepeats(d.cols)
      && pairs.items == if r in comps.items then RowPairs(d.ws, r, d.cols, |d.cols|) else []
  {
    hide Agrees, Sound, Edited, Permitted, StringList.Valid, S.Sheet.Stored, NoRepeats, Plain, RowPairs;
    ghost var rows, d := comps.items, Design(attribs.items, ws);
    Unrepeated(comps);
    var current := table;
    ghost var now := ws;
    var k := 0;
    while k < |es|
      invariant 0 <= k <= |es| && s.Stored() && comps.Valid() && attribs.Valid() && comps.items == rows
      invariant comps.nodes == old(comps.nodes) && comps.head == old(comps.head)
      invariant attribs.items != [] || attribs.head == null
      invariant forall i | 0 <= i < |attribs.nodes| :: attribs.nodes[i] in old(attribs.nodes) || fresh(attribs.nodes[i])
      invariant current == table || fresh(current)
      invariant current.Length0 == |rows| && current.Length1 == |attribs.items|
      invariant Design(attribs.items, now) == EditedAll(stray, rows, d, es[..k])
      invariant Agrees(s, rows, Design(attribs.items, now)) && Sound(stray, Design(attribs.items, now))
    {
      current, now := Apply(s, attribs, current, es[k], stray, asked, least, rows, now);
      assert es[..k + 1][..k] == es[..k];
      k := k + 1;
    }
    assert es[..k] == es;
    Unrepeated(attribs);
    pairs := Save(s, comps, attribs, current, r, now);
  }
}
