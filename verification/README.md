# gEDA tools: attribute spreadsheet, overbar markup, symbol converter, page layout

The project models the parts of the gEDA suite whose correctness does not show from reading one
function: above all gattrib, the attribute spreadsheet, whose lists, table and sheet are kept in
step by in-place updates; then the overbar markup parser of the renderer, the record machine that
turns ViewDraw symbols into gEDA files, and the page transformation of the exporter.

| file | what it holds |
|---|---|
| `Grid.dfy` | the reference: a dense grid of texts on which insertion and deletion shift, and its laws |
| `CellStore.dfy` | the lazily grown array of row buffers, and what each step of the C loops means for the grid |
| `SheetLines.dfy` | row and column records with cached pixel offsets, lookup by pixel, rotation and deletion loops |
| `Sheet.dfy` | the class `Sheet`: the C structure's fields and operations, proved against `Grid` |
| `SheetRuns.dfy` | every run of operations, insert-then-delete, and the cases where the code departs from the grid |
| `Selection.dfy` | the selection as a state machine: clicks, sweeps, moving and resizing a block, deletions |
| `NaturalOrder.dfy` | `cmp` as a walk over two strings, the token order it stands for, and what numbers and letters decide |
| `MergeSort.dfy` | bottom-up merging on sequences: runs, passes, stability, uniqueness of the outcome |
| `ListSort.dfy` | `listsort` on heap nodes, every pass relinking `next` and `prev` |
| `StringList.dfy` | the class `StringList`: the master lists with add, delete, lookup and sorting |
| `AttribTable.dfy` | filling the attribute table from components and reading a component's pairs back |
| `SheetTable.dfy` | table to sheet and back |
| `WriteBack.dfy` | merging the pairs saved for a component with the texts attached to it, the designator read again at each name |
| `SavedTexts.dfy` | what a component carries after the merge, and exactly when that is its pairs |
| `SavedInputs.dfy` | components that end with other texts than their pairs |
| `AttribEdits.dfy` | editing sessions: columns added and deleted in list, sheet and table alike |
| `SavedSession.dfy` | from the edits of a session to the texts of a component |
| `Overbar.dfy` | the overbar parser and its inverse, an escaping printer |
| `Converter.dfy` | the record machine of `convert_sym` and the document it prints |
| `PageLayout.dfy` | the page size and transformation of the exporter, over `real` |

Code that updates fields or arrays in place is a class or a method over an array here. Such a method
is specified by a function of the old state, and the laws are lemmas about that function.

## Where the code departs from its purpose

Each of these is modelled as the code has it, with the condition under which it does what it is meant
to, and an input on which it does not.

- `cmp` advances both strings once more after a run of digits (listsort.c lines 105-106), so the
  character after a number is never compared. A name is compared as described with every other name
  if and only if it has no digit (`AgreesWithAllIffNoDigit`; `LettersSkipped` is an instance). A list in
  which equal numbers are always followed by equal characters is sorted as described
  (`SameArrangement`).
- For the same reason `cmp` reads past the end of a string when an equal number ends one of the two:
  exactly then (`WalkDefinedIff`; C1 with c1 and U1 with U1A are instances, `LeavesStrings`). Whatever
  sorts by the code as it stands (parameter `stray` true) requires that the names can be compared;
  by the order described (`stray` false) it requires nothing.
- `gtk_sheet_construct` allocates two rows and two columns whatever is asked for. From two of each on,
  every run of operations shows what the grid shows (`NewSheetRun`); in every sheet made with a single
  column, or a single row, there is a run that does not (`OneColumnRun`, `OneRowRun`). Such a sheet is
  right as long as no line of that kind is deleted before one is appended (`SafeSheetRun`).
- Inserting zero columns erases every text from the insertion point on. It is harmless if and only
  if there is none (`InsertNoColumn`).
- `AddRow` and `AddColumn` place a new line after the previous one as if that were visible. The
  cached pixels stay right if and only if it takes up its size on screen (`AddLinesPixels`).
- Deleting rows or columns clicks the cell left in the place of the active one. If none is left or
  it is hidden, no cell is active and the selected range may lie outside the sheet; so may a block
  being moved or resized that the deletion leaves no room for (`StepKeeps`).
- Selecting a row leaves the last cell reached as it was, so a sweep that only visits that cell does
  not extend the selection (`PressAndSweepRows`). A block grabbed at its last row is stretched down to
  the pointer, but up to one row short of it (`ResizeReaches`).
- A key typed while lines are selected moves the active cell, from which the range is extended, into
  view. The range itself stays, but the next extension starts there and not at the end of the lines
  (`StepKeepsLines`).
- Adding an attribute that is there already puts a column into the sheet but none into the master
  list. List and sheet agree afterwards if and only if the name is new; otherwise the column of that
  name is blank and each later one shows its left neighbour's values (`AddAttrib`).
- Writing a component back reads its designator again at each name (s_toplevel.c line 746), after the
  names before it were merged. A component that is given its first `numslots` is then looked up as
  "U1.", not found, and loses the attributes of the later columns (`FirstNumslots`). A component with a
  refdes keeps its row, the merge is steady, if and only if the numslots was there before, or comes
  last, or the other row is in the sheet as well (`SteadyIff`).
- Two parts of the program read names differently. gattrib skips spaces before the name and before the
  value; to liblepton a text with a space beside its equals sign is no attribute, and a leading space
  is part of the name. A text that the search for gattrib's name does not find stays, and the pair made
  from it is added beside it, even if it is the same text (`SpaceAfterEquals`, `LeadingSpace`,
  `SpaceBeforeEquals`). A component ends with its fixed texts and with each pair exactly once if and only
  if the merge is steady and each of its own texts is found (`ExactlyThePairs`; `EndsIff` is the
  condition without any assumption).
- The comment in the overbar parser means an unterminated overbar to run to the end of the text; the
  code leaves its end unset if a null character ends the text, and drops the span if the length does.
  All spans have an end if and only if the number of delimiters is even or no null character is read
  (`AnyInput`; `UnterminatedSpan` is an instance). The buffer is terminated if and only if a null
  character or a backslash is read (`TerminatedIff`); "ab" with length 1 is an instance of what happens
  otherwise (`NotTerminated`).
- `do_net_node` compares with the limit after the last place is taken: node 1024 is stored behind the
  arrays. A run stays inside them if and only if the records fit, which can be told from the records
  alone (`RunStaysInArrays`; `NodeTooMany` is an instance, and well-formed nets fit, `WellFormedFits`).

## Model

| member | source | states |
|---|---|---|
| Sheet.Sheet.GetText | gattrib/src/gtksheet_2_2.c:3726-3740 | reading any position, in range or not, gives the text of the dense grid there; empty text is absent |
| Sheet.Sheet.SetCell | gattrib/src/gtksheet_2_2.c:3534-3595 | writes one text of the grid and nothing else, whether or not the cell was allocated; outside the sheet nothing changes |
| Sheet.Sheet.CellClear | gattrib/src/gtksheet_2_2.c:3598-3641 | erases exactly one text, for clearing and for deleting a cell |
| Sheet.Sheet.RealCellClear | gattrib/src/gtksheet_2_2.c:3644-3676 | touches one slot inside the allocated corner and none outside |
| Sheet.Sheet.GrowSheet | gattrib/src/gtksheet_2_2.c:7984-8020 | every slot it re-exposes is blank and every slot inside the old corner is kept, so stale entries never resurface |
| Sheet.Sheet.CheckBounds | gattrib/src/gtksheet_2_2.c:8023-8031 | the cell asked for is allocated and no text changes |
| Sheet.Sheet.AddRow | gattrib/src/gtksheet_2_2.c:7756-7791 | rows are appended with default records and show what is stored there, nothing if the sheet kept the invariant; the pixel cache stays right iff the previous last row takes up its size |
| Sheet.Sheet.AddColumn | gattrib/src/gtksheet_2_2.c:7710-7753 | the same for columns |
| Sheet.Sheet.InsertRow | gattrib/src/gtksheet_2_2.c:7794-7832 | texts and records shift as on the grid, the corner stays inside the sheet, every cell's own row and column equal its position, the pixel cache is exact |
| Sheet.Sheet.RotateRows | gattrib/src/gtksheet_2_2.c:7817-7828 | the descending swap loop is a rotation: blank buffers move to the insertion point, the others n further, and their cells learn the new row |
| Sheet.Sheet.InsertColumn | gattrib/src/gtksheet_2_2.c:7835-7869 | the same for columns, except that inserting none erases the texts from there on |
| Sheet.Sheet.DeleteRow | gattrib/src/gtksheet_2_2.c:7872-7931 | texts and records shift up as on the grid for any count and position, cells keep knowing their place, the corner shrinks with the sheet; a row allocated beyond the sheet leaves a freed buffer inside the corner, or the first row uncleared |
| Sheet.Sheet.PullAndFreeRows | gattrib/src/gtksheet_2_2.c:7898-7925 | the clearing, swapping and freeing loops delete rows of the grid although buffers are swapped one by one |
| Sheet.Sheet.DeleteColumn | gattrib/src/gtksheet_2_2.c:7934-7981 | the same for columns; what is left behind the sheet is stale only if a column was allocated there and the one that stood there was deleted |
| Sheet.Sheet.SetRowHeight | gattrib/src/gtksheet_2_2.c:7046-7075 | a height below what the title asks for is refused but the request recorded; the rows below move by what the row grew, and nothing else about any row changes |
| Sheet.Sheet.SetColumnWidth | gattrib/src/gtksheet_2_2.c:7014-7043 | the same for columns |
| Sheet.Sheet.SetRowVisibility | gattrib/src/gtksheet_2_2.c:2066-2083 | changes that one record; the rows below move by its height |
| Sheet.Sheet.SetColumnVisibility | gattrib/src/gtksheet_2_2.c:2046-2063 | the same for columns |
| Sheet.Sheet.SetColumnLabel | gattrib/src/gtksheet_2_2.c:1739-1769 | one column gets the label and grows to what its button asks for, if its cells do not ask for more, the titles too; the pixel caches stay exact |
| Sheet.Sheet.NewRowHeight | gattrib/src/gtksheet_2_2.c:6974-7011 | after a drag the row ends under the pointer, unless it asks for more, the pointer's pixel still belongs to it, and the rows below move along |
| Sheet.Sheet.NewColumnWidth | gattrib/src/gtksheet_2_2.c:6932-6968 | the same for columns |
| Sheet.Sheet.RowUnderPixel | gattrib/src/gtksheet_2_2.c:152-181 | looking up a row by the pixels 1..height below its cached top finds that row |
| Sheet.Sheet.ColumnUnderPixel | gattrib/src/gtksheet_2_2.c:188-217 | the same for columns |
| Sheet.Sheet.SetTitlesHeight | gattrib/src/gtksheet_2_2.c:1446-1463 | the first row starts below the titles, if shown, all rows move by what these grew, and no column moves; a height below the default is refused |
| Sheet.Sheet.constructor | gattrib/src/gtksheet_2_2.c:1049-1103 | a blank sheet whose rows stand below titles of their own height and whose columns, 80 wide, right of titles 80 wide, with nothing stored behind it; its allocated corner lies inside it iff it has two rows and two columns |
| Sheet.Sheet.RowPixels | gattrib/src/gtksheet_2_2.c:6099-6111 | the cached pixels are exact iff the first row stands below the shown titles and each further one below the one before, if that is shown |
| Sheet.Sheet.ColumnPixels | gattrib/src/gtksheet_2_2.c:6113-6124 | the same for columns, right of the row titles |
| SheetRuns.Do | gattrib/src/gtksheet_2_2.c:7710-8031 | each safe operation commutes with showing the grid and keeps the invariant; only appending can spoil the pixels |
| SheetRuns.Run | gattrib/src/gtksheet_2_2.c:7710-8031 | any safe sequence of operations shows what the grid shows after the same sequence; inside the allocated corner every sequence is safe |
| SheetRuns.SafeInside | gattrib/src/gtksheet_2_2.c:7710-8031 | no operation is unsafe in a sheet whose corner lies inside it |
| SheetRuns.NewSheetRun | gattrib/src/gtksheet_2_2.c:1049-1103 | from a new sheet of two rows and two columns at least, every cell text after any run is the grid's |
| SheetRuns.SafeSheetRun | gattrib/src/gtksheet_2_2.c:1049-1103 | so it is from any new sheet if no line is deleted while a spare one of its kind is allocated |
| SheetRuns.OneColumnRun | gattrib/src/gtksheet_2_2.c:7934-7981 | in every one-column sheet: entering a text, deleting the column and appending one shows the text, where the grid is blank |
| SheetRuns.OneRowRun | gattrib/src/gtksheet_2_2.c:7872-7931 | likewise in every one-row sheet |
| SheetRuns.InsertThenDelete | gattrib/src/gtksheet_2_2.c:7794-7931 | inserting rows and deleting them again restores every text and every record |
| SheetRuns.InsertThenDeleteCols | gattrib/src/gtksheet_2_2.c:7835-7981 | the same for one or more columns |
| SheetRuns.InsertNoColumn | gattrib/src/gtksheet_2_2.c:7857-7866 | inserting no column keeps the texts iff there is none at or right of the place |
| CellStore.InsertedRows | gattrib/src/gtksheet_2_2.c:7813-7829 | a store whose buffers were rotated shows the grid with rows inserted |
| CellStore.InsertedColumns | gattrib/src/gtksheet_2_2.c:7855-7866 | a store whose slots were pushed right shows the grid with columns inserted |
| CellStore.DeletedRows | gattrib/src/gtksheet_2_2.c:7898-7925 | a store whose buffers were pulled up and freed shows the grid with rows deleted |
| CellStore.DeletedColumns | gattrib/src/gtksheet_2_2.c:7957-7976 | a store whose slots were pulled left shows the grid with columns deleted, stale slots or not |
| CellStore.GrownShows | gattrib/src/gtksheet_2_2.c:7984-8020 | growing the corner changes no text, inside or outside |
| CellStore.SetSlot | gattrib/src/gtksheet_2_2.c:3549-3580 | writing one slot is writing one text of the grid |
| Grid.InsertThenDeleteRows | gattrib/src/gtksheet_2_2.c:7794-7931 | on the grid deletion undoes insertion iff the place is inside or nothing was inserted |
| Grid.InsertThenDeleteColumns | gattrib/src/gtksheet_2_2.c:7835-7981 | the same for columns |
| Grid.InsertRowsSplits | gattrib/src/gtksheet_2_2.c:7794-7832 | inserting rows at once or in two portions is the same |
| Grid.InsertsCommute | gattrib/src/gtksheet_2_2.c:7794-7869 | row and column insertion do not interfere |
| Grid.DeletesCommute | gattrib/src/gtksheet_2_2.c:7872-7981 | row and column deletion do not interfere |
| SheetLines.RecalcPixels | gattrib/src/gtksheet_2_2.c:6099-6124 | every cached offset becomes the header plus the visible sizes before the line, nothing else changes |
| SheetLines.ExactPixels | gattrib/src/gtksheet_2_2.c:6099-6124 | the offsets computed from the front are those in which each line follows the one before |
| SheetLines.LinesMove | gattrib/src/gtksheet_2_2.c:6099-6124 | when a line changes its extent or the header its size, each line moves by what changed before it |
| SheetLines.TotalExtent | gattrib/src/gtksheet_2_2.c:222-248 | the sheet's height is where a further row would start |
| SheetLines.LineFromPixel | gattrib/src/gtksheet_2_2.c:163-217 | the line found is the first visible one reaching the pixel, the first line above them all, the last line below |
| SheetLines.LineAtUnique | gattrib/src/gtksheet_2_2.c:163-217 | a pixel belongs to one line only |
| SheetLines.LineAtMonotone | gattrib/src/gtksheet_2_2.c:163-217 | moving the pointer down never moves the line up |
| SheetLines.LineAtInverse | gattrib/src/gtksheet_2_2.c:152-181 | the pixels 1..size below a visible line's top lead back to it |
| SheetLines.LineAtTopEdge | gattrib/src/gtksheet_2_2.c:163-181 | its top edge itself does iff nothing visible precedes it |
| SheetLines.AddLinesPixels | gattrib/src/gtksheet_2_2.c:7742-7783 | appended lines have right offsets iff the previous last line takes up its size |
| SheetLines.RotateLines | gattrib/src/gtksheet_2_2.c:7803-7811 | the descending swap loop brings the appended records to the insertion point and keeps all others in order |
| SheetLines.DeleteLines | gattrib/src/gtksheet_2_2.c:7881-7896 | the records of the deleted lines go and the tail moves up, labels included |
| SheetLines.DragSize | gattrib/src/gtksheet_2_2.c:6932-7011 | a dragged line ends under the pointer, in exact pixels |
| SheetLines.InsertThenDeleteRecords | gattrib/src/gtksheet_2_2.c:7794-7896 | size, visibility, sensitivity and label of every line survive insertion and deletion |
| Selection.StepKeeps | gattrib/src/gtksheet_2_2.c:4843-5232 | every event keeps the range inside the sheet and spanned by anchor and last cell, except exactly a deletion whose replacement cell is missing or hidden, or during which a block being moved or resized ends up outside the smaller sheet |
| Selection.StepKeepsLines | gattrib/src/gtksheet_2_2.c:5502-5562 | selected rows and columns stay selected from end to end with their anchor at the end, from where they are extended, iff no key moves the anchor into a scrolled view; the range stays even then |
| Selection.RunKeeps | gattrib/src/gtksheet_2_2.c:4843-5562 | both hold over every run of events |
| Selection.PressAndSweep | gattrib/src/gtksheet_2_2.c:5502-5562 | after a press the last cell reached alone decides the range, whatever the path, also after release |
| Selection.PressAndSweepRows | gattrib/src/gtksheet_2_2.c:2086-2115 | after a press on a row title the rows up to the last one reached are selected, iff the sweep leaves the cell reached before or that is in the same row |
| Selection.SheetSelection.StretchTo | gattrib/src/gtksheet_2_2.c:5690-5740 | a key stretches the selection to another row, after clicking a single cell first |
| Selection.DragAndDrop | gattrib/src/gtksheet_2_2.c:5357-5378 | a moved block keeps its shape, stays in the sheet and lands at the last place that fits |
| Selection.GrabbedWhere | gattrib/src/gtksheet_2_2.c:4946-4968 | a block is held where the pointer is on it, right outside it at its nearest line, a single cell as itself |
| Selection.BlockFollows | gattrib/src/gtksheet_2_2.c:4946-5168 | pressed at a cell, pulled over others and released, a block is selected where it stands after moving as far as the pointer did, if that is in the sheet; selected lines move across only |
| Selection.ResizeReaches | gattrib/src/gtksheet_2_2.c:5381-5430 | a resized block never shrinks or leaves the sheet; down it reaches the pointer, up it stops one line short |
| Selection.CornerPulled | gattrib/src/gtksheet_2_2.c:4917-5210 | a block pulled at its corner and released: it ends at the pointer, upwards one row short of it, and is selected |
| Selection.ClickSelects | gattrib/src/gtksheet_2_2.c:5032-5120 | a click selects the cell, the row, the column or everything, and nothing if hidden or outside |
| Selection.GoAndStretch | gattrib/src/gtksheet_2_2.c:5565-5840 | the cell a key moves to is selected alone; stretched from there, the rows between in its column |
| Selection.StretchAgain | gattrib/src/gtksheet_2_2.c:5565-5840 | several cells or rows selected are stretched from their anchor |
| Selection.ReleasedForGood | gattrib/src/gtksheet_2_2.c:5126-5290 | once the button is released the pointer moves nothing |
| Selection.GrowKeepsSelection | gattrib/src/gtksheet_2_2.c:7710-7869 | a longer sheet keeps what is selected, selected lines get longer with it |
| Selection.ShrinkSelects | gattrib/src/gtksheet_2_2.c:7872-7981 | after a deletion the cell in the place of the active one is selected alone, or the last one left |
| Selection.SheetSelection.ClickCell | gattrib/src/gtksheet_2_2.c:5039-5123 | the whole new selection for a cell, a title or the corner; ignored outside the sheet and on hidden cells |
| Selection.SheetSelection.ExtendSelection | gattrib/src/gtksheet_2_2.c:5502-5562 | the range becomes the box of anchor and target, lines kept whole |
| Selection.SheetSelection.Motion | gattrib/src/gtksheet_2_2.c:5357-5444 | moves, resizes or extends, in this order of preference |
| Selection.SheetSelection.ButtonRelease | gattrib/src/gtksheet_2_2.c:5156-5232 | a moved or resized block becomes the selection, a single cell is activated |
| Selection.SheetSelection.DeleteLines | gattrib/src/gtksheet_2_2.c:7239-7252 | the cell left in place of the active one is clicked and activated, or none is active |
| Selection.SheetSelection.Run | gattrib/src/gtksheet_2_2.c:4843-5562 | a run of events leaves the selection in the sheet unless a deletion loses it |
| NaturalOrder.Cmp | gattrib/src/listsort.c:83-113 | returns the position difference or the walk's outcome, and where it stays inside its strings that is the token order with the swallowed characters |
| NaturalOrder.TotalPreorder | gattrib/src/listsort.c:83-113 | zero on itself, antisymmetric in sign, transitive, for the code's reading and for the documented one |
| NaturalOrder.EqualTokens | gattrib/src/listsort.c:90-112 | two strings compare equal iff their tokens agree one by one |
| NaturalOrder.WalkIsTokenOrder | gattrib/src/listsort.c:90-112 | the two-pointer walk computes the lexicographic token order |
| NaturalOrder.AgreesWhenSame | gattrib/src/listsort.c:105-106 | the code agrees with the documented order on strings whose equal numbers are followed by equal characters |
| NaturalOrder.AgreesWithAllIffNoDigit | gattrib/src/listsort.c:105-106 | a name is compared as documented with every other name iff it has no digit |
| NaturalOrder.WalkDefinedIff | gattrib/src/listsort.c:90-112 | the code stays inside its strings iff no pair of equal numbers it meets ends one of them |
| NaturalOrder.LeavesStrings | gattrib/src/listsort.c:105-106 | on C1 and c1, and on U1A and U1, it reads past the end |
| NaturalOrder.LettersSkipped | gattrib/src/listsort.c:105-106 | R1A and R1B are told apart by the documented order but not by the code |
| NaturalOrder.DecimalReads | gattrib/src/listsort.c:94-95 | every number is read back from its decimal digits |
| NaturalOrder.LeadingZero | gattrib/src/listsort.c:94-95 | leading zeros change nothing |
| NaturalOrder.NumeralOrder | gattrib/src/listsort.c:94-97 | of two numbers without leading zeros the longer is the greater, at equal length the first digit that differs decides |
| NaturalOrder.NumbersDecide | gattrib/src/listsort.c:90-101 | after a common beginning two different numbers decide, so R9 comes before R10 |
| NaturalOrder.LettersDecide | gattrib/src/listsort.c:102-106 | after a common beginning letters decide by the alphabet, large or small; the same letter is passed over |
| NaturalOrder.DigitsFirst | gattrib/src/listsort.c:102-112 | digits come before letters, and a beginning before what continues it |
| MergeSort.MergeOrdered | gattrib/src/listsort.c:174-208 | merging two sorted runs gives one sorted, stable run |
| MergeSort.PassRuns | gattrib/src/listsort.c:156-212 | a pass turns sorted runs of length w into sorted runs of length 2w |
| MergeSort.RunsHalve | gattrib/src/listsort.c:219-224 | the number of runs halves rounding up, and is one iff two runs cover the list |
| MergeSort.Sorts | gattrib/src/listsort.c:135-226 | the passes return every element once, ordered by key and equal keys by original place |
| MergeSort.SortedUnique | gattrib/src/listsort.c:135-226 | there is only one such arrangement |
| MergeSort.SameArrangement | gattrib/src/listsort.c:105-106 | if equal numbers in keys of one position are always followed by equal characters, code and description give the same arrangement |
| ListSort.CompareItems | gattrib/src/listsort.c:83-113 | the sort calls `cmp`, on pairs on which it stays inside the strings |
| ListSort.ListSort | gattrib/src/listsort.c:135-226 | the same nodes in sorted stable order, next and prev mutually consistent, first prev and last next null; it terminates; the code's own comparison is required to stay inside the strings |
| ListSort.SortPass | gattrib/src/listsort.c:149-217 | relinking in place performs one pass and counts its merges |
| ListSort.MergeRuns | gattrib/src/listsort.c:169-208 | the inner loop merges two stretches of the linked list in place |
| StringList.StringList.AddItem | gattrib/src/s_string_list.c:116-168 | a new item goes to the end, a known one changes nothing, a null list stays as it is; links, count and uniqueness are kept |
| StringList.StringList.DeleteItem | gattrib/src/s_string_list.c:179-255 | removes the named item only, keeps the others' order and links; the list pointer is null iff the only item went |
| StringList.StringList.FindInList | gattrib/src/s_string_list.c:306-333 | the index of the item, or -1 iff it is not there |
| StringList.StringList.GetDataAtIndex | gattrib/src/s_string_list.c:345-365 | the item at the index, nothing beyond the end |
| StringList.StringList.LookupRoundTrip | gattrib/src/s_string_list.c:306-365 | lookup by item and by index are inverse |
| StringList.StringList.SortMaster | gattrib/src/s_string_list.c:378-471 | the same items, sorted and stable by position then name, renumbered 0..n-1, on the same nodes |
| StringList.AttribColumns | gattrib/src/s_string_list.c:414-471 | device, footprint and value come first in that order, symversion last, the rest in natural order |
| StringList.RowsInOrder | gattrib/src/s_string_list.c:378-430 | designators end up in the order of the comparison alone |
| StringList.ArrangedNames | gattrib/src/s_string_list.c:436-471 | a sorted arrangement of a list without repeats has no repeats and the same items |
| AttribTable.RemainingString | gattrib/src/s_misc.c:106-135 | the part behind the given number of delimiters without leading spaces, absent when there are fewer or nothing is left; for one `=` that is the attribute's value |
| AttribTable.AddMasterCompListItems | gattrib/src/s_sheet_data.c:107-156 | every designator once, in order of appearance; it is in the list iff some component with attributes has it |
| AttribTable.AddMasterCompAttribListItems | gattrib/src/s_sheet_data.c:170-234 | every attribute name once, in order of appearance; a name is in the list iff some text has it and it is none of refdes, net and slot |
| AttribTable.NewTable | gattrib/src/s_table.c:65-93 | every entry blank and knowing its place |
| AttribTable.ResizeTable | gattrib/src/s_table.c:112-137 | more columns, old entries kept |
| AttribTable.GetIndex | gattrib/src/s_table.c:188-206 | the position of the item, or -1 iff it is not there |
| AttribTable.Store | gattrib/src/s_table.c:337-360 | one attribute goes to the entry of its row and column and to no other |
| AttribTable.FillTable | gattrib/src/s_table.c:272-376 | every entry holds the last value written for its row and column, with both names |
| AttribTable.CreateAttribPair | gattrib/src/s_table.c:225-258 | the row's name=value pairs in column order, valueless entries omitted, none lost to the duplicate check |
| AttribTable.MasterLists | gattrib/src/s_sheet_data.c:107-234 | both lists, built and sorted, with each name once |
| AttribTable.RowPairsExact | gattrib/src/s_table.c:225-376 | with unique names, a text is among the pairs iff the component carries it and it has a column |
| AttribTable.OwnWrites | gattrib/src/s_table.c:272-376 | with unique designators a row holds its own component's attributes only |
| AttribTable.NameOfPair | gattrib/src/s_misc.c:106-135 | a pair splits back into the name and value it was made from |
| AttribTable.AttributesOf | gattrib/src/s_table.c:188-376 | end to end: a component's pairs are exactly its attributes with values, but refdes, net and slot, in sorted column order |
| AttribTable.CarriesIff | gattrib/src/s_table.c:322-335 | a pair is carried iff it is made from a text with a value whose name is none of refdes, net and slot |
| SheetTable.TableToSheet | gattrib/src/x_window.c:384-398 | a new sheet shows exactly the table's values |
| SheetTable.SheetToTable | gattrib/src/s_table.c:675-759 | every entry becomes the sheet's text there, under the names of its row and column |
| SheetTable.ThroughSheet | gattrib/src/s_table.c:600-759 | a table put into a sheet and read back shows the same values |
| SheetTable.LoadAndSave | gattrib/src/s_table.c:188-759 | from loading a design to the pairs collected for saving, unedited, no attribute is lost or invented |
| WriteBack.Attached.Update | gattrib/src/s_toplevel.c:618-822 | the texts of a component after the loop over the complete list, with its four cases |
| WriteBack.Attached.CompleteList | gattrib/src/s_toplevel.c:645-697 | the pairs, then those attached texts whose names the pairs lack |
| WriteBack.Attached.Merge | gattrib/src/s_toplevel.c:715-815 | one name: replace, remove, add or leave, by the row of the designator read at that moment; a designator that is not in the list counts as a deleted value |
| WriteBack.Attached.Replace | gattrib/src/s_object.c:169-220 | the first text of that name gives way, the others stay |
| WriteBack.Attached.Remove | gattrib/src/s_object.c:232-279 | the first text of that name goes, the others stay in order |
| WriteBack.Attached.GetRefdes | gattrib/src/s_attrib.c:89-134 | the designator of the texts as they are now, case by case over what is found: the refdes, else the uref, and once there is a numslots, own or inherited, a dot and the slot, if any |
| WriteBack.SlotsTellApart | gattrib/src/s_attrib.c:115-125 | two slotted components with the same refdes have the same designator iff their slots are equal |
| WriteBack.FoundHasName | liblepton/src/o_attrib.c:362-396 | a search for a name finds exactly the texts of that name that are attributes and have no leading space |
| WriteBack.SearchFirst | liblepton/src/o_attrib.c:480-535 | the first text found gives the value, which is what follows its equals sign |
| WriteBack.AttributeIff | liblepton/src/o_attrib.c:362-396 | a name and a value around an equals sign are an attribute iff neither is empty and no space stands beside the sign |
| SavedTexts.MergedTexts | gattrib/src/s_toplevel.c:759-801 | one turn settles the texts of its name, counted, and touches no other, fixed texts neither |
| SavedTexts.DesignatorStands | gattrib/src/s_toplevel.c:746-747 | the designator read on the way can be told from the texts before and the pairs taken so far |
| SavedTexts.WrittenBack | gattrib/src/s_toplevel.c:618-822 | for any texts with unique names: a null pointer is followed iff no designator is left, otherwise the component carries each pair that found its row once, its refdes, net and slot texts as they were, and besides each of its own texts that the search does not find |
| SavedTexts.SteadyTakes | gattrib/src/s_toplevel.c:746-752 | every pair finds the row iff the designators told beforehand are in the list |
| SavedTexts.SteadyIff | gattrib/src/s_toplevel.c:746-752 | with a refdes, iff the row is there, and no pair but the last gives a first numslots, or the slotted row is there too |
| SavedTexts.EndsIff | gattrib/src/s_toplevel.c:618-822 | the component ends with exactly its pairs, each once, iff the pairs taken and its texts that are not found make them up |
| SavedTexts.ExactlyThePairs | gattrib/src/s_toplevel.c:618-822 | that is, iff the merge is steady and each own text that is not fixed is found |
| SavedTexts.SteadyWrittenBack | gattrib/src/s_toplevel.c:618-822 | after a steady merge: every pair, and each own text that is not found |
| SavedTexts.NothingSaved | gattrib/src/s_toplevel.c:715-801 | without pairs, as when the last column is deleted, every text goes that is found and not fixed |
| SavedTexts.Unedited | gattrib/src/s_toplevel.c:618-822 | pairs that are just its attributes leave the texts as they are, in order, if all are found |
| SavedTexts.LoadSaveWriteBack | gattrib/src/s_toplevel.c:389-440 | loading, saving unedited and writing back changes not one text of a component whose texts are all found; a steady merge leaves each text that is not and carries each of its pairs once more |
| SavedInputs.FirstNumslots | gattrib/src/s_attrib.c:115-125 | one component that loses an attribute because a new numslots changes its designator |
| SavedInputs.SpaceBeforeEquals | liblepton/src/o_attrib.c:362-396 | one text that is a pair but not found, and is carried twice |
| SavedInputs.LeadingSpace | liblepton/src/geda_string.c:130-182 | one attribute with a leading space that gets a twin without |
| SavedInputs.SpaceAfterEquals | liblepton/src/o_attrib.c:362-396 | one text that is no attribute, and gets a twin |
| SavedSession.FromSheetIff | gattrib/src/s_table.c:225-258 | the pairs of a row split back into their columns and values, none of them fixed, iff no value in it is empty or starts with a space, and no column with a value is refdes, net or slot or starts with a space |
| SavedSession.SessionWriteBack | gattrib/src/s_toplevel.c:389-822 | after any session, saving and writing back, a component whose row can be saved carries exactly what was last entered for it under each column left, each once, iff the merge is steady and its own texts are found |
| AttribEdits.SortedInsert | gattrib/src/s_string_list.c:436-471 | sorting a sorted list with one new name at its end puts that name at its rank and moves nothing else |
| AttribEdits.ResortSame | gattrib/src/s_string_list.c:436-471 | sorting a sorted list again changes nothing |
| AttribEdits.AddAttrib | gattrib/src/s_toplevel.c:180-266 | list and sheet agree after adding an attribute iff its name is new; if not, its column is blank and every later one shows its left neighbour's values |
| AttribEdits.DeleteAttrib | gattrib/src/s_toplevel.c:276-369 | list and sheet agree after deleting a column, and no other value changes |
| AttribEdits.AddColumnLabels | gattrib/src/x_gtksheet.c:207-226 | the first columns bear the names of the list, the others keep their labels |
| AttribEdits.EditKeeps | gattrib/src/s_toplevel.c:180-369 | edits keep the columns sorted and free of repeats, and every value in a column |
| AttribEdits.OthersUntouched | gattrib/src/s_toplevel.c:180-369 | over any session, the values of a column no edit names stay |
| AttribEdits.OpenDesign | gattrib/src/x_window.c:384-398 | a loaded design starts with list, table and sheet in agreement |
| AttribEdits.Session | gattrib/src/s_table.c:600-759 | after any edits, the pairs collected for a component are what was last entered under each name, in column order, none if every column was deleted; list and designators are as the merge needs them |
| Overbar.ParseOverbars | libleptonrenderer/edapangorenderer.c:372-445 | in a buffer of length+1 characters, writing never passes reading; text and spans are those of the scan |
| Overbar.PrintThenParse | libleptonrenderer/edapangorenderer.c:399-442 | printing any text and ordered disjoint spans and parsing it gives them back |
| Overbar.ParsePrintParse | libleptonrenderer/edapangorenderer.c:399-442 | printing what was parsed gives markup with the same meaning, for any input |
| Overbar.AnyInput | libleptonrenderer/edapangorenderer.c:399-442 | for any input, with or without a null character, the spans are ordered, disjoint and inside the text, their number is known, and all have an end iff the delimiters are even in number or no null character is read |
| Overbar.EscapedCharacter | libleptonrenderer/edapangorenderer.c:399-424 | any other escaped character stands for itself, and so does an underscore that is not escaped |
| Overbar.TerminatedIff | libleptonrenderer/edapangorenderer.c:389-410 | the buffer ends up with a null character iff one is read or an escape is |
| Overbar.NotTerminated | libleptonrenderer/edapangorenderer.c:399-442 | two inputs with explicit lengths: no terminator, a dropped span |
| Overbar.UnterminatedSpan | libleptonrenderer/edapangorenderer.c:426-434 | one delimiter gives a span whose end is unset |
| Converter.Converter.ConvertFile | contrib/gmk_sym/convert_sym.c:412-528 | the flag machine prints exactly the document of its records, and fails exactly when a record does |
| Converter.Converter.DoRecord | contrib/gmk_sym/convert_sym.c:427-520 | one record's output, flags and outcome |
| Converter.Converter.BeginAttach | contrib/gmk_sym/convert_sym.c:1979-1986 | opens a block iff one is pending |
| Converter.Converter.ResetAttributes | contrib/gmk_sym/convert_sym.c:1995-2014 | closes a block iff one is open |
| Converter.Converter.DoAttachedAttribute | contrib/gmk_sym/convert_sym.c:663-872 | what is attached, by owner, visibility and text, and when the run ends |
| Converter.Converter.DoNetNode | contrib/gmk_sym/convert_sym.c:1387-1424 | the node goes to the next place of the table, or the run ends at the limit |
| Converter.PinGeometry | contrib/gmk_sym/convert_sym.c:1016-1110 | which end of a pin connects, and where an inverted pin's bubble goes |
| Converter.BubbleFillsGap | contrib/gmk_sym/convert_sym.c:1016-1110 | the bubble lies halfway between the end the pin had and the end it is given, the other end stays |
| Converter.PinConnects | contrib/gmk_sym/convert_sym.c:1016-1110 | a pin connects at its end towards the side it is on; inverted, its other end comes 50 units nearer and a bubble fills the gap |
| Converter.SplitIs | contrib/gmk_sym/convert_sym.c:855-870 | an attribute text is its name and its value around the first equals sign, or a name alone |
| Converter.PinTypes | contrib/gmk_sym/convert_sym.c:728-800 | the eight pin types, and no others |
| Converter.AttachedMeans | contrib/gmk_sym/convert_sym.c:663-872 | what an attached attribute becomes, by owner, visibility and name |
| Converter.UnattachedMeans | contrib/gmk_sym/convert_sym.c:575-660 | an attribute of its own prints itself, unless of an invalid visibility |
| Converter.PinNumbered | contrib/gmk_sym/convert_sym.c:812-853 | a pin's number is attached with its place among the pins so far |
| Converter.LabelledInstance | contrib/gmk_sym/convert_sym.c:1289-1374 | a labelled instance in full: ten times as large, with its refdes in a block |
| Converter.LabelledPin | contrib/gmk_sym/convert_sym.c:1289-1374 | a labelled pin in full |
| Converter.LabelledNet | contrib/gmk_sym/convert_sym.c:1289-1455 | a labelled wire between the first two nodes of a net in full |
| Converter.BlocksBalanced | contrib/gmk_sym/convert_sym.c:1978-2014 | for every accepted record sequence blocks are balanced, not nested, directly after their owner's line, and none is open in the end |
| Converter.OutOfArrayIff | contrib/gmk_sym/convert_sym.c:1387-1488 | from any state, the run leaves the node arrays iff the records do not fit |
| Converter.RunStaysInArrays | contrib/gmk_sym/convert_sym.c:1387-1488 | from the start likewise, a condition on the records alone |
| Converter.NodeTooMany | contrib/gmk_sym/convert_sym.c:1400-1421 | a net of 1023 nodes stays inside, one of 1024 does not |
| Converter.WellFormedFits | contrib/gmk_sym/convert_sym.c:1376-1488 | well-formed nets stay inside |
| Converter.TwoNodes | contrib/gmk_sym/convert_sym.c:1426-1488 | wires between the nodes of a net are well-formed, to any other node they are not |
| Converter.NodeTable | contrib/gmk_sym/convert_sym.c:1376-1424 | node k of the current net stands at index k |
| Converter.ConnectionsPreserved | contrib/gmk_sym/convert_sym.c:1376-1488 | the segments printed are, in order, those the records ask for, between scaled nodes of their own net |
| PageLayout.ApplyMultiply | cli/export.c:446-471 | the product of matrices does what the two do one after the other |
| PageLayout.LayoutPlaces | cli/export.c:446-471 | the composed matrix scales, turns the y axis and places each point, and turns a landscape PostScript page |
| PageLayout.LargestFit | cli/export.c:439-444 | the scale is the largest that fits both directions, one being filled |
| PageLayout.OnPage | cli/export.c:382-471 | every point of the drawing lands between the margins |
| PageLayout.OnSurface | cli/export.c:583-592 | on PostScript it lands on the surface with width and height exchanged, between the margins turned likewise |
| PageLayout.PageTouchesMargins | cli/export.c:433-471 | in one direction at least the drawing reaches from margin to margin |
| PageLayout.AutoFitsBest | cli/export.c:393-418 | on upright paper with even margins the automatic orientation gives at least the scale of any other choice |
| PageLayout.MarginsChosen | cli/export.c:350-375 | margins asked for, else those of the paper, else 18 points |
| PageLayout.SizeChosen | cli/export.c:383-418 | the size asked for, else the paper as the drawing lies, else what the drawing takes up between the margins |
| PageLayout.AlignmentShares | cli/export.c:443-465 | the room left over is shared out beside and above the drawing as the alignment says |
| PageLayout.RequestedScale | cli/export.c:420-444 | a page sized from the drawing shows it at the requested scale without slack |

## Left out

- Drawing, windows, cursors, timers, fonts and child widgets of the sheet: library calls.
- Cell attributes, links and justification, and the `left_text_column` and `right_text_column` fields: they hold no text.
- Sharing of row buffers: buffers are values, so that two rows never point to the same one is part of the model, not a result.
- Sheet.Sheet.SetCell: the column is not widened to the text; that is switched on for sheets made by `gtk_sheet_construct_browser` only, and the program makes none.
- Sheet.Sheet.DeleteRow: with a row allocated beyond the sheet it leaves a null buffer inside the corner; what a later write to that row does is not followed further.
- The pixel-driven choice between clicking, moving and resizing (`POSSIBLE_DRAG`, `POSSIBLE_RESIZE`): the events say which it is.
- Handlers that veto or redirect a click, and single selection mode: the program connects none and never sets it.
- Selection.SheetSelection.DeleteLines: the number of lines is taken as already cut off at the end of the sheet.
- StringList.StringList.GetDataAtIndex: one past the end the code follows a null pointer, so the model requires callers not to ask for it.
- Fields of the string breakup function beyond the first: gattrib only asks for names.
- AttribTable.AttributesOf: a component with a designator carries at least the attribute that gives it, so its list of texts is required not to be empty.
- SheetTable.LoadAndSave: for designs with at least one attribute column; without one the program ends with an error message.
- AttribEdits.AddAttrib: while the list has items; after the last column is deleted the list pointer is null and the program cannot add another.
- AttribEdits.Session: column names are required to hold no `=`; the entry dialog does not check it.
- SavedTexts.WrittenBack: for components whose texts have different names, and pairs that split back into their columns and values; `FromSheetIff` says which rows give such pairs.
- SavedTexts.ExactlyThePairs: where a pair is among the component's own texts, is not found and does not find its row either, being left makes up for it; that case is in `EndsIff`.
- SavedTexts.SteadyIff: for components with a refdes; for one with a uref only, the condition is that of `SteadyTakes`.
- WriteBack.Attached.Update: where the code follows a null pointer the result says so and nothing more is promised; the list of designators, loaded with the component's own, is required to have items.
- Visibility and show-name-value fields of the table, and colours of cells.
- Circular and singly linked modes of `listsort`: every caller passes 0 and 1.
- Net and pin tables: the net lists are stubs and the pin path repeats the component path.
- Converter.Converter.DoAttachedAttribute: positions, sizes, colours, angles and the attribute name translation table are not modelled; an attribute or text object counts as one line with its text.
- Parsing of record fields, orientation of instances and arc fitting in the converter: formatted input, finite tables and trigonometry.
- Converter.ConnectionsPreserved: for nets of at most 1023 nodes; beyond that the run ends or leaves the arrays.
- PageLayout.LayoutPlaces: exact arithmetic, the quarter turn taken as exact; rounding of `double` is not modelled. The margins are in the order the options document, top, left, bottom, right; the comment on the settings field names another.
- Overflow of C integers, failing allocations and failing output.
