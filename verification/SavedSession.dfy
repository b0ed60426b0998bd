/**
 From the edits of a session to the texts of a component: what was entered is collected from the sheet
 (AttribEdits) and merged with what the component carries (SavedTexts).
 */
module SavedSession {
  import opened Wrappers
  import opened StringList
  import opened AttribTable
  import opened AttribEdits
  import opened WriteBack
  import opened SavedTexts
  import L = SheetLines
  import S = Sheet

  /** The text is the pair of a column and its value in row `r`. */
  ghost predicate Entered(ws: seq<Write>, r: string, cols: seq<string>, x: string) {
    exists j :: 0 <= j < |cols| && EnteredAt(ws, r, cols[j], x)
  }

  predicate EnteredAt(ws: seq<Write>, r: string, c: string, x: string) {
    ValueIn(ws, r, c).Some? && x == Pair(c, ValueIn(ws, r, c).value)
  }

  /** A column that can be saved, and a value that reading it back gives again. */
  predicate Savable(c: string, v: string) {
    !Excluded(c) && (c != "" ==> c[0] != ' ') && v != "" && v[0] != ' '
  }

  /** So it is for the values of row `r`. */
  ghost predicate RowSavable(ws: seq<Write>, r: string, cols: seq<string>) {
    forall j | 0 <= j < |cols| :: ValueIn(ws, r, cols[j]).Some? ==> Savable(cols[j], ValueIn(ws, r, cols[j]).value)
  }

  lemma {:induction false} PairsEntered(ws: seq<Write>, r: string, cols: seq<string>, n: nat)
    requires n <= |cols|
    ensures forall x :: x in RowPairs(ws, r, cols, n) <==> exists j :: 0 <= j < n && EnteredAt(ws, r, cols[j], x)
  {
    hide LastWrite, Pair;
    if n > 0 { PairsEntered(ws, r, cols, n - 1); }
  }

  /** A pair is split into its column and value again iff they can be saved. */
  lemma SplitsAgain(c: string, v: string)
    requires '=' !in c
    ensures var p := Pair(c, v);
      Savable(c, v) <==> ValueOf(p).Some? && Pair(NameOf(p), ValueOf(p).value) == p && !Excluded(NameOf(p))
    ensures Savable(c, v) ==> NameOf(Pair(c, v)) == c
  {
    var p := Pair(c, v);
    if c != "" && c[0] == ' ' {
      assert p[0] == ' ';
      if ValueOf(p).Some? {
        var q := Pair(NameOf(p), ValueOf(p).value);
        assert q[0] != ' ';
      }
    } else {
      NameOfPair(c, v);
      if ValueOf(p).Some? && Pair(c, ValueOf(p).value) == p { PairsDiffer(c, v, c, ValueOf(p).value); }
    }
  }

  lemma {:induction false} PairsNamed(ws: seq<Write>, r: string, cols: seq<string>, n: nat)
    requires n <= |cols| && NoRepeats(cols) && Plain(cols) && RowSavable(ws, r, cols)
    ensures UniqueNames(RowPairs(ws, r, cols, n))
    ensures forall x | x in RowPairs(ws, r, cols, n) :: exists j :: 0 <= j < n && NameOf(x) == cols[j]
  {
    hide NameOf, ValueOf, LastWrite, Pair, Excluded;
    if n > 0 {
      var before, c := RowPairs(ws, r, cols, n - 1), cols[n - 1];
      PairsNamed(ws, r, cols, n - 1);
      if ValueIn(ws, r, c).Some? {
        SplitsAgain(c, ValueIn(ws, r, c).value);
        forall i | 0 <= i < |before| ensures NameOf(before[i]) != c {
          assert before[i] in before;
        }
      }
    }
  }

  /** The pairs of a row are such as the write-back expects iff each of its values can be saved. */
  lemma FromSheetIff(ws: seq<Write>, r: string, cols: seq<string>)
    requires NoRepeats(cols) && Plain(cols)
    ensures FromSheet(RowPairs(ws, r, cols, |cols|), cols) <==> RowSavable(ws, r, cols)
  {
    hide NameOf, ValueOf, ValueIn, Pair, Excluded, Savable, RowPairs, UniqueNames;
    var pairs := RowPairs(ws, r, cols, |cols|);
    PairsEntered(ws, r, cols, |cols|);
    forall j | 0 <= j < |cols| && ValueIn(ws, r, cols[j]).Some?
      ensures var p := Pair(cols[j], ValueIn(ws, r, cols[j]).value);
        && p in pairs
        && (Savable(cols[j], ValueIn(ws, r, cols[j]).value) <==>
            ValueOf(p).Some? && Pair(NameOf(p), ValueOf(p).value) == p && !Excluded(NameOf(p)))
        && (Savable(cols[j], ValueIn(ws, r, cols[j]).value) ==> NameOf(p) == cols[j])
    {
      SplitsAgain(cols[j], ValueIn(ws, r, cols[j]).value);
      assert EnteredAt(ws, r, cols[j], Pair(cols[j], ValueIn(ws, r, cols[j]).value));
    }
    if RowSavable(ws, r, cols) { PairsNamed(ws, r, cols, |cols|); }
  }

  /** The component carries what was entered for it, each attribute once, and its fixed texts as they were. */
  ghost predicate CarriesEntered(ws: seq<Write>, r: string, cols: seq<string>, was: seq<string>, texts: seq<string>) {
    && Fixed(texts) == Fixed(was)
    && forall x {:trigger multiset(texts)[x]} | !Excluded(NameOf(x)) :: multiset(texts)[x] == One(Entered(ws, r, cols, x))
  }

  /** What the sheet saves for row `r`. */
  function SavingOf(inherited: seq<string>, rows: seq<string>, d: Design, r: string): Saving {
    Saving(inherited, rows, d.cols, RowPairs(d.ws, r, d.cols, |d.cols|))
  }

  lemma EndsWithEntered(inherited: seq<string>, rows: seq<string>, d: Design, r: string, texts: seq<string>)
    requires NoRepeats(d.cols) && Plain(d.cols) && RowSavable(d.ws, r, d.cols)
    ensures var e := SavingOf(inherited, rows, d, r);
      EndsWithPairs(e, texts) <==>
      var after := MergeAll(e, texts, Complete(texts, e.pairs));
      after.Some? && CarriesEntered(d.ws, r, d.cols, texts, after.value)
  {
    hide NameOf, ValueIn, Pair, Excluded, MergeAll, Complete, RowPairs, Fixed, Plain, RowSavable;
    var e := SavingOf(inherited, rows, d, r);
    PairsEntered(d.ws, r, d.cols, |d.cols|);
    PairsNamed(d.ws, r, d.cols, |d.cols|);
    forall x ensures multiset(e.pairs)[x] == One(Entered(d.ws, r, d.cols, x)) {
      CountedOnce(e.pairs, x);
    }
  }

  /**
   A session, saving, and writing a component back: it carries exactly what was last entered for it under
   each column left, iff the merge is steady and each of its own texts is found.
   */
  method SessionWriteBack(s: S.Sheet, comps: StringList, attribs: StringList, table: array2<Entry>, es: seq<Edit>, stray: bool,
                          asked: string -> L.Size, least: nat, r: string, o: Attached, ghost ws: seq<Write>)
    returns (ok: bool)
    requires s.Stored() && comps.Valid() && attribs.Valid() && comps != attribs && DisjointNodes(comps.nodes, attribs.nodes)
    requires Agrees(s, comps.items, Design(attribs.items, ws)) && Sound(stray, Design(attribs.items, ws))
    requires table.Length0 == |comps.items| && table.Length1 == |attribs.items| && comps.items != []
    requires attribs.items != [] || attribs.head == null
    requires forall k | 0 <= k < |es| ::
      Permitted(stray, EditedAll(stray, comps.items, Design(attribs.items, ws), es[..k]), es[k])
    requires Plain(EditedAll(stray, comps.items, Design(attribs.items, ws), es).cols)
    requires r in comps.items && UniqueNames(o.texts) && Designator(o.texts, o.inherited) == Some(r)
    modifies s, attribs, attribs.nodes, table, o
    ensures var d, was := old(EditedAll(stray, comps.items, Design(attribs.items, ws), es)), old(o.texts);
      var e := SavingOf(o.inherited, comps.items, d, r);
      && (ok <==> MergeAll(e, was, Complete(was, e.pairs)).Some?)
      && (RowSavable(d.ws, r, d.cols) && (Steady(e, was) || forall x | x in was && x in e.pairs :: Found(x)) ==>
          (ok && CarriesEntered(d.ws, r, d.cols, was, o.texts) <==> Steady(e, was) && AllFound(was)))
  {
    hide Agrees, Sound, Edited, Permitted, StringList.Valid, S.Sheet.Stored, NoRepeats, Plain, RowPairs, UniqueNames, Designator,
      MergeAll, Complete, Steady, AllFound, Found, CarriesEntered, RowSavable, FromSheet, EndsWithPairs;
    ghost var d, was := EditedAll(stray, comps.items, Design(attribs.items, ws), es), o.texts;
    ghost var e := SavingOf(o.inherited, comps.items, d, r);
    var pairs := Session(s, comps, attribs, table, es, stray, asked, least, r, ws);
    if RowSavable(d.ws, r, d.cols) {
      FromSheetIff(d.ws, r, d.cols);
      EndsWithEntered(o.inherited, comps.items, d, r, was);
      if Steady(e, was) || forall x | x in was && x in e.pairs :: Found(x) {
        ExactlyThePairs(e, was);
      }
    }
    ok := o.Update(pairs, comps, attribs);
  }
}
