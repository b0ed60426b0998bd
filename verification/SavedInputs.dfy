/**
 Components that do not end with the pairs saved for them: a lost row, and texts that nothing finds.
 */
module SavedInputs {
  import opened Wrappers
  import opened StringList
  import opened AttribTable
  import opened WriteBack
  import opened SavedTexts

  lemma MergedTwo(e: Saving, texts: seq<string>)
    requires |e.pairs| == 2
    ensures MergeAll(e, texts, e.pairs) ==
      if Turn(e, texts, e.pairs[0]).None? then None else Turn(e, Turn(e, texts, e.pairs[0]).value, e.pairs[1])
  {
    hide Turn;
    var first := e.pairs[..1];
    assert first[..0] == [] && first[0] == e.pairs[0];
    assert MergeAll(e, texts, first) == Turn(e, texts, e.pairs[0]);
  }

  /** What the search finds in three texts. */
  lemma SearchThree(a: string, b: string, c: string, n: string)
    ensures SearchValue([a, b, c], n) ==
      if IsAttribute(a) && LibName(a) == n then Some(a[|n| + 1..])
      else if IsAttribute(b) && LibName(b) == n then Some(b[|n| + 1..]) else SearchValue([c], n)
    ensures SearchValue([c], n) == if IsAttribute(c) && LibName(c) == n then Some(c[|n| + 1..]) else None
  {
    assert [a, b, c][1..] == [b, c] && [b, c][1..] == [c];
  }

  lemma SearchTwo(a: string, b: string, n: string)
    ensures SearchValue([a, b], n) == if IsAttribute(a) && LibName(a) == n then Some(a[|n| + 1..]) else SearchValue([b], n)
    ensures SearchValue([b], n) == if IsAttribute(b) && LibName(b) == n then Some(b[|n| + 1..]) else None
  {
    assert [a, b][1..] == [b];
  }

  /** Some texts, and what is read in them. */
  lemma Texts()
    ensures IsAttribute("refdes=U1") && NameOf("refdes=U1") == LibName("refdes=U1") == "refdes" && "refdes=U1"[7..] == "U1"
    ensures IsAttribute("part=X") && NameOf("part=X") == LibName("part=X") == "part" && ValueOf("part=X") == Some("X")
    ensures IsAttribute("numslots=4") && NameOf("numslots=4") == LibName("numslots=4") == "numslots" && ValueOf("numslots=4") == Some("4")
    ensures Pair("part", "X") == "part=X" && Pair("numslots", "4") == "numslots=4"
  {
    hide IsAttribute, Found, NameOf, LibName, ValueOf;
    PairFacts("refdes", "U1");
    PairFacts("part", "X");
    PairFacts("numslots", "4");
    assert Pair("refdes", "U1") == "refdes=U1" && Pair("part", "X") == "part=X" && Pair("numslots", "4") == "numslots=4";
  }

  /** A first numslots makes the designator "U1.", which has no row: the pair after it is lost. */
  lemma FirstNumslots()
    ensures var texts, pairs := ["refdes=U1", "part=X"], ["numslots=4", "part=X"];
      MergeAll(Saving([], ["U1"], ["numslots", "part"], pairs), texts, Complete(texts, pairs)) ==
      Some(["refdes=U1", "numslots=4"])
  {
    hide NameOf, LibName, ValueOf, IsAttribute, Found, Turn, MergeAll, Complete, OldTexts;
    Texts();
    var texts, pairs := ["refdes=U1", "part=X"], ["numslots=4", "part=X"];
    var e := Saving([], ["U1"], ["numslots", "part"], pairs);
    NoOldTexts(texts, pairs) by { assert NameOf(pairs[1]) == "part"; }
    MergedTwo(e, texts);
    TakesNumslots(e);
    LosesPart(e);
  }

  lemma TakesNumslots(e: Saving)
    requires e == Saving([], ["U1"], ["numslots", "part"], ["numslots=4", "part=X"])
    ensures Turn(e, ["refdes=U1", "part=X"], "numslots=4") == Some(["refdes=U1", "part=X", "numslots=4"])
  {
    hide NameOf, LibName, Found, IsAttribute, ValueOf, SearchValue, RemoveFirst, ReplaceFirst, Pair;
    Texts();
    var texts := ["refdes=U1", "part=X"];
    assert texts + [] == texts;
    SearchTwo(texts[0], texts[1], "refdes");
    SearchTwo(texts[0], texts[1], "numslots");
    assert Designator(texts, []) == Some("U1");
    assert NewValue(e, "U1", "numslots=4") == Some("4");
    assert texts + ["numslots=4"] == ["refdes=U1", "part=X", "numslots=4"];
  }

  lemma LosesPart(e: Saving)
    requires e == Saving([], ["U1"], ["numslots", "part"], ["numslots=4", "part=X"])
    ensures Turn(e, ["refdes=U1", "part=X", "numslots=4"], "part=X") == Some(["refdes=U1", "numslots=4"])
  {
    hide NameOf, LibName, Found, IsAttribute, ValueOf, SearchValue, RemoveFirst, ReplaceFirst, Pair;
    Texts();
    var texts := ["refdes=U1", "part=X", "numslots=4"];
    assert texts + [] == texts;
    SearchThree(texts[0], texts[1], texts[2], "refdes");
    SearchThree(texts[0], texts[1], texts[2], "numslots");
    SearchThree(texts[0], texts[1], texts[2], "slot");
    SearchThree(texts[0], texts[1], texts[2], "part");
    assert Designator(texts, []) == Some("U1.") by { assert "U1" + "." + "" == "U1."; }
    assert NewValue(e, "U1.", "part=X") == None;
    FirstAt(texts, "part", 1, "");
    assert texts[..1] + texts[2..] == ["refdes=U1", "numslots=4"];
  }

  /** A text that is not found stays beside the pair made from it. */
  lemma Twin(name: string, value: string, text: string)
    requires NameOf(text) == name && ValueOf(text) == Some(value) && !Found(text) && !Excluded(name)
    ensures var e := Saving(["refdes=U1"], ["U1"], [name], [Pair(name, value)]);
      && MergeAll(e, [text], Complete([text], e.pairs)) == Some([text, Pair(name, value)])
      && FromSheet(e.pairs, e.cols) && Steady(e, [text])
  {
    hide NameOf, LibName, Found, IsAttribute, ValueOf, SearchValue, Designator, Pair, DesignatorAfter, Complete, OldTexts, Excluded;
    var p, e := Pair(name, value), Saving(["refdes=U1"], ["U1"], [name], [Pair(name, value)]);
    NameOfPair(name, value);
    NoOldTexts([text], e.pairs) by { assert NameOf(e.pairs[0]) == name; }
    TwinSearched(text);
    FoundHasName([text], name);
    assert NewValue(e, "U1", p) == Some(value);
    assert [text] + [p] == [text, p];
    assert Turn(e, [text], p) == Some([text, p]);
    NothingMerged(e, [text]);
    DesignatorStands(e, [text], [], [text], []);
    SameAfter(e, [text], [], []);
    assert e.pairs[..0] == [];
  }

  /** A text that is not found does not matter to the designator. */
  lemma TwinSearched(text: string)
    requires !Found(text)
    ensures Designator([text], ["refdes=U1"]) == Some("U1")
  {
    hide NameOf, LibName, Found, IsAttribute, SearchValue;
    Texts();
    NotSearched(text, "refdes=U1", "refdes");
    NotSearched(text, "refdes=U1", "numslots");
  }

  lemma NotSearched(text: string, other: string, n: string)
    requires !Found(text) && n != "" && n[0] != ' '
    ensures SearchValue([text] + [other], n) == SearchValue([other], n)
    ensures SearchValue([other], n) == if IsAttribute(other) && LibName(other) == n then Some(other[|n| + 1..]) else None
  {
    FoundHasName([text], n);
    SearchConcat([text], [other], n);
  }

  /** A space before the equals sign: the name that is found differs, and the pair is not found either. */
  lemma SpaceBeforeEquals()
    ensures var e := Saving(["refdes=U1"], ["U1"], ["a "], ["a =v"]);
      && MergeAll(e, ["a =v"], Complete(["a =v"], e.pairs)) == Some(["a =v", "a =v"])
      && FromSheet(e.pairs, e.cols) && Steady(e, ["a =v"])
  {
    NameOfPair("a ", "v");
    assert Pair("a ", "v") == "a =v" && IndexOf("a =v", '=') == 2;
    Twin("a ", "v", "a =v");
  }

  /** A leading space belongs to liblepton's name of an attribute, but not to gattrib's. */
  lemma LeadingSpace()
    ensures var e := Saving(["refdes=U1"], ["U1"], ["part"], ["part=X"]);
      && MergeAll(e, [" part=X"], Complete([" part=X"], e.pairs)) == Some([" part=X", "part=X"])
      && FromSheet(e.pairs, e.cols) && Steady(e, [" part=X"]) && IsAttribute(" part=X")
  {
    hide IsAttribute, Found, NameOf, ValueOf, Pair, MergeAll, Complete, FromSheet, Steady;
    SpacedText();
    assert Pair("part", "X") == "part=X" by { Texts(); }
    Twin("part", "X", " part=X");
  }

  lemma SpacedText()
    ensures IsAttribute(" part=X") && !Found(" part=X") && NameOf(" part=X") == "part" && ValueOf(" part=X") == Some("X")
  {
    var text := " part=X";
    FirstEquals(text, 5);
    FirstEquals("part=X", 4);
    assert SkipSpaces(text) == "part=X" by { assert text[1..] == "part=X"; }
    assert "part=X"[..4] == "part" && text[6..] == "X";
  }

  lemma FirstEquals(text: string, k: nat)
    requires k < |text| && text[k] == '=' && forall i | 0 <= i < k :: text[i] != '='
    ensures IndexOf(text, '=') == k
  {
    assert forall m | k < m <= |text| :: text[..m][k] == '=';
    var m := IndexOf(text, '=');
    assert m <= k;
  }

  /** A space after the equals sign is skipped by gattrib, and makes the text no attribute to liblepton. */
  lemma SpaceAfterEquals()
    ensures var e := Saving(["refdes=U1"], ["U1"], ["a"], ["a=b"]);
      && MergeAll(e, ["a= b"], Complete(["a= b"], e.pairs)) == Some(["a= b", "a=b"])
      && FromSheet(e.pairs, e.cols) && Steady(e, ["a= b"]) && !IsAttribute("a= b")
  {
    var text := "a= b";
    FirstEquals(text, 1);
    assert text[2..] == " b" && " b"[1..] == "b" && text[..1] == "a" && Pair("a", "b") == "a=b";
    Twin("a", "b", text);
  }
}
