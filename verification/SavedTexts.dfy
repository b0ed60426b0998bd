/**
 What a component carries once its saved pairs were merged with its texts. The designator is read
 again for every name, so the pairs themselves decide whether the component still has its row.
 */
module SavedTexts {
  import opened Wrappers
  import opened MergeSort
  import opened StringList
  import opened AttribTable
  import opened WriteBack
  import SheetTable

  // ---- the parts of a component's texts ----

  /** What s_table_create_attrib_pair makes: one name=value pair for a column, none of them excluded. */
  ghost predicate FromSheet(pairs: seq<string>, cols: seq<string>) {
    && UniqueNames(pairs)
    && forall p | p in pairs ::
         && !Excluded(NameOf(p)) && NameOf(p) in cols
         && ValueOf(p).Some? && Pair(NameOf(p), ValueOf(p).value) == p
  }

  /** The texts no edit may touch: refdes, net and slot. */
  function Fixed(texts: seq<string>): seq<string> {
    if texts == [] then []
    else Fixed(texts[..|texts| - 1]) + if Excluded(NameOf(texts[|texts| - 1])) then [texts[|texts| - 1]] else []
  }

  lemma {:induction false} FixedConcat(a: seq<string>, b: seq<string>)
    ensures Fixed(a + b) == Fixed(a) + Fixed(b)
  {
    if b == [] {
      assert a + b == a;
    } else {
      assert (a + b)[..|a + b| - 1] == a + b[..|b| - 1];
      FixedConcat(a, b[..|b| - 1]);
    }
  }

  lemma NotFixed(text: string)
    requires !Excluded(NameOf(text))
    ensures Fixed([text]) == []
  {
    assert [text][..0] == [];
  }

  ghost predicate OnceNamed(texts: seq<string>, name: string) {
    forall i, j | 0 <= i < j < |texts| && NameOf(texts[i]) == name :: NameOf(texts[j]) != name
  }

  function One(b: bool): nat {
    if b then 1 else 0
  }

  // ---- one turn of the loop ----

  /** What one turn does to texts among which the name occurs once at most. */
  lemma MergedTexts(texts: seq<string>, name: string, value: Option<string>)
    requires OnceNamed(texts, name) && !Excluded(name) && '=' !in name && (name != "" ==> name[0] != ' ')
    ensures var r := Merged(texts, name, value);
      && Fixed(r) == Fixed(texts)
      && (forall x {:trigger multiset(r)[x]} | NameOf(x) != name :: multiset(r)[x] == multiset(texts)[x])
      && (forall n | n != name && OnceNamed(texts, n) :: OnceNamed(r, n))
      && forall x {:trigger multiset(r)[x]} | NameOf(x) == name ::
           multiset(r)[x] ==
           (if Found(x) then 0 else multiset(texts)[x]) + One(value.Some? && x == Pair(name, value.value))
  {
    hide *;
    FoundHasName(texts, name);
    if SearchValue(texts, name).Some? {
      FoundMerged(texts, name, value);
    } else {
      NotFoundMerged(texts, name, value);
    }
  }

  /** Its text gives way, or goes. */
  lemma FoundMerged(texts: seq<string>, name: string, value: Option<string>)
    requires OnceNamed(texts, name) && !Excluded(name) && '=' !in name && (name != "" ==> name[0] != ' ')
    requires SearchValue(texts, name).Some?
    ensures var r := Merged(texts, name, value);
      && Fixed(r) == Fixed(texts)
      && (forall x {:trigger multiset(r)[x]} | NameOf(x) != name :: multiset(r)[x] == multiset(texts)[x])
      && (forall n | n != name && OnceNamed(texts, n) :: OnceNamed(r, n))
      && forall x {:trigger multiset(r)[x]} | NameOf(x) == name ::
           multiset(r)[x] ==
           (if Found(x) then 0 else multiset(texts)[x]) + One(value.Some? && x == Pair(name, value.value))
  {
    hide NameOf, Excluded, IsAttribute, Found, Fixed, Pair, SearchValue, ReplaceFirst, RemoveFirst, OnceNamed, HasName;
    FoundHasName(texts, name);
    var k :| 0 <= k < |texts| && NameOf(texts[k]) == name && Found(texts[k]);
    OnceFirst(texts, name, k);
    var fill := if value.Some? then [Pair(name, value.value)] else [];
    if value.Some? { NameOfPair(name, value.value); }
    FirstAt(texts, name, k, if value.Some? then Pair(name, value.value) else "");
    OneReplaced(texts, k, fill);
    assert Merged(texts, name, value) == texts[..k] + fill + texts[k + 1..];
  }

  lemma OnceFirst(texts: seq<string>, name: string, k: nat)
    requires OnceNamed(texts, name) && k < |texts| && NameOf(texts[k]) == name
    ensures forall i | 0 <= i < k :: NameOf(texts[i]) != name
  {
    hide NameOf;
  }

  /** A text is added, or nothing done. */
  lemma NotFoundMerged(texts: seq<string>, name: string, value: Option<string>)
    requires !Excluded(name) && '=' !in name && (name != "" ==> name[0] != ' ')
    requires SearchValue(texts, name).None?
    ensures var r := Merged(texts, name, value);
      && Fixed(r) == Fixed(texts)
      && (forall x {:trigger multiset(r)[x]} | NameOf(x) != name :: multiset(r)[x] == multiset(texts)[x])
      && (forall n | n != name && OnceNamed(texts, n) :: OnceNamed(r, n))
      && forall x {:trigger multiset(r)[x]} | NameOf(x) == name ::
           multiset(r)[x] ==
           (if Found(x) then 0 else multiset(texts)[x]) + One(value.Some? && x == Pair(name, value.value))
  {
    hide NameOf, Excluded, IsAttribute, Found, Fixed, Pair, SearchValue, ReplaceFirst, RemoveFirst, OnceNamed, HasName;
    FoundHasName(texts, name);
    forall x | NameOf(x) == name && Found(x) ensures x !in texts {
      assert forall k | 0 <= k < |texts| :: texts[k] != x;
    }
    if value.Some? {
      NameOfPair(name, value.value);
      OneAdded(texts, Pair(name, value.value));
    }
  }

  /** The text at `k` gives way to another of the same name, or to none. */
  lemma OneReplaced(texts: seq<string>, k: nat, fill: seq<string>)
    requires k < |texts| && OnceNamed(texts, NameOf(texts[k])) && !Excluded(NameOf(texts[k])) && |fill| <= 1
    requires |fill| == 1 ==> NameOf(fill[0]) == NameOf(texts[k])
    ensures var name, r := NameOf(texts[k]), texts[..k] + fill + texts[k + 1..];
      && (|fill| == 1 ==> r == texts[k := fill[0]])
      && (|fill| == 0 ==> r == texts[..k] + texts[k + 1..])
      && Fixed(r) == Fixed(texts)
      && (forall x | NameOf(x) != name :: multiset(r)[x] == multiset(texts)[x])
      && (forall x | NameOf(x) == name :: multiset(r)[x] == One(|fill| == 1 && x == fill[0]))
      && (forall x | NameOf(x) == name :: multiset(texts)[x] == One(x == texts[k]))
      && (forall n | n != name && OnceNamed(texts, n) :: OnceNamed(r, n))
  {
    hide NameOf, Excluded, OnceNamed, Fixed;
    ReplacedFixed(texts, k, fill);
    forall x ensures var r := texts[..k] + fill + texts[k + 1..];
      if NameOf(x) != NameOf(texts[k]) then multiset(r)[x] == multiset(texts)[x]
      else multiset(r)[x] == One(|fill| == 1 && x == fill[0]) && multiset(texts)[x] == One(x == texts[k])
    {
      ReplacedTexts(texts, k, fill, x);
    }
    forall n | n != NameOf(texts[k]) && OnceNamed(texts, n)
      ensures OnceNamed(texts[..k] + fill + texts[k + 1..], n)
    {
      ReplacedOnce(texts, k, fill, n);
    }
  }

  lemma ReplacedFixed(texts: seq<string>, k: nat, fill: seq<string>)
    requires k < |texts| && !Excluded(NameOf(texts[k])) && |fill| <= 1
    requires |fill| == 1 ==> NameOf(fill[0]) == NameOf(texts[k])
    ensures Fixed(texts[..k] + fill + texts[k + 1..]) == Fixed(texts)
  {
    var a, b := texts[..k], texts[k + 1..];
    assert texts == a + [texts[k]] + b;
    FixedConcat(a + fill, b);
    FixedConcat(a, fill);
    FixedConcat(a + [texts[k]], b);
    FixedConcat(a, [texts[k]]);
    NotFixed(texts[k]);
    if |fill| == 1 {
      NotFixed(fill[0]);
      assert fill == [fill[0]];
    }
  }

  lemma ReplacedTexts(texts: seq<string>, k: nat, fill: seq<string>, x: string)
    requires k < |texts| && OnceNamed(texts, NameOf(texts[k])) && |fill| <= 1
    requires |fill| == 1 ==> NameOf(fill[0]) == NameOf(texts[k])
    ensures var r := texts[..k] + fill + texts[k + 1..];
      if NameOf(x) != NameOf(texts[k]) then multiset(r)[x] == multiset(texts)[x]
      else multiset(r)[x] == One(|fill| == 1 && x == fill[0]) && multiset(texts)[x] == One(x == texts[k])
  {
    hide NameOf, OnceNamed;
    var a, b := texts[..k], texts[k + 1..];
    if NameOf(x) == NameOf(texts[k]) { OnlyThere(texts, k, x); }
    assert |fill| == 1 ==> fill == [fill[0]];
    assert texts == a + [texts[k]] + b;
    CountSum(a, [texts[k]], b, x);
    CountSum(a, fill, b, x);
  }

  lemma OnlyThere(texts: seq<string>, k: nat, x: string)
    requires k < |texts| && OnceNamed(texts, NameOf(texts[k])) && NameOf(x) == NameOf(texts[k])
    ensures x !in texts[..k] && x !in texts[k + 1..]
  {
    hide NameOf;
    var b := texts[k + 1..];
    assert forall i | 0 <= i < |b| :: b[i] == texts[k + 1 + i];
  }

  lemma CountSum(a: seq<string>, m: seq<string>, b: seq<string>, x: string)
    ensures multiset(a + m + b)[x] == multiset(a)[x] + multiset(m)[x] + multiset(b)[x]
  {
  }

  lemma ReplacedOnce(texts: seq<string>, k: nat, fill: seq<string>, n: string)
    requires k < |texts| && OnceNamed(texts, n) && |fill| <= 1 && n != NameOf(texts[k])
    requires |fill| == 1 ==> NameOf(fill[0]) == NameOf(texts[k])
    ensures OnceNamed(texts[..k] + fill + texts[k + 1..], n)
  {
    hide NameOf;
    var r := texts[..k] + fill + texts[k + 1..];
    forall i | 0 <= i < |r| ensures (i < k ==> r[i] == texts[i]) && (i >= k + |fill| ==> r[i] == texts[i - |fill| + 1]) {
    }
  }

  lemma OneAdded(texts: seq<string>, text: string)
    requires !Excluded(NameOf(text))
    ensures Fixed(texts + [text]) == Fixed(texts)
    ensures forall n | n != NameOf(text) && OnceNamed(texts, n) :: OnceNamed(texts + [text], n)
  {
    FixedConcat(texts, [text]);
    NotFixed(text);
  }

  // ---- the complete list ----

  lemma HasNameLater(items: seq<string>, c: string, n: string)
    ensures HasName(items + [c], n) <==> HasName(items, n) || NameOf(c) == n
  {
    if HasName(items, n) {
      var k :| 0 <= k < |items| && NameOf(items[k]) == n;
      assert (items + [c])[k] == items[k];
    }
    assert (items + [c])[|items|] == c;
  }

  lemma InTextsNamed(texts: seq<string>, x: string)
    requires x in texts
    ensures HasName(texts, NameOf(x))
  {
    var k := Find(texts, x);
  }

  lemma {:induction false} OldTextsAre(texts: seq<string>, pairs: seq<string>)
    ensures forall c :: c in OldTexts(texts, pairs) <==> c in texts && !Excluded(NameOf(c)) && !HasName(pairs, NameOf(c))
  {
    hide NameOf, HasName, Excluded;
    if texts != [] {
      OldTextsAre(texts[..|texts| - 1], pairs);
      assert texts == texts[..|texts| - 1] + [texts[|texts| - 1]];
    }
  }

  lemma {:induction false} OldTextsUnique(texts: seq<string>, pairs: seq<string>)
    requires UniqueNames(texts)
    ensures UniqueNames(OldTexts(texts, pairs))
  {
    hide NameOf, HasName, Excluded;
    if texts != [] {
      var before := texts[..|texts| - 1];
      var olds := OldTexts(before, pairs);
      LastNamed(texts);
      OldTextsUnique(before, pairs);
      OldTextsAre(before, pairs);
      assert forall i | 0 <= i < |olds| :: olds[i] in olds;
    }
  }

  lemma LastNamed(texts: seq<string>)
    requires texts != [] && UniqueNames(texts)
    ensures UniqueNames(texts[..|texts| - 1])
    ensures forall x | x in texts[..|texts| - 1] :: NameOf(x) != NameOf(texts[|texts| - 1])
  {
    hide NameOf;
  }

  lemma {:induction false} AddAllNew(s: seq<string>, names: seq<string>)
    requires forall i, j | 0 <= i < j < |names| :: names[i] != names[j]
    requires forall x | x in names :: x !in s
    ensures AddAll(s, names) == s + names
  {
    if names != [] {
      var before, name := names[..|names| - 1], names[|names| - 1];
      AddAllNew(s, before);
      assert names == before + [name];
      AddOne(s, before, name);
      assert name !in before;
    } else {
      AddNone(s);
    }
  }

  /** The complete list is the pairs and then the texts with other names; no name occurs in it twice. */
  lemma CompleteIs(texts: seq<string>, pairs: seq<string>, cols: seq<string>)
    requires UniqueNames(texts) && FromSheet(pairs, cols)
    ensures Complete(texts, pairs) == pairs + OldTexts(texts, pairs) && UniqueNames(Complete(texts, pairs))
    ensures forall c | c in Complete(texts, pairs) :: !Excluded(NameOf(c)) && (c in pairs || !HasName(pairs, NameOf(c)))
    ensures forall x | !Excluded(NameOf(x)) && (x in pairs || x in texts) :: HasName(Complete(texts, pairs), NameOf(x))
  {
    hide NameOf, Excluded, ValueOf, HasName;
    var olds := OldTexts(texts, pairs);
    OldTextsAre(texts, pairs);
    OldTextsUnique(texts, pairs);
    forall x | x in pairs ensures HasName(pairs, NameOf(x)) {
      InTextsNamed(pairs, x);
    }
    AddAllNew(pairs, olds);
    forall i, j | 0 <= i < |pairs| && 0 <= j < |olds| ensures NameOf(pairs[i]) != NameOf(olds[j]) {
      assert pairs[i] in pairs && olds[j] in olds;
    }
    forall x | !Excluded(NameOf(x)) && (x in pairs || x in texts) ensures HasName(pairs + olds, NameOf(x)) {
      NamedInSum(pairs, olds, NameOf(x));
      if x in olds { InTextsNamed(olds, x); }
    }
  }

  lemma NamedInSum(a: seq<string>, b: seq<string>, n: string)
    ensures HasName(a + b, n) <==> HasName(a, n) || HasName(b, n)
  {
    hide NameOf;
    assert forall k | 0 <= k < |a| :: (a + b)[k] == a[k];
    assert forall k | 0 <= k < |b| :: (a + b)[|a| + k] == b[k];
  }

  // ---- the designator on the way ----

  /** What is found for a name once the items were merged and `taken` of them attached. */
  function FoundAfter(texts: seq<string>, inherited: seq<string>, taken: seq<string>, items: seq<string>, n: string): Option<string> {
    var own := if HasName(items, n) then SearchValue(taken, n) else SearchValue(texts, n);
    if own.Some? then own else SearchValue(inherited, n)
  }

  /** The designator then. */
  function DesignatorAfter(texts: seq<string>, inherited: seq<string>, taken: seq<string>, items: seq<string>): Option<string> {
    Built(SearchValue(texts + inherited, "refdes"), FoundAfter(texts, inherited, taken, items, "uref"),
          FoundAfter(texts, inherited, taken, items, "numslots"), SearchValue(texts + inherited, "slot"))
  }

  /** The pairs among the items that find the component's row in the sheet. */
  function Taken(e: Saving, texts: seq<string>, items: seq<string>): Option<seq<string>> {
    if items == [] then Some([])
    else
      var before, c := items[..|items| - 1], items[|items| - 1];
      var taken := Taken(e, texts, before);
      if taken.None? then None
      else
        var refdes := DesignatorAfter(texts, e.inherited, taken.value, before);
        if refdes.None? then None
        else Some(taken.value + if c in e.pairs && refdes.value in e.rows then [c] else [])
  }

  lemma {:induction false} SearchConcat(a: seq<string>, b: seq<string>, n: string)
    ensures SearchValue(a + b, n) == if SearchValue(a, n).Some? then SearchValue(a, n) else SearchValue(b, n)
  {
    hide IsAttribute, LibName;
    if a == [] {
      assert a + b == b;
    } else {
      assert (a + b)[1..] == a[1..] + b;
      SearchConcat(a[1..], b, n);
    }
  }

  lemma {:induction false} SearchFixed(texts: seq<string>, n: string)
    requires Excluded(n)
    ensures SearchValue(Fixed(texts), n) == SearchValue(texts, n)
  {
    if texts != [] {
      var before, last := texts[..|texts| - 1], [texts[|texts| - 1]];
      assert texts == before + last;
      SearchFixed(before, n);
      SearchConcat(before, last, n);
      SearchConcat(Fixed(before), Fixed(last), n);
      FixedConcat(before, last);
      OneSearched(last[0], n);
    }
  }

  lemma OneSearched(text: string, n: string)
    requires Excluded(n)
    ensures SearchValue(Fixed([text]), n) == SearchValue([text], n)
  {
    FoundName(text);
    assert [text][..0] == [] && [text][1..] == [];
    if !Excluded(NameOf(text)) {
      assert LibName(text) == n && IsAttribute(text) ==> Found(text);
    }
  }

  /** Texts with the same attribute of a name are searched with the same outcome. */
  lemma SameSearch(a: seq<string>, b: seq<string>, n: string)
    requires n != "" ==> n[0] != ' '
    requires forall x | Found(x) && NameOf(x) == n :: x in a <==> x in b
    requires forall x, y | Found(x) && Found(y) && NameOf(x) == n == NameOf(y) && x in a && y in a :: x == y
    ensures SearchValue(a, n) == SearchValue(b, n)
  {
    hide Found, NameOf, SearchValue;
    FoundHasName(a, n);
    FoundHasName(b, n);
    forall t: string | Found(t) ensures |NameOf(t)| + 1 <= |t| {
      FoundLonger(t);
    }
    assert forall k | 0 <= k < |a| && NameOf(a[k]) == n && Found(a[k]) :: a[k] in a && a[k] in b;
    assert forall k | 0 <= k < |b| && NameOf(b[k]) == n && Found(b[k]) :: b[k] in b && b[k] in a;
  }

  // ---- where the loop stands ----

  /** How often a text that is not fixed stands there: once if taken, and once more if nothing finds it. */
  function Standing(was: seq<string>, taken: seq<string>, items: seq<string>, x: string): nat {
    if HasName(items, NameOf(x)) then One(x in taken) + One(x in was && !Found(x)) else One(x in was)
  }

  ghost predicate Stands(e: Saving, was: seq<string>, taken: seq<string>, texts: seq<string>, items: seq<string>) {
    && (forall x {:trigger multiset(texts)[x]} | !Excluded(NameOf(x)) ::
          multiset(texts)[x] == Standing(was, taken, items, x))
    && (forall x | x in taken :: x in e.pairs && HasName(items, NameOf(x)))
    && Tidy(was, texts, items)
  }

  /** Names not looked at yet occur once at most, and the fixed texts are as they were. */
  ghost predicate Tidy(was: seq<string>, texts: seq<string>, items: seq<string>) {
    && (forall n | !HasName(items, n) :: OnceNamed(texts, n))
    && Fixed(texts) == Fixed(was)
  }

  lemma TidyTurn(e: Saving, was: seq<string>, texts: seq<string>, items: seq<string>, c: string)
    requires Tidy(was, texts, items) && !Excluded(NameOf(c)) && !HasName(items, NameOf(c))
    ensures var r := Turn(e, texts, c);
      r.Some? ==>
        && Tidy(was, r.value, items + [c])
        && forall x | NameOf(x) != NameOf(c) :: multiset(r.value)[x] == multiset(texts)[x]
  {
    hide Merged, NameOf, Excluded, Fixed, Designator, NewValue;
    var r := Turn(e, texts, c);
    if r.Some? {
      MergedTexts(texts, NameOf(c), NewValue(e, Designator(texts, e.inherited).value, c));
      forall n ensures HasName(items + [c], n) <==> HasName(items, n) || n == NameOf(c) {
        HasNameLater(items, c, n);
      }
    }
  }

  lemma StandsTurn(e: Saving, was: seq<string>, taken: seq<string>, texts: seq<string>, items: seq<string>, c: string)
    requires Stands(e, was, taken, texts, items) && FromSheet(e.pairs, e.cols)
    requires !Excluded(NameOf(c)) && !HasName(items, NameOf(c)) && Designator(texts, e.inherited).Some?
    ensures var refdes := Designator(texts, e.inherited).value;
      && Turn(e, texts, c).Some?
      && Stands(e, was, taken + if c in e.pairs && refdes in e.rows then [c] else [], Turn(e, texts, c).value, items + [c])
  {
    hide Merged, NameOf, Excluded, Fixed, Designator, Found, ValueOf, Pair;
    var name, refdes := NameOf(c), Designator(texts, e.inherited).value;
    var value, r := NewValue(e, refdes, c), Turn(e, texts, c).value;
    TidyTurn(e, was, texts, items, c);
    MergedTexts(texts, name, value);
    forall n ensures HasName(items + [c], n) <==> HasName(items, n) || n == name {
      HasNameLater(items, c, n);
    }
    var after := taken + if c in e.pairs && refdes in e.rows then [c] else [];
    forall x | !Excluded(NameOf(x)) ensures multiset(r)[x] == Standing(was, after, items + [c], x) {
      assert multiset(texts)[x] == Standing(was, taken, items, x);
    }
  }

  lemma SameName(texts: seq<string>, x: string, y: string)
    requires UniqueNames(texts) && x in texts && y in texts && NameOf(x) == NameOf(y)
    ensures x == y
  {
    hide NameOf;
    var i := Find(texts, x);
    var j := Find(texts, y);
  }

  /** The designator that the loop reads is the one that can be told beforehand. */
  lemma DesignatorStands(e: Saving, was: seq<string>, taken: seq<string>, texts: seq<string>, items: seq<string>)
    requires Stands(e, was, taken, texts, items) && UniqueNames(e.pairs) && UniqueNames(was)
    ensures Designator(texts, e.inherited) == DesignatorAfter(was, e.inherited, taken, items)
  {
    hide Stands, SearchValue, Fixed, UniqueNames;
    FixedSearched(e, was, taken, texts, items);
    SearchConcat(texts, e.inherited, "refdes");
    SearchConcat(was, e.inherited, "refdes");
    SearchConcat(texts, e.inherited, "slot");
    SearchConcat(was, e.inherited, "slot");
    OpenSearched(e, was, taken, texts, items, "uref");
    OpenSearched(e, was, taken, texts, items, "numslots");
    SearchConcat(texts, e.inherited, "uref");
    SearchConcat(texts, e.inherited, "numslots");
  }

  lemma FixedSearched(e: Saving, was: seq<string>, taken: seq<string>, texts: seq<string>, items: seq<string>)
    requires Stands(e, was, taken, texts, items)
    ensures SearchValue(texts, "refdes") == SearchValue(was, "refdes") && SearchValue(texts, "slot") == SearchValue(was, "slot")
  {
    SearchFixed(texts, "refdes");
    SearchFixed(was, "refdes");
    SearchFixed(texts, "slot");
    SearchFixed(was, "slot");
  }

  lemma OpenSearched(e: Saving, was: seq<string>, taken: seq<string>, texts: seq<string>, items: seq<string>, n: string)
    requires Stands(e, was, taken, texts, items) && UniqueNames(e.pairs) && UniqueNames(was)
    requires n == "uref" || n == "numslots"
    ensures SearchValue(texts, n) == if HasName(items, n) then SearchValue(taken, n) else SearchValue(was, n)
  {
    hide NameOf, Found, SearchValue, Fixed;
    assert !Excluded(n) && n[0] != ' ';
    var from := if HasName(items, n) then taken else was;
    forall x | Found(x) && NameOf(x) == n ensures x in from <==> x in texts {
      assert multiset(texts)[x] == Standing(was, taken, items, x);
    }
    forall x, y | NameOf(x) == n == NameOf(y) && x in from && y in from ensures x == y {
      SameName(if HasName(items, n) then e.pairs else was, x, y);
    }
    SameSearch(from, texts, n);
  }

  // ---- the whole loop ----

  lemma {:induction false} RunStands(e: Saving, was: seq<string>, items: seq<string>)
    requires UniqueNames(was) && FromSheet(e.pairs, e.cols) && UniqueNames(items)
    requires forall c | c in items :: !Excluded(NameOf(c))
    ensures MergeAll(e, was, items).Some? <==> Taken(e, was, items).Some?
    ensures Taken(e, was, items).Some? ==>
      Stands(e, was, Taken(e, was, items).value, MergeAll(e, was, items).value, items)
  {
    hide FromSheet, NameOf, Excluded, DesignatorAfter, Designator, Merged, Stands;
    if items == [] {
      NothingMerged(e, was);
    } else {
      var before, c := items[..|items| - 1], items[|items| - 1];
      assert items == before + [c];
      RunStands(e, was, before);
      if Taken(e, was, before).Some? {
        var taken, texts := Taken(e, was, before).value, MergeAll(e, was, before).value;
        SheetNames(e.pairs, e.cols);
        DesignatorStands(e, was, taken, texts, before);
        LastIsNew(items);
        if Designator(texts, e.inherited).Some? {
          StandsTurn(e, was, taken, texts, before, c);
        }
      }
    }
  }

  lemma SheetNames(pairs: seq<string>, cols: seq<string>)
    requires FromSheet(pairs, cols)
    ensures UniqueNames(pairs)
  {
  }

  lemma NothingMerged(e: Saving, was: seq<string>)
    requires UniqueNames(was)
    ensures Stands(e, was, [], was, [])
  {
    hide NameOf;
    forall x ensures multiset(was)[x] == One(x in was) {
      CountedOnce(was, x);
    }
  }

  lemma {:induction false} CountedOnce(texts: seq<string>, x: string)
    requires UniqueNames(texts)
    ensures multiset(texts)[x] == One(x in texts)
  {
    hide NameOf;
    if texts != [] {
      var before, last := texts[..|texts| - 1], texts[|texts| - 1];
      assert texts == before + [last];
      CountedOnce(before, x);
      assert forall k | 0 <= k < |before| :: NameOf(texts[k]) != NameOf(last) && before[k] == texts[k];
    }
  }

  lemma LastIsNew(items: seq<string>)
    requires items != [] && UniqueNames(items)
    ensures !HasName(items[..|items| - 1], NameOf(items[|items| - 1]))
  {
    hide NameOf;
  }

  /**
   After the merge the component carries each pair that found its row, its fixed texts as they were, and
   each of its own texts that nothing finds.
   */
  lemma WrittenBack(e: Saving, texts: seq<string>)
    requires UniqueNames(texts) && FromSheet(e.pairs, e.cols)
    ensures var r, taken := MergeAll(e, texts, Complete(texts, e.pairs)), Taken(e, texts, Complete(texts, e.pairs));
      && r.Some? == taken.Some?
      && (r.Some? ==>
          && Fixed(r.value) == Fixed(texts) && (forall x | x in taken.value :: x in e.pairs)
          && forall x {:trigger multiset(r.value)[x]} | !Excluded(NameOf(x)) ::
               multiset(r.value)[x] == One(x in taken.value) + One(x in texts && !Found(x)))
  {
    hide NameOf, Excluded, Found, MergeAll, Fixed, Taken, FromSheet;
    var items := Complete(texts, e.pairs);
    CompleteIs(texts, e.pairs, e.cols);
    RunStands(e, texts, items);
    if Taken(e, texts, items).Some? {
      var r, taken := MergeAll(e, texts, items).value, Taken(e, texts, items).value;
      forall x | !Excluded(NameOf(x)) ensures multiset(r)[x] == One(x in taken) + One(x in texts && !Found(x)) {
        assert multiset(r)[x] == Standing(texts, taken, items, x);
      }
    }
  }

  // ---- when it ends with the pairs ----

  /** At each item there is a designator, and at each pair it is one of a row of the sheet. */
  ghost predicate SteadyFor(e: Saving, texts: seq<string>, items: seq<string>) {
    forall k | 0 <= k < |items| :: SteadyAt(e, texts, items, k)
  }

  ghost predicate SteadyAt(e: Saving, texts: seq<string>, items: seq<string>, k: nat)
    requires k < |items|
  {
    var refdes := DesignatorAfter(texts, e.inherited, e.pairs, items[..k]);
    refdes.Some? && (items[k] in e.pairs ==> refdes.value in e.rows)
  }

  /** No pair takes the component's row away before the pairs after it are merged. */
  ghost predicate Steady(e: Saving, texts: seq<string>) {
    SteadyFor(e, texts, Complete(texts, e.pairs))
  }

  /** The merge is steady iff it takes every pair. */
  lemma {:induction false} SteadyTakes(e: Saving, texts: seq<string>, items: seq<string>)
    requires UniqueNames(e.pairs) && UniqueNames(items)
    requires forall c | c in items :: c in e.pairs || !HasName(e.pairs, NameOf(c))
    ensures SteadyFor(e, texts, items) <==>
      Taken(e, texts, items).Some? && forall x | x in items && x in e.pairs :: x in Taken(e, texts, items).value
    ensures Taken(e, texts, items).Some? ==> forall x | x in Taken(e, texts, items).value :: x in items && x in e.pairs
  {
    hide NameOf, DesignatorAfter, SteadyFor, UniqueNames, HasName;
    if items != [] {
      var before, c := items[..|items| - 1], items[|items| - 1];
      assert items == before + [c];
      FirstItems(items);
      SteadyTakes(e, texts, before);
      SteadyLast(e, texts, items);
      if Taken(e, texts, before).Some? && forall x | x in before && x in e.pairs :: x in Taken(e, texts, before).value {
        SameAfter(e, texts, Taken(e, texts, before).value, before);
      }
    } else {
      assert SteadyFor(e, texts, items) by { NoItems(e, texts); }
    }
  }

  lemma NoItems(e: Saving, texts: seq<string>)
    ensures SteadyFor(e, texts, [])
  {
  }

  lemma FirstItems(items: seq<string>)
    requires items != [] && UniqueNames(items)
    ensures var before, c := items[..|items| - 1], items[|items| - 1]; UniqueNames(before) && c !in before
  {
    hide NameOf;
    assert forall k | 0 <= k < |items| - 1 :: NameOf(items[k]) != NameOf(items[|items| - 1]);
  }

  lemma SteadyLast(e: Saving, texts: seq<string>, items: seq<string>)
    requires items != []
    ensures SteadyFor(e, texts, items) <==>
      SteadyFor(e, texts, items[..|items| - 1]) && SteadyAt(e, texts, items, |items| - 1)
  {
    hide DesignatorAfter;
    var before := items[..|items| - 1];
    forall k | 0 <= k < |before| ensures SteadyAt(e, texts, items, k) == SteadyAt(e, texts, before, k) {
      assert before[..k] == items[..k];
    }
  }

  lemma SameAfter(e: Saving, texts: seq<string>, taken: seq<string>, items: seq<string>)
    requires UniqueNames(e.pairs) && forall c | c in items :: c in e.pairs || !HasName(e.pairs, NameOf(c))
    requires forall x :: x in taken <==> x in items && x in e.pairs
    ensures DesignatorAfter(texts, e.inherited, taken, items) == DesignatorAfter(texts, e.inherited, e.pairs, items)
  {
    hide SearchValue;
    SameFound(e, taken, items, "uref");
    SameFound(e, taken, items, "numslots");
  }

  lemma SameFound(e: Saving, taken: seq<string>, items: seq<string>, n: string)
    requires UniqueNames(e.pairs) && forall c | c in items :: c in e.pairs || !HasName(e.pairs, NameOf(c))
    requires forall x :: x in taken <==> x in items && x in e.pairs
    requires n != "" && n[0] != ' '
    ensures HasName(items, n) ==> SearchValue(taken, n) == SearchValue(e.pairs, n)
  {
    hide NameOf, Found, SearchValue;
    if HasName(items, n) {
      var k :| 0 <= k < |items| && NameOf(items[k]) == n;
      forall x | x in e.pairs && NameOf(x) == n ensures x in taken {
        InTextsNamed(e.pairs, x);
        SameName(e.pairs, x, items[k]);
      }
      forall x, y | x in e.pairs && y in e.pairs && NameOf(x) == n == NameOf(y) ensures x == y {
        SameName(e.pairs, x, y);
      }
      SameSearch(e.pairs, taken, n);
    }
  }

  /** After a steady merge every pair is there, and every own text that nothing finds. */
  lemma SteadyWrittenBack(e: Saving, texts: seq<string>)
    requires UniqueNames(texts) && FromSheet(e.pairs, e.cols) && Steady(e, texts)
    ensures var r := MergeAll(e, texts, Complete(texts, e.pairs));
      && r.Some? && Fixed(r.value) == Fixed(texts)
      && forall x {:trigger multiset(r.value)[x]} | !Excluded(NameOf(x)) ::
           multiset(r.value)[x] == One(x in e.pairs) + One(x in texts && !Found(x))
  {
    hide NameOf, Excluded, Found, MergeAll, Fixed, Taken, SteadyFor;
    var items := Complete(texts, e.pairs);
    CompleteIs(texts, e.pairs, e.cols);
    SteadyTakes(e, texts, items);
    WrittenBack(e, texts);
    assert forall p | p in e.pairs :: p in items;
  }

  /** The texts of the component end up being its fixed ones, as they were, and exactly the pairs. */
  ghost predicate EndsWithPairs(e: Saving, texts: seq<string>) {
    var r := MergeAll(e, texts, Complete(texts, e.pairs));
    && r.Some? && Fixed(r.value) == Fixed(texts)
    && forall x {:trigger multiset(r.value)[x]} | !Excluded(NameOf(x)) :: multiset(r.value)[x] == multiset(e.pairs)[x]
  }

  /** Each text is fixed, or an attribute to liblepton under the name gattrib gives it. */
  ghost predicate AllFound(texts: seq<string>) {
    forall x | x in texts && !Excluded(NameOf(x)) :: Found(x)
  }

  /** It ends with the pairs iff the pairs taken and the texts that nothing finds make up the pairs. */
  lemma EndsIff(e: Saving, texts: seq<string>)
    requires UniqueNames(texts) && FromSheet(e.pairs, e.cols)
    ensures var taken := Taken(e, texts, Complete(texts, e.pairs));
      EndsWithPairs(e, texts) <==>
      taken.Some? && forall x | !Excluded(NameOf(x)) :: One(x in taken.value) + One(x in texts && !Found(x)) == One(x in e.pairs)
  {
    hide NameOf, Excluded, Found, MergeAll, Fixed, Taken, Complete;
    WrittenBack(e, texts);
    forall x ensures multiset(e.pairs)[x] == One(x in e.pairs) {
      CountedOnce(e.pairs, x);
    }
    var r, taken := MergeAll(e, texts, Complete(texts, e.pairs)), Taken(e, texts, Complete(texts, e.pairs));
    if EndsWithPairs(e, texts) {
      forall x | !Excluded(NameOf(x)) ensures One(x in taken.value) + One(x in texts && !Found(x)) == One(x in e.pairs) {
        assert multiset(r.value)[x] == multiset(e.pairs)[x];
      }
    }
  }

  /**
   A component ends with exactly its pairs iff the merge is steady and each of its own texts is found.
   (Only if a text that nothing finds is a pair itself, being left may make up for not being taken.)
   */
  lemma ExactlyThePairs(e: Saving, texts: seq<string>)
    requires UniqueNames(texts) && FromSheet(e.pairs, e.cols)
    requires Steady(e, texts) || forall x | x in texts && x in e.pairs :: Found(x)
    ensures EndsWithPairs(e, texts) <==> Steady(e, texts) && AllFound(texts)
  {
    hide NameOf, Excluded, Found, EndsWithPairs, Taken, SteadyFor;
    var items := Complete(texts, e.pairs);
    CompleteIs(texts, e.pairs, e.cols);
    SteadyTakes(e, texts, items);
    EndsIff(e, texts);
    assert forall p | p in e.pairs :: p in items;
  }

  // ---- which merges are steady ----

  /** A name and a value in the form of an attribute. */
  lemma PairFacts(a: string, v: string)
    requires '=' !in a && a != "" && a[0] != ' ' && a[|a| - 1] != ' ' && v != "" && v[0] != ' '
    ensures Found(Pair(a, v)) && IsAttribute(Pair(a, v)) && NameOf(Pair(a, v)) == a == LibName(Pair(a, v))
    ensures ValueOf(Pair(a, v)) == Some(v) && Pair(a, v)[|a| + 1..] == v
  {
    NameOfPair(a, v);
    IndexOfPair(a, v);
    FoundName(Pair(a, v));
  }

  lemma PairFound(pairs: seq<string>, cols: seq<string>, k: nat)
    requires FromSheet(pairs, cols) && k < |pairs|
    requires var n := NameOf(pairs[k]); n != "" && n[|n| - 1] != ' '
    ensures Found(pairs[k]) && SearchValue(pairs, NameOf(pairs[k])).Some?
  {
    hide NameOf, SearchValue, Found, Pair;
    assert pairs[k] in pairs;
    PairFacts(NameOf(pairs[k]), ValueOf(pairs[k]).value);
    FoundHasName(pairs, NameOf(pairs[k]));
  }

  /** The designator once numslots is attached to a component that had none. */
  function Slotted(texts: seq<string>, inherited: seq<string>): Option<string> {
    var all := texts + inherited;
    Built(SearchValue(all, "refdes"), SearchValue(all, "uref"), Some(""), SearchValue(all, "slot"))
  }

  /** The designator at the k-th pair of a component with a refdes. */
  lemma DesignatorAtPair(e: Saving, texts: seq<string>, k: nat)
    requires FromSheet(e.pairs, e.cols) && k <= |e.pairs| && SearchValue(texts + e.inherited, "refdes").Some?
    ensures DesignatorAfter(texts, e.inherited, e.pairs, e.pairs[..k]) ==
      if SearchValue(texts + e.inherited, "numslots").None? && HasName(e.pairs[..k], "numslots")
      then Slotted(texts, e.inherited) else Designator(texts, e.inherited)
  {
    hide NameOf, SearchValue, FromSheet;
    SearchConcat(texts, e.inherited, "numslots");
    if HasName(e.pairs[..k], "numslots") {
      var m :| 0 <= m < k && NameOf(e.pairs[..k][m]) == "numslots";
      PairFound(e.pairs, e.cols, m);
    }
  }

  /** With a refdes the merge is steady iff the row is there at each pair. */
  lemma SteadyPairs(e: Saving, texts: seq<string>)
    requires UniqueNames(texts) && FromSheet(e.pairs, e.cols)
    requires SearchValue(texts + e.inherited, "refdes").Some?
    ensures Steady(e, texts) <==>
      forall k | 0 <= k < |e.pairs| :: DesignatorAfter(texts, e.inherited, e.pairs, e.pairs[..k]).value in e.rows
  {
    hide NameOf, SearchValue, FoundAfter, FromSheet, HasName, Complete, OldTexts, Excluded;
    var pairs, items := e.pairs, Complete(texts, e.pairs);
    CompleteIs(texts, pairs, e.cols);
    assert forall k | 0 <= k < |pairs| :: items[..k] == pairs[..k] && items[k] == pairs[k];
    forall k | |pairs| <= k < |items| ensures SteadyAt(e, texts, items, k) {
      assert forall m | 0 <= m < |pairs| :: NameOf(items[m]) != NameOf(items[k]) && pairs[m] == items[m];
      assert items[k] !in pairs;
    }
    forall k | 0 <= k < |pairs|
      ensures SteadyAt(e, texts, items, k) <==> DesignatorAfter(texts, e.inherited, pairs, pairs[..k]).value in e.rows
    {
      assert items[k] in pairs;
    }
  }

  /**
   The merge of a component with a refdes is steady iff its row is there, and there is no numslots among
   the pairs that it lacked before, or it is the last of the pairs, or the slotted row is there as well.
   */
  lemma SteadyIff(e: Saving, texts: seq<string>)
    requires UniqueNames(texts) && FromSheet(e.pairs, e.cols)
    requires SearchValue(texts + e.inherited, "refdes").Some?
    ensures Steady(e, texts) <==>
      || e.pairs == []
      || (Designator(texts, e.inherited).value in e.rows
          && (|| SearchValue(texts + e.inherited, "numslots").Some?
              || !HasName(e.pairs[..|e.pairs| - 1], "numslots")
              || Slotted(texts, e.inherited).value in e.rows))
  {
    hide NameOf, SearchValue, DesignatorAfter, FromSheet, Steady;
    SteadyPairs(e, texts);
    forall k | 0 <= k < |e.pairs|
      ensures DesignatorAfter(texts, e.inherited, e.pairs, e.pairs[..k]) ==
        if SearchValue(texts + e.inherited, "numslots").None? && HasName(e.pairs[..k], "numslots")
        then Slotted(texts, e.inherited) else Designator(texts, e.inherited)
    {
      DesignatorAtPair(e, texts, k);
    }
    if e.pairs != [] {
      var last := |e.pairs| - 1;
      assert !HasName(e.pairs[..0], "numslots");
      assert forall k, i | 0 <= i < k <= last :: e.pairs[..k][i] == e.pairs[..last][i];
      assert forall k | 0 <= k <= last :: HasName(e.pairs[..k], "numslots") ==> HasName(e.pairs[..last], "numslots");
    }
  }

  /** Without pairs, as when no column is left, every text of a component with a refdes goes that is found and not fixed. */
  lemma NothingSaved(e: Saving, texts: seq<string>)
    requires UniqueNames(texts) && e.pairs == [] && SearchValue(texts + e.inherited, "refdes").Some?
    ensures var r := MergeAll(e, texts, Complete(texts, e.pairs));
      && r.Some? && Fixed(r.value) == Fixed(texts)
      && forall x {:trigger multiset(r.value)[x]} | !Excluded(NameOf(x)) :: multiset(r.value)[x] == One(x in texts && !Found(x))
  {
    hide NameOf, Excluded, Found, MergeAll, Fixed, Steady, SearchValue, Complete;
    SteadyIff(e, texts);
    SteadyWrittenBack(e, texts);
  }

  // ---- loading, saving and writing back ----

  lemma {:induction false} NoOldTexts(texts: seq<string>, pairs: seq<string>)
    requires forall x | x in texts && !Excluded(NameOf(x)) :: HasName(pairs, NameOf(x))
    ensures OldTexts(texts, pairs) == [] && Complete(texts, pairs) == pairs
  {
    hide HasName, NameOf, Excluded;
    if texts != [] { NoOldTexts(texts[..|texts| - 1], pairs); }
    AddNone(pairs);
  }

  lemma AttributeText(text: string)
    requires Found(text)
    ensures ValueOf(text).Some? && Pair(NameOf(text), ValueOf(text).value) == text
  {
    FoundName(text);
    var k := IndexOf(text, '=');
    assert text == text[..k] + "=" + text[k + 1..];
  }

  /** The pairs saved for an unedited component come from the sheet, and from its attributes. */
  lemma CarriedFromSheet(objs: seq<Component>, i: nat, pairs: seq<string>, cols: seq<string>)
    requires i < |objs| && UniqueNames(objs[i].attribs) && NoRepeats(pairs)
    requires forall x :: x in pairs <==> Carries(objs[i].attribs, x)
    requires forall x :: x in cols <==> x in AllColumnNames(objs)
    ensures FromSheet(pairs, cols)
  {
    hide Excluded, NameOf, ValueOf, Carries, ColumnNames, AllColumnNames, Pair, UniqueNames;
    var texts := objs[i].attribs;
    forall p | p in pairs
      ensures !Excluded(NameOf(p)) && NameOf(p) in cols && ValueOf(p).Some? && Pair(NameOf(p), ValueOf(p).value) == p
    {
      var k := CarriedAt(texts, p);
      NameCollected(objs, i, k);
    }
    forall p, q | p in pairs && q in pairs && NameOf(p) == NameOf(q) ensures p == q {
      SameNameSamePair(texts, p, q);
    }
    NamesApart(pairs);
  }

  lemma SameNameSamePair(texts: seq<string>, p: string, q: string)
    requires UniqueNames(texts) && Carries(texts, p) && Carries(texts, q) && NameOf(p) == NameOf(q)
    ensures p == q
  {
    hide Excluded, NameOf, ValueOf, Carries;
    var k := CarriedAt(texts, p);
    var m := CarriedAt(texts, q);
    assert k == m;
  }

  lemma NamesApart(pairs: seq<string>)
    requires NoRepeats(pairs) && forall p, q | p in pairs && q in pairs && NameOf(p) == NameOf(q) :: p == q
    ensures UniqueNames(pairs)
  {
    hide NameOf;
    assert forall i | 0 <= i < |pairs| :: pairs[i] in pairs;
  }

  lemma NameCollected(objs: seq<Component>, i: nat, k: nat)
    requires i < |objs| && k < |objs[i].attribs| && !Excluded(NameOf(objs[i].attribs[k]))
    ensures NameOf(objs[i].attribs[k]) in AllColumnNames(objs)
  {
    hide Excluded, NameOf;
    InLists(objs, i);
    PlainNames(objs[i].attribs);
  }

  /** The attribute a pair was made from has its name and its value. */
  lemma CarriedAt(texts: seq<string>, p: string) returns (k: nat)
    requires Carries(texts, p)
    ensures k < |texts| && NameOf(texts[k]) == NameOf(p) && !Excluded(NameOf(p))
    ensures ValueOf(p).Some? && ValueOf(p) == ValueOf(texts[k]) && Pair(NameOf(p), ValueOf(p).value) == p
  {
    k :| 0 <= k < |texts| && CarriesAt(texts[k], p);
    NameOfPair(NameOf(texts[k]), ValueOf(texts[k]).value);
  }

  /** A pair that the component carries already changes nothing. */
  lemma SameAgain(texts: seq<string>, c: string)
    requires c in texts && Found(c) && !Excluded(NameOf(c)) && UniqueNames(texts)
    ensures Merged(texts, NameOf(c), ValueOf(c)) == texts
  {
    hide NameOf, Found, Excluded, ValueOf, Pair, SearchValue, ReplaceFirst, RemoveFirst;
    AttributeText(c);
    var k := Find(texts, c);
    FoundHasName(texts, NameOf(c));
    FirstAt(texts, NameOf(c), k, c);
  }

  lemma {:induction false} NothingChanges(e: Saving, texts: seq<string>, items: seq<string>)
    requires UniqueNames(texts) && FromSheet(e.pairs, e.cols)
    requires Designator(texts, e.inherited).Some? && Designator(texts, e.inherited).value in e.rows
    requires forall c | c in items :: c in e.pairs && c in texts && Found(c)
    ensures MergeAll(e, texts, items) == Some(texts)
  {
    hide NameOf, Found, Designator, ValueOf, Merged, Excluded, Pair;
    if items != [] {
      var c := items[|items| - 1];
      NothingChanges(e, texts, items[..|items| - 1]);
      SameAgain(texts, c);
    }
  }

  /** Pairs that are just the component's attributes leave it as it is. */
  lemma Unedited(e: Saving, texts: seq<string>)
    requires UniqueNames(texts) && FromSheet(e.pairs, e.cols) && AllFound(texts)
    requires Designator(texts, e.inherited).Some? && Designator(texts, e.inherited).value in e.rows
    requires forall x :: x in e.pairs <==> Carries(texts, x)
    ensures MergeAll(e, texts, Complete(texts, e.pairs)) == Some(texts)
  {
    hide NameOf, Found, Designator, ValueOf, Pair, Excluded, MergeAll, Complete, HasName;
    forall x | x in e.pairs ensures x in texts && Found(x) {
      var k :| 0 <= k < |texts| && CarriesAt(texts[k], x);
      assert texts[k] in texts;
      AttributeText(texts[k]);
    }
    forall x | x in texts && !Excluded(NameOf(x)) ensures HasName(e.pairs, NameOf(x)) {
      AttributeText(x);
      var k := Find(texts, x);
      assert CarriesAt(texts[k], x);
      InTextsNamed(e.pairs, x);
    }
    NoOldTexts(texts, e.pairs);
    NothingChanges(e, texts, e.pairs);
  }

  /** The merge of a component whose pairs are what it carried when loaded. */
  lemma LoadedMerge(objs: seq<Component>, i: nat, e: Saving)
    requires i < |objs| && UniqueNames(objs[i].attribs) && NoRepeats(e.pairs)
    requires objs[i].refdes == Designator(objs[i].attribs, e.inherited) && objs[i].refdes.Some? && objs[i].refdes.value in e.rows
    requires forall x :: x in e.cols <==> x in AllColumnNames(objs)
    requires forall x :: x in e.pairs <==> Carries(objs[i].attribs, x)
    ensures var texts := objs[i].attribs;
      var r := MergeAll(e, texts, Complete(texts, e.pairs));
      && (AllFound(texts) ==> r == Some(texts))
      && (Steady(e, texts) ==>
          && r.Some? && Fixed(r.value) == Fixed(texts)
          && forall x {:trigger multiset(r.value)[x]} | !Excluded(NameOf(x)) ::
               multiset(r.value)[x] == One(Carries(texts, x)) + One(x in texts && !Found(x)))
  {
    hide *;
    CarriedFromSheet(objs, i, e.pairs, e.cols);
    if AllFound(objs[i].attribs) { Unedited(e, objs[i].attribs); }
    if Steady(e, objs[i].attribs) { SteadyWrittenBack(e, objs[i].attribs); }
  }

  /**
   Loading a design, saving it unedited and writing a component back. If all its texts are found, or
   fixed, not one has changed or moved; if the merge is steady, it carries its attributes as before,
   and each text that is not found once more.
   */
  method LoadSaveWriteBack(objs: seq<Component>, i: nat, inherited: seq<string>, stray: bool, rowHeight: nat)
    returns (o: Attached, ok: bool, ghost e: Saving)
    requires i < |objs| && objs[i].refdes.Some? && objs[i].attribs != []
    requires objs[i].refdes == Designator(objs[i].attribs, inherited)
    requires UniqueRefdes(objs) && UniqueNames(objs[i].attribs)
    requires AllColumnNames(objs) != [] && Sortable(stray, objs)
    ensures e.inherited == inherited && objs[i].refdes.value in e.rows
    ensures NoRepeats(e.cols) && forall x :: x in e.cols <==> x in AllColumnNames(objs)
    ensures NoRepeats(e.pairs) && forall x :: x in e.pairs <==> Carries(objs[i].attribs, x)
    ensures AllFound(objs[i].attribs) ==> ok && o.texts == objs[i].attribs
    ensures Steady(e, objs[i].attribs) ==> ok && Fixed(o.texts) == Fixed(objs[i].attribs)
    ensures Steady(e, objs[i].attribs) ==> forall x {:trigger multiset(o.texts)[x]} | !Excluded(NameOf(x)) ::
      multiset(o.texts)[x] == One(Carries(objs[i].attribs, x)) + One(x in objs[i].attribs && !Found(x))
  {
    hide Carries, UniqueNames, UniqueRefdes, Sortable, StringList.Valid, SortedBy, NoRepeats, AllColumnNames, Complete, MergeAll,
      FromSheet, Fixed, NameOf, Excluded, Found, Designator, AllFound, Steady;
    var texts := objs[i].attribs;
    ghost var cols;
    var pairs, comps, attribs;
    pairs, comps, attribs, cols := SheetTable.LoadAndSave(objs, i, stray, rowHeight);
    e := Saving(inherited, comps.items, cols, pairs.items);
    ListedOnce(pairs);
    LoadedMerge(objs, i, e);
    NonEmpty(cols, AllColumnNames(objs));
    o := new Attached(texts, inherited);
    ok := o.Update(pairs, comps, attribs);
  }

  lemma ListedOnce(list: StringList)
    requires list.Valid()
    ensures NoRepeats(list.items)
  {
  }
}
