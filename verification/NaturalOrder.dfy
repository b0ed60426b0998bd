/**
 The comparator of gattrib/src/listsort.c: by position first, then by walking both strings, digit
 runs by value and other characters by lower case. After two equal digit runs the C code also
 runs the increments meant for single characters; `stray` tells the two readings apart: true for
 the code as it stands, false for the order its comments describe.
 */
module NaturalOrder {
  import opened Wrappers

  /** What `cmp` looks at in a list item. */
  datatype Key = Key(pos: int, data: string)

  // ---- characters and digit runs ----

  predicate IsDigit(c: char) {
    '0' <= c <= '9'
  }

  function Lower(c: char): int {
    if 'A' <= c <= 'Z' then c as int + 32 else c as int
  }

  /** The end of the digit run that starts at `i`. */
  function RunEnd(s: string, i: nat): (e: nat)
    requires i <= |s|
    ensures i <= e <= |s| && (e < |s| ==> !IsDigit(s[e])) && forall k | i <= k < e :: IsDigit(s[k])
    decreases |s| - i
  {
    if i < |s| && IsDigit(s[i]) then RunEnd(s, i + 1) else i
  }

  /** atoi on s[i..e], which holds digits only. */
  function RunValue(s: string, i: nat, e: nat): nat
    requires i <= e <= |s| && forall k | i <= k < e :: IsDigit(s[k])
  {
    if i == e then 0 else assert IsDigit(s[e - 1]); 10 * RunValue(s, i, e - 1) + (s[e - 1] as int - '0' as int)
  }

  // ---- the order by tokens ----

  datatype Token = Number(value: nat, first: char) | Letter(code: int)

  predicate Sound(t: Token) {
    match t
    case Number(_, c) => IsDigit(c)
    case Letter(n) => n < '0' as int || n > '9' as int
  }

  /** The tokens of s[i..]; when `stray`, each digit run swallows the character after it. */
  function Tokens(stray: bool, s: string, i: nat): (r: seq<Token>)
    ensures forall t | t in r :: Sound(t)
    decreases |s| - i
  {
    if i >= |s| then []
    else if IsDigit(s[i]) then
      var e := RunEnd(s, i);
      [Number(RunValue(s, i, e), s[i])] + Tokens(stray, s, if stray then e + 1 else e)
    else [Letter(Lower(s[i]))] + Tokens(stray, s, i + 1)
  }

  function Code(t: Token): int {
    if t.Number? then Lower(t.first) else t.code
  }

  function TokenDiff(t: Token, u: Token): int {
    if t.Number? && u.Number? then t.value - u.value else Code(t) - Code(u)
  }

  function CompareTokens(x: seq<Token>, y: seq<Token>): int {
    if x != [] && y != [] then
      var d := TokenDiff(x[0], y[0]);
      if d != 0 then d else CompareTokens(x[1..], y[1..])
    else if x != [] then 1
    else if y != [] then -1
    else 0
  }

  function Compare(stray: bool, a: string, b: string): int {
    CompareTokens(Tokens(stray, a, 0), Tokens(stray, b, 0))
  }

  function KeyCompare(stray: bool, x: Key, y: Key): int {
    if x.pos != y.pos then x.pos - y.pos else Compare(stray, x.data, y.data)
  }

  // ---- it is a total preorder ----

  lemma {:induction false} TokensOrdered(x: seq<Token>, y: seq<Token>, z: seq<Token>)
    requires forall t | t in x || t in y || t in z :: Sound(t)
    ensures CompareTokens(x, x) == 0
    ensures CompareTokens(y, x) == -CompareTokens(x, y)
    ensures CompareTokens(x, y) <= 0 && CompareTokens(y, z) <= 0 ==> CompareTokens(x, z) <= 0
    decreases |x| + |y| + |z|
  {
    if x != [] && y != [] && z != [] {
      assert Sound(x[0]) && Sound(y[0]) && Sound(z[0]);
      TokensOrdered(x[1..], y[1..], z[1..]);
    } else if x != [] && y != [] {
      TokensOrdered(x[1..], y[1..], z);
    } else if x != [] {
      TokensOrdered(x[1..], y, z);
    }
  }

  /** cmp is zero on equal keys, antisymmetric in sign and transitive, in either reading. */
  lemma TotalPreorder(stray: bool, x: Key, y: Key, z: Key)
    ensures KeyCompare(stray, x, x) == 0
    ensures KeyCompare(stray, y, x) == -KeyCompare(stray, x, y)
    ensures KeyCompare(stray, x, y) <= 0 && KeyCompare(stray, y, z) <= 0 ==> KeyCompare(stray, x, z) <= 0
  {
    TokensOrdered(Tokens(stray, x.data, 0), Tokens(stray, y.data, 0), Tokens(stray, z.data, 0));
  }

  /** It calls two strings equal exactly when their tokens agree one by one. */
  lemma {:induction false} EqualTokens(x: seq<Token>, y: seq<Token>)
    ensures CompareTokens(x, y) == 0 <==> |x| == |y| && forall k | 0 <= k < |x| :: TokenDiff(x[k], y[k]) == 0
  {
    if x != [] && y != [] {
      EqualTokens(x[1..], y[1..]);
      if CompareTokens(x, y) == 0 {
        forall k | 0 <= k < |x| ensures TokenDiff(x[k], y[k]) == 0 {
          assert k > 0 ==> x[k] == x[1..][k - 1] && y[k] == y[1..][k - 1];
        }
      } else if |x| == |y| && TokenDiff(x[0], y[0]) == 0 {
        var k :| 0 <= k < |x| - 1 && TokenDiff(x[1..][k], y[1..][k]) != 0;
        assert x[1..][k] == x[k + 1] && y[1..][k] == y[k + 1];
      }
    }
  }

  // ---- the loop of the C function ----

  /** What `cmp` returns from a[i..] and b[j..], None once a pointer has passed its terminator. */
  function Walk(a: string, i: nat, b: string, j: nat): Option<int>
    decreases |a| - i
  {
    if i > |a| || j > |b| then None
    else if i < |a| && j < |b| then
      if IsDigit(a[i]) && IsDigit(b[j]) then
        var d, e := RunEnd(a, i), RunEnd(b, j);
        var v, w := RunValue(a, i, d), RunValue(b, j, e);
        if v != w then Some(v - w) else Walk(a, d + 1, b, e + 1)
      else if Lower(a[i]) != Lower(b[j]) then Some(Lower(a[i]) - Lower(b[j]))
      else Walk(a, i + 1, b, j + 1)
    else Some(if i < |a| then 1 else if j < |b| then -1 else 0)
  }

  /** No pair of equal digit runs met on the common part of a[i..] and b[j..] ends one of the strings. */
  predicate StaysInside(a: string, i: nat, b: string, j: nat)
    decreases |a| - i
  {
    if i < |a| && j < |b| then
      if IsDigit(a[i]) && IsDigit(b[j]) then
        var d, e := RunEnd(a, i), RunEnd(b, j);
        RunValue(a, i, d) == RunValue(b, j, e) ==> d < |a| && e < |b| && StaysInside(a, d + 1, b, e + 1)
      else Lower(a[i]) == Lower(b[j]) ==> StaysInside(a, i + 1, b, j + 1)
    else true
  }

  /** That is exactly when the code stays inside its strings. */
  lemma {:induction false} WalkDefinedIff(a: string, i: nat, b: string, j: nat)
    requires i <= |a| && j <= |b|
    ensures Walk(a, i, b, j).Some? <==> StaysInside(a, i, b, j)
    decreases |a| - i
  {
    if i < |a| && j < |b| {
      if IsDigit(a[i]) && IsDigit(b[j]) {
        var d, e := RunEnd(a, i), RunEnd(b, j);
        if d < |a| && e < |b| { WalkDefinedIff(a, d + 1, b, e + 1); }
      } else if Lower(a[i]) == Lower(b[j]) {
        WalkDefinedIff(a, i + 1, b, j + 1);
      }
    }
  }

  lemma {:induction false} StaysInsideSymmetric(a: string, i: nat, b: string, j: nat)
    ensures StaysInside(a, i, b, j) <==> StaysInside(b, j, a, i)
    decreases |a| - i
  {
    if i < |a| && j < |b| {
      if IsDigit(a[i]) && IsDigit(b[j]) {
        StaysInsideSymmetric(a, RunEnd(a, i) + 1, b, RunEnd(b, j) + 1);
      } else {
        StaysInsideSymmetric(a, i + 1, b, j + 1);
      }
    }
  }

  /** Any two of these names can be compared. */
  ghost predicate Comparable(names: seq<string>) {
    forall x, y | x in names && y in names && x != y :: StaysInside(x, 0, y, 0)
  }

  /** cmp */
  method Cmp(al: Key, bl: Key) returns (r: Option<int>)
    ensures r.Some? <==> (al.pos == bl.pos ==> StaysInside(al.data, 0, bl.data, 0))
    ensures r == if al.pos != bl.pos then Some(al.pos - bl.pos) else Walk(al.data, 0, bl.data, 0)
    ensures r.Some? ==> r.value == KeyCompare(true, al, bl)
  {
    WalkIsTokenOrder(al.data, 0, bl.data, 0);
    WalkDefinedIff(al.data, 0, bl.data, 0);
    var a, b := al.data, bl.data;
    if al.pos != bl.pos {
      return Some(al.pos - bl.pos);
    }
    var i, j := 0, 0;
    while i < |a| && j < |b|
      invariant Walk(a, i, b, j) == Walk(a, 0, b, 0)
      decreases |a| - i
    {
      if IsDigit(a[i]) && IsDigit(b[j]) {
        var ia: int, ib: int := RunValue(a, i, RunEnd(a, i)), RunValue(b, j, RunEnd(b, j));
        if ia != ib {
          return Some(ia - ib);
        }
        ghost var d, e := RunEnd(a, i), RunEnd(b, j);
        while i < |a| && IsDigit(a[i])
          invariant i <= |a| && RunEnd(a, i) == d
          decreases |a| - i
        {
          i := i + 1;
        }
        while j < |b| && IsDigit(b[j])
          invariant j <= |b| && RunEnd(b, j) == e
          decreases |b| - j
        {
          j := j + 1;
        }
      } else if Lower(a[i]) != Lower(b[j]) {
        return Some(Lower(a[i]) - Lower(b[j]));
      }
      i := i + 1;
      j := j + 1;
    }
    if i > |a| || j > |b| {
      return None;
    }
    if i < |a| {
      return Some(1);
    }
    if j < |b| {
      return Some(-1);
    }
    return Some(0);
  }

  /** Wherever the code stays inside its strings it is the token order with swallowed characters. */
  lemma {:induction false} WalkIsTokenOrder(a: string, i: nat, b: string, j: nat)
    ensures Walk(a, i, b, j).Some? ==>
      Walk(a, i, b, j).value == CompareTokens(Tokens(true, a, i), Tokens(true, b, j))
    decreases |a| - i
  {
    hide Tokens;
    if i < |a| && j < |b| {
      FirstToken(true, a, i);
      FirstToken(true, b, j);
      if IsDigit(a[i]) && IsDigit(b[j]) {
        WalkIsTokenOrder(a, RunEnd(a, i) + 1, b, RunEnd(b, j) + 1);
      } else if Lower(a[i]) == Lower(b[j]) {
        WalkIsTokenOrder(a, i + 1, b, j + 1);
      }
    } else {
      NoTokens(true, a, i);
      NoTokens(true, b, j);
    }
  }

  // ---- where the code and the described order agree ----

  /**
   On the common part of a[i..] and b[j..] every pair of equal digit runs is followed, in both
   strings, by the same character but for case.
   */
  predicate SameAfterRuns(a: string, i: nat, b: string, j: nat)
    decreases |a| - i
  {
    if i < |a| && j < |b| then
      if IsDigit(a[i]) && IsDigit(b[j]) then
        var d, e := RunEnd(a, i), RunEnd(b, j);
        RunValue(a, i, d) == RunValue(b, j, e) ==>
          d < |a| && e < |b| && Lower(a[d]) == Lower(b[e]) && SameAfterRuns(a, d + 1, b, e + 1)
      else Lower(a[i]) == Lower(b[j]) ==> SameAfterRuns(a, i + 1, b, j + 1)
    else true
  }

  lemma {:induction false} AgreesWhenSame(a: string, i: nat, b: string, j: nat)
    requires i <= |a| && j <= |b| && SameAfterRuns(a, i, b, j)
    ensures Walk(a, i, b, j) == Some(CompareTokens(Tokens(false, a, i), Tokens(false, b, j)))
    decreases |a| - i
  {
    hide Tokens;
    if i < |a| && j < |b| {
      FirstToken(false, a, i);
      FirstToken(false, b, j);
      if IsDigit(a[i]) && IsDigit(b[j]) {
        var d, e := RunEnd(a, i), RunEnd(b, j);
        if RunValue(a, i, d) == RunValue(b, j, e) {
          FirstToken(false, a, d);
          FirstToken(false, b, e);
          AgreesWhenSame(a, d + 1, b, e + 1);
        }
      } else if Lower(a[i]) == Lower(b[j]) {
        AgreesWhenSame(a, i + 1, b, j + 1);
      }
    } else {
      NoTokens(false, a, i);
      NoTokens(false, b, j);
    }
  }

  /** Then the code stays inside its strings, too. */
  lemma {:induction false} SameStaysInside(a: string, i: nat, b: string, j: nat)
    requires SameAfterRuns(a, i, b, j)
    ensures StaysInside(a, i, b, j)
    decreases |a| - i
  {
    if i < |a| && j < |b| {
      if IsDigit(a[i]) && IsDigit(b[j]) {
        var d, e := RunEnd(a, i), RunEnd(b, j);
        if RunValue(a, i, d) == RunValue(b, j, e) { SameStaysInside(a, d + 1, b, e + 1); }
      } else if Lower(a[i]) == Lower(b[j]) {
        SameStaysInside(a, i + 1, b, j + 1);
      }
    }
  }

  lemma FirstToken(stray: bool, s: string, i: nat)
    requires i < |s|
    ensures var r := Tokens(stray, s, i);
            && r != []
            && r[0] == (if IsDigit(s[i]) then Number(RunValue(s, i, RunEnd(s, i)), s[i]) else Letter(Lower(s[i])))
            && r[1..] == Tokens(stray, s, if !IsDigit(s[i]) then i + 1 else RunEnd(s, i) + if stray then 1 else 0)
  {
  }

  lemma NoTokens(stray: bool, s: string, i: nat)
    ensures Tokens(stray, s, i) == [] <==> i >= |s|
  {
  }

  predicate HasDigit(s: string) {
    exists k :: 0 <= k < |s| && IsDigit(s[k])
  }

  /** A name is compared as described with every other name exactly when it holds no digit. */
  lemma AgreesWithAllIffNoDigit(a: string)
    ensures (forall b :: Walk(a, 0, b, 0) == Some(Compare(false, a, b))) <==> !HasDigit(a)
  {
    if HasDigit(a) {
      var k := FirstDigit(a);
      var b := a[..RunEnd(a, k)];
      EndsInRun(a, b, 0, k);
    } else {
      forall b ensures Walk(a, 0, b, 0) == Some(Compare(false, a, b)) {
        NoRuns(a, 0, b, 0);
        AgreesWhenSame(a, 0, b, 0);
      }
    }
  }

  lemma FirstDigit(a: string) returns (k: nat)
    requires HasDigit(a)
    ensures k < |a| && IsDigit(a[k]) && forall m | 0 <= m < k :: !IsDigit(a[m])
  {
    k := 0;
    while !IsDigit(a[k])
      invariant k < |a| && forall m | 0 <= m < k :: !IsDigit(a[m])
      decreases |a| - k
    {
      k := k + 1;
    }
  }

  lemma {:induction false} NoRuns(a: string, i: nat, b: string, j: nat)
    requires !HasDigit(a)
    ensures SameAfterRuns(a, i, b, j)
    decreases |a| - i
  {
    if i < |a| && j < |b| {
      NoRuns(a, i + 1, b, j + 1);
    }
  }

  /** Compared with its own beginning up to the end of a digit run, the code walks out of the string. */
  lemma {:induction false} EndsInRun(a: string, b: string, i: nat, k: nat)
    requires i <= k < |a| && IsDigit(a[k]) && (forall m | 0 <= m < k :: !IsDigit(a[m])) && b == a[..RunEnd(a, k)]
    ensures Walk(a, i, b, i).None?
    decreases k - i
  {
    if i < k {
      EndsInRun(a, b, i + 1, k);
    } else {
      RunEndIs(b, k, |b|);
      SameRunValue(a, b, k, |b|);
    }
  }

  lemma {:induction false} RunEndIs(s: string, i: nat, e: nat)
    requires i <= e == |s| && forall k | i <= k < e :: IsDigit(s[k])
    ensures RunEnd(s, i) == e
    decreases |s| - i
  {
    if i < e { RunEndIs(s, i + 1, e); }
  }

  lemma {:induction false} SameRunValue(a: string, b: string, i: nat, e: nat)
    requires i <= e <= |b| <= |a| && b == a[..|b|] && forall k | i <= k < e :: IsDigit(a[k])
    ensures RunValue(a, i, e) == RunValue(b, i, e)
  {
    assert forall k | i <= k < e :: b[k] == a[k];
    if i < e { SameRunValue(a, b, i, e - 1); }
  }

  /** Two pairs of different designators on which the code reads past the end of a string. */
  lemma LeavesStrings()
    ensures Walk("U1A", 0, "U1", 0).None? && Walk("C1", 0, "c1", 0).None?
  {
    RunEndIs("U1", 1, 2);
    assert "U1A"[..2] == "U1" && RunEnd("U1A", 1) == 2;
    EndsInRun("U1A", "U1", 0, 1);
    BothEndInOne("C1", "c1");
  }

  lemma BothEndInOne(a: string, b: string)
    requires |a| == 2 && |b| == 2 && a[1] == '1' && b[1] == '1'
    requires !IsDigit(a[0]) && !IsDigit(b[0]) && Lower(a[0]) == Lower(b[0])
    ensures Walk(a, 0, b, 0).None?
  {
    RunEndIs(a, 1, 2);
    RunEndIs(b, 1, 2);
    assert RunValue(a, 1, 2) == RunValue(b, 1, 2) == 1;
    assert Walk(a, 1, b, 1) == Walk(a, 3, b, 3);
  }

  /** One input that shows the difference: the letters after equal numbers are not looked at. */
  lemma LettersSkipped()
    ensures Walk("R1A", 0, "R1B", 0) == Some(0)
    ensures Compare(false, "R1A", "R1B") == -1
  {
    assert RunEnd("R1A", 1) == 2 && RunEnd("R1B", 1) == 2;
    assert RunValue("R1A", 1, 2) == 1 && RunValue("R1B", 1, 2) == 1;
    assert Walk("R1A", 1, "R1B", 1) == Walk("R1A", 3, "R1B", 3) == Some(0);
    assert Tokens(false, "R1A", 2) == [Letter(97)] && Tokens(false, "R1B", 2) == [Letter(98)];
    assert Tokens(false, "R1A", 1) == [Number(1, '1'), Letter(97)];
    assert Tokens(false, "R1B", 1) == [Number(1, '1'), Letter(98)];
    var x, y := Tokens(false, "R1A", 0), Tokens(false, "R1B", 0);
    assert x == [Letter(114), Number(1, '1'), Letter(97)];
    assert y == [Letter(114), Number(1, '1'), Letter(98)];
    assert x[1..][1..] == [Letter(97)] && y[1..][1..] == [Letter(98)];
  }

  // ---- what the numbers and letters in names decide ----

  ghost predicate AllDigits(s: string) {
    forall k | 0 <= k < |s| :: IsDigit(s[k])
  }

  /** A digit run without leading zeros. */
  ghost predicate Numeral(s: string) {
    s != "" && AllDigits(s) && s[0] != '0'
  }

  /** The two have the same beginning, and then the first has the smaller character. */
  ghost predicate FirstSmaller(x: string, y: string) {
    exists k :: 0 <= k < |x| && k < |y| && x[..k] == y[..k] && x[k] < y[k]
  }

  /** The decimal digits of a number. */
  function DecimalOf(n: nat): string {
    if n < 10 then [('0' as int + n) as char] else DecimalOf(n / 10) + [('0' as int + n % 10) as char]
  }

  /** A digit run stands for the number whose decimal digits it is: each number is read back. */
  lemma {:induction false} DecimalReads(n: nat)
    ensures AllDigits(DecimalOf(n)) && (n > 0 ==> DecimalOf(n)[0] != '0')
    ensures RunValue(DecimalOf(n), 0, |DecimalOf(n)|) == n
  {
    var s := DecimalOf(n);
    if n >= 10 {
      var before := DecimalOf(n / 10);
      DecimalReads(n / 10);
      assert s[..|before|] == before;
      SameRunValue(s, before, 0, |before|);
    } else {
      assert RunValue(s, 0, 0) == 0;
    }
  }

  /** The value of a run depends on its digits only, not on where it stands. */
  lemma {:induction false} RunValueShifts(s: string, i: nat, e: nat)
    requires i <= e <= |s| && AllDigits(s[i..e])
    ensures forall k | i <= k < e :: IsDigit(s[k])
    ensures RunValue(s, i, e) == RunValue(s[i..e], 0, e - i)
  {
    assert forall k | i <= k < e :: s[k] == s[i..e][k - i];
    if i < e {
      RunValueShifts(s, i, e - 1) by { assert s[i..e - 1] == s[i..e][..e - 1 - i]; }
      SameRunValue(s[i..e], s[i..e - 1], 0, e - 1 - i) by { assert s[i..e - 1] == s[i..e][..e - 1 - i]; }
    }
  }

  /** Leading zeros change nothing. */
  lemma {:induction false} LeadingZero(s: string)
    requires s != "" && AllDigits(s) && s[0] == '0'
    ensures RunValue(s, 0, |s|) == RunValue(s[1..], 0, |s| - 1)
  {
    assert s[1..|s|] == s[1..];
    RunValueShifts(s, 1, |s|);
    ZeroInFront(s, |s|);
  }

  lemma {:induction false} ZeroInFront(s: string, e: nat)
    requires 1 <= e <= |s| && AllDigits(s) && s[0] == '0'
    ensures RunValue(s, 0, e) == RunValue(s, 1, e)
  {
    if e > 1 { ZeroInFront(s, e - 1); } else { assert RunValue(s, 0, 0) == 0; }
  }

  function Power(n: nat): (p: nat)
    ensures p >= 1
  {
    if n == 0 then 1 else 10 * Power(n - 1)
  }

  lemma {:induction false} RunBounds(s: string, e: nat)
    requires e <= |s| && AllDigits(s)
    ensures RunValue(s, 0, e) < Power(e)
    ensures e > 0 && s[0] != '0' ==> RunValue(s, 0, e) >= Power(e - 1)
  {
    if e > 0 { RunBounds(s, e - 1); }
  }

  lemma {:induction false} PowerGrows(m: nat, n: nat)
    requires m <= n
    ensures Power(m) <= Power(n)
  {
    if m < n { PowerGrows(m, n - 1); }
  }

  /** Of two numerals the longer is the greater one; at equal length the first digit that differs decides. */
  lemma {:induction false} NumeralOrder(x: string, y: string)
    requires Numeral(x) && Numeral(y)
    ensures RunValue(x, 0, |x|) < RunValue(y, 0, |y|) <==> |x| < |y| || (|x| == |y| && FirstSmaller(x, y))
    ensures RunValue(x, 0, |x|) == RunValue(y, 0, |y|) <==> x == y
  {
    RunBounds(x, |x|);
    RunBounds(y, |y|);
    if |x| < |y| {
      PowerGrows(|x|, |y| - 1);
    } else if |y| < |x| {
      PowerGrows(|y|, |x| - 1);
    } else {
      SameLengthOrder(x, y, |x|);
      assert x[..|x|] == x && y[..|y|] == y;
    }
  }

  lemma {:induction false} SameLengthOrder(x: string, y: string, e: nat)
    requires e <= |x| == |y| && AllDigits(x) && AllDigits(y)
    ensures RunValue(x, 0, e) < RunValue(y, 0, e) <==> exists k :: 0 <= k < e && x[..k] == y[..k] && x[k] < y[k]
    ensures RunValue(x, 0, e) == RunValue(y, 0, e) <==> x[..e] == y[..e]
  {
    if e > 0 {
      var d := e - 1;
      SameLengthOrder(x, y, d);
      assert x[..e] == x[..d] + [x[d]] && y[..e] == y[..d] + [y[d]];
      assert x[..e] == y[..e] <==> x[..d] == y[..d] && x[d] == y[d];
      if RunValue(x, 0, e) < RunValue(y, 0, e) {
        assert (x[..d] == y[..d] && x[d] < y[d]) || RunValue(x, 0, d) < RunValue(y, 0, d);
      }
      if k :| 0 <= k < e && x[..k] == y[..k] && x[k] < y[k] {
        if k < d { assert RunValue(x, 0, d) < RunValue(y, 0, d); } else { assert x[..d] == y[..d]; }
      }
    }
  }

  /** The strings agree up to `i`, and not in the middle of a number. */
  ghost predicate SameUpTo(a: string, b: string, i: nat) {
    i <= |a| && i <= |b| && a[..i] == b[..i] && (i > 0 ==> !IsDigit(a[i - 1]))
  }

  /** A common beginning is walked over. */
  lemma {:induction false} CommonBeginning(a: string, b: string, i: nat, k: nat)
    requires SameUpTo(a, b, i) && k <= i
    ensures Walk(a, k, b, k) == Walk(a, i, b, i)
    decreases i - k
  {
    if k < i {
      assert forall m | 0 <= m < i :: a[m] == a[..i][m] == b[m];
      if IsDigit(a[k]) {
        var d := RunEnd(a, k);
        assert d < i by { assert !IsDigit(a[i - 1]); }
        RunEndAt(b, k, d);
        SameDigits(a, b, k, d);
        CommonBeginning(a, b, i, d + 1);
      } else {
        CommonBeginning(a, b, i, k + 1);
      }
    }
  }

  /** A digit run ends where the digits do. */
  lemma {:induction false} RunEndAt(s: string, i: nat, d: nat)
    requires i <= d <= |s| && (forall k | i <= k < d :: IsDigit(s[k])) && (d < |s| ==> !IsDigit(s[d]))
    ensures RunEnd(s, i) == d
    decreases d - i
  {
    if i < d { RunEndAt(s, i + 1, d); }
  }

  lemma {:induction false} SameDigits(a: string, b: string, i: nat, e: nat)
    requires i <= e <= |a| && e <= |b| && (forall k | i <= k < e :: a[k] == b[k]) && forall k | i <= k < e :: IsDigit(a[k])
    ensures RunValue(a, i, e) == RunValue(b, i, e)
  {
    if i < e { SameDigits(a, b, i, e - 1); }
  }

  /** The digits s[i..d] are a whole run, without leading zeros. */
  ghost predicate NumeralAt(s: string, i: nat, d: nat) {
    i <= d <= |s| && Numeral(s[i..d]) && (d < |s| ==> !IsDigit(s[d]))
  }

  lemma NumeralAtRun(s: string, i: nat, d: nat)
    requires NumeralAt(s, i, d)
    ensures i < |s| && IsDigit(s[i]) && RunEnd(s, i) == d && RunValue(s, i, d) == RunValue(s[i..d], 0, d - i)
  {
    hide RunValue;
    assert forall k | i <= k < d :: s[k] == s[i..d][k - i];
    RunEndAt(s, i, d);
    RunValueShifts(s, i, d);
  }

  /** After a common beginning the numbers decide: R9 comes before R10. */
  lemma NumbersDecide(a: string, b: string, i: nat, d: nat, e: nat)
    requires SameUpTo(a, b, i) && NumeralAt(a, i, d) && NumeralAt(b, i, e) && a[i..d] != b[i..e]
    ensures var x, y, r := a[i..d], b[i..e], Walk(a, 0, b, 0);
      && r == Some(RunValue(x, 0, |x|) - RunValue(y, 0, |y|))
      && r.value != 0
      && (r.value < 0 <==> |x| < |y| || (|x| == |y| && FirstSmaller(x, y)))
  {
    hide RunValue, RunEnd, FirstSmaller;
    CommonBeginning(a, b, i, 0);
    NumeralAtRun(a, i, d);
    NumeralAtRun(b, i, e);
    NumeralOrder(a[i..d], b[i..e]);
  }

  /** The n-th letter of the alphabet, large or small. */
  function LetterOf(n: nat, large: bool): char
    requires n < 26
  {
    ((if large then 'A' as int else 'a' as int) + n) as char
  }

  /** Then letters decide by the alphabet, whether large or small; the same letter is passed over. */
  lemma LettersDecide(a: string, b: string, i: nat, m: nat, large: bool, n: nat, largeb: bool)
    requires SameUpTo(a, b, i) && i < |a| && i < |b| && m < 26 && n < 26
    requires a[i] == LetterOf(m, large) && b[i] == LetterOf(n, largeb)
    ensures Walk(a, 0, b, 0) == if m != n then Some(m - n) else Walk(a, i + 1, b, i + 1)
  {
    CommonBeginning(a, b, i, 0);
  }

  /** Digits come before letters, and a beginning before what continues it. */
  lemma DigitsFirst(a: string, b: string, i: nat, n: nat, large: bool)
    requires SameUpTo(a, b, i) && i < |a| && '0' <= a[i] <= '9'
    ensures i < |b| && n < 26 && b[i] == LetterOf(n, large) ==>
      var r := Walk(a, 0, b, 0); r.Some? && r.value < 0
    ensures |b| == i ==> Walk(a, 0, b, 0) == Some(1) && Walk(b, 0, a, 0) == Some(-1)
  {
    CommonBeginning(a, b, i, 0);
    CommonBeginning(b, a, i, 0) by { assert i > 0 ==> b[i - 1] == b[..i][i - 1] == a[i - 1]; }
  }
}
