/**
 eda_pango_parse_overbars (libleptonrenderer/edapangorenderer.c): strips the overbar markup from a
 text and records the spans it marks. A backslash escapes the next character; an escaped underscore
 opens or closes a span.
 */
module Overbar {
  import opened Wrappers

  const NUL: char := 0 as char

  /** An overbar attribute. `end` is absent when the code never set overbar_end for it. */
  datatype Span = Span(start: nat, end: Option<nat>)

  datatype Parsed = Parsed(text: string, spans: seq<Span>)

  // ---- what the scan computes ----

  /**
   The scan of `t` with `n` characters written already: what it still writes, and the spans it still
   emits. It stops behind the first null character, or at the end of `t`.
   */
  function Scan(t: string, escaped: bool, n: nat, open: Option<nat>): Parsed {
    if t == [] then Parsed([], [])
    else if t[0] == '\\' && !escaped then Scan(t[1..], true, n, open)
    else if t[0] == '_' && escaped then
      if open.Some? then
        var p := Scan(t[1..], false, n, None);
        p.(spans := [Span(open.value, Some(n))] + p.spans)
      else Scan(t[1..], false, n, Some(n))
    else if t[0] == NUL then Parsed([NUL], if open.Some? then [Span(open.value, None)] else [])
    else
      var p := Scan(t[1..], false, n + 1, open);
      p.(text := [t[0]] + p.text)
  }

  /** strlen */
  function StrLen(s: string): (k: nat)
    requires NUL in s
    ensures k < |s| && s[k] == NUL && NUL !in s[..k]
  {
    if s[0] == NUL then 0 else 1 + StrLen(s[1..])
  }

  /** A buffer of `size` null characters after a text was written into it. */
  function Filled(text: string, size: nat): (s: string)
    requires |text| <= size
    ensures |s| == size && forall i | 0 <= i < size :: s[i] == if i < |text| then text[i] else NUL
  {
    text + seq(size - |text|, _ => NUL)
  }

  lemma FilledNone(size: nat)
    ensures Filled("", size) == seq(size, _ => NUL)
  {
  }

  lemma FilledNext(text: string, size: nat, c: char)
    requires |text| < size
    ensures Filled(text + [c], size) == Filled(text, size)[|text| := c]
  {
  }

  /**
   eda_pango_parse_overbars. `input` is the memory at overbar_text; `length` is the length of the
   text there, or -1 for a null-terminated one. The buffer takes length + 1 characters, and no
   character is written at or after the one just read.
   */
  method ParseOverbars(input: string, length: int) returns (text: array<char>, spans: seq<Span>)
    requires if length == -1 then NUL in input else 0 <= length < |input|
    ensures fresh(text)
    ensures var n := if length == -1 then StrLen(input) else length;
      var parsed := Scan(input[..n + 1], false, 0, None);
      && text.Length == n + 1 && |parsed.text| <= n + 1
      && text[..] == Filled(parsed.text, n + 1)
      && spans == parsed.spans
      && (NUL in text[..] <==> NUL in input[..n + 1] || '\\' in input[..n + 1])
  {
    hide Scan, Filled;
    var n := if length == -1 then StrLen(input) else length;
    text := new char[n + 1](_ => NUL);
    FilledNone(n + 1);
    assert text[..] == Filled("", n + 1);
    spans := ScanInto(input, n, text);
    TerminatedIff(input[..n + 1]);
  }

  /** Its loop: reads `n` characters and the one after them, up to a null character. */
  method ScanInto(input: string, n: nat, text: array<char>) returns (spans: seq<Span>)
    requires n < |input| && text.Length == n + 1 && text[..] == Filled("", n + 1)
    modifies text
    ensures var parsed := Scan(input[..n + 1], false, 0, None);
      |parsed.text| <= n + 1 && text[..] == Filled(parsed.text, n + 1) && spans == parsed.spans
  {
    hide Scan, Filled;
    spans := [];
    ghost var t := input[..n + 1];
    ghost var full := Scan(t, false, 0, None);
    ghost var written: string := "";
    var out, k := 0, 0;
    var start: Option<nat>, end: Option<nat> := None, None;
    var escaped := false;
    assert t[0..] == t;
    while k <= n
      invariant 0 <= out == |written| <= k <= n + 1 && end.None?
      invariant text[..] == Filled(written, n + 1)
      invariant Before(full, written, spans, Scan(t[k..], escaped, out, start))
    {
      ScanAt(t, k, escaped, out, start);
      ghost var rest, was := Scan(t[k..], escaped, out, start), spans;
      if input[k] == '\\' && !escaped {
        escaped := true;
        k := k + 1;
        continue;
      }
      if input[k] == '_' && escaped {
        if start.Some? {
          end := Some(out);
        } else {
          start := Some(out);
        }
      } else {
        FilledNext(written, n + 1, input[k]);
        text[out] := input[k];
        out := out + 1;
        written := written + [input[k]];
      }
      escaped := false;
      if start.Some? && (end.Some? || input[k] == NUL) {
        spans := spans + [Span(start.value, end)];
        start, end := None, None;
      }
      if input[k] == NUL {
        break;
      }
      k := k + 1;
    }
    if k > n {
      ScanEnd(t[k..], escaped, out, start);
    }
    assert full == Parsed(written, spans);
  }

  /** `full` is what was written and emitted already, followed by `rest`. */
  predicate Before(full: Parsed, written: string, spans: seq<Span>, rest: Parsed) {
    full.text == written + rest.text && full.spans == spans + rest.spans
  }

  lemma ScanEnd(t: string, escaped: bool, n: nat, open: Option<nat>)
    requires t == []
    ensures Scan(t, escaped, n, open) == Parsed([], [])
  {
  }

  /** One step of the scan, on the character at `k`. */
  lemma ScanAt(t: string, k: nat, escaped: bool, n: nat, open: Option<nat>)
    requires k < |t|
    ensures var p := Scan(t[k..], escaped, n, open);
      if t[k] == '\\' && !escaped then p == Scan(t[k + 1..], true, n, open)
      else if t[k] == '_' && escaped then
        if open.Some? then
          var q := Scan(t[k + 1..], false, n, None);
          p == q.(spans := [Span(open.value, Some(n))] + q.spans)
        else p == Scan(t[k + 1..], false, n, Some(n))
      else if t[k] == NUL then p == Parsed([NUL], if open.Some? then [Span(open.value, None)] else [])
      else
        var q := Scan(t[k + 1..], false, n + 1, open);
        p == q.(text := [t[k]] + q.text)
  {
    assert t[k..][1..] == t[k + 1..];
  }

  // ---- printing, and parsing what was printed ----

  /** Overbar boundaries of a text whose first character stands at position `n`: in order, inside it. */
  predicate Within(marks: seq<nat>, n: nat, hi: nat) {
    marks == [] || (n <= marks[0] <= hi && Within(marks[1..], marks[0], hi))
  }

  /** The markup of a text: each backslash doubled, a backslash and an underscore at each boundary. */
  function Print(text: string, marks: seq<nat>, n: nat): string
    decreases |text| + |marks|
  {
    if marks != [] && marks[0] <= n then "\\_" + Print(text, marks[1..], n)
    else if text == [] then ""
    else (if text[0] == '\\' then "\\\\" else [text[0]]) + Print(text[1..], marks, n + 1)
  }

  /** The boundaries taken in turn as starts and ends; an odd one out has no end. */
  function PairUp(open: Option<nat>, marks: seq<nat>): seq<Span>
    decreases |marks|
  {
    if marks == [] then if open.Some? then [Span(open.value, None)] else []
    else if open.Some? then [Span(open.value, Some(marks[0]))] + PairUp(None, marks[1..])
    else PairUp(Some(marks[0]), marks[1..])
  }

  /** Parsing inverts printing, for any boundaries. */
  lemma {:induction false} ParsePrinted(text: string, marks: seq<nat>, n: nat, open: Option<nat>)
    requires NUL !in text && Within(marks, n, n + |text|)
    ensures Scan(Print(text, marks, n) + [NUL], false, n, open) == Parsed(text + [NUL], PairUp(open, marks))
    decreases |text| + |marks|
  {
    hide Scan;
    if marks != [] && marks[0] <= n {
      var rest := Print(text, marks[1..], n) + [NUL];
      assert Print(text, marks, n) + [NUL] == ['\\', '_'] + rest;
      ScanMark(rest, n, open);
      ParsePrinted(text, marks[1..], n, if open.Some? then None else Some(n));
    } else if text != [] {
      var rest := Print(text[1..], marks, n + 1) + [NUL];
      LaterMarks(marks, n, n + |text|);
      ParsePrinted(text[1..], marks, n + 1, open);
      assert text + [NUL] == [text[0]] + (text[1..] + [NUL]);
      assert Print(text, marks, n) + [NUL] == (if text[0] == '\\' then ['\\', '\\'] else [text[0]]) + rest;
      ScanCharacter(text[0], rest, n, open);
    } else {
      assert Print(text, marks, n) + [NUL] == [NUL];
      ScanEndMark(n, open);
    }
  }

  /** A printed boundary. */
  lemma ScanMark(rest: string, n: nat, open: Option<nat>)
    ensures Scan(['\\', '_'] + rest, false, n, open) ==
      if open.Some? then
        var q := Scan(rest, false, n, None);
        q.(spans := [Span(open.value, Some(n))] + q.spans)
      else Scan(rest, false, n, Some(n))
  {
    var t := ['\\', '_'] + rest;
    assert t[0..] == t && t[2..] == rest;
    ScanAt(t, 0, false, n, open);
    ScanAt(t, 1, true, n, open);
  }

  /** A printed character. */
  lemma ScanCharacter(c: char, rest: string, n: nat, open: Option<nat>)
    requires c != NUL
    ensures var q := Scan(rest, false, n + 1, open);
      Scan((if c == '\\' then ['\\', '\\'] else [c]) + rest, false, n, open) == q.(text := [c] + q.text)
  {
    var t := (if c == '\\' then ['\\', '\\'] else [c]) + rest;
    assert t[0..] == t;
    ScanAt(t, 0, false, n, open);
    if c == '\\' {
      assert t[2..] == rest;
      ScanAt(t, 1, true, n, open);
    } else {
      assert t[1..] == rest;
    }
  }

  lemma ScanEndMark(n: nat, open: Option<nat>)
    ensures Scan([NUL], false, n, open) == Parsed([NUL], PairUp(open, []))
  {
  }

  lemma LaterMarks(marks: seq<nat>, n: nat, hi: nat)
    requires Within(marks, n, hi) && (marks == [] || n < marks[0])
    ensures Within(marks, n + 1, hi)
  {
  }

  /** Spans in order, without overlap, inside a text of length `hi`. */
  predicate Ordered(spans: seq<Span>, lo: nat, hi: nat) {
    spans == [] ||
    (lo <= spans[0].start <= hi &&
     match spans[0].end
     case None => |spans| == 1
     case Some(e) => spans[0].start <= e <= hi && Ordered(spans[1..], e, hi))
  }

  predicate Closed(spans: seq<Span>) {
    forall i | 0 <= i < |spans| :: spans[i].end.Some?
  }

  function Marks(spans: seq<Span>): seq<nat>
    requires Closed(spans)
  {
    if spans == [] then [] else [spans[0].start, spans[0].end.value] + Marks(spans[1..])
  }

  lemma {:induction false} MarksOfSpans(spans: seq<Span>, lo: nat, hi: nat)
    requires Ordered(spans, lo, hi) && Closed(spans)
    ensures Within(Marks(spans), lo, hi) && PairUp(None, Marks(spans)) == spans
  {
    if spans != [] {
      MarksOfSpans(spans[1..], spans[0].end.value, hi);
      var m := Marks(spans);
      assert m[1..][1..] == Marks(spans[1..]) && m[1..][0] == spans[0].end.value;
    }
  }

  /** For every text and every list of ordered, disjoint spans in it, parsing the markup gives them back. */
  lemma PrintThenParse(text: string, spans: seq<Span>)
    requires NUL !in text && Ordered(spans, 0, |text|) && Closed(spans)
    ensures Scan(Print(text, Marks(spans), 0) + [NUL], false, 0, None) == Parsed(text + [NUL], spans)
  {
    MarksOfSpans(spans, 0, |text|);
    ParsePrinted(text, Marks(spans), 0, None);
  }

  // ---- any input ----

  /** The characters and the boundaries a null-terminated markup text stands for. */
  function TextOf(s: string, escaped: bool): string {
    if s == [] then ""
    else if s[0] == '\\' && !escaped then TextOf(s[1..], true)
    else if s[0] == '_' && escaped then TextOf(s[1..], false)
    else [s[0]] + TextOf(s[1..], false)
  }

  function MarksOf(s: string, escaped: bool, n: nat): seq<nat> {
    if s == [] then []
    else if s[0] == '\\' && !escaped then MarksOf(s[1..], true, n)
    else if s[0] == '_' && escaped then [n] + MarksOf(s[1..], false, n)
    else MarksOf(s[1..], false, n + 1)
  }

  /** The part before the first null character. */
  function BeforeNul(t: string): string {
    if t == [] || t[0] == NUL then [] else [t[0]] + BeforeNul(t[1..])
  }

  /** The boundaries taken in turn as starts and ends; an odd one out gives no span. */
  function PairsDone(open: Option<nat>, marks: seq<nat>): seq<Span>
    decreases |marks|
  {
    if marks == [] then []
    else if open.Some? then [Span(open.value, Some(marks[0]))] + PairsDone(None, marks[1..])
    else PairsDone(Some(marks[0]), marks[1..])
  }

  /** What the scan makes of any input, null-terminated or not. */
  lemma {:induction false} ScanIs(t: string, escaped: bool, n: nat, open: Option<nat>)
    ensures var s := BeforeNul(t);
      var marks := MarksOf(s, escaped, n);
      && NUL !in TextOf(s, escaped) && Within(marks, n, n + |TextOf(s, escaped)|)
      && Scan(t, escaped, n, open) ==
           if NUL in t then Parsed(TextOf(s, escaped) + [NUL], PairUp(open, marks))
           else Parsed(TextOf(s, escaped), PairsDone(open, marks))
    decreases |t|
  {
    hide Scan, Within, PairUp, PairsDone;
    if t == [] {
      ScanEnd(t, escaped, n, open);
      NoMarks(n, open);
    } else {
      assert t[0..] == t;
      ScanAt(t, 0, escaped, n, open);
      NoMarks(n, open);
    }
    if t != [] && t[0] != NUL {
      var s := BeforeNul(t);
      assert s[0] == t[0] && s[1..] == BeforeNul(t[1..]);
      if t[0] == '\\' && !escaped {
        ScanIs(t[1..], true, n, open);
      } else if t[0] == '_' && escaped {
        ScanIs(t[1..], false, n, if open.Some? then None else Some(n));
        FirstMark(n, open, MarksOf(s[1..], false, n), n + |TextOf(s, escaped)|);
      } else {
        ScanIs(t[1..], false, n + 1, open);
        EarlierMarks(MarksOf(s[1..], false, n + 1), n, n + |TextOf(s, escaped)|);
      }
    }
  }

  lemma NoMarks(n: nat, open: Option<nat>)
    ensures Within([], n, n) && PairsDone(open, []) == []
    ensures PairUp(open, []) == if open.Some? then [Span(open.value, None)] else []
  {
  }

  lemma FirstMark(n: nat, open: Option<nat>, marks: seq<nat>, hi: nat)
    requires Within(marks, n, hi) && n <= hi
    ensures var all := [n] + marks;
      && Within(all, n, hi)
      && PairUp(open, all) ==
           (if open.Some? then [Span(open.value, Some(n))] + PairUp(None, marks) else PairUp(Some(n), marks))
      && PairsDone(open, all) ==
           if open.Some? then [Span(open.value, Some(n))] + PairsDone(None, marks) else PairsDone(Some(n), marks)
  {
    assert ([n] + marks)[1..] == marks;
  }

  lemma {:induction false} BeforeEnd(s: string)
    requires NUL !in s
    ensures BeforeNul(s + [NUL]) == s
  {
    if s != [] {
      assert (s + [NUL])[1..] == s[1..] + [NUL];
      BeforeEnd(s[1..]);
    }
  }

  lemma EarlierMarks(marks: seq<nat>, n: nat, hi: nat)
    requires Within(marks, n + 1, hi)
    ensures Within(marks, n, hi)
  {
  }

  /** Printing the outcome of a parse gives a markup text that means the same. */
  lemma ParsePrintParse(s: string)
    requires NUL !in s
    ensures Scan(Print(TextOf(s, false), MarksOf(s, false, 0), 0) + [NUL], false, 0, None) ==
      Scan(s + [NUL], false, 0, None)
  {
    hide Scan, Print;
    BeforeEnd(s);
    ScanIs(s + [NUL], false, 0, None);
    ParsePrinted(TextOf(s, false), MarksOf(s, false, 0), 0, None);
  }

  lemma {:induction false} PairsOrdered(open: Option<nat>, marks: seq<nat>, n: nat, hi: nat)
    requires Within(marks, n, hi) && n <= hi && (open.Some? ==> open.value <= n)
    ensures Ordered(PairUp(open, marks), if open.Some? then open.value else n, hi)
    ensures |PairUp(open, marks)| == (|marks| + 1 + if open.Some? then 1 else 0) / 2
    ensures Closed(PairUp(open, marks)) <==> (|marks| + if open.Some? then 1 else 0) % 2 == 0
    decreases |marks|
  {
    if marks != [] {
      PairsOrdered(if open.Some? then None else Some(marks[0]), marks[1..], marks[0], hi);
      if open.Some? {
        FirstClosed(open.value, marks[0], PairUp(None, marks[1..]));
      }
    } else if open.Some? {
      assert PairUp(open, marks)[0].end.None?;
    }
  }

  lemma FirstClosed(start: nat, end: nat, rest: seq<Span>)
    ensures var spans := [Span(start, Some(end))] + rest; spans[1..] == rest && (Closed(spans) <==> Closed(rest))
  {
    var spans := [Span(start, Some(end))] + rest;
    assert forall i | 0 <= i < |rest| :: spans[i + 1] == rest[i];
  }

  lemma {:induction false} DoneOrdered(open: Option<nat>, marks: seq<nat>, n: nat, hi: nat)
    requires Within(marks, n, hi) && n <= hi && (open.Some? ==> open.value <= n)
    ensures Ordered(PairsDone(open, marks), if open.Some? then open.value else n, hi)
    ensures |PairsDone(open, marks)| == (|marks| + if open.Some? then 1 else 0) / 2
    ensures Closed(PairsDone(open, marks))
    decreases |marks|
  {
    if marks != [] {
      DoneOrdered(if open.Some? then None else Some(marks[0]), marks[1..], marks[0], hi);
      if open.Some? {
        FirstClosed(open.value, marks[0], PairsDone(None, marks[1..]));
      }
    }
  }

  /**
   For any input at all: the text is no longer than what was read, the spans are ordered, disjoint and
   inside the text before its null character. With a null character among what was read, every span
   has an end exactly when the delimiters before it are even in number: the comment in the source means
   an unterminated span to run to the end of the text, the code leaves its end unset. Without one, an
   unterminated span is dropped.
   */
  lemma AnyInput(t: string)
    ensures var p, s := Scan(t, false, 0, None), BeforeNul(t);
      var m, marks := |TextOf(s, false)|, |MarksOf(s, false, 0)|;
      && p.text == TextOf(s, false) + (if NUL in t then [NUL] else []) && NUL !in TextOf(s, false)
      && |p.text| <= |t| && Ordered(p.spans, 0, m)
      && (Closed(p.spans) <==> NUL !in t || marks % 2 == 0)
      && |p.spans| == if NUL in t then (marks + 1) / 2 else marks / 2
  {
    hide Scan;
    var s := BeforeNul(t);
    ScanIs(t, false, 0, None);
    TextNoLonger(s, false);
    NulLater(t);
    PairsOrdered(None, MarksOf(s, false, 0), 0, |TextOf(s, false)|);
    DoneOrdered(None, MarksOf(s, false, 0), 0, |TextOf(s, false)|);
  }

  lemma {:induction false} TextNoLonger(s: string, escaped: bool)
    ensures |TextOf(s, escaped)| <= |s|
    ensures !escaped ==> (|TextOf(s, escaped)| == |s| <==> '\\' !in s)
  {
    if s != [] { TextNoLonger(s[1..], s[0] == '\\' && !escaped); }
  }

  lemma {:induction false} NulLater(t: string)
    ensures |BeforeNul(t)| + (if NUL in t then 1 else 0) <= |t|
    ensures NUL !in t ==> BeforeNul(t) == t
  {
    if t != [] && t[0] != NUL { NulLater(t[1..]); }
  }

  /** The buffer, of as many characters as are read, holds a null character exactly if one is read or an escape is. */
  lemma TerminatedIff(t: string)
    ensures var p := Scan(t, false, 0, None);
      |p.text| <= |t| && (NUL in Filled(p.text, |t|) <==> NUL in t || '\\' in t)
  {
    hide Scan;
    AnyInput(t);
    TextNoLonger(t, false);
    NulLater(t);
    var p := Scan(t, false, 0, None);
    if NUL in t {
      assert Filled(p.text, |t|)[|p.text| - 1] == NUL;
    } else if |p.text| < |t| {
      assert Filled(p.text, |t|)[|p.text|] == NUL;
    } else {
      assert Filled(p.text, |t|) == p.text;
    }
  }

  /** Two inputs read with their explicit lengths 1 and 3: no terminator, and a span that is dropped. */
  lemma NotTerminated()
    ensures Scan("ab", false, 0, None) == Parsed("ab", [])
    ensures Scan("\\_ab", false, 0, None) == Parsed("ab", [])
  {
    var t := "ab";
    assert t[0..] == t;
    ScanAt(t, 0, false, 0, None);
    ScanAt(t, 1, false, 1, None);
    ScanEnd(t[2..], false, 2, None);
    var u := "\\_ab";
    assert u[0..] == u;
    ScanAt(u, 0, false, 0, None);
    ScanAt(u, 1, true, 0, None);
    ScanAt(u, 2, false, 0, Some(0));
    ScanAt(u, 3, false, 1, Some(0));
    ScanEnd(u[4..], false, 2, Some(0));
  }

  /** One input whose span never gets an end. */
  lemma UnterminatedSpan()
    ensures Scan("\\_A" + [NUL], false, 0, None) == Parsed("A" + [NUL], [Span(0, None)])
  {
    var t := "\\_A" + [NUL];
    assert t[0..] == t;
    ScanAt(t, 0, false, 0, None);
    ScanAt(t, 1, true, 0, None);
    ScanAt(t, 2, false, 0, Some(0));
    ScanAt(t, 3, false, 1, Some(0));
  }

  /** Any other escaped character stands for itself, and so does an underscore that is not escaped. */
  lemma EscapedCharacter(c: char, rest: string, n: nat, open: Option<nat>)
    requires c != NUL
    ensures var q := Scan(rest, false, n + 1, open);
      && (c != '_' ==> Scan(['\\', c] + rest, false, n, open) == q.(text := [c] + q.text))
      && (c != '\\' ==> Scan([c] + rest, false, n, open) == q.(text := [c] + q.text))
  {
    var t := ['\\', c] + rest;
    assert t[1..] == [c] + rest && ([c] + rest)[1..] == rest;
  }
}
