/**
 The record machine of contrib/gmk_sym/convert_sym.c: ViewDraw records in, gEDA objects out. Flags
 decide where attribute blocks open and close; a table of nodes turns net records into segments.
 Output is kept as the sequence of objects printed; attribute_object and text_object count as one
 object each.
 */
module Converter {
  import opened Wrappers
  import opened NaturalOrder

  const MAX_NODES := 1024
  const SCALE := 10

  datatype Owner = NoOwner | PinOwner | NetOwner | ComplexOwner

  datatype Record =
    | Shape(tag: char, pieces: nat)                       // text, line, box, circle, arc
    | Unattached(vis: nat, text: string)
    | Attached(vis: nat, text: string)
    | Pin(x1: int, y1: int, x2: int, y2: int, dir: nat, sense: nat)
    | Label(text: string, overbar: bool)
    | NetStart
    | NetNode(x: int, y: int)
    | NetSegment(n1: nat, n2: nat)
    | BusSegment(n1: nat, n2: nat)
    | Instance(name: string, x: int, y: int)
    | Other                                               // bounding box, no-ops, unrecognized records

  datatype Line =
    | Version
    | Open                                                // {
    | Close                                               // }
    | Drawn(tag: char)
    | Bubble(x: int, y: int, radius: nat)
    | Attribute(name: string, value: Option<string>)
    | Text(text: string)
    | PinLine(x1: int, y1: int, x2: int, y2: int, whichEnd: nat)
    | NetLine(x1: int, y1: int, x2: int, y2: int)
    | BusLine(x1: int, y1: int, x2: int, y2: int)
    | ComplexLine(name: string, x: int, y: int)

  // ---- what single records print ----

  /** strindex: 0 also when the character is absent. */
  function StrIndex(s: string, c: char): (k: nat)
    ensures k < |s| || k == 0
  {
    if c !in s then 0 else if s[0] == c then 0 else 1 + StrIndex(s[1..], c)
  }

  /** An attribute text split at its first '='. */
  function Split(text: string): Line {
    var k := StrIndex(text, '=');
    if k < |text| && text[k] == '=' then Attribute(text[..k], Some(text[k + 1..])) else Attribute(text, None)
  }

  function PinType(value: string): Option<string> {
    if value == "ANALOG" then Some("pas")
    else if value == "BI" then Some("io")
    else if value == "IN" then Some("in")
    else if value == "OCL" then Some("oc")
    else if value == "OEM" then Some("oe")
    else if value == "OUT" then Some("out")
    else if value == "TRI" then Some("tri")
    else if value == "PWR" then Some("pwr")
    else None
  }

  /** The lines of do_pin on scaled coordinates; no result for an invalid direction. */
  function PinLines(x1: int, y1: int, x2: int, y2: int, dir: nat, sense: nat): Option<seq<Line>> {
    if dir > 3 then None
    else
      var first := if dir == 0 then y1 <= y2 else if dir == 1 then y1 >= y2 else if dir == 2 then x1 >= x2 else x1 <= x2;
      var dx := if dir == 2 then -25 else if dir == 3 then 25 else 0;
      var dy := if dir == 0 then 25 else if dir == 1 then -25 else 0;
      if sense != 1 then Some([PinLine(x1, y1, x2, y2, if first then 1 else 0)])
      else if first then Some([Bubble(x1 + dx, y1 + dy, 25), PinLine(x1 + 2 * dx, y1 + 2 * dy, x2, y2, 1)])
      else Some([Bubble(x2 + dx, y2 + dy, 25), PinLine(x1, y1, x2 + 2 * dx, y2 + 2 * dy, 0)])
  }

  /** The counters and tables a record may change. */
  datatype Ctx = Ctx(pins: nat, xs: seq<int>, ys: seq<int>, count: nat) {
    predicate Valid() {
      |xs| == MAX_NODES && |ys| == MAX_NODES
    }
  }

  function Zeros(n: nat): seq<int> {
    seq(n, _ => 0)
  }

  /** The context before the first record. */
  function Start(): (c: Ctx)
    ensures c.Valid()
  {
    Ctx(0, Zeros(MAX_NODES), Zeros(MAX_NODES), 0)
  }

  /** reset_attributes is called on entry to the handlers of these records. */
  predicate Resets(r: Record) {
    !r.Attached? && !r.Label? && !r.NetNode? && !r.Other?
  }

  function OwnerOf(r: Record): Owner {
    match r
    case Pin(_, _, _, _, _, _) => PinOwner
    case NetSegment(_, _) => NetOwner
    case BusSegment(_, _) => NetOwner
    case Instance(_, _, _) => ComplexOwner
    case _ => NoOwner
  }

  /** How the run goes on after a record: exit(1), an index outside the node arrays, or normally. */
  datatype Outcome = Fine | Exited | OutOfArray

  function OutcomeOf(c: Ctx, owner: Owner, r: Record): Outcome {
    match r
    case Pin(_, _, _, _, dir, _) => if dir > 3 then Exited else Fine
    case NetNode(_, _) => if c.count > MAX_NODES then Exited else if c.count == MAX_NODES then OutOfArray else Fine
    case NetSegment(n1, n2) => if n1 < MAX_NODES && n2 < MAX_NODES then Fine else OutOfArray
    case BusSegment(n1, n2) => if n1 < MAX_NODES && n2 < MAX_NODES then Fine else OutOfArray
    case Attached(vis, text) =>
      if vis <= 3 && owner == PinOwner && "PINTYPE=" <= text && PinType(text[8..]).None? then Exited else Fine
    case _ => Fine
  }

  function After(c: Ctx, r: Record): Ctx {
    match r
    case Pin(_, _, _, _, _, _) => c.(pins := c.pins + 1)
    case NetStart => c.(count := 1)
    case NetNode(x, y) =>
      if c.count < |c.xs| && c.count < |c.ys| then
        c.(xs := c.xs[c.count := x * SCALE], ys := c.ys[c.count := y * SCALE], count := c.count + 1)
      else c
    case _ => c
  }

  function At(s: seq<int>, k: nat): int {
    if k < |s| then s[k] else 0
  }

  /** What a resetting record prints. */
  function HeadLines(c: Ctx, r: Record): seq<Line> {
    match r
    case Shape(tag, pieces) => seq(pieces, _ => Drawn(tag))
    case Unattached(vis, text) => if vis <= 3 then [Split(text)] else []
    case Pin(x1, y1, x2, y2, dir, sense) =>
      var lines := PinLines(x1 * SCALE, y1 * SCALE, x2 * SCALE, y2 * SCALE, dir, sense);
      if lines.Some? then lines.value else []
    case NetSegment(n1, n2) => [NetLine(At(c.xs, n1), At(c.ys, n1), At(c.xs, n2), At(c.ys, n2))]
    case BusSegment(n1, n2) => [BusLine(At(c.xs, n1), At(c.ys, n1), At(c.xs, n2), At(c.ys, n2))]
    case Instance(name, x, y) => [ComplexLine(name, x * SCALE, y * SCALE)]
    case _ => []
  }

  /** What a label means, by what it is attached to. */
  function LabelPrefix(owner: Owner): string {
    match owner
    case NetOwner => "netname="
    case ComplexOwner => "refdes="
    case PinOwner => "pinlabel="
    case NoOwner => ""
  }

  /** What an attribute or label record prints, if it gets as far as begin_attach. */
  function AttLines(c: Ctx, owner: Owner, r: Record): Option<seq<Line>> {
    match r
    case Attached(vis, text) =>
      if vis > 3 then None
      else if owner == PinOwner && "PINTYPE=" <= text then
        var t := PinType(text[8..]);
        Some(if t.Some? then [Attribute("pintype", t)] else [])
      else if owner == PinOwner && text != "" && text[0] == '#' then
        Some([Attribute("pinseq", Some(DecimalOf(c.pins))), Attribute("pinnumber", Some(if |text| < 2 then "" else text[2..]))])
      else Some([Split(text)])
    case Label(text, overbar) =>
      Some([Text(LabelPrefix(owner) + if overbar then "~" + text else text)])
    case _ => None
  }

  // ---- the document a record sequence stands for ----

  /** What the records before the next resetting one attach to `owner`, if anything. */
  function Attachments(c: Ctx, owner: Owner, recs: seq<Record>): Option<seq<Line>>
    decreases |recs|
  {
    if recs == [] || Resets(recs[0]) then None
    else
      var first := AttLines(c, owner, recs[0]);
      var rest := Attachments(After(c, recs[0]), owner, recs[1..]);
      if first.None? then rest
      else if rest.None? then first
      else Some(first.value + rest.value)
  }

  /** The records from the next resetting one on, and the context there. */
  function Rest(recs: seq<Record>): (r: seq<Record>)
    ensures |r| <= |recs| && (r != [] ==> Resets(r[0]))
  {
    if recs == [] || Resets(recs[0]) then recs else Rest(recs[1..])
  }

  function CtxAtRest(c: Ctx, recs: seq<Record>): Ctx
    decreases |recs|
  {
    if recs == [] || Resets(recs[0]) then c else CtxAtRest(After(c, recs[0]), recs[1..])
  }

  function Lines(block: Option<seq<Line>>): seq<Line> {
    if block.None? then [] else block.value
  }

  /** An owner's block: absent when nothing is attached. */
  function Block(block: Option<seq<Line>>): seq<Line> {
    if block.None? then [] else [Open] + block.value + [Close]
  }

  /** Each resetting record with what is attached to it, in a block if it is an owner. */
  function Document(c: Ctx, recs: seq<Record>): seq<Line>
    requires recs != [] ==> Resets(recs[0])
    decreases |recs|
  {
    if recs == [] then []
    else
      var r, d, o := recs[0], After(c, recs[0]), OwnerOf(recs[0]);
      var att := Attachments(d, o, recs[1..]);
      HeadLines(c, r) + (if o == NoOwner then Lines(att) else Block(att)) +
        Document(CtxAtRest(d, recs[1..]), Rest(recs[1..]))
  }

  /** The whole output for a record sequence. */
  function Converted(recs: seq<Record>): seq<Line> {
    [Version] + Lines(Attachments(Start(), NoOwner, recs)) + Document(CtxAtRest(Start(), recs), Rest(recs))
  }

  /** The first outcome that is not Fine ends the run. */
  function RunOutcome(c: Ctx, owner: Owner, recs: seq<Record>): Outcome
    decreases |recs|
  {
    if recs == [] then Fine
    else if OutcomeOf(c, owner, recs[0]) != Fine then OutcomeOf(c, owner, recs[0])
    else RunOutcome(After(c, recs[0]), if Resets(recs[0]) then OwnerOf(recs[0]) else owner, recs[1..])
  }

  /** What the output will be, from the output so far, the open owner and the records to come. */
  function Finish(out: seq<Line>, pending: bool, c: Ctx, owner: Owner, recs: seq<Record>): seq<Line> {
    var att := Attachments(c, owner, recs);
    out +
    (if owner == NoOwner then Lines(att) else if pending then Block(att) else Lines(att) + [Close]) +
    Document(CtxAtRest(c, recs), Rest(recs))
  }

  function Closing(pending: bool, owner: Owner): seq<Line> {
    if owner != NoOwner && !pending then [Close] else []
  }

  lemma FinishReset(out: seq<Line>, pending: bool, c: Ctx, owner: Owner, recs: seq<Record>)
    requires recs != [] && Resets(recs[0])
    ensures Finish(out, pending, c, owner, recs) ==
      Finish(out + Closing(pending, owner) + HeadLines(c, recs[0]), OwnerOf(recs[0]) != NoOwner,
             After(c, recs[0]), OwnerOf(recs[0]), recs[1..])
  {
    hide HeadLines, After, Attachments, Document;
    var r, d, o := recs[0], After(c, recs[0]), OwnerOf(recs[0]);
    var att := Attachments(d, o, recs[1..]);
    var body := if o == NoOwner then Lines(att) else Block(att);
    var tail := Document(CtxAtRest(d, recs[1..]), Rest(recs[1..]));
    DocumentStep(c, recs);
    Regroup(out, Closing(pending, owner), HeadLines(c, r), body, tail);
  }

  lemma DocumentStep(c: Ctx, recs: seq<Record>)
    requires recs != [] && Resets(recs[0])
    ensures Attachments(c, NoOwner, recs) == None && forall o :: Attachments(c, o, recs) == None
    ensures Rest(recs) == recs && CtxAtRest(c, recs) == c
    ensures var d, o := After(c, recs[0]), OwnerOf(recs[0]);
      var att := Attachments(d, o, recs[1..]);
      Document(c, recs) == HeadLines(c, recs[0]) + (if o == NoOwner then Lines(att) else Block(att)) +
        Document(CtxAtRest(d, recs[1..]), Rest(recs[1..]))
  {
  }

  lemma Regroup(a: seq<Line>, b: seq<Line>, c: seq<Line>, d: seq<Line>, e: seq<Line>)
    ensures a + b + (c + d + e) == a + b + c + d + e
  {
  }

  lemma FinishAttach(out: seq<Line>, pending: bool, c: Ctx, owner: Owner, recs: seq<Record>)
    requires recs != [] && !Resets(recs[0]) && (pending ==> owner != NoOwner)
    ensures var a := AttLines(c, owner, recs[0]);
      Finish(out, pending, c, owner, recs) ==
      if a.None? then Finish(out, pending, After(c, recs[0]), owner, recs[1..])
      else Finish(out + (if pending then [Open] else []) + a.value, false, After(c, recs[0]), owner, recs[1..])
  {
    hide AttLines, After, Document;
    var a, d := AttLines(c, owner, recs[0]), After(c, recs[0]);
    var rest := Attachments(d, owner, recs[1..]);
    var tail := Document(CtxAtRest(d, recs[1..]), Rest(recs[1..]));
    if a.Some? {
      var att := Attachments(c, owner, recs);
      assert a.value + [] == a.value;
      assert att == Some(a.value + Lines(rest));
      if owner == NoOwner {
        assert out + (a.value + Lines(rest)) + tail == out + [] + a.value + Lines(rest) + tail;
      } else if pending {
        assert out + ([Open] + (a.value + Lines(rest)) + [Close]) + tail
            == out + [Open] + a.value + (Lines(rest) + [Close]) + tail;
      } else {
        assert out + (a.value + Lines(rest) + [Close]) + tail
            == out + [] + a.value + (Lines(rest) + [Close]) + tail;
      }
    }
  }

  lemma FinishEnd(out: seq<Line>, pending: bool, c: Ctx, owner: Owner)
    ensures Finish(out, pending, c, owner, []) == out + Closing(pending, owner)
  {
  }

  // ---- the program ----

  /** The switch of do_pin: where the bubble of an inverted pin goes, and which end gives way to it. */
  method PinGeometry(a1: int, b1: int, a2: int, b2: int, dir: nat, sense: nat) returns (lines: Option<seq<Line>>)
    ensures lines == PinLines(a1, b1, a2, b2, dir, sense)
  {
    var bx1, by1, bx2, by2 := a1, b1, a2, b2;
    var bubX, bubY, whichEnd := 0, 0, 0;
    if dir == 0 {
      if b1 > b2 {
        whichEnd := 0; bubX := a2; bubY := b2 + 25; by2 := by2 + 50;
      } else {
        whichEnd := 1; bubX := a1; bubY := b1 + 25; by1 := by1 + 50;
      }
    } else if dir == 1 {
      if b1 < b2 {
        whichEnd := 0; bubX := a2; bubY := b2 - 25; by2 := by2 - 50;
      } else {
        whichEnd := 1; bubX := a1; bubY := b1 - 25; by1 := by1 - 50;
      }
    } else if dir == 2 {
      if a1 < a2 {
        whichEnd := 0; bubX := a2 - 25; bubY := b2; bx2 := bx2 - 50;
      } else {
        whichEnd := 1; bubX := a1 - 25; bubY := b1; bx1 := bx1 - 50;
      }
    } else if dir == 3 {
      if a1 > a2 {
        whichEnd := 0; bubX := a2 + 25; bubY := b2; bx2 := bx2 + 50;
      } else {
        whichEnd := 1; bubX := a1 + 25; bubY := b1; bx1 := bx1 + 50;
      }
    } else {
      return None;
    }
    if sense == 1 {
      return Some([Bubble(bubX, bubY, 25), PinLine(bx1, by1, bx2, by2, whichEnd)]);
    }
    return Some([PinLine(a1, b1, a2, b2, whichEnd)]);
  }

  class Converter {
    var attachPending: bool
    var addAttributes: bool
    var pinAttributes: bool
    var netAttributes: bool
    var complexAttributes: bool
    var pinCount: nat
    var segmentCount: nat
    var readingNet: bool
    const nodesX: array<int>
    const nodesY: array<int>
    var output: seq<Line>

    ghost predicate Valid()
      reads this
    {
      && nodesX.Length == MAX_NODES && nodesY.Length == MAX_NODES && nodesX != nodesY
      && (pinAttributes ==> !netAttributes && !complexAttributes)
      && (netAttributes ==> !complexAttributes)
      && (addAttributes <==> pinAttributes || netAttributes || complexAttributes)
      && (attachPending ==> addAttributes)
    }

    ghost function Context(): Ctx
      reads this, nodesX, nodesY
    {
      Ctx(pinCount, nodesX[..], nodesY[..], segmentCount)
    }

    function Current(): Owner
      reads this
    {
      if netAttributes then NetOwner
      else if complexAttributes then ComplexOwner
      else if pinAttributes then PinOwner
      else NoOwner
    }

    constructor ()
      ensures Valid() && Context() == Start() && Current() == NoOwner && output == []
      ensures fresh(nodesX) && fresh(nodesY)
    {
      attachPending, addAttributes := false, false;
      pinAttributes, netAttributes, complexAttributes := false, false, false;
      pinCount, segmentCount := 0, 0;
      readingNet := false;
      nodesX := new int[MAX_NODES](_ => 0);
      nodesY := new int[MAX_NODES](_ => 0);
      output := [];
    }

    /** begin_attach */
    method BeginAttach()
      requires Valid()
      modifies `attachPending, `output
      ensures Valid() && !attachPending
      ensures output == old(output) + if old(attachPending) then [Open] else []
    {
      if attachPending {
        output := output + [Open];
        attachPending := false;
      }
    }

    /** reset_attributes */
    method ResetAttributes()
      requires Valid()
      modifies `attachPending, `addAttributes, `pinAttributes, `netAttributes, `complexAttributes, `output
      ensures Valid() && Current() == NoOwner && !attachPending
      ensures output == old(output) + if old(addAttributes && !attachPending) then [Close] else []
    {
      if addAttributes && !attachPending {
        output := output + [Close];
      }
      attachPending := false;
      addAttributes := false;
      pinAttributes := false;
      netAttributes := false;
      complexAttributes := false;
    }

    /** do_text, do_line, do_box, do_circle, do_arc */
    method DoShape(tag: char, pieces: nat)
      requires Valid()
      modifies this
      ensures Valid() && Context() == old(Context()) && Current() == NoOwner && !attachPending
      ensures output == old(output) + Closing(old(attachPending), old(Current())) + seq(pieces, _ => Drawn(tag))
    {
      ResetAttributes();
      output := output + seq(pieces, _ => Drawn(tag));
    }

    /** do_unattached_attribute */
    method DoUnattachedAttribute(vis: nat, text: string)
      requires Valid()
      modifies this
      ensures Valid() && Context() == old(Context()) && Current() == NoOwner && !attachPending
      ensures output == old(output) + Closing(old(attachPending), old(Current())) +
                        if vis <= 3 then [Split(text)] else []
    {
      ResetAttributes();
      if vis > 3 { return; }
      output := output + [Split(text)];
    }

    /** do_attached_attribute */
    method DoAttachedAttribute(vis: nat, text: string) returns (o: Outcome)
      requires Valid()
      modifies `attachPending, `output
      ensures Valid() && o == OutcomeOf(old(Context()), old(Current()), Attached(vis, text))
      ensures var a := AttLines(old(Context()), old(Current()), Attached(vis, text));
        o == Fine ==>
        && attachPending == (old(attachPending) && a.None?)
        && output == old(output) + (if old(attachPending) && a.Some? then [Open] else []) + Lines(a)
    {
      if vis > 3 { return Fine; }
      BeginAttach();
      if pinAttributes {
        if "PINTYPE=" <= text {
          var t := PinType(text[8..]);
          if t.None? { return Exited; }
          output := output + [Attribute("pintype", t)];
          return Fine;
        }
        if text != "" && text[0] == '#' {
          output := output + [Attribute("pinseq", Some(DecimalOf(pinCount)))];
          output := output + [Attribute("pinnumber", Some(if |text| < 2 then "" else text[2..]))];
          return Fine;
        }
      }
      output := output + [Split(text)];
      return Fine;
    }

    /** do_label */
    method DoLabel(text: string, overbar: bool)
      requires Valid()
      modifies `attachPending, `output
      ensures Valid() && !attachPending
      ensures output == old(output) + (if old(attachPending) then [Open] else []) +
                        Lines(AttLines(old(Context()), old(Current()), Label(text, overbar)))
    {
      var text2 := if overbar then "~" + text else text;
      var t := text2;
      if netAttributes {
        t := "netname=" + text2;
      } else if complexAttributes {
        t := "refdes=" + text2;
      } else if pinAttributes {
        t := "pinlabel=" + text2;
      }
      assert [] + text2 == text2;
      BeginAttach();
      output := output + [Text(t)];
    }

    /** do_pin */
    method DoPin(x1: int, y1: int, x2: int, y2: int, dir: nat, sense: nat) returns (o: Outcome)
      requires Valid()
      modifies this
      ensures Valid() && o == if dir > 3 then Exited else Fine
      ensures o == Fine ==>
        && Context() == After(old(Context()), Pin(x1, y1, x2, y2, dir, sense))
        && Current() == PinOwner && attachPending
        && output == old(output) + Closing(old(attachPending), old(Current())) +
                     HeadLines(old(Context()), Pin(x1, y1, x2, y2, dir, sense))
    {
      ResetAttributes();
      var lines := PinGeometry(x1 * SCALE, y1 * SCALE, x2 * SCALE, y2 * SCALE, dir, sense);
      if lines.None? { return Exited; }
      output := output + lines.value;
      addAttributes, attachPending, pinAttributes := true, true, true;
      pinCount := pinCount + 1;
      return Fine;
    }

    /** do_net_start */
    method DoNetStart()
      requires Valid()
      modifies this
      ensures Valid() && Context() == After(old(Context()), NetStart) && Current() == NoOwner && !attachPending
      ensures output == old(output) + Closing(old(attachPending), old(Current()))
    {
      ResetAttributes();
      readingNet := true;
      segmentCount := 1;
    }

    /** do_net_node */
    method DoNetNode(x: int, y: int) returns (o: Outcome)
      requires Valid()
      modifies `segmentCount, nodesX, nodesY
      ensures Valid() && o == OutcomeOf(old(Context()), old(Current()), NetNode(x, y))
      ensures o == Fine ==> Context() == After(old(Context()), NetNode(x, y))
    {
      if segmentCount > MAX_NODES { return Exited; }
      if segmentCount == nodesX.Length { return OutOfArray; }
      nodesX[segmentCount] := x * SCALE;
      nodesY[segmentCount] := y * SCALE;
      segmentCount := segmentCount + 1;
      return Fine;
    }

    /** do_net_segment, and do_net_segment_bus when `bus` */
    method DoNetSegment(n1: nat, n2: nat, bus: bool) returns (o: Outcome)
      requires Valid()
      modifies this
      ensures Valid() && o == if n1 < MAX_NODES && n2 < MAX_NODES then Fine else OutOfArray
      ensures o == Fine ==>
        && Context() == old(Context()) && Current() == NetOwner && attachPending
        && output == old(output) + Closing(old(attachPending), old(Current())) +
                     HeadLines(old(Context()), if bus then BusSegment(n1, n2) else NetSegment(n1, n2))
    {
      ResetAttributes();
      if n1 >= nodesX.Length || n2 >= nodesX.Length { return OutOfArray; }
      var line := if bus then BusLine(nodesX[n1], nodesY[n1], nodesX[n2], nodesY[n2])
                  else NetLine(nodesX[n1], nodesY[n1], nodesX[n2], nodesY[n2]);
      output := output + [line];
      addAttributes, attachPending, netAttributes := true, true, true;
      return Fine;
    }

    /** do_instance */
    method DoInstance(name: string, x: int, y: int)
      requires Valid()
      modifies this
      ensures Valid() && Context() == old(Context()) && Current() == ComplexOwner && attachPending
      ensures output == old(output) + Closing(old(attachPending), old(Current())) +
                        [ComplexLine(name, x * SCALE, y * SCALE)]
    {
      ResetAttributes();
      output := output + [ComplexLine(name, x * SCALE, y * SCALE)];
      addAttributes, attachPending, complexAttributes := true, true, true;
    }

    /** The switch of convert_file. */
    method DoRecord(r: Record) returns (o: Outcome)
      requires Valid()
      modifies this, nodesX, nodesY
      ensures Valid() && o == OutcomeOf(old(Context()), old(Current()), r)
      ensures o == Fine ==>
        && Context() == After(old(Context()), r)
        && Current() == (if Resets(r) then OwnerOf(r) else old(Current()))
        && if Resets(r) then
             && attachPending == (OwnerOf(r) != NoOwner)
             && output == old(output) + Closing(old(attachPending), old(Current())) + HeadLines(old(Context()), r)
           else
             var a := AttLines(old(Context()), old(Current()), r);
             && attachPending == (old(attachPending) && a.None?)
             && output == old(output) + (if old(attachPending) && a.Some? then [Open] else []) + Lines(a)
    {
      hide Split, PinType, PinLines, DecimalOf, LabelPrefix, At;
      o := Fine;
      match r
      case Shape(tag, pieces) => DoShape(tag, pieces);
      case Unattached(vis, text) => DoUnattachedAttribute(vis, text);
      case Attached(vis, text) => o := DoAttachedAttribute(vis, text);
      case Pin(x1, y1, x2, y2, dir, sense) => o := DoPin(x1, y1, x2, y2, dir, sense);
      case Label(text, overbar) => DoLabel(text, overbar);
      case NetStart => DoNetStart();
      case NetNode(x, y) => o := DoNetNode(x, y);
      case NetSegment(n1, n2) => o := DoNetSegment(n1, n2, false);
      case BusSegment(n1, n2) => o := DoNetSegment(n1, n2, true);
      case Instance(name, x, y) => DoInstance(name, x, y);
      case Other =>
    }

    /** One record of a run: what the output will be in the end does not change. */
    method DoNext(r: Record, ghost recs: seq<Record>) returns (o: Outcome)
      requires Valid() && recs != [] && recs[0] == r
      modifies this, nodesX, nodesY
      ensures Valid() && o == OutcomeOf(old(Context()), old(Current()), r)
      ensures o == Fine ==>
        && Context() == After(old(Context()), r)
        && Current() == (if Resets(r) then OwnerOf(r) else old(Current()))
        && Finish(output, attachPending, Context(), Current(), recs[1..]) ==
             old(Finish(output, attachPending, Context(), Current(), recs))
    {
      hide HeadLines, AttLines, After, OutcomeOf, Finish, Closing;
      if Resets(r) {
        FinishReset(output, attachPending, Context(), Current(), recs);
      } else {
        FinishAttach(output, attachPending, Context(), Current(), recs);
      }
      NoLines(output);
      o := DoRecord(r);
    }

    /** convert_file, on a freshly started program. */
    method ConvertFile(recs: seq<Record>) returns (o: Outcome)
      requires Valid() && Context() == Start() && Current() == NoOwner && output == []
      modifies this, nodesX, nodesY
      ensures Valid() && o == RunOutcome(Start(), NoOwner, recs)
      ensures o == Fine ==> output == Converted(recs)
    {
      hide HeadLines, AttLines, After, OutcomeOf, Finish, Start;
      StartFinish(recs);
      output := output + [Version];
      ResetAttributes();
      assert output == [Version] && Context() == old(Context());
      var k := 0;
      assert recs[0..] == recs;
      while k < |recs|
        invariant 0 <= k <= |recs| && Valid()
        invariant Finish(output, attachPending, Context(), Current(), recs[k..]) == Converted(recs)
        invariant RunOutcome(Context(), Current(), recs[k..]) == RunOutcome(Start(), NoOwner, recs)
      {
        assert recs[k..][1..] == recs[k + 1..];
        o := DoNext(recs[k], recs[k..]);
        if o != Fine { return; }
        k := k + 1;
      }
      FinishEnd(output, attachPending, Context(), Current());
      assert recs[k..] == [];
      ResetAttributes();
      return Fine;
    }
  }

  lemma StartFinish(recs: seq<Record>)
    ensures Finish([Version], false, Start(), NoOwner, recs) == Converted(recs)
  {
  }

  lemma NoLines(out: seq<Line>)
    ensures forall a: Option<seq<Line>> | a.None? :: out + [] + Lines(a) == out
    ensures forall a: Option<seq<Line>> | a.Some? :: Lines(a) == a.value
  {
  }

  // ---- the blocks of the output ----

  predicate IsOwnerLine(l: Line) {
    l.PinLine? || l.NetLine? || l.BusLine? || l.ComplexLine?
  }

  /** Reading the output: outside any block (right after an owner's line or not), inside one, or stuck. */
  datatype Place = Outside(afterOwner: bool) | Inside | Stuck

  function Read(p: Place, l: Line): Place {
    match p
    case Stuck => Stuck
    case Inside => if l == Close then Outside(false) else if l == Open || IsOwnerLine(l) then Stuck else Inside
    case Outside(afterOwner) =>
      if l == Open then (if afterOwner then Inside else Stuck)
      else if l == Close then Stuck
      else Outside(IsOwnerLine(l))
  }

  function ReadAll(p: Place, lines: seq<Line>): Place {
    if lines == [] then p else Read(ReadAll(p, lines[..|lines| - 1]), lines[|lines| - 1])
  }

  lemma {:induction false} ReadConcat(p: Place, a: seq<Line>, b: seq<Line>)
    ensures ReadAll(p, a + b) == ReadAll(ReadAll(p, a), b)
  {
    if b == [] {
      assert a + b == a;
    } else {
      assert (a + b)[..|a + b| - 1] == a + b[..|b| - 1];
      ReadConcat(p, a, b[..|b| - 1]);
    }
  }

  predicate Inner(lines: seq<Line>) {
    forall l | l in lines :: l != Open && l != Close && !IsOwnerLine(l)
  }

  lemma {:induction false} ReadInner(p: Place, lines: seq<Line>)
    requires Inner(lines)
    ensures p.Inside? ==> ReadAll(p, lines) == Inside
    ensures p.Outside? ==> ReadAll(p, lines).Outside?
  {
    if lines != [] {
      ReadInner(p, lines[..|lines| - 1]);
      assert lines[|lines| - 1] in lines;
    }
  }

  lemma {:induction false} AttachmentsInner(c: Ctx, owner: Owner, recs: seq<Record>)
    ensures Inner(Lines(Attachments(c, owner, recs)))
    decreases |recs|
  {
    if recs != [] && !Resets(recs[0]) {
      AttachmentsInner(After(c, recs[0]), owner, recs[1..]);
    }
  }

  predicate PinsDirected(recs: seq<Record>) {
    forall i | 0 <= i < |recs| && recs[i].Pin? :: recs[i].dir <= 3
  }

  lemma {:induction false} FinePins(c: Ctx, owner: Owner, recs: seq<Record>)
    requires RunOutcome(c, owner, recs) == Fine
    ensures PinsDirected(recs)
    decreases |recs|
  {
    if recs != [] {
      FinePins(After(c, recs[0]), if Resets(recs[0]) then OwnerOf(recs[0]) else owner, recs[1..]);
      assert forall i | 0 < i < |recs| :: recs[i] == recs[1..][i - 1];
    }
  }

  /** The head of an item ends with the owner's line, if it has one. */
  lemma ReadHead(p: Place, c: Ctx, r: Record)
    requires p.Outside? && Resets(r) && (r.Pin? ==> r.dir <= 3)
    ensures ReadAll(p, HeadLines(c, r)).Outside?
    ensures OwnerOf(r) != NoOwner ==> ReadAll(p, HeadLines(c, r)) == Outside(true)
  {
    var lines := HeadLines(c, r);
    if OwnerOf(r) == NoOwner {
      assert Inner(lines);
      ReadInner(p, lines);
    } else {
      assert ReadAll(p, lines[..|lines| - 1]).Outside? by {
        assert Inner(lines[..|lines| - 1]);
        ReadInner(p, lines[..|lines| - 1]);
      }
    }
  }

  lemma ReadBlock(block: Option<seq<Line>>)
    requires Inner(Lines(block))
    ensures ReadAll(Outside(true), Block(block)).Outside?
  {
    if block.Some? {
      var p := Outside(true);
      assert ReadAll(p, [Open]) == Inside;
      ReadConcat(p, [Open], block.value);
      ReadInner(Inside, block.value);
      ReadConcat(p, [Open] + block.value, [Close]);
      assert ReadAll(Inside, [Close]) == Outside(false);
    }
  }

  lemma {:induction false} ReadDocument(p: Place, c: Ctx, recs: seq<Record>)
    requires p.Outside? && (recs != [] ==> Resets(recs[0])) && PinsDirected(recs)
    ensures ReadAll(p, Document(c, recs)).Outside?
    decreases |recs|
  {
    if recs != [] {
      var r, d, o := recs[0], After(c, recs[0]), OwnerOf(recs[0]);
      var att := Attachments(d, o, recs[1..]);
      var body := if o == NoOwner then Lines(att) else Block(att);
      var tail := Document(CtxAtRest(d, recs[1..]), Rest(recs[1..]));
      ReadHead(p, c, r);
      AttachmentsInner(d, o, recs[1..]);
      if o == NoOwner { ReadInner(ReadAll(p, HeadLines(c, r)), body); } else { ReadBlock(att); }
      ReadConcat(p, HeadLines(c, r), body);
      ReadConcat(p, HeadLines(c, r) + body, tail);
      RestDirected(recs[1..]);
      ReadDocument(ReadAll(p, HeadLines(c, r) + body), CtxAtRest(d, recs[1..]), Rest(recs[1..]));
    }
  }

  lemma {:induction false} RestDirected(recs: seq<Record>)
    requires PinsDirected(recs)
    ensures PinsDirected(Rest(recs))
  {
    if recs != [] && !Resets(recs[0]) {
      RestDirected(recs[1..]);
    }
  }

  /**
   For every record sequence the converter accepts: the blocks of its output are balanced and never
   nested, each opens right after the pin, net, bus or instance line it belongs to and holds no such
   line itself, and none is open in the end.
   */
  lemma BlocksBalanced(recs: seq<Record>)
    requires RunOutcome(Start(), NoOwner, recs) == Fine
    ensures ReadAll(Outside(false), Converted(recs)).Outside?
  {
    FinePins(Start(), NoOwner, recs);
    var p := Outside(false);
    var loose := Lines(Attachments(Start(), NoOwner, recs));
    var tail := Document(CtxAtRest(Start(), recs), Rest(recs));
    AttachmentsInner(Start(), NoOwner, recs);
    assert ReadAll(p, [Version]) == Outside(false);
    ReadInner(p, loose);
    ReadConcat(p, [Version], loose);
    ReadConcat(p, [Version] + loose, tail);
    RestDirected(recs);
    ReadDocument(ReadAll(p, [Version] + loose), CtxAtRest(Start(), recs), Rest(recs));
  }

  /** The bubble of an inverted pin lies halfway between the end the pin had and the end it is given. */
  lemma BubbleFillsGap(x1: int, y1: int, x2: int, y2: int, dir: nat)
    requires dir <= 3
    ensures var plain, inverted := PinLines(x1, y1, x2, y2, dir, 0).value, PinLines(x1, y1, x2, y2, dir, 1).value;
      && |plain| == 1 && |inverted| == 2 && plain[0].PinLine? && inverted[0].Bubble? && inverted[1].PinLine?
      && plain[0].whichEnd == inverted[1].whichEnd
      && (if plain[0].whichEnd == 1
          then inverted[1].x2 == x2 && inverted[1].y2 == y2 &&
               2 * inverted[0].x == x1 + inverted[1].x1 && 2 * inverted[0].y == y1 + inverted[1].y1
          else inverted[1].x1 == x1 && inverted[1].y1 == y1 &&
               2 * inverted[0].x == x2 + inverted[1].x2 && 2 * inverted[0].y == y2 + inverted[1].y2)
  {
  }

  // ---- nets ----

  /** The scaled nodes read since the current net started, in order. */
  function NodesSince(recs: seq<Record>): seq<(int, int)> {
    if recs == [] then []
    else
      match recs[|recs| - 1]
      case NetStart => []
      case NetNode(x, y) => NodesSince(recs[..|recs| - 1]) + [(x * SCALE, y * SCALE)]
      case _ => NodesSince(recs[..|recs| - 1])
  }

  function CtxOf(recs: seq<Record>): Ctx {
    if recs == [] then Start() else After(CtxOf(recs[..|recs| - 1]), recs[|recs| - 1])
  }

  /** Once a net has started, its node k (counted from 1) stands at index k of the node table. */
  lemma {:induction false} NodeTable(recs: seq<Record>)
    requires NetStart in recs && |NodesSince(recs)| < MAX_NODES
    ensures var c, nodes := CtxOf(recs), NodesSince(recs);
      && c.Valid() && c.count == 1 + |nodes|
      && forall k | 0 <= k < |nodes| :: c.xs[1 + k] == nodes[k].0 && c.ys[1 + k] == nodes[k].1
  {
    CtxValid(recs);
    var r, before := recs[|recs| - 1], recs[..|recs| - 1];
    if r != NetStart {
      assert recs == before + [r];
      NodeTable(before);
    }
  }

  lemma {:induction false} CtxValid(recs: seq<Record>)
    ensures CtxOf(recs).Valid()
  {
    if recs != [] { CtxValid(recs[..|recs| - 1]); }
  }

  // ---- the limit of the node table ----

  /** What a record on its own refuses: a pin's direction, or a pin type in an attribute of a pin. */
  predicate Refused(owner: Owner, r: Record) {
    || (r.Pin? && r.dir > 3)
    || (r.Attached? && r.vis <= 3 && owner == PinOwner && "PINTYPE=" <= r.text && PinType(r.text[8..]).None?)
  }

  /**
   The records stay inside the node table, which holds nodes `count`.. of the current net: no node
   comes when it is full, and no segment names a node it has no place for. A refused record ends it all.
   */
  predicate Fits(count: nat, owner: Owner, recs: seq<Record>)
    decreases |recs|
  {
    recs == [] ||
    (var r := recs[0];
     Refused(owner, r) ||
     (&& (r.NetNode? ==> count < MAX_NODES)
      && (r.NetSegment? || r.BusSegment? ==> r.n1 < MAX_NODES && r.n2 < MAX_NODES)
      && Fits(if r.NetStart? then 1 else if r.NetNode? then count + 1 else count,
              if Resets(r) then OwnerOf(r) else owner, recs[1..])))
  }

  /** The run leaves the node arrays exactly when the records do not fit. */
  lemma {:induction false} OutOfArrayIff(c: Ctx, owner: Owner, recs: seq<Record>)
    requires c.Valid() && c.count <= MAX_NODES
    ensures RunOutcome(c, owner, recs) == OutOfArray <==> !Fits(c.count, owner, recs)
    decreases |recs|
  {
    if recs != [] && OutcomeOf(c, owner, recs[0]) == Fine {
      OutOfArrayIff(After(c, recs[0]), if Resets(recs[0]) then OwnerOf(recs[0]) else owner, recs[1..]);
    }
  }

  /** From the start of a program: a caller can tell from the records whether the run stays in the arrays. */
  lemma RunStaysInArrays(recs: seq<Record>)
    ensures RunOutcome(Start(), NoOwner, recs) == OutOfArray <==> !Fits(0, NoOwner, recs)
  {
    OutOfArrayIff(Start(), NoOwner, recs);
  }

  function Nodes(n: nat): (r: seq<Record>)
    ensures |r| == n
  {
    seq(n, _ => NetNode(0, 0))
  }

  /** Nodes fit as long as the count stays below the limit. */
  lemma {:induction false} NodesFit(count: nat, owner: Owner, n: nat)
    ensures Fits(count, owner, Nodes(n)) <==> n == 0 || count + n <= MAX_NODES
    decreases n
  {
    if n > 0 {
      assert Nodes(n)[1..] == Nodes(n - 1);
      NodesFit(count + 1, owner, n - 1);
    }
  }

  /** One net that takes every place there is, and one node more: the last is stored behind the arrays. */
  lemma NodeTooMany()
    ensures RunOutcome(Start(), NoOwner, [NetStart] + Nodes(MAX_NODES - 1)) != OutOfArray
    ensures RunOutcome(Start(), NoOwner, [NetStart] + Nodes(MAX_NODES)) == OutOfArray
  {
    forall n: nat ensures Fits(0, NoOwner, [NetStart] + Nodes(n)) <==> n <= MAX_NODES - 1 {
      assert ([NetStart] + Nodes(n))[1..] == Nodes(n);
      NodesFit(1, NoOwner, n);
    }
    RunStaysInArrays([NetStart] + Nodes(MAX_NODES - 1));
    RunStaysInArrays([NetStart] + Nodes(MAX_NODES));
  }

  /** The net and bus lines of an output. */
  function Segments(lines: seq<Line>): seq<Line> {
    if lines == [] then []
    else (if lines[0].NetLine? || lines[0].BusLine? then [lines[0]] else []) + Segments(lines[1..])
  }

  /** What the segment records of a run are to print: the segment of record i between nodes of its own net. */
  function SegmentsOf(recs: seq<Record>): seq<Line> {
    if recs == [] then []
    else
      SegmentsOf(recs[..|recs| - 1]) + SegmentOf(NodesSince(recs[..|recs| - 1]), recs[|recs| - 1])
  }

  function SegmentOf(nodes: seq<(int, int)>, r: Record): seq<Line> {
    match r
    case NetSegment(a, b) =>
      if 1 <= a <= |nodes| && 1 <= b <= |nodes| then
        [NetLine(nodes[a - 1].0, nodes[a - 1].1, nodes[b - 1].0, nodes[b - 1].1)]
      else []
    case BusSegment(a, b) =>
      if 1 <= a <= |nodes| && 1 <= b <= |nodes| then
        [BusLine(nodes[a - 1].0, nodes[a - 1].1, nodes[b - 1].0, nodes[b - 1].1)]
      else []
    case _ => []
  }

  /** Every segment record names two nodes of the net it stands in, and no net has too many nodes. */
  predicate WellFormedNets(recs: seq<Record>) {
    recs == [] ||
    (var before := recs[..|recs| - 1];
     && WellFormedNets(before) && |NodesSince(recs)| < MAX_NODES
     && match recs[|recs| - 1]
        case NetSegment(a, b) => NetStart in before && 1 <= a <= |NodesSince(before)| && 1 <= b <= |NodesSince(before)|
        case BusSegment(a, b) => NetStart in before && 1 <= a <= |NodesSince(before)| && 1 <= b <= |NodesSince(before)|
        case _ => true)
  }

  lemma {:induction false} SegmentsConcat(a: seq<Line>, b: seq<Line>)
    ensures Segments(a + b) == Segments(a) + Segments(b)
  {
    hide Segments;
    FirstSegment(a);
    if a == [] {
      assert a + b == b;
    } else {
      assert (a + b)[1..] == a[1..] + b;
      SegmentsConcat(a[1..], b);
      FirstSegment(a + b);
    }
  }

  lemma FirstSegment(lines: seq<Line>)
    ensures Segments(lines) ==
      if lines == [] then []
      else (if lines[0].NetLine? || lines[0].BusLine? then [lines[0]] else []) + Segments(lines[1..])
  {
  }

  lemma {:induction false} NoSegments(lines: seq<Line>)
    requires forall l | l in lines :: !l.NetLine? && !l.BusLine?
    ensures Segments(lines) == []
  {
    if lines != [] { NoSegments(lines[1..]); }
  }

  /** What the segment records of a run print, from a context on. */
  function Printed(c: Ctx, recs: seq<Record>): seq<Line>
    decreases |recs|
  {
    if recs == [] then []
    else (if recs[0].NetSegment? || recs[0].BusSegment? then HeadLines(c, recs[0]) else []) +
           Printed(After(c, recs[0]), recs[1..])
  }

  lemma {:induction false} SkipPrinted(c: Ctx, recs: seq<Record>)
    ensures Printed(c, recs) == Printed(CtxAtRest(c, recs), Rest(recs))
    decreases |recs|
  {
    if recs != [] && !Resets(recs[0]) { SkipPrinted(After(c, recs[0]), recs[1..]); }
  }

  lemma {:induction false} DocumentSegments(c: Ctx, recs: seq<Record>)
    requires recs != [] ==> Resets(recs[0])
    ensures Segments(Document(c, recs)) == Printed(c, recs)
    decreases |recs|
  {
    if recs != [] {
      hide Segments, HeadLines, Attachments, After, Rest, CtxAtRest;
      var r, d, o := recs[0], After(c, recs[0]), OwnerOf(recs[0]);
      var att := Attachments(d, o, recs[1..]);
      var body := if o == NoOwner then Lines(att) else Block(att);
      var tail := Document(CtxAtRest(d, recs[1..]), Rest(recs[1..]));
      AttachmentsInner(d, o, recs[1..]);
      NoSegments(body);
      HeadSegments(c, r);
      SegmentsConcat(HeadLines(c, r), body);
      SegmentsConcat(HeadLines(c, r) + body, tail);
      DocumentSegments(CtxAtRest(d, recs[1..]), Rest(recs[1..]));
      SkipPrinted(d, recs[1..]);
    }
  }

  lemma HeadSegments(c: Ctx, r: Record)
    ensures Segments(HeadLines(c, r)) == if r.NetSegment? || r.BusSegment? then HeadLines(c, r) else []
  {
    if !r.NetSegment? && !r.BusSegment? { NoSegments(HeadLines(c, r)); }
  }

  lemma {:induction false} PrintedLast(c: Ctx, recs: seq<Record>, r: Record)
    ensures Printed(c, recs + [r]) == Printed(c, recs) +
      if r.NetSegment? || r.BusSegment? then HeadLines(CtxFrom(c, recs), r) else []
    decreases |recs|
  {
    if recs == [] {
      assert recs + [r] == [r];
      assert Printed(After(c, r), [r][1..]) == [];
    } else {
      assert (recs + [r])[1..] == recs[1..] + [r];
      PrintedLast(After(c, recs[0]), recs[1..], r);
    }
  }

  function CtxFrom(c: Ctx, recs: seq<Record>): Ctx
    decreases |recs|
  {
    if recs == [] then c else CtxFrom(After(c, recs[0]), recs[1..])
  }

  lemma {:induction false} CtxFromLast(c: Ctx, recs: seq<Record>, r: Record)
    ensures CtxFrom(c, recs + [r]) == After(CtxFrom(c, recs), r)
    decreases |recs|
  {
    if recs == [] {
      assert recs + [r] == [r];
    } else {
      assert (recs + [r])[1..] == recs[1..] + [r];
      CtxFromLast(After(c, recs[0]), recs[1..], r);
    }
  }

  lemma {:induction false} CtxFromStart(recs: seq<Record>)
    ensures CtxFrom(Start(), recs) == CtxOf(recs)
  {
    if recs != [] {
      CtxFromStart(recs[..|recs| - 1]);
      CtxFromLast(Start(), recs[..|recs| - 1], recs[|recs| - 1]);
      assert recs == recs[..|recs| - 1] + [recs[|recs| - 1]];
    }
  }

  lemma {:induction false} PrintedSegments(recs: seq<Record>)
    requires WellFormedNets(recs)
    ensures Printed(Start(), recs) == SegmentsOf(recs)
  {
    if recs != [] {
      var before, r := recs[..|recs| - 1], recs[|recs| - 1];
      assert WellFormedNets(before) && recs == before + [r];
      hide Printed, HeadLines, SegmentOf, NodesSince, WellFormedNets, CtxFrom, CtxOf, Start;
      PrintedSegments(before);
      SegmentStep(before, r);
      PrintedLast(Start(), before, r);
      CtxFromStart(before);
    }
  }

  /** What a segment record prints joins the two nodes it names. */
  lemma SegmentStep(before: seq<Record>, r: Record)
    requires WellFormedNets(before + [r])
    ensures SegmentOf(NodesSince(before), r) == if r.NetSegment? || r.BusSegment? then HeadLines(CtxOf(before), r) else []
  {
    assert (before + [r])[..|before|] == before;
    if r.NetSegment? || r.BusSegment? {
      SameNet(before, r);
      NodeTable(before);
    }
  }

  lemma SameNet(before: seq<Record>, r: Record)
    requires WellFormedNets(before + [r]) && (r.NetSegment? || r.BusSegment?)
    ensures NetStart in before && |NodesSince(before)| < MAX_NODES
  {
    assert (before + [r])[..|before|] == before;
  }

  /** Well-formed nets stay inside the node table. */
  lemma WellFormedFits(recs: seq<Record>)
    requires WellFormedNets(recs)
    ensures RunOutcome(Start(), NoOwner, recs) != OutOfArray && Fits(0, NoOwner, recs)
  {
    assert recs[0..] == recs && recs[..0] == [];
    WellFormedOutcome(recs, 0, NoOwner);
    RunStaysInArrays(recs);
  }

  lemma {:induction false} WellFormedOutcome(recs: seq<Record>, k: nat, owner: Owner)
    requires WellFormedNets(recs) && k <= |recs|
    ensures RunOutcome(CtxOf(recs[..k]), owner, recs[k..]) != OutOfArray
    decreases |recs| - k
  {
    if k < |recs| {
      var before, r := recs[..k], recs[k];
      WellFormedPrefix(recs, k + 1);
      CountOf(before);
      assert recs[..k + 1][..k] == before && recs[k..][1..] == recs[k + 1..];
      WellFormedOutcome(recs, k + 1, if Resets(r) then OwnerOf(r) else owner);
    }
  }

  lemma {:induction false} WellFormedPrefix(recs: seq<Record>, k: nat)
    requires WellFormedNets(recs) && k <= |recs|
    ensures WellFormedNets(recs[..k])
  {
    if k < |recs| {
      assert recs[..|recs| - 1][..k] == recs[..k];
      WellFormedPrefix(recs[..|recs| - 1], k);
    } else {
      assert recs[..k] == recs;
    }
  }

  lemma {:induction false} CountOf(recs: seq<Record>)
    ensures CtxOf(recs).count <= 1 + |NodesSince(recs)|
  {
    if recs != [] { CountOf(recs[..|recs| - 1]); }
  }

  /**
   For any interleaving of well-formed nets with other records, the net and bus lines printed are,
   in order, exactly the segments the records ask for, between the scaled coordinates of the two
   nodes each names within its own net.
   */
  lemma ConnectionsPreserved(recs: seq<Record>)
    requires WellFormedNets(recs)
    ensures Segments(Converted(recs)) == SegmentsOf(recs)
  {
    var loose := Lines(Attachments(Start(), NoOwner, recs));
    var tail := Document(CtxAtRest(Start(), recs), Rest(recs));
    AttachmentsInner(Start(), NoOwner, recs);
    NoSegments([Version] + loose);
    SegmentsConcat([Version] + loose, tail);
    DocumentSegments(CtxAtRest(Start(), recs), Rest(recs));
    SkipPrinted(Start(), recs);
    PrintedSegments(recs);
  }

  // ---- what the objects and attributes become ----

  /** The end of a pin that connects, and the other one. */
  function Ends(l: Line): (int, int, int, int)
    requires l.PinLine?
  {
    if l.whichEnd == 0 then (l.x1, l.y1, l.x2, l.y2) else (l.x2, l.y2, l.x1, l.y1)
  }

  /**
   A pin connects at its end towards the side it is on: the upper, lower, left or right one, the second
   if the two are level. An inverted pin keeps that end; its other end is 50 units nearer to that side, and
   a bubble 25 units wide stands where it was.
   */
  lemma PinConnects(x1: int, y1: int, x2: int, y2: int, dir: nat, sense: nat)
    ensures PinLines(x1, y1, x2, y2, dir, sense).None? <==> dir > 3
    ensures dir <= 3 && sense != 1 ==>
      exists w: nat :: w <= 1 && var l := PinLine(x1, y1, x2, y2, w);
        && PinLines(x1, y1, x2, y2, dir, sense) == Some([l])
        && var (cx, cy, fx, fy) := Ends(l);
        match dir
        case 0 => cy >= fy && (cy == fy ==> w == 1)
        case 1 => cy <= fy && (cy == fy ==> w == 1)
        case 2 => cx <= fx && (cx == fx ==> w == 1)
        case _ => cx >= fx && (cx == fx ==> w == 1)
    ensures dir <= 3 && sense == 1 ==>
      var plain, inverted := PinLines(x1, y1, x2, y2, dir, 0).value, PinLines(x1, y1, x2, y2, dir, 1).value;
      && |plain| == 1 && |inverted| == 2 && plain[0].PinLine? && inverted[1].PinLine?
      && plain[0].whichEnd == inverted[1].whichEnd
      && var (cx, cy, fx, fy) := Ends(plain[0]);
      match dir
      case 0 => inverted[0] == Bubble(fx, fy + 25, 25) && Ends(inverted[1]) == (cx, cy, fx, fy + 50)
      case 1 => inverted[0] == Bubble(fx, fy - 25, 25) && Ends(inverted[1]) == (cx, cy, fx, fy - 50)
      case 2 => inverted[0] == Bubble(fx - 25, fy, 25) && Ends(inverted[1]) == (cx, cy, fx - 50, fy)
      case _ => inverted[0] == Bubble(fx + 25, fy, 25) && Ends(inverted[1]) == (cx, cy, fx + 50, fy)
  {
    if dir <= 3 && sense != 1 {
      assert PinLines(x1, y1, x2, y2, dir, sense).value[0].whichEnd <= 1;
    }
  }

  lemma {:induction false} IndexAt(name: string, value: string)
    requires '=' !in name
    ensures StrIndex(name + "=" + value, '=') == |name|
  {
    var s := name + "=" + value;
    assert s[|name|] == '=';
    if name != "" {
      assert s[0] == name[0] && s[1..] == name[1..] + "=" + value;
      IndexAt(name[1..], value);
    }
  }

  /** An attribute text is its name and its value around the first equals sign; without one there is no value. */
  lemma SplitIs(name: string, value: string)
    requires '=' !in name
    ensures Split(name + "=" + value) == Attribute(name, Some(value)) && Split(name) == Attribute(name, None)
  {
    var s := name + "=" + value;
    IndexAt(name, value);
    assert s[..|name|] == name && s[|name| + 1..] == value;
  }

  /** The eight pin types. */
  lemma PinTypes(value: string)
    ensures PinType("ANALOG") == Some("pas") && PinType("BI") == Some("io") && PinType("IN") == Some("in")
    ensures PinType("OCL") == Some("oc") && PinType("OEM") == Some("oe") && PinType("OUT") == Some("out")
    ensures PinType("TRI") == Some("tri") && PinType("PWR") == Some("pwr")
    ensures PinType(value).Some? <==> value in ["ANALOG", "BI", "IN", "OCL", "OEM", "OUT", "TRI", "PWR"]
  {
  }

  /** What an attached attribute becomes: itself, but for pin types; invisible kinds above 3 are dropped. */
  lemma AttachedMeans(c: Ctx, owner: Owner, vis: nat, name: string, value: string)
    requires '=' !in name
    ensures var a := AttLines(c, owner, Attached(vis, name + "=" + value));
      && (vis > 3 ==> a.None?)
      && (vis <= 3 && (owner != PinOwner || (name != "PINTYPE" && (name == "" || name[0] != '#'))) ==>
          a == Some([Attribute(name, Some(value))]))
      && (vis <= 3 && owner == PinOwner && name == "PINTYPE" ==>
          forall t | PinType(value) == Some(t) :: a == Some([Attribute("pintype", Some(t))]))
  {
    hide PinType, Split;
    var text := name + "=" + value;
    SplitIs(name, value);
    if "PINTYPE=" <= text {
      assert |name| == 7 by { IndexAt(name, value); IndexAt("PINTYPE", text[8..]); assert text == "PINTYPE" + "=" + text[8..]; }
      assert name == text[..7] == "PINTYPE";
      assert text[8..] == value;
    }
    assert name != "" ==> text[0] == name[0];
  }

  function PinCount(recs: seq<Record>): nat {
    if recs == [] then 0 else PinCount(recs[..|recs| - 1]) + if recs[|recs| - 1].Pin? then 1 else 0
  }

  /** A pin's number is attached together with its place among the pins so far. */
  lemma {:induction false} PinNumbered(recs: seq<Record>, vis: nat, c: char, number: string)
    requires vis <= 3
    ensures AttLines(CtxOf(recs), PinOwner, Attached(vis, ['#', c] + number)) ==
      Some([Attribute("pinseq", Some(DecimalOf(PinCount(recs)))), Attribute("pinnumber", Some(number))])
  {
    PinsCounted(recs);
    var text := ['#', c] + number;
    assert text[0] == '#' && text[2..] == number;
  }

  lemma {:induction false} PinsCounted(recs: seq<Record>)
    ensures CtxOf(recs).pins == PinCount(recs)
  {
    if recs != [] { PinsCounted(recs[..|recs| - 1]); }
  }

  /** What a label reads as. */
  function Labelled(text: string, overbar: bool): string {
    if overbar then "~" + text else text
  }

  /** A labelled instance; drawings are ten times as large in the output. */
  lemma LabelledInstance(name: string, x: int, y: int, text: string, overbar: bool)
    ensures Converted([Instance(name, x, y), Label(text, overbar)]) ==
      [Version, ComplexLine(name, 10 * x, 10 * y), Open, Text("refdes=" + Labelled(text, overbar)), Close]
  {
    OwnerWithLabel(Start(), Instance(name, x, y), text, overbar);
  }

  lemma LabelledPin(x1: int, y1: int, x2: int, y2: int, dir: nat, text: string, overbar: bool)
    requires dir <= 3
    ensures var lines := PinLines(10 * x1, 10 * y1, 10 * x2, 10 * y2, dir, 0);
      Converted([Pin(x1, y1, x2, y2, dir, 0), Label(text, overbar)]) ==
      [Version] + lines.value + [Open, Text("pinlabel=" + Labelled(text, overbar)), Close]
  {
    hide PinLines;
    PinConnects(x1, y1, x2, y2, dir, 0);
    PinConnects(10 * x1, 10 * y1, 10 * x2, 10 * y2, dir, 0);
    OwnerWithLabel(Start(), Pin(x1, y1, x2, y2, dir, 0), text, overbar);
  }

  /** A labelled wire between two nodes; they are counted from 1. */
  lemma LabelledNet(x1: int, y1: int, x2: int, y2: int, text: string, overbar: bool)
    ensures Converted([NetStart, NetNode(x1, y1), NetNode(x2, y2), NetSegment(1, 2), Label(text, overbar)]) ==
      [Version, NetLine(10 * x1, 10 * y1, 10 * x2, 10 * y2), Open, Text("netname=" + Labelled(text, overbar)), Close]
  {
    var recs := [NetStart, NetNode(x1, y1), NetNode(x2, y2), NetSegment(1, 2), Label(text, overbar)];
    var seg, tail := NetSegment(1, 2), [NetSegment(1, 2), Label(text, overbar)];
    var c1, read := After(Start(), NetStart), [NetNode(x1, y1), NetNode(x2, y2)];
    var c3 := After(After(c1, read[0]), read[1]);
    assert recs[1..] == read + tail;
    TwoRead(c1, read, tail);
    hide Document, Attachments, Rest, CtxAtRest;
    DocumentStep(Start(), recs);
    assert c3.xs[1] == 10 * x1 && c3.ys[1] == 10 * y1 && c3.xs[2] == 10 * x2 && c3.ys[2] == 10 * y2;
    OwnerWithLabel(c3, seg, text, overbar);
  }

  lemma TwoRead(c: Ctx, read: seq<Record>, tail: seq<Record>)
    requires |read| == 2 && read[0].NetNode? && read[1].NetNode? && tail != [] && Resets(tail[0])
    ensures var recs := read + tail;
      && Rest(recs) == tail && CtxAtRest(c, recs) == After(After(c, read[0]), read[1])
      && Attachments(c, NoOwner, recs) == None
  {
    hide After;
    var recs := read + tail;
    var r1 := recs[1..];
    var d := After(c, read[0]);
    assert r1[1..] == tail && recs[0] == read[0] && r1[0] == read[1];
    assert Rest(tail) == tail && CtxAtRest(After(d, read[1]), tail) == After(d, read[1]);
    assert Attachments(After(d, read[1]), NoOwner, tail) == None;
    assert Rest(r1) == tail && CtxAtRest(d, r1) == After(d, read[1]) && Attachments(d, NoOwner, r1) == None;
  }

  lemma OwnerWithLabel(c: Ctx, r: Record, text: string, overbar: bool)
    requires Resets(r) && OwnerOf(r) != NoOwner
    ensures Document(c, [r, Label(text, overbar)]) ==
      HeadLines(c, r) + [Open, Text(LabelPrefix(OwnerOf(r)) + Labelled(text, overbar)), Close]
  {
    hide HeadLines;
    var recs, rest := [r, Label(text, overbar)], [Label(text, overbar)];
    assert recs[1..] == rest && rest[1..] == [];
    var d, o := After(c, r), OwnerOf(r);
    var line := Text(LabelPrefix(o) + Labelled(text, overbar));
    assert Attachments(d, o, rest) == Some([line]);
    assert Block(Some([line])) == [Open, line, Close];
    assert Rest(rest) == [] && Document(CtxAtRest(d, rest), []) == [];
  }

  /** An attribute that belongs to nothing prints itself, invisible kinds above 3 apart. */
  lemma UnattachedMeans(c: Ctx, vis: nat, name: string, value: string)
    requires '=' !in name
    ensures HeadLines(c, Unattached(vis, name + "=" + value)) == if vis <= 3 then [Attribute(name, Some(value))] else []
  {
    SplitIs(name, value);
  }

  /** A net of two nodes with wires between any of them is well-formed; a wire to a third is not. */
  lemma TwoNodes(x1: int, y1: int, x2: int, y2: int, a: nat, b: nat, bus: bool)
    ensures var wire := if bus then BusSegment(a, b) else NetSegment(a, b);
      WellFormedNets([NetStart, NetNode(x1, y1), NetNode(x2, y2), wire]) <==> 1 <= a <= 2 && 1 <= b <= 2
  {
    var wire := if bus then BusSegment(a, b) else NetSegment(a, b);
    var r1 := [NetStart];
    var r2 := [NetStart, NetNode(x1, y1)];
    var r3 := [NetStart, NetNode(x1, y1), NetNode(x2, y2)];
    var r4 := [NetStart, NetNode(x1, y1), NetNode(x2, y2), wire];
    assert r4[..3] == r3 && r3[..2] == r2 && r2[..1] == r1 && r1[..0] == [];
    assert NetStart in r3 by { assert r3[0] == NetStart; }
    assert NetStart in r2 by { assert r2[0] == NetStart; }
    assert NodesSince(r1) == [];
    assert |NodesSince(r2)| == 1;
    assert |NodesSince(r3)| == 2;
    assert |NodesSince(r4)| == 2;
    assert WellFormedNets([]);
    assert WellFormedNets(r1);
    assert WellFormedNets(r2);
    assert WellFormedNets(r3);
    assert r4[3] == wire;
  }
}
