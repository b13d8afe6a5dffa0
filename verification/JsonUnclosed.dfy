/** Texts that end in the middle: containers that are never closed are lost without an error. */
module JsonUnclosed {
  import opened Bytes
  import opened Values
  import opened JsonText
  import opened JsonParse
  import opened JsonRoundTrip
  import opened JsonInvariant
  import Cstr
  import Numbers

  /** A container that stays open, with what is complete in it, and the label of what follows in a map. */
  datatype Open = Open(v: V, label_: Bytes)

  /** The token behind which the text of an open container ends or goes on. */
  datatype Cut = AtEnd | BehindComma | BehindLabel | BehindColon

  function CommaText(c: Open, depth: nat, pad: Pads): Bytes
    requires IsContainer(c.v)
  {
    if IsEmpty(c.v) then [] else "," + pad(depth, AfterComma)
  }

  /** What stands behind the complete children. */
  function GlueText(c: Open, depth: nat, pad: Pads, cut: Cut): Bytes
    requires IsContainer(c.v)
  {
    match cut
    case AtEnd => []
    case BehindComma => CommaText(c, depth, pad)
    case BehindLabel =>
      CommaText(c, depth, pad) + if c.v.Map? then Cstr.Repr(c.label_) + pad(depth, BeforeColon) else []
    case BehindColon =>
      CommaText(c, depth, pad) +
      if c.v.Map? then Cstr.Repr(c.label_) + (pad(depth, BeforeColon) + ":" + pad(depth, AfterColon)) else []
  }

  /** Open containers, each one inside the one before, cut off behind a token of the last. */
  function UnclosedText(chain: seq<Open>, depth: nat, pad: Pads, cut: Cut): Bytes
    requires forall i :: 0 <= i < |chain| ==> IsContainer(chain[i].v)
  {
    if chain == [] then []
    else
      OpenText(chain[0].v, depth, pad) +
      (GlueText(chain[0], depth, pad, if |chain| == 1 then cut else BehindColon)
       + UnclosedText(chain[1..], depth + 1, pad, cut))
  }

  /** The state behind the cut. */
  function CutState(stack: seq<Item>, c: Open, cut: Cut): State
    requires IsContainer(c.v)
  {
    var open := stack + [Obj(c.v)];
    match cut
    case AtEnd => Filled(stack, c.v, IsEmpty(c.v))
    case BehindComma => State(open, ExpectValue, Success)
    case BehindLabel =>
      if c.v.Map? then State(open + [Obj(Str(c.label_))], ExpectColon, Success) else State(open, ExpectValue, Success)
    case BehindColon => State(if c.v.Map? then open + [Obj(Str(c.label_))] else open, ExpectValue, Success)
  }

  /** An open container in front of text that may follow its children. */
  lemma OpenRuns(v: V, depth: nat, pad: Pads, end: CString, stack: seq<Item>)
    requires IsContainer(v) && Printable(v) && OnlySpaces(pad) && (IsEmpty(v) || EndsValue(end))
    ensures NulFree(OpenText(v, depth, pad) + end)
    ensures Run(OpenText(v, depth, pad) + end, State(stack, ExpectValue, Success)) ==
            Run(end, Filled(stack, v, IsEmpty(v)))
  {
    hide Run;
    if EndsValue(end) {
      OpenedRuns(v, depth, pad, end, stack);
    } else {
      EmptyRuns(v, depth, pad, end, stack);
    }
  }

  lemma EmptyRuns(v: V, depth: nat, pad: Pads, end: CString, stack: seq<Item>)
    requires IsContainer(v) && IsEmpty(v) && OnlySpaces(pad)
    ensures NulFree(OpenText(v, depth, pad) + end)
    ensures Run(OpenText(v, depth, pad) + end, State(stack, ExpectValue, Success)) ==
            Run(end, Filled(stack, v, true))
  {
    hide Run;
    var c: Bytes := if v.List? then "[" else "{";
    var begun := Filled(stack, v, true);
    RunSpaces(pad(depth, Closing), end, begun);
    RunToken(c, pad(depth, Closing) + end, State(stack, ExpectValue, Success), begun);
    Assoc(c, pad(depth, Closing), end);
  }

  lemma CommaRuns(c: Open, depth: nat, pad: Pads, rest: CString, stack: seq<Item>)
    requires IsContainer(c.v) && OnlySpaces(pad)
    ensures NulFree(CommaText(c, depth, pad) + rest) && (!IsEmpty(c.v) ==> EndsValue(CommaText(c, depth, pad) + rest))
    ensures Run(CommaText(c, depth, pad) + rest, Filled(stack, c.v, IsEmpty(c.v))) ==
            Run(rest, State(stack + [Obj(c.v)], ExpectValue, Success))
  {
    hide Run;
    if IsEmpty(c.v) {
      EmptyFront(rest);
    } else {
      RunComma([], pad(depth, AfterComma), rest, stack + [Obj(c.v)]);
      assert [] + "," == ",";
    }
  }

  lemma LabelTaken(label_: Bytes, before: Bytes, rest: CString, stack: seq<Item>)
    requires stack != [] && IsMap(Top(stack)) && AllSpaces(before)
    ensures NulFree(Cstr.Repr(label_) + (before + rest))
    ensures Run(Cstr.Repr(label_) + (before + rest), State(stack, ExpectValue, Success)) ==
            Run(rest, State(stack + [Obj(Str(label_))], ExpectColon, Success))
  {
    hide Run;
    hide Cstr.ReprBody;
    hide ParseString;
    var labelled := State(stack + [Obj(Str(label_))], ExpectColon, Success);
    RunSpaces(before, rest, labelled);
    ReprParsed(label_, before + rest);
    var s: CString := Cstr.Repr(label_) + (before + rest);
    assert s[0] == '"';
    NulFreeParts(Cstr.Repr(label_), before + rest);
    RunToken(Cstr.Repr(label_), before + rest, State(stack, ExpectValue, Success), labelled);
  }

  lemma ColonTaken(before: Bytes, after: Bytes, rest: CString, stack: seq<Item>)
    requires AllSpaces(before) && AllSpaces(after)
    ensures NulFree(before + ":" + after + rest)
    ensures Run(before + ":" + after + rest, State(stack, ExpectColon, Success)) ==
            Run(rest, State(stack, ExpectValue, Success))
  {
    RunColon(before, after, rest, stack);
  }

  /** From an opening bracket to the cut, or to the next opening bracket. */
  lemma GlueRuns(c: Open, depth: nat, pad: Pads, cut: Cut, rest: CString, stack: seq<Item>)
    requires IsContainer(c.v) && Printable(c.v) && OnlySpaces(pad) && (cut.AtEnd? ==> rest == [])
    ensures NulFree(OpenText(c.v, depth, pad) + (GlueText(c, depth, pad, cut) + rest))
    ensures Run(OpenText(c.v, depth, pad) + (GlueText(c, depth, pad, cut) + rest), State(stack, ExpectValue, Success))
         == Run(rest, CutState(stack, c, cut))
  {
    hide Run;
    hide OpenText;
    hide CommaText;
    hide IsEmpty;
    hide Printable;
    hide OnlySpaces;
    if cut.AtEnd? {
      NothingEnds();
      OpenRuns(c.v, depth, pad, [], stack);
      assert [] + rest == [];
    } else {
      var open := stack + [Obj(c.v)];
      var label_ := GlueLabel(c, depth, pad, cut);
      var tail := label_ + rest;
      GlueSplit(c, depth, pad, cut, rest);
      LabelRuns(c, depth, pad, cut, rest, open);
      CommaRuns(c, depth, pad, tail, stack);
      OpenRuns(c.v, depth, pad, CommaText(c, depth, pad) + tail, stack);
    }
  }

  lemma NothingEnds()
    ensures EndsValue([])
  {
  }

  function GlueLabel(c: Open, depth: nat, pad: Pads, cut: Cut): Bytes {
    if !c.v.Map? || !(cut.BehindLabel? || cut.BehindColon?) then []
    else
      Cstr.Repr(c.label_) +
      if cut.BehindLabel? then pad(depth, BeforeColon) else pad(depth, BeforeColon) + ":" + pad(depth, AfterColon)
  }

  lemma GlueSplit(c: Open, depth: nat, pad: Pads, cut: Cut, rest: Bytes)
    requires IsContainer(c.v) && !cut.AtEnd?
    ensures GlueText(c, depth, pad, cut) + rest ==
            CommaText(c, depth, pad) + (GlueLabel(c, depth, pad, cut) + rest)
  {
    hide CommaText;
    Assoc(CommaText(c, depth, pad), GlueLabel(c, depth, pad, cut), rest);
    assert CommaText(c, depth, pad) + [] == CommaText(c, depth, pad);
  }

  lemma LabelRuns(c: Open, depth: nat, pad: Pads, cut: Cut, rest: CString, open: seq<Item>)
    requires IsContainer(c.v) && OnlySpaces(pad) && !cut.AtEnd? && open != [] && Top(open) == Obj(c.v)
    ensures NulFree(GlueLabel(c, depth, pad, cut) + rest)
    ensures Run(GlueLabel(c, depth, pad, cut) + rest, State(open, ExpectValue, Success)) ==
            Run(rest, CutState(Pop(open), c, cut))
  {
    hide Run;
    hide Cstr.Repr;
    assert Pop(open) + [Obj(c.v)] == open;
    var before, after := pad(depth, BeforeColon), pad(depth, AfterColon);
    if !c.v.Map? || cut.BehindComma? {
      EmptyFront(rest);
    } else if cut.BehindLabel? {
      LabelTaken(c.label_, before, rest, open);
      Assoc(Cstr.Repr(c.label_), before, rest);
    } else {
      var labelled := open + [Obj(Str(c.label_))];
      ColonTaken(before, after, rest, labelled);
      var colon: CString := before + ":" + after + rest;
      EmptyFront(colon);
      LabelTaken(c.label_, [], colon, open);
      Assoc(Cstr.Repr(c.label_), before + ":" + after, rest);
    }
  }

  lemma {:induction false} ChainRuns(chain: seq<Open>, depth: nat, pad: Pads, cut: Cut, stack: seq<Item>)
    returns (st: State)
    requires chain != [] && OnlySpaces(pad)
    requires forall i :: 0 <= i < |chain| ==> IsContainer(chain[i].v) && Printable(chain[i].v)
    ensures NulFree(UnclosedText(chain, depth, pad, cut))
    ensures Run(UnclosedText(chain, depth, pad, cut), State(stack, ExpectValue, Success)) == st
    ensures st.err == Success && stack + [Obj(chain[0].v)] <= st.stack
    decreases |chain|
  {
    hide Run;
    hide GlueText;
    hide OpenText;
    hide IsEmpty;
    hide Printable;
    hide OnlySpaces;
    var rest := chain[1..];
    if rest == [] {
      GlueRuns(chain[0], depth, pad, cut, [], stack);
      st := CutState(stack, chain[0], cut);
      RunsNowhere(st);
    } else {
      st := ChainRuns(rest, depth + 1, pad, cut, CutState(stack, chain[0], BehindColon).stack);
      GlueRuns(chain[0], depth, pad, BehindColon, UnclosedText(rest, depth + 1, pad, cut), stack);
    }
  }

  lemma RunsNowhere(st: State)
    ensures Run([], st) == st
  {
  }

  /**
   * Main result: a text that is cut off behind any token of any open container, however deep, is
   * accepted. What comes out is the outermost container with the children that were complete;
   * the open ones inside it, and a last label, are lost.
   */
  lemma UnclosedAccepted(chain: seq<Open>, depth: nat, pad: Pads, cut: Cut)
    requires chain != [] && OnlySpaces(pad)
    requires forall i :: 0 <= i < |chain| ==> IsContainer(chain[i].v) && Printable(chain[i].v)
    ensures NulFree(UnclosedText(chain, depth, pad, cut))
    ensures Parse(UnclosedText(chain, depth, pad, cut)) == (Some(chain[0].v), Success)
  {
    hide Run;
    hide UnclosedText;
    hide Printable;
    hide OnlySpaces;
    var st := ChainRuns(chain, depth, pad, cut, []);
    assert [] + [Obj(chain[0].v)] == [Obj(chain[0].v)];
    assert st.stack[0] == Obj(chain[0].v);
  }

  /** "[1, [2" is read as "[1]". */
  lemma InnerLost()
    ensures Parse("[1, [2") == (Some(List([Int(1)])), Success)
  {
    hide Parse;
    hide OpenText;
    hide Printable;
    var one, two := Open(List([Int(1)]), []), Open(List([Int(2)]), []);
    var chain := [one, two];
    DigitList(1, '1', 0);
    DigitList(2, '2', 1);
    PadsAreSpaces();
    TwoOpen(one, two);
    UnclosedAccepted(chain, 0, CompactPad, AtEnd);
    assert UnclosedText(chain, 0, CompactPad, AtEnd) == "[" + ['1'] + (", " + ("[" + ['2']));
    assert "[" + ['1'] + (", " + ("[" + ['2'])) == "[1, [2";
  }

  lemma DigitList(n: nat, c: byte, depth: nat)
    requires n < 10 && c as int == '0' as int + n
    ensures OpenText(List([Int(n)]), depth, CompactPad) == "[" + [c] && Printable(List([Int(n)]))
  {
    assert Numbers.Dec(n) == [c];
    assert Laid(Int(n), depth + 1, CompactPad) == [c];
    assert LaidRest([Int(n)], depth, CompactPad) == [c] + [];
    assert [] + ([c] + []) == [c];
  }

  lemma TwoOpen(one: Open, two: Open)
    requires one.v.List? && two.v.List? && !IsEmpty(one.v)
    ensures UnclosedText([one, two], 0, CompactPad, AtEnd) ==
            OpenText(one.v, 0, CompactPad) + (", " + OpenText(two.v, 1, CompactPad))
  {
    hide OpenText;
    hide UnclosedText;
    hide GlueText;
    hide IsEmpty;
    UnclosedCons([one, two], 0, CompactPad, AtEnd);
    UnclosedCons([two], 1, CompactPad, AtEnd);
    TailsOf(one, two);
    UnclosedNone(2, CompactPad, AtEnd);
    GlueCompact(one, two);
    NothingBehind(OpenText(two.v, 1, CompactPad));
  }

  lemma TailsOf<T>(x: T, y: T)
    ensures [x, y][1..] == [y] && [y][1..] == []
  {
  }

  lemma NothingBehind(s: Bytes)
    ensures s + ([] + []) == s
  {
  }

  lemma GlueCompact(one: Open, two: Open)
    requires one.v.List? && two.v.List? && !IsEmpty(one.v)
    ensures GlueText(one, 0, CompactPad, BehindColon) == ", " && GlueText(two, 1, CompactPad, AtEnd) == []
  {
    assert "," + " " == ", " && ", " + [] == ", ";
  }

  lemma UnclosedCons(chain: seq<Open>, depth: nat, pad: Pads, cut: Cut)
    requires chain != [] && forall i :: 0 <= i < |chain| ==> IsContainer(chain[i].v)
    ensures UnclosedText(chain, depth, pad, cut) ==
            OpenText(chain[0].v, depth, pad) +
            (GlueText(chain[0], depth, pad, if |chain| == 1 then cut else BehindColon)
             + UnclosedText(chain[1..], depth + 1, pad, cut))
  {
  }

  lemma UnclosedNone(depth: nat, pad: Pads, cut: Cut)
    ensures UnclosedText([], depth, pad, cut) == []
  {
  }
}
