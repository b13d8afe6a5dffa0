/** What the parser guarantees for every input, well-formed JSON or not. */
module JsonInvariant {
  import opened Bytes
  import opened Values
  import opened JsonText
  import opened JsonParse
  import opened JsonRoundTrip
  import Cstr
  import Numbers

  /** A label sits directly on a map; everything else above the bottom is a container. */
  ghost predicate MaySitOn(below: Item, item: Item) {
    if IsString(item) then IsMap(below) else IsMap(item) || IsList(item)
  }

  ghost predicate Layered(stack: seq<Item>) {
    && (stack != [] ==> stack[0].Obj?)
    && forall j, k :: 0 <= j < k < |stack| && k == j + 1 ==> MaySitOn(stack[j], stack[k])
  }

  lemma LayeredPush(stack: seq<Item>, item: Item)
    requires Layered(stack)
    requires if stack == [] then item.Obj? else MaySitOn(Top(stack), item)
    ensures Layered(stack + [item])
  {
  }

  lemma LayeredPop(stack: seq<Item>)
    requires Layered(stack) && stack != []
    ensures Layered(Pop(stack))
    ensures |stack| > 1 ==> MaySitOn(Top(Pop(stack)), Top(stack))
  {
  }

  ghost predicate HoldsWellFormed(stack: seq<Item>) {
    forall k :: 0 <= k < |stack| && stack[k].Obj? ==> WellFormed(stack[k].v)
  }

  ghost predicate Inv(st: State) {
    && Layered(st.stack)
    && HoldsWellFormed(st.stack)
    && (st.want == ExpectColon ==> |st.stack| > 1 && IsString(Top(st.stack)))
    && st.err != Fatal
  }

  lemma AppendKeeps(stack: seq<Item>, v: V)
    requires Layered(stack) && HoldsWellFormed(stack) && WellFormed(v)
    ensures Layered(AppendToParent(stack, v).0) && HoldsWellFormed(AppendToParent(stack, v).0)
    ensures AppendToParent(stack, v).1 != Fatal
    ensures AppendToParent(stack, v).1 == Success ==> AppendToParent(stack, v).0 != []
  {
    if stack == [] {
      LayeredPush([], Obj(v));
    } else {
      LayeredPop(stack);
      var below := Pop(stack);
      if IsList(Top(stack)) {
        LayeredPush(below, Obj(List(Top(stack).v.items + [v])));
      } else if IsString(Top(stack)) && below != [] {
        LayeredPop(below);
        if Top(stack).Obj? {
          var key := CStringOf(Top(stack).v.text);
          MapSetWellFormed(Top(below).v.entries, key, v);
          LayeredPush(Pop(below), Obj(Map(MapSet(Top(below).v.entries, key, v))));
        }
      }
    }
  }

  lemma MapSetWellFormed(entries: seq<Entry>, key: CString, value: V)
    requires WellFormed(Map(entries)) && WellFormed(value)
    ensures WellFormed(Map(MapSet(entries, key, value)))
  {
    MapSetGet(entries, key, value, key);
  }

  lemma CloseKeeps(c: byte, st: State)
    requires Inv(st) && st.err == Success
    ensures Inv(CloseContainer(c, st))
    ensures CloseContainer(c, st).err == Success ==> CloseContainer(c, st).stack != []
  {
    if |st.stack| > 1 {
      LayeredPop(st.stack);
      if Top(st.stack).Obj? {
        AppendKeeps(Pop(st.stack), Top(st.stack).v);
      }
    }
  }

  lemma OpenKeeps(c: byte, st: State)
    requires Inv(st) && st.err == Success
    ensures Inv(OpenContainer(c, st))
    ensures OpenContainer(c, st).err == Success ==> OpenContainer(c, st).stack != []
  {
    if st.want == ExpectValue {
      LayeredPush(st.stack, Obj(if c == '{' then Map([]) else List([])));
    }
  }

  lemma StringKeeps(s: CString, st: State)
    requires s != [] && Inv(st) && st.err == Success
    ensures Inv(TakeString(s, st).1)
    ensures TakeString(s, st).1.err == Success ==> TakeString(s, st).1.stack != []
  {
    if st.want == ExpectValue && ParseString(s).String? {
      var String(text, torn, offset) := ParseString(s);
      if st.stack != [] && IsMap(Top(st.stack)) {
        LayeredPush(st.stack, if torn then TornLabel else Obj(Str(text)));
      } else {
        AppendKeeps(st.stack, Str(text));
      }
    }
  }

  lemma PrimitiveKeeps(s: CString, st: State)
    requires s != [] && Inv(st) && st.err == Success
    ensures Inv(TakePrimitive(s, st).1)
    ensures TakePrimitive(s, st).1.err == Success ==> TakePrimitive(s, st).1.stack != []
  {
    if st.want == ExpectValue && ParsePrimitive(s).Some? {
      AppendKeeps(st.stack, ParsePrimitive(s).value.0);
    }
  }

  /** Every round keeps the invariant; only white space leaves an empty stack empty. */
  lemma StepKeeps(s: CString, st: State)
    requires s != [] && Inv(st) && st.err == Success
    ensures Inv(Step(s, st).1)
    ensures Step(s, st).1.err == Success && (st.stack != [] || (st.want == ExpectValue && !IsSpace(s[0])))
            ==> Step(s, st).1.stack != []
  {
    hide Inv;
    hide OpenContainer;
    hide CloseContainer;
    hide TakeString;
    hide TakePrimitive;
    OpenKeeps(s[0], st);
    CloseKeeps(s[0], st);
    StringKeeps(s, st);
    PrimitiveKeeps(s, st);
    WantKeeps(st);
  }

  lemma WantKeeps(st: State)
    requires Inv(st)
    ensures Inv(st.(want := ExpectValue)) && Inv(st.(err := ExpectError(st.want)))
    ensures ExpectError(st.want) != Success
    ensures st.want == ExpectColon ==> st.stack != []
  {
    hide Layered;
    hide HoldsWellFormed;
  }

  lemma {:induction false} RunKeeps(s: CString, st: State)
    requires Inv(st)
    ensures Inv(Run(s, st))
    ensures Run(s, st).err == Success && st.stack != [] ==> Run(s, st).stack != []
    decreases |s|
  {
    if s != [] && st.err == Success {
      StepAdvances(s, st);
      StepKeeps(s, st);
      var (n, next) := Step(s, st);
      if next.err == Success {
        RunKeeps(s[n..], next);
      }
    }
  }

  /** Main result: for every text the internal error is unreachable and the tree is well-formed. */
  lemma ParseIsSafe(cstr: CString)
    ensures Parse(cstr).1 != Fatal
    ensures Parse(cstr).0.Some? ==> Parse(cstr).1 == Success && WellFormed(Parse(cstr).0.value)
    ensures Parse(cstr) == (None, Success) <==> AllSpaces(cstr)
  {
    RunKeeps(cstr, INITIAL);
    RootUnlessBlank(cstr);
  }

  lemma {:induction false} RootUnlessBlank(s: CString)
    ensures Run(s, INITIAL).err == Success ==> (Run(s, INITIAL).stack == [] <==> AllSpaces(s))
    ensures AllSpaces(s) ==> Run(s, INITIAL) == INITIAL
    decreases |s|
  {
    if s != [] {
      StepAdvances(s, INITIAL);
      StepKeeps(s, INITIAL);
      var (n, next) := Step(s, INITIAL);
      if IsSpace(s[0]) {
        RootUnlessBlank(s[1..]);
        assert s == [s[0]] + s[1..];
      } else if next.err == Success {
        RunKeeps(s[n..], next);
      }
    }
  }

  // ---- leniency ------------------------------------------------------------------------

  predicate IsContainer(v: V) {
    v.List? || v.Map?
  }

  predicate IsEmpty(v: V)
    requires IsContainer(v)
  {
    if v.List? then v.items == [] else v.entries == []
  }

  /** The text of a container without its closing bracket. */
  function OpenText(v: V, depth: nat, pad: Pads): Bytes
    requires IsContainer(v)
  {
    if v.List? then "[" + LaidItems(v.items, depth, pad) else "{" + LaidEntries(v.entries, depth, pad)
  }

  lemma OpenedRuns(v: V, depth: nat, pad: Pads, end: CString, stack: seq<Item>)
    requires IsContainer(v) && Printable(v) && OnlySpaces(pad) && EndsValue(end)
    ensures NulFree(OpenText(v, depth, pad) + end)
    ensures Run(OpenText(v, depth, pad) + end, State(stack, ExpectValue, Success)) ==
            Run(end, Filled(stack, v, IsEmpty(v)))
  {
    hide Run;
    if v.List? {
      ListRuns(v.items, depth, pad, end, stack);
      Assoc("[", LaidItems(v.items, depth, pad), end);
    } else {
      MapRuns(v.entries, depth, pad, end, stack);
      Assoc("{", LaidEntries(v.entries, depth, pad), end);
    }
  }

  predicate IsCloser(c: byte) {
    c == ']' || c == '}'
  }

  /** Closers, commas and white space. */
  predicate OnlyEnders(s: Bytes) {
    forall i :: 0 <= i < |s| ==> IsCloser(s[i]) || s[i] == ',' || IsSpace(s[i])
  }

  predicate NoComma(s: Bytes) {
    forall i :: 0 <= i < |s| ==> s[i] != ','
  }

  /** At most one comma, and no closer in front of it. */
  predicate CommaFirst(s: Bytes) {
    forall i, j :: 0 <= j < i < |s| && s[i] == ',' ==> IsSpace(s[j])
  }

  lemma EndersEnd(end: Bytes)
    requires OnlyEnders(end)
    ensures EndsValue(end)
  {
  }

  /** With only the root on the stack, every closer is accepted, and a comma only where one is expected. */
  lemma {:induction false} RootEnds(end: Bytes, root: Item, want: Expect)
    requires OnlyEnders(end) && want != ExpectColon
    ensures NulFree(end)
    ensures var st := Run(end, State([root], want, Success));
            && st.stack == [root]
            && (st.err == Success <==> if want == ExpectComma then CommaFirst(end) else NoComma(end))
            && (st.err != Success ==> st.err == MissingValue || st.err == ExtraData)
    decreases |end|
  {
    if end != [] {
      var c, rest := end[0], end[1..];
      var st := State([root], want, Success);
      EndersEnd(end);
      EndersTail(end);
      var next := if IsSpace(c) then want else if c == ',' then ExpectValue else ExpectEnd;
      RootEnds(rest, root, next);
      RootStep(end, root, want);
    }
  }

  lemma RootStep(end: CString, root: Item, want: Expect)
    requires OnlyEnders(end) && end != [] && want != ExpectColon
    ensures var c, st := end[0], State([root], want, Success);
            Run(end, st) == if IsSpace(c) then Run(end[1..], st)
                            else if c == ',' && want != ExpectComma then st.(err := ExpectError(want))
                            else Run(end[1..], st.(want := if c == ',' then ExpectValue else ExpectEnd))
  {
    hide CloseContainer;
    CloseRoot(end[0], root, want);
  }

  lemma CloseRoot(c: byte, root: Item, want: Expect)
    ensures CloseContainer(c, State([root], want, Success)) == State([root], ExpectEnd, Success)
  {
  }

  lemma EndersTail(end: Bytes)
    requires OnlyEnders(end) && end != []
    ensures OnlyEnders(end[1..])
    ensures NoComma(end) <==> end[0] != ',' && NoComma(end[1..])
    ensures CommaFirst(end) <==> if IsSpace(end[0]) then CommaFirst(end[1..]) else NoComma(end[1..])
  {
    var rest := end[1..];
    assert forall i :: 0 <= i < |rest| ==> rest[i] == end[i + 1];
    if CommaFirst(end) {
      forall i, j | 0 <= j < i < |rest| && rest[i] == ','
        ensures IsSpace(rest[j])
      {
        assert end[i + 1] == ',' && IsSpace(end[j + 1]);
      }
      if !IsSpace(end[0]) {
        forall i | 0 <= i < |rest|
          ensures rest[i] != ','
        {
          assert rest[i] == end[i + 1];
        }
      }
    }
    if !CommaFirst(end) {
      var i, j :| 0 <= j < i < |end| && end[i] == ',' && !IsSpace(end[j]);
      assert rest[i - 1] == ',';
      if j > 0 {
        assert !IsSpace(rest[j - 1]);
      }
    }
  }

  /**
   * Main result: closers of the root are not matched. Behind the text of a root container any
   * closers, right or wrong, any number of them or none, are accepted if and only if at most
   * one comma stands among them and in front of all, and none when the container is empty
   * (unlike in section 5 of RFC 8259).
   */
  lemma RootCloserIgnored(v: V, depth: nat, pad: Pads, end: Bytes)
    requires IsContainer(v) && Printable(v) && OnlySpaces(pad) && OnlyEnders(end)
    ensures NulFree(OpenText(v, depth, pad) + end)
    ensures Parse(OpenText(v, depth, pad) + end) == (Some(v), Success)
       <==> if IsEmpty(v) then NoComma(end) else CommaFirst(end)
  {
    hide Run;
    hide OpenText;
    hide NoComma;
    hide CommaFirst;
    EndersEnd(end);
    OpenedRuns(v, depth, pad, end, []);
    assert Filled([], v, IsEmpty(v)).stack == [Obj(v)];
    RootEnds(end, Obj(v), if IsEmpty(v) then ExpectValue else ExpectComma);
  }

  /**
   * A container inside another one: a comma may stand in front of its closer here too, unless
   * the container is empty, but the closer has to match.
   */
  lemma NestedCloserMatched(v: V, depth: nat, pad: Pads, blank: Bytes, comma: bool, c: byte, rest: CString,
                            stack: seq<Item>)
    requires IsContainer(v) && Printable(v) && OnlySpaces(pad) && AllSpaces(blank) && IsCloser(c)
    requires Accepts(stack)
    ensures var end := (if comma then "," else []) + (blank + ([c] + rest));
            && NulFree(OpenText(v, depth, pad) + end)
            && Run(OpenText(v, depth, pad) + end, State(stack, ExpectValue, Success)) ==
               if comma && IsEmpty(v) then State(stack + [Obj(v)], ExpectValue, MissingValue)
               else if c == (if v.List? then ']' else '}') then Run(rest, Complete(stack, v))
               else State(stack, ExpectComma, Mismatch)
  {
    hide Run;
    hide OpenText;
    hide Accepts;
    hide Complete;
    hide IsEmpty;
    var tail: CString := blank + ([c] + rest);
    OpenedRuns(v, depth, pad, (if comma then "," else []) + tail, stack);
    SpacedClose(blank, c, rest, stack, v, ExpectComma);
    SpacedClose(blank, c, rest, stack, v, ExpectValue);
    CommaBehind(tail, stack, v);
    EmptyFront(tail);
  }

  /** A comma behind a container that is filled, or empty. */
  lemma CommaBehind(tail: CString, stack: seq<Item>, v: V)
    requires IsContainer(v)
    ensures Run("," + tail, Filled(stack, v, IsEmpty(v))) ==
            if IsEmpty(v) then State(stack + [Obj(v)], ExpectValue, MissingValue)
            else Run(tail, State(stack + [Obj(v)], ExpectValue, Success))
  {
    if !IsEmpty(v) {
      RunToken(",", tail, Filled(stack, v, false), State(stack + [Obj(v)], ExpectValue, Success));
    }
  }

  lemma SpacedClose(blank: Bytes, c: byte, rest: CString, stack: seq<Item>, v: V, want: Expect)
    requires AllSpaces(blank) && IsContainer(v) && IsCloser(c) && Accepts(stack)
    ensures NulFree(blank + ([c] + rest))
    ensures Run(blank + ([c] + rest), State(stack + [Obj(v)], want, Success)) ==
            if c == (if v.List? then ']' else '}') then Run(rest, Complete(stack, v))
            else State(stack, ExpectComma, Mismatch)
  {
    hide Run;
    hide Accepts;
    hide Complete;
    NestedClose(c, rest, stack, v, want);
    RunSpaces(blank, [c] + rest, State(stack + [Obj(v)], want, Success));
  }

  lemma NestedClose(c: byte, rest: CString, stack: seq<Item>, v: V, want: Expect)
    requires IsContainer(v) && IsCloser(c) && Accepts(stack)
    ensures NulFree([c] + rest)
    ensures Run([c] + rest, State(stack + [Obj(v)], want, Success)) ==
            if c == (if v.List? then ']' else '}') then Run(rest, Complete(stack, v))
            else State(stack, ExpectComma, Mismatch)
  {
    assert Pop(stack + [Obj(v)]) == stack && Top(stack + [Obj(v)]) == Obj(v);
    var st := State(stack + [Obj(v)], want, Success);
    if c == (if v.List? then ']' else '}') {
      CompleteAccepted(stack, v);
      RunToken([c], rest, st, Complete(stack, v));
    }
  }

  lemma CompleteAccepted(stack: seq<Item>, v: V)
    requires Accepts(stack)
    ensures Complete(stack, v).err == Success
  {
  }
}
