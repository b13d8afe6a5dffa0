/** The stack automaton of src/json_parse.c. */
module JsonParse {
  import opened Bytes
  import opened Values
  import Cstr
  import Numbers

  datatype Expect = ExpectValue | ExpectEnd | ExpectColon | ExpectComma

  /** `JsonError`, and the case in which the C code reads past a terminator. */
  datatype JsonError =
    | Success
    | Fatal
    | Inval
    | Mismatch
    | ExtraData
    | MissingComma
    | MissingColon
    | MissingValue
    | OverRead

  /** `expect2err` */
  function ExpectError(want: Expect): JsonError {
    match want
    case ExpectValue => MissingValue
    case ExpectEnd => ExtraData
    case ExpectColon => MissingColon
    case ExpectComma => MissingComma
  }

  /**
   * What lies on the parser's stack. A torn label is a string whose whole text was dropped
   * by decoding: `str_unrepr` then leaves it without a terminator (see StrObject).
   */
  datatype Item = Obj(v: V) | TornLabel

  predicate IsString(item: Item) {
    item.TornLabel? || item.v.Str?
  }

  predicate IsMap(item: Item) {
    item.Obj? && item.v.Map?
  }

  predicate IsList(item: Item) {
    item.Obj? && item.v.List?
  }

  function Top(stack: seq<Item>): Item
    requires stack != []
  {
    stack[|stack| - 1]
  }

  function Pop(stack: seq<Item>): seq<Item>
    requires stack != []
  {
    stack[..|stack| - 1]
  }

  /** `append_to_parent` */
  function AppendToParent(stack: seq<Item>, v: V): (seq<Item>, JsonError) {
    if stack == [] then ([Obj(v)], Success)
    else if IsList(Top(stack)) then (Pop(stack) + [Obj(List(Top(stack).v.items + [v]))], Success)
    else if IsString(Top(stack)) then
      var below := Pop(stack);
      if below == [] then (below, ExtraData)
      else if !IsMap(Top(below)) then (below, Fatal)
      else if Top(stack).TornLabel? then (below, OverRead)
      else
        var key := CStringOf(Top(stack).v.text);
        (Pop(below) + [Obj(Map(MapSet(Top(below).v.entries, key, v)))], Success)
    else (stack, ExtraData)
  }

  // ---- scanners ------------------------------------------------------------------------

  /** Where the scan for the closing quote ends. */
  datatype Scan = Closed(quote: nat) | Unclosed | RanOut

  /** The loop of `parse_string`: a backslash hides the character behind it. */
  function ScanFrom(s: CString, pos: nat): (r: Scan)
    ensures r.Closed? ==> pos <= r.quote < |s| && s[r.quote] == '"'
    decreases |s| - pos
  {
    if pos > |s| then RanOut
    else if pos == |s| then Unclosed
    else if s[pos] == '"' then Closed(pos)
    else if s[pos] == '\\' then ScanFrom(s, pos + 2)
    else ScanFrom(s, pos + 1)
  }

  datatype Parsed = NoString | BadString | String(text: Bytes, torn: bool, offset: nat)

  predicate HasBackslash(s: Bytes) {
    exists i :: 0 <= i < |s| && s[i] == '\\'
  }

  /** `parse_string` on text that starts with a quote; BadString reads past the terminator. */
  function ParseString(s: CString): (r: Parsed)
    requires s != []
    ensures r.String? ==> 2 <= r.offset <= |s|
  {
    match ScanFrom(s, 1)
    case Unclosed => NoString
    case RanOut => BadString
    case Closed(quote) =>
      var raw := s[1..quote];
      if !HasBackslash(raw) then String(raw, false, quote + 1)
      else
        match Cstr.Unrepr(raw)
        case None => BadString
        case Some(text) => String(text, text == [], quote + 1)
  }

  /** `parse_string`: the scan remembers whether it met a backslash. */
  method ScanString(s: CString) returns (r: Parsed)
    requires s != []
    ensures r == ParseString(s)
  {
    var pos := 1;
    var unrepr := false;
    while pos <= |s| && At(s, pos) != '"'
      invariant 1 <= pos
      invariant ScanFrom(s, pos) == ScanFrom(s, 1)
      invariant pos <= |s| ==> (unrepr <==> HasBackslash(s[1..pos]))
      decreases |s| - pos
    {
      ghost var start := pos;
      if At(s, pos) == '\\' {
        pos := pos + 1;
        unrepr := true;
      } else if At(s, pos) == NUL {
        return NoString;
      }
      pos := pos + 1;
      if pos <= |s| {
        BackslashInPrefix(s, start, pos);
      }
    }
    if pos > |s| {
      return BadString;
    }
    if !unrepr {
      return String(s[1..pos], false, pos + 1);
    }
    match Cstr.Unrepr(s[1..pos])
    case None => return BadString;
    case Some(text) => return String(text, text == [], pos + 1);
  }

  lemma BackslashInPrefix(s: Bytes, a: nat, b: nat)
    requires 1 <= a < b <= |s| && (b == a + 1 || (b == a + 2 && s[a] == '\\'))
    ensures HasBackslash(s[1..b]) <==> HasBackslash(s[1..a]) || s[a] == '\\'
  {
    assert s[1..b][a - 1] == s[a];
    assert forall k :: 0 <= k < a - 1 ==> s[1..b][k] == s[1..a][k];
  }

  predicate StartsWith(s: Bytes, word: Bytes) {
    |word| <= |s| && s[..|word|] == word
  }

  /** The value in front and the bytes it takes; None for text that starts no primitive. */
  function ParsePrimitive(s: CString): (r: Option<(V, nat)>)
    requires s != []
    ensures r.Some? ==> 1 <= r.value.1 <= |s| && WellFormed(r.value.0) && !r.value.0.Str?
  {
    if IsDigit(s[0]) || s[0] == '-' then
      Numbers.ToNumberInside(s);
      match Numbers.ToNumber(s)
      case None => None
      case Some((Integer(n), offset)) => Some((Int(n), offset))
      case Some((Floating(lexeme), offset)) => Some((Double(lexeme), offset))
    else if s[0] == 't' || s[0] == 'f' then
      if StartsWith(s, "true") then Some((Bool(true), 4))
      else if StartsWith(s, "false") then Some((Bool(false), 5))
      else None
    else if s[0] == 'n' && StartsWith(s, "null") then Some((Null, 4))
    else None
  }

  // ---- the automaton -------------------------------------------------------------------

  datatype State = State(stack: seq<Item>, want: Expect, err: JsonError)

  const INITIAL := State([], ExpectValue, Success)

  /** A value that is complete: it goes to its parent, and a comma may follow. */
  function Complete(stack: seq<Item>, v: V): State {
    var (s, err) := AppendToParent(stack, v);
    State(s, ExpectComma, err)
  }

  function OpenContainer(c: byte, st: State): State {
    if st.want == ExpectValue then
      st.(stack := st.stack + [Obj(if c == '{' then Map([]) else List([]))])
    else
      st.(err := ExpectError(st.want))
  }

  function CloseContainer(c: byte, st: State): State {
    if |st.stack| > 1 then
      var obj := Top(st.stack);
      if (c == '}' && IsMap(obj)) || (c == ']' && IsList(obj)) then
        Complete(Pop(st.stack), obj.v)
      else
        State(Pop(st.stack), ExpectComma, Mismatch)
    else if |st.stack| == 1 then st.(want := ExpectEnd)
    else st.(err := Inval)
  }

  function TakeString(s: CString, st: State): (nat, State)
    requires s != []
  {
    if st.want != ExpectValue then (0, st.(err := ExpectError(st.want)))
    else
      match ParseString(s)
      case NoString => (0, st.(err := Inval))
      case BadString => (0, st.(err := OverRead))
      case String(text, torn, offset) =>
        if st.stack != [] && IsMap(Top(st.stack)) then
          (offset, State(st.stack + [if torn then TornLabel else Obj(Str(text))], ExpectColon, Success))
        else
          (offset, Complete(st.stack, Str(text)))
  }

  function TakePrimitive(s: CString, st: State): (nat, State)
    requires s != []
  {
    if st.want != ExpectValue then (0, st.(err := ExpectError(st.want)))
    else
      match ParsePrimitive(s)
      case None => (0, st.(err := Inval))
      case Some((v, offset)) => (offset, Complete(st.stack, v))
  }

  /** One round of the parser's loop on the text that is left: bytes taken and new state. */
  function Step(s: CString, st: State): (r: (nat, State))
    requires s != []
  {
    var c := s[0];
    if IsSpace(c) then (1, st)
    else if c == '{' || c == '[' then (1, OpenContainer(c, st))
    else if c == '}' || c == ']' then (1, CloseContainer(c, st))
    else if c == '"' then TakeString(s, st)
    else if c == ':' then
      (1, if st.want == ExpectColon then st.(want := ExpectValue) else st.(err := ExpectError(st.want)))
    else if c == ',' then
      (1, if st.want == ExpectComma then st.(want := ExpectValue) else st.(err := ExpectError(st.want)))
    else TakePrimitive(s, st)
  }

  /** Every round that does not fail advances, and none leaves the text. */
  lemma StepAdvances(s: CString, st: State)
    requires s != [] && st.err == Success
    ensures Step(s, st).0 <= |s|
    ensures Step(s, st).1.err == Success ==> Step(s, st).0 >= 1
  {
  }

  /** The loop: it ends at the end of the text or with the first error. */
  function Run(s: CString, st: State): State
    decreases |s|
  {
    if s == [] || st.err != Success then st
    else
      StepAdvances(s, st);
      var (n, next) := Step(s, st);
      if next.err != Success then next else Run(s[n..], next)
  }

  /** `json_parse_to_obj`: the root object, None for a NULL pointer, and the error. */
  function Parse(cstr: CString): (Option<V>, JsonError) {
    Result(Run(cstr, INITIAL))
  }

  function Result(st: State): (Option<V>, JsonError) {
    if st.err != Success then (None, st.err)
    else (if st.stack == [] || st.stack[0].TornLabel? then None else Some(st.stack[0].v), Success)
  }

  /** What one round does to the rest of the run. */
  lemma RunRound(cstr: CString, start: nat, st: State, n: nat, next: State)
    requires start < |cstr| && st.err == Success
    requires Step(cstr[start..], st) == (n, next)
    ensures start + n <= |cstr|
    ensures next.err == Success ==> n > 0
    ensures Run(cstr[start + n..], next) == Run(cstr[start..], st)
  {
    StepAdvances(cstr[start..], st);
    DropDrop(cstr, start, n);
  }

  lemma RunEnds(cstr: CString, pos: nat, st: State)
    requires pos <= |cstr| && (st.err != Success || pos == |cstr|)
    ensures Run(cstr[pos..], st) == st
  {
  }

  // ---- the loop of the C function ------------------------------------------------------

  method OpenRound(c: byte, st: State) returns (next: State)
    ensures next == OpenContainer(c, st)
  {
    var stack, err := st.stack, st.err;
    if st.want == ExpectValue {
      var obj := if c == '{' then Map([]) else List([]);
      stack := stack + [Obj(obj)];
    } else {
      err := ExpectError(st.want);
    }
    return State(stack, st.want, err);
  }

  method CloseRound(c: byte, st: State) returns (next: State)
    ensures next == CloseContainer(c, st)
  {
    var stack, want, err := st.stack, st.want, st.err;
    if |stack| > 1 {
      var obj := Top(stack);
      stack := Pop(stack);
      if (c == '}' && IsMap(obj)) || (c == ']' && IsList(obj)) {
        var (after, e) := AppendToParent(stack, obj.v);
        stack, err := after, e;
      } else {
        err := Mismatch;
      }
      want := ExpectComma;
    } else if |stack| == 1 {
      want := ExpectEnd;
    } else {
      err := Inval;
    }
    return State(stack, want, err);
  }

  method StringRound(s: CString, st: State) returns (offset: nat, next: State)
    requires s != [] && st.err == Success
    ensures (offset, next) == TakeString(s, st)
  {
    if st.want != ExpectValue {
      return 0, st.(err := ExpectError(st.want));
    }
    var parsed := ScanString(s);
    match parsed
    case NoString => return 0, st.(err := Inval);
    case BadString => return 0, st.(err := OverRead);
    case String(text, torn, length) =>
      var stack, want, err := st.stack, st.want, st.err;
      if stack != [] && IsMap(Top(stack)) {
        stack := stack + [if torn then TornLabel else Obj(Str(text))];
        want := ExpectColon;
      } else {
        var (after, e) := AppendToParent(stack, Str(text));
        stack, err := after, e;
        want := ExpectComma;
      }
      return length, State(stack, want, err);
  }

  method PrimitiveRound(s: CString, st: State) returns (offset: nat, next: State)
    requires s != []
    ensures (offset, next) == TakePrimitive(s, st)
  {
    if st.want != ExpectValue {
      return 0, st.(err := ExpectError(st.want));
    }
    match ParsePrimitive(s)
    case None => return 0, st.(err := Inval);
    case Some((v, length)) =>
      var (after, e) := AppendToParent(st.stack, v);
      return length, State(after, ExpectComma, e);
  }

  /** The branches of the loop. */
  method Round(s: CString, st: State) returns (offset: nat, next: State)
    requires s != [] && st.err == Success
    ensures (offset, next) == Step(s, st)
  {
    hide OpenContainer;
    hide CloseContainer;
    hide TakeString;
    hide TakePrimitive;
    var c := s[0];
    offset, next := 1, st;
    if IsSpace(c) {
    } else if c == '{' || c == '[' {
      next := OpenRound(c, st);
    } else if c == '}' || c == ']' {
      next := CloseRound(c, st);
    } else if c == '"' {
      offset, next := StringRound(s, st);
    } else if c == ':' {
      if st.want == ExpectColon {
        next := st.(want := ExpectValue);
      } else {
        next := st.(err := ExpectError(st.want));
      }
    } else if c == ',' {
      if st.want == ExpectComma {
        next := st.(want := ExpectValue);
      } else {
        next := st.(err := ExpectError(st.want));
      }
    } else {
      offset, next := PrimitiveRound(s, st);
    }
  }

  /** `json_parse_to_obj` */
  method JsonParseToObj(cstr: CString) returns (root: Option<V>, err: JsonError)
    ensures (root, err) == Parse(cstr)
  {
    hide Run;
    hide Step;
    var pos := 0;
    var st := INITIAL;
    root := None;
    assert cstr[0..] == cstr;
    while st.err == Success && At(cstr, pos) != NUL
      invariant 0 <= pos <= |cstr|
      invariant Run(cstr[pos..], st) == Run(cstr, INITIAL)
      decreases st.err == Success, |cstr| - pos
    {
      var offset, next := Round(cstr[pos..], st);
      RunRound(cstr, pos, st, offset, next);
      pos, st := pos + offset, next;
    }
    RunEnds(cstr, pos, st);
    err := st.err;
    if err == Success && st.stack != [] && st.stack[0].Obj? {
      root := Some(st.stack[0].v);
    }
  }
}
