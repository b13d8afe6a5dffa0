/** Which error the parser reports: by the kind of the token, what is expected and what lies on the stack. */
module JsonErrors {
  import opened Bytes
  import opened Values
  import opened JsonText
  import opened JsonParse
  import opened JsonInvariant
  import opened JsonOverRead
  import opened JsonRoundTrip
  import opened JsonUnclosed
  import Cstr
  import Numbers
  import NumberTokens

  datatype Kind = Blank | Opener | Closer | Quote | ColonMark | CommaMark | Word

  /** The structural characters of section 2 of RFC 8259, quotes, and what can only begin a word. */
  function KindOf(c: byte): Kind {
    if IsSpace(c) then Blank
    else if c in "[{" then Opener
    else if c in "]}" then Closer
    else if c == '"' then Quote
    else if c == ':' then ColonMark
    else if c == ',' then CommaMark
    else Word
  }

  predicate BeginsValue(kind: Kind) {
    kind == Opener || kind == Quote || kind == Word
  }

  /** The token is what is expected; white space and closers are looked at in any case. */
  predicate Fitting(kind: Kind, want: Expect) {
    || kind == Blank
    || kind == Closer
    || (want == ExpectValue && BeginsValue(kind))
    || (want == ExpectColon && kind == ColonMark)
    || (want == ExpectComma && kind == CommaMark)
  }

  /** The error names what is missing, or says that nothing more is expected. */
  predicate Names(err: JsonError, want: Expect) {
    && (err == MissingValue <==> want == ExpectValue)
    && (err == MissingColon <==> want == ExpectColon)
    && (err == MissingComma <==> want == ExpectComma)
    && (err == ExtraData <==> want == ExpectEnd)
  }

  /** A complete value finds its place: alone, in a list or behind a label. */
  predicate HasPlace(stack: seq<Item>) {
    stack == [] || IsList(Top(stack)) || (|stack| > 1 && IsString(Top(stack)))
  }

  /** What becomes of a value that is complete. */
  predicate Placed(err: JsonError, stack: seq<Item>) {
    err == if UnderTorn(stack) then OverRead else if HasPlace(stack) then Success else ExtraData
  }

  /** The closer does not match the innermost container, or there is none. */
  predicate ClosingFails(err: JsonError, c: byte, stack: seq<Item>) {
    if stack == [] then err == Inval
    else if |stack| == 1 then err == Success
    else if Closes(c, stack) then Placed(err, Pop(stack))
    else err == Mismatch
  }

  /** A string without a closing quote is invalid; a label needs no place. */
  predicate StringFails(err: JsonError, s: CString, stack: seq<Item>)
    requires s != []
  {
    if StringOverruns(s) then err == OverRead
    else if ScanFrom(s, 1).Unclosed? then err == Inval
    else if stack != [] && IsMap(Top(stack)) then err == Success
    else Placed(err, stack)
  }

  predicate WordFails(err: JsonError, s: CString, stack: seq<Item>)
    requires s != []
  {
    if ParsePrimitive(s).None? then err == Inval else Placed(err, stack)
  }

  /** What the round on this token has to report; Success if it does not fail. */
  predicate Reports(err: JsonError, s: CString, st: State)
    requires s != []
  {
    var kind := KindOf(s[0]);
    if !Fitting(kind, st.want) then Names(err, st.want)
    else
      && (kind == Closer ==> ClosingFails(err, s[0], st.stack))
      && (kind == Quote ==> StringFails(err, s, st.stack))
      && (kind == Word ==> WordFails(err, s, st.stack))
      && (kind == Blank || kind == Opener || kind == ColonMark || kind == CommaMark ==> err == Success)
  }

  /** There is one error to report. */
  lemma ReportsOnce(a: JsonError, b: JsonError, s: CString, st: State)
    requires s != [] && Reports(a, s, st) && Reports(b, s, st)
    ensures a == b
  {
    hide StringOverruns;
    hide ParsePrimitive;
    hide ScanFrom;
  }

  lemma CompletePlaced(stack: seq<Item>, v: V)
    requires Layered(stack)
    ensures Placed(Complete(stack, v).err, stack)
  {
    hide MapSet;
    if stack != [] {
      LayeredPop(stack);
    }
  }

  lemma CloseReports(c: byte, st: State)
    requires Layered(st.stack) && st.err == Success && (c == '}' || c == ']')
    ensures ClosingFails(CloseContainer(c, st).err, c, st.stack)
  {
    hide Complete;
    hide Placed;
    if |st.stack| > 1 {
      LayeredPop(st.stack);
      if Top(st.stack).Obj? {
        CompletePlaced(Pop(st.stack), Top(st.stack).v);
      }
    }
  }

  lemma StringReports(s: CString, st: State)
    requires s != [] && Layered(st.stack) && st.err == Success && st.want == ExpectValue
    ensures StringFails(TakeString(s, st).1.err, s, st.stack)
  {
    hide Complete;
    hide Placed;
    hide StringOverruns;
    hide Cstr.Unrepr;
    BadStringIff(s);
    NoStringIff(s);
    if ParseString(s).String? {
      CompletePlaced(st.stack, Str(ParseString(s).text));
    }
  }

  lemma NoStringIff(s: CString)
    requires s != []
    ensures ParseString(s).NoString? <==> ScanFrom(s, 1).Unclosed?
  {
    hide ScanFrom;
    hide Cstr.Unrepr;
  }

  lemma WordReports(s: CString, st: State)
    requires s != [] && Layered(st.stack) && st.err == Success && st.want == ExpectValue
    ensures WordFails(TakePrimitive(s, st).1.err, s, st.stack)
  {
    hide Complete;
    hide Placed;
    hide ParsePrimitive;
    if ParsePrimitive(s).Some? {
      CompletePlaced(st.stack, ParsePrimitive(s).value.0);
    }
  }

  /** Main result, for one round: it reports what token, expectation and stack call for. */
  lemma StepReports(s: CString, st: State)
    requires s != [] && Layered(st.stack) && st.err == Success
    ensures Reports(Step(s, st).1.err, s, st)
  {
    hide CloseContainer;
    hide ClosingFails;
    hide StringFails;
    hide WordFails;
    hide ParsePrimitive;
    hide ParseString;
    var c, kind := s[0], KindOf(s[0]);
    if kind == Closer {
      CloseReports(c, st);
    } else if kind == Quote && st.want == ExpectValue {
      StringReports(s, st);
    } else if kind == Word && st.want == ExpectValue {
      WordReports(s, st);
    }
  }

  // ---- words ----------------------------------------------------------------------------

  /** A digit, or a minus in front of a digit, a point with a digit, infinity or NaN. */
  predicate BeginsNumber(s: Bytes)
    requires s != []
  {
    || IsDigit(s[0])
    || (s[0] == '-' &&
        (|| IsDigit(At(s, 1)) || (At(s, 1) == '.' && IsDigit(At(s, 2)))
         || Numbers.IgnoringCaseAt(s, 1, "inf") || Numbers.IgnoringCaseAt(s, 1, "nan")))
  }

  /** Main result: the three literal names of section 3 of RFC 8259 and numbers are words, and nothing else. */
  lemma WordsAre(s: CString)
    requires s != []
    ensures ParsePrimitive(s).Some? <==>
              "true" <= s || "false" <= s || "null" <= s || BeginsNumber(s)
    ensures "true" <= s ==> ParsePrimitive(s) == Some((Bool(true), 4))
    ensures "false" <= s ==> ParsePrimitive(s) == Some((Bool(false), 5))
    ensures "null" <= s ==> ParsePrimitive(s) == Some((Null, 4))
    ensures BeginsNumber(s) ==>
              var (value, length) := ParsePrimitive(s).value;
              value.Int? || (value.Double? && value.lexeme == s[..Min(length, |s|)])
  {
    if IsDigit(s[0]) || s[0] == '-' {
      NumberTokens.NumberIff(s);
      hide Numbers.IgnoringCaseAt;
      hide Numbers.StrtodEnd;
      hide Numbers.StrtolAny;
    }
  }

  // ---- whole runs ----------------------------------------------------------------------

  /** The round behind the first `k` is the first that fails, and has to report this error. */
  predicate FailsAt(s: CString, st: State, k: nat, err: JsonError) {
    var (rest, now) := After(s, st, k);
    rest != [] && now.err == Success && err != Success && Reports(err, rest, now)
  }

  lemma FailsNow(s: CString, st: State, err: JsonError)
    ensures FailsAt(s, st, 0, err) <==> s != [] && st.err == Success && err != Success && Reports(err, s, st)
  {
    hide Reports;
  }

  lemma FailsLater(s: CString, st: State, n: nat, next: State, k: nat, err: JsonError)
    requires s != [] && st.err == Success && Step(s, st) == (n, next)
    ensures n <= |s|
    ensures FailsAt(s, st, k + 1, err) <==> next.err == Success && FailsAt(s[n..], next, k, err)
  {
    hide Reports;
    hide Step;
    StepAdvances(s, st);
  }

  lemma {:induction false} RunFails(s: CString, st: State) returns (k: nat)
    requires Inv(st) && st.err == Success && Run(s, st).err != Success
    ensures FailsAt(s, st, k, Run(s, st).err)
    decreases |s|
  {
    k := 0;
    if s != [] {
      StepAdvances(s, st);
      StepReports(s, st);
      StepKeeps(s, st);
      FailsNow(s, st, Run(s, st).err);
      var (n, next) := Step(s, st);
      hide Step;
      hide Inv;
      hide FailsAt;
      hide Reports;
      if next.err == Success {
        k := RunFails(s[n..], next);
        FailsLater(s, st, n, next, k, Run(s, st).err);
        k := k + 1;
      }
    }
  }

  lemma {:induction false} FailsEnd(s: CString, st: State, k: nat, err: JsonError)
    requires Inv(st) && st.err == Success && FailsAt(s, st, k, err)
    ensures Run(s, st).err == err
    decreases k
  {
    if s != [] {
      StepAdvances(s, st);
      StepReports(s, st);
      StepKeeps(s, st);
      var (n, next) := Step(s, st);
      FailsNow(s, st, err);
      hide Step;
      hide Inv;
      hide FailsAt;
      hide Reports;
      if k > 0 {
        FailsLater(s, st, n, next, k - 1, err);
        FailsEnd(s[n..], next, k - 1, err);
      } else {
        ReportsOnce(err, next.err, s, st);
      }
    }
  }

  /** Main result: the parser ends with an error exactly when the first round that fails has to report it. */
  lemma ErrorIff(cstr: CString, err: JsonError)
    requires err != Success
    ensures Parse(cstr).1 == err <==> exists k: nat :: FailsAt(cstr, INITIAL, k, err)
  {
    hide Run;
    hide FailsAt;
    assert Inv(INITIAL);
    if Parse(cstr).1 == err {
      var k := RunFails(cstr, INITIAL);
    }
    if k: nat :| FailsAt(cstr, INITIAL, k, err) {
      FailsEnd(cstr, INITIAL, k, err);
    }
  }

  // ---- what is missing behind complete text ----------------------------------------------

  /** The round behind white space fails on a token that does not fit. */
  lemma UnfitEnds(blank: Bytes, rest: CString, st: State)
    requires AllSpaces(blank) && st.err == Success
    requires rest != [] && !Fitting(KindOf(rest[0]), st.want)
    ensures NulFree(blank + rest)
    ensures Names(Run(blank + rest, st).err, st.want)
  {
    RunSpaces(blank, rest, st);
  }

  /** Behind a complete value anything but a comma or a closer is a missing comma, as in `[1 2]`. */
  lemma CommaMissing(v: V, depth: nat, pad: Pads, blank: Bytes, rest: CString, stack: seq<Item>)
    requires OnlySpaces(pad) && Printable(v) && AllSpaces(blank) && EndsValue(blank + rest) && Accepts(stack)
    requires rest != [] && !Fitting(KindOf(rest[0]), ExpectComma)
    ensures NulFree(Laid(v, depth, pad) + (blank + rest))
    ensures Run(Laid(v, depth, pad) + (blank + rest), State(stack, ExpectValue, Success)).err == MissingComma
  {
    hide Laid;
    hide Run;
    hide Accepts;
    hide Fitting;
    ValueRuns(v, depth, pad, blank + rest, stack);
    UnfitEnds(blank, rest, Complete(stack, v));
  }

  /** Behind the label in a map anything but a colon or a closer is a missing colon. */
  lemma ColonMissing(key: Bytes, blank: Bytes, rest: CString, stack: seq<Item>)
    requires stack != [] && IsMap(Top(stack)) && AllSpaces(blank)
    requires rest != [] && !Fitting(KindOf(rest[0]), ExpectColon)
    ensures NulFree(Cstr.Repr(key) + (blank + rest))
    ensures Run(Cstr.Repr(key) + (blank + rest), State(stack, ExpectValue, Success)).err == MissingColon
  {
    hide Run;
    hide Cstr.Repr;
    hide Fitting;
    LabelTaken(key, blank, rest, stack);
    UnfitEnds([], rest, State(stack + [Obj(Str(key))], ExpectColon, Success));
    EmptyFront(rest);
  }

  /** Behind the text of a root container anything but closers is extra data. */
  lemma DataBehind(v: V, depth: nat, pad: Pads, blank: Bytes, rest: CString)
    requires IsContainer(v) && OnlySpaces(pad) && Printable(v) && AllSpaces(blank)
    requires rest != [] && !Fitting(KindOf(rest[0]), ExpectEnd)
    ensures NulFree(Laid(v, depth, pad) + (blank + rest))
    ensures Parse(Laid(v, depth, pad) + (blank + rest)) == (None, ExtraData)
  {
    hide Run;
    hide Fitting;
    hide OpenText;
    var close: Bytes := if v.List? then "]" else "}";
    var filled := Filled([], v, IsEmpty(v));
    LaidIsOpened(v, depth, pad);
    NulFreeParts(blank, rest);
    OpenedRuns(v, depth, pad, close + (blank + rest), []);
    Assoc(OpenText(v, depth, pad), close, blank + rest);
    RunToken(close, blank + rest, filled, filled.(want := ExpectEnd));
    UnfitEnds(blank, rest, filled.(want := ExpectEnd));
  }

  lemma LaidIsOpened(v: V, depth: nat, pad: Pads)
    requires IsContainer(v)
    ensures Laid(v, depth, pad) == OpenText(v, depth, pad) + if v.List? then "]" else "}"
  {
  }
}
