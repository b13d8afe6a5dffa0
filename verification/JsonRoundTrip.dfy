/** Parsing undoes printing: compact text, pretty text, and every layout of a tree. */
module JsonRoundTrip {
  import opened Bytes
  import opened Values
  import opened JsonText
  import opened JsonParse
  import Cstr
  import Numbers
  import NumberTokens
  import Utf8

  /** Every double is named by the text of a number with a fraction or an exponent. */
  ghost predicate SpeltDoubles(v: V) {
    match v
    case Double(lexeme) => NumberTokens.IsFloatText(lexeme)
    case List(items) => forall i :: 0 <= i < |items| ==> SpeltDoubles(items[i])
    case Map(entries) => forall i :: 0 <= i < |entries| ==> SpeltDoubles(entries[i].value)
    case _ => true
  }

  /** The trees whose text determines them. */
  ghost predicate Printable(v: V) {
    WellFormed(v) && SpeltDoubles(v) && CleanKeys(v)
  }

  /** Text that may stand behind a value. */
  predicate EndsValue(s: Bytes) {
    NulFree(s) && Numbers.EndsNumber(s)
  }

  /** Stacks on which a value finds its container. */
  predicate Accepts(stack: seq<Item>) {
    && stack != []
    && (IsList(Top(stack)) ||
        (|stack| > 1 && Top(stack).Obj? && Top(stack).v.Str? && IsMap(Top(Pop(stack)))))
  }

  // ---- steps ---------------------------------------------------------------------------

  /** One round on a token in front of `rest`. */
  lemma RunToken(token: Bytes, rest: CString, st: State, next: State)
    requires token != [] && NulFree(token)
    requires st.err == Success && next.err == Success
    requires NulFree(token + rest) && Step(token + rest, st) == (|token|, next)
    ensures Run(token + rest, st) == Run(rest, next)
  {
    assert (token + rest)[|token|..] == rest;
  }

  lemma {:induction false} RunSpaces(blank: Bytes, rest: CString, st: State)
    requires AllSpaces(blank) && st.err == Success
    ensures NulFree(blank + rest) && Run(blank + rest, st) == Run(rest, st)
  {
    if blank == [] {
      assert blank + rest == rest;
    } else {
      RunSpaces(blank[1..], rest, st);
      assert blank + rest == [blank[0]] + (blank[1..] + rest);
      RunToken([blank[0]], blank[1..] + rest, st, st);
    }
  }

  lemma RunComma(before: Bytes, after: Bytes, rest: CString, stack: seq<Item>)
    requires AllSpaces(before) && AllSpaces(after)
    ensures NulFree(before + "," + after + rest)
    ensures Run(before + "," + after + rest, State(stack, ExpectComma, Success))
         == Run(rest, State(stack, ExpectValue, Success))
  {
    hide Run;
    RunSpaces(after, rest, State(stack, ExpectValue, Success));
    RunToken(",", after + rest, State(stack, ExpectComma, Success), State(stack, ExpectValue, Success));
    RunSpaces(before, "," + (after + rest), State(stack, ExpectComma, Success));
    RegroupSeparator(before, ",", after, rest);
  }

  lemma RunColon(before: Bytes, after: Bytes, rest: CString, stack: seq<Item>)
    requires AllSpaces(before) && AllSpaces(after)
    ensures NulFree(before + ":" + after + rest)
    ensures Run(before + ":" + after + rest, State(stack, ExpectColon, Success))
         == Run(rest, State(stack, ExpectValue, Success))
  {
    hide Run;
    RunSpaces(after, rest, State(stack, ExpectValue, Success));
    RunToken(":", after + rest, State(stack, ExpectColon, Success), State(stack, ExpectValue, Success));
    RunSpaces(before, ":" + (after + rest), State(stack, ExpectColon, Success));
    RegroupSeparator(before, ":", after, rest);
  }

  lemma RegroupSeparator(before: Bytes, token: Bytes, after: Bytes, rest: Bytes)
    ensures before + (token + (after + rest)) == before + token + after + rest
  {
  }

  // ---- strings -------------------------------------------------------------------------

  lemma {:induction false} ScanOver(s: CString, i: nat, j: nat)
    requires i <= j <= |s|
    requires forall k :: i <= k < j ==> s[k] != '"' && s[k] != '\\'
    ensures ScanFrom(s, i) == ScanFrom(s, j)
    decreases j - i
  {
    if i < j {
      ScanOver(s, i + 1, j);
    }
  }

  /** Inside a printed unit, quotes and backslashes stand only behind its own backslash. */
  lemma UnitQuoted(src: Bytes)
    requires src != []
    ensures var unit := Cstr.ReprUnit(src).0;
            && (unit[0] == '\\' ==> |unit| >= 2)
            && forall k :: (if unit[0] == '\\' then 2 else 0) <= k < |unit| ==> unit[k] != '"' && unit[k] != '\\'
  {
    hide Utf8.SeqLen;
    Utf8.SeqLenInside(src);
  }

  lemma ScanOverUnit(src: Bytes, s: CString, p: nat)
    requires src != [] && p + |Cstr.ReprUnit(src).0| <= |s|
    requires s[p..p + |Cstr.ReprUnit(src).0|] == Cstr.ReprUnit(src).0
    ensures ScanFrom(s, p) == ScanFrom(s, p + |Cstr.ReprUnit(src).0|)
  {
    hide Cstr.ReprUnit;
    var unit := Cstr.ReprUnit(src).0;
    UnitQuoted(src);
    assert forall k :: p <= k < p + |unit| ==> s[k] == unit[k - p];
    ScanOver(s, if unit[0] == '\\' then p + 2 else p, p + |unit|);
  }

  lemma BodyEmpty()
    ensures Cstr.ReprBody([]) == []
  {
  }

  lemma BodyCons(src: Bytes)
    requires src != []
    ensures Cstr.ReprBody(src) == Cstr.ReprUnit(src).0 + Cstr.ReprBody(src[Cstr.ReprUnit(src).1..])
  {
  }

  lemma {:induction false} ScanOverBody(src: Bytes, s: CString, p: nat)
    requires p + |Cstr.ReprBody(src)| <= |s| && s[p..p + |Cstr.ReprBody(src)|] == Cstr.ReprBody(src)
    ensures ScanFrom(s, p) == ScanFrom(s, p + |Cstr.ReprBody(src)|)
    decreases |src|
  {
    hide Cstr.ReprBody;
    hide Cstr.ReprUnit;
    hide ScanFrom;
    if src == [] {
      BodyEmpty();
    } else {
      var (unit, n) := Cstr.ReprUnit(src);
      var behind := Cstr.ReprBody(src[n..]);
      BodyCons(src);
      Segments(s, p, unit, behind);
      ScanOverUnit(src, s, p);
      ScanOverBody(src[n..], s, p + |unit|);
    }
  }

  lemma Segments(s: Bytes, p: nat, a: Bytes, b: Bytes)
    requires p + |a| + |b| <= |s| && s[p..p + |a| + |b|] == a + b
    ensures s[p..p + |a|] == a && s[p + |a|..p + |a| + |b|] == b
  {
    var both := s[p..p + |a| + |b|];
    assert s[p..p + |a|] == both[..|a|];
    assert s[p + |a|..p + |a| + |b|] == both[|a|..];
  }

  /** A representation without escapes is the string itself. */
  lemma {:induction false} NothingEscaped(src: Bytes)
    requires !HasBackslash(Cstr.ReprBody(src))
    ensures Cstr.ReprBody(src) == src
    decreases |src|
  {
    if src != [] {
      var (unit, n) := Cstr.ReprUnit(src);
      var behind := Cstr.ReprBody(src[n..]);
      assert Cstr.ReprBody(src) == unit + behind;
      BackslashBehind(unit, behind);
      NothingEscaped(src[n..]);
      UnitCopied(src);
    }
  }

  lemma UnitCopied(src: Bytes)
    requires src != [] && Cstr.ReprUnit(src).0[0] != '\\'
    ensures Cstr.ReprUnit(src).0 == src[..Cstr.ReprUnit(src).1]
  {
  }

  lemma BackslashBehind(a: Bytes, b: Bytes)
    ensures HasBackslash(b) ==> HasBackslash(a + b)
    ensures a != [] && a[0] == '\\' ==> HasBackslash(a + b)
  {
    assert a != [] ==> (a + b)[0] == a[0];
    assert forall k :: 0 <= k < |b| ==> (a + b)[|a| + k] == b[k];
  }

  /** The closing quote of a representation is where the scan ends. */
  lemma ReprScanned(text: Bytes, s: CString, rest: Bytes)
    requires s == "\"" + (Cstr.ReprBody(text) + ("\"" + rest))
    ensures ScanFrom(s, 1) == Closed(1 + |Cstr.ReprBody(text)|)
    ensures s[1..1 + |Cstr.ReprBody(text)|] == Cstr.ReprBody(text)
  {
    hide Cstr.ReprBody;
    var body := Cstr.ReprBody(text);
    assert s[1..1 + |body|] == body;
    assert s[1 + |body|] == '"';
    ScanOverBody(text, s, 1);
  }

  /** `parse_string` reads exactly the representation in front of it. */
  lemma ReprParsed(text: Bytes, rest: CString)
    ensures NulFree(Cstr.Repr(text) + rest)
    ensures ParseString(Cstr.Repr(text) + rest) == String(text, false, |Cstr.Repr(text)|)
  {
    Cstr.UnreprOfRepr(text);
    var body := Cstr.ReprBody(text);
    var s: CString := Cstr.Repr(text) + rest;
    assert text == [] ==> body == [];
    RegroupContainer("\"", body, "\"", rest);
    ReprScanned(text, s, rest);
    Cstr.BodyDecodes(text, []);
    assert body + [] == body && text + [] == text;
    hide Cstr.ReprBody;
    hide Cstr.Unrepr;
    hide ScanFrom;
    if !HasBackslash(body) {
      NothingEscaped(text);
    }
  }

  /** A raw key is read back exactly when it is clean. */
  lemma RawKeyParsed(key: CString, rest: CString)
    ensures NulFree("\"" + key + "\"" + rest)
    ensures ParseString("\"" + key + "\"" + rest) == String(key, false, |key| + 2) <==> CleanKey(key)
  {
    var s: CString := "\"" + key + "\"" + rest;
    assert s == "\"" + (key + ("\"" + rest));
    assert s[1..1 + |key|] == key && s[1 + |key|] == '"';
    assert forall k :: 1 <= k < 1 + |key| ==> s[k] == key[k - 1];
    if CleanKey(key) {
      ScanOver(s, 1, 1 + |key|);
    } else {
      assert HasBackslash(key) || exists i :: 0 <= i < |key| && key[i] == '"';
      if !HasBackslash(key) {
        var i :| 0 <= i < |key| && key[i] == '"';
        ScanStops(s, 1, i + 1);
      } else if ScanFrom(s, 1) == Closed(1 + |key|) {
        DecodingShrinks(key);
      }
    }
  }

  /** Without backslashes the scan stops at the first quote. */
  lemma {:induction false} ScanStops(s: CString, p: nat, q: nat)
    requires p <= q < |s| && s[q] == '"'
    requires forall k :: p <= k < q ==> s[k] != '\\'
    ensures ScanFrom(s, p).Closed? && ScanFrom(s, p).quote <= q
    decreases q - p
  {
    if s[p] != '"' {
      ScanStops(s, p + 1, q);
    }
  }

  /** Decoding a text with an escape makes it shorter. */
  lemma {:induction false} DecodingShrinks(s: CString)
    requires HasBackslash(s)
    ensures Cstr.Unrepr(s).Some? ==> |Cstr.Unrepr(s).value| < |s|
    decreases |s|
  {
    if s[0] != '\\' && Cstr.DecodeUnit(s).Some? {
      var i :| 0 <= i < |s| && s[i] == '\\';
      assert s[1..][i - 1] == '\\';
      DecodingShrinks(s[1..]);
    }
  }

  // ---- primitives ----------------------------------------------------------------------

  ghost predicate IsPrimitive(v: V) {
    !v.List? && !v.Map? && SpeltDoubles(v)
  }

  lemma PrimitiveTaken(v: V, rest: CString, st: State)
    requires IsPrimitive(v) && WellFormed(v) && EndsValue(rest)
    requires st.want == ExpectValue && st.err == Success
    requires v.Str? ==> st.stack == [] || !IsMap(Top(st.stack))
    ensures Scalar(v) != [] && NulFree(Scalar(v)) && NulFree(Scalar(v) + rest)
    ensures Step(Scalar(v) + rest, st) == (|Scalar(v)|, Complete(st.stack, v))
  {
    if v.Str? {
      StringTaken(v.text, rest, st);
    } else {
      PrimitiveParsed(v, rest);
      assert (Scalar(v) + rest)[0] == Scalar(v)[0];
      StepTakesPrimitive(Scalar(v) + rest, st);
    }
  }

  lemma StringTaken(text: Bytes, rest: CString, st: State)
    requires st.want == ExpectValue && (st.stack == [] || !IsMap(Top(st.stack)))
    ensures NulFree(Cstr.Repr(text)) && NulFree(Cstr.Repr(text) + rest)
    ensures Step(Cstr.Repr(text) + rest, st) == (|Cstr.Repr(text)|, Complete(st.stack, Str(text)))
  {
    Cstr.UnreprOfRepr(text);
    ReprParsed(text, rest);
    assert (Cstr.Repr(text) + rest)[0] == '"';
  }

  lemma StepTakesPrimitive(s: CString, st: State)
    requires s != [] && (IsDigit(s[0]) || s[0] == '-' || s[0] == 't' || s[0] == 'f' || s[0] == 'n')
    ensures Step(s, st) == TakePrimitive(s, st)
  {
    hide TakePrimitive;
  }

  lemma PrimitiveParsed(v: V, rest: CString)
    requires IsPrimitive(v) && !v.Str? && WellFormed(v) && EndsValue(rest)
    ensures Scalar(v) != [] && NulFree(Scalar(v)) && NulFree(Scalar(v) + rest)
    ensures var c := Scalar(v)[0]; IsDigit(c) || c == '-' || c == 't' || c == 'f' || c == 'n'
    ensures ParsePrimitive(Scalar(v) + rest) == Some((v, |Scalar(v)|))
  {
    match v
    case Int(n) => IntTaken(n, rest);
    case Double(lexeme) => DoubleTaken(lexeme, rest);
    case Bool(b) => BoolTaken(b, rest);
    case Null => NullTaken(rest);
  }

  lemma IntTaken(n: int, rest: CString)
    requires Numbers.IsLong(n) && EndsValue(rest)
    ensures ParsePrimitive(Numbers.Dec(n) + rest) == Some((Int(n), |Numbers.Dec(n)|))
  {
    Numbers.DecReadBack(n, rest);
    assert (Numbers.Dec(n) + rest)[0] == Numbers.Dec(n)[0];
  }

  lemma DoubleTaken(lexeme: Bytes, rest: CString)
    requires NumberTokens.IsFloatText(lexeme) && EndsValue(rest)
    ensures lexeme != [] && NulFree(lexeme) && NulFree(lexeme + rest) && (IsDigit(lexeme[0]) || lexeme[0] == '-')
    ensures ParsePrimitive(lexeme + rest) == Some((Double(lexeme), |lexeme|))
  {
    NumberTokens.FloatTextRead(lexeme, rest);
    assert (lexeme + rest)[0] == lexeme[0];
    hide Numbers.ToNumber;
  }

  lemma BoolTaken(b: bool, rest: CString)
    ensures NulFree("true" + rest) && NulFree("false" + rest)
    ensures ParsePrimitive("true" + rest) == Some((Bool(true), 4))
    ensures ParsePrimitive("false" + rest) == Some((Bool(false), 5))
  {
    assert ("true" + rest)[..4] == "true" && ("false" + rest)[..5] == "false";
    assert ("false" + rest)[..4][0] == 'f';
  }

  lemma NullTaken(rest: CString)
    ensures NulFree("null" + rest)
    ensures ParsePrimitive("null" + rest) == Some((Null, 4))
  {
    assert ("null" + rest)[..4] == "null";
  }

  // ---- values --------------------------------------------------------------------------

  /** Text of a value takes (stack, ExpectValue) to (stack with the value attached, ExpectComma). */
  lemma {:induction false} ValueRuns(v: V, depth: nat, pad: Pads, rest: CString, stack: seq<Item>)
    requires OnlySpaces(pad) && Printable(v) && EndsValue(rest) && Accepts(stack)
    ensures NulFree(Laid(v, depth, pad) + rest)
    ensures Complete(stack, v).err == Success
    ensures Run(Laid(v, depth, pad) + rest, State(stack, ExpectValue, Success)) == Run(rest, Complete(stack, v))
    decreases v, 3
  {
    match v
    case List(items) =>
      ListRuns(items, depth, pad, "]" + rest, stack);
      CloseRuns(']', rest, stack, v);
      RegroupContainer("[", LaidItems(items, depth, pad), "]", rest);
    case Map(entries) =>
      MapRuns(entries, depth, pad, "}" + rest, stack);
      CloseRuns('}', rest, stack, v);
      RegroupContainer("{", LaidEntries(entries, depth, pad), "}", rest);
    case _ =>
      var st := State(stack, ExpectValue, Success);
      PrimitiveTaken(v, rest, st);
      RunToken(Scalar(v), rest, st, Complete(stack, v));
  }

  lemma RegroupContainer(open: Bytes, body: Bytes, close: Bytes, rest: Bytes)
    ensures open + body + close + rest == open + (body + (close + rest))
  {
  }

  lemma CloseRuns(c: byte, rest: CString, stack: seq<Item>, v: V)
    requires Accepts(stack) && ((c == ']' && v.List?) || (c == '}' && v.Map?))
    ensures NulFree([c] + rest)
    ensures Complete(stack, v).err == Success
    ensures Run([c] + rest, State(stack + [Obj(v)], ExpectComma, Success)) == Run(rest, Complete(stack, v))
    ensures Run([c] + rest, State(stack + [Obj(v)], ExpectValue, Success)) == Run(rest, Complete(stack, v))
  {
    assert Pop(stack + [Obj(v)]) == stack;
    RunToken([c], rest, State(stack + [Obj(v)], ExpectComma, Success), Complete(stack, v));
    RunToken([c], rest, State(stack + [Obj(v)], ExpectValue, Success), Complete(stack, v));
  }

  // ---- lists ---------------------------------------------------------------------------

  /** The state in front of the closing bracket: an empty container still expects a value. */
  function Filled(stack: seq<Item>, v: V, empty: bool): State {
    State(stack + [Obj(v)], if empty then ExpectValue else ExpectComma, Success)
  }

  /** From the opening bracket of a list to whatever stands behind its items. */
  lemma {:induction false} ListRuns(items: seq<V>, depth: nat, pad: Pads, close: CString, stack: seq<Item>)
    requires OnlySpaces(pad) && EndsValue(close) && forall i :: 0 <= i < |items| ==> Printable(items[i])
    ensures NulFree("[" + (LaidItems(items, depth, pad) + close))
    ensures Run("[" + (LaidItems(items, depth, pad) + close), State(stack, ExpectValue, Success))
         == Run(close, Filled(stack, List(items), items == []))
    decreases items, 2
  {
    var begun := State(stack + [Obj(List([]))], ExpectValue, Success);
    if items == [] {
      RunSpaces(pad(depth, Closing), close, begun);
    } else {
      RestRuns(items, depth, pad, close, stack, []);
      RunSpaces(pad(depth, Opened), LaidRest(items, depth, pad) + close, begun);
      Assoc(pad(depth, Opened), LaidRest(items, depth, pad), close);
      assert [] + items == items;
    }
    RunToken("[", LaidItems(items, depth, pad) + close, State(stack, ExpectValue, Success), begun);
  }

  lemma {:induction false} RestRuns(items: seq<V>, depth: nat, pad: Pads, close: CString, stack: seq<Item>,
                                    done: seq<V>)
    requires items != [] && OnlySpaces(pad) && forall i :: 0 <= i < |items| ==> Printable(items[i])
    requires EndsValue(close)
    ensures NulFree(LaidRest(items, depth, pad) + close)
    ensures Run(LaidRest(items, depth, pad) + close, State(stack + [Obj(List(done))], ExpectValue, Success))
         == Run(close, State(stack + [Obj(List(done + items))], ExpectComma, Success))
    decreases items, 1
  {
    hide Run;
    hide Laid;
    hide Step;
    hide IsSpace;
    var text := Laid(items[0], depth + 1, pad);
    var more := done + [items[0]];
    var behind := State(stack + [Obj(List(more))], ExpectComma, Success);
    assert Complete(stack + [Obj(List(done))], items[0]) == behind by {
      assert Pop(stack + [Obj(List(done))]) == stack;
    }
    if |items| == 1 {
      RunSpaces(pad(depth, Closing), close, behind);
      ValueRuns(items[0], depth + 1, pad, pad(depth, Closing) + close, stack + [Obj(List(done))]);
      Assoc(text, pad(depth, Closing), close);
      assert items == [items[0]];
    } else {
      var before, after := pad(depth, BeforeComma), pad(depth, AfterComma);
      var tail := LaidRest(items[1..], depth, pad);
      RestRuns(items[1..], depth, pad, close, stack, more);
      RunComma(before, after, tail + close, stack + [Obj(List(more))]);
      ValueRuns(items[0], depth + 1, pad, before + "," + after + (tail + close), stack + [Obj(List(done))]);
      RegroupRest(text, before + "," + after, tail, close);
      assert more + items[1..] == done + items;
    }
  }

  lemma RegroupRest(text: Bytes, comma: Bytes, tail: Bytes, close: Bytes)
    ensures text + (comma + (tail + close)) == text + (comma + tail) + close
  {
  }

  // ---- maps ----------------------------------------------------------------------------

  ghost predicate PrintableEntries(entries: seq<Entry>) {
    && DistinctKeys(entries)
    && forall i :: 0 <= i < |entries| ==> CleanKey(entries[i].key) && Printable(entries[i].value)
  }

  /** From the opening bracket of a map to whatever stands behind its entries. */
  lemma {:induction false} MapRuns(entries: seq<Entry>, depth: nat, pad: Pads, close: CString, stack: seq<Item>)
    requires OnlySpaces(pad) && EndsValue(close) && PrintableEntries(entries)
    ensures NulFree("{" + (LaidEntries(entries, depth, pad) + close))
    ensures Run("{" + (LaidEntries(entries, depth, pad) + close), State(stack, ExpectValue, Success))
         == Run(close, Filled(stack, Map(entries), entries == []))
    decreases entries, 2
  {
    var begun := State(stack + [Obj(Map([]))], ExpectValue, Success);
    if entries == [] {
      RunSpaces(pad(depth, Closing), close, begun);
    } else {
      assert [] + entries == entries;
      EntriesRun(entries, depth, pad, close, stack, []);
      RunSpaces(pad(depth, Opened), LaidEntryRest(entries, depth, pad) + close, begun);
      Assoc(pad(depth, Opened), LaidEntryRest(entries, depth, pad), close);
    }
    RunToken("{", LaidEntries(entries, depth, pad) + close, State(stack, ExpectValue, Success), begun);
  }

  lemma {:induction false} EntriesRun(entries: seq<Entry>, depth: nat, pad: Pads, close: CString, stack: seq<Item>,
                                      done: seq<Entry>)
    requires entries != [] && OnlySpaces(pad) && PrintableEntries(entries)
    requires EndsValue(close) && DistinctKeys(done + entries)
    ensures NulFree(LaidEntryRest(entries, depth, pad) + close)
    ensures Run(LaidEntryRest(entries, depth, pad) + close, State(stack + [Obj(Map(done))], ExpectValue, Success))
         == Run(close, State(stack + [Obj(Map(done + entries))], ExpectComma, Success))
    decreases entries, 1
  {
    hide Run;
    hide Laid;
    hide Step;
    hide IsSpace;
    var key, value := entries[0].key, entries[0].value;
    var text := Laid(value, depth + 1, pad);
    var more := done + [entries[0]];
    var labelled := stack + [Obj(Map(done))] + [Obj(Str(key))];
    var behind := State(stack + [Obj(Map(more))], ExpectComma, Success);
    LabelAttaches(stack, done, entries, value);
    if |entries| == 1 {
      RunSpaces(pad(depth, Closing), close, behind);
      var tail: CString := pad(depth, Closing) + close;
      ValueRuns(value, depth + 1, pad, tail, labelled);
      LabelRuns(key, pad(depth, BeforeColon), pad(depth, AfterColon), text + tail, stack, done);
      RegroupEntry(key, pad(depth, BeforeColon), pad(depth, AfterColon), text, pad(depth, Closing), close);
      assert entries == [entries[0]];
    } else {
      var before, after := pad(depth, BeforeComma), pad(depth, AfterComma);
      var rest := LaidEntryRest(entries[1..], depth, pad);
      assert more + entries[1..] == done + entries;
      EntriesRun(entries[1..], depth, pad, close, stack, more);
      RunComma(before, after, rest + close, stack + [Obj(Map(more))]);
      var tail: CString := before + "," + after + (rest + close);
      ValueRuns(value, depth + 1, pad, tail, labelled);
      LabelRuns(key, pad(depth, BeforeColon), pad(depth, AfterColon), text + tail, stack, done);
      Assoc(before + "," + after, rest, close);
      RegroupEntry(key, pad(depth, BeforeColon), pad(depth, AfterColon), text, before + "," + after + rest, close);
    }
  }

  lemma RegroupEntry(key: Bytes, before: Bytes, after: Bytes, text: Bytes, tail: Bytes, close: Bytes)
    ensures "\"" + key + "\"" + (before + ":" + after + (text + (tail + close)))
         == "\"" + key + "\"" + before + ":" + after + text + tail + close
  {
  }

  /** The value of the first of the remaining entries lands behind the entries that are done. */
  lemma LabelAttaches(stack: seq<Item>, done: seq<Entry>, entries: seq<Entry>, value: V)
    requires entries != [] && DistinctKeys(done + entries) && value == entries[0].value
    ensures Accepts(stack + [Obj(Map(done))] + [Obj(Str(entries[0].key))])
    ensures Complete(stack + [Obj(Map(done))] + [Obj(Str(entries[0].key))], value)
         == State(stack + [Obj(Map(done + [entries[0]]))], ExpectComma, Success)
  {
    var key := entries[0].key;
    var map1 := stack + [Obj(Map(done))];
    assert Pop(map1 + [Obj(Str(key))]) == map1 && Pop(map1) == stack;
    WholeCString(key);
    assert (done + entries)[|done|] == entries[0];
    assert forall k :: 0 <= k < |done| ==> (done + entries)[k] == done[k];
    FindKeyIs(done, key, |done|);
  }

  lemma {:induction false} WholeCString(s: CString)
    ensures CStringOf(s) == s
  {
    if s != [] {
      WholeCString(s[1..]);
    }
  }

  lemma LabelRuns(key: CString, before: Bytes, after: Bytes, rest: CString, stack: seq<Item>, done: seq<Entry>)
    requires CleanKey(key) && AllSpaces(before) && AllSpaces(after)
    ensures NulFree("\"" + key + "\"" + (before + ":" + after + rest))
    ensures Run("\"" + key + "\"" + (before + ":" + after + rest),
                State(stack + [Obj(Map(done))], ExpectValue, Success))
         == Run(rest, State(stack + [Obj(Map(done))] + [Obj(Str(key))], ExpectValue, Success))
  {
    var labelled := stack + [Obj(Map(done))] + [Obj(Str(key))];
    RunColon(before, after, rest, labelled);
    var tail: CString := before + ":" + after + rest;
    RawKeyParsed(key, tail);
    var token := "\"" + key + "\"";
    RunToken(token, tail, State(stack + [Obj(Map(done))], ExpectValue, Success),
             State(labelled, ExpectColon, Success));
  }

  // ---- whole texts ---------------------------------------------------------------------

  /** Every layout of a printable tree, with any white space behind it, parses to that tree. */
  lemma LayoutParses(v: V, depth: nat, pad: Pads, end: Bytes)
    requires OnlySpaces(pad) && Printable(v) && AllSpaces(end)
    ensures NulFree(Laid(v, depth, pad) + end)
    ensures Parse(Laid(v, depth, pad) + end) == (Some(v), Success)
  {
    if v.List? {
      ListRuns(v.items, depth, pad, "]" + end, []);
      RegroupContainer("[", LaidItems(v.items, depth, pad), "]", end);
      RootCloses(']', v, end, v.items == []);
    } else if v.Map? {
      MapRuns(v.entries, depth, pad, "}" + end, []);
      RegroupContainer("{", LaidEntries(v.entries, depth, pad), "}", end);
      RootCloses('}', v, end, v.entries == []);
    } else {
      PrimitiveTaken(v, end, INITIAL);
      RunToken(Scalar(v), end, INITIAL, Complete([], v));
      Ends(end, Complete([], v));
    }
  }

  lemma RootCloses(c: byte, v: V, end: Bytes, empty: bool)
    requires AllSpaces(end) && (c == ']' || c == '}')
    ensures NulFree([c] + end)
    ensures Run([c] + end, Filled([], v, empty)) == State([Obj(v)], ExpectEnd, Success)
  {
    var st := Filled([], v, empty);
    assert st.stack == [Obj(v)];
    RunToken([c], end, st, st.(want := ExpectEnd));
    Ends(end, st.(want := ExpectEnd));
  }

  lemma Ends(end: Bytes, st: State)
    requires AllSpaces(end) && st.err == Success
    ensures NulFree(end) && Run(end, st) == st
  {
    RunSpaces(end, [], st);
    assert end + [] == end;
  }

  /** Main result: parsing the compact text of a tree yields exactly that tree, with doubles as they are printed. */
  lemma CompactRoundTrip(v: V)
    requires Printable(AsPrinted(v))
    ensures NulFree(Compact(v)) && Parse(Compact(v)) == (Some(AsPrinted(v)), Success)
  {
    PadsAreSpaces();
    CompactIsLaid(v, 0);
    LayoutParses(AsPrinted(v), 0, CompactPad, []);
    assert Compact(v) + [] == Compact(v);
  }

  /** Main result: so does parsing its pretty text, at whatever depth it is printed. */
  lemma PrettyRoundTrip(v: V, level: nat)
    requires Printable(AsPrinted(v))
    ensures NulFree(Pretty(v, true, level)) && Parse(Pretty(v, true, level)) == (Some(AsPrinted(v)), Success)
  {
    PadsAreSpaces();
    PrettyIsLaid(v, true, level);
    LayoutParses(AsPrinted(v), level, PrettyPad, "\n");
  }

  /** Inside a container, pretty text of a value and its comma is read like compact text. */
  lemma PrettyValueRuns(v: V, last: bool, level: nat, rest: CString, stack: seq<Item>)
    requires Printable(AsPrinted(v)) && Accepts(stack)
    ensures NulFree(Pretty(v, last, level) + rest)
    ensures Run(Pretty(v, last, level) + rest, State(stack, ExpectValue, Success))
         == Run(rest, Complete(stack, AsPrinted(v)).(want := if last then ExpectComma else ExpectValue))
  {
    var w := AsPrinted(v);
    var end: CString := if last then "\n" else ",\n";
    hide *;
    PadsAreSpaces();
    PrettyIsLaid(v, last, level);
    LineEnds(last, rest);
    ValueRuns(w, level, PrettyPad, end + rest, stack);
    LineRuns(last, rest, Complete(stack, w));
    CompleteExpects(stack, w);
    Assoc(Laid(w, level, PrettyPad), end, rest);
  }

  lemma LineEnds(last: bool, rest: CString)
    ensures EndsValue((if last then "\n" else ",\n") + rest)
  {
  }

  lemma CompleteExpects(stack: seq<Item>, v: V)
    ensures Complete(stack, v).want == ExpectComma
  {
  }

  /** The end of a line of pretty text: white space, or a comma and white space. */
  lemma LineRuns(last: bool, rest: CString, st: State)
    requires st.err == Success && st.want == ExpectComma
    ensures NulFree((if last then "\n" else ",\n") + rest)
    ensures Run((if last then "\n" else ",\n") + rest, st)
         == Run(rest, st.(want := if last then ExpectComma else ExpectValue))
  {
    hide Run;
    if last {
      RunSpaces("\n", rest, st);
    } else {
      RunComma([], "\n", rest, st.stack);
      assert [] + "," + "\n" + rest == ",\n" + rest;
    }
  }
}
