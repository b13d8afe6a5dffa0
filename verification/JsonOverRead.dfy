/**
 * When the parser reads past the end of its text: an escape that is cut short takes the scan
 * or the decoder over the terminator, and a torn label has none.
 */
module JsonOverRead {
  import opened Bytes
  import opened Values
  import opened JsonParse
  import opened JsonInvariant
  import opened JsonRoundTrip
  import Cstr
  import Numbers

  // ---- one string ----------------------------------------------------------------------

  /** The scan behind the opening quote runs out behind a last backslash, or an escape is cut short by the quote. */
  predicate StringOverruns(s: CString)
    requires s != []
  {
    match ScanFrom(s, 1)
    case RanOut => true
    case Unclosed => false
    case Closed(quote) => !Cstr.Complete(s[1..quote])
  }

  lemma BadStringIff(s: CString)
    requires s != []
    ensures ParseString(s).BadString? <==> StringOverruns(s)
  {
    if ScanFrom(s, 1).Closed? {
      var raw := s[1..ScanFrom(s, 1).quote];
      hide Cstr.Complete;
      hide Cstr.Unrepr;
      hide ScanFrom;
      Cstr.UnreprIff(raw);
      PlainComplete(raw);
    }
  }

  lemma {:induction false} PlainComplete(s: Bytes)
    ensures !HasBackslash(s) ==> Cstr.Complete(s)
  {
    if s != [] && !HasBackslash(s) {
      assert forall k :: 0 <= k < |s| - 1 ==> s[1..][k] == s[k + 1];
      PlainComplete(s[1..]);
    }
  }

  // ---- one round -----------------------------------------------------------------------

  predicate UnderTorn(stack: seq<Item>) {
    stack != [] && Top(stack).TornLabel?
  }

  /** The closer of the innermost container. */
  predicate Closes(c: byte, stack: seq<Item>) {
    |stack| > 1 && ((c == '}' && IsMap(Top(stack))) || (c == ']' && IsList(Top(stack))))
  }

  predicate IsToken(c: byte) {
    c == '{' || c == '[' || c == '}' || c == ']' || c == '"' || c == ':' || c == ','
  }

  /** A bad string where a value is expected, or a value that is complete behind a torn label. */
  predicate Overruns(s: CString, st: State)
    requires s != []
  {
    || (st.want == ExpectValue && s[0] == '"' && StringOverruns(s))
    || (st.want == ExpectValue && s[0] == '"' && ParseString(s).String? && UnderTorn(st.stack))
    || (st.want == ExpectValue && !IsToken(s[0]) && ParsePrimitive(s).Some? && UnderTorn(st.stack))
    || (Closes(s[0], st.stack) && UnderTorn(Pop(st.stack)))
  }

  lemma CompleteOverruns(stack: seq<Item>, v: V)
    requires Layered(stack)
    ensures Complete(stack, v).err == OverRead <==> UnderTorn(stack)
  {
    hide MapSet;
    if UnderTorn(stack) {
      assert |stack| > 1;
      LayeredPop(stack);
    }
  }

  lemma CloseOverruns(c: byte, st: State)
    requires Layered(st.stack) && st.err == Success && (c == '}' || c == ']')
    ensures CloseContainer(c, st).err == OverRead <==> Closes(c, st.stack) && UnderTorn(Pop(st.stack))
  {
    hide Complete;
    if |st.stack| > 1 {
      LayeredPop(st.stack);
      if Top(st.stack).Obj? {
        CompleteOverruns(Pop(st.stack), Top(st.stack).v);
      }
    }
  }

  lemma TakeStringOverruns(s: CString, st: State)
    requires s != [] && Layered(st.stack) && st.err == Success
    ensures TakeString(s, st).1.err == OverRead <==>
            st.want == ExpectValue && (StringOverruns(s) || (ParseString(s).String? && UnderTorn(st.stack)))
  {
    hide Complete;
    hide ParseString;
    hide StringOverruns;
    BadStringIff(s);
    if ParseString(s).String? {
      CompleteOverruns(st.stack, Str(ParseString(s).text));
    }
  }

  lemma TakePrimitiveOverruns(s: CString, st: State)
    requires s != [] && Layered(st.stack) && st.err == Success
    ensures TakePrimitive(s, st).1.err == OverRead <==>
            st.want == ExpectValue && ParsePrimitive(s).Some? && UnderTorn(st.stack)
  {
    hide Complete;
    hide ParsePrimitive;
    if ParsePrimitive(s).Some? {
      CompleteOverruns(st.stack, ParsePrimitive(s).value.0);
    }
  }

  lemma NoSpaceIsPrimitive(s: CString)
    requires s != [] && IsSpace(s[0])
    ensures !IsToken(s[0]) && ParsePrimitive(s).None?
  {
  }

  /** Main result, for one round: it reads past the end exactly when the text and the stack say so. */
  lemma StepOverrunsIff(s: CString, st: State)
    requires s != [] && Inv(st) && st.err == Success
    ensures Step(s, st).1.err == OverRead <==> Overruns(s, st)
  {
    hide CloseContainer;
    hide TakeString;
    hide TakePrimitive;
    hide ParsePrimitive;
    hide ParseString;
    hide StringOverruns;
    var c := s[0];
    if IsSpace(c) {
      NoSpaceIsPrimitive(s);
    } else if c == '}' || c == ']' {
      CloseOverruns(c, st);
    } else if c == '"' {
      TakeStringOverruns(s, st);
    } else if !IsToken(c) {
      TakePrimitiveOverruns(s, st);
    }
  }

  // ---- whole runs ----------------------------------------------------------------------

  /** What is left of the text, and the state, after at most `k` rounds. */
  function After(s: CString, st: State, k: nat): (CString, State)
    decreases k
  {
    if k == 0 || s == [] || st.err != Success then (s, st)
    else
      StepAdvances(s, st);
      var (n, next) := Step(s, st);
      if next.err != Success then (s, next) else After(s[n..], next, k - 1)
  }

  /** The round behind the first `k` reads past the end. */
  predicate OverrunsAt(s: CString, st: State, k: nat) {
    var (rest, now) := After(s, st, k);
    rest != [] && now.err == Success && Overruns(rest, now)
  }

  lemma OverrunsNow(s: CString, st: State)
    ensures OverrunsAt(s, st, 0) <==> s != [] && st.err == Success && Overruns(s, st)
  {
  }

  lemma OverrunsLater(s: CString, st: State, n: nat, next: State, k: nat)
    requires s != [] && st.err == Success && Step(s, st) == (n, next)
    ensures n <= |s|
    ensures OverrunsAt(s, st, k + 1) <==> next.err == Success && OverrunsAt(s[n..], next, k)
  {
    hide Overruns;
    hide Step;
    StepAdvances(s, st);
  }

  lemma {:induction false} RunOverruns(s: CString, st: State)
    requires Inv(st) && st.err == Success && Run(s, st).err == OverRead
    ensures exists k: nat :: OverrunsAt(s, st, k)
    decreases |s|
  {
    if s != [] {
      StepAdvances(s, st);
      StepOverrunsIff(s, st);
      StepKeeps(s, st);
      OverrunsNow(s, st);
      var (n, next) := Step(s, st);
      hide Step;
      hide Inv;
      hide OverrunsAt;
      if next.err == Success {
        RunOverruns(s[n..], next);
        var k: nat :| OverrunsAt(s[n..], next, k);
        OverrunsLater(s, st, n, next, k);
      }
    }
  }

  lemma {:induction false} OverrunsEnd(s: CString, st: State, k: nat)
    requires Inv(st) && st.err == Success && OverrunsAt(s, st, k)
    ensures Run(s, st).err == OverRead
    decreases k
  {
    if s != [] {
      StepAdvances(s, st);
      StepOverrunsIff(s, st);
      StepKeeps(s, st);
      var (n, next) := Step(s, st);
      OverrunsNow(s, st);
      hide Step;
      hide Inv;
      hide OverrunsAt;
      hide Overruns;
      if k > 0 {
        OverrunsLater(s, st, n, next, k - 1);
        OverrunsEnd(s[n..], next, k - 1);
      }
    }
  }

  /** Main result: the parser reads past the end of a text exactly when one of its rounds does. */
  lemma OverReadIff(cstr: CString)
    ensures Parse(cstr).1 == OverRead <==> exists k: nat :: OverrunsAt(cstr, INITIAL, k)
  {
    hide Run;
    hide OverrunsAt;
    assert Inv(INITIAL);
    if Parse(cstr).1 == OverRead {
      RunOverruns(cstr, INITIAL);
    }
    if k: nat :| OverrunsAt(cstr, INITIAL, k) {
      OverrunsEnd(cstr, INITIAL, k);
    }
  }

  /** A quote and a backslash are such a text. */
  lemma LastBackslash()
    ensures Parse("\"\\") == (None, OverRead)
  {
    var s: CString := "\"\\";
    assert ScanFrom(s, 1) == RanOut;
    assert Step(s, INITIAL).1.err == OverRead;
  }

  /** So is a map with a label of which decoding leaves nothing, although no escape is cut short. */
  lemma TornLabelRead()
    ensures Parse("{\"\\q\":\"\"}") == (None, OverRead)
  {
    hide Run;
    var open, torn := [Obj(Map([]))], [Obj(Map([])), TornLabel];
    assert INITIAL.stack + [Obj(Map([]))] == open;
    EmptyTaken("}", State(torn, ExpectValue, Success));
    RunToken(":", "\"\"" + "}", State(torn, ExpectColon, Success), State(torn, ExpectValue, Success));
    TornTaken(":" + ("\"\"" + "}"));
    var label_: CString := "\"\\q\"" + (":" + ("\"\"" + "}"));
    RunToken("{", label_, INITIAL, State(open, ExpectValue, Success));
    assert "{" + label_ == "{\"\\q\":\"\"}";
  }

  lemma TornTaken(rest: CString)
    ensures NulFree("\"\\q\"" + rest)
    ensures Run("\"\\q\"" + rest, State([Obj(Map([]))], ExpectValue, Success)) ==
            Run(rest, State([Obj(Map([])), TornLabel], ExpectColon, Success))
  {
    hide Run;
    var s: CString := "\"\\q\"" + rest;
    assert s[0] == '"' && s[1] == '\\' && s[2] == 'q' && s[3] == '"';
    TornParsed(s);
    assert [Obj(Map([]))] + [TornLabel] == [Obj(Map([])), TornLabel];
    RunToken("\"\\q\"", rest, State([Obj(Map([]))], ExpectValue, Success),
             State([Obj(Map([])), TornLabel], ExpectColon, Success));
  }

  lemma TornParsed(s: CString)
    requires |s| >= 4 && s[1] == '\\' && s[2] == 'q' && s[3] == '"'
    ensures ParseString(s) == String([], true, 4)
  {
    assert ScanFrom(s, 1) == ScanFrom(s, 3) == Closed(3);
    var raw: CString := s[1..3];
    assert raw[0] == '\\' && Cstr.DecodeUnit(raw) == Some(([], 2)) && raw[2..] == [];
    assert Cstr.Unrepr([]) == Some([]) && Cstr.Unrepr(raw) == Some([]);
    assert HasBackslash(raw);
  }

  lemma EmptyTaken(rest: CString, st: State)
    requires st.want == ExpectValue && st.err == Success && UnderTorn(st.stack) && Layered(st.stack)
    ensures NulFree("\"\"" + rest) && Run("\"\"" + rest, st).err == OverRead
  {
    hide Complete;
    var s: CString := "\"\"" + rest;
    assert s[0] == '"' && s[1] == '"' && ScanFrom(s, 1) == Closed(1) && s[1..1] == [];
    CompleteOverruns(st.stack, Str([]));
  }

  // ---- texts that are safe -------------------------------------------------------------

  /**
   * Read from the left, every backslash begins an escape that is known and lies in front of the
   * next quote: a letter, or `u` and `x` with their digits.
   */
  predicate Escapes(s: Bytes) {
    || s == []
    || (s[0] != '\\' && Escapes(s[1..]))
    || (s[0] == '\\' && |s| > 1 && EscapeFits(s) && Escapes(s[Cstr.EscapeLength(s[1])..]))
  }

  predicate EscapeFits(s: Bytes)
    requires |s| > 1
  {
    var n := Cstr.EscapeLength(s[1]);
    && (Cstr.EscapedChar(s[1]).Some? || s[1] == 'u' || s[1] == 'x') && n <= |s|
    && forall k :: 2 <= k < n ==> s[k] != '"' && s[k] != '\\'
  }

  lemma {:induction false} PlainEscapes(s: Bytes, n: nat)
    requires n <= |s| && Escapes(s) && Numbers.Plain(s, 0, n)
    ensures Escapes(s[n..])
    decreases n
  {
    if n > 0 {
      assert forall k :: 0 <= k < n - 1 ==> s[1..][k] == s[k + 1];
      PlainEscapes(s[1..], n - 1);
      assert s[1..][n - 1..] == s[n..];
    } else {
      assert s[0..] == s;
    }
  }

  function UnitLength(s: Bytes): (n: nat)
    ensures n >= 1
  {
    if |s| > 1 && s[0] == '\\' then Cstr.EscapeLength(s[1]) else 1
  }

  /** The scan takes a whole character or escape. */
  lemma UnitScanned(s: CString, p: nat)
    requires p < |s| && Escapes(s[p..]) && s[p] != '"'
    ensures var n := UnitLength(s[p..]);
            p + n <= |s| && Escapes(s[p + n..]) && ScanFrom(s, p) == ScanFrom(s, p + n)
  {
    var t := s[p..];
    var n := UnitLength(t);
    DropDrop(s, p, n);
    if s[p] == '\\' {
      assert forall k :: 2 <= k < n ==> s[p + k] == t[k];
      assert forall k :: p + 2 <= k < p + n ==> s[k] == t[k - p];
      ScanOver(s, p + 2, p + n);
    }
  }

  /** Decoding takes it too, and something is left of it. */
  lemma UnitEmits(t: CString)
    requires t != [] && t[0] != '"' && (t[0] == '\\' ==> |t| > 1 && EscapeFits(t))
    ensures Cstr.DecodeUnit(t).Some? && Cstr.DecodeUnit(t).value.1 == UnitLength(t)
    ensures Cstr.DecodeUnit(t).value.0 != []
  {
    hide Cstr.HexValue;
  }

  lemma UnitInFront(t: Bytes, m: nat)
    requires t != [] && Escapes(t) && UnitLength(t) <= m <= |t| && m > 0 && (t[0] == '\\' ==> |t| > 1)
    ensures UnitLength(t[..m]) == UnitLength(t) && (t[0] == '\\' ==> m > 1 && EscapeFits(t[..m]))
  {
    if t[0] == '\\' {
      assert t[..m][1] == t[1];
    }
  }

  /** What such a text has between two quotes is decoded inside the quotes, and something is left of it. */
  lemma {:induction false} StringTaken(s: CString, p: nat, quote: nat)
    requires p <= quote < |s| && Escapes(s[p..]) && ScanFrom(s, p) == Closed(quote)
    ensures Escapes(s[quote + 1..])
    ensures Cstr.Unrepr(s[p..quote]).Some? && (p < quote ==> Cstr.Unrepr(s[p..quote]).value != [])
    decreases quote - p
  {
    hide Cstr.Unrepr;
    hide Cstr.DecodeUnit;
    hide Escapes;
    hide EscapeFits;
    hide ScanFrom;
    hide UnitLength;
    if s[p] == '"' {
      QuoteTaken(s, p);
    } else {
      var t, n := s[p..quote], UnitLength(s[p..]);
      UnitScanned(s, p);
      ScanBehind(s, p, quote);
      StringTaken(s, p + n, quote);
      assert s[p..][..quote - p] == t && t[n..] == s[p + n..quote];
      EscapesBackslash(s[p..]);
      UnitInFront(s[p..], quote - p);
      UnitEmits(t);
      Decoded(t);
    }
  }

  lemma QuoteTaken(s: CString, p: nat)
    requires p < |s| && Escapes(s[p..]) && s[p] == '"'
    ensures ScanFrom(s, p) == Closed(p) && Escapes(s[p + 1..]) && Cstr.Unrepr(s[p..p]) == Some([])
  {
    assert s[p..][1..] == s[p + 1..] && s[p..p] == [];
  }

  /** A scan that does not close at once closes behind the unit that it takes. */
  lemma ScanBehind(s: CString, p: nat, quote: nat)
    requires p < |s| && ScanFrom(s, p) == Closed(quote) && s[p] != '"'
    ensures p < quote
    ensures forall q: nat :: ScanFrom(s, q) == Closed(quote) ==> q <= quote
  {
  }

  lemma Decoded(t: CString)
    requires t != [] && Cstr.DecodeUnit(t).Some? && Cstr.Unrepr(t[Cstr.DecodeUnit(t).value.1..]).Some?
    ensures Cstr.Unrepr(t).Some?
    ensures Cstr.DecodeUnit(t).value.0 != [] ==> Cstr.Unrepr(t).value != []
  {
    hide Cstr.DecodeUnit;
  }

  lemma EscapesBackslash(t: Bytes)
    requires t != [] && Escapes(t)
    ensures t[0] == '\\' ==> |t| > 1
  {
  }

  lemma {:induction false} ScanClosesOrEnds(s: CString, p: nat)
    requires p <= |s| && Escapes(s[p..])
    ensures !ScanFrom(s, p).RanOut?
    decreases |s| - p
  {
    if p < |s| && s[p] != '"' {
      UnitScanned(s, p);
      ScanClosesOrEnds(s, p + UnitLength(s[p..]));
    }
  }

  lemma StringEscapes(s: CString)
    requires s != [] && s[0] == '"' && Escapes(s)
    ensures var p := ParseString(s); !p.BadString? && (p.String? ==> !p.torn && Escapes(s[p.offset..]))
  {
    hide Cstr.Unrepr;
    hide ScanFrom;
    assert Escapes(s[1..]);
    ScanClosesOrEnds(s, 1);
    if ScanFrom(s, 1).Closed? {
      StringTaken(s, 1, ScanFrom(s, 1).quote);
      hide Escapes;
      if ScanFrom(s, 1).quote == 1 {
        assert s[1..1] == [];
      }
    }
  }

  lemma PrimitiveEscapes(s: CString)
    requires s != [] && Escapes(s) && ParsePrimitive(s).Some?
    ensures Escapes(s[ParsePrimitive(s).value.1..])
  {
    Numbers.NumberPlain(s);
    hide Numbers.ToNumber;
    PlainEscapes(s, ParsePrimitive(s).value.1);
  }

  ghost predicate NoTorn(stack: seq<Item>) {
    forall k :: 0 <= k < |stack| ==> stack[k].Obj?
  }

  lemma CompleteStays(stack: seq<Item>, v: V)
    requires NoTorn(stack)
    ensures NoTorn(Complete(stack, v).stack)
  {
    hide MapSet;
  }

  lemma CloseStays(c: byte, st: State)
    requires NoTorn(st.stack)
    ensures NoTorn(CloseContainer(c, st).stack)
  {
    hide Complete;
    if |st.stack| > 1 {
      CompleteStays(Pop(st.stack), Top(st.stack).v);
    }
  }

  lemma OpenStays(c: byte, st: State)
    requires NoTorn(st.stack)
    ensures NoTorn(OpenContainer(c, st).stack)
  {
  }

  /** What a round leaves: no torn label and a text of this kind. */
  ghost predicate StaysSafe(s: CString, r: (nat, State)) {
    r.0 <= |s| && NoTorn(r.1.stack) && (r.1.err == Success ==> Escapes(s[r.0..]))
  }

  lemma StringStays(s: CString, st: State)
    requires s != [] && s[0] == '"' && Escapes(s) && NoTorn(st.stack)
    ensures StaysSafe(s, TakeString(s, st))
  {
    hide Complete;
    hide ParseString;
    hide Escapes;
    StringEscapes(s);
    assert s[0..] == s;
    if ParseString(s).String? {
      CompleteStays(st.stack, Str(ParseString(s).text));
    }
  }

  lemma PrimitiveStays(s: CString, st: State)
    requires s != [] && Escapes(s) && NoTorn(st.stack)
    ensures StaysSafe(s, TakePrimitive(s, st))
  {
    hide Complete;
    hide ParsePrimitive;
    hide Escapes;
    assert s[0..] == s;
    if ParsePrimitive(s).Some? {
      PrimitiveEscapes(s);
      CompleteStays(st.stack, ParsePrimitive(s).value.0);
    }
  }

  lemma StepStays(s: CString, st: State)
    requires s != [] && Escapes(s) && NoTorn(st.stack) && st.err == Success
    ensures StaysSafe(s, Step(s, st))
  {
    hide Escapes;
    hide NoTorn;
    hide OpenContainer;
    hide CloseContainer;
    hide TakeString;
    hide TakePrimitive;
    OpenStays(s[0], st);
    CloseStays(s[0], st);
    PrimitiveStays(s, st);
    FirstPlain(s);
    if s[0] == '"' {
      StringStays(s, st);
    }
  }

  lemma FirstPlain(s: CString)
    requires s != [] && Escapes(s)
    ensures s[0] != '\\' ==> Escapes(s[1..])
    ensures s[0] == '\\' ==> ParsePrimitive(s).None?
  {
  }

  lemma SafeStep(s: CString, st: State)
    requires s != [] && Escapes(s) && NoTorn(st.stack) && Inv(st) && st.err == Success
    ensures Step(s, st).1.err != OverRead
  {
    hide Step;
    hide Escapes;
    hide ParseString;
    hide StringOverruns;
    StepOverrunsIff(s, st);
    BadStringIff(s);
    if s[0] == '"' {
      StringEscapes(s);
    }
  }

  lemma {:induction false} RunStays(s: CString, st: State)
    requires Escapes(s) && NoTorn(st.stack) && Inv(st) && st.err == Success
    ensures Run(s, st).err != OverRead
    decreases |s|
  {
    if s != [] {
      StepAdvances(s, st);
      StepKeeps(s, st);
      StepStays(s, st);
      SafeStep(s, st);
      var (n, next) := Step(s, st);
      hide Step;
      hide Escapes;
      hide NoTorn;
      hide Inv;
      if next.err == Success {
        RunStays(s[n..], next);
      }
    }
  }

  /** Main result: the parser stays inside every text whose escapes are known and complete. */
  lemma EscapesStayInside(cstr: CString)
    requires Escapes(cstr)
    ensures Parse(cstr).1 != OverRead
  {
    assert Inv(INITIAL);
    hide Escapes;
    hide Run;
    RunStays(cstr, INITIAL);
  }

  /** In particular, every text in which each backslash is followed by one of the letters. */
  lemma {:induction false} LettersEscape(s: Bytes)
    requires forall i :: 0 <= i < |s| && s[i] == '\\' ==> i + 1 < |s| && Cstr.EscapedChar(s[i + 1]).Some?
    ensures Escapes(s)
  {
    if s != [] {
      var n := if s[0] == '\\' then 2 else 1;
      var t := s[n..];
      forall i | 0 <= i < |t| && t[i] == '\\'
        ensures i + 1 < |t| && Cstr.EscapedChar(t[i + 1]).Some?
      {
        assert s[i + n] == '\\';
      }
      LettersEscape(t);
    }
  }
}
