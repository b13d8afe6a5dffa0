/**
 * Keys that `map_to_cstr` prints raw although they hold a quote or a backslash (src/map.c:253).
 * A tree with such a key, anywhere in it, never survives the round trip: reading its text
 * makes no label that weighs as much as its heaviest unclean key.
 */
module RawKeys {
  import opened Bytes
  import opened Values
  import opened JsonText
  import opened JsonParse
  import opened JsonRoundTrip
  import opened JsonInvariant
  import Cstr
  import Numbers
  import NumberTokens
  import Utf8

  // ---- weights -------------------------------------------------------------------------

  predicate Special(c: byte) {
    c == '"' || c == '\\'
  }

  /** The length up to the last quote or backslash. */
  function Core(s: Bytes): (n: nat)
    ensures n <= |s| && (n > 0 ==> Special(s[n - 1])) && forall k :: n <= k < |s| ==> !Special(s[k])
  {
    if s == [] then 0 else if Special(s[|s| - 1]) then |s| else Core(s[..|s| - 1])
  }

  function Slashes(s: Bytes): (n: nat)
    ensures n <= |s|
  {
    if s == [] then 0 else (if s[0] == '\\' then 1 else 0) + Slashes(s[1..])
  }

  type Weight = (nat, nat)

  function WeightOf(s: Bytes): Weight {
    (Core(s) + Slashes(s), |s|)
  }

  predicate Less(a: Weight, b: Weight) {
    a.0 < b.0 || (a.0 == b.0 && a.1 < b.1)
  }

  lemma CoreClean(s: Bytes)
    ensures Core(s) == 0 <==> CleanKey(s)
  {
  }

  lemma CoreIs(s: Bytes, n: nat)
    requires n <= |s| && (n > 0 ==> Special(s[n - 1])) && forall k :: n <= k < |s| ==> !Special(s[k])
    ensures Core(s) == n
  {
    hide Core;
    var m := Core(s);
    assert n > 0 ==> m >= n;
    assert m > 0 ==> n >= m;
  }

  lemma CoreAppend(a: Bytes, b: Bytes)
    ensures Core(a + b) == if Core(b) > 0 then |a| + Core(b) else Core(a)
  {
    var n := if Core(b) > 0 then |a| + Core(b) else Core(a);
    hide Core;
    forall k | n <= k < |a + b|
      ensures !Special((a + b)[k])
    {
      if k >= |a| {
        assert (a + b)[k] == b[k - |a|];
      }
    }
    CoreIs(a + b, n);
  }

  lemma {:induction false} SlashesAppend(a: Bytes, b: Bytes)
    ensures Slashes(a + b) == Slashes(a) + Slashes(b)
  {
    if a == [] {
      assert a + b == b;
    } else {
      SlashesAppend(a[1..], b);
      assert (a + b)[1..] == a[1..] + b;
    }
  }

  lemma {:induction false} SlashesSome(s: Bytes, i: nat)
    requires i < |s| && s[i] == '\\'
    ensures Slashes(s) >= 1
  {
    if i > 0 {
      SlashesSome(s[1..], i - 1);
    }
  }

  lemma {:induction false} SlashesNone(s: Bytes)
    requires forall i :: 0 <= i < |s| ==> s[i] != '\\'
    ensures Slashes(s) == 0
  {
    if s != [] {
      SlashesNone(s[1..]);
    }
  }

  /** A part of a string weighs no more than the string. */
  lemma PartWeight(a: Bytes, b: Bytes, c: Bytes)
    ensures Core(b) <= Core(a + b + c) && Slashes(b) <= Slashes(a + b + c)
  {
    CoreAppend(a + b, c);
    CoreAppend(a, b);
    SlashesAppend(a + b, c);
    SlashesAppend(a, b);
  }

  lemma CStringWeight(s: Bytes)
    ensures Core(CStringOf(s)) <= Core(s) && Slashes(CStringOf(s)) <= Slashes(s) && |CStringOf(s)| <= |s|
  {
    var t := CStringOf(s);
    assert s == [] + t + s[|t|..];
    PartWeight([], t, s[|t|..]);
  }

  // ---- decoding adds no weight ---------------------------------------------------------

  /** An escape emits a quote or a backslash only as a single byte. */
  lemma UnitWeight(s: CString)
    requires s != [] && Cstr.DecodeUnit(s).Some?
    ensures var (t, n) := Cstr.DecodeUnit(s).value;
            && 1 <= n <= |s| && |t| <= n
            && (Core(t) > 0 || Slashes(t) > 0 ==> s[0] == '\\' && |t| == 1)
            && Core(t) <= 1 && Slashes(t) <= 1
            && (n > 1 ==> s[0] == '\\')
  {
    var (t, n) := Cstr.DecodeUnit(s).value;
    UnitBackslash(s);
    if |t| > 1 {
      CoreIs(t, 0);
      SlashesNone(t);
    }
  }

  lemma UnitBackslash(s: CString)
    requires s != [] && Cstr.DecodeUnit(s).Some?
    ensures var (t, n) := Cstr.DecodeUnit(s).value;
            && (n > 1 ==> s[0] == '\\')
            && (s[0] != '\\' ==> forall k :: 0 <= k < |t| ==> !Special(t[k]))
            && (|t| > 1 ==> forall k :: 0 <= k < |t| ==> !Special(t[k]))
  {
    if |s| >= 6 {
      EncodePlain(Cstr.HexValue(s[2..6]) % 0x10000);
    }
    hide Cstr.HexValue;
    hide Utf8.Encode;
  }

  lemma EncodePlain(u: nat)
    requires u < 0x10000
    ensures |Utf8.Encode(u)| > 1 ==> forall k :: 0 <= k < |Utf8.Encode(u)| ==> !Special(Utf8.Encode(u)[k])
  {
  }

  lemma UnreprSplit(s: CString, t: Bytes, n: nat)
    requires s != [] && Cstr.Unrepr(s).Some? && Cstr.DecodeUnit(s) == Some((t, n))
    ensures |t| <= n <= |s| && NulFree(s[n..]) && Cstr.Unrepr(s[n..]).Some?
    ensures Cstr.Unrepr(s).value == t + Cstr.Unrepr(s[n..]).value
  {
  }

  lemma UnitThere(s: CString)
    requires s != [] && Cstr.Unrepr(s).Some?
    ensures Cstr.DecodeUnit(s).Some?
  {
  }

  lemma {:induction false} DecodeWeight(s: CString)
    requires Cstr.Unrepr(s).Some?
    ensures var t := Cstr.Unrepr(s).value; Core(t) <= Core(s) && Slashes(t) <= Slashes(s)
    decreases |s|
  {
    if s == [] {
      assert Cstr.Unrepr(s) == Some([]);
    } else {
      hide *;
      UnitThere(s);
      var (t, n) := Cstr.DecodeUnit(s).value;
      UnreprSplit(s, t, n);
      UnitWeight(s);
      DecodeWeight(s[n..]);
      SumWeight(s, n, t, Cstr.Unrepr(s[n..]).value);
    }
  }

  lemma SumWeight(s: Bytes, n: nat, t: Bytes, rest: Bytes)
    requires 1 <= n <= |s| && |t| <= n && Core(t) <= 1 && Slashes(t) <= 1
    requires Core(t) > 0 || Slashes(t) > 0 ==> s[0] == '\\'
    requires Core(rest) <= Core(s[n..]) && Slashes(rest) <= Slashes(s[n..])
    ensures Core(t + rest) <= Core(s) && Slashes(t + rest) <= Slashes(s)
  {
    assert s == s[..n] + s[n..];
    CoreAppend(t, rest);
    CoreAppend(s[..n], s[n..]);
    SlashesAppend(t, rest);
    SlashesAppend(s[..n], s[n..]);
    if s[0] == '\\' {
      SlashesSome(s[..n], 0);
      assert Core(s) > 0;
    }
  }

  /** A closing quote behind a key that ends in a backslash is read as a part of the label. */
  lemma {:induction false} CrossWeight(w: CString, e: CString)
    requires w != [] && w[|w| - 1] == '\\' && e != [] && e[0] == '"'
    requires forall k :: 1 <= k < |e| ==> !Special(e[k])
    requires Cstr.Unrepr(w + e).Some?
    ensures var t := Cstr.Unrepr(w + e).value; Core(t) <= |w| && Slashes(t) < Slashes(w)
    decreases |w|
  {
    hide *;
    var s: CString := Together(w, e);
    UnitThere(s);
    var (t, n) := Cstr.DecodeUnit(s).value;
    UnreprSplit(s, t, n);
    UnitWeight(s);
    DropAppend(w, e, n);
    if n < |w| {
      var v := Behind(w, n);
      CrossWeight(v, e);
      CrossStep(w, e, n, t, Cstr.Unrepr(v + e).value);
    } else {
      CrossLast(w, e, s, t, n);
    }
  }

  lemma Together(w: CString, e: CString) returns (s: CString)
    requires w != [] && e != []
    ensures s == w + e && s != [] && s[0] == w[0]
  {
    NulFreeParts(w, e);
    s := w + e;
  }

  lemma Behind(w: CString, n: nat) returns (v: CString)
    requires n < |w|
    ensures v == w[n..] && v != [] && v[|v| - 1] == w[|w| - 1]
  {
    NulFreeSlice(w, n, |w|);
    v := w[n..];
  }

  lemma CrossStep(w: Bytes, e: Bytes, n: nat, t: Bytes, rest: Bytes)
    requires 1 <= n < |w| && |t| <= n && Core(t) <= 1 && Slashes(t) <= 1
    requires Core(t) > 0 || Slashes(t) > 0 ==> w[0] == '\\'
    requires Core(rest) <= |w| - n && Slashes(rest) < Slashes(w[n..])
    ensures Core(t + rest) <= |w| && Slashes(t + rest) < Slashes(w)
  {
    assert w == w[..n] + w[n..];
    CoreAppend(t, rest);
    SlashesAppend(t, rest);
    SlashesAppend(w[..n], w[n..]);
    if w[0] == '\\' {
      SlashesSome(w[..n], 0);
    }
  }

  /** The unit that reaches to the end of the key or past it. */
  lemma CrossLast(w: CString, e: CString, s: CString, t: Bytes, n: nat)
    requires w != [] && w[|w| - 1] == '\\' && e != [] && e[0] == '"'
    requires forall k :: 1 <= k < |e| ==> !Special(e[k])
    requires s == w + e && Cstr.Unrepr(s).Some? && Cstr.DecodeUnit(s) == Some((t, n)) && n >= |w|
    ensures var r := Cstr.Unrepr(s).value; Core(r) <= |w| && Slashes(r) < Slashes(w)
  {
    hide *;
    UnitWeight(s);
    UnreprSplit(s, t, n);
    DropAppend(w, e, n);
    PlainTail(e, n - |w|);
    var rest := Cstr.Unrepr(e[n - |w|..]).value;
    CoreAppend(t, rest);
    SlashesAppend(t, rest);
    LastSlashes(w, e, s, t, n);
  }

  lemma PlainTail(e: CString, m: nat)
    requires e != [] && e[0] == '"' && m <= |e| && forall k :: 1 <= k < |e| ==> !Special(e[k])
    ensures NulFree(e[m..]) && Cstr.Unrepr(e[m..]).Some?
    ensures Core(Cstr.Unrepr(e[m..]).value) == 0 && Slashes(Cstr.Unrepr(e[m..]).value) == 0
  {
    NulFreeSlice(e, m, |e|);
    PlainDecoded(e[m..]);
  }

  /** What the last unit emits has fewer backslashes than the text in front of the quote. */
  lemma LastSlashes(w: CString, e: CString, s: CString, t: Bytes, n: nat)
    requires w != [] && w[|w| - 1] == '\\' && e != [] && e[0] == '"'
    requires s == w + e && Cstr.DecodeUnit(s) == Some((t, n)) && n >= |w|
    ensures Slashes(t) < Slashes(w)
  {
    UnitWeight(s);
    SlashesSome(w, |w| - 1);
    if |w| == 1 {
      LoneSlash(s, t, n);
    } else if Slashes(t) > 0 {
      hide Cstr.DecodeUnit;
      assert s[0] == w[0];
      assert w == [w[0]] + w[1..];
      SlashesAppend([w[0]], w[1..]);
      SlashesSome([w[0]], 0);
      SlashesSome(w[1..], |w| - 2);
    }
  }

  lemma LoneSlash(s: CString, t: Bytes, n: nat)
    requires |s| > 1 && s[0] == '\\' && s[1] == '"' && Cstr.DecodeUnit(s) == Some((t, n))
    ensures Slashes(t) == 0
  {
    assert t == "\"";
    SlashesNone(t);
  }

  /** Decoding text without backslashes drops its quotes. */
  lemma {:induction false} PlainDecoded(e: CString)
    requires forall k :: 0 <= k < |e| ==> e[k] != '\\'
    ensures Cstr.Unrepr(e).Some? && Core(Cstr.Unrepr(e).value) == 0 && Slashes(Cstr.Unrepr(e).value) == 0
    decreases |e|
  {
    if e == [] {
      assert Cstr.Unrepr(e) == Some([]);
    } else {
      NulFreeSlice(e, 1, |e|);
      PlainDecoded(e[1..]);
      var t: Bytes := if e[0] == '"' then [] else [e[0]];
      var rest := Cstr.Unrepr(e[1..]).value;
      assert Cstr.Unrepr(e) == Some(t + rest);
      hide Cstr.Unrepr;
      CoreAppend(t, rest);
      SlashesAppend(t, rest);
      CoreIs(t, 0);
      SlashesNone(t);
    }
  }

  // ---- labels --------------------------------------------------------------------------

  /** Clean, or lighter than `w`. */
  predicate LabelOk(label_: Bytes, w: Weight) {
    CleanKey(label_) || Less(WeightOf(label_), w)
  }

  /** The first thing behind the spaces ends a value, or nothing is there. */
  predicate Stops(t: Bytes) {
    t == [] || (if IsSpace(t[0]) then Stops(t[1..]) else t[0] == ',' || t[0] == ']' || t[0] == '}')
  }

  /** What a string at this place can be: a good label, or none because no colon follows. */
  predicate StringOk(s: Bytes, w: Weight) {
    s != [] && NulFree(s) ==>
      match ParseString(s)
      case String(text, _, offset) => LabelOk(CStringOf(text), w) || Stops(s[offset..])
      case _ => true
  }

  predicate StringsOk(t: Bytes, w: Weight) {
    forall p :: 0 <= p < |t| && t[p] == '"' ==> StringOk(t[p..], w)
  }

  /** No backslash in front of the first quote. */
  predicate QuoteFirst(t: Bytes) {
    t == [] || t[0] == '"' || (t[0] != '\\' && QuoteFirst(t[1..]))
  }

  ghost predicate Sound(t: Bytes, w: Weight) {
    NulFree(t) && QuoteFirst(t) && StringsOk(t, w)
  }

  /** A scan that starts between tokens meets no backslash before it ends. */
  lemma {:induction false} ScanMeetsNoBackslash(s: CString, p: nat, q: nat)
    requires p <= |s| && QuoteFirst(s[p..]) && ScanFrom(s, p) == Closed(q)
    ensures p <= q && forall k :: p <= k < q ==> !Special(s[k])
    decreases |s| - p
  {
    if p < |s| && s[p] != '"' {
      assert s[p..][1..] == s[p + 1..];
      ScanMeetsNoBackslash(s, p + 1, q);
    }
  }

  /** The scan passes the closing quote only behind a backslash that ends the key. */
  lemma {:induction false} PassedQuote(s: CString, p: nat, c: nat, q: nat)
    requires p <= c < |s| && s[c] == '"' && ScanFrom(s, p) == Closed(q) && q > c
    ensures c > p && s[c - 1] == '\\' && ScanFrom(s, c + 1) == Closed(q)
    decreases c - p
  {
    if s[p] == '\\' {
      if p + 1 < c {
        PassedQuote(s, p + 2, c, q);
      }
    } else {
      PassedQuote(s, p + 1, c, q);
    }
  }

  /** What is read between the quotes is the text itself or its decoding. */
  lemma ParsedWeight(s: CString, q: nat)
    requires s != [] && ScanFrom(s, 1) == Closed(q) && ParseString(s).String?
    ensures var raw, label_ := s[1..q], CStringOf(ParseString(s).text);
            && ParseString(s).offset == q + 1
            && Core(label_) <= Core(raw) && Slashes(label_) <= Slashes(raw) && |label_| <= |raw|
            && (HasBackslash(raw) ==> |label_| < |raw|)
            && (!HasBackslash(raw) ==> CleanKey(label_))
  {
    hide Core;
    hide Slashes;
    hide ScanFrom;
    var raw := s[1..q];
    NulFreeSlice(s, 1, q);
    CStringWeight(ParseString(s).text);
    if HasBackslash(raw) {
      DecodeWeight(raw);
      DecodingShrinks(raw);
    } else {
      NoQuoteInside(s, q);
      CoreIs(raw, 0);
      CoreClean(CStringOf(raw));
    }
  }

  lemma NoQuoteInside(s: CString, q: nat)
    requires s != [] && ScanFrom(s, 1) == Closed(q) && !HasBackslash(s[1..q])
    ensures forall k :: 0 <= k < q - 1 ==> !Special(s[1..q][k])
  {
    var raw := s[1..q];
    assert forall k :: 1 <= k < q ==> s[k] == raw[k - 1];
    forall k | 1 <= k < q
      ensures s[k] != '"'
    {
      if s[k] == '"' {
        ScanStops(s, 1, k);
      }
    }
  }

  /** Text between tokens, read as a label, is clean. */
  lemma TailLabel(t: Bytes, w: Weight)
    requires QuoteFirst(t)
    ensures StringOk("\"" + t, w)
  {
    var s := "\"" + t;
    if NulFree(s) && ParseString(s).String? {
      var q := ScanFrom(s, 1).quote;
      assert s[1..] == t;
      ScanMeetsNoBackslash(s, 1, q);
      assert forall k :: 0 <= k < q - 1 ==> s[1..q][k] == s[k + 1];
      hide QuoteFirst;
      hide ScanFrom;
      ParsedWeight(s, q);
    }
  }

  /**
   * Reading from the opening quote of a raw key, or from any quote inside it, makes a label
   * that is clean or lighter than the key.
   */
  lemma KeyLabel(u: CString, o: nat, rest: CString, s: CString)
    requires o <= |u| && s == "\"" + u[o..] + "\"" + rest && QuoteFirst(rest)
    ensures ParseString(s).String? ==> LabelOk(CStringOf(ParseString(s).text), WeightOf(u))
  {
    if ParseString(s).String? {
      var q := ScanFrom(s, 1).quote;
      var n := |u| - o;
      hide *;
      ScanQuote(s);
      KeyPlaces(u[o..], rest, s);
      ParsedWeight(s, q);
      if q <= n {
        ClosedInside(u, o, s, q);
      } else if q == n + 1 {
        ClosedAtEnd(u, o, s, q);
      } else {
        ClosedBehind(u, o, rest, s, q);
      }
    }
  }

  lemma ScanQuote(s: CString)
    requires s != [] && ParseString(s).String?
    ensures ScanFrom(s, 1).Closed?
  {
  }

  lemma KeyPlaces(key: Bytes, rest: Bytes, s: Bytes)
    requires s == "\"" + key + "\"" + rest
    ensures |s| >= |key| + 2 && s[1..1 + |key|] == key && s[1 + |key|] == '"' && s[|key| + 2..] == rest
  {
    assert s == "\"" + (key + ("\"" + rest));
  }

  lemma ClosedInside(u: CString, o: nat, s: CString, q: nat)
    requires o <= |u| && 1 <= q <= |u| - o && |s| >= |u| - o + 2 && s[1..1 + |u| - o] == u[o..]
    requires ScanFrom(s, 1) == Closed(q) && ParseString(s).String?
    ensures LabelOk(CStringOf(ParseString(s).text), WeightOf(u))
  {
    hide *;
    ScanInside(s);
    InsideParts(u, o, s, q);
    ParsedWeight(s, q);
    PartWeight(u[..o], s[1..q], u[o + q - 1..]);
    CoreReaches(u, o + q - 1);
    LighterInside(CStringOf(ParseString(s).text), u, q);
  }

  lemma InsideParts(u: Bytes, o: nat, s: Bytes, q: nat)
    requires o <= |u| && 1 <= q <= |u| - o && |s| >= |u| - o + 2 && s[1..1 + |u| - o] == u[o..] && s[q] == '"'
    ensures u == u[..o] + s[1..q] + u[o + q - 1..] && u[o + q - 1] == '"'
  {
    var v := u[o..];
    assert s[1..q] == s[1..1 + |u| - o][..q - 1];
    assert v[..q - 1] == u[o..o + q - 1] && v[q - 1] == u[o + q - 1];
    assert s[1..1 + |u| - o][q - 1] == s[q];
  }

  lemma CoreReaches(u: Bytes, i: nat)
    requires i < |u| && u[i] == '"'
    ensures Core(u) > i
  {
    assert Special(u[i]);
  }

  lemma LighterInside(label_: Bytes, u: Bytes, q: nat)
    requires Core(label_) < q <= Core(u) && Slashes(label_) <= Slashes(u)
    ensures LabelOk(label_, WeightOf(u))
  {
  }

  lemma ClosedAtEnd(u: CString, o: nat, s: CString, q: nat)
    requires o <= |u| && q == |u| - o + 1 && |s| >= |u| - o + 2 && s[1..1 + |u| - o] == u[o..]
    requires ScanFrom(s, 1) == Closed(q) && ParseString(s).String?
    ensures LabelOk(CStringOf(ParseString(s).text), WeightOf(u))
  {
    hide *;
    ParsedWeight(s, q);
    assert s[1..q] == u[o..];
    WholeParts(u, o);
    PartWeight(u[..o], u[o..], []);
    LighterTail(CStringOf(ParseString(s).text), u, u[o..]);
  }

  lemma WholeParts(u: Bytes, o: nat)
    requires o <= |u|
    ensures u == u[..o] + u[o..] + []
  {
  }

  lemma LighterTail(label_: Bytes, u: Bytes, raw: Bytes)
    requires Core(label_) <= Core(raw) <= Core(u) && Slashes(label_) <= Slashes(raw) <= Slashes(u)
    requires |raw| <= |u| && (CleanKey(label_) || |label_| < |raw|)
    ensures LabelOk(label_, WeightOf(u))
  {
  }

  lemma ClosedBehind(u: CString, o: nat, rest: CString, s: CString, q: nat)
    requires o <= |u| && s == "\"" + u[o..] + "\"" + rest && QuoteFirst(rest)
    requires ScanFrom(s, 1) == Closed(q) && q > |u| - o + 1 && ParseString(s).String?
    ensures LabelOk(CStringOf(ParseString(s).text), WeightOf(u))
  {
    hide *;
    var v := TailOf(u, o);
    KeyPlaces(v, rest, s);
    PassedQuote(s, 1, 1 + |v|, q);
    ScanInside(s);
    ScanMeetsNoBackslash(s, |v| + 2, q);
    var e := Crossing(s, v, q);
    ParsedCrossing(s, v, e, q);
    CrossWeight(v, e);
    CStringWeight(Cstr.Unrepr(v + e).value);
    CrossedLess(u, o, v, CStringOf(Cstr.Unrepr(v + e).value));
  }

  lemma TailOf(u: CString, o: nat) returns (v: CString)
    requires o <= |u|
    ensures v == u[o..]
  {
    NulFreeSlice(u, o, |u|);
    v := u[o..];
  }

  lemma ScanInside(s: CString)
    requires s != []
    ensures ScanFrom(s, 1).Closed? ==> 1 <= ScanFrom(s, 1).quote < |s| && s[ScanFrom(s, 1).quote] == '"'
  {
  }

  lemma Crossing(s: CString, v: CString, q: nat) returns (e: CString)
    requires |v| + 2 <= q < |s| && s[1..1 + |v|] == v && s[1 + |v|] == '"'
    requires forall k :: |v| + 2 <= k < q ==> !Special(s[k])
    ensures e != [] && e[0] == '"' && s[1..q] == v + e
    ensures forall k :: 1 <= k < |e| ==> !Special(e[k])
  {
    NulFreeSlice(s, 1 + |v|, q);
    e := s[1 + |v|..q];
    assert forall k :: 0 <= k < |e| ==> e[k] == s[1 + |v| + k];
    assert s[1..q] == s[1..1 + |v|] + s[1 + |v|..q];
  }

  lemma ParsedCrossing(s: CString, v: CString, e: CString, q: nat)
    requires s != [] && ScanFrom(s, 1) == Closed(q) && ParseString(s).String? && s[1..q] == v + e
    requires v != [] && v[|v| - 1] == '\\'
    ensures NulFree(v + e) && Cstr.Unrepr(v + e) == Some(ParseString(s).text)
  {
    hide Cstr.Unrepr;
    hide ScanFrom;
    NulFreeSlice(s, 1, q);
    assert (v + e)[|v| - 1] == '\\';
  }

  lemma CrossedLess(u: CString, o: nat, v: CString, label_: Bytes)
    requires o <= |u| && v == u[o..] && v != [] && v[|v| - 1] == '\\'
    requires Core(label_) <= |v| && Slashes(label_) < Slashes(v)
    ensures LabelOk(label_, WeightOf(u))
  {
    hide Slashes;
    assert u == u[..o] + v + [];
    PartWeight(u[..o], v, []);
    CoreIs(u, |u|);
  }

  // ---- text in which every string is good ----------------------------------------------

  /** A piece without quotes in front. */
  lemma StringsBehind(a: Bytes, t: Bytes, w: Weight)
    requires StringsOk(t, w) && forall k :: 0 <= k < |a| ==> a[k] != '"'
    ensures StringsOk(a + t, w)
  {
    hide StringOk;
    forall p | 0 <= p < |a + t| && (a + t)[p] == '"'
      ensures StringOk((a + t)[p..], w)
    {
      DropAppend(a, t, p);
      assert t[p - |a|] == '"';
    }
  }

  lemma StringsCons(t: Bytes, w: Weight)
    requires StringsOk(t, w) && StringOk("\"" + t, w)
    ensures StringsOk("\"" + t, w)
  {
    hide StringOk;
    var s := "\"" + t;
    forall p | 0 <= p < |s| && s[p] == '"'
      ensures StringOk(s[p..], w)
    {
      if p > 0 {
        assert s[p..] == t[p - 1..] && t[p - 1] == '"';
      } else {
        assert s[0..] == s;
      }
    }
  }

  lemma {:induction false} QuoteFirstPlain(a: Bytes, t: Bytes)
    requires QuoteFirst(t) && forall k :: 0 <= k < |a| ==> a[k] != '\\'
    ensures QuoteFirst(a + t)
  {
    if a == [] {
      EmptyFront(t);
    } else if a[0] != '"' {
      QuoteFirstPlain(a[1..], t);
      assert (a + t)[1..] == a[1..] + t;
    }
  }

  predicate NoQuoting(a: Bytes) {
    forall k :: 0 <= k < |a| ==> !Special(a[k]) && a[k] != NUL
  }

  lemma PlainSound(a: Bytes, t: Bytes, w: Weight)
    requires NoQuoting(a) && Sound(t, w)
    ensures Sound(a + t, w)
  {
    hide StringsOk;
    hide QuoteFirst;
    NulFreeParts(a, t);
    QuoteFirstPlain(a, t);
    StringsBehind(a, t, w);
  }

  /** A printed string that is followed by the end of a value: no string in it can be a label. */
  lemma PrintedStops(x: Bytes, rest: Bytes, w: Weight)
    requires Stops(rest)
    ensures StringOk("\"" + (Cstr.ReprBody(x) + ("\"" + rest)), w)
  {
    var s := "\"" + (Cstr.ReprBody(x) + ("\"" + rest));
    if NulFree(s) {
      ReprScanned(x, s, rest);
      assert s[|Cstr.ReprBody(x)| + 2..] == rest;
      hide Cstr.ReprBody;
      hide ScanFrom;
      hide Stops;
    }
  }

  /** A unit with a quote in it is the escaped quote. */
  lemma UnitWithQuote(x: Bytes)
    requires x != []
    ensures var unit := Cstr.ReprUnit(x).0;
            NulFree(unit) && (unit == "\\\"" || forall k :: 0 <= k < |unit| ==> unit[k] != '"')
  {
    UnitQuoted(x);
    UnitNulFree(x);
  }

  lemma UnitNulFree(x: Bytes)
    requires x != []
    ensures NulFree(Cstr.ReprUnit(x).0)
  {
    assert Cstr.Unrepr([]) == Some([]);
    Cstr.UnitDecodes(x, []);
    assert Cstr.ReprUnit(x).0 + [] == Cstr.ReprUnit(x).0;
  }

  lemma {:induction false} BodySound(x: Bytes, rest: Bytes, w: Weight)
    requires Stops(rest) && Sound(rest, w)
    ensures NulFree(Cstr.ReprBody(x) + ("\"" + rest)) && StringsOk(Cstr.ReprBody(x) + ("\"" + rest), w)
    decreases |x|
  {
    var end := "\"" + rest;
    if x == [] {
      TailLabel(rest, w);
      StringsCons(rest, w);
      assert [] + end == end;
    } else {
      var (unit, n) := Cstr.ReprUnit(x);
      var body := Cstr.ReprBody(x[n..]);
      assert Cstr.ReprBody(x) == unit + body;
      hide *;
      BodySound(x[n..], rest, w);
      UnitWithQuote(x);
      NulFreeParts(unit, body + end);
      Assoc(unit, body, end);
      UnitFront(unit, x[n..], rest, w);
    }
  }

  lemma UnitFront(unit: Bytes, x: Bytes, rest: Bytes, w: Weight)
    requires unit == "\\\"" || forall k :: 0 <= k < |unit| ==> unit[k] != '"'
    requires Stops(rest) && StringsOk(Cstr.ReprBody(x) + ("\"" + rest), w)
    ensures StringsOk(unit + (Cstr.ReprBody(x) + ("\"" + rest)), w)
  {
    hide StringsOk;
    hide StringOk;
    hide Cstr.ReprBody;
    hide Stops;
    var t := Cstr.ReprBody(x) + ("\"" + rest);
    if unit == "\\\"" {
      PrintedStops(x, rest, w);
      StringsCons(t, w);
      StringsBehind("\\", "\"" + t, w);
      assert unit + t == "\\" + ("\"" + t);
    } else {
      StringsBehind(unit, t, w);
    }
  }

  lemma ReprSound(x: Bytes, rest: Bytes, w: Weight)
    requires Stops(rest) && Sound(rest, w)
    ensures Sound(Cstr.Repr(x) + rest, w)
  {
    hide Cstr.ReprBody;
    hide StringsOk;
    hide StringOk;
    hide Stops;
    var body := Cstr.ReprBody(x);
    BodySound(x, rest, w);
    PrintedStops(x, rest, w);
    StringsCons(body + ("\"" + rest), w);
    assert Cstr.Repr(x) + rest == "\"" + (body + ("\"" + rest));
  }

  /** A raw key that is clean or not too heavy. */
  lemma KeySound(u: CString, rest: Bytes, w: Weight)
    requires (CleanKey(u) || !Less(w, WeightOf(u))) && Sound(rest, w)
    ensures Sound("\"" + u + "\"" + rest, w)
  {
    var t := "\"" + u + "\"" + rest;
    hide StringOk;
    hide WeightOf;
    hide QuoteFirst;
    assert NulFree(t);
    forall p | 0 <= p < |t| && t[p] == '"'
      ensures StringOk(t[p..], w)
    {
      if p <= |u| {
        KeyQuote(u, p, rest, t, w);
      } else {
        BehindKey(u, p, rest, t, w);
      }
    }
    QuoteStarts(t);
  }

  lemma QuoteStarts(t: Bytes)
    requires t != [] && t[0] == '"'
    ensures QuoteFirst(t)
  {
  }

  lemma BehindKey(u: CString, p: nat, rest: Bytes, t: Bytes, w: Weight)
    requires t == "\"" + u + "\"" + rest && Sound(rest, w) && |u| < p < |t| && t[p] == '"'
    ensures StringOk(t[p..], w)
  {
    hide StringOk;
    hide QuoteFirst;
    if p == |u| + 1 {
      assert t[p..] == "\"" + rest;
      TailLabel(rest, w);
    } else {
      assert t[p..] == rest[p - |u| - 2..] && rest[p - |u| - 2] == '"';
    }
  }

  lemma KeyQuote(u: CString, p: nat, rest: CString, t: CString, w: Weight)
    requires t == "\"" + u + "\"" + rest && p <= |u| && t[p] == '"' && QuoteFirst(rest)
    requires CleanKey(u) || !Less(w, WeightOf(u))
    ensures StringOk(t[p..], w)
  {
    var s := t[p..];
    assert s == "\"" + u[p..] + "\"" + rest;
    hide *;
    if CleanKey(u) {
      CleanQuote(u, p, rest, t, w);
    } else {
      NulFreeSlice(t, p, |t|);
      KeyLabel(u, p, rest, s);
      Lighter(u, s, w);
    }
  }

  lemma CleanQuote(u: CString, p: nat, rest: CString, t: CString, w: Weight)
    requires CleanKey(u) && t == "\"" + u + "\"" + rest && p <= |u| && t[p] == '"'
    ensures StringOk(t[p..], w)
  {
    assert forall k :: 1 <= k <= |u| ==> t[k] == u[k - 1];
    assert t[0..] == t;
    RawKeyParsed(u, rest);
    WholeCString(u);
    hide ParseString;
  }

  lemma Lighter(u: Bytes, s: CString, w: Weight)
    requires s != [] && !Less(w, WeightOf(u))
    requires ParseString(s).String? ==> LabelOk(CStringOf(ParseString(s).text), WeightOf(u))
    ensures StringOk(s, w)
  {
    hide ParseString;
    hide Stops;
  }

  // ---- the keys of a tree --------------------------------------------------------------

  /** No unclean key is heavier than `w`. */
  predicate KeysAtMost(v: V, w: Weight) {
    match v
    case List(items) => forall i :: 0 <= i < |items| ==> KeysAtMost(items[i], w)
    case Map(entries) =>
      forall i :: 0 <= i < |entries| ==>
        (CleanKey(entries[i].key) || !Less(w, WeightOf(entries[i].key))) && KeysAtMost(entries[i].value, w)
    case _ => true
  }

  /** Every key is clean or lighter than `w`. */
  predicate KeysBelow(v: V, w: Weight) {
    match v
    case List(items) => forall i :: 0 <= i < |items| ==> KeysBelow(items[i], w)
    case Map(entries) => forall i :: 0 <= i < |entries| ==> LabelOk(entries[i].key, w) && KeysBelow(entries[i].value, w)
    case _ => true
  }

  /** Some unclean key weighs `w`. */
  predicate HasKey(v: V, w: Weight) {
    match v
    case List(items) => exists i :: 0 <= i < |items| && HasKey(items[i], w)
    case Map(entries) =>
      exists i :: 0 <= i < |entries| && (UncleanWeighs(entries[i].key, w) || HasKey(entries[i].value, w))
    case _ => false
  }

  lemma {:induction false} KeysAtMostUp(v: V, a: Weight, b: Weight)
    requires KeysAtMost(v, a) && !Less(b, a)
    ensures KeysAtMost(v, b)
    decreases v
  {
    match v
    case List(items) =>
      forall i | 0 <= i < |items|
        ensures KeysAtMost(items[i], b)
      {
        KeysAtMostUp(items[i], a, b);
      }
    case Map(entries) =>
      hide WeightOf;
      forall i | 0 <= i < |entries|
        ensures (CleanKey(entries[i].key) || !Less(b, WeightOf(entries[i].key))) && KeysAtMost(entries[i].value, b)
      {
        KeysAtMostUp(entries[i].value, a, b);
      }
    case _ =>
  }

  function Heavier(a: Weight, b: Weight): Weight {
    if Less(a, b) then b else a
  }

  lemma {:induction false} HasPositive(v: V, w: Weight)
    requires HasKey(v, w)
    ensures w.0 > 0
    decreases v
  {
    match v
    case List(items) =>
      var i :| 0 <= i < |items| && HasKey(items[i], w);
      HasPositive(items[i], w);
    case Map(entries) =>
      var i :| 0 <= i < |entries| && (UncleanWeighs(entries[i].key, w) || HasKey(entries[i].value, w));
      if UncleanWeighs(entries[i].key, w) {
        CoreClean(entries[i].key);
      } else {
        HasPositive(entries[i].value, w);
      }
  }

  predicate UncleanWeighs(key: Bytes, w: Weight) {
    !CleanKey(key) && WeightOf(key) == w
  }

  /** The weight of the heaviest unclean key. */
  ghost predicate IsHeaviest(v: V, w: Weight) {
    KeysAtMost(v, w) && if CleanKeys(v) then w == (0, 0) else HasKey(v, w)
  }

  lemma {:induction false} Heaviest(v: V) returns (w: Weight)
    ensures IsHeaviest(v, w)
    decreases v, 1
  {
    w := (0, 0);
    match v
    case List(items) => w := HeaviestItem(items);
    case Map(entries) => w := HeaviestEntry(entries);
    case _ =>
  }

  lemma {:induction false} HeaviestItem(items: seq<V>) returns (w: Weight)
    ensures IsHeaviest(List(items), w)
    decreases items, 0
  {
    w := (0, 0);
    if items != [] {
      var a := Heaviest(items[0]);
      var b := HeaviestItem(items[1..]);
      w := Heavier(a, b);
      hide *;
      JoinItems(items, a, b);
    }
  }

  /** The heavier one of two is a bound for both, and each of them where it is not (0, 0). */
  lemma HeavierUp(v: V, a: Weight, b: Weight)
    requires IsHeaviest(v, a)
    ensures KeysAtMost(v, Heavier(a, b)) && KeysAtMost(v, Heavier(b, a))
    ensures !CleanKeys(v) ==> a.0 > 0 && HasKey(v, a)
    ensures CleanKeys(v) ==> a == (0, 0)
  {
    KeysAtMostUp(v, a, Heavier(a, b));
    KeysAtMostUp(v, a, Heavier(b, a));
    if !CleanKeys(v) {
      HasPositive(v, a);
    }
  }

  lemma JoinItems(items: seq<V>, a: Weight, b: Weight)
    requires items != [] && IsHeaviest(items[0], a) && IsHeaviest(List(items[1..]), b)
    ensures IsHeaviest(List(items), Heavier(a, b))
  {
    var rest := items[1..];
    HeavierUp(items[0], a, b);
    HeavierUp(List(rest), b, a);
    hide WeightOf;
    assert forall i :: 1 <= i < |items| ==> items[i] == rest[i - 1];
    assert forall i :: 0 <= i < |rest| ==> rest[i] == items[i + 1];
  }

  lemma HeaviestEntry(entries: seq<Entry>) returns (w: Weight)
    ensures IsHeaviest(Map(entries), w)
    decreases entries, 0
  {
    w := (0, 0);
    if entries != [] {
      var c := HeaviestKey(entries[0].key);
      var a := Heaviest(entries[0].value);
      var b := HeaviestEntry(entries[1..]);
      w := Heavier(Heavier(c, a), b);
      hide *;
      JoinEntry(entries[0], c, a);
      JoinEntries(entries, Heavier(c, a), b);
    }
  }

  lemma HeaviestKey(key: Bytes) returns (w: Weight)
    ensures if CleanKey(key) then w == (0, 0) else w == WeightOf(key) && w.0 > 0
  {
    CoreClean(key);
    w := if CleanKey(key) then (0, 0) else WeightOf(key);
  }

  lemma JoinEntry(e: Entry, c: Weight, a: Weight)
    requires if CleanKey(e.key) then c == (0, 0) else c == WeightOf(e.key) && c.0 > 0
    requires IsHeaviest(e.value, a)
    ensures IsHeaviest(Map([e]), Heavier(c, a))
  {
    HeavierUp(e.value, a, c);
    hide WeightOf;
    assert [e][0] == e;
  }

  lemma JoinEntries(entries: seq<Entry>, a: Weight, b: Weight)
    requires entries != [] && IsHeaviest(Map([entries[0]]), a) && IsHeaviest(Map(entries[1..]), b)
    ensures IsHeaviest(Map(entries), Heavier(a, b))
  {
    hide *;
    var one, rest := [entries[0]], entries[1..];
    HeavierUp(Map(one), a, b);
    HeavierUp(Map(rest), b, a);
    EntriesApart(entries, Heavier(a, b));
    HeavierIs(a, b);
    HeaviestIs(Map(entries), Heavier(a, b));
  }

  lemma HeavierIs(a: Weight, b: Weight)
    ensures Heavier(a, b) == a || Heavier(a, b) == b
    ensures a.0 > 0 && b == (0, 0) ==> Heavier(a, b) == a
    ensures b.0 > 0 && a == (0, 0) ==> Heavier(a, b) == b
    ensures !Less(Heavier(a, b), a) && !Less(Heavier(a, b), b)
    ensures Heavier(a, b) == Heavier(b, a)
  {
  }

  lemma HeaviestIs(v: V, w: Weight)
    requires KeysAtMost(v, w) && if CleanKeys(v) then w == (0, 0) else HasKey(v, w)
    ensures IsHeaviest(v, w)
  {
  }

  lemma EntriesApart(entries: seq<Entry>, w: Weight)
    requires entries != []
    ensures var one, rest := Map([entries[0]]), Map(entries[1..]);
            && (KeysAtMost(one, w) && KeysAtMost(rest, w) ==> KeysAtMost(Map(entries), w))
            && (HasKey(one, w) || HasKey(rest, w) ==> HasKey(Map(entries), w))
            && (CleanKeys(Map(entries)) <==> CleanKeys(one) && CleanKeys(rest))
  {
    hide WeightOf;
    hide Less;
    hide CleanKey;
    var rest := entries[1..];
    assert [entries[0]][0] == entries[0];
    assert forall i :: 1 <= i < |entries| ==> entries[i] == rest[i - 1];
    assert forall i :: 0 <= i < |rest| ==> rest[i] == entries[i + 1];
  }

  /** No key can be lighter than itself. */
  lemma {:induction false} HasNotBelow(v: V, w: Weight)
    requires HasKey(v, w)
    ensures !KeysBelow(v, w)
    decreases v
  {
    match v
    case List(items) =>
      var i :| 0 <= i < |items| && HasKey(items[i], w);
      HasNotBelow(items[i], w);
    case Map(entries) =>
      var i :| 0 <= i < |entries| && (UncleanWeighs(entries[i].key, w) || HasKey(entries[i].value, w));
      if HasKey(entries[i].value, w) {
        HasNotBelow(entries[i].value, w);
      }
  }

  // ---- the text of a tree --------------------------------------------------------------

  lemma {:induction false} StopsBehind(a: Bytes, t: Bytes)
    requires AllSpaces(a) && Stops(t)
    ensures Stops(a + t)
  {
    if a == [] {
      EmptyFront(t);
    } else {
      StopsBehind(a[1..], t);
      assert (a + t)[1..] == a[1..] + t;
    }
  }

  lemma SpacesSound(a: Bytes, t: Bytes, w: Weight)
    requires AllSpaces(a) && Sound(t, w)
    ensures Sound(a + t, w) && (Stops(t) ==> Stops(a + t))
  {
    hide Sound;
    hide Stops;
    assert NoQuoting(a);
    PlainSound(a, t, w);
    if Stops(t) {
      StopsBehind(a, t);
    }
  }

  /** A comma or a colon between white space. */
  lemma SeparatorSound(before: Bytes, c: byte, after: Bytes, t: Bytes, w: Weight)
    requires AllSpaces(before) && AllSpaces(after) && (c == ',' || c == ':') && Sound(t, w)
    ensures Sound(before + [c] + after + t, w) && (c == ',' ==> Stops(before + [c] + after + t))
  {
    hide Sound;
    SpacesSound(after, t, w);
    PlainSound([c], after + t, w);
    assert c == ',' ==> Stops([c] + (after + t));
    hide Stops;
    SpacesSound(before, [c] + (after + t), w);
    assert before + ([c] + (after + t)) == before + [c] + after + t;
  }

  lemma PrimitivePlain(v: V)
    requires !v.List? && !v.Map? && !v.Str? && SpeltDoubles(v)
    ensures NoQuoting(Scalar(v))
  {
    if v.Int? {
      DecPlain(v.n);
    } else if v.Double? {
      FloatPlain(v.lexeme);
    }
  }

  lemma FloatPlain(lexeme: Bytes)
    requires NumberTokens.IsFloatText(lexeme)
    ensures NoQuoting(lexeme)
  {
    NumberTokens.FloatTextRead(lexeme, []);
  }

  lemma DecPlain(n: int)
    ensures NoQuoting(Numbers.Dec(n))
  {
    var digits := Numbers.DecNat(if n < 0 then -n else n);
    assert forall i :: 0 <= i < |digits| ==> IsDigit(digits[i]);
  }

  lemma {:induction false} LaidSound(v: V, depth: nat, pad: Pads, rest: Bytes, w: Weight)
    requires OnlySpaces(pad) && SpeltDoubles(v) && KeysAtMost(v, w) && Sound(rest, w) && Stops(rest)
    ensures Sound(Laid(v, depth, pad) + rest, w)
    decreases v, 3
  {
    hide Sound;
    match v
    case List(items) =>
      CloserSound(']', rest, w);
      ItemsSound(items, depth, pad, "]" + rest, w);
      PlainSound("[", LaidItems(items, depth, pad) + ("]" + rest), w);
      RegroupContainer("[", LaidItems(items, depth, pad), "]", rest);
    case Map(entries) =>
      CloserSound('}', rest, w);
      EntriesSound(entries, depth, pad, "}" + rest, w);
      PlainSound("{", LaidEntries(entries, depth, pad) + ("}" + rest), w);
      RegroupContainer("{", LaidEntries(entries, depth, pad), "}", rest);
    case Str(text) => ReprSound(text, rest, w);
    case _ =>
      PrimitivePlain(v);
      PlainSound(Scalar(v), rest, w);
  }

  lemma CloserSound(c: byte, rest: Bytes, w: Weight)
    requires (c == ']' || c == '}') && Sound(rest, w)
    ensures Sound([c] + rest, w) && Stops([c] + rest)
  {
    hide Sound;
    PlainSound([c], rest, w);
  }

  lemma {:induction false} ItemsSound(items: seq<V>, depth: nat, pad: Pads, close: Bytes, w: Weight)
    requires OnlySpaces(pad) && SpeltDoubles(List(items)) && KeysAtMost(List(items), w)
    requires Sound(close, w) && Stops(close)
    ensures Sound(LaidItems(items, depth, pad) + close, w)
    decreases items, 2
  {
    hide Sound;
    hide Stops;
    if items == [] {
      SpacesSound(pad(depth, Closing), close, w);
    } else {
      RestSound(items, depth, pad, close, w);
      SpacesSound(pad(depth, Opened), LaidRest(items, depth, pad) + close, w);
      Assoc(pad(depth, Opened), LaidRest(items, depth, pad), close);
    }
  }

  lemma {:induction false} RestSound(items: seq<V>, depth: nat, pad: Pads, close: Bytes, w: Weight)
    requires OnlySpaces(pad) && items != [] && SpeltDoubles(List(items)) && KeysAtMost(List(items), w)
    requires Sound(close, w) && Stops(close)
    ensures Sound(LaidRest(items, depth, pad) + close, w)
    decreases items, 1
  {
    hide Sound;
    hide Stops;
    hide Laid;
    var text := Laid(items[0], depth + 1, pad);
    if |items| == 1 {
      SpacesSound(pad(depth, Closing), close, w);
      LaidSound(items[0], depth + 1, pad, pad(depth, Closing) + close, w);
      Assoc(text, pad(depth, Closing), close);
    } else {
      var before, after := pad(depth, BeforeComma), pad(depth, AfterComma);
      var tail := LaidRest(items[1..], depth, pad);
      RestSound(items[1..], depth, pad, close, w);
      SeparatorSound(before, ',', after, tail + close, w);
      LaidSound(items[0], depth + 1, pad, before + "," + after + (tail + close), w);
      RegroupRest(text, before + "," + after, tail, close);
    }
  }

  lemma {:induction false} EntriesSound(entries: seq<Entry>, depth: nat, pad: Pads, close: Bytes, w: Weight)
    requires OnlySpaces(pad) && SpeltDoubles(Map(entries)) && KeysAtMost(Map(entries), w)
    requires Sound(close, w) && Stops(close)
    ensures Sound(LaidEntries(entries, depth, pad) + close, w)
    decreases entries, 2
  {
    hide Sound;
    hide Stops;
    if entries == [] {
      SpacesSound(pad(depth, Closing), close, w);
    } else {
      EntryRestSound(entries, depth, pad, close, w);
      SpacesSound(pad(depth, Opened), LaidEntryRest(entries, depth, pad) + close, w);
      Assoc(pad(depth, Opened), LaidEntryRest(entries, depth, pad), close);
    }
  }

  lemma {:induction false} EntryRestSound(entries: seq<Entry>, depth: nat, pad: Pads, close: Bytes, w: Weight)
    requires OnlySpaces(pad) && entries != [] && SpeltDoubles(Map(entries)) && KeysAtMost(Map(entries), w)
    requires Sound(close, w) && Stops(close)
    ensures Sound(LaidEntryRest(entries, depth, pad) + close, w)
    decreases entries, 1
  {
    hide Sound;
    hide Stops;
    hide Laid;
    hide WeightOf;
    var key, value := entries[0].key, entries[0].value;
    var text := Laid(value, depth + 1, pad);
    var colon, blank := pad(depth, BeforeColon), pad(depth, AfterColon);
    if |entries| == 1 {
      SpacesSound(pad(depth, Closing), close, w);
      LaidSound(value, depth + 1, pad, pad(depth, Closing) + close, w);
      EntrySound(key, colon, blank, text + (pad(depth, Closing) + close), w);
      RegroupEntry(key, colon, blank, text, pad(depth, Closing), close);
    } else {
      var before, after := pad(depth, BeforeComma), pad(depth, AfterComma);
      var rest := LaidEntryRest(entries[1..], depth, pad);
      EntryRestSound(entries[1..], depth, pad, close, w);
      SeparatorSound(before, ',', after, rest + close, w);
      LaidSound(value, depth + 1, pad, before + "," + after + (rest + close), w);
      EntrySound(key, colon, blank, text + (before + "," + after + (rest + close)), w);
      Assoc(before + "," + after, rest, close);
      RegroupEntry(key, colon, blank, text, before + "," + after + rest, close);
    }
  }

  lemma EntrySound(key: CString, before: Bytes, after: Bytes, t: Bytes, w: Weight)
    requires AllSpaces(before) && AllSpaces(after) && Sound(t, w)
    requires CleanKey(key) || !Less(w, WeightOf(key))
    ensures Sound("\"" + key + "\"" + (before + ":" + after + t), w)
  {
    hide Sound;
    SeparatorSound(before, ':', after, t, w);
    KeySound(key, before + ":" + after + t, w);
  }

  // ---- what the parser makes of sound text ---------------------------------------------

  /** The labels on the stack are good, except that no colon follows a fresh one. */
  ghost predicate LabelsOk(st: State, rest: Bytes, w: Weight) {
    forall k :: 0 < k < |st.stack| && st.stack[k].Obj? && st.stack[k].v.Str? ==>
      LabelOk(CStringOf(st.stack[k].v.text), w) || (k == |st.stack| - 1 && st.want == ExpectColon && Stops(rest))
  }

  ghost predicate StackBelow(stack: seq<Item>, w: Weight) {
    forall k :: 0 <= k < |stack| && stack[k].Obj? ==> KeysBelow(stack[k].v, w)
  }

  ghost predicate Light(st: State, rest: Bytes, w: Weight) {
    StackBelow(st.stack, w) && LabelsOk(st, rest, w)
  }

  /** All labels are good. */
  ghost predicate Settled(stack: seq<Item>, w: Weight) {
    forall k :: 0 < k < |stack| && stack[k].Obj? && stack[k].v.Str? ==> LabelOk(CStringOf(stack[k].v.text), w)
  }

  lemma SettledLight(st: State, rest: Bytes, w: Weight)
    requires StackBelow(st.stack, w) && Settled(st.stack, w)
    ensures Light(st, rest, w)
  {
  }

  lemma LightSettled(st: State, rest: Bytes, w: Weight)
    requires Light(st, rest, w) && (st.want != ExpectColon || !Stops(rest))
    ensures StackBelow(st.stack, w) && Settled(st.stack, w)
  {
    hide LabelOk;
    hide Stops;
  }

  lemma MapSetBelow(entries: seq<Entry>, key: CString, v: V, w: Weight)
    requires KeysBelow(Map(entries), w) && LabelOk(key, w) && KeysBelow(v, w)
    ensures KeysBelow(Map(MapSet(entries, key, v)), w)
  {
    hide LabelOk;
  }

  lemma AppendLight(stack: seq<Item>, v: V, w: Weight)
    requires StackBelow(stack, w) && Settled(stack, w) && KeysBelow(v, w)
    requires stack == [] || !v.Str? || !IsMap(Top(stack))
    requires AppendToParent(stack, v).1 == Success
    ensures StackBelow(AppendToParent(stack, v).0, w) && Settled(AppendToParent(stack, v).0, w)
  {
    hide LabelOk;
    if stack != [] && IsString(Top(stack)) {
      var below := Pop(stack);
      MapSetBelow(Top(below).v.entries, CStringOf(Top(stack).v.text), v, w);
    }
  }

  lemma OpenLight(c: byte, st: State, w: Weight)
    requires StackBelow(st.stack, w) && Settled(st.stack, w)
    ensures StackBelow(OpenContainer(c, st).stack, w) && Settled(OpenContainer(c, st).stack, w)
  {
    hide LabelOk;
  }

  lemma PopLight(stack: seq<Item>, w: Weight)
    requires StackBelow(stack, w) && Settled(stack, w) && stack != []
    ensures StackBelow(Pop(stack), w) && Settled(Pop(stack), w) && (Top(stack).Obj? ==> KeysBelow(Top(stack).v, w))
  {
    hide LabelOk;
    hide KeysBelow;
  }

  lemma CloseLight(c: byte, st: State, w: Weight)
    requires StackBelow(st.stack, w) && Settled(st.stack, w) && CloseContainer(c, st).err == Success
    ensures StackBelow(CloseContainer(c, st).stack, w) && Settled(CloseContainer(c, st).stack, w)
  {
    hide StackBelow;
    hide Settled;
    hide AppendToParent;
    if |st.stack| > 1 {
      PopLight(st.stack, w);
      AppendLight(Pop(st.stack), Top(st.stack).v, w);
    }
  }

  lemma PrimitiveLight(s: CString, st: State, w: Weight)
    requires s != [] && StackBelow(st.stack, w) && Settled(st.stack, w) && TakePrimitive(s, st).1.err == Success
    requires st.err == Success
    ensures StackBelow(TakePrimitive(s, st).1.stack, w) && Settled(TakePrimitive(s, st).1.stack, w)
  {
    hide StackBelow;
    hide Settled;
    hide AppendToParent;
    PrimitiveKeys(s, w);
    hide ParsePrimitive;
    AppendLight(st.stack, ParsePrimitive(s).value.0, w);
  }

  lemma PrimitiveKeys(s: CString, w: Weight)
    requires s != []
    ensures ParsePrimitive(s).Some? ==> KeysBelow(ParsePrimitive(s).value.0, w) && !ParsePrimitive(s).value.0.Str?
  {
  }

  /** A string becomes a label that is good or that no colon follows, or it is a value. */
  lemma StringLight(s: CString, st: State, w: Weight)
    requires s != [] && StringOk(s, w) && StackBelow(st.stack, w) && Settled(st.stack, w)
    requires st.err == Success && TakeString(s, st).1.err == Success
    ensures TakeString(s, st).0 <= |s| && Light(TakeString(s, st).1, s[TakeString(s, st).0..], w)
  {
    hide AppendToParent;
    match ParseString(s)
    case String(text, torn, offset) =>
      hide ParseString;
      if st.stack != [] && IsMap(Top(st.stack)) {
        PushLight(st.stack, text, torn, s[offset..], w);
      } else {
        hide StackBelow;
        hide Settled;
        AppendLight(st.stack, Str(text), w);
        SettledLight(TakeString(s, st).1, s[offset..], w);
      }
    case _ =>
  }

  lemma PushLight(stack: seq<Item>, text: Bytes, torn: bool, rest: Bytes, w: Weight)
    requires StackBelow(stack, w) && Settled(stack, w) && (LabelOk(CStringOf(text), w) || Stops(rest))
    ensures Light(State(stack + [if torn then TornLabel else Obj(Str(text))], ExpectColon, Success), rest, w)
  {
    hide LabelOk;
    hide Stops;
  }

  lemma StringsDrop(s: CString, n: nat, w: Weight)
    requires n <= |s| && StringsOk(s, w)
    ensures StringsOk(s[n..], w)
  {
    hide StringOk;
    forall p | 0 <= p < |s[n..]| && s[n..][p] == '"'
      ensures StringOk(s[n..][p..], w)
    {
      assert s[n..][p..] == s[n + p..] && s[n + p] == '"';
    }
  }

  /** In front of a stop, a fresh label is followed by an error or by white space. */
  lemma FreshStep(s: CString, st: State, w: Weight)
    requires s != [] && st.err == Success && st.want == ExpectColon && Stops(s) && Light(st, s, w)
    requires st.stack != [] && IsString(Top(st.stack))
    ensures Step(s, st).1.err == Success && |st.stack| > 1 ==> Step(s, st) == (1, st) && Light(st, s[1..], w)
  {
    hide LabelOk;
    hide KeysBelow;
    hide AppendToParent;
    hide TakeString;
    hide TakePrimitive;
  }

  lemma StepLight(s: CString, st: State, w: Weight)
    requires s != [] && st.err == Success && Inv(st) && StringsOk(s, w) && Light(st, s, w)
    requires Step(s, st).1.err == Success
    ensures Step(s, st).0 <= |s| && Light(Step(s, st).1, s[Step(s, st).0..], w)
  {
    StepAdvances(s, st);
    if st.want == ExpectColon && Stops(s) {
      assert |st.stack| > 1 && IsString(Top(st.stack));
      FreshStep(s, st, w);
    } else {
      LightSettled(st, s, w);
      SettledStep(s, st, w);
    }
  }

  lemma SettledStep(s: CString, st: State, w: Weight)
    requires s != [] && st.err == Success && StringsOk(s, w) && StackBelow(st.stack, w) && Settled(st.stack, w)
    requires Step(s, st).1.err == Success && Step(s, st).0 <= |s|
    ensures Light(Step(s, st).1, s[Step(s, st).0..], w)
  {
    hide StackBelow;
    hide Settled;
    hide Light;
    hide TakeString;
    hide TakePrimitive;
    hide OpenContainer;
    hide CloseContainer;
    hide StringOk;
    var c := s[0];
    var (n, next) := Step(s, st);
    if c == '"' {
      assert s[0..] == s;
      StringLight(s, st, w);
    } else {
      if c == '{' || c == '[' {
        OpenLight(c, st, w);
      } else if c == '}' || c == ']' {
        CloseLight(c, st, w);
      } else if !IsSpace(c) && c != ':' && c != ',' {
        PrimitiveLight(s, st, w);
      }
      SettledLight(next, s[n..], w);
    }
  }

  lemma {:induction false} RunLight(s: CString, st: State, w: Weight)
    requires st.err == Success && Inv(st) && StringsOk(s, w) && Light(st, s, w)
    ensures Run(s, st).err == Success ==> StackBelow(Run(s, st).stack, w)
    decreases |s|
  {
    if s != [] {
      StepAdvances(s, st);
      StepKeeps(s, st);
      var (n, next) := Step(s, st);
      hide Step;
      hide Inv;
      hide Light;
      hide StringsOk;
      if next.err == Success {
        StepLight(s, st, w);
        StringsDrop(s, n, w);
        RunLight(s[n..], next, w);
      }
    }
    assert Light(st, s, w) ==> StackBelow(st.stack, w);
  }

  // ---- results -------------------------------------------------------------------------

  /** Whatever sound text is parsed to has no key that is heavier than allowed. */
  lemma ParsedBelow(s: CString, w: Weight)
    requires Sound(s, w)
    ensures Parse(s).0.Some? ==> KeysBelow(Parse(s).0.value, w)
  {
    hide Run;
    hide StringsOk;
    RunLight(s, INITIAL, w);
  }

  /**
   * Main result: a layout of a tree is parsed to that tree if and only if all its keys, at
   * every depth, are free of quotes and backslashes.
   */
  lemma LayoutParsesIff(v: V, depth: nat, pad: Pads, end: Bytes)
    requires WellFormed(v) && SpeltDoubles(v) && OnlySpaces(pad) && AllSpaces(end)
    ensures NulFree(Laid(v, depth, pad) + end)
    ensures Parse(Laid(v, depth, pad) + end) == (Some(v), Success) <==> CleanKeys(v)
  {
    hide *;
    var w := Heaviest(v);
    EndSound(end, w);
    HeaviestBounds(v, w);
    LaidSound(v, depth, pad, end, w);
    SoundText(Laid(v, depth, pad) + end, w);
    if CleanKeys(v) {
      PrintableIs(v);
      LayoutParses(v, depth, pad, end);
    } else {
      ParsedBelow(Laid(v, depth, pad) + end, w);
      HasNotBelow(v, w);
    }
  }

  lemma PrintableIs(v: V)
    requires WellFormed(v) && SpeltDoubles(v) && CleanKeys(v)
    ensures Printable(v)
  {
  }

  lemma HeaviestBounds(v: V, w: Weight)
    requires IsHeaviest(v, w)
    ensures KeysAtMost(v, w) && (CleanKeys(v) || HasKey(v, w))
  {
  }

  lemma SoundText(t: Bytes, w: Weight)
    requires Sound(t, w)
    ensures NulFree(t)
  {
  }

  lemma EndSound(end: Bytes, w: Weight)
    requires AllSpaces(end)
    ensures Sound(end, w) && Stops(end)
  {
    assert Sound([], w) && Stops([]);
    hide Sound;
    SpacesSound(end, [], w);
    assert end + [] == end;
  }

  lemma CompactRoundTripIff(v: V)
    requires WellFormed(v) && SpeltDoubles(AsPrinted(v))
    ensures NulFree(Compact(v)) && (Parse(Compact(v)) == (Some(AsPrinted(v)), Success) <==> CleanKeys(v))
  {
    PadsAreSpaces();
    CompactIsLaid(v, 0);
    PrintedLike(v);
    LayoutParsesIff(AsPrinted(v), 0, CompactPad, []);
    assert Compact(v) + [] == Compact(v);
  }

  lemma PrettyRoundTripIff(v: V, level: nat)
    requires WellFormed(v) && SpeltDoubles(AsPrinted(v))
    ensures NulFree(Pretty(v, true, level))
    ensures Parse(Pretty(v, true, level)) == (Some(AsPrinted(v)), Success) <==> CleanKeys(v)
  {
    PadsAreSpaces();
    PrettyIsLaid(v, true, level);
    PrintedLike(v);
    LayoutParsesIff(AsPrinted(v), level, PrettyPad, "\n");
  }

  ghost predicate AsGood(a: V, b: V) {
    (WellFormed(a) <==> WellFormed(b)) && (CleanKeys(a) <==> CleanKeys(b))
  }

  lemma ItemsAsGood(r: seq<V>, items: seq<V>)
    requires |r| == |items| && forall i :: 0 <= i < |items| ==> AsGood(r[i], items[i])
    ensures AsGood(List(r), List(items))
  {
  }

  lemma EntriesAsGood(r: seq<Entry>, entries: seq<Entry>)
    requires |r| == |entries|
    requires forall i :: 0 <= i < |entries| ==> r[i].key == entries[i].key && AsGood(r[i].value, entries[i].value)
    ensures AsGood(Map(r), Map(entries))
  {
    assert DistinctKeys(r) <==> DistinctKeys(entries);
    hide DistinctKeys;
  }

  /** What is printed is as well-formed as the tree, and has its keys. */
  lemma {:induction false} PrintedLike(v: V)
    ensures AsGood(AsPrinted(v), v)
    decreases v
  {
    hide AsGood;
    match v
    case List(items) =>
      forall i | 0 <= i < |items|
        ensures AsGood(ItemsAsPrinted(items)[i], items[i])
      {
        PrintedLike(items[i]);
      }
      ItemsAsGood(ItemsAsPrinted(items), items);
    case Map(entries) =>
      forall i | 0 <= i < |entries|
        ensures AsGood(EntriesAsPrinted(entries)[i].value, entries[i].value)
      {
        PrintedLike(entries[i].value);
      }
      EntriesAsGood(EntriesAsPrinted(entries), entries);
    case _ =>
      SameIsGood(v, AsPrinted(v));
  }

  lemma SameIsGood(v: V, printed: V)
    requires printed == v || (v.Double? && printed.Double?)
    ensures AsGood(printed, v)
  {
  }

  /** What any text was parsed to survives printing, with doubles as printed, if and only if its keys are clean. */
  lemma ReparseIff(cstr: CString, v: V, level: nat)
    requires Parse(cstr).0 == Some(v) && SpeltDoubles(AsPrinted(v))
    ensures NulFree(Compact(v)) && (Parse(Compact(v)) == (Some(AsPrinted(v)), Success) <==> CleanKeys(v))
    ensures NulFree(Pretty(v, true, level))
    ensures Parse(Pretty(v, true, level)) == (Some(AsPrinted(v)), Success) <==> CleanKeys(v)
  {
    hide *;
    ParseIsSafe(cstr);
    CompactRoundTripIff(v);
    PrettyRoundTripIff(v, level);
  }

  /** Trees without doubles are printed as they are. */
  lemma {:induction false} NoDoublesSpelt(v: V)
    requires NoDoubles(v)
    ensures AsPrinted(v) == v && SpeltDoubles(v)
    decreases v
  {
    SameAsPrinted(v);
    match v
    case List(items) =>
      forall i | 0 <= i < |items|
        ensures SpeltDoubles(items[i])
      {
        NoDoublesSpelt(items[i]);
      }
    case Map(entries) =>
      forall i | 0 <= i < |entries|
        ensures SpeltDoubles(entries[i].value)
      {
        NoDoublesSpelt(entries[i].value);
      }
    case _ =>
  }

  /** The label that is read for an unclean key is another one. */
  lemma UncleanKeyMisread(key: CString, rest: CString)
    requires !CleanKey(key) && QuoteFirst(rest)
    ensures NulFree("\"" + key + "\"" + rest)
    ensures var p := ParseString("\"" + key + "\"" + rest); p.String? ==> CStringOf(p.text) != key
  {
    var s: CString := "\"" + key + "\"" + rest;
    assert key[0..] == key;
    hide ParseString;
    hide QuoteFirst;
    KeyLabel(key, 0, rest, s);
  }
}
