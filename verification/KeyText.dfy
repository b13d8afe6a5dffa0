/**
 * The keys of src/json.c said of their text: which are malformed, which tokens the others
 * have, and what becomes of a document under keys without tokens and malformed keys.
 */
module KeyText {
  import opened Bytes
  import opened Values
  import opened PathKeys
  import JsonPath
  import Numbers
  import NumberTokens
  import StrObject

  /** A stretch of the text between two brackets: one character or quoted text. */
  datatype Chunk = Free(c: byte) | InQuotes(text: Bytes)

  /** A stretch of a key: one character, a dot, or a pair of brackets. */
  datatype Part = Letter(c: byte) | Dot | Brackets(inside: seq<Chunk>)

  predicate GoodChunk(chunk: Chunk) {
    match chunk
    case Free(c) => IsPlain(c)
    case InQuotes(text) => '"' !in text
  }

  predicate GoodInside(inside: seq<Chunk>) {
    forall i :: 0 <= i < |inside| ==> GoodChunk(inside[i])
  }

  predicate GoodPart(part: Part) {
    match part
    case Letter(c) => IsPlain(c)
    case Dot => true
    case Brackets(inside) => GoodInside(inside)
  }

  predicate AllGood(parts: seq<Part>) {
    forall i :: 0 <= i < |parts| ==> GoodPart(parts[i])
  }

  function ChunkText(chunk: Chunk): Bytes {
    match chunk
    case Free(c) => [c]
    case InQuotes(text) => "\"" + text + "\""
  }

  function InsideText(inside: seq<Chunk>): Bytes {
    if inside == [] then [] else ChunkText(inside[0]) + InsideText(inside[1..])
  }

  function PartText(part: Part): Bytes {
    match part
    case Letter(c) => [c]
    case Dot => "."
    case Brackets(inside) => "[" + InsideText(inside) + "]"
  }

  function Text(parts: seq<Part>): Bytes {
    if parts == [] then [] else PartText(parts[0]) + Text(parts[1..])
  }

  /** Quotes stand in brackets only, and brackets and quotes are closed and not nested. */
  ghost predicate WellFormed(key: Bytes) {
    exists parts :: AllGood(parts) && Text(parts) == key
  }

  /**
   * What stands between the dots and opening brackets, `open` being the beginning of the first;
   * empty stretches make no token.
   */
  function Stretches(parts: seq<Part>, open: Bytes): (r: seq<Bytes>)
    ensures [] !in r
    decreases |parts|
  {
    if parts == [] then Closed(open)
    else if parts[0].Letter? then Stretches(parts[1..], open + [parts[0].c])
    else Closed(open) + Stretches(parts[1..], Beginning(parts[0]))
  }

  function Closed(open: Bytes): seq<Bytes> {
    if open == [] then [] else [open]
  }

  /** The beginning of the stretch behind a separator: the bracket that closes belongs to it. */
  function Beginning(part: Part): Bytes {
    if part.Brackets? then InsideText(part.inside) + "]" else []
  }

  predicate OnlyDots(s: Bytes) {
    forall i :: 0 <= i < |s| ==> s[i] == '.'
  }

  // ---- the scan of well-formed text -----------------------------------------------------

  lemma Places(key: Bytes, p: nat, a: Bytes, b: Bytes)
    requires p <= |key| && key[p..] == a + b
    ensures p + |a| <= |key| && key[p..p + |a|] == a && key[p + |a|..] == b
    ensures forall k :: 0 <= k < |a| ==> key[p + k] == a[k]
  {
    assert key[p..p + |a|] == key[p..][..|a|];
    assert key[p + |a|..] == key[p..][|a|..];
    assert forall k :: 0 <= k < |a| ==> key[p + k] == key[p..][k];
  }

  lemma InsideCons(inside: seq<Chunk>, behind: Bytes)
    requires inside != [] && GoodInside(inside)
    ensures GoodChunk(inside[0]) && GoodInside(inside[1..])
    ensures InsideText(inside) + behind == ChunkText(inside[0]) + (InsideText(inside[1..]) + behind)
  {
    Assoc(ChunkText(inside[0]), InsideText(inside[1..]), behind);
  }

  lemma ScanChunk(key: CString, p: nat, start: nat, chunk: Chunk, behind: Bytes, tokens: seq<CString>)
    requires start <= p <= |key| && GoodChunk(chunk) && key[p..] == ChunkText(chunk) + behind
    ensures p + |ChunkText(chunk)| <= |key| && key[p + |ChunkText(chunk)|..] == behind
    ensures Scan(key, p, start, Flags(false, true), tokens)
         == Scan(key, p + |ChunkText(chunk)|, start, Flags(false, true), tokens)
  {
    var t := ChunkText(chunk);
    Places(key, p, t, behind);
    match chunk
    case Free(c) =>
    case InQuotes(text) =>
      forall k | p + 1 <= k < p + 1 + |text|
        ensures key[k] != '"'
      {
        assert key[p + (k - p)] == t[k - p] == text[k - p - 1];
      }
      ScanPlain(key, p + 1, p + 1 + |text|, start, Flags(true, true), tokens);
  }

  lemma {:induction false} ScanInside(key: CString, p: nat, start: nat, inside: seq<Chunk>, behind: Bytes,
                                      tokens: seq<CString>)
    requires start <= p <= |key| && GoodInside(inside) && key[p..] == InsideText(inside) + behind
    ensures p + |InsideText(inside)| <= |key| && key[p + |InsideText(inside)|..] == behind
    ensures Scan(key, p, start, Flags(false, true), tokens)
         == Scan(key, p + |InsideText(inside)|, start, Flags(false, true), tokens)
    decreases |inside|
  {
    hide Scan;
    if inside == [] {
      EmptyFront(behind);
    } else {
      var t := ChunkText(inside[0]);
      InsideCons(inside, behind);
      ScanChunk(key, p, start, inside[0], InsideText(inside[1..]) + behind, tokens);
      ScanInside(key, p + |t|, start, inside[1..], behind, tokens);
    }
  }

  lemma PartsCons(parts: seq<Part>)
    requires parts != [] && AllGood(parts)
    ensures GoodPart(parts[0]) && AllGood(parts[1..])
    ensures Text(parts) == PartText(parts[0]) + Text(parts[1..])
  {
  }

  /** One round at a dot or bracket outside of quotes. */
  lemma ScanSeparator(key: CString, p: nat, start: nat, tokens: seq<CString>)
    requires start <= p < |key|
    ensures var saved := Save(tokens, key, start, p);
            && (key[p] == '.' ==> Scan(key, p, start, NONE, tokens) == Scan(key, p + 1, p + 1, NONE, saved))
            && (key[p] == '[' ==>
                  Scan(key, p, start, NONE, tokens) == Scan(key, p + 1, p + 1, Flags(false, true), saved))
            && (key[p] == ']' ==>
                  Scan(key, p, start, Flags(false, true), tokens) == Scan(key, p + 1, start, NONE, tokens))
  {
  }

  lemma BracketPlaces(key: Bytes, p: nat, i: Bytes, behind: Bytes)
    requires p <= |key| && key[p..] == "[" + i + "]" + behind
    ensures p + 2 + |i| <= |key| && key[p] == '[' && key[p + 1 + |i|] == ']'
    ensures key[p + 1..] == i + ("]" + behind)
    ensures key[p + 1..p + 2 + |i|] == i + "]" && key[p + 2 + |i|..] == behind
  {
    var rest, t := key[p..], "[" + i + "]";
    assert t[0] == '[' && t[|i| + 1] == ']';
    Places(key, p, t, behind);
    assert key[p + 0] == t[0] && key[p + (|i| + 1)] == t[|i| + 1];
    assert rest[1..] == i + ("]" + behind);
    assert key[p + 1..p + 2 + |i|] == t[1..];
  }

  /** The scan over a pair of brackets that begins at `p` and closes at `q`. */
  lemma ScanBrackets(key: CString, p: nat, q: nat, start: nat, inside: seq<Chunk>, behind: Bytes,
                     tokens: seq<CString>)
    requires start <= p < q < |key| && GoodInside(inside)
    requires key[p] == '[' && key[q] == ']' && q == p + 1 + |InsideText(inside)|
    requires key[p + 1..] == InsideText(inside) + behind
    ensures Scan(key, p, start, NONE, tokens) == Scan(key, q + 1, p + 1, NONE, Save(tokens, key, start, p))
  {
    hide *;
    ScanSeparator(key, p, start, tokens);
    ScanInside(key, p + 1, p + 1, inside, behind, Save(tokens, key, start, p));
    assert p + 1 + |InsideText(inside)| == q;
    ScanSeparator(key, q, p + 1, Save(tokens, key, start, p));
  }

  lemma SaveAppend(key: CString, start: nat, p: nat, tokens: seq<CString>, rest: seq<Bytes>)
    requires start <= p <= |key|
    ensures Save(tokens, key, start, p) + rest == tokens + (Closed(key[start..p]) + rest)
  {
    if start < p {
      NulFreeSlice(key, start, p);
      Assoc(tokens, [key[start..p]], rest);
    } else {
      EmptyFront(rest);
    }
  }

  lemma ScanStops(key: CString, start: nat, tokens: seq<CString>)
    requires start <= |key|
    ensures Scan(key, |key|, start, NONE, tokens) == Some(tokens + Closed(key[start..|key|]))
  {
    SaveAppend(key, start, |key|, tokens, []);
    assert Save(tokens, key, start, |key|) + [] == Save(tokens, key, start, |key|);
    assert Closed(key[start..|key|]) + [] == Closed(key[start..|key|]);
  }

  lemma DotPart(key: CString, p: nat, start: nat, behind: Bytes, tokens: seq<CString>)
    requires start <= p <= |key| && key[p..] == "." + behind
    ensures p + 1 <= |key| && key[p + 1..] == behind
    ensures Scan(key, p, start, NONE, tokens) == Scan(key, p + 1, p + 1, NONE, Save(tokens, key, start, p))
  {
    hide *;
    Places(key, p, ".", behind);
    assert key[p + 0] == '.';
    ScanSeparator(key, p, start, tokens);
  }

  lemma BracketsPart(key: CString, p: nat, start: nat, inside: seq<Chunk>, behind: Bytes, tokens: seq<CString>)
    requires start <= p <= |key| && GoodInside(inside) && key[p..] == "[" + InsideText(inside) + "]" + behind
    ensures var q := p + 2 + |InsideText(inside)|;
            && q <= |key| && key[q..] == behind && key[p + 1..q] == InsideText(inside) + "]"
            && Scan(key, p, start, NONE, tokens) == Scan(key, q, p + 1, NONE, Save(tokens, key, start, p))
  {
    hide *;
    BracketPlaces(key, p, InsideText(inside), behind);
    ScanBrackets(key, p, p + 1 + |InsideText(inside)|, start, inside, "]" + behind, tokens);
  }

  lemma PartTexts(part: Part)
    requires GoodPart(part)
    ensures part.Dot? ==> PartText(part) == "." && Beginning(part) == []
    ensures part.Letter? ==> PartText(part) == [part.c] && IsPlain(part.c)
    ensures part.Brackets? ==> PartText(part) == "[" + InsideText(part.inside) + "]" && GoodInside(part.inside)
    ensures part.Brackets? ==> Beginning(part) == InsideText(part.inside) + "]"
  {
  }

  /** A separator and the beginning behind it are scanned. */
  lemma ScanPart(key: CString, p: nat, start: nat, part: Part, behind: Bytes, tokens: seq<CString>)
    requires start <= p <= |key| && GoodPart(part) && !part.Letter? && key[p..] == PartText(part) + behind
    ensures var q := p + |PartText(part)|;
            && p < q <= |key| && key[q..] == behind && key[p + 1..q] == Beginning(part)
            && Scan(key, p, start, NONE, tokens) == Scan(key, q, p + 1, NONE, Save(tokens, key, start, p))
  {
    hide *;
    PartTexts(part);
    if part.Dot? {
      DotPart(key, p, start, behind, tokens);
    } else {
      BracketsPart(key, p, start, part.inside, behind, tokens);
    }
  }

  /** One letter is scanned: the open stretch grows. */
  lemma ScanLetter(key: CString, p: nat, start: nat, tokens: seq<CString>)
    requires start <= p < |key| && IsPlain(key[p])
    ensures Scan(key, p, start, NONE, tokens) == Scan(key, p + 1, start, NONE, tokens)
    ensures key[start..p + 1] == key[start..p] + [key[p]]
  {
  }

  lemma StretchesCons(parts: seq<Part>, open: Bytes)
    requires parts != []
    ensures Stretches(parts, open) ==
            if parts[0].Letter? then Stretches(parts[1..], open + [parts[0].c])
            else Closed(open) + Stretches(parts[1..], Beginning(parts[0]))
  {
  }

  lemma NoParts(open: Bytes)
    ensures Text([]) == [] && Stretches([], open) == Closed(open)
  {
  }

  /** The tokens of the rest of a key of which a stretch is open. */
  lemma {:induction false} ScanParts(key: CString, p: nat, start: nat, parts: seq<Part>, tokens: seq<CString>)
    requires start <= p <= |key| && AllGood(parts) && key[p..] == Text(parts)
    ensures Scan(key, p, start, NONE, tokens) == Some(tokens + Stretches(parts, key[start..p]))
    decreases |parts|
  {
    hide *;
    if parts == [] {
      NoParts(key[start..p]);
      ScanStops(key, start, tokens);
    } else {
      PartsCons(parts);
      var part, rest, saved := parts[0], parts[1..], Save(tokens, key, start, p);
      StretchesCons(parts, key[start..p]);
      if part.Letter? {
        PartTexts(part);
        Places(key, p, [part.c], Text(rest));
        assert key[p + 0] == part.c;
        ScanLetter(key, p, start, tokens);
        ScanParts(key, p + 1, start, rest, tokens);
      } else {
        ScanPart(key, p, start, part, Text(rest), tokens);
        ScanParts(key, p + |PartText(part)|, p + 1, rest, saved);
        SaveAppend(key, start, p, tokens, Stretches(rest, Beginning(part)));
      }
    }
  }

  // ---- malformed text -------------------------------------------------------------------

  /** The text from inside a pair of brackets on. */
  function FromInside(inside: seq<Chunk>, parts: seq<Part>): Bytes {
    InsideText(inside) + ("]" + Text(parts))
  }

  /** What the rest of the key consists of if the scan gets through. */
  lemma {:induction false} ScanTakesApart(key: CString, pos: nat, start: nat, f: Flags, tokens: seq<CString>)
    returns (parts: seq<Part>, inside: seq<Chunk>, text: Bytes)
    requires pos <= |key| && start <= |key| && (f.quoted ==> f.indexed)
    requires Scan(key, pos, start, f, tokens).Some?
    ensures AllGood(parts) && GoodInside(inside) && '"' !in text
    ensures key[pos..] == if !f.indexed then Text(parts)
                          else if !f.quoted then FromInside(inside, parts)
                          else text + ("\"" + FromInside(inside, parts))
    decreases |key| - pos
  {
    parts, inside, text := [], [], [];
    hide FromInside;
    hide InsideText;
    if pos == |key| {
      assert key[pos..] == [];
    } else {
      var c := key[pos];
      assert key[pos..] == [c] + key[pos + 1..];
      if c == '"' {
        parts, inside, text := ScanTakesApart(key, pos + 1, start, f.(quoted := !f.quoted), tokens);
        if f.quoted {
          text := [];
          EmptyFront("\"" + FromInside(inside, parts));
        } else {
          QuotedInside(text, inside, parts);
          inside, text := [InQuotes(text)] + inside, [];
        }
      } else if f.quoted {
        parts, inside, text := ScanTakesApart(key, pos + 1, start, f, tokens);
        Assoc([c], text, "\"" + FromInside(inside, parts));
        text := [c] + text;
      } else if c == '[' {
        var saved := Save(tokens, key, start, pos);
        parts, inside, text := ScanTakesApart(key, pos + 1, pos + 1, f.(indexed := true), saved);
        BracketsFirst(inside, parts);
        parts := [Brackets(inside)] + parts;
      } else if c == ']' {
        parts, inside, text := ScanTakesApart(key, pos + 1, start, f.(indexed := false), tokens);
        inside := [];
        NothingInside(parts);
      } else if c == '.' {
        parts, inside, text := ScanTakesApart(key, pos + 1, pos + 1, f, Save(tokens, key, start, pos));
        parts := [Dot] + parts;
      } else if f.indexed {
        parts, inside, text := ScanTakesApart(key, pos + 1, start, f, tokens);
        FreeInside(c, inside, parts);
        inside := [Free(c)] + inside;
      } else {
        parts, inside, text := ScanTakesApart(key, pos + 1, start, f, tokens);
        parts := [Letter(c)] + parts;
      }
    }
  }

  lemma NothingInside(parts: seq<Part>)
    ensures FromInside([], parts) == "]" + Text(parts)
  {
    EmptyFront("]" + Text(parts));
  }

  lemma QuotedInside(text: Bytes, inside: seq<Chunk>, parts: seq<Part>)
    ensures FromInside([InQuotes(text)] + inside, parts) == "\"" + (text + ("\"" + FromInside(inside, parts)))
  {
    var q: Bytes := "\"";
    Assoc(q + text + q, InsideText(inside), "]" + Text(parts));
    Assoc(q + text, q, FromInside(inside, parts));
    Assoc(q, text, q + FromInside(inside, parts));
  }

  lemma FreeInside(c: byte, inside: seq<Chunk>, parts: seq<Part>)
    ensures FromInside([Free(c)] + inside, parts) == [c] + FromInside(inside, parts)
  {
    Assoc([c], InsideText(inside), "]" + Text(parts));
  }

  lemma BracketsFirst(inside: seq<Chunk>, parts: seq<Part>)
    ensures Text([Brackets(inside)] + parts) == "[" + FromInside(inside, parts)
  {
    var open: Bytes, close: Bytes := "[", "]";
    Assoc(open + InsideText(inside), close, Text(parts));
    Assoc(open, InsideText(inside), close + Text(parts));
  }

  /** Main result: the tokens of a well-formed key are its stretches that are not empty. */
  lemma TokensAre(key: CString, parts: seq<Part>)
    requires AllGood(parts) && Text(parts) == StrObject.Strip(key)
    ensures Tokens(key) == Some(Stretches(parts, []))
  {
    hide Scan;
    StripNulFree(key);
    var k := StrObject.Strip(key);
    assert k[0..] == k && k[0..0] == [];
    ScanParts(k, 0, 0, parts, []);
    EmptyFront(Stretches(parts, []));
  }

  /** Main result: a key has no list of tokens exactly when its text is malformed. */
  lemma MalformedIff(key: CString)
    ensures Tokens(key).Some? <==> WellFormed(StrObject.Strip(key))
  {
    hide Scan;
    StripNulFree(key);
    var k := StrObject.Strip(key);
    if Tokens(key).Some? {
      var parts, _, _ := ScanTakesApart(k, 0, 0, NONE, []);
      assert k[0..] == k;
    }
    if WellFormed(k) {
      var parts :| AllGood(parts) && Text(parts) == k;
      TokensAre(key, parts);
    }
  }

  lemma {:induction false} NoStretches(parts: seq<Part>, open: Bytes)
    requires AllGood(parts)
    ensures Stretches(parts, open) == [] <==> open == [] && OnlyDots(Text(parts))
  {
    if parts != [] {
      PartsCons(parts);
      var t, behind := PartText(parts[0]), Text(parts[1..]);
      assert t != [];
      assert (t + behind)[0] == t[0];
      if parts[0].Letter? {
        NoStretches(parts[1..], open + [parts[0].c]);
      } else {
        NoStretches(parts[1..], Beginning(parts[0]));
        assert forall k :: 0 <= k < |behind| ==> (t + behind)[k + |t|] == behind[k];
      }
    }
  }

  lemma {:induction false} DotsWellFormed(s: Bytes) returns (parts: seq<Part>)
    requires OnlyDots(s)
    ensures AllGood(parts) && Text(parts) == s
  {
    parts := [];
    if s != [] {
      parts := DotsWellFormed(s[1..]);
      parts := [Dot] + parts;
      assert s == "." + s[1..];
    }
  }

  /** Main result: a key has no tokens exactly when nothing but dots stands between its spaces. */
  lemma NoTokensIff(key: CString)
    ensures Tokens(key) == Some([]) <==> OnlyDots(StrObject.Strip(key))
  {
    MalformedIff(key);
    var k := StrObject.Strip(key);
    if OnlyDots(k) {
      var parts := DotsWellFormed(k);
      TokensAre(key, parts);
      NoStretches(parts, []);
    } else if Tokens(key) == Some([]) {
      var parts :| AllGood(parts) && Text(parts) == k;
      TokensAre(key, parts);
      NoStretches(parts, []);
    }
  }

  // ---- what a token addresses -----------------------------------------------------------

  /**
   * The text of an index: blanks up to `i`, a sign up to `j` and digits up to the bracket at `e`,
   * or the bracket alone. Anything may follow that ends with a bracket again.
   */
  predicate IndexText(tok: Bytes, i: nat, j: nat, e: nat) {
    && i <= j <= e < |tok| && tok[e] == ']' && tok[|tok| - 1] == ']'
    && (forall k :: 0 <= k < i ==> IsSpace(tok[k]))
    && (j == i || (j == i + 1 && (tok[i] == '-' || tok[i] == '+')))
    && (forall k :: j <= k < e ==> IsDigit(tok[k]))
    && (e == j ==> e == 0)
  }

  /** The number that the digits spell, within the range of `long`. */
  function IndexValue(tok: Bytes, i: nat, j: nat, e: nat): int
    requires IndexText(tok, i, j, e)
  {
    var v: int := Numbers.ValueOf(tok[j..e], 10);
    NumberTokens.Saturated(if tok[i] == '-' then -v else v)
  }

  /** Main result: a list takes exactly such tokens for indices. */
  lemma IndexIff(node: V, tok: CString, n: int)
    requires node.List?
    ensures JsonPath.AimOf(node, tok) == JsonPath.Item(n) <==>
            exists i, j, e :: IndexText(tok, i, j, e) && n == IndexValue(tok, i, j, e)
  {
    hide Numbers.ValueOf;
    if i, j, e :| IndexText(tok, i, j, e) && n == IndexValue(tok, i, j, e) {
      IndexTaken(tok, i, j, e);
    }
    if JsonPath.AimOf(node, tok) == JsonPath.Item(n) {
      var i, j, e := IndexFound(tok);
      IndexTaken(tok, i, j, e);
    }
  }

  lemma IndexTaken(tok: CString, i: nat, j: nat, e: nat)
    requires IndexText(tok, i, j, e)
    ensures JsonPath.IndexAim(tok) == JsonPath.Item(IndexValue(tok, i, j, e))
  {
    assert tok[0..0] == [] && Numbers.ValueOf([], 10) == 0;
    hide Numbers.ValueOf;
    SpacesEnd(tok, 0, i);
    Numbers.DigitsEndAt(tok, j, e, 10);
    hide Numbers.SkipSpaces;
    hide Numbers.DigitsEnd;
    assert Numbers.SkipSign(tok, i) == j;
  }

  lemma {:induction false} SpacesEnd(s: Bytes, p: nat, i: nat)
    requires p <= i < |s| && !IsSpace(s[i]) && forall k :: p <= k < i ==> IsSpace(s[k])
    ensures Numbers.SkipSpaces(s, p) == i
    decreases i - p
  {
    if p < i {
      SpacesEnd(s, p + 1, i);
    }
  }

  lemma {:induction false} SpacesSkipped(s: Bytes, p: nat)
    requires p <= |s|
    ensures Numbers.SkipSpaces(s, p) <= |s| && forall k :: p <= k < Numbers.SkipSpaces(s, p) ==> IsSpace(s[k])
    decreases |s| - p
  {
    if p < |s| && IsSpace(s[p]) {
      SpacesSkipped(s, p + 1);
    }
  }

  lemma IndexFound(tok: CString) returns (i: nat, j: nat, e: nat)
    requires tok != [] && tok[|tok| - 1] == ']' && JsonPath.IndexAim(tok).Item?
    ensures IndexText(tok, i, j, e)
  {
    i := Numbers.SkipSpaces(tok, 0);
    j := Numbers.SkipSign(tok, i);
    e := Numbers.DigitsEnd(tok, j, 10);
    SpacesSkipped(tok, 0);
    hide Numbers.ValueOf;
    if e == j {
      i, j, e := 0, 0, 0;
    }
  }

  /** What else a token addresses: a key of a map, without its quote and the last two characters if it is quoted. */
  lemma AimsAre(node: V, tok: CString)
    requires Shaped(tok)
    ensures var aim := JsonPath.AimOf(node, tok);
            && (aim.Key? <==> node.Map?)
            && (aim.Key? ==>
                  if tok[0] == '"' then tok == "\"" + aim.key + tok[|tok| - 2..] else aim.key == tok)
            && (aim.BadIndex? <==> node.List? && tok[|tok| - 1] == ']' && !exists i, j, e :: IndexText(tok, i, j, e))
            && (aim.Nowhere? <==> !node.Map? && !(node.List? && tok[|tok| - 1] == ']'))
  {
    if node.List? && tok[|tok| - 1] == ']' {
      if JsonPath.IndexAim(tok).Item? {
        var i, j, e := IndexFound(tok);
      }
      if i, j, e :| IndexText(tok, i, j, e) {
        IndexTaken(tok, i, j, e);
      }
    }
    hide JsonPath.IndexAim;
    hide IndexText;
  }

  // ---- what becomes of the document -----------------------------------------------------

  /** Main result: a key without tokens stands for the document itself. */
  lemma RootLaws(root: Option<V>, key: CString, obj: V)
    requires OnlyDots(StrObject.Strip(key))
    ensures JsonPath.GetNodeOf(root, key) == root
    ensures JsonPath.SetNodeOf(root, key, obj) == (Some(obj), true)
    ensures JsonPath.GetNodeOf(JsonPath.SetNodeOf(root, key, obj).0, key) == Some(obj)
    ensures JsonPath.RemoveNodeOf(root, key) == (None, root)
    ensures JsonPath.GetNodeOf(JsonPath.RemoveNodeOf(root, key).0, key) == None
  {
    NoTokensIff(key);
  }

  /** Main result: a malformed key addresses nothing and changes nothing. */
  lemma MalformedLaws(root: Option<V>, key: CString, obj: V)
    requires !WellFormed(StrObject.Strip(key))
    ensures JsonPath.GetNodeOf(root, key) == None
    ensures JsonPath.SetNodeOf(root, key, obj) == (root, false)
    ensures JsonPath.RemoveNodeOf(root, key) == (root, None)
  {
    MalformedIff(key);
  }

  /** Without a document every other key addresses nothing. */
  lemma EmptyDocument(key: CString, obj: V)
    requires !OnlyDots(StrObject.Strip(key))
    ensures JsonPath.GetNodeOf(None, key) == None
    ensures JsonPath.SetNodeOf(None, key, obj) == (None, false)
    ensures JsonPath.RemoveNodeOf(None, key) == (None, None)
  {
    NoTokensIff(key);
  }
}
