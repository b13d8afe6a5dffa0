/** The key scanner of src/json.c: `_key_to_tokens`. */
module PathKeys {
  import opened Bytes
  import Numbers
  import StrObject

  /** What the loop knows besides its position. */
  datatype Flags = Flags(quoted: bool, indexed: bool)

  const NONE := Flags(false, false)

  /** A token is saved when it is not empty. */
  function Save(tokens: seq<CString>, key: CString, start: nat, pos: nat): seq<CString>
    requires start <= |key| && pos <= |key|
  {
    if pos > start then
      NulFreeSlice(key, start, pos);
      tokens + [key[start..pos]]
    else tokens
  }

  /** The loop from position `pos` on; None for a malformed key. */
  function Scan(key: CString, pos: nat, start: nat, f: Flags, tokens: seq<CString>): Option<seq<CString>>
    requires pos <= |key| && start <= |key|
    decreases |key| - pos
  {
    if pos == |key| then
      if f.quoted || f.indexed then None else Some(Save(tokens, key, start, pos))
    else
      var c := key[pos];
      if c == '"' then
        if f.indexed then Scan(key, pos + 1, start, f.(quoted := !f.quoted), tokens) else None
      else if c == '[' && !f.quoted then
        if f.indexed then None
        else Scan(key, pos + 1, pos + 1, f.(indexed := true), Save(tokens, key, start, pos))
      else if c == ']' && !f.quoted then
        if !f.indexed then None else Scan(key, pos + 1, start, f.(indexed := false), tokens)
      else if c == '.' && !f.quoted then
        if f.indexed then None else Scan(key, pos + 1, pos + 1, f, Save(tokens, key, start, pos))
      else Scan(key, pos + 1, start, f, tokens)
  }

  /** `_key_to_tokens` */
  function Tokens(key: CString): Option<seq<CString>> {
    StripNulFree(key);
    Scan(StrObject.Strip(key), 0, 0, NONE, [])
  }

  lemma StripNulFree(key: CString)
    ensures NulFree(StrObject.Strip(key))
  {
    StrObject.StripFacts(key);
    NulFreeSlice(key, StrObject.SkipLeft(key), StrObject.SkipLeft(key) + |StrObject.Strip(key)|);
  }

  method KeyToTokens(key: CString) returns (tokens: Option<seq<CString>>)
    ensures tokens == Tokens(key)
  {
    StripNulFree(key);
    var keyStr := new StrObject.Str(key);
    keyStr.StripInPlace();
    var k: CString := keyStr.cstr[..keyStr.size - 1];
    var pos, start := 0, 0;
    var quoted, indexed := false, false;
    var toks: seq<CString> := [];
    while At(k, pos) != NUL
      invariant 0 <= pos <= |k| && 0 <= start <= |k|
      invariant Scan(k, pos, start, Flags(quoted, indexed), toks) == Tokens(key)
      decreases |k| - pos
    {
      if k[pos] == '"' {
        if indexed {
          quoted := !quoted;
        } else {
          return None;
        }
      } else if k[pos] == '[' && !quoted {
        if indexed {
          return None;
        }
        indexed := true;
        toks := Save(toks, k, start, pos);
        start := pos + 1;
      } else if k[pos] == ']' && !quoted {
        if !indexed {
          return None;
        }
        indexed := false;
      } else if k[pos] == '.' && !quoted {
        if indexed {
          return None;
        }
        toks := Save(toks, k, start, pos);
        start := pos + 1;
      }
      pos := pos + 1;
    }
    if quoted || indexed {
      return None;
    }
    return Some(Save(toks, k, start, pos));
  }

  // ---- what tokens look like -----------------------------------------------------------

  /** Not empty, and a leading quote is closed and followed by a bracket. */
  predicate Shaped(t: Bytes) {
    t != [] && (t[0] == '"' ==> |t| >= 3)
  }

  predicate AllShaped(tokens: seq<CString>) {
    forall i :: 0 <= i < |tokens| ==> Shaped(tokens[i])
  }

  lemma SaveShaped(tokens: seq<CString>, key: CString, start: nat, pos: nat)
    requires start <= pos <= |key| && AllShaped(tokens)
    requires start < pos && key[start] == '"' ==> pos - start >= 3
    ensures AllShaped(Save(tokens, key, start, pos))
  {
  }

  lemma {:induction false} ScanShapes(key: CString, pos: nat, start: nat, f: Flags, tokens: seq<CString>)
    requires start <= pos <= |key| && (f.quoted ==> f.indexed && start < pos)
    requires AllShaped(tokens)
    requires start < pos && key[start] == '"' ==>
               pos - start >= if f.quoted then 1 else if f.indexed then 2 else 3
    ensures var r := Scan(key, pos, start, f, tokens);
            r.Some? ==> AllShaped(r.value)
    decreases |key| - pos
  {
    hide AllShaped;
    var saved := Save(tokens, key, start, pos);
    if !f.indexed {
      SaveShaped(tokens, key, start, pos);
    }
    hide Save;
    if pos < |key| {
      var c := key[pos];
      if c == '"' {
        if f.indexed {
          ScanShapes(key, pos + 1, start, f.(quoted := !f.quoted), tokens);
        }
      } else if f.quoted {
        ScanShapes(key, pos + 1, start, f, tokens);
      } else if c == '[' {
        if !f.indexed {
          ScanShapes(key, pos + 1, pos + 1, f.(indexed := true), saved);
        }
      } else if c == ']' {
        if f.indexed {
          ScanShapes(key, pos + 1, start, f.(indexed := false), tokens);
        }
      } else if c == '.' {
        if !f.indexed {
          ScanShapes(key, pos + 1, pos + 1, f, saved);
        }
      } else {
        ScanShapes(key, pos + 1, start, f, tokens);
      }
    }
  }

  /** No key makes an empty token or a quoted one too short to be unquoted. */
  lemma TokenShapes(key: CString)
    ensures Tokens(key).Some? ==> AllShaped(Tokens(key).value)
  {
    StripNulFree(key);
    ScanShapes(StrObject.Strip(key), 0, 0, NONE, []);
  }

  // ---- the grammar of keys -------------------------------------------------------------

  datatype Step = Plain(key: CString) | Quoted(key: CString) | Index(n: nat)

  predicate IsPlain(c: byte) {
    c != '.' && c != '[' && c != ']' && c != '"'
  }

  /** Plain keys are not empty and free of `.`, brackets and quotes, quoted ones free of quotes. */
  predicate GoodStep(step: Step) {
    match step
    case Plain(key) => key != [] && forall i :: 0 <= i < |key| ==> IsPlain(key[i])
    case Quoted(key) => forall i :: 0 <= i < |key| ==> key[i] != '"'
    case Index(n) => n <= Numbers.LONG_MAX
  }

  predicate GoodSteps(steps: seq<Step>) {
    forall i :: 0 <= i < |steps| ==> GoodStep(steps[i])
  }

  /** The token that a step becomes. */
  function Token(step: Step): (t: CString)
    requires GoodStep(step)
    ensures t != []
  {
    match step
    case Plain(key) => key
    case Quoted(key) => "\"" + key + "\"]"
    case Index(n) => Numbers.Dec(n) + "]"
  }

  /** What stands in front of the token. */
  function Lead(step: Step, first: bool): Bytes {
    if !step.Plain? then "[" else if first then [] else "."
  }

  function Render(steps: seq<Step>, first: bool): Bytes
    requires GoodSteps(steps)
  {
    if steps == [] then [] else Lead(steps[0], first) + Token(steps[0]) + Render(steps[1..], false)
  }

  function TokensOf(steps: seq<Step>): (r: seq<CString>)
    requires GoodSteps(steps)
    ensures |r| == |steps| && forall i :: 0 <= i < |steps| ==> r[i] == Token(steps[i])
  {
    if steps == [] then [] else [Token(steps[0])] + TokensOf(steps[1..])
  }

  lemma {:induction false} ScanPlain(key: CString, p: nat, q: nat, start: nat, f: Flags, tokens: seq<CString>)
    requires p <= q <= |key| && start <= |key|
    requires forall k :: p <= k < q ==> if f.quoted then key[k] != '"' else IsPlain(key[k])
    ensures Scan(key, p, start, f, tokens) == Scan(key, q, start, f, tokens)
    decreases q - p
  {
    if p < q {
      ScanPlain(key, p + 1, q, start, f, tokens);
    }
  }

  /** The scan over the token of a step, from behind its lead. */
  lemma ScanToken(key: CString, p: nat, step: Step, tokens: seq<CString>)
    requires GoodStep(step) && p + |Token(step)| <= |key| && key[p..p + |Token(step)|] == Token(step)
    ensures Scan(key, p, p, Flags(false, !step.Plain?), tokens) == Scan(key, p + |Token(step)|, p, NONE, tokens)
  {
    var t := Token(step);
    assert forall k :: p <= k < p + |t| ==> key[k] == t[k - p];
    match step
    case Plain(_) =>
      ScanPlain(key, p, p + |t|, p, NONE, tokens);
    case Quoted(_) =>
      ScanPlain(key, p + 1, p + |t| - 2, p, Flags(true, true), tokens);
      assert key[p] == '"' && key[p + |t| - 2] == '"' && key[p + |t| - 1] == ']';
    case Index(_) =>
      ScanPlain(key, p, p + |t| - 1, p, Flags(false, true), tokens);
      assert key[p + |t| - 1] == ']';
  }

  /** From behind one token to the end: the token is saved and the other steps follow. */
  lemma {:induction false} ScanSteps(key: CString, p: nat, start: nat, steps: seq<Step>, tokens: seq<CString>)
    requires start < p <= |key| && GoodSteps(steps)
    requires key[p..] == Render(steps, false)
    ensures NulFree(key[start..p])
    ensures Scan(key, p, start, NONE, tokens) == Some(tokens + [key[start..p]] + TokensOf(steps))
    decreases |steps|, 1
  {
    hide *;
    GoodParts(steps);
    RenderParts(steps, false);
    NulFreeSlice(key, start, p);
    var last: CString := key[start..p];
    var saved := tokens + [last];
    if steps == [] {
      ScanEnd(key, p, start, tokens, saved);
    } else {
      var step, t, behind := steps[0], Token(steps[0]), Render(steps[1..], false);
      var lead := Lead(step, false);
      LeadOne(step);
      LeadPlaces(key, p, lead, t, behind);
      ScanLead(key, p, start, step, tokens, last);
      ScanFromToken(key, p + 1, steps, saved);
    }
  }

  /** From behind the lead of the first step to the end. */
  lemma ScanFromToken(key: CString, p: nat, steps: seq<Step>, tokens: seq<CString>)
    requires steps != [] && GoodSteps(steps)
    requires p + |Token(steps[0])| <= |key| && key[p..p + |Token(steps[0])|] == Token(steps[0])
    requires key[p + |Token(steps[0])|..] == Render(steps[1..], false)
    ensures Scan(key, p, p, Flags(false, !steps[0].Plain?), tokens) == Some(tokens + TokensOf(steps))
    decreases |steps|, 0
  {
    hide *;
    GoodParts(steps);
    var e := p + |Token(steps[0])|;
    ScanToken(key, p, steps[0], tokens);
    ScanSteps(key, e, p, steps[1..], tokens);
    TokensOfCons(steps, tokens);
  }

  lemma GoodParts(steps: seq<Step>)
    requires GoodSteps(steps)
    ensures steps != [] ==> GoodStep(steps[0]) && GoodSteps(steps[1..])
    ensures GoodSteps([])
  {
  }

  lemma RenderParts(steps: seq<Step>, first: bool)
    requires GoodSteps(steps)
    ensures steps == [] ==> Render(steps, first) == []
    ensures steps != [] ==>
              Render(steps, first) == Lead(steps[0], first) + Token(steps[0]) + Render(steps[1..], false)
  {
  }

  lemma ScanEnd(key: CString, p: nat, start: nat, tokens: seq<CString>, saved: seq<CString>)
    requires start < p <= |key| && key[p..] == [] && NulFree(key[start..p]) && saved == tokens + [key[start..p]]
    ensures Scan(key, p, start, NONE, tokens) == Some(saved + TokensOf([]))
  {
    assert saved + [] == saved;
  }

  lemma LeadOne(step: Step)
    ensures |Lead(step, false)| == 1
  {
  }

  lemma TokensOfCons(steps: seq<Step>, saved: seq<CString>)
    requires steps != [] && GoodSteps(steps)
    ensures saved + [Token(steps[0])] + TokensOf(steps[1..]) == saved + TokensOf(steps)
  {
    hide Token;
    hide GoodStep;
    Assoc(saved, [Token(steps[0])], TokensOf(steps[1..]));
  }

  /** The separator in front of a step saves the token that ends there. */
  lemma ScanLead(key: CString, p: nat, start: nat, step: Step, tokens: seq<CString>, last: CString)
    requires start < p < |key| && |Lead(step, false)| == 1 && key[p] == Lead(step, false)[0]
    requires last == key[start..p]
    ensures Scan(key, p, start, NONE, tokens) == Scan(key, p + 1, p + 1, Flags(false, !step.Plain?), tokens + [last])
  {
  }

  lemma LeadPlaces(key: Bytes, p: nat, lead: Bytes, t: Bytes, behind: Bytes)
    requires p <= |key| && |lead| == 1 && key[p..] == lead + t + behind
    ensures p + 1 + |t| <= |key| && key[p] == lead[0]
    ensures key[p + 1..p + 1 + |t|] == t && key[p + 1 + |t|..] == behind
  {
    var rest := key[p..];
    assert rest == lead + (t + behind);
    assert key[p] == rest[0];
    assert key[p + 1..p + 1 + |t|] == rest[1..1 + |t|] == t;
    assert key[p + 1 + |t|..] == rest[1 + |t|..];
  }

  /** Main result: scanning the rendering of any steps gives exactly their tokens. */
  lemma ScanRendering(steps: seq<Step>, key: CString)
    requires steps != [] && GoodSteps(steps) && key == Render(steps, true)
    ensures Scan(key, 0, 0, NONE, []) == Some(TokensOf(steps))
  {
    hide *;
    GoodParts(steps);
    RenderParts(steps, true);
    var step, t, behind := steps[0], Token(steps[0]), Render(steps[1..], false);
    var lead := Lead(step, true);
    FirstPlaces(key, lead, t, behind);
    LeadBracket(step);
    ScanFirst(key, step);
    ScanFromToken(key, |lead|, steps, []);
    EmptyFront(TokensOf(steps));
  }

  /** The same for the whole function, with any spaces around the rendering. */
  lemma KeyRoundTrip(steps: seq<Step>, key: CString)
    requires steps != [] && GoodSteps(steps) && StrObject.Strip(key) == Render(steps, true)
    ensures Tokens(key) == Some(TokensOf(steps))
  {
    hide Scan;
    hide Render;
    hide StrObject.Strip;
    StripNulFree(key);
    ScanRendering(steps, StrObject.Strip(key));
  }

  lemma LeadBracket(step: Step)
    ensures !step.Plain? ==> Lead(step, true) == "["
    ensures |Lead(step, true)| <= 1
  {
  }

  lemma FirstPlaces(key: Bytes, lead: Bytes, t: Bytes, behind: Bytes)
    requires key == lead + t + behind
    ensures key[|lead|..|lead| + |t|] == t && key[|lead| + |t|..] == behind
    ensures lead != [] ==> key[0] == lead[0]
  {
    assert key == lead + (t + behind);
  }

  lemma ScanFirst(key: CString, step: Step)
    requires key != [] && (!step.Plain? ==> key[0] == '[')
    ensures Scan(key, 0, 0, NONE, [])
         == Scan(key, |Lead(step, true)|, |Lead(step, true)|, Flags(false, !step.Plain?), [])
  {
  }
}
