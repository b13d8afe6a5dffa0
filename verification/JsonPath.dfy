/** Addressing nodes of a JSON tree by keys: `_get_node` and its callers in src/json.c. */
module JsonPath {
  import opened Bytes
  import opened Values
  import opened ListSpec
  import opened PathKeys
  import Numbers
  import StrObject

  // ---- one token -----------------------------------------------------------------------

  /** What a token addresses in a node: the branches that get, set and remove share. */
  datatype Aim = Key(key: CString) | Item(idx: int) | BadIndex | Nowhere

  /** `str_init_slice(tok, 1, -2)`: the text between the quotes. */
  function Unquoted(tok: CString): CString {
    if |tok| < 3 then []
    else
      NulFreeSlice(tok, 1, |tok| - 2);
      tok[1..|tok| - 2]
  }

  /** The number of `strtol` has to end at the bracket. */
  function IndexAim(tok: CString): (aim: Aim)
    ensures aim.Item? || aim.BadIndex?
  {
    var (idx, end) := Numbers.Strtol(tok, 10);
    if At(tok, end) == ']' then Item(idx) else BadIndex
  }

  function AimOf(node: V, tok: CString): (aim: Aim)
    ensures aim.Key? ==> node.Map?
    ensures aim.Item? || aim.BadIndex? ==> node.List?
  {
    if node.Map? then Key(if tok != [] && tok[0] == '"' then Unquoted(tok) else tok)
    else if node.List? && tok != [] && tok[|tok| - 1] == ']' then IndexAim(tok)
    else Nowhere
  }

  /** `list_get_at` takes an `int`. */
  function ItemAt(items: seq<V>, idx: int): Option<V> {
    var i := Numbers.ToInt(idx);
    if HasAt(|items|, i) then Some(items[FixIndex(|items|, i)]) else None
  }

  function Lookup(node: V, aim: Aim): Option<V>
    requires (aim.Key? ==> node.Map?) && (aim.Item? ==> node.List?)
  {
    match aim
    case Key(key) => MapGet(node.entries, key)
    case Item(idx) => ItemAt(node.items, idx)
    case BadIndex => None
    case Nowhere => None
  }

  /** One round of `_get_node`. */
  function Child(node: V, tok: CString): Option<V> {
    if tok == [] then None else Lookup(node, AimOf(node, tok))
  }

  /** `list_set_at` on an index that is there; otherwise the list is padded up to it. */
  function SetItem(items: seq<V>, idx: int, obj: V): seq<V> {
    if HasAt(|items|, Numbers.ToInt(idx)) then SetAt(items, Numbers.ToInt(idx), obj)
    else items + seq(Padding(|items|, idx), _ => Null) + [obj]
  }

  /** The index is compared as a `size_t`. */
  function Padding(len: nat, idx: int): nat {
    var target := if idx < 0 then idx % 0x1_0000_0000_0000_0000 else idx;
    if target > len then target - len else 0
  }

  function SetStep(node: V, tok: CString, obj: V): (V, bool) {
    var aim := AimOf(node, tok);
    match aim
    case Key(key) => (Map(MapSet(node.entries, key, obj)), true)
    case Item(idx) => (List(SetItem(node.items, idx, obj)), true)
    case BadIndex => (node, true)
    case Nowhere => (node, false)
  }

  function RemoveStep(node: V, tok: CString): (V, Option<V>) {
    var aim := AimOf(node, tok);
    match aim
    case Key(key) => (Map(MapRemove(node.entries, key)), Lookup(node, aim))
    case Item(idx) => (List(RemoveAt(node.items, Numbers.ToInt(idx))), Lookup(node, aim))
    case BadIndex => (node, None)
    case Nowhere => (node, None)
  }

  // ---- paths ---------------------------------------------------------------------------

  /** `_get_node` */
  function Get(node: V, tokens: seq<CString>): Option<V> {
    if tokens == [] then Some(node)
    else
      match Child(node, tokens[0])
      case None => None
      case Some(child) => Get(child, tokens[1..])
  }

  /** A node whose child at the token was changed in place. */
  function WithChild(node: V, tok: CString, child: V): V
    requires Child(node, tok).Some?
  {
    var aim := AimOf(node, tok);
    if aim.Key? then Map(MapSet(node.entries, aim.key, child))
    else List(SetAt(node.items, Numbers.ToInt(aim.idx), child))
  }

  /** A tree in which the node that the tokens address was changed in place. */
  function Put(node: V, tokens: seq<CString>, x: V): V
    requires Get(node, tokens).Some?
  {
    if tokens == [] then x
    else WithChild(node, tokens[0], Put(Child(node, tokens[0]).value, tokens[1..], x))
  }

  function Init(tokens: seq<CString>): seq<CString>
    requires tokens != []
  {
    tokens[..|tokens| - 1]
  }

  function Last(tokens: seq<CString>): CString
    requires tokens != []
  {
    tokens[|tokens| - 1]
  }

  /** `json_set_node` below the root: the last token is set in the node that the others address. */
  function Set(root: V, tokens: seq<CString>, obj: V): (V, bool)
    requires tokens != []
  {
    match Get(root, Init(tokens))
    case None => (root, false)
    case Some(prev) =>
      var (after, ok) := SetStep(prev, Last(tokens), obj);
      (Put(root, Init(tokens), after), ok)
  }

  /** `json_remove_node` below the root */
  function Remove(root: V, tokens: seq<CString>): (V, Option<V>)
    requires tokens != []
  {
    match Get(root, Init(tokens))
    case None => (root, None)
    case Some(prev) =>
      var (after, found) := RemoveStep(prev, Last(tokens));
      (Put(root, Init(tokens), after), found)
  }

  // ---- the document --------------------------------------------------------------------

  function GetNodeOf(root: Option<V>, key: CString): Option<V> {
    match Tokens(key)
    case None => None
    case Some(tokens) => if root.None? then None else Get(root.value, tokens)
  }

  function SetNodeOf(root: Option<V>, key: CString, obj: V): (Option<V>, bool) {
    match Tokens(key)
    case None => (root, false)
    case Some(tokens) =>
      if tokens == [] then (Some(obj), true)
      else if root.None? then (None, false)
      else (Some(Set(root.value, tokens, obj).0), Set(root.value, tokens, obj).1)
  }

  function RemoveNodeOf(root: Option<V>, key: CString): (Option<V>, Option<V>) {
    match Tokens(key)
    case None => (root, None)
    case Some(tokens) =>
      if tokens == [] then (None, root)
      else if root.None? then (None, None)
      else (Some(Remove(root.value, tokens).0), Remove(root.value, tokens).1)
  }

  /** `_get_node` */
  method FindNode(start: Option<V>, tokens: seq<CString>) returns (node: Option<V>)
    ensures node == if start.None? then None else Get(start.value, tokens)
  {
    node := start;
    var i := 0;
    while i < |tokens| && node.Some?
      invariant i <= |tokens|
      invariant start.None? ==> node.None?
      invariant start.Some? ==>
                  Get(start.value, tokens) == if node.None? then None else Get(node.value, tokens[i..])
    {
      assert tokens[i..][0] == tokens[i] && tokens[i..][1..] == tokens[i + 1..];
      node := Child(node.value, tokens[i]);
      i := i + 1;
    }
  }

  class Json {
    var root: Option<V>

    /** `json_get_node` */
    method GetNode(key: CString) returns (node: Option<V>)
      ensures node == GetNodeOf(root, key)
    {
      var tokens := KeyToTokens(key);
      if tokens.None? {
        return None;
      }
      node := root;
      if tokens.value != [] {
        node := FindNode(root, tokens.value);
      }
    }

    /** `json_set_node` */
    method SetNode(key: CString, obj: V) returns (ret: bool)
      modifies this
      ensures (root, ret) == SetNodeOf(old(root), key, obj)
    {
      ret := true;
      var found := KeyToTokens(key);
      if found.None? {
        return false;
      }
      var tokens := found.value;
      if tokens == [] {
        root := Some(obj);
      } else {
        var tok, others := Last(tokens), Init(tokens);
        var prev := FindNode(root, others);
        if prev.Some? {
          var (after, ok) := SetStep(prev.value, tok, obj);
          root := Some(Put(root.value, others, after));
          ret := ok;
        } else {
          ret := false;
        }
      }
    }

    /** `json_remove_node` */
    method RemoveNode(key: CString) returns (node: Option<V>)
      modifies this
      ensures (root, node) == RemoveNodeOf(old(root), key)
    {
      var found := KeyToTokens(key);
      if found.None? {
        return None;
      }
      var tokens := found.value;
      if tokens != [] {
        var tok, others := Last(tokens), Init(tokens);
        var prev := FindNode(root, others);
        if prev.Some? {
          var (after, removed) := RemoveStep(prev.value, tok);
          root := Some(Put(root.value, others, after));
          node := removed;
        } else {
          node := None;
        }
      } else {
        node := root;
        root := None;
      }
    }
  }

  // ---- the laws of one step ------------------------------------------------------------

  /** Position of the child that a token addresses. */
  function Spot(node: V, tok: CString): (i: nat)
    requires Child(node, tok).Some?
    ensures node.Map? || node.List?
    ensures node.Map? ==> i < |node.entries| && node.entries[i].value == Child(node, tok).value
    ensures node.List? ==> i < |node.items| && node.items[i] == Child(node, tok).value
  {
    var aim := AimOf(node, tok);
    if aim.Key? then FindKey(node.entries, aim.key)
    else FixIndex(|node.items|, Numbers.ToInt(aim.idx))
  }

  lemma WithChildIs(node: V, tok: CString, child: V)
    requires Child(node, tok).Some?
    ensures var i, after := Spot(node, tok), WithChild(node, tok, child);
            if node.Map? then after == Map(node.entries[i := Entry(node.entries[i].key, child)])
            else after == List(node.items[i := child])
  {
  }

  /** A changed child: every token still addresses the same place. */
  lemma WithChildGet(node: V, tok: CString, child: V, other: CString)
    requires Child(node, tok).Some? && Child(node, other).Some?
    ensures var after := WithChild(node, tok, child);
            && Child(after, other).Some? && Spot(after, other) == Spot(node, other)
            && Child(after, other).value == if Spot(node, other) == Spot(node, tok) then child
                                            else Child(node, other).value
  {
    var after := WithChild(node, tok, child);
    WithChildIs(node, tok, child);
    assert AimOf(after, other) == AimOf(node, other);
    if node.Map? {
      FindKeyIs(after.entries, AimOf(node, other).key, Spot(node, other));
    }
  }

  lemma WithChildSame(node: V, tok: CString)
    requires Child(node, tok).Some?
    ensures WithChild(node, tok, Child(node, tok).value) == node
  {
    WithChildIs(node, tok, Child(node, tok).value);
  }

  // ---- the lens ------------------------------------------------------------------------

  lemma {:induction false} PutGet(node: V, tokens: seq<CString>, x: V)
    requires Get(node, tokens).Some?
    ensures Get(Put(node, tokens, x), tokens) == Some(x)
  {
    if tokens != [] {
      var child := Child(node, tokens[0]).value;
      PutGet(child, tokens[1..], x);
      WithChildGet(node, tokens[0], Put(child, tokens[1..], x), tokens[0]);
    }
  }

  lemma {:induction false} GetPut(node: V, tokens: seq<CString>)
    requires Get(node, tokens).Some?
    ensures Put(node, tokens, Get(node, tokens).value) == node
  {
    if tokens != [] {
      GetPut(Child(node, tokens[0]).value, tokens[1..]);
      WithChildSame(node, tokens[0]);
    }
  }

  /** The second path enters a child that the first one does not enter. */
  ghost predicate Parts(node: V, tokens: seq<CString>, other: seq<CString>) {
    && tokens != [] && other != []
    && Child(node, tokens[0]).Some? && Child(node, other[0]).Some?
    && (Spot(node, tokens[0]) == Spot(node, other[0]) ==>
          Parts(Child(node, tokens[0]).value, tokens[1..], other[1..]))
  }

  /** The second path passes through the node that the first one addresses. */
  ghost predicate Meets(node: V, tokens: seq<CString>, other: seq<CString>) {
    tokens != [] ==>
      && other != []
      && Child(node, tokens[0]).Some? && Child(node, other[0]).Some?
      && Spot(node, tokens[0]) == Spot(node, other[0])
      && Meets(Child(node, tokens[0]).value, tokens[1..], other[1..])
  }

  lemma {:induction false} PutParts(node: V, tokens: seq<CString>, x: V, other: seq<CString>)
    requires Get(node, tokens).Some? && Parts(node, tokens, other)
    ensures Get(Put(node, tokens, x), other) == Get(node, other)
  {
    var child := Child(node, tokens[0]).value;
    var changed := Put(child, tokens[1..], x);
    WithChildGet(node, tokens[0], changed, other[0]);
    if Spot(node, tokens[0]) == Spot(node, other[0]) {
      PutParts(child, tokens[1..], x, other[1..]);
    }
  }

  lemma {:induction false} PutMeets(node: V, tokens: seq<CString>, x: V, other: seq<CString>)
    requires Get(node, tokens).Some? && Meets(node, tokens, other)
    ensures |tokens| <= |other|
    ensures Get(Put(node, tokens, x), other) == Get(x, other[|tokens|..])
    ensures Get(node, other) == Get(Get(node, tokens).value, other[|tokens|..])
  {
    if tokens == [] {
      assert other[0..] == other;
    } else {
      var child := Child(node, tokens[0]).value;
      WithChildGet(node, tokens[0], Put(child, tokens[1..], x), other[0]);
      PutMeets(child, tokens[1..], x, other[1..]);
      assert other[1..][|tokens| - 1..] == other[|tokens|..];
    }
  }

  // ---- set -----------------------------------------------------------------------------

  /** The index is there, or the padding ends right in front of it. */
  predicate Lands(len: nat, idx: int) {
    HasAt(len, Numbers.ToInt(idx)) || 0 <= idx < 0x8000_0000 || (len == 0 && Numbers.ToInt(idx) == -1)
  }

  lemma SetItemGet(items: seq<V>, idx: int, obj: V)
    requires Numbers.IsLong(idx)
    ensures Lands(|items|, idx) ==> ItemAt(SetItem(items, idx, obj), idx) == Some(obj)
    ensures !Lands(|items|, idx) ==> ItemAt(SetItem(items, idx, obj), idx) == Some(Null)
  {
  }

  lemma SetStepGet(node: V, tok: CString, obj: V)
    requires tok != []
    ensures var (after, ok) := SetStep(node, tok, obj);
            match AimOf(node, tok)
            case Key(_) => ok && Child(after, tok) == Some(obj)
            case Item(idx) =>
              ok && Child(after, tok) == Some(if Lands(|node.items|, idx) then obj else Null)
            case BadIndex => ok && after == node && Child(after, tok) == None
            case Nowhere => !ok && after == node && Child(after, tok) == None
  {
    var aim := AimOf(node, tok);
    if aim.Key? {
      FindKeyIs(MapSet(node.entries, aim.key, obj), aim.key, FindKey(node.entries, aim.key));
    } else if aim.Item? {
      assert Numbers.IsLong(Numbers.Strtol(tok, 10).0);
      SetItemGet(node.items, aim.idx, obj);
    }
  }

  lemma InitTail(tokens: seq<CString>)
    requires |tokens| > 1
    ensures Init(tokens) != [] && Init(tokens)[0] == tokens[0] && Init(tokens)[1..] == Init(tokens[1..])
    ensures Last(tokens[1..]) == Last(tokens)
  {
    TakeDrop(tokens, |tokens| - 1);
  }

  lemma TakeDrop<T>(s: seq<T>, n: nat)
    requires 1 <= n <= |s|
    ensures s[..n][1..] == s[1..][..n - 1]
  {
  }

  lemma {:induction false} GetSplit(node: V, tokens: seq<CString>)
    requires tokens != []
    ensures Get(node, tokens) ==
            if Get(node, Init(tokens)).None? then None
            else Child(Get(node, Init(tokens)).value, Last(tokens))
  {
    if |tokens| == 1 {
      assert Init(tokens) == [];
    } else if Child(node, tokens[0]).Some? {
      InitTail(tokens);
      GetSplit(Child(node, tokens[0]).value, tokens[1..]);
    }
  }

  /**
   * Get after set. The parent has to exist and the last token has to address something in
   * it, otherwise nothing changes. A key is then found again. An index is found again if and
   * only if it lands: beyond the range of `int` the list is padded at one place and read at
   * another.
   */
  lemma SetGet(root: V, tokens: seq<CString>, obj: V)
    requires tokens != [] && Last(tokens) != []
    ensures var (after, ok) := Set(root, tokens, obj);
            match Get(root, Init(tokens))
            case None => !ok && after == root
            case Some(prev) =>
              match AimOf(prev, Last(tokens))
              case Key(_) => ok && Get(after, tokens) == Some(obj)
              case Item(idx) =>
                && ok
                && Get(after, tokens) == Some(if Lands(|prev.items|, idx) then obj else Null)
              case BadIndex => ok && after == root && Get(after, tokens) == None
              case Nowhere => !ok && after == root && Get(after, tokens) == None
  {
    var others, tok := Init(tokens), Last(tokens);
    if Get(root, others).Some? {
      var prev := Get(root, others).value;
      hide *;
      SetIs(root, tokens, obj, prev);
      SetStepGet(prev, tok, obj);
      var (after, ok) := SetStep(prev, tok, obj);
      PutGet(root, others, after);
      GetPut(root, others);
      GetSplit(Put(root, others, after), tokens);
    }
  }

  lemma SetIs(root: V, tokens: seq<CString>, obj: V, prev: V)
    requires tokens != [] && Get(root, Init(tokens)) == Some(prev)
    ensures Set(root, tokens, obj) ==
            (Put(root, Init(tokens), SetStep(prev, Last(tokens), obj).0), SetStep(prev, Last(tokens), obj).1)
  {
  }

  /** Setting at one token leaves the child at another one where it is. */
  predicate Spares(node: V, tok: CString, other: CString)
    requires Child(node, other).Some?
  {
    match AimOf(node, tok)
    case Key(key) => FindKey(node.entries, key) != Spot(node, other)
    case Item(idx) =>
      var i := Numbers.ToInt(idx);
      if HasAt(|node.items|, i) then FixIndex(|node.items|, i) != Spot(node, other)
      else Numbers.ToInt(AimOf(node, other).idx) >= 0
    case BadIndex => true
    case Nowhere => true
  }

  lemma SetStepSpares(node: V, tok: CString, obj: V, other: CString)
    requires Child(node, other).Some? && Spares(node, tok, other)
    ensures Child(SetStep(node, tok, obj).0, other) == Child(node, other)
  {
    var after := SetStep(node, tok, obj).0;
    assert AimOf(after, other) == AimOf(node, other);
    if node.Map? {
      FindKeyIs(after.entries, AimOf(node, other).key, Spot(node, other));
    }
  }

  /** The other path leads neither into nor through the place that the tokens address below `prev`. */
  ghost predicate Clear(root: V, tokens: seq<CString>, prev: V, other: seq<CString>)
    requires tokens != []
  {
    || Parts(root, Init(tokens), other)
    || (Meets(root, Init(tokens), other) && |other| >= |tokens|
        && Child(prev, other[|tokens| - 1]).Some? && Spares(prev, Last(tokens), other[|tokens| - 1]))
  }

  lemma SetFrame(root: V, tokens: seq<CString>, obj: V, prev: V, other: seq<CString>)
    requires tokens != [] && Get(root, Init(tokens)) == Some(prev) && Clear(root, tokens, prev, other)
    ensures Get(Set(root, tokens, obj).0, other) == Get(root, other)
  {
    var others, after := Init(tokens), SetStep(prev, Last(tokens), obj).0;
    if Parts(root, others, other) {
      PutParts(root, others, after, other);
    } else {
      var rest := other[|tokens| - 1..];
      PutMeets(root, others, after, other);
      SetStepSpares(prev, Last(tokens), obj, rest[0]);
      assert Get(after, rest) == Get(prev, rest);
    }
  }

  // ---- remove --------------------------------------------------------------------------

  /**
   * Remove returns what get finds and changes nothing when get finds nothing. A removed key
   * is gone; behind a removed item the list closes up.
   */
  lemma RemoveGet(root: V, tokens: seq<CString>)
    requires WellFormed(root) && tokens != [] && Last(tokens) != []
    ensures var (after, found) := Remove(root, tokens);
            && found == Get(root, tokens)
            && (found.None? ==> after == root)
            && (found.Some? ==>
                  var prev := Get(root, Init(tokens)).value;
                  if prev.Map? then Get(after, tokens) == None
                  else
                    var i := Spot(prev, Last(tokens));
                    Get(after, Init(tokens)) == Some(List(prev.items[..i] + prev.items[i + 1..])))
  {
    var others, tok := Init(tokens), Last(tokens);
    GetSplit(root, tokens);
    if Get(root, others).Some? {
      var prev := Get(root, others).value;
      var after := RemoveStep(prev, tok).0;
      GetWellFormed(root, others);
      RemoveStepGet(prev, tok);
      PutGet(root, others, after);
      GetPut(root, others);
      GetSplit(Put(root, others, after), tokens);
    }
  }

  lemma RemoveStepGet(node: V, tok: CString)
    requires WellFormed(node) && tok != []
    ensures var (after, found) := RemoveStep(node, tok);
            && found == Child(node, tok)
            && (found.None? ==> after == node)
            && (found.Some? ==>
                  if node.Map? then Child(after, tok) == None
                  else
                    var i := Spot(node, tok);
                    after == List(node.items[..i] + node.items[i + 1..]))
  {
    var aim := AimOf(node, tok);
    if aim.Key? {
      MapRemoveGet(node.entries, aim.key, aim.key);
    }
  }

  /** Removing leaves the paths alone that enter another child before. */
  lemma RemoveParts(root: V, tokens: seq<CString>, other: seq<CString>)
    requires tokens != [] && Get(root, Init(tokens)).Some? && Parts(root, Init(tokens), other)
    ensures Get(Remove(root, tokens).0, other) == Get(root, other)
  {
    PutParts(root, Init(tokens), RemoveStep(Get(root, Init(tokens)).value, Last(tokens)).0, other);
  }

  lemma RemoveStepMap(node: V, tok: CString, other: CString)
    requires WellFormed(node) && node.Map? && tok != [] && Child(node, other).Some?
    requires Child(node, tok).Some? ==> Spot(node, tok) != Spot(node, other)
    ensures Child(RemoveStep(node, tok).0, other) == Child(node, other)
  {
    var gone, key := AimOf(node, tok).key, AimOf(node, other).key;
    var after := RemoveStep(node, tok).0;
    assert gone != key;
    MapRemoveGet(node.entries, gone, key);
    assert AimOf(after, other) == Key(key) && AimOf(node, other) == Key(key);
    hide MapRemove;
    hide AimOf;
  }

  /** Behind a removed item the others move up by one place. */
  lemma RemoveStepList(node: V, tok: CString, other: CString, moved: CString)
    requires node.List? && Child(node, tok).Some? && Child(node, other).Some?
    requires Spot(node, tok) != Spot(node, other)
    requires var after := RemoveStep(node, tok).0;
             && Child(after, moved).Some?
             && Spot(after, moved) == Spot(node, other) - if Spot(node, other) > Spot(node, tok) then 1 else 0
    ensures Child(RemoveStep(node, tok).0, moved) == Child(node, other)
  {
    hide AimOf;
    hide FixIndex;
    var i, after := Spot(node, tok), RemoveStep(node, tok).0;
    assert after == List(node.items[..i] + node.items[i + 1..]);
  }

  // ---- trees stay well-formed ----------------------------------------------------------

  lemma {:induction false} GetWellFormed(node: V, tokens: seq<CString>)
    requires WellFormed(node) && Get(node, tokens).Some?
    ensures WellFormed(Get(node, tokens).value)
  {
    if tokens != [] {
      ChildWellFormed(node, tokens[0]);
      GetWellFormed(Child(node, tokens[0]).value, tokens[1..]);
    }
  }

  lemma ChildWellFormed(node: V, tok: CString)
    requires WellFormed(node) && Child(node, tok).Some?
    ensures WellFormed(Child(node, tok).value)
  {
    var i := Spot(node, tok);
  }

  lemma {:induction false} PutWellFormed(node: V, tokens: seq<CString>, x: V)
    requires WellFormed(node) && WellFormed(x) && Get(node, tokens).Some?
    ensures WellFormed(Put(node, tokens, x))
  {
    if tokens != [] {
      var child := Child(node, tokens[0]).value;
      ChildWellFormed(node, tokens[0]);
      PutWellFormed(child, tokens[1..], x);
      WithChildIs(node, tokens[0], Put(child, tokens[1..], x));
    }
  }

  /** Neither operation makes a map hold a key twice. */
  lemma SetRemoveWellFormed(root: V, tokens: seq<CString>, obj: V)
    requires WellFormed(root) && WellFormed(obj) && tokens != []
    ensures WellFormed(Set(root, tokens, obj).0) && WellFormed(Remove(root, tokens).0)
  {
    var others, tok := Init(tokens), Last(tokens);
    if Get(root, others).Some? {
      var prev := Get(root, others).value;
      GetWellFormed(root, others);
      SetStepWellFormed(prev, tok, obj);
      RemoveStepWellFormed(prev, tok);
      PutWellFormed(root, others, SetStep(prev, tok, obj).0);
      PutWellFormed(root, others, RemoveStep(prev, tok).0);
    }
  }

  lemma SetStepWellFormed(node: V, tok: CString, obj: V)
    requires WellFormed(node) && WellFormed(obj)
    ensures WellFormed(SetStep(node, tok, obj).0)
  {
    var aim := AimOf(node, tok);
    hide AimOf;
    if aim.Key? {
      MapSetGet(node.entries, aim.key, obj, aim.key);
    }
  }

  lemma RemoveStepWellFormed(node: V, tok: CString)
    requires WellFormed(node)
    ensures WellFormed(RemoveStep(node, tok).0)
  {
    var aim := AimOf(node, tok);
    hide AimOf;
    if aim.Key? {
      MapRemoveGet(node.entries, aim.key, aim.key);
    }
  }

  // ---- paths as steps ------------------------------------------------------------------

  /** What a step of a key addresses in a node. */
  function StepAim(node: V, step: Step): (aim: Aim)
    ensures (aim.Key? ==> node.Map?) && (aim.Item? || aim.BadIndex? ==> node.List?)
  {
    match step
    case Plain(key) => if node.Map? then Key(key) else Nowhere
    case Quoted(key) => if node.Map? then Key(key) else if node.List? then BadIndex else Nowhere
    case Index(n) =>
      if node.List? then Item(n)
      else if node.Map? then Key(Numbers.Dec(n) + "]")
      else Nowhere
  }

  /** The tokens mean the steps. On a map, an index is taken for a key that ends with a bracket. */
  lemma TokenMeaning(node: V, step: Step)
    requires GoodStep(step)
    ensures AimOf(node, Token(step)) == StepAim(node, step)
  {
    if step.Plain? {
      assert IsPlain(step.key[0]) && IsPlain(step.key[|step.key| - 1]);
    } else if step.Quoted? {
      QuotedToken(step.key);
    } else {
      IndexToken(step.n);
    }
  }

  lemma QuotedToken(key: CString)
    ensures var tok: Bytes := "\"" + key + "\"]";
            NulFree(tok) && IndexAim(tok) == BadIndex && Unquoted(tok) == key && tok[0] == '"' && tok[|tok| - 1] == ']'
  {
    var tok: Bytes := "\"" + key + "\"]";
    assert tok[1..|tok| - 2] == key;
    assert At(tok, 0) == '"' && Numbers.SkipSpaces(tok, 0) == 0 && Numbers.SkipSign(tok, 0) == 0;
    assert Numbers.DigitsEnd(tok, 0, 10) == 0;
    assert Numbers.Strtol(tok, 10) == (0, 0);
  }

  lemma IndexToken(n: nat)
    requires n <= Numbers.LONG_MAX
    ensures var tok: Bytes := Numbers.Dec(n) + "]";
            NulFree(tok) && IndexAim(tok) == Item(n) && tok[0] != '"' && tok[|tok| - 1] == ']'
  {
    hide Numbers.Strtol;
    hide Numbers.DecNat;
    hide Numbers.Dec;
    hide IndexAim;
    var digits := Numbers.DecNat(n);
    Numbers.DecNatStrtol(n, "]");
    DecOfNat(n);
    DigitsToken(digits);
    BracketAim(digits, n);
  }

  lemma DecOfNat(n: nat)
    ensures Numbers.Dec(n) == Numbers.DecNat(n)
  {
  }

  lemma DigitsToken(digits: Bytes)
    requires digits != [] && forall i :: 0 <= i < |digits| ==> IsDigit(digits[i])
    ensures var tok: Bytes := digits + "]"; NulFree(tok) && tok[0] != '"' && tok[|tok| - 1] == ']'
  {
  }

  lemma BracketAim(digits: Bytes, n: nat)
    requires NulFree(digits + "]") && Numbers.Strtol(digits + "]", 10) == (n, |digits|)
    ensures IndexAim(digits + "]") == Item(n)
  {
    hide Numbers.Strtol;
    assert (digits + "]")[|digits|] == ']';
  }

  /** The node that steps lead to, without tokens. */
  function Follow(node: V, steps: seq<Step>): Option<V> {
    if steps == [] then Some(node)
    else
      match Lookup(node, StepAim(node, steps[0]))
      case None => None
      case Some(child) => Follow(child, steps[1..])
  }

  lemma {:induction false} GetFollows(node: V, steps: seq<Step>)
    requires GoodSteps(steps)
    ensures Get(node, TokensOf(steps)) == Follow(node, steps)
  {
    if steps != [] {
      var child := Lookup(node, StepAim(node, steps[0]));
      TokenMeaning(node, steps[0]);
      assert TokensOf(steps)[0] == Token(steps[0]) && TokensOf(steps)[1..] == TokensOf(steps[1..]);
      if child.Some? {
        GetFollows(child.value, steps[1..]);
      }
    }
  }

  /** The node that the last step starts from. */
  function Parent(node: V, steps: seq<Step>): Option<V>
    requires steps != []
  {
    Follow(node, steps[..|steps| - 1])
  }

  /** A key that renders steps, with any spaces around. */
  ghost predicate Renders(key: CString, steps: seq<Step>) {
    steps != [] && GoodSteps(steps) && StrObject.Strip(key) == Render(steps, true)
  }

  /** `json_get_node` follows exactly the steps of its key. */
  lemma GetNodeFollows(root: V, steps: seq<Step>, key: CString)
    requires Renders(key, steps)
    ensures GetNodeOf(Some(root), key) == Follow(root, steps)
  {
    KeyRoundTrip(steps, key);
    GetFollows(root, steps);
  }

  /** Main result: the laws of get, set and remove for keys that render steps. */
  lemma SetThenGet(root: V, steps: seq<Step>, key: CString, obj: V)
    requires Renders(key, steps)
    ensures var (after, ok) := SetNodeOf(Some(root), key, obj);
            match Parent(root, steps)
            case None => !ok && after == Some(root)
            case Some(prev) =>
              match StepAim(prev, steps[|steps| - 1])
              case Key(_) => ok && GetNodeOf(after, key) == Some(obj)
              case Item(n) => ok && GetNodeOf(after, key) == Some(if Lands(|prev.items|, n) then obj else Null)
              case BadIndex => ok && after == Some(root)
              case Nowhere => !ok && after == Some(root)
  {
    var last := |steps| - 1;
    KeyRoundTrip(steps, key);
    var tokens := TokensOf(steps);
    assert Init(tokens) == TokensOf(steps[..last]) by {
      InitOf(steps);
    }
    assert Last(tokens) == Token(steps[last]);
    GetFollows(root, steps[..last]);
    if Follow(root, steps[..last]).Some? {
      TokenMeaning(Follow(root, steps[..last]).value, steps[last]);
    }
    hide *;
    SetGet(root, tokens, obj);
  }

  lemma {:induction false} InitOf(steps: seq<Step>)
    requires steps != [] && GoodSteps(steps)
    ensures Init(TokensOf(steps)) == TokensOf(steps[..|steps| - 1])
    ensures Last(TokensOf(steps)) == Token(steps[|steps| - 1])
  {
    hide Token;
    hide GoodStep;
    if |steps| > 1 {
      var rest := TokensOf(steps[1..]);
      InitOf(steps[1..]);
      TakeDrop(steps, |steps| - 1);
      InitCons(Token(steps[0]), rest);
    }
  }

  lemma InitCons<T>(x: T, s: seq<T>)
    requires s != []
    ensures ([x] + s)[..|s|] == [x] + s[..|s| - 1]
  {
  }

  lemma RemoveThenGet(root: V, steps: seq<Step>, key: CString)
    requires Renders(key, steps) && WellFormed(root)
    ensures var (after, found) := RemoveNodeOf(Some(root), key);
            && found == GetNodeOf(Some(root), key) == Follow(root, steps)
            && (found.None? ==> after == Some(root))
            && (found.Some? ==>
                  match Parent(root, steps)
                  case None => false
                  case Some(prev) => prev.Map? ==> GetNodeOf(after, key) == None)
  {
    KeyRoundTrip(steps, key);
    InitOf(steps);
    GetFollows(root, steps);
    GetFollows(root, steps[..|steps| - 1]);
    RemoveGet(root, TokensOf(steps));
    GetSplit(root, TokensOf(steps));
  }

  // ---- keys that part ------------------------------------------------------------------

  /** Steps that address different children of any node. */
  predicate Apart(a: Step, b: Step) {
    if a.Index? && b.Index? then a.n != b.n
    else if a.Index? then b.key != Numbers.Dec(a.n) + "]"
    else if b.Index? then a.key != Numbers.Dec(b.n) + "]"
    else a.key != b.key
  }

  /** Plain or quoted, the same key. */
  predicate Alike(a: Step, b: Step) {
    if a.Index? || b.Index? then a == b else a.key == b.key
  }

  /** The first place where the paths differ comes before either one ends. */
  predicate Diverge(a: seq<Step>, b: seq<Step>) {
    && a != [] && b != []
    && (Apart(a[0], b[0]) || (Alike(a[0], b[0]) && Diverge(a[1..], b[1..])))
  }

  predicate IntIndex(step: Step) {
    step.Index? ==> step.n < 0x8000_0000
  }

  predicate IntIndexes(steps: seq<Step>) {
    forall i :: 0 <= i < |steps| ==> IntIndex(steps[i])
  }

  lemma ApartAims(node: V, a: Step, b: Step)
    requires GoodStep(a) && GoodStep(b) && Apart(a, b) && node.Map?
    ensures StepAim(node, a).key != StepAim(node, b).key
  {
    if a.Index? && b.Index? {
      var m, n := Numbers.DecNat(a.n), Numbers.DecNat(b.n);
      Numbers.DecNatValue(a.n);
      Numbers.DecNatValue(b.n);
      hide Numbers.DecNat;
      assert (m + "]")[..|m|] == m && (n + "]")[..|n|] == n;
    }
  }

  lemma ApartSpots(node: V, a: Step, b: Step)
    requires GoodStep(a) && GoodStep(b) && Apart(a, b) && IntIndex(a) && IntIndex(b)
    requires Child(node, Token(b)).Some?
    ensures Spares(node, Token(a), Token(b))
    ensures Child(node, Token(a)).Some? ==> Spot(node, Token(a)) != Spot(node, Token(b))
  {
    TokenMeaning(node, a);
    TokenMeaning(node, b);
    if node.Map? {
      ApartAims(node, a, b);
    }
    hide Token;
    hide StepAim;
    hide GoodStep;
    if !node.Map? {
      ListSpots(node, a, b);
    }
  }

  lemma ListSpots(node: V, a: Step, b: Step)
    requires GoodStep(a) && GoodStep(b) && Apart(a, b) && IntIndex(a) && IntIndex(b) && node.List?
    requires AimOf(node, Token(a)) == StepAim(node, a) && AimOf(node, Token(b)) == StepAim(node, b)
    requires Child(node, Token(b)).Some?
    ensures Spares(node, Token(a), Token(b))
    ensures Child(node, Token(a)).Some? ==> Spot(node, Token(a)) != Spot(node, Token(b))
  {
    hide AimOf;
    hide Token;
  }

  lemma AlikeSpots(node: V, a: Step, b: Step)
    requires GoodStep(a) && GoodStep(b) && Alike(a, b)
    requires Child(node, Token(a)).Some? && Child(node, Token(b)).Some?
    ensures Spot(node, Token(a)) == Spot(node, Token(b))
  {
    TokenMeaning(node, a);
    TokenMeaning(node, b);
  }

  /** Two paths that enter different children, or the same child and are clear there. */
  lemma ClearDown(node: V, tokens: seq<CString>, prev: V, other: seq<CString>)
    requires |tokens| > 1 && other != []
    requires Child(node, tokens[0]).Some? && Child(node, other[0]).Some?
    requires Spot(node, tokens[0]) == Spot(node, other[0]) ==>
               Clear(Child(node, tokens[0]).value, tokens[1..], prev, other[1..])
    ensures Clear(node, tokens, prev, other)
  {
    InitTail(tokens);
    hide Child;
    hide Spot;
    hide Spares;
  }

  lemma TokensParts(steps: seq<Step>)
    requires steps != [] && GoodSteps(steps)
    ensures GoodStep(steps[0]) && GoodSteps(steps[1..]) && |TokensOf(steps)| == |steps|
    ensures TokensOf(steps)[0] == Token(steps[0]) && TokensOf(steps)[1..] == TokensOf(steps[1..])
  {
    hide Token;
    hide GoodStep;
  }

  lemma {:induction false} DivergeClear(node: V, a: seq<Step>, b: seq<Step>, prev: V)
    requires GoodSteps(a)
    requires GoodSteps(b)
    requires Diverge(a, b) && IntIndexes(a) && IntIndexes(b)
    requires Get(node, TokensOf(b)).Some? && Get(node, Init(TokensOf(a))) == Some(prev)
    ensures Clear(node, TokensOf(a), prev, TokensOf(b))
  {
    hide *;
    var ta, tb := TokensOf(a), TokensOf(b);
    DivergeParts(a, b);
    TokensParts(a);
    TokensParts(b);
    GetDown(node, tb);
    if |a| == 1 {
      ApartSpots(node, a[0], b[0]);
      ClearHere(node, ta, prev, tb);
    } else {
      InitTail(ta);
      GetDown(node, Init(ta));
      if Apart(a[0], b[0]) {
        ApartSpots(node, a[0], b[0]);
      } else {
        AlikeSpots(node, a[0], b[0]);
        DivergeClear(Child(node, ta[0]).value, a[1..], b[1..], prev);
      }
      ClearDown(node, ta, prev, tb);
    }
  }

  lemma GetDown(node: V, tokens: seq<CString>)
    requires tokens != [] && Get(node, tokens).Some?
    ensures Child(node, tokens[0]).Some?
    ensures Get(Child(node, tokens[0]).value, tokens[1..]) == Get(node, tokens)
  {
  }

  lemma DivergeParts(a: seq<Step>, b: seq<Step>)
    requires Diverge(a, b) && IntIndexes(a) && IntIndexes(b)
    ensures a != [] && b != [] && IntIndex(a[0]) && IntIndex(b[0]) && IntIndexes(a[1..]) && IntIndexes(b[1..])
    ensures Apart(a[0], b[0]) || (Alike(a[0], b[0]) && |a| > 1 && |b| > 1 && Diverge(a[1..], b[1..]))
  {
  }

  lemma ClearHere(node: V, tokens: seq<CString>, prev: V, other: seq<CString>)
    requires |tokens| == 1 && other != [] && Get(node, Init(tokens)) == Some(prev)
    requires Child(node, other[0]).Some? && Spares(node, tokens[0], other[0])
    ensures Clear(node, tokens, prev, other)
  {
  }

  /** A set leaves alone what a diverging key found before. */
  lemma SetKeepsOthers(root: V, a: seq<Step>, key: CString, obj: V, b: seq<Step>, other: CString)
    requires Renders(key, a) && Renders(other, b)
    requires Diverge(a, b) && IntIndexes(a) && IntIndexes(b)
    requires GetNodeOf(Some(root), other).Some?
    ensures GetNodeOf(SetNodeOf(Some(root), key, obj).0, other) == GetNodeOf(Some(root), other)
  {
    KeyRoundTrip(a, key);
    KeyRoundTrip(b, other);
    var ta, tb := TokensOf(a), TokensOf(b);
    match Get(root, Init(ta))
    case None =>
    case Some(prev) =>
      DivergeClear(root, a, b, prev);
      SetFrame(root, ta, obj, prev, tb);
  }

  // ---- what a removal moves ------------------------------------------------------------

  /** The path that leads to the same node when the node at the end of `a` is gone. */
  function Shifted(node: V, a: seq<Step>, b: seq<Step>): seq<Step>
    requires a != [] && b != [] && GoodSteps(a)
    decreases |a|
  {
    if |a| == 1 then
      if node.List? && a[0].Index? && b[0].Index? && a[0].n < b[0].n then [Index(b[0].n - 1)] + b[1..] else b
    else if |b| == 1 || Apart(a[0], b[0]) || Child(node, Token(a[0])).None? then b
    else [b[0]] + Shifted(Child(node, Token(a[0])).value, a[1..], b[1..])
  }

  lemma RemoveHere(node: V, a: Step, b: Step, step: Step)
    requires GoodStep(a) && GoodStep(b) && Apart(a, b) && IntIndex(a) && IntIndex(b) && WellFormed(node)
    requires Child(node, Token(b)).Some?
    requires step == if node.List? && a.Index? && b.Index? && a.n < b.n then Index(b.n - 1) else b
    ensures GoodStep(step) && Child(RemoveStep(node, Token(a)).0, Token(step)) == Child(node, Token(b))
  {
    hide Token;
    hide AimOf;
    hide StepAim;
    hide GoodStep;
    hide Child;
    hide Spot;
    hide RemoveStep;
    ApartSpots(node, a, b);
    ChildOf(node, Token(b));
    StepMoved(b, step);
    if node.Map? {
      RemoveStepMap(node, Token(a), Token(b));
    } else {
      TokenMeaning(node, a);
      TokenMeaning(node, b);
      TokenMeaning(RemoveStep(node, Token(a)).0, step);
      RemoveListHere(node, a, b, step);
    }
  }

  lemma ChildOf(node: V, tok: CString)
    requires Child(node, tok).Some?
    ensures node.Map? || node.List?
  {
  }

  lemma StepMoved(b: Step, step: Step)
    requires GoodStep(b) && (step == b || (b.Index? && b.n > 0 && step == Index(b.n - 1)))
    ensures GoodStep(step)
  {
  }

  lemma RemoveListHere(node: V, a: Step, b: Step, step: Step)
    requires GoodStep(a) && GoodStep(b) && GoodStep(step) && Apart(a, b) && IntIndex(a) && IntIndex(b) && node.List?
    requires AimOf(node, Token(a)) == StepAim(node, a) && AimOf(node, Token(b)) == StepAim(node, b)
    requires var after := RemoveStep(node, Token(a)).0; AimOf(after, Token(step)) == StepAim(after, step)
    requires Child(node, Token(b)).Some?
    requires Child(node, Token(a)).Some? ==> Spot(node, Token(a)) != Spot(node, Token(b))
    requires step == if a.Index? && b.Index? && a.n < b.n then Index(b.n - 1) else b
    ensures Child(RemoveStep(node, Token(a)).0, Token(step)) == Child(node, Token(b))
  {
    hide Token;
    hide AimOf;
    if Child(node, Token(a)).Some? {
      RemoveStepList(node, Token(a), Token(b), Token(step));
    }
  }

  lemma RemoveDown(node: V, tokens: seq<CString>)
    requires |tokens| > 1
    ensures Child(node, tokens[0]).None? ==> Remove(node, tokens).0 == node
    ensures Child(node, tokens[0]).Some? ==>
              Remove(node, tokens).0 ==
              WithChild(node, tokens[0], Remove(Child(node, tokens[0]).value, tokens[1..]).0)
  {
    InitTail(tokens);
    if Child(node, tokens[0]).Some? {
      WithChildSame(node, tokens[0]);
    }
    hide Child;
    hide WithChild;
    hide RemoveStep;
  }

  lemma {:induction false} RemoveShifts(node: V, a: seq<Step>, b: seq<Step>)
    requires GoodSteps(a)
    requires GoodSteps(b)
    requires Diverge(a, b) && IntIndexes(a) && IntIndexes(b)
    requires WellFormed(node) && Get(node, TokensOf(b)).Some?
    ensures GoodSteps(Shifted(node, a, b))
    ensures Get(Remove(node, TokensOf(a)).0, TokensOf(Shifted(node, a, b))) == Get(node, TokensOf(b))
    decreases |a|
  {
    hide *;
    DivergeParts(a, b);
    var ta, tb, gone := TokensOf(a), TokensOf(b), Shifted(node, a, b);
    TokensParts(a);
    TokensParts(b);
    GetDown(node, tb);
    if |a| == 1 {
      var step := if node.List? && a[0].Index? && b[0].Index? && a[0].n < b[0].n then Index(b[0].n - 1) else b[0];
      ShiftedHere(node, a, b);
      RemoveHere(node, a[0], b[0], step);
      RemoveOne(node, ta);
      StepsInFront(step, b[1..]);
      GetUp(Remove(node, ta).0, TokensOf(gone), node, tb);
    } else {
      RemoveDown(node, ta);
      if Child(node, ta[0]).None? {
        ShiftedNot(node, a, b);
      } else {
        var child := Child(node, ta[0]).value;
        WithChildGet(node, ta[0], Remove(child, ta[1..]).0, tb[0]);
        if Apart(a[0], b[0]) {
          ShiftedNot(node, a, b);
          ApartSpots(node, a[0], b[0]);
          GetUp(Remove(node, ta).0, tb, node, tb);
        } else {
          AlikeSpots(node, a[0], b[0]);
          SpotChild(node, ta[0], tb[0]);
          ChildWellFormed(node, ta[0]);
          RemoveShifts(child, a[1..], b[1..]);
          ShiftedDeeper(node, a, b);
          StepsInFront(b[0], Shifted(child, a[1..], b[1..]));
          GetThrough(Remove(node, ta).0, TokensOf(gone), node, tb);
        }
      }
    }
  }

  lemma ShiftedHere(node: V, a: seq<Step>, b: seq<Step>)
    requires |a| == 1 && b != [] && GoodSteps(a)
    ensures Shifted(node, a, b) ==
            [if node.List? && a[0].Index? && b[0].Index? && a[0].n < b[0].n then Index(b[0].n - 1) else b[0]] + b[1..]
  {
  }

  lemma ShiftedNot(node: V, a: seq<Step>, b: seq<Step>)
    requires |a| > 1 && b != [] && GoodSteps(a) && (Apart(a[0], b[0]) || Child(node, Token(a[0])).None?)
    ensures Shifted(node, a, b) == b
  {
  }

  lemma ShiftedDeeper(node: V, a: seq<Step>, b: seq<Step>)
    requires |a| > 1 && |b| > 1 && GoodSteps(a) && !Apart(a[0], b[0]) && Child(node, Token(a[0])).Some?
    ensures GoodSteps(a[1..])
    ensures Shifted(node, a, b) == [b[0]] + Shifted(Child(node, Token(a[0])).value, a[1..], b[1..])
  {
  }

  lemma RemoveOne(node: V, tokens: seq<CString>)
    requires |tokens| == 1
    ensures Remove(node, tokens).0 == RemoveStep(node, tokens[0]).0
  {
    assert Init(tokens) == [];
  }

  lemma StepsInFront(step: Step, rest: seq<Step>)
    requires GoodStep(step) && GoodSteps(rest)
    ensures GoodSteps([step] + rest) && TokensOf([step] + rest) == [Token(step)] + TokensOf(rest)
  {
    hide Token;
    hide GoodStep;
    assert ([step] + rest)[1..] == rest;
  }

  /** The same child on both sides. */
  lemma GetUp(left: V, t: seq<CString>, right: V, u: seq<CString>)
    requires t != [] && u != [] && Child(left, t[0]) == Child(right, u[0]) && t[1..] == u[1..]
    ensures Get(left, t) == Get(right, u)
  {
    hide Child;
  }

  /** Children in which the rests lead to the same. */
  lemma GetThrough(left: V, t: seq<CString>, right: V, u: seq<CString>)
    requires t != [] && u != [] && Child(left, t[0]).Some? && Child(right, u[0]).Some?
    requires Get(Child(left, t[0]).value, t[1..]) == Get(Child(right, u[0]).value, u[1..])
    ensures Get(left, t) == Get(right, u)
  {
    hide Child;
  }

  lemma SpotChild(node: V, tok: CString, other: CString)
    requires Child(node, tok).Some? && Child(node, other).Some? && Spot(node, tok) == Spot(node, other)
    ensures Child(node, tok) == Child(node, other)
  {
    hide Child;
    hide Spot;
  }

  /** What a diverging key found before is found again, with an index behind a removed item lowered by one. */
  lemma RemoveKeepsOthers(root: V, a: seq<Step>, key: CString, b: seq<Step>, other: CString, moved: CString)
    requires Renders(key, a) && Renders(other, b) && WellFormed(root)
    requires Diverge(a, b) && IntIndexes(a) && IntIndexes(b)
    requires Renders(moved, Shifted(root, a, b)) && GetNodeOf(Some(root), other).Some?
    ensures GetNodeOf(RemoveNodeOf(Some(root), key).0, moved) == GetNodeOf(Some(root), other)
  {
    KeyRoundTrip(a, key);
    KeyRoundTrip(b, other);
    KeyRoundTrip(Shifted(root, a, b), moved);
    RemoveShifts(root, a, b);
  }
}
