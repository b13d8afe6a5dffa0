/** File name paths of src/path.c, as text: `path_is_abs`, `path_join` and `path_normpath`. */
module Paths {
  import opened Bytes
  import opened Splitting

  const UP: Bytes := ".."
  const HERE: Bytes := "."
  const SLASH: Bytes := "/"

  predicate IsAbs(path: Bytes) {
    path != [] && path[0] == '/'
  }

  /** `path_join` */
  function PathJoin(path: Bytes, other: Bytes): Bytes {
    if IsAbs(other) then other
    else if path == [] || path[|path| - 1] == '/' then path + other
    else path + SLASH + other
  }

  function Components(path: Bytes): seq<Bytes> {
    Split(path, SLASH, -1)
  }

  predicate Skipped(part: Bytes) {
    part == [] || part == HERE
  }

  /** One round of the loop; removing the last part of an empty list does nothing. */
  function NormStep(initial: bool, parts: seq<Bytes>, part: Bytes): seq<Bytes> {
    if Skipped(part) then parts
    else if part != UP || (!initial && parts == []) || (parts != [] && parts[|parts| - 1] == UP) then parts + [part]
    else if parts == [] then []
    else parts[..|parts| - 1]
  }

  function NormParts(initial: bool, parts: seq<Bytes>, rest: seq<Bytes>): seq<Bytes>
    decreases |rest|
  {
    if rest == [] then parts else NormParts(initial, NormStep(initial, parts, rest[0]), rest[1..])
  }

  /** Puts the parts together. */
  function Assemble(initial: bool, parts: seq<Bytes>): Bytes {
    if initial then SLASH + Join(parts, SLASH)
    else if parts == [] then HERE
    else Join(parts, SLASH)
  }

  /** `path_normpath` */
  function Normpath(path: Bytes): Bytes {
    Assemble(IsAbs(path), NormParts(IsAbs(path), [], Components(path)))
  }

  method PathNormpath(path: CString) returns (normpath: Bytes)
    ensures normpath == Normpath(path)
  {
    hide Split;
    hide Join;
    hide NormParts;
    var initialSlash := At(path, 0) == '/';
    var parts := CstrSplit(path, SLASH, -1);
    var newParts: seq<Bytes> := [];
    for i := 0 to |parts|
      invariant NormParts(initialSlash, newParts, parts[i..]) == NormParts(initialSlash, [], parts)
    {
      var part := parts[i];
      NormPartsStep(initialSlash, newParts, parts[i..]);
      assert parts[i..][0] == part && parts[i..][1..] == parts[i + 1..];
      if part == [] || part == HERE {
        continue;
      }
      if part != UP || (!initialSlash && newParts == []) || (newParts != [] && newParts[|newParts| - 1] == UP) {
        newParts := newParts + [part];
      } else if newParts != [] {
        newParts := newParts[..|newParts| - 1];
      }
    }
    NormPartsStep(initialSlash, newParts, parts[|parts|..]);
    if newParts == [] && !initialSlash {
      normpath := HERE;
    } else {
      normpath := StrJoin(newParts, SLASH);
    }
    if initialSlash {
      normpath := SLASH + normpath;
    }
  }

  lemma NormPartsStep(initial: bool, parts: seq<Bytes>, rest: seq<Bytes>)
    ensures rest == [] ==> NormParts(initial, parts, rest) == parts
    ensures rest != [] ==>
              NormParts(initial, parts, rest) == NormParts(initial, NormStep(initial, parts, rest[0]), rest[1..])
  {
  }

  // ---- what a path means ---------------------------------------------------------------

  /** A directory, as the names that lead to it from the root. The root is its own parent. */
  type Dir = seq<Bytes>

  function Enter(dir: Dir, part: Bytes): Dir {
    if Skipped(part) then dir
    else if part == UP then if dir == [] then [] else dir[..|dir| - 1]
    else dir + [part]
  }

  function Walk(dir: Dir, parts: seq<Bytes>): Dir
    decreases |parts|
  {
    if parts == [] then dir else Walk(Enter(dir, parts[0]), parts[1..])
  }

  /** Absolute paths start at the root. */
  function From(initial: bool, dir: Dir, parts: seq<Bytes>): Dir {
    Walk(if initial then [] else dir, parts)
  }

  /** Lexical resolution of a path from a directory. */
  function Resolve(dir: Dir, path: Bytes): Dir {
    From(IsAbs(path), dir, Components(path))
  }

  // ---- normalised parts ----------------------------------------------------------------

  predicate Plain(part: Bytes) {
    part != [] && part != HERE && '/' !in part
  }

  /** Plain parts, and ".." only in front of a relative path. */
  predicate Canonical(initial: bool, parts: seq<Bytes>) {
    && (forall i :: 0 <= i < |parts| ==> Plain(parts[i]))
    && (forall i :: 0 <= i < |parts| && parts[i] == UP ==> !initial && forall j :: 0 <= j < i ==> parts[j] == UP)
  }

  lemma CanonicalSnoc(initial: bool, parts: seq<Bytes>, part: Bytes)
    ensures Canonical(initial, parts + [part]) <==>
              && Canonical(initial, parts) && Plain(part)
              && (part == UP ==> !initial && forall j :: 0 <= j < |parts| ==> parts[j] == UP)
  {
    var longer := parts + [part];
    assert longer[|parts|] == part;
    assert forall i :: 0 <= i < |parts| ==> longer[i] == parts[i];
  }

  /** A list is empty or ends with a last element. */
  lemma LastSplit<T>(s: seq<T>)
    requires s != []
    ensures s == s[..|s| - 1] + [s[|s| - 1]]
  {
  }

  lemma AllUp(initial: bool, parts: seq<Bytes>)
    requires Canonical(initial, parts) && parts != [] && parts[|parts| - 1] == UP
    ensures !initial && forall j :: 0 <= j < |parts| ==> parts[j] == UP
  {
  }

  lemma NormStepCanonical(initial: bool, parts: seq<Bytes>, part: Bytes)
    requires Canonical(initial, parts) && '/' !in part
    ensures Canonical(initial, NormStep(initial, parts, part))
  {
    CanonicalSnoc(initial, parts, part);
    if parts != [] {
      LastSplit(parts);
      CanonicalSnoc(initial, parts[..|parts| - 1], parts[|parts| - 1]);
      if parts[|parts| - 1] == UP {
        AllUp(initial, parts);
      }
    }
    hide Canonical;
  }

  lemma WalkSnoc(dir: Dir, parts: seq<Bytes>, part: Bytes)
    ensures Walk(dir, parts + [part]) == Enter(Walk(dir, parts), part)
  {
    WalkAppend(dir, parts, [part]);
  }

  lemma {:induction false} WalkAppend(dir: Dir, a: seq<Bytes>, b: seq<Bytes>)
    ensures Walk(dir, a + b) == Walk(Walk(dir, a), b)
    decreases |a|
  {
    if a == [] {
      EmptyFront(b);
    } else {
      assert (a + b)[0] == a[0] && (a + b)[1..] == a[1..] + b;
      WalkAppend(Enter(dir, a[0]), a[1..], b);
    }
  }

  /** One round of normalising does what entering the part does. */
  lemma NormStepWalk(initial: bool, parts: seq<Bytes>, part: Bytes, dir: Dir)
    requires Canonical(initial, parts) && (initial ==> dir == [])
    ensures Walk(dir, NormStep(initial, parts, part)) == Enter(Walk(dir, parts), part)
  {
    if !Skipped(part) {
      WalkSnoc(dir, parts, part);
      if parts != [] {
        LastSplit(parts);
        WalkSnoc(dir, parts[..|parts| - 1], parts[|parts| - 1]);
        assert Plain(parts[|parts| - 1]);
      }
    }
  }

  lemma {:induction false} NormWalk(initial: bool, parts: seq<Bytes>, rest: seq<Bytes>, dir: Dir)
    requires Canonical(initial, parts) && SlashFree(rest) && (initial ==> dir == [])
    ensures Canonical(initial, NormParts(initial, parts, rest))
    ensures Walk(dir, NormParts(initial, parts, rest)) == Walk(Walk(dir, parts), rest)
    decreases |rest|
  {
    hide Canonical;
    hide NormStep;
    if rest != [] {
      NormStepCanonical(initial, parts, rest[0]);
      NormStepWalk(initial, parts, rest[0], dir);
      NormWalk(initial, NormStep(initial, parts, rest[0]), rest[1..], dir);
    }
  }

  // ---- components ----------------------------------------------------------------------

  predicate SlashFree(parts: seq<Bytes>) {
    forall i :: 0 <= i < |parts| ==> '/' !in parts[i]
  }

  lemma SlashAt(s: Bytes, k: nat)
    ensures Occurs(s, SLASH, k) <==> k < |s| && s[k] == '/'
  {
  }

  lemma SlashOccurs(s: Bytes)
    ensures Contains(s, SLASH) <==> '/' in s
    ensures Leftmost(s, SLASH) <==> '/' !in s
  {
    hide Occurs;
    hide StrStr;
    var t := s + SLASH;
    forall k: nat
      ensures Occurs(s, SLASH, k) <==> k < |s| && s[k] == '/'
      ensures Occurs(t, SLASH, k) <==> k < |t| && t[k] == '/'
    {
      SlashAt(s, k);
      SlashAt(t, k);
    }
    if '/' in s {
      var k :| 0 <= k < |s| && s[k] == '/';
      assert Occurs(s, SLASH, k) && t[k] == '/';
      assert Occurs(t, SLASH, k);
    } else {
      assert t[|s|] == '/';
      assert Occurs(t, SLASH, |s|);
    }
  }

  lemma SlashCut(parts: seq<Bytes>)
    ensures Cut(parts, SLASH, -1) <==> parts != [] && SlashFree(parts)
  {
    forall i | 0 <= i < |parts|
      ensures Contains(parts[i], SLASH) <==> '/' in parts[i]
      ensures Leftmost(parts[i], SLASH) <==> '/' !in parts[i]
    {
      SlashOccurs(parts[i]);
    }
    hide Contains;
    hide Leftmost;
  }

  /** The components are the slash-free parts that join to the path. */
  lemma ComponentsIff(parts: seq<Bytes>, path: Bytes)
    ensures parts == Components(path) <==> parts != [] && SlashFree(parts) && Join(parts, SLASH) == path
  {
    SplitIff(parts, path, SLASH, -1);
    SlashCut(parts);
  }

  lemma ComponentsFacts(path: Bytes)
    ensures Components(path) != [] && SlashFree(Components(path))
    ensures Join(Components(path), SLASH) == path
  {
    ComponentsIff(Components(path), path);
  }

  lemma {:induction false} JoinAppend(a: seq<Bytes>, b: seq<Bytes>)
    requires a != [] && b != []
    ensures Join(a + b, SLASH) == Join(a, SLASH) + SLASH + Join(b, SLASH)
  {
    if |a| == 1 {
      assert a == [a[0]];
      JoinCons(a[0], b, SLASH);
    } else {
      hide *;
      FirstRest(a);
      Assoc([a[0]], a[1..], b);
      JoinAppend(a[1..], b);
      JoinCons(a[0], a[1..], SLASH);
      JoinCons(a[0], a[1..] + b, SLASH);
      JoinedParts(a[0], Join(a[1..], SLASH), Join(b, SLASH));
    }
  }

  lemma JoinedParts(a: Bytes, b: Bytes, c: Bytes)
    ensures a + SLASH + (b + SLASH + c) == a + SLASH + b + SLASH + c
  {
  }

  lemma SlashFreeAppend(a: seq<Bytes>, b: seq<Bytes>)
    requires SlashFree(a) && SlashFree(b)
    ensures SlashFree(a + b)
  {
  }

  /** A slash separates components. */
  lemma ComponentsAppend(a: Bytes, b: Bytes)
    ensures Components(a + SLASH + b) == Components(a) + Components(b)
  {
    hide *;
    ComponentsFacts(a);
    ComponentsFacts(b);
    JoinAppend(Components(a), Components(b));
    SlashFreeAppend(Components(a), Components(b));
    ComponentsIff(Components(a) + Components(b), a + SLASH + b);
  }

  lemma ComponentsEmpty()
    ensures Components([]) == [[]]
  {
    ComponentsIff([[]], []);
  }

  // ---- normalised paths ----------------------------------------------------------------

  ghost predicate CanonicalPath(path: Bytes) {
    exists parts :: Canonical(IsAbs(path), parts) && path == Assemble(IsAbs(path), parts)
  }

  lemma JoinFirst(parts: seq<Bytes>)
    requires parts != [] && parts[0] != []
    ensures Join(parts, SLASH) != [] && Join(parts, SLASH)[0] == parts[0][0]
  {
  }

  /** An assembled path is absolute when it should be, and its components are its parts again. */
  lemma AssembleFacts(initial: bool, parts: seq<Bytes>)
    requires Canonical(initial, parts)
    ensures IsAbs(Assemble(initial, parts)) == initial
    ensures Components(Assemble(initial, parts)) ==
            if initial then [[]] + (if parts == [] then [[]] else parts) else if parts == [] then [HERE] else parts
  {
    assert SlashFree(parts) by {
      assert forall i :: 0 <= i < |parts| ==> Plain(parts[i]);
    }
    hide Split;
    if parts != [] {
      assert Plain(parts[0]);
      ComponentsIff(parts, Join(parts, SLASH));
      JoinFirst(parts);
    } else {
      ComponentsIff([HERE], HERE);
    }
    hide Join;
    ComponentsEmpty();
    ComponentsAppend([], Join(parts, SLASH));
    EmptyFront(SLASH);
    assert parts == [] ==> Join(parts, SLASH) == [] by {
      JoinParts([[]], SLASH);
    }
  }

  lemma WalkSkips(dir: Dir, part: Bytes)
    requires Skipped(part)
    ensures Walk(dir, [part]) == dir
  {
    assert Walk(dir, [part]) == Walk(Enter(dir, part), [part][1..]);
  }

  /** An assembled path leads where its parts lead. */
  lemma AssembleResolves(initial: bool, parts: seq<Bytes>, dir: Dir)
    requires Canonical(initial, parts)
    ensures Resolve(dir, Assemble(initial, parts)) == From(initial, dir, parts)
  {
    AssembleFacts(initial, parts);
    hide Canonical;
    hide Assemble;
    hide Components;
    var start := if initial then [] else dir;
    WalkSkips(start, []);
    WalkSkips(start, HERE);
    WalkAppend(start, [[]], if parts == [] then [[]] else parts);
    assert parts == [] ==> Walk(start, parts) == start;
  }

  lemma NormpathParts(path: Bytes) returns (parts: seq<Bytes>)
    ensures Canonical(IsAbs(path), parts) && Normpath(path) == Assemble(IsAbs(path), parts)
    ensures IsAbs(Normpath(path)) == IsAbs(path)
    ensures forall dir :: Resolve(dir, path) == From(IsAbs(path), dir, parts)
  {
    var initial := IsAbs(path);
    parts := NormParts(initial, [], Components(path));
    ComponentsFacts(path);
    hide Components;
    hide NormParts;
    forall dir: Dir
      ensures Resolve(dir, path) == From(initial, dir, parts)
    {
      NormWalk(initial, [], Components(path), if initial then [] else dir);
    }
    NormWalk(initial, [], Components(path), []);
    AssembleFacts(initial, parts);
  }

  /** Normalising keeps what a path means, from every directory. */
  lemma NormpathResolves(path: Bytes, dir: Dir)
    ensures Resolve(dir, Normpath(path)) == Resolve(dir, path)
  {
    var parts := NormpathParts(path);
    hide *;
    AssembleResolves(IsAbs(path), parts, dir);
  }

  // ---- a normal form -------------------------------------------------------------------

  /** How many ".." a relative path starts with. */
  function Ups(parts: seq<Bytes>): (n: nat)
    ensures n <= |parts| && forall i :: 0 <= i < n ==> parts[i] == UP
  {
    if parts != [] && parts[0] == UP then 1 + Ups(parts[1..]) else 0
  }

  lemma CanonicalTail(initial: bool, parts: seq<Bytes>)
    requires Canonical(initial, parts) && parts != []
    ensures Canonical(initial, parts[1..]) && Plain(parts[0])
  {
    var rest := parts[1..];
    forall i | 0 <= i < |rest| && rest[i] == UP
      ensures !initial && forall j :: 0 <= j < i ==> rest[j] == UP
    {
      assert parts[i + 1] == UP;
    }
  }

  lemma {:induction false} WalkNames(dir: Dir, parts: seq<Bytes>)
    requires forall i :: 0 <= i < |parts| ==> Plain(parts[i]) && parts[i] != UP
    ensures Walk(dir, parts) == dir + parts
    decreases |parts|
  {
    if parts != [] {
      assert Plain(parts[0]) && parts[0] != UP;
      WalkNames(dir + [parts[0]], parts[1..]);
      FirstRest(parts);
      Assoc(dir, [parts[0]], parts[1..]);
    } else {
      assert dir + [] == dir;
    }
  }

  /** Canonical parts climb and then descend. */
  lemma {:induction false} WalkCanonical(initial: bool, dir: Dir, parts: seq<Bytes>)
    requires Canonical(initial, parts) && Ups(parts) <= |dir|
    ensures Walk(dir, parts) == dir[..|dir| - Ups(parts)] + parts[Ups(parts)..]
    decreases |parts|
  {
    if parts == [] || parts[0] != UP {
      forall i | 0 <= i < |parts|
        ensures Plain(parts[i]) && parts[i] != UP
      {
      }
      assert dir[..|dir|] == dir && parts[0..] == parts;
      WalkNames(dir, parts);
    } else {
      CanonicalTail(initial, parts);
      var up := dir[..|dir| - 1];
      var n := Ups(parts[1..]);
      hide *;
      ClimbOne(dir, parts);
      WalkCanonical(initial, up, parts[1..]);
      assert up[..|up| - n] == dir[..|dir| - 1 - n];
      assert parts[1..][n..] == parts[1 + n..];
    }
  }

  lemma ClimbOne(dir: Dir, parts: seq<Bytes>)
    requires parts != [] && parts[0] == UP && Ups(parts) <= |dir|
    ensures |dir| > 0 && Walk(dir, parts) == Walk(dir[..|dir| - 1], parts[1..])
    ensures Ups(parts) == 1 + Ups(parts[1..])
  {
  }

  function Longest(parts: seq<Bytes>): (n: nat)
    ensures forall i :: 0 <= i < |parts| ==> |parts[i]| <= n
  {
    if parts == [] then 0
    else if |parts[0]| > Longest(parts[1..]) then |parts[0]| else Longest(parts[1..])
  }

  /** A directory as deep as needed, of names that occur in neither path. */
  function Deep(n: nat, name: Bytes): (d: Dir)
    ensures |d| == n && forall i :: 0 <= i < n ==> d[i] == name
  {
    seq(n, _ => name)
  }

  lemma ClimbsDiffer(d: Dir, z: Bytes, p: seq<Bytes>, q: seq<Bytes>, m: nat, n: nat)
    requires forall i :: 0 <= i < |d| ==> d[i] == z
    requires z !in q && m < n <= |d|
    ensures d[..|d| - m] + p != d[..|d| - n] + q
  {
    var left, right := d[..|d| - m] + p, d[..|d| - n] + q;
    if |left| == |right| {
      assert left[|d| - n] == z;
      assert right[|d| - n] == q[0] && q[0] in q;
    }
  }

  /** Canonical parts that lead to the same place from every directory are the same. */
  lemma CanonicalUnique(initial: bool, p: seq<Bytes>, q: seq<Bytes>)
    requires Canonical(initial, p) && Canonical(initial, q)
    requires forall dir: Dir :: From(initial, dir, p) == From(initial, dir, q)
    ensures p == q
  {
    assert From(initial, [], p) == From(initial, [], q);
    if initial {
      NoUps(p);
      NoUps(q);
      WalkCanonical(initial, [], p);
      WalkCanonical(initial, [], q);
      hide *;
      assert p[0..] == p && q[0..] == q;
      EmptyFront(p);
      EmptyFront(q);
    } else {
      var z: Bytes := seq(1 + Longest(p) + Longest(q), _ => 'x');
      var d := Deep(Ups(p) + Ups(q), z);
      assert From(initial, d, p) == From(initial, d, q);
      assert z !in p && z !in q;
      SameClimb(d, z, p, q);
    }
  }

  lemma SameClimb(d: Dir, z: Bytes, p: seq<Bytes>, q: seq<Bytes>)
    requires Canonical(false, p) && Canonical(false, q) && Walk(d, p) == Walk(d, q)
    requires z !in p && z !in q && |d| == Ups(p) + Ups(q) && forall i :: 0 <= i < |d| ==> d[i] == z
    ensures p == q
  {
    var m, n := Ups(p), Ups(q);
    hide *;
    WalkCanonical(false, d, p);
    WalkCanonical(false, d, q);
    if m < n {
      ClimbsDiffer(d, z, p[m..], q[n..], m, n);
    } else if n < m {
      ClimbsDiffer(d, z, q[n..], p[m..], n, m);
    } else {
      SameSuffix(d[..|d| - m], p[m..], q[n..]);
      SamePrefix(p, q, m);
    }
  }

  lemma NoUps(parts: seq<Bytes>)
    requires Canonical(true, parts)
    ensures Ups(parts) == 0
  {
  }

  lemma SameSuffix(d: Dir, p: seq<Bytes>, q: seq<Bytes>)
    requires d + p == d + q
    ensures p == q
  {
    assert (d + p)[|d|..] == p && (d + q)[|d|..] == q;
  }

  lemma SamePrefix(p: seq<Bytes>, q: seq<Bytes>, m: nat)
    requires m <= |p| && m <= |q| && p[m..] == q[m..]
    requires forall i :: 0 <= i < m ==> p[i] == q[i]
    ensures p == q
  {
    assert p == p[..m] + p[m..] && q == q[..m] + q[m..];
    assert p[..m] == q[..m];
  }

  /** Two paths mean the same: both or neither absolute, and they lead to the same place. */
  ghost predicate SameMeaning(a: Bytes, b: Bytes) {
    IsAbs(a) == IsAbs(b) && forall dir: Dir :: Resolve(dir, a) == Resolve(dir, b)
  }

  /** Main result: paths have the same normal form exactly when they mean the same. */
  lemma NormpathComplete(a: Bytes, b: Bytes)
    ensures Normpath(a) == Normpath(b) <==> SameMeaning(a, b)
  {
    var p := NormpathParts(a);
    var q := NormpathParts(b);
    hide Normpath;
    hide Assemble;
    hide Canonical;
    hide Walk;
    if Normpath(a) == Normpath(b) {
      forall dir: Dir
        ensures Resolve(dir, a) == Resolve(dir, b)
      {
        NormpathResolves(a, dir);
        NormpathResolves(b, dir);
      }
    } else if SameMeaning(a, b) {
      forall dir: Dir
        ensures From(IsAbs(a), dir, p) == From(IsAbs(a), dir, q)
      {
        assert Resolve(dir, a) == Resolve(dir, b);
      }
      CanonicalUnique(IsAbs(a), p, q);
    }
  }

  /** The paths that normalising leaves alone are the canonical ones; in particular it is idempotent. */
  lemma NormpathFixed(path: Bytes)
    ensures Normpath(path) == path <==> CanonicalPath(path)
    ensures CanonicalPath(Normpath(path)) && Normpath(Normpath(path)) == Normpath(path)
  {
    var parts := NormpathParts(path);
    var again := NormpathParts(Normpath(path));
    forall dir: Dir
      ensures Resolve(dir, Normpath(path)) == Resolve(dir, path)
    {
      NormpathResolves(path, dir);
    }
    NormpathComplete(Normpath(path), path);
    if CanonicalPath(path) {
      CanonicalFixed(path);
    }
  }

  /** Canonical paths by their components: plain ones, or a single "." or slash. */
  ghost predicate CanonicalComponents(initial: bool, c: seq<Bytes>) {
    if initial then |c| > 1 && c[0] == [] && (c[1..] == [[]] || Canonical(true, c[1..]))
    else c == [HERE] || (c != [] && Canonical(false, c))
  }

  lemma CanonicalText(path: Bytes)
    ensures CanonicalPath(path) <==> CanonicalComponents(IsAbs(path), Components(path))
  {
    var initial, c := IsAbs(path), Components(path);
    hide Components;
    hide Assemble;
    if CanonicalPath(path) {
      var parts :| Canonical(initial, parts) && path == Assemble(initial, parts);
      AssembleFacts(initial, parts);
      assert initial ==> c[1..] == if parts == [] then [[]] else parts;
    }
    if CanonicalComponents(initial, c) {
      var parts := if initial then if c[1..] == [[]] then [] else c[1..] else if c == [HERE] then [] else c;
      AssembleFacts(initial, parts);
      assert initial ==> c == [[]] + c[1..];
      ComponentsFacts(path);
      ComponentsFacts(Assemble(initial, parts));
    }
  }

  lemma CanonicalFixed(path: Bytes)
    requires CanonicalPath(path)
    ensures Normpath(path) == path
  {
    var q :| Canonical(IsAbs(path), q) && path == Assemble(IsAbs(path), q);
    var p := NormpathParts(path);
    hide *;
    forall dir: Dir
      ensures From(IsAbs(path), dir, p) == From(IsAbs(path), dir, q)
    {
      AssembleResolves(IsAbs(path), q, dir);
    }
    CanonicalUnique(IsAbs(path), p, q);
  }

  // ---- joining -------------------------------------------------------------------------

  /** A joined path leads where the second path leads from the end of the first. */
  lemma PathJoinResolves(a: Bytes, b: Bytes, dir: Dir)
    ensures Resolve(dir, PathJoin(a, b)) == Resolve(Resolve(dir, a), b)
    ensures IsAbs(PathJoin(a, b)) <==> IsAbs(a) || IsAbs(b)
  {
    hide Components;
    hide Walk;
    if !IsAbs(b) {
      var start := if IsAbs(a) then [] else dir;
      ComponentsEmpty();
      WalkSkips(dir, []);
      if a == [] {
        EmptyFront(b);
      } else if a[|a| - 1] == '/' {
        var front := a[..|a| - 1];
        assert a == front + SLASH + [] && a + b == front + SLASH + b;
        ComponentsAppend(front, []);
        ComponentsAppend(front, b);
        WalkAppend(start, Components(front), Components(b));
        WalkAppend(start, Components(front), [[]]);
        WalkSkips(Walk(start, Components(front)), []);
      } else {
        ComponentsAppend(a, b);
        WalkAppend(start, Components(a), Components(b));
      }
    }
  }

  /** The components without an empty one at the end: what stands in front of a last slash. */
  function Leading(path: Bytes): seq<Bytes> {
    var parts := Components(path);
    if parts[|parts| - 1] == [] then parts[..|parts| - 1] else parts
  }

  /** A path ends in an empty component when it is empty or ends with a slash. */
  lemma LastComponent(path: Bytes)
    ensures var parts := Components(path);
            parts[|parts| - 1] == [] <==> path == [] || path[|path| - 1] == '/'
    ensures path == [] ==> Leading(path) == []
    ensures path != [] && path[|path| - 1] == '/' ==> Leading(path) == Components(path[..|path| - 1])
  {
    hide Components;
    ComponentsFacts(path);
    var parts := Components(path);
    if path == [] {
      ComponentsEmpty();
    } else if path[|path| - 1] == '/' {
      var front := path[..|path| - 1];
      assert path == front + SLASH + [];
      ComponentsAppend(front, []);
      ComponentsEmpty();
      assert parts == Components(front) + [[]];
    } else if parts[|parts| - 1] == [] {
      EndsEmpty(parts, path);
    }
  }

  lemma EndsEmpty(parts: seq<Bytes>, path: Bytes)
    requires parts != [] && parts[|parts| - 1] == [] && Join(parts, SLASH) == path
    ensures path == [] || path[|path| - 1] == '/'
  {
    if |parts| > 1 {
      var front := parts[..|parts| - 1];
      assert parts == front + [[]];
      JoinAppend(front, [[]]);
    }
  }

  /**
   * Main result: joining adds no component that the two paths do not have. An absolute second path
   * stands for itself; otherwise its components follow those of the first.
   */
  lemma PathJoinComponents(a: Bytes, b: Bytes)
    ensures IsAbs(b) ==> PathJoin(a, b) == b
    ensures !IsAbs(b) ==> Components(PathJoin(a, b)) == Leading(a) + Components(b)
  {
    hide Components;
    hide Leading;
    LastComponent(a);
    if !IsAbs(b) {
      if a == [] {
        EmptyFront(b);
        assert [] + Components(b) == Components(b);
      } else if a[|a| - 1] == '/' {
        var front := a[..|a| - 1];
        assert a + b == front + SLASH + b;
        ComponentsAppend(front, b);
      } else {
        ComponentsAppend(a, b);
        LeadingWhole(a);
      }
    }
  }

  lemma LeadingWhole(a: Bytes)
    requires a != [] && a[|a| - 1] != '/'
    ensures Leading(a) == Components(a)
  {
    hide Components;
    LastComponent(a);
  }

  /** Normalising before joining changes nothing. */
  lemma NormpathOfJoin(a: Bytes, b: Bytes)
    ensures Normpath(PathJoin(a, b)) == Normpath(PathJoin(Normpath(a), Normpath(b)))
  {
    var p := NormpathParts(a);
    var q := NormpathParts(b);
    hide *;
    forall dir: Dir
      ensures Resolve(dir, PathJoin(a, b)) == Resolve(dir, PathJoin(Normpath(a), Normpath(b)))
    {
      PathJoinResolves(a, b, dir);
      PathJoinResolves(Normpath(a), Normpath(b), dir);
      NormpathResolves(a, dir);
      NormpathResolves(b, Resolve(dir, a));
    }
    PathJoinResolves(a, b, []);
    PathJoinResolves(Normpath(a), Normpath(b), []);
    MeaningIs(PathJoin(a, b), PathJoin(Normpath(a), Normpath(b)));
    NormpathComplete(PathJoin(a, b), PathJoin(Normpath(a), Normpath(b)));
  }

  lemma MeaningIs(a: Bytes, b: Bytes)
    requires IsAbs(a) == IsAbs(b) && forall dir: Dir :: Resolve(dir, a) == Resolve(dir, b)
    ensures SameMeaning(a, b)
  {
  }
}
