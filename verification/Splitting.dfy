/** Splitting and joining of strings: `cstr_split`, `str_join` and `str_replace`. */
module Splitting {
  import opened Bytes

  predicate Occurs(s: Bytes, sep: Bytes, i: nat) {
    i + |sep| <= |s| && s[i..i + |sep|] == sep
  }

  ghost predicate Contains(s: Bytes, sep: Bytes) {
    exists i :: 0 <= i <= |s| && Occurs(s, sep, i)
  }

  /** `strstr`: the first occurrence. */
  function StrStr(s: Bytes, sep: Bytes): (r: Option<nat>)
    ensures r.Some? ==> Occurs(s, sep, r.value)
    ensures forall k :: 0 <= k <= |s| && Occurs(s, sep, k) ==> r.Some? && r.value <= k
  {
    if Occurs(s, sep, 0) then Some(0)
    else if s == [] then None
    else
      OccursBehind(s, sep);
      var r := StrStr(s[1..], sep);
      if r.Some? then Some(r.value + 1) else None
  }

  lemma OccursBehind(s: Bytes, sep: Bytes)
    requires s != []
    ensures forall k :: 1 <= k <= |s| ==> Occurs(s, sep, k) == Occurs(s[1..], sep, k - 1)
  {
    forall k | 1 <= k <= |s|
      ensures Occurs(s, sep, k) == Occurs(s[1..], sep, k - 1)
    {
      SliceBehind(s, k - 1, |sep|);
    }
  }

  lemma SliceBehind(s: Bytes, k: nat, n: nat)
    requires k < |s|
    ensures k + 1 + n <= |s| ==> s[k + 1..k + 1 + n] == s[1..][k..k + n]
  {
    if k + 1 + n <= |s| {
      var a, b := s[k + 1..k + 1 + n], s[1..][k..k + n];
      assert forall i :: 0 <= i < n ==> a[i] == s[k + 1 + i];
      assert forall i :: 0 <= i < n ==> b[i] == s[1..][k + i];
    }
  }

  /**
   * `cstr_split`: at most `limit` times, without bound when the limit is negative. An empty
   * separator occurs everywhere, so without a bound the loop would never end.
   */
  function Split(s: Bytes, sep: Bytes, limit: int): (parts: seq<Bytes>)
    requires sep != [] || limit >= 0
    ensures parts != []
    decreases |s|, limit
  {
    var at := if limit == 0 then None else StrStr(s, sep);
    if at.None? then [s]
    else
      [s[..at.value]] + Split(s[at.value + |sep|..], sep, limit - 1)
  }

  method CstrSplit(s: CString, sep: CString, maxsplit: int) returns (l: seq<Bytes>)
    requires sep != [] || maxsplit >= 0
    ensures l == Split(s, sep, maxsplit)
  {
    hide *;
    l := [];
    var start: Bytes := s;
    var split := 0;
    var found := true;
    EmptyFront(Split(s, sep, maxsplit));
    while found
      invariant found ==>
                  && (maxsplit < 0 || split <= maxsplit)
                  && l + Split(start, sep, maxsplit - split) == Split(s, sep, maxsplit)
      invariant !found ==> l == Split(s, sep, maxsplit)
      decreases found, |start|, if maxsplit < 0 then 0 else maxsplit - split
    {
      var end := if maxsplit < 0 || split < maxsplit then StrStr(start, sep) else None;
      SplitStep(start, sep, maxsplit - split);
      if end.Some? {
        var slice: Bytes, behind: Bytes := start[..end.value], start[end.value + |sep|..];
        Assoc(l, [slice], Split(behind, sep, maxsplit - split - 1));
        l := l + [slice];
        start := behind;
      } else {
        l := l + [start];
        found := false;
      }
      split := split + 1;
    }
  }

  lemma SplitStep(s: Bytes, sep: Bytes, limit: int)
    requires sep != [] || limit >= 0
    ensures var at := if limit == 0 then None else StrStr(s, sep);
            if at.None? then Split(s, sep, limit) == [s]
            else
              && at.value + |sep| <= |s| && s[at.value..at.value + |sep|] == sep
              && Split(s, sep, limit) == [s[..at.value]] + Split(s[at.value + |sep|..], sep, limit - 1)
  {
  }

  // ---- joining -------------------------------------------------------------------------

  function Join(parts: seq<Bytes>, sep: Bytes): Bytes {
    if parts == [] then []
    else if |parts| == 1 then parts[0]
    else parts[0] + sep + Join(parts[1..], sep)
  }

  /** `str_join` */
  method StrJoin(parts: seq<Bytes>, sep: Bytes) returns (str: Bytes)
    ensures str == Join(parts, sep)
  {
    str := [];
    for i := 0 to |parts|
      invariant str + Join(parts[i..], sep) == Join(parts, sep)
    {
      var rest := parts[i..];
      JoinParts(rest, sep);
      hide Join;
      if i == |parts| - 1 {
        str := str + parts[i];
      } else {
        Assoc(str, parts[i] + sep, Join(parts[i + 1..], sep));
        Assoc(str, parts[i], sep);
        str := str + parts[i] + sep;
      }
    }
  }

  lemma JoinParts(parts: seq<Bytes>, sep: Bytes)
    requires parts != []
    ensures Join(parts, sep) == if |parts| == 1 then parts[0] else parts[0] + sep + Join(parts[1..], sep)
    ensures Join([], sep) == []
  {
  }

  lemma JoinCons(part: Bytes, rest: seq<Bytes>, sep: Bytes)
    requires rest != []
    ensures Join([part] + rest, sep) == part + sep + Join(rest, sep)
  {
    assert ([part] + rest)[1..] == rest;
  }

  // ---- laws ----------------------------------------------------------------------------

  /** Joining the parts gives the string back, whatever the limit. */
  lemma {:induction false} JoinSplit(s: Bytes, sep: Bytes, limit: int)
    requires sep != [] || limit >= 0
    ensures Join(Split(s, sep, limit), sep) == s
    decreases |s|, limit
  {
    hide *;
    var at := if limit == 0 then None else StrStr(s, sep);
    SplitStep(s, sep, limit);
    if at.None? {
      JoinOne(s, sep);
    } else {
      var part, behind := s[..at.value], s[at.value + |sep|..];
      var rest := Split(behind, sep, limit - 1);
      JoinSplit(behind, sep, limit - 1);
      JoinCons(part, rest, sep);
      Pieces(s, at.value, |sep|);
    }
  }

  lemma Pieces(s: Bytes, i: nat, n: nat)
    requires i + n <= |s|
    ensures s[..i] + s[i..i + n] + s[i + n..] == s
  {
  }

  /** A part ends at the first occurrence of the separator. */
  ghost predicate Leftmost(part: Bytes, sep: Bytes) {
    StrStr(part + sep, sep) == Some(|part|)
  }

  /** At most `limit` cuts, each at the first possible place, and only the limit stops the cutting. */
  ghost predicate Cut(parts: seq<Bytes>, sep: Bytes, limit: int) {
    && parts != [] && (limit >= 0 ==> |parts| <= limit + 1)
    && (forall i :: 0 <= i < |parts| - 1 ==> Leftmost(parts[i], sep))
    && (limit < 0 || |parts| <= limit ==> !Contains(parts[|parts| - 1], sep))
  }

  /** No part in front of a cut contains the separator. */
  lemma LeftmostClean(part: Bytes, sep: Bytes)
    requires sep != [] && Leftmost(part, sep)
    ensures !Contains(part, sep)
  {
    forall k | 0 <= k <= |part| && Occurs(part, sep, k)
      ensures false
    {
      assert (part + sep)[k..k + |sep|] == part[k..k + |sep|];
      assert Occurs(part + sep, sep, k);
    }
  }

  lemma {:induction false} SplitCut(s: Bytes, sep: Bytes, limit: int)
    requires sep != [] || limit >= 0
    ensures Cut(Split(s, sep, limit), sep, limit)
    decreases |s|, limit
  {
    hide *;
    var at := if limit == 0 then None else StrStr(s, sep);
    SplitStep(s, sep, limit);
    if at.None? {
      CutNone(s, sep, limit);
    } else {
      var part, behind := s[..at.value], s[at.value + |sep|..];
      var rest := Split(behind, sep, limit - 1);
      SplitCut(behind, sep, limit - 1);
      FirstCut(s, sep, at.value);
      CutCons(part, rest, sep, limit);
    }
  }

  lemma CutNone(s: Bytes, sep: Bytes, limit: int)
    requires limit == 0 || StrStr(s, sep).None?
    ensures Cut([s], sep, limit)
  {
  }

  lemma CutCons(part: Bytes, rest: seq<Bytes>, sep: Bytes, limit: int)
    requires limit != 0 && rest != []
    ensures Cut([part] + rest, sep, limit) <==> Leftmost(part, sep) && Cut(rest, sep, limit - 1)
  {
    hide Leftmost;
    hide Contains;
    var parts := [part] + rest;
    assert parts[0] == part && parts[|parts| - 1] == rest[|rest| - 1];
    if Cut(parts, sep, limit) {
      forall i | 0 <= i < |rest| - 1
        ensures Leftmost(rest[i], sep)
      {
        assert Leftmost(parts[i + 1], sep);
      }
    }
    if Leftmost(part, sep) && Cut(rest, sep, limit - 1) {
      forall i | 0 <= i < |parts| - 1
        ensures Leftmost(parts[i], sep)
      {
        if i > 0 {
          assert parts[i] == rest[i - 1];
        }
      }
    }
  }

  /** Splitting behind a part that is cut at the first place. */
  lemma SplitCons(part: Bytes, behind: Bytes, s: Bytes, sep: Bytes, limit: int)
    requires (sep != [] || limit >= 0) && Leftmost(part, sep) && s == part + sep + behind && limit != 0
    ensures (sep != [] || limit > 0) && Split(s, sep, limit) == [part] + Split(behind, sep, limit - 1)
  {
    hide *;
    FirstPlace(part, sep, behind);
    SplitStep(s, sep, limit);
  }

  lemma {:induction false} CutIsSplit(parts: seq<Bytes>, s: Bytes, sep: Bytes, limit: int)
    requires (sep != [] || limit >= 0) && Cut(parts, sep, limit) && Join(parts, sep) == s
    ensures parts == Split(s, sep, limit)
    decreases |parts|
  {
    hide *;
    CutBounds(parts, sep, limit);
    if |parts| == 1 {
      OnePart(parts, s, sep, limit);
    } else {
      var part, rest := parts[0], parts[1..];
      FirstRest(parts);
      CutCons(part, rest, sep, limit);
      JoinCons(part, rest, sep);
      SplitCons(part, Join(rest, sep), s, sep, limit);
      CutIsSplit(rest, Join(rest, sep), sep, limit - 1);
    }
  }

  lemma CutBounds(parts: seq<Bytes>, sep: Bytes, limit: int)
    requires Cut(parts, sep, limit)
    ensures parts != [] && (|parts| > 1 ==> limit != 0)
  {
  }

  lemma OnePart(parts: seq<Bytes>, s: Bytes, sep: Bytes, limit: int)
    requires (sep != [] || limit >= 0) && Cut(parts, sep, limit) && Join(parts, sep) == s && |parts| == 1
    ensures parts == Split(s, sep, limit)
  {
    SplitStep(s, sep, limit);
    NoCut(s, sep);
  }

  lemma FirstRest<T>(s: seq<T>)
    requires s != []
    ensures s == [s[0]] + s[1..]
  {
  }

  /** Main result: the parts are the only ones that join to the string and are cut like this. */
  lemma SplitIff(parts: seq<Bytes>, s: Bytes, sep: Bytes, limit: int)
    requires sep != [] || limit >= 0
    ensures parts == Split(s, sep, limit) <==> Cut(parts, sep, limit) && Join(parts, sep) == s
  {
    SplitCut(s, sep, limit);
    JoinSplit(s, sep, limit);
    hide *;
    if Cut(parts, sep, limit) && Join(parts, sep) == s {
      CutIsSplit(parts, s, sep, limit);
    }
  }

  lemma NoCut(s: Bytes, sep: Bytes)
    ensures !Contains(s, sep) ==> StrStr(s, sep) == None
  {
  }

  lemma FirstPlace(part: Bytes, sep: Bytes, behind: Bytes)
    requires Leftmost(part, sep)
    ensures var s := part + sep + behind;
            StrStr(s, sep) == Some(|part|) && s[..|part|] == part && s[|part| + |sep|..] == behind
  {
    hide StrStr;
    var s := part + sep + behind;
    assert s[|part|..|part| + |sep|] == sep;
    assert Occurs(s, sep, |part|);
    hide Occurs;
    forall k | 0 <= k < |part|
      ensures !Occurs(s, sep, k)
    {
      InFront(part + sep, sep, behind, k);
      assert k <= |part + sep| && !Occurs(part + sep, sep, k);
    }
  }

  lemma InFront(s: Bytes, sep: Bytes, behind: Bytes, k: nat)
    ensures k + |sep| <= |s| ==> Occurs(s + behind, sep, k) == Occurs(s, sep, k)
  {
    if k + |sep| <= |s| {
      assert (s + behind)[k..k + |sep|] == s[k..k + |sep|];
    }
  }

  lemma FirstCut(s: Bytes, sep: Bytes, i: nat)
    requires StrStr(s, sep) == Some(i)
    ensures Leftmost(s[..i], sep)
  {
    var part := s[..i];
    assert part + sep == s[..i + |sep|];
    forall k | 0 <= k <= |part|
      ensures Occurs(part + sep, sep, k) == Occurs(s, sep, k)
    {
      assert (part + sep)[k..k + |sep|] == s[k..k + |sep|];
    }
    hide StrStr;
  }

  // ---- replacing -----------------------------------------------------------------------

  /** `str_replace` */
  function Replace(s: Bytes, was: Bytes, now: Bytes, count: int): Bytes
    requires was != [] || count >= 0
  {
    var parts := Split(s, was, count);
    if |parts| > 1 then Join(parts, now) else s
  }

  /** Occurrences replaced from left to right, each behind the one before; a count below 0 is no limit. */
  function Substituted(s: Bytes, was: Bytes, now: Bytes, count: int): Bytes
    requires was != [] || count >= 0
    decreases |s|, count
  {
    if count == 0 then s
    else if Occurs(s, was, 0) then now + Substituted(s[|was|..], was, now, count - 1)
    else if s == [] then s
    else [s[0]] + Substituted(s[1..], was, now, count)
  }

  /** Nothing changes in front of the first occurrence. */
  lemma {:induction false} SubstitutedFrom(s: Bytes, was: Bytes, now: Bytes, count: int)
    requires (was != [] || count >= 0) && count != 0
    ensures var at := StrStr(s, was);
            Substituted(s, was, now, count) ==
            if at.None? then s
            else s[..at.value] + now + Substituted(s[at.value + |was|..], was, now, count - 1)
    decreases |s|, count
  {
    hide *;
    if s == [] || Occurs(s, was, 0) {
      SubstitutedHere(s, was, now, count);
    } else {
      FirstRest(s);
      SubstitutedBehind(s, was, now, count);
      SubstitutedFrom(s[1..], was, now, count);
      var at := StrStr(s[1..], was);
      if at.Some? {
        SlideBack(s, at.value, |was|, now, Substituted(s[at.value + 1 + |was|..], was, now, count - 1));
      }
    }
  }

  lemma SubstitutedHere(s: Bytes, was: Bytes, now: Bytes, count: int)
    requires (was != [] || count >= 0) && count != 0 && (s == [] || Occurs(s, was, 0))
    ensures if Occurs(s, was, 0) then
              && StrStr(s, was) == Some(0) && |was| <= |s|
              && Substituted(s, was, now, count) == s[..0] + now + Substituted(s[|was|..], was, now, count - 1)
            else StrStr(s, was) == None && Substituted(s, was, now, count) == s
  {
    EmptyFront(now);
  }

  lemma SubstitutedBehind(s: Bytes, was: Bytes, now: Bytes, count: int)
    requires (was != [] || count >= 0) && count != 0 && s != [] && !Occurs(s, was, 0)
    ensures Substituted(s, was, now, count) == [s[0]] + Substituted(s[1..], was, now, count)
    ensures var at := StrStr(s[1..], was); at.Some? ==> at.value + |was| < |s|
    ensures var at := StrStr(s[1..], was); StrStr(s, was) == if at.None? then None else Some(at.value + 1)
  {
  }

  lemma SlideBack(s: Bytes, i: nat, n: nat, now: Bytes, behind: Bytes)
    requires i + n < |s|
    ensures [s[0]] + (s[1..][..i] + now + behind) == s[..i + 1] + now + behind
    ensures s[1..][i + n..] == s[i + 1 + n..]
  {
  }

  lemma {:induction false} JoinedSubstituted(s: Bytes, was: Bytes, now: Bytes, count: int)
    requires was != [] || count >= 0
    ensures Join(Split(s, was, count), now) == Substituted(s, was, now, count)
    decreases |s|, count
  {
    hide *;
    var at := if count == 0 then None else StrStr(s, was);
    SplitStep(s, was, count);
    if count == 0 {
      NothingSubstituted(s, was, now);
      JoinOne(s, now);
    } else {
      SubstitutedFrom(s, was, now, count);
      if at.Some? {
        var part, behind := s[..at.value], s[at.value + |was|..];
        var rest := Split(behind, was, count - 1);
        JoinedSubstituted(behind, was, now, count - 1);
        JoinCons(part, rest, now);
      } else {
        JoinOne(s, now);
      }
    }
  }

  lemma JoinOne(s: Bytes, sep: Bytes)
    ensures Join([s], sep) == s
  {
  }

  lemma NothingSubstituted(s: Bytes, was: Bytes, now: Bytes)
    ensures Substituted(s, was, now, 0) == s
  {
  }

  lemma ReplaceSubstitutes(s: Bytes, was: Bytes, now: Bytes, count: int)
    requires was != [] || count >= 0
    ensures Replace(s, was, now, count) == Substituted(s, was, now, count)
  {
    JoinedSubstituted(s, was, now, count);
    JoinSplit(s, was, count);
  }
}
