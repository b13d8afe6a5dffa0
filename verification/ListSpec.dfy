/** What the list operations of src/list.c mean for the sequence of objects in a list. */
module ListSpec {

  /** The scan of `list_sort_in`: the first object that compares greater than the new one. */
  function SortPos<T>(s: seq<T>, x: T, cmp: (T, T) -> int): (p: nat)
    ensures p <= |s|
    ensures p < |s| ==> cmp(s[p], x) > 0
    ensures forall k :: 0 <= k < p ==> cmp(s[k], x) <= 0
  {
    if s == [] || cmp(s[0], x) > 0 then 0 else 1 + SortPos(s[1..], x, cmp)
  }

  /** `list_sort_in` */
  function SortIn<T>(s: seq<T>, x: T, cmp: (T, T) -> int): seq<T> {
    var p := SortPos(s, x, cmp);
    s[..p] + [x] + s[p..]
  }

  /** Position of an object, `|s|` when it is absent: the scan of `_remove_node`. */
  function Find<T(==)>(s: seq<T>, x: T): (p: nat)
    ensures p <= |s|
    ensures p < |s| ==> s[p] == x
    ensures forall k :: 0 <= k < p ==> s[k] != x
  {
    if s == [] || s[0] == x then 0 else 1 + Find(s[1..], x)
  }

  /** `list_remove`: the first occurrence goes. */
  function Remove<T(==)>(s: seq<T>, x: T): seq<T> {
    var p := Find(s, x);
    if p < |s| then s[..p] + s[p + 1..] else s
  }

  /** `_fix_index`; -1 for an empty list, and the length for an index behind the end. */
  function FixIndex(len: nat, idx: int): (r: int)
    ensures -1 <= r <= len
  {
    if len == 0 then -1
    else if idx < 0 then if idx + len < 0 then 0 else idx + len
    else if idx >= len then len
    else idx
  }

  predicate Distinct<T(==)>(s: seq<T>) {
    forall i, j :: 0 <= i < j < |s| ==> s[i] != s[j]
  }

  /** `list_get_at`: position of the object, if there is one. */
  predicate HasAt(len: nat, idx: int) {
    0 <= FixIndex(len, idx) < len
  }

  /** `list_set_at` where the node exists */
  function SetAt<T>(s: seq<T>, idx: int, x: T): seq<T> {
    if HasAt(|s|, idx) then s[FixIndex(|s|, idx) := x] else s
  }

  /** `list_remove_at` */
  function RemoveAt<T>(s: seq<T>, idx: int): seq<T> {
    if HasAt(|s|, idx) then s[..FixIndex(|s|, idx)] + s[FixIndex(|s|, idx) + 1..] else s
  }

  /** The objects that a filter keeps. */
  function Kept<T>(s: seq<T>, keep: T -> bool): seq<T> {
    if s == [] then []
    else if keep(s[0]) then [s[0]] + Kept(s[1..], keep)
    else Kept(s[1..], keep)
  }

  lemma {:induction false} KeptSplit<T>(a: seq<T>, x: T, keep: T -> bool)
    ensures Kept(a + [x], keep) == Kept(a, keep) + if keep(x) then [x] else []
  {
    if a == [] {
      assert a + [x] == [x] && [x][1..] == [];
    } else {
      KeptSplit(a[1..], x, keep);
      assert (a + [x])[1..] == a[1..] + [x];
    }
  }

  /** What is kept comes from the accepted places, each of them once and in their order. */
  lemma {:induction false} KeptPlaces<T>(s: seq<T>, keep: T -> bool) returns (at: seq<nat>)
    ensures |at| == |Kept(s, keep)|
    ensures forall i, j :: 0 <= i < j < |at| ==> at[i] < at[j]
    ensures forall i :: 0 <= i < |at| ==> at[i] < |s| && Kept(s, keep)[i] == s[at[i]]
    ensures forall k: nat :: k < |s| ==> (k in at <==> keep(s[k]))
  {
    at := [];
    if s != [] {
      var n := |s| - 1;
      var front := KeptPlaces(s[..n], keep);
      assert s == s[..n] + [s[n]];
      KeptSplit(s[..n], s[n], keep);
      hide Kept;
      at := front + if keep(s[n]) then [n] else [];
    }
  }

  /** What is kept satisfies the callback and occurs as often as before. */
  lemma {:induction false} KeptFacts<T>(s: seq<T>, keep: T -> bool, x: T)
    ensures forall k :: 0 <= k < |Kept(s, keep)| ==> keep(Kept(s, keep)[k])
    ensures multiset(Kept(s, keep))[x] == if keep(x) then multiset(s)[x] else 0
    ensures |Kept(s, keep)| <= |s| && (|Kept(s, keep)| == |s| ==> Kept(s, keep) == s)
  {
    if s != [] {
      assert s == [s[0]] + s[1..];
      KeptFacts(s[1..], keep, x);
    }
  }

  // ---- filtering with deletion ---------------------------------------------------------

  ghost function Without<T>(s: seq<T>, i: nat): (r: seq<T>)
    requires i < |s|
    ensures |r| == |s| - 1
  {
    s[..i] + s[i + 1..]
  }

  /** In the middle of a filter: what was kept of the visited objects, then the rest. */
  ghost predicate Filtering<T>(all: seq<T>, visited: seq<T>, kept: seq<T>, now: seq<T>, keep: T -> bool) {
    && |visited| <= |all| && visited == all[..|visited|]
    && kept == Kept(visited, keep) && now == kept + all[|visited|..]
  }

  lemma FilterBegins<T>(all: seq<T>, keep: T -> bool)
    ensures Filtering(all, [], [], all, keep)
  {
  }

  /** One object further: it joins what was kept, or leaves the list. */
  lemma FilterAdvances<T>(all: seq<T>, visited: seq<T>, kept: seq<T>, now: seq<T>, keep: T -> bool)
    requires Filtering(all, visited, kept, now, keep) && |kept| < |now|
    ensures |visited| < |all|
    ensures var x := now[|kept|];
            if keep(x) then Filtering(all, visited + [x], kept + [x], now, keep)
            else Filtering(all, visited + [x], kept, Without(now, |kept|), keep)
  {
    var v := |visited|;
    var x := now[|kept|];
    assert x == all[v] && visited + [x] == all[..v + 1];
    KeptSplit(visited, x, keep);
    assert kept + [] == kept;
    assert kept + all[v..] == kept + [x] + all[v + 1..];
    assert Without(now, |kept|) == kept + all[v + 1..];
  }

  lemma FilterEnds<T>(all: seq<T>, visited: seq<T>, kept: seq<T>, now: seq<T>, keep: T -> bool)
    requires Filtering(all, visited, kept, now, keep) && |kept| >= |now|
    ensures visited == all && now == Kept(all, keep)
  {
    assert |all[|visited|..]| == 0;
    assert all[..|all|] == all && kept + [] == kept;
  }

  function Reversed<T>(s: seq<T>): (r: seq<T>)
    ensures |r| == |s|
  {
    if s == [] then [] else Reversed(s[1..]) + [s[0]]
  }

  lemma {:induction false} ReversedAt<T>(s: seq<T>, k: nat)
    requires k < |s|
    ensures Reversed(s)[k] == s[|s| - 1 - k]
  {
    if k < |s| - 1 {
      ReversedAt(s[1..], k);
    }
  }

  /** A negative index counts from the end as an index counts from the start, and stops at the first object. */
  lemma FromTheEnd<T>(s: seq<T>, k: nat)
    requires s != []
    ensures k < |s| ==> s[FixIndex(|s|, -1 - k)] == Reversed(s)[k] && s[FixIndex(|s|, k)] == s[k]
    ensures k >= |s| ==> s[FixIndex(|s|, -1 - k)] == s[0] && FixIndex(|s|, k) == |s|
  {
    if k < |s| {
      ReversedAt(s, k);
    }
  }
}
