/** The string object of src/str.c: a buffer that its operations change in place. */
module StrObject {
  import opened Bytes
  import opened Buffer
  import opened ListSpec
  import Cstr

  // ---- what the operations mean --------------------------------------------------------

  function SkipLeft(s: Bytes): (l: nat)
    ensures l <= |s| && AllSpaces(s[..l]) && (l < |s| ==> !IsSpace(s[l]))
  {
    if s != [] && IsSpace(s[0]) then
      assert s[..1 + SkipLeft(s[1..])] == [s[0]] + s[1..][..SkipLeft(s[1..])];
      1 + SkipLeft(s[1..])
    else 0
  }

  function SkipRight(s: Bytes): (r: nat)
    ensures r <= |s| && AllSpaces(s[r..]) && (r > 0 ==> !IsSpace(s[r - 1]))
  {
    if s != [] && IsSpace(s[|s| - 1]) then
      var t := s[..|s| - 1];
      assert s[SkipRight(t)..] == t[SkipRight(t)..] + [s[|s| - 1]];
      SkipRight(t)
    else |s|
  }

  /** `str_strip`: the text without the spaces around it. */
  function Strip(s: Bytes): Bytes {
    var t := s[SkipLeft(s)..];
    t[..SkipRight(t)]
  }

  /** Stripping takes only spaces, from both ends, and as many as there are. */
  lemma StripFacts(s: Bytes)
    ensures var l, t := SkipLeft(s), Strip(s);
            && l + |t| <= |s| && s[l..l + |t|] == t
            && AllSpaces(s[..l]) && AllSpaces(s[l + |t|..])
            && (t != [] ==> !IsSpace(t[0]) && !IsSpace(t[|t| - 1]))
  {
    hide SkipRight;
    hide SkipLeft;
    hide AllSpaces;
    hide IsSpace;
    var l := SkipLeft(s);
    var t := s[l..];
    var r := SkipRight(t);
    BehindLeft(s, l, r);
    if r > 0 {
      assert t[0] == s[l];
    }
  }

  lemma BehindLeft(s: Bytes, l: nat, r: nat)
    requires l + r <= |s|
    ensures s[l..][r..] == s[l + r..] && s[l..][..r] == s[l..l + r]
  {
  }

  lemma NoneStripped(s: Bytes)
    ensures s == [] ==> Strip(s) == s
  {
  }

  /** What both scans find is the stripped text. */
  lemma StripsTo(s: CString, l: nat, len: nat)
    requires l == SkipLeft(s) && len == SkipRight(s[l..])
    ensures l + len <= |s| && s[l..l + len] == Strip(s) && |Strip(s)| == len && NulFree(Strip(s))
  {
    hide SkipLeft;
    hide SkipRight;
    assert s[l..l + len] == s[l..][..len];
  }

  /** White space in the "C" locale (section 7.4.1.10 of C17). */
  lemma SpacesAre(c: byte)
    ensures IsSpace(c) <==> c as int in {0x20, 0x0C, 0x0A, 0x0D, 0x09, 0x0B}
  {
  }

  /** Text is stripped already exactly when it has no space at its ends. */
  lemma StrippedIff(s: Bytes)
    ensures Strip(s) == s <==> (s != [] ==> !IsSpace(s[0]) && !IsSpace(s[|s| - 1]))
  {
    StripFacts(s);
    if s != [] && !IsSpace(s[0]) && !IsSpace(s[|s| - 1]) {
      assert SkipLeft(s) == 0 && s[0..] == s;
      assert SkipRight(s) == |s|;
    }
  }

  /** Text of which decoding leaves nothing: quotes and unknown escapes. */
  predicate OnlyDropped(s: Bytes) {
    || s == []
    || (s[0] == '"' && OnlyDropped(s[1..]))
    || (|s| > 1 && s[0] == '\\' && Cstr.EscapedChar(s[1]).None? && s[1] != 'u' && s[1] != 'x' && OnlyDropped(s[2..]))
  }

  lemma {:induction false} DroppedIff(s: CString)
    ensures Cstr.Unrepr(s) == Some([]) <==> OnlyDropped(s)
    decreases |s|
  {
    if s != [] && Cstr.DecodeUnit(s).Some? {
      DroppedIff(s[Cstr.DecodeUnit(s).value.1..]);
    }
  }

  /** `_fix_index`: counted from the end when negative, and the length for an index behind the end. */
  function TextIndex(len: nat, index: int): (i: nat)
    ensures i <= len
  {
    if index < 0 then if index + len < 0 then 0 else index + len
    else if index >= len then len
    else index
  }

  /** A negative index counts from the end, and stops at the first byte. */
  lemma TextFromTheEnd(text: Bytes, k: nat)
    requires text != []
    ensures k < |text| ==> text[TextIndex(|text|, -1 - k)] == Reversed(text)[k] && TextIndex(|text|, k) == k
    ensures k < |text| ==> Without(text, TextIndex(|text|, -1 - k)) == text[..|text| - 1 - k] + text[|text| - k..]
    ensures k >= |text| ==> TextIndex(|text|, -1 - k) == 0 && TextIndex(|text|, k) == |text|
  {
    if k < |text| {
      ReversedAt(text, k);
    }
  }

  // ---- the object ----------------------------------------------------------------------

  class Str {
    var cstr: array<byte>
    var size: nat

    ghost predicate Valid()
      reads this, cstr
    {
      size >= 1 && cstr.Length == size && NulFree(cstr[..size - 1]) && cstr[size - 1] == NUL
    }

    ghost function Text(): CString
      reads this, cstr
      requires Valid()
    {
      cstr[..size - 1]
    }

    /** `str_init_cstr` */
    constructor (text: CString)
      ensures Valid() && fresh(cstr) && Text() == text
    {
      size := |text| + 1;
      cstr := new byte[|text| + 1](i requires 0 <= i < |text| + 1 => if i < |text| then text[i] else NUL);
      new;
      assert cstr[..|text|] == text;
    }

    /** `realloc` to the current size. */
    method Realloc()
      requires size <= cstr.Length
      modifies this`cstr
      ensures fresh(cstr) && cstr.Length == size && cstr[..] == old(cstr[..size])
    {
      var was := cstr;
      cstr := new byte[size](i requires 0 <= i < size <= was.Length reads this, was => was[i]);
    }

    /**
     * `str_unrepr`. The decoded text fits in place of the text; but when nothing is left of
     * a text that was not empty, no terminator is written either.
     */
    method Unrepr()
      requires Valid() && Cstr.Complete(Text())
      modifies this, cstr
      ensures fresh(cstr) && cstr.Length == size >= 1
      ensures Cstr.Unrepr(old(Text())) == Some(cstr[..size - 1])
      ensures cstr[size - 1] == NUL <==> (old(Text()) == [] || !OnlyDropped(old(Text())))
    {
      ghost var was := cstr[..];
      var tmp := cstr[..size - 1];
      DroppedIff(tmp);
      var len := Cstr.CstrUnrepr(cstr, 0, tmp, size);
      ghost var text := Cstr.Unrepr(tmp).value;
      PutAll(was, 0, size, text);
      ghost var now := cstr[..];
      if text != [] {
        assert now[0..|text|] == text && now[|text|] == NUL;
      } else {
        assert now == was;
        if tmp != [] {
          assert was[0] == tmp[0] != NUL;
        }
      }
      size := len + 1;
      assert cstr[..size] == now[..len] + [now[len]];
      Realloc();
    }

    /** `str_delete_at`: `cstr_ncopy` onto itself, one place to the left; nothing happens to an empty text. */
    method DeleteAt(index: int)
      requires Valid() && (Text() == [] || TextIndex(|Text()|, index) < |Text()|)
      modifies this, cstr
      ensures Valid() && (cstr == old(cstr) || fresh(cstr))
      ensures Text() == if old(Text()) == [] then [] else Without(old(Text()), TextIndex(|old(Text())|, index))
    {
      var idx := TextIndex(size - 1, index);
      if size - 1 == 0 {
        return;
      }
      ghost var rest := Without(Text(), idx);
      CopyOnto(cstr, idx, size - idx);
      assert cstr[..size - 1][..size - 2] == rest;
      size := size - 1;
      Realloc();
      assert cstr[..size - 1] == rest;
    }

    /** `str_strip` */
    method StripInPlace()
      requires Valid()
      modifies this, cstr
      ensures Valid() && Text() == Strip(old(Text()))
    {
      hide SkipLeft;
      hide SkipRight;
      hide Strip;
      ghost var text := Text();
      NoneStripped(text);
      if size < 2 {
        return;
      }
      var buf := cstr;
      var l := LeftEnd(buf, size - 1, text);
      var len := RightEnd(buf, l, size - 1, text);
      StripsTo(text, l, len);
      size := len + 1;
      ShiftDown(buf, l, len, text);
      Realloc();
    }

    /** `filter` over a string: the iterator is an index, which steps back after a deletion. */
    method Filter(keep: byte -> bool) returns (visited: Bytes)
      requires Valid()
      modifies this, cstr
      ensures Valid() && visited == old(Text()) && Text() == Kept(old(Text()), keep)
    {
      hide Filtering;
      ghost var all := Text();
      ghost var kept: Bytes := [];
      visited := [];
      var idx := -1;
      FilterBegins(all, keep);
      while idx + 1 < size - 1
        invariant Valid() && (cstr == old(cstr) || fresh(cstr)) && idx + 1 == |kept|
        invariant Filtering(all, visited, kept, Text(), keep)
        decreases |all| - |visited|
      {
        idx := idx + 1;
        var c := cstr[idx];
        FilterAdvances(all, visited, kept, Text(), keep);
        if !keep(c) {
          DeleteAt(idx);
          idx := idx - 1;
        } else {
          kept := kept + [c];
        }
        visited := visited + [c];
      }
      FilterEnds(all, visited, kept, Text(), keep);
    }
  }

  /** `cstr_ncopy(buf + idx, buf + idx + 1, n)`: source and destination overlap. */
  method CopyOnto(buf: array<byte>, idx: nat, n: nat)
    requires n >= 2 && idx + n == buf.Length
    requires NulFree(buf[..buf.Length - 1]) && buf[buf.Length - 1] == NUL
    modifies buf
    ensures buf[..buf.Length - 1] == Without(old(buf[..buf.Length - 1]), idx) + [NUL]
  {
    hide NulFree;
    ghost var was := buf[..];
    NoNul(was);
    var i := 0;
    while i < n - 1 && buf[idx + 1 + i] != NUL
      invariant 0 <= i <= n - 2
      invariant buf[..] == was[..idx] + was[idx + 1..idx + 1 + i] + was[idx + i..]
      decreases n - i
    {
      ShiftedOne(was, buf[..], idx, i);
      buf[idx + i] := buf[idx + 1 + i];
      i := i + 1;
    }
    ShiftedOne(was, buf[..], idx, i);
    ShiftedAll(was, buf[..], idx, i);
    buf[idx + i] := NUL;
  }

  lemma NoNul(was: Bytes)
    requires was != [] && NulFree(was[..|was| - 1])
    ensures forall k :: 0 <= k < |was| - 1 ==> was[k] != NUL
  {
    assert forall k :: 0 <= k < |was| - 1 ==> was[..|was| - 1][k] == was[k];
  }

  lemma ShiftedAll(was: Bytes, before: Bytes, idx: nat, i: nat)
    requires idx + 2 + i == |was|
    requires before == was[..idx] + was[idx + 1..idx + 1 + i] + was[idx + i..]
    ensures before[idx + i := NUL][..|was| - 1] == Without(was[..|was| - 1], idx) + [NUL]
  {
    var text := was[..|was| - 1];
    assert text[..idx] == was[..idx] && text[idx + 1..] == was[idx + 1..idx + 1 + i];
  }

  lemma ShiftedOne(was: Bytes, before: Bytes, idx: nat, i: nat)
    requires idx + 1 + i < |was|
    requires before == was[..idx] + was[idx + 1..idx + 1 + i] + was[idx + i..]
    ensures before[idx + 1 + i] == was[idx + 1 + i]
    ensures before[idx + i := was[idx + 1 + i]] == was[..idx] + was[idx + 1..idx + 2 + i] + was[idx + 1 + i..]
  {
    assert was[idx + 1..idx + 2 + i] == was[idx + 1..idx + 1 + i] + [was[idx + 1 + i]];
  }

  /** The first loop of `str_strip`. */
  method LeftEnd(buf: array<byte>, n: nat, ghost text: Bytes) returns (l: nat)
    requires n <= buf.Length && text == buf[..n]
    ensures l == SkipLeft(text)
  {
    l := 0;
    assert text[0..] == text;
    while l < n && IsSpace(buf[l])
      invariant l <= n && SkipLeft(text) == l + SkipLeft(text[l..])
    {
      assert text[l..][0] == buf[l] && text[l..][1..] == text[l + 1..];
      l := l + 1;
    }
    assert l < n ==> text[l..][0] == buf[l];
  }

  /** The second loop: `r` runs down to the last character that is no space; `len` is `r - l + 1`. */
  method RightEnd(buf: array<byte>, l: nat, n: nat, ghost text: Bytes) returns (len: nat)
    requires 0 < n <= buf.Length && text == buf[..n] && l == SkipLeft(text)
    ensures l + len <= n && len == SkipRight(text[l..])
  {
    hide SkipLeft;
    hide SkipRight;
    var r := n - 1;
    assert text[l..n] == text[l..];
    while r > l && IsSpace(buf[r])
      invariant l - 1 <= r <= n - 1 && (l < n ==> l <= r)
      invariant SkipRight(text[l..]) == SkipRight(text[l..r + 1])
    {
      RightStep(text, l, r);
      r := r - 1;
    }
    RightStop(text, l, r + 1);
    return r - l + 1;
  }

  lemma RightStep(s: Bytes, l: nat, r: nat)
    requires l <= r < |s| && IsSpace(s[r])
    ensures SkipRight(s[l..r + 1]) == SkipRight(s[l..r])
  {
    assert s[l..r + 1][..r - l] == s[l..r];
  }

  lemma RightStop(s: Bytes, l: nat, m: nat)
    requires l <= m <= |s| && (m > l ==> !IsSpace(s[m - 1]))
    ensures SkipRight(s[l..m]) == m - l
  {
  }

  /** The last loop of `str_strip`, and the terminator behind it. */
  method ShiftDown(buf: array<byte>, l: nat, n: nat, ghost text: Bytes)
    requires l + n <= |text| < buf.Length && text == buf[..|text|]
    modifies buf
    ensures buf[..n + 1] == text[l..l + n] + [NUL]
  {
    for i := 0 to n
      invariant buf[..i] == text[l..l + i] && buf[i..|text|] == text[i..]
    {
      assert buf[l + i] == text[l + i];
      buf[i] := buf[l + i];
      assert text[l..l + i + 1] == text[l..l + i] + [text[l + i]];
    }
    buf[n] := NUL;
  }
}
