/** Bytes, C strings and the `<ctype.h>` classes of the "C" locale. */
module Bytes {
  /** One C `char`, seen as an unsigned byte. */
  type byte = c: char | c as int < 256 witness 'a'

  type Bytes = seq<byte>

  const NUL: byte := '\0'

  /** The characters of a C string in front of its terminator. */
  type CString = s: Bytes | NulFree(s) witness []

  predicate NulFree(s: Bytes) {
    forall i :: 0 <= i < |s| ==> s[i] != NUL
  }

  datatype Option<+T> = None | Some(value: T)

  /** `s[i]` for a pointer into a C string: the terminator follows the characters. */
  function At(s: Bytes, i: nat): byte {
    if i < |s| then s[i] else NUL
  }

  /** What a C function sees of a buffer that may hold NUL bytes. */
  function CStringOf(s: Bytes): (r: CString)
    ensures |r| <= |s| && r == s[..|r|]
    ensures |r| < |s| ==> s[|r|] == NUL
  {
    if s == [] || s[0] == NUL then [] else [s[0]] + CStringOf(s[1..])
  }

  function ToByte(n: int): (b: byte)
    ensures b as int == n % 256
  {
    (n % 256) as char
  }

  function Min(a: int, b: int): int {
    if a < b then a else b
  }

  predicate IsSpace(c: byte) {
    c == ' ' || '\t' <= c <= '\r'
  }

  predicate IsDigit(c: byte) {
    '0' <= c <= '9'
  }

  predicate IsPrint(c: byte) {
    ' ' <= c <= '~'
  }

  predicate AllSpaces(s: Bytes) {
    forall i :: 0 <= i < |s| ==> IsSpace(s[i])
  }

  lemma Assoc<T>(a: seq<T>, b: seq<T>, c: seq<T>)
    ensures a + (b + c) == a + b + c
  {
  }

  lemma EmptyFront<T>(s: seq<T>)
    ensures [] + s == s
  {
  }

  lemma Rejoin(s: Bytes, n: nat, tail: Bytes)
    requires n <= |s|
    ensures s[..n] + (s[n..] + tail) == s + tail
  {
  }

  lemma DropDrop(s: Bytes, i: nat, n: nat)
    requires i + n <= |s|
    ensures s[i..][n..] == s[i + n..]
  {
  }

  lemma DropAppend(a: Bytes, b: Bytes, n: nat)
    requires n <= |a + b|
    ensures (a + b)[n..] == if n <= |a| then a[n..] + b else b[n - |a|..]
  {
  }

  lemma NulFreeSlice(s: CString, i: nat, j: nat)
    requires i <= j <= |s|
    ensures NulFree(s[i..j])
  {
  }

  lemma NulFreeParts(a: Bytes, b: Bytes)
    ensures NulFree(a + b) <==> NulFree(a) && NulFree(b)
  {
    assert forall k :: 0 <= k < |a| ==> (a + b)[k] == a[k];
    assert forall k :: 0 <= k < |b| ==> (a + b)[|a| + k] == b[k];
  }

  /** Reads at positions behind a prefix of known length. */
  lemma AtBehind(a: Bytes, b: Bytes, i: nat)
    ensures i < |a| ==> At(a + b, i) == a[i]
    ensures At(a + b, |a| + i) == At(b, i)
  {
  }
}
