/**
 * What `cstr_repr` prints, said without its table: a string of section 7 of RFC 8259 as far
 * as the characters allow it, and `\x` with two digits for every other byte.
 */
module ReprText {
  import opened Bytes
  import opened Cstr
  import Utf8

  /** The code points that RFC 8259 names a letter for and that are printed with it. */
  const RFC_ESCAPES: map<int, byte> :=
    map[0x22 := '"', 0x5C := '\\', 0x08 := 'b', 0x0C := 'f', 0x0A := 'n', 0x0D := 'r', 0x09 := 't']

  const RFC_LETTERS: Bytes := "\"\\/bfnrt"

  const HEX_DIGITS: Bytes := "0123456789abcdef"

  predicate IsNamed(c: byte) {
    c as int in RFC_ESCAPES
  }

  /** Printable ASCII that no letter is named for. */
  predicate ForItself(c: byte) {
    0x20 <= c as int < 0x7F && !IsNamed(c)
  }

  /** What stands for the character in front, and how many bytes that is. */
  ghost predicate Stands(s: Bytes, text: Bytes, n: nat)
    requires s != []
  {
    var c := s[0];
    if IsNamed(c) then text == ['\\', RFC_ESCAPES[c as int]] && n == 1
    else if ForItself(c) then text == [c] && n == 1
    else if Utf8.SeqLen(s) > 1 then n == Utf8.SeqLen(s) <= |s| && text == s[..n]
    else text == ['\\', 'x', HEX_DIGITS[c as int / 16], HEX_DIGITS[c as int % 16]] && n == 1
  }

  /** Main result: the printed text is what stands for its characters, one behind the other. */
  lemma ReprStands(s: Bytes)
    requires s != []
    ensures exists text: Bytes, n: nat | Stands(s, text, n) :: 1 <= n <= |s| && ReprBody(s) == text + ReprBody(s[n..])
    ensures ReprBody([]) == []
  {
    UnitStands(s);
    hide Stands;
    var (text, n) := ReprUnit(s);
    assert Stands(s, text, n);
  }

  lemma UnitStands(s: Bytes)
    requires s != []
    ensures Stands(s, ReprUnit(s).0, ReprUnit(s).1)
  {
    Utf8.SeqLenInside(s);
    EscapesAgree(s[0]);
    DigitsAgree(s[0]);
  }

  lemma EscapesAgree(c: byte)
    ensures EscapeLetter(c) == if IsNamed(c) then Some(RFC_ESCAPES[c as int]) else None
    ensures !IsNamed(c) ==> IsPrint(c) == ForItself(c)
  {
  }

  lemma DigitsAgree(c: byte)
    ensures HexEscape(c) == ['\\', 'x', HEX_DIGITS[c as int / 16], HEX_DIGITS[c as int % 16]]
  {
    DigitAgrees(c as int / 16);
    DigitAgrees(c as int % 16);
  }

  lemma DigitAgrees(d: nat)
    requires d < 16
    ensures HexDigit(d) == HEX_DIGITS[d]
  {
  }

  // ---- when the text is a JSON string ---------------------------------------------------

  /** Section 7 of RFC 8259: the characters of a string. */
  predicate RfcChars(t: Bytes) {
    || t == []
    || (t[0] as int >= 0x20 && t[0] != '"' && t[0] != '\\' && RfcChars(t[1..]))
    || (t[0] == '\\' && |t| >= 2 && t[1] in RFC_LETTERS && RfcChars(t[2..]))
    || (t[0] == '\\' && |t| >= 6 && t[1] == 'u' && (forall k :: 2 <= k < 6 ==> IsHex(t[k])) && RfcChars(t[6..]))
  }

  predicate IsHex(c: byte) {
    '0' <= c <= '9' || 'a' <= c <= 'f' || 'A' <= c <= 'F'
  }

  predicate RfcString(t: Bytes) {
    |t| >= 2 && t[0] == '"' && t[|t| - 1] == '"' && RfcChars(t[1..|t| - 1])
  }

  /** Measured sequences without control bytes other than the named ones. */
  predicate Textual(s: Bytes)
    decreases |s|
  {
    || s == []
    || ((IsNamed(s[0]) || ForItself(s[0])) && Textual(s[1..]))
    || (Utf8.SeqLen(s) > 1 && (Utf8.SeqLenInside(s); Textual(s[Utf8.SeqLen(s)..])))
  }

  predicate NoneNamed(s: Bytes) {
    forall k :: 0 <= k < |s| ==> !IsNamed(s[k])
  }

  /** Bytes from 0x80 on are characters of a string. */
  lemma {:induction false} HighChars(a: Bytes, t: Bytes)
    requires forall k :: 0 <= k < |a| ==> a[k] as int >= 0x80
    ensures RfcChars(a + t) == RfcChars(t)
  {
    if a == [] {
      EmptyFront(t);
    } else {
      HighChars(a[1..], t);
      assert (a + t)[1..] == a[1..] + t;
    }
  }

  lemma CharsCons(c: byte, t: Bytes)
    requires ForItself(c)
    ensures RfcChars([c] + t) == RfcChars(t)
  {
    assert ([c] + t)[1..] == t;
  }

  lemma CharsEscape(c: byte, t: Bytes)
    requires IsNamed(c)
    ensures RfcChars(['\\', RFC_ESCAPES[c as int]] + t) == RfcChars(t)
  {
    var letter := RFC_ESCAPES[c as int];
    assert letter in RFC_LETTERS by {
      assert RFC_LETTERS == ['"', '\\', '/', 'b', 'f', 'n', 'r', 't'];
    }
    assert (['\\', letter] + t)[2..] == t;
  }

  lemma CharsHex(a: byte, b: byte, t: Bytes)
    ensures !RfcChars(['\\', 'x', a, b] + t)
  {
    var text := ['\\', 'x', a, b] + t;
    assert text[0] == '\\' && text[1] == 'x';
    assert 'x' !in RFC_LETTERS by {
      assert RFC_LETTERS == ['"', '\\', '/', 'b', 'f', 'n', 'r', 't'];
    }
  }

  lemma HighSeq(s: Bytes)
    requires s != [] && Utf8.SeqLen(s) > 1
    ensures Utf8.SeqLen(s) <= |s|
    ensures forall k :: 0 <= k < Utf8.SeqLen(s) ==> s[..Utf8.SeqLen(s)][k] as int >= 0x80
    ensures !IsNamed(s[0]) && !ForItself(s[0])
  {
    Utf8.SeqLenInside(s);
  }

  lemma {:induction false} BodyRfc(s: Bytes)
    ensures RfcChars(ReprBody(s)) <==> Textual(s)
    decreases |s|
  {
    if s != [] {
      hide ReprUnit;
      hide RfcChars;
      hide Utf8.SeqLen;
      UnitStands(s);
      var c := s[0];
      var (text, n) := ReprUnit(s);
      var behind := ReprBody(s[n..]);
      BodyRfc(s[n..]);
      if IsNamed(c) {
        CharsEscape(c, behind);
        if Utf8.SeqLen(s) > 1 {
          HighSeq(s);
        }
      } else if ForItself(c) {
        CharsCons(c, behind);
        if Utf8.SeqLen(s) > 1 {
          HighSeq(s);
        }
      } else if Utf8.SeqLen(s) > 1 {
        HighSeq(s);
        HighChars(text, behind);
      } else {
        CharsHex(HEX_DIGITS[c as int / 16], HEX_DIGITS[c as int % 16], behind);
      }
    } else {
      assert RfcChars([]);
    }
  }

  /** Main result: the representation is a JSON string exactly for such text. */
  lemma ReprRfcIff(s: Bytes)
    ensures RfcString(Repr(s)) <==> Textual(s)
  {
    BodyRfc(s);
    var t := Repr(s);
    assert t[1..|t| - 1] == ReprBody(s);
  }

  // ---- when the text stands for itself --------------------------------------------------

  lemma {:induction false} BodyLonger(s: Bytes)
    ensures |ReprBody(s)| >= |s|
    decreases |s|
  {
    if s != [] {
      UnitStands(s);
      BodyLonger(s[ReprUnit(s).1..]);
    }
  }

  lemma SameParts(s: Bytes, text: Bytes, n: nat, behind: Bytes)
    requires |text| == n <= |s|
    ensures text + behind == s <==> text == s[..n] && behind == s[n..]
  {
    assert (text + behind)[..n] == text && (text + behind)[n..] == behind;
    assert s[..n] + s[n..] == s;
  }

  lemma UnitInside(s: Bytes)
    requires s != []
    ensures 1 <= ReprUnit(s).1 <= |s|
  {
  }

  lemma NoneNamedParts(s: Bytes, n: nat)
    requires n <= |s|
    ensures NoneNamed(s) <==> NoneNamed(s[..n]) && NoneNamed(s[n..])
  {
    assert forall k :: n <= k < |s| ==> s[k] == s[n..][k - n];
    assert forall k :: 0 <= k < n ==> s[k] == s[..n][k];
  }

  /** One step: the rest is left as it is, and the unit in front is its own text. */
  lemma UnitItself(s: Bytes)
    requires s != []
    ensures var behind := s[ReprUnit(s).1..];
            ReprBody(s) == s <==> !IsNamed(s[0]) && ReprBody(behind) == behind && ReprUnit(s).0 == s[..ReprUnit(s).1]
  {
    hide ReprUnit;
    var (text, n) := ReprUnit(s);
    UnitStands(s);
    BodyLonger(s[n..]);
    if |text| == n {
      SameParts(s, text, n, ReprBody(s[n..]));
    } else {
      assert |text + ReprBody(s[n..])| > |s|;
    }
  }

  lemma TextualUnit(s: Bytes)
    requires s != []
    ensures var (text, n) := ReprUnit(s);
            Textual(s) && NoneNamed(s[..n]) <==> text == s[..n] && !IsNamed(s[0]) && Textual(s[n..])
  {
    hide ReprUnit;
    hide Utf8.SeqLen;
    UnitStands(s);
    if Utf8.SeqLen(s) > 1 {
      HighSeq(s);
    }
  }

  lemma {:induction false} BodyItself(s: Bytes)
    ensures ReprBody(s) == s <==> Textual(s) && NoneNamed(s)
    decreases |s|
  {
    if s != [] {
      var n := ReprUnit(s).1;
      hide *;
      UnitInside(s);
      UnitItself(s);
      TextualUnit(s);
      BodyItself(s[n..]);
      NoneNamedParts(s, n);
    }
  }

  /** Main result: it is the text between quotes exactly when nothing in it is escaped. */
  lemma ReprItselfIff(s: Bytes)
    ensures Repr(s) == "\"" + s + "\"" <==> Textual(s) && NoneNamed(s)
  {
    BodyItself(s);
    var q: Bytes := "\"";
    assert Repr(s)[1..1 + |ReprBody(s)|] == ReprBody(s);
    assert (q + s + q)[1..1 + |s|] == s;
    assert |Repr(s)| == |ReprBody(s)| + 2 && |q + s + q| == |s| + 2;
  }
}
