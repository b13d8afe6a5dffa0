/** The quoted representation of strings: `cstr_repr` and `cstr_unrepr` of src/cstr.c. */
module Cstr {
  import opened Bytes
  import opened Buffer
  import Numbers
  import Utf8

  const BACKSPACE: byte := 8 as char
  const FORM_FEED: byte := 12 as char

  /** The table `c2jesc`, read from character to escape letter ... */
  function EscapeLetter(c: byte): Option<byte> {
    if c == '"' then Some('"')
    else if c == '\\' then Some('\\')
    else if c == BACKSPACE then Some('b')
    else if c == FORM_FEED then Some('f')
    else if c == '\n' then Some('n')
    else if c == '\r' then Some('r')
    else if c == '\t' then Some('t')
    else None
  }

  /** ... and from escape letter to character. */
  function EscapedChar(letter: byte): Option<byte> {
    if letter == '"' then Some('"')
    else if letter == '\\' then Some('\\')
    else if letter == 'b' then Some(BACKSPACE)
    else if letter == 'f' then Some(FORM_FEED)
    else if letter == 'n' then Some('\n')
    else if letter == 'r' then Some('\r')
    else if letter == 't' then Some('\t')
    else None
  }

  function HexDigit(d: nat): byte
    requires d < 16
  {
    if d < 10 then ToByte('0' as int + d) else ToByte('a' as int + d - 10)
  }

  /** The format "\\x%02x". */
  function HexEscape(c: byte): (t: CString)
    ensures |t| == 4 && t[0] == '\\'
  {
    ['\\', 'x', HexDigit(c as int / 16), HexDigit(c as int % 16)]
  }

  /** What `cstr_repr` prints for the character in front, and how many bytes it takes. */
  function ReprUnit(s: Bytes): (r: (Bytes, nat))
    requires s != []
    ensures r.0 != [] && 1 <= r.1 <= |s|
  {
    var c := s[0];
    Utf8.SeqLenInside(s);
    if EscapeLetter(c).Some? then (['\\', EscapeLetter(c).value], 1)
    else if IsPrint(c) then ([c], 1)
    else if Utf8.SeqLen(s) > 1 then (s[..Utf8.SeqLen(s)], Utf8.SeqLen(s))
    else (HexEscape(c), 1)
  }

  function ReprBody(s: Bytes): Bytes
    decreases |s|
  {
    if s == [] then [] else ReprUnit(s).0 + ReprBody(s[ReprUnit(s).1..])
  }

  function Repr(s: Bytes): Bytes {
    "\"" + ReprBody(s) + "\""
  }

  method CstrRepr(dest: array<byte>, off: nat, src: Bytes, size: nat) returns (len: nat)
    requires Fits(dest.Length, off, size)
    modifies dest
    ensures len == |Repr(src)|
    ensures dest[..] == Put(old(dest[..]), off, size, Repr(src))
  {
    hide Put;
    hide ReprUnit;
    ghost var was := dest[..];
    len := CstrPutc(dest, off, '"', size);
    var i := 0;
    ghost var done: Bytes := "\"";
    assert src[0..] == src;
    while i < |src|
      invariant i <= |src| && len == |done|
      invariant dest[..] == Put(was, off, size, done)
      invariant done + ReprBody(src[i..]) == "\"" + ReprBody(src)
    {
      ghost var (unit, n) := ReprUnit(src[i..]);
      DropDrop(src, i, n);
      Assoc(done, unit, ReprBody(src[i + n..]));
      len, i := ReprStep(dest, off, src, i, len, size, was, done, unit, n);
      done := done + unit;
    }
    assert done == "\"" + ReprBody(src);
    len := AppendChar(dest, off, '"', size, len, was, done);
  }

  /** One round of the printing loop. */
  method ReprStep(dest: array<byte>, off: nat, src: Bytes, i: nat, len: nat, size: nat,
                  ghost was: Bytes, ghost done: Bytes, ghost unit: Bytes, ghost n: nat)
    returns (newLen: nat, next: nat)
    requires |was| == dest.Length && Fits(|was|, off, size)
    requires i < |src| && len == |done| && ReprUnit(src[i..]) == (unit, n)
    requires dest[..] == Put(was, off, size, done)
    modifies dest
    ensures next == i + n
    ensures newLen == |done| + |unit|
    ensures dest[..] == Put(was, off, size, done + unit)
  {
    hide Put;
    var c := src[i];
    assert src[i..][0] == c;
    var letter := EscapeLetter(c);
    if letter.Some? {
      newLen := Append(dest, off, ['\\', letter.value], size, len, was, done);
      return newLen, i + 1;
    }
    if IsPrint(c) {
      newLen := AppendChar(dest, off, c, size, len, was, done);
      return newLen, i + 1;
    }
    var utf8Len := Utf8.CheckUtf8Seq(src[i..]);
    if utf8Len > 1 {
      newLen := CopySeq(dest, off, src, i, utf8Len, len, size, was, done);
      return newLen, i + utf8Len;
    }
    newLen := Append(dest, off, HexEscape(c), size, len, was, done);
    return newLen, i + 1;
  }

  /** The loop that copies the bytes of one UTF-8 sequence. */
  method CopySeq(dest: array<byte>, off: nat, src: Bytes, i: nat, n: nat, start: nat, size: nat,
                 ghost was: Bytes, ghost done: Bytes) returns (len: nat)
    requires |was| == dest.Length && Fits(|was|, off, size)
    requires start == |done| && i + n <= |src|
    requires dest[..] == Put(was, off, size, done)
    modifies dest
    ensures len == start + n
    ensures dest[..] == Put(was, off, size, done + src[i..][..n])
  {
    len := start;
    var k := 0;
    assert done + src[i..][..0] == done;
    while k < n
      invariant k <= n && len == start + k
      invariant dest[..] == Put(was, off, size, done + src[i..][..k])
    {
      ghost var text := done + src[i..][..k];
      assert text + [src[i + k]] == done + src[i..][..k + 1];
      len := AppendChar(dest, off, src[i + k], size, len, was, text);
      k := k + 1;
    }
  }

  // ---- decoding ------------------------------------------------------------------------

  /** `strtol` of at most `n` characters in base 16; the caller cuts the result to its type. */
  function HexValue(s: Bytes): int {
    Numbers.Strtol(s, 16).0
  }

  /**
   * What `cstr_unrepr` emits for the character or escape in front, and how many bytes it
   * takes. None: an escape is cut short, and the pointer leaves the string.
   */
  function DecodeUnit(s: CString): (r: Option<(Bytes, nat)>)
    requires s != []
    ensures r.Some? ==> 1 <= r.value.1 <= |s| && |r.value.0| <= r.value.1
    ensures r.Some? && s[0] == '\\' ==> |r.value.0| < r.value.1
  {
    if s[0] == '"' then Some(([], 1))
    else if s[0] != '\\' then Some(([s[0]], 1))
    else if |s| == 1 then None
    else if EscapedChar(s[1]).Some? then Some(([EscapedChar(s[1]).value], 2))
    else if s[1] == 'u' then
      if |s| < 6 then None else Some((Utf8.Encode(HexValue(s[2..6]) % 0x10000), 6))
    else if s[1] == 'x' then
      if |s| < 4 then None else Some(([ToByte(HexValue(s[2..4]))], 4))
    else Some(([], 2))
  }

  /** `cstr_unrepr`; None when it reads past the terminator. */
  function Unrepr(s: CString): (r: Option<Bytes>)
    ensures r.Some? ==> |r.value| <= |s|
    decreases |s|
  {
    if s == [] then Some([])
    else
      match DecodeUnit(s)
      case None => None
      case Some((t, n)) =>
        match Unrepr(s[n..])
        case None => None
        case Some(rest) => Some(t + rest)
  }

  /** No escape is cut short: behind `\u` stand four more bytes, behind `\x` two. */
  predicate Complete(s: Bytes) {
    || s == []
    || (s[0] != '\\' && Complete(s[1..]))
    || (s[0] == '\\' && |s| > 1 && EscapeLength(s[1]) <= |s| && Complete(s[EscapeLength(s[1])..]))
  }

  function EscapeLength(letter: byte): nat {
    if letter == 'u' then 6 else if letter == 'x' then 4 else 2
  }

  /** Main result: decoding stays inside the text exactly when no escape of it is cut short. */
  lemma {:induction false} UnreprIff(s: CString)
    ensures Unrepr(s).Some? <==> Complete(s)
    decreases |s|
  {
    if s != [] && DecodeUnit(s).Some? {
      UnreprIff(s[DecodeUnit(s).value.1..]);
    }
  }

  /** The buffer after a decoding loop: a loop that emits nothing writes nothing. */
  ghost function Emitted(buf: Bytes, off: nat, size: nat, text: Bytes): Bytes
    requires Fits(|buf|, off, size)
  {
    if text == [] then buf else Put(buf, off, size, text)
  }

  lemma EmittedPut(buf: Bytes, off: nat, size: nat, done: Bytes, c: byte)
    requires Fits(|buf|, off, size)
    ensures |Emitted(buf, off, size, done)| == |buf| && Fits(|buf|, off + |done|, Room(size, |done|))
    ensures Put(Emitted(buf, off, size, done), off + |done|, Room(size, |done|), [c])
         == Emitted(buf, off, size, done + [c])
  {
    if done == [] {
      assert done + [c] == [c];
    } else {
      PutPut(buf, off, size, done, [c]);
    }
  }

  /** `len += cstr_putc(dest + len, c, max(0, size - len))` */
  method Emit(dest: array<byte>, off: nat, c: byte, size: nat, len: nat, ghost was: Bytes, ghost done: Bytes)
    returns (newLen: nat)
    requires |was| == dest.Length && Fits(|was|, off, size)
    requires len == |done| && dest[..] == Emitted(was, off, size, done)
    modifies dest
    ensures newLen == |done| + 1
    ensures dest[..] == Emitted(was, off, size, done + [c])
  {
    EmittedPut(was, off, size, done, c);
    var l := CstrPutc(dest, off + len, c, Room(size, len));
    return len + l;
  }

  method CstrUnrepr(dest: array<byte>, off: nat, src: CString, size: nat) returns (len: nat)
    requires Fits(dest.Length, off, size)
    requires Complete(src)
    modifies dest
    ensures Unrepr(src).Some? && len == |Unrepr(src).value|
    ensures dest[..] == Emitted(old(dest[..]), off, size, Unrepr(src).value)
  {
    hide Complete;
    hide Put;
    hide Unrepr;
    hide DecodeUnit;
    ghost var was := dest[..];
    ghost var done: Bytes := [];
    len := 0;
    var i := 0;
    UnreprIff(src);
    DecodingBegins(src);
    while At(src, i) != NUL
      invariant i <= |src| && len == |done|
      invariant dest[..] == Emitted(was, off, size, done)
      invariant Decoding(src, i, done)
      decreases |src| - i
    {
      DecodingUnit(src, i, done);
      ghost var (t, n) := DecodeUnit(src[i..]).value;
      DecodingAdvances(src, i, done, t, n);
      len, i := UnreprStep(dest, off, src, i, size, len, was, done, t, n);
      done := done + t;
    }
    DecodingEnds(src, done);
  }

  /** `done` is what the characters in front of `i` decode to. */
  ghost predicate Decoding(src: CString, i: nat, done: Bytes)
    requires i <= |src|
  {
    Unrepr(src[i..]).Some? && Unrepr(src) == Some(done + Unrepr(src[i..]).value)
  }

  lemma DecodingBegins(src: CString)
    requires Unrepr(src).Some?
    ensures Decoding(src, 0, [])
  {
    assert src[0..] == src;
    assert [] + Unrepr(src).value == Unrepr(src).value;
  }

  lemma DecodingUnit(src: CString, i: nat, done: Bytes)
    requires i < |src| && Decoding(src, i, done)
    ensures DecodeUnit(src[i..]).Some?
  {
  }

  lemma DecodingEnds(src: CString, done: Bytes)
    requires Decoding(src, |src|, done)
    ensures Unrepr(src) == Some(done)
  {
    assert done + [] == done;
  }

  lemma DecodingAdvances(src: CString, i: nat, done: Bytes, t: Bytes, n: nat)
    requires i < |src| && Decoding(src, i, done) && DecodeUnit(src[i..]) == Some((t, n))
    ensures Decoding(src, i + n, done + t)
  {
    DropDrop(src, i, n);
    Assoc(done, t, Unrepr(src[i + n..]).value);
  }

  /** One round of the decoding loop. */
  method UnreprStep(dest: array<byte>, off: nat, src: CString, i: nat, size: nat, len: nat,
                    ghost was: Bytes, ghost done: Bytes, ghost t: Bytes, ghost n: nat)
    returns (newLen: nat, next: nat)
    requires |was| == dest.Length && Fits(|was|, off, size)
    requires i < |src| && DecodeUnit(src[i..]) == Some((t, n))
    requires len == |done| && dest[..] == Emitted(was, off, size, done)
    modifies dest
    ensures next == i + n
    ensures newLen == |done| + |t|
    ensures dest[..] == Emitted(was, off, size, done + t)
  {
    hide Put;
    hide Emitted;
    assert done + [] == done;
    if src[i] == '"' {
      return len, i + 1;
    }
    if src[i] != '\\' {
      newLen := Emit(dest, off, src[i], size, len, was, done);
      return newLen, i + 1;
    }
    var letter := src[i + 1];
    if EscapedChar(letter).Some? {
      newLen := Emit(dest, off, EscapedChar(letter).value, size, len, was, done);
      return newLen, i + 2;
    }
    if letter == 'u' {
      assert src[i..][2..6] == src[i + 2..i + 6];
      newLen := EmitUtf8(dest, off, HexValue(src[i + 2..i + 6]) % 0x10000, size, len, was, done);
      return newLen, i + 6;
    }
    if letter == 'x' {
      assert src[i..][2..4] == src[i + 2..i + 4];
      newLen := Emit(dest, off, ToByte(HexValue(src[i + 2..i + 4])), size, len, was, done);
      return newLen, i + 4;
    }
    return len, i + 2;
  }

  /** The one to three bytes of a `\uXXXX` escape. */
  method EmitUtf8(dest: array<byte>, off: nat, u: nat, size: nat, len: nat, ghost was: Bytes, ghost done: Bytes)
    returns (newLen: nat)
    requires u < 0x10000
    requires |was| == dest.Length && Fits(|was|, off, size)
    requires len == |done| && dest[..] == Emitted(was, off, size, done)
    modifies dest
    ensures newLen == |done + Utf8.Encode(u)|
    ensures dest[..] == Emitted(was, off, size, done + Utf8.Encode(u))
  {
    hide Put;
    hide Emitted;
    var t := Utf8.Encode(u);
    newLen := Emit(dest, off, t[0], size, len, was, done);
    if u >= 0x80 {
      newLen := Emit(dest, off, t[1], size, newLen, was, done + [t[0]]);
      if u >= 0x800 {
        newLen := Emit(dest, off, t[2], size, newLen, was, done + [t[0]] + [t[1]]);
        assert done + t == done + [t[0]] + [t[1]] + [t[2]];
      } else {
        assert done + t == done + [t[0]] + [t[1]];
      }
    } else {
      assert done + t == done + [t[0]];
    }
  }

  // ---- decoding undoes printing --------------------------------------------------------

  /** Bytes that decoding copies. */
  predicate Plain(s: Bytes) {
    forall i :: 0 <= i < |s| ==> s[i] != '"' && s[i] != '\\' && s[i] != NUL
  }

  /** Decoding a text whose first unit is known. */
  lemma UnreprCons(unit: Bytes, rest: CString, emitted: Bytes)
    requires unit != [] && NulFree(unit) && Unrepr(rest).Some?
    requires NulFree(unit + rest) && DecodeUnit(unit + rest) == Some((emitted, |unit|))
    ensures Unrepr(unit + rest) == Some(emitted + Unrepr(rest).value)
  {
    assert (unit + rest)[|unit|..] == rest;
  }

  lemma {:induction false} PlainDecodes(s: Bytes, rest: CString)
    requires Plain(s) && Unrepr(rest).Some?
    ensures NulFree(s + rest)
    ensures Unrepr(s + rest) == Some(s + Unrepr(rest).value)
  {
    if s == [] {
      EmptyFront(rest);
      EmptyFront(Unrepr(rest).value);
    } else {
      PlainDecodes(s[1..], rest);
      PlainUnit(s[0], s[1..] + rest);
      hide Unrepr;
      UnreprCons([s[0]], s[1..] + rest, [s[0]]);
      assert [s[0]] + s[1..] == s;
      Assoc([s[0]], s[1..], rest);
      Assoc([s[0]], s[1..], Unrepr(rest).value);
    }
  }

  lemma PlainUnit(c: byte, rest: CString)
    requires c != '"' && c != '\\' && c != NUL
    ensures NulFree([c] + rest) && DecodeUnit([c] + rest) == Some(([c], 1))
  {
    assert ([c] + rest)[0] == c;
  }

  predicate HexDigits(h: Bytes) {
    forall i :: 0 <= i < |h| ==> Numbers.DigitValue(h[i]) < 16
  }

  /** Two or four hex digits, upper or lower case, have the value that they spell. */
  lemma HexValueIs(h: Bytes)
    requires HexDigits(h) && (|h| == 2 || |h| == 4)
    ensures HexValue(h) == Numbers.ValueOf(h, 16) && 0 <= HexValue(h) < if |h| == 2 then 0x100 else 0x10000
  {
    ValueOfShort(h);
    HexStart(h);
    Numbers.DigitsEndAt(h, 0, |h|, 16);
    assert h[0..|h|] == h;
    hide Numbers.ValueOf;
    hide Numbers.DigitsEnd;
    hide Numbers.SkipSpaces;
    hide Numbers.SkipSign;
    hide Numbers.HexPrefix;
    hide Numbers.DigitValue;
  }

  /** A hex digit is no white space, no sign and no `x`. */
  lemma HexStart(h: Bytes)
    requires HexDigits(h) && |h| >= 2
    ensures Numbers.SkipSpaces(h, 0) == 0 && Numbers.SkipSign(h, 0) == 0 && !Numbers.HexPrefix(h, 0)
    ensures At(h, 0) != '-'
  {
    assert Numbers.DigitValue(h[0]) < 16 && Numbers.DigitValue(h[1]) < 16;
  }

  lemma ValueOfShort(h: Bytes)
    requires HexDigits(h) && (|h| == 2 || |h| == 4)
    ensures var d := seq(|h|, i requires 0 <= i < |h| => Numbers.DigitValue(h[i]));
            Numbers.ValueOf(h, 16) ==
            if |h| == 2 then d[0] * 16 + d[1] else ((d[0] * 16 + d[1]) * 16 + d[2]) * 16 + d[3]
    ensures Numbers.ValueOf(h, 16) < if |h| == 2 then 0x100 else 0x10000
  {
    ValueOfPair(h[..2]);
    if |h| == 4 {
      assert h[..3][..2] == h[..2];
    } else {
      assert h[..2] == h;
    }
  }

  lemma ValueOfPair(h: Bytes)
    requires |h| == 2
    ensures Numbers.ValueOf(h, 16) == Numbers.DigitValue(h[0]) * 16 + Numbers.DigitValue(h[1])
  {
    assert h[..1][..0] == [] && Numbers.ValueOf([], 16) == 0;
    assert Numbers.ValueOf(h[..1], 16) == Numbers.DigitValue(h[0]);
  }

  lemma HexEscapeDecodes(c: byte)
    ensures HexValue(HexEscape(c)[2..4]) == c as int
  {
    var h := HexEscape(c)[2..4];
    var hi, lo := c as int / 16, c as int % 16;
    HexDigitValue(hi);
    HexDigitValue(lo);
    assert h == [HexDigit(hi), HexDigit(lo)];
    hide HexValue;
    hide HexDigit;
    hide Numbers.DigitValue;
    HexValueIs(h);
    ValueOfPair(h);
  }

  lemma HexDigitValue(d: nat)
    requires d < 16
    ensures Numbers.DigitValue(HexDigit(d)) == d
  {
  }

  /**
   * Main result: each escape of four hex digits is decoded to the bytes of its value, which are
   * the UTF-8 of that character exactly when it is no surrogate, and are measured as one sequence.
   */
  lemma UnicodeEscape(h: Bytes, rest: CString, behind: Bytes)
    requires |h| == 4 && HexDigits(h)
    ensures var u, s: Bytes := Numbers.ValueOf(h, 16), "\\u" + h + rest;
            && u < 0x10000 && NulFree(s) && DecodeUnit(s) == Some((Utf8.Encode(u), 6))
            && (Utf8.DecodesTo(Utf8.Encode(u), u) <==> !(0xD800 <= u < 0xE000))
            && Utf8.SeqLen(Utf8.Encode(u) + behind) == |Utf8.Encode(u)|
  {
    hide *;
    var u := Numbers.ValueOf(h, 16);
    HexValueIs(h);
    UnicodeDecoded(h, rest);
    Utf8.EncodeDecodes(u);
    Utf8.EncodeMeasured(u, behind);
  }

  lemma UnicodeDecoded(h: Bytes, rest: CString)
    requires |h| == 4 && HexDigits(h) && 0 <= HexValue(h) < 0x10000
    ensures var s: Bytes := "\\u" + h + rest;
            NulFree(s) && DecodeUnit(s) == Some((Utf8.Encode(HexValue(h)), 6))
  {
    hide HexValue;
    hide Utf8.Encode;
    HexNulFree(h);
    EscapeParts("\\u", h, rest);
  }

  lemma EscapeParts(front: Bytes, h: Bytes, rest: Bytes)
    requires |front| == 2
    ensures var s := front + h + rest; s[0] == front[0] && s[1] == front[1] && s[2..2 + |h|] == h
  {
  }

  /** An escape of two hex digits is decoded to the byte of its value. */
  lemma ByteEscape(h: Bytes, rest: CString)
    requires |h| == 2 && HexDigits(h)
    ensures var s: Bytes := "\\x" + h + rest;
            NulFree(s) && DecodeUnit(s) == Some(([ToByte(Numbers.ValueOf(h, 16))], 4))
  {
    hide HexValue;
    hide Numbers.ValueOf;
    HexValueIs(h);
    HexNulFree(h);
    EscapeParts("\\x", h, rest);
  }

  lemma HexNulFree(h: Bytes)
    requires HexDigits(h)
    ensures NulFree(h)
  {
    assert forall i :: 0 <= i < |h| ==> Numbers.DigitValue(h[i]) < 16;
  }

  /** The text of one unit decodes to the bytes it was printed for. */
  lemma UnitDecodes(s: Bytes, rest: CString)
    requires s != [] && Unrepr(rest).Some?
    ensures NulFree(ReprUnit(s).0 + rest)
    ensures Unrepr(ReprUnit(s).0 + rest) == Some(s[..ReprUnit(s).1] + Unrepr(rest).value)
  {
    hide Utf8.IsUtf8;
    hide Utf8.SeqLen;
    hide HexEscape;
    hide EscapeLetter;
    var (t, n) := ReprUnit(s);
    if EscapeLetter(s[0]).None? && !IsPrint(s[0]) && Utf8.SeqLen(s) > 1 {
      Utf8.SeqLenInside(s);
      PlainDecodes(t, rest);
    } else {
      assert s[..n] == [s[0]];
      UnitText(s, rest);
      UnreprCons(t, rest, [s[0]]);
    }
  }

  lemma UnitText(s: Bytes, rest: CString)
    requires s != []
    requires EscapeLetter(s[0]).Some? || IsPrint(s[0]) || Utf8.SeqLen(s) <= 1
    ensures NulFree(ReprUnit(s).0 + rest)
    ensures DecodeUnit(ReprUnit(s).0 + rest) == Some(([s[0]], |ReprUnit(s).0|))
  {
    if EscapeLetter(s[0]).Some? {
      EscapeUndone(s[0], rest);
    } else if IsPrint(s[0]) {
    } else {
      HexEscapeUndone(s[0], rest);
    }
  }

  lemma EscapeUndone(c: byte, rest: CString)
    requires EscapeLetter(c).Some?
    ensures EscapedChar(EscapeLetter(c).value) == Some(c)
    ensures NulFree(['\\', EscapeLetter(c).value] + rest)
    ensures DecodeUnit(['\\', EscapeLetter(c).value] + rest) == Some(([c], 2))
  {
  }

  lemma HexEscapeShape(c: byte)
    ensures HexEscape(c)[1] == 'x'
  {
  }

  lemma HexEscapeUndone(c: byte, rest: CString)
    ensures NulFree(HexEscape(c) + rest)
    ensures DecodeUnit(HexEscape(c) + rest) == Some(([c], 4))
  {
    hide HexEscape;
    hide HexValue;
    HexEscapeDecodes(c);
    HexEscapeShape(c);
    var h, s := HexEscape(c), HexEscape(c) + rest;
    assert s[0] == h[0] && s[1] == h[1] && s[2..4] == h[2..4];
  }

  lemma {:induction false} BodyDecodes(s: Bytes, rest: CString)
    requires Unrepr(rest).Some?
    ensures NulFree(ReprBody(s) + rest)
    ensures Unrepr(ReprBody(s) + rest) == Some(s + Unrepr(rest).value)
    decreases |s|
  {
    if s == [] {
      assert ReprBody(s) + rest == rest;
      assert s + Unrepr(rest).value == Unrepr(rest).value;
    } else {
      var (t, n) := ReprUnit(s);
      BodyDecodes(s[n..], rest);
      var behind: CString := ReprBody(s[n..]) + rest;
      UnitDecodes(s, behind);
      Assoc(t, ReprBody(s[n..]), rest);
      Rejoin(s, n, Unrepr(rest).value);
    }
  }

  /** Decoding a representation gives the string back: every byte string, NUL bytes included. */
  lemma UnreprOfRepr(s: Bytes)
    ensures NulFree(Repr(s))
    ensures Unrepr(Repr(s)) == Some(s)
  {
    assert "\""[1..] == [];
    assert Unrepr([]) == Some([]);
    assert Unrepr("\"") == Some([]);
    BodyDecodes(s, "\"");
    UnreprCons("\"", ReprBody(s) + "\"", []);
    assert Repr(s) == "\"" + (ReprBody(s) + "\"");
    assert [] + (s + []) == s;
  }

  // ---- representations are UTF-8 -------------------------------------------------------

  lemma {:induction false} AsciiAccepted(t: Bytes, rest: Bytes)
    requires forall i :: 0 <= i < |t| ==> t[i] as int < 0x80
    ensures Utf8.IsUtf8(t + rest) == Utf8.IsUtf8(rest)
  {
    if t == [] {
      assert t + rest == rest;
    } else {
      AsciiAccepted(t[1..], rest);
      assert t + rest == [t[0]] + (t[1..] + rest);
      Utf8.IsUtf8Cons([t[0]], t[1..] + rest);
    }
  }

  lemma UnitAscii(s: Bytes)
    requires s != [] && (EscapeLetter(s[0]).Some? || IsPrint(s[0]) || Utf8.SeqLen(s) <= 1)
    ensures forall i :: 0 <= i < |ReprUnit(s).0| ==> ReprUnit(s).0[i] as int < 0x80
  {
    hide Utf8.SeqLen;
    hide HexEscape;
    hide EscapeLetter;
    EscapesAscii(s[0]);
  }

  lemma EscapesAscii(c: byte)
    ensures EscapeLetter(c).Some? ==> EscapeLetter(c).value as int < 0x80
    ensures forall i :: 0 <= i < |HexEscape(c)| ==> HexEscape(c)[i] as int < 0x80
  {
  }

  lemma UnitIsUtf8(s: Bytes, rest: Bytes)
    requires s != []
    ensures Utf8.IsUtf8(ReprUnit(s).0 + rest) == Utf8.IsUtf8(rest)
  {
    hide Utf8.IsUtf8;
    hide Utf8.SeqLen;
    hide HexEscape;
    hide EscapeLetter;
    var (t, n) := ReprUnit(s);
    if EscapeLetter(s[0]).None? && !IsPrint(s[0]) && Utf8.SeqLen(s) > 1 {
      assert s == t + s[n..];
      Utf8.SeqLenLocal(t, s[n..], rest);
      Utf8.IsUtf8Cons(t, rest);
    } else {
      UnitAscii(s);
      AsciiAccepted(t, rest);
    }
  }

  lemma {:induction false} BodyIsUtf8(s: Bytes, rest: Bytes)
    ensures Utf8.IsUtf8(ReprBody(s) + rest) == Utf8.IsUtf8(rest)
    decreases |s|
  {
    if s == [] {
      assert ReprBody(s) + rest == rest;
    } else {
      var (t, n) := ReprUnit(s);
      BodyIsUtf8(s[n..], rest);
      UnitIsUtf8(s, ReprBody(s[n..]) + rest);
      assert ReprBody(s) + rest == t + (ReprBody(s[n..]) + rest);
    }
  }

  /** `cstr_is_utf8` accepts every representation, also that of malformed UTF-8. */
  lemma ReprIsUtf8(s: Bytes)
    ensures Utf8.IsUtf8(Repr(s))
  {
    var body := ReprBody(s) + "\"";
    assert Repr(s) == "\"" + body;
    AsciiAccepted("\"", body);
    BodyIsUtf8(s, "\"");
    AsciiAccepted("\"", []);
    assert "\"" + [] == "\"";
  }
}
