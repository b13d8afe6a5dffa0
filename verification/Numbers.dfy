/**
 * Number text: `strtol` and the end position of `strtod` as the C standard defines them
 * (sections 7.22.1.4 and 7.22.1.3 of C17), the branches of src/cstr.c that combine them,
 * and the decimal text that `%li` prints.
 */
module Numbers {
  import opened Bytes

  const LONG_MIN: int := -0x8000_0000_0000_0000
  const LONG_MAX: int := 0x7FFF_FFFF_FFFF_FFFF

  predicate IsLong(n: int) {
    LONG_MIN <= n <= LONG_MAX
  }

  /** Conversion of a `long` or `unsigned long` to `int`: the low 32 bits, signed. */
  function ToInt(n: int): (r: int)
    ensures -0x8000_0000 <= r < 0x8000_0000
    ensures -0x8000_0000 <= n < 0x8000_0000 ==> r == n
  {
    (n + 0x8000_0000) % 0x1_0000_0000 - 0x8000_0000
  }

  /** The value of a digit in bases up to 36; 99 for anything else. */
  function DigitValue(c: byte): nat {
    if IsDigit(c) then c as int - '0' as int
    else if 'a' <= c <= 'z' then c as int - 'a' as int + 10
    else if 'A' <= c <= 'Z' then c as int - 'A' as int + 10
    else 99
  }

  /** The first position from `i` on that holds no digit of the base. */
  function DigitsEnd(s: Bytes, i: nat, base: nat): (e: nat)
    ensures i <= e && (i <= |s| ==> e <= |s|)
    ensures forall k :: i <= k < e ==> k < |s| && DigitValue(s[k]) < base
    ensures e < |s| ==> DigitValue(s[e]) >= base
    decreases |s| - i
  {
    if i < |s| && DigitValue(s[i]) < base then DigitsEnd(s, i + 1, base) else i
  }

  function ValueOf(digits: Bytes, base: nat): nat {
    if digits == [] then 0
    else ValueOf(digits[..|digits| - 1], base) * base + DigitValue(digits[|digits| - 1])
  }

  function SkipSpaces(s: Bytes, i: nat): (e: nat)
    ensures i <= e && (i <= |s| ==> e <= |s|)
    decreases |s| - i
  {
    if i < |s| && IsSpace(s[i]) then SkipSpaces(s, i + 1) else i
  }

  function SkipSign(s: Bytes, i: nat): nat {
    if At(s, i) == '-' || At(s, i) == '+' then i + 1 else i
  }

  predicate HexPrefix(s: Bytes, i: nat) {
    At(s, i) == '0' && (At(s, i + 1) == 'x' || At(s, i + 1) == 'X')
  }

  /** `strtol(s, &end, base)`; the end is 0 when nothing was converted. */
  function Strtol(s: Bytes, base: nat): (r: (int, nat))
    ensures IsLong(r.0) && r.1 <= |s|
  {
    var i := SkipSpaces(s, 0);
    var j := SkipSign(s, i);
    var hex := (base == 16 || base == 0) && HexPrefix(s, j) && DigitValue(At(s, j + 2)) < 16;
    var radix := if hex then 16 else if base != 0 then base else if At(s, j) == '0' then 8 else 10;
    var start := if hex then j + 2 else j;
    var end := DigitsEnd(s, start, radix);
    if end == start then
      (0, 0)
    else
      var v: int := ValueOf(s[start..end], radix);
      var signed := if At(s, i) == '-' then -v else v;
      (if signed < LONG_MIN then LONG_MIN else if signed > LONG_MAX then LONG_MAX else signed, end)
  }

  /** Letters compared without regard to case; `word` is in lower case. */
  predicate IgnoringCaseAt(s: Bytes, i: nat, word: Bytes) {
    i + |word| <= |s| &&
    forall k :: 0 <= k < |word| ==>
      s[i + k] == word[k] || ('A' <= s[i + k] <= 'Z' && s[i + k] as int + 32 == word[k] as int)
  }

  /** Digits with an optional fraction, then an exponent that counts only when it has digits. */
  function FloatEnd(s: Bytes, i: nat, base: nat, exponent: byte): nat {
    var whole := DigitsEnd(s, i, base);
    var frac := if At(s, whole) == '.' then DigitsEnd(s, whole + 1, base) else whole;
    var marked := At(s, frac) == exponent || At(s, frac) as int == exponent as int - 32;
    var digits := SkipSign(s, frac + 1);
    if marked && IsDigit(At(s, digits)) then DigitsEnd(s, digits, 10) else frac
  }

  /** The `(n-char-sequence)` that may follow "nan". */
  function NanEnd(s: Bytes, i: nat): nat {
    if At(s, i) != '(' then i
    else
      var close := NanChars(s, i + 1);
      if At(s, close) == ')' then close + 1 else i
  }

  function NanChars(s: Bytes, i: nat): nat
    decreases |s| - i
  {
    if i < |s| && (DigitValue(s[i]) < 36 || s[i] == '_') then NanChars(s, i + 1) else i
  }

  /** Where `strtod` stops; 0 when nothing was converted. */
  function StrtodEnd(s: Bytes): nat {
    var i := SkipSign(s, SkipSpaces(s, 0));
    var hex := DigitValue(At(s, i + 2)) < 16 || (At(s, i + 2) == '.' && DigitValue(At(s, i + 3)) < 16);
    if HexPrefix(s, i) && hex then FloatEnd(s, i + 2, 16, 'p')
    else if IsDigit(At(s, i)) || (At(s, i) == '.' && IsDigit(At(s, i + 1))) then FloatEnd(s, i, 10, 'e')
    else if IgnoringCaseAt(s, i, "infinity") then i + 8
    else if IgnoringCaseAt(s, i, "inf") then i + 3
    else if IgnoringCaseAt(s, i, "nan") then NanEnd(s, i + 3)
    else 0
  }

  /** `_strtol` of src/cstr.c: base 0, and binary numbers with the prefix "0b". */
  function StrtolAny(s: Bytes): (int, nat) {
    var c := SkipSpaces(s, 0);
    if At(s, c) == '0' && (At(s, c + 1) == 'b' || At(s, c + 1) == 'B') then
      assert c + 2 <= |s|;
      var (v, end) := Strtol(s[c + 2..], 2);
      (v, if end == 0 then c + 1 else c + 2 + end)
    else
      Strtol(s, 0)
  }

  /** What `cstr_to_number` makes of the text: the text of a double is kept, not its value. */
  datatype Number = Integer(n: int) | Floating(lexeme: Bytes)

  /** `cstr_to_number(s, false, &end)` */
  function ToNumber(s: Bytes): Option<(Number, nat)> {
    var dend := StrtodEnd(s);
    var (l, lend) := StrtolAny(s);
    if dend == 0 then None
    else if dend <= lend then Some((Integer(l), lend))
    else Some((Floating(s[..Min(dend, |s|)]), dend))
  }

  /** `strtod` never runs past the text. */
  lemma StrtodEndInside(s: Bytes)
    ensures StrtodEnd(s) <= |s|
  {
    hide FloatEnd;
    hide NanEnd;
    hide HexPrefix;
    hide DigitValue;
    hide SkipSpaces;
    hide SkipSign;
    hide IgnoringCaseAt;
    var i := SkipSign(s, SkipSpaces(s, 0));
    SignInside(s);
    HexInside(s, i);
    WordInside(s, i, "infinity");
    WordInside(s, i, "inf");
    WordInside(s, i, "nan");
    NanEndInside(s, i + 3);
    FloatEndInside(s, i + 2, 16, 'p');
    FloatEndInside(s, i, 10, 'e');
  }

  lemma SignInside(s: Bytes)
    ensures SkipSign(s, SkipSpaces(s, 0)) <= |s|
  {
  }

  lemma HexInside(s: Bytes, i: nat)
    ensures HexPrefix(s, i) ==> i + 2 <= |s|
  {
  }

  lemma WordInside(s: Bytes, i: nat, word: Bytes)
    ensures IgnoringCaseAt(s, i, word) ==> i + |word| <= |s|
  {
  }

  lemma NanEndInside(s: Bytes, i: nat)
    ensures i <= |s| ==> NanEnd(s, i) <= |s|
  {
    NanCharsInside(s, i + 1);
    hide NanChars;
  }

  lemma FloatEndInside(s: Bytes, i: nat, base: nat, exponent: byte)
    ensures i <= |s| ==> FloatEnd(s, i, base, exponent) <= |s|
  {
  }

  lemma {:induction false} NanCharsInside(s: Bytes, i: nat)
    ensures i <= |s| ==> NanChars(s, i) <= |s|
    decreases |s| - i
  {
    if i < |s| {
      NanCharsInside(s, i + 1);
    }
  }

  lemma StrtolAnyInside(s: Bytes)
    ensures StrtolAny(s).1 <= |s| && IsLong(StrtolAny(s).0)
  {
  }

  /** The number that was recognised is not empty and lies inside the text. */
  lemma ToNumberInside(s: Bytes)
    ensures ToNumber(s).Some? ==>
              && 1 <= ToNumber(s).value.1 <= |s|
              && (ToNumber(s).value.0.Integer? ==> IsLong(ToNumber(s).value.0.n))
  {
    StrtodEndInside(s);
    StrtolAnyInside(s);
  }

  // ---- decimal text -------------------------------------------------------------------

  function Digit(d: nat): byte
    requires d < 10
  {
    ToByte('0' as int + d)
  }

  /** `%lu` */
  function DecNat(n: nat): (s: Bytes)
    ensures s != [] && forall i :: 0 <= i < |s| ==> IsDigit(s[i])
  {
    if n < 10 then [Digit(n)] else DecNat(n / 10) + [Digit(n % 10)]
  }

  /** `%li` */
  function Dec(n: int): (s: Bytes)
    ensures s != [] && (IsDigit(s[0]) || s[0] == '-')
    ensures NulFree(s)
  {
    if n < 0 then "-" + DecNat(-n) else DecNat(n)
  }

  lemma {:induction false} DecNatValue(n: nat)
    ensures ValueOf(DecNat(n), 10) == n
    ensures n > 0 ==> DecNat(n)[0] != '0'
  {
    if n < 10 {
      assert DecNat(n) == [Digit(n)] && DecNat(n)[..0] == [];
      assert ValueOf([], 10) == 0;
    } else {
      DecNatValue(n / 10);
      assert DecNat(n)[..|DecNat(n)| - 1] == DecNat(n / 10);
    }
  }

  /** Bytes that cannot continue a number: they may follow a printed integer. */
  predicate EndsNumber(s: Bytes) {
    s == [] || IsSpace(s[0]) || s[0] == ',' || s[0] == ']' || s[0] == '}'
  }

  lemma {:induction false} DigitsEndAt(s: Bytes, i: nat, e: nat, base: nat)
    requires i <= e <= |s|
    requires forall k :: i <= k < e ==> DigitValue(s[k]) < base
    requires e == |s| || DigitValue(s[e]) >= base
    ensures DigitsEnd(s, i, base) == e
    decreases e - i
  {
    if i < e {
      DigitsEndAt(s, i + 1, e, base);
    }
  }

  /** Bytes that are no part of a number, the terminator included. */
  predicate Delimits(c: byte) {
    c == NUL || IsSpace(c) || c == ',' || c == ']' || c == '}'
  }

  /** The decisions of both scanners on digits behind an optional minus. */
  lemma Shape(sign: Bytes, digits: Bytes, rest: Bytes, s: Bytes, j: nat, e: nat)
    requires sign == [] || sign == "-"
    requires digits != [] && forall k :: 0 <= k < |digits| ==> IsDigit(digits[k])
    requires EndsNumber(rest) && s == sign + (digits + rest)
    requires j == |sign| && e == j + |digits|
    ensures e <= |s| && s[j..e] == digits && s[j] == digits[0]
    ensures forall k :: j <= k < e ==> IsDigit(s[k])
    ensures sign != [] ==> s[0] == '-'
    ensures Delimits(At(s, e))
  {
    AtBehind(sign, digits + rest, 0);
    AtBehind(digits, rest, 0);
    AtBehind(sign, digits + rest, |digits|);
    assert s[j..e] == digits;
    assert forall k :: j <= k < e ==> s[k] == digits[k - j];
  }

  lemma NothingSkipped(s: Bytes, j: nat)
    requires s != []
    requires if j == 0 then IsDigit(s[0]) else j == 1 && s[0] == '-'
    ensures SkipSpaces(s, 0) == 0 && SkipSign(s, 0) == j
    ensures At(s, 0) == '-' <==> j == 1
  {
  }

  lemma StrtodEndsBehind(sign: Bytes, m: nat, rest: Bytes, s: Bytes, j: nat, e: nat)
    requires sign == [] || sign == "-"
    requires EndsNumber(rest) && s == sign + (DecNat(m) + rest)
    requires j == |sign| && e == j + |DecNat(m)|
    ensures StrtodEnd(s) == e
  {
    Shape(sign, DecNat(m), rest, s, j, e);
    NothingSkipped(s, j);
    DigitsEndAt(s, j, e, 10);
    assert IsDigit(At(s, j + 1)) || Delimits(At(s, j + 1));
    assert !HexPrefix(s, j);
    assert FloatEnd(s, j, 10, 'e') == e;
  }

  lemma StrtolReads(sign: Bytes, m: int, rest: Bytes, s: Bytes, j: nat, e: nat)
    requires m >= 0
    requires sign == [] || sign == "-"
    requires EndsNumber(rest) && s == sign + (DecNat(m) + rest)
    requires j == |sign| && e == j + |DecNat(m)|
    requires IsLong(if sign == [] then m else -m)
    ensures StrtolAny(s) == (if sign == [] then m else -m, e)
  {
    Shape(sign, DecNat(m), rest, s, j, e);
    NothingSkipped(s, j);
    DecNatValue(m);
    assert IsDigit(At(s, j + 1)) || Delimits(At(s, j + 1));
    assert !HexPrefix(s, j);
    if m == 0 {
      assert s[j..e] == DecNat(0) == "0" && "0"[..0] == [];
      assert ValueOf("0", 8) == 0;
      DigitsEndAt(s, j, e, 8);
      StrtolAt(s, 0, j, e, 8);
    } else {
      DigitsEndAt(s, j, e, 10);
      StrtolAt(s, 0, j, e, 10);
    }
  }

  /** `strtol` on digits right behind the sign. */
  lemma StrtolAt(s: Bytes, base: nat, j: nat, e: nat, radix: nat)
    requires SkipSpaces(s, 0) == 0 && SkipSign(s, 0) == j && ((base == 0 && !HexPrefix(s, j)) || base == 10)
    requires radix == if base != 0 then base else if At(s, j) == '0' then 8 else 10
    requires j < e <= |s| && DigitsEnd(s, j, radix) == e
    ensures IsLong(if At(s, 0) == '-' then 0 - ValueOf(s[j..e], radix) else ValueOf(s[j..e], radix)) ==>
              Strtol(s, base) == (if At(s, 0) == '-' then 0 - ValueOf(s[j..e], radix) else ValueOf(s[j..e], radix), e)
  {
    hide DigitsEnd;
    hide SkipSpaces;
    hide SkipSign;
    hide ValueOf;
    hide HexPrefix;
    hide DigitValue;
  }

  /** Digits in front of a byte that is no digit, read in base 10. */
  lemma DecNatStrtol(n: nat, rest: Bytes)
    requires n <= LONG_MAX && EndsNumber(rest)
    ensures Strtol(DecNat(n) + rest, 10) == (n, |DecNat(n)|)
  {
    var s, e := DecNat(n) + rest, |DecNat(n)|;
    hide Strtol;
    hide ValueOf;
    EmptyFront(DecNat(n) + rest);
    Shape([], DecNat(n), rest, s, 0, e);
    NothingSkipped(s, 0);
    DecNatValue(n);
    hide DecNat;
    DigitsEndAt(s, 0, e, 10);
    hide DigitsEnd;
    StrtolAt(s, 10, 0, e, 10);
  }

  /** A printed integer is read back as that integer. */
  lemma DecReadBack(n: int, rest: Bytes)
    requires IsLong(n) && EndsNumber(rest)
    ensures ToNumber(Dec(n) + rest) == Some((Integer(n), |Dec(n)|))
  {
    var s, m, sign: Bytes := Dec(n) + rest, if n < 0 then -n else n, if n < 0 then "-" else [];
    assert s == sign + (DecNat(m) + rest);
    StrtodEndsBehind(sign, m, rest, s, |sign|, |Dec(n)|);
    StrtolReads(sign, m, rest, s, |sign|, |Dec(n)|);
  }

  // ---- no number holds a backslash -----------------------------------------------------

  predicate Plain(s: Bytes, a: nat, b: nat) {
    forall k :: a <= k < b && k < |s| ==> s[k] != '\\'
  }

  lemma {:induction false} SpacesPlain(s: Bytes, i: nat)
    ensures Plain(s, i, SkipSpaces(s, i))
    decreases |s| - i
  {
    if i < |s| && IsSpace(s[i]) {
      SpacesPlain(s, i + 1);
    }
  }

  lemma {:induction false} NanCharsPlain(s: Bytes, i: nat)
    ensures i <= NanChars(s, i) && Plain(s, i, NanChars(s, i))
    decreases |s| - i
  {
    if i < |s| && (DigitValue(s[i]) < 36 || s[i] == '_') {
      NanCharsPlain(s, i + 1);
    }
  }

  lemma NanPlain(s: Bytes, i: nat)
    ensures i <= NanEnd(s, i) && Plain(s, i, NanEnd(s, i))
  {
    hide NanChars;
    NanCharsPlain(s, i + 1);
  }

  lemma DigitsPlain(s: Bytes, i: nat, base: nat)
    requires base <= 36
    ensures Plain(s, i, DigitsEnd(s, i, base))
  {
  }

  lemma FloatPlain(s: Bytes, i: nat, base: nat, exponent: byte)
    requires base <= 36 && (exponent == 'e' || exponent == 'p')
    ensures i <= FloatEnd(s, i, base, exponent) && Plain(s, i, FloatEnd(s, i, base, exponent))
  {
    hide DigitsEnd;
    hide DigitValue;
    var whole := DigitsEnd(s, i, base);
    var frac := if At(s, whole) == '.' then DigitsEnd(s, whole + 1, base) else whole;
    DigitsPlain(s, i, base);
    DigitsPlain(s, whole + 1, base);
    DigitsPlain(s, SkipSign(s, frac + 1), 10);
  }

  lemma WordPlain(s: Bytes, i: nat, word: Bytes)
    requires IgnoringCaseAt(s, i, word) && forall k :: 0 <= k < |word| ==> 'a' <= word[k] <= 'z'
    ensures Plain(s, i, i + |word|)
  {
    forall k | i <= k < i + |word|
      ensures s[k] != '\\'
    {
      assert s[i + (k - i)] == word[k - i] || 'A' <= s[i + (k - i)] <= 'Z';
    }
  }

  lemma StrtodPlain(s: Bytes)
    ensures Plain(s, 0, StrtodEnd(s))
  {
    hide FloatEnd;
    hide NanEnd;
    hide DigitValue;
    hide SkipSpaces;
    hide IgnoringCaseAt;
    var i := SkipSign(s, SkipSpaces(s, 0));
    SpacesPlain(s, 0);
    FloatPlain(s, i + 2, 16, 'p');
    FloatPlain(s, i, 10, 'e');
    NanPlain(s, i + 3);
    if IgnoringCaseAt(s, i, "infinity") {
      WordPlain(s, i, "infinity");
    }
    if IgnoringCaseAt(s, i, "inf") {
      WordPlain(s, i, "inf");
    }
    if IgnoringCaseAt(s, i, "nan") {
      WordPlain(s, i, "nan");
    }
  }

  lemma StrtolPlain(s: Bytes, base: nat)
    requires base <= 36
    ensures Plain(s, 0, Strtol(s, base).1)
  {
    hide ValueOf;
    hide DigitValue;
    hide SkipSpaces;
    hide DigitsEnd;
    var i := SkipSpaces(s, 0);
    var j := SkipSign(s, i);
    SpacesPlain(s, 0);
    DigitsPlain(s, j, 8);
    DigitsPlain(s, j, 10);
    DigitsPlain(s, j, 16);
    DigitsPlain(s, j + 2, 16);
    DigitsPlain(s, j, base);
  }

  lemma StrtolAnyPlain(s: Bytes)
    ensures Plain(s, 0, StrtolAny(s).1)
  {
    hide Strtol;
    hide SkipSpaces;
    var c := SkipSpaces(s, 0);
    SpacesPlain(s, 0);
    StrtolPlain(s, 0);
    if At(s, c) == '0' && (At(s, c + 1) == 'b' || At(s, c + 1) == 'B') {
      var t := s[c + 2..];
      StrtolPlain(t, 2);
      assert forall k :: c + 2 <= k < |s| ==> s[k] == t[k - c - 2];
    }
  }

  lemma NumberPlain(s: Bytes)
    ensures ToNumber(s).Some? ==> Plain(s, 0, ToNumber(s).value.1)
  {
    hide StrtodEnd;
    hide StrtolAny;
    StrtodPlain(s);
    StrtolAnyPlain(s);
  }
}
