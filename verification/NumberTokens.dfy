/** What becomes of the numbers that a text spells: src/cstr.c:365-410 on the tokens of JSON and of C. */
module NumberTokens {
  import opened Bytes
  import opened Numbers

  predicate AllDigits(s: Bytes) {
    s != [] && forall k :: 0 <= k < |s| ==> IsDigit(s[k])
  }

  predicate IsFraction(s: Bytes) {
    s == [] || (s[0] == '.' && AllDigits(s[1..]))
  }

  predicate IsExponent(s: Bytes) {
    || s == []
    || ((s[0] == 'e' || s[0] == 'E')
        && |s| > 1 && AllDigits(if s[1] == '+' || s[1] == '-' then s[2..] else s[1..]))
  }

  /** Minus, digits, fraction and exponent, where the last two may be empty. */
  datatype Token = Token(minus: bool, digits: Bytes, fraction: Bytes, exponent: Bytes)

  predicate WellSpelt(t: Token) {
    AllDigits(t.digits) && IsFraction(t.fraction) && IsExponent(t.exponent)
  }

  /** The grammar of section 6 of RFC 8259, which knows no leading zeros. */
  predicate IsJsonNumber(t: Token) {
    WellSpelt(t) && (|t.digits| > 1 ==> t.digits[0] != '0')
  }

  predicate IsWhole(t: Token) {
    t.fraction == [] && t.exponent == []
  }

  function Sign(minus: bool): Bytes {
    if minus then "-" else []
  }

  function TokenText(t: Token): Bytes {
    Sign(t.minus) + (t.digits + (t.fraction + t.exponent))
  }

  /** The text of a number with a fraction or an exponent, or infinity or NaN behind a minus. */
  ghost predicate IsFloatText(s: Bytes) {
    || (exists t: Token :: WellSpelt(t) && !IsWhole(t) && s == TokenText(t))
    || (exists word :: IsWord(word) && s == "-" + word)
  }

  /** Conversion to `long`: `strtol` saturates. */
  function Saturated(n: int): int {
    if n < LONG_MIN then LONG_MIN else if n > LONG_MAX then LONG_MAX else n
  }

  predicate IsNumberByte(c: byte) {
    IsDigit(c) || c == '-' || c == '+' || c == '.' || c == 'e' || c == 'E'
  }

  predicate NumberBytes(s: Bytes) {
    forall k :: 0 <= k < |s| ==> IsNumberByte(s[k])
  }

  lemma NumberBytesJoin(a: Bytes, b: Bytes)
    requires NumberBytes(a) && NumberBytes(b)
    ensures NumberBytes(a + b)
  {
    hide IsNumberByte;
  }

  lemma FractionBytes(x: Bytes)
    requires IsFraction(x)
    ensures NumberBytes(x)
  {
    assert forall k :: 1 <= k < |x| ==> x[k] == x[1..][k - 1];
  }

  lemma ExponentBytes(y: Bytes)
    requires IsExponent(y)
    ensures NumberBytes(y)
  {
    if y != [] {
      var n := if y[1] == '+' || y[1] == '-' then 2 else 1;
      assert forall k :: n <= k < |y| ==> y[k] == y[n..][k - n];
    }
  }

  lemma NoQuotes(s: Bytes)
    requires NumberBytes(s)
    ensures NulFree(s) && forall k :: 0 <= k < |s| ==> s[k] != '"' && s[k] != '\\'
  {
  }

  /** The bytes of a number. */
  lemma TokenBytes(t: Token)
    requires WellSpelt(t)
    ensures var s := TokenText(t);
            && s != [] && (IsDigit(s[0]) || s[0] == '-') && NulFree(s)
            && forall k :: 0 <= k < |s| ==> s[k] != '"' && s[k] != '\\'
  {
    hide NumberBytes;
    TokenFirst(t);
    PartBytes(t);
    NumberBytesJoin(t.fraction, t.exponent);
    NumberBytesJoin(t.digits, t.fraction + t.exponent);
    NumberBytesJoin(Sign(t.minus), t.digits + (t.fraction + t.exponent));
    NoQuotes(TokenText(t));
  }

  lemma PartBytes(t: Token)
    requires WellSpelt(t)
    ensures NumberBytes(Sign(t.minus)) && NumberBytes(t.digits)
    ensures NumberBytes(t.fraction) && NumberBytes(t.exponent)
  {
    FractionBytes(t.fraction);
    ExponentBytes(t.exponent);
    hide IsFraction;
    hide IsExponent;
  }

  lemma TokenFirst(t: Token)
    requires WellSpelt(t)
    ensures var s := TokenText(t); s != [] && (IsDigit(s[0]) || s[0] == '-')
  {
    hide IsFraction;
    hide IsExponent;
    hide IsDigit;
    var tail := t.fraction + t.exponent;
    assert (t.digits + tail)[0] == t.digits[0];
    hide TokenText;
    TokenIs(t, tail);
  }

  lemma TokenIs(t: Token, tail: Bytes)
    requires tail == t.fraction + t.exponent && t.digits != []
    ensures TokenText(t) != [] && TokenText(t)[0] == if t.minus then '-' else t.digits[0]
  {
    assert (t.digits + tail)[0] == t.digits[0];
  }

  // ---- where the parts are -------------------------------------------------------------

  lemma Piece(front: Bytes, mid: Bytes, tail: Bytes, s: Bytes, i: nat, n: nat)
    requires s == front + (mid + tail) && i == |front| && n == i + |mid|
    ensures n <= |s| && s[i..n] == mid && s[..n] == front + mid && s[n..] == tail
    ensures forall k :: i <= k < n ==> s[k] == mid[k - i]
  {
  }

  lemma Regroup(a: Bytes, b: Bytes, c: Bytes, d: Bytes, rest: Bytes)
    ensures a + (b + (c + d)) + rest == a + (b + (c + (d + rest)))
    ensures a + (b + (c + (d + rest))) == a + b + (c + (d + rest))
    ensures a + b + (c + (d + rest)) == a + b + c + (d + rest)
    ensures a + (b + (c + d)) == a + b + c + d
  {
    Assoc(c, d, rest);
    Assoc(b, c + d, rest);
    Assoc(a, b + (c + d), rest);
    Assoc(a, b, c + (d + rest));
    Assoc(a + b, c, d + rest);
    Assoc(a, b, c + d);
    Assoc(a + b, c, d);
  }

  /** The parts of a token in front of text that ends it. */
  lemma Parts(t: Token, rest: Bytes, s: Bytes, j: nat, e: nat, f: nat, g: nat)
    requires WellSpelt(t) && EndsNumber(rest) && s == TokenText(t) + rest
    requires j == |Sign(t.minus)| && e == j + |t.digits| && f == e + |t.fraction| && g == f + |t.exponent|
    ensures g == |TokenText(t)| <= |s| && s[..g] == TokenText(t) && s[j..e] == t.digits
    ensures forall k :: j <= k < e ==> s[k] == t.digits[k - j]
    ensures forall k :: e <= k < f ==> s[k] == t.fraction[k - e]
    ensures forall k :: f <= k < g ==> s[k] == t.exponent[k - f]
    ensures Delimits(At(s, g)) && (t.minus ==> s[0] == '-')
  {
    hide WellSpelt;
    hide IsFraction;
    hide IsExponent;
    hide EndsNumber;
    hide Delimits;
    var sign, d, x, y := Sign(t.minus), t.digits, t.fraction, t.exponent;
    Regroup(sign, d, x, y, rest);
    Piece([], sign, d + (x + (y + rest)), s, 0, j);
    EmptyFront(s);
    Piece(sign, d, x + (y + rest), s, j, e);
    Piece(sign + d, x, y + rest, s, e, f);
    Piece(sign + d + x, y, rest, s, f, g);
    EndIs(s, rest, g);
  }

  lemma EndIs(s: Bytes, rest: Bytes, g: nat)
    requires EndsNumber(rest) && g <= |s| && s[g..] == rest
    ensures Delimits(At(s, g))
  {
    assert g < |s| ==> s[g..][0] == s[g];
  }

  /** What a scanner meets behind the digits. */
  predicate Behind(s: Bytes, j: nat, e: nat, f: nat, g: nat) {
    && j < e <= f <= g <= |s| && (forall k :: j <= k < e ==> IsDigit(s[k]))
    && (if e < f then s[e] == '.' && e + 1 < f && (forall k :: e < k < f ==> IsDigit(s[k])) else true)
    && (if f < g then
          && (s[f] == 'e' || s[f] == 'E')
          && var d := SkipSign(s, f + 1); d < g && forall k :: d <= k < g ==> IsDigit(s[k])
        else true)
    && Delimits(At(s, g))
  }

  lemma PartsBehind(t: Token, rest: Bytes, s: Bytes, j: nat, e: nat, f: nat, g: nat)
    requires WellSpelt(t) && EndsNumber(rest) && s == TokenText(t) + rest
    requires j == |Sign(t.minus)| && e == j + |t.digits| && f == e + |t.fraction| && g == f + |t.exponent|
    ensures Behind(s, j, e, f, g)
  {
    Parts(t, rest, s, j, e, f, g);
    if e < f {
      assert forall k :: 0 <= k < |t.fraction| - 1 ==> t.fraction[1..][k] == t.fraction[k + 1];
      assert forall k :: e < k < f ==> s[k] == t.fraction[1..][k - e - 1];
    }
    if f < g {
      ExponentPlaces(t.exponent, s, f, g);
    }
  }

  lemma ExponentPlaces(x: Bytes, s: Bytes, f: nat, g: nat)
    requires x != [] && IsExponent(x) && g == f + |x| <= |s|
    requires forall k :: f <= k < g ==> s[k] == x[k - f]
    ensures s[f] == 'e' || s[f] == 'E'
    ensures var d := SkipSign(s, f + 1); d < g && forall k :: d <= k < g ==> IsDigit(s[k])
  {
    var n := if x[1] == '+' || x[1] == '-' then 2 else 1;
    assert s[f + 1] == x[1];
    forall k | f + n <= k < g
      ensures IsDigit(s[k])
    {
      assert x[n..][k - f - n] == x[k - f];
    }
  }

  // ---- both scanners -------------------------------------------------------------------

  lemma FloatEnds(s: Bytes, j: nat, e: nat, f: nat, g: nat)
    requires Behind(s, j, e, f, g)
    ensures FloatEnd(s, j, 10, 'e') == g
  {
    hide DigitsEnd;
    hide DigitValue;
    WholeEnds(s, j, e, f, g);
    FractionEnds(s, j, e, f, g);
    if f < g {
      ExponentEnds(s, j, e, f, g);
    }
  }

  lemma WholeEnds(s: Bytes, j: nat, e: nat, f: nat, g: nat)
    requires Behind(s, j, e, f, g)
    ensures DigitsEnd(s, j, 10) == e && (At(s, e) == '.' <==> e < f)
  {
    DigitsEndAt(s, j, e, 10);
  }

  lemma FractionEnds(s: Bytes, j: nat, e: nat, f: nat, g: nat)
    requires Behind(s, j, e, f, g)
    ensures e < f ==> DigitsEnd(s, e + 1, 10) == f
    ensures (At(s, f) == 'e' || At(s, f) == 'E') <==> f < g
  {
    if e < f {
      DigitsEndAt(s, e + 1, f, 10);
    }
  }

  lemma ExponentEnds(s: Bytes, j: nat, e: nat, f: nat, g: nat)
    requires Behind(s, j, e, f, g) && f < g
    ensures IsDigit(At(s, SkipSign(s, f + 1))) && DigitsEnd(s, SkipSign(s, f + 1), 10) == g
  {
    DigitsEndAt(s, SkipSign(s, f + 1), g, 10);
  }

  lemma NoPrefix(s: Bytes, j: nat, e: nat, f: nat, g: nat)
    requires Behind(s, j, e, f, g)
    ensures IsDigit(s[j])
    ensures At(s, j + 1) != 'x' && At(s, j + 1) != 'X' && At(s, j + 1) != 'b' && At(s, j + 1) != 'B'
  {
  }

  lemma StrtodEnds(s: Bytes, j: nat, e: nat, f: nat, g: nat)
    requires Behind(s, j, e, f, g) && (if j == 0 then true else j == 1 && s[0] == '-')
    ensures StrtodEnd(s) == g
  {
    NoPrefix(s, j, e, f, g);
    NothingSkipped(s, j);
    FloatEnds(s, j, e, f, g);
    hide FloatEnd;
    hide SkipSpaces;
    hide SkipSign;
  }

  /** `strtol` in base 0 without the prefix of a base. */
  lemma BaseZero(s: Bytes, j: nat, radix: nat)
    requires SkipSpaces(s, 0) == 0 && SkipSign(s, 0) == j && !HexPrefix(s, j)
    requires radix == if At(s, j) == '0' then 8 else 10
    ensures var e := DigitsEnd(s, j, radix);
            if e == j then Strtol(s, 0) == (0, 0)
            else
              var v: int := ValueOf(s[j..e], radix);
              Strtol(s, 0) == (Saturated(if At(s, 0) == '-' then -v else v), e)
  {
    hide DigitsEnd;
    hide SkipSpaces;
    hide SkipSign;
    hide ValueOf;
    hide HexPrefix;
    hide DigitValue;
  }

  lemma NotBinary(s: Bytes, j: nat)
    requires SkipSpaces(s, 0) == 0 && j <= 1 && (j == 1 ==> At(s, 0) == '-')
    requires j == 0 ==> At(s, 1) != 'b' && At(s, 1) != 'B'
    ensures StrtolAny(s) == Strtol(s, 0)
  {
    hide Strtol;
  }

  lemma DigitsWithin(s: Bytes, j: nat, e: nat, f: nat, g: nat, radix: nat)
    requires Behind(s, j, e, f, g) && radix == if s[j] == '0' then 8 else 10
    ensures j < DigitsEnd(s, j, radix) <= e
  {
    assert At(s, e) == NUL || DigitValue(s[e]) >= 10;
  }

  /** The integer scanner stops inside the digits, and behind them when all belong to its base. */
  lemma StrtolEnds(s: Bytes, j: nat, e: nat, f: nat, g: nat, radix: nat)
    requires Behind(s, j, e, f, g) && (if j == 0 then true else j == 1 && s[0] == '-')
    requires radix == if s[j] == '0' then 8 else 10
    ensures StrtolAny(s).1 == DigitsEnd(s, j, radix) <= e
    ensures DigitsEnd(s, j, radix) == e ==>
              var v: int := ValueOf(s[j..e], radix);
              StrtolAny(s) == (Saturated(if j == 1 then -v else v), e)
  {
    NoPrefix(s, j, e, f, g);
    NothingSkipped(s, j);
    DigitsWithin(s, j, e, f, g, radix);
    HexFree(s, j);
    hide Strtol;
    hide StrtolAny;
    hide ValueOf;
    hide DigitsEnd;
    hide SkipSpaces;
    hide SkipSign;
    hide HexPrefix;
    BaseZero(s, j, radix);
    NotBinary(s, j);
  }

  lemma HexFree(s: Bytes, j: nat)
    requires At(s, j + 1) != 'x' && At(s, j + 1) != 'X'
    ensures !HexPrefix(s, j)
  {
  }

  // ---- results -------------------------------------------------------------------------

  /**
   * Main result: a number with a fraction or an exponent, leading zeros or not, is recognised as
   * such and whole, in front of everything that ends a number.
   */
  lemma FloatRead(t: Token, rest: Bytes)
    requires WellSpelt(t) && !IsWhole(t) && EndsNumber(rest)
    ensures ToNumber(TokenText(t) + rest) == Some((Floating(TokenText(t)), |TokenText(t)|))
  {
    hide *;
    var s, j := TokenText(t) + rest, |Sign(t.minus)|;
    var e := j + |t.digits|;
    var f := e + |t.fraction|;
    var g := f + |t.exponent|;
    Parts(t, rest, s, j, e, f, g);
    PartsBehind(t, rest, s, j, e, f, g);
    WholeStops(t, e, g);
    SignIs(t.minus);
    FloatTaken(s, j, e, f, g);
  }

  lemma SignIs(minus: bool)
    ensures |Sign(minus)| == if minus then 1 else 0
  {
  }

  lemma WholeStops(t: Token, e: nat, g: nat)
    requires !IsWhole(t) && e + |t.fraction| + |t.exponent| == g
    ensures e < g
  {
  }

  lemma FloatTaken(s: Bytes, j: nat, e: nat, f: nat, g: nat)
    requires Behind(s, j, e, f, g) && (if j == 0 then true else j == 1 && s[0] == '-') && e < g
    ensures ToNumber(s) == Some((Floating(s[..g]), g))
  {
    StrtodEnds(s, j, e, f, g);
    StrtolEnds(s, j, e, f, g, if s[j] == '0' then 8 else 10);
    hide StrtodEnd;
    hide StrtolAny;
    hide Behind;
    assert 0 < g <= |s|;
  }

  function Value(t: Token, base: nat): int {
    var v: int := ValueOf(t.digits, base);
    Saturated(if t.minus then -v else v)
  }

  /** What a token without fraction and exponent is, by how far the integer scanner gets. */
  lemma WholeRead(t: Token, rest: Bytes, radix: nat)
    requires WellSpelt(t) && IsWhole(t) && EndsNumber(rest) && radix == if t.digits[0] == '0' then 8 else 10
    ensures ToNumber(TokenText(t) + rest) ==
            if forall k :: 0 <= k < |t.digits| ==> DigitValue(t.digits[k]) < radix then
              Some((Integer(Value(t, radix)), |TokenText(t)|))
            else
              Some((Floating(TokenText(t)), |TokenText(t)|))
  {
    hide *;
    var s, j := TokenText(t) + rest, |Sign(t.minus)|;
    var e := j + |t.digits|;
    SignPlaces(t, e);
    Parts(t, rest, s, j, e, e, e);
    PartsBehind(t, rest, s, j, e, e, e);
    WholeTaken(s, j, e, t.digits, radix);
  }

  lemma SignPlaces(t: Token, e: nat)
    requires WellSpelt(t) && IsWhole(t) && e == |Sign(t.minus)| + |t.digits|
    ensures |TokenText(t)| == e && |Sign(t.minus)| == if t.minus then 1 else 0
    ensures t.digits != [] && t.fraction == [] && t.exponent == []
    ensures forall radix ::
              Value(t, radix) == Saturated(if t.minus then 0 - ValueOf(t.digits, radix) else ValueOf(t.digits, radix))
  {
  }

  lemma WholeTaken(s: Bytes, j: nat, e: nat, digits: Bytes, radix: nat)
    requires Behind(s, j, e, e, e) && (if j == 0 then true else j == 1 && s[0] == '-')
    requires digits != [] && digits == s[j..e] && e == j + |digits|
    requires forall k :: j <= k < e ==> s[k] == digits[k - j]
    requires radix == if digits[0] == '0' then 8 else 10
    ensures ToNumber(s) ==
            if forall k :: 0 <= k < |digits| ==> DigitValue(digits[k]) < radix then
              Some((Integer(Saturated(if j == 1 then 0 - ValueOf(digits, radix) else ValueOf(digits, radix))), e))
            else
              Some((Floating(s[..e]), e))
  {
    hide Behind;
    hide ValueOf;
    hide StrtodEnd;
    hide StrtolAny;
    hide DigitsEnd;
    hide DigitValue;
    BehindInside(s, j, e);
    StrtodEnds(s, j, e, e, e);
    StrtolEnds(s, j, e, e, e, radix);
    DigitsAll(s, j, e, digits, radix);
  }

  lemma BehindInside(s: Bytes, j: nat, e: nat)
    requires Behind(s, j, e, e, e)
    ensures j < e <= |s|
  {
  }

  lemma DigitsAll(s: Bytes, j: nat, e: nat, digits: Bytes, radix: nat)
    requires j < e <= |s| && e == j + |digits| && DigitsEnd(s, j, radix) <= e
    requires forall k :: j <= k < e ==> s[k] == digits[k - j]
    ensures DigitsEnd(s, j, radix) == e <==> forall k :: 0 <= k < |digits| ==> DigitValue(digits[k]) < radix
  {
    var end := DigitsEnd(s, j, radix);
    hide DigitsEnd;
    hide DigitValue;
    if end == e {
      forall k | 0 <= k < |digits|
        ensures DigitValue(digits[k]) < radix
      {
        assert s[j + k] == digits[j + k - j];
      }
    } else {
      assert DigitValue(s[end]) >= radix && s[end] == digits[end - j];
    }
  }

  /** Main result: a whole number without leading zeros is an integer in base 10, cut to the range of `long`. */
  lemma DecimalRead(t: Token, rest: Bytes)
    requires IsJsonNumber(t) && IsWhole(t) && EndsNumber(rest)
    ensures ToNumber(TokenText(t) + rest) == Some((Integer(Value(t, 10)), |TokenText(t)|))
  {
    hide *;
    var radix := if t.digits != [] && t.digits[0] == '0' then 8 else 10;
    JsonDigits(t, radix);
    WholeRead(t, rest, radix);
  }

  lemma JsonDigits(t: Token, radix: nat)
    requires IsJsonNumber(t) && radix == if t.digits != [] && t.digits[0] == '0' then 8 else 10
    ensures WellSpelt(t) && t.digits != [] && Value(t, radix) == Value(t, 10)
    ensures forall k :: 0 <= k < |t.digits| ==> DigitValue(t.digits[k]) < radix
  {
    if t.digits[0] == '0' {
      assert t.digits == "0" && "0"[..0] == [];
      assert ValueOf("0", 8) == ValueOf("0", 10) == 0;
    }
  }

  /** With leading zeros it is octal, and counts as a double when one of its digits is not. */
  lemma ZeroLedRead(t: Token, rest: Bytes)
    requires WellSpelt(t) && IsWhole(t) && t.digits[0] == '0' && EndsNumber(rest)
    ensures ToNumber(TokenText(t) + rest) ==
            if forall k :: 0 <= k < |t.digits| ==> t.digits[k] < '8' then
              Some((Integer(Value(t, 8)), |TokenText(t)|))
            else
              Some((Floating(TokenText(t)), |TokenText(t)|))
  {
    WholeRead(t, rest, 8);
    assert forall k :: 0 <= k < |t.digits| ==> (DigitValue(t.digits[k]) < 8 <==> t.digits[k] < '8');
    hide TokenText;
    hide ToNumber;
    hide DigitValue;
  }

  /** Main result: of the numbers of JSON exactly those without fraction and exponent are integers. */
  lemma NumberKind(t: Token, rest: Bytes)
    requires IsJsonNumber(t) && EndsNumber(rest)
    ensures var r := ToNumber(TokenText(t) + rest);
            r.Some? && r.value.1 == |TokenText(t)| && (r.value.0.Integer? <==> IsWhole(t))
  {
    if IsWhole(t) {
      DecimalRead(t, rest);
    } else {
      FloatRead(t, rest);
    }
  }

  /** Hexadecimal integers, with the prefix of C. */
  lemma HexRead(minus: bool, x: byte, digits: Bytes, rest: Bytes)
    requires (x == 'x' || x == 'X') && digits != [] && EndsNumber(rest)
    requires forall k :: 0 <= k < |digits| ==> DigitValue(digits[k]) < 16
    ensures var tok := Sign(minus) + (['0', x] + digits); var v: int := ValueOf(digits, 16);
            ToNumber(tok + rest) == Some((Integer(Saturated(if minus then -v else v)), |tok|))
  {
    var sign, mark := Sign(minus), ['0', x];
    var tok := sign + (mark + digits);
    var s, j, e := tok + rest, |sign|, |tok|;
    hide ToNumber;
    hide ValueOf;
    hide DigitValue;
    hide Sign;
    hide EndsNumber;
    hide Delimits;
    Regroup(sign, mark, digits, [], rest);
    Assoc(mark, digits, []);
    NothingBehind(digits, rest);
    EmptyFront(s);
    SignIs(minus);
    Piece([], sign, mark + (digits + rest), s, 0, j);
    Piece(sign, mark, digits + rest, s, j, j + 2);
    Piece(sign + mark, digits, rest, s, j + 2, e);
    EndIs(s, rest, e);
    SignFirst(minus, s);
    HexPlaces(s, j, e, digits);
  }

  lemma NothingBehind(digits: Bytes, rest: Bytes)
    ensures digits + [] == digits && [] + rest == rest
  {
  }

  lemma SignFirst(minus: bool, s: Bytes)
    requires |Sign(minus)| <= |s| && s[..|Sign(minus)|] == Sign(minus)
    ensures minus ==> s[0] == '-'
  {
    if minus {
      assert s[..1][0] == '-';
    }
  }

  lemma HexPlaces(s: Bytes, j: nat, e: nat, digits: Bytes)
    requires (if j == 0 then true else j == 1 && s != [] && s[0] == '-') && j + 2 < e <= |s|
    requires s[j] == '0' && (s[j + 1] == 'x' || s[j + 1] == 'X') && s[j + 2..e] == digits && Delimits(At(s, e))
    requires forall k :: j + 2 <= k < e ==> DigitValue(s[k]) < 16
    ensures var v: int := ValueOf(digits, 16);
            ToNumber(s) == Some((Integer(Saturated(if j == 1 then -v else v)), e))
  {
    NothingSkipped(s, j);
    assert HexPrefix(s, j) && DigitValue(At(s, j + 2)) < 16;
    DigitsEndAt(s, j + 2, e, 16);
    assert FloatEnd(s, j + 2, 16, 'p') == e;
    hide DigitsEnd;
    hide FloatEnd;
    hide SkipSpaces;
    hide SkipSign;
    hide ValueOf;
    hide DigitValue;
    hide HexPrefix;
    assert StrtodEnd(s) == e;
    NotBinary(s, j);
  }

  predicate IsHexDigit(c: byte) {
    IsDigit(c) || 'a' <= c <= 'f' || 'A' <= c <= 'F'
  }

  /** The places of a hexadecimal number: digits up to `e`, a fraction up to `f` and a binary exponent up to `g`. */
  predicate HexFloatAt(s: Bytes, j: nat, e: nat, f: nat, g: nat) {
    && j + 2 < e <= f <= g <= |s| && s[j] == '0' && (s[j + 1] == 'x' || s[j + 1] == 'X')
    && (forall k :: j + 2 <= k < e ==> IsHexDigit(s[k]))
    && (e < f ==> s[e] == '.' && forall k :: e < k < f ==> IsHexDigit(s[k]))
    && (f < g ==>
          && (s[f] == 'p' || s[f] == 'P')
          && var d := SkipSign(s, f + 1); d < g && forall k :: d <= k < g ==> IsDigit(s[k]))
    && Delimits(At(s, g))
  }

  /** Hexadecimal numbers with a fraction or an exponent are doubles, those without are integers (see HexRead). */
  lemma HexFloatRead(s: Bytes, j: nat, e: nat, f: nat, g: nat)
    requires (if j == 0 then true else j == 1 && s != [] && s[0] == '-') && HexFloatAt(s, j, e, f, g) && e < g
    ensures ToNumber(s) == Some((Floating(s[..g]), g))
  {
    HexEnds(s, j, e, f, g);
    HexStarts(s, j, e, f, g);
    NotBinary(s, j);
    hide FloatEnd;
    hide DigitsEnd;
    hide ValueOf;
    hide SkipSpaces;
    hide HexFloatAt;
    hide IgnoringCaseAt;
    assert StrtodEnd(s) == g;
    assert Strtol(s, 0).1 == e;
  }

  lemma HexStarts(s: Bytes, j: nat, e: nat, f: nat, g: nat)
    requires (if j == 0 then true else j == 1 && s != [] && s[0] == '-') && HexFloatAt(s, j, e, f, g)
    ensures SkipSpaces(s, 0) == 0 && SkipSign(s, 0) == j && HexPrefix(s, j) && DigitValue(At(s, j + 2)) < 16
    ensures j == 0 ==> At(s, 1) != 'b' && At(s, 1) != 'B'
    ensures j == 1 ==> At(s, 0) == '-'
    ensures j + 2 < e <= f <= g <= |s|
  {
    NothingSkipped(s, j);
    assert IsHexDigit(s[j + 2]);
  }

  lemma HexEnds(s: Bytes, j: nat, e: nat, f: nat, g: nat)
    requires HexFloatAt(s, j, e, f, g)
    ensures DigitsEnd(s, j + 2, 16) == e && FloatEnd(s, j + 2, 16, 'p') == g
  {
    hide DigitsEnd;
    hide DigitValue;
    hide HexFloatAt;
    HexWholeEnds(s, j, e, f, g);
    HexFractionEnds(s, j, e, f, g);
    if f < g {
      HexExponentEnds(s, j, e, f, g);
    }
  }

  lemma HexWholeEnds(s: Bytes, j: nat, e: nat, f: nat, g: nat)
    requires HexFloatAt(s, j, e, f, g)
    ensures DigitsEnd(s, j + 2, 16) == e <= f <= g
  {
    DigitsEndAt(s, j + 2, e, 16);
  }

  lemma HexExponentEnds(s: Bytes, j: nat, e: nat, f: nat, g: nat)
    requires HexFloatAt(s, j, e, f, g) && f < g
    ensures IsDigit(At(s, SkipSign(s, f + 1))) && DigitsEnd(s, SkipSign(s, f + 1), 10) == g
  {
    DigitsEndAt(s, SkipSign(s, f + 1), g, 10);
  }

  lemma HexFractionEnds(s: Bytes, j: nat, e: nat, f: nat, g: nat)
    requires HexFloatAt(s, j, e, f, g)
    ensures At(s, e) == '.' <==> e < f
    ensures e < f ==> DigitsEnd(s, e + 1, 16) == f
    ensures (At(s, f) == 'p' || At(s, f) == 'P') <==> f < g
  {
    if e < f {
      DigitsEndAt(s, e + 1, f, 16);
    }
  }

  /** Binary integers, which C does not know: the prefix "0b". */
  lemma BinaryRead(b: byte, digits: Bytes, rest: Bytes)
    requires (b == 'b' || b == 'B') && digits != [] && EndsNumber(rest)
    requires forall k :: 0 <= k < |digits| ==> digits[k] == '0' || digits[k] == '1'
    ensures var tok := ['0', b] + digits;
            ToNumber(tok + rest) == Some((Integer(Saturated(ValueOf(digits, 2))), |tok|))
  {
    var s, t, n := ['0', b] + digits + rest, digits + rest, |digits|;
    hide ToNumber;
    hide ValueOf;
    assert s[2..] == t && t[0..n] == digits && t[n..] == rest;
    assert forall k :: 0 <= k < n ==> t[k] == digits[k];
    EndIs(t, rest, n);
    NothingSkipped(t, 0);
    DigitsEndAt(t, 0, n, 2);
    BinaryPlaces(s, t, n, digits);
  }

  /** The prefix "0b" without a digit, sign or blank behind it is the number 0 and its first character. */
  lemma BinaryPrefixOnly(b: byte, rest: Bytes)
    requires (b == 'b' || b == 'B') && var c := At(rest, 0); !IsDigit(c) && !IsSpace(c) && c != '-' && c != '+'
    ensures ToNumber(['0', b] + rest) == Some((Integer(0), 1))
  {
    var s := ['0', b] + rest;
    assert s[2..] == rest;
    NothingSkipped(s, 0);
    DigitsEndAt(s, 0, 1, 10);
    assert StrtodEnd(s) == 1;
    hide StrtodEnd;
    assert Strtol(rest, 2) == (0, 0);
  }

  lemma BinaryPlaces(s: Bytes, t: Bytes, n: nat, digits: Bytes)
    requires |s| > 2 && s[0] == '0' && (s[1] == 'b' || s[1] == 'B') && t == s[2..] && 0 < n <= |t|
    requires SkipSpaces(t, 0) == 0 && SkipSign(t, 0) == 0 && At(t, 0) != '-'
    requires DigitsEnd(t, 0, 2) == n && t[0..n] == digits
    ensures ToNumber(s) == Some((Integer(Saturated(ValueOf(digits, 2))), 2 + n))
  {
    NothingSkipped(s, 0);
    hide ValueOf;
    assert Strtol(t, 2) == (Saturated(ValueOf(digits, 2)), n);
    DigitsEndAt(s, 0, 1, 10);
    assert StrtodEnd(s) == 1;
    hide Strtol;
    hide StrtodEnd;
  }

  /** The words of `strtod`, in any case. */
  predicate IsWord(word: Bytes) {
    || (|word| == 3 && (IgnoringCaseAt(word, 0, "inf") || IgnoringCaseAt(word, 0, "nan")))
    || (|word| == 8 && IgnoringCaseAt(word, 0, "infinity"))
  }

  /** Infinity and NaN, which JSON does not know, are doubles behind a minus. */
  lemma WordRead(word: Bytes, rest: Bytes)
    requires IsWord(word) && EndsNumber(rest)
    ensures ToNumber("-" + word + rest) == Some((Floating("-" + word), 1 + |word|))
  {
    var minus: Bytes := "-";
    var s, n := minus + word + rest, 1 + |word|;
    assert s[..n] == minus + word && s[n..] == rest;
    EndIs(s, rest, n);
    assert forall k :: 0 <= k < |word| ==> s[1 + k] == word[k];
    NothingSkipped(s, 1);
    WordPlaces(s, word);
    hide IgnoringCaseAt;
    assert DigitValue(At(s, 1)) >= 10;
    assert StrtodEnd(s) == n;
    NotBinary(s, 1);
    HexFree(s, 1);
    assert Strtol(s, 0) == (0, 0);
  }

  predicate Either(c: byte, low: byte, high: byte) {
    c == low || c == high
  }

  /** The letters of the words at a place. */
  lemma LettersAt(s: Bytes, i: nat)
    ensures IgnoringCaseAt(s, i, "inf") <==>
              i + 3 <= |s| && Either(s[i], 'i', 'I') && Either(s[i + 1], 'n', 'N') && Either(s[i + 2], 'f', 'F')
    ensures IgnoringCaseAt(s, i, "nan") <==>
              i + 3 <= |s| && Either(s[i], 'n', 'N') && Either(s[i + 1], 'a', 'A') && Either(s[i + 2], 'n', 'N')
    ensures IgnoringCaseAt(s, i, "infinity") ==>
              i + 8 <= |s| && IgnoringCaseAt(s, i, "inf") && Either(s[i + 3], 'i', 'I')
  {
    LetterAt(s, i, "inf");
    LetterAt(s, i, "nan");
    LetterAt(s, i, "infinity");
    assert forall k :: 0 <= k < 3 ==> "infinity"[k] == "inf"[k];
  }

  predicate LetterIs(c: byte, low: byte) {
    c == low || ('A' <= c <= 'Z' && c as int + 32 == low as int)
  }

  lemma LetterAt(s: Bytes, i: nat, word: Bytes)
    requires |word| >= 3
    ensures |word| == 3 ==>
              (IgnoringCaseAt(s, i, word) <==>
               && i + 3 <= |s|
               && LetterIs(s[i], word[0]) && LetterIs(s[i + 1], word[1]) && LetterIs(s[i + 2], word[2]))
    ensures |word| > 3 && IgnoringCaseAt(s, i, word) ==>
              && i + |word| <= |s|
              && LetterIs(s[i], word[0]) && LetterIs(s[i + 1], word[1]) && LetterIs(s[i + 2], word[2])
              && LetterIs(s[i + 3], word[3])
  {
    if i + |word| <= |s| {
      assert s[i + 0] == s[i];
    }
  }

  lemma WordPlaces(s: Bytes, word: Bytes)
    requires IsWord(word) && 1 + |word| <= |s| && forall k :: 0 <= k < |word| ==> s[1 + k] == word[k]
    requires Delimits(At(s, 1 + |word|))
    ensures At(s, 1) != '0' && At(s, 1) != '.' && At(s, 2) != 'x' && At(s, 2) != 'X' && DigitValue(At(s, 1)) >= 10
    ensures if |word| == 8 then IgnoringCaseAt(s, 1, "infinity")
            else !IgnoringCaseAt(s, 1, "infinity") && (IgnoringCaseAt(s, 1, "inf") || IgnoringCaseAt(s, 1, "nan"))
    ensures At(s, 1 + |word|) != '('
  {
    LettersAt(word, 0);
    LettersAt(s, 1);
    hide IgnoringCaseAt;
    if |word| == 8 {
      assert IgnoringCaseAt(s, 1, "infinity") by {
        LongWordAt(s, word);
      }
    }
  }

  lemma LongWordAt(s: Bytes, word: Bytes)
    requires |word| == 8 && IgnoringCaseAt(word, 0, "infinity") && 9 <= |s|
    requires forall k :: 0 <= k < |word| ==> s[1 + k] == word[k]
    ensures IgnoringCaseAt(s, 1, "infinity")
  {
    forall k | 0 <= k < 8
      ensures LetterIs(s[1 + k], "infinity"[k])
    {
      assert word[0 + k] == word[k];
    }
  }

  /** Main result: such text is read as a double of exactly this text. */
  lemma FloatTextRead(s: Bytes, rest: Bytes)
    requires IsFloatText(s) && EndsNumber(rest)
    ensures s != [] && (IsDigit(s[0]) || s[0] == '-') && NulFree(s)
    ensures forall k :: 0 <= k < |s| ==> s[k] != '"' && s[k] != '\\'
    ensures ToNumber(s + rest) == Some((Floating(s), |s|))
  {
    hide TokenText;
    hide ToNumber;
    hide WellSpelt;
    if t: Token :| WellSpelt(t) && !IsWhole(t) && s == TokenText(t) {
      FloatRead(t, rest);
      TokenBytes(t);
    } else {
      var word :| IsWord(word) && s == "-" + word;
      WordRead(word, rest);
      WordLetters(word);
      assert forall k :: 1 <= k < |s| ==> s[k] == word[k - 1];
    }
  }

  lemma WordLetters(word: Bytes)
    requires IsWord(word)
    ensures forall k :: 0 <= k < |word| ==> 'a' <= word[k] <= 'z' || 'A' <= word[k] <= 'Z'
  {
    LetterRange(word, "inf");
    LetterRange(word, "nan");
    LetterRange(word, "infinity");
  }

  lemma LetterRange(word: Bytes, low: Bytes)
    requires forall k :: 0 <= k < |low| ==> 'a' <= low[k] <= 'z'
    ensures IgnoringCaseAt(word, 0, low) ==>
              forall k :: 0 <= k < |low| ==> 'a' <= word[k] <= 'z' || 'A' <= word[k] <= 'Z'
  {
    if IgnoringCaseAt(word, 0, low) {
      forall k | 0 <= k < |low|
        ensures 'a' <= word[k] <= 'z' || 'A' <= word[k] <= 'Z'
      {
        assert 'a' <= low[k] <= 'z';
        assert word[0 + k] == word[k];
      }
    }
  }

  /** Main result: which text that begins with a digit or a minus is taken for a number at all. */
  lemma NumberIff(s: Bytes)
    requires s != [] && (IsDigit(s[0]) || s[0] == '-')
    ensures ToNumber(s).Some? <==>
              || IsDigit(s[0]) || IsDigit(At(s, 1)) || (At(s, 1) == '.' && IsDigit(At(s, 2)))
              || IgnoringCaseAt(s, 1, "inf") || IgnoringCaseAt(s, 1, "nan")
  {
    var j := if s[0] == '-' then 1 else 0;
    NothingSkipped(s, j);
    FloatLonger(s, j, 10, 'e');
    FloatLonger(s, j + 2, 16, 'p');
    NanLonger(s, j + 3);
    LettersAt(s, j);
    hide FloatEnd;
    hide NanEnd;
    hide IgnoringCaseAt;
    hide StrtolAny;
  }

  lemma FloatLonger(s: Bytes, i: nat, base: nat, exponent: byte)
    requires base >= 10
    ensures FloatEnd(s, i, base, exponent) >= i
    ensures IsDigit(At(s, i)) || (At(s, i) == '.' && IsDigit(At(s, i + 1))) ==> FloatEnd(s, i, base, exponent) > i
  {
  }

  lemma NanLonger(s: Bytes, i: nat)
    ensures NanEnd(s, i) >= i
  {
    CharsLonger(s, i + 1);
    hide NanChars;
  }

  lemma {:induction false} CharsLonger(s: Bytes, i: nat)
    ensures NanChars(s, i) >= i
    decreases |s| - i
  {
    if i < |s| {
      CharsLonger(s, i + 1);
    }
  }
}
