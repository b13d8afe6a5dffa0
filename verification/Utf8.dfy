/** The UTF-8 measuring loop of src/cstr.c and the encoder inside `cstr_unrepr`. */
module Utf8 {
  import opened Bytes

  predicate IsContinuation(c: byte) {
    c as int / 64 == 2
  }

  /**
   * Counts the continuation bytes that the leading bits of `first` ask for.
   * `bit` is the weight of the next leading bit, `len` the bytes counted so far;
   * 0 means that a continuation byte is missing.
   */
  function LeadingRun(s: Bytes, first: nat, bit: nat, len: nat): nat
    decreases bit
  {
    if bit == 0 || first / bit % 2 == 0 then len
    else if !IsContinuation(At(s, len)) then 0
    else LeadingRun(s, first, bit / 2, len + 1)
  }

  /** `_check_utf8_seq`: the length of the sequence that `s` points to, 0 if it is broken. */
  function SeqLen(s: Bytes): nat {
    var first := At(s, 0) as int;
    if first < 0x80 then 1 else LeadingRun(s, first, 64, 1)
  }

  /** The loop: testing bit 0x40 after k left shifts of the first byte is testing bit 0x40 >> k. */
  method CheckUtf8Seq(s: Bytes) returns (len: nat)
    ensures len == SeqLen(s)
  {
    var first := At(s, 0) as int;
    if first < 0x80 {
      return 1;
    }
    len := 1;
    var bit: nat := 0x40;
    while bit != 0 && first / bit % 2 != 0
      invariant LeadingRun(s, first, bit, len) == SeqLen(s)
      decreases bit
    {
      if !IsContinuation(At(s, len)) {
        return 0;
      }
      bit := bit / 2;
      len := len + 1;
    }
  }

  /** A measured sequence lies in front of the terminator: a terminator continues nothing. */
  lemma {:induction false} LeadingRunInside(s: Bytes, first: nat, bit: nat, len: nat)
    requires len <= |s|
    ensures LeadingRun(s, first, bit, len) <= |s|
    ensures LeadingRun(s, first, bit, len) == 0 || LeadingRun(s, first, bit, len) >= len
    ensures forall k :: len <= k < LeadingRun(s, first, bit, len) ==> IsContinuation(At(s, k))
    decreases bit
  {
    if bit != 0 && first / bit % 2 != 0 && IsContinuation(At(s, len)) {
      LeadingRunInside(s, first, bit / 2, len + 1);
    }
  }

  lemma SeqLenInside(s: Bytes)
    requires s != []
    ensures SeqLen(s) <= |s|
    ensures forall k :: 1 <= k < SeqLen(s) ==> IsContinuation(s[k])
    ensures SeqLen(s) > 1 ==> s[0] as int >= 0xC0
  {
    LeadingRunInside(s, s[0] as int, 64, 1);
  }

  /** How many bytes a first byte asks for: one more than the ones behind its highest bit. */
  function Asked(first: byte): nat {
    if first as int < 0xC0 then 1
    else if first as int < 0xE0 then 2
    else if first as int < 0xF0 then 3
    else if first as int < 0xF8 then 4
    else if first as int < 0xFC then 5
    else if first as int < 0xFE then 6
    else if first as int < 0xFF then 7
    else 8
  }

  /** The bits of `first` from `bit` down to the first 0. */
  function Ones(first: nat, bit: nat): nat
    decreases bit
  {
    if bit == 0 || first / bit % 2 == 0 then 0 else 1 + Ones(first, bit / 2)
  }

  lemma {:induction false} RunIs(s: Bytes, first: nat, bit: nat, len: nat)
    requires len > 0
    ensures var n := len + Ones(first, bit);
            LeadingRun(s, first, bit, len) == if forall k :: len <= k < n ==> IsContinuation(At(s, k)) then n else 0
    decreases bit
  {
    if bit != 0 && first / bit % 2 != 0 && IsContinuation(At(s, len)) {
      RunIs(s, first, bit / 2, len + 1);
    }
  }

  lemma HighBits(n: nat)
    requires 0x80 <= n < 0x100
    ensures n / 64 % 2 == 0 <==> n < 0xC0
    ensures n >= 0xC0 ==> (n / 32 % 2 == 0 <==> n < 0xE0)
    ensures n >= 0xE0 ==> (n / 16 % 2 == 0 <==> n < 0xF0)
    ensures n >= 0xF0 ==> (n / 8 % 2 == 0 <==> n < 0xF8)
  {
  }

  lemma LowBits(n: nat)
    requires 0xF8 <= n < 0x100
    ensures n / 4 % 2 == 0 <==> n < 0xFC
    ensures n >= 0xFC ==> (n / 2 % 2 == 0 <==> n < 0xFE)
    ensures n >= 0xFE ==> (n / 1 % 2 == 0 <==> n < 0xFF)
  {
  }

  lemma OnesStep(first: nat, bit: nat)
    ensures bit > 0 ==> Ones(first, bit) == if first / bit % 2 == 0 then 0 else 1 + Ones(first, bit / 2)
    ensures Ones(first, 0) == 0
  {
  }

  lemma OnesAre(c: byte)
    requires c as int >= 0x80
    ensures Ones(c as int, 64) == Asked(c) - 1
  {
    var n := c as int;
    hide Ones;
    HighBits(n);
    OnesStep(n, 64);
    OnesStep(n, 32);
    OnesStep(n, 16);
    OnesStep(n, 8);
    if n >= 0xF8 {
      LowBits(n);
      OnesStep(n, 4);
      OnesStep(n, 2);
      OnesStep(n, 1);
    }
  }

  /**
   * Main result: the measure is what the first byte asks for if that many bytes follow as
   * 0x80 to 0xBF, and 0 otherwise; a byte from 0x80 to 0xBF in front asks for nothing.
   */
  lemma SeqLenMeaning(s: Bytes)
    requires s != []
    ensures var n := Asked(s[0]);
            SeqLen(s) == if n <= |s| && forall k :: 1 <= k < n ==> 0x80 <= s[k] as int < 0xC0 then n else 0
  {
    var n := Asked(s[0]);
    if s[0] as int >= 0x80 {
      RunIs(s, s[0] as int, 64, 1);
      OnesAre(s[0]);
      hide LeadingRun;
      hide Ones;
      hide Asked;
      assert forall k :: 1 <= k < |s| ==> At(s, k) == s[k];
      assert n > |s| > 0 ==> !IsContinuation(At(s, |s|));
    }
  }

  /** What follows a measured sequence does not change its measure. */
  lemma {:induction false} LeadingRunLocal(a: Bytes, b: Bytes, c: Bytes, first: nat, bit: nat, len: nat)
    requires 1 <= len <= |a| == LeadingRun(a + b, first, bit, len)
    ensures LeadingRun(a + c, first, bit, len) == |a|
    decreases bit
  {
    if bit != 0 && first / bit % 2 != 0 {
      LeadingRunInside(a + b, first, bit / 2, len + 1);
      AtBehind(a, b, len);
      AtBehind(a, c, len);
      LeadingRunLocal(a, b, c, first, bit / 2, len + 1);
    }
  }

  lemma SeqLenLocal(a: Bytes, b: Bytes, c: Bytes)
    requires |a| > 0 && |a| == SeqLen(a + b)
    ensures SeqLen(a + c) == |a|
  {
    assert (a + b)[0] == a[0] == (a + c)[0];
    if a[0] as int >= 0x80 {
      LeadingRunLocal(a, b, c, a[0] as int, 64, 1);
    }
  }

  /** `cstr_is_utf8` */
  predicate IsUtf8(s: Bytes)
    decreases |s|
  {
    s == [] ||
    (SeqLen(s) != 0 && (SeqLenInside(s); IsUtf8(s[SeqLen(s)..])))
  }

  method CstrIsUtf8(cstr: Bytes) returns (ok: bool)
    ensures ok == IsUtf8(cstr)
  {
    hide IsUtf8;
    hide SeqLen;
    var i := 0;
    assert cstr[0..] == cstr;
    while i < |cstr|
      invariant i <= |cstr|
      invariant IsUtf8(cstr) == IsUtf8(cstr[i..])
    {
      IsUtf8From(cstr, i);
      var len := CheckUtf8Seq(cstr[i..]);
      if len == 0 {
        return false;
      }
      i := i + len;
    }
    IsUtf8None();
    assert cstr[i..] == [];
    return true;
  }

  lemma IsUtf8None()
    ensures IsUtf8([])
  {
  }

  lemma IsUtf8From(s: Bytes, i: nat)
    requires i < |s|
    ensures i + SeqLen(s[i..]) <= |s|
    ensures IsUtf8(s[i..]) <==> SeqLen(s[i..]) != 0 && IsUtf8(s[i + SeqLen(s[i..])..])
  {
    hide SeqLen;
    SeqLenInside(s[i..]);
    DropDrop(s, i, SeqLen(s[i..]));
  }

  /** One measured sequence in front of accepted text is accepted. */
  lemma IsUtf8Cons(unit: Bytes, rest: Bytes)
    requires unit != [] && SeqLen(unit + rest) == |unit|
    ensures IsUtf8(unit + rest) == IsUtf8(rest)
  {
    assert (unit + rest)[|unit|..] == rest;
  }

  /** The bytes that `cstr_unrepr` emits for `\uXXXX` (src/cstr.c:205-219). */
  function Encode(u: nat): Bytes
    requires u < 0x10000
  {
    if u < 0x80 then
      [ToByte(u)]
    else if u < 0x800 then
      [ToByte(0xC0 + u / 64), ToByte(0x80 + u % 64)]
    else
      [ToByte(0xE0 + u / 4096), ToByte(0x80 + u / 64 % 64), ToByte(0x80 + u % 64)]
  }

  /** Section 3 of RFC 3629 for sequences of one to three octets; surrogates are no characters. */
  ghost predicate DecodesTo(s: Bytes, u: nat) {
    u < 0x10000 && !(0xD800 <= u < 0xE000) &&
    match |s|
    case 1 => u < 0x80 && s[0] as int == u
    case 2 =>
      && 0x80 <= u < 0x800
      && s[0] as int / 32 == 6 && IsContinuation(s[1])
      && u == s[0] as int % 32 * 64 + s[1] as int % 64
    case 3 =>
      && 0x800 <= u
      && s[0] as int / 16 == 14 && IsContinuation(s[1]) && IsContinuation(s[2])
      && u == s[0] as int % 16 * 4096 + s[1] as int % 64 * 64 + s[2] as int % 64
    case _ => false
  }

  /** Every encoded character but a surrogate decodes to itself. */
  lemma EncodeDecodes(u: nat)
    requires u < 0x10000
    ensures DecodesTo(Encode(u), u) <==> !(0xD800 <= u < 0xE000)
  {
    if u >= 0x800 {
      SplitBits(u);
      DecodesThree(Encode(u), u, u / 4096, u / 64 % 64, u % 64);
    } else if u >= 0x80 {
      DecodesTwo(Encode(u), u, u / 64, u % 64);
    }
  }

  lemma DecodesThree(s: Bytes, u: nat, x: nat, y: nat, z: nat)
    requires x < 16 && y < 64 && z < 64 && 0x800 <= u == x * 4096 + y * 64 + z
    requires s == [ToByte(0xE0 + x), ToByte(0x80 + y), ToByte(0x80 + z)]
    ensures DecodesTo(s, u) <==> !(0xD800 <= u < 0xE000)
  {
    Payload(x, y);
    Payload(x, z);
    assert s[0] as int == 0xE0 + x && s[1] as int == 0x80 + y && s[2] as int == 0x80 + z;
  }

  lemma DecodesTwo(s: Bytes, u: nat, x: nat, y: nat)
    requires x < 32 && y < 64 && 0x80 <= u == x * 64 + y
    requires s == [ToByte(0xC0 + x), ToByte(0x80 + y)]
    ensures DecodesTo(s, u)
  {
    Payload(x, y);
    assert s[0] as int == 0xC0 + x && s[1] as int == 0x80 + y;
  }

  /** `_check_utf8_seq` measures every encoded character exactly, whatever follows it. */
  lemma EncodeMeasured(u: nat, rest: Bytes)
    requires u < 0x10000
    ensures SeqLen(Encode(u) + rest) == |Encode(u)|
  {
    var s := Encode(u) + rest;
    if u >= 0x800 {
      MeasuredThree(s, u / 4096, u / 64 % 64, u % 64);
    } else if u >= 0x80 {
      MeasuredTwo(s, u / 64, u % 64);
    }
  }

  lemma MeasuredThree(s: Bytes, x: nat, y: nat, z: nat)
    requires x < 16 && y < 64 && z < 64
    requires |s| >= 3 && s[0] == ToByte(0xE0 + x) && s[1] == ToByte(0x80 + y) && s[2] == ToByte(0x80 + z)
    ensures SeqLen(s) == 3
  {
    LeadBits(x);
    assert LeadingRun(s, 0xE0 + x, 16, 3) == 3;
    assert LeadingRun(s, 0xE0 + x, 32, 2) == 3;
  }

  lemma MeasuredTwo(s: Bytes, x: nat, y: nat)
    requires x < 32 && y < 64
    requires |s| >= 2 && s[0] == ToByte(0xC0 + x) && s[1] == ToByte(0x80 + y)
    ensures SeqLen(s) == 2
  {
    LeadBits(x);
    assert LeadingRun(s, 0xC0 + x, 32, 2) == 2;
  }

  lemma Payload(x: nat, y: nat)
    ensures x < 16 ==> (0xE0 + x) / 16 == 14 && (0xE0 + x) % 16 == x
    ensures x < 32 ==> (0xC0 + x) / 32 == 6 && (0xC0 + x) % 32 == x
    ensures y < 64 ==> (0x80 + y) / 64 == 2 && (0x80 + y) % 64 == y
  {
  }

  lemma SplitBits(u: nat)
    ensures u == u / 4096 * 4096 + u / 64 % 64 * 64 + u % 64
  {
    assert u / 64 / 64 == u / 4096;
  }

  lemma LeadBits(x: nat)
    ensures x < 16 ==> (0xE0 + x) / 64 % 2 == 1 && (0xE0 + x) / 32 % 2 == 1 && (0xE0 + x) / 16 % 2 == 0
    ensures x < 32 ==> (0xC0 + x) / 64 % 2 == 1 && (0xC0 + x) / 32 % 2 == 0
  {
  }
}
