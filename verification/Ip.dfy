/** Network addresses of src/ip.c: masks, classification and the conversion to IPv6. */
module Ip {

  datatype Family = Unspec | Inet | Inet6

  const NO_PREFIXLEN: nat := 255

  /** `ip_size` */
  function Size(family: Family): nat {
    match family
    case Inet => 4
    case Inet6 => 16
    case Unspec => 0
  }

  /** `ip_max_prefixlen` */
  function MaxPrefix(family: Family): nat {
    8 * Size(family)
  }

  /** `/` and `%` of C truncate towards zero. */
  function CDiv(a: int, b: int): int
    requires b > 0
  {
    if a < 0 then -((-a) / b) else a / b
  }

  function CMod(a: int, b: int): int
    requires b > 0
  {
    a - CDiv(a, b) * b
  }

  // ---- one byte ------------------------------------------------------------------------

  /** `(1 << bits) - 1` */
  function BitMask(bits: nat): bv8
    requires bits <= 7
  {
    ((1 as bv8) << bits) - 1
  }

  function Fill(inverted: bool): bv8 {
    if inverted then 0xFF else 0x00
  }

  /** `_mask_bits` */
  function MaskBits(mask: bv8, b: bv8, inverted: bool): bv8 {
    if inverted then b | mask else b & !mask
  }

  /** `_check_bits`; `_check_bytes` is the same with a full mask. */
  predicate CheckBits(mask: bv8, b: bv8, inverted: bool) {
    (b ^ Fill(inverted)) & mask == 0
  }

  function Pow2(n: nat): (p: nat)
    ensures p > 0
  {
    if n == 0 then 1 else 2 * Pow2(n - 1)
  }

  /** A number whose part below the modulus is all 0 or, inverted, as large as possible. */
  function Masked(v: nat, modulus: nat, inverted: bool): nat
    requires modulus > 0
  {
    v - v % modulus + if inverted then modulus - 1 else 0
  }

  /** Masking the lowest bits of a byte, and checking whether they are masked. */
  lemma {:induction false} MaskBitsValue(b: bv8, bits: nat, inverted: bool)
    requires bits <= 7
    ensures MaskBits(BitMask(bits), b, inverted) as int == Masked(b as int, Pow2(bits), inverted)
    ensures CheckBits(BitMask(bits), b, inverted) <==> MaskBits(BitMask(bits), b, inverted) == b
  {
    hide *;
    CheckedIsMasked(BitMask(bits), b, inverted);
    if bits == 0 {
      NoBits(b, inverted);
    } else {
      var low: bv8 := if inverted then 1 else 0;
      var half := MaskBits(BitMask(bits - 1), b / 2, inverted);
      HalfMasked(b, bits, inverted);
      HalfValue(b);
      DoubleValue(half, low);
      Pow2Step(bits);
      MaskBitsValue(b / 2, bits - 1, inverted);
      MaskedHalf(b as nat, Pow2(bits - 1), inverted);
    }
  }

  lemma NoBits(b: bv8, inverted: bool)
    ensures MaskBits(BitMask(0), b, inverted) == b && Masked(b as int, Pow2(0), inverted) == b as int
  {
  }

  lemma Pow2Step(n: nat)
    requires n > 0
    ensures Pow2(n) == 2 * Pow2(n - 1)
  {
  }

  lemma CheckedIsMasked(mask: bv8, b: bv8, inverted: bool)
    ensures CheckBits(mask, b, inverted) <==> MaskBits(mask, b, inverted) == b
  {
  }

  /** A byte is masked bit by bit. */
  lemma HalfMasked(b: bv8, bits: nat, inverted: bool)
    requires 1 <= bits <= 7
    ensures MaskBits(BitMask(bits - 1), b / 2, inverted) < 128
    ensures MaskBits(BitMask(bits), b, inverted) ==
            2 * MaskBits(BitMask(bits - 1), b / 2, inverted) + if inverted then 1 else 0
  {
  }

  lemma HalfValue(b: bv8)
    ensures (b / 2) as nat == b as nat / 2
  {
  }

  lemma DoubleValue(c: bv8, low: bv8)
    requires c < 128 && low <= 1
    ensures (2 * c + low) as nat == 2 * c as nat + low as nat
  {
  }

  lemma MaskedHalf(v: nat, m: nat, inverted: bool)
    requires m > 0
    ensures Masked(v, 2 * m, inverted) == 2 * Masked(v / 2, m, inverted) + if inverted then 1 else 0
  {
    var h := v / 2;
    var q, r := h / m, h % m;
    assert q * (2 * m) == 2 * (q * m);
    ModIs(v, q, 2 * m, 2 * r + v % 2);
  }

  lemma PowersOf2()
    ensures Pow2(1) == 2 && Pow2(2) == 4 && Pow2(3) == 8 && Pow2(4) == 16
    ensures Pow2(5) == 32 && Pow2(6) == 64 && Pow2(7) == 128 && Pow2(8) == 256
  {
  }

  // ---- address bytes -------------------------------------------------------------------

  /** The address as a number, most significant byte first. */
  function Value(data: seq<bv8>): nat {
    if data == [] then 0 else Value(data[..|data| - 1]) * 256 + data[|data| - 1] as nat
  }

  /** The lowest `h` bits all 0 or, inverted, all 1: whole bytes from the end, then part of one. */
  function MaskData(data: seq<bv8>, h: nat, inverted: bool): (r: seq<bv8>)
    requires h <= 8 * |data|
    ensures |r| == |data|
  {
    var n := |data| - 1;
    if h == 0 then data
    else if h >= 8 then MaskData(data[..n], h - 8, inverted) + [Fill(inverted)]
    else data[..n] + [MaskBits(BitMask(h), data[n], inverted)]
  }

  predicate CheckData(data: seq<bv8>, h: nat, inverted: bool)
    requires h <= 8 * |data|
  {
    var n := |data| - 1;
    if h == 0 then true
    else if h >= 8 then data[n] ^ Fill(inverted) == 0 && CheckData(data[..n], h - 8, inverted)
    else CheckBits(BitMask(h), data[n], inverted)
  }

  /** Bits behind the prefix; a prefix that is longer than the address leaves none. */
  function HostBits(max: nat, prefixlen: nat): (h: nat)
    ensures h <= max
  {
    if prefixlen <= max then max - prefixlen else 0
  }

  lemma HostBitsC(max: nat, prefixlen: nat)
    ensures var h := HostBits(max, prefixlen);
            if prefixlen <= max then CDiv(max - prefixlen, 8) == h / 8 && CMod(max - prefixlen, 8) == h % 8
            else CDiv(max - prefixlen, 8) <= 0 && CMod(max - prefixlen, 8) <= 0 && h == 0
  {
  }

  /** `_for_masked_data` with the callbacks that check */
  method CheckMasked(data: array<bv8>, prefixlen: nat, inverted: bool) returns (ok: bool)
    ensures ok == CheckData(data[..], HostBits(8 * data.Length, prefixlen), inverted)
  {
    var max := 8 * data.Length;
    var maxIdx := data.Length - 1;
    var lastByte := CDiv(max - prefixlen, 8);
    ghost var h := HostBits(max, prefixlen);
    HostBitsC(max, prefixlen);
    hide CDiv;
    hide HostBits;
    var i := 0;
    assert data[..data.Length] == data[..];
    while i < lastByte
      invariant 0 <= i && (i <= lastByte || i == 0) && 8 * i <= h
      invariant CheckData(data[..], h, inverted) == CheckData(data[..data.Length - i], h - 8 * i, inverted)
    {
      assert data[..data.Length - i][..data.Length - i - 1] == data[..data.Length - i - 1];
      if data[maxIdx - i] ^ Fill(inverted) != 0 {
        return false;
      }
      i := i + 1;
    }
    var remainingBits := CMod(max - prefixlen, 8);
    if remainingBits > 0 {
      return CheckBits(BitMask(remainingBits), data[maxIdx - i], inverted);
    }
    return true;
  }

  /** Masking byte by byte from the end. */
  lemma {:induction false} MaskDataNext(data: seq<bv8>, i: nat, bits: nat, inverted: bool)
    requires i < |data| && 1 <= bits <= 8
    ensures var n := |data| - 1 - i;
            MaskData(data, 8 * i + bits, inverted) ==
            MaskData(data, 8 * i, inverted)[n := if bits == 8 then Fill(inverted)
                                                 else MaskBits(BitMask(bits), data[n], inverted)]
    ensures MaskData(data, 8 * i, inverted)[|data| - 1 - i] == data[|data| - 1 - i]
    decreases i
  {
    hide MaskBits;
    hide BitMask;
    var last := |data| - 1;
    if i == 0 {
      assert data == data[..last] + [data[last]];
    } else {
      MaskDataNext(data[..last], i - 1, bits, inverted);
    }
  }

  lemma MaskDataNone(data: seq<bv8>, inverted: bool)
    ensures MaskData(data, 0, inverted) == data
  {
  }

  /** `_for_masked_data` with the callbacks that mask */
  method MaskInPlace(data: array<bv8>, prefixlen: nat, inverted: bool)
    modifies data
    ensures data[..] == MaskData(old(data[..]), HostBits(8 * data.Length, prefixlen), inverted)
  {
    hide CDiv;
    hide CMod;
    hide HostBits;
    hide MaskData;
    hide MaskBits;
    var max := 8 * data.Length;
    var maxIdx := data.Length - 1;
    var lastByte := CDiv(max - prefixlen, 8);
    ghost var h := HostBits(max, prefixlen);
    ghost var was := data[..];
    HostBitsC(max, prefixlen);
    MaskDataNone(was, inverted);
    var i := 0;
    while i < lastByte
      invariant 0 <= i && (i <= lastByte || i == 0) && 8 * i <= h
      invariant data[..] == MaskData(was, 8 * i, inverted)
    {
      MaskDataNext(was, i, 8, inverted);
      data[maxIdx - i] := Fill(inverted);
      i := i + 1;
    }
    var remainingBits := CMod(max - prefixlen, 8);
    if remainingBits > 0 {
      MaskDataNext(was, i, remainingBits, inverted);
      data[maxIdx - i] := MaskBits(BitMask(remainingBits), data[maxIdx - i], inverted);
    }
  }

  // ---- the arithmetic of masks ---------------------------------------------------------

  lemma MaskedUp(v: nat, last: nat, m: nat, inverted: bool)
    requires last < 256 && m > 0
    ensures Masked(v, m, inverted) * 256 + (if inverted then 255 else 0) == Masked(v * 256 + last, 256 * m, inverted)
  {
    var q, r := v / m, v % m;
    ModIs(v * 256 + last, q, 256 * m, 256 * r + last);
  }

  lemma ModIs(v: nat, q: nat, m: nat, r: nat)
    requires v == q * m + r && r < m
    ensures v % m == r
  {
    var d := v / m - q;
    assert d * m == r - v % m by {
      assert v == (v / m) * m + v % m;
      assert d * m == (v / m) * m - q * m;
    }
    Multiple(d, m);
  }

  lemma Multiple(d: int, m: int)
    requires 0 - m < d * m < m
    ensures d == 0
  {
  }

  lemma MaskedLow(v: nat, last: nat, m: nat, k: nat, inverted: bool)
    requires last < 256 && m * k == 256
    ensures v * 256 + Masked(last, m, inverted) == Masked(v * 256 + last, m, inverted)
  {
    var q, r := last / m, last % m;
    assert v * 256 == v * (k * m) == (v * k) * m;
    assert v * 256 + last == (v * k + q) * m + r;
    ModIs(v * 256 + last, v * k + q, m, r);
  }

  /** Main result: masking the bytes is masking the number. */
  lemma {:induction false} MaskDataValue(data: seq<bv8>, h: nat, inverted: bool)
    requires h <= 8 * |data|
    ensures Value(MaskData(data, h, inverted)) == Masked(Value(data), Pow2(h), inverted)
    decreases |data|
  {
    hide Value;
    hide Masked;
    if h >= 8 {
      MaskDataValue(data[..|data| - 1], h - 8, inverted);
      MaskDataBytes(data, h, inverted);
    } else if h > 0 {
      MaskDataBits(data, h, inverted);
    } else {
      MaskedNone(Value(data), inverted);
    }
  }

  lemma MaskedNone(v: nat, inverted: bool)
    ensures Masked(v, 1, inverted) == v
  {
  }

  lemma MaskDataBytes(data: seq<bv8>, h: nat, inverted: bool)
    requires 8 <= h <= 8 * |data|
    requires var init := data[..|data| - 1];
             Value(MaskData(init, h - 8, inverted)) == Masked(Value(init), Pow2(h - 8), inverted)
    ensures Value(MaskData(data, h, inverted)) == Masked(Value(data), Pow2(h), inverted)
  {
    var n := |data| - 1;
    var v, last := Value(data[..n]), data[n] as nat;
    var masked := MaskData(data[..n], h - 8, inverted);
    assert MaskData(data, h, inverted) == masked + [Fill(inverted)] && Value(data) == v * 256 + last;
    assert Fill(inverted) as nat == if inverted then 255 else 0;
    hide *;
    Pow2Add(h - 8);
    MaskedUp(v, last, Pow2(h - 8), inverted);
    ValueSnoc(masked, Fill(inverted));
  }

  lemma MaskDataBits(data: seq<bv8>, h: nat, inverted: bool)
    requires 1 <= h <= 7 && h <= 8 * |data|
    ensures Value(MaskData(data, h, inverted)) == Masked(Value(data), Pow2(h), inverted)
  {
    var n := |data| - 1;
    var v, b := Value(data[..n]), MaskBits(BitMask(h), data[n], inverted);
    assert MaskData(data, h, inverted) == data[..n] + [b] && Value(data) == v * 256 + data[n] as nat;
    hide *;
    PowersSplit(h);
    MaskBitsValue(data[n], h, inverted);
    MaskedLow(v, data[n] as nat, Pow2(h), Pow2(8 - h), inverted);
    ValueSnoc(data[..n], b);
  }

  lemma PowersSplit(h: nat)
    requires 1 <= h <= 7
    ensures Pow2(h) * Pow2(8 - h) == 256
  {
    PowersOf2();
    hide *;
    assert h == 1 || h == 2 || h == 3 || h == 4 || h == 5 || h == 6 || h == 7;
  }

  lemma Pow2Add(h: nat)
    ensures Pow2(h + 8) == 256 * Pow2(h)
  {
    assert Pow2(h + 8) == 2 * Pow2(h + 7) && Pow2(h + 7) == 2 * Pow2(h + 6) && Pow2(h + 6) == 2 * Pow2(h + 5);
    assert Pow2(h + 5) == 2 * Pow2(h + 4) && Pow2(h + 4) == 2 * Pow2(h + 3) && Pow2(h + 3) == 2 * Pow2(h + 2);
    assert Pow2(h + 2) == 2 * Pow2(h + 1) && Pow2(h + 1) == 2 * Pow2(h);
  }

  lemma ValueSnoc(data: seq<bv8>, b: bv8)
    ensures Value(data + [b]) == Value(data) * 256 + b as nat
  {
    assert (data + [b])[..|data|] == data;
  }

  // ---- checks --------------------------------------------------------------------------

  /** A check holds exactly when masking would change nothing. */
  lemma {:induction false} CheckIsMask(data: seq<bv8>, h: nat, inverted: bool)
    requires h <= 8 * |data|
    ensures CheckData(data, h, inverted) <==> MaskData(data, h, inverted) == data
    decreases |data|
  {
    var n := |data| - 1;
    if h >= 8 {
      LastByte(data);
      CheckByte(data[n], inverted);
      CheckIsMask(data[..n], h - 8, inverted);
      SameEnds(MaskData(data[..n], h - 8, inverted), Fill(inverted), data[..n], data[n]);
    } else if h > 0 {
      LastByte(data);
      MaskBitsValue(data[n], h, inverted);
      SameEnds(data[..n], MaskBits(BitMask(h), data[n], inverted), data[..n], data[n]);
    }
  }

  lemma LastByte(data: seq<bv8>)
    requires data != []
    ensures data == data[..|data| - 1] + [data[|data| - 1]]
  {
  }

  lemma CheckByte(b: bv8, inverted: bool)
    ensures b ^ Fill(inverted) == 0 <==> b == Fill(inverted)
  {
  }

  lemma SameEnds(a: seq<bv8>, x: bv8, b: seq<bv8>, y: bv8)
    requires |a| == |b|
    ensures a + [x] == b + [y] <==> a == b && x == y
  {
    if a + [x] == b + [y] {
      assert (a + [x])[..|a|] == a && (b + [y])[..|b|] == b;
      assert (a + [x])[|a|] == x && (b + [y])[|b|] == y;
    }
  }

  lemma {:induction false} ValueInjective(a: seq<bv8>, b: seq<bv8>)
    requires |a| == |b| && Value(a) == Value(b)
    ensures a == b
  {
    hide *;
    if a != [] {
      var n := |a| - 1;
      ValueLast(a);
      ValueLast(b);
      ByteRange(a[n]);
      ByteRange(b[n]);
      SameDigits(Value(a[..n]), a[n] as nat, Value(b[..n]), b[n] as nat);
      ValueInjective(a[..n], b[..n]);
      ByteInjective(a[n], b[n]);
      LastByte(a);
      LastByte(b);
    }
  }

  lemma ValueLast(a: seq<bv8>)
    requires a != []
    ensures Value(a) == Value(a[..|a| - 1]) * 256 + a[|a| - 1] as nat
  {
  }

  lemma ByteRange(b: bv8)
    ensures b as nat < 256
  {
  }

  lemma SameDigits(u: nat, x: nat, v: nat, y: nat)
    requires u * 256 + x == v * 256 + y && x < 256 && y < 256
    ensures u == v && x == y
  {
  }

  lemma ByteInjective(a: bv8, b: bv8)
    requires a as nat == b as nat
    ensures a == b
  {
  }

  /** The checks in terms of the number: its host part is 0 or, inverted, as large as possible. */
  lemma CheckValue(data: seq<bv8>, h: nat, inverted: bool)
    requires h <= 8 * |data|
    ensures CheckData(data, h, inverted) <==>
            Value(data) % Pow2(h) == if inverted then Pow2(h) - 1 else 0
  {
    CheckIsMask(data, h, inverted);
    MaskDataValue(data, h, inverted);
    var v, m := Value(data), Pow2(h);
    if Masked(v, m, inverted) == v {
      ValueInjective(MaskData(data, h, inverted), data);
    }
  }

  // ---- addresses -----------------------------------------------------------------------

  datatype IpType = TypeAddr | TypeHost | TypeP2p | TypeCidrAddr | TypeNetwork | TypeBroadcast

  datatype Address = Address(family: Family, prefixlen: nat, data: seq<bv8>)

  /** The length of the data goes with the family, and the prefix length is an `uint8_t`. */
  predicate Fits(a: Address) {
    |a.data| == Size(a.family) && a.prefixlen < 256
  }

  function Host(a: Address): (h: nat)
    requires Fits(a)
    ensures h <= 8 * |a.data|
  {
    HostBits(MaxPrefix(a.family), a.prefixlen)
  }

  /** `ip_type` */
  function TypeOf(a: Address): IpType
    requires Fits(a)
  {
    if a.prefixlen == NO_PREFIXLEN then TypeAddr
    else if a.prefixlen == MaxPrefix(a.family) then TypeHost
    else if a.prefixlen == MaxPrefix(a.family) - 1 then TypeP2p
    else if CheckData(a.data, Host(a), false) then TypeNetwork
    else if CheckData(a.data, Host(a), true) then TypeBroadcast
    else TypeCidrAddr
  }

  /** `_network_of` */
  function MaskedOf(a: Address, inverted: bool): (r: Address)
    requires Fits(a)
    ensures Fits(r)
  {
    a.(data := MaskData(a.data, Host(a), inverted))
  }

  const MAPPED: seq<bv8> := [0, 0, 0, 0, 0, 0, 0, 0, 0, 0, 0xFF, 0xFF]

  /** `ip_convert_inet6` */
  function Converted(a: Address): (r: Address)
    requires Fits(a)
    ensures Fits(r)
  {
    if a.family != Inet then a
    else
      var prefixlen := if a.prefixlen == NO_PREFIXLEN then a.prefixlen else (a.prefixlen + 96) % 256;
      Address(Inet6, prefixlen, MAPPED + a.data)
  }

  class Ip {
    var family: Family
    var prefixlen: nat
    var data: array<bv8>

    ghost predicate Valid()
      reads this
    {
      data.Length == Size(family) && prefixlen < 256
    }

    ghost function Addr(): (a: Address)
      reads this, data
      requires Valid()
      ensures Fits(a)
    {
      Address(family, prefixlen, data[..])
    }

    /** `ip_init_bin` */
    constructor (family: Family, prefixlen: nat, data: seq<bv8>)
      requires |data| == Size(family) && prefixlen < 256
      ensures Valid() && fresh(this.data) && Addr() == Address(family, prefixlen, data)
    {
      this.family, this.prefixlen := family, prefixlen;
      this.data := new bv8[|data|](i requires 0 <= i < |data| => data[i]);
      new;
      assert this.data[..] == data;
    }

    /** `ip_type` */
    method Type() returns (t: IpType)
      requires Valid()
      ensures t == TypeOf(Addr())
    {
      if prefixlen == NO_PREFIXLEN {
        return TypeAddr;
      }
      var max: int := MaxPrefix(family);
      if prefixlen == max {
        return TypeHost;
      } else if prefixlen == max - 1 {
        return TypeP2p;
      }
      var inverted := false;
      var masked := CheckMasked(data, prefixlen, inverted);
      if masked {
        return TypeNetwork;
      }
      inverted := !inverted;
      masked := CheckMasked(data, prefixlen, inverted);
      return if masked then TypeBroadcast else TypeCidrAddr;
    }

    /** `ip_network_of` and, inverted, `ip_broadcast_of` */
    method NetworkOf(inverted: bool) returns (ip: Ip)
      requires Valid()
      ensures fresh(ip) && fresh(ip.data) && ip.Valid() && ip.Addr() == MaskedOf(Addr(), inverted)
    {
      ip := new Ip(family, prefixlen, data[..]);
      MaskInPlace(ip.data, ip.prefixlen, inverted);
    }

    /** `ip_convert_inet6` */
    method ConvertInet6() returns (ok: bool)
      requires Valid()
      modifies this
      ensures Valid() && Addr() == Converted(old(Addr())) && ok == (old(family) == Inet)
    {
      ok := family == Inet;
      if ok {
        family := Inet6;
        var was := data;
        var larger := new bv8[16](i requires 0 <= i < 16 && was.Length == 4 reads was => if i < 4 then was[i] else 0);
        forall k | 0 <= k < 4 {
          larger[12 + k] := larger[k];
        }
        forall k | 0 <= k < 10 {
          larger[k] := 0x00;
        }
        larger[10], larger[11] := 0xFF, 0xFF;
        data := larger;
        if prefixlen != NO_PREFIXLEN {
          prefixlen := (prefixlen + 96) % 256;
        }
        assert data[..] == MAPPED + was[..];
      }
    }
  }

  // ---- the laws ------------------------------------------------------------------------

  /** Network and broadcast addresses as numbers (section 3.1 of RFC 4632). */
  lemma MaskedValue(a: Address, inverted: bool)
    requires Fits(a)
    ensures var v, h := Value(a.data), Host(a);
            Value(MaskedOf(a, inverted).data) == v - v % Pow2(h) + if inverted then Pow2(h) - 1 else 0
    ensures a.prefixlen == NO_PREFIXLEN ==> MaskedOf(a, inverted) == a
  {
    MaskDataValue(a.data, Host(a), inverted);
  }

  /** What the classes of addresses mean. */
  lemma TypeMeaning(a: Address)
    requires Fits(a)
    ensures var v, m := Value(a.data), Pow2(Host(a));
            var max := MaxPrefix(a.family);
            var open := a.prefixlen != NO_PREFIXLEN && a.prefixlen != max && a.prefixlen != max - 1;
            && (TypeOf(a) == TypeNetwork <==> open && v % m == 0)
            && (TypeOf(a) == TypeBroadcast <==> open && v % m == m - 1 && v % m != 0)
            && (TypeOf(a) == TypeCidrAddr <==> open && v % m != 0 && v % m != m - 1)
  {
    CheckValue(a.data, Host(a), false);
    CheckValue(a.data, Host(a), true);
  }

  lemma {:induction false} PowersAre(h: nat)
    ensures Pow2(h) == 1 <==> h == 0
    ensures Pow2(h) == 2 <==> h == 1
  {
    if h > 1 {
      PowersAre(h - 1);
    }
  }

  /** The other classes: one address, two addresses, and no prefix length at all. */
  lemma SmallTypes(a: Address)
    requires Fits(a)
    ensures TypeOf(a) == TypeAddr <==> a.prefixlen == NO_PREFIXLEN
    ensures TypeOf(a) == TypeHost <==>
            a.prefixlen <= MaxPrefix(a.family) && MaskedOf(a, true) == MaskedOf(a, false)
    ensures TypeOf(a) == TypeP2p <==> Value(MaskedOf(a, true).data) == Value(MaskedOf(a, false).data) + 1
  {
    MaskedValue(a, false);
    MaskedValue(a, true);
    PowersAre(Host(a));
    NothingMasked(a);
    assert MaxPrefix(a.family) == 8 * |a.data| <= 128;
    hide MaskData;
    hide Value;
    hide Pow2;
    hide CheckData;
  }

  lemma NothingMasked(a: Address)
    requires Fits(a)
    ensures Host(a) == 0 ==> MaskedOf(a, true) == a == MaskedOf(a, false)
  {
  }

  /** A network address is one, and so is a broadcast address, with at least two host bits. */
  lemma MaskedTypes(a: Address)
    requires Fits(a) && a.prefixlen + 2 <= MaxPrefix(a.family)
    ensures TypeOf(MaskedOf(a, false)) == TypeNetwork && TypeOf(MaskedOf(a, true)) == TypeBroadcast
  {
    hide *;
    var v, m := Value(a.data), Pow2(Host(a));
    MaskedValue(a, false);
    MaskedValue(a, true);
    SomeHostBits(a);
    TypeMeaning(MaskedOf(a, false));
    TypeMeaning(MaskedOf(a, true));
    SameHost(a);
    HostPart(v, m);
  }

  lemma SomeHostBits(a: Address)
    requires Fits(a) && a.prefixlen + 2 <= MaxPrefix(a.family)
    ensures Pow2(Host(a)) >= 2
  {
  }

  lemma SameHost(a: Address)
    requires Fits(a) && a.prefixlen + 2 <= MaxPrefix(a.family)
    ensures forall inverted :: Host(MaskedOf(a, inverted)) == Host(a)
    ensures forall inverted ::
              MaskedOf(a, inverted).prefixlen == a.prefixlen && MaskedOf(a, inverted).family == a.family
    ensures a.prefixlen != NO_PREFIXLEN && MaxPrefix(a.family) <= 128
  {
  }

  lemma HostPart(v: nat, m: nat)
    requires m > 0
    ensures (v - v % m) % m == 0 && (v - v % m + (m - 1)) % m == m - 1
  {
    assert v == (v / m) * m + v % m;
    ModIs(v - v % m, v / m, m, 0);
    ModIs(v - v % m + (m - 1), v / m, m, m - 1);
  }

  // ---- conversion ----------------------------------------------------------------------

  lemma {:induction false} MaskPrefix(front: seq<bv8>, data: seq<bv8>, h: nat, inverted: bool)
    requires h <= 8 * |data|
    ensures MaskData(front + data, h, inverted) == front + MaskData(data, h, inverted)
    ensures CheckData(front + data, h, inverted) == CheckData(data, h, inverted)
    decreases |data|
  {
    if h > 0 {
      var n := |data| - 1;
      var all := front + data;
      assert all[..|all| - 1] == front + data[..n] && all[|all| - 1] == data[n];
      hide MaskBits;
      hide CheckBits;
      hide BitMask;
      if h >= 8 {
        MaskPrefix(front, data[..n], h - 8, inverted);
      }
    }
  }

  /** The prefix length still fits a byte behind the 96 bits that come in front. */
  predicate FitsBehind(a: Address) {
    a.family != Inet || a.prefixlen == NO_PREFIXLEN || a.prefixlen + 96 < 256
  }

  /** Converting and masking commute. */
  lemma ConvertMasks(a: Address, inverted: bool)
    requires Fits(a) && FitsBehind(a)
    ensures MaskedOf(Converted(a), inverted) == Converted(MaskedOf(a, inverted))
  {
    if a.family == Inet {
      MaskPrefix(MAPPED, a.data, Host(a), inverted);
      assert Host(Converted(a)) == Host(a);
    }
  }

  /** Behind the wrap-around the host bits reach into the mapped prefix, which is not 0. */
  lemma WrappedCheck(a: Address)
    requires Fits(a) && !FitsBehind(a)
    ensures !CheckData(Converted(a).data, Host(Converted(a)), false)
  {
    var h := Host(Converted(a));
    assert h >= 34;
    var d := a.data;
    assert (MAPPED + d)[..15] == MAPPED + d[..3] && (MAPPED + d[..3])[..14] == MAPPED + d[..2];
    assert (MAPPED + d[..2])[..13] == MAPPED + d[..1] && (MAPPED + d[..1])[..12] == MAPPED;
    NotZero(h - 32);
    hide CheckBits;
    assert !CheckData(MAPPED, h - 32, false);
    assert !CheckData(MAPPED + d[..1], h - 24, false);
    assert !CheckData(MAPPED + d[..2], h - 16, false);
    assert !CheckData(MAPPED + d[..3], h - 8, false);
  }

  lemma NotZero(h: nat)
    ensures 1 <= h <= 7 ==> !CheckBits(BitMask(h), 0xFF, false)
    ensures (0xFF as bv8) ^ Fill(false) != 0
  {
    if 1 <= h <= 7 {
      MaskBitsValue(0xFF, h, false);
      PowersOf2();
    }
  }

  /** Network addresses survive conversion exactly when the prefix length does not wrap around. */
  lemma ConvertNetworkIff(a: Address)
    requires Fits(a)
    ensures MaskedOf(Converted(a), false) == Converted(MaskedOf(a, false)) <==> FitsBehind(a)
  {
    if FitsBehind(a) {
      ConvertMasks(a, false);
    } else {
      WrappedCheck(a);
      var c := Converted(a);
      CheckIsMask(c.data, Host(c), false);
      assert MaskedOf(a, false) == a;
    }
  }

  /** The mapped address: ten bytes 0x00, two bytes 0xFF, and the address (section 2.5.5.2 of RFC 4291). */
  lemma ConvertedValue(a: Address)
    requires Fits(a) && a.family == Inet
    ensures var c := Converted(a);
            && c.family == Inet6 && Value(c.data) == 0xFFFF * 0x1_0000_0000 + Value(a.data)
            && c.prefixlen == if a.prefixlen == NO_PREFIXLEN then NO_PREFIXLEN else (a.prefixlen + 96) % 256
    ensures Converted(Converted(a)) == Converted(a)
  {
    FourBehind(MAPPED, a.data);
    MappedValue();
    hide Value;
  }

  lemma FourBehind(m: seq<bv8>, b: seq<bv8>)
    requires |b| == 4
    ensures Value(m + b) == Value(m) * 0x1_0000_0000 + Value(b)
  {
    hide Value;
    ValueEmpty();
    FourSnoc(m, b[0], b[1], b[2], b[3]);
    FourSnoc([], b[0], b[1], b[2], b[3]);
    assert m + [b[0]] + [b[1]] + [b[2]] + [b[3]] == m + b;
    assert [] + [b[0]] + [b[1]] + [b[2]] + [b[3]] == b;
  }

  lemma ValueEmpty()
    ensures Value([]) == 0
  {
  }

  lemma FourSnoc(m: seq<bv8>, w: bv8, x: bv8, y: bv8, z: bv8)
    ensures Value(m + [w] + [x] + [y] + [z]) ==
            (((Value(m) * 256 + w as nat) * 256 + x as nat) * 256 + y as nat) * 256 + z as nat
  {
    hide Value;
    ValueSnoc(m, w);
    ValueSnoc(m + [w], x);
    ValueSnoc(m + [w] + [x], y);
    ValueSnoc(m + [w] + [x] + [y], z);
  }

  lemma {:induction false} ValueOfZeros(data: seq<bv8>)
    requires forall k :: 0 <= k < |data| ==> data[k] == 0
    ensures Value(data) == 0
  {
    if data != [] {
      ValueOfZeros(data[..|data| - 1]);
    }
  }

  lemma MappedValue()
    ensures Value(MAPPED) == 0xFFFF
  {
    var zeros := MAPPED[..10];
    ValueOfZeros(zeros);
    assert MAPPED == zeros + [0xFF] + [0xFF];
    hide Value;
    ValueSnoc(zeros, 0xFF);
    ValueSnoc(zeros + [0xFF], 0xFF);
  }

  /** For broadcast addresses it also does when the host bits cover only bits that are 1 already. */
  lemma ConvertBroadcastIff(a: Address)
    requires Fits(a)
    ensures MaskedOf(Converted(a), true) == Converted(MaskedOf(a, true))
       <==> FitsBehind(a) || (a.prefixlen >= 240 && a.data == [0xFF, 0xFF, 0xFF, 0xFF])
  {
    if FitsBehind(a) {
      ConvertMasks(a, true);
    } else {
      var c := Converted(a);
      WrappedBroadcast(a);
      CheckIsMask(c.data, Host(c), true);
      assert MaskedOf(a, true) == a;
    }
  }

  lemma WrappedBroadcast(a: Address)
    requires Fits(a) && !FitsBehind(a)
    ensures CheckData(Converted(a).data, Host(Converted(a)), true)
       <==> a.prefixlen >= 240 && a.data == [0xFF, 0xFF, 0xFF, 0xFF]
  {
    var h, d := Host(Converted(a)), a.data;
    assert h == 288 - a.prefixlen;
    assert (MAPPED + d)[..15] == MAPPED + d[..3] && (MAPPED + d[..3])[..14] == MAPPED + d[..2];
    assert (MAPPED + d[..2])[..13] == MAPPED + d[..1] && (MAPPED + d[..1])[..12] == MAPPED;
    assert d == [d[0], d[1], d[2], d[3]];
    MappedOnes(h - 32);
    CheckByte(d[0], true);
    CheckByte(d[1], true);
    CheckByte(d[2], true);
    CheckByte(d[3], true);
    hide CheckBits;
    assert CheckData(MAPPED + d[..1], h - 24, true) <==> d[0] == 0xFF && CheckData(MAPPED, h - 32, true);
    assert CheckData(MAPPED + d[..2], h - 16, true) <==> d[1] == 0xFF && CheckData(MAPPED + d[..1], h - 24, true);
    assert CheckData(MAPPED + d[..3], h - 8, true) <==> d[2] == 0xFF && CheckData(MAPPED + d[..2], h - 16, true);
    assert CheckData(MAPPED + d, h, true) <==> d[3] == 0xFF && CheckData(MAPPED + d[..3], h - 8, true);
  }

  /** The two bytes of ones in the mapped prefix, and the zeros in front of them. */
  lemma MappedOnes(h: nat)
    requires h <= 96
    ensures CheckData(MAPPED, h, true) <==> h <= 16
  {
    var zeros := MAPPED[..10];
    assert MAPPED[..11] == zeros + [0xFF] && MAPPED[..11][..10] == zeros;
    CheckOnes(h % 8);
    assert CheckData(MAPPED, h, true) <==> h < 8 || CheckData(MAPPED[..11], h - 8, true);
    if h >= 8 {
      assert CheckData(MAPPED[..11], h - 8, true) <==> h < 16 || CheckData(zeros, h - 16, true);
    }
  }

  lemma CheckOnes(bits: nat)
    ensures 1 <= bits <= 7 ==> CheckBits(BitMask(bits), 0xFF, true) && !CheckBits(BitMask(bits), 0x00, true)
    ensures (0xFF as bv8) ^ Fill(true) == 0 && (0x00 as bv8) ^ Fill(true) != 0
  {
  }

  /** The class survives exactly when the prefix length does not wrap around or become 255. */
  lemma ConvertTypeIff(a: Address)
    requires Fits(a)
    ensures TypeOf(Converted(a)) == TypeOf(a) <==>
              a.family != Inet || a.prefixlen == NO_PREFIXLEN || a.prefixlen + 96 < 255
  {
    hide *;
    if a.family != Inet || a.prefixlen == NO_PREFIXLEN {
      UnchangedType(a);
    } else if a.prefixlen + 96 < 255 {
      MaskPrefix(MAPPED, a.data, Host(a), false);
      MaskPrefix(MAPPED, a.data, Host(a), true);
      SmallPrefixType(a);
    } else {
      LargePrefixType(a);
    }
  }

  lemma UnchangedType(a: Address)
    requires Fits(a) && (a.family != Inet || a.prefixlen == NO_PREFIXLEN)
    ensures TypeOf(Converted(a)) == TypeOf(a)
  {
    hide CheckData;
  }

  lemma SmallPrefixType(a: Address)
    requires Fits(a) && a.family == Inet && a.prefixlen + 96 < 255
    requires CheckData(MAPPED + a.data, Host(a), false) == CheckData(a.data, Host(a), false)
    requires CheckData(MAPPED + a.data, Host(a), true) == CheckData(a.data, Host(a), true)
    ensures TypeOf(Converted(a)) == TypeOf(a)
  {
    assert Host(Converted(a)) == Host(a);
    hide CheckData;
  }

  lemma LargePrefixType(a: Address)
    requires Fits(a) && a.family == Inet && a.prefixlen != NO_PREFIXLEN && a.prefixlen + 96 >= 255
    ensures TypeOf(Converted(a)) != TypeOf(a)
  {
    assert TypeOf(a) == TypeNetwork;
    if a.prefixlen + 96 > 255 {
      hide CheckData;
      WrappedCheck(a);
    }
  }
}
