/** Bounded writes into a caller's buffer, the `snprintf` convention of src/cstr.c. */
module Buffer {
  import opened Bytes

  /** `max(0, size - len)`: what is left of a buffer of `size` bytes after `len`. */
  function Room(size: nat, len: nat): nat {
    if len < size then size - len else 0
  }

  /** The region `[off, off + size)` lies inside a buffer of `length` bytes. */
  predicate Fits(length: nat, off: nat, size: nat) {
    size > 0 ==> off + size <= length
  }

  /**
   * The buffer after `text` was written at `off` with `size` bytes to spare:
   * as much text as fits in front of a terminator, and nothing outside the region.
   */
  ghost function Put(buf: Bytes, off: nat, size: nat, text: Bytes): (r: Bytes)
    requires Fits(|buf|, off, size)
    ensures |r| == |buf|
  {
    if size == 0 then
      buf
    else
      var n := Min(size - 1, |text|);
      buf[..off] + text[..n] + [NUL] + buf[off + n + 1..]
  }

  /** Two writes, the second one behind the first, are one write of the joined text. */
  lemma PutPut(buf: Bytes, off: nat, size: nat, a: Bytes, b: Bytes)
    requires Fits(|buf|, off, size)
    ensures Fits(|buf|, off + |a|, Room(size, |a|))
    ensures Put(Put(buf, off, size, a), off + |a|, Room(size, |a|), b) == Put(buf, off, size, a + b)
  {
    if |a| < size {
      PutPutRoom(buf, off, size, a, b);
    } else if size > 0 {
      assert (a + b)[..size - 1] == a[..size - 1];
    }
  }

  lemma PutPutRoom(buf: Bytes, off: nat, size: nat, a: Bytes, b: Bytes)
    requires Fits(|buf|, off, size) && |a| < size
    ensures Put(Put(buf, off, size, a), off + |a|, size - |a|, b) == Put(buf, off, size, a + b)
  {
    hide Put;
    var n := Min(size - |a| - 1, |b|);
    var once := Put(buf, off, size, a);
    var e := off + |a|;
    PutParts(buf, off, size, a, e + n + 1);
    PutOpen(once, e, size - |a|, b);
    PutOpen(buf, off, size, a + b);
    assert (a + b)[..|a| + n] == a + b[..n];
    PutTwice(buf[..off], a, b[..n], buf[e + n + 1..]);
  }

  lemma PutOpen(buf: Bytes, off: nat, size: nat, text: Bytes)
    requires Fits(|buf|, off, size) && size > 0
    ensures var n := Min(size - 1, |text|);
            Put(buf, off, size, text) == buf[..off] + text[..n] + [NUL] + buf[off + n + 1..]
  {
  }

  lemma PutTwice(p: Bytes, a: Bytes, b: Bytes, tail: Bytes)
    ensures p + a + b + [NUL] + tail == p + (a + b) + [NUL] + tail
  {
    Assoc(p, a, b);
  }

  /** The bytes in front of the terminator of a complete write, and those behind it. */
  lemma PutParts(buf: Bytes, off: nat, size: nat, text: Bytes, k: nat)
    requires Fits(|buf|, off, size) && |text| < size
    requires off + |text| < k <= |buf|
    ensures Put(buf, off, size, text)[..off + |text|] == buf[..off] + text
    ensures Put(buf, off, size, text)[k..] == buf[k..]
  {
    assert Put(buf, off, size, text) == buf[..off] + text + ([NUL] + buf[off + |text| + 1..]);
  }

  /** With room for the whole text the region starts with it, followed by the terminator. */
  lemma PutAll(buf: Bytes, off: nat, size: nat, text: Bytes)
    requires Fits(|buf|, off, size)
    ensures |text| < size ==>
              && off + |text| < |buf|
              && Put(buf, off, size, text)[off..off + |text|] == text
              && Put(buf, off, size, text)[off + |text|] == NUL
    ensures 0 < size <= |text| ==>
              && Put(buf, off, size, text)[off..off + size - 1] == text[..size - 1]
              && Put(buf, off, size, text)[off + size - 1] == NUL
    ensures forall i :: 0 <= i < |buf| && !(off <= i < off + size) ==> Put(buf, off, size, text)[i] == buf[i]
  {
    hide Put;
    if size == 0 {
      PutNothing(buf, off, text);
    } else {
      var n := Min(size - 1, |text|);
      PutOpen(buf, off, size, text);
      PartsAt(buf[..off], text[..n], buf[off + n + 1..], Put(buf, off, size, text));
      FrontAndBack(buf, Put(buf, off, size, text), off, off + n + 1);
    }
  }

  lemma FrontAndBack(was: Bytes, now: Bytes, a: nat, b: nat)
    requires |was| == |now| && a <= b <= |was| && now[..a] == was[..a] && now[b..] == was[b..]
    ensures forall i :: 0 <= i < |was| && !(a <= i < b) ==> now[i] == was[i]
  {
    forall i | 0 <= i < |was| && !(a <= i < b)
      ensures now[i] == was[i]
    {
      if i < a {
        assert now[..a][i] == was[..a][i];
      } else {
        assert now[b..][i - b] == was[b..][i - b];
      }
    }
  }

  lemma PartsAt(front: Bytes, text: Bytes, back: Bytes, all: Bytes)
    requires all == front + text + [NUL] + back
    ensures all[..|front|] == front && all[|front|..|front| + |text|] == text
    ensures all[|front| + |text|] == NUL && all[|front| + |text| + 1..] == back
  {
  }

  /** `cstr_putc`; a NULL destination only measures. */
  method CstrPutc(dest: array?<byte>, off: nat, c: byte, size: nat) returns (len: nat)
    requires dest != null ==> Fits(dest.Length, off, size)
    modifies dest
    ensures len == 1
    ensures dest != null ==> dest[..] == Put(old(dest[..]), off, size, [c])
  {
    if size > 0 && dest != null {
      if size > 1 {
        dest[off] := c;
        dest[off + 1] := NUL;
      } else {
        dest[off] := NUL;
      }
    }
    return 1;
  }

  /** `cstr_ncopy`; a NULL destination only measures. */
  method CstrNcopy(dest: array?<byte>, off: nat, src: CString, size: nat) returns (len: nat)
    requires dest != null ==> Fits(dest.Length, off, size)
    modifies dest
    ensures len == |src|
    ensures dest != null ==> dest[..] == Put(old(dest[..]), off, size, src)
  {
    hide Put;
    if size == 0 || dest == null {
      if dest != null {
        PutNothing(dest[..], off, src);
      }
      return |src|;
    }
    ghost var was := dest[..];
    var i := 0;
    while true
      invariant i <= |src| && i < size
      invariant dest[..] == was[..off] + src[..i] + was[off + i..]
      decreases |src| - i
    {
      if i >= size - 1 {
        PutEnds(was, off, size, src, i);
        dest[off + i] := NUL;
        return i + |src[i..]|;
      }
      if At(src, i) == NUL {
        PutEnds(was, off, size, src, i);
        dest[off + i] := NUL;
        return i;
      }
      dest[off + i] := At(src, i);
      assert src[..i + 1] == src[..i] + [src[i]];
      i := i + 1;
    }
  }

  lemma PutNothing(buf: Bytes, off: nat, text: Bytes)
    requires Fits(|buf|, off, 0)
    ensures Put(buf, off, 0, text) == buf
  {
  }

  /** The terminator behind what was copied ends the write. */
  lemma PutEnds(buf: Bytes, off: nat, size: nat, text: Bytes, i: nat)
    requires Fits(|buf|, off, size) && i < size && i == Min(size - 1, |text|)
    ensures (buf[..off] + text[..i] + buf[off + i..])[off + i := NUL] == Put(buf, off, size, text)
  {
  }

  /** `len += cstr_putc(dest + len, c, max(0, size - len))` */
  method AppendChar(dest: array<byte>, off: nat, c: byte, size: nat, len: nat, ghost was: Bytes, ghost done: Bytes)
    returns (newLen: nat)
    requires |was| == dest.Length && Fits(|was|, off, size)
    requires len == |done| && dest[..] == Put(was, off, size, done)
    modifies dest
    ensures newLen == |done| + 1
    ensures dest[..] == Put(was, off, size, done + [c])
  {
    hide Put;
    PutPut(was, off, size, done, [c]);
    var l := CstrPutc(dest, off + len, c, Room(size, len));
    return len + l;
  }

  /** `len += cstr_ncopy(dest + len, src, max(0, size - len))` */
  method Append(dest: array<byte>, off: nat, src: CString, size: nat, len: nat, ghost was: Bytes, ghost done: Bytes)
    returns (newLen: nat)
    requires |was| == dest.Length && Fits(|was|, off, size)
    requires len == |done| && dest[..] == Put(was, off, size, done)
    modifies dest
    ensures newLen == |done| + |src|
    ensures dest[..] == Put(was, off, size, done + src)
  {
    hide Put;
    PutPut(was, off, size, done, src);
    var l := CstrNcopy(dest, off + len, src, Room(size, len));
    return len + l;
  }
}
