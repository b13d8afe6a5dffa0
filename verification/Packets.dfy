/** The stream packetiser of src/mloop/iopkg.c, fed by the reader of src/mloop/ioreader.c. */
module Packets {
  import opened Bytes
  import ListSpec

  // ---- what packages are ---------------------------------------------------------------

  /** The complete packages at the front of a stream, and what is left. */
  function Split(s: Bytes, sen: byte): (seq<Bytes>, Bytes)
    decreases |s|
  {
    var p := ListSpec.Find(s, sen);
    if p == |s| then ([], s)
    else
      var (pkgs, rest) := Split(s[p + 1..], sen);
      ([s[..p + 1]] + pkgs, rest)
  }

  function Concat(parts: seq<Bytes>): Bytes {
    if parts == [] then [] else parts[0] + Concat(parts[1..])
  }

  /** The sentinel stands once, at the end. */
  predicate IsPackage(p: Bytes, sen: byte) {
    p != [] && p[|p| - 1] == sen && forall k :: 0 <= k < |p| - 1 ==> p[k] != sen
  }

  predicate AllPackages(pkgs: seq<Bytes>, sen: byte) {
    forall i :: 0 <= i < |pkgs| ==> IsPackage(pkgs[i], sen)
  }

  predicate NoSentinel(s: Bytes, sen: byte) {
    forall k :: 0 <= k < |s| ==> s[k] != sen
  }

  /** Splitting loses nothing, and every part has its shape. */
  lemma {:induction false} SplitConserves(s: Bytes, sen: byte)
    ensures Concat(Split(s, sen).0) + Split(s, sen).1 == s
    ensures AllPackages(Split(s, sen).0, sen) && NoSentinel(Split(s, sen).1, sen)
    decreases |s|
  {
    var p := ListSpec.Find(s, sen);
    if p < |s| {
      var first := s[..p + 1];
      var (pkgs, rest) := Split(s[p + 1..], sen);
      assert Split(s, sen) == ([first] + pkgs, rest);
      SplitConserves(s[p + 1..], sen);
      PackagesCons(s, p, pkgs, sen);
      hide Split;
      hide ListSpec.Find;
      hide Concat;
      hide AllPackages;
      ConcatCons(first, pkgs);
      Assoc(first, Concat(pkgs), rest);
      CutAt(s, p + 1);
    } else {
      assert [] + s == s;
    }
  }

  lemma CutAt(s: Bytes, n: nat)
    requires n <= |s|
    ensures s[..n] + s[n..] == s
  {
  }

  lemma PackagesCons(s: Bytes, p: nat, pkgs: seq<Bytes>, sen: byte)
    requires p < |s| && s[p] == sen && forall k :: 0 <= k < p ==> s[k] != sen
    requires AllPackages(pkgs, sen)
    ensures AllPackages([s[..p + 1]] + pkgs, sen)
  {
  }

  lemma ConcatCons(first: Bytes, rest: seq<Bytes>)
    ensures Concat([first] + rest) == first + Concat(rest)
  {
    assert ([first] + rest)[1..] == rest;
  }

  /** There is no other way to cut the stream into packages and a rest without sentinel. */
  lemma {:induction false} SplitUnique(pkgs: seq<Bytes>, rest: Bytes, sen: byte)
    requires AllPackages(pkgs, sen) && NoSentinel(rest, sen)
    ensures Split(Concat(pkgs) + rest, sen) == (pkgs, rest)
    decreases |pkgs|
  {
    var s := Concat(pkgs) + rest;
    if pkgs == [] {
      assert s == rest;
    } else {
      var first, behind := pkgs[0], Concat(pkgs[1..]) + rest;
      Assoc(first, Concat(pkgs[1..]), rest);
      assert s == first + behind;
      assert forall k :: 0 <= k < |first| ==> s[k] == first[k];
      assert ListSpec.Find(s, sen) == |first| - 1;
      assert s[..|first|] == first && s[|first|..] == behind;
      SplitUnique(pkgs[1..], rest, sen);
      assert pkgs == [first] + pkgs[1..];
    }
  }

  lemma {:induction false} ConcatAppend(a: seq<Bytes>, b: seq<Bytes>)
    ensures Concat(a + b) == Concat(a) + Concat(b)
    decreases |a|
  {
    if a == [] {
      assert a + b == b;
      assert [] + Concat(b) == Concat(b);
    } else {
      ConcatAppend(a[1..], b);
      assert (a + b)[1..] == a[1..] + b;
      Assoc(a[0], Concat(a[1..]), Concat(b));
    }
  }

  /** What is left of one piece is where the next piece continues. */
  lemma SplitAppend(a: Bytes, b: Bytes, sen: byte)
    ensures var (pa, ra) := Split(a, sen);
            var (pb, rb) := Split(ra + b, sen);
            Split(a + b, sen) == (pa + pb, rb)
  {
    var (pa, ra) := Split(a, sen);
    var (pb, rb) := Split(ra + b, sen);
    SplitConserves(a, sen);
    SplitConserves(ra + b, sen);
    ConcatAppend(pa, pb);
    Assoc(Concat(pa), ra, b);
    Assoc(Concat(pa), Concat(pb), rb);
    SplitUnique(pa + pb, rb, sen);
  }

  /** The packages of all chunks, fed one after the other into a packetiser that holds `buffer`. */
  function FeedAll(buffer: Bytes, chunks: seq<Bytes>, sen: byte): (seq<Bytes>, Bytes)
    decreases |chunks|
  {
    if chunks == [] then ([], buffer)
    else
      var (first, rest) := Split(buffer + chunks[0], sen);
      var (more, end) := FeedAll(rest, chunks[1..], sen);
      (first + more, end)
  }

  /** Main result: how a stream is cut into chunks does not matter, and nothing is lost. */
  lemma ChunkIndependence(chunks: seq<Bytes>, sen: byte)
    ensures FeedAll([], chunks, sen) == Split(Concat(chunks), sen)
    ensures var (pkgs, rest) := FeedAll([], chunks, sen);
            Concat(pkgs) + rest == Concat(chunks) && AllPackages(pkgs, sen) && NoSentinel(rest, sen)
  {
    FeedFrom([], chunks, sen);
    assert [] + Concat(chunks) == Concat(chunks);
    SplitConserves(Concat(chunks), sen);
  }

  lemma {:induction false} FeedFrom(buffer: Bytes, chunks: seq<Bytes>, sen: byte)
    requires NoSentinel(buffer, sen)
    ensures FeedAll(buffer, chunks, sen) == Split(buffer + Concat(chunks), sen)
    decreases |chunks|
  {
    if chunks == [] {
      SplitUnique([], buffer, sen);
      assert [] + buffer == buffer && buffer + [] == buffer;
    } else {
      var (first, rest) := Split(buffer + chunks[0], sen);
      SplitConserves(buffer + chunks[0], sen);
      SplitAppend(buffer + chunks[0], Concat(chunks[1..]), sen);
      FeedFrom(rest, chunks[1..], sen);
      Assoc(buffer, chunks[0], Concat(chunks[1..]));
    }
  }

  // ---- the packetiser ------------------------------------------------------------------

  /** `MlIoPkg`: the carry-over buffer exists only while it holds something. */
  class IoPkg {
    var data: array?<byte>
    var size: nat
    const sentinel: byte
    /** Whether there is a callback for packages, and one for the end of the file. */
    const pkgCb: bool
    const eofCb: bool

    ghost predicate Valid()
      reads this, data
    {
      && (data == null <==> size == 0)
      && (data != null ==> data.Length == size && NoSentinel(data[..], sentinel))
    }

    ghost function Buffered(): Bytes
      reads this, data
    {
      if data == null then [] else data[..]
    }

    /** What the callback receives; without one the packages are lost. */
    function Heard(pkgs: seq<Bytes>): seq<Bytes> {
      if pkgCb then pkgs else []
    }

    constructor (sentinel: byte, pkgCb: bool, eofCb: bool)
      ensures Valid() && Buffered() == []
      ensures this.sentinel == sentinel && this.pkgCb == pkgCb && this.eofCb == eofCb
    {
      data, size := null, 0;
      this.sentinel, this.pkgCb, this.eofCb := sentinel, pkgCb, eofCb;
    }

    /** `_pkg_data_cb`: `pkgs` are the packages handed to the callback, in order. */
    method DataCb(chunk: array<byte>, n: nat) returns (pkgs: seq<Bytes>)
      requires Valid() && chunk != data && n <= chunk.Length
      modifies this, data
      ensures Valid() && (data == old(data) || data == null || fresh(data))
      ensures var (all, rest) := Split(old(Buffered()) + old(chunk[..n]), sentinel);
              pkgs == Heard(all) && Buffered() == rest
    {
      hide Split;
      ghost var stream := Buffered() + chunk[..n];
      var buf := chunk;
      var end := n;
      if data != null {
        data := Grown(data, chunk, n);
        buf := data;
        size := size + n;
        end := size;
      }
      assert buf[..end] == stream;
      var pos: nat;
      pkgs, pos := Deliver(buf, end, sentinel, pkgCb);
      SplitConserves(stream, sentinel);
      size := end - pos;
      if size == 0 {
        data := null;
      } else if data == null {
        data := Copied(buf, pos, end);
      } else if pos > 0 {
        ShiftLeft(data, pos, size);
        data := Shrunk(data, size);
      } else {
        assert data[..] == data[0..end];
      }
    }
  }

  /** `realloc` to the joined size and `memcpy` of the new bytes behind the old ones. */
  method Grown(data: array<byte>, chunk: array<byte>, n: nat) returns (r: array<byte>)
    requires n <= chunk.Length
    ensures fresh(r) && r[..] == data[..] + chunk[..n]
  {
    r := new byte[data.Length + n](i requires 0 <= i < data.Length + n reads data, chunk =>
      if i < data.Length then data[i] else chunk[i - data.Length]);
  }

  /** `malloc` and `memcpy` of a part of a buffer. */
  method Copied(buf: array<byte>, start: nat, end: nat) returns (r: array<byte>)
    requires start <= end <= buf.Length
    ensures fresh(r) && r[..] == buf[start..end]
  {
    r := new byte[end - start](i requires 0 <= i < end - start reads buf => buf[start + i]);
  }

  /** `realloc` to a smaller size. */
  method Shrunk(data: array<byte>, size: nat) returns (r: array<byte>)
    requires size <= data.Length
    ensures fresh(r) && r[..] == data[..size]
  {
    r := new byte[size](i requires 0 <= i < size reads data => data[i]);
  }

  /** The search for sentinels: delivered packages and the position behind the last one. */
  method Deliver(buf: array<byte>, end: nat, sen: byte, pkgCb: bool) returns (pkgs: seq<Bytes>, pos: nat)
    requires end <= buf.Length
    ensures pos <= end
    ensures var (all, rest) := Split(buf[..end], sen);
            pkgs == (if pkgCb then all else []) && buf[pos..end] == rest
  {
    hide Split;
    hide Delivered;
    ghost var s := buf[..end];
    ghost var all: seq<Bytes> := [];
    pkgs, pos := [], 0;
    NothingDelivered(s, sen);
    for i := 0 to end
      invariant pos <= i && Delivered(s, all, pos, sen) && pkgs == if pkgCb then all else []
      invariant forall k :: pos <= k < i ==> s[k] != sen
    {
      if buf[i] == sen {
        assert buf[pos..i + 1] == s[pos..i + 1];
        PackageDelivered(s, all, pos, i + 1, sen);
        if pkgCb {
          pkgs := pkgs + [buf[pos..i + 1]];
        }
        all := all + [buf[pos..i + 1]];
        pos := i + 1;
      }
    }
    assert s[pos..] == buf[pos..end];
    AllDelivered(s, all, pos, sen);
  }

  /** The packages cover the stream up to `pos`. */
  ghost predicate Delivered(s: Bytes, pkgs: seq<Bytes>, pos: nat, sen: byte) {
    pos <= |s| && AllPackages(pkgs, sen) && Concat(pkgs) == s[..pos]
  }

  lemma NothingDelivered(s: Bytes, sen: byte)
    ensures Delivered(s, [], 0, sen)
  {
  }

  lemma AllDelivered(s: Bytes, pkgs: seq<Bytes>, pos: nat, sen: byte)
    requires Delivered(s, pkgs, pos, sen) && forall k :: pos <= k < |s| ==> s[k] != sen
    ensures Split(s, sen) == (pkgs, s[pos..])
  {
    CutAt(s, pos);
    SplitUnique(pkgs, s[pos..], sen);
  }

  lemma PackageDelivered(s: Bytes, pkgs: seq<Bytes>, pos: nat, next: nat, sen: byte)
    requires pos < next <= |s| && Delivered(s, pkgs, pos, sen)
    requires s[next - 1] == sen && forall k :: pos <= k < next - 1 ==> s[k] != sen
    ensures Delivered(s, pkgs + [s[pos..next]], next, sen)
  {
    var p := s[pos..next];
    assert IsPackage(p, sen);
    ConcatAppend(pkgs, [p]);
    ConcatCons(p, []);
    assert [p] + [] == [p] && p + Concat([]) == p;
    hide Concat;
    assert s[..pos] + p == s[..next];
  }

  /** The copy loop "from right to left": the rest moves to the front of the same buffer. */
  method ShiftLeft(data: array<byte>, pos: nat, size: nat)
    requires pos + size <= data.Length
    modifies data
    ensures data[..size] == old(data[pos..pos + size])
  {
    ghost var was := data[..];
    for i := 0 to size
      invariant data[..i] == was[pos..pos + i]
      invariant data[i..] == was[i..]
    {
      data[i] := data[pos + i];
      assert data[..i + 1] == was[pos..pos + i + 1];
    }
  }

  // ---- the reader ----------------------------------------------------------------------

  /** A call of `read`: how much it was asked for, and what it returned. */
  datatype Reading = Reading(room: nat, got: nat)

  function Got(rs: seq<Reading>): nat {
    if rs == [] then 0 else Got(rs[..|rs| - 1]) + rs[|rs| - 1].got
  }

  /** The calls that returned nothing. */
  function Stops(rs: seq<Reading>): nat {
    if rs == [] then 0 else Stops(rs[..|rs| - 1]) + if rs[|rs| - 1].got == 0 then 1 else 0
  }

  lemma {:induction false} ReadingsAppend(a: seq<Reading>, b: seq<Reading>)
    ensures Got(a + b) == Got(a) + Got(b) && Stops(a + b) == Stops(a) + Stops(b)
    decreases |b|
  {
    if b == [] {
      assert a + b == a;
    } else {
      ReadingsAppend(a, b[..|b| - 1]);
      assert (a + b)[..|a + b| - 1] == a + b[..|b| - 1];
    }
  }

  /** Reading goes on, always with room, until a call returns nothing, and no longer. */
  ghost predicate UntilNothing(rs: seq<Reading>) {
    && rs != [] && rs[|rs| - 1].got == 0
    && forall i :: 0 <= i < |rs| ==> rs[i].room > 0 && (i < |rs| - 1 ==> rs[i].got > 0)
  }

  lemma {:induction false} NoStops(rs: seq<Reading>)
    requires forall i :: 0 <= i < |rs| ==> rs[i].got > 0
    ensures Stops(rs) == 0
  {
    if rs != [] {
      NoStops(rs[..|rs| - 1]);
    }
  }

  lemma OneStop(rs: seq<Reading>)
    requires UntilNothing(rs)
    ensures Stops(rs) == 1
  {
    NoStops(rs[..|rs| - 1]);
  }

  /** A file descriptor: the bytes that are to come, how many each `read` may return, and all calls so far. */
  class Input {
    var pending: Bytes
    var grants: seq<nat>
    ghost var Readings: seq<Reading>

    constructor (pending: Bytes, grants: seq<nat>)
      ensures this.pending == pending && this.grants == grants && Readings == []
    {
      this.pending, this.grants, Readings := pending, grants, [];
    }

    /** `read`: at most `room` bytes; 0 when nothing more can be read now. */
    method Read(buf: array<byte>, pos: nat, room: nat) returns (len: nat)
      requires pos + room <= buf.Length
      modifies this, buf
      ensures len == if old(grants) == [] then 0 else Min(old(grants)[0], Min(room, |old(pending)|))
      ensures grants == if old(grants) == [] then [] else old(grants)[1..]
      ensures Readings == old(Readings) + [Reading(room, len)]
      ensures pending == old(pending)[len..]
      ensures buf[..pos + len] == old(buf[..pos]) + old(pending)[..len]
    {
      if grants == [] {
        Readings := Readings + [Reading(room, 0)];
        return 0;
      }
      len := Min(grants[0], Min(room, |pending|));
      grants := grants[1..];
      forall i | 0 <= i < len {
        buf[pos + i] := pending[i];
      }
      pending := pending[len..];
      Readings := Readings + [Reading(room, len)];
    }
  }

  const BUFFER_INCREASE: nat := 512

  /** The loop of `_reader_data_cb`: reads until nothing more comes, growing the buffer. */
  method ReadAll(input: Input) returns (buf: array<byte>, pos: nat, ghost rs: seq<Reading>)
    modifies input
    ensures fresh(buf) && pos <= buf.Length
    ensures old(input.pending) == buf[..pos] + input.pending
    ensures input.Readings == old(input.Readings) + rs && UntilNothing(rs) && pos == Got(rs)
  {
    hide Got;
    hide UntilNothing;
    hide ReadsOn;
    var bufSize := 0;
    pos := 0;
    buf := new byte[0];
    rs := [];
    ghost var all, base := input.pending, input.Readings;
    NothingRead();
    EmptyFront(all);
    while true
      invariant fresh(buf) && buf.Length == bufSize && pos <= bufSize
      invariant all == buf[..pos] + input.pending
      invariant input.Readings == base + rs && ReadsOn(rs) && pos == Got(rs)
      decreases |input.grants|
    {
      if bufSize <= pos {
        bufSize := bufSize + BUFFER_INCREASE;
        var none := new byte[BUFFER_INCREASE];
        buf := Grown(buf, none, BUFFER_INCREASE);
      }
      var len, readings := ReadMore(input, buf, pos, bufSize - pos, all, base, rs);
      rs := readings;
      if len == 0 {
        break;
      }
      pos := pos + len;
    }
  }

  /** One `read` behind what was read before. */
  method ReadMore(input: Input, buf: array<byte>, pos: nat, room: nat,
                  ghost all: Bytes, ghost base: seq<Reading>, ghost rs: seq<Reading>)
    returns (len: nat, ghost more: seq<Reading>)
    requires 0 < room && pos + room <= buf.Length && all == buf[..pos] + input.pending
    requires input.Readings == base + rs && ReadsOn(rs)
    modifies input, buf
    ensures len <= room && all == buf[..pos + len] + input.pending
    ensures input.Readings == base + more && Got(more) == Got(rs) + len
    ensures if len > 0 then ReadsOn(more) && |input.grants| < |old(input.grants)| else UntilNothing(more)
  {
    hide Got;
    hide UntilNothing;
    hide ReadsOn;
    ghost var before, coming := buf[..pos], input.pending;
    len := input.Read(buf, pos, room);
    more := rs + [Reading(room, len)];
    ReadOnce(rs, Reading(room, len));
    Assoc(base, rs, [Reading(room, len)]);
    TakenBehind(before, coming, len);
  }

  lemma TakenBehind(before: Bytes, coming: Bytes, len: nat)
    requires len <= |coming|
    ensures before + coming == before + coming[..len] + coming[len..]
  {
  }

  /** Reading has not come to an end. */
  ghost predicate ReadsOn(rs: seq<Reading>) {
    forall i :: 0 <= i < |rs| ==> rs[i].room > 0 && rs[i].got > 0
  }

  lemma NothingRead()
    ensures ReadsOn([]) && Got([]) == 0
  {
  }

  lemma ReadOnce(rs: seq<Reading>, reading: Reading)
    requires ReadsOn(rs) && reading.room > 0
    ensures Got(rs + [reading]) == Got(rs) + reading.got
    ensures if reading.got > 0 then ReadsOn(rs + [reading]) else UntilNothing(rs + [reading])
  {
    assert (rs + [reading])[..|rs|] == rs;
  }

  /** The flags of an event of the file descriptor. */
  datatype Event = Event(read: bool, eof: bool)

  /**
   * An event of a packetiser: the reader's callback is `DataCb`, called when there is data, and
   * behind it the one for the end of the file.
   */
  method OnReadable(input: Input, pkg: IoPkg, event: Event)
    returns (pkgs: seq<Bytes>, ended: bool, ghost chunk: Bytes, ghost rs: seq<Reading>)
    requires pkg.Valid()
    modifies input, pkg, pkg.data
    ensures pkg.Valid() && (pkg.data == old(pkg.data) || pkg.data == null || fresh(pkg.data))
    ensures old(input.pending) == chunk + input.pending && (!event.read ==> chunk == [])
    ensures var (all, rest) := Split(old(pkg.Buffered()) + chunk, pkg.sentinel);
            pkgs == pkg.Heard(all) && pkg.Buffered() == rest
    ensures ended <==> event.eof && pkg.eofCb
    ensures input.Readings == old(input.Readings) + rs && |chunk| == Got(rs)
    ensures if event.read then UntilNothing(rs) else rs == []
  {
    pkgs, chunk, rs := [], [], [];
    NothingNew(pkg.Buffered(), pkg.sentinel);
    EmptyFront(input.pending);
    if event.read {
      var buf, pos, readings := ReadAll(input);
      chunk, rs := buf[..pos], readings;
      if pos > 0 {
        pkgs := pkg.DataCb(buf, pos);
      } else {
        assert chunk == [];
      }
    }
    ended := event.eof && pkg.eofCb;
  }

  lemma NothingNew(buffer: Bytes, sen: byte)
    requires NoSentinel(buffer, sen)
    ensures buffer + [] == buffer && Split(buffer, sen) == ([], buffer)
  {
    SplitUnique([], buffer, sen);
    assert [] + buffer == buffer + [];
  }

  /** The events that allow reading. */
  function ReadCount(events: seq<Event>): nat {
    if events == [] then 0
    else ReadCount(events[..|events| - 1]) + if events[|events| - 1].read then 1 else 0
  }

  /** Each event that allows reading was read until nothing came, the last one too. */
  ghost predicate Exhausted(rs: seq<Reading>, events: seq<Event>) {
    && Stops(rs) == ReadCount(events)
    && (rs != [] ==> rs[|rs| - 1].got == 0)
    && forall i :: 0 <= i < |rs| ==> rs[i].room > 0
  }

  lemma NoEvents()
    ensures Exhausted([], [])
  {
  }

  lemma OneEvent(rs: seq<Reading>, more: seq<Reading>, events: seq<Event>, event: Event)
    requires Exhausted(rs, events) && if event.read then UntilNothing(more) else more == []
    ensures Exhausted(rs + more, events + [event])
  {
    ReadingsAppend(rs, more);
    assert (events + [event])[..|events|] == events;
    if event.read {
      OneStop(more);
      assert (rs + more)[|rs + more| - 1] == more[|more| - 1];
    } else {
      assert rs + more == rs;
    }
  }

  /** Any number of events: together they deliver the packages of the whole stream. */
  method ReadEvents(input: Input, pkg: IoPkg, events: seq<Event>)
    returns (pkgs: seq<Bytes>, ended: bool, ghost stream: Bytes, ghost rs: seq<Reading>)
    requires pkg.Valid() && pkg.Buffered() == []
    modifies input, pkg, pkg.data
    ensures pkg.Valid()
    ensures old(input.pending) == stream + input.pending
    ensures var (all, rest) := Split(stream, pkg.sentinel); pkgs == pkg.Heard(all) && pkg.Buffered() == rest
    ensures ended <==> pkg.eofCb && exists i :: 0 <= i < |events| && events[i].eof
    ensures input.Readings == old(input.Readings) + rs && |stream| == Got(rs) && Exhausted(rs, events)
  {
    hide Split;
    hide Exhausted;
    hide UntilNothing;
    hide Got;
    ghost var base := input.Readings;
    rs := [];
    NothingRead();
    NoEvents();
    pkgs, ended, stream := [], false, [];
    ghost var all := input.pending;
    NothingNew([], pkg.sentinel);
    EmptyFront(all);
    for i := 0 to |events|
      invariant pkg.Valid() && (pkg.data == old(pkg.data) || pkg.data == null || fresh(pkg.data))
      invariant all == stream + input.pending
      invariant pkgs == pkg.Heard(Split(stream, pkg.sentinel).0) && pkg.Buffered() == Split(stream, pkg.sentinel).1
      invariant ended <==> pkg.eofCb && exists k :: 0 <= k < i && events[k].eof
      invariant input.Readings == base + rs && |stream| == Got(rs) && Exhausted(rs, events[..i])
    {
      var more, eof, chunk, readings := OnReadable(input, pkg, events[i]);
      SplitAppend(stream, chunk, pkg.sentinel);
      Assoc(stream, chunk, input.pending);
      pkgs, ended, stream := pkgs + more, ended || eof, stream + chunk;
      ReadingsAppend(rs, readings);
      OneEvent(rs, readings, events[..i], events[i]);
      Assoc(base, rs, readings);
      rs := rs + readings;
      assert events[..i] + [events[i]] == events[..i + 1];
    }
    assert events[..|events|] == events;
  }
}
