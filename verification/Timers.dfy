/** The timer scheduler of src/mloop.c and src/mloop/timer.c as a state machine. */
module Timers {
  import opened Bytes
  import opened ListSpec
  import opened Numbers

  const MAX_EPOLL_TIMEOUT: int := 1000

  /**
   * `MlTimer`. `deleted` marks freed timers and `callback` a non-NULL callback. `stamp` is
   * not in the source: it counts how often any timer was armed before this one was.
   */
  datatype Timer = Timer(time: nat, msec: nat, pending: bool, callback: bool, deleted: bool, stamp: nat)

  /** The static state of the loop; a timer is named by its index in `reg`. */
  datatype Loop = Loop(timers: seq<nat>, reg: seq<Timer>, running: bool, armed: nat)

  /** `ml_timer_cmp` */
  function TimerCmp(a: Timer, b: Timer): int {
    ToInt(a.time - b.time)
  }

  /** The comparison that `list_sort_in` gets, on names. */
  function CmpIn(reg: seq<Timer>): (nat, nat) -> int {
    (a: nat, b: nat) => if a < |reg| && b < |reg| then TimerCmp(reg[a], reg[b]) else 0
  }

  // ---- operations ----------------------------------------------------------------------

  predicate Live(L: Loop, id: nat) {
    id < |L.reg| && !L.reg[id].deleted
  }

  /** `mloop_timer_cancle` */
  function Cancel(L: Loop, id: nat): Loop
    requires id < |L.reg|
  {
    if L.reg[id].pending then
      L.(timers := Remove(L.timers, id), reg := L.reg[id := L.reg[id].(pending := false)])
    else L
  }

  /** `_timer_set` */
  function TimerSet(L: Loop, id: nat, time: nat): Loop
    requires id < |L.reg|
  {
    var C := Cancel(L, id);
    var reg := C.reg[id := C.reg[id].(time := time, pending := true, stamp := C.armed)];
    C.(reg := reg, timers := SortIn(C.timers, id, CmpIn(reg)), armed := C.armed + 1)
  }

  function SetMsec(L: Loop, id: nat, msec: int): Loop
    requires id < |L.reg|
  {
    if msec > 0 then L.(reg := L.reg[id := L.reg[id].(msec := msec)]) else L
  }

  /** `mloop_timer_in`, with the clock reading `now` */
  function TimerIn(L: Loop, id: nat, msec: int, now: nat): Loop
    requires id < |L.reg|
  {
    var M := SetMsec(L, id, msec);
    TimerSet(M, id, now + M.reg[id].msec)
  }

  /** `mloop_timer_add` */
  function TimerAdd(L: Loop, id: nat, msec: int): Loop
    requires id < |L.reg|
  {
    var M := SetMsec(L, id, msec);
    TimerSet(M, id, M.reg[id].time + M.reg[id].msec)
  }

  /** `ml_timer_new`: a timer that was never armed has no interval. */
  function Unarmed(L: Loop, callback: bool): Loop {
    L.(reg := L.reg + [Timer(0, 0, false, callback, false, 0)])
  }

  /** `mloop_timer_new`: no timer without a positive interval. */
  function TimerNew(L: Loop, msec: int, callback: bool, now: nat): Loop {
    if msec <= 0 then L else TimerIn(Unarmed(L, callback), |L.reg|, msec, now)
  }

  /** `mloop_timer_delete`: a deleted timer is cancelled first. */
  function Delete(L: Loop, id: nat): Loop
    requires id < |L.reg|
  {
    var C := Cancel(L, id);
    C.(reg := C.reg[id := C.reg[id].(deleted := true)])
  }

  /** What a program may do with timers. Using one after its deletion is undefined in C and ignored here. */
  datatype Op =
    | New(msec: int, callback: bool, now: nat)
    | Raw(callback: bool)
    | In(id: nat, msec: int, now: nat)
    | Add(id: nat, msec: int)
    | Drop(id: nat)
    | Free(id: nat)
    | Stop

  function Exec(L: Loop, op: Op): Loop {
    match op
    case New(msec, callback, now) => TimerNew(L, msec, callback, now)
    case Raw(callback) => Unarmed(L, callback)
    case In(id, msec, now) => if Live(L, id) then TimerIn(L, id, msec, now) else L
    case Add(id, msec) => if Live(L, id) then TimerAdd(L, id, msec) else L
    case Drop(id) => if Live(L, id) then Cancel(L, id) else L
    case Free(id) => if Live(L, id) then Delete(L, id) else L
    case Stop => L.(running := false)
  }

  function ExecAll(L: Loop, ops: seq<Op>): Loop
    decreases |ops|
  {
    if ops == [] then L else ExecAll(Exec(L, ops[0]), ops[1..])
  }

  // ---- the invariant -------------------------------------------------------------------

  /** By deadline, and among equal deadlines by the order in which the timers were armed. */
  predicate Before(a: Timer, b: Timer) {
    a.time < b.time || (a.time == b.time && a.stamp < b.stamp)
  }

  /** The list names pending timers, and every pending timer, which is not deleted, is listed. */
  ghost predicate Listed(timers: seq<nat>, reg: seq<Timer>) {
    && (forall k :: 0 <= k < |timers| ==> timers[k] < |reg| && reg[timers[k]].pending)
    && (forall id :: 0 <= id < |reg| && reg[id].pending ==> id in timers && !reg[id].deleted)
  }

  ghost predicate Stamped(reg: seq<Timer>, armed: nat) {
    forall id :: 0 <= id < |reg| && reg[id].pending ==> reg[id].stamp < armed
  }

  ghost predicate Sorted(timers: seq<nat>, reg: seq<Timer>) {
    forall i, j :: 0 <= i < j < |timers| && timers[i] < |reg| && timers[j] < |reg| ==>
      Before(reg[timers[i]], reg[timers[j]])
  }

  /** The list holds exactly the pending timers, each one once, in order. */
  ghost predicate Inv(L: Loop) {
    && Listed(L.timers, L.reg)
    && Stamped(L.reg, L.armed)
    && Distinct(L.timers)
    && Sorted(L.timers, L.reg)
  }

  const EMPTY := Loop([], [], false, 0)

  /** The int result of the comparison is right for deadlines this close. */
  predicate Near(a: int, b: int) {
    -0x8000_0000 <= a - b < 0x8000_0000
  }

  /** A new deadline for `id` lies in the window of the other pending ones. */
  ghost predicate FitsAt(L: Loop, id: nat, time: nat) {
    forall k :: 0 <= k < |L.reg| && k != id && L.reg[k].pending ==> Near(L.reg[k].time, time)
  }

  /** The first listed deadline later than `time`. */
  predicate FirstLater(L: Loop, k: nat, time: nat) {
    && k < |L.timers| && L.timers[k] < |L.reg| && L.reg[L.timers[k]].time > time
    && (k > 0 ==> L.timers[k - 1] < |L.reg| && L.reg[L.timers[k - 1]].time <= time)
  }

  /** The comparison passes over all deadlines up to `time` and stops at the first later one. */
  ghost predicate SortsAt(L: Loop, time: nat) {
    && (forall k :: 0 <= k < |L.timers| && L.timers[k] < |L.reg| && L.reg[L.timers[k]].time <= time ==>
          ToInt(L.reg[L.timers[k]].time - time) <= 0)
    && (forall k: nat :: FirstLater(L, k, time) ==> ToInt(L.reg[L.timers[k]].time - time) > 0)
  }

  /** The deadline that an operation sets. */
  function Deadline(L: Loop, op: Op): nat {
    match op
    case New(msec, _, now) => if msec > 0 then now + msec else 0
    case In(id, msec, now) => if Live(L, id) then now + (if msec > 0 then msec else L.reg[id].msec) else 0
    case Add(id, msec) =>
      if Live(L, id) then L.reg[id].time + (if msec > 0 then msec else L.reg[id].msec) else 0
    case _ => 0
  }

  predicate Arms(L: Loop, op: Op) {
    match op
    case New(msec, _, _) => msec > 0
    case In(id, _, _) => Live(L, id)
    case Add(id, _) => Live(L, id)
    case _ => false
  }

  function Target(L: Loop, op: Op): nat {
    match op
    case In(id, _, _) => id
    case Add(id, _) => id
    case _ => |L.reg|
  }

  /** The list as `_timer_set` finds it. */
  function Disarmed(L: Loop, op: Op): Loop {
    if Target(L, op) < |L.reg| then Cancel(L, Target(L, op)) else L
  }

  /** The deadline that an operation sets is sorted in at its place. */
  ghost predicate Sorts(L: Loop, op: Op) {
    Arms(L, op) ==> SortsAt(Disarmed(L, op), Deadline(L, op))
  }

  ghost predicate SortsAll(L: Loop, ops: seq<Op>)
    decreases |ops|
  {
    ops == [] || (Sorts(L, ops[0]) && SortsAll(Exec(L, ops[0]), ops[1..]))
  }

  // ---- every operation keeps it --------------------------------------------------------

  /** The places of what is left. */
  lemma RemovePlaces(s: seq<nat>, x: nat)
    ensures var r := Remove(s, x); var p := Find(s, x);
            && p <= |s| && |r| == (if p < |s| then |s| - 1 else |s|)
            && forall k :: 0 <= k < |r| ==> r[k] == s[if k < p then k else k + 1]
  {
    hide Find;
  }

  lemma RemoveFacts(s: seq<nat>, x: nat)
    requires Distinct(s)
    ensures x !in Remove(s, x)
    ensures forall y :: y != x ==> (y in Remove(s, x) <==> y in s)
    ensures |Remove(s, x)| <= |s|
    ensures forall k :: 0 <= k < |Remove(s, x)| ==> Remove(s, x)[k] == s[if k < Find(s, x) then k else k + 1]
    ensures x in s ==> |Remove(s, x)| == |s| - 1
    ensures x !in s ==> Remove(s, x) == s
  {
    RemovePlaces(s, x);
    FindMeans(s, x);
    RemoveAbsent(s, x);
    var p, r := Find(s, x), Remove(s, x);
    hide *;
    forall y | y != x && y in s
      ensures y in r
    {
      var k :| 0 <= k < |s| && s[k] == y;
      assert r[if k < p then k else k - 1] == y;
    }
  }

  /** Where the objects in front of and behind the removed one are. */
  lemma FindMeans(s: seq<nat>, x: nat)
    requires Distinct(s)
    ensures var p := Find(s, x);
            && p <= |s| && (p < |s| <==> x in s) && (p < |s| ==> s[p] == x)
            && forall k :: 0 <= k < |s| && k != p ==> s[k] != x
  {
  }

  lemma RemoveAbsent(s: seq<nat>, x: nat)
    ensures x !in s ==> Remove(s, x) == s
  {
  }

  lemma ThinnedDistinct(s: seq<nat>, r: seq<nat>, p: nat)
    requires Distinct(s) && |r| <= |s| <= |r| + 1 && (p < |s| ==> |r| < |s|) && (p >= |s| ==> r == s)
    requires forall k :: 0 <= k < |r| ==> r[k] == s[if k < p then k else k + 1]
    ensures Distinct(r)
  {
  }

  lemma ThinnedSorted(s: seq<nat>, r: seq<nat>, p: nat, x: nat, reg: seq<Timer>, after: seq<Timer>)
    requires Sorted(s, reg) && |r| <= |s| <= |r| + 1 && (p < |s| ==> |r| < |s|) && (p >= |s| ==> r == s)
    requires forall k :: 0 <= k < |r| ==> r[k] == s[if k < p then k else k + 1]
    requires x !in r && |reg| == |after| && forall k :: 0 <= k < |reg| && k != x ==> after[k] == reg[k]
    ensures Sorted(r, after)
  {
    hide Before;
    forall i, j | 0 <= i < j < |r| && r[i] < |after| && r[j] < |after|
      ensures Before(after[r[i]], after[r[j]])
    {
      assert r[i] != x && r[j] != x;
    }
  }

  lemma RemoveKeeps(s: seq<nat>, x: nat, reg: seq<Timer>, after: seq<Timer>)
    requires Distinct(s) && Sorted(s, reg) && Listed(s, reg)
    requires x < |reg| == |after| && forall k :: 0 <= k < |reg| && k != x ==> after[k] == reg[k]
    ensures Distinct(Remove(s, x)) && Sorted(Remove(s, x), after)
  {
    hide *;
    RemoveFacts(s, x);
    FindMeans(s, x);
    ThinnedDistinct(s, Remove(s, x), Find(s, x));
    ThinnedSorted(s, Remove(s, x), Find(s, x), x, reg, after);
  }

  lemma CancelKeeps(L: Loop, id: nat)
    requires Inv(L) && id < |L.reg|
    ensures Inv(Cancel(L, id)) && !Cancel(L, id).reg[id].pending
    ensures |Cancel(L, id).reg| == |L.reg|
    ensures forall k :: 0 <= k < |L.reg| && k != id ==> Cancel(L, id).reg[k] == L.reg[k]
  {
    if L.reg[id].pending {
      RemoveFacts(L.timers, id);
      RemoveKeeps(L.timers, id, L.reg, Cancel(L, id).reg);
      hide Remove;
      hide Sorted;
      hide Distinct;
    }
  }

  lemma FindFirstLater(L: Loop, k: nat, time: nat) returns (q: nat)
    requires forall i :: 0 <= i < |L.timers| ==> L.timers[i] < |L.reg|
    requires k < |L.timers| && L.reg[L.timers[k]].time > time
    ensures q <= k && FirstLater(L, q, time)
  {
    q := k;
    while q > 0 && L.reg[L.timers[q - 1]].time > time
      invariant q <= k && L.reg[L.timers[q]].time > time
    {
      q := q - 1;
    }
  }

  /** What the scan of `list_sort_in` has seen when it stops at `p`. */
  lemma ScanSees(C: Loop, id: nat, time: nat, reg: seq<Timer>, p: nat)
    requires Listed(C.timers, C.reg) && id < |C.reg| && !C.reg[id].pending
    requires reg == C.reg[id := C.reg[id].(time := time, pending := true, stamp := C.armed)]
    requires p == SortPos(C.timers, id, CmpIn(reg))
    ensures p <= |C.timers|
    ensures forall k :: 0 <= k < |C.timers| ==>
              C.timers[k] < |reg| && C.timers[k] != id && reg[C.timers[k]] == C.reg[C.timers[k]]
    ensures forall k :: 0 <= k < p ==> ToInt(C.reg[C.timers[k]].time - time) <= 0
    ensures p < |C.timers| ==> ToInt(C.reg[C.timers[p]].time - time) > 0
  {
    hide Listed;
    hide SortPos;
    ListedBesides(C, id);
    var cmp := CmpIn(reg);
    forall k | 0 <= k < |C.timers|
      ensures C.timers[k] < |reg| && C.timers[k] != id && reg[C.timers[k]] == C.reg[C.timers[k]]
      ensures cmp(C.timers[k], id) == ToInt(C.reg[C.timers[k]].time - time)
    {
      assert C.timers[k] != id;
    }
    hide CmpIn;
    hide ToInt;
  }

  lemma ListedBesides(C: Loop, id: nat)
    requires Listed(C.timers, C.reg) && id < |C.reg| && !C.reg[id].pending
    ensures forall k :: 0 <= k < |C.timers| ==> C.timers[k] < |C.reg| && C.timers[k] != id
  {
  }

  /** Where the comparison stops, if it sorts this deadline. */
  lemma InsertPlace(C: Loop, id: nat, time: nat, reg: seq<Timer>, p: nat)
    requires Inv(C) && id < |C.reg| && !C.reg[id].pending && SortsAt(C, time)
    requires reg == C.reg[id := C.reg[id].(time := time, pending := true, stamp := C.armed)]
    requires p == SortPos(C.timers, id, CmpIn(reg))
    ensures forall k :: 0 <= k < |C.timers| ==> C.timers[k] < |reg| && C.timers[k] != id
    ensures forall k :: 0 <= k < p ==> Before(reg[C.timers[k]], reg[id])
    ensures forall k :: p <= k < |C.timers| ==> Before(reg[id], reg[C.timers[k]])
  {
    ScanSees(C, id, time, reg, p);
    ListedStamps(C);
    StopsLater(C, time, p);
    hide *;
    PassedEarlier(C, time, p);
    LaterBehind(C, id, time, reg, p);
    EarlierInFront(C, id, time, reg, p);
  }

  lemma ListedStamps(C: Loop)
    requires Inv(C)
    ensures forall k :: 0 <= k < |C.timers| ==> C.timers[k] < |C.reg| && C.reg[C.timers[k]].stamp < C.armed
    ensures Sorted(C.timers, C.reg)
  {
  }

  lemma StopsLater(C: Loop, time: nat, p: nat)
    requires forall i :: 0 <= i < |C.timers| ==> C.timers[i] < |C.reg|
    requires SortsAt(C, time) && p <= |C.timers|
    requires p < |C.timers| ==> ToInt(C.reg[C.timers[p]].time - time) > 0
    ensures p < |C.timers| ==> C.reg[C.timers[p]].time > time
  {
  }

  lemma EarlierInFront(C: Loop, id: nat, time: nat, reg: seq<Timer>, p: nat)
    requires id < |C.reg| && p <= |C.timers|
    requires reg == C.reg[id := C.reg[id].(time := time, pending := true, stamp := C.armed)]
    requires forall k :: 0 <= k < |C.timers| ==>
               && C.timers[k] < |C.reg| && C.timers[k] != id && reg[C.timers[k]] == C.reg[C.timers[k]]
               && C.reg[C.timers[k]].stamp < C.armed
    requires forall k :: 0 <= k < p ==> C.reg[C.timers[k]].time <= time
    ensures forall k :: 0 <= k < p ==> Before(reg[C.timers[k]], reg[id])
  {
  }

  /** The deadlines that the scan passes are not later. */
  lemma PassedEarlier(C: Loop, time: nat, p: nat)
    requires forall i :: 0 <= i < |C.timers| ==> C.timers[i] < |C.reg|
    requires SortsAt(C, time) && p <= |C.timers|
    requires forall k :: 0 <= k < p ==> ToInt(C.reg[C.timers[k]].time - time) <= 0
    ensures forall k :: 0 <= k < p ==> C.reg[C.timers[k]].time <= time
  {
    hide ToInt;
    forall k | 0 <= k < p
      ensures C.reg[C.timers[k]].time <= time
    {
      if C.reg[C.timers[k]].time > time {
        var q := FindFirstLater(C, k, time);
        assert false;
      }
    }
  }

  /** Everything behind a later deadline is later too. */
  lemma LaterBehind(C: Loop, id: nat, time: nat, reg: seq<Timer>, p: nat)
    requires Sorted(C.timers, C.reg) && id < |C.reg| && p <= |C.timers|
    requires reg == C.reg[id := C.reg[id].(time := time, pending := true, stamp := C.armed)]
    requires forall k :: 0 <= k < |C.timers| ==>
               C.timers[k] < |reg| && C.timers[k] != id && reg[C.timers[k]] == C.reg[C.timers[k]]
    requires p < |C.timers| ==> C.reg[C.timers[p]].time > time
    ensures forall k :: p <= k < |C.timers| ==> Before(reg[id], reg[C.timers[k]])
  {
    forall k | p <= k < |C.timers|
      ensures Before(reg[id], reg[C.timers[k]])
    {
      if k > p {
        assert Before(C.reg[C.timers[p]], C.reg[C.timers[k]]);
      }
    }
  }

  /** If the new timer stands in order, then the comparison was right where it had to be. */
  lemma InsertedSorts(C: Loop, id: nat, time: nat, reg: seq<Timer>, p: nat)
    requires Inv(C) && id < |C.reg| && !C.reg[id].pending
    requires reg == C.reg[id := C.reg[id].(time := time, pending := true, stamp := C.armed)]
    requires p == SortPos(C.timers, id, CmpIn(reg)) && Sorted(C.timers[..p] + [id] + C.timers[p..], reg)
    ensures SortsAt(C, time)
  {
    ScanSees(C, id, time, reg, p);
    hide SortPos;
    hide SortsAt;
    SplitByPlace(C, id, time, reg, p);
    hide Inv;
    hide Sorted;
    assert forall k: nat :: FirstLater(C, k, time) ==> k == p;
    SortsAtIs(C, time, p);
  }

  lemma SplitByPlace(C: Loop, id: nat, time: nat, reg: seq<Timer>, p: nat)
    requires Stamped(C.reg, C.armed) && Listed(C.timers, C.reg) && id < |C.reg| && p <= |C.timers|
    requires reg == C.reg[id := C.reg[id].(time := time, pending := true, stamp := C.armed)]
    requires forall k :: 0 <= k < |C.timers| ==>
               C.timers[k] < |reg| && C.timers[k] != id && reg[C.timers[k]] == C.reg[C.timers[k]]
    requires Sorted(C.timers[..p] + [id] + C.timers[p..], reg)
    ensures forall k :: 0 <= k < |C.timers| ==> (C.reg[C.timers[k]].time <= time <==> k < p)
  {
    var s := C.timers;
    var r := s[..p] + [id] + s[p..];
    forall k | 0 <= k < |s|
      ensures C.reg[s[k]].time <= time <==> k < p
    {
      assert r[p] == id && r[if k < p then k else k + 1] == s[k];
      if k < p {
        assert Before(reg[r[k]], reg[r[p]]);
      } else {
        assert Before(reg[r[p]], reg[r[k + 1]]);
      }
    }
  }

  lemma SortsAtIs(C: Loop, time: nat, p: nat)
    requires Listed(C.timers, C.reg) && p <= |C.timers|
    requires forall k :: 0 <= k < |C.timers| && C.reg[C.timers[k]].time <= time ==> k < p
    requires forall k: nat :: FirstLater(C, k, time) ==> k == p
    requires forall k :: 0 <= k < p ==> ToInt(C.reg[C.timers[k]].time - time) <= 0
    requires p < |C.timers| ==> ToInt(C.reg[C.timers[p]].time - time) > 0
    ensures SortsAt(C, time)
  {
  }

  /** Main result, for one insertion: it keeps the invariant exactly when the comparison sorts the deadline. */
  lemma InsertIff(C: Loop, id: nat, time: nat, reg: seq<Timer>)
    requires Inv(C) && id < |C.reg| && !C.reg[id].pending && !C.reg[id].deleted
    requires reg == C.reg[id := C.reg[id].(time := time, pending := true, stamp := C.armed)]
    ensures Inv(C.(reg := reg, timers := SortIn(C.timers, id, CmpIn(reg)), armed := C.armed + 1))
       <==> SortsAt(C, time)
  {
    var p := SortPos(C.timers, id, CmpIn(reg));
    if SortsAt(C, time) {
      InsertPlace(C, id, time, reg, p);
      assert Sorted(C.timers, reg);
      hide SortPos;
      InsertSorted(C.timers, id, p, reg);
      InsertListed(C.timers, id, p, C.reg, reg);
    } else if Sorted(SortIn(C.timers, id, CmpIn(reg)), reg) {
      InsertedSorts(C, id, time, reg, p);
    }
  }

  /** Deadlines that are all near the new one are a sufficient condition. */
  lemma NearSorts(C: Loop, id: nat, time: nat)
    requires Listed(C.timers, C.reg) && id < |C.reg| && !C.reg[id].pending && FitsAt(C, id, time)
    ensures SortsAt(C, time)
  {
    forall k | 0 <= k < |C.timers|
      ensures Near(C.reg[C.timers[k]].time, time)
    {
      assert C.reg[C.timers[k]].pending;
    }
  }

  lemma InsertListed(s: seq<nat>, id: nat, p: nat, reg: seq<Timer>, after: seq<Timer>)
    requires p <= |s| && id < |reg| && Listed(s, reg) && |after| == |reg|
    requires after[id].pending && !after[id].deleted
    requires forall k :: 0 <= k < |reg| && k != id ==> after[k] == reg[k]
    ensures Listed(s[..p] + [id] + s[p..], after)
  {
    var r := s[..p] + [id] + s[p..];
    assert r[p] == id;
    assert forall k :: 0 <= k < |s| ==> s[k] == r[if k < p then k else k + 1];
  }

  lemma InsertSorted(s: seq<nat>, id: nat, p: nat, reg: seq<Timer>)
    requires p <= |s| && id < |reg|
    requires forall k :: 0 <= k < |s| ==> s[k] < |reg| && s[k] != id
    requires Distinct(s) && Sorted(s, reg)
    requires forall k :: 0 <= k < p ==> Before(reg[s[k]], reg[id])
    requires forall k :: p <= k < |s| ==> Before(reg[id], reg[s[k]])
    ensures Distinct(s[..p] + [id] + s[p..]) && Sorted(s[..p] + [id] + s[p..], reg)
  {
    var r := s[..p] + [id] + s[p..];
    assert forall k :: 0 <= k < |r| ==> r[k] == if k == p then id else s[if k < p then k else k - 1];
  }

  lemma TimerSetIff(L: Loop, id: nat, time: nat)
    requires Inv(L) && id < |L.reg| && !L.reg[id].deleted
    ensures Inv(TimerSet(L, id, time)) <==> SortsAt(Cancel(L, id), time)
  {
    CancelKeeps(L, id);
    var C := Cancel(L, id);
    assert C.reg[id].deleted == L.reg[id].deleted;
    InsertIff(C, id, time, C.reg[id := C.reg[id].(time := time, pending := true, stamp := C.armed)]);
  }

  /** An interval changes neither the list nor what is sorted. */
  lemma SetMsecKeeps(L: Loop, id: nat, msec: int, time: nat)
    requires Inv(L) && id < |L.reg|
    ensures Inv(SetMsec(L, id, msec))
    ensures SortsAt(Cancel(SetMsec(L, id, msec), id), time) <==> SortsAt(Cancel(L, id), time)
  {
    SetMsecInv(L, id, msec);
    SetMsecSame(L, id, msec);
    CancelKeeps(L, id);
    var a, b := Cancel(SetMsec(L, id, msec), id), Cancel(L, id);
    assert forall k :: 0 <= k < |b.timers| ==> b.timers[k] < |b.reg|;
    hide *;
    SameTimes(a, b, time);
  }

  lemma SetMsecInv(L: Loop, id: nat, msec: int)
    requires Inv(L) && id < |L.reg|
    ensures Inv(SetMsec(L, id, msec))
  {
  }

  lemma SetMsecSame(L: Loop, id: nat, msec: int)
    requires id < |L.reg|
    ensures var a, b := Cancel(SetMsec(L, id, msec), id), Cancel(L, id);
            && a.timers == b.timers && |a.reg| == |b.reg|
            && forall k :: 0 <= k < |a.reg| ==> a.reg[k].time == b.reg[k].time
  {
  }

  lemma SameTimes(a: Loop, b: Loop, time: nat)
    requires a.timers == b.timers && |a.reg| <= |b.reg|
    requires forall k :: 0 <= k < |a.reg| ==> a.reg[k].time == b.reg[k].time
    requires forall k :: 0 <= k < |a.timers| ==> a.timers[k] < |a.reg|
    ensures SortsAt(a, time) <==> SortsAt(b, time)
  {
    hide ToInt;
    if SortsAt(a, time) {
      SortsToo(a, b, time);
    }
    if SortsAt(b, time) {
      SortsToo(b, a, time);
    }
  }

  lemma SortsToo(a: Loop, b: Loop, time: nat)
    requires SortsAt(a, time) && a.timers == b.timers
    requires forall k :: 0 <= k < |a.timers| ==>
               a.timers[k] < |a.reg| && a.timers[k] < |b.reg| && a.reg[a.timers[k]].time == b.reg[a.timers[k]].time
    ensures SortsAt(b, time)
  {
    hide ToInt;
    forall k: nat | FirstLater(b, k, time)
      ensures ToInt(b.reg[b.timers[k]].time - time) > 0
    {
      assert FirstLater(a, k, time);
    }
    hide FirstLater;
  }

  lemma UnarmedKeeps(L: Loop, callback: bool, time: nat)
    requires Inv(L)
    ensures Inv(Unarmed(L, callback)) && Cancel(Unarmed(L, callback), |L.reg|) == Unarmed(L, callback)
    ensures SortsAt(Unarmed(L, callback), time) <==> SortsAt(L, time)
  {
    SameTimes(L, Unarmed(L, callback), time);
  }

  lemma DeleteKeeps(L: Loop, id: nat)
    requires Inv(L) && id < |L.reg|
    ensures Inv(Delete(L, id))
  {
    CancelKeeps(L, id);
  }

  /** Main result: an operation keeps the invariant exactly when it sorts the deadline that it sets. */
  lemma ExecKeepsIff(L: Loop, op: Op)
    requires Inv(L)
    ensures Inv(Exec(L, op)) <==> Sorts(L, op)
  {
    hide Inv;
    hide TimerSet;
    hide SortsAt;
    match op
    case New(msec, callback, now) =>
      if msec > 0 {
        hide Cancel;
        UnarmedKeeps(L, callback, now + msec);
        ArmIff(Unarmed(L, callback), |L.reg|, msec, now + msec);
      }
    case Raw(callback) => UnarmedKeeps(L, callback, 0);
    case In(id, msec, now) =>
      if Live(L, id) {
        hide Cancel;
        ArmIff(L, id, msec, Deadline(L, op));
      }
    case Add(id, msec) =>
      if Live(L, id) {
        hide Cancel;
        ArmIff(L, id, msec, Deadline(L, op));
      }
    case Drop(id) =>
      if Live(L, id) {
        CancelKeeps(L, id);
      }
    case Free(id) =>
      if Live(L, id) {
        DeleteKeeps(L, id);
      }
    case Stop => RunningIgnored(L);
  }

  lemma RunningIgnored(L: Loop)
    requires Inv(L)
    ensures Inv(L.(running := false))
  {
  }

  lemma ArmIff(L: Loop, id: nat, msec: int, time: nat)
    requires Inv(L) && id < |L.reg| && !L.reg[id].deleted
    ensures Inv(TimerSet(SetMsec(L, id, msec), id, time)) <==> SortsAt(Cancel(L, id), time)
  {
    SetMsecKeeps(L, id, msec, time);
    hide Inv;
    hide TimerSet;
    hide SortsAt;
    hide Cancel;
    TimerSetIff(SetMsec(L, id, msec), id, time);
  }

  /** Deadlines in one window are always sorted. */
  lemma FitsSorts(L: Loop, op: Op)
    requires Inv(L) && (Arms(L, op) ==> FitsAt(L, Target(L, op), Deadline(L, op)))
    ensures Sorts(L, op)
  {
    var time := Deadline(L, op);
    if Arms(L, op) {
      var id := Target(L, op);
      if id < |L.reg| {
        CancelKeeps(L, id);
        NearSorts(Cancel(L, id), id, time);
      } else {
        UnarmedKeeps(L, false, time);
        NearSorts(Unarmed(L, false), id, time);
      }
    }
  }

  lemma {:induction false} ExecAllKeeps(L: Loop, ops: seq<Op>)
    requires Inv(L) && SortsAll(L, ops)
    ensures Inv(ExecAll(L, ops))
    decreases |ops|
  {
    if ops != [] {
      ExecKeepsIff(L, ops[0]);
      hide Inv;
      hide Exec;
      hide Sorts;
      ExecAllKeeps(Exec(L, ops[0]), ops[1..]);
    }
  }

  lemma {:induction false} ExecAllSorts(L: Loop, ops: seq<Op>)
    requires forall n :: 0 <= n <= |ops| ==> Inv(ExecAll(L, ops[..n]))
    ensures SortsAll(L, ops)
    decreases |ops|
  {
    assert Inv(ExecAll(L, ops[..0]));
    if ops != [] {
      var rest, next := ops[1..], Exec(L, ops[0]);
      forall n | 0 <= n <= |rest|
        ensures Inv(ExecAll(next, rest[..n]))
      {
        assert ops[..n + 1][0] == ops[0] && ops[..n + 1][1..] == rest[..n];
        assert Inv(ExecAll(L, ops[..n + 1]));
      }
      assert Inv(ExecAll(next, rest[..0]));
      ExecKeepsIff(L, ops[0]);
      hide Inv;
      hide Exec;
      hide Sorts;
      ExecAllSorts(next, rest);
    }
  }

  lemma {:induction false} SortsAllPrefix(L: Loop, ops: seq<Op>, n: nat)
    requires SortsAll(L, ops) && n <= |ops|
    ensures SortsAll(L, ops[..n])
    decreases |ops|
  {
    if n > 0 {
      assert ops[..n][0] == ops[0] && ops[..n][1..] == ops[1..][..n - 1];
      SortsAllPrefix(Exec(L, ops[0]), ops[1..], n - 1);
    }
  }

  /**
   * Main result, over whole runs from the empty loop: the invariant holds all the time exactly
   * when every deadline is sorted in at its place.
   */
  lemma RunKeepsIff(ops: seq<Op>)
    ensures (forall n :: 0 <= n <= |ops| ==> Inv(ExecAll(EMPTY, ops[..n]))) <==> SortsAll(EMPTY, ops)
  {
    if SortsAll(EMPTY, ops) {
      forall n | 0 <= n <= |ops|
        ensures Inv(ExecAll(EMPTY, ops[..n]))
      {
        SortsAllPrefix(EMPTY, ops, n);
        ExecAllKeeps(EMPTY, ops[..n]);
      }
    }
    if forall n :: 0 <= n <= |ops| ==> Inv(ExecAll(EMPTY, ops[..n])) {
      ExecAllSorts(EMPTY, ops);
    }
  }

  /** Each deadline lies in the window of those that are pending when it is set. */
  ghost predicate FitsAll(L: Loop, ops: seq<Op>)
    decreases |ops|
  {
    || ops == []
    || ((Arms(L, ops[0]) ==> FitsAt(L, Target(L, ops[0]), Deadline(L, ops[0]))) && FitsAll(Exec(L, ops[0]), ops[1..]))
  }

  lemma {:induction false} FitsAllSorts(L: Loop, ops: seq<Op>)
    requires Inv(L) && FitsAll(L, ops)
    ensures SortsAll(L, ops)
    decreases |ops|
  {
    if ops != [] {
      hide Inv;
      hide Exec;
      hide Sorts;
      hide FitsAt;
      FitsSorts(L, ops[0]);
      ExecKeepsIff(L, ops[0]);
      FitsAllSorts(Exec(L, ops[0]), ops[1..]);
    }
  }

  predicate InWindow(time: nat, lo: nat) {
    lo <= time < lo + 0x8000_0000
  }

  ghost predicate PendingIn(L: Loop, lo: nat) {
    forall id :: 0 <= id < |L.reg| && L.reg[id].pending ==> InWindow(L.reg[id].time, lo)
  }

  /** All deadlines that the operations set lie in one window of 2^31 ms. */
  predicate DeadlinesIn(L: Loop, ops: seq<Op>, lo: nat)
    decreases |ops|
  {
    || ops == []
    || ((Arms(L, ops[0]) ==> InWindow(Deadline(L, ops[0]), lo)) && DeadlinesIn(Exec(L, ops[0]), ops[1..], lo))
  }

  lemma SetPendingIn(L: Loop, id: nat, time: nat, lo: nat)
    requires PendingIn(L, lo) && id < |L.reg| && InWindow(time, lo)
    ensures PendingIn(TimerSet(L, id, time), lo)
  {
  }

  lemma ExecPendingIn(L: Loop, op: Op, lo: nat)
    requires PendingIn(L, lo) && (Arms(L, op) ==> InWindow(Deadline(L, op), lo))
    ensures PendingIn(Exec(L, op), lo)
  {
    hide TimerSet;
    match op
    case New(msec, callback, now) =>
      if msec > 0 {
        SetPendingIn(SetMsec(Unarmed(L, callback), |L.reg|, msec), |L.reg|, now + msec, lo);
      }
    case In(id, msec, now) =>
      if Live(L, id) {
        SetPendingIn(SetMsec(L, id, msec), id, Deadline(L, op), lo);
      }
    case Add(id, msec) =>
      if Live(L, id) {
        SetPendingIn(SetMsec(L, id, msec), id, Deadline(L, op), lo);
      }
    case _ =>
  }

  lemma {:induction false} WindowFits(L: Loop, ops: seq<Op>, lo: nat)
    requires PendingIn(L, lo) && DeadlinesIn(L, ops, lo)
    ensures FitsAll(L, ops)
    decreases |ops|
  {
    if ops != [] {
      ExecPendingIn(L, ops[0], lo);
      WindowFits(Exec(L, ops[0]), ops[1..], lo);
      hide Exec;
    }
  }

  /** Main result: a run whose deadlines all lie in one window of 2^31 ms keeps the invariant all the time. */
  lemma WindowRunKeeps(ops: seq<Op>, lo: nat)
    requires DeadlinesIn(EMPTY, ops, lo)
    ensures forall n :: 0 <= n <= |ops| ==> Inv(ExecAll(EMPTY, ops[..n]))
  {
    WindowFits(EMPTY, ops, lo);
    EmptyInv();
    FitsAllSorts(EMPTY, ops);
    RunKeepsIff(ops);
    hide *;
  }

  /** The comparison sees a difference modulo 2^32, and more than half of that as negative. */
  lemma TruncationIff(a: Timer, b: Timer)
    ensures TimerCmp(a, b) > 0 <==> 0 < (a.time - b.time) % 0x1_0000_0000 < 0x8000_0000
    ensures TimerCmp(a, b) == 0 <==> (a.time - b.time) % 0x1_0000_0000 == 0
  {
    var d, m := a.time - b.time, 0x1_0000_0000;
    assert (d + 0x8000_0000) % m == if d % m < 0x8000_0000 then d % m + 0x8000_0000 else d % m - 0x8000_0000;
  }

  const INT_MAX: int := 0x7FFF_FFFF

  /** Three operations at clock 0 after which the later of two timers stands in front. */
  const MISSORTED: seq<Op> := [New(1, true, 0), New(INT_MAX, true, 0), Add(1, 0)]

  lemma MissortedRun()
    ensures ExecAll(EMPTY, MISSORTED) == Loop([1, 0], [FIRST, LATER], false, 3)
    ensures FIRST.time < LATER.time
    ensures !Inv(ExecAll(EMPTY, MISSORTED)) && !SortsAll(EMPTY, MISSORTED)
  {
    MissortedEnd();
    var C := Loop([1, 0], [FIRST, LATER], false, 3);
    assert !Before(C.reg[C.timers[0]], C.reg[C.timers[1]]);
    assert !Inv(C);
    hide *;
    if SortsAll(EMPTY, MISSORTED) {
      EmptyInv();
      ExecAllKeeps(EMPTY, MISSORTED);
      assert false;
    }
  }

  lemma EmptyInv()
    ensures Inv(EMPTY)
  {
  }

  lemma MissortedEnd()
    ensures ExecAll(EMPTY, MISSORTED) == Loop([1, 0], [FIRST, LATER], false, 3)
  {
    FirstArmed();
    SecondArmed();
    SecondAdded();
    hide Exec;
    ExecOne(EMPTY, New(1, true, 0), [New(INT_MAX, true, 0), Add(1, 0)]);
    ExecOne(Loop([0], [FIRST], false, 1), New(INT_MAX, true, 0), [Add(1, 0)]);
    ExecOne(Loop([0, 1], [FIRST, SECOND], false, 2), Add(1, 0), []);
  }

  lemma ExecOne(L: Loop, op: Op, rest: seq<Op>)
    ensures ExecAll(L, [op] + rest) == ExecAll(Exec(L, op), rest)
  {
    assert ([op] + rest)[1..] == rest;
  }

  const FIRST := Timer(1, 1, true, true, false, 0)
  const SECOND := Timer(0x7FFF_FFFF, 0x7FFF_FFFF, true, true, false, 1)
  const LATER := Timer(0xFFFF_FFFE, 0x7FFF_FFFF, true, true, false, 2)

  lemma ExecSingle(L: Loop, op: Op)
    ensures ExecAll(L, [op]) == Exec(L, op)
  {
    assert [op][1..] == [];
  }

  lemma FirstArmed()
    ensures Exec(EMPTY, New(1, true, 0)) == Loop([0], [FIRST], false, 1)
  {
    assert [] + [Timer(0, 0, false, true, false, 0)] == [Timer(0, 0, false, true, false, 0)];
  }

  lemma SecondArmed()
    ensures Exec(Loop([0], [FIRST], false, 1), New(INT_MAX, true, 0)) == Loop([0, 1], [FIRST, SECOND], false, 2)
  {
    var cmp := CmpIn([FIRST, SECOND]);
    assert cmp(0, 1) == ToInt(1 - INT_MAX) == 1 - INT_MAX;
    SortInOne(0, 1, cmp);
  }

  lemma SecondAdded()
    ensures Exec(Loop([0, 1], [FIRST, SECOND], false, 2), Add(1, 0)) == Loop([1, 0], [FIRST, LATER], false, 3)
  {
    assert Remove([0, 1], 1) == [0];
    var cmp := CmpIn([FIRST, LATER]);
    assert cmp(0, 1) == ToInt(1 - 0xFFFF_FFFE) == 3;
    SortInOne(0, 1, cmp);
  }

  lemma SortInOne(x: nat, y: nat, cmp: (nat, nat) -> int)
    ensures SortIn([x], y, cmp) == if cmp(x, y) > 0 then [y, x] else [x, y]
  {
    assert SortPos([x], y, cmp) == if cmp(x, y) > 0 then 0 else 1;
  }

  // ---- draining ------------------------------------------------------------------------

  predicate Due(L: Loop, now: nat) {
    L.running && L.timers != [] && L.timers[0] < |L.reg| && L.reg[L.timers[0]].time <= now
  }

  /** The first timer leaves the list and is not pending any more. */
  function Fire(L: Loop): Loop
    requires L.timers != [] && L.timers[0] < |L.reg|
  {
    var id := L.timers[0];
    L.(timers := L.timers[1..], reg := L.reg[id := L.reg[id].(pending := false)])
  }

  /** The callback, or the deletion of a timer that has none. */
  function Call(L: Loop, id: nat, ops: seq<Op>): Loop
    requires id < |L.reg|
  {
    if L.reg[id].callback then ExecAll(L, ops) else Delete(L, id)
  }

  /** One round of the loop of `_handle_timers`. */
  function Round(L: Loop, ops: seq<Op>): Loop
    requires L.timers != [] && L.timers[0] < |L.reg|
  {
    Call(Fire(L), L.timers[0], ops)
  }

  datatype Fired = Fired(id: nat, time: nat)

  function Head(L: Loop): Fired
    requires L.timers != [] && L.timers[0] < |L.reg|
  {
    Fired(L.timers[0], L.reg[L.timers[0]].time)
  }

  /**
   * At most `n` rounds after the clock reading `now`, and the timers that fired: `script(k)`
   * is what the k-th callback does.
   */
  function Rounds(L: Loop, now: nat, script: nat -> seq<Op>, k: nat, n: nat): (Loop, seq<Fired>)
    decreases n
  {
    if n == 0 || !Due(L, now) then (L, [])
    else
      var (R, log) := Rounds(Round(L, script(k)), now, script, k + 1, n - 1);
      (R, [Head(L)] + log)
  }

  /** The loop is over after `n` rounds. */
  predicate Over(L: Loop, now: nat, script: nat -> seq<Op>, k: nat, n: nat) {
    !Due(Rounds(L, now, script, k, n).0, now)
  }

  ghost predicate Ends(L: Loop, now: nat, script: nat -> seq<Op>) {
    exists n: nat :: Over(L, now, script, 0, n)
  }

  /** However many rounds are allowed, a loop that is over has ended in one way. */
  lemma {:induction false} OverOnce(L: Loop, now: nat, script: nat -> seq<Op>, k: nat, m: nat, n: nat)
    requires Over(L, now, script, k, m) && Over(L, now, script, k, n)
    ensures Rounds(L, now, script, k, m) == Rounds(L, now, script, k, n)
    decreases m
  {
    if Due(L, now) {
      OverOnce(Round(L, script(k)), now, script, k + 1, m - 1, n - 1);
    }
  }

  /** The clock readings of an operation are not before `now`. */
  predicate ReadsAfter(op: Op, now: nat) {
    match op
    case New(_, _, t) => t >= now
    case In(_, _, t) => t >= now
    case _ => true
  }

  predicate AllAfter(ops: seq<Op>, now: nat) {
    forall i :: 0 <= i < |ops| ==> ReadsAfter(ops[i], now)
  }

  /** The clock readings of all callbacks are monotone. */
  ghost predicate Monotone(script: nat -> seq<Op>, now: nat) {
    forall k :: AllAfter(script(k), now)
  }

  // ---- why a drain ends ----------------------------------------------------------------

  /** No timer with a callback is armed with interval 0, and no timer is made without arming it. */
  predicate Steady(L: Loop, op: Op) {
    match op
    case Raw(_) => false
    case In(id, msec, _) => Live(L, id) && L.reg[id].callback ==> msec > 0 || L.reg[id].msec > 0
    case Add(id, msec) => Live(L, id) && L.reg[id].callback ==> msec > 0 || L.reg[id].msec > 0
    case _ => true
  }

  predicate SteadyAll(L: Loop, ops: seq<Op>)
    decreases |ops|
  {
    ops == [] || (Steady(L, ops[0]) && SteadyAll(Exec(L, ops[0]), ops[1..]))
  }

  /** The callbacks of the first `n` rounds are steady. */
  predicate SteadyRounds(L: Loop, now: nat, script: nat -> seq<Op>, k: nat, n: nat)
    decreases n
  {
    n > 0 && Due(L, now) ==>
      && (L.reg[L.timers[0]].callback ==> SteadyAll(Fire(L), script(k)))
      && SteadyRounds(Round(L, script(k)), now, script, k + 1, n - 1)
  }

  /**
   * How long a timer may still keep the loop busy: one with a callback as often as it can be
   * armed again up to `now`, and one without, which is deleted when it fires, at most once.
   */
  function Lag(t: Timer, now: nat): nat {
    if t.callback then
      (if t.time <= now then now + 1 - t.time else 0) + (if t.pending && t.time <= now then 1 else 0)
    else if t.deleted || (t.time > now && t.msec > 0) then 0 else 1
  }

  function Potential(reg: seq<Timer>, now: nat): nat {
    if reg == [] then 0 else Lag(reg[|reg| - 1], now) + Potential(reg[..|reg| - 1], now)
  }

  lemma {:induction false} PotentialUpdate(reg: seq<Timer>, id: nat, t: Timer, now: nat)
    requires id < |reg|
    ensures Potential(reg[id := t], now) == Potential(reg, now) - Lag(reg[id], now) + Lag(t, now)
    decreases |reg|
  {
    var n := |reg| - 1;
    if id < n {
      PotentialUpdate(reg[..n], id, t, now);
      assert reg[id := t][..n] == reg[..n][id := t];
    } else {
      assert reg[id := t][..n] == reg[..n];
    }
  }

  lemma CancelPotential(L: Loop, id: nat, now: nat)
    requires id < |L.reg|
    ensures Potential(Cancel(L, id).reg, now) <= Potential(L.reg, now)
    ensures Potential(Delete(L, id).reg, now) <= Potential(L.reg, now)
    ensures !L.reg[id].callback && !L.reg[id].deleted && (L.reg[id].time <= now || L.reg[id].msec == 0) ==>
              Potential(Delete(L, id).reg, now) < Potential(L.reg, now)
  {
    if L.reg[id].pending {
      PotentialUpdate(L.reg, id, L.reg[id].(pending := false), now);
    }
    var C := Cancel(L, id);
    PotentialUpdate(C.reg, id, C.reg[id].(deleted := true), now);
  }

  /** Arming a timer with a positive interval, or one without a callback, costs at least what it gains. */
  lemma ArmPotential(L: Loop, id: nat, msec: int, from: nat, now: nat)
    requires id < |L.reg| && !L.reg[id].deleted && (from >= now || from == L.reg[id].time)
    requires L.reg[id].callback ==> msec > 0 || L.reg[id].msec > 0
    ensures var M := SetMsec(L, id, msec);
            Potential(TimerSet(M, id, from + M.reg[id].msec).reg, now) <= Potential(L.reg, now)
  {
    var M := SetMsec(L, id, msec);
    var C := Cancel(M, id);
    var armed := C.reg[id].(time := from + M.reg[id].msec, pending := true, stamp := C.armed);
    PotentialUpdate(L.reg, id, armed, now);
    assert C.reg[id := armed] == L.reg[id := armed];
  }

  lemma NewPotential(L: Loop, msec: int, callback: bool, t: nat, now: nat)
    requires msec > 0 && t >= now
    ensures Potential(TimerNew(L, msec, callback, t).reg, now) <= Potential(L.reg, now)
  {
    var id := |L.reg|;
    var fresh_ := Timer(t + msec, msec, true, callback, false, L.armed);
    var reg := TimerNew(L, msec, callback, t).reg;
    assert reg == L.reg + [fresh_];
    assert reg[..id] == L.reg;
  }

  lemma ExecPotential(L: Loop, op: Op, now: nat)
    requires ReadsAfter(op, now) && Steady(L, op)
    ensures Potential(Exec(L, op).reg, now) <= Potential(L.reg, now)
  {
    hide Potential;
    hide TimerSet;
    hide Cancel;
    hide Delete;
    match op
    case New(msec, callback, t) =>
      if msec > 0 {
        NewPotential(L, msec, callback, t, now);
      }
    case In(id, msec, t) =>
      if Live(L, id) {
        ArmPotential(L, id, msec, t, now);
      }
    case Add(id, msec) =>
      if Live(L, id) {
        ArmPotential(L, id, msec, L.reg[id].time, now);
      }
    case Drop(id) =>
      if Live(L, id) {
        CancelPotential(L, id, now);
      }
    case Free(id) =>
      if Live(L, id) {
        CancelPotential(L, id, now);
      }
    case Stop =>
  }

  lemma {:induction false} ExecAllPotential(L: Loop, ops: seq<Op>, now: nat)
    requires AllAfter(ops, now) && SteadyAll(L, ops)
    ensures Potential(ExecAll(L, ops).reg, now) <= Potential(L.reg, now)
    decreases |ops|
  {
    if ops != [] {
      ExecPotential(L, ops[0], now);
      hide Exec;
      hide Steady;
      ExecAllPotential(Exec(L, ops[0]), ops[1..], now);
    }
  }

  lemma FirePotential(L: Loop, now: nat)
    requires Due(L, now) && L.reg[L.timers[0]].pending
    ensures Potential(Fire(L).reg, now) == Potential(L.reg, now) - if L.reg[L.timers[0]].callback then 1 else 0
  {
    var id := L.timers[0];
    PotentialUpdate(L.reg, id, L.reg[id].(pending := false), now);
  }

  // ---- what holds whatever the deadlines are -------------------------------------------

  /** The part of the invariant that does not depend on the order. */
  ghost predicate Base(L: Loop) {
    Listed(L.timers, L.reg) && Distinct(L.timers)
  }

  lemma CancelBase(L: Loop, id: nat)
    requires Base(L) && id < |L.reg|
    ensures Base(Cancel(L, id)) && !Cancel(L, id).reg[id].pending
    ensures |Cancel(L, id).reg| == |L.reg| && Cancel(L, id).reg[id].deleted == L.reg[id].deleted
  {
    if L.reg[id].pending {
      RemoveListed(L.timers, id, L.reg);
      RemoveDistinct(L.timers, id);
      hide Remove;
      hide Distinct;
      hide Listed;
    }
  }

  lemma RemoveListed(s: seq<nat>, id: nat, reg: seq<Timer>)
    requires Listed(s, reg) && Distinct(s) && id < |reg|
    ensures Listed(Remove(s, id), reg[id := reg[id].(pending := false)])
  {
    hide *;
    RemoveFacts(s, id);
    ListedMembers(s, reg);
    ListedMembers(Remove(s, id), reg[id := reg[id].(pending := false)]);
  }

  lemma ListedMembers(s: seq<nat>, reg: seq<Timer>)
    ensures Listed(s, reg) <==>
            && (forall y: nat :: y in s ==> y < |reg| && reg[y].pending)
            && (forall y: nat :: y < |reg| && reg[y].pending ==> y in s && !reg[y].deleted)
  {
    assert forall k :: 0 <= k < |s| ==> s[k] in s;
  }

  lemma RemoveDistinct(s: seq<nat>, x: nat)
    requires Distinct(s)
    ensures Distinct(Remove(s, x))
  {
    RemoveFacts(s, x);
    hide Remove;
  }

  lemma FreeBase(L: Loop, id: nat)
    requires Base(L) && id < |L.reg|
    ensures Base(Delete(L, id))
  {
    CancelBase(L, id);
    hide Cancel;
    hide Distinct;
  }

  lemma TimerSetBase(L: Loop, id: nat, time: nat)
    requires Base(L) && id < |L.reg| && !L.reg[id].deleted
    ensures Base(TimerSet(L, id, time))
  {
    CancelBase(L, id);
    var C := Cancel(L, id);
    var reg := C.reg[id := C.reg[id].(time := time, pending := true, stamp := C.armed)];
    var p := SortPos(C.timers, id, CmpIn(reg));
    hide Cancel;
    hide SortPos;
    InsertListed(C.timers, id, p, C.reg, reg);
    assert id !in C.timers;
    InsertDistinct(C.timers, id, p);
  }

  lemma InsertDistinct(s: seq<nat>, id: nat, p: nat)
    requires p <= |s| && Distinct(s) && id !in s
    ensures Distinct(s[..p] + [id] + s[p..])
  {
    var r := s[..p] + [id] + s[p..];
    assert forall k :: 0 <= k < |r| ==> r[k] == if k == p then id else s[if k < p then k else k - 1];
  }

  lemma ExecBase(L: Loop, op: Op)
    requires Base(L)
    ensures Base(Exec(L, op))
  {
    hide TimerSet;
    hide Cancel;
    hide Delete;
    match op
    case New(msec, callback, now) =>
      if msec > 0 {
        TimerSetBase(SetMsec(Unarmed(L, callback), |L.reg|, msec), |L.reg|, now + msec);
      }
    case Raw(callback) =>
    case In(id, msec, now) =>
      if Live(L, id) {
        var M := SetMsec(L, id, msec);
        TimerSetBase(M, id, now + M.reg[id].msec);
      }
    case Add(id, msec) =>
      if Live(L, id) {
        var M := SetMsec(L, id, msec);
        TimerSetBase(M, id, M.reg[id].time + M.reg[id].msec);
      }
    case Drop(id) =>
      if Live(L, id) {
        CancelBase(L, id);
      }
    case Free(id) =>
      if Live(L, id) {
        FreeBase(L, id);
      }
    case Stop =>
  }

  lemma {:induction false} ExecAllBase(L: Loop, ops: seq<Op>)
    requires Base(L)
    ensures Base(ExecAll(L, ops))
    decreases |ops|
  {
    if ops != [] {
      ExecBase(L, ops[0]);
      ExecAllBase(Exec(L, ops[0]), ops[1..]);
    }
  }

  lemma RoundBase(L: Loop, ops: seq<Op>)
    requires Base(L) && L.timers != []
    ensures Base(Fire(L)) && Base(Round(L, ops))
  {
    var F := Fire(L);
    assert Base(F);
    hide Base;
    if F.reg[L.timers[0]].callback {
      ExecAllBase(F, ops);
    } else {
      FreeBase(F, L.timers[0]);
    }
  }

  /** Each steady round costs potential: the callbacks cannot keep the loop busy for ever. */
  lemma RoundShrinks(L: Loop, now: nat, ops: seq<Op>)
    requires Base(L) && Due(L, now) && AllAfter(ops, now)
    requires L.reg[L.timers[0]].callback ==> SteadyAll(Fire(L), ops)
    ensures Base(Round(L, ops)) && Potential(Round(L, ops).reg, now) < Potential(L.reg, now)
  {
    var id := L.timers[0];
    RoundBase(L, ops);
    FirePotential(L, now);
    assert !L.reg[id].deleted;
    var F := Fire(L);
    hide Potential;
    hide Base;
    if F.reg[id].callback {
      ExecAllPotential(F, ops, now);
    } else {
      CancelPotential(F, id, now);
    }
  }

  /** Main result: what fires is due, and steady callbacks can fire no more timers than the potential allows. */
  lemma {:induction false} DrainBounded(L: Loop, now: nat, script: nat -> seq<Op>, k: nat, n: nat)
    requires Base(L) && Monotone(script, now) && SteadyRounds(L, now, script, k, n)
    ensures var (R, log) := Rounds(L, now, script, k, n);
            && |log| + Potential(R.reg, now) <= Potential(L.reg, now)
            && (Due(R, now) ==> |log| == n)
            && forall i :: 0 <= i < |log| ==> log[i].time <= now
    decreases n
  {
    if n > 0 && Due(L, now) {
      RoundShrinks(L, now, script(k));
      hide Base;
      hide Potential;
      hide Round;
      hide SteadyAll;
      DrainBounded(Round(L, script(k)), now, script, k + 1, n - 1);
    }
  }

  /** Main result: with steady callbacks the loop ends, within as many rounds. */
  lemma SteadyEnds(L: Loop, now: nat, script: nat -> seq<Op>)
    requires Base(L) && Monotone(script, now)
    requires SteadyRounds(L, now, script, 0, Potential(L.reg, now) + 1)
    ensures Over(L, now, script, 0, Potential(L.reg, now) + 1) && Ends(L, now, script)
  {
    var n := Potential(L.reg, now) + 1;
    DrainBounded(L, now, script, 0, n);
    hide Rounds;
    assert Over(L, now, script, 0, n);
  }

  // ---- what a drain leaves -------------------------------------------------------------

  /** All deadlines that the callbacks of the first `n` rounds set are sorted in at their place. */
  ghost predicate SortsRounds(L: Loop, now: nat, script: nat -> seq<Op>, k: nat, n: nat)
    decreases n
  {
    n > 0 && Due(L, now) ==>
      && (L.reg[L.timers[0]].callback ==> SortsAll(Fire(L), script(k)))
      && SortsRounds(Round(L, script(k)), now, script, k + 1, n - 1)
  }

  lemma FireKeeps(L: Loop)
    requires Inv(L) && L.timers != []
    ensures Inv(Fire(L))
  {
  }

  lemma RoundKeeps(L: Loop, ops: seq<Op>)
    requires Inv(L) && L.timers != []
    requires L.reg[L.timers[0]].callback ==> SortsAll(Fire(L), ops)
    ensures Inv(Round(L, ops))
  {
    FireKeeps(L);
    var id := L.timers[0];
    assert id < |L.reg|;
    hide Inv;
    if L.reg[id].callback {
      ExecAllKeeps(Fire(L), ops);
    } else {
      DeleteKeeps(Fire(L), id);
    }
  }

  /**
   * Main result: every round keeps the invariant, and a loop that is over leaves no due timer
   * unless it was stopped.
   */
  lemma {:induction false} DrainComplete(L: Loop, now: nat, script: nat -> seq<Op>, k: nat, n: nat)
    requires Inv(L) && SortsRounds(L, now, script, k, n)
    ensures var R := Rounds(L, now, script, k, n).0;
            && Inv(R)
            && (Over(L, now, script, k, n) && R.running ==>
                  forall id :: 0 <= id < |R.reg| && R.reg[id].pending ==> R.reg[id].time > now)
    decreases n
  {
    if n > 0 && Due(L, now) {
      RoundKeeps(L, script(k));
      hide Inv;
      hide Round;
      DrainComplete(Round(L, script(k)), now, script, k + 1, n - 1);
    } else {
      HeadIsFirst(L);
    }
  }

  /** No pending timer is due earlier than the head of the list. */
  lemma HeadIsFirst(L: Loop)
    requires Inv(L)
    ensures forall id :: 0 <= id < |L.reg| && L.reg[id].pending ==>
              L.timers != [] && L.timers[0] < |L.reg| && L.reg[L.timers[0]].time <= L.reg[id].time
  {
    forall id | 0 <= id < |L.reg| && L.reg[id].pending
      ensures L.timers != [] && L.timers[0] < |L.reg| && L.reg[L.timers[0]].time <= L.reg[id].time
    {
      var k :| 0 <= k < |L.timers| && L.timers[k] == id;
      if k > 0 {
        assert Before(L.reg[L.timers[0]], L.reg[L.timers[k]]);
      }
    }
  }

  // ---- the order of firing -------------------------------------------------------------

  ghost predicate AtLeast(L: Loop, d: nat) {
    forall id :: 0 <= id < |L.reg| && L.reg[id].pending ==> L.reg[id].time >= d
  }

  /** Callbacks use `mloop_timer_add` only on the timer that fired. */
  predicate AddsOnly(ops: seq<Op>, id: nat) {
    forall i :: 0 <= i < |ops| && ops[i].Add? ==> ops[i].id == id
  }

  predicate AddsOwn(L: Loop, now: nat, script: nat -> seq<Op>, k: nat, n: nat)
    decreases n
  {
    n > 0 && Due(L, now) ==>
      AddsOnly(script(k), L.timers[0]) && AddsOwn(Round(L, script(k)), now, script, k + 1, n - 1)
  }

  lemma TimerSetAtLeast(L: Loop, id: nat, time: nat, own: nat, d: nat)
    requires AtLeast(L, d) && id < |L.reg| && time >= d && own < |L.reg| && L.reg[own].time >= d
    ensures AtLeast(TimerSet(L, id, time), d) && TimerSet(L, id, time).reg[own].time >= d
    ensures |TimerSet(L, id, time).reg| == |L.reg|
  {
  }

  lemma ExecAtLeast(L: Loop, op: Op, own: nat, now: nat, d: nat)
    requires AtLeast(L, d) && own < |L.reg| && L.reg[own].time >= d
    requires ReadsAfter(op, now) && now >= d && (op.Add? ==> op.id == own)
    ensures AtLeast(Exec(L, op), d) && own < |Exec(L, op).reg| && Exec(L, op).reg[own].time >= d
  {
    hide TimerSet;
    match op
    case New(msec, callback, t) =>
      if msec > 0 {
        TimerSetAtLeast(SetMsec(Unarmed(L, callback), |L.reg|, msec), |L.reg|, t + msec, own, d);
      }
    case In(id, msec, t) =>
      if Live(L, id) {
        var M := SetMsec(L, id, msec);
        TimerSetAtLeast(M, id, t + M.reg[id].msec, own, d);
      }
    case Add(id, msec) =>
      if Live(L, id) {
        var M := SetMsec(L, id, msec);
        TimerSetAtLeast(M, id, M.reg[id].time + M.reg[id].msec, own, d);
      }
    case _ =>
  }

  lemma {:induction false} ExecAllAtLeast(L: Loop, ops: seq<Op>, own: nat, now: nat, d: nat)
    requires AtLeast(L, d) && own < |L.reg| && L.reg[own].time >= d && now >= d
    requires AddsOnly(ops, own) && AllAfter(ops, now)
    ensures AtLeast(ExecAll(L, ops), d)
    decreases |ops|
  {
    if ops != [] {
      ExecAtLeast(L, ops[0], own, now, d);
      hide Exec;
      ExecAllAtLeast(Exec(L, ops[0]), ops[1..], own, now, d);
    }
  }

  lemma RoundAtLeast(L: Loop, ops: seq<Op>, now: nat)
    requires Inv(L) && Due(L, now) && AddsOnly(ops, L.timers[0]) && AllAfter(ops, now)
    ensures AtLeast(Round(L, ops), L.reg[L.timers[0]].time)
  {
    HeadIsFirst(L);
    var id := L.timers[0];
    var F := Fire(L);
    if F.reg[id].callback {
      ExecAllAtLeast(F, ops, id, now, L.reg[id].time);
    }
  }

  /** Main result: with own re-arming only, the deadlines of the timers that fire never decrease. */
  lemma {:induction false} FiredInOrder(L: Loop, now: nat, script: nat -> seq<Op>, k: nat, n: nat, d: nat)
    requires Inv(L) && Monotone(script, now) && SortsRounds(L, now, script, k, n)
    requires AddsOwn(L, now, script, k, n) && AtLeast(L, d)
    ensures Ascending(Rounds(L, now, script, k, n).1, d)
    decreases n
  {
    if n > 0 && Due(L, now) {
      var e := L.reg[L.timers[0]].time;
      RoundKeeps(L, script(k));
      RoundAtLeast(L, script(k), now);
      assert e >= d;
      hide Inv;
      hide Round;
      hide AtLeast;
      FiredInOrder(Round(L, script(k)), now, script, k + 1, n - 1, e);
      AscendingFrom(Fired(L.timers[0], e), Rounds(Round(L, script(k)), now, script, k + 1, n - 1).1, d);
    }
  }

  predicate Ascending(log: seq<Fired>, d: nat) {
    && (forall i :: 0 <= i < |log| ==> d <= log[i].time)
    && (forall i, j :: 0 <= i < j < |log| ==> log[i].time <= log[j].time)
  }

  lemma AscendingFrom(first: Fired, log: seq<Fired>, d: nat)
    requires first.time >= d && Ascending(log, first.time)
    ensures Ascending([first] + log, d)
  {
  }

  // ---- stopping ------------------------------------------------------------------------

  lemma ExecStops(L: Loop, op: Op)
    ensures Exec(L, op).running <==> L.running && op != Stop
  {
    hide Remove;
    hide SortIn;
  }

  /** The loop runs on if and only if nothing stops it. */
  lemma {:induction false} StopsIff(L: Loop, ops: seq<Op>)
    ensures ExecAll(L, ops).running <==> L.running && Stop !in ops
    decreases |ops|
  {
    if ops != [] {
      hide Exec;
      ExecStops(L, ops[0]);
      StopsIff(Exec(L, ops[0]), ops[1..]);
    }
  }

  /** Main result: a timer whose callback stops the loop is the last one that fires. */
  lemma StopIsLast(L: Loop, now: nat, script: nat -> seq<Op>, k: nat, n: nat)
    requires Due(L, now) && n > 0 && L.reg[L.timers[0]].callback && Stop in script(k)
    ensures Rounds(L, now, script, k, n) == (ExecAll(Fire(L), script(k)), [Head(L)])
    ensures !ExecAll(Fire(L), script(k)).running && Over(L, now, script, k, n)
  {
    StopsIff(Fire(L), script(k));
    hide ExecAll;
    assert [Head(L)] + [] == [Head(L)];
    assert Rounds(Round(L, script(k)), now, script, k + 1, n - 1) == (Round(L, script(k)), []);
  }

  /** The i-th callback of the drain stops the loop. */
  predicate StopsAt(L: Loop, now: nat, script: nat -> seq<Op>, k: nat, i: nat) {
    var (S, log) := Rounds(L, now, script, k, i);
    |log| == i && Due(S, now) && S.reg[S.timers[0]].callback && Stop in script(k + i)
  }

  /** Over any number of rounds: behind a callback that stops nothing fires. */
  lemma {:induction false} StopEnds(L: Loop, now: nat, script: nat -> seq<Op>, k: nat, n: nat, i: nat)
    requires i < n && StopsAt(L, now, script, k, i)
    ensures var (R, log) := Rounds(L, now, script, k, n);
            |log| == i + 1 && !R.running && log[..i] == Rounds(L, now, script, k, i).1
    decreases i
  {
    if i == 0 {
      StopIsLast(L, now, script, k, n);
    } else {
      var next := Round(L, script(k));
      hide Round;
      StopEnds(next, now, script, k + 1, n - 1, i - 1);
      var more := Rounds(next, now, script, k + 1, n - 1).1;
      assert ([Head(L)] + more)[..i] == [Head(L)] + more[..i - 1];
    }
  }

  /** The operations on a timer. */
  predicate Touches(op: Op, id: nat) {
    match op
    case In(i, _, _) => i == id
    case Add(i, _) => i == id
    case Drop(i) => i == id
    case Free(i) => i == id
    case _ => false
  }

  lemma ExecLeaves(L: Loop, op: Op, id: nat)
    requires id < |L.reg| && !Touches(op, id)
    ensures id < |Exec(L, op).reg| && Exec(L, op).reg[id] == L.reg[id]
  {
    hide Remove;
    hide SortIn;
  }

  /** What no operation touches stays as it is, pending with its deadline or not. */
  lemma {:induction false} ExecAllLeaves(L: Loop, ops: seq<Op>, id: nat)
    requires id < |L.reg| && forall i :: 0 <= i < |ops| ==> !Touches(ops[i], id)
    ensures id < |ExecAll(L, ops).reg| && ExecAll(L, ops).reg[id] == L.reg[id]
    decreases |ops|
  {
    if ops != [] {
      hide Exec;
      hide Touches;
      ExecLeaves(L, ops[0], id);
      ExecAllLeaves(Exec(L, ops[0]), ops[1..], id);
    }
  }

  /** What was pending behind a callback that stops the loop, and is not touched by it, stays pending. */
  lemma StopLeavesPending(L: Loop, now: nat, script: nat -> seq<Op>, k: nat, n: nat, id: nat)
    requires Due(L, now) && n > 0 && L.reg[L.timers[0]].callback && Stop in script(k)
    requires id < |L.reg| && id != L.timers[0] && forall i :: 0 <= i < |script(k)| ==> !Touches(script(k)[i], id)
    ensures var R := Rounds(L, now, script, k, n).0; id < |R.reg| && R.reg[id] == L.reg[id]
  {
    hide ExecAll;
    hide Rounds;
    hide Touches;
    StopIsLast(L, now, script, k, n);
    ExecAllLeaves(Fire(L), script(k), id);
  }

  /** Main result: a loop whose callbacks never stop it runs on, and leaves no due timer when it ends. */
  lemma {:induction false} NeverStopped(L: Loop, now: nat, script: nat -> seq<Op>, k: nat, n: nat)
    requires L.running && forall i: nat :: Stop !in script(i)
    ensures Rounds(L, now, script, k, n).0.running
    decreases n
  {
    if n > 0 && Due(L, now) {
      var F := Fire(L);
      StopsIff(F, script(k));
      DeleteRuns(F, L.timers[0]);
      hide ExecAll;
      hide Delete;
      NeverStopped(Round(L, script(k)), now, script, k + 1, n - 1);
    }
  }

  lemma DeleteRuns(L: Loop, id: nat)
    requires id < |L.reg|
    ensures Delete(L, id).running == L.running
  {
  }

  lemma NeverStoppedComplete(L: Loop, now: nat, script: nat -> seq<Op>, n: nat)
    requires Inv(L) && SortsRounds(L, now, script, 0, n) && L.running && forall i: nat :: Stop !in script(i)
    requires Over(L, now, script, 0, n)
    ensures var R := Rounds(L, now, script, 0, n).0;
            R.running && forall id :: 0 <= id < |R.reg| && R.reg[id].pending ==> R.reg[id].time > now
  {
    hide *;
    NeverStopped(L, now, script, 0, n);
    DrainComplete(L, now, script, 0, n);
  }

  // ---- what an operation does to its timer ---------------------------------------------

  /** An armed timer: its interval is the given one when that is positive, and its deadline counts from `base`. */
  function Armed(t: Timer, base: nat, msec: int, stamp: nat): Timer {
    var interval := if msec > 0 then msec else t.msec;
    t.(msec := interval, time := base + interval, pending := true, stamp := stamp)
  }

  /** Main result: the timer that an operation names, and all others, after it. */
  lemma ExecEffect(L: Loop, op: Op)
    ensures var R := Exec(L, op);
            match op
            case New(msec, callback, now) =>
              R.reg == if msec <= 0 then L.reg
                       else L.reg + [Timer(now + msec, msec, true, callback, false, L.armed)]
            case Raw(callback) => R.reg == L.reg + [Timer(0, 0, false, callback, false, 0)] && R.timers == L.timers
            case In(id, msec, now) =>
              R.reg == if Live(L, id) then L.reg[id := Armed(L.reg[id], now, msec, L.armed)] else L.reg
            case Add(id, msec) =>
              R.reg == if Live(L, id) then L.reg[id := Armed(L.reg[id], L.reg[id].time, msec, L.armed)] else L.reg
            case Drop(id) => R.reg == if Live(L, id) then L.reg[id := L.reg[id].(pending := false)] else L.reg
            case Free(id) =>
              R.reg == if Live(L, id) then L.reg[id := L.reg[id].(pending := false, deleted := true)] else L.reg
            case Stop => R == L.(running := false)
  {
    hide Remove;
    hide SortIn;
  }

  // ---- exactly when every drain ends ---------------------------------------------------

  /** No callback makes a timer without arming it. */
  predicate NoRaw(ops: seq<Op>) {
    forall i :: 0 <= i < |ops| ==> !ops[i].Raw?
  }

  ghost predicate NoRaws(script: nat -> seq<Op>) {
    forall k :: NoRaw(script(k))
  }

  /** Every live timer with a callback has an interval. */
  predicate Positive(L: Loop) {
    forall id :: 0 <= id < |L.reg| && L.reg[id].callback && !L.reg[id].deleted ==> L.reg[id].msec > 0
  }

  /** No callback is due. */
  predicate Quiet(L: Loop, now: nat) {
    forall id :: 0 <= id < |L.reg| && L.reg[id].pending && L.reg[id].time <= now ==> !L.reg[id].callback
  }

  lemma PositiveStep(L: Loop, op: Op)
    requires Positive(L) && !op.Raw?
    ensures Steady(L, op) && Positive(Exec(L, op))
  {
  }

  lemma {:induction false} PositiveAll(L: Loop, ops: seq<Op>)
    requires Positive(L) && NoRaw(ops)
    ensures SteadyAll(L, ops) && Positive(ExecAll(L, ops))
    decreases |ops|
  {
    if ops != [] {
      PositiveStep(L, ops[0]);
      hide Positive;
      hide Steady;
      hide Exec;
      PositiveAll(Exec(L, ops[0]), ops[1..]);
    }
  }

  lemma PositiveRound(L: Loop, ops: seq<Op>)
    requires Positive(L) && L.timers != [] && L.timers[0] < |L.reg| && NoRaw(ops)
    ensures L.reg[L.timers[0]].callback ==> SteadyAll(Fire(L), ops)
    ensures Positive(Round(L, ops))
  {
    var F := Fire(L);
    assert Positive(F);
    if F.reg[L.timers[0]].callback {
      hide Positive;
      PositiveAll(F, ops);
    }
  }

  lemma {:induction false} PositiveRounds(L: Loop, now: nat, script: nat -> seq<Op>, k: nat, n: nat)
    requires Positive(L) && NoRaws(script)
    ensures SteadyRounds(L, now, script, k, n)
    decreases n
  {
    if n > 0 && Due(L, now) {
      PositiveRound(L, script(k));
      hide Positive;
      hide Round;
      PositiveRounds(Round(L, script(k)), now, script, k + 1, n - 1);
    }
  }

  lemma QuietRound(L: Loop, now: nat, ops: seq<Op>)
    requires Base(L) && Due(L, now) && Quiet(L, now)
    ensures !L.reg[L.timers[0]].callback && Base(Round(L, ops)) && Quiet(Round(L, ops), now)
  {
    RoundBase(L, ops);
  }

  lemma {:induction false} QuietRounds(L: Loop, now: nat, script: nat -> seq<Op>, k: nat, n: nat)
    requires Base(L) && Quiet(L, now)
    ensures SteadyRounds(L, now, script, k, n)
    decreases n
  {
    if n > 0 && Due(L, now) {
      QuietRound(L, now, script(k));
      hide Base;
      hide Quiet;
      hide Round;
      QuietRounds(Round(L, script(k)), now, script, k + 1, n - 1);
    }
  }

  /** Cancels the first `n` timers. */
  function Drops(n: nat): (ops: seq<Op>)
    ensures |ops| == n && forall i :: 0 <= i < n ==> ops[i] == Drop(i)
  {
    seq(n, i requires 0 <= i => Drop(i))
  }

  /** Nothing is armed except a due timer with a callback and interval 0. */
  ghost predicate Spinning(L: Loop, now: nat, z: nat) {
    && Base(L) && L.running && L.timers == [z] && z < |L.reg|
    && L.reg[z].callback && !L.reg[z].deleted && L.reg[z].msec == 0 && L.reg[z].time <= now
  }

  /** What cancelling changes: who is pending, and nothing else. */
  ghost predicate Dropped(L: Loop, C: Loop, m: nat) {
    && Base(C) && |C.reg| == |L.reg| && C.running == L.running
    && (forall i :: 0 <= i < |L.reg| ==> C.reg[i] == L.reg[i].(pending := C.reg[i].pending))
    && (forall i :: 0 <= i < |L.reg| && C.reg[i].pending ==> L.reg[i].pending && i >= m)
  }

  lemma DropOne(L: Loop, C: Loop, m: nat)
    requires Base(L) && Dropped(L, C, m)
    ensures Dropped(L, Exec(C, Drop(m)), m + 1)
  {
    ExecBase(C, Drop(m));
    hide Remove;
    hide Distinct;
  }

  lemma {:induction false} DropsLeave(L: Loop, C: Loop, m: nat, n: nat, rest: seq<Op>) returns (R: Loop)
    requires Base(L) && Dropped(L, C, m) && m <= n
    ensures Dropped(L, R, n)
    ensures ExecAll(C, Drops(n)[m..] + rest) == ExecAll(R, rest)
    decreases n - m
  {
    var ops := Drops(n)[m..];
    if m == n {
      EmptyFront(rest);
      R := C;
    } else {
      DropOne(L, C, m);
      assert ops == [Drop(m)] + Drops(n)[m + 1..];
      Assoc([Drop(m)], Drops(n)[m + 1..], rest);
      hide Dropped;
      hide Exec;
      hide Drops;
      ExecOne(C, Drop(m), Drops(n)[m + 1..] + rest);
      R := DropsLeave(L, Exec(C, Drop(m)), m + 1, n, rest);
    }
  }

  /** After cancelling everything, arming a timer that has interval 0 makes the loop spin on it. */
  lemma ArmSpins(C: Loop, now: nat, z: nat)
    requires Base(C) && C.running && z < |C.reg| && forall i :: 0 <= i < |C.reg| ==> !C.reg[i].pending
    requires C.reg[z].callback && !C.reg[z].deleted && C.reg[z].msec == 0
    ensures Spinning(Exec(C, In(z, 0, now)), now, z) && |Exec(C, In(z, 0, now)).reg| == |C.reg|
  {
    ExecBase(C, In(z, 0, now));
    assert C.timers == [];
    assert SortPos<nat>([], z, CmpIn(C.reg[z := C.reg[z].(time := now, pending := true, stamp := C.armed)])) == 0;
  }

  /** Cancel everything, then arm a timer that is there, or one that is made for it, without an interval. */
  function Spin(n: nat, z: nat, now: nat): seq<Op> {
    Drops(n) + if z < n then [In(z, 0, now)] else [Raw(true), In(z, 0, now)]
  }

  lemma DroppedNone(F: Loop)
    requires Base(F)
    ensures Dropped(F, F, 0)
  {
  }

  /** Nothing is pending when every timer is cancelled. */
  lemma AllDropped(F: Loop, R: Loop, n: nat)
    requires Dropped(F, R, n) && n == |F.reg|
    ensures Base(R) && |R.reg| == |F.reg| && R.running == F.running
    ensures forall i :: 0 <= i < |R.reg| ==> R.reg[i] == F.reg[i].(pending := false)
  {
  }

  lemma MadeForIt(R: Loop)
    requires Base(R) && forall i :: 0 <= i < |R.reg| ==> !R.reg[i].pending
    ensures var G := Exec(R, Raw(true)); var z := |R.reg|;
            && Base(G) && G.running == R.running && |G.reg| == z + 1
            && (forall i :: 0 <= i < |G.reg| ==> !G.reg[i].pending)
            && (forall i :: 0 <= i < z ==> G.reg[i] == R.reg[i])
            && G.reg[z].callback && !G.reg[z].deleted && G.reg[z].msec == 0
  {
    ExecBase(R, Raw(true));
  }

  /** A timer that a callback can arm without an interval; `z == |L.reg|` stands for one that it makes itself. */
  predicate CanSpin(L: Loop, z: nat) {
    z <= |L.reg| && (z < |L.reg| ==> L.reg[z].callback && !L.reg[z].deleted && L.reg[z].msec == 0)
  }

  lemma SpinSpins(F: Loop, now: nat, z: nat)
    requires Base(F) && F.running && CanSpin(F, z)
    ensures Spinning(ExecAll(F, Spin(|F.reg|, z, now)), now, z)
  {
    var n := |F.reg|;
    hide Drops;
    hide Exec;
    hide ExecAll;
    hide Base;
    hide Spinning;
    var rest := if z < n then [In(z, 0, now)] else [Raw(true), In(z, 0, now)];
    assert Drops(n)[0..] == Drops(n);
    DroppedNone(F);
    var R := DropsLeave(F, F, 0, n, rest);
    AllDropped(F, R, n);
    if z < n {
      ExecSingle(R, In(z, 0, now));
      ArmSpins(R, now, z);
    } else {
      MadeForIt(R);
      var G := Exec(R, Raw(true));
      ExecOne(R, Raw(true), [In(z, 0, now)]);
      assert [Raw(true)] + [In(z, 0, now)] == rest;
      ExecSingle(G, In(z, 0, now));
      ArmSpins(G, now, z);
    }
  }

  /** All callbacks do the same. */
  ghost predicate Always(script: nat -> seq<Op>, ops: seq<Op>) {
    forall k :: script(k) == ops
  }

  lemma AlwaysAt(script: nat -> seq<Op>, ops: seq<Op>, k: nat)
    requires Always(script, ops)
    ensures script(k) == ops
  {
  }

  /** The callback of a timer without an interval that adds to itself makes the loop spin on. */
  lemma AddSpins(L: Loop, now: nat, z: nat)
    requires Spinning(L, now, z)
    ensures Due(L, now) && Spinning(Round(L, [Add(z, 0)]), now, z)
  {
    RoundBase(L, [Add(z, 0)]);
    var F := Fire(L);
    assert F.timers == [] && !F.reg[z].pending;
    ExecSingle(F, Add(z, 0));
    SortInNone(z, CmpIn(F.reg[z := F.reg[z].(time := F.reg[z].time, pending := true, stamp := F.armed)]));
    hide Base;
    hide SortIn;
  }

  lemma {:induction false} SpinForever(L: Loop, now: nat, z: nat, script: nat -> seq<Op>, k: nat, m: nat)
    requires Spinning(L, now, z) && forall i: nat :: i >= k ==> script(i) == [Add(z, 0)]
    ensures !Over(L, now, script, k, m)
    decreases m
  {
    hide *;
    AddSpins(L, now, z);
    if m == 0 {
      OverAtOnce(L, now, script, k);
    } else {
      RoundsOn(L, now, script, k, m);
      HeadListed(L, now);
      assert script(k) == [Add(z, 0)];
      SpinForever(Round(L, [Add(z, 0)]), now, z, script, k + 1, m - 1);
    }
  }

  lemma DueUnlessQuiet(L: Loop, now: nat)
    requires Inv(L) && L.running && !Quiet(L, now)
    ensures Due(L, now)
  {
    HeadIsFirst(L);
  }

  /** The round of a timer without callback leaves the others alone, whatever the script says. */
  lemma SilentRound(L: Loop, now: nat, z: nat, ops: seq<Op>)
    requires Inv(L) && Due(L, now) && !L.reg[L.timers[0]].callback && L.running && !Quiet(L, now) && CanSpin(L, z)
    ensures var R := Round(L, []);
            && R == Round(L, ops) && |R.timers| < |L.timers|
            && Inv(R) && R.running && !Quiet(R, now) && CanSpin(R, z) && |R.reg| == |L.reg|
  {
    RoundKeeps(L, []);
    assert !Fire(L).reg[L.timers[0]].pending;
    hide Inv;
    var id :| 0 <= id < |L.reg| && L.reg[id].pending && L.reg[id].time <= now && L.reg[id].callback;
    assert Round(L, []).reg[id] == L.reg[id];
  }

  /**
   * Whatever is in the list: once a callback is due, it can make the loop spin for ever. It reads
   * the clock once, to arm a timer without an interval, which then only adds to itself.
   */
  lemma {:induction false} Endless(L: Loop, now: nat, z: nat, k: nat) returns (script: nat -> seq<Op>)
    requires Inv(L) && L.running && !Quiet(L, now) && CanSpin(L, z)
    ensures forall m: nat :: !Over(L, now, script, k, m)
    ensures Monotone(script, now) && (z < |L.reg| ==> NoRaws(script))
    decreases |L.timers|
  {
    hide *;
    DueUnlessQuiet(L, now);
    HeadListed(L, now);
    if L.reg[L.timers[0]].callback {
      var ops := Spin(|L.reg|, z, now);
      script := (i: nat) => if i == k then ops else [Add(z, 0)];
      SpinStarts(L, now, z, ops);
      SpinAllowed(|L.reg|, z, now, script, k);
      forall m: nat
        ensures !Over(L, now, script, k, m)
      {
        if m == 0 {
          OverAtOnce(L, now, script, k);
        } else {
          RoundsOn(L, now, script, k, m);
          SpinForever(Round(L, ops), now, z, script, k + 1, m - 1);
        }
      }
    } else {
      SilentRound(L, now, z, []);
      script := Endless(Round(L, []), now, z, k + 1);
      forall m: nat
        ensures !Over(L, now, script, k, m)
      {
        if m == 0 {
          OverAtOnce(L, now, script, k);
        } else {
          RoundsOn(L, now, script, k, m);
          SilentRound(L, now, z, script(k));
        }
      }
    }
  }

  lemma HeadListed(L: Loop, now: nat)
    requires Due(L, now)
    ensures L.timers != [] && L.timers[0] < |L.reg| && L.running
  {
  }

  lemma OverAtOnce(L: Loop, now: nat, script: nat -> seq<Op>, k: nat)
    ensures Over(L, now, script, k, 0) <==> !Due(L, now)
  {
  }

  lemma RoundsOn(L: Loop, now: nat, script: nat -> seq<Op>, k: nat, m: nat)
    requires Due(L, now) && m > 0
    ensures Over(L, now, script, k, m) <==> Over(Round(L, script(k)), now, script, k + 1, m - 1)
  {
  }

  lemma SpinStarts(L: Loop, now: nat, z: nat, ops: seq<Op>)
    requires Inv(L) && L.running && L.timers != [] && L.timers[0] < |L.reg| && L.reg[L.timers[0]].callback
    requires CanSpin(L, z) && ops == Spin(|L.reg|, z, now)
    ensures Spinning(Round(L, ops), now, z)
  {
    FireKeeps(L);
    var F := Fire(L);
    assert Base(F) && CanSpin(F, z) && F.reg[L.timers[0]].callback;
    hide Inv;
    hide Base;
    hide Spin;
    hide Spinning;
    SpinSpins(F, now, z);
  }

  lemma SpinAllowed(n: nat, z: nat, now: nat, script: nat -> seq<Op>, k: nat)
    requires forall i: nat :: script(i) == if i == k then Spin(n, z, now) else [Add(z, 0)]
    ensures Monotone(script, now) && (z < n ==> NoRaws(script))
  {
    forall i: nat
      ensures AllAfter(script(i), now) && (z < n ==> NoRaw(script(i)))
    {
      SpinOps(n, z, now);
    }
  }

  lemma SpinOps(n: nat, z: nat, now: nat)
    ensures AllAfter(Spin(n, z, now), now) && (z < n ==> NoRaw(Spin(n, z, now)))
  {
  }

  /**
   * Main result: when callbacks only use timers that are armed when they are made, every drain
   * ends if and only if the loop is stopped, no callback is due, or every live timer with a
   * callback has an interval.
   */
  lemma DrainEndsIff(L: Loop, now: nat)
    requires Inv(L)
    ensures (forall script: nat -> seq<Op> :: Monotone(script, now) && NoRaws(script) ==> Ends(L, now, script))
       <==> !L.running || Quiet(L, now) || Positive(L)
  {
    if !L.running || Quiet(L, now) || Positive(L) {
      forall script: nat -> seq<Op> | Monotone(script, now) && NoRaws(script)
        ensures Ends(L, now, script)
      {
        DrainEnds(L, now, script);
      }
    } else {
      var z :| 0 <= z < |L.reg| && L.reg[z].callback && !L.reg[z].deleted && L.reg[z].msec == 0;
      var script := Endless(L, now, z, 0);
      EndlessIs(L, now, script);
    }
  }

  /** When callbacks may also make unarmed timers, only a loop in which no callback is due must end. */
  lemma DrainEndsRawIff(L: Loop, now: nat)
    requires Inv(L)
    ensures (forall script: nat -> seq<Op> :: Monotone(script, now) ==> Ends(L, now, script))
       <==> !L.running || Quiet(L, now)
  {
    if !L.running || Quiet(L, now) {
      forall script: nat -> seq<Op> | Monotone(script, now)
        ensures Ends(L, now, script)
      {
        QuietEnds(L, now, script);
      }
    } else {
      var script := Endless(L, now, |L.reg|, 0);
      EndlessIs(L, now, script);
    }
  }

  lemma DrainEnds(L: Loop, now: nat, script: nat -> seq<Op>)
    requires Base(L) && Monotone(script, now) && NoRaws(script)
    requires !L.running || Quiet(L, now) || Positive(L)
    ensures Ends(L, now, script)
  {
    if L.running && Positive(L) {
      PositiveRounds(L, now, script, 0, Potential(L.reg, now) + 1);
      SteadyEnds(L, now, script);
    } else {
      QuietEnds(L, now, script);
    }
  }

  lemma QuietEnds(L: Loop, now: nat, script: nat -> seq<Op>)
    requires Base(L) && Monotone(script, now) && (!L.running || Quiet(L, now))
    ensures Ends(L, now, script)
  {
    if L.running {
      QuietRounds(L, now, script, 0, Potential(L.reg, now) + 1);
      SteadyEnds(L, now, script);
    } else {
      assert Over(L, now, script, 0, 0);
    }
  }

  lemma EndlessIs(L: Loop, now: nat, script: nat -> seq<Op>)
    requires forall m: nat :: !Over(L, now, script, 0, m)
    ensures !Ends(L, now, script)
  {
    hide Over;
  }

  /**
   * A due timer that has no interval and adds to itself, whatever else is in the list: however
   * many rounds have passed, it is due again with its old deadline.
   */
  lemma {:induction false} ZeroIntervalNeverDrains(L: Loop, now: nat, z: nat, script: nat -> seq<Op>, k: nat, n: nat)
    requires Inv(L) && L.running && DueForEver(L, now, z)
    requires Always(script, [Add(z, 0)]) && SortsRounds(L, now, script, k, n)
    ensures !Over(L, now, script, k, n)
    decreases n
  {
    hide *;
    DueForEverFacts(L, now, z);
    if n == 0 {
      OverAtOnce(L, now, script, k);
    } else {
      AlwaysAt(script, [Add(z, 0)], k);
      HeadListed(L, now);
      SortsOn(L, now, script, k, n);
      RoundKeeps(L, script(k));
      StillDue(L, now, z);
      RoundsOn(L, now, script, k, n);
      ZeroIntervalNeverDrains(Round(L, script(k)), now, z, script, k + 1, n - 1);
    }
  }

  lemma SortsOn(L: Loop, now: nat, script: nat -> seq<Op>, k: nat, n: nat)
    requires SortsRounds(L, now, script, k, n) && n > 0 && Due(L, now)
    ensures L.timers != [] && L.timers[0] < |L.reg|
    ensures L.reg[L.timers[0]].callback ==> SortsAll(Fire(L), script(k))
    ensures SortsRounds(Round(L, script(k)), now, script, k + 1, n - 1)
  {
  }

  lemma DueForEverFacts(L: Loop, now: nat, z: nat)
    requires Inv(L) && L.running && DueForEver(L, now, z)
    ensures Due(L, now)
  {
    HeadIsFirst(L);
  }

  predicate DueForEver(L: Loop, now: nat, z: nat) {
    && z < |L.reg| && L.reg[z].pending && L.reg[z].time <= now
    && L.reg[z].callback && !L.reg[z].deleted && L.reg[z].msec == 0
  }

  lemma StillDue(L: Loop, now: nat, z: nat)
    requires Due(L, now) && DueForEver(L, now, z)
    ensures Round(L, [Add(z, 0)]).running && DueForEver(Round(L, [Add(z, 0)]), now, z)
    ensures DueForEver(Round(L, [Add(z, 0)]), now, z) ==> Round(L, [Add(z, 0)]).reg[z].time == L.reg[z].time
  {
    var F := Fire(L);
    if F.reg[L.timers[0]].callback {
      ExecSingle(F, Add(z, 0));
      hide ExecAll;
      hide SortIn;
      hide Remove;
    }
  }

  // ---- the poll timeout ----------------------------------------------------------------

  /** `_next_timer` at clock reading `now` */
  function NextTimer(L: Loop, now: nat): int
    requires L.timers != [] ==> L.timers[0] < |L.reg|
  {
    if L.timers == [] then MAX_EPOLL_TIMEOUT
    else
      var diff := ToInt(L.reg[L.timers[0]].time - now);
      if diff < 0 then 0 else diff
  }

  /** How long to wait for a deadline. */
  function Wait(time: nat, now: nat): nat {
    if time > now then time - now else 0
  }

  /** The poll ends in time for every pending deadline. */
  ghost predicate InTime(L: Loop, now: nat, timeout: int) {
    forall id :: 0 <= id < |L.reg| && L.reg[id].pending ==> timeout <= Wait(L.reg[id].time, now)
  }

  /**
   * Main result: the timeout is not too long for any pending deadline if and only if the earliest
   * one is not so long overdue that the cut difference is positive. It is the time to that deadline,
   * and not shorter, if and only if in addition the deadline is less than 2^31 ms ahead.
   */
  lemma NextTimerIff(L: Loop, now: nat)
    requires Inv(L) && L.timers != []
    ensures L.timers[0] < |L.reg|
    ensures var d := L.reg[L.timers[0]].time - now;
            && (InTime(L, now, NextTimer(L, now)) <==> d >= 0 || ToInt(d) <= 0)
            && (NextTimer(L, now) == Wait(L.reg[L.timers[0]].time, now) <==>
                  if d >= 0 then d < 0x8000_0000 else ToInt(d) <= 0)
    ensures NextTimer(L, now) >= 0
  {
    HeadIsFirst(L);
    var id := L.timers[0];
    assert id < |L.reg| && L.reg[id].pending;
    hide Inv;
  }

  /** Without timers any timeout is in time; deadlines near the clock are a sufficient case. */
  lemma NextTimerIsEarliest(L: Loop, now: nat)
    requires Inv(L)
    requires forall id :: 0 <= id < |L.reg| && L.reg[id].pending ==> Near(L.reg[id].time, now)
    ensures InTime(L, now, NextTimer(L, now)) && NextTimer(L, now) >= 0
    ensures L.timers != [] ==>
              exists id :: 0 <= id < |L.reg| && L.reg[id].pending && NextTimer(L, now) == Wait(L.reg[id].time, now)
  {
    if L.timers == [] {
      HeadIsFirst(L);
    } else {
      NextTimerIff(L, now);
      assert L.reg[L.timers[0]].pending;
      hide Inv;
    }
  }

  /** With nothing pending the loop sleeps a second at a time. */
  lemma NothingPending(L: Loop, now: nat)
    requires Inv(L) && forall id :: 0 <= id < |L.reg| ==> !L.reg[id].pending
    ensures L.timers == [] && NextTimer(L, now) == 1000
  {
    if L.timers != [] {
      FirstIsPending(L);
      assert false;
    }
  }

  lemma FirstIsPending(L: Loop)
    requires Inv(L) && L.timers != []
    ensures exists id :: 0 <= id < |L.reg| && L.reg[id].pending
  {
    assert L.timers[0] < |L.reg| && L.reg[L.timers[0]].pending;
  }

  /** A timer that is 2^31 + 4 ms overdue makes the loop sleep for almost 2^31 ms. */
  lemma OverdueSleeps()
    ensures var L := ExecAll(EMPTY, [Raw(true), Add(0, 1)]);
            && Inv(L) && L.timers == [0] && L.reg[0].time == 1
            && NextTimer(L, 0x8000_0005) == 0x7FFF_FFFC && !InTime(L, 0x8000_0005, NextTimer(L, 0x8000_0005))
  {
    hide ExecAll;
    hide Inv;
    AddedAlone(1);
    var L := ExecAll(EMPTY, [Raw(true), Add(0, 1)]);
    assert L.reg[0].pending && L.reg[0].time - 0x8000_0005 == -0x8000_0004;
    assert ToInt(-0x8000_0004) == 0x7FFF_FFFC;
  }

  /** What an unarmed timer becomes by adding to it. */
  lemma AddedAlone(msec: nat)
    ensures ExecAll(EMPTY, [Raw(true), Add(0, msec)]) == Loop([0], [Timer(msec, msec, true, true, false, 0)], false, 1)
    ensures Inv(ExecAll(EMPTY, [Raw(true), Add(0, msec)]))
  {
    hide TimerSet;
    hide ExecAll;
    var one := Loop([], [Timer(0, 0, false, true, false, 0)], false, 0);
    assert Exec(EMPTY, Raw(true)) == one;
    assert [Raw(true)] + [Add(0, msec)] == [Raw(true), Add(0, msec)];
    ExecOne(EMPTY, Raw(true), [Add(0, msec)]);
    ExecSingle(one, Add(0, msec));
    assert SetMsec(one, 0, msec) == Loop([], [Timer(0, msec, false, true, false, 0)], false, 0);
    SetAlone(Timer(0, msec, false, true, false, 0), msec);
  }

  lemma SetAlone(t: Timer, time: nat)
    requires !t.pending && !t.deleted
    ensures TimerSet(Loop([], [t], false, 0), 0, time) ==
            Loop([0], [t.(time := time, pending := true, stamp := 0)], false, 1)
    ensures Inv(TimerSet(Loop([], [t], false, 0), 0, time))
  {
    hide SortIn;
    hide Remove;
    hide CmpIn;
    var reg := [t.(time := time, pending := true, stamp := 0)];
    assert [t][0 := reg[0]] == reg;
    SortInNone(0, CmpIn(reg));
    AloneInv(reg[0], false);
  }

  lemma AloneInv(t: Timer, running: bool)
    requires t.pending && !t.deleted && t.stamp == 0
    ensures Inv(Loop([0], [t], running, 1))
  {
  }

  lemma SortInNone(x: nat, cmp: (nat, nat) -> int)
    ensures SortIn([], x, cmp) == [x]
  {
    assert SortPos([], x, cmp) == 0;
  }

  /** Two operations are enough for a timer that is due for ever. */
  lemma DueForEverReached(now: nat)
    ensures DueForEver(ExecAll(EMPTY, [Raw(true), Add(0, 0)]), now, 0)
  {
    AddedAlone(0);
  }

  // ---- the loop object -----------------------------------------------------------------

  class MLoop {
    var timers: seq<nat>
    var reg: seq<Timer>
    var running: bool
    var armed: nat

    function View(): Loop
      reads this
    {
      Loop(timers, reg, running, armed)
    }

    constructor ()
      ensures View() == EMPTY
    {
      timers, reg, running, armed := [], [], false, 0;
    }

    /** `list_sort_in(&timers, self, ml_timer_cmp)` */
    method SortIn(id: nat)
      modifies this`timers
      ensures timers == ListSpec.SortIn(old(timers), id, CmpIn(reg))
    {
      var cmp := CmpIn(reg);
      hide CmpIn;
      var p := 0;
      assert timers[0..] == timers;
      while p < |timers| && cmp(timers[p], id) <= 0
        invariant 0 <= p <= |timers|
        invariant SortPos(timers, id, cmp) == p + SortPos(timers[p..], id, cmp)
      {
        p := p + 1;
      }
      timers := timers[..p] + [id] + timers[p..];
    }

    method TimerCancel(id: nat) returns (ok: bool)
      requires id < |reg|
      modifies this
      ensures View() == Cancel(old(View()), id)
      ensures ok == old(reg)[id].pending
    {
      if !reg[id].pending {
        return false;
      }
      timers := Remove(timers, id);
      reg := reg[id := reg[id].(pending := false)];
      return true;
    }

    method TimerSetTo(id: nat, time: nat)
      requires id < |reg|
      modifies this
      ensures View() == TimerSet(old(View()), id, time)
    {
      if reg[id].pending {
        var _ := TimerCancel(id);
      }
      reg := reg[id := reg[id].(time := time, pending := true, stamp := armed)];
      armed := armed + 1;
      SortIn(id);
    }

    method RearmIn(id: nat, msec: int, now: nat)
      requires id < |reg|
      modifies this
      ensures View() == TimerIn(old(View()), id, msec, now)
    {
      hide TimerSet;
      if msec > 0 {
        reg := reg[id := reg[id].(msec := msec)];
      }
      TimerSetTo(id, now + reg[id].msec);
    }

    method RearmAdd(id: nat, msec: int)
      requires id < |reg|
      modifies this
      ensures View() == TimerAdd(old(View()), id, msec)
    {
      hide TimerSet;
      if msec > 0 {
        reg := reg[id := reg[id].(msec := msec)];
      }
      TimerSetTo(id, reg[id].time + reg[id].msec);
    }

    method Create(msec: int, callback: bool, now: nat)
      modifies this
      ensures View() == TimerNew(old(View()), msec, callback, now)
    {
      if msec <= 0 {
        return;
      }
      var id := |reg|;
      CreateUnarmed(callback);
      RearmIn(id, msec, now);
    }

    method CreateUnarmed(callback: bool)
      modifies this`reg
      ensures View() == Unarmed(old(View()), callback)
    {
      reg := reg + [Timer(0, 0, false, callback, false, 0)];
    }

    method Dispose(id: nat)
      requires id < |reg|
      modifies this
      ensures View() == Delete(old(View()), id)
    {
      var _ := TimerCancel(id);
      reg := reg[id := reg[id].(deleted := true)];
    }

    /** What the callback of a timer does. */
    method RunCallback(ops: seq<Op>)
      modifies this
      ensures View() == ExecAll(old(View()), ops)
    {
      var i := 0;
      assert ops[0..] == ops;
      while i < |ops|
        invariant 0 <= i <= |ops|
        invariant ExecAll(View(), ops[i..]) == ExecAll(old(View()), ops)
      {
        assert ops[i..][0] == ops[i] && ops[i..][1..] == ops[i + 1..];
        Perform(ops[i]);
        i := i + 1;
      }
    }

    method Perform(op: Op)
      modifies this
      ensures View() == Exec(old(View()), op)
    {
      match op
      case New(msec, callback, now) =>
        Create(msec, callback, now);
      case Raw(callback) =>
        CreateUnarmed(callback);
      case In(id, msec, now) =>
        if Live(View(), id) {
          RearmIn(id, msec, now);
        }
      case Add(id, msec) =>
        if Live(View(), id) {
          RearmAdd(id, msec);
        }
      case Drop(id) =>
        if Live(View(), id) {
          var _ := TimerCancel(id);
        }
      case Free(id) =>
        if Live(View(), id) {
          Dispose(id);
        }
      case Stop =>
        running := false;
    }

    /** One round: the first timer is removed and called, or deleted when it has no callback. */
    method FireFirst(ops: seq<Op>)
      requires timers != [] && timers[0] < |reg|
      modifies this
      ensures View() == Round(old(View()), ops)
    {
      var id := timers[0];
      timers := timers[1..];
      reg := reg[id := reg[id].(pending := false)];
      if reg[id].callback {
        RunCallback(ops);
      } else {
        Dispose(id);
      }
    }

    /** `_handle_timers`, whenever its loop ends: `script(k)` is what the k-th callback does. */
    method HandleTimers(now: nat, script: nat -> seq<Op>) returns (fired: seq<Fired>)
      requires Base(View()) && Ends(View(), now, script)
      modifies this
      ensures forall n: nat :: Over(old(View()), now, script, 0, n) ==>
                (View(), fired) == Rounds(old(View()), now, script, 0, n)
    {
      hide Round;
      fired := [];
      var k := 0;
      ghost var start := View();
      ghost var all: nat :| Over(start, now, script, 0, all);
      EmptyFront(Rounds(start, now, script, 0, all).1);
      while timers != [] && running
        invariant Base(View()) && 0 <= k <= all && Over(View(), now, script, k, all - k)
        invariant var (R, log) := Rounds(View(), now, script, k, all - k);
                  (R, fired + log) == Rounds(start, now, script, 0, all)
        decreases all - k
      {
        assert timers[0] < |reg|;
        if reg[timers[0]].time > now {
          break;
        }
        ghost var L := View();
        RoundBase(L, script(k));
        hide Base;
        assert k < all;
        Assoc(fired, [Head(L)], Rounds(Round(L, script(k)), now, script, k + 1, all - k - 1).1);
        fired := fired + [Fired(timers[0], reg[timers[0]].time)];
        FireFirst(script(k));
        k := k + 1;
      }
      assert fired + [] == fired;
      forall n: nat | Over(start, now, script, 0, n)
        ensures (View(), fired) == Rounds(start, now, script, 0, n)
      {
        OverOnce(start, now, script, 0, all, n);
      }
    }
  }
}
