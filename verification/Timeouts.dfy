/** The list of armed timers of a thread: each entry keeps only its distance from the one before it, in 16 bits. */
module Timeouts {
  import opened MachineWords
  import opened Slices

  datatype Timer = Timer(time: uint16, h: int)

  /** A timer with its distance from now. */
  datatype Due = Due(at: nat, h: int)

  /** The deadlines a list of distances stands for, counted from `base`. */
  function Deadlines(q: seq<Timer>, base: nat): (r: seq<Due>)
    ensures |r| == |q|
  {
    if q == [] then [] else [Due(base + q[0].time, q[0].h)] + Deadlines(q[1..], base + q[0].time)
  }

  function Total(q: seq<Timer>): nat {
    if q == [] then 0 else q[0].time + Total(q[1..])
  }

  /** How many entries are due at `at` or before. */
  function Rank(r: seq<Due>, at: nat): (k: nat)
    ensures k <= |r|
    ensures forall i | 0 <= i < k :: r[i].at <= at
    ensures k < |r| ==> at < r[k].at
  {
    if r == [] || at < r[0].at then 0 else 1 + Rank(r[1..], at)
  }

  /** A new deadline goes behind every deadline that is not later. */
  function Insert(r: seq<Due>, d: Due): seq<Due> {
    var k := Rank(r, d.at);
    r[..k] + [d] + r[k..]
  }

  lemma {:induction false} DeadlinesConcat(a: seq<Timer>, b: seq<Timer>, base: nat)
    ensures Deadlines(a + b, base) == Deadlines(a, base) + Deadlines(b, base + Total(a))
  {
    if a == [] {
      assert a + b == b;
    } else {
      assert (a + b)[1..] == a[1..] + b;
      DeadlinesConcat(a[1..], b, base + a[0].time);
    }
  }

  lemma {:induction false} DeadlinesShift(q: seq<Timer>, base: nat, d: nat, i: nat)
    requires i < |q|
    ensures Deadlines(q, base + d)[i] == Due(Deadlines(q, base)[i].at + d, q[i].h)
    ensures base <= Deadlines(q, base)[i].at && Deadlines(q, base)[i].h == q[i].h
  {
    if i > 0 {
      DeadlinesShift(q[1..], base + q[0].time, d, i - 1);
    }
  }

  lemma {:induction false} DeadlinesSorted(q: seq<Timer>, base: nat, i: nat, j: nat)
    requires i <= j < |q|
    ensures Deadlines(q, base)[i].at <= Deadlines(q, base)[j].at
  {
    if i > 0 {
      DeadlinesSorted(q[1..], base + q[0].time, i - 1, j - 1);
    } else if j > 0 {
      DeadlinesShift(q[1..], base + q[0].time, 0, j - 1);
    }
  }

  lemma {:induction false} TotalIsLast(q: seq<Timer>, base: nat)
    requires q != []
    ensures Deadlines(q, base)[|q| - 1].at == base + Total(q)
  {
    if |q| > 1 {
      TotalIsLast(q[1..], base + q[0].time);
    }
  }

  /** Splitting the distance in front of an entry leaves every deadline where it was. */
  lemma Spliced(front: seq<Timer>, back: seq<Timer>, t: Timer, base: nat)
    requires back != [] ==> t.time <= back[0].time
    ensures var back' := if back == [] then [] else [Timer(back[0].time - t.time, back[0].h)] + back[1..];
            Deadlines(front + [t] + back', base) ==
            Deadlines(front, base) + [Due(base + Total(front) + t.time, t.h)] + Deadlines(back, base + Total(front))
  {
    hide Deadlines, Total;
    var back' := if back == [] then [] else [Timer(back[0].time - t.time, back[0].h)] + back[1..];
    var at := base + Total(front) + t.time;
    DeadlinesConcat(front + [t], back', base);
    DeadlinesConcat(front, [t], base);
    TotalAppend(front, t);
    DeadlinesHead([t], base + Total(front));
    DeadlinesNone(at);
    assert [t][1..] == [];
    if back == [] {
      DeadlinesNone(base + Total(front));
    } else {
      DeadlinesHead(back', at);
      DeadlinesHead(back, base + Total(front));
      assert back'[1..] == back[1..];
    }
  }

  lemma DeadlinesNone(base: nat)
    ensures Deadlines([], base) == []
  {
  }

  lemma DeadlinesHead(q: seq<Timer>, base: nat)
    requires q != []
    ensures Deadlines(q, base) == [Due(base + q[0].time, q[0].h)] + Deadlines(q[1..], base + q[0].time)
  {
  }

  lemma {:induction false} TotalAppend(q: seq<Timer>, t: Timer)
    ensures Total(q + [t]) == Total(q) + t.time
  {
    if q == [] {
      assert q + [t] == [t] && [t][1..] == [];
    } else {
      assert (q + [t])[1..] == q[1..] + [t];
      TotalAppend(q[1..], t);
    }
  }

  lemma RankIs(r: seq<Due>, at: nat, k: nat)
    requires k <= |r| && (forall i | 0 <= i < k :: r[i].at <= at) && (k < |r| ==> at < r[k].at)
    ensures Rank(r, at) == k
  {
  }

  // ---- Whole runs -----------------------------------------------------------------------

  /** A timer with the number under which it was armed and its deadline, on the list's own clock (`at`), which counts
      what waits report up to the first timer, and on the real one (`due`). */
  datatype Armed = Armed(at: nat, h: int, no: nat, due: nat)

  predicate Before(a: Armed, b: Armed) {
    a.at < b.at || (a.at == b.at && a.no < b.no)
  }

  /** How far the list's clock was behind the real one when the timer was armed; negative if it was ahead. */
  function Lag(x: Armed): int {
    x.due - x.at
  }

  /** The order of true deadlines. */
  predicate DueBefore(a: Armed, b: Armed) {
    a.due < b.due || (a.due == b.due && a.no < b.no)
  }

  predicate DueOrdered(q: seq<Armed>) {
    forall i, j | 0 <= i < j < |q| :: DueBefore(q[i], q[j])
  }

  /** Later deadlines come later, and equal deadlines in the order of arming. */
  predicate Ordered(q: seq<Armed>) {
    forall i, j | 0 <= i < j < |q| :: Before(q[i], q[j])
  }

  /** The armed timers are the deadlines of the list, counted from `now`. */
  predicate Matches(queue: seq<Armed>, r: seq<Due>, now: nat) {
    && |queue| == |r|
    && forall i | 0 <= i < |queue| :: queue[i].at == now + r[i].at && queue[i].h == r[i].h
  }

  /** All deadlines put off by `d`. */
  function PutOff(r: seq<Due>, d: nat): (r': seq<Due>)
    ensures |r'| == |r|
  {
    seq(|r|, i requires 0 <= i < |r| => Due(r[i].at + d, r[i].h))
  }

  lemma DeadlinesPutOff(q: seq<Timer>, base: nat, d: nat)
    ensures Deadlines(q, base + d) == PutOff(Deadlines(q, base), d)
  {
    hide Deadlines;
    forall i | 0 <= i < |q|
      ensures Deadlines(q, base + d)[i] == PutOff(Deadlines(q, base), d)[i]
    {
      DeadlinesShift(q, base, d, i);
    }
  }

  ghost predicate History(queue: seq<Armed>, fired: seq<Armed>, now: nat, count: nat) {
    && Ordered(fired + queue)
    && (forall x | x in fired :: x.at <= now && x.no < count)
    && (forall x | x in queue :: now <= x.at && x.no < count)
  }

  /** What is known of the timers that have run: when (`ranAt`), and how far the list's clock was behind then (`lagRan`). */
  ghost predicate Clocks(fired: seq<Armed>, ranAt: seq<nat>, lagRan: seq<int>, clock: nat) {
    && |ranAt| == |lagRan| == |fired|
    && forall i | 0 <= i < |fired| :: ranAt[i] == fired[i].at + lagRan[i] && ranAt[i] <= clock
  }

  /** A timer has run late by what the lag has risen since it was armed; so it has run early exactly when the lag has fallen. */
  lemma LatenessExact(fired: seq<Armed>, ranAt: seq<nat>, lagRan: seq<int>, clock: nat)
    requires Clocks(fired, ranAt, lagRan, clock)
    ensures |ranAt| == |lagRan| == |fired|
    ensures forall i | 0 <= i < |fired| :: ranAt[i] - fired[i].due == lagRan[i] - Lag(fired[i])
    ensures forall i | 0 <= i < |fired| :: ranAt[i] < fired[i].due <==> lagRan[i] < Lag(fired[i])
  {
  }

  /** Of two timers the one that runs first is due later exactly when it was armed with a lag greater by more than the
      distance between them on the list's clock, or by that and armed later. */
  lemma OutOfOrder(all: seq<Armed>, i: nat, j: nat)
    requires Ordered(all) && i < j < |all|
    ensures var rise := Lag(all[i]) - Lag(all[j]);
            var gap := all[j].at - all[i].at;
            gap >= 0 && (!DueBefore(all[i], all[j]) <==> rise > gap || (rise == gap && all[i].no >= all[j].no))
    ensures !DueBefore(all[i], all[j]) ==> Lag(all[i]) > Lag(all[j])
  {
    assert Before(all[i], all[j]);
  }

  ghost predicate SameLag(q: seq<Armed>, lag: int) {
    forall x | x in q :: Lag(x) == lag
  }

  /** Timers armed with one lag run in the order of their true deadlines. */
  lemma InTime(all: seq<Armed>, lag: int)
    requires Ordered(all) && SameLag(all, lag)
    ensures DueOrdered(all)
  {
    forall i, j | 0 <= i < j < |all|
      ensures DueBefore(all[i], all[j])
    {
      OutOfOrder(all, i, j);
      assert all[i] in all && all[j] in all;
    }
  }

  /** No timer that is still armed was armed with a greater lag. */
  ghost predicate Settled(q: seq<Armed>, lag: int) {
    forall x | x in q :: Lag(x) <= lag
  }

  function Added(q: seq<Armed>, k: nat, x: Armed): seq<Armed>
    requires k <= |q|
  {
    q[..k] + [x] + q[k..]
  }

  lemma AddedLag(q: seq<Armed>, k: nat, x: Armed, lag: int)
    requires k <= |q| && Lag(x) == lag
    ensures Settled(q, lag) ==> Settled(Added(q, k, x), lag)
    ensures forall f | SameLag(f + q, lag) :: SameLag(f + Added(q, k, x), lag)
  {
    CutAt(q, k);
    forall y | y in Added(q, k, x)
      ensures y == x || y in q
    {
      assert y == x || y in q[..k] || y in q[k..];
    }
    forall f | SameLag(f + q, lag)
      ensures SameLag(f + Added(q, k, x), lag)
    {
      assert forall y | y in q :: y in f + q;
      assert forall y | y in f :: y in f + q;
    }
  }

  lemma TakenLag(q: seq<Armed>, f: seq<Armed>, lag: int, lag': int)
    requires q != []
    ensures Settled(q, lag) && lag <= lag' ==> Settled(q[1..], lag') && Lag(q[0]) <= lag'
    ensures SameLag(f + q, lag) ==> SameLag((f + [q[0]]) + q[1..], lag)
  {
    assert (f + [q[0]]) + q[1..] == f + q;
    assert q[0] in q;
  }

  lemma SettledRise(q: seq<Armed>, lag: int, lag': int)
    requires lag <= lag'
    ensures Settled(q, lag) ==> Settled(q, lag')
  {
  }

  // ---- What the waits report --------------------------------------------------------------

  /** One timed wait for a condition: how long it took, and whether it timed out. */
  datatype Wake = Wake(ms: nat, timedOut: bool)

  /** What cond_wait reports: 0 for a time-out, 1 for a wake-up at once, else the time cut to sixteen bits. */
  function CondTime(w: Wake): uint16 {
    if w.timedOut then 0 else if w.ms == 0 then 1 else Wrap16(w.ms)
  }

  function Took(waits: seq<Wake>): nat {
    if waits == [] then 0 else Took(waits[..|waits| - 1]) + waits[|waits| - 1].ms
  }

  /** A wait times out no earlier than it was told to. */
  ghost predicate Punctual(waits: seq<Wake>, timeout: uint16) {
    forall w | w in waits :: w.timedOut ==> w.ms >= timeout
  }

  /** What every timed wait promises of its report: 0 only after the time-out, and more than was waited, namely 1, exactly if
      nothing was waited. */
  ghost predicate Reports(timeout: uint16, time: uint16, took: nat) {
    && (time == 0 ==> took >= timeout)
    && (time > took <==> took == 0)
    && (took == 0 ==> time == 1)
  }

  /** sys_arch_sem_wait with a time-out, where `waits` are the waits while the semaphore is taken: it reports the last. */
  method SemWait(timeout: uint16, waits: seq<Wake>) returns (time: uint16, used: nat)
    requires timeout > 0 && Punctual(waits, timeout)
    ensures used <= |waits| && (time != 0 ==> used == |waits|)
    ensures time == if used == 0 then 1 else CondTime(waits[used - 1])
    ensures forall i | 0 <= i < used - 1 :: CondTime(waits[i]) != 0
    ensures Reports(timeout, time, Took(waits[..used]))
  {
    time, used := 1, 0;
    while used < |waits|
      invariant used <= |waits|
      invariant time == if used == 0 then 1 else CondTime(waits[used - 1])
      invariant time != 0 && forall i | 0 <= i < used :: CondTime(waits[i]) != 0
      invariant Reports(timeout, time, Took(waits[..used]))
    {
      time := CondTime(waits[used]);
      assert waits[..used + 1][..used] == waits[..used];
      used := used + 1;
      if time == 0 {
        return;
      }
    }
  }

  /** sys_arch_mbox_fetch with a time-out, where `rounds` are the waits for the mail semaphore while the box is empty. */
  method FetchWait(timeout: uint16, rounds: seq<seq<Wake>>) returns (time: uint16, took: nat)
    requires timeout > 0 && forall r | r in rounds :: Punctual(r, timeout)
    ensures Reports(timeout, time, took)
    ensures rounds == [] ==> time == 1 && took == 0
  {
    time, took := 1, 0;
    for i := 0 to |rounds|
      invariant time != 0 && Reports(timeout, time, took)
      invariant i == 0 ==> time == 1 && took == 0
    {
      var used;
      time, used := SemWait(timeout, rounds[i]);
      took := took + Took(rounds[i][..used]);
      if time == 0 {
        return;
      }
    }
  }

  lemma RankWithin(queue: seq<Armed>, r: seq<Due>, now: nat, at: nat)
    requires Matches(queue, r, now)
    ensures Rank(r, at) <= |queue|
  {
  }

  /** Arming one more timer keeps the order of what has run and what is still to run. */
  lemma ArmKeeps(queue: seq<Armed>, fired: seq<Armed>, r: seq<Due>, now: nat, count: nat, d: Due, due: nat)
    requires Matches(queue, r, now) && History(queue, fired, now, count)
    ensures var k := Rank(r, d.at);
            var queue' := queue[..k] + [Armed(now + d.at, d.h, count, due)] + queue[k..];
            Matches(queue', Insert(r, d), now) && History(queue', fired, now, count + 1)
  {
    var k := Rank(r, d.at);
    var x := Armed(now + d.at, d.h, count, due);
    var queue' := queue[..k] + [x] + queue[k..];
    RankAllLater(queue, fired, r, now, count, d.at);
    assert queue == queue[..k] + queue[k..];
    MatchesInsert(queue, r, now, k, x, d);
    hide Matches, Rank;
    ArmedLater(queue, fired, now, count, x, k);
    OrderedInsert(queue, fired, x, k);
  }

  lemma OrderedInsert(queue: seq<Armed>, fired: seq<Armed>, x: Armed, k: nat)
    requires Ordered(fired + queue) && k <= |queue|
    requires (forall y | y in fired + queue[..k] :: Before(y, x)) && (forall y | y in queue[k..] :: Before(x, y))
    ensures Ordered(fired + (queue[..k] + [x] + queue[k..]))
  {
    var a, b := fired + queue[..k], queue[k..];
    assert a + b == fired + queue && a + [x] + b == fired + (queue[..k] + [x] + queue[k..]);
    InsertOrdered(a, b, x);
  }

  lemma MatchesInsert(queue: seq<Armed>, r: seq<Due>, now: nat, k: nat, x: Armed, d: Due)
    requires Matches(queue, r, now) && k <= |r| && x.at == now + d.at && x.h == d.h
    ensures Matches(queue[..k] + [x] + queue[k..], r[..k] + [d] + r[k..], now)
  {
  }

  lemma ArmedLater(queue: seq<Armed>, fired: seq<Armed>, now: nat, count: nat, x: Armed, k: nat)
    requires History(queue, fired, now, count) && k <= |queue| && now <= x.at && x.no == count
    ensures var queue' := queue[..k] + [x] + queue[k..];
            && (forall y | y in fired :: y.at <= now && y.no < count + 1)
            && (forall y | y in queue' :: now <= y.at && y.no < count + 1)
  {
    var queue' := queue[..k] + [x] + queue[k..];
    assert queue == queue[..k] + queue[k..];
    assert forall y | y in queue' :: y == x || y in queue;
  }

  lemma RankAllLater(queue: seq<Armed>, fired: seq<Armed>, r: seq<Due>, now: nat, count: nat, at: nat)
    requires Matches(queue, r, now) && History(queue, fired, now, count)
    ensures var k := Rank(r, at);
            && (forall y | y in fired + queue[..k] :: y.at <= now + at && y.no < count)
            && (forall y | y in queue[k..] :: now + at < y.at)
  {
    var k := Rank(r, at);
    forall i | k <= i < |queue|
      ensures now + at < queue[i].at
    {
      if k < i {
        assert Before((fired + queue)[|fired| + k], (fired + queue)[|fired| + i]);
      }
    }
    forall y | y in fired + queue[..k]
      ensures y.at <= now + at && y.no < count
    {
      assert y in fired || y in queue[..k];
      assert y in queue[..k] ==> y in queue;
    }
  }

  lemma InsertOrdered(a: seq<Armed>, b: seq<Armed>, x: Armed)
    requires Ordered(a + b)
    requires (forall y | y in a :: Before(y, x)) && (forall y | y in b :: Before(x, y))
    ensures Ordered(a + [x] + b)
  {
    hide Before;
    var s, t := a + [x] + b, a + b;
    forall i, j | 0 <= i < j < |s|
      ensures Before(s[i], s[j])
    {
      var i', j' := if i < |a| then i else i - 1, if j < |a| then j else j - 1;
      assert i != |a| ==> s[i] == t[i'];
      assert j != |a| ==> s[j] == t[j'];
      assert i == |a| ==> s[j] in b;
      assert j == |a| ==> s[i] in a;
    }
  }

  lemma HistoryOrdered(queue: seq<Armed>, fired: seq<Armed>, now: nat, count: nat)
    requires History(queue, fired, now, count)
    ensures Ordered(fired + queue)
  {
  }

  /** The first armed timer runs at its deadline. */
  lemma FireKeeps(queue: seq<Armed>, fired: seq<Armed>, r: seq<Due>, now: nat, count: nat, r': seq<Due>, d: nat)
    requires queue != [] && Matches(queue, r, now) && History(queue, fired, now, count)
    requires r[0].at == d && r[1..] == PutOff(r', d)
    ensures Matches(queue[1..], r', now + d) && History(queue[1..], fired + [queue[0]], now + d, count)
    ensures queue[0].at == now + d
  {
    assert (fired + [queue[0]]) + queue[1..] == fired + queue;
    assert forall i | 0 <= i < |r'| :: r[1..][i] == PutOff(r', d)[i];
    assert queue[0] in queue;
    forall x | x in queue[1..]
      ensures now + d <= x.at && x.no < count
    {
      assert x in queue;
      var i :| 0 <= i < |queue[1..]| && queue[1..][i] == x;
      assert Before((fired + queue)[|fired|], (fired + queue)[|fired| + 1 + i]);
    }
  }

  /** Time passes without reaching the first deadline. */
  lemma DrawNearer(queue: seq<Armed>, fired: seq<Armed>, r: seq<Due>, now: nat, count: nat, r': seq<Due>, d: nat)
    requires Matches(queue, r, now) && History(queue, fired, now, count)
    requires r == PutOff(r', d)
    ensures Matches(queue, r', now + d) && History(queue, fired, now + d, count)
  {
    assert forall i | 0 <= i < |r'| :: r[i] == PutOff(r', d)[i];
  }

  lemma TotalNone()
    ensures Total([]) == 0
  {
  }

  lemma SplitDeadlines(q: seq<Timer>, k: nat)
    requires k <= |q|
    ensures Deadlines(q, 0) == Deadlines(q[..k], 0) + Deadlines(q[k..], Total(q[..k]))
  {
    hide Deadlines, Total;
    var a, b := q[..k], q[k..];
    DeadlinesConcat(a, b, 0);
    CutAt(q, k);
  }

  lemma RankAt(q: seq<Timer>, k: nat, msecs: nat)
    requires 0 < k <= |q| && Total(q[..k]) <= msecs && (k < |q| ==> msecs - Total(q[..k]) < q[k].time)
    ensures Rank(Deadlines(q, 0), msecs) == k
  {
    var r := Deadlines(q, 0);
    SplitDeadlines(q, k);
    TotalIsLast(q[..k], 0);
    forall i | 0 <= i < k
      ensures r[i].at <= msecs
    {
      DeadlinesSorted(q, 0, i, k - 1);
      assert r[k - 1] == Deadlines(q[..k], 0)[k - 1];
    }
    if k < |q| {
      DeadlinesHead(q[k..], Total(q[..k]));
      assert r[k] == Deadlines(q[k..], Total(q[..k]))[0];
    }
    RankIs(r, msecs, k);
  }

  datatype Event = Arms(msecs: uint16, h: int, mem: bool) | Waits(time: uint16, took: nat) | Works(took: nat)

  /** Does a wait end in the first handler? */
  predicate Expires(list: seq<Timer>, time: uint16) {
    list != [] && (time == 0 || list[0].time == 0)
  }

  /** How much of a wait the list's clock counts: the time reported or, if the first handler runs, that timer, and never
      more than it. With no timer armed nothing depends on it. */
  function Counted(list: seq<Timer>, time: uint16, took: nat): nat {
    if list == [] then took
    else if Expires(list, time) || time > list[0].time then list[0].time
    else time
  }

  /** With a timer to wait for, the list counts more than the wait took exactly when it took nothing. */
  lemma CountedExact(list: seq<Timer>, time: uint16, took: nat)
    requires list != [] && list[0].time > 0 && Reports(list[0].time, time, took)
    ensures Counted(list, time, took) > took <==> took == 0
    ensures took == 0 ==> Counted(list, time, took) == 1
  {
  }

  lemma Idle(queue: seq<Armed>, fired: seq<Armed>, now: nat, count: nat, d: nat)
    requires queue == [] && History(queue, fired, now, count)
    ensures History(queue, fired, now + d, count)
  {
  }

  class Thread {
    var list: seq<Timer>
    /** The real clock and the list's own, the number of timers armed, those still armed, those that have run, and when and
        with what lag. */
    ghost var clock: nat
    ghost var now: nat
    ghost var count: nat
    ghost var queue: seq<Armed>
    ghost var fired: seq<Armed>
    ghost var ranAt: seq<nat>
    ghost var lagRan: seq<int>

    ghost predicate Valid()
      reads this
    {
      && Matches(queue, Deadlines(list, 0), now) && History(queue, fired, now, count)
      && Clocks(fired, ranAt, lagRan, clock)
    }

    constructor ()
      ensures Valid() && list == [] && queue == [] && fired == [] && ranAt == [] && count == now == clock == 0
    {
      list, now, count, queue, fired, ranAt, lagRan, clock := [], 0, 0, [], [], [], [], 0;
    }

    /** The walk of sys_timeout: the place behind all deadlines that are not later, and the distance left there. */
    method Find(msecs: uint16) returns (k: nat, left: uint16)
      requires list != [] && list[0].time <= msecs
      ensures 0 < k <= |list|
      ensures left == msecs - Total(list[..k])
      ensures k < |list| ==> left < list[k].time
      ensures Rank(Deadlines(list, 0), msecs) == k
    {
      hide Deadlines, Total, Rank;
      k, left := 0, msecs;
      TotalNone();
      assert list[..0] == [];
      while true
        invariant k < |list| && left == msecs - Total(list[..k]) && list[k].time <= left
        decreases |list| - k
      {
        assert list[..k + 1] == list[..k] + [list[k]];
        TotalAppend(list[..k], list[k]);
        left := left - list[k].time;
        k := k + 1;
        if k == |list| || list[k].time > left {
          break;
        }
      }
      RankAt(list, k, msecs);
    }

    /** The list surgery of sys_timeout. */
    method Splice(msecs: uint16, h: int)
      modifies this`list
      ensures Deadlines(list, 0) == Insert(old(Deadlines(list, 0)), Due(msecs, h))
    {
      hide Deadlines, Total, Rank;
      ghost var r := Deadlines(list, 0);
      if list == [] {
        DeadlinesHead([Timer(msecs, h)], 0);
        DeadlinesNone(0);
        DeadlinesNone(msecs);
        RankIs([], msecs, 0);
        list := [Timer(msecs, h)];
      } else if list[0].time > msecs {
        DeadlinesHead(list, 0);
        RankIs(r, msecs, 0);
        Spliced([], list, Timer(msecs, h), 0);
        TotalNone();
        DeadlinesNone(0);
        list := [Timer(msecs, h)] + [Timer(list[0].time - msecs, list[0].h)] + list[1..];
        assert list == [] + [Timer(msecs, h)] + ([Timer(old(list)[0].time - msecs, old(list)[0].h)] + old(list)[1..]);
      } else {
        var i, left := Find(msecs);
        SplitDeadlines(list, i);
        assert r[..i] == Deadlines(list[..i], 0) && r[i..] == Deadlines(list[i..], Total(list[..i]));
        Spliced(list[..i], list[i..], Timer(left, h), 0);
        var back := if i == |list| then [] else [Timer(list[i].time - left, list[i].h)] + list[i + 1..];
        assert i < |list| ==> list[i..][1..] == list[i + 1..];
        list := list[..i] + [Timer(left, h)] + back;
      }
    }

    /** sys_timeout: the new deadline goes behind all that are not later and no other deadline moves; without memory
        for the timer nothing happens. */
    method Arm(msecs: uint16, h: int, mem: bool)
      requires Valid()
      modifies this
      ensures Valid()
      ensures Deadlines(list, 0) == if mem then Insert(old(Deadlines(list, 0)), Due(msecs, h)) else old(Deadlines(list, 0))
      ensures unchanged(`now, `clock, `fired, `ranAt, `lagRan) && count == old(count) + if mem then 1 else 0
      ensures var k := Rank(old(Deadlines(list, 0)), msecs);
              queue == if mem then Added(old(queue), k, Armed(now + msecs, h, old(count), clock + msecs)) else old(queue)
    {
      hide Deadlines, Insert, Matches, History, Clocks, Rank, Added;
      if mem {
        Note(msecs, h);
        Splice(msecs, h);
      }
    }

    /** The record of what was armed gets the new timer, in the place the deadline will have. */
    ghost method Note(msecs: uint16, h: int)
      requires Valid()
      modifies `queue, `count
      ensures Matches(queue, Insert(Deadlines(list, 0), Due(msecs, h)), now) && History(queue, fired, now, count)
      ensures count == old(count) + 1
      ensures var k := Rank(Deadlines(list, 0), msecs);
              queue == Added(old(queue), k, Armed(now + msecs, h, old(count), clock + msecs))
    {
      hide Deadlines, Rank, History, Insert;
      ArmKeeps(queue, fired, Deadlines(list, 0), now, count, Due(msecs, h), clock + msecs);
      var k := Rank(Deadlines(list, 0), msecs);
      var x := Armed(now + msecs, h, count, clock + msecs);
      queue := queue[..k] + [x] + queue[k..];
      count := count + 1;
    }

    /** One pass of sys_mbox_fetch or sys_sem_wait: `time` is what the wait reported, 0 if it timed out, and `took` what it
        took. Either the first handler runs or a message has come; all other distances shrink by the same amount. The
        list's clock falls behind by what was not counted, and gets ahead by what was counted and did not pass. */
    method Pass(time: uint16, ghost took: nat) returns (ran: bool, h: int, ghost d: nat)
      requires Valid()
      modifies this
      ensures Valid()
      ensures ran <==> Expires(old(list), time)
      ensures d == Counted(old(list), time, took) && now == old(now) + d && count == old(count)
      ensures clock == old(clock) + took
      ensures PutOff(Deadlines(list, 0), d) == if ran then old(Deadlines(list, 0))[1..] else old(Deadlines(list, 0))
      ensures ran ==> old(queue) != [] && fired == old(fired) + [old(queue)[0]] && queue == old(queue)[1..]
      ensures ran ==> h == old(queue)[0].h && now == old(queue)[0].at
      ensures ran ==> ranAt == old(ranAt) + [clock] && lagRan == old(lagRan) + [clock - now]
      ensures !ran ==> fired == old(fired) && queue == old(queue) && ranAt == old(ranAt) && lagRan == old(lagRan)
    {
      hide History, Deadlines, Clocks;
      ran, h, d := false, 0, took;
      if list == [] {
        DeadlinesNone(0);
        Idle(queue, fired, now, count, took);
        Elapse(took);
        now := now + took;
        return;
      }
      var first := list[0];
      var t := if first.time > 0 then time else 0;
      if t == 0 {
        ran, h, d := true, first.h, first.time;
        Elapse(took);
        Fire(first);
      } else {
        d := if t <= first.time then t else first.time;
        Elapse(took);
        Advance(first, t, d);
      }
    }

    /** Time passes on the real clock alone, as it does while the thread works. */
    ghost method Elapse(took: nat)
      requires Valid()
      modifies `clock
      ensures Valid() && clock == old(clock) + took
    {
      clock := clock + took;
    }

    /** The first timer leaves the list and runs. */
    method Fire(first: Timer)
      requires Valid() && list != [] && list[0] == first
      modifies `list, `now, `queue, `fired, `ranAt, `lagRan
      ensures Valid() && now == old(now) + first.time
      ensures PutOff(Deadlines(list, 0), first.time) == old(Deadlines(list, 0))[1..]
      ensures old(queue) != [] && fired == old(fired) + [old(queue)[0]] && queue == old(queue)[1..]
      ensures first.h == old(queue)[0].h && now == old(queue)[0].at
      ensures ranAt == old(ranAt) + [clock] && lagRan == old(lagRan) + [clock - now]
    {
      hide History, Deadlines;
      DeadlinesHead(list, 0);
      DeadlinesPutOff(list[1..], 0, first.time);
      assert Deadlines(list, 0)[1..] == PutOff(Deadlines(list[1..], 0), first.time);
      FireKeeps(queue, fired, Deadlines(list, 0), now, count, Deadlines(list[1..], 0), first.time);
      list := list[1..];
      now := now + first.time;
      ranAt, lagRan := ranAt + [clock], lagRan + [clock - now];
      fired, queue := fired + [queue[0]], queue[1..];
    }

    /** A message came after `t`, as reported; the first distance shrinks by that, but not below zero. */
    method Advance(first: Timer, t: uint16, ghost d: nat)
      requires Valid() && list != [] && list[0] == first && d == if t <= first.time then t else first.time
      modifies `list, `now
      ensures Valid() && now == old(now) + d
      ensures PutOff(Deadlines(list, 0), d) == old(Deadlines(list, 0))
    {
      hide History, Deadlines, Clocks;
      var left := if t <= first.time then first.time - t else 0;
      DeadlinesHead(list, 0);
      DeadlinesHead([Timer(left, first.h)] + list[1..], 0);
      assert ([Timer(left, first.h)] + list[1..])[1..] == list[1..];
      DeadlinesPutOff(list[1..], left, d);
      DrawNearer(queue, fired, Deadlines(list, 0), now, count, Deadlines([Timer(left, first.h)] + list[1..], 0), d);
      list := [Timer(left, first.h)] + list[1..];
      now := now + d;
    }

    /** In every run handlers have run in the order of the list's clock, ties in the order of arming, and what is still armed
        comes later; each has run late by what the lag has risen since it was armed. No handler has run early if no wait
        has counted more than it took (`fair`). The order is that of the true deadlines if the lag has not changed (`even`). */
    method Perform(events: seq<Event>) returns (fair: bool, even: bool)
      requires Valid()
      modifies this
      ensures Valid() && Ordered(fired + queue)
      ensures old(fired) <= fired && old(now) <= now && old(clock) <= clock
      ensures |ranAt| == |lagRan| == |fired|
      ensures forall i | 0 <= i < |fired| :: ranAt[i] - fired[i].due == lagRan[i] - Lag(fired[i])
      ensures fair ==> clock - now >= old(clock - now)
      ensures fair && old(Settled(queue, clock - now)) ==> forall i | |old(fired)| <= i < |fired| :: fired[i].due <= ranAt[i]
      ensures even ==> fair && clock - now == old(clock - now)
      ensures even && old(SameLag(fired + queue, clock - now)) ==> DueOrdered(fired + queue)
    {
      hide Matches, Deadlines, History, Rank, Clocks, Insert, Added, SameLag, Settled;
      fair, even := true, true;
      LatenessExact(fired, ranAt, lagRan, clock);
      ghost var settled, same := Settled(queue, clock - now), SameLag(fired + queue, clock - now);
      for i := 0 to |events|
        invariant Valid() && old(fired) <= fired && old(now) <= now && old(clock) <= clock && |ranAt| == |fired|
        invariant fair ==> clock - now >= old(clock - now)
        invariant fair && settled ==> Settled(queue, clock - now)
        invariant fair && settled ==> forall k | |old(fired)| <= k < |fired| :: fired[k].due <= ranAt[k]
        invariant even ==> fair && clock - now == old(clock - now)
        invariant even && same ==> SameLag(fired + queue, clock - now)
      {
        match events[i] {
          case Arms(msecs, h, mem) =>
            RankWithin(queue, Deadlines(list, 0), now, msecs);
            ghost var x := Armed(now + msecs, h, count, clock + msecs);
            AddedLag(queue, Rank(Deadlines(list, 0), msecs), x, clock - now);
            Arm(msecs, h, mem);
          case Waits(time, took) =>
            var c := Counted(list, time, took);
            fair, even := fair && c <= took, even && c == took;
            ghost var lag := clock - now;
            ghost var q, f := queue, fired;
            var ran, h, d := Pass(time, took);
            assert clock - now == lag + took - c;
            if fair {
              SettledRise(q, lag, clock - now);
            }
            if ran {
              TakenLag(q, f, lag, clock - now);
            }
          case Works(took) =>
            even := even && took == 0;
            SettledRise(queue, clock - now, clock - now + took);
            Elapse(took);
        }
      }
      HistoryOrdered(queue, fired, now, count);
      LatenessExact(fired, ranAt, lagRan, clock);
      if even && same {
        InTime(fired + queue, clock - now);
      }
    }
  }

  /** What the distances say of the first timer. */
  lemma FirstDue(list: seq<Timer>)
    ensures |Deadlines(list, 0)| == |list|
    ensures list != [] ==> Deadlines(list, 0)[0] == Due(list[0].time, list[0].h)
  {
  }

  lemma FromPutOff(r: seq<Due>, d: nat, s: seq<Due>)
    requires PutOff(r, d) == s
    ensures |r| == |s| && forall i | 0 <= i < |s| :: r[i].at == s[i].at - d && r[i].h == s[i].h
  {
    assert forall i | 0 <= i < |s| :: PutOff(r, d)[i] == s[i];
  }

  method ArmThree(t: Thread)
    requires t.Valid() && t.list == [] && t.queue == [] && t.fired == [] && t.count == t.now == t.clock == 0
    modifies t
    ensures t.Valid() && t.fired == [] && Deadlines(t.list, 0) == [Due(0, 1), Due(5, 3), Due(20, 2)]
    ensures |t.queue| == 3 && t.queue[0].due == 10 && t.queue[1].due == 55 && t.queue[2].due == 30
    ensures t.list != [] && t.list[0] == Timer(0, 1)
    ensures t.queue[0].h == 1 && t.queue[1].h == 3 && t.queue[2].h == 2
  {
    hide Matches, History, Clocks, Deadlines, PutOff;
    DeadlinesNone(0);
    t.Arm(10, 1, true);
    assert Deadlines(t.list, 0) == [Due(10, 1)];
    t.Arm(30, 2, true);
    assert Deadlines(t.list, 0) == [Due(10, 1), Due(30, 2)];
    FirstDue(t.list);
    var ran, h, d := t.Pass(50, 50);
    FromPutOff(Deadlines(t.list, 0), d, [Due(10, 1), Due(30, 2)]);
    assert Deadlines(t.list, 0) == [Due(0, 1), Due(20, 2)];
    t.Arm(5, 3, true);
    FirstDue(t.list);
  }

  /** A wait of 50 outlasts a timer of 10: of the timers due at 30 and, armed after the wait, at 55, the later one runs first. */
  method OutlastExample() returns (order: seq<int>, ghost dues: seq<nat>)
    ensures order == [1, 3, 2] && dues == [10, 55, 30]
  {
    hide Matches, History, Clocks, Deadlines, PutOff;
    var t := new Thread();
    ArmThree(t);
    var ran, h, d := t.Pass(0, 0);
    FromPutOff(Deadlines(t.list, 0), d, [Due(5, 3), Due(20, 2)]);
    assert Deadlines(t.list, 0) == [Due(5, 3), Due(20, 2)];
    FirstDue(t.list);
    order := [h];
    ran, h, d := t.Pass(0, 0);
    FromPutOff(Deadlines(t.list, 0), d, [Due(20, 2)]);
    FirstDue(t.list);
    order := order + [h];
    ran, h, d := t.Pass(0, 0);
    order := order + [h];
    dues := [t.fired[0].due, t.fired[1].due, t.fired[2].due];
  }

  /** A timer of 1, a fetch that finds a message waiting and reports 1, a second fetch: the handler runs at the time 0. */
  method EarlyExample() returns (h: int, ghost ranAt: nat, ghost due: nat)
    ensures h == 1 && ranAt == 0 && due == 1
  {
    hide Matches, History, Clocks, Deadlines, PutOff;
    var t := new Thread();
    DeadlinesNone(0);
    t.Arm(1, 1, true);
    assert Deadlines(t.list, 0) == [Due(1, 1)];
    FirstDue(t.list);
    var time, took := FetchWait(1, []);
    var ran, _, d := t.Pass(time, took);
    FromPutOff(Deadlines(t.list, 0), d, [Due(1, 1)]);
    FirstDue(t.list);
    ran, h, d := t.Pass(0, 0);
    ranAt, due := t.ranAt[0], t.fired[0].due;
  }
}
