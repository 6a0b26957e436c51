/** The receiving half of a TCP control block: trimming, in-order delivery and the out-of-order queue. */
module TcpReceive {
  import opened MachineWords
  import opened Slices

  const TCP_WND: uint16 := 1024

  datatype RSeg = RSeg(seqno: int, data: seq<byte>)

  function End(s: RSeg): int {
    s.seqno + |s.data|
  }

  /** Strictly sorted, non-overlapping, beyond `nxt`, and within what one window and one segment can reach. */
  predicate Sorted(q: seq<RSeg>, nxt: int) {
    && (forall i | 0 <= i < |q| :: nxt < q[i].seqno < nxt + 0x1_0000 && 0 < |q[i].data| < 0x1_0000)
    && (forall i | 0 < i < |q| :: End(q[i - 1]) <= q[i].seqno)
  }

  /** The segment was cut from `stream`, whose first byte has number `irs`. */
  predicate CutFrom(s: RSeg, irs: int, stream: seq<byte>) {
    && irs <= s.seqno
    && End(s) <= irs + |stream|
    && s.data == stream[s.seqno - irs..End(s) - irs]
  }

  predicate AllCutFrom(q: seq<RSeg>, irs: int, stream: seq<byte>) {
    forall s | s in q :: CutFrom(s, irs, stream)
  }

  lemma {:induction false} SortedOrder(q: seq<RSeg>, nxt: int, i: nat, j: nat)
    requires Sorted(q, nxt) && i < j < |q|
    ensures End(q[i]) <= q[j].seqno
  {
    if i + 1 < j {
      SortedOrder(q, nxt, i, j - 1);
    }
  }

  // ---- Placing a segment on the queue ----------------------------------------

  /** How many queued segments start before `seqno`. */
  function Rank(q: seq<RSeg>, seqno: int): (k: nat)
    ensures k <= |q|
    ensures forall i | 0 <= i < k :: q[i].seqno < seqno
    ensures k < |q| ==> seqno <= q[k].seqno
  {
    if q == [] || seqno <= q[0].seqno then 0 else 1 + Rank(q[1..], seqno)
  }

  /** The part of a segment before number `at`. */
  function Before(s: RSeg, at: int): RSeg
    requires s.seqno <= at
  {
    if at < End(s) then RSeg(s.seqno, s.data[..at - s.seqno]) else s
  }

  /** The last segment gives way to one that starts at `at`. */
  function GiveWay(q: seq<RSeg>, at: int): seq<RSeg>
    requires q != [] ==> q[|q| - 1].seqno <= at
  {
    if q == [] then q else q[..|q| - 1] + [Before(q[|q| - 1], at)]
  }

  /** The queue once `s` has been placed on it: of two segments with the same start the longer stays; otherwise `s` is
      trimmed to its successor and its predecessor is trimmed to it. */
  function Placed(q: seq<RSeg>, s: RSeg): seq<RSeg> {
    var k := Rank(q, s.seqno);
    if k < |q| && q[k].seqno == s.seqno then
      if |q[k].data| < |s.data| then q[k := s] else q
    else
      GiveWay(q[..k], s.seqno) + [if k < |q| then Before(s, q[k].seqno) else s] + q[k..]
  }

  /** `s` replaces a shorter segment with the same start and runs past that segment's successor. */
  predicate Overruns(q: seq<RSeg>, s: RSeg) {
    var k := Rank(q, s.seqno);
    && k + 1 < |q|
    && q[k].seqno == s.seqno
    && |q[k].data| < |s.data|
    && q[k + 1].seqno < End(s)
  }

  lemma SortedConcat(a: seq<RSeg>, b: seq<RSeg>, nxt: int)
    requires Sorted(a, nxt) && Sorted(b, nxt)
    requires a != [] && b != [] ==> End(a[|a| - 1]) <= b[0].seqno
    ensures Sorted(a + b, nxt)
  {
  }

  lemma GiveWaySorted(q: seq<RSeg>, at: int, nxt: int)
    requires Sorted(q, nxt) && (q != [] ==> q[|q| - 1].seqno < at)
    ensures Sorted(GiveWay(q, at), nxt)
    ensures var r := GiveWay(q, at); r != [] ==> End(r[|r| - 1]) <= at
  {
  }

  lemma ReplacedSorted(q: seq<RSeg>, k: nat, s: RSeg, nxt: int)
    requires Sorted(q, nxt) && k < |q| && q[k].seqno == s.seqno && |q[k].data| < |s.data| < 0x1_0000
    ensures Sorted(q[k := s], nxt) <==> (k + 1 < |q| ==> End(s) <= q[k + 1].seqno)
  {
    var r := q[k := s];
    if k + 1 < |q| {
      assert r[k + 1] == q[k + 1] && r[k + 1 - 1] == s;
    }
  }

  lemma SortedSplit(q: seq<RSeg>, k: nat, nxt: int)
    requires Sorted(q, nxt) && k <= |q|
    ensures Sorted(q[..k], nxt) && Sorted(q[k..], nxt)
  {
  }

  lemma InsertedSorted(q: seq<RSeg>, k: nat, s: RSeg, nxt: int)
    requires Sorted(q, nxt) && k <= |q| && (k > 0 ==> q[k - 1].seqno < s.seqno) && (k < |q| ==> s.seqno < q[k].seqno)
    requires nxt < s.seqno < nxt + 0x1_0000 && 0 < |s.data| < 0x1_0000
    ensures Sorted(GiveWay(q[..k], s.seqno) + [if k < |q| then Before(s, q[k].seqno) else s] + q[k..], nxt)
  {
    var m := if k < |q| then Before(s, q[k].seqno) else s;
    assert Sorted([m], nxt);
    hide Sorted, GiveWay;
    SortedSplit(q, k, nxt);
    GiveWaySorted(q[..k], s.seqno, nxt);
    SortedConcat(GiveWay(q[..k], s.seqno), [m], nxt);
    SortedConcat(GiveWay(q[..k], s.seqno) + [m], q[k..], nxt);
  }

  /** Placing keeps the queue sorted and free of overlaps exactly when the segment does not overrun. */
  lemma PlacedSorted(q: seq<RSeg>, s: RSeg, nxt: int)
    requires Sorted(q, nxt)
    requires nxt < s.seqno < nxt + 0x1_0000 && 0 < |s.data| < 0x1_0000
    ensures Sorted(Placed(q, s), nxt) <==> !Overruns(q, s)
  {
    hide Sorted, Rank, GiveWay, Before;
    var k := Rank(q, s.seqno);
    if k < |q| && q[k].seqno == s.seqno {
      if |q[k].data| < |s.data| {
        ReplacedSorted(q, k, s, nxt);
      }
    } else {
      InsertedSorted(q, k, s, nxt);
    }
  }

  predicate Covers(s: RSeg, n: int) {
    s.seqno <= n < End(s)
  }

  predicate Covered(q: seq<RSeg>, n: int) {
    exists i | 0 <= i < |q| :: Covers(q[i], n)
  }

  /** Numbers of `s` that are kept: all of them next to a segment with the same start, else those before its successor. */
  predicate Kept(q: seq<RSeg>, s: RSeg, n: int) {
    var k := Rank(q, s.seqno);
    Covers(s, n) && (k < |q| && q[k].seqno != s.seqno ==> n < q[k].seqno)
  }

  /** Numbers that only the predecessor held, past the end of a segment that landed inside it. */
  predicate Lost(q: seq<RSeg>, s: RSeg, n: int) {
    var k := Rank(q, s.seqno);
    0 < k && !(k < |q| && q[k].seqno == s.seqno) && End(s) <= n && Covers(q[k - 1], n)
  }

  lemma OnlyOne(q: seq<RSeg>, nxt: int, i: nat, j: nat, n: int)
    requires Sorted(q, nxt) && i < |q| && j < |q| && Covers(q[i], n) && Covers(q[j], n)
    ensures i == j
  {
    if i < j {
      SortedOrder(q, nxt, i, j);
    } else if j < i {
      SortedOrder(q, nxt, j, i);
    }
  }

  lemma InsertedCovers(q: seq<RSeg>, k: nat, s: RSeg, r: seq<RSeg>, nxt: int, n: int)
    requires Sorted(q, nxt) && k <= |q|
    requires (k > 0 ==> q[k - 1].seqno < s.seqno) && (k < |q| ==> s.seqno < q[k].seqno)
    requires |r| == |q| + 1 && r[k] == (if k < |q| then Before(s, q[k].seqno) else s)
    requires k > 0 ==> r[k - 1] == Before(q[k - 1], s.seqno)
    requires forall i | 0 <= i < |q| && i != k - 1 :: r[if i < k then i else i + 1] == q[i]
    ensures Covered(r, n) <==>
            || (Covers(s, n) && (k < |q| ==> n < q[k].seqno))
            || (Covered(q, n) && !(0 < k && End(s) <= n && Covers(q[k - 1], n)))
  {
    hide Sorted;
    if Covered(r, n) {
      var i :| 0 <= i < |r| && Covers(r[i], n);
      if i != k {
        var j := if i < k then i else i - 1;
        assert r[if j < k then j else j + 1] == r[i];
        assert Covers(q[j], n);
        if k > 0 && Covers(q[k - 1], n) {
          OnlyOne(q, nxt, j, k - 1, n);
        }
      }
    }
    if Covers(s, n) && (k < |q| ==> n < q[k].seqno) {
      assert Covers(r[k], n);
    }
    if Covered(q, n) && !(0 < k && End(s) <= n && Covers(q[k - 1], n)) {
      var j :| 0 <= j < |q| && Covers(q[j], n);
      if j == k - 1 {
        assert n < s.seqno ==> Covers(r[k - 1], n);
        if s.seqno <= n && k < |q| {
          SortedOrder(q, nxt, k - 1, k);
        }
        assert s.seqno <= n ==> Covers(r[k], n);
      } else {
        assert Covers(r[if j < k then j else j + 1], n);
      }
    }
  }

  /** The numbers held after placing are those of the segment before its successor and those held before, less the tail
      of a predecessor that reached beyond the segment. */
  lemma PlacedCovers(q: seq<RSeg>, s: RSeg, nxt: int, n: int)
    requires Sorted(q, nxt)
    ensures Covered(Placed(q, s), n) <==> Kept(q, s, n) || (Covered(q, n) && !Lost(q, s, n))
  {
    hide Sorted, Rank;
    var k, r := Rank(q, s.seqno), Placed(q, s);
    if k < |q| && q[k].seqno == s.seqno {
      assert forall i | 0 <= i < |q| && i != k :: r[i] == q[i];
      if Covered(q, n) {
        var i :| 0 <= i < |q| && Covers(q[i], n);
        assert Covers(r[i], n);
      }
      assert Covers(s, n) ==> Covers(r[k], n);
    } else {
      InsertedCovers(q, k, s, r, nxt, n);
    }
  }

  /** What is queued after placing was cut from the same stream. */
  lemma PlacedCutFrom(q: seq<RSeg>, s: RSeg, irs: int, stream: seq<byte>)
    requires AllCutFrom(q, irs, stream) && CutFrom(s, irs, stream)
    ensures AllCutFrom(Placed(q, s), irs, stream)
  {
    hide CutFrom, Rank, Before;
    var k := Rank(q, s.seqno);
    if !(k < |q| && q[k].seqno == s.seqno) {
      var m := if k < |q| then Before(s, q[k].seqno) else s;
      if k < |q| {
        BeforeCutFrom(s, q[k].seqno, irs, stream);
      }
      GiveWayCutFrom(q[..k], s.seqno, irs, stream);
      JoinedCutFrom(GiveWay(q[..k], s.seqno), m, q[k..], irs, stream);
    }
  }

  lemma GiveWayCutFrom(q: seq<RSeg>, at: int, irs: int, stream: seq<byte>)
    requires AllCutFrom(q, irs, stream) && (q != [] ==> q[|q| - 1].seqno <= at)
    ensures AllCutFrom(GiveWay(q, at), irs, stream)
  {
    hide CutFrom, Before;
    if q != [] {
      assert q[|q| - 1] in q;
      BeforeCutFrom(q[|q| - 1], at, irs, stream);
    }
  }

  lemma JoinedCutFrom(a: seq<RSeg>, m: RSeg, b: seq<RSeg>, irs: int, stream: seq<byte>)
    requires AllCutFrom(a, irs, stream) && CutFrom(m, irs, stream) && AllCutFrom(b, irs, stream)
    ensures AllCutFrom(a + [m] + b, irs, stream)
  {
    hide CutFrom;
  }

  lemma BeforeCutFrom(s: RSeg, at: int, irs: int, stream: seq<byte>)
    requires CutFrom(s, irs, stream) && s.seqno <= at
    ensures CutFrom(Before(s, at), irs, stream)
  {
    if at < End(s) {
      assert stream[s.seqno - irs..End(s) - irs][..at - s.seqno] == stream[s.seqno - irs..at - irs];
    }
  }

  /** Queued segments and a new one inside the window are all close enough for serial comparison. */
  lemma Close(q: seq<RSeg>, s: RSeg, nxt: int)
    requires Sorted(q, nxt) && nxt < s.seqno < nxt + 0x1_0000 && |s.data| < 0x1_0000
    ensures forall i | 0 <= i < |q| ::
              && (Wrap(s.seqno) == Wrap(q[i].seqno) <==> s.seqno == q[i].seqno)
              && (SeqLt(Wrap(s.seqno), Wrap(q[i].seqno)) <==> s.seqno < q[i].seqno)
              && (SeqLt(Wrap(q[i].seqno), Wrap(s.seqno)) <==> q[i].seqno < s.seqno)
              && (SeqGt(Wrap(s.seqno), Wrap(q[i].seqno)) <==> s.seqno > q[i].seqno)
              && (SeqGt(Wrap(End(s)), Wrap(q[i].seqno)) <==> End(s) > q[i].seqno)
              && (SeqGt(Wrap(End(q[i])), Wrap(s.seqno)) <==> End(q[i]) > s.seqno)
  {
    hide Wrap, SeqLt, SeqGt, SeqLeq, SeqGeq;
    forall i | 0 <= i < |q|
      ensures && (Wrap(s.seqno) == Wrap(q[i].seqno) <==> s.seqno == q[i].seqno)
              && (SeqLt(Wrap(s.seqno), Wrap(q[i].seqno)) <==> s.seqno < q[i].seqno)
              && (SeqLt(Wrap(q[i].seqno), Wrap(s.seqno)) <==> q[i].seqno < s.seqno)
              && (SeqGt(Wrap(s.seqno), Wrap(q[i].seqno)) <==> s.seqno > q[i].seqno)
              && (SeqGt(Wrap(End(s)), Wrap(q[i].seqno)) <==> End(s) > q[i].seqno)
              && (SeqGt(Wrap(End(q[i])), Wrap(s.seqno)) <==> End(q[i]) > s.seqno)
    {
      SerialAgrees(s.seqno, q[i].seqno);
      SerialAgrees(q[i].seqno, s.seqno);
      SerialAgrees(End(s), q[i].seqno);
      SerialAgrees(End(q[i]), s.seqno);
    }
  }

  lemma PlacedAt(q: seq<RSeg>, s: RSeg, k: nat)
    requires k <= |q| && (forall i | 0 <= i < k :: q[i].seqno < s.seqno) && (k < |q| ==> s.seqno <= q[k].seqno)
    ensures Rank(q, s.seqno) == k
  {
  }

  /** The walk along the out-of-order queue in tcp_receive; `mem` tells whether a segment can be allocated. */
  method Place(q: seq<RSeg>, s: RSeg, mem: bool, ghost nxt: int) returns (r: seq<RSeg>)
    requires Sorted(q, nxt)
    requires nxt < s.seqno < nxt + 0x1_0000 && 0 < |s.data| < 0x1_0000
    ensures r == if mem then Placed(q, s) else q
  {
    hide Wrap, SeqLt, SeqGt, Sorted, Rank, Placed;
    if q == [] {
      PlacedLast(q, s);
      return if mem then [s] else [];
    }
    Close(q, s, nxt);
    var i := 0;
    while true
      invariant i < |q|
      invariant forall j | 0 <= j < i :: q[j].seqno < s.seqno
      decreases |q| - i
    {
      var next := q[i];
      if Wrap(s.seqno) == Wrap(next.seqno) {
        PlacedOver(q, s, i);
        return if |s.data| > |next.data| && mem then q[i := s] else q;
      }
      if i == 0 {
        if SeqLt(Wrap(s.seqno), Wrap(next.seqno)) {
          PlacedBetween(q, s, 0);
          var c := if SeqGt(Wrap(End(s)), Wrap(next.seqno)) then RSeg(s.seqno, s.data[..next.seqno - s.seqno]) else s;
          return if mem then [c] + q else q;
        }
      } else if SeqLt(Wrap(q[i - 1].seqno), Wrap(s.seqno)) && SeqLt(Wrap(s.seqno), Wrap(next.seqno)) {
        PlacedBetween(q, s, i);
        var prev := q[i - 1];
        var c := if SeqGt(Wrap(End(s)), Wrap(next.seqno)) then RSeg(s.seqno, s.data[..next.seqno - s.seqno]) else s;
        var p := if SeqGt(Wrap(End(prev)), Wrap(s.seqno)) then RSeg(prev.seqno, prev.data[..s.seqno - prev.seqno]) else prev;
        return if mem then q[..i - 1] + [p] + [c] + q[i..] else q;
      }
      if i == |q| - 1 && SeqGt(Wrap(s.seqno), Wrap(next.seqno)) {
        PlacedLast(q, s);
        var n := if SeqGt(Wrap(End(next)), Wrap(s.seqno)) then RSeg(next.seqno, next.data[..s.seqno - next.seqno]) else next;
        return if mem then q[..i] + [n] + [s] else q;
      }
      i := i + 1;
    }
  }

  /** Placing at a known rank: over a segment with the same start, before a later one, or behind all. */
  lemma PlacedOver(q: seq<RSeg>, s: RSeg, k: nat)
    requires k < |q| && (forall i | 0 <= i < k :: q[i].seqno < s.seqno) && q[k].seqno == s.seqno
    ensures Placed(q, s) == if |q[k].data| < |s.data| then q[k := s] else q
  {
    hide Rank;
    PlacedAt(q, s, k);
  }

  lemma PlacedBetween(q: seq<RSeg>, s: RSeg, k: nat)
    requires k < |q| && (forall i | 0 <= i < k :: q[i].seqno < s.seqno) && s.seqno < q[k].seqno
    ensures k == 0 ==> Placed(q, s) == [Before(s, q[0].seqno)] + q
    ensures k > 0 ==> Placed(q, s) == q[..k - 1] + [Before(q[k - 1], s.seqno)] + [Before(s, q[k].seqno)] + q[k..]
  {
    hide Rank;
    PlacedAt(q, s, k);
    if k > 0 {
      assert q[..k][..k - 1] == q[..k - 1];
    }
  }

  lemma PlacedLast(q: seq<RSeg>, s: RSeg)
    requires forall i | 0 <= i < |q| :: q[i].seqno < s.seqno
    ensures q == [] ==> Placed(q, s) == [s]
    ensures q != [] ==> Placed(q, s) == q[..|q| - 1] + [Before(q[|q| - 1], s.seqno)] + [s]
  {
    hide Rank;
    PlacedAt(q, s, |q|);
    assert q[..|q|] == q && q[|q|..] == [];
  }

  // ---- Delivery ----------------------------------------------------------------

  /** The bytes of the queued segments that follow on from `nxt` without a gap, and the segments left. */
  function DrainData(q: seq<RSeg>, nxt: int): seq<byte> {
    if q != [] && q[0].seqno == nxt then q[0].data + DrainData(q[1..], End(q[0])) else []
  }

  function DrainRest(q: seq<RSeg>, nxt: int): seq<RSeg> {
    if q != [] && q[0].seqno == nxt then DrainRest(q[1..], End(q[0])) else q
  }

  /** Draining hands up exactly the stretch of the stream it moves over and leaves a sorted queue beyond it. */
  lemma {:induction false} DrainKeeps(q: seq<RSeg>, nxt: int, irs: int, stream: seq<byte>)
    requires Sorted(q, nxt - 1)
    ensures Sorted(DrainRest(q, nxt), nxt + |DrainData(q, nxt)|)
    ensures AllCutFrom(q, irs, stream) ==> AllCutFrom(DrainRest(q, nxt), irs, stream)
    ensures AllCutFrom(q, irs, stream) && irs <= nxt <= irs + |stream| ==>
              var to := nxt + |DrainData(q, nxt)|;
              to <= irs + |stream| && DrainData(q, nxt) == stream[nxt - irs..to - irs]
  {
    if q != [] {
      SortedTail(q, nxt);
    }
    if q != [] && q[0].seqno == nxt {
      DrainKeeps(q[1..], End(q[0]), irs, stream);
      if AllCutFrom(q, irs, stream) && irs <= nxt <= irs + |stream| {
        assert q[0] in q;
        var to := nxt + |DrainData(q, nxt)|;
        assert stream[nxt - irs..End(q[0]) - irs] + stream[End(q[0]) - irs..to - irs] == stream[nxt - irs..to - irs];
      }
    }
  }

  lemma SortedTail(q: seq<RSeg>, nxt: int)
    requires Sorted(q, nxt - 1) && q != []
    ensures q[0].seqno == nxt ==> Sorted(q[1..], End(q[0]) - 1)
    ensures q[0].seqno > nxt ==> Sorted(q, nxt)
  {
    forall i | 1 <= i < |q|
      ensures End(q[0]) <= q[i].seqno
    {
      SortedOrder(q, nxt - 1, 0, i);
    }
  }

  datatype RecvState = RecvState(rcvNxt: int, rcvWnd: uint16, ooseq: seq<RSeg>)

  function Shrink(wnd: uint16, n: nat): uint16 {
    if wnd < n then 0 else wnd - n
  }

  /** The segment without the bytes already received. */
  function Fresh(s: RSeg, nxt: int): RSeg {
    if s.seqno < nxt < End(s) then RSeg(nxt, s.data[nxt - s.seqno..]) else s
  }

  /** A segment that starts where the stream stands: its bytes up to the queue, then what the queue continues with. */
  function InOrder(st: RecvState, s: RSeg): seq<byte>
    requires s.seqno == st.rcvNxt && (st.ooseq != [] ==> st.rcvNxt < st.ooseq[0].seqno)
  {
    var own := if st.ooseq != [] then Before(s, st.ooseq[0].seqno).data else s.data;
    own + DrainData(st.ooseq, s.seqno + |own|)
  }

  predicate InReach(st: RecvState, s: RSeg) {
    st.rcvNxt <= s.seqno < st.rcvNxt + st.rcvWnd
  }

  /** The state after the arrival of a segment, and the bytes handed up. */
  function Arrive(st: RecvState, s: RSeg, mem: bool): (RecvState, seq<byte>)
    requires Sorted(st.ooseq, st.rcvNxt)
  {
    var f := Fresh(s, st.rcvNxt);
    if s.data == [] || !InReach(st, f) then (st, [])
    else if f.seqno == st.rcvNxt then
      var up := InOrder(st, f);
      var own := if st.ooseq != [] then Before(f, st.ooseq[0].seqno) else f;
      (RecvState(st.rcvNxt + |up|, Shrink(st.rcvWnd, |up|), DrainRest(st.ooseq, End(own))), up)
    else
      (if mem then st.(ooseq := Placed(st.ooseq, f)) else st, [])
  }

  /** Everything handed up so far is the stream up to `rcvNxt`, and the queue holds later pieces of it in order. */
  predicate Inv(st: RecvState, irs: int, stream: seq<byte>, got: seq<byte>) {
    && Sorted(st.ooseq, st.rcvNxt)
    && AllCutFrom(st.ooseq, irs, stream)
    && irs <= st.rcvNxt <= irs + |stream|
    && got == stream[..st.rcvNxt - irs]
  }

  predicate Overrunning(st: RecvState, s: RSeg, mem: bool) {
    mem && s.data != [] && st.rcvNxt < s.seqno && InReach(st, s) && Overruns(st.ooseq, s)
  }

  /** Whatever the segment, the queue stays sorted exactly when it does not overrun. */
  lemma ArriveSorted(st: RecvState, s: RSeg, mem: bool)
    requires Sorted(st.ooseq, st.rcvNxt) && |s.data| < 0x1_0000
    ensures var r := Arrive(st, s, mem).0;
            Sorted(r.ooseq, r.rcvNxt) <==> !Overrunning(st, s, mem)
  {
    hide Sorted, Placed, Overruns, DrainData, DrainRest;
    var f := Fresh(s, st.rcvNxt);
    if s.data != [] && InReach(st, f) {
      if f.seqno == st.rcvNxt {
        InOrderSorted(st, f);
      } else {
        PlacedSorted(st.ooseq, f, st.rcvNxt);
      }
    }
  }

  /** What is taken of an in-order segment: the part before the first queued one. */
  function Own(st: RecvState, s: RSeg): RSeg
    requires st.ooseq != [] ==> s.seqno <= st.ooseq[0].seqno
  {
    if st.ooseq != [] then Before(s, st.ooseq[0].seqno) else s
  }

  lemma InOrderSorted(st: RecvState, s: RSeg)
    requires Sorted(st.ooseq, st.rcvNxt) && s.seqno == st.rcvNxt && s.data != []
    ensures st.ooseq != [] ==> st.rcvNxt < st.ooseq[0].seqno
    ensures Sorted(st.ooseq, End(Own(st, s)) - 1) && st.rcvNxt < End(Own(st, s))
    ensures Sorted(DrainRest(st.ooseq, End(Own(st, s))), st.rcvNxt + |InOrder(st, s)|)
  {
    var own := Own(st, s);
    SortedFrom(st.ooseq, st.rcvNxt, End(own));
    hide Sorted, DrainRest, DrainData, AllCutFrom;
    DrainKeeps(st.ooseq, End(own), st.rcvNxt, []);
  }

  lemma InOrderKeeps(st: RecvState, s: RSeg, irs: int, stream: seq<byte>)
    requires Sorted(st.ooseq, st.rcvNxt) && s.seqno == st.rcvNxt && s.data != []
    requires st.ooseq != [] ==> st.rcvNxt < st.ooseq[0].seqno
    requires AllCutFrom(st.ooseq, irs, stream) && CutFrom(s, irs, stream)
    ensures var to := st.rcvNxt + |InOrder(st, s)|;
            && AllCutFrom(DrainRest(st.ooseq, End(Own(st, s))), irs, stream)
            && to <= irs + |stream|
            && InOrder(st, s) == stream[st.rcvNxt - irs..to - irs]
  {
    hide Sorted, DrainRest, DrainData, AllCutFrom;
    InOrderSorted(st, s);
    var own := Own(st, s);
    DrainKeeps(st.ooseq, End(own), irs, stream);
    if st.ooseq != [] {
      BeforeCutFrom(s, st.ooseq[0].seqno, irs, stream);
    }
    var to := st.rcvNxt + |InOrder(st, s)|;
    Adjacent(stream, st.rcvNxt - irs, End(own) - irs, to - irs);
  }

  lemma SortedFrom(q: seq<RSeg>, nxt: int, at: int)
    requires Sorted(q, nxt) && nxt < at && (q != [] ==> at <= q[0].seqno)
    ensures Sorted(q, at - 1)
  {
    forall i | 0 < i < |q|
      ensures at <= q[i].seqno
    {
      SortedOrder(q, nxt, 0, i);
    }
  }

  /** A segment of the stream that does not overrun keeps delivery exact; one that overruns breaks the queue. */
  lemma ArriveKeeps(st: RecvState, s: RSeg, mem: bool, irs: int, stream: seq<byte>, got: seq<byte>)
    requires Inv(st, irs, stream, got) && CutFrom(s, irs, stream) && |s.data| < 0x1_0000
    ensures var (r, up) := Arrive(st, s, mem);
            Inv(r, irs, stream, got + up) <==> !Overrunning(st, s, mem)
  {
    hide Sorted, Placed, Overruns, DrainData, DrainRest, AllCutFrom;
    ArriveSorted(st, s, mem);
    var f := Fresh(s, st.rcvNxt);
    FreshCutFrom(s, st.rcvNxt, irs, stream);
    if s.data != [] && InReach(st, f) {
      if f.seqno == st.rcvNxt {
        InOrderSorted(st, f);
        InOrderKeeps(st, f, irs, stream);
        var up := InOrder(st, f);
        var to := st.rcvNxt + |up|;
        Adjacent(stream, 0, st.rcvNxt - irs, to - irs);
      } else {
        PlacedCutFrom(st.ooseq, f, irs, stream);
      }
    }
  }

  // ---- What an arrival does, number by number ------------------------------------------

  /** A number of the segment that is taken when the segment is in order: one before the first queued segment. */
  predicate Taken(q: seq<RSeg>, s: RSeg, n: int) {
    Covers(s, n) && (q != [] ==> n < q[0].seqno)
  }

  /** `to` is the first number from `from` on that the queue does not cover. */
  ghost predicate Gapless(q: seq<RSeg>, from: int, to: int) {
    from <= to && !Covered(q, to) && forall n | from <= n < to :: Covered(q, n)
  }

  /** `to` is the first number from `from` on that neither the queue nor the segment up to the queue covers. */
  ghost predicate Reached(q: seq<RSeg>, s: RSeg, from: int, to: int) {
    && from <= to
    && !Taken(q, s, to) && !Covered(q, to)
    && forall n | from <= n < to :: Taken(q, s, n) || Covered(q, n)
  }

  /** The bytes `up`, from number `from` on, are those of the segment wherever it covers them. */
  predicate Agrees(s: RSeg, from: int, up: seq<byte>) {
    forall n | from <= n < from + |up| && Covers(s, n) :: s.data[n - s.seqno] == up[n - from]
  }

  ghost predicate AllAgree(q: seq<RSeg>, from: int, up: seq<byte>) {
    forall x | x in q :: Agrees(x, from, up)
  }

  /** What is left of a queue: the segments past `to`. */
  ghost predicate LeftPast(rest: seq<RSeg>, q: seq<RSeg>, to: int) {
    forall x :: x in rest <==> x in q && to < x.seqno
  }

  /** A drain stops at the first number that the queue does not cover, hands up what is queued before it, and leaves the
      segments past it. */
  lemma {:induction false} DrainExact(q: seq<RSeg>, nxt: int)
    requires Sorted(q, nxt - 1)
    ensures var to := nxt + |DrainData(q, nxt)|;
            Gapless(q, nxt, to) && AllAgree(q, nxt, DrainData(q, nxt)) && LeftPast(DrainRest(q, nxt), q, to)
  {
    hide *;
    if q == [] || q[0].seqno != nxt {
      DrainsNothing(q, nxt);
    } else {
      SortedTail(q, nxt);
      var mid, more := End(q[0]), DrainData(q[1..], End(q[0]));
      DrainExact(q[1..], mid);
      DrainStart(q, nxt);
      GaplessStep(q, nxt, mid + |more|);
      AgreeStep(q, nxt, more);
      LeftStep(q, nxt, DrainRest(q[1..], mid), mid + |more|);
    }
  }

  lemma DrainStart(q: seq<RSeg>, nxt: int)
    requires q != [] && q[0].seqno == nxt
    ensures End(q[0]) == nxt + |q[0].data|
    ensures DrainData(q, nxt) == q[0].data + DrainData(q[1..], End(q[0])) && DrainRest(q, nxt) == DrainRest(q[1..], End(q[0]))
  {
  }

  lemma DrainsNothing(q: seq<RSeg>, nxt: int)
    requires Sorted(q, nxt - 1) && (q == [] || q[0].seqno != nxt)
    ensures DrainData(q, nxt) == [] && DrainRest(q, nxt) == q
    ensures Gapless(q, nxt, nxt) && AllAgree(q, nxt, []) && LeftPast(q, q, nxt)
  {
    if q != [] {
      SortedTail(q, nxt);
    }
  }

  lemma GaplessStep(q: seq<RSeg>, nxt: int, to: int)
    requires q != [] && q[0].seqno == nxt && Gapless(q[1..], End(q[0]), to)
    ensures Gapless(q, nxt, to)
  {
    forall n | nxt <= n <= to
      ensures Covered(q, n) <==> n < to
    {
      CoveredSplit(q, n);
    }
  }

  lemma CoveredSplit(q: seq<RSeg>, n: int)
    requires q != []
    ensures Covered(q, n) <==> Covers(q[0], n) || Covered(q[1..], n)
  {
    if Covered(q, n) {
      var i :| 0 <= i < |q| && Covers(q[i], n);
      assert i > 0 ==> q[1..][i - 1] == q[i];
    }
    if Covered(q[1..], n) {
      var i :| 0 <= i < |q[1..]| && Covers(q[1..][i], n);
      assert q[i + 1] == q[1..][i];
    }
  }

  lemma AgreeStep(q: seq<RSeg>, nxt: int, more: seq<byte>)
    requires Sorted(q, nxt - 1) && q != [] && q[0].seqno == nxt && AllAgree(q[1..], End(q[0]), more)
    ensures AllAgree(q, nxt, q[0].data + more)
  {
    forall x | x in q
      ensures Agrees(x, nxt, q[0].data + more)
    {
      var i :| 0 <= i < |q| && q[i] == x;
      if i > 0 {
        SortedOrder(q, nxt - 1, 0, i);
        assert q[1..][i - 1] == x;
        AgreeBehind(x, nxt, q[0].data, more);
      }
    }
  }

  /** Bytes before a segment do not matter to it. */
  lemma AgreeBehind(s: RSeg, nxt: int, front: seq<byte>, more: seq<byte>)
    requires nxt + |front| <= s.seqno
    ensures Agrees(s, nxt + |front|, more) <==> Agrees(s, nxt, front + more)
  {
    var mid := nxt + |front|;
    forall n | mid <= n < mid + |more| && Covers(s, n)
      ensures (front + more)[n - nxt] == more[n - mid]
    {
    }
  }

  lemma LeftStep(q: seq<RSeg>, nxt: int, rest: seq<RSeg>, to: int)
    requires q != [] && q[0].seqno == nxt <= to && LeftPast(rest, q[1..], to)
    ensures LeftPast(rest, q, to)
  {
    forall x
      ensures x in rest <==> x in q && to < x.seqno
    {
      assert x in q <==> x == q[0] || x in q[1..];
    }
  }

  /** The new bytes of an in-order segment are those of `s` from `rcvNxt` up to the first queued segment. */
  lemma OwnExact(st: RecvState, s: RSeg)
    requires Sorted(st.ooseq, st.rcvNxt) && s.seqno <= st.rcvNxt < End(s)
    ensures var f := Fresh(s, st.rcvNxt);
            && f.seqno == st.rcvNxt && f.data != [] && (st.ooseq != [] ==> st.rcvNxt < st.ooseq[0].seqno)
            && var own := Own(st, f);
            && own.seqno == st.rcvNxt < End(own)
            && End(own) == (if st.ooseq != [] && st.ooseq[0].seqno < End(s) then st.ooseq[0].seqno else End(s))
            && own.data == s.data[st.rcvNxt - s.seqno..End(own) - s.seqno]
  {
  }

  lemma ReachedFrom(q: seq<RSeg>, s: RSeg, from: int, mid: int, to: int)
    requires s.seqno <= from <= mid && Gapless(q, mid, to)
    requires mid == if q != [] && q[0].seqno < End(s) then q[0].seqno else End(s)
    ensures Reached(q, s, from, to)
  {
    assert forall n | from <= n :: Taken(q, s, n) <==> n < mid;
  }

  lemma AllPast(q: seq<RSeg>, nxt: int, at: int)
    requires Sorted(q, nxt) && (q != [] ==> at <= q[0].seqno)
    ensures forall x | x in q :: at <= x.seqno
  {
    forall x | x in q
      ensures at <= x.seqno
    {
      var i :| 0 <= i < |q| && q[i] == x;
      if i > 0 {
        SortedOrder(q, nxt, 0, i);
      }
    }
  }

  lemma AgreeAll(q: seq<RSeg>, from: int, own: seq<byte>, more: seq<byte>)
    requires AllAgree(q, from + |own|, more) && forall x | x in q :: from + |own| <= x.seqno
    ensures AllAgree(q, from, own + more)
  {
    forall x | x in q
      ensures Agrees(x, from, own + more)
    {
      AgreeBehind(x, from, own, more);
    }
  }

  /** A segment with the next byte, while the window is open: `rcvNxt` moves to the first number that neither the queue nor
      the segment up to the queue covers. The bytes on the way are handed up, the window shrinks by as many, and the queue
      keeps what lies past it. */
  lemma ArriveInOrder(st: RecvState, s: RSeg, mem: bool)
    requires Sorted(st.ooseq, st.rcvNxt) && s.seqno <= st.rcvNxt < End(s) && st.rcvWnd > 0
    ensures var (r, up) := Arrive(st, s, mem);
            && st.rcvNxt < r.rcvNxt == st.rcvNxt + |up|
            && Reached(st.ooseq, s, st.rcvNxt, r.rcvNxt)
            && (forall n | st.rcvNxt <= n < r.rcvNxt && Taken(st.ooseq, s, n) :: s.data[n - s.seqno] == up[n - st.rcvNxt])
            && AllAgree(st.ooseq, st.rcvNxt, up)
            && r.rcvWnd == (if st.rcvWnd < |up| then 0 else st.rcvWnd - |up|)
            && LeftPast(r.ooseq, st.ooseq, r.rcvNxt)
  {
    hide *;
    var q := st.ooseq;
    var own := InOrderIs(st, s, mem);
    DrainExact(q, End(own));
    AllPast(q, st.rcvNxt, End(own));
    var more := DrainData(q, End(own));
    ReachedFrom(q, s, st.rcvNxt, End(own), End(own) + |more|);
    AgreeAll(q, st.rcvNxt, own.data, more);
    OwnAgrees(q, s, st.rcvNxt, own.data, more);
  }

  lemma InOrderIs(st: RecvState, s: RSeg, mem: bool) returns (own: RSeg)
    requires Sorted(st.ooseq, st.rcvNxt) && s.seqno <= st.rcvNxt < End(s) && st.rcvWnd > 0
    ensures st.rcvNxt < End(own) == st.rcvNxt + |own.data| && Sorted(st.ooseq, End(own) - 1)
    ensures End(own) == if st.ooseq != [] && st.ooseq[0].seqno < End(s) then st.ooseq[0].seqno else End(s)
    ensures own.data == s.data[st.rcvNxt - s.seqno..End(own) - s.seqno]
    ensures var up := own.data + DrainData(st.ooseq, End(own));
            var wnd := if st.rcvWnd < |up| then 0 else st.rcvWnd - |up|;
            Arrive(st, s, mem) == (RecvState(st.rcvNxt + |up|, wnd, DrainRest(st.ooseq, End(own))), up)
  {
    var f := Fresh(s, st.rcvNxt);
    OwnExact(st, s);
    InOrderSorted(st, f);
    hide Sorted, Fresh, Before, DrainData, DrainRest;
    own := Own(st, f);
  }

  lemma OwnAgrees(q: seq<RSeg>, s: RSeg, from: int, own: seq<byte>, more: seq<byte>)
    requires s.seqno <= from <= from + |own| <= End(s) && own == s.data[from - s.seqno..from + |own| - s.seqno]
    requires from + |own| == if q != [] && q[0].seqno < End(s) then q[0].seqno else End(s)
    ensures forall n | from <= n < from + |own + more| && Taken(q, s, n) :: s.data[n - s.seqno] == (own + more)[n - from]
  {
  }

  /** A segment past the next byte and inside the window is queued if there is memory, and nothing is handed up. */
  lemma ArriveAhead(st: RecvState, s: RSeg, mem: bool, n: int)
    requires Sorted(st.ooseq, st.rcvNxt) && s.data != [] && st.rcvNxt < s.seqno < st.rcvNxt + st.rcvWnd
    ensures var (r, up) := Arrive(st, s, mem);
            && up == [] && r.rcvNxt == st.rcvNxt && r.rcvWnd == st.rcvWnd
            && (!mem ==> r.ooseq == st.ooseq)
            && (mem ==> (Covered(r.ooseq, n) <==> Kept(st.ooseq, s, n) || (Covered(st.ooseq, n) && !Lost(st.ooseq, s, n))))
  {
    PlacedCovers(st.ooseq, s, st.rcvNxt, n);
  }

  /** Any other segment changes nothing: an old, an empty or a far one, or one that meets a closed window. */
  lemma ArriveIdle(st: RecvState, s: RSeg, mem: bool)
    requires Sorted(st.ooseq, st.rcvNxt)
    requires !(s.seqno <= st.rcvNxt < End(s) && st.rcvWnd > 0)
    requires !(s.data != [] && st.rcvNxt < s.seqno < st.rcvNxt + st.rcvWnd)
    ensures Arrive(st, s, mem) == (st, [])
  {
  }

  lemma FreshCutFrom(s: RSeg, nxt: int, irs: int, stream: seq<byte>)
    requires CutFrom(s, irs, stream)
    ensures CutFrom(Fresh(s, nxt), irs, stream)
  {
    if s.seqno < nxt < End(s) {
      assert stream[s.seqno - irs..End(s) - irs][nxt - s.seqno..] == stream[nxt - irs..End(s) - irs];
    }
  }

  // ---- Whole runs -----------------------------------------------------------------

  /** What happens to a receiver: a segment arrives, the application opens the window, or the queue is
      dropped (by the slow timer or to reclaim memory). */
  datatype Event = Arrives(s: RSeg, mem: bool) | Opens(len: uint16) | Discards

  function Opened(wnd: uint16, len: uint16): uint16 {
    if Wrap16(wnd + len) > TCP_WND then TCP_WND else Wrap16(wnd + len)
  }

  function Step(st: RecvState, e: Event): (RecvState, seq<byte>)
    requires Sorted(st.ooseq, st.rcvNxt)
  {
    match e
    case Arrives(s, mem) => Arrive(st, s, mem)
    case Opens(len) => (st.(rcvWnd := Opened(st.rcvWnd, len)), [])
    case Discards => (st.(ooseq := []), [])
  }

  lemma StepSorted(st: RecvState, e: Event)
    requires Sorted(st.ooseq, st.rcvNxt)
    requires e.Arrives? ==> |e.s.data| < 0x1_0000 && !Overrunning(st, e.s, e.mem)
    ensures Sorted(Step(st, e).0.ooseq, Step(st, e).0.rcvNxt)
  {
    hide Sorted, Arrive, Overrunning;
    match e {
      case Arrives(s, mem) => ArriveSorted(st, s, mem);
      case Opens(_) =>
      case Discards => SortedEmpty(st.rcvNxt);
    }
  }

  lemma SortedEmpty(nxt: int)
    ensures Sorted([], nxt)
  {
  }

  /** Every arrival is a piece of the stream and none overruns at its turn. */
  ghost predicate Clean(st: RecvState, es: seq<Event>, irs: int, stream: seq<byte>)
    requires Sorted(st.ooseq, st.rcvNxt)
    decreases es
  {
    es == [] ||
    (&& (es[0].Arrives? ==>
           CutFrom(es[0].s, irs, stream) && |es[0].s.data| < 0x1_0000 && !Overrunning(st, es[0].s, es[0].mem))
     && (StepSorted(st, es[0]); Clean(Step(st, es[0]).0, es[1..], irs, stream)))
  }

  ghost function Feed(st: RecvState, es: seq<Event>, irs: int, stream: seq<byte>): (RecvState, seq<byte>)
    requires Sorted(st.ooseq, st.rcvNxt) && Clean(st, es, irs, stream)
    decreases es
  {
    if es == [] then (st, [])
    else
      StepSorted(st, es[0]);
      var (st1, up) := Step(st, es[0]);
      var (st2, more) := Feed(st1, es[1..], irs, stream);
      (st2, up + more)
  }

  /** Segments of one stream may arrive in any order, overlap and repeat: what has been handed up is
      always exactly the stream up to `rcvNxt`. */
  lemma {:induction false} FeedDelivers(st: RecvState, es: seq<Event>, irs: int, stream: seq<byte>, got: seq<byte>)
    requires Inv(st, irs, stream, got) && Clean(st, es, irs, stream)
    ensures var (r, up) := Feed(st, es, irs, stream);
            Inv(r, irs, stream, got + up)
    decreases es
  {
    hide Sorted, Arrive, Overrunning;
    if es == [] {
      assert got + [] == got;
    } else {
      var (st1, up) := Step(st, es[0]);
      match es[0] {
        case Arrives(s, mem) => ArriveKeeps(st, s, mem, irs, stream, got);
        case Opens(_) => assert got + up == got;
        case Discards => SortedEmpty(st.rcvNxt); assert got + up == got;
      }
      FeedDelivers(st1, es[1..], irs, stream, got + up);
      var (st2, more) := Feed(st1, es[1..], irs, stream);
      assert got + (up + more) == (got + up) + more;
    }
  }

  /** Nothing gets stuck: in every state of a receiver, whatever is queued, the sender can see the whole stream handed up by
      sending what is next, byte by byte, if the application opens a closed window. */
  lemma {:induction false} Completes(st: RecvState, irs: int, stream: seq<byte>, got: seq<byte>) returns (es: seq<Event>)
    requires Inv(st, irs, stream, got)
    ensures Clean(st, es, irs, stream)
    ensures var (r, up) := Feed(st, es, irs, stream);
            r.rcvNxt == irs + |stream| && got + up == stream
    decreases irs + |stream| - st.rcvNxt, if st.rcvWnd == 0 then 1 else 0
  {
    hide Sorted, Arrive, Overrunning, AllCutFrom, Reached, AllAgree, LeftPast, Taken, Feed, Clean, CutFrom;
    if st.rcvNxt == irs + |stream| {
      es := [];
      FeedNone(st, irs, stream);
    } else {
      var e := if st.rcvWnd == 0 then Opens(1) else Arrives(NextByte(st, irs, stream), true);
      var (st1, up) := Step(st, e);
      if st.rcvWnd == 0 {
        assert got + up == got;
      } else {
        NextByteFits(st, irs, stream);
        ArriveKeeps(st, e.s, true, irs, stream, got);
        ArriveInOrder(st, e.s, true);
      }
      var rest := Completes(st1, irs, stream, got + up);
      es := [e] + rest;
      FeedFirst(st, e, rest, irs, stream);
      Regroup(got, up, Feed(st1, rest, irs, stream).1);
    }
  }

  function NextByte(st: RecvState, irs: int, stream: seq<byte>): RSeg
    requires irs <= st.rcvNxt < irs + |stream|
  {
    RSeg(st.rcvNxt, [stream[st.rcvNxt - irs]])
  }

  lemma NextByteFits(st: RecvState, irs: int, stream: seq<byte>)
    requires irs <= st.rcvNxt < irs + |stream|
    ensures var s := NextByte(st, irs, stream); CutFrom(s, irs, stream) && !Overrunning(st, s, true)
  {
  }

  lemma FeedFirst(st: RecvState, e: Event, es: seq<Event>, irs: int, stream: seq<byte>)
    requires Sorted(st.ooseq, st.rcvNxt)
    requires e.Arrives? ==> CutFrom(e.s, irs, stream) && |e.s.data| < 0x1_0000 && !Overrunning(st, e.s, e.mem)
    requires Sorted(Step(st, e).0.ooseq, Step(st, e).0.rcvNxt) && Clean(Step(st, e).0, es, irs, stream)
    ensures Clean(st, [e] + es, irs, stream)
    ensures var (st1, up) := Step(st, e);
            var (st2, more) := Feed(st1, es, irs, stream);
            Feed(st, [e] + es, irs, stream) == (st2, up + more)
  {
    hide Sorted, Step, Overrunning, CutFrom;
    assert ([e] + es)[1..] == es;
  }

  /** A run with one more event. */
  lemma {:induction false} FeedMore(st: RecvState, es: seq<Event>, e: Event, irs: int, stream: seq<byte>)
    requires Sorted(st.ooseq, st.rcvNxt) && Clean(st, es, irs, stream) && Sorted(Feed(st, es, irs, stream).0.ooseq, Feed(st, es, irs, stream).0.rcvNxt)
    requires e.Arrives? ==>
               CutFrom(e.s, irs, stream) && |e.s.data| < 0x1_0000 && !Overrunning(Feed(st, es, irs, stream).0, e.s, e.mem)
    ensures Clean(st, es + [e], irs, stream)
    ensures var (mid, got) := Feed(st, es, irs, stream);
            var (last, up) := Step(mid, e);
            Feed(st, es + [e], irs, stream) == (last, got + up)
    decreases es
  {
    hide Sorted, Step, Overrunning, CutFrom;
    if es == [] {
      StepSorted(st, e);
      assert [] + [e] == [e] && [e][1..] == [];
      assert [] + Step(st, e).1 + [] == Step(st, e).1 + [] == [] + Step(st, e).1;
    } else {
      StepSorted(st, es[0]);
      var (st1, up) := Step(st, es[0]);
      FeedMore(st1, es[1..], e, irs, stream);
      assert (es + [e])[0] == es[0] && (es + [e])[1..] == es[1..] + [e];
      var (mid, got) := Feed(st1, es[1..], irs, stream);
      assert up + (got + Step(mid, e).1) == up + got + Step(mid, e).1;
    }
  }

  lemma ExamplePieces()
    ensures var stream: seq<byte> := [6, 7, 8];
            stream[1..2] == [7] && stream[2..3] == [8] && stream[1..3] == [7, 8] && stream[..0] == []
  {
    var stream: seq<byte> := [6, 7, 8];
    assert stream[1] == 7;
    assert stream[2] == 8;
    assert stream[1..2] == [stream[1]];
    assert stream[2..3] == [stream[2]];
    assert stream[1..3] == [stream[1], stream[2]];
  }

  /** A segment that overruns: numbers 1 and 2 are queued apart and a segment of both arrives.
      The queue then overlaps itself. */
  lemma OverrunExample()
    ensures var st := RecvState(0, TCP_WND, [RSeg(1, [7]), RSeg(2, [8])]);
            && Inv(st, 0, [6, 7, 8], [])
            && CutFrom(RSeg(1, [7, 8]), 0, [6, 7, 8])
            && Overrunning(st, RSeg(1, [7, 8]), true)
            && var (r, up) := Arrive(st, RSeg(1, [7, 8]), true); !Inv(r, 0, [6, 7, 8], up)
  {
    hide Arrive, Rank;
    var st, s := RecvState(0, TCP_WND, [RSeg(1, [7]), RSeg(2, [8])]), RSeg(1, [7, 8]);
    var stream: seq<byte> := [6, 7, 8];
    ExamplePieces();
    PlacedAt(st.ooseq, s, 0);
    ArriveKeeps(st, s, true, 0, stream, []);
    assert [] + Arrive(st, s, true).1 == Arrive(st, s, true).1;
  }

  /** The word of the segment's number stands for another number. */
  predicate Far(st: RecvState, s: RSeg) {
    !(-HALF <= s.seqno - st.rcvNxt < HALF)
  }

  lemma FeedNone(st: RecvState, irs: int, stream: seq<byte>)
    requires Sorted(st.ooseq, st.rcvNxt)
    ensures Clean(st, [], irs, stream) && Feed(st, [], irs, stream) == (st, [])
  {
  }

  lemma NoneCutFrom(irs: int, stream: seq<byte>)
    ensures AllCutFrom([], irs, stream)
  {
  }

  lemma FirstClose(q: seq<RSeg>, nxt: int, s: RSeg)
    requires Sorted(q, nxt) && q != [] && s.seqno == nxt && |s.data| < 0x1_0000
    ensures nxt < q[0].seqno
    ensures SeqLeq(Wrap(q[0].seqno), Wrap(End(s))) <==> q[0].seqno <= End(s)
  {
    SerialAgrees(q[0].seqno, End(s));
  }

  /** The trimming and window tests of tcp_receive mean what they say for every 32-bit number. */
  lemma ReachMeans(s: RSeg, nxt: int, wnd: uint16, seqno: uint32)
    requires s.seqno == Unwrap(nxt, seqno) && 0 < |s.data| < 0x1_0000
    ensures Wrap(s.seqno) == seqno
    ensures SeqLt(seqno, Wrap(nxt)) && SeqLt(Wrap(nxt), Wrap(End(s))) <==> s.seqno < nxt < End(s)
    ensures var f := Fresh(s, nxt);
            && (SeqGeq(Wrap(f.seqno), Wrap(nxt)) && SeqLt(Wrap(f.seqno), Wrap(nxt + wnd)) <==> nxt <= f.seqno < nxt + wnd)
            && (Wrap(nxt) == Wrap(f.seqno) <==> f.seqno == nxt)
  {
    hide Wrap, SeqLt, SeqGeq, SeqGt, SeqLeq, Unwrap;
    UnwrapIsNearest(nxt, seqno);
    SerialAgrees(s.seqno, nxt);
    if s.seqno < nxt {
      SerialAgrees(nxt, End(s));
    }
    if nxt <= s.seqno {
      SerialAgrees(s.seqno, nxt + wnd);
    }
    SerialAgrees(nxt, nxt + wnd);
    SerialAgrees(nxt, nxt);
  }

  lemma DrainStep(q: seq<RSeg>, nxt: int)
    requires Sorted(q, nxt - 1)
    ensures if q != [] && Wrap(q[0].seqno) == Wrap(nxt) then
              && q[0].seqno == nxt
              && Sorted(q[1..], nxt + |q[0].data| - 1)
              && DrainData(q, nxt) == q[0].data + DrainData(q[1..], nxt + |q[0].data|)
              && DrainRest(q, nxt) == DrainRest(q[1..], nxt + |q[0].data|)
            else DrainData(q, nxt) == [] && DrainRest(q, nxt) == q
  {
    if q != [] {
      SortedTail(q, nxt);
      SameWord(q, nxt);
    }
  }

  lemma SameWord(q: seq<RSeg>, nxt: int)
    requires Sorted(q, nxt - 1) && q != []
    ensures Wrap(q[0].seqno) == Wrap(nxt) <==> q[0].seqno == nxt
  {
    SerialAgrees(q[0].seqno, nxt);
  }

  class Receiver {
    var rcvNxt: int
    var rcvWnd: uint16
    var ooseq: seq<RSeg>

    ghost function Now(): RecvState
      reads this
    {
      RecvState(rcvNxt, rcvWnd, ooseq)
    }

    ghost predicate Valid()
      reads this
    {
      Sorted(ooseq, rcvNxt)
    }

    constructor (irs: int)
      ensures Valid() && Now() == RecvState(irs, TCP_WND, [])
    {
      rcvNxt, rcvWnd, ooseq := irs, TCP_WND, [];
    }

    /** The loop of tcp_receive that hands up the queued segments now in order. */
    method Drain() returns (up: seq<byte>)
      requires Sorted(ooseq, rcvNxt - 1)
      modifies this
      ensures up == DrainData(old(ooseq), old(rcvNxt))
      ensures Now() == RecvState(old(rcvNxt) + |up|, Shrink(old(rcvWnd), |up|), DrainRest(old(ooseq), old(rcvNxt)))
    {
      hide Sorted, DrainData, DrainRest, Wrap;
      up := [];
      while ooseq != [] && Wrap(ooseq[0].seqno) == Wrap(rcvNxt)
        invariant Sorted(ooseq, rcvNxt - 1)
        invariant up + DrainData(ooseq, rcvNxt) == DrainData(old(ooseq), old(rcvNxt))
        invariant DrainRest(ooseq, rcvNxt) == DrainRest(old(ooseq), old(rcvNxt))
        invariant rcvNxt == old(rcvNxt) + |up| && rcvWnd == Shrink(old(rcvWnd), |up|)
        decreases |ooseq|
      {
        DrainStep(ooseq, rcvNxt);
        var c := ooseq[0];
        rcvNxt := rcvNxt + |c.data|;
        rcvWnd := if rcvWnd < |c.data| then 0 else rcvWnd - |c.data|;
        up := up + c.data;
        ooseq := ooseq[1..];
      }
      DrainStep(ooseq, rcvNxt);
      assert up + [] == up;
    }

    /** The branch of tcp_receive for a segment that starts at `rcvNxt`. */
    method Deliver(s: RSeg) returns (up: seq<byte>)
      requires Valid() && s.seqno == rcvNxt && 0 < |s.data| < 0x1_0000 && rcvWnd > 0
      modifies this
      ensures (Now(), up) == Arrive(old(Now()), s, true)
      ensures (Now(), up) == Arrive(old(Now()), s, false)
      ensures Valid()
    {
      hide Sorted, DrainData, DrainRest, SeqLeq, Wrap;
      InOrderSorted(Now(), s);
      var own := s;
      if ooseq != [] {
        FirstClose(ooseq, rcvNxt, s);
        if SeqLeq(Wrap(ooseq[0].seqno), Wrap(End(s))) {
          own := RSeg(s.seqno, s.data[..ooseq[0].seqno - s.seqno]);
        }
        assert s.data[..|s.data|] == s.data && own == Before(s, ooseq[0].seqno);
      }
      SortedFrom(ooseq, rcvNxt, End(own));
      rcvNxt := rcvNxt + |own.data|;
      rcvWnd := if rcvWnd < |own.data| then 0 else rcvWnd - |own.data|;
      var more := Drain();
      up := own.data + more;
    }

    /** tcp_receive for a data segment without FIN: trims, delivers or queues it. */
    method Receive(seqno: uint32, data: seq<byte>, mem: bool) returns (up: seq<byte>)
      requires Valid() && |data| < 0x1_0000
      modifies this
      ensures (Now(), up) == Arrive(old(Now()), RSeg(Unwrap(old(rcvNxt), seqno), data), mem)
      ensures Valid() <==> !Overrunning(old(Now()), RSeg(Unwrap(old(rcvNxt), seqno), data), mem)
    {
      hide Sorted, Placed, Overruns, InOrder, SeqLt, SeqGeq, Wrap, Unwrap;
      var s := RSeg(Unwrap(rcvNxt, seqno), data);
      up := [];
      ArriveSorted(Now(), s, mem);
      if |data| > 0 {
        ReachMeans(s, rcvNxt, rcvWnd, seqno);
        if SeqLt(seqno, Wrap(rcvNxt)) && SeqLt(Wrap(rcvNxt), Wrap(End(s))) {
          s := RSeg(rcvNxt, s.data[rcvNxt - s.seqno..]);
        }
        if SeqGeq(Wrap(s.seqno), Wrap(rcvNxt)) && SeqLt(Wrap(s.seqno), Wrap(rcvNxt + rcvWnd)) {
          if Wrap(rcvNxt) == Wrap(s.seqno) {
            up := Deliver(s);
          } else {
            ooseq := Place(ooseq, s, mem, rcvNxt);
          }
        }
      }
    }

    /** tcp_recved: the window opens by `len` up to its limit, and never beyond; the 16-bit sum is right exactly when it does
        not wrap, and a window that was within its limit shrinks exactly when it does. */
    method Recved(len: uint16)
      requires Valid()
      modifies this`rcvWnd
      ensures Valid() && (Now(), []) == Step(old(Now()), Opens(len)) && rcvWnd <= TCP_WND
      ensures old(rcvWnd) <= TCP_WND ==>
                && (rcvWnd == (if old(rcvWnd) + len < TCP_WND then old(rcvWnd) + len else TCP_WND) <==> old(rcvWnd) + len < 0x1_0000)
                && (rcvWnd >= old(rcvWnd) <==> old(rcvWnd) + len < 0x1_0000)
    {
      rcvWnd := Wrap16(rcvWnd + len);
      if rcvWnd > TCP_WND {
        rcvWnd := TCP_WND;
      }
    }

    /** The slow timer and memory pressure drop the queue. */
    method Discard()
      requires Valid()
      modifies this`ooseq
      ensures Valid() && (Now(), []) == Step(old(Now()), Discards)
    {
      ooseq := [];
    }

    /** A whole run on 32-bit numbers: segments of one stream, whatever their order, overlap and repetition, are handed up as
        exactly the stream up to `rcvNxt`. The run is the fed one, up to a segment that overruns or whose number is half a
        turn or more away, so that its word stands for another one. */
    method Perform(es: seq<Event>, ghost irs: int, ghost stream: seq<byte>, ghost got: seq<byte>)
      returns (done: nat, up: seq<byte>)
      requires Inv(Now(), irs, stream, got)
      requires forall e | e in es && e.Arrives? :: CutFrom(e.s, irs, stream) && |e.s.data| < 0x1_0000
      modifies this
      ensures Inv(Now(), irs, stream, got + up)
      ensures done <= |es| && Clean(old(Now()), es[..done], irs, stream)
      ensures (Now(), up) == Feed(old(Now()), es[..done], irs, stream)
      ensures done < |es| ==> es[done].Arrives?
      ensures done < |es| ==> Far(Now(), es[done].s) || Overrunning(Now(), es[done].s, es[done].mem)
    {
      hide Sorted, Arrive, Overrunning, CutFrom, Unwrap, Feed, Clean, AllCutFrom;
      done, up := 0, [];
      FeedNone(Now(), irs, stream);
      assert es[..0] == [] && got + [] == got;
      while done < |es|
        invariant done <= |es| && Inv(Now(), irs, stream, got + up)
        invariant Clean(old(Now()), es[..done], irs, stream)
        invariant (Now(), up) == Feed(old(Now()), es[..done], irs, stream)
      {
        var e, st := es[done], RecvState(rcvNxt, rcvWnd, ooseq);
        if e.Arrives? && (Far(st, e.s) || Overrunning(st, e.s, e.mem)) {
          return;
        }
        FeedMore(old(Now()), es[..done], e, irs, stream);
        TakeOne(es, done);
        var more := Take(e, irs, stream, got + up);
        assert got + up + more == got + (up + more);
        up := up + more;
        done := done + 1;
      }
    }

    method Take(e: Event, ghost irs: int, ghost stream: seq<byte>, ghost got: seq<byte>) returns (up: seq<byte>)
      requires Inv(Now(), irs, stream, got)
      requires e.Arrives? ==> CutFrom(e.s, irs, stream) && |e.s.data| < 0x1_0000
      requires e.Arrives? ==> !Far(Now(), e.s) && !Overrunning(Now(), e.s, e.mem)
      modifies this
      ensures Inv(Now(), irs, stream, got + up) && (Now(), up) == Step(old(Now()), e)
    {
      hide Sorted, Arrive, Overrunning, CutFrom, Unwrap, AllCutFrom;
      match e {
        case Arrives(s, mem) =>
          ArriveKeeps(Now(), s, mem, irs, stream, got);
          UnwrapIsNearest(rcvNxt, Wrap(s.seqno));
          up := Receive(Wrap(s.seqno), s.data, mem);
        case Opens(len) =>
          up := [];
          assert got + up == got;
          Recved(len);
        case Discards =>
          up := [];
          assert got + up == got;
          NoneCutFrom(irs, stream);
          Discard();
      }
    }
  }
}
