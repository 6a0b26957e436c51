/** The segments of the send side of TCP: runs of segments, cutting a write into segments, coalescing, transmission and
    removal. */
module TcpSegments {
  import opened MachineWords
  import opened Slices
  import opened TcpTypes

  /** What one sequence number carries: a byte, or a SYN or FIN. */
  type Octet = x: int | 0 <= x <= 0x100

  const CONTROL: Octet := 0x100

  datatype Flags = Flags(syn: bool, fin: bool, ack: bool, psh: bool)

  const PLAIN: Flags := Flags(false, false, false, false)
  const FIN: Flags := Flags(false, true, false, false)

  datatype Segment = Segment(seqno: int, data: seq<byte>, flags: Flags, pbufs: nat)

  predicate Occupies(f: Flags) {
    f.syn || f.fin
  }

  predicate Flagged(s: Segment) {
    Occupies(s.flags)
  }

  function TcpLen(s: Segment): nat {
    |s.data| + if Flagged(s) then 1 else 0
  }

  function End(s: Segment): int {
    s.seqno + TcpLen(s)
  }

  /** The octets a segment carries, one per sequence number. */
  function Image(s: Segment): seq<Octet> {
    s.data + if Flagged(s) then [CONTROL] else []
  }

  predicate WellFormed(s: Segment) {
    && |s.data| < 0x1_0000
    && (Flagged(s) ==> s.data == [])
    && 1 <= s.pbufs
  }

  /** Nothing acknowledged is still queued; an empty segment may sit exactly at the mark. */
  predicate Pending(s: Segment, mark: int) {
    mark < End(s) || (TcpLen(s) == 0 && mark == End(s))
  }

  /** The segment carries the octets that were written at its own numbers; `stream[0]` has number `iss`. */
  predicate Faithful(s: Segment, iss: int, stream: seq<Octet>) {
    && iss <= s.seqno
    && End(s) <= iss + |stream|
    && Image(s) == stream[s.seqno - iss..End(s) - iss]
  }

  /** Neighbours abut, the first segment starts at `from` and the last ends at `to`. */
  predicate Linked(q: seq<Segment>, from: int, to: int) {
    && (if q == [] then from == to else q[0].seqno == from && End(q[|q| - 1]) == to)
    && forall i | 0 < i < |q| :: q[i].seqno == End(q[i - 1])
  }

  /** An ordered run of segments from `from` to `to`, all past `mark`, cut from one stream. */
  predicate Run(q: seq<Segment>, from: int, to: int, mark: int, iss: int, stream: seq<Octet>) {
    && Linked(q, from, to)
    && forall s | s in q :: WellFormed(s) && Pending(s, mark) && Faithful(s, iss, stream)
  }

  /** Every segment takes up at least one number. */
  predicate NoEmpty(q: seq<Segment>) {
    forall s | s in q :: TcpLen(s) > 0
  }

  function Pbufs(q: seq<Segment>): nat {
    if q == [] then 0 else q[0].pbufs + Pbufs(q[1..])
  }

  /** The octets a list carries, in order. */
  function Carried(q: seq<Segment>): seq<Octet> {
    if q == [] then [] else Image(q[0]) + Carried(q[1..])
  }

  // ---- Runs of segments ----------------------------------------------------

  lemma {:induction false} PbufsConcat(a: seq<Segment>, b: seq<Segment>)
    ensures Pbufs(a + b) == Pbufs(a) + Pbufs(b)
  {
    if a == [] {
      assert a + b == b;
    } else {
      assert (a + b)[1..] == a[1..] + b;
      PbufsConcat(a[1..], b);
    }
  }

  lemma PbufsAppend(q: seq<Segment>, s: Segment)
    ensures Pbufs([]) == 0 && Pbufs(q + [s]) == Pbufs(q) + s.pbufs
  {
    PbufsConcat(q, [s]);
  }

  lemma RunConcat(a: seq<Segment>, b: seq<Segment>, from: int, mid: int, to: int, mark: int, iss: int, stream: seq<Octet>)
    requires Run(a, from, mid, mark, iss, stream) && Run(b, mid, to, mark, iss, stream)
    ensures Run(a + b, from, to, mark, iss, stream)
  {
  }

  lemma RunOne(s: Segment, mark: int, iss: int, stream: seq<Octet>)
    requires WellFormed(s) && Pending(s, mark) && Faithful(s, iss, stream)
    ensures Run([s], s.seqno, End(s), mark, iss, stream)
  {
  }

  lemma RunTail(q: seq<Segment>, from: int, to: int, mark: int, iss: int, stream: seq<Octet>)
    requires Run(q, from, to, mark, iss, stream) && q != []
    ensures Run(q[1..], End(q[0]), to, mark, iss, stream)
  {
    assert forall i | 0 <= i < |q| - 1 :: q[1..][i] == q[i + 1];
  }

  lemma RunFront(q: seq<Segment>, from: int, to: int, mark: int, iss: int, stream: seq<Octet>)
    requires Run(q, from, to, mark, iss, stream) && q != []
    ensures Run(q[..|q| - 1], from, q[|q| - 1].seqno, mark, iss, stream)
  {
  }

  /** What is written later does not disturb what is queued. */
  lemma RunGrows(q: seq<Segment>, from: int, to: int, mark: int, iss: int, stream: seq<Octet>, more: seq<Octet>)
    requires Run(q, from, to, mark, iss, stream)
    ensures Run(q, from, to, mark, iss, stream + more)
  {
    forall s | s in q
      ensures Faithful(s, iss, stream + more)
    {
      assert (stream + more)[s.seqno - iss..End(s) - iss] == stream[s.seqno - iss..End(s) - iss];
    }
  }

  lemma EmptyRun(from: int, to: int, mark: int, iss: int, stream: seq<Octet>)
    ensures Run([], from, to, mark, iss, stream) <==> from == to
  {
  }

  lemma RunHead(q: seq<Segment>, from: int, to: int, mark: int, iss: int, stream: seq<Octet>)
    requires Run(q, from, to, mark, iss, stream) && q != []
    ensures iss <= from <= End(q[0]) <= iss + |stream|
    ensures Image(q[0]) == stream[from - iss..End(q[0]) - iss]
  {
    assert q[0] in q;
  }

  /** A run carries exactly the stretch of the stream that it spans. */
  lemma {:induction false} RunCarries(q: seq<Segment>, from: int, to: int, mark: int, iss: int, stream: seq<Octet>)
    requires Run(q, from, to, mark, iss, stream) && iss <= from && to <= iss + |stream|
    ensures from <= to && Carried(q) == stream[from - iss..to - iss]
  {
    hide Run, Faithful, End, Image;
    if q == [] {
      EmptyRun(from, to, mark, iss, stream);
    } else {
      RunTail(q, from, to, mark, iss, stream);
      RunHead(q, from, to, mark, iss, stream);
      RunCarries(q[1..], End(q[0]), to, mark, iss, stream);
      Adjacent(stream, from - iss, End(q[0]) - iss, to - iss);
    }
  }

  /** A run spans at most 64 KiB of sequence numbers per buffer. */
  lemma {:induction false} RunBound(q: seq<Segment>, from: int, to: int, mark: int, iss: int, stream: seq<Octet>)
    requires Run(q, from, to, mark, iss, stream)
    ensures from <= to <= from + 0x1_0000 * Pbufs(q)
    ensures forall s | s in q :: from <= s.seqno && End(s) <= to
  {
    if q != [] {
      assert q[0] in q;
      RunTail(q, from, to, mark, iss, stream);
      RunBound(q[1..], End(q[0]), to, mark, iss, stream);
      assert forall s | s in q :: s == q[0] || s in q[1..];
    }
  }

  /** When the first segment ends past a new mark, so do all. */
  lemma RunRaise(q: seq<Segment>, from: int, to: int, mark: int, mark': int, iss: int, stream: seq<Octet>)
    requires Run(q, from, to, mark, iss, stream)
    requires q != [] ==> mark' < End(q[0])
    ensures Run(q, from, to, mark', iss, stream)
    ensures forall s | s in q :: mark' < End(s)
  {
    if q != [] {
      RunTail(q, from, to, mark, iss, stream);
      RunBound(q[1..], End(q[0]), to, mark, iss, stream);
      assert forall s | s in q :: s == q[0] || s in q[1..];
    }
  }

  /** No segment of a run is short of where the run starts. */
  lemma RunPast(q: seq<Segment>, from: int, to: int, mark: int, mark': int, iss: int, stream: seq<Octet>)
    requires Run(q, from, to, mark, iss, stream) && mark' <= from
    ensures Run(q, from, to, mark', iss, stream)
  {
    RunBound(q, from, to, mark, iss, stream);
  }

  // ---- Segmentation ------------------------------------------------------

  /** The segments that `data` is cut into. */
  function Cut(data: seq<byte>, seqno: int, mss: nat, flags: Flags, pb: nat): (q: seq<Segment>)
    requires mss > 0 || data == []
    ensures q != []
    decreases |data|
  {
    if |data| <= mss then
      [Segment(seqno, data, flags, pb)]
    else
      [Segment(seqno, data[..mss], flags, pb)] + Cut(data[mss..], seqno + mss, mss, flags, pb)
  }

  /** Cutting loses no octet and numbers the pieces consecutively. */
  lemma {:induction false} CutIsRun(data: seq<byte>, seqno: int, mss: nat, flags: Flags, pb: nat, mark: int, iss: int, stream: seq<Octet>)
    requires mss > 0 || data == []
    requires |data| < 0x1_0000 && 0 < pb && mark <= seqno && iss <= seqno
    requires Occupies(flags) ==> data == []
    requires var to := seqno + |data| + if Occupies(flags) then 1 else 0;
             to <= iss + |stream| && stream[seqno - iss..to - iss] == data + if Occupies(flags) then [CONTROL] else []
    ensures var to := seqno + |data| + if Occupies(flags) then 1 else 0;
            Run(Cut(data, seqno, mss, flags, pb), seqno, to, mark, iss, stream)
    decreases |data|
  {
    if |data| <= mss {
      RunOne(Segment(seqno, data, flags, pb), mark, iss, stream);
    } else {
      var head := Segment(seqno, data[..mss], flags, pb);
      var tail := Cut(data[mss..], seqno + mss, mss, flags, pb);
      var lo, hi := seqno - iss, seqno + |data| - iss;
      assert stream[lo..hi] == data;
      assert stream[lo..lo + mss] == data[..mss];
      assert stream[lo + mss..hi] == data[mss..];
      CutIsRun(data[mss..], seqno + mss, mss, flags, pb, mark, iss, stream);
      RunOne(head, mark, iss, stream);
      RunConcat([head], tail, seqno, seqno + mss, seqno + |data|, mark, iss, stream);
    }
  }

  /** All pieces but the last carry exactly one maximum segment. */
  lemma {:induction false} CutFills(data: seq<byte>, seqno: int, mss: nat, flags: Flags, pb: nat, i: nat)
    requires mss > 0 || data == []
    requires i < |Cut(data, seqno, mss, flags, pb)|
    ensures var q := Cut(data, seqno, mss, flags, pb);
            |q[i].data| <= mss && (i < |q| - 1 ==> |q[i].data| == mss)
    decreases |data|
  {
    if |data| > mss && i > 0 {
      CutFills(data[mss..], seqno + mss, mss, flags, pb, i - 1);
    }
  }

  /** While a queue is being built: what has been cut, and what is left to cut. */
  ghost predicate Remaining(cut: seq<Segment>, queue: seq<Segment>, left: seq<byte>, seqno: int, mss: nat, flags: Flags, pb: nat)
    requires mss > 0 || left == []
  {
    cut == queue + if queue == [] || left != [] then Cut(left, seqno, mss, flags, pb) else []
  }

  lemma CutStep(data: seq<byte>, seqno: int, mss: nat, flags: Flags, pb: nat)
    requires mss > 0 || data == []
    ensures var n := if |data| > mss then mss else |data|;
            Cut(data, seqno, mss, flags, pb) ==
            [Segment(seqno, data[..n], flags, pb)] +
            if data[n..] != [] then Cut(data[n..], seqno + n, mss, flags, pb) else []
  {
    if |data| <= mss {
      assert data[..|data|] == data;
    }
  }

  lemma BuildStep(cut: seq<Segment>, queue: seq<Segment>, left: seq<byte>, seqno: int, mss: nat, flags: Flags, pb: nat)
    requires mss > 0 || left == []
    requires Remaining(cut, queue, left, seqno, mss, flags, pb) && (queue == [] || left != [])
    ensures var n := if |left| > mss then mss else |left|;
            Remaining(cut, queue + [Segment(seqno, left[..n], flags, pb)], left[n..], seqno + n, mss, flags, pb)
    ensures |queue| < |cut| && Pbufs(queue) + pb <= Pbufs(cut)
  {
    hide Cut, Pbufs;
    CutStep(left, seqno, mss, flags, pb);
    var n := if |left| > mss then mss else |left|;
    var piece := Segment(seqno, left[..n], flags, pb);
    BuiltOn(cut, queue, piece, if left[n..] != [] then Cut(left[n..], seqno + n, mss, flags, pb) else []);
  }

  lemma BuiltOn(cut: seq<Segment>, queue: seq<Segment>, piece: Segment, rest: seq<Segment>)
    requires cut == queue + ([piece] + rest)
    ensures cut == (queue + [piece]) + rest
    ensures |queue| < |cut| && Pbufs(queue) + piece.pbufs <= Pbufs(cut)
  {
    hide Pbufs;
    Regroup(queue, [piece], rest);
    PbufsAppend(queue, piece);
    PbufsConcat(queue + [piece], rest);
  }

  // ---- Coalescing ----------------------------------------------------------

  /** Does the first new segment join the last unsent one? */
  predicate Coalesces(unsent: seq<Segment>, first: Segment, mss: nat) {
    && unsent != []
    && TcpLen(unsent[|unsent| - 1]) != 0
    && !Flagged(unsent[|unsent| - 1])
    && !Flagged(first)
    && |unsent[|unsent| - 1].data| + |first.data| <= mss
  }

  function Merge(last: Segment, first: Segment): Segment {
    last.(data := last.data + first.data, pbufs := last.pbufs + first.pbufs)
  }

  /** The PSH flag goes on the last segment when it carries data. */
  function PushLast(q: seq<Segment>): seq<Segment> {
    if q == [] || q[|q| - 1].data == [] then q
    else q[..|q| - 1] + [q[|q| - 1].(flags := q[|q| - 1].flags.(psh := true))]
  }

  /** The unsent list after a freshly cut queue has been put behind it. */
  function Joined(unsent: seq<Segment>, queue: seq<Segment>, mss: nat): seq<Segment>
    requires queue != []
  {
    if Coalesces(unsent, queue[0], mss) then
      unsent[..|unsent| - 1] + [Merge(unsent[|unsent| - 1], queue[0])] + PushLast(queue[1..])
    else
      unsent + PushLast(queue)
  }

  lemma PushIsRun(q: seq<Segment>, from: int, to: int, mark: int, iss: int, stream: seq<Octet>)
    requires Run(q, from, to, mark, iss, stream)
    ensures Run(PushLast(q), from, to, mark, iss, stream)
    ensures Pbufs(PushLast(q)) == Pbufs(q)
  {
    if q != [] && q[|q| - 1].data != [] {
      var front, last := q[..|q| - 1], q[|q| - 1];
      var pushed := last.(flags := last.flags.(psh := true));
      assert last in q;
      RunFront(q, from, to, mark, iss, stream);
      RunOne(pushed, mark, iss, stream);
      RunConcat(front, [pushed], from, last.seqno, to, mark, iss, stream);
      assert q == front + [last];
      PbufsConcat(front, [last]);
      PbufsConcat(front, [pushed]);
    }
  }

  lemma MergeFaithful(last: Segment, first: Segment, mss: uint16, iss: int, stream: seq<Octet>)
    requires WellFormed(last) && Faithful(last, iss, stream) && !Flagged(last)
    requires WellFormed(first) && Faithful(first, iss, stream) && !Flagged(first)
    requires first.seqno == End(last) && |last.data| + |first.data| <= mss
    ensures WellFormed(Merge(last, first)) && Faithful(Merge(last, first), iss, stream)
  {
    var lo, mid, hi := last.seqno - iss, first.seqno - iss, End(first) - iss;
    assert stream[lo..mid] + stream[mid..hi] == stream[lo..hi];
    assert Image(last) == last.data && Image(first) == first.data;
    assert Image(Merge(last, first)) == last.data + first.data;
  }

  /** Joining the first new segment to the last unsent one keeps the run. */
  lemma MergeIsRun(front: seq<Segment>, last: Segment, first: Segment, mss: uint16, from: int, mark: int, iss: int, stream: seq<Octet>)
    requires Run(front, from, last.seqno, mark, iss, stream)
    requires WellFormed(last) && Faithful(last, iss, stream) && Pending(last, mark) && !Flagged(last)
    requires WellFormed(first) && Faithful(first, iss, stream) && !Flagged(first)
    requires first.seqno == End(last) && |last.data| + |first.data| <= mss && last.data != []
    ensures Run(front + [Merge(last, first)], from, End(first), mark, iss, stream)
    ensures Pbufs(front + [Merge(last, first)]) == Pbufs(front + [last]) + first.pbufs
  {
    var merged := Merge(last, first);
    MergeFaithful(last, first, mss, iss, stream);
    RunOne(merged, mark, iss, stream);
    RunConcat(front, [merged], from, last.seqno, End(first), mark, iss, stream);
    PbufsConcat(front, [last]);
    PbufsConcat(front, [merged]);
  }

  /** A write with data, SYN or FIN is cut into segments none of which is empty; without any it is cut into one that is. */
  lemma {:induction false} CutNoEmpty(data: seq<byte>, seqno: int, mss: nat, flags: Flags, pb: nat)
    requires mss > 0 || data == []
    ensures NoEmpty(Cut(data, seqno, mss, flags, pb)) <==> data != [] || Occupies(flags)
    decreases |data|
  {
    var q := Cut(data, seqno, mss, flags, pb);
    if |data| > mss {
      var rest := Cut(data[mss..], seqno + mss, mss, flags, pb);
      CutNoEmpty(data[mss..], seqno + mss, mss, flags, pb);
      assert q == [q[0]] + rest && TcpLen(q[0]) > 0;
    } else {
      assert q[0] in q;
    }
  }

  /** Queueing brings no empty segment in, unless the first new one is empty and finds no segment to join. */
  lemma JoinedNoEmpty(unsent: seq<Segment>, queue: seq<Segment>, mss: nat)
    requires queue != [] && NoEmpty(unsent) && NoEmpty(queue[1..])
    ensures NoEmpty(Joined(unsent, queue, mss)) <==> TcpLen(queue[0]) > 0 || Coalesces(unsent, queue[0], mss)
  {
    hide PushLast;
    if Coalesces(unsent, queue[0], mss) {
      PushNoEmpty(queue[1..]);
      var front, last := unsent[..|unsent| - 1], unsent[|unsent| - 1];
      assert last in unsent;
      NoEmptyConcat(front, [Merge(last, queue[0])]);
      NoEmptyConcat(front + [Merge(last, queue[0])], PushLast(queue[1..]));
    } else {
      PushNoEmpty(queue);
      NoEmptyConcat(unsent, PushLast(queue));
      NoEmptyConcat([queue[0]], queue[1..]);
      assert queue == [queue[0]] + queue[1..];
    }
  }

  lemma NoEmptyConcat(a: seq<Segment>, b: seq<Segment>)
    ensures NoEmpty(a + b) <==> NoEmpty(a) && NoEmpty(b)
  {
    if NoEmpty(a + b) {
      assert forall s | s in a || s in b :: s in a + b;
    }
  }

  lemma PushNoEmpty(q: seq<Segment>)
    ensures NoEmpty(PushLast(q)) <==> NoEmpty(q)
  {
    if q != [] && q[|q| - 1].data != [] {
      var front, last := q[..|q| - 1], q[|q| - 1];
      assert q == front + [last];
      if NoEmpty(PushLast(q)) {
        assert forall s | s in front :: s in PushLast(q);
      }
    }
  }

  /** Coalescing and pushing change neither the octets nor their numbers nor the buffer count. */
  lemma JoinedIsRun(unsent: seq<Segment>, queue: seq<Segment>, mss: uint16, from: int, mid: int, to: int,
                    mark: int, iss: int, stream: seq<Octet>)
    requires queue != []
    requires Run(unsent, from, mid, mark, iss, stream) && Run(queue, mid, to, mark, iss, stream)
    ensures Run(Joined(unsent, queue, mss), from, to, mark, iss, stream)
    ensures Pbufs(Joined(unsent, queue, mss)) == Pbufs(unsent) + Pbufs(queue)
  {
    if Coalesces(unsent, queue[0], mss) {
      var first, rest := queue[0], queue[1..];
      var front, last := unsent[..|unsent| - 1], unsent[|unsent| - 1];
      assert first in queue && last in unsent && unsent == front + [last];
      RunFront(unsent, from, mid, mark, iss, stream);
      MergeIsRun(front, last, first, mss, from, mark, iss, stream);
      RunTail(queue, mid, to, mark, iss, stream);
      PushIsRun(rest, End(first), to, mark, iss, stream);
      RunConcat(front + [Merge(last, first)], PushLast(rest), from, End(first), to, mark, iss, stream);
      PbufsConcat(front + [Merge(last, first)], PushLast(rest));
    } else {
      PushIsRun(queue, mid, to, mark, iss, stream);
      RunConcat(unsent, PushLast(queue), from, mid, to, mark, iss, stream);
      PbufsConcat(unsent, PushLast(queue));
    }
  }

  /** No segment carries more than `n` bytes. */
  predicate Fit(q: seq<Segment>, n: nat) {
    forall s | s in q :: |s.data| <= n
  }

  /** Does a write go into the last unsent segment? That must hold data, neither may be marked SYN or FIN, and the two
      together must not exceed `mss`. */
  predicate HasRoom(unsent: seq<Segment>, data: seq<byte>, flags: Flags, mss: nat) {
    && unsent != []
    && var last := unsent[|unsent| - 1];
    && last.data != [] && !Occupies(last.flags) && !Occupies(flags)
    && |last.data| + (if |data| < mss then |data| else mss) <= mss
  }

  /** Queueing a write makes no segment longer than `mss` that was not before. */
  lemma QueuedFits(unsent: seq<Segment>, data: seq<byte>, seqno: int, mss: uint16, flags: Flags, pb: nat, n: nat)
    requires (mss > 0 || data == []) && mss <= n
    ensures Fit(unsent, n) ==> Fit(Joined(unsent, Cut(data, seqno, mss, flags, pb), mss), n)
  {
    var queue := Cut(data, seqno, mss, flags, pb);
    forall s | s in queue
      ensures |s.data| <= mss
    {
      var i :| 0 <= i < |queue| && queue[i] == s;
      CutFills(data, seqno, mss, flags, pb, i);
    }
    hide Cut;
    PushFits(queue, n);
    PushFits(queue[1..], n);
  }

  lemma PushFits(q: seq<Segment>, n: nat)
    ensures Fit(q, n) ==> Fit(PushLast(q), n)
  {
  }

  /** The last unsent segment grows by the first piece of a write exactly when it has room for it; the other segments are the
      old ones and the other pieces. */
  lemma JoinedExact(unsent: seq<Segment>, data: seq<byte>, seqno: int, mss: uint16, flags: Flags, pb: nat)
    requires (mss > 0 || data == []) && (Occupies(flags) ==> data == [])
    requires forall s | s in unsent :: WellFormed(s)
    ensures var q := Cut(data, seqno, mss, flags, pb);
            var r, k := Joined(unsent, q, mss), if HasRoom(unsent, data, flags, mss) then 1 else 0;
            && |r| == |unsent| + |q| - k
            && (forall i | 0 <= i < |unsent| - k :: r[i] == unsent[i])
            && (k == 1 ==> r[|unsent| - 1].data == unsent[|unsent| - 1].data + q[0].data)
            && (forall i | k <= i < |q| :: r[|unsent| + i - k].seqno == q[i].seqno && r[|unsent| + i - k].data == q[i].data)
            && (forall i | k <= i < |q| ::
                  r[|unsent| + i - k].flags == q[i].flags.(psh := q[i].flags.psh || (i == |q| - 1 && q[i].data != [])))
  {
    hide Cut, PushLast, Coalesces, HasRoom;
    var q := Cut(data, seqno, mss, flags, pb);
    CutHead(data, seqno, mss, flags, pb);
    RoomMeans(unsent, q[0], data, mss);
    PushExact(q);
    PushExact(q[1..]);
  }

  lemma RoomMeans(unsent: seq<Segment>, first: Segment, data: seq<byte>, mss: uint16)
    requires first.data == (if |data| <= mss then data else data[..mss]) && forall s | s in unsent :: WellFormed(s)
    ensures Coalesces(unsent, first, mss) <==> HasRoom(unsent, data, first.flags, mss)
    ensures HasRoom(unsent, data, first.flags, mss) ==> unsent != []
  {
    if unsent != [] {
      assert unsent[|unsent| - 1] in unsent;
    }
  }

  lemma PushExact(q: seq<Segment>)
    ensures |PushLast(q)| == |q|
    ensures forall i | 0 <= i < |q| :: PushLast(q)[i].seqno == q[i].seqno && PushLast(q)[i].data == q[i].data
    ensures forall i | 0 <= i < |q| ::
              PushLast(q)[i].flags == q[i].flags.(psh := q[i].flags.psh || (i == |q| - 1 && q[i].data != []))
  {
  }

  lemma CutHead(data: seq<byte>, seqno: int, mss: uint16, flags: Flags, pb: nat)
    requires mss > 0 || data == []
    ensures var q := Cut(data, seqno, mss, flags, pb);
            q != [] && q[0] == Segment(seqno, if |data| <= mss then data else data[..mss], flags, pb)
  {
  }

  // ---- Transmission --------------------------------------------------------

  /** The window test of tcp_output and tcp_rexmit_seg, on 32-bit words. */
  predicate InWindow(s: Segment, lastack: int, wnd: uint32) {
    Wrap(Wrap(s.seqno) - Wrap(lastack) + |s.data|) <= wnd
  }

  /** For a pending segment near the mark the test bounds how far it reaches past the mark. */
  lemma InWindowMeans(s: Segment, lastack: int, wnd: uint32)
    requires WellFormed(s) && Pending(s, lastack) && End(s) - lastack < HALF
    ensures InWindow(s, lastack, wnd) <==> s.seqno + |s.data| - lastack <= wnd
  {
    WrapOffset(s.seqno, lastack, |s.data|);
  }

  /** The segment as it leaves: the ACK flag is set unless the SYN is still unanswered. */
  function Stamped(s: Segment, state: TcpState): Segment {
    if state.SynSent? then s else s.(flags := s.flags.(ack := true))
  }

  lemma StampedSame(s: Segment, state: TcpState, lastack: int, wnd: uint32)
    ensures End(Stamped(s, state)) == End(s)
    ensures InWindow(Stamped(s, state), lastack, wnd) <==> InWindow(s, lastack, wnd)
  {
  }

  function NonEmpty(q: seq<Segment>): seq<Segment> {
    if q == [] then []
    else (if TcpLen(q[0]) > 0 then [q[0]] else []) + NonEmpty(q[1..])
  }

  lemma NonEmptyNone(q: seq<Segment>)
    ensures q + NonEmpty([]) == q
  {
  }

  lemma {:induction false} NonEmptyAppend(q: seq<Segment>, s: Segment)
    ensures NonEmpty(q + [s]) == NonEmpty(q) + (if TcpLen(s) > 0 then [s] else [])
  {
    if q != [] {
      assert (q + [s])[1..] == q[1..] + [s];
      NonEmptyAppend(q[1..], s);
    }
  }

  /** Moving the first unsent segment behind the unacknowledged ones keeps both runs; an empty one just vanishes. */
  lemma SendKeepsRun(unacked: seq<Segment>, unsent: seq<Segment>, base: int, mid: int, to: int, mark: int, iss: int,
                     stream: seq<Octet>, state: TcpState)
    requires Run(unacked, base, mid, mark, iss, stream) && Run(unsent, mid, to, mark, iss, stream) && unsent != []
    ensures var s := Stamped(unsent[0], state);
            && Run(if TcpLen(s) > 0 then unacked + [s] else unacked, base, End(s), mark, iss, stream)
            && Pbufs(unacked + [s]) == Pbufs(unacked) + s.pbufs
            && mid <= End(s) <= to
    ensures Run(unsent[1..], End(unsent[0]), to, mark, iss, stream)
    ensures Pbufs(unsent) == unsent[0].pbufs + Pbufs(unsent[1..])
  {
    var s := Stamped(unsent[0], state);
    assert unsent[0] in unsent;
    RunOne(s, mark, iss, stream);
    RunConcat(unacked, [s], base, mid, End(s), mark, iss, stream);
    PbufsConcat(unacked, [s]);
    RunTail(unsent, mid, to, mark, iss, stream);
    RunBound(unsent[1..], End(s), to, mark, iss, stream);
  }

  lemma ExpireKeepsRun(unacked: seq<Segment>, unsent: seq<Segment>, base: int, mid: int, to: int, mark: int, iss: int, stream: seq<Octet>)
    requires Run(unacked, base, mid, mark, iss, stream) && Run(unsent, mid, to, mark, iss, stream) && unacked != []
    ensures Run(unacked[..1], base, End(unacked[0]), mark, iss, stream)
    ensures Run(unacked[1..] + unsent, End(unacked[0]), to, mark, iss, stream)
    ensures Pbufs(unacked[..1]) + Pbufs(unacked[1..] + unsent) == Pbufs(unacked) + Pbufs(unsent)
    ensures base <= End(unacked[0]) <= mid
  {
    var s := unacked[0];
    assert s in unacked && unacked[..1] == [s];
    RunOne(s, mark, iss, stream);
    RunTail(unacked, base, mid, mark, iss, stream);
    RunConcat(unacked[1..], unsent, End(s), mid, to, mark, iss, stream);
    RunBound(unacked[1..], End(s), mid, mark, iss, stream);
    PbufsConcat(unacked[1..], unsent);
  }

  // ---- Acknowledgement -------------------------------------------------------

  lemma RunSuffix(q: seq<Segment>, d: nat, from: int, to: int, mark: int, iss: int, stream: seq<Octet>)
    requires Run(q, from, to, mark, iss, stream) && d <= |q|
    ensures Run(q[d..], if d == 0 then from else End(q[d - 1]), to, mark, iss, stream)
  {
  }

  lemma {:induction false} PbufsSplit(q: seq<Segment>, d: nat)
    requires d <= |q|
    ensures Pbufs(q) == Pbufs(q[..d]) + Pbufs(q[d..])
  {
    assert q == q[..d] + q[d..];
    PbufsConcat(q[..d], q[d..]);
  }

  /** `rest` is what remains of `q` once the longest prefix that ends at or before `mark` is gone. */
  ghost predicate Dropped(q: seq<Segment>, rest: seq<Segment>, mark: int) {
    && |rest| <= |q| && rest == q[|q| - |rest|..]
    && (forall i | 0 <= i < |q| - |rest| :: End(q[i]) <= mark)
    && (rest != [] ==> mark < End(rest[0]))
  }

  /** The same on 32-bit words: the longest prefix of segments that do not end after `ackno` is gone. */
  ghost predicate SerialDropped(q: seq<Segment>, rest: seq<Segment>, ackno: uint32) {
    && |rest| <= |q| && rest == q[|q| - |rest|..]
    && (forall i | 0 <= i < |q| - |rest| :: SeqLeq(Wrap(End(q[i])), ackno))
    && (rest != [] ==> !SeqLeq(Wrap(End(rest[0])), ackno))
  }

  /** The two removal loops of tcp_receive. */
  method DropAcked(q: seq<Segment>, ackno: uint32) returns (rest: seq<Segment>, freed: nat)
    ensures SerialDropped(q, rest, ackno)
    ensures freed == Pbufs(q) - Pbufs(rest)
  {
    rest, freed := q, 0;
    while rest != [] && SeqLeq(Wrap(End(rest[0])), ackno)
      invariant |rest| <= |q| && rest == q[|q| - |rest|..]
      invariant freed == Pbufs(q) - Pbufs(rest)
      invariant forall i | 0 <= i < |q| - |rest| :: SeqLeq(Wrap(End(q[i])), ackno)
      decreases |rest|
    {
      freed := freed + rest[0].pbufs;
      rest := rest[1..];
    }
  }

  /** Near the mark the loops drop exactly what the acknowledgement covers. */
  lemma DropAckedMeans(q: seq<Segment>, rest: seq<Segment>, mark: int, ackno: uint32)
    requires Wrap(mark) == ackno && forall s | s in q :: -HALF <= End(s) - mark < HALF
    requires SerialDropped(q, rest, ackno)
    ensures Dropped(q, rest, mark)
  {
    forall i | 0 <= i < |q| - |rest|
      ensures End(q[i]) <= mark
    {
      SerialAgrees(End(q[i]), mark);
    }
    if rest != [] {
      assert rest[0] in q;
      SerialAgrees(End(rest[0]), mark);
    }
  }

  /** Dropping what is covered from both lists drops one prefix of their concatenation and leaves one run. */
  lemma AckKeepsRun(unacked: seq<Segment>, unsent: seq<Segment>, ra: seq<Segment>, rs: seq<Segment>,
                    base: int, mid: int, to: int, lastack: int, mark: int, iss: int, stream: seq<Octet>)
    returns (base': int, mid': int)
    requires Run(unacked, base, mid, lastack, iss, stream) && Run(unsent, mid, to, lastack, iss, stream)
    requires base <= lastack < mark <= to
    requires Dropped(unacked, ra, mark) && Dropped(unsent, rs, mark)
    ensures Run(ra, base', mid', mark, iss, stream) && Run(rs, mid', to, mark, iss, stream)
    ensures base <= base' <= mark && (mid' == mid || mid' <= mark)
    ensures rs != unsent ==> ra == []
  {
    var d, e := |unacked| - |ra|, |unsent| - |rs|;
    RunBound(unacked, base, mid, lastack, iss, stream);
    RunBound(unsent, mid, to, lastack, iss, stream);
    base' := if d == 0 then base else End(unacked[d - 1]);
    mid' := if e == 0 then mid else End(unsent[e - 1]);
    RunSuffix(unacked, d, base, mid, lastack, iss, stream);
    RunSuffix(unsent, e, mid, to, lastack, iss, stream);
    if e > 0 {
      assert unsent[0] in unsent && End(unsent[0]) <= mark;
      base' := mid';
    }
    RunRaise(ra, base', mid', lastack, mark, iss, stream);
    RunRaise(rs, mid', to, lastack, mark, iss, stream);
  }
}
