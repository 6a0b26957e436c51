/** The sending half of a TCP control block: segmentation, coalescing, transmission,
    retransmission time-out and acknowledgement.

    Sequence numbers are kept unbounded; every decision the code takes on them is taken
    on their 32-bit truncations, as the C code does. */
module TcpSend {
  import opened MachineWords
  import opened Slices
  import opened TcpSegments
  import opened TcpTypes

  const SND_QUEUELEN: nat := 8
  const SND_BUF: uint16 := 256

  datatype Err = ErrOk | ErrMem | ErrConn

  /** The test that admits an acknowledgement of new data, for the number `gap` past the mark: it admits
      exactly the numbers up to the highest sent, and, when nothing is outstanding, the number half a turn away. */
  lemma AckGuardExact(lastack: int, sndMax: int, gap: uint32)
    requires 0 <= sndMax - lastack < HALF
    ensures SeqLt(Wrap(lastack), Wrap(lastack + gap)) && SeqLeq(Wrap(lastack + gap), Wrap(sndMax))
            <==> 0 < gap <= sndMax - lastack || (sndMax == lastack && gap == HALF)
  {
    hide Wrap, Signed;
    WrapDifference(lastack, lastack + gap);
    WrapDifference(lastack + gap, sndMax);
    SignedWrap(0 - gap);
    SignedWrap(gap - (sndMax - lastack));
  }

  /** Buffer space plus unacknowledged numbers add up to `total`, in 16-bit arithmetic. */
  predicate Balanced(sndBuf: uint16, sndLbb: int, lastack: int, total: uint16) {
    Wrap16(sndBuf + sndLbb - lastack) == total
  }

  /** An acknowledgement leaves the sum unchanged, although the number it adds is truncated to 16 bits. */
  lemma AckBalances(sndBuf: uint16, sndLbb: int, lastack: int, gap: uint32, total: uint16)
    ensures Wrap16(sndBuf + Wrap16(gap)) == Wrap16(sndBuf + gap)
    ensures Balanced(Wrap16(sndBuf + Wrap16(gap)), sndLbb, lastack + gap, total) <==> Balanced(sndBuf, sndLbb, lastack, total)
  {
    Wrap16Sum(gap, sndBuf);
    Wrap16Sum(sndBuf + gap, sndLbb - lastack - gap);
  }

  /** A write leaves the sum unchanged. */
  lemma WriteBalances(sndBuf: uint16, sndLbb: int, lastack: int, len: nat, total: uint16)
    ensures Balanced(Wrap16(sndBuf - len), sndLbb + len, lastack, total) <==> Balanced(sndBuf, sndLbb, lastack, total)
  {
    Wrap16Sum(sndBuf - len, sndLbb + len - lastack);
  }

  /** The answered SYN moves the mark and returns nothing: the sum goes down by one. */
  lemma AnswerBalances(sndBuf: uint16, sndLbb: int, lastack: int, total: uint16)
    ensures Balanced(sndBuf, sndLbb, lastack + 1, Wrap16(total - 1)) <==> Balanced(sndBuf, sndLbb, lastack, total)
  {
  }

  /** The sending half of a control block together with its history: every octet ever written (`stream`, whose first
      number is `iss`), where the two lists start (`base`, `mid`), the buffers of empty segments that were sent and freed
      without being uncounted (`leaked`), and what buffer space and unacknowledged numbers add up to (`total`). */
  datatype SendState = SendState(unacked: seq<Segment>, unsent: seq<Segment>, lastack: int, sndMax: int, sndLbb: int,
                                 sndBuf: uint16, queuelen: nat, iss: int, stream: seq<Octet>, base: int, mid: int, leaked: nat,
                                 total: uint16)

  ghost predicate Inv(s: SendState) {
    && s.iss <= s.base <= s.lastack <= s.sndMax <= s.sndLbb == s.iss + |s.stream|
    && Run(s.unacked, s.base, s.mid, s.lastack, s.iss, s.stream)
    && Run(s.unsent, s.mid, s.sndLbb, s.lastack, s.iss, s.stream)
    && s.base <= s.mid <= s.sndMax && NoEmpty(s.unacked)
    && s.queuelen == Pbufs(s.unacked) + Pbufs(s.unsent) + s.leaked
    && s.queuelen <= SND_QUEUELEN
    && Balanced(s.sndBuf, s.sndLbb, s.lastack, s.total)
  }

  /** The two lists are one ordered run that carries exactly what was written from `base` on. */
  lemma OneRun(s: SendState)
    requires Inv(s)
    ensures Run(s.unacked + s.unsent, s.base, s.sndLbb, s.lastack, s.iss, s.stream)
    ensures Carried(s.unacked + s.unsent) == s.stream[s.base - s.iss..]
  {
    RunConcat(s.unacked, s.unsent, s.base, s.mid, s.sndLbb, s.lastack, s.iss, s.stream);
    RunCarries(s.unacked + s.unsent, s.base, s.sndLbb, s.lastack, s.iss, s.stream);
  }

  /** The queue spans far less than half the number space, so serial comparison is exact on it. */
  lemma Span(s: SendState)
    requires Inv(s)
    ensures s.mid <= s.sndLbb && s.sndLbb - s.base < HALF
  {
    hide Run, Balanced;
    RunBound(s.unacked, s.base, s.mid, s.lastack, s.iss, s.stream);
    RunBound(s.unsent, s.mid, s.sndLbb, s.lastack, s.iss, s.stream);
  }

  /** Queueing a freshly cut queue keeps the invariant. */
  lemma WriteInv(s: SendState, queue: seq<Segment>, mss: uint16, added: seq<Octet>)
    requires Inv(s)
    requires queue != [] && Run(queue, s.sndLbb, s.sndLbb + |added|, s.lastack, s.iss, s.stream + added)
    requires s.queuelen + Pbufs(queue) <= SND_QUEUELEN
    ensures Inv(s.(unsent := Joined(s.unsent, queue, mss), sndLbb := s.sndLbb + |added|, sndBuf := Wrap16(s.sndBuf - |added|),
                   queuelen := s.queuelen + Pbufs(queue), stream := s.stream + added))
  {
    hide Run, Joined, Pbufs, Wrap16, Balanced;
    RunGrows(s.unacked, s.base, s.mid, s.lastack, s.iss, s.stream, added);
    RunGrows(s.unsent, s.mid, s.sndLbb, s.lastack, s.iss, s.stream, added);
    JoinedIsRun(s.unsent, queue, mss, s.mid, s.sndLbb, s.sndLbb + |added|, s.lastack, s.iss, s.stream + added);
    WriteBalances(s.sndBuf, s.sndLbb, s.lastack, |added|, s.total);
  }

  function AfterSend(s: SendState, state: TcpState): SendState
    requires s.unsent != []
  {
    var seg := Stamped(s.unsent[0], state);
    var t := s.(unsent := s.unsent[1..], mid := End(seg), sndMax := if s.sndMax < End(seg) then End(seg) else s.sndMax);
    if TcpLen(seg) > 0 then t.(unacked := s.unacked + [seg]) else t.(leaked := s.leaked + seg.pbufs)
  }

  /** Transmitting the first unsent segment keeps the invariant. */
  lemma SendInv(s: SendState, state: TcpState)
    requires Inv(s) && s.unsent != []
    ensures Inv(AfterSend(s, state))
    ensures s.mid <= End(s.unsent[0]) <= s.sndLbb
  {
    hide Run, Pbufs, Balanced;
    SendKeepsRun(s.unacked, s.unsent, s.base, s.mid, s.sndLbb, s.lastack, s.iss, s.stream, state);
  }

  /** Sending leaves the count of queued buffers right exactly when the segment is not empty; an empty one stays counted. */
  lemma SendLeaks(s: SendState, state: TcpState)
    requires Inv(s) && s.unsent != []
    ensures var r := AfterSend(s, state);
      && (r.queuelen - Pbufs(r.unacked) - Pbufs(r.unsent) == s.queuelen - Pbufs(s.unacked) - Pbufs(s.unsent)
          <==> TcpLen(s.unsent[0]) > 0)
      && (r.leaked == s.leaked <==> TcpLen(s.unsent[0]) > 0)
  {
    hide Run, Pbufs, Balanced;
    SendInv(s, state);
    assert s.unsent[0].pbufs >= 1 by { FirstWellFormed(s); }
  }

  lemma FirstWellFormed(s: SendState)
    requires Inv(s) && s.unsent != []
    ensures WellFormed(s.unsent[0])
  {
    assert s.unsent[0] in s.unsent;
  }

  lemma SendNear(s: SendState, state: TcpState)
    requires Inv(s) && s.unsent != []
    ensures -HALF <= s.sndMax - End(s.unsent[0]) < HALF && s.unsent[0].pbufs > 0
    ensures End(Stamped(s.unsent[0], state)) == End(s.unsent[0]) && Stamped(s.unsent[0], state).pbufs > 0
  {
    FirstWellFormed(s);
    Span(s);
    SendInv(s, state);
  }

  /** Nothing has been written yet. */
  function Fresh(at: int, sndBuf: uint16): SendState {
    SendState([], [], at, at, at, sndBuf, 0, at, [], at, at, 0, sndBuf)
  }

  /** The same, with the highest number sent left from an earlier numbering. */
  function Renumbered(at: int, sndMax: int, sndBuf: uint16): SendState {
    SendState([], [], at, sndMax, at, sndBuf, 0, at, [], at, at, 0, sndBuf)
  }

  lemma FreshInv(at: int, sndBuf: uint16)
    ensures Inv(Fresh(at, sndBuf))
  {
    EmptyRun(at, at, at, at, []);
    hide Run;
  }

  /** The leak: an empty segment without SYN or FIN, queued on an empty list at any number, is sent; nothing is queued any
      more, and its buffers are still counted. */
  lemma LeakExample(at: int, mss: uint16, flags: Flags, pb: nat, state: TcpState)
    requires !Occupies(flags) && 1 <= pb <= SND_QUEUELEN
    ensures Joined([], Cut([], at, mss, flags, pb), mss) == [Segment(at, [], flags, pb)]
    ensures var s := Fresh(at, SND_BUF).(unsent := [Segment(at, [], flags, pb)], queuelen := pb);
      var r := AfterSend(s, state);
      Inv(s) && Inv(r) && r.unacked == r.unsent == [] && r.queuelen == pb
  {
    hide Run, Pbufs, Balanced, Cut, Joined, Inv;
    EmptyQueued(at, mss, flags, pb);
    EmptyInv(at, flags, pb);
    var s := Fresh(at, SND_BUF).(unsent := [Segment(at, [], flags, pb)], queuelen := pb);
    SendInv(s, state);
  }

  lemma EmptyQueued(at: int, mss: uint16, flags: Flags, pb: nat)
    ensures Joined([], Cut([], at, mss, flags, pb), mss) == [Segment(at, [], flags, pb)]
  {
    var seg := Segment(at, [], flags, pb);
    assert Cut([], at, mss, flags, pb) == [seg];
    assert Joined([], [seg], mss) == [] + [seg];
  }

  lemma EmptyInv(at: int, flags: Flags, pb: nat)
    requires !Occupies(flags) && 1 <= pb <= SND_QUEUELEN
    ensures Inv(Fresh(at, SND_BUF).(unsent := [Segment(at, [], flags, pb)], queuelen := pb))
  {
    var seg := Segment(at, [], flags, pb);
    FreshInv(at, SND_BUF);
    PbufsAppend([], seg);
    RunOne(seg, at, at, []);
    hide Run, Pbufs, Balanced;
    assert [] + [seg] == [seg];
  }

  /** Whatever leaves carries the octets written at its numbers. */
  lemma SendsFaithfully(s: SendState, state: TcpState)
    requires Inv(s)
    ensures forall i | 0 <= i < |s.unsent| :: Faithful(Stamped(s.unsent[i], state), s.iss, s.stream)
  {
    forall i | 0 <= i < |s.unsent|
      ensures Faithful(Stamped(s.unsent[i], state), s.iss, s.stream)
    {
      assert s.unsent[i] in s.unsent;
    }
  }

  function AfterExpire(s: SendState): SendState
    requires s.unacked != []
  {
    s.(unacked := s.unacked[..1], unsent := s.unacked[1..] + s.unsent, mid := End(s.unacked[0]))
  }

  /** A retransmission time-out keeps the invariant. */
  lemma ExpireInv(s: SendState)
    requires Inv(s) && s.unacked != []
    ensures Inv(AfterExpire(s))
  {
    hide Run, Pbufs, Balanced;
    ExpireKeepsRun(s.unacked, s.unsent, s.base, s.mid, s.sndLbb, s.lastack, s.iss, s.stream);
  }

  function StartOf(q: seq<Segment>, otherwise: int): int {
    if q == [] then otherwise else q[0].seqno
  }

  /** The state once `gap` more numbers are acknowledged and `ra`, `rs` remain of the two lists. */
  function AfterAck(s: SendState, ra: seq<Segment>, rs: seq<Segment>, gap: uint32): SendState {
    s.(unacked := ra, unsent := rs, lastack := s.lastack + gap, sndBuf := Wrap16(s.sndBuf + Wrap16(gap)),
       queuelen := Pbufs(ra) + Pbufs(rs) + s.leaked,
       base := StartOf(ra, StartOf(rs, s.sndLbb)), mid := StartOf(rs, s.sndLbb))
  }

  lemma PbufsShrink(q: seq<Segment>, rest: seq<Segment>, ackno: uint32)
    requires SerialDropped(q, rest, ackno)
    ensures Pbufs(rest) <= Pbufs(q) && (NoEmpty(q) ==> NoEmpty(rest))
  {
    PbufsSplit(q, |q| - |rest|);
  }

  lemma GapWord(lastack: int, ackno: uint32)
    ensures Wrap(lastack + Wrap(ackno - Wrap(lastack))) == ackno
  {
    hide Wrap;
    WrapDifference(ackno, lastack);
    WrapDifference(ackno - lastack, lastack);
    WrapSmall(ackno);
  }

  /** An admitted acknowledgement other than the half turn leaves one run past the new mark. */
  lemma AckEffect(unacked: seq<Segment>, unsent: seq<Segment>, ra: seq<Segment>, rs: seq<Segment>, base: int, mid: int,
                  to: int, lastack: int, sndMax: int, ackno: uint32, iss: int, stream: seq<Octet>)
    returns (base': int, mid': int)
    requires Run(unacked, base, mid, lastack, iss, stream) && Run(unsent, mid, to, lastack, iss, stream)
    requires base <= lastack <= sndMax <= to && base <= mid <= sndMax && to - base < HALF
    requires SeqLt(Wrap(lastack), ackno) && SeqLeq(ackno, Wrap(sndMax))
    requires SerialDropped(unacked, ra, ackno) && SerialDropped(unsent, rs, ackno)
    requires !IsHalfTurn(lastack, sndMax, ackno)
    ensures var mark := lastack + Wrap(ackno - Wrap(lastack));
            && Run(ra, base', mid', mark, iss, stream) && Run(rs, mid', to, mark, iss, stream)
            && base <= base' <= mid' <= sndMax && base' <= mark <= sndMax
            && Dropped(unacked, ra, mark) && Dropped(unsent, rs, mark)
    ensures rs != unsent ==> ra == []
  {
    hide SeqLeq, SeqLt, Wrap, SerialDropped, Dropped, Linked;
    var mark := lastack + Wrap(ackno - Wrap(lastack));
    GapWord(lastack, ackno);
    AckGuardExact(lastack, sndMax, Wrap(ackno - Wrap(lastack)));
    RunBound(unacked, base, mid, lastack, iss, stream);
    RunBound(unsent, mid, to, lastack, iss, stream);
    DropAckedMeans(unacked, ra, mark, ackno);
    DropAckedMeans(unsent, rs, mark, ackno);
    base', mid' := AckKeepsRun(unacked, unsent, ra, rs, base, mid, to, lastack, mark, iss, stream);
    RunBound(ra, base', mid', mark, iss, stream);
  }

  /** A number that would put the mark past everything sent. */
  predicate IsHalfTurn(lastack: int, sndMax: int, ackno: uint32) {
    sndMax == lastack && Wrap(ackno - Wrap(lastack)) == HALF
  }

  lemma AckCases(s: SendState, ackno: uint32)
    requires Inv(s)
    ensures var gap := Wrap(ackno - Wrap(s.lastack));
            && (gap == 0 <==> Wrap(s.lastack) == ackno)
            && (SeqLt(Wrap(s.lastack), ackno) && SeqLeq(ackno, Wrap(s.sndMax))
                <==> 0 < gap <= s.sndMax - s.lastack || IsHalfTurn(s.lastack, s.sndMax, ackno))
            && (IsHalfTurn(s.lastack, s.sndMax, ackno) ==> gap == HALF && s.sndMax == s.lastack)
  {
    hide SeqLt, SeqLeq;
    Span(s);
    GapWord(s.lastack, ackno);
    AckGuardExact(s.lastack, s.sndMax, Wrap(ackno - Wrap(s.lastack)));
  }

  /** An admitted acknowledgement keeps the invariant unless it is the half turn, and then it breaks it. */
  lemma AckInv(s: SendState, ra: seq<Segment>, rs: seq<Segment>, ackno: uint32)
    requires Inv(s)
    requires SeqLt(Wrap(s.lastack), ackno) && SeqLeq(ackno, Wrap(s.sndMax))
    requires SerialDropped(s.unacked, ra, ackno) && SerialDropped(s.unsent, rs, ackno)
    ensures var gap := Wrap(ackno - Wrap(s.lastack));
            && (Inv(AfterAck(s, ra, rs, gap)) <==> !IsHalfTurn(s.lastack, s.sndMax, ackno))
            && (Inv(AfterAck(s, ra, rs, gap)) ==>
                  && Dropped(s.unacked, ra, s.lastack + gap) && Dropped(s.unsent, rs, s.lastack + gap)
                  && (rs != s.unsent ==> ra == [])
                  && s.base <= AfterAck(s, ra, rs, gap).base)
  {
    hide Pbufs, Balanced, SerialDropped, Dropped, Wrap, Wrap16, SeqLt, SeqLeq;
    var gap := Wrap(ackno - Wrap(s.lastack));
    Span(s);
    AckBalances(s.sndBuf, s.sndLbb, s.lastack, gap, s.total);
    PbufsShrink(s.unacked, ra, ackno);
    PbufsShrink(s.unsent, rs, ackno);
    if !IsHalfTurn(s.lastack, s.sndMax, ackno) {
      var b, m := AckEffect(s.unacked, s.unsent, ra, rs, s.base, s.mid, s.sndLbb, s.lastack, s.sndMax, ackno, s.iss, s.stream);
    }
  }

  /** The half turn: on a connection with nothing outstanding, the number half a turn away passes the test for new data, and
      the mark moves past everything ever written. */
  lemma HalfTurnExample(at: int, sndBuf: uint16)
    ensures var s, ackno := Fresh(at, sndBuf), Wrap(at + HALF);
      && Inv(s) && SeqLt(Wrap(s.lastack), ackno) && SeqLeq(ackno, Wrap(s.sndMax))
      && AfterAck(s, [], [], HALF).lastack == s.sndLbb + HALF && !Inv(AfterAck(s, [], [], HALF))
  {
    FreshInv(at, sndBuf);
    AckGuardExact(at, at, HALF);
  }

  /** Where sending resumes: at the new first unsent segment; when the drop empties the list,
      at the last dropped one if it had a predecessor. */
  function NextAfterDrop(q: seq<Segment>, rest: seq<Segment>, nxt: int): int {
    if |rest| >= |q| then nxt
    else if rest != [] then rest[0].seqno
    else if |q| >= 2 then q[|q| - 1].seqno
    else nxt
  }

  /** `snd_nxt` still names the first unsent number after an acknowledgement, unless that covers all of a list that was not
      empty: then it stays behind, at the last segment dropped. */
  lemma NextExact(q: seq<Segment>, rest: seq<Segment>, nxt: int, to: int, mark: int, mark': int, iss: int, stream: seq<Octet>)
    requires Run(q, nxt, to, mark, iss, stream) && Dropped(q, rest, mark')
    ensures var covered := q != [] && rest == [] && TcpLen(q[|q| - 1]) > 0;
            && (NextAfterDrop(q, rest, nxt) == StartOf(rest, to) <==> !covered)
            && (covered ==> NextAfterDrop(q, rest, nxt) == q[|q| - 1].seqno < to)
  {
  }

  lemma Counted(s: SendState)
    requires Inv(s)
    ensures s.queuelen == Pbufs(s.unacked) + Pbufs(s.unsent) + s.leaked <= SND_QUEUELEN
  {
  }

  datatype Event =
    | Wrote(data: seq<byte>, copy: bool, room: nat)
    | Controls(flags: Flags, opts: bool, room: nat)
    | Sends(wnd: uint32)
    | Expires(wnd: uint32)
    | Acked(ackno: uint32, wnd: uint32)
    | Moves(to: TcpState)
    | Negotiates(offer: uint16)

  const TCP_MSS: uint16 := 128

  /** The first segment queued is a SYN, held in one buffer. */
  predicate SynFirst(q: seq<Segment>) {
    q != [] && q[0].flags.syn && q[0].pbufs == 1
  }

  /** The segment, unless it reaches past the window. */
  function Again(s: Segment, lastack: int, wnd: uint32): seq<Segment> {
    if s.seqno + |s.data| - lastack <= wnd then [s] else []
  }

  lemma RexmitMeans(s: SendState, wnd: uint32)
    requires Inv(s) && s.unacked != []
    ensures var x := s.unacked[0];
      && Faithful(x, s.iss, s.stream) && x.seqno <= s.lastack < End(x) <= s.sndMax
      && (InWindow(x, s.lastack, wnd) <==> x.seqno + |x.data| - s.lastack <= wnd)
  {
    var x := s.unacked[0];
    assert x in s.unacked;
    Span(s);
    RunBound(s.unacked, s.base, s.mid, s.lastack, s.iss, s.stream);
    InWindowMeans(x, s.lastack, wnd);
  }

  /** The state once the answer to the SYN has taken the first unacknowledged segment off. */
  function AfterAnswer(s: SendState): SendState
    requires s.unacked != []
  {
    s.(unacked := s.unacked[1..], lastack := s.unacked[0].seqno + 1, queuelen := Abs(s.queuelen - 1),
       base := s.unacked[0].seqno + TcpLen(s.unacked[0]), leaked := Abs(s.leaked + s.unacked[0].pbufs - 1),
       total := Wrap16(s.total - 1))
  }

  function Abs(x: int): nat {
    if x < 0 then 0 else x
  }

  /** The answer to the SYN keeps the invariant exactly when the segment it takes off has one number, as a SYN has. */
  lemma AnswerInv(s: SendState)
    requires Inv(s) && s.unacked != []
    ensures s.queuelen > 0 && s.unacked[0].pbufs > 0
    ensures Inv(AfterAnswer(s)) <==> TcpLen(s.unacked[0]) == 1
  {
    hide Run, Pbufs, Balanced, Wrap16;
    AnswerRuns(s);
    AnswerBalances(s.sndBuf, s.sndLbb, s.lastack, s.total);
  }

  lemma AnswerRuns(s: SendState)
    requires Inv(s) && s.unacked != []
    ensures var first, rest := s.unacked[0], s.unacked[1..];
      && s.base == first.seqno && first.pbufs > 0 && TcpLen(first) > 0 && End(first) <= s.mid
      && Pbufs(s.unacked) == first.pbufs + Pbufs(rest) && NoEmpty(rest)
      && (TcpLen(first) == 1 ==> s.lastack == s.base)
      && (TcpLen(first) == 1 ==>
            && Run(rest, End(first), s.mid, End(first), s.iss, s.stream)
            && Run(s.unsent, s.mid, s.sndLbb, End(first), s.iss, s.stream))
  {
    var first, rest := s.unacked[0], s.unacked[1..];
    assert first in s.unacked && forall x | x in rest :: x in s.unacked;
    RunTail(s.unacked, s.base, s.mid, s.lastack, s.iss, s.stream);
    RunBound(rest, End(first), s.mid, s.lastack, s.iss, s.stream);
    if TcpLen(first) == 1 {
      RunPast(rest, End(first), s.mid, s.lastack, End(first), s.iss, s.stream);
      RunPast(s.unsent, s.mid, s.sndLbb, s.lastack, End(first), s.iss, s.stream);
    }
  }

  /** The number nearest to `near` that `w` stands for, as a comparison with `near` sees it. */
  function Numbered(near: int, w: uint32): int {
    near - Signed(Wrap(Wrap(near) - w))
  }

  lemma NumberedIs(near: int, w: uint32)
    ensures Wrap(Numbered(near, w)) == w
    ensures SeqLt(Wrap(near), w) <==> near < Numbered(near, w)
  {
    var d := Wrap(Wrap(near) - w);
    WrapTurn(near - d);
    hide Wrap;
    WrapDifference(near, Wrap(near) - w);
    WrapDifference(near + w, near);
    WrapSmall(w);
  }

  /** The state that a call of tcp_connect leaves, for the initial number `first`. */
  function Connected(first: int, sndMax: int, sndBuf: uint16): SendState {
    Fresh(first - 1, sndBuf).(unacked := [Segment(first - 1, [], Flags(true, false, false, false), 1)], sndMax := sndMax,
                              sndLbb := first, sndBuf := Wrap16(sndBuf - 1), queuelen := 1, stream := [CONTROL], mid := first)
  }

  lemma ConnectedInv(first: int, sndMax: int, sndBuf: uint16)
    ensures Inv(Connected(first, sndMax, sndBuf)) <==> first == sndMax
    ensures Inv(Renumbered(first - 1, sndMax, sndBuf)) <==> first - 1 == sndMax
  {
    var syn := Segment(first - 1, [], Flags(true, false, false, false), 1);
    FreshInv(first - 1, sndBuf);
    RunOne(syn, first - 1, first - 1, [CONTROL]);
    EmptyRun(first, first, first - 1, first - 1, [CONTROL]);
    PbufsAppend([], syn);
    WriteBalances(sndBuf, first - 1, first - 1, 1, sndBuf);
    assert [] + [syn] == [syn];
    hide Run, Pbufs, Balanced, Wrap16;
  }

  lemma QueuedNoEmpty(unsent: seq<Segment>, data: seq<byte>, seqno: int, mss: uint16, flags: Flags, pb: nat)
    requires mss > 0 || data == []
    ensures NoEmpty(unsent) && (data != [] || Occupies(flags)) ==> NoEmpty(Joined(unsent, Cut(data, seqno, mss, flags, pb), mss))
  {
    hide Joined, Cut;
    if NoEmpty(unsent) && (data != [] || Occupies(flags)) {
      var queue := Cut(data, seqno, mss, flags, pb);
      CutNoEmpty(data, seqno, mss, flags, pb);
      assert queue[0] in queue && forall s | s in queue[1..] :: s in queue;
      JoinedNoEmpty(unsent, queue, mss);
    }
  }

  lemma SentNoEmpty(unsent: seq<Segment>, sent: seq<Segment>, state: TcpState)
    requires |sent| <= |unsent| && forall i | 0 <= i < |sent| :: sent[i] == Stamped(unsent[i], state)
    ensures NoEmpty(unsent) ==> NoEmpty(sent) && NoEmpty(unsent[|sent|..])
  {
    if NoEmpty(unsent) {
      assert forall i | 0 <= i < |sent| :: unsent[i] in unsent && TcpLen(sent[i]) == TcpLen(unsent[i]);
    }
  }

  /** Sending, moving back and dropping make no segment longer. */
  lemma SentFits(unacked: seq<Segment>, unsent: seq<Segment>, sent: seq<Segment>, state: TcpState, n: nat)
    requires |sent| <= |unsent| && forall i | 0 <= i < |sent| :: sent[i] == Stamped(unsent[i], state)
    ensures Fit(unacked, n) && Fit(unsent, n) ==> Fit(unacked + NonEmpty(sent), n) && Fit(unsent[|sent|..], n)
  {
    if Fit(unacked, n) && Fit(unsent, n) {
      assert forall i | 0 <= i < |sent| :: unsent[i] in unsent && sent[i].data == unsent[i].data;
      NonEmptyWithin(sent);
    }
  }

  lemma {:induction false} NonEmptyWithin(q: seq<Segment>)
    ensures forall s | s in NonEmpty(q) :: s in q
  {
    if q != [] {
      NonEmptyWithin(q[1..]);
    }
  }

  lemma MovedFits(a: seq<Segment>, b: seq<Segment>, a': seq<Segment>, b': seq<Segment>, n: nat)
    requires a' + b' == a + b
    ensures Fit(a, n) && Fit(b, n) ==> Fit(a', n) && Fit(b', n)
  {
    assert forall s | s in a' || s in b' :: s in a' + b';
  }

  lemma SuffixFits(q: seq<Segment>, rest: seq<Segment>, mark: int, n: nat)
    requires Dropped(q, rest, mark) || rest == q
    ensures Fit(q, n) ==> Fit(rest, n)
  {
  }

  lemma MidStart(s: SendState)
    requires Inv(s)
    ensures s.mid == StartOf(s.unsent, s.sndLbb)
  {
  }

  lemma QueuedStart(unsent: seq<Segment>, data: seq<byte>, seqno: int, mss: uint16, flags: Flags, pb: nat, to: int)
    requires mss > 0 || data == []
    ensures StartOf(Joined(unsent, Cut(data, seqno, mss, flags, pb), mss), to) == StartOf(unsent, seqno)
  {
    CutHead(data, seqno, mss, flags, pb);
  }

  lemma MovedStart(a: seq<Segment>, b: seq<Segment>, a': seq<Segment>, b': seq<Segment>)
    requires a' + b' == a + b && |a| == |a'|
    ensures b' == b
  {
    assert b' == (a' + b')[|a'|..] && b == (a + b)[|a|..];
  }

  /** The acknowledgement covers all of an unsent list that is not empty. */
  predicate CoversUnsent(q: seq<Segment>, rest: seq<Segment>) {
    q != [] && rest == [] && TcpLen(q[|q| - 1]) > 0
  }

  lemma CoversNot(q: seq<Segment>)
    ensures !CoversUnsent(q, q)
  {
  }

  lemma NextHeard(s: SendState, rest: seq<Segment>, mark: int)
    requires Inv(s) && Dropped(s.unsent, rest, mark)
    ensures NextAfterDrop(s.unsent, rest, StartOf(s.unsent, s.sndLbb)) == StartOf(rest, s.sndLbb) <==> !CoversUnsent(s.unsent, rest)
  {
    NextExact(s.unsent, rest, s.mid, s.sndLbb, s.lastack, mark, s.iss, s.stream);
  }

  lemma InvNoEmpty(s: SendState)
    requires Inv(s)
    ensures NoEmpty(s.unacked)
  {
  }

  lemma MovedNoEmpty(a: seq<Segment>, b: seq<Segment>, a': seq<Segment>, b': seq<Segment>)
    requires a' + b' == a + b && |a'| == if |a| > 1 then 1 else |a|
    ensures NoEmpty(a) && NoEmpty(b) ==> NoEmpty(b')
    ensures a != [] ==> a' != [] && a'[0] == a[0]
  {
    assert forall s | s in b' :: s in a' + b';
    if a != [] {
      assert (a' + b')[0] == (a + b)[0];
    }
  }

  lemma SuffixNoEmpty(q: seq<Segment>, rest: seq<Segment>, mark: int)
    requires Dropped(q, rest, mark) || rest == q
    ensures NoEmpty(q) ==> NoEmpty(rest)
  {
  }

  lemma AnswerStart(s: SendState)
    requires Inv(s) && s.unacked != []
    ensures s.base <= AfterAnswer(s).base
  {
    AnswerRuns(s);
  }

  lemma SynHasOne(s: SendState)
    requires Inv(s)
    ensures SynFirst(s.unacked) ==> s.unacked != [] && TcpLen(s.unacked[0]) == 1
  {
    if s.unacked != [] {
      assert s.unacked[0] in s.unacked;
    }
  }

  lemma Wrap16Same(x: uint16)
    ensures Wrap16(x - 0) == x
  {
  }

  lemma AnswerMark(s: SendState)
    requires Inv(s) && s.unacked != []
    ensures TcpLen(s.unacked[0]) == 1 ==> s.lastack == s.unacked[0].seqno
  {
    AnswerRuns(s);
  }

  /** A connection opened from this side, once its SYN is answered: nothing is outstanding or counted, and one number of the
      buffer space is gone for good. */
  lemma ActivelyOpened(first: int, sndBuf: uint16)
    ensures var s := AfterAnswer(Connected(first, first, sndBuf));
      && Inv(s) && s.unacked == s.unsent == [] && s.lastack == s.sndMax == s.sndLbb == first
      && s.queuelen == s.leaked == 0 && s.sndBuf == s.total == Wrap16(sndBuf - 1)
  {
    hide Inv, Wrap16;
    ConnectedInv(first, first, sndBuf);
    AnswerInv(Connected(first, first, sndBuf));
  }

  class Sender {
    var state: TcpState
    var mss: uint16
    var unacked: seq<Segment>
    var unsent: seq<Segment>
    var lastack: int
    var sndNxt: int
    var sndMax: int
    var sndLbb: int
    var sndBuf: uint16
    var queuelen: nat
    var ackNow: bool
    var dupacks: byte
    var inRecovery: bool

    /** Every octet ever written; the first has number `iss`. */
    ghost var iss: int
    ghost var stream: seq<Octet>
    /** Where the two lists start. */
    ghost var base: int
    ghost var mid: int
    /** Buffers of empty segments that were sent and freed without being uncounted. */
    ghost var leaked: nat
    /** What buffer space and unacknowledged numbers add up to. */
    ghost var total: uint16

    ghost function Now(): SendState
      reads this
    {
      SendState(unacked, unsent, lastack, sndMax, sndLbb, sndBuf, queuelen, iss, stream, base, mid, leaked, total)
    }

    ghost predicate Valid()
      reads this
    {
      Inv(Now())
    }

    constructor (initial: int)
      ensures Valid()
      ensures iss == initial && stream == [] && unacked == [] && unsent == [] && leaked == 0 && total == SND_BUF
      ensures state.Closed? && Sized() && Next() && mss == TCP_MSS && !ackNow
      ensures lastack == sndMax == sndLbb == initial && sndBuf == SND_BUF && queuelen == 0
    {
      state, mss := Closed, TCP_MSS;
      unacked, unsent := [], [];
      lastack, sndNxt, sndMax, sndLbb := initial, initial, initial, initial;
      sndBuf, queuelen := SND_BUF, 0;
      ackNow, dupacks, inRecovery := false, 0, false;
      iss, stream, base, mid, leaked, total := initial, [], initial, initial, 0, SND_BUF;
    }

    /** How many buffers one segment takes: options or a copy need one, static data a second for the header. */
    static function BuffersEach(copy: bool, opts: bool): nat {
      if opts || copy then 1 else 2
    }

    /** The conditions under which a write is taken; `room` is how many segments the allocators can supply. */
    ghost predicate Accepts(data: seq<byte>, flags: Flags, each: nat, room: nat)
      reads this
    {
      && |data| <= sndBuf
      && queuelen < SND_QUEUELEN
      && (mss > 0 || data == [])
      && |Cut(data, sndLbb, mss, flags, each)| <= room
      && queuelen + Pbufs(Cut(data, sndLbb, mss, flags, each)) <= SND_QUEUELEN
    }

    method Build(data: seq<byte>, flags: Flags, each: nat, room: nat)
      returns (ok: bool, queue: seq<Segment>, qlen: nat)
      requires each > 0 && queuelen < SND_QUEUELEN && |data| <= sndBuf
      ensures ok <==> Accepts(data, flags, each, room)
      ensures ok ==> queue == Cut(data, sndLbb, mss, flags, each) && qlen == queuelen + Pbufs(queue)
    {
      hide Cut, Pbufs;
      PbufsAppend([], Segment(0, [], flags, each));
      var left, seqno := data, sndLbb;
      queue, qlen := [], queuelen;
      ghost var cuttable := mss > 0 || data == [];
      ghost var cut := if cuttable then Cut(data, sndLbb, mss, flags, each) else [];
      while queue == [] || left != []
        invariant qlen == queuelen + Pbufs(queue) <= SND_QUEUELEN
        invariant |queue| <= room
        invariant mss == 0 ==> left == data
        invariant cuttable ==> Remaining(cut, queue, left, seqno, mss, flags, each)
        decreases SND_QUEUELEN - qlen
      {
        var seglen := if |left| > mss then mss else |left|;
        var piece := Segment(seqno, left[..seglen], flags, each);
        if cuttable {
          BuildStep(cut, queue, left, seqno, mss, flags, each);
        }
        PbufsAppend(queue, piece);
        if |queue| == room {
          return false, queue, qlen;
        }
        qlen := qlen + each;
        if qlen > SND_QUEUELEN {
          return false, queue, qlen;
        }
        queue := queue + [piece];
        left := left[seglen..];
        seqno := seqno + seglen;
      }
      assert cut == queue + [] == queue;
      ok := true;
    }

    /** Puts a freshly cut queue behind the unsent list, into its last segment where that has room. */
    method Attach(queue: seq<Segment>)
      requires queue != []
      modifies this`unsent
      ensures unsent == Joined(old(unsent), queue, mss)
    {
      var last := |unsent| - 1;
      if last >= 0 && TcpLen(unsent[last]) != 0 && !Flagged(unsent[last]) && !Flagged(queue[0])
         && |unsent[last].data| + |queue[0].data| <= mss
      {
        unsent := unsent[..last] + [Merge(unsent[last], queue[0])] + PushLast(queue[1..]);
      } else {
        unsent := unsent + PushLast(queue);
      }
    }

    /** The part of tcp_enqueue that follows a successful build. */
    method Commit(queue: seq<Segment>, len: nat, qlen: nat, ghost added: seq<Octet>)
      requires Valid()
      requires queue != [] && |added| == len
      requires Run(queue, sndLbb, sndLbb + len, lastack, iss, stream + added)
      requires qlen == queuelen + Pbufs(queue) <= SND_QUEUELEN
      modifies this`unsent, this`sndLbb, this`sndBuf, this`queuelen, this`stream
      ensures Valid()
      ensures unsent == Joined(old(unsent), queue, mss)
      ensures sndLbb == old(sndLbb) + len
      ensures sndBuf == Wrap16(old(sndBuf) - len)
      ensures queuelen == qlen
      ensures stream == old(stream) + added
    {
      hide Inv, Run, Joined, Pbufs, Wrap16;
      WriteInv(Now(), queue, mss, added);
      Attach(queue);
      stream := stream + added;
      sndLbb := sndLbb + len;
      sndBuf := Wrap16(sndBuf - len);
      queuelen := qlen;
    }

    /** tcp_enqueue: all of the write is queued, or nothing changes. */
    method Enqueue(data: seq<byte>, flags: Flags, copy: bool, opts: bool, room: nat) returns (err: Err)
      requires Valid()
      requires |data| < 0x1_0000
      requires Occupies(flags) || opts ==> data == []
      modifies this`unsent, this`sndLbb, this`sndBuf, this`queuelen, this`stream
      ensures Valid()
      ensures err == (if old(Accepts(data, flags, BuffersEach(copy, opts), room)) then ErrOk else ErrMem)
      ensures err.ErrMem? ==> unsent == old(unsent) && sndLbb == old(sndLbb) && sndBuf == old(sndBuf)
                              && queuelen == old(queuelen) && stream == old(stream)
      ensures err.ErrOk? ==>
                var len := |data| + if Occupies(flags) then 1 else 0;
                var queue := Cut(data, old(sndLbb), mss, flags, BuffersEach(copy, opts));
                && unsent == Joined(old(unsent), queue, mss)
                && sndLbb == old(sndLbb) + len
                && sndBuf == Wrap16(old(sndBuf) - len)
                && queuelen == old(queuelen) + Pbufs(queue)
                && stream == old(stream) + data + if Occupies(flags) then [CONTROL] else []
      ensures forall n: nat | mss <= n && old(Fit(unsent, n)) :: Fit(unsent, n)
    {
      hide Run, Joined, Cut, Pbufs, Wrap16, Balanced;
      var each := BuffersEach(copy, opts);
      if |data| > sndBuf {
        return ErrMem;
      }
      if queuelen >= SND_QUEUELEN {
        return ErrMem;
      }
      var ok, queue, qlen := Build(data, flags, each, room);
      if !ok {
        return ErrMem;
      }
      ghost var added: seq<Octet> := data + if Occupies(flags) then [CONTROL] else [];
      var len := |data| + if Occupies(flags) then 1 else 0;
      assert (stream + added)[sndLbb - iss..sndLbb + len - iss] == added;
      CutIsRun(data, sndLbb, mss, flags, each, lastack, iss, stream + added);
      Commit(queue, len, qlen, added);
      forall n: nat | mss <= n
        ensures old(Fit(unsent, n)) ==> Fit(unsent, n)
      {
        QueuedFits(old(unsent), data, old(sndLbb), mss, flags, each, n);
      }
      return ErrOk;
    }

    /** tcp_write */
    method Write(data: seq<byte>, copy: bool, room: nat) returns (err: Err)
      requires Valid()
      requires |data| < 0x1_0000
      modifies this`unsent, this`sndLbb, this`sndBuf, this`queuelen, this`stream
      ensures Valid()
      ensures var open := state.SynSent? || state.SynRcvd? || state.Established? || state.CloseWait?;
              err == if !open then ErrConn
                     else if data == [] || old(Accepts(data, PLAIN, BuffersEach(copy, false), room))
                     then ErrOk else ErrMem
      ensures stream == old(stream) + if err.ErrOk? then data else []
      ensures !err.ErrOk? || data == [] ==> unchanged(`unsent, `sndBuf, `queuelen, `sndLbb)
      ensures err.ErrOk? && data != [] ==> mss > 0
      ensures err.ErrOk? && data != [] ==>
                && sndLbb == old(sndLbb) + |data| && sndBuf == Wrap16(old(sndBuf) - |data|)
                && queuelen == old(queuelen) + Pbufs(Cut(data, old(sndLbb), mss, PLAIN, BuffersEach(copy, false)))
      ensures err.ErrOk? && data != [] ==>
                unsent == Joined(old(unsent), Cut(data, old(sndLbb), mss, PLAIN, BuffersEach(copy, false)), mss)
    {
      if state.SynSent? || state.SynRcvd? || state.Established? || state.CloseWait? {
        if |data| > 0 {
          err := Enqueue(data, PLAIN, copy, false, room);
          return;
        }
        return ErrOk;
      } else {
        return ErrConn;
      }
    }

    /** One round of the loop in tcp_output: the first unsent segment leaves. */
    method SendFirst() returns (sent: Segment)
      requires Valid() && unsent != []
      modifies this`unsent, this`unacked, this`sndNxt, this`sndMax, this`leaked, this`mid
      ensures Valid()
      ensures sent == Stamped(old(unsent)[0], state)
      ensures unsent == old(unsent)[1..]
      ensures unacked == old(unacked) + if TcpLen(sent) > 0 then [sent] else []
      ensures leaked == (old(leaked) + if TcpLen(sent) > 0 then 0 else sent.pbufs) && sent.pbufs > 0
      ensures sndNxt == End(sent) == mid
      ensures sndMax == if old(sndMax) < End(sent) then End(sent) else old(sndMax)
    {
      hide Inv, SeqLt, Wrap, Stamped;
      SendNear(Now(), state);
      SendInv(Now(), state);
      var seg := unsent[0];
      SerialAgrees(sndMax, End(seg));
      unsent := unsent[1..];
      sent := Stamped(seg, state);
      sndNxt := End(sent);
      mid := sndNxt;
      if SeqLt(Wrap(sndMax), Wrap(sndNxt)) {
        sndMax := sndNxt;
      }
      if TcpLen(sent) > 0 {
        unacked := unacked + [sent];
      } else {
        leaked := leaked + sent.pbufs;
      }
    }

    /** The loop of tcp_output: every segment that fits the window leaves, in order. */
    method Flush(wnd: uint32) returns (sent: seq<Segment>)
      requires Valid()
      modifies this`unsent, this`unacked, this`sndNxt, this`sndMax, this`leaked, this`mid
      ensures Valid()
      ensures |sent| <= |old(unsent)| && unsent == old(unsent)[|sent|..]
      ensures forall i | 0 <= i < |sent| :: sent[i] == Stamped(old(unsent)[i], state) && InWindow(sent[i], lastack, wnd)
      ensures unsent != [] ==> !InWindow(unsent[0], lastack, wnd)
      ensures unacked == old(unacked) + NonEmpty(sent)
      ensures leaked == old(leaked) <==> NoEmpty(sent)
      ensures sndNxt == if sent == [] then old(sndNxt) else End(sent[|sent| - 1])
      ensures sent != [] ==> sndNxt == mid
      ensures sndMax == if sent != [] && old(sndMax) < sndNxt then sndNxt else old(sndMax)
    {
      hide Inv, NonEmpty, InWindow, AfterSend, Stamped, End, TcpLen;
      sent := [];
      NonEmptyNone(unacked);
      while unsent != [] && InWindow(unsent[0], lastack, wnd)
        invariant Valid()
        invariant |sent| <= |old(unsent)| && unsent == old(unsent)[|sent|..]
        invariant forall i | 0 <= i < |sent| :: sent[i] == Stamped(old(unsent)[i], state) && InWindow(sent[i], lastack, wnd)
        invariant unacked == old(unacked) + NonEmpty(sent)
        invariant leaked >= old(leaked) && (leaked == old(leaked) <==> NoEmpty(sent))
        invariant sent != [] ==> sndNxt == mid == End(sent[|sent| - 1])
        invariant sent == [] ==> sndNxt == old(sndNxt) && sndMax == old(sndMax)
        invariant sent != [] ==> sndMax == if old(sndMax) < sndNxt then sndNxt else old(sndMax)
        decreases |unsent|
      {
        StampedSame(unsent[0], state, lastack, wnd);
        SendInv(Now(), state);
        var seg := SendFirst();
        NonEmptyAppend(sent, seg);
        sent := sent + [seg];
      }
    }

    /** tcp_output: a waiting acknowledgement goes alone; otherwise the unsent list is flushed. */
    method Output(wnd: uint32) returns (sent: seq<Segment>)
      requires Valid()
      modifies this`unsent, this`unacked, this`sndNxt, this`sndMax, this`leaked, this`mid, this`ackNow
      ensures Valid() && !ackNow
      ensures old(ackNow) ==> sent == []
      ensures if sent == [] then sndNxt == old(sndNxt) else sndNxt == mid == End(sent[|sent| - 1])
      ensures |sent| <= |old(unsent)| && unsent == old(unsent)[|sent|..]
      ensures forall i | 0 <= i < |sent| :: sent[i] == Stamped(old(unsent)[i], state) && InWindow(sent[i], lastack, wnd)
      ensures !old(ackNow) && unsent != [] ==> !InWindow(unsent[0], lastack, wnd)
      ensures forall s | s in sent :: Faithful(s, iss, stream) && (!state.SynSent? ==> s.flags.ack)
      ensures forall i | 0 <= i < |sent| :: sent[i].seqno == old(unsent)[i].seqno && sent[i].data == old(unsent)[i].data
      ensures unacked == old(unacked) + NonEmpty(sent)
      ensures leaked == old(leaked) <==> NoEmpty(sent)
      ensures sndMax == if sent != [] && old(sndMax) < End(sent[|sent| - 1]) then End(sent[|sent| - 1]) else old(sndMax)
    {
      hide Inv, InWindow, NonEmpty, Faithful;
      SendsFaithfully(Now(), state);
      if ackNow {
        ackNow := false;
        sent := [];
        NonEmptyNone(unacked);
      } else {
        sent := Flush(wnd);
      }
    }

    /** tcp_rexmit_seg: what goes out again is the segment that carries the first unacknowledged number, with the octets
        that were written there; it goes unless it reaches past the window. */
    method Rexmit(wnd: uint32) returns (resent: seq<Segment>)
      requires Valid() && unacked != []
      ensures resent == Again(unacked[0], lastack, wnd)
      ensures forall s | s in resent :: Faithful(s, iss, stream) && s.seqno <= lastack < End(s) <= sndMax
    {
      RexmitMeans(Now(), wnd);
      hide Inv, Faithful, InWindow;
      if InWindow(unacked[0], lastack, wnd) {
        return [unacked[0]];
      } else {
        return [];
      }
    }

    /** The retransmission time-out of tcp_slowtmr: all but the first unacknowledged segment go back
        to the front of the unsent list. */
    method Expire(wnd: uint32) returns (resent: seq<Segment>)
      requires Valid()
      modifies this`unsent, this`unacked, this`sndNxt, this`mid
      ensures Valid()
      ensures unacked + unsent == old(unacked + unsent)
      ensures |unacked| == if |old(unacked)| > 1 then 1 else |old(unacked)|
      ensures sndNxt == if |old(unacked)| > 1 then StartOf(unsent, sndLbb) else old(sndNxt)
      ensures resent == if unacked == [] then [] else Again(unacked[0], lastack, wnd)
    {
      hide Inv;
      if unacked == [] {
        return [];
      }
      if |unacked| > 1 {
        ExpireInv(Now());
        assert unacked[..1] + (unacked[1..] + unsent) == unacked + unsent;
        mid := End(unacked[0]);
        unsent := unacked[1..] + unsent;
        unacked := unacked[..1];
        sndNxt := unsent[0].seqno;
      }
      resent := Rexmit(wnd);
    }

    /** The new-data branch of tcp_receive: what the number covers leaves both lists. */
    method AcceptAck(ackno: uint32)
      requires Valid()
      requires SeqLt(Wrap(lastack), ackno) && SeqLeq(ackno, Wrap(sndMax))
      modifies this`unsent, this`unacked, this`sndNxt, this`sndBuf, this`queuelen, this`lastack, this`dupacks,
               this`inRecovery, this`base, this`mid
      ensures Valid() <==> !IsHalfTurn(old(lastack), sndMax, ackno)
      ensures dupacks == 0 && !inRecovery
      ensures lastack == old(lastack) + Wrap(ackno - Wrap(old(lastack)))
      ensures sndBuf == Wrap16(old(sndBuf) + Wrap16(lastack - old(lastack)))
      ensures sndNxt == NextAfterDrop(old(unsent), unsent, old(sndNxt))
      ensures Valid() ==>
                && Dropped(old(unacked), unacked, lastack)
                && Dropped(old(unsent), unsent, lastack)
                && (unsent != old(unsent) ==> unacked == [])
                && old(base) <= base
      ensures mid == StartOf(unsent, sndLbb)
    {
      hide Inv, Pbufs, Dropped, SerialDropped, Wrap, Wrap16, SeqLt, SeqLeq, NextAfterDrop, IsHalfTurn, StartOf;
      var gap := Wrap(ackno - Wrap(lastack));
      Counted(Now());
      var rs, fs := DropAcked(unsent, ackno);
      var ra, fa := DropAcked(unacked, ackno);
      AckInv(Now(), ra, rs, ackno);
      Discard(ra, rs, fa, fs, gap);
    }

    /** What tcp_receive stores when it takes an acknowledgement. */
    method Discard(ra: seq<Segment>, rs: seq<Segment>, fa: nat, fs: nat, gap: uint32)
      requires queuelen == Pbufs(ra) + fa + Pbufs(rs) + fs + leaked
      modifies this`unsent, this`unacked, this`sndNxt, this`sndBuf, this`queuelen, this`lastack, this`dupacks,
               this`inRecovery, this`base, this`mid
      ensures Now() == AfterAck(old(Now()), ra, rs, gap)
      ensures sndNxt == NextAfterDrop(old(unsent), rs, old(sndNxt)) && dupacks == 0 && !inRecovery
    {
      hide Pbufs, Wrap16, NextAfterDrop, StartOf;
      sndNxt := NextAfterDrop(unsent, rs, sndNxt);
      MoveMark(gap);
      Shorten(ra, rs, fa, fs);
      Restart(StartOf(ra, StartOf(rs, sndLbb)), StartOf(rs, sndLbb));
    }

    method MoveMark(gap: uint32)
      modifies `sndBuf, `dupacks, `inRecovery, `lastack
      ensures sndBuf == Wrap16(old(sndBuf) + Wrap16(gap)) && lastack == old(lastack) + gap && dupacks == 0 && !inRecovery
    {
      sndBuf := Wrap16(sndBuf + Wrap16(gap));
      dupacks, inRecovery := 0, false;
      lastack := lastack + gap;
    }

    method Shorten(ra: seq<Segment>, rs: seq<Segment>, fa: nat, fs: nat)
      requires fs + fa <= queuelen
      modifies `unsent, `unacked, `queuelen
      ensures unacked == ra && unsent == rs && queuelen == old(queuelen) - fs - fa
    {
      queuelen := queuelen - fs;
      unsent := rs;
      queuelen := queuelen - fa;
      unacked := ra;
    }

    ghost method Restart(b: int, m: int)
      modifies `base, `mid
      ensures base == b && mid == m
    {
      base, mid := b, m;
    }

    /** The acknowledgement part of tcp_receive, with fast retransmission on the third duplicate. */
    method Ack(ackno: uint32, wnd: uint32) returns (resent: seq<Segment>)
      requires Valid()
      modifies this`unsent, this`unacked, this`sndNxt, this`sndBuf, this`queuelen, this`lastack, this`dupacks,
               this`inRecovery, this`base, this`mid
      ensures Valid() <==> !IsHalfTurn(old(lastack), sndMax, ackno)
      ensures var gap := Wrap(ackno - Wrap(old(lastack)));
              Valid() ==>
                if 0 < gap <= sndMax - old(lastack) then
                  && lastack == old(lastack) + gap
                  && Dropped(old(unacked), unacked, lastack) && Dropped(old(unsent), unsent, lastack)
                  && (unsent != old(unsent) ==> unacked == [])
                  && old(base) <= base
                  && dupacks == 0 && !inRecovery && resent == []
                  && sndNxt == NextAfterDrop(old(unsent), unsent, old(sndNxt)) && mid == StartOf(unsent, sndLbb)
                else
                  && unchanged(`lastack, `unacked, `unsent, `sndBuf, `queuelen, `sndNxt, `base, `mid)
                  && dupacks == (if gap == 0 then (old(dupacks) + 1) % 0x100 else old(dupacks))
                  && var again := gap == 0 && dupacks >= 3 && unacked != [] && !old(inRecovery);
                  && inRecovery == (old(inRecovery) || again)
                  && resent == (if again then Again(unacked[0], lastack, wnd) else [])
    {
      hide Inv, Dropped, InWindow, Wrap, Wrap16, SeqLt, SeqLeq, NextAfterDrop;
      resent := [];
      AckCases(Now(), ackno);
      if Wrap(lastack) == ackno {
        dupacks := (dupacks + 1) % 0x100;
        if dupacks >= 3 && unacked != [] {
          if !inRecovery {
            resent := Rexmit(wnd);
            inRecovery := true;
          }
        }
      } else if SeqLt(Wrap(lastack), ackno) && SeqLeq(ackno, Wrap(sndMax)) {
        AcceptAck(ackno);
      }
    }

    /** tcp_connect on a block fresh from tcp_new: numbering starts anew, and the SYN is queued and sent at once. `snd_max`
        is not reset, so the queues are right exactly when the new initial number is not behind the old one; without
        memory for the SYN, exactly when it is one past it. */
    method Connect(word: uint32, mem: bool) returns (err: Err)
      requires Valid() && state.Closed? && unacked == [] && unsent == [] && queuelen == 0 && !ackNow
      modifies this
      ensures state.SynSent? && err == if mem then ErrOk else ErrMem
      ensures var first := Numbered(old(sndMax), word);
              if mem then
                && Now() == Connected(first, if old(sndMax) < first then first else old(sndMax), old(sndBuf))
                && (Valid() <==> old(sndMax) <= first) && SynFirst(unacked) && sndNxt == first
              else
                && Now() == Renumbered(first - 1, old(sndMax), old(sndBuf))
                && (Valid() <==> old(sndMax) == first - 1)
    {
      hide Inv, SeqLt, Numbered, Wrap, Wrap16, Connected;
      ghost var first := Numbered(sndMax, word);
      NumberedIs(sndMax, word);
      ConnectedInv(first, if sndMax < first then first else sndMax, sndBuf);
      ConnectedInv(first, sndMax, sndBuf);
      Renumber(Numbered(sndMax, word));
      if !mem {
        return ErrMem;
      }
      SendSyn();
      return ErrOk;
    }

    method Renumber(first: int)
      requires unacked == [] && unsent == [] && queuelen == 0
      modifies `sndNxt, `lastack, `sndLbb, `mss, `state, `iss, `stream, `base, `mid, `leaked, `total
      ensures state.SynSent? && sndNxt == first
      ensures Now() == Renumbered(first - 1, old(sndMax), old(sndBuf))
    {
      hide Inv, SeqLt, Wrap, Wrap16, Run, Pbufs, NoEmpty, Balanced;
      sndNxt := first;
      lastack, sndLbb := first - 1, first - 1;
      mss, state := TCP_MSS, SynSent;
      Forget(first - 1);
    }

    /** Nothing has been written, and the numbers start at `at`. */
    ghost method Forget(at: int)
      modifies `iss, `stream, `base, `mid, `leaked, `total
      ensures iss == base == mid == at && stream == [] && leaked == 0 && total == sndBuf
    {
      iss, stream, base, mid, leaked, total := at, [], at, at, 0, sndBuf;
    }

    /** The SYN is queued, leaves at once and waits to be acknowledged. */
    method SendSyn()
      requires state.SynSent? && Now() == Renumbered(sndNxt - 1, sndMax, sndBuf)
      modifies `unacked, `sndLbb, `sndBuf, `queuelen, `stream, `sndNxt, `mid, `sndMax
      ensures sndNxt == old(sndNxt) && SynFirst(unacked)
      ensures Now() == Connected(sndNxt, if SeqLt(Wrap(old(sndMax)), Wrap(sndNxt)) then sndNxt else old(sndMax), old(sndBuf))
    {
      hide Inv, SeqLt, Wrap, Wrap16, Run, Pbufs, NoEmpty, Balanced;
      QueueSyn();
      sndNxt := sndLbb;
      if SeqLt(Wrap(sndMax), Wrap(sndNxt)) {
        sndMax := sndNxt;
      }
    }

    method QueueSyn()
      modifies `unacked, `sndLbb, `sndBuf, `queuelen, `stream, `mid
      ensures unacked == [Segment(old(sndLbb), [], Flags(true, false, false, false), 1)]
      ensures sndLbb == mid == old(sndLbb) + 1 && sndBuf == Wrap16(old(sndBuf) - 1) && queuelen == 1 && stream == [CONTROL]
    {
      unacked := [Segment(sndLbb, [], Flags(true, false, false, false), 1)];
      sndLbb, sndBuf, queuelen := sndLbb + 1, Wrap16(sndBuf - 1), 1;
      NoteSyn();
    }

    ghost method NoteSyn()
      modifies `stream, `mid
      ensures stream == [CONTROL] && mid == sndLbb
    {
      stream, mid := [CONTROL], sndLbb;
    }

    /** The SYN-SENT case of tcp_process, for an arriving SYN and ACK: the first unacknowledged segment goes and the mark
        moves past its first number, but the number is not returned to `snd_buf`. */
    method Answer(ackno: uint32) returns (taken: bool)
      requires Valid() && state.SynSent? && unacked != []
      modifies this`unacked, this`lastack, this`queuelen, this`state, this`base, this`leaked, this`total
      ensures taken <==> ackno == Wrap(old(unacked)[0].seqno + 1)
      ensures !taken ==> Now() == old(Now()) && state.SynSent?
      ensures taken ==> Now() == AfterAnswer(old(Now())) && state.Established?
      ensures taken ==> (Valid() <==> TcpLen(old(unacked)[0]) == 1)
      ensures taken && Valid() ==> lastack == old(lastack) + 1 && queuelen == old(queuelen) - 1
                                   && total == Wrap16(old(total) - 1)
                                   && leaked == old(leaked) + old(unacked)[0].pbufs - 1
    {
      hide Inv, TcpLen, Wrap, Wrap16;
      AnswerInv(Now());
      AnswerMark(Now());
      taken := ackno == Wrap(unacked[0].seqno + 1);
      if taken {
        leaked, total := leaked + unacked[0].pbufs - 1, Wrap16(total - 1);
        base := unacked[0].seqno + TcpLen(unacked[0]);
        lastack := unacked[0].seqno + 1;
        state := Established;
        queuelen := queuelen - 1;
        unacked := unacked[1..];
      }
    }

    /** No empty segment is queued, and an unanswered SYN is the first segment sent. */
    ghost predicate Plain()
      reads this
    {
      NoEmpty(unsent) && (state.SynSent? ==> SynFirst(unacked))
    }

    /** No segment is longer than the largest segment size. */
    ghost predicate Sized()
      reads this
    {
      mss <= TCP_MSS && Fit(unacked, TCP_MSS) && Fit(unsent, TCP_MSS)
    }

    /** `snd_nxt` names the first number that is still to be sent. */
    ghost predicate Next()
      reads this
    {
      sndNxt == StartOf(unsent, sndLbb)
    }

    /** Where a run ends early: an acknowledgement half a turn away, or an answer to a SYN that was never sent. */
    ghost predicate Stops(e: Event)
      reads this
    {
      e.Acked? && if state.SynSent? then unacked == [] || (e.ackno == Wrap(unacked[0].seqno + 1) && TcpLen(unacked[0]) != 1)
                  else IsHalfTurn(lastack, sndMax, e.ackno)
    }

    /** An acknowledgement, as the state directs: it is not looked at before the SYN is answered. */
    method Hear(ackno: uint32, wnd: uint32) returns (took: bool)
      requires Valid() && !Stops(Acked(ackno, wnd))
      modifies this
      ensures Valid() && stream == old(stream) && iss == old(iss) && old(base) <= base && old(lastack) <= lastack && mss == old(mss)
      ensures total == (if took then Wrap16(old(total) - 1) else old(total)) && (took ==> old(state).SynSent?)
      ensures state == if took then Established else old(state)
      ensures old(state).SynSent? ==> (took <==> ackno == Wrap(old(unacked)[0].seqno + 1))
      ensures !old(state).SynSent? ==>
                var gap := Wrap(ackno - Wrap(old(lastack)));
                lastack == old(lastack) + if gap <= old(sndMax - lastack) then gap else 0
      ensures old(Plain()) ==> Plain() && leaked == old(leaked)
      ensures old(Sized()) ==> Sized()
      ensures old(Next()) ==> (Next() <==> old(state).SynSent? || !CoversUnsent(old(unsent), unsent))
    {
      hide Inv, Dropped, InWindow, Wrap, Wrap16, NextAfterDrop, Pbufs, IsHalfTurn, NoEmpty, Again, CoversUnsent, StartOf;
      CoversNot(unsent);
      took := false;
      if state.SynSent? {
        AnswerInv(Now());
        AnswerStart(Now());
        took := Answer(ackno);
      } else {
        ghost var s := Now();
        var resent := Ack(ackno, wnd);
        if Dropped(s.unsent, unsent, lastack) {
          NextHeard(s, unsent, lastack);
        }
        SuffixNoEmpty(old(unsent), unsent, lastack);
        SuffixFits(old(unsent), unsent, lastack, TCP_MSS);
        SuffixFits(old(unacked), unacked, lastack, TCP_MSS);
      }
    }

    /** A write or a control segment, as a step of a run. */
    method Submit(e: Event)
      requires Valid() && ((e.Wrote? && |e.data| < 0x1_0000) || e.Controls?)
      modifies this`unsent, this`sndLbb, this`sndBuf, this`queuelen, this`stream
      ensures Valid() && old(stream) <= stream
      ensures old(NoEmpty(unsent)) && (e.Controls? ==> Occupies(e.flags)) ==> NoEmpty(unsent)
      ensures mss <= TCP_MSS && old(Fit(unsent, TCP_MSS)) ==> Fit(unsent, TCP_MSS)
      ensures StartOf(unsent, sndLbb) == old(StartOf(unsent, sndLbb))
    {
      hide Inv, Wrap16, Joined, Cut, Pbufs, NoEmpty, Fit, StartOf;
      match e {
        case Wrote(data, copy, room) =>
          var err := Write(data, copy, room);
          if data != [] && err.ErrOk? {
            QueuedNoEmpty(old(unsent), data, old(sndLbb), mss, PLAIN, BuffersEach(copy, false));
            QueuedStart(old(unsent), data, old(sndLbb), mss, PLAIN, BuffersEach(copy, false), sndLbb);
            if mss <= TCP_MSS {
              QueuedFits(old(unsent), data, old(sndLbb), mss, PLAIN, BuffersEach(copy, false), TCP_MSS);
            }
          }
        case Controls(flags, opts, room) =>
          var err := Enqueue([], flags, true, opts, room);
          if err.ErrOk? {
            QueuedNoEmpty(old(unsent), [], old(sndLbb), mss, flags, BuffersEach(true, opts));
            QueuedStart(old(unsent), [], old(sndLbb), mss, flags, BuffersEach(true, opts), sndLbb);
            if mss <= TCP_MSS {
              QueuedFits(old(unsent), [], old(sndLbb), mss, flags, BuffersEach(true, opts), TCP_MSS);
            }
          }
      }
    }

    /** One event that does not stop the run. */
    method Step(e: Event) returns (took: bool)
      requires Valid() && !Stops(e) && (e.Wrote? ==> |e.data| < 0x1_0000)
      modifies this
      ensures Valid()
      ensures old(stream) <= stream && iss == old(iss) && old(base) <= base && old(lastack) <= lastack
      ensures total == (if took then Wrap16(old(total) - 1) else old(total)) && (took ==> old(state).SynSent?)
      ensures took || !old(state).SynSent? ==> !state.SynSent?
      ensures e.Acked? && old(state).SynSent? ==> (took <==> e.ackno == Wrap(old(unacked)[0].seqno + 1))
      ensures e.Acked? && !old(state).SynSent? ==>
                var gap := Wrap(e.ackno - Wrap(old(lastack)));
                lastack == old(lastack) + if gap <= old(sndMax - lastack) then gap else 0
      ensures e.Moves? && !e.to.SynSent? ==> state == e.to
      ensures mss == if !e.Negotiates? then old(mss) else if e.offer > TCP_MSS then TCP_MSS else e.offer
      ensures e.Negotiates? ==> Now() == old(Now())
      ensures old(Plain()) && (e.Controls? ==> Occupies(e.flags)) ==> Plain() && leaked == old(leaked)
      ensures old(Sized()) ==> Sized()
      ensures old(Next()) ==> (Next() <==> !e.Acked? || old(state).SynSent? || !CoversUnsent(old(unsent), unsent))
    {
      hide Inv, Dropped, InWindow, Wrap, Wrap16, SeqLt, SeqLeq, NextAfterDrop, Joined, Cut, Pbufs, NonEmpty, IsHalfTurn, NoEmpty,
           Coalesces, AfterAnswer, Again, Fit, CoversUnsent, StartOf;
      took := false;
      match e {
        case Wrote(data, copy, room) =>
          Submit(e);
        case Controls(flags, opts, room) =>
          Submit(e);
        case Sends(wnd) =>
          var sent := Output(wnd);
          SentNoEmpty(old(unsent), sent, state);
          SentFits(old(unacked), old(unsent), sent, state, TCP_MSS);
          MidStart(Now());
        case Expires(wnd) =>
          InvNoEmpty(Now());
          var resent := Expire(wnd);
          MovedNoEmpty(old(unacked), old(unsent), unacked, unsent);
          MovedFits(old(unacked), old(unsent), unacked, unsent, TCP_MSS);
          if |unacked| == |old(unacked)| {
            MovedStart(old(unacked), old(unsent), unacked, unsent);
          }
        case Acked(ackno, wnd) =>
          took := Hear(ackno, wnd);
        case Moves(to) =>
          if !to.SynSent? {
            state := to;
          }
        case Negotiates(offer) =>
          mss := if offer > TCP_MSS then TCP_MSS else offer;
      }
    }

    /** Any sequence of writes, control segments, transmissions, time-outs, acknowledgements, changes of state and offers of
        a segment size keeps the invariant, up to an event that stops it. The sum of buffer space and unacknowledged numbers
        changes only when the SYN is answered, by one. When every control segment carries SYN or FIN, no buffer is ever
        leaked. */
    method Perform(events: seq<Event>) returns (done: nat, answered: bool)
      requires Valid()
      requires forall e | e in events && e.Wrote? :: |e.data| < 0x1_0000
      modifies this
      ensures Valid()
      ensures old(stream) <= stream && iss == old(iss) && old(base) <= base && old(lastack) <= lastack
      ensures done <= |events| && (done < |events| ==> Stops(events[done]))
      ensures total == Wrap16(old(total) - if answered then 1 else 0) && (answered ==> old(state).SynSent? && !state.SynSent?)
      ensures old(Plain()) && (forall e | e in events && e.Controls? :: Occupies(e.flags)) ==>
                && Plain() && leaked == old(leaked)
                && (old(leaked) == 0 ==> queuelen == Pbufs(unacked) + Pbufs(unsent))
                && (done < |events| ==> !state.SynSent?)
      ensures old(Sized()) ==> Sized()
    {
      Wrap16Same(total);
      hide Inv, IsHalfTurn, Wrap, Wrap16, TcpLen, NoEmpty, SynFirst, Pbufs, Occupies, Fit;
      done, answered := 0, false;
      ghost var tidy := Plain() && forall e | e in events && e.Controls? :: Occupies(e.flags);
      while done < |events|
        invariant Valid() && done <= |events|
        invariant old(stream) <= stream && iss == old(iss) && old(base) <= base && old(lastack) <= lastack
        invariant total == (if answered then Wrap16(old(total) - 1) else old(total))
        invariant answered ==> old(state).SynSent? && !state.SynSent?
        invariant !old(state).SynSent? ==> !state.SynSent?
        invariant tidy ==> Plain() && leaked == old(leaked)
        invariant old(Sized()) ==> Sized()
      {
        var e := events[done];
        if e.Acked? && (if state.SynSent? then unacked == [] || (e.ackno == Wrap(unacked[0].seqno + 1) && TcpLen(unacked[0]) != 1)
                        else IsHalfTurn(lastack, sndMax, e.ackno)) {
          SynHasOne(Now());
          break;
        }
        var took := Step(e);
        answered := answered || took;
        done := done + 1;
      }
      Counted(Now());
    }
  }

  /** A segment of one number at `n`. */
  predicate OneAt(s: Segment, n: int) {
    s.seqno == n && |s.data| <= 1 && TcpLen(s) == 1
  }

  lemma QueuedOne(unsent: seq<Segment>, data: seq<byte>, seqno: int, flags: Flags)
    requires |data| <= 1 && |data| + (if Occupies(flags) then 1 else 0) == 1 && forall s | s in unsent :: WellFormed(s)
    requires unsent == [] || Occupies(flags)
    ensures var q := Cut(data, seqno, TCP_MSS, flags, 1);
            |q| == 1 && Pbufs(q) == 1
            && var r := Joined(unsent, q, TCP_MSS); |r| == |unsent| + 1 && r[..|unsent|] == unsent && OneAt(r[|unsent|], seqno)
  {
    JoinedExact(unsent, data, seqno, TCP_MSS, flags, 1);
    assert Cut(data, seqno, TCP_MSS, flags, 1) == [Segment(seqno, data, flags, 1)];
  }

  lemma InvWellFormed(s: SendState)
    requires Inv(s)
    ensures forall x | x in s.unsent :: WellFormed(x)
  {
  }

  /** One byte, queued on a new connection. */
  method QueueByte() returns (t: Sender)
    ensures fresh(t) && t.Valid() && t.state.Established? && t.lastack == 0 && t.sndLbb == 1 && t.sndMax == 0 && !t.ackNow
    ensures t.unacked == [] && |t.unsent| == 1 && OneAt(t.unsent[0], 0) && t.queuelen == 1 && t.mss == TCP_MSS
  {
    hide Inv, Wrap16, Cut, Joined, OneAt, Pbufs;
    t := new Sender(0);
    t.state := Established;
    QueuedOne([], [7], 0, PLAIN);
    var err := t.Write([7], true, 1);
  }

  /** And the FIN behind it. */
  method QueueTwo() returns (t: Sender)
    ensures fresh(t) && t.Valid() && t.state.FinWait1? && t.lastack == 0 && t.sndLbb == 2 && t.sndMax == 0 && !t.ackNow
    ensures t.unacked == [] && |t.unsent| == 2 && OneAt(t.unsent[0], 0) && OneAt(t.unsent[1], 1)
  {
    hide Inv, Wrap16, Cut, Joined, OneAt, Pbufs;
    t := QueueByte();
    ghost var q := t.unsent;
    InvWellFormed(t.Now());
    QueuedOne(q, [], 1, FIN);
    var err := t.Enqueue([], FIN, true, false, 1);
    assert t.unsent[0] == t.unsent[..1][0] == q[0];
    t.state := FinWait1;
  }

  lemma OnesFit(q: seq<Segment>, sent: seq<Segment>, state: TcpState)
    requires |q| == 2 && OneAt(q[0], 0) && OneAt(q[1], 1)
    requires |sent| <= 2 && (forall i | 0 <= i < |sent| :: sent[i] == Stamped(q[i], state))
    requires |sent| < 2 ==> !InWindow(q[|sent|], 0, 100)
    ensures |sent| == 2 && NonEmpty(sent) == sent && OneAt(sent[0], 0) && OneAt(sent[1], 1)
  {
    assert InWindow(q[0], 0, 100) && InWindow(q[1], 0, 100);
    assert sent == [sent[0], sent[1]] && sent[1..] == [sent[1]];
    assert NonEmpty(sent[1..]) == [sent[1]];
  }

  /** Both are sent. */
  method SendTwo() returns (t: Sender)
    ensures fresh(t) && t.Valid() && t.state.FinWait1? && t.lastack == 0 && t.sndLbb == 2 && t.sndMax == 2
    ensures t.unsent == [] && |t.unacked| == 2 && OneAt(t.unacked[0], 0) && OneAt(t.unacked[1], 1)
  {
    hide Inv, Stamped, NonEmpty, InWindow, Faithful, OneAt;
    t := QueueTwo();
    ghost var q := t.unsent;
    var sent := t.Output(100);
    assert |sent| < 2 ==> t.unsent[0] == q[|sent|];
    OnesFit(q, sent, t.state);
  }

  /** And time out. */
  method ExpireTwo() returns (t: Sender)
    ensures fresh(t) && t.Valid() && t.state.FinWait1? && t.lastack == 0 && t.sndLbb == 2 && t.sndMax == 2 && t.Next()
    ensures |t.unacked| == 1 && OneAt(t.unacked[0], 0) && |t.unsent| == 1 && OneAt(t.unsent[0], 1)
  {
    hide Inv, OneAt, Again;
    t := SendTwo();
    ghost var q := t.unacked;
    var resent := t.Expire(100);
    assert t.unacked + t.unsent == q;
    assert t.unacked[0] == (t.unacked + t.unsent)[0] && t.unsent[0] == (t.unacked + t.unsent)[1];
  }

  lemma BothCovered(a: seq<Segment>, ra: seq<Segment>, b: seq<Segment>, rb: seq<Segment>)
    requires |a| == 1 && OneAt(a[0], 0) && Dropped(a, ra, 2) && |b| == 1 && OneAt(b[0], 1) && Dropped(b, rb, 2)
    ensures ra == [] && rb == [] && NextAfterDrop(b, rb, 1) == 1
  {
  }

  /** A byte and a FIN are sent, time out, and are then acknowledged together: nothing is outstanding, and `snd_nxt` is still
      the number of the FIN, so the test whether the FIN has been acknowledged fails. */
  method StaleExample() returns (t: Sender)
    ensures fresh(t) && t.Valid() && t.state.FinWait1? && t.unacked == [] && t.unsent == []
    ensures t.lastack == t.sndLbb == 2 && t.sndNxt == 1 && !t.Next()
  {
    hide Inv, Wrap16, Dropped, NextAfterDrop, Again;
    t := ExpireTwo();
    ghost var a, b := t.unacked, t.unsent;
    var resent := t.Ack(2, 100);
    BothCovered(a, t.unacked, b, t.unsent);
  }
}
