/** The three lists of TCP control blocks and the state machine that moves blocks between them
    (sections 3.2 and 3.9 of RFC 793). */
module PcbLists {
  import opened MachineWords
  import opened Slices
  import opened TcpTypes

  const SLOW_INTERVAL: int := 500
  const FIN_WAIT_TIMEOUT: int := 20000
  const SYN_RCVD_TIMEOUT: int := 20000
  const MSL: int := 60000
  const MAXRTX: int := 12
  const SYNMAXRTX: int := 4

  datatype Key = Key(localIp: uint32, localPort: uint16, remoteIp: uint32, remotePort: uint16)

  /** The variables of a block that the list code reads; the data path changes them at will. */
  datatype Vars = Vars(rcvNxt: uint32, rcvWnd: uint16, sndNxt: uint32, lastack: uint32, nrtx: int)

  datatype Pcb = Pcb(state: TcpState, key: Key, tmr: uint16, vars: Vars)

  datatype Seg = Seg(srcIp: uint32, dstIp: uint32, srcPort: uint16, dstPort: uint16, seqno: uint32, ackno: uint32,
                     syn: bool, ack: bool, fin: bool, rst: bool)

  /** The allocated blocks and the three lists. */
  datatype World = World(pcbs: map<int, Pcb>, active: seq<int>, tw: seq<int>, listen: seq<int>)

  predicate IsActive(s: TcpState) {
    !s.Closed? && !s.Listen? && !s.TimeWait?
  }

  /** tcp_pcbs_sane, with what it takes for granted: the lists hold allocated blocks, none twice. */
  ghost predicate Sane(w: World) {
    && NoRepeats(w.active) && NoRepeats(w.tw) && NoRepeats(w.listen)
    && (forall p | p in w.active :: p in w.pcbs && IsActive(w.pcbs[p].state))
    && (forall p | p in w.tw :: p in w.pcbs && w.pcbs[p].state.TimeWait?)
    && (forall p | p in w.listen :: p in w.pcbs && w.pcbs[p].state.Listen?)
  }

  /** Every block that is not CLOSED is on one of the lists. */
  ghost predicate Registered(w: World) {
    forall p | p in w.pcbs && !w.pcbs[p].state.Closed? :: p in w.active || p in w.tw || p in w.listen
  }

  /** A sane block is on at most one list, and its state says which. */
  lemma OneList(w: World, p: int)
    requires Sane(w)
    ensures !(p in w.active && p in w.tw) && !(p in w.active && p in w.listen) && !(p in w.tw && p in w.listen)
    ensures Registered(w) && p in w.pcbs ==>
              && (p in w.active <==> IsActive(w.pcbs[p].state))
              && (p in w.tw <==> w.pcbs[p].state.TimeWait?)
              && (p in w.listen <==> w.pcbs[p].state.Listen?)
  {
  }

  // ---- Lists ----------------------------------------------------------------------------

  /** The list without the first occurrence of `p`. */
  function Without(q: seq<int>, p: int): seq<int> {
    if q == [] then [] else if q[0] == p then q[1..] else [q[0]] + Without(q[1..], p)
  }

  lemma {:induction false} WithoutMeans(q: seq<int>, p: int)
    requires NoRepeats(q)
    ensures NoRepeats(Without(q, p))
    ensures forall x :: x in Without(q, p) <==> x in q && x != p
  {
    if q != [] {
      assert q == [q[0]] + q[1..] && q[0] !in q[1..];
      WithoutMeans(q[1..], p);
    }
  }

  lemma WithoutAt(q: seq<int>, p: int, i: nat)
    requires i < |q| && q[i] == p && p !in q[..i]
    ensures Without(q, p) == q[..i] + q[i + 1..]
  {
    if i > 0 {
      WithoutAt(q[1..], p, i - 1);
      assert q[..i] == [q[0]] + q[1..][..i - 1] && q[i + 1..] == q[1..][i..];
    }
  }

  lemma {:induction false} WithoutAbsent(q: seq<int>, p: int)
    requires p !in q
    ensures Without(q, p) == q
  {
    if q != [] {
      WithoutAbsent(q[1..], p);
    }
  }

  /** TCP_RMV */
  method Rmv(q: seq<int>, p: int) returns (r: seq<int>)
    ensures r == Without(q, p)
  {
    for i := 0 to |q|
      invariant p !in q[..i]
    {
      if q[i] == p {
        WithoutAt(q, p, i);
        return q[..i] + q[i + 1..];
      }
    }
    assert q[..|q|] == q;
    WithoutAbsent(q, p);
    return q;
  }

  predicate Matches(k: Key, s: Seg) {
    k.remotePort == s.srcPort && k.localPort == s.dstPort && k.remoteIp == s.srcIp && k.localIp == s.dstIp
  }

  predicate ListenMatches(k: Key, s: Seg) {
    (k.localIp == 0 || k.localIp == s.dstIp) && k.localPort == s.dstPort
  }

  predicate Hit(pcbs: map<int, Pcb>, p: int, s: Seg, listening: bool) {
    p in pcbs && if listening then ListenMatches(pcbs[p].key, s) else Matches(pcbs[p].key, s)
  }

  /** The connection a segment belongs to, as its receiver names it. */
  function KeyOf(s: Seg): Key {
    Key(s.dstIp, s.dstPort, s.srcIp, s.srcPort)
  }

  /** A block with a peer answers exactly the segments of its connection; a listener those for its port at its own address,
      whatever the peer, or at any address if it has none. */
  lemma Demultiplexes(k: Key, s: Seg)
    ensures Matches(k, s) <==> k == KeyOf(s)
    ensures k.localIp != 0 ==> (ListenMatches(k, s) <==> exists ip, port :: k.(remoteIp := ip, remotePort := port) == KeyOf(s))
    ensures k.localIp == 0 ==>
              (ListenMatches(k, s) <==> exists at, ip, port :: k.(localIp := at, remoteIp := ip, remotePort := port) == KeyOf(s))
  {
    assert k.(localIp := s.dstIp, remoteIp := s.srcIp, remotePort := s.srcPort) == KeyOf(s) <==> k.localPort == s.dstPort;
    if k.localIp == s.dstIp {
      assert k.(localIp := s.dstIp, remoteIp := s.srcIp, remotePort := s.srcPort) == k.(remoteIp := s.srcIp, remotePort := s.srcPort);
    }
  }

  /** A found block moves to the front; all members stay. */
  function Front(q: seq<int>, p: int): seq<int> {
    if p in q then [p] + Without(q, p) else q
  }

  lemma FrontKeeps(q: seq<int>, p: int)
    requires NoRepeats(q)
    ensures NoRepeats(Front(q, p)) && |Front(q, p)| == |q|
    ensures forall x :: x in Front(q, p) <==> x in q
    ensures p in q ==> Front(q, p) == [p] + Without(q, p)
  {
    WithoutMeans(q, p);
    WithoutLen(q, p);
  }

  lemma {:induction false} WithoutLen(q: seq<int>, p: int)
    ensures |Without(q, p)| == |q| - if p in q then 1 else 0
  {
    if q != [] {
      WithoutLen(q[1..], p);
    }
  }

  // ---- Moves that keep the lists sane ------------------------------------------------------

  function Drop(w: World, p: int): World {
    World(w.pcbs - {p}, Without(w.active, p), Without(w.tw, p), Without(w.listen, p))
  }

  lemma DropSane(w: World, p: int)
    requires Sane(w)
    ensures Sane(Drop(w, p)) && (Registered(w) ==> Registered(Drop(w, p)))
  {
    WithoutMeans(w.active, p);
    WithoutMeans(w.tw, p);
    WithoutMeans(w.listen, p);
  }

  lemma UpdateSane(w: World, p: int, b: Pcb)
    requires Sane(w) && p in w.pcbs
    requires b.state == w.pcbs[p].state || (IsActive(w.pcbs[p].state) && IsActive(b.state))
    ensures Sane(w.(pcbs := w.pcbs[p := b]))
    ensures Registered(w) ==> Registered(w.(pcbs := w.pcbs[p := b]))
  {
  }

  function ToTimeWait(w: World, p: int, b: Pcb): World {
    w.(pcbs := w.pcbs[p := b.(state := TimeWait)], active := Without(w.active, p), tw := [p] + w.tw)
  }

  lemma ToTimeWaitSane(w: World, p: int, b: Pcb)
    requires Sane(w) && p in w.active
    ensures Sane(ToTimeWait(w, p, b)) && (Registered(w) ==> Registered(ToTimeWait(w, p, b)))
  {
    WithoutMeans(w.active, p);
  }

  function AddActive(w: World, p: int, b: Pcb): World {
    w.(pcbs := w.pcbs[p := b], active := [p] + w.active)
  }

  lemma AddActiveSane(w: World, p: int, b: Pcb)
    requires Sane(w) && IsActive(b.state) && p !in w.active && p !in w.tw && p !in w.listen
    ensures Sane(AddActive(w, p, b)) && (Registered(w) ==> Registered(AddActive(w, p, b)))
  {
  }

  lemma FrontSane(w: World, p: int)
    requires Sane(w)
    ensures Sane(w.(active := Front(w.active, p))) && Sane(w.(listen := Front(w.listen, p)))
    ensures Registered(w) ==> Registered(w.(active := Front(w.active, p))) && Registered(w.(listen := Front(w.listen, p)))
  {
    FrontKeeps(w.active, p);
    FrontKeeps(w.listen, p);
  }

  // ---- The state machine ------------------------------------------------------------------------

  /** What the rest of the stack contributes to the processing of a segment: the variables after tcp_receive, the number
      of the first unacknowledged segment, the answer of the accept function, and whether an application that has no
      receive function is closed on a FIN with its own FIN queued. */
  datatype Env = Env(vars: Vars, synSeq: uint32, acceptOk: bool, finClose: bool, sendOk: bool)

  datatype Verdict = Stay(state: TcpState) | Reset | Done | Aborted

  predicate RstAcceptable(b: Pcb, s: Seg) {
    if b.state.SynSent? then s.ackno == b.vars.sndNxt
    else SeqGeq(s.seqno, b.vars.rcvNxt) && SeqLeq(s.seqno, Wrap(b.vars.rcvNxt + b.vars.rcvWnd))
  }

  /** tcp_process for a block that is not listening. */
  function Process(b: Pcb, s: Seg, env: Env): Verdict {
    var acked := s.ack && s.ackno == env.vars.sndNxt;
    if s.rst then if RstAcceptable(b, s) then Reset else Stay(b.state)
    else match b.state
      case SynSent => if s.ack && s.syn && s.ackno == Wrap(env.synSeq + 1) then Stay(Established) else Stay(SynSent)
      case SynRcvd =>
        if s.ack && SeqLt(b.vars.lastack, s.ackno) && SeqLeq(s.ackno, b.vars.sndNxt) then
          if env.acceptOk then Stay(Established) else Aborted
        else Stay(SynRcvd)
      case Established => Stay(if s.fin then CloseWait else Established)
      case CloseWait => Stay(CloseWait)
      case FinWait1 => Stay(if s.fin then if acked then TimeWait else Closing else if acked then FinWait2 else FinWait1)
      case FinWait2 => Stay(if s.fin then TimeWait else FinWait2)
      case Closing => Stay(if acked then TimeWait else Closing)
      case LastAck => if acked then Done else Stay(LastAck)
      case _ => Stay(b.state)
  }

  /** tcp_close as a change of state; a block in LISTEN or SYN_SENT is deleted instead. */
  function CloseState(s: TcpState, sendOk: bool): TcpState {
    match s
    case SynRcvd => if sendOk then FinWait1 else SynRcvd
    case Established => if sendOk then FinWait1 else Established
    case CloseWait => if sendOk then LastAck else CloseWait
    case _ => s
  }

  /** The arrows of the connection state diagram, figure 6 in section 3.2 of RFC 793. */
  predicate Edge(s: TcpState, t: TcpState) {
    match s
    case Closed => t.Listen? || t.SynSent?
    case Listen => t.SynRcvd? || t.SynSent? || t.Closed?
    case SynSent => t.SynRcvd? || t.Established? || t.Closed?
    case SynRcvd => t.Established? || t.FinWait1?
    case Established => t.FinWait1? || t.CloseWait?
    case FinWait1 => t.FinWait2? || t.Closing?
    case FinWait2 => t.TimeWait?
    case CloseWait => t.LastAck?
    case Closing => t.TimeWait?
    case LastAck => t.Closed?
    case TimeWait => t.Closed?
  }

  predicate AtMostOne(s: TcpState, t: TcpState) {
    s == t || Edge(s, t)
  }

  predicate Two(s: TcpState, t: TcpState) {
    exists m :: Edge(s, m) && Edge(m, t)
  }

  /** Processing takes at most one arrow, except that FIN_WAIT_1 takes two, over CLOSING to TIME_WAIT, exactly when a segment
      both carries a FIN and acknowledges its own. */
  lemma ProcessEdges(b: Pcb, s: Seg, env: Env)
    ensures var r := Process(b, s, env);
            r.Stay? ==>
              && (AtMostOne(b.state, r.state) || Two(b.state, r.state))
              && (AtMostOne(b.state, r.state) <==>
                    !(b.state.FinWait1? && !s.rst && s.fin && s.ack && s.ackno == env.vars.sndNxt))
    ensures Process(b, s, env).Done? ==> b.state.LastAck? && Edge(b.state, Closed)
    ensures Process(b, s, env).Aborted? ==> b.state.SynRcvd?
    ensures IsActive(b.state) && Process(b, s, env).Stay? ==>
              IsActive(Process(b, s, env).state) || Process(b, s, env).state.TimeWait?
    ensures b.state.TimeWait? ==> Process(b, s, env).Reset? || Process(b, s, env) == Stay(TimeWait)
    ensures s.rst && Process(b, s, env).Stay? ==> Process(b, s, env).state == b.state
  {
    assert Edge(FinWait1, Closing) && Edge(Closing, TimeWait);
  }

  /** A number is `n` numbers or fewer past `from`. */
  predicate UpTo(from: uint32, x: uint32, n: nat) {
    Wrap(x - from) <= n
  }

  /** What makes a block take an arrow (the labels of figure 6 and the events of section 3.9 of RFC 793). The code asks no
      more of a FIN than the flag: its place in the stream does not matter. */
  predicate Calls(b: Pcb, s: Seg, env: Env, t: TcpState) {
    var ownAcked := s.ack && s.ackno == env.vars.sndNxt;
    match (b.state, t)
    case (SynSent, Established) => s.syn && s.ack && s.ackno == Wrap(env.synSeq + 1)
    case (SynRcvd, Established) => s.ack && NewAck(b, s) && env.acceptOk
    case (Established, CloseWait) => s.fin
    case (FinWait1, FinWait2) => ownAcked && !s.fin
    case (FinWait1, Closing) => s.fin && !ownAcked
    case (FinWait1, TimeWait) => s.fin && ownAcked
    case (FinWait2, TimeWait) => s.fin
    case (Closing, TimeWait) => ownAcked
    case _ => false
  }

  /** The acknowledgement is past the last one and not past what has been sent. */
  predicate NewAck(b: Pcb, s: Seg) {
    SeqLt(b.vars.lastack, s.ackno) && SeqLeq(s.ackno, b.vars.sndNxt)
  }

  /** With less than half the number space outstanding, those are the numbers from one past the last one on. */
  lemma NewAckMeans(b: Pcb, s: Seg)
    requires 0 < Wrap(b.vars.sndNxt - b.vars.lastack) < HALF
    ensures NewAck(b, s) <==> UpTo(Wrap(b.vars.lastack + 1), s.ackno, Wrap(b.vars.sndNxt - b.vars.lastack) - 1)
  {
    hide Wrap;
    var last: uint32, x: uint32, nxt: uint32 := b.vars.lastack, s.ackno, b.vars.sndNxt;
    Distance(x, last);
    Distance(last, x);
    Distance(nxt, last);
    Distance(x, nxt);
    Distance(x, Wrap(last + 1));
    WrapSum(last, 1);
  }

  /** How far `x` is past `y`. */
  lemma Distance(x: uint32, y: uint32)
    ensures Wrap(x - y) == if x >= y then x - y else x - y + WORD
  {
  }

  /** A reset is acceptable in SYN_SENT if it acknowledges the SYN, and else if its number is in the window or one past it
      (section 3.4 of RFC 793). */
  lemma RstMeans(b: Pcb, s: Seg)
    ensures RstAcceptable(b, s) <==>
            if b.state.SynSent? then s.ackno == b.vars.sndNxt else UpTo(b.vars.rcvNxt, s.seqno, b.vars.rcvWnd)
  {
    hide Wrap;
    var nxt: uint32, x: uint32 := b.vars.rcvNxt, s.seqno;
    var end: uint32 := Wrap(nxt + b.vars.rcvWnd);
    Distance(x, nxt);
    Distance(x, end);
    WrapSum(nxt, b.vars.rcvWnd);
  }

  lemma WrapSum(x: uint32, n: uint16)
    ensures Wrap(x + n) == if x + n < WORD then x + n else x + n - WORD
  {
  }

  /** Every arrow is taken exactly when it is called for, and a block goes exactly on an acceptable reset, on the last
      acknowledgement, and when the accept function turns it down. */
  lemma ProcessExact(b: Pcb, s: Seg, env: Env, t: TcpState)
    ensures t != b.state ==> (Process(b, s, env) == Stay(t) <==> !s.rst && Calls(b, s, env, t))
    ensures Process(b, s, env).Reset? <==>
            s.rst && if b.state.SynSent? then s.ackno == b.vars.sndNxt else UpTo(b.vars.rcvNxt, s.seqno, b.vars.rcvWnd)
    ensures Process(b, s, env).Done? <==> !s.rst && b.state.LastAck? && s.ack && s.ackno == env.vars.sndNxt
    ensures Process(b, s, env).Aborted? <==> !s.rst && b.state.SynRcvd? && s.ack && NewAck(b, s) && !env.acceptOk
  {
    hide RstAcceptable, NewAck, UpTo, Wrap;
    RstMeans(b, s);
    NewAckIs(b, s);
  }

  /** The place of a FIN does not matter: one that lies past the window closes the connection all the same. */
  lemma FinExample(b: Pcb, s: Seg, env: Env)
    requires b.state.Established? && s.fin && !s.rst && s.seqno == Wrap(b.vars.rcvNxt + b.vars.rcvWnd + 1)
    ensures !UpTo(b.vars.rcvNxt, s.seqno, b.vars.rcvWnd) && Process(b, s, env) == Stay(CloseWait)
  {
    WrapOffset(b.vars.rcvNxt + b.vars.rcvWnd + 1, b.vars.rcvNxt, 0);
    WrapDifference(b.vars.rcvNxt + b.vars.rcvWnd + 1, b.vars.rcvNxt);
  }

  lemma NewAckIs(b: Pcb, s: Seg)
    ensures NewAck(b, s) <==> SeqLt(b.vars.lastack, s.ackno) && SeqLeq(s.ackno, b.vars.sndNxt)
  {
  }

  /** A close takes an arrow exactly when the FIN could be queued, to FIN_WAIT_1 or from CLOSE_WAIT to LAST_ACK. */
  lemma CloseExact(s: TcpState, sendOk: bool, t: TcpState)
    ensures t != s ==>
              (CloseState(s, sendOk) == t <==>
               sendOk && (((s.SynRcvd? || s.Established?) && t.FinWait1?) || (s.CloseWait? && t.LastAck?)))
  {
  }

  /** Closing takes at most one arrow; a block that is deleted instead has one to CLOSED. */
  lemma CloseEdges(s: TcpState, sendOk: bool)
    ensures AtMostOne(s, CloseState(s, sendOk))
    ensures s.Listen? || s.SynSent? ==> Edge(s, Closed)
  {
  }

  /** A listener answers a SYN: one new block in SYN_RCVD at the front of the active list, if there is memory, and at
      most one block reclaimed. */
  ghost predicate Spawned(w: World, w': World, s: Seg, env: Env, np: int, mem: bool, reclaim: bool, ticks: uint32) {
    exists v :: (if reclaim then Reclaimed(w, v, ticks) else v == w) &&
                w' == if mem then AddActive(v, np, Pcb(SynRcvd, KeyOf(s), Wrap16(ticks), env.vars))
                      else v
  }

  lemma SpawnedIs(w: World, v: World, s: Seg, env: Env, np: int, mem: bool, reclaim: bool, ticks: uint32)
    requires if reclaim then Reclaimed(w, v, ticks) else v == w
    ensures var b := Pcb(SynRcvd, KeyOf(s), Wrap16(ticks), env.vars);
            Spawned(w, if mem then AddActive(v, np, b) else v, s, env, np, mem, reclaim, ticks)
  {
    assert Reclaimed(w, v, ticks) || v == w;
  }

  function Idle(w: World, p: int, ticks: uint32): uint32
    requires p in w.pcbs
  {
    Wrap(ticks - w.pcbs[p].tmr)
  }

  /** The block at `k` is the first of the active ones that have been idle longest, and has been idle at all. */
  ghost predicate Longest(w: World, k: int, ticks: uint32) {
    && 0 <= k < |w.active| && (forall p | p in w.active :: p in w.pcbs)
    && Idle(w, w.active[k], ticks) > 0
    && (forall j | 0 <= j < |w.active| :: Idle(w, w.active[j], ticks) <= Idle(w, w.active[k], ticks))
    && (forall j | 0 <= j < k :: Idle(w, w.active[j], ticks) < Idle(w, w.active[k], ticks))
  }

  /** True times: `elapsed` ticks have passed, and `touched` tells at which of them each block was last touched. A block keeps
      only the last sixteen bits of that. */
  ghost predicate Stamps(pcbs: map<int, Pcb>, touched: map<int, nat>, elapsed: nat) {
    forall p | p in pcbs :: p in touched && touched[p] <= elapsed && pcbs[p].tmr == Wrap16(touched[p])
  }

  lemma StampNow(elapsed: nat)
    ensures Wrap16(Wrap(elapsed)) == Wrap16(elapsed)
  {
    var q, r := elapsed / WORD, elapsed % WORD;
    assert elapsed == 0x1_0000 * (0x1_0000 * q) + r;
    Shift16(r, 0x1_0000 * q);
  }

  lemma Shift16(r: nat, k: nat)
    ensures (0x1_0000 * k + r) % 0x1_0000 == r % 0x1_0000
  {
  }

  /** What the code takes for the time a block has been idle is that time exactly when the block was last touched in the first
      65536 ticks; after that it is too long by a multiple of 65536. */
  lemma IdleExact(w: World, p: int, touched: nat, elapsed: nat)
    requires p in w.pcbs && w.pcbs[p].tmr == Wrap16(touched) && touched <= elapsed < WORD
    ensures Idle(w, p, elapsed) == elapsed - touched + 0x1_0000 * (touched / 0x1_0000)
    ensures Idle(w, p, elapsed) == elapsed - touched <==> touched < 0x1_0000
  {
  }

  /** Of two blocks the code takes the one whose stamp is lower for the one idle longer; it is, exactly if it was not touched
      in a later turn of the 16-bit stamp. */
  lemma IdleOrder(w: World, p: int, q: int, tp: nat, tq: nat, elapsed: nat)
    requires p in w.pcbs && w.pcbs[p].tmr == Wrap16(tp) && tp <= elapsed < WORD
    requires q in w.pcbs && w.pcbs[q].tmr == Wrap16(tq) && tq <= elapsed
    ensures Idle(w, p, elapsed) <= Idle(w, q, elapsed) <==> tq % 0x1_0000 <= tp % 0x1_0000
    ensures Idle(w, p, elapsed) <= Idle(w, q, elapsed) ==> (tq <= tp <==> tq / 0x1_0000 <= tp / 0x1_0000)
  {
    IdleExact(w, p, tp, elapsed);
    IdleExact(w, q, tq, elapsed);
  }

  /** No active block was last touched before `o`. */
  ghost predicate Oldest(active: seq<int>, touched: map<int, nat>, o: int) {
    forall p | p in active :: p in touched && o in touched && touched[o] <= touched[p]
  }

  /** No active block was last touched in an earlier turn of the 16-bit stamp than `o`. */
  ghost predicate FirstTurn(active: seq<int>, touched: map<int, nat>, o: int) {
    forall p | p in active :: p in touched && o in touched && touched[o] / 0x1_0000 <= touched[p] / 0x1_0000
  }

  /** The block that is reclaimed has truly been idle longest exactly if none was last touched in an earlier turn. */
  lemma LongestIsOldest(w: World, k: int, touched: map<int, nat>, elapsed: nat)
    requires Stamps(w.pcbs, touched, elapsed) && elapsed < WORD && Longest(w, k, elapsed)
    ensures 0 <= k < |w.active| && (Oldest(w.active, touched, w.active[k]) <==> FirstTurn(w.active, touched, w.active[k]))
  {
    var o := w.active[k];
    assert o in w.active;
    forall p | p in w.active
      ensures p in touched && o in touched && (touched[o] <= touched[p] <==> touched[o] / 0x1_0000 <= touched[p] / 0x1_0000)
    {
      var j :| 0 <= j < |w.active| && w.active[j] == p;
      IdleOrder(w, p, o, touched[p], touched[o], elapsed);
    }
  }

  /** It need not be otherwise: of blocks touched at ticks 65000 and 65600 the second is taken for the one idle longest at tick
      65700, and would be reclaimed. */
  lemma ReclaimExample(key: Key, vars: Vars)
    ensures var w := World(map[1 := Pcb(Established, key, Wrap16(65000), vars), 2 := Pcb(Established, key, Wrap16(65600), vars)],
                           [1, 2], [], []);
            Sane(w) && Longest(w, 1, 65700) && !Longest(w, 0, 65700)
  {
  }

  /** The first block in TIME_WAIT goes, or else the active block that has been idle longest; if none has, nothing. */
  ghost predicate Reclaimed(w: World, v: World, ticks: uint32) {
    if w.tw != [] then v == Drop(w, w.tw[0])
    else
      || (exists k | 0 <= k < |w.active| :: Longest(w, k, ticks) && v == Drop(w, w.active[k]))
      || (v == w && forall p | p in w.active :: p in w.pcbs && Idle(w, p, ticks) == 0)
  }

  lemma ReclaimTrue(w: World, v: World, touched: map<int, nat>, elapsed: nat)
    requires Sane(w) && Stamps(w.pcbs, touched, elapsed) && Reclaimed(w, v, Wrap(elapsed)) && w.tw == [] && elapsed < WORD
    ensures forall o | o in w.active && o !in v.pcbs :: Oldest(w.active, touched, o) <==> FirstTurn(w.active, touched, o)
  {
    hide Stamps, Oldest, FirstTurn, Longest, Wrap, Without, Registered;
    WrapSmall(elapsed);
    if v != w {
      var k :| 0 <= k < |w.active| && Longest(w, k, elapsed) && v == Drop(w, w.active[k]);
      LongestIsOldest(w, k, touched, elapsed);
      assert forall p | p in w.active && p !in v.pcbs :: p == w.active[k];
    }
  }

  lemma StampsSubset(pcbs: map<int, Pcb>, touched: map<int, nat>, elapsed: nat)
    requires Stamps(pcbs, touched, elapsed)
    ensures forall p :: Stamps(pcbs - {p}, touched, elapsed)
  {
  }

  lemma StampsSwept(w: World, v: World, q: seq<int>, k: nat, dead: set<int>, upd: map<int, Vars>, touched: map<int, nat>, elapsed: nat)
    requires Stamps(w.pcbs, touched, elapsed) && k <= |q| && SweptSo(w, v, q, k, dead, upd)
    ensures Stamps(v.pcbs, touched, elapsed)
  {
  }

  /** Every block that survives a step is where it was or one or two edges further. */
  ghost predicate Follows(w: World, w': World) {
    forall p | p in w.pcbs && p in w'.pcbs :: Path(w.pcbs[p].state, w'.pcbs[p].state)
  }

  predicate Path(s: TcpState, t: TcpState) {
    AtMostOne(s, t) || Two(s, t)
  }

  lemma SpawnFollows(w: World, v: World, np: int, b: Pcb, ticks: uint32)
    requires np !in w.pcbs && (Reclaimed(w, v, ticks) || v == w)
    ensures np !in v.pcbs && Follows(w, v) && Follows(w, AddActive(v, np, b))
  {
    hide Edge, Without;
    assert forall p | p in v.pcbs :: p in w.pcbs && v.pcbs[p] == w.pcbs[p];
  }

  /** What tcp_close makes of the world. */
  function AfterClose(w: World, p: int, sendOk: bool): World
    requires p in w.pcbs
  {
    var b := w.pcbs[p];
    if b.state.Listen? || b.state.SynSent? then Drop(w, p)
    else w.(pcbs := w.pcbs[p := b.(state := CloseState(b.state, sendOk))])
  }

  /** What a segment for a block that is not listening makes of the world. */
  function Delivered(w: World, p: int, s: Seg, env: Env, ticks: uint32): World
    requires p in w.pcbs
  {
    var b := w.pcbs[p];
    match Process(b, s, env)
    case Stay(t) =>
      var b' := if s.rst then b else b.(vars := env.vars, tmr := Wrap16(ticks));
      if t.TimeWait? && !b.state.TimeWait? then ToTimeWait(w, p, b')
      else
        var w' := w.(pcbs := w.pcbs[p := b'.(state := t)]);
        if env.finClose && !t.TimeWait? then AfterClose(w', p, env.sendOk) else w'
    case _ => Drop(w, p)
  }

  /** A segment moves its block along at most two arrows, and no other block. */
  lemma DeliveredFollows(w: World, p: int, s: Seg, env: Env, ticks: uint32)
    requires p in w.pcbs
    ensures Follows(w, Delivered(w, p, s, env, ticks))
  {
    hide Process, CloseState, Without;
    ProcessEdges(w.pcbs[p], s, env);
    forall t, sendOk
      ensures AtMostOne(t, CloseState(t, sendOk))
    {
      CloseEdges(t, sendOk);
    }
    ClosePath(w.pcbs[p], s, env);
  }

  /** The close that may follow a FIN comes after a single arrow. */
  lemma ClosePath(b: Pcb, s: Seg, env: Env)
    ensures var r := Process(b, s, env);
            r.Stay? && !r.state.TimeWait? ==> AtMostOne(b.state, r.state) && Path(b.state, CloseState(r.state, env.sendOk))
  {
    ProcessEdges(b, s, env);
    var r := Process(b, s, env);
    if r.Stay? && !r.state.TimeWait? {
      CloseEdges(r.state, env.sendOk);
    }
  }

  /** Does the block go on this segment? */
  predicate Goes(b: Pcb, s: Seg, env: Env) {
    if s.rst then if b.state.SynSent? then s.ackno == b.vars.sndNxt else UpTo(b.vars.rcvNxt, s.seqno, b.vars.rcvWnd)
    else
      || (b.state.LastAck? && s.ack && s.ackno == env.vars.sndNxt)
      || (b.state.SynRcvd? && s.ack && NewAck(b, s) && !env.acceptOk)
  }

  /** What a segment does to its block, if no close follows: it goes or takes the arrow that is called for, to the front of
      the TIME_WAIT list if that is where it leads. The other blocks stay as they are and where they are. */
  lemma DeliveredExact(w: World, p: int, s: Seg, env: Env, ticks: uint32)
    requires Sane(w) && p in w.pcbs && (p in w.active || p in w.tw) && !env.finClose
    ensures var w', b := Delivered(w, p, s, env, ticks), w.pcbs[p];
            && (p in w'.pcbs <==> !Goes(b, s, env))
            && (p in w'.pcbs ==>
                  && (forall t | t != b.state :: w'.pcbs[p].state == t <==> !s.rst && Calls(b, s, env, t))
                  && w'.pcbs[p].key == b.key
                  && (!s.rst ==> w'.pcbs[p].tmr == Wrap16(ticks) && w'.pcbs[p].vars == env.vars)
                  && w'.tw == (if w'.pcbs[p].state.TimeWait? && !b.state.TimeWait? then [p] + w.tw else w.tw))
            && (forall q | q != p :: (q in w'.pcbs <==> q in w.pcbs) && (q in w.pcbs ==> w'.pcbs[q] == w.pcbs[q]))
            && (forall q | q != p :: (q in w'.active <==> q in w.active) && (q in w'.tw <==> q in w.tw))
            && w'.listen == w.listen
  {
    hide Process, Calls, NewAck, UpTo, Wrap, Wrap16, Without;
    forall t
      ensures t != w.pcbs[p].state ==> (Process(w.pcbs[p], s, env) == Stay(t) <==> !s.rst && Calls(w.pcbs[p], s, env, t))
    {
      ProcessExact(w.pcbs[p], s, env, t);
    }
    ProcessExact(w.pcbs[p], s, env, w.pcbs[p].state);
    DeleteOne(w, p);
    WithoutMeans(w.active, p);
    WithoutMeans(w.tw, p);
  }

  /** The first block on a list that the segment matches, if there is one. */
  function FirstHit(w: World, q: seq<int>, s: Seg, listening: bool): (k: int)
    ensures -1 <= k < |q|
  {
    if q == [] then -1
    else if Hit(w.pcbs, q[0], s, listening) then 0
    else var k := FirstHit(w, q[1..], s, listening); if k == -1 then -1 else k + 1
  }

  lemma {:induction false} FirstHitIs(w: World, q: seq<int>, s: Seg, listening: bool, k: int)
    requires -1 <= k < |q| && (k >= 0 ==> Hit(w.pcbs, q[k], s, listening))
    requires forall i | 0 <= i < (if k >= 0 then k else |q|) :: !Hit(w.pcbs, q[i], s, listening)
    ensures FirstHit(w, q, s, listening) == k
  {
    hide Hit;
    if q != [] && k != 0 {
      FirstHitIs(w, q[1..], s, listening, if k == -1 then -1 else k - 1);
    }
  }

  /** The block at the front is found there and stays there. */
  lemma FrontHit(w: World, s: Seg)
    requires Sane(w) && w.active != [] && w.active[0] in w.pcbs && w.pcbs[w.active[0]].key == KeyOf(s)
    ensures FirstHit(w, w.active, s, false) == 0
    ensures w.(active := Front(w.active, w.active[0])) == w
  {
    assert w.active[0] in w.active;
    assert [w.active[0]] + w.active[1..] == w.active;
  }

  // ---- Expiry and the slow timer -----------------------------------------------------------------

  lemma ListsAllocated(w: World)
    requires Sane(w)
    ensures forall p | p in w.active :: p in w.pcbs && IsActive(w.pcbs[p].state)
    ensures forall p | p in w.tw :: p in w.pcbs && w.pcbs[p].state.TimeWait?
    ensures forall p | p in w.listen :: p in w.pcbs && w.pcbs[p].state.Listen?
  {
  }

  /** Unlinking the block at `k` and putting it first is moving it to the front. */
  lemma FrontAt(w: World, k: nat)
    requires Sane(w)
    ensures k < |w.active| ==> [w.active[k]] + w.active[..k] + w.active[k + 1..] == Front(w.active, w.active[k])
    ensures k < |w.listen| ==> [w.listen[k]] + w.listen[..k] + w.listen[k + 1..] == Front(w.listen, w.listen[k])
  {
    if k < |w.active| {
      WithoutAt(w.active, w.active[k], k);
      assert w.active[k] in w.active;
    }
    if k < |w.listen| {
      WithoutAt(w.listen, w.listen[k], k);
      assert w.listen[k] in w.listen;
    }
  }

  lemma NotListed(w: World, p: int)
    requires Sane(w) && (p in w.pcbs ==> w.pcbs[p].state.Closed?)
    ensures p !in w.active && p !in w.tw && p !in w.listen
  {
  }

  lemma DeleteOne(w: World, p: int)
    requires Sane(w) && p in w.pcbs
    ensures !w.pcbs[p].state.TimeWait? ==> Without(w.tw, p) == w.tw
    ensures !w.pcbs[p].state.Listen? ==> Without(w.listen, p) == w.listen
    ensures !IsActive(w.pcbs[p].state) ==> Without(w.active, p) == w.active
  {
    if !w.pcbs[p].state.TimeWait? {
      WithoutAbsent(w.tw, p);
    }
    if !w.pcbs[p].state.Listen? {
      WithoutAbsent(w.listen, p);
    }
    if !IsActive(w.pcbs[p].state) {
      WithoutAbsent(w.active, p);
    }
  }

  /** Has a block run out of retransmissions, or waited too long for a FIN, for the end of a handshake or in TIME_WAIT? */
  predicate Expired(b: Pcb, ticks: uint32) {
    var idle := Wrap(ticks - b.tmr);
    if b.state.TimeWait? then idle > 2 * MSL / SLOW_INTERVAL
    else
      || (b.state.SynSent? && b.vars.nrtx == SYNMAXRTX)
      || b.vars.nrtx == MAXRTX
      || (b.state.FinWait2? && idle > FIN_WAIT_TIMEOUT / SLOW_INTERVAL)
      || (b.state.SynRcvd? && idle > SYN_RCVD_TIMEOUT / SLOW_INTERVAL)
  }

  /** Has a block that was last touched at `touched` waited longer than `limit`, or been touched too late for its stamp? */
  predicate Late(touched: nat, elapsed: nat, limit: nat) {
    elapsed - touched > limit || touched >= 0x1_0000
  }

  /** Expiry in true time. */
  predicate Due(b: Pcb, touched: nat, elapsed: nat) {
    if b.state.TimeWait? then Late(touched, elapsed, 2 * MSL / SLOW_INTERVAL)
    else
      || (b.state.SynSent? && b.vars.nrtx == SYNMAXRTX)
      || b.vars.nrtx == MAXRTX
      || (b.state.FinWait2? && Late(touched, elapsed, FIN_WAIT_TIMEOUT / SLOW_INTERVAL))
      || (b.state.SynRcvd? && Late(touched, elapsed, SYN_RCVD_TIMEOUT / SLOW_INTERVAL))
  }

  /** A block that waits expires when its time is up or, whatever its time, when it was last touched after the first 65536
      ticks. */
  lemma ExpiredExact(b: Pcb, touched: nat, elapsed: nat)
    requires b.tmr == Wrap16(touched) && touched <= elapsed < WORD
    ensures Expired(b, elapsed) <==> Due(b, touched, elapsed)
  {
    IdleExact(World(map[0 := b], [], [], []), 0, touched, elapsed);
  }

  /** A block touched at tick 70000 is taken for expired one tick later. */
  lemma ExpiredExample(key: Key, vars: Vars)
    ensures Expired(Pcb(TimeWait, key, Wrap16(70000), vars), 70001) && Expired(Pcb(SynRcvd, key, Wrap16(70000), vars), 70001)
  {
  }

  /** The blocks on a list that have expired. */
  ghost function Dead(w: World, q: seq<int>, ticks: uint32): set<int> {
    set p | p in q && p in w.pcbs && Expired(w.pcbs[p], ticks)
  }

  lemma NoOverlap(w: World)
    requires Sane(w)
    ensures forall p | p in w.active :: p !in w.tw
  {
  }

  /** The world after the timer has looked at the first `k` blocks of the list `q`, those in `dead` having expired. */
  ghost function Swept(w: World, q: seq<int>, k: nat, dead: set<int>, upd: map<int, Vars>): World
    requires k <= |q|
  {
    if k == 0 then w
    else
      var v, p := Swept(w, q, k - 1, dead, upd), q[k - 1];
      if p !in v.pcbs then v
      else if p in dead then Drop(v, p)
      else v.(pcbs := v.pcbs[p := Updated(v.pcbs[p], p, upd)])
  }

  function Updated(b: Pcb, p: int, upd: map<int, Vars>): Pcb {
    if p in upd then b.(vars := upd[p]) else b
  }

  lemma SweptNone(w: World, q: seq<int>, dead: set<int>, upd: map<int, Vars>)
    ensures Swept(w, q, 0, dead, upd) == w
  {
  }

  /** Of the first `k` blocks those in `dead` have gone; everything else is as it was. */
  ghost predicate SweptSo(w: World, v: World, q: seq<int>, k: nat, dead: set<int>, upd: map<int, Vars>)
    requires k <= |q|
  {
    && (forall p :: p in v.active <==> p in w.active && p in v.pcbs)
    && (forall p :: p in v.tw <==> p in w.tw && p in v.pcbs)
    && (forall p :: p in v.pcbs <==> p in w.pcbs && !(p in q[..k] && p in dead))
    && (forall p | p in v.pcbs && p in w.pcbs :: v.pcbs[p].state == w.pcbs[p].state && v.pcbs[p].tmr == w.pcbs[p].tmr)
    && (forall p | p in v.pcbs && p in w.pcbs :: v.pcbs[p] == if p in q[..k] then Updated(w.pcbs[p], p, upd) else w.pcbs[p])
    && (forall p | p in w.pcbs && p !in q[..k] :: p in v.pcbs && v.pcbs[p] == w.pcbs[p])
    && v.listen == w.listen
  }

  /** The list the timer is on. */
  function ListOf(w: World, act: bool): seq<int> {
    if act then w.active else w.tw
  }

  lemma SweptBase(w: World, q: seq<int>, dead: set<int>, upd: map<int, Vars>)
    requires Sane(w)
    ensures SweptSo(w, w, q, 0, dead, upd)
  {
    assert q[..0] == [];
  }

  lemma {:induction false} SweptMeans(w: World, act: bool, k: nat, dead: set<int>, upd: map<int, Vars>)
    requires Sane(w) && k <= |ListOf(w, act)|
    ensures var q := ListOf(w, act);
            var v := Swept(w, q, k, dead, upd);
            Sane(v) && (Registered(w) ==> Registered(v)) && SweptSo(w, v, q, k, dead, upd)
  {
    hide Sane, Registered, SweptSo;
    var q := ListOf(w, act);
    if k == 0 {
      SweptBase(w, q, dead, upd);
    } else {
      SweptMeans(w, act, k - 1, dead, upd);
      var v, p := Swept(w, q, k - 1, dead, upd), q[k - 1];
      SweptThere(w, v, act, k - 1, dead, upd);
      if p in dead {
        DropSane(v, p);
        SweptDrop(w, v, q, k - 1, dead, upd);
      } else {
        UpdateSane(v, p, Updated(v.pcbs[p], p, upd));
        SweptKeep(w, v, q, k - 1, dead, upd, Updated(v.pcbs[p], p, upd));
      }
    }
  }

  lemma SweptThere(w: World, v: World, act: bool, k: nat, dead: set<int>, upd: map<int, Vars>)
    requires Sane(w) && k < |ListOf(w, act)| && SweptSo(w, v, ListOf(w, act), k, dead, upd)
    ensures var q := ListOf(w, act);
            var p := q[k];
            p in q && p !in q[..k] && p in w.pcbs && !w.pcbs[p].state.Listen? && p in v.pcbs && v.pcbs[p] == w.pcbs[p]
  {
    var q := ListOf(w, act);
    assert q[k] in q;
  }

  lemma SweptDrop(w: World, v: World, q: seq<int>, k: nat, dead: set<int>, upd: map<int, Vars>)
    requires Sane(v) && k < |q| && SweptSo(w, v, q, k, dead, upd)
    requires var p := q[k]; p in v.pcbs && p in w.pcbs && v.pcbs[p] == w.pcbs[p] && !v.pcbs[p].state.Listen? && p in dead
    ensures SweptSo(w, Drop(v, q[k]), q, k + 1, dead, upd)
  {
    var p := q[k];
    WithoutMeans(v.active, p);
    WithoutMeans(v.tw, p);
    DeleteOne(v, p);
    hide Sane, Without;
    assert q[..k + 1] == q[..k] + [p];
  }

  lemma SweptKeep(w: World, v: World, q: seq<int>, k: nat, dead: set<int>, upd: map<int, Vars>, b: Pcb)
    requires k < |q| && SweptSo(w, v, q, k, dead, upd)
    requires var p := q[k];
             p in v.pcbs && p in w.pcbs && v.pcbs[p] == w.pcbs[p] && p !in dead && b == Updated(v.pcbs[p], p, upd)
    ensures SweptSo(w, v.(pcbs := v.pcbs[q[k] := b]), q, k + 1, dead, upd)
  {
    assert q[..k + 1] == q[..k] + [q[k]];
  }

  lemma SameHead(a: seq<int>, i: nat, b: seq<int>, k: nat)
    requires i < |a| && k <= |b| && a[i..] == b[k..]
    ensures k < |b| && a[i] == b[k] && a[i] in b
  {
    assert a[i] == a[i..][0];
  }

  /** Unlinking a block by hand and freeing it is dropping it. */
  lemma SweptStep(w: World, act: bool, k: nat, i: nat, dead: set<int>, upd: map<int, Vars>)
    requires Sane(w) && k < |ListOf(w, act)|
    requires var q := ListOf(w, act);
             var v := Swept(w, q, k, dead, upd);
             Sane(v) && i < |ListOf(v, act)| && ListOf(v, act)[i..] == q[k..] && SweptSo(w, v, q, k, dead, upd)
    ensures var q := ListOf(w, act);
            var v, p := Swept(w, q, k, dead, upd), q[k];
            var l := ListOf(v, act);
            var cut := l[..i] + l[i + 1..];
            && p in v.pcbs && p in w.pcbs && v.pcbs[p] == w.pcbs[p] && l[i + 1..] == q[k + 1..] && cut[i..] == q[k + 1..]
            && Swept(w, q, k + 1, dead, upd) ==
               (if p !in dead then v.(pcbs := v.pcbs[p := Updated(v.pcbs[p], p, upd)])
                else if act then v.(active := cut, pcbs := v.pcbs - {p})
                else v.(tw := cut, pcbs := v.pcbs - {p}))
  {
    var q := ListOf(w, act);
    var v, p := Swept(w, q, k, dead, upd), q[k];
    var l := ListOf(v, act);
    assert l[i] == l[i..][0] == p;
    assert l[i + 1..] == l[i..][1..] && q[k + 1..] == q[k..][1..];
    SweptThere(w, v, act, k, dead, upd);
    assert p in l;
    WithoutAt(l, p, i);
    DeleteOne(v, p);
  }

  /** The two loops of the timer, one after the other. */
  lemma BothSwept(w: World, u: World, v: World, upd: map<int, Vars>, ticks: uint32)
    requires Sane(w) && u.tw == w.tw
    requires SweptSo(w, u, w.active, |w.active|, Dead(w, w.active, ticks), upd)
    requires SweptSo(u, v, u.tw, |u.tw|, Dead(u, u.tw, ticks), map[])
    ensures forall p :: p in v.pcbs <==> p in w.pcbs && !((p in w.active || p in w.tw) && Expired(w.pcbs[p], ticks))
    ensures forall p :: (p in v.active <==> p in w.active && p in v.pcbs) && (p in v.tw <==> p in w.tw && p in v.pcbs)
    ensures forall p | p in v.pcbs :: p in w.pcbs && v.pcbs[p] == if p in w.active then Updated(w.pcbs[p], p, upd) else w.pcbs[p]
    ensures v.listen == w.listen
  {
    ListsAllocated(w);
    NoOverlap(w);
    hide Sane, Expired;
    assert w.active[..|w.active|] == w.active && u.tw[..|u.tw|] == u.tw;
    assert forall p | p in w.tw :: p in u.pcbs && u.pcbs[p] == w.pcbs[p];
  }

  datatype Event =
    | Arrives(s: Seg, env: Env, np: int, mem: bool, reclaim: bool)
    | Ticks(upd: map<int, Vars>)
    | Opens(np: int, key: Key, vars: Vars)
    | Connects(p: int, key: Key, vars: Vars)
    | Listens(p: int, np: int, mem: bool)
    | Closes(p: int, sendOk: bool)
    | Aborts(p: int)

  lemma TimesUp(w: World, touched: map<int, nat>, elapsed: nat, ticks: uint32)
    requires Stamps(w.pcbs, touched, elapsed) && ticks == Wrap(elapsed)
    ensures elapsed < WORD ==> forall p | p in w.pcbs :: p in touched && (Expired(w.pcbs[p], ticks) <==> Due(w.pcbs[p], touched[p], elapsed))
  {
    if elapsed < WORD {
      forall p | p in w.pcbs
        ensures p in touched && (Expired(w.pcbs[p], ticks) <==> Due(w.pcbs[p], touched[p], elapsed))
      {
        ExpiredExact(w.pcbs[p], touched[p], elapsed);
      }
    }
  }

  class Stack {
    var pcbs: map<int, Pcb>
    var active: seq<int>
    var tw: seq<int>
    var listen: seq<int>
    var ticks: uint32
    /** The true number of ticks, and the tick at which each block was last touched. */
    ghost var elapsed: nat
    ghost var touched: map<int, nat>

    ghost function Now(): World
      reads this
    {
      World(pcbs, active, tw, listen)
    }

    ghost predicate Valid()
      reads this
    {
      Sane(Now()) && Stamps(pcbs, touched, elapsed) && ticks == Wrap(elapsed)
    }

    constructor ()
      ensures Valid() && Registered(Now()) && pcbs == map[] && active == tw == listen == []
    {
      pcbs, active, tw, listen, ticks := map[], [], [], [], 0;
      elapsed, touched := 0, map[];
    }

    /** tcp_pcb_remove on the list the state names, and the release of the block. */
    method Delete(p: int)
      requires Valid() && p in pcbs
      modifies this`pcbs, this`active, this`tw, this`listen
      ensures Valid() && Now() == Drop(old(Now()), p)
      ensures old(Registered(Now())) ==> Registered(Now())
    {
      hide Sane, Registered;
      DropSane(Now(), p);
      DeleteOne(Now(), p);
      if pcbs[p].state.TimeWait? {
        tw := Rmv(tw, p);
      } else if pcbs[p].state.Listen? {
        listen := Rmv(listen, p);
      } else {
        active := Rmv(active, p);
      }
      pcbs := pcbs - {p};
    }

    method SetState(p: int, state: TcpState)
      requires Valid() && p in pcbs && (state == pcbs[p].state || (IsActive(pcbs[p].state) && IsActive(state)))
      modifies this`pcbs
      ensures Valid() && (old(Registered(Now())) ==> Registered(Now()))
      ensures pcbs == old(pcbs)[p := old(pcbs)[p].(state := state)]
    {
      hide Sane, Registered;
      UpdateSane(Now(), p, pcbs[p].(state := state));
      pcbs := pcbs[p := pcbs[p].(state := state)];
    }

    /** tcp_close; `sendOk` tells whether the FIN could be queued. */
    method Close(p: int, sendOk: bool)
      requires Valid() && p in pcbs
      modifies this`pcbs, this`active, this`tw, this`listen
      ensures Valid() && (old(Registered(Now())) ==> Registered(Now()))
      ensures Now() == AfterClose(old(Now()), p, sendOk)
    {
      hide Sane, Registered;
      match pcbs[p].state {
        case Listen => Delete(p);
        case SynSent => Delete(p);
        case SynRcvd => SetState(p, if sendOk then FinWait1 else SynRcvd);
        case Established => SetState(p, if sendOk then FinWait1 else Established);
        case CloseWait => SetState(p, if sendOk then LastAck else CloseWait);
        case _ => assert pcbs == pcbs[p := pcbs[p].(state := pcbs[p].state)];
      }
    }

    /** tcp_abort */
    method Abort(p: int)
      requires Valid() && p in pcbs
      modifies this`pcbs, this`active, this`tw, this`listen
      ensures Valid() && (old(Registered(Now())) ==> Registered(Now()))
      ensures Now() == Drop(old(Now()), p)
    {
      Delete(p);
    }

    /** tcp_connect on a fresh block. */
    method Connect(p: int, key: Key, vars: Vars)
      requires Valid() && p in pcbs && pcbs[p].state.Closed?
      modifies this`pcbs, this`active
      ensures Valid() && (old(Registered(Now())) ==> Registered(Now()))
      ensures Now() == AddActive(old(Now()), p, Pcb(SynSent, key, old(pcbs)[p].tmr, vars))
    {
      NotListed(Now(), p);
      hide Sane, Registered;
      AddActiveSane(Now(), p, Pcb(SynSent, key, pcbs[p].tmr, vars));
      pcbs := pcbs[p := Pcb(SynSent, key, pcbs[p].tmr, vars)];
      active := [p] + active;
    }

    /** tcp_listen on a fresh block. The block moves to `np`, a smaller one; if there is none it stays behind in LISTEN
        on no list, and that is the one way to lose track of a block. */
    method Listen(p: int, np: int, mem: bool) returns (ok: bool)
      requires Valid() && p in pcbs && pcbs[p].state.Closed? && np !in pcbs
      modifies this`pcbs, this`listen, this`touched
      ensures Valid() && ok == mem
      ensures old(Registered(Now())) ==> (Registered(Now()) <==> mem)
      ensures mem ==> pcbs == old(pcbs)[np := old(pcbs)[p].(state := TcpState.Listen)] - {p} && listen == [np] + old(listen)
      ensures !mem ==> pcbs == old(pcbs)[p := old(pcbs)[p].(state := TcpState.Listen)] && listen == old(listen)
    {
      NotListed(Now(), p);
      NotListed(Now(), np);
      pcbs := pcbs[p := pcbs[p].(state := TcpState.Listen)];
      if !mem {
        return false;
      }
      pcbs := pcbs[np := pcbs[p]] - {p};
      touched := touched[np := touched[p]];
      listen := [np] + listen;
      return true;
    }

    /** The reclaim function for control blocks: the first block in TIME_WAIT goes, or else the active block that has been idle
        longest. It truly has exactly if none was last touched in an earlier turn of the 16-bit stamp. */
    method Reclaim()
      requires Valid()
      modifies this`pcbs, this`active, this`tw, this`listen
      ensures Valid() && (old(Registered(Now())) ==> Registered(Now()))
      ensures listen == old(listen) && Reclaimed(old(Now()), Now(), ticks)
      ensures old(tw) == [] && elapsed < WORD ==>
                forall o | o in old(active) && o !in pcbs :: Oldest(old(active), touched, o) <==> FirstTurn(old(active), touched, o)
    {
      ghost var w := Now();
      ReclaimOne();
      if w.tw == [] && elapsed < WORD {
        ReclaimTrue(w, Now(), touched, elapsed);
      }
    }

    method ReclaimOne()
      requires Valid()
      modifies this`pcbs, this`active, this`tw, this`listen
      ensures Valid() && (old(Registered(Now())) ==> Registered(Now()))
      ensures listen == old(listen)
      ensures Reclaimed(old(Now()), Now(), ticks)
    {
      hide Stamps;
      StampsSubset(pcbs, touched, elapsed);
      if tw != [] {
        var p := tw[0];
        assert p in tw;
        DropSane(Now(), p);
        DeleteOne(Now(), p);
        tw := tw[1..];
        pcbs := pcbs - {p};
        return;
      }
      var oldest, inactivity := -1, 0;
      for i := 0 to |active|
        invariant -1 <= oldest < i && Now() == old(Now())
        invariant oldest == -1 ==> inactivity == 0
        invariant oldest >= 0 ==> inactivity == Idle(Now(), active[oldest], ticks) > 0
        invariant forall j | 0 <= j < i :: Idle(Now(), active[j], ticks) <= inactivity
        invariant forall j | 0 <= j < oldest :: Idle(Now(), active[j], ticks) < inactivity
      {
        var p := active[i];
        assert p in Now().active && p in Now().pcbs;
        if Wrap(ticks - pcbs[p].tmr) > inactivity {
          inactivity := Wrap(ticks - pcbs[p].tmr);
          oldest := i;
        }
      }
      if oldest != -1 {
        var p := active[oldest];
        assert p in active;
        DeleteOne(Now(), p);
        assert Longest(Now(), oldest, ticks);
        Abort(p);
      }
    }

    /** The first block on a list that a segment matches, or -1. */
    method Lookup(q: seq<int>, s: Seg, listening: bool) returns (k: int)
      requires forall p | p in q :: p in pcbs
      ensures k == FirstHit(Now(), q, s, listening)
    {
      for i := 0 to |q|
        invariant forall j | 0 <= j < i :: !Hit(pcbs, q[j], s, listening)
      {
        if Hit(pcbs, q[i], s, listening) {
          FirstHitIs(Now(), q, s, listening, i);
          return i;
        }
      }
      FirstHitIs(Now(), q, s, listening, -1);
      return -1;
    }

    /** tcp_input: the segment goes to an active block, else to one in TIME_WAIT, else to a listener. `np` is the block a
        new connection gets, if there is memory for one, after a reclaim if `reclaim`. */
    method Input(s: Seg, env: Env, np: int, mem: bool, reclaim: bool)
      requires Valid() && np !in pcbs
      modifies this`pcbs, this`active, this`tw, this`listen, this`touched
      ensures Valid() && (old(Registered(Now())) ==> Registered(Now()))
      ensures Follows(old(Now()), Now())
      ensures var w := old(Now());
              var a, t, l := FirstHit(w, w.active, s, false), FirstHit(w, w.tw, s, false), FirstHit(w, w.listen, s, true);
              if a >= 0 then Now() == Delivered(w.(active := Front(w.active, w.active[a])), w.active[a], s, env, ticks)
              else if t >= 0 then Now() == Delivered(w, w.tw[t], s, env, ticks)
              else if l >= 0 && s.syn && !s.ack && !s.rst then Spawned(w.(listen := Front(w.listen, w.listen[l])), Now(), s, env, np, mem, reclaim, ticks)
              else if l >= 0 then Now() == w.(listen := Front(w.listen, w.listen[l]))
              else Now() == w
      ensures var a := FirstHit(old(Now()), old(active), s, false);
              a >= 0 && !s.rst && old(active)[a] in pcbs ==> old(active)[a] in touched && touched[old(active)[a]] == elapsed
    {
      hide Sane, Registered, FirstHit, Delivered, Process, Front, Spawned;
      ListsAllocated(Now());
      var k := Lookup(active, s, false);
      if k >= 0 {
        var p := active[k];
        assert p in active;
        FrontSane(Now(), p);
        FrontAt(Now(), k);
        active := [p] + active[..k] + active[k + 1..];
        assert p in active;
        Deliver(p, s, env);
        return;
      }
      k := Lookup(tw, s, false);
      if k >= 0 {
        assert tw[k] in tw;
        Deliver(tw[k], s, env);
        return;
      }
      k := Lookup(listen, s, true);
      if k >= 0 {
        var p := listen[k];
        assert p in listen;
        FrontSane(Now(), p);
        FrontAt(Now(), k);
        listen := [p] + listen[..k] + listen[k + 1..];
        if !s.rst && !s.ack && s.syn {
          Spawn(p, s, env, np, mem, reclaim);
        }
      }
    }

    /** A segment for the block at the front of the active list, in a world where no close follows a FIN by itself. */
    method Hear(p: int, s: Seg, env: Env, np: int)
      requires Valid() && active != [] && active[0] == p && KeyOf(s) == pcbs[p].key && !env.finClose && np !in pcbs
      modifies this`pcbs, this`active, this`tw, this`listen, this`touched
      ensures Valid() && Now() == Delivered(old(Now()), p, s, env, ticks)
      ensures p in pcbs && !s.rst ==> touched[p] == elapsed
    {
      hide Sane, Delivered, Registered, Stamps;
      ListsAllocated(Now());
      assert p in active;
      FrontHit(Now(), s);
      Input(s, env, np, true, false);
    }

    /** The LISTEN case of tcp_process. */
    method Spawn(p: int, s: Seg, env: Env, np: int, mem: bool, reclaim: bool)
      requires Valid() && p in pcbs && p in listen && np !in pcbs
      modifies this`pcbs, this`active, this`tw, this`listen, this`touched
      ensures Valid() && (old(Registered(Now())) ==> Registered(Now()))
      ensures Follows(old(Now()), Now())
      ensures Spawned(old(Now()), Now(), s, env, np, mem, reclaim, ticks)
      ensures touched == if mem then old(touched)[np := elapsed] else old(touched)
    {
      hide Sane, Registered, Stamps, Reclaimed, Spawned, Oldest, FirstTurn, Follows;
      if reclaim {
        Reclaim();
      }
      ghost var v := Now();
      SpawnedIs(old(Now()), v, s, env, np, mem, reclaim, ticks);
      SpawnFollows(old(Now()), v, np, Pcb(SynRcvd, KeyOf(s), Wrap16(ticks), env.vars), ticks);
      if mem {
        Enlist(np, KeyOf(s), env.vars);
      }
    }

    /** A new block in SYN_RCVD is filled in and registered. */
    method Enlist(np: int, key: Key, vars: Vars)
      requires Valid() && np !in pcbs
      modifies this`pcbs, this`active, this`touched
      ensures Valid() && (old(Registered(Now())) ==> Registered(Now()))
      ensures Now() == AddActive(old(Now()), np, Pcb(SynRcvd, key, Wrap16(ticks), vars))
      ensures touched == old(touched)[np := elapsed]
    {
      NotListed(Now(), np);
      hide Sane, Registered;
      var b := Pcb(SynRcvd, key, Wrap16(ticks), vars);
      AddActiveSane(Now(), np, b);
      StampNow(elapsed);
      pcbs := pcbs[np := b];
      touched := touched[np := elapsed];
      active := [np] + active;
    }

    /** tcp_process and the clearing up after it, for a block that is not listening. */
    method Deliver(p: int, s: Seg, env: Env)
      requires Valid() && p in pcbs && (IsActive(pcbs[p].state) || pcbs[p].state.TimeWait?)
      requires pcbs[p].state.TimeWait? || p in active
      modifies this`pcbs, this`active, this`tw, this`listen, this`touched
      ensures Valid() && (old(Registered(Now())) ==> Registered(Now()))
      ensures Follows(old(Now()), Now())
      ensures Now() == Delivered(old(Now()), p, s, env, ticks)
      ensures (touched == old(touched) || touched == old(touched)[p := elapsed]) && (p in pcbs && !s.rst ==> touched[p] == elapsed)
    {
      hide Sane, Registered, Process, Follows, Edge;
      DeliveredFollows(Now(), p, s, env, ticks);
      ProcessEdges(pcbs[p], s, env);
      StampNow(elapsed);
      match Process(pcbs[p], s, env) {
        case Reset => Delete(p);
        case Aborted => Abort(p);
        case Done => Delete(p);
        case Stay(t) =>
          if t.TimeWait? && !pcbs[p].state.TimeWait? {
            var b := pcbs[p].(vars := env.vars, tmr := Wrap16(ticks));
            ToTimeWaitSane(Now(), p, b);
            active := Rmv(active, p);
            pcbs := pcbs[p := b.(state := TimeWait)];
            touched := touched[p := elapsed];
            tw := [p] + tw;
          } else {
            var b := Pcb(t, pcbs[p].key, if s.rst then pcbs[p].tmr else Wrap16(ticks), if s.rst then pcbs[p].vars else env.vars);
            UpdateSane(Now(), p, b);
            pcbs := pcbs[p := b];
            if !s.rst {
              touched := touched[p := elapsed];
            }
            if env.finClose && !t.TimeWait? {
              Close(p, env.sendOk);
            }
          }
      }
    }

    /** The first loop of tcp_slowtmr; `upd` are the variables that retransmission leaves behind. */
    method SweepActive(upd: map<int, Vars>)
      requires Valid()
      modifies this`pcbs, this`active
      ensures Valid() && (old(Registered(Now())) ==> Registered(Now()))
      ensures SweptSo(old(Now()), Now(), old(active), |old(active)|, old(Dead(Now(), active, ticks)), upd)
    {
      hide Sane, Registered, Expired, Swept, SweptSo, Stamps, Wrap;
      ghost var w, k := Now(), 0;
      ghost var dead := Dead(w, active, ticks);
      SweptNone(w, w.active, dead, upd);
      var i := 0;
      while i < |active|
        invariant i <= |active| && k <= |w.active| && Now() == Swept(w, w.active, k, dead, upd)
        invariant active[i..] == w.active[k..]
        decreases |w.active| - k
      {
        var p := active[i];
        SameHead(active, i, w.active, k);
        SweptMeans(w, true, k, dead, upd);
        SweptStep(w, true, k, i, dead, upd);
        if Expired(pcbs[p], ticks) {
          active := active[..i] + active[i + 1..];
          pcbs := pcbs - {p};
        } else {
          pcbs := pcbs[p := if p in upd then pcbs[p].(vars := upd[p]) else pcbs[p]];
          i := i + 1;
        }
        k := k + 1;
      }
      SweptMeans(w, true, k, dead, upd);
      StampsSwept(w, Now(), w.active, k, dead, upd, touched, elapsed);
    }

    /** The second loop of tcp_slowtmr. */
    method SweepTw()
      requires Valid()
      modifies this`pcbs, this`tw
      ensures Valid() && (old(Registered(Now())) ==> Registered(Now()))
      ensures SweptSo(old(Now()), Now(), old(tw), |old(tw)|, old(Dead(Now(), tw, ticks)), map[])
    {
      hide Sane, Registered, Expired, Swept, SweptSo, Stamps, Wrap;
      ghost var w, k := Now(), 0;
      ghost var dead := Dead(w, tw, ticks);
      SweptNone(w, w.tw, dead, map[]);
      var i := 0;
      while i < |tw|
        invariant i <= |tw| && k <= |w.tw| && Now() == Swept(w, w.tw, k, dead, map[])
        invariant tw[i..] == w.tw[k..]
        decreases |w.tw| - k
      {
        var p := tw[i];
        SameHead(tw, i, w.tw, k);
        SweptMeans(w, false, k, dead, map[]);
        SweptStep(w, false, k, i, dead, map[]);
        assert pcbs == pcbs[p := pcbs[p]];
        if Expired(pcbs[p], ticks) {
          tw := tw[..i] + tw[i + 1..];
          pcbs := pcbs - {p};
        } else {
          i := i + 1;
        }
        k := k + 1;
      }
      SweptMeans(w, false, k, dead, map[]);
      StampsSwept(w, Now(), w.tw, k, dead, map[], touched, elapsed);
    }

    /** tcp_slowtmr: exactly the blocks that have expired leave their lists; no other block changes state. */
    method SlowTimer(upd: map<int, Vars>)
      requires Valid()
      modifies this
      ensures Valid() && (old(Registered(Now())) ==> Registered(Now()))
      ensures ticks == Wrap(old(ticks) + 1) && listen == old(listen)
      ensures forall p :: p in pcbs <==> p in old(pcbs) && !((p in old(active) || p in old(tw)) && Expired(old(pcbs)[p], ticks))
      ensures forall p :: (p in active <==> p in old(active) && p in pcbs) && (p in tw <==> p in old(tw) && p in pcbs)
      ensures forall p | p in pcbs :: p in old(pcbs) && pcbs[p].state == old(pcbs)[p].state
      ensures forall p | p in pcbs :: pcbs[p].vars == if p in old(active) && p in upd then upd[p] else old(pcbs)[p].vars
      ensures elapsed == old(elapsed) + 1 && touched == old(touched)
      ensures elapsed < WORD ==> forall p | p in old(active) || p in old(tw) ::
                p in old(pcbs) && p in touched && (p in pcbs <==> !Due(old(pcbs)[p], touched[p], elapsed))
    {
      WrapDifference(elapsed, 1);
      ticks := Wrap(ticks + 1);
      elapsed := elapsed + 1;
      TimesUp(Now(), touched, elapsed, ticks);
      ListsAllocated(Now());
      hide Sane, Registered, Expired, Wrap, SweptSo, Dead, Due, Stamps;
      ghost var w := Now();
      SweepActive(upd);
      ghost var u := Now();
      SweepTw();
      BothSwept(w, u, Now(), upd, ticks);
    }

    /** tcp_new */
    method New(np: int, key: Key, vars: Vars)
      requires Valid() && np !in pcbs
      modifies this`pcbs, this`touched
      ensures Valid() && (old(Registered(Now())) ==> Registered(Now()))
      ensures pcbs == old(pcbs)[np := Pcb(Closed, key, Wrap16(ticks), vars)] && touched == old(touched)[np := elapsed]
    {
      NotListed(Now(), np);
      StampNow(elapsed);
      touched := touched[np := elapsed];
      pcbs := pcbs[np := Pcb(Closed, key, Wrap16(ticks), vars)];
    }

    /** Every run of arrivals, ticks and calls keeps the lists sane; a block is lost from them only by a listen call that
        finds no memory. A call on a block that does not exist or is not fresh is skipped. */
    method Perform(events: seq<Event>)
      requires Valid() && Registered(Now())
      modifies this
      ensures Valid()
      ensures (forall e | e in events :: e.Listens? ==> e.mem) ==> Registered(Now())
    {
      ghost var whole := true;
      for i := 0 to |events|
        invariant Valid() && (whole ==> Registered(Now()))
        invariant (forall e | e in events[..i] :: e.Listens? ==> e.mem) ==> whole
      {
        hide Sane, Registered, Follows, SweptSo;
        assert events[..i + 1] == events[..i] + [events[i]];
        match events[i] {
          case Arrives(s, env, np, mem, reclaim) =>
            if np !in pcbs {
              Input(s, env, np, mem, reclaim);
            }
          case Ticks(upd) =>
            SlowTimer(upd);
          case Opens(np, key, vars) =>
            if np !in pcbs {
              New(np, key, vars);
            }
          case Connects(p, key, vars) =>
            if p in pcbs && pcbs[p].state.Closed? {
              Connect(p, key, vars);
            }
          case Listens(p, np, mem) =>
            if p in pcbs && pcbs[p].state.Closed? && np !in pcbs {
              var ok := Listen(p, np, mem);
              whole := whole && mem;
            }
          case Closes(p, sendOk) =>
            if p in pcbs {
              Close(p, sendOk);
            }
          case Aborts(p) =>
            if p in pcbs {
              Abort(p);
            }
        }
      }
      assert events[..|events|] == events;
    }
  }

  /** A fresh block on which listen is called without memory for a listener: it is in LISTEN and on no list. */
  method ListenExample(key: Key, vars: Vars) returns (s: Stack)
    ensures s.Valid() && !Registered(s.Now())
    ensures 1 in s.pcbs && s.pcbs[1].state.Listen? && s.active == s.tw == s.listen == []
  {
    s := new Stack();
    s.New(1, key, vars);
    var ok := s.Listen(1, 2, false);
  }

  /** A segment from the peer of a connection. */
  function FromPeer(k: Key, seqno: uint32, ackno: uint32, syn: bool, ack: bool, fin: bool): Seg {
    Seg(k.remoteIp, k.localIp, k.remotePort, k.localPort, seqno, ackno, syn, ack, fin, false)
  }

  /** No block other than `p` has changed, appeared or gone. */
  ghost predicate OnlyOne(was: map<int, Pcb>, pcbs: map<int, Pcb>, p: int) {
    forall q | q != p :: (q in pcbs <==> q in was) && (q in was ==> pcbs[q] == was[q])
  }

  /** One move of the block at the front of the active list: its only effect is the arrow to `t`. */
  method Move(st: Stack, p: int, s: Seg, env: Env, np: int, t: TcpState)
    requires st.Valid() && st.active != [] && st.active[0] == p && KeyOf(s) == st.pcbs[p].key && np !in st.pcbs
    requires !env.finClose && !s.rst && Calls(st.pcbs[p], s, env, t) && t != st.pcbs[p].state
    modifies st`pcbs, st`active, st`tw, st`listen, st`touched
    ensures st.Valid() && st.pcbs == old(st.pcbs)[p := Pcb(t, old(st.pcbs)[p].key, Wrap16(st.ticks), env.vars)]
    ensures st.touched[p] == st.elapsed && st.listen == old(st.listen)
    ensures if t.TimeWait? then st.active == old(st.active)[1..] && st.tw == [p] + old(st.tw)
            else st.active == old(st.active) && st.tw == old(st.tw)
  {
    ghost var w := st.Now();
    MoveIs(w, p, s, env, st.ticks, t);
    hide Sane, Registered, Delivered, Calls;
    st.Hear(p, s, env, np);
  }

  lemma MoveIs(w: World, p: int, s: Seg, env: Env, ticks: uint32, t: TcpState)
    requires Sane(w) && w.active != [] && w.active[0] == p
    requires !env.finClose && !s.rst && Calls(w.pcbs[p], s, env, t) && t != w.pcbs[p].state
    ensures p in w.pcbs
    ensures Delivered(w, p, s, env, ticks) ==
            var b := Pcb(t, w.pcbs[p].key, Wrap16(ticks), env.vars);
            if t.TimeWait? then World(w.pcbs[p := b], w.active[1..], [p] + w.tw, w.listen)
            else World(w.pcbs[p := b], w.active, w.tw, w.listen)
  {
    assert p in w.active;
    ProcessExact(w.pcbs[p], s, env, t);
  }

  /** An active open and an orderly close from this side, on any stack: each segment of the peer moves the block one arrow
      further, from CLOSED to the front of the TIME_WAIT list, and nothing else changes. */
  method ActiveLife(st: Stack, p: int, np: int, key: Key, c: Vars, a: Env, f: Env, e: Env, seqno: uint32, ackno: uint32)
    returns (trace: seq<TcpState>)
    requires st.Valid() && p in st.pcbs && st.pcbs[p].state.Closed? && np !in st.pcbs
    requires !a.finClose && !f.finClose && !e.finClose
    modifies st
    ensures trace == [SynSent, Established, FinWait1, FinWait2, TimeWait]
    ensures st.Valid() && p in st.pcbs && st.pcbs[p].state.TimeWait? && st.pcbs[p].key == key && st.touched[p] == st.elapsed
    ensures st.active == old(st.active) && st.tw == [p] + old(st.tw) && OnlyOne(old(st.pcbs), st.pcbs, p)
  {
    hide Sane, Registered, Stamps, Delivered;
    st.Connect(p, key, c);
    trace := [st.pcbs[p].state];
    Move(st, p, FromPeer(key, seqno, Wrap(a.synSeq + 1), true, true, false), a, np, Established);
    trace := trace + [st.pcbs[p].state];
    st.Close(p, true);
    trace := trace + [st.pcbs[p].state];
    Move(st, p, FromPeer(key, Wrap(seqno + 1), f.vars.sndNxt, false, true, false), f, np, FinWait2);
    trace := trace + [st.pcbs[p].state];
    Move(st, p, FromPeer(key, Wrap(seqno + 1), ackno, false, true, true), e, np, TimeWait);
    trace := trace + [st.pcbs[p].state];
  }

  /** Both sides close at once: the FIN of the peer, which does not acknowledge the own one, leads to CLOSING. */
  method BothClose(st: Stack, p: int, np: int, f: Env, e: Env, seqno: uint32, ackno: uint32) returns (trace: seq<TcpState>)
    requires st.Valid() && st.active != [] && st.active[0] == p && p in st.pcbs && st.pcbs[p].state.Established? && np !in st.pcbs
    requires !f.finClose && !e.finClose && ackno != f.vars.sndNxt
    modifies st
    ensures trace == [FinWait1, Closing, TimeWait]
    ensures st.Valid() && st.active == old(st.active)[1..] && st.tw == [p] + old(st.tw) && OnlyOne(old(st.pcbs), st.pcbs, p)
  {
    hide Sane, Registered, Stamps, Delivered;
    var key := st.pcbs[p].key;
    st.Close(p, true);
    trace := [st.pcbs[p].state];
    Move(st, p, FromPeer(key, seqno, ackno, false, true, true), f, np, Closing);
    trace := trace + [st.pcbs[p].state];
    Move(st, p, FromPeer(key, Wrap(seqno + 1), e.vars.sndNxt, false, true, false), e, np, TimeWait);
    trace := trace + [st.pcbs[p].state];
  }

  /** A SYN that only the listener at the front answers to gets a block of its own at the front of the active list. */
  method Accept(st: Stack, s: Seg, env: Env, np: int)
    requires st.Valid() && np !in st.pcbs && s.syn && !s.ack && !s.rst
    requires forall p | p in st.active || p in st.tw :: p in st.pcbs && st.pcbs[p].key != KeyOf(s)
    requires st.listen != [] && st.listen[0] in st.pcbs && ListenMatches(st.pcbs[st.listen[0]].key, s)
    modifies st`pcbs, st`active, st`tw, st`listen, st`touched
    ensures st.Valid() && st.pcbs == old(st.pcbs)[np := Pcb(SynRcvd, KeyOf(s), Wrap16(st.ticks), env.vars)]
    ensures st.active == [np] + old(st.active) && st.tw == old(st.tw) && st.listen == old(st.listen)
  {
    ghost var w := st.Now();
    FirstHitIs(w, w.active, s, false, -1);
    FirstHitIs(w, w.tw, s, false, -1);
    FirstHitIs(w, w.listen, s, true, 0);
    assert [w.listen[0]] + w.listen[1..] == w.listen;
    assert w.(listen := Front(w.listen, w.listen[0])) == w;
    hide Sane, Registered, FirstHit, Front, ListenMatches;
    st.Input(s, env, np, true, false);
  }

  /** A passive open and an orderly close from the other side: the block comes, goes through five states and is freed, and
      the stack is as it was. */
  method PassiveLife(st: Stack, np: int, nq: int, s: Seg, o: Env, a: Env, f: Env, e: Env) returns (trace: seq<TcpState>)
    requires st.Valid() && np !in st.pcbs && nq !in st.pcbs && np != nq && s.syn && !s.ack && !s.rst
    requires forall p | p in st.active || p in st.tw :: p in st.pcbs && st.pcbs[p].key != KeyOf(s)
    requires st.listen != [] && st.listen[0] in st.pcbs && ListenMatches(st.pcbs[st.listen[0]].key, s)
    requires SeqLt(o.vars.lastack, o.vars.sndNxt) && a.acceptOk && !a.finClose && !f.finClose && !e.finClose
    modifies st
    ensures trace == [SynRcvd, Established, CloseWait, LastAck]
    ensures st.Valid() && st.pcbs == old(st.pcbs) && st.active == old(st.active) && st.tw == old(st.tw) && st.listen == old(st.listen)
  {
    hide Sane, Registered, Stamps, Delivered, SeqLt, ListenMatches;
    var key := KeyOf(s);
    Accept(st, s, o, np);
    trace := [st.pcbs[np].state];
    SelfLeq(o.vars.sndNxt);
    Move(st, np, FromPeer(key, Wrap(s.seqno + 1), o.vars.sndNxt, false, true, false), a, nq, Established);
    trace := trace + [st.pcbs[np].state];
    Move(st, np, FromPeer(key, Wrap(s.seqno + 1), o.vars.sndNxt, false, true, true), f, nq, CloseWait);
    trace := trace + [st.pcbs[np].state];
    st.Close(np, true);
    trace := trace + [st.pcbs[np].state];
    LastIs(st.Now(), np, FromPeer(key, Wrap(s.seqno + 2), e.vars.sndNxt, false, true, false), e, st.ticks);
    st.Hear(np, FromPeer(key, Wrap(s.seqno + 2), e.vars.sndNxt, false, true, false), e, nq);
    assert st.pcbs == old(st.pcbs);
  }

  lemma SelfLeq(x: uint32)
    ensures SeqLeq(x, x)
  {
  }

  /** The acknowledgement of the own FIN in LAST_ACK frees the block at the front. */
  lemma LastIs(w: World, p: int, s: Seg, env: Env, ticks: uint32)
    requires Sane(w) && w.active != [] && w.active[0] == p && p in w.pcbs && w.pcbs[p].state.LastAck?
    requires !s.rst && s.ack && s.ackno == env.vars.sndNxt
    ensures Delivered(w, p, s, env, ticks) == World(w.pcbs - {p}, w.active[1..], w.tw, w.listen)
  {
    ProcessExact(w.pcbs[p], s, env, LastAck);
    DeleteOne(w, p);
  }

  /** How many ticks a block that waits for the peer is kept: 60 seconds twice over in TIME_WAIT, 20 seconds in FIN_WAIT_2 and
      SYN_RCVD, in ticks of half a second. */
  function Patience(s: TcpState): int {
    match s
    case TimeWait => 240
    case FinWait2 => 40
    case SynRcvd => 40
    case _ => -1
  }

  /** A waiting block that was touched this tick is freed one tick after its time is up, if that was in the first 65536 ticks,
      and after a single tick if it was later. */
  method WaitLasts(st: Stack, p: int) returns (n: nat)
    requires st.Valid() && (p in st.tw || p in st.active) && p in st.pcbs && p in st.touched && st.touched[p] == st.elapsed
    requires Patience(st.pcbs[p].state) >= 0 && st.pcbs[p].vars.nrtx != MAXRTX && st.elapsed + 241 < WORD
    modifies st
    ensures st.Valid() && p !in st.pcbs
    ensures n == if old(st.elapsed) < 0x1_0000 then old(Patience(st.pcbs[p].state)) + 1 else 1
  {
    n := 0;
    ghost var state := st.pcbs[p].state;
    while p in st.pcbs
      invariant st.Valid() && st.elapsed == old(st.elapsed) + n && st.touched == old(st.touched)
      invariant p in st.pcbs ==> (p in st.tw || p in st.active) && st.pcbs[p].state == state && st.pcbs[p].vars.nrtx != MAXRTX
      invariant p in st.pcbs <==> n == 0 || (old(st.elapsed) < 0x1_0000 && n <= Patience(state))
      invariant n <= if old(st.elapsed) < 0x1_0000 then Patience(state) + 1 else 1
      decreases 241 - n
    {
      st.SlowTimer(map[]);
      n := n + 1;
    }
  }

  /** A block that does not wait for the peer goes only when it has been retransmitted too often: twelve times, or four times
      for its SYN. */
  lemma GivesUp(b: Pcb, ticks: uint32)
    requires Patience(b.state) < 0
    ensures Expired(b, ticks) <==> b.vars.nrtx == 12 || (b.state.SynSent? && b.vars.nrtx == 4)
  {
  }
}
