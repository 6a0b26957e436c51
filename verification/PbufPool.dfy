/** The pool of packet buffers: three free lists, and chains of buffers in use. A buffer is known by its number; a pointer to
    a live chain is its position among the live chains. Runs are sequential, so the two lock counters are zero between
    calls. */
module PbufPool {
  import opened MachineWords
  import opened Slices

  const POOL_SIZE: nat := 6
  const BUFSIZE: nat := 128
  const LINK_HLEN: nat := 16
  const IP_HLEN: nat := 20
  const TRANSPORT_HLEN: nat := 20

  datatype Layer = Transport | Ip | Link | Raw

  /** One buffer of a chain with the payload it holds. */
  datatype Buf = Buf(id: int, data: seq<byte>)

  datatype Chain = Chain(bufs: seq<Buf>, totLen: int, ref: int)

  function Offset(l: Layer): nat {
    match l
    case Transport => TRANSPORT_HLEN + IP_HLEN + LINK_HLEN
    case Ip => IP_HLEN + LINK_HLEN
    case Link => 0
    case Raw => 0
  }

  function Ids(bufs: seq<Buf>): (r: seq<int>)
    ensures |r| == |bufs|
  {
    seq(|bufs|, i requires 0 <= i < |bufs| => bufs[i].id)
  }

  /** The bytes a chain carries. */
  function Bytes(bufs: seq<Buf>): seq<byte> {
    if bufs == [] then [] else bufs[0].data + Bytes(bufs[1..])
  }

  /** All buffers of all chains. */
  function Held(chains: seq<Chain>): seq<int> {
    if chains == [] then [] else Ids(chains[0].bufs) + Held(chains[1..])
  }

  predicate Sound(c: Chain) {
    && c.bufs != [] && c.totLen == |Bytes(c.bufs)| && c.ref > 0
    && forall j :: 0 <= j < |c.bufs| ==> |c.bufs[j].data| <= BUFSIZE
  }

  lemma {:induction false} BytesConcat(a: seq<Buf>, b: seq<Buf>)
    ensures Bytes(a + b) == Bytes(a) + Bytes(b)
  {
    if a == [] {
      assert a + b == b;
    } else {
      assert (a + b)[1..] == a[1..] + b;
      BytesConcat(a[1..], b);
    }
  }

  lemma {:induction false} HeldConcat(a: seq<Chain>, b: seq<Chain>)
    ensures Held(a + b) == Held(a) + Held(b)
  {
    if a == [] {
      assert a + b == b;
    } else {
      assert (a + b)[1..] == a[1..] + b;
      HeldConcat(a[1..], b);
    }
  }

  lemma BytesOne(b: Buf)
    ensures Bytes([b]) == b.data
  {
    assert [b][1..] == [];
    assert b.data + [] == b.data;
  }

  /** The chain around its buffer at `i`. */
  lemma BytesSplit(bufs: seq<Buf>, i: nat)
    requires i < |bufs|
    ensures Bytes(bufs) == Bytes(bufs[..i]) + bufs[i].data + Bytes(bufs[i + 1..])
    ensures Bytes(bufs[..i + 1]) == Bytes(bufs[..i]) + bufs[i].data
  {
    hide Bytes;
    var a, b := bufs[..i], bufs[i + 1..];
    BytesAround(a, bufs[i], b);
    CutAround(bufs, i);
    TakeOne(bufs, i);
  }

  lemma BytesAround(a: seq<Buf>, x: Buf, b: seq<Buf>)
    ensures Bytes(a + [x] + b) == Bytes(a) + x.data + Bytes(b)
    ensures Bytes(a + [x]) == Bytes(a) + x.data
  {
    hide Bytes;
    BytesConcat(a + [x], b);
    BytesConcat(a, [x]);
    BytesOne(x);
  }

  lemma HeldOne(c: Chain)
    ensures Held([c]) == Ids(c.bufs)
  {
    assert [c][1..] == [];
    assert Ids(c.bufs) + [] == Ids(c.bufs);
  }

  /** Taking the chain at `k` apart from the others. */
  lemma HeldSplit(chains: seq<Chain>, k: nat)
    requires k < |chains|
    ensures multiset(Held(chains)) == multiset(Held(chains[..k] + chains[k + 1..])) + multiset(Ids(chains[k].bufs))
  {
    hide Held, Ids;
    var a, b := chains[..k], chains[k + 1..];
    HeldAround(a, chains[k], b);
    CutAround(chains, k);
  }

  lemma HeldAround(a: seq<Chain>, c: Chain, b: seq<Chain>)
    ensures multiset(Held(a + [c] + b)) == multiset(Held(a + b)) + multiset(Ids(c.bufs))
  {
    hide Held, Ids;
    HeldConcat(a + [c], b);
    HeldConcat(a, [c]);
    HeldConcat(a, b);
    HeldOne(c);
  }

  lemma HeldReplaced(chains: seq<Chain>, k: nat, c: Chain)
    requires k < |chains|
    ensures multiset(Held(chains[k := c])) == multiset(Held(chains[..k] + chains[k + 1..])) + multiset(Ids(c.bufs))
  {
    var d := chains[k := c];
    HeldSplit(d, k);
    assert d[..k] == chains[..k] && d[k + 1..] == chains[k + 1..];
  }

  // ---- Carving a size into buffers -----------------------------------------------------

  /** How much of `size` the first buffer takes, with `off` bytes kept free in front. */
  function FirstLen(size: nat, off: nat): nat
    requires off <= BUFSIZE
  {
    if size > BUFSIZE - off then BUFSIZE - off else size
  }

  /** How many more full buffers `rest` bytes need. */
  function More(rest: int): nat
    decreases rest
  {
    if rest <= 0 then 0 else 1 + More(rest - BUFSIZE)
  }

  function Needed(size: nat, off: nat): nat
    requires off <= BUFSIZE
  {
    1 + More(size - FirstLen(size, off))
  }

  /** The count is the size in whole buffers. */
  lemma {:induction false} MoreMeans(rest: int)
    ensures rest > 0 ==> BUFSIZE * (More(rest) - 1) < rest <= BUFSIZE * More(rest)
    ensures rest <= 0 ==> More(rest) == 0
    decreases rest
  {
    if rest > 0 {
      MoreMeans(rest - BUFSIZE);
    }
  }

  function Zeros(n: nat): (r: seq<byte>)
    ensures |r| == n
  {
    seq(n, _ => 0)
  }

  /** `bufs` holds `size` bytes: the first buffer and every other one but the last is full. */
  predicate Carved(bufs: seq<Buf>, size: nat, off: nat)
    requires off <= BUFSIZE
  {
    && |bufs| > 0
    && |bufs[0].data| == FirstLen(size, off)
    && forall j :: 1 <= j < |bufs| ==> |bufs[j].data| == Share(size - FirstLen(size, off) - BUFSIZE * (j - 1))
  }

  function Share(rest: int): int {
    if rest > BUFSIZE then BUFSIZE else rest
  }

  /** A chain takes the least number of buffers that hold the size and the room kept free in front. */
  lemma NeededMeans(size: nat, off: nat)
    requires off <= BUFSIZE
    ensures size + off <= BUFSIZE * Needed(size, off) && Needed(size, off) >= 1
    ensures Needed(size, off) > 1 ==> BUFSIZE * (Needed(size, off) - 1) < size + off
  {
    MoreMeans(size - FirstLen(size, off));
  }

  /** The room in front stays free, and every buffer before the last one is full. */
  lemma CarvedMeans(bufs: seq<Buf>, size: nat, off: nat)
    requires off <= BUFSIZE && Carved(bufs, size, off) && |bufs| == Needed(size, off)
    ensures off + |bufs[0].data| <= BUFSIZE && (|bufs| > 1 ==> off + |bufs[0].data| == BUFSIZE)
    ensures forall j | 1 <= j < |bufs| :: |bufs[j].data| <= BUFSIZE && (j < |bufs| - 1 ==> |bufs[j].data| == BUFSIZE)
  {
    MoreMeans(size - FirstLen(size, off));
  }

  /** A chain of which `rsize` bytes are still to be allotted. */
  ghost predicate Partial(bufs: seq<Buf>, rsize: int, size: nat, off: nat)
    requires off < BUFSIZE
  {
    && Carved(bufs, size, off)
    && |bufs| + More(rsize) == Needed(size, off)
    && size - rsize == FirstLen(size, off) + BUFSIZE * (|bufs| - 1)
    && |Bytes(bufs)| == (if rsize > 0 then size - rsize else size)
    && forall j :: 0 <= j < |bufs| ==> |bufs[j].data| <= BUFSIZE
  }

  lemma PartialFirst(b: Buf, size: nat, off: nat)
    requires off < BUFSIZE && |b.data| == FirstLen(size, off)
    ensures Partial([b], size - FirstLen(size, off), size, off)
  {
    BytesOne(b);
  }

  lemma PartialMore(bufs: seq<Buf>, b: Buf, rsize: int, size: nat, off: nat)
    requires off < BUFSIZE && Partial(bufs, rsize, size, off) && rsize > 0 && |b.data| == Share(rsize)
    ensures Partial(bufs + [b], rsize - BUFSIZE, size, off)
    ensures Ids(bufs + [b]) == Ids(bufs) + [b.id]
  {
    hide Bytes;
    BytesOne(b);
    BytesConcat(bufs, [b]);
  }

  lemma PartialDone(bufs: seq<Buf>, rsize: int, size: nat, off: nat)
    requires off < BUFSIZE && Partial(bufs, rsize, size, off)
    ensures |bufs| <= Needed(size, off) && (rsize > 0 ==> |bufs| < Needed(size, off))
    ensures rsize <= 0 ==> |bufs| == Needed(size, off) && |Bytes(bufs)| == size && Carved(bufs, size, off)
    ensures rsize <= 0 ==> Sound(Chain(bufs, size, 1))
  {
  }

  function Reversed(s: seq<int>): (r: seq<int>)
    ensures |r| == |s|
  {
    seq(|s|, i requires 0 <= i < |s| => s[|s| - 1 - i])
  }

  lemma {:induction false} ReversedSame(s: seq<int>)
    ensures multiset(Reversed(s)) == multiset(s)
  {
    if s != [] {
      ReversedSame(s[1..]);
      assert Reversed(s) == Reversed(s[1..]) + [s[0]];
      assert s == [s[0]] + s[1..];
    }
  }

  // ---- What is kept ---------------------------------------------------------------------

  function Everything(): seq<int> {
    seq(POOL_SIZE, i => i)
  }

  ghost predicate Inv(free: seq<int>, chains: seq<Chain>) {
    && multiset(free) + multiset(Held(chains)) == multiset(Everything())
    && forall k :: 0 <= k < |chains| ==> Sound(chains[k])
  }

  /** A buffer is either free or in one place of one chain. */
  lemma OnePlace(free: seq<int>, chains: seq<Chain>, id: int)
    requires Inv(free, chains)
    ensures 0 <= id < POOL_SIZE ==> multiset(free)[id] + multiset(Held(chains))[id] == 1
    ensures !(0 <= id < POOL_SIZE) ==> id !in free && id !in Held(chains)
  {
    OnceEach(POOL_SIZE, id);
    assert multiset(Everything())[id] == multiset(free)[id] + multiset(Held(chains))[id];
  }

  lemma {:induction false} OnceEach(n: nat, id: int)
    ensures multiset(seq(n, i => i))[id] == if 0 <= id < n then 1 else 0
  {
    if n > 0 {
      OnceEach(n - 1, id);
      assert seq(n, i => i) == seq(n - 1, i => i) + [n - 1];
    }
  }

  lemma {:induction false} BytesBound(bufs: seq<Buf>)
    requires forall j :: 0 <= j < |bufs| ==> |bufs[j].data| <= BUFSIZE
    ensures |Bytes(bufs)| <= BUFSIZE * |bufs|
  {
    if bufs != [] {
      BytesBound(bufs[1..]);
    }
  }

  /** Together two chains hold no more than the whole pool: their lengths add up in sixteen bits. */
  lemma JoinFits(free: seq<int>, chains: seq<Chain>, h: nat, t: nat)
    requires Inv(free, chains) && h < |chains| && t < |chains| && h != t
    ensures Sound(chains[h]) && Sound(chains[t])
    ensures 0 <= chains[h].totLen + chains[t].totLen <= BUFSIZE * POOL_SIZE
  {
    BytesBound(chains[h].bufs);
    BytesBound(chains[t].bufs);
    HeldSplit(chains, h);
    var rest := Without(chains, h);
    var t' := if t < h then t else t - 1;
    assert rest[t'] == chains[t];
    HeldSplit(rest, t');
    assert |multiset(Held(chains))| <= |multiset(Everything())|;
    assert |Everything()| == POOL_SIZE;
  }

  function Without(chains: seq<Chain>, k: nat): seq<Chain>
    requires k < |chains|
  {
    chains[..k] + chains[k + 1..]
  }

  lemma AllocKeeps(free: seq<int>, chains: seq<Chain>, c: Chain, n: nat)
    requires Inv(free, chains) && Sound(c) && n <= |free| && Ids(c.bufs) == free[..n]
    ensures Inv(free[n..], chains + [c])
  {
    hide Sound, Bytes, Held, Ids, Everything;
    HeldConcat(chains, [c]);
    HeldOne(c);
    assert free == free[..n] + free[n..];
  }

  lemma RefKeeps(free: seq<int>, chains: seq<Chain>, k: nat, ref: int)
    requires Inv(free, chains) && k < |chains| && ref > 0
    ensures Inv(free, chains[k := chains[k].(ref := ref)])
  {
    hide Held, Ids, Bytes, Everything;
    HeldSplit(chains, k);
    HeldReplaced(chains, k, chains[k].(ref := ref));
  }

  lemma FreeKeeps(free: seq<int>, chains: seq<Chain>, k: nat)
    requires Inv(free, chains) && k < |chains|
    ensures Inv(free + Reversed(Ids(chains[k].bufs)), Without(chains, k))
  {
    hide Sound, Bytes, Held, Ids, Everything, Reversed;
    HeldSplit(chains, k);
    ReversedSame(Ids(chains[k].bufs));
    var rest := Without(chains, k);
    assert forall i :: 0 <= i < |rest| ==> rest[i] == chains[if i < k then i else i + 1];
  }

  /** Replacing a chain by one over a prefix of its buffers, and freeing the others. */
  lemma ShrinkKeeps(free: seq<int>, chains: seq<Chain>, k: nat, c: Chain, n: nat)
    requires Inv(free, chains) && k < |chains| && Sound(c)
    requires n <= |chains[k].bufs| && Ids(c.bufs) == Ids(chains[k].bufs)[..n]
    ensures Inv(free + Reversed(Ids(chains[k].bufs)[n..]), chains[k := c])
  {
    hide Sound, Bytes, Held, Ids, Everything, Reversed;
    HeldSplit(chains, k);
    HeldReplaced(chains, k, c);
    var ids := Ids(chains[k].bufs);
    ReversedSame(ids[n..]);
    assert ids == ids[..n] + ids[n..];
  }

  lemma JoinKeeps(free: seq<int>, chains: seq<Chain>, h: nat, t: nat)
    requires Inv(free, chains) && h < |chains| && t < |chains| && h != t
    ensures Tied(chains[h], chains[t], Joined(chains[h], chains[t]))
    ensures Inv(free, Without(chains[h := Joined(chains[h], chains[t])], t))
  {
    hide Sound, Bytes, Held, Ids, Everything, Joined, Tied;
    var c := Joined(chains[h], chains[t]);
    var d := chains[h := c];
    JoinFits(free, chains, h, t);
    JoinTies(chains[h], chains[t]);
    HeldSplit(chains, h);
    HeldReplaced(chains, h, c);
    HeldSplit(d, t);
    var rest := Without(d, t);
    assert d[t] == chains[t];
    Cancel(multiset(Held(rest)), multiset(Held(chains)), multiset(Ids(chains[t].bufs)));
    assert forall i :: 0 <= i < |rest| ==> rest[i] == d[if i < t then i else i + 1];
  }

  lemma Cancel(a: multiset<int>, b: multiset<int>, c: multiset<int>)
    requires a + c == b + c
    ensures a == b
  {
    assert a == (a + c) - c && b == (b + c) - c;
  }

  lemma JoinTies(h: Chain, t: Chain)
    requires Sound(h) && Sound(t) && h.totLen + t.totLen <= BUFSIZE * POOL_SIZE
    ensures Sound(Joined(h, t)) && Tied(h, t, Joined(h, t))
    ensures multiset(Ids(Joined(h, t).bufs)) == multiset(Ids(h.bufs)) + multiset(Ids(t.bufs))
  {
    hide Bytes;
    BytesConcat(h.bufs, t.bufs);
    assert Ids(h.bufs + t.bufs) == Ids(h.bufs) + Ids(t.bufs);
  }

  function Joined(h: Chain, t: Chain): Chain {
    Chain(h.bufs + t.bufs, Wrap16(h.totLen + t.totLen), h.ref)
  }

  /** Stepping over a buffer that stays whole leaves another one, as the size is below the total. */
  lemma StepOver(c: Chain, i: nat, rsize: int, size: nat)
    requires Sound(c) && size < c.totLen && i < |c.bufs|
    requires |Bytes(c.bufs[..i])| + rsize == size && rsize > |c.bufs[i].data|
    ensures i + 1 < |c.bufs| && |Bytes(c.bufs[..i + 1])| + rsize - |c.bufs[i].data| == size
  {
    BytesSplit(c.bufs, i);
    hide Bytes;
    assert c.bufs[..|c.bufs|] == c.bufs;
  }

  /** The buffer on which the new end falls, and how much of it stays. */
  method FindEnd(c: Chain, size: nat) returns (i: nat, rsize: nat)
    requires Sound(c) && size < c.totLen
    ensures i < |c.bufs| && |Bytes(c.bufs[..i])| + rsize == size
    ensures rsize <= |c.bufs[i].data| && (i > 0 ==> rsize > 0)
  {
    rsize, i := size, 0;
    while rsize > |c.bufs[i].data|
      invariant i < |c.bufs|
      invariant |Bytes(c.bufs[..i])| + rsize == size
      invariant i > 0 ==> rsize > 0
      decreases |c.bufs| - i
    {
      StepOver(c, i, rsize, size);
      rsize, i := rsize - |c.bufs[i].data|, i + 1;
    }
  }

  lemma ShortenedIs(c: Chain, i: nat, rsize: nat, size: nat)
    requires Sound(c) && size < c.totLen && i < |c.bufs|
    requires |Bytes(c.bufs[..i])| + rsize == size && rsize <= |c.bufs[i].data| && (i > 0 ==> rsize > 0)
    ensures var d := Chain(c.bufs[..i] + [Buf(c.bufs[i].id, c.bufs[i].data[..rsize])], size, c.ref);
      Shrunk(c, d, size) && Sound(d) && Ids(d.bufs) == Ids(c.bufs)[..i + 1]
  {
    hide Bytes;
    var last := Buf(c.bufs[i].id, c.bufs[i].data[..rsize]);
    var bufs := c.bufs[..i] + [last];
    BytesSplit(c.bufs, i);
    BytesConcat(c.bufs[..i], [last]);
    BytesOne(last);
    assert Bytes(bufs) == Bytes(c.bufs)[..size];
  }

  /** A new chain over the first free buffers. */
  ghost predicate Made(c: Chain, free: seq<int>, size: nat, off: nat)
    requires off <= BUFSIZE
  {
    && Needed(size, off) <= |free| && Ids(c.bufs) == free[..Needed(size, off)]
    && Carved(c.bufs, size, off) && |Bytes(c.bufs)| == size == c.totLen && c.ref == 1
  }

  ghost predicate Shrunk(c: Chain, d: Chain, size: nat) {
    && d.totLen == size <= |Bytes(c.bufs)| && Bytes(d.bufs) == Bytes(c.bufs)[..size] && d.ref == c.ref
    && 0 < |d.bufs| <= |c.bufs| && Ids(d.bufs) == Ids(c.bufs)[..|d.bufs|]
    && (|d.bufs| == 1 || d.bufs[|d.bufs| - 1].data != [])
  }

  /** The chain at `k` holds its first `size` bytes, and the buffers past them are free again. */
  ghost predicate Resized(free: seq<int>, chains: seq<Chain>, k: nat, size: nat, free': seq<int>, chains': seq<Chain>)
    requires k < |chains|
  {
    && |chains'| == |chains| && chains' == chains[k := chains'[k]]
    && Shrunk(chains[k], chains'[k], size)
    && free' == free + Reversed(Ids(chains[k].bufs)[|chains'[k].bufs|..])
  }

  lemma ResizedBy(free: seq<int>, chains: seq<Chain>, k: nat, size: nat, i: nat, rsize: nat)
    requires Inv(free, chains) && k < |chains| && size < chains[k].totLen && i < |chains[k].bufs|
    requires |Bytes(chains[k].bufs[..i])| + rsize == size
    requires rsize <= |chains[k].bufs[i].data| && (i > 0 ==> rsize > 0)
    ensures var c := chains[k];
      var d := Chain(c.bufs[..i] + [Buf(c.bufs[i].id, c.bufs[i].data[..rsize])], size, c.ref);
      var free' := free + Reversed(Ids(c.bufs)[i + 1..]);
      Inv(free', chains[k := d]) && Resized(free, chains, k, size, free', chains[k := d])
  {
    var c := chains[k];
    assert Sound(c);
    hide Sound, Bytes, Ids, Inv, Reversed, Shrunk;
    var d := Chain(c.bufs[..i] + [Buf(c.bufs[i].id, c.bufs[i].data[..rsize])], size, c.ref);
    ShortenedIs(c, i, rsize, size);
    ShrinkKeeps(free, chains, k, d, i + 1);
  }

  ghost predicate Tied(h: Chain, t: Chain, c: Chain) {
    Bytes(c.bufs) == Bytes(h.bufs) + Bytes(t.bufs) && c.totLen == h.totLen + t.totLen && c.ref == h.ref
    && Ids(c.bufs) == Ids(h.bufs) + Ids(t.bufs)
  }

  class Pool {
    var pool: seq<int>
    var allocCache: seq<int>
    var freeCache: seq<int>
    var chains: seq<Chain>

    /** The free buffers, in the order they are handed out. */
    ghost function Free(): seq<int>
      reads this
    {
      allocCache + pool
    }

    ghost predicate Valid()
      reads this
    {
      freeCache == [] && Inv(Free(), chains)
    }

    constructor ()
      ensures Valid() && chains == [] && Free() == Everything()
    {
      pool, allocCache, freeCache, chains := Everything(), [], [], [];
      new;
      assert Free() == Everything();
    }

    /** One buffer: from the cache first, then from the pool. */
    method Take() returns (ok: bool, id: int)
      modifies `pool, `allocCache
      ensures ok <==> old(Free()) != []
      ensures ok ==> [id] + Free() == old(Free())
      ensures !ok ==> Free() == old(Free()) == []
    {
      if allocCache != [] {
        ok, id := true, allocCache[0];
        allocCache := allocCache[1..];
      } else if pool != [] {
        ok, id := true, pool[0];
        pool := pool[1..];
      } else {
        ok, id := false, 0;
      }
    }

    /** A chain of pool buffers for `size` bytes. It fails exactly when too few buffers are free, and then loses none. */
    method Alloc(l: Layer, size: uint16) returns (ok: bool)
      requires Valid()
      modifies `pool, `allocCache, `chains
      ensures Valid()
      ensures ok <==> Needed(size, Offset(l)) <= |old(Free())|
      ensures !ok ==> chains == old(chains) && Free() == old(Free())
      ensures ok ==> |chains| == |old(chains)| + 1 && chains[..|old(chains)|] == old(chains)
      ensures ok ==> Made(chains[|old(chains)|], old(Free()), size, Offset(l)) && Free() == old(Free())[Needed(size, Offset(l))..]
    {
      hide Inv, Reversed, Partial, Carved, Bytes, Sound;
      var off := Offset(l);
      var got, id := Take();
      if !got {
        return false;
      }
      var first := FirstLen(size, off);
      var bufs := [Buf(id, Zeros(first))];
      var rsize := size - first;
      PartialFirst(bufs[0], size, off);
      while rsize > 0
        invariant Ids(bufs) + Free() == old(Free()) && chains == old(chains)
        invariant Partial(bufs, rsize, size, off)
        decreases rsize
      {
        PartialDone(bufs, rsize, size, off);
        label Before:
        got, id := Take();
        if !got {
          // The partial chain goes to the end of the cache, which is empty.
          allocCache := allocCache + Ids(bufs);
          assert Free() == Ids(bufs) == old(Free());
          return false;
        }
        var b := Buf(id, Zeros(Share(rsize)));
        PartialMore(bufs, b, rsize, size, off);
        assert Ids(bufs) + ([id] + Free()) == Ids(bufs) + old@Before(Free());
        bufs := bufs + [b];
        rsize := rsize - BUFSIZE;
      }
      PartialDone(bufs, rsize, size, off);
      ghost var n := |bufs|;
      assert old(Free())[..n] == Ids(bufs) && old(Free())[n..] == Free();
      AllocKeeps(old(Free()), chains, Chain(bufs, size, 1), n);
      chains := chains + [Chain(bufs, size, 1)];
      return true;
    }

    /** Each buffer is pushed on the front of the free cache. */
    method Push(ids: seq<int>)
      modifies `freeCache
      ensures freeCache == Reversed(ids) + old(freeCache)
    {
      var i := 0;
      while i < |ids|
        invariant 0 <= i <= |ids|
        invariant freeCache == Reversed(ids[..i]) + old(freeCache)
      {
        assert Reversed(ids[..i + 1]) == [ids[i]] + Reversed(ids[..i]);
        freeCache := [ids[i]] + freeCache;
        i := i + 1;
      }
      assert ids[..|ids|] == ids;
    }

    /** The free cache is appended to the pool. */
    method Refresh()
      modifies `pool, `freeCache
      ensures pool == old(pool) + old(freeCache) && freeCache == []
    {
      assert pool + [] == pool;
      if freeCache != [] {
        pool := pool + freeCache;
        freeCache := [];
      }
    }

    /** Buffers given back go to the end of the pool, last one first. */
    method Release(ids: seq<int>)
      requires freeCache == []
      modifies `pool, `freeCache
      ensures freeCache == [] && Free() == old(Free()) + Reversed(ids)
    {
      Push(ids);
      Refresh();
      assert pool == old(pool) + Reversed(ids);
    }

    method Ref(k: nat)
      requires Valid() && k < |chains|
      modifies `chains
      ensures Valid()
      ensures chains == old(chains)[k := old(chains)[k].(ref := old(chains)[k].ref + 1)]
    {
      var c := chains[k].(ref := chains[k].ref + 1);
      RefKeeps(Free(), chains, k, c.ref);
      chains := chains[k := c];
    }

    /** The last reference frees every buffer of the chain. */
    method FreeChain(k: nat) returns (count: nat)
      requires Valid() && k < |chains|
      modifies `pool, `freeCache, `chains
      ensures Valid()
      ensures old(chains)[k].ref > 1 ==>
        count == 0 && Free() == old(Free()) && chains == old(chains)[k := old(chains)[k].(ref := old(chains)[k].ref - 1)]
      ensures old(chains)[k].ref == 1 ==>
        && count == |old(chains)[k].bufs| && chains == Without(old(chains), k)
        && Free() == old(Free()) + Reversed(Ids(old(chains)[k].bufs))
    {
      assert chains[k].ref > 0 by { assert Sound(chains[k]); }
      hide Inv, Sound, Reversed, Ids;
      var c := chains[k].(ref := chains[k].ref - 1);
      count := 0;
      if c.ref == 0 {
        FreeKeeps(Free(), chains, k);
        Release(Ids(c.bufs));
        chains := Without(chains, k);
        count := |c.bufs|;
      } else {
        RefKeeps(Free(), chains, k, c.ref);
        chains := chains[k := c];
      }
    }

    /** A shorter size keeps the byte prefix and frees the buffers past it; a longer one changes nothing. */
    method Realloc(k: nat, size: uint16)
      requires Valid() && k < |chains|
      modifies `pool, `freeCache, `chains
      ensures Valid()
      ensures old(chains)[k].totLen <= size ==> chains == old(chains) && Free() == old(Free())
      ensures old(chains)[k].totLen > size ==> Resized(old(Free()), old(chains), k, size, Free(), chains)
    {
      assert Sound(chains[k]);
      hide Sound, Bytes, Ids, Inv, Reversed, Resized;
      if chains[k].totLen > size {
        var c := chains[k];
        var i, rsize := FindEnd(c, size);
        var last := Buf(c.bufs[i].id, c.bufs[i].data[..rsize]);
        ResizedBy(Free(), chains, k, size, i, rsize);
        Release(Ids(c.bufs)[i + 1..]);
        chains := chains[k := Chain(c.bufs[..i] + [last], size, c.ref)];
      }
    }

    /** The second chain, which nothing else refers to, becomes the tail of the first. */
    method Join(h: nat, t: nat)
      requires Valid() && h < |chains| && t < |chains| && h != t && chains[t].ref == 1
      modifies `chains
      ensures Valid()
      ensures exists c: Chain :: Tied(old(chains)[h], old(chains)[t], c) && chains == Without(old(chains)[h := c], t)
    {
      hide Inv, Tied;
      JoinKeeps(Free(), chains, h, t);
      var c := Joined(chains[h], chains[t]);
      chains := Without(chains[h := c], t);
    }
  }
}
