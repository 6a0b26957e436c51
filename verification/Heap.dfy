/** The first-fit heap: a doubly linked list of blocks threaded through one array of bytes, with coalescing on release
    and a hint to the lowest free block. Offsets are integers and the headers a map from offsets. */
module Heap {
  import opened MachineWords
  import opened Slices

  const MEM_SIZE: int := 5120000
  const MEM_ALIGNMENT: int := 4
  const HDR: int := 12
  const MIN_SIZE: int := 12

  datatype Header = Header(next: int, prev: int, used: bool)

  type Ram = map<int, Header>

  datatype Ptr = Null | At(off: int)

  /** Offsets of block headers from 0 to the end marker, each with room for a header before the next. */
  predicate Offsets(offs: seq<int>) {
    && |offs| >= 2 && offs[0] == 0 && offs[|offs| - 1] == MEM_SIZE
    && (forall i, j | 0 <= i < j < |offs| :: offs[i] + HDR <= offs[j])
  }

  /** Following `next` meets exactly `offs`, and `prev` inverts it before the end marker. */
  ghost predicate Linked(m: Ram, offs: seq<int>) {
    && (forall i | 0 <= i < |offs| :: offs[i] in m)
    && (forall i, j | 0 <= i && j == i + 1 && j < |offs| :: m[offs[i]].next == offs[j])
    && (forall i, j | 0 <= i && j == i + 1 && j < |offs| - 1 :: m[offs[j]].prev == offs[i])
  }

  /** The blocks partition the array, and the last one is free. */
  ghost predicate Chain(m: Ram, offs: seq<int>) {
    && Offsets(offs)
    && Linked(m, offs)
    && m[0].prev == 0
    && m[MEM_SIZE].used && m[MEM_SIZE].next == MEM_SIZE
    && !m[offs[|offs| - 2]].used
  }

  /** No two neighbours are both free, except perhaps where one of them is at `k`. */
  ghost predicate Coalesced(m: Ram, offs: seq<int>, k: int) {
    forall i, j | 0 <= i && j == i + 1 && j < |offs| - 1 && i != k && j != k :: offs[i] in m && offs[j] in m ==> m[offs[i]].used || m[offs[j]].used
  }

  /** `lfree` is a live free block. */
  ghost predicate Hint(m: Ram, offs: seq<int>, lfree: int) {
    lfree in offs && lfree in m && !m[lfree].used
  }

  /** No free block lies below `lfree`. */
  ghost predicate Lowest(m: Ram, offs: seq<int>, lfree: int) {
    forall o | o in offs && o in m && o < lfree :: m[o].used
  }

  predicate Aligned(offs: seq<int>) {
    forall o | o in offs :: o % MEM_ALIGNMENT == 0
  }

  /** The live allocations: the offset of each used block, and the size of its payload. */
  ghost function Live(m: Ram, offs: seq<int>): map<int, int> {
    map o | o in offs && IsLive(m, o) :: m[o].next - o - HDR
  }

  predicate IsLive(m: Ram, o: int) {
    o in m && m[o].used && o != MEM_SIZE
  }

  /** Live payloads, and the headers of all blocks, are pairwise disjoint and inside the array. */
  lemma PayloadsDisjoint(m: Ram, offs: seq<int>, o: int, p: int)
    requires Chain(m, offs) && o in Live(m, offs) && p in offs && p != o
    ensures 0 <= o + HDR <= o + HDR + Live(m, offs)[o] <= MEM_SIZE
    ensures p + HDR <= o || o + HDR + Live(m, offs)[o] <= p
    ensures p in Live(m, offs) ==>
              p + HDR + Live(m, offs)[p] <= o || o + HDR + Live(m, offs)[o] <= p
  {
    var i :| 0 <= i < |offs| && offs[i] == o;
    var j :| 0 <= j < |offs| && offs[j] == p;
    assert offs[i] != offs[|offs| - 1];
    assert m[offs[i]].next == offs[i + 1];
    if j + 1 < |offs| {
      assert m[offs[j]].next == offs[j + 1];
    }
  }

  /** When nothing is allocated the heap is one free block. */
  lemma AllFreed(m: Ram, offs: seq<int>)
    requires Chain(m, offs) && Coalesced(m, offs, -1) && Live(m, offs) == map[]
    ensures offs == [0, MEM_SIZE]
  {
    assert offs[0] !in Live(m, offs) && offs[1] !in Live(m, offs);
  }

  // ---- Splitting and merging blocks ---------------------------------------------

  /** Cutting the block at `o` at `p`: the new block is free and the old one gets the flag `used`. */
  function SplitAt(m: Ram, o: int, p: int, used: bool): Ram
    requires o in m && m[o].next in m
  {
    var m1 := m[p := Header(m[o].next, o, false)][o := m[o].(next := p, used := used)];
    if m[o].next != MEM_SIZE then m1[m[o].next := m[m[o].next].(prev := p)] else m1
  }

  /** Absorbing the successor of the block at `o`. */
  function Absorb(m: Ram, o: int, mid: int): Ram
    requires o in m && mid in m && m[mid].next in m
  {
    var hi := m[mid].next;
    var m1 := m[o := m[o].(next := hi)];
    m1[hi := m1[hi].(prev := o)]
  }

  function Inserted(offs: seq<int>, k: nat, p: int): seq<int>
    requires k < |offs|
  {
    offs[..k + 1] + [p] + offs[k + 1..]
  }

  function Removed(offs: seq<int>, k: nat): seq<int>
    requires k < |offs|
  {
    offs[..k] + offs[k + 1..]
  }

  lemma InsertedOffsets(offs: seq<int>, k: nat, p: int)
    requires Offsets(offs) && k < |offs| - 1 && offs[k] + HDR <= p && p + HDR <= offs[k + 1]
    ensures Offsets(Inserted(offs, k, p)) && p !in offs
    ensures forall o :: o in Inserted(offs, k, p) <==> o in offs || o == p
  {
    InsertedMembers(offs, k, p);
    assert forall i | 0 <= i < |offs| :: if i <= k then offs[i] <= offs[k] else offs[k + 1] <= offs[i];
  }

  lemma InsertedMembers(offs: seq<int>, k: nat, p: int)
    requires k < |offs|
    ensures forall o :: o in Inserted(offs, k, p) <==> o in offs || o == p
  {
    CutAt(offs, k + 1);
  }

  lemma RemovedOffsets(offs: seq<int>, k: nat)
    requires Offsets(offs) && 0 < k < |offs| - 1
    ensures Offsets(Removed(offs, k))
    ensures forall o :: o in Removed(offs, k) <==> o in offs && o != offs[k]
  {
    CutAround(offs, k);
  }

  /** The links after a split, whatever else the two maps hold. */
  lemma SplitLinked(m: Ram, m': Ram, offs: seq<int>, k: nat, p: int)
    requires Linked(m, offs) && Offsets(offs) && k < |offs| - 1 && p !in offs
    requires forall i | 0 <= i < |offs| && i != k && i != k + 1 :: offs[i] in m' && m'[offs[i]] == m[offs[i]]
    requires p in m' && m'[p].next == offs[k + 1] && m'[p].prev == offs[k]
    requires offs[k] in m' && m'[offs[k]].next == p && m'[offs[k]].prev == m[offs[k]].prev
    requires offs[k + 1] in m' && m'[offs[k + 1]].next == m[offs[k + 1]].next
    requires k + 1 < |offs| - 1 ==> m'[offs[k + 1]].prev == p
    ensures Linked(m', Inserted(offs, k, p))
  {
    hide Offsets;
    var r := Inserted(offs, k, p);
    assert forall i | 0 <= i < |r| :: r[i] == if i <= k then offs[i] else if i == k + 1 then p else offs[i - 1];
    forall i, j | 0 <= i && j == i + 1 && j < |r|
      ensures m'[r[i]].next == r[j]
    {
      var i' := if i <= k then i else i - 1;
      assert i' + 1 < |offs| ==> m[offs[i']].next == offs[i' + 1];
    }
    forall i, j | 0 <= i && j == i + 1 && j < |r| - 1
      ensures m'[r[j]].prev == r[i]
    {
      var j' := if j <= k then j else j - 1;
      assert 0 < j' < |offs| - 1 ==> m[offs[j']].prev == offs[j' - 1];
    }
  }

  lemma SplitChain(m: Ram, offs: seq<int>, k: nat, p: int, used: bool)
    requires Chain(m, offs) && k < |offs| - 1
    requires offs[k] + HDR <= p && p + HDR <= offs[k + 1]
    ensures m[offs[k]].next == offs[k + 1] && p !in offs
    ensures Chain(SplitAt(m, offs[k], p, used), Inserted(offs, k, p))
  {
    hide Offsets;
    InsertedOffsets(offs, k, p);
    DistinctOffsets(offs);
    assert m[offs[k]].next == offs[k + 1];
    var m', r := SplitAt(m, offs[k], p, used), Inserted(offs, k, p);
    SplitLinked(m, m', offs, k, p);
    assert r[|r| - 2] == if k + 1 == |offs| - 1 then p else offs[|offs| - 2];
  }

  lemma DistinctOffsets(offs: seq<int>)
    requires Offsets(offs)
    ensures forall i, j | 0 <= i < j < |offs| :: offs[i] < offs[j]
    ensures offs[0] == 0 && offs[|offs| - 1] == MEM_SIZE && |offs| >= 2
  {
  }

  lemma AbsorbLinked(m: Ram, m': Ram, offs: seq<int>, k: nat)
    requires Linked(m, offs) && Offsets(offs) && 0 < k < |offs| - 1
    requires forall i | 0 <= i < |offs| && i != k - 1 && i != k && i != k + 1 :: offs[i] in m' && m'[offs[i]] == m[offs[i]]
    requires offs[k - 1] in m' && m'[offs[k - 1]].next == offs[k + 1] && m'[offs[k - 1]].prev == m[offs[k - 1]].prev
    requires offs[k + 1] in m' && m'[offs[k + 1]].next == m[offs[k + 1]].next && m'[offs[k + 1]].prev == offs[k - 1]
    ensures Linked(m', Removed(offs, k))
  {
    hide Offsets;
    var r := Removed(offs, k);
    assert forall i | 0 <= i < |r| :: r[i] == if i < k then offs[i] else offs[i + 1];
    forall i, j | 0 <= i && j == i + 1 && j < |r|
      ensures m'[r[i]].next == r[j]
    {
      var i' := if i < k then i else i + 1;
      assert i' + 1 < |offs| ==> m[offs[i']].next == offs[i' + 1];
    }
    forall i, j | 0 <= i && j == i + 1 && j < |r| - 1
      ensures m'[r[j]].prev == r[i]
    {
      var j' := if j < k then j else j + 1;
      assert 0 < j' < |offs| - 1 ==> m[offs[j']].prev == offs[j' - 1];
    }
  }

  lemma AbsorbChain(m: Ram, offs: seq<int>, k: nat)
    requires Chain(m, offs) && 0 < k < |offs| - 1 && !m[offs[k - 1]].used
    ensures m[offs[k]].next == offs[k + 1]
    ensures Chain(Absorb(m, offs[k - 1], offs[k]), Removed(offs, k))
  {
    hide Offsets;
    RemovedOffsets(offs, k);
    DistinctOffsets(offs);
    assert m[offs[k]].next == offs[k + 1];
    var m', r := Absorb(m, offs[k - 1], offs[k]), Removed(offs, k);
    AbsorbLinked(m, m', offs, k);
    assert r[|r| - 2] == if k == |offs| - 2 then offs[k - 1] else offs[|offs| - 2];
  }

  // ---- What splitting, releasing and merging do to the allocations ----------------

  /** The two heaps agree about the block at `o`. */
  ghost predicate Agree(m: Ram, offs: seq<int>, m': Ram, offs': seq<int>, o: int) {
    && (o in offs && IsLive(m, o) <==> o in offs' && IsLive(m', o))
    && (o in offs && IsLive(m, o) && IsLive(m', o) ==> m'[o].next == m[o].next)
  }

  lemma LiveAgrees(m: Ram, offs: seq<int>, m': Ram, offs': seq<int>, x: int)
    requires forall o | o != x :: Agree(m, offs, m', offs', o)
    ensures Live(m', offs') - {x} == Live(m, offs) - {x}
  {
    var a, b := Live(m', offs') - {x}, Live(m, offs) - {x};
    forall o
      ensures o in a <==> o in b
      ensures o in a ==> a[o] == b[o]
    {
      if o != x {
        assert Agree(m, offs, m', offs', o);
      }
    }
  }

  lemma LiveExcept(a: map<int, int>, b: map<int, int>, x: int)
    requires a - {x} == b - {x}
    ensures x in a ==> a == b[x := a[x]]
    ensures x !in a ==> a == b - {x}
    ensures x !in a && x !in b ==> a == b
  {
    assert forall o | o != x :: (o in a <==> o in a - {x}) && (o in b <==> o in b - {x});
    assert forall o | o != x && o in a :: (a - {x})[o] == a[o];
    assert forall o | o != x && o in b :: (b - {x})[o] == b[o];
  }

  lemma LiveAt(m: Ram, offs: seq<int>, o: int)
    requires o in offs && IsLive(m, o)
    ensures o in Live(m, offs) && Live(m, offs)[o] == m[o].next - o - HDR
  {
  }

  lemma SplitAgrees(m: Ram, offs: seq<int>, offs': seq<int>, o: int, p: int)
    requires o in m && m[o].next in m && o != p && o != m[o].next && p != m[o].next && p !in offs
    requires forall x :: x in offs' <==> x in offs || x == p
    ensures forall x | x != o :: Agree(m, offs, SplitAt(m, o, p, true), offs', x)
  {
  }

  lemma SplitLive(m: Ram, offs: seq<int>, k: nat, p: int)
    requires Chain(m, offs) && k < |offs| - 1
    requires offs[k] + HDR <= p && p + HDR <= offs[k + 1] && m[offs[k]].next == offs[k + 1]
    ensures Live(SplitAt(m, offs[k], p, true), Inserted(offs, k, p)) == Live(m, offs)[offs[k] := p - offs[k] - HDR]
  {
    hide Offsets, Linked, Inserted, Agree, Live;
    InsertedOffsets(offs, k, p);
    BlockFacts(m, offs, k);
    var m', r, o := SplitAt(m, offs[k], p, true), Inserted(offs, k, p), offs[k];
    SplitAgrees(m, offs, r, o, p);
    LiveAt(m', r, o);
    LiveAgrees(m, offs, m', r, o);
    LiveExcept(Live(m', r), Live(m, offs), o);
  }

  lemma BlockFacts(m: Ram, offs: seq<int>, k: nat)
    requires Chain(m, offs) && k < |offs| - 1
    ensures 0 <= offs[k] && offs[k] + HDR <= offs[k + 1] <= MEM_SIZE
    ensures offs[k] in m && offs[k + 1] in m && m[offs[k]].next == offs[k + 1]
    ensures k > 0 ==> m[offs[k]].prev == offs[k - 1] && offs[k - 1] + HDR <= offs[k]
    ensures k == 0 ==> m[offs[k]].prev == offs[k] == 0
    ensures k + 1 < |offs| - 1 <==> offs[k + 1] != MEM_SIZE
  {
    if k > 0 {
      assert offs[0] + HDR <= offs[k] && offs[k - 1] + HDR <= offs[k];
    }
    if k + 1 < |offs| - 1 {
      assert offs[k + 1] + HDR <= offs[|offs| - 1];
    }
  }

  lemma AbsorbAgrees(m: Ram, offs: seq<int>, offs': seq<int>, o: int, mid: int)
    requires o in m && mid in m && m[mid].next in m && o != mid && o != m[mid].next && mid != m[mid].next
    requires !m[o].used && !m[mid].used
    requires forall x :: x in offs' <==> x in offs && x != mid
    ensures forall x | x != mid :: Agree(m, offs, Absorb(m, o, mid), offs', x)
  {
  }

  lemma AbsorbLive(m: Ram, offs: seq<int>, k: nat)
    requires Chain(m, offs) && 0 < k < |offs| - 1 && !m[offs[k - 1]].used && !m[offs[k]].used && m[offs[k]].next == offs[k + 1]
    ensures Live(Absorb(m, offs[k - 1], offs[k]), Removed(offs, k)) == Live(m, offs)
  {
    hide Offsets, Linked, Removed, Agree, Live;
    RemovedOffsets(offs, k);
    BlockFacts(m, offs, k);
    BlockFacts(m, offs, k - 1);
    var m', r := Absorb(m, offs[k - 1], offs[k]), Removed(offs, k);
    AbsorbAgrees(m, offs, r, offs[k - 1], offs[k]);
    LiveAgrees(m, offs, m', r, offs[k]);
    LiveMembers(m, offs);
    LiveMembers(m', r);
    LiveExcept(Live(m', r), Live(m, offs), offs[k]);
  }

  lemma LiveMembers(m: Ram, offs: seq<int>)
    ensures forall o :: o in Live(m, offs) <==> o in offs && IsLive(m, o)
  {
  }

  /** Taking a block off: only its flag changes. */
  lemma ReleaseKeeps(m: Ram, offs: seq<int>, k: nat)
    requires Chain(m, offs) && k < |offs| - 1 && m[offs[k]].used && Coalesced(m, offs, -1)
    ensures var m' := m[offs[k] := m[offs[k]].(used := false)];
            && Chain(m', offs) && Coalesced(m', offs, k)
            && Live(m', offs) == Live(m, offs) - {offs[k]}
  {
    var m' := m[offs[k] := m[offs[k]].(used := false)];
    DistinctOffsets(offs);
    hide Offsets;
    assert Linked(m', offs);
    hide Live;
    assert Coalesced(m', offs, k);
    ReleaseLive(m, offs, offs[k]);
  }

  lemma ReleaseLive(m: Ram, offs: seq<int>, o: int)
    requires o in m && o in offs
    ensures Live(m[o := m[o].(used := false)], offs) == Live(m, offs) - {o}
  {
    var m' := m[o := m[o].(used := false)];
    forall x | x != o
      ensures Agree(m, offs, m', offs, x)
    {
    }
    LiveAgrees(m, offs, m', offs, o);
    LiveExcept(Live(m', offs), Live(m, offs), o);
  }

  /** The part of the no-two-free-neighbours rule that concerns the block at `k` and its successor. */
  predicate PairOk(m: Ram, offs: seq<int>, k: int) {
    0 <= k && k + 1 < |offs| - 1 && offs[k] in m && offs[k + 1] in m ==> m[offs[k]].used || m[offs[k + 1]].used
  }

  lemma CoalescedAt(m: Ram, offs: seq<int>, k: nat)
    requires Coalesced(m, offs, k) && PairOk(m, offs, k - 1) && PairOk(m, offs, k)
    ensures Coalesced(m, offs, -1)
  {
  }

  lemma PairFrom(m: Ram, offs: seq<int>, i: nat, k: int)
    requires Coalesced(m, offs, k) && i != k && i + 1 != k
    ensures PairOk(m, offs, i)
  {
  }

  /** Absorbing the successor at `k` leaves only the pairs around the absorbing block in doubt. */
  lemma AbsorbCoalesced(m: Ram, m': Ram, offs: seq<int>, k: nat, hole: int)
    requires 0 < k < |offs| - 1 && k - 1 <= hole <= k && Coalesced(m, offs, hole)
    requires forall i | 0 <= i < |offs| :: offs[i] in m && offs[i] in m' && m'[offs[i]].used == m[offs[i]].used
    ensures Coalesced(m', Removed(offs, k), k - 1)
    ensures PairOk(m, offs, k) && m[offs[k]].used == m[offs[k - 1]].used ==> PairOk(m', Removed(offs, k), k - 1)
    ensures PairOk(m, offs, k - 2) ==> PairOk(m', Removed(offs, k), k - 2)
  {
    var r := Removed(offs, k);
    assert forall i | 0 <= i < |r| :: r[i] == if i < k then offs[i] else offs[i + 1];
    forall i, j | 0 <= i && j == i + 1 && j < |r| - 1 && i != k - 1 && j != k - 1
      ensures m'[r[i]].used || m'[r[j]].used
    {
      PairFrom(m, offs, if i < k then i else i + 1, hole);
    }
  }

  lemma AbsorbFlags(m: Ram, offs: seq<int>, k: nat)
    requires Chain(m, offs) && 0 < k < |offs| - 1 && m[offs[k]].next == offs[k + 1]
    ensures var m' := Absorb(m, offs[k - 1], offs[k]);
            forall i | 0 <= i < |offs| :: offs[i] in m && offs[i] in m' && m'[offs[i]].used == m[offs[i]].used
  {
  }

  lemma SplitFlags(m: Ram, offs: seq<int>, k: nat, p: int)
    requires Chain(m, offs) && k < |offs| - 1 && m[offs[k]].next == offs[k + 1] && p !in offs
    ensures var m' := SplitAt(m, offs[k], p, true);
            && p in m' && !m'[p].used && offs[k] in m' && m'[offs[k]].used
            && forall i | 0 <= i < |offs| && i != k :: offs[i] in m && offs[i] in m' && m'[offs[i]].used == m[offs[i]].used
  {
    DistinctOffsets(offs);
  }

  /** A split by an allocation keeps the rule; a split of a used block leaves only the new block in doubt. */
  lemma SplitCoalesced(m: Ram, m': Ram, offs: seq<int>, k: nat, p: int)
    requires Coalesced(m, offs, -1) && k < |offs| - 1 && offs[k] in m
    requires p in m' && offs[k] in m' && m'[offs[k]].used
    requires forall i | 0 <= i < |offs| && i != k :: offs[i] in m && offs[i] in m' && m'[offs[i]].used == m[offs[i]].used
    ensures Coalesced(m', Inserted(offs, k, p), k + 1)
    ensures !m[offs[k]].used ==> Coalesced(m', Inserted(offs, k, p), -1)
  {
    var r := Inserted(offs, k, p);
    assert forall i | 0 <= i < |r| :: r[i] == if i <= k then offs[i] else if i == k + 1 then p else offs[i - 1];
    forall i, j | 0 <= i && j == i + 1 && j < |r| - 1 && i != k + 1 && j != k + 1
      ensures m'[r[i]].used || m'[r[j]].used
    {
      PairFrom(m, offs, if i <= k then i else i - 1, -1);
    }
    if !m[offs[k]].used {
      PairFrom(m, offs, k, -1);
      CoalescedAt(m', r, k + 1);
    }
  }

  // ---- The heap ---------------------------------------------------------------------

  /** The size as mem_malloc rounds it, in 32-bit arithmetic. */
  function Rounded(size: uint32): uint32 {
    if size % MEM_ALIGNMENT != 0 then Wrap(size + (MEM_ALIGNMENT - (size + HDR) % MEM_ALIGNMENT)) else size
  }

  /** Rounding gives the least aligned size that covers the request, except that the three largest requests wrap to 0. */
  lemma RoundedMeans(size: uint32)
    ensures Rounded(size) % MEM_ALIGNMENT == 0
    ensures size <= Rounded(size) <==> size <= WORD - MEM_ALIGNMENT
    ensures size <= WORD - MEM_ALIGNMENT ==> Rounded(size) < size + MEM_ALIGNMENT
    ensures size > WORD - MEM_ALIGNMENT ==> Rounded(size) == 0
  {
  }

  /** A free block with room for the size and for the header of what is left over. */
  predicate Fits(m: Ram, o: int, size: int) {
    o in m && !m[o].used && m[o].next - (o + HDR) >= size + HDR
  }

  lemma BelowHint(m: Ram, offs: seq<int>, lfree: int, size: int)
    ensures Lowest(m, offs, lfree) ==> forall o | o in offs && o < lfree :: !Fits(m, o, size)
  {
  }

  lemma OutOfRange(m: Ram, offs: seq<int>, x: int)
    requires Chain(m, offs) && !(0 <= x < MEM_SIZE)
    ensures x - HDR !in Live(m, offs) && Live(m, offs) - {x - HDR} == Live(m, offs)
  {
    LiveInRange(m, offs);
  }

  /** The position of a live allocation. */
  ghost function IndexOfLive(m: Ram, offs: seq<int>, o: int): (k: nat)
    requires Chain(m, offs) && o in Live(m, offs)
    ensures k < |offs| - 1 && offs[k] == o && o in m && m[o].used
    ensures Live(m, offs)[o] == m[o].next - o - HDR
  {
    var k :| 0 <= k < |offs| && offs[k] == o;
    k
  }

  lemma LiveInRange(m: Ram, offs: seq<int>)
    requires Chain(m, offs)
    ensures forall o | o in Live(m, offs) :: 0 <= o + HDR < MEM_SIZE
  {
    forall o | o in Live(m, offs)
      ensures 0 <= o + HDR < MEM_SIZE
    {
      var k := IndexOfLive(m, offs, o);
      assert k < |offs| - 2;
      assert offs[k] + HDR <= offs[k + 1] && offs[k + 1] + HDR <= offs[|offs| - 1];
    }
  }

  lemma NoneBetween(m: Ram, offs: seq<int>, k: nat)
    requires Chain(m, offs) && k < |offs| - 1
    ensures forall o | o in offs :: o <= offs[k] || offs[k + 1] <= o
  {
    forall o | o in offs
      ensures o <= offs[k] || offs[k + 1] <= o
    {
      var j :| 0 <= j < |offs| && offs[j] == o;
    }
  }

  /** Cutting down a used block. */
  lemma CutKeeps(m: Ram, offs: seq<int>, k: nat, p: int)
    requires Chain(m, offs) && Coalesced(m, offs, -1) && k < |offs| - 1 && offs[k] in m && m[offs[k]].used
    requires offs[k] + HDR <= p && p + HDR <= offs[k + 1] && m[offs[k]].next == offs[k + 1] && offs[k + 1] in m
    ensures var m', r := SplitAt(m, offs[k], p, true), Inserted(offs, k, p);
            && Chain(m', r) && Coalesced(m', r, k + 1)
            && Live(m', r) == Live(m, offs)[offs[k] := p - offs[k] - HDR]
            && k + 1 < |r| - 1 && r[k] == offs[k] && r[k + 1] == p
            && (forall o :: o in r <==> o in offs || o == p)
            && p in m' && !m'[p].used && m'[p].next == offs[k + 1] && offs[k] in m' && m'[offs[k]].used
            && (forall o | o in offs && o != offs[k] :: o in m' && o in m && m'[o].used == m[o].used)
  {
    hide Chain, Coalesced, Live;
    var m', r := SplitAt(m, offs[k], p, true), Inserted(offs, k, p);
    ChainOffsets(m, offs);
    InsertedOffsets(offs, k, p);
    SplitChain(m, offs, k, p, true);
    SplitLive(m, offs, k, p);
    SplitFlags(m, offs, k, p);
    SplitCoalesced(m, m', offs, k, p);
  }

  lemma InRam(m: Ram, offs: seq<int>)
    requires Chain(m, offs)
    ensures forall o | o in offs :: o in m
  {
  }

  lemma EndDoesNotFit(m: Ram, offs: seq<int>, size: int)
    requires Chain(m, offs)
    ensures !Fits(m, offs[|offs| - 1], size)
  {
  }

  lemma EndNotBlock(m: Ram, offs: seq<int>, k: nat)
    requires Chain(m, offs) && k < |offs| - 1
    ensures offs[k] < MEM_SIZE && offs[k] in offs
  {
  }

  /** Splitting a free block for an allocation. */
  lemma TakeKeeps(m: Ram, offs: seq<int>, k: nat, p: int)
    requires Chain(m, offs) && Coalesced(m, offs, -1) && k < |offs| - 1 && offs[k] in m && !m[offs[k]].used
    requires offs[k] + HDR <= p && p + HDR <= offs[k + 1] && m[offs[k]].next == offs[k + 1] && offs[k + 1] in m
    ensures var m', r := SplitAt(m, offs[k], p, true), Inserted(offs, k, p);
            && Chain(m', r) && Coalesced(m', r, -1)
            && Live(m', r) == Live(m, offs)[offs[k] := p - offs[k] - HDR]
            && k < |r| - 1 && r[k] == offs[k]
            && (forall o :: o in r <==> o in offs || o == p)
            && p in m' && !m'[p].used && m'[offs[k]].used
            && (forall o | o in offs && o != offs[k] :: o in m' && o in m && m'[o].used == m[o].used)
  {
    hide Chain, Coalesced, Live;
    var m', r := SplitAt(m, offs[k], p, true), Inserted(offs, k, p);
    ChainOffsets(m, offs);
    InsertedOffsets(offs, k, p);
    SplitChain(m, offs, k, p, true);
    SplitLive(m, offs, k, p);
    SplitFlags(m, offs, k, p);
    SplitCoalesced(m, m', offs, k, p);
  }

  lemma PairAtUsed(m: Ram, offs: seq<int>, k: nat)
    requires k + 1 < |offs| && (offs[k + 1] in m ==> m[offs[k + 1]].used || k + 1 == |offs| - 1)
    ensures PairOk(m, offs, k)
  {
  }

  lemma PairBefore(m: Ram, offs: seq<int>, k: nat)
    requires k > 0 && k < |offs| && offs[k - 1] in m ==> m[offs[k - 1]].used
    ensures PairOk(m, offs, k - 1)
  {
  }

  /** The block before `k` absorbs the block at `k`; the pairs in doubt were those around `hole`. */
  lemma AbsorbStep(m: Ram, offs: seq<int>, k: nat, hole: int)
    requires Chain(m, offs) && 0 < k < |offs| - 1 && k - 1 <= hole <= k && Coalesced(m, offs, hole)
    requires offs[k - 1] in m && offs[k] in m && offs[k + 1] in m
    requires !m[offs[k - 1]].used && !m[offs[k]].used && m[offs[k]].next == offs[k + 1]
    ensures var m', r := Absorb(m, offs[k - 1], offs[k]), Removed(offs, k);
            && |r| == |offs| - 1 && (forall i | 0 <= i < k :: r[i] == offs[i])
            && Chain(m', r) && Live(m', r) == Live(m, offs)
            && Coalesced(m', r, k - 1)
            && (hole == k - 1 || PairOk(m, offs, k) ==> PairOk(m', r, k - 1))
            && (hole == k && PairOk(m, offs, k) ==> Coalesced(m', r, -1))
            && (forall o | o in r :: o in offs && o != offs[k] && o in m' && m'[o].used == m[o].used)
            && (forall o | o in offs && o != offs[k] :: o in r)
  {
    hide Live, Coalesced, PairOk, Chain, Absorb;
    var m', r := Absorb(m, offs[k - 1], offs[k]), Removed(offs, k);
    AbsorbChain(m, offs, k);
    AbsorbLive(m, offs, k);
    AbsorbFlags(m, offs, k);
    AbsorbCoalesced(m, m', offs, k, hole);
    ChainOffsets(m, offs);
    RemovedOffsets(offs, k);
    if hole == k - 1 {
      PairFrom(m, offs, k, hole);
    }
    if hole == k && PairOk(m, offs, k) {
      if k >= 2 {
        PairFrom(m, offs, k - 2, hole);
      } else {
        PairNone(m, offs, k - 2);
      }
      CoalescedAt(m', r, k - 1);
    }
  }

  lemma PairNone(m: Ram, offs: seq<int>, k: int)
    requires k < 0
    ensures PairOk(m, offs, k)
  {
  }

  lemma ChainOffsets(m: Ram, offs: seq<int>)
    requires Chain(m, offs)
    ensures Offsets(offs)
  {
  }

  class Allocator {
    var m: Ram
    var lfree: int
    ghost var offs: seq<int>
    /** A call has returned without giving the semaphore back; every later call waits for it. */
    var held: bool

    ghost predicate Valid()
      reads this
    {
      Chain(m, offs) && Coalesced(m, offs, -1) && Hint(m, offs, lfree)
    }

    /** mem_init */
    constructor ()
      ensures Valid() && Lowest(m, offs, lfree) && Aligned(offs) && !held
      ensures Live(m, offs) == map[] && offs == [0, MEM_SIZE]
    {
      m := map[0 := Header(MEM_SIZE, 0, false), MEM_SIZE := Header(MEM_SIZE, MEM_SIZE, true)];
      lfree, held := 0, false;
      offs := [0, MEM_SIZE];
    }

    /** The forward half of plug_holes: a free block absorbs a free successor. */
    method PlugForward(mem: int, ghost k: nat)
      requires Chain(m, offs) && Coalesced(m, offs, k) && Hint(m, offs, lfree)
      requires k < |offs| - 1 && offs[k] == mem && !m[mem].used
      modifies `m, `offs, `lfree
      ensures Chain(m, offs) && Coalesced(m, offs, k) && Hint(m, offs, lfree) && PairOk(m, offs, k)
      ensures k < |offs| - 1 && offs[k] == mem && !m[mem].used
      ensures lfree == (if old(lfree) == old(m)[mem].next then mem else old(lfree))
      ensures k > 0 ==> offs[k - 1] == old(offs)[k - 1]
      ensures Live(m, offs) == old(Live(m, offs))
      ensures lfree <= old(lfree) && forall o | o in offs :: o in old(offs) && m[o].used == old(m)[o].used
    {
      hide Offsets, Linked, Live, Coalesced, PairOk, Removed, Absorb;
      BlockFacts(m, offs, k);
      var nmem := m[mem].next;
      if mem != nmem && !m[nmem].used && nmem != MEM_SIZE {
        BlockFacts(m, offs, k + 1);
        AbsorbStep(m, offs, k + 1, k);
        if lfree == nmem {
          lfree := mem;
        }
        m := Absorb(m, mem, nmem);
        offs := Removed(offs, k + 1);
      } else {
        PairAtUsed(m, offs, k);
      }
    }

    /** The backward half: a free predecessor absorbs the block. */
    method PlugBackward(mem: int, ghost k: nat)
      requires Chain(m, offs) && Coalesced(m, offs, k) && Hint(m, offs, lfree) && PairOk(m, offs, k)
      requires k < |offs| - 1 && offs[k] == mem && !m[mem].used
      modifies `m, `offs, `lfree
      ensures Valid()
      ensures k > 0 && old(m)[old(offs)[k - 1]].used ==> m == old(m) && offs == old(offs) && lfree == old(lfree)
      ensures Live(m, offs) == old(Live(m, offs))
      ensures lfree <= old(lfree) && forall o | o in offs :: o in old(offs) && m[o].used == old(m)[o].used
    {
      hide Offsets, Linked, Live, Coalesced, PairOk, Removed, Absorb;
      BlockFacts(m, offs, k);
      if k > 0 {
        BlockFacts(m, offs, k - 1);
      }
      var pmem := m[mem].prev;
      if pmem != mem && !m[pmem].used {
        AbsorbStep(m, offs, k, k);
        if lfree == mem {
          lfree := pmem;
        }
        m := Absorb(m, pmem, mem);
        offs := Removed(offs, k);
      } else {
        PairBefore(m, offs, k);
        CoalescedAt(m, offs, k);
      }
    }

    /** plug_holes */
    method PlugHoles(mem: int, ghost k: nat)
      requires Chain(m, offs) && Coalesced(m, offs, k) && Hint(m, offs, lfree)
      requires k < |offs| - 1 && offs[k] == mem && !m[mem].used
      modifies `m, `offs, `lfree
      ensures Valid()
      ensures k > 0 && old(m)[old(offs)[k - 1]].used ==>
                mem in offs && lfree == if old(lfree) == old(m)[mem].next then mem else old(lfree)
      ensures Live(m, offs) == old(Live(m, offs))
      ensures lfree <= old(lfree) && forall o | o in offs :: o in old(offs) && m[o].used == old(m)[o].used
    {
      hide Chain, Live, Coalesced, PairOk;
      InRam(m, offs);
      PlugForward(mem, k);
      InRam(m, offs);
      assert k > 0 ==> offs[k - 1] in offs;
      PlugBackward(mem, k);
    }

    /** The loop of mem_malloc that moves the hint off a block just taken. */
    method AdvanceHint(ghost i0: nat)
      requires Chain(m, offs) && i0 < |offs| - 1 && offs[i0] == lfree
      modifies this`lfree
      ensures Hint(m, offs, lfree) && old(lfree) <= lfree
      ensures forall o | o in offs && old(lfree) <= o < lfree :: m[o].used
    {
      ghost var i := i0;
      DistinctOffsets(offs);
      hide Offsets;
      while m[lfree].used && lfree != MEM_SIZE
        invariant i0 <= i < |offs| - 1 && offs[i] == lfree && old(lfree) <= lfree
        invariant forall j | i0 <= j < i :: m[offs[j]].used
        decreases |offs| - i
      {
        lfree := m[lfree].next;
        i := i + 1;
      }
      forall o | o in offs && old(lfree) <= o < lfree
        ensures m[o].used
      {
        var j :| 0 <= j < |offs| && offs[j] == o;
      }
    }

    /** The search of mem_malloc: the first block from the hint on that fits. */
    method FirstFit(size: nat) returns (ptr: int, ghost k: nat)
      requires Valid()
      ensures ptr == MEM_SIZE ==> forall o | o in offs && lfree <= o :: !Fits(m, o, size)
      ensures ptr != MEM_SIZE ==>
                && k < |offs| - 1 && offs[k] == ptr && lfree <= ptr && Fits(m, ptr, size)
                && forall o | o in offs && lfree <= o < ptr :: !Fits(m, o, size)
    {
      hide Coalesced, Fits;
      DistinctOffsets(offs);
      hide Offsets;
      ptr := lfree;
      k :| k < |offs| && offs[k] == lfree;
      while ptr < MEM_SIZE
        invariant k < |offs| && offs[k] == ptr && lfree <= ptr
        invariant forall j | 0 <= j < k && lfree <= offs[j] :: !Fits(m, offs[j], size)
        decreases |offs| - k
      {
        if Fits(m, ptr, size) {
          forall o | o in offs && lfree <= o < ptr
            ensures !Fits(m, o, size)
          {
            var j :| 0 <= j < |offs| && offs[j] == o;
          }
          return;
        }
        ptr := m[ptr].next;
        k := k + 1;
      }
      EndDoesNotFit(m, offs, size);
      forall o | o in offs && lfree <= o
        ensures !Fits(m, o, size)
      {
        var j :| 0 <= j < |offs| && offs[j] == o;
      }
    }

    /** mem_malloc */
    method Malloc(size: uint32) returns (r: Ptr)
      requires Valid() && !held
      modifies `m, `offs, `lfree
      ensures Valid()
      ensures r.Null? <==> || size == 0 || Rounded(size) > MEM_SIZE
                           || forall o | o in old(offs) && old(lfree) <= o :: !Fits(old(m), o, Rounded(size))
      ensures old(Lowest(m, offs, lfree)) && 1 <= size <= MEM_SIZE ==>
                (r.Null? <==> forall o | o in old(offs) :: !Fits(old(m), o, Rounded(size)))
      ensures r.Null? ==> m == old(m) && offs == old(offs) && lfree == old(lfree)
      ensures r.At? ==>
                var o := r.off - HDR;
                && o in old(offs) && old(lfree) <= o && Fits(old(m), o, Rounded(size))
                && (forall x | x in old(offs) && old(lfree) <= x < o :: !Fits(old(m), x, Rounded(size)))
                && Live(m, offs) == old(Live(m, offs))[o := Rounded(size)]
      ensures old(Lowest(m, offs, lfree)) ==> Lowest(m, offs, lfree)
      ensures old(Aligned(offs)) ==> Aligned(offs)
    {
      hide Rounded, Chain, Coalesced, Live, Aligned, Hint, Fits, Lowest, Offsets, Linked;
      if size == 0 {
        return Null;
      }
      RoundedMeans(size);
      var sz := Rounded(size);
      if sz > MEM_SIZE {
        return Null;
      }
      BelowHint(m, offs, lfree, sz);
      r := Serve(sz);
    }

    /** The part of mem_malloc that follows the rounding. */
    method Serve(sz: nat) returns (r: Ptr)
      requires Valid() && !held
      modifies `m, `offs, `lfree
      ensures Valid()
      ensures r.Null? <==> forall o | o in old(offs) && old(lfree) <= o :: !Fits(old(m), o, sz)
      ensures r.Null? ==> m == old(m) && offs == old(offs) && lfree == old(lfree)
      ensures r.At? ==>
                var o := r.off - HDR;
                && o in old(offs) && old(lfree) <= o && Fits(old(m), o, sz)
                && (forall x | x in old(offs) && old(lfree) <= x < o :: !Fits(old(m), x, sz))
                && Live(m, offs) == old(Live(m, offs))[o := sz]
      ensures old(Lowest(m, offs, lfree)) ==> Lowest(m, offs, lfree)
      ensures old(Aligned(offs)) && sz % MEM_ALIGNMENT == 0 ==> Aligned(offs)
    {
      hide Chain, Coalesced, Live, Aligned, Hint, Fits, Lowest, Offsets, Linked;
      var ptr, k := FirstFit(sz);
      if ptr == MEM_SIZE {
        return Null;
      }
      EndNotBlock(m, offs, k);
      Take(ptr, sz, k);
      return At(ptr + HDR);
    }

    /** Taking a block that fits: split it, mark it used and move the hint on if it was there. */
    method Take(ptr: int, size: nat, ghost k: nat)
      requires Valid() && k < |offs| - 1 && offs[k] == ptr && Fits(m, ptr, size)
      modifies `m, `offs, `lfree
      ensures Valid()
      ensures Live(m, offs) == old(Live(m, offs))[ptr := size]
      ensures old(Lowest(m, offs, lfree)) ==> Lowest(m, offs, lfree)
      ensures old(Aligned(offs)) && size % MEM_ALIGNMENT == 0 ==> Aligned(offs)
    {
      hide Offsets, Linked, Coalesced, Live, Inserted;
      BlockFacts(m, offs, k);
      var ptr2 := ptr + HDR + size;
      assert ptr in offs;
      TakeKeeps(m, offs, k, ptr2);
      m := SplitAt(m, ptr, ptr2, true);
      offs := Inserted(offs, k, ptr2);
      if ptr == lfree {
        AdvanceHint(k);
      }
    }

    /** mem_free: a null pointer is ignored; one out of range changes no block but keeps the semaphore; any other must belong
        to a live allocation. */
    method Free(rmem: Ptr)
      requires Valid() && (rmem.At? ==> !held)
      requires rmem.At? && 0 <= rmem.off < MEM_SIZE ==> rmem.off - HDR in Live(m, offs)
      modifies this
      ensures Valid()
      ensures held <==> if rmem.Null? then old(held) else !(0 <= rmem.off < MEM_SIZE)
      ensures Live(m, offs) == if rmem.At? then old(Live(m, offs)) - {rmem.off - HDR} else old(Live(m, offs))
      ensures old(Lowest(m, offs, lfree)) ==> Lowest(m, offs, lfree)
      ensures old(Aligned(offs)) ==> Aligned(offs)
    {
      hide Chain, Coalesced, Live, Hint, Lowest, Aligned;
      if rmem.Null? {
        return;
      }
      held := true;
      if rmem.off < 0 || rmem.off >= MEM_SIZE {
        OutOfRange(m, offs, rmem.off);
        return;
      }
      Release(rmem.off - HDR);
      held := false;
    }

    method Release(mem: int)
      requires Valid() && mem in Live(m, offs)
      modifies `m, `offs, `lfree
      ensures Valid()
      ensures Live(m, offs) == old(Live(m, offs)) - {mem}
      ensures old(Lowest(m, offs, lfree)) ==> Lowest(m, offs, lfree)
      ensures old(Aligned(offs)) ==> Aligned(offs)
    {
      hide Chain, Coalesced, Live;
      ghost var k := IndexOfLive(m, offs, mem);
      ReleaseKeeps(m, offs, k);
      m := m[mem := m[mem].(used := false)];
      if mem < lfree {
        lfree := mem;
      }
      assert mem in offs;
      InRam(m, offs);
      PlugHoles(mem, k);
    }

    /** mem_realloc: a live block is cut down when that frees a header and MIN_SIZE more; otherwise no block changes. A pointer
        out of range keeps the semaphore. */
    method Realloc(rmem: Ptr, newsize: uint32) returns (r: Ptr)
      requires Valid() && !held
      requires rmem.At? && (0 <= rmem.off < MEM_SIZE ==> rmem.off - HDR in Live(m, offs))
      requires newsize + HDR + MIN_SIZE < WORD
      modifies this
      ensures Valid() && r == rmem && (held <==> !(0 <= rmem.off < MEM_SIZE))
      ensures var o := rmem.off - HDR;
              var cut := o in old(Live(m, offs)) && newsize + HDR + MIN_SIZE < old(Live(m, offs))[o];
              && Live(m, offs) == (if cut then old(Live(m, offs))[o := newsize] else old(Live(m, offs)))
              && (!cut ==> m == old(m) && offs == old(offs) && lfree == old(lfree))
              && (old(Lowest(m, offs, lfree)) ==>
                    (Lowest(m, offs, lfree) <==> !(cut && o < old(lfree) && old(lfree) != old(m)[o].next)))
              && (old(Aligned(offs)) ==> (Aligned(offs) <==> !(cut && newsize % MEM_ALIGNMENT != 0)))
    {
      hide Chain, Coalesced, Live, Hint, Lowest, Aligned;
      r := rmem;
      held := true;
      if rmem.off < 0 || rmem.off >= MEM_SIZE {
        OutOfRange(m, offs, rmem.off);
        return;
      }
      var ptr := rmem.off - HDR;
      ghost var k := IndexOfLive(m, offs, ptr);
      var size := m[ptr].next - ptr - HDR;
      if Wrap(newsize + HDR + MIN_SIZE) < size {
        CutDown(ptr, newsize, k);
      }
      held := false;
    }

    /** Cutting a used block down to `newsize` and merging what is left over. */
    method CutDown(ptr: int, newsize: nat, ghost k: nat)
      requires Valid() && k < |offs| - 1 && offs[k] == ptr && m[ptr].used
      requires newsize + HDR + MIN_SIZE < m[ptr].next - ptr - HDR
      modifies `m, `offs, `lfree
      ensures Valid()
      ensures Live(m, offs) == old(Live(m, offs))[ptr := newsize]
      ensures old(Lowest(m, offs, lfree)) ==>
                (Lowest(m, offs, lfree) <==> !(ptr < old(lfree) && old(lfree) != old(m)[ptr].next))
      ensures old(Aligned(offs)) ==> (Aligned(offs) <==> newsize % MEM_ALIGNMENT == 0)
    {
      hide Chain, Coalesced, Live;
      BlockFacts(m, offs, k);
      var ptr2 := ptr + HDR + newsize;
      assert ptr in offs;
      CutKeeps(m, offs, k, ptr2);
      NoneBetween(m, offs, k);
      InRam(m, offs);
      m := SplitAt(m, ptr, ptr2, true);
      offs := Inserted(offs, k, ptr2);
      hide SplitAt, Inserted;
      InRam(m, offs);
      PlugHoles(ptr2, k + 1);
      InRam(m, offs);
    }
  }

  lemma StartFits(m: Ram, offs: seq<int>)
    requires Chain(m, offs) && offs == [0, MEM_SIZE] && Live(m, offs) == map[]
    ensures Fits(m, 0, 100) && !Fits(m, MEM_SIZE, 100)
  {
    assert offs[0] !in Live(m, offs);
  }

  /** A heap with one allocation of 100 bytes at its start. */
  lemma FirstTaken(m: Ram, offs: seq<int>, lfree: int)
    requires Chain(m, offs) && Coalesced(m, offs, -1) && Hint(m, offs, lfree) && Live(m, offs) == map[0 := 100]
    ensures offs == [0, 112, MEM_SIZE] && lfree == 112 && Fits(m, 112, 100) && !Fits(m, 0, 100) && !Fits(m, MEM_SIZE, 100)
  {
    assert 0 in Live(m, offs) && Live(m, offs)[0] == 100;
    assert offs[1] == m[0].next == 112;
    assert 112 !in Live(m, offs);
    assert forall o | o in offs && o != 0 :: o !in Live(m, offs);
    assert offs[2] == MEM_SIZE;
  }

  /** Two allocations of 100 bytes leave the hint past both. */
  lemma SecondTaken(m: Ram, offs: seq<int>, lfree: int)
    requires Chain(m, offs) && Hint(m, offs, lfree) && Live(m, offs) == map[0 := 100, 112 := 100]
    ensures 0 in m && m[0].next == 112 && 0 < lfree != 112
  {
    assert 0 in Live(m, offs) && Live(m, offs)[0] == 100 && 112 in Live(m, offs);
  }

  /** Two allocations of 100 bytes, of which the first is cut down to 10: the free rest lies below the hint, and is not
      aligned. */
  method ReallocExample() returns (a: Allocator)
    ensures a.Valid() && Live(a.m, a.offs) == map[0 := 10, 112 := 100]
    ensures !Lowest(a.m, a.offs, a.lfree) && !Aligned(a.offs)
  {
    hide Chain, Coalesced, Hint, Lowest, Aligned, Live;
    RoundedMeans(100);
    a := new Allocator();
    StartFits(a.m, a.offs);
    var p := a.Malloc(100);
    FirstTaken(a.m, a.offs, a.lfree);
    var q := a.Malloc(100);
    SecondTaken(a.m, a.offs, a.lfree);
    var r := a.Realloc(p, 10);
  }

  /** A new heap serves, at its start, exactly the requests that leave room for two headers, and the three largest ones, which
      are rounded to 0. */
  method FirstMalloc(size: uint32) returns (r: Ptr)
    ensures r == if 1 <= size <= MEM_SIZE - 2 * HDR || size > WORD - MEM_ALIGNMENT then At(HDR) else Null
  {
    var h := new Allocator();
    RoundedMeans(size);
    RoundedNear(size);
    hide Rounded, Chain, Coalesced, Live, Hint, Lowest, Aligned;
    OneBlock(h.m, h.offs, h.lfree, Rounded(size));
    r := h.Malloc(size);
  }

  lemma RoundedNear(size: uint32)
    ensures size <= MEM_SIZE - 2 * HDR ==> Rounded(size) <= MEM_SIZE - 2 * HDR
    ensures MEM_SIZE - 2 * HDR < size <= WORD - MEM_ALIGNMENT ==> MEM_SIZE - 2 * HDR < Rounded(size)
  {
  }

  lemma OneBlock(m: Ram, offs: seq<int>, lfree: int, size: int)
    requires Chain(m, offs) && Hint(m, offs, lfree) && offs == [0, MEM_SIZE]
    ensures lfree == 0 && !Fits(m, MEM_SIZE, size) && (Fits(m, 0, size) <==> size <= MEM_SIZE - 2 * HDR)
  {
    assert offs[0] in m && offs[1] in m && m[offs[0]].next == offs[1];
  }
}
