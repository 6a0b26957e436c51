/** Fixed-width unsigned words, and the serial-number comparisons that TCP uses
    on 32-bit sequence numbers (section 3.3 of RFC 793). */
module MachineWords {

  type byte = x: int | 0 <= x < 0x100
  type uint16 = x: int | 0 <= x < 0x1_0000
  type uint32 = x: int | 0 <= x < 0x1_0000_0000

  const WORD: int := 0x1_0000_0000
  const HALF: int := 0x8000_0000

  /** Truncation to 32 bits. */
  function Wrap(x: int): uint32 {
    x % 0x1_0000_0000
  }

  /** Truncation to 16 bits. */
  function Wrap16(x: int): uint16 {
    x % 0x1_0000
  }

  /** Bitwise "and" of two words. */
  function And(a: uint32, b: uint32): (r: uint32)
    ensures r <= a && r <= b
  {
    if a == 0 || b == 0 then 0 else (if a % 2 == 1 && b % 2 == 1 then 1 else 0) + 2 * And(a / 2, b / 2)
  }

  /** Bit `k` of a word, the least significant one first. */
  function Bit(x: nat, k: nat): nat {
    if k == 0 then x % 2 else Bit(x / 2, k - 1)
  }

  function Power(k: nat): nat {
    if k == 0 then 1 else 2 * Power(k - 1)
  }

  lemma {:induction false} AndBits(a: uint32, b: uint32, k: nat)
    ensures Bit(And(a, b), k) == if Bit(a, k) == 1 && Bit(b, k) == 1 then 1 else 0
    decreases k
  {
    AndLow(a, b);
    if k > 0 {
      AndBits(a / 2, b / 2, k - 1);
    }
  }

  /** Two words have the same bits where the mask has ones. */
  ghost predicate SameUnder(a: uint32, b: uint32, m: uint32) {
    forall k :: Bit(m, k) == 1 ==> Bit(a, k) == Bit(b, k)
  }

  /** That is what comparing them under the mask decides. */
  lemma {:induction false} AndAgrees(a: uint32, b: uint32, m: uint32)
    ensures And(a, m) == And(b, m) <==> SameUnder(a, b, m)
    decreases m
  {
    if m == 0 {
      forall k: nat ensures Bit(m, k) == 0 { ZeroBits(k); }
    } else {
      AndAgrees(a / 2, b / 2, m / 2);
      AndHalves(a, b, m);
      SameHalves(a, b, m);
    }
  }

  lemma AndHalves(a: uint32, b: uint32, m: uint32)
    ensures And(a, m) == And(b, m) <==> (m % 2 == 1 ==> a % 2 == b % 2) && And(a / 2, m / 2) == And(b / 2, m / 2)
  {
    AndLow(a, m);
    AndLow(b, m);
  }

  lemma AndLow(a: uint32, m: uint32)
    ensures And(a, m) % 2 == (if a % 2 == 1 && m % 2 == 1 then 1 else 0) && And(a, m) / 2 == And(a / 2, m / 2)
  {
  }

  lemma SameHalves(a: uint32, b: uint32, m: uint32)
    ensures SameUnder(a, b, m) <==> (m % 2 == 1 ==> a % 2 == b % 2) && SameUnder(a / 2, b / 2, m / 2)
  {
    if SameUnder(a, b, m) {
      forall k: nat | Bit(m / 2, k) == 1
        ensures Bit(a / 2, k) == Bit(b / 2, k)
      {
        assert Bit(m, k + 1) == 1;
        assert Bit(a, k + 1) == Bit(b, k + 1);
      }
      assert Bit(m, 0) == 1 ==> Bit(a, 0) == Bit(b, 0);
    } else {
      var k: nat :| Bit(m, k) == 1 && Bit(a, k) != Bit(b, k);
      assert k > 0 ==> Bit(m / 2, k - 1) == 1 && Bit(a / 2, k - 1) != Bit(b / 2, k - 1);
    }
  }

  lemma {:induction false} ZeroBits(k: nat)
    ensures Bit(0, k) == 0
  {
    if k > 0 {
      ZeroBits(k - 1);
    }
  }

  /** Adding a power of two to a word whose bit is clear sets that bit and no other. */
  lemma {:induction false} SetBit(x: nat, j: nat, k: nat)
    requires Bit(x, j) == 0
    ensures Bit(x + Power(j), k) == if k == j then 1 else Bit(x, k)
  {
    if j > 0 && k > 0 {
      SetBit(x / 2, j - 1, k - 1);
      assert (x + Power(j)) / 2 == x / 2 + Power(j - 1);
    }
  }

  /** A 32-bit word read as a two's-complement integer. */
  function Signed(x: uint32): int {
    if x < HALF then x else x - WORD
  }

  predicate SeqLt(a: uint32, b: uint32) {
    Signed(Wrap(a - b)) < 0
  }

  predicate SeqLeq(a: uint32, b: uint32) {
    Signed(Wrap(a - b)) <= 0
  }

  predicate SeqGt(a: uint32, b: uint32) {
    Signed(Wrap(a - b)) > 0
  }

  predicate SeqGeq(a: uint32, b: uint32) {
    Signed(Wrap(a - b)) >= 0
  }

  /** The unbounded sequence number nearest to `near` that a 32-bit word stands for. */
  function Unwrap(near: int, w: uint32): int {
    near + Signed(Wrap(w - near))
  }

  lemma WrapDifference(x: int, y: int)
    ensures Wrap(Wrap(x) - Wrap(y)) == Wrap(x - y)
    ensures Wrap(Wrap(x) - y) == Wrap(x - y)
    ensures Wrap(x - Wrap(y)) == Wrap(x - y)
    ensures Wrap(Wrap(x) + y) == Wrap(x + y)
  {
    var p, q := x / WORD, y / WORD;
    ModShift(x - y, q - p);
    ModShift(x - y, -p);
    ModShift(x - y, q);
    ModShift(x + y, -p);
  }

  lemma WrapSmall(x: uint32)
    ensures Wrap(x) == x
  {
  }

  lemma ModShift(x: int, k: int)
    ensures (x + k * WORD) % WORD == x % WORD
  {
    var r, s := (x + k * WORD) % WORD, x % WORD;
    var m := (x + k * WORD) / WORD - x / WORD - k;
    assert r - s == -m * WORD;
  }

  lemma WrapTurn(x: int)
    ensures Wrap(x + WORD) == Wrap(x)
  {
    ModShift(x, 1);
  }

  /** Unsigned offset arithmetic is exact when the true offset is in range. */
  lemma WrapOffset(x: int, y: int, n: int)
    requires 0 <= x - y + n < WORD
    ensures Wrap(Wrap(x) - Wrap(y) + n) == x - y + n
  {
    ModShift(x - y + n, y / WORD - x / WORD);
  }

  lemma Wrap16Sum(x: int, y: int)
    ensures Wrap16(Wrap16(x) + y) == Wrap16(x + y)
  {
    var k := x / 0x1_0000;
    var m := (x + y) / 0x1_0000 - (Wrap16(x) + y) / 0x1_0000 - k;
    assert Wrap16(Wrap16(x) + y) - Wrap16(x + y) == m * 0x1_0000;
  }

  /** Reading a truncated number as signed brings it back within half a turn of zero. */
  lemma SignedWrap(x: int)
    requires -WORD < x < WORD
    ensures Signed(Wrap(x)) == if x < -HALF then x + WORD else if x < HALF then x else x - WORD
  {
  }

  /** Inside a window of half the number space the four comparisons on truncated
      words are the integer comparisons. */
  lemma SerialAgrees(x: int, y: int)
    requires -HALF <= x - y < HALF
    ensures SeqLt(Wrap(x), Wrap(y)) <==> x < y
    ensures SeqLeq(Wrap(x), Wrap(y)) <==> x <= y
    ensures SeqGt(Wrap(x), Wrap(y)) <==> x > y
    ensures SeqGeq(Wrap(x), Wrap(y)) <==> x >= y
  {
    WrapDifference(x, y);
  }

  /** Within one turn of the number space, "less than" is right exactly inside that window. */
  lemma SerialLtExact(x: int, y: int)
    requires -WORD < x - y < WORD
    ensures (SeqLt(Wrap(x), Wrap(y)) <==> x < y) <==> -HALF <= x - y < HALF
  {
    WrapDifference(x, y);
  }

  lemma UnwrapIsNearest(near: int, w: uint32)
    ensures Wrap(Unwrap(near, w)) == w
    ensures -HALF <= Unwrap(near, w) - near < HALF
    ensures forall x :: Wrap(x) == w && -HALF <= x - near < HALF ==> x == Unwrap(near, w)
  {
    hide Wrap;
    var d := Wrap(w - near);
    WrapDifference(w - near, near);
    WrapTurn(near + d - WORD);
    WrapSmall(w);
    forall x | Wrap(x) == w && -HALF <= x - near < HALF
      ensures x == Unwrap(near, w)
    {
      WrapDifference(x, near);
      SignedWrap(x - near);
    }
  }
}
