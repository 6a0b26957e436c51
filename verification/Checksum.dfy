/** The Internet checksum (sections 1 and 2 of RFC 1071) in the two forms the router carries: over little-endian words of
    chained buffers with byte swapping, and over big-endian words with two folds. Both run on a little-endian host. */
module Checksum {
  import opened MachineWords
  import opened Slices

  // ---- One's-complement arithmetic ---------------------------------------------

  /** A sum brought into 16 bits: zero only for zero, otherwise the residue in 1..65535. */
  function Norm(x: nat): uint16 {
    if x == 0 then 0 else 1 + (x - 1) % 65535
  }

  /** One's-complement addition of two 16-bit words: the carry goes around. */
  function OcAdd(a: uint16, b: uint16): uint16 {
    if a + b < 0x1_0000 then a + b else a + b - 0xFFFF
  }

  function SwapBytes(x: uint16): uint16 {
    (x % 0x100) * 0x100 + x / 0x100
  }

  lemma NormParts(x: nat) returns (q: nat)
    ensures x == Norm(x) + 65535 * q && (Norm(x) == 0 <==> x == 0)
  {
    q := if x == 0 then 0 else (x - 1) / 65535;
  }

  lemma NormShift(x: nat, q: nat)
    requires x > 0
    ensures Norm(x + 65535 * q) == Norm(x)
  {
    var p := NormParts(x);
    var p' := NormParts(x + 65535 * q);
    assert Norm(x) - Norm(x + 65535 * q) == 65535 * (p' - p - q);
  }

  lemma NormAdd(x: nat, y: nat)
    ensures Norm(Norm(x) + y) == Norm(x + y)
  {
    var q := NormParts(x);
    if Norm(x) + y > 0 {
      NormShift(Norm(x) + y, q);
    }
  }

  lemma NormScale(x: nat)
    ensures Norm(0x100 * Norm(x)) == Norm(0x100 * x)
    ensures Norm(0x1_0000 * x) == Norm(x)
  {
    var q := NormParts(x);
    if x > 0 {
      NormShift(0x100 * Norm(x), 0x100 * q);
      NormShift(x, x);
    }
  }

  /** Swapping the bytes of a word multiplies it by 256 in this arithmetic. */
  lemma SwapScales(x: uint16)
    ensures SwapBytes(x) == Norm(0x100 * x)
    ensures SwapBytes(0xFFFF - x) == 0xFFFF - SwapBytes(x)
  {
    hide Norm;
    SwapIs(x);
    SwapComplement(x);
    NormWord(SwapBytes(x));
    if x > 0 {
      NormShift(SwapBytes(x), x / 0x100);
    } else {
      assert 0x100 * x == SwapBytes(x);
    }
  }

  lemma SwapIs(x: uint16)
    ensures 0x100 * x == SwapBytes(x) + 65535 * (x / 0x100) && (SwapBytes(x) == 0 <==> x == 0)
  {
  }

  lemma SwapComplement(x: uint16)
    ensures SwapBytes(0xFFFF - x) == 0xFFFF - SwapBytes(x)
  {
    var lo, hi := x % 0x100, x / 0x100;
    assert (0xFFFF - x) % 0x100 == 0xFF - lo && (0xFFFF - x) / 0x100 == 0xFF - hi;
  }

  lemma NormWord(x: uint16)
    ensures Norm(x) == x
  {
  }

  lemma OcAddIsNorm(a: uint16, b: uint16)
    ensures OcAdd(a, b) == Norm(a + b)
  {
    if a + b > 0xFFFF {
      NormShift(a + b - 0xFFFF, 1);
    }
  }

  // ---- Sums of words -----------------------------------------------------------------

  function Word(lo: int, hi: int): uint16
    requires 0 <= lo < 0x100 && 0 <= hi < 0x100
  {
    lo + 0x100 * hi
  }

  lemma SwapWord(lo: int, hi: int)
    requires 0 <= lo < 0x100 && 0 <= hi < 0x100
    ensures Word(lo, hi) % 0x100 == lo && Word(lo, hi) / 0x100 == hi
    ensures SwapBytes(Word(lo, hi)) == Word(hi, lo)
  {
    var w := lo + 0x100 * hi;
    assert w == 0x100 * (w / 0x100) + w % 0x100;
    assert w / 0x100 == hi;
  }

  /** The little-endian words of a buffer, an odd byte at the end padded with zero. */
  function LeWords(d: seq<byte>): seq<uint16> {
    if d == [] then []
    else if |d| == 1 then [d[0]]
    else [Word(d[0], d[1])] + LeWords(d[2..])
  }

  /** The big-endian words, as they are on the wire. */
  function BeWords(d: seq<byte>): seq<uint16> {
    if d == [] then []
    else if |d| == 1 then [Word(0, d[0])]
    else [Word(d[1], d[0])] + BeWords(d[2..])
  }

  function Sum(w: seq<uint16>): nat {
    if w == [] then 0 else w[0] + Sum(w[1..])
  }

  /** The one's-complement sum of section 1 of RFC 1071. */
  function OcSum(w: seq<uint16>): uint16 {
    if w == [] then 0 else OcAdd(w[0], OcSum(w[1..]))
  }

  /** Adding with the carries saved up and folded at the end is one's-complement addition. */
  lemma {:induction false} FoldedSum(w: seq<uint16>)
    ensures Norm(Sum(w)) == OcSum(w)
  {
    if w != [] {
      FoldedSum(w[1..]);
      OcAddIsNorm(w[0], OcSum(w[1..]));
      NormAdd(Sum(w[1..]), w[0]);
    }
  }

  lemma {:induction false} SumBound(d: seq<byte>)
    ensures Sum(LeWords(d)) <= 0xFFFF * ((|d| + 1) / 2)
    ensures Sum(BeWords(d)) <= 0xFFFF * ((|d| + 1) / 2)
    decreases |d|
  {
    if |d| >= 2 {
      SumBound(d[2..]);
    }
  }

  function LeSum(d: seq<byte>): nat {
    Sum(LeWords(d))
  }

  function BeSum(d: seq<byte>): nat {
    Sum(BeWords(d))
  }

  lemma SumStep(d: seq<byte>)
    ensures d == [] ==> LeSum(d) == 0 && BeSum(d) == 0
    ensures |d| == 1 ==> LeSum(d) == d[0] && BeSum(d) == Word(0, d[0])
    ensures |d| >= 2 ==> LeSum(d) == Word(d[0], d[1]) + LeSum(d[2..]) && BeSum(d) == Word(d[1], d[0]) + BeSum(d[2..])
  {
    if |d| == 1 {
      var le: seq<uint16>, be: seq<uint16> := [d[0]], [Word(0, d[0])];
      assert LeWords(d) == le && BeWords(d) == be;
      assert Sum(le) == le[0] + Sum(le[1..]) && Sum(be) == be[0] + Sum(be[1..]);
    }
  }

  /** The two byte orders differ by a factor of 256 (section 2 (B) of RFC 1071). */
  lemma {:induction false} ByteOrder(d: seq<byte>)
    ensures Norm(0x100 * BeSum(d)) == Norm(LeSum(d))
    decreases |d|
  {
    hide Norm, LeSum, BeSum, SwapBytes;
    SumStep(d);
    if |d| == 1 {
      NormScale(d[0]);
    } else if |d| >= 2 {
      ByteOrder(d[2..]);
      var b: nat, l: nat, be: nat, le: nat := BeSum(d[2..]), LeSum(d[2..]), Word(d[1], d[0]), Word(d[0], d[1]);
      hide Word;
      SwapWord(d[1], d[0]);
      SwapScales(be);
      NormAdd(0x100 * be, 0x100 * b);
      NormAdd(0x100 * b, le);
      NormAdd(l, le);
    }
  }

  /** The weight of a sum that starts `n` bytes into a buffer. */
  function Shifted(n: nat, sum: nat): nat {
    if n % 2 == 0 then sum else 0x100 * sum
  }

  lemma ShiftedSteps(n: nat, sum: nat)
    ensures Shifted(0, sum) == sum && Shifted(1, sum) == 0x100 * sum
    ensures n >= 2 ==> Shifted(n, sum) == Shifted(n - 2, sum)
  {
  }

  lemma ShiftedEven(n: nat, sum: nat)
    requires n % 2 == 0
    ensures Shifted(n, sum) == sum
  {
  }

  /** Two buffers end to end: after an odd one, the words of the next are shifted by a byte. */
  lemma {:induction false} SumConcat(a: seq<byte>, b: seq<byte>)
    ensures Norm(LeSum(a + b)) == Norm(LeSum(a) + Shifted(|a|, LeSum(b)))
    decreases |a|
  {
    hide Norm, LeSum, Word, Shifted;
    SumStep(a);
    ShiftedSteps(|a|, LeSum(b));
    if a == [] {
      assert a + b == b;
    } else if |a| == 1 {
      OddConcat(a[0], b);
      assert a == [a[0]];
    } else {
      SumConcat(a[2..], b);
      var s := a + b;
      DropFromFirst(a, b, 2);
      SumStep(s);
      var w := Word(a[0], a[1]);
      NormAdd(LeSum(a[2..] + b), w);
      NormAdd(LeSum(a[2..]) + Shifted(|a|, LeSum(b)), w);
    }
  }

  lemma {:induction false} OddConcat(x: byte, b: seq<byte>)
    ensures Norm(LeSum([x] + b)) == Norm(x + 0x100 * LeSum(b))
    decreases |b|
  {
    hide Norm, LeSum;
    SumStep(b);
    SumStep([x] + b);
    if b == [] {
      assert [x] + b == [x];
    } else {
      assert ([x] + b)[2..] == b[1..];
      var k := Word(x, b[0]);
      if |b| == 1 {
        SumStep([]);
      } else {
        OddConcat(b[1], b[2..]);
        assert b[1..] == [b[1]] + b[2..];
        var t := LeSum(b[2..]);
        NormAdd(LeSum(b[1..]), k);
        NormAdd(b[1] + 0x100 * t, k);
        CarryByte(k + 0x100 * t, b[1]);
      }
    }
  }

  lemma CarryByte(y: nat, z: nat)
    ensures Norm(y + z) == Norm(y + 0x1_0000 * z)
  {
    NormScale(z);
    NormAdd(z, y);
    NormAdd(0x1_0000 * z, y);
  }

  // ---- The code: little-endian words, chained buffers -------------------------------

  /** chksum: the accumulator stays below 2^32 for buffers of 16-bit length. */
  method Chksum(data: seq<byte>) returns (acc: uint32)
    requires |data| < 0x1_0000
    ensures acc == LeSum(data) <= 0xFFFF * 0x8000
  {
    hide LeSum, Word, BeSum;
    acc := 0;
    var p, len := 0, |data|;
    SumBound(data);
    LeBound(data);
    assert data[0..] == data;
    while len > 1
      invariant 0 <= len && p + len == |data|
      invariant acc + LeSum(data[p..]) == LeSum(data)
    {
      SumStep(data[p..]);
      assert data[p..][2..] == data[p + 2..];
      acc := acc + Word(data[p], data[p + 1]);
      p, len := p + 2, len - 2;
    }
    SumStep(data[p..]);
    if len == 1 {
      acc := acc + data[p];
    }
  }

  lemma LeBound(d: seq<byte>)
    requires |d| < 0x1_0000
    ensures LeSum(d) <= 0xFFFF * 0x8000
  {
    SumBound(d);
  }

  /** The folding loop: carries are added back until none are left. */
  method Fold(x: uint32) returns (acc: uint16)
    ensures acc == Norm(x)
  {
    var a: nat := x;
    while a / 0x1_0000 != 0
      invariant Norm(a) == Norm(x)
      decreases a
    {
      FoldStep(a);
      a := a % 0x1_0000 + a / 0x1_0000;
    }
    acc := a;
  }

  lemma FoldStep(a: nat)
    ensures Norm(a % 0x1_0000 + a / 0x1_0000) == Norm(a)
  {
    if a > 0 {
      NormShift(a % 0x1_0000 + a / 0x1_0000, a / 0x1_0000);
    }
  }

  /** inet_chksum */
  method InetChksum(data: seq<byte>) returns (r: uint16)
    requires |data| < 0x1_0000
    ensures r == 0xFFFF - OcSum(LeWords(data))
  {
    var acc := Chksum(data);
    FoldedSum(LeWords(data));
    var f := Fold(acc);
    r := 0xFFFF - f;
  }

  function Flatten(bufs: seq<seq<byte>>): seq<byte> {
    if bufs == [] then [] else Flatten(bufs[..|bufs| - 1]) + bufs[|bufs| - 1]
  }

  /** The four bytes of an address in the order they lie in memory, which is network order. */
  function AddrBytes(a: uint32): (r: seq<byte>)
    ensures |r| == 4
  {
    [a % 0x100, a / 0x100 % 0x100, a / 0x1_0000 % 0x100, a / 0x100_0000]
  }

  /** The pseudo-header in front of a segment: addresses, a zero byte, the protocol and the length, in network order. */
  function PseudoHeader(src: uint32, dst: uint32, proto: byte, len: uint16): seq<byte> {
    AddrBytes(src) + AddrBytes(dst) + [0, proto] + [len / 0x100, len % 0x100]
  }

  lemma AddrWords(a: uint32)
    ensures var b := AddrBytes(a); Word(b[0], b[1]) == a % 0x1_0000 && Word(b[2], b[3]) == a / 0x1_0000
  {
    var h := a / 0x100;
    assert a == 0x100 * h + a % 0x100 && h == 0x100 * (h / 0x100) + h % 0x100;
    var g := a / 0x1_0000;
    assert a == 0x1_0000 * g + a % 0x1_0000 && g == 0x100 * (g / 0x100) + g % 0x100;
    assert h / 0x100 == g && g / 0x100 == a / 0x100_0000;
  }

  lemma {:induction false} EvenConcat(a: seq<byte>, b: seq<byte>)
    requires |a| % 2 == 0
    ensures LeSum(a + b) == LeSum(a) + LeSum(b)
    decreases |a|
  {
    hide LeSum, Word;
    SumStep(a);
    if a == [] {
      assert a + b == b;
    } else {
      var s := a + b;
      DropFromFirst(a, b, 2);
      SumStep(s);
      EvenConcat(a[2..], b);
    }
  }

  lemma PairSum(x: byte, y: byte)
    ensures LeSum([x, y]) == Word(x, y)
  {
    hide LeSum, Word;
    SumStep([x, y]);
    SumStep([]);
    assert [x, y][2..] == [];
  }

  lemma AddrSum(a: uint32)
    ensures LeSum(AddrBytes(a)) == a % 0x1_0000 + a / 0x1_0000
  {
    hide LeSum, Word;
    AddrWords(a);
    var b := AddrBytes(a);
    hide AddrBytes;
    PairSum(b[0], b[1]);
    PairSum(b[2], b[3]);
    EvenConcat([b[0], b[1]], [b[2], b[3]]);
    assert b == [b[0], b[1]] + [b[2], b[3]];
  }

  lemma HeaderSum(src: uint32, dst: uint32, proto: byte, len: uint16)
    ensures LeSum(PseudoHeader(src, dst, proto, len)) ==
            src % 0x1_0000 + src / 0x1_0000 + dst % 0x1_0000 + dst / 0x1_0000 + SwapBytes(proto) + SwapBytes(len)
  {
    hide LeSum, AddrBytes;
    var s, d, p: seq<byte>, l: seq<byte> := AddrBytes(src), AddrBytes(dst), [0, proto], [len / 0x100, len % 0x100];
    AddrSum(src);
    AddrSum(dst);
    PairSum(0, proto);
    PairSum(len / 0x100, len % 0x100);
    EvenConcat(s + d + p, l);
    EvenConcat(s + d, p);
    EvenConcat(s, d);
  }

  /** What the accumulator holds after some buffers: the sum so far, times 256 while an odd number of bytes has passed. */
  predicate Accumulated(acc: nat, swapped: bool, n: nat, sum: nat) {
    swapped == (n % 2 == 1) && acc == Norm(Shifted(n, sum))
  }

  /** After `n` bytes with the sum `t` come `m` bytes with the sum `l`, and `u` is the sum of them all. */
  lemma AccumulateStep(acc: uint16, swapped: bool, n: nat, t: nat, m: nat, l: nat, u: nat)
    requires Accumulated(acc, swapped, n, t) && Norm(u) == Norm(t + Shifted(n, l))
    ensures var f := Norm(acc + l);
            if m % 2 != 0 then Accumulated(SwapBytes(f), !swapped, n + m, u) else Accumulated(f, swapped, n + m, u)
  {
    hide Norm, SwapBytes;
    var f := Norm(acc + l);
    NormAdd(Shifted(n, t), l);
    assert f == Norm(Shifted(n, u)) by {
      if n % 2 == 1 {
        NormScale(u);
        NormScale(t + 0x100 * l);
        CarryByte(0x100 * t, l);
      }
    }
    if m % 2 != 0 {
      SwapScales(f);
      NormScale(Shifted(n, u));
      NormScale(u);
    }
  }

  lemma FlattenStep(bufs: seq<seq<byte>>, i: nat)
    requires i < |bufs|
    ensures Flatten(bufs[..i + 1]) == Flatten(bufs[..i]) + bufs[i]
  {
    assert bufs[..i + 1][..i] == bufs[..i];
  }

  /** inet_chksum_pseudo: for every chain of buffers, of odd and zero lengths too, the checksum of the flat bytes
      behind their pseudo-header. */
  method InetChksumPseudo(bufs: seq<seq<byte>>, src: uint32, dst: uint32, proto: byte, len: uint16) returns (r: uint16)
    requires forall b | b in bufs :: |b| < 0x1_0000
    ensures r == 0xFFFF - OcSum(LeWords(PseudoHeader(src, dst, proto, len) + Flatten(bufs)))
  {
    hide LeSum, Norm, SwapBytes, PseudoHeader, Accumulated, Shifted;
    var acc: uint16, swapped := 0, false;
    AccumulateNone();
    for i := 0 to |bufs|
      invariant Accumulated(acc, swapped, |Flatten(bufs[..i])|, LeSum(Flatten(bufs[..i])))
    {
      ghost var sofar := Flatten(bufs[..i]);
      FlattenStep(bufs, i);
      SumConcat(sofar, bufs[i]);
      AccumulateStep(acc, swapped, |sofar|, LeSum(sofar), |bufs[i]|, LeSum(bufs[i]), LeSum(sofar + bufs[i]));
      var sum := Chksum(bufs[i]);
      acc := Fold(acc + sum);
      if |bufs[i]| % 2 != 0 {
        swapped := !swapped;
        acc := SwapBytes(acc);
      }
    }
    assert bufs[..|bufs|] == bufs;
    AccumulateEnd(acc, swapped, |Flatten(bufs)|, LeSum(Flatten(bufs)));
    if swapped {
      acc := SwapBytes(acc);
    }
    HeaderSum(src, dst, proto, len);
    PseudoLength(src, dst, proto, len);
    PseudoSum(PseudoHeader(src, dst, proto, len), Flatten(bufs), acc);
    var total: uint32 := acc + src % 0x1_0000 + src / 0x1_0000 + dst % 0x1_0000 + dst / 0x1_0000 + SwapBytes(proto) + SwapBytes(len);
    var f := Fold(total);
    r := 0xFFFF - f;
  }

  lemma AccumulateNone()
    ensures Accumulated(0, false, 0, LeSum([]))
  {
  }

  lemma AccumulateEnd(acc: uint16, swapped: bool, n: nat, sum: nat)
    requires Accumulated(acc, swapped, n, sum)
    ensures (if swapped then SwapBytes(acc) else acc) == Norm(sum)
  {
    hide Norm, SwapBytes;
    if swapped {
      SwapScales(acc);
      NormScale(0x100 * sum);
      NormScale(sum);
    }
  }

  lemma LeSumIs(d: seq<byte>)
    ensures LeSum(d) == Sum(LeWords(d))
  {
  }

  lemma PseudoLength(src: uint32, dst: uint32, proto: byte, len: uint16)
    ensures |PseudoHeader(src, dst, proto, len)| == 12
  {
  }

  lemma PseudoSum(h: seq<byte>, d: seq<byte>, acc: uint16)
    requires |h| == 12 && acc == Norm(LeSum(d))
    ensures Norm(acc + LeSum(h)) == OcSum(LeWords(h + d))
  {
    hide *;
    FoldedSum(LeWords(h + d));
    LeSumIs(h + d);
    SumConcat(h, d);
    NormAdd(LeSum(d), LeSum(h));
    assert Shifted(12, LeSum(d)) == LeSum(d) by { ShiftedEven(12, LeSum(d)); }
  }

  // ---- The code: big-endian words, two folds ---------------------------------------------

  lemma BeSumIs(d: seq<byte>)
    ensures BeSum(d) == Sum(BeWords(d))
  {
  }

  /** Two folds bring any 32-bit sum into 16 bits. */
  lemma TwoFolds(sum: nat)
    requires sum < WORD
    ensures var once := sum / 0x1_0000 + sum % 0x1_0000;
            (once + once / 0x1_0000) % 0x1_0000 == Norm(sum)
  {
    FoldStep(sum);
    var once := sum / 0x1_0000 + sum % 0x1_0000;
    FoldStep(once);
    if once >= 0x1_0000 {
      assert once / 0x1_0000 == 1;
      assert (once + 1) % 0x1_0000 == once % 0x1_0000 + 1;
    }
  }

  /** A sum that has wrapped at 32 bits up to 65534 times: the wrapping loses what the checksum keeps. */
  lemma WrapLoses(s: nat)
    requires s < 0xFFFF * WORD
    ensures Norm(Wrap(s)) == Norm(s) <==> s < WORD
  {
    var q, w := s / WORD, s % WORD;
    assert s == 0x1_0000 * (0x1_0000 * q) + w;
    NormScale(q);
    NormScale(0x1_0000 * q);
    NormAdd(0x1_0000 * (0x1_0000 * q), w);
    NormAdd(q, w);
    var a := NormParts(w);
    var b := NormParts(q + w);
    hide Norm;
    assert Norm(s) == Norm(q + w);
    if Norm(w) == Norm(q + w) {
      assert q == 65535 * (b - a);
    }
  }

  lemma SwapTwice(x: uint16, y: uint16)
    ensures SwapBytes(x) == SwapBytes(y) <==> x == y
  {
  }

  /** The summing loop of generatechecksum, in 32 bits. */
  method SumBigEndian(buf: seq<byte>) returns (sum: uint32)
    ensures sum == Wrap(BeSum(buf))
  {
    hide BeSum, Word, SwapBytes, Wrap;
    sum := 0;
    var size, p := |buf| / 2, 0;
    assert buf[0..] == buf;
    while size > 0
      invariant 0 <= size && p + 2 * size == |buf| - |buf| % 2
      invariant Wrap(sum + BeSum(buf[p..])) == Wrap(BeSum(buf))
    {
      SumStep(buf[p..]);
      assert buf[p..][2..] == buf[p + 2..];
      SwapWord(buf[p], buf[p + 1]);
      WrapDifference(sum + SwapBytes(Word(buf[p], buf[p + 1])), BeSum(buf[p + 2..]));
      sum := Wrap(sum + SwapBytes(Word(buf[p], buf[p + 1])));
      p, size := p + 2, size - 1;
    }
    SumStep(buf[p..]);
    if |buf| % 2 == 1 {
      sum := Wrap(sum + Word(0, buf[p]));
    } else {
      WrapSmall(sum);
    }
  }

  /** generatechecksum, for every length an `int` can give: the checksum is right exactly when the words sum to less than 2^32,
      which they do for buffers of up to 131072 bytes. */
  method GenerateChecksum(buf: seq<byte>) returns (r: uint16)
    requires |buf| < 0x8000_0000
    ensures r == SwapBytes(0xFFFF - OcSum(BeWords(buf))) <==> BeSum(buf) < WORD
    ensures |buf| <= 0x2_0000 ==> BeSum(buf) < WORD
  {
    SumBound(buf);
    BeSumIs(buf);
    hide BeSum, Norm, SwapBytes, OcSum, Sum, BeWords, LeWords, Wrap;
    FoldedSum(BeWords(buf));
    var sum := SumBigEndian(buf);
    TwoFolds(sum);
    WrapLoses(BeSum(buf));
    SwapTwice(0xFFFF - Norm(sum), 0xFFFF - Norm(BeSum(buf)));
    var once := sum / 0x1_0000 + sum % 0x1_0000;
    once := once + once / 0x1_0000;
    r := SwapBytes(0xFFFF - once % 0x1_0000);
  }

  /** A buffer of `n` words of ones. */
  function Ones(n: nat): seq<byte> {
    seq(2 * n, _ => 0xFF)
  }

  lemma {:induction false} OnesSum(n: nat)
    ensures BeSum(Ones(n)) == 0xFFFF * n
  {
    hide BeSum;
    SumStep(Ones(n));
    if n > 0 {
      assert Ones(n)[2..] == Ones(n - 1);
      OnesSum(n - 1);
    }
  }

  /** All bytes 0xFF: 131074 of them still give the right checksum, and 131076 or more a wrong one. */
  method OnesExample(n: nat) returns (r: uint16)
    requires 2 * n < 0x8000_0000
    ensures r == SwapBytes(0xFFFF - OcSum(BeWords(Ones(n)))) <==> 2 * n <= 131074
  {
    hide BeSum, SwapBytes, OcSum, BeWords, Ones;
    OnesSum(n);
    OnesLength(n);
    r := GenerateChecksum(Ones(n));
  }

  lemma OnesLength(n: nat)
    ensures |Ones(n)| == 2 * n
  {
  }

  /** The two implementations agree on every buffer. */
  lemma Agree(d: seq<byte>)
    ensures SwapBytes(0xFFFF - OcSum(BeWords(d))) == 0xFFFF - OcSum(LeWords(d))
  {
    FoldedSum(BeWords(d));
    FoldedSum(LeWords(d));
    ByteOrder(d);
    hide SwapBytes, Norm, Sum;
    SwapScales(Norm(Sum(BeWords(d))));
    NormScale(Sum(BeWords(d)));
  }

  /** A buffer with the 16-bit value `c`, as the host stores it, at offset `at`. */
  function Stored(d: seq<byte>, at: nat, c: uint16): seq<byte>
    requires at + 1 < |d|
  {
    d[at := c % 0x100][at + 1 := c / 0x100]
  }

  lemma StoredSum(d: seq<byte>, at: nat, c: uint16)
    requires at + 1 < |d| && at % 2 == 0 && d[at] == 0 && d[at + 1] == 0
    ensures LeSum(Stored(d, at, c)) == LeSum(d) + c
  {
    hide LeSum;
    var a, z: seq<byte>, f: seq<byte>, b := d[..at], [0, 0], [c % 0x100, c / 0x100], d[at + 2..];
    assert d == a + (z + b) && Stored(d, at, c) == a + (f + b);
    EvenConcat(a, z + b);
    EvenConcat(a, f + b);
    EvenConcat(z, b);
    EvenConcat(f, b);
    PairSum(0, 0);
    PairSum(c % 0x100, c / 0x100);
  }

  /** Storing the checksum in a zeroed aligned field makes the checksum of the whole come out as zero. */
  lemma StoredVerifies(d: seq<byte>, at: nat)
    requires at + 1 < |d| && at % 2 == 0 && d[at] == 0 && d[at + 1] == 0
    ensures var c := 0xFFFF - OcSum(LeWords(d)); 0xFFFF - OcSum(LeWords(Stored(d, at, c))) == 0
  {
    var c: uint16 := 0xFFFF - OcSum(LeWords(d));
    FoldedSum(LeWords(d));
    FoldedSum(LeWords(Stored(d, at, c)));
    StoredSum(d, at, c);
    hide LeWords, Sum, OcSum;
    var q := NormParts(LeSum(d));
    assert LeSum(d) + c == 0xFFFF + 65535 * q;
    NormShift(0xFFFF, q);
  }
}
