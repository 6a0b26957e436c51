/** Longest prefix match in the forwarding table. Addresses and masks are stored in network byte order and read on a
    little-endian host, so the words that the code compares have their bytes reversed. */
module PrefixMatch {
  import opened MachineWords

  /** One route; `via` stands for the other fields of the entry. */
  datatype Entry = Entry(subnet: uint32, netmask: uint32, via: int)

  predicate Matches(e: Entry, ip: uint32) {
    And(ip, e.netmask) == And(e.subnet, e.netmask)
  }

  /** The answer of the search, for any masks: the first of the matching entries with the greatest mask word, unless that
      word is zero. */
  ghost predicate IsAnswer(table: seq<Entry>, ip: uint32, answer: int) {
    && -1 <= answer < |table|
    && (answer == -1 ==> forall j :: 0 <= j < |table| && Matches(table[j], ip) ==> table[j].netmask == 0)
    && (answer >= 0 ==> table[answer].netmask != 0 && Matches(table[answer], ip))
    && (answer >= 0 ==> forall j :: 0 <= j < |table| && Matches(table[j], ip) ==> table[j].netmask <= table[answer].netmask)
    && (answer >= 0 ==> forall j :: 0 <= j < answer && Matches(table[j], ip) ==> table[j].netmask < table[answer].netmask)
  }

  /** The search. The best mask so far is kept in a signed integer, which the comparison converts back to unsigned. */
  method LongestPrefixMatch(table: seq<Entry>, ip: uint32, before: Entry) returns (answer: int, result: Entry)
    ensures IsAnswer(table, ip, answer)
    ensures result == if answer >= 0 then table[answer] else before
  {
    hide And;
    var maxmatch := 0;
    answer, result := -1, before;
    var i := 0;
    while i < |table|
      invariant 0 <= i <= |table| && -1 <= answer < i
      invariant answer == -1 ==> maxmatch == 0 && result == before
      invariant answer >= 0 ==> maxmatch == Signed(table[answer].netmask) && table[answer].netmask != 0
      invariant answer >= 0 ==> result == table[answer] && Matches(result, ip)
      invariant forall j :: 0 <= j < i && Matches(table[j], ip) ==> table[j].netmask <= Wrap(maxmatch)
      invariant forall j :: 0 <= j < answer && Matches(table[j], ip) ==> table[j].netmask < Wrap(maxmatch)
    {
      var entry := table[i];
      if And(ip, entry.netmask) == And(entry.subnet, entry.netmask) {
        if Wrap(maxmatch) < entry.netmask {
          maxmatch := Signed(entry.netmask);
          assert Wrap(maxmatch) == entry.netmask;
          answer := i;
          result := entry;
        }
      }
      i := i + 1;
    }
  }

  // ---- What the comparison of words means -----------------------------------------------

  /** Where bit `k` of an address, the first of its first byte being bit 0, is in the host's word. */
  function Place(k: nat): nat {
    8 * (k / 8) + 7 - k % 8
  }

  /** The mask of a prefix of `p` bits, as the host reads it. */
  function MaskOf(p: nat): nat {
    if p == 0 then 0 else MaskOf(p - 1) + Power(Place(p - 1))
  }

  /** The first `p` bits of two addresses are the same. */
  ghost predicate Agree(a: uint32, b: uint32, p: nat) {
    forall k :: 0 <= k < p ==> Bit(a, Place(k)) == Bit(b, Place(k))
  }

  lemma PlaceOnce(k: nat, l: nat)
    requires Place(k) == Place(l)
    ensures k == l
  {
    assert k / 8 == l / 8;
  }

  /** The place `j` holds one of the first `p` bits. */
  ghost predicate Covered(p: nat, j: nat) {
    exists k :: 0 <= k < p && Place(k) == j
  }

  lemma CoveredStep(p: nat, j: nat)
    requires p > 0
    ensures Covered(p, j) <==> Covered(p - 1, j) || j == Place(p - 1)
    ensures !Covered(p - 1, Place(p - 1))
  {
    if k :| 0 <= k < p - 1 && Place(k) == Place(p - 1) {
      PlaceOnce(k, p - 1);
    }
    hide Place;
    if j == Place(p - 1) {
      assert 0 <= p - 1 < p;
    }
  }

  /** The mask has ones in the places of its prefix and nowhere else. */
  lemma {:induction false} MaskBits(p: nat, j: nat)
    ensures Bit(MaskOf(p), j) == 1 <==> Covered(p, j)
    ensures Bit(MaskOf(p), j) <= 1
  {
    if p == 0 {
      ZeroBits(j);
    } else {
      MaskBits(p - 1, Place(p - 1));
      MaskBits(p - 1, j);
      hide Place, Bit, Power, Covered;
      CoveredStep(p, j);
      SetBit(MaskOf(p - 1), Place(p - 1), j);
    }
  }

  lemma {:induction false} PowerPositive(k: nat)
    ensures Power(k) > 0
  {
    if k > 0 {
      PowerPositive(k - 1);
    }
  }

  /** A mask is `q` bytes of ones, then a byte with its first `r` bits set; the first byte is the host's lowest. */
  lemma {:induction false} MaskValue(q: nat, r: nat)
    requires r <= 8
    ensures MaskOf(8 * q + r) == Power(8 * q) - 1 + Power(8 * q + 8) - Power(8 * q + 8 - r)
    decreases q, r
  {
    if r > 0 {
      MaskValue(q, r - 1);
      assert (8 * q + r - 1) / 8 == q && Place(8 * q + r - 1) == 8 * q + 8 - r;
    } else if q > 0 {
      MaskValue(q - 1, 8);
    }
  }

  /** Although their bytes are reversed, mask words are ordered as their prefix lengths. */
  lemma {:induction false} MaskOrder(p: nat, q: nat)
    requires p < q
    ensures MaskOf(p) < MaskOf(q)
  {
    PowerPositive(Place(q - 1));
    if p < q - 1 {
      MaskOrder(p, q - 1);
    }
  }

  /** The test on words says that the first `p` bits agree. */
  lemma MatchMeans(e: Entry, ip: uint32, p: nat)
    requires e.netmask == MaskOf(p)
    ensures Matches(e, ip) <==> Agree(ip, e.subnet, p)
  {
    hide And, Bit, MaskOf, Place;
    AndAgrees(ip, e.subnet, e.netmask);
    if Agree(ip, e.subnet, p) {
      forall j: nat | Bit(e.netmask, j) == 1
        ensures Bit(ip, j) == Bit(e.subnet, j)
      {
        MaskBits(p, j);
      }
    } else {
      var k: nat :| k < p && Bit(ip, Place(k)) != Bit(e.subnet, Place(k));
      MaskBits(p, Place(k));
    }
  }

  /** A table whose entry `i` has a prefix of `lens[i]` bits. */
  ghost predicate Prefixed(table: seq<Entry>, lens: seq<nat>) {
    |lens| == |table| && forall i :: 0 <= i < |table| ==> lens[i] <= 32 && table[i].netmask == MaskOf(lens[i])
  }

  /** The answer is the first of the entries that agree with the address on the longest prefix; there is none exactly when
      no entry with a prefix of at least one bit agrees. */
  lemma LongestPrefix(table: seq<Entry>, lens: seq<nat>, ip: uint32, answer: int)
    requires Prefixed(table, lens)
    ensures IsAnswer(table, ip, answer) <==> IsLongest(table, lens, ip, answer)
  {
    forall i | 0 <= i < |table|
      ensures Matches(table[i], ip) <==> Agree(ip, table[i].subnet, lens[i])
      ensures table[i].netmask == 0 <==> lens[i] == 0
    {
      MatchMeans(table[i], ip, lens[i]);
      if lens[i] > 0 {
        MaskOrder(0, lens[i]);
      }
    }
    forall i, j | 0 <= i < |table| && 0 <= j < |table|
      ensures table[i].netmask < table[j].netmask <==> lens[i] < lens[j]
    {
      if lens[i] < lens[j] {
        MaskOrder(lens[i], lens[j]);
      } else if lens[j] < lens[i] {
        MaskOrder(lens[j], lens[i]);
      }
    }
  }

  ghost predicate IsLongest(table: seq<Entry>, lens: seq<nat>, ip: uint32, answer: int)
    requires Prefixed(table, lens)
  {
    && -1 <= answer < |table|
    && (answer == -1 ==> forall j :: 0 <= j < |table| && Agree(ip, table[j].subnet, lens[j]) ==> lens[j] == 0)
    && (answer >= 0 ==> lens[answer] > 0 && Agree(ip, table[answer].subnet, lens[answer]))
    && (answer >= 0 ==> forall j :: 0 <= j < |table| && Agree(ip, table[j].subnet, lens[j]) ==> lens[j] <= lens[answer])
    && (answer >= 0 ==> forall j :: 0 <= j < answer && Agree(ip, table[j].subnet, lens[j]) ==> lens[j] < lens[answer])
  }

  /** There is one answer. */
  lemma AnswerUnique(table: seq<Entry>, ip: uint32, a: int, b: int)
    requires IsAnswer(table, ip, a) && IsAnswer(table, ip, b)
    ensures a == b
  {
    hide And;
  }

  /** A route for an address is missed exactly when every entry that covers it is a default route, with no prefix bits. */
  lemma DefaultRouteUnused(table: seq<Entry>, lens: seq<nat>, ip: uint32, answer: int)
    requires Prefixed(table, lens) && IsAnswer(table, ip, answer)
    ensures answer == -1 <==> forall j :: 0 <= j < |table| && lens[j] > 0 ==> !Agree(ip, table[j].subnet, lens[j])
  {
    LongestPrefix(table, lens, ip, answer);
  }

  lemma DefaultRouteExample(ip: uint32)
    ensures Matches(Entry(0, 0, 7), ip) && IsAnswer([Entry(0, 0, 7)], ip, -1) && !IsAnswer([Entry(0, 0, 7)], ip, 0)
  {
  }
}
