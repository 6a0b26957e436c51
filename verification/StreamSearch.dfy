/** Searching an incoming byte stream for a word. The buffer grows as bytes arrive, and the search resumes where the last
    one ended. What `read` returns is a parameter: the bytes the peer will send, and one event for each call. */
module StreamSearch {
  import opened MachineWords

  /** One call of `read`: interrupted, failed, or one byte and up to `more` others. */
  datatype Event = Interrupted | Failed | Ready(more: nat)

  function Min(a: int, b: int): int {
    if a < b then a else b
  }

  /** The return codes 0, 1, -1, -2 and -3; `Waiting` is a call that has not returned when the events end. */
  datatype Outcome = Found | Eof | Error | Full | MaxReads | Waiting

  predicate Occurs(s: seq<byte>, needle: seq<byte>, k: int) {
    0 <= k && k + |needle| <= |s| && s[k..k + |needle|] == needle
  }

  /** No occurrence starts in `lo..hi`. */
  ghost predicate Clear(s: seq<byte>, needle: seq<byte>, lo: int, hi: int) {
    forall j :: lo <= j < hi ==> !Occurs(s, needle, j)
  }

  /** `k` is the first occurrence from `lo` on. */
  ghost predicate Least(s: seq<byte>, needle: seq<byte>, lo: int, k: int) {
    lo <= k && Occurs(s, needle, k) && Clear(s, needle, lo, k)
  }

  /** What has arrived decides every occurrence that fits in it. */
  lemma Arrived(s: seq<byte>, w: seq<byte>, needle: seq<byte>, k: int)
    requires |s| <= |w| && s == w[..|s|]
    ensures Occurs(s, needle, k) <==> Occurs(w, needle, k) && k + |needle| <= |s|
  {
    if 0 <= k && k + |needle| <= |s| {
      assert s[k..k + |needle|] == w[k..k + |needle|];
    }
  }

  /** A scan of what has arrived, carried over to the whole stream. */
  lemma Carry(s: seq<byte>, w: seq<byte>, needle: seq<byte>, lo: int, mid: int, hi: int)
    requires |s| <= |w| && s == w[..|s|]
    requires Clear(w, needle, lo, mid) && Clear(s, needle, mid, hi) && hi + |needle| <= |s| + 1
    ensures Clear(w, needle, lo, hi)
  {
    forall j | lo <= j < hi
      ensures !Occurs(w, needle, j)
    {
      Arrived(s, w, needle, j);
    }
  }

  /** Nothing fits past the last offset scanned. */
  lemma Exhausted(s: seq<byte>, w: seq<byte>, needle: seq<byte>, lo: int, hi: int)
    requires |s| <= |w| && s == w[..|s|] && Clear(w, needle, lo, hi) && hi + |needle| > |s|
    ensures Clear(s, needle, lo, |s|)
  {
    forall j | lo <= j < |s|
      ensures !Occurs(s, needle, j)
    {
      Arrived(s, w, needle, j);
    }
  }

  /** A search from `lo` has a hit at `k` within the first `used` bytes, and goes on right after it. */
  ghost predicate Hit(w: seq<byte>, needle: seq<byte>, lo: int, k: int, next: int, used: int) {
    Least(w, needle, lo, k) && next == k + 1 && k + |needle| <= used
  }

  /** A search from `lo` has no hit in the first `used` bytes, and goes on at `next`. */
  ghost predicate Miss(w: seq<byte>, needle: seq<byte>, lo: int, next: int, used: int) {
    Clear(w, needle, lo, next) && lo <= next && next + |needle| > used
  }

  lemma ClearNone(w: seq<byte>, needle: seq<byte>, lo: int)
    ensures Clear(w, needle, lo, lo)
  {
  }

  lemma MissMeans(w: seq<byte>, needle: seq<byte>, lo: int, next: int, used: nat)
    requires used <= |w| && Miss(w, needle, lo, next, used)
    ensures Clear(w[..used], needle, lo, used)
  {
    Exhausted(w[..used], w, needle, lo, next);
  }

  /** How many of the events let a read go through. */
  function Readies(script: seq<Event>): nat {
    if script == [] then 0 else Readies(script[..|script| - 1]) + if script[|script| - 1].Ready? then 1 else 0
  }

  lemma ReadiesNone(script: seq<Event>)
    ensures Readies(script[..0]) == 0
  {
  }

  lemma ReadiesStep(script: seq<Event>, i: nat)
    requires i < |script|
    ensures Readies(script[..i + 1]) == Readies(script[..i]) + if script[i].Ready? then 1 else 0
    ensures Failed in script[..i + 1] <==> Failed in script[..i] || script[i] == Failed
  {
    assert script[..i + 1][..i] == script[..i];
    assert script[..i + 1] == script[..i] + [script[i]];
  }

  /** Enough of the stream is offered to see all of it: no read fails, none is refused, and there is room. */
  predicate Ample(script: seq<Event>, stream: seq<byte>, maxReads: int, room: int) {
    Failed !in script && maxReads <= 0 && |stream| < room && |stream| < Readies(script)
  }

  class Search {
    var chbuf: array<byte>
    var maxCapacity: nat
    var used: nat
    var searchOffset: nat
    var needleOffset: nat

    ghost predicate Valid()
      reads this
    {
      searchOffset <= used <= chbuf.Length <= maxCapacity && chbuf.Length > 0
    }

    ghost function Contents(): seq<byte>
      requires Valid()
      reads this, chbuf
    {
      chbuf[..used]
    }

    constructor (initSize: nat, maxSize: nat)
      requires initSize != 0 && initSize <= maxSize
      ensures Valid() && Contents() == [] && searchOffset == 0 && maxCapacity == maxSize
      ensures fresh(chbuf) && chbuf.Length == initSize
    {
      chbuf := new byte[initSize](_ => 0);
      maxCapacity, used, searchOffset, needleOffset := maxSize, 0, 0, 0;
    }

    /** A full buffer doubles, up to the limit; at the limit it stays full. */
    method GrowIfFull() returns (full: bool)
      requires Valid()
      modifies this
      ensures Valid() && (fresh(chbuf) || chbuf == old(chbuf)) && unchanged(old(chbuf))
      ensures Contents() == old(Contents())
      ensures maxCapacity == old(maxCapacity) && searchOffset == old(searchOffset) && needleOffset == old(needleOffset)
      ensures full <==> used == maxCapacity
      ensures !full ==> used < chbuf.Length
      ensures used < old(chbuf.Length) ==> chbuf == old(chbuf)
      ensures used == old(chbuf.Length) && !full ==>
        chbuf.Length == if 2 * used > maxCapacity then maxCapacity else 2 * used
    {
      full := false;
      if used == chbuf.Length {
        var newSize := 2 * chbuf.Length;
        if newSize > maxCapacity {
          if used == maxCapacity {
            return true;
          }
          newSize := maxCapacity;
        }
        var mem := new byte[newSize](_ => 0);
        forall i | 0 <= i < used {
          mem[i] := chbuf[i];
        }
        assert mem[..used] == chbuf[..used];
        chbuf := mem;
      }
    }

    /** Bytes of the stream are put after the used part. */
    method Fill(bytes: seq<byte>)
      requires Valid() && used + |bytes| <= chbuf.Length
      modifies chbuf
      ensures chbuf[..used + |bytes|] == old(Contents()) + bytes
    {
      forall i | 0 <= i < |bytes| {
        chbuf[used + i] := bytes[i];
      }
    }

    /** Does the word start at `off`? */
    method MatchAt(needle: seq<byte>, off: nat) returns (found: bool)
      requires off + |needle| <= chbuf.Length
      ensures found <==> chbuf[off..off + |needle|] == needle
    {
      var j := 0;
      while j < |needle|
        invariant 0 <= j <= |needle|
        invariant forall i :: 0 <= i < j ==> chbuf[off + i] == needle[i]
      {
        if chbuf[off + j] != needle[j] {
          assert chbuf[off..off + |needle|][j] != needle[j];
          return false;
        }
        j := j + 1;
      }
      assert chbuf[off..off + |needle|] == needle;
      return true;
    }

    /** Every offset at which the word fits in the first `limit` bytes is tried, up to the first hit. */
    method Scan(needle: seq<byte>, limit: nat) returns (found: bool)
      requires needle != [] && limit <= chbuf.Length && searchOffset <= limit
      modifies `searchOffset, `needleOffset
      ensures searchOffset <= limit
      ensures found ==> Least(chbuf[..limit], needle, old(searchOffset), needleOffset) && searchOffset == needleOffset + 1
      ensures !found ==> needleOffset == old(needleOffset) && searchOffset >= old(searchOffset)
      ensures !found ==> Clear(chbuf[..limit], needle, old(searchOffset), searchOffset) && searchOffset + |needle| > limit
      ensures !found && searchOffset > old(searchOffset) ==> searchOffset + |needle| == limit + 1
    {
      found := false;
      while searchOffset + |needle| <= limit
        invariant old(searchOffset) <= searchOffset <= limit && needleOffset == old(needleOffset)
        invariant Clear(chbuf[..limit], needle, old(searchOffset), searchOffset)
        invariant searchOffset > old(searchOffset) ==> searchOffset + |needle| <= limit + 1
        decreases limit - searchOffset
      {
        found := MatchAt(needle, searchOffset);
        assert chbuf[..limit][searchOffset..searchOffset + |needle|] == chbuf[searchOffset..searchOffset + |needle|];
        if found {
          needleOffset := searchOffset;
          searchOffset := searchOffset + 1;
          return;
        }
        searchOffset := searchOffset + 1;
      }
    }

    /** One pass over what has arrived: the `bytes` just read are scanned and then counted as used. */
    method Absorb(needle: seq<byte>, bytes: seq<byte>, ghost w: seq<byte>, ghost lo: int) returns (found: bool)
      requires Valid() && needle != [] && used + |bytes| <= chbuf.Length
      requires used + |bytes| <= |w| && Contents() == w[..used] && bytes == w[used..used + |bytes|]
      requires lo <= searchOffset && Clear(w, needle, lo, searchOffset)
      modifies this, chbuf
      ensures Valid() && chbuf == old(chbuf) && maxCapacity == old(maxCapacity)
      ensures used == old(used) + |bytes| && Contents() == w[..used] && searchOffset >= old(searchOffset)
      ensures found ==> Hit(w, needle, lo, needleOffset, searchOffset, used)
      ensures !found ==> Miss(w, needle, lo, searchOffset, used) && needleOffset == old(needleOffset)
    {
      Fill(bytes);
      ghost var s := chbuf[..used + |bytes|];
      ghost var from := searchOffset;
      assert s == w[..used + |bytes|];
      found := Scan(needle, used + |bytes|);
      if found {
        Carry(s, w, needle, lo, from, needleOffset);
        Arrived(s, w, needle, needleOffset);
      } else if searchOffset > from {
        Carry(s, w, needle, lo, from, searchOffset);
      }
      used := used + |bytes|;
    }

    /** A read of as much as there is and fits, and the pass over it; nothing is read exactly at the end of the stream. */
    method ReadSome(needle: seq<byte>, rest: seq<byte>, more: nat, ghost w: seq<byte>, ghost lo: int)
      returns (n: nat, found: bool)
      requires Valid() && needle != [] && used < chbuf.Length
      requires used <= |w| && Contents() == w[..used] && rest == w[used..] && Miss(w, needle, lo, searchOffset, used)
      modifies this, chbuf
      ensures Valid() && chbuf == old(chbuf) && maxCapacity == old(maxCapacity)
      ensures n <= |rest| && (n == 0 <==> rest == []) && used == old(used) + n && Contents() == w[..used]
      ensures found ==> n > 0 && Hit(w, needle, lo, needleOffset, searchOffset, used)
      ensures !found ==> Miss(w, needle, lo, searchOffset, used) && needleOffset == old(needleOffset)
    {
      hide Hit, Clear;
      n, found := Min(Min(more + 1, chbuf.Length - used), |rest|), false;
      if n > 0 {
        assert rest[..n] == w[used..used + n];
        found := Absorb(needle, rest[..n], w, lo);
      }
    }

    /** Searches for `needle` from the search offset on, reading as needed. However the stream is cut into reads, a hit is
        the first occurrence in the whole stream; without a hit nothing that has arrived contains one. A `maxReads` of zero
        or less sets no limit. */
    method Find(needle: seq<byte>, stream: seq<byte>, script: seq<Event>, maxReads: int)
      returns (r: Outcome, step: nat, taken: nat)
      requires Valid() && needle != []
      modifies this, chbuf
      ensures Valid() && (chbuf == old(chbuf) || fresh(chbuf)) && maxCapacity == old(maxCapacity)
      ensures old(used) <= used <= old(used) + |stream| && Contents() == (old(Contents()) + stream)[..used]
      ensures r == Found ==>
        Hit(old(Contents()) + stream, needle, old(searchOffset), needleOffset, searchOffset, used)
      ensures r != Found ==> needleOffset == old(needleOffset)
      ensures r != Found ==> Miss(old(Contents()) + stream, needle, old(searchOffset), searchOffset, used)
      ensures r != Found ==> Clear(Contents(), needle, old(searchOffset), used)
      ensures r == Full ==> used == maxCapacity
      ensures r == Eof ==> used == old(used) + |stream| < maxCapacity
      ensures step <= |script| && taken <= step
      ensures r == Error <==> Failed in script[..step]
      ensures r == Waiting ==> step == |script|
      ensures r == MaxReads ==> 0 < maxReads == taken
      ensures maxReads > 0 ==> taken <= maxReads && (taken == maxReads ==> r == Found || r == MaxReads)
      ensures taken + (if r == Eof then 1 else 0) == Readies(script[..step]) && used >= old(used) + taken
      ensures Ample(script, stream, maxReads, maxCapacity - old(used)) ==>
        && (r == Found || r == Eof)
        && (r == Found <==> exists k :: old(searchOffset) <= k && Occurs(old(Contents()) + stream, needle, k))
    {
      ghost var w := old(Contents()) + stream;
      r, step, taken := Attempt(needle, stream, script, maxReads, w);
      if r == Waiting {
        assert script[..step] == script;
      }
      assert w[..|w|] == w;
      if r != Found {
        MissMeans(w, needle, old(searchOffset), searchOffset, used);
      }
    }

    method Attempt(needle: seq<byte>, stream: seq<byte>, script: seq<Event>, maxReads: int, ghost w: seq<byte>)
      returns (r: Outcome, step: nat, taken: nat)
      requires Valid() && needle != [] && w == Contents() + stream
      modifies this, chbuf
      ensures Valid() && (chbuf == old(chbuf) || fresh(chbuf)) && maxCapacity == old(maxCapacity)
      ensures old(used) <= used <= |w| && Contents() == w[..used]
      ensures r == Found ==> Hit(w, needle, old(searchOffset), needleOffset, searchOffset, used)
      ensures r != Found ==> Miss(w, needle, old(searchOffset), searchOffset, used) && needleOffset == old(needleOffset)
      ensures r == Full ==> used == maxCapacity
      ensures r == Eof ==> used == |w| < maxCapacity
      ensures step <= |script| && taken <= step
      ensures r == Error <==> Failed in script[..step]
      ensures r == Waiting ==> step == |script|
      ensures r == MaxReads ==> 0 < maxReads == taken
      ensures maxReads > 0 ==> taken <= maxReads && (taken == maxReads ==> r == Found || r == MaxReads)
      ensures taken + (if r == Eof then 1 else 0) == Readies(script[..step]) && used >= old(used) + taken
    {
      hide Hit, Miss, Least, Clear, Readies, Occurs;
      ReadiesNone(script);
      ghost var lo := searchOffset;
      step, taken := 0, 0;
      var rest, left := stream, maxReads;
      assert Clear(w, needle, lo, lo) by { ClearNone(w, needle, lo); }
      r := Waiting;
      var found := Absorb(needle, [], w, lo);
      while !found
        invariant Valid() && (chbuf == old(chbuf) || fresh(chbuf)) && maxCapacity == old(maxCapacity)
        invariant old(used) <= used <= |w| && Contents() == w[..used] && rest == w[used..]
        invariant found ==> Hit(w, needle, lo, needleOffset, searchOffset, used)
        invariant !found ==> Miss(w, needle, lo, searchOffset, used) && needleOffset == old(needleOffset)
        invariant step <= |script| && taken <= step && Failed !in script[..step]
        invariant taken == Readies(script[..step]) && used >= old(used) + taken
        invariant maxReads == 0 ==> left == 0
        invariant maxReads != 0 && !found ==> left == maxReads - taken != 0
        invariant maxReads > 0 ==> taken <= maxReads && (taken == maxReads ==> found)
        decreases |script| - step, !found
      {
        var stop, n;
        r, stop, n, step := Once(needle, rest, script, step, w, lo);
        if stop {
          return;
        }
        found, rest := r == Found, rest[n..];
        if n > 0 {
          taken := taken + 1;
          if left != 0 && !found {
            left := left - 1;
            if left == 0 {
              return MaxReads, step, taken;
            }
          }
        }
      }
      r := Found;
    }

    /** One round of the loop, up to the limit of reads; `stop` tells whether it is the last one. */
    method Once(needle: seq<byte>, rest: seq<byte>, script: seq<Event>, at: nat, ghost w: seq<byte>, ghost lo: int)
      returns (r: Outcome, stop: bool, n: nat, step: nat)
      requires Valid() && needle != [] && at <= |script| && Failed !in script[..at]
      requires used <= |w| && Contents() == w[..used] && rest == w[used..] && Miss(w, needle, lo, searchOffset, used)
      modifies this, chbuf
      ensures Valid() && (chbuf == old(chbuf) || fresh(chbuf)) && maxCapacity == old(maxCapacity)
      ensures n <= |rest| && used == old(used) + n && Contents() == w[..used] && rest[n..] == w[used..]
      ensures r == Found ==> Hit(w, needle, lo, needleOffset, searchOffset, used)
      ensures r != Found ==> Miss(w, needle, lo, searchOffset, used) && needleOffset == old(needleOffset)
      ensures (!stop ==> r == Found || r == Waiting) && (stop && r == Waiting ==> at == |script|)
      ensures !stop ==> step == at + 1
      ensures stop ==> n == 0 && r != Found && r != MaxReads && step == (if r == Error || r == Eof then at + 1 else at)
      ensures step <= |script| && (r == Error <==> Failed in script[..step])
      ensures Readies(script[..step]) == Readies(script[..at]) + if n > 0 || r == Eof then 1 else 0
      ensures (r == Full ==> used == maxCapacity) && (r == Eof ==> used == |w| < maxCapacity)
      ensures r == Found ==> n > 0
    {
      hide Hit, Miss, Readies;
      n, step, stop := 0, at, true;
      assert rest[0..] == rest;
      var full := GrowIfFull();
      if full {
        r := Full;
      } else if at == |script| {
        r := Waiting;
      } else {
        ReadiesStep(script, at);
        r, n := Turn(needle, rest, script[at], w, lo);
        step, stop := at + 1, r == Error || r == Eof;
      }
    }

    /** One call of `read` and what follows it; `Waiting` means that the search goes on. */
    method Turn(needle: seq<byte>, rest: seq<byte>, e: Event, ghost w: seq<byte>, ghost lo: int) returns (r: Outcome, n: nat)
      requires Valid() && needle != [] && used < chbuf.Length
      requires used <= |w| && Contents() == w[..used] && rest == w[used..] && Miss(w, needle, lo, searchOffset, used)
      modifies this, chbuf
      ensures Valid() && chbuf == old(chbuf) && maxCapacity == old(maxCapacity)
      ensures n <= |rest| && used == old(used) + n && Contents() == w[..used] && rest[n..] == w[used..]
      ensures r == Error || r == Eof || r == Found || r == Waiting
      ensures (r == Error <==> e.Failed?) && (n > 0 <==> e.Ready? && rest != []) && (r == Eof <==> e.Ready? && rest == [])
      ensures r == Found ==> n > 0 && Hit(w, needle, lo, needleOffset, searchOffset, used)
      ensures r != Found ==> Miss(w, needle, lo, searchOffset, used) && needleOffset == old(needleOffset)
    {
      hide Hit, Miss;
      n, r := 0, Waiting;
      match e
      case Interrupted =>
      case Failed =>
        r := Error;
      case Ready(more) =>
        var found;
        n, found := ReadSome(needle, rest, more, w, lo);
        r := if found then Found else if n == 0 then Eof else Waiting;
    }
  }
}
