/** What a receiver reads of the records in an answer (sections 3.2.1 and 4.1.3 of RFC 1035). */
module DnsRecords {
  import opened MachineWords
  import opened Slices
  import opened DnsCodec
  import opened DnsAnswer

  datatype RecordResult = Truncated | Got(record: Record, end: nat)
  datatype RecordsResult = Cut | GotAll(records: seq<Record>, end: nat)

  /** Four octets, the most significant one first. */
  function LongAt(mem: seq<byte>, at: nat): uint32
    requires at + 4 <= |mem|
  {
    var a: int, b: int, c: int := mem[at], mem[at + 1], mem[at + 2];
    0x100_0000 * a + 0x1_0000 * b + 0x100 * c + mem[at + 3]
  }

  /** Name, type, class, time to live, length, and as many bytes of data. */
  function ParseRecord(mem: seq<byte>, at: nat): RecordResult {
    match ParseName(mem, at)
    case NameOverrun => Truncated
    case Named(names, e) =>
      if e + 10 > |mem| || e + 10 + WordAt(mem, e + 8) > |mem| then Truncated
      else
        var to := e + 10 + WordAt(mem, e + 8);
        Got(Record(names, WordAt(mem, e), WordAt(mem, e + 2), LongAt(mem, e + 4), mem[e + 10..to]), to)
  }

  function ParseRecords(mem: seq<byte>, at: nat, n: nat): RecordsResult
    decreases n
  {
    if n == 0 then GotAll([], at) else
      match ParseRecord(mem, at)
      case Truncated => Cut
      case Got(r, end) => Behind(r, ParseRecords(mem, end, n - 1))
  }

  function Behind(r: Record, rest: RecordsResult): RecordsResult {
    match rest
    case Cut => Cut
    case GotAll(rs, end) => GotAll([r] + rs, end)
  }

  /** The records that survive: the name can be encoded, and the length of the data fits its field. */
  predicate Sound(r: Record) {
    Encodable(r.names) && |r.rdata| < 0x1_0000
  }

  lemma LongBack(mem: seq<byte>, at: nat, x: uint32)
    requires Holds(mem, at, Be32(x))
    ensures at + 4 <= |mem| && LongAt(mem, at) == x
  {
    var w := mem[at..at + 4];
    assert mem[at] == w[0] && mem[at + 1] == w[1] && mem[at + 2] == w[2] && mem[at + 3] == w[3];
    assert w[0] == x / 0x1_0000 / 256 && w[1] == x / 0x1_0000 % 256 && w[2] == x % 0x1_0000 / 256 && w[3] == x % 0x1_0000 % 256;
  }

  /** What follows the name, field by field. */
  lemma FieldsBack(mem: seq<byte>, e: nat, r: Record)
    requires Holds(mem, e, Be16(r.rtype) + Be16(r.rclass) + Be32(r.ttl) + Be16(Wrap16(|r.rdata|)) + r.rdata)
    ensures e + 10 + |r.rdata| <= |mem| && mem[e + 10..e + 10 + |r.rdata|] == r.rdata
    ensures WordAt(mem, e) == r.rtype && WordAt(mem, e + 2) == r.rclass
    ensures LongAt(mem, e + 4) == r.ttl && WordAt(mem, e + 8) == Wrap16(|r.rdata|)
  {
    hide WordAt, LongAt, Be16, Be32;
    var ty, cl, tt, le := Be16(r.rtype), Be16(r.rclass), Be32(r.ttl), Be16(Wrap16(|r.rdata|));
    HoldsParts(mem, e, ty + cl + tt + le, r.rdata);
    HoldsParts(mem, e, ty + cl + tt, le);
    HoldsParts(mem, e, ty + cl, tt);
    HoldsParts(mem, e, ty, cl);
    WordBack(mem, e, r.rtype);
    WordBack(mem, e + 2, r.rclass);
    LongBack(mem, e + 4, r.ttl);
    WordBack(mem, e + 8, Wrap16(|r.rdata|));
  }

  lemma RecordParts(r: Record)
    ensures EncodeRecord(r) ==
            Encode(r.names) + (Be16(r.rtype) + Be16(r.rclass) + Be32(r.ttl) + Be16(Wrap16(|r.rdata|)) + r.rdata)
    ensures |EncodeRecord(r)| == |Encode(r.names)| + 10 + |r.rdata|
  {
    hide Encode, Be16, Be32;
    var n, ty, cl, tt, le := Encode(r.names), Be16(r.rtype), Be16(r.rclass), Be32(r.ttl), Be16(Wrap16(|r.rdata|));
    Regroup(n, ty, cl);
    Regroup(n, ty + cl, tt);
    Regroup(n, ty + cl + tt, le);
    Regroup(n, ty + cl + tt + le, r.rdata);
  }

  /** An encoded record is read back, field by field and to its last byte, exactly when it is sound. */
  lemma RecordRoundTrip(mem: seq<byte>, at: nat, r: Record)
    requires Holds(mem, at, EncodeRecord(r))
    ensures Sound(r) ==> ParseRecord(mem, at) == Got(r, at + |EncodeRecord(r)|)
    ensures !Sound(r) ==> ParseRecord(mem, at).Truncated? || ParseRecord(mem, at).record != r
  {
    hide Encode, ParseName, Encodable, WordAt, LongAt, Holds, Be16, Be32, EncodeRecord;
    var e := at + |Encode(r.names)|;
    RecordParts(r);
    HoldsParts(mem, at, Encode(r.names), Be16(r.rtype) + Be16(r.rclass) + Be32(r.ttl) + Be16(Wrap16(|r.rdata|)) + r.rdata);
    NameRoundTrip(mem, at, r.names);
    FieldsBack(mem, e, r);
  }

  function EncodeRecords(rs: seq<Record>): seq<byte> {
    if rs == [] then [] else EncodeRecord(rs[0]) + EncodeRecords(rs[1..])
  }

  predicate AllSound(rs: seq<Record>) {
    forall i :: 0 <= i < |rs| ==> Sound(rs[i])
  }

  lemma SoundRest(rs: seq<Record>)
    requires rs != []
    ensures AllSound(rs) <==> Sound(rs[0]) && AllSound(rs[1..])
  {
    hide Sound;
    assert forall i :: 0 < i < |rs| ==> rs[i] == rs[1..][i - 1];
  }

  /** A whole section of records is read back exactly when all of them are sound. */
  lemma {:induction false} RecordsRoundTrip(mem: seq<byte>, at: nat, rs: seq<Record>)
    requires Holds(mem, at, EncodeRecords(rs))
    ensures ParseRecords(mem, at, |rs|) == GotAll(rs, at + |EncodeRecords(rs)|) <==> AllSound(rs)
    decreases |rs|
  {
    hide ParseRecord, EncodeRecord, Sound, Holds, AllSound;
    if rs == [] {
      SoundNone();
    } else {
      var end := at + |EncodeRecord(rs[0])|;
      HoldsParts(mem, at, EncodeRecord(rs[0]), EncodeRecords(rs[1..]));
      RecordRoundTrip(mem, at, rs[0]);
      SoundRest(rs);
      FirstAndRest(rs);
      if Sound(rs[0]) {
        RecordsRoundTrip(mem, end, rs[1..]);
        BehindBack(rs[0], rs[1..], ParseRecords(mem, end, |rs| - 1), end + |EncodeRecords(rs[1..])|);
      }
    }
  }

  lemma SoundNone()
    ensures AllSound([])
  {
  }

  lemma BehindBack(r: Record, rest: seq<Record>, x: RecordsResult, end: nat)
    ensures Behind(r, x) == GotAll([r] + rest, end) <==> x == GotAll(rest, end)
  {
    if x.GotAll? {
      assert ([r] + x.records)[1..] == x.records && ([r] + rest)[1..] == rest;
    }
  }

  // ---- A whole answer ---------------------------------------------------------------------

  function Answered(rs: seq<Record>): (r: seq<Item>)
    ensures |r| == |rs|
  {
    seq(|rs|, i requires 0 <= i < |rs| => R(rs[i]))
  }

  lemma {:induction false} RecordsAppend(rs: seq<Record>, r: Record)
    ensures EncodeRecords(rs + [r]) == EncodeRecords(rs) + EncodeRecord(r)
  {
    hide EncodeRecord;
    if rs == [] {
      assert [r][1..] == [] && rs + [r] == [r];
    } else {
      assert (rs + [r])[1..] == rs[1..] + [r];
      RecordsAppend(rs[1..], r);
    }
  }

  lemma {:induction false} SectionBytes(qs: seq<Question>, rs: seq<Record>)
    ensures EncodeItems(Asked(qs) + Answered(rs)) == EncodeQuestions(qs) + EncodeRecords(rs)
    ensures CountQ(Asked(qs) + Answered(rs)) == |qs| && CountR(Asked(qs) + Answered(rs)) == |rs|
    decreases |rs|
  {
    hide EncodeItems, CountQ, CountR, EncodeQuestions, Asked, EncodeRecord;
    if rs == [] {
      AskedBytes(qs);
      AskedOnly(qs);
      assert Asked(qs) + Answered(rs) == Asked(qs);
    } else {
      var front, r := rs[..|rs| - 1], rs[|rs| - 1];
      SectionBytes(qs, front);
      RecordsAppend(front, r);
      assert rs == front + [r];
      assert Asked(qs) + Answered(rs) == Asked(qs) + Answered(front) + [R(r)];
      OneMore(Asked(qs) + Answered(front), R(r));
      Regroup(EncodeQuestions(qs), EncodeRecords(front), EncodeRecord(r));
    }
  }

  lemma {:induction false} AskedOnly(qs: seq<Question>)
    ensures CountR(Asked(qs)) == 0
  {
    if qs != [] {
      AskedOnly(qs[..|qs| - 1]);
      assert Asked(qs)[..|qs| - 1] == Asked(qs[..|qs| - 1]);
    }
  }

  /** The header as a receiver reads it: the identifier, the response bit, and the four counts modulo 2^16. */
  lemma HeaderReads(id: uint16, items: seq<Item>)
    ensures var m := Message(id, items);
      && |m| >= HEADER && WordAt(m, 0) == id && m[2] == 0x80 && m[3] == 0
      && WordAt(m, 4) == Wrap16(CountQ(items)) && WordAt(m, 6) == Wrap16(CountR(items)) && WordAt(m, 8) == WordAt(m, 10) == 0
  {
    hide EncodeItems, CountQ, CountR;
    var m := Message(id, items);
    assert m[0] == id / 256 && m[1] == id % 256;
    assert m[4] == Wrap16(CountQ(items)) / 256 && m[5] == Wrap16(CountQ(items)) % 256;
    assert m[6] == Wrap16(CountR(items)) / 256 && m[7] == Wrap16(CountR(items)) % 256;
  }

  /** A receiver that goes on behind the questions, and parses as many records as the header counts, gets back the records
      that were added and stops at the end of the packet, exactly when their number fits and all are sound. */
  lemma ReceiverReadsRecords(id: uint16, qs: seq<Question>, rs: seq<Record>)
    ensures var m := Message(id, Asked(qs) + Answered(rs));
      && |m| >= 12
      && (ParseRecords(m, HEADER + |EncodeQuestions(qs)|, WordAt(m, 6)) == GotAll(rs, |m|) <==> |rs| < 0x1_0000 && AllSound(rs))
  {
    hide *;
    var m := Message(id, Asked(qs) + Answered(rs));
    var at := HEADER + |EncodeQuestions(qs)|;
    RecordsHeld(id, qs, rs);
    CountParsed(m, at, WordAt(m, 6));
    RecordsRoundTrip(m, at, rs);
    if |rs| < 0x1_0000 {
      DnsAnswer.WrapSmall(|rs|);
    } else {
      assert WordAt(m, 6) != |rs|;
    }
  }

  lemma RecordsHeld(id: uint16, qs: seq<Question>, rs: seq<Record>)
    ensures var m := Message(id, Asked(qs) + Answered(rs));
      && |m| == HEADER + |EncodeQuestions(qs)| + |EncodeRecords(rs)| >= 12 && WordAt(m, 6) == Wrap16(|rs|)
      && Holds(m, HEADER + |EncodeQuestions(qs)|, EncodeRecords(rs))
  {
    hide EncodeItems, Header, WordAt, CountQ, CountR, EncodeQuestions, EncodeRecords, Asked, Answered;
    SectionBytes(qs, rs);
    HeaderReads(id, Asked(qs) + Answered(rs));
  }

  lemma {:induction false} CountParsed(mem: seq<byte>, at: nat, n: nat)
    ensures ParseRecords(mem, at, n).GotAll? ==> |ParseRecords(mem, at, n).records| == n
    decreases n
  {
    hide ParseRecord;
    if n > 0 && ParseRecord(mem, at).Got? {
      CountParsed(mem, ParseRecord(mem, at).end, n - 1);
    }
  }

  /** The data of an address record is the address, and that of a pointer record the name, if that can be encoded. */
  lemma DataReads(ip: uint32, target: seq<Label>)
    ensures LongAt(Be32(ip), 0) == ip
    ensures ParseName(Encode(target), 0) == Named(target, |Encode(target)|) <==> Encodable(target)
  {
    assert Be32(ip)[..4] == Be32(ip) && Encode(target)[..|Encode(target)|] == Encode(target);
    hide Encode, LongAt, Be32, ParseName, Encodable;
    LongBack(Be32(ip), 0, ip);
    NameRoundTrip(Encode(target), 0, target);
  }
}
