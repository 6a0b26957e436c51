/** The builder of DNS answers: a packet that grows by one question or one record at a time. */
module DnsAnswer {
  import opened MachineWords
  import opened DnsCodec

  const HEADER: nat := 12
  const TYPE_A: uint16 := 1
  const TYPE_PTR: uint16 := 12
  const CLASS_IN: uint16 := 1

  function EncodeRecord(r: Record): seq<byte> {
    Fixed(r.names, r.rtype, r.rclass, r.ttl, Wrap16(|r.rdata|)) + r.rdata
  }

  /** A record up to its data. */
  function Fixed(names: seq<Label>, rtype: uint16, rclass: uint16, ttl: uint32, length: uint16): seq<byte> {
    Encode(names) + Be16(rtype) + Be16(rclass) + Be32(ttl) + Be16(length)
  }

  function EncodeItem(i: Item): seq<byte> {
    match i
    case Q(q) => EncodeQuestion(q)
    case R(r) => EncodeRecord(r)
  }

  function EncodeItems(items: seq<Item>): seq<byte> {
    if items == [] then [] else EncodeItems(items[..|items| - 1]) + EncodeItem(items[|items| - 1])
  }

  function CountQ(items: seq<Item>): nat {
    if items == [] then 0 else CountQ(items[..|items| - 1]) + if items[|items| - 1].Q? then 1 else 0
  }

  function CountR(items: seq<Item>): nat {
    if items == [] then 0 else CountR(items[..|items| - 1]) + if items[|items| - 1].R? then 1 else 0
  }

  /** The header of a response: identifier, the response bit, and the four section counts. */
  function Header(id: uint16, questions: nat, answers: nat): (r: seq<byte>)
    ensures |r| == HEADER
  {
    Be16(id) + [0x80, 0] + Be16(Wrap16(questions)) + Be16(Wrap16(answers)) + [0, 0, 0, 0]
  }

  /** The whole packet after a run of additions. */
  function Message(id: uint16, items: seq<Item>): seq<byte> {
    Header(id, CountQ(items), CountR(items)) + EncodeItems(items)
  }

  /** `s` with `bytes` written over it at `at`. */
  function Splice(s: seq<byte>, at: nat, bytes: seq<byte>): (r: seq<byte>)
    requires at + |bytes| <= |s|
    ensures |r| == |s|
  {
    s[..at] + bytes + s[at + |bytes|..]
  }

  lemma SpliceTwice(s: seq<byte>, at: nat, a: seq<byte>, b: seq<byte>)
    requires at + |a| + |b| <= |s|
    ensures Splice(Splice(s, at, a), at + |a|, b) == Splice(s, at, a + b)
  {
  }

  lemma SpliceNone(s: seq<byte>, at: nat)
    requires at <= |s|
    ensures Splice(s, at, []) == s
  {
  }

  /** A memory copy into a buffer. */
  method Write(buf: array<byte>, at: nat, bytes: seq<byte>) returns (end: nat)
    requires at + |bytes| <= buf.Length
    modifies buf
    ensures end == at + |bytes| && buf[..] == Splice(old(buf[..]), at, bytes)
  {
    forall i | 0 <= i < |bytes| {
      buf[at + i] := bytes[i];
    }
    end := at + |bytes|;
  }

  lemma {:induction false} LabelsConcat(a: seq<Label>, b: seq<Label>)
    ensures Labels(a + b) == Labels(a) + Labels(b)
  {
    if a == [] {
      assert a + b == b;
    } else {
      assert (a + b)[1..] == a[1..] + b;
      LabelsConcat(a[1..], b);
    }
  }

  lemma LabelsPrefix(names: seq<Label>, i: nat)
    requires i < |names|
    ensures Labels(names[..i + 1]) == Labels(names[..i]) + [Low(|names[i]|)] + names[i]
    ensures |Labels(names[..i + 1])| <= |Labels(names)|
  {
    hide Labels;
    LabelsConcat(names[..i], [names[i]]);
    assert names[..i + 1] == names[..i] + [names[i]];
    LabelsOne(names[i]);
    LabelsConcat(names[..i + 1], names[i + 1..]);
    assert names == names[..i + 1] + names[i + 1..];
  }

  lemma LabelsOne(l: Label)
    ensures Labels([l]) == [Low(|l|)] + l
  {
    assert [l][1..] == [];
  }

  method WriteLabel(buf: array<byte>, at: nat, l: Label) returns (end: nat)
    requires at + 1 + |l| <= buf.Length
    modifies buf
    ensures end == at + 1 + |l| && buf[..] == Splice(old(buf[..]), at, [Low(|l|)] + l)
  {
    hide Splice;
    end := Write(buf, at, [Low(|l|)]);
    end := Write(buf, end, l);
    SpliceTwice(old(buf[..]), at, [Low(|l|)], l);
  }

  /** Encoding a name in place. */
  method EncodeName(buf: array<byte>, start: nat, names: seq<Label>) returns (end: nat)
    requires start + |Encode(names)| <= buf.Length
    modifies buf
    ensures end == start + |Encode(names)| && buf[..] == Splice(old(buf[..]), start, Encode(names))
  {
    hide Labels, Splice, Low;
    end := start;
    var i := 0;
    SpliceNone(buf[..], start);
    assert Labels([]) == [] by { NoBytes(); }
    assert names[..0] == [];
    while i < |names|
      invariant 0 <= i <= |names|
      invariant |Labels(names[..i])| <= |Labels(names)| && end == start + |Labels(names[..i])|
      invariant buf[..] == Splice(old(buf[..]), start, Labels(names[..i]))
    {
      LabelsPrefix(names, i);
      ghost var done := Labels(names[..i]);
      end := WriteLabel(buf, end, names[i]);
      SpliceTwice(old(buf[..]), start, done, [Low(|names[i]|)] + names[i]);
      assert done + ([Low(|names[i]|)] + names[i]) == done + [Low(|names[i]|)] + names[i];
      i := i + 1;
    }
    assert names[..i] == names;
    end := Write(buf, end, [0]);
    SpliceTwice(old(buf[..]), start, Labels(names), [0]);
  }

  lemma NoBytes()
    ensures Labels([]) == []
  {
  }

  /** The size that is reserved for a name is the number of bytes its encoding takes. */
  method CalcTotalSize(names: seq<Label>) returns (total: nat)
    ensures total == |Encode(names)|
  {
    hide Labels;
    total := 0;
    assert Labels([]) == [] by { NoBytes(); }
    assert names[..0] == [];
    var i := 0;
    while i < |names|
      invariant 0 <= i <= |names| && total == |Labels(names[..i])|
    {
      LabelsPrefix(names, i);
      total := total + |names[i]| + 1;
      i := i + 1;
    }
    assert names[..i] == names;
    total := total + 1;
  }

  // ---- The packet as it grows --------------------------------------------------------------

  lemma SpliceBehind(s: seq<byte>, at: nat, a: seq<byte>, b: seq<byte>)
    requires at + |a| + |b| <= |s|
    ensures Splice(Splice(s, at + |a|, b), at, a) == Splice(s, at, a + b)
  {
  }

  lemma SpliceTail(a: seq<byte>, z: seq<byte>, x: seq<byte>)
    requires |x| <= |z|
    ensures Splice(a + z, |a|, x) == a + x + z[|x|..]
  {
  }

  /** Adding one to a section count in the header. */
  lemma CountUp(id: uint16, q: nat, a: nat, rest: seq<byte>)
    ensures var m := Header(id, q, a) + rest;
      && Splice(m, 4, Be16(Wrap16(WordAt(m, 4) + 1))) == Header(id, q + 1, a) + rest
      && Splice(m, 6, Be16(Wrap16(WordAt(m, 6) + 1))) == Header(id, q, a + 1) + rest
  {
    hide Splice;
    var front, qs, rs, back := Be16(id) + [0x80, 0], Be16(Wrap16(q)), Be16(Wrap16(a)), [0, 0, 0, 0] + rest;
    var m := Header(id, q, a) + rest;
    assert m == front + (qs + (rs + back)) && m == front + qs + (rs + back);
    CountWord(front, q, rs + back);
    CountWord(front + qs, a, back);
    assert Header(id, q + 1, a) + rest == front + Be16(Wrap16(q + 1)) + (rs + back);
    assert Header(id, q, a + 1) + rest == front + qs + Be16(Wrap16(a + 1)) + back;
  }

  lemma CountWord(front: seq<byte>, n: nat, back: seq<byte>)
    ensures var m := front + (Be16(Wrap16(n)) + back);
      && WordAt(m, |front|) == Wrap16(n)
      && Splice(m, |front|, Be16(Wrap16(WordAt(m, |front|) + 1))) == front + Be16(Wrap16(n + 1)) + back
  {
    WordFirst(front, Wrap16(n), back);
    hide Splice, Be16, WordAt;
    SpliceTail(front, Be16(Wrap16(n)) + back, Be16(Wrap16(n + 1)));
    assert (Be16(Wrap16(n)) + back)[2..] == back;
  }

  lemma WordFirst(front: seq<byte>, x: uint16, back: seq<byte>)
    ensures WordAt(front + (Be16(x) + back), |front|) == x
  {
    var m := front + (Be16(x) + back);
    assert m[|front|] == x / 256 && m[|front| + 1] == x % 256;
  }

  lemma MessageAppend(id: uint16, items: seq<Item>, i: Item)
    ensures Message(id, items + [i]) ==
      Header(id, CountQ(items) + (if i.Q? then 1 else 0), CountR(items) + if i.R? then 1 else 0)
      + EncodeItems(items) + EncodeItem(i)
  {
    OneMore(items, i);
    hide Header, EncodeItems, CountQ, CountR, EncodeItem;
    var h := Header(id, CountQ(items) + (if i.Q? then 1 else 0), CountR(items) + if i.R? then 1 else 0);
    assert h + (EncodeItems(items) + EncodeItem(i)) == h + EncodeItems(items) + EncodeItem(i);
  }

  lemma OneMore(items: seq<Item>, i: Item)
    ensures EncodeItems(items + [i]) == EncodeItems(items) + EncodeItem(i)
    ensures CountQ(items + [i]) == CountQ(items) + if i.Q? then 1 else 0
    ensures CountR(items + [i]) == CountR(items) + if i.R? then 1 else 0
  {
    hide EncodeItem;
    assert (items + [i])[..|items|] == items;
  }

  /** A record whose fixed part and data have been written. */
  lemma RecordDone(id: uint16, items: seq<Item>, r: Record, packet: seq<byte>)
    requires |r.rdata| < 0x1_0000
    requires packet == Header(id, CountQ(items), CountR(items) + 1) + EncodeItems(items)
      + Fixed(r.names, r.rtype, r.rclass, r.ttl, |r.rdata|) + r.rdata
    ensures packet == Message(id, items + [R(r)])
  {
    hide Header, EncodeItems, CountQ, CountR, Fixed, Message;
    MessageAppend(id, items, R(r));
    var h := Header(id, CountQ(items), CountR(items) + 1) + EncodeItems(items);
    assert h + EncodeRecord(r) == h + Fixed(r.names, r.rtype, r.rclass, r.ttl, |r.rdata|) + r.rdata;
  }

  /** A packet with a pointer record for which too few bytes are reserved. */
  ghost predicate Short(packet: seq<byte>, id: uint16, items: seq<Item>, names: seq<Label>, ttl: uint32, size: nat) {
    var front := Header(id, CountQ(items), CountR(items) + 1) + EncodeItems(items)
                 + Fixed(names, TYPE_PTR, CLASS_IN, ttl, Wrap16(size));
    front <= packet && |packet| == |front| + Wrap16(size) < |front| + size
  }

  class Answer {
    var packet: array<byte>
    ghost const id: uint16
    ghost var items: seq<Item>

    ghost predicate Valid()
      reads this, packet
    {
      packet[..] == Message(id, items)
    }

    constructor (id: uint16)
      ensures Valid() && fresh(packet) && this.id == id && items == []
    {
      packet := new byte[HEADER](_ => 0);
      this.id := id;
      items := [];
      new;
      ghost var zeros := packet[..];
      var end := Write(packet, 0, Be16(id));
      end := Write(packet, end, [0x80]);
      assert packet[..] == Header(id, 0, 0);
    }

    /** Room for `more` bytes at the end. */
    method Grow(more: nat)
      modifies this
      ensures fresh(packet) && packet.Length == old(packet.Length) + more && items == old(items)
      ensures packet[..old(packet.Length)] == old(packet[..])
    {
      var mem := new byte[packet.Length + more](_ => 0);
      forall i | 0 <= i < packet.Length {
        mem[i] := packet[i];
      }
      packet := mem;
    }

    /** Room for an item, counted in the header at `at`. */
    method Reserve(more: nat, at: nat)
      requires Valid() && (at == 4 || at == 6)
      modifies this
      ensures fresh(packet) && items == old(items) && packet.Length == old(packet.Length) + more
      ensures packet[..old(packet.Length)] ==
        Header(id, CountQ(items) + (if at == 4 then 1 else 0), CountR(items) + if at == 6 then 1 else 0) + EncodeItems(items)
    {
      hide Header, Splice, EncodeItems, CountQ, CountR;
      Grow(more);
      ghost var m, z := packet[..old(packet.Length)], packet[old(packet.Length)..];
      assert packet[..] == m + z;
      assert m + z == Header(id, CountQ(items), CountR(items)) + (EncodeItems(items) + z);
      CountUp(id, CountQ(items), CountR(items), EncodeItems(items) + z);
      var end := Write(packet, at, Be16(Wrap16(WordAt(packet[..], at) + 1)));
      ghost var h := Header(id, CountQ(items) + (if at == 4 then 1 else 0), CountR(items) + if at == 6 then 1 else 0);
      assert packet[..] == h + (EncodeItems(items) + z) == h + EncodeItems(items) + z;
    }

    /** A question goes to the end of the packet, and the writing ends where the packet does. */
    method AddQuestion(q: Question)
      requires Valid()
      modifies this
      ensures Valid() && fresh(packet) && items == old(items) + [Q(q)]
    {
      hide Header, Splice, EncodeItems, CountQ, CountR, Encode, Message;
      var size := CalcTotalSize(q.names);
      Reserve(size + 4, 4);
      var pos := packet.Length - (size + 4);
      ghost var front, z := packet[..pos], packet[pos..];
      assert packet[..] == front + z;
      pos := EncodeName(packet, pos, q.names);
      var last := Write(packet, pos + 2, Be16(q.qclass));
      last := Write(packet, pos, Be16(q.qtype));
      pos := pos + 4;
      assert pos == packet.Length;
      SpliceBehind(Splice(front + z, |front|, Encode(q.names)), |front| + size, Be16(q.qtype), Be16(q.qclass));
      SpliceTwice(front + z, |front|, Encode(q.names), Be16(q.qtype) + Be16(q.qclass));
      assert Encode(q.names) + (Be16(q.qtype) + Be16(q.qclass)) == EncodeQuestion(q);
      SpliceTail(front, z, EncodeQuestion(q));
      MessageAppend(id, items, Q(q));
      assert packet[..] == front + EncodeQuestion(q);
      items := items + [Q(q)];
    }

    /** The ten fixed bytes of a record, in the order the source stores them. */
    method WriteFixed(at: nat, rtype: uint16, rclass: uint16, ttl: uint32, length: uint16)
      requires at + 10 <= packet.Length
      modifies packet
      ensures packet[..] == Splice(old(packet[..]), at, Be16(rtype) + Be16(rclass) + Be32(ttl) + Be16(length))
    {
      hide Splice, Be16, Be32;
      ghost var s := packet[..];
      var ty, cl, tt, le := Be16(rtype), Be16(rclass), Be32(ttl), Be16(length);
      var end := Write(packet, at + 2, cl);
      end := Write(packet, at + 8, le);
      end := Write(packet, at + 4, tt);
      end := Write(packet, at, ty);
      SpliceBehind(Splice(s, at + 2, cl), at + 4, tt, le);
      SpliceTwice(s, at + 2, cl, tt + le);
      SpliceBehind(s, at, ty, cl + (tt + le));
      assert ty + (cl + (tt + le)) == ty + cl + tt + le;
    }

    /** A record without its data, for which `extra` bytes stay free at the end. */
    method AddGeneric(names: seq<Label>, ttl: uint32, rtype: uint16, rclass: uint16, extra: uint16) returns (pos: nat)
      requires Valid()
      modifies this
      ensures fresh(packet) && items == old(items)
      ensures packet.Length == pos + extra
      ensures packet[..pos] == Header(id, CountQ(items), CountR(items) + 1) + EncodeItems(items)
        + Fixed(names, rtype, rclass, ttl, extra)
    {
      hide Header, Splice, EncodeItems, CountQ, CountR, Encode, Message, Be16, Be32;
      var size := CalcTotalSize(names);
      var total := size + 10 + extra;
      Reserve(total, 6);
      pos := packet.Length - total;
      ghost var front, z := packet[..pos], packet[pos..];
      assert packet[..] == front + z;
      pos := EncodeName(packet, pos, names);
      WriteFixed(pos, rtype, rclass, ttl, extra);
      pos := pos + 10;
      ghost var fixed := Be16(rtype) + Be16(rclass) + Be32(ttl) + Be16(extra);
      SpliceTwice(front + z, |front|, Encode(names), fixed);
      assert Encode(names) + fixed == Fixed(names, rtype, rclass, ttl, extra);
      SpliceTail(front, z, Encode(names) + fixed);
      assert packet[..pos] == front + (Encode(names) + fixed);
    }

    /** A pointer record. Its data is reserved with a 16-bit size: the writing ends where the packet does exactly when the
        encoded name fits in that. Otherwise it would run past the end; the packet is then left as it is before that. */
    method AddPtr(names: seq<Label>, target: seq<Label>, ttl: uint32) returns (ok: bool)
      requires Valid()
      modifies this
      ensures fresh(packet) && (ok <==> |Encode(target)| < 0x1_0000)
      ensures ok ==> Valid() && items == old(items) + [R(Record(names, TYPE_PTR, CLASS_IN, ttl, Encode(target)))]
      ensures !ok ==> items == old(items) && Short(packet[..], id, items, names, ttl, |Encode(target)|)
    {
      hide Header, Splice, EncodeItems, CountQ, CountR, Encode, Message, Fixed;
      var size := CalcTotalSize(target);
      var pos := AddGeneric(names, ttl, TYPE_PTR, CLASS_IN, Wrap16(size));
      ok := pos + size <= packet.Length;
      if ok {
        ghost var front, z := packet[..pos], packet[pos..];
        assert packet[..] == front + z;
        pos := EncodeName(packet, pos, target);
        assert pos == packet.Length;
        SpliceTail(front, z, Encode(target));
        assert packet[..] == front + Encode(target);
        RecordDone(id, items, Record(names, TYPE_PTR, CLASS_IN, ttl, Encode(target)), packet[..]);
        items := items + [R(Record(names, TYPE_PTR, CLASS_IN, ttl, Encode(target)))];
      }
    }

    /** An address record; its data is the address in network byte order. */
    method AddA(names: seq<Label>, ip: uint32, ttl: uint32)
      requires Valid()
      modifies this
      ensures Valid() && fresh(packet) && items == old(items) + [R(Record(names, TYPE_A, CLASS_IN, ttl, Be32(ip)))]
    {
      hide Header, Splice, EncodeItems, CountQ, CountR, Encode, Message, Fixed, Be32;
      var pos := AddGeneric(names, ttl, TYPE_A, CLASS_IN, 4);
      ghost var front, z := packet[..pos], packet[pos..];
      assert packet[..] == front + z;
      pos := Write(packet, pos, Be32(ip));
      assert pos == packet.Length;
      SpliceTail(front, z, Be32(ip));
      assert packet[..] == front + Be32(ip);
      RecordDone(id, items, Record(names, TYPE_A, CLASS_IN, ttl, Be32(ip)), packet[..]);
      items := items + [R(Record(names, TYPE_A, CLASS_IN, ttl, Be32(ip)))];
    }
  }

  // ---- What a receiver reads ------------------------------------------------------------

  function Asked(qs: seq<Question>): (r: seq<Item>)
    ensures |r| == |qs|
  {
    seq(|qs|, i requires 0 <= i < |qs| => Q(qs[i]))
  }

  predicate OnlyRecords(rs: seq<Item>) {
    forall i :: 0 <= i < |rs| ==> rs[i].R?
  }

  lemma {:induction false} QuestionsConcat(a: seq<Question>, q: Question)
    ensures EncodeQuestions(a + [q]) == EncodeQuestions(a) + EncodeQuestion(q)
  {
    hide EncodeQuestion;
    if a == [] {
      assert [q][1..] == [] && a + [q] == [q];
    } else {
      assert (a + [q])[1..] == a[1..] + [q];
      QuestionsConcat(a[1..], q);
    }
  }

  lemma {:induction false} AskedBytes(qs: seq<Question>)
    ensures EncodeItems(Asked(qs)) == EncodeQuestions(qs) && CountQ(Asked(qs)) == |qs|
  {
    hide EncodeQuestion;
    if qs != [] {
      var front, q := qs[..|qs| - 1], qs[|qs| - 1];
      AskedBytes(front);
      assert Asked(qs)[..|qs| - 1] == Asked(front);
      assert qs == front + [q];
      QuestionsConcat(front, q);
    }
  }

  /** Records after the questions leave the question section where it is. */
  lemma {:induction false} RecordsAfter(qs: seq<Question>, rs: seq<Item>)
    requires OnlyRecords(rs)
    ensures EncodeQuestions(qs) <= EncodeItems(Asked(qs) + rs) && CountQ(Asked(qs) + rs) == |qs|
  {
    hide EncodeItems, CountQ, EncodeQuestions, Asked;
    if rs == [] {
      AskedBytes(qs);
      assert Asked(qs) + rs == Asked(qs);
    } else {
      var n := |rs| - 1;
      RecordsAfter(qs, rs[..n]);
      OneMore(Asked(qs) + rs[..n], rs[n]);
      assert rs == rs[..n] + [rs[n]];
      assert Asked(qs) + rs == Asked(qs) + rs[..n] + [rs[n]];
    }
  }

  lemma {:induction false} ParsedCount(mem: seq<byte>, at: nat, n: nat)
    ensures ParseQuestions(mem, at, n).Parsed? ==> |ParseQuestions(mem, at, n).questions| == n
    decreases n
  {
    hide ParseName;
    if n > 0 && ParseName(mem, at).Named? {
      ParsedCount(mem, ParseName(mem, at).end + 4, n - 1);
    }
  }

  /** A receiver that parses as many questions as the header counts gets back the questions that were added before the
      records, exactly when the count fits and every label can be encoded. */
  lemma ReceiverReads(id: uint16, qs: seq<Question>, rs: seq<Item>)
    requires OnlyRecords(rs)
    ensures var m := Message(id, Asked(qs) + rs);
      ParseQuestions(m, HEADER, WordAt(m, 4)) == Parsed(qs, HEADER + |EncodeQuestions(qs)|) <==>
      |qs| < 0x1_0000 && AllEncodable(qs)
  {
    hide *;
    var m := Message(id, Asked(qs) + rs);
    SectionHeld(id, qs, rs);
    ParsedCount(m, HEADER, WordAt(m, 4));
    QuestionsRoundTrip(m, HEADER, qs);
    if |qs| < 0x1_0000 {
      WrapSmall(|qs|);
    } else {
      assert WordAt(m, 4) != |qs|;
    }
  }

  lemma WrapSmall(n: nat)
    requires n < 0x1_0000
    ensures Wrap16(n) == n
  {
  }

  /** The question section is right after the header, which counts it. */
  lemma SectionHeld(id: uint16, qs: seq<Question>, rs: seq<Item>)
    requires OnlyRecords(rs)
    ensures var m := Message(id, Asked(qs) + rs);
      |m| >= 6 && Holds(m, HEADER, EncodeQuestions(qs)) && WordAt(m, 4) == Wrap16(|qs|)
  {
    hide EncodeItems, Header, WordAt, CountQ, CountR, EncodeQuestions, Asked;
    var items, b := Asked(qs) + rs, EncodeQuestions(qs);
    RecordsAfter(qs, rs);
    QuestionCount(id, items);
    assert Message(id, items)[HEADER..HEADER + |b|] == EncodeItems(items)[..|b|] == b;
  }

  lemma QuestionCount(id: uint16, items: seq<Item>)
    ensures |Message(id, items)| >= HEADER && WordAt(Message(id, items), 4) == Wrap16(CountQ(items))
  {
    hide EncodeItems, CountQ, CountR;
    var m := Message(id, items);
    assert m[4] == Wrap16(CountQ(items)) / 256 && m[5] == Wrap16(CountQ(items)) % 256;
  }

  lemma {:induction false} SameLabels(l: Label, n: nat)
    ensures |Labels(seq(n, _ => l))| == n * (|l| + 1)
  {
    if n > 0 {
      SameLabels(l, n - 1);
      assert seq(n, _ => l)[1..] == seq(n - 1, _ => l);
    }
  }

  /** A name that can be encoded and read back, but does not fit in the data of a pointer record: 256 labels of 255 bytes. */
  lemma PtrExample(l: Label)
    requires |l| == 255
    ensures var target := seq(256, _ => l); Encodable(target) && |Encode(target)| == 0x1_0001 >= 0x1_0000
  {
    SameLabels(l, 256);
  }
}
