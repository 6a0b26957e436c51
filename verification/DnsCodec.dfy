/** The domain name messages of the router's name server: names as length-prefixed labels (section 3.1 of RFC 1035), the
    question section (section 4.1.2), and the builder of answers (section 4.1.3). */
module DnsCodec {
  import opened MachineWords
  import opened Slices

  predicate ZeroFree(s: seq<byte>) {
    forall i :: 0 <= i < |s| ==> s[i] != 0
  }

  /** A string of C: the bytes before its closing zero. */
  type Label = s: seq<byte> | ZeroFree(s)

  datatype Question = Question(names: seq<Label>, qtype: uint16, qclass: uint16)

  datatype Record = Record(names: seq<Label>, rtype: uint16, rclass: uint16, ttl: uint32, rdata: seq<byte>)

  /** What was added to an answer, in order. */
  datatype Item = Q(question: Question) | R(record: Record)

  // ---- The bytes on the wire ------------------------------------------------------------

  function Low(n: nat): byte {
    n % 256
  }

  /** Each label after its length; the length is stored in one byte. */
  function Labels(names: seq<Label>): seq<byte> {
    if names == [] then [] else [Low(|names[0]|)] + names[0] + Labels(names[1..])
  }

  function Encode(names: seq<Label>): seq<byte> {
    Labels(names) + [0]
  }

  function Be16(x: uint16): (r: seq<byte>)
    ensures |r| == 2
  {
    [x / 256, x % 256]
  }

  function Be32(x: uint32): (r: seq<byte>)
    ensures |r| == 4
  {
    Be16(x / 0x1_0000) + Be16(x % 0x1_0000)
  }

  function EncodeQuestion(q: Question): seq<byte> {
    Encode(q.names) + Be16(q.qtype) + Be16(q.qclass)
  }

  function EncodeQuestions(qs: seq<Question>): seq<byte> {
    if qs == [] then [] else EncodeQuestion(qs[0]) + EncodeQuestions(qs[1..])
  }

  // ---- Parsing --------------------------------------------------------------------------

  /** `Overrun` is a parse that runs past the end of the packet, which the source does not notice. */
  datatype NameResult = NameOverrun | Named(names: seq<Label>, end: nat)
  datatype Result = Overrun | Parsed(questions: seq<Question>, end: nat)

  /** A copied label, read as a string: it ends at its first zero byte. */
  function AsString(s: seq<byte>): (r: Label)
    ensures |r| <= |s| && r == s[..|r|] && (|r| == |s| || s[|r|] == 0)
  {
    if s == [] || s[0] == 0 then [] else
      var t := AsString(s[1..]);
      [s[0]] + t
  }

  function ParseName(mem: seq<byte>, at: nat): NameResult
    decreases |mem| - at
  {
    if at >= |mem| then NameOverrun
    else if mem[at] == 0 then Named([], at + 1)
    else if at + 1 + mem[at] > |mem| then NameOverrun
    else Prepend([AsString(mem[at + 1..at + 1 + mem[at]])], ParseName(mem, at + 1 + mem[at]))
  }

  function Prepend(names: seq<Label>, r: NameResult): NameResult {
    match r
    case NameOverrun => NameOverrun
    case Named(more, end) => Named(names + more, end)
  }

  function WordAt(mem: seq<byte>, at: nat): uint16
    requires at + 2 <= |mem|
  {
    var hi: int := mem[at];
    256 * hi + mem[at + 1]
  }

  function ParseQuestions(mem: seq<byte>, at: nat, n: nat): Result
    decreases n
  {
    if n == 0 then Parsed([], at) else
      match ParseName(mem, at)
      case NameOverrun => Overrun
      case Named(names, e) =>
        if e + 4 > |mem| then Overrun
        else After([Question(names, WordAt(mem, e), WordAt(mem, e + 2))], ParseQuestions(mem, e + 4, n - 1))
  }

  function After(qs: seq<Question>, r: Result): Result {
    match r
    case Overrun => Overrun
    case Parsed(more, end) => Parsed(qs + more, end)
  }

  /** The labels of one name, one after the other. */
  method ReadName(mem: seq<byte>, at: nat) returns (r: NameResult)
    ensures r == ParseName(mem, at)
  {
    hide AsString, ParseName, Prepend;
    var names: seq<Label>, p := [], at;
    PrependNone(ParseName(mem, at));
    while true
      invariant p <= |mem| || p == at
      invariant ParseName(mem, at) == Prepend(names, ParseName(mem, p))
      decreases |mem| - p
    {
      ParseNext(mem, p, names);
      if p >= |mem| {
        return NameOverrun;
      }
      var size := mem[p];
      p := p + 1;
      if size == 0 {
        return Named(names, p);
      }
      if p + size > |mem| {
        return NameOverrun;
      }
      names := names + [AsString(mem[p..p + size])];
      p := p + size;
    }
  }

  lemma PrependNone(r: NameResult)
    ensures Prepend([], r) == r
  {
    if r.Named? {
      assert [] + r.names == r.names;
    }
  }

  /** One turn of the loop: the end of the packet, the end of the name, or a label. */
  lemma ParseNext(mem: seq<byte>, p: nat, names: seq<Label>)
    ensures var r := Prepend(names, ParseName(mem, p));
      if p >= |mem| then r == NameOverrun
      else if mem[p] == 0 then r == Named(names, p + 1)
      else if p + 1 + mem[p] > |mem| then r == NameOverrun
      else r == Prepend(names + [AsString(mem[p + 1..p + 1 + mem[p]])], ParseName(mem, p + 1 + mem[p]))
  {
    hide AsString;
    if p < |mem| && p + 1 + mem[p] <= |mem| {
      PrependTwice(names, [AsString(mem[p + 1..p + 1 + mem[p]])], ParseName(mem, p + 1 + mem[p]));
    }
    assert names + [] == names;
  }

  lemma PrependTwice(a: seq<Label>, b: seq<Label>, r: NameResult)
    ensures Prepend(a, Prepend(b, r)) == Prepend(a + b, r)
  {
    if r.Named? {
      assert a + (b + r.names) == a + b + r.names;
    }
  }

  lemma AfterTwice(a: seq<Question>, b: seq<Question>, r: Result)
    ensures After(a, After(b, r)) == After(a + b, r)
  {
    if r.Parsed? {
      assert a + (b + r.questions) == a + b + r.questions;
    }
  }

  /** The question section: `size` names, each with its type and class. */
  method ReadQuestions(mem: seq<byte>, at: nat, size: nat) returns (r: Result)
    ensures r == ParseQuestions(mem, at, size)
  {
    hide ParseName, WordAt;
    var qs: seq<Question>, p := [], at;
    assert After([], ParseQuestions(mem, at, size)) == ParseQuestions(mem, at, size);
    var id := 0;
    while id < size
      invariant 0 <= id <= size
      invariant ParseQuestions(mem, at, size) == After(qs, ParseQuestions(mem, p, size - id))
    {
      var name := ReadName(mem, p);
      if name.NameOverrun? || name.end + 4 > |mem| {
        return Overrun;
      }
      p := name.end;
      var qtype := WordAt(mem, p);
      p := p + 2;
      var qclass := WordAt(mem, p);
      p := p + 2;
      AfterTwice(qs, [Question(name.names, qtype, qclass)], ParseQuestions(mem, p, size - id - 1));
      qs := qs + [Question(name.names, qtype, qclass)];
      id := id + 1;
    }
    r := Parsed(qs, p);
  }

  // ---- The round trip --------------------------------------------------------------------

  /** The names that survive: no empty label, and none whose length needs more than a byte. */
  predicate Encodable(names: seq<Label>) {
    forall i :: 0 <= i < |names| ==> 1 <= |names[i]| <= 255
  }

  /** `s` is in `mem` at `at`. */
  predicate Holds(mem: seq<byte>, at: nat, s: seq<byte>) {
    at + |s| <= |mem| && mem[at..at + |s|] == s
  }

  lemma HoldsParts(mem: seq<byte>, at: nat, a: seq<byte>, b: seq<byte>)
    requires Holds(mem, at, a + b)
    ensures Holds(mem, at, a) && Holds(mem, at + |a|, b)
  {
    assert mem[at..at + |a|] == (a + b)[..|a|];
    assert mem[at + |a|..at + |a + b|] == (a + b)[|a|..];
  }

  lemma ZeroFreeString(s: Label)
    ensures AsString(s) == s
  {
  }

  /** One label at the front of a parse. */
  lemma ParseFirst(mem: seq<byte>, at: nat, l: Label)
    requires 1 <= |l| <= 255 && Holds(mem, at, [Low(|l|)] + l)
    ensures ParseName(mem, at) == Prepend([l], ParseName(mem, at + 1 + |l|))
  {
    HoldsParts(mem, at, [Low(|l|)], l);
    assert mem[at] == mem[at..at + 1][0] == |l|;
    ZeroFreeString(l);
  }

  /** Parsing an encoded name gives it back if every label has 1 to 255 bytes, and another name otherwise. */
  lemma {:induction false} NameRoundTrip(mem: seq<byte>, at: nat, names: seq<Label>)
    requires Holds(mem, at, Encode(names))
    ensures Encodable(names) ==> ParseName(mem, at) == Named(names, at + |Encode(names)|)
    ensures !Encodable(names) ==> ParseName(mem, at).NameOverrun? || ParseName(mem, at).names != names
    decreases |names|
  {
    hide AsString, Encode, Encodable, ParseName, Holds, Prepend;
    if names == [] {
      NoLabels(mem, at);
    } else {
      var l, rest := names[0], names[1..];
      var first := [Low(|l|)] + l;
      EncodeFront(names);
      HoldsParts(mem, at, first, Encode(rest));
      if 1 <= |l| <= 255 {
        ParseFirst(mem, at, l);
        NameRoundTrip(mem, at + 1 + |l|, rest);
        PrependBack(l, rest, ParseName(mem, at + 1 + |l|), at + |Encode(names)|);
        FirstAndRest(names);
        RestEncodable(names);
      } else {
        BadFirst(names);
        HoldsParts(mem, at, [Low(|l|)], l);
        ParseShort(mem, at);
      }
    }
  }

  /** How many bytes come before label `i`: each label before it and its length. */
  function Offset(names: seq<Label>, i: nat): nat
    requires i <= |names|
  {
    if i == 0 then 0 else Offset(names, i - 1) + 1 + |names[i - 1]|
  }

  /** The layout on the wire (section 3.1 of RFC 1035): each label after a byte with its length, and a zero byte at the end. */
  lemma {:induction false} Layout(names: seq<Label>, i: nat)
    requires i <= |names|
    ensures Offset(names, i) + |Encode(names[i..])| == |Encode(names)| && Holds(Encode(names), Offset(names, i), Encode(names[i..]))
    ensures i < |names| ==>
      var at := Offset(names, i);
      && at + 1 + |names[i]| < |Encode(names)|
      && Encode(names)[at] == |names[i]| % 256 && Encode(names)[at + 1..at + 1 + |names[i]|] == names[i]
    ensures i == |names| ==> Offset(names, i) == |Encode(names)| - 1 && Encode(names)[|Encode(names)| - 1] == 0
  {
    hide Encode, Holds;
    if i == 0 {
      HoldsAll(Encode(names));
      assert names[0..] == names;
    } else {
      Layout(names, i - 1);
      DropNext(names, i);
      EncodeFront(names[i - 1..]);
      HoldsParts(Encode(names), Offset(names, i - 1), [Low(|names[i - 1]|)] + names[i - 1], Encode(names[i..]));
    }
    LayoutHere(Encode(names), Offset(names, i), names[i..]);
  }

  lemma HoldsAll(s: seq<byte>)
    ensures Holds(s, 0, s)
  {
  }

  lemma LayoutHere(mem: seq<byte>, at: nat, names: seq<Label>)
    requires Holds(mem, at, Encode(names))
    ensures names != [] ==>
      at + 1 + |names[0]| < |mem| && mem[at] == |names[0]| % 256 && mem[at + 1..at + 1 + |names[0]|] == names[0]
    ensures names == [] ==> |Encode(names)| == 1 && at < |mem| && mem[at] == 0
  {
    if names == [] {
      NoLabels(mem, at);
      assert mem[at] == mem[at..at + 1][0];
    } else {
      EncodeFront(names);
      assert |Encode(names[1..])| > 0;
      hide Encode;
      HoldsParts(mem, at, [Low(|names[0]|)] + names[0], Encode(names[1..]));
      HoldsParts(mem, at, [Low(|names[0]|)], names[0]);
      assert mem[at] == mem[at..at + 1][0];
    }
  }

  /** An empty label, and a label of 256 bytes: both are read back as the empty name. */
  lemma LabelExamples(l: Label)
    requires l == [] || |l| == 256
    ensures ParseName(Encode([l]), 0) == Named([], 1) && !Encodable([l])
  {
    EncodeFront([l]);
    assert Encode([l])[0] == Low(|l|) == 0;
    BadFirst([l]);
  }

  lemma NoLabels(mem: seq<byte>, at: nat)
    requires Holds(mem, at, Encode([]))
    ensures Encodable([]) && |Encode([])| == 1 && ParseName(mem, at) == Named([], at + 1)
  {
    assert mem[at] == mem[at..at + 1][0];
  }

  lemma EncodeFront(names: seq<Label>)
    requires names != []
    ensures Encode(names) == [Low(|names[0]|)] + names[0] + Encode(names[1..])
  {
  }

  /** A parse of the rest is exact if and only if the parse with the label in front is. */
  lemma PrependBack(l: Label, rest: seq<Label>, r: NameResult, end: nat)
    ensures Prepend([l], r) == Named([l] + rest, end) <==> r == Named(rest, end)
    ensures Prepend([l], r).Named? && Prepend([l], r).names == [l] + rest <==> r.Named? && r.names == rest
  {
    if r.Named? {
      assert ([l] + r.names)[1..] == r.names && ([l] + rest)[1..] == rest;
    }
  }

  lemma BadFirst(names: seq<Label>)
    requires names != [] && !(1 <= |names[0]| <= 255)
    ensures !Encodable(names)
  {
    assert |names[0]| == 0 || |names[0]| > 255;
  }

  lemma RestEncodable(names: seq<Label>)
    requires names != [] && 1 <= |names[0]| <= 255
    ensures Encodable(names) <==> Encodable(names[1..])
  {
    if Encodable(names[1..]) {
      forall i | 0 <= i < |names|
        ensures 1 <= |names[i]| <= 255
      {
        if i > 0 {
          assert names[i] == names[1..][i - 1];
        }
      }
    }
  }

  /** No parsed label is longer than a byte can say, and a name that starts with a zero byte is empty. */
  lemma ParseShort(mem: seq<byte>, at: nat)
    ensures var r := ParseName(mem, at);
      r.Named? && r.names != [] ==> |r.names[0]| <= 255 && at < |mem| && mem[at] != 0
  {
  }

  predicate AllEncodable(qs: seq<Question>) {
    forall i :: 0 <= i < |qs| ==> Encodable(qs[i].names)
  }

  lemma AllButFirst(qs: seq<Question>)
    requires qs != []
    ensures AllEncodable(qs) <==> Encodable(qs[0].names) && AllEncodable(qs[1..])
  {
    hide Encodable;
    assert forall i :: 0 < i < |qs| ==> qs[i] == qs[1..][i - 1];
  }

  /** One question at the front of a parse. */
  lemma ParseQuestion(mem: seq<byte>, at: nat, q: Question, n: nat)
    requires Holds(mem, at, EncodeQuestion(q)) && n > 0
    ensures Encodable(q.names) ==>
      ParseQuestions(mem, at, n) == After([q], ParseQuestions(mem, at + |EncodeQuestion(q)|, n - 1))
    ensures !Encodable(q.names) ==>
      var r := ParseQuestions(mem, at, n); r.Overrun? || r.questions == [] || r.questions[0] != q
  {
    hide Encode, ParseName, Encodable, WordAt, Holds, Be16;
    var e := at + |Encode(q.names)|;
    HoldsParts(mem, at, Encode(q.names) + Be16(q.qtype), Be16(q.qclass));
    HoldsParts(mem, at, Encode(q.names), Be16(q.qtype));
    NameRoundTrip(mem, at, q.names);
    HoldsFits(mem, e + 2, Be16(q.qclass));
    WordBack(mem, e, q.qtype);
    WordBack(mem, e + 2, q.qclass);
  }

  lemma HoldsFits(mem: seq<byte>, at: nat, s: seq<byte>)
    requires Holds(mem, at, s)
    ensures at + |s| <= |mem|
  {
  }

  /** The question section survives exactly when all its names do. */
  lemma {:induction false} QuestionsRoundTrip(mem: seq<byte>, at: nat, qs: seq<Question>)
    requires Holds(mem, at, EncodeQuestions(qs))
    ensures ParseQuestions(mem, at, |qs|) == Parsed(qs, at + |EncodeQuestions(qs)|) <==> AllEncodable(qs)
    decreases |qs|
  {
    hide *;
    if qs == [] {
      NoQuestions(mem, at);
    } else {
      var rest, p, end := qs[1..], at + |EncodeQuestion(qs[0])|, at + |EncodeQuestions(qs)|;
      AllButFirst(qs);
      QuestionsFront(qs);
      HoldsParts(mem, at, EncodeQuestion(qs[0]), EncodeQuestions(rest));
      ParseQuestion(mem, at, qs[0], |qs|);
      if Encodable(qs[0].names) {
        QuestionsRoundTrip(mem, p, rest);
        AfterBack(qs[0], rest, ParseQuestions(mem, p, |rest|), end);
        FirstAndRest(qs);
      } else {
        OtherFirst(ParseQuestions(mem, at, |qs|), qs, end);
      }
    }
  }

  lemma QuestionsFront(qs: seq<Question>)
    requires qs != []
    ensures EncodeQuestions(qs) == EncodeQuestion(qs[0]) + EncodeQuestions(qs[1..])
  {
  }

  lemma OtherFirst(r: Result, qs: seq<Question>, end: nat)
    requires qs != [] && (r.Overrun? || r.questions == [] || r.questions[0] != qs[0])
    ensures r != Parsed(qs, end)
  {
  }

  lemma NoQuestions(mem: seq<byte>, at: nat)
    ensures ParseQuestions(mem, at, 0) == Parsed([], at) && EncodeQuestions([]) == [] && AllEncodable([])
  {
  }

  lemma AfterBack(q: Question, rest: seq<Question>, r: Result, end: nat)
    ensures After([q], r) == Parsed([q] + rest, end) <==> r == Parsed(rest, end)
  {
    if r.Parsed? {
      assert ([q] + r.questions)[1..] == r.questions && ([q] + rest)[1..] == rest;
    }
  }

  lemma WordBack(mem: seq<byte>, at: nat, x: uint16)
    requires Holds(mem, at, Be16(x))
    ensures at + 2 <= |mem| && WordAt(mem, at) == x
  {
    assert mem[at] == mem[at..at + 2][0] && mem[at + 1] == mem[at..at + 2][1];
  }

  /** No label of the name at `at` holds a zero byte. */
  predicate CleanLabels(mem: seq<byte>, at: nat)
    decreases |mem| - at
  {
    if at < |mem| && mem[at] != 0 && at + 1 + mem[at] <= |mem| then
      ZeroFree(mem[at + 1..at + 1 + mem[at]]) && CleanLabels(mem, at + 1 + mem[at])
    else true
  }

  /** The other way round: what was parsed encodes to the bytes that were read exactly when no label read holds a zero byte;
      it never encodes to more. */
  lemma {:induction false} Reencode(mem: seq<byte>, at: nat)
    requires ParseName(mem, at).Named?
    ensures var r := ParseName(mem, at);
      && at + |Encode(r.names)| <= r.end <= |mem|
      && (Encode(r.names) == mem[at..r.end] <==> CleanLabels(mem, at))
    decreases |mem| - at
  {
    hide AsString;
    if mem[at] == 0 {
      assert Encode([]) == [0] == mem[at..at + 1];
    } else {
      var p := at + 1 + mem[at];
      Reencode(mem, p);
      var rest := ParseName(mem, p);
      var l := AsString(mem[at + 1..p]);
      hide ParseName, Encode;
      assert ([l] + rest.names)[1..] == rest.names;
      EncodeFront([l] + rest.names);
      CutLabel(l, mem[at + 1..p], Encode(rest.names), mem[p..rest.end]);
      assert mem[at..rest.end] == [mem[at]] + mem[at + 1..p] + mem[p..rest.end];
    }
  }

  lemma CutLabel(l: Label, s: seq<byte>, e: seq<byte>, t: seq<byte>)
    requires |l| <= |s| <= 255 && l == s[..|l|] && (|l| == |s| || s[|l|] == 0) && |e| <= |t|
    ensures |[Low(|l|)] + l + e| <= |[|s|] + s + t|
    ensures [Low(|l|)] + l + e == [|s|] + s + t <==> ZeroFree(s) && e == t
  {
    var x, y := [Low(|l|)] + l + e, [|s|] + s + t;
    assert x[0] == |l| && y[0] == |s|;
    if |l| == |s| {
      assert x[1 + |l|..] == e && y[1 + |l|..] == t;
    }
  }
}
