/** The DNS message decoder on top of the name parser: gating, header, first question, answers.

    Only what the captured bytes determine is modelled; `Ipv4` and `Ipv6` stand for the text
    inet_ntop makes of the address bytes, and the event envelope is left out. */
module DnsMessage {
  import opened Basics
  import opened DnsName
  import opened NetworkEvent

  datatype Rdata = NoRdata | Ipv4(addr: seq<byte>) | Ipv6(addr: seq<byte>) | NameText(name: seq<byte>)

  datatype Answer = Answer(name: seq<byte>, rtype: nat, isIn: bool, ttl: nat, rdata: Rdata)

  datatype DnsEvent = DnsEvent(id: nat, qname: seq<byte>, qtype: nat, isIn: bool, isResponse: bool, answers: seq<Answer>)

  /** Two bytes, the high one first. */
  function Be16(hi: nat, lo: nat): nat {
    hi * 0x100 + lo
  }

  function U16(p: seq<byte>, i: nat): nat
    requires i + 2 <= |p|
  {
    Be16(p[i], p[i + 1])
  }

  function U32(p: seq<byte>, i: nat): nat
    requires i + 4 <= |p|
  {
    Be16(p[i], p[i + 1]) * 0x1_0000 + Be16(p[i + 2], p[i + 3])
  }

  function FormatRdata(p: seq<byte>, rtype: nat, pos: nat, rdlen: nat): Rdata
    requires pos + rdlen <= |p|
  {
    if rtype == 1 && rdlen == 4 then Ipv4(p[pos..pos + 4])
    else if rtype == 28 && rdlen == 16 then Ipv6(p[pos..pos + 16])
    else if rtype in {5, 2, 12} && pos < |p| && Parse(p, pos, 0).0 != [] then NameText(Parse(p, pos, 0).0)
    else NoRdata
  }

  /** The answer record at `pos` and the cursor after it, if it lies wholly inside the capture. */
  function RecordAt(p: seq<byte>, pos: nat): Option<(Answer, nat)> {
    if pos + 10 > |p| then None
    else
      var (name, q) := Parse(p, pos, 0);
      if q + 10 > |p| then None
      else
        var rdlen := U16(p, q + 8);
        if q + 10 + rdlen > |p| then None
        else
          Some((Answer(name, U16(p, q), U16(p, q + 2) == 1, U32(p, q + 4), FormatRdata(p, U16(p, q), q + 10, rdlen)),
                q + 10 + rdlen))
  }

  /** The answer records read from `pos`, at most `n` of them. */
  function Answers(p: seq<byte>, pos: nat, n: nat): seq<Answer>
    decreases n
  {
    if n == 0 then []
    else
      match RecordAt(p, pos)
      case None => []
      case Some((answer, next)) => [answer] + Answers(p, next, n - 1)
  }

  /** The first question: its name, type and class, and the cursor after it. */
  function Question(p: seq<byte>): (seq<byte>, nat, nat, nat)
    requires |p| >= 12
  {
    if U16(p, 4) >= 1 && 12 < |p| then
      var (qname, q) := Parse(p, 12, 0);
      if q + 4 <= |p| then (qname, U16(p, q), U16(p, q + 2), q + 4) else ([], 0, 0, q)
    else ([], 0, 0, 12)
  }

  function Decode(p: seq<byte>): Option<DnsEvent>
    requires |p| >= 12
  {
    var (qname, qtype, qclass, pos) := Question(p);
    if qname == [] then None
    else
      var isResponse := U16(p, 2) >= 0x8000;
      Some(DnsEvent(U16(p, 0), qname, qtype, qclass == 1, isResponse,
                    if isResponse then Answers(p, pos, U16(p, 6)) else []))
  }

  /** The event is a UDP-looking send to or receive on port 53 with a full header captured. */
  predicate LooksLikeDns(e: NetMeta) {
    var isSend := e.kind == SENDTO || e.kind == SENDMSG;
    var isRecv := e.kind == RECVFROM || e.kind == RECVMSG;
    && e.payloadLen >= 12
    && e.transport != TCP
    && ((isSend && e.remotePort % 0x1_0000 == 53)
        || (isRecv && (e.localPort % 0x1_0000 == 53 || e.remotePort % 0x1_0000 == 53)))
  }

  method FormatRdataAt(payload: array<byte>, plen: nat, rtype: nat, pos: nat, rdlen: nat) returns (r: Rdata)
    requires plen <= payload.Length && pos + rdlen <= plen
    ensures r == FormatRdata(payload[..plen], rtype, pos, rdlen)
  {
    ghost var p := payload[..plen];
    if rtype == 1 && rdlen == 4 {
      assert payload[pos..pos + 4] == p[pos..pos + 4];
      return Ipv4(payload[pos..pos + 4]);
    }
    if rtype == 28 && rdlen == 16 {
      assert payload[pos..pos + 16] == p[pos..pos + 16];
      return Ipv6(payload[pos..pos + 16]);
    }
    if rtype == 5 || rtype == 2 || rtype == 12 {
      if pos >= plen {
        return NoRdata;
      }
      var name, _ := DnsParseName(payload, plen, pos, 0);
      return if name == [] then NoRdata else NameText(name);
    }
    return NoRdata;
  }

  /** One turn of the answer loop: the record at `start` and the cursor after it. */
  method ReadAnswer(payload: array<byte>, plen: nat, start: nat) returns (record: Option<(Answer, nat)>)
    requires plen <= payload.Length
    ensures record == RecordAt(payload[..plen], start)
  {
    ghost var p := payload[..plen];
    var pos: nat := start;
    if pos + 10 > plen {
      return None;
    }
    var name: seq<byte>;
    name, pos := DnsParseName(payload, plen, pos, 0);
    if pos + 10 > plen {
      return None;
    }
    var rtype := Be16(payload[pos], payload[pos + 1]);
    var rclass := Be16(payload[pos + 2], payload[pos + 3]);
    var ttl := Be16(payload[pos + 4], payload[pos + 5]) * 0x1_0000 + Be16(payload[pos + 6], payload[pos + 7]);
    var rdlen := Be16(payload[pos + 8], payload[pos + 9]);
    assert rtype == U16(p, pos) && rclass == U16(p, pos + 2) && ttl == U32(p, pos + 4) && rdlen == U16(p, pos + 8);
    pos := pos + 10;
    if pos + rdlen > plen {
      return None;
    }
    var rdata := FormatRdataAt(payload, plen, rtype, pos, rdlen);
    pos := pos + rdlen;
    return Some((Answer(name, rtype, rclass == 1, ttl, rdata), pos));
  }

  lemma AnswersStep(p: seq<byte>, pos: nat, n: nat, done: seq<Answer>)
    requires n > 0
    ensures RecordAt(p, pos).None? ==> done + Answers(p, pos, n) == done
    ensures RecordAt(p, pos).Some? ==>
              var (answer, next) := RecordAt(p, pos).value;
              (done + [answer]) + Answers(p, next, n - 1) == done + Answers(p, pos, n)
  {
  }

  /** The answer loop; a failed owner-name parse does not stop it. */
  method DecodeAnswers(payload: array<byte>, plen: nat, start: nat, ancount: nat) returns (answers: seq<Answer>)
    requires plen <= payload.Length
    ensures answers == Answers(payload[..plen], start, ancount)
  {
    answers := [];
    ghost var p := payload[..plen];
    var pos: nat := start;
    for i := 0 to ancount
      invariant answers + Answers(p, pos, ancount - i) == Answers(p, start, ancount)
    {
      AnswersStep(p, pos, ancount - i, answers);
      var record := ReadAnswer(payload, plen, pos);
      match record {
        case None => break;
        case Some((answer, next)) =>
          answers := answers + [answer];
          pos := next;
      }
    }
  }

  /** The decoder.  Only the first min(payload_len, 128) bytes of the buffer matter. */
  method TryDecodeDns(e: NetMeta, payload: array<byte>) returns (out: Option<DnsEvent>)
    requires payload.Length == PAYLOAD_LEN
    ensures out == if LooksLikeDns(e) then Decode(payload[..if e.payloadLen < 128 then e.payloadLen else 128]) else None
  {
    if e.payloadLen < 12 {
      return None;
    }
    var isSend := e.kind == SENDTO || e.kind == SENDMSG;
    var isRecv := e.kind == RECVFROM || e.kind == RECVMSG;
    if !isSend && !isRecv {
      return None;
    }
    if e.transport == TCP {
      return None;
    }
    var remotePort, localPort := e.remotePort % 0x1_0000, e.localPort % 0x1_0000;
    if !((isSend && remotePort == 53) || (isRecv && localPort == 53) || (isRecv && remotePort == 53)) {
      return None;
    }
    var plen := if e.payloadLen < PAYLOAD_LEN then e.payloadLen else PAYLOAD_LEN;
    ghost var p := payload[..plen];
    var id := Be16(payload[0], payload[1]);
    var flags := Be16(payload[2], payload[3]);
    var qdcount := Be16(payload[4], payload[5]);
    var ancount := Be16(payload[6], payload[7]);
    var isResponse := flags >= 0x8000;

    var pos: nat := 12;
    var qname, qtype, qclass := [], 0, 0;
    if qdcount >= 1 && pos < plen {
      qname, pos := DnsParseName(payload, plen, pos, 0);
      if pos + 4 <= plen {
        qtype := Be16(payload[pos], payload[pos + 1]);
        qclass := Be16(payload[pos + 2], payload[pos + 3]);
        pos := pos + 4;
      } else {
        qname := [];
      }
    }
    assert (qname, qtype, qclass, pos) == Question(p);
    if qname == [] {
      return None;
    }
    var answers := [];
    if isResponse {
      answers := DecodeAnswers(payload, plen, pos, ancount);
    }
    out := Some(DnsEvent(id, qname, qtype, qclass == 1, isResponse, answers));
  }

  /** Even when owner names fail to parse, each record takes at least ten bytes. */
  lemma {:induction false} AnswersBounded(p: seq<byte>, pos: nat, n: nat)
    ensures |Answers(p, pos, n)| <= n
    ensures pos <= |p| ==> |Answers(p, pos, n)| * 10 <= |p| - pos
    decreases n
  {
    if n == 0 || RecordAt(p, pos).None? {
    } else {
      NameBounds(p, pos, 0);
      AnswersBounded(p, RecordAt(p, pos).value.1, n - 1);
    }
  }

  /** A CNAME, NS or PTR record whose data is a name that resolves is rendered as that name. */
  lemma NameRdata(p: seq<byte>, rtype: nat, pos: nat, rdlen: nat, labels: seq<seq<byte>>, jumps: nat)
    requires rtype in {2, 5, 12} && pos < |p| && pos + rdlen <= |p|
    requires Resolves(p, pos, labels, jumps) && jumps <= MAX_DEPTH
    ensures FormatRdata(p, rtype, pos, rdlen) == if labels == [] then NoRdata else NameText(Join(labels))
  {
    ParseCorrect(p, pos, labels, jumps, 0);
    JoinEmpty(labels);
  }

  lemma Regroup(a: seq<byte>, b: seq<byte>, c: seq<byte>)
    ensures a + (b + c) == a + b + c
  {
  }

  lemma KeepsCount(header: seq<byte>, rest: seq<byte>)
    requires |header| == 12
    ensures U16(header + rest, 4) == U16(header, 4)
  {
  }

  /** A question whose name is some labels and a pointer past the end of the capture: no name
      resolves there, yet the decoder reports an event, with those labels as the name. */
  lemma MalformedNotEmpty(header: seq<byte>, labels: seq<seq<byte>>, target: nat, rest: seq<byte>)
    requires |header| == 12 && U16(header, 4) >= 1 && ValidLabels(labels) && labels != [] && |rest| >= 4
    requires target < 0x4000 && |header + (EncodeLabels(labels) + EncodePointer(target)) + rest| <= target
    ensures var p := header + (EncodeLabels(labels) + EncodePointer(target)) + rest;
            && (forall other, jumps: nat :: !Resolves(p, 12, other, jumps))
            && Decode(p).Some? && Decode(p).value.qname == Join(labels)
  {
    var code := EncodeLabels(labels) + EncodePointer(target);
    var p := header + code + rest;
    PointerAfterLabels(header, labels, target, rest);
    ParseByLevel(p, 12, 0);
    ParseByLevel(p, target, 1);
    JoinEmpty(labels);
    Regroup(header, code, rest);
    KeepsCount(header, code + rest);
  }

  // -------------------------------------------------------------------------- truncated captures

  type u16 = x: int | 0 <= x < 0x1_0000
  type u32 = x: int | 0 <= x < 0x1_0000_0000

  /** An A or AAAA record whose owner is the question name. */
  datatype Record = A(cls: u16, ttl: u32, addr: seq<byte>) | Aaaa(cls: u16, ttl: u32, addr: seq<byte>)

  predicate ValidRecord(r: Record) {
    |r.addr| == if r.A? then 4 else 16
  }

  /** A record on the wire, its owner name a pointer to offset 12. */
  function EncodeRecord(r: Record): seq<byte>
    requires ValidRecord(r)
  {
    [192, 12, 0, if r.A? then 1 else 28, r.cls / 0x100, r.cls % 0x100,
     r.ttl / 0x100_0000, r.ttl / 0x1_0000 % 0x100, r.ttl / 0x100 % 0x100, r.ttl % 0x100, 0, |r.addr|] + r.addr
  }

  function EncodeRecords(records: seq<Record>): seq<byte>
    requires forall r :: r in records ==> ValidRecord(r)
  {
    if records == [] then [] else EncodeRecord(records[0]) + EncodeRecords(records[1..])
  }

  function Word(x: u16): seq<byte> {
    [x / 0x100, x % 0x100]
  }

  function EncodeHeader(id: u16, flags: u16, n: u16, counts: seq<byte>): seq<byte> {
    Word(id) + Word(flags) + [0, 1] + Word(n) + counts
  }

  /** A one-question response: header, question, answers, and anything after them. */
  function EncodeResponse(id: u16, flags: u16, counts: seq<byte>, labels: seq<seq<byte>>, qtype: u16, qclass: u16,
                          records: seq<Record>, extra: seq<byte>): seq<byte>
    requires ValidLabels(labels) && |records| < 0x1_0000 && |counts| == 4
    requires forall r :: r in records ==> ValidRecord(r)
  {
    EncodeHeader(id, flags, |records|, counts)
    + (EncodeLabels(labels) + [0]) + Word(qtype) + Word(qclass) + EncodeRecords(records) + extra
  }

  /** The answer the decoder reports for a record. */
  function Render(name: seq<byte>, r: Record): Answer {
    Answer(name, if r.A? then 1 else 28, r.cls == 1, r.ttl, if r.A? then Ipv4(r.addr) else Ipv6(r.addr))
  }

  function RenderAll(name: seq<byte>, records: seq<Record>): seq<Answer> {
    if records == [] then [] else [Render(name, records[0])] + RenderAll(name, records[1..])
  }

  /** How many of the records, laid out from `pos`, lie wholly within the first `plen` bytes. */
  function Fitting(pos: nat, records: seq<Record>, plen: nat): (k: nat)
    ensures k <= |records|
    decreases |records|
  {
    if records == [] || pos + 12 + |records[0].addr| > plen then 0
    else 1 + Fitting(pos + 12 + |records[0].addr|, records[1..], plen)
  }

  lemma EncodedPrefix(records: seq<Record>, k: nat)
    requires k < |records|
    requires forall r :: r in records ==> ValidRecord(r)
    ensures |EncodeRecords(records[..k + 1])| == 12 + |records[0].addr| + |EncodeRecords(records[1..][..k])|
  {
    assert records[..k + 1][1..] == records[1..][..k];
  }

  /** Fitting counts the longest prefix of records that lies wholly within the cut. */
  lemma {:induction false} FittingIsLongest(pos: nat, records: seq<Record>, plen: nat)
    requires forall r :: r in records ==> ValidRecord(r)
    requires pos <= plen
    ensures var k := Fitting(pos, records, plen);
            && pos + |EncodeRecords(records[..k])| <= plen
            && (k < |records| ==> pos + |EncodeRecords(records[..k + 1])| > plen)
    decreases |records|
  {
    if records == [] {
    } else if pos + 12 + |records[0].addr| > plen {
      EncodedPrefix(records, 0);
    } else {
      var next, rest := pos + 12 + |records[0].addr|, records[1..];
      var k := Fitting(next, rest, plen);
      FittingIsLongest(next, rest, plen);
      EncodedPrefix(records, k);
      if k + 1 < |records| {
        EncodedPrefix(records, k + 1);
      }
    }
  }

  lemma Reassemble(x: u32)
    ensures Be16(x / 0x100_0000, x / 0x1_0000 % 0x100) * 0x1_0000 + Be16(x / 0x100 % 0x100, x % 0x100) == x
  {
    var y, z := x / 0x100, x / 0x1_0000;
    assert y / 0x100 == z && z / 0x100 == x / 0x100_0000;
  }

  lemma RecordFields(p: seq<byte>, pos: nat, r: Record)
    requires ValidRecord(r) && Holds(p, pos, EncodeRecord(r))
    ensures pos + 12 + |r.addr| <= |p| && p[pos] == 192 && p[pos + 1] == 12
    ensures U16(p, pos + 2) == (if r.A? then 1 else 28) && U16(p, pos + 4) == r.cls
    ensures U32(p, pos + 6) == r.ttl && U16(p, pos + 10) == |r.addr|
    ensures p[pos + 12..pos + 12 + |r.addr|] == r.addr
  {
    var code := p[pos..pos + |EncodeRecord(r)|];
    assert p[pos] == code[0] && p[pos + 1] == code[1] && p[pos + 2] == code[2] && p[pos + 3] == code[3];
    assert p[pos + 4] == code[4] && p[pos + 5] == code[5] && p[pos + 6] == code[6] && p[pos + 7] == code[7];
    assert p[pos + 8] == code[8] && p[pos + 9] == code[9] && p[pos + 10] == code[10] && p[pos + 11] == code[11];
    assert p[pos + 12..pos + 12 + |r.addr|] == code[12..] == r.addr;
    Reassemble(r.ttl);
  }

  lemma PointerName(p: seq<byte>, pos: nat, labels: seq<seq<byte>>)
    requires pos + 2 <= |p| && p[pos] == 192 && p[pos + 1] == 12 && Resolves(p, 12, labels, 0)
    ensures Parse(p, pos, 0) == (Join(labels), pos + 2)
  {
    assert Level(p, pos) == ([], Jump(12));
    assert labels[|Level(p, pos).0|..] == labels;
    assert Resolves(p, pos, labels, 1);
    ParseCorrect(p, pos, labels, 1, 0);
  }

  /** One record of the cut message, when it lies wholly inside. */
  lemma ReadRecord(p: seq<byte>, pos: nat, r: Record, labels: seq<seq<byte>>)
    requires ValidRecord(r) && Holds(p, pos, EncodeRecord(r)) && Resolves(p, 12, labels, 0)
    ensures RecordAt(p, pos) == Some((Render(Join(labels), r), pos + 12 + |r.addr|))
  {
    RecordFields(p, pos, r);
    PointerName(p, pos, labels);
  }

  /** A record that does not lie wholly inside ends the answer loop. */
  lemma CutRecord(full: seq<byte>, plen: nat, pos: nat, r: Record, labels: seq<seq<byte>>)
    requires ValidRecord(r) && Holds(full, pos, EncodeRecord(r)) && pos <= plen <= |full|
    requires Resolves(full[..plen], 12, labels, 0)
    requires pos + 12 + |r.addr| > plen
    ensures RecordAt(full[..plen], pos).None?
  {
    var p := full[..plen];
    if pos + 10 <= plen {
      var code := full[pos..pos + |EncodeRecord(r)|];
      assert p[pos] == code[0] && p[pos + 1] == code[1];
      PointerName(p, pos, labels);
      if pos + 12 <= plen {
        assert p[pos + 10] == code[10] && p[pos + 11] == code[11];
      }
    }
  }

  lemma RenderUnfold(name: seq<byte>, records: seq<Record>, k: nat)
    requires k < |records|
    ensures RenderAll(name, records[..k + 1]) == [Render(name, records[0])] + RenderAll(name, records[1..][..k])
  {
    assert records[..k + 1][1..] == records[1..][..k];
  }

  lemma {:induction false} AnswersOfCut(full: seq<byte>, plen: nat, pos: nat, records: seq<Record>, labels: seq<seq<byte>>)
    requires forall r :: r in records ==> ValidRecord(r)
    requires Holds(full, pos, EncodeRecords(records)) && pos <= plen <= |full|
    requires Resolves(full[..plen], 12, labels, 0)
    ensures Answers(full[..plen], pos, |records|)
            == RenderAll(Join(labels), records[..Fitting(pos, records, plen)])
    decreases |records|
  {
    if records == [] {
    } else {
      var r, tail, p := records[0], EncodeRecords(records[1..]), full[..plen];
      HoldsSplit(full, pos, EncodeRecord(r), tail);
      var next := pos + 12 + |r.addr|;
      if next > plen {
        CutRecord(full, plen, pos, r, labels);
      } else {
        assert p[pos..next] == full[pos..next];
        ReadRecord(p, pos, r, labels);
        AnswersOfCut(full, plen, next, records[1..], labels);
        var k := Fitting(next, records[1..], plen);
        RenderUnfold(Join(labels), records, k);
      }
    }
  }

  /** A message is made of these four parts. */
  predicate MadeOf(full: seq<byte>, header: seq<byte>, code: seq<byte>, question: seq<byte>, rest: seq<byte>) {
    full == header + code + (question + rest)
  }

  lemma ResponseParts(header: seq<byte>, name: seq<byte>, t: seq<byte>, c: seq<byte>, answers: seq<byte>, extra: seq<byte>)
    ensures MadeOf(header + name + t + c + answers + extra, header, name, t + c, answers + extra)
  {
  }

  /** The decoder's result from its parts. */
  lemma DecodeFrom(p: seq<byte>, id: nat, flags: nat, n: nat, name: seq<byte>, qtype: nat, qclass: nat, at: nat)
    requires |p| >= 12 && U16(p, 0) == id && U16(p, 2) == flags && U16(p, 6) == n && flags >= 0x8000
    requires Question(p) == (name, qtype, qclass, at) && name != []
    ensures Decode(p) == Some(DnsEvent(id, name, qtype, qclass == 1, true, Answers(p, at, n)))
  {
  }

  lemma CutWhole(full: seq<byte>, plen: nat, id: nat, flags: nat, labels: seq<seq<byte>>, qtype: nat, qclass: nat,
                 at: nat, records: seq<Record>)
    requires 12 <= at <= plen <= |full| && flags >= 0x8000 && Join(labels) != []
    requires forall r :: r in records ==> ValidRecord(r)
    requires var p := full[..plen];
             && U16(p, 0) == id && U16(p, 2) == flags && U16(p, 6) == |records|
             && Question(p) == (Join(labels), qtype, qclass, at)
             && Resolves(p, 12, labels, 0)
    requires Holds(full, at, EncodeRecords(records))
    ensures Decode(full[..plen])
            == Some(DnsEvent(id, Join(labels), qtype, qclass == 1, true,
                             RenderAll(Join(labels), records[..Fitting(at, records, plen)])))
  {
    AnswersOfCut(full, plen, at, records, labels);
    DecodeFrom(full[..plen], id, flags, |records|, Join(labels), qtype, qclass, at);
  }

  lemma AnswersAt(full: seq<byte>, header: seq<byte>, code: seq<byte>, question: seq<byte>, answers: seq<byte>, extra: seq<byte>)
    requires MadeOf(full, header, code, question, answers + extra)
    ensures Holds(full, |header| + |code| + |question|, answers)
  {
    Regroup(header + code + question, answers, extra);
    Regroup(header + code, question, answers + extra);
    HoldsMiddle(header + code + question, answers, extra);
  }

  /** The header fields the decoder looks at. */
  predicate HeaderSays(header: seq<byte>, id: nat, flags: nat, n: nat) {
    |header| == 12 && U16(header, 0) == id && U16(header, 2) == flags && U16(header, 4) == 1 && U16(header, 6) == n
  }

  lemma HeaderOfCut(full: seq<byte>, header: seq<byte>, code: seq<byte>, question: seq<byte>, rest: seq<byte>,
                    id: nat, flags: nat, n: nat, plen: nat)
    requires MadeOf(full, header, code, question, rest) && HeaderSays(header, id, flags, n) && 12 <= plen <= |full|
    ensures var p := full[..plen];
            U16(p, 0) == id && U16(p, 2) == flags && U16(p, 6) == n
  {
    assert forall i :: 0 <= i < 12 ==> full[i] == header[i];
  }

  lemma CutParts(full: seq<byte>, header: seq<byte>, id: u16, flags: u16, labels: seq<seq<byte>>, qtype: u16, qclass: u16,
                 records: seq<Record>, code: seq<byte>, question: seq<byte>, extra: seq<byte>, plen: nat)
    requires forall r :: r in records ==> ValidRecord(r)
    requires HeaderSays(header, id, flags, |records|) && flags >= 0x8000 && |question| == 4 && Join(labels) != []
    requires MadeOf(full, header, code, question, EncodeRecords(records) + extra) && 16 + |code| <= plen <= |full|
    requires Question(full[..plen]) == (Join(labels), qtype, qclass, 16 + |code|) && Resolves(full[..plen], 12, labels, 0)
    ensures Decode(full[..plen])
            == Some(DnsEvent(id, Join(labels), qtype, qclass == 1, true,
                             RenderAll(Join(labels), records[..Fitting(16 + |code|, records, plen)])))
  {
    var rest := EncodeRecords(records) + extra;
    HeaderOfCut(full, header, code, question, rest, id, flags, |records|, plen);
    AnswersAt(full, header, code, question, EncodeRecords(records), extra);
    CutWhole(full, plen, id, flags, labels, qtype, qclass, 16 + |code|, records);
  }

  /** A cut past `code` and `question` keeps both. */
  lemma CutAround(full: seq<byte>, header: seq<byte>, code: seq<byte>, question: seq<byte>, rest: seq<byte>, plen: nat)
    requires MadeOf(full, header, code, question, rest) && |header| + |code| + |question| <= plen <= |full|
    ensures var p, q := full[..plen], |header| + |code|;
            p == header + code + p[q..] && p[q..q + |question|] == question
  {
    var q := |header| + |code|;
    assert full[..q] == header + code;
    assert full[q..q + |question|] == question;
    assert full[..plen][..q] == full[..q];
    assert full[..plen][q..q + |question|] == full[q..q + |question|];
  }

  /** The question of a message that holds it, read back. */
  lemma QuestionFrom(p: seq<byte>, name: seq<byte>, q: nat, qtype: u16, qclass: u16)
    requires 12 < |p| && U16(p, 4) == 1 && Parse(p, 12, 0) == (name, q)
    requires q + 4 <= |p| && p[q..q + 4] == Word(qtype) + Word(qclass)
    ensures Question(p) == (name, qtype, qclass, q + 4)
  {
    var question := Word(qtype) + Word(qclass);
    assert p[q] == question[0] && p[q + 1] == question[1] && p[q + 2] == question[2] && p[q + 3] == question[3];
  }

  lemma QuestionOfCut(full: seq<byte>, header: seq<byte>, labels: seq<seq<byte>>, qtype: u16, qclass: u16,
                      code: seq<byte>, question: seq<byte>, rest: seq<byte>, plen: nat)
    requires ValidLabels(labels) && labels != [] && |header| == 12 && U16(header, 4) == 1
    requires code == EncodeLabels(labels) + [0] && question == Word(qtype) + Word(qclass)
    requires MadeOf(full, header, code, question, rest) && 16 + |code| <= plen <= |full|
    ensures var p := full[..plen];
            && Question(p) == (Join(labels), qtype, qclass, 16 + |code|)
            && Join(labels) != []
            && Resolves(p, 12, labels, 0)
  {
    var p := full[..plen];
    var q := 12 + |code|;
    CutAround(full, header, code, question, rest, plen);
    DecodeEncoded(header, labels, p[q..], 0);
    EncodedResolves(header, labels, p[q..]);
    JoinEmpty(labels);
    KeepsCount(header, code + p[q..]);
    Regroup(header, code, p[q..]);
    QuestionFrom(p, Join(labels), q, qtype, qclass);
  }

  lemma HeaderEncoded(id: u16, flags: u16, n: u16, counts: seq<byte>)
    requires |counts| == 4
    ensures HeaderSays(EncodeHeader(id, flags, n, counts), id, flags, n)
  {
  }

  /** Truncation.  Cut a one-question response anywhere past its question: the decoder reports the
      question unchanged and exactly the longest prefix of records lying wholly within the cut, in
      order and with their times to live.  (FittingIsLongest says that the prefix is longest.) */
  lemma CutResponse(id: u16, flags: u16, counts: seq<byte>, labels: seq<seq<byte>>, qtype: u16, qclass: u16,
                    records: seq<Record>, extra: seq<byte>, plen: nat)
    requires ValidLabels(labels) && labels != [] && |records| < 0x1_0000 && |counts| == 4 && flags >= 0x8000
    requires forall r :: r in records ==> ValidRecord(r)
    requires var full := EncodeResponse(id, flags, counts, labels, qtype, qclass, records, extra);
             16 + |EncodeLabels(labels)| + 1 <= plen <= |full|
    ensures var full := EncodeResponse(id, flags, counts, labels, qtype, qclass, records, extra);
            var answersAt := 16 + |EncodeLabels(labels)| + 1;
            Decode(full[..plen])
            == Some(DnsEvent(id, Join(labels), qtype, qclass == 1, true,
                             RenderAll(Join(labels), records[..Fitting(answersAt, records, plen)])))
  {
    var full := EncodeResponse(id, flags, counts, labels, qtype, qclass, records, extra);
    var header := EncodeHeader(id, flags, |records|, counts);
    var code, question := EncodeLabels(labels) + [0], Word(qtype) + Word(qclass);
    HeaderEncoded(id, flags, |records|, counts);
    ResponseParts(header, code, Word(qtype), Word(qclass), EncodeRecords(records), extra);
    QuestionOfCut(full, header, labels, qtype, qclass, code, question, EncodeRecords(records) + extra, plen);
    CutParts(full, header, id, flags, labels, qtype, qclass, records, code, question, extra, plen);
  }

  // ------------------------------------------------------------------------- queries, and no event

  /** The decoder's result for a query from its parts. */
  lemma DecodeQueryFrom(p: seq<byte>, id: nat, flags: nat, name: seq<byte>, qtype: nat, qclass: nat, at: nat)
    requires |p| >= 12 && U16(p, 0) == id && U16(p, 2) == flags && flags < 0x8000
    requires Question(p) == (name, qtype, qclass, at) && name != []
    ensures Decode(p) == Some(DnsEvent(id, name, qtype, qclass == 1, false, []))
  {
  }

  /** A one-question message with any records or other bytes after the question. */
  function EncodeMessage(id: u16, flags: u16, n: u16, counts: seq<byte>, labels: seq<seq<byte>>, qtype: u16, qclass: u16,
                         rest: seq<byte>): seq<byte>
    requires ValidLabels(labels)
  {
    EncodeHeader(id, flags, n, counts) + (EncodeLabels(labels) + [0]) + (Word(qtype) + Word(qclass) + rest)
  }

  /** Queries.  With the top bit of the flags clear, a one-question message cut anywhere past its
      question is a query without answers, whatever the other flags and whatever follows. */
  lemma CutQuery(id: u16, flags: u16, n: u16, counts: seq<byte>, labels: seq<seq<byte>>, qtype: u16, qclass: u16,
                 rest: seq<byte>, plen: nat)
    requires ValidLabels(labels) && labels != [] && |counts| == 4 && flags < 0x8000
    requires 17 + |EncodeLabels(labels)| <= plen <= |EncodeMessage(id, flags, n, counts, labels, qtype, qclass, rest)|
    ensures Decode(EncodeMessage(id, flags, n, counts, labels, qtype, qclass, rest)[..plen])
            == Some(DnsEvent(id, Join(labels), qtype, qclass == 1, false, []))
  {
    var full := EncodeMessage(id, flags, n, counts, labels, qtype, qclass, rest);
    var header, code, question := EncodeHeader(id, flags, n, counts), EncodeLabels(labels) + [0], Word(qtype) + Word(qclass);
    HeaderEncoded(id, flags, n, counts);
    HeaderOfCut(full, header, code, question, rest, id, flags, n, plen);
    QuestionOfCut(full, header, labels, qtype, qclass, code, question, rest, plen);
    DecodeQueryFrom(full[..plen], id, flags, Join(labels), qtype, qclass, 16 + |code|);
  }

  /** A capture that ends inside the question gives no event. */
  lemma CutQuestion(id: u16, flags: u16, n: u16, counts: seq<byte>, labels: seq<seq<byte>>, qtype: u16, qclass: u16,
                    rest: seq<byte>, plen: nat)
    requires ValidLabels(labels) && |counts| == 4 && 12 <= plen < 17 + |EncodeLabels(labels)|
    ensures plen <= |EncodeMessage(id, flags, n, counts, labels, qtype, qclass, rest)|
    ensures Decode(EncodeMessage(id, flags, n, counts, labels, qtype, qclass, rest)[..plen]) == None
  {
    var full := EncodeMessage(id, flags, n, counts, labels, qtype, qclass, rest);
    var header, code := EncodeHeader(id, flags, n, counts), EncodeLabels(labels) + [0];
    var tail := Word(qtype) + Word(qclass) + rest;
    HoldsMiddle(header, code, tail);
    HoldsSplit(full, 12, EncodeLabels(labels), [0]);
    if plen <= 12 + |EncodeLabels(labels)| {
      CutNameMalformed(full, plen, 12, labels);
      ParseByLevel(full[..plen], 12, 0);
    } else {
      var p, q := full[..plen], 12 + |code|;
      assert p == header + code + p[q..] by {
        assert full[..q] == header + code;
      }
      DecodeEncoded(header, labels, p[q..], 0);
    }
  }

  /** Without a question, or without a name in it, there is no event; a root question has no name. */
  lemma NoQuestionNoEvent(p: seq<byte>)
    requires |p| >= 12
    ensures U16(p, 4) == 0 ==> Decode(p) == None
    ensures |p| > 12 && p[12] == 0 ==> Decode(p) == None
  {
    if |p| > 12 && p[12] == 0 {
      assert Parse(p, 12, 0) == ([], 13);
    }
  }

  /** Which events are decoded: at least a header captured, not over TCP, sent to port 53, or received
      with either port 53. */
  lemma DnsGateIff(e: NetMeta)
    requires 0 <= e.remotePort < 0x1_0000 && 0 <= e.localPort < 0x1_0000
    ensures LooksLikeDns(e)
            <==> e.payloadLen >= 12 && e.transport != 1
                 && ((e.kind == 7 && e.remotePort == 53) || (e.kind == 16 && e.remotePort == 53)
                     || (e.kind == 8 && (e.localPort == 53 || e.remotePort == 53))
                     || (e.kind == 17 && (e.localPort == 53 || e.remotePort == 53)))
  {
  }

  /** What is rendered of a record's data, type by type: nothing unless an address has its length. */
  lemma RdataSays(p: seq<byte>, rtype: nat, pos: nat, rdlen: nat)
    requires pos + rdlen <= |p|
    ensures var r := FormatRdata(p, rtype, pos, rdlen);
            && (rtype == 1 ==> r == if rdlen == 4 then Ipv4(p[pos..pos + rdlen]) else NoRdata)
            && (rtype == 28 ==> r == if rdlen == 16 then Ipv6(p[pos..pos + rdlen]) else NoRdata)
            && (rtype !in {1, 2, 5, 12, 28} ==> r == NoRdata)
            && (rtype in {2, 5, 12} && pos == |p| ==> r == NoRdata)
  {
  }

  /** A failed owner name does not stop the loop: where the name starts with a reserved length byte the
      record is read on from that very place, with an empty name. */
  lemma FailedOwnerReadOn(p: seq<byte>, pos: nat)
    requires pos + 10 <= |p| && 64 <= p[pos] < 192
    ensures var rdlen := U16(p, pos + 8);
            RecordAt(p, pos)
            == if pos + 10 + rdlen > |p| then None
               else Some((Answer([], U16(p, pos), U16(p, pos + 2) == 1, U32(p, pos + 4),
                                 FormatRdata(p, U16(p, pos), pos + 10, rdlen)), pos + 10 + rdlen))
  {
    assert Parse(p, pos, 0) == ([], pos);
  }
}
