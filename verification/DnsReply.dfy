/**
 The captive-portal DNS responder of src/dns-server.c: one A answer for the first question of
 a request, judged against a reader of messages in the format of section 4.1 of RFC 1035.
 */
module DnsReply {
  import opened CBytes

  const HEADER_LENGTH := 12
  const TYPE_A := 1
  const CLASS_IN := 1
  const TTL := 30
  const ANSWER_LENGTH := 16

  type Address = s: seq<byte> | |s| == 4 witness Zeros(4)

  type Label = seq<byte>

  function U16(n: nat): (b: seq<byte>)
    requires n < 0x10000
    ensures |b| == 2
  {
    [n / 256, n % 256]
  }

  function U16At(m: seq<byte>, at: nat): (n: nat)
    requires at + 2 <= |m|
    ensures n < 0x10000
  {
    256 * m[at] as int + m[at + 1] as int
  }

  // ---------------------------------------------------------------- reading a message

  datatype Name = Name(labels: seq<Label>, next: nat)

  /**
   A domain name, with compression: labels up to an empty one, or up to a pointer to a place
   before the one this stretch of labels started at.
   */
  function NameAt(m: seq<byte>, start: nat, at: nat): (r: Option<Name>)
    requires start <= at <= |m|
    ensures r.Some? ==> at < r.value.next <= |m|
    decreases start, |m| - at
  {
    if at == |m| then None
    else if m[at] == 0 then Some(Name([], at + 1))
    else if m[at] < 64 then
      var end := at + 1 + m[at];
      if end > |m| then None else Labelled(m[at + 1..end], NameAt(m, start, end))
    else if m[at] < 192 || at + 2 > |m| then None
    else
      var target := U16At(m, at) - 0xC000;
      if target >= start then None
      else
        var name := NameAt(m, target, target);
        if name.None? then None else Some(Name(name.value.labels, at + 2))
  }

  function Labelled(first: Label, r: Option<Name>): (o: Option<Name>) {
    match r
    case None => None
    case Some(name) => Some(Name([first] + name.labels, name.next))
  }

  datatype Question = Question(name: seq<Label>, kind: nat, category: nat)

  datatype Record = Record(name: seq<Label>, kind: nat, category: nat, ttl: nat, data: seq<byte>)

  datatype Read<T> = Read(value: T, next: nat)

  function QuestionAt(m: seq<byte>, at: nat): (r: Option<Read<Question>>)
    requires at <= |m|
    ensures r.Some? ==> at < r.value.next <= |m|
  {
    var name := NameAt(m, at, at);
    if name.None? || name.value.next + 4 > |m| then None
    else
      var i := name.value.next;
      Some(Read(Question(name.value.labels, U16At(m, i), U16At(m, i + 2)), i + 4))
  }

  function RecordAt(m: seq<byte>, at: nat): (r: Option<Read<Record>>)
    requires at <= |m|
    ensures r.Some? ==> at < r.value.next <= |m|
  {
    var name := NameAt(m, at, at);
    if name.None? || name.value.next + 10 > |m| then None
    else
      var i := name.value.next;
      var length := U16At(m, i + 8);
      if i + 10 + length > |m| then None
      else
        Some(Read(Record(name.value.labels, U16At(m, i), U16At(m, i + 2),
                         0x10000 * U16At(m, i + 4) + U16At(m, i + 6), m[i + 10..i + 10 + length]),
                  i + 10 + length))
  }

  function Questions(m: seq<byte>, at: nat, n: nat): (r: Option<Read<seq<Question>>>)
    requires at <= |m|
    ensures r.Some? ==> at <= r.value.next <= |m|
    decreases n
  {
    if n == 0 then Some(Read([], at))
    else
      var first := QuestionAt(m, at);
      if first.None? then None
      else
        var rest := Questions(m, first.value.next, n - 1);
        if rest.None? then None else Some(Read([first.value.value] + rest.value.value, rest.value.next))
  }

  function Records(m: seq<byte>, at: nat, n: nat): (r: Option<Read<seq<Record>>>)
    requires at <= |m|
    ensures r.Some? ==> at <= r.value.next <= |m|
    decreases n
  {
    if n == 0 then Some(Read([], at))
    else
      var first := RecordAt(m, at);
      if first.None? then None
      else
        var rest := Records(m, first.value.next, n - 1);
        if rest.None? then None else Some(Read([first.value.value] + rest.value.value, rest.value.next))
  }

  datatype Message = Message(
    id: nat, flags: nat, questions: seq<Question>,
    answers: seq<Record>, authority: seq<Record>, additional: seq<Record>)

  /** A whole message with nothing behind it. */
  function ParseMessage(m: seq<byte>): (r: Option<Message>) {
    if |m| < HEADER_LENGTH then None
    else
      var questions := Questions(m, HEADER_LENGTH, U16At(m, 4));
      if questions.None? then None
      else
        var answers := Records(m, questions.value.next, U16At(m, 6));
        if answers.None? then None
        else
          var authority := Records(m, answers.value.next, U16At(m, 8));
          if authority.None? then None
          else
            var additional := Records(m, authority.value.next, U16At(m, 10));
            if additional.None? || additional.value.next != |m| then None
            else
              Some(Message(U16At(m, 0), U16At(m, 2), questions.value.value, answers.value.value,
                           authority.value.value, additional.value.value))
  }

  // ---------------------------------------------------------------- the reply

  /** Labels without compression, as the responder walks them. */
  function PlainName(m: seq<byte>, at: nat): (r: Option<Name>)
    requires at <= |m|
    ensures r.Some? ==> at < r.value.next <= |m|
    decreases |m| - at
  {
    if at == |m| then None
    else if m[at] == 0 then Some(Name([], at + 1))
    else if m[at] > 63 || at + m[at] + 1 >= |m| then None
    else Labelled(m[at + 1..at + 1 + m[at]], PlainName(m, at + 1 + m[at]))
  }

  /** Following the labels from here leads to a pointer. */
  predicate LeadsToPointer(m: seq<byte>, at: nat)
    requires at <= |m|
    decreases |m| - at
  {
    at < |m| && m[at] != 0 &&
    (m[at] >= 192 || (m[at] < 64 && at + 1 + m[at] <= |m| && LeadsToPointer(m, at + 1 + m[at])))
  }

  /** The walk accepts exactly the names that are well formed and use no compression. */
  lemma {:induction false} PlainNameIff(m: seq<byte>, start: nat, at: nat)
    requires start <= at <= |m|
    ensures PlainName(m, at).Some? <==> NameAt(m, start, at).Some? && !LeadsToPointer(m, at)
    decreases |m| - at
  {
    if at < |m| && 0 < m[at] < 64 && at + 1 + m[at] <= |m| {
      PlainNameIff(m, start, at + 1 + m[at]);
    }
  }

  /** The operation code in bits 11 to 14. */
  function Opcode(flags: nat): (code: nat) {
    flags / 0x800 % 16
  }

  /** A response, from an authority. */
  function ReplyFlags(flags: nat): (r: nat)
    requires flags < 0x10000
    ensures r < 0x10000
  {
    var response := if flags / 0x8000 == 1 then flags else flags + 0x8000;
    if response / 0x400 % 2 == 1 then response else response + 0x400
  }

  /** Where the first question ends, when it is one the responder answers. */
  function AnswerableEnd(request: seq<byte>): (r: Option<nat>)
    ensures r.Some? ==> HEADER_LENGTH + 5 <= r.value <= |request|
  {
    if |request| < HEADER_LENGTH || U16At(request, 4) == 0 || Opcode(U16At(request, 2)) != 0 then None
    else
      var name := PlainName(request, HEADER_LENGTH);
      if name.None? || name.value.next + 4 > |request| then None
      else
        var i := name.value.next;
        if U16At(request, i) == TYPE_A && U16At(request, i + 2) == CLASS_IN then Some(i + 4) else None
  }

  /**
   A request is answered exactly when it is a standard query with at least one question, the
   first of which reads without compression and asks for an address in the Internet class;
   the answer goes behind that question.
   */
  lemma {:induction false} AnswerableIff(request: seq<byte>)
    ensures AnswerableEnd(request).Some? <==>
            && |request| >= 12 && U16At(request, 4) >= 1 && U16At(request, 2) / 0x800 % 16 == 0
            && QuestionAt(request, 12).Some? && !LeadsToPointer(request, 12)
            && QuestionAt(request, 12).value.value.kind == 1 && QuestionAt(request, 12).value.value.category == 1
    ensures AnswerableEnd(request).Some? ==> AnswerableEnd(request).value == QuestionAt(request, 12).value.next
  {
    if |request| >= 12 {
      PlainNameIff(request, 12, 12);
      if PlainName(request, 12).Some? {
        PlainNameReads(request, request, 12, 12);
      }
    }
  }

  predicate Answerable(request: seq<byte>, capacity: nat) {
    |request| <= capacity && AnswerableEnd(request).Some? && AnswerableEnd(request).value + ANSWER_LENGTH <= capacity
  }

  /** Identifier, flags and the four counts. */
  function ReplyHeader(request: seq<byte>): (r: seq<byte>)
    requires |request| >= HEADER_LENGTH
    ensures |r| == HEADER_LENGTH
  {
    request[..2] + U16(ReplyFlags(U16At(request, 2))) + U16(1) + U16(1) + U16(0) + U16(0)
  }

  /** A pointer to the question's name, then the fixed fields and the address. */
  function Answer(address: Address): (r: seq<byte>)
    ensures |r| == ANSWER_LENGTH
  {
    U16(0xC00C) + U16(TYPE_A) + U16(CLASS_IN) + U16(0) + U16(TTL) + U16(4) + address
  }

  function Reply(request: seq<byte>, address: Address): (r: seq<byte>)
    requires AnswerableEnd(request).Some?
    ensures |r| == AnswerableEnd(request).value + ANSWER_LENGTH
  {
    ReplyHeader(request) + request[HEADER_LENGTH..AnswerableEnd(request).value] + Answer(address)
  }

  // ---------------------------------------------------------------- the reply reads as promised

  /** Two messages that agree from one place to another. */
  predicate Same(m: seq<byte>, m': seq<byte>, from: nat, to: nat) {
    to <= |m| && to <= |m'| && forall i :: from <= i < to ==> m[i] == m'[i]
  }

  /** A name read without compression reads the same wherever the same bytes stand. */
  lemma {:induction false} PlainNameReads(m: seq<byte>, m': seq<byte>, at: nat, start: nat)
    requires start <= at <= |m| && PlainName(m, at).Some?
    requires Same(m, m', at, PlainName(m, at).value.next)
    ensures NameAt(m', start, at) == PlainName(m, at)
    decreases |m| - at
  {
    assert m[at] == m'[at];
    if m[at] != 0 {
      var end := at + 1 + m[at];
      assert PlainName(m, end).Some? && PlainName(m, end).value.next == PlainName(m, at).value.next;
      PlainNameReads(m, m', end, start);
      assert m[at + 1..end] == m'[at + 1..end];
    }
  }

  /** The fields of a reply at their places. */
  lemma {:induction false} HeaderFields(request: seq<byte>, rest: seq<byte>)
    requires |request| >= HEADER_LENGTH
    ensures var m := ReplyHeader(request) + rest;
            && U16At(m, 0) == U16At(request, 0) && U16At(m, 2) == ReplyFlags(U16At(request, 2))
            && U16At(m, 4) == 1 && U16At(m, 6) == 1 && U16At(m, 8) == 0 && U16At(m, 10) == 0
  {
    hide ReplyFlags;
  }

  lemma {:induction false} AnswerFields(before: seq<byte>, address: Address)
    ensures var m := before + Answer(address);
            var i := |before|;
            && U16At(m, i) == 0xC00C && m[i] == 0xC0 && U16At(m, i + 2) == TYPE_A && U16At(m, i + 4) == CLASS_IN
            && U16At(m, i + 6) == 0 && U16At(m, i + 8) == TTL && U16At(m, i + 10) == 4
            && m[i + 12..i + 16] == address
  {
    var m := before + Answer(address);
    assert forall k :: 0 <= k < 16 ==> m[|before| + k] == Answer(address)[k];
  }

  lemma {:induction false} QuestionReads(request: seq<byte>, address: Address)
    requires AnswerableEnd(request).Some?
    ensures var m := Reply(request, address);
            var q := QuestionAt(m, HEADER_LENGTH);
            && NameAt(m, HEADER_LENGTH, HEADER_LENGTH) == PlainName(request, HEADER_LENGTH)
            && q.Some? && q == QuestionAt(request, HEADER_LENGTH) && q.value.next == AnswerableEnd(request).value
            && q.value.value.kind == TYPE_A && q.value.value.category == CLASS_IN
  {
    var m, end := Reply(request, address), AnswerableEnd(request).value;
    assert Same(request, m, HEADER_LENGTH, end);
    PlainNameReads(request, m, HEADER_LENGTH, HEADER_LENGTH);
    PlainNameReads(request, request, HEADER_LENGTH, HEADER_LENGTH);
  }

  lemma {:induction false} AnswerReads(request: seq<byte>, address: Address)
    requires AnswerableEnd(request).Some?
    ensures var m := Reply(request, address);
            var end := AnswerableEnd(request).value;
            var name := PlainName(request, HEADER_LENGTH);
            && name.Some?
            && RecordAt(m, end) == Some(Read(Record(name.value.labels, TYPE_A, CLASS_IN, TTL, address), |m|))
  {
    var m, end := Reply(request, address), AnswerableEnd(request).value;
    QuestionReads(request, address);
    var before := ReplyHeader(request) + request[HEADER_LENGTH..end];
    assert |before| == end;
    AnswerFields(before, address);
    hide Reply, PlainName, Answer, ReplyHeader;
    assert NameAt(m, end, end) ==
           Some(Name(NameAt(m, HEADER_LENGTH, HEADER_LENGTH).value.labels, end + 2));
  }

  /**
   Every reply is a complete message with the identifier and the first question of the
   request and exactly one answer, an address record whose name is the name asked for.
   */
  lemma {:induction false} ReplyIsWellFormed(request: seq<byte>, address: Address)
    requires AnswerableEnd(request).Some?
    ensures var q := QuestionAt(request, HEADER_LENGTH);
            && q.Some?
            && ParseMessage(Reply(request, address)) ==
               Some(Message(U16At(request, 0), ReplyFlags(U16At(request, 2)), [q.value.value],
                            [Record(q.value.value.name, 1, 1, 30, address)], [], []))
  {
    var m, end := Reply(request, address), AnswerableEnd(request).value;
    QuestionReads(request, address);
    AnswerReads(request, address);
    assert m == ReplyHeader(request) + (request[HEADER_LENGTH..end] + Answer(address));
    HeaderFields(request, request[HEADER_LENGTH..end] + Answer(address));
    hide Reply, ReplyHeader, Answer, QuestionAt, RecordAt, NameAt, PlainName, AnswerableEnd, U16At, ReplyFlags;
    var q := QuestionAt(m, HEADER_LENGTH);
    assert Questions(m, HEADER_LENGTH, 1) == Some(Read([q.value.value], end)) by {
      assert Questions(m, end, 0) == Some(Read([], end));
      assert [q.value.value] + [] == [q.value.value];
    }
    var record := RecordAt(m, end).value.value;
    assert Records(m, end, 1) == Some(Read([record], |m|)) by {
      assert Records(m, |m|, 0) == Some(Read([], |m|));
      assert [record] + [] == [record];
    }
    assert Records(m, |m|, 0) == Some(Read([], |m|));
  }

  /** The reply says it is an authoritative answer to a standard query and keeps every other flag. */
  lemma {:induction false} ReplyFlagBits(flags: nat)
    requires flags < 0x10000 && Opcode(flags) == 0
    ensures var r := ReplyFlags(flags);
            && r / 0x8000 == 1 && r / 0x400 % 2 == 1 && Opcode(r) == 0 && r % 0x400 == flags % 0x400
  {
  }

  // ---------------------------------------------------------------- the responder

  /** s with source written over it from a place on. */
  function Overlay(s: seq<byte>, at: nat, source: seq<byte>): (r: seq<byte>)
    requires at + |source| <= |s|
    ensures |r| == |s|
  {
    s[..at] + source + s[at + |source|..]
  }

  method CopyInto(target: array<byte>, at: nat, source: seq<byte>)
    requires at + |source| <= target.Length
    modifies target
    ensures target[..] == Overlay(old(target[..]), at, source)
  {
    for i := 0 to |source|
      invariant forall k :: 0 <= k < i ==> target[at + k] == source[k]
      invariant forall k :: 0 <= k < at || at + i <= k < target.Length ==> target[k] == old(target[k])
    {
      target[at + i] := source[i];
    }
  }

  /** Walks the labels from the header; the offset of the final empty label, if they end in one. */
  method WalkLabels(request: seq<byte>) returns (end: Option<nat>)
    requires |request| >= HEADER_LENGTH
    ensures var name := PlainName(request, HEADER_LENGTH);
            && (name.None? ==> end.None? || end.value == |request|)
            && (name.Some? ==> end == Some(name.value.next - 1))
  {
    var offset := HEADER_LENGTH;
    while offset < |request| && request[offset] != 0
      invariant HEADER_LENGTH <= offset <= |request|
      invariant PlainName(request, HEADER_LENGTH).Some? <==> PlainName(request, offset).Some?
      invariant PlainName(request, HEADER_LENGTH).Some? ==>
                  PlainName(request, HEADER_LENGTH).value.next == PlainName(request, offset).value.next
    {
      var length := request[offset];
      if length > 63 || offset + length + 1 >= |request| {
        return None;
      }
      offset := offset + length + 1;
    }
    end := Some(offset);
  }

  /** Answers exactly the answerable requests when the interface has an address; writes nothing otherwise. */
  method PrepareReply(request: seq<byte>, reply: array<byte>, address: Option<Address>) returns (length: int)
    modifies reply
    ensures length == -1 || 0 <= length <= reply.Length
    ensures length >= 0 <==> address.Some? && Answerable(request, reply.Length)
    ensures length >= 0 ==> reply[..length] == Reply(request, address.value) && reply[length..] == old(reply[length..])
    ensures length < 0 ==> reply[..] == old(reply[..])
  {
    hide PlainName;
    if |request| < HEADER_LENGTH || |request| > reply.Length {
      return -1;
    }
    if U16At(request, 4) == 0 {
      return -1;
    }
    var flags := U16At(request, 2);
    if Opcode(flags) != 0 {
      return -1;
    }
    var zero := WalkLabels(request);
    if zero.None? {
      return -1;
    }
    var offset := zero.value;
    if offset + 5 > |request| {
      return -1;
    }
    offset := offset + 1;
    if U16At(request, offset) != TYPE_A || U16At(request, offset + 2) != CLASS_IN {
      return -1;
    }
    var questionEnd := offset + 4;
    var replyLength := questionEnd + ANSWER_LENGTH;
    if replyLength > reply.Length || address.None? {
      return -1;
    }
    WriteReply(request, reply, questionEnd, address.value);
    length := replyLength;
  }

  method WriteReply(request: seq<byte>, reply: array<byte>, questionEnd: nat, address: Address)
    requires AnswerableEnd(request) == Some(questionEnd) && questionEnd + ANSWER_LENGTH <= reply.Length
    modifies reply
    ensures reply[..questionEnd + ANSWER_LENGTH] == Reply(request, address)
    ensures reply[questionEnd + ANSWER_LENGTH..] == old(reply[questionEnd + ANSWER_LENGTH..])
  {
    hide AnswerableEnd, Answer, ReplyFlags, U16, U16At, Overlay, Reply;
    ghost var buffer := reply[..];
    CopyInto(reply, 0, request[..questionEnd]);
    CopyInto(reply, 2, U16(ReplyFlags(U16At(request, 2))));
    CopyInto(reply, 4, COUNTS);
    CopyInto(reply, questionEnd, Answer(address));
    Written(buffer, request, questionEnd, address);
  }

  /** One question, one answer. */
  const COUNTS: seq<byte> := U16(1) + U16(1) + U16(0) + U16(0)

  lemma {:induction false} Written(buffer: seq<byte>, request: seq<byte>, questionEnd: nat, address: Address)
    requires AnswerableEnd(request) == Some(questionEnd) && questionEnd + ANSWER_LENGTH <= |buffer|
    ensures var copied := Overlay(buffer, 0, request[..questionEnd]);
            var flagged := Overlay(copied, 2, U16(ReplyFlags(U16At(request, 2))));
            Overlay(Overlay(flagged, 4, COUNTS), questionEnd, Answer(address)) ==
            Reply(request, address) + buffer[questionEnd + ANSWER_LENGTH..]
  {
    hide AnswerableEnd, Answer, ReplyFlags, U16, U16At, ReplyHeader;
    var flags := U16(ReplyFlags(U16At(request, 2)));
    var copied := Overlay(buffer, 0, request[..questionEnd]);
    assert copied == request[..questionEnd] + buffer[questionEnd..];
    var flagged := Overlay(copied, 2, flags);
    assert flagged == request[..2] + flags + request[4..questionEnd] + buffer[questionEnd..];
    var counted := Overlay(flagged, 4, COUNTS);
    HeaderBytes(request);
    assert counted == request[..2] + flags + COUNTS + request[HEADER_LENGTH..questionEnd] + buffer[questionEnd..];
    assert counted == ReplyHeader(request) + request[HEADER_LENGTH..questionEnd] + buffer[questionEnd..];
  }

  lemma {:induction false} HeaderBytes(request: seq<byte>)
    requires |request| >= HEADER_LENGTH
    ensures |COUNTS| == 8
    ensures ReplyHeader(request) == request[..2] + U16(ReplyFlags(U16At(request, 2))) + COUNTS
  {
    hide ReplyFlags, U16At;
  }
}
