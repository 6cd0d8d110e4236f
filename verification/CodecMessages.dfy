/** The messages of the codec callback interface: what the proxy writes and what the stub accepts.
    Each encoder is paired with a parser, and a lemma shows they are exact inverses. */
module CodecMessages {
  import opened Hdf
  import opened Sbuf

  const INTERFACE_DESCRIPTOR := "ohos.hdi.codec_service"
  const CMD_EVENT_HANDLER := 0
  const CMD_EMPTY_BUFFER_DONE := 1
  const CMD_FILL_BUFFER_DONE := 2
  const BUFFER_TYPE_AVSHARE_MEM_FD := 2
  const VERSION_SIZE := 4

  /** An array whose length fits the 32-bit length word. */
  type Array8 = a: seq<Int8> | |a| < 0x1_0000_0000

  datatype EventInfo = EventInfo(appData: Array8, data1: UInt32, data2: UInt32, eventData: Array8)

  // ---------- arrays ----------

  function EncodeArray(a: Array8): seq<Item> { [U32(|a|)] + I8s(a) }

  function ReadArray(m: seq<Item>): Parse<Array8> {
    var (n, r) :- ReadU32(m);
    var (a, r') :- ReadI8s(n, r);
    Parsed(a, r')
  }

  lemma ReadArrayIff(m: seq<Item>, a: Array8, rest: seq<Item>)
    ensures ReadArray(m) == Parsed(a, rest) <==> m == EncodeArray(a) + rest
  {
    hide ReadI8s;
    hide I8s;
    if m != [] && m[0].U32? {
      ReadI8sIff(m[0].u32, m[1..], a, rest);
      if ReadArray(m) == Parsed(a, rest) { assert m == [m[0]] + m[1..]; }
    }
    if m == EncodeArray(a) + rest {
      assert m == [U32(|a|)] + (I8s(a) + rest);
    }
  }

  // ---------- event information ----------

  function EncodeInfo(info: EventInfo): seq<Item> {
    EncodeArray(info.appData) + [U32(info.data1), U32(info.data2)] + EncodeArray(info.eventData)
  }

  function ReadInfo(m: seq<Item>): Parse<EventInfo> {
    var (appData, r1) :- ReadArray(m);
    var (data1, r2) :- ReadU32(r1);
    var (data2, r3) :- ReadU32(r2);
    var (eventData, r4) :- ReadArray(r3);
    Parsed(EventInfo(appData, data1, data2, eventData), r4)
  }

  lemma ReadU32Cons(v: UInt32, rest: seq<Item>)
    ensures ReadU32([U32(v)] + rest) == Parsed(v, rest)
  {
  }

  lemma ReadInfoEncoded(info: EventInfo, rest: seq<Item>)
    ensures ReadInfo(EncodeInfo(info) + rest) == Parsed(info, rest)
  {
    hide ReadArray;
    hide EncodeArray;
    hide ReadU32;
    var m := EncodeInfo(info) + rest;
    var r3 := EncodeArray(info.eventData) + rest;
    var r2 := [U32(info.data2)] + r3;
    var r1 := [U32(info.data1)] + r2;
    assert m == EncodeArray(info.appData) + r1;
    ReadArrayIff(m, info.appData, r1);
    ReadU32Cons(info.data1, r2);
    ReadU32Cons(info.data2, r3);
    ReadArrayIff(r3, info.eventData, rest);
  }

  lemma ReadInfoExact(m: seq<Item>, info: EventInfo, rest: seq<Item>)
    requires ReadInfo(m) == Parsed(info, rest)
    ensures m == EncodeInfo(info) + rest
  {
    hide ReadArray;
    hide EncodeArray;
    var r1 := ReadArray(m).rest;
    ReadArrayIff(m, info.appData, r1);
    ReadArrayIff(r1[2..], info.eventData, rest);
    assert r1[1..][1..] == r1[2..];
    assert r1 == [U32(info.data1), U32(info.data2)] + r1[2..];
  }

  // ---------- codec buffers ----------

  datatype Payload = NoData | Shared(fd: nat) | Inline(bytes: seq<UInt8>)

  /** The fields up to and including the buffer contents. */
  datatype Head = Head(
    bufferId: UInt32, size: UInt32, version: seq<UInt8>, bufferType: Int32, bufferLen: UInt32, payload: Payload)
  {
    predicate Valid() {
      && |version| == VERSION_SIZE
      && match payload
         case NoData => bufferLen == 0
         case Shared(_) => bufferLen > 0 && bufferType == BUFFER_TYPE_AVSHARE_MEM_FD
         case Inline(bytes) => bufferLen > 0 && bufferType != BUFFER_TYPE_AVSHARE_MEM_FD && |bytes| == bufferLen
    }
  }

  datatype Tail = Tail(
    allocLen: UInt32, filledLen: UInt32, offset: UInt32, fenceFd: Int32, shareType: Int32, pts: Int64, flag: UInt32)

  datatype OmxCodecBuffer = OmxCodecBuffer(head: Head, tail: Tail)

  function EncodePayload(p: Payload): seq<Item> {
    match p
    case NoData => []
    case Shared(fd) => [Fd(fd)]
    case Inline(bytes) => U8s(bytes)
  }

  function EncodeFixed(h: Head): seq<Item> {
    [U32(h.bufferId), U32(h.size), Raw(h.version), I32(h.bufferType), U32(h.bufferLen)]
  }

  function EncodeHead(h: Head): seq<Item> { EncodeFixed(h) + EncodePayload(h.payload) }

  function EncodeTail(t: Tail): seq<Item> {
    [U32(t.allocLen), U32(t.filledLen), U32(t.offset), I32(t.fenceFd), I32(t.shareType), I64(t.pts), U32(t.flag)]
  }

  function EncodeBuffer(b: OmxCodecBuffer): seq<Item> { EncodeHead(b.head) + EncodeTail(b.tail) }

  function ReadPayload(bufferType: Int32, bufferLen: UInt32, m: seq<Item>): Parse<Payload> {
    if bufferLen == 0 then Parsed(NoData, m)
    else if bufferType == BUFFER_TYPE_AVSHARE_MEM_FD then
      var (fd, r) :- ReadFd(m); Parsed(Shared(fd), r)
    else
      var (bytes, r) :- ReadU8s(bufferLen, m); Parsed(Inline(bytes), r)
  }

  /** The buffer's type, length and contents. */
  function ReadContents(m: seq<Item>): Parse<(Int32, UInt32, Payload)> {
    var (bufferType, r1) :- ReadI32(m);
    var (bufferLen, r2) :- ReadU32(r1);
    var (payload, r3) :- ReadPayload(bufferType, bufferLen, r2);
    Parsed((bufferType, bufferLen, payload), r3)
  }

  function ReadHead(m: seq<Item>): Parse<Head> {
    var (bufferId, r1) :- ReadU32(m);
    var (size, r2) :- ReadU32(r1);
    var (version, r3) :- ReadRaw(VERSION_SIZE, r2);
    var (contents, r4) :- ReadContents(r3);
    Parsed(Head(bufferId, size, version, contents.0, contents.1, contents.2), r4)
  }

  function ReadTail(m: seq<Item>): Parse<Tail> {
    var (allocLen, r1) :- ReadU32(m);
    var (filledLen, r2) :- ReadU32(r1);
    var (offset, r3) :- ReadU32(r2);
    var (fenceFd, r4) :- ReadI32(r3);
    var (shareType, r5) :- ReadI32(r4);
    var (pts, r6) :- ReadI64(r5);
    var (flag, r7) :- ReadU32(r6);
    Parsed(Tail(allocLen, filledLen, offset, fenceFd, shareType, pts, flag), r7)
  }

  function ReadBuffer(m: seq<Item>): Parse<OmxCodecBuffer> {
    var (head, r) :- ReadHead(m);
    var (tail, r') :- ReadTail(r);
    Parsed(OmxCodecBuffer(head, tail), r')
  }

  lemma ReadTailIff(m: seq<Item>, t: Tail, rest: seq<Item>)
    ensures ReadTail(m) == Parsed(t, rest) <==> m == EncodeTail(t) + rest
  {
    Slices(m);
    if ReadTail(m) == Parsed(t, rest) {
      assert m == m[..7] + m[7..] && m[..7] == EncodeTail(t);
    }
    if m == EncodeTail(t) + rest { assert m[7..] == rest; }
  }

  lemma ReadFixedEncoded(h: Head, r5: seq<Item>)
    requires |h.version| == VERSION_SIZE
    ensures ReadHead(EncodeFixed(h) + r5) ==
            match ReadPayload(h.bufferType, h.bufferLen, r5)
            case Failed => Failed
            case Parsed(p, rest) => Parsed(h.(payload := p), rest)
  {
    hide ReadPayload;
    var m := EncodeFixed(h) + r5;
    Slices(m);
    assert m[5..] == r5;
  }

  lemma ReadFixedExact(m: seq<Item>)
    requires ReadHead(m).Parsed?
    ensures var h := ReadHead(m).value;
      && |h.version| == VERSION_SIZE && |m| >= 5 && m == EncodeFixed(h) + m[5..]
      && ReadPayload(h.bufferType, h.bufferLen, m[5..]) == Parsed(h.payload, ReadHead(m).rest)
  {
    hide ReadPayload;
    Slices(m);
    assert m == m[..5] + m[5..] && m[..5] == EncodeFixed(ReadHead(m).value);
  }

  lemma ReadHeadIff(m: seq<Item>, h: Head, rest: seq<Item>)
    ensures ReadHead(m) == Parsed(h, rest) <==> h.Valid() && m == EncodeHead(h) + rest
  {
    hide ReadHead;
    hide EncodeFixed;
    hide ReadU8s;
    hide U8s;
    if h.Valid() && m == EncodeHead(h) + rest {
      var r5 := EncodePayload(h.payload) + rest;
      assert m == EncodeFixed(h) + r5;
      ReadFixedEncoded(h, r5);
      if h.payload.Inline? { ReadU8sIff(h.bufferLen, r5, h.payload.bytes, rest); }
      if h.payload.NoData? { assert r5 == rest; }
    }
    if ReadHead(m) == Parsed(h, rest) {
      ReadFixedExact(m);
      if h.payload.Inline? { ReadU8sIff(h.bufferLen, m[5..], h.payload.bytes, rest); }
      assert m[5..] == EncodePayload(h.payload) + rest;
    }
  }

  /** Buffers survive the trip, and nothing but an encoded buffer is accepted. */
  lemma ReadBufferIff(m: seq<Item>, b: OmxCodecBuffer, rest: seq<Item>)
    ensures ReadBuffer(m) == Parsed(b, rest) <==> b.head.Valid() && m == EncodeBuffer(b) + rest
  {
    hide ReadHead;
    hide ReadTail;
    hide EncodeHead;
    hide EncodeTail;
    if b.head.Valid() && m == EncodeBuffer(b) + rest {
      var r := EncodeTail(b.tail) + rest;
      assert m == EncodeHead(b.head) + r;
      ReadHeadIff(m, b.head, r);
      ReadTailIff(r, b.tail, rest);
    }
    if ReadBuffer(m) == Parsed(b, rest) {
      var r := ReadHead(m).rest;
      ReadHeadIff(m, b.head, r);
      ReadTailIff(r, b.tail, rest);
    }
  }

  // ---------- whole messages ----------

  datatype Call =
    | EventHandler(event: UInt32, info: EventInfo)
    | EmptyBufferDone(appData: Array8, buffer: OmxCodecBuffer)
    | FillBufferDone(appData: Array8, buffer: OmxCodecBuffer)
  {
    predicate Valid() { !EventHandler? ==> buffer.head.Valid() }
    function Code(): int {
      match this
      case EventHandler(_, _) => CMD_EVENT_HANDLER
      case EmptyBufferDone(_, _) => CMD_EMPTY_BUFFER_DONE
      case FillBufferDone(_, _) => CMD_FILL_BUFFER_DONE
    }
  }

  function EncodeBufferDone(appData: Array8, buffer: OmxCodecBuffer): seq<Item> {
    EncodeArray(appData) + EncodeBuffer(buffer)
  }

  /** What the proxy sends for a call. */
  function Message(call: Call): seq<Item> {
    [Token(INTERFACE_DESCRIPTOR)] +
    match call
    case EventHandler(event, info) => [U32(event)] + EncodeInfo(info)
    case EmptyBufferDone(appData, buffer) => EncodeBufferDone(appData, buffer)
    case FillBufferDone(appData, buffer) => EncodeBufferDone(appData, buffer)
  }

  function ReadEvent(m: seq<Item>): Parse<Call> {
    var (event, r) :- ReadU32(m);
    var (info, r') :- ReadInfo(r);
    Parsed(EventHandler(event, info), r')
  }

  function ReadBufferDone(m: seq<Item>): Parse<(Array8, OmxCodecBuffer)> {
    var (appData, r) :- ReadArray(m);
    var (buffer, r') :- ReadBuffer(r);
    Parsed((appData, buffer), r')
  }

  /** How the stub understands a request. */
  function ReadRequest(code: int, m: seq<Item>): Parse<Call> {
    var (_, r) :- ReadToken(INTERFACE_DESCRIPTOR, m);
    if code == CMD_EVENT_HANDLER then ReadEvent(r)
    else if code == CMD_EMPTY_BUFFER_DONE then
      var (p, r') :- ReadBufferDone(r); Parsed(EmptyBufferDone(p.0, p.1), r')
    else if code == CMD_FILL_BUFFER_DONE then
      var (p, r') :- ReadBufferDone(r); Parsed(FillBufferDone(p.0, p.1), r')
    else Failed
  }

  lemma ReadEventIff(m: seq<Item>, event: UInt32, info: EventInfo, rest: seq<Item>)
    ensures ReadEvent(m) == Parsed(EventHandler(event, info), rest) <==> m == [U32(event)] + EncodeInfo(info) + rest
  {
    hide ReadInfo;
    hide EncodeInfo;
    if ReadEvent(m) == Parsed(EventHandler(event, info), rest) {
      ReadInfoExact(m[1..], info, rest);
      assert m == [m[0]] + m[1..];
    }
    if m == [U32(event)] + EncodeInfo(info) + rest {
      assert m[1..] == EncodeInfo(info) + rest;
      ReadInfoEncoded(info, rest);
    }
  }

  lemma ReadBufferDoneIff(m: seq<Item>, appData: Array8, buffer: OmxCodecBuffer, rest: seq<Item>)
    ensures ReadBufferDone(m) == Parsed((appData, buffer), rest) <==>
            buffer.head.Valid() && m == EncodeBufferDone(appData, buffer) + rest
  {
    hide ReadBuffer;
    hide ReadArray;
    hide EncodeBuffer;
    hide EncodeArray;
    if ReadBufferDone(m) == Parsed((appData, buffer), rest) {
      var r := ReadArray(m).rest;
      ReadArrayIff(m, appData, r);
      ReadBufferIff(r, buffer, rest);
    }
    if buffer.head.Valid() && m == EncodeBufferDone(appData, buffer) + rest {
      var r := EncodeBuffer(buffer) + rest;
      assert m == EncodeArray(appData) + r;
      ReadArrayIff(m, appData, r);
      ReadBufferIff(r, buffer, rest);
    }
  }

  /** Main theorem: the stub understands a request as `call` if and only if the request carries the
      call's code and starts with the message the proxy would send for it. */
  lemma RequestIff(code: int, m: seq<Item>, call: Call, rest: seq<Item>)
    ensures ReadRequest(code, m) == Parsed(call, rest) <==> code == call.Code() && call.Valid() && m == Message(call) + rest
  {
    hide ReadInfo;
    hide ReadBufferDone;
    hide EncodeBufferDone;
    hide EncodeInfo;
    if m == Message(call) + rest { assert m[0] == Token(INTERFACE_DESCRIPTOR); }
    if m != [] && m[0] == Token(INTERFACE_DESCRIPTOR) {
      var body := Message(call)[1..];
      assert Message(call) == [m[0]] + body && m == [m[0]] + m[1..];
      assert m == Message(call) + rest <==> m[1..] == body + rest by {
        assert Message(call) + rest == [m[0]] + (body + rest);
        if m[1..] == body + rest { assert m == [m[0]] + (body + rest); }
        if m == [m[0]] + (body + rest) { assert m[1..] == body + rest; }
      }
      if call.EventHandler? { ReadEventIff(m[1..], call.event, call.info, rest); }
      else { ReadBufferDoneIff(m[1..], call.appData, call.buffer, rest); }
    }
  }

  /** The stub accepts a request if and only if it starts with a message of the proxy for that code. */
  lemma AcceptsIff(code: int, m: seq<Item>)
    ensures ReadRequest(code, m).Parsed? <==>
            exists call: Call :: code == call.Code() && call.Valid() && Message(call) <= m
  {
    hide ReadRequest;
    hide Message;
    var p := ReadRequest(code, m);
    if p.Parsed? { RequestIff(code, m, p.value, p.rest); }
    if call: Call :| code == call.Code() && call.Valid() && Message(call) <= m {
      RequestIff(code, m, call, m[|Message(call)|..]);
    }
  }

  /** Every call comes out of the stub as it went into the proxy, and no two calls share a message. */
  lemma StubDecodesProxy(call: Call, other: Call)
    requires call.Valid() && other.Valid()
    ensures ReadRequest(call.Code(), Message(call)) == Parsed(call, [])
    ensures call.Code() == other.Code() && Message(call) == Message(other) ==> call == other
  {
    hide ReadRequest;
    hide Message;
    assert Message(call) == Message(call) + [];
    RequestIff(call.Code(), Message(call), call, []);
    RequestIff(call.Code(), Message(call), other, []);
  }

  // ---------- where the fields stand ----------

  /** The items of `m` from `at` on are the array's length and its bytes. */
  ghost predicate ArrayAt(m: seq<Item>, at: nat, a: Array8) {
    && at + 1 + |a| <= |m| && m[at] == U32(|a|)
    && forall i :: 0 <= i < |a| ==> m[at + 1 + i] == I8(a[i])
  }

  lemma ArrayPlaced(pre: seq<Item>, a: Array8, post: seq<Item>)
    ensures |EncodeArray(a)| == 1 + |a| && ArrayAt(pre + EncodeArray(a) + post, |pre|, a)
  {
  }

  /** Regrouping a message around any of its pieces. */
  lemma Regroup(a: seq<Item>, b: seq<Item>, c: seq<Item>, d: seq<Item>)
    ensures a + (b + c + d) == a + b + (c + d) == a + b + c + d
  {
  }

  /** An event message item by item: token, event, application data, the two words, event data. */
  lemma EventLayout(event: UInt32, info: EventInfo)
    ensures var m, a := Message(EventHandler(event, info)), |info.appData|;
      && |m| == 6 + a + |info.eventData|
      && m[0] == Token("ohos.hdi.codec_service") && m[1] == U32(event) && ArrayAt(m, 2, info.appData)
      && m[3 + a] == U32(info.data1) && m[4 + a] == U32(info.data2) && ArrayAt(m, 5 + a, info.eventData)
    ensures EventHandler(event, info).Code() == 0
  {
    var e1, w, e2 := EncodeArray(info.appData), [U32(info.data1), U32(info.data2)], EncodeArray(info.eventData);
    var head := [Token(INTERFACE_DESCRIPTOR), U32(event)];
    var m := Message(EventHandler(event, info));
    assert m == head + (e1 + w + e2);
    hide EncodeArray;
    hide Message;
    Regroup(head, e1, w, e2);
    ArrayPlaced(head, info.appData, w + e2);
    ArrayPlaced(head + e1 + w, info.eventData, []);
    assert m == head + e1 + w + e2 + [];
    assert m[|head + e1|] == w[0] && m[|head + e1| + 1] == w[1];
  }

  /** How many items the contents of a buffer take. */
  function PayloadItems(p: Payload): nat {
    match p
    case NoData => 0
    case Shared(_) => 1
    case Inline(bytes) => |bytes|
  }

  ghost predicate PayloadAt(m: seq<Item>, at: nat, p: Payload) {
    && at + PayloadItems(p) <= |m|
    && (p.Shared? ==> m[at] == Fd(p.fd))
    && (p.Inline? ==> forall i :: 0 <= i < |p.bytes| ==> m[at + i] == U8(p.bytes[i]))
  }

  ghost predicate TailAt(m: seq<Item>, at: nat, t: Tail) {
    && at + 7 <= |m|
    && m[at] == U32(t.allocLen) && m[at + 1] == U32(t.filledLen) && m[at + 2] == U32(t.offset)
    && m[at + 3] == I32(t.fenceFd) && m[at + 4] == I32(t.shareType) && m[at + 5] == I64(t.pts) && m[at + 6] == U32(t.flag)
  }

  lemma PayloadPlaced(pre: seq<Item>, p: Payload, post: seq<Item>)
    ensures |EncodePayload(p)| == PayloadItems(p) && PayloadAt(pre + EncodePayload(p) + post, |pre|, p)
  {
  }

  lemma TailPlaced(pre: seq<Item>, t: Tail)
    ensures |EncodeTail(t)| == 7 && TailAt(pre + EncodeTail(t), |pre|, t)
  {
    var m, e := pre + EncodeTail(t), EncodeTail(t);
    assert forall i :: 0 <= i < 7 ==> m[|pre| + i] == e[i];
    assert m[|pre| + 0] == e[0] && m[|pre| + 1] == e[1] && m[|pre| + 2] == e[2] && m[|pre| + 3] == e[3];
    assert m[|pre| + 4] == e[4] && m[|pre| + 5] == e[5] && m[|pre| + 6] == e[6];
  }

  ghost predicate FixedAt(m: seq<Item>, at: nat, h: Head) {
    && at + 5 <= |m|
    && m[at] == U32(h.bufferId) && m[at + 1] == U32(h.size) && m[at + 2] == Raw(h.version)
    && m[at + 3] == I32(h.bufferType) && m[at + 4] == U32(h.bufferLen)
  }

  lemma FixedPlaced(pre: seq<Item>, h: Head, post: seq<Item>)
    ensures |EncodeFixed(h)| == 5 && FixedAt(pre + EncodeFixed(h) + post, |pre|, h)
  {
    var m, e := pre + EncodeFixed(h) + post, EncodeFixed(h);
    assert forall i :: 0 <= i < 5 ==> m[|pre| + i] == e[i];
    assert m[|pre| + 0] == e[0] && m[|pre| + 1] == e[1] && m[|pre| + 2] == e[2];
    assert m[|pre| + 3] == e[3] && m[|pre| + 4] == e[4];
  }

  /** A buffer-done message item by item: token, application data, the buffer's leading fields, its
      contents, its remaining fields. */
  lemma BufferLayout(call: Call)
    requires !call.EventHandler?
    ensures var m, h, at := Message(call), call.buffer.head, 2 + |call.appData|;
      && |m| == at + 5 + PayloadItems(h.payload) + 7
      && m[0] == Token("ohos.hdi.codec_service") && ArrayAt(m, 1, call.appData)
      && FixedAt(m, at, h)
      && PayloadAt(m, at + 5, h.payload) && TailAt(m, at + 5 + PayloadItems(h.payload), call.buffer.tail)
    ensures call.Code() == if call.EmptyBufferDone? then 1 else 2
    ensures call.Valid() ==>
      var h := call.buffer.head;
      PayloadItems(h.payload) == if h.bufferLen > 0 && h.bufferType == 2 then 1 else h.bufferLen
  {
    var h, token := call.buffer.head, [Token(INTERFACE_DESCRIPTOR)];
    var e1, f, q, e2 := EncodeArray(call.appData), EncodeFixed(h), EncodePayload(h.payload), EncodeTail(call.buffer.tail);
    BufferPieces(call);
    hide Message;
    hide EncodeArray;
    hide EncodeFixed;
    hide EncodePayload;
    hide EncodeTail;
    hide ArrayAt;
    hide FixedAt;
    hide PayloadAt;
    hide TailAt;
    ArrayPlaced(token, call.appData, f + q + e2);
    FixedPlaced(token + e1, h, q + e2);
    PayloadPlaced(token + e1 + f, h.payload, e2);
    TailPlaced(token + e1 + f + q, call.buffer.tail);
  }

  /** A buffer-done message cut at each of its pieces. */
  lemma BufferPieces(call: Call)
    requires !call.EventHandler?
    ensures var m, token := Message(call), [Token(INTERFACE_DESCRIPTOR)];
      var e1, f := EncodeArray(call.appData), EncodeFixed(call.buffer.head);
      var q, e2 := EncodePayload(call.buffer.head.payload), EncodeTail(call.buffer.tail);
      && m == token + e1 + (f + q + e2) && m == token + e1 + f + (q + e2)
      && m == token + e1 + f + q + e2 && m[0] == token[0]
  {
    hide EncodeArray;
    hide EncodeFixed;
    hide EncodePayload;
    hide EncodeTail;
    var token, e1, f := [Token(INTERFACE_DESCRIPTOR)], EncodeArray(call.appData), EncodeFixed(call.buffer.head);
    var q, e2 := EncodePayload(call.buffer.head.payload), EncodeTail(call.buffer.tail);
    assert Message(call) == token + (e1 + (f + q + e2));
    hide Message;
    Join(token, e1, f + q + e2);
    Join(f, q, e2);
    Join(token + e1, f, q + e2);
    Join(token + e1 + f, q, e2);
  }

  lemma Join(a: seq<Item>, b: seq<Item>, c: seq<Item>)
    ensures a + (b + c) == a + b + c
  {
  }
}
