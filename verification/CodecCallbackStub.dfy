/** The receiving side: reads through the cursor, heap arrays filled in loops, explicit frees. */
module CodecCallbackStub {
  import opened Hdf
  import opened Sbuf
  import opened CodecMessages

  /** The heap as the stub uses it: the set of blocks allocated and not yet freed.  Freeing demands a
      live block, so no block can be freed twice. */
  class Memory {
    var live: set<object>

    constructor () ensures live == {} { live := {}; }

    method CallocInt8(n: nat, granted: bool) returns (block: array?<Int8>)
      modifies this
      ensures !granted ==> block == null && live == old(live)
      ensures granted ==> block != null && fresh(block) && block.Length == n && live == old(live) + {block}
    {
      block := null;
      if granted {
        block := new Int8[n](_ => 0);
        live := live + {block};
      }
    }

    method CallocUint8(n: nat, granted: bool) returns (block: array?<UInt8>)
      modifies this
      ensures !granted ==> block == null && live == old(live)
      ensures granted ==> block != null && fresh(block) && block.Length == n && live == old(live) + {block}
    {
      block := null;
      if granted {
        block := new UInt8[n](_ => 0);
        live := live + {block};
      }
    }

    method Free(block: object)
      requires block in live
      modifies this
      ensures live == old(live) - {block}
    {
      live := live - {block};
    }
  }

  /** The service implementation: it records the calls it gets and answers with a given code. */
  class Service {
    var calls: seq<Call>

    constructor () ensures calls == [] { calls := []; }

    method Invoke(call: Call, answer: int) returns (ret: int)
      modifies this
      ensures calls == old(calls) + [call] && ret == answer
    {
      calls := calls + [call];
      ret := answer;
    }
  }

  /** What an array out-parameter denotes: nothing when the length is zero. */
  ghost predicate Denotes(block: array?<Int8>, len: UInt32, a: Array8)
    reads block
  {
    |a| == len && (len > 0 ==> block != null && block[..] == a)
  }

  class Stub {
    const mem: Memory
    const service: Service

    constructor (mem: Memory, service: Service)
      ensures this.mem == mem && this.service == service
    {
      this.mem, this.service := mem, service;
    }

    method FreeMem(block: array?<Int8>, len: UInt32)
      requires len > 0 && block != null ==> block in mem.live
      modifies mem
      ensures mem.live == if len > 0 && block != null then old(mem.live) - {block} else old(mem.live)
    {
      if len > 0 && block != null {
        mem.Free(block);
      }
    }

    /** Fill a block from the message; stops at the first item that is not a byte. */
    method FillInt8(data: HdfSBuf, block: array<Int8>) returns (ok: bool)
      requires data.Valid()
      modifies data`pos, block
      ensures data.Valid() && ok == ReadI8s(block.Length, old(data.Rest())).Parsed?
      ensures ok ==> Parsed(block[..], data.Rest()) == ReadI8s(block.Length, old(data.Rest()))
    {
      ghost var start := data.Rest();
      for i := 0 to block.Length
        invariant data.Valid() && i <= |start| && data.Rest() == start[i..]
        invariant forall k :: 0 <= k < i ==> start[k].I8? && block[k] == start[k].i8
      {
        var got, v := data.ReadInt8();
        if !got {
          return false;
        }
        block[i] := v;
      }
      assert block[..] == ReadI8s(block.Length, start).value;
      return true;
    }

    /** `block` is null when the length is zero or on failure. */
    method ReadArray(data: HdfSBuf, granted: bool) returns (ret: int, block: array?<Int8>, len: UInt32)
      requires data.Valid()
      modifies data`pos, mem
      ensures data.Valid() && (block != null ==> fresh(block))
      ensures var p := CodecMessages.ReadArray(old(data.Rest()));
        ret == HDF_SUCCESS <==> p.Parsed? && (|p.value| > 0 ==> granted)
      ensures ret == HDF_SUCCESS ==>
        var p := CodecMessages.ReadArray(old(data.Rest()));
        data.Rest() == p.rest && Denotes(block, len, p.value) && (len == 0 <==> block == null)
      ensures mem.live == if block != null then old(mem.live) + {block} else old(mem.live)
      ensures ret == HDF_SUCCESS ==> !Starved(old(data.Rest()), granted)
      ensures ret != HDF_SUCCESS ==>
        block == null && len == 0 && ret == if Starved(old(data.Rest()), granted) then HDF_ERR_MALLOC_FAIL else HDF_ERR_INVALID_PARAM
    {
      block, len := null, 0;
      var ok, bufferLen := data.ReadUint32();
      if !ok {
        return HDF_ERR_INVALID_PARAM, null, 0;
      }
      if bufferLen <= 0 {
        return HDF_SUCCESS, null, bufferLen;
      }
      var buffer := mem.CallocInt8(bufferLen, granted);
      if buffer == null {
        return HDF_ERR_MALLOC_FAIL, null, 0;
      }
      var filled := FillInt8(data, buffer);
      if !filled {
        mem.Free(buffer);
        return HDF_ERR_INVALID_PARAM, null, 0;
      }
      return HDF_SUCCESS, buffer, bufferLen;
    }

    method ReadEventInfo(data: HdfSBuf, granted1: bool, granted2: bool)
      returns (ret: int, app: array?<Int8>, appLen: UInt32, data1: UInt32, data2: UInt32, ev: array?<Int8>, evLen: UInt32)
      requires data.Valid()
      modifies data`pos, mem
      ensures data.Valid()
      ensures ret == HDF_SUCCESS <==>
        ReadInfo(old(data.Rest())).Parsed? && InfoGranted(ReadInfo(old(data.Rest())).value, granted1, granted2)
      ensures ret == HDF_SUCCESS ==>
        var p := ReadInfo(old(data.Rest()));
        && data.Rest() == p.rest && Denotes(app, appLen, p.value.appData) && Denotes(ev, evLen, p.value.eventData)
        && data1 == p.value.data1 && data2 == p.value.data2
        && (app != null ==> fresh(app) && app != ev) && (ev != null ==> fresh(ev))
        && (appLen == 0 <==> app == null) && (evLen == 0 <==> ev == null)
        && mem.live == old(mem.live) + (if app != null then {app} else {}) + (if ev != null then {ev} else {})
      ensures ret != HDF_SUCCESS ==> mem.live == old(mem.live)
    {
      hide CodecMessages.ReadArray;
      app, appLen, data1, data2, ev, evLen := null, 0, 0, 0, null, 0;
      ret, app, appLen := ReadArray(data, granted1);
      if ret != HDF_SUCCESS {
        return;
      }
      var ok;
      ok, data1 := data.ReadUint32();
      if !ok {
        FreeMem(app, appLen);
        ret := HDF_ERR_INVALID_PARAM;
        return;
      }
      ok, data2 := data.ReadUint32();
      if !ok {
        FreeMem(app, appLen);
        ret := HDF_ERR_INVALID_PARAM;
        return;
      }
      ret, ev, evLen := ReadArray(data, granted2);
      if ret != HDF_SUCCESS {
        FreeMem(app, appLen);
      }
    }

    method SerStubEventHandler(data: HdfSBuf, granted1: bool, granted2: bool, answer: int) returns (ret: int)
      requires data.Valid()
      modifies data`pos, mem, service
      ensures data.Valid() && mem.live == old(mem.live)
      ensures var p := ReadEvent(old(data.Rest()));
        if p.Parsed? && InfoGranted(p.value.info, granted1, granted2)
        then service.calls == old(service.calls) + [p.value] && ret == answer
        else service.calls == old(service.calls) && ret == HDF_ERR_INVALID_PARAM
    {
      hide ReadInfo;
      var ok, event := data.ReadUint32();
      if !ok {
        return HDF_ERR_INVALID_PARAM;
      }
      var app, appLen, data1, data2, ev, evLen;
      ret, app, appLen, data1, data2, ev, evLen := ReadEventInfo(data, granted1, granted2);
      if ret != HDF_SUCCESS {
        return HDF_ERR_INVALID_PARAM;
      }
      var info := EventInfo(Contents(app, appLen), data1, data2, Contents(ev, evLen));
      ret := service.Invoke(EventHandler(event, info), answer);
      FreeMem(app, appLen);
      FreeMem(ev, evLen);
    }

    method FillUint8(data: HdfSBuf, block: array<UInt8>) returns (ok: bool)
      requires data.Valid()
      modifies data`pos, block
      ensures data.Valid() && ok == ReadU8s(block.Length, old(data.Rest())).Parsed?
      ensures ok ==> Parsed(block[..], data.Rest()) == ReadU8s(block.Length, old(data.Rest()))
    {
      ghost var start := data.Rest();
      for i := 0 to block.Length
        invariant data.Valid() && i <= |start| && data.Rest() == start[i..]
        invariant forall k :: 0 <= k < i ==> start[k].U8? && block[k] == start[k].u8
      {
        var got, v := data.ReadUint8();
        if !got {
          return false;
        }
        block[i] := v;
      }
      assert block[..] == ReadU8s(block.Length, start).value;
      return true;
    }

    /** `block` holds inline contents; it is null for shared memory, for no contents, and on failure. */
    method CodecBufferUnmarshalling(data: HdfSBuf, granted: bool)
      returns (ok: bool, bufferType: Int32, bufferLen: UInt32, payload: Payload, block: array?<UInt8>)
      requires data.Valid()
      modifies data`pos, mem
      ensures data.Valid() && (block != null ==> fresh(block))
      ensures var p := ReadContents(old(data.Rest()));
        && (ok <==> p.Parsed? && (p.value.2.Inline? ==> granted))
        && (ok ==> Parsed((bufferType, bufferLen, payload), data.Rest()) == p)
        && (block != null <==> ok && p.value.2.Inline?)
        && (block != null ==> block[..] == p.value.2.bytes)
      ensures mem.live == if block != null then old(mem.live) + {block} else old(mem.live)
    {
      bufferType, bufferLen, payload, block := 0, 0, NoData, null;
      ok, bufferType := data.ReadInt32();
      if !ok {
        return;
      }
      ok, bufferLen := data.ReadUint32();
      if !ok || bufferLen <= 0 {
        return;
      }
      if bufferType == BUFFER_TYPE_AVSHARE_MEM_FD {
        var fd;
        ok, fd := data.ReadFileDescriptor();
        payload := Shared(fd);
      } else {
        var bufferCp := mem.CallocUint8(bufferLen, granted);
        if bufferCp == null {
          ok := false;
          return;
        }
        ok := FillUint8(data, bufferCp);
        if !ok {
          mem.Free(bufferCp);
          return;
        }
        block := bufferCp;
        payload := Inline(bufferCp[..]);
      }
    }

    method TailUnmarshalling(data: HdfSBuf) returns (ok: bool, tail: Tail)
      requires data.Valid()
      modifies data`pos
      ensures data.Valid() && ok == ReadTail(old(data.Rest())).Parsed?
      ensures ok ==> Parsed(tail, data.Rest()) == ReadTail(old(data.Rest()))
    {
      tail := Tail(0, 0, 0, 0, 0, 0, 0);
      Slices(data.Rest());
      var allocLen, filledLen, offset, fenceFd, shareType, pts, flag;
      ok, allocLen := data.ReadUint32();
      if !ok { return; }
      ok, filledLen := data.ReadUint32();
      if !ok { return; }
      ok, offset := data.ReadUint32();
      if !ok { return; }
      ok, fenceFd := data.ReadInt32();
      if !ok { return; }
      ok, shareType := data.ReadInt32();
      if !ok { return; }
      ok, pts := data.ReadInt64();
      if !ok { return; }
      ok, flag := data.ReadUint32();
      if !ok { return; }
      tail := Tail(allocLen, filledLen, offset, fenceFd, shareType, pts, flag);
    }

    /** A block for inline contents stays allocated once filled, even if a later field is missing. */
    method OmxCodecBufferBlockUnmarshalling(data: HdfSBuf, granted: bool)
      returns (ok: bool, buffer: OmxCodecBuffer, block: array?<UInt8>)
      requires data.Valid()
      modifies data`pos, mem
      ensures data.Valid() && (block != null ==> fresh(block))
      ensures var p := ReadBuffer(old(data.Rest()));
        && (ok <==> p.Parsed? && (p.value.head.payload.Inline? ==> granted))
        && (ok ==> Parsed(buffer, data.Rest()) == p)
      ensures block != null <==> HoldsInline(old(data.Rest())) && granted
      ensures block != null ==> block[..] == InlineBytes(old(data.Rest()))
      ensures mem.live == if block != null then old(mem.live) + {block} else old(mem.live)
    {
      hide ReadContents;
      hide ReadTail;
      var head := Head(0, 0, [], 0, 0, NoData);
      buffer, block := OmxCodecBuffer(head, Tail(0, 0, 0, 0, 0, 0, 0)), null;
      var bufferId, size, version, bufferType, bufferLen, payload, tail;
      ok, bufferId := data.ReadUint32();
      if !ok { return; }
      ok, size := data.ReadUint32();
      if !ok { return; }
      ok, version := data.ReadUnpadBuffer(VERSION_SIZE);
      if !ok { return; }
      ok, bufferType, bufferLen, payload, block := CodecBufferUnmarshalling(data, granted);
      if !ok { return; }
      ok, tail := TailUnmarshalling(data);
      if !ok { return; }
      buffer := OmxCodecBuffer(Head(bufferId, size, version, bufferType, bufferLen, payload), tail);
    }

    /** Both buffer-done requests; `fill` says which.  `kept` is the one block that stays allocated, with
        the buffer's inline contents in it, or null. */
    method SerStubBufferDone(data: HdfSBuf, fill: bool, granted1: bool, granted2: bool, answer: int)
      returns (ret: int, ghost kept: array?<UInt8>)
      requires data.Valid()
      modifies data`pos, mem, service
      ensures data.Valid() && mem.live == if kept != null then old(mem.live) + {kept} else old(mem.live)
      ensures kept != null <==> RetainsBlock(old(data.Rest()), granted1, granted2)
      ensures kept != null ==> fresh(kept) && kept[..] == RetainedBytes(old(data.Rest()))
      ensures var p := ReadBufferDone(old(data.Rest()));
        if p.Parsed? && BufferGranted(p.value.0, p.value.1, granted1, granted2)
        then service.calls == old(service.calls) + [BufferCall(fill, p.value.0, p.value.1)] && ret == answer
        else service.calls == old(service.calls) &&
             ret == if Starved(old(data.Rest()), granted1) then HDF_ERR_MALLOC_FAIL else HDF_ERR_INVALID_PARAM
    {
      hide CodecMessages.ReadArray;
      hide ReadBuffer;
      hide ReadHead;
      kept := null;
      var app, appLen;
      ret, app, appLen := ReadArray(data, granted1);
      if ret != HDF_SUCCESS {
        return;
      }
      var ok, buffer, block := OmxCodecBufferBlockUnmarshalling(data, granted2);
      kept := block;
      if !ok {
        FreeMem(app, appLen);
        ret := HDF_ERR_INVALID_PARAM;
        return;
      }
      ret := service.Invoke(BufferCall(fill, Contents(app, appLen), buffer), answer);
      FreeMem(app, appLen);
    }

    /** The dispatch switch, behind the interface-token check. */
    method OnRemoteRequest(code: int, data: HdfSBuf, granted1: bool, granted2: bool, answer: int)
      returns (ret: int, ghost kept: array?<UInt8>)
      requires data.Valid()
      modifies data`pos, mem, service
      ensures data.Valid() && mem.live == if kept != null then old(mem.live) + {kept} else old(mem.live)
      ensures var p := ReadRequest(code, old(data.Rest()));
        if p.Parsed? && CallGranted(p.value, granted1, granted2)
        then service.calls == old(service.calls) + [p.value] && ret == answer
        else service.calls == old(service.calls) && ret == Refusal(code, old(data.Rest()), granted1)
      ensures kept != null <==> RequestRetains(code, old(data.Rest()), granted1, granted2)
      ensures kept != null ==> fresh(kept) && kept[..] == RetainedBytes(old(data.Rest())[1..])
    {
      hide ReadInfo;
      hide ReadBufferDone;
      hide RetainsBlock;
      hide RetainedBytes;
      kept := null;
      var ok := data.CheckInterfaceToken(INTERFACE_DESCRIPTOR);
      if !ok {
        return HDF_ERR_INVALID_PARAM, null;
      }
      if code == CMD_EVENT_HANDLER {
        ret := SerStubEventHandler(data, granted1, granted2, answer);
      } else if code == CMD_EMPTY_BUFFER_DONE {
        ret, kept := SerStubBufferDone(data, false, granted1, granted2, answer);
      } else if code == CMD_FILL_BUFFER_DONE {
        ret, kept := SerStubBufferDone(data, true, granted1, granted2, answer);
      } else {
        ret := HDF_ERR_INVALID_PARAM;
      }
    }

    /** The bytes a handler sees through a pointer and a length. */
    static function Contents(block: array?<Int8>, len: UInt32): Array8
      requires block != null ==> block.Length == len
      reads block
    {
      if len > 0 && block != null then block[..] else []
    }
  }

  /** The message announces a non-empty array for which there is no block. */
  predicate Starved(m: seq<Item>, granted: bool) { ReadU32(m).Parsed? && ReadU32(m).value > 0 && !granted }

  /** The answer to a request whose handler is not called. */
  function Refusal(code: int, m: seq<Item>, granted1: bool): int {
    if && code in {CMD_EMPTY_BUFFER_DONE, CMD_FILL_BUFFER_DONE} && ReadToken(INTERFACE_DESCRIPTOR, m).Parsed?
       && Starved(m[1..], granted1)
    then HDF_ERR_MALLOC_FAIL else HDF_ERR_INVALID_PARAM
  }

  /** Every non-empty array of the event got its block. */
  predicate InfoGranted(info: EventInfo, granted1: bool, granted2: bool) {
    (|info.appData| > 0 ==> granted1) && (|info.eventData| > 0 ==> granted2)
  }

  /** Every non-empty array and inline payload of a buffer-done call got its block. */
  predicate BufferGranted(appData: Array8, buffer: OmxCodecBuffer, granted1: bool, granted2: bool) {
    (|appData| > 0 ==> granted1) && (buffer.head.payload.Inline? ==> granted2)
  }

  predicate CallGranted(call: Call, granted1: bool, granted2: bool) {
    match call
    case EventHandler(_, info) => InfoGranted(info, granted1, granted2)
    case _ => BufferGranted(call.appData, call.buffer, granted1, granted2)
  }

  function BufferCall(fill: bool, appData: Array8, buffer: OmxCodecBuffer): Call {
    if fill then FillBufferDone(appData, buffer) else EmptyBufferDone(appData, buffer)
  }

  /** The message starts with a buffer whose inline contents are complete. */
  predicate HoldsInline(m: seq<Item>) { ReadHead(m).Parsed? && ReadHead(m).value.payload.Inline? }

  function InlineBytes(m: seq<Item>): seq<UInt8>
    requires HoldsInline(m)
  {
    ReadHead(m).value.payload.bytes
  }

  /** The request gets as far as filling a block with the buffer's inline contents. */
  predicate RetainsBlock(m: seq<Item>, granted1: bool, granted2: bool) {
    var a := CodecMessages.ReadArray(m);
    a.Parsed? && (|a.value| > 0 ==> granted1) && HoldsInline(a.rest) && granted2
  }

  /** What the block that stays behind holds. */
  function RetainedBytes(m: seq<Item>): seq<UInt8>
    requires RetainsBlock(m, true, true)
  {
    InlineBytes(CodecMessages.ReadArray(m).rest)
  }

  predicate RequestRetains(code: int, m: seq<Item>, granted1: bool, granted2: bool) {
    && code in {CMD_EMPTY_BUFFER_DONE, CMD_FILL_BUFFER_DONE}
    && ReadToken(INTERFACE_DESCRIPTOR, m).Parsed?
    && RetainsBlock(m[1..], granted1, granted2)
  }

  // ---------- the block that stays, at a real input ----------

  /** A buffer with one inline byte. */
  const OneByte := OmxCodecBuffer(Head(1, 1, [0, 0, 0, 0], 0, 1, Inline([7])), Tail(0, 0, 0, 0, 0, 0, 0))

  /** A well-formed request leaves its block behind, and so does the same request cut off right after
      the byte, which no handler ever sees. */
  lemma OneByteStays()
    ensures var m := EncodeArray([]) + EncodeBuffer(OneByte); var cut := EncodeArray([]) + EncodeHead(OneByte.head);
      && RetainsBlock(m, true, true) && ReadBufferDone(m).Parsed?
      && cut <= m && RetainsBlock(cut, true, true) && ReadBufferDone(cut).Failed?
  {
    hide ReadHead;
    hide CodecMessages.ReadArray;
    hide EncodeArray;
    hide EncodeHead;
    hide EncodeTail;
    var head, tail := EncodeHead(OneByte.head), EncodeTail(OneByte.tail);
    ReadArrayIff(EncodeArray([]) + EncodeBuffer(OneByte), [], EncodeBuffer(OneByte));
    ReadHeadIff(EncodeBuffer(OneByte), OneByte.head, tail);
    ReadTailIff(tail, OneByte.tail, []);
    assert tail + [] == tail;
    ReadArrayIff(EncodeArray([]) + head, [], head);
    assert head + [] == head;
    ReadHeadIff(head, OneByte.head, []);
    assert EncodeArray([]) + EncodeBuffer(OneByte) == EncodeArray([]) + head + tail;
  }
}
