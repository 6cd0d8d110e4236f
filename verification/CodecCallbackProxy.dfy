/** The sending side: messages appended item by item, and released if they cannot be completed. */
module CodecCallbackProxy {
  import opened Hdf
  import opened Sbuf
  import opened CodecMessages

  /** Message buffers obtained and not yet recycled; only an outstanding buffer can be recycled. */
  class SbufPool {
    var outstanding: set<HdfSBuf>

    constructor () ensures outstanding == {} { outstanding := {}; }

    method Obtain(granted: bool, capacity: nat) returns (b: HdfSBuf?)
      modifies this
      ensures !granted ==> b == null && outstanding == old(outstanding)
      ensures granted ==> b != null && fresh(b) && b.Valid() && b.items == [] && b.capacity == capacity
                          && outstanding == old(outstanding) + {b}
    {
      b := null;
      if granted {
        b := new HdfSBuf(capacity);
        outstanding := outstanding + {b};
      }
    }

    method Recycle(b: HdfSBuf)
      requires b in outstanding
      modifies this
      ensures outstanding == old(outstanding) - {b}
    {
      outstanding := outstanding - {b};
    }

    method ReleaseSbuf(data: HdfSBuf?, reply: HdfSBuf?)
      requires (data != null ==> data in outstanding && data != reply) && (reply != null ==> reply in outstanding)
      modifies this
      ensures outstanding == old(outstanding) - {data, reply}
    {
      if data != null { Recycle(data); }
      if reply != null { Recycle(reply); }
    }
  }

  method WriteArray(data: HdfSBuf, a: Array8) returns (ret: int)
    requires |data.items| <= data.capacity
    modifies data`items
    ensures Wrote(old(data.items), data.items, data.capacity, EncodeArray(a), ret == HDF_SUCCESS)
    ensures ret in {HDF_SUCCESS, HDF_ERR_INVALID_PARAM}
  {
    var ok := data.Write(U32(|a|));
    if !ok {
      return HDF_ERR_INVALID_PARAM;
    }
    for i := 0 to |a|
      invariant |data.items| <= data.capacity
      invariant data.items == old(data.items) + EncodeArray(a)[..i + 1]
    {
      ok := data.Write(I8(a[i]));
      if !ok {
        return HDF_ERR_INVALID_PARAM;
      }
      assert EncodeArray(a)[..i + 2] == EncodeArray(a)[..i + 1] + [I8(a[i])];
    }
    assert EncodeArray(a)[..|a| + 1] == EncodeArray(a);
    return HDF_SUCCESS;
  }

  method WriteEventInfo(data: HdfSBuf, info: EventInfo) returns (ret: int)
    requires |data.items| <= data.capacity
    modifies data`items
    ensures Wrote(old(data.items), data.items, data.capacity, EncodeInfo(info), ret == HDF_SUCCESS)
    ensures ret in {HDF_SUCCESS, HDF_ERR_INVALID_PARAM}
  {
    hide EncodeArray;
    ghost var e1, e2 := EncodeArray(info.appData), EncodeArray(info.eventData);
    ret := WriteArray(data, info.appData);
    if ret != HDF_SUCCESS {
      return;
    }
    var ok := data.Write(U32(info.data1));
    if !ok {
      return HDF_ERR_INVALID_PARAM;
    }
    ok := data.Write(U32(info.data2));
    if !ok {
      return HDF_ERR_INVALID_PARAM;
    }
    assert data.items == old(data.items) + (e1 + [U32(info.data1), U32(info.data2)]);
    ghost var mid := data.items;
    ret := WriteArray(data, info.eventData);
    WroteThen(old(data.items), mid, data.items, data.capacity, e1 + [U32(info.data1), U32(info.data2)], e2, ret == HDF_SUCCESS);
  }

  method CodecBufferMarshalling(data: HdfSBuf, h: Head) returns (ok: bool)
    requires h.Valid() && |data.items| <= data.capacity
    modifies data`items
    ensures Wrote(old(data.items), data.items, data.capacity,
                  [I32(h.bufferType), U32(h.bufferLen)] + EncodePayload(h.payload), ok)
  {
    hide U8s;
    ok := data.Write(I32(h.bufferType));
    if !ok { return; }
    ok := data.Write(U32(h.bufferLen));
    if !ok { return; }
    ghost var mid := data.items;
    assert mid == old(data.items) + [I32(h.bufferType), U32(h.bufferLen)];
    if h.bufferLen <= 0 {
      return;
    }
    if h.bufferType == BUFFER_TYPE_AVSHARE_MEM_FD {
      ok := data.Write(Fd(h.payload.fd));
    } else {
      ok := WriteUint8s(data, h.payload.bytes);
    }
    WroteThen(old(data.items), mid, data.items, data.capacity, [I32(h.bufferType), U32(h.bufferLen)],
              EncodePayload(h.payload), ok);
  }

  method TailMarshalling(data: HdfSBuf, t: Tail) returns (ok: bool)
    requires |data.items| <= data.capacity
    modifies data`items
    ensures Wrote(old(data.items), data.items, data.capacity, EncodeTail(t), ok)
  {
    ok := data.Write(U32(t.allocLen));
    if !ok { return; }
    ok := data.Write(U32(t.filledLen));
    if !ok { return; }
    ok := data.Write(U32(t.offset));
    if !ok { return; }
    ok := data.Write(I32(t.fenceFd));
    if !ok { return; }
    ok := data.Write(I32(t.shareType));
    if !ok { return; }
    ok := data.Write(I64(t.pts));
    if !ok { return; }
    ok := data.Write(U32(t.flag));
  }

  method OmxCodecBufferBlockMarshalling(data: HdfSBuf, b: OmxCodecBuffer) returns (ok: bool)
    requires b.head.Valid() && |data.items| <= data.capacity
    modifies data`items
    ensures Wrote(old(data.items), data.items, data.capacity, EncodeBuffer(b), ok)
  {
    hide EncodePayload;
    hide EncodeTail;
    ghost var e1 := [U32(b.head.bufferId), U32(b.head.size), Raw(b.head.version)];
    ghost var e2 := [I32(b.head.bufferType), U32(b.head.bufferLen)] + EncodePayload(b.head.payload);
    assert EncodeHead(b.head) == e1 + e2;
    ok := data.Write(U32(b.head.bufferId));
    if !ok { return; }
    ok := data.Write(U32(b.head.size));
    if !ok { return; }
    ok := data.Write(Raw(b.head.version));
    if !ok { return; }
    assert data.items == old(data.items) + e1;
    ghost var mid := data.items;
    ok := CodecBufferMarshalling(data, b.head);
    WroteThen(old(data.items), mid, data.items, data.capacity, e1, e2, ok);
    if !ok { return; }
    mid := data.items;
    ok := TailMarshalling(data, b.tail);
    WroteThen(old(data.items), mid, data.items, data.capacity, e1 + e2, EncodeTail(b.tail), ok);
  }

  /** Append the body of a call after the interface token. */
  method WriteBody(data: HdfSBuf, call: Call) returns (ret: int)
    requires call.Valid() && |data.items| <= data.capacity
    modifies data`items
    ensures Wrote(old(data.items), data.items, data.capacity, Body(call), ret == HDF_SUCCESS)
    ensures ret in {HDF_SUCCESS, HDF_ERR_INVALID_PARAM}
  {
    hide EncodeInfo;
    hide EncodeArray;
    hide EncodeBuffer;
    match call
    case EventHandler(event, info) =>
      var ok := data.Write(U32(event));
      if !ok {
        return HDF_ERR_INVALID_PARAM;
      }
      ghost var mid := data.items;
      ret := WriteEventInfo(data, info);
      WroteThen(old(data.items), mid, data.items, data.capacity, [U32(event)], EncodeInfo(info), ret == HDF_SUCCESS);
    case _ =>
      ret := WriteArray(data, call.appData);
      if ret != HDF_SUCCESS {
        return;
      }
      ghost var mid := data.items;
      var ok := OmxCodecBufferBlockMarshalling(data, call.buffer);
      ret := if ok then HDF_SUCCESS else HDF_ERR_INVALID_PARAM;
      WroteThen(old(data.items), mid, data.items, data.capacity, EncodeArray(call.appData), EncodeBuffer(call.buffer), ok);
  }

  function Body(call: Call): seq<Item> {
    match call
    case EventHandler(event, info) => [U32(event)] + EncodeInfo(info)
    case _ => EncodeBufferDone(call.appData, call.buffer)
  }

  /** The two message buffers with the call's message in the first; neither is left outstanding when it
      cannot be written. */
  method BuildMessage(pool: SbufPool, call: Call, granted1: bool, granted2: bool, capacity: nat)
    returns (ret: int, data: HdfSBuf?, reply: HdfSBuf?)
    requires call.Valid()
    modifies pool
    ensures ret == HDF_SUCCESS <==> granted1 && granted2 && |Message(call)| <= capacity
    ensures ret == HDF_SUCCESS ==>
      && data != null && reply != null && data != reply && fresh(data) && fresh(reply)
      && data.items == Message(call) && pool.outstanding == old(pool.outstanding) + {data, reply}
    ensures ret != HDF_SUCCESS ==>
      && pool.outstanding == old(pool.outstanding)
      && ret == if !granted1 || !granted2 then HDF_ERR_MALLOC_FAIL else if capacity == 0 then HDF_FAILURE else HDF_ERR_INVALID_PARAM
  {
    hide EncodeInfo;
    hide EncodeBufferDone;
    assert Message(call) == [Token(INTERFACE_DESCRIPTOR)] + Body(call);
    data := pool.Obtain(granted1, capacity);
    reply := pool.Obtain(granted2, capacity);
    if data == null || reply == null {
      pool.ReleaseSbuf(data, reply);
      return HDF_ERR_MALLOC_FAIL, data, reply;
    }
    var ok := data.Write(Token(INTERFACE_DESCRIPTOR));
    if !ok {
      pool.ReleaseSbuf(data, reply);
      return HDF_FAILURE, data, reply;
    }
    ret := WriteBody(data, call);
    if ret != HDF_SUCCESS {
      pool.ReleaseSbuf(data, reply);
      return HDF_ERR_INVALID_PARAM, data, reply;
    }
    assert data.items == Message(call);
  }
}
