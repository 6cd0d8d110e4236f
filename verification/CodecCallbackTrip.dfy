/** A callback from the caller of the proxy to the handler behind the stub and back. */
module CodecCallbackTrip {
  import opened Hdf
  import opened Sbuf
  import opened CodecMessages
  import opened CodecCallbackStub
  import opened CodecCallbackProxy

  /** The way from the proxy to the stub: none because the remote or its dispatcher is null, one on which
      the dispatcher fails by itself with some code, or one that works. */
  datatype Link = NoRemote | Broken(code: int) | Up

  /** Both message buffers are obtained and the message fits. */
  predicate IsBuilt(call: Call, buffers: bool, capacity: nat) { buffers && |Message(call)| <= capacity }

  /** What it takes for a call to get through: a message, a working link, and every block the stub asks for. */
  predicate GetsThrough(call: Call, buffers: bool, capacity: nat, link: Link, granted1: bool, granted2: bool) {
    IsBuilt(call, buffers, capacity) && link.Up? && CallGranted(call, granted1, granted2)
  }

  predicate CarriesInline(call: Call) { !call.EventHandler? && call.buffer.head.payload.Inline? }

  /** The dispatcher: a request arrives at the stub as a copy of the message, and the stub's answer goes
      back. */
  method ProxyCall(link: Link, stub: Stub, code: int, data: HdfSBuf, granted1: bool, granted2: bool, answer: int)
    returns (ret: int, ghost kept: array?<UInt8>)
    modifies stub.mem, stub.service
    ensures link.NoRemote? ==> ret == HDF_ERR_INVALID_OBJECT
    ensures link.Broken? ==> ret == link.code
    ensures !link.Up? ==> kept == null && stub.service.calls == old(stub.service.calls)
    ensures link.Up? ==>
      var p := ReadRequest(code, old(data.items));
      if p.Parsed? && CallGranted(p.value, granted1, granted2)
      then stub.service.calls == old(stub.service.calls) + [p.value] && ret == answer
      else stub.service.calls == old(stub.service.calls) && ret == Refusal(code, old(data.items), granted1)
    ensures stub.mem.live == if kept != null then old(stub.mem.live) + {kept} else old(stub.mem.live)
    ensures link.Up? ==> (kept != null <==> RequestRetains(code, old(data.items), granted1, granted2))
    ensures kept != null ==> fresh(kept) && kept[..] == RetainedBytes(old(data.items)[1..])
  {
    hide ReadRequest;
    hide RequestRetains;
    hide RetainedBytes;
    kept := null;
    if link.NoRemote? {
      return HDF_ERR_INVALID_OBJECT, null;
    }
    if link.Broken? {
      return link.code, null;
    }
    var request := new HdfSBuf.Received(data.items);
    ret, kept := stub.OnRemoteRequest(code, request, granted1, granted2, answer);
  }

  /** The three proxy calls, which differ only in the body they write and the code they send.  If the
      call gets through, the handler is called once, with exactly this call, and its answer comes back;
      otherwise it is not called and an error comes back, or whatever the dispatcher failed with.  No
      message buffer stays outstanding on any path, and a block stays allocated if and only if the call
      gets through with inline contents, which the block then holds. */
  method ProxySend(pool: SbufPool, link: Link, stub: Stub, call: Call, obtained1: bool, obtained2: bool, capacity: nat,
                   granted1: bool, granted2: bool, answer: int)
    returns (ret: int, ghost kept: array?<UInt8>)
    requires call.Valid()
    modifies pool, stub.mem, stub.service
    ensures pool.outstanding == old(pool.outstanding)
    ensures if GetsThrough(call, obtained1 && obtained2, capacity, link, granted1, granted2)
            then stub.service.calls == old(stub.service.calls) + [call] && ret == answer
            else stub.service.calls == old(stub.service.calls)
    ensures IsBuilt(call, obtained1 && obtained2, capacity) ==>
      && (link.NoRemote? ==> ret == HDF_ERR_INVALID_OBJECT)
      && (link.Broken? ==> ret == link.code)
      && (link.Up? && !CallGranted(call, granted1, granted2) ==>
            ret == if !call.EventHandler? && |call.appData| > 0 && !granted1 then HDF_ERR_MALLOC_FAIL else HDF_ERR_INVALID_PARAM)
    ensures !IsBuilt(call, obtained1 && obtained2, capacity) ==>
      ret == if !obtained1 || !obtained2 then HDF_ERR_MALLOC_FAIL else if capacity == 0 then HDF_FAILURE else HDF_ERR_INVALID_PARAM
    ensures stub.mem.live == if kept != null then old(stub.mem.live) + {kept} else old(stub.mem.live)
    ensures kept != null <==>
            CarriesInline(call) && GetsThrough(call, obtained1 && obtained2, capacity, link, granted1, granted2)
    ensures kept != null ==> fresh(kept) && kept[..] == call.buffer.head.payload.bytes
  {
    hide Message;
    hide ReadRequest;
    hide RequestRetains;
    hide RetainedBytes;
    hide Refusal;
    MessageRefusal(call, granted1);
    kept := null;
    var data, reply;
    ret, data, reply := BuildMessage(pool, call, obtained1, obtained2, capacity);
    if ret != HDF_SUCCESS {
      return;
    }
    StubDecodesProxy(call, call);
    MessageRetains(call, granted1, granted2);
    ret, kept := ProxyCall(link, stub, call.Code(), data, granted1, granted2, answer);
    pool.ReleaseSbuf(data, reply);
  }

  /** How the stub refuses a call it cannot hold. */
  lemma MessageRefusal(call: Call, granted1: bool)
    ensures Refusal(call.Code(), Message(call), granted1) ==
            if !call.EventHandler? && |call.appData| > 0 && !granted1 then HDF_ERR_MALLOC_FAIL else HDF_ERR_INVALID_PARAM
  {
    hide EncodeBuffer;
    hide EncodeInfo;
    if !call.EventHandler? {
      var body := Message(call)[1..];
      assert body == EncodeArray(call.appData) + EncodeBuffer(call.buffer);
      assert body[0] == U32(|call.appData|);
    }
  }

  /** Which calls leave a block behind, and with what in it. */
  lemma MessageRetains(call: Call, granted1: bool, granted2: bool)
    requires call.Valid()
    ensures RequestRetains(call.Code(), Message(call), granted1, granted2) <==>
            CarriesInline(call) && CallGranted(call, granted1, granted2)
    ensures RequestRetains(call.Code(), Message(call), granted1, granted2) ==>
            RetainedBytes(Message(call)[1..]) == call.buffer.head.payload.bytes
  {
    hide ReadHead;
    hide CodecMessages.ReadArray;
    hide EncodeArray;
    hide EncodeHead;
    hide EncodeTail;
    hide EncodeInfo;
    if !call.EventHandler? {
      var body, buffer := Message(call)[1..], EncodeBuffer(call.buffer);
      assert body == EncodeArray(call.appData) + buffer;
      ReadArrayIff(body, call.appData, buffer);
      ReadHeadIff(buffer, call.buffer.head, EncodeTail(call.buffer.tail));
    }
  }
}
