/** The message buffer both ends share: a sequence of typed items, appended by writes and consumed by
    reads through a cursor.  A read of the wrong type, or past the end, fails. */
module Sbuf {
  import opened Hdf

  datatype Item =
    | U32(u32: UInt32)
    | I32(i32: Int32)
    | I64(i64: Int64)
    | U8(u8: UInt8)
    | I8(i8: Int8)
    | Fd(fd: nat)
    | Raw(raw: seq<UInt8>)
    | Token(descriptor: string)

  /** The outcome of parsing a value off the front of a message. */
  datatype Parse<+T> = Failed | Parsed(value: T, rest: seq<Item>)
  {
    predicate IsFailure() { Failed? }
    function PropagateFailure<U>(): Parse<U> requires Failed? { Failed }
    function Extract(): (T, seq<Item>) requires Parsed? { (value, rest) }
  }

  function ReadU32(m: seq<Item>): Parse<UInt32> {
    if m != [] && m[0].U32? then Parsed(m[0].u32, m[1..]) else Failed
  }
  function ReadI32(m: seq<Item>): Parse<Int32> {
    if m != [] && m[0].I32? then Parsed(m[0].i32, m[1..]) else Failed
  }
  function ReadI64(m: seq<Item>): Parse<Int64> {
    if m != [] && m[0].I64? then Parsed(m[0].i64, m[1..]) else Failed
  }
  function ReadI8(m: seq<Item>): Parse<Int8> {
    if m != [] && m[0].I8? then Parsed(m[0].i8, m[1..]) else Failed
  }
  function ReadFd(m: seq<Item>): Parse<nat> {
    if m != [] && m[0].Fd? then Parsed(m[0].fd, m[1..]) else Failed
  }
  function ReadRaw(size: nat, m: seq<Item>): Parse<seq<UInt8>> {
    if m != [] && m[0].Raw? && |m[0].raw| == size then Parsed(m[0].raw, m[1..]) else Failed
  }
  function ReadToken(descriptor: string, m: seq<Item>): Parse<()> {
    if m != [] && m[0] == Token(descriptor) then Parsed((), m[1..]) else Failed
  }
  function ReadI8s(n: nat, m: seq<Item>): Parse<seq<Int8>> {
    if n <= |m| && forall i :: 0 <= i < n ==> m[i].I8? then
      Parsed(seq(n, i requires 0 <= i < n && m[i].I8? => m[i].i8), m[n..])
    else Failed
  }
  function ReadU8s(n: nat, m: seq<Item>): Parse<seq<UInt8>> {
    if n <= |m| && forall i :: 0 <= i < n ==> m[i].U8? then
      Parsed(seq(n, i requires 0 <= i < n && m[i].U8? => m[i].u8), m[n..])
    else Failed
  }
  function ReadI32s(n: nat, m: seq<Item>): Parse<seq<Int32>> {
    if n <= |m| && forall i :: 0 <= i < n ==> m[i].I32? then
      Parsed(seq(n, i requires 0 <= i < n && m[i].I32? => m[i].i32), m[n..])
    else Failed
  }

  function I8s(a: seq<Int8>): (m: seq<Item>)
    ensures |m| == |a|
  {
    seq(|a|, i requires 0 <= i < |a| => I8(a[i]))
  }
  function U8s(a: seq<UInt8>): (m: seq<Item>)
    ensures |m| == |a|
  {
    seq(|a|, i requires 0 <= i < |a| => U8(a[i]))
  }
  function I32s(a: seq<Int32>): (m: seq<Item>)
    ensures |m| == |a|
  {
    seq(|a|, i requires 0 <= i < |a| => I32(a[i]))
  }

  /** Reading one item at a time walks down the message. */
  lemma Slices(m: seq<Item>)
    ensures |m| >= 2 ==> m[1..][1..] == m[2..]
    ensures |m| >= 3 ==> m[2..][1..] == m[3..]
    ensures |m| >= 4 ==> m[3..][1..] == m[4..]
    ensures |m| >= 5 ==> m[4..][1..] == m[5..]
    ensures |m| >= 6 ==> m[5..][1..] == m[6..]
    ensures |m| >= 7 ==> m[6..][1..] == m[7..]
  {
  }

  /** Runs of bytes and words parse back, and only from exactly such runs. */
  lemma ReadI8sIff(n: nat, m: seq<Item>, a: seq<Int8>, rest: seq<Item>)
    ensures ReadI8s(n, m) == Parsed(a, rest) <==> n == |a| && m == I8s(a) + rest
  {
    if ReadI8s(n, m) == Parsed(a, rest) { assert m == m[..n] + m[n..] && m[..n] == I8s(a); }
    if n == |a| && m == I8s(a) + rest {
      assert m[n..] == rest && forall i :: 0 <= i < n ==> m[i] == I8(a[i]);
      assert ReadI8s(n, m).value == a;
    }
  }
  lemma ReadU8sIff(n: nat, m: seq<Item>, a: seq<UInt8>, rest: seq<Item>)
    ensures ReadU8s(n, m) == Parsed(a, rest) <==> n == |a| && m == U8s(a) + rest
  {
    if ReadU8s(n, m) == Parsed(a, rest) { assert m == m[..n] + m[n..] && m[..n] == U8s(a); }
    if n == |a| && m == U8s(a) + rest {
      assert m[n..] == rest && forall i :: 0 <= i < n ==> m[i] == U8(a[i]);
      assert ReadU8s(n, m).value == a;
    }
  }
  lemma ReadI32sIff(n: nat, m: seq<Item>, a: seq<Int32>, rest: seq<Item>)
    ensures ReadI32s(n, m) == Parsed(a, rest) <==> n == |a| && m == I32s(a) + rest
  {
    if ReadI32s(n, m) == Parsed(a, rest) { assert m == m[..n] + m[n..] && m[..n] == I32s(a); }
    if n == |a| && m == I32s(a) + rest {
      assert m[n..] == rest && forall i :: 0 <= i < n ==> m[i] == I32(a[i]);
      assert ReadI32s(n, m).value == a;
    }
  }

  class HdfSBuf {
    var items: seq<Item>
    var pos: nat
    const capacity: nat

    ghost predicate Valid() reads this { pos <= |items| }

    /** What is left to read. */
    ghost function Rest(): seq<Item>
      requires Valid()
      reads this
    {
      items[pos..]
    }

    constructor (capacity: nat)
      ensures Valid() && items == [] && this.capacity == capacity
    {
      items, pos := [], 0;
      this.capacity := capacity;
    }

    /** A buffer as it arrives from the other side. */
    constructor Received(message: seq<Item>)
      ensures Valid() && Rest() == message
    {
      items, pos, capacity := message, 0, 0;
    }

    /** Append one item; refused when the buffer is full. */
    method Write(item: Item) returns (ok: bool)
      modifies this`items
      ensures ok <==> |old(items)| < capacity
      ensures items == if ok then old(items) + [item] else old(items)
    {
      ok := |items| < capacity;
      if ok { items := items + [item]; }
    }

    method ReadUint32() returns (ok: bool, v: UInt32)
      requires Valid()
      modifies this`pos
      ensures Valid() && ok == ReadU32(old(Rest())).Parsed?
      ensures if ok then Parsed(v, Rest()) == ReadU32(old(Rest())) else Rest() == old(Rest())
    {
      ok, v := pos < |items| && items[pos].U32?, 0;
      if ok { v := items[pos].u32; pos := pos + 1; }
    }

    method ReadInt32() returns (ok: bool, v: Int32)
      requires Valid()
      modifies this`pos
      ensures Valid() && ok == ReadI32(old(Rest())).Parsed?
      ensures if ok then Parsed(v, Rest()) == ReadI32(old(Rest())) else Rest() == old(Rest())
    {
      ok, v := pos < |items| && items[pos].I32?, 0;
      if ok { v := items[pos].i32; pos := pos + 1; }
    }

    method ReadInt64() returns (ok: bool, v: Int64)
      requires Valid()
      modifies this`pos
      ensures Valid() && ok == ReadI64(old(Rest())).Parsed?
      ensures if ok then Parsed(v, Rest()) == ReadI64(old(Rest())) else Rest() == old(Rest())
    {
      ok, v := pos < |items| && items[pos].I64?, 0;
      if ok { v := items[pos].i64; pos := pos + 1; }
    }

    method ReadInt8() returns (ok: bool, v: Int8)
      requires Valid()
      modifies this`pos
      ensures Valid() && ok == ReadI8(old(Rest())).Parsed?
      ensures if ok then Parsed(v, Rest()) == ReadI8(old(Rest())) else Rest() == old(Rest())
    {
      ok, v := pos < |items| && items[pos].I8?, 0;
      if ok { v := items[pos].i8; pos := pos + 1; }
    }

    method ReadUint8() returns (ok: bool, v: UInt8)
      requires Valid()
      modifies this`pos
      ensures Valid() && ok == (old(Rest()) != [] && old(Rest())[0].U8?)
      ensures if ok then v == old(Rest())[0].u8 && Rest() == old(Rest())[1..] else Rest() == old(Rest())
    {
      ok, v := pos < |items| && items[pos].U8?, 0;
      if ok { v := items[pos].u8; pos := pos + 1; }
    }

    method ReadFileDescriptor() returns (ok: bool, v: nat)
      requires Valid()
      modifies this`pos
      ensures Valid() && ok == ReadFd(old(Rest())).Parsed?
      ensures if ok then Parsed(v, Rest()) == ReadFd(old(Rest())) else Rest() == old(Rest())
    {
      ok, v := pos < |items| && items[pos].Fd?, 0;
      if ok { v := items[pos].fd; pos := pos + 1; }
    }

    method ReadUnpadBuffer(size: nat) returns (ok: bool, v: seq<UInt8>)
      requires Valid()
      modifies this`pos
      ensures Valid() && ok == ReadRaw(size, old(Rest())).Parsed?
      ensures if ok then Parsed(v, Rest()) == ReadRaw(size, old(Rest())) else Rest() == old(Rest())
    {
      ok, v := pos < |items| && items[pos].Raw? && |items[pos].raw| == size, [];
      if ok { v := items[pos].raw; pos := pos + 1; }
    }

    method CheckInterfaceToken(descriptor: string) returns (ok: bool)
      requires Valid()
      modifies this`pos
      ensures Valid() && ok == ReadToken(descriptor, old(Rest())).Parsed?
      ensures if ok then Rest() == ReadToken(descriptor, old(Rest())).rest else Rest() == old(Rest())
    {
      ok := pos < |items| && items[pos] == Token(descriptor);
      if ok { pos := pos + 1; }
    }
  }

  /** A write of `enc` succeeds exactly when it fits, and then appends all of it. */
  ghost predicate Wrote(before: seq<Item>, after: seq<Item>, capacity: nat, enc: seq<Item>, ok: bool) {
    && (ok <==> |before| + |enc| <= capacity)
    && (ok ==> after == before + enc)
    && |after| <= capacity
  }

  lemma WroteThen(a: seq<Item>, b: seq<Item>, c: seq<Item>, capacity: nat, e1: seq<Item>, e2: seq<Item>, ok: bool)
    requires Wrote(a, b, capacity, e1, true) && Wrote(b, c, capacity, e2, ok)
    ensures Wrote(a, c, capacity, e1 + e2, ok)
  {
    if ok { assert a + e1 + e2 == a + (e1 + e2); }
  }

  method WriteUint8s(data: HdfSBuf, bytes: seq<UInt8>) returns (ok: bool)
    requires |data.items| <= data.capacity
    modifies data`items
    ensures Wrote(old(data.items), data.items, data.capacity, U8s(bytes), ok)
  {
    for i := 0 to |bytes|
      invariant |data.items| <= data.capacity
      invariant data.items == old(data.items) + U8s(bytes)[..i]
    {
      ok := data.Write(U8(bytes[i]));
      if !ok { return; }
      assert U8s(bytes)[..i + 1] == U8s(bytes)[..i] + [U8(bytes[i])];
    }
    assert U8s(bytes)[..|bytes|] == U8s(bytes);
    ok := true;
  }

  method WriteInt32s(data: HdfSBuf, words: seq<Int32>) returns (ok: bool)
    requires |data.items| <= data.capacity
    modifies data`items
    ensures Wrote(old(data.items), data.items, data.capacity, I32s(words), ok)
  {
    for i := 0 to |words|
      invariant |data.items| <= data.capacity
      invariant data.items == old(data.items) + I32s(words)[..i]
    {
      ok := data.Write(I32(words[i]));
      if !ok { return; }
      assert I32s(words)[..i + 1] == I32s(words)[..i] + [I32(words[i])];
    }
    assert I32s(words)[..|words|] == I32s(words);
    ok := true;
  }
}
