/** Capability records and the catalogue reply: encoding, parsing, and what a client can read back. */
module CapabilityModel {
  import opened Hdf
  import opened Sbuf

  const NAME_LENGTH := 32
  const PROFILE_NUM := 256
  /** Size of the port capability union: its audio branch has 32 + 16 + 16 + 16 words. */
  const PORT_SIZE := 320

  datatype Capability = Capability(
    role: Int32, kind: Int32, compName: seq<UInt8>, supportProfiles: seq<Int32>, maxInst: Int32,
    isSoftwareCodec: bool, processModeMask: Int32, capsMask: UInt32, minBitRate: Int32, maxBitRate: Int32,
    port: seq<UInt8>)
  {
    predicate Valid() { |compName| == NAME_LENGTH && |supportProfiles| == PROFILE_NUM && |port| == PORT_SIZE }
  }

  /** The fields behind the two arrays. */
  function EncodeScalars(c: Capability): seq<Item> {
    [I32(c.maxInst), I8(if c.isSoftwareCodec then 1 else 0), I32(c.processModeMask), U32(c.capsMask),
     I32(c.minBitRate), I32(c.maxBitRate), Raw(c.port)]
  }

  function EncodeCap(c: Capability): seq<Item> {
    [I32(c.role), I32(c.kind)] + U8s(c.compName) + I32s(c.supportProfiles) + EncodeScalars(c)
  }

  datatype Scalars = Scalars(
    maxInst: Int32, software: bool, processModeMask: Int32, capsMask: UInt32, minBitRate: Int32, maxBitRate: Int32,
    port: seq<UInt8>)

  /** The bit rates and the port. */
  function ReadRange(m: seq<Item>): Parse<(Int32, Int32, seq<UInt8>)> {
    var (minBitRate, r1) :- ReadI32(m);
    var (maxBitRate, r2) :- ReadI32(r1);
    var (port, r3) :- ReadRaw(PORT_SIZE, r2);
    Parsed((minBitRate, maxBitRate, port), r3)
  }

  function ReadScalars(m: seq<Item>): Parse<Scalars> {
    var (maxInst, r1) :- ReadI32(m);
    var (software, r2) :- ReadI8(r1);
    var (processModeMask, r3) :- ReadI32(r2);
    var (capsMask, r4) :- ReadU32(r3);
    var (range, r5) :- ReadRange(r4);
    Parsed(Scalars(maxInst, software != 0, processModeMask, capsMask, range.0, range.1, range.2), r5)
  }

  function ReadCap(m: seq<Item>): Parse<Capability> {
    var (role, r1) :- ReadI32(m);
    var (kind, r2) :- ReadI32(r1);
    var (compName, r3) :- ReadU8s(NAME_LENGTH, r2);
    var (profiles, r4) :- ReadI32s(PROFILE_NUM, r3);
    var (s, r5) :- ReadScalars(r4);
    Parsed(Capability(role, kind, compName, profiles, s.maxInst, s.software, s.processModeMask, s.capsMask,
                      s.minBitRate, s.maxBitRate, s.port), r5)
  }

  lemma ReadScalarsEncoded(c: Capability, rest: seq<Item>)
    requires c.Valid()
    ensures ReadScalars(EncodeScalars(c) + rest) ==
            Parsed(Scalars(c.maxInst, c.isSoftwareCodec, c.processModeMask, c.capsMask, c.minBitRate, c.maxBitRate, c.port), rest)
  {
    var m := EncodeScalars(c) + rest;
    Slices(m);
    assert m[7..] == rest;
  }

  /** A capability survives the trip. */
  lemma ReadCapEncoded(c: Capability, rest: seq<Item>)
    requires c.Valid()
    ensures ReadCap(EncodeCap(c) + rest) == Parsed(c, rest)
  {
    hide U8s;
    hide I32s;
    hide ReadU8s;
    hide ReadI32s;
    hide EncodeScalars;
    hide ReadScalars;
    var r4 := EncodeScalars(c) + rest;
    var r3 := I32s(c.supportProfiles) + r4;
    var r2 := U8s(c.compName) + r3;
    var r1 := [I32(c.kind)] + r2;
    assert EncodeCap(c) + rest == [I32(c.role)] + r1;
    assert ([I32(c.role)] + r1)[1..] == r1 && r1[1..] == r2;
    ReadU8sIff(NAME_LENGTH, r2, c.compName, r3);
    ReadI32sIff(PROFILE_NUM, r3, c.supportProfiles, r4);
    ReadScalarsEncoded(c, rest);
  }

  /** A record item by item: 2 leading words, 32 bytes of name, 256 profiles, 7 further fields. */
  lemma CapLayout(c: Capability)
    requires c.Valid()
    ensures var m := EncodeCap(c);
      && |m| == 297 && m[0] == I32(c.role) && m[1] == I32(c.kind)
      && (forall i :: 0 <= i < 32 ==> m[2 + i] == U8(c.compName[i]))
      && (forall j :: 0 <= j < 256 ==> m[34 + j] == I32(c.supportProfiles[j]))
      && m[290] == I32(c.maxInst) && m[291] == I8(if c.isSoftwareCodec then 1 else 0) && m[292] == I32(c.processModeMask)
      && m[293] == U32(c.capsMask) && m[294] == I32(c.minBitRate) && m[295] == I32(c.maxBitRate) && m[296] == Raw(c.port)
  {
    var m, e1, e2, e3 := EncodeCap(c), U8s(c.compName), I32s(c.supportProfiles), EncodeScalars(c);
    assert m == [I32(c.role), I32(c.kind)] + e1 + e2 + e3;
    assert forall i :: 0 <= i < |e3| ==> m[290 + i] == e3[i];
  }

  // ---------- reads that stop half-way ----------

  /** The bytes, at most `n`, that can be read off the front. */
  function LeadingU8s(n: nat, m: seq<Item>): seq<UInt8> {
    if n == 0 || m == [] || !m[0].U8? then [] else [m[0].u8] + LeadingU8s(n - 1, m[1..])
  }

  /** The words, at most `n`, that can be read off the front. */
  function LeadingI32s(n: nat, m: seq<Item>): seq<Int32> {
    if n == 0 || m == [] || !m[0].I32? then [] else [m[0].i32] + LeadingI32s(n - 1, m[1..])
  }

  /** An array of `n` elements after its first ones have been overwritten. */
  function Overlay<T>(first: seq<T>, was: seq<T>, n: nat): seq<T> {
    first + if |first| < n && |first| <= |was| then was[|first|..] else []
  }

  /** A record after as many of its last fields as can be read have been overwritten. */
  function OverwriteScalars(c: Capability, m: seq<Item>): Capability {
    if ReadI32(m).Failed? then c else
      var c1, m1 := c.(maxInst := ReadI32(m).value), ReadI32(m).rest;
      if ReadI8(m1).Failed? then c1 else
        var c2, m2 := c1.(isSoftwareCodec := ReadI8(m1).value != 0), ReadI8(m1).rest;
        if ReadI32(m2).Failed? then c2 else
          var c3, m3 := c2.(processModeMask := ReadI32(m2).value), ReadI32(m2).rest;
          if ReadU32(m3).Failed? then c3 else
            OverwriteRange(c3.(capsMask := ReadU32(m3).value), ReadU32(m3).rest)
  }

  function OverwriteRange(c: Capability, m: seq<Item>): Capability {
    if ReadI32(m).Failed? then c else
      var c1, m1 := c.(minBitRate := ReadI32(m).value), ReadI32(m).rest;
      if ReadI32(m1).Failed? then c1 else
        var c2, m2 := c1.(maxBitRate := ReadI32(m1).value), ReadI32(m1).rest;
        if ReadRaw(PORT_SIZE, m2).Failed? then c2 else c2.(port := ReadRaw(PORT_SIZE, m2).value)
  }

  /** A record after as many of its fields as can be read have been overwritten, array elements one by one. */
  function Overwrite(c: Capability, m: seq<Item>): Capability {
    if ReadI32(m).Failed? then c else
      var c1, m1 := c.(role := ReadI32(m).value), ReadI32(m).rest;
      if ReadI32(m1).Failed? then c1 else
        OverwriteArrays(c1.(kind := ReadI32(m1).value), ReadI32(m1).rest)
  }

  function OverwriteArrays(c: Capability, m: seq<Item>): Capability {
    var c1 := c.(compName := Overlay(LeadingU8s(NAME_LENGTH, m), c.compName, NAME_LENGTH));
    if ReadU8s(NAME_LENGTH, m).Failed? then c1 else
      var m1 := ReadU8s(NAME_LENGTH, m).rest;
      var c2 := c1.(supportProfiles := Overlay(LeadingI32s(PROFILE_NUM, m1), c1.supportProfiles, PROFILE_NUM));
      if ReadI32s(PROFILE_NUM, m1).Failed? then c2 else OverwriteScalars(c2, ReadI32s(PROFILE_NUM, m1).rest)
  }

  lemma {:induction false} LeadingU8sIs(n: nat, m: seq<Item>, a: seq<UInt8>)
    requires |a| <= n && |a| <= |m| && forall k :: 0 <= k < |a| ==> m[k].U8? && a[k] == m[k].u8
    requires |a| == n || |a| == |m| || !m[|a|].U8?
    ensures LeadingU8s(n, m) == a
  {
    if a == [] {
    } else {
      LeadingU8sIs(n - 1, m[1..], a[1..]);
      assert a == [a[0]] + a[1..];
    }
  }

  lemma {:induction false} LeadingI32sIs(n: nat, m: seq<Item>, a: seq<Int32>)
    requires |a| <= n && |a| <= |m| && forall k :: 0 <= k < |a| ==> m[k].I32? && a[k] == m[k].i32
    requires |a| == n || |a| == |m| || !m[|a|].I32?
    ensures LeadingI32s(n, m) == a
  {
    if a == [] {
    } else {
      LeadingI32sIs(n - 1, m[1..], a[1..]);
      assert a == [a[0]] + a[1..];
    }
  }

  lemma OverlayAll<T>(first: seq<T>, was: seq<T>)
    ensures Overlay(first, was, |first|) == first
  {
  }

  lemma LeadingAll(m: seq<Item>)
    ensures ReadU8s(NAME_LENGTH, m).Parsed? ==> LeadingU8s(NAME_LENGTH, m) == ReadU8s(NAME_LENGTH, m).value
    ensures ReadI32s(PROFILE_NUM, m).Parsed? ==> LeadingI32s(PROFILE_NUM, m) == ReadI32s(PROFILE_NUM, m).value
  {
    if ReadU8s(NAME_LENGTH, m).Parsed? { LeadingU8sIs(NAME_LENGTH, m, ReadU8s(NAME_LENGTH, m).value); }
    if ReadI32s(PROFILE_NUM, m).Parsed? { LeadingI32sIs(PROFILE_NUM, m, ReadI32s(PROFILE_NUM, m).value); }
  }

  lemma OverwriteScalarsAll(c: Capability, m: seq<Item>)
    requires ReadScalars(m).Parsed?
    ensures var s := ReadScalars(m).value;
      OverwriteScalars(c, m) == Capability(c.role, c.kind, c.compName, c.supportProfiles, s.maxInst, s.software,
        s.processModeMask, s.capsMask, s.minBitRate, s.maxBitRate, s.port)
  {
  }

  /** When everything can be read, nothing of the old record is left. */
  lemma OverwriteAll(c: Capability, m: seq<Item>)
    requires ReadCap(m).Parsed?
    ensures Overwrite(c, m) == ReadCap(m).value
  {
    hide OverwriteScalars;
    hide ReadScalars;
    hide ReadU8s;
    hide ReadI32s;
    hide Overlay;
    var m2 := ReadI32(ReadI32(m).rest).rest;
    var m3 := ReadU8s(NAME_LENGTH, m2).rest;
    var m4 := ReadI32s(PROFILE_NUM, m3).rest;
    ReadU8sIff(NAME_LENGTH, m2, ReadU8s(NAME_LENGTH, m2).value, m3);
    ReadI32sIff(PROFILE_NUM, m3, ReadI32s(PROFILE_NUM, m3).value, m4);
    LeadingAll(m2);
    LeadingAll(m3);
    OverlayAll(ReadU8s(NAME_LENGTH, m2).value, c.compName);
    OverlayAll(ReadI32s(PROFILE_NUM, m3).value, c.supportProfiles);
    OverwriteScalarsAll(c.(role := ReadI32(m).value, kind := ReadI32(ReadI32(m).rest).value,
                           compName := ReadU8s(NAME_LENGTH, m2).value,
                           supportProfiles := ReadI32s(PROFILE_NUM, m3).value), m4);
  }

  /** What cutting a record's message after `k` items leaves: the first fields are new, the rest as before. */
  ghost predicate NewUpTo(was: Capability, c: Capability, d: Capability, k: nat) {
    && d.role == (if k > 0 then c.role else was.role) && d.kind == (if k > 1 then c.kind else was.kind)
    && |d.compName| == |was.compName| == |c.compName| && |d.supportProfiles| == |was.supportProfiles| == |c.supportProfiles|
    && (forall i :: 0 <= i < |d.compName| ==> d.compName[i] == if k > 2 + i then c.compName[i] else was.compName[i])
    && (forall j :: 0 <= j < |d.supportProfiles| ==>
          d.supportProfiles[j] == if k > 34 + j then c.supportProfiles[j] else was.supportProfiles[j])
    && d.maxInst == (if k > 290 then c.maxInst else was.maxInst)
    && d.isSoftwareCodec == (if k > 291 then c.isSoftwareCodec else was.isSoftwareCodec)
    && d.processModeMask == (if k > 292 then c.processModeMask else was.processModeMask)
    && d.capsMask == (if k > 293 then c.capsMask else was.capsMask)
    && d.minBitRate == (if k > 294 then c.minBitRate else was.minBitRate)
    && d.maxBitRate == (if k > 295 then c.maxBitRate else was.maxBitRate)
    && d.port == (if k > 296 then c.port else was.port)
  }

  lemma CutScalars(was: Capability, c: Capability, m: seq<Item>)
    requires c.Valid() && |m| <= 7 && m == EncodeScalars(c)[..|m|]
    ensures var d, k := OverwriteScalars(was, m), |m|;
      d == Capability(was.role, was.kind, was.compName, was.supportProfiles,
        if k > 0 then c.maxInst else was.maxInst, if k > 1 then c.isSoftwareCodec else was.isSoftwareCodec,
        if k > 2 then c.processModeMask else was.processModeMask, if k > 3 then c.capsMask else was.capsMask,
        if k > 4 then c.minBitRate else was.minBitRate, if k > 5 then c.maxBitRate else was.maxBitRate,
        if k > 6 then c.port else was.port)
  {
    var e := EncodeScalars(c);
    assert forall i :: 0 <= i < |m| ==> m[i] == e[i];
    hide OverwriteRange;
    if |m| < 4 {
      Slices(m);
    } else {
      var d := was.(maxInst := c.maxInst, isSoftwareCodec := c.isSoftwareCodec, processModeMask := c.processModeMask,
                    capsMask := c.capsMask);
      Slices(m);
      assert OverwriteScalars(was, m) == OverwriteRange(d, m[4..]);
      CutRange(d, c, m[4..]);
    }
  }

  lemma CutRange(was: Capability, c: Capability, m: seq<Item>)
    requires c.Valid() && |m| <= 3
    requires (|m| > 0 ==> m[0] == I32(c.minBitRate)) && (|m| > 1 ==> m[1] == I32(c.maxBitRate)) && (|m| > 2 ==> m[2] == Raw(c.port))
    ensures var k := |m|;
      OverwriteRange(was, m) == was.(
        minBitRate := if k > 0 then c.minBitRate else was.minBitRate,
        maxBitRate := if k > 1 then c.maxBitRate else was.maxBitRate,
        port := if k > 2 then c.port else was.port)
  {
  }

  lemma OverlayElements<T>(first: seq<T>, was: seq<T>)
    requires |first| < |was|
    ensures |Overlay(first, was, |was|)| == |was|
    ensures forall i :: 0 <= i < |was| ==> Overlay(first, was, |was|)[i] == if i < |first| then first[i] else was[i]
  {
  }

  lemma CutNames(m: seq<Item>, name: seq<UInt8>)
    requires |name| == NAME_LENGTH && |m| <= NAME_LENGTH && forall i :: 0 <= i < |m| ==> m[i] == U8(name[i])
    ensures LeadingU8s(NAME_LENGTH, m) == name[..|m|] && (ReadU8s(NAME_LENGTH, m).Parsed? <==> |m| == NAME_LENGTH)
  {
    LeadingU8sIs(NAME_LENGTH, m, name[..|m|]);
  }

  lemma CutProfiles(m: seq<Item>, profiles: seq<Int32>)
    requires |profiles| == PROFILE_NUM && |m| <= PROFILE_NUM && forall i :: 0 <= i < |m| ==> m[i] == I32(profiles[i])
    ensures LeadingI32s(PROFILE_NUM, m) == profiles[..|m|] && (ReadI32s(PROFILE_NUM, m).Parsed? <==> |m| == PROFILE_NUM)
  {
    LeadingI32sIs(PROFILE_NUM, m, profiles[..|m|]);
  }

  /** A message cut off inside a record overwrites exactly the fields and elements before the cut. */
  lemma CutOverwrites(was: Capability, c: Capability, k: nat)
    requires was.Valid() && c.Valid() && k <= 297
    ensures NewUpTo(was, c, Overwrite(was, EncodeCap(c)[..k]), k)
  {
    CapLayout(c);
    var m := EncodeCap(c)[..k];
    if k >= 2 {
      var m2 := m[1..][1..];
      var d := was.(role := c.role, kind := c.kind);
      assert m2 == EncodeCap(c)[2..k];
      CutArrays(d, c, k, m2);
      hide EncodeCap;
      hide OverwriteArrays;
      assert Overwrite(was, m) == OverwriteArrays(d, m2);
    }
  }

  lemma CutArrays(was: Capability, c: Capability, k: nat, m: seq<Item>)
    requires was.Valid() && c.Valid() && 2 <= k <= 297 && |EncodeCap(c)| == 297 && m == EncodeCap(c)[2..k]
    requires was.role == c.role && was.kind == c.kind
    ensures NewUpTo(was, c, OverwriteArrays(was, m), k)
  {
    CapLayout(c);
    var e3 := EncodeScalars(c);
    assert EncodeCap(c)[290..] == e3;
    hide EncodeCap;
    hide EncodeScalars;
    hide OverwriteScalars;
    hide Overlay;
    if k < 34 {
      CutNames(m, c.compName);
      OverlayElements(c.compName[..k - 2], was.compName);
      hide ReadU8s;
      hide LeadingU8s;
    } else {
      var rest := m[32..];
      assert forall i :: 0 <= i < 32 ==> m[i] == U8(c.compName[i]);
      LeadingU8sIs(NAME_LENGTH, m, c.compName);
      assert m == U8s(c.compName) + rest;
      ReadU8sIff(NAME_LENGTH, m, c.compName, rest);
      OverlayAll(c.compName, was.compName);
      assert forall j :: 0 <= j < |rest| && j < 256 ==> rest[j] == I32(c.supportProfiles[j]);
      hide U8s;
      hide ReadU8s;
      hide LeadingU8s;
      hide NewUpTo;
      CutTail(was.(compName := c.compName), c, k, rest, e3);
      NewNames(was, c, OverwriteArrays(was, m), k);
    }
  }

  /** Once the whole name is new, what it was before does not matter. */
  lemma NewNames(was: Capability, c: Capability, d: Capability, k: nat)
    requires was.Valid() && c.Valid() && k >= 34 && NewUpTo(was.(compName := c.compName), c, d, k)
    ensures NewUpTo(was, c, d, k)
  {
  }

  lemma CutTail(was: Capability, c: Capability, k: nat, m: seq<Item>, e3: seq<Item>)
    requires was.Valid() && c.Valid() && 34 <= k <= 297 && |m| == k - 34 && e3 == EncodeScalars(c)
    requires was.role == c.role && was.kind == c.kind && was.compName == c.compName
    requires forall j :: 0 <= j < |m| && j < 256 ==> m[j] == I32(c.supportProfiles[j])
    requires |m| >= 256 ==> m[256..] == e3[..|m| - 256]
    ensures var c2 := was.(supportProfiles := Overlay(LeadingI32s(PROFILE_NUM, m), was.supportProfiles, PROFILE_NUM));
      NewUpTo(was, c, if ReadI32s(PROFILE_NUM, m).Failed? then c2
                      else OverwriteScalars(c2, ReadI32s(PROFILE_NUM, m).rest), k)
  {
    hide EncodeScalars;
    hide OverwriteScalars;
    hide Overlay;
    if k < 290 {
      CutProfiles(m, c.supportProfiles);
      OverlayElements(c.supportProfiles[..k - 34], was.supportProfiles);
      hide ReadI32s;
      hide LeadingI32s;
    } else {
      LeadingI32sIs(PROFILE_NUM, m, c.supportProfiles);
      assert m == I32s(c.supportProfiles) + m[256..];
      ReadI32sIff(PROFILE_NUM, m, c.supportProfiles, m[256..]);
      OverlayAll(c.supportProfiles, was.supportProfiles);
      hide I32s;
      hide ReadI32s;
      hide LeadingI32s;
      CutScalars(was.(supportProfiles := c.supportProfiles), c, m[256..]);
    }
  }

  // ---------- lists of capabilities ----------

  ghost predicate AllValid(cs: seq<Capability>) { forall i :: 0 <= i < |cs| ==> cs[i].Valid() }

  function EncodeCaps(cs: seq<Capability>): seq<Item> {
    if cs == [] then [] else EncodeCap(cs[0]) + EncodeCaps(cs[1..])
  }

  lemma {:induction false} EncodeCapsSnoc(cs: seq<Capability>, c: Capability)
    ensures EncodeCaps(cs + [c]) == EncodeCaps(cs) + EncodeCap(c)
  {
    hide EncodeCap;
    if cs == [] {
      assert cs + [c] == [c] && [c][1..] == [];
      assert EncodeCaps([c]) == EncodeCap(c) + EncodeCaps([]);
    } else {
      assert (cs + [c])[1..] == cs[1..] + [c];
      EncodeCapsSnoc(cs[1..], c);
    }
  }

  lemma {:induction false} EncodeCapsConcat(a: seq<Capability>, b: seq<Capability>)
    ensures EncodeCaps(a + b) == EncodeCaps(a) + EncodeCaps(b)
  {
    hide EncodeCap;
    if a == [] {
      assert a + b == b;
    } else {
      assert (a + b)[1..] == a[1..] + b;
      EncodeCapsConcat(a[1..], b);
    }
  }

  function ReadCaps(n: nat, m: seq<Item>): Parse<seq<Capability>> {
    if n == 0 then Parsed([], m) else
      var (c, r) :- ReadCap(m);
      var (cs, r') :- ReadCaps(n - 1, r);
      Parsed([c] + cs, r')
  }

  lemma ReadFirstCap(cs: seq<Capability>)
    requires AllValid(cs)
    ensures ReadCap(EncodeCaps(cs)) == if cs == [] then Failed else Parsed(cs[0], EncodeCaps(cs[1..]))
  {
    if cs != [] {
      hide EncodeCap;
      hide ReadCap;
      ReadCapEncoded(cs[0], EncodeCaps(cs[1..]));
    }
  }

  /** The records, at most `n`, that can be read off the front, and what follows them. */
  function ReadSome(n: nat, m: seq<Item>): (seq<Capability>, seq<Item>) {
    if n == 0 || ReadCap(m).Failed? then ([], m) else
      var (cs, r) := ReadSome(n - 1, ReadCap(m).rest);
      ([ReadCap(m).value] + cs, r)
  }

  lemma ReadSomeStep(n: nat, m: seq<Item>)
    ensures n == 0 || ReadCap(m).Failed? ==> ReadSome(n, m) == ([], m)
    ensures n > 0 && ReadCap(m).Parsed? ==>
      var more := ReadSome(n - 1, ReadCap(m).rest); ReadSome(n, m) == ([ReadCap(m).value] + more.0, more.1)
  {
    hide ReadCap;
  }

  lemma {:induction false} ReadCapsIsSome(n: nat, m: seq<Item>)
    ensures |ReadSome(n, m).0| <= n
    ensures ReadCaps(n, m) == if |ReadSome(n, m).0| == n then Parsed(ReadSome(n, m).0, ReadSome(n, m).1) else Failed
    ensures |ReadSome(n, m).0| < n ==> ReadCap(ReadSome(n, m).1).Failed?
  {
    hide ReadCap;
    if n == 0 {
    } else if ReadCap(m).Parsed? {
      ReadCapsIsSome(n - 1, ReadCap(m).rest);
    }
  }

  /** Reading `n` entries back yields the first `n`, or all of them if fewer were written. */
  lemma {:induction false} ReadSomeEncoded(n: nat, cs: seq<Capability>)
    requires AllValid(cs)
    ensures ReadSome(n, EncodeCaps(cs)) == if n <= |cs| then (cs[..n], EncodeCaps(cs[n..])) else (cs, [])
  {
    hide EncodeCap;
    hide ReadCap;
    if n == 0 {
      assert cs[..0] == [] && cs[0..] == cs;
    } else {
      ReadFirstCap(cs);
      if cs != [] {
        ReadSomeEncoded(n - 1, cs[1..]);
        if n <= |cs| {
          assert cs[..n] == [cs[0]] + cs[1..][..n - 1] && cs[1..][n - 1..] == cs[n..];
        } else {
          assert cs == [cs[0]] + cs[1..];
        }
      }
    }
  }

  /** Reading `n` entries back fails exactly when fewer were written. */
  lemma ReadCapsEncoded(n: nat, cs: seq<Capability>)
    requires AllValid(cs)
    ensures ReadCaps(n, EncodeCaps(cs)) == if n <= |cs| then Parsed(cs[..n], EncodeCaps(cs[n..])) else Failed
  {
    ReadSomeEncoded(n, cs);
    ReadCapsIsSome(n, EncodeCaps(cs));
    hide EncodeCaps;
    hide ReadCaps;
    hide ReadSome;
  }
}
