/** The sample player: header recognition, buffer sizing and the loop that feeds the renderer. */
module AudioRender {
  import opened Hdf
  import opened WavModel

  const DEEP_BUFFER_RENDER_PERIOD_SIZE := 4096

  datatype CString = Null | Str(chars: seq<Ascii>)

  datatype Format = PCM_8_BIT | PCM_16_BIT | PCM_24_BIT | PCM_32_BIT

  datatype Attributes = Attributes(channelCount: UInt32, sampleRate: UInt32, format: Format)

  /** The tag's characters are shifted in from the last to the first after a copy of the first. */
  method StringToInt(flag: CString) returns (temp: UInt32)
    ensures flag.Null? || flag.chars == [] ==> temp == 0
    ensures flag.Str? && flag.chars != [] ==>
      temp == (flag.chars[0] * Pow256(|flag.chars|) + LittleEndian(flag.chars)) % WORD
    ensures flag.Str? && |flag.chars| >= 4 ==> temp == LittleEndian(flag.chars[..4])
  {
    if flag.Null? {
      return 0;
    }
    var s := flag.chars;
    temp := if s == [] then 0 else s[0];
    var first: int := temp;
    var i := |s| - 1;
    FoldedEnds(first, s);
    hide LittleEndian;
    hide Pow256;
    hide Folded;
    while i >= 0
      invariant -1 <= i < |s|
      invariant temp == Folded(first, s, i + 1)
    {
      FoldedStep(first, s, i);
      temp := (temp * 256) % WORD;
      temp := (temp + s[i]) % WORD;
      i := i - 1;
    }
  }

  /** The word before any character has been shifted in, and after all have been. */
  lemma FoldedEnds(first: int, s: seq<Ascii>)
    requires 0 <= first < WORD
    ensures Folded(first, s, |s|) == first
    ensures Folded(first, s, 0) == (first * Pow256(|s|) + LittleEndian(s)) % WORD
    ensures |s| >= 4 ==> Folded(first, s, 0) == LittleEndian(s[..4])
  {
    assert s[0..] == s && s[|s|..] == [] && Pow256(0) == 1;
    if |s| >= 4 { LowWord(first, s); }
  }

  /** The word after the characters from `k` on have been shifted in. */
  function Folded(first: int, s: seq<Ascii>, k: nat): UInt32
    requires k <= |s|
  {
    (first * Pow256(|s| - k) + LittleEndian(s[k..])) % WORD
  }

  lemma FoldedStep(first: int, s: seq<Ascii>, i: nat)
    requires i < |s|
    ensures ((Folded(first, s, i + 1) * 256) % WORD + s[i]) % WORD == Folded(first, s, i)
  {
    var p, low := Pow256(|s| - 1 - i), LittleEndian(s[i + 1..]);
    assert s[i..][1..] == s[i + 1..];
    assert LittleEndian(s[i..]) == s[i] + 256 * low && Pow256(|s| - i) == 256 * p;
    hide LittleEndian;
    hide Pow256;
    ShiftAdd(first * p + low, s[i]);
    Regroup(first, p, low, s[i]);
  }

  method TagWord(tag: seq<Ascii>) returns (w: UInt32)
    requires |tag| == 4
    ensures w == LittleEndian(tag)
  {
    w := StringToInt(Str(tag));
    assert tag[..4] == tag;
  }

  lemma Regroup(first: int, p: int, low: int, c: int)
    ensures (first * p + low) * 256 + c == first * (256 * p) + (c + 256 * low)
  {
    MulAssoc(first, p, 256);
  }

  function PcmFormatToBits(format: Format): nat {
    match format
    case PCM_16_BIT => 16
    case PCM_8_BIT => 8
    case _ => 16
  }

  /** 32-bit arithmetic, as in the program. */
  function PcmFramesToBytes(attrs: Attributes): UInt32 {
    (DEEP_BUFFER_RENDER_PERIOD_SIZE * attrs.channelCount * (PcmFormatToBits(attrs.format) / 8)) % WORD
  }

  /** Every header's channel count is a 16-bit number, so the size neither wraps nor reaches 2^31; but
      it holds a whole period only for 8 and 16 bit samples. */
  lemma BufferSizeExact(attrs: Attributes, bits: nat)
    requires attrs.channelCount < 0x1_0000
    requires attrs.format == match bits case 8 => PCM_8_BIT case 16 => PCM_16_BIT case 24 => PCM_24_BIT case _ => PCM_32_BIT
    requires bits in {8, 16, 24, 32}
    ensures PcmFramesToBytes(attrs) < 0x8000_0000
    ensures PcmFramesToBytes(attrs) == DEEP_BUFFER_RENDER_PERIOD_SIZE * attrs.channelCount * (if bits == 8 then 1 else 2)
    ensures PcmFramesToBytes(attrs) == DEEP_BUFFER_RENDER_PERIOD_SIZE * attrs.channelCount * (bits / 8) <==>
            bits in {8, 16} || attrs.channelCount == 0
  {
  }

  /** The failing case at a real input: one channel of 24-bit samples gets two thirds of its period. */
  lemma ShortFrame()
    ensures PcmFramesToBytes(Attributes(1, 48000, PCM_24_BIT)) == 8192 < DEEP_BUFFER_RENDER_PERIOD_SIZE * 1 * (24 / 8)
  {
  }

  function Flatten(chunks: seq<seq<UInt8>>): seq<UInt8> {
    if chunks == [] then [] else Flatten(chunks[..|chunks| - 1]) + chunks[|chunks| - 1]
  }

  /** `chunks` are consecutive stretches of `file` from `a` to `b`, none empty or over `size`. */
  ghost predicate Fed(chunks: seq<seq<UInt8>>, file: seq<UInt8>, a: nat, b: nat, size: nat) {
    && a <= b <= |file| && Flatten(chunks) == file[a..b]
    && forall k :: 0 <= k < |chunks| ==> 0 < |chunks[k]| <= size
  }

  /** `now` continues `was` with chunks of `file` from `a` to `b`. */
  ghost predicate Offered(was: seq<seq<UInt8>>, now: seq<seq<UInt8>>, file: seq<UInt8>, a: nat, b: nat, size: nat) {
    was <= now && Fed(now[|was|..], file, a, b, size)
  }

  lemma FedMore(chunks: seq<seq<UInt8>>, file: seq<UInt8>, a: nat, b: nat, c: nat, size: nat)
    requires Fed(chunks, file, a, b, size) && b < c <= |file| && c - b <= size
    ensures Fed(chunks + [file[b..c]], file, a, c, size)
  {
    assert (chunks + [file[b..c]])[..|chunks|] == chunks;
    assert file[a..b] + file[b..c] == file[a..c];
  }

  lemma OfferedNothing(was: seq<seq<UInt8>>, file: seq<UInt8>, a: nat, size: nat)
    requires a <= |file|
    ensures Offered(was, was, file, a, a, size)
  {
    assert was[|was|..] == [];
  }

  lemma OfferedMore(was: seq<seq<UInt8>>, now: seq<seq<UInt8>>, file: seq<UInt8>, a: nat, b: nat, c: nat, size: nat)
    requires Offered(was, now, file, a, b, size) && b < c <= |file| && c - b <= size
    ensures Offered(was, now + [file[b..c]], file, a, c, size)
  {
    hide Fed;
    assert (now + [file[b..c]])[|was|..] == now[|was|..] + [file[b..c]];
    FedMore(now[|was|..], file, a, b, c, size);
  }

  /** A 32-bit pattern read as a signed number. */
  function ToInt32(x: int): Int32 { (x + 0x8000_0000) % WORD - 0x8000_0000 }

  lemma ToInt32Facts(x: int)
    ensures -0x8000_0000 <= x < 0x8000_0000 ==> ToInt32(x) == x
    ensures 0x8000_0000 <= x < WORD ==> ToInt32(x) == x - WORD
  {
  }

  /** A signed length passed as the unsigned 64-bit size of a read. */
  function AsSize(x: Int32): nat { if x < 0 then x + 0x1_0000_0000_0000_0000 else x }

  /** The frame an accepted header asks for. */
  function FrameBytes(b: seq<UInt8>): int
    requires |b| >= HEADER_SIZE
  {
    DEEP_BUFFER_RENDER_PERIOD_SIZE * Le16(b, 22) * (if Le16(b, 34) == 8 then 1 else 2)
  }

  function Min(a: int, b: int): int { if a < b then a else b }

  /** Reads are complete, the renderer never reports that it stopped, and nobody closes the player. */
  ghost predicate Undisturbed(size: nat, limit: nat -> nat, answer: nat -> int, closing: nat -> bool) {
    forall i :: limit(i) >= size && answer(i) != HDF_ERR_INVALID_OBJECT && !closing(i)
  }

  lemma UndisturbedAt(size: nat, limit: nat -> nat, answer: nat -> int, closing: nat -> bool, i: nat)
    requires Undisturbed(size, limit, answer, closing)
    ensures limit(i) >= size && answer(i) != HDF_ERR_INVALID_OBJECT && !closing(i)
  {
  }

  function ReadSize(remaining: Int32, size: nat): Int32 {
    if remaining > size then size else remaining
  }

  /** No read can overrun a frame of `size` bytes: the size in the header is a positive 32-bit number,
      or the frame holds all the `left` bytes of the file. */
  ghost predicate FrameSuffices(riff: int, left: int, size: nat) {
    0 <= riff < 0x8000_0000 || left <= size < 0x8000_0000 <= riff < WORD
  }

  /** The guard is exact: the first read stays within a frame of `size` bytes if and only if it holds. */
  lemma FirstReadFitsIff(riff: int, left: nat, size: nat)
    requires 0 <= riff < WORD && size < 0x8000_0000
    ensures Min(AsSize(ReadSize(ToInt32(riff), size)), left) <= size <==> FrameSuffices(riff, left, size)
  {
    ToInt32Facts(riff);
    hide ToInt32;
  }

  /** The failing case at a real input: with a RIFF size of 2^31, a file one byte longer than the frame is
      read whole. */
  lemma WideHeaderReadsAll()
    ensures Min(AsSize(ReadSize(ToInt32(0x8000_0000), 8192)), 8193) == 8193
  {
    ToInt32Facts(0x8000_0000);
  }

  /** Where the feeding loop stands, in a file of `n` bytes, after `i` rounds. */
  ghost predicate Progress(riff: int, n: nat, size: nat, start: nat, pos: nat, remaining: Int32, i: nat, going: bool, calm: bool) {
    && start <= pos <= n && pos - start <= riff
    && (going && riff < 0x8000_0000 ==> remaining == riff - (pos - start))
    && (going && i == 0 ==> remaining == ToInt32(riff))
    && (i > 0 && riff >= 0x8000_0000 && calm ==> pos == n)
    && (!going && size > 0 && calm ==> pos == start + Min(riff, n - start))
  }

  lemma ProgressStart(riff: int, n: nat, size: nat, start: nat, calm: bool)
    requires start <= n && FrameSuffices(riff, n - start, size)
    ensures Progress(riff, n, size, start, start, ToInt32(riff), 0, true, calm)
  {
    ToInt32Facts(riff);
  }

  lemma ReadFits(riff: int, n: nat, size: nat, start: nat, pos: nat, remaining: Int32, i: nat, calm: bool)
    requires start <= n && FrameSuffices(riff, n - start, size) && Progress(riff, n, size, start, pos, remaining, i, true, calm)
    ensures Min(AsSize(ReadSize(remaining, size)), n - pos) <= size
  {
  }

  /** One round that read `got` bytes and was told that the renderer has stopped. */
  lemma ProgressStop(riff: int, n: nat, size: nat, start: nat, pos: nat, remaining: Int32, i: nat, limit: nat, got: nat)
    requires start <= n && FrameSuffices(riff, n - start, size)
    requires Progress(riff, n, size, start, pos, remaining, i, true, false)
    requires got == Min(Min(AsSize(ReadSize(remaining, size)), limit), n - pos)
    ensures Progress(riff, n, size, start, pos + got, remaining, i, false, false)
  {
  }

  /** One round that read `got` bytes; `shut` says that the player is being closed. */
  lemma ProgressStep(riff: int, n: nat, size: nat, start: nat, pos: nat, remaining: Int32, i: nat, calm: bool,
                     limit: nat, shut: bool, got: nat, rest: Int32, going: bool)
    requires start <= n && FrameSuffices(riff, n - start, size)
    requires Progress(riff, n, size, start, pos, remaining, i, true, calm)
    requires got == Min(Min(AsSize(ReadSize(remaining, size)), limit), n - pos)
    requires calm ==> limit >= size && !shut
    requires rest == (if got > 0 then ToInt32(remaining - got) else remaining) && going == (!shut && got > 0 && rest > 0)
    ensures Progress(riff, n, size, start, pos + got, rest, i + 1, going, calm)
  {
    ToInt32Facts(riff);
    ToInt32Facts(remaining - got);
    hide ToInt32;
  }

  class Player {
    var file: seq<UInt8>
    var pos: nat
    var header: Header
    var attrs: Attributes
    var bufferSize: nat
    /** What was handed to the renderer, chunk by chunk. */
    var offered: seq<seq<UInt8>>

    ghost predicate Valid()
      reads this
    {
      pos <= |file|
    }

    constructor (file: seq<UInt8>, header: Header, attrs: Attributes)
      ensures Valid() && this.file == file && pos == 0 && offered == []
    {
      this.file, this.header, this.attrs := file, header, attrs;
      pos, bufferSize, offered := 0, 0, [];
    }

    /** Accepts exactly the playable files, and takes channels, rate and sample size from their places
        in the file. */
    method WavHeadAnalysis() returns (ret: int)
      requires Valid() && pos == 0
      modifies this`pos, this`header, this`attrs
      ensures Valid()
      ensures ret == HDF_SUCCESS <==> Playable(file)
      ensures ret == HDF_SUCCESS ==>
        && pos == HEADER_SIZE && header == ParseHeader(file) && header.riffSize == Le32(file, 4)
        && attrs.channelCount == Le16(file, 22) && attrs.sampleRate == Le32(file, 24)
        && attrs.format == (match Le16(file, 34)
                            case 8 => PCM_8_BIT case 16 => PCM_16_BIT case 24 => PCM_24_BIT case _ => PCM_32_BIT)
      ensures ret in {HDF_SUCCESS, HDF_FAILURE}
    {
      hide ParseHeader;
      hide LittleEndian;
      if |file| < HEADER_SIZE {
        pos := |file|;
        return HDF_FAILURE;
      }
      header := ParseHeader(file);
      pos := HEADER_SIZE;
      HeaderLayout(file);
      Le32Injective(file, 0, RIFF);
      Le32Injective(file, 8, WAVE);
      Le32Injective(file, 36, DATA);
      var riffId := TagWord(RIFF);
      var fileFmt := TagWord(WAVE);
      var dataId := TagWord(DATA);
      if header.riffId != riffId || header.fileFmt != fileFmt || header.dataId != dataId {
        return HDF_FAILURE;
      }
      attrs := attrs.(channelCount := header.channelNum, sampleRate := header.sampleRate);
      match header.bitsPerSample {
        case 8 => attrs := attrs.(format := PCM_8_BIT);
        case 16 => attrs := attrs.(format := PCM_16_BIT);
        case 24 => attrs := attrs.(format := PCM_24_BIT);
        case 32 => attrs := attrs.(format := PCM_32_BIT);
        case _ => return HDF_FAILURE;
      }
      return HDF_SUCCESS;
    }

    method InitPlayingAudioParam(granted: bool) returns (ret: int)
      requires Valid()
      modifies this`bufferSize
      ensures Valid() && ret == if granted then HDF_SUCCESS else HDF_FAILURE
      ensures bufferSize == if granted then PcmFramesToBytes(attrs) else old(bufferSize)
    {
      if !granted {
        return HDF_FAILURE;
      }
      bufferSize := PcmFramesToBytes(attrs);
      return HDF_SUCCESS;
    }

    /** `fread` into the frame: up to `size` bytes, fewer at the end of the file or on an error.  The
        frame must hold what the file still has of them. */
    method Read(size: nat, limit: nat) returns (chunk: seq<UInt8>)
      requires Valid() && Min(size, |file| - pos) <= bufferSize
      modifies this`pos
      ensures Valid() && old(pos) <= pos && chunk == file[old(pos)..pos]
      ensures |chunk| == Min(Min(size, limit), |file| - old(pos)) <= bufferSize
    {
      var n := Min(Min(size, limit), |file| - pos);
      chunk := file[pos..pos + n];
      pos := pos + n;
    }

    /** The feeding loop.  `limit`, `answer` and `closing` are what the i-th read, render call and look
        at the close flag yield.  The chunks are consecutive stretches of the file after the header,
        each fits the frame, and together they never exceed the size in the header; if nothing
        interferes, they are all of it.  A size of 2^31 or more becomes negative, is passed on as a
        huge length, and may wrap round to a positive one. */
    method FrameStart(limit: nat -> nat, answer: nat -> int, closing: nat -> bool) returns (ret: int)
      requires Valid() && FrameSuffices(header.riffSize, |file| - pos, bufferSize)
      modifies this`pos, this`offered
      ensures Valid() && ret == HDF_SUCCESS && old(pos) <= pos
      ensures Offered(old(offered), offered, file, old(pos), pos, bufferSize) && pos - old(pos) <= header.riffSize
      ensures bufferSize > 0 && Undisturbed(bufferSize, limit, answer, closing) ==>
                pos == old(pos) + Min(header.riffSize, |file| - old(pos))
    {
      hide Offered;
      hide Undisturbed;
      ghost var start, riff, n, size := pos, header.riffSize, |file|, bufferSize;
      ghost var calm := Undisturbed(bufferSize, limit, answer, closing);
      OfferedNothing(offered, file, pos, bufferSize);
      ProgressStart(riff, n, size, start, calm);
      var remaining: Int32 := ToInt32(header.riffSize);
      var i := 0;
      var going := true;
      while going
        invariant Valid() && start <= pos
        invariant Offered(old(offered), offered, file, start, pos, bufferSize)
        invariant Progress(riff, n, size, start, pos, remaining, i, going, calm)
        decreases |file| - pos, going
      {
        hide Progress;
        hide ToInt32;
        hide FrameSuffices;
        hide Min;
        hide AsSize;
        hide ReadSize;
        ghost var here, was := pos, remaining;
        ReadFits(riff, n, size, start, here, was, i, calm);
        if calm { UndisturbedAt(bufferSize, limit, answer, closing, i); }
        var readSize := ReadSize(remaining, bufferSize);
        var chunk := Read(AsSize(readSize), limit(i));
        if |chunk| > 0 {
          OfferedMore(old(offered), offered, file, start, here, pos, bufferSize);
          offered := offered + [chunk];
          if answer(i) == HDF_ERR_INVALID_OBJECT {
            going := false;
            ProgressStop(riff, n, size, start, here, was, i, limit(i), |chunk|);
            break;
          }
          remaining := ToInt32(remaining - |chunk|);
        }
        going := !closing(i) && |chunk| > 0 && remaining > 0;
        ProgressStep(riff, n, size, start, here, was, i, calm, limit(i), closing(i), |chunk|,
                     remaining, going);
        i := i + 1;
      }
      return HDF_SUCCESS;
    }

    /** Header, render creation and start, buffer, thread with the feeding loop.  `playing` says that a
        file is open already; `created`, `started` and `threaded` are what the render object and the
        thread library answer.  Nothing of an unplayable file is ever offered. */
    method PlayingAudioFiles(playing: bool, created: bool, started: bool, granted: bool, threaded: bool,
                             limit: nat -> nat, answer: nat -> int, closing: nat -> bool) returns (ret: int)
      requires Valid() && pos == 0 && offered == []
      requires Playable(file) ==> Le32(file, 4) < 0x8000_0000 || |file| - HEADER_SIZE <= FrameBytes(file)
      modifies this
      ensures Valid() && file == old(file)
      ensures ret == HDF_SUCCESS <==> !playing && Playable(file) && created && started && granted && threaded
      ensures ret != HDF_SUCCESS ==> offered == []
      ensures ret == HDF_SUCCESS ==>
        && attrs.sampleRate == Le32(file, 24) && attrs.channelCount == Le16(file, 22)
        && bufferSize == FrameBytes(file) < 0x8000_0000
        && Fed(offered, file, HEADER_SIZE, pos, bufferSize) && pos - HEADER_SIZE <= Le32(file, 4)
        && (Le16(file, 22) > 0 && Undisturbed(bufferSize, limit, answer, closing) ==>
              Flatten(offered) == file[HEADER_SIZE..HEADER_SIZE + Min(Le32(file, 4), |file| - HEADER_SIZE)])
    {
      hide LittleEndian;
      hide Undisturbed;
      if playing {
        return HDF_FAILURE;
      }
      ret := WavHeadAnalysis();
      if ret < 0 {
        return HDF_FAILURE;
      }
      if !created || !started {
        return HDF_FAILURE;
      }
      ret := InitPlayingAudioParam(granted);
      if ret < 0 || !threaded {
        return HDF_FAILURE;
      }
      BufferSizeExact(attrs, Le16(file, 34));
      ret := FrameStart(limit, answer, closing);
    }
  }
}
