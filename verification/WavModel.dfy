/** The canonical 44-byte wave header and the words computed from four-character tags. */
module WavModel {
  import opened Hdf

  /** A non-null ASCII character; whether `char` is signed makes no difference below 128. */
  type Ascii = x: int | 0 < x < 0x80 witness 1

  const HEADER_SIZE := 44
  const WORD := 0x1_0000_0000

  // ---------- four-character tags ----------

  /** Characters as digits of a number to base 256, least significant first. */
  function LittleEndian(s: seq<int>): int {
    if s == [] then 0 else s[0] + 256 * LittleEndian(s[1..])
  }

  function Pow256(n: nat): nat { if n == 0 then 1 else 256 * Pow256(n - 1) }

  lemma ShiftAdd(x: int, c: int)
    ensures ((x % WORD * 256) % WORD + c) % WORD == (x * 256 + c) % WORD
  {
    var q := x / WORD;
    assert x == q * WORD + x % WORD;
    assert x * 256 + c == (x % WORD * 256 + c) + (256 * q) * WORD;
    ModMultiple(x % WORD * 256 + c, 256 * q);
    var p := x % WORD * 256 / WORD;
    assert x % WORD * 256 == p * WORD + (x % WORD * 256) % WORD;
    ModMultiple((x % WORD * 256) % WORD + c, p);
  }

  lemma {:induction false} ModMultiple(a: int, k: int)
    ensures (a + k * WORD) % WORD == a % WORD
  {
  }

  /** Folding the characters from the last to the first, with the first one counted in advance. */
  lemma {:induction false} LittleEndianSplit(s: seq<int>, k: nat)
    requires k <= |s|
    ensures LittleEndian(s) == LittleEndian(s[..k]) + Pow256(k) * LittleEndian(s[k..])
  {
    if k == 0 {
      assert s[..0] == [] && s[0..] == s;
    } else {
      LittleEndianSplit(s[1..], k - 1);
      assert s[1..][..k - 1] == s[..k][1..] && s[1..][k - 1..] == s[k..];
      MulAssoc(256, Pow256(k - 1), LittleEndian(s[k..]));
    }
  }

  lemma MulAssoc(a: int, b: int, c: int)
    ensures a * (b * c) == (a * b) * c
  {
  }

  /** Only the first four characters survive in 32 bits. */
  lemma LowWord(first: int, s: seq<int>)
    requires |s| >= 4 && forall i :: 0 <= i < |s| ==> 0 <= s[i] < 256
    ensures (first * Pow256(|s|) + LittleEndian(s)) % WORD == LittleEndian(s[..4])
  {
    hide LittleEndian;
    hide Pow256;
    LittleEndianSplit(s, 4);
    PowFour();
    PowSplit(|s| - 4);
    Recombine(first, Pow256(|s| - 4), LittleEndian(s[4..]), LittleEndian(s[..4]));
    ModMultiple(LittleEndian(s[..4]), first * Pow256(|s| - 4) + LittleEndian(s[4..]));
    FourDigits(s[..4]);
  }

  lemma Recombine(first: int, p: int, high: int, low: int)
    ensures first * (p * WORD) + (low + WORD * high) == low + (first * p + high) * WORD
  {
    MulAssoc(first, p, WORD);
  }

  lemma PowFour() ensures Pow256(4) == WORD { assert Pow256(1) == 256 && Pow256(2) == 65536 && Pow256(3) == 16777216; }

  lemma {:induction false} PowSplit(n: nat)
    ensures Pow256(n + 4) == Pow256(n) * WORD
  {
    if n == 0 { PowFour(); } else { PowSplit(n - 1); }
  }

  lemma FourDigits(s: seq<int>)
    requires |s| == 4 && forall i :: 0 <= i < 4 ==> 0 <= s[i] < 256
    ensures LittleEndian(s) == s[0] + 256 * s[1] + 65536 * s[2] + 16777216 * s[3]
    ensures 0 <= LittleEndian(s) < WORD
  {
    assert s[1..][1..] == s[2..] && s[2..][1..] == s[3..] && s[3..][1..] == [];
    assert LittleEndian(s[3..]) == s[3];
    assert LittleEndian(s[2..]) == s[2] + 256 * s[3];
    assert LittleEndian(s[1..]) == s[1] + 256 * LittleEndian(s[2..]);
  }

  /** Two four-byte words are equal only if their bytes are. */
  lemma FourDigitsInjective(a: seq<int>, b: seq<int>)
    requires |a| == 4 && |b| == 4 && forall i :: 0 <= i < 4 ==> 0 <= a[i] < 256 && 0 <= b[i] < 256
    requires LittleEndian(a) == LittleEndian(b)
    ensures a == b
  {
    FourDigits(a);
    FourDigits(b);
    hide LittleEndian;
    SameDigits(a[0], a[1] + 256 * a[2] + 65536 * a[3], b[0], b[1] + 256 * b[2] + 65536 * b[3]);
    SameDigits(a[1], a[2] + 256 * a[3], b[1], b[2] + 256 * b[3]);
    SameDigits(a[2], a[3], b[2], b[3]);
  }

  /** The lowest digit and the rest of a number are unique. */
  lemma SameDigits(a: int, high: int, b: int, other: int)
    requires 0 <= a < 256 && 0 <= b < 256 && a + 256 * high == b + 256 * other
    ensures a == b && high == other
  {
  }

  // ---------- the header ----------

  datatype Header = Header(
    riffId: int, riffSize: int, fileFmt: int, fmtId: int, fmtSize: int, audioFormat: int, channelNum: int,
    sampleRate: int, byteRate: int, blockAlign: int, bitsPerSample: int, dataId: int, dataSize: int)

  function Word32(b: seq<UInt8>, at: nat): int
    requires at + 4 <= |b|
  {
    LittleEndian(b[at..at + 4])
  }

  function Word16(b: seq<UInt8>, at: nat): int
    requires at + 2 <= |b|
  {
    LittleEndian(b[at..at + 2])
  }

  /** The structure as `fread` leaves it on a little-endian machine. */
  function ParseHeader(b: seq<UInt8>): Header
    requires |b| >= HEADER_SIZE
  {
    Header(Word32(b, 0), Word32(b, 4), Word32(b, 8), Word32(b, 12), Word32(b, 16), Word16(b, 20), Word16(b, 22),
           Word32(b, 24), Word32(b, 28), Word16(b, 32), Word16(b, 34), Word32(b, 36), Word32(b, 40))
  }

  /** Little-endian numbers at a place in a file, byte by byte. */
  function Le16(b: seq<int>, at: nat): int
    requires at + 2 <= |b|
  {
    b[at] + 256 * b[at + 1]
  }

  function Le32(b: seq<int>, at: nat): int
    requires at + 4 <= |b|
  {
    b[at] + 256 * b[at + 1] + 65536 * b[at + 2] + 16777216 * b[at + 3]
  }

  lemma WordsAreLe(b: seq<UInt8>, at: nat)
    ensures at + 2 <= |b| ==> Word16(b, at) == Le16(b, at)
    ensures at + 4 <= |b| ==> Word32(b, at) == Le32(b, at)
  {
    if at + 2 <= |b| {
      var w := b[at..at + 2];
      assert w[1..][1..] == [];
      assert LittleEndian(w[1..]) == w[1];
    }
    if at + 4 <= |b| { FourDigits(b[at..at + 4]); }
  }

  /** Where every field of the header stands. */
  lemma HeaderLayout(b: seq<UInt8>)
    requires |b| >= HEADER_SIZE
    ensures var h := ParseHeader(b);
      && h.riffId == Le32(b, 0) && h.riffSize == Le32(b, 4) && h.fileFmt == Le32(b, 8)
      && h.fmtId == Le32(b, 12) && h.fmtSize == Le32(b, 16) && h.audioFormat == Le16(b, 20)
      && h.channelNum == Le16(b, 22) && h.sampleRate == Le32(b, 24) && h.byteRate == Le32(b, 28)
      && h.blockAlign == Le16(b, 32) && h.bitsPerSample == Le16(b, 34)
      && h.dataId == Le32(b, 36) && h.dataSize == Le32(b, 40)
  {
    forall at: nat ensures at + 2 <= |b| ==> Word16(b, at) == Le16(b, at) { WordsAreLe(b, at); }
    forall at: nat ensures at + 4 <= |b| ==> Word32(b, at) == Le32(b, at) { WordsAreLe(b, at); }
    hide Word16;
    hide Word32;
    hide Le16;
    hide Le32;
  }

  /** Equal numbers are made of equal bytes. */
  lemma Le32Injective(b: seq<UInt8>, at: nat, tag: seq<Ascii>)
    requires at + 4 <= |b| && |tag| == 4
    ensures Le32(b, at) == LittleEndian(tag) <==> b[at..at + 4] == tag
  {
    WordsAreLe(b, at);
    if Le32(b, at) == LittleEndian(tag) { FourDigitsInjective(b[at..at + 4], tag); }
  }

  const RIFF: seq<Ascii> := [0x52, 0x49, 0x46, 0x46]
  const WAVE: seq<Ascii> := [0x57, 0x41, 0x56, 0x45]
  const DATA: seq<Ascii> := [0x64, 0x61, 0x74, 0x61]

  /** Files the player takes: tagged RIFF, WAVE and data at the fixed places, with a known sample size. */
  predicate Playable(b: seq<UInt8>) {
    && |b| >= HEADER_SIZE
    && b[0..4] == RIFF && b[8..12] == WAVE && b[36..40] == DATA
    && Le16(b, 34) in {8, 16, 24, 32}
  }
}
