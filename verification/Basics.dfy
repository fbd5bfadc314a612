/** Bytes, little-endian words and the optional value used throughout. */
module Basics {

  datatype Option<+T> = None | Some(value: T)

  newtype byte = b: int | 0 <= b < 256

  const MAX_UINT32 := 0xFFFF_FFFF
  const MAX_INT64 := 0x7FFF_FFFF_FFFF_FFFF
  const MAX_UINT64 := 0xFFFF_FFFF_FFFF_FFFF

  function Min(a: int, b: int): int { if a < b then a else b }

  function Max(a: int, b: int): int { if a < b then b else a }

  /** binary.LittleEndian.Uint16 of the first two bytes. */
  function LE16(s: seq<byte>): (n: nat)
    requires |s| >= 2
    ensures n < 0x1_0000
  {
    s[0] as int + 256 * s[1] as int
  }

  /** binary.LittleEndian.Uint32 of the first four bytes. */
  function LE32(s: seq<byte>): (n: nat)
    requires |s| >= 4
    ensures n <= MAX_UINT32
  {
    s[0] as int + 256 * s[1] as int + 65536 * s[2] as int + 16777216 * s[3] as int
  }

  function PutLE16(n: nat): (s: seq<byte>)
    requires n < 0x1_0000
    ensures |s| == 2 && LE16(s) == n
  {
    [(n % 256) as byte, (n / 256) as byte]
  }

  function PutLE32(n: nat): (s: seq<byte>)
    requires n <= MAX_UINT32
    ensures |s| == 4 && LE32(s) == n
  {
    var h1 := n / 256;
    var h2 := h1 / 256;
    var h3 := h2 / 256;
    [(n % 256) as byte, (h1 % 256) as byte, (h2 % 256) as byte, h3 as byte]
  }

  /** A 24-bit little-endian field stored at offset `at`. */
  function LE24(s: seq<byte>, at: nat): (n: nat)
    requires at + 3 <= |s|
    ensures n < 0x100_0000
  {
    s[at] as int + 256 * s[at + 1] as int + 65536 * s[at + 2] as int
  }

  // The bytes of a number, least significant first.

  function Byte0(n: nat): byte { (n % 256) as byte }

  function Byte1(n: nat): byte { (n / 256 % 256) as byte }

  function Byte2(n: nat): byte { (n / 256 / 256 % 256) as byte }

  function Byte3(n: nat): byte { (n / 256 / 256 / 256 % 256) as byte }

  /** The four bytes of a 32-bit word, least significant first. */
  function FourBytes(n: nat): (s: seq<byte>)
    ensures |s| == 4
  {
    [Byte0(n), Byte1(n), Byte2(n), Byte3(n)]
  }

  /** Words are stored little-endian: 16, 24 and 32 bits wide. */
  lemma WordsAreLittleEndian(n: nat)
    ensures n < 0x1_0000 ==> LE16([Byte0(n), Byte1(n)]) == n && PutLE16(n) == [Byte0(n), Byte1(n)]
    ensures n < 0x100_0000 ==> LE24([Byte0(n), Byte1(n), Byte2(n)], 0) == n
    ensures n <= MAX_UINT32 ==>
      LE32(FourBytes(n)) == n && PutLE32(n) == FourBytes(n)
  {
    var h1 := n / 256;
    var h2 := h1 / 256;
    var h3 := h2 / 256;
    assert n == 256 * h1 + n % 256 && h1 == 256 * h2 + h1 % 256 && h2 == 256 * h3 + h2 % 256;
  }

  lemma WordIsItsBytes(s: seq<byte>, n: nat)
    requires |s| == 4 && n <= MAX_UINT32
    ensures LE32(s) == n <==> s == FourBytes(n)
  {
    WordsAreLittleEndian(n);
    if LE32(s) == n {
      BytesOfAWord(s, n);
    }
  }

  lemma BytesOfAWord(s: seq<byte>, n: nat)
    requires |s| == 4 && LE32(s) == n
    ensures s == FourBytes(n)
  {
    var h1 := s[1] as int + 256 * (s[2] as int + 256 * s[3] as int);
    var h2 := s[2] as int + 256 * s[3] as int;
    assert n == s[0] as int + 256 * h1 && h1 == s[1] as int + 256 * h2;
    assert n / 256 == h1 && h1 / 256 == h2 && h2 / 256 == s[3] as int;
  }

  lemma LE24At(s: seq<byte>, at: nat)
    requires at + 3 <= |s|
    ensures LE24(s, at) == LE24(s[at..at + 3], 0)
  {
  }

  lemma SliceOfSlice<T>(s: seq<T>, from: nat, to: nat, lo: nat, hi: nat)
    requires from <= to <= |s| && lo <= hi <= to - from
    ensures s[from..to][lo..hi] == s[from + lo..from + hi]
  {
    forall k | 0 <= k < hi - lo
      ensures s[from..to][lo..hi][k] == s[from + lo..from + hi][k]
    {
    }
  }
}
