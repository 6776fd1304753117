/** Byte-level vocabulary shared by the whole driver: the Go `uint8`, byte sums and
    little-endian words. Go's fixed-width arithmetic is written out explicitly where the
    driver relies on it (`% 256` for a `uint8`, `% 65536` for a `uint16`). */
module Bytes {

  /** A Go `byte` / `uint8`. */
  type Byte = x: int | 0 <= x < 256

  /** The sum of a byte sequence in unbounded arithmetic. */
  function Sum(s: seq<Byte>): nat
  {
    if |s| == 0 then 0 else Sum(s[..|s| - 1]) + s[|s| - 1]
  }

  /** A sum grows by the next byte: the step of every accumulator loop. */
  lemma SumSnoc(s: seq<Byte>, lo: nat, hi: nat)
    requires lo <= hi < |s|
    ensures Sum(s[lo..hi + 1]) == Sum(s[lo..hi]) + s[hi]
  {
    assert s[lo..hi + 1][..hi - lo] == s[lo..hi];
  }

  lemma {:induction false} SumAppend(a: seq<Byte>, b: seq<Byte>)
    ensures Sum(a + b) == Sum(a) + Sum(b)
    decreases |b|
  {
    if |b| == 0 {
      assert a + b == a;
    } else {
      var b' := b[..|b| - 1];
      assert (a + b)[..|a + b| - 1] == a + b';
      SumAppend(a, b');
    }
  }

  lemma {:induction false} SumBound(s: seq<Byte>)
    ensures Sum(s) <= 255 * |s|
    decreases |s|
  {
    if |s| > 0 {
      SumBound(s[..|s| - 1]);
    }
  }

  /** A block of zero bytes, as Go's `make([]byte, n)` allocates it. */
  function Zeros(n: nat): (z: seq<Byte>)
    ensures |z| == n && forall i :: 0 <= i < n ==> z[i] == 0
  {
    seq(n, _ => 0)
  }

  lemma {:induction false} SumZeros(n: nat)
    ensures Sum(Zeros(n)) == 0
    decreases n
  {
    if n > 0 {
      assert Zeros(n)[..n - 1] == Zeros(n - 1);
      SumZeros(n - 1);
    }
  }

  /** `binary.LittleEndian.Uint16(s[i:])`. */
  function LE16(s: seq<Byte>, i: nat): (w: nat)
    requires i + 2 <= |s|
    ensures w < 0x1_0000
  {
    s[i] as int + 256 * (s[i + 1] as int)
  }

  /** `binary.LittleEndian.Uint32(s[i:])`, also the unsigned fraction word of the
      fixed-point calibration format. */
  function LE32(s: seq<Byte>, i: nat): (w: nat)
    requires i + 4 <= |s|
    ensures w < 0x1_0000_0000
  {
    s[i] as int + 256 * (s[i + 1] as int) + 65536 * (s[i + 2] as int) + 16777216 * (s[i + 3] as int)
  }

  /** The four bytes of a little-endian word are its base-256 digits. */
  lemma LE32Digits(s: seq<Byte>, i: nat)
    requires i + 4 <= |s|
    ensures LE32(s, i) % 256 == s[i]
    ensures (LE32(s, i) / 256) % 256 == s[i + 1]
    ensures (LE32(s, i) / 65536) % 256 == s[i + 2]
    ensures LE32(s, i) / 16777216 == s[i + 3]
  {
    var h2 := s[i + 2] as int + 256 * (s[i + 3] as int);
    var h1 := s[i + 1] as int + 256 * h2;
    assert LE32(s, i) == s[i] as int + 256 * h1;
    DigitSplit(s[i], h1);
    DigitSplit(s[i + 1], h2);
    DigitSplit(s[i + 2], s[i + 3]);
    assert LE32(s, i) / 65536 == LE32(s, i) / 256 / 256;
    assert LE32(s, i) / 16777216 == LE32(s, i) / 65536 / 256;
  }

  lemma DigitSplit(x: Byte, h: nat)
    ensures (x + 256 * h) % 256 == x && (x + 256 * h) / 256 == h
  {
  }

  /** A 16-bit word matches a (low, high) byte pair exactly when both of its bytes do. */
  lemma WordBytes(w: nat, lo: Byte, hi: Byte)
    requires w < 0x1_0000
    ensures (w / 256 % 256 == hi && w % 256 == lo) <==> w == lo as int + 256 * (hi as int)
  {
    if w == lo as int + 256 * (hi as int) {
      DigitSplit(lo, hi);
    }
  }

  /** Reinterprets a 32-bit word as a two's-complement `int32`. */
  function Signed32(w: nat): (v: int)
    requires w < 0x1_0000_0000
    ensures -0x8000_0000 <= v < 0x8000_0000
    ensures (v - w) % 0x1_0000_0000 == 0
  {
    if w < 0x8000_0000 then w else w - 0x1_0000_0000
  }

  /** The first `n` bytes of `s`, or all of it when it is shorter: what a read into an
      `n`-byte buffer delivers. */
  function Prefix(s: seq<Byte>, n: nat): (p: seq<Byte>)
    ensures |p| == if |s| < n then |s| else n
    ensures p == s[..|p|]
  {
    if |s| < n then s else s[..n]
  }
}
