/** The checksum engine and the fixed-point decoder of u6/utils.go.

    The three routines that only compute a checksum are functions over sequences; the
    routines that patch bytes 0, 4 and 5 of a frame in place are methods over an array
    and are proved against a sequence function that states their effect. A Go slice
    `buf[:n]` is the prefix `buf[..n]` of the array. */
module Utils {
  import opened Bytes
  import opened Errors

  // ---------------------------------------------------------------------------------
  // Accumulators and the end-around-carry fold
  // ---------------------------------------------------------------------------------

  /** Go's accumulator loop `a += T(b)` for an unsigned `T` of the given modulus: the
      running total wraps at every step. */
  function WrappingSum(s: seq<Byte>, modulus: nat): (a: nat)
    requires modulus > 0
    ensures a < modulus
  {
    if |s| == 0 then 0 else (WrappingSum(s[..|s| - 1], modulus) + s[|s| - 1]) % modulus
  }

  /** Wrapping at every step is the same as wrapping once at the end. */
  lemma {:induction false} WrappingSumIsSumMod(s: seq<Byte>, modulus: nat)
    requires modulus == 256 || modulus == 0x1_0000
    ensures WrappingSum(s, modulus) == Sum(s) % modulus
    decreases |s|
  {
    if |s| > 0 {
      var p := s[..|s| - 1];
      WrappingSumIsSumMod(p, modulus);
      ModAddLeft(Sum(p), s[|s| - 1], modulus);
    }
  }

  lemma ModAddLeft(x: nat, y: nat, m: nat)
    requires m == 256 || m == 0x1_0000
    ensures (x % m + y) % m == (x + y) % m
  {
    if m == 256 {
    } else {
    }
  }

  /** One step of the checksum fold: remainder plus quotient of the division by 256.
      Because 256 = 255 + 1 this is an end-around carry. */
  function Fold(a: nat): nat
  {
    a % 256 + a / 256
  }

  /** The fold preserves the value modulo 255 (it is a ones'-complement style sum). */
  lemma FoldMod255(a: nat)
    ensures Fold(a) % 255 == a % 255
  {
    var q, r := a / 256, a % 256;
    assert a == 255 * q + (q + r);
  }

  /** Two folds of a 16-bit value always fit a byte, so the final `uint8` conversion in
      normalChecksum8 loses nothing. */
  lemma FoldTwiceFits(a: nat)
    requires a < 0x1_0000
    ensures Fold(Fold(a)) <= 255
  {
  }

  /** Two folds of an `int` total of at most five bytes (at most 1275) also fit a byte. */
  lemma FoldTwiceOfFiveBytes(a: nat)
    requires a <= 1275
    ensures Fold(Fold(a)) <= 255
  {
  }

  /** Both folds of a sum of five bytes together: a byte congruent to the sum modulo 255. */
  lemma FoldTwiceByte(a: nat)
    requires a <= 1275
    ensures Fold(Fold(a)) % 256 == Fold(Fold(a)) && Fold(Fold(a)) % 255 == a % 255
  {
    FoldTwiceOfFiveBytes(a);
    FoldMod255(a);
    FoldMod255(Fold(a));
  }

  // ---------------------------------------------------------------------------------
  // The three checksum functions
  // ---------------------------------------------------------------------------------

  /** normalChecksum8: sum of all bytes into a `uint16`, folded twice, converted to `uint8`.
      The result is the double fold of the 16-bit sum (the conversion loses nothing) and is
      congruent to that sum modulo 255. */
  function NormalChecksum8(s: seq<Byte>): (r: Byte)
    ensures r == Fold(Fold(Sum(s) % 0x1_0000))
    ensures r % 255 == (Sum(s) % 0x1_0000) % 255
  {
    var a := WrappingSum(s, 0x1_0000);
    WrappingSumIsSumMod(s, 0x1_0000);
    FoldTwiceFits(a);
    FoldMod255(a);
    FoldMod255(Fold(a));
    Fold(Fold(a)) % 256
  }

  /** extendedChecksum16: the `uint16` sum of bytes 6 onwards; fails when fewer than 7 bytes. */
  function ExtendedChecksum16(s: seq<Byte>): (r: Result<nat>)
    ensures r.Failure? <==> |s| < 7
    ensures r.Failure? ==> r.error == InvalidChecksumInput
    ensures r.Success? ==> r.value < 0x1_0000 && r.value == Sum(s[6..]) % 0x1_0000
  {
    if |s| < 7 then Failure(InvalidChecksumInput)
    else
      WrappingSumIsSumMod(s[6..], 0x1_0000);
      Success(WrappingSum(s[6..], 0x1_0000))
  }

  /** extendedChecksum8: the `int` sum of bytes 1 to 5 folded twice; fails when fewer than
      6 bytes. The result fits a byte and is congruent to that sum modulo 255. */
  function ExtendedChecksum8(s: seq<Byte>): (r: Result<Byte>)
    ensures r.Failure? <==> |s| < 6
    ensures r.Failure? ==> r.error == InvalidChecksumInput
    ensures r.Success? ==> r.value == Fold(Fold(Sum(s[1..6])))
    ensures r.Success? ==> r.value % 255 == Sum(s[1..6]) % 255
  {
    if |s| < 6 then Failure(InvalidChecksumInput)
    else
      var a := s[1] as int + s[2] + s[3] + s[4] + s[5];
      assert a == Sum(s[1..6]) by { SumOfFive(s[1..6]); }
      FoldTwiceByte(a);
      Success(Fold(Fold(a)) % 256)
  }

  lemma SumOfFive(t: seq<Byte>)
    requires |t| == 5
    ensures Sum(t) == t[0] as int + t[1] + t[2] + t[3] + t[4]
  {
    assert t[..1][..0] == [];
    assert Sum(t[..1]) == t[0];
    assert t[..2][..1] == t[..1];
    assert Sum(t[..2]) == t[0] as int + t[1];
    assert t[..3][..2] == t[..2];
    assert Sum(t[..3]) == t[0] as int + t[1] + t[2];
    assert t[..4][..3] == t[..3];
    assert Sum(t[..4]) == t[0] as int + t[1] + t[2] + t[3];
    assert t[..4] == t[..|t| - 1];
  }

  /** extendedChecksum16 depends on no byte below index 6. */
  lemma ExtendedChecksum16IgnoresHeader(s: seq<Byte>, t: seq<Byte>)
    requires |s| >= 6 && |t| >= 6 && s[6..] == t[6..]
    ensures ExtendedChecksum16(s) == ExtendedChecksum16(t)
  {
  }

  /** extendedChecksum8 depends only on bytes 1 to 5. */
  lemma ExtendedChecksum8OnlyHeader(s: seq<Byte>, t: seq<Byte>)
    requires |s| >= 6 && |t| >= 6 && s[1..6] == t[1..6]
    ensures ExtendedChecksum8(s) == ExtendedChecksum8(t)
  {
  }

  // ---------------------------------------------------------------------------------
  // extendedChecksum: fill bytes 4-5 and 0 in place
  // ---------------------------------------------------------------------------------

  /** The effect of extendedChecksum on a slice. Both sums are taken BEFORE anything is
      written, so the 8-bit checksum in byte 0 covers the old bytes 4 and 5. */
  function ExtendedChecksumOf(s: seq<Byte>): (r: seq<Byte>)
    ensures |r| == |s|
    ensures |s| < 7 ==> r == s
    ensures forall i :: 0 <= i < |s| && i != 0 && i != 4 && i != 5 ==> r[i] == s[i]
  {
    if |s| < 7 then s
    else
      var a := ExtendedChecksum16(s).value;
      var b := ExtendedChecksum8(s).value;
      s[4 := a % 256][5 := (a / 256) % 256][0 := b]
  }

  method ExtendedChecksum(buf: array<Byte>, n: nat) returns (err: Option<Error>)
    requires n <= buf.Length
    modifies buf
    ensures err == (if n < 7 then Some(InvalidChecksumInput) else None)
    ensures buf[..n] == ExtendedChecksumOf(old(buf[..n]))
    ensures buf[n..] == old(buf[n..])
  {
    var a := ExtendedChecksum16(buf[..n]);
    if a.Failure? {
      return Some(a.error);
    }
    // With at least 7 bytes the 8-bit checksum cannot fail.
    var b := ExtendedChecksum8(buf[..n]).value;
    buf[4] := a.value % 256;
    buf[5] := (a.value / 256) % 256;
    buf[0] := b;
    return None;
  }

  /** After extendedChecksum, bytes 4-5 read little-endian are the 16-bit checksum of the
      result itself. */
  lemma ExtendedChecksumStores16(s: seq<Byte>)
    requires |s| >= 7
    ensures ExtendedChecksum16(ExtendedChecksumOf(s)).Success?
    ensures var r := ExtendedChecksumOf(s);
            r[4] as int + 256 * (r[5] as int) == ExtendedChecksum16(r).value
  {
    var r := ExtendedChecksumOf(s);
    assert r[6..] == s[6..];
  }

  /** Byte 0 is the 8-bit checksum of bytes 1-5 as they were before bytes 4-5 were written. */
  lemma ExtendedChecksumStores8OfOldHeader(s: seq<Byte>)
    requires |s| >= 7
    ensures ExtendedChecksumOf(s)[0] == ExtendedChecksum8(s).value
  {
  }

  /** When bytes 4-5 already held the 16-bit checksum, the stored 8-bit checksum also
      checks out against the result. */
  lemma ExtendedChecksumSelfConsistent(s: seq<Byte>)
    requires |s| >= 7
    requires var a := Sum(s[6..]) % 0x1_0000; s[4] == a % 256 && s[5] == a / 256
    ensures var r := ExtendedChecksumOf(s);
            ExtendedChecksum8(r).Success? && ExtendedChecksum8(r).value == r[0]
  {
    var r := ExtendedChecksumOf(s);
    ExtendedChecksumWrites(s);
    assert r[4] == s[4] && r[5] == s[5];
    assert r[1..6] == s[1..6];
    ExtendedChecksum8OnlyHeader(r, s);
  }

  lemma ExtendedChecksumWrites(s: seq<Byte>)
    requires |s| >= 7
    ensures var a := Sum(s[6..]) % 0x1_0000; var r := ExtendedChecksumOf(s);
            r[4] == a % 256 && r[5] == a / 256 && r[0] == ExtendedChecksum8(s).value
  {
    var a := ExtendedChecksum16(s).value;
    assert (a / 256) % 256 == a / 256;
  }

  /** ... and otherwise it need not: seven bytes whose payload is a single 1 get byte 4 = 1
      but keep byte 0 = 0, while the 8-bit checksum of the result is 1. */
  lemma ExtendedChecksumStaleHeader()
    ensures var r := ExtendedChecksumOf([0, 0, 0, 0, 0, 0, 1]);
            r == [0, 0, 0, 0, 1, 0, 1] && ExtendedChecksum8(r).value == 1
  {
    var s: seq<Byte> := [0, 0, 0, 0, 0, 0, 1];
    SumOfFive(s[1..6]);
    assert s[6..] == [1];
    assert Sum([1]) == 1 by { assert [1][..0] == []; }
    var r := ExtendedChecksumOf(s);
    assert r == [0, 0, 0, 0, 1, 0, 1];
    SumOfFive(r[1..6]);
  }

  // ---------------------------------------------------------------------------------
  // setChecksum and its uint8 helpers
  // ---------------------------------------------------------------------------------

  /** The command-type field `(b & 0x78) >> 3` (bits 3 to 6) that setChecksum inspects,
      written with division and remainder; ShiftMaskIsDivMod states that the two agree. */
  function CommandTypeField(b: Byte): (f: nat)
    ensures f < 16
  {
    (b / 8) % 16
  }

  /** Masking bits 3 to 6 and shifting them down is division by 8 modulo 16. */
  lemma ShiftMaskIsDivMod(x: bv8)
    ensures (x & 0x78) >> 3 == (x / 8) % 16
  {
  }

  /** The extended-command tag byte 0xF8 selects the extended path. */
  lemma ExtendedTag()
    ensures CommandTypeField(0xF8) == 15
  {
  }

  /** setChecksum16: the `uint8` sum of bytes 6 onwards into byte 4 and `total >> 8` of that
      byte-wide total (always 0) into byte 5. */
  function SetChecksum16Of(s: seq<Byte>): (r: seq<Byte>)
    requires |s| >= 6
    ensures |r| == |s|
    ensures r[4] == Sum(s[6..]) % 256 && r[5] == 0
    ensures forall i :: 0 <= i < |s| && i != 4 && i != 5 ==> r[i] == s[i]
  {
    var total := WrappingSum(s[6..], 256);
    WrappingSumIsSumMod(s[6..], 256);
    s[4 := total][5 := total / 256]
  }

  /** setChecksum8(bytes, num): the `uint8` sum of bytes 1 to num-1, "folded" within a
      byte (a no-op) and incremented by 1, into byte 0. */
  function SetChecksum8Of(s: seq<Byte>, num: nat): (r: seq<Byte>)
    requires 1 <= num <= |s|
    ensures |r| == |s|
    ensures r[0] == (Sum(s[1..num]) % 256 + 1) % 256
    ensures forall i :: 0 < i < |s| ==> r[i] == s[i]
  {
    var total := WrappingSum(s[1..num], 256);
    WrappingSumIsSumMod(s[1..num], 256);
    var b0 := (total + total / 256) % 256;
    s[0 := (b0 as int + b0 / 256 + 1) % 256]
  }

  /** The effect of setChecksum on a slice of at least 6 bytes: it dispatches on the
      command-type field of byte 1. */
  function SetChecksumOf(s: seq<Byte>): (r: seq<Byte>)
    ensures |r| == |s|
    ensures |s| < 6 ==> r == s
    ensures forall i :: 0 <= i < |s| && i != 0 && i != 4 && i != 5 ==> r[i] == s[i]
  {
    if |s| < 6 then s
    else if CommandTypeField(s[1]) == 15 then SetChecksum8Of(SetChecksum16Of(s), 6)
    else SetChecksum8Of(s, |s|)
  }

  method SetChecksum(buf: array<Byte>, n: nat) returns (err: Option<Error>)
    requires n <= buf.Length
    modifies buf
    ensures err == (if n < 6 then Some(InvalidChecksumInput) else None)
    ensures buf[..n] == SetChecksumOf(old(buf[..n]))
    ensures buf[n..] == old(buf[n..])
  {
    if n < 6 {
      return Some(InvalidChecksumInput);
    }
    var a := buf[1];
    a := CommandTypeField(a);
    if a == 15 {
      SetChecksum16(buf, n);
      SetChecksum8(buf, n, 6);
    } else {
      SetChecksum8(buf, n, n);
    }
    return None;
  }

  method SetChecksum16(buf: array<Byte>, n: nat)
    requires 6 <= n <= buf.Length
    modifies buf
    ensures buf[..n] == SetChecksum16Of(old(buf[..n]))
    ensures buf[n..] == old(buf[n..])
  {
    var total: Byte := 0;
    var i := 6;
    while i < n
      invariant 6 <= i <= n
      invariant total == WrappingSum(buf[6..i], 256)
    {
      assert buf[6..i + 1][..i - 6] == buf[6..i];
      total := (total + buf[i]) % 256;
      i := i + 1;
    }
    assert buf[6..n] == old(buf[..n])[6..];
    buf[4] := total;
    buf[5] := total / 256;
  }

  method SetChecksum8(buf: array<Byte>, n: nat, num: nat)
    requires 1 <= num <= n <= buf.Length
    modifies buf
    ensures buf[..n] == SetChecksum8Of(old(buf[..n]), num)
    ensures buf[n..] == old(buf[n..])
  {
    var total: Byte := 0;
    var i := 1;
    while i < num
      invariant 1 <= i <= num
      invariant total == WrappingSum(buf[1..i], 256)
    {
      assert buf[1..i + 1][..i - 1] == buf[1..i];
      total := (total + buf[i]) % 256;
      i := i + 1;
    }
    assert buf[1..num] == old(buf[..n])[1..num];
    buf[0] := (total + total / 256) % 256;
    buf[0] := (buf[0] as int + buf[0] / 256 + 1) % 256;
  }

  /** The closed form of both setChecksum paths. */
  lemma SetChecksumClosedForm(s: seq<Byte>)
    requires |s| >= 6
    ensures var r := SetChecksumOf(s);
            if CommandTypeField(s[1]) == 15 then
              r[4] == Sum(s[6..]) % 256 && r[5] == 0 &&
              r[0] == ((s[1] as int + s[2] + s[3] + r[4]) % 256 + 1) % 256
            else
              r == s[0 := (Sum(s[1..]) % 256 + 1) % 256]
  {
    var r := SetChecksumOf(s);
    if CommandTypeField(s[1]) == 15 {
      var t := SetChecksum16Of(s);
      SumOfFive(t[1..6]);
    } else {
      assert s[1..|s|] == s[1..];
    }
  }

  /** setChecksum of a frame tagged 0xF8 in byte 1: bytes 4, 5 and 0 as the extended path
      computes them, every other byte kept. */
  lemma SetChecksumExtendedFrame(s: seq<Byte>)
    requires |s| >= 7 && s[1] == 0xF8
    ensures var r := SetChecksumOf(s);
            |r| == |s| && r[4] == Sum(s[6..]) % 256 && r[5] == 0 &&
            r[0] == ((0xF8 + s[2] as int + s[3] as int + r[4] as int) % 256 + 1) % 256 &&
            r[1..4] == s[1..4] && r[6..] == s[6..]
  {
    ExtendedTag();
    SetChecksumClosedForm(s);
    var r := SetChecksumOf(s);
    assert r[1..4] == s[1..4];
    assert r[6..] == s[6..];
  }

  /** The extended path produces a frame that passes the extended checks exactly as the
      validator computes them when the payload sum has no carry out of the low byte and the
      header sum of bytes 1-5 carries exactly once (the "+1" stands for that carry). */
  lemma SetChecksumMeetsExtendedChecks(s: seq<Byte>)
    requires |s| >= 7 && CommandTypeField(s[1]) == 15
    requires Sum(s[6..]) < 256
    requires var r := SetChecksumOf(s); 256 <= Sum(r[1..6]) <= 510
    ensures var r := SetChecksumOf(s);
            ExtendedChecksum16(r).Success? && ExtendedChecksum8(r).Success? &&
            ExtendedChecksum16(r).value % 256 == r[4] &&
            ExtendedChecksum16(r).value / 256 == r[5] &&
            ExtendedChecksum8(r).value == r[0]
  {
    var t := SetChecksum16Of(s);
    var r := SetChecksum8Of(t, 6);
    assert r == SetChecksumOf(s);
    assert r[6..] == s[6..];
    assert r[1..6] == t[1..6];
    PayloadFitsLowByte(r, Sum(s[6..]));
    HeaderCarriesOnce(r, Sum(t[1..6]));
  }

  /** A payload sum below 256 is stored as (sum, 0) and read back unchanged. */
  lemma PayloadFitsLowByte(r: seq<Byte>, payload: nat)
    requires |r| >= 7 && Sum(r[6..]) == payload < 256 && r[4] == payload % 256 && r[5] == 0
    ensures ExtendedChecksum16(r).value % 256 == r[4] && ExtendedChecksum16(r).value / 256 == r[5]
  {
  }

  /** A header sum that carries once: incrementing its low byte equals folding it twice. */
  lemma HeaderCarriesOnce(r: seq<Byte>, header: nat)
    requires |r| >= 6 && Sum(r[1..6]) == header && 256 <= header <= 510
    requires r[0] == (header % 256 + 1) % 256
    ensures ExtendedChecksum8(r).value == r[0]
  {
    assert header % 256 == header - 256;
    assert Fold(header) == header - 255;
  }

  /** When the header bytes 1-5 sum to less than 256, the extended path's byte 0 is one more
      than the 8-bit extended checksum of the same frame. */
  lemma SetChecksumOffByOneWithoutCarry(s: seq<Byte>)
    requires |s| >= 7 && CommandTypeField(s[1]) == 15
    requires var r := SetChecksumOf(s); Sum(r[1..6]) < 255
    ensures var r := SetChecksumOf(s);
            ExtendedChecksum8(r).Success? && r[0] as int == ExtendedChecksum8(r).value as int + 1
  {
    var r := SetChecksumOf(s);
    var t := SetChecksum16Of(s);
    assert r == SetChecksum8Of(t, 6);
    assert r[1..6] == t[1..6];
    HeaderWithoutCarry(r, Sum(t[1..6]));
  }

  lemma HeaderWithoutCarry(r: seq<Byte>, header: nat)
    requires |r| >= 7 && Sum(r[1..6]) == header < 255
    requires r[0] == (header % 256 + 1) % 256
    ensures ExtendedChecksum8(r).Success? && r[0] as int == ExtendedChecksum8(r).value as int + 1
  {
    assert Fold(header) == header;
  }

  /** The test vector of TestSetChecksum: the extended path over an all-zero payload. */
  lemma SetChecksumVectorZeroPayload()
    ensures SetChecksumOf([0, 0xF8, 3, 0x0B] + Zeros(8)) == [7, 248, 3, 11] + Zeros(8)
  {
    var s: seq<Byte> := [0, 0xF8, 3, 0x0B] + Zeros(8);
    ExtendedTag();
    assert s[6..] == Zeros(6);
    SumZeros(6);
    SetChecksumClosedForm(s);
    var r := SetChecksumOf(s);
    assert r == [7, 248, 3, 11] + Zeros(8);
  }

  /** The test vector of TestSetChecksum1: a payload summing to 15. */
  lemma SetChecksumVectorPayload15()
    ensures SetChecksumOf([0, 248, 3, 0, 0, 0, 0, 3, 12, 0, 0, 0]) == [11, 248, 3, 0, 15, 0, 0, 3, 12, 0, 0, 0]
  {
    Payload15Frame([0, 248, 3, 0, 0, 0, 0, 3, 12, 0, 0, 0]);
  }

  lemma Payload15Frame(s: seq<Byte>)
    requires s == [0, 248, 3, 0, 0, 0, 0, 3, 12, 0, 0, 0]
    ensures SetChecksumOf(s) == s[0 := 11][4 := 15]
  {
    ExtendedTag();
    assert s[6..] == [0, 3, 12] + Zeros(3);
    PayloadSum15();
    SetChecksumClosedForm(s);
    var r := SetChecksumOf(s);
    assert r[4] == 15 && r[5] == 0;
    assert s[1] as int + s[2] + s[3] + r[4] == 266;
  }

  lemma PayloadSum15()
    ensures Sum([0, 3, 12] + Zeros(3)) == 15
  {
    SumAppend([0, 3, 12], Zeros(3));
    SumZeros(3);
    assert [0, 3, 12][..2] == [0, 3];
    assert [0, 3][..1] == [0];
    assert [0][..0] == [];
  }

  // ---------------------------------------------------------------------------------
  // The 8-byte fixed-point format of the calibration constants
  // ---------------------------------------------------------------------------------

  /** uint8ArrayToFloat64 over the reals: the signed little-endian word at start+4 is the
      integer part and the unsigned word at start, divided by 2^32, the fraction. */
  function Uint8ArrayToFloat64(b: seq<Byte>, start: nat): (v: real)
    requires start + 8 <= |b|
    ensures v.Floor == Signed32(LE32(b, start + 4))
    ensures v - (Signed32(LE32(b, start + 4)) as real) == (LE32(b, start) as real) / 4294967296.0
  {
    var resultDec := LE32(b, start);
    var resultWh := Signed32(LE32(b, start + 4));
    resultWh as real + resultDec as real / 4294967296.0
  }

  /** The fixed-point decoding is injective: the real value determines all eight bytes. */
  lemma FixedPointInjective(a: seq<Byte>, i: nat, b: seq<Byte>, j: nat)
    requires i + 8 <= |a| && j + 8 <= |b|
    requires Uint8ArrayToFloat64(a, i) == Uint8ArrayToFloat64(b, j)
    ensures a[i..i + 8] == b[j..j + 8]
  {
    var wa, wb := LE32(a, i + 4), LE32(b, j + 4);
    assert Signed32(wa) == Signed32(wb);
    assert wa == wb;
    assert LE32(a, i) == LE32(b, j);
    LE32Injective(a, i, b, j);
    LE32Injective(a, i + 4, b, j + 4);
    assert a[i..i + 8] == [a[i], a[i + 1], a[i + 2], a[i + 3], a[i + 4], a[i + 5], a[i + 6], a[i + 7]];
    assert b[j..j + 8] == [b[j], b[j + 1], b[j + 2], b[j + 3], b[j + 4], b[j + 5], b[j + 6], b[j + 7]];
  }

  lemma LE32Injective(a: seq<Byte>, i: nat, b: seq<Byte>, j: nat)
    requires i + 4 <= |a| && j + 4 <= |b|
    requires LE32(a, i) == LE32(b, j)
    ensures a[i] == b[j] && a[i + 1] == b[j + 1] && a[i + 2] == b[j + 2] && a[i + 3] == b[j + 3]
  {
    LE32Digits(a, i);
    LE32Digits(b, j);
  }

  /** The first fixed-point example of TestUint8ArrayToFloat64. */
  lemma FixedPointVectorPositive()
    ensures Uint8ArrayToFloat64([0, 0, 148, 38, 54, 131, 0, 0], 0) == 33590.0 + 647233536.0 / 4294967296.0
  {
  }

  /** The second example: an all-ones integer word is -1. */
  lemma FixedPointVectorNegative()
    ensures Uint8ArrayToFloat64([190, 139, 221, 228, 255, 255, 255, 255], 0) == -1.0 + 3839724478.0 / 4294967296.0
  {
  }
}
