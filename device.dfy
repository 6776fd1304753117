/** The configuration reply parser of u6/device.go: fixed byte offsets of the 38-byte
    ConfigU6 reply mapped to a device description. */
module Device {
  import opened Bytes
  import opened Errors

  datatype DeviceType = U6 | U6Pro | Unknown
  {
    /** The Go DeviceType string. */
    function Name(): string
    {
      match this
      case U6 => "U6"
      case U6Pro => "U6-Pro"
      case Unknown => "Unknown"
    }
  }

  datatype DeviceDesc = DeviceDesc(
    firmwareVersion: string,
    bootloaderVersion: string,
    hardwareVersion: string,
    serialNumber: int,
    productID: int,
    localID: int,
    versionInfo: int,
    deviceType: DeviceType)

  /** The zero value of the Go struct. */
  const EmptyDesc: DeviceDesc := DeviceDesc("", "", "", 0, 0, 0, 0, Unknown)

  // ---------------------------------------------------------------------------------
  // Decimal formatting: `%d` and `%02d`
  // ---------------------------------------------------------------------------------

  predicate IsDigit(c: char)
  {
    '0' <= c <= '9'
  }

  function DigitChar(d: nat): (c: char)
    requires d < 10
    ensures IsDigit(c) && c as int - '0' as int == d
  {
    ('0' as int + d) as char
  }

  /** `%d` of a non-negative number: its decimal digits without leading zeros. */
  function Decimal(n: nat): (s: string)
    ensures |s| > 0 && (forall i :: 0 <= i < |s| ==> IsDigit(s[i]))
    ensures n < 10 <==> |s| == 1
    ensures n == 0 ==> s == "0"
    ensures n > 0 ==> s[0] != '0'
  {
    if n < 10 then [DigitChar(n)] else Decimal(n / 10) + [DigitChar(n % 10)]
  }

  /** `%02d`: the decimal digits, padded with one leading zero below 10. */
  function Decimal2(n: nat): (s: string)
    ensures |s| >= 2 && (forall i :: 0 <= i < |s| ==> IsDigit(s[i]))
    ensures n < 100 <==> |s| == 2
    ensures n < 10 <==> s[0] == '0'
  {
    if n < 10 then "0" + Decimal(n) else Decimal(n)
  }

  /** `%d.%02d` of a (major, minor) pair. */
  function Version(major: Byte, minor: Byte): string
  {
    Decimal(major) + "." + Decimal2(minor)
  }

  /** Reads a string of decimal digits back as a number. */
  function ParseDecimal(s: string): nat
  {
    if |s| == 0 then 0
    else
      var c := s[|s| - 1];
      ParseDecimal(s[..|s| - 1]) * 10 + (if IsDigit(c) then c as int - '0' as int else 0)
  }

  lemma {:induction false} ParseDecimalRoundTrip(n: nat)
    ensures ParseDecimal(Decimal(n)) == n
    decreases n
  {
    if n >= 10 {
      var s := Decimal(n);
      assert s[..|s| - 1] == Decimal(n / 10);
      ParseDecimalRoundTrip(n / 10);
    }
  }

  lemma {:induction false} ParseDecimalLeadingZero(s: string)
    ensures ParseDecimal("0" + s) == ParseDecimal(s)
    decreases |s|
  {
    if |s| == 0 {
      assert ("0" + s)[..0] == [];
    } else {
      assert ("0" + s)[..|"0" + s| - 1] == "0" + s[..|s| - 1];
      ParseDecimalLeadingZero(s[..|s| - 1]);
    }
  }

  /** The position of the first '.' of a string, or its length when there is none. */
  function FirstDot(s: string): (k: nat)
    ensures k <= |s|
  {
    if |s| == 0 then 0 else if s[0] == '.' then 0 else 1 + FirstDot(s[1..])
  }

  lemma {:induction false} FirstDotAfterDigits(p: string, q: string)
    requires forall i :: 0 <= i < |p| ==> IsDigit(p[i])
    ensures FirstDot(p + "." + q) == |p|
    decreases |p|
  {
    if |p| > 0 {
      assert (p + "." + q)[1..] == p[1..] + "." + q;
      FirstDotAfterDigits(p[1..], q);
    }
  }

  /** Splits a `major.minor` version string back into its two numbers. */
  function ParseVersion(v: string): (nat, nat)
  {
    var k := FirstDot(v);
    (ParseDecimal(v[..k]), if k < |v| then ParseDecimal(v[k + 1..]) else 0)
  }

  /** Each version string gives back the two bytes it was formatted from. */
  lemma VersionRoundTrip(major: Byte, minor: Byte)
    ensures ParseVersion(Version(major, minor)) == (major, minor)
  {
    var v := Version(major, minor);
    var p := Decimal(major);
    FirstDotAfterDigits(p, Decimal2(minor));
    assert v[..|p|] == p;
    assert v[|p| + 1..] == Decimal2(minor);
    ParseDecimalRoundTrip(major);
    ParseDecimalRoundTrip(minor);
    if minor < 10 {
      ParseDecimalLeadingZero(Decimal(minor));
    }
  }

  /** The layout `%d.%02d` promises: digits, one dot, digits; the major part has no leading
      zero, and the minor part has exactly two digits below 100 and a leading zero below 10. */
  lemma VersionFormat(major: Byte, minor: Byte)
    ensures var v := Version(major, minor);
            var k := FirstDot(v);
            k < |v| && v[k] == '.' && (forall i :: 0 <= i < |v| && i != k ==> IsDigit(v[i])) &&
            (k > 1 ==> v[0] != '0') && (major < 10 <==> k == 1) &&
            (minor < 100 <==> |v| - (k + 1) == 2) && (minor < 10 <==> v[k + 1] == '0')
  {
    var p, q := Decimal(major), Decimal2(minor);
    FirstDotAfterDigits(p, q);
    var v := Version(major, minor);
    assert v == p + "." + q;
    assert forall i :: |p| < i < |v| ==> v[i] == q[i - |p| - 1];
  }

  // ---------------------------------------------------------------------------------
  // parseConfigBytes
  // ---------------------------------------------------------------------------------

  /** The device type byte 37 announces. */
  function TypeOf(versionInfo: Byte): DeviceType
  {
    if versionInfo == 4 then U6 else if versionInfo == 12 then U6Pro else Unknown
  }

  /** parseConfigBytes. Go indexes byte 37 unconditionally, so a shorter reply would panic;
      a longer one is rejected. */
  function ParseConfigBytes(b: seq<Byte>): (r: Result<DeviceDesc>)
    requires |b| >= 38
    ensures r.Failure? <==> |b| > 38
    ensures r.Failure? ==> r.error == InvalidConfigResponse
    ensures r.Success? ==>
              r.value.firmwareVersion == Version(b[10], b[9]) &&
              r.value.bootloaderVersion == Version(b[12], b[11]) &&
              r.value.hardwareVersion == Version(b[14], b[13])
    ensures r.Success? ==>
              ParseVersion(r.value.firmwareVersion) == (b[10], b[9]) &&
              ParseVersion(r.value.bootloaderVersion) == (b[12], b[11]) &&
              ParseVersion(r.value.hardwareVersion) == (b[14], b[13])
    ensures r.Success? ==>
              r.value.serialNumber == LE32(b, 15) && r.value.productID == LE16(b, 19) &&
              r.value.localID == b[21] && r.value.versionInfo == b[37]
    ensures r.Success? ==>
              (r.value.deviceType == U6 <==> b[37] == 4) &&
              (r.value.deviceType == U6Pro <==> b[37] == 12)
  {
    if |b| > 38 then Failure(InvalidConfigResponse)
    else
      VersionRoundTrip(b[10], b[9]);
      VersionRoundTrip(b[12], b[11]);
      VersionRoundTrip(b[14], b[13]);
      Success(DeviceDesc(
        Version(b[10], b[9]),
        Version(b[12], b[11]),
        Version(b[14], b[13]),
        LE32(b, 15),
        LE16(b, 19),
        b[21],
        b[37],
        TypeOf(b[37])))
  }

  /** Only bytes 9-21 and 37 of a config reply affect the description. */
  lemma ParseConfigReadsOnly(b: seq<Byte>, c: seq<Byte>)
    requires |b| == 38 && |c| == 38
    requires b[9..22] == c[9..22] && b[37] == c[37]
    ensures ParseConfigBytes(b) == ParseConfigBytes(c)
  {
    forall i | 9 <= i < 22
      ensures b[i] == c[i]
    {
      assert b[i] == b[9..22][i - 9] && c[i] == c[9..22][i - 9];
    }
    assert LE32(b, 15) == LE32(c, 15) && LE16(b, 19) == LE16(c, 19);
  }
}
