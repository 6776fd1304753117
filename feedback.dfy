/** The feedback command codec of u6/feedback.go.

    The five command structs form a closed variant set: `Request` holds the exported fields a
    caller fills in, and a `Command` object additionally holds the unexported fields that
    ReadFrom and SetCalibrationInfo overwrite in place. A `Reader` is the read side of the
    `bytes.Buffer` over a response payload that all commands of one batch share. */
module Feedback {
  import opened Bytes
  import opened Errors
  import opened Calibration

  datatype Request =
    | PortDirWrite(fioWriteMask: Byte, eioWriteMask: Byte, cioWriteMask: Byte,
                   fioDirection: Byte, eioDirection: Byte, cioDirection: Byte)
    | AIN24(positiveChannel: int, resolutionIndex: int, gainIndex: int, settlingFactor: int, differential: bool)
    | BitStateRead(bitNumber: Byte)
    | BitDirWrite(bitNumber: Byte, direction: Byte)
    | BitStateWrite(bitNumber: Byte, state: Byte)

  /** The IOType byte that opens each encoding. */
  function Opcode(r: Request): Byte
  {
    match r
    case PortDirWrite(_, _, _, _, _, _) => 29
    case AIN24(_, _, _, _, _) => 2
    case BitStateRead(_) => 10
    case BitDirWrite(_, _) => 13
    case BitStateWrite(_, _) => 11
  }

  /** The encoded length that an IOType byte announces, 0 for a byte that is no IOType. */
  function CommandLength(opcode: Byte): nat
  {
    if opcode == 29 then 7
    else if opcode == 2 then 4
    else if opcode == 10 || opcode == 11 || opcode == 13 then 2
    else 0
  }

  /** WriteTo of each variant. Go's `byte(x)` of an `int` keeps x modulo 256 and
      `uint(x) & 0x0F` keeps x modulo 16 (Dafny's `%` is Euclidean, as two's complement
      truncation is); the byte additions wrap. */
  function Encode(r: Request): (b: seq<Byte>)
    ensures |b| > 0 && b[0] == Opcode(r) && |b| == CommandLength(b[0])
  {
    match r
    case PortDirWrite(fm, em, cm, fd, ed, cd) => [29, fm, em, cm, fd, ed, cd]
    case AIN24(ch, res, gain, settling, diff) =>
      var b2 := res % 16;
      var b2' := ((gain % 16) * 16 + b2) % 256;
      var b3 := settling % 256;
      [2, ch % 256, b2', if diff then (b3 + 128) % 256 else b3]
    case BitStateRead(bit) => [10, bit]
    case BitDirWrite(bit, dir) => [13, (bit as int + dir) % 256]
    case BitStateWrite(bit, st) => [11, (bit as int + st) % 256]
  }

  /** ResponseSize: the bytes each command declares for its reply. */
  function ResponseSize(r: Request): nat
  {
    match r
    case PortDirWrite(_, _, _, _, _, _) => 0
    case AIN24(_, _, _, _, _) => 3
    case BitStateRead(_) => 1
    case BitDirWrite(_, _) => 1
    case BitStateWrite(_, _) => 0
  }

  /** The AIN24 encoding packs the resolution index into the low nibble and the gain index
      into the high nibble of byte 2, and the differential flag into bit 7 of byte 3. */
  lemma AIN24Fields(ch: int, res: int, gain: int, settling: int, diff: bool)
    ensures var b := Encode(AIN24(ch, res, gain, settling, diff));
            b[1] == ch % 256 && b[2] % 16 == res % 16 && b[2] / 16 == gain % 16 &&
            b[3] == (settling + (if diff then 128 else 0)) % 256
  {
    var b := Encode(AIN24(ch, res, gain, settling, diff));
    NibbleSplit(gain % 16, res % 16);
    assert b[2] == (gain % 16) * 16 + res % 16;
  }

  lemma NibbleSplit(hi: int, lo: int)
    requires 0 <= hi < 16 && 0 <= lo < 16
    ensures (hi * 16 + lo) % 256 == hi * 16 + lo
    ensures (hi * 16 + lo) % 16 == lo && (hi * 16 + lo) / 16 == hi
  {
  }

  /** A bit command's byte 1 carries the bit number in bits 0-6 and the flag in bit 7, as
      long as the bit number is one of the 20 digital lines and the flag is 0 or 128. */
  predicate IsFlag(f: Byte)
  {
    f == 0 || f == 128
  }

  lemma BitFields(bit: Byte, flag: Byte)
    requires bit <= 19 && IsFlag(flag)
    ensures var b := Encode(BitDirWrite(bit, flag)); b[1] % 128 == bit && (b[1] / 128 == 1 <==> flag == 128)
    ensures var b := Encode(BitStateWrite(bit, flag)); b[1] % 128 == bit && (b[1] / 128 == 1 <==> flag == 128)
  {
  }

  /** A command whose fields fit their wire positions, so that its encoding loses nothing. */
  predicate WireValid(r: Request)
  {
    match r
    case PortDirWrite(_, _, _, _, _, _) => true
    case AIN24(ch, res, gain, settling, _) =>
      0 <= ch < 256 && 0 <= res < 16 && 0 <= gain < 16 && 0 <= settling < 128
    case BitStateRead(_) => true
    case BitDirWrite(bit, dir) => bit < 128 && IsFlag(dir)
    case BitStateWrite(bit, st) => bit < 128 && IsFlag(st)
  }

  /** How the device reads one command back from its encoding. */
  function DecodeCommand(b: seq<Byte>): Request
    requires |b| > 0 && CommandLength(b[0]) > 0 && |b| == CommandLength(b[0])
  {
    if b[0] == 29 then PortDirWrite(b[1], b[2], b[3], b[4], b[5], b[6])
    else if b[0] == 2 then AIN24(b[1], b[2] % 16, b[2] / 16, b[3] % 128, b[3] >= 128)
    else if b[0] == 10 then BitStateRead(b[1])
    else if b[0] == 13 then BitDirWrite(b[1] % 128, (b[1] / 128) * 128)
    else BitStateWrite(b[1] % 128, (b[1] / 128) * 128)
  }

  lemma {:induction false} DecodeEncode(r: Request)
    requires WireValid(r)
    ensures DecodeCommand(Encode(r)) == r
  {
    match r
    case AIN24(ch, res, gain, settling, diff) =>
      AIN24Fields(ch, res, gain, settling, diff);
      var b := Encode(r);
      assert b[1] == ch && b[2] % 16 == res && b[2] / 16 == gain;
      assert b[3] == settling + (if diff then 128 else 0);
      assert b[3] % 128 == settling && (b[3] >= 128 <==> diff);
    case BitDirWrite(bit, dir) =>
      FlagSplit(bit, dir);
    case BitStateWrite(bit, st) =>
      FlagSplit(bit, st);
    case _ =>
  }

  lemma FlagSplit(bit: Byte, flag: Byte)
    requires bit < 128 && IsFlag(flag)
    ensures (bit as int + flag) % 256 == bit as int + flag
    ensures (bit as int + flag) % 128 == bit && ((bit as int + flag) / 128) * 128 == flag
  {
  }

  /** The concatenated encodings of a batch, in submission order. */
  function EncodeAll(reqs: seq<Request>): seq<Byte>
  {
    if |reqs| == 0 then [] else Encode(reqs[0]) + EncodeAll(reqs[1..])
  }

  lemma {:induction false} EncodeAllSnoc(reqs: seq<Request>, r: Request)
    ensures EncodeAll(reqs + [r]) == EncodeAll(reqs) + Encode(r)
    decreases |reqs|
  {
    if |reqs| == 0 {
      assert reqs + [r] == [r];
      assert EncodeAll([r]) == Encode(r) + EncodeAll([]);
    } else {
      assert (reqs + [r])[1..] == reqs[1..] + [r];
      EncodeAllSnoc(reqs[1..], r);
    }
  }

  /** Splits a request payload back into commands; a single trailing 0 byte is the pad that
      makes the payload length even (no command starts with 0). */
  function ParseCommands(b: seq<Byte>): Option<seq<Request>>
    decreases |b|
  {
    if |b| == 0 || b == [0] then Some([])
    else
      var n := CommandLength(b[0]);
      if n == 0 || |b| < n then None
      else
        match ParseCommands(b[n..])
        case None => None
        case Some(rest) => Some([DecodeCommand(b[..n])] + rest)
  }

  /** The device recovers the submitted commands from the concatenated encodings, with or
      without the pad byte. */
  lemma {:induction false} ParseEncodeAll(reqs: seq<Request>, pad: seq<Byte>)
    requires forall i :: 0 <= i < |reqs| ==> WireValid(reqs[i])
    requires pad == [] || pad == [0]
    ensures ParseCommands(EncodeAll(reqs) + pad) == Some(reqs)
    decreases |reqs|
  {
    if |reqs| == 0 {
      assert EncodeAll(reqs) + pad == pad;
    } else {
      var e := Encode(reqs[0]);
      var b := EncodeAll(reqs) + pad;
      assert b == e + (EncodeAll(reqs[1..]) + pad);
      assert b[..|e|] == e;
      assert b[|e|..] == EncodeAll(reqs[1..]) + pad;
      ParseEncodeAll(reqs[1..], pad);
      DecodeEncode(reqs[0]);
      assert [reqs[0]] + reqs[1..] == reqs;
    }
  }

  // ---------------------------------------------------------------------------------
  // Reading replies
  // ---------------------------------------------------------------------------------

  /** The read side of a `bytes.Buffer` over a response payload. */
  class Reader {
    const data: seq<Byte>
    var off: nat

    ghost predicate Valid()
      reads this
    {
      off <= |data|
    }

    function Remaining(): seq<Byte>
      reads this
      requires Valid()
    {
      data[off..]
    }

    constructor (data: seq<Byte>)
      ensures this.data == data && off == 0 && Valid()
    {
      this.data := data;
      off := 0;
    }

    /** bytes.Buffer.ReadByte: the next byte, or io.EOF when none is left. */
    method ReadByte() returns (b: Byte, err: Option<Error>)
      requires Valid()
      modifies this
      ensures Valid()
      ensures old(off) < |data| ==> b == data[old(off)] && err == None && off == old(off) + 1
      ensures old(off) == |data| ==> b == 0 && err == Some(EndOfInput) && off == old(off)
    {
      if off == |data| {
        return 0, Some(EndOfInput);
      }
      b := data[off];
      off := off + 1;
      err := None;
    }

    /** bytes.Buffer.Read into an n-byte buffer: copies as much as is left, up to n bytes;
        io.EOF when nothing is left and n > 0. */
    method Read(n: nat) returns (p: seq<Byte>, err: Option<Error>)
      requires Valid()
      modifies this
      ensures Valid()
      ensures old(off) == |data| ==> p == [] && off == old(off) &&
                                     err == (if n == 0 then None else Some(EndOfInput))
      ensures old(off) < |data| ==> p == Prefix(old(Remaining()), n) && err == None &&
                                    off == old(off) + |p|
    {
      if off == |data| {
        return [], if n == 0 then None else Some(EndOfInput);
      }
      p := Prefix(data[off..], n);
      off := off + |p|;
      err := None;
    }
  }

  /** How many bytes ReadFrom takes when `avail` bytes are left. AIN24 reads into a 4-byte
      buffer, so it takes up to 4 although it declares 3. */
  function Consumed(r: Request, avail: nat): nat
  {
    match r
    case AIN24(_, _, _, _, _) => if avail < 4 then avail else 4
    case BitStateRead(_) => if avail == 0 then 0 else 1
    case BitDirWrite(_, _) => if avail == 0 then 0 else 1
    case _ => 0
  }

  /** ReadFrom reports io.EOF exactly for the reading commands when nothing is left. */
  predicate ReadFails(r: Request, avail: nat)
  {
    avail == 0 && (r.AIN24? || r.BitStateRead? || r.BitDirWrite?)
  }

  /** The `state` field after ReadFrom: the next byte, or 0 when the read hit io.EOF. */
  function StateAfterRead(r: Request, rest: seq<Byte>, state: Byte): Byte
  {
    if r.BitStateRead? || r.BitDirWrite? then (if |rest| == 0 then 0 else rest[0]) else state
  }

  /** The AIN24 `responseBuffer` after ReadFrom: a fresh 4-byte buffer with the bytes read. */
  function BufferAfterRead(r: Request, rest: seq<Byte>, buffer: seq<Byte>): seq<Byte>
  {
    if r.AIN24? then Prefix(rest, 4) + Zeros(4 - |Prefix(rest, 4)|) else buffer
  }

  /** Declared response size and bytes actually consumed agree for every command except
      AIN24, which takes one byte more whenever four are available. */
  lemma ConsumedVersusResponseSize(r: Request, avail: nat)
    requires avail >= ResponseSize(r) + (if r.AIN24? then 1 else 0)
    ensures Consumed(r, avail) == ResponseSize(r) + (if r.AIN24? then 1 else 0)
    ensures !ReadFails(r, avail)
  {
  }

  class Command {
    const request: Request
    var state: Byte                // FeedbackBitStateRead.state, FeedbackBitDirWrite.state
    var responseBuffer: seq<Byte>  // FeedbackAIN24.responseBuffer (nil until read)
    var calInfo: CalibrationInfo   // FeedbackAIN24.calInfo, FeedbackPortDirWrite.calInfo

    constructor (request: Request)
      ensures this.request == request && state == 0 && responseBuffer == [] && calInfo == ZeroCalibration
    {
      this.request := request;
      state := 0;
      responseBuffer := [];
      calInfo := ZeroCalibration;
    }

    /** SetCalibrationInfo: only AIN24 and PortDirWrite keep the record; the others ignore it. */
    method SetCalibrationInfo(info: CalibrationInfo)
      modifies this
      ensures calInfo == (if request.AIN24? || request.PortDirWrite? then info else old(calInfo))
      ensures state == old(state) && responseBuffer == old(responseBuffer)
    {
      if request.AIN24? || request.PortDirWrite? {
        calInfo := info;
      }
    }

    /** ReadFrom of each variant, taking its reply from the shared reader. */
    method ReadFrom(r: Reader) returns (n: nat, err: Option<Error>)
      requires r.Valid()
      modifies this, r
      ensures r.Valid() && n == Consumed(request, |old(r.Remaining())|) && r.off == old(r.off) + n
      ensures err == (if ReadFails(request, |old(r.Remaining())|) then Some(EndOfInput) else None)
      ensures state == StateAfterRead(request, old(r.Remaining()), old(state))
      ensures responseBuffer == BufferAfterRead(request, old(r.Remaining()), old(responseBuffer))
      ensures calInfo == old(calInfo)
    {
      match request
      case AIN24(_, _, _, _, _) =>
        var p;
        p, err := r.Read(4);
        responseBuffer := p + Zeros(4 - |p|);
        n := |p|;
      case BitStateRead(_) =>
        var p;
        p, err := r.Read(1);
        state := if |p| == 0 then 0 else p[0];
        n := |p|;
      case BitDirWrite(_, _) =>
        var p;
        p, err := r.Read(1);
        state := if |p| == 0 then 0 else p[0];
        n := |p|;
      case _ =>
        n, err := 0, None;
    }

    /** GetState of a BitStateRead: the line is high exactly when the reply byte is 1. */
    function GetState(): (high: bool)
      reads this
      requires request.BitStateRead?
      ensures high <==> state == 1
    {
      state == 1
    }

    /** GetVoltage of an AIN24: the 24-bit little-endian reply converted with the
        high-resolution rule. Indexing a reply buffer that was never read panics in Go. */
    function GetVoltage(): (v: Result<real>)
      reads this
      requires request.AIN24? && |responseBuffer| >= 3
      requires request.gainIndex > 4 || IndicesInRange(request.resolutionIndex, request.gainIndex)
      ensures v == GetCalibratedAIN(calInfo, request.resolutionIndex, request.gainIndex, true,
                                    responseBuffer[0] as int + 256 * (responseBuffer[1] as int) +
                                    65536 * (responseBuffer[2] as int))
    {
      GetCalibratedAIN(calInfo, request.resolutionIndex, request.gainIndex, true,
                       responseBuffer[0] as int + responseBuffer[1] as int * 256 + responseBuffer[2] as int * 65536)
    }
  }

  // ---------------------------------------------------------------------------------
  // Calibrated analog conversion (getCalibratedAIN)
  // ---------------------------------------------------------------------------------

  /** Resolution indices above 8 use the high-resolution block at 24. */
  function IndexAdjust(res: int): nat
  {
    if res > 8 then 24 else 0
  }

  function SlopeIndex(res: int, gain: int): int { IndexAdjust(res) + gain * 2 }
  function NegSlopeIndex(res: int, gain: int): int { IndexAdjust(res) + gain * 2 + 8 }
  function CenterIndex(res: int, gain: int): int { IndexAdjust(res) + gain * 2 + 9 }

  /** All three constants the conversion may index exist (Go panics otherwise). */
  predicate IndicesInRange(res: int, gain: int)
  {
    0 <= SlopeIndex(res, gain) && CenterIndex(res, gain) < 40
  }

  /** The raw code as a real, divided by 256 for a high-resolution reading. */
  function AINValue(raw: nat, hiRes: bool): real
  {
    if hiRes then raw as real / 256.0 else raw as real
  }

  /** The slope, negative slope and center constants used for one reading. */
  function Slope(cal: CalibrationInfo, res: int, gain: int): real
    requires IndicesInRange(res, gain)
  {
    cal.calConstants[SlopeIndex(res, gain)]
  }

  function NegSlope(cal: CalibrationInfo, res: int, gain: int): real
    requires IndicesInRange(res, gain)
  {
    cal.calConstants[NegSlopeIndex(res, gain)]
  }

  function Center(cal: CalibrationInfo, res: int, gain: int): real
    requires IndicesInRange(res, gain)
  {
    cal.calConstants[CenterIndex(res, gain)]
  }

  /** The two-sided linear conversion around the center point. */
  function Piecewise(x: real, center: real, negSlope: real, slope: real): real
  {
    if x < center then (center - x) * negSlope else (x - center) * slope
  }

  function GetCalibratedAIN(cal: CalibrationInfo, res: int, gain: int, hiRes: bool, raw: nat): (v: Result<real>)
    requires gain > 4 || IndicesInRange(res, gain)
    ensures v.Failure? <==> gain > 4
    ensures v.Failure? ==> v.error == InvalidGainIndex
    ensures v.Success? ==> v.value == Piecewise(AINValue(raw, hiRes), Center(cal, res, gain),
                                                NegSlope(cal, res, gain), Slope(cal, res, gain))
  {
    var value := AINValue(raw, hiRes);
    if gain > 4 then Failure(InvalidGainIndex)
    else
      var indexAdjust := IndexAdjust(res);
      var c := cal.calConstants[indexAdjust + gain * 2 + 9];
      if value < c then Success((c - value) * cal.calConstants[indexAdjust + gain * 2 + 8])
      else Success((value - c) * cal.calConstants[indexAdjust + gain * 2])
  }

  /** Gains 0-3 always index inside the 40 constants; gain 4 does only for the base
      resolutions (a resolution index above 8 reaches index 41). */
  lemma CalibrationIndexRange(res: int, gain: int)
    ensures 0 <= gain <= 3 ==> IndicesInRange(res, gain)
    ensures gain == 4 ==> (IndicesInRange(res, gain) <==> res <= 8)
    ensures gain == 4 && res > 8 ==> CenterIndex(res, gain) == 41
  {
  }

  /** With the device's sign convention (negative slope <= 0 <= slope) the conversion is
      monotonic in the raw code. */
  lemma CalibratedAINMonotonic(cal: CalibrationInfo, res: int, gain: int, hiRes: bool, raw1: nat, raw2: nat)
    requires 0 <= gain <= 4 && IndicesInRange(res, gain)
    requires NegSlope(cal, res, gain) <= 0.0 <= Slope(cal, res, gain)
    requires raw1 <= raw2
    ensures GetCalibratedAIN(cal, res, gain, hiRes, raw1).value <= GetCalibratedAIN(cal, res, gain, hiRes, raw2).value
  {
    var x1, x2 := AINValue(raw1, hiRes), AINValue(raw2, hiRes);
    assert x1 <= x2 by {
      if hiRes {
        assert raw1 as real / 256.0 <= raw2 as real / 256.0;
      }
    }
    PiecewiseMonotonic(x1, x2, Center(cal, res, gain), NegSlope(cal, res, gain), Slope(cal, res, gain));
  }

  lemma PiecewiseMonotonic(x1: real, x2: real, c: real, n: real, s: real)
    requires x1 <= x2 && n <= 0.0 <= s
    ensures Piecewise(x1, c, n, s) <= Piecewise(x2, c, n, s)
  {
    if x2 < c {
      assert (c - x1) * n <= (c - x2) * n;
    } else if x1 >= c {
      assert (x1 - c) * s <= (x2 - c) * s;
    } else {
      assert (c - x1) * n <= 0.0 <= (x2 - c) * s;
    }
  }

  /** The sign of the result changes exactly at the center point. */
  lemma CalibratedAINSign(cal: CalibrationInfo, res: int, gain: int, hiRes: bool, raw: nat)
    requires 0 <= gain <= 4 && IndicesInRange(res, gain)
    requires NegSlope(cal, res, gain) < 0.0 < Slope(cal, res, gain)
    ensures var v := GetCalibratedAIN(cal, res, gain, hiRes, raw).value;
            var x := AINValue(raw, hiRes);
            (v < 0.0 <==> x < Center(cal, res, gain)) && (v == 0.0 <==> x == Center(cal, res, gain))
  {
    var c, n, s := Center(cal, res, gain), NegSlope(cal, res, gain), Slope(cal, res, gain);
    var x := AINValue(raw, hiRes);
    if x < c {
      assert (c - x) * n < 0.0;
    } else if x > c {
      assert (x - c) * s > 0.0;
    }
  }
}
