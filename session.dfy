/** The command-response layer of u6/u6.go: the validator of ConfigU6-style replies, the
    connection set-up exchange, the calibration-memory block loop and the Feedback
    multiplexer, over the transport model of one opened U6. */
module Session {
  import opened Bytes
  import opened Errors
  import opened Utils
  import opened Calibration
  import opened Feedback
  import opened Device
  import Transport

  // ---------------------------------------------------------------------------------
  // validateCommandResponse
  // ---------------------------------------------------------------------------------

  /** validateCommandResponse: the checks on a ConfigU6 reply, in the order Go makes them. */
  function ValidateCommandResponse(b: seq<Byte>): Option<Error>
  {
    if |b| < 7 then Some(ResponseTooShort)
    else if b[0] == 0xB8 && b[1] == 0xB8 then Some(InvalidChecksumResponse)
    else if b[1] != 0xF8 || b[2] != 0x10 || b[3] != 0x08 then Some(InvalidResponseHeader)
    else if b[6] != 0 then Some(LabJackErrorCode(b[6]))
    else
      var c16 := ExtendedChecksum16(b).value;
      if c16 / 256 % 256 != b[5] then Some(InvalidChecksum)
      else if c16 % 256 != b[4] then Some(InvalidChecksum)
      else if ExtendedChecksum8(b).value != b[0] then Some(InvalidChecksum)
      else None
  }

  /** A well-formed ConfigU6 reply: the 0xF8 0x10 0x08 header, error byte 0 and both
      extended checksums in place. */
  predicate ConfigReplyWellFormed(b: seq<Byte>)
  {
    |b| >= 7 && b[1] == 0xF8 && b[2] == 0x10 && b[3] == 0x08 && b[6] == 0 &&
    ExtendedChecksum16(b).value == LE16(b, 4) && ExtendedChecksum8(b).value == b[0]
  }

  /** The validator accepts exactly the well-formed replies, and each rejection names the
      reason in the order of the checks. */
  lemma ValidateAccepts(b: seq<Byte>)
    ensures ValidateCommandResponse(b) == None <==> ConfigReplyWellFormed(b)
    ensures |b| < 7 ==> ValidateCommandResponse(b) == Some(ResponseTooShort)
    ensures |b| >= 7 && b[0] == 0xB8 && b[1] == 0xB8 ==> ValidateCommandResponse(b) == Some(InvalidChecksumResponse)
    ensures ValidateCommandResponse(b).Some? ==>
              ValidateCommandResponse(b).value in
                {ResponseTooShort, InvalidChecksumResponse, InvalidResponseHeader, InvalidChecksum} ||
              (|b| >= 7 && ValidateCommandResponse(b).value == LabJackErrorCode(b[6]) && b[6] != 0)
  {
    if |b| >= 7 {
      var c16 := ExtendedChecksum16(b).value;
      WordBytes(c16, b[4], b[5]);
    }
  }

  /** Trailing zero bytes change no checksum, so validating a reply inside a larger zeroed
      buffer gives the same verdict as validating the reply alone. */
  lemma ValidateIgnoresZeroTail(b: seq<Byte>, n: nat)
    requires |b| >= 7
    ensures ValidateCommandResponse(b + Zeros(n)) == ValidateCommandResponse(b)
  {
    var c := b + Zeros(n);
    assert c[6..] == b[6..] + Zeros(n);
    SumAppend(b[6..], Zeros(n));
    SumZeros(n);
    assert ExtendedChecksum16(c).value == ExtendedChecksum16(b).value;
    assert c[..7] == b[..7];
    assert c[1..6] == b[1..6];
    ExtendedChecksum8OnlyHeader(b, c);
  }

  // ---------------------------------------------------------------------------------
  // The ConfigU6 exchange (initConnection, and the first half of getCalibrationInfo)
  // ---------------------------------------------------------------------------------

  /** The 26-byte ConfigU6 request before its checksums. */
  const ConfigTemplate: seq<Byte> := [0, 0xF8, 0x0A, 0x08] + Zeros(22)

  /** The ConfigU6 request on the wire: checksum byte 0 = 11 (0xF8 + 0x0A + 0x08 folded)
      and both payload checksum bytes 0. */
  const ConfigRequest: seq<Byte> := [11, 0xF8, 0x0A, 0x08] + Zeros(22)

  /** extendedChecksum completes the template to exactly that request. */
  lemma ConfigRequestBytes()
    ensures ExtendedChecksumOf(ConfigTemplate) == ConfigRequest
  {
    ConfigTemplateChecksum(ConfigTemplate);
  }

  lemma ConfigTemplateChecksum(s: seq<Byte>)
    requires s == ConfigTemplate
    ensures ExtendedChecksumOf(s) == ConfigRequest
  {
    ConfigTemplateSums(s);
    ExtendedChecksumNoPayload(s, 266);
    FoldOf266();
    assert ConfigRequest == s[0 := 11];
  }

  lemma ConfigTemplateSums(s: seq<Byte>)
    requires s == ConfigTemplate
    ensures |s| == 26 && Sum(s[6..]) == 0 && s[4] == 0 && s[5] == 0 && Sum(s[1..6]) == 266
  {
    assert s[6..] == Zeros(20);
    SumZeros(20);
    assert s[1..6] == [0xF8, 0x0A, 0x08, 0, 0];
    SumOfFive(s[1..6]);
  }

  lemma FoldOf266()
    ensures Fold(Fold(266)) == 11
  {
    assert Fold(266) == 11 by { assert 266 % 256 == 10 && 266 / 256 == 1; }
  }

  /** extendedChecksum over a frame whose payload and checksum bytes are all 0: only byte 0
      changes, to the folded header sum. */
  lemma ExtendedChecksumNoPayload(s: seq<Byte>, header: nat)
    requires |s| >= 7 && Sum(s[6..]) == 0 && s[4] == 0 && s[5] == 0 && Sum(s[1..6]) == header
    ensures ExtendedChecksum8(s).Success? && ExtendedChecksum8(s).value == Fold(Fold(header))
    ensures ExtendedChecksumOf(s) == s[0 := ExtendedChecksum8(s).value]
  {
    var r := ExtendedChecksumOf(s);
    assert ExtendedChecksum16(s).value == 0;
    assert r == s[4 := 0][5 := 0][0 := ExtendedChecksum8(s).value];
    assert s[4 := 0][5 := 0] == s;
  }

  /** The reply to ConfigU6 as a read into a 38-byte buffer delivers it: a transfer error,
      a short read, or the validator's verdict. */
  function ConfigReply(replies: seq<seq<Byte>>): (r: Result<seq<Byte>>)
    ensures r.Success? ==> |r.value| == 38 && ConfigReplyWellFormed(r.value)
  {
    if |replies| == 0 then Failure(TransportError)
    else
      var p := Prefix(replies[0], 38);
      if |p| != 38 then Failure(EndpointRecvError)
      else
        ValidateAccepts(p);
        match ValidateCommandResponse(p)
        case Some(e) => Failure(e)
        case None => Success(p)
  }

  /** The description initConnection stores, or its error. */
  function InitOutcome(replies: seq<seq<Byte>>): Result<DeviceDesc>
  {
    match ConfigReply(replies)
    case Failure(e) => Failure(e)
    case Success(p) => ParseConfigBytes(p)
  }

  /** The replies left after one read. */
  function Rest(replies: seq<seq<Byte>>): seq<seq<Byte>>
  {
    if |replies| == 0 then [] else replies[1..]
  }

  /** initConnection succeeds exactly when the reply is a well-formed 38-byte reply (after
      cutting it to the buffer), and then describes the device from that reply. */
  lemma InitOutcomeSpec(replies: seq<seq<Byte>>)
    ensures InitOutcome(replies).Success? <==>
              |replies| > 0 && |replies[0]| >= 38 && ConfigReplyWellFormed(replies[0][..38])
    ensures InitOutcome(replies).Success? ==>
              InitOutcome(replies) == ParseConfigBytes(replies[0][..38]) &&
              InitOutcome(replies).value.serialNumber == LE32(replies[0], 15) &&
              InitOutcome(replies).value.productID == LE16(replies[0], 19) &&
              InitOutcome(replies).value.localID == replies[0][21]
  {
    if |replies| > 0 && |replies[0]| >= 38 {
      ValidateAccepts(replies[0][..38]);
    }
  }

  // ---------------------------------------------------------------------------------
  // The calibration memory blocks (getCalibrationInfo)
  // ---------------------------------------------------------------------------------

  /** The ReadMem request for calibration block i as setChecksum completes it. */
  function CalBlockRequest(i: nat): seq<Byte>
    requires i < 10
  {
    [39 + i, 0xF8, 0x01, 0x2D, i, 0, 0, i]
  }

  /** The request the loop sends for block i does not depend on what the reused buffer held:
      setChecksum overwrites bytes 0, 4 and 5 and the loop sets the others. */
  lemma CalBlockRequestIndependent(s: seq<Byte>, i: nat)
    requires |s| == 8 && i < 10
    requires s[1] == 0xF8 && s[2] == 0x01 && s[3] == 0x2D && s[6] == 0 && s[7] == i
    ensures SetChecksumOf(s) == CalBlockRequest(i)
  {
    SetChecksumExtendedFrame(s);
    CalBlockBytes(s, SetChecksumOf(s), i);
  }

  lemma CalBlockBytes(s: seq<Byte>, r: seq<Byte>, i: nat)
    requires |s| == 8 && i < 10
    requires s[1] == 0xF8 && s[2] == 0x01 && s[3] == 0x2D && s[6] == 0 && s[7] == i
    requires |r| == 8 && r[4] == Sum(s[6..]) % 256 && r[5] == 0
    requires r[0] == ((0xF8 + s[2] as int + s[3] as int + r[4] as int) % 256 + 1) % 256
    requires r[1..4] == s[1..4] && r[6..] == s[6..]
    ensures r == CalBlockRequest(i)
  {
    assert s[6..][0] == 0 && s[6..][1] == i;
    SumOfPair(s[6..]);
    assert r[4] == i;
    assert r[0] == 39 + i;
    assert r == [r[0], s[1], s[2], s[3], r[4], r[5], s[6], s[7]];
  }

  lemma SumOfPair(t: seq<Byte>)
    requires |t| == 2
    ensures Sum(t) == t[0] as int + t[1]
  {
    assert t[..|t| - 1] == t[..1] && t[|t| - 1] == t[1];
    assert t[..1][..0] == [];
    assert Sum(t[..1]) == t[0];
  }

  /** The `CalibrationInfo.HiResolution` test `(b & 8) == 8`: bit 3 of the byte. */
  function Bit3(b: Byte): bool
  {
    (b / 8) % 2 == 1
  }

  /** Masking bit 3 is testing the remainder of division by 8 for its parity. */
  lemma MaskBit3(x: bv8)
    ensures (x & 8 == 8) <==> (x / 8) % 2 == 1
  {
  }

  /** The checks on the receive buffer after block i's read of n bytes, in order: a
      bad-checksum echo (even in a short read), the length, then the ReadMem header. */
  function BlockError(buf: seq<Byte>, n: nat): Option<Error>
    requires |buf| == 64
  {
    if buf[0] == 0xB8 && buf[1] == 0xB8 then Some(InvalidChecksumResponse)
    else if n != 40 then Some(EndpointRecvError)
    else if buf[1] != 0xF8 || buf[2] != 0x11 || buf[3] != 0x2D then Some(InvalidResponseHeader)
    else None
  }

  /** The four constants of one block: the 8-byte groups from byte 8 on. */
  function BlockConstants(buf: seq<Byte>): (c: seq<real>)
    requires |buf| >= 40
    ensures |c| == 4
  {
    var d := buf[8..];
    [Uint8ArrayToFloat64(d, 0), Uint8ArrayToFloat64(d, 8), Uint8ArrayToFloat64(d, 16), Uint8ArrayToFloat64(d, 24)]
  }

  /** The outcome of a sequence of exchanges: the result, the frames written and the
      replies the device still holds. */
  datatype Outcome<T> = Outcome(result: Result<T>, sent: seq<seq<Byte>>, left: seq<seq<Byte>>)

  /** Blocks i..9 of the loop, from the receive buffer `buf` and the constants so far. A read
      only overwrites the bytes it delivers, so a short read leaves older bytes in place. */
  function ReadBlocks(i: nat, buf: seq<Byte>, replies: seq<seq<Byte>>, consts: seq<real>): (out: Outcome<seq<real>>)
    requires i <= 10 && |buf| == 64 && |consts| == 4 * i
    ensures out.result.Success? ==> |out.result.value| == 40
    decreases 10 - i
  {
    if i == 10 then Outcome(Success(consts), [], replies)
    else if |replies| == 0 then Outcome(Failure(TransportError), [CalBlockRequest(i)], [])
    else
      var p := Prefix(replies[0], 40);
      var b := p + buf[|p|..];
      match BlockError(b, |p|)
      case Some(e) => Outcome(Failure(e), [CalBlockRequest(i)], replies[1..])
      case None =>
        var rest := ReadBlocks(i + 1, b, replies[1..], consts + BlockConstants(b));
        Outcome(rest.result, [CalBlockRequest(i)] + rest.sent, rest.left)
  }

  /** getCalibrationInfo as a whole: the ConfigU6 exchange into a 64-byte zeroed buffer,
      then the ten blocks. */
  function CalibrationOutcome(replies: seq<seq<Byte>>): Outcome<CalibrationInfo>
  {
    if |replies| == 0 then Outcome(Failure(TransportError), [ConfigRequest], [])
    else
      var p := Prefix(replies[0], 38);
      if |p| != 38 then Outcome(Failure(EndpointRecvError), [ConfigRequest], replies[1..])
      else
        var buf := p + Zeros(26);
        match ValidateCommandResponse(buf)
        case Some(e) => Outcome(Failure(e), [ConfigRequest], replies[1..])
        case None =>
          var run := ReadBlocks(0, buf, replies[1..], []);
          var result := match run.result
            case Failure(e) => Failure(e)
            case Success(c) => Success(CalibrationInfo(6, Bit3(p[37]), c));
          Outcome(result, [ConfigRequest] + run.sent, run.left)
  }

  /** A block that passes its checks is a full 40-byte ReadMem reply; its four constants
      come from its own bytes 8 to 39, whatever the buffer held before. */
  lemma BlockContents(buf: seq<Byte>, reply: seq<Byte>)
    requires |buf| == 64
    requires var p := Prefix(reply, 40); BlockError(p + buf[|p|..], |p|).None?
    ensures |reply| >= 40 && reply[1] == 0xF8 && reply[2] == 0x11 && reply[3] == 0x2D
    ensures var p := Prefix(reply, 40);
            forall m :: 0 <= m < 4 ==> BlockConstants(p + buf[|p|..])[m] == Uint8ArrayToFloat64(reply, 8 + 8 * m)
  {
    var p := Prefix(reply, 40);
    var b := p + buf[|p|..];
    assert b[..40] == reply[..40];
    forall m | 0 <= m < 4
      ensures BlockConstants(b)[m] == Uint8ArrayToFloat64(reply, 8 + 8 * m)
    {
      FixedPointShift(b, reply, 8 + 8 * m);
    }
  }

  /** The fixed-point value at `start` depends only on the eight bytes there; in particular
      it is the same read from byte 8 of a buffer or at `start` of the reply it holds. */
  lemma FixedPointShift(b: seq<Byte>, reply: seq<Byte>, start: nat)
    requires start + 8 <= 40 <= |b| && 40 <= |reply| && 8 <= start && b[..40] == reply[..40]
    ensures Uint8ArrayToFloat64(b[8..], start - 8) == Uint8ArrayToFloat64(reply, start)
  {
    var d := b[8..];
    forall k | start <= k < start + 8
      ensures d[k - 8] == reply[k]
    {
      assert b[k] == b[..40][k];
    }
  }

  /** Constants 4k to 4k + 3 are the four fixed-point groups of a 40-byte block reply. */
  predicate BlockFilled(c: seq<real>, k: nat, reply: seq<Byte>)
    requires |c| == 40 && k < 10
  {
    |reply| >= 40 && forall m :: 0 <= m < 4 ==> c[4 * k + m] == Uint8ArrayToFloat64(reply, 8 + 8 * m)
  }

  /** The ReadMem requests for blocks i to 9, in order. */
  function CalRequests(i: nat): (r: seq<seq<Byte>>)
    requires i <= 10
    ensures |r| == 10 - i
    decreases 10 - i
  {
    if i == 10 then [] else [CalBlockRequest(i)] + CalRequests(i + 1)
  }

  /** After a successful run of blocks i..9, constant 4k + m is the fixed-point group m of
      the reply to block k, and the earlier constants are kept. */
  lemma {:induction false} ReadBlocksContents(i: nat, buf: seq<Byte>, replies: seq<seq<Byte>>, consts: seq<real>)
    requires i <= 10 && |buf| == 64 && |consts| == 4 * i
    requires ReadBlocks(i, buf, replies, consts).result.Success?
    ensures var c := ReadBlocks(i, buf, replies, consts).result.value;
            |replies| >= 10 - i && c[..4 * i] == consts &&
            forall j :: 0 <= j < 10 - i ==> BlockFilled(c, i + j, replies[j])
    decreases 10 - i
  {
    if i < 10 {
      var b := ReadBlocksStep(i, buf, replies, consts);
      var consts' := consts + BlockConstants(b);
      ReadBlocksContents(i + 1, b, replies[1..], consts');
      var c := ReadBlocks(i + 1, b, replies[1..], consts').result.value;
      FirstBlockFilled(buf, replies[0], consts, i, c);
      forall j | 1 <= j < 10 - i
        ensures BlockFilled(c, i + j, replies[j])
      {
        assert replies[j] == replies[1..][j - 1];
        assert BlockFilled(c, (i + 1) + (j - 1), replies[1..][j - 1]);
      }
    }
  }

  /** One successful block: the reply is there, passes the checks, and the run goes on
      from the buffer it leaves. */
  lemma ReadBlocksStep(i: nat, buf: seq<Byte>, replies: seq<seq<Byte>>, consts: seq<real>) returns (b: seq<Byte>)
    requires i < 10 && |buf| == 64 && |consts| == 4 * i
    requires ReadBlocks(i, buf, replies, consts).result.Success?
    ensures |replies| > 0 && b == Prefix(replies[0], 40) + buf[|Prefix(replies[0], 40)|..] && |b| == 64
    ensures BlockError(b, |Prefix(replies[0], 40)|).None?
    ensures var rest := ReadBlocks(i + 1, b, replies[1..], consts + BlockConstants(b));
            ReadBlocks(i, buf, replies, consts) == Outcome(rest.result, [CalBlockRequest(i)] + rest.sent, rest.left)
  {
    var p := Prefix(replies[0], 40);
    b := p + buf[|p|..];
  }

  /** One unfolding of the block loop at a block i < 10, whatever its outcome. */
  lemma ReadBlocksCases(i: nat, buf: seq<Byte>, replies: seq<seq<Byte>>, consts: seq<real>)
    requires i < 10 && |buf| == 64 && |consts| == 4 * i
    ensures |replies| == 0 ==>
              ReadBlocks(i, buf, replies, consts) == Outcome(Failure(TransportError), [CalBlockRequest(i)], [])
    ensures |replies| > 0 ==>
              var p := Prefix(replies[0], 40);
              var b := p + buf[|p|..];
              (BlockError(b, |p|).Some? ==>
                 ReadBlocks(i, buf, replies, consts) ==
                 Outcome(Failure(BlockError(b, |p|).value), [CalBlockRequest(i)], replies[1..])) &&
              (BlockError(b, |p|).None? ==>
                 var rest := ReadBlocks(i + 1, b, replies[1..], consts + BlockConstants(b));
                 ReadBlocks(i, buf, replies, consts) == Outcome(rest.result, [CalBlockRequest(i)] + rest.sent, rest.left))
  {
  }

  /** getCalibrationInfo when the ConfigU6 exchange fails: the error, one request sent and
      the one reply (if any) consumed. */
  lemma CalibrationConfigFails(replies: seq<seq<Byte>>, e: Error)
    requires |replies| == 0 ==> e == TransportError
    requires |replies| > 0 && |replies[0]| < 38 ==> e == EndpointRecvError
    requires |replies| > 0 && |replies[0]| >= 38 ==>
               ValidateCommandResponse(replies[0][..38] + Zeros(26)) == Some(e)
    ensures CalibrationOutcome(replies) == Outcome(Failure(e), [ConfigRequest], Rest(replies))
  {
    if |replies| > 0 && |replies[0]| >= 38 {
      assert Prefix(replies[0], 38) == replies[0][..38];
    }
  }

  /** getCalibrationInfo after a successful ConfigU6 exchange: the block loop's outcome, the
      resolution flag taken from the config reply. */
  lemma CalibrationAfterConfig(replies: seq<seq<Byte>>, buf: seq<Byte>, run: Outcome<seq<real>>)
    requires |replies| > 0 && |replies[0]| >= 38 && buf == replies[0][..38] + Zeros(26)
    requires ValidateCommandResponse(buf) == None && run == ReadBlocks(0, buf, replies[1..], [])
    ensures CalibrationOutcome(replies) ==
            Outcome(if run.result.Success? then Success(CalibrationInfo(6, Bit3(replies[0][37]), run.result.value))
                    else Failure(run.result.error),
                    [ConfigRequest] + run.sent, run.left)
  {
    assert Prefix(replies[0], 38) == replies[0][..38];
  }

  lemma FirstBlockFilled(buf: seq<Byte>, reply: seq<Byte>, consts: seq<real>, i: nat, c: seq<real>)
    requires i < 10 && |buf| == 64 && |consts| == 4 * i && |c| == 40
    requires var p := Prefix(reply, 40); BlockError(p + buf[|p|..], |p|).None?
    requires var p := Prefix(reply, 40); c[..4 * (i + 1)] == consts + BlockConstants(p + buf[|p|..])
    ensures c[..4 * i] == consts && BlockFilled(c, i, reply)
  {
    var p := Prefix(reply, 40);
    BlockContents(buf, reply);
    assert c[..4 * i] == c[..4 * (i + 1)][..4 * i];
    forall m | 0 <= m < 4
      ensures c[4 * i + m] == Uint8ArrayToFloat64(reply, 8 + 8 * m)
    {
      assert c[4 * i + m] == c[..4 * (i + 1)][4 * i + m];
    }
  }

  /** A successful run of blocks i..9 sends their ten ReadMem requests in order and
      consumes one reply per block. */
  lemma {:induction false} ReadBlocksTransport(i: nat, buf: seq<Byte>, replies: seq<seq<Byte>>, consts: seq<real>)
    requires i <= 10 && |buf| == 64 && |consts| == 4 * i
    requires ReadBlocks(i, buf, replies, consts).result.Success?
    ensures |replies| >= 10 - i
    ensures ReadBlocks(i, buf, replies, consts).sent == CalRequests(i)
    ensures ReadBlocks(i, buf, replies, consts).left == replies[10 - i..]
    decreases 10 - i
  {
    if i < 10 {
      var b := ReadBlocksStep(i, buf, replies, consts);
      ReadBlocksTransport(i + 1, b, replies[1..], consts + BlockConstants(b));
      assert replies[1..][10 - (i + 1)..] == replies[10 - i..];
    }
  }

  /** A full ReadMem reply to a calibration block: at least 40 bytes with the 0xF8 0x11 0x2D
      header. */
  predicate BlockReplyOk(reply: seq<Byte>)
  {
    |reply| >= 40 && reply[1] == 0xF8 && reply[2] == 0x11 && reply[3] == 0x2D
  }

  lemma BlockErrorOfReply(buf: seq<Byte>, reply: seq<Byte>)
    requires |buf| == 64
    ensures var p := Prefix(reply, 40); BlockError(p + buf[|p|..], |p|).None? <==> BlockReplyOk(reply)
  {
    var p := Prefix(reply, 40);
    if |reply| >= 40 {
      assert (p + buf[|p|..])[..4] == reply[..4];
    }
  }

  /** Blocks i..9 succeed exactly when each of their replies is a full ReadMem reply. */
  lemma {:induction false} ReadBlocksSucceeds(i: nat, buf: seq<Byte>, replies: seq<seq<Byte>>, consts: seq<real>)
    requires i <= 10 && |buf| == 64 && |consts| == 4 * i
    ensures ReadBlocks(i, buf, replies, consts).result.Success? <==>
              |replies| >= 10 - i && forall j :: 0 <= j < 10 - i ==> BlockReplyOk(replies[j])
    decreases 10 - i
  {
    if i < 10 && |replies| > 0 {
      var p := Prefix(replies[0], 40);
      var b := p + buf[|p|..];
      BlockErrorOfReply(buf, replies[0]);
      ReadBlocksSucceeds(i + 1, b, replies[1..], consts + BlockConstants(b));
      if |replies| >= 10 - i && BlockReplyOk(replies[0]) {
        assert (forall j :: 0 <= j < 10 - i ==> BlockReplyOk(replies[j])) <==>
               (forall j :: 0 <= j < 10 - (i + 1) ==> BlockReplyOk(replies[1..][j])) by {
          forall j | 0 <= j < 10 - (i + 1)
            ensures replies[1..][j] == replies[j + 1]
          {
          }
        }
      }
    }
  }

  /** After a ConfigU6 reply of at least 38 bytes the outcome is decided by the validator on
      the zero-tailed buffer and by the block loop over the remaining replies. */
  lemma CalibrationOutcomeAfterConfig(replies: seq<seq<Byte>>)
    requires |replies| > 0 && |replies[0]| >= 38
    ensures var p := replies[0][..38];
            var run := ReadBlocks(0, p + Zeros(26), replies[1..], []);
            var out := CalibrationOutcome(replies);
            (out.result.Success? <==> ValidateCommandResponse(p).None? && run.result.Success?) &&
            (out.result.Success? ==>
               out.sent == [ConfigRequest] + run.sent && out.left == run.left &&
               out.result.value == CalibrationInfo(6, Bit3(p[37]), run.result.value))
  {
    var p := replies[0][..38];
    ValidateIgnoresZeroTail(p, 26);
    assert Prefix(replies[0], 38) == p;
  }

  /** Reindexing the block replies: reply k of the whole list is reply k - 1 after the
      ConfigU6 reply. */
  lemma BlockRepliesShift(replies: seq<seq<Byte>>)
    requires |replies| >= 11
    ensures (forall j :: 0 <= j < 10 ==> BlockReplyOk(replies[1..][j])) <==>
            (forall k :: 1 <= k < 11 ==> BlockReplyOk(replies[k]))
  {
    if forall j :: 0 <= j < 10 ==> BlockReplyOk(replies[1..][j]) {
      forall k | 1 <= k < 11 ensures BlockReplyOk(replies[k]) {
        assert replies[k] == replies[1..][k - 1];
      }
    }
    if forall k :: 1 <= k < 11 ==> BlockReplyOk(replies[k]) {
      forall j | 0 <= j < 10 ensures BlockReplyOk(replies[1..][j]) {
        assert replies[1..][j] == replies[j + 1];
      }
    }
  }

  /** getCalibrationInfo succeeds exactly when the ConfigU6 reply is well formed and each of
      the ten block replies is a full ReadMem reply. */
  lemma CalibrationOutcomeSucceeds(replies: seq<seq<Byte>>)
    ensures CalibrationOutcome(replies).result.Success? <==>
              |replies| >= 11 && |replies[0]| >= 38 && ConfigReplyWellFormed(replies[0][..38]) &&
              forall k :: 1 <= k < 11 ==> BlockReplyOk(replies[k])
  {
    if |replies| > 0 && |replies[0]| >= 38 {
      var p := replies[0][..38];
      CalibrationOutcomeAfterConfig(replies);
      ValidateAccepts(p);
      ReadBlocksSucceeds(0, p + Zeros(26), replies[1..], []);
      if |replies| >= 11 {
        BlockRepliesShift(replies);
      }
    }
  }

  /** A successful getCalibrationInfo sends the ConfigU6 request and the ten block requests,
      consumes eleven replies, and fills every constant from its block: constant 4k + m is
      group m of block k. */
  lemma CalibrationOutcomeContents(replies: seq<seq<Byte>>)
    ensures var out := CalibrationOutcome(replies);
            out.result.Success? ==>
              |replies| >= 11 && |replies[0]| >= 38 &&
              out.sent == [ConfigRequest] + CalRequests(0) && out.left == replies[11..] &&
              out.result.value.productID == 6 && out.result.value.hiResolution == Bit3(replies[0][37]) &&
              forall k :: 1 <= k < 11 ==> BlockFilled(out.result.value.calConstants, k - 1, replies[k])
  {
    if CalibrationOutcome(replies).result.Success? {
      CalibrationOutcomeSucceeds(replies);
      var buf := replies[0][..38] + Zeros(26);
      CalibrationOutcomeAfterConfig(replies);
      ReadBlocksContents(0, buf, replies[1..], []);
      ReadBlocksTransport(0, buf, replies[1..], []);
      var c := ReadBlocks(0, buf, replies[1..], []).result.value;
      forall k | 1 <= k < 11
        ensures BlockFilled(c, k - 1, replies[k])
      {
        assert replies[k] == replies[1..][k - 1];
        assert BlockFilled(c, 0 + (k - 1), replies[1..][k - 1]);
      }
      assert replies[1..][10..] == replies[11..];
    }
  }

  // ---------------------------------------------------------------------------------
  // Feedback: request framing
  // ---------------------------------------------------------------------------------

  const FeedbackHeader: seq<Byte> := [0, 0xF8, 0, 0, 0, 0, 0]

  /** The pad that makes the command bytes an even number of words' worth. */
  function Pad(length: nat): (p: seq<Byte>)
    ensures (length + |p|) % 2 == 0
  {
    if length % 2 == 1 then [0] else []
  }

  /** A Feedback frame before setChecksum around the given command bytes: the header, the
      command bytes, the pad, and the word count `byte(length) / 2` in byte 2. */
  function FramePayload(payload: seq<Byte>): seq<Byte>
  {
    var length := |payload| + |Pad(|payload|)|;
    (FeedbackHeader + payload + Pad(|payload|))[2 := (length % 256) / 2]
  }

  /** The Feedback request before setChecksum: the encodings of the batch, in order, framed. */
  function FeedbackFrame(reqs: seq<Request>): seq<Byte>
  {
    FramePayload(EncodeAll(reqs))
  }

  /** The Feedback request for a batch as setChecksum completes it. */
  function FeedbackRequest(reqs: seq<Request>): seq<Byte>
  {
    SetChecksumOf(FeedbackFrame(reqs))
  }

  /** The layout of a frame before setChecksum: the header bytes, the word count in byte 2,
      the command bytes and pad after byte 6, and a payload sum over the command bytes only. */
  predicate UnsummedFrame(b: seq<Byte>, payload: seq<Byte>, pad: seq<Byte>)
  {
    |b| == 7 + |payload| + |pad| && (|payload| + |pad|) % 2 == 0 &&
    b[1] == 0xF8 && b[2] == ((|payload| + |pad|) % 256) / 2 && b[3] == 0 && b[6] == 0 &&
    b[7..] == payload + pad && Sum(b[6..]) == Sum(payload)
  }

  lemma FeedbackFrameLayout(reqs: seq<Request>)
    ensures UnsummedFrame(FeedbackFrame(reqs), EncodeAll(reqs), Pad(|EncodeAll(reqs)|))
  {
    var payload := EncodeAll(reqs);
    var pad := Pad(|payload|);
    HeaderFrame(FeedbackHeader + payload + pad, FeedbackFrame(reqs), payload, pad);
  }

  lemma HeaderFrame(h: seq<Byte>, b: seq<Byte>, payload: seq<Byte>, pad: seq<Byte>)
    requires h == FeedbackHeader + payload + pad && |pad| <= 1 && (|payload| + |pad|) % 2 == 0
    requires forall k :: 0 <= k < |pad| ==> pad[k] == 0
    requires b == h[2 := ((|payload| + |pad|) % 256) / 2]
    ensures UnsummedFrame(b, payload, pad)
  {
    assert h[1] == FeedbackHeader[1] && h[3] == FeedbackHeader[3] && h[6] == FeedbackHeader[6];
    assert b[1] == h[1] && b[3] == h[3] && b[6] == h[6];
    assert b[7..] == payload + pad;
    assert b[6..] == [0] + (payload + pad);
    SumAppend([0], payload + pad);
    SumAppend(payload, pad);
    assert Sum([0]) == 0 by { assert [0 as Byte][..0] == []; }
    assert Sum(pad) == 0 by { if |pad| == 1 { assert pad[..0] == []; } }
  }

  /** The layout of a framed request with the given command bytes and pad: an even number
      of command bytes after the 7-byte header, the word count in byte 2, the `uint8` payload
      sum in byte 4, 0 in byte 5, and the setChecksum byte 0. */
  predicate FramedRequest(f: seq<Byte>, payload: seq<Byte>, pad: seq<Byte>)
  {
    var length := |payload| + |pad|;
    |f| == 7 + length && length % 2 == 0 &&
    f[1] == 0xF8 && f[2] == (length % 256) / 2 && f[3] == 0 && f[6] == 0 &&
    f[4] == Sum(payload) % 256 && f[5] == 0 &&
    f[0] == ((0xF8 + f[2] as int + f[4] as int) % 256 + 1) % 256 &&
    f[7..] == payload + pad
  }

  /** The Feedback request is framed around the commands' encodings and their pad, and the
      device splits its payload back into exactly the submitted commands. */
  lemma FeedbackRequestSpec(reqs: seq<Request>)
    ensures FramedRequest(FeedbackRequest(reqs), EncodeAll(reqs), Pad(|EncodeAll(reqs)|))
    ensures (forall i :: 0 <= i < |reqs| ==> WireValid(reqs[i])) ==>
              ParseCommands(FeedbackRequest(reqs)[7..]) == Some(reqs)
  {
    var payload := EncodeAll(reqs);
    FeedbackFrameLayout(reqs);
    RequestBytes(FeedbackFrame(reqs), payload, Pad(|payload|));
    if forall i :: 0 <= i < |reqs| ==> WireValid(reqs[i]) {
      ParseEncodeAll(reqs, Pad(|payload|));
    }
  }

  /** setChecksum's effect on a frame laid out as FeedbackFrame lays it out. */
  lemma RequestBytes(b: seq<Byte>, payload: seq<Byte>, pad: seq<Byte>)
    requires UnsummedFrame(b, payload, pad)
    ensures FramedRequest(SetChecksumOf(b), payload, pad)
  {
    SetChecksumExtendedFrame(b);
    var f := SetChecksumOf(b);
    assert f[1] == b[1..4][0] && f[2] == b[1..4][1] && f[3] == b[1..4][2];
    assert f[6] == b[6..][0];
    assert f[7..] == b[6..][1..] == b[7..];
  }

  /** The bytes the batch's replies declare. */
  function TotalResponseSize(reqs: seq<Request>): nat
  {
    if |reqs| == 0 then 0 else TotalResponseSize(reqs[..|reqs| - 1]) + ResponseSize(reqs[|reqs| - 1])
  }

  /** The request buffer, byte count and reply size after the first i commands of a batch. */
  predicate EncodedPrefix(reqs: seq<Request>, i: nat, sendBuffer: seq<Byte>, length: nat, responseSize: nat)
    requires i <= |reqs|
  {
    sendBuffer == FeedbackHeader + EncodeAll(reqs[..i]) &&
    length == |EncodeAll(reqs[..i])| && responseSize == TotalResponseSize(reqs[..i])
  }

  /** One more command of a batch prefix: its encoding is appended and its reply size added. */
  lemma PrefixStep(reqs: seq<Request>, i: nat, sendBuffer: seq<Byte>, length: nat, responseSize: nat, encoded: seq<Byte>)
    requires i < |reqs| && EncodedPrefix(reqs, i, sendBuffer, length, responseSize) && encoded == Encode(reqs[i])
    ensures EncodedPrefix(reqs, i + 1, sendBuffer + encoded, length + |encoded|, responseSize + ResponseSize(reqs[i]))
  {
    assert reqs[..i + 1] == reqs[..i] + [reqs[i]];
    EncodeAllSnoc(reqs[..i], reqs[i]);
  }

  // ---------------------------------------------------------------------------------
  // Feedback: response checks and demultiplexing
  // ---------------------------------------------------------------------------------

  /** The checks on a Feedback reply, in the order Go makes them. */
  function CheckFeedbackResponse(b: seq<Byte>): Option<Error>
    requires |b| >= 7
  {
    var c16 := ExtendedChecksum16(b).value;
    if c16 / 256 % 256 != b[5] then Some(InvalidChecksumResponse)
    else if c16 % 256 != b[4] then Some(InvalidChecksumResponse)
    else if b[1] != 0xF8 || b[3] != 0 then Some(InvalidResponseHeader)
    else if b[6] != 0 then Some(InvalidResponseHeader)
    else if ExtendedChecksum8(b).value != b[0] then Some(InvalidResponseHeader)
    else None
  }

  /** A well-formed Feedback reply: both extended checksums, 0xF8 in byte 1, and 0 in the
      word-count high byte 3 and the error byte 6. */
  predicate FeedbackReplyWellFormed(b: seq<Byte>)
    requires |b| >= 7
  {
    ExtendedChecksum16(b).value == LE16(b, 4) && ExtendedChecksum8(b).value == b[0] &&
    b[1] == 0xF8 && b[3] == 0 && b[6] == 0
  }

  /** The checks pass exactly on well-formed replies; a payload-checksum failure is the
      checksum error and every other failure the header error. */
  lemma CheckFeedbackResponseSpec(b: seq<Byte>)
    requires |b| >= 7
    ensures CheckFeedbackResponse(b) == None <==> FeedbackReplyWellFormed(b)
    ensures CheckFeedbackResponse(b) == Some(InvalidChecksumResponse) <==> ExtendedChecksum16(b).value != LE16(b, 4)
    ensures CheckFeedbackResponse(b).Some? ==> CheckFeedbackResponse(b).value in {InvalidChecksumResponse, InvalidResponseHeader}
  {
    WordBytes(ExtendedChecksum16(b).value, b[4], b[5]);
  }

  /** The demultiplexing loop from command j with the reader at position p of the reply
      payload: the error it ends with, and how many commands had their ReadFrom run. Each
      command must find its frame number i next and then reads its reply; at the end the
      payload must be used up. */
  function DemuxFrom(reqs: seq<Request>, data: seq<Byte>, j: nat, p: nat): (out: (Option<Error>, nat))
    requires j <= |reqs| && p <= |data|
    ensures j <= out.1 <= |reqs|
    decreases |reqs| - j
  {
    if j == |reqs| then (if p == |data| then None else Some(IncompleteDecode(|data| - p)), j)
    else if p == |data| then (Some(EndOfInput), j)
    else if data[p] != j then (Some(InvalidFrameNumber), j)
    else
      var avail := |data| - (p + 1);
      if ReadFails(reqs[j], avail) then (Some(EndOfInput), j + 1)
      else DemuxFrom(reqs, data, j + 1, p + 1 + Consumed(reqs[j], avail))
  }

  /** The reader position at which command j's frame number is read. */
  function FramePos(reqs: seq<Request>, data: seq<Byte>, j: nat): (p: nat)
    requires j <= |reqs|
    ensures p <= |data|
  {
    if j == 0 then 0
    else
      var q := FramePos(reqs, data, j - 1);
      if q == |data| then q else q + 1 + Consumed(reqs[j - 1], |data| - (q + 1))
  }

  /** The reply Feedback reads after sending its request: exactly `expected` bytes, whose
      checks pass; its payload starts at byte 7. */
  function FeedbackReply(expected: nat, replies: seq<seq<Byte>>): Result<seq<Byte>>
    requires expected >= 7
  {
    if |replies| == 0 then Failure(TransportError)
    else
      var p := Prefix(replies[0], expected);
      if |p| != expected then Failure(IncompleteResponse(|p|, expected))
      else match CheckFeedbackResponse(p)
        case Some(e) => Failure(e)
        case None => Success(p[7..])
  }

  /** The outcome of Feedback after the request is sent, given the reply FeedbackReply
      returned: the error (None on success) and, in order, the reply bytes handed to each
      of the first commands whose reply fields were overwritten. */
  function FeedbackOutcome(reqs: seq<Request>, reply: Result<seq<Byte>>): (out: (Option<Error>, seq<seq<Byte>>))
  {
    match reply
    case Failure(e) => (Some(e), [])
    case Success(data) => (DemuxFrom(reqs, data, 0, 0).0, DemuxReads(reqs, data, 0, 0))
  }

  /** Command j's frame: its frame number j is present at its position and its ReadFrom
      finds what it needs after it. */
  predicate FrameOk(reqs: seq<Request>, data: seq<Byte>, j: nat)
    requires j < |reqs|
  {
    var q := FramePos(reqs, data, j);
    q < |data| && data[q] == j && !ReadFails(reqs[j], |data| - (q + 1))
  }

  /** The reply bytes each command from j on is handed by the demultiplexing loop, in order:
      the bytes after its frame number, for every command whose frame number is in order. */
  function DemuxReads(reqs: seq<Request>, data: seq<Byte>, j: nat, p: nat): seq<seq<Byte>>
    requires j <= |reqs| && p <= |data|
    decreases |reqs| - j
  {
    if j == |reqs| || p == |data| || data[p] != j then []
    else
      var avail := |data| - (p + 1);
      if ReadFails(reqs[j], avail) then [data[p + 1..]]
      else [data[p + 1..]] + DemuxReads(reqs, data, j + 1, p + 1 + Consumed(reqs[j], avail))
  }

  /** The demultiplexing loop at command j and position p, with the reads `done` handed out
      so far, ends with outcome d and reads `handed` in all. */
  predicate DemuxAt(reqs: seq<Request>, data: seq<Byte>, j: nat, p: nat, done: seq<seq<Byte>>,
                    d: (Option<Error>, nat), handed: seq<seq<Byte>>)
  {
    j <= |reqs| && p <= |data| && DemuxFrom(reqs, data, j, p) == d && done + DemuxReads(reqs, data, j, p) == handed
  }

  /** The loop stops at command j because the frame number is missing or out of order. */
  lemma DemuxAtStop(reqs: seq<Request>, data: seq<Byte>, j: nat, p: nat, done: seq<seq<Byte>>,
                    d: (Option<Error>, nat), handed: seq<seq<Byte>>)
    requires j < |reqs| && DemuxAt(reqs, data, j, p, done, d, handed)
    requires p == |data| || data[p] != j
    ensures done == handed && d.0 == (if p == |data| then Some(EndOfInput) else Some(InvalidFrameNumber))
  {
  }

  /** The loop stops at command j because its ReadFrom finds nothing left. */
  lemma DemuxAtFail(reqs: seq<Request>, data: seq<Byte>, j: nat, p: nat, done: seq<seq<Byte>>,
                    d: (Option<Error>, nat), handed: seq<seq<Byte>>)
    requires j < |reqs| && DemuxAt(reqs, data, j, p, done, d, handed)
    requires p < |data| && data[p] == j && ReadFails(reqs[j], |data| - (p + 1))
    ensures done + [data[p + 1..]] == handed && d.0 == Some(EndOfInput)
  {
  }

  /** The loop passes command j and goes on at the next frame number. */
  lemma DemuxAtStep(reqs: seq<Request>, data: seq<Byte>, j: nat, p: nat, done: seq<seq<Byte>>,
                    d: (Option<Error>, nat), handed: seq<seq<Byte>>)
    requires j < |reqs| && DemuxAt(reqs, data, j, p, done, d, handed)
    requires p < |data| && data[p] == j && !ReadFails(reqs[j], |data| - (p + 1))
    ensures DemuxAt(reqs, data, j + 1, p + 1 + Consumed(reqs[j], |data| - (p + 1)), done + [data[p + 1..]], d, handed)
  {
    var q := p + 1 + Consumed(reqs[j], |data| - (p + 1));
    assert DemuxReads(reqs, data, j, p) == [data[p + 1..]] + DemuxReads(reqs, data, j + 1, q);
    ConcatAssoc(done, [data[p + 1..]], DemuxReads(reqs, data, j + 1, q));
  }

  /** After the last command the payload must be used up. */
  lemma DemuxAtEnd(reqs: seq<Request>, data: seq<Byte>, p: nat, done: seq<seq<Byte>>,
                   d: (Option<Error>, nat), handed: seq<seq<Byte>>)
    requires DemuxAt(reqs, data, |reqs|, p, done, d, handed)
    ensures done == handed && d.0 == (if p == |data| then None else Some(IncompleteDecode(|data| - p)))
  {
  }

  lemma ConcatAssoc<T>(a: seq<T>, b: seq<T>, c: seq<T>)
    ensures (a + b) + c == a + (b + c)
  {
  }

  /** The loop hands a reply to exactly the commands it ran. */
  lemma {:induction false} DemuxReadsLength(reqs: seq<Request>, data: seq<Byte>, j: nat, p: nat)
    requires j <= |reqs| && p <= |data|
    ensures |DemuxReads(reqs, data, j, p)| == DemuxFrom(reqs, data, j, p).1 - j
    decreases |reqs| - j
  {
    if j < |reqs| && p < |data| && data[p] == j && !ReadFails(reqs[j], |data| - (p + 1)) {
      DemuxReadsLength(reqs, data, j + 1, p + 1 + Consumed(reqs[j], |data| - (p + 1)));
    }
  }

  /** Command r, reading from `here`, leaves frame number n next, followed by `next`. */
  predicate Linked(r: Request, here: seq<Byte>, n: nat, next: seq<Byte>)
  {
    var c := Consumed(r, |here|);
    c < |here| && here[c] == n && next == here[c + 1..]
  }

  /** The reads handed out from command j at position p form a chain: the first follows
      frame number j at p, and each next one follows the frame number that comes right
      after what the previous command consumed. */
  lemma {:induction false} DemuxReadsChain(reqs: seq<Request>, data: seq<Byte>, j: nat, p: nat)
    requires j <= |reqs| && p <= |data|
    ensures var r := DemuxReads(reqs, data, j, p);
            |r| <= |reqs| - j &&
            (|r| > 0 ==> p < |data| && data[p] == j && r[0] == data[p + 1..]) &&
            forall k :: 0 <= k < |r| - 1 ==> Linked(reqs[j + k], r[k], j + k + 1, r[k + 1])
    decreases |reqs| - j
  {
    if j < |reqs| && p < |data| && data[p] == j && !ReadFails(reqs[j], |data| - (p + 1)) {
      var q := p + 1 + Consumed(reqs[j], |data| - (p + 1));
      DemuxReadsChain(reqs, data, j + 1, q);
      var r' := DemuxReads(reqs, data, j + 1, q);
      ChainCons(reqs, j, data[p + 1..], r');
    }
  }

  /** The inductive step of DemuxReadsChain: a read put in front of a chain that starts
      where it links to. */
  lemma ChainCons(reqs: seq<Request>, j: nat, head: seq<Byte>, r': seq<seq<Byte>>)
    requires j < |reqs| && |r'| <= |reqs| - (j + 1)
    requires |r'| > 0 ==> Linked(reqs[j], head, j + 1, r'[0])
    requires forall k :: 0 <= k < |r'| - 1 ==> Linked(reqs[j + 1 + k], r'[k], j + 1 + k + 1, r'[k + 1])
    ensures var r := [head] + r';
            forall k :: 0 <= k < |r| - 1 ==> Linked(reqs[j + k], r[k], j + k + 1, r[k + 1])
  {
    var r := [head] + r';
    forall k | 0 <= k < |r| - 1
      ensures Linked(reqs[j + k], r[k], j + k + 1, r[k + 1])
    {
      if k > 0 {
        assert r[k] == r'[k - 1] && r[k + 1] == r'[k] && j + k == j + 1 + (k - 1);
      }
    }
  }

  /** The demultiplexing loop from command j succeeds exactly when every later command's
      frame is in order and the commands' reads use the payload up exactly; on success
      every command ran. */
  lemma {:induction false} DemuxFromSucceeds(reqs: seq<Request>, data: seq<Byte>, j: nat)
    requires j <= |reqs|
    ensures var d := DemuxFrom(reqs, data, j, FramePos(reqs, data, j));
            (d.0 == None <==>
               (forall k :: j <= k < |reqs| ==> FrameOk(reqs, data, k)) &&
               FramePos(reqs, data, |reqs|) == |data|) &&
            (d.0 == None ==> d.1 == |reqs|)
    decreases |reqs| - j
  {
    if j < |reqs| {
      var p := FramePos(reqs, data, j);
      if FrameOk(reqs, data, j) {
        assert FramePos(reqs, data, j + 1) == p + 1 + Consumed(reqs[j], |data| - (p + 1));
        DemuxFromSucceeds(reqs, data, j + 1);
      } else {
        assert DemuxFrom(reqs, data, j, p).0 != None;
      }
    }
  }

  /** Every command the loop from j handed to ReadFrom had found its own frame number. */
  lemma {:induction false} DemuxFromRan(reqs: seq<Request>, data: seq<Byte>, j: nat)
    requires j <= |reqs|
    ensures var d := DemuxFrom(reqs, data, j, FramePos(reqs, data, j));
            forall k :: j <= k < d.1 ==>
              FramePos(reqs, data, k) < |data| && data[FramePos(reqs, data, k)] == k
    decreases |reqs| - j
  {
    if j < |reqs| {
      var p := FramePos(reqs, data, j);
      if FrameOk(reqs, data, j) {
        assert FramePos(reqs, data, j + 1) == p + 1 + Consumed(reqs[j], |data| - (p + 1));
        DemuxFromRan(reqs, data, j + 1);
      }
    }
  }

  /** A payload that holds every command's frame in order, with nothing left over. */
  predicate DemuxOk(reqs: seq<Request>, data: seq<Byte>)
  {
    (forall k :: 0 <= k < |reqs| ==> FrameOk(reqs, data, k)) && FramePos(reqs, data, |reqs|) == |data|
  }

  /** Demultiplexing a payload succeeds exactly on payloads with every frame in order and
      nothing left over, and then every command has read its reply. */
  lemma DemuxSpec(reqs: seq<Request>, data: seq<Byte>)
    ensures var d := DemuxFrom(reqs, data, 0, 0);
            (d.0 == None <==> DemuxOk(reqs, data)) && (d.0 == None ==> d.1 == |reqs|)
  {
    DemuxFromSucceeds(reqs, data, 0);
  }

  /** The reply is accepted exactly when the first reply holds `expected` bytes that pass
      the checks; its payload is what follows the 7-byte header. */
  lemma FeedbackReplySucceeds(expected: nat, replies: seq<seq<Byte>>)
    requires expected >= 7
    ensures FeedbackReply(expected, replies).Success? <==>
              |replies| > 0 && |replies[0]| >= expected && FeedbackReplyWellFormed(replies[0][..expected])
    ensures FeedbackReply(expected, replies).Success? ==>
              FeedbackReply(expected, replies).value == replies[0][7..expected]
  {
    if |replies| > 0 {
      var p := Prefix(replies[0], expected);
      if |p| == expected {
        CheckFeedbackResponseSpec(p);
        assert p[7..] == replies[0][7..expected];
      }
    }
  }

  /** Feedback succeeds exactly when the reply is accepted and its payload holds every
      command's frame in order with nothing left over; then every command has read its reply
      from that payload. */
  lemma FeedbackOutcomeSucceeds(reqs: seq<Request>, reply: Result<seq<Byte>>)
    ensures var out := FeedbackOutcome(reqs, reply);
            (out.0 == None <==> reply.Success? && DemuxOk(reqs, reply.value)) &&
            (out.0 == None ==> |out.1| == |reqs|) &&
            (reply.Failure? ==> out == (Some(reply.error), []))
  {
    if reply.Success? {
      DemuxSpec(reqs, reply.value);
      DemuxReadsLength(reqs, reply.value, 0, 0);
    }
  }

  /** Whatever the outcome, no more commands read than the batch holds; when the reply was
      accepted, command 0 read what follows frame number 0 at the start of the payload, and
      each next command what follows the frame number right after what the previous one
      consumed. */
  lemma FeedbackOutcomeReads(reqs: seq<Request>, reply: Result<seq<Byte>>)
    ensures var out := FeedbackOutcome(reqs, reply);
            |out.1| <= |reqs| &&
            (reply.Success? && |out.1| > 0 ==>
               |reply.value| > 0 && reply.value[0] == 0 && out.1[0] == reply.value[1..]) &&
            (reply.Success? ==> forall k :: 0 <= k < |out.1| - 1 ==>
               Linked(reqs[k], out.1[k], k + 1, out.1[k + 1]))
  {
    if reply.Success? {
      DemuxReadsChain(reqs, reply.value, 0, 0);
    }
  }
}
