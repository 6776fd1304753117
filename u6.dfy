/** The U6 object of u6/u6.go: the connection set-up, the calibration read-out and the
    Feedback multiplexer as imperative methods over one opened device. Each method is proved
    against the outcome functions of the Session module, whose properties are proved there. */
module Driver {
  import opened Bytes
  import opened Errors
  import opened Utils
  import opened Calibration
  import opened Feedback
  import opened Device
  import opened Session
  import Transport

  /** The requests of a batch of commands, in submission order. */
  function Requests(cmds: seq<Command>): (reqs: seq<Request>)
    ensures |reqs| == |cmds| && forall i :: 0 <= i < |cmds| ==> reqs[i] == cmds[i].request
  {
    seq(|cmds|, i requires 0 <= i < |cmds| => cmds[i].request)
  }

  /** The calibration info SetCalibrationInfo leaves in a command. */
  function CalInfoAfterSet(r: Request, info: CalibrationInfo, before: CalibrationInfo): CalibrationInfo
  {
    if r.AIN24? || r.PortDirWrite? then info else before
  }

  /** The fields of a command that Feedback can change. */
  datatype Fields = Fields(state: Byte, responseBuffer: seq<Byte>, calInfo: CalibrationInfo)

  /** The fields of each command of a batch. */
  function Snapshot(cmds: seq<Command>): (s: seq<Fields>)
    reads set c | c in cmds
    ensures |s| == |cmds| && forall j :: 0 <= j < |cmds| ==>
              s[j] == Fields(cmds[j].state, cmds[j].responseBuffer, cmds[j].calInfo)
  {
    seq(|cmds|, j reads set c | c in cmds requires 0 <= j < |cmds| =>
      Fields(cmds[j].state, cmds[j].responseBuffer, cmds[j].calInfo))
  }

  /** The first |rests| commands of a batch have read their replies, command j from the
      bytes rests[j]; the others, and every calibration record, are as `before`. */
  ghost predicate ReadUpTo(cmds: seq<Command>, rests: seq<seq<Byte>>, before: seq<Fields>)
    requires |before| == |cmds|
    reads set c | c in cmds
  {
    forall j :: 0 <= j < |cmds| ==>
      cmds[j].calInfo == before[j].calInfo &&
      if j < |rests| then
        cmds[j].state == StateAfterRead(cmds[j].request, rests[j], before[j].state) &&
        cmds[j].responseBuffer == BufferAfterRead(cmds[j].request, rests[j], before[j].responseBuffer)
      else
        cmds[j].state == before[j].state && cmds[j].responseBuffer == before[j].responseBuffer
  }

  /** An outcome with the frames `done` written before it. */
  function After<T>(done: seq<seq<Byte>>, out: Outcome<T>): Outcome<T>
  {
    Outcome(out.result, done + out.sent, out.left)
  }

  lemma AfterAfter<T>(done: seq<seq<Byte>>, step: seq<seq<Byte>>, out: Outcome<T>)
    ensures After(done, After(step, out)) == After(done + step, out)
  {
    assert done + (step + out.sent) == (done + step) + out.sent;
  }

  class U6 {
    const device: Transport.Device
    var config: DeviceDesc
    var calibration: CalibrationInfo

    /** A U6 over an opened device, before initConnection and getCalibrationInfo. */
    constructor (device: Transport.Device, calibration: CalibrationInfo)
      ensures this.device == device && config == EmptyDesc && this.calibration == calibration
    {
      this.device := device;
      config := EmptyDesc;
      this.calibration := calibration;
    }

    /** The device details. */
    function GetDeviceDesc(): DeviceDesc
      reads this
    {
      config
    }

    /** The calibration information. */
    function GetCalibrationInfo(): CalibrationInfo
      reads this
    {
      calibration
    }

    /** Builds the ConfigU6 request in a send buffer of `len` bytes (26 or 64) and completes
        its first 26 bytes with extendedChecksum. */
    static method BuildConfigRequest(len: nat) returns (buf: array<Byte>)
      requires 26 <= len
      ensures fresh(buf) && buf.Length == len && buf[..26] == ConfigRequest
    {
      buf := new Byte[len](_ => 0);
      buf[1] := 0xF8;
      buf[2] := 0x0A;
      buf[3] := 0x08;
      for i := 6 to 26
        invariant buf[..26] == ConfigTemplate
      {
        buf[i] := 0;
      }
      var _ := ExtendedChecksum(buf, 26);
      ConfigRequestBytes();
    }

    /** initConnection: sends ConfigU6, reads its 38-byte reply, validates it and stores the
        device description parsed from it. */
    method InitConnection() returns (err: Option<Error>)
      modifies this, device
      ensures device.sent == old(device.sent) + [ConfigRequest]
      ensures device.replies == Rest(old(device.replies))
      ensures calibration == old(calibration)
      ensures match InitOutcome(old(device.replies))
              case Success(d) => err == None && config == d
              case Failure(e) => err == Some(e) && config == old(config)
    {
      var sendBuffer := BuildConfigRequest(26);
      assert sendBuffer[..] == sendBuffer[..26];
      var _ := device.Write(sendBuffer[..]);
      var r := device.Read(38);
      if r.Failure? {
        return Some(r.error);
      }
      var recBuffer := r.value;
      if |recBuffer| != 38 {
        return Some(EndpointRecvError);
      }
      err := ValidateCommandResponse(recBuffer);
      if err.Some? {
        return;
      }
      var parsed := ParseConfigBytes(recBuffer);
      if parsed.Failure? {
        // parseConfigBytes rejects only replies longer than the 38 bytes read here
        assert false;
      }
      config := parsed.value;
    }

    /** The ConfigU6 exchange of getCalibrationInfo: the request from the first 26 bytes of
        the send buffer, the reply read into the first 38 bytes of a zeroed 64-byte receive
        buffer, then validated as a whole. */
    method ConfigExchange(sendBuffer: array<Byte>, recBuffer: array<Byte>) returns (err: Option<Error>)
      requires sendBuffer.Length == 64 && sendBuffer[..26] == ConfigRequest
      requires recBuffer.Length == 64 && recBuffer[..] == Zeros(64)
      modifies device, recBuffer
      ensures device.sent == old(device.sent) + [ConfigRequest]
      ensures device.replies == Rest(old(device.replies))
      ensures old(device.replies) == [] ==> err == Some(TransportError)
      ensures old(device.replies) != [] && |old(device.replies)[0]| < 38 ==> err == Some(EndpointRecvError)
      ensures old(device.replies) != [] && |old(device.replies)[0]| >= 38 ==>
                recBuffer[..] == old(device.replies)[0][..38] + Zeros(26) &&
                err == ValidateCommandResponse(recBuffer[..])
    {
      var _ := device.Write(sendBuffer[..26]);
      var r := device.Read(38);
      if r.Failure? {
        return Some(r.error);
      }
      var p := r.value;
      forall k | 0 <= k < |p| {
        recBuffer[k] := p[k];
      }
      if |p| != 38 {
        return Some(EndpointRecvError);
      }
      assert recBuffer[..] == p + Zeros(26);
      err := ValidateCommandResponse(recBuffer[..]);
    }

    /** One ReadMem exchange of the block loop: the request for block i built in the reused
        send buffer, and the reply read over the front of the reused receive buffer, checked
        as Go checks it. */
    method ReadBlock(i: nat, sendBuffer: array<Byte>, recBuffer: array<Byte>) returns (err: Option<Error>)
      requires i < 10 && sendBuffer.Length == 64 && recBuffer.Length == 64 && sendBuffer != recBuffer
      modifies device, sendBuffer, recBuffer
      ensures device.sent == old(device.sent) + [CalBlockRequest(i)]
      ensures device.replies == Rest(old(device.replies))
      ensures old(device.replies) == [] ==> err == Some(TransportError)
      ensures old(device.replies) != [] ==>
                var p := Prefix(old(device.replies)[0], 40);
                recBuffer[..] == p + old(recBuffer[..])[|p|..] && err == BlockError(recBuffer[..], |p|)
    {
      sendBuffer[1] := 0xF8;
      sendBuffer[2] := 0x01;
      sendBuffer[3] := 0x2D;
      sendBuffer[6] := 0;
      sendBuffer[7] := i;
      ghost var frame := sendBuffer[..8];
      var _ := SetChecksum(sendBuffer, 8);
      CalBlockRequestIndependent(frame, i);
      var _ := device.Write(sendBuffer[..8]);
      var q := device.Read(40);
      if q.Failure? {
        return Some(q.error);
      }
      var n := |q.value|;
      forall k | 0 <= k < n {
        recBuffer[k] := q.value[k];
      }
      assert recBuffer[..] == q.value + old(recBuffer[..])[n..];
      if recBuffer[0] == 0xB8 && recBuffer[1] == 0xB8 {
        return Some(InvalidChecksumResponse);
      } else if n != 40 {
        return Some(EndpointRecvError);
      }
      if recBuffer[1] != 0xF8 || recBuffer[2] != 0x11 || recBuffer[3] != 0x2D {
        return Some(InvalidResponseHeader);
      }
      err := None;
    }

    /** The four constants of block i: `cal.CalConstants[4i + m]` from the 8-byte group at
        byte 8 + 8m of the receive buffer. */
    static method StoreBlock(constants: array<real>, i: nat, recBuffer: array<Byte>)
      requires constants.Length == 40 && i < 10 && recBuffer.Length == 64
      modifies constants
      ensures constants[..4 * (i + 1)] == old(constants[..4 * i]) + BlockConstants(recBuffer[..])
    {
      var offset := i * 4;
      constants[offset] := Uint8ArrayToFloat64(recBuffer[8..], 0);
      constants[offset + 1] := Uint8ArrayToFloat64(recBuffer[8..], 8);
      constants[offset + 2] := Uint8ArrayToFloat64(recBuffer[8..], 16);
      constants[offset + 3] := Uint8ArrayToFloat64(recBuffer[8..], 24);
      assert recBuffer[8..] == recBuffer[..][8..];
    }

    /** The block loop of getCalibrationInfo: blocks 0 to 9 in turn, each stopping the loop
        at its first failed check, the constants filled four at a time. */
    method ReadAllBlocks(sendBuffer: array<Byte>, recBuffer: array<Byte>, constants: array<real>)
      returns (err: Option<Error>)
      requires sendBuffer.Length == 64 && recBuffer.Length == 64 && sendBuffer != recBuffer
      requires constants.Length == 40
      modifies device, sendBuffer, recBuffer, constants
      ensures var run := ReadBlocks(0, old(recBuffer[..]), old(device.replies), []);
              device.sent == old(device.sent) + run.sent && device.replies == run.left &&
              (run.result.Success? ==> err == None && constants[..] == run.result.value) &&
              (run.result.Failure? ==> err == Some(run.result.error))
    {
      ghost var run := ReadBlocks(0, recBuffer[..], device.replies, []);
      ghost var sent1 := device.sent;
      ghost var done: seq<seq<Byte>> := [];
      var i := 0;
      while i < 10
        invariant 0 <= i <= 10 && |done| == i
        invariant device.sent == sent1 + done
        invariant run == After(done, ReadBlocks(i, recBuffer[..], device.replies, constants[..4 * i]))
      {
        err := BlockStep(i, sendBuffer, recBuffer, constants);
        ConcatAssoc(sent1, done, [CalBlockRequest(i)]);
        if err.Some? {
          return;
        }
        AfterAfter(done, [CalBlockRequest(i)], ReadBlocks(i + 1, recBuffer[..], device.replies, constants[..4 * (i + 1)]));
        done := done + [CalBlockRequest(i)];
        i := i + 1;
      }
      assert constants[..] == constants[..4 * i];
      err := None;
    }

    /** One ReadMem exchange of getCalibrationInfo and, when it succeeds, the four constants
        it stores; the rest of the run goes on from the new buffers. */
    method BlockStep(i: nat, sendBuffer: array<Byte>, recBuffer: array<Byte>, constants: array<real>)
      returns (err: Option<Error>)
      requires i < 10 && sendBuffer.Length == 64 && recBuffer.Length == 64 && sendBuffer != recBuffer
      requires constants.Length == 40
      modifies device, sendBuffer, recBuffer, constants
      ensures device.sent == old(device.sent) + [CalBlockRequest(i)]
      ensures var out := ReadBlocks(i, old(recBuffer[..]), old(device.replies), old(constants[..4 * i]));
              if err.Some? then
                out == Outcome(Failure(err.value), [CalBlockRequest(i)], device.replies)
              else
                out == After([CalBlockRequest(i)], ReadBlocks(i + 1, recBuffer[..], device.replies, constants[..4 * (i + 1)]))
    {
      ghost var rs := device.replies;
      ghost var buf := recBuffer[..];
      ghost var cs := constants[..4 * i];
      ReadBlocksCases(i, buf, rs, cs);
      err := ReadBlock(i, sendBuffer, recBuffer);
      if err.Some? {
        return;
      }
      ghost var b := recBuffer[..];
      StoreBlock(constants, i, recBuffer);
      assert recBuffer[..] == b;
    }

    /** getCalibrationInfo: the ConfigU6 exchange over 64-byte buffers, then the ten
        ReadMem exchanges that fill the 40 calibration constants; the calibration is
        replaced only when every exchange succeeds. */
    method ReadCalibrationInfo() returns (err: Option<Error>)
      modifies this, device
      ensures var out := CalibrationOutcome(old(device.replies));
              device.sent == old(device.sent) + out.sent && device.replies == out.left &&
              config == old(config) &&
              (out.result.Success? ==> err == None && calibration == out.result.value) &&
              (out.result.Failure? ==> err == Some(out.result.error) && calibration == old(calibration))
    {
      ghost var replies0 := device.replies;
      var sendBuffer := BuildConfigRequest(64);
      var recBuffer := new Byte[64](_ => 0);
      assert recBuffer[..] == Zeros(64);
      err := ConfigExchange(sendBuffer, recBuffer);
      if err.Some? {
        CalibrationConfigFails(replies0, err.value);
        return;
      }
      var hiResolution := Bit3(recBuffer[37]);
      assert hiResolution == Bit3(replies0[0][37]) by {
        assert recBuffer[37] == recBuffer[..][37] == replies0[0][..38][37];
      }
      var constants := new real[40](_ => 0.0);
      ghost var run := ReadBlocks(0, recBuffer[..], device.replies, []);
      CalibrationAfterConfig(replies0, recBuffer[..], run);
      ConcatAssoc(old(device.sent), [ConfigRequest], run.sent);
      err := ReadAllBlocks(sendBuffer, recBuffer, constants);
      if err.Some? {
        return;
      }
      calibration := CalibrationInfo(6, hiResolution, constants[..]);
    }

    /** The request half of Feedback: the encoded commands framed by FrameFeedback. */
    method BuildFeedbackRequest(cmds: seq<Command>) returns (frame: seq<Byte>, responseSize: nat)
      requires forall i, j :: 0 <= i < j < |cmds| ==> cmds[i] != cmds[j]
      modifies set c | c in cmds
      ensures frame == FeedbackRequest(Requests(cmds)) && responseSize == TotalResponseSize(Requests(cmds))
      ensures forall j :: 0 <= j < |cmds| ==>
                cmds[j].calInfo == CalInfoAfterSet(cmds[j].request, calibration, old(cmds[j].calInfo)) &&
                cmds[j].state == old(cmds[j].state) && cmds[j].responseBuffer == old(cmds[j].responseBuffer)
    {
      var sendBuffer, length;
      sendBuffer, length, responseSize := EncodeCommands(cmds);
      frame := FrameFeedback(sendBuffer, length, EncodeAll(Requests(cmds)));
    }

    /** The loop of Feedback over its commands: each gets the device's calibration and
        appends its encoding to the header; the encoded lengths and the declared reply
        sizes are summed on the way. */
    method EncodeCommands(cmds: seq<Command>) returns (sendBuffer: seq<Byte>, length: nat, responseSize: nat)
      requires forall i, j :: 0 <= i < j < |cmds| ==> cmds[i] != cmds[j]
      modifies set c | c in cmds
      ensures sendBuffer == FeedbackHeader + EncodeAll(Requests(cmds))
      ensures length == |EncodeAll(Requests(cmds))| && responseSize == TotalResponseSize(Requests(cmds))
      ensures forall j :: 0 <= j < |cmds| ==>
                cmds[j].calInfo == CalInfoAfterSet(cmds[j].request, calibration, old(cmds[j].calInfo)) &&
                cmds[j].state == old(cmds[j].state) && cmds[j].responseBuffer == old(cmds[j].responseBuffer)
    {
      ghost var reqs := Requests(cmds);
      sendBuffer := FeedbackHeader;
      length := 0;
      responseSize := 0;
      for i := 0 to |cmds|
        invariant EncodedPrefix(reqs, i, sendBuffer, length, responseSize)
        invariant forall j :: 0 <= j < |cmds| ==>
                    cmds[j].state == old(cmds[j].state) && cmds[j].responseBuffer == old(cmds[j].responseBuffer) &&
                    cmds[j].calInfo == if j < i then CalInfoAfterSet(cmds[j].request, calibration, old(cmds[j].calInfo))
                                       else old(cmds[j].calInfo)
      {
        SetOne(cmds, i, calibration);
        var encoded := Encode(cmds[i].request);
        PrefixStep(reqs, i, sendBuffer, length, responseSize, encoded);
        sendBuffer := sendBuffer + encoded;
        length := length + |encoded|;
        responseSize := responseSize + ResponseSize(cmds[i].request);
      }
      assert reqs[..|cmds|] == reqs;
    }

    /** SetCalibrationInfo on the i-th of distinct commands, which leaves the others alone. */
    static method SetOne(cmds: seq<Command>, i: nat, info: CalibrationInfo)
      requires i < |cmds| && forall i, j :: 0 <= i < j < |cmds| ==> cmds[i] != cmds[j]
      modifies cmds[i]
      ensures forall j :: 0 <= j < |cmds| ==>
                cmds[j].state == old(cmds[j].state) && cmds[j].responseBuffer == old(cmds[j].responseBuffer) &&
                cmds[j].calInfo == if j == i then CalInfoAfterSet(cmds[j].request, info, old(cmds[j].calInfo))
                                   else old(cmds[j].calInfo)
    {
      cmds[i].SetCalibrationInfo(info);
    }

    /** The tail of Feedback's request: a zero pad when the command bytes are odd, the word
        count `byte(length) / 2` in byte 2, and setChecksum over the whole frame. */
    static method FrameFeedback(sendBuffer: seq<Byte>, length: nat, ghost payload: seq<Byte>) returns (frame: seq<Byte>)
      requires sendBuffer == FeedbackHeader + payload && length == |payload|
      ensures frame == SetChecksumOf(FramePayload(payload))
    {
      var padded, len := sendBuffer, length;
      if len % 2 == 1 {
        padded := padded + [0];
        len := len + 1;
      }
      assert padded == FeedbackHeader + payload + Pad(|payload|);
      var buf := new Byte[|padded|](k requires 0 <= k < |padded| => padded[k]);
      assert buf[..] == padded;
      buf[2] := (len % 256) / 2;
      ghost var unsummed := buf[..];
      assert unsummed == FramePayload(payload);
      assert buf[..buf.Length] == unsummed;
      var _ := SetChecksum(buf, buf.Length);
      assert buf[..buf.Length] == buf[..];
      frame := buf[..];
    }

    /** The demultiplexing half of Feedback: a reader over the reply payload; command i
        must find frame number i next and then reads its reply; the payload must be used up
        exactly. The commands that ran each read the bytes DemuxReads hands them. */
    static method Demux(cmds: seq<Command>, data: seq<Byte>, ghost d: (Option<Error>, nat), ghost handed: seq<seq<Byte>>)
        returns (err: Option<Error>)
      requires forall i, j :: 0 <= i < j < |cmds| ==> cmds[i] != cmds[j]
      requires DemuxAt(Requests(cmds), data, 0, 0, [], d, handed)
      modifies set c | c in cmds
      ensures err == d.0 && ReadUpTo(cmds, handed, old(Snapshot(cmds)))
    {
      ghost var reqs := Requests(cmds);
      ghost var before := Snapshot(cmds);
      ghost var rests: seq<seq<Byte>> := [];
      var remaining: int := |data|;
      var buffer := new Reader(data);
      var i := 0;
      while i < |cmds|
        invariant 0 <= i <= |cmds| && fresh(buffer) && buffer.Valid() && buffer.data == data
        invariant remaining == |data| - buffer.off
        invariant DemuxAt(reqs, data, i, buffer.off, rests, d, handed)
        invariant |rests| == i && ReadUpTo(cmds, rests, before)
      {
        var num, e, rest := DemuxStep(cmds, buffer, i, rests, before, d, handed);
        if e.Some? {
          return e;
        }
        rests := rests + [rest];
        remaining := remaining - 1 - num;
        i := i + 1;
      }
      DemuxAtEnd(reqs, data, buffer.off, rests, d, handed);
      if remaining != 0 {
        return Some(IncompleteDecode(remaining));
      }
      err := None;
    }

    /** One pass of the demultiplexing loop: the frame number of command i, then its
        ReadFrom. On an error the loop's outcome and reads are complete; otherwise the
        loop goes on at the next frame number with one more read. */
    static method DemuxStep(cmds: seq<Command>, buffer: Reader, i: nat, ghost rests: seq<seq<Byte>>,
                            ghost before: seq<Fields>, ghost d: (Option<Error>, nat), ghost handed: seq<seq<Byte>>)
        returns (num: nat, err: Option<Error>, ghost rest: seq<Byte>)
      requires i == |rests| < |cmds| == |before| && buffer.Valid()
      requires forall i, j :: 0 <= i < j < |cmds| ==> cmds[i] != cmds[j]
      requires ReadUpTo(cmds, rests, before)
      requires DemuxAt(Requests(cmds), buffer.data, i, buffer.off, rests, d, handed)
      modifies cmds[i], buffer
      ensures buffer.Valid()
      ensures err.Some? ==> err == d.0 && ReadUpTo(cmds, handed, before)
      ensures err.None? ==>
                buffer.off == old(buffer.off) + 1 + num && ReadUpTo(cmds, rests + [rest], before) &&
                DemuxAt(Requests(cmds), buffer.data, i + 1, buffer.off, rests + [rest], d, handed)
    {
      ghost var reqs := Requests(cmds);
      ghost var p := buffer.off;
      num := 0;
      rest := [];
      err := ReadFrameNumber(buffer, i);
      if err.Some? {
        DemuxAtStop(reqs, buffer.data, i, p, rests, d, handed);
        return;
      }
      rest := buffer.Remaining();
      num, err := ReadOne(cmds, i, buffer, rests, before);
      if err.Some? {
        DemuxAtFail(reqs, buffer.data, i, p, rests, d, handed);
        return;
      }
      DemuxAtStep(reqs, buffer.data, i, p, rests, d, handed);
    }

    /** The frame-number check of Demux: the next byte must be there and must be i. */
    static method ReadFrameNumber(buffer: Reader, i: nat) returns (err: Option<Error>)
      requires buffer.Valid()
      modifies buffer
      ensures buffer.Valid()
      ensures old(buffer.off) == |buffer.data| ==> err == Some(EndOfInput)
      ensures old(buffer.off) < |buffer.data| && buffer.data[old(buffer.off)] != i ==> err == Some(InvalidFrameNumber)
      ensures old(buffer.off) < |buffer.data| && buffer.data[old(buffer.off)] == i ==>
                err == None && buffer.off == old(buffer.off) + 1
    {
      var b, e := buffer.ReadByte();
      if e.Some? {
        return e;
      }
      if b != i {
        return Some(InvalidFrameNumber);
      }
      err := None;
    }

    /** ReadFrom of the i-th of distinct commands, the first i of which have read their
        replies; it leaves the others alone. */
    static method ReadOne(cmds: seq<Command>, i: nat, r: Reader, ghost rests: seq<seq<Byte>>, ghost before: seq<Fields>)
        returns (n: nat, err: Option<Error>)
      requires i == |rests| < |cmds| == |before| && r.Valid()
      requires forall i, j :: 0 <= i < j < |cmds| ==> cmds[i] != cmds[j]
      requires ReadUpTo(cmds, rests, before)
      modifies cmds[i], r
      ensures r.Valid() && n == Consumed(cmds[i].request, |old(r.Remaining())|) && r.off == old(r.off) + n
      ensures err == (if ReadFails(cmds[i].request, |old(r.Remaining())|) then Some(EndOfInput) else None)
      ensures ReadUpTo(cmds, rests + [old(r.Remaining())], before)
    {
      n, err := cmds[i].ReadFrom(r);
    }

    /** Feedback: sends the framed batch, reads a reply of exactly 9 + the declared reply
        sizes, checks it, and demultiplexes its payload from byte 7 on. */
    method Feedback(cmds: seq<Command>) returns (err: Option<Error>)
      requires forall i, j :: 0 <= i < j < |cmds| ==> cmds[i] != cmds[j]
      modifies device, set c | c in cmds
      ensures device.sent == old(device.sent) + [FeedbackRequest(Requests(cmds))]
      ensures device.replies == Rest(old(device.replies))
      ensures err == FeedbackOutcome(Requests(cmds), FeedbackReply(9 + TotalResponseSize(Requests(cmds)), old(device.replies))).0
      ensures forall j :: 0 <= j < |cmds| ==>
                cmds[j].calInfo == CalInfoAfterSet(cmds[j].request, calibration, old(cmds[j].calInfo))
      ensures var out := FeedbackOutcome(Requests(cmds), FeedbackReply(9 + TotalResponseSize(Requests(cmds)), old(device.replies)));
              forall j :: 0 <= j < |cmds| ==>
                if j < |out.1| then
                  cmds[j].state == StateAfterRead(cmds[j].request, out.1[j], old(cmds[j].state)) &&
                  cmds[j].responseBuffer == BufferAfterRead(cmds[j].request, out.1[j], old(cmds[j].responseBuffer))
                else
                  cmds[j].state == old(cmds[j].state) && cmds[j].responseBuffer == old(cmds[j].responseBuffer)
    {
      ghost var reqs := Requests(cmds);
      ghost var replies := device.replies;
      var buf, responseSize := BuildFeedbackRequest(cmds);
      var reply := Exchange(buf, 9 + responseSize);
      assert reply == FeedbackReply(9 + TotalResponseSize(reqs), replies);
      ghost var mid := Snapshot(cmds);
      assert forall j :: 0 <= j < |cmds| ==>
               mid[j].state == old(cmds[j].state) && mid[j].responseBuffer == old(cmds[j].responseBuffer);
      err := Respond(cmds, reply);
    }

    /** The reply half of Feedback: the error of a rejected reply, or the demultiplexed
        payload of an accepted one. Calibration records are left alone. */
    static method Respond(cmds: seq<Command>, reply: Result<seq<Byte>>) returns (err: Option<Error>)
      requires forall i, j :: 0 <= i < j < |cmds| ==> cmds[i] != cmds[j]
      modifies set c | c in cmds
      ensures err == FeedbackOutcome(Requests(cmds), reply).0
      ensures ReadUpTo(cmds, FeedbackOutcome(Requests(cmds), reply).1, old(Snapshot(cmds)))
    {
      if reply.Failure? {
        return Some(reply.error);
      }
      err := Demux(cmds, reply.value, DemuxFrom(Requests(cmds), reply.value, 0, 0),
                   DemuxReads(Requests(cmds), reply.value, 0, 0));
    }

    /** The transport half of Feedback: writes the request and reads a reply of exactly
        `expected` bytes, whose checksums and header are then checked. */
    method Exchange(frame: seq<Byte>, expected: nat) returns (reply: Result<seq<Byte>>)
      requires expected >= 9
      modifies device
      ensures device.sent == old(device.sent) + [frame] && device.replies == Rest(old(device.replies))
      ensures reply == FeedbackReply(expected, old(device.replies))
    {
      var _ := device.Write(frame);
      var r := device.Read(expected);
      if r.Failure? {
        return Failure(r.error);
      }
      var recvBuffer := r.value;
      if |recvBuffer| != expected {
        return Failure(IncompleteResponse(|recvBuffer|, expected));
      }
      var err := CheckFeedbackResponse(recvBuffer);
      if err.Some? {
        return Failure(err.value);
      }
      reply := Success(recvBuffer[7..]);
    }
  }
}
