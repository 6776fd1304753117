/** The stream side of u6/stream.go: the scan configuration byte, the decoding of one
    stream packet as a step on the reader's counters, the reading loop over the packets the
    stream delivers, and the start/stop handshakes. */
module Streaming {
  import opened Bytes
  import opened Errors
  import opened Utils
  import opened Calibration
  import opened Transport
  import Feedback

  datatype ChannelConfig = ChannelConfig(positiveChannel: Byte, gainIndex: Byte, differential: Byte)

  datatype ScanConfig = ScanConfig(clockSpeed: Byte, divideBy256: Byte)
  {
    /** GetByte: the clock speed and divider flags added as bytes. */
    function GetByte(): Byte
    {
      (clockSpeed as int + divideBy256) % 256
    }

    /** The clock speeds 4 MHz (0) and 48 MHz (8) and the divider off (0) or on (2). */
    predicate Allowed()
    {
      (clockSpeed == 0 || clockSpeed == 8) && (divideBy256 == 0 || divideBy256 == 2)
    }
  }

  /** The four allowed scan configurations give four different configuration bytes. */
  lemma ScanByteDistinct(s: ScanConfig, t: ScanConfig)
    requires s.Allowed() && t.Allowed()
    ensures s.GetByte() in {0, 2, 8, 10}
    ensures s.GetByte() == t.GetByte() <==> s == t
  {
  }

  datatype StreamConfig = StreamConfig(
    resolutionIndex: Byte,
    samplesPerPacket: Byte,
    settlingFactor: Byte,
    scanConfig: ScanConfig,
    channels: seq<ChannelConfig>)

  datatype ChannelData = ChannelData(
    raw: nat,
    channelIndex: int,
    scanNumber: int,
    packetNumber: int,
    config: StreamConfig,
    calInfo: CalibrationInfo,
    channelConfig: ChannelConfig)
  {
    /** GetCalibratedAIN: the base-resolution conversion with the channel's gain. */
    function GetCalibratedAIN(): (v: Result<real>)
      requires channelConfig.gainIndex > 4 ||
               Feedback.IndicesInRange(config.resolutionIndex, channelConfig.gainIndex)
      ensures v == Feedback.GetCalibratedAIN(calInfo, config.resolutionIndex, channelConfig.gainIndex, false, raw)
    {
      Feedback.GetCalibratedAIN(calInfo, config.resolutionIndex, channelConfig.gainIndex, false, raw)
    }
  }

  /** One entry of the data channel; the timestamp is left out. */
  datatype StreamResponse = StreamResponse(data: seq<ChannelData>, packetNumber: int, errorCode: Byte, error: Option<Error>)

  function ErrorEntry(e: Error): StreamResponse
  {
    StreamResponse([], 0, 0, Some(e))
  }

  /** The locals readStream carries from one packet to the next. */
  datatype StreamState = StreamState(channelIndex: int, scanNumber: int, packetNumber: int)
  {
    predicate Valid(numChannels: nat)
    {
      0 <= channelIndex < numChannels && 0 <= scanNumber && 0 <= packetNumber <= 255
    }
  }

  const InitialState: StreamState := StreamState(0, 0, 0)

  /** The stream reader needs at least one channel (it indexes the channel list) and
      keeps the packet size byte arithmetic free of wrap-around. */
  predicate ConfigOk(cfg: StreamConfig)
  {
    |cfg.channels| > 0 && cfg.samplesPerPacket <= 120
  }

  /** The size of a stream packet: 14 header and trailer bytes and two per sample. */
  function PacketSize(cfg: StreamConfig): nat
  {
    14 + 2 * cfg.samplesPerPacket
  }

  /** The checks on one packet, in the order the reader makes them. */
  function CheckPacket(cfg: StreamConfig, b: seq<Byte>): (e: Option<Error>)
    requires ConfigOk(cfg) && |b| == PacketSize(cfg)
  {
    var c16 := ExtendedChecksum16(b).value;
    if c16 / 256 % 256 != b[5] then Some(InvalidChecksumResponse)
    else if c16 % 256 != b[4] then Some(InvalidChecksumResponse)
    else if ExtendedChecksum8(b).value != b[0] then Some(InvalidChecksumResponse)
    else if b[1] != 0xF9 then Some(InvalidResponseHeader)
    else if b[2] != (4 + cfg.samplesPerPacket) % 256 then Some(InvalidResponseHeader)
    else if b[3] != 0xC0 then Some(InvalidResponseHeader)
    else if b[11] == 59 then None      // data overflow: samples are still delivered
    else if b[11] == 60 then None      // auto-recovery packet
    else if b[11] != 0 then Some(LabJackErrorCode(b[11]))
    else None
  }

  /** A well-formed stream packet: both checksums, the StreamData header announcing
      4 + samplesPerPacket words, and a status byte of 0, 59 (overflow) or 60 (recovery). */
  predicate PacketAccepted(cfg: StreamConfig, b: seq<Byte>)
    requires ConfigOk(cfg) && |b| == PacketSize(cfg)
  {
    ExtendedChecksum16(b).value == LE16(b, 4) &&
    ExtendedChecksum8(b).value == b[0] &&
    b[1] == 0xF9 && b[2] == 4 + cfg.samplesPerPacket && b[3] == 0xC0 &&
    (b[11] == 0 || b[11] == 59 || b[11] == 60)
  }

  /** The ordered checks pass exactly on well-formed packets, and a rejection names the
      checksum, the header, or the device's own error code. */
  lemma CheckPacketAccepts(cfg: StreamConfig, b: seq<Byte>)
    requires ConfigOk(cfg) && |b| == PacketSize(cfg)
    ensures CheckPacket(cfg, b) == None <==> PacketAccepted(cfg, b)
    ensures CheckPacket(cfg, b).Some? ==>
              CheckPacket(cfg, b).value in {InvalidChecksumResponse, InvalidResponseHeader, LabJackErrorCode(b[11])}
  {
    var c16 := ExtendedChecksum16(b).value;
    WordBytes(c16, b[4], b[5]);
    assert (c16 / 256 % 256 == b[5] && c16 % 256 == b[4]) <==> c16 == LE16(b, 4);
    assert (4 + cfg.samplesPerPacket) % 256 == 4 + cfg.samplesPerPacket;
  }

  /** The packet number after `pn`: counts 1..255 and then starts again at 1. */
  function NextPacketNumber(pn: int): (next: int)
    requires 0 <= pn <= 255
    ensures 1 <= next <= 255
    ensures next == (if pn == 255 then 1 else pn + 1)
  {
    (if pn >= 255 then 0 else pn) + 1
  }

  /** Sample k of an accepted packet: the k-th little-endian word after the 12-byte header,
      tagged with the channel and scan the counters reach after k earlier samples. */
  function PacketSample(cfg: StreamConfig, cal: CalibrationInfo, st: StreamState, b: seq<Byte>, k: nat): ChannelData
    requires ConfigOk(cfg) && st.Valid(|cfg.channels|) && |b| == PacketSize(cfg) && k < cfg.samplesPerPacket
  {
    var a := st.channelIndex + k;
    var nc := |cfg.channels|;
    ChannelData(LE16(b, 12 + 2 * k), a % nc, st.scanNumber + a / nc, st.packetNumber, cfg, cal, cfg.channels[a % nc])
  }

  /** The samples of an accepted packet. */
  function PacketSamples(cfg: StreamConfig, cal: CalibrationInfo, st: StreamState, b: seq<Byte>): (d: seq<ChannelData>)
    requires ConfigOk(cfg) && st.Valid(|cfg.channels|) && |b| == PacketSize(cfg)
    ensures |d| == cfg.samplesPerPacket
    ensures forall k :: 0 <= k < |d| ==> d[k] == PacketSample(cfg, cal, st, b, k)
  {
    seq(cfg.samplesPerPacket, k requires 0 <= k < cfg.samplesPerPacket => PacketSample(cfg, cal, st, b, k))
  }

  /** The channel and scan counters after n more samples. */
  function Advance(st: StreamState, n: nat, numChannels: nat): (st': StreamState)
    requires st.Valid(numChannels)
    ensures st'.Valid(numChannels) && st'.packetNumber == st.packetNumber
  {
    var a := st.channelIndex + n;
    ModBounds(a, numChannels);
    StreamState(a % numChannels, st.scanNumber + a / numChannels, st.packetNumber)
  }

  /** One iteration of the reading loop as a function of the counters and the packet. */
  function PacketStep(cfg: StreamConfig, cal: CalibrationInfo, st: StreamState, b: seq<Byte>): (out: (StreamResponse, StreamState))
    requires ConfigOk(cfg) && st.Valid(|cfg.channels|) && |b| == PacketSize(cfg)
    ensures out.1.Valid(|cfg.channels|)
    ensures out.0.error.Some? <==> CheckPacket(cfg, b).Some?
    ensures out.0.error.Some? ==> out.0 == ErrorEntry(CheckPacket(cfg, b).value) && out.1 == st
    ensures out.0.error.None? ==> |out.0.data| == cfg.samplesPerPacket && 1 <= out.0.packetNumber <= 255
    ensures out.0.error.None? ==>
              out.0.packetNumber == NextPacketNumber(st.packetNumber) && out.0.errorCode == 0 &&
              out.0.data == PacketSamples(cfg, cal, st, b) &&
              out.1 == Advance(st, cfg.samplesPerPacket, |cfg.channels|).(packetNumber := out.0.packetNumber)
  {
    match CheckPacket(cfg, b)
    case Some(e) => (ErrorEntry(e), st)
    case None =>
      var pn := NextPacketNumber(st.packetNumber);
      var counters := Advance(st, cfg.samplesPerPacket, |cfg.channels|);
      (StreamResponse(PacketSamples(cfg, cal, st, b), pn, 0, None),
       StreamState(counters.channelIndex, counters.scanNumber, pn))
  }

  /** Decodes one packet the way readStream's loop body does, starting from the counters
      `st`; a rejected packet yields one error entry and leaves the counters alone. */
  method DecodePacket(cfg: StreamConfig, cal: CalibrationInfo, st: StreamState, b: seq<Byte>)
    returns (resp: StreamResponse, st': StreamState)
    requires ConfigOk(cfg) && st.Valid(|cfg.channels|) && |b| == PacketSize(cfg)
    ensures (resp, st') == PacketStep(cfg, cal, st, b)
  {
    var err := CheckPacket(cfg, b);
    if err.Some? {
      return ErrorEntry(err.value), st;
    }
    var data, channelIndex, scanNumber := FillSamples(cfg, cal, st, b);
    var packetNumber := st.packetNumber;
    if packetNumber >= 255 {
      packetNumber := 0;
    }
    packetNumber := packetNumber + 1;
    resp := StreamResponse(data, packetNumber, 0, None);
    st' := StreamState(channelIndex, scanNumber, packetNumber);
  }

  /** The sample loop of readStream: one sample per two payload bytes, with the channel
      counter wrapping into the scan counter. */
  method FillSamples(cfg: StreamConfig, cal: CalibrationInfo, st: StreamState, b: seq<Byte>)
    returns (data: seq<ChannelData>, channelIndex: int, scanNumber: int)
    requires ConfigOk(cfg) && st.Valid(|cfg.channels|) && |b| == PacketSize(cfg)
    ensures data == PacketSamples(cfg, cal, st, b)
    ensures var a := Advance(st, cfg.samplesPerPacket, |cfg.channels|);
            channelIndex == a.channelIndex && scanNumber == a.scanNumber
  {
    var numChannels := |cfg.channels|;
    channelIndex, scanNumber := st.channelIndex, st.scanNumber;
    var bytelimit := (12 + 2 * cfg.samplesPerPacket) % 256;
    assert bytelimit == 12 + 2 * cfg.samplesPerPacket;
    data := [];
    var i := 12;
    while i < bytelimit
      invariant 12 <= i <= bytelimit && i == 12 + 2 * |data|
      invariant 0 <= channelIndex < numChannels
      invariant channelIndex == (st.channelIndex + |data|) % numChannels
      invariant scanNumber == st.scanNumber + (st.channelIndex + |data|) / numChannels
      invariant forall k :: 0 <= k < |data| ==> data[k] == PacketSample(cfg, cal, st, b, k)
      decreases bytelimit - i
    {
      SampleStep(cfg, cal, st, b, |data|, channelIndex, scanNumber);
      var sample := ChannelData(b[i] as int + b[i + 1] as int * 256, channelIndex, scanNumber, st.packetNumber,
                                cfg, cal, cfg.channels[channelIndex]);
      data := data + [sample];
      channelIndex := channelIndex + 1;
      if channelIndex >= numChannels {
        channelIndex := 0;
        scanNumber := scanNumber + 1;
      }
      i := i + 2;
    }
    assert |data| == cfg.samplesPerPacket;
    assert data == PacketSamples(cfg, cal, st, b);
  }

  /** The loop's counters before sample k build sample k, and stepping them gives the
      counters before sample k + 1. */
  lemma SampleStep(cfg: StreamConfig, cal: CalibrationInfo, st: StreamState, b: seq<Byte>, k: nat,
                   channelIndex: int, scanNumber: int)
    requires ConfigOk(cfg) && st.Valid(|cfg.channels|) && |b| == PacketSize(cfg) && k < cfg.samplesPerPacket
    requires channelIndex == (st.channelIndex + k) % |cfg.channels|
    requires scanNumber == st.scanNumber + (st.channelIndex + k) / |cfg.channels|
    ensures 0 <= channelIndex < |cfg.channels|
    ensures ChannelData(b[12 + 2 * k] as int + b[13 + 2 * k] as int * 256, channelIndex, scanNumber, st.packetNumber,
                        cfg, cal, cfg.channels[channelIndex]) == PacketSample(cfg, cal, st, b, k)
    ensures var nc := |cfg.channels|;
            var a := st.channelIndex + k + 1;
            if channelIndex + 1 >= nc then 0 == a % nc && scanNumber + 1 == st.scanNumber + a / nc
            else channelIndex + 1 == a % nc && scanNumber == st.scanNumber + a / nc
  {
    var nc := |cfg.channels|;
    DivModAdd(st.channelIndex + k, 1, nc);
    CounterStep(channelIndex, nc);
  }

  lemma CounterStep(c: int, n: int)
    requires 0 <= c < n
    ensures c + 1 == n ==> (c + 1) % n == 0 && (c + 1) / n == 1
    ensures c + 1 < n ==> (c + 1) % n == c + 1 && (c + 1) / n == 0
  {
    if c + 1 == n {
      DivModUnique(c + 1, n, 1, 0);
    } else {
      DivModUnique(c + 1, n, 0, c + 1);
    }
  }

  lemma ModBounds(a: nat, n: nat)
    requires n > 0
    ensures 0 <= a % n < n && 0 <= a / n
  {
  }

  /** Euclidean division of a sum splits through the remainder. */
  lemma DivModAdd(t: nat, k: nat, n: nat)
    requires n > 0
    ensures (t % n + k) % n == (t + k) % n
    ensures t / n + (t % n + k) / n == (t + k) / n
  {
    var q, r := t / n, t % n;
    var q2, r2 := (r + k) / n, (r + k) % n;
    assert t + k == (q + q2) * n + r2 by {
      assert t == q * n + r;
      assert r + k == q2 * n + r2;
      assert (q + q2) * n == q * n + q2 * n;
    }
    DivModUnique(t + k, n, q + q2, r2);
  }

  lemma DivModUnique(x: int, n: int, q: int, r: int)
    requires n > 0 && 0 <= r < n && x == q * n + r
    ensures x / n == q && x % n == r
  {
    var d := x / n;
    assert x == d * n + x % n;
    assert (q - d) * n == x % n - r;
    if q - d >= 1 {
      MulAtLeast(q - d, n);
    } else if d - q >= 1 {
      MulAtLeast(d - q, n);
    }
  }

  lemma MulAtLeast(a: int, n: int)
    requires a >= 1 && n > 0
    ensures a * n >= n
  {
    assert a * n == (a - 1) * n + n;
    assert (a - 1) * n >= 0;
  }

  // ---------------------------------------------------------------------------------
  // The reading loop over a finite run of packets
  // ---------------------------------------------------------------------------------

  /** The entries and final counters after the packets, from the initial counters. */
  function Run(cfg: StreamConfig, cal: CalibrationInfo, packets: seq<seq<Byte>>): (out: (seq<StreamResponse>, StreamState))
    requires ConfigOk(cfg)
    requires forall i :: 0 <= i < |packets| ==> |packets[i]| == PacketSize(cfg)
    ensures |out.0| == |packets| && out.1.Valid(|cfg.channels|)
    decreases |packets|
  {
    if |packets| == 0 then ([], InitialState)
    else
      var prev := Run(cfg, cal, packets[..|packets| - 1]);
      var step := PacketStep(cfg, cal, prev.1, packets[|packets| - 1]);
      (prev.0 + [step.0], step.1)
  }

  /** All samples of a list of entries, in order. */
  function Samples(rs: seq<StreamResponse>): seq<ChannelData>
  {
    if |rs| == 0 then [] else Samples(rs[..|rs| - 1]) + rs[|rs| - 1].data
  }

  /** readStream without its goroutine and channels: every packet the stream delivers is
      decoded in turn and yields one entry. */
  method ReadStream(cfg: StreamConfig, cal: CalibrationInfo, packets: seq<seq<Byte>>)
    returns (responses: seq<StreamResponse>)
    requires ConfigOk(cfg)
    requires forall i :: 0 <= i < |packets| ==> |packets[i]| == PacketSize(cfg)
    ensures responses == Run(cfg, cal, packets).0
  {
    var st := InitialState;
    responses := [];
    var j := 0;
    while j < |packets|
      invariant 0 <= j <= |packets|
      invariant (responses, st) == Run(cfg, cal, packets[..j])
    {
      assert packets[..j + 1][..j] == packets[..j];
      var resp;
      resp, st := DecodePacket(cfg, cal, st, packets[j]);
      responses := responses + [resp];
      j := j + 1;
    }
    assert packets[..j] == packets;
  }

  /** The packet numbers of the accepted entries, in order. */
  function AcceptedNumbers(rs: seq<StreamResponse>): seq<int>
  {
    if |rs| == 0 then []
    else AcceptedNumbers(rs[..|rs| - 1]) + (if rs[|rs| - 1].error.None? then [rs[|rs| - 1].packetNumber] else [])
  }

  /** The counter after n accepted packets: 0 before the first, then 1..255 round and round. */
  function CounterAfter(n: nat): int
  {
    if n == 0 then 0 else (n - 1) % 255 + 1
  }

  lemma NextAfterCount(n: nat)
    ensures 0 <= CounterAfter(n) <= 255
    ensures NextPacketNumber(CounterAfter(n)) == n % 255 + 1 == CounterAfter(n + 1)
  {
  }

  /** Across a run, the k-th accepted entry is numbered k mod 255 + 1 (1, 2, ..., 255, 1, ...),
      every rejected entry is numbered 0, and the counter is left where the accepted entries
      brought it. */
  lemma {:induction false} RunPacketNumbering(cfg: StreamConfig, cal: CalibrationInfo, packets: seq<seq<Byte>>)
    requires ConfigOk(cfg)
    requires forall i :: 0 <= i < |packets| ==> |packets[i]| == PacketSize(cfg)
    ensures var (rs, st) := Run(cfg, cal, packets);
            var a := AcceptedNumbers(rs);
            (forall k :: 0 <= k < |a| ==> a[k] == k % 255 + 1) &&
            (forall i :: 0 <= i < |rs| && rs[i].error.Some? ==> rs[i].packetNumber == 0) &&
            st.packetNumber == CounterAfter(|a|)
    decreases |packets|
  {
    if |packets| > 0 {
      var init := packets[..|packets| - 1];
      RunPacketNumbering(cfg, cal, init);
      var prev := Run(cfg, cal, init);
      var step := PacketStep(cfg, cal, prev.1, packets[|packets| - 1]);
      var rs := prev.0 + [step.0];
      assert Run(cfg, cal, packets) == (rs, step.1);
      assert rs[..|rs| - 1] == prev.0;
      var n := |AcceptedNumbers(prev.0)|;
      NextAfterCount(n);
      forall i | 0 <= i < |rs| && rs[i].error.Some?
        ensures rs[i].packetNumber == 0
      {
        if i < |prev.0| {
          assert rs[i] == prev.0[i];
        }
      }
    } else {
      assert AcceptedNumbers([]) == [];
    }
  }

  /** Across a run, the n-th sample overall belongs to channel n mod numChannels of scan
      n div numChannels, and the counters point just past the last sample. */
  lemma {:induction false} RunSampleNumbering(cfg: StreamConfig, cal: CalibrationInfo, packets: seq<seq<Byte>>)
    requires ConfigOk(cfg)
    requires forall i :: 0 <= i < |packets| ==> |packets[i]| == PacketSize(cfg)
    ensures var (rs, st) := Run(cfg, cal, packets);
            var nc := |cfg.channels|;
            var all := Samples(rs);
            st.channelIndex == |all| % nc && st.scanNumber == |all| / nc &&
            NumberedFrom(all, 0, nc)
    decreases |packets|
  {
    var nc := |cfg.channels|;
    if |packets| > 0 {
      var init := packets[..|packets| - 1];
      RunSampleNumbering(cfg, cal, init);
      var prev := Run(cfg, cal, init);
      var step := PacketStep(cfg, cal, prev.1, packets[|packets| - 1]);
      assert Run(cfg, cal, packets) == (prev.0 + [step.0], step.1);
      var rs := prev.0 + [step.0];
      assert rs[..|rs| - 1] == prev.0;
      var before := Samples(prev.0);
      var t := |before|;
      assert Samples(rs) == before + step.0.data;
      PacketSampleNumbering(cfg, cal, prev.1, packets[|packets| - 1], t);
      NumberingAppend(before, step.0.data, nc);
    } else {
      assert Samples([]) == [];
    }
  }

  /** Samples numbered n mod nc and n div nc from position 0 on. */
  ghost predicate NumberedFrom(d: seq<ChannelData>, t: nat, nc: nat)
    requires nc > 0
  {
    forall k :: 0 <= k < |d| ==> d[k].channelIndex == (t + k) % nc && d[k].scanNumber == (t + k) / nc
  }

  lemma NumberingAppend(before: seq<ChannelData>, data: seq<ChannelData>, nc: nat)
    requires nc > 0 && NumberedFrom(before, 0, nc) && NumberedFrom(data, |before|, nc)
    ensures NumberedFrom(before + data, 0, nc)
  {
    var all := before + data;
    var t := |before|;
    forall n | 0 <= n < |all|
      ensures all[n].channelIndex == n % nc && all[n].scanNumber == n / nc
    {
      if n >= t {
        assert all[n] == data[n - t];
      } else {
        assert all[n] == before[n];
      }
    }
  }

  /** One packet continues the numbering of the t samples before it. */
  lemma PacketSampleNumbering(cfg: StreamConfig, cal: CalibrationInfo, st: StreamState, b: seq<Byte>, t: nat)
    requires ConfigOk(cfg) && st.Valid(|cfg.channels|) && |b| == PacketSize(cfg)
    requires st.channelIndex == t % |cfg.channels| && st.scanNumber == t / |cfg.channels|
    ensures var (r, st') := PacketStep(cfg, cal, st, b);
            var nc := |cfg.channels|;
            st'.channelIndex == (t + |r.data|) % nc && st'.scanNumber == (t + |r.data|) / nc &&
            NumberedFrom(r.data, t, nc)
  {
    var nc := |cfg.channels|;
    if CheckPacket(cfg, b).None? {
      PacketSamplesNumbered(cfg, cal, st, b, t);
      DivModAdd(t, cfg.samplesPerPacket, nc);
    }
  }

  lemma PacketSamplesNumbered(cfg: StreamConfig, cal: CalibrationInfo, st: StreamState, b: seq<Byte>, t: nat)
    requires ConfigOk(cfg) && st.Valid(|cfg.channels|) && |b| == PacketSize(cfg)
    requires st.channelIndex == t % |cfg.channels| && st.scanNumber == t / |cfg.channels|
    ensures NumberedFrom(PacketSamples(cfg, cal, st, b), t, |cfg.channels|)
  {
    var nc := |cfg.channels|;
    var d := PacketSamples(cfg, cal, st, b);
    forall k | 0 <= k < |d|
      ensures d[k].channelIndex == (t + k) % nc && d[k].scanNumber == (t + k) / nc
    {
      assert d[k] == PacketSample(cfg, cal, st, b, k);
      DivModAdd(t, k, nc);
    }
  }

  /** Each sample carries the packet number of the entry before its own: one less than its
      entry's number, except after 255, where the samples say 255 and the entry 1. */
  lemma SamplePacketNumberLags(cfg: StreamConfig, cal: CalibrationInfo, st: StreamState, b: seq<Byte>, k: nat)
    requires ConfigOk(cfg) && st.Valid(|cfg.channels|) && |b| == PacketSize(cfg)
    requires CheckPacket(cfg, b).None? && k < cfg.samplesPerPacket
    ensures var r := PacketStep(cfg, cal, st, b).0;
            r.data[k].packetNumber == st.packetNumber &&
            r.data[k].packetNumber == (if r.packetNumber == 1 && st.packetNumber == 255 then 255 else r.packetNumber - 1)
  {
  }

  /** Sample k of an accepted packet holds the k-th word of the payload and the configuration
      of the channel it was taken on. */
  lemma PacketSampleContents(cfg: StreamConfig, cal: CalibrationInfo, st: StreamState, b: seq<Byte>, k: nat)
    requires ConfigOk(cfg) && st.Valid(|cfg.channels|) && |b| == PacketSize(cfg)
    requires CheckPacket(cfg, b).None? && k < cfg.samplesPerPacket
    ensures var d := PacketStep(cfg, cal, st, b).0.data[k];
            d.raw == b[12 + 2 * k] as int + 256 * (b[13 + 2 * k] as int) && d.raw < 0x1_0000 &&
            0 <= d.channelIndex < |cfg.channels| && d.channelConfig == cfg.channels[d.channelIndex] &&
            d.calInfo == cal && d.config == cfg
  {
  }

  // ---------------------------------------------------------------------------------
  // The start and stop handshakes
  // ---------------------------------------------------------------------------------

  const StartCommand: seq<Byte> := [0xA8, 0xA8]
  const StopCommand: seq<Byte> := [0xB0, 0xB0]

  /** The checks on the 4-byte reply to StreamStart, in order. */
  function CheckStartResponse(b: seq<Byte>): (e: Option<Error>)
    requires |b| == 4
  {
    if NormalChecksum8(b[1..]) != b[0] then Some(InvalidChecksumResponse)
    else if b[1] != 0xA9 || b[3] != 0 then Some(InvalidResponseHeader)
    else if b[2] != 0 then Some(ResponseErrorCode(b[2]))
    else None
  }

  /** The checks on the 4-byte reply to StreamStop; error 52 (stream not running) is fine. */
  function CheckStopResponse(b: seq<Byte>): (e: Option<Error>)
    requires |b| == 4
  {
    if NormalChecksum8(b[1..]) != b[0] then Some(InvalidChecksum8Response)
    else if b[1] != 0xB1 || b[3] != 0 then Some(InvalidResponseHeader)
    else if b[2] != 0 && b[2] != 52 then Some(ResponseErrorCode(b[2]))
    else None
  }

  /** Exactly one reply accepts a start: the echo [0xA9, 0xA9, 0, 0]. */
  lemma StartAcceptsOnlyEcho(b: seq<Byte>)
    requires |b| == 4
    ensures CheckStartResponse(b) == None <==> b == [0xA9, 0xA9, 0, 0]
  {
    if b[1] == 0xA9 && b[2] == 0 && b[3] == 0 {
      ChecksumOfThree(b[1..], 0xA9);
      assert b[1..] == [0xA9, 0, 0];
    }
  }

  /** Exactly two replies accept a stop: the plain echo, and the echo with error 52. */
  lemma StopAcceptsEchoOr52(b: seq<Byte>)
    requires |b| == 4
    ensures CheckStopResponse(b) == None <==> b == [0xB1, 0xB1, 0, 0] || b == [0xE5, 0xB1, 52, 0]
  {
    if b[1] == 0xB1 && b[3] == 0 && (b[2] == 0 || b[2] == 52) {
      ChecksumOfThree(b[1..], b[1] as int + b[2]);
    }
  }

  lemma ChecksumOfThree(t: seq<Byte>, total: nat)
    requires |t| == 3 && t[0] as int + t[1] + t[2] == total && total < 255
    ensures NormalChecksum8(t) == total
  {
    assert t[..1][..0] == [];
    assert Sum(t[..1]) == t[0];
    assert t[..2][..1] == t[..1];
    assert Sum(t[..2]) == t[0] as int + t[1];
    assert t[..2] == t[..|t| - 1];
    assert Sum(t) == total;
    assert Sum(t) % 0x1_0000 == total;
    assert Fold(total) == total;
  }

  /** The outcome of a handshake given the replies the device holds: the transfer error,
      a short reply, or the verdict of the checks. */
  function HandshakeOutcome(replies: seq<seq<Byte>>, start: bool): Option<Error>
  {
    if |replies| == 0 then Some(TransportError)
    else
      var r := Prefix(replies[0], 4);
      if |r| != 4 then Some(IncompleteResponse(|r|, 4))
      else if start then CheckStartResponse(r) else CheckStopResponse(r)
  }

  /** Stream.start: sends StreamStart and checks the reply. */
  method Start(dev: Device) returns (err: Option<Error>)
    modifies dev
    ensures dev.sent == old(dev.sent) + [StartCommand]
    ensures dev.replies == if old(dev.replies) == [] then [] else old(dev.replies)[1..]
    ensures err == HandshakeOutcome(old(dev.replies), true)
  {
    err := Handshake(dev, StartCommand, true);
  }

  /** Stream.stop: sends StreamStop and checks the reply. */
  method Stop(dev: Device) returns (err: Option<Error>)
    modifies dev
    ensures dev.sent == old(dev.sent) + [StopCommand]
    ensures dev.replies == if old(dev.replies) == [] then [] else old(dev.replies)[1..]
    ensures err == HandshakeOutcome(old(dev.replies), false)
  {
    err := Handshake(dev, StopCommand, false);
  }

  method Handshake(dev: Device, command: seq<Byte>, start: bool) returns (err: Option<Error>)
    modifies dev
    ensures dev.sent == old(dev.sent) + [command]
    ensures dev.replies == if old(dev.replies) == [] then [] else old(dev.replies)[1..]
    ensures err == HandshakeOutcome(old(dev.replies), start)
  {
    var _ := dev.Write(command);
    var r := dev.Read(4);
    if r.Failure? {
      return Some(r.error);
    }
    var recvBuffer := r.value;
    if |recvBuffer| != 4 {
      return Some(IncompleteResponse(|recvBuffer|, 4));
    }
    err := if start then CheckStartResponse(recvBuffer) else CheckStopResponse(recvBuffer);
  }
}
