# LabJack U6 driver core, modelled in Dafny

This project models the protocol engine of the Go driver for the LabJack U6 USB data-acquisition
device (package `u6`), and proves properties of that model:

- the 8- and 16-bit checksums that frame every command, and the routines that write them into a
  buffer in place;
- the 64-bit fixed-point decoder used for calibration constants;
- the parsing of the ConfigU6 reply into a device description;
- `initConnection` and `getCalibrationInfo`: the ConfigU6 exchange and the ten calibration-memory
  reads;
- the Feedback command codec: each command's wire bytes and the size of its reply, reading a reply
  back into the command, the calibrated analogue reading, and the `Feedback` batch that frames the
  commands, exchanges the frame with the device and hands each command its part of the reply;
- the streaming packet decoder: packet checks, sample numbering across packets, packet-number
  wrap-around, and the stream start/stop handshakes.

The USB pipes are a `Transport.Device` object holding a log of the frames sent and a queue of the
replies the device will give. `Write` always sends the whole frame. `Read(capacity)` pops the next reply,
cut to the size of the caller's buffer; when no reply is pending it gives a transport error. Every
reply the device could give is therefore a parameter of the proofs.

Modules, one per source file (plus shared definitions):

| module | file | models |
|---|---|---|
| `Bytes` | bytes.dfy | bytes, byte sums, little-endian words, two's complement |
| `Errors` | errors.dfy | the driver's error values, `Option` and `Result` |
| `Calibration` | calibration.dfy | the `CalibrationInfo` record |
| `Utils` | utils.dfy | `u6/utils.go` |
| `Device` | device.dfy | `u6/device.go` |
| `Feedback` | feedback.dfy | `u6/feedback.go` |
| `Streaming` | stream.dfy | `u6/stream.go` |
| `Session` | session.dfy | the exchanges of `u6/u6.go` as functions of the device's replies |
| `Driver` | u6.dfy | the `U6` object of `u6/u6.go`: its methods over the transport |
| `Transport` | transport.dfy | the USB endpoints, as a sent log and a reply queue |

Go's `uint8` and `uint16` arithmetic is written out as `% 256` and `% 65536`. Go `float64`
values are Dafny `real`s. The checksum routines work in place on an `array<Byte>` prefix
(Go's `buf[:n]`). Each is proved against a function on sequences, and the protocol properties
are proved about that function. Each Feedback command is a `Command` object: a `Request` value
holding the exported settings, plus the fields that `ReadFrom` and `SetCalibrationInfo` update.
The byte stream a command reads from (Go's `bytes.Buffer`) is a `Reader` object. The accessors
`DeviceDesc` and `GetCalibrationInfo` (u6/u6.go:45-47, 269-271) are the functions
`Driver.U6.GetDeviceDesc` and `Driver.U6.GetCalibrationInfo`, which return the stored fields.

## Model

| member | source | states |
|---|---|---|
| Utils.NormalChecksum8 | u6/utils.go:9-23 | the result is the 16-bit byte sum folded twice (high byte added to low byte), which is congruent to that sum modulo 255 |
| Utils.ExtendedChecksum16 | u6/utils.go:44-55 | fails with the too-short error exactly when the buffer has fewer than 7 bytes; otherwise the sum of bytes 6 onward modulo 65536 |
| Utils.ExtendedChecksum8 | u6/utils.go:58-75 | fails exactly when the buffer has fewer than 6 bytes; otherwise the double fold of the sum of bytes 1..5, congruent to that sum modulo 255 |
| Utils.ExtendedChecksum | u6/utils.go:26-41 | the buffer prefix becomes ExtendedChecksumOf of its old contents; bytes past the prefix are unchanged |
| Utils.ExtendedChecksumWrites | u6/utils.go:26-41 | bytes 4-5 receive the 16-bit payload sum, low byte first; byte 0 receives the 8-bit checksum of the header as it was before bytes 4-5 were rewritten |
| Utils.ExtendedChecksumStores16 | u6/utils.go:26-41 | after the call, the 16-bit check of the buffer agrees with the checksum stored in bytes 4-5 |
| Utils.ExtendedChecksumSelfConsistent | u6/utils.go:26-41 | when bytes 4-5 already held the payload sum, the 8-bit check of the result agrees with byte 0 |
| Utils.ExtendedChecksumStaleHeader | u6/utils.go:26-41 | a 7-byte buffer whose byte 0 does not pass the 8-bit check after the call, because that checksum was computed from the old bytes 4-5 |
| Utils.SetChecksum | u6/utils.go:77-91 | reports the too-short error exactly when n < 6; the prefix becomes SetChecksumOf of its old contents and nothing else changes |
| Utils.SetChecksum16 | u6/utils.go:93-100 | byte 4 becomes the low byte of the payload sum, byte 5 becomes 0 (the uint8 accumulator), all other bytes are kept |
| Utils.SetChecksum8 | u6/utils.go:102-109 | byte 0 becomes (sum of bytes 1..num-1 mod 256) + 1 mod 256, all other bytes are kept |
| Utils.SetChecksumClosedForm | u6/utils.go:77-109 | for an extended command (command-type field 15) bytes 4, 5 and 0 as above; for a normal command only byte 0 changes, to the wrapped sum of bytes 1 onward plus one |
| Utils.SetChecksumMeetsExtendedChecks | u6/utils.go:44-109 | when the payload sum fits a byte and the header sum carries exactly once, the frame setChecksum writes passes both extended checks |
| Utils.SetChecksumOffByOneWithoutCarry | u6/utils.go:44-109 | when the header sum does not carry, the byte 0 setChecksum writes is one more than the 8-bit extended checksum |
| Utils.ExtendedTag | u6/utils.go:82-84 | the command byte 0xF8 selects the extended branch |
| Utils.SetChecksumVectorZeroPayload | u6/utils_test.go:27-45 | the test's 12-byte ReadMem-style frame gets byte 0 = 7 and no other change |
| Utils.SetChecksumVectorPayload15 | u6/utils_test.go:47-61 | the test's frame gets byte 0 = 11 and byte 4 = 15 |
| Utils.Uint8ArrayToFloat64 | u6/utils.go:111-123 | the whole part is the signed 32-bit word at start+4; the fraction is the unsigned word at start divided by 2^32 |
| Utils.FixedPointInjective | u6/utils.go:111-123 | two 8-byte groups that decode to the same value are the same bytes |
| Utils.FixedPointVectorPositive | u6/utils_test.go:63-68 | the first test vector decodes to 33590 + 647233536/2^32 |
| Utils.FixedPointVectorNegative | u6/utils_test.go:70-74 | the second test vector decodes to -1 + 3839724478/2^32 |
| Utils.WrappingSumIsSumMod | u6/utils.go:15-17 | the byte-by-byte wrapping accumulator equals the exact sum modulo the accumulator's width |
| Device.ParseConfigBytes | u6/device.go:46-68 | fails exactly when the reply is longer than 38 bytes; otherwise each version is the `%d.%02d` text of its (major, minor) bytes and parses back to them, the serial number, product and local IDs and version info are the little-endian fields, and the type is U6 exactly for 4 and U6-Pro exactly for 12 |
| Device.VersionFormat | u6/device.go:59-61 | a version text is digits, one dot and digits; the major part has no leading zero, and the minor part has exactly two digits below 100, with a leading zero below 10 |
| Device.VersionRoundTrip | u6/device.go:59-61 | the "%d.%02d" version text parses back to the two bytes it was printed from |
| Device.Decimal | u6/device.go:59-61 | `%d`: a non-empty digit string, "0" for zero and with no leading zero otherwise, one digit exactly below 10 |
| Device.Decimal2 | u6/device.go:59-61 | `%02d`: at least two digits, exactly two below 100, with a leading zero exactly below 10 |
| Device.ParseDecimalRoundTrip | u6/device.go:59-61 | a decimal numeral parses back to its value |
| Device.ParseConfigReadsOnly | u6/device.go:58-67 | the description depends only on bytes 9-21 and 37 |
| Feedback.Encode | u6/feedback.go:71-81 | every command's wire bytes start with its IOType and have the length that IOType's command has |
| Feedback.AIN24Fields | u6/feedback.go:110-129 | AIN24 bytes carry the channel, resolution in the low nibble, gain in the high nibble, and the settling factor plus 128 when differential |
| Feedback.BitFields | u6/feedback.go:223-228 | BitDirWrite and BitStateWrite put the bit number in the low 7 bits of byte 1 and the flag in its top bit (also u6/feedback.go:254-259) |
| Feedback.DecodeEncode | u6/feedback.go:71-259 | decoding a command's wire bytes gives back the command, for every command whose fields fit their wire fields |
| Feedback.ParseEncodeAll | u6/feedback.go:71-259 | the concatenated commands, with or without a zero pad byte, parse back to the command list |
| Feedback.EncodeAllSnoc | u6/u6.go:294-306 | encoding one more command appends its bytes to the batch |
| Feedback.ConsumedVersusResponseSize | u6/feedback.go:89-269 | with at least ResponseSize bytes left (plus the frame-number byte of AIN24), a read consumes ResponseSize bytes (AIN24: one more) and succeeds |
| Feedback.Reader.ReadByte | u6/u6.go:390 | takes the next byte, or fails with end-of-input when none is left |
| Feedback.Reader.Read | u6/feedback.go:133 | takes up to n bytes; reports end-of-input only when nothing is left and n > 0 |
| Feedback.Command.ReadFrom | u6/feedback.go:89-264 | consumes Consumed bytes, fails exactly when ReadFails, and sets the state and response buffer from the bytes it was given (AIN24 fills the buffer; BitStateRead and BitDirWrite store the bit state or 0 on end-of-input; the write commands read nothing) |
| Feedback.Command.SetCalibrationInfo | u6/feedback.go:84-86 | stores the calibration for AIN24 and PortDirWrite; BitStateRead, BitDirWrite and BitStateWrite declare empty SetCalibrationInfo methods, so for them nothing changes; state and response buffer are always kept (also u6/feedback.go:144-146, 206-207, 244-245, 271-273) |
| Feedback.Command.GetState | u6/feedback.go:210-212 | high exactly when the stored state is 1 |
| Feedback.Command.GetVoltage | u6/feedback.go:149-151 | the calibrated reading of the 24-bit little-endian value in response bytes 0-2, with the high-resolution formula |
| Feedback.GetCalibratedAIN | u6/feedback.go:153-176 | fails exactly for a gain index above 4; otherwise the piecewise-linear conversion around the centre constant, with the slope and negative-slope constants the index selects |
| Feedback.CalibrationIndexRange | u6/feedback.go:163-175 | gains 0-3 always index inside the 40 constants; gain 4 does so only for resolution 8 or less, and for higher resolutions the centre index is 41 |
| Feedback.CalibratedAINMonotonic | u6/feedback.go:153-176 | with a non-negative slope and a non-positive negative slope, a larger raw reading never converts to a smaller value |
| Feedback.CalibratedAINSign | u6/feedback.go:171-175 | with slopes of the usual signs, the value is negative exactly below the centre and zero exactly at it |
| Streaming.ScanByteDistinct | u6/stream.go:32-48 | the scan byte is one of 0, 2, 8 or 10, and distinct clock settings give distinct bytes |
| Streaming.ChannelData.GetCalibratedAIN | u6/stream.go:88-90 | a sample converts with the stream's resolution, the channel's gain and the low-resolution formula |
| Streaming.CheckPacketAccepts | u6/stream.go:181-221 | a packet is accepted exactly when both checksums match, the header is F9 / 4+samples / C0 and the error byte is 0, 59 or 60; any rejection is a checksum, header or device error |
| Streaming.NextPacketNumber | u6/stream.go:246-250 | the packet counter stays in 1..255 and wraps from 255 to 1 |
| Streaming.PacketStep | u6/stream.go:170-250 | a rejected packet yields only its error and leaves the counters unchanged; an accepted one yields its samples, the next packet number after the counter (1..255, wrapping from 255 to 1) and error code 0, and carries on with that number and the channel and scan counters advanced by samplesPerPacket |
| Streaming.RunPacketNumbering | u6/stream.go:246-250 | across any sequence of packets, the k-th accepted entry is numbered k mod 255 + 1 (1, 2, ..., 255, 1, ...), rejected entries are numbered 0 and leave the counter alone |
| Streaming.PacketSamples | u6/stream.go:228-244 | one sample per sample slot, each the PacketSample of its slot |
| Streaming.DecodePacket | u6/stream.go:170-250 | computes PacketStep |
| Streaming.FillSamples | u6/stream.go:228-244 | the loop builds PacketSamples and leaves channel index and scan number advanced by the number of samples |
| Streaming.ReadStream | u6/stream.go:159-252 | the responses are those of Run over the packets in order |
| Streaming.RunSampleNumbering | u6/stream.go:236-243 | across any sequence of packets, sample t carries channel index t mod nChannels and scan number t div nChannels |
| Streaming.PacketSampleNumbering | u6/stream.go:236-243 | one packet continues the numbering from where the previous packets left it |
| Streaming.SamplePacketNumberLags | u6/stream.go:232 | samples carry the packet number from before the increment, one less than the response's (255 when it wrapped to 1) |
| Streaming.PacketSampleContents | u6/stream.go:229-237 | sample k's raw value is bytes 12+2k and 13+2k little-endian, read with its channel's configuration and the device calibration |
| Streaming.StartAcceptsOnlyEcho | u6/stream.go:299-308 | the StreamStart reply is accepted exactly when it is A9 A9 00 00 |
| Streaming.StopAcceptsEchoOr52 | u6/stream.go:357-368 | the StreamStop reply is accepted exactly when it is B1 B1 00 00, or E5 B1 34 00 (error 52, stream not running) |
| Streaming.Start | u6/stream.go:257-309 | sends the StreamStart frame, consumes one reply and returns the handshake verdict on it |
| Streaming.Stop | u6/stream.go:315-369 | sends the StreamStop frame, consumes one reply and returns the handshake verdict on it |
| Session.ValidateAccepts | u6/u6.go:113-152 | the validator accepts exactly the well-formed ConfigU6 replies, checks in the source's order, and each rejection is one of its errors |
| Session.ValidateIgnoresZeroTail | u6/u6.go:194-205 | validating the 38 reply bytes inside the zeroed 64-byte buffer gives the same verdict as validating them alone |
| Session.ConfigRequestBytes | u6/u6.go:50-61 | extendedChecksum turns the ConfigU6 template into the request constant, with checksum byte 11 |
| Session.InitOutcomeSpec | u6/u6.go:49-111 | initConnection succeeds exactly when a reply of at least 38 bytes is pending and its first 38 bytes are well formed; then the description is parseConfigBytes of them |
| Session.CalBlockRequestIndependent | u6/u6.go:215-224 | the ReadMem request for block i is the same whatever the rest of the send buffer holds |
| Session.BlockContents | u6/u6.go:236-260 | a block reply that passes the checks has the ReadMem header, and each of its four constants is the fixed-point value at byte 8+8m |
| Session.ReadBlocksSucceeds | u6/u6.go:214-262 | the block loop succeeds exactly when each remaining block has a full ReadMem reply |
| Session.ReadBlocksContents | u6/u6.go:214-262 | after a successful loop, constant 4k+m is group m of block k's reply, and the earlier constants are kept |
| Session.ReadBlocksTransport | u6/u6.go:214-262 | a successful loop sends one request per block and consumes one reply per block |
| Session.CalibrationOutcomeSucceeds | u6/u6.go:155-266 | getCalibrationInfo succeeds exactly when the ConfigU6 reply is well formed and all ten block replies are full ReadMem replies |
| Session.CalibrationOutcomeContents | u6/u6.go:155-266 | on success it sends the eleven requests, consumes eleven replies, sets product ID 6 and the high-resolution bit from byte 37, and fills every constant from its block |
| Session.FeedbackRequestSpec | u6/u6.go:278-326 | the Feedback frame is header 0 F8 len 00 checksums 00, the commands and a zero pad to an even length, with the word count and checksums set; its command bytes parse back to the batch |
| Session.CheckFeedbackResponseSpec | u6/u6.go:366-384 | the Feedback reply is accepted exactly when it is well formed; the checksum error occurs exactly when the 16-bit checksum does not match |
| Session.FeedbackReplySucceeds | u6/u6.go:357-384 | the reply is accepted exactly when a pending reply holds the expected number of bytes and passes the checks; its payload is what follows the 7-byte header |
| Session.DemuxSpec | u6/u6.go:386-408 | demultiplexing succeeds exactly when every command finds its frame number and its reply, and no byte is left over |
| Session.FeedbackOutcomeSucceeds | u6/u6.go:386-408 | Feedback succeeds exactly when the reply is accepted and demultiplexes cleanly; then every command has read its part |
| Session.FeedbackOutcomeReads | u6/u6.go:386-408 | command 0 reads what follows frame number 0, and each next command reads what follows the next frame number right after what the previous one consumed |
| Session.DemuxReadsLength | u6/u6.go:387-403 | the commands that read are exactly those before the one where demultiplexing stopped |
| Driver.U6.InitConnection | u6/u6.go:49-111 | sends ConfigU6, consumes one reply, and stores the parsed description exactly when InitOutcome succeeds; otherwise returns its error and keeps the old description |
| Driver.U6.ReadCalibrationInfo | u6/u6.go:155-266 | sends and consumes what CalibrationOutcome says; replaces the calibration exactly on success |
| Driver.U6.BuildFeedbackRequest | u6/u6.go:285-326 | the frame is FeedbackRequest of the batch and the expected reply size is the sum of the commands' response sizes; each command gets the device calibration |
| Driver.U6.EncodeCommands | u6/u6.go:294-306 | the send buffer is the header followed by the commands' bytes in order |
| Driver.U6.FrameFeedback | u6/u6.go:309-326 | the pad, word count and checksums give SetChecksumOf of the padded frame |
| Driver.U6.Exchange | u6/u6.go:343-384 | sends the frame, consumes one reply, and returns FeedbackReply of it |
| Driver.U6.Demux | u6/u6.go:386-408 | the loop returns the demultiplexing verdict, and each command reads exactly its part of the payload |
| Driver.U6.Feedback | u6/u6.go:281-409 | sends the framed batch, consumes one reply, returns the FeedbackOutcome verdict; every command that read has the state and buffer of its read, the others are unchanged, and the calibration is set as SetCalibrationInfo promises |

## Left out

- The USB layer (contexts, interfaces, endpoint opening, `DefaultInterface`, `Close`, `OpenUSBConnection`): replaced by the `Transport.Device` reply queue; an endpoint failure is one transport error.
- Short writes (`ErrEndpointSendError`): the model's `Write` always sends the whole frame, so this error path does not arise.
- `Stream.Start` and `Stream.Stop` (u6/stream.go:99-142, 372-374): goroutines, channels and the stop signal are concurrency. `readStream` is modelled as a run over a sequence of packets.
- Timestamps in stream responses (`time.Now`) are left out, and so is the `io.ReadFull` error path of `readStream` (a read error is a transport matter).
- `Uint8ArrayToFloat64`, `GetCalibratedAIN`: `float64` rounding is not modelled; values are exact reals.
- The debug `fmt.Printf` output is not modelled: it has no effect on results.
- u6/u6.go:411-537 is a second copy of u6/feedback.go:50-176: the `FeedbackCommand` interface, PortDirWrite, AIN24 and `getCalibratedAIN`. It differs only in returning the byte counts of `WriteTo` and `ReadFrom` as `int64` instead of `int`, which is the width `Feedback` accumulates them in (u6/u6.go:298-304, 398-402). The model's counts are unbounded integers, so the two copies are one model.
- The default calibration tables and stream configuration constructors of the package are left out; a calibration is a parameter.
- `Driver.U6.Feedback`: requires the commands in one batch to be distinct objects. The same command twice would read two replies into one object, and the model specifies each command's final state separately.
- `Device.ParseConfigBytes`: requires at least 38 bytes; the Go function indexes byte 37 and would panic on a shorter slice, and its only caller passes exactly 38.
- `Feedback.Command.GetVoltage`: requires a response buffer of at least 3 bytes and constant indices inside the table; Go would panic otherwise.
- `Feedback.GetCalibratedAIN`, `Streaming.ChannelData.GetCalibratedAIN`: require `gain > 4` or indices inside the 40 constants. With gain 4 and a resolution index above 8, Go reads `CalConstants[41]` and panics (u6/feedback.go:166-173); the model does not describe that panic (`Feedback.CalibrationIndexRange` shows exactly when it happens). The requires also excludes negative gain indices (Go's `GainIndex` is an `int`, u6/feedback.go:102), where Go indexes below 0 on at least one branch; on the other branch Go can still return a value (resolution 1, gain -1 and a reading below the centre read only indices 6 and 7, u6/feedback.go:170-171), and the model does not describe that case either.
- `Streaming.ConfigOk`: every stream member requires at least one channel and at most 120 samples per packet. Go's `SamplesPerPacket` is a `byte` (u6/stream.go:15), so `12+SamplesPerPacket*2` and `14+SamplesPerPacket*2` (u6/stream.go:156, 158) wrap around modulo 256 above 120, and the model's `PacketSize` does not write that wrap out. With 121 samples the receive buffer is empty and every iteration reports the too-short checksum error. With 127 samples the buffer holds 12 bytes and the sample loop ends at once, so an accepted packet gives 127 zero samples instead of the packet's words (u6/stream.go:228-229). With no channels and at least one sample, Go panics at `Channels[channelIndex]` (u6/stream.go:237). The stream configuration step, which keeps samples per packet in 1..25, is not part of this model, so neither excluded case arises from it.
- The "Command data was not written" check (u6/u6.go:299-302) cannot fail in the model, because writing into a `bytes.Buffer` always completes, and setChecksum's too-short error (fewer than 6 bytes, u6/utils.go:78) cannot occur because every Feedback frame holds at least the 7-byte header; neither path is modelled separately.
- `Feedback.Command.ReadFrom`: AIN24's read fails with end-of-input when no byte at all remains, as `bytes.Buffer.Read` does with an empty destination buffer of non-zero length; this is what the code does, where a plain description of the command would say it reads whatever is left.
- `Utils.ExtendedChecksum`: the 8-bit checksum is computed from bytes 4-5 as they were before the call, as the Go code does; the result therefore does not always pass the 8-bit check (`Utils.ExtendedChecksumStaleHeader`).
- `Utils.SetChecksum16`: the Go accumulators are `uint8`, so byte 5 is always 0 and the 8-bit checksum is computed with a plain wrap-around plus one; the model follows the code, not a true 16-bit checksum.
- In `getCalibrationInfo` the bad-checksum echo test comes before the length test (u6/u6.go:236-244), so a short reply starting B8 B8 is reported as a checksum error; the model keeps this order.
- The helper methods `Driver.U6.Respond`, `Driver.U6.DemuxStep`, `Driver.U6.ReadFrameNumber`, `Driver.U6.ReadOne`, `Driver.U6.ConfigExchange`, `Driver.U6.ReadBlock`, `Driver.U6.BlockStep`, `Driver.U6.ReadAllBlocks`, `Driver.U6.StoreBlock` and `Streaming.Handshake` (the body shared by `start` and `stop`, u6/stream.go:255-369, specified by `HandshakeOutcome` and stated through `Streaming.Start` and `Streaming.Stop`) split the Go functions into steps; they add no behaviour of their own.
