# Modbus RTU slave engine, modelled in Dafny

This project models the engine of an Arduino Modbus RTU slave, the class
`ModbusRtuSlaveClass` in `ModbusRtuSlave.cpp`. The engine has these parts:

- `begin` computes the inter-frame silence time t3.5 from the baud rate.
- `process` polls the serial port and assembles a frame once the pending
  byte count has stayed the same for t3.5.
- `process` then drops, without a word, any frame that is too short, is
  addressed to another unit, or fails its CRC.
- It decodes the function code. The codes covered are read coils and
  discrete inputs, read holding and input registers, write single coil and
  register, write multiple coils and registers, and a vendor raw transfer.
  The decoder checks quantities and lengths, fixes the PDU length of the
  response and pre-fills the output buffer.
- It hands the request to the application callback. The callback fills in
  the response with `responseAddBit` and `responseAddRegister` and reads
  write payloads with `getDataCoil` and `getDataRegister`.
- Finally it encodes the normal or exception response, writes it to the port
  and returns.

The model is split into modules:

- `Bytes` (bytes.dfy): bytes as `bv8`, big-endian words, and single-bit
  access as the Arduino helpers `word`, `highByte`, `lowByte`, `bitRead`,
  `bitSet` and `bitClear` do it.
- `Protocol` (protocol.dfy): function, exception and status codes, plus the
  values exchanged with the CRC routine, the callback and the port.
- `FrameAssembler` (assembler.dfy): the t3.5 threshold. It also has the
  poll-by-poll assembler as a pure step function over the retained
  observation `(lastAvailable, lastAvailableTs)`. Time is `unsigned long`,
  with wrap-around subtraction.
- `RequestDecoder` (decoder.dfy): the validator, the `switch` as the pure
  function `Decode` (one function per branch), and the two payload accessors.
- `ResponseEncoder` (response.dfy): the builders as functions on the output
  buffer, replay of a callback's builder calls, and the encoder.
- `RtuSlave` (engine.dfy) has two parts:
  - `Serve`, the specification of everything `process` does with a frame it
    has read, layered as `Answer`, `Dispatched` and `Finish`;
  - the class `ModbusRtuSlave`, with the engine's fields, the two fixed
    arrays `inBuff` and `outBuff`, and imperative methods. Each method is
    proved to change the arrays and fields exactly as the specification
    functions say.
- `ProcessProperties` (process_properties.dfy): what one call of `process`
  promises, stated on `Serve`. This covers the silent drops, when a reply is
  sent, when the callback runs, and the exception layout. For normal replies
  it gives the common layout after any builder calls. It also gives the exact
  bytes of a register read and a coil read, the echo of a write whose callback
  makes no builder calls, and the eight bytes of a raw transfer.

## Model

| member | source | states |
|---|---|---|
| Bytes.Word | ModbusRtuSlave.cpp:87 | `word(hi, lo)` is `hi*256 + lo`; its two round trips with `highByte`/`lowByte` are the lemmas below |
| Bytes.HighByte | ModbusRtuSlave.cpp:221 | `highByte(w)` is `w / 256` stored in a byte |
| Bytes.LowByte | ModbusRtuSlave.cpp:222 | `lowByte(w)` is `w % 256` stored in a byte |
| Bytes.BitRead | ModbusRtuSlave.cpp:230 | `bitRead(b, k) == 1` holds iff bit k of b is set |
| Bytes.ByteOf | ModbusRtuSlave.cpp:100 | a number below 256 stored into a byte keeps its value |
| Bytes.WordRoundTrip | ModbusRtuSlave.cpp:221-222 | `word(highByte(w), lowByte(w)) == w` for every 16-bit word |
| Bytes.BytesRoundTrip | ModbusRtuSlave.cpp:87 | splitting `word(hi, lo)` gives back `hi` and `lo` |
| Bytes.BitWrite | ModbusRtuSlave.cpp:211-215 | after `bitSet`/`bitClear` of bit k, bit k reads `on` and the bits outside bit k are those of the original byte |
| Bytes.BitWriteBit | ModbusRtuSlave.cpp:211-215 | each bit j after writing bit k is `on` if j = k and the old bit j otherwise |
| Bytes.BitWriteOthers | ModbusRtuSlave.cpp:211-215 | writing bit k leaves all seven other bits unchanged |
| Bytes.MarkException | ModbusRtuSlave.cpp:188 | setting the exception marker on `fc` sets bit 7 and keeps bits 0..6 of `fc` |
| FrameAssembler.SilenceThreshold | ModbusRtuSlave.cpp:38-42 | up to 19200 baud, t3.5 is the floor of 3500000*11/baud (`t*baud <= 38500000 < (t+1)*baud`); above that it is 1750; it is never below 1750 |
| FrameAssembler.SilenceThresholdAntitone | ModbusRtuSlave.cpp:38-42 | a faster line never gets a longer threshold |
| FrameAssembler.Elapsed | ModbusRtuSlave.cpp:64 | `now - ts` on `unsigned long` is the plain difference when `ts <= now`, and `now + 2^32 - ts` when the clock has wrapped |
| FrameAssembler.ElapsedAcrossWrap | ModbusRtuSlave.cpp:64 | `now - ts` on `unsigned long` gives the true delay d < 2^32 even when the clock wrapped |
| FrameAssembler.Assemble | ModbusRtuSlave.cpp:57-68 | one poll: a read happens only for a nonzero count equal to the recorded one, and then clears the recorded count and keeps the timestamp; without a read the observation is kept or restarted at `(available, now)` |
| FrameAssembler.EmptyPortIgnored | ModbusRtuSlave.cpp:57-58 | a pending count of 0 changes nothing and reads nothing |
| FrameAssembler.ChangedCountRestartsSilence | ModbusRtuSlave.cpp:60-62 | a count that differs from the recorded one is recorded with the current time and nothing is read |
| FrameAssembler.ReadIffStableAndSilent | ModbusRtuSlave.cpp:57-68 | bytes are read exactly when the count is nonzero, equals the recorded count, and at least t3.5 has elapsed (mod 2^32); a read clears the recorded count and keeps the timestamp |
| FrameAssembler.Run | ModbusRtuSlave.cpp:51-68 | `process` called once per sample, one read flag per poll: a poll reads only with bytes pending, the first poll after the recorded count was cleared never reads, and no two consecutive polls both read |
| FrameAssembler.NoFrameWhileCountChanges | ModbusRtuSlave.cpp:57-68 | over any run of polls whose nonzero count changes each time, no frame is read, however much time passes |
| FrameAssembler.NoBackToBackReads | ModbusRtuSlave.cpp:64-66 | a poll that reads is never followed by a read on the next poll |
| RequestDecoder.CrcMatches | ModbusRtuSlave.cpp:80-84 | the last two bytes equal the CRC routine's two bytes over everything before them |
| RequestDecoder.Admitted | ModbusRtuSlave.cpp:70-84 | the validator: at least 8 bytes, addressed to this unit or the unit address is 0, and the CRC matches |
| RequestDecoder.BitBytes | ModbusRtuSlave.cpp:100 | `(qty-1)/8+1` is ceil(qty/8), and at most 250 for at most 2000 coils |
| RequestDecoder.Decode | ModbusRtuSlave.cpp:92-169 | every dispatch echoes unit address, function code and start address, and its response fits the buffer; a refusal is illegal-function or illegal-data-value; illegal-function comes exactly for an unknown function code |
| RequestDecoder.DecodeReadBitsCase | ModbusRtuSlave.cpp:93-103 | the coil-read branch is well formed and refuses only with illegal-data-value |
| RequestDecoder.DecodeReadRegistersCase | ModbusRtuSlave.cpp:105-115 | the register-read branch is well formed and refuses only with illegal-data-value |
| RequestDecoder.DecodeWriteSingleCase | ModbusRtuSlave.cpp:117-133 | the single-write branches are well formed and refuse only with illegal-data-value |
| RequestDecoder.DecodeWriteMultipleCase | ModbusRtuSlave.cpp:135-155 | the multiple-write branches are well formed and refuse only with illegal-data-value |
| RequestDecoder.DecodeTransferRawCase | ModbusRtuSlave.cpp:156-165 | the raw-transfer branch is well formed and refuses only with illegal-data-value |
| RequestDecoder.DecodeReadBits | ModbusRtuSlave.cpp:93-103 | accepted iff 1 <= qty <= 0x07D0, else illegal-data-value; the byte count is the one-byte pre-fill with `8(n-1) < qty <= 8n`, `pduLen = n + 2`, and the data view is empty |
| RequestDecoder.DecodeReadRegisters | ModbusRtuSlave.cpp:105-115 | accepted iff 1 <= qty <= 0x007D, else illegal-data-value; the byte count `2*qty` is the one-byte pre-fill, `pduLen = 2*qty + 2` |
| RequestDecoder.DecodeWriteSingleCoil | ModbusRtuSlave.cpp:117-126 | accepted iff the value field is 0x0000 or 0xFF00, else illegal-data-value; then `outBuff[2..6)` echoes `inBuff[2..6)`, `pduLen = 5`, `qty = 1`, data from offset 4 |
| RequestDecoder.DecodeWriteSingleRegister | ModbusRtuSlave.cpp:128-133 | always accepted, with the same echo, `pduLen = 5`, `qty = 1`, data from offset 4 |
| RequestDecoder.DecodeWriteMultipleCoils | ModbusRtuSlave.cpp:135-144 | accepted iff 1 <= qty <= 0x07D0 and `inLen - 9 == (qty-1)/8+1`, else illegal-data-value; echo, `pduLen = 5`, data from offset 7 |
| RequestDecoder.DecodeWriteMultipleRegisters | ModbusRtuSlave.cpp:146-155 | accepted iff 1 <= qty <= 0x007B and `inLen - 9 == 2*qty`, else illegal-data-value; echo, `pduLen = 5`, data from offset 7 |
| RequestDecoder.DecodeTransferRaw | ModbusRtuSlave.cpp:156-165 | accepted iff 1 <= `inBuff[2]` <= 0x007B, else illegal-data-value; `qty = inBuff[2]`, echoed at `outBuff[2]`, `pduLen = 5`, data from offset 3 |
| RequestDecoder.DecodeUnknownFunction | ModbusRtuSlave.cpp:167-168 | any other function code is refused with illegal-function |
| RequestDecoder.GetDataCoil | ModbusRtuSlave.cpp:226-232 | on a multiple-coil write the result is the bit stored for coil idx: writing it back into `data[idx/8]` at bit `idx%8` leaves the byte unchanged |
| RequestDecoder.GetDataRegister | ModbusRtuSlave.cpp:234-240 | the result splits back into the two data bytes it was read from, `data[0..2)` for a single write and `data[2*idx..2*idx+2)` for a multiple write |
| RequestDecoder.SingleCoilValue | ModbusRtuSlave.cpp:226-228 | on an accepted single-coil write `getDataCoil` is true iff the value field is 0xFF00 |
| RequestDecoder.SingleRegisterValue | ModbusRtuSlave.cpp:234-236 | on a single-register write `getDataRegister` returns the value field |
| RequestDecoder.MultipleCoilsInView | ModbusRtuSlave.cpp:229-230 | on an accepted multiple-coil write, for every idx below qty the accessor stays inside the data view and reads bit idx%8 of frame byte 7 + idx/8 |
| RequestDecoder.MultipleRegistersInView | ModbusRtuSlave.cpp:237-238 | on an accepted multiple-register write, for every idx below qty the accessor stays inside the data view and reads the big-endian pair at frame offset 7 + 2*idx |
| ResponseEncoder.WithBit | ModbusRtuSlave.cpp:207-215 | payload bit `off` becomes `on`; every other payload bit, and every byte except `outBuff[3 + off/8]`, is unchanged |
| ResponseEncoder.WithRegister | ModbusRtuSlave.cpp:220-222 | `word(outBuff[3+off], outBuff[4+off]) == v` and no other byte changes |
| ResponseEncoder.Replay | ModbusRtuSlave.cpp:173-174 | the callback's builder calls never touch `outBuff[0..3)` |
| ResponseEncoder.RegisterCallsFit | ModbusRtuSlave.cpp:109-112 | up to 125 register additions from offset 0 stay inside the buffer |
| ResponseEncoder.BitCallsFit | ModbusRtuSlave.cpp:97-100 | up to 2000 bit additions from offset 0 stay inside the buffer |
| ResponseEncoder.ReplayRegisters | ModbusRtuSlave.cpp:220-224 | after k register additions the offset is advanced by 2k, value i sits big-endian at bytes `3+off+2i`, and no other byte changed |
| ResponseEncoder.ReplayBits | ModbusRtuSlave.cpp:207-218 | the i-th bit added lands at payload bit `off + i` |
| ResponseEncoder.ReplayBitsFrame | ModbusRtuSlave.cpp:207-218 | bit additions leave every payload bit outside `off .. off+k` unchanged and advance the offset by k |
| ResponseEncoder.ReplayBitsPayload | ModbusRtuSlave.cpp:207-218 | after the bit additions of a coil read, payload bits 0..k-1 are the bits added and the later bits of the last byte are those of the buffer before |
| ResponseEncoder.Overwrite | ModbusRtuSlave.cpp:124 | `memcpy` or a run of stores puts the bytes at `at..` and changes nothing else |
| ResponseEncoder.Encode | ModbusRtuSlave.cpp:184-193 | the encoder keeps the buffer size; its layout is stated by the two lemmas below |
| ResponseEncoder.EncodeException | ModbusRtuSlave.cpp:184-193 | for a non-OK status the five bytes sent are address, the function code with bit 7 set, the status, and the CRC of those three |
| ResponseEncoder.EncodeNormal | ModbusRtuSlave.cpp:184-193 | for OK, `pduLen + 3` bytes are sent: address, function code, payload bytes 2..pduLen unchanged, and the CRC of the first `pduLen + 1` bytes at `pduLen + 1`; bytes after the frame are unchanged |
| ResponseEncoder.EncodedCrcMatches | ModbusRtuSlave.cpp:193 | every reply sent passes the validator's CRC check |
| RtuSlave.FinalStatus | ModbusRtuSlave.cpp:171-178 | the status the encoder sees; a decoder refusal is never OK and never IGNORE, so it is always answered |
| RtuSlave.Finish | ModbusRtuSlave.cpp:180-204 | the end of `process`: IGNORE sends nothing; anything else encodes and sends `ReplyLength` bytes; the buffer size is kept |
| RtuSlave.Dispatched | ModbusRtuSlave.cpp:171-178 | server-device-failure without a callback; otherwise the callback's builder calls from offset 0 and its status go to `Finish`; the buffer size is kept |
| RtuSlave.Answer | ModbusRtuSlave.cpp:86-178 | a refusal is encoded from the unchanged buffer; a dispatch pre-fills the buffer and goes to `Dispatched`; the buffer size is kept |
| RtuSlave.ServeDrops | ModbusRtuSlave.cpp:70-84 | unfolds `Serve` for a frame the validator drops (the early returns), for `Respond` and `SilentDrop` |
| RtuSlave.ServeAnswers | ModbusRtuSlave.cpp:70-92 | unfolds `Serve` for an admitted frame into `Answer` of its decoder verdict, for `Respond` |
| RtuSlave.WriteMultipleAs | ModbusRtuSlave.cpp:135-155 | the refusal test as the code writes it, on `inLen` and `(qty-1)/8+1`, decides `DecodeWriteMultipleCase`: refused means illegal-data-value, and otherwise the frame has at least 10 bytes and the request carries the data from offset 7 |
| RtuSlave.Serve | ModbusRtuSlave.cpp:70-204 | keeps the output buffer size; what it sends is stated by the ProcessProperties lemmas |
| RtuSlave.ModbusRtuSlave.constructor | ModbusRtuSlave.cpp:16-25 | static storage starts zeroed, with two distinct buffers of `BUFFER_SIZE` bytes |
| RtuSlave.ModbusRtuSlave.Begin | ModbusRtuSlave.cpp:27-45 | records unit address and transmit-enable pin, sets t3.5 to `SilenceThreshold(baud)`, clears the recorded count, and leaves the rest unchanged |
| RtuSlave.ModbusRtuSlave.ResponseAddBit | ModbusRtuSlave.cpp:207-218 | `outBuff` becomes `WithBit` of its old contents at the old offset, and the offset grows by 1 |
| RtuSlave.ModbusRtuSlave.ResponseAddRegister | ModbusRtuSlave.cpp:220-224 | `outBuff` becomes `WithRegister` of its old contents at the old offset, and the offset grows by 2 |
| RtuSlave.ModbusRtuSlave.RunCallback | ModbusRtuSlave.cpp:173-174 | making the callback's builder calls in order leaves `(outBuff, respOffset)` equal to `Replay` of them |
| RtuSlave.ModbusRtuSlave.ReadBytes | ModbusRtuSlave.cpp:65 | the received bytes land at the start of `inBuff` and the rest of `inBuff` is unchanged |
| RtuSlave.ModbusRtuSlave.DecodeRequest | ModbusRtuSlave.cpp:92-169 | the status, PDU length and request computed, and the bytes pre-filled into `outBuff`, agree with `Decode` of the frame |
| RtuSlave.ModbusRtuSlave.CaseReadBits | ModbusRtuSlave.cpp:93-103 | agrees with `DecodeReadBitsCase` |
| RtuSlave.ModbusRtuSlave.CaseReadRegisters | ModbusRtuSlave.cpp:105-115 | agrees with `DecodeReadRegistersCase` |
| RtuSlave.ModbusRtuSlave.CaseWriteSingle | ModbusRtuSlave.cpp:117-133 | agrees with `DecodeWriteSingleCase` |
| RtuSlave.ModbusRtuSlave.CaseWriteMultiple | ModbusRtuSlave.cpp:135-155 | agrees with `DecodeWriteMultipleCase` |
| RtuSlave.ModbusRtuSlave.CaseTransferRaw | ModbusRtuSlave.cpp:156-165 | agrees with `DecodeTransferRawCase` |
| RtuSlave.ModbusRtuSlave.StoreByteCount | ModbusRtuSlave.cpp:100 | `outBuff[2]` is the byte and nothing else changes |
| RtuSlave.ModbusRtuSlave.CopyEcho | ModbusRtuSlave.cpp:124 | `outBuff[2..6)` becomes `inBuff[2..6)` and nothing else changes |
| RtuSlave.ModbusRtuSlave.CheckCrc | ModbusRtuSlave.cpp:80-84 | the result is true iff the last two bytes equal the CRC of the rest |
| RtuSlave.ModbusRtuSlave.Respond | ModbusRtuSlave.cpp:70-204 | after `readBytes`, the output buffer, offset, reply and dispatched request are those of `Serve` |
| RtuSlave.ModbusRtuSlave.Handle | ModbusRtuSlave.cpp:86-204 | for an admitted frame they are those of `Answer` with the frame's decoder verdict |
| RtuSlave.ModbusRtuSlave.DispatchRequest | ModbusRtuSlave.cpp:171-204 | for a decoded request they are those of `Dispatched` |
| RtuSlave.ModbusRtuSlave.Transmit | ModbusRtuSlave.cpp:184-204 | `outBuff` becomes `Encode` of its old contents and the reply is its first `ReplyLength` bytes, bracketed when `txEnPin > 0` |
| RtuSlave.ModbusRtuSlave.Process | ModbusRtuSlave.cpp:51-205 | the observation moves as `Assemble` says; on a read, `inBuff` holds the bytes and everything else is `Serve` of them; otherwise nothing is sent and neither buffer nor the offset changes |
| ProcessProperties.SilentDrop | ModbusRtuSlave.cpp:70-84 | a frame shorter than 8 bytes, a frame for another unit (own address nonzero), or a bad CRC sends nothing, changes nothing and runs no callback |
| ProcessProperties.ReplyIff | ModbusRtuSlave.cpp:70-199 | a reply is sent iff the frame is admitted and the final status is not `RESP_IGNORE` |
| ProcessProperties.CallbackOnlyAfterDecode | ModbusRtuSlave.cpp:171-178 | the callback runs iff the frame is admitted, the decoder accepted it and a callback is set, and it receives exactly the decoded request |
| ProcessProperties.ExceptionReply | ModbusRtuSlave.cpp:184-199 | every exception reply is exactly address, function code with bit 7 set, the code, and the two CRC bytes of those three |
| ProcessProperties.NoCallbackMeansDeviceFailure | ModbusRtuSlave.cpp:172-177 | without a callback an accepted request is answered with server-device-failure, nothing is dispatched and the offset is unchanged |
| ProcessProperties.NormalReply | ModbusRtuSlave.cpp:184-204 | a normal reply is `outBuff[0..pduLen+3)` after the builder calls: address and function echoed, the pre-fill first, payload as the builders left it, a matching CRC, the tx bracket, the offset where the builders left it, and the decoded request dispatched |
| ProcessProperties.ReadRegistersReply | ModbusRtuSlave.cpp:105-115 | a register read answered by `qty` register additions replies with `2*qty + 5` bytes: address, function, byte count `2*qty`, the values big-endian in call order, and a matching CRC |
| ProcessProperties.ReadBitsReply | ModbusRtuSlave.cpp:93-103 | a coil read answered by `qty` bit additions replies with byte count ceil(qty/8) and `n + 5` bytes; payload bit i is the i-th bit added; padding bits keep the old buffer contents; the CRC matches |
| ProcessProperties.WriteEchoReply | ModbusRtuSlave.cpp:117-155 | an accepted write answered with OK by a callback that makes no builder calls echoes the first six request bytes with their CRC, and an 8-byte request exactly |
| ProcessProperties.TransferRawReply | ModbusRtuSlave.cpp:156-165 | an accepted raw transfer answered with OK replies with 8 bytes: address, function and count echoed, then bytes 3..5 as the callback's builder calls from offset 0 left them over the pre-filled buffer, and a matching CRC |

## Left out

- Serial port calls (`available`, `readBytes`, `write`, `flush`, `setTimeout`): the pending count and the received bytes are parameters of `Process`, and the bytes written are its result.
- `micros()`: the current time is a parameter, modulo 2^32.
- `pinMode`/`digitalWrite`: transceiver control is reduced to the reply's `txEnableBracket` flag, which is true when `txEnPin > 0`.
- `CRC.crc16`: `CRC.h` is not part of this model. The CRC is an uninterpreted function parameter from the bytes covered to the two bytes written.
- The application callback is foreign code. It is modelled as no callback, or as a sequence of builder calls plus the status it returns. `setCallback` and the `Stream` pointer are configuration that is not modelled.
- Constants from the header, which is not part of this model: `MODBUS_BUFFER_SIZE` is taken as 256, `MB_RESP_OK` as 0x00, `MB_RESP_IGNORE` as 0xFF, and `MB_FC_TRANSFER_RAW` as 0x64 (a user-defined code). They are distinct stand-ins; all other codes take the values of the Modbus Application Protocol Specification V1.1b3.
- The source checks no buffer bounds. The model requires them of its callers instead: the received frame fits `inBuff`, and the callback's builder calls fit `outBuff` (`CallsFit`).
- RtuSlave.ModbusRtuSlave.Begin: requires `baud > 0`, since the source divides by it.
- RequestDecoder.GetDataCoil and RequestDecoder.GetDataRegister: defined only for their two function codes, because the source returns no value for other codes. Their own contracts give the round trip of the value read; what they return on an accepted request is stated by the four accessor lemmas.
- Data views end at the CRC. The source hands the callback a bare pointer (`_inBuff + 3` or `_inBuff + 7`). For a raw transfer it checks only `1 <= inBuff[2] <= 123` and never compares that count with `inLen`, so a callback that trusts `qty` can read past the frame into stale `_inBuff` contents. The model's view holds only the `|frame| - 5` bytes before the CRC, so it cannot show such a read.
- `readBytes` may return fewer bytes than were pending. The model takes the bytes it returns as given, with at most `available` bytes.
- Write-multiple length check: the source computes `inLen - 9` on `size_t`. For an 8-byte frame this wraps to a huge value, which never equals a byte count, so that frame is refused. The model uses integers and refuses the same frame.
- The code differs from the Modbus Application Protocol Specification V1.1b3 in three places; the model follows the code:
  - the multiple-coil maximum is 0x07D0 rather than 1968;
  - the byte count of a multiple write is derived from the frame length, not read from the byte-count field;
  - padding bits of a coil-read reply are not zeroed. `ProcessProperties.ReadBitsReply` states that the bits after the last coil keep whatever the output buffer held before, while section 6.1 of that standard asks for them to be zero.
- The raw transfer (0x64) is a user-defined function that the standard does not describe. The code always answers an accepted one with an 8-byte reply, since its PDU length is a fixed 5 whatever `inBuff[2]` is; `ProcessProperties.TransferRawReply` states that reply.
- The `ghost` dispatched request returned by `Respond`, `Handle`, `DispatchRequest` and `Process` records which request the callback received. It stands in for the callback's arguments `unitAddr, function, regAddr, qty, data`.
