/** The Modbus RTU slave engine of `ModbusRtuSlave.cpp`: its retained state,
    `begin`, `process` and the two response builders the callback calls, with
    `Serve` as the value-level specification of everything `process` does
    after a frame has been read. */
module RtuSlave {
  import opened Bytes
  import opened Protocol
  import opened FrameAssembler
  import opened RequestDecoder
  import opened ResponseEncoder

  /** The whole effect of handling one read frame: the output buffer, the
      builders' write offset, what is written to the port, and the request
      handed to the callback, if any. */
  datatype Effect = Effect(out: seq<byte>, respOffset: nat, reply: PollResult, dispatched: Option<Request>)

  /** The status the encoder sees: the decoder's exception code, else
      server-device-failure without a callback, else the callback's status. */
  function FinalStatus(frame: seq<byte>, callback: Option<CallbackResult>): (status: byte)
    requires |frame| >= MIN_FRAME
    ensures Decode(frame).Refuse? ==> status != RESP_OK && status != RESP_IGNORE
  {
    match Decode(frame)
    case Refuse(ex) => ex
    case Dispatch(_, _, _) =>
      match callback
      case None => EX_SERVER_DEVICE_FAILURE
      case Some(cb) => cb.status
  }

  /** The end of `process`: nothing for `RESP_IGNORE`, else encode and send. */
  function Finish(out: seq<byte>, off: nat, addr: byte, fc: byte, status: byte, pduLen: nat,
                  crc: Crc16, txEnable: bool, dispatched: Option<Request>): (e: Effect)
    requires |out| == BUFFER_SIZE
    requires status == RESP_OK ==> 2 <= pduLen && pduLen + 3 <= BUFFER_SIZE
    ensures |e.out| == BUFFER_SIZE
  {
    if status == RESP_IGNORE then Effect(out, off, NoReply, dispatched)
    else
      var o := Encode(out, addr, fc, status, pduLen, crc);
      Effect(o, off, Reply(o[..ReplyLength(status, pduLen)], txEnable), dispatched)
  }

  /** Validator, decoder, dispatch and encoder of `process`, for a frame that
      the assembler has read, from output buffer `out0` and offset `off0`. */
  function Serve(unitAddr: byte, frame: seq<byte>, out0: seq<byte>, off0: nat,
                 callback: Option<CallbackResult>, crc: Crc16, txEnable: bool): (e: Effect)
    requires |out0| == BUFFER_SIZE
    requires callback.Some? ==> CallsFit(0, callback.value.calls)
    ensures |e.out| == BUFFER_SIZE
  {
    if !Admitted(unitAddr, frame, crc) then Effect(out0, off0, NoReply, None)
    else Answer(frame, Decode(frame), out0, off0, callback, crc, txEnable)
  }

  /** The answer to an admitted frame with decoder verdict `d`. */
  function Answer(frame: seq<byte>, d: Decoded, out0: seq<byte>, off0: nat,
                  callback: Option<CallbackResult>, crc: Crc16, txEnable: bool): (e: Effect)
    requires |frame| >= MIN_FRAME && WellFormed(frame, d) && |out0| == BUFFER_SIZE
    requires callback.Some? ==> CallsFit(0, callback.value.calls)
    ensures |e.out| == BUFFER_SIZE
  {
    match d
    case Refuse(ex) => Finish(out0, off0, frame[0], frame[1], ex, 0, crc, txEnable, None)
    case Dispatch(req, pduLen, prefill) =>
      Dispatched(Overwrite(out0, 2, prefill), off0, frame[0], frame[1], pduLen, req, callback, crc, txEnable)
  }

  /** Dispatch of a decoded request whose pre-fill is in `out1`:
      server-device-failure without a callback; otherwise the callback's
      builder calls from offset 0 and its status. */
  function Dispatched(out1: seq<byte>, off0: nat, addr: byte, fc: byte, pduLen: nat, req: Request,
                      callback: Option<CallbackResult>, crc: Crc16, txEnable: bool): (e: Effect)
    requires |out1| == BUFFER_SIZE && 2 <= pduLen && pduLen + 3 <= BUFFER_SIZE
    requires callback.Some? ==> CallsFit(0, callback.value.calls)
    ensures |e.out| == BUFFER_SIZE
  {
    match callback
    case None => Finish(out1, off0, addr, fc, EX_SERVER_DEVICE_FAILURE, pduLen, crc, txEnable, None)
    case Some(cb) =>
      var r := Replay(out1, 0, cb.calls);
      Finish(r.0, r.1, addr, fc, cb.status, pduLen, crc, txEnable, Some(req))
  }

  /** A slice of a prefix is the same slice of the whole sequence. */
  lemma SliceOfPrefix(s: seq<byte>, n: nat, i: nat, j: nat)
    requires i <= j <= n <= |s|
    ensures s[..n][i..j] == s[i..j]
  {
  }

  /** The refusal test of the multiple-write branch, as `process` writes it
      on the quantity `qty` and the frame length `len`, decides
      `DecodeWriteMultipleCase`. */
  lemma WriteMultipleAs(frame: seq<byte>, len: nat, qty: word, refused: bool)
    requires |frame| >= MIN_FRAME && len == |frame| && qty == Word(frame[4], frame[5])
    requires frame[1] == FC_WRITE_MULTIPLE_COILS || frame[1] == FC_WRITE_MULTIPLE_REGISTERS
    requires refused == if frame[1] == FC_WRITE_MULTIPLE_COILS
                        then qty < 0x0001 || qty > 0x07D0 || len - 9 != ((qty - 1) / 8) + 1
                        else qty < 0x0001 || qty > 0x007B || len - 9 != qty * 2
    ensures refused ==> DecodeWriteMultipleCase(frame) == Refuse(EX_ILLEGAL_DATA_VALUE)
    ensures !refused ==> len >= 10 && DecodeWriteMultipleCase(frame)
                         == Dispatch(Request(frame[0], frame[1], Word(frame[2], frame[3]), qty,
                                             frame[7..len - 2]), 5, frame[2..6])
  {
    RefusalTest(frame[1] == FC_WRITE_MULTIPLE_COILS, len, qty, refused);
  }

  /** The code's refusal test on the quantity and the frame length, with the
      byte count written `(qty - 1) / 8 + 1`, is the test with `BitBytes`, and
      passing it needs at least 10 bytes. */
  lemma RefusalTest(coils: bool, len: int, qty: int, refused: bool)
    requires refused == if coils then qty < 0x0001 || qty > 0x07D0 || len - 9 != ((qty - 1) / 8) + 1
                        else qty < 0x0001 || qty > 0x007B || len - 9 != qty * 2
    ensures refused == if coils then qty < 1 || qty > MAX_COILS || len - 9 != BitBytes(qty)
                       else qty < 1 || qty > MAX_WRITE_REGISTERS || len - 9 != qty * 2
    ensures !refused ==> len >= 10
  {
    if coils && 1 <= qty {
      assert BitBytes(qty) == ((qty - 1) / 8) + 1;
    }
  }

  /** A frame the validator drops leaves everything as it was and sends nothing. */
  lemma ServeDrops(unitAddr: byte, frame: seq<byte>, out0: seq<byte>, off0: nat,
                   callback: Option<CallbackResult>, crc: Crc16, txEnable: bool)
    requires |out0| == BUFFER_SIZE && !Admitted(unitAddr, frame, crc)
    requires callback.Some? ==> CallsFit(0, callback.value.calls)
    ensures Serve(unitAddr, frame, out0, off0, callback, crc, txEnable) == Effect(out0, off0, NoReply, None)
  {
  }

  /** A frame the validator admits is answered from its decoder verdict. */
  lemma ServeAnswers(unitAddr: byte, frame: seq<byte>, out0: seq<byte>, off0: nat,
                     callback: Option<CallbackResult>, crc: Crc16, txEnable: bool)
    requires |out0| == BUFFER_SIZE && Admitted(unitAddr, frame, crc)
    requires callback.Some? ==> CallsFit(0, callback.value.calls)
    ensures Serve(unitAddr, frame, out0, off0, callback, crc, txEnable)
            == Answer(frame, Decode(frame), out0, off0, callback, crc, txEnable)
  {
  }

  /** The arrays' side of the decoder: the status, PDU length and request the
      `switch` computed agree with the verdict `d`, and the output buffer went
      from `out0` to `out` by the pre-fill alone. */
  ghost predicate DecodedAs(d: Decoded, out0: seq<byte>, out: seq<byte>, exCode: byte, pduLen: nat, req: Request)
    requires |out0| == BUFFER_SIZE
  {
    match d
    case Refuse(ex) => exCode == ex && out == out0
    case Dispatch(r, p, pre) => exCode == RESP_OK && req == r && pduLen == p && 2 + |pre| <= |out0| && out == Overwrite(out0, 2, pre)
  }

  /** The engine's retained state; the source keeps it in static members. */
  class ModbusRtuSlave {
    var unitAddr: byte
    var txEnPin: int
    var t35chars: u32
    var lastAvailable: word
    var lastAvailableTs: u32
    var respOffset: nat
    const inBuff: array<byte>
    const outBuff: array<byte>

    ghost predicate Valid()
      reads this
    {
      inBuff.Length == BUFFER_SIZE && outBuff.Length == BUFFER_SIZE && inBuff != outBuff
    }

    /** The state before `begin`: static storage starts zeroed. */
    constructor ()
      ensures Valid() && fresh(inBuff) && fresh(outBuff)
      ensures unitAddr == 0 && txEnPin == 0 && t35chars == 0
      ensures lastAvailable == 0 && lastAvailableTs == 0 && respOffset == 0
      ensures forall i :: 0 <= i < BUFFER_SIZE ==> inBuff[i] == 0 && outBuff[i] == 0
    {
      unitAddr, txEnPin, t35chars := 0, 0, 0;
      lastAvailable, lastAvailableTs, respOffset := 0, 0, 0;
      inBuff := new byte[BUFFER_SIZE](_ => 0);
      outBuff := new byte[BUFFER_SIZE](_ => 0);
    }

    /** `begin`: records the configuration, computes t3.5 once and clears the
        recorded byte count. `baud` must be nonzero, since it divides. */
    method Begin(unitAddr: byte, baud: u32, txEnPin: int)
      requires Valid() && baud > 0
      modifies this
      ensures Valid()
      ensures this.unitAddr == unitAddr && this.txEnPin == txEnPin
      ensures t35chars == SilenceThreshold(baud) && lastAvailable == 0
      ensures lastAvailableTs == old(lastAvailableTs) && respOffset == old(respOffset)
    {
      this.unitAddr := unitAddr;
      this.txEnPin := txEnPin;
      if baud <= 19200 {
        t35chars := 3500000 * 11 / baud;
      } else {
        t35chars := 1750;
      }
      lastAvailable := 0;
    }

    /** `responseAddBit(on)`: sets or clears bit `respOffset % 8` of
        `outBuff[3 + respOffset / 8]` and advances the offset by one. */
    method ResponseAddBit(on: bool)
      requires Valid() && respOffset < PAYLOAD_BITS
      modifies outBuff, this`respOffset
      ensures outBuff[..] == WithBit(old(outBuff[..]), old(respOffset), on)
      ensures respOffset == old(respOffset) + 1
    {
      var idx := PAYLOAD_START + respOffset / 8;
      outBuff[idx] := BitWrite(outBuff[idx], respOffset % 8, on);
      respOffset := respOffset + 1;
    }

    /** `responseAddRegister(value)`: stores the value big-endian at
        `outBuff[3 + respOffset]` and advances the offset by two. */
    method ResponseAddRegister(value: word)
      requires Valid() && PAYLOAD_START + respOffset + 1 < BUFFER_SIZE
      modifies outBuff, this`respOffset
      ensures outBuff[..] == WithRegister(old(outBuff[..]), old(respOffset), value)
      ensures respOffset == old(respOffset) + 2
    {
      outBuff[PAYLOAD_START + respOffset] := HighByte(value);
      outBuff[PAYLOAD_START + respOffset + 1] := LowByte(value);
      respOffset := respOffset + 2;
    }

    /** The callback's builder calls, made one after another. */
    method RunCallback(calls: seq<BuilderCall>)
      requires Valid() && CallsFit(respOffset, calls)
      modifies outBuff, this`respOffset
      ensures (outBuff[..], respOffset) == Replay(old(outBuff[..]), old(respOffset), calls)
    {
      var i := 0;
      while i < |calls|
        invariant 0 <= i <= |calls|
        invariant CallsFit(respOffset, calls[i..])
        invariant Replay(outBuff[..], respOffset, calls[i..]) == Replay(old(outBuff[..]), old(respOffset), calls)
      {
        assert calls[i..][0] == calls[i] && calls[i..][1..] == calls[i + 1..];
        match calls[i] {
          case AddBit(on) => ResponseAddBit(on);
          case AddRegister(v) => ResponseAddRegister(v);
        }
        i := i + 1;
      }
      assert calls[i..] == [];
    }

    /** `readBytes(_inBuff, available)`: the received bytes land at the start of `inBuff`. */
    method ReadBytes(received: seq<byte>)
      requires Valid() && |received| <= BUFFER_SIZE
      modifies inBuff
      ensures inBuff[..|received|] == received
      ensures inBuff[|received|..] == old(inBuff[|received|..])
    {
      forall i | 0 <= i < |received| {
        inBuff[i] := received[i];
      }
    }

    /** The `switch (function)` of `process` on `inBuff[..inLen]`: the status,
        PDU length and request it computes, and the bytes it pre-fills. */
    method DecodeRequest(inLen: nat) returns (exCode: byte, pduLen: nat, req: Request)
      requires Valid() && MIN_FRAME <= inLen <= BUFFER_SIZE
      modifies outBuff
      ensures DecodedAs(Decode(inBuff[..inLen]), old(outBuff[..]), outBuff[..], exCode, pduLen, req)
    {
      var fc := inBuff[1];
      if fc == FC_READ_COILS || fc == FC_READ_DISCRETE_INPUTS {
        exCode, pduLen, req := CaseReadBits(inLen);
      } else if fc == FC_READ_HOLDING_REGISTERS || fc == FC_READ_INPUT_REGISTER {
        exCode, pduLen, req := CaseReadRegisters(inLen);
      } else if fc == FC_WRITE_SINGLE_COIL || fc == FC_WRITE_SINGLE_REGISTER {
        exCode, pduLen, req := CaseWriteSingle(inLen);
      } else if fc == FC_WRITE_MULTIPLE_COILS || fc == FC_WRITE_MULTIPLE_REGISTERS {
        exCode, pduLen, req := CaseWriteMultiple(inLen);
      } else if fc == FC_TRANSFER_RAW {
        exCode, pduLen, req := CaseTransferRaw(inLen);
      } else {
        exCode, pduLen := EX_ILLEGAL_FUNCTION, 0;
        req := Request(inBuff[0], fc, Word(inBuff[2], inBuff[3]), 0, []);
      }
    }

    /** Read coils and read discrete inputs. */
    method CaseReadBits(inLen: nat) returns (exCode: byte, pduLen: nat, req: Request)
      requires Valid() && MIN_FRAME <= inLen <= BUFFER_SIZE
      requires inBuff[1] == FC_READ_COILS || inBuff[1] == FC_READ_DISCRETE_INPUTS
      modifies outBuff
      ensures DecodedAs(DecodeReadBitsCase(inBuff[..inLen]), old(outBuff[..]), outBuff[..], exCode, pduLen, req)
    {
      ghost var frame := inBuff[..inLen];
      assert frame[0] == inBuff[0] && frame[1] == inBuff[1] && frame[4] == inBuff[4] && frame[5] == inBuff[5];
      var qty := Word(inBuff[4], inBuff[5]);
      req := Request(inBuff[0], inBuff[1], Word(inBuff[2], inBuff[3]), qty, []);
      exCode, pduLen := RESP_OK, 0;
      if qty < 0x0001 || qty > 0x07D0 {
        exCode := EX_ILLEGAL_DATA_VALUE;
        assert DecodeReadBitsCase(frame) == Refuse(EX_ILLEGAL_DATA_VALUE);
      } else {
        var n := BitBytes(qty);
        assert DecodeReadBitsCase(frame) == Dispatch(req, n + 2, [ByteOf(n)]);
        StoreByteCount(ByteOf(n));
        pduLen := n + 2;  // the byte count just stored, plus two
      }
    }

    /** Read holding registers and read input registers. */
    method CaseReadRegisters(inLen: nat) returns (exCode: byte, pduLen: nat, req: Request)
      requires Valid() && MIN_FRAME <= inLen <= BUFFER_SIZE
      requires inBuff[1] == FC_READ_HOLDING_REGISTERS || inBuff[1] == FC_READ_INPUT_REGISTER
      modifies outBuff
      ensures DecodedAs(DecodeReadRegistersCase(inBuff[..inLen]), old(outBuff[..]), outBuff[..], exCode, pduLen, req)
    {
      ghost var frame := inBuff[..inLen];
      assert frame[0] == inBuff[0] && frame[1] == inBuff[1] && frame[4] == inBuff[4] && frame[5] == inBuff[5];
      var qty := Word(inBuff[4], inBuff[5]);
      req := Request(inBuff[0], inBuff[1], Word(inBuff[2], inBuff[3]), qty, []);
      exCode, pduLen := RESP_OK, 0;
      if qty < 0x0001 || qty > 0x007D {
        exCode := EX_ILLEGAL_DATA_VALUE;
        assert DecodeReadRegistersCase(frame) == Refuse(EX_ILLEGAL_DATA_VALUE);
      } else {
        var n := qty * 2;
        assert DecodeReadRegistersCase(frame) == Dispatch(req, n + 2, [ByteOf(n)]);
        StoreByteCount(ByteOf(n));
        pduLen := n + 2;  // the byte count just stored, plus two
      }
    }

    /** Write single coil and write single register. */
    method CaseWriteSingle(inLen: nat) returns (exCode: byte, pduLen: nat, req: Request)
      requires Valid() && MIN_FRAME <= inLen <= BUFFER_SIZE
      requires inBuff[1] == FC_WRITE_SINGLE_COIL || inBuff[1] == FC_WRITE_SINGLE_REGISTER
      modifies outBuff
      ensures DecodedAs(DecodeWriteSingleCase(inBuff[..inLen]), old(outBuff[..]), outBuff[..], exCode, pduLen, req)
    {
      ghost var frame := inBuff[..inLen];
      assert frame[2..6] == inBuff[2..6] && frame[4..|frame| - 2] == inBuff[4..inLen - 2];
      var data := inBuff[4..inLen - 2];
      req := Request(inBuff[0], inBuff[1], Word(inBuff[2], inBuff[3]), 1, data);
      exCode, pduLen := RESP_OK, 0;
      if inBuff[1] == FC_WRITE_SINGLE_COIL && (data[1] != 0x00 || (data[0] != 0x00 && data[0] != 0xFF)) {
        exCode := EX_ILLEGAL_DATA_VALUE;
      } else {
        pduLen := 5;
        CopyEcho();
      }
    }

    /** Write multiple coils and write multiple registers. */
    method CaseWriteMultiple(inLen: nat) returns (exCode: byte, pduLen: nat, req: Request)
      requires Valid() && MIN_FRAME <= inLen <= BUFFER_SIZE
      requires inBuff[1] == FC_WRITE_MULTIPLE_COILS || inBuff[1] == FC_WRITE_MULTIPLE_REGISTERS
      modifies outBuff
      ensures DecodedAs(DecodeWriteMultipleCase(inBuff[..inLen]), old(outBuff[..]), outBuff[..], exCode, pduLen, req)
    {
      ghost var frame := inBuff[..inLen];
      assert frame[0] == inBuff[0] && frame[1] == inBuff[1] && frame[2] == inBuff[2]
          && frame[3] == inBuff[3] && frame[4] == inBuff[4] && frame[5] == inBuff[5];
      var qty := Word(inBuff[4], inBuff[5]);
      req := Request(inBuff[0], inBuff[1], Word(inBuff[2], inBuff[3]), qty, []);
      var refused := if inBuff[1] == FC_WRITE_MULTIPLE_COILS
                     then qty < 0x0001 || qty > 0x07D0 || inLen - 9 != ((qty - 1) / 8) + 1
                     else qty < 0x0001 || qty > 0x007B || inLen - 9 != qty * 2;
      WriteMultipleAs(frame, inLen, qty, refused);
      exCode, pduLen := RESP_OK, 0;
      if refused {
        exCode := EX_ILLEGAL_DATA_VALUE;
      } else {
        SliceOfPrefix(inBuff[..], inLen, 7, inLen - 2);
        SliceOfPrefix(inBuff[..], inLen, 2, 6);
        req := req.(data := inBuff[7..inLen - 2]);
        pduLen := 5;
        CopyEcho();
      }
    }

    /** The vendor raw-transfer code. */
    method CaseTransferRaw(inLen: nat) returns (exCode: byte, pduLen: nat, req: Request)
      requires Valid() && MIN_FRAME <= inLen <= BUFFER_SIZE
      requires inBuff[1] == FC_TRANSFER_RAW
      modifies outBuff
      ensures DecodedAs(DecodeTransferRawCase(inBuff[..inLen]), old(outBuff[..]), outBuff[..], exCode, pduLen, req)
    {
      ghost var frame := inBuff[..inLen];
      assert frame[3..|frame| - 2] == inBuff[3..inLen - 2];
      var qty := inBuff[2] as int;
      req := Request(inBuff[0], inBuff[1], Word(inBuff[2], inBuff[3]), qty, inBuff[3..inLen - 2]);
      exCode, pduLen := RESP_OK, 0;
      if qty < 0x0001 || qty > 0x007B {
        exCode := EX_ILLEGAL_DATA_VALUE;
      } else {
        pduLen := 5;
        StoreByteCount(inBuff[2]);
      }
    }

    /** The byte count of a read response, or the raw count echoed, stored at `outBuff[2]`. */
    method StoreByteCount(b: byte)
      requires Valid()
      modifies outBuff
      ensures outBuff[..] == Overwrite(old(outBuff[..]), 2, [b])
    {
      outBuff[2] := b;
    }

    /** `memcpy(_outBuff + 2, _inBuff + 2, 4)`. */
    method CopyEcho()
      requires Valid()
      modifies outBuff
      ensures outBuff[..] == Overwrite(old(outBuff[..]), 2, inBuff[2..6])
    {
      outBuff[2], outBuff[3], outBuff[4], outBuff[5] := inBuff[2], inBuff[3], inBuff[4], inBuff[5];
    }

    /** Everything `process` does after `readBytes` returned `inLen` bytes:
        the validator's three silent drops, then `Handle`. */
    method Respond(inLen: nat, callback: Option<CallbackResult>, crc: Crc16)
      returns (result: PollResult, ghost dispatched: Option<Request>)
      requires Valid() && inLen <= BUFFER_SIZE
      requires callback.Some? ==> CallsFit(0, callback.value.calls)
      modifies outBuff, this`respOffset
      ensures var e := Serve(unitAddr, inBuff[..inLen], old(outBuff[..]), old(respOffset), callback, crc, txEnPin > 0);
              outBuff[..] == e.out && respOffset == e.respOffset && result == e.reply && dispatched == e.dispatched
    {
      result, dispatched := NoReply, None;
      ghost var frame := inBuff[..inLen];
      if inLen < MIN_FRAME {
        ServeDrops(unitAddr, frame, old(outBuff[..]), old(respOffset), callback, crc, txEnPin > 0);
        return;
      }
      assert frame[0] == inBuff[0];
      if unitAddr > 0 && unitAddr != inBuff[0] {
        ServeDrops(unitAddr, frame, old(outBuff[..]), old(respOffset), callback, crc, txEnPin > 0);
        return;
      }
      var crcOk := CheckCrc(inLen, crc);
      if !crcOk {
        ServeDrops(unitAddr, frame, old(outBuff[..]), old(respOffset), callback, crc, txEnPin > 0);
        return;
      }
      ServeAnswers(unitAddr, frame, old(outBuff[..]), old(respOffset), callback, crc, txEnPin > 0);
      result, dispatched := Handle(inLen, callback, crc);
    }

    /** The CRC comparison of the validator: the routine's two bytes over
        everything before the last two, against those two. */
    method CheckCrc(inLen: nat, crc: Crc16) returns (ok: bool)
      requires Valid() && MIN_FRAME <= inLen <= BUFFER_SIZE
      ensures ok == CrcMatches(inBuff[..inLen], crc)
    {
      ghost var frame := inBuff[..inLen];
      assert frame[..inLen - 2] == inBuff[..inLen - 2];
      assert frame[inLen - 2] == inBuff[inLen - 2] && frame[inLen - 1] == inBuff[inLen - 1];
      var c := crc(inBuff[..inLen - 2]);
      ok := inBuff[inLen - 2] == c.first && inBuff[inLen - 1] == c.second;
    }

    /** Decoder, dispatch and encoder for an admitted frame. */
    method Handle(inLen: nat, callback: Option<CallbackResult>, crc: Crc16)
      returns (result: PollResult, ghost dispatched: Option<Request>)
      requires Valid() && MIN_FRAME <= inLen <= BUFFER_SIZE
      requires callback.Some? ==> CallsFit(0, callback.value.calls)
      modifies outBuff, this`respOffset
      ensures var e := Answer(inBuff[..inLen], Decode(inBuff[..inLen]), old(outBuff[..]), old(respOffset), callback, crc, txEnPin > 0);
              outBuff[..] == e.out && respOffset == e.respOffset && result == e.reply && dispatched == e.dispatched
    {
      ghost var frame := inBuff[..inLen];
      var addr, fc := inBuff[0], inBuff[1];
      assert frame[0] == addr && frame[1] == fc;
      var exCode, pduLen, req := DecodeRequest(inLen);
      if exCode != RESP_OK {
        result := Transmit(addr, fc, exCode, 0, crc);
        dispatched := None;
      } else {
        result, dispatched := DispatchRequest(addr, fc, pduLen, req, callback, crc);
      }
    }

    /** The dispatch of `process` for a decoded request, after its pre-fill. */
    method DispatchRequest(addr: byte, fc: byte, pduLen: nat, req: Request, callback: Option<CallbackResult>, crc: Crc16)
      returns (result: PollResult, ghost dispatched: Option<Request>)
      requires Valid() && 2 <= pduLen && pduLen + 3 <= BUFFER_SIZE
      requires callback.Some? ==> CallsFit(0, callback.value.calls)
      modifies outBuff, this`respOffset
      ensures var e := Dispatched(old(outBuff[..]), old(respOffset), addr, fc, pduLen, req, callback, crc, txEnPin > 0);
              outBuff[..] == e.out && respOffset == e.respOffset && result == e.reply && dispatched == e.dispatched
    {
      match callback {
        case None =>
          result := Transmit(addr, fc, EX_SERVER_DEVICE_FAILURE, pduLen, crc);
          dispatched := None;
        case Some(cb) =>
          respOffset := 0;
          RunCallback(cb.calls);
          dispatched := Some(req);
          if cb.status == RESP_IGNORE {
            result := NoReply;
          } else {
            result := Transmit(addr, fc, cb.status, pduLen, crc);
          }
      }
    }

    /** The encoder at the end of `process`: header, exception marking, CRC,
        and the bytes handed to `write`. */
    method Transmit(addr: byte, fc: byte, exCode: byte, pduLen: nat, crc: Crc16) returns (result: PollResult)
      requires Valid() && exCode != RESP_IGNORE
      requires exCode == RESP_OK ==> 2 <= pduLen && pduLen + 3 <= BUFFER_SIZE
      modifies outBuff
      ensures var e := Finish(old(outBuff[..]), respOffset, addr, fc, exCode, pduLen, crc, txEnPin > 0, None);
              outBuff[..] == e.out && result == e.reply
    {
      ghost var out0 := outBuff[..];
      var len := pduLen;
      outBuff[0] := addr;
      outBuff[1] := fc;
      if exCode != RESP_OK {
        outBuff[1] := outBuff[1] | 0x80;
        outBuff[2] := exCode;
        len := 2;
      }
      assert outBuff[..] == if exCode == RESP_OK then out0[0 := addr][1 := fc]
                            else out0[0 := addr][1 := MarkException(fc)][2 := exCode];
      var c := crc(outBuff[..len + 1]);
      outBuff[len + 1] := c.first;
      outBuff[len + 2] := c.second;
      result := Reply(outBuff[..len + 3], txEnPin > 0);
    }

    /** `process`: one poll of the port, given the pending count it reports,
        the clock, the bytes `readBytes` would return, the callback's
        behaviour (or no callback) and the CRC routine. */
    method Process(available: word, now: u32, received: seq<byte>, callback: Option<CallbackResult>, crc: Crc16)
      returns (result: PollResult, ghost dispatched: Option<Request>)
      requires Valid()
      requires |received| <= available && |received| <= BUFFER_SIZE
      requires callback.Some? ==> CallsFit(0, callback.value.calls)
      modifies this`lastAvailable, this`lastAvailableTs, this`respOffset, inBuff, outBuff
      ensures Valid()
      ensures var step := Assemble(Observation(old(lastAvailable), old(lastAvailableTs)), t35chars, available, now);
              && Observation(lastAvailable, lastAvailableTs) == step.next
              && (step.read ==>
                    && inBuff[..|received|] == received
                    && inBuff[|received|..] == old(inBuff[|received|..])
                    && var e := Serve(unitAddr, received, old(outBuff[..]), old(respOffset), callback, crc, txEnPin > 0);
                       outBuff[..] == e.out && respOffset == e.respOffset && result == e.reply && dispatched == e.dispatched)
              && (!step.read ==>
                    && result == NoReply && dispatched == None
                    && inBuff[..] == old(inBuff[..]) && outBuff[..] == old(outBuff[..])
                    && respOffset == old(respOffset))
    {
      var inLen := 0;
      if available > 0 {
        if available != lastAvailable {
          lastAvailable := available;
          lastAvailableTs := now;
        } else if Elapsed(now, lastAvailableTs) >= t35chars {
          ReadBytes(received);
          inLen := |received|;
          lastAvailable := 0;
        }
      }
      if inLen == 0 {
        // Nothing was read, or an empty read: the validator drops it.
        result, dispatched := NoReply, None;
        return;
      }
      result, dispatched := Respond(inLen, callback, crc);
    }
  }
}
