/** What `process` promises about one read frame, stated on `Serve`: which
    frames are answered, when the callback runs, the exception layout, the
    common layout of a normal reply over the buffer the callback's builder
    calls leave, and the exact bytes of register reads, coil reads, write
    echoes and raw transfers. */
module ProcessProperties {
  import opened Bytes
  import opened Protocol
  import opened RequestDecoder
  import opened ResponseEncoder
  import opened RtuSlave

  /** The validator's three silent drops: a frame shorter than eight bytes,
      one addressed to another unit while this one has a nonzero address, and
      one whose last two bytes are not the CRC of the rest. Nothing is sent,
      nothing changes and the callback does not run. */
  lemma SilentDrop(unitAddr: byte, frame: seq<byte>, out0: seq<byte>, off0: nat,
                   callback: Option<CallbackResult>, crc: Crc16, tx: bool)
    requires |out0| == BUFFER_SIZE
    requires callback.Some? ==> CallsFit(0, callback.value.calls)
    requires || |frame| < MIN_FRAME
             || (|frame| >= MIN_FRAME && unitAddr > 0 && unitAddr != frame[0])
             || (|frame| >= MIN_FRAME && !CrcMatches(frame, crc))
    ensures Serve(unitAddr, frame, out0, off0, callback, crc, tx) == Effect(out0, off0, NoReply, None)
  {
    ServeDrops(unitAddr, frame, out0, off0, callback, crc, tx);
  }

  /** A reply is sent exactly when the frame passes the validator and the
      final status is not `RESP_IGNORE`. */
  lemma ReplyIff(unitAddr: byte, frame: seq<byte>, out0: seq<byte>, off0: nat,
                 callback: Option<CallbackResult>, crc: Crc16, tx: bool)
    requires |out0| == BUFFER_SIZE
    requires callback.Some? ==> CallsFit(0, callback.value.calls)
    ensures Serve(unitAddr, frame, out0, off0, callback, crc, tx).reply.Reply?
            <==> Admitted(unitAddr, frame, crc) && FinalStatus(frame, callback) != RESP_IGNORE
  {
  }

  /** The callback runs only for an admitted frame that the decoder accepted,
      and then it receives exactly the decoded request. */
  lemma CallbackOnlyAfterDecode(unitAddr: byte, frame: seq<byte>, out0: seq<byte>, off0: nat,
                                callback: Option<CallbackResult>, crc: Crc16, tx: bool)
    requires |out0| == BUFFER_SIZE
    requires callback.Some? ==> CallsFit(0, callback.value.calls)
    ensures var e := Serve(unitAddr, frame, out0, off0, callback, crc, tx);
            && (e.dispatched.Some? <==>
                  Admitted(unitAddr, frame, crc) && Decode(frame).Dispatch? && callback.Some?)
            && (e.dispatched.Some? ==> e.dispatched.value == Decode(frame).req)
  {
  }

  /** Every exception reply, whether the decoder refused the request, no
      callback is registered, or the callback returned an exception code, is
      the five bytes address, function code with its high bit set, the code,
      and the CRC of those three. */
  lemma ExceptionReply(unitAddr: byte, frame: seq<byte>, out0: seq<byte>, off0: nat,
                       callback: Option<CallbackResult>, crc: Crc16, tx: bool)
    requires |out0| == BUFFER_SIZE
    requires callback.Some? ==> CallsFit(0, callback.value.calls)
    requires Admitted(unitAddr, frame, crc)
    requires FinalStatus(frame, callback) != RESP_OK && FinalStatus(frame, callback) != RESP_IGNORE
    ensures var e := Serve(unitAddr, frame, out0, off0, callback, crc, tx);
            var ex := FinalStatus(frame, callback);
            var c := crc([frame[0], MarkException(frame[1]), ex]);
            e.reply == Reply([frame[0], MarkException(frame[1]), ex, c.first, c.second], tx)
  {
    var ex := FinalStatus(frame, callback);
    match Decode(frame)
    case Refuse(_) =>
      EncodeException(out0, frame[0], frame[1], ex, 0, crc);
    case Dispatch(_, pduLen, prefill) =>
      var out1 := Overwrite(out0, 2, prefill);
      match callback
      case None =>
        EncodeException(out1, frame[0], frame[1], ex, pduLen, crc);
      case Some(cb) =>
        var r := Replay(out1, 0, cb.calls);
        EncodeException(r.0, frame[0], frame[1], ex, pduLen, crc);
  }

  /** Without a callback, an accepted request is answered with
      server-device-failure. */
  lemma NoCallbackMeansDeviceFailure(unitAddr: byte, frame: seq<byte>, out0: seq<byte>, off0: nat,
                                     crc: Crc16, tx: bool)
    requires |out0| == BUFFER_SIZE
    requires Admitted(unitAddr, frame, crc) && Decode(frame).Dispatch?
    ensures var e := Serve(unitAddr, frame, out0, off0, None, crc, tx);
            var c := crc([frame[0], MarkException(frame[1]), EX_SERVER_DEVICE_FAILURE]);
            && e.reply == Reply([frame[0], MarkException(frame[1]), EX_SERVER_DEVICE_FAILURE, c.first, c.second], tx)
            && e.dispatched == None && e.respOffset == off0
  {
    ExceptionReply(unitAddr, frame, out0, off0, None, crc, tx);
  }

  /** `e` is the normal answer to a request the decoder accepted with verdict
      `d`, after the callback `cb` returned `RESP_OK`: the reply is
      `outBuff[0 .. pduLen + 3)` after the callback's builder calls, with the
      address and function code echoed, the decoder's pre-fill first and a
      matching CRC last, sent inside the transmit-enable bracket when that
      pin is configured; the callback saw the decoded request and the write
      offset is where its builder calls left it. */
  predicate NormalAnswer(e: Effect, frame: seq<byte>, d: Decoded, out0: seq<byte>, cb: CallbackResult,
                         crc: Crc16, tx: bool)
    requires |e.out| == BUFFER_SIZE && |out0| == BUFFER_SIZE && |frame| >= MIN_FRAME
    requires d.Dispatch? && WellFormed(frame, d) && CallsFit(0, cb.calls)
  {
    var r := Replay(Overwrite(out0, 2, d.prefill), 0, cb.calls);
    && e.reply.Reply? && e.reply.txEnableBracket == tx
    && e.reply.bytes == e.out[..d.pduLen + 3]
    && e.reply.bytes[0] == frame[0] && e.reply.bytes[1] == frame[1]
    && (forall k :: 2 <= k <= d.pduLen ==> e.out[k] == r.0[k])
    && e.reply.bytes[2] == d.prefill[0]
    && CrcMatches(e.reply.bytes, crc)
    && e.respOffset == r.1 && e.dispatched == Some(d.req)
  }

  /** A normal reply is `pduLen + 3` bytes: the request's address and function
      code, the payload as the decoder's pre-fill and the callback's builder
      calls from offset 0 left it, and a CRC that the validator would accept. */
  lemma NormalReply(unitAddr: byte, frame: seq<byte>, out0: seq<byte>, off0: nat,
                    cb: CallbackResult, crc: Crc16, tx: bool)
    requires |out0| == BUFFER_SIZE && CallsFit(0, cb.calls)
    requires Admitted(unitAddr, frame, crc) && Decode(frame).Dispatch? && cb.status == RESP_OK
    ensures NormalAnswer(Serve(unitAddr, frame, out0, off0, Some(cb), crc, tx), frame, Decode(frame), out0, cb, crc, tx)
  {
    var d := Decode(frame);
    var out1 := Overwrite(out0, 2, d.prefill);
    DispatchedNormal(out1, off0, frame, d, out0, cb, crc, tx);
    assert Serve(unitAddr, frame, out0, off0, Some(cb), crc, tx)
        == Dispatched(out1, off0, frame[0], frame[1], d.pduLen, d.req, Some(cb), crc, tx);
  }

  /** The step of `NormalReply` after the decoder and the pre-fill. */
  lemma DispatchedNormal(out1: seq<byte>, off0: nat, frame: seq<byte>, d: Decoded, out0: seq<byte>,
                         cb: CallbackResult, crc: Crc16, tx: bool)
    requires |out0| == BUFFER_SIZE && |frame| >= MIN_FRAME && d.Dispatch? && WellFormed(frame, d)
    requires CallsFit(0, cb.calls) && cb.status == RESP_OK && out1 == Overwrite(out0, 2, d.prefill)
    ensures NormalAnswer(Dispatched(out1, off0, frame[0], frame[1], d.pduLen, d.req, Some(cb), crc, tx),
                         frame, d, out0, cb, crc, tx)
  {
    var r := Replay(out1, 0, cb.calls);
    assert r.0[2] == out1[2] == d.prefill[0] by {
      assert r.0[..PAYLOAD_START][2] == out1[..PAYLOAD_START][2];
      assert out1[2..2 + |d.prefill|][0] == d.prefill[0];
    }
    EncodeNormal(r.0, frame[0], frame[1], d.pduLen, crc);
    EncodedCrcMatches(r.0, frame[0], frame[1], RESP_OK, d.pduLen, crc);
    var out := Encode(r.0, frame[0], frame[1], RESP_OK, d.pduLen, crc);
    assert Dispatched(out1, off0, frame[0], frame[1], d.pduLen, d.req, Some(cb), crc, tx)
        == Effect(out, r.1, Reply(out[..d.pduLen + 3], tx), Some(d.req));
  }


  /** `e` answers a read of the registers `values` in `frame`: address,
      function, byte count `2 * |values|`, each value high byte first, and the
      CRC; the write offset ends after the last value. */
  predicate RegisterReply(e: Effect, frame: seq<byte>, values: seq<word>, crc: Crc16)
    requires |frame| >= 2
  {
    && e.reply.Reply?
    && var bytes := e.reply.bytes;
    && |bytes| == 2 * |values| + 5
    && bytes[0] == frame[0] && bytes[1] == frame[1] && bytes[2] as int == 2 * |values|
    && (forall i :: 0 <= i < |values| ==> Word(bytes[3 + 2 * i], bytes[4 + 2 * i]) == values[i])
    && CrcMatches(bytes, crc)
    && e.respOffset == 2 * |values|
  }

  /** A read of `qty` holding or input registers that the callback answers by
      adding `qty` registers fits the buffer and replies with the byte count
      `2 * qty` followed by the values, big-endian, in call order. */
  lemma ReadRegistersReply(unitAddr: byte, frame: seq<byte>, out0: seq<byte>, off0: nat,
                           cb: CallbackResult, values: seq<word>, crc: Crc16, tx: bool)
    requires |out0| == BUFFER_SIZE && Admitted(unitAddr, frame, crc)
    requires frame[1] == FC_READ_HOLDING_REGISTERS || frame[1] == FC_READ_INPUT_REGISTER
    requires 1 <= |values| <= MAX_READ_REGISTERS && |values| == Word(frame[4], frame[5])
    requires RegisterCalls(cb.calls, values) && cb.status == RESP_OK
    ensures CallsFit(0, cb.calls)
    ensures RegisterReply(Serve(unitAddr, frame, out0, off0, Some(cb), crc, tx), frame, values, crc)
  {
    RegisterCallsFit(0, cb.calls, values);
    DecodeReadRegisters(frame);
    NormalReply(unitAddr, frame, out0, off0, cb, crc, tx);
    RegisterAnswer(Serve(unitAddr, frame, out0, off0, Some(cb), crc, tx), frame, Decode(frame), out0, cb, values, crc, tx);
  }

  /** The step of `ReadRegistersReply` after the reply is known to be normal. */
  lemma RegisterAnswer(e: Effect, frame: seq<byte>, d: Decoded, out0: seq<byte>, cb: CallbackResult,
                       values: seq<word>, crc: Crc16, tx: bool)
    requires |e.out| == BUFFER_SIZE && |out0| == BUFFER_SIZE && |frame| >= MIN_FRAME
    requires d.Dispatch? && WellFormed(frame, d) && CallsFit(0, cb.calls) && RegisterCalls(cb.calls, values)
    requires |d.prefill| == 1 && d.prefill[0] as int == 2 * |values| && d.pduLen == 2 * |values| + 2
    requires NormalAnswer(e, frame, d, out0, cb, crc, tx)
    ensures RegisterReply(e, frame, values, crc)
  {
    var out1 := Overwrite(out0, 2, d.prefill);
    ReplayRegisters(out1, 0, cb.calls, values);
    WordsCopied(e.reply.bytes, e.out, Replay(out1, 0, cb.calls).0, d.pduLen, values);
  }

  /** Register values the builders left in `r0` reach the reply when the
      encoder kept `r0`'s payload bytes in `out` and sent `out`'s first
      `pduLen + 3` bytes. */
  lemma WordsCopied(bytes: seq<byte>, out: seq<byte>, r0: seq<byte>, pduLen: nat, values: seq<word>)
    requires |out| == BUFFER_SIZE && |r0| == BUFFER_SIZE && pduLen == 2 * |values| + 2 && pduLen + 3 <= BUFFER_SIZE
    requires bytes == out[..pduLen + 3]
    requires forall k :: 2 <= k <= pduLen ==> out[k] == r0[k]
    requires forall i :: 0 <= i < |values| ==> Word(r0[PAYLOAD_START + 2 * i], r0[PAYLOAD_START + 2 * i + 1]) == values[i]
    ensures forall i :: 0 <= i < |values| ==> Word(bytes[3 + 2 * i], bytes[4 + 2 * i]) == values[i]
  {
    forall i | 0 <= i < |values| ensures Word(bytes[3 + 2 * i], bytes[4 + 2 * i]) == values[i] {
      assert bytes[3 + 2 * i] == out[3 + 2 * i] == r0[PAYLOAD_START + 2 * i];
      assert bytes[4 + 2 * i] == out[4 + 2 * i] == r0[PAYLOAD_START + 2 * i + 1];
    }
  }


  /** `e` answers a read of `bits` coils or discrete inputs in `frame`: the
      reply is address, function, byte count `n`, `n` payload bytes holding
      the bits from the low bit of the first on, and the CRC. The padding
      bits after the last coil are not cleared: they keep what `out0`, the
      output buffer before the request, held there. */
  predicate CoilReply(e: Effect, frame: seq<byte>, out0: seq<byte>, bits: seq<bool>, crc: Crc16)
    requires |e.out| == BUFFER_SIZE && |out0| == BUFFER_SIZE && |frame| >= 2
    requires 1 <= |bits| <= MAX_COILS
  {
    var n := BitBytes(|bits|);
    && e.reply.Reply? && e.reply.bytes == e.out[..n + 5]
    && e.out[0] == frame[0] && e.out[1] == frame[1] && e.out[2] as int == n
    && CoilPayload(e.out, out0, bits, n)
    && CrcMatches(e.reply.bytes, crc)
    && e.respOffset == |bits|
  }

  /** A read of `qty` coils or discrete inputs that the callback answers by
      adding `qty` bits replies with the byte count ceil(qty / 8), and bit i
      of the payload is the i-th bit added. */
  lemma ReadBitsReply(unitAddr: byte, frame: seq<byte>, out0: seq<byte>, off0: nat,
                      cb: CallbackResult, bits: seq<bool>, crc: Crc16, tx: bool)
    requires |out0| == BUFFER_SIZE && Admitted(unitAddr, frame, crc)
    requires frame[1] == FC_READ_COILS || frame[1] == FC_READ_DISCRETE_INPUTS
    requires 1 <= |bits| <= MAX_COILS && |bits| == Word(frame[4], frame[5])
    requires BitCalls(cb.calls, bits) && cb.status == RESP_OK
    ensures CallsFit(0, cb.calls)
    ensures CoilReply(Serve(unitAddr, frame, out0, off0, Some(cb), crc, tx), frame, out0, bits, crc)
  {
    BitCallsFit(0, cb.calls, bits);
    DecodeReadBits(frame);
    NormalReply(unitAddr, frame, out0, off0, cb, crc, tx);
    CoilAnswer(Serve(unitAddr, frame, out0, off0, Some(cb), crc, tx), frame, Decode(frame), out0, cb, bits, crc, tx);
  }

  /** The step of `ReadBitsReply` after the reply is known to be normal. */
  lemma CoilAnswer(e: Effect, frame: seq<byte>, d: Decoded, out0: seq<byte>, cb: CallbackResult,
                   bits: seq<bool>, crc: Crc16, tx: bool)
    requires |e.out| == BUFFER_SIZE && |out0| == BUFFER_SIZE && |frame| >= MIN_FRAME
    requires d.Dispatch? && WellFormed(frame, d) && CallsFit(0, cb.calls) && BitCalls(cb.calls, bits)
    requires 1 <= |bits| <= MAX_COILS && |d.prefill| == 1
    requires 8 * (d.prefill[0] as int - 1) < |bits| <= 8 * d.prefill[0] as int
    requires d.pduLen == d.prefill[0] as int + 2
    requires NormalAnswer(e, frame, d, out0, cb, crc, tx)
    ensures CoilReply(e, frame, out0, bits, crc)
  {
    var n := BitBytes(|bits|);
    assert n == d.prefill[0] as int;
    var out1 := Overwrite(out0, 2, d.prefill);
    ReplayBitsPayload(out1, cb.calls, bits, n);
    CoilPayloadAgree(Replay(out1, 0, cb.calls).0, e.out, out1, out0, bits, n);
  }

  /** `e` echoes the first six bytes of the write request `frame` with their CRC,
      and the whole request when it is eight bytes long. */
  predicate EchoReply(e: Effect, frame: seq<byte>, crc: Crc16)
    requires |frame| >= MIN_FRAME
  {
    && e.reply.Reply?
    && var bytes := e.reply.bytes;
    && |bytes| == 8 && bytes[..6] == frame[..6] && CrcMatches(bytes, crc)
    && (|frame| == 8 ==> bytes == frame)
  }

  /** A write request that the callback accepts without adding anything is
      answered by echoing its first six bytes with their CRC; a single-coil
      or single-register request of eight bytes is echoed exactly. */
  lemma WriteEchoReply(unitAddr: byte, frame: seq<byte>, out0: seq<byte>, off0: nat,
                       crc: Crc16, tx: bool)
    requires |out0| == BUFFER_SIZE && Admitted(unitAddr, frame, crc)
    requires || frame[1] == FC_WRITE_SINGLE_COIL || frame[1] == FC_WRITE_SINGLE_REGISTER
             || frame[1] == FC_WRITE_MULTIPLE_COILS || frame[1] == FC_WRITE_MULTIPLE_REGISTERS
    requires Decode(frame).Dispatch?
    ensures EchoReply(Serve(unitAddr, frame, out0, off0, Some(CallbackResult([], RESP_OK)), crc, tx), frame, crc)
  {
    if frame[1] == FC_WRITE_SINGLE_COIL {
      DecodeWriteSingleCoil(frame);
    } else if frame[1] == FC_WRITE_SINGLE_REGISTER {
      DecodeWriteSingleRegister(frame);
    } else if frame[1] == FC_WRITE_MULTIPLE_COILS {
      DecodeWriteMultipleCoils(frame);
    } else {
      DecodeWriteMultipleRegisters(frame);
    }
    NormalReply(unitAddr, frame, out0, off0, CallbackResult([], RESP_OK), crc, tx);
    EchoAnswer(Serve(unitAddr, frame, out0, off0, Some(CallbackResult([], RESP_OK)), crc, tx),
               frame, Decode(frame), out0, crc, tx);
  }

  /** The step of `WriteEchoReply` after the reply is known to be normal. */
  lemma EchoAnswer(e: Effect, frame: seq<byte>, d: Decoded, out0: seq<byte>, crc: Crc16, tx: bool)
    requires |e.out| == BUFFER_SIZE && |out0| == BUFFER_SIZE && |frame| >= MIN_FRAME
    requires CrcMatches(frame, crc)
    requires d.Dispatch? && WellFormed(frame, d) && d.prefill == frame[2..6] && d.pduLen == 5
    requires NormalAnswer(e, frame, d, out0, CallbackResult([], RESP_OK), crc, tx)
    ensures EchoReply(e, frame, crc)
  {
    var out1 := Overwrite(out0, 2, d.prefill);
    assert Replay(out1, 0, []).0 == out1;
    var bytes := e.reply.bytes;
    assert bytes[..6] == frame[..6] by {
      forall k | 2 <= k < 6 ensures bytes[k] == frame[k] {
        assert bytes[k] == out1[k] == out1[2..6][k - 2];
      }
    }
    if |frame| == 8 {
      assert frame[..6] == frame[..|frame| - 2];
      assert bytes[..6] == bytes[..|bytes| - 2];
      assert crc(bytes[..6]) == crc(frame[..6]);
      forall k | 0 <= k < 8 ensures bytes[k] == frame[k] {
        if k < 6 {
          assert bytes[..6][k] == frame[..6][k];
        }
      }
    }
  }

  /** `e` answers the raw transfer `frame` with eight bytes: address, function
      code and count echoed, then the three payload bytes as the callback's
      builder calls left them in `out1`, and the CRC. */
  predicate RawReply(e: Effect, frame: seq<byte>, out1: seq<byte>, crc: Crc16)
    requires |frame| >= MIN_FRAME && |out1| == BUFFER_SIZE
  {
    && e.reply.Reply?
    && var bytes := e.reply.bytes;
    && |bytes| == 8 && bytes[..3] == frame[..3] && bytes[3..6] == out1[3..6]
    && CrcMatches(bytes, crc)
  }

  /** A raw transfer that the callback accepts is answered with the address,
      function code, the echoed count, the three bytes its builder calls
      wrote from offset 0 over the pre-filled buffer, and the CRC. */
  lemma TransferRawReply(unitAddr: byte, frame: seq<byte>, out0: seq<byte>, off0: nat,
                         cb: CallbackResult, crc: Crc16, tx: bool)
    requires |out0| == BUFFER_SIZE && Admitted(unitAddr, frame, crc)
    requires frame[1] == FC_TRANSFER_RAW && Decode(frame).Dispatch?
    requires CallsFit(0, cb.calls) && cb.status == RESP_OK
    ensures RawReply(Serve(unitAddr, frame, out0, off0, Some(cb), crc, tx), frame,
                     Replay(Overwrite(out0, 2, [frame[2]]), 0, cb.calls).0, crc)
  {
    DecodeTransferRaw(frame);
    NormalReply(unitAddr, frame, out0, off0, cb, crc, tx);
    RawAnswer(Serve(unitAddr, frame, out0, off0, Some(cb), crc, tx), frame, Decode(frame), out0, cb, crc, tx);
  }

  /** The step of `TransferRawReply` after the reply is known to be normal. */
  lemma RawAnswer(e: Effect, frame: seq<byte>, d: Decoded, out0: seq<byte>, cb: CallbackResult,
                  crc: Crc16, tx: bool)
    requires |e.out| == BUFFER_SIZE && |out0| == BUFFER_SIZE && |frame| >= MIN_FRAME
    requires d.Dispatch? && WellFormed(frame, d) && CallsFit(0, cb.calls)
    requires d.prefill == [frame[2]] && d.pduLen == 5
    requires NormalAnswer(e, frame, d, out0, cb, crc, tx)
    ensures RawReply(e, frame, Replay(Overwrite(out0, 2, [frame[2]]), 0, cb.calls).0, crc)
  {
    var r := Replay(Overwrite(out0, 2, d.prefill), 0, cb.calls).0;
    var bytes := e.reply.bytes;
    assert bytes[0] == frame[0] && bytes[1] == frame[1] && bytes[2] == frame[2];
    assert bytes[..3] == frame[..3];
    forall k | 3 <= k < 6 ensures bytes[k] == r[k] {
      assert bytes[k] == e.out[k];
    }
    assert bytes[3..6] == r[3..6];
  }
}
