/** The response side: the two builder operations the callback uses to fill
    `outBuff` from offset 3 on, replay of a callback's calls, and the encoder
    that finishes `[addr][func][payload][crc]`. Buffers are sequences here;
    the engine class applies the same steps to its arrays. */
module ResponseEncoder {
  import opened Bytes
  import opened Protocol
  import RequestDecoder

  /** Offset of the first byte the builders write (after address, function and byte count). */
  const PAYLOAD_START: nat := 3

  /** The number of payload bits a buffer of `BUFFER_SIZE` bytes holds. */
  const PAYLOAD_BITS: nat := 8 * (BUFFER_SIZE - PAYLOAD_START)

  /** Bit `off` of the payload, counting from bit 0 of `buf[3]`. */
  predicate BitAt(buf: seq<byte>, off: nat)
    requires |buf| == BUFFER_SIZE && off < PAYLOAD_BITS
  {
    BitRead(buf[PAYLOAD_START + off / 8], off % 8)
  }

  /** The effect of `responseAddBit(on)` at write offset `off`. */
  function WithBit(buf: seq<byte>, off: nat, on: bool): (r: seq<byte>)
    requires |buf| == BUFFER_SIZE && off < PAYLOAD_BITS
    ensures |r| == |buf|
    ensures BitAt(r, off) == on
    ensures forall q: nat :: q < PAYLOAD_BITS && q != off ==> BitAt(r, q) == BitAt(buf, q)
    ensures forall i :: 0 <= i < |buf| && i != PAYLOAD_START + off / 8 ==> r[i] == buf[i]
  {
    var i := PAYLOAD_START + off / 8;
    assert forall q: nat :: q / 8 == off / 8 && q % 8 == off % 8 ==> q == off;
    BitWriteOthers(buf[i], off % 8, on);
    buf[i := BitWrite(buf[i], off % 8, on)]
  }

  /** The effect of `responseAddRegister(v)` at write offset `off`. */
  function WithRegister(buf: seq<byte>, off: nat, v: word): (r: seq<byte>)
    requires PAYLOAD_START + off + 1 < |buf|
    ensures |r| == |buf|
    ensures Word(r[PAYLOAD_START + off], r[PAYLOAD_START + off + 1]) == v
    ensures forall i :: 0 <= i < |buf| && i != PAYLOAD_START + off && i != PAYLOAD_START + off + 1
              ==> r[i] == buf[i]
  {
    WordRoundTrip(v);
    buf[PAYLOAD_START + off := HighByte(v)][PAYLOAD_START + off + 1 := LowByte(v)]
  }

  /** How far one builder call advances the write offset. */
  function Advance(c: BuilderCall): nat
  {
    match c
    case AddBit(_) => 1
    case AddRegister(_) => 2
  }

  /** Every call of `calls`, made from write offset `off` on, stays inside a
      buffer of `BUFFER_SIZE` bytes. */
  predicate CallsFit(off: nat, calls: seq<BuilderCall>)
    decreases |calls|
  {
    calls == [] ||
    ((match calls[0]
      case AddBit(_) => off < PAYLOAD_BITS
      case AddRegister(_) => PAYLOAD_START + off + 1 < BUFFER_SIZE)
     && CallsFit(off + Advance(calls[0]), calls[1..]))
  }

  /** One builder call on a buffer and write offset. */
  function Step(buf: seq<byte>, off: nat, c: BuilderCall): (seq<byte>, nat)
    requires |buf| == BUFFER_SIZE
    requires CallsFit(off, [c])
  {
    match c
    case AddBit(on) => (WithBit(buf, off, on), off + 1)
    case AddRegister(v) => (WithRegister(buf, off, v), off + 2)
  }

  /** The buffer and write offset after the callback made `calls`, in order. */
  function Replay(buf: seq<byte>, off: nat, calls: seq<BuilderCall>): (r: (seq<byte>, nat))
    requires |buf| == BUFFER_SIZE
    requires CallsFit(off, calls)
    ensures |r.0| == |buf|
    ensures r.0[..PAYLOAD_START] == buf[..PAYLOAD_START]
    decreases |calls|
  {
    if calls == [] then (buf, off)
    else
      var s := Step(buf, off, calls[0]);
      Replay(s.0, s.1, calls[1..])
  }

  /** A callback that only adds registers, `values[i]` as its i-th call. */
  predicate RegisterCalls(calls: seq<BuilderCall>, values: seq<word>)
  {
    |calls| == |values| && forall i :: 0 <= i < |calls| ==> calls[i] == AddRegister(values[i])
  }

  /** A callback that only adds bits, `bits[i]` as its i-th call. */
  predicate BitCalls(calls: seq<BuilderCall>, bits: seq<bool>)
  {
    |calls| == |bits| && forall i :: 0 <= i < |calls| ==> calls[i] == AddBit(bits[i])
  }

  /** Up to 125 registers always fit the buffer from offset 0. */
  lemma {:induction false} RegisterCallsFit(off: nat, calls: seq<BuilderCall>, values: seq<word>)
    requires RegisterCalls(calls, values)
    requires off + 2 * |calls| <= 2 * RequestDecoder.MAX_READ_REGISTERS
    ensures CallsFit(off, calls)
    decreases |calls|
  {
    if calls != [] {
      RegisterCallsFit(off + 2, calls[1..], values[1..]);
    }
  }

  /** Up to 2000 bits always fit the buffer from offset 0. */
  lemma {:induction false} BitCallsFit(off: nat, calls: seq<BuilderCall>, bits: seq<bool>)
    requires BitCalls(calls, bits)
    requires off + |calls| <= RequestDecoder.MAX_COILS
    ensures CallsFit(off, calls)
    decreases |calls|
  {
    if calls != [] {
      BitCallsFit(off + 1, calls[1..], bits[1..]);
    }
  }

  /** Registers added one after another from offset `off` land as consecutive
      big-endian pairs, and no other byte changes. */
  lemma {:induction false} ReplayRegisters(buf: seq<byte>, off: nat, calls: seq<BuilderCall>, values: seq<word>)
    requires |buf| == BUFFER_SIZE && CallsFit(off, calls) && RegisterCalls(calls, values)
    ensures var r := Replay(buf, off, calls);
            && r.1 == off + 2 * |values|
            && (|values| > 0 ==> PAYLOAD_START + off + 2 * |values| <= BUFFER_SIZE)
            && (forall i :: 0 <= i < |values| ==>
                  Word(r.0[PAYLOAD_START + off + 2 * i], r.0[PAYLOAD_START + off + 2 * i + 1]) == values[i])
            && (forall j :: 0 <= j < BUFFER_SIZE && !(PAYLOAD_START + off <= j < PAYLOAD_START + off + 2 * |values|)
                  ==> r.0[j] == buf[j])
    decreases |calls|
  {
    if calls != [] {
      var s := Step(buf, off, calls[0]);
      assert calls[0] == AddRegister(values[0]);
      assert RegisterCalls(calls[1..], values[1..]) by {
        forall i | 0 <= i < |calls| - 1 ensures calls[1..][i] == AddRegister(values[1..][i]) {
          assert calls[1..][i] == calls[i + 1];
        }
      }
      ReplayRegisters(s.0, s.1, calls[1..], values[1..]);
      var r := Replay(buf, off, calls);
      assert r == Replay(s.0, s.1, calls[1..]);
      forall i | 0 <= i < |values|
        ensures Word(r.0[PAYLOAD_START + off + 2 * i], r.0[PAYLOAD_START + off + 2 * i + 1]) == values[i]
      {
        if i > 0 {
          assert values[1..][i - 1] == values[i];
          assert PAYLOAD_START + s.1 + 2 * (i - 1) == PAYLOAD_START + off + 2 * i;
        }
      }
    }
  }

  /** Bits added one after another from offset `off` leave every payload bit
      outside `off .. off + |bits|` as it was. */
  lemma {:induction false} ReplayBitsFrame(buf: seq<byte>, off: nat, calls: seq<BuilderCall>, bits: seq<bool>, q: nat)
    requires |buf| == BUFFER_SIZE && CallsFit(off, calls) && BitCalls(calls, bits)
    requires q < PAYLOAD_BITS && !(off <= q < off + |bits|)
    ensures Replay(buf, off, calls).1 == off + |bits|
    ensures BitAt(Replay(buf, off, calls).0, q) == BitAt(buf, q)
    decreases |calls|
  {
    if calls != [] {
      var s := Step(buf, off, calls[0]);
      BitCallsTail(calls, bits);
      ReplayBitsFrame(s.0, s.1, calls[1..], bits[1..], q);
    }
  }

  /** Bits added one after another from offset `off` are bits `off`, `off + 1`,
      ... of the payload. */
  lemma {:induction false} ReplayBits(buf: seq<byte>, off: nat, calls: seq<BuilderCall>, bits: seq<bool>, i: nat)
    requires |buf| == BUFFER_SIZE && CallsFit(off, calls) && BitCalls(calls, bits)
    requires i < |bits|
    ensures off + i < PAYLOAD_BITS
    ensures BitAt(Replay(buf, off, calls).0, off + i) == bits[i]
    decreases |calls|
  {
    var s := Step(buf, off, calls[0]);
    BitCallsTail(calls, bits);
    if i > 0 {
      ReplayBits(s.0, s.1, calls[1..], bits[1..], i - 1);
    } else {
      if |calls| > 1 {
        ReplayBitsFrame(s.0, s.1, calls[1..], bits[1..], off);
      }
    }
  }

  /** Payload bytes `3 .. 3 + n` hold `bits` from bit 0 of `buf[3]` on, and
      the bits after them up to the end of byte `3 + n - 1` are as in `base`. */
  predicate CoilPayload(buf: seq<byte>, base: seq<byte>, bits: seq<bool>, n: nat)
    requires |buf| == BUFFER_SIZE && |base| == BUFFER_SIZE && PAYLOAD_START + n <= BUFFER_SIZE
  {
    && |bits| <= 8 * n
    && (forall i :: 0 <= i < |bits| ==> BitAt(buf, i) == bits[i])
    && (forall j :: |bits| <= j < 8 * n ==> BitAt(buf, j) == BitAt(base, j))
  }

  /** Replaying the bit calls of a read-coils callback from offset 0 leaves
      exactly those bits in the payload and every later bit untouched. */
  lemma ReplayBitsPayload(buf: seq<byte>, calls: seq<BuilderCall>, bits: seq<bool>, n: nat)
    requires |buf| == BUFFER_SIZE && CallsFit(0, calls) && BitCalls(calls, bits)
    requires PAYLOAD_START + n <= BUFFER_SIZE && |bits| <= 8 * n && |bits| < PAYLOAD_BITS
    ensures Replay(buf, 0, calls).1 == |bits|
    ensures CoilPayload(Replay(buf, 0, calls).0, buf, bits, n)
  {
    var r := Replay(buf, 0, calls);
    forall i | 0 <= i < |bits| ensures BitAt(r.0, i) == bits[i] {
      ReplayBits(buf, 0, calls, bits, i);
    }
    forall j | |bits| <= j < 8 * n ensures BitAt(r.0, j) == BitAt(buf, j) {
      ReplayBitsFrame(buf, 0, calls, bits, j);
    }
    ReplayBitsFrame(buf, 0, calls, bits, |bits|);
  }

  /** A coil payload depends only on bytes `3 .. 3 + n` of the buffer and of
      its base. */
  lemma CoilPayloadAgree(a: seq<byte>, b: seq<byte>, baseA: seq<byte>, baseB: seq<byte>, bits: seq<bool>, n: nat)
    requires |a| == BUFFER_SIZE && |b| == BUFFER_SIZE && |baseA| == BUFFER_SIZE && |baseB| == BUFFER_SIZE
    requires PAYLOAD_START + n <= BUFFER_SIZE && CoilPayload(a, baseA, bits, n)
    requires forall k :: PAYLOAD_START <= k < PAYLOAD_START + n ==> b[k] == a[k] && baseB[k] == baseA[k]
    ensures CoilPayload(b, baseB, bits, n)
  {
    forall j | 0 <= j < 8 * n
      ensures BitAt(b, j) == BitAt(a, j) && BitAt(baseB, j) == BitAt(baseA, j)
    {
      var k := PAYLOAD_START + j / 8;
      assert b[k] == a[k] && baseB[k] == baseA[k];
    }
  }

  lemma BitCallsTail(calls: seq<BuilderCall>, bits: seq<bool>)
    requires BitCalls(calls, bits) && calls != []
    ensures calls[0] == AddBit(bits[0]) && BitCalls(calls[1..], bits[1..])
  {
    forall i | 0 <= i < |calls| - 1 ensures calls[1..][i] == AddBit(bits[1..][i]) {
      assert calls[1..][i] == calls[i + 1];
    }
  }

  /** `bytes` written over `buf` from offset `at`, as `memcpy` or a run of
      single-byte stores does. */
  function Overwrite(buf: seq<byte>, at: nat, bytes: seq<byte>): (r: seq<byte>)
    requires at + |bytes| <= |buf|
    ensures |r| == |buf|
    ensures r[at..at + |bytes|] == bytes
    ensures forall i :: 0 <= i < |buf| && !(at <= i < at + |bytes|) ==> r[i] == buf[i]
  {
    buf[..at] + bytes + buf[at + |bytes|..]
  }

  /** The length of what is sent for a final status: the PDU the decoder fixed
      plus address and CRC on success, five bytes for an exception. */
  function ReplyLength(status: byte, pduLen: nat): nat
  {
    if status == RESP_OK then pduLen + 3 else 5
  }

  /** The end of `process` after dispatch: address and function go to
      `outBuff[0..2)`; an exception status also marks the function code and
      replaces the payload by the status; the CRC of everything before it
      follows. `status` is not `RESP_IGNORE`. */
  function Encode(buf: seq<byte>, addr: byte, fc: byte, status: byte, pduLen: nat, crc: Crc16): (out: seq<byte>)
    requires |buf| == BUFFER_SIZE
    requires status == RESP_OK ==> 2 <= pduLen && pduLen + 3 <= BUFFER_SIZE
    ensures |out| == BUFFER_SIZE
  {
    var head := if status == RESP_OK then buf[0 := addr][1 := fc]
                else buf[0 := addr][1 := MarkException(fc)][2 := status];
    var len := if status == RESP_OK then pduLen else 2;
    var c := crc(head[..len + 1]);
    head[len + 1 := c.first][len + 2 := c.second]
  }

  /** An exception response is exactly five bytes: address, function code with
      the high bit set, exception code, and the CRC of those three. */
  lemma EncodeException(buf: seq<byte>, addr: byte, fc: byte, status: byte, pduLen: nat, crc: Crc16)
    requires |buf| == BUFFER_SIZE && status != RESP_OK
    ensures var out := Encode(buf, addr, fc, status, pduLen, crc);
            var c := crc([addr, MarkException(fc), status]);
            out[..ReplyLength(status, pduLen)] == [addr, MarkException(fc), status, c.first, c.second]
  {
    var head := buf[0 := addr][1 := MarkException(fc)][2 := status];
    assert head[..3] == [addr, MarkException(fc), status];
  }

  /** A normal response is `pduLen + 3` bytes: address, function code, the
      payload bytes already in the buffer, and the CRC of the first
      `pduLen + 1` bytes at offset `pduLen + 1`. */
  lemma EncodeNormal(buf: seq<byte>, addr: byte, fc: byte, pduLen: nat, crc: Crc16)
    requires |buf| == BUFFER_SIZE && 2 <= pduLen && pduLen + 3 <= BUFFER_SIZE
    ensures var out := Encode(buf, addr, fc, RESP_OK, pduLen, crc);
            var c := crc(out[..pduLen + 1]);
            && |out[..ReplyLength(RESP_OK, pduLen)]| == pduLen + 3
            && out[0] == addr && out[1] == fc
            && out[2..pduLen + 1] == buf[2..pduLen + 1]
            && (forall k :: 2 <= k <= pduLen ==> out[k] == buf[k])
            && out[pduLen + 1] == c.first && out[pduLen + 2] == c.second
            && (forall j :: pduLen + 3 <= j < BUFFER_SIZE ==> out[j] == buf[j])
  {
    var head := buf[0 := addr][1 := fc];
    var out := Encode(buf, addr, fc, RESP_OK, pduLen, crc);
    assert out[..pduLen + 1] == head[..pduLen + 1];
  }

  /** Every response the encoder produces passes the same CRC check that the
      validator applies to requests. */
  lemma EncodedCrcMatches(buf: seq<byte>, addr: byte, fc: byte, status: byte, pduLen: nat, crc: Crc16)
    requires |buf| == BUFFER_SIZE
    requires status == RESP_OK ==> 2 <= pduLen && pduLen + 3 <= BUFFER_SIZE
    ensures var reply := Encode(buf, addr, fc, status, pduLen, crc)[..ReplyLength(status, pduLen)];
            |reply| >= 2 && RequestDecoder.CrcMatches(reply, crc)
  {
    var out := Encode(buf, addr, fc, status, pduLen, crc);
    var n := ReplyLength(status, pduLen);
    var reply := out[..n];
    if status == RESP_OK {
      EncodeNormal(buf, addr, fc, pduLen, crc);
    } else {
      EncodeException(buf, addr, fc, status, pduLen, crc);
    }
    assert reply[..n - 2] == out[..n - 2];
  }
}
