/** The silent-drop validator, the per-function-code request decoder and the
    two payload accessors the callback uses on a write request. */
module RequestDecoder {
  import opened Bytes
  import opened Protocol

  /** The shortest frame the engine looks at: address, function, four bytes and the CRC. */
  const MIN_FRAME: nat := 8

  /** The largest quantity of a coil read or write (0x07D0). */
  const MAX_COILS: nat := 0x07D0
  /** The largest quantity of a register read (0x007D). */
  const MAX_READ_REGISTERS: nat := 0x007D
  /** The largest quantity of a register write and of a raw transfer (0x007B). */
  const MAX_WRITE_REGISTERS: nat := 0x007B

  /** The CRC in the last two bytes of a frame matches the CRC of the rest. */
  predicate CrcMatches(frame: seq<byte>, crc: Crc16)
    requires |frame| >= 2
  {
    crc(frame[..|frame| - 2]) == CrcPair(frame[|frame| - 2], frame[|frame| - 1])
  }

  /** A frame passes the validator: long enough, addressed to this unit (or the
      unit accepts any address, configured as 0), and its CRC matches. */
  predicate Admitted(unitAddr: byte, frame: seq<byte>, crc: Crc16)
  {
    && |frame| >= MIN_FRAME
    && (unitAddr == 0 || unitAddr == frame[0])
    && CrcMatches(frame, crc)
  }

  /** The decoder's verdict: an exception code, or a request to dispatch
      with the response's PDU length and the bytes pre-filled at `outBuff[2..]`. */
  datatype Decoded =
    | Refuse(exCode: byte)
    | Dispatch(req: Request, pduLen: nat, prefill: seq<byte>)

  /** A known function code. */
  predicate KnownFunction(fc: byte)
  {
    fc == FC_READ_COILS || fc == FC_READ_DISCRETE_INPUTS
    || fc == FC_READ_HOLDING_REGISTERS || fc == FC_READ_INPUT_REGISTER
    || fc == FC_WRITE_SINGLE_COIL || fc == FC_WRITE_SINGLE_REGISTER
    || fc == FC_WRITE_MULTIPLE_COILS || fc == FC_WRITE_MULTIPLE_REGISTERS
    || fc == FC_TRANSFER_RAW
  }

  /** The number of data bytes that hold `qty` packed bits, `(qty - 1) / 8 + 1`. */
  function BitBytes(qty: nat): (n: nat)
    requires qty >= 1
    ensures 8 * (n - 1) < qty <= 8 * n
    ensures qty <= MAX_COILS ==> n <= 250
  {
    (qty - 1) / 8 + 1
  }

  /** The payload view of a frame from `offset` up to the CRC. */
  function View(frame: seq<byte>, offset: nat): seq<byte>
    requires offset <= |frame| - 2
  {
    frame[offset..|frame| - 2]
  }

  /** What every dispatch carries: the request echoes the frame's unit
      address, function code and start address, the pre-fill lies before the
      PDU's end, and the response fits the output buffer. */
  predicate WellFormed(frame: seq<byte>, d: Decoded)
    requires |frame| >= MIN_FRAME
  {
    (d.Refuse? ==> d.exCode != RESP_OK) &&
    (d.Dispatch? ==>
      && d.req.unitAddr == frame[0] && d.req.func == frame[1]
      && d.req.regAddr == Word(frame[2], frame[3])
      && 0 < |d.prefill| && 2 + |d.prefill| <= d.pduLen + 1
      && d.pduLen + 3 <= BUFFER_SIZE)
  }

  /** The `switch (function)` of `process`, on an admitted frame. */
  function Decode(frame: seq<byte>): (d: Decoded)
    requires |frame| >= MIN_FRAME
    ensures WellFormed(frame, d)
    ensures d.Refuse? ==> d.exCode == EX_ILLEGAL_FUNCTION || d.exCode == EX_ILLEGAL_DATA_VALUE
    ensures (d.Refuse? && d.exCode == EX_ILLEGAL_FUNCTION) <==> !KnownFunction(frame[1])
  {
    var fc := frame[1];
    if fc == FC_READ_COILS || fc == FC_READ_DISCRETE_INPUTS then DecodeReadBitsCase(frame)
    else if fc == FC_READ_HOLDING_REGISTERS || fc == FC_READ_INPUT_REGISTER then DecodeReadRegistersCase(frame)
    else if fc == FC_WRITE_SINGLE_COIL || fc == FC_WRITE_SINGLE_REGISTER then DecodeWriteSingleCase(frame)
    else if fc == FC_WRITE_MULTIPLE_COILS || fc == FC_WRITE_MULTIPLE_REGISTERS then DecodeWriteMultipleCase(frame)
    else if fc == FC_TRANSFER_RAW then DecodeTransferRawCase(frame)
    else Refuse(EX_ILLEGAL_FUNCTION)
  }

  /** The read-coils and read-discrete-inputs branch. */
  function DecodeReadBitsCase(frame: seq<byte>): (d: Decoded)
    requires |frame| >= MIN_FRAME
    ensures WellFormed(frame, d) && (d.Refuse? ==> d.exCode == EX_ILLEGAL_DATA_VALUE)
  {
    var qty := Word(frame[4], frame[5]);
    if qty < 1 || qty > MAX_COILS then Refuse(EX_ILLEGAL_DATA_VALUE)
    else
      var n := BitBytes(qty);
      Dispatch(Request(frame[0], frame[1], Word(frame[2], frame[3]), qty, []), n + 2, [ByteOf(n)])
  }

  /** The read-holding-registers and read-input-registers branch. */
  function DecodeReadRegistersCase(frame: seq<byte>): (d: Decoded)
    requires |frame| >= MIN_FRAME
    ensures WellFormed(frame, d) && (d.Refuse? ==> d.exCode == EX_ILLEGAL_DATA_VALUE)
  {
    var qty := Word(frame[4], frame[5]);
    if qty < 1 || qty > MAX_READ_REGISTERS then Refuse(EX_ILLEGAL_DATA_VALUE)
    else
      var n := qty * 2;
      Dispatch(Request(frame[0], frame[1], Word(frame[2], frame[3]), qty, []), n + 2, [ByteOf(n)])
  }

  /** The write-single-coil and write-single-register branch: only a coil
      value is checked. */
  function DecodeWriteSingleCase(frame: seq<byte>): (d: Decoded)
    requires |frame| >= MIN_FRAME
    ensures WellFormed(frame, d) && (d.Refuse? ==> d.exCode == EX_ILLEGAL_DATA_VALUE)
  {
    if frame[1] == FC_WRITE_SINGLE_COIL && (frame[5] != 0x00 || (frame[4] != 0x00 && frame[4] != 0xFF)) then
      Refuse(EX_ILLEGAL_DATA_VALUE)
    else Dispatch(Request(frame[0], frame[1], Word(frame[2], frame[3]), 1, View(frame, 4)), 5, frame[2..6])
  }

  /** The write-multiple-coils and write-multiple-registers branch: the
      quantity's range, and the frame's length against the data the quantity
      needs. */
  function DecodeWriteMultipleCase(frame: seq<byte>): (d: Decoded)
    requires |frame| >= MIN_FRAME
    ensures WellFormed(frame, d) && (d.Refuse? ==> d.exCode == EX_ILLEGAL_DATA_VALUE)
  {
    var qty := Word(frame[4], frame[5]);
    var refused :=
      if frame[1] == FC_WRITE_MULTIPLE_COILS then qty < 1 || qty > MAX_COILS || |frame| - 9 != BitBytes(qty)
      else qty < 1 || qty > MAX_WRITE_REGISTERS || |frame| - 9 != qty * 2;
    if refused then Refuse(EX_ILLEGAL_DATA_VALUE)
    else Dispatch(Request(frame[0], frame[1], Word(frame[2], frame[3]), qty, View(frame, 7)), 5, frame[2..6])
  }

  /** The raw-transfer branch: the count byte `frame[2]` must lie in 1..123. */
  function DecodeTransferRawCase(frame: seq<byte>): (d: Decoded)
    requires |frame| >= MIN_FRAME
    ensures WellFormed(frame, d) && (d.Refuse? ==> d.exCode == EX_ILLEGAL_DATA_VALUE)
  {
    var n := frame[2] as int;
    if n < 1 || n > MAX_WRITE_REGISTERS then Refuse(EX_ILLEGAL_DATA_VALUE)
    else Dispatch(Request(frame[0], frame[1], Word(frame[2], frame[3]), n, View(frame, 3)), 5, [frame[2]])
  }

  /** Reading coils or discrete inputs: a quantity outside 1..2000 is refused
      with illegal-data-value; otherwise the response carries a byte count of
      ceil(qty / 8), stored in one byte, and the PDU is two bytes longer. */
  lemma DecodeReadBits(frame: seq<byte>)
    requires |frame| >= MIN_FRAME
    requires frame[1] == FC_READ_COILS || frame[1] == FC_READ_DISCRETE_INPUTS
    ensures var qty := Word(frame[4], frame[5]);
            var d := Decode(frame);
            && (d.Dispatch? <==> 1 <= qty <= MAX_COILS)
            && (d.Refuse? ==> d.exCode == EX_ILLEGAL_DATA_VALUE)
            && (d.Dispatch? ==>
                  && d.req.qty == qty && d.req.data == []
                  && |d.prefill| == 1
                  && 8 * (d.prefill[0] as int - 1) < qty <= 8 * d.prefill[0] as int
                  && d.pduLen == d.prefill[0] as int + 2)
  {
  }

  /** Reading holding or input registers: a quantity outside 1..125 is refused
      with illegal-data-value; otherwise the byte count is twice the quantity. */
  lemma DecodeReadRegisters(frame: seq<byte>)
    requires |frame| >= MIN_FRAME
    requires frame[1] == FC_READ_HOLDING_REGISTERS || frame[1] == FC_READ_INPUT_REGISTER
    ensures var qty := Word(frame[4], frame[5]);
            var d := Decode(frame);
            && (d.Dispatch? <==> 1 <= qty <= MAX_READ_REGISTERS)
            && (d.Refuse? ==> d.exCode == EX_ILLEGAL_DATA_VALUE)
            && (d.Dispatch? ==>
                  && d.req.qty == qty && d.req.data == []
                  && d.prefill == [d.prefill[0]] && d.prefill[0] as int == 2 * qty
                  && d.pduLen == 2 * qty + 2)
  {
  }

  /** Writing a single coil: accepted exactly when the value field is 0x0000
      or 0xFF00; an accepted request echoes address and value. */
  lemma DecodeWriteSingleCoil(frame: seq<byte>)
    requires |frame| >= MIN_FRAME
    requires frame[1] == FC_WRITE_SINGLE_COIL
    ensures var d := Decode(frame);
            && (d.Dispatch? <==> Word(frame[4], frame[5]) == 0x0000 || Word(frame[4], frame[5]) == 0xFF00)
            && (d.Refuse? ==> d.exCode == EX_ILLEGAL_DATA_VALUE)
            && (d.Dispatch? ==> d.prefill == frame[2..6] && d.pduLen == 5 && d.req.qty == 1
                                && d.req.data == frame[4..|frame| - 2])
  {
    BytesRoundTrip(frame[4], frame[5]);
  }

  /** Writing a single register is always accepted, with the echo of address and value. */
  lemma DecodeWriteSingleRegister(frame: seq<byte>)
    requires |frame| >= MIN_FRAME
    requires frame[1] == FC_WRITE_SINGLE_REGISTER
    ensures var d := Decode(frame);
            && d.Dispatch?
            && d.prefill == frame[2..6] && d.pduLen == 5 && d.req.qty == 1
            && d.req.data == frame[4..|frame| - 2]
  {
  }

  /** Writing multiple coils: accepted exactly when 1 <= qty <= 2000 and the
      bytes between the seven-byte header and the CRC are exactly the
      ceil(qty / 8) bytes of packed bits; the data view is those bytes. */
  lemma DecodeWriteMultipleCoils(frame: seq<byte>)
    requires |frame| >= MIN_FRAME
    requires frame[1] == FC_WRITE_MULTIPLE_COILS
    ensures var qty := Word(frame[4], frame[5]);
            var d := Decode(frame);
            && (d.Dispatch? <==> 1 <= qty <= MAX_COILS && 8 * (|frame| - 10) < qty <= 8 * (|frame| - 9))
            && (d.Refuse? ==> d.exCode == EX_ILLEGAL_DATA_VALUE)
            && (d.Dispatch? ==> d.prefill == frame[2..6] && d.pduLen == 5 && d.req.qty == qty
                                && d.req.data == frame[7..|frame| - 2])
  {
    var qty := Word(frame[4], frame[5]);
    assert Decode(frame) == DecodeWriteMultipleCase(frame);
    if 1 <= qty <= MAX_COILS {
      var n := BitBytes(qty);
      if 8 * (|frame| - 10) < qty <= 8 * (|frame| - 9) {
        ByteCountUnique(qty, n, |frame| - 9);
      }
    }
  }

  /** At most one byte count holds a given number of packed bits. */
  lemma ByteCountUnique(qty: nat, m: int, n: int)
    requires 8 * (m - 1) < qty <= 8 * m && 8 * (n - 1) < qty <= 8 * n
    ensures m == n
  {
  }

  /** Writing multiple registers: accepted exactly when 1 <= qty <= 123 and
      exactly 2 * qty bytes lie between the header and the CRC. */
  lemma DecodeWriteMultipleRegisters(frame: seq<byte>)
    requires |frame| >= MIN_FRAME
    requires frame[1] == FC_WRITE_MULTIPLE_REGISTERS
    ensures var qty := Word(frame[4], frame[5]);
            var d := Decode(frame);
            && (d.Dispatch? <==> 1 <= qty <= MAX_WRITE_REGISTERS && |frame| == 2 * qty + 9)
            && (d.Refuse? ==> d.exCode == EX_ILLEGAL_DATA_VALUE)
            && (d.Dispatch? ==> d.prefill == frame[2..6] && d.pduLen == 5 && d.req.qty == qty
                                && d.req.data == frame[7..|frame| - 2])
  {
  }

  /** Raw transfer: the one-byte count at offset 2 must be 1..123; the data
      view starts at offset 3, the count is echoed and the PDU length is 5. */
  lemma DecodeTransferRaw(frame: seq<byte>)
    requires |frame| >= MIN_FRAME
    requires frame[1] == FC_TRANSFER_RAW
    ensures var d := Decode(frame);
            && (d.Dispatch? <==> 1 <= frame[2] as int <= MAX_WRITE_REGISTERS)
            && (d.Refuse? ==> d.exCode == EX_ILLEGAL_DATA_VALUE)
            && (d.Dispatch? ==> d.prefill == [frame[2]] && d.pduLen == 5
                                && d.req.qty == frame[2] as int && d.req.data == frame[3..|frame| - 2])
  {
  }

  /** Any other function code is refused with illegal-function. */
  lemma DecodeUnknownFunction(frame: seq<byte>)
    requires |frame| >= MIN_FRAME
    requires !KnownFunction(frame[1])
    ensures Decode(frame) == Refuse(EX_ILLEGAL_FUNCTION)
  {
  }

  /** `getDataCoil`, which the source defines only for the two coil-write
      codes. On a multiple-coil write it returns the bit that the request
      stores for coil idx: writing it back leaves the data byte as it was. */
  function GetDataCoil(fc: byte, data: seq<byte>, idx: nat): (on: bool)
    requires fc == FC_WRITE_SINGLE_COIL || fc == FC_WRITE_MULTIPLE_COILS
    requires fc == FC_WRITE_SINGLE_COIL ==> |data| >= 1
    requires fc == FC_WRITE_MULTIPLE_COILS ==> idx / 8 < |data|
    ensures fc == FC_WRITE_MULTIPLE_COILS ==> BitWrite(data[idx / 8], idx % 8, on) == data[idx / 8]
  {
    if fc == FC_WRITE_SINGLE_COIL then data[0] == 0xFF
    else BitRead(data[idx / 8], idx % 8)
  }

  /** `getDataRegister`, which the source defines only for the two
      register-write codes. The value returned is the big-endian pair it is
      read from: splitting it gives back the two data bytes. */
  function GetDataRegister(fc: byte, data: seq<byte>, idx: nat): (v: word)
    requires fc == FC_WRITE_SINGLE_REGISTER || fc == FC_WRITE_MULTIPLE_REGISTERS
    requires fc == FC_WRITE_SINGLE_REGISTER ==> |data| >= 2
    requires fc == FC_WRITE_MULTIPLE_REGISTERS ==> 2 * idx + 1 < |data|
    ensures var i := if fc == FC_WRITE_SINGLE_REGISTER then 0 else 2 * idx;
            HighByte(v) == data[i] && LowByte(v) == data[i + 1]
  {
    var i := if fc == FC_WRITE_SINGLE_REGISTER then 0 else 2 * idx;
    BytesRoundTrip(data[i], data[i + 1]);
    Word(data[i], data[i + 1])
  }

  /** On an accepted single-coil write the accessor reports "on" exactly when
      the request's value field is 0xFF00. */
  lemma SingleCoilValue(frame: seq<byte>, idx: nat)
    requires |frame| >= MIN_FRAME && frame[1] == FC_WRITE_SINGLE_COIL
    requires Decode(frame).Dispatch?
    ensures var req := Decode(frame).req;
            |req.data| >= 1 && (GetDataCoil(req.func, req.data, idx) <==> Word(frame[4], frame[5]) == 0xFF00)
  {
    BytesRoundTrip(frame[4], frame[5]);
  }

  /** On an accepted single-register write the accessor returns the value field. */
  lemma SingleRegisterValue(frame: seq<byte>, idx: nat)
    requires |frame| >= MIN_FRAME && frame[1] == FC_WRITE_SINGLE_REGISTER
    ensures var req := Decode(frame).req;
            |req.data| >= 2 && GetDataRegister(req.func, req.data, idx) == Word(frame[4], frame[5])
  {
  }

  /** On an accepted multiple-coil write, every coil index below the quantity
      lies inside the data view and reads bit idx % 8 of byte 7 + idx / 8. */
  lemma MultipleCoilsInView(frame: seq<byte>, idx: nat)
    requires |frame| >= MIN_FRAME && frame[1] == FC_WRITE_MULTIPLE_COILS
    requires Decode(frame).Dispatch? && idx < Decode(frame).req.qty
    ensures var req := Decode(frame).req;
            idx / 8 < |req.data|
            && GetDataCoil(req.func, req.data, idx) == BitRead(frame[7 + idx / 8], idx % 8)
  {
    DecodeWriteMultipleCoils(frame);
  }

  /** On an accepted multiple-register write, every register index below the
      quantity lies inside the data view and reads the big-endian pair at
      offset 7 + 2 * idx of the frame. */
  lemma MultipleRegistersInView(frame: seq<byte>, idx: nat)
    requires |frame| >= MIN_FRAME && frame[1] == FC_WRITE_MULTIPLE_REGISTERS
    requires Decode(frame).Dispatch? && idx < Decode(frame).req.qty
    ensures var req := Decode(frame).req;
            2 * idx + 1 < |req.data|
            && GetDataRegister(req.func, req.data, idx) == Word(frame[7 + 2 * idx], frame[8 + 2 * idx])
  {
    DecodeWriteMultipleRegisters(frame);
  }
}
