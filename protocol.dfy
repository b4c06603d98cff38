/** Function codes, exception codes, status sentinels and the values that
    cross the boundary between the engine and its collaborators (the CRC
    routine, the application callback and the serial port). */
module Protocol {
  import opened Bytes

  // Function codes (Modbus Application Protocol Specification V1.1b3, section 6).
  const FC_READ_COILS: byte := 0x01
  const FC_READ_DISCRETE_INPUTS: byte := 0x02
  const FC_READ_HOLDING_REGISTERS: byte := 0x03
  const FC_READ_INPUT_REGISTER: byte := 0x04
  const FC_WRITE_SINGLE_COIL: byte := 0x05
  const FC_WRITE_SINGLE_REGISTER: byte := 0x06
  const FC_WRITE_MULTIPLE_COILS: byte := 0x0F
  const FC_WRITE_MULTIPLE_REGISTERS: byte := 0x10
  /** Vendor raw-transfer code; its header value is not part of this model,
      so a code from the user-defined range 100..110 stands in for it. */
  const FC_TRANSFER_RAW: byte := 0x64

  // Exception codes (section 7 of the same specification).
  const EX_ILLEGAL_FUNCTION: byte := 0x01
  const EX_ILLEGAL_DATA_ADDRESS: byte := 0x02
  const EX_ILLEGAL_DATA_VALUE: byte := 0x03
  const EX_SERVER_DEVICE_FAILURE: byte := 0x04

  /** Status "answer normally"; a stand-in distinct from every exception code. */
  const RESP_OK: byte := 0x00
  /** Status "send nothing at all"; a stand-in distinct from the codes above. */
  const RESP_IGNORE: byte := 0xFF

  /** Capacity of each of the two frame buffers (stand-in value). The largest
      normal response, a read of 2000 coils or 125 registers, is 255 bytes. */
  const BUFFER_SIZE: nat := 256

  /** The two bytes the CRC routine writes, in the order it writes them. */
  datatype CrcPair = CrcPair(first: byte, second: byte)

  /** `CRC.crc16(buf, len, out)`: an uninterpreted function of the bytes covered. */
  type Crc16 = seq<byte> -> CrcPair

  /** What the engine hands to the application callback. */
  datatype Request = Request(
    unitAddr: byte,
    func: byte,
    regAddr: word,
    qty: word,
    data: seq<byte>)   // the payload view; empty for the read functions

  /** One call the callback makes to a response builder. */
  datatype BuilderCall = AddBit(on: bool) | AddRegister(value: word)

  /** What a registered callback does on one invocation: the builder calls it
      makes, in order, and the status it returns. */
  datatype CallbackResult = CallbackResult(calls: seq<BuilderCall>, status: byte)

  datatype Option<T> = None | Some(value: T)

  /** The outcome of one poll: silence, or the bytes written to the port, with
      whether the write was bracketed by the transmit-enable line. */
  datatype PollResult = NoReply | Reply(bytes: seq<byte>, txEnableBracket: bool)
}
