/** Bytes, big-endian words and single-bit access, as the Arduino helpers
    `word`, `highByte`, `lowByte`, `bitRead`, `bitSet` and `bitClear` use them. */
module Bytes {

  /** An 8-bit byte. */
  type byte = bv8

  /** A 16-bit unsigned word (`word` / `uint16_t`). */
  type word = x: int | 0 <= x < 0x1_0000

  /** `word(hi, lo)`: the big-endian combination of two bytes. */
  function Word(hi: byte, lo: byte): (w: word)
  {
    hi as int * 256 + lo as int
  }

  /** `highByte(w)`. */
  function HighByte(w: word): (b: byte)
  {
    ByteOf(w / 256)
  }

  /** `lowByte(w)`. */
  function LowByte(w: word): (b: byte)
  {
    ByteOf(w % 256)
  }

  /** A number below 256 survives the trip through a byte. The split into
      ranges of eight keeps each conversion the solver checks small. */
  lemma ByteOfInt(n: int)
    requires 0 <= n < 256
    ensures (n as bv8) as int == n
  {
    if n < 8 {} else if n < 16 {} else if n < 24 {} else if n < 32 {} else if n < 40 {} else if n < 48 {} else if n < 56 {} else if n < 64 {} else if n < 72 {} else if n < 80 {} else if n < 88 {} else if n < 96 {} else if n < 104 {} else if n < 112 {} else if n < 120 {} else if n < 128 {} else if n < 136 {} else if n < 144 {} else if n < 152 {} else if n < 160 {} else if n < 168 {} else if n < 176 {} else if n < 184 {} else if n < 192 {} else if n < 200 {} else if n < 208 {} else if n < 216 {} else if n < 224 {} else if n < 232 {} else if n < 240 {} else if n < 248 {} else {}
  }

  /** A number below 256 stored in a byte (the implicit narrowing of an
      assignment to a `uint8_t`). */
  function ByteOf(n: nat): (b: byte)
    requires n < 256
    ensures b as int == n
  {
    ByteOfInt(n);
    n as bv8
  }

  /** Splitting a word into its two bytes and joining them again gives the word back. */
  lemma WordRoundTrip(w: word)
    ensures Word(HighByte(w), LowByte(w)) == w
  {
  }

  /** Joining two bytes and splitting the word gives the two bytes back. */
  lemma BytesRoundTrip(hi: byte, lo: byte)
    ensures HighByte(Word(hi, lo)) == hi && LowByte(Word(hi, lo)) == lo
  {
    assert Word(hi, lo) / 256 == hi as int;
    assert Word(hi, lo) % 256 == lo as int;
  }

  /** `1 << k` on a byte, written out per bit so that no integer is converted. */
  function Mask(k: nat): byte
    requires k < 8
  {
    match k
    case 0 => 0x01
    case 1 => 0x02
    case 2 => 0x04
    case 3 => 0x08
    case 4 => 0x10
    case 5 => 0x20
    case 6 => 0x40
    case _ => 0x80
  }

  /** `bitRead(b, k) == 1`: bit k (0 = least significant) of b is set. */
  predicate BitRead(b: byte, k: nat)
    requires k < 8
  {
    b & Mask(k) != 0
  }

  /** `bitSet(b, k)` when `on`, `bitClear(b, k)` otherwise: bit k becomes
      `on` and the bits outside the mask are those of b. */
  function BitWrite(b: byte, k: nat, on: bool): (r: byte)
    requires k < 8
    ensures BitRead(r, k) == on
    ensures r & !Mask(k) == b & !Mask(k)
  {
    if on then b | Mask(k) else b & !Mask(k)
  }

  /** Bit j after writing bit k: the value written if j is k, else bit j of b. */
  lemma BitWriteBit(b: byte, k: nat, on: bool, j: nat)
    requires k < 8 && j < 8
    ensures BitRead(BitWrite(b, k, on), j) == if j == k then on else BitRead(b, j)
  {
  }

  /** Writing bit k leaves every other bit as it was. */
  lemma BitWriteOthers(b: byte, k: nat, on: bool)
    requires k < 8
    ensures forall j :: 0 <= j < 8 && j != k ==> BitRead(BitWrite(b, k, on), j) == BitRead(b, j)
  {
    forall j | 0 <= j < 8 && j != k
      ensures BitRead(BitWrite(b, k, on), j) == BitRead(b, j)
    {
      BitWriteBit(b, k, on, j);
    }
  }

  /** `b | 0x80`: the exception marker on a function code. */
  function MarkException(b: byte): (r: byte)
    ensures BitRead(r, 7)
    ensures forall j :: 0 <= j < 7 ==> BitRead(r, j) == BitRead(b, j)
  {
    b | 0x80
  }
}
