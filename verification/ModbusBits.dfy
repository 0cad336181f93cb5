/** Bytes, big-endian words and bit packing, as the Modbus application protocol
    (V1.1b3, sections 4.2 and 6.1) lays them out. */
module ModbusBits {
  import opened Bytes
  import opened Words

  /** A count truncated to 8 bits, as the C code's uint8_t cast does. */
  function CountByte(n: nat): Byte {
    ByteOfNumber(n % 256)
  }

  // ----- 16-bit words, most significant byte first -----

  function Word(hi: Byte, lo: Byte): Uint16 {
    256 * Val(hi) + Val(lo)
  }

  /** In network order the first byte counts 256 times. */
  lemma WordIs(hi: Byte, lo: Byte)
    ensures Word(hi, lo) == 256 * (hi as nat) + (lo as nat)
  {
  }

  function HighByte(w: Uint16): Byte {
    ByteOfNumber(w / 256)
  }

  function LowByte(w: Uint16): Byte {
    ByteOfNumber(w % 256)
  }

  lemma WordOfBytes(w: Uint16)
    ensures Word(HighByte(w), LowByte(w)) == w
  {
    hide Val, ByteOfNumber;
  }

  lemma Digits(h: nat, l: nat)
    requires l < 256
    ensures (256 * h + l) / 256 == h && (256 * h + l) % 256 == l
  {
  }

  lemma BytesOfWord(hi: Byte, lo: Byte)
    ensures HighByte(Word(hi, lo)) == hi && LowByte(Word(hi, lo)) == lo
  {
    hide Val, ByteOfNumber;
    Digits(Val(hi), Val(lo));
    NumberOfByte(hi);
    NumberOfByte(lo);
  }

  // ----- Bits of a byte, least significant first -----

  function Mask(j: nat): (m: Byte)
    requires j < 8
  {
    if j == 0 then 1 else if j == 1 then 2 else if j == 2 then 4 else if j == 3 then 8
    else if j == 4 then 16 else if j == 5 then 32 else if j == 6 then 64 else 128
  }

  predicate Bit(b: Byte, j: nat)
    requires j < 8
  {
    b & Mask(j) != 0
  }

  lemma ShiftIsMask(j: nat)
    requires j < 8
    ensures (1 as Byte) << j == Mask(j) && (0 as Byte) << j == 0
  {
    if j == 0 {} else if j == 1 {} else if j == 2 {} else if j == 3 {}
    else if j == 4 {} else if j == 5 {} else if j == 6 {} else {}
  }

  lemma ShiftDownIsBit(b: Byte, j: nat)
    requires j < 8
    ensures (b >> j) & 0x01 == if Bit(b, j) then 1 else 0
  {
    if j == 0 {} else if j == 1 {} else if j == 2 {} else if j == 3 {}
    else if j == 4 {} else if j == 5 {} else if j == 6 {} else {}
  }

  lemma OrMask(b: Byte, i: nat, j: nat)
    requires i < 8 && j < 8
    ensures Bit(b | Mask(i), j) <==> Bit(b, j) || i == j
  {
  }

  lemma NoBits(j: nat)
    requires j < 8
    ensures !Bit(0, j)
  {
  }

  /** A byte is its eight bits. */
  lemma SameBits(a: Byte, b: Byte)
    requires forall j :: 0 <= j < 8 ==> (Bit(a, j) <==> Bit(b, j))
    ensures a == b
  {
    assert Bit(a, 0) == Bit(b, 0) && Bit(a, 1) == Bit(b, 1) && Bit(a, 2) == Bit(b, 2) && Bit(a, 3) == Bit(b, 3);
    assert Bit(a, 4) == Bit(b, 4) && Bit(a, 5) == Bit(b, 5) && Bit(a, 6) == Bit(b, 6) && Bit(a, 7) == Bit(b, 7);
  }

  // ----- Packing -----

  function BytesFor(num: nat): nat {
    (num + 7) / 8
  }

  /** The first `count` bits of a packed byte: bit j is set when item base + j exists and is not zero. */
  function PackByte(items: seq<Byte>, base: nat, count: nat): Byte
    requires count <= 8
  {
    if count == 0 then 0
    else
      var b := PackByte(items, base, count - 1);
      if base + count - 1 < |items| && items[base + count - 1] != 0 then b | Mask(count - 1) else b
  }

  /** One bit for each item, eight to a byte, the first in the least significant bit. */
  function Pack(items: seq<Byte>): (p: seq<Byte>)
    ensures |p| == BytesFor(|items|)
  {
    seq(BytesFor(|items|), k requires k >= 0 => PackByte(items, 8 * k, 8))
  }

  lemma {:induction false} PackByteBit(items: seq<Byte>, base: nat, count: nat, j: nat)
    requires count <= 8 && j < 8
    ensures Bit(PackByte(items, base, count), j) <==> j < count && base + j < |items| && items[base + j] != 0
  {
    hide Bit;
    if count == 0 {
      NoBits(j);
    } else {
      PackByteBit(items, base, count - 1, j);
      OrMask(PackByte(items, base, count - 1), count - 1, j);
    }
  }

  /** Bit i % 8 of byte i / 8 is item i; the bits past the last item are zero. */
  lemma PackBit(items: seq<Byte>, k: nat, j: nat)
    requires k < BytesFor(|items|) && j < 8
    ensures Bit(Pack(items)[k], j) <==> 8 * k + j < |items| && items[8 * k + j] != 0
  {
    PackByteBit(items, 8 * k, 8, j);
  }

  /** The byte that holds bit i, by an index that is itself held in 8 bits. */
  function ByteOf(i: nat): (k: nat)
    ensures k < 256
  {
    i / 8 % 256
  }

  /** Every byte that num bits name is there. */
  predicate Holds(data: seq<Byte>, num: nat) {
    BytesFor(num) <= |data| || 256 <= |data|
  }

  /** Items 0 and 1 from packed bytes: what a multiple write stores. */
  function Unpack(data: seq<Byte>, num: nat): (items: seq<Byte>)
    requires Holds(data, num)
    ensures |items| == num
  {
    seq(num, i requires 0 <= i < num => if Bit(data[ByteOf(i)], i % 8) then 1 else 0)
  }

  /** Packing what was unpacked returns every full byte, and of the last one the used bits. */
  lemma PackUnpack(data: seq<Byte>, num: nat, k: nat, j: nat)
    requires num <= 2048 && BytesFor(num) <= |data| && k < BytesFor(num) && j < 8
    ensures Bit(Pack(Unpack(data, num))[k], j) <==> 8 * k + j < num && Bit(data[k], j)
  {
    PackBit(Unpack(data, num), k, j);
    assert (8 * k + j) / 8 == k && (8 * k + j) % 8 == j;
  }

  lemma PackUnpackFullByte(data: seq<Byte>, num: nat, k: nat)
    requires num <= 2048 && BytesFor(num) <= |data| && 8 * k + 8 <= num
    ensures Pack(Unpack(data, num))[k] == data[k]
  {
    hide Bit;
    forall j | 0 <= j < 8
      ensures Bit(Pack(Unpack(data, num))[k], j) <==> Bit(data[k], j)
    {
      PackUnpack(data, num, k, j);
    }
    SameBits(Pack(Unpack(data, num))[k], data[k]);
  }
}
