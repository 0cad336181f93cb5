/** Bytes and the numbers they stand for. */
module Bytes {
  type Byte = bv8

  function Val(b: Byte): (n: nat)
    ensures n < 256
  {
    b as nat
  }

  lemma NextByte(b: Byte)
    requires b != 255
    ensures Val(b + 1) == Val(b) + 1
  {
  }

  /** The byte that stands for n, counted up from zero. */
  function ByteOfNumber(n: nat): (b: Byte)
    requires n < 256
    ensures Val(b) == n
  {
    if n == 0 then 0
    else
      var b := ByteOfNumber(n - 1);
      NextByte(b);
      b + 1
  }

  lemma SameNumber(a: Byte, b: Byte)
    ensures Val(a) == Val(b) <==> a == b
  {
  }

  lemma NumberOfByte(b: Byte)
    ensures ByteOfNumber(Val(b)) == b
  {
    hide Val, ByteOfNumber;
    SameNumber(ByteOfNumber(Val(b)), b);
  }
}
