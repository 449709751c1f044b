/** The checksum of a packet as bytes. */
module CrcBytes {
  /** The low eight bits of a word. */
  function LowByte(w: bv32): bv8 {
    (w & 0xff) as bv8
  }

  /** The number n as an 8-bit word, counted up from zero. */
  function Octet(n: nat): bv8
    requires n < 256
  {
    if n == 0 then 0 else Octet(n - 1) + 1
  }

  lemma {:induction false} OctetAsInt(n: nat)
    requires n < 256
    ensures Octet(n) as int == n
  {
    if n > 0 {
      OctetAsInt(n - 1);
      NotLast(Octet(n - 1));
      Next(Octet(n - 1));
    }
  }

  lemma NotLast(x: bv8)
    requires x as int < 255
    ensures x != 255
  {
  }

  lemma Next(x: bv8)
    requires x != 255
    ensures (x + 1) as int == x as int + 1
  {
  }

  lemma WordFromBytes(w: bv32, x: bv32)
    requires LowByte(w >> 24) == LowByte(x >> 24) && LowByte(w >> 16) == LowByte(x >> 16)
    requires LowByte(w >> 8) == LowByte(x >> 8) && LowByte(w) == LowByte(x)
    ensures w == x
  {
  }
}
