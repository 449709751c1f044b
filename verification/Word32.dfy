/** 32-bit words as polynomials over GF(2), and the facts about single operations on them.

    The word operations are named so that longer proofs can hide their bits. */
module Word32 {

  function Xor(a: bv32, b: bv32): bv32 { a ^ b }

  function Shl1(r: bv32): bv32 { r << 1 }

  /** The coefficient of x^31. */
  predicate Top(r: bv32) { r & 0x80000000 != 0 }

  function Fold(t: bool): bv32 { if t then 0x04C11DB7 else 0 }

  function One(b: bool): bv32 { if b then 1 else 0 }

  /** Multiplication by x: if a one leaves the register, the divisor is subtracted. */
  function Double(r: bv32): bv32 {
    Xor(Shl1(r), Fold(Top(r)))
  }

  /** One step of long division: shift in a message bit. */
  function ShiftBit(r: bv32, b: bool): bv32 {
    Xor(Double(r), One(b))
  }

  // ----- laws of single operations -----

  lemma XorComm(a: bv32, b: bv32)
    ensures Xor(a, b) == Xor(b, a)
  {
  }

  lemma XorAssoc(a: bv32, b: bv32, c: bv32)
    ensures Xor(Xor(a, b), c) == Xor(a, Xor(b, c))
  {
  }

  lemma ShiftXor(p: bv32, q: bv32)
    ensures Shl1(Xor(p, q)) == Xor(Shl1(p), Shl1(q))
  {
  }

  lemma TopXor(p: bv32, q: bv32)
    ensures Top(Xor(p, q)) == (Top(p) != Top(q))
  {
  }

  lemma ConstantsXor(s: bool, t: bool)
    ensures Fold(s != t) == Xor(Fold(s), Fold(t)) && One(s != t) == Xor(One(s), One(t))
  {
  }

  lemma DoubleNonZero(r: bv32)
    requires r != 0
    ensures Double(r) != 0
  {
  }

  lemma XorZero(r: bv32)
    ensures Xor(r, 0) == r && Xor(0, r) == r && Xor(r, r) == 0
  {
  }

  lemma XorCancel(p: bv32, q: bv32)
    ensures Xor(p, q) == 0 <==> p == q
  {
    hide Xor;
    XorAssoc(p, q, q);
    XorZero(p);
    XorZero(q);
  }

  lemma ShiftInZero(r: bv32)
    requires r & 0x80000000 == 0
    ensures (r << 1) as int == 2 * (r as int)
  {
  }

  lemma ShiftInOne(r: bv32)
    requires r & 0x80000000 == 0
    ensures ((r << 1) ^ 1) as int == 2 * (r as int) + 1
  {
  }

  lemma SmallInt(r: bv32)
    ensures r as int < 0x80000000 ==> r < 0x80000000
  {
  }

  lemma SmallTop(r: bv32)
    ensures r < 0x80000000 <==> r & 0x80000000 == 0
  {
  }

  lemma ShiftBitRaw(r: bv32, b: bool)
    requires r & 0x80000000 == 0
    ensures ShiftBit(r, b) == if b then (r << 1) ^ 1 else r << 1
  {
    XorZero(r << 1);
  }

  /** A register below 2^31 only shifts: nothing is folded back. */
  lemma ShiftBitSmall(r: bv32, b: bool)
    requires r as int < 0x80000000
    ensures ShiftBit(r, b) as int == 2 * (r as int) + if b then 1 else 0
  {
    hide ShiftBit;
    SmallInt(r);
    SmallTop(r);
    ShiftBitRaw(r, b);
    if b {
      ShiftInOne(r);
    } else {
      ShiftInZero(r);
    }
  }

  lemma ZeroAsInt(r: bv32)
    ensures r == 0 <==> r as int == 0
  {
  }

  lemma IndexParts(x: bv32)
    requires x < 256
    ensures x >> 4 < 16 && x & 15 < 16
    ensures x as int == 16 * ((x >> 4) as int) + (x & 15) as int
  {
  }

  lemma WordParts(x: bv32)
    requires x < 256
    ensures x << 24 == Xor((x >> 4) << 28, (x & 15) << 24)
  {
  }

  lemma IndexBound(r: bv32)
    ensures r >> 24 < 256 && (r >> 24) as int < 256
  {
  }

  lemma SplitRegister(r: bv32)
    ensures r == Xor((r >> 24) << 24, r & 0xFFFFFF) && r & 0xFFFFFF < 0x1000000
  {
  }

  /** A word read big-endian from four bytes. */
  function Word(a: bv8, b: bv8, c: bv8, d: bv8): bv32 {
    ((((a as bv32) << 24) | ((b as bv32) << 16)) | ((c as bv32) << 8)) | (d as bv32)
  }

  function Append(r: bv32, b: bv8): bv32 {
    (r << 8) | (b as bv32)
  }

  lemma AppendRaw(r: bv32, b: bv8, e: bv32)
    ensures ((r << 8) | (b as bv32)) ^ e == Xor(Append(r, b), e)
  {
  }

  lemma AppendLow(r: bv32, b: bv8)
    ensures Append(r & 0xFFFFFF, b) == Append(r, b)
  {
  }

  lemma WordByBytes(a: bv8, b: bv8, c: bv8, d: bv8)
    ensures Append(Append(Append(Append(0, a), b), c), d) == Word(a, b, c, d)
  {
  }

  // Two, four and eight bits entering a register at once.

  function Enter(r: bv32, b: bool): bv32 { Xor(Shl1(r), One(b)) }

  function Enter2(r: bv32, w: bv32): bv32 { (r << 2) | (w & 3) }

  function Enter4(r: bv32, w: bv32): bv32 { (r << 4) | (w & 15) }

  lemma EnterTwice(r: bv32, w: bv32)
    ensures Enter(Enter(r, w & 2 != 0), w & 1 != 0) == Enter2(r, w)
  {
    TwoBits(r, w, w & 2 != 0, w & 1 != 0);
  }

  lemma TwoBits(r: bv32, w: bv32, a: bool, b: bool)
    requires a == (w & 2 != 0) && b == (w & 1 != 0)
    ensures (((r << 1) ^ (if a then 1 else 0)) << 1) ^ (if b then 1 else 0) == (r << 2) | (w & 3)
  {
  }

  lemma Enter2Twice(r: bv32, w: bv32)
    ensures Enter2(Enter2(r, w >> 2), w) == Enter4(r, w)
  {
  }

  lemma Enter4Twice(r: bv32, b: bv8)
    ensures Enter4(Enter4(r, (b as bv32) >> 4), b as bv32) == Append(r, b)
  {
  }

  lemma BitsOfByte(b: bv8)
    ensures (b & 128 != 0) == ((((b as bv32) >> 4) >> 2) & 2 != 0) && (b & 64 != 0) == ((((b as bv32) >> 4) >> 2) & 1 != 0)
    ensures (b & 32 != 0) == (((b as bv32) >> 4) & 2 != 0) && (b & 16 != 0) == (((b as bv32) >> 4) & 1 != 0)
    ensures (b & 8 != 0) == (((b as bv32) >> 2) & 2 != 0) && (b & 4 != 0) == (((b as bv32) >> 2) & 1 != 0)
    ensures (b & 2 != 0) == ((b as bv32) & 2 != 0) && (b & 1 != 0) == ((b as bv32) & 1 != 0)
  {
  }

  /** Eight bits entering a register append a byte. */
  lemma EnterByte(r: bv32, b: bv8)
    ensures Enter(Enter(Enter(Enter(Enter(Enter(Enter(Enter(
              r, b & 128 != 0), b & 64 != 0), b & 32 != 0), b & 16 != 0), b & 8 != 0), b & 4 != 0), b & 2 != 0), b & 1 != 0)
            == Append(r, b)
  {
    hide *;
    var w := b as bv32;
    BitsOfByte(b);
    EnterTwice(r, (w >> 4) >> 2);
    EnterTwice(Enter2(r, (w >> 4) >> 2), w >> 4);
    Enter2Twice(r, w >> 4);
    EnterTwice(Enter4(r, w >> 4), w >> 2);
    EnterTwice(Enter2(Enter4(r, w >> 4), w >> 2), w);
    Enter2Twice(Enter4(r, w >> 4), w);
    Enter4Twice(r, b);
  }

  lemma EnterBound(r: bv32, b: bool)
    ensures r < 0x1000000 ==> Enter(r, b) < 0x2000000
    ensures r < 0x2000000 ==> Enter(r, b) < 0x4000000
    ensures r < 0x4000000 ==> Enter(r, b) < 0x8000000
    ensures r < 0x8000000 ==> Enter(r, b) < 0x10000000
    ensures r < 0x10000000 ==> Enter(r, b) < 0x20000000
    ensures r < 0x20000000 ==> Enter(r, b) < 0x40000000
    ensures r < 0x40000000 ==> Enter(r, b) < 0x80000000
  {
  }

  lemma DoubleSmall(r: bv32)
    requires r < 0x80000000
    ensures Double(r) == Shl1(r)
  {
  }

  /** Below 2^31 a division step only lets a bit enter. */
  lemma ShiftBitEnters(r: bv32, b: bool)
    requires r < 0x80000000
    ensures ShiftBit(r, b) == Enter(r, b)
  {
    hide Double, Xor, One, Shl1;
    DoubleSmall(r);
  }

  // Complements, as additions of ones.

  function Flip8(b: bv8): bv8 { b ^ 0xFF }

  lemma FlipIsNot(w: bv32)
    ensures !w == w ^ 0xFFFFFFFF
  {
  }

  lemma FlipAppend(w: bv32, b: bv8, ones: bv32, flipped: bv32, c: bv8, more: bv32)
    requires flipped == w ^ ones && c == b ^ 0xFF && more == (ones << 8) | 0xFF
    ensures Append(flipped, c) == Append(w, b) ^ more
  {
  }

  lemma FlipStep(w: bv32, b: bv8, ones: bv32, more: bv32)
    requires more == (ones << 8) | 0xFF
    ensures Append(Xor(w, ones), Flip8(b)) == Xor(Append(w, b), more)
  {
    hide Append;
    FlipAppend(w, b, ones, Xor(w, ones), Flip8(b), more);
  }

  /** Appending complemented bytes to nothing gives the complement of the word. */
  lemma FlipWord(a: bv8, b: bv8, c: bv8, d: bv8)
    ensures Append(Append(Append(Append(0, Flip8(a)), Flip8(b)), Flip8(c)), Flip8(d)) == Xor(Word(a, b, c, d), 0xFFFFFFFF)
  {
    hide *;
    XorZero(0);
    WordByBytes(a, b, c, d);
    FlipStep(0, a, 0, 0xFF);
    FlipStep(Append(0, a), b, 0xFF, 0xFFFF);
    FlipStep(Append(Append(0, a), b), c, 0xFFFF, 0xFFFFFF);
    FlipStep(Append(Append(Append(0, a), b), c), d, 0xFFFFFF, 0xFFFFFFFF);
  }

  lemma ByteAppendBound(a: bv8, b: bv8, c: bv8)
    ensures Append(0, a) < 0x1000000 && Append(Append(0, a), b) < 0x1000000
    ensures Append(Append(Append(0, a), b), c) < 0x1000000
  {
  }

  lemma XorOnesInjective(p: bv32, q: bv32)
    requires p != q
    ensures Xor(p, 0xFFFFFFFF) != Xor(q, 0xFFFFFFFF)
  {
  }

  lemma BitDiffers(x: bv8, y: bv8)
    requires x != y
    ensures (x & 128 != 0) != (y & 128 != 0) || (x & 64 != 0) != (y & 64 != 0) || (x & 32 != 0) != (y & 32 != 0)
         || (x & 16 != 0) != (y & 16 != 0) || (x & 8 != 0) != (y & 8 != 0) || (x & 4 != 0) != (y & 4 != 0)
         || (x & 2 != 0) != (y & 2 != 0) || (x & 1 != 0) != (y & 1 != 0)
  {
  }

  lemma FlipBits(x: bv8, y: bv8)
    requires y == x ^ 0xFF
    ensures (y & 128 != 0) == (x & 128 == 0) && (y & 64 != 0) == (x & 64 == 0) && (y & 32 != 0) == (x & 32 == 0)
    ensures (y & 16 != 0) == (x & 16 == 0) && (y & 8 != 0) == (x & 8 == 0) && (y & 4 != 0) == (x & 4 == 0)
    ensures (y & 2 != 0) == (x & 2 == 0) && (y & 1 != 0) == (x & 1 == 0)
  {
  }
}
