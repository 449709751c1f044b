/** Division of messages by x^32 + 0x04C11DB7 over GF(2), and which differences it detects. */
module Gf2 {
  import opened Bits
  import opened Word32

  /** Long division of a message, first bit first, starting from register r. */
  function ShiftBits(r: bv32, bits: seq<bool>): bv32 {
    if bits == [] then r else ShiftBit(ShiftBits(r, bits[..|bits| - 1]), bits[|bits| - 1])
  }

  function Remainder(bits: seq<bool>): bv32 {
    ShiftBits(0, bits)
  }

  // ----- linearity -----

  lemma Interchange(a: bv32, b: bv32, c: bv32, d: bv32)
    ensures Xor(Xor(a, b), Xor(c, d)) == Xor(Xor(a, c), Xor(b, d))
  {
    hide Xor;
    XorAssoc(a, b, Xor(c, d));
    XorAssoc(b, c, d);
    XorComm(b, c);
    XorAssoc(c, b, d);
    XorAssoc(a, c, Xor(b, d));
  }

  lemma DoubleLinear(p: bv32, q: bv32)
    ensures Double(Xor(p, q)) == Xor(Double(p), Double(q))
  {
    hide Xor, Shl1, Top, Fold;
    ShiftXor(p, q);
    TopXor(p, q);
    ConstantsXor(Top(p), Top(q));
    Interchange(Shl1(p), Shl1(q), Fold(Top(p)), Fold(Top(q)));
  }

  /** A division step is linear in the register and the message bit together. */
  lemma ShiftBitLinear(p: bv32, a: bool, q: bv32, b: bool)
    ensures ShiftBit(Xor(p, q), a != b) == Xor(ShiftBit(p, a), ShiftBit(q, b))
  {
    hide Xor, Double, One;
    DoubleLinear(p, q);
    ConstantsXor(a, b);
    Interchange(Double(p), Double(q), One(a), One(b));
  }

  function XorBits(a: seq<bool>, b: seq<bool>): (c: seq<bool>)
    requires |a| == |b|
    ensures |c| == |a|
  {
    seq(|a|, i requires 0 <= i < |a| => a[i] != b[i])
  }

  /** The sum of two divisions is the division of the sum. */
  lemma {:induction false} ShiftBitsLinear(p: bv32, a: seq<bool>, q: bv32, b: seq<bool>)
    requires |a| == |b|
    ensures ShiftBits(Xor(p, q), XorBits(a, b)) == Xor(ShiftBits(p, a), ShiftBits(q, b))
    decreases |a|
  {
    hide Xor, ShiftBit;
    if |a| > 0 {
      var m := |a| - 1;
      ShiftBitsLinear(p, a[..m], q, b[..m]);
      assert XorBits(a, b)[..m] == XorBits(a[..m], b[..m]);
      ShiftBitLinear(ShiftBits(p, a[..m]), a[m], ShiftBits(q, b[..m]), b[m]);
    }
  }

  lemma {:induction false} ShiftBitsAppend(r: bv32, a: seq<bool>, b: seq<bool>)
    ensures ShiftBits(r, a + b) == ShiftBits(ShiftBits(r, a), b)
    decreases |b|
  {
    hide ShiftBit;
    if b == [] {
      assert a + b == a;
    } else {
      var m := |b| - 1;
      ShiftBitsAppend(r, a, b[..m]);
      assert (a + b)[..|a + b| - 1] == a + b[..m];
    }
  }

  // ----- what a division step does to zero and non-zero registers -----

  ghost predicate AllZero(bits: seq<bool>) {
    forall i :: 0 <= i < |bits| ==> !bits[i]
  }

  lemma {:induction false} ZeroBits(bits: seq<bool>)
    requires AllZero(bits)
    ensures Remainder(bits) == 0
    decreases |bits|
  {
    if bits != [] {
      ZeroBits(bits[..|bits| - 1]);
      assert ShiftBit(0, false) == 0;
    }
  }

  lemma {:induction false} NonZeroKept(r: bv32, zeros: seq<bool>)
    requires r != 0 && AllZero(zeros)
    ensures ShiftBits(r, zeros) != 0
    decreases |zeros|
  {
    hide Double, Xor;
    if zeros != [] {
      var m := |zeros| - 1;
      NonZeroKept(r, zeros[..m]);
      DoubleNonZero(ShiftBits(r, zeros[..m]));
      XorZero(Double(ShiftBits(r, zeros[..m])));
      assert !zeros[m];
    }
  }

  /** At most 32 bits shifted into an empty register leave it empty only if all are zero. */
  lemma {:induction false} ShortBits(bits: seq<bool>)
    requires |bits| <= 32
    ensures Remainder(bits) as int < Pow2(|bits|)
    ensures Remainder(bits) == 0 ==> AllZero(bits)
    decreases |bits|
  {
    hide ShiftBit, Pow2;
    if bits == [] {
      EmptyRemainder();
    } else {
      var m := |bits| - 1;
      ShortBits(bits[..m]);
      ShortStep(Remainder(bits[..m]), bits[m], m);
      assert forall i :: 0 <= i < m ==> bits[i] == bits[..m][i];
    }
  }

  lemma EmptyRemainder()
    ensures Remainder([]) as int < Pow2(0)
  {
  }

  /** A short register takes in one more bit, and is zero only if it and the bit were. */
  lemma ShortStep(r: bv32, b: bool, m: nat)
    requires m <= 31 && r as int < Pow2(m)
    ensures ShiftBit(r, b) as int < Pow2(m + 1)
    ensures ShiftBit(r, b) == 0 ==> r == 0 && !b
  {
    hide ShiftBit, Pow2;
    Pow2Below(m, 31);
    Pow2Next(m);
    ShiftBitSmall(r, b);
    ZeroAsInt(r);
    ZeroAsInt(ShiftBit(r, b));
  }

  lemma Pow2Next(m: nat)
    ensures Pow2(m + 1) == 2 * Pow2(m)
  {
  }

  lemma Pow2Below(m: nat, top: nat)
    requires m <= top == 31
    ensures Pow2(m) <= 0x80000000
  {
    Pow2Top(top);
    Pow2Mono(m, top);
  }

  lemma Pow2Top(top: nat)
    requires top == 31
    ensures Pow2(top) == 0x80000000
  {
    Pow2PlusEight(top - 8);
    Pow2PlusEight(top - 16);
    Pow2PlusEight(top - 24);
    var low := top - 24;
    assert Pow2(3) == 8;
    assert Pow2(low - 2) == 4 * Pow2(low - 4);
    assert Pow2(low) == 4 * Pow2(low - 2);
  }

  lemma Pow2PlusEight(n: nat)
    ensures Pow2(n + 8) == 0x100 * Pow2(n)
  {
    assert Pow2(n + 2) == 4 * Pow2(n);
    assert Pow2(n + 4) == 4 * Pow2(n + 2);
    assert Pow2(n + 6) == 4 * Pow2(n + 4);
  }

  /** All ones of the difference lie within 32 consecutive bits. */
  ghost predicate Burst(d: seq<bool>, start: nat) {
    forall i :: 0 <= i < |d| && d[i] ==> start <= i < start + 32
  }

  /** A non-zero burst of at most 32 bits is not divisible. */
  lemma BurstNotDivisible(d: seq<bool>, start: nat)
    requires Burst(d, start) && !AllZero(d)
    ensures Remainder(d) != 0
  {
    hide ShiftBit, ShiftBits;
    var i :| 0 <= i < |d| && d[i];
    var end := if start + 32 < |d| then start + 32 else |d|;
    var before, middle, after := d[..start], d[start..end], d[end..];
    assert d[..end] == before + middle && d == d[..end] + after;
    ShiftBitsAppend(0, d[..end], after);
    ShiftBitsAppend(0, before, middle);
    ZeroBits(before);
    assert middle[i - start];
    ShortBits(middle);
    NonZeroKept(Remainder(middle), after);
  }

  /** Two messages of equal length with the same remainder do not differ by a burst of at most 32 bits. */
  lemma BurstDetected(a: seq<bool>, b: seq<bool>, start: nat)
    requires |a| == |b| && a != b && Burst(XorBits(a, b), start)
    ensures Remainder(a) != Remainder(b)
  {
    hide Xor, ShiftBits;
    var d := XorBits(a, b);
    var i :| 0 <= i < |a| && a[i] != b[i];
    assert d[i];
    ShiftBitsLinear(0, a, 0, b);
    XorZero(0);
    XorCancel(Remainder(a), Remainder(b));
    BurstNotDivisible(d, start);
  }
}
