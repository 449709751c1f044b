/** The 16-bit reversal by four mask-and-swap rounds, and its use for shorter words. */
module BitReverseWord {
  import opened Bits

  /** One round: exchange the bits selected by hi with those selected by lo, k places below. */
  function SwapRound(n: nat, hi: nat, lo: nat, k: nat): nat {
    BitOr(Shr(BitAnd(n, hi), k), Shl(BitAnd(n, lo), k))
  }

  function BitReverse16(n: nat): nat {
    var n1 := SwapRound(n, 0xAAAA, 0x5555, 1);
    var n2 := SwapRound(n1, 0xCCCC, 0x3333, 2);
    var n3 := SwapRound(n2, 0xF0F0, 0x0F0F, 4);
    SwapRound(n3, 0xFF00, 0x00FF, 8)
  }

  /** To reverse a shorter word, reverse 16 bits and shift the excess away. */
  function BitReverse(v: nat, bits: nat): nat
    requires bits <= 16
  {
    Shr(BitReverse16(v), 16 - bits)
  }

  /** Whether bit i lies in an odd-numbered group of k bits. */
  predicate OddGroup(i: nat, k: nat) {
    match k
    case 1 => i % 2 >= 1
    case 2 => i % 4 >= 2
    case 4 => i % 8 >= 4
    case _ => i % 16 >= 8
  }

  /** Where bit i comes from in the round that exchanges groups of k bits. */
  function Partner(i: nat, k: nat): int {
    if OddGroup(i, k) then i - k else i + k
  }

  /** hi selects the odd groups of k bits among the low 16, lo the even ones. */
  ghost predicate GroupMasks(hi: nat, lo: nat, k: nat) {
    && hi < 65536
    && forall j: nat :: j < 16 ==>
         Bit(hi, j) == (if OddGroup(j, k) then 1 else 0) && Bit(lo, j) == (if OddGroup(j, k) then 0 else 1)
  }

  lemma RoundBit(n: nat, hi: nat, lo: nat, k: nat, i: nat)
    requires k in {1, 2, 4, 8} && GroupMasks(hi, lo, k) && i < 16
    ensures 0 <= Partner(i, k) < 16 && Bit(SwapRound(n, hi, lo, k), i) == Bit(n, Partner(i, k))
  {
    var x, y := BitAnd(n, hi), BitAnd(n, lo);
    OrBit(Shr(x, k), Shl(y, k), i);
    ShrBit(x, k, i);
    ShlBit(y, k, i);
    AndBit(n, hi, i + k);
    if i + k >= 16 {
      SixteenBits(hi, i + k);
    }
    if i >= k {
      AndBit(n, lo, i - k);
    }
    PartnerInRange(i, k);
  }

  lemma PartnerInRange(i: nat, k: nat)
    requires k in {1, 2, 4, 8} && i < 16
    ensures 0 <= Partner(i, k) < 16
    ensures !OddGroup(i, k) <==> i + k < 16 && OddGroup(i + k, k)
    ensures OddGroup(i, k) ==> i >= k && !OddGroup(i - k, k)
    ensures !OddGroup(i, k) && i >= k ==> OddGroup(i - k, k)
  {
    hide OddGroup;
    GroupBounds(i, k);
    NextGroup(i, k);
    if i >= k {
      NextGroup(i - k, k);
    }
  }

  lemma GroupBounds(i: nat, k: nat)
    requires k in {1, 2, 4, 8} && i < 16
    ensures OddGroup(i, k) ==> i >= k
    ensures !OddGroup(i, k) ==> i + k < 16
  {
  }

  /** Groups are odd and even in turn. */
  lemma NextGroup(i: nat, k: nat)
    requires k in {1, 2, 4, 8} && i < 16
    ensures OddGroup(i + k, k) <==> !OddGroup(i, k)
  {
    if k == 1 {
      Alternates(i, 1, 2);
    } else if k == 2 {
      Alternates(i, 2, 4);
    } else if k == 4 {
      Alternates(i, 4, 8);
    }
  }

  lemma Alternates(i: int, k: int, m: int)
    requires (m == 2 || m == 4 || m == 8) && m == 2 * k
    ensures (i + k) % m == if i % m >= k then i % m - k else i % m + k
  {
    if m == 2 {
    } else if m == 4 {
    } else {
    }
  }

  lemma SixteenBits(x: nat, i: nat)
    requires x < 65536 && i >= 16
    ensures Bit(x, i) == 0
  {
    Pow2Sixteen(16);
    HighBitZero(x, 16, i);
  }

  lemma Pow2Sixteen(n: nat)
    requires n == 16
    ensures Pow2(n) == 65536
  {
    Pow2Eight(n - 8);
    Pow2Shl(8, 8);
    assert Shl(256, 4) == 4096;
    ShlShl(256, 4, 4);
  }

  /** Bits of a 16-bit word are bits of its two bytes. */
  lemma ByteBits(x: nat, j: nat)
    requires x < 65536 && j < 16
    ensures Bit(x, j) == if j < 8 then Bit(x % 256, j) else Bit(x / 256, j - 8)
  {
    var n := 8;
    Shr8(x, n);
    if j >= 8 {
      ShrBit(x, n, j - 8);
    } else {
      SplitWord(x, n);
      Shl8(x / 256, n);
      LowBit(x, n, j);
    }
  }

  lemma Shr8(x: nat, n: nat)
    requires n == 8
    ensures Shr(x, n) == x / 256
  {
    assert Shr(x / 128, n - 7) == x / 256;
    assert Shr(x / 64, n - 6) == x / 256;
    assert Shr(x / 16, n - 4) == x / 256;
    assert Shr(x / 4, n - 2) == x / 256;
  }

  lemma Shl8(x: nat, n: nat)
    requires n == 8
    ensures Shl(x, n) == 256 * x
  {
    assert Shl(x, n - 7) == 2 * x;
    assert Shl(x, n - 6) == 4 * x;
    assert Shl(x, n - 4) == 16 * x;
    assert Shl(x, n - 2) == 64 * x;
  }

  lemma {:induction false} LowBit(x: nat, n: nat, j: nat)
    requires j < n
    ensures Bit(Low(x, n), j) == Bit(x, j)
    decreases n
  {
    var w := Low(x, n);
    assert w % 2 == x % 2 && w / 2 == Low(x / 2, n - 1);
    if j > 0 {
      LowBit(x / 2, n - 1, j - 1);
    }
  }

  /** Both bytes of the first three masks are the same. */
  lemma RepeatedMask(h: nat, l: nat, k: nat)
    requires h < 256 && l < 256 && k in {1, 2, 4}
    requires forall j: nat :: j < 8 ==>
      Bit(h, j) == (if OddGroup(j, k) then 1 else 0) && Bit(l, j) == (if OddGroup(j, k) then 0 else 1)
    ensures GroupMasks(257 * h, 257 * l, k)
  {
    hide Bit, OddGroup;
    forall j: nat | j < 16
      ensures Bit(257 * h, j) == (if OddGroup(j, k) then 1 else 0)
      ensures Bit(257 * l, j) == (if OddGroup(j, k) then 0 else 1)
    {
      RepeatedBits(h, j);
      RepeatedBits(l, j);
      GroupsRepeat(j, k);
      var i := if j < 8 then j else j - 8;
      assert Bit(h, i) == (if OddGroup(i, k) then 1 else 0);
      assert Bit(l, i) == (if OddGroup(i, k) then 0 else 1);
    }
  }

  lemma RepeatedBits(b: nat, j: nat)
    requires b < 256 && j < 16
    ensures Bit(257 * b, j) == Bit(b, if j < 8 then j else j - 8)
  {
    hide Bit;
    ByteBits(257 * b, j);
    assert (257 * b) % 256 == b && (257 * b) / 256 == b;
  }

  lemma GroupsRepeat(j: nat, k: nat)
    requires j < 16 && k in {1, 2, 4}
    ensures OddGroup(if j < 8 then j else j - 8, k) == OddGroup(j, k)
  {
  }

  lemma Masks1()
    ensures GroupMasks(0xAAAA, 0x5555, 1)
  {
    assert Bit(0xAA, 0) == 0 && Bit(0xAA, 1) == 1 && Bit(0xAA, 2) == 0 && Bit(0xAA, 3) == 1;
    assert Bit(0xAA, 4) == 0 && Bit(0xAA, 5) == 1 && Bit(0xAA, 6) == 0 && Bit(0xAA, 7) == 1;
    assert Bit(0x55, 0) == 1 && Bit(0x55, 1) == 0 && Bit(0x55, 2) == 1 && Bit(0x55, 3) == 0;
    assert Bit(0x55, 4) == 1 && Bit(0x55, 5) == 0 && Bit(0x55, 6) == 1 && Bit(0x55, 7) == 0;
    RepeatedMask(0xAA, 0x55, 1);
  }

  lemma Masks2()
    ensures GroupMasks(0xCCCC, 0x3333, 2)
  {
    assert Bit(0xCC, 0) == 0 && Bit(0xCC, 1) == 0 && Bit(0xCC, 2) == 1 && Bit(0xCC, 3) == 1;
    assert Bit(0xCC, 4) == 0 && Bit(0xCC, 5) == 0 && Bit(0xCC, 6) == 1 && Bit(0xCC, 7) == 1;
    assert Bit(0x33, 0) == 1 && Bit(0x33, 1) == 1 && Bit(0x33, 2) == 0 && Bit(0x33, 3) == 0;
    assert Bit(0x33, 4) == 1 && Bit(0x33, 5) == 1 && Bit(0x33, 6) == 0 && Bit(0x33, 7) == 0;
    RepeatedMask(0xCC, 0x33, 2);
  }

  lemma Masks4()
    ensures GroupMasks(0xF0F0, 0x0F0F, 4)
  {
    assert Bit(0xF0, 0) == 0 && Bit(0xF0, 1) == 0 && Bit(0xF0, 2) == 0 && Bit(0xF0, 3) == 0;
    assert Bit(0xF0, 4) == 1 && Bit(0xF0, 5) == 1 && Bit(0xF0, 6) == 1 && Bit(0xF0, 7) == 1;
    assert Bit(0x0F, 0) == 1 && Bit(0x0F, 1) == 1 && Bit(0x0F, 2) == 1 && Bit(0x0F, 3) == 1;
    assert Bit(0x0F, 4) == 0 && Bit(0x0F, 5) == 0 && Bit(0x0F, 6) == 0 && Bit(0x0F, 7) == 0;
    RepeatedMask(0xF0, 0x0F, 4);
  }

  lemma Masks8()
    ensures GroupMasks(0xFF00, 0x00FF, 8)
  {
    assert Bit(0xFF, 0) == 1 && Bit(0xFF, 1) == 1 && Bit(0xFF, 2) == 1 && Bit(0xFF, 3) == 1;
    assert Bit(0xFF, 4) == 1 && Bit(0xFF, 5) == 1 && Bit(0xFF, 6) == 1 && Bit(0xFF, 7) == 1;
    forall j: nat | j < 16
      ensures Bit(0xFF00, j) == (if OddGroup(j, 8) then 1 else 0)
      ensures Bit(0x00FF, j) == (if OddGroup(j, 8) then 0 else 1)
    {
      ByteBits(0xFF00, j);
      ByteBits(0x00FF, j);
      ZeroBit(if j < 8 then j else j - 8);
    }
  }

  lemma ZeroBit(i: nat)
    ensures Bit(0, i) == 0
  {
    HighBitZero(0, 0, i);
  }

  /** Four rounds send bit i to bit 15 - i. */
  lemma FourRoundsBit(n: nat, i: nat)
    requires i < 16
    ensures Bit(BitReverse16(n), i) == Bit(n, 15 - i)
  {
    Masks1();
    Masks2();
    Masks4();
    Masks8();
    var n1 := SwapRound(n, 0xAAAA, 0x5555, 1);
    var n2 := SwapRound(n1, 0xCCCC, 0x3333, 2);
    var n3 := SwapRound(n2, 0xF0F0, 0x0F0F, 4);
    RoundBit(n3, 0xFF00, 0x00FF, 8, i);
    var i3 := Partner(i, 8);
    RoundBit(n2, 0xF0F0, 0x0F0F, 4, i3);
    var i2 := Partner(i3, 4);
    RoundBit(n1, 0xCCCC, 0x3333, 2, i2);
    var i1 := Partner(i2, 2);
    RoundBit(n, 0xAAAA, 0x5555, 1, i1);
    PartnersReverse(i);
  }

  lemma PartnersReverse(i: nat)
    requires i < 16
    ensures 0 <= Partner(i, 8) && 0 <= Partner(Partner(i, 8), 4) && 0 <= Partner(Partner(Partner(i, 8), 4), 2)
    ensures Partner(Partner(Partner(Partner(i, 8), 4), 2), 1) == 15 - i
  {
  }

  /** The four rounds reverse the low 16 bits, whatever lies above them. */
  lemma BitReverse16IsReverse(n: nat, w: nat)
    requires w == 16
    ensures BitReverse16(n) == Reverse(n, w)
  {
    forall i: nat | i < w
      ensures Bit(BitReverse16(n), i) == Bit(Reverse(n, w), i)
    {
      FourRoundsBit(n, i);
      ReverseBit(n, w, i);
    }
    Pow2Sixteen(w);
    RoundBound(SwapRound(SwapRound(SwapRound(n, 0xAAAA, 0x5555, 1), 0xCCCC, 0x3333, 2), 0xF0F0, 0x0F0F, 4), w);
    ReverseBound(n, w);
    EqualBits(BitReverse16(n), Reverse(n, w), w);
  }

  lemma RoundBound(n: nat, w: nat)
    requires w == 16
    ensures SwapRound(n, 0xFF00, 0x00FF, 8) < 65536
  {
    var x, y := BitAnd(n, 0xFF00), BitAnd(n, 0x00FF);
    AndBound(n, 0xFF00);
    AndBound(n, 0x00FF);
    var k := 8;
    Pow2Eight(k);
    ShlMono(y, 255, k);
    assert Shl(255, 4) == 4080 && Shl(4080, k - 4) == 65280;
    ShlShl(255, 4, k - 4);
    ShrMono(x, 0xFF00, k);
    assert Shr(0xFF00, 4) == 0xFF0 && Shr(0xFF0, k - 4) == 0xFF;
    ShrShr(0xFF00, 4, k - 4);
    OrAbove(Shr(x, k), y, k);
  }

  lemma {:induction false} AndBound(x: nat, y: nat)
    ensures BitAnd(x, y) <= y
    decreases y
  {
    if x != 0 && y != 0 {
      AndBound(x / 2, y / 2);
    }
  }

  /** bit_reverse reverses the low bits of the word it is given. */
  lemma BitReverseIsReverse(v: nat, bits: nat)
    requires bits <= 16
    ensures BitReverse(v, bits) == Reverse(v, bits)
  {
    var w := 16;
    BitReverse16IsReverse(v, w);
    ReversePrefix(v, bits, w);
  }
}
