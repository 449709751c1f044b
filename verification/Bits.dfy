/** Unsigned machine words as natural numbers: the C bit operators, and the two ways
    DEFLATE reads a group of stream bits (LSB first for data, MSB first for Huffman codes). */
module Bits {

  type byte = x: int | 0 <= x < 256

  datatype Option<T> = None | Some(value: T)

  // ----- shifts, masks and the C operators & | ^ on unsigned words -----

  /** x << n */
  function Shl(x: nat, n: nat): nat {
    if n == 0 then x else 2 * Shl(x, n - 1)
  }

  /** x >> n */
  function Shr(x: nat, n: nat): nat
    decreases n, x
  {
    if n == 0 then x else Shr(x / 2, n - 1)
  }

  /** The low n bits of x. */
  function Low(x: nat, n: nat): nat
    decreases n, x
  {
    if n == 0 then 0 else x % 2 + 2 * Low(x / 2, n - 1)
  }

  /** 1 << n */
  function Pow2(n: nat): (p: nat)
    ensures p > 0
  {
    if n == 0 then 1 else 2 * Pow2(n - 1)
  }

  function BitAnd(x: nat, y: nat): nat {
    if x == 0 || y == 0 then 0
    else (if x % 2 == 1 && y % 2 == 1 then 1 else 0) + 2 * BitAnd(x / 2, y / 2)
  }

  function BitOr(x: nat, y: nat): nat
    decreases x + y
  {
    if x == 0 then y else if y == 0 then x
    else (if x % 2 == 1 || y % 2 == 1 then 1 else 0) + 2 * BitOr(x / 2, y / 2)
  }

  function BitXor(x: nat, y: nat): nat
    decreases x + y
  {
    if x == 0 then y else if y == 0 then x
    else (if x % 2 != y % 2 then 1 else 0) + 2 * BitXor(x / 2, y / 2)
  }

  lemma {:induction false} ShlAdd(x: nat, y: nat, n: nat)
    ensures Shl(x + y, n) == Shl(x, n) + Shl(y, n)
  {
    if n > 0 {
      ShlAdd(x, y, n - 1);
    }
  }

  lemma {:induction false} ShlShl(x: nat, a: nat, b: nat)
    ensures Shl(Shl(x, a), b) == Shl(x, a + b)
  {
    if b > 0 {
      ShlShl(x, a, b - 1);
    }
  }

  lemma {:induction false} ShlMono(x: nat, y: nat, n: nat)
    requires x <= y
    ensures Shl(x, n) <= Shl(y, n)
    ensures x < y ==> Shl(x, n) < Shl(y, n)
  {
    if n > 0 {
      ShlMono(x, y, n - 1);
    }
  }

  lemma {:induction false} ShlOne(n: nat)
    ensures Shl(1, n) == Pow2(n)
  {
    if n > 0 {
      ShlOne(n - 1);
    }
  }

  lemma {:induction false} ShlZero(n: nat)
    ensures Shl(0, n) == 0
  {
    if n > 0 {
      ShlZero(n - 1);
    }
  }

  lemma {:induction false} Pow2Shl(a: nat, b: nat)
    ensures Shl(Pow2(a), b) == Pow2(a + b)
  {
    if b > 0 {
      Pow2Shl(a, b - 1);
    }
  }

  lemma {:induction false} Pow2Mono(a: nat, b: nat)
    requires a <= b
    ensures Pow2(a) <= Pow2(b)
  {
    if a < b {
      Pow2Mono(a, b - 1);
    }
  }

  lemma {:induction false} ShrShr(x: nat, a: nat, b: nat)
    ensures Shr(Shr(x, a), b) == Shr(x, a + b)
    decreases a
  {
    if a > 0 {
      ShrShr(x / 2, a - 1, b);
    }
  }

  lemma {:induction false} ShrMono(x: nat, y: nat, n: nat)
    requires x <= y
    ensures Shr(x, n) <= Shr(y, n)
    decreases n
  {
    if n > 0 {
      ShrMono(x / 2, y / 2, n - 1);
    }
  }

  lemma {:induction false} LowBound(x: nat, n: nat)
    ensures Low(x, n) < Pow2(n)
    decreases n
  {
    if n > 0 {
      LowBound(x / 2, n - 1);
    }
  }

  /** A word is its high part above its low part. */
  lemma {:induction false} SplitWord(x: nat, n: nat)
    ensures x == Low(x, n) + Shl(Shr(x, n), n)
    decreases n
  {
    if n > 0 {
      SplitWord(x / 2, n - 1);
    }
  }

  /** A word assembled from a low and a high part splits into them again. */
  lemma {:induction false} JoinWord(x: nat, y: nat, n: nat)
    requires x < Pow2(n)
    ensures Shr(x + Shl(y, n), n) == y && Low(x + Shl(y, n), n) == x
    decreases n
  {
    if n > 0 {
      var z := x + Shl(y, n);
      assert z / 2 == x / 2 + Shl(y, n - 1) && z % 2 == x % 2;
      JoinWord(x / 2, y, n - 1);
    }
  }

  /** y < x >> n exactly when the bits of y placed above n arbitrary bits stay below x's high part. */
  lemma ShrBelow(x: nat, y: nat, n: nat)
    ensures Shr(x, n) < y <==> x < Shl(y, n)
  {
    SplitWord(x, n);
    LowBound(x, n);
    ShlOne(n);
    var h := Shr(x, n);
    if h < y {
      ShlMono(h + 1, y, n);
      ShlAdd(h, 1, n);
    } else {
      ShlMono(y, h, n);
    }
  }

  lemma {:induction false} LowLow(x: nat, a: nat, b: nat)
    requires a <= b
    ensures Low(Low(x, b), a) == Low(x, a)
    decreases a
  {
    if a > 0 {
      var w := Low(x, b);
      assert w % 2 == x % 2 && w / 2 == Low(x / 2, b - 1);
      LowLow(x / 2, a - 1, b - 1);
    }
  }

  lemma {:induction false} LowSmall(x: nat, n: nat)
    requires x < Pow2(n)
    ensures Low(x, n) == x && Shr(x, n) == 0
    decreases n
  {
    if n > 0 {
      LowSmall(x / 2, n - 1);
    }
  }

  /** Masking with 2^n - 1 keeps the low n bits. */
  lemma {:induction false} AndMask(x: nat, n: nat)
    ensures BitAnd(x, Pow2(n) - 1) == Low(x, n)
    decreases n
  {
    if n > 0 {
      AndMask(x / 2, n - 1);
      var m := Pow2(n - 1);
      assert (2 * m - 1) / 2 == m - 1 && (2 * m - 1) % 2 == 1;
      if x == 0 {
        LowSmall(0, n);
      }
    }
  }

  /** Or-ing a word into the bits above another word adds them. */
  lemma {:induction false} OrAbove(x: nat, y: nat, n: nat)
    requires x < Pow2(n)
    ensures BitOr(x, Shl(y, n)) == x + Shl(y, n)
    decreases n
  {
    if n > 0 {
      OrAbove(x / 2, y, n - 1);
    }
  }

  /** Exclusive-or with 2^n - 1 complements the low n bits. */
  lemma {:induction false} XorMask(x: nat, n: nat)
    requires x < Pow2(n)
    ensures BitXor(x, Pow2(n) - 1) == Pow2(n) - 1 - x
    decreases n
  {
    if n > 0 {
      XorMask(x / 2, n - 1);
      var m := Pow2(n - 1);
      assert (2 * m - 1) / 2 == m - 1 && (2 * m - 1) % 2 == 1;
    }
  }

  // ----- single bits -----

  function Bit(x: nat, i: nat): (b: nat)
    ensures b <= 1
    decreases i, x
  {
    if i == 0 then x % 2 else Bit(x / 2, i - 1)
  }

  lemma {:induction false} AndBit(x: nat, y: nat, i: nat)
    ensures Bit(BitAnd(x, y), i) == if Bit(x, i) == 1 && Bit(y, i) == 1 then 1 else 0
    decreases i
  {
    if x == 0 || y == 0 {
      HighBitZero(0, 0, i);
    } else if i > 0 {
      AndBit(x / 2, y / 2, i - 1);
    }
  }

  lemma {:induction false} OrBit(x: nat, y: nat, i: nat)
    ensures Bit(BitOr(x, y), i) == if Bit(x, i) == 1 || Bit(y, i) == 1 then 1 else 0
    decreases i
  {
    if x == 0 || y == 0 {
      HighBitZero(0, 0, i);
    } else if i > 0 {
      OrBit(x / 2, y / 2, i - 1);
    }
  }

  lemma {:induction false} ShrBit(x: nat, k: nat, i: nat)
    ensures Bit(Shr(x, k), i) == Bit(x, i + k)
    decreases k
  {
    if k > 0 {
      ShrBit(x / 2, k - 1, i);
    }
  }

  lemma {:induction false} ShlBit(x: nat, k: nat, i: nat)
    ensures Bit(Shl(x, k), i) == if i < k then 0 else Bit(x, i - k)
    decreases k
  {
    if k > 0 {
      var y := Shl(x, k - 1);
      assert Shl(x, k) == 2 * y && (2 * y) / 2 == y && (2 * y) % 2 == 0;
      if i > 0 {
        assert Bit(2 * y, i) == Bit(y, i - 1);
        ShlBit(x, k - 1, i - 1);
      }
    }
  }

  lemma {:induction false} HighBitZero(x: nat, n: nat, i: nat)
    requires x < Pow2(n) && n <= i
    ensures Bit(x, i) == 0
    decreases i
  {
    if i > 0 {
      HighBitZero(x / 2, if n == 0 then 0 else n - 1, i - 1);
    }
  }

  /** Two n-bit words with the same bits are equal. */
  lemma {:induction false} EqualBits(x: nat, y: nat, n: nat)
    requires x < Pow2(n) && y < Pow2(n)
    requires forall i: nat :: i < n ==> Bit(x, i) == Bit(y, i)
    ensures x == y
    decreases n
  {
    if n > 0 {
      assert Bit(x, 0) == Bit(y, 0);
      forall i: nat | i < n - 1
        ensures Bit(x / 2, i) == Bit(y / 2, i)
      {
        assert Bit(x, i + 1) == Bit(y, i + 1);
      }
      EqualBits(x / 2, y / 2, n - 1);
    }
  }

  // ----- reversal of an s-bit word -----

  function Reverse(v: nat, s: nat): nat
    decreases s, v
  {
    if s == 0 then 0 else Shl(v % 2, s - 1) + Reverse(v / 2, s - 1)
  }

  lemma {:induction false} ReverseBound(v: nat, s: nat)
    ensures Reverse(v, s) < Pow2(s)
    decreases s
  {
    if s > 0 {
      ReverseBound(v / 2, s - 1);
      ShlMono(v % 2, 1, s - 1);
      ShlOne(s - 1);
    }
  }

  lemma {:induction false} ReverseSplit(v: nat, s: nat, t: nat)
    ensures Reverse(v, s + t) == Shl(Reverse(v, s), t) + Reverse(Shr(v, s), t)
    decreases s
  {
    if s == 0 {
      ShlZero(t);
    } else {
      ReverseSplit(v / 2, s - 1, t);
      ShlAdd(Shl(v % 2, s - 1), Reverse(v / 2, s - 1), t);
      ShlShl(v % 2, s - 1, t);
    }
  }

  /** Reversing m bits and dropping the low m - s of the result reverses s bits. */
  lemma ReversePrefix(v: nat, s: nat, m: nat)
    requires s <= m
    ensures Shr(Reverse(v, m), m - s) == Reverse(v, s)
  {
    ReverseSplit(v, s, m - s);
    ReverseBound(Shr(v, s), m - s);
    JoinWord(Reverse(Shr(v, s), m - s), Reverse(v, s), m - s);
  }

  lemma {:induction false} ReverseLowBits(v: nat, s: nat)
    ensures Reverse(Low(v, s), s) == Reverse(v, s)
    decreases s
  {
    if s > 0 {
      ReverseLowBits(v / 2, s - 1);
    }
  }

  lemma {:induction false} ReverseInvolution(v: nat, s: nat)
    requires v < Pow2(s)
    ensures Reverse(Reverse(v, s), s) == v
    decreases s
  {
    if s > 0 {
      var w := Reverse(v / 2, s - 1);
      ReverseBound(v / 2, s - 1);
      ReverseInvolution(v / 2, s - 1);
      ReverseAppend(w, v % 2, s - 1);
    }
  }

  /** A bit placed above an s-bit word becomes the lowest bit of the reversal. */
  lemma ReverseAppend(w: nat, a: nat, s: nat)
    requires w < Pow2(s) && a <= 1
    ensures Reverse(w + Shl(a, s), s + 1) == 2 * Reverse(w, s) + a
  {
    var x := w + Shl(a, s);
    ReverseSplit(x, s, 1);
    ReverseLowBits(x, s);
    JoinWord(w, a, s);
    assert Shl(Reverse(x, s), 1) == 2 * Shl(Reverse(x, s), 0);
    assert Reverse(a / 2, 0) == 0;
  }

  lemma ReverseBit(v: nat, s: nat, i: nat)
    ensures Bit(Reverse(v, s), i) == if i < s then Bit(v, s - 1 - i) else 0
  {
    ReverseBound(v, s);
    if i >= s {
      HighBitZero(Reverse(v, s), s, i);
    } else {
      ReversePrefix(v, s - i, s);
      ShrBit(Reverse(v, s), i, 0);
      ReverseLow(v, s - i);
    }
  }

  lemma {:induction false} ReverseLow(v: nat, s: nat)
    requires s > 0
    ensures Reverse(v, s) % 2 == Bit(v, s - 1)
    decreases s
  {
    if s > 1 {
      ReverseLow(v / 2, s - 1);
    }
  }

  // ----- the bit stream of a byte sequence, least significant bit first, zero past the end -----

  function StreamByte(data: seq<byte>, k: nat): byte {
    if k < |data| then data[k] else 0
  }

  function StreamBit(data: seq<byte>, pos: nat): (b: nat)
    ensures b <= 1
  {
    Bit(StreamByte(data, pos / 8), pos % 8)
  }

  /** n stream bits as a number whose least significant bit comes first (RFC 1951, section 3.1.1). */
  function Peek(data: seq<byte>, pos: nat, n: nat): nat
    decreases n, pos, data
  {
    if n == 0 then 0 else StreamBit(data, pos) + 2 * Peek(data, pos + 1, n - 1)
  }

  /** n stream bits as a number whose most significant bit comes first: how Huffman codes are packed. */
  function PeekMsb(data: seq<byte>, pos: nat, n: nat): nat
    decreases n, pos, data
  {
    if n == 0 then 0 else 2 * PeekMsb(data, pos, n - 1) + StreamBit(data, pos + n - 1)
  }

  lemma {:induction false} PeekBound(data: seq<byte>, pos: nat, n: nat)
    ensures Peek(data, pos, n) < Pow2(n)
    decreases n
  {
    if n > 0 {
      PeekBound(data, pos + 1, n - 1);
    }
  }

  lemma {:induction false} PeekMsbBound(data: seq<byte>, pos: nat, n: nat)
    ensures PeekMsb(data, pos, n) < Pow2(n)
    decreases n
  {
    if n > 0 {
      PeekMsbBound(data, pos, n - 1);
    }
  }

  lemma {:induction false} PeekSplit(data: seq<byte>, pos: nat, a: nat, b: nat)
    ensures Peek(data, pos, a + b) == Peek(data, pos, a) + Shl(Peek(data, pos + a, b), a)
    decreases a
  {
    if a > 0 {
      PeekSplit(data, pos + 1, a - 1, b);
      assert pos + 1 + (a - 1) == pos + a;
    }
  }

  /** Taking n of m buffered bits: the low n are the value, the rest stay buffered. */
  lemma PeekTake(data: seq<byte>, pos: nat, n: nat, m: nat)
    requires n <= m
    ensures Low(Peek(data, pos, m), n) == Peek(data, pos, n)
    ensures Shr(Peek(data, pos, m), n) == Peek(data, pos + n, m - n)
  {
    PeekSplit(data, pos, n, m - n);
    PeekBound(data, pos, n);
    JoinWord(Peek(data, pos, n), Peek(data, pos + n, m - n), n);
  }

  lemma {:induction false} PeekWithin(data: seq<byte>, k: nat, j: nat, n: nat)
    requires j + n <= 8
    ensures Peek(data, 8 * k + j, n) == Low(Shr(StreamByte(data, k), j), n)
    decreases n
  {
    if n > 0 {
      var v: nat := StreamByte(data, k);
      assert (8 * k + j) / 8 == k && (8 * k + j) % 8 == j;
      PeekWithin(data, k, j + 1, n - 1);
      ShrBit(v, j, 0);
      ShrShr(v, j, 1);
      assert Shr(Shr(v, j), 1) == Shr(Shr(v, j) / 2, 0);
    }
  }

  /** Appending the next byte (n bits that hold it) to m buffered bits that end on a byte boundary. */
  lemma PeekNextByte(data: seq<byte>, pos: nat, m: nat, k: nat, n: nat)
    requires pos + m == 8 * k && n <= 8 && StreamByte(data, k) < Pow2(n)
    ensures Peek(data, pos, m + n) == Peek(data, pos, m) + Shl(StreamByte(data, k), m)
  {
    PeekSplit(data, pos, m, n);
    var v: nat := StreamByte(data, k);
    PeekWithin(data, k, 0, n);
    assert Shr(v, 0) == v;
    LowSmall(v, n);
  }

  lemma Pow2Eight(n: nat)
    requires n == 8
    ensures Pow2(n) == 256
  {
    assert Pow2(4) == 16;
    assert Pow2(n - 4) == 16;
    Pow2Shl(4, 4);
  }

  lemma {:induction false} PeekMsbFront(data: seq<byte>, pos: nat, n: nat)
    requires n > 0
    ensures PeekMsb(data, pos, n) == Shl(StreamBit(data, pos), n - 1) + PeekMsb(data, pos + 1, n - 1)
    decreases n
  {
    if n == 1 {
      assert PeekMsb(data, pos, 0) == 0;
    } else {
      PeekMsbFront(data, pos, n - 1);
    }
  }

  /** The Huffman reading of n bits is the bit reversal of the data reading. */
  lemma {:induction false} PeekReverse(data: seq<byte>, pos: nat, n: nat)
    ensures Reverse(Peek(data, pos, n), n) == PeekMsb(data, pos, n)
    decreases n
  {
    hide Peek, PeekMsb, StreamBit, Shl;
    if n == 0 {
      PeekNothingEitherWay(data, pos, n);
    } else {
      PeekReverse(data, pos + 1, n - 1);
      PeekMsbFront(data, pos, n);
      PeekParts(data, pos, n);
    }
  }

  lemma PeekNothingEitherWay(data: seq<byte>, pos: nat, n: nat)
    requires n == 0
    ensures Peek(data, pos, n) == PeekMsb(data, pos, n) == 0
  {
  }

  lemma PeekParts(data: seq<byte>, pos: nat, n: nat)
    requires n > 0
    ensures Peek(data, pos, n) % 2 == StreamBit(data, pos) && Peek(data, pos, n) / 2 == Peek(data, pos + 1, n - 1)
  {
    hide StreamBit;
  }

  // ----- sequences -----

  lemma SubSlice<T>(c: seq<T>, a: nat, b: nat, i: nat, j: nat)
    requires a <= b <= |c| && i <= j <= b - a
    ensures c[a..b][i..j] == c[a + i..a + j]
  {
    var inner, outer := c[a..b][i..j], c[a + i..a + j];
    assert forall k :: 0 <= k < j - i ==> inner[k] == c[a + i + k] && outer[k] == c[a + i + k];
  }

  lemma ConcatAssoc<T>(a: seq<T>, b: seq<T>, c: seq<T>)
    ensures a + (b + c) == (a + b) + c
  {
  }
}
