/** stb_image's zlib decoder: a prefetching bit reader, two-level Huffman decoding, stored, fixed and
    dynamic blocks, and matches copied within a growing output buffer. It is proved against Deflate. */
module ZlibDecoder {
  import opened Bits
  import opened CanonicalCode
  import opened DecoderStops
  import opened Deflate
  import opened FixedRoom
  import opened HuffmanTable
  import BitReverseWord

  const LENGTH_BASE: seq<nat> := [
    3, 4, 5, 6, 7, 8, 9, 10, 11, 13, 15, 17, 19, 23, 27, 31, 35, 43, 51, 59,
    67, 83, 99, 115, 131, 163, 195, 227, 258, 0, 0]
  const LENGTH_EXTRA: seq<nat> := [
    0, 0, 0, 0, 0, 0, 0, 0, 1, 1, 1, 1, 2, 2, 2, 2, 3, 3, 3, 3, 4, 4, 4, 4, 5, 5, 5, 5, 0, 0, 0]
  const DIST_BASE: seq<nat> := [
    1, 2, 3, 4, 5, 7, 9, 13, 17, 25, 33, 49, 65, 97, 129, 193, 257, 385, 513, 769,
    1025, 1537, 2049, 3073, 4097, 6145, 8193, 12289, 16385, 24577, 0, 0]
  const DIST_EXTRA: seq<nat> := [
    0, 0, 0, 0, 1, 1, 2, 2, 3, 3, 4, 4, 5, 5, 6, 6, 7, 7, 8, 8, 9, 9, 10, 10, 11, 11, 12, 12, 13, 13, 0, 0]

  /** The length tables hold the values of section 3.2.5 of RFC 1951. */
  lemma LengthTables(sym: nat)
    requires 257 <= sym <= 285
    ensures LENGTH_BASE[sym - 257] == LengthBase(sym) && LENGTH_EXTRA[sym - 257] == LengthExtra(sym) <= 5
  {
    hide LengthBase, LengthExtra;
    if sym < 265 {
      ExactLengths(sym);
    } else if sym < 273 {
      ShortLengths(sym);
    } else if sym < 281 {
      MiddleLengths(sym);
    } else {
      LongLengths(sym);
    }
  }

  lemma ExactLengths(sym: nat)
    requires 257 <= sym <= 264
    ensures LENGTH_BASE[sym - 257] == LengthBase(sym) && LENGTH_EXTRA[sym - 257] == LengthExtra(sym) <= 5
  {
    hide Shl;
  }

  lemma ShortLengths(sym: nat)
    requires 265 <= sym <= 272
    ensures LENGTH_BASE[sym - 257] == LengthBase(sym) && LENGTH_EXTRA[sym - 257] == LengthExtra(sym) <= 5
  {
    hide Shl;
    ShlSmall(4 + (sym - 265) % 4);
  }

  lemma MiddleLengths(sym: nat)
    requires 273 <= sym <= 280
    ensures LENGTH_BASE[sym - 257] == LengthBase(sym) && LENGTH_EXTRA[sym - 257] == LengthExtra(sym) <= 5
  {
    hide Shl;
    ShlSmall(4 + (sym - 265) % 4);
  }

  lemma LongLengths(sym: nat)
    requires 281 <= sym <= 285
    ensures LENGTH_BASE[sym - 257] == LengthBase(sym) && LENGTH_EXTRA[sym - 257] == LengthExtra(sym) <= 5
  {
    hide Shl;
    if sym < 285 {
      ShlSmall(4 + (sym - 265) % 4);
    }
  }

  /** The distance tables hold the values of section 3.2.5 of RFC 1951. */
  lemma DistTables(sym: nat)
    requires sym <= 29
    ensures DIST_BASE[sym] == DistBase(sym) && DIST_EXTRA[sym] == DistExtra(sym) <= 13
  {
    hide DistBase, DistExtra;
    if sym < 8 {
      ShortDistances(sym);
    } else if sym < 16 {
      MiddleDistances(sym);
    } else if sym < 24 {
      LongDistances(sym);
    } else {
      LongestDistances(sym);
    }
  }

  lemma ShortDistances(sym: nat)
    requires sym <= 7
    ensures DIST_BASE[sym] == DistBase(sym) && DIST_EXTRA[sym] == DistExtra(sym) <= 13
  {
    hide Shl;
    ShlSmall(2 + sym % 2);
  }

  lemma MiddleDistances(sym: nat)
    requires 8 <= sym <= 15
    ensures DIST_BASE[sym] == DistBase(sym) && DIST_EXTRA[sym] == DistExtra(sym) <= 13
  {
    hide Shl;
    ShlSmall(2 + sym % 2);
  }

  lemma LongDistances(sym: nat)
    requires 16 <= sym <= 23
    ensures DIST_BASE[sym] == DistBase(sym) && DIST_EXTRA[sym] == DistExtra(sym) <= 13
  {
    hide Shl;
    ShlSmall(2 + sym % 2);
  }

  lemma LongestDistances(sym: nat)
    requires 24 <= sym <= 29
    ensures DIST_BASE[sym] == DistBase(sym) && DIST_EXTRA[sym] == DistExtra(sym) <= 13
  {
    hide Shl;
    ShlSmall(2 + sym % 2);
  }

  lemma ShlSmall(x: nat)
    ensures Shl(x, 0) == x && Shl(x, 1) == 2 * x && Shl(x, 2) == 4 * x && Shl(x, 3) == 8 * x
    ensures Shl(x, 4) == 16 * x && Shl(x, 5) == 32 * x && Shl(x, 6) == 64 * x && Shl(x, 7) == 128 * x
    ensures Shl(x, 8) == 256 * x && Shl(x, 9) == 512 * x && Shl(x, 10) == 1024 * x && Shl(x, 11) == 2048 * x
    ensures Shl(x, 12) == 4096 * x && Shl(x, 13) == 8192 * x
  {
    assert Shl(x, 2) == 2 * Shl(x, 1);
    assert Shl(x, 4) == 4 * Shl(x, 2);
    assert Shl(x, 6) == 4 * Shl(x, 4);
    assert Shl(x, 8) == 4 * Shl(x, 6);
    assert Shl(x, 10) == 4 * Shl(x, 8);
    assert Shl(x, 12) == 4 * Shl(x, 10);
  }

  /** The smallest limit * 2^k that has room for need bytes. */
  function DoubledLimit(limit: nat, need: nat): (r: nat)
    requires limit > 0
    ensures need <= r && limit <= r
    ensures r == limit || r < 2 * need
    decreases need - limit
  {
    if need <= limit then limit else DoubledLimit(2 * limit, need)
  }

  // ----- table lookups on stream bits -----

  /** An index of the fast table taken from the stream hits symbol i exactly when i's code is there. */
  lemma FastIndex(lens: seq<nat>, data: seq<byte>, pos: nat, m: nat, i: nat)
    requires Fits(lens, MAX_BITS) && i < |lens| && lens[i] <= ZFAST_BITS <= m
    ensures FastHit(lens, i, Low(Peek(data, pos, m), ZFAST_BITS)) <==> CodeAt(lens, data, pos, i)
  {
    if lens[i] > 0 {
      var s := lens[i];
      var k := Low(Peek(data, pos, m), ZFAST_BITS);
      FastHitCode(lens, i, k);
      PeekTake(data, pos, ZFAST_BITS, m);
      PeekTake(data, pos, s, ZFAST_BITS);
      ReverseLowBits(k, s);
      PeekReverse(data, pos, s);
    }
  }

  /** If the next l bits are below the end of the codes of length l, some code of at most l bits is there. */
  lemma {:induction false} ShortCodePresent(lens: seq<nat>, data: seq<byte>, pos: nat, l: nat) returns (i: nat)
    requires 1 <= l && PeekMsb(data, pos, l) < EndCode(lens, l)
    ensures i < |lens| && lens[i] <= l && CodeAt(lens, data, pos, i)
    decreases l
  {
    var c := PeekMsb(data, pos, l);
    if c >= FirstCode(lens, l) {
      i := CountReached(lens, |lens|, l, c - FirstCode(lens, l));
    } else {
      i := ShortCodePresent(lens, data, pos, l - 1);
    }
  }

  /** The slow path compares the next 16 bits, MSB first, with preshifted limits. */
  lemma SlowCompare(lens: seq<nat>, data: seq<byte>, pos: nat, s: nat)
    requires s <= 16
    ensures PeekMsb(data, pos, 16) < Shl(EndCode(lens, s), 16 - s) <==> PeekMsb(data, pos, s) < EndCode(lens, s)
  {
    MsbPrefix(data, pos, s, 16);
    ShrBelow(PeekMsb(data, pos, 16), EndCode(lens, s), 16 - s);
  }

  /** The symbol the slow path lands on: the stream holds its code. */
  lemma SlowSymbol(lens: seq<nat>, data: seq<byte>, pos: nat, s: nat) returns (i: nat)
    requires 2 <= s && EndCode(lens, s - 1) <= PeekMsb(data, pos, s - 1) && PeekMsb(data, pos, s) < EndCode(lens, s)
    ensures FirstCode(lens, s) <= PeekMsb(data, pos, s)
    ensures i < |lens| && lens[i] == s && CodeAt(lens, data, pos, i)
    ensures SlotOf(lens, i) == PeekMsb(data, pos, s) - FirstCode(lens, s) + SymbolBase(lens, s)
  {
    assert PeekMsb(data, pos, s) >= 2 * PeekMsb(data, pos, s - 1);
    i := CountReached(lens, |lens|, s, PeekMsb(data, pos, s) - FirstCode(lens, s));
  }

  /** The static default tables, filled in on first use. */
  class FixedTables {
    const length: array<nat>
    const distance: array<nat>

    ghost predicate Valid()
      reads length, distance
    {
      && length.Length == 288 && distance.Length == 32 && length != distance
      && (distance[31] == 0 || Ready())
    }

    ghost predicate Ready()
      reads length, distance
    {
      length[..] == FixedLit() && distance[..] == FixedDist()
    }

    constructor ()
      ensures Valid() && fresh(length) && fresh(distance)
    {
      length := new nat[288];
      distance := new nat[32](_ => 0);
    }

    method Init()
      requires Valid()
      modifies length, distance
      ensures Valid() && Ready()
    {
      for i := 0 to 144
        modifies length
        invariant forall j :: 0 <= j < i ==> length[j] == FixedLit()[j]
      {
        length[i] := 8;
      }
      for i := 144 to 256
        modifies length
        invariant forall j :: 0 <= j < i ==> length[j] == FixedLit()[j]
      {
        length[i] := 9;
      }
      for i := 256 to 280
        modifies length
        invariant forall j :: 0 <= j < i ==> length[j] == FixedLit()[j]
      {
        length[i] := 7;
      }
      for i := 280 to 288
        modifies length
        invariant forall j :: 0 <= j < i ==> length[j] == FixedLit()[j]
      {
        length[i] := 8;
      }
      assert length[..] == FixedLit();
      for i := 0 to 32
        modifies distance
        invariant forall j :: 0 <= j < i ==> distance[j] == 5
      {
        distance[i] := 5;
      }
      assert distance[..] == FixedDist();
    }
  }

  class ZBuf {
    const data: seq<byte>
    var zbuffer: nat
    var numBits: nat
    var codeBuffer: nat
    /** The number of stream bits consumed, and of bytes fetched (zeros past the end included). */
    ghost var pos: nat
    ghost var fetched: nat

    var zstart: array<byte>
    var zout: nat
    const expandable: bool

    const zLength: ZHuffman
    const zDistance: ZHuffman
    const defaults: FixedTables

    ghost predicate Valid()
      reads this, defaults.length, defaults.distance
    {
      && zout <= zstart.Length && (expandable ==> zstart.Length > 0)
      && zLength.Shape() && zDistance.Shape() && defaults.Valid()
      && zLength.Repr !! zDistance.Repr
      && defaults.length !in zLength.Repr + zDistance.Repr && defaults.distance !in zLength.Repr + zDistance.Repr
      && zstart as object !in zLength.Repr + zDistance.Repr + {defaults.length, defaults.distance}
      && Buffered()
    }

    /** The buffered bits are the next bits of the stream, and the rest of it starts at zbuffer. */
    ghost predicate Buffered()
      reads `zbuffer, `numBits, `codeBuffer, `pos, `fetched
    {
      && numBits <= 32 && codeBuffer == Peek(data, pos, numBits)
      && pos + numBits == 8 * fetched
      && zbuffer == if fetched < |data| then fetched else |data|
    }

    /** The reference reaches a verdict; or the buffer cannot grow, and is full before the limit is reached. */
    ghost predicate Bounded<T>(r: Outcome<T>, limit: nat)
      reads this
    {
      r.Decided() || (r.Truncated? && !expandable && Slack(limit))
    }

    ghost predicate FixedEnough<T>(r: Outcome<T>, limit: nat)
      reads this
    {
      r.Truncated? && !expandable && Enough(|data|, zstart.Length) <= limit
    }

    /** At 48 bits for each byte there is still room for, and for one more, the limit is not reached. */
    ghost predicate Slack(limit: nat)
      reads this
    {
      zout <= zstart.Length && pos + 48 * (zstart.Length + 1 - zout) <= limit
    }

    /** The room for output: as much as needed, or the size of the buffer. */
    function RoomOf(): Room
      reads this
    {
      if expandable then Growable else Fixed(zstart.Length)
    }

    function Out(): seq<byte>
      requires zout <= zstart.Length
      reads this, zstart
    {
      zstart[..zout]
    }

    constructor (data: seq<byte>, obuf: array<byte>, exp: bool, defaults: FixedTables)
      requires defaults.Valid() && (exp ==> obuf.Length > 0)
      requires obuf as object != defaults.length && obuf as object != defaults.distance
      ensures Valid() && this.data == data && zstart == obuf && zout == 0 && expandable == exp && pos == 0
      ensures this.defaults == defaults && zbuffer == 0 && numBits == 0
      ensures fresh(zLength.Repr) && fresh(zDistance.Repr)
    {
      this.data := data;
      zbuffer, numBits, codeBuffer, pos, fetched := 0, 0, 0, 0, 0;
      zstart, zout, expandable := obuf, 0, exp;
      zLength := new ZHuffman();
      zDistance := new ZHuffman();
      this.defaults := defaults;
    }

    // ----- the bit reader -----

    method Zget8() returns (b: byte)
      modifies this`zbuffer
      ensures b == StreamByte(data, old(zbuffer))
      ensures zbuffer == if old(zbuffer) >= |data| then old(zbuffer) else old(zbuffer) + 1
    {
      if zbuffer >= |data| {
        return 0;
      }
      b := data[zbuffer];
      zbuffer := zbuffer + 1;
    }

    /** Prefetch bytes until more than 24 bits are buffered. */
    method FillBits()
      requires Buffered() && numBits <= 24
      modifies this`zbuffer, this`numBits, this`codeBuffer, this`fetched
      ensures Buffered() && numBits > 24
    {
      hide Peek, Shl, BitOr;
      while true
        invariant Buffered() && numBits <= 24
        decreases 32 - numBits
      {
        PeekBound(data, pos, numBits);
        ShlOne(numBits);
        assert codeBuffer < Shl(1, numBits);
        var b := Zget8();
        PeekNextByte(data, pos, numBits, fetched, 8);
        OrAbove(codeBuffer, b, numBits);
        codeBuffer := BitOr(codeBuffer, Shl(b, numBits));
        fetched := fetched + 1;
        numBits := numBits + 8;
        if numBits > 24 {
          break;
        }
      }
    }

    /** The next n bits of the stream as a number, least significant bit first. */
    method Receive(n: nat) returns (k: nat)
      requires Buffered() && n <= 24
      modifies this`zbuffer, this`numBits, this`codeBuffer, this`pos, this`fetched
      ensures Buffered() && pos == old(pos) + n
      ensures k == Peek(data, old(pos), n) && k < Pow2(n)
      ensures n <= old(numBits) ==> numBits == old(numBits) - n
      ensures numBits <= 32 - n
    {
      hide Peek, Low, BitAnd, Shl, Pow2;
      if numBits < n {
        FillBits();
      }
      ShlOne(n);
      AndMask(codeBuffer, n);
      PeekTake(data, pos, n, numBits);
      PeekBound(data, pos, n);
      k := BitAnd(codeBuffer, Shl(1, n) - 1);
      Consume(n);
    }

    method Consume(n: nat)
      requires Buffered() && n <= numBits
      modifies this`numBits, this`codeBuffer, this`pos
      ensures Buffered() && pos == old(pos) + n && numBits == old(numBits) - n
    {
      PeekTake(data, pos, n, numBits);
      codeBuffer := Shr(codeBuffer, n);
      numBits := numBits - n;
      pos := pos + n;
    }

    /** zhuffman_decode: the same symbol and the same number of bits as the bit-at-a-time decoder. */
    method HuffmanDecode(z: ZHuffman, ghost lens: seq<nat>) returns (r: int)
      requires Buffered() && z.Represents(lens)
      modifies this`zbuffer, this`numBits, this`codeBuffer, this`pos, this`fetched
      ensures Buffered()
      ensures match DecodeSymbol(lens, data, old(pos), MAX_BITS)
              case Invalid => r == -1 && pos == old(pos)
              case Symbol(sym, n) => r == sym && pos == old(pos) + n
    {
      hide DecodeSymbol, Peek, CodeOf, SlotOf, Shl, Low;
      if numBits < 16 {
        FillBits();
      }
      DecodeExact(lens, data, pos, MAX_BITS);
      AndMask(codeBuffer, ZFAST_BITS);
      assert Pow2(9) == 512;
      LowBound(codeBuffer, ZFAST_BITS);
      var k := BitAnd(codeBuffer, ZFAST_SIZE - 1);
      var b := z.fast[k];
      if b < NO_ENTRY {
        ghost var i :| 0 <= i < |lens| && FastHit(lens, i, k);
        FastIndex(lens, data, pos, numBits, i);
        var s := z.size[b];
        Consume(s);
        return z.value[b];
      }
      r := SlowDecode(z, lens, k);
    }

    method SlowDecode(z: ZHuffman, ghost lens: seq<nat>, ghost k9: nat) returns (r: int)
      requires Buffered() && z.Represents(lens) && 16 <= numBits
      requires k9 == Low(codeBuffer, ZFAST_BITS) < ZFAST_SIZE && z.fast[k9] == NO_ENTRY
      modifies this`numBits, this`codeBuffer, this`pos
      ensures Buffered()
      ensures match DecodeSymbol(lens, data, old(pos), MAX_BITS)
              case Invalid => r == -1 && pos == old(pos)
              case Symbol(sym, n) => r == sym && pos == old(pos) + n
    {
      hide EndCode, FirstCode, SymbolBase, CodeOf, SlotOf, PeekMsb, Peek, Shl, Shr, Low, DecodeSymbol, CodeAt,
           z.Fast, z.Symbols;
      DecodeExact(lens, data, pos, MAX_BITS);
      NoShortCode(z, lens, k9);
      var k := BitReverseWord.BitReverse(codeBuffer, 16);
      StreamReversed(data, pos, numBits, 16);
      assert k == PeekMsb(data, pos, 16);
      var s := ZFAST_BITS + 1;
      PeekMsbBound(data, pos, 16);
      BitReverseWord.Pow2Sixteen(16);
      while k >= z.maxcode[s]
        modifies {}
        invariant ZFAST_BITS < s <= 16
        invariant forall l :: ZFAST_BITS <= l < s ==> EndCode(lens, l) <= PeekMsb(data, pos, l)
        decreases 16 - s
      {
        SlowCompare(lens, data, pos, s);
        s := s + 1;
      }
      if s == 16 {
        forall i | 0 <= i < |lens|
          ensures !CodeAt(lens, data, pos, i)
        {
          CodeInRange(lens, i);
        }
        return -1;
      }
      ghost var i := SlowSlot(z, lens, s);
      var b := Shr(k, 16 - s) - z.firstcode[s] + z.firstsymbol[s];
      assert z.size[b] == s;
      Consume(s);
      return z.value[b];
    }

    /** Without an entry in the fast table, no code of up to nine bits is there. */
    lemma NoShortCode(z: ZHuffman, lens: seq<nat>, k9: nat)
      requires Buffered() && z.Represents(lens) && 16 <= numBits
      requires k9 == Low(codeBuffer, ZFAST_BITS) < ZFAST_SIZE && z.fast[k9] == NO_ENTRY
      ensures forall i :: 0 <= i < |lens| && lens[i] <= ZFAST_BITS ==> !CodeAt(lens, data, pos, i)
      ensures EndCode(lens, ZFAST_BITS) <= PeekMsb(data, pos, ZFAST_BITS)
    {
      hide EndCode, FirstCode, SymbolBase, CodeOf, SlotOf, PeekMsb, Peek, Shl, Shr, Low, CodeAt;
      forall i | 0 <= i < |lens| && lens[i] <= ZFAST_BITS
        ensures !CodeAt(lens, data, pos, i)
      {
        FastIndex(lens, data, pos, numBits, i);
      }
      if PeekMsb(data, pos, ZFAST_BITS) < EndCode(lens, ZFAST_BITS) {
        var i := ShortCodePresent(lens, data, pos, ZFAST_BITS);
        assert false;
      }
    }

    /** Where the search stops, the arithmetic on the code gives the slot of a symbol whose code is there. */
    lemma SlowSlot(z: ZHuffman, lens: seq<nat>, s: nat) returns (i: nat)
      requires z.Represents(lens) && ZFAST_BITS < s <= MAX_BITS && PeekMsb(data, pos, 16) < z.maxcode[s]
      requires EndCode(lens, s - 1) <= PeekMsb(data, pos, s - 1)
      ensures i < |lens| && lens[i] == s && CodeAt(lens, data, pos, i)
      ensures var b := Shr(PeekMsb(data, pos, 16), 16 - s) - z.firstcode[s] + z.firstsymbol[s];
              0 <= b < |lens| && z.size[b] == s && z.value[b] == i
    {
      hide EndCode, FirstCode, SymbolBase, CodeOf, SlotOf, PeekMsb, Shl, Shr;
      SlowCompare(lens, data, pos, s);
      i := SlowSymbol(lens, data, pos, s);
      MsbPrefix(data, pos, s, 16);
    }

    // ----- the output buffer -----

    /** Make room for n more bytes by doubling the buffer, if it may grow at all. */
    method Expand(n: nat) returns (ok: bool)
      requires zout <= zstart.Length && (expandable ==> zstart.Length > 0)
      modifies this`zstart
      ensures ok == expandable
      ensures !ok ==> zstart == old(zstart)
      ensures ok ==> fresh(zstart) && zstart.Length == DoubledLimit(old(zstart.Length), zout + n)
      ensures ok ==> zstart[..old(zstart.Length)] == old(zstart[..])
    {
      if !expandable {
        return false;
      }
      var limit := zstart.Length;
      while zout + n > limit
        modifies {}
        invariant limit > 0 && DoubledLimit(limit, zout + n) == DoubledLimit(zstart.Length, zout + n)
        decreases zout + n - limit
      {
        limit := 2 * limit;
      }
      var q := new byte[limit];
      forall i | 0 <= i < zstart.Length {
        q[i] := zstart[i];
      }
      zstart := q;
      return true;
    }

    /** Room for n more bytes: there already, or made by Expand. */
    method MakeRoom(n: nat) returns (ok: bool)
      requires Valid()
      modifies this`zstart
      ensures Valid() && Out() == old(Out())
      ensures ok <==> expandable || zout + n <= old(zstart.Length)
      ensures ok ==> zout + n <= zstart.Length
      ensures zstart == old(zstart) || (expandable && fresh(zstart))
    {
      if zout + n > zstart.Length {
        ok := Expand(n);
        if ok {
          assert zstart[..zout] == zstart[..old(zstart.Length)][..zout];
        }
      } else {
        ok := true;
      }
    }

    method PutByte(b: byte)
      requires Valid() && zout < zstart.Length
      modifies this`zout, zstart
      ensures Valid() && Out() == old(Out()) + [b]
    {
      zstart[zout] := b;
      zout := zout + 1;
    }

    lemma CopyOneByte(out: seq<byte>, dist: nat, len: nat)
      requires 1 <= dist <= |out| && len > 0
      ensures CopyMatch(out, dist, len) == CopyMatch(out + [out[|out| - dist]], dist, len - 1)
    {
    }

    /** The LZ77 copy: source and destination may overlap. */
    method CopyBytes(dist: nat, len: nat)
      requires Valid() && 1 <= dist <= zout && zout + len <= zstart.Length
      modifies this`zout, zstart
      ensures Valid() && Out() == CopyMatch(old(Out()), dist, len)
    {
      hide CopyMatch, Buffered;
      var p := zout - dist;
      var left := len;
      while left > 0
        invariant Valid() && p == zout - dist && 1 <= dist <= zout && zout + left <= zstart.Length
        invariant CopyMatch(Out(), dist, left) == CopyMatch(old(Out()), dist, len)
        decreases left
      {
        CopyOneByte(Out(), dist, left);
        assert zstart[p] == Out()[|Out()| - dist];
        PutByte(zstart[p]);
        p := p + 1;
        left := left - 1;
      }
    }

    // ----- blocks -----

    /** After a length symbol: the extra length bits, the distance code and its extra bits. */
    method ReadMatch(sym: nat, ghost dist: seq<nat>, ghost limit: nat) returns (z: int, len: nat, distance: nat)
      requires Buffered() && zDistance.Represents(dist) && 257 <= sym <= 285
      requires Match(dist, data, pos, sym, zout, limit).Decided()
      modifies this`zbuffer, this`numBits, this`codeBuffer, this`pos, this`fetched
      ensures Buffered()
      ensures match Match(dist, data, old(pos), sym, zout, limit)
              case Accept((l, d), q) => z >= 0 && len == l && distance == d && distance <= zout && pos == q
              case _ => z < 0 || distance > zout
    {
      hide DecodeSymbol, LengthBase, LengthExtra, DistBase, DistExtra, Peek, Match, Buffered, zDistance.Represents;
      MatchCases(dist, data, pos, sym, zout, limit);
      LengthTables(sym);
      distance := 0;
      len := WithExtra(LENGTH_BASE[sym - 257], LENGTH_EXTRA[sym - 257]);
      z := HuffmanDecode(zDistance, dist);
      if z < 0 {
        return;
      }
      DistTables(z);
      distance := WithExtra(DIST_BASE[z], DIST_EXTRA[z]);
    }

    /** A base value and its extra bits, if it has any. */
    method WithExtra(base: nat, bits: nat) returns (v: nat)
      requires Buffered() && bits <= 24
      modifies this`zbuffer, this`numBits, this`codeBuffer, this`pos, this`fetched
      ensures Buffered() && pos == old(pos) + bits && v == base + Peek(data, old(pos), bits)
    {
      hide Peek, Buffered, Pow2;
      v := base;
      if bits != 0 {
        var extra := Receive(bits);
        v := v + extra;
      } else {
        PeekNothing(data, pos);
      }
    }

    method AppendLiteral(b: byte) returns (ok: bool)
      requires Valid()
      modifies this`zstart, this`zout, zstart
      ensures Valid()
      ensures zstart == old(zstart) || (expandable && fresh(zstart))
      ensures ok <==> expandable || old(zout) + 1 <= old(zstart.Length)
      ensures ok ==> Out() == old(Out()) + [b]
    {
      ok := MakeRoom(1);
      if ok {
        PutByte(b);
      }
    }

    /** Decode the match that length symbol sym starts, and append it. */
    method AppendMatch(sym: nat, ghost dist: seq<nat>, ghost limit: nat) returns (ok: bool)
      requires Valid() && zDistance.Represents(dist) && 257 <= sym <= 285
      requires Match(dist, data, pos, sym, zout, limit).Decided()
      modifies this, zstart
      ensures Valid()
      ensures zstart == old(zstart) || (expandable && fresh(zstart))
      ensures match Match(dist, data, old(pos), sym, old(zout), limit)
              case Accept((len, distance), q) =>
                && (ok <==> expandable || old(zout) + len <= old(zstart.Length))
                && (ok ==> Out() == CopyMatch(old(Out()), distance, len) && pos == q)
              case _ => !ok
    {
      hide Match, CopyMatch, Peek, zDistance.Represents;
      var d, len, distance := ReadMatch(sym, dist, limit);
      if d < 0 || zout < distance {
        return false;
      }
      ok := MakeRoom(len);
      if ok {
        CopyBytes(distance, len);
      }
    }

    /** One literal, match or end-of-block symbol. */
    method HuffmanRound(ghost lit: seq<nat>, ghost dist: seq<nat>, ghost limit: nat) returns (round: Round)
      requires Valid() && zLength.Represents(lit) && zDistance.Represents(dist)
      requires Bounded(Body(lit, dist, data, pos, Out(), limit), limit)
      modifies this, zstart
      ensures Valid()
      ensures zstart == old(zstart) || (expandable && fresh(zstart))
      ensures var r := Body(lit, dist, data, old(pos), old(Out()), limit);
              match round
              case More => old(pos) < pos <= limit && r == Body(lit, dist, data, pos, Out(), limit) && Bounded(r, limit)
              case Done => r == Accept(Out(), pos)
              case Failed => r.Accept? ==> !expandable && |r.value| > old(zstart.Length)
    {
      hide Body, Match, DecodeSymbol, CopyMatch, Peek, zLength.Represents;
      BodyStep(lit, dist, data, pos, Out(), limit);
      var z := HuffmanDecode(zLength, lit);
      var ok;
      if z < 256 {
        if z < 0 {
          return Failed;
        }
        ok := AppendLiteral(z);
      } else {
        if z == 256 {
          return Done;
        }
        MatchBits(dist, data, pos, z, zout, limit);
        ok := AppendMatch(z, dist, limit);
      }
      round := if ok then More else Failed;
    }

    method ParseHuffmanBlock(ghost lit: seq<nat>, ghost dist: seq<nat>, ghost limit: nat) returns (st: Status)
      requires Valid() && zLength.Represents(lit) && zDistance.Represents(dist)
      requires Bounded(Body(lit, dist, data, pos, Out(), limit), limit)
      modifies this, zstart
      ensures Valid()
      ensures zstart == old(zstart) || (expandable && fresh(zstart))
      ensures var r := Body(lit, dist, data, old(pos), old(Out()), limit);
              && st != AssertFailed
              && (st == Success <==> r.Accept? && (expandable || |r.value| <= old(zstart.Length)))
              && (st == Success ==> Out() == r.value && pos == r.pos)
    {
      hide Body, Peek, zLength.Represents;
      ghost var r := Body(lit, dist, data, pos, Out(), limit);
      while true
        invariant Valid() && zLength.Represents(lit) && zDistance.Represents(dist)
        invariant zstart == old(zstart) || (expandable && fresh(zstart))
        invariant r == Body(lit, dist, data, pos, Out(), limit) && Bounded(r, limit)
        decreases limit - pos
      {
        var round := HuffmanRound(lit, dist, limit);
        if round == Done {
          return Success;
        } else if round == Failed {
          return Failure;
        }
      }
    }

    /** A stored block: drop the bits up to the byte boundary, empty the bit buffer into the header. */
    method ParseUncompressedBlock(ghost limit: nat) returns (st: Status)
      requires Valid() && numBits <= 31
      requires Stored(data, pos, Out(), limit).Decided()
      modifies this, zstart
      ensures Valid()
      ensures zstart == old(zstart) || (expandable && fresh(zstart))
      ensures var r := Stored(data, old(pos), old(Out()), limit);
              && st != AssertFailed
              && (st == Success <==> r.Accept? && (expandable || |r.value| <= old(zstart.Length)))
              && (st == Success ==> Out() == r.value && pos == r.pos)
    {
      hide Stored, Peek, StoredLen, Buffered;
      StoredCases(data, pos, Out(), limit);
      var sound, len := ReadStoredLength();
      if !sound || zbuffer + len > |data| {
        return Failure;
      }
      var ok := MakeRoom(len);
      if !ok {
        return Failure;
      }
      CopyInput(len);
      return Success;
    }

    /** The length of a stored block, and whether its complement follows it. */
    method ReadStoredLength() returns (sound: bool, len: nat)
      requires Buffered() && numBits <= 31
      modifies this`zbuffer, this`numBits, this`codeBuffer, this`pos, this`fetched
      ensures var p := (old(pos) + 7) / 8;
              && Buffered() && numBits == 0 && pos == 8 * (p + 4)
              && zbuffer == (if p + 4 < |data| then p + 4 else |data|)
              && len == StoredLen(data, p) && (sound <==> StoredLen(data, p + 2) == 65535 - len)
    {
      hide Peek, BitXor, StreamByte;
      var header := ReadStoredHeader();
      len := header[1] as int * 256 + header[0];
      var nlen: nat := header[3] as int * 256 + header[2];
      XorComplement(len);
      sound := nlen == BitXor(len, 0xffff);
    }

    /** Drop the bits before the next byte boundary. */
    method AlignToByte()
      requires Buffered() && numBits <= 31
      modifies this`zbuffer, this`numBits, this`codeBuffer, this`pos, this`fetched
      ensures Buffered() && pos == 8 * ((old(pos) + 7) / 8) && numBits % 8 == 0 && numBits <= 24
    {
      hide Peek, BitAnd, Low, Buffered;
      ByteBoundary();
      AndMask(numBits, 3);
      LowThree(numBits, 3);
      if BitAnd(numBits, 7) != 0 {
        var _ := Receive(BitAnd(numBits, 7));
      }
    }

    /** All buffered bits above a multiple of eight come before the next byte boundary. */
    lemma ByteBoundary()
      requires Buffered()
      ensures pos + numBits % 8 == 8 * ((pos + 7) / 8)
    {
      hide Peek;
      assert pos + numBits % 8 == 8 * (fetched - numBits / 8);
    }

    /** The four header bytes: up to three come from the bit buffer, the others from the input. */
    method ReadStoredHeader() returns (header: array<byte>)
      requires Buffered() && numBits <= 31
      modifies this`zbuffer, this`numBits, this`codeBuffer, this`pos, this`fetched
      ensures Buffered() && numBits == 0 && pos == 8 * ((old(pos) + 7) / 8 + 4)
      ensures fresh(header) && header.Length == 4
      ensures forall j :: 0 <= j < 4 ==> header[j] == StreamByte(data, (old(pos) + 7) / 8 + j)
    {
      hide Peek, BitAnd, Buffered;
      ghost var p := (pos + 7) / 8;
      AlignToByte();
      header := new byte[4];
      var k := 0;
      while numBits > 0
        modifies this`numBits, this`codeBuffer, this`pos, header
        invariant Buffered() && numBits % 8 == 0 && pos == 8 * (p + k) && 8 * k + numBits <= 24
        invariant forall j :: 0 <= j < k ==> header[j] == StreamByte(data, p + j)
        decreases numBits
      {
        header[k] := TakeByte();
        k := k + 1;
      }
      while k < 4
        modifies this`zbuffer, this`pos, this`fetched, header
        invariant Buffered() && numBits == 0 && k <= 4 && pos == 8 * (p + k)
        invariant forall j :: 0 <= j < k ==> header[j] == StreamByte(data, p + j)
      {
        header[k] := NextByte();
        k := k + 1;
      }
    }

    /** A byte that is already in the bit buffer. */
    method TakeByte() returns (b: byte)
      requires Buffered() && numBits >= 8 && pos % 8 == 0
      modifies this`numBits, this`codeBuffer, this`pos
      ensures Buffered() && numBits == old(numBits) - 8 && pos == old(pos) + 8 && b == StreamByte(data, old(pos) / 8)
    {
      hide Peek, BitAnd;
      BufferedByte(8);
      b := BitAnd(codeBuffer, 255);
      Consume(8);
    }

    /** With nothing buffered, the next input byte is the next eight stream bits. */
    method NextByte() returns (b: byte)
      requires Buffered() && numBits == 0
      modifies this`zbuffer, this`pos, this`fetched
      ensures Buffered() && pos == old(pos) + 8 && b == StreamByte(data, old(pos) / 8)
    {
      hide Peek;
      PeekNothing(data, pos);
      b := Zget8();
      pos, fetched := pos + 8, fetched + 1;
      PeekNothing(data, pos);
    }

    /** A whole buffered byte at a byte boundary is the low byte of the bit buffer. */
    lemma BufferedByte(n: nat)
      requires Buffered() && n == 8 <= numBits && pos % 8 == 0
      ensures BitAnd(codeBuffer, 255) == StreamByte(data, pos / 8)
    {
      Pow2Eight(n);
      AndMask(codeBuffer, n);
      PeekTake(data, pos, n, numBits);
      PeekNextByte(data, pos, 0, pos / 8, n);
      assert Shl(StreamByte(data, pos / 8), 0) == StreamByte(data, pos / 8);
    }

    /** memcpy from the input to the output. */
    method CopyInput(len: nat)
      requires Valid() && numBits == 0 && zbuffer + len <= |data| && zout + len <= zstart.Length
      requires 8 * zbuffer == pos
      modifies this`zbuffer, this`zout, this`pos, this`fetched, zstart
      ensures Valid() && Out() == old(Out()) + data[old(zbuffer)..old(zbuffer) + len]
      ensures pos == old(pos) + 8 * len
    {
      hide Buffered;
      CopyFromInput(len);
      SkipInput(len);
      zout := zout + len;
    }

    method SkipInput(len: nat)
      requires Buffered() && numBits == 0 && zbuffer + len <= |data| && 8 * zbuffer == pos
      modifies this`zbuffer, this`pos, this`fetched
      ensures Buffered() && zbuffer == old(zbuffer) + len && pos == old(pos) + 8 * len
    {
      hide Peek;
      PeekNothing(data, pos);
      zbuffer := zbuffer + len;
      pos, fetched := pos + 8 * len, fetched + len;
      PeekNothing(data, pos);
    }

    method CopyFromInput(len: nat)
      requires zbuffer + len <= |data| && zout + len <= zstart.Length
      modifies zstart
      ensures zstart[..zout + len] == old(zstart[..zout]) + data[zbuffer..zbuffer + len]
    {
      forall i | 0 <= i < len {
        zstart[zout + i] := data[zbuffer + i];
      }
    }

    /** Read the code lengths of a dynamic block and build both tables. */
    method ComputeHuffmanCodes(ghost limit: nat) returns (st: Status, ghost lit: seq<nat>, ghost dist: seq<nat>)
      requires Valid()
      requires DynamicHeader(data, pos, limit).Decided()
      modifies this`zbuffer, this`numBits, this`codeBuffer, this`pos, this`fetched, zLength.Repr, zDistance.Repr
      ensures Valid() && Out() == old(Out())
      ensures var r := DynamicHeader(data, old(pos), limit);
              && (st == Success <==> r.Accept?)
              && (st == Success ==> r == Accept((lit, dist), pos))
      ensures st == AssertFailed <==> HeaderStops(data, old(pos), limit)
      ensures st == Success ==> zLength.Represents(lit) && zDistance.Represents(dist)
    {
      hide DynamicHeader, HeaderStops, TooMany, KraftOk, Peek, zLength.Represents;
      var litLens, distLens;
      st, litLens, distLens := ReadDynamicLengths(limit);
      lit, dist := litLens, distLens;
      if st == Success {
        st := BuildTables(litLens, distLens);
      }
    }

    /** The code lengths a dynamic block header describes, before the two codes are built from them. */
    method ReadDynamicLengths(ghost limit: nat) returns (st: Status, lit: seq<nat>, dist: seq<nat>)
      requires Buffered()
      requires DynamicHeader(data, pos, limit).Decided()
      modifies this`zbuffer, this`numBits, this`codeBuffer, this`pos, this`fetched
      ensures Buffered()
      ensures |lit| <= MAX_SYMBOLS && |dist| <= MAX_SYMBOLS
      ensures ValidLengths(lit, MAX_BITS) && ValidLengths(dist, MAX_BITS)
      ensures DynamicHeader(data, old(pos), limit) ==
              if st == Success && KraftOk(lit) && KraftOk(dist) then Accept((lit, dist), pos) else Reject
      ensures HeaderStops(data, old(pos), limit) ==
              (st == AssertFailed || (st == Success && TablesStop(lit, dist)))
    {
      hide Lengths, Peek, KraftSum, CodeLengthLens, DecodeSymbol, DynamicHeader, ZHuffman.Represents, Buffered,
           ValidLengths, Low, Pow2, HeaderStops, TablesStop, NoLengthCode, Total;
      DynamicHeaderCases(data, pos, limit);
      HeaderStopsCases(data, pos, limit);
      ValidSlices([], 0, MAX_BITS);
      lit, dist := [], [];
      var hlit, hdist, hclen := ReadCounts();
      CodeLengthLensShape(data, pos, hclen);
      var sizes := ReadCodeLengthLens(hclen);
      var zCodelength := new ZHuffman();
      st := zCodelength.Build(sizes);
      if st != Success {
        return;
      }
      var lens;
      st, lens := ReadLengths(zCodelength, sizes, hlit + hdist, limit);
      if st == Success {
        ValidSlices(lens, hlit, MAX_BITS);
        lit, dist := lens[..hlit], lens[hlit..];
      }
    }

    method ReadCounts() returns (hlit: nat, hdist: nat, hclen: nat)
      requires Buffered()
      modifies this`zbuffer, this`numBits, this`codeBuffer, this`pos, this`fetched
      ensures Buffered() && pos == old(pos) + 14 && hlit == Peek(data, old(pos), 5) + 257
      ensures hdist == Peek(data, old(pos) + 5, 5) + 1 && hclen == Peek(data, old(pos) + 10, 4) + 4
    {
      hide Peek, Buffered, Pow2;
      hlit := Receive(5);
      hdist := Receive(5);
      hclen := Receive(4);
      hlit, hdist, hclen := hlit + 257, hdist + 1, hclen + 4;
    }

    method BuildTables(lit: seq<nat>, dist: seq<nat>) returns (st: Status)
      requires Valid() && |lit| <= MAX_SYMBOLS && |dist| <= MAX_SYMBOLS
      requires ValidLengths(lit, MAX_BITS) && ValidLengths(dist, MAX_BITS)
      modifies zLength.Repr, zDistance.Repr
      ensures Valid() && Out() == old(Out())
      ensures st == Success <==> KraftOk(lit) && KraftOk(dist)
      ensures st == AssertFailed <==> TablesStop(lit, dist)
      ensures st == Success ==> zLength.Represents(lit) && zDistance.Represents(dist)
    {
      hide KraftSum, Total, zLength.Represents, Peek;
      NotBoth(lit);
      st := zLength.Build(lit);
      if st == Success {
        st := zDistance.Build(dist);
      }
    }

    /** The lengths of the code length alphabet, three bits each, in the zigzag order. */
    method ReadCodeLengthLens(n: nat) returns (lens: seq<nat>)
      requires Buffered() && n <= 19
      modifies this`zbuffer, this`numBits, this`codeBuffer, this`pos, this`fetched
      ensures Buffered() && pos == old(pos) + 3 * n && lens == CodeLengthLens(data, old(pos), n)
    {
      hide Peek;
      var sizes := new nat[19](_ => 0);
      assert sizes[..] == CodeLengthLens(data, pos, 0);
      for i := 0 to n
        modifies this`zbuffer, this`numBits, this`codeBuffer, this`pos, this`fetched, sizes
        invariant Buffered() && pos == old(pos) + 3 * i
        invariant sizes[..] == CodeLengthLens(data, old(pos), i)
      {
        var s := Receive(3);
        sizes[CODE_LENGTH_ORDER[i]] := s;
      }
      lens := sizes[..];
    }

    /** The code lengths themselves; the array leaves room for one operation past the largest total. */
    method ReadLengths(z: ZHuffman, ghost cl: seq<nat>, total: nat, ghost limit: nat)
      returns (st: Status, lens: seq<nat>)
      requires Buffered() && z.Represents(cl) && |cl| == 19 && total <= 286 + 32 && pos <= limit
      requires Lengths(cl, data, pos, total, [], limit).Decided()
      modifies this`zbuffer, this`numBits, this`codeBuffer, this`pos, this`fetched
      ensures Buffered() && ValidLengths(lens, MAX_BITS)
      ensures match Lengths(cl, data, old(pos), total, [], limit)
              case Accept(l, q) => st == Success && lens == l && pos == q
              case _ => st != Success
      ensures st == AssertFailed <==> NoLengthCode(cl, data, old(pos), total, [], limit)
    {
      hide Lengths, LengthOp, DecodeSymbol, NoLengthCode, Peek, z.Represents;
      LengthsDone(cl, data, total, limit);
      lens := [];
      var lencodes := new nat[286 + 32 + 137];
      var n := 0;
      ghost var r, stops := Lengths(cl, data, pos, total, [], limit), NoLengthCode(cl, data, pos, total, [], limit);
      assert lencodes[..0] == [];
      while n < total
        modifies this`zbuffer, this`numBits, this`codeBuffer, this`pos, this`fetched, lencodes
        invariant Buffered() && n <= lencodes.Length && pos <= limit
        invariant ValidLengths(lencodes[..n], MAX_BITS)
        invariant r == Lengths(cl, data, pos, total, lencodes[..n], limit)
        invariant stops == NoLengthCode(cl, data, pos, total, lencodes[..n], limit)
        decreases limit - pos
      {
        LengthsStep(cl, data, pos, total, lencodes[..n], limit);
        NoLengthCodeStep(cl, data, pos, total, lencodes[..n], limit);
        var c := HuffmanDecode(z, cl);
        if !(0 <= c < 19) {
          return AssertFailed, [];
        }
        n := AppendLengthOp(c, lencodes, n);
      }
      NoLengthCodeDone(cl, data, pos, total, lencodes[..n], limit);
      if n != total {
        return Failure, [];
      }
      return Success, lencodes[..n];
    }

    /** Append the lengths that code length symbol c stands for. */
    method AppendLengthOp(c: nat, lencodes: array<nat>, n: nat) returns (m: nat)
      requires Buffered() && c < 19 && n + 138 <= lencodes.Length && (c == 16 ==> n > 0)
      modifies this`zbuffer, this`numBits, this`codeBuffer, this`pos, this`fetched, lencodes
      ensures Buffered() && pos == old(pos) + LengthOpBits(c) && n <= m <= lencodes.Length
      ensures lencodes[..m] == old(lencodes[..n]) + LengthOp(c, data, old(pos), old(lencodes[..n]))
    {
      hide Peek, Buffered;
      assert Pow2(2) == 4 && Pow2(3) == 8 && Pow2(7) == 128;
      if c < 16 {
        lencodes[n] := c;
        m := n + 1;
      } else if c == 16 {
        var count := Receive(2);
        m := FillRange(lencodes, n, lencodes[n - 1], count + 3);
      } else if c == 17 {
        var count := Receive(3);
        m := FillRange(lencodes, n, 0, count + 3);
      } else {
        var count := Receive(7);
        m := FillRange(lencodes, n, 0, count + 11);
      }
    }

    // ----- the whole stream -----

    method ParseZlibHeader() returns (st: Status)
      requires Valid() && zbuffer == 0 && numBits == 0 && pos == 0
      modifies this`zbuffer, this`pos, this`fetched
      ensures Valid() && Out() == old(Out())
      ensures st == if HeaderOk(data) then Success else Failure
      ensures st == Success ==> pos == 16
    {
      hide Peek, BitAnd;
      var cmf := NextByte();
      var cm := BitAnd(cmf, 15);
      var flg := NextByte();
      ZlibFlags(cmf, flg);
      if (cmf as int * 256 + flg) % 31 != 0 {
        return Failure;
      }
      if BitAnd(flg, 32) != 0 {
        return Failure;
      }
      if cm != 8 {
        return Failure;
      }
      return Success;
    }

    /** One block of any type; also says whether it was the final one. */
    method ParseBlock(ghost limit: nat) returns (st: Status, final: bool)
      requires Valid()
      requires var r := Block(data, pos, Out(), limit); r.Decided() || (FixedEnough(r, limit) && Slack(limit))
      modifies this, zstart, zLength.Repr, zDistance.Repr, defaults.length, defaults.distance
      ensures Valid()
      ensures zstart == old(zstart) || (expandable && fresh(zstart))
      ensures var r := Block(data, old(pos), old(Out()), limit);
              && (st == Success <==> r.Accept? && (expandable || |r.value| <= old(zstart.Length)))
              && (st == Success ==> Out() == r.value && pos == r.pos)
              && (st == Success ==> final == (Peek(data, old(pos), 1) != 0))
      ensures st == AssertFailed <==> BlockStops(data, old(pos), limit)
    {
      hide Block, Stored, Coded, HeaderStops, Peek, Buffered;
      BlockCases(data, pos, Out(), limit);
      var f := Receive(1);
      var t := Receive(2);
      final := f != 0;
      if t == 0 {
        st := ParseUncompressedBlock(limit);
      } else if t == 3 {
        st := Failure;
      } else {
        st := ParseCodedBlock(t, limit);
      }
    }

    /** A block with fixed codes, or with the codes that its header describes. */
    method ParseCodedBlock(t: nat, ghost limit: nat) returns (st: Status)
      requires Valid() && (t == 1 || t == 2)
      requires var r := Coded(t, data, pos, Out(), limit);
               r.Decided() || (FixedEnough(r, limit) && pos < 8 * |data| + 3)
      modifies this, zstart, zLength.Repr, zDistance.Repr, defaults.length, defaults.distance
      ensures Valid()
      ensures zstart == old(zstart) || (expandable && fresh(zstart))
      ensures var r := Coded(t, data, old(pos), old(Out()), limit);
              && (st == Success <==> r.Accept? && (expandable || |r.value| <= old(zstart.Length)))
              && (st == Success ==> Out() == r.value && pos == r.pos)
      ensures st == AssertFailed <==> t == 2 && HeaderStops(data, old(pos), limit)
    {
      hide Body, DynamicHeader, HeaderStops, Peek, zLength.Represents, Buffered, FixedLit, FixedDist;
      CodedCases(t, data, pos, Out(), limit);
      ghost var lit, dist;
      if t == 1 {
        st, lit, dist := UseFixedCodes();
      } else {
        st, lit, dist := ComputeHuffmanCodes(limit);
      }
      if st == Success {
        st := ParseHuffmanBlock(lit, dist, limit);
      }
    }

    method UseFixedCodes() returns (st: Status, ghost lit: seq<nat>, ghost dist: seq<nat>)
      requires Valid()
      modifies zLength.Repr, zDistance.Repr, defaults.length, defaults.distance
      ensures Valid() && Out() == old(Out())
      ensures st == Success && lit == FixedLit() && dist == FixedDist()
      ensures zLength.Represents(lit) && zDistance.Represents(dist)
    {
      hide KraftSum, FixedLit, FixedDist, Buffered, zLength.Represents;
      if defaults.distance[31] == 0 {
        defaults.Init();
      }
      lit, dist := FixedLit(), FixedDist();
      FixedKraft();
      st := BuildTables(defaults.length[..], defaults.distance[..]);
    }

    /** parse_zlib returns 1 exactly when the reference decoder accepts and the output has room, and then
        the output is the reference output. */
    method ParseZlib(parseHeader: bool, ghost limit: nat) returns (st: Status)
      requires Valid() && zbuffer == 0 && numBits == 0 && pos == 0 && zout == 0
      requires Inflate(data, parseHeader, limit).Decided() || FixedEnough(Inflate(data, parseHeader, limit), limit)
      modifies this, zstart, zLength.Repr, zDistance.Repr, defaults.length, defaults.distance
      ensures Valid()
      ensures zstart == old(zstart) || (expandable && fresh(zstart))
      ensures var r := Inflate(data, parseHeader, limit);
              && (st == Success <==> r.Accept? && (expandable || |r.value| <= old(zstart.Length)))
              && (st == Success ==> Out() == r.value)
      ensures st == AssertFailed <==> InflateStops(data, parseHeader, limit, old(RoomOf()))
    {
      hide BlockStops, BlocksStop, Blocks, Block, Peek, HeaderOk;
      if parseHeader {
        st := ParseZlibHeader();
        if st != Success {
          return;
        }
      }
      assert Out() == [];
      ghost var r, room := Blocks(data, pos, Out(), limit), RoomOf();
      ghost var stops := BlocksStop(data, pos, Out(), limit, room);
      while true
        invariant Valid()
        invariant zstart == old(zstart) || (expandable && fresh(zstart))
        invariant r == Blocks(data, pos, Out(), limit)
        invariant r.Decided() || (FixedEnough(r, limit) && Slack(limit))
        invariant stops == BlocksStop(data, pos, Out(), limit, room)
        decreases limit - pos
      {
        BlocksStep(data, pos, Out(), limit);
        BlocksStopStep(data, pos, Out(), limit, room);
        AcceptedCost(data, pos, Out(), limit);
        var final;
        st, final := ParseBlock(limit);
        if st != Success || final {
          return;
        }
      }
    }
  }

  /** memset on part of an array; returns the end of the filled range. */
  method FillRange(a: array<nat>, from: nat, v: nat, count: nat) returns (end: nat)
    requires from + count <= a.Length
    modifies a
    ensures end == from + count && a[..end] == old(a[..from]) + Repeat(v, count)
  {
    forall i | 0 <= i < count {
      a[from + i] := v;
    }
    end := from + count;
  }

  /** The bits of the zlib header that the decoder tests. */
  lemma ZlibFlags(cmf: byte, flg: byte)
    ensures BitAnd(cmf, 15) == cmf % 16
    ensures BitAnd(flg, 32) != 0 <==> (flg / 32) % 2 == 1
  {
    hide BitAnd;
    assert Pow2(4) == 16;
    AndMask(cmf, 4);
    LowFour(cmf, 4);
    AndSingle(flg, 32);
    AndSingle(flg / 2, 16);
    AndSingle(flg / 4, 8);
    AndSingle(flg / 8, 4);
    AndSingle(flg / 16, 2);
    AndOne(flg / 32);
  }

  lemma XorComplement(x: nat)
    requires x < 65536
    ensures BitXor(x, 0xffff) == 65535 - x
  {
    hide BitXor;
    BitReverseWord.Pow2Sixteen(16);
    XorMask(x, 16);
  }

  lemma AndOne(x: nat)
    ensures BitAnd(x, 1) == x % 2
  {
    assert BitAnd(x / 2, 0) == 0;
  }

  lemma AndSingle(x: nat, m: nat)
    requires m > 0 && m % 2 == 0
    ensures BitAnd(x, m) == 2 * BitAnd(x / 2, m / 2)
  {
  }

  lemma LowThree(x: nat, n: nat)
    requires n == 3
    ensures Low(x, n) == x % 8 && Pow2(n) == 8
  {
    hide Low, Shl;
    SplitWord(x, n);
    LowBound(x, n);
    ShlSmall(Shr(x, n));
  }

  lemma LowFour(x: nat, n: nat)
    requires n == 4
    ensures Low(x, n) == x % 16
  {
    hide Low, Shl;
    SplitWord(x, n);
    LowBound(x, n);
    ShlSmall(Shr(x, n));
    assert Pow2(n) == 16;
  }

  /** The fixed codes use up the code space exactly. */
  lemma FixedKraft()
    ensures KraftOk(FixedLit()) && KraftOk(FixedDist())
  {
    hide KraftSum;
    var lit, dist, max := FixedLit(), FixedDist(), MAX_BITS;
    assert Pow2(5) == 32 && Pow2(6) == 64 && Pow2(7) == 128 && Pow2(8) == 256 && Pow2(10) == 1024;
    Pow2Fifteen();
    KraftNone(lit, max);
    KraftRun(lit, 0, 144, 8, max);
    KraftRun(lit, 144, 256, 9, max);
    KraftRun(lit, 256, 280, 7, max);
    KraftRun(lit, 280, 288, 8, max);
    KraftNone(dist, max);
    KraftRun(dist, 0, 32, 5, max);
  }

  /** The cases of the reference for a stored block. */
  lemma StoredCases(data: seq<byte>, pos: nat, out: seq<byte>, limit: nat)
    requires Stored(data, pos, out, limit).Decided()
    ensures var r := Stored(data, pos, out, limit);
            var p := (pos + 7) / 8;
            var len := StoredLen(data, p);
            if StoredLen(data, p + 2) == 65535 - len && p + 4 + len <= |data|
            then r == Accept(out + data[p + 4..p + 4 + len], 8 * (p + 4 + len))
            else r == Reject
    ensures var p := (pos + 7) / 8; p + 4 > |data| && StoredLen(data, p) == 0 ==> StoredLen(data, p + 2) != 65535
  {
  }

  /** One step of the reference reader of code lengths, on input on which it does not give up. */
  lemma LengthsStep(cl: seq<nat>, data: seq<byte>, pos: nat, total: nat, acc: seq<nat>, limit: nat)
    requires |cl| == 19 && ValidLengths(acc, MAX_BITS) && pos <= limit && |acc| < total
    requires Lengths(cl, data, pos, total, acc, limit).Decided()
    ensures var r := Lengths(cl, data, pos, total, acc, limit);
            match DecodeSymbol(cl, data, pos, MAX_BITS)
            case Invalid => r == Reject
            case Symbol(c, n) =>
              var p := pos + n;
              && c < 19 && (c == 16 ==> acc != []) && pos < p + LengthOpBits(c) <= limit
              && ValidLengths(acc + LengthOp(c, data, p, acc), MAX_BITS)
              && r == Lengths(cl, data, p + LengthOpBits(c), total, acc + LengthOp(c, data, p, acc), limit)
  {
  }

  lemma LengthsDone(cl: seq<nat>, data: seq<byte>, total: nat, limit: nat)
    requires |cl| == 19
    ensures forall pos: nat, acc: seq<nat> ::
              pos <= limit && ValidLengths(acc, MAX_BITS) && |acc| >= total ==>
                Lengths(cl, data, pos, total, acc, limit) == if |acc| == total then Accept(acc, pos) else Reject
  {
  }

  /** The cases of the reference for a dynamic block header, on input on which it does not give up. */
  lemma DynamicHeaderCases(data: seq<byte>, pos: nat, limit: nat)
    requires DynamicHeader(data, pos, limit).Decided()
    ensures var hlit := Peek(data, pos, 5) + 257;
            var hdist := Peek(data, pos + 5, 5) + 1;
            var hclen := Peek(data, pos + 10, 4) + 4;
            var p := pos + 14 + 3 * hclen;
            && hclen <= 19 && p <= limit && hlit <= 286 && hdist <= 32
            && var cl := CodeLengthLens(data, pos + 14, hclen);
            var r := DynamicHeader(data, pos, limit);
            if !KraftOk(cl) then r == Reject
            else
              var h := Lengths(cl, data, p, hlit + hdist, [], limit);
              && h.Decided()
              && if h.Accept? && KraftOk(h.value[..hlit]) && KraftOk(h.value[hlit..])
                 then r == Accept((h.value[..hlit], h.value[hlit..]), h.pos)
                 else r == Reject
  {
    hide Lengths, Peek, KraftOk, CodeLengthLens, DecodeSymbol;
    PeekBound(data, pos + 5, 5);
    PeekBound(data, pos + 10, 4);
    assert Pow2(5) == 32 && Pow2(4) == 16;
  }

  /** The cases of the reference for one match, on input on which it does not give up. */
  lemma MatchCases(dist: seq<nat>, data: seq<byte>, pos: nat, sym: nat, size: nat, limit: nat)
    requires 257 <= sym <= 285 && Match(dist, data, pos, sym, size, limit).Decided()
    ensures var r, p := Match(dist, data, pos, sym, size, limit), pos + LengthExtra(sym);
            match DecodeSymbol(dist, data, p, MAX_BITS)
            case Invalid => r == Reject
            case Symbol(d, n) =>
              && d <= 29
              && var distance := DistBase(d) + Peek(data, p + n, DistExtra(d));
                 r == if distance > size then Reject
                      else Accept((LengthBase(sym) + Peek(data, pos, LengthExtra(sym)), distance), p + n + DistExtra(d))
  {
    hide DecodeSymbol, LengthBase, LengthExtra, DistBase, DistExtra, Peek;
  }

  /** A block with fixed codes, or with the codes that its header describes. */
  function Coded(t: nat, data: seq<byte>, pos: nat, out: seq<byte>, limit: nat): Outcome<seq<byte>> {
    if t == 1 then Body(FixedLit(), FixedDist(), data, pos, out, limit) else DynamicBlock(data, pos, out, limit)
  }

  /** The cases of the reference for one block, on input on which it does not give up before the data ends. */
  lemma BlockCases(data: seq<byte>, pos: nat, out: seq<byte>, limit: nat)
    requires !Block(data, pos, out, limit).Reserved?
    requires Block(data, pos, out, limit).Truncated? ==> pos + 48 <= limit && 8 * |data| + 100 <= limit
    ensures var r := Block(data, pos, out, limit);
            match Peek(data, pos + 1, 2)
            case 0 => r == Stored(data, pos + 3, out, limit) && r.Decided()
            case 3 => r == Reject
            case t => r == Coded(t, data, pos + 3, out, limit)
    ensures Block(data, pos, out, limit).Truncated? ==> pos < 8 * |data|
    ensures Peek(data, pos + 1, 2) < 4
  {
    hide StoredLen, Body, DynamicBlock, Peek;
    PeekBound(data, pos + 1, 2);
    assert Pow2(2) == 4;
    WithinData(data, pos, out, limit);
  }

  /** The cases of the reference for such a block, on input on which it does not give up within the header. */
  lemma CodedCases(t: nat, data: seq<byte>, pos: nat, out: seq<byte>, limit: nat)
    requires !Coded(t, data, pos, out, limit).Reserved?
    requires Coded(t, data, pos, out, limit).Truncated? ==> pos + 7067 <= limit
    ensures t != 1 ==>
              var h := DynamicHeader(data, pos, limit);
              && h.Decided()
              && (h.Accept? ==> h.pos <= pos + 7067)
              && Coded(t, data, pos, out, limit) ==
                 if h.Accept? then Body(h.value.0, h.value.1, data, h.pos, out, limit) else Reject
  {
    hide Body, DynamicHeader, FixedLit, FixedDist;
    HeaderBits(data, pos, limit);
  }

  /** A block on which the reference gives up only after the next 48 bits starts within the data. */
  lemma WithinData(data: seq<byte>, pos: nat, out: seq<byte>, limit: nat)
    requires Block(data, pos, out, limit).Truncated? ==> pos + 48 <= limit
    ensures Block(data, pos, out, limit).Truncated? ==> pos < 8 * |data|
  {
    hide Block;
    if pos >= 8 * |data| && pos + 48 <= limit {
      PastEnd(data, pos, out, limit);
    }
  }

  /** What an accepted block costs that starts at least 48 bits before the limit. */
  lemma AcceptedCost(data: seq<byte>, pos: nat, out: seq<byte>, limit: nat)
    ensures var r := Block(data, pos, out, limit);
            r.Accept? && pos + 48 <= limit ==> r.pos + 48 * |out| <= 8 * |data| + 7100 + 48 * |r.value|
  {
    hide Block;
    if pos < 8 * |data| {
      BlockBits(data, pos, out, limit);
    } else if pos + 48 <= limit {
      PastEnd(data, pos, out, limit);
    }
  }

  lemma BlocksStep(data: seq<byte>, pos: nat, out: seq<byte>, limit: nat)
    requires !Blocks(data, pos, out, limit).Reserved?
    ensures var r := Block(data, pos, out, limit);
            && !r.Reserved?
            && if r.Accept? && Peek(data, pos, 1) == 0
               then Blocks(data, pos, out, limit) == Blocks(data, r.pos, r.value, limit) && pos < r.pos <= limit
               else Blocks(data, pos, out, limit) == r
  {
  }

  lemma BlocksStopStep(data: seq<byte>, pos: nat, out: seq<byte>, limit: nat, room: Room)
    ensures var r := Block(data, pos, out, limit);
            BlocksStop(data, pos, out, limit, room) <==>
              || BlockStops(data, pos, limit)
              || (r.Accept? && Peek(data, pos, 1) == 0 && room.Holds(|r.value|)
                  && BlocksStop(data, r.pos, r.value, limit, room))
  {
    hide Block, BlockStops, Peek;
  }

  /** What stops a dynamic block header, on input on which the reference does not give up. */
  lemma HeaderStopsCases(data: seq<byte>, pos: nat, limit: nat)
    requires DynamicHeader(data, pos, limit).Decided()
    ensures var hlit := Peek(data, pos, 5) + 257;
            var hdist := Peek(data, pos + 5, 5) + 1;
            var hclen := Peek(data, pos + 10, 4) + 4;
            var p := pos + 14 + 3 * hclen;
            && hclen <= 19 && p <= limit
            && var cl := CodeLengthLens(data, pos + 14, hclen);
               && (TooMany(cl) ==> !KraftOk(cl) && HeaderStops(data, pos, limit))
               && (!TooMany(cl) && !KraftOk(cl) ==> !HeaderStops(data, pos, limit))
               && (KraftOk(cl) ==>
                     HeaderStops(data, pos, limit) == LengthsStop(cl, data, p, hlit, hlit + hdist, limit))
  {
    hide Lengths, Peek, KraftOk, CodeLengthLens, LengthsStop, TooMany;
    DynamicHeaderCases(data, pos, limit);
    var hclen := Peek(data, pos + 10, 4) + 4;
    CodeLengthLensShape(data, pos + 14, hclen);
    NotBoth(CodeLengthLens(data, pos + 14, hclen));
  }

  lemma NotBoth(lens: seq<nat>)
    requires ValidLengths(lens, MAX_BITS)
    ensures !(TooMany(lens) && KraftOk(lens))
  {
    hide TooMany, KraftOk;
    if TooMany(lens) {
      TooManyNotKraft(lens);
    }
  }

  lemma NoLengthCodeStep(cl: seq<nat>, data: seq<byte>, pos: nat, total: nat, acc: seq<nat>, limit: nat)
    requires |cl| == 19 && ValidLengths(acc, MAX_BITS) && pos <= limit && |acc| < total
    requires Lengths(cl, data, pos, total, acc, limit).Decided()
    ensures match DecodeSymbol(cl, data, pos, MAX_BITS)
            case Invalid => NoLengthCode(cl, data, pos, total, acc, limit)
            case Symbol(c, n) =>
              var p := pos + n;
              && (c == 16 ==> acc != []) && p + LengthOpBits(c) <= limit
              && ValidLengths(acc + LengthOp(c, data, p, acc), MAX_BITS)
              && NoLengthCode(cl, data, pos, total, acc, limit)
                 == NoLengthCode(cl, data, p + LengthOpBits(c), total, acc + LengthOp(c, data, p, acc), limit)
  {
    hide DecodeSymbol, LengthOp, LengthOpBits;
    LengthsStep(cl, data, pos, total, acc, limit);
  }

  lemma NoLengthCodeDone(cl: seq<nat>, data: seq<byte>, pos: nat, total: nat, acc: seq<nat>, limit: nat)
    requires |cl| == 19 && ValidLengths(acc, MAX_BITS) && pos <= limit && |acc| >= total
    ensures !NoLengthCode(cl, data, pos, total, acc, limit)
  {
  }

  datatype Round = More | Done | Failed

  /** What a caller gets: the decoded value, an error return, or nothing, when the decoder stops at an assert. */
  datatype Result<T> = Decoded(value: T) | Error | Stopped

  /** stbi_zlib_decode_malloc_guesssize and its variants: decode into a buffer that grows from initialSize. */
  method DecodeMalloc(buffer: seq<byte>, initialSize: nat, parseHeader: bool, defaults: FixedTables, ghost limit: nat)
    returns (r: Result<seq<byte>>)
    requires initialSize > 0 && defaults.Valid()
    requires Inflate(buffer, parseHeader, limit).Decided()
    modifies defaults.length, defaults.distance
    ensures defaults.Valid()
    ensures match Inflate(buffer, parseHeader, limit)
            case Accept(out, _) => r == Decoded(out)
            case _ => r == if InflateStops(buffer, parseHeader, limit, Growable) then Stopped else Error
  {
    hide Inflate, InflateStops;
    var p := new byte[initialSize];
    var a := new ZBuf(buffer, p, true, defaults);
    var st := a.ParseZlib(parseHeader, limit);
    match st
    case Success => r := Decoded(a.Out());
    case Failure => r := Error;
    case AssertFailed => r := Stopped;
  }

  /** stbi_zlib_decode_buffer and its variant: decode into the caller's buffer; an error (-1) when that fails. */
  method DecodeBuffer(obuffer: array<byte>, ibuffer: seq<byte>, parseHeader: bool, defaults: FixedTables, ghost limit: nat)
    returns (r: Result<nat>)
    requires defaults.Valid() && obuffer as object != defaults.length && obuffer as object != defaults.distance
    requires !Inflate(ibuffer, parseHeader, limit).Reserved?
    requires Inflate(ibuffer, parseHeader, limit).Truncated? ==> Enough(|ibuffer|, obuffer.Length) <= limit
    modifies obuffer, defaults.length, defaults.distance
    ensures defaults.Valid()
    ensures match Inflate(ibuffer, parseHeader, limit)
            case Accept(out, _) =>
              if |out| <= obuffer.Length then r == Decoded(|out|) && obuffer[..|out|] == out else r == Error
            case Truncated => r == Error
            case _ => r == if InflateStops(ibuffer, parseHeader, limit, Fixed(obuffer.Length)) then Stopped else Error
  {
    hide Inflate, InflateStops;
    var a := new ZBuf(ibuffer, obuffer, false, defaults);
    var st := a.ParseZlib(parseHeader, limit);
    StopsOnlyRejected(ibuffer, parseHeader, limit, Fixed(obuffer.Length));
    match st
    case Success => r := Decoded(a.zout);
    case Failure => r := Error;
    case AssertFailed => r := Stopped;
  }

  lemma StopsOnlyRejected(data: seq<byte>, header: bool, limit: nat, room: Room)
    ensures InflateStops(data, header, limit, room) ==> Inflate(data, header, limit) == Reject
  {
    hide Inflate, InflateStops;
    if InflateStops(data, header, limit, room) {
      StopsRejected(data, header, limit, room);
    }
  }

  lemma ValidSlices(lens: seq<nat>, k: nat, max: nat)
    requires ValidLengths(lens, max) || lens == []
    requires k <= |lens|
    ensures ValidLengths(lens[..k], max) && ValidLengths(lens[k..], max)
  {
  }

  lemma PeekNothing(data: seq<byte>, pos: nat)
    ensures Peek(data, pos, 0) == 0
  {
  }

  lemma StreamReversed(data: seq<byte>, pos: nat, m: nat, w: nat)
    requires w == 16 <= m
    ensures BitReverseWord.BitReverse(Peek(data, pos, m), w) == PeekMsb(data, pos, w)
  {
    BitReverseWord.BitReverseIsReverse(Peek(data, pos, m), w);
    ReverseLowBits(Peek(data, pos, m), w);
    PeekTake(data, pos, w, m);
    PeekReverse(data, pos, w);
  }
}
