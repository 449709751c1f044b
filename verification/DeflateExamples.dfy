/** Streams in numerals, and the fixed codes: a stored, a fixed and a dynamic block, and a zlib header. */
module DeflateExamples {
  import opened Bits
  import opened CanonicalCode
  import opened Deflate
  import opened DeflateGrammar
  import opened DeflateStream

  // ----- fields of a stream in numerals -----

  /** Two bytes of the stream as one number, the first byte low. */
  function TwoBytes(data: seq<byte>, k: nat): nat {
    StreamByte(data, k) as int + 256 * StreamByte(data, k + 1)
  }

  lemma BitOfTwo(data: seq<byte>, k: nat, i: nat)
    requires i < 16
    ensures StreamBit(data, 8 * k + i) == Bit(TwoBytes(data, k), i)
  {
    hide StreamByte;
    LowBitsOf(StreamByte(data, k), StreamByte(data, k + 1), 8, i);
    assert Pow2(8) == 256;
    if i < 8 {
      assert (8 * k + i) / 8 == k && (8 * k + i) % 8 == i;
    } else {
      assert (8 * k + i) / 8 == k + 1 && (8 * k + i) % 8 == i - 8;
    }
  }

  /** The bits of a number with further bits above it. */
  lemma {:induction false} LowBitsOf(b: nat, rest: nat, n: nat, i: nat)
    requires b < Pow2(n)
    ensures Bit(b + Pow2(n) * rest, i) == if i < n then Bit(b, i) else Bit(rest, i - n)
    decreases n
  {
    if n > 0 {
      var p := Pow2(n - 1);
      assert Pow2(n) * rest == 2 * (p * rest);
      var x := b + 2 * (p * rest);
      assert x % 2 == b % 2 && x / 2 == b / 2 + p * rest;
      if i > 0 {
        LowBitsOf(b / 2, rest, n - 1, i - 1);
      }
    }
  }

  lemma {:induction false} PeekOfTwo(data: seq<byte>, k: nat, j: nat, n: nat)
    requires j + n <= 16
    ensures Peek(data, 8 * k + j, n) == Low(Shr(TwoBytes(data, k), j), n)
    decreases n
  {
    hide TwoBytes, StreamBit;
    if n > 0 {
      var w := TwoBytes(data, k);
      PeekOfTwo(data, k, j + 1, n - 1);
      BitOfTwo(data, k, j);
      ShrBit(w, j, 0);
      ShrShr(w, j, 1);
      assert Shr(Shr(w, j), 1) == Shr(Shr(w, j) / 2, 0);
    }
  }

  lemma {:induction false} ShrDivides(x: nat, n: nat)
    ensures Shr(x, n) == x / Pow2(n)
    decreases n
  {
    if n > 0 {
      var m := Pow2(n - 1);
      ShrDivides(x / 2, n - 1);
      var q, r := x / 2 / m, x / 2 % m;
      assert x / 2 == m * q + r;
      assert 2 * m * q == 2 * (m * q);
      DivModUnique(x, 2 * m, q, 2 * r + x % 2);
    }
  }

  lemma {:induction false} LowIsRemainder(x: nat, n: nat)
    ensures Low(x, n) == x % Pow2(n)
    decreases n
  {
    if n > 0 {
      var m := Pow2(n - 1);
      LowIsRemainder(x / 2, n - 1);
      var q, r := x / 2 / m, x / 2 % m;
      assert x / 2 == m * q + r;
      assert 2 * m * q == 2 * (m * q);
      DivModUnique(x, 2 * m, q, 2 * r + x % 2);
    }
  }

  /** A field of the stream, from the two bytes that it lies in. */
  lemma Field(data: seq<byte>, k: nat, j: nat, n: nat)
    requires j + n <= 16
    ensures Peek(data, 8 * k + j, n) == TwoBytes(data, k) / Pow2(j) % Pow2(n)
  {
    hide Peek, TwoBytes, Pow2, Low, Shr;
    PeekOfTwo(data, k, j, n);
    ShrDivides(TwoBytes(data, k), j);
    LowIsRemainder(Shr(TwoBytes(data, k), j), n);
  }

  /** Powers of two in numerals. */
  lemma Powers()
    ensures Pow2(0) == 1 && Pow2(1) == 2 && Pow2(2) == 4 && Pow2(3) == 8 && Pow2(4) == 16
    ensures Pow2(5) == 32 && Pow2(6) == 64 && Pow2(7) == 128 && Pow2(8) == 256 && Pow2(9) == 512
  {
  }

  /** A codeword stands where its bits, the first one highest, are its code. */
  lemma SymbolOf(lens: seq<nat>, data: seq<byte>, pos: nat, sym: nat)
    requires sym < |lens| && lens[sym] > 0 && Reverse(Peek(data, pos, lens[sym]), lens[sym]) == CodeOf(lens, sym)
    ensures SymbolAt(lens, data, pos, sym)
  {
    hide Reverse, CodeOf, Peek, PeekMsb;
    PeekReverse(data, pos, lens[sym]);
  }

  // ----- section 3.2.6: the fixed codes -----

  /** The table of section 3.2.6 of RFC 1951. */
  lemma FixedCodes(sym: nat)
    requires sym < 288
    ensures CodeOf(FixedLit(), sym) ==
            if sym < 144 then 0x30 + sym
            else if sym < 256 then 0x190 + (sym - 144)
            else if sym < 280 then sym - 256
            else 0xC0 + (sym - 280)
  {
    hide Count;
    var lens := FixedLit();
    FixedFirstCodes();
    if sym < 144 {
      NoneCounted(lens, 8);
      CountRun(lens, 0, sym, 8);
    } else if sym < 256 {
      NoneCounted(lens, 9);
      CountOthers(lens, 0, 144, 9);
      CountRun(lens, 144, sym, 9);
    } else if sym < 280 {
      NoneCounted(lens, 7);
      CountOthers(lens, 0, 256, 7);
      CountRun(lens, 256, sym, 7);
    } else {
      NoneCounted(lens, 8);
      CountRun(lens, 0, 144, 8);
      CountOthers(lens, 144, 280, 8);
      CountRun(lens, 280, sym, 8);
    }
  }

  lemma NoneCounted(lens: seq<nat>, l: nat)
    ensures Count(lens, 0, l) == 0
  {
  }

  lemma FixedFirstCodes()
    ensures FirstCode(FixedLit(), 7) == 0 && FirstCode(FixedLit(), 8) == 0x30 && FirstCode(FixedLit(), 9) == 0x190
  {
    hide Count, FixedLit;
    var lens := FixedLit();
    FixedTotals();
    NoShortCodes(lens, 7);
    assert EndCode(lens, 7) == 24 && FirstCode(lens, 8) == 48;
    assert EndCode(lens, 8) == 200 && FirstCode(lens, 9) == 400;
  }

  lemma FixedTotals()
    ensures Total(FixedLit(), 7) == 24 && Total(FixedLit(), 8) == 152
    ensures forall l :: 1 <= l < 7 ==> Total(FixedLit(), l) == 0
  {
    hide Count;
    var lens := FixedLit();
    NoneCounted(lens, 7);
    CountOthers(lens, 0, 256, 7);
    CountRun(lens, 256, 280, 7);
    CountOthers(lens, 280, 288, 7);
    NoneCounted(lens, 8);
    CountRun(lens, 0, 144, 8);
    CountOthers(lens, 144, 280, 8);
    CountRun(lens, 280, 288, 8);
    forall l | 1 <= l < 7
      ensures Total(lens, l) == 0
    {
      NoneCounted(lens, l);
      CountOthers(lens, 0, 288, l);
    }
  }

  lemma {:induction false} NoShortCodes(lens: seq<nat>, l: nat)
    requires l >= 1 && forall k :: 1 <= k < l ==> Total(lens, k) == 0
    ensures FirstCode(lens, l) == 0
    decreases l
  {
    hide Total;
    if l > 1 {
      NoShortCodes(lens, l - 1);
      assert EndCode(lens, l - 1) == FirstCode(lens, l - 1) + Total(lens, l - 1);
    }
  }

  /** Distance symbols are their own codes. */
  lemma FixedDistances(sym: nat)
    requires sym < 32
    ensures CodeOf(FixedDist(), sym) == sym
  {
    hide Count;
    var lens := FixedDist();
    forall l | 1 <= l < 5
      ensures Total(lens, l) == 0
    {
      NoneCounted(lens, l);
      CountOthers(lens, 0, 32, l);
    }
    NoShortCodes(lens, 5);
    NoneCounted(lens, 5);
    CountRun(lens, 0, sym, 5);
  }

  // ----- streams -----

  /** A final stored block with two bytes. */
  lemma StoredText()
    ensures Inflate([0x01, 0x02, 0x00, 0xfd, 0xff, 0x61, 0x62], false, 56) == Accept([0x61, 0x62], 56)
  {
    hide Peek, BlockAt;
    var data: seq<byte> := [0x01, 0x02, 0x00, 0xfd, 0xff, 0x61, 0x62];
    StoredFields(data);
    StoredMeans(data, 0, 1);
    OneBlock(data, 0, [0x61, 0x62], 56);
  }

  lemma StoredFields(data: seq<byte>)
    requires data == [0x01, 0x02, 0x00, 0xfd, 0xff, 0x61, 0x62]
    ensures Peek(data, 0, 1) == 1 && Peek(data, 1, 2) == 0
  {
    hide Peek, Low, Shr;
    PeekWithin(data, 0, 0, 1);
    PeekWithin(data, 0, 1, 2);
    FieldsOfOne();
  }

  lemma FieldsOfOne()
    ensures Low(Shr(1, 0), 1) == 1 && Low(Shr(1, 1), 2) == 0
  {
  }

  lemma StoredMeans(data: seq<byte>, pos: nat, p: nat)
    requires Peek(data, pos + 1, 2) == 0 && p == (pos + 10) / 8 && |data| == p + 6
    requires data[p..] == [0x02, 0x00, 0xfd, 0xff, 0x61, 0x62]
    ensures BlockAt(data, pos, [], [0x61, 0x62], 8 * |data|)
  {
    hide Peek;
    assert forall i :: 0 <= i < 6 ==> data[p + i] == data[p..][i];
    assert data[p + 4..p + 6] == [0x61, 0x62];
  }

  /** A stream of one final block. */
  lemma OneBlock(data: seq<byte>, pos: nat, v: seq<byte>, end: nat)
    requires Peek(data, pos, 1) == 1 && BlockAt(data, pos, [], v, end)
    ensures Blocks(data, pos, [], end) == Accept(v, end)
  {
    hide Peek, Blocks, BlockAt;
    BlocksExact(data, pos, [], end, v, end);
  }

  /** Two stored blocks, of which only the second one is final. */
  lemma TwoBlocks()
    ensures Inflate([0x00, 0x01, 0x00, 0xfe, 0xff, 0x61, 0x01, 0x01, 0x00, 0xfe, 0xff, 0x62], false, 96)
            == Accept([0x61, 0x62], 96)
  {
    hide Peek, Stored, Blocks;
    var data: seq<byte> := [0x00, 0x01, 0x00, 0xfe, 0xff, 0x61, 0x01, 0x01, 0x00, 0xfe, 0xff, 0x62];
    OneByteStored(data, 0, []);
    OneByteStored(data, 6, [0x61]);
    FlagsOfTwo(data);
    var one: seq<byte>, two: seq<byte> := [0x61], [0x61, 0x62];
    assert [] + [data[5]] == one && one + [data[11]] == two;
    BlocksAhead(data, 0, [], 48, one, 96);
    BlocksLast(data, 48, one, two, 96);
  }

  lemma FlagsOfTwo(data: seq<byte>)
    requires |data| == 12 && data[0] == 0 && data[6] == 1
    ensures Peek(data, 0, 1) == 0 && Peek(data, 1, 2) == 0 && Peek(data, 48, 1) == 1 && Peek(data, 49, 2) == 0
  {
    hide Peek, Low, Shr;
    PeekWithin(data, 0, 0, 1);
    PeekWithin(data, 0, 1, 2);
    PeekWithin(data, 6, 0, 1);
    PeekWithin(data, 6, 1, 2);
    FieldsOfOne();
    FieldsOfZero();
  }

  lemma FieldsOfZero()
    ensures Low(Shr(0, 0), 1) == 0 && Low(Shr(0, 1), 2) == 0
  {
  }

  /** A stored block of one byte whose header is byte k. */
  lemma OneByteStored(data: seq<byte>, k: nat, out: seq<byte>)
    requires k + 6 <= |data|
    requires data[k + 1] == 0x01 && data[k + 2] == 0x00 && data[k + 3] == 0xfe && data[k + 4] == 0xff
    ensures Stored(data, 8 * k + 3, out, 8 * |data|) == Accept(out + [data[k + 5]], 8 * (k + 6))
  {
    assert data[k + 5..k + 6] == [data[k + 5]];
  }

  lemma BlocksAhead(data: seq<byte>, pos: nat, out: seq<byte>, mid: nat, w: seq<byte>, limit: nat)
    requires Peek(data, pos, 1) == 0 && Peek(data, pos + 1, 2) == 0 && pos + 3 <= limit
    requires Stored(data, pos + 3, out, limit) == Accept(w, mid)
    ensures Blocks(data, pos, out, limit) == Blocks(data, mid, w, limit)
  {
    hide Peek, Stored;
  }

  lemma BlocksLast(data: seq<byte>, pos: nat, out: seq<byte>, v: seq<byte>, limit: nat)
    requires Peek(data, pos, 1) == 1 && Peek(data, pos + 1, 2) == 0 && pos + 3 <= limit
    requires Stored(data, pos + 3, out, limit) == Accept(v, limit)
    ensures Blocks(data, pos, out, limit) == Accept(v, limit)
  {
    hide Peek, Stored;
  }

  /** The same block behind a zlib header, and headers with a wrong check, another method or a dictionary. */
  lemma ZlibText()
    ensures Inflate([0x78, 0x9c, 0x01, 0x02, 0x00, 0xfd, 0xff, 0x61, 0x62], true, 72) == Accept([0x61, 0x62], 72)
    ensures HeaderOk([0x78, 0x01]) && HeaderOk([0x78, 0xda]) && HeaderOk([0x08, 0x1d])
    ensures !HeaderOk([0x78, 0x9d]) && !HeaderOk([0x79, 0x18]) && !HeaderOk([0x78, 0xbb]) && !HeaderOk([0x9c, 0x78])
  {
    hide Peek, BlockAt, Blocks;
    var data: seq<byte> := [0x78, 0x9c, 0x01, 0x02, 0x00, 0xfd, 0xff, 0x61, 0x62];
    ZlibFields(data);
    assert data[3..] == [0x02, 0x00, 0xfd, 0xff, 0x61, 0x62];
    StoredMeans(data, 16, 3);
    OneBlock(data, 16, [0x61, 0x62], 72);
  }

  lemma ZlibFields(data: seq<byte>)
    requires |data| == 9 && data[2] == 1
    ensures Peek(data, 16, 1) == 1 && Peek(data, 17, 2) == 0
  {
    hide Peek, Low, Shr;
    PeekWithin(data, 2, 0, 1);
    PeekWithin(data, 2, 1, 2);
    FieldsOfOne();
  }

  /** Five bytes with fixed codes: the bytes 97 and 200, and twelve more copied from two back. */
  lemma FixedText()
    ensures Inflate([0x4b, 0x3c, 0x81, 0x0c, 0x01], false, 40)
            == Accept([97, 200, 97, 200, 97, 200, 97, 200, 97, 200, 97, 200, 97, 200], 40)
  {
    hide BlockAt, BodyAt, Peek, FixedLit, FixedDist;
    var data: seq<byte> := [0x4b, 0x3c, 0x81, 0x0c, 0x01];
    var v: seq<byte> := [97, 200, 97, 200, 97, 200, 97, 200, 97, 200, 97, 200, 97, 200];
    FixedData(data);
    FixedSpelled(data, v);
    FixedBlockAt(data, v, 40);
    OneBlock(data, 0, v, 40);
  }

  lemma FixedBlockAt(data: seq<byte>, v: seq<byte>, end: nat)
    requires Peek(data, 1, 2) == 1 && BodyAt(FixedLit(), FixedDist(), data, 3, [], v, end)
    ensures BlockAt(data, 0, [], v, end)
  {
    hide Peek, BodyAt;
  }

  ghost predicate FixedFields(data: seq<byte>) {
    && Peek(data, 0, 1) == 1 && Peek(data, 1, 2) == 1
    && Peek(data, 3, 8) == 0x89 && Peek(data, 11, 9) == 0x27
    && Peek(data, 20, 7) == 0x48 && Peek(data, 27, 1) == 1 && Peek(data, 28, 5) == 16 && Peek(data, 33, 7) == 0
  }

  lemma FixedData(data: seq<byte>)
    requires data == [0x4b, 0x3c, 0x81, 0x0c, 0x01]
    ensures FixedFields(data)
  {
    hide Peek, TwoBytes, Pow2;
    Powers();
    FixedPairs(data);
    Field(data, 0, 0, 1);
    Field(data, 0, 1, 2);
    Field(data, 0, 3, 8);
    Field(data, 1, 3, 9);
    Field(data, 2, 4, 7);
    Field(data, 3, 3, 1);
    Field(data, 3, 4, 5);
    Field(data, 4, 1, 7);
  }

  lemma FixedPairs(data: seq<byte>)
    requires data == [0x4b, 0x3c, 0x81, 0x0c, 0x01]
    ensures TwoBytes(data, 0) == 0x3c4b && TwoBytes(data, 1) == 0x813c && TwoBytes(data, 2) == 0x0c81
    ensures TwoBytes(data, 3) == 0x010c && TwoBytes(data, 4) == 1
  {
  }

  lemma FixedCodewords()
    ensures Reverse(0x89, 8) == 0x30 + 97 && Reverse(0x27, 9) == 0x190 + (200 - 144)
    ensures Reverse(0x48, 7) == 265 - 256 && Reverse(16, 5) == 1 && Reverse(0, 7) == 0
  {
    ShortReverse();
    hide Reverse, Pow2;
    Powers();
    ReverseThree(0x89, 5);
    ReverseThree(0x11, 2);
    ReverseThree(0x27, 6);
    ReverseThree(4, 3);
    ReverseThree(0, 0);
    ReverseThree(0x48, 4);
    ReverseThree(9, 1);
    ReverseThree(16, 2);
    ReverseThree(0, 4);
    ReverseThree(0, 1);
  }

  lemma ShortReverse()
    ensures Reverse(0, 0) == 0 && Reverse(0, 1) == 0 && Reverse(1, 1) == 1
    ensures Reverse(0, 2) == 0 && Reverse(1, 2) == 2 && Reverse(2, 2) == 1 && Reverse(3, 2) == 3
  {
  }

  lemma ReverseThree(v: nat, s: nat)
    ensures Reverse(v, s + 3) == (4 * (v % 2) + 2 * (v / 2 % 2) + v / 4 % 2) * Pow2(s) + Reverse(v / 8, s)
  {
    hide Shl;
    var p := Pow2(s);
    assert Pow2(s + 1) == 2 * p && Pow2(s + 2) == 4 * p;
    assert v / 2 / 2 == v / 4 && v / 4 / 2 == v / 8;
    hide Pow2;
    ShlTimes(v % 2, s + 2);
    ShlTimes(v / 2 % 2, s + 1);
    ShlTimes(v / 4 % 2, s);
    assert Reverse(v, s + 3) == Shl(v % 2, s + 2) + Reverse(v / 2, s + 2);
    assert Reverse(v / 2, s + 2) == Shl(v / 2 % 2, s + 1) + Reverse(v / 4, s + 1);
    hide Reverse;
    ThreeTerms(v % 2, v / 2 % 2, v / 4 % 2, p);
  }

  lemma ThreeTerms(a: nat, b: nat, c: nat, p: nat)
    ensures a * (4 * p) + b * (2 * p) + c * p == (4 * a + 2 * b + c) * p
  {
  }

  lemma FixedSymbols(data: seq<byte>)
    requires FixedFields(data)
    ensures SymbolAt(FixedLit(), data, 3, 97) && SymbolAt(FixedLit(), data, 11, 200) && SymbolAt(FixedLit(), data, 20, 265)
    ensures SymbolAt(FixedDist(), data, 28, 1) && SymbolAt(FixedLit(), data, 33, 256)
  {
    hide Peek, Reverse, CodeOf, SymbolAt;
    FixedCodewords();
    FixedCodes(97);
    FixedCodes(200);
    FixedCodes(265);
    FixedCodes(256);
    FixedDistances(1);
    SymbolOf(FixedLit(), data, 3, 97);
    SymbolOf(FixedLit(), data, 11, 200);
    SymbolOf(FixedLit(), data, 20, 265);
    SymbolOf(FixedDist(), data, 28, 1);
    SymbolOf(FixedLit(), data, 33, 256);
  }

  lemma FixedSpelled(data: seq<byte>, v: seq<byte>)
    requires FixedFields(data) && v == [97, 200, 97, 200, 97, 200, 97, 200, 97, 200, 97, 200, 97, 200]
    ensures BodyAt(FixedLit(), FixedDist(), data, 3, [], v, 40)
  {
    hide SymbolAt, Peek, Spelled, Meaning, CopyMatch;
    FixedSymbols(data);
    var lit, dist := FixedLit(), FixedDist();
    var a: Token, b: Token, c: Token := Literal(97), Literal(200), Copy(265, 1, 1, 0);
    FixedTokens(data, a, b, c);
    hide TokenAt;
    SpellEnd(lit, dist, data, 33, 40);
    SpellNext(lit, dist, data, 20, c, 33, [], 40);
    SpellNext(lit, dist, data, 11, b, 20, [c] + [], 40);
    SpellNext(lit, dist, data, 3, a, 11, [b] + ([c] + []), 40);
    TwelveFromTwo();
    MeansCopy(c, [], [97, 200], 12, 2);
    MeansLiteral(200, [c] + [], [97]);
    MeansLiteral(97, [b] + ([c] + []), []);
    MeansNothing(v);
    assert [] + [97] == [97 as byte] && [97 as byte] + [200] == [97, 200];
    assert Spelled(lit, dist, data, 3, [a] + ([b] + ([c] + [])), 40);
  }

  lemma FixedTokens(data: seq<byte>, a: Token, b: Token, c: Token)
    requires FixedFields(data) && a == Literal(97) && b == Literal(200) && c == Copy(265, 1, 1, 0)
    ensures TokenAt(FixedLit(), FixedDist(), data, 3, a, 11) && TokenAt(FixedLit(), FixedDist(), data, 11, b, 20)
    ensures TokenAt(FixedLit(), FixedDist(), data, 20, c, 33)
    ensures LengthBase(265) + 1 == 12 && DistBase(1) == 2
  {
    hide SymbolAt, Peek;
    FixedSymbols(data);
    assert LengthBase(265) == 11 && LengthExtra(265) == 1 && DistBase(1) == 2 && DistExtra(1) == 0;
    NothingThere(data, 33);
  }

  lemma NothingThere(data: seq<byte>, pos: nat)
    ensures Peek(data, pos, 0) == 0
  {
  }

  /** The meaning of a first token and the others. */
  lemma MeansLiteral(b: byte, rest: seq<Token>, out: seq<byte>)
    ensures Meaning([Literal(b)] + rest, out) == Meaning(rest, out + [b])
  {
    var t: Token := Literal(b);
    assert ([t] + rest)[1..] == rest;
  }

  lemma MeansCopy(t: Token, rest: seq<Token>, out: seq<byte>, len: nat, dist: nat)
    requires t.Copy? && len == LengthBase(t.lenSym) + t.lenExtra && dist == DistBase(t.distSym) + t.distExtra <= |out|
    ensures Meaning([t] + rest, out) == Meaning(rest, CopyMatch(out, dist, len))
  {
    hide CopyMatch, LengthBase, DistBase;
    assert ([t] + rest)[1..] == rest;
  }

  lemma MeansNothing(v: seq<byte>)
    ensures Meaning([], v) == Some(v)
  {
  }

  lemma SpellEnd(lit: seq<nat>, dist: seq<nat>, data: seq<byte>, pos: nat, end: nat)
    requires SymbolAt(lit, data, pos, 256) && end == pos + lit[256]
    ensures Spelled(lit, dist, data, pos, [], end)
  {
    hide CodeAt;
  }

  lemma SpellNext(lit: seq<nat>, dist: seq<nat>, data: seq<byte>, pos: nat, t: Token, mid: nat, rest: seq<Token>, end: nat)
    requires pos < mid <= end && TokenAt(lit, dist, data, pos, t, mid) && Spelled(lit, dist, data, mid, rest, end)
    ensures Spelled(lit, dist, data, pos, [t] + rest, end)
  {
    hide TokenAt;
    assert ([t] + rest)[0] == t && ([t] + rest)[1..] == rest;
  }

  lemma TwelveFromTwo()
    ensures CopyMatch([97, 200], 2, 12) == [97, 200, 97, 200, 97, 200, 97, 200, 97, 200, 97, 200, 97, 200]
  {
    hide CopyMatch;
    var v: seq<byte> := [97, 200, 97, 200, 97, 200, 97, 200, 97, 200, 97, 200, 97, 200];
    var r := CopyMatch([97, 200], 2, 12);
    forall k | 2 <= k < 14
      ensures r[k] == v[k]
    {
      CopyIsPeriodic([97, 200], 2, 12, k - 2);
    }
    assert r[..2] == [97, 200] && r[0] == r[..2][0] && r[1] == r[..2][1];
  }

  // ----- a dynamic block -----

  /** Eighteen bytes with dynamic codes: the letters a to d have three bits each, the end of the block and length three
      two, and distance five one. They make abcdab, and abc copied from six back. */
  function DynamicData(): seq<byte> {
    [0x0d, 0xc4, 0x37, 0x01, 0x00, 0x00, 0x00, 0x83, 0x30, 0xad, 0x1d, 0xfe, 0x35, 0xc0, 0x93, 0x74, 0x4f, 0x15]
  }

  /** The code length code: two bits for 2 and for long runs of zeros, three for 1, 3, repeats and short runs. */
  const CL: seq<nat> := [0, 3, 2, 3, 0, 0, 0, 0, 0, 0, 0, 0, 0, 0, 0, 0, 3, 3, 2]

  function DynamicLit(): (lens: seq<nat>)
    ensures |lens| == 258 && ValidLengths(lens, MAX_BITS)
  {
    seq(258, i => if 97 <= i <= 100 then 3 else if i >= 256 then 2 else 0)
  }

  const DYNAMIC_DIST: seq<nat> := [0, 0, 0, 0, 1]

  lemma DynamicPairs(data: seq<byte>)
    requires data == DynamicData()
    ensures TwoBytes(data, 0) == 0xc40d && TwoBytes(data, 1) == 0x37c4 && TwoBytes(data, 2) == 0x0137
    ensures TwoBytes(data, 3) == 0x0001 && TwoBytes(data, 4) == 0 && TwoBytes(data, 5) == 0 && TwoBytes(data, 6) == 0x8300
    ensures TwoBytes(data, 7) == 0x3083 && TwoBytes(data, 8) == 0xad30 && TwoBytes(data, 9) == 0x1dad
  {
    hide TwoBytes, StreamByte;
    FirstPairs(data);
    Pair(data, 5, 0x00, 0x00);
    Pair(data, 6, 0x00, 0x83);
    Pair(data, 7, 0x83, 0x30);
    Pair(data, 8, 0x30, 0xad);
    Pair(data, 9, 0xad, 0x1d);
  }

  lemma FirstPairs(data: seq<byte>)
    requires data == DynamicData()
    ensures TwoBytes(data, 0) == 0xc40d && TwoBytes(data, 1) == 0x37c4 && TwoBytes(data, 2) == 0x0137
    ensures TwoBytes(data, 3) == 0x0001 && TwoBytes(data, 4) == 0
  {
    hide TwoBytes, StreamByte;
    Pair(data, 0, 0x0d, 0xc4);
    Pair(data, 1, 0xc4, 0x37);
    Pair(data, 2, 0x37, 0x01);
    Pair(data, 3, 0x01, 0x00);
    Pair(data, 4, 0x00, 0x00);
  }

  lemma MoreDynamicPairs(data: seq<byte>)
    requires data == DynamicData()
    ensures TwoBytes(data, 10) == 0xfe1d && TwoBytes(data, 11) == 0x35fe && TwoBytes(data, 12) == 0xc035
    ensures TwoBytes(data, 13) == 0x93c0 && TwoBytes(data, 14) == 0x7493 && TwoBytes(data, 15) == 0x4f74
    ensures TwoBytes(data, 16) == 0x154f && TwoBytes(data, 17) == 0x15
  {
    hide TwoBytes, StreamByte;
    Pair(data, 10, 0x1d, 0xfe);
    Pair(data, 11, 0xfe, 0x35);
    Pair(data, 12, 0x35, 0xc0);
    Pair(data, 13, 0xc0, 0x93);
    LastPairs(data);
  }

  lemma LastPairs(data: seq<byte>)
    requires data == DynamicData()
    ensures TwoBytes(data, 14) == 0x7493 && TwoBytes(data, 15) == 0x4f74
    ensures TwoBytes(data, 16) == 0x154f && TwoBytes(data, 17) == 0x15
  {
    hide TwoBytes;
    Pair(data, 14, 0x93, 0x74);
    Pair(data, 15, 0x74, 0x4f);
    Pair(data, 16, 0x4f, 0x15);
    assert StreamByte(data, 17) == 0x15 && StreamByte(data, 18) == 0;
    PairIs(data, 17);
  }

  lemma Pair(data: seq<byte>, k: nat, low: byte, high: byte)
    requires k + 1 < |data| && data[k] == low && data[k + 1] == high
    ensures TwoBytes(data, k) == low as int + 256 * high
  {
  }

  lemma PairIs(data: seq<byte>, k: nat)
    ensures TwoBytes(data, k) == StreamByte(data, k) as int + 256 * StreamByte(data, k + 1)
  {
  }

  ghost predicate HeaderFields(data: seq<byte>) {
    && Peek(data, 0, 1) == 1 && Peek(data, 1, 2) == 2
    && Peek(data, 3, 5) == 1 && Peek(data, 8, 5) == 4 && Peek(data, 13, 4) == 14
  }

  /** The eighteen lengths that the header lists, in its order. */
  ghost predicate ListedLengths(data: seq<byte>) {
    && Peek(data, 17, 3) == 3 && Peek(data, 20, 3) == 3 && Peek(data, 23, 3) == 2
    && Peek(data, 26, 3) == 0 && Peek(data, 29, 3) == 0 && Peek(data, 32, 3) == 0 && Peek(data, 35, 3) == 0
    && Peek(data, 38, 3) == 0 && Peek(data, 41, 3) == 0 && Peek(data, 44, 3) == 0 && Peek(data, 47, 3) == 0
    && Peek(data, 50, 3) == 0 && Peek(data, 53, 3) == 0 && Peek(data, 56, 3) == 3 && Peek(data, 59, 3) == 0
    && Peek(data, 62, 3) == 2 && Peek(data, 65, 3) == 0 && Peek(data, 68, 3) == 3
  }

  lemma HeaderRead(data: seq<byte>)
    requires data == DynamicData()
    ensures HeaderFields(data)
  {
    hide Peek, TwoBytes, Pow2, DynamicData;
    Powers();
    DynamicPairs(data);
    Field(data, 0, 0, 1);
    Field(data, 0, 1, 2);
    Field(data, 0, 3, 5);
    Field(data, 1, 0, 5);
    Field(data, 1, 5, 4);
  }

  lemma ListRead(data: seq<byte>)
    requires data == DynamicData()
    ensures ListedLengths(data)
  {
    hide Peek, TwoBytes, Pow2, DynamicData;
    Powers();
    DynamicPairs(data);
    Field(data, 2, 1, 3);
    Field(data, 2, 4, 3);
    Field(data, 2, 7, 3);
    Field(data, 3, 2, 3);
    Field(data, 3, 5, 3);
    Field(data, 4, 0, 3);
    Field(data, 4, 3, 3);
    Field(data, 4, 6, 3);
    Field(data, 5, 1, 3);
    Field(data, 5, 4, 3);
    Field(data, 5, 7, 3);
    Field(data, 6, 2, 3);
    Field(data, 6, 5, 3);
    Field(data, 7, 0, 3);
    Field(data, 7, 3, 3);
    Field(data, 7, 6, 3);
    Field(data, 8, 1, 3);
    Field(data, 8, 4, 3);
  }

  lemma CodeLengthsSpelled(data: seq<byte>)
    requires ListedLengths(data)
    ensures CodeLengthCode(data, 17, 18, CL)
  {
    hide Peek;
  }

  // The runs of code lengths: their symbols and extra bits.

  ghost predicate RunFields(data: seq<byte>) {
    && Peek(data, 71, 2) == 2 && Peek(data, 73, 7) == 86
    && Peek(data, 80, 3) == 5
    && Peek(data, 83, 3) == 3 && Peek(data, 86, 2) == 0
    && Peek(data, 88, 2) == 2 && Peek(data, 90, 7) == 127
    && Peek(data, 97, 2) == 2 && Peek(data, 99, 7) == 6
    && Peek(data, 106, 2) == 0
    && Peek(data, 108, 2) == 0
    && Peek(data, 110, 3) == 7 && Peek(data, 113, 3) == 1
    && Peek(data, 116, 3) == 1
  }

  lemma RunsInNumerals(data: seq<byte>)
    requires data == DynamicData()
    ensures RunFields(data)
  {
    hide Peek, TwoBytes, Pow2, DynamicData;
    Powers();
    DynamicPairs(data);
    MoreDynamicPairs(data);
    Field(data, 8, 7, 2);
    Field(data, 9, 1, 7);
    Field(data, 10, 0, 3);
    Field(data, 10, 3, 3);
    Field(data, 10, 6, 2);
    Field(data, 11, 0, 2);
    Field(data, 11, 2, 7);
    Field(data, 12, 1, 2);
    Field(data, 12, 3, 7);
    Field(data, 13, 2, 2);
    Field(data, 13, 4, 2);
    Field(data, 13, 6, 3);
    Field(data, 14, 1, 3);
    Field(data, 14, 4, 3);
  }

  lemma ReverseSmall()
    ensures Reverse(0, 1) == 0 && Reverse(1, 1) == 1
    ensures Reverse(0, 2) == 0 && Reverse(1, 2) == 2 && Reverse(2, 2) == 1 && Reverse(3, 2) == 3
    ensures Reverse(1, 3) == 4 && Reverse(3, 3) == 6 && Reverse(5, 3) == 5 && Reverse(7, 3) == 7
  {
    hide Reverse, Pow2;
    Powers();
    ShortReverse();
    ReverseThree(1, 0);
    ReverseThree(3, 0);
    ReverseThree(5, 0);
    ReverseThree(7, 0);
  }

  /** The codewords of the code length code. */
  lemma CodeLengthCodewords()
    ensures CodeOf(CL, 2) == 0 && CodeOf(CL, 18) == 1
    ensures CodeOf(CL, 1) == 4 && CodeOf(CL, 3) == 5 && CodeOf(CL, 16) == 6 && CodeOf(CL, 17) == 7
  {
    hide Count, FirstCode;
    CodeLengthCounts();
    TwoThenThree(CL);
  }

  /** With no code of one bit and two of two bits, those of three bits begin at four. */
  lemma TwoThenThree(lens: seq<nat>)
    requires Total(lens, 1) == 0 && Total(lens, 2) == 2
    ensures FirstCode(lens, 2) == 0 && FirstCode(lens, 3) == 4
  {
    hide Total;
    assert EndCode(lens, 1) == 0 && EndCode(lens, 2) == 2;
  }

  lemma CodeLengthCounts()
    ensures Total(CL, 1) == 0 && Total(CL, 2) == 2
    ensures Count(CL, 2, 2) == 0 && Count(CL, 18, 2) == 1
    ensures Count(CL, 1, 3) == 0 && Count(CL, 3, 3) == 1 && Count(CL, 16, 3) == 2 && Count(CL, 17, 3) == 3
  {
    hide Count;
    CountTwos();
    CountOthers(CL, 0, 19, 1);
    NoneCounted(CL, 1);
    NoneCounted(CL, 3);
    CountOthers(CL, 0, 1, 3);
    CountRun(CL, 1, 2, 3);
    CountOthers(CL, 2, 3, 3);
    CountRun(CL, 3, 4, 3);
    CountOthers(CL, 4, 16, 3);
    CountRun(CL, 16, 17, 3);
  }

  lemma CountTwos()
    ensures Total(CL, 2) == 2 && Count(CL, 2, 2) == 0 && Count(CL, 18, 2) == 1
  {
    hide Count;
    NoneCounted(CL, 2);
    CountOthers(CL, 0, 2, 2);
    CountRun(CL, 2, 3, 2);
    CountOthers(CL, 3, 18, 2);
    CountRun(CL, 18, 19, 2);
  }

  lemma CodeLengthSymbol(data: seq<byte>, pos: nat, sym: nat, field: nat)
    requires sym < 19 && CL[sym] > 0 && Peek(data, pos, CL[sym]) == field && Reverse(field, CL[sym]) == CodeOf(CL, sym)
    ensures SymbolAt(CL, data, pos, sym)
  {
    hide Reverse, CodeOf, Peek, SymbolAt;
    SymbolOf(CL, data, pos, sym);
  }

  lemma RunNext(data: seq<byte>, pos: nat, r: Run, mid: nat, rest: seq<Run>, end: nat)
    requires pos < mid <= end && RunAt(CL, data, pos, r, mid) && RunsAt(CL, data, mid, rest, end)
    ensures RunsAt(CL, data, pos, [r] + rest, end)
  {
    hide RunAt;
    assert ([r] + rest)[0] == r && ([r] + rest)[1..] == rest;
  }

  /** The nine runs: 97 zeros, a three and three more, 138 and 17 zeros, two twos, four zeros, a one. */
  lemma FirstRuns(data: seq<byte>)
    requires RunFields(data)
    ensures RunAt(CL, data, 71, ManyZeros(97), 80) && RunAt(CL, data, 80, One(3), 83) && RunAt(CL, data, 83, Again(3), 88)
    ensures RunAt(CL, data, 88, ManyZeros(138), 97) && RunAt(CL, data, 97, ManyZeros(17), 106)
  {
    hide Peek, Reverse, CodeOf, SymbolAt;
    ReverseSmall();
    CodeLengthCodewords();
    CodeLengthSymbol(data, 71, 18, 2);
    CodeLengthSymbol(data, 80, 3, 5);
    CodeLengthSymbol(data, 83, 16, 3);
    CodeLengthSymbol(data, 88, 18, 2);
    CodeLengthSymbol(data, 97, 18, 2);
    NothingThere(data, 83);
  }

  lemma LastRuns(data: seq<byte>)
    requires RunFields(data)
    ensures RunAt(CL, data, 106, One(2), 108) && RunAt(CL, data, 108, One(2), 110) && RunAt(CL, data, 110, Zeros(4), 116)
    ensures RunAt(CL, data, 116, One(1), 119)
  {
    hide Peek, Reverse, CodeOf, SymbolAt;
    ReverseSmall();
    CodeLengthCodewords();
    CodeLengthSymbol(data, 106, 2, 0);
    CodeLengthSymbol(data, 108, 2, 0);
    CodeLengthSymbol(data, 110, 17, 7);
    CodeLengthSymbol(data, 116, 1, 1);
    NothingThere(data, 108);
    NothingThere(data, 110);
    NothingThere(data, 119);
  }

  lemma AllRuns(data: seq<byte>) returns (runs: seq<Run>)
    requires RunFields(data)
    ensures RunsAt(CL, data, 71, runs, 119) && Expand(runs, []) == Some(DynamicLit() + DYNAMIC_DIST)
  {
    hide RunFields, RunAt, RunsAt, Expand;
    FirstRuns(data);
    LastRuns(data);
    NoRuns(data, 119);
    RunNext(data, 116, One(1), 119, [], 119);
    runs := [One(1)] + [];
    RunNext(data, 110, Zeros(4), 116, runs, 119);
    runs := [Zeros(4)] + runs;
    RunNext(data, 108, One(2), 110, runs, 119);
    runs := [One(2)] + runs;
    RunNext(data, 106, One(2), 108, runs, 119);
    runs := [One(2)] + runs;
    LastLengths(runs);
    var last := runs;
    RunNext(data, 97, ManyZeros(17), 106, runs, 119);
    runs := [ManyZeros(17)] + runs;
    RunNext(data, 88, ManyZeros(138), 97, runs, 119);
    runs := [ManyZeros(138)] + runs;
    RunNext(data, 83, Again(3), 88, runs, 119);
    runs := [Again(3)] + runs;
    RunNext(data, 80, One(3), 83, runs, 119);
    runs := [One(3)] + runs;
    RunNext(data, 71, ManyZeros(97), 80, runs, 119);
    FirstLengths(last);
    runs := [ManyZeros(97)] + runs;
  }

  lemma NoRuns(data: seq<byte>, pos: nat)
    ensures RunsAt(CL, data, pos, [], pos)
  {
  }

  /** What a first run adds. */
  lemma ExpandZeros(r: Run, n: nat, rest: seq<Run>, acc: seq<nat>)
    requires r == Zeros(n) || r == ManyZeros(n)
    ensures Expand([r] + rest, acc) == Expand(rest, acc + Repeat(0, n))
  {
    assert ([r] + rest)[1..] == rest;
  }

  lemma ExpandOne(r: Run, len: nat, rest: seq<Run>, acc: seq<nat>)
    requires r == One(len)
    ensures Expand([r] + rest, acc) == Expand(rest, acc + [len])
  {
    assert ([r] + rest)[1..] == rest;
  }

  lemma ExpandAgain(r: Run, n: nat, rest: seq<Run>, acc: seq<nat>)
    requires r == Again(n) && acc != []
    ensures Expand([r] + rest, acc) == Expand(rest, acc + Repeat(acc[|acc| - 1], n))
  {
    assert ([r] + rest)[1..] == rest;
  }

  lemma LastLengths(runs: seq<Run>)
    requires runs == [One(2)] + ([One(2)] + ([Zeros(4)] + ([One(1)] + [])))
    ensures forall acc: seq<nat> :: Expand(runs, acc) == Some(acc + [2, 2, 0, 0, 0, 0, 1])
  {
    hide Expand;
    forall acc: seq<nat>
      ensures Expand(runs, acc) == Some(acc + [2, 2, 0, 0, 0, 0, 1])
    {
      ExpandOne(One(2), 2, [One(2)] + ([Zeros(4)] + ([One(1)] + [])), acc);
      ExpandOne(One(2), 2, [Zeros(4)] + ([One(1)] + []), acc + [2]);
      ExpandZeros(Zeros(4), 4, [One(1)] + [], acc + [2] + [2]);
      ExpandOne(One(1), 1, [], acc + [2] + [2] + Repeat(0, 4));
      ExpandNothing(acc + [2] + [2] + Repeat(0, 4) + [1]);
      assert acc + [2] + [2] + Repeat(0, 4) + [1] == acc + [2, 2, 0, 0, 0, 0, 1];
    }
  }

  lemma ExpandNothing(acc: seq<nat>)
    ensures Expand([], acc) == Some(acc)
  {
  }

  lemma FirstLengths(last: seq<Run>)
    requires forall acc: seq<nat> :: Expand(last, acc) == Some(acc + [2, 2, 0, 0, 0, 0, 1])
    ensures Expand([ManyZeros(97)] + ([One(3)] + ([Again(3)] + ([ManyZeros(138)] + ([ManyZeros(17)] + last)))), [])
            == Some(DynamicLit() + DYNAMIC_DIST)
  {
    hide Expand;
    var e := [ManyZeros(17)] + last;
    var d := [ManyZeros(138)] + e;
    var c := [Again(3)] + d;
    var b := [One(3)] + c;
    var acc1 := [] + Repeat(0, 97);
    var acc2 := acc1 + [3];
    var acc3 := acc2 + Repeat(3, 3);
    var acc4 := acc3 + Repeat(0, 138);
    var acc5 := acc4 + Repeat(0, 17);
    ExpandZeros(ManyZeros(97), 97, b, []);
    ExpandOne(One(3), 3, c, acc1);
    ExpandAgain(Again(3), 3, d, acc2);
    ExpandZeros(ManyZeros(138), 138, e, acc3);
    ExpandZeros(ManyZeros(17), 17, last, acc4);
    assert Expand(last, acc5) == Some(acc5 + [2, 2, 0, 0, 0, 0, 1]);
    assert acc5 + [2, 2, 0, 0, 0, 0, 1] == DynamicLit() + DYNAMIC_DIST;
  }

  lemma LargePowers()
    ensures Pow2(12) == 4096 && Pow2(13) == 8192 && Pow2(14) == 16384 && Pow2(15) == 32768
  {
  }

  lemma DynamicUsable()
    ensures Usable(CL) && Usable(DynamicLit()) && Usable(DYNAMIC_DIST)
  {
    hide KraftSum, Pow2, DynamicLit;
    LargePowers();
    ListUsable();
    LitKraft();
    KraftNone(DYNAMIC_DIST, MAX_BITS);
    KraftZeros(DYNAMIC_DIST, 0, 4, MAX_BITS);
    KraftRun(DYNAMIC_DIST, 4, 5, 1, MAX_BITS);
  }

  lemma ListUsable()
    ensures KraftSum(CL, 19, MAX_BITS) == 32768
  {
    hide KraftSum, Pow2;
    LargePowers();
    KraftNone(CL, MAX_BITS);
    KraftZeros(CL, 0, 1, MAX_BITS);
    KraftRun(CL, 1, 2, 3, MAX_BITS);
    KraftRun(CL, 2, 3, 2, MAX_BITS);
    KraftRun(CL, 3, 4, 3, MAX_BITS);
    KraftZeros(CL, 4, 16, MAX_BITS);
    KraftRun(CL, 16, 18, 3, MAX_BITS);
    KraftRun(CL, 18, 19, 2, MAX_BITS);
  }

  lemma LitKraft()
    ensures KraftSum(DynamicLit(), 258, MAX_BITS) == 32768
  {
    hide KraftSum, Pow2;
    var lens := DynamicLit();
    LargePowers();
    KraftNone(lens, MAX_BITS);
    KraftZeros(lens, 0, 97, MAX_BITS);
    KraftRun(lens, 97, 101, 3, MAX_BITS);
    KraftZeros(lens, 101, 256, MAX_BITS);
    KraftRun(lens, 256, 258, 2, MAX_BITS);
  }

  lemma DynamicHeaderAt(data: seq<byte>)
    requires HeaderFields(data) && ListedLengths(data) && RunFields(data)
    ensures HeaderAt(data, 3, DynamicLit(), DYNAMIC_DIST, 119)
  {
    hide Peek, ListedLengths, RunFields, CodeLengthCode, RunsAt, Expand, Usable, DynamicLit;
    CodeLengthsSpelled(data);
    DynamicUsable();
    var runs := AllRuns(data);
  }

  // The tokens behind the header.

  ghost predicate TokenFields(data: seq<byte>) {
    && Peek(data, 119, 3) == 1 && Peek(data, 122, 3) == 5 && Peek(data, 125, 3) == 3 && Peek(data, 128, 3) == 7
    && Peek(data, 131, 3) == 1 && Peek(data, 134, 3) == 5
    && Peek(data, 137, 2) == 2 && Peek(data, 139, 1) == 0 && Peek(data, 140, 1) == 1 && Peek(data, 141, 2) == 0
  }

  lemma TokensInNumerals(data: seq<byte>)
    requires data == DynamicData()
    ensures TokenFields(data)
  {
    hide Peek, TwoBytes, Pow2, DynamicData;
    Powers();
    MoreDynamicPairs(data);
    Field(data, 14, 7, 3);
    Field(data, 15, 2, 3);
    Field(data, 15, 5, 3);
    Field(data, 16, 0, 3);
    Field(data, 16, 3, 3);
    Field(data, 16, 6, 3);
    Field(data, 17, 1, 2);
    Field(data, 17, 3, 1);
    Field(data, 17, 4, 1);
    Field(data, 17, 5, 2);
  }

  lemma LitCodewords()
    ensures forall s :: 97 <= s <= 100 ==> CodeOf(DynamicLit(), s) == s - 93
    ensures CodeOf(DynamicLit(), 256) == 0 && CodeOf(DynamicLit(), 257) == 1 && CodeOf(DYNAMIC_DIST, 4) == 0
  {
    hide Count, FirstCode;
    var lens := DynamicLit();
    LitCounts();
    TwoThenThree(lens);
    NoneCounted(DYNAMIC_DIST, 1);
    CountOthers(DYNAMIC_DIST, 0, 4, 1);
    FirstIsZero(DYNAMIC_DIST);
    forall s | 97 <= s <= 100
      ensures CodeOf(lens, s) == s - 93
    {
      CountRun(lens, 97, s, 3);
    }
  }

  lemma FirstIsZero(lens: seq<nat>)
    ensures FirstCode(lens, 1) == 0
  {
  }

  lemma LitCounts()
    ensures var lens := DynamicLit();
            && Total(lens, 1) == 0 && Total(lens, 2) == 2
            && Count(lens, 97, 3) == 0 && Count(lens, 256, 2) == 0 && Count(lens, 257, 2) == 1
  {
    hide Count;
    var lens := DynamicLit();
    NoneCounted(lens, 1);
    CountOthers(lens, 0, 258, 1);
    NoneCounted(lens, 2);
    CountOthers(lens, 0, 256, 2);
    CountRun(lens, 256, 257, 2);
    CountRun(lens, 256, 258, 2);
    NoneCounted(lens, 3);
    CountOthers(lens, 0, 97, 3);
  }

  lemma LetterAt(data: seq<byte>, pos: nat, i: nat, field: nat)
    requires i < 4 && Peek(data, pos, 3) == field && Reverse(field, 3) == 4 + i
    ensures TokenAt(DynamicLit(), DYNAMIC_DIST, data, pos, Literal((97 + i) as byte), pos + 3)
  {
    hide Peek, Reverse, CodeOf, SymbolAt;
    LitCodewords();
    SymbolOf(DynamicLit(), data, pos, 97 + i);
  }

  lemma CopyAt(data: seq<byte>)
    requires TokenFields(data)
    ensures TokenAt(DynamicLit(), DYNAMIC_DIST, data, 137, Copy(257, 0, 4, 1), 141)
    ensures SymbolAt(DynamicLit(), data, 141, 256)
  {
    hide Peek, Reverse, CodeOf, SymbolAt;
    ReverseSmall();
    LitCodewords();
    SymbolOf(DynamicLit(), data, 137, 257);
    SymbolOf(DYNAMIC_DIST, data, 139, 4);
    SymbolOf(DynamicLit(), data, 141, 256);
    assert LengthExtra(257) == 0 && DistExtra(4) == 1;
    NothingThere(data, 139);
  }

  lemma DynamicSpelled(data: seq<byte>) returns (tokens: seq<Token>)
    requires TokenFields(data)
    ensures Spelled(DynamicLit(), DYNAMIC_DIST, data, 119, tokens, 143)
    ensures Meaning(tokens, []) == Some([97, 98, 99, 100, 97, 98, 97, 98, 99])
  {
    hide Peek, Reverse, SymbolAt, TokenAt, Spelled, Meaning, DynamicLit, CopyMatch;
    var lit, dist := DynamicLit(), DYNAMIC_DIST;
    ReverseSmall();
    CopyAt(data);
    SpellLast(data);
    tokens := [Copy(257, 0, 4, 1)] + [];
    LetterAt(data, 134, 1, 5);
    SpellNext(lit, dist, data, 134, Literal(98), 137, tokens, 143);
    tokens := [Literal(98)] + tokens;
    LetterAt(data, 131, 0, 1);
    SpellNext(lit, dist, data, 131, Literal(97), 134, tokens, 143);
    tokens := [Literal(97)] + tokens;
    LetterAt(data, 128, 3, 7);
    SpellNext(lit, dist, data, 128, Literal(100), 131, tokens, 143);
    tokens := [Literal(100)] + tokens;
    LetterAt(data, 125, 2, 3);
    SpellNext(lit, dist, data, 125, Literal(99), 128, tokens, 143);
    tokens := [Literal(99)] + tokens;
    LetterAt(data, 122, 1, 5);
    SpellNext(lit, dist, data, 122, Literal(98), 125, tokens, 143);
    tokens := [Literal(98)] + tokens;
    LetterAt(data, 119, 0, 1);
    SpellNext(lit, dist, data, 119, Literal(97), 122, tokens, 143);
    tokens := [Literal(97)] + tokens;
    LettersMean(tokens);
  }

  lemma SpellLast(data: seq<byte>)
    requires TokenAt(DynamicLit(), DYNAMIC_DIST, data, 137, Copy(257, 0, 4, 1), 141)
    requires SymbolAt(DynamicLit(), data, 141, 256)
    ensures Spelled(DynamicLit(), DYNAMIC_DIST, data, 137, [Copy(257, 0, 4, 1)] + [], 143)
  {
    hide SymbolAt, TokenAt, Spelled;
    SpellEnd(DynamicLit(), DYNAMIC_DIST, data, 141, 143);
    SpellNext(DynamicLit(), DYNAMIC_DIST, data, 137, Copy(257, 0, 4, 1), 141, [], 143);
  }

  lemma LettersMean(tokens: seq<Token>)
    requires tokens == [Literal(97)] + ([Literal(98)] + ([Literal(99)] + ([Literal(100)] + ([Literal(97)] + ([Literal(98)]
                       + ([Copy(257, 0, 4, 1)] + []))))))
    ensures Meaning(tokens, []) == Some([97, 98, 99, 100, 97, 98, 97, 98, 99])
  {
    hide Meaning, CopyMatch;
    var t7: seq<Token> := [Copy(257, 0, 4, 1)] + [];
    var t6: seq<Token> := [Literal(98)] + t7;
    var t5: seq<Token> := [Literal(97)] + t6;
    var t4: seq<Token> := [Literal(100)] + t5;
    var t3: seq<Token> := [Literal(99)] + t4;
    var t2: seq<Token> := [Literal(98)] + t3;
    MeansLiteral(97, t2, []);
    MeansLiteral(98, t3, [] + [97]);
    MeansLiteral(99, t4, [] + [97] + [98]);
    MeansLiteral(100, t5, [] + [97] + [98] + [99]);
    MeansLiteral(97, t6, [] + [97] + [98] + [99] + [100]);
    MeansLiteral(98, t7, [] + [97] + [98] + [99] + [100] + [97]);
    var six: seq<byte> := [97, 98, 99, 100, 97, 98];
    assert [] + [97 as byte] + [98] + [99] + [100] + [97] + [98] == six;
    assert LengthBase(257) == 3 && DistBase(4) == 5 by {
      DistanceGroups(4);
      SmallPowers();
    }
    MeansCopy(Copy(257, 0, 4, 1), [], six, 3, 6);
    ThreeFromSix(six);
    MeansNothing(CopyMatch(six, 6, 3));
  }

  lemma ThreeFromSix(six: seq<byte>)
    requires six == [97, 98, 99, 100, 97, 98]
    ensures CopyMatch(six, 6, 3) == [97, 98, 99, 100, 97, 98, 97, 98, 99]
  {
    hide CopyMatch;
    var r := CopyMatch(six, 6, 3);
    CopyIsPeriodic(six, 6, 3, 0);
    CopyIsPeriodic(six, 6, 3, 1);
    CopyIsPeriodic(six, 6, 3, 2);
    assert r[..6] == six && r == r[..6] + [r[6], r[7], r[8]];
  }

  /** A whole dynamic stream. */
  lemma DynamicText()
    ensures Inflate(DynamicData(), false, 143) == Accept([97, 98, 99, 100, 97, 98, 97, 98, 99], 143)
  {
    hide Peek, BlockAt, HeaderFields, ListedLengths, RunFields, TokenFields, DynamicData, DynamicLit, Blocks;
    var data := DynamicData();
    var v: seq<byte> := [97, 98, 99, 100, 97, 98, 97, 98, 99];
    HeaderRead(data);
    ListRead(data);
    RunsInNumerals(data);
    TokensInNumerals(data);
    DynamicHeaderAt(data);
    DynamicBlockAt(data, v);
    OneBlock(data, 0, v, 143);
  }

  lemma DynamicBlockAt(data: seq<byte>, v: seq<byte>)
    requires HeaderFields(data) && TokenFields(data) && v == [97, 98, 99, 100, 97, 98, 97, 98, 99]
    requires HeaderAt(data, 3, DynamicLit(), DYNAMIC_DIST, 119)
    ensures Peek(data, 0, 1) == 1 && BlockAt(data, 0, [], v, 143)
  {
    hide Peek, TokenFields, HeaderAt, Spelled, Meaning, DynamicLit;
    var tokens := DynamicSpelled(data);
    assert BodyAt(DynamicLit(), DYNAMIC_DIST, data, 119, [], v, 143);
    assert DynamicAt(data, 3, [], v, 143);
  }
}
