/** DEFLATE as RFC 1951 describes it: a reference decoder that reads Huffman codes one bit at a time.

    The input is followed by zero bits; the decoder may look at the first limit bits. With
    limit == 8 * |data| this is the decoder of the RFC; larger limits read into the zero padding. */
module Deflate {
  import opened Bits
  import opened CanonicalCode

  /** Accept: a value, and the position after it. Reject: not DEFLATE data. Truncated: more than limit
      bits are needed. Reserved: a value the RFC says never occurs, on which no decoder is constrained. */
  datatype Outcome<T> = Accept(value: T, pos: nat) | Reject | Truncated | Reserved {
    predicate Decided() { Accept? || Reject? }
  }

  predicate KraftOk(lens: seq<nat>)
    requires ValidLengths(lens, MAX_BITS)
  {
    KraftSum(lens, |lens|, MAX_BITS) <= Pow2(MAX_BITS)
  }

  // ----- section 3.2.5: lengths and distances -----

  function LengthExtra(sym: nat): nat
    requires 257 <= sym <= 285
  {
    if sym < 265 || sym == 285 then 0 else (sym - 261) / 4
  }

  function LengthBase(sym: nat): nat
    requires 257 <= sym <= 285
  {
    if sym < 265 then sym - 254
    else if sym == 285 then 258
    else Shl(4 + (sym - 265) % 4, LengthExtra(sym)) + 3
  }

  /** The length symbols cover the lengths 3 to 258 without gaps: each begins where the one before it ends; the last
      one stands for 258 alone. */
  lemma LengthsTile(sym: nat)
    requires 257 <= sym <= 284
    ensures LengthBase(257) == 3 && LengthBase(285) == 258 && LengthExtra(285) == 0
    ensures LengthBase(sym) + Pow2(LengthExtra(sym)) == if sym < 284 then LengthBase(sym + 1) else 259
  {
    hide Pow2, Shl;
    SmallPowers();
    if sym == 264 {
      LengthGroups(265);
    } else if sym > 264 {
      LengthGroupsStep(sym);
    }
  }

  lemma LengthGroupsStep(sym: nat)
    requires 265 <= sym <= 284
    ensures LengthBase(sym) + Pow2(LengthExtra(sym)) == if sym < 284 then LengthBase(sym + 1) else 259
  {
    hide Pow2, Shl, LengthBase;
    var r, p := (sym - 265) % 4, Pow2(LengthExtra(sym));
    LengthGroups(sym);
    assert (4 + r) * p + p == (5 + r) * p;
    if sym < 284 {
      LengthGroups(sym + 1);
      NextOfFour(sym - 265);
      Doubled(LengthExtra(sym));
    } else {
      SmallPowers();
    }
  }

  /** From symbol 264 on the lengths go in groups of four. */
  lemma LengthGroups(sym: nat)
    requires 264 <= sym <= 284
    ensures LengthExtra(sym) == (if sym == 264 then 0 else (sym - 261) / 4)
    ensures LengthBase(sym) == (if sym == 264 then 10 else (4 + (sym - 265) % 4) * Pow2(LengthExtra(sym)) + 3)
  {
    hide Pow2, Shl;
    if sym > 264 {
      ShlTimes(4 + (sym - 265) % 4, LengthExtra(sym));
    }
  }

  lemma SmallPowers()
    ensures Pow2(0) == 1 && Pow2(1) == 2 && Pow2(5) == 32
  {
  }

  lemma NextOfFour(i: nat)
    ensures i % 4 < 3 ==> (i + 1) % 4 == i % 4 + 1 && (i + 5) / 4 == (i + 4) / 4
    ensures i % 4 == 3 ==> (i + 1) % 4 == 0 && (i + 5) / 4 == (i + 4) / 4 + 1
  {
  }

  lemma Doubled(e: nat)
    ensures Pow2(e + 1) == 2 * Pow2(e) && Pow2(1) == 2
  {
  }

  lemma {:induction false} ShlTimes(x: nat, n: nat)
    ensures Shl(x, n) == x * Pow2(n)
    decreases n
  {
    if n > 0 {
      ShlTimes(x, n - 1);
    }
  }

  /** And the distance symbols the distances 1 to 32768. */
  lemma DistancesTile(sym: nat)
    requires sym <= 29
    ensures DistBase(0) == 1
    ensures DistBase(sym) + Pow2(DistExtra(sym)) == if sym < 29 then DistBase(sym + 1) else 32769
  {
    hide Pow2, Shl;
    SmallPowers();
    if sym >= 3 {
      hide DistBase;
      DistanceGroups(sym);
      if sym < 29 {
        DistanceGroups(sym + 1);
        Doubled(DistExtra(sym));
      } else {
        LargestExtra();
      }
    }
  }

  /** From symbol 3 on the distances go in groups of two. */
  lemma DistanceGroups(sym: nat)
    requires 3 <= sym <= 29
    ensures DistExtra(sym) == (if sym == 3 then 0 else (sym - 2) / 2)
    ensures DistBase(sym) == (if sym == 3 then 4 else (2 + sym % 2) * Pow2(DistExtra(sym)) + 1)
  {
    hide Pow2, Shl;
    if sym > 3 {
      ShlTimes(2 + sym % 2, DistExtra(sym));
    }
  }

  lemma LargestExtra()
    ensures Pow2(13) == 8192
  {
  }

  function DistExtra(sym: nat): nat
    requires sym <= 29
  {
    if sym < 4 then 0 else (sym - 2) / 2
  }

  function DistBase(sym: nat): nat
    requires sym <= 29
  {
    if sym < 4 then sym + 1 else Shl(2 + sym % 2, DistExtra(sym)) + 1
  }

  /** Append len bytes, each a copy of the byte dist places before it; the copy may overlap itself. */
  function CopyMatch(out: seq<byte>, dist: nat, len: nat): (r: seq<byte>)
    requires 1 <= dist <= |out|
    ensures |r| == |out| + len && out <= r
    decreases len
  {
    if len == 0 then out else CopyMatch(out + [out[|out| - dist]], dist, len - 1)
  }

  /** The appended bytes repeat the last dist bytes periodically. */
  lemma {:induction false} CopyIsPeriodic(out: seq<byte>, dist: nat, len: nat, i: nat)
    requires 1 <= dist <= |out| && i < len
    ensures CopyMatch(out, dist, len)[|out| + i] == out[|out| - dist + i % dist]
    decreases len
  {
    var next := out + [out[|out| - dist]];
    if i == 0 {
      assert next <= CopyMatch(next, dist, len - 1);
    } else {
      CopyIsPeriodic(next, dist, len - 1, i - 1);
      var j := (i - 1) % dist;
      if j == dist - 1 {
        ModWrap(i, dist);
      } else {
        ModStep(i, dist);
      }
    }
  }

  lemma ModStep(i: nat, d: nat)
    requires i >= 1 && d >= 1 && (i - 1) % d != d - 1
    ensures i % d == (i - 1) % d + 1
  {
    var q, r := (i - 1) / d, (i - 1) % d;
    assert i == d * q + (r + 1);
    DivModUnique(i, d, q, r + 1);
  }

  lemma ModWrap(i: nat, d: nat)
    requires i >= 1 && d >= 1 && (i - 1) % d == d - 1
    ensures i % d == 0
  {
    var q := (i - 1) / d;
    assert i == d * q + d;
    assert d * (q + 1) == d * q + d;
    DivModUnique(i, d, q + 1, 0);
  }

  lemma DivModUnique(x: int, m: int, q: int, r: int)
    requires m > 0 && x == m * q + r && 0 <= r < m
    ensures x / m == q && x % m == r
  {
    var e := x / m - q;
    assert m * (x / m) + x % m == x;
    assert m * e == r - x % m;
    MulBounds(m, e);
  }

  lemma MulBounds(m: int, e: int)
    requires m > 0
    ensures e >= 1 ==> m * e >= m
    ensures e <= -1 ==> m * e <= -m
  {
  }

  // ----- the compressed data of one block -----

  function Body(lit: seq<nat>, dist: seq<nat>, data: seq<byte>, pos: nat, out: seq<byte>, limit: nat)
    : (r: Outcome<seq<byte>>)
    ensures r.Accept? ==> pos <= r.pos <= limit && out <= r.value
    decreases limit - pos
  {
    match DecodeSymbol(lit, data, pos, MAX_BITS)
    case Invalid => Reject
    case Symbol(sym, n) =>
      var p := pos + n;
      if p > limit then Truncated
      else if sym < 256 then Body(lit, dist, data, p, out + [sym], limit)
      else if sym == 256 then Accept(out, p)
      else if sym > 285 then Reserved
      else
        match Match(dist, data, p, sym, |out|, limit)
        case Accept((len, distance), q) => Body(lit, dist, data, q, CopyMatch(out, distance, len), limit)
        case Reject => Reject
        case Truncated => Truncated
        case Reserved => Reserved
  }

  /** The rest of a match whose length symbol ended at pos: its length and its distance into size bytes. */
  function Match(dist: seq<nat>, data: seq<byte>, pos: nat, sym: nat, size: nat, limit: nat)
    : (r: Outcome<(nat, nat)>)
    requires 257 <= sym <= 285
    ensures r.Accept? ==> pos <= r.pos <= limit && 1 <= r.value.1 <= size
  {
    var len := LengthBase(sym) + Peek(data, pos, LengthExtra(sym));
    var p := pos + LengthExtra(sym);
    match DecodeSymbol(dist, data, p, MAX_BITS)
    case Invalid => Reject
    case Symbol(d, n) =>
      if d > 29 then Reserved
      else
        var distance := DistBase(d) + Peek(data, p + n, DistExtra(d));
        var q := p + n + DistExtra(d);
        if q > limit then Truncated
        else if distance > size then Reject
        else Accept((len, distance), q)
  }

  /** A match takes at most 33 bits after its length symbol and gives at least three bytes. */
  lemma MatchBits(dist: seq<nat>, data: seq<byte>, pos: nat, sym: nat, size: nat, limit: nat)
    requires 257 <= sym <= 285
    ensures var m := Match(dist, data, pos, sym, size, limit);
            && (m.Truncated? ==> limit < pos + 33)
            && (m.Accept? ==> m.pos <= pos + 33 && m.value.0 >= 3)
  {
    hide DecodeSymbol, Peek, Shl;
  }

  /** One round of the reference decoder, on input on which it does not give up before the next 48 bits. */
  lemma BodyStep(lit: seq<nat>, dist: seq<nat>, data: seq<byte>, pos: nat, out: seq<byte>, limit: nat)
    requires !Body(lit, dist, data, pos, out, limit).Reserved?
    requires Body(lit, dist, data, pos, out, limit).Truncated? ==> pos + 48 <= limit
    ensures var r := Body(lit, dist, data, pos, out, limit);
            match DecodeSymbol(lit, data, pos, MAX_BITS)
            case Invalid => r == Reject
            case Symbol(sym, n) =>
              && pos < pos + n <= limit
              && (sym < 256 ==> r == Body(lit, dist, data, pos + n, out + [sym], limit))
              && (sym == 256 ==> r == Accept(out, pos + n))
              && (sym > 256 ==>
                    && sym <= 285
                    && var m := Match(dist, data, pos + n, sym, |out|, limit);
                    && m.Decided()
                    && (m == Reject ==> r == Reject)
                    && (m.Accept? ==>
                          r == Body(lit, dist, data, m.pos, CopyMatch(out, m.value.1, m.value.0), limit)))
  {
    hide DecodeSymbol, Match, CopyMatch;
    var d := DecodeSymbol(lit, data, pos, MAX_BITS);
    if d.Symbol? && 257 <= d.sym <= 285 {
      MatchBits(dist, data, pos + d.bits, d.sym, |out|, limit);
    }
  }

  // ----- section 3.2.7: dynamic Huffman codes -----

  const CODE_LENGTH_ORDER: seq<nat> := [16, 17, 18, 0, 8, 7, 9, 6, 10, 5, 11, 4, 12, 3, 13, 2, 14, 1, 15]

  /** The code lengths of the code length alphabet: n three-bit values in the order of the RFC, then zeros. */
  function CodeLengthLens(data: seq<byte>, pos: nat, n: nat): (lens: seq<nat>)
    requires n <= 19
    ensures |lens| == 19 && forall i :: 0 <= i < 19 ==> lens[i] <= 7
  {
    if n == 0 then seq(19, _ => 0)
    else
      PeekBound(data, pos + 3 * (n - 1), 3);
      assert Pow2(3) == 8;
      CodeLengthLens(data, pos, n - 1)[CODE_LENGTH_ORDER[n - 1] := Peek(data, pos + 3 * (n - 1), 3)]
  }

  function Repeat(v: nat, n: nat): seq<nat> {
    seq(n, _ => v)
  }

  /** Code lengths up to the given total; repeat counts may cross from literal to distance lengths. */
  function Lengths(cl: seq<nat>, data: seq<byte>, pos: nat, total: nat, acc: seq<nat>, limit: nat)
    : (r: Outcome<seq<nat>>)
    requires |cl| == 19 && ValidLengths(acc, MAX_BITS) && pos <= limit
    ensures r.Accept? ==> pos <= r.pos <= limit && |r.value| == total && ValidLengths(r.value, MAX_BITS)
    decreases limit - pos
  {
    if |acc| >= total then
      if |acc| == total then Accept(acc, pos) else Reject
    else
      match DecodeSymbol(cl, data, pos, MAX_BITS)
      case Invalid => Reject
      case Symbol(c, n) =>
        var p := pos + n;
        if c == 16 && acc == [] then Reserved
        else if p + LengthOpBits(c) > limit then Truncated
        else Lengths(cl, data, p + LengthOpBits(c), total, acc + LengthOp(c, data, p, acc), limit)
  }

  function LengthOpBits(c: nat): nat {
    if c < 16 then 0 else if c == 16 then 2 else if c == 17 then 3 else 7
  }

  /** The lengths that code length symbol c, followed by its extra bits at p, appends to acc. */
  function LengthOp(c: nat, data: seq<byte>, p: nat, acc: seq<nat>): seq<nat>
    requires c == 16 ==> acc != []
  {
    if c < 16 then [c]
    else if c == 16 then Repeat(acc[|acc| - 1], 3 + Peek(data, p, 2))
    else if c == 17 then Repeat(0, 3 + Peek(data, p, 3))
    else Repeat(0, 11 + Peek(data, p, 7))
  }

  lemma CodeLengthLensShape(data: seq<byte>, pos: nat, n: nat)
    requires n <= 19
    ensures |CodeLengthLens(data, pos, n)| == 19 && ValidLengths(CodeLengthLens(data, pos, n), MAX_BITS)
  {
  }

  lemma CountBounds(data: seq<byte>, pos: nat)
    ensures Peek(data, pos, 5) <= 31 && Peek(data, pos + 5, 5) <= 31 && Peek(data, pos + 10, 4) <= 15
  {
    PeekBound(data, pos, 5);
    PeekBound(data, pos + 5, 5);
    PeekBound(data, pos + 10, 4);
    assert Pow2(5) == 32 && Pow2(4) == 16;
  }

  /** The two codes of a dynamic block, when both are codes. */
  function TwoCodes(lit: seq<nat>, dist: seq<nat>, pos: nat): (r: Outcome<(seq<nat>, seq<nat>)>)
    requires ValidLengths(lit, MAX_BITS) && ValidLengths(dist, MAX_BITS)
    ensures r.Accept? ==> r.pos == pos && r.value == (lit, dist) && KraftOk(lit) && KraftOk(dist)
  {
    if KraftOk(lit) && KraftOk(dist) then Accept((lit, dist), pos) else Reject
  }

  /** The code lengths of both alphabets, read one after the other. */
  function BothCodes(cl: seq<nat>, data: seq<byte>, pos: nat, hlit: nat, hdist: nat, limit: nat)
    : (r: Outcome<(seq<nat>, seq<nat>)>)
    requires |cl| == 19 && pos <= limit
    ensures r.Accept? ==>
              && pos <= r.pos <= limit && |r.value.0| == hlit && |r.value.1| == hdist
              && ValidLengths(r.value.0, MAX_BITS) && ValidLengths(r.value.1, MAX_BITS)
              && KraftOk(r.value.0) && KraftOk(r.value.1)
  {
    match Lengths(cl, data, pos, hlit + hdist, [], limit)
    case Accept(lens, q) => TwoCodes(lens[..hlit], lens[hlit..], q)
    case Reject => Reject
    case Truncated => Truncated
    case Reserved => Reserved
  }

  /** The literal/length and distance code lengths of a dynamic block header at pos. */
  function DynamicHeader(data: seq<byte>, pos: nat, limit: nat): (r: Outcome<(seq<nat>, seq<nat>)>)
    ensures r.Accept? ==>
              && pos <= r.pos <= limit && |r.value.0| <= 286 && |r.value.1| <= 32
              && ValidLengths(r.value.0, MAX_BITS) && ValidLengths(r.value.1, MAX_BITS)
              && KraftOk(r.value.0) && KraftOk(r.value.1)
  {
    var hlit := Peek(data, pos, 5) + 257;
    var hdist := Peek(data, pos + 5, 5) + 1;
    var hclen := Peek(data, pos + 10, 4) + 4;
    CountBounds(data, pos);
    var p := pos + 14 + 3 * hclen;
    if p > limit then Truncated
    else if hlit > 286 then Reserved
    else
      var cl := CodeLengthLens(data, pos + 14, hclen);
      if !KraftOk(cl) then Reject else BothCodes(cl, data, p, hlit, hdist, limit)
  }

  // ----- section 3.2.6: fixed codes -----

  function FixedLit(): (lens: seq<nat>)
    ensures |lens| == 288 && ValidLengths(lens, MAX_BITS)
  {
    seq(288, i => if i <= 143 then 8 else if i <= 255 then 9 else if i <= 279 then 7 else 8)
  }

  function FixedDist(): (lens: seq<nat>)
    ensures |lens| == 32 && ValidLengths(lens, MAX_BITS)
  {
    seq(32, _ => 5)
  }

  // ----- sections 3.2.3 and 3.2.4: blocks -----

  function StoredLen(data: seq<byte>, p: nat): nat {
    StreamByte(data, p) + 256 * StreamByte(data, p + 1)
  }

  /** A stored block whose header bits ended at pos: its data starts at the next byte boundary. */
  function Stored(data: seq<byte>, pos: nat, out: seq<byte>, limit: nat): (r: Outcome<seq<byte>>)
    ensures r.Accept? ==> pos <= r.pos <= limit && out <= r.value
  {
    var p := (pos + 7) / 8;
    var len := StoredLen(data, p);
    if 8 * (p + 4) > limit then Truncated
    else if StoredLen(data, p + 2) != 65535 - len then Reject
    else if p + 4 + len > |data| then Reject
    else if 8 * (p + 4 + len) > limit then Truncated
    else Accept(out + data[p + 4..p + 4 + len], 8 * (p + 4 + len))
  }

  function Block(data: seq<byte>, pos: nat, out: seq<byte>, limit: nat): (r: Outcome<seq<byte>>)
    ensures r.Accept? ==> pos + 3 <= r.pos <= limit && out <= r.value
  {
    if pos + 3 > limit then Truncated
    else
      match Peek(data, pos + 1, 2)
      case 0 => Stored(data, pos + 3, out, limit)
      case 1 => Body(FixedLit(), FixedDist(), data, pos + 3, out, limit)
      case 2 => DynamicBlock(data, pos + 3, out, limit)
      case _ => Reject
  }

  function DynamicBlock(data: seq<byte>, pos: nat, out: seq<byte>, limit: nat): (r: Outcome<seq<byte>>)
    ensures r.Accept? ==> pos <= r.pos <= limit && out <= r.value
  {
    match DynamicHeader(data, pos, limit)
    case Accept((lit, dist), q) => Body(lit, dist, data, q, out, limit)
    case Reject => Reject
    case Truncated => Truncated
    case Reserved => Reserved
  }

  /** All blocks up to and including the first one marked final. */
  function Blocks(data: seq<byte>, pos: nat, out: seq<byte>, limit: nat): (r: Outcome<seq<byte>>)
    ensures r.Accept? ==> pos <= r.pos <= limit && out <= r.value
    decreases limit - pos
  {
    var r := Block(data, pos, out, limit);
    if r.Accept? && Peek(data, pos, 1) == 0 then Blocks(data, r.pos, r.value, limit) else r
  }

  /** The two-byte zlib header (RFC 1950, section 2.2), DEFLATE without a preset dictionary. */
  predicate HeaderOk(data: seq<byte>) {
    var cmf, flg := StreamByte(data, 0), StreamByte(data, 1);
    (cmf * 256 + flg) % 31 == 0 && (flg / 32) % 2 == 0 && cmf % 16 == 8
  }

  /** A raw DEFLATE stream, or one behind a zlib header. */
  function Inflate(data: seq<byte>, header: bool, limit: nat): (r: Outcome<seq<byte>>)
  {
    if !header then Blocks(data, 0, [], limit)
    else if HeaderOk(data) then Blocks(data, 16, [], limit)
    else Reject
  }

  // ----- the limit only decides when to give up -----

  lemma MatchLimit(dist: seq<nat>, data: seq<byte>, pos: nat, sym: nat, size: nat, a: nat, b: nat)
    requires a <= b && 257 <= sym <= 285
    ensures !Match(dist, data, pos, sym, size, a).Truncated? ==>
              Match(dist, data, pos, sym, size, b) == Match(dist, data, pos, sym, size, a)
  {
    hide DecodeSymbol, LengthBase, LengthExtra, DistBase, DistExtra, Peek;
  }

  lemma {:induction false} BodyLimit(lit: seq<nat>, dist: seq<nat>, data: seq<byte>, pos: nat, out: seq<byte>,
                                     a: nat, b: nat)
    requires a <= b && !Body(lit, dist, data, pos, out, a).Truncated?
    ensures Body(lit, dist, data, pos, out, b) == Body(lit, dist, data, pos, out, a)
    decreases a - pos
  {
    hide DecodeSymbol, CopyMatch, Match;
    var d := DecodeSymbol(lit, data, pos, MAX_BITS);
    if d.Symbol? && pos + d.bits <= a {
      var p := pos + d.bits;
      if d.sym < 256 {
        BodyLimit(lit, dist, data, p, out + [d.sym], a, b);
      } else if 256 < d.sym <= 285 {
        var m := Match(dist, data, p, d.sym, |out|, a);
        MatchLimit(dist, data, p, d.sym, |out|, a, b);
        if m.Accept? {
          BodyLimit(lit, dist, data, m.pos, CopyMatch(out, m.value.1, m.value.0), a, b);
        }
      }
    }
  }

  lemma OpValid(c: nat, data: seq<byte>, p: nat, acc: seq<nat>)
    requires c < 19 && (c == 16 ==> acc != []) && ValidLengths(acc, MAX_BITS)
    ensures ValidLengths(acc + LengthOp(c, data, p, acc), MAX_BITS)
  {
    hide Peek;
  }

  lemma {:induction false} LengthsLimit(cl: seq<nat>, data: seq<byte>, pos: nat, total: nat, acc: seq<nat>,
                                        a: nat, b: nat)
    requires |cl| == 19 && ValidLengths(acc, MAX_BITS) && pos <= a <= b
    requires !Lengths(cl, data, pos, total, acc, a).Truncated?
    ensures Lengths(cl, data, pos, total, acc, b) == Lengths(cl, data, pos, total, acc, a)
    decreases a - pos
  {
    hide DecodeSymbol, LengthOp, LengthOpBits;
    if |acc| < total {
      var d := DecodeSymbol(cl, data, pos, MAX_BITS);
      if d.Symbol? && !(d.sym == 16 && acc == []) {
        var p := pos + d.bits;
        OpValid(d.sym, data, p, acc);
        LengthsLimit(cl, data, p + LengthOpBits(d.sym), total, acc + LengthOp(d.sym, data, p, acc), a, b);
      }
    }
  }

  lemma DynamicHeaderLimit(data: seq<byte>, pos: nat, a: nat, b: nat)
    requires a <= b && !DynamicHeader(data, pos, a).Truncated?
    ensures DynamicHeader(data, pos, b) == DynamicHeader(data, pos, a)
  {
    hide Lengths, CodeLengthLens, KraftOk;
    var hlit := Peek(data, pos, 5) + 257;
    var hclen := Peek(data, pos + 10, 4) + 4;
    CountBounds(data, pos);
    if hlit <= 286 {
      var cl := CodeLengthLens(data, pos + 14, hclen);
      if KraftOk(cl) {
        LengthsLimit(cl, data, pos + 14 + 3 * hclen, hlit + (Peek(data, pos + 5, 5) + 1), [], a, b);
      }
    }
  }

  lemma DynamicBlockLimit(data: seq<byte>, pos: nat, out: seq<byte>, a: nat, b: nat)
    requires a <= b && !DynamicBlock(data, pos, out, a).Truncated?
    ensures DynamicBlock(data, pos, out, b) == DynamicBlock(data, pos, out, a)
  {
    var h := DynamicHeader(data, pos, a);
    DynamicHeaderLimit(data, pos, a, b);
    if h.Accept? {
      BodyLimit(h.value.0, h.value.1, data, h.pos, out, a, b);
    }
  }

  lemma StoredLimit(data: seq<byte>, pos: nat, out: seq<byte>, a: nat, b: nat)
    requires a <= b && !Stored(data, pos, out, a).Truncated?
    ensures Stored(data, pos, out, b) == Stored(data, pos, out, a)
  {
  }

  lemma BlockLimit(data: seq<byte>, pos: nat, out: seq<byte>, a: nat, b: nat)
    requires a <= b && !Block(data, pos, out, a).Truncated?
    ensures Block(data, pos, out, b) == Block(data, pos, out, a)
  {
    hide Body, Stored, DynamicBlock;
    var t := Peek(data, pos + 1, 2);
    if t == 1 {
      var lit, dist := FixedLit(), FixedDist();
      BodyLimit(lit, dist, data, pos + 3, out, a, b);
    } else if t == 2 {
      DynamicBlockLimit(data, pos + 3, out, a, b);
    } else if t == 0 {
      StoredLimit(data, pos + 3, out, a, b);
    }
  }

  /** Any verdict other than Truncated stays the same when more bits may be read. */
  lemma {:induction false} BlocksLimit(data: seq<byte>, pos: nat, out: seq<byte>, a: nat, b: nat)
    requires a <= b && !Blocks(data, pos, out, a).Truncated?
    ensures Blocks(data, pos, out, b) == Blocks(data, pos, out, a)
    decreases a - pos
  {
    BlockLimit(data, pos, out, a, b);
    var r := Block(data, pos, out, a);
    if r.Accept? && Peek(data, pos, 1) == 0 {
      BlocksLimit(data, r.pos, r.value, a, b);
    }
  }
}
