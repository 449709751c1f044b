/** How many bits the decoder can look at before an output buffer of fixed size is full. */
module FixedRoom {
  import opened Bits
  import opened CanonicalCode
  import opened Deflate

  /** More bits than decoding so many input bytes can look at before it fails or room output bytes are written. */
  function Enough(size: nat, room: nat): nat {
    8 * size + 48 * (room + 1) + 7100
  }

  /** Each output byte of a block costs at most 48 bits, and its end 15. */
  lemma {:induction false} BodyBits(lit: seq<nat>, dist: seq<nat>, data: seq<byte>, pos: nat, out: seq<byte>, limit: nat)
    ensures var r := Body(lit, dist, data, pos, out, limit);
            r.Accept? ==> r.pos + 48 * |out| <= pos + 48 * |r.value| + 15
    decreases limit - pos
  {
    hide DecodeSymbol, Match, CopyMatch;
    var d := DecodeSymbol(lit, data, pos, MAX_BITS);
    if d.Symbol? && pos + d.bits <= limit {
      var p := pos + d.bits;
      if d.sym < 256 {
        BodyBits(lit, dist, data, p, out + [d.sym], limit);
      } else if 257 <= d.sym <= 285 {
        var m := Match(dist, data, p, d.sym, |out|, limit);
        MatchBits(dist, data, p, d.sym, |out|, limit);
        if m.Accept? {
          BodyBits(lit, dist, data, m.pos, CopyMatch(out, m.value.1, m.value.0), limit);
        }
      }
    }
  }

  /** Each code length costs at most 22 bits. */
  lemma {:induction false} LengthsBits(cl: seq<nat>, data: seq<byte>, pos: nat, total: nat, acc: seq<nat>, limit: nat)
    requires |cl| == 19 && ValidLengths(acc, MAX_BITS) && pos <= limit
    ensures var r := Lengths(cl, data, pos, total, acc, limit);
            && (r.Truncated? ==> limit < pos + 22 * (total - |acc|))
            && (r.Accept? ==> r.pos <= pos + 22 * (total - |acc|))
    decreases limit - pos
  {
    hide DecodeSymbol, LengthOp;
    if |acc| < total {
      var d := DecodeSymbol(cl, data, pos, MAX_BITS);
      if d.Symbol? && !(d.sym == 16 && acc == []) && pos + d.bits + LengthOpBits(d.sym) <= limit {
        var p := pos + d.bits;
        OpValid(d.sym, data, p, acc);
        OpAppends(d.sym, data, p, acc);
        LengthsBits(cl, data, p + LengthOpBits(d.sym), total, acc + LengthOp(d.sym, data, p, acc), limit);
      }
    }
  }

  lemma OpAppends(c: nat, data: seq<byte>, p: nat, acc: seq<nat>)
    requires c < 19 && (c == 16 ==> acc != [])
    ensures |LengthOp(c, data, p, acc)| >= 1
  {
    hide Peek;
  }

  lemma HeaderBits(data: seq<byte>, pos: nat, limit: nat)
    ensures var r := DynamicHeader(data, pos, limit);
            && (r.Truncated? ==> limit < pos + 7067)
            && (r.Accept? ==> r.pos <= pos + 7067)
  {
    hide Peek, Lengths, CodeLengthLens, KraftOk;
    CountBounds(data, pos);
    var hlit, hdist := Peek(data, pos, 5) + 257, Peek(data, pos + 5, 5) + 1;
    var hclen := Peek(data, pos + 10, 4) + 4;
    var p, cl := pos + 14 + 3 * hclen, CodeLengthLens(data, pos + 14, hclen);
    if p <= limit && hlit <= 286 && KraftOk(cl) {
      LengthsBits(cl, data, p, hlit + hdist, [], limit);
    }
  }

  /** What an accepted block that starts within the data costs. */
  lemma BlockBits(data: seq<byte>, pos: nat, out: seq<byte>, limit: nat)
    requires pos < 8 * |data|
    ensures var r := Block(data, pos, out, limit);
            r.Accept? ==> r.pos + 48 * |out| <= 8 * |data| + 7100 + 48 * |r.value|
  {
    hide Peek, Body, DynamicHeader, StoredLen, FixedLit, FixedDist;
    var t := Peek(data, pos + 1, 2);
    if t == 1 {
      BodyBits(FixedLit(), FixedDist(), data, pos + 3, out, limit);
    } else if t == 2 {
      var h := DynamicHeader(data, pos + 3, limit);
      HeaderBits(data, pos + 3, limit);
      if h.Accept? {
        BodyBits(h.value.0, h.value.1, data, h.pos, out, limit);
      }
    }
  }

  /** After the data there are zero bits: a stored block without the complement of its length. */
  lemma PastEnd(data: seq<byte>, pos: nat, out: seq<byte>, limit: nat)
    requires pos >= 8 * |data| && pos + 48 <= limit
    ensures Block(data, pos, out, limit) == Reject
  {
    ZeroBits(data, pos + 1, 2);
  }

  lemma {:induction false} ZeroBits(data: seq<byte>, pos: nat, n: nat)
    requires pos >= 8 * |data|
    ensures Peek(data, pos, n) == 0
    decreases n
  {
    if n > 0 {
      ZeroBit(data, pos);
      ZeroBits(data, pos + 1, n - 1);
    }
  }

  lemma ZeroBit(data: seq<byte>, pos: nat)
    requires pos >= 8 * |data|
    ensures StreamBit(data, pos) == 0
  {
    BitOfZero(pos % 8);
  }

  lemma {:induction false} BitOfZero(j: nat)
    ensures Bit(0, j) == 0
    decreases j
  {
    if j > 0 {
      BitOfZero(j - 1);
    }
  }

  // ----- data that runs out inside a block -----

  /** The symbol that zero bits stand for. */
  function AtZeros(lens: seq<nat>): Decoded {
    DecodeSymbol(lens, [], 0, MAX_BITS)
  }

  /** Zero bits stand for a literal, or for a match whose distance lies within the output. */
  predicate Endless(lit: seq<nat>, dist: seq<nat>, size: nat) {
    match AtZeros(lit)
    case Invalid => false
    case Symbol(sym, _) => sym < 256 || (257 <= sym <= 285 && ReachesBack(dist, size))
  }

  predicate ReachesBack(dist: seq<nat>, size: nat) {
    match AtZeros(dist)
    case Invalid => false
    case Symbol(d, _) => d <= 29 && DistBase(d) <= size
  }

  lemma {:induction false} WalkAtZeros(lens: seq<nat>, data: seq<byte>, pos: nat, l: nat, code: nat, max: nat)
    requires 1 <= l <= max + 1 && pos >= 8 * |data|
    ensures Walk(lens, data, pos, l, code, max) == Walk(lens, [], 0, l, code, max)
    decreases max + 1 - l
  {
    hide FindSymbol, StreamBit;
    if l <= max {
      ZeroBit(data, pos + l - 1);
      ZeroBit([], l - 1);
      WalkAtZeros(lens, data, pos, l + 1, 2 * code, max);
    }
  }

  lemma MatchAtZeros(dist: seq<nat>, data: seq<byte>, pos: nat, sym: nat, size: nat, limit: nat)
    requires pos >= 8 * |data| && 257 <= sym <= 285
    ensures var m := Match(dist, data, pos, sym, size, limit);
            && (ReachesBack(dist, size) ==> m.Accept? || m.Truncated?)
            && (m.Accept? ==> ReachesBack(dist, size))
  {
    hide Walk, LengthBase, LengthExtra, DistBase, DistExtra, Peek;
    var p := pos + LengthExtra(sym);
    WalkAtZeros(dist, data, p, 1, 0, MAX_BITS);
    var d := AtZeros(dist);
    if d.Symbol? && d.sym <= 29 {
      ZeroBits(data, p + d.bits, DistExtra(d.sym));
    }
  }

  /** The reference gives up on this block at every limit. */
  ghost predicate BodyGivesUp(lit: seq<nat>, dist: seq<nat>, data: seq<byte>, pos: nat, out: seq<byte>) {
    forall limit: nat :: Body(lit, dist, data, pos, out, limit).Truncated?
  }

  /** Once the data has run out inside a block, the reference gives up at every limit if and only if zero bits keep
      producing output; otherwise it reaches a verdict at once. */
  lemma RunsOut(lit: seq<nat>, dist: seq<nat>, data: seq<byte>, pos: nat, out: seq<byte>)
    requires pos >= 8 * |data|
    ensures BodyGivesUp(lit, dist, data, pos, out) <==> Endless(lit, dist, |out|)
  {
    hide Body;
    if Endless(lit, dist, |out|) {
      forall limit: nat
        ensures Body(lit, dist, data, pos, out, limit).Truncated?
      {
        NeverEnds(lit, dist, data, pos, out, limit);
      }
    } else {
      EndsAtOnce(lit, dist, data, pos, out, pos + 48);
    }
  }

  lemma {:induction false} NeverEnds(lit: seq<nat>, dist: seq<nat>, data: seq<byte>, pos: nat, out: seq<byte>, limit: nat)
    requires pos >= 8 * |data| && Endless(lit, dist, |out|)
    ensures Body(lit, dist, data, pos, out, limit).Truncated?
    decreases limit - pos
  {
    hide Walk, Match, CopyMatch;
    WalkAtZeros(lit, data, pos, 1, 0, MAX_BITS);
    var d := AtZeros(lit);
    var p := pos + d.bits;
    if p <= limit {
      if d.sym < 256 {
        NeverEnds(lit, dist, data, p, out + [d.sym], limit);
      } else {
        MatchAtZeros(dist, data, p, d.sym, |out|, limit);
        var m := Match(dist, data, p, d.sym, |out|, limit);
        if m.Accept? {
          NeverEnds(lit, dist, data, m.pos, CopyMatch(out, m.value.1, m.value.0), limit);
        }
      }
    }
  }

  lemma EndsAtOnce(lit: seq<nat>, dist: seq<nat>, data: seq<byte>, pos: nat, out: seq<byte>, limit: nat)
    requires pos >= 8 * |data| && pos + 48 <= limit && !Endless(lit, dist, |out|)
    ensures !Body(lit, dist, data, pos, out, limit).Truncated?
  {
    hide Walk, Match, CopyMatch, ReachesBack;
    WalkAtZeros(lit, data, pos, 1, 0, MAX_BITS);
    var d := AtZeros(lit);
    if d.Symbol? && 257 <= d.sym <= 285 {
      MatchAtZeros(dist, data, pos + d.bits, d.sym, |out|, limit);
      MatchBits(dist, data, pos + d.bits, d.sym, |out|, limit);
    }
  }
}
