/** The streams on which a decoder with a growing buffer does not end: the data runs out inside a block, and the zero
    bits behind it keep producing output. */
module EndlessStream {
  import opened Bits
  import opened CanonicalCode
  import opened Deflate
  import opened DeflateGrammar
  import opened DeflateStream
  import opened FixedRoom

  /** The stream spells the tokens from pos to end. */
  ghost predicate TokensAt(lit: seq<nat>, dist: seq<nat>, data: seq<byte>, pos: nat, tokens: seq<Token>, end: nat)
    decreases |tokens|
  {
    if tokens == [] then pos == end
    else exists mid: nat :: pos < mid <= end && TokenAt(lit, dist, data, pos, tokens[0], mid)
                            && TokensAt(lit, dist, data, mid, tokens[1..], end)
  }

  /** The stream spells tokens up to its end or further, and zero bits go on for ever. */
  ghost predicate EndlessBody(lit: seq<nat>, dist: seq<nat>, data: seq<byte>, pos: nat, out: seq<byte>) {
    exists tokens: seq<Token>, end: nat ::
      TokensAt(lit, dist, data, pos, tokens, end) && GoesOn(lit, dist, data, tokens, out, end)
  }

  ghost predicate GoesOn(lit: seq<nat>, dist: seq<nat>, data: seq<byte>, tokens: seq<Token>, out: seq<byte>, end: nat) {
    var v := Meaning(tokens, out);
    end >= 8 * |data| && v.Some? && Endless(lit, dist, |v.value|)
  }

  /** A block with fixed codes, or with the codes that its header spells, whose data runs out. */
  ghost predicate EndlessBlock(data: seq<byte>, pos: nat, out: seq<byte>) {
    match Peek(data, pos + 1, 2)
    case 1 => EndlessBody(FixedLit(), FixedDist(), data, pos + 3, out)
    case 2 => EndlessDynamic(data, pos + 3, out)
    case _ => false
  }

  ghost predicate EndlessDynamic(data: seq<byte>, pos: nat, out: seq<byte>) {
    exists lit, dist, mid: nat :: HeaderAt(data, pos, lit, dist, mid) && EndlessBody(lit, dist, data, mid, out)
  }

  /** Blocks that are not final, and then such a block. */
  ghost predicate EndlessBlocks(data: seq<byte>, pos: nat, out: seq<byte>)
    decreases 8 * |data| - pos
  {
    || EndlessBlock(data, pos, out)
    || (pos < 8 * |data| && Peek(data, pos, 1) == 0
        && exists w, mid: nat :: pos < mid && BlockAt(data, pos, out, w, mid) && EndlessBlocks(data, mid, w))
  }

  // ----- one block -----

  /** A step of the reference that does not depend on the limit, from the limit b on. */
  lemma GivesUpLater(lit: seq<nat>, dist: seq<nat>, data: seq<byte>, pos: nat, out: seq<byte>, b: nat)
    requires forall limit: nat :: limit >= b ==> Body(lit, dist, data, pos, out, limit).Truncated?
    ensures BodyGivesUp(lit, dist, data, pos, out)
  {
    hide Body;
    forall limit: nat
      ensures Body(lit, dist, data, pos, out, limit).Truncated?
    {
      if !Body(lit, dist, data, pos, out, limit).Truncated? {
        BodyLimit(lit, dist, data, pos, out, limit, limit + b);
      }
    }
  }

  /** The next token of a block on which the reference gives up at every limit. */
  lemma NextToken(lit: seq<nat>, dist: seq<nat>, data: seq<byte>, pos: nat, out: seq<byte>)
    returns (t: Token, mid: nat, next: seq<byte>)
    requires ValidLengths(lit, MAX_BITS) && ValidLengths(dist, MAX_BITS) && BodyGivesUp(lit, dist, data, pos, out)
    ensures pos < mid && TokenAt(lit, dist, data, pos, t, mid) && BodyGivesUp(lit, dist, data, mid, next)
    ensures forall rest: seq<Token> :: Meaning([t] + rest, out) == Meaning(rest, next)
  {
    hide Body, DecodeSymbol, CopyMatch, Peek, Match, LengthBase, LengthExtra, DistBase, DistExtra, CodeAt;
    var limit := pos + 48;
    assert Body(lit, dist, data, pos, out, limit).Truncated?;
    BodyStep(lit, dist, data, pos, out, limit);
    DecodeExact(lit, data, pos, MAX_BITS);
    var d := DecodeSymbol(lit, data, pos, MAX_BITS);
    var p := pos + d.bits;
    if d.sym < 256 {
      t, mid, next := Literal(d.sym), p, out + [d.sym];
    } else {
      t := MatchSpelled(lit, dist, data, pos, d.sym, |out|, limit);
      var m := Match(dist, data, p, d.sym, |out|, limit);
      mid, next := m.pos, CopyMatch(out, m.value.1, m.value.0);
    }
    forall b: nat | b >= mid
      ensures Body(lit, dist, data, mid, next, b).Truncated?
    {
      TokenDecoded(lit, dist, data, pos, out, t, mid, b);
    }
    GivesUpLater(lit, dist, data, mid, next, mid);
    forall rest: seq<Token>
      ensures Meaning([t] + rest, out) == Meaning(rest, next)
    {
      assert ([t] + rest)[1..] == rest;
    }
  }

  lemma {:induction false} GivesUpSpelled(lit: seq<nat>, dist: seq<nat>, data: seq<byte>, pos: nat, out: seq<byte>)
    returns (tokens: seq<Token>, end: nat)
    requires ValidLengths(lit, MAX_BITS) && ValidLengths(dist, MAX_BITS) && BodyGivesUp(lit, dist, data, pos, out)
    ensures pos <= end && TokensAt(lit, dist, data, pos, tokens, end) && GoesOn(lit, dist, data, tokens, out, end)
    decreases 8 * |data| - pos
  {
    hide Body, TokenAt, Endless, BodyGivesUp;
    if pos >= 8 * |data| {
      tokens, end := [], pos;
      RunsOut(lit, dist, data, pos, out);
    } else {
      var t, mid, next := NextToken(lit, dist, data, pos, out);
      var rest;
      rest, end := GivesUpSpelled(lit, dist, data, mid, next);
      tokens := [t] + rest;
      assert tokens[0] == t && tokens[1..] == rest;
    }
  }

  lemma {:induction false} SpelledGivesUp(lit: seq<nat>, dist: seq<nat>, data: seq<byte>, pos: nat, out: seq<byte>,
                                          tokens: seq<Token>, end: nat)
    requires ValidLengths(lit, MAX_BITS) && ValidLengths(dist, MAX_BITS)
    requires TokensAt(lit, dist, data, pos, tokens, end) && GoesOn(lit, dist, data, tokens, out, end)
    ensures BodyGivesUp(lit, dist, data, pos, out)
    decreases |tokens|
  {
    hide Body, TokenAt, Endless, CopyMatch, LengthBase;
    if tokens == [] {
      assert pos == end && Meaning(tokens, out) == Some(out);
      RunsOut(lit, dist, data, pos, out);
    } else {
      var t := tokens[0];
      var mid: nat :| pos < mid <= end && TokenAt(lit, dist, data, pos, t, mid)
                      && TokensAt(lit, dist, data, mid, tokens[1..], end);
      var next := if t.Literal? then out + [t.b]
                  else CopyMatch(out, DistBase(t.distSym) + t.distExtra, LengthBase(t.lenSym) + t.lenExtra);
      SpelledGivesUp(lit, dist, data, mid, next, tokens[1..], end);
      forall b: nat | b >= mid
        ensures Body(lit, dist, data, pos, out, b).Truncated?
      {
        TokenDecoded(lit, dist, data, pos, out, t, mid, b);
      }
      GivesUpLater(lit, dist, data, pos, out, mid);
    }
  }

  /** The reference gives up on a block at every limit exactly when the block is endless. */
  lemma BodyEndless(lit: seq<nat>, dist: seq<nat>, data: seq<byte>, pos: nat, out: seq<byte>)
    requires ValidLengths(lit, MAX_BITS) && ValidLengths(dist, MAX_BITS)
    ensures BodyGivesUp(lit, dist, data, pos, out) <==> EndlessBody(lit, dist, data, pos, out)
  {
    hide BodyGivesUp, TokensAt, GoesOn;
    if BodyGivesUp(lit, dist, data, pos, out) {
      var tokens, end := GivesUpSpelled(lit, dist, data, pos, out);
    }
    if EndlessBody(lit, dist, data, pos, out) {
      var tokens: seq<Token>, end: nat :|
        TokensAt(lit, dist, data, pos, tokens, end) && GoesOn(lit, dist, data, tokens, out, end);
      SpelledGivesUp(lit, dist, data, pos, out, tokens, end);
    }
  }

  // ----- a sequence of blocks -----

  ghost predicate BlockGivesUp(data: seq<byte>, pos: nat, out: seq<byte>) {
    forall limit: nat :: Block(data, pos, out, limit).Truncated?
  }

  ghost predicate GivesUp(data: seq<byte>, pos: nat, out: seq<byte>) {
    forall limit: nat :: Blocks(data, pos, out, limit).Truncated?
  }

  lemma BlockEndless(data: seq<byte>, pos: nat, out: seq<byte>)
    ensures BlockGivesUp(data, pos, out) <==> EndlessBlock(data, pos, out)
  {
    hide Stored, Body, DynamicBlock, Peek, EndlessBody, BodyGivesUp, FixedLit, FixedDist, HeaderAt;
    var enough := pos + 8 * |data| + 8000;
    PeekBound(data, pos + 1, 2);
    assert Pow2(2) == 4;
    match Peek(data, pos + 1, 2)
    case 0 => StoredDecided(data, pos + 3, out, enough);
      assert !Block(data, pos, out, enough).Truncated?;
    case 1 => FixedEndless(data, pos, out);
    case 2 => DynamicEndless(data, pos, out);
    case _ => assert Block(data, pos, out, enough) == Reject;
  }

  lemma StoredDecided(data: seq<byte>, pos: nat, out: seq<byte>, limit: nat)
    requires pos + 8 * |data| + 100 <= limit
    ensures !Stored(data, pos, out, limit).Truncated?
  {
    hide StoredLen;
  }

  lemma FixedEndless(data: seq<byte>, pos: nat, out: seq<byte>)
    requires Peek(data, pos + 1, 2) == 1
    ensures BlockGivesUp(data, pos, out) <==> EndlessBody(FixedLit(), FixedDist(), data, pos + 3, out)
  {
    hide Body, Peek, EndlessBody, FixedLit, FixedDist;
    FixedLengths();
    var lit, dist, p := FixedLit(), FixedDist(), pos + 3;
    BodyEndless(lit, dist, data, p, out);
    if BlockGivesUp(data, pos, out) {
      forall limit: nat | limit >= p
        ensures Body(lit, dist, data, p, out, limit).Truncated?
      {
        assert Block(data, pos, out, limit).Truncated?;
      }
      GivesUpLater(lit, dist, data, p, out, p);
    }
  }

  lemma DynamicEndless(data: seq<byte>, pos: nat, out: seq<byte>)
    requires Peek(data, pos + 1, 2) == 2
    ensures BlockGivesUp(data, pos, out) <==> EndlessDynamic(data, pos + 3, out)
  {
    hide Body, Peek, EndlessBody, HeaderAt, DynamicHeader, BodyGivesUp;
    var enough := pos + 3 + 7067;
    var h := DynamicHeader(data, pos + 3, enough);
    HeaderBits(data, pos + 3, enough);
    if BlockGivesUp(data, pos, out) {
      assert Block(data, pos, out, enough).Truncated?;
      HeaderExact(data, pos + 3, enough, h.value.0, h.value.1, h.pos);
      AcceptedLengths(data, pos + 3, enough);
      BodyOfBlock(data, pos, out, h.value.0, h.value.1, h.pos);
      BodyEndless(h.value.0, h.value.1, data, h.pos, out);
    }
    if EndlessDynamic(data, pos + 3, out) {
      var lit, dist, mid: nat :| HeaderAt(data, pos + 3, lit, dist, mid) && EndlessBody(lit, dist, data, mid, out);
      HeaderExact(data, pos + 3, mid, lit, dist, mid);
      AcceptedLengths(data, pos + 3, mid);
      BodyEndless(lit, dist, data, mid, out);
      BlockOfBody(data, pos, out, lit, dist, mid);
    }
  }

  lemma BodyOfBlock(data: seq<byte>, pos: nat, out: seq<byte>, lit: seq<nat>, dist: seq<nat>, mid: nat)
    requires Peek(data, pos + 1, 2) == 2 && HeaderAt(data, pos + 3, lit, dist, mid) && BlockGivesUp(data, pos, out)
    ensures BodyGivesUp(lit, dist, data, mid, out)
  {
    hide Body, Peek, HeaderAt, DynamicHeader;
    forall limit: nat | limit >= mid + pos + 3
      ensures Body(lit, dist, data, mid, out, limit).Truncated?
    {
      HeaderExact(data, pos + 3, limit, lit, dist, mid);
      assert Block(data, pos, out, limit).Truncated?;
    }
    GivesUpLater(lit, dist, data, mid, out, mid + pos + 3);
  }

  lemma BlockOfBody(data: seq<byte>, pos: nat, out: seq<byte>, lit: seq<nat>, dist: seq<nat>, mid: nat)
    requires Peek(data, pos + 1, 2) == 2 && HeaderAt(data, pos + 3, lit, dist, mid)
    requires BodyGivesUp(lit, dist, data, mid, out)
    ensures BlockGivesUp(data, pos, out)
  {
    hide Block, Body, Peek, HeaderAt, DynamicHeader;
    forall limit: nat
      ensures Block(data, pos, out, limit).Truncated?
    {
      var b := limit + mid + pos + 3;
      HeaderExact(data, pos + 3, b, lit, dist, mid);
      BlockIsBody(data, pos, out, lit, dist, mid, b);
      if !Block(data, pos, out, limit).Truncated? {
        BlockLimit(data, pos, out, limit, b);
      }
    }
  }

  lemma BlockIsBody(data: seq<byte>, pos: nat, out: seq<byte>, lit: seq<nat>, dist: seq<nat>, mid: nat, limit: nat)
    requires Peek(data, pos + 1, 2) == 2 && pos + 3 <= limit
    requires DynamicHeader(data, pos + 3, limit) == Accept((lit, dist), mid)
    ensures Block(data, pos, out, limit) == Body(lit, dist, data, mid, out, limit)
  {
    hide Body, Peek, DynamicHeader;
  }

  /** A sequence of blocks on which the reference gives up at every limit: its first block, or what follows it. */
  lemma GivesUpStep(data: seq<byte>, pos: nat, out: seq<byte>) returns (first: bool, w: seq<byte>, mid: nat)
    requires GivesUp(data, pos, out)
    ensures first ==> BlockGivesUp(data, pos, out)
    ensures !first ==>
              && pos < 8 * |data| && Peek(data, pos, 1) == 0 && pos < mid && BlockAt(data, pos, out, w, mid)
              && GivesUp(data, mid, w)
  {
    hide Block, Peek, BlockAt;
    first, w, mid := true, [], 0;
    if limit: nat :| !Block(data, pos, out, limit).Truncated? {
      first := false;
      var b := limit + pos + 48;
      BlockLimit(data, pos, out, limit, b);
      var r := Block(data, pos, out, b);
      assert Blocks(data, pos, out, b).Truncated?;
      w, mid := r.value, r.pos;
      BlockExact(data, pos, out, b, w, mid);
      if pos >= 8 * |data| {
        PastEnd(data, pos, out, b);
      }
      FollowersGiveUp(data, pos, out, b);
    }
  }

  lemma FollowersGiveUp(data: seq<byte>, pos: nat, out: seq<byte>, b: nat)
    requires GivesUp(data, pos, out) && Block(data, pos, out, b).Accept? && Peek(data, pos, 1) == 0
    ensures var r := Block(data, pos, out, b); GivesUp(data, r.pos, r.value)
  {
    hide Block, Peek;
    var r := Block(data, pos, out, b);
    forall limit: nat
      ensures Blocks(data, r.pos, r.value, limit).Truncated?
    {
      var c := limit + b;
      BlockLimit(data, pos, out, b, c);
      assert Blocks(data, pos, out, c).Truncated?;
      if !Blocks(data, r.pos, r.value, limit).Truncated? {
        BlocksLimit(data, r.pos, r.value, limit, c);
      }
    }
  }

  lemma {:induction false} BlocksEndless(data: seq<byte>, pos: nat, out: seq<byte>)
    ensures GivesUp(data, pos, out) <==> EndlessBlocks(data, pos, out)
    decreases 8 * |data| - pos
  {
    hide GivesUp, BlockGivesUp, EndlessBlock, Peek, BlockAt;
    BlockEndless(data, pos, out);
    if GivesUp(data, pos, out) {
      var first, w, mid := GivesUpStep(data, pos, out);
      if !first {
        BlocksEndless(data, mid, w);
      }
    }
    if EndlessBlock(data, pos, out) {
      FirstGivesUp(data, pos, out);
    } else if EndlessBlocks(data, pos, out) {
      var w, mid: nat :| pos < mid && BlockAt(data, pos, out, w, mid) && EndlessBlocks(data, mid, w);
      BlocksEndless(data, mid, w);
      LaterGivesUp(data, pos, out, w, mid);
    }
  }

  lemma FirstGivesUp(data: seq<byte>, pos: nat, out: seq<byte>)
    requires BlockGivesUp(data, pos, out)
    ensures GivesUp(data, pos, out)
  {
    hide Block, Peek;
    forall limit: nat
      ensures Blocks(data, pos, out, limit).Truncated?
    {
      assert Block(data, pos, out, limit).Truncated?;
    }
  }

  lemma LaterGivesUp(data: seq<byte>, pos: nat, out: seq<byte>, w: seq<byte>, mid: nat)
    requires Peek(data, pos, 1) == 0 && BlockAt(data, pos, out, w, mid) && GivesUp(data, mid, w)
    ensures GivesUp(data, pos, out)
  {
    hide Block, Peek, BlockAt;
    forall limit: nat
      ensures Blocks(data, pos, out, limit).Truncated?
    {
      var b := limit + mid;
      BlockExact(data, pos, out, b, w, mid);
      assert Blocks(data, mid, w, b).Truncated?;
      if !Blocks(data, pos, out, limit).Truncated? {
        BlocksLimit(data, pos, out, limit, b);
      }
    }
  }

  /** The reference gives up on a stream at every limit, so that a decoder with a growing buffer never ends, if and
      only if accepted blocks come to one that the data runs out in and that zero bits carry on. */
  lemma NeverEndsExactly(data: seq<byte>, header: bool)
    ensures (forall limit: nat :: Inflate(data, header, limit).Truncated?) <==>
            (header ==> HeaderOk(data)) && EndlessBlocks(data, if header then 16 else 0, [])
  {
    hide Blocks, EndlessBlocks, HeaderOk;
    var start := if header then 16 else 0;
    BlocksEndless(data, start, []);
    if forall limit: nat :: Inflate(data, header, limit).Truncated? {
      assert Inflate(data, header, 0).Truncated?;
      forall limit: nat
        ensures Blocks(data, start, [], limit).Truncated?
      {
        assert Inflate(data, header, limit).Truncated?;
      }
    }
  }
}
