/** What a compressed block means: a sequence of tokens, spelled in the stream by the codes of the block.
    The reference decoder accepts exactly the spellings and returns their meaning. */
module DeflateGrammar {
  import opened Bits
  import opened CanonicalCode
  import opened Deflate

  datatype AnyToken =
    | Literal(b: byte)
    | Copy(lenSym: nat, lenExtra: nat, distSym: nat, distExtra: nat)

  /** A literal, or a copy with a length and a distance symbol of section 3.2.5. */
  type Token = t: AnyToken | t.Copy? ==> 257 <= t.lenSym <= 285 && t.distSym <= 29 witness Literal(0)

  /** The bytes after out once the tokens have been carried out; None if a copy reaches too far back. */
  function Meaning(tokens: seq<Token>, out: seq<byte>): Option<seq<byte>> {
    if tokens == [] then Some(out)
    else
      match tokens[0]
      case Literal(b) => Meaning(tokens[1..], out + [b])
      case Copy(ls, lx, ds, dx) =>
        var dist := DistBase(ds) + dx;
        if dist > |out| then None
        else Meaning(tokens[1..], CopyMatch(out, dist, LengthBase(ls) + lx))
  }

  ghost predicate SymbolAt(lens: seq<nat>, data: seq<byte>, pos: nat, sym: nat) {
    sym < |lens| && CodeAt(lens, data, pos, sym)
  }

  /** The stream spells token t from pos to end. */
  ghost predicate TokenAt(lit: seq<nat>, dist: seq<nat>, data: seq<byte>, pos: nat, t: Token, end: nat) {
    match t
    case Literal(b) => SymbolAt(lit, data, pos, b) && end == pos + lit[b]
    case Copy(ls, lx, ds, dx) =>
      && SymbolAt(lit, data, pos, ls)
      && var p := pos + lit[ls];
      && Peek(data, p, LengthExtra(ls)) == lx
      && SymbolAt(dist, data, p + LengthExtra(ls), ds)
      && var q := p + LengthExtra(ls) + dist[ds];
      && Peek(data, q, DistExtra(ds)) == dx
      && end == q + DistExtra(ds)
  }

  /** The stream spells the tokens and the end-of-block symbol from pos to end. */
  ghost predicate Spelled(lit: seq<nat>, dist: seq<nat>, data: seq<byte>, pos: nat, tokens: seq<Token>, end: nat)
    decreases |tokens|
  {
    if tokens == [] then SymbolAt(lit, data, pos, 256) && end == pos + lit[256]
    else exists mid :: pos < mid <= end && TokenAt(lit, dist, data, pos, tokens[0], mid)
                       && Spelled(lit, dist, data, mid, tokens[1..], end)
  }

  /** One copy token, decoded. */
  lemma CopyDecoded(lit: seq<nat>, dist: seq<nat>, data: seq<byte>, pos: nat, size: nat, t: Token, end: nat, limit: nat)
    requires ValidLengths(lit, MAX_BITS) && ValidLengths(dist, MAX_BITS)
    requires t.Copy? && TokenAt(lit, dist, data, pos, t, end) && end <= limit
    ensures var d := DistBase(t.distSym) + t.distExtra;
            Match(dist, data, pos + lit[t.lenSym], t.lenSym, size, limit) ==
            if d > size then Reject else Accept((LengthBase(t.lenSym) + t.lenExtra, d), end)
  {
    hide DecodeSymbol, Peek, LengthBase, LengthExtra, DistBase, DistExtra, CodeAt;
    DecodeExact(dist, data, pos + lit[t.lenSym] + LengthExtra(t.lenSym), MAX_BITS);
  }

  lemma TokenDecoded(lit: seq<nat>, dist: seq<nat>, data: seq<byte>, pos: nat, out: seq<byte>, t: Token, end: nat,
                     limit: nat)
    requires ValidLengths(lit, MAX_BITS) && ValidLengths(dist, MAX_BITS)
    requires TokenAt(lit, dist, data, pos, t, end) && end <= limit
    ensures Body(lit, dist, data, pos, out, limit) ==
            match t
            case Literal(b) => Body(lit, dist, data, end, out + [b], limit)
            case Copy(ls, lx, ds, dx) =>
              var d := DistBase(ds) + dx;
              if d > |out| then Reject
              else Body(lit, dist, data, end, CopyMatch(out, d, LengthBase(ls) + lx), limit)
  {
    hide DecodeSymbol, CopyMatch, Peek, Match, LengthBase, LengthExtra, DistBase, DistExtra, CodeAt;
    DecodeExact(lit, data, pos, MAX_BITS);
    if t.Copy? {
      CopyDecoded(lit, dist, data, pos, |out|, t, end, limit);
    }
  }

  lemma EndDecoded(lit: seq<nat>, dist: seq<nat>, data: seq<byte>, pos: nat, out: seq<byte>, limit: nat)
    requires ValidLengths(lit, MAX_BITS) && SymbolAt(lit, data, pos, 256) && pos + lit[256] <= limit
    ensures Body(lit, dist, data, pos, out, limit) == Accept(out, pos + lit[256])
  {
    hide DecodeSymbol, CodeAt;
    DecodeExact(lit, data, pos, MAX_BITS);
  }

  /** Every spelling is decoded to its meaning, or rejected when it has none. */
  lemma {:induction false} SpellingDecoded(lit: seq<nat>, dist: seq<nat>, data: seq<byte>, pos: nat, out: seq<byte>,
                                           tokens: seq<Token>, end: nat, limit: nat)
    requires ValidLengths(lit, MAX_BITS) && ValidLengths(dist, MAX_BITS)
    requires Spelled(lit, dist, data, pos, tokens, end) && end <= limit
    ensures Body(lit, dist, data, pos, out, limit) ==
            match Meaning(tokens, out) case Some(v) => Accept(v, end) case None => Reject
    decreases |tokens|
  {
    hide Body, TokenAt, CopyMatch, LengthBase, SymbolAt;
    if tokens == [] {
      EndDecoded(lit, dist, data, pos, out, limit);
    } else {
      var t := tokens[0];
      var mid :| pos < mid <= end && TokenAt(lit, dist, data, pos, t, mid)
                 && Spelled(lit, dist, data, mid, tokens[1..], end);
      TokenDecoded(lit, dist, data, pos, out, t, mid, limit);
      if t.Literal? {
        SpellingDecoded(lit, dist, data, mid, out + [t.b], tokens[1..], end, limit);
      } else {
        var d := DistBase(t.distSym) + t.distExtra;
        if d <= |out| {
          var next := CopyMatch(out, d, LengthBase(t.lenSym) + t.lenExtra);
          SpellingDecoded(lit, dist, data, mid, next, tokens[1..], end, limit);
        }
      }
    }
  }

  /** The copy token behind an accepted match. */
  lemma MatchSpelled(lit: seq<nat>, dist: seq<nat>, data: seq<byte>, pos: nat, sym: nat, size: nat, limit: nat)
    returns (t: Token)
    requires ValidLengths(lit, MAX_BITS) && ValidLengths(dist, MAX_BITS)
    requires SymbolAt(lit, data, pos, sym) && 257 <= sym <= 285
    requires Match(dist, data, pos + lit[sym], sym, size, limit).Accept?
    ensures var m := Match(dist, data, pos + lit[sym], sym, size, limit);
            && t.Copy? && TokenAt(lit, dist, data, pos, t, m.pos)
            && m.value == (LengthBase(t.lenSym) + t.lenExtra, DistBase(t.distSym) + t.distExtra)
  {
    hide DecodeSymbol, Peek, LengthBase, LengthExtra, DistBase, DistExtra, CodeAt;
    var p := pos + lit[sym];
    var q := p + LengthExtra(sym);
    DecodeExact(dist, data, q, MAX_BITS);
    var e := DecodeSymbol(dist, data, q, MAX_BITS);
    t := Copy(sym, Peek(data, p, LengthExtra(sym)), e.sym, Peek(data, q + e.bits, DistExtra(e.sym)));
  }

  /** Whatever the decoder accepts is the meaning of a spelling. */
  lemma {:induction false} AcceptedSpelled(lit: seq<nat>, dist: seq<nat>, data: seq<byte>, pos: nat, out: seq<byte>,
                                           limit: nat)
    returns (tokens: seq<Token>)
    requires ValidLengths(lit, MAX_BITS) && ValidLengths(dist, MAX_BITS)
    requires Body(lit, dist, data, pos, out, limit).Accept?
    ensures var r := Body(lit, dist, data, pos, out, limit);
            && Spelled(lit, dist, data, pos, tokens, r.pos)
            && Meaning(tokens, out) == Some(r.value)
    decreases limit - pos
  {
    hide Body, DecodeSymbol, CopyMatch, Peek, Match, LengthBase, LengthExtra, DistBase, DistExtra, CodeAt;
    DecodeExact(lit, data, pos, MAX_BITS);
    BodyStep(lit, dist, data, pos, out, limit);
    var d := DecodeSymbol(lit, data, pos, MAX_BITS);
    var p := pos + d.bits;
    if d.sym == 256 {
      tokens := [];
    } else {
      var t: Token, next, mid;
      if d.sym < 256 {
        t, next, mid := Literal(d.sym), out + [d.sym], p;
      } else {
        t := MatchSpelled(lit, dist, data, pos, d.sym, |out|, limit);
        var m := Match(dist, data, p, d.sym, |out|, limit);
        next, mid := CopyMatch(out, m.value.1, m.value.0), m.pos;
      }
      var rest := AcceptedSpelled(lit, dist, data, mid, next, limit);
      tokens := [t] + rest;
      assert tokens[0] == t && tokens[1..] == rest;
    }
  }

  /** The stream spells tokens whose meaning, after out, is v. */
  ghost predicate BodyAt(lit: seq<nat>, dist: seq<nat>, data: seq<byte>, pos: nat, out: seq<byte>, v: seq<byte>, end: nat) {
    exists tokens: seq<Token> :: Spelled(lit, dist, data, pos, tokens, end) && Meaning(tokens, out) == Some(v)
  }

  /** The reference decoder accepts a block's data exactly when it spells tokens with a meaning. */
  lemma BodyExact(lit: seq<nat>, dist: seq<nat>, data: seq<byte>, pos: nat, out: seq<byte>, limit: nat,
                  v: seq<byte>, end: nat)
    requires ValidLengths(lit, MAX_BITS) && ValidLengths(dist, MAX_BITS)
    ensures Body(lit, dist, data, pos, out, limit) == Accept(v, end) <==>
            end <= limit && BodyAt(lit, dist, data, pos, out, v, end)
  {
    hide Body, Meaning;
    if Body(lit, dist, data, pos, out, limit) == Accept(v, end) {
      var tokens := AcceptedSpelled(lit, dist, data, pos, out, limit);
    }
    if end <= limit && BodyAt(lit, dist, data, pos, out, v, end) {
      var tokens: seq<Token> :| Spelled(lit, dist, data, pos, tokens, end) && Meaning(tokens, out) == Some(v);
      SpellingDecoded(lit, dist, data, pos, out, tokens, end, limit);
    }
  }
}
