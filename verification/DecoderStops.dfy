/** Where the zlib decoder stops at a failed assert instead of reporting an error: a code with more codewords of
    some length than there is room for, or code length data in which no code length code stands. */
module DecoderStops {
  import opened Bits
  import opened CanonicalCode
  import opened Deflate

  /** More codewords of one length than fit into that many bits. */
  ghost predicate TooMany(lens: seq<nat>) {
    exists l :: 1 <= l <= MAX_BITS && Total(lens, l) > Pow2(l)
  }

  /** Reading the code lengths comes to a place where no codeword of the code length code stands. */
  predicate NoLengthCode(cl: seq<nat>, data: seq<byte>, pos: nat, total: nat, acc: seq<nat>, limit: nat)
    requires |cl| == 19 && ValidLengths(acc, MAX_BITS) && pos <= limit
    decreases limit - pos
  {
    |acc| < total &&
    match DecodeSymbol(cl, data, pos, MAX_BITS)
    case Invalid => true
    case Symbol(c, n) =>
      var p := pos + n;
      && (c == 16 ==> acc != []) && p + LengthOpBits(c) <= limit
      && NoLengthCode(cl, data, p + LengthOpBits(c), total, acc + LengthOp(c, data, p, acc), limit)
  }

  /** A dynamic block header: one of its three alphabets has too many codewords of one length, or its code lengths
      cannot be read. Each alphabet only matters when the ones before it are in order. */
  ghost predicate HeaderStops(data: seq<byte>, pos: nat, limit: nat) {
    var hlit := Peek(data, pos, 5) + 257;
    var hdist := Peek(data, pos + 5, 5) + 1;
    var hclen := Peek(data, pos + 10, 4) + 4;
    var p := pos + 14 + 3 * hclen;
    && hclen <= 19 && p <= limit && hlit <= 286
    && var cl := CodeLengthLens(data, pos + 14, hclen);
       TooMany(cl) || (KraftOk(cl) && LengthsStop(cl, data, p, hlit, hlit + hdist, limit))
  }

  /** Reading all code lengths, of which the first hlit are for literals, and building the two tables. */
  ghost predicate LengthsStop(cl: seq<nat>, data: seq<byte>, pos: nat, hlit: nat, total: nat, limit: nat)
    requires |cl| == 19 && pos <= limit && hlit <= total
  {
    var h := Lengths(cl, data, pos, total, [], limit);
    NoLengthCode(cl, data, pos, total, [], limit) || (h.Accept? && TablesStop(h.value[..hlit], h.value[hlit..]))
  }

  /** Building the literal table and then the distance table. */
  ghost predicate TablesStop(lit: seq<nat>, dist: seq<nat>)
    requires ValidLengths(lit, MAX_BITS)
  {
    TooMany(lit) || (KraftOk(lit) && TooMany(dist))
  }

  /** The output buffer: it can grow, or has a fixed size. */
  datatype Room = Growable | Fixed(size: nat) {
    predicate Holds(n: nat) {
      Growable? || n <= size
    }
  }

  /** Only dynamic blocks can stop the decoder. */
  ghost predicate BlockStops(data: seq<byte>, pos: nat, limit: nat) {
    Peek(data, pos + 1, 2) == 2 && HeaderStops(data, pos + 3, limit)
  }

  /** The decoder comes to a block that stops it: all blocks before are accepted and their output has room. */
  ghost predicate BlocksStop(data: seq<byte>, pos: nat, out: seq<byte>, limit: nat, room: Room)
    decreases limit - pos
  {
    || BlockStops(data, pos, limit)
    || (var r := Block(data, pos, out, limit);
        && r.Accept? && Peek(data, pos, 1) == 0 && room.Holds(|r.value|)
        && BlocksStop(data, r.pos, r.value, limit, room))
  }

  ghost predicate InflateStops(data: seq<byte>, header: bool, limit: nat, room: Room) {
    if !header then BlocksStop(data, 0, [], limit, room) else HeaderOk(data) && BlocksStop(data, 16, [], limit, room)
  }

  // ----- what stops the decoder, the reference does not accept -----

  lemma TooManyNotKraft(lens: seq<nat>)
    requires ValidLengths(lens, MAX_BITS) && TooMany(lens)
    ensures !KraftOk(lens)
  {
    var l :| 1 <= l <= MAX_BITS && Total(lens, l) > Pow2(l);
    FitsIffKraft(lens, MAX_BITS);
    FitsBoundsTotals(lens, l);
  }

  lemma {:induction false} NoLengthCodeRejected(cl: seq<nat>, data: seq<byte>, pos: nat, total: nat, acc: seq<nat>, limit: nat)
    requires |cl| == 19 && ValidLengths(acc, MAX_BITS) && pos <= limit
    requires NoLengthCode(cl, data, pos, total, acc, limit)
    ensures Lengths(cl, data, pos, total, acc, limit) == Reject
    decreases limit - pos
  {
    hide DecodeSymbol;
    var d := DecodeSymbol(cl, data, pos, MAX_BITS);
    if d.Symbol? {
      var p := pos + d.bits;
      NoLengthCodeRejected(cl, data, p + LengthOpBits(d.sym), total, acc + LengthOp(d.sym, data, p, acc), limit);
    }
  }

  lemma HeaderRejected(data: seq<byte>, pos: nat, limit: nat)
    requires HeaderStops(data, pos, limit)
    ensures pos <= limit && DynamicHeader(data, pos, limit) == Reject
  {
    hide Lengths, CodeLengthLens, KraftOk, TooMany, NoLengthCode, Peek;
    var hlit, hdist := Peek(data, pos, 5) + 257, Peek(data, pos + 5, 5) + 1;
    var hclen := Peek(data, pos + 10, 4) + 4;
    var p, cl := pos + 14 + 3 * hclen, CodeLengthLens(data, pos + 14, hclen);
    CodeLengthLensShape(data, pos + 14, hclen);
    if TooMany(cl) {
      TooManyNotKraft(cl);
    } else if NoLengthCode(cl, data, p, hlit + hdist, [], limit) {
      NoLengthCodeRejected(cl, data, p, hlit + hdist, [], limit);
    } else {
      var h := Lengths(cl, data, p, hlit + hdist, [], limit);
      TablesRejected(h.value[..hlit], h.value[hlit..]);
    }
  }

  lemma TablesRejected(lit: seq<nat>, dist: seq<nat>)
    requires ValidLengths(lit, MAX_BITS) && ValidLengths(dist, MAX_BITS) && TablesStop(lit, dist)
    ensures !(KraftOk(lit) && KraftOk(dist))
  {
    if TooMany(lit) {
      TooManyNotKraft(lit);
    } else {
      TooManyNotKraft(dist);
    }
  }

  lemma {:induction false} BlocksRejected(data: seq<byte>, pos: nat, out: seq<byte>, limit: nat, room: Room)
    requires pos <= limit && BlocksStop(data, pos, out, limit, room)
    ensures Blocks(data, pos, out, limit) == Reject
    decreases limit - pos
  {
    hide HeaderStops, DynamicHeader;
    if BlockStops(data, pos, limit) {
      HeaderRejected(data, pos + 3, limit);
    } else {
      var r := Block(data, pos, out, limit);
      BlocksRejected(data, r.pos, r.value, limit, room);
    }
  }

  lemma NoStopPastLimit(data: seq<byte>, pos: nat, out: seq<byte>, limit: nat, room: Room)
    requires pos > limit
    ensures !BlocksStop(data, pos, out, limit, room)
  {
    hide Peek, LengthsStop, TooMany, KraftOk, CodeLengthLens, Stored, Body, DynamicBlock;
  }

  /** Data that stops the decoder is rejected by the reference. */
  lemma StopsRejected(data: seq<byte>, header: bool, limit: nat, room: Room)
    requires InflateStops(data, header, limit, room)
    ensures Inflate(data, header, limit) == Reject
  {
    hide BlocksStop, Blocks;
    var start := if header then 16 else 0;
    if start <= limit {
      BlocksRejected(data, start, [], limit, room);
    } else {
      NoStopPastLimit(data, start, [], limit, room);
    }
  }

  /** Four bytes that stop the decoder: a dynamic block in which three code length codes have one bit each. */
  lemma ThreeOneBitCodes(room: Room)
    ensures var data: seq<byte> := [0x05, 0x00, 0x92, 0x00];
            InflateStops(data, false, 32, room) && Inflate(data, false, 32) == Reject
  {
    hide Lengths, KraftOk, NoLengthCode, TablesStop, Peek, CodeLengthLens, TooMany, DynamicHeader, HeaderStops;
    var data: seq<byte> := [0x05, 0x00, 0x92, 0x00];
    var limit := 32;
    ExampleBits(data);
    ExampleHeader(data, 3, limit);
    HeaderRejected(data, 3, limit);
    assert BlockStops(data, 0, limit);
    assert Block(data, 0, [], limit) == Reject;
  }

  lemma ExampleBits(data: seq<byte>)
    requires data == [0x05, 0x00, 0x92, 0x00]
    ensures Peek(data, 1, 2) == 2 && Peek(data, 3, 5) == 0 && Peek(data, 8, 5) == 0 && Peek(data, 13, 4) == 0
    ensures Peek(data, 17, 3) == 1 && Peek(data, 20, 3) == 1 && Peek(data, 23, 3) == 1 && Peek(data, 26, 3) == 0
  {
    hide Peek, Low, Shr;
    ExampleFields();
    assert StreamByte(data, 0) == 0x05 && StreamByte(data, 1) == 0 && StreamByte(data, 2) == 0x92;
    assert StreamByte(data, 3) == 0;
    hide StreamByte;
    PeekWithin(data, 0, 1, 2);
    PeekWithin(data, 0, 3, 5);
    PeekWithin(data, 1, 0, 5);
    PeekSplit(data, 13, 3, 1);
    PeekWithin(data, 1, 5, 3);
    PeekWithin(data, 2, 0, 1);
    PeekWithin(data, 2, 1, 3);
    PeekWithin(data, 2, 4, 3);
    PeekSplit(data, 23, 1, 2);
    PeekWithin(data, 2, 7, 1);
    PeekWithin(data, 3, 0, 2);
    PeekWithin(data, 3, 2, 3);
  }

  lemma ExampleFields()
    ensures Low(Shr(0x05, 1), 2) == 2 && Low(Shr(0x05, 3), 5) == 0
    ensures Low(Shr(0, 0), 5) == 0 && Low(Shr(0, 5), 3) == 0 && Low(Shr(0, 0), 2) == 0 && Low(Shr(0, 2), 3) == 0
    ensures Low(Shr(0x92, 0), 1) == 0 && Low(Shr(0x92, 1), 3) == 1
    ensures Low(Shr(0x92, 4), 3) == 1 && Low(Shr(0x92, 7), 1) == 1
  {
  }

  lemma ExampleHeader(data: seq<byte>, pos: nat, limit: nat)
    requires Peek(data, pos, 5) == 0 && Peek(data, pos + 5, 5) == 0 && Peek(data, pos + 10, 4) == 0
    requires Peek(data, pos + 14, 3) == 1 && Peek(data, pos + 17, 3) == 1 && Peek(data, pos + 20, 3) == 1
    requires pos + 26 <= limit
    ensures HeaderStops(data, pos, limit)
  {
    hide Peek, Lengths, KraftOk, NoLengthCode, TablesStop, TooMany;
    var p, n := pos + 14, 4;
    CodeLengthLensShape(data, p, 0);
    assert CodeLengthLens(data, p, n - 3)[16] == 1;
    assert CodeLengthLens(data, p, n - 2)[16] == 1 && CodeLengthLens(data, p, n - 2)[17] == 1;
    assert CodeLengthLens(data, p, n - 1) == CodeLengthLens(data, p, n - 2)[18 := 1];
    OneBitTotal(CodeLengthLens(data, p, n));
  }

  lemma OneBitTotal(cl: seq<nat>)
    requires |cl| == 19 && cl[16] == 1 && cl[17] == 1 && cl[18] == 1
    ensures TooMany(cl)
  {
    var n, l := |cl|, 1;
    assert Count(cl, n, l) == Count(cl, n - 1, l) + 1;
    assert Count(cl, n - 1, l) == Count(cl, n - 2, l) + 1;
    assert Count(cl, n - 2, l) == Count(cl, n - 3, l) + 1;
    assert Pow2(l) == 2 * Pow2(l - 1) == 2;
    assert Total(cl, l) > Pow2(l);
  }
}
