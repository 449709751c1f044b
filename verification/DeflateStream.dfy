/** What a whole DEFLATE stream means: blocks one after the other, with run-length coded headers. The reference
    decoder accepts exactly the streams that are spelled this way, and returns their meaning. */
module DeflateStream {
  import opened Bits
  import opened CanonicalCode
  import opened Deflate
  import opened DeflateGrammar

  // ----- code lengths (section 3.2.7) -----

  /** One code length; the last one again; or a run of zeros. */
  datatype AnyRun = One(len: nat) | Again(n: nat) | Zeros(n: nat) | ManyZeros(n: nat)

  type Run = r: AnyRun |
    match r
    case One(len) => len <= MAX_BITS
    case Again(n) => 3 <= n <= 6
    case Zeros(n) => 3 <= n <= 10
    case ManyZeros(n) => 11 <= n <= 138
    witness One(0)

  function RunSymbol(r: Run): nat {
    match r
    case One(len) => len
    case Again(_) => 16
    case Zeros(_) => 17
    case ManyZeros(_) => 18
  }

  /** The value of the extra bits. */
  function RunExtra(r: Run): nat {
    match r
    case One(_) => 0
    case Again(n) => n - 3
    case Zeros(n) => n - 3
    case ManyZeros(n) => n - 11
  }

  /** The lengths after acc once the runs have been carried out; None if there is nothing to repeat. */
  function Expand(runs: seq<Run>, acc: seq<nat>): Option<seq<nat>> {
    if runs == [] then Some(acc)
    else
      match runs[0]
      case One(len) => Expand(runs[1..], acc + [len])
      case Again(n) => if acc == [] then None else Expand(runs[1..], acc + Repeat(acc[|acc| - 1], n))
      case Zeros(n) => Expand(runs[1..], acc + Repeat(0, n))
      case ManyZeros(n) => Expand(runs[1..], acc + Repeat(0, n))
  }

  /** The run stands in the stream: the codeword of its symbol, and its extra bits. */
  ghost predicate RunAt(cl: seq<nat>, data: seq<byte>, pos: nat, r: Run, end: nat)
    requires |cl| == 19
  {
    var sym := RunSymbol(r);
    && SymbolAt(cl, data, pos, sym)
    && Peek(data, pos + cl[sym], LengthOpBits(sym)) == RunExtra(r)
    && end == pos + cl[sym] + LengthOpBits(sym)
  }

  ghost predicate RunsAt(cl: seq<nat>, data: seq<byte>, pos: nat, runs: seq<Run>, end: nat)
    requires |cl| == 19
    decreases |runs|
  {
    if runs == [] then pos == end
    else exists mid: nat :: pos < mid <= end && RunAt(cl, data, pos, runs[0], mid) && RunsAt(cl, data, mid, runs[1..], end)
  }

  lemma {:induction false} ExpandGrows(runs: seq<Run>, acc: seq<nat>)
    requires Expand(runs, acc).Some?
    ensures |Expand(runs, acc).value| >= |acc| + |runs|
    decreases |runs|
  {
    if runs != [] {
      match runs[0]
      case One(len) => ExpandGrows(runs[1..], acc + [len]);
      case Again(n) => ExpandGrows(runs[1..], acc + Repeat(acc[|acc| - 1], n));
      case Zeros(n) => ExpandGrows(runs[1..], acc + Repeat(0, n));
      case ManyZeros(n) => ExpandGrows(runs[1..], acc + Repeat(0, n));
    }
  }

  /** What a run adds is what the reference adds for its symbol and extra bits. */
  lemma RunAdds(data: seq<byte>, p: nat, r: Run, rest: seq<Run>, acc: seq<nat>)
    requires Peek(data, p, LengthOpBits(RunSymbol(r))) == RunExtra(r) && (r.Again? ==> acc != [])
    ensures RunSymbol(r) < 19 && (RunSymbol(r) == 16 <==> r.Again?)
    ensures Expand([r] + rest, acc) == Expand(rest, acc + LengthOp(RunSymbol(r), data, p, acc))
  {
    hide Peek;
    assert ([r] + rest)[1..] == rest;
  }

  /** The symbol of a run that stands in the stream is what the bitwise decoder finds. */
  lemma RunDecoded(cl: seq<nat>, data: seq<byte>, pos: nat, r: Run, end: nat)
    requires |cl| == 19 && ValidLengths(cl, MAX_BITS) && RunAt(cl, data, pos, r, end)
    ensures RunSymbol(r) < 19 && DecodeSymbol(cl, data, pos, MAX_BITS) == Symbol(RunSymbol(r), cl[RunSymbol(r)])
  {
    hide DecodeSymbol, Peek, CodeAt;
    DecodeExact(cl, data, pos, MAX_BITS);
  }

  /** Code lengths that are spelled are read. */
  lemma {:induction false} RunsRead(cl: seq<nat>, data: seq<byte>, pos: nat, runs: seq<Run>, end: nat,
                                    acc: seq<nat>, total: nat, limit: nat)
    requires |cl| == 19 && ValidLengths(cl, MAX_BITS) && ValidLengths(acc, MAX_BITS) && pos <= limit
    requires RunsAt(cl, data, pos, runs, end) && end <= limit
    requires Expand(runs, acc).Some? && |Expand(runs, acc).value| == total
    ensures Lengths(cl, data, pos, total, acc, limit) == Accept(Expand(runs, acc).value, end)
    decreases |runs|
  {
    hide DecodeSymbol, Peek, CodeAt, LengthOp, LengthOpBits;
    if runs != [] {
      var r, rest := runs[0], runs[1..];
      assert runs == [r] + rest;
      ExpandGrows(runs, acc);
      var mid: nat :| pos < mid <= end && RunAt(cl, data, pos, r, mid) && RunsAt(cl, data, mid, rest, end);
      RunDecoded(cl, data, pos, r, mid);
      var sym := RunSymbol(r);
      NothingToRepeat(runs, acc);
      RunAdds(data, pos + cl[sym], r, rest, acc);
      AddsValid(data, pos + cl[sym], r, acc);
      RunsRead(cl, data, mid, rest, end, acc + LengthOp(sym, data, pos + cl[sym], acc), total, limit);
    }
  }

  lemma NothingToRepeat(runs: seq<Run>, acc: seq<nat>)
    requires runs != [] && Expand(runs, acc).Some?
    ensures runs[0].Again? ==> acc != []
  {
  }

  lemma AddsValid(data: seq<byte>, p: nat, r: Run, acc: seq<nat>)
    requires ValidLengths(acc, MAX_BITS) && (r.Again? ==> acc != [])
    ensures RunSymbol(r) == 16 ==> acc != []
    ensures ValidLengths(acc + LengthOp(RunSymbol(r), data, p, acc), MAX_BITS)
  {
    hide Peek;
  }

  /** The run behind a symbol of the code length code and its extra bits. */
  lemma RunOf(cl: seq<nat>, data: seq<byte>, pos: nat) returns (r: Run)
    requires |cl| == 19 && ValidLengths(cl, MAX_BITS) && DecodeSymbol(cl, data, pos, MAX_BITS).Symbol?
    ensures var d := DecodeSymbol(cl, data, pos, MAX_BITS);
            && RunSymbol(r) == d.sym < 19 && cl[d.sym] == d.bits > 0
            && RunAt(cl, data, pos, r, pos + d.bits + LengthOpBits(d.sym))
  {
    hide DecodeSymbol, Peek, CodeOf;
    DecodeExact(cl, data, pos, MAX_BITS);
    var d := DecodeSymbol(cl, data, pos, MAX_BITS);
    SymbolKnown(cl, data, pos);
    var extra := Peek(data, pos + d.bits, LengthOpBits(d.sym));
    PeekBound(data, pos + d.bits, LengthOpBits(d.sym));
    assert Pow2(0) == 1 && Pow2(2) == 4 && Pow2(3) == 8 && Pow2(7) == 128;
    r := if d.sym < 16 then One(d.sym) else if d.sym == 16 then Again(3 + extra)
         else if d.sym == 17 then Zeros(3 + extra) else ManyZeros(11 + extra);
  }

  lemma SymbolKnown(lens: seq<nat>, data: seq<byte>, pos: nat)
    requires DecodeSymbol(lens, data, pos, MAX_BITS).Symbol?
    ensures DecodeSymbol(lens, data, pos, MAX_BITS).sym < |lens|
  {
  }

  /** Code lengths that are read are spelled. */
  lemma {:induction false} ReadRuns(cl: seq<nat>, data: seq<byte>, pos: nat, acc: seq<nat>, total: nat, limit: nat)
    returns (runs: seq<Run>)
    requires |cl| == 19 && ValidLengths(cl, MAX_BITS) && ValidLengths(acc, MAX_BITS) && pos <= limit
    requires Lengths(cl, data, pos, total, acc, limit).Accept?
    ensures var r := Lengths(cl, data, pos, total, acc, limit);
            RunsAt(cl, data, pos, runs, r.pos) && Expand(runs, acc) == Some(r.value)
    decreases limit - pos
  {
    hide DecodeSymbol, Peek, CodeAt, LengthOp, LengthOpBits;
    if |acc| == total {
      runs := [];
    } else {
      var d := DecodeSymbol(cl, data, pos, MAX_BITS);
      var r := RunOf(cl, data, pos);
      var mid := pos + d.bits + LengthOpBits(d.sym);
      AddsValid(data, pos + d.bits, r, acc);
      var rest := ReadRuns(cl, data, mid, acc + LengthOp(d.sym, data, pos + d.bits, acc), total, limit);
      RunAdds(data, pos + d.bits, r, rest, acc);
      runs := [r] + rest;
      assert runs[0] == r && runs[1..] == rest;
    }
  }

  /** The code lengths of the code length alphabet: n three-bit numbers in the order of the RFC, and zeros. */
  ghost predicate CodeLengthCode(data: seq<byte>, pos: nat, n: nat, cl: seq<nat>) {
    && |cl| == 19
    && forall i {:trigger CODE_LENGTH_ORDER[i]} :: 0 <= i < 19 ==>
         cl[CODE_LENGTH_ORDER[i]] == if i < n then Peek(data, pos + 3 * i, 3) else 0
  }

  /** A dynamic block header: counts, the code length code, and runs that give the lengths of two usable codes. */
  ghost predicate HeaderAt(data: seq<byte>, pos: nat, lit: seq<nat>, dist: seq<nat>, end: nat) {
    && |lit| == Peek(data, pos, 5) + 257 <= 286 && |dist| == Peek(data, pos + 5, 5) + 1
    && exists cl, runs ::
         && CodeLengthCode(data, pos + 14, Peek(data, pos + 10, 4) + 4, cl) && |cl| == 19
         && RunsAt(cl, data, pos + 14 + 3 * (Peek(data, pos + 10, 4) + 4), runs, end)
         && Usable(cl) && Expand(runs, []) == Some(lit + dist) && Usable(lit) && Usable(dist)
  }

  /** Lengths of at most fifteen bits that some prefix-free code has. */
  ghost predicate Usable(lens: seq<nat>) {
    ValidLengths(lens, MAX_BITS) && KraftOk(lens)
  }

  lemma OrderPlaces()
    ensures forall i {:trigger CODE_LENGTH_ORDER[i]} :: 0 <= i < 19 ==> CODE_LENGTH_ORDER[i] < 19
    ensures forall i, j :: 0 <= i < j < 19 ==> CODE_LENGTH_ORDER[i] != CODE_LENGTH_ORDER[j]
  {
  }

  /** Every length of the code length alphabet has its place in the order. */
  lemma OrderCovers(k: nat)
    requires k < 19
    ensures exists i :: 0 <= i < 19 && CODE_LENGTH_ORDER[i] == k
  {
    var i := if k == 0 then 3 else if k == 1 then 17 else if k == 2 then 15 else if k == 3 then 13
             else if k == 4 then 11 else if k == 5 then 9 else if k == 6 then 7 else if k == 7 then 5
             else if k == 8 then 4 else if k == 9 then 6 else if k == 10 then 8 else if k == 11 then 10
             else if k == 12 then 12 else if k == 13 then 14 else if k == 14 then 16 else if k == 15 then 18 else k - 16;
    assert CODE_LENGTH_ORDER[i] == k;
  }

  lemma {:induction false} CodeLengthLensAt(data: seq<byte>, pos: nat, n: nat)
    requires n <= 19
    ensures CodeLengthCode(data, pos, n, CodeLengthLens(data, pos, n))
    decreases n
  {
    hide Peek;
    if n > 0 {
      CodeLengthLensAt(data, pos, n - 1);
      OrderPlaces();
    }
  }

  /** The three bits at one place of the list, zero behind its end. */
  function LengthAt(data: seq<byte>, pos: nat, n: nat, place: nat): nat {
    if place < n then Peek(data, pos + 3 * place, 3) else 0
  }

  /** Which place each symbol of the code length alphabet has: the repeats and zero first, then the lengths outwards
      from eight, the higher one of each two before the lower one. */
  lemma CodeLengthPlaces(data: seq<byte>, pos: nat, n: nat)
    requires n <= 19
    ensures var lens := CodeLengthLens(data, pos, n);
            && lens[16] == LengthAt(data, pos, n, 0) && lens[17] == LengthAt(data, pos, n, 1)
            && lens[18] == LengthAt(data, pos, n, 2) && lens[0] == LengthAt(data, pos, n, 3)
            && (forall j :: 0 <= j <= 7 ==> lens[8 + j] == LengthAt(data, pos, n, 4 + 2 * j))
            && (forall j :: 0 <= j <= 6 ==> lens[7 - j] == LengthAt(data, pos, n, 5 + 2 * j))
  {
    hide Peek, CodeLengthLens;
    CodeLengthLensAt(data, pos, n);
    var lens := CodeLengthLens(data, pos, n);
    assert forall i {:trigger CODE_LENGTH_ORDER[i]} :: 0 <= i < 19 ==> lens[CODE_LENGTH_ORDER[i]] == LengthAt(data, pos, n, i);
    forall j | 0 <= j <= 7
      ensures lens[8 + j] == LengthAt(data, pos, n, 4 + 2 * j)
    {
      UpwardPlace(j);
    }
    forall j | 0 <= j <= 6
      ensures lens[7 - j] == LengthAt(data, pos, n, 5 + 2 * j)
    {
      DownwardPlace(j);
    }
    FirstPlaces();
  }

  lemma FirstPlaces()
    ensures CODE_LENGTH_ORDER[0] == 16 && CODE_LENGTH_ORDER[1] == 17
    ensures CODE_LENGTH_ORDER[2] == 18 && CODE_LENGTH_ORDER[3] == 0
  {
  }

  lemma UpwardPlace(j: nat)
    requires j <= 7
    ensures CODE_LENGTH_ORDER[4 + 2 * j] == 8 + j
  {
  }

  lemma DownwardPlace(j: nat)
    requires j <= 6
    ensures CODE_LENGTH_ORDER[5 + 2 * j] == 7 - j
  {
  }

  /** There is just one such list, the one the reference reads. */
  lemma CodeLengthCodeUnique(data: seq<byte>, pos: nat, n: nat, cl: seq<nat>)
    requires n <= 19 && CodeLengthCode(data, pos, n, cl)
    ensures cl == CodeLengthLens(data, pos, n)
  {
    hide Peek, CodeLengthLens;
    CodeLengthLensAt(data, pos, n);
    var lens := CodeLengthLens(data, pos, n);
    forall k | 0 <= k < 19
      ensures cl[k] == lens[k]
    {
      OrderCovers(k);
      var i :| 0 <= i < 19 && CODE_LENGTH_ORDER[i] == k;
    }
  }

  /** A header is accepted exactly when it is spelled. */
  lemma HeaderExact(data: seq<byte>, pos: nat, limit: nat, lit: seq<nat>, dist: seq<nat>, end: nat)
    ensures DynamicHeader(data, pos, limit) == Accept((lit, dist), end) <==>
            end <= limit && HeaderAt(data, pos, lit, dist, end)
  {
    hide *;
    if DynamicHeader(data, pos, limit) == Accept((lit, dist), end) {
      HeaderSpelled(data, pos, limit, lit, dist, end);
    }
    if end <= limit && HeaderAt(data, pos, lit, dist, end) {
      HeaderRead(data, pos, limit, lit, dist, end);
    }
  }

  lemma HeaderSpelled(data: seq<byte>, pos: nat, limit: nat, lit: seq<nat>, dist: seq<nat>, end: nat)
    requires DynamicHeader(data, pos, limit) == Accept((lit, dist), end)
    ensures end <= limit && HeaderAt(data, pos, lit, dist, end)
  {
    hide Peek, Lengths, CodeLengthLens, CodeLengthCode, KraftOk, RunsAt, Expand;
    CountBounds(data, pos);
    var hlit, hdist := Peek(data, pos, 5) + 257, Peek(data, pos + 5, 5) + 1;
    var hclen := Peek(data, pos + 10, 4) + 4;
    var p, cl := pos + 14 + 3 * hclen, CodeLengthLens(data, pos + 14, hclen);
    CodeLengthLensAt(data, pos + 14, hclen);
    CodeLengthLensShape(data, pos + 14, hclen);
    var r := Lengths(cl, data, p, hlit + hdist, [], limit);
    var runs := ReadRuns(cl, data, p, [], hlit + hdist, limit);
    LengthsAccept(cl, data, p, hlit + hdist, limit);
    assert r.value == lit + dist && r.pos == end;
    assert CodeLengthCode(data, pos + 14, hclen, cl) && RunsAt(cl, data, p, runs, end);
  }

  lemma LengthsAccept(cl: seq<nat>, data: seq<byte>, pos: nat, total: nat, limit: nat)
    requires |cl| == 19 && pos <= limit && Lengths(cl, data, pos, total, [], limit).Accept?
    ensures var r := Lengths(cl, data, pos, total, [], limit);
            pos <= r.pos <= limit && |r.value| == total && ValidLengths(r.value, MAX_BITS)
  {
  }

  lemma HeaderRead(data: seq<byte>, pos: nat, limit: nat, lit: seq<nat>, dist: seq<nat>, end: nat)
    requires end <= limit && HeaderAt(data, pos, lit, dist, end)
    ensures DynamicHeader(data, pos, limit) == Accept((lit, dist), end)
  {
    hide Peek, Lengths, CodeLengthLens, CodeLengthCode, KraftOk, RunsAt, Expand;
    CountBounds(data, pos);
    var hclen := Peek(data, pos + 10, 4) + 4;
    var p := pos + 14 + 3 * hclen;
    var cl, runs :| CodeLengthCode(data, pos + 14, hclen, cl) && |cl| == 19 && RunsAt(cl, data, p, runs, end)
                    && Usable(cl) && Expand(runs, []) == Some(lit + dist);
    CodeLengthCodeUnique(data, pos + 14, hclen, cl);
    CodeLengthLensShape(data, pos + 14, hclen);
    RunsForward(cl, data, p, runs, end);
    RunsRead(cl, data, p, runs, end, [], |lit| + |dist|, limit);
    assert (lit + dist)[..|lit|] == lit && (lit + dist)[|lit|..] == dist;
  }

  lemma RunsForward(cl: seq<nat>, data: seq<byte>, pos: nat, runs: seq<Run>, end: nat)
    requires |cl| == 19 && RunsAt(cl, data, pos, runs, end)
    ensures pos <= end
  {
  }

  // ----- blocks and streams (sections 3.2.3 to 3.2.6) -----

  /** A stored block: length, complement and bytes from the next byte boundary on. */
  ghost predicate StoredAt(data: seq<byte>, pos: nat, out: seq<byte>, v: seq<byte>, end: nat) {
    var p := (pos + 7) / 8;
    var len := StoredLen(data, p);
    && StoredLen(data, p + 2) == 65535 - len && p + 4 + len <= |data|
    && v == out + data[p + 4..p + 4 + len] && end == 8 * (p + 4 + len)
  }

  /** A block from pos to end makes v out of out. */
  ghost predicate BlockAt(data: seq<byte>, pos: nat, out: seq<byte>, v: seq<byte>, end: nat) {
    match Peek(data, pos + 1, 2)
    case 0 => StoredAt(data, pos + 3, out, v, end)
    case 1 => BodyAt(FixedLit(), FixedDist(), data, pos + 3, out, v, end)
    case 2 => DynamicAt(data, pos + 3, out, v, end)
    case _ => false
  }

  ghost predicate DynamicAt(data: seq<byte>, pos: nat, out: seq<byte>, v: seq<byte>, end: nat) {
    exists lit, dist, mid: nat ::
      HeaderAt(data, pos, lit, dist, mid) && mid <= end && BodyAt(lit, dist, data, mid, out, v, end)
  }

  /** Blocks from pos on, the last one marked final and ending at end, make v out of out. */
  ghost predicate StreamAt(data: seq<byte>, pos: nat, out: seq<byte>, v: seq<byte>, end: nat)
    decreases end - pos
  {
    if Peek(data, pos, 1) != 0 then BlockAt(data, pos, out, v, end)
    else exists w, mid: nat :: pos < mid <= end && BlockAt(data, pos, out, w, mid) && StreamAt(data, mid, w, v, end)
  }

  lemma StoredExact(data: seq<byte>, pos: nat, out: seq<byte>, limit: nat, v: seq<byte>, end: nat)
    ensures Stored(data, pos, out, limit) == Accept(v, end) <==> end <= limit && StoredAt(data, pos, out, v, end)
  {
  }

  lemma DynamicExact(data: seq<byte>, pos: nat, out: seq<byte>, limit: nat, v: seq<byte>, end: nat)
    ensures DynamicBlock(data, pos, out, limit) == Accept(v, end) <==> end <= limit && DynamicAt(data, pos, out, v, end)
  {
    hide DynamicHeader, Body, HeaderAt, BodyAt;
    var h := DynamicHeader(data, pos, limit);
    if h.Accept? {
      HeaderExact(data, pos, limit, h.value.0, h.value.1, h.pos);
      AcceptedLengths(data, pos, limit);
      BodyExact(h.value.0, h.value.1, data, h.pos, out, limit, v, end);
      if Body(h.value.0, h.value.1, data, h.pos, out, limit) == Accept(v, end) {
        BodyForward(h.value.0, h.value.1, data, h.pos, out, limit);
      }
    }
    if end <= limit && DynamicAt(data, pos, out, v, end) {
      var lit, dist, mid: nat :| HeaderAt(data, pos, lit, dist, mid) && mid <= end && BodyAt(lit, dist, data, mid, out, v, end);
      HeaderExact(data, pos, limit, lit, dist, mid);
    }
  }

  lemma AcceptedLengths(data: seq<byte>, pos: nat, limit: nat)
    requires DynamicHeader(data, pos, limit).Accept?
    ensures var h := DynamicHeader(data, pos, limit).value;
            ValidLengths(h.0, MAX_BITS) && ValidLengths(h.1, MAX_BITS)
  {
    hide Lengths, CodeLengthLens, Peek, KraftOk;
  }

  lemma BodyForward(lit: seq<nat>, dist: seq<nat>, data: seq<byte>, pos: nat, out: seq<byte>, limit: nat)
    requires Body(lit, dist, data, pos, out, limit).Accept?
    ensures pos <= Body(lit, dist, data, pos, out, limit).pos <= limit
  {
  }

  lemma FixedLengths()
    ensures ValidLengths(FixedLit(), MAX_BITS) && ValidLengths(FixedDist(), MAX_BITS)
  {
  }

  lemma BlockExact(data: seq<byte>, pos: nat, out: seq<byte>, limit: nat, v: seq<byte>, end: nat)
    ensures Block(data, pos, out, limit) == Accept(v, end) <==> end <= limit && BlockAt(data, pos, out, v, end)
    ensures BlockAt(data, pos, out, v, end) ==> pos + 3 <= end
  {
    hide Stored, StoredAt, DynamicBlock, DynamicAt, Body, BodyAt, FixedLit, FixedDist, Peek;
    FixedLengths();
    if BlockAt(data, pos, out, v, end) {
      BlockForward(data, pos, out, v, end);
    }
    StoredExact(data, pos + 3, out, limit, v, end);
    BodyExact(FixedLit(), FixedDist(), data, pos + 3, out, limit, v, end);
    DynamicExact(data, pos + 3, out, limit, v, end);
  }

  lemma BlockForward(data: seq<byte>, pos: nat, out: seq<byte>, v: seq<byte>, end: nat)
    requires BlockAt(data, pos, out, v, end)
    ensures pos + 3 <= end
  {
    hide Peek, HeaderAt, FixedLit, FixedDist, SymbolAt, Meaning, TokenAt;
    match Peek(data, pos + 1, 2)
    case 0 =>
    case 1 => BodyAtForward(FixedLit(), FixedDist(), data, pos + 3, out, v, end);
    case _ =>
      var lit, dist, mid: nat :| HeaderAt(data, pos + 3, lit, dist, mid) && mid <= end && BodyAt(lit, dist, data, mid, out, v, end);
      HeaderForward(data, pos + 3, lit, dist, mid);
  }

  lemma BodyAtForward(lit: seq<nat>, dist: seq<nat>, data: seq<byte>, pos: nat, out: seq<byte>, v: seq<byte>, end: nat)
    requires BodyAt(lit, dist, data, pos, out, v, end)
    ensures pos <= end
  {
    hide TokenAt, CodeAt, Meaning;
    var tokens: seq<Token> :| Spelled(lit, dist, data, pos, tokens, end) && Meaning(tokens, out) == Some(v);
    assert tokens == [] || tokens != [];
  }

  lemma HeaderForward(data: seq<byte>, pos: nat, lit: seq<nat>, dist: seq<nat>, end: nat)
    requires HeaderAt(data, pos, lit, dist, end)
    ensures pos <= end
  {
    hide Peek, CodeLengthCode, Expand, Usable;
    var p := pos + 14 + 3 * (Peek(data, pos + 10, 4) + 4);
    var cl, runs :| |cl| == 19 && RunsAt(cl, data, p, runs, end);
    RunsForward(cl, data, p, runs, end);
  }

  lemma {:induction false} BlocksExact(data: seq<byte>, pos: nat, out: seq<byte>, limit: nat, v: seq<byte>, end: nat)
    ensures Blocks(data, pos, out, limit) == Accept(v, end) <==> end <= limit && StreamAt(data, pos, out, v, end)
    decreases limit - pos
  {
    hide Block, BlockAt, Peek;
    var r := Block(data, pos, out, limit);
    if Peek(data, pos, 1) != 0 {
      BlockExact(data, pos, out, limit, v, end);
    } else {
      if r.Accept? {
        BlockExact(data, pos, out, limit, r.value, r.pos);
        BlocksExact(data, r.pos, r.value, limit, v, end);
      }
      if end <= limit && StreamAt(data, pos, out, v, end) {
        var w, mid: nat :| pos < mid <= end && BlockAt(data, pos, out, w, mid) && StreamAt(data, mid, w, v, end);
        BlockExact(data, pos, out, limit, w, mid);
      }
    }
  }

  /** A DEFLATE stream, raw or behind a zlib header, is accepted with output v and end position e exactly when it
      spells v up to e. */
  lemma InflateExact(data: seq<byte>, header: bool, limit: nat, v: seq<byte>, end: nat)
    ensures Inflate(data, header, limit) == Accept(v, end) <==>
            && end <= limit && (header ==> HeaderOk(data))
            && StreamAt(data, if header then 16 else 0, [], v, end)
  {
    hide Blocks, StreamAt;
    BlocksExact(data, if header then 16 else 0, [], limit, v, end);
  }

  /** A stream means one thing only. */
  lemma MeaningUnique(data: seq<byte>, pos: nat, v: seq<byte>, end: nat, w: seq<byte>, stop: nat)
    requires StreamAt(data, pos, [], v, end) && StreamAt(data, pos, [], w, stop)
    ensures v == w && end == stop
  {
    hide Blocks, StreamAt;
    var limit := end + stop;
    BlocksExact(data, pos, [], limit, v, end);
    BlocksExact(data, pos, [], limit, w, stop);
  }
}
