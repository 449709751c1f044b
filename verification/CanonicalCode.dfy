/** Canonical Huffman codes (RFC 1951, section 3.2.2): the code a list of lengths determines,
    its prefix property, the Kraft criterion, and decoding one bit at a time. */
module CanonicalCode {
  import opened Bits

  // The longest code has max bits; DEFLATE fixes max to MAX_BITS.
  const MAX_BITS := 15

  ghost predicate ValidLengths(lens: seq<nat>, max: nat) {
    forall i :: 0 <= i < |lens| ==> lens[i] <= max
  }

  /** How many of the first n symbols have length l. */
  function Count(lens: seq<nat>, n: nat, l: nat): nat
    requires n <= |lens|
  {
    if n == 0 then 0 else Count(lens, n - 1, l) + if lens[n - 1] == l then 1 else 0
  }

  function Total(lens: seq<nat>, l: nat): nat {
    Count(lens, |lens|, l)
  }

  /** The smallest code of length l, and the value just past the largest one. */
  function FirstCode(lens: seq<nat>, l: nat): nat
    decreases l, 0, lens
  {
    if l <= 1 then 0 else 2 * EndCode(lens, l - 1)
  }

  function EndCode(lens: seq<nat>, l: nat): nat
    decreases l, 1, lens
  {
    FirstCode(lens, l) + Total(lens, l)
  }

  /** Number of symbols with a non-zero length below l: where length l starts in the sorted symbol table. */
  function SymbolBase(lens: seq<nat>, l: nat): nat {
    if l <= 1 then 0 else SymbolBase(lens, l - 1) + Total(lens, l - 1)
  }

  function CodeOf(lens: seq<nat>, i: nat): nat
    requires i < |lens|
  {
    FirstCode(lens, lens[i]) + Count(lens, i, lens[i])
  }

  function SlotOf(lens: seq<nat>, i: nat): nat
    requires i < |lens|
  {
    SymbolBase(lens, lens[i]) + Count(lens, i, lens[i])
  }

  /** No length runs out of codes. */
  ghost predicate Fits(lens: seq<nat>, max: nat) {
    forall l {:trigger EndCode(lens, l)} :: 1 <= l <= max ==> EndCode(lens, l) <= Pow2(l)
  }

  lemma FitsBoundsTotals(lens: seq<nat>, l: nat)
    requires 1 <= l <= MAX_BITS
    ensures Fits(lens, MAX_BITS) ==> Total(lens, l) <= Pow2(l)
  {
    assert Total(lens, l) <= EndCode(lens, l);
  }

  // ----- counting -----

  lemma {:induction false} CountMono(lens: seq<nat>, m: nat, n: nat, l: nat)
    requires m <= n <= |lens|
    ensures Count(lens, m, l) <= Count(lens, n, l)
    ensures forall i :: m <= i < n && lens[i] == l ==> Count(lens, m, l) < Count(lens, n, l)
  {
    if m < n {
      CountMono(lens, m, n - 1, l);
    }
  }

  /** Runs of symbols with one length, and with other lengths. */
  lemma {:induction false} CountRun(lens: seq<nat>, a: nat, b: nat, l: nat)
    requires a <= b <= |lens| && forall i :: a <= i < b ==> lens[i] == l
    ensures Count(lens, b, l) == Count(lens, a, l) + (b - a)
    decreases b
  {
    if a < b {
      CountRun(lens, a, b - 1, l);
    }
  }

  lemma {:induction false} CountOthers(lens: seq<nat>, a: nat, b: nat, l: nat)
    requires a <= b <= |lens| && forall i :: a <= i < b ==> lens[i] != l
    ensures Count(lens, b, l) == Count(lens, a, l)
    decreases b
  {
    if a < b {
      CountOthers(lens, a, b - 1, l);
    }
  }

  lemma CodeInRange(lens: seq<nat>, i: nat)
    requires i < |lens|
    ensures FirstCode(lens, lens[i]) <= CodeOf(lens, i) < EndCode(lens, lens[i])
    ensures SymbolBase(lens, lens[i]) <= SlotOf(lens, i) < SymbolBase(lens, lens[i]) + Total(lens, lens[i])
  {
    CountMono(lens, i, |lens|, lens[i]);
  }

  /** Within one length, codes follow symbol order. */
  lemma SameLengthOrder(lens: seq<nat>, i: nat, j: nat)
    requires i < j < |lens| && lens[i] == lens[j]
    ensures CodeOf(lens, i) < CodeOf(lens, j)
  {
    CountMono(lens, i, j, lens[i]);
  }

  /** Every code value between FirstCode and EndCode belongs to a symbol. */
  lemma {:induction false} CountReached(lens: seq<nat>, n: nat, l: nat, c: nat) returns (i: nat)
    requires n <= |lens| && c < Count(lens, n, l)
    ensures i < n && lens[i] == l && Count(lens, i, l) == c
  {
    if c < Count(lens, n - 1, l) {
      i := CountReached(lens, n - 1, l, c);
    } else {
      i := n - 1;
    }
  }

  lemma {:induction false} SymbolBaseMono(lens: seq<nat>, a: nat, b: nat)
    requires 1 <= a < b
    ensures SymbolBase(lens, a) + Total(lens, a) <= SymbolBase(lens, b)
    decreases b
  {
    if a < b - 1 {
      SymbolBaseMono(lens, a, b - 1);
    }
  }

  /** Two symbols never share a slot of the sorted symbol table. */
  lemma SlotsDistinct(lens: seq<nat>, i: nat, j: nat)
    requires i < j < |lens| && lens[i] > 0 && lens[j] > 0
    ensures SlotOf(lens, i) != SlotOf(lens, j)
  {
    CodeInRange(lens, i);
    CodeInRange(lens, j);
    if lens[i] < lens[j] {
      SymbolBaseMono(lens, lens[i], lens[j]);
    } else if lens[j] < lens[i] {
      SymbolBaseMono(lens, lens[j], lens[i]);
    } else {
      SameLengthOrder(lens, i, j);
    }
  }

  /** All symbols with a code have slots below the number of symbols. */
  lemma {:induction false} SymbolBaseBound(lens: seq<nat>, n: nat, l: nat)
    requires n <= |lens| && l > 0
    ensures PartialBase(lens, n, l) <= n
    ensures n == |lens| ==> SymbolBase(lens, l) == PartialBase(lens, n, l)
    decreases l, n
  {
    if l > 1 {
      SymbolBaseBound(lens, n, l - 1);
      if n > 0 {
        SymbolBaseBound(lens, n - 1, l);
        PartialBaseStep(lens, n, l);
      } else {
        PartialBaseEmpty(lens, l);
      }
    }
  }

  function PartialBase(lens: seq<nat>, n: nat, l: nat): nat
    requires n <= |lens|
  {
    if l <= 1 then 0 else PartialBase(lens, n, l - 1) + Count(lens, n, l - 1)
  }

  lemma {:induction false} PartialBaseStep(lens: seq<nat>, n: nat, l: nat)
    requires 0 < n <= |lens|
    ensures PartialBase(lens, n, l) ==
            PartialBase(lens, n - 1, l) + if 1 <= lens[n - 1] < l then 1 else 0
  {
    if l > 1 {
      PartialBaseStep(lens, n, l - 1);
    }
  }

  lemma {:induction false} PartialBaseEmpty(lens: seq<nat>, l: nat)
    ensures PartialBase(lens, 0, l) == 0
  {
    if l > 1 {
      PartialBaseEmpty(lens, l - 1);
    }
  }

  lemma SlotBelowSize(lens: seq<nat>, i: nat)
    requires i < |lens| && lens[i] > 0
    ensures SlotOf(lens, i) < |lens|
  {
    CodeInRange(lens, i);
    SymbolBaseBound(lens, |lens|, lens[i] + 1);
  }

  // ----- the prefix property -----

  lemma {:induction false} FirstCodeGrows(lens: seq<nat>, a: nat, b: nat)
    requires 1 <= a < b
    ensures Shl(EndCode(lens, a), b - a) <= FirstCode(lens, b)
    decreases b
  {
    if a < b - 1 {
      FirstCodeGrows(lens, a, b - 1);
    } else {
      assert Shl(EndCode(lens, a), 1) == 2 * Shl(EndCode(lens, a), 0);
    }
  }

  /** Shorter codes come first, and no shorter code is a prefix of a longer one. */
  lemma PrefixFree(lens: seq<nat>, i: nat, j: nat)
    requires i < |lens| && j < |lens| && 1 <= lens[i] < lens[j]
    ensures CodeOf(lens, i) < Shr(CodeOf(lens, j), lens[j] - lens[i])
  {
    CodeInRange(lens, i);
    CodeInRange(lens, j);
    FirstCodeGrows(lens, lens[i], lens[j]);
    var d := lens[j] - lens[i];
    ShrBelow(CodeOf(lens, j), EndCode(lens, lens[i]), d);
  }

  /** Codes of different symbols differ in the bits they share; equal-length codes are distinct. */
  lemma CodesDiffer(lens: seq<nat>, i: nat, j: nat)
    requires i < |lens| && j < |lens| && i != j && 1 <= lens[i] <= lens[j]
    ensures CodeOf(lens, i) != Shr(CodeOf(lens, j), lens[j] - lens[i])
  {
    if lens[i] < lens[j] {
      PrefixFree(lens, i, j);
    } else if i < j {
      SameLengthOrder(lens, i, j);
    } else {
      SameLengthOrder(lens, j, i);
    }
  }

  // ----- the Kraft criterion -----

  /** The Kraft sum of the first n lengths, scaled by 2^max. */
  function KraftSum(lens: seq<nat>, n: nat, max: nat): nat
    requires n <= |lens| && ValidLengths(lens, max)
  {
    if n == 0 then 0 else KraftSum(lens, n - 1, max) + if lens[n - 1] == 0 then 0 else Pow2(max - lens[n - 1])
  }

  lemma KraftNone(lens: seq<nat>, max: nat)
    requires ValidLengths(lens, max)
    ensures KraftSum(lens, 0, max) == 0
  {
  }

  /** A run of equal lengths contributes its size times the weight of the length. */
  lemma {:induction false} KraftRun(lens: seq<nat>, a: nat, b: nat, l: nat, max: nat)
    requires a <= b <= |lens| && ValidLengths(lens, max) && 1 <= l <= max
    requires forall i :: a <= i < b ==> lens[i] == l
    ensures KraftSum(lens, b, max) == KraftSum(lens, a, max) + (b - a) * Pow2(max - l)
    decreases b
  {
    if a < b {
      KraftRun(lens, a, b - 1, l, max);
      var w := Pow2(max - l);
      assert (b - a) * w == (b - 1 - a) * w + w;
    }
  }

  /** A run without codes contributes nothing. */
  lemma {:induction false} KraftZeros(lens: seq<nat>, a: nat, b: nat, max: nat)
    requires a <= b <= |lens| && ValidLengths(lens, max)
    requires forall i :: a <= i < b ==> lens[i] == 0
    ensures KraftSum(lens, b, max) == KraftSum(lens, a, max)
    decreases b
  {
    if a < b {
      KraftZeros(lens, a, b - 1, max);
    }
  }

  function KraftByLength(lens: seq<nat>, n: nat, l: nat, max: nat): nat
    requires n <= |lens| && l <= max
    decreases l, lens
  {
    if l == 0 then 0 else KraftByLength(lens, n, l - 1, max) + Shl(Count(lens, n, l), max - l)
  }

  lemma {:induction false} KraftByLengthStep(lens: seq<nat>, n: nat, l: nat, max: nat)
    requires 0 < n <= |lens| && l <= max && ValidLengths(lens, max)
    ensures KraftByLength(lens, n, l, max) ==
            KraftByLength(lens, n - 1, l, max) + if 1 <= lens[n - 1] <= l then Pow2(max - lens[n - 1]) else 0
    decreases l
  {
    if l > 0 {
      KraftByLengthStep(lens, n, l - 1, max);
      ShlAdd(Count(lens, n - 1, l), 1, max - l);
      ShlOne(max - l);
    }
  }

  lemma {:induction false} KraftBySymbol(lens: seq<nat>, n: nat, l: nat, max: nat)
    requires n <= |lens| && l <= max && forall i :: 0 <= i < |lens| ==> lens[i] <= l
    ensures KraftByLength(lens, n, l, max) == KraftSum(lens, n, max)
    decreases n
  {
    if n > 0 {
      KraftBySymbol(lens, n - 1, l, max);
      KraftByLengthStep(lens, n, l, max);
    } else {
      KraftEmpty(lens, l, max);
    }
  }

  lemma {:induction false} KraftEmpty(lens: seq<nat>, l: nat, max: nat)
    requires l <= max
    ensures KraftByLength(lens, 0, l, max) == 0
  {
    if l > 0 {
      KraftEmpty(lens, l - 1, max);
      ShlZero(max - l);
    }
  }

  lemma {:induction false} EndCodeIsKraft(lens: seq<nat>, l: nat, max: nat)
    requires 1 <= l <= max
    ensures Shl(EndCode(lens, l), max - l) == KraftByLength(lens, |lens|, l, max)
    decreases l
  {
    ShlAdd(FirstCode(lens, l), Total(lens, l), max - l);
    if l == 1 {
      ShlZero(max - l);
      assert KraftByLength(lens, |lens|, 0, max) == 0;
    } else {
      EndCodeIsKraft(lens, l - 1, max);
      var e := EndCode(lens, l - 1);
      ShlShl(e, 1, max - l);
      assert Shl(e, 1) == 2 * Shl(e, 0);
    }
  }

  lemma {:induction false} KraftByLengthMono(lens: seq<nat>, a: nat, b: nat, max: nat)
    requires a <= b <= max
    ensures KraftByLength(lens, |lens|, a, max) <= KraftByLength(lens, |lens|, b, max)
    decreases b
  {
    if a < b {
      KraftByLengthMono(lens, a, b - 1, max);
    }
  }

  /** The codes fit their lengths exactly when the Kraft sum is at most one. */
  lemma FitsIffKraft(lens: seq<nat>, max: nat)
    requires max > 0 && ValidLengths(lens, max)
    ensures Fits(lens, max) <==> KraftSum(lens, |lens|, max) <= Pow2(max)
  {
    KraftBySymbol(lens, |lens|, max, max);
    EndCodeIsKraft(lens, max, max);
    assert Shl(EndCode(lens, max), 0) == EndCode(lens, max);
    if KraftSum(lens, |lens|, max) <= Pow2(max) {
      forall l | 1 <= l <= max
        ensures EndCode(lens, l) <= Pow2(l)
      {
        EndCodeIsKraft(lens, l, max);
        KraftByLengthMono(lens, l, max, max);
        Pow2Shl(l, max - l);
        if EndCode(lens, l) > Pow2(l) {
          ShlMono(Pow2(l), EndCode(lens, l), max - l);
        }
      }
    }
  }

  // ----- decoding one bit at a time -----

  datatype Decoded = Invalid | Symbol(sym: nat, bits: nat)

  function FindSymbol(lens: seq<nat>, n: nat, l: nat, code: nat): (r: Option<nat>)
    requires n <= |lens|
    ensures r.Some? ==> r.value < n && lens[r.value] == l && CodeOf(lens, r.value) == code
    ensures r.None? ==> forall i :: 0 <= i < n && lens[i] == l ==> CodeOf(lens, i) != code
  {
    if n == 0 then None
    else if lens[n - 1] == l && CodeOf(lens, n - 1) == code then Some(n - 1)
    else FindSymbol(lens, n - 1, l, code)
  }

  /** Append stream bits to code until it is the code of some symbol; give up after max bits. */
  function Walk(lens: seq<nat>, data: seq<byte>, pos: nat, l: nat, code: nat, max: nat): (d: Decoded)
    requires 1 <= l <= max + 1
    ensures d.Symbol? ==> d.sym < |lens| && d.bits == lens[d.sym] && l <= d.bits <= max
    decreases max + 1 - l, lens
  {
    if l > max then Invalid
    else
      var c := 2 * code + StreamBit(data, pos + l - 1);
      match FindSymbol(lens, |lens|, l, c)
      case Some(i) => Symbol(i, l)
      case None => Walk(lens, data, pos, l + 1, c, max)
  }

  /** The symbol whose code starts at bit pos of the stream. */
  function DecodeSymbol(lens: seq<nat>, data: seq<byte>, pos: nat, max: nat): (d: Decoded)
    ensures d.Symbol? ==> d.sym < |lens| && d.bits == lens[d.sym] && 1 <= d.bits <= max
  {
    Walk(lens, data, pos, 1, 0, max)
  }

  /** The stream at pos starts with the code of symbol i. */
  ghost predicate CodeAt(lens: seq<nat>, data: seq<byte>, pos: nat, i: nat)
    requires i < |lens|
  {
    lens[i] > 0 && PeekMsb(data, pos, lens[i]) == CodeOf(lens, i)
  }

  lemma {:induction false} MsbPrefix(data: seq<byte>, pos: nat, a: nat, b: nat)
    requires a <= b
    ensures Shr(PeekMsb(data, pos, b), b - a) == PeekMsb(data, pos, a)
    decreases b
  {
    if a < b {
      MsbPrefix(data, pos, a, b - 1);
      assert PeekMsb(data, pos, b) / 2 == PeekMsb(data, pos, b - 1);
    }
  }

  /** At most one symbol's code starts at any position. */
  lemma CodeAtUnique(lens: seq<nat>, data: seq<byte>, pos: nat, i: nat, j: nat)
    requires i < |lens| && j < |lens| && CodeAt(lens, data, pos, i) && CodeAt(lens, data, pos, j)
    ensures i == j
  {
    if i != j {
      if lens[i] <= lens[j] {
        MsbPrefix(data, pos, lens[i], lens[j]);
        CodesDiffer(lens, i, j);
      } else {
        MsbPrefix(data, pos, lens[j], lens[i]);
        CodesDiffer(lens, j, i);
      }
    }
  }

  lemma PeekMsbLast(data: seq<byte>, pos: nat, n: nat)
    requires n > 0
    ensures PeekMsb(data, pos, n) == 2 * PeekMsb(data, pos, n - 1) + StreamBit(data, pos + n - 1)
  {
  }

  lemma {:induction false} WalkFinds(lens: seq<nat>, data: seq<byte>, pos: nat, l: nat, i: nat, max: nat)
    requires i < |lens| && CodeAt(lens, data, pos, i) && 1 <= l <= lens[i] <= max
    ensures Walk(lens, data, pos, l, PeekMsb(data, pos, l - 1), max) == Symbol(i, lens[i])
    decreases max + 1 - l
  {
    hide PeekMsb, CodeOf, StreamBit, FindSymbol;
    PeekMsbLast(data, pos, l);
    var r := FindSymbol(lens, |lens|, l, PeekMsb(data, pos, l));
    if r.Some? {
      var j := r.value;
      assert CodeAt(lens, data, pos, j);
      CodeAtUnique(lens, data, pos, i, j);
    } else {
      assert l != lens[i];
      WalkFinds(lens, data, pos, l + 1, i, max);
    }
  }

  lemma {:induction false} WalkSound(lens: seq<nat>, data: seq<byte>, pos: nat, l: nat, max: nat)
    requires 1 <= l <= max + 1
    ensures var d := Walk(lens, data, pos, l, PeekMsb(data, pos, l - 1), max); d.Symbol? ==> CodeAt(lens, data, pos, d.sym)
    decreases max + 1 - l
  {
    hide PeekMsb, CodeOf, StreamBit, FindSymbol;
    if l <= max {
      PeekMsbLast(data, pos, l);
      if FindSymbol(lens, |lens|, l, PeekMsb(data, pos, l)).None? {
        WalkSound(lens, data, pos, l + 1, max);
      }
    }
  }

  /** The bit-at-a-time decoder finds exactly the symbol whose code is there, and fails exactly when none is. */
  lemma DecodeExact(lens: seq<nat>, data: seq<byte>, pos: nat, max: nat)
    requires ValidLengths(lens, max)
    ensures var d := DecodeSymbol(lens, data, pos, max);
            && (d.Symbol? ==> CodeAt(lens, data, pos, d.sym))
            && (forall i :: 0 <= i < |lens| && CodeAt(lens, data, pos, i) ==> d == Symbol(i, lens[i]))
  {
    assert PeekMsb(data, pos, 0) == 0;
    WalkSound(lens, data, pos, 1, max);
    forall i | 0 <= i < |lens| && CodeAt(lens, data, pos, i)
      ensures DecodeSymbol(lens, data, pos, max) == Symbol(i, lens[i])
    {
      WalkFinds(lens, data, pos, 1, i, max);
    }
  }
}
