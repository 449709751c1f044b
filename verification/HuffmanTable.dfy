/** zhuffman: the decoding tables of stb_image's zlib decoder, and their construction. */
module HuffmanTable {
  import opened Bits
  import opened CanonicalCode
  import BitReverseWord

  const ZFAST_BITS := 9
  const ZFAST_SIZE := 512
  const MAX_SYMBOLS := 288
  const NO_ENTRY := 0xffff

  /** How a decoder routine ends: returns 1, returns 0 with an error, or stops at a failed assert. */
  datatype Status = Success | Failure | AssertFailed

  /** Index k of the fast table starts (in stream order) with the code of symbol i. */
  ghost predicate FastHit(lens: seq<nat>, i: nat, k: nat)
    requires i < |lens|
  {
    1 <= lens[i] <= ZFAST_BITS && Low(k, lens[i]) == Reverse(CodeOf(lens, i), lens[i])
  }

  lemma CodeFits(lens: seq<nat>, i: nat)
    requires i < |lens| && Fits(lens, MAX_BITS) && 1 <= lens[i] <= MAX_BITS
    ensures CodeOf(lens, i) < Pow2(lens[i])
  {
    CodeInRange(lens, i);
  }

  /** The fast-table index, reversed, starts with the symbol's code. */
  lemma FastHitCode(lens: seq<nat>, i: nat, k: nat)
    requires i < |lens| && Fits(lens, MAX_BITS) && 1 <= lens[i] <= ZFAST_BITS
    ensures FastHit(lens, i, k) <==> Reverse(k, lens[i]) == CodeOf(lens, i)
  {
    var s := lens[i];
    CodeFits(lens, i);
    ReverseLowBits(k, s);
    LowBound(k, s);
    ReverseInvolution(Low(k, s), s);
    ReverseInvolution(CodeOf(lens, i), s);
  }

  /** No two symbols claim the same slot of the fast table. */
  lemma FastHitUnique(lens: seq<nat>, i: nat, j: nat, k: nat)
    requires i < |lens| && j < |lens| && Fits(lens, MAX_BITS)
    requires FastHit(lens, i, k) && FastHit(lens, j, k)
    ensures i == j
  {
    FastHitCode(lens, i, k);
    FastHitCode(lens, j, k);
    if i != j {
      if lens[i] <= lens[j] {
        ReversePrefix(k, lens[i], lens[j]);
        CodesDiffer(lens, i, j);
      } else {
        ReversePrefix(k, lens[j], lens[i]);
        CodesDiffer(lens, j, i);
      }
    }
  }

  /** Indices with the same low s bits are 2^s apart. */
  lemma LowPeriod(k: nat, m: nat, s: nat)
    ensures Low(k + Pow2(s), s) == Low(k, s)
    ensures k < m < k + Pow2(s) ==> Low(m, s) != Low(k, s)
  {
    SplitWord(k, s);
    SplitWord(m, s);
    LowBound(k, s);
    ShlAdd(Shr(k, s), 1, s);
    ShlOne(s);
    JoinWord(Low(k, s), Shr(k, s) + 1, s);
    if Shr(m, s) <= Shr(k, s) {
      ShlMono(Shr(m, s), Shr(k, s), s);
    } else {
      ShlMono(Shr(k, s) + 1, Shr(m, s), s);
    }
  }

  class ZHuffman {
    const fast: array<nat>
    const firstcode: array<nat>
    const maxcode: array<nat>
    const firstsymbol: array<nat>
    const size: array<nat>
    const value: array<nat>

    ghost const Repr: set<object> := {fast, firstcode, maxcode, firstsymbol, size, value}

    ghost predicate Shape() {
      && fast.Length == ZFAST_SIZE && firstcode.Length == 16 && maxcode.Length == 17
      && firstsymbol.Length == 16 && size.Length == MAX_SYMBOLS && value.Length == MAX_SYMBOLS
      && fast != firstcode && fast != maxcode && fast != firstsymbol && fast != size && fast != value
      && firstcode != maxcode && firstcode != firstsymbol && firstcode != size && firstcode != value
      && maxcode != firstsymbol && maxcode != size && maxcode != value
      && firstsymbol != size && firstsymbol != value && size != value
    }

    constructor ()
      ensures Shape() && fresh(Repr)
    {
      fast := new nat[ZFAST_SIZE];
      firstcode := new nat[16];
      maxcode := new nat[17];
      firstsymbol := new nat[16];
      size := new nat[MAX_SYMBOLS];
      value := new nat[MAX_SYMBOLS];
    }

    /** The per-length tables up to (excluding) length l. */
    ghost predicate Levels(lens: seq<nat>, l: nat)
      requires Shape() && l <= 16
      reads firstcode, maxcode, firstsymbol
    {
      && (forall j {:trigger firstcode[j]} :: 1 <= j < l ==> firstcode[j] == FirstCode(lens, j))
      && (forall j {:trigger firstsymbol[j]} :: 1 <= j < l ==> firstsymbol[j] == SymbolBase(lens, j))
      && (forall j {:trigger maxcode[j]} :: 1 <= j < l ==> maxcode[j] == Shl(EndCode(lens, j), 16 - j))
    }

    /** The sorted symbol table for the first n symbols. */
    ghost predicate Symbols(lens: seq<nat>, n: nat)
      requires Shape() && n <= |lens| <= MAX_SYMBOLS
      reads size, value
    {
      forall i :: 0 <= i < n && lens[i] > 0 ==>
        SlotOf(lens, i) < |lens| && size[SlotOf(lens, i)] == lens[i] && value[SlotOf(lens, i)] == i
    }

    /** The fast table for the first n symbols: exactly the hits are filled in. */
    ghost predicate Fast(lens: seq<nat>, n: nat)
      requires Shape() && n <= |lens|
      reads fast
    {
      && (forall i, k :: 0 <= i < n && 0 <= k < ZFAST_SIZE && FastHit(lens, i, k) ==> fast[k] == SlotOf(lens, i))
      && (forall k :: 0 <= k < ZFAST_SIZE ==>
            fast[k] == NO_ENTRY || exists i :: 0 <= i < n && FastHit(lens, i, k))
    }

    /** The tables decode the canonical code of lens. */
    ghost predicate Represents(lens: seq<nat>)
      reads Repr
    {
      && Shape()
      && |lens| <= MAX_SYMBOLS && ValidLengths(lens, MAX_BITS) && Fits(lens, MAX_BITS)
      && Levels(lens, 16) && maxcode[16] == 0x10000
      && Symbols(lens, |lens|) && Fast(lens, |lens|)
    }

    /** zbuild_huffman: succeeds exactly on lengths whose Kraft sum is at most one. */
    method Build(sizelist: seq<nat>) returns (r: Status)
      requires Shape() && |sizelist| <= MAX_SYMBOLS && ValidLengths(sizelist, MAX_BITS)
      modifies Repr
      ensures r == Success <==> KraftSum(sizelist, |sizelist|, MAX_BITS) <= Pow2(MAX_BITS)
      ensures r == AssertFailed <==> exists l :: 1 <= l <= MAX_BITS && Total(sizelist, l) > Pow2(l)
      ensures r == Success ==> Represents(sizelist)
    {
      hide Total, Pow2, Shl, KraftSum, Fits, Levels, Symbols, Fast, FirstCode;
      for i := 0 to ZFAST_SIZE
        modifies fast
        invariant forall j :: 0 <= j < i ==> fast[j] == NO_ENTRY
      {
        fast[i] := NO_ENTRY;
      }
      var sizes := CountLengths(sizelist);
      FitsIffKraft(sizelist, MAX_BITS);
      for i := 1 to 16
        modifies {}
        invariant forall l :: 1 <= l < i ==> Total(sizelist, l) <= Pow2(l)
      {
        ShlOne(i);
        if sizes[i] > Shl(1, i) {
          assert Total(sizelist, i) > Pow2(i);
          FitsBoundsTotals(sizelist, i);
          return AssertFailed;
        }
      }
      var nextCode := new nat[16];
      var ok := AssignFirstCodes(sizelist, sizes, nextCode);
      if !ok {
        return Failure;
      }
      FillSymbols(sizelist, nextCode);
      return Success;
    }

    method CountLengths(sizelist: seq<nat>) returns (sizes: array<nat>)
      requires ValidLengths(sizelist, MAX_BITS)
      ensures fresh(sizes) && sizes.Length == 17 && sizes[0] == 0
      ensures forall l :: 1 <= l < 17 ==> sizes[l] == Total(sizelist, l)
    {
      sizes := new nat[17](_ => 0);
      for i := 0 to |sizelist|
        invariant forall l :: 0 <= l < 17 ==> sizes[l] == Count(sizelist, i, l)
      {
        sizes[sizelist[i]] := sizes[sizelist[i]] + 1;
      }
      sizes[0] := 0;
    }

    /** The first code, symbol base and code limit of every length; fails when a length overflows. */
    method AssignFirstCodes(lens: seq<nat>, sizes: array<nat>, nextCode: array<nat>) returns (ok: bool)
      requires Shape() && nextCode.Length == 16 && sizes.Length == 17
      requires nextCode != firstcode && nextCode != maxcode && nextCode != firstsymbol
      requires sizes != firstcode && sizes != maxcode && sizes != firstsymbol && sizes != nextCode
      requires forall l :: 1 <= l < 17 ==> sizes[l] == Total(lens, l)
      modifies firstcode, maxcode, firstsymbol, nextCode
      ensures ok <==> Fits(lens, MAX_BITS)
      ensures ok ==> Levels(lens, 16) && maxcode[16] == 0x10000
      ensures ok ==> forall j :: 1 <= j < 16 ==> nextCode[j] == FirstCode(lens, j)
    {
      hide FirstCode, EndCode, SymbolBase, Total, Pow2, Shl, Levels, Fits;
      var code, k := 0, 0;
      LevelsBegin(lens);
      for i := 1 to 16
        invariant code == FirstCode(lens, i) && code <= Pow2(i) && k == SymbolBase(lens, i)
        invariant Fits(lens, i - 1)
        invariant Levels(lens, i)
        invariant forall j :: 1 <= j < i ==> nextCode[j] == FirstCode(lens, j)
      {
        CodeIsUint16(code, i);
        LevelStep(lens, i);
        nextCode[i] := code;
        StoreFirst(lens, i, code % 0x10000, k);
        code := code + sizes[i];
        if sizes[i] != 0 {
          if code - 1 >= Shl(1, i) {
            return false;
          }
        }
        StoreLimit(lens, i, Shl(code, 16 - i));
        code := 2 * code;
        k := k + sizes[i];
      }
      CloseLimits(lens);
      return true;
    }

    lemma LevelsBegin(lens: seq<nat>)
      requires Shape()
      ensures FirstCode(lens, 1) == SymbolBase(lens, 1) == 0 <= Pow2(1) && Fits(lens, 0) && Levels(lens, 1)
    {
    }

    method StoreFirst(ghost lens: seq<nat>, i: nat, code: nat, symbol: nat)
      requires Shape() && 1 <= i < 16 && Levels(lens, i)
      modifies firstcode, firstsymbol
      ensures Levels(lens, i) && firstcode[i] == code && firstsymbol[i] == symbol
    {
      hide FirstCode, EndCode, SymbolBase, Shl;
      firstcode[i] := code;
      firstsymbol[i] := symbol;
    }

    method StoreLimit(ghost lens: seq<nat>, i: nat, limit: nat)
      requires Shape() && 1 <= i < 16 && Levels(lens, i)
      requires firstcode[i] == FirstCode(lens, i) && firstsymbol[i] == SymbolBase(lens, i)
      requires limit == Shl(EndCode(lens, i), 16 - i)
      modifies maxcode
      ensures Levels(lens, i + 1)
    {
      hide FirstCode, EndCode, SymbolBase, Shl;
      maxcode[i] := limit;
    }

    /** The limit that every search ends at. */
    method CloseLimits(ghost lens: seq<nat>)
      requires Shape() && Levels(lens, 16)
      modifies maxcode
      ensures Levels(lens, 16) && maxcode[16] == 0x10000
    {
      hide FirstCode, EndCode, SymbolBase, Shl;
      maxcode[16] := 0x10000;
    }

    /** Give every symbol its code, in symbol order, and record it in the tables. */
    method FillSymbols(lens: seq<nat>, nextCode: array<nat>)
      requires Shape() && |lens| <= MAX_SYMBOLS && ValidLengths(lens, MAX_BITS) && Fits(lens, MAX_BITS)
      requires nextCode.Length == 16 && nextCode != firstcode && nextCode != firstsymbol
      requires nextCode != fast && nextCode != size && nextCode != value
      requires Levels(lens, 16)
      requires forall j :: 1 <= j < 16 ==> nextCode[j] == FirstCode(lens, j)
      requires forall j :: 0 <= j < ZFAST_SIZE ==> fast[j] == NO_ENTRY
      modifies fast, size, value, nextCode
      ensures Symbols(lens, |lens|) && Fast(lens, |lens|)
    {
      hide FirstCode, EndCode, SymbolBase, Shl, Fits;
      for i := 0 to |lens|
        invariant forall j :: 1 <= j < 16 ==> nextCode[j] == FirstCode(lens, j) + Count(lens, i, j)
        invariant Symbols(lens, i) && Fast(lens, i)
      {
        var s := lens[i];
        if s != 0 {
          var c := nextCode[s] - firstcode[s] + firstsymbol[s];
          assert c == SlotOf(lens, i);
          StoreSymbol(lens, i, c);
          if s <= ZFAST_BITS {
            FillFast(lens, i, nextCode[s], c);
          } else {
            NoFastHit(lens, i);
          }
          nextCode[s] := nextCode[s] + 1;
        }
      }
    }

    lemma NoFastHit(lens: seq<nat>, i: nat)
      requires Shape() && i < |lens| && lens[i] > ZFAST_BITS && Fast(lens, i)
      ensures Fast(lens, i + 1)
    {
      assert forall k :: 0 <= k < ZFAST_SIZE ==> !FastHit(lens, i, k);
    }

    /** Enter symbol i into the sorted symbol table. */
    method StoreSymbol(lens: seq<nat>, i: nat, c: nat)
      requires Shape() && i < |lens| <= MAX_SYMBOLS && lens[i] > 0 && c == SlotOf(lens, i) && Symbols(lens, i)
      modifies size, value
      ensures Symbols(lens, i + 1)
    {
      SlotBelowSize(lens, i);
      forall j | 0 <= j < i && lens[j] > 0
        ensures SlotOf(lens, j) != c
      {
        SlotsDistinct(lens, j, i);
      }
      size[c] := lens[i];
      value[c] := i;
    }

    /** Write slot c at every fast-table index that starts with the code of symbol i. */
    method FillFast(lens: seq<nat>, i: nat, code: nat, c: nat)
      requires Shape() && i < |lens| && Fits(lens, MAX_BITS) && Fast(lens, i)
      requires 1 <= lens[i] <= ZFAST_BITS && code == CodeOf(lens, i) && c == SlotOf(lens, i)
      modifies fast
      ensures Fast(lens, i + 1)
    {
      hide CodeOf, SlotOf, Fits, Shl, Low, Reverse;
      var s := lens[i];
      var k := BitReverseWord.BitReverse(code, s);
      BitReverseWord.BitReverseIsReverse(code, s);
      ReverseBound(code, s);
      LowSmall(k, s);
      ghost var before := fast[..];
      forall m: nat | m < k
        ensures Low(m, s) != Low(k, s)
      {
        LowSmall(m, s);
      }
      while k < ZFAST_SIZE
        invariant Low(k, s) == Reverse(code, s)
        invariant forall m :: 0 <= m < k && m < ZFAST_SIZE ==> fast[m] == if FastHit(lens, i, m) then c else before[m]
        invariant forall m :: k <= m < ZFAST_SIZE ==> fast[m] == before[m]
      {
        ghost var k0 := k;
        fast[k] := c;
        ShlOne(s);
        k := k + Shl(1, s);
        forall m: nat | k0 < m < k
          ensures !FastHit(lens, i, m)
        {
          LowPeriod(k0, m, s);
        }
        LowPeriod(k0, k0, s);
      }
      FastExtended(lens, i, before);
    }

    lemma FastExtended(lens: seq<nat>, i: nat, before: seq<nat>)
      requires Shape() && i < |lens| && Fits(lens, MAX_BITS) && |before| == ZFAST_SIZE
      requires forall j, k :: 0 <= j < i && 0 <= k < ZFAST_SIZE && FastHit(lens, j, k) ==> before[k] == SlotOf(lens, j)
      requires forall k :: 0 <= k < ZFAST_SIZE ==>
                 before[k] == NO_ENTRY || exists j :: 0 <= j < i && FastHit(lens, j, k)
      requires forall m :: 0 <= m < ZFAST_SIZE ==> fast[m] == if FastHit(lens, i, m) then SlotOf(lens, i) else before[m]
      ensures Fast(lens, i + 1)
    {
      forall j, k | 0 <= j < i + 1 && 0 <= k < ZFAST_SIZE && FastHit(lens, j, k)
        ensures fast[k] == SlotOf(lens, j)
      {
        if FastHit(lens, i, k) {
          FastHitUnique(lens, i, j, k);
        }
      }
    }
  }

  lemma LevelStep(lens: seq<nat>, i: nat)
    requires 1 <= i <= MAX_BITS
    ensures Fits(lens, i) <==> Fits(lens, i - 1) && EndCode(lens, i) <= Pow2(i)
    ensures EndCode(lens, i) > Pow2(i) ==> !Fits(lens, MAX_BITS)
    ensures EndCode(lens, i) == FirstCode(lens, i) + Total(lens, i) && FirstCode(lens, i + 1) == 2 * EndCode(lens, i)
    ensures SymbolBase(lens, i + 1) == SymbolBase(lens, i) + Total(lens, i)
    ensures Shl(1, i) == Pow2(i) && Pow2(i + 1) == 2 * Pow2(i)
  {
    ShlOne(i);
  }

  lemma CodeIsUint16(code: nat, i: nat)
    requires i <= MAX_BITS && code <= Pow2(i)
    ensures code % 0x10000 == code
  {
    Pow2Mono(i, MAX_BITS);
    Pow2Fifteen();
  }

  lemma Pow2Fifteen()
    ensures Pow2(15) == 32768
  {
    assert Pow2(5) == 32 && Pow2(10) == 1024;
  }
}
