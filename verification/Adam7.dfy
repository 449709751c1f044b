/** create_png_image: de-interlacing the seven Adam7 passes (section 8.2 of the PNG specification). */
module Adam7 {
  import opened Bits
  import opened PngFilter
  import opened PngImage

  const XORIG: seq<nat> := [0, 4, 0, 2, 0, 1, 0]
  const YORIG: seq<nat> := [0, 0, 4, 0, 2, 0, 1]
  const XSPC: seq<nat> := [8, 8, 4, 4, 2, 2, 1]
  const YSPC: seq<nat> := [8, 8, 8, 4, 4, 2, 2]

  /** The size of pass p of a w pixels wide, or h pixels high, image. */
  function PassW(w: nat, p: nat): nat
    requires p < 7
  {
    (w - XORIG[p] + XSPC[p] - 1) / XSPC[p]
  }

  function PassH(h: nat, p: nat): nat
    requires p < 7
  {
    (h - YORIG[p] + YSPC[p] - 1) / YSPC[p]
  }

  /** Where pixel (i, j) of pass p lies in the image. */
  function ToX(p: nat, i: nat): nat
    requires p < 7
  {
    i * XSPC[p] + XORIG[p]
  }

  function ToY(p: nat, j: nat): nat
    requires p < 7
  {
    j * YSPC[p] + YORIG[p]
  }

  /** Which pass pixel (X, Y) of the image belongs to. */
  function PassOf(X: nat, Y: nat): (p: nat)
    ensures p < 7
  {
    if Y % 2 == 1 then 6
    else if X % 2 == 1 then 5
    else if Y % 4 == 2 then 4
    else if X % 4 == 2 then 3
    else if Y % 8 == 4 then 2
    else if X % 8 == 4 then 1
    else 0
  }

  function PassI(X: nat, Y: nat): nat {
    X / XSPC[PassOf(X, Y)]
  }

  function PassJ(X: nat, Y: nat): nat {
    Y / YSPC[PassOf(X, Y)]
  }

  /** Every pixel of the image is a pixel of the pass it belongs to. */
  lemma EveryPixelInPass(w: nat, h: nat, X: nat, Y: nat)
    requires X < w && Y < h
    ensures var p := PassOf(X, Y);
            && PassI(X, Y) < PassW(w, p) && PassJ(X, Y) < PassH(h, p)
            && ToX(p, PassI(X, Y)) == X && ToY(p, PassJ(X, Y)) == Y
  {
    PlaceInPass(X, Y);
    hide PassOf;
    var p := PassOf(X, Y);
    InPassW(w, p, X);
    InPassH(h, p, Y);
  }

  lemma PlaceInPass(X: nat, Y: nat)
    ensures var p := PassOf(X, Y);
            ToX(p, PassI(X, Y)) == X && ToY(p, PassJ(X, Y)) == Y
  {
    PassRemainders(X, Y);
    hide PassOf;
    var p := PassOf(X, Y);
    DivideBack(X, XSPC[p]);
    DivideBack(Y, YSPC[p]);
  }

  lemma PassRemainders(X: nat, Y: nat)
    ensures var p := PassOf(X, Y);
            X % XSPC[p] == XORIG[p] && Y % YSPC[p] == YORIG[p]
  {
    Halves(X);
    Halves(Y);
  }

  lemma Halves(v: nat)
    ensures v % 4 == 0 || v % 4 == 2 <==> v % 2 == 0
    ensures v % 8 == 0 || v % 8 == 4 <==> v % 4 == 0
  {
    HalfRemainder(v, 4);
    HalfRemainder(v, 2);
  }

  lemma HalfRemainder(v: nat, m: nat)
    requires m == 2 || m == 4
    ensures v % (2 * m) == v % m || v % (2 * m) == v % m + m
  {
    if m == 2 {
    } else {
    }
  }

  lemma DivideBack(v: nat, m: nat)
    requires 1 <= m
    ensures (v / m) * m + v % m == v
  {
  }

  lemma InPassW(w: nat, p: nat, X: nat)
    requires p < 7 && X < w && ToX(p, X / XSPC[p]) == X
    ensures X / XSPC[p] < PassW(w, p)
  {
  }

  lemma InPassH(h: nat, p: nat, Y: nat)
    requires p < 7 && Y < h && ToY(p, Y / YSPC[p]) == Y
    ensures Y / YSPC[p] < PassH(h, p)
  {
  }

  /** Every pixel of a pass is a pixel of the image, of no other pass and at no other place in it. */
  lemma PassPixelUnique(w: nat, h: nat, p: nat, i: nat, j: nat)
    requires p < 7 && i < PassW(w, p) && j < PassH(h, p)
    ensures var X, Y := ToX(p, i), ToY(p, j);
            X < w && Y < h && PassOf(X, Y) == p && PassI(X, Y) == i && PassJ(X, Y) == j
  {
    PassColumnInImage(w, p, i);
    PassRowInImage(h, p, j);
    PassOfPlace(p, i, j);
  }

  lemma PassOfPlace(p: nat, i: nat, j: nat)
    requires p < 7
    ensures PassOf(ToX(p, i), ToY(p, j)) == p
    ensures ToX(p, i) / XSPC[p] == i && ToY(p, j) / YSPC[p] == j
  {
    DivideProduct(i, XSPC[p], XORIG[p]);
    DivideProduct(j, YSPC[p], YORIG[p]);
    PassOfRemainders(p, ToX(p, i), ToY(p, j));
  }

  lemma DivideProduct(i: nat, m: nat, rest: nat)
    requires rest < m && (m == 1 || m == 2 || m == 4 || m == 8)
    ensures (i * m + rest) / m == i && (i * m + rest) % m == rest
  {
    if m == 1 {
    } else if m == 2 {
      assert i * 2 + rest == (2 * i + rest);
    } else if m == 4 {
      assert i * 4 + rest == (4 * i + rest);
    } else {
      assert i * 8 + rest == (8 * i + rest);
    }
  }

  /** The remainders of its coordinates tell the pass of a pixel. */
  lemma PassOfRemainders(p: nat, X: nat, Y: nat)
    requires p < 7 && X % XSPC[p] == XORIG[p] && Y % YSPC[p] == YORIG[p]
    ensures PassOf(X, Y) == p
  {
    Halves(X);
    Halves(Y);
  }

  /** The grid that the passes up to p cover together (section 8.2 of the PNG specification): every eighth, then every
      fourth, every second and every pixel, across and down in turn. */
  predicate OnGrid(p: nat, X: nat, Y: nat)
    requires p < 7
  {
    match p
    case 0 => X % 8 == 0 && Y % 8 == 0
    case 1 => X % 4 == 0 && Y % 8 == 0
    case 2 => X % 4 == 0 && Y % 4 == 0
    case 3 => X % 2 == 0 && Y % 4 == 0
    case 4 => X % 2 == 0 && Y % 2 == 0
    case 5 => Y % 2 == 0
    case _ => true
  }

  lemma PassesCover(p: nat, X: nat, Y: nat)
    requires p < 7
    ensures PassOf(X, Y) <= p <==> OnGrid(p, X, Y)
  {
    Halves(X);
    Halves(Y);
  }

  /** The pixels of pass q are those of the grid of q that are not on the grid of the pass before. */
  lemma PassAddsGrid(w: nat, h: nat, q: nat, X: nat, Y: nat)
    requires q < 7 && X < w && Y < h
    ensures (exists i, j :: 0 <= i < PassW(w, q) && 0 <= j < PassH(h, q) && ToX(q, i) == X && ToY(q, j) == Y)
            <==> OnGrid(q, X, Y) && (q > 0 ==> !OnGrid(q - 1, X, Y))
  {
    hide PassOf, OnGrid, PassW, PassH, ToX, ToY;
    PassesCover(q, X, Y);
    if q > 0 {
      PassesCover(q - 1, X, Y);
    }
    EveryPixelInPass(w, h, X, Y);
    if i, j :| 0 <= i < PassW(w, q) && 0 <= j < PassH(h, q) && ToX(q, i) == X && ToY(q, j) == Y {
      PassPixelUnique(w, h, q, i, j);
    }
  }

  // ----- pixels and their places in memory -----

  /** The offset of pixel (X, Y) in an image w pixels wide. */
  function Slot(w: nat, n: nat, X: nat, Y: nat): nat {
    (Y * w + X) * n
  }

  lemma MulMono(a: nat, b: nat, m: nat)
    requires a <= b
    ensures a * m <= b * m
  {
  }

  lemma SlotInBounds(w: nat, h: nat, n: nat, X: nat, Y: nat)
    requires X < w && Y < h
    ensures Slot(w, n, X, Y) + n <= w * h * n
  {
    MulMono(Y + 1, h, w);
    assert (Y + 1) * w == Y * w + w;
    MulMono(Y * w + X + 1, w * h, n);
    assert (Y * w + X + 1) * n == Slot(w, n, X, Y) + n;
  }

  lemma IndexOrder(w: nat, X: nat, Y: nat, X': nat, Y': nat)
    requires X < w && Y < Y'
    ensures Y * w + X < Y' * w + X'
  {
    MulMono(Y + 1, Y', w);
    assert (Y + 1) * w == Y * w + w;
  }

  lemma SlotOrder(a: nat, b: nat, n: nat)
    requires a < b
    ensures a * n + n <= b * n
  {
    MulMono(a + 1, b, n);
    assert (a + 1) * n == a * n + n;
  }

  /** Different pixels occupy disjoint bytes. */
  lemma SlotsDisjoint(w: nat, n: nat, X: nat, Y: nat, X': nat, Y': nat)
    requires X < w && X' < w && (X != X' || Y != Y')
    ensures Slot(w, n, X, Y) + n <= Slot(w, n, X', Y') || Slot(w, n, X', Y') + n <= Slot(w, n, X, Y)
  {
    if Y < Y' || (Y == Y' && X < X') {
      if Y < Y' {
        IndexOrder(w, X, Y, X', Y');
      }
      SlotOrder(Y * w + X, Y' * w + X', n);
    } else {
      if Y' < Y {
        IndexOrder(w, X', Y', X, Y);
      }
      SlotOrder(Y' * w + X', Y * w + X, n);
    }
  }

  /** Where a row starts in the canvas. */
  lemma {:induction false} CanvasRow(img: seq<Row>, n: nat, outN: nat, x: nat, j: nat, y: nat)
    requires j < y <= |img| && ImageOf(img, Times(n, x)) && (outN == n || outN == n + 1)
    ensures Times(Times(outN, x), j) + Times(outN, x) <= |Canvas(img, n, outN, x, y)|
    ensures Canvas(img, n, outN, x, y)[Times(Times(outN, x), j)..Times(Times(outN, x), j) + Times(outN, x)]
         == Interleave(img[j], n, outN, x)
    decreases y
  {
    hide Interleave;
    TimesMono(Times(outN, x), j, y);
    if j < y - 1 {
      CanvasRow(img, n, outN, x, j, y - 1);
      var a, b := Times(Times(outN, x), j), Times(Times(outN, x), j) + Times(outN, x);
      PartOfFront(Canvas(img, n, outN, x, y - 1), Interleave(img[y - 1], n, outN, x), a, b);
    }
  }

  /** Pixel i of row j, where the source looks for it. */
  lemma CanvasPixel(img: seq<Row>, n: nat, outN: nat, x: nat, y: nat, i: nat, j: nat)
    requires i < x && j < y == |img| && ImageOf(img, Times(n, x)) && (outN == n || outN == n + 1)
    ensures Times(n, i + 1) <= |img[j]|
    ensures Slot(x, outN, i, j) + outN <= |Canvas(img, n, outN, x, y)|
    ensures Canvas(img, n, outN, x, y)[Slot(x, outN, i, j)..Slot(x, outN, i, j) + outN]
         == Pixel(img[j], n, i) + Alpha(n, outN)
  {
    hide Canvas, Slot, Interleave, Pixel, Alpha;
    SlotIsTimes(x, outN, i, j);
    CanvasRow(img, n, outN, x, j, y);
    InterleavePixel(img[j], n, outN, x, i);
    var c := Canvas(img, n, outN, x, y);
    var row := Times(Times(outN, x), j);
    SubSlice(c, row, row + Times(outN, x), Times(outN, i), Times(outN, i) + outN);
    assert Slot(x, outN, i, j) == row + Times(outN, i);
    assert row + Times(outN, i) + outN == row + (Times(outN, i) + outN);
  }

  lemma SlotIsTimes(x: nat, n: nat, i: nat, j: nat)
    ensures Slot(x, n, i, j) == Times(Times(n, x), j) + Times(n, i)
  {
    hide Times;
    TimesIsProduct(n, x);
    TimesIsProduct(n, i);
    TimesIsProduct(Times(n, x), j);
    PixelOffset(x, n, i, j);
  }

  lemma PixelOffset(x: int, n: int, i: int, j: int)
    ensures (j * x + i) * n == (n * x) * j + n * i
  {
    Distribute(j * x, i, n);
    Swap(j, x);
    Swap(i, n);
    SwapFactors(x, j, n);
    Swap(x, n);
  }

  lemma Swap(a: int, b: int)
    ensures a * b == b * a
  {
  }

  lemma Distribute(a: int, b: int, m: int)
    ensures (a + b) * m == a * m + b * m
  {
  }

  // ----- the passes of the data -----

  predicate NonEmpty(w: nat, h: nat, p: nat)
    requires p < 7
  {
    PassW(w, p) != 0 && PassH(h, p) != 0
  }

  /** The filtered bytes that pass p takes up. */
  function PassSize(n: nat, w: nat, h: nat, p: nat): nat
    requires p < 7
  {
    if NonEmpty(w, h, p) then RowStart(Times(n, PassW(w, p)), PassH(h, p)) else 0
  }

  /** Where the data of pass p starts. */
  function PassStart(n: nat, w: nat, h: nat, p: nat): nat
    requires p <= 7
  {
    if p == 0 then 0 else PassStart(n, w, h, p - 1) + PassSize(n, w, h, p - 1)
  }

  /** n bytes per pixel, to which an alpha byte may be added. */
  predicate Layout(n: nat, outN: nat) {
    1 <= n && (outN == n || outN == n + 1)
  }

  /** The rebuilt image of a pass that is not empty. The source looks for its data behind as many bytes as the earlier
      passes would take up with the alpha byte. */
  ghost function PassImage(raw: seq<byte>, n: nat, outN: nat, w: nat, h: nat, p: nat): (r: Rows)
    requires Layout(n, outN) && p < 7 && NonEmpty(w, h, p)
    ensures r.Image? ==> |r.img| == PassH(h, p) && ImageOf(r.img, Times(n, PassW(w, p)))
  {
    if PassStart(outN, w, h, p) > |raw| then PastEnd
    else Rebuilt(raw[PassStart(outN, w, h, p)..], n, PassW(w, p), PassH(h, p), w, h)
  }

  /** The first p passes can be rebuilt. */
  ghost predicate PassesOk(raw: seq<byte>, n: nat, outN: nat, w: nat, h: nat, p: nat)
    requires Layout(n, outN) && p <= 7
  {
    forall q :: 0 <= q < p && NonEmpty(w, h, q) ==> PassImage(raw, n, outN, w, h, q).Image?
  }

  /** The pixel that belongs at (X, Y), when its pass can be rebuilt. */
  ghost function FinalPixel(raw: seq<byte>, n: nat, outN: nat, w: nat, h: nat, X: nat, Y: nat): (px: seq<byte>)
    requires Layout(n, outN) && X < w && Y < h
    ensures |px| == outN
  {
    EveryPixelInPass(w, h, X, Y);
    var p := PassOf(X, Y);
    TimesMono(n, PassI(X, Y) + 1, PassW(w, p));
    match PassImage(raw, n, outN, w, h, p)
    case Image(img) => Pixel(img[PassJ(X, Y)], n, PassI(X, Y)) + Alpha(n, outN)
    case _ => seq(outN, _ => 0)
  }

  /** In the order of the passes, and of rows and columns within one, (X, Y) comes before pixel (i, j) of pass p. */
  predicate Before(X: nat, Y: nat, p: nat, j: nat, i: nat) {
    PassOf(X, Y) < p || (PassOf(X, Y) == p && (PassJ(X, Y) < j || (PassJ(X, Y) == j && PassI(X, Y) < i)))
  }

  /** All pixels before pixel (i, j) of pass p have been placed. */
  ghost predicate Placed(final: seq<byte>, raw: seq<byte>, n: nat, outN: nat, w: nat, h: nat, p: nat, j: nat, i: nat)
    requires Layout(n, outN) && p <= 7 && |final| == w * h * outN
  {
    forall X: nat, Y: nat {:trigger FinalPixel(raw, n, outN, w, h, X, Y)} :: X < w && Y < h && Before(X, Y, p, j, i) ==>
      PixelAt(final, outN, w, h, X, Y) == FinalPixel(raw, n, outN, w, h, X, Y)
  }

  function PixelAt(final: seq<byte>, n: nat, w: nat, h: nat, X: nat, Y: nat): seq<byte>
    requires |final| == w * h * n && X < w && Y < h
  {
    SlotInBounds(w, h, n, X, Y);
    final[Slot(w, n, X, Y)..Slot(w, n, X, Y) + n]
  }

  /** memcpy of one pixel. */
  method CopyPixel(final: array<byte>, at: nat, src: array<byte>, from: nat, n: nat)
    requires at + n <= final.Length && from + n <= src.Length && final != src
    modifies final
    ensures final[at..at + n] == src[from..from + n]
    ensures forall k :: 0 <= k < final.Length && !(at <= k < at + n) ==> final[k] == old(final[k])
  {
    for k := 0 to n
      invariant final[at..at + k] == src[from..from + k]
      invariant forall m :: 0 <= m < final.Length && !(at <= m < at + k) ==> final[m] == old(final[m])
    {
      final[at + k] := src[from + k];
    }
  }

  /** Writing one pixel in its slot places it and disturbs no other. */
  lemma PlacedNext(before: seq<byte>, after: seq<byte>, raw: seq<byte>, n: nat, outN: nat, w: nat, h: nat, p: nat, j: nat, i: nat)
    requires Layout(n, outN) && p < 7 && i < PassW(w, p) && j < PassH(h, p)
    requires |before| == |after| == w * h * outN && Placed(before, raw, n, outN, w, h, p, j, i)
    requires ToX(p, i) < w && ToY(p, j) < h && PassOf(ToX(p, i), ToY(p, j)) == p
    requires PixelAt(after, outN, w, h, ToX(p, i), ToY(p, j)) == FinalPixel(raw, n, outN, w, h, ToX(p, i), ToY(p, j))
    requires var at := Slot(w, outN, ToX(p, i), ToY(p, j));
             forall k :: 0 <= k < |after| && !(at <= k < at + outN) ==> after[k] == before[k]
    ensures Placed(after, raw, n, outN, w, h, p, j, i + 1)
  {
    hide FinalPixel, Slot, PassW, PassH;
    forall X: nat, Y: nat | X < w && Y < h && Before(X, Y, p, j, i + 1)
      ensures PixelAt(after, outN, w, h, X, Y) == FinalPixel(raw, n, outN, w, h, X, Y)
    {
      if X != ToX(p, i) || Y != ToY(p, j) {
        PlaceOrder(w, h, p, i, j, X, Y);
        SlotsDisjoint(w, outN, ToX(p, i), ToY(p, j), X, Y);
        SlotInBounds(w, h, outN, X, Y);
        assert PixelAt(before, outN, w, h, X, Y) == FinalPixel(raw, n, outN, w, h, X, Y);
      }
    }
  }

  lemma PlaceOrder(w: nat, h: nat, p: nat, i: nat, j: nat, X: nat, Y: nat)
    requires p < 7 && X < w && Y < h && Before(X, Y, p, j, i + 1)
    requires X != ToX(p, i) || Y != ToY(p, j)
    ensures Before(X, Y, p, j, i)
  {
    EveryPixelInPass(w, h, X, Y);
  }

  // ----- the whole image -----

  /** Copy one row of a pass to its places in the image. */
  method PlaceRow(final: array<byte>, out: array<byte>, ghost raw: seq<byte>, ghost n: nat, outN: nat, w: nat, ghost h: nat,
                  p: nat, x: nat, ghost y: nat, j: nat)
    requires Layout(n, outN) && p < 7 && x == PassW(w, p) && y == PassH(h, p) && j < y && NonEmpty(w, h, p)
    requires PassImage(raw, n, outN, w, h, p).Image? && final != out
    requires final.Length == w * h * outN && out[..] == Canvas(PassImage(raw, n, outN, w, h, p).img, n, outN, x, y)
    requires Placed(final[..], raw, n, outN, w, h, p, j, 0)
    modifies final
    ensures Placed(final[..], raw, n, outN, w, h, p, j, x)
  {
    hide Placed, Canvas, PassImage, Rebuilt;
    for i := 0 to x
      invariant Placed(final[..], raw, n, outN, w, h, p, j, i)
    {
      PassPixelUnique(w, h, p, i, j);
      CanvasPixel(PassImage(raw, n, outN, w, h, p).img, n, outN, x, y, i, j);
      SlotInBounds(w, h, outN, ToX(p, i), ToY(p, j));
      ghost var before := final[..];
      CopyPixel(final, Slot(w, outN, ToX(p, i), ToY(p, j)), out, Slot(x, outN, i, j), outN);
      PlacedNext(before, final[..], raw, n, outN, w, h, p, j, i);
    }
  }

  lemma NextRow(final: seq<byte>, raw: seq<byte>, n: nat, outN: nat, w: nat, h: nat, p: nat, j: nat)
    requires Layout(n, outN) && p < 7 && |final| == w * h * outN
    requires Placed(final, raw, n, outN, w, h, p, j, PassW(w, p))
    ensures Placed(final, raw, n, outN, w, h, p, j + 1, 0)
  {
    forall X: nat, Y: nat | X < w && Y < h && Before(X, Y, p, j + 1, 0)
      ensures PixelAt(final, outN, w, h, X, Y) == FinalPixel(raw, n, outN, w, h, X, Y)
    {
      EveryPixelInPass(w, h, X, Y);
    }
  }

  lemma NextPass(final: seq<byte>, raw: seq<byte>, n: nat, outN: nat, w: nat, h: nat, p: nat)
    requires Layout(n, outN) && p < 7 && |final| == w * h * outN
    requires Placed(final, raw, n, outN, w, h, p, if NonEmpty(w, h, p) then PassH(h, p) else 0, 0)
    ensures Placed(final, raw, n, outN, w, h, p + 1, 0, 0)
  {
    forall X: nat, Y: nat | X < w && Y < h && Before(X, Y, p + 1, 0, 0)
      ensures PixelAt(final, outN, w, h, X, Y) == FinalPixel(raw, n, outN, w, h, X, Y)
    {
      EveryPixelInPass(w, h, X, Y);
    }
  }

  /** create_png_image: the whole image at once, or pass by pass. */
  method CreateImage(a: Png, raw: seq<byte>, outN: nat, interlaced: bool) returns (st: Status)
    requires Layout(a.imgN, outN) && 1 <= a.imgX
    modifies a`out
    ensures !interlaced ==>
              match Rebuilt(raw, a.imgN, a.imgX, a.imgY, a.imgX, a.imgY)
              case Image(img) => st == Success && a.out[..] == Canvas(img, a.imgN, outN, a.imgX, a.imgY)
              case Rejected => st == Failure
              case PastEnd => st == Overread
    ensures interlaced ==> (st == Success <==> PassesOk(raw, a.imgN, outN, a.imgX, a.imgY, 7))
    ensures interlaced && st == Success ==>
              && a.out.Length == a.imgX * a.imgY * outN
              && Placed(a.out[..], raw, a.imgN, outN, a.imgX, a.imgY, 7, 0, 0)
    ensures interlaced && st != Success ==>
              exists p: nat :: p < 7 && FirstBadPass(raw, a.imgN, outN, a.imgX, a.imgY, p, st)
  {
    if !interlaced {
      st := a.CreateImageRaw(raw, outN, a.imgX, a.imgY);
      return;
    }
    hide Placed, PassesOk, PassStart, PassImage;
    ghost var n := a.imgN;
    var w, h := a.imgX, a.imgY;
    var final := new byte[w * h * outN];
    var start := 0;
    PassesBegin(final[..], raw, n, outN, w, h);
    for p := 0 to 7
      modifies a`out, final
      invariant start == PassStart(outN, w, h, p)
      invariant PassesOk(raw, n, outN, w, h, p)
      invariant Placed(final[..], raw, n, outN, w, h, p, 0, 0)
    {
      st, start := DecodePass(a, final, raw, outN, p, start);
      PassesStep(raw, n, outN, w, h, p);
      if st != Success {
        assert FirstBadPass(raw, n, outN, w, h, p, st);
        return;
      }
    }
    a.out := final;
    return Success;
  }

  /** Pass p is the first that cannot be rebuilt, and the status says why. */
  ghost predicate FirstBadPass(raw: seq<byte>, n: nat, outN: nat, w: nat, h: nat, p: nat, st: Status)
    requires Layout(n, outN) && p < 7
  {
    && PassesOk(raw, n, outN, w, h, p) && NonEmpty(w, h, p)
    && match PassImage(raw, n, outN, w, h, p)
       case Image(_) => false
       case Rejected => st == Failure
       case PastEnd => st == Overread
  }

  /** Rebuild pass p, if it is not empty, and copy its pixels to their places. With an added alpha byte, the data of
      the pass may be looked for behind the end of all data; its first filter type is then read from there. */
  method DecodePass(a: Png, final: array<byte>, raw: seq<byte>, outN: nat, p: nat, start: nat)
    returns (st: Status, end: nat)
    requires Layout(a.imgN, outN) && p < 7 && final.Length == a.imgX * a.imgY * outN
    requires start == PassStart(outN, a.imgX, a.imgY, p)
    requires Placed(final[..], raw, a.imgN, outN, a.imgX, a.imgY, p, 0, 0)
    modifies a`out, final
    ensures !NonEmpty(a.imgX, a.imgY, p) ==> st == Success
    ensures NonEmpty(a.imgX, a.imgY, p) ==>
              match PassImage(raw, a.imgN, outN, a.imgX, a.imgY, p)
              case Image(_) => st == Success
              case Rejected => st == Failure
              case PastEnd => st == Overread
    ensures st == Success ==> end == PassStart(outN, a.imgX, a.imgY, p + 1)
    ensures st == Success ==> Placed(final[..], raw, a.imgN, outN, a.imgX, a.imgY, p + 1, 0, 0)
  {
    hide Placed, Rebuilt, Canvas, PassW, PassH;
    var x, y := PassW(a.imgX, p), PassH(a.imgY, p);
    st, end := Success, start;
    if x != 0 && y != 0 {
      if start > |raw| {
        st := Overread;
        return;
      }
      st := a.CreateImageRaw(raw[start..], outN, x, y);
      if st != Success {
        return;
      }
      PlacePass(final, a.out, raw, a.imgN, outN, a.imgX, a.imgY, p, x, y);
      StepIsSize(outN, a.imgX, a.imgY, p);
      end := start + (x * outN + 1) * y;
    }
    NextPass(final[..], raw, a.imgN, outN, a.imgX, a.imgY, p);
  }

  method PlacePass(final: array<byte>, out: array<byte>, ghost raw: seq<byte>, ghost n: nat, outN: nat, w: nat, ghost h: nat,
                   p: nat, x: nat, y: nat)
    requires Layout(n, outN) && p < 7 && x == PassW(w, p) && y == PassH(h, p) && NonEmpty(w, h, p)
    requires PassImage(raw, n, outN, w, h, p).Image? && final != out
    requires final.Length == w * h * outN && out[..] == Canvas(PassImage(raw, n, outN, w, h, p).img, n, outN, x, y)
    requires Placed(final[..], raw, n, outN, w, h, p, 0, 0)
    modifies final
    ensures Placed(final[..], raw, n, outN, w, h, p, y, 0)
  {
    hide Placed, PassImage, Canvas;
    for j := 0 to y
      invariant Placed(final[..], raw, n, outN, w, h, p, j, 0)
    {
      PlaceRow(final, out, raw, n, outN, w, h, p, x, y, j);
      NextRow(final[..], raw, n, outN, w, h, p, j);
    }
  }

  lemma PassesBegin(final: seq<byte>, raw: seq<byte>, n: nat, outN: nat, w: nat, h: nat)
    requires Layout(n, outN) && |final| == w * h * outN
    ensures PassStart(outN, w, h, 0) == 0 && PassesOk(raw, n, outN, w, h, 0) && Placed(final, raw, n, outN, w, h, 0, 0, 0)
  {
  }

  lemma PassesStep(raw: seq<byte>, n: nat, outN: nat, w: nat, h: nat, p: nat)
    requires Layout(n, outN) && p < 7 && PassesOk(raw, n, outN, w, h, p)
    ensures PassesOk(raw, n, outN, w, h, p + 1) <==> (NonEmpty(w, h, p) ==> PassImage(raw, n, outN, w, h, p).Image?)
    ensures PassesOk(raw, n, outN, w, h, 7) ==> (NonEmpty(w, h, p) ==> PassImage(raw, n, outN, w, h, p).Image?)
  {
  }

  /** The step from one pass to the next. */
  lemma StepIsSize(outN: nat, w: nat, h: nat, p: nat)
    requires p < 7 && NonEmpty(w, h, p)
    ensures PassStart(outN, w, h, p + 1) == PassStart(outN, w, h, p) + (PassW(w, p) * outN + 1) * PassH(h, p)
  {
    hide PassW, PassH;
    var x, y := PassW(w, p), PassH(h, p);
    RowStartIsProduct(Times(outN, x), y);
    TimesIsProduct(outN, x);
    Commute(x, outN, y);
  }

  lemma Commute(x: int, n: int, y: int)
    ensures y * (n * x + 1) == (x * n + 1) * y
  {
  }

  // ----- an image, interlaced and filtered, comes back -----

  /** The pixels of pass p of an image. */
  function Extract(img: seq<Row>, n: nat, w: nat, h: nat, p: nat): (pass: seq<Row>)
    requires p < 7 && |img| == h && ImageOf(img, Times(n, w))
    ensures |pass| == PassH(h, p) && ImageOf(pass, Times(n, PassW(w, p)))
  {
    seq(PassH(h, p), j requires 0 <= j < PassH(h, p) =>
      PassRowInImage(h, p, j);
      ExtractRow(img[ToY(p, j)], n, w, p, PassW(w, p)))
  }

  lemma PassRowInImage(h: nat, p: nat, j: nat)
    requires p < 7 && j < PassH(h, p)
    ensures ToY(p, j) < h
  {
  }

  lemma PassColumnInImage(w: nat, p: nat, i: nat)
    requires p < 7 && i < PassW(w, p)
    ensures ToX(p, i) < w
  {
  }

  /** The first i pixels that pass p takes from a row. */
  function ExtractRow(row: Row, n: nat, w: nat, p: nat, i: nat): (pass: Row)
    requires p < 7 && i <= PassW(w, p) && |row| == Times(n, w)
    ensures |pass| == Times(n, i)
  {
    if i == 0 then []
    else
      PassColumnInImage(w, p, i - 1);
      TimesMono(n, ToX(p, i - 1) + 1, w);
      ExtractRow(row, n, w, p, i - 1) + Pixel(row, n, ToX(p, i - 1))
  }

  lemma {:induction false} ExtractPixel(row: Row, n: nat, w: nat, p: nat, i: nat, m: nat)
    requires p < 7 && i < m <= PassW(w, p) && |row| == Times(n, w)
    ensures Times(n, i + 1) <= Times(n, m) && Times(n, ToX(p, i) + 1) <= |row|
    ensures Pixel(ExtractRow(row, n, w, p, m), n, i) == Pixel(row, n, ToX(p, i))
    decreases m
  {
    hide ExtractRow, ToX, PassW, Pixel, Times;
    PassColumnInImage(w, p, i);
    TimesMono(n, ToX(p, i) + 1, w);
    TimesMono(n, i + 1, m);
    var px := ExtractOneMore(row, n, w, p, m);
    var before := ExtractRow(row, n, w, p, m - 1);
    if i == m - 1 {
      PixelBehind(before, px, n, i);
    } else {
      ExtractPixel(row, n, w, p, i, m - 1);
      TimesMono(n, i + 1, m - 1);
      PixelInFront(before, px, n, i);
    }
  }

  lemma PixelBehind(front: Row, px: Row, n: nat, i: nat)
    requires |front| == Times(n, i) && |px| == n
    ensures Times(n, i + 1) <= |front + px| && Pixel(front + px, n, i) == px
  {
  }

  lemma PixelInFront(front: Row, more: Row, n: nat, i: nat)
    requires Times(n, i + 1) <= |front|
    ensures Pixel(front + more, n, i) == Pixel(front, n, i)
  {
    PartOfFront(front, more, Times(n, i), Times(n, i) + n);
  }

  lemma ExtractOneMore(row: Row, n: nat, w: nat, p: nat, m: nat) returns (px: Row)
    requires p < 7 && 1 <= m <= PassW(w, p) && |row| == Times(n, w)
    ensures Times(n, ToX(p, m - 1) + 1) <= |row| && px == Pixel(row, n, ToX(p, m - 1))
    ensures ExtractRow(row, n, w, p, m) == ExtractRow(row, n, w, p, m - 1) + px
  {
    PassColumnInImage(w, p, m - 1);
    TimesMono(n, ToX(p, m - 1) + 1, w);
    px := Pixel(row, n, ToX(p, m - 1));
  }

  /** The data of the first p passes of an image, each filtered in any legal way. */
  function InterlacedData(img: seq<Row>, types: seq<seq<nat>>, n: nat, w: nat, h: nat, p: nat): (raw: seq<byte>)
    requires 1 <= n && p <= 7 && |img| == h && ImageOf(img, Times(n, w)) && LegalPassTypes(types, h)
    ensures |raw| == PassStart(n, w, h, p)
  {
    if p == 0 then []
    else
      InterlacedData(img, types, n, w, h, p - 1)
      + (if NonEmpty(w, h, p - 1) then PassBytes(img, types, n, w, h, p - 1) else [])
  }

  /** The pixels of pass p, filtered. */
  function PassBytes(img: seq<Row>, types: seq<seq<nat>>, n: nat, w: nat, h: nat, p: nat): (data: seq<byte>)
    requires 1 <= n && p < 7 && |img| == h && ImageOf(img, Times(n, w)) && LegalPassTypes(types, h)
    ensures |data| == RowStart(Times(n, PassW(w, p)), PassH(h, p))
  {
    FilterImage(Extract(img, n, w, h, p), types[p], Times(n, PassW(w, p)), n, PassH(h, p))
  }

  lemma NextPassData(img: seq<Row>, types: seq<seq<nat>>, n: nat, w: nat, h: nat, p: nat)
    requires 1 <= n && p < 7 && |img| == h && ImageOf(img, Times(n, w)) && LegalPassTypes(types, h) && NonEmpty(w, h, p)
    ensures |InterlacedData(img, types, n, w, h, p)| == PassStart(n, w, h, p)
    ensures PassStart(n, w, h, p + 1) == PassStart(n, w, h, p) + |PassBytes(img, types, n, w, h, p)|
    ensures InterlacedData(img, types, n, w, h, p + 1)
         == InterlacedData(img, types, n, w, h, p) + PassBytes(img, types, n, w, h, p)
  {
    hide PassBytes, PassW, PassH;
  }

  ghost predicate LegalPassTypes(types: seq<seq<nat>>, h: nat) {
    && |types| == 7
    && forall p :: 0 <= p < 7 ==> |types[p]| == PassH(h, p) && LegalRowTypes(types[p])
  }

  ghost predicate LegalRowTypes(types: seq<nat>) {
    forall i :: 0 <= i < |types| ==> types[i] <= 4
  }

  lemma {:induction false} InterlacedPrefix(img: seq<Row>, types: seq<seq<nat>>, n: nat, w: nat, h: nat, p: nat, q: nat)
    requires 1 <= n && p <= q <= 7 && |img| == h && ImageOf(img, Times(n, w)) && LegalPassTypes(types, h)
    ensures PassStart(n, w, h, p) <= PassStart(n, w, h, q)
    ensures InterlacedData(img, types, n, w, h, q)[..PassStart(n, w, h, p)] == InterlacedData(img, types, n, w, h, p)
    decreases q
  {
    hide FilterImage, Extract, PassSize;
    if p < q {
      InterlacedPrefix(img, types, n, w, h, p, q - 1);
      var before, all := InterlacedData(img, types, n, w, h, q - 1), InterlacedData(img, types, n, w, h, q);
      assert all[..PassStart(n, w, h, p)] == before[..PassStart(n, w, h, p)];
    }
  }

  /** Rebuilding only looks at the rows it needs. */
  lemma {:induction false} UnfilterLonger(raw: seq<byte>, more: seq<byte>, w: nat, n: nat, j: nat)
    requires n >= 1 && RowStart(w, j) <= |raw| && raw <= more
    ensures LegalTypes(more, w, j) == LegalTypes(raw, w, j)
    ensures LegalTypes(raw, w, j) ==> UnfilterImage(more, w, n, j) == UnfilterImage(raw, w, n, j)
    decreases j
  {
    hide UnfilterRow;
    if j > 0 {
      UnfilterLonger(raw, more, w, n, j - 1);
      var start := RowStart(w, j - 1);
      assert more[start] == raw[start];
      if LegalTypes(raw, w, j) {
        assert RawRow(more, w, j - 1) == RawRow(raw, w, j - 1);
      }
    }
  }

  /** The data of pass p is rebuilt to the pixels of pass p. */
  lemma PassRebuilt(img: seq<Row>, types: seq<seq<nat>>, n: nat, w: nat, h: nat, p: nat)
    requires 1 <= n && p < 7 && |img| == h && ImageOf(img, Times(n, w)) && LegalPassTypes(types, h) && NonEmpty(w, h, p)
    ensures PassImage(InterlacedData(img, types, n, w, h, 7), n, n, w, h, p) == Image(Extract(img, n, w, h, p))
  {
    hide FilterImage, Extract, UnfilterImage, PassW, PassH;
    var raw := InterlacedData(img, types, n, w, h, 7);
    var x, y, pass := PassW(w, p), PassH(h, p), Extract(img, n, w, h, p);
    var width := Times(n, x);
    PassData(img, types, n, w, h, p, raw);
    var data, rest := FilterImage(pass, types[p], width, n, y), raw[PassStart(n, w, h, p)..];
    UnfilterFilterImage(pass, types[p], width, n, data, y);
    assert pass[..y] == pass;
    UnfilterLonger(data, rest, width, n, y);
    PassLengthOk(n, w, h, p, |rest|);
  }

  /** The data of pass p is found where the pass starts. */
  lemma PassData(img: seq<Row>, types: seq<seq<nat>>, n: nat, w: nat, h: nat, p: nat, raw: seq<byte>)
    requires 1 <= n && p < 7 && |img| == h && ImageOf(img, Times(n, w)) && LegalPassTypes(types, h) && NonEmpty(w, h, p)
    requires raw == InterlacedData(img, types, n, w, h, 7)
    ensures PassStart(n, w, h, p) <= PassStart(n, w, h, 7) == |raw|
    ensures PassBytes(img, types, n, w, h, p) <= raw[PassStart(n, w, h, p)..]
  {
    hide *;
    InterlacedPrefix(img, types, n, w, h, p, 7);
    InterlacedPrefix(img, types, n, w, h, p + 1, 7);
    NextPassData(img, types, n, w, h, p);
    MiddlePart(raw, InterlacedData(img, types, n, w, h, p), PassBytes(img, types, n, w, h, p));
  }

  lemma MiddlePart(raw: seq<byte>, before: seq<byte>, data: seq<byte>)
    requires |before| + |data| <= |raw| && raw[..|before| + |data|] == before + data
    ensures data <= raw[|before|..]
  {
    assert raw[|before|..][..|data|] == raw[..|before| + |data|][|before|..];
  }

  /** Only the first pass of a one-pixel image is as large as the image. */
  lemma SameSizePass(w: nat, h: nat, p: nat)
    requires p < 7 && NonEmpty(w, h, p) && PassW(w, p) == w && PassH(h, p) == h
    ensures p == 0 && w == 1 && h == 1
  {
  }

  lemma OnePixel(n: nat)
    ensures PassStart(n, 1, 1, 7) == PassStart(n, 1, 1, 1) == RowStart(Times(n, 1), 1)
  {
    assert PassSize(n, 1, 1, 1) == PassSize(n, 1, 1, 2) == PassSize(n, 1, 1, 3) == 0;
    assert PassSize(n, 1, 1, 4) == PassSize(n, 1, 1, 5) == PassSize(n, 1, 1, 6) == 0;
    assert PassStart(n, 1, 1, 3) == PassStart(n, 1, 1, 1);
    assert PassStart(n, 1, 1, 5) == PassStart(n, 1, 1, 3);
  }

  /** The length check of every pass succeeds. */
  lemma PassLengthOk(n: nat, w: nat, h: nat, p: nat, rest: nat)
    requires 1 <= n && p < 7 && NonEmpty(w, h, p)
    requires rest == PassStart(n, w, h, 7) - PassStart(n, w, h, p)
    ensures LengthOk(rest, n, PassW(w, p), PassH(h, p), w, h)
  {
    hide RowStart, Times, PassW, PassH;
    var x, y := PassW(w, p), PassH(h, p);
    if x == w && y == h {
      SameSizePass(w, h, p);
      OnePixel(n);
      WholeLength(rest, n, x, y);
    }
  }

  /** Decoding the concatenated filtered passes of an image rebuilds the image, whatever the filters: all passes
      are accepted, and every pixel in its place is the pixel of the image. */
  lemma InterlacedRebuilt(img: seq<Row>, types: seq<seq<nat>>, n: nat, w: nat, h: nat, X: nat, Y: nat)
    requires 1 <= n && |img| == h && ImageOf(img, Times(n, w)) && LegalPassTypes(types, h) && X < w && Y < h
    ensures var raw := InterlacedData(img, types, n, w, h, 7);
            && PassesOk(raw, n, n, w, h, 7)
            && Times(n, X + 1) <= |img[Y]|
            && FinalPixel(raw, n, n, w, h, X, Y) == Pixel(img[Y], n, X)
  {
    hide InterlacedData, PassImage;
    forall p | 0 <= p < 7 && NonEmpty(w, h, p)
      ensures PassImage(InterlacedData(img, types, n, w, h, 7), n, n, w, h, p).Image?
    {
      PassRebuilt(img, types, n, w, h, p);
    }
    EveryPixelInPass(w, h, X, Y);
    var p, i, j := PassOf(X, Y), PassI(X, Y), PassJ(X, Y);
    PassRebuilt(img, types, n, w, h, p);
    ExtractPixel(img[Y], n, w, p, i, PassW(w, p));
    TimesMono(n, X + 1, w);
  }

  /** Without any data, the source reads past the end for an interlaced image of two pixels: its first pass is
      smaller than the image, so that its length is not checked. */
  lemma EmptyInterlaced()
    ensures PassW(2, 0) == 1 && PassH(1, 0) == 1
    ensures PassImage([], 1, 1, 2, 1, 0) == PastEnd && FirstBadPass([], 1, 1, 2, 1, 0, Overread)
  {
    assert PassStart(1, 2, 1, 0) == 0;
    assert RowsOf([], Times(1, 1), 1, 1) == PastEnd;
  }

  /** With an added alpha byte the next pass is looked for at another place than where it starts. */
  lemma AlphaOffsetDiffers(n: nat, outN: nat, x: nat, y: nat)
    requires 1 <= n && x >= 1 && y >= 1 && (outN == n || outN == n + 1)
    ensures (x * outN + 1) * y == RowStart(Times(n, x), y) <==> outN == n
  {
    RowStartIsProduct(Times(n, x), y);
    TimesIsProduct(n, x);
    Commute(x, n, y);
    if outN == n + 1 {
      Swap(x, outN);
      Distribute(n, 1, x);
      Swap(x, n);
      SlotOrder(x * n + 1, x * outN + 1, y);
    }
  }

  // ----- an added alpha byte -----

  /** Behind the first pass, the data is looked for too far back. */
  lemma {:induction false} StartsGrow(n: nat, w: nat, h: nat, p: nat)
    requires 1 <= w && 1 <= h && 1 <= p <= 7
    ensures PassStart(n, w, h, p) < PassStart(n + 1, w, h, p)
    decreases p
  {
    hide PassW, PassH, RowStart, Times;
    if p == 1 {
      FirstNotEmpty(w, h);
    } else {
      StartsGrow(n, w, h, p - 1);
    }
    if NonEmpty(w, h, p - 1) {
      SizeGrows(n, w, h, p - 1);
    }
  }

  lemma FirstNotEmpty(w: nat, h: nat)
    requires 1 <= w && 1 <= h
    ensures NonEmpty(w, h, 0)
  {
  }

  lemma SizeGrows(n: nat, w: nat, h: nat, p: nat)
    requires p < 7 && NonEmpty(w, h, p)
    ensures PassSize(n, w, h, p) < PassSize(n + 1, w, h, p)
  {
    hide PassW, PassH, RowStart, Times;
    StepIsSize(n, w, h, p);
    StepIsSize(n + 1, w, h, p);
    var x, y := PassW(w, p), PassH(h, p);
    Swap(x, n);
    Swap(x, n + 1);
    Distribute(n, 1, x);
    SlotOrder(x * n + 1, x * (n + 1) + 1, y);
  }

  /** An image of more than one pixel has a last pass, not the first one, and the data ends with it. */
  lemma LastPass(n: nat, w: nat, h: nat) returns (p: nat)
    requires 1 <= w && 1 <= h && (w > 1 || h > 1)
    ensures 1 <= p < 7 && NonEmpty(w, h, p) && PassStart(n, w, h, 7) == PassStart(n, w, h, p) + PassSize(n, w, h, p)
  {
    hide RowStart, Times;
    if h > 1 {
      p := 6;
    } else {
      p := 5;
      assert PassH(h, 6) == 0 && PassSize(n, w, h, p + 1) == 0;
      assert PassStart(n, w, h, p + 2) == PassStart(n, w, h, p + 1);
    }
  }

  /** The data of an image, decoded with an added alpha byte, is accepted if and only if the image has one pixel. */
  lemma AlphaAccepted(img: seq<Row>, types: seq<seq<nat>>, n: nat, w: nat, h: nat)
    requires 1 <= n && 1 <= w && 1 <= h && |img| == h && ImageOf(img, Times(n, w)) && LegalPassTypes(types, h)
    ensures PassesOk(InterlacedData(img, types, n, w, h, 7), n, n + 1, w, h, 7) <==> w == 1 && h == 1
  {
    hide InterlacedData, PassImage, PassStart, PassSize;
    var raw := InterlacedData(img, types, n, w, h, 7);
    if w == 1 && h == 1 {
      OnePixelAccepted(img, types, n, w, h);
    } else {
      var p := LastPass(n, w, h);
      StartsGrow(n, w, h, p);
      TooLittleData(raw, n, w, h, p);
    }
  }

  lemma TooLittleData(raw: seq<byte>, n: nat, w: nat, h: nat, p: nat)
    requires 1 <= n && p < 7 && NonEmpty(w, h, p)
    requires |raw| == PassStart(n, w, h, p) + PassSize(n, w, h, p) && PassStart(n, w, h, p) < PassStart(n + 1, w, h, p)
    ensures !PassImage(raw, n, n + 1, w, h, p).Image?
  {
    hide PassW, PassH, PassStart, RowStart, Times, LengthOk;
  }

  lemma OnePixelAccepted(img: seq<Row>, types: seq<seq<nat>>, n: nat, w: nat, h: nat)
    requires 1 <= n && w == 1 && h == 1 && |img| == h && ImageOf(img, Times(n, w)) && LegalPassTypes(types, h)
    ensures PassesOk(InterlacedData(img, types, n, w, h, 7), n, n + 1, w, h, 7)
  {
    hide InterlacedData, Rebuilt, RowStart, Times;
    var raw := InterlacedData(img, types, n, w, h, 7);
    FirstNotEmpty(w, h);
    PassRebuilt(img, types, n, w, h, 0);
    forall p | 0 <= p < 7 && NonEmpty(w, h, p)
      ensures PassImage(raw, n, n + 1, w, h, p).Image?
    {
      OnlyFirst(p);
      assert PassStart(n, w, h, p) == PassStart(n + 1, w, h, p) == 0;
    }
  }

  lemma OnlyFirst(p: nat)
    requires p < 7 && NonEmpty(1, 1, p)
    ensures p == 0
  {
  }

  /** Two grey pixels, 0 and 9, interlaced without filters: the data is accepted as it is, but not with an added alpha
      byte, when the second pixel is taken for the filter type of its pass. */
  lemma AlphaRejected()
    ensures var raw: seq<byte> := [0, 0, 0, 9];
            PassesOk(raw, 1, 1, 2, 1, 7) && FirstBadPass(raw, 1, 2, 2, 1, 5, Failure)
  {
    hide RowsOf;
    var raw: seq<byte> := [0, 0, 0, 9];
    TwoPixelPasses();
    TwoPixelRows(raw);
    assert PassImage(raw, 1, 2, 2, 1, 5) == Rejected;
    assert PassImage(raw, 1, 1, 2, 1, 0).Image? && PassImage(raw, 1, 1, 2, 1, 5).Image?;
    assert PassImage(raw, 1, 2, 2, 1, 0).Image?;
  }

  lemma TwoPixelPasses()
    ensures PassW(2, 0) == PassH(1, 0) == PassW(2, 5) == PassH(1, 5) == 1
    ensures forall p :: 0 <= p < 7 && NonEmpty(2, 1, p) ==> p == 0 || p == 5
    ensures PassStart(1, 2, 1, 0) == PassStart(2, 2, 1, 0) == 0
    ensures PassStart(1, 2, 1, 5) == 2 && PassStart(2, 2, 1, 5) == 3
  {
  }

  lemma TwoPixelRows(raw: seq<byte>)
    requires raw == [0, 0, 0, 9]
    ensures RowsOf(raw[0..], Times(1, 1), 1, 1).Image? && RowsOf(raw[2..], Times(1, 1), 1, 1).Image?
    ensures RowsOf(raw[3..], Times(1, 1), 1, 1) == Rejected
  {
  }
}
