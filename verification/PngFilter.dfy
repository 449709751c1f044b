/** The five PNG filters (sections 6 and 9 of the PNG specification), row by row. */
module PngFilter {
  import opened Bits

  type Row = seq<byte>

  function Abs(v: int): nat {
    if v < 0 then -v else v
  }

  /** Of left, above and upper left, the one closest to left + above - upper left; ties go in this order. */
  function Paeth(a: byte, b: byte, c: byte): byte {
    var p := a as int + b - c;
    var pa, pb, pc := Abs(p - a), Abs(p - b), Abs(p - c);
    if pa <= pb && pa <= pc then a else if pb <= pc then b else c
  }

  /** A byte of a row; bytes left of the row count as zero. */
  function At(row: Row, k: int): byte
    requires k < |row|
  {
    if k < 0 then 0 else row[k]
  }

  /** What filter type t predicts from the bytes to the left, above and upper left. */
  function Predict(t: nat, a: byte, b: byte, c: byte): byte
    requires t <= 4
  {
    match t
    case 0 => 0
    case 1 => a
    case 2 => b
    case 3 => (a as int + b) / 2
    case _ => Paeth(a, b, c)
  }

  function PredictAt(t: nat, row: Row, prev: Row, n: nat, k: nat): byte
    requires t <= 4 && n >= 1 && k <= |row| && k < |prev|
  {
    Predict(t, At(row, k - n), prev[k], At(prev, k - n))
  }

  /** Filtering a row: subtract the predictions from the original bytes. */
  function FilterRow(t: nat, row: Row, prev: Row, n: nat): (f: Row)
    requires t <= 4 && n >= 1 && |row| == |prev|
    ensures |f| == |row|
  {
    seq(|row|, k requires 0 <= k < |row| => (row[k] as int - PredictAt(t, row, prev, n, k)) % 256)
  }

  /** Undoing a filter: add the predictions made from the bytes rebuilt so far. */
  function UnfilterTo(t: nat, f: Row, prev: Row, n: nat, k: nat): (row: Row)
    requires t <= 4 && n >= 1 && |f| == |prev| && k <= |f|
    ensures |row| == k
  {
    if k == 0 then []
    else
      var row := UnfilterTo(t, f, prev, n, k - 1);
      row + [(f[k - 1] as int + PredictAt(t, row, prev, n, k - 1)) % 256]
  }

  function UnfilterRow(t: nat, f: Row, prev: Row, n: nat): (row: Row)
    requires t <= 4 && n >= 1 && |f| == |prev|
    ensures |row| == |f|
  {
    UnfilterTo(t, f, prev, n, |f|)
  }

  lemma {:induction false} UnfilterPrefix(t: nat, f: Row, prev: Row, n: nat, j: nat, k: nat)
    requires t <= 4 && n >= 1 && |f| == |prev| && j <= k <= |f|
    ensures UnfilterTo(t, f, prev, n, k)[..j] == UnfilterTo(t, f, prev, n, j)
    decreases k
  {
    if j < k {
      UnfilterPrefix(t, f, prev, n, j, k - 1);
    }
  }

  /** Unfiltering a filtered row gives the row back. */
  lemma {:induction false} UnfilterFilter(t: nat, row: Row, prev: Row, n: nat, k: nat)
    requires t <= 4 && n >= 1 && |row| == |prev| && k <= |row|
    ensures UnfilterTo(t, FilterRow(t, row, prev, n), prev, n, k) == row[..k]
    decreases k
  {
    hide PredictAt;
    if k > 0 {
      UnfilterFilter(t, row, prev, n, k - 1);
      PredictPrefix(t, row, prev, n, k - 1);
      ModRedo(row[k - 1], PredictAt(t, row, prev, n, k - 1));
    }
  }

  lemma ModRedo(v: byte, p: byte)
    ensures (((v as int - p) % 256) + p) % 256 == v
  {
  }

  /** A prediction only looks at earlier bytes of the row. */
  lemma PredictPrefix(t: nat, row: Row, prev: Row, n: nat, k: nat)
    requires t <= 4 && n >= 1 && k < |row| && |row| == |prev|
    ensures PredictAt(t, row[..k], prev, n, k) == PredictAt(t, row, prev, n, k)
  {
  }

  lemma ModUndo(f: byte, p: byte)
    ensures ((f as int + p) % 256 - p) % 256 == f
  {
  }

  /** Filtering an unfiltered row gives the filtered bytes back. */
  lemma FilterUnfilter(t: nat, f: Row, prev: Row, n: nat)
    requires t <= 4 && n >= 1 && |f| == |prev|
    ensures FilterRow(t, UnfilterRow(t, f, prev, n), prev, n) == f
  {
    hide PredictAt;
    var row := UnfilterRow(t, f, prev, n);
    forall k | 0 <= k < |f|
      ensures FilterRow(t, row, prev, n)[k] == f[k]
    {
      UnfilterPrefix(t, f, prev, n, k, |f|);
      UnfilterPrefix(t, f, prev, n, k + 1, |f|);
      var done := UnfilterTo(t, f, prev, n, k);
      assert row[..k] == done && row[..k + 1] == UnfilterTo(t, f, prev, n, k + 1);
      PredictPrefix(t, row, prev, n, k);
      ModUndo(f[k], PredictAt(t, row, prev, n, k));
    }
  }

  // ----- the predictions of section 9 of the PNG specification, as they show in a rebuilt row -----

  function Apart(x: int, y: int): nat {
    if x < y then y - x else x - y
  }

  /** Of left a, above b and upper left c, m is the one closest to a + b - c; of two equally close ones, the earlier. */
  predicate Nearest(m: int, a: int, b: int, c: int) {
    var e := a + b - c;
    || (m == a && Apart(a, e) <= Apart(b, e) && Apart(a, e) <= Apart(c, e))
    || (m == b && Apart(b, e) < Apart(a, e) && Apart(b, e) <= Apart(c, e))
    || (m == c && Apart(c, e) < Apart(a, e) && Apart(c, e) < Apart(b, e))
  }

  lemma PaethNearest(a: byte, b: byte, c: byte, m: int)
    ensures m == Paeth(a, b, c) <==> Nearest(m, a, b, c)
  {
  }

  /** What each filter type adds to the filtered byte: nothing, the byte to the left, the byte above, half their sum
      rounded down, or the nearest of left, above and upper left. Bytes outside of the image are zero. */
  lemma Added(t: nat, f: Row, prev: Row, n: nat, k: nat)
    requires t <= 4 && n >= 1 && |f| == |prev| && k < |f|
    ensures var row := UnfilterRow(t, f, prev, n);
            var m := (row[k] as int - f[k]) % 256;
            var left, corner := if k < n then 0 else row[k - n], if k < n then 0 else prev[k - n];
            match t
            case 0 => m == 0
            case 1 => m == left
            case 2 => m == prev[k]
            case 3 => 2 * m <= left as int + prev[k] <= 2 * m + 1
            case _ => Nearest(m, left, prev[k], corner)
  {
    hide Paeth, Nearest;
    var row := UnfilterRow(t, f, prev, n);
    UnfilterPrefix(t, f, prev, n, k, |f|);
    UnfilterPrefix(t, f, prev, n, k + 1, |f|);
    assert row[..k + 1][k] == row[k];
    var left, corner := At(row[..k], k - n), At(prev, k - n);
    PaethNearest(left, prev[k], corner, Paeth(left, prev[k], corner));
    ModBack(f[k], Predict(t, left, prev[k], corner));
  }

  lemma ModBack(f: byte, p: byte)
    ensures ((f as int + p) % 256 - f) % 256 == p
  {
  }

  /** Two pixels of one byte under 7 and 9, with each filter type, and the nearest below zeros. */
  lemma FilteredPair()
    ensures UnfilterRow(0, [10, 1], [7, 9], 1) == [10, 1] && UnfilterRow(1, [10, 1], [7, 9], 1) == [10, 11]
    ensures UnfilterRow(2, [10, 1], [7, 9], 1) == [17, 10] && UnfilterRow(3, [10, 1], [7, 9], 1) == [13, 12]
    ensures UnfilterRow(4, [10, 1], [7, 9], 1) == [17, 18] && UnfilterRow(4, [10, 1], [0, 0], 1) == [10, 11]
  {
    hide UnfilterRow;
    RebuiltPair(0, [10, 1], [7, 9]);
    RebuiltPair(1, [10, 1], [7, 9]);
    RebuiltPair(2, [10, 1], [7, 9]);
    RebuiltPair(3, [10, 1], [7, 9]);
    RebuiltPair(4, [10, 1], [7, 9]);
    RebuiltPair(4, [10, 1], [0, 0]);
  }

  lemma RebuiltPair(t: nat, f: Row, prev: Row)
    requires t <= 4 && |f| == |prev| == 2
    ensures var first := (f[0] as int + Predict(t, 0, prev[0], 0)) % 256;
            UnfilterRow(t, f, prev, 1) == [first, (f[1] as int + Predict(t, first, prev[1], prev[0])) % 256]
  {
    hide Predict;
    assert UnfilterTo(t, f, prev, 1, 1) == UnfilterTo(t, f, prev, 1, 0) + [(f[0] as int + Predict(t, 0, prev[0], 0)) % 256];
  }

  // ----- whole images: a filter type byte before each filtered row -----

  function Zeros(w: nat): Row {
    seq(w, _ => 0)
  }

  ghost predicate ImageOf(img: seq<Row>, w: nat) {
    forall j :: 0 <= j < |img| ==> |img[j]| == w
  }

  /** The row above row j; above the first row everything is zero. */
  function Above(img: seq<Row>, w: nat, j: nat): (prev: Row)
    requires j <= |img| && ImageOf(img, w)
    ensures |prev| == w
  {
    if j == 0 then Zeros(w) else img[j - 1]
  }

  /** Where filtered row j starts. */
  function RowStart(w: nat, j: nat): nat {
    if j == 0 then 0 else RowStart(w, j - 1) + 1 + w
  }

  lemma {:induction false} RowStartIsProduct(w: nat, j: nat)
    ensures RowStart(w, j) == j * (w + 1)
  {
    if j > 0 {
      RowStartIsProduct(w, j - 1);
    }
  }

  lemma {:induction false} RowStartMono(w: nat, i: nat, j: nat)
    requires i <= j
    ensures RowStart(w, i) <= RowStart(w, j)
  {
    if i < j {
      RowStartMono(w, i, j - 1);
    }
  }

  /** The first j rows of an image, filtered with the given types. */
  function FilterImage(img: seq<Row>, types: seq<nat>, w: nat, n: nat, j: nat): (raw: seq<byte>)
    requires ImageOf(img, w) && |types| == |img| && j <= |img| && n >= 1
    requires forall i :: 0 <= i < |types| ==> types[i] <= 4
    ensures |raw| == RowStart(w, j)
  {
    if j == 0 then []
    else
      FilterImage(img, types, w, n, j - 1) + [types[j - 1]]
      + FilterRow(types[j - 1], img[j - 1], Above(img, w, j - 1), n)
  }

  /** The filter types in front of the first j rows are all legal. */
  predicate LegalTypes(raw: seq<byte>, w: nat, j: nat)
    requires RowStart(w, j) <= |raw|
  {
    j == 0 || (LegalTypes(raw, w, j - 1) && raw[RowStart(w, j - 1)] <= 4)
  }

  /** The filtered bytes of row j. */
  function RawRow(raw: seq<byte>, w: nat, j: nat): (f: Row)
    requires RowStart(w, j) + 1 + w <= |raw|
    ensures |f| == w
  {
    raw[RowStart(w, j) + 1..RowStart(w, j) + 1 + w]
  }

  /** The first j rows rebuilt from filtered data. */
  function UnfilterImage(raw: seq<byte>, w: nat, n: nat, j: nat): (img: seq<Row>)
    requires RowStart(w, j) <= |raw| && n >= 1 && LegalTypes(raw, w, j)
    ensures |img| == j && ImageOf(img, w)
  {
    if j == 0 then []
    else
      var img := UnfilterImage(raw, w, n, j - 1);
      img + [UnfilterRow(raw[RowStart(w, j - 1)], RawRow(raw, w, j - 1), Above(img, w, j - 1), n)]
  }

  lemma {:induction false} FilterImagePrefix(img: seq<Row>, types: seq<nat>, w: nat, n: nat, i: nat, j: nat)
    requires ImageOf(img, w) && |types| == |img| && i <= j <= |img| && n >= 1
    requires forall i :: 0 <= i < |types| ==> types[i] <= 4
    ensures RowStart(w, i) <= RowStart(w, j)
    ensures FilterImage(img, types, w, n, j)[..RowStart(w, i)] == FilterImage(img, types, w, n, i)
    decreases j
  {
    hide FilterRow;
    if i < j {
      FilterImagePrefix(img, types, w, n, i, j - 1);
    }
  }

  /** Row j - 1 of a filtered image: its type byte and its filtered bytes. */
  lemma FilterImageRow(img: seq<Row>, types: seq<nat>, w: nat, n: nat, j: nat)
    requires ImageOf(img, w) && |types| == |img| && 0 < j <= |img| && n >= 1
    requires forall i :: 0 <= i < |types| ==> types[i] <= 4
    ensures var raw := FilterImage(img, types, w, n, |img|);
            && RowStart(w, j) <= |raw|
            && raw[RowStart(w, j - 1)] == types[j - 1]
            && RawRow(raw, w, j - 1) == FilterRow(types[j - 1], img[j - 1], Above(img, w, j - 1), n)
  {
    hide FilterRow;
    FilterImagePrefix(img, types, w, n, j, |img|);
    var raw, part, before := FilterImage(img, types, w, n, |img|), FilterImage(img, types, w, n, j),
                             FilterImage(img, types, w, n, j - 1);
    var f := FilterRow(types[j - 1], img[j - 1], Above(img, w, j - 1), n);
    assert part == before + [types[j - 1]] + f;
    var start := RowStart(w, j - 1);
    assert raw[start] == part[start];
    assert raw[start + 1..start + 1 + w] == part[start + 1..start + 1 + w] == f;
  }

  /** Unfiltering undoes any legal choice of filters. */
  lemma {:induction false} UnfilterFilterImage(img: seq<Row>, types: seq<nat>, w: nat, n: nat, raw: seq<byte>, j: nat)
    requires ImageOf(img, w) && |types| == |img| && n >= 1 && j <= |img|
    requires forall i :: 0 <= i < |types| ==> types[i] <= 4
    requires raw == FilterImage(img, types, w, n, |img|)
    ensures RowStart(w, j) <= |raw| && LegalTypes(raw, w, j) && UnfilterImage(raw, w, n, j) == img[..j]
    decreases j
  {
    hide FilterRow, UnfilterTo, FilterImage, RawRow;
    RowStartMono(w, j, |img|);
    if j > 0 {
      UnfilterFilterImage(img, types, w, n, raw, j - 1);
      FilterImageRow(img, types, w, n, j);
      UnfilterFilter(types[j - 1], img[j - 1], Above(img, w, j - 1), n, w);
      assert img[j - 1][..w] == img[j - 1];
    }
  }

  lemma {:induction false} UnfilterImagePrefix(raw: seq<byte>, w: nat, n: nat, i: nat, j: nat)
    requires i <= j && RowStart(w, j) <= |raw| && n >= 1 && LegalTypes(raw, w, j)
    ensures RowStart(w, i) <= |raw| && LegalTypes(raw, w, i)
    ensures UnfilterImage(raw, w, n, j)[..i] == UnfilterImage(raw, w, n, i)
    decreases j
  {
    hide UnfilterRow;
    if i < j {
      UnfilterImagePrefix(raw, w, n, i, j - 1);
    }
  }

  /** Row j - 1 of a rebuilt image. */
  lemma UnfilterImageRow(raw: seq<byte>, w: nat, n: nat, j: nat, y: nat)
    requires 0 < j <= y && RowStart(w, y) <= |raw| && n >= 1 && LegalTypes(raw, w, y)
    ensures RowStart(w, j) <= |raw| && raw[RowStart(w, j - 1)] <= 4
    ensures var img := UnfilterImage(raw, w, n, y);
            img[j - 1] == UnfilterRow(raw[RowStart(w, j - 1)], RawRow(raw, w, j - 1), Above(img, w, j - 1), n)
  {
    hide UnfilterRow, RawRow;
    UnfilterImagePrefix(raw, w, n, j, y);
    UnfilterImagePrefix(raw, w, n, j - 1, y);
    var img, part := UnfilterImage(raw, w, n, y), UnfilterImage(raw, w, n, j);
    assert img[..j][j - 1] == part[j - 1];
    assert Above(img, w, j - 1) == Above(UnfilterImage(raw, w, n, j - 1), w, j - 1);
  }

  /** The filter types in front of the first y rows. */
  function Types(raw: seq<byte>, w: nat, y: nat): (types: seq<nat>)
    requires RowStart(w, y) <= |raw| && LegalTypes(raw, w, y)
    ensures |types| == y && forall i :: 0 <= i < y ==> types[i] <= 4
  {
    if y == 0 then [] else Types(raw, w, y - 1) + [raw[RowStart(w, y - 1)]]
  }

  lemma {:induction false} TypesPrefix(raw: seq<byte>, w: nat, i: nat, y: nat)
    requires i < y && RowStart(w, y) <= |raw| && LegalTypes(raw, w, y)
    ensures RowStart(w, i) < |raw| && Types(raw, w, y)[i] == raw[RowStart(w, i)]
    decreases y
  {
    if i < y - 1 {
      TypesPrefix(raw, w, i, y - 1);
    }
  }

  /** Filtering the rebuilt rows with the types that were read gives the data back. */
  lemma {:induction false} FilterUnfilterImage(raw: seq<byte>, w: nat, n: nat, j: nat, y: nat)
    requires j <= y && RowStart(w, y) <= |raw| && n >= 1 && LegalTypes(raw, w, y)
    ensures RowStart(w, j) <= |raw|
    ensures FilterImage(UnfilterImage(raw, w, n, y), Types(raw, w, y), w, n, j) == raw[..RowStart(w, j)]
    decreases j
  {
    hide FilterRow, UnfilterRow, UnfilterImage, LegalTypes, Above, Types;
    RowStartMono(w, j, y);
    if j > 0 {
      FilterUnfilterImage(raw, w, n, j - 1, y);
      UnfilterImageRow(raw, w, n, j, y);
      TypesPrefix(raw, w, j - 1, y);
      var img, t := UnfilterImage(raw, w, n, y), raw[RowStart(w, j - 1)];
      FilterUnfilter(t, RawRow(raw, w, j - 1), Above(img, w, j - 1), n);
      assert raw[..RowStart(w, j)] == raw[..RowStart(w, j - 1)] + [t] + RawRow(raw, w, j - 1);
    }
  }
}
