/** create_png_image_raw: filtered rows are rebuilt in place in the output image, pixel by pixel, with an
    opaque alpha byte added when the output has one channel more than the data. */
module PngImage {
  import opened Bits
  import opened PngFilter

  /** What comes of filtered data: an image; a rejection; or reads past the end of the data. */
  datatype Rows = Image(img: seq<Row>) | Rejected | PastEnd

  datatype Status = Success | Failure | Overread

  // Filter numbers of the source; the last two only read bytes of the current row.
  const F_NONE := 0
  const F_SUB := 1
  const F_UP := 2
  const F_AVG := 3
  const F_PAETH := 4
  const F_AVG_FIRST := 5
  const F_PAETH_FIRST := 6

  const FIRST_ROW_FILTER: seq<nat> := [F_NONE, F_SUB, F_NONE, F_AVG_FIRST, F_PAETH_FIRST]

  /** a * i, by repeated addition. */
  function Times(a: nat, i: nat): nat {
    if i == 0 then 0 else Times(a, i - 1) + a
  }

  lemma {:induction false} TimesIsProduct(a: nat, i: nat)
    ensures Times(a, i) == a * i
  {
    if i > 0 {
      TimesIsProduct(a, i - 1);
    }
  }

  lemma {:induction false} TimesMono(a: nat, i: nat, j: nat)
    requires i <= j
    ensures Times(a, i) <= Times(a, j)
    ensures i < j ==> Times(a, i) + a <= Times(a, j)
  {
    if i < j {
      TimesMono(a, i, j - 1);
    }
  }

  // ----- the layout of the output -----

  function Alpha(n: nat, outN: nat): seq<byte> {
    if outN > n then [255] else []
  }

  /** The first i pixels of a row as they are laid out in the output. */
  function Interleave(row: Row, n: nat, outN: nat, i: nat): (out: seq<byte>)
    requires Times(n, i) <= |row| && (outN == n || outN == n + 1)
    ensures |out| == Times(outN, i)
  {
    if i == 0 then []
    else Interleave(row, n, outN, i - 1) + row[Times(n, i - 1)..Times(n, i)] + Alpha(n, outN)
  }

  /** The first j rows of the output image. */
  function Canvas(img: seq<Row>, n: nat, outN: nat, x: nat, j: nat): (out: seq<byte>)
    requires j <= |img| && ImageOf(img, Times(n, x)) && (outN == n || outN == n + 1)
    ensures |out| == Times(Times(outN, x), j)
  {
    if j == 0 then [] else Canvas(img, n, outN, x, j - 1) + Interleave(img[j - 1], n, outN, x)
  }

  /** Pixel i of a row of n-byte pixels. */
  function Pixel(row: Row, n: nat, i: nat): (px: seq<byte>)
    requires Times(n, i + 1) <= |row|
    ensures |px| == n
  {
    row[Times(n, i)..Times(n, i) + n]
  }

  /** Pixel i of a laid out row is pixel i of the row, with its alpha byte if it has one. */
  lemma {:induction false} InterleavePixel(row: Row, n: nat, outN: nat, x: nat, i: nat)
    requires i < x && Times(n, x) <= |row| && (outN == n || outN == n + 1)
    ensures Times(n, i + 1) <= |row| && Times(outN, i) + outN <= |Interleave(row, n, outN, x)|
    ensures Interleave(row, n, outN, x)[Times(outN, i)..Times(outN, i) + outN] == Pixel(row, n, i) + Alpha(n, outN)
    decreases x
  {
    hide Interleave, Alpha, Pixel;
    TimesMono(n, i + 1, x);
    TimesMono(outN, i + 1, x);
    var px := LaidOut(row, n, outN, x);
    var before := Interleave(row, n, outN, x - 1);
    if i == x - 1 {
      PartBehind(before, px, Times(outN, i));
    } else {
      InterleavePixel(row, n, outN, x - 1, i);
      PartOfFront(before, px, Times(outN, i), Times(outN, i) + outN);
    }
  }

  lemma LaidOut(row: Row, n: nat, outN: nat, x: nat) returns (px: Row)
    requires 1 <= x && Times(n, x) <= |row| && (outN == n || outN == n + 1)
    ensures px == Pixel(row, n, x - 1) + Alpha(n, outN) && |px| == outN
    ensures Interleave(row, n, outN, x) == Interleave(row, n, outN, x - 1) + px
  {
    px := Pixel(row, n, x - 1) + Alpha(n, outN);
  }

  lemma PartBehind(front: Row, px: Row, at: nat)
    requires |front| == at
    ensures (front + px)[at..at + |px|] == px
  {
  }

  lemma PartOfFront(front: Row, more: Row, a: nat, b: nat)
    requires a <= b <= |front|
    ensures (front + more)[a..b] == front[a..b]
  {
  }

  /** Channel k of pixel p sits at its place in the laid out row. */
  lemma InterleaveAt(row: Row, n: nat, outN: nat, i: nat, p: nat, k: nat)
    requires Times(n, i) <= |row| && (outN == n || outN == n + 1) && p < i && k < n
    ensures Times(outN, p) + k < Times(outN, i) && Times(n, p) + k < |row|
    ensures Interleave(row, n, outN, i)[Times(outN, p) + k] == row[Times(n, p) + k]
  {
    hide Interleave, Times, Alpha, Pixel;
    InterleavePixel(row, n, outN, i, p);
    PixelByte(row, n, p, Alpha(n, outN), k);
    SameByte(Interleave(row, n, outN, i), Times(outN, p), outN, Pixel(row, n, p) + Alpha(n, outN), k);
  }

  lemma PixelByte(row: Row, n: nat, p: nat, alpha: seq<byte>, k: nat)
    requires Times(n, p + 1) <= |row| && k < n
    ensures Times(n, p) + k < |row| && (Pixel(row, n, p) + alpha)[k] == row[Times(n, p) + k]
  {
  }

  lemma SameByte(c: seq<byte>, at: nat, n: nat, px: seq<byte>, k: nat)
    requires at + n <= |c| && c[at..at + n] == px && k < n
    ensures c[at + k] == px[k]
  {
    assert c[at..at + n][k] == c[at + k];
  }

  /** The alpha byte of pixel p is opaque. */
  lemma AlphaAt(row: Row, n: nat, i: nat, p: nat)
    requires Times(n, i) <= |row| && p < i
    ensures Times(n + 1, p) + n < Times(n + 1, i)
    ensures Interleave(row, n, n + 1, i)[Times(n + 1, p) + n] == 255
  {
    hide Interleave, Times, Pixel;
    InterleavePixel(row, n, n + 1, i, p);
    SameByte(Interleave(row, n, n + 1, i), Times(n + 1, p), n + 1, Pixel(row, n, p) + Alpha(n, n + 1), n);
  }

  // ----- one byte -----

  function Add(a: byte, b: byte): byte {
    (a as int + b) % 256
  }

  /** A byte of the first pixel of a row: nothing lies to its left. */
  function FirstValue(out: array<byte>, filter: nat, raw: byte, at: nat, stride: nat): byte
    requires filter <= 6 && at < out.Length && (filter in {F_UP, F_AVG, F_PAETH} ==> stride <= at)
    reads out
  {
    match filter
    case 2 => Add(raw, out[at - stride])
    case 3 => Add(raw, out[at - stride] / 2)
    case 4 => Add(raw, Paeth(0, out[at - stride], 0))
    case _ => raw
  }

  /** A byte of any later pixel. */
  function RestValue(out: array<byte>, filter: nat, raw: byte, at: nat, outN: nat, stride: nat): byte
    requires filter <= 6 && at < out.Length && outN <= at
    requires filter in {F_UP, F_AVG, F_PAETH} ==> stride + outN <= at
    reads out
  {
    match filter
    case 0 => raw
    case 1 => Add(raw, out[at - outN])
    case 2 => Add(raw, out[at - stride])
    case 3 => Add(raw, (out[at - stride] as int + out[at - outN]) / 2)
    case 4 => Add(raw, Paeth(out[at - outN], out[at - stride], out[at - stride - outN]))
    case 5 => Add(raw, out[at - outN] / 2)
    case _ => Add(raw, Paeth(out[at - outN], 0, 0))
  }

  /** The filter the source uses for type t in a row. */
  function RowFilter(t: nat, first: bool): nat
    requires t <= 4
  {
    if first then FIRST_ROW_FILTER[t] else t
  }

  /** The shortcuts for the first row and the first pixel agree with zeros outside the image. */
  lemma FirstValueRight(out: array<byte>, t: nat, first: bool, raw: byte, at: nat, stride: nat, b: byte)
    requires t <= 4 && at < out.Length
    requires first ==> b == 0
    requires !first ==> stride <= at && out[at - stride] == b
    ensures FirstValue(out, RowFilter(t, first), raw, at, stride) == Add(raw, Predict(t, 0, b, 0))
  {
  }

  lemma RestValueRight(out: array<byte>, t: nat, first: bool, raw: byte, at: nat, outN: nat, stride: nat,
                       a: byte, b: byte, c: byte)
    requires t <= 4 && at < out.Length && outN <= at && out[at - outN] == a
    requires first ==> b == 0 && c == 0
    requires !first ==> stride + outN <= at && out[at - stride] == b && out[at - stride - outN] == c
    ensures RestValue(out, RowFilter(t, first), raw, at, outN, stride) == Add(raw, Predict(t, a, b, c))
  {
  }

  // ----- one row -----

  /** What stays fixed while a row is rebuilt: its filtered bytes f, the row above, the finished part base. */
  datatype RowJob = RowJob(t: nat, first: bool, f: Row, prev: Row, n: nat, outN: nat, x: nat, base: seq<byte>) {
    ghost predicate Valid() {
      && t <= 4 && 1 <= n && (outN == n || outN == n + 1) && 1 <= x
      && |f| == |prev| == Times(n, x)
      && (first ==> prev == Zeros(|prev|))
      && (!first ==> Stride() <= |base| && base[|base| - Stride()..] == Interleave(prev, n, outN, x))
    }

    function Stride(): nat { Times(outN, x) }

    /** The rebuilt row. */
    ghost function Result(): (row: Row)
      requires Valid()
      ensures |row| == |f|
    {
      UnfilterRow(t, f, prev, n)
    }

    /** The output when i pixels and k more bytes are done. */
    ghost function Done(i: nat, k: nat): (out: seq<byte>)
      requires Valid() && Times(n, i) + k <= |f|
      ensures |out| == |base| + Times(outN, i) + k
    {
      base + Interleave(Result(), n, outN, i) + Result()[Times(n, i)..Times(n, i) + k]
    }
  }

  /** Each rebuilt byte is its filtered byte plus the prediction from the rebuilt bytes before it. */
  lemma ResultByte(job: RowJob, m: nat)
    requires job.Valid() && m < |job.f|
    ensures job.Result()[m] == Add(job.f[m], PredictAt(job.t, job.Result(), job.prev, job.n, m))
  {
    hide PredictAt;
    var row := job.Result();
    UnfilterPrefix(job.t, job.f, job.prev, job.n, m, |job.f|);
    UnfilterPrefix(job.t, job.f, job.prev, job.n, m + 1, |job.f|);
    assert row[..m + 1][m] == row[m];
    PredictPrefix(job.t, row, job.prev, job.n, m);
  }

  lemma ZerosAbove(job: RowJob, m: nat)
    requires job.Valid() && job.first && m < |job.f|
    ensures job.prev[m] == 0
  {
    hide Interleave, UnfilterRow;
  }

  /** The byte above: in the finished part, one stride back; zero above the first row. */
  lemma ByteAbove(job: RowJob, out: seq<byte>, i: nat, k: nat)
    requires job.Valid() && i < job.x && k < job.n && job.base <= out
    ensures Times(job.n, i) + k < |job.f|
    ensures job.first ==> job.prev[Times(job.n, i) + k] == 0
    ensures !job.first ==>
              && job.Stride() <= |job.base| + Times(job.outN, i) + k < |job.base| + job.Stride()
              && out[|job.base| + Times(job.outN, i) + k - job.Stride()] == job.prev[Times(job.n, i) + k]
  {
    hide Interleave, UnfilterRow, Zeros;
    TimesMono(job.n, i, job.x);
    if job.first {
      ZerosAbove(job, Times(job.n, i) + k);
    } else {
      InterleaveAt(job.prev, job.n, job.outN, job.x, i, k);
      var above := job.base[|job.base| - job.Stride()..];
      assert above[Times(job.outN, i) + k] == out[|job.base| - job.Stride() + (Times(job.outN, i) + k)];
    }
  }

  /** The byte to the left, one pixel back in the row being rebuilt. */
  lemma ByteLeft(job: RowJob, out: seq<byte>, i: nat, k: nat)
    requires job.Valid() && 1 <= i < job.x && k < job.n
    requires Times(job.n, i) + k < |job.f| && job.Done(i, k) <= out
    ensures job.outN <= |job.base| + Times(job.outN, i) + k
    ensures Times(job.n, i) + k - job.n == Times(job.n, i - 1) + k
    ensures out[|job.base| + Times(job.outN, i) + k - job.outN] == job.Result()[Times(job.n, i - 1) + k]
  {
    hide Interleave;
    InterleaveAt(job.Result(), job.n, job.outN, i, i - 1, k);
    var laid := Interleave(job.Result(), job.n, job.outN, i);
    var at := Times(job.outN, i - 1) + k;
    assert job.Done(i, k)[|job.base| + at] == laid[at];
  }

  /** cur[k] of the first pixel. */
  method PutFirst(out: array<byte>, ghost job: RowJob, filter: nat, raw: byte, at: nat, stride: nat, ghost k: nat)
    requires job.Valid() && k < job.n && stride == job.Stride() && at == |job.base| + k < out.Length
    requires k < |job.f| && out[..at] == job.Done(0, k) && raw == job.f[k] && filter == RowFilter(job.t, job.first)
    modifies out
    ensures out[..at + 1] == job.Done(0, k + 1)
  {
    hide FirstValue, UnfilterRow, Predict, Interleave, Zeros;
    ByteAbove(job, out[..at], 0, k);
    ResultByte(job, k);
    FirstValueRight(out, job.t, job.first, raw, at, stride, job.prev[k]);
    out[at] := FirstValue(out, filter, raw, at, stride);
    assert job.Done(0, k + 1) == job.Done(0, k) + [job.Result()[k]];
  }

  lemma DoneNext(job: RowJob, i: nat, k: nat)
    requires job.Valid() && Times(job.n, i) + k < |job.f|
    ensures job.Done(i, k + 1) == job.Done(i, k) + [job.Result()[Times(job.n, i) + k]]
  {
    hide UnfilterRow, Interleave;
  }

  /** The byte above and one pixel to the left. */
  lemma ByteAboveLeft(job: RowJob, out: seq<byte>, i: nat, k: nat)
    requires job.Valid() && 1 <= i < job.x && k < job.n && job.base <= out
    ensures 0 <= Times(job.n, i) + k - job.n < |job.f|
    ensures job.first ==> job.prev[Times(job.n, i) + k - job.n] == 0
    ensures !job.first ==>
              && job.Stride() + job.outN <= |job.base| + Times(job.outN, i) + k
              && |job.base| + Times(job.outN, i) + k - job.Stride() - job.outN < |out|
              && out[|job.base| + Times(job.outN, i) + k - job.Stride() - job.outN] == job.prev[Times(job.n, i) + k - job.n]
  {
    hide Interleave, Zeros;
    ByteAbove(job, out, i - 1, k);
  }

  /** The value computed for a byte past the first pixel is the rebuilt byte. */
  lemma RestIsResult(out: array<byte>, job: RowJob, i: nat, k: nat)
    requires job.Valid() && 1 <= i < job.x && k < job.n && Times(job.n, i) + k < |job.f|
    requires |job.base| + Times(job.outN, i) + k < out.Length
    requires out[..|job.base| + Times(job.outN, i) + k] == job.Done(i, k)
    ensures var at, m := |job.base| + Times(job.outN, i) + k, Times(job.n, i) + k;
            && job.outN <= at
            && (!job.first ==> job.Stride() + job.outN <= at)
            && RestValue(out, RowFilter(job.t, job.first), job.f[m], at, job.outN, job.Stride()) == job.Result()[m]
  {
    hide RestValue, UnfilterRow, Predict, Interleave, Zeros, Times;
    var at, m := |job.base| + Times(job.outN, i) + k, Times(job.n, i) + k;
    ByteAbove(job, out[..at], i, k);
    ByteAboveLeft(job, out[..at], i, k);
    ByteLeft(job, out[..at], i, k);
    ResultByte(job, m);
    RestValueRight(out, job.t, job.first, job.f[m], at, job.outN, job.Stride(),
                   job.Result()[m - job.n], job.prev[m], job.prev[m - job.n]);
  }

  /** cur[k] of pixel i, for i past the first. */
  method PutRest(out: array<byte>, ghost job: RowJob, filter: nat, raw: byte, at: nat, outN: nat, stride: nat,
                 ghost i: nat, ghost k: nat)
    requires job.Valid() && 1 <= i < job.x && k < job.n && stride == job.Stride() && outN == job.outN
    requires at == |job.base| + Times(outN, i) + k < out.Length
    requires Times(job.n, i) + k < |job.f| && out[..at] == job.Done(i, k)
    requires raw == job.f[Times(job.n, i) + k] && filter == RowFilter(job.t, job.first)
    modifies out
    ensures out[..at + 1] == job.Done(i, k + 1)
  {
    hide RestValue, UnfilterRow, Interleave, Zeros, Times;
    RestIsResult(out, job, i, k);
    DoneNext(job, i, k);
    out[at] := RestValue(out, filter, raw, at, outN, stride);
  }

  /** The alpha byte, if any, ends pixel i. */
  method PutAlpha(out: array<byte>, ghost job: RowJob, at: nat, n: nat, outN: nat, ghost i: nat)
    requires job.Valid() && i < job.x && n == job.n && outN == job.outN
    requires at == |job.base| + Times(outN, i) && at + outN <= out.Length
    requires Times(n, i) + n <= |job.f| && out[..at + n] == job.Done(i, n)
    modifies out
    ensures out[..at + outN] == job.Done(i + 1, 0)
  {
    hide UnfilterRow;
    ghost var before := out[..at + n];
    if n != outN {
      out[at + n] := 255;
    }
    assert out[..at + outN] == before + Alpha(n, outN);
    PixelDone(job, i);
  }

  lemma PixelDone(job: RowJob, i: nat)
    requires job.Valid() && Times(job.n, i) + job.n <= |job.f|
    ensures job.Done(i, job.n) + Alpha(job.n, job.outN) == job.Done(i + 1, 0)
  {
    hide UnfilterRow, Interleave, Alpha;
    var row, m := job.Result(), Times(job.n, i);
    InterleaveNext(row, job.n, job.outN, i);
    DoneParts(job.base, Interleave(row, job.n, job.outN, i), row[m..m + job.n], Alpha(job.n, job.outN));
    assert row[m + job.n..m + job.n + 0] == [];
  }

  lemma InterleaveNext(row: Row, n: nat, outN: nat, i: nat)
    requires Times(n, i) + n <= |row| && (outN == n || outN == n + 1)
    ensures Times(n, i + 1) == Times(n, i) + n
    ensures Interleave(row, n, outN, i + 1)
         == Interleave(row, n, outN, i) + row[Times(n, i)..Times(n, i) + n] + Alpha(n, outN)
  {
  }

  lemma DoneParts(a: seq<byte>, b: seq<byte>, c: seq<byte>, d: seq<byte>)
    ensures (a + b + c) + d == a + (b + c + d) + []
  {
  }

  /** The first pixel of a row. */
  method DecodeFirstPixel(out: array<byte>, ghost job: RowJob, filter: nat, f: Row, n: nat, outN: nat, stride: nat, cur: nat)
    requires job.Valid() && stride == job.Stride() && job.f == f && job.n == n && job.outN == outN
    requires filter == RowFilter(job.t, job.first)
    requires cur == |job.base| && cur + outN <= out.Length && n <= |f| && out[..cur] == job.Done(0, 0)
    modifies out
    ensures Times(n, 1) <= |f| && out[..cur + outN] == job.Done(1, 0)
  {
    hide UnfilterRow, Interleave, Zeros;
    assert Times(n, 1) == Times(n, 0) + n;
    for k := 0 to n
      invariant out[..cur + k] == job.Done(0, k)
    {
      PutFirst(out, job, filter, f[k], cur + k, stride, k);
    }
    PutAlpha(out, job, cur, n, outN, 0);
  }

  /** Pixel i of a row, past the first. */
  method DecodePixel(out: array<byte>, ghost job: RowJob, filter: nat, f: Row, n: nat, outN: nat, stride: nat,
                     raw: nat, cur: nat, ghost i: nat)
    requires job.Valid() && stride == job.Stride() && job.f == f && job.n == n && job.outN == outN && 1 <= i < job.x
    requires filter == RowFilter(job.t, job.first)
    requires raw == Times(n, i) && raw + n <= |f|
    requires cur == |job.base| + Times(outN, i) && cur + outN <= out.Length && out[..cur] == job.Done(i, 0)
    modifies out
    ensures Times(n, i + 1) <= |f| && out[..cur + outN] == job.Done(i + 1, 0)
  {
    hide UnfilterRow, Interleave, Zeros;
    for k := 0 to n
      invariant out[..cur + k] == job.Done(i, k)
    {
      PutRest(out, job, filter, f[raw + k], cur + k, outN, stride, i, k);
    }
    PutAlpha(out, job, cur, n, outN, i);
  }

  /** One row: the first pixel explicitly, then the others from left to right. */
  method DecodeRow(out: array<byte>, ghost job: RowJob, t: nat, first: bool, f: Row, n: nat, outN: nat, x: nat,
                   stride: nat, cur0: nat)
    requires job.Valid() && stride == job.Stride() && job.t == t && job.first == first && job.f == f
    requires job.n == n && job.outN == outN && job.x == x
    requires t <= 4 && x >= 1
    requires cur0 == |job.base| && cur0 + job.Stride() <= out.Length && out[..cur0] == job.base
    modifies out
    ensures out[..cur0 + job.Stride()] == job.Done(x, 0)
  {
    hide UnfilterRow, Interleave, Zeros, Times, RowFilter, job.Valid;
    var filter := RowFilter(t, first);
    RowBounds(job, 1);
    DoneEmpty(job);
    DecodeFirstPixel(out, job, filter, f, n, outN, stride, cur0);
    var raw, cur := n, cur0 + outN;
    for i := 1 to x
      invariant raw == Times(n, i) <= |f| && cur == cur0 + Times(outN, i) <= out.Length
      invariant out[..cur] == job.Done(i, 0)
    {
      RowBounds(job, i + 1);
      DecodePixel(out, job, filter, f, n, outN, stride, raw, cur, i);
      raw, cur := raw + n, cur + outN;
    }
  }

  lemma RowBounds(job: RowJob, i: nat)
    requires job.Valid() && 1 <= i <= job.x
    ensures job.t <= 4 && 1 <= job.n && job.outN >= job.n
    ensures Times(job.n, i) == Times(job.n, i - 1) + job.n <= |job.f|
    ensures Times(job.outN, i) == Times(job.outN, i - 1) + job.outN <= job.Stride()
    ensures i == 1 ==> Times(job.n, i) == job.n && Times(job.outN, i) == job.outN
  {
    TimesMono(job.n, i, job.x);
    TimesMono(job.outN, i, job.x);
  }

  lemma DoneEmpty(job: RowJob)
    requires job.Valid()
    ensures job.Done(0, 0) == job.base
  {
  }

  // ----- the whole image -----

  /** The job for row j of an image. */
  ghost function JobOf(raw: seq<byte>, n: nat, outN: nat, x: nat, j: nat): (job: RowJob)
    requires 1 <= n && (outN == n || outN == n + 1) && 1 <= x
    requires RowStart(Times(n, x), j + 1) <= |raw| && LegalTypes(raw, Times(n, x), j + 1)
  {
    var w := Times(n, x);
    var img := UnfilterImage(raw, w, n, j);
    RowJob(raw[RowStart(w, j)], j == 0, RawRow(raw, w, j), Above(img, w, j), n, outN, x, Canvas(img, n, outN, x, j))
  }

  /** Row j builds on the finished rows above it, and completes one more row of the canvas. */
  lemma JobExtends(raw: seq<byte>, n: nat, outN: nat, x: nat, j: nat)
    requires 1 <= n && (outN == n || outN == n + 1) && 1 <= x
    requires RowStart(Times(n, x), j + 1) <= |raw| && LegalTypes(raw, Times(n, x), j + 1)
    ensures var job := JobOf(raw, n, outN, x, j);
            && job.Valid()
            && |job.base| == Times(Times(outN, x), j)
            && job.Done(x, 0) == Canvas(UnfilterImage(raw, Times(n, x), n, j + 1), n, outN, x, j + 1)
  {
    hide UnfilterRow, Interleave;
    var w := Times(n, x);
    var img, more := UnfilterImage(raw, w, n, j), UnfilterImage(raw, w, n, j + 1);
    var job := JobOf(raw, n, outN, x, j);
    if j > 0 {
      var older := Canvas(img, n, outN, x, j - 1);
      assert job.base == older + Interleave(img[j - 1], n, outN, x);
    }
    CanvasPrefix(more, img, n, outN, x, j);
    assert more[j] == job.Result();
    assert job.Done(x, 0) == job.base + Interleave(job.Result(), n, outN, x);
  }

  lemma {:induction false} CanvasPrefix(a: seq<Row>, b: seq<Row>, n: nat, outN: nat, x: nat, j: nat)
    requires j <= |a| && j <= |b| && a[..j] == b[..j] && (outN == n || outN == n + 1)
    requires ImageOf(a, Times(n, x)) && ImageOf(b, Times(n, x))
    ensures Canvas(a, n, outN, x, j) == Canvas(b, n, outN, x, j)
    decreases j
  {
    hide Interleave;
    if j > 0 {
      assert a[j - 1] == a[..j][j - 1] == b[j - 1];
      assert a[..j - 1] == a[..j][..j - 1] == b[..j - 1];
      CanvasPrefix(a, b, n, outN, x, j - 1);
    }
  }

  /** The length check. It looks at whole images only: its else, although indented for interlaced images, belongs
      to the inner if, so that the data of a pass may be too short. */
  predicate LengthOk(rawLen: nat, n: nat, x: nat, y: nat, imgX: nat, imgY: nat) {
    imgX == x && imgY == y ==> rawLen == (n * x + 1) * y
  }

  /** The first j rows, read from top to bottom. */
  function RowsOf(raw: seq<byte>, w: nat, n: nat, j: nat): (r: Rows)
    requires 1 <= n
    ensures r.Image? <==> RowStart(w, j) <= |raw| && LegalTypes(raw, w, j)
    ensures r.Image? ==> r.img == UnfilterImage(raw, w, n, j)
  {
    if j == 0 then Image([])
    else
      match RowsOf(raw, w, n, j - 1)
      case Image(_) =>
        if RowStart(w, j - 1) >= |raw| then PastEnd
        else if raw[RowStart(w, j - 1)] > 4 then Rejected
        else if RowStart(w, j) > |raw| then PastEnd
        else Image(UnfilterImage(raw, w, n, j))
      case other => other
  }

  /** The outcome of rebuilding an image or a pass. */
  ghost function Rebuilt(raw: seq<byte>, n: nat, x: nat, y: nat, imgX: nat, imgY: nat): (r: Rows)
    requires 1 <= n && 1 <= x
    ensures r.Image? ==> |r.img| == y && ImageOf(r.img, Times(n, x))
  {
    if LengthOk(|raw|, n, x, y, imgX, imgY) then RowsOf(raw, Times(n, x), n, y) else Rejected
  }

  /** Reads go past the end exactly when the data of a pass is too short and all filter types in it are legal; the
      data of a whole image is never overrun. */
  lemma PastEndExactly(raw: seq<byte>, n: nat, x: nat, y: nat, imgX: nat, imgY: nat)
    requires 1 <= n && 1 <= x
    ensures var w := Times(n, x);
            Rebuilt(raw, n, x, y, imgX, imgY) == PastEnd <==>
              && (x != imgX || y != imgY) && |raw| < RowStart(w, y)
              && forall j :: 0 <= j < y && RowStart(w, j) < |raw| ==> raw[RowStart(w, j)] <= 4
  {
    var w := Times(n, x);
    WholeLength(|raw|, n, x, y);
    RowsPastEnd(raw, w, n, y);
  }

  lemma {:induction false} RowsPastEnd(raw: seq<byte>, w: nat, n: nat, y: nat)
    requires 1 <= n
    ensures RowsOf(raw, w, n, y) == PastEnd <==>
              |raw| < RowStart(w, y) && forall j :: 0 <= j < y && RowStart(w, j) < |raw| ==> raw[RowStart(w, j)] <= 4
    decreases y
  {
    hide UnfilterImage;
    if y > 0 {
      RowsPastEnd(raw, w, n, y - 1);
      if RowStart(w, y - 1) <= |raw| {
        LegalMeans(raw, w, y - 1);
      }
      if RowStart(w, y) <= |raw| {
        LegalMeans(raw, w, y);
      }
    }
  }

  lemma {:induction false} LegalMeans(raw: seq<byte>, w: nat, y: nat)
    requires RowStart(w, y) <= |raw|
    ensures LegalTypes(raw, w, y) <==>
              forall j :: 0 <= j < y && RowStart(w, j) < |raw| ==> raw[RowStart(w, j)] <= 4
    decreases y
  {
    if y > 0 {
      LegalMeans(raw, w, y - 1);
    }
  }

  lemma WholeLength(rawLen: nat, n: nat, x: nat, y: nat)
    ensures rawLen == (n * x + 1) * y <==> rawLen == RowStart(Times(n, x), y)
  {
    RowStartIsProduct(Times(n, x), y);
    TimesIsProduct(n, x);
    assert y * (n * x + 1) == (n * x + 1) * y;
  }

  /** Rows that cannot be read decide the outcome. */
  lemma {:induction false} RowsStop(raw: seq<byte>, w: nat, n: nat, i: nat, j: nat)
    requires 1 <= n && i <= j && !RowsOf(raw, w, n, i).Image?
    ensures RowsOf(raw, w, n, j) == RowsOf(raw, w, n, i)
    decreases j
  {
    hide UnfilterImage;
    if i < j {
      RowsStop(raw, w, n, i, j - 1);
    }
  }

  /** Read the filter type of row j and rebuild the row; fails on an unknown type. */
  method DecodeNextRow(out: array<byte>, raw: seq<byte>, n: nat, outN: nat, x: nat, width: nat, stride: nat,
                       rawAt: nat, cur: nat, j: nat) returns (st: Status)
    requires 1 <= n && 1 <= x && (outN == n || outN == n + 1) && width == Times(n, x) && stride == Times(outN, x)
    requires rawAt == RowStart(width, j) <= |raw| && LegalTypes(raw, width, j)
    requires cur == Times(stride, j) && cur + stride <= out.Length
    requires out[..cur] == Canvas(UnfilterImage(raw, width, n, j), n, outN, x, j)
    modifies out
    ensures match RowsOf(raw, width, n, j + 1)
            case Image(img) => st == Success && |img| == j + 1 && ImageOf(img, width)
                               && out[..cur + stride] == Canvas(img, n, outN, x, j + 1)
            case Rejected => st == Failure
            case PastEnd => st == Overread
  {
    hide UnfilterImage, Canvas, Interleave, RowJob.Done, Zeros, UnfilterRow;
    NextStarts(width, stride, j);
    if rawAt >= |raw| {
      return Overread;
    }
    var filter := raw[rawAt];
    if filter > 4 {
      return Failure;
    }
    if rawAt + 1 + width > |raw| {
      return Overread;
    }
    JobExtends(raw, n, outN, x, j);
    ghost var job := JobOf(raw, n, outN, x, j);
    DecodeRow(out, job, filter, j == 0, raw[rawAt + 1..rawAt + 1 + width], n, outN, x, stride, cur);
    return Success;
  }

  /** Row sizes of the data and of the output, and the output itself. */
  method NewImage(n: nat, outN: nat, x: nat, y: nat) returns (width: nat, stride: nat, out: array<byte>)
    ensures width == Times(n, x) && stride == Times(outN, x)
    ensures fresh(out) && out.Length == Times(stride, y)
  {
    TimesIsProduct(n, x);
    AreaIsTimes(x, y, outN);
    width, stride := n * x, x * outN;
    out := new byte[x * y * outN];
  }

  class Png {
    const imgN: nat
    const imgX: nat
    const imgY: nat
    var out: array<byte>

    constructor (n: nat, x: nat, y: nat)
      ensures imgN == n && imgX == x && imgY == y
    {
      imgN, imgX, imgY := n, x, y;
      out := new byte[0];
    }

    /** create_png_image_raw for an x by y image or interlace pass. */
    method CreateImageRaw(raw: seq<byte>, outN: nat, x: nat, y: nat) returns (st: Status)
      requires 1 <= imgN && 1 <= x && (outN == imgN || outN == imgN + 1)
      modifies this`out
      ensures st == Success ==> fresh(out)
      ensures match Rebuilt(raw, imgN, x, y, imgX, imgY)
              case Image(img) => st == Success && out[..] == Canvas(img, imgN, outN, x, y)
              case Rejected => st == Failure
              case PastEnd => st == Overread
    {
      hide UnfilterImage, Canvas, Interleave;
      var width, stride;
      width, stride, out := NewImage(imgN, outN, x, y);
      if imgX == x && imgY == y {
        if |raw| != (imgN * x + 1) * y {
          return Failure;
        }
      }
      st := DecodeRows(out, raw, imgN, outN, x, y, width, stride);
    }
  }

  /** The rows from top to bottom. */
  method DecodeRows(out: array<byte>, raw: seq<byte>, n: nat, outN: nat, x: nat, y: nat, width: nat, stride: nat)
    returns (st: Status)
    requires 1 <= n && 1 <= x && (outN == n || outN == n + 1) && width == Times(n, x) && stride == Times(outN, x)
    requires out.Length == Times(stride, y)
    modifies out
    ensures match RowsOf(raw, width, n, y)
            case Image(img) => st == Success && |img| == y && ImageOf(img, width) && out[..] == Canvas(img, n, outN, x, y)
            case Rejected => st == Failure
            case PastEnd => st == Overread
  {
    hide UnfilterImage, Canvas, Interleave, UnfilterRow, Zeros, Times, RowStart, RowsOf;
    var rawAt, cur := 0, 0;
    NoRows(width, stride, raw);
    CanvasEmpty(n, outN, x, raw);
    for j := 0 to y
      invariant rawAt == RowStart(width, j) <= |raw| && cur == Times(stride, j) <= out.Length
      invariant LegalTypes(raw, width, j)
      invariant out[..cur] == Canvas(UnfilterImage(raw, width, n, j), n, outN, x, j)
    {
      TimesMono(stride, j + 1, y);
      NextStarts(width, stride, j);
      st := DecodeNextRow(out, raw, n, outN, x, width, stride, rawAt, cur, j);
      RowsMeans(raw, width, n, j + 1);
      if st != Success {
        RowsStop(raw, width, n, j + 1, y);
        return;
      }
      rawAt, cur := rawAt + 1 + width, cur + stride;
    }
    RowsMeans(raw, width, n, y);
    st := Success;
    assert out[..] == out[..cur];
  }

  lemma RowsMeans(raw: seq<byte>, w: nat, n: nat, j: nat)
    requires 1 <= n
    ensures RowsOf(raw, w, n, j).Image? <==> RowStart(w, j) <= |raw| && LegalTypes(raw, w, j)
    ensures RowsOf(raw, w, n, j).Image? ==> RowsOf(raw, w, n, j).img == UnfilterImage(raw, w, n, j)
  {
  }

  lemma NoRows(width: nat, stride: nat, raw: seq<byte>)
    ensures RowStart(width, 0) == 0 && Times(stride, 0) == 0 && LegalTypes(raw, width, 0)
  {
  }

  lemma NextStarts(width: nat, stride: nat, j: nat)
    ensures RowStart(width, j + 1) == RowStart(width, j) + 1 + width && Times(stride, j + 1) == Times(stride, j) + stride
  {
  }

  lemma CanvasEmpty(n: nat, outN: nat, x: nat, raw: seq<byte>)
    requires 1 <= n && (outN == n || outN == n + 1)
    ensures Canvas(UnfilterImage(raw, Times(n, x), n, 0), n, outN, x, 0) == []
  {
  }

  lemma AreaIsTimes(x: nat, y: nat, outN: nat)
    ensures x * outN == Times(outN, x)
    ensures x * y * outN == Times(x * outN, y)
  {
    TimesIsProduct(outN, x);
    TimesIsProduct(x * outN, y);
    SwapFactors(x, outN, y);
  }

  lemma SwapFactors(a: int, b: int, c: int)
    ensures (a * b) * c == (a * c) * b
  {
  }

  /** An image filtered row by row in any legal way is rebuilt, whatever the filters. */
  lemma RebuildsFiltered(img: seq<Row>, types: seq<nat>, n: nat, x: nat, imgX: nat, imgY: nat)
    requires 1 <= n && 1 <= x && ImageOf(img, Times(n, x)) && |types| == |img|
    requires forall i :: 0 <= i < |types| ==> types[i] <= 4
    ensures Rebuilt(FilterImage(img, types, Times(n, x), n, |img|), n, x, |img|, imgX, imgY) == Image(img)
  {
    hide FilterImage, UnfilterImage;
    var w := Times(n, x);
    var raw := FilterImage(img, types, w, n, |img|);
    UnfilterFilterImage(img, types, w, n, raw, |img|);
    assert img[..|img|] == img;
    WholeLength(|raw|, n, x, |img|);
  }

  /** A rebuilt image, filtered with the types found in the data, is that data. */
  lemma RebuiltFiltersBack(raw: seq<byte>, n: nat, x: nat, y: nat, imgX: nat, imgY: nat)
    requires 1 <= n && 1 <= x && Rebuilt(raw, n, x, y, imgX, imgY).Image?
    ensures var w := Times(n, x);
            && RowStart(w, y) <= |raw| && LegalTypes(raw, w, y)
            && FilterImage(Rebuilt(raw, n, x, y, imgX, imgY).img, Types(raw, w, y), w, n, y) == raw[..RowStart(w, y)]
  {
    hide FilterImage, UnfilterImage, Types;
    FilterUnfilterImage(raw, Times(n, x), n, y, y);
  }

  // ----- an image in numerals -----

  /** Two rows of two grey pixels, the first one with the fourth filter and the second one with Up, with alpha added. */
  lemma SmallImage()
    ensures Rebuilt([4, 10, 1, 2, 5, 5], 1, 2, 2, 2, 2) == Image([[10, 11], [15, 16]])
    ensures ImageOf([[10, 11], [15, 16]], Times(1, 2))
    ensures Canvas([[10, 11], [15, 16]], 1, 2, 2, 2) == [10, 255, 11, 255, 15, 255, 16, 255]
    ensures Rebuilt([4, 10, 1, 2, 5], 1, 2, 2, 2, 2) == Rejected && Rebuilt([4, 10, 1, 5, 5, 5], 1, 2, 2, 2, 2) == Rejected
  {
    hide UnfilterImage, RowsOf, Canvas, Interleave;
    var raw: seq<byte> := [4, 10, 1, 2, 5, 5];
    SmallSizes();
    SmallRows(raw);
    RowsMeans(raw, 2, 1, 2);
    SmallCanvas([[10, 11], [15, 16]]);
    BadType([4, 10, 1, 5, 5, 5]);
  }

  lemma SmallSizes()
    ensures Times(1, 2) == 2 && Times(1, 1) == 1 && Times(2, 1) == 2 && Times(2, 2) == 4
    ensures RowStart(2, 0) == 0 && RowStart(2, 1) == 3 && RowStart(2, 2) == 6
  {
  }

  lemma SmallRows(raw: seq<byte>)
    requires raw == [4, 10, 1, 2, 5, 5]
    ensures RowStart(2, 2) == |raw| && LegalTypes(raw, 2, 2) && UnfilterImage(raw, 2, 1, 2) == [[10, 11], [15, 16]]
  {
    hide UnfilterRow, Predict;
    SmallSizes();
    LegalSmall(raw);
    assert RawRow(raw, 2, 0) == [10, 1] && RawRow(raw, 2, 1) == [5, 5] && Zeros(2) == [0, 0];
    SmallUnfiltered();
    assert UnfilterImage(raw, 2, 1, 1) == [] + [UnfilterRow(4, [10, 1], [0, 0], 1)];
    assert UnfilterImage(raw, 2, 1, 2) == [[10, 11]] + [UnfilterRow(2, [5, 5], [10, 11], 1)];
  }

  lemma LegalSmall(raw: seq<byte>)
    requires raw == [4, 10, 1, 2, 5, 5]
    ensures LegalTypes(raw, 2, 1) && LegalTypes(raw, 2, 2)
  {
    SmallSizes();
  }

  lemma SmallUnfiltered()
    ensures UnfilterRow(4, [10, 1], [0, 0], 1) == [10, 11] && UnfilterRow(2, [5, 5], [10, 11], 1) == [15, 16]
  {
    hide UnfilterRow;
    RebuiltPair(4, [10, 1], [0, 0]);
    RebuiltPair(2, [5, 5], [10, 11]);
  }

  lemma SmallCanvas(img: seq<Row>)
    requires img == [[10, 11], [15, 16]] && ImageOf(img, Times(1, 2))
    ensures Canvas(img, 1, 2, 2, 2) == [10, 255, 11, 255, 15, 255, 16, 255]
  {
    hide Interleave;
    TwoInterleaved([10, 11]);
    TwoInterleaved([15, 16]);
    assert Canvas(img, 1, 2, 2, 1) == [] + Interleave(img[0], 1, 2, 2);
  }

  lemma TwoInterleaved(row: Row)
    requires |row| == 2
    ensures Times(1, 2) == 2 && Interleave(row, 1, 2, 2) == [row[0], 255, row[1], 255]
  {
    hide Interleave;
    SmallSizes();
    NoPixels(row);
    NextPixel(row, 0);
    NextPixel(row, 1);
    assert row[0..1] == [row[0]] && row[1..2] == [row[1]];
  }

  lemma NoPixels(row: Row)
    ensures Times(1, 0) == 0 && Interleave(row, 1, 2, 0) == []
  {
  }

  lemma NextPixel(row: Row, i: nat)
    requires Times(1, i) <= Times(1, i + 1) <= |row|
    ensures Interleave(row, 1, 2, i + 1) == Interleave(row, 1, 2, i) + row[Times(1, i)..Times(1, i + 1)] + [255]
  {
    hide Times;
  }

  lemma BadType(raw: seq<byte>)
    requires raw == [4, 10, 1, 5, 5, 5]
    ensures RowsOf(raw, 2, 1, 2) == Rejected
  {
    hide UnfilterImage;
    SmallSizes();
    assert RowsOf(raw, 2, 1, 1).Image?;
  }
}
