/**
 * `ImageBuffer::save_as_ppm_file`: the plain-PPM ("P3") text the writer
 * emits, as a function of the buffer, and the loop that builds it.
 */
module Ppm {
  import opened Wrappers
  import opened Numerals
  import opened Image

  /** `"r g b"` in decimal: at most 11 characters, so the padding never underflows. */
  function PixelText(p: Pixel): (s: string)
    ensures 5 <= |s| <= 11
  {
    ToDecimal(p.r) + " " + ToDecimal(p.g) + " " + ToDecimal(p.b)
  }

  /** One pixel's field: its text right-padded with spaces to 12 characters. */
  function PixelField(p: Pixel): (s: string)
    ensures |s| == 12
  {
    var t := PixelText(p);
    t + Spaces(12 - |t|)
  }

  /** The field is the pixel's text followed by at least one space. */
  lemma PixelFieldLayout(p: Pixel)
    ensures |PixelText(p)| < 12
    ensures PixelField(p)[..|PixelText(p)|] == PixelText(p)
    ensures forall i :: |PixelText(p)| <= i < 12 ==> PixelField(p)[i] == ' '
  {
  }

  /** Rows whose (flipped) index is 7 modulo 8 get a newline after every pixel. */
  predicate BreaksAfterEachPixel(y: nat) {
    y % 8 == 7
  }

  /** Characters one pixel occupies in row `y`. */
  function Stride(y: nat): nat {
    if BreaksAfterEachPixel(y) then 13 else 12
  }

  /** What the inner loop writes for one pixel of row `y`. */
  function Cell(p: Pixel, y: nat): string {
    PixelField(p) + (if BreaksAfterEachPixel(y) then "\n" else "")
  }

  /** The cells of a run of pixels of row `y`, in order. */
  function Cells(ps: seq<Pixel>, y: nat): string {
    if ps == [] then [] else Cells(ps[..|ps| - 1], y) + Cell(ps[|ps| - 1], y)
  }

  /** Image row `y` of the buffer, left to right. */
  function RowPixels(img: ImageBuffer, y: nat): (r: seq<Pixel>)
    requires img.Valid() && y < img.h
    ensures |r| == img.w
  {
    MulMonotone(y + 1, img.h, img.w);
    MulSucc(y + 1, img.w);
    img.pixels[y * img.w .. y * img.w + img.w]
  }

  lemma RowPixelsAt(img: ImageBuffer, y: nat, x: nat)
    requires img.Valid() && y < img.h && x < img.w
    ensures RowPixels(img, y)[x] == img.At(x, y)
  {
    var start := y * img.w;
    MulMonotone(y + 1, img.h, img.w);
    MulSucc(y + 1, img.w);
    assert start + img.w <= |img.pixels|;
    assert img.GetIndex(x, y).value == start + x;
    assert RowPixels(img, y) == img.pixels[start .. start + img.w];
  }

  /** Image row `y` as written, closed by its newline. */
  function Row(img: ImageBuffer, y: nat): string
    requires img.Valid() && y < img.h
  {
    Cells(RowPixels(img, y), y) + "\n"
  }

  function Header(img: ImageBuffer): string {
    "P3\n" + ToDecimal(img.w) + " " + ToDecimal(img.h) + "\n" + "255\n"
  }

  /** The first `k` rows written: the outer loop visits image rows top (`h - 1`) down. */
  function Body(img: ImageBuffer, k: nat): string
    requires img.Valid() && k <= img.h
  {
    if k == 0 then [] else Body(img, k - 1) + Row(img, img.h - k)
  }

  /** The whole file. */
  function PpmText(img: ImageBuffer): string
    requires img.Valid()
  {
    Header(img) + Body(img, img.h)
  }

  /**
   * The writer's outer loop, appending to the text where the source writes
   * to the file; the inner loop is `WriteRow`.
   */
  method SaveAsPpm(img: ImageBuffer) returns (text: string)
    requires img.Valid()
    ensures text == PpmText(img)
  {
    text := "P3\n";
    text := text + ToDecimal(img.w) + " " + ToDecimal(img.h) + "\n";
    text := text + "255\n";
    for row := 0 to img.h
      invariant text == Header(img) + Body(img, row)
    {
      text := WriteRow(img, img.h - row - 1, text);
      assert Body(img, row + 1) == Body(img, row) + Row(img, img.h - row - 1);
      assert text == Header(img) + (Body(img, row) + Row(img, img.h - row - 1));
    }
  }

  /**
   * The writer's inner loop over the pixels of image row `y`, followed by the
   * row's newline.  The `get_index` inside never fails, so its `?` never returns.
   */
  method WriteRow(img: ImageBuffer, y: nat, text0: string) returns (text: string)
    requires img.Valid() && y < img.h
    ensures text == text0 + Row(img, y)
  {
    text := text0;
    for x := 0 to img.w
      invariant text == text0 + Cells(RowPixels(img, y)[..x], y)
    {
      ghost var before := text;
      text := WritePixel(img, x, y, text);
      WrittenCellsStep(img, y, x, text0, before, text);
    }
    WrittenRow(img, y, text0, text);
    text := text + "\n";
  }

  /** The inner loop's invariant survives one more pixel. */
  lemma WrittenCellsStep(img: ImageBuffer, y: nat, x: nat, text0: string, before: string, after: string)
    requires img.Valid() && y < img.h && x < img.w
    requires before == text0 + Cells(RowPixels(img, y)[..x], y)
    requires after == before + Cell(img.At(x, y), y)
    ensures after == text0 + Cells(RowPixels(img, y)[..x + 1], y)
  {
    RowCellsSnoc(img, y, x);
    assert after == text0 + (Cells(RowPixels(img, y)[..x], y) + Cell(img.At(x, y), y));
  }

  /** Once every pixel is written, the row's newline completes `Row`. */
  lemma WrittenRow(img: ImageBuffer, y: nat, text0: string, text: string)
    requires img.Valid() && y < img.h
    requires text == text0 + Cells(RowPixels(img, y)[..img.w], y)
    ensures text + "\n" == text0 + Row(img, y)
  {
    assert RowPixels(img, y)[..img.w] == RowPixels(img, y);
    assert text + "\n" == text0 + (Cells(RowPixels(img, y), y) + "\n");
  }

  /**
   * The body of the inner loop: pixel `(x, y)`'s field, and the extra newline
   * of rows whose index is 7 modulo 8.
   */
  method WritePixel(img: ImageBuffer, x: nat, y: nat, text0: string) returns (text: string)
    requires img.Valid() && x < img.w && y < img.h
    ensures text == text0 + Cell(img.At(x, y), y)
  {
    var pixel := img.pixels[img.GetIndex(x, y).value];
    var pixelString := FormatPixel(pixel);
    text := text0 + pixelString;
    if y % 8 == 8 - 1 {
      text := text + "\n";
    }
  }

  lemma CellsSnoc(ps: seq<Pixel>, x: nat, y: nat)
    requires x < |ps|
    ensures Cells(ps[..x + 1], y) == Cells(ps[..x], y) + Cell(ps[x], y)
  {
    assert ps[..x + 1][..x] == ps[..x];
  }

  /** One more pixel of image row `y` adds that pixel's cell. */
  lemma RowCellsSnoc(img: ImageBuffer, y: nat, x: nat)
    requires img.Valid() && y < img.h && x < img.w
    ensures Cells(RowPixels(img, y)[..x + 1], y) == Cells(RowPixels(img, y)[..x], y) + Cell(img.At(x, y), y)
  {
    RowPixelsAt(img, y, x);
    CellsSnoc(RowPixels(img, y), x, y);
  }

  /** Builds one pixel's field; the padding count `12 - len` stays non-negative. */
  method FormatPixel(pixel: Pixel) returns (pixelString: string)
    ensures pixelString == PixelField(pixel)
  {
    pixelString := ToDecimal(pixel.r) + " " + ToDecimal(pixel.g) + " " + ToDecimal(pixel.b);
    var addSpaceCount: nat := 12 - |pixelString|;
    pixelString := pixelString + Spaces(addSpaceCount);
  }

  /** Every pixel takes `Stride(y)` characters of its row. */
  lemma {:induction false} CellsLength(ps: seq<Pixel>, y: nat)
    ensures |Cells(ps, y)| == Stride(y) * |ps|
  {
    if ps != [] {
      CellsLength(ps[..|ps| - 1], y);
    }
  }

  lemma RowLength(img: ImageBuffer, y: nat)
    requires img.Valid() && y < img.h
    ensures |Row(img, y)| == Stride(y) * img.w + 1
  {
    CellsLength(RowPixels(img, y), y);
  }

  /**
   * Pixel `x` of a run sits at offset `Stride(y) * x` as its 12-character
   * field, followed by a newline exactly in the rows that break after each pixel.
   */
  lemma {:induction false} FieldAt(ps: seq<Pixel>, y: nat, x: nat)
    requires x < |ps|
    ensures Stride(y) * x + Stride(y) <= |Cells(ps, y)|
    ensures Cells(ps, y)[Stride(y) * x .. Stride(y) * x + 12] == PixelField(ps[x])
    ensures BreaksAfterEachPixel(y) ==> Cells(ps, y)[Stride(y) * x + 12] == '\n'
  {
    var prefix, cell := Cells(ps[..|ps| - 1], y), Cell(ps[|ps| - 1], y);
    CellsLength(ps[..|ps| - 1], y);
    assert |cell| == Stride(y);
    if x == |ps| - 1 {
      assert (prefix + cell)[Stride(y) * x ..] == cell;
    } else {
      FieldAt(ps[..|ps| - 1], y, x);
      MulMonotone(x + 1, |ps| - 1, Stride(y));
      assert (prefix + cell)[..|prefix|] == prefix;
    }
  }

  /** Pixel `x` of image row `y` within the text of that row. */
  lemma RowFieldAt(img: ImageBuffer, y: nat, x: nat)
    requires img.Valid() && y < img.h && x < img.w
    ensures Stride(y) * x + Stride(y) <= |Row(img, y)|
    ensures Row(img, y)[Stride(y) * x .. Stride(y) * x + 12] == PixelField(img.At(x, y))
    ensures BreaksAfterEachPixel(y) ==> Row(img, y)[Stride(y) * x + 12] == '\n'
  {
    var ps := RowPixels(img, y);
    FieldAt(ps, y, x);
    RowPixelsAt(img, y, x);
    assert Row(img, y)[..|Cells(ps, y)|] == Cells(ps, y);
  }

  /** Number of newline characters in `s`. */
  function Newlines(s: string): nat {
    if s == [] then 0 else Newlines(s[..|s| - 1]) + (if s[|s| - 1] == '\n' then 1 else 0)
  }

  lemma {:induction false} NewlinesAppend(a: string, b: string)
    ensures Newlines(a + b) == Newlines(a) + Newlines(b)
  {
    if b != [] {
      assert (a + b)[..|a + b| - 1] == a + b[..|b| - 1];
      NewlinesAppend(a, b[..|b| - 1]);
    } else {
      assert a + b == a;
    }
  }

  lemma {:induction false} NewlinesOfNoNewline(s: string)
    requires forall i :: 0 <= i < |s| ==> s[i] != '\n'
    ensures Newlines(s) == 0
  {
    if s != [] {
      NewlinesOfNoNewline(s[..|s| - 1]);
    }
  }

  lemma FieldHasNoNewline(p: Pixel)
    ensures Newlines(PixelField(p)) == 0
  {
    var f := PixelField(p);
    var t := PixelText(p);
    DecimalDigits(p.r);
    DecimalDigits(p.g);
    DecimalDigits(p.b);
    forall i | 0 <= i < |f| ensures f[i] != '\n' {
      if i < |t| {
        assert f[i] == t[i];
        var dr, dg := ToDecimal(p.r), ToDecimal(p.g);
        if i < |dr| {
          assert t[i] == dr[i] && IsDigit(dr[i]);
        } else if i == |dr| || i == |dr| + 1 + |dg| {
          assert t[i] == ' ';
        } else if i < |dr| + 1 + |dg| {
          assert t[i] == dg[i - |dr| - 1] && IsDigit(dg[i - |dr| - 1]);
        } else {
          var db := ToDecimal(p.b);
          assert t[i] == db[i - |dr| - |dg| - 2] && IsDigit(db[i - |dr| - |dg| - 2]);
        }
      }
    }
    NewlinesOfNoNewline(f);
  }

  lemma {:induction false} CellsNewlines(ps: seq<Pixel>, y: nat)
    ensures Newlines(Cells(ps, y)) == if BreaksAfterEachPixel(y) then |ps| else 0
  {
    if ps != [] {
      var p := ps[|ps| - 1];
      CellsNewlines(ps[..|ps| - 1], y);
      NewlinesAppend(Cells(ps[..|ps| - 1], y), Cell(p, y));
      NewlinesAppend(PixelField(p), if BreaksAfterEachPixel(y) then "\n" else "");
      FieldHasNoNewline(p);
    }
  }

  /**
   * Each row ends in a newline; apart from it, a row breaks after every pixel
   * when its index is 7 modulo 8 and nowhere otherwise.
   */
  lemma RowNewlines(img: ImageBuffer, y: nat)
    requires img.Valid() && y < img.h
    ensures Row(img, y)[|Row(img, y)| - 1] == '\n'
    ensures Newlines(Row(img, y)) == (if BreaksAfterEachPixel(y) then img.w else 0) + 1
  {
    CellsNewlines(RowPixels(img, y), y);
    NewlinesAppend(Cells(RowPixels(img, y), y), "\n");
  }

  lemma {:induction false} BodyPrefix(img: ImageBuffer, k: nat, j: nat)
    requires img.Valid() && k <= j <= img.h
    ensures |Body(img, k)| <= |Body(img, j)| && Body(img, j)[..|Body(img, k)|] == Body(img, k)
  {
    if k < j {
      BodyPrefix(img, k, j - 1);
    }
  }

  /**
   * The `k`-th row written (counting from 0) is image row `h - 1 - k`: the
   * file lists rows bottom-up relative to the buffer's `y`.
   */
  lemma EmittedRow(img: ImageBuffer, k: nat)
    requires img.Valid() && k < img.h
    ensures |Header(img) + Body(img, k)| + |Row(img, img.h - 1 - k)| <= |PpmText(img)|
    ensures PpmText(img)[|Header(img) + Body(img, k)|..|Header(img) + Body(img, k + 1)|]
            == Row(img, img.h - 1 - k)
  {
    BodyStep(img, k);
    BodyPrefix(img, k + 1, img.h);
    SliceOfPrefix(Header(img), Body(img, k), Row(img, img.h - 1 - k), Body(img, img.h));
  }

  /** A piece `row` following `pre` at the start of `all` is found there again after any header. */
  lemma SliceOfPrefix(hd: string, pre: string, row: string, all: string)
    requires |pre + row| <= |all| && all[..|pre + row|] == pre + row
    ensures |hd + pre| + |row| <= |hd + all|
    ensures (hd + all)[|hd + pre|..|hd + (pre + row)|] == row
  {
    var rest := all[|pre + row|..];
    assert all == pre + row + rest;
    assert hd + all == (hd + pre) + row + rest;
    SliceMiddle(hd + pre, row, rest);
  }

  lemma BodyStep(img: ImageBuffer, k: nat)
    requires img.Valid() && k < img.h
    ensures Body(img, k + 1) == Body(img, k) + Row(img, img.h - 1 - k)
  {
  }

  lemma SliceMiddle(a: string, m: string, z: string)
    ensures (a + m + z)[|a|..|a| + |m|] == m
  {
    assert (a + m + z)[|a|..|a| + |m|] == (a + m)[|a|..];
  }
}
