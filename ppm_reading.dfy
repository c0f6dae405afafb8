/**
 * What a plain-PPM reader sees in the writer's output: the whitespace
 * tokens, and the buffer it reconstructs from them.
 */
module PpmReading {
  import opened Wrappers
  import opened Numerals
  import opened Image
  import opened Ppm

  /** The three tokens of one pixel. */
  function PixelTokens(p: Pixel): seq<string> {
    [ToDecimal(p.r), ToDecimal(p.g), ToDecimal(p.b)]
  }

  /** The tokens of a run of pixels, three per pixel. */
  function PixelsTokens(ps: seq<Pixel>): seq<string> {
    if ps == [] then [] else PixelsTokens(ps[..|ps| - 1]) + PixelTokens(ps[|ps| - 1])
  }

  /** The pixels of the first `k` rows written, in file order (image rows `h - 1` down to `h - k`). */
  function EmittedPixels(img: ImageBuffer, k: nat): seq<Pixel>
    requires img.Valid() && k <= img.h
  {
    if k == 0 then [] else EmittedPixels(img, k - 1) + RowPixels(img, img.h - k)
  }

  function HeaderTokens(img: ImageBuffer): seq<string> {
    ["P3", ToDecimal(img.w), ToDecimal(img.h), "255"]
  }

  lemma CellTokens(p: Pixel, y: nat)
    ensures |Cell(p, y)| > 0 && IsSpace(Cell(p, y)[|Cell(p, y)| - 1])
    ensures Tokens(Cell(p, y)) == PixelTokens(p)
  {
    var dr, dg, db := ToDecimal(p.r), ToDecimal(p.g), ToDecimal(p.b);
    var n := 12 - |PixelText(p)|;
    var tail := Spaces(n - 1) + (if BreaksAfterEachPixel(y) then "\n" else "");
    assert Spaces(n) == " " + Spaces(n - 1);
    assert Cell(p, y) == (dr + " ") + ((dg + " ") + ((db + " ") + tail));
    TokensOfDecimal(p.r, ' ');
    TokensOfDecimal(p.g, ' ');
    TokensOfDecimal(p.b, ' ');
    TokensOfSpaces(tail);
    TokensAppend(db + " ", tail);
    TokensAppend(dg + " ", (db + " ") + tail);
    TokensAppend(dr + " ", (dg + " ") + ((db + " ") + tail));
  }

  lemma {:induction false} PixelsTokensAppend(a: seq<Pixel>, b: seq<Pixel>)
    ensures PixelsTokens(a + b) == PixelsTokens(a) + PixelsTokens(b)
  {
    if b == [] {
      assert a + b == a;
    } else {
      assert (a + b)[..|a + b| - 1] == a + b[..|b| - 1];
      PixelsTokensAppend(a, b[..|b| - 1]);
    }
  }

  lemma {:induction false} CellsTokens(ps: seq<Pixel>, y: nat)
    ensures Cells(ps, y) == [] || IsSpace(Cells(ps, y)[|Cells(ps, y)| - 1])
    ensures Tokens(Cells(ps, y)) == PixelsTokens(ps)
  {
    if ps != [] {
      var p := ps[|ps| - 1];
      CellsTokens(ps[..|ps| - 1], y);
      CellTokens(p, y);
      TokensAppend(Cells(ps[..|ps| - 1], y), Cell(p, y));
    }
  }

  /** A row's tokens are its pixels' decimals; the row ends in a newline. */
  lemma RowTokens(img: ImageBuffer, y: nat)
    requires img.Valid() && y < img.h
    ensures Row(img, y) != [] && IsSpace(Row(img, y)[|Row(img, y)| - 1])
    ensures Tokens(Row(img, y)) == PixelsTokens(RowPixels(img, y))
  {
    var cells := Cells(RowPixels(img, y), y);
    assert Row(img, y) == cells + "\n";
    CellsTokens(RowPixels(img, y), y);
    TokensOfSpaces("\n");
    TokensAppend(cells, "\n");
  }

  /** Every nonempty part of the body ends in the newline that closes its last row. */
  lemma BodyEnd(img: ImageBuffer, k: nat)
    requires img.Valid() && 0 < k <= img.h
    ensures Body(img, k) != [] && IsSpace(Body(img, k)[|Body(img, k)| - 1])
  {
    RowTokens(img, img.h - k);
    LastOfAppend(Body(img, k - 1), Row(img, img.h - k));
  }

  lemma LastOfAppend<T>(a: seq<T>, b: seq<T>)
    requires b != []
    ensures a + b != [] && (a + b)[|a + b| - 1] == b[|b| - 1]
  {
  }

  lemma {:induction false} BodyTokensOf(img: ImageBuffer, k: nat)
    requires img.Valid() && k <= img.h
    ensures Tokens(Body(img, k)) == PixelsTokens(EmittedPixels(img, k))
  {
    if k > 0 {
      BodyTokensOf(img, k - 1);
      BodyTokensStep(img, k - 1);
    }
  }

  lemma BodyTokensStep(img: ImageBuffer, j: nat)
    requires img.Valid() && j < img.h
    requires Tokens(Body(img, j)) == PixelsTokens(EmittedPixels(img, j))
    ensures Tokens(Body(img, j + 1)) == PixelsTokens(EmittedPixels(img, j + 1))
  {
    if j > 0 {
      BodyEnd(img, j);
    }
    BodyStep(img, j);
    EmittedStep(img, j);
    RowTokens(img, img.h - 1 - j);
    TokensJoin(Body(img, j), Row(img, img.h - 1 - j), EmittedPixels(img, j), RowPixels(img, img.h - 1 - j));
  }

  /** Text that is empty or ends in a separator, then more text: tokens and pixels concatenate. */
  lemma TokensJoin(a: string, b: string, pa: seq<Pixel>, pb: seq<Pixel>)
    requires a == [] || IsSpace(a[|a| - 1])
    requires Tokens(a) == PixelsTokens(pa) && Tokens(b) == PixelsTokens(pb)
    ensures Tokens(a + b) == PixelsTokens(pa + pb)
  {
    TokensAppend(a, b);
    PixelsTokensAppend(pa, pb);
  }

  lemma HeaderTokensOf(img: ImageBuffer)
    ensures |Header(img)| > 0 && IsSpace(Header(img)[|Header(img)| - 1])
    ensures Tokens(Header(img)) == HeaderTokens(img)
  {
    var dw, dh := ToDecimal(img.w), ToDecimal(img.h);
    var p3, dims, depth := "P3\n", (dw + " ") + (dh + "\n"), "255\n";
    assert Header(img) == p3 + (dims + depth);
    TokensOfWord("P3", '\n', []);
    assert "P3" + ['\n'] == p3 && [] + "P3" == "P3";
    TokensOfWord("255", '\n', []);
    assert "255" + ['\n'] == depth && [] + "255" == "255";
    TokensOfDecimal(img.w, ' ');
    TokensOfDecimal(img.h, '\n');
    assert Tokens(dims) == [dw, dh] by {
      TokensAppend(dw + " ", dh + "\n");
    }
    TokensAppend(dims, depth);
    TokensAppend(p3, dims + depth);
  }

  /**
   * A reader splitting the file at spaces and newlines sees the header
   * `P3 w h 255` and then three decimal tokens per pixel, in file order.
   */
  lemma PpmTokens(img: ImageBuffer)
    requires img.Valid()
    ensures Tokens(PpmText(img)) == HeaderTokens(img) + PixelsTokens(EmittedPixels(img, img.h))
  {
    HeaderTokensOf(img);
    BodyTokensOf(img, img.h);
    TokensAppend(Header(img), Body(img, img.h));
  }

  lemma {:induction false} PixelsTokensAt(ps: seq<Pixel>, m: nat, c: nat)
    ensures |PixelsTokens(ps)| == 3 * |ps|
    ensures AllByteTexts(PixelsTokens(ps))
    ensures m < |ps| && c < 3 ==> PixelsTokens(ps)[3 * m + c] == PixelTokens(ps[m])[c]
  {
    if ps != [] {
      var p := ps[|ps| - 1];
      PixelsTokensAt(ps[..|ps| - 1], m, c);
      ByteText(p.r);
      ByteText(p.g);
      ByteText(p.b);
    }
  }

  lemma EmittedStep(img: ImageBuffer, j: nat)
    requires img.Valid() && j < img.h
    ensures EmittedPixels(img, j + 1) == EmittedPixels(img, j) + RowPixels(img, img.h - 1 - j)
  {
  }

  /** The first `k` rows written hold `k * w` pixels. */
  lemma {:induction false} EmittedLength(img: ImageBuffer, k: nat)
    requires img.Valid() && k <= img.h
    ensures |EmittedPixels(img, k)| == k * img.w
  {
    if k > 0 {
      EmittedLength(img, k - 1);
      EmittedStep(img, k - 1);
      MulSucc(k, img.w);
    }
  }

  /** The rows written first stay at the front as more rows are written. */
  lemma {:induction false} EmittedPrefix(img: ImageBuffer, j: nat, k: nat)
    requires img.Valid() && j <= k <= img.h
    ensures |EmittedPixels(img, j)| <= |EmittedPixels(img, k)|
    ensures EmittedPixels(img, k)[..|EmittedPixels(img, j)|] == EmittedPixels(img, j)
  {
    if j < k {
      EmittedPrefix(img, j, k - 1);
      EmittedStep(img, k - 1);
    }
  }

  /**
   * The file lists image row `h - 1 - j` as its `j`-th row: pixel `x` of it
   * follows the pixels of the `j` rows written before.
   */
  lemma EmittedAt(img: ImageBuffer, k: nat, j: nat, x: nat)
    requires img.Valid() && j < k <= img.h && x < img.w
    ensures |EmittedPixels(img, j)| + x < |EmittedPixels(img, k)|
    ensures EmittedPixels(img, k)[|EmittedPixels(img, j)| + x] == img.At(x, img.h - 1 - j)
  {
    EmittedRowAt(img, j, x);
    EmittedPrefix(img, j + 1, k);
    PrefixAt(EmittedPixels(img, k), EmittedPixels(img, j + 1), |EmittedPixels(img, j)| + x);
  }

  /** Pixel `x` of the `j`-th row written is the last row's pixel of the first `j + 1` rows. */
  lemma EmittedRowAt(img: ImageBuffer, j: nat, x: nat)
    requires img.Valid() && j < img.h && x < img.w
    ensures |EmittedPixels(img, j)| + x < |EmittedPixels(img, j + 1)|
    ensures EmittedPixels(img, j + 1)[|EmittedPixels(img, j)| + x] == img.At(x, img.h - 1 - j)
  {
    EmittedStep(img, j);
    RowPixelsAt(img, img.h - 1 - j, x);
    AppendAt(EmittedPixels(img, j), RowPixels(img, img.h - 1 - j), x);
  }

  lemma AppendAt<T>(a: seq<T>, b: seq<T>, x: nat)
    requires x < |b|
    ensures |a| + x < |a + b| && (a + b)[|a| + x] == b[x]
  {
  }

  lemma PrefixAt<T>(all: seq<T>, pre: seq<T>, i: nat)
    requires |pre| <= |all| && all[..|pre|] == pre && i < |pre|
    ensures all[i] == pre[i]
  {
    assert all[..|pre|][i] == all[i];
  }

  /** Position in the writer's pixel order of the pixel with row-major index `i`. */
  function Slot(w: nat, h: nat, i: nat): (m: nat)
    requires i < w * h
    ensures m < w * h
  {
    DivModBound(i, w, h);
    MulStrictBound(h - 1 - i / w, h, w, i % w);
    (h - 1 - i / w) * w + i % w
  }

  function ReadPixel(t: seq<string>, w: nat, h: nat, i: nat): Pixel
    requires i < w * h && |t| == 4 + 3 * (w * h)
    requires AllByteTexts(t[4..])
  {
    var at := 4 + 3 * Slot(w, h, i);
    assert t[at] in t[4..] && t[at + 1] in t[4..] && t[at + 2] in t[4..];
    Pixel(ParseDecimal(t[at]), ParseDecimal(t[at + 1]), ParseDecimal(t[at + 2]))
  }

  /**
   * A plain-PPM reader for the writer's output: header `P3 w h 255`, then
   * `w * h` pixels of three byte values, listed from image row `h - 1` down.
   */
  function ReadPpm(text: string): Option<ImageBuffer> {
    var t := Tokens(text);
    if |t| < 4 || t[0] != "P3" || t[3] != "255" || !IsDecimal(t[1]) || !IsDecimal(t[2]) then
      None
    else
      var w, h := ParseDecimal(t[1]), ParseDecimal(t[2]);
      if |t| != 4 + 3 * (w * h) || !AllByteTexts(t[4..]) then
        None
      else
        Some(ImageBuffer(seq(w * h, i requires 0 <= i < w * h => ReadPixel(t, w, h, i)), w, h))
  }

  /** Reading back what the writer emits recovers the buffer exactly. */
  lemma ReadSavedPpm(img: ImageBuffer)
    requires img.Valid()
    ensures ReadPpm(PpmText(img)) == Some(img)
  {
    var w, h := img.w, img.h;
    var t := Tokens(PpmText(img));
    var emitted := EmittedPixels(img, h);
    PpmTokens(img);
    EmittedLength(img, h);
    PixelsTokensAt(emitted, 0, 0);
    ParseToDecimal(w);
    ParseToDecimal(h);
    assert t[1] == ToDecimal(w) && t[2] == ToDecimal(h);
    assert t[4..] == PixelsTokens(emitted);
    var pixels := seq(w * h, i requires 0 <= i < w * h => ReadPixel(t, w, h, i));
    forall i | 0 <= i < w * h ensures pixels[i] == img.pixels[i] {
      PixelRead(img, t, i);
    }
    assert pixels == img.pixels;
  }

  /** The slot of row-major index `i` holds pixel `(i % w, i / w)` of the image. */
  lemma SlotPixel(img: ImageBuffer, i: nat)
    requires img.Valid() && i < img.w * img.h
    ensures |EmittedPixels(img, img.h)| == img.w * img.h
    ensures EmittedPixels(img, img.h)[Slot(img.w, img.h, i)] == img.pixels[i]
  {
    var w, h := img.w, img.h;
    DivModBound(i, w, h);
    var x, y := i % w, i / w;
    GetIndexSurjective(img, i);
    assert img.pixels[i] == img.At(x, y);
    EmittedLength(img, h);
    EmittedLength(img, h - 1 - y);
    EmittedAt(img, h, h - 1 - y, x);
  }

  lemma PixelRead(img: ImageBuffer, t: seq<string>, i: nat)
    requires img.Valid() && i < img.w * img.h
    requires t == HeaderTokens(img) + PixelsTokens(EmittedPixels(img, img.h))
    requires |t| == 4 + 3 * (img.w * img.h) && AllByteTexts(t[4..])
    ensures ReadPixel(t, img.w, img.h, i) == img.pixels[i]
  {
    var m := Slot(img.w, img.h, i);
    SlotPixel(img, i);
    var p := img.pixels[i];
    var emitted := EmittedPixels(img, img.h);
    PixelsTokensAt(emitted, m, 0);
    PixelsTokensAt(emitted, m, 1);
    PixelsTokensAt(emitted, m, 2);
    ParseToDecimal(p.r);
    ParseToDecimal(p.g);
    ParseToDecimal(p.b);
  }
}
