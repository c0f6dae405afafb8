/** `Pixel` and `ImageBuffer` of `main.rs`: a row-major buffer of `w * h` pixels. */
module Image {
  import opened Errors

  /** `u8`. */
  type Byte = b: nat | b < 256

  datatype Pixel = Pixel(r: Byte, g: Byte, b: Byte)

  /** `Pixel::black_pixel()`. */
  const BlackPixel: Pixel := Pixel(0, 0, 0)

  datatype ImageBuffer = ImageBuffer(pixels: seq<Pixel>, w: nat, h: nat)
  {
    /** The buffer holds exactly one pixel per coordinate. */
    predicate Valid() {
      |pixels| == w * h
    }

    /**
     * `get_index`: the row-major position of `(x, y)`, or
     * `OutsideImageBuffer` when the coordinate lies off the image.
     */
    function GetIndex(x: nat, y: nat): (r: Result<nat>)
      ensures r.Ok? <==> x < w && y < h
      ensures r.Ok? ==> r.value == y * w + x && r.value < w * h
      ensures r.Err? ==> r.error == OutsideImageBuffer
    {
      if y < h && x < w then
        MulStrictBound(y, h, w, x);
        Ok(y * w + x)
      else
        Err(OutsideImageBuffer)
    }

    /** The pixel at an in-range coordinate. */
    function At(x: nat, y: nat): Pixel
      requires Valid() && x < w && y < h
    {
      pixels[GetIndex(x, y).value]
    }
  }

  /** `ImageBuffer::new`: `width * height` black pixels. */
  function New(width: nat, height: nat): (img: ImageBuffer)
    ensures img.Valid() && img.w == width && img.h == height
    ensures forall i :: 0 <= i < |img.pixels| ==> img.pixels[i] == BlackPixel
  {
    ImageBuffer(seq(width * height, _ => BlackPixel), width, height)
  }

  /** `y * w + x < h * w` when `y < h` and `x < w`. */
  lemma MulStrictBound(y: nat, h: nat, w: nat, x: nat)
    requires y < h && x < w
    ensures y * w + x < w * h
  {
    assert (y + 1) * w <= h * w by { MulMonotone(y + 1, h, w); }
  }

  lemma MulSucc(k: nat, w: nat)
    requires k > 0
    ensures k * w == (k - 1) * w + w
  {
  }

  lemma MulMonotone(a: nat, b: nat, c: nat)
    requires a <= b
    ensures a * c <= b * c
  {
  }

  /** Splitting a position below `w * h` into a column and a row. */
  lemma DivModBound(i: nat, w: nat, h: nat)
    requires i < w * h
    ensures w > 0 && i % w < w && i / w < h && (i / w) * w + i % w == i
  {
    assert w != 0;
    if h <= i / w {
      MulMonotone(h, i / w, w);
    }
  }

  /** Distinct in-range coordinates map to distinct positions. */
  lemma {:induction false} GetIndexInjective(img: ImageBuffer, x1: nat, y1: nat, x2: nat, y2: nat)
    requires img.GetIndex(x1, y1).Ok? && img.GetIndex(x2, y2).Ok?
    requires img.GetIndex(x1, y1) == img.GetIndex(x2, y2)
    ensures x1 == x2 && y1 == y2
  {
    if y1 < y2 {
      MulStrictBound(y1, y2, img.w, x1);
      assert false;
    } else if y2 < y1 {
      MulStrictBound(y2, y1, img.w, x2);
      assert false;
    }
  }

  /** Every position of a well-formed buffer is the index of some coordinate. */
  lemma {:induction false} GetIndexSurjective(img: ImageBuffer, i: nat)
    requires img.Valid() && i < |img.pixels|
    ensures img.w > 0 && img.GetIndex(i % img.w, i / img.w) == Ok(i)
  {
    assert img.w != 0;
    var y := i / img.w;
    assert y < img.h by {
      if img.h <= y { MulMonotone(img.h, y, img.w); }
    }
  }

  /** A freshly allocated buffer is black at every coordinate. */
  lemma NewIsBlack(width: nat, height: nat, x: nat, y: nat)
    requires x < width && y < height
    ensures New(width, height).At(x, y) == BlackPixel
  {
  }
}
