/** Byte layout of an interleaved RGBA bitmap, and the pixel validator
    `getPixelLuminance` with its error-to-sentinel wrapper. */
module Pixels {

  /** One unsigned 8-bit sample of the bitmap. */
  newtype byte = x: int | 0 <= x < 256

  /** Offset of the red byte of the pixel at column x, row y, in a bitmap of
      unpadded rows imageWidth pixels wide with four bytes (r, g, b, a) per pixel. */
  function PixelOffset(imageWidth: int, x: int, y: int): (o: int)
    ensures o % 4 == 0
  {
    (imageWidth * y + x) * 4
  }

  /** A row starts at least a whole row after every earlier row. */
  lemma {:induction false} RowsApart(width: int, y1: int, y2: int)
    requires 0 <= width && 0 <= y1 < y2
    ensures width * y1 + width <= width * y2
    decreases y2
  {
    assert width * y2 == width * (y2 - 1) + width;
    if y1 < y2 - 1 {
      RowsApart(width, y1, y2 - 1);
    }
  }

  /** Every pixel of a width x height image has its four bytes inside the
      first 4 * width * height bytes of the bitmap. */
  lemma PixelInBitmap(width: int, height: int, x: int, y: int)
    requires 0 <= x < width && 0 <= y < height
    ensures 0 <= PixelOffset(width, x, y)
    ensures PixelOffset(width, x, y) + 4 <= 4 * width * height
  {
    RowsApart(width, 0, y + 1);
    RowsApart(width, y, height);
    assert 4 * width * height == 4 * (width * height);
  }

  /** Two different pixels of an image own disjoint four-byte blocks. */
  lemma PixelsApart(width: int, x1: int, y1: int, x2: int, y2: int)
    requires 0 <= x1 < width && 0 <= x2 < width && 0 <= y1 && 0 <= y2
    requires x1 != x2 || y1 != y2
    ensures PixelOffset(width, x1, y1) + 4 <= PixelOffset(width, x2, y2)
         || PixelOffset(width, x2, y2) + 4 <= PixelOffset(width, x1, y1)
  {
    if y1 < y2 {
      RowsApart(width, y1, y2);
    } else if y2 < y1 {
      RowsApart(width, y2, y1);
    }
  }

  /** The bitmap with the pixel whose red byte is at offset o set to the grey
      level v and made fully opaque. */
  function WritePixel(data: seq<byte>, o: int, v: byte): (r: seq<byte>)
    requires 0 <= o && o + 3 < |data|
    ensures |r| == |data|
    ensures r[o] == v && r[o + 1] == v && r[o + 2] == v && r[o + 3] == 255
    ensures forall j :: 0 <= j < |data| && !(o <= j < o + 4) ==> r[j] == data[j]
  {
    data[o := v][o + 1 := v][o + 2 := v][o + 3 := 255]
  }

  /** The byte saveLuminance stores for a luminance: luminance * 255 converted
      to an unsigned 8-bit integer, truncating toward zero; the conversion
      traps outside (-1, 256), hence the precondition. */
  function LuminanceByte(luminance: real): (b: byte)
    requires -1.0 < luminance * 255.0 < 256.0
    ensures luminance >= 0.0 ==> b as real <= luminance * 255.0 < b as real + 1.0
    ensures luminance <= 0.0 ==> b == 0
  {
    var x := luminance * 255.0;
    if x < 0.0 then 0 else x.Floor as byte
  }

  /** Black and white luminances are stored as the bytes 0 and 255. */
  lemma BinaryLuminanceBytes()
    ensures LuminanceByte(0.0) == 0 && LuminanceByte(1.0) == 255
  {
  }

  /** The pixel at offset o is opaque and either pure black or pure white. */
  predicate IsBinaryPixel(data: seq<byte>, o: int)
    requires 0 <= o && o + 3 < |data|
  {
    (data[o] == 0 || data[o] == 255) && data[o + 1] == data[o] && data[o + 2] == data[o]
    && data[o + 3] == 255
  }

  /** The errors the image transformations throw. */
  datatype ImageTransformationError =
    | CgImage
    | CgImageDataProvider
    | CgImageData
    | PixelTransparent
    | PixelNotMonochrome

  datatype Result<T> = Ok(value: T) | Err(error: ImageTransformationError)

  /** Luminance of a grey, opaque pixel, read from the raw bitmap; a pixel that
      is not opaque, or whose colour channels differ, is an error. */
  function GetPixelLuminance(data: seq<byte>, imageWidth: int, x: int, y: int): (res: Result<real>)
    requires 0 <= PixelOffset(imageWidth, x, y) && PixelOffset(imageWidth, x, y) + 3 < |data|
    ensures var o := PixelOffset(imageWidth, x, y);
      res.Ok? <==> data[o + 3] == 255 && data[o] == data[o + 1] && data[o + 1] == data[o + 2]
    ensures var o := PixelOffset(imageWidth, x, y);
      res == Err(PixelTransparent) <==> data[o + 3] != 255
    ensures var o := PixelOffset(imageWidth, x, y);
      res == Err(PixelNotMonochrome) <==>
        data[o + 3] == 255 && !(data[o] == data[o + 1] && data[o + 1] == data[o + 2])
    ensures res.Ok? ==> res.value * 255.0 == data[PixelOffset(imageWidth, x, y)] as real
    ensures res.Ok? ==> 0.0 <= res.value <= 1.0
  {
    var pixelInfo := PixelOffset(imageWidth, x, y);
    var r := data[pixelInfo] as real / 255.0;
    var g := data[pixelInfo + 1] as real / 255.0;
    var b := data[pixelInfo + 2] as real / 255.0;
    var a := data[pixelInfo + 3] as real / 255.0;
    if a != 1.0 then Err(PixelTransparent)
    else if !(r == g && g == b) then Err(PixelNotMonochrome)
    else Ok(r)
  }

  /** What the CoreGraphics calls yield for an image: the chain
      image -> CGImage -> data provider -> data can break at every link;
      otherwise the bitmap and the image width in pixels. */
  datatype ImageSource =
    | MissingCgImage
    | MissingDataProvider
    | MissingData
    | Bitmap(data: seq<byte>, width: int)

  /** The pixel (x, y) of the bitmap, if there is one, lies inside it. */
  predicate PixelReadable(image: ImageSource, x: int, y: int)
  {
    image.Bitmap? ==>
      0 <= PixelOffset(image.width, x, y) && PixelOffset(image.width, x, y) + 3 < |image.data|
  }

  /** Luminance of the pixel (x, y) of an image: each missing link of the
      CoreGraphics chain is its own error, then the bitmap is validated. */
  function GetImagePixelLuminance(image: ImageSource, x: int, y: int): (res: Result<real>)
    requires PixelReadable(image, x, y)
    ensures image.MissingCgImage? ==> res == Err(CgImage)
    ensures image.MissingDataProvider? ==> res == Err(CgImageDataProvider)
    ensures image.MissingData? ==> res == Err(CgImageData)
    ensures res.Ok? <==> (image.Bitmap? &&
      var o := PixelOffset(image.width, x, y);
      image.data[o + 3] == 255 && image.data[o] == image.data[o + 1]
      && image.data[o + 1] == image.data[o + 2])
    ensures image.Bitmap? ==> res == GetPixelLuminance(image.data, image.width, x, y)
  {
    match image
    case MissingCgImage => Err(CgImage)
    case MissingDataProvider => Err(CgImageDataProvider)
    case MissingData => Err(CgImageData)
    case Bitmap(data, width) => GetPixelLuminance(data, width, x, y)
  }

  /** The UIImage convenience: the luminance in [0, 1], or -1 when any error is thrown. */
  function PixelLuminance(image: ImageSource, x: int, y: int): (r: real)
    requires PixelReadable(image, x, y)
    ensures r == -1.0 <==> GetImagePixelLuminance(image, x, y).Err?
    ensures r != -1.0 ==> 0.0 <= r <= 1.0
    ensures GetImagePixelLuminance(image, x, y).Ok? ==> r == GetImagePixelLuminance(image, x, y).value
  {
    match GetImagePixelLuminance(image, x, y)
    case Ok(luminance) => luminance
    case Err(_) => -1.0
  }

  /** A pixel written grey and opaque reads back as its grey level over 255. */
  lemma WrittenPixelReadsBack(data: seq<byte>, imageWidth: int, x: int, y: int, v: byte)
    requires 0 <= PixelOffset(imageWidth, x, y) && PixelOffset(imageWidth, x, y) + 3 < |data|
    ensures GetPixelLuminance(WritePixel(data, PixelOffset(imageWidth, x, y), v), imageWidth, x, y)
         == Ok(v as real / 255.0)
  {
    var o := PixelOffset(imageWidth, x, y);
    var w := WritePixel(data, o, v);
    assert w[o] == v && w[o + 1] == v && w[o + 2] == v && w[o + 3] == 255;
  }

  /** A black-or-white opaque pixel passes the validator with luminance 0 or 1. */
  lemma BinaryPixelLuminance(data: seq<byte>, imageWidth: int, x: int, y: int)
    requires 0 <= PixelOffset(imageWidth, x, y) && PixelOffset(imageWidth, x, y) + 3 < |data|
    requires IsBinaryPixel(data, PixelOffset(imageWidth, x, y))
    ensures GetPixelLuminance(data, imageWidth, x, y) == Ok(0.0)
         || GetPixelLuminance(data, imageWidth, x, y) == Ok(1.0)
  {
  }
}
