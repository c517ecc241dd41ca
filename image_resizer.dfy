/**
 * The resizer class (library/ImageResizer.cs): cover-fit-and-crop geometry,
 * the JPEG quality guard, the first-match encoder lookup and the file-level
 * format dispatch. Images are known to the model only by their pixel size;
 * drawing, decoding and writing files are foreign calls, recorded as values.
 */
module ImageResizer {
  import opened Wrappers
  import opened CSharpInt

  datatype VerticalAlign = Top | Middle | Bottom
  datatype HorizontalAlign = Left | Middle | Right

  /** The pixel extent of an image: `Image.Width` and `Image.Height`. */
  datatype Size = Size(width: int, height: int)

  /** A decoded image always has positive extents. */
  predicate Positive(s: Size) {
    s.width > 0 && s.height > 0
  }

  /** The arguments of one `Graphics.DrawImage(img, x, y, width, height)` call. */
  datatype DrawRect = DrawRect(x: int, y: int, width: int, height: int)

  /** The bitmap `Convert` returns: its size and the draws made on it, in order. */
  datatype Canvas = Canvas(width: int, height: int, draws: seq<DrawRect>)

  /**
   * The rectangle, drawn onto a `width` x `height` canvas, leaves no pixel of
   * the canvas uncovered (what falls outside the canvas is cropped).
   */
  predicate Covers(width: int, height: int, r: DrawRect) {
    r.x <= 0 && r.y <= 0 && r.x + r.width >= width && r.y + r.height >= height
  }

  // ---------------------------------------------------------------------
  // Geometry: Convert(Image img, int height, int width, valign, halign)
  // ---------------------------------------------------------------------

  /**
   * `temp` of the first attempt: the source width times the height ratio,
   * which C# truncates to an integer. Upscaling keeps at least the source
   * width; any downscale of the height gives ratio 0 and so width 0.
   */
  function ScaledWidth(img: Size, height: int): (temp: int)
    requires Positive(img) && height > 0
    ensures 0 <= temp <= img.width * height
    ensures img.height <= height ==> temp >= img.width
    ensures height < img.height <==> temp == 0
  {
    var ratio := TruncDiv(height, img.height);
    ScaleByRatio(img.width, height, img.height);
    img.width * ratio
  }

  /**
   * `temp` of the second attempt: the source height times the width ratio,
   * again truncated (the `float` cast multiplies by an integer ratio).
   */
  function ScaledHeight(img: Size, width: int): (temp: int)
    requires Positive(img) && width > 0
    ensures 0 <= temp <= img.height * width
    ensures img.width <= width ==> temp >= img.height
    ensures width < img.width <==> temp == 0
  {
    var ratio := TruncDiv(width, img.width);
    ScaleByRatio(img.height, width, img.width);
    img.height * ratio
  }

  /** Horizontal offset of a too-wide image that overflows by `overFlow` pixels. */
  function HorizontalOffset(halign: HorizontalAlign, overFlow: int): (x: int)
    ensures overFlow >= 0 ==> -overFlow <= x <= 0
  {
    TruncDivHalf(overFlow);
    match halign
    case Middle => 0 - TruncDiv(overFlow, 2)
    case Left => 0
    case Right => -overFlow
  }

  /**
   * Vertical offset of a too-tall image that overflows by `overFlow` pixels;
   * `overFlow` may be negative, and then the image is pushed down.
   */
  function VerticalOffset(valign: VerticalAlign, overFlow: int): (y: int)
    ensures overFlow >= 0 ==> -overFlow <= y <= 0
    ensures overFlow <= 0 ==> 0 <= y <= -overFlow
  {
    TruncDivHalf(-overFlow);
    match valign
    case Top => 0
    case Middle => TruncDiv(-overFlow, 2)
    case Bottom => -overFlow
  }

  /**
   * The single `DrawImage` rectangle of `Convert`. Whatever the case, the
   * image spans the canvas horizontally, at most one axis is offset, and one
   * axis is drawn at exactly the canvas extent.
   */
  function Resolve(img: Size, height: int, width: int, valign: VerticalAlign, halign: HorizontalAlign): (r: DrawRect)
    requires Positive(img) && height > 0 && width > 0
    ensures r.x <= 0 && r.x + r.width >= width
    ensures r.x == 0 || r.y == 0
    ensures r.width == width || r.height == height
    ensures r.width >= 0 && r.height >= 0
  {
    var temp := ScaledWidth(img, height);
    if temp == width then
      // no corrections are needed
      DrawRect(0, 0, width, height)
    else if temp > width then
      // too wide: crop horizontally
      var overFlow := temp - width;
      DrawRect(HorizontalOffset(halign, overFlow), 0, temp, height)
    else
      // too tall: rescale from the width and crop vertically
      var temp := ScaledHeight(img, width);
      var overFlow := temp - height;
      DrawRect(0, VerticalOffset(valign, overFlow), width, temp)
  }

  /**
   * `Convert(Image, ...)`: a fresh `width` x `height` bitmap with exactly one
   * draw of the source on it, at the rectangle Resolve computes.
   */
  function Convert(img: Size, height: int, width: int, valign: VerticalAlign, halign: HorizontalAlign): (result: Canvas)
    requires Positive(img) && height > 0 && width > 0
    ensures result.width == width && result.height == height
    ensures |result.draws| == 1 && result.draws[0] == Resolve(img, height, width, valign, halign)
  {
    var blank := Canvas(width, height, []);
    blank.(draws := blank.draws + [Resolve(img, height, width, valign, halign)])
  }

  // ---------------------------------------------------------------------
  // Encoding: GetEncoderInfo, SaveJpeg and the file-level Convert
  // ---------------------------------------------------------------------

  /** The `System.Drawing.Imaging.ImageFormat` values. */
  datatype ImageFormat = Bmp | Emf | Exif | Gif | Icon | Jpeg | MemoryBmp | Png | Tiff | Wmf

  /** An entry of the registered encoders: the mime type it is looked up by and the codec it stands for. */
  datatype CodecInfo = CodecInfo(mimeType: string, codecName: string)

  /** An `EncoderParameter` built on `Encoder.Quality`. */
  datatype EncoderParameter = QualityParameter(quality: int)

  /** The one `Image.Save` call that writes the target file. */
  datatype SaveCall =
    | SaveWithEncoder(path: string, image: Canvas, codec: Option<CodecInfo>, parameters: seq<EncoderParameter>)
    | SaveInFormat(path: string, image: Canvas, format: ImageFormat)

  /** `ArgumentOutOfRangeException("Quality must be between 0 and 100.")` */
  datatype SaveError = QualityOutOfRange

  const JpegMimeType: string := "image/jpeg"

  /**
   * `GetEncoderInfo`: the first encoder whose mime type equals `mimeType`,
   * or None (null) when there is none; `encoders` is what
   * `ImageCodecInfo.GetImageEncoders()` returns.
   */
  function GetEncoderInfo(encoders: seq<CodecInfo>, mimeType: string): (r: Option<CodecInfo>)
    ensures r.None? <==> forall i :: 0 <= i < |encoders| ==> encoders[i].mimeType != mimeType
    ensures r.Some? ==> exists i :: 0 <= i < |encoders| && encoders[i] == r.value && r.value.mimeType == mimeType &&
                                    forall j :: 0 <= j < i ==> encoders[j].mimeType != mimeType
    decreases |encoders|
  {
    if |encoders| == 0 then None
    else if encoders[0].mimeType == mimeType then Some(encoders[0])
    else
      var r := GetEncoderInfo(encoders[1..], mimeType);
      assert forall i :: 1 <= i < |encoders| ==> encoders[i] == encoders[1..][i - 1];
      r
  }

  /**
   * `SaveJpeg`: rejects a quality outside 0..100; otherwise saves with the
   * JPEG encoder found by mime type and one quality parameter.
   */
  method SaveJpeg(path: string, img: Canvas, quality: int, encoders: seq<CodecInfo>) returns (r: Result<SaveCall, SaveError>)
    ensures r.Failure? <==> quality < 0 || quality > 100
    ensures r.Failure? ==> r.error == QualityOutOfRange
    ensures r.Success? ==> r.value == SaveWithEncoder(path, img, GetEncoderInfo(encoders, JpegMimeType), [QualityParameter(quality)])
  {
    if quality < 0 || quality > 100 {
      return Failure(QualityOutOfRange);
    }
    var qualityParam := QualityParameter(quality);
    var jpegCodec := GetEncoderInfo(encoders, JpegMimeType);
    var encoderParams := new EncoderParameter[1];
    encoderParams[0] := qualityParam;
    r := Success(SaveWithEncoder(path, img, jpegCodec, encoderParams[..]));
  }

  /**
   * The file-level `Convert`: the decoded source (known by its size) is
   * converted and saved; JPEG goes through SaveJpeg at quality 100, so the
   * quality guard never fires, and every other format through `Image.Save`.
   */
  method ConvertFile(source: Size, targetFile: string, targetFormat: ImageFormat, height: int, width: int,
                     valign: VerticalAlign, halign: HorizontalAlign, encoders: seq<CodecInfo>)
    returns (r: Result<SaveCall, SaveError>)
    requires Positive(source) && height > 0 && width > 0
    ensures r.Success?
    ensures r.value.image == Convert(source, height, width, valign, halign)
    ensures r.value.image.width == width && r.value.image.height == height
    ensures targetFormat == Jpeg ==>
              r.value == SaveWithEncoder(targetFile, r.value.image, GetEncoderInfo(encoders, JpegMimeType), [QualityParameter(100)])
    ensures targetFormat != Jpeg ==> r.value == SaveInFormat(targetFile, r.value.image, targetFormat)
  {
    var targetImg := Convert(source, height, width, valign, halign);
    if targetFormat == Jpeg {
      r := SaveJpeg(targetFile, targetImg, 100, encoders);
    } else {
      r := Success(SaveInFormat(targetFile, targetImg, targetFormat));
    }
  }
}
