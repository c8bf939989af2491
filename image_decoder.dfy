/**
 * load_image_new (gl_texture.c): open the texture file, check the PNG
 * signature, read the header, warn about non-power-of-two dimensions,
 * accept only 8-bit RGBA, then decode into a bottom-up RGBA buffer.
 */
module ImageDecoder {
  import opened Wrappers
  import opened PowerOfTwo
  import opened RowLayout

  /** The 8-byte PNG file signature (section 5.2 of the PNG specification, ISO/IEC 15948). */
  const PNG_SIGNATURE: seq<byte> := [137, 80, 78, 71, 13, 10, 26, 10]

  /** PNG_COLOR_TYPE_RGB_ALPHA: colour type 6, truecolour with alpha. */
  const PNG_COLOR_TYPE_RGB_ALPHA := 6

  /** The only bit depth accepted. */
  const REQUIRED_BIT_DEPTH := 8

  /**
   * What libpng would report for the file: the (at most 8) bytes fread
   * reads as the header, the IHDR fields, and the decoded rows, each
   * w * 4 bytes for an 8-bit RGBA image.
   */
  datatype PngFile = PngFile(
    header: seq<byte>,
    width: int,
    height: int,
    colorType: int,
    bitDepth: int,
    rows: seq<seq<byte>>)

  datatype Dims = Dims(width: int, height: int)

  /** Why load_image_new returned NULL. */
  datatype DecodeError = CannotOpen | NotPng | UnsupportedFormat

  /**
   * The observable side effects besides the result: the error line, the
   * non-power-of-two warning, and whether the FILE handle is left open.
   */
  datatype LoadLog = LoadLog(error: Option<DecodeError>, warnedNonPowerOfTwo: bool, leaksFileHandle: bool)

  /** png_sig_cmp(header, 0, 8) == 0. */
  predicate HasPngSignature(header: seq<byte>)
  {
    header == PNG_SIGNATURE
  }

  /**
   * What libpng guarantees once png_read_info returns (it aborts the
   * process otherwise): dimensions in 1 .. 2^31 - 1, and for an 8-bit RGBA
   * image, height rows of w * 4 bytes.
   */
  ghost predicate LibpngReadable(f: PngFile)
  {
    && 1 <= f.width <= INT32_MAX
    && 1 <= f.height <= INT32_MAX
    && (f.colorType == PNG_COLOR_TYPE_RGB_ALPHA && f.bitDepth == REQUIRED_BIT_DEPTH ==>
          |f.rows| == f.height && Uniform(f.rows, Stride(f.width)))
  }

  /**
   * The accept/reject decision, in the order the checks run: a file that
   * cannot be opened, then a wrong signature, then anything but 8-bit RGBA.
   * The dimensions play no part.
   */
  function Rejection(file: Option<PngFile>): (e: Option<DecodeError>)
    ensures e == Some(CannotOpen) <==> file.None?
    ensures e == Some(NotPng) <==> file.Some? && !HasPngSignature(file.value.header)
    // the format is only examined once the signature matched
    ensures e == Some(UnsupportedFormat) <==>
              file.Some? && HasPngSignature(file.value.header) &&
              (file.value.colorType != PNG_COLOR_TYPE_RGB_ALPHA || file.value.bitDepth != REQUIRED_BIT_DEPTH)
    ensures e == None ==>
              file.Some? && HasPngSignature(file.value.header) &&
              file.value.colorType == PNG_COLOR_TYPE_RGB_ALPHA && file.value.bitDepth == REQUIRED_BIT_DEPTH
  {
    if file.None? then Some(CannotOpen)
    else if !HasPngSignature(file.value.header) then Some(NotPng)
    else if file.value.colorType != PNG_COLOR_TYPE_RGB_ALPHA || file.value.bitDepth != REQUIRED_BIT_DEPTH then
      Some(UnsupportedFormat)
    else None
  }

  /** Non-power-of-two dimensions only warn: changing them never changes the decision. */
  lemma DimensionsNeverRejected(f: PngFile, w: int, h: int)
    ensures Rejection(Some(f.(width := w, height := h))) == Rejection(Some(f))
  {
  }

  /**
   * load_image_new. `file` is None when fopen fails. The result is a fresh
   * w * h * 4 byte buffer holding the file's rows last row first, or null;
   * no buffer exists on any failure path. `dims` is what *w and *h receive:
   * they are written once the header is read, also when the format is then
   * rejected.
   */
  method LoadImageNew(file: Option<PngFile>) returns (buf: array?<byte>, dims: Option<Dims>, log: LoadLog)
    requires file.Some? && HasPngSignature(file.value.header) ==> LibpngReadable(file.value)
    ensures buf == null <==> Rejection(file).Some?
    ensures log.error == Rejection(file)
    ensures dims == if Rejection(file) in {Some(CannotOpen), Some(NotPng)} then None
                    else Some(Dims(file.value.width, file.value.height))
    ensures log.warnedNonPowerOfTwo <==>
              Rejection(file) !in {Some(CannotOpen), Some(NotPng)} &&
              !(IsPowerOfTwo(file.value.width) && IsPowerOfTwo(file.value.height))
    ensures log.leaksFileHandle <==> Rejection(file) == Some(UnsupportedFormat)
    ensures buf != null ==>
              && fresh(buf)
              && buf.Length == file.value.width * file.value.height * BYTES_PER_PIXEL
              && buf[..] == Flatten(Reverse(file.value.rows))
  {
    if file.None? {
      return null, None, LoadLog(Some(CannotOpen), false, false);
    }
    var f := file.value;
    if !HasPngSignature(f.header) {
      // the FILE is closed before returning
      return null, None, LoadLog(Some(NotPng), false, false);
    }
    var w, h := f.width, f.height;
    dims := Some(Dims(w, h));
    var wIsPowerOfTwo := PowerOf2(w);
    var warned := !wIsPowerOfTwo;
    if wIsPowerOfTwo {
      var hIsPowerOfTwo := PowerOf2(h);
      warned := !hIsPowerOfTwo;
    }
    if f.colorType != PNG_COLOR_TYPE_RGB_ALPHA || f.bitDepth != REQUIRED_BIT_DEPTH {
      // the read structs are destroyed but the FILE is not closed
      return null, dims, LoadLog(Some(UnsupportedFormat), warned, true);
    }
    buf := new byte[ImageBytes(w, h)];
    var rowPointers := ComputeRowPointers(w, h);
    RowPointersBottomUp(rowPointers, w, h);
    ReadImage(f.rows, rowPointers, buf, Stride(w));
    log := LoadLog(None, warned, false);
  }
}
