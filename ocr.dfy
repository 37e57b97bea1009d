/** Text extraction from raw image bytes (app/ocr.py): decode, convert to
    grayscale, sharpen only when the blur test says so, run OCR once on the
    final grayscale image and join the fragments with single spaces. The
    image library, the blur metric, the sharpening filter and the OCR engine
    are injected as a `Vision` record of functions. */
module Ocr {
  import opened Calls
  import opened PyStr

  /** An unsigned 8-bit value, as `np.uint8`. */
  type Byte = b: int | 0 <= b < 256

  type Bytes = seq<Byte>

  /** A decoded colour image: rows of (blue, green, red) pixels. */
  datatype ColorImage = ColorImage(pixels: seq<seq<(Byte, Byte, Byte)>>)

  /** A single-channel 8-bit image. */
  datatype GrayImage = GrayImage(pixels: seq<seq<Byte>>)

  /** The library calls `extract_text` makes, each of which may raise:
      - decode: `np.frombuffer` then `cv2.imdecode(..., IMREAD_COLOR)`, `None` for bytes that are no image;
      - toGray: `cv2.cvtColor(..., COLOR_BGR2GRAY)`;
      - isBlurry: `_is_blurry` with its defaults (window half-width 60, threshold 32.0);
      - sharpen: `_sharpen_image`, the 7x7 Gaussian unsharp mask;
      - readText: the OCR engine's `readtext(..., detail=0)`, fragments in engine order. */
  datatype Vision = Vision(
    decode: Bytes -> Call<Option<ColorImage>>,
    toGray: ColorImage -> Call<GrayImage>,
    isBlurry: GrayImage -> Call<bool>,
    sharpen: GrayImage -> Call<GrayImage>,
    readText: GrayImage -> Call<seq<string>>)

  /** What `extract_text` returns or raises. */
  datatype Extraction = Text(text: string) | Failed(message: string)

  /** The message of the `ValueError` raised when decoding yields no image. */
  const InvalidImageData: string := "Invalid image data"

  /** The grayscale image handed to OCR, or the exception raised on the way
      there: a failed decode raises `ValueError("Invalid image data")`, and
      the sharpened image replaces the grayscale one when the blur test holds. */
  function OcrInput(v: Vision, bytes: Bytes): (c: Call<GrayImage>)
    ensures v.decode(bytes) == Returned(None) ==> c == Raised(InvalidImageData)
    ensures c.Returned? ==>
      && v.decode(bytes).Returned? && v.decode(bytes).value.Some?
      && v.toGray(v.decode(bytes).value.value).Returned?
      && var gray := v.toGray(v.decode(bytes).value.value).value;
         && v.isBlurry(gray).Returned?
         && c == (if v.isBlurry(gray).value then v.sharpen(gray) else Returned(gray))
  {
    match v.decode(bytes)
    case Raised(m) => Raised(m)
    case Returned(None) => Raised(InvalidImageData)
    case Returned(Some(img)) =>
      match v.toGray(img)
      case Raised(m) => Raised(m)
      case Returned(gray) =>
        match v.isBlurry(gray)
        case Raised(m) => Raised(m)
        case Returned(blurry) => if blurry then v.sharpen(gray) else Returned(gray)
  }

  /** `extract_text(image_bytes)`: every exception is re-raised unchanged. */
  function ExtractText(v: Vision, bytes: Bytes): (r: Extraction)
    ensures v.decode(bytes) == Returned(None) ==> r == Failed(InvalidImageData)
    ensures r.Text? ==>
      && OcrInput(v, bytes).Returned?
      && v.readText(OcrInput(v, bytes).value).Returned?
      && r.text == JoinSpace(v.readText(OcrInput(v, bytes).value).value)
  {
    match OcrInput(v, bytes)
    case Raised(m) => Failed(m)
    case Returned(gray) =>
      match v.readText(gray)
      case Raised(m) => Failed(m)
      case Returned(fragments) => Text(JoinSpace(fragments))
  }

  /** Bytes that decode to no image fail with "Invalid image data", and the
      outcome does not depend on the grayscale conversion, the blur test,
      the sharpening filter or the OCR engine: none of them is reached. */
  lemma InvalidImageStops(v: Vision, w: Vision, bytes: Bytes)
    requires v.decode(bytes) == Returned(None)
    requires w.decode(bytes) == Returned(None)
    ensures ExtractText(v, bytes) == Failed(InvalidImageData)
    ensures ExtractText(w, bytes) == ExtractText(v, bytes)
  {
  }

  /** Sharpening is applied exactly when the blur test holds of the
      grayscale image; otherwise OCR receives that grayscale image as is. */
  lemma SharpenExactlyWhenBlurry(v: Vision, bytes: Bytes, img: ColorImage, gray: GrayImage, blurry: bool)
    requires v.decode(bytes) == Returned(Some(img))
    requires v.toGray(img) == Returned(gray)
    requires v.isBlurry(gray) == Returned(blurry)
    ensures blurry ==> OcrInput(v, bytes) == v.sharpen(gray)
    ensures !blurry ==> OcrInput(v, bytes) == Returned(gray)
  {
  }

  /** OCR runs once, on the final image: the outcome is fixed by what the
      engine returns for that one image, whatever it would do on any other. */
  lemma OcrOnFinalImage(v: Vision, w: Vision, bytes: Bytes, gray: GrayImage)
    requires OcrInput(v, bytes) == Returned(gray)
    requires OcrInput(w, bytes) == Returned(gray)
    requires w.readText(gray) == v.readText(gray)
    ensures ExtractText(w, bytes) == ExtractText(v, bytes)
    ensures v.readText(gray).Raised? ==> ExtractText(v, bytes) == Failed(v.readText(gray).message)
    ensures v.readText(gray).Returned? ==> ExtractText(v, bytes) == Text(JoinSpace(v.readText(gray).value))
  {
  }

  /** A successful extraction is the engine's fragments for the final image
      joined by single spaces; an empty fragment list gives "", one
      fragment comes back unchanged, and space-free fragments can be split
      back out in engine order. */
  lemma TextIsJoinedFragments(v: Vision, bytes: Bytes)
    requires ExtractText(v, bytes).Text?
    ensures OcrInput(v, bytes).Returned?
    ensures v.readText(OcrInput(v, bytes).value).Returned?
    ensures
      var fragments := v.readText(OcrInput(v, bytes).value).value;
      && ExtractText(v, bytes).text == JoinSpace(fragments)
      && (fragments == [] ==> ExtractText(v, bytes).text == "")
      && (|fragments| == 1 ==> ExtractText(v, bytes).text == fragments[0])
      && (|fragments| >= 1 && (forall k | 0 <= k < |fragments| :: ' ' !in fragments[k]) ==>
            SplitSpace(ExtractText(v, bytes).text) == fragments)
  {
    var fragments := v.readText(OcrInput(v, bytes).value).value;
    if |fragments| >= 1 && (forall k | 0 <= k < |fragments| :: ' ' !in fragments[k]) {
      SplitJoin(fragments);
    }
  }

  /** No exception is swallowed: whichever step raises (decode, grayscale,
      blur test, sharpen, OCR), `extract_text` fails with that exception's
      message. */
  lemma ExceptionsReraised(v: Vision, bytes: Bytes)
    ensures v.decode(bytes).Raised? ==> ExtractText(v, bytes) == Failed(v.decode(bytes).message)
    ensures v.decode(bytes).Returned? && v.decode(bytes).value.Some? ==>
      var img := v.decode(bytes).value.value;
      v.toGray(img).Raised? ==> ExtractText(v, bytes) == Failed(v.toGray(img).message)
    ensures v.decode(bytes).Returned? && v.decode(bytes).value.Some? ==>
      var img := v.decode(bytes).value.value;
      v.toGray(img).Returned? ==>
      var gray := v.toGray(img).value;
      && (v.isBlurry(gray).Raised? ==> ExtractText(v, bytes) == Failed(v.isBlurry(gray).message))
      && (v.isBlurry(gray) == Returned(true) && v.sharpen(gray).Raised? ==>
            ExtractText(v, bytes) == Failed(v.sharpen(gray).message))
    ensures OcrInput(v, bytes).Returned? && v.readText(OcrInput(v, bytes).value).Raised? ==>
      ExtractText(v, bytes) == Failed(v.readText(OcrInput(v, bytes).value).message)
  {
  }
}
