/**
 * ImageValidationService.ValidationImage: refuses files over 10 MiB, picks
 * a codec from the lower-cased file extension, checks the codec's magic
 * number and then re-encodes the image without its metadata. The stream
 * read, Path.GetExtension and File.WriteAllBytes are replaced by inputs (the
 * bytes and the extension) and by the Written outcome carrying the bytes
 * that would be written.
 */
module ImageValidation {
  import opened ImageFormat
  import Gif
  import Jpeg
  import Png

  /** The size cap: 10 * 1024 * 1024 bytes. */
  const MaxImageSize: nat := 10 * 1024 * 1024

  /** The three codecs of the extension switch. */
  datatype Codec = PngCodec | JpegCodec | GifCodec

  /**
   * What one call does: Written(image) when it returns true after writing
   * image to the file, Refused when it returns false, Thrown when an
   * exception escapes it (the magic-number check indexes past a short input
   * and nothing catches that).
   */
  datatype Outcome = Written(image: seq<byte>) | Refused | Thrown

  /** char.ToLower on the ASCII letters; every other character is kept. */
  function LowerChar(c: char): (r: char)
    ensures 'A' <= c <= 'Z' ==> r as int == c as int + 32
    ensures !('A' <= c <= 'Z') ==> r == c
    ensures !('A' <= r <= 'Z')
  {
    if 'A' <= c <= 'Z' then (c as int + 32) as char else c
  }

  /** string.ToLower, restricted to ASCII case mapping. */
  function ToLower(s: string): (r: string)
    ensures |r| == |s|
    ensures forall i :: 0 <= i < |s| ==> r[i] == LowerChar(s[i])
  {
    if s == [] then [] else [LowerChar(s[0])] + ToLower(s[1..])
  }

  /** Lower-casing twice is lower-casing once. */
  lemma ToLowerIdempotent(s: string)
    ensures ToLower(ToLower(s)) == ToLower(s)
  {
    var once := ToLower(s);
    assert forall i :: 0 <= i < |once| ==> LowerChar(once[i]) == once[i];
  }

  /** The extension switch: which codec a lower-cased extension selects, None for the default branch. */
  function CodecFor(extension: string): (r: Option<Codec>)
    ensures r == Some(PngCodec) <==> ToLower(extension) == ".png"
    ensures r == Some(JpegCodec) <==> ToLower(extension) in {".jpg", ".jpeg"}
    ensures r == Some(GifCodec) <==> ToLower(extension) == ".gif"
  {
    var lower := ToLower(extension);
    if lower == ".png" then Some(PngCodec)
    else if lower == ".jpg" || lower == ".jpeg" then Some(JpegCodec)
    else if lower == ".gif" then Some(GifCodec)
    else None
  }

  /** The extension is matched case-insensitively: "IMG.PNG" and "img.png" select the same codec. */
  lemma CodecForIgnoresCase(extension: string)
    ensures CodecFor(ToLower(extension)) == CodecFor(extension)
  {
    ToLowerIdempotent(extension);
  }

  /** The selected codec's magic-number check (CheckMagicNumber for PNG, CheckImageData otherwise). */
  function Detect(codec: Codec, data: seq<byte>): Option<bool>
  {
    match codec
    case PngCodec => Png.Detect(data)
    case JpegCodec => Jpeg.Detect(data)
    case GifCodec => Gif.Detect(data)
  }

  /** The selected codec's metadata stripping, called only once its magic number has matched. */
  function Strip(codec: Codec, data: seq<byte>): Option<seq<byte>>
    requires Detect(codec, data) == Some(true)
  {
    match codec
    case PngCodec => Png.Strip(data)
    case JpegCodec => Jpeg.Strip(data)
    case GifCodec => Gif.Strip(data)
  }

  /**
   * Stripped output of a recognised image is no longer than the input and is
   * itself recognised by the same codec.
   */
  lemma StripShrinksAndKeepsSignature(codec: Codec, data: seq<byte>)
    requires Detect(codec, data) == Some(true) && Strip(codec, data).Some?
    ensures |Strip(codec, data).value| <= |data|
    ensures Detect(codec, Strip(codec, data).value) == Some(true)
  {
    match codec
    case PngCodec => Png.StripKeepsSignature(data);
    case JpegCodec => Jpeg.StripKeepsSignature(data);
    case GifCodec => Gif.StripKeepsSignature(data);
  }

  /**
   * The part of ValidationImage after the switch: the magic number, then the
   * strip; the stripped image is written only when both pass.
   */
  function Check(codec: Codec, data: seq<byte>): (r: Outcome)
    ensures r.Written? <==> Detect(codec, data) == Some(true) && Strip(codec, data).Some?
    ensures r.Written? ==> r.image == Strip(codec, data).value
    ensures r.Written? ==> |r.image| <= |data|
    ensures r.Written? ==> Detect(codec, r.image) == Some(true)
    ensures r.Thrown? <==> Detect(codec, data).None?
    ensures r.Thrown? ==> |data| < 8
  {
    match Detect(codec, data)
    case None => Thrown
    case Some(false) => Refused
    case Some(true) =>
      match Strip(codec, data)
      case None => Refused
      case Some(image) =>
        StripShrinksAndKeepsSignature(codec, data);
        Written(image)
  }

  /**
   * The decision ValidationImage makes: size cap first, then the extension,
   * then the magic number, then the strip; only when all pass is the
   * stripped image written.
   */
  function Validate(data: seq<byte>, extension: string): (r: Outcome)
    ensures |data| > MaxImageSize ==> r == Refused
    ensures CodecFor(extension).None? ==> r == Refused
    ensures r.Written? <==>
      |data| <= MaxImageSize && CodecFor(extension).Some? &&
      Detect(CodecFor(extension).value, data) == Some(true) &&
      Strip(CodecFor(extension).value, data).Some?
    ensures r.Written? ==> r.image == Strip(CodecFor(extension).value, data).value
    ensures r.Written? ==> |r.image| <= |data|
    ensures r.Written? ==> Detect(CodecFor(extension).value, r.image) == Some(true)
    ensures r.Thrown? ==> CodecFor(extension).Some? && |data| < 8
  {
    if |data| > MaxImageSize then Refused
    else
      match CodecFor(extension)
      case None => Refused
      case Some(codec) => Check(codec, data)
  }

  /** Upper- and lower-case spellings of an extension lead to the same outcome. */
  lemma ValidateIgnoresCase(data: seq<byte>, extension: string)
    ensures Validate(data, ToLower(extension)) == Validate(data, extension)
  {
    CodecForIgnoresCase(extension);
  }

  /**
   * ValidationImage: the size cap, then the switch on the lower-cased
   * extension; the image File.WriteAllBytes would receive is returned in
   * Written.
   */
  method ValidationImage(data: Bytes, extension: string) returns (r: Outcome)
    ensures r == Validate(data, extension)
  {
    if |data| > MaxImageSize {
      return Refused;
    }
    var lower := ToLower(extension);
    if lower == ".png" {
      r := CheckPng(data);
    } else if lower == ".jpg" || lower == ".jpeg" {
      r := CheckJpeg(data);
    } else if lower == ".gif" {
      r := CheckGif(data);
    } else {
      r := Refused;
    }
  }

  /** The ".png" case: a PngImageFormatDto checks the magic number, then strips; ImageData is the result. */
  method CheckPng(data: Bytes) returns (r: Outcome)
    ensures r == Check(PngCodec, data)
  {
    var dto := new Png.PngImageFormat();
    var detected := dto.CheckMagicNumber(data);
    if detected.None? {
      return Thrown;
    }
    if !detected.value {
      return Refused;
    }
    var ok := dto.CreateImageNoMetaInfo(data);
    if !ok {
      return Refused;
    }
    r := Written(dto.ImageData()[..]);
  }

  /** The ".jpg"/".jpeg" case, with a JpegImageFormatDto. */
  method CheckJpeg(data: Bytes) returns (r: Outcome)
    ensures r == Check(JpegCodec, data)
  {
    var dto := new Jpeg.JpegImageFormat();
    var detected := dto.CheckImageData(data);
    if detected.None? {
      return Thrown;
    }
    if !detected.value {
      return Refused;
    }
    var ok := dto.CreateImageDataNoMetaInfo(data);
    if !ok {
      return Refused;
    }
    r := Written(dto.ImageData()[..]);
  }

  /** The ".gif" case, with a GifImageFormatDto. */
  method CheckGif(data: Bytes) returns (r: Outcome)
    ensures r == Check(GifCodec, data)
  {
    var dto := new Gif.GifImageFormat();
    var detected := dto.CheckImageData(data);
    if detected.None? {
      return Thrown;
    }
    if !detected.value {
      return Refused;
    }
    var ok := dto.CreateImageDataNoMetaInfo(data);
    if !ok {
      return Refused;
    }
    r := Written(dto.ImageData()[..]);
  }
}
