/** The compression wrapper: mime-type and extension tables, the per-format
    encoder options, the compression ratio, and the decode-encode-wrap step.
    The decoder and the five encoders are parameters: their internals are not modelled. */
module Compression {
  import opened Wrappers
  import opened Types
  import opened IP = ImageProcessor

  /** The decoded pixels handed to every encoder. */
  datatype ImageData = ImageData(width: nat, height: nat, data: seq<byte>)

  /** The option object given to an encoder: a numeric quality, or nothing at all. */
  datatype EncodeOptions = Quality(quality: real) | NoOptions

  /** What a compression delivers: the blob, its size, the percentage saved and the mime type. */
  datatype CompressionResult = CompressionResult(data: Blob, size: nat, compressionRatio: Ratio, mimeType: string)

  /** A ratio as a JavaScript number can hold it: a whole percentage, or the two values
      a zero original size yields, `-Infinity` and `NaN`. */
  datatype Ratio = Percent(value: int) | NegativeInfinity | NotANumber

  /** The errors a compression can end in; each one is passed on to the caller. */
  datatype CompressError =
    | DecodeFailed(message: string)
    | UnsupportedFormat(format: string)
    | EncodeFailed(message: string)

  /** The decoder: a file becomes pixels or fails. */
  type Decoder = File -> Result<ImageData, string>

  /** The encoder of each format: pixels and options become bytes or fail. */
  type Encoder = (IP.OutputFormat, ImageData, EncodeOptions) -> Result<seq<byte>, string>

  /** The format a string names, as the `switch` statements compare it; `None` for any other string. */
  function ParseFormat(format: string): (r: Option<IP.OutputFormat>)
    ensures r.Some? ==> IP.FormatTag(r.value) == format
    ensures r.None? ==> forall f :: IP.FormatTag(f) != format
  {
    if format == "AVIF" then Some(IP.AVIF)
    else if format == "JPEG" then Some(IP.JPEG)
    else if format == "JXL" then Some(IP.JXL)
    else if format == "PNG" then Some(IP.PNG)
    else if format == "WEBP" then Some(IP.WEBP)
    else None
  }

  /** Parsing recovers the format from its tag. */
  lemma ParseFormatTag(f: IP.OutputFormat)
    ensures ParseFormat(IP.FormatTag(f)) == Some(f)
  {
  }

  /** The mime type of a format; any unknown string gets the JPEG type. */
  function GetMimeType(format: string): (r: string)
    ensures |r| > 6 && r[..6] == "image/"
    ensures ParseFormat(format).None? ==> r == "image/jpeg"
  {
    match ParseFormat(format)
    case Some(AVIF) => "image/avif"
    case Some(JPEG) => "image/jpeg"
    case Some(JXL) => "image/jxl"
    case Some(PNG) => "image/png"
    case Some(WEBP) => "image/webp"
    case None => "image/jpeg"
  }

  /** The file extension of a format; JPEG and any unknown string get "jpg". */
  function GetFileExtension(format: string): (r: string)
    ensures IsLowerAscii(r) && 3 <= |r| <= 4
    ensures ParseFormat(format).None? ==> r == "jpg"
  {
    match ParseFormat(format)
    case Some(AVIF) => "avif"
    case Some(JPEG) => "jpg"
    case Some(JXL) => "jxl"
    case Some(PNG) => "png"
    case Some(WEBP) => "webp"
    case None => "jpg"
  }

  /** The mime-type table as the source states it; distinct formats get distinct types,
      and an unknown string gets JPEG's. */
  lemma MimeTypeTable(f: IP.OutputFormat, g: IP.OutputFormat, other: string)
    requires ParseFormat(other).None?
    ensures GetMimeType("AVIF") == "image/avif" && GetMimeType("JPEG") == "image/jpeg"
    ensures GetMimeType("JXL") == "image/jxl" && GetMimeType("PNG") == "image/png"
    ensures GetMimeType("WEBP") == "image/webp"
    ensures GetMimeType(IP.FormatTag(f)) == GetMimeType(IP.FormatTag(g)) ==> f == g
    ensures GetMimeType(other) == GetMimeType("JPEG")
  {
    ParseFormatTag(f);
    ParseFormatTag(g);
  }

  /** The extension table as the source states it; distinct formats get distinct extensions,
      and an unknown string gets JPEG's. */
  lemma ExtensionTable(f: IP.OutputFormat, g: IP.OutputFormat, other: string)
    requires ParseFormat(other).None?
    ensures GetFileExtension("AVIF") == "avif" && GetFileExtension("JPEG") == "jpg"
    ensures GetFileExtension("JXL") == "jxl" && GetFileExtension("PNG") == "png"
    ensures GetFileExtension("WEBP") == "webp"
    ensures GetFileExtension(IP.FormatTag(f)) == GetFileExtension(IP.FormatTag(g)) ==> f == g
    ensures GetFileExtension(other) == GetFileExtension("JPEG")
  {
    ParseFormatTag(f);
    ParseFormatTag(g);
  }

  /** The mime type is "image/" followed by the extension for every format except JPEG,
      whose extension is "jpg" while its mime type ends in "jpeg". */
  lemma MimeTypeIsImageSlashExtension(f: IP.OutputFormat)
    ensures GetMimeType(IP.FormatTag(f)) == "image/" + GetFileExtension(IP.FormatTag(f)) <==> f != IP.JPEG
  {
    ParseFormatTag(f);
  }

  /** ASCII lower-casing, to relate the upper-case format tags to the lower-case output types. */
  function LowerAscii(s: string): (r: string)
    ensures |r| == |s|
    ensures forall k :: 0 <= k < |s| && 'A' <= s[k] <= 'Z' ==> r[k] as int == s[k] as int + 32
    ensures forall k :: 0 <= k < |s| && !('A' <= s[k] <= 'Z') ==> r[k] == s[k]
  {
    if s == [] then []
    else [if 'A' <= s[0] <= 'Z' then (s[0] as int + 32) as char else s[0]] + LowerAscii(s[1..])
  }

  /** The output type whose tag is the lower-cased format tag. */
  function OutputTypeOf(f: IP.OutputFormat): (t: OutputType)
    ensures OutputTypeName(t) == LowerAscii(IP.FormatTag(f))
  {
    match f
    case AVIF => Avif
    case JPEG => Jpeg
    case JXL => Jxl
    case PNG => Png
    case WEBP => Webp
  }

  /** The extension table agrees with the lower-case output type for every format but JPEG:
      there the extension is "jpg" while the output type is "jpeg". */
  lemma ExtensionMatchesOutputType(f: IP.OutputFormat)
    ensures GetFileExtension(IP.FormatTag(f)) == OutputTypeName(OutputTypeOf(f)) <==> f != IP.JPEG
  {
    ParseFormatTag(f);
  }

  /** The options each encoder receives: AVIF and JXL take the quality divided by 100,
      JPEG and WEBP take it unchanged, PNG takes no options. */
  function EncoderOptions(f: IP.OutputFormat, quality: int): (r: EncodeOptions)
    ensures r.NoOptions? <==> f == IP.PNG
    ensures (f == IP.AVIF || f == IP.JXL) ==> r.Quality? && r.quality * 100.0 == quality as real
    ensures (f == IP.JPEG || f == IP.WEBP) ==> r == Quality(quality as real)
  {
    match f
    case AVIF => Quality(quality as real / 100.0)
    case JPEG => Quality(quality as real)
    case JXL => Quality(quality as real / 100.0)
    case PNG => NoOptions
    case WEBP => Quality(quality as real)
  }

  /** A slider quality of 1..100 becomes a fraction in 0.01..1 for the fractional encoders;
      50 becomes 0.5, and PNG's options do not depend on the quality. */
  lemma FractionalQuality(f: IP.OutputFormat, quality: int, other: int)
    requires f == IP.AVIF || f == IP.JXL
    requires 1 <= quality <= 100
    ensures 0.01 <= EncoderOptions(f, quality).quality <= 1.0
    ensures EncoderOptions(f, 50) == Quality(0.5)
    ensures EncoderOptions(IP.PNG, quality) == EncoderOptions(IP.PNG, other)
  {
  }

  /** `Math.round`: the nearest integer, halves rounded up. */
  function RoundHalfUp(x: real): (n: int)
    ensures n as real - 0.5 <= x < n as real + 0.5
  {
    (x + 0.5).Floor
  }

  /** The percentage saved, `round((originalSize - compressedSize) / originalSize * 100)`,
      computed on exact rationals. A zero original size divides by zero: `0 / 0` is `NaN`,
      a negative numerator over zero is `-Infinity`, and rounding keeps either. */
  function CalculateCompressionRatio(originalSize: nat, compressedSize: nat): (r: Ratio)
    ensures r.Percent? <==> originalSize > 0
    ensures originalSize == 0 ==> (r == NotANumber <==> compressedSize == 0)
    ensures r.Percent? ==>
      r.value == (200 * (originalSize - compressedSize) + originalSize) / (2 * originalSize)
    ensures r.Percent? ==> r.value <= 100
    ensures r.Percent? && compressedSize == 0 ==> r.value == 100
    ensures r.Percent? && compressedSize == originalSize ==> r.value == 0
    ensures compressedSize < originalSize ==> r.Percent? && r.value >= 0
    ensures r.Percent? && compressedSize > originalSize ==> r.value <= 0
    ensures r.Percent? ==> (r.value < 0 <==> 200 * (compressedSize - originalSize) > originalSize)
  {
    if originalSize == 0 then
      if compressedSize == 0 then NotANumber else NegativeInfinity
    else
      var rounded := RoundHalfUp((originalSize - compressedSize) as real / originalSize as real * 100.0);
      RoundingScaled(originalSize, compressedSize, rounded);
      RatioFacts(originalSize, compressedSize, rounded);
      Percent(rounded)
  }

  /** Scaling the rounding bounds by `2 * o` turns them into integer bounds. */
  lemma RoundingScaled(o: int, c: int, r: int)
    requires o > 0
    requires r as real - 0.5 <= (o - c) as real / o as real * 100.0 < r as real + 0.5
    ensures 2 * o * r <= 200 * (o - c) + o < 2 * o * r + 2 * o
  {
    LowerScaled(o, c, r);
    UpperScaled(o, c, r);
  }

  lemma LowerScaled(o: int, c: int, r: int)
    requires o > 0
    requires r as real - 0.5 <= (o - c) as real / o as real * 100.0
    ensures 2 * o * r - o <= 200 * (o - c)
  {
    MulLeReal(r as real - 0.5, (o - c) as real / o as real * 100.0, 2.0 * o as real);
    ScaledValue(o, c);
    ScaledBounds(o, r);
  }

  lemma UpperScaled(o: int, c: int, r: int)
    requires o > 0
    requires (o - c) as real / o as real * 100.0 < r as real + 0.5
    ensures 200 * (o - c) < 2 * o * r + o
  {
    MulLtReal((o - c) as real / o as real * 100.0, r as real + 0.5, 2.0 * o as real);
    ScaledValue(o, c);
    ScaledBounds(o, r);
  }

  lemma ScaledValue(o: int, c: int)
    requires o > 0
    ensures 2.0 * o as real * ((o - c) as real / o as real * 100.0) == (200 * (o - c)) as real
  {
    var y := (o - c) as real / o as real;
    assert y * o as real == (o - c) as real;
  }

  lemma ScaledBounds(o: int, r: int)
    ensures 2.0 * o as real * (r as real - 0.5) == (2 * o * r - o) as real
    ensures 2.0 * o as real * (r as real + 0.5) == (2 * o * r + o) as real
  {
    CastMul(2 * o, r);
  }

  /** What the integer bounds on the rounded ratio imply. */
  lemma RatioFacts(o: int, c: int, r: int)
    requires o > 0 && c >= 0
    requires 2 * o * r <= 200 * (o - c) + o < 2 * o * r + 2 * o
    ensures r == (200 * (o - c) + o) / (2 * o)
    ensures r <= 100
    ensures c == 0 ==> r == 100
    ensures c == o ==> r == 0
    ensures c < o ==> r >= 0
    ensures c > o ==> r <= 0
    ensures r < 0 <==> 200 * (c - o) > o
  {
    var n, d := 200 * (o - c) + o, 2 * o;
    DivBetween(n, d, r);
    assert d * r < d * 101;
    MulCancelLt(d, r, 101);
    if c == 0 {
      DivBetween(n, d, 100);
    }
    if c == o {
      DivBetween(n, d, 0);
    }
    if c < o {
      assert d * -1 < d * r;
      MulCancelLt(d, -1, r);
    }
    if c > o {
      assert d * r < d * 1;
      MulCancelLt(d, r, 1);
    }
    if r < 0 {
      MulMonoLe(d, r + 1, 0);
    }
    if n < 0 {
      assert d * r < d * 0;
      MulCancelLt(d, r, 0);
    }
  }

  lemma CastMul(a: int, b: int)
    ensures (a * b) as real == a as real * b as real
  {
  }

  lemma MulLeReal(a: real, b: real, k: real)
    requires a <= b && k > 0.0
    ensures k * a <= k * b
  {
  }

  lemma MulLtReal(a: real, b: real, k: real)
    requires a < b && k > 0.0
    ensures k * a < k * b
  {
  }

  lemma MulCancelLt(d: int, a: int, b: int)
    requires d > 0 && d * a < d * b
    ensures a < b
  {
  }

  lemma MulMonoLe(d: int, a: int, b: int)
    requires d > 0 && a <= b
    ensures d * a <= d * b
  {
  }

  /** A quotient is determined by the bounds it leaves the dividend between. */
  lemma DivBetween(n: int, d: int, q: int)
    requires d > 0 && d * q <= n < d * q + d
    ensures n / d == q
  {
    var quotient := n / d;
    assert d * quotient <= n < d * quotient + d;
    assert d * q < d * (quotient + 1);
    MulCancelLt(d, q, quotient + 1);
    assert d * quotient < d * (q + 1);
    MulCancelLt(d, quotient, q + 1);
  }

  /** Decode, pick the options for the format, encode, and wrap the bytes with their size,
      the ratio against the file size and the mime type. Every failure is handed back. */
  function CompressImage(file: File, format: string, quality: int, decode: Decoder, encode: Encoder)
    : (r: Result<CompressionResult, CompressError>)
    ensures decode(file).Err? ==> r == Err(DecodeFailed(decode(file).error))
    ensures decode(file).Ok? && ParseFormat(format).None? ==> r == Err(UnsupportedFormat(format))
    ensures decode(file).Ok? && ParseFormat(format).Some? ==>
      var f := ParseFormat(format).value;
      var encoded := encode(f, decode(file).value, EncoderOptions(f, quality));
      (encoded.Err? ==> r == Err(EncodeFailed(encoded.error))) &&
      (encoded.Ok? ==> r.Ok? && r.value.data.bytes == encoded.value)
    ensures r.Ok? ==>
      && r.value.size == |r.value.data.bytes|
      && r.value.mimeType == GetMimeType(format)
      && r.value.data.mimeType == r.value.mimeType
      && r.value.compressionRatio == CalculateCompressionRatio(file.Size(), r.value.size)
  {
    match decode(file)
    case Err(e) => Err(DecodeFailed(e))
    case Ok(imageData) =>
      var mimeType := GetMimeType(format);
      match ParseFormat(format)
      case None => Err(UnsupportedFormat(format))
      case Some(f) =>
        match encode(f, imageData, EncoderOptions(f, quality))
        case Err(e) => Err(EncodeFailed(e))
        case Ok(buffer) =>
          var blobType := match f
            case AVIF => "image/avif"
            case JPEG => "image/jpeg"
            case JXL => "image/jxl"
            case PNG => "image/png"
            case WEBP => "image/webp";
          var compressedData := Blob(buffer, blobType);
          var compressionRatio := CalculateCompressionRatio(file.Size(), |compressedData.bytes|);
          Ok(CompressionResult(compressedData, |compressedData.bytes|, compressionRatio, mimeType))
  }

  /** The PNG result does not depend on the requested quality. */
  lemma PngIgnoresQuality(file: File, q1: int, q2: int, decode: Decoder, encode: Encoder)
    ensures CompressImage(file, "PNG", q1, decode, encode) == CompressImage(file, "PNG", q2, decode, encode)
  {
  }
}
