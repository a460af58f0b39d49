/**
 * Encoder settings for the re-encoded raster formats: which formats take a
 * quality, how a requested quality becomes the encoder's integer percentage,
 * the MIME type of the result and the encoder the image library is asked for.
 */
module Quality {
  import opened Common

  /**
   * The `quality` form field as the server sees it. The float parsing and
   * `Math.round(q * 100)` are outside the model: a parsed value arrives here
   * already as an integer percentage.
   */
  datatype QualityField =
    | Missing          // no field, or the empty string (both falsy)
    | Unparseable      // `parseFloat` gives NaN
    | Percent(p: int)  // `Math.round(parseFloat(q) * 100)`

  /** The formats whose encoder takes a quality setting. */
  predicate HasQuality(format: string)
  {
    format == "jpeg" || format == "webp" || format == "avif"
  }

  /** The quality used when none is requested. */
  const DefaultQuality: int := 92

  /** `Math.max(1, Math.min(100, p))`. */
  function Clamp(p: int): (q: int)
    ensures 1 <= q <= 100
    ensures 1 <= p <= 100 ==> q == p
    ensures p < 1 ==> q == 1
    ensures p > 100 ==> q == 100
  {
    var capped := if p < 100 then p else 100;
    if 1 < capped then capped else 1
  }

  /** The options object handed to the encoder; only its quality is ever set. */
  datatype EncodeOptions = EncodeOptions(quality: Option<int>)

  /**
   * The quality the encoder is given for a lower-cased raster format. It is
   * set only for jpeg, webp and avif (so never for png, nor for the alias
   * jpg), and then it is the clamped request, or 92 when none was sent; an
   * unparseable request sets nothing.
   */
  function QualitySetting(format: string, field: QualityField): (r: Option<int>)
    ensures r.Some? <==> HasQuality(format) && !field.Unparseable?
    ensures r.Some? ==> 1 <= r.value <= 100
    ensures field.Missing? && r.Some? ==> r.value == DefaultQuality
    ensures field.Percent? && r.Some? ==> r.value == Clamp(field.p)
  {
    if !HasQuality(format) then None
    else match field
      case Missing => Some(DefaultQuality)
      case Unparseable => None
      case Percent(p) => Some(Clamp(p))
  }

  /**
   * Builds the options object the way the handler does: start empty, then
   * assign `quality` on the branch that applies.
   */
  method BuildOptions(format: string, field: QualityField) returns (options: EncodeOptions)
    ensures options.quality == QualitySetting(format, field)
  {
    options := EncodeOptions(None);
    if !field.Missing? {
      if field.Percent? {
        var qualityInt := field.p;
        if HasQuality(format) {
          options := options.(quality := Some(Clamp(qualityInt)));
        }
      }
    } else if HasQuality(format) {
      options := options.(quality := Some(DefaultQuality));
    }
  }

  /** The lower-cased target formats that are re-encoded by the image library. */
  predicate IsRaster(format: string)
  {
    format == "png" || format == "jpeg" || format == "jpg" || format == "webp" || format == "avif"
  }

  /** The encoder the image library is asked for: jpg is encoded as jpeg. */
  function EncoderName(format: string): string
  {
    if format == "jpg" then "jpeg" else format
  }

  /** The MIME type of a re-encoded result. */
  function MimeType(format: string): string
  {
    "image/" + EncoderName(format)
  }

  /**
   * Two formats get the same MIME type exactly when they are the same format
   * or are jpg and jpeg.
   */
  lemma MimeTypeAliases(f: string, g: string)
    ensures MimeType(f) == MimeType(g) <==> (f == g || (f in {"jpg", "jpeg"} && g in {"jpg", "jpeg"}))
  {
    if MimeType(f) == MimeType(g) {
      assert MimeType(f)[6..] == EncoderName(f);
      assert MimeType(g)[6..] == EncoderName(g);
    }
  }

  /** The worked examples: 1.5 gives 100, 0 gives 1, nothing gives 92, png ignores quality. */
  lemma QualityExamples()
    ensures QualitySetting("jpeg", Percent(150)) == Some(100)
    ensures QualitySetting("webp", Percent(0)) == Some(1)
    ensures QualitySetting("avif", Missing) == Some(92)
    ensures QualitySetting("png", Percent(50)) == None
    ensures QualitySetting("jpg", Percent(50)) == None && QualitySetting("jpg", Missing) == None
  {
  }
}
