/**
 * The conversion endpoint (`POST /api/convert`): validates the form fields,
 * lower-cases the target format and dispatches on it. The image library and
 * the archiver are opaque: each call either yields bytes or fails.
 */
module ConvertRoute {
  import opened Common
  import opened Text
  import opened FileNames
  import opened Quality
  import opened IcoBundle
  import opened ContentDisposition

  /** An uploaded file: its name, its declared MIME type and its content. */
  datatype Upload = Upload(name: string, mimeType: string, content: Bytes)

  /** The form fields the handler reads: `file`, `targetFormat` and `quality`. */
  datatype Request = Request(file: Option<Upload>, targetFormat: Option<string>, quality: QualityField)

  /** A binary response with its headers, or a JSON `{error}` response with its status. */
  datatype Response =
    | Converted(body: Bytes, contentType: string, contentDisposition: string)
    | Failed(status: nat, message: string)

  /** An asynchronous library call that resolves to bytes or throws with a message. */
  datatype Attempt = Done(bytes: Bytes) | Threw(message: string)

  /**
   * The foreign calls. `renderIco` is the resize to a transparent square,
   * the PNG encode and `pngToIco` for one size; `generateZip` is the DEFLATE
   * archive generation; `encode` is the image library's encoder for a named
   * format with the given options. `headerError` is the message of the
   * runtime's `TypeError` when `Headers.set` refuses a value.
   */
  datatype Library = Library(
    renderIco: (Bytes, nat) -> Option<Bytes>,
    generateZip: seq<Entry> -> Attempt,
    encode: (Bytes, string, EncodeOptions) -> Option<Bytes>,
    headerError: string)

  const SvgMime: string := "image/svg+xml"
  const ZipMime: string := "application/zip"
  const NoFileMessage: string := "No file provided."
  const NoFormatMessage: string := "No target format provided."
  const RasterToSvgMessage: string := "Conversion from raster to SVG is not supported by this server."
  const NoIcoMessage: string := "Failed to generate any .ico files for the ZIP."

  /** A form field that is present and not the empty string (truthy). */
  predicate Provided(field: Option<string>)
  {
    field.Some? && field.value != ""
  }

  /** The lower-cased formats the dispatch recognises. */
  predicate IsSupported(format: string)
  {
    format == "ico" || format == "svg" || IsRaster(format)
  }

  /**
   * The last step of every successful branch: the headers are set and the
   * bytes are sent, unless `Headers.set` refuses the `Content-Disposition`
   * value, in which case the outer `catch` answers 500 with the error's
   * message.
   */
  function Respond(body: Bytes, contentType: string, fileName: string, headerError: string): (r: Response)
    ensures r.Converted? <==> HeaderSafe(fileName)
    ensures r.Converted? ==> r == Converted(body, contentType, Attachment(fileName))
    ensures r.Failed? ==> r == Failed(500, headerError)
  {
    AttachmentHeaderSafe(fileName);
    if HeaderSafe(Attachment(fileName)) then Converted(body, contentType, Attachment(fileName))
    else Failed(500, headerError)
  }

  /**
   * The handler. Missing fields are rejected before anything is converted;
   * then the lower-cased format picks the ICO bundle, the SVG pass-through,
   * a raster re-encode, or a 400 naming the format as it was sent.
   */
  method Post(request: Request, lib: Library) returns (response: Response)
    ensures request.file.None? ==> response == Failed(400, NoFileMessage)
    ensures request.file.Some? && !Provided(request.targetFormat) ==> response == Failed(400, NoFormatMessage)
    ensures request.file.Some? && Provided(request.targetFormat) ==>
      var file, format := request.file.value, request.targetFormat.value;
      var lower := Lower(format);
      && (!IsSupported(lower) ==> response == Failed(400, "Unsupported target format: " + format))
      && (lower == "svg" && file.mimeType == SvgMime ==>
            response == Respond(file.content, SvgMime, GenerateOutputFileName(file.name, "svg", false), lib.headerError))
      && (lower == "svg" && file.mimeType != SvgMime ==> response == Failed(400, RasterToSvgMessage))
      && (lower == "ico" ==>
            var entries := IcoEntries(file.content, lib.renderIco, IcoSizes);
            response ==
              if entries == [] then Failed(500, NoIcoMessage)
              else match lib.generateZip(entries)
                case Done(zipBytes) =>
                  Respond(zipBytes, ZipMime, GenerateOutputFileName(file.name, "ico", true), lib.headerError)
                case Threw(message) => Failed(500, message))
      && (IsRaster(lower) ==>
            var encoded := lib.encode(file.content, EncoderName(lower), EncodeOptions(QualitySetting(lower, request.quality)));
            response ==
              if encoded.Some? then
                Respond(encoded.value, MimeType(lower), GenerateOutputFileName(file.name, lower, false), lib.headerError)
              else Failed(500, "Server error converting to " + lower))
  {
    if request.file.None? {
      return Failed(400, NoFileMessage);
    }
    if !Provided(request.targetFormat) {
      return Failed(400, NoFormatMessage);
    }
    var file := request.file.value;
    var targetFormat := request.targetFormat.value;
    var fileBuffer := file.content;
    var outputBuffer: Bytes;
    var outputMimeType: string;
    var outputFileName: string;

    var lowerTargetFormat := Lower(targetFormat);
    if lowerTargetFormat == "ico" {
      var zip, icoFilesGenerated := BuildIcoBundle(fileBuffer, lib.renderIco);
      if icoFilesGenerated == 0 {
        return Failed(500, NoIcoMessage);
      }
      var archive := lib.generateZip(zip.entries);
      if archive.Threw? {
        return Failed(500, archive.message);
      }
      outputBuffer := archive.bytes;
      outputMimeType := ZipMime;
      outputFileName := GenerateOutputFileName(file.name, "ico", true);
    } else if lowerTargetFormat == "svg" {
      if file.mimeType == SvgMime {
        outputBuffer := fileBuffer;
        outputMimeType := SvgMime;
        outputFileName := GenerateOutputFileName(file.name, "svg", false);
      } else {
        return Failed(400, RasterToSvgMessage);
      }
    } else if IsRaster(lowerTargetFormat) {
      outputMimeType := MimeType(lowerTargetFormat);
      outputFileName := GenerateOutputFileName(file.name, lowerTargetFormat, false);
      var options := BuildOptions(lowerTargetFormat, request.quality);
      var encoded := lib.encode(fileBuffer, EncoderName(lowerTargetFormat), options);
      if encoded.None? {
        return Failed(500, "Server error converting to " + lowerTargetFormat);
      }
      outputBuffer := encoded.value;
    } else {
      return Failed(400, "Unsupported target format: " + targetFormat);
    }
    var disposition := Attachment(outputFileName);
    if !HeaderSafe(disposition) {
      return Failed(500, lib.headerError);
    }
    response := Converted(outputBuffer, outputMimeType, disposition);
  }

  /**
   * A file name made of characters `Headers.set` accepts, converted to a
   * format of such characters, always gets its header: the stem is a
   * prefix of the name and lower-casing keeps characters acceptable.
   */
  lemma SafeNameKeepsHeader(name: string, format: string, isZip: bool)
    requires HeaderSafe(name) && HeaderSafe(format)
    ensures HeaderSafe(GenerateOutputFileName(name, format, isZip))
  {
    var stem := ServerStem(name);
    assert HeaderSafe(stem) by {
      assert forall i :: 0 <= i < |stem| ==> stem[i] == name[i];
    }
    if isZip {
      SafeConcat(stem, "-icons.zip");
    } else {
      var lower := Lower(format);
      assert HeaderSafe(lower) by {
        assert forall i :: 0 <= i < |lower| ==> lower[i] == LowerChar(format[i]);
      }
      SafeConcat(stem, ".");
      SafeConcat(stem + ".", lower);
    }
  }

  /** Joining two acceptable values gives an acceptable value. */
  lemma SafeConcat(a: string, b: string)
    requires HeaderSafe(a) && HeaderSafe(b)
    ensures HeaderSafe(a + b)
  {
    assert forall i :: |a| <= i < |a + b| ==> (a + b)[i] == b[i - |a|];
  }

  /**
   * An SVG upload named with characters outside Latin-1 (here U+5199 U+771F)
   * is converted, but its header value is refused, so the answer is a 500.
   */
  lemma NonLatin1NameFails(content: Bytes, headerError: string)
    ensures Respond(content, SvgMime, GenerateOutputFileName("\U{5199}\U{771F}.svg", "svg", false), headerError)
      == Failed(500, headerError)
  {
    var name := "\U{5199}\U{771F}.svg";
    ServerSubstitutesExtension("\U{5199}\U{771F}", "svg", "svg");
    assert name == "\U{5199}\U{771F}" + "." + "svg";
    assert !HeaderByte(GenerateOutputFileName(name, "svg", false)[0]);
  }

  /**
   * A raster file name keeps the extension the client asked for (a jpg
   * request gives `.jpg`) while the MIME type names jpeg.
   */
  lemma JpgKeepsItsExtension(base: string, ext: string)
    requires base != [] && '.' !in ext
    ensures GenerateOutputFileName(base + "." + ext, "jpg", false) == base + ".jpg"
    ensures MimeType("jpg") == "image/jpeg"
  {
    ServerSubstitutesExtension(base, ext, "jpg");
    assert Lower("jpg") == "jpg";
  }
}
