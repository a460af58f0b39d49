/**
 * The converter page: its state (selected file, target format, quality,
 * error text, busy flag), the drop handler's extension filter, the form it
 * submits and how it names the download.
 */
module Page {
  import opened Common
  import opened Text
  import opened FileNames
  import opened Quality
  import opened ContentDisposition
  import opened ConvertRoute

  /** The formats offered by the selector. */
  const AvailableFormats: seq<string> := ["png", "jpeg", "webp", "svg", "ico", "avif"]

  /** The extensions a dropped file may have. */
  const AcceptedTypes: set<string> := {".jpeg", ".jpg", ".png", ".avif", ".svg", ".ico", ".webp"}

  const NoFileSelectedMessage: string := "Please select a file first!"
  const NonJsonMessage: string := "Server error or non-JSON response."

  /** Whether the quality slider applies; compared without lower-casing. */
  predicate IsQualityApplicable(targetFormat: string)
  {
    targetFormat == "jpeg" || targetFormat == "webp" || targetFormat == "avif"
  }

  /**
   * The page and the server agree on which offered formats take a quality;
   * the page's check never admits a format the server would not give one.
   */
  lemma QualityApplicableAgrees(targetFormat: string)
    ensures IsQualityApplicable(targetFormat) ==> HasQuality(Lower(targetFormat))
    ensures targetFormat in AvailableFormats ==>
      (IsQualityApplicable(targetFormat) <==> HasQuality(Lower(targetFormat)))
  {
    assert Lower("jpeg") == "jpeg" && Lower("webp") == "webp" && Lower("avif") == "avif";
    assert Lower("png") == "png" && Lower("svg") == "svg" && Lower("ico") == "ico";
  }

  /**
   * The suffix the drop handler checks: `name.substring(name.lastIndexOf('.'))`
   * lower-cased; `substring(-1)` is the whole name.
   */
  function DroppedExtension(name: string): string
  {
    var i := LastIndexOf(name, '.');
    Lower(if i == -1 then name else name[i..])
  }

  /** `acceptedTypes.includes(fileType)`. */
  predicate IsAcceptedDrop(name: string)
  {
    DroppedExtension(name) in AcceptedTypes
  }

  /**
   * A dropped file is accepted exactly when its name has a '.' and the text
   * after the last one lower-cases to an accepted extension; a name without
   * a dot (even `png`) is refused.
   */
  lemma AcceptedDropHasExtension(name: string)
    ensures IsAcceptedDrop(name) <==>
      '.' in name && "." + Lower(name[LastIndexOf(name, '.') + 1..]) in AcceptedTypes
  {
    if '.' in name {
      DottedNameChecked(name);
    } else {
      NoDotRefused(name);
    }
  }

  /** With a '.', the checked suffix is a dot followed by the lower-cased extension. */
  lemma DroppedAfterDot(name: string)
    requires '.' in name
    ensures var d := DroppedExtension(name);
      |d| >= 1 && d[0] == '.' && d[1..] == Lower(name[LastIndexOf(name, '.') + 1..])
  {
    var i := LastIndexOf(name, '.');
    var suffix := name[i..];
    assert suffix[1..] == name[i + 1..];
    LowerTail(suffix);
  }

  /** With a '.', the drop is accepted exactly when the extension is. */
  lemma DottedNameChecked(name: string)
    requires '.' in name
    ensures IsAcceptedDrop(name) <==> "." + Lower(name[LastIndexOf(name, '.') + 1..]) in AcceptedTypes
  {
    var d := DroppedExtension(name);
    DroppedAfterDot(name);
    assert d == "." + d[1..];
  }

  /** Without a '.', the drop is refused. */
  lemma NoDotRefused(name: string)
    requires '.' !in name
    ensures !IsAcceptedDrop(name)
  {
    if name != [] {
      assert Lower(name)[0] != '.';
    }
    assert forall t :: t in AcceptedTypes ==> t != [] && t[0] == '.';
  }

  /** The message shown for a refused drop. */
  function UnsupportedTypeMessage(extension: string): string
  {
    "Unsupported file type: " + extension + ". Please choose a supported image."
  }

  /** What an error response's body turned out to be. */
  datatype ErrorBody = NotJson | Json(error: Option<string>)

  /** What `fetch` yields: a network failure, or a response. */
  datatype FetchResult =
    | NetworkError(message: string)
    | Reply(ok: bool, status: nat, statusText: string, errorBody: ErrorBody,
            disposition: Option<string>, body: Bytes)

  /** A file handed to the browser for download. */
  datatype Download = Download(fileName: string, content: Bytes)

  /** The message the page shows for a response that is not ok. */
  function FailureMessage(status: nat, statusText: string, errorBody: ErrorBody): string
  {
    match errorBody
    case NotJson => NonJsonMessage
    case Json(error) =>
      if error.Some? && error.value != "" then error.value
      else "Server error: " + NatToString(status) + " " + statusText
  }

  /** How a response of the handler reaches the page. */
  function Deliver(response: Response): FetchResult
  {
    match response
    case Converted(body, _, disposition) => Reply(true, 200, "OK", NotJson, Some(disposition), body)
    case Failed(status, message) => Reply(false, status, "", Json(Some(message)), None, [])
  }

  /** The page shows the server's error text as the server sent it. */
  lemma ServerErrorReachesPage(status: nat, message: string)
    requires message != ""
    ensures var reply := Deliver(Failed(status, message));
      !reply.ok && FailureMessage(reply.status, reply.statusText, reply.errorBody) == message
  {
  }

  /**
   * The page downloads a converted file with the server's bytes, under the
   * name the server put in the header.
   */
  lemma DownloadNameReachesPage(body: Bytes, contentType: string, name: string, default: string)
    requires name != []
    requires forall i :: 0 <= i < |name| ==> name[i] != '"' && !IsLineTerminator(name[i])
    ensures var reply := Deliver(Converted(body, contentType, Attachment(name)));
      reply.ok && reply.body == body && ExtractFilename(reply.disposition, default) == name
  {
    AttachmentRoundTrip(name, default);
  }

  /**
   * The form the page submits: the file, the format as selected, and the
   * slider's quality only when quality applies.
   */
  function BuildForm(file: Upload, targetFormat: string, qualityPercent: int): (form: Request)
    ensures form.quality.Percent? <==> IsQualityApplicable(targetFormat)
    ensures form.quality.Missing? <==> !IsQualityApplicable(targetFormat)
  {
    Request(Some(file), Some(targetFormat), if IsQualityApplicable(targetFormat) then Percent(qualityPercent) else Missing)
  }

  /**
   * For a format the page offers, the encoder gets the page's quality,
   * clamped, exactly when it takes one: the server's default of 92 never
   * applies to the page's own requests.
   */
  lemma PageQualityReachesEncoder(file: Upload, targetFormat: string, qualityPercent: int)
    requires targetFormat in AvailableFormats
    ensures QualitySetting(Lower(targetFormat), BuildForm(file, targetFormat, qualityPercent).quality) ==
      if IsQualityApplicable(targetFormat) then Some(Clamp(qualityPercent)) else None
  {
    QualityApplicableAgrees(targetFormat);
  }

  /** The page's state. */
  class Page {
    var selectedFile: Option<Upload>
    var targetFormat: string
    var isConverting: bool
    var error: Option<string>
    var conversionQuality: int  // the slider, as a percentage

    /** The initial state: nothing selected, png, quality 0.92. */
    constructor ()
      ensures selectedFile == None && targetFormat == "png" && !isConverting
      ensures error == None && conversionQuality == 92
    {
      selectedFile := None;
      targetFormat := "png";
      isConverting := false;
      error := None;
      conversionQuality := 92;
    }

    /** `handleFileSelect`: clears the error and records the selection. */
    method HandleFileSelect(file: Option<Upload>)
      modifies this
      ensures error == None && selectedFile == file
      ensures targetFormat == old(targetFormat) && isConverting == old(isConverting)
      ensures conversionQuality == old(conversionQuality)
    {
      error := None;
      selectedFile := file;
    }

    /**
     * The drop handler as written: a refused file sets the error message and
     * then calls `handleFileSelect(null)`, which clears it again.
     */
    method HandleDropAsWritten(dropped: seq<Upload>)
      modifies this
      ensures targetFormat == old(targetFormat) && isConverting == old(isConverting)
      ensures conversionQuality == old(conversionQuality)
      ensures old(isConverting) ==> selectedFile == old(selectedFile) && error == old(error)
      ensures !old(isConverting) && dropped != [] && IsAcceptedDrop(dropped[0].name) ==>
        selectedFile == Some(dropped[0]) && error == None
      ensures !old(isConverting) && (dropped == [] || !IsAcceptedDrop(dropped[0].name)) ==>
        selectedFile == None && error == None
    {
      if isConverting {
        return;
      }
      if dropped != [] {
        var fileType := DroppedExtension(dropped[0].name);
        if fileType in AcceptedTypes {
          HandleFileSelect(Some(dropped[0]));
        } else {
          error := Some(UnsupportedTypeMessage(fileType));
          HandleFileSelect(None);
        }
      } else {
        HandleFileSelect(None);
      }
    }

    /**
     * The drop handler as evidently intended: a refused file clears the
     * selection and leaves the message naming its extension on screen.
     */
    method HandleDrop(dropped: seq<Upload>)
      modifies this
      ensures targetFormat == old(targetFormat) && isConverting == old(isConverting)
      ensures conversionQuality == old(conversionQuality)
      ensures old(isConverting) ==> selectedFile == old(selectedFile) && error == old(error)
      ensures !old(isConverting) && dropped != [] && IsAcceptedDrop(dropped[0].name) ==>
        selectedFile == Some(dropped[0]) && error == None
      ensures !old(isConverting) && dropped != [] && !IsAcceptedDrop(dropped[0].name) ==>
        selectedFile == None && error == Some(UnsupportedTypeMessage(DroppedExtension(dropped[0].name)))
      ensures !old(isConverting) && dropped == [] ==> selectedFile == None && error == None
    {
      if isConverting {
        return;
      }
      if dropped != [] {
        var fileType := DroppedExtension(dropped[0].name);
        if fileType in AcceptedTypes {
          HandleFileSelect(Some(dropped[0]));
        } else {
          HandleFileSelect(None);
          error := Some(UnsupportedTypeMessage(fileType));
        }
      } else {
        HandleFileSelect(None);
      }
    }

    /**
     * `handleSubmit`: without a selection it only sets an error. Otherwise it
     * submits the form and either downloads the result under the name taken
     * from the response header (the page's own name as default) or shows an
     * error; the busy flag is clear again at the end.
     */
    method HandleSubmit(fetch: Request -> FetchResult) returns (sent: Option<Request>, download: Option<Download>)
      modifies this
      ensures selectedFile == old(selectedFile) && targetFormat == old(targetFormat)
      ensures conversionQuality == old(conversionQuality)
      ensures old(selectedFile).None? ==>
        sent == None && download == None && error == Some(NoFileSelectedMessage) &&
        isConverting == old(isConverting)
      ensures old(selectedFile).Some? ==>
        var file := old(selectedFile).value;
        var form := BuildForm(file, targetFormat, conversionQuality);
        var result := fetch(form);
        && sent == Some(form)
        && !isConverting
        && (result.NetworkError? ==> download == None && error == Some(result.message))
        && (result.Reply? && !result.ok ==>
              download == None && error == Some(FailureMessage(result.status, result.statusText, result.errorBody)))
        && (result.Reply? && result.ok ==>
              error == None &&
              download == Some(Download(ExtractFilename(result.disposition, ClientOutputFileName(file.name, targetFormat)), result.body)))
    {
      if selectedFile.None? {
        error := Some(NoFileSelectedMessage);
        return None, None;
      }
      var file := selectedFile.value;
      isConverting := true;
      error := None;

      var form := BuildForm(file, targetFormat, conversionQuality);
      sent := Some(form);
      var result := fetch(form);
      download := None;
      if result.NetworkError? {
        error := Some(result.message);
      } else if !result.ok {
        error := Some(FailureMessage(result.status, result.statusText, result.errorBody));
      } else {
        var filename := ClientOutputFileName(file.name, targetFormat);
        var disposition := result.disposition;
        if disposition.Some? && Contains(disposition.value, "attachment") {
          var header := disposition.value;
          var matches := Exec(header, 0);
          if matches.Some? && matches.value.Quoted? && matches.value.token != [] {
            filename := matches.value.token;
          } else if matches.Some? && matches.value.Unquoted? && matches.value.token != [] {
            filename := matches.value.token;
          } else if Contains(header, "filename=") {
            filename := SplitFallback(header);
          }
        }
        download := Some(Download(filename, result.body));
      }
      isConverting := false;
    }
  }

  /** `photo.bmp` is checked as `.bmp`, which is refused. */
  lemma BmpIsRefused()
    ensures DroppedExtension("photo.bmp") == ".bmp"
    ensures !IsAcceptedDrop("photo.bmp")
  {
    var name := "photo.bmp";
    assert name == "photo" + "." + "bmp";
    LastDotOfSplit("photo", "bmp");
    DroppedAfterDot(name);
    assert name[6..] == "bmp";
    assert Lower("bmp") == "bmp";
  }

  /**
   * Dropping `photo.bmp` on a fresh page with the handler as written leaves
   * no selection and no error message: the refusal is not shown.
   */
  method RefusedDropAsWritten() returns (shown: Option<string>, selection: Option<Upload>)
    ensures shown == None && selection == None
  {
    var page := new Page();
    var bmp := Upload("photo.bmp", "image/bmp", []);
    BmpIsRefused();
    page.HandleDropAsWritten([bmp]);
    shown, selection := page.error, page.selectedFile;
  }

  /** The same drop with the corrected handler shows the refusal. */
  method RefusedDrop() returns (shown: Option<string>, selection: Option<Upload>)
    ensures shown == Some(UnsupportedTypeMessage(".bmp"))
    ensures selection == None
  {
    var page := new Page();
    var bmp := Upload("photo.bmp", "image/bmp", []);
    BmpIsRefused();
    page.HandleDrop([bmp]);
    shown, selection := page.error, page.selectedFile;
  }
}
