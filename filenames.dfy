/**
 * The two independent copies of the output-filename rule: the server's
 * `generateOutputFileName` and the page's `getClientSideOutputFileName`.
 * Both drop the text from the last '.' on and append either
 * `-icons.zip` (ICO bundles) or `.` plus the lower-cased format.
 */
module FileNames {
  import opened Text

  /**
   * The server's stem: `name.substring(0, name.lastIndexOf('.')) || name`.
   * `substring(0, -1)` and `substring(0, 0)` are both empty, and the empty
   * string is falsy, so a name without a dot or whose only dot is its first
   * character is kept whole.
   */
  function ServerStem(name: string): (stem: string)
    ensures stem == name <==> (name == [] || '.' !in name[1..])
    ensures stem != name ==>
      0 < |stem| < |name| && name[..|stem|] == stem &&
      name[|stem|] == '.' && '.' !in name[|stem| + 1..]
  {
    var i := LastIndexOf(name, '.');
    if i <= 0 then
      assert i == 0 ==> name[1..] == name[i + 1..];
      name
    else
      assert name[i] in name[1..];
      name[..i]
  }

  /** The server's `generateOutputFileName(originalName, targetFormat, isZip)`. */
  function GenerateOutputFileName(name: string, format: string, isZip: bool): string
  {
    if isZip then ServerStem(name) + "-icons.zip"
    else ServerStem(name) + "." + Lower(format)
  }

  /**
   * The page's stem: `dotIndex === -1 ? name : name.substring(0, dotIndex)`;
   * a leading dot gives the empty stem.
   */
  function ClientStem(name: string): (stem: string)
    ensures stem == name <==> '.' !in name
    ensures '.' in name ==>
      |stem| < |name| && name[..|stem|] == stem &&
      name[|stem|] == '.' && '.' !in name[|stem| + 1..]
  {
    var i := LastIndexOf(name, '.');
    if i == -1 then name else name[..i]
  }

  /** The page's `getClientSideOutputFileName(originalName, targetFormatValue)`. */
  function ClientOutputFileName(name: string, format: string): string
  {
    if Lower(format) == "ico" then ClientStem(name) + "-icons.zip"
    else ClientStem(name) + "." + Lower(format)
  }

  /** The last '.' of `base + "." + ext` is the one before `ext` when `ext` has none. */
  lemma LastDotOfSplit(base: string, ext: string)
    requires '.' !in ext
    ensures LastIndexOf(base + "." + ext, '.') == |base|
  {
    var s := base + "." + ext;
    var r := LastIndexOf(s, '.');
    assert s[|base|] == '.';
    assert s[|base| + 1..] == ext;
  }

  /**
   * The server replaces the extension of `base.ext` (with a non-empty base)
   * by the lower-cased format, or by `-icons.zip` for a bundle.
   */
  lemma ServerSubstitutesExtension(base: string, ext: string, format: string)
    requires base != [] && '.' !in ext
    ensures GenerateOutputFileName(base + "." + ext, format, false) == base + "." + Lower(format)
    ensures GenerateOutputFileName(base + "." + ext, format, true) == base + "-icons.zip"
  {
    LastDotOfSplit(base, ext);
    assert (base + "." + ext)[..|base|] == base;
  }

  /** The page replaces the extension of `base.ext`, for any base including the empty one. */
  lemma ClientSubstitutesExtension(base: string, ext: string, format: string)
    requires '.' !in ext
    ensures Lower(format) != "ico" ==> ClientOutputFileName(base + "." + ext, format) == base + "." + Lower(format)
    ensures Lower(format) == "ico" ==> ClientOutputFileName(base + "." + ext, format) == base + "-icons.zip"
  {
    LastDotOfSplit(base, ext);
    assert (base + "." + ext)[..|base|] == base;
  }

  /** A name without any dot is kept whole by both sides. */
  lemma NoDotKeepsWholeName(name: string, format: string)
    requires '.' !in name
    ensures GenerateOutputFileName(name, format, false) == name + "." + Lower(format)
    ensures GenerateOutputFileName(name, format, true) == name + "-icons.zip"
    ensures Lower(format) != "ico" ==> ClientOutputFileName(name, format) == name + "." + Lower(format)
  {
    if name != [] {
      assert forall k :: 0 <= k < |name| - 1 ==> name[1..][k] == name[k + 1];
    }
  }

  /**
   * How the server names a successful conversion for the format the client
   * asked for: the bundle name for `ico`, the lower-cased format otherwise
   * (route.ts lines 70, 79 and 92).
   */
  function ServerNameFor(name: string, format: string): string
  {
    var lower := Lower(format);
    if lower == "ico" then GenerateOutputFileName(name, "ico", true)
    else GenerateOutputFileName(name, lower, false)
  }

  /** Server and page agree on every name whose last '.' is not its first character. */
  lemma ClientServerAgree(name: string, format: string)
    requires LastIndexOf(name, '.') != 0
    ensures ServerNameFor(name, format) == ClientOutputFileName(name, format)
  {
    LowerIdempotent(format);
  }

  /**
   * The two copies disagree on a name whose only '.' is its first character:
   * the page's stem is empty, the server keeps the whole name.
   */
  lemma {:induction false} LeadingDotOnlyDisagrees(name: string, format: string)
    requires name != [] && name[0] == '.' && '.' !in name[1..]
    ensures LastIndexOf(name, '.') == 0
    ensures ClientStem(name) == [] && ServerStem(name) == name
    ensures ServerNameFor(name, format) != ClientOutputFileName(name, format)
  {
    LowerIdempotent(format);
    assert name[0 + 1..] == name[1..];
  }

  /** Worked example: `photo.JPG` converted to png. */
  lemma PngExample()
    ensures ServerNameFor("photo.JPG", "png") == "photo.png"
  {
    ServerSubstitutesExtension("photo", "JPG", "png");
    assert Lower("png") == "png";
    assert ServerNameFor("photo" + "." + "JPG", "png") == "photo.png";
    assert "photo" + "." + "JPG" == "photo.JPG";
  }

  /** Worked example: `photo.JPG` converted to ico. */
  lemma IcoExample()
    ensures ServerNameFor("photo.JPG", "ico") == "photo-icons.zip"
  {
    ServerSubstitutesExtension("photo", "JPG", "ico");
    assert Lower("ico") == "ico";
    assert ServerNameFor("photo" + "." + "JPG", "ico") == "photo-icons.zip";
    assert "photo" + "." + "JPG" == "photo.JPG";
  }

  /** Worked example: `photo`, without extension, converted to webp. */
  lemma WebpExample()
    ensures ServerNameFor("photo", "webp") == "photo.webp"
  {
    assert Lower("webp") == "webp";
    NoDotKeepsWholeName("photo", "webp");
  }

  /** The dot-file example: `.png` to webp. */
  lemma DotFileExample()
    ensures ServerNameFor(".png", "webp") == ".png.webp"
    ensures ClientOutputFileName(".png", "webp") == ".webp"
  {
    assert "" + "." + "png" == ".png";
    assert Lower("webp") == "webp";
    LeadingDotOnlyDisagrees(".png", "webp");
    ClientSubstitutesExtension("", "png", "webp");
  }
}
