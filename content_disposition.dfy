/**
 * The `Content-Disposition` header: the value the server emits for a
 * converted file, and how the page recovers a download name from it. The
 * page runs the regular expression
 *   filename[^;=\n]*=((['"])(.*?)\2|([^;\n]*))   (case-insensitive)
 * and, when neither capture is a non-empty string, falls back to splitting
 * the header on `filename=`. The expression is modelled by hand below, one
 * function per part, with the leftmost-match search of `exec`.
 */
module ContentDisposition {
  import opened Common
  import opened Text

  /** The header value the server sends with a converted file. */
  function Attachment(fileName: string): string
  {
    "attachment; filename=\"" + fileName + "\""
  }

  /**
   * A character `Headers.set` accepts in a value: the value is converted to
   * a byte string, which fails above U+00FF, and a value holding NUL, CR or
   * LF is refused.
   */
  predicate HeaderByte(c: char)
  {
    c <= '\U{FF}' && c != '\0' && c != '\r' && c != '\n'
  }

  /** Every character of `s` is one `Headers.set` accepts. */
  predicate HeaderSafe(s: string)
  {
    forall i :: 0 <= i < |s| ==> HeaderByte(s[i])
  }

  /** The header for a file name is accepted exactly when the name itself is. */
  lemma AttachmentHeaderSafe(fileName: string)
    ensures HeaderSafe(Attachment(fileName)) <==> HeaderSafe(fileName)
  {
    var h := Attachment(fileName);
    var n := |"attachment; filename=\""|;
    assert forall i :: 0 <= i < |fileName| ==> h[n + i] == fileName[i];
    if HeaderSafe(fileName) {
      forall i | 0 <= i < |h|
        ensures HeaderByte(h[i])
      {
        if n <= i < n + |fileName| {
          assert h[i] == fileName[i - n];
        }
      }
    }
  }

  /** The characters the regular-expression `.` does not match. */
  predicate IsLineTerminator(c: char)
  {
    c == '\n' || c == '\r' || c == '\U{2028}' || c == '\U{2029}'
  }

  /** What the expression captured: the quoted token or the unquoted one. */
  datatype Capture = Quoted(token: string) | Unquoted(token: string)

  /** `filename`, compared without regard to ASCII case, starts at `p`. */
  predicate KeywordAt(s: string, p: nat)
  {
    p + 8 <= |s| && Lower(s[p..p + 8]) == "filename"
  }

  /** Where `[^;=\n]*` stops when started at `i`. */
  function ParamNameEnd(s: string, i: nat): (k: nat)
    requires i <= |s|
    ensures i <= k <= |s|
    ensures forall j :: i <= j < k ==> s[j] != ';' && s[j] != '=' && s[j] != '\n'
    ensures k < |s| ==> s[k] == ';' || s[k] == '=' || s[k] == '\n'
    decreases |s| - i
  {
    if i == |s| || s[i] == ';' || s[i] == '=' || s[i] == '\n' then i
    else ParamNameEnd(s, i + 1)
  }

  /**
   * Where the lazy `.*?` followed by the opening quote `q` finds its closing
   * quote when started at `i`; None when a line terminator or the end of the
   * header comes first.
   */
  function ClosingQuote(s: string, i: nat, q: char): (r: Option<nat>)
    requires i <= |s|
    ensures r.Some? ==> i <= r.value < |s| && s[r.value] == q
    ensures r.Some? ==> forall j :: i <= j < r.value ==> s[j] != q && !IsLineTerminator(s[j])
    decreases |s| - i
  {
    if i == |s| then None
    else if s[i] == q then Some(i)
    else if IsLineTerminator(s[i]) then None
    else ClosingQuote(s, i + 1, q)
  }

  /** Where the greedy `[^;\n]*` stops when started at `i`. */
  function UnquotedEnd(s: string, i: nat): (k: nat)
    requires i <= |s|
    ensures i <= k <= |s|
    ensures forall j :: i <= j < k ==> s[j] != ';' && s[j] != '\n'
    ensures k < |s| ==> s[k] == ';' || s[k] == '\n'
    decreases |s| - i
  {
    if i == |s| || s[i] == ';' || s[i] == '\n' then i
    else UnquotedEnd(s, i + 1)
  }

  /**
   * The alternation after `=`: a quoted token when a quote opens and closes,
   * otherwise the unquoted alternative, which always matches.
   */
  function ValueAt(s: string, v: nat): Capture
    requires v <= |s|
  {
    if v < |s| && (s[v] == '\'' || s[v] == '"') then
      match ClosingQuote(s, v + 1, s[v])
      case Some(k) => Quoted(s[v + 1..k])
      case None => Unquoted(s[v..UnquotedEnd(s, v)])
    else Unquoted(s[v..UnquotedEnd(s, v)])
  }

  /** The expression attempted at position `p` only. */
  function MatchAt(s: string, p: nat): Option<Capture>
  {
    if !KeywordAt(s, p) then None
    else
      var e := ParamNameEnd(s, p + 8);
      if e < |s| && s[e] == '=' then Some(ValueAt(s, e + 1)) else None
  }

  /** `exec`: the match at the leftmost position, at or after `p`, where one exists. */
  function Exec(s: string, p: nat): Option<Capture>
    decreases |s| - p
  {
    if p + 8 > |s| then None
    else if MatchAt(s, p).Some? then MatchAt(s, p)
    else Exec(s, p + 1)
  }

  /** `.replace(/['"]/g, '')`. */
  function RemoveQuotes(s: string): (r: string)
    ensures forall i :: 0 <= i < |r| ==> r[i] != '\'' && r[i] != '"'
    ensures forall c :: c in r ==> c in s
  {
    if s == [] then []
    else if s[0] == '\'' || s[0] == '"' then RemoveQuotes(s[1..])
    else [s[0]] + RemoveQuotes(s[1..])
  }

  /**
   * `header.split('filename=')[1].split(';')[0]` with the quotes removed: the
   * text after the first `filename=`, up to the next `filename=` and then up
   * to the first `;`.
   */
  function SplitFallback(header: string): string
    requires Contains(header, "filename=")
  {
    var i := IndexOf(header, "filename=");
    var after := header[i + 9..];
    var j := IndexOf(after, "filename=");
    var piece := if j == -1 then after else after[..j];
    var k := IndexOf(piece, ";");
    RemoveQuotes(if k == -1 then piece else piece[..k])
  }

  /**
   * The download name the page settles on: the default unless the header is
   * present and mentions `attachment`; then a non-empty quoted capture, else
   * a non-empty unquoted capture, else the split fallback when the header
   * contains `filename=`, else the default.
   */
  function ExtractFilename(disposition: Option<string>, default: string): (name: string)
    ensures disposition.None? ==> name == default
    ensures disposition.Some? && !(exists j :: OccursAt(disposition.value, "attachment", j)) ==> name == default
  {
    if disposition.None? then default
    else
      ContainsIff(disposition.value, "attachment");
      if !Contains(disposition.value, "attachment") then default
      else
        var header := disposition.value;
        var m := Exec(header, 0);
        if m.Some? && m.value.Quoted? && m.value.token != [] then m.value.token
        else if m.Some? && m.value.Unquoted? && m.value.token != [] then m.value.token
        else if Contains(header, "filename=") then SplitFallback(header)
        else default
  }

  /** The search skips positions where nothing matches. */
  lemma {:induction false} ExecSkips(s: string, p: nat, q: nat)
    requires p <= q && q + 8 <= |s|
    requires forall i :: p <= i < q ==> !KeywordAt(s, i)
    ensures Exec(s, p) == Exec(s, q)
    decreases q - p
  {
    if p < q {
      ExecSkips(s, p + 1, q);
    }
  }

  /** The search finds a match whenever one exists at or after its start. */
  lemma {:induction false} ExecFinds(s: string, p: nat, q: nat)
    requires p <= q && MatchAt(s, q).Some?
    ensures Exec(s, p).Some?
    decreases q - p
  {
    if p < q && MatchAt(s, p).None? {
      ExecFinds(s, p + 1, q);
    }
  }

  /** The closing quote is the first `q`, when no line terminator comes before it. */
  lemma {:induction false} ClosingQuoteFinds(s: string, i: nat, q: char, k: nat)
    requires i <= k < |s| && s[k] == q
    requires forall j :: i <= j < k ==> s[j] != q && !IsLineTerminator(s[j])
    ensures ClosingQuote(s, i, q) == Some(k)
    decreases k - i
  {
    if i < k {
      ClosingQuoteFinds(s, i + 1, q, k);
    }
  }

  /**
   * The page gets back the name the server sent: for a non-empty name with
   * no double quote and no line terminator, `attachment; filename="N"` gives N.
   */
  lemma AttachmentRoundTrip(fileName: string, default: string)
    requires fileName != []
    requires forall i :: 0 <= i < |fileName| ==> fileName[i] != '"' && !IsLineTerminator(fileName[i])
    ensures ExtractFilename(Some(Attachment(fileName)), default) == fileName
  {
    var h := Attachment(fileName);
    var prefix := "attachment; filename=\"";
    assert h == prefix + fileName + "\"";
    assert h[..22] == prefix;
    assert forall i :: 0 <= i < 22 ==> h[i] == prefix[i];
    assert h[..10] == "attachment";
    assert OccursAt(h, "attachment", 0);
    assert Contains(h, "attachment");
    assert h[12..20] == "filename";
    assert Lower("filename") == "filename";
    forall i | 0 <= i < 12
      ensures !KeywordAt(h, i)
    {
      assert Lower(h[i..i + 8])[0] == LowerChar(h[i]);
    }
    ExecSkips(h, 0, 12);
    assert KeywordAt(h, 12);
    assert ParamNameEnd(h, 20) == 20;
    assert h[21] == '"';
    forall j | 22 <= j < 22 + |fileName|
      ensures h[j] == fileName[j - 22]
    {
    }
    ClosingQuoteFinds(h, 22, '"', 22 + |fileName|);
    assert h[22..22 + |fileName|] == fileName;
  }

  /**
   * The unquoted form `filename=V`, where V does not open with a quote, gives
   * the longest prefix of V holding no `;` and no newline, when it is not empty.
   */
  lemma UnquotedForm(token: string, rest: string, default: string)
    requires token != [] && token[0] != '\'' && token[0] != '"'
    requires forall i :: 0 <= i < |token| ==> token[i] != ';' && token[i] != '\n'
    requires rest == [] || rest[0] == ';' || rest[0] == '\n'
    ensures ExtractFilename(Some("attachment; filename=" + token + rest), default) == token
  {
    var h := "attachment; filename=" + token + rest;
    var prefix := "attachment; filename=";
    assert h == prefix + (token + rest);
    assert forall i :: 0 <= i < 21 ==> h[i] == prefix[i];
    assert h[..10] == "attachment";
    assert OccursAt(h, "attachment", 0);
    assert h[12..20] == "filename";
    assert Lower("filename") == "filename";
    forall i | 0 <= i < 12
      ensures !KeywordAt(h, i)
    {
      assert Lower(h[i..i + 8])[0] == LowerChar(h[i]);
    }
    ExecSkips(h, 0, 12);
    assert ParamNameEnd(h, 20) == 20;
    forall j | 21 <= j < 21 + |token|
      ensures h[j] == token[j - 21]
    {
    }
    assert h[21..21 + |token|] == token;
  }

  /**
   * The split fallback is reached only when the expression matched but
   * captured an empty string: whenever the header contains `filename=`, the
   * expression matches somewhere.
   */
  lemma FallbackNeedsEmptyCapture(header: string)
    requires Contains(header, "filename=")
    ensures Exec(header, 0).Some?
  {
    var q := IndexOf(header, "filename=");
    assert header[q..q + 9] == "filename=";
    assert header[q..q + 8] == header[q..q + 9][..8];
    assert header[q + 8] == '=';
    assert Lower("filename") == "filename";
    assert KeywordAt(header, q);
    assert ParamNameEnd(header, q + 8) == q + 8;
    ExecFinds(header, 0, q);
  }
}
