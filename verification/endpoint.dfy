/** The `/parse` endpoint: the extension gate, the download, the choice of
    transcript, the choice between the third-party parser's fields and the
    regular-expression extractor, and the flat response or the HTTP error.

    Every effect (the file system, the network, the PDF and DOCX readers, the
    third-party parser, the environment variable holding its key) is a
    parameter: a `Services` value fixes what each would answer for this
    request. */
module Endpoint {
  import opened Text
  import opened Json
  import Structured
  import Contact
  import Locator

  // ---------------------------------------------------------------------
  // `Path(file_path).suffix.lower()`, on POSIX paths.

  /** The last index below `n` holding `c`, or -1. */
  function LastBelow(s: string, c: char, n: nat): (r: int)
    requires n <= |s|
    ensures -1 <= r < n
    ensures r >= 0 ==> s[r] == c
    ensures forall k :: r < k < n ==> s[k] != c
  {
    if n == 0 then -1
    else if s[n - 1] == c then n - 1
    else LastBelow(s, c, n - 1)
  }

  /** `s.rfind(c)`: the last index holding `c`, or -1. */
  function LastIndex(s: string, c: char): (r: int)
    ensures -1 <= r < |s|
    ensures r >= 0 ==> s[r] == c
    ensures forall k :: r < k < |s| ==> s[k] != c
  {
    LastBelow(s, c, |s|)
  }

  lemma TailAvoids(s: string, c: char, r: int)
    requires -1 <= r < |s|
    requires forall k :: r < k < |s| ==> s[k] != c
    ensures Avoids(s[r + 1..], {c})
  {
    var t := s[r + 1..];
    forall k | 0 <= k < |t| ensures t[k] !in {c} {
      assert t[k] == s[r + 1 + k];
    }
  }

  /** A component that `Path` keeps: neither empty nor `.`. */
  predicate Component(part: string) {
    part != [] && part != "."
  }

  /** `Path(path).name`: the last component, where empty components (from
      repeated or trailing slashes) and `.` components do not count. */
  function Name(path: string): (r: string)
    ensures Avoids(r, {'/'}) && r != "."
    decreases |path|
  {
    var i := LastIndex(path, '/');
    if Component(path[i + 1..]) then
      TailAvoids(path, '/', i);
      path[i + 1..]
    else if i < 0 then []
    else Name(path[..i])
  }

  /** `PurePath.suffix` of a final component: from its last dot on, unless that
      dot starts the name or ends it. */
  function Suffix(name: string): (r: string)
    ensures r != [] ==> 2 <= |r| < |name| && r[0] == '.' && Avoids(r[1..], {'.'})
    ensures r != [] ==> name[|name| - |r|..] == r
  {
    var i := LastIndex(name, '.');
    if 0 < i < |name| - 1 then
      TailAvoids(name, '.', i);
      assert name[i..][1..] == name[i + 1..];
      name[i..]
    else []
  }

  /** `Path(file_path).suffix.lower()`. */
  function FileExtension(path: string): string {
    Lower(Suffix(Name(path)))
  }

  /** An extension is empty, or a dot and at least one more character, with no
      other dot and no upper-case letter. */
  lemma ExtensionShape(path: string)
    ensures var r := FileExtension(path);
            && (r == [] || (2 <= |r| && r[0] == '.' && Avoids(r[1..], {'.'})))
            && NoUpper(r)
  {
    var x := Suffix(Name(path));
    LowerIsLowerCase(x);
    if x != [] {
      var r := FileExtension(path);
      forall k | 0 <= k < |r[1..]| ensures r[1..][k] !in {'.'} {
        assert r[1..][k] == LowerChar(x[k + 1]) && x[k + 1] == x[1..][k];
      }
    }
  }

  const Accepted: seq<string> := [".pdf", ".docx", ".doc"]

  /** `Path(file_path).name or "resume"`, the file name sent to the third-party parser. */
  function UploadName(path: string): (r: string)
    ensures r != []
  {
    if Name(path) != [] then Name(path) else "resume"
  }

  predicate IsUrl(path: string) {
    StartsWith(path, "http://") || StartsWith(path, "https://")
  }

  // ---------------------------------------------------------------------
  // The services a request depends on.

  /** What `download_file_from_storage` does with the path: the file's bytes,
      the 404 case (no such local file, or a URL answered with a status other
      than 200), or any other exception with its message. */
  datatype Download = Fetched(data: seq<bv8>) | NotFound | Broken(message: string)

  /** What a text extractor does with the bytes: the text, or an exception. */
  datatype Extraction = Extracted(text: string) | Raised(message: string)

  /** What `parse_with_affinda` does: its JSON and its transcript (the empty
      string standing for `None`), or any exception. */
  datatype Reply = Answered(response: Json, text: string) | Errored

  /** `json.dumps`: never the empty string. */
  type Dumps = f: Json -> string | forall j :: f(j) != []
    witness (j: Json) => "null"

  datatype Services = Services(
    download: string -> Download,
    affindaKey: string,                              // "" when the variable is unset or empty
    affinda: (seq<bv8>, string, string) -> Reply,    // bytes, file name, key
    pdf: seq<bv8> -> Extraction,
    docx: seq<bv8> -> Extraction,
    dumps: Dumps,
    render: Structured.Render,
    extractors: Contact.Extractors)

  // ---------------------------------------------------------------------
  // The transcript.

  /** `affinda_response` and the text it gave, before local extraction. */
  datatype Transcript = Transcript(response: Option<Json>, text: string)

  /** The third-party parser is asked only when a key is configured; a failure
      leaves nothing behind, and an answer without a transcript is replaced
      by its JSON serialisation. */
  function FromAffinda(svc: Services, path: string, data: seq<bv8>): (t: Transcript)
    ensures t.text != [] <==> t.response.Some?
    ensures svc.affindaKey == [] ==> t.response.None?
    ensures svc.affindaKey != [] && svc.affinda(data, UploadName(path), svc.affindaKey).Answered? ==>
              t.response == Some(svc.affinda(data, UploadName(path), svc.affindaKey).response)
    ensures svc.affindaKey != [] && svc.affinda(data, UploadName(path), svc.affindaKey).Errored? ==>
              t == Transcript(None, [])
  {
    if svc.affindaKey == [] then Transcript(None, [])
    else match svc.affinda(data, UploadName(path), svc.affindaKey)
      case Errored => Transcript(None, [])
      case Answered(resp, text) => Transcript(Some(resp), if text != [] then text else svc.dumps(resp))
  }

  /** The local extractor chosen by the extension. */
  function LocalText(svc: Services, ext: string, data: seq<bv8>): Extraction {
    if ext == ".pdf" then svc.pdf(data)
    else if ext in [".docx", ".doc"] then svc.docx(data)
    else Extracted([])
  }

  /** The text the fields are extracted from, or the exception met getting it. */
  function Transcribe(svc: Services, path: string, ext: string, data: seq<bv8>): (e: Extraction)
    ensures FromAffinda(svc, path, data).response.Some? ==> e == Extracted(FromAffinda(svc, path, data).text)
  {
    var t := FromAffinda(svc, path, data);
    if t.text != [] then Extracted(t.text) else LocalText(svc, ext, data)
  }

  // ---------------------------------------------------------------------
  // The response.

  /** The flat dictionary returned on success. */
  datatype Response = Response(
    success: bool,
    filePath: string,
    fileType: string,
    text: string,
    name: Json,
    email: Json,
    phone: Json,
    address: Json,
    linkedin: Json,
    skills: seq<string>,
    textLength: nat)

  datatype Outcome = Parsed(response: Response) | HttpError(status: int, detail: string)

  /** `value or ''`. */
  function OrEmpty(o: Option<Json>): (r: Json)
    ensures Truthy(r) || r == Str([])
    ensures Structured.Present(o) ==> r == o.value
    ensures !Structured.Present(o) ==> r == Str([])
  {
    if Structured.Present(o) then o.value else Str([])
  }

  function Respond(path: string, ext: string, text: string, f: Structured.Fields): Response {
    Response(true, path, ext, text, OrEmpty(f.fullName), OrEmpty(f.email), OrEmpty(f.phone),
             OrEmpty(f.address), OrEmpty(f.linkedin), f.skills, |text|)
  }

  /** Every contact field holds a truthy value or the empty string, never `None`. */
  predicate Filled(resp: Response) {
    && (Truthy(resp.name) || resp.name == Str([]))
    && (Truthy(resp.email) || resp.email == Str([]))
    && (Truthy(resp.phone) || resp.phone == Str([]))
    && (Truthy(resp.address) || resp.address == Str([]))
    && (Truthy(resp.linkedin) || resp.linkedin == Str([]))
  }

  const Unprocessable := "Failed to extract text from the file. The file might be corrupted or empty."

  function Unsupported(ext: string): string {
    "Unsupported file format: " + ext + ". Supported formats: .pdf, .docx"
  }

  function Missing(path: string): string {
    if IsUrl(path) then "Failed to download file from URL: " + path else "File not found: " + path
  }

  function Internal(message: string): string {
    "Internal error while parsing resume: " + message
  }

  /** `parse_resume(file_path)`. */
  function ParseResume(svc: Services, path: string): (r: Outcome)
    ensures r.HttpError? ==> r.status in {400, 404, 422, 500}
    ensures (r.HttpError? && r.status == 400) <==> FileExtension(path) !in Accepted
    ensures r.Parsed? ==> r.response.success && r.response.filePath == path
    ensures r.Parsed? ==> r.response.fileType == FileExtension(path) && r.response.fileType in Accepted
    ensures r.Parsed? ==> r.response.text != [] && r.response.textLength == |r.response.text|
    ensures r.Parsed? ==> Filled(r.response)
  {
    var ext := FileExtension(path);
    if ext !in Accepted then HttpError(400, Unsupported(ext))
    else match svc.download(path)
      case NotFound => HttpError(404, Missing(path))
      case Broken(message) => HttpError(500, Internal(message))
      case Fetched(data) =>
        match Transcribe(svc, path, ext, data)
        case Raised(message) => HttpError(500, Internal(message))
        case Extracted(text) =>
          if text == [] then HttpError(422, Unprocessable)
          else
            var resp := FromAffinda(svc, path, data).response;
            Parsed(Respond(path, ext, text, Structured.Chosen(resp, svc.render, svc.extractors, text)))
  }

  // ---------------------------------------------------------------------
  // The file extension.

  /** The last `c` is found where it is. */
  lemma LastIndexAt(s: string, c: char, i: nat)
    requires i < |s| && s[i] == c
    requires forall k :: i < k < |s| ==> s[k] != c
    ensures LastIndex(s, c) == i
  {
  }

  /** Nothing from `|a|` on in `a + b` is `c` when `b` holds no `c`. */
  lemma AvoidsFrom(a: string, b: string, c: char)
    requires Avoids(b, {c})
    ensures forall k :: |a| <= k < |a + b| ==> (a + b)[k] != c
  {
    forall k | |a| <= k < |a + b| ensures (a + b)[k] != c {
      assert (a + b)[k] == b[k - |a|];
    }
  }

  /** A component without slashes is its own name, alone or after a directory. */
  lemma NameOfPath(dir: string, n: string)
    requires Component(n) && Avoids(n, {'/'})
    ensures Name(n) == n
    ensures Name(dir + "/" + n) == n
  {
    AvoidsFrom([], n, '/');
    assert [] + n == n;
    AvoidsFrom(dir + "/", n, '/');
    LastIndexAt(dir + "/" + n, '/', |dir|);
  }

  /** A dot with no dot after it starts the extension. */
  predicate IsExtension(ext: string) {
    |ext| >= 2 && ext[0] == '.' && Avoids(ext[1..], {'.'})
  }

  /** The suffix is everything from the last dot on, when something precedes that dot. */
  lemma SuffixOf(base: string, ext: string)
    requires base != [] && IsExtension(ext)
    ensures Suffix(base + ext) == ext
  {
    AvoidsFrom(base + ".", ext[1..], '.');
    assert base + ext == base + "." + ext[1..];
    LastIndexAt(base + ext, '.', |base|);
    assert (base + ext)[|base|..] == ext;
  }

  /** A name that starts with its only dot, such as `.pdf`, has no suffix. */
  lemma DotfileHasNoSuffix(ext: string)
    requires IsExtension(ext)
    ensures Suffix(ext) == []
  {
    AvoidsFrom(".", ext[1..], '.');
    assert ext == "." + ext[1..];
    LastIndexAt(ext, '.', 0);
  }

  /** Neither has a name that ends with a dot. */
  lemma TrailingDotNoSuffix(base: string)
    ensures Suffix(base + ".") == []
  {
    LastIndexAt(base + ".", '.', |base|);
  }

  /** The extension of `dir/base.e`, whatever the directory, is `.e` lower-cased. */
  lemma ExtensionOf(dir: string, base: string, ext: string)
    requires base != [] && Avoids(base, {'/'})
    requires IsExtension(ext) && Avoids(ext, {'/'})
    ensures FileExtension(base + ext) == Lower(ext)
    ensures FileExtension(dir + "/" + base + ext) == Lower(ext)
  {
    var n := base + ext;
    assert Avoids(n, {'/'}) by {
      forall k | 0 <= k < |n| ensures n[k] !in {'/'} {
        if k >= |base| { assert n[k] == ext[k - |base|]; }
      }
    }
    assert dir + "/" + base + ext == dir + "/" + n;
    NameOfPath(dir, n);
    SuffixOf(base, ext);
  }

  /** The shape facts the examples below need about their literal extensions. */
  lemma Plain(ext: string)
    requires |ext| >= 2 && ext[0] == '.'
    requires forall k :: 1 <= k < |ext| ==> ext[k] != '.' && ext[k] != '/'
    ensures IsExtension(ext) && Avoids(ext, {'/'}) && Component(ext)
  {
    assert Avoids(ext[1..], {'.'}) by {
      forall k | 0 <= k < |ext[1..]| ensures ext[1..][k] !in {'.'} {
        assert ext[1..][k] == ext[k + 1];
      }
    }
  }

  lemma LowerPdf()
    ensures Lower(".PDF") == ".pdf"
  {
    var low := Lower(".PDF");
    assert low[1] == LowerChar('P') == 'p';
    assert low[2] == LowerChar('D') == 'd';
    assert low[3] == LowerChar('F') == 'f';
  }

  lemma AcceptedLengths(x: string)
    ensures x in Accepted ==> 4 <= |x| <= 5
  {
  }

  /** Upper-case extensions are accepted: `Resume.PDF` is a PDF. */
  lemma UpperCaseAccepted(dir: string, base: string)
    requires base != [] && Avoids(base, {'/'})
    ensures FileExtension(dir + "/" + base + ".PDF") == ".pdf"
  {
    var ext: string := ".PDF";
    Plain(ext);
    ExtensionOf(dir, base, ext);
    LowerPdf();
  }

  /** A URL with a query string fails the extension check. */
  lemma QueryStringRejected(dir: string, base: string)
    requires base != [] && Avoids(base, {'/'})
    ensures FileExtension(dir + "/" + base + ".pdf?dl=1") !in Accepted
  {
    var ext: string := ".pdf?dl=1";
    Plain(ext);
    ExtensionOf(dir, base, ext);
    AcceptedLengths(Lower(ext));
  }

  /** A file called just `.pdf` has no extension and is rejected. */
  lemma DotfileRejected(dir: string)
    ensures FileExtension(dir + "/" + ".pdf") == []
  {
    var ext: string := ".pdf";
    Plain(ext);
    NameOfPath(dir, ext);
    DotfileHasNoSuffix(ext);
  }

  // ---------------------------------------------------------------------
  // The request.

  /** The request gets past the extension check and the download. */
  predicate Reaches(svc: Services, path: string, data: seq<bv8>) {
    FileExtension(path) in Accepted && svc.download(path) == Fetched(data)
  }

  /** The extension is checked first: an unsupported file is refused with 400
      whatever the services would have answered. */
  lemma UnsupportedFirst(svc: Services, other: Services, path: string)
    requires FileExtension(path) !in Accepted
    ensures ParseResume(svc, path) == ParseResume(other, path)
    ensures ParseResume(svc, path) == HttpError(400, Unsupported(FileExtension(path)))
  {
  }

  /** A missing file is a 404, worded for a URL or for a local path. */
  lemma MissingFile(svc: Services, path: string)
    requires FileExtension(path) in Accepted && svc.download(path) == NotFound
    ensures ParseResume(svc, path) == HttpError(404, Missing(path))
  {
  }

  /** A transcript from the third-party parser is used as it is, and the
      local PDF and DOCX readers are never consulted. */
  lemma AffindaTextWins(svc: Services, path: string, data: seq<bv8>, resp: Json, text: string,
                        pdf: seq<bv8> -> Extraction, docx: seq<bv8> -> Extraction)
    requires Reaches(svc, path, data) && svc.affindaKey != []
    requires svc.affinda(data, UploadName(path), svc.affindaKey) == Answered(resp, text) && text != []
    ensures ParseResume(svc, path).Parsed? && ParseResume(svc, path).response.text == text
    ensures ParseResume(svc.(pdf := pdf, docx := docx), path) == ParseResume(svc, path)
  {
    var other := svc.(pdf := pdf, docx := docx);
    assert FromAffinda(other, path, data) == FromAffinda(svc, path, data);
  }

  /** An answer without a transcript is never a 422: its JSON serialisation
      becomes the text, and the regular expressions run on that. */
  lemma SerialisedWhenNoText(svc: Services, path: string, data: seq<bv8>, resp: Json)
    requires Reaches(svc, path, data) && svc.affindaKey != []
    requires svc.affinda(data, UploadName(path), svc.affindaKey) == Answered(resp, [])
    ensures ParseResume(svc, path).Parsed? && ParseResume(svc, path).response.text == svc.dumps(resp)
  {
  }

  /** Without an answer from the third-party parser the local reader decides:
      its exception is a 500, its empty text a 422, any other text is parsed. */
  lemma LocalReaderDecides(svc: Services, path: string, data: seq<bv8>)
    requires Reaches(svc, path, data)
    requires svc.affindaKey == [] || svc.affinda(data, UploadName(path), svc.affindaKey) == Errored
    ensures var r := ParseResume(svc, path);
            match LocalText(svc, FileExtension(path), data)
            case Raised(m) => r == HttpError(500, Internal(m))
            case Extracted(t) => if t == [] then r == HttpError(422, Unprocessable) else r.Parsed? && r.response.text == t
  {
    assert FromAffinda(svc, path, data) == Transcript(None, []);
    assert Transcribe(svc, path, FileExtension(path), data) == LocalText(svc, FileExtension(path), data);
  }

  /** A `.doc` file goes to the DOCX reader. */
  lemma DocIsReadAsDocx(svc: Services, data: seq<bv8>)
    ensures LocalText(svc, ".doc", data) == svc.docx(data)
  {
    assert ".doc" != ".pdf" by { assert |".doc"| == 4 && ".doc"[1] != ".pdf"[1]; }
  }

  /** When the parser's JSON provides any field, every field comes from it;
      one it lacks is the empty string, even when the text would have given it. */
  lemma ParserFieldsOnly(svc: Services, path: string, data: seq<bv8>, resp: Json)
    requires Reaches(svc, path, data) && FromAffinda(svc, path, data).response == Some(resp)
    requires Structured.AnyField(Structured.Gathered(Some(resp), svc.render))
    ensures ParseResume(svc, path).Parsed?
    ensures var r := ParseResume(svc, path).response;
            && r.name == OrEmpty(Locator.Search(resp, Structured.NameKeys))
            && r.email == OrEmpty(Locator.Search(resp, Structured.EmailKeys))
            && r.phone == OrEmpty(Locator.Search(resp, Structured.PhoneKeys))
            && r.address == OrEmpty(Locator.Search(resp, Structured.AddressKeys))
            && r.linkedin == OrEmpty(Locator.Search(resp, Structured.LinkedInKeys))
            && r.skills == Structured.NormalizeSkills(Structured.RawSkills(resp), svc.render)
  {
    var text := FromAffinda(svc, path, data).text;
    assert Transcribe(svc, path, FileExtension(path), data) == Extracted(text) && text != [];
    assert ParseResume(svc, path).Parsed?;
    Unfold(svc, path, data);
    assert Structured.Chosen(Some(resp), svc.render, svc.extractors, text)
        == Structured.FromResponse(resp, svc.render);
  }

  /** When it provides none, every field comes from the regular-expression
      extractor run on the transcript. */
  lemma ExtractorFieldsOnly(svc: Services, path: string, data: seq<bv8>)
    requires Reaches(svc, path, data) && ParseResume(svc, path).Parsed?
    requires !Structured.AnyField(Structured.Gathered(FromAffinda(svc, path, data).response, svc.render))
    ensures var r := ParseResume(svc, path).response;
            var c := Contact.ExtractContactInfo(svc.extractors, r.text);
            && r.name == OrEmpty(Structured.Wrap(c.fullName))
            && r.email == OrEmpty(Structured.Wrap(c.email))
            && r.phone == OrEmpty(Structured.Wrap(c.phone))
            && r.address == OrEmpty(Structured.Wrap(c.address))
            && r.linkedin == OrEmpty(Structured.Wrap(c.linkedin))
            && r.skills == c.skills
  {
    var resp := FromAffinda(svc, path, data).response;
    var text := Transcribe(svc, path, FileExtension(path), data).text;
    Unfold(svc, path, data);
    var f := Structured.Chosen(resp, svc.render, svc.extractors, text);
    assert f == Structured.Local(Contact.ExtractContactInfo(svc.extractors, text));
  }

  /** What a parsed request is made of. */
  lemma Unfold(svc: Services, path: string, data: seq<bv8>)
    requires Reaches(svc, path, data) && ParseResume(svc, path).Parsed?
    ensures Transcribe(svc, path, FileExtension(path), data).Extracted?
    ensures var text := Transcribe(svc, path, FileExtension(path), data).text;
            var resp := FromAffinda(svc, path, data).response;
            ParseResume(svc, path)
            == Parsed(Respond(path, FileExtension(path), text, Structured.Chosen(resp, svc.render, svc.extractors, text)))
  {
  }

  /** Without a key, or with a response that is not a non-empty object, the
      extractor gives the fields. */
  lemma NoStructuredResponse(svc: Services, path: string, data: seq<bv8>)
    requires Reaches(svc, path, data)
    requires !Structured.Searchable(FromAffinda(svc, path, data).response)
    ensures !Structured.AnyField(Structured.Gathered(FromAffinda(svc, path, data).response, svc.render))
  {
  }
}
