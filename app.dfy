/**
  The request handling of app.py: each route checks its parameters, hands the
  upload to the document operation and answers with a download whose name is
  derived from the upload's file name, with a 400 when a guard rejects the
  request, or with a 500 when the operation raises.

  A route is modelled as a function from the request to the response it
  prepares. The upload folder and `send_file` are modelled separately, after
  the routes: app.py clears the folder, which holds the output, before
  sending the output, so that each prepared download becomes a 500; the
  intended order, sending first, delivers the prepared response. Saving
  uploads, logging, CORS and rate limiting are not modelled; `json.loads` is a
  parameter of the edit route.
*/
module App {
  import opened Wrappers
  import opened PyStr
  import opened Pdf
  import opened Tools

  // =================================================================== requests

  /** An uploaded file: the name the client gave it and, when it opens as a
      PDF, its pages. */
  datatype Upload = Upload(filename: string, content: Option<Document>)

  /** The multipart fields of a request: uploads and form values by field name. */
  datatype Request = Request(files: map<string, seq<Upload>>, form: map<string, string>)

  /** `request.files.getlist(key)`. */
  function FileList(req: Request, key: string): seq<Upload>
  {
    if key in req.files then req.files[key] else []
  }

  /** `request.files.get(key)`: the first upload of that field, if any. */
  function FileNamed(req: Request, key: string): Option<Upload>
  {
    var uploads := FileList(req, key);
    if |uploads| == 0 then None else Some(uploads[0])
  }

  /** `request.form.get(key)`. */
  function FormValue(req: Request, key: string): Option<string>
  {
    if key in req.form then Some(req.form[key]) else None
  }

  /** `if not file`: an upload counts only when present with a non-empty file
      name, as the truth value of a file storage object is that of its name. */
  predicate Present(upload: Option<Upload>)
  {
    upload.Some? && upload.value.filename != ""
  }

  // =================================================================== responses

  /** What a download carries. */
  datatype Body =
    | PdfFile(pages: Document)
    | CompressedFile(pdf: CompressedPdf)
    | PdfZip(parts: map<string, Document>)
    | JpgZip(images: map<string, Raster>)
    | WordFile(source: Document)  // the conversion to .docx is not modelled

  /** Why a route answers 500. */
  datatype Failure =
    | UnreadablePdf              // the upload does not open as a PDF
    | SplitFailed(error: SplitError)
    | EditDataNotJson            // `json.loads` of a missing or malformed `editData`
    | EditDataNotObject          // `.get` on decoded JSON that is not an object
    | NoEditFunction             // `tools.edit_pdf` does not exist
    | OutputMissing              // `send_file` of a path that no longer exists

  datatype Response =
    | Download(name: string, mimetype: string, body: Body)
    | BadRequest(message: string)
    | ServerError(cause: Failure)

  const PdfType := "application/pdf"
  const ZipType := "application/zip"
  const DocxType := "application/vnd.openxmlformats-officedocument.wordprocessingml.document"

  // =================================================================== download names

  /** The download name of a single-file route: every ".pdf" in the upload's
      name replaced by `suffix`. */
  function DownloadName(filename: string, suffix: string): string
  {
    Replace(filename, ".pdf", suffix)
  }

  /** The download name of the merge route: the first upload's name with
      "_merged.pdf" appended, an existing ".pdf" kept. */
  function MergedName(filename: string): (name: string)
    ensures |name| == |filename| + 11
    ensures name[..|filename|] == filename && name[|filename|..] == "_merged.pdf"
  {
    filename + "_merged.pdf"
  }

  lemma PdfUnbordered()
    ensures Unbordered(".pdf")
  {
    var pat := ".pdf";
    forall j | 0 < j < |pat| ensures pat[j..] != pat[..|pat| - j] {
      assert pat[j..][0] != '.';
      assert pat[..|pat| - j][0] == '.';
    }
  }

  /** A name is left as it is exactly when it holds no ".pdf" (for a suffix
      other than ".pdf" itself). */
  lemma DownloadNameUnchanged(filename: string, suffix: string)
    requires suffix != ".pdf"
    ensures DownloadName(filename, suffix) == filename <==> !Contains(filename, ".pdf")
  {
    ReplaceUnchanged(filename, ".pdf", suffix);
  }

  /** Each ".pdf" in the name turns into the suffix. */
  lemma DownloadNameLength(filename: string, suffix: string)
    ensures |DownloadName(filename, suffix)| == |filename| + Count(filename, ".pdf") * (|suffix| - 4)
  {
    ReplaceLength(filename, ".pdf", suffix);
  }

  /** The usual case: a stem without ".pdf" followed by ".pdf" becomes the
      stem followed by the suffix. */
  lemma DownloadNameOfStem(stem: string, suffix: string)
    requires !Contains(stem, ".pdf")
    ensures DownloadName(stem + ".pdf", suffix) == stem + suffix
  {
    PdfUnbordered();
    ReplaceSuffix(stem, ".pdf", suffix);
  }

  /** Replacing goes from left to right: the first ".pdf" after a stem that
      lacks one becomes the suffix, and the rest of the name is treated alike. */
  lemma DownloadNameStep(stem: string, rest: string, suffix: string)
    requires !Contains(stem, ".pdf")
    ensures DownloadName(stem + ".pdf" + rest, suffix) == stem + suffix + DownloadName(rest, suffix)
  {
    PdfUnbordered();
    ReplaceAfterStem(stem, ".pdf", rest, suffix);
  }

  /** A name without a dot holds no ".pdf". */
  lemma {:induction false} NoDotNoPdf(s: string)
    requires '.' !in s
    ensures !Contains(s, ".pdf")
    decreases |s|
  {
    if |s| >= 4 {
      assert s[..4][0] == s[0];
      NoDotNoPdf(s[1..]);
    }
  }

  lemma ReportSplitName()
    ensures DownloadName("report.pdf", "_split.zip") == "report_split.zip"
  {
    var stem := "report";
    NoDotNoPdf(stem);
    DownloadNameOfStem(stem, "_split.zip");
    assert stem + ".pdf" == "report.pdf";
    assert stem + "_split.zip" == "report_split.zip";
  }

  // =================================================================== routes

  /** The documents of a list of uploads, or `None` when one does not open. */
  function Documents(uploads: seq<Upload>): (docs: Option<seq<Document>>)
    ensures docs.Some? <==> forall i :: 0 <= i < |uploads| ==> uploads[i].content.Some?
    ensures docs.Some? ==> |docs.value| == |uploads|
    ensures docs.Some? ==> forall i :: 0 <= i < |uploads| ==> docs.value[i] == uploads[i].content.value
    decreases |uploads|
  {
    if |uploads| == 0 then Some([])
    else match (uploads[0].content, Documents(uploads[1..]))
      case (Some(d), Some(ds)) => Some([d] + ds)
      case _ => None
  }

  /** POST /merge-pdf. */
  function MergeRoute(req: Request): Response
  {
    var uploads := FileList(req, "files");
    if |uploads| == 0 then BadRequest("No files uploaded")
    else match Documents(uploads)
      case None => ServerError(UnreadablePdf)
      case Some(docs) => Download(MergedName(uploads[0].filename), PdfType, PdfFile(Concat(docs)))
  }

  /** POST /split-pdf. */
  function SplitRoute(req: Request): Response
  {
    var file := FileNamed(req, "file");
    if !Present(file) then BadRequest("No file uploaded")
    else match file.value.content
      case None => ServerError(UnreadablePdf)
      case Some(doc) =>
        match SplitParts(doc, FormValue(req, "splitType"), FormValue(req, "splitValue"))
        case Err(e) => ServerError(SplitFailed(e))
        case Ok(parts) => Download(DownloadName(file.value.filename, "_split.zip"), ZipType, PdfZip(ArchiveOf(parts)))
  }

  /** The "compressionLevel" form field, or "medium" when the form has none. */
  function CompressionLevel(req: Request): string
  {
    match FormValue(req, "compressionLevel")
    case Some(level) => level
    case None => "medium"
  }

  /** POST /compress-pdf. */
  function CompressRoute(req: Request): Response
  {
    var file := FileNamed(req, "file");
    var level := CompressionLevel(req);
    if !Present(file) then BadRequest("No file uploaded")
    else match file.value.content
      case None => ServerError(UnreadablePdf)
      case Some(doc) => Download(DownloadName(file.value.filename, "_compressed.pdf"), PdfType, CompressedFile(Compressed(doc, level)))
  }

  /** POST /pdf-to-word. */
  function WordRoute(req: Request): Response
  {
    var file := FileNamed(req, "file");
    if !Present(file) then BadRequest("No file uploaded")
    else match file.value.content
      case None => ServerError(UnreadablePdf)
      case Some(doc) => Download(DownloadName(file.value.filename, ".docx"), DocxType, WordFile(doc))
  }

  /** POST /pdf-to-jpg. */
  function JpgRoute(req: Request): Response
  {
    var file := FileNamed(req, "file");
    if !Present(file) then BadRequest("No file uploaded")
    else match file.value.content
      case None => ServerError(UnreadablePdf)
      case Some(doc) => Download(DownloadName(file.value.filename, "_jpg.zip"), ZipType, JpgZip(JpgArchive(doc)))
  }

  // ------------------------------------------------------------ edit

  /** A decoded JSON value. */
  datatype Json =
    | JNull
    | JBool(b: bool)
    | JNumber(value: real)
    | JString(text: string)
    | JArray(items: seq<Json>)
    | JObject(fields: map<string, Json>)

  /** Python truthiness of the decoded value. */
  predicate Truthy(j: Json)
  {
    match j
    case JNull => false
    case JBool(b) => b
    case JNumber(v) => v != 0.0
    case JString(t) => t != ""
    case JArray(items) => items != []
    case JObject(fields) => fields != map[]
  }

  /** `obj.get(key)` on a decoded JSON object. */
  function Field(fields: map<string, Json>, key: string): Json
  {
    if key in fields then fields[key] else JNull
  }

  /** POST /edit. The guards run in the order app.py checks them; a request that
      passes them fails, as the editing function it calls does not exist. */
  function EditRoute(req: Request, loads: string -> Option<Json>): Response
  {
    if !Present(FileNamed(req, "file")) then BadRequest("No file uploaded")
    else match FormValue(req, "editData")
      case None => ServerError(EditDataNotJson)
      case Some(text) =>
        match loads(text)
        case None => ServerError(EditDataNotJson)
        case Some(data) =>
          if FormValue(req, "editType") == Some("add-image") then
            if !Present(FileNamed(req, "imageFile")) then BadRequest("No image uploaded")
            else if !data.JObject? then ServerError(EditDataNotObject)
            else ServerError(NoEditFunction)
          else if !data.JObject? then ServerError(EditDataNotObject)
          else if !Truthy(Field(data.fields, "content")) then BadRequest("No text content provided")
          else ServerError(NoEditFunction)
  }

  // =================================================================== serving the output

  /** The files under the upload folder, by path. Every route's output is
      written there: the merged, compressed and converted files and the zip
      archives of split and pdf_to_jpg. */
  type Folder = map<string, Body>

  /** The upload folder after `clear_uploads_folder()`, which removes every
      file and sub-folder in it. */
  function ClearUploads(folder: Folder): (cleared: Folder)
    ensures forall path :: path in folder ==> path !in cleared
    ensures |cleared| == 0
  {
    map[]
  }

  /** Flask's `send_file` of the file at `path` under a download name and
      mimetype: the file as a download, or a 500 when there is no file there, as the
      route's `except` turns the `FileNotFoundError` into one. */
  function SendFile(folder: Folder, path: string, name: string, mimetype: string): (resp: Response)
    ensures resp.Download? <==> path in folder
    ensures path in folder ==> resp == Download(name, mimetype, folder[path])
    ensures path !in folder ==> resp == ServerError(OutputMissing)
  {
    if path in folder then Download(name, mimetype, folder[path]) else ServerError(OutputMissing)
  }

  /** The end of each route as app.py writes it: the output is written to
      `path` in the upload folder, the folder is cleared, and then the file
      at `path` is sent. A response that is not a download is passed on. */
  function ClearThenSend(resp: Response, folder: Folder, path: string): Response
  {
    match resp
    case Download(name, mimetype, body) => SendFile(ClearUploads(folder[path := body]), path, name, mimetype)
    case _ => resp
  }

  /** The evidently intended end of each route: the output is sent, and the
      folder cleared only afterwards. */
  function SendThenClear(resp: Response, folder: Folder, path: string): Response
  {
    match resp
    case Download(name, mimetype, body) => SendFile(folder[path := body], path, name, mimetype)
    case _ => resp
  }

  /** As written, every download a route prepares turns into a 500, and every
      other answer is unchanged. */
  lemma ClearThenSendNeverDownloads(resp: Response, folder: Folder, path: string)
    ensures resp.Download? ==> ClearThenSend(resp, folder, path) == ServerError(OutputMissing)
    ensures !resp.Download? ==> ClearThenSend(resp, folder, path) == resp
  {
  }

  /** In the intended order, the route's own response is what the client gets. */
  lemma SendThenClearDelivers(resp: Response, folder: Folder, path: string)
    ensures SendThenClear(resp, folder, path) == resp
  {
  }

  /** As written, merging readable uploads answers 500 rather than the merge. */
  lemma MergeAsWrittenFails(req: Request, folder: Folder, path: string)
    requires FileList(req, "files") != []
    requires forall i :: 0 <= i < |FileList(req, "files")| ==> FileList(req, "files")[i].content.Some?
    ensures MergeRoute(req).Download?
    ensures ClearThenSend(MergeRoute(req), folder, path) == ServerError(OutputMissing)
  {
  }

  /** As written, a split that succeeds answers 500 rather than the archive. */
  lemma SplitAsWrittenFails(req: Request, folder: Folder, path: string)
    requires Present(FileNamed(req, "file")) && FileNamed(req, "file").value.content.Some?
    requires SplitParts(FileNamed(req, "file").value.content.value, FormValue(req, "splitType"), FormValue(req, "splitValue")).Ok?
    ensures SplitRoute(req).Download?
    ensures ClearThenSend(SplitRoute(req), folder, path) == ServerError(OutputMissing)
  {
  }

  /** As written, compressing, converting or rendering a readable upload
      answers 500 rather than the output. */
  lemma ConversionAsWrittenFails(req: Request, folder: Folder, path: string)
    requires Present(FileNamed(req, "file")) && FileNamed(req, "file").value.content.Some?
    ensures CompressRoute(req).Download? && WordRoute(req).Download? && JpgRoute(req).Download?
    ensures ClearThenSend(CompressRoute(req), folder, path) == ServerError(OutputMissing)
    ensures ClearThenSend(WordRoute(req), folder, path) == ServerError(OutputMissing)
    ensures ClearThenSend(JpgRoute(req), folder, path) == ServerError(OutputMissing)
  {
  }

  // =================================================================== route properties

  /** A route that takes one file answers 400 exactly when no file is uploaded,
      and then before its operation runs. */
  lemma MissingFileRejected(req: Request)
    ensures !Present(FileNamed(req, "file")) ==>
      && SplitRoute(req) == BadRequest("No file uploaded")
      && CompressRoute(req) == BadRequest("No file uploaded")
      && WordRoute(req) == BadRequest("No file uploaded")
      && JpgRoute(req) == BadRequest("No file uploaded")
    ensures SplitRoute(req).BadRequest? <==> !Present(FileNamed(req, "file"))
    ensures CompressRoute(req).BadRequest? <==> !Present(FileNamed(req, "file"))
    ensures WordRoute(req).BadRequest? <==> !Present(FileNamed(req, "file"))
    ensures JpgRoute(req).BadRequest? <==> !Present(FileNamed(req, "file"))
  {
  }

  /** The merge route answers 400 exactly when the "files" field is empty; an
      upload with an empty name still counts there. */
  lemma MergeWithoutFilesRejected(req: Request)
    ensures MergeRoute(req).BadRequest? <==> FileList(req, "files") == []
    ensures MergeRoute(req).BadRequest? ==> MergeRoute(req).message == "No files uploaded"
  {
  }

  /** Merging answers with the concatenation of every upload, named after the first. */
  lemma MergeRouteDownload(req: Request)
    requires FileList(req, "files") != []
    requires forall i :: 0 <= i < |FileList(req, "files")| ==> FileList(req, "files")[i].content.Some?
    ensures var uploads := FileList(req, "files");
      && MergeRoute(req) == Download(uploads[0].filename + "_merged.pdf", PdfType, PdfFile(Concat(Documents(uploads).value)))
      && |MergeRoute(req).body.pages| == TotalPages(Documents(uploads).value)
  {
    ConcatLength(Documents(FileList(req, "files")).value);
  }

  /** No compression level given means "medium". */
  lemma CompressLevelDefault(req: Request)
    requires "compressionLevel" !in req.form
    ensures CompressRoute(req) == CompressRoute(Request(req.files, req.form["compressionLevel" := "medium"]))
  {
  }

  /** The split route downloads exactly when the upload opens and the split
      succeeds: the archive of the split's parts, named after the upload with
      each ".pdf" turned into "_split.zip". */
  lemma SplitRouteOutcome(req: Request)
    requires Present(FileNamed(req, "file")) && FileNamed(req, "file").value.content.Some?
    ensures var file := FileNamed(req, "file").value;
      match SplitParts(file.content.value, FormValue(req, "splitType"), FormValue(req, "splitValue"))
      case Ok(parts) => SplitRoute(req) == Download(DownloadName(file.filename, "_split.zip"), ZipType, PdfZip(ArchiveOf(parts)))
      case Err(e) => SplitRoute(req) == ServerError(SplitFailed(e))
  {
  }

  /** An upload that opens is converted and named after the upload; one that
      does not open answers 500. */
  lemma ConversionRoutesOutcome(req: Request)
    requires Present(FileNamed(req, "file"))
    ensures var file := FileNamed(req, "file").value;
      match file.content
      case None =>
        && CompressRoute(req) == ServerError(UnreadablePdf)
        && WordRoute(req) == ServerError(UnreadablePdf)
        && JpgRoute(req) == ServerError(UnreadablePdf)
      case Some(doc) =>
        && CompressRoute(req) == Download(DownloadName(file.filename, "_compressed.pdf"), PdfType, CompressedFile(Compressed(doc, CompressionLevel(req))))
        && |CompressRoute(req).body.pdf.pages| == |doc|
        && WordRoute(req) == Download(DownloadName(file.filename, ".docx"), DocxType, WordFile(doc))
        && JpgRoute(req) == Download(DownloadName(file.filename, "_jpg.zip"), ZipType, JpgZip(JpgArchive(doc)))
        && |JpgRoute(req).body.images| == |doc|
  {
    var file := FileNamed(req, "file").value;
    if file.content.Some? {
      JpgArchiveContents(file.content.value);
    }
  }

  /** The edit route never answers with a download. */
  lemma EditNeverDownloads(req: Request, loads: string -> Option<Json>)
    ensures !EditRoute(req, loads).Download?
  {
  }

  /** The edit route answers 400 "No file uploaded" exactly when no file is
      uploaded, before `editData` is decoded. */
  lemma EditMissingFileRejected(req: Request, loads: string -> Option<Json>)
    ensures EditRoute(req, loads) == BadRequest("No file uploaded") <==> !Present(FileNamed(req, "file"))
  {
  }

  /** The missing-image 400 comes only after an upload was found and
      `editData` decoded, and only for "add-image". */
  lemma EditImageGuard(req: Request, loads: string -> Option<Json>)
    ensures EditRoute(req, loads) == BadRequest("No image uploaded") <==>
      && Present(FileNamed(req, "file"))
      && FormValue(req, "editData").Some? && loads(FormValue(req, "editData").value).Some?
      && FormValue(req, "editType") == Some("add-image")
      && !Present(FileNamed(req, "imageFile"))
  {
  }

  /** The missing-content 400 is given for every other edit type when the
      decoded object has no truthy "content". */
  lemma EditContentGuard(req: Request, loads: string -> Option<Json>)
    ensures EditRoute(req, loads) == BadRequest("No text content provided") <==>
      && Present(FileNamed(req, "file"))
      && FormValue(req, "editData").Some? && loads(FormValue(req, "editData").value).Some?
      && FormValue(req, "editType") != Some("add-image")
      && loads(FormValue(req, "editData").value).value.JObject?
      && !Truthy(Field(loads(FormValue(req, "editData").value).value.fields, "content"))
  {
  }
}
