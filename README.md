# convertingpdf-server, modelled in Dafny

This project models the document core of a small PDF web service:

- merging several PDFs into one;
- splitting a PDF, either into fixed-size chunks or by a list of page ranges, into a zip of parts;
- compressing a PDF by re-rendering every page at a lower resolution;
- rendering every page to a JPEG inside a zip;
- the HTML page shown after an e-mail verification link is followed;
- the request guards and download names of the web routes.

A PDF is a sequence of opaque pages. A split is a sequence of named parts. A zip archive is the directory the parts were written into: a map from file name to contents, in which a later file of a repeated name replaces the earlier one.

Modules:

- `Wrappers` defines `Option` and `Result`.
- `PyStr` is the Python string behaviour the source relies on:
  - `str.split` with one separator character, and `str.replace`;
  - `int()` of a string: surrounding whitespace, an optional sign, and ASCII digits with single underscores between them;
  - `str()` of an integer.
- `Pdf` holds pages, documents, parts and directories.
- `Tools` models `tools.py`. `merge_pdfs`, `split_pdf`, `compress_pdf` and `pdf_to_jpg` are methods with loops. Each is proved equal to a specification function, and the properties are proved as lemmas about those functions.
- `Pages` models `pages.py`: the response table, the lookup with Python's negative indexing and its `IndexError` fallback, and the exact HTML text.
- `App` models the routes of `app.py`. Each route is a function from a request (its uploads and form fields) to the response it prepares: a download, a 400 or a 500. The upload folder and `send_file` are modelled after the routes. As written, each route deletes its output before sending it (see "## Findings").

The model follows the code in these cases, which a reader might expect to be errors:

- A split of a 0-page document is not an error. Page-count mode yields no parts. Each range of ranges mode yields one empty part.
- A negative page count is not rejected. `range(0, n, k)` with `k < 0` is empty, so the split yields no parts. Only `k == 0` raises.
- Any compression level other than `"low"` and `"medium"` acts as `"high"`, including the empty string.
- A range with `a > b` is not rejected. It yields an empty part named `pages_a_to_b.pdf`.

## Model

| member | source | states |
|---|---|---|
| Tools.MergePdfs | tools.py:23-30 | the merged document is the concatenation of the inputs, in input order |
| Pdf.Concat | tools.py:25-26 | the pages of the inputs one document after another; MergedPageAt and ConcatLength fix the position of every page and the length |
| Tools.MergedPageAt | tools.py:25-26 | page `t` of input `j` sits at offset (pages of inputs before `j`) + `t` of the merged document, which has as many pages as all inputs together |
| Tools.ConcatLength | tools.py:23-30 | the merge has exactly as many pages as the inputs together |
| Tools.MergeSinglePages | tools.py:23-30 | merging one-page documents lists their pages in input order |
| Pdf.ConcatAppend | tools.py:25-26 | appending one more input appends its pages at the end |
| Tools.SplitByCount | tools.py:52-61 | the chunk loop yields the parts of page-count mode for `k > 0` and no parts for `k < 0` |
| Tools.CopyPages | tools.py:56-57 | copying pages `start..end` gives exactly that slice of the document |
| Tools.CountRangesShape | tools.py:53-55 | the chunk ranges are increasing and disjoint, lie within the document, each has at most `k` pages, every one but the last exactly `k`, and they start at page 1 and end at page `n` |
| Tools.CountRanges | tools.py:53-55 | the first and last 1-based page of each chunk that `range(start, n, k)` starts; CountRangesShape, CountRangeAt and CountRangesLength say which |
| Tools.CountRangesLength | tools.py:53 | `range(start, n, k)` visits `ceil((n - start) / k)` starts |
| Tools.CountRangeAt | tools.py:53-55 | chunk `j` covers pages `start + j*k + 1` to `min(start + j*k + k, n)` |
| Tools.CountPartsLength | tools.py:52-61 | page-count mode yields `ceil(n / k)` parts |
| Tools.CountParts | tools.py:53-58 | the parts of page-count mode, one per chunk, each the chunk's pages under its name; CountPartAt, CountPartSizes and CountPartsReassemble describe them |
| Tools.CountPartAt | tools.py:53-58 | part `j` holds pages `[j*k, min(j*k + k, n))` and is named `pages_{j*k+1}_to_{min(j*k+k, n)}.pdf` |
| Tools.CountPartSizes | tools.py:53-57 | every part but the last has `k` pages and the last has 1 to `k` |
| Tools.CountPartsReassemble | tools.py:52-61 | the parts concatenate back to the original document |
| Tools.CountArchive | tools.py:58-61 | the part names are pairwise distinct, so the archive holds every part under its own name |
| Tools.SplitEmptyDocument | tools.py:43-53 | a 0-page document yields no parts and an empty archive |
| Tools.SplitByOneThenMerge | tools.py:52-61 | splitting by one page gives one part per page, and merging the parts gives back the document |
| Tools.PartNameInjective | tools.py:58 | two part names are equal exactly when both page numbers are equal |
| Tools.PartName | tools.py:58 | the part file name `pages_{first}_to_{last}.pdf` of both modes (also tools.py:74), with the numbers printed as `str()` prints them; distinct number pairs give distinct names by PartNameInjective |
| Tools.RangePagesClamp | tools.py:69-73 | a range keeps the pages between `max(a, 1)` and `min(b, n)`; it is empty exactly when `max(a, 1) > min(b, n)`; an in-bounds range is the plain slice |
| Tools.RangePages | tools.py:71-73 | the pages the guarded loop keeps: the 0-based pages `i` with `first - 1 <= i < last` that exist, in order; RangePagesClamp characterises them |
| Tools.RangePart | tools.py:70-74 | the part of one range: its kept pages under the range's unclamped name; RangePartInside gives the plain slice for ranges inside the document |
| Tools.RangeParts | tools.py:67-77 | one part per token, in token order, each the clamped range under its unclamped name |
| Tools.CopyRange | tools.py:71-73 | the guarded page loop copies exactly the clamped range |
| Tools.SplitByRanges | tools.py:66-77 | the token loop yields the parts of the parsed ranges, or the first token's error |
| Tools.ParseRange | tools.py:68-69 | a token that parses gives two non-negative page numbers |
| Tools.ParseTokensKeepsError | tools.py:67-69 | once a token fails, the whole parse fails with that token's error |
| Tools.ParseTokens | tools.py:67-69 | the tokens parsed in order, stopping at the first that fails; ParseTokensKeepsError and ParseTokensAllOk state both outcomes |
| Tools.ParseRanges | tools.py:66-69 | the value split at commas and each token parsed; ParseRangesOfFormat shows it reads back every printed list of ranges |
| Tools.MalformedTokenRejected | tools.py:68 | a token without exactly one `-` is rejected as malformed |
| Tools.ParseRangesOfFormat | tools.py:66-69 | printing ranges as `a-b,c-d,…` and parsing the text back gives the same ranges |
| Tools.ParseTokensOfFormat | tools.py:67-69 | each printed token parses back to its range |
| Tools.RangeArchiveKeys | tools.py:74-82 | the archive's names are exactly the names of the ranges |
| Tools.RangeArchiveValues | tools.py:74-82 | each range's name maps to the range's clamped pages, since tokens of the same range write the same pages |
| Tools.RangeArchive | tools.py:74-82 | the archive's names are exactly the named ranges, each mapped to its clamped pages |
| Tools.RepeatedRangeOneEntry | tools.py:74-82 | two tokens of the same range give a single archive entry |
| Tools.SplitParts | tools.py:49-80 | any mode other than "pages" and "ranges" is an error; a missing or empty value is an error in either mode |
| Tools.SplitCountSign | tools.py:52-53 | a page count of 0 raises, a negative one yields no parts, and a positive one yields the chunks |
| Tools.RangesModeParts | tools.py:63-77 | ranges mode with a value that parses yields the parts of those ranges |
| Tools.FivePagesThreeToTen | tools.py:66-77 | "3-10" on five pages yields one part `pages_3_to_10.pdf` holding pages 3 to 5 |
| Tools.ThreeToTenParses | tools.py:66-69 | "3-10" parses to the single range (3, 10) |
| Tools.ThreeToTenOfFive | tools.py:69-77 | the range (3, 10) of five pages is pages 3 to 5 under the unclamped name |
| Tools.SplitPdf | tools.py:33-83 | the archive of the split's parts, or the error it raises |
| Tools.LevelSettings | tools.py:95-103 | "low" is the only level at 100% and the only one without deflate; "medium" is the only one at 80%; every level maps to one of the three settings |
| Tools.LevelScalesFall | tools.py:95-103 | the resolution never grows, it falls from "low" to "medium" to the rest, and every other string acts as "high" |
| Tools.CompressPdf | tools.py:86-116 | one output page per input page, in order, each the input page rendered at the level's scale, saved with the level's deflate flag |
| Tools.Compressed | tools.py:105-113 | the new document: page `i` holds page `i` rendered at the level's scale, saved with the level's deflate flag; CompressPdf proves the page loop builds it |
| Tools.ImageNameInjective | tools.py:133 | two image names are equal exactly when the page numbers are equal |
| Tools.ImageName | tools.py:133 | the image file name `page_{number}.jpg`; distinct numbers give distinct names by ImageNameInjective |
| Tools.ImageFiles | tools.py:131-134 | file `i` is `page_{i+1}.jpg` holding page `i` rendered at 100% |
| Tools.JpgArchiveKeys | tools.py:131-137 | the archive's names are exactly `page_1.jpg` to `page_n.jpg` |
| Tools.JpgArchiveEntries | tools.py:131-137 | the archive has one entry per page and `page_n.jpg` holds page `n` rendered at 100% |
| Tools.JpgArchiveContents | tools.py:127-137 | the archive has one image per page, named `page_1.jpg` to `page_n.jpg`; a 0-page document gives an empty archive |
| Tools.JpgArchive | tools.py:131-137 | the zipped output directory of the image files; JpgArchiveKeys and JpgArchiveEntries give its names and contents |
| Tools.PdfToJpg | tools.py:127-137 | the render loop builds exactly that archive |
| Pdf.DirectoryNames | tools.py:82 | the archive holds the name of every file written and no other |
| Pdf.DirectoryLastWriteWins | tools.py:74-82 | a file that no later file overwrites keeps its content in the archive |
| Pdf.DirectoryOfDistinctNames | tools.py:58-61 | distinctly named files give an archive of as many entries |
| Pdf.Directory | tools.py:82 | the directory that is zipped after its files were written in order, a later file of a name replacing the earlier; DirectoryNames and DirectoryLastWriteWins describe it |
| Pdf.ArchiveOf | tools.py:82 | the zip of a split: the directory its parts were written into; CountArchive and RangeArchive give its contents in each mode |
| PyStr.Split | tools.py:66 | `str.split` gives at least one piece |
| PyStr.SplitPieces | tools.py:68 | no piece contains the separator, and there is one piece more than separators |
| PyStr.JoinSplit | tools.py:66 | joining the pieces with the separator gives back the string |
| PyStr.Join | tools.py:66 | pieces joined with the separator, the inverse against which `split` is proved (JoinSplit, SplitJoin) |
| PyStr.SplitJoin | tools.py:66 | splitting a join of separator-free pieces gives back the pieces |
| PyStr.ParseInt | tools.py:52 | a string that parses is not blank, and one without `-` gives a non-negative number |
| PyStr.StripPadding | tools.py:69 | stripping removes exactly the whitespace `int()` skips around a core that neither starts nor ends with it |
| PyStr.Strip | tools.py:69 | the whitespace `int()` skips removed from both ends; StripPadding shows it removes exactly the padding |
| PyStr.ParseIntOfPadded | tools.py:69 | whitespace around an unsigned literal does not change what `int()` reads |
| PyStr.ParseIntRejectsSeparator | tools.py:69 | a U+001C to U+001F character before the digits makes `int()` fail, as these are not whitespace to it |
| PyStr.ParseIntOfLiteral | tools.py:69 | a digit literal reads as its value, and with a `-` before it as the negated value |
| PyStr.NatToStringDigits | tools.py:58 | `str(n)` of a natural number is a non-empty string of decimal digits |
| PyStr.NatToStringValue | tools.py:58 | the decimal digits of a natural number read back as that number, with a leading `0` only for 0 itself |
| PyStr.NatToString | tools.py:58 | `str(n)` of a natural number; NatToStringDigits and NatToStringValue say it is the digits of `n` |
| PyStr.IntToStringDigits | tools.py:58 | `str(i)` is digits, with a `-` first exactly for negative numbers, and ends in a digit |
| PyStr.IntToString | tools.py:58 | `str(i)` of an integer: a `-` for negative numbers, then the digits; ParseIntOfIntToString shows `int()` reads it back |
| PyStr.ParseIntOfNatToString | tools.py:68 | `int(str(n)) == n` for a natural number |
| PyStr.ParseIntOfIntToString | tools.py:74 | `int(str(i)) == i` |
| PyStr.IntToStringInjective | tools.py:74 | two numbers print alike exactly when they are equal |
| PyStr.ReplaceUnchanged | app.py:57 | `replace` leaves a string unchanged exactly when the pattern is absent or replaced by itself |
| PyStr.Contains | app.py:57 | whether `pat` occurs in the string, the condition ReplaceUnchanged and DownloadNameUnchanged are stated in |
| PyStr.Replace | app.py:57 | `str.replace`: occurrences found left to right without overlap and replaced; ReplaceUnchanged, ReplaceLength and ReplaceAfterStem describe it |
| PyStr.ReplaceLength | app.py:57 | each occurrence changes the length by the difference of the two lengths |
| PyStr.ReplaceSuffix | app.py:57 | a pattern that occurs only as the suffix is swapped for the replacement |
| PyStr.ReplaceAfterStem | app.py:57 | the first occurrence of an unbordered pattern after a stem without one is replaced, and the rest of the string is treated alike |
| Pages.PyIndex | pages.py:23 | Python indexing: from the front for `0 <= i < n`, from the end for `-n <= i < 0`, and an error exactly outside both |
| Pages.SelectResponse | pages.py:21-25 | the selected response is always an entry of the table |
| Pages.SelectResponseCases | pages.py:22-25 | codes 0 to 3 select their entry, -4 to -1 select entry `4 + code`, and every other code selects "Verification Failed" |
| Pages.TitlesDistinct | pages.py:1-18 | the four titles are pairwise different |
| Pages.TitleHeadIdentifies | pages.py:1-18 | every title is non-empty and its first character identifies its entry of the table |
| Pages.LayoutShows | pages.py:27-35 | a page of the template holds the heading inside `<h1>` and the paragraph inside `<p>` |
| Pages.LayoutTitleStart | pages.py:27-31 | in a page of the template the title starts right after the opening text and `<h1>` |
| Pages.Page | pages.py:27-35 | the f-string page of a response, character for character; PageShowsResponse and PageTitleStart describe it |
| Pages.VerificationHtml | pages.py:21-35 | the page of the response selected for a code; HtmlShowsResponse and HtmlDeterminedBySelection describe it |
| Pages.PageShowsResponse | pages.py:27-35 | the page holds the title inside `<h1>` and the message inside `<p>` |
| Pages.PageTitleStart | pages.py:27-31 | the title starts at a fixed offset of the page |
| Pages.HtmlShowsResponse | pages.py:21-35 | the page of a code shows the response the code selects |
| Pages.HtmlDeterminedBySelection | pages.py:21-35 | two codes give the same page exactly when they select the same response |
| App.MergedName | app.py:29-30 | the merge download name is the first upload's name followed by `_merged.pdf`, with an existing `.pdf` kept |
| App.DownloadNameUnchanged | app.py:57 | a download name equals the upload's name exactly when that name holds no `.pdf` |
| App.DownloadNameLength | app.py:83 | each `.pdf` in the name changes its length by the suffix's length minus 4 |
| App.DownloadNameOfStem | app.py:108 | `stem.pdf` becomes `stem` plus the route's suffix |
| App.DownloadNameStep | app.py:57 | the first `.pdf` after a stem without one becomes the suffix, and the rest of the name is treated alike |
| App.DownloadName | app.py:57 | the download name of a single-file route (also app.py:83, 108, 133, 177): each `.pdf` replaced by the route's suffix; DownloadNameUnchanged, DownloadNameStep and DownloadNameOfStem describe it |
| App.ReportSplitName | app.py:57 | `report.pdf` downloads as `report_split.zip` |
| App.MergeWithoutFilesRejected | app.py:23-25 | merge answers 400 "No files uploaded" exactly when the files field is empty |
| App.FileList | app.py:23 | the uploads of a field, none when the field is absent |
| App.FileNamed | app.py:49 | the first upload of a field, if any |
| App.FormValue | app.py:50-51 | a form field's value, if present |
| App.Present | app.py:52 | `not file` is false exactly for an upload with a non-empty file name |
| App.MergeRoute | app.py:20-43 | POST /merge-pdf; MergeWithoutFilesRejected and MergeRouteDownload give its answers |
| App.MergeRouteDownload | app.py:23-38 | readable uploads give the PDF download `<first name>_merged.pdf` of all their pages in upload order |
| App.MissingFileRejected | app.py:49-53 | split, compress, word and jpg answer 400 "No file uploaded" exactly when no named file is uploaded, before any processing |
| App.SplitRoute | app.py:46-70 | POST /split-pdf; MissingFileRejected and SplitRouteOutcome give its answers |
| App.SplitRouteOutcome | app.py:55-66 | a readable upload gives the zip download of the split's archive, named with each `.pdf` turned into `_split.zip`, or answers 500 with the split's error |
| App.CompressLevelDefault | app.py:77 | an absent compression level acts as "medium" |
| App.CompressionLevel | app.py:77 | the level field, `"medium"` when absent |
| App.CompressRoute | app.py:73-96 | POST /compress-pdf; MissingFileRejected, CompressLevelDefault and ConversionRoutesOutcome give its answers |
| App.WordRoute | app.py:99-121 | POST /pdf-to-word; MissingFileRejected and ConversionRoutesOutcome give its answers |
| App.JpgRoute | app.py:124-146 | POST /pdf-to-jpg; MissingFileRejected and ConversionRoutesOutcome give its answers |
| App.ConversionRoutesOutcome | app.py:127-142 | a readable upload is compressed, converted or rendered and named after the upload; an unreadable one answers 500 |
| App.EditImageGuard | app.py:161-166 | "No image uploaded" is given exactly for "add-image" with a file uploaded, `editData` decoded and no image |
| App.EditContentGuard | app.py:161-171 | "No text content provided" is given exactly for other edit types whose decoded object has no truthy "content" |
| App.EditNeverDownloads | app.py:152-177 | the edit route never downloads, as the editing function it calls does not exist |
| App.EditRoute | app.py:149-190 | POST /edit, its guards in the order app.py checks them; the Edit lemmas give its answers |
| App.EditMissingFileRejected | app.py:156-157 | the edit route answers 400 "No file uploaded" exactly when no file is uploaded |
| App.ClearUploads | tools.py:140-158 | clearing removes every file and sub-folder of the upload folder |
| App.SendFile | app.py:34-39 | `send_file` downloads the file at the path exactly when one is there, and otherwise the route answers 500 |
| App.ClearThenSend | app.py:32-39 | the end of a route as written: the output written to its path, the folder cleared, the path sent |
| App.SendThenClear | app.py:32-39 | the intended end of a route: the output written to its path and sent before the folder is cleared |
| App.ClearThenSendNeverDownloads | app.py:32-39 | as written, clearing before sending turns every prepared download into a 500 |
| App.SendThenClearDelivers | app.py:32-39 | sending before clearing delivers the route's prepared response |
| App.MergeAsWrittenFails | app.py:27-39 | as written, merging readable uploads answers 500 |
| App.SplitAsWrittenFails | app.py:55-66 | as written, a split that succeeds answers 500 |
| App.ConversionAsWrittenFails | app.py:81-142 | as written, compressing, converting or rendering a readable upload answers 500 |

## Left out

- Saving uploads: filesystem I/O with uuid-generated paths (tools.py:13-20). The upload folder is a map from path to content, and the output path is a parameter. Errors while clearing one entry, which `clear_uploads_folder` prints and skips, are not modelled.
- The zip format: an archive is the map from file name to contents.
- Pixels: a rendered page is its source page and a scale in percent (100, 80 or 50), not pixel data or page dimensions.
- `pdf_to_word` is a call into an external converter. Its output is the source document under the `.docx` name.
- Whether an upload opens as a PDF is given as part of the upload. The PDF parser is not modelled.
- `json.loads` is a parameter of the edit route.
- Editing itself: `tools.edit_pdf` does not exist, so the edit route fails after its guards. The `_edited.pdf` name is produced only through `App.DownloadName`.
- `int()` accepts only ASCII digits here, not other Unicode decimal digits. The whitespace it skips is ASCII `\t\n\v\f\r` and space, plus the non-ASCII characters for which `str.isspace` holds.
- Flask routing, CORS, rate limiting, logging, and the text of 500 answers. A 500 answer carries only its cause. `send_file` is modelled only as far as whether a file exists at the path.
- Tools.ParseRange: states only that parsed numbers are non-negative. `"01-3"` and `"1-3"` parse alike, so printing and parsing round-trip only from ranges to text.
- App.MissingFileRejected: cites the split route's guard; the compress, word and jpg routes have the same guard at app.py:78-79, 103-104 and 128-129.
- The authentication, database and mail modules are not part of this model.

## Findings

Each route prepares its output inside the upload folder and then calls `clear_uploads_folder()` before `send_file`. Clearing deletes the output, so `send_file` finds no file at the path, raises `FileNotFoundError`, and the route's `except` answers 500. The route functions of `App` model the prepared response. `App.ClearThenSend` models the order as written, and `App.SendThenClear` models the intended order, with the folder cleared after sending.

| source | as written | input that shows it | evidently intended | confidence | as-written member | corrected member |
|---|---|---|---|---|---|---|
| app.py:32-39 | the merged file (tools.py:27) is deleted before it is sent | any request whose uploads all open as PDFs | the merged PDF is downloaded | not executed; high, from reading `clear_uploads_folder` (tools.py:140-158) | App.MergeAsWrittenFails | App.SendThenClearDelivers |
| app.py:59-66 | the split's zip (tools.py:82) is deleted before it is sent | a readable upload with `splitType=pages`, `splitValue=1` | the zip of parts is downloaded | not executed; high, from reading `clear_uploads_folder` (tools.py:140-158) | App.SplitAsWrittenFails | App.SendThenClearDelivers |
| app.py:85-92 | the compressed file (tools.py:92) is deleted before it is sent | any readable upload | the compressed PDF is downloaded | not executed; high, from reading `clear_uploads_folder` (tools.py:140-158) | App.ConversionAsWrittenFails | App.SendThenClearDelivers |
| app.py:110-117 | the converted file (tools.py:120) is deleted before it is sent | any readable upload | the .docx file is downloaded | not executed; high, from reading `clear_uploads_folder` (tools.py:140-158) | App.ConversionAsWrittenFails | App.SendThenClearDelivers |
| app.py:135-142 | the image zip (tools.py:136) is deleted before it is sent | any readable upload | the zip of images is downloaded | not executed; high, from reading `clear_uploads_folder` (tools.py:140-158) | App.ConversionAsWrittenFails | App.SendThenClearDelivers |
