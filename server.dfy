/** app.py: the Flask application. Each route validates the uploaded form, reads the PDF and
    answers with a file or a JSON error. */
module Server {
  import opened Results
  import opened Seqs
  import opened Bytes
  import opened Decimal
  import opened Pdf
  import opened Renditions
  import opened Kilobytes

  // ---- Uploads and replies ----

  /** A FileStorage: the client's filename, the bytes, and the Content-Length header of its
      part when the client sent one. */
  datatype Upload = Upload(filename: string, content: seq<byte>, contentLength: Option<nat>)

  /** One file field of a form; `request.files` is the sequence of these in request order. */
  datatype Part = Part(field: string, upload: Upload)

  /** An early return's status code and error message. */
  datatype Rejection = Rejection(status: nat, message: string)

  datatype JsonBody =
    | ErrorBody(error: string)
    | InfoBody(filename: string, pages: nat, encrypted: bool, metadata: Option<map<string, string>>, size: string)

  /** What a route returns: a JSON body with its status, a `send_file` of the payload under a
      download name (with the mimetype when the route gives one), the jpg route's fallback JSON
      (its fixed message and note left out), or an exception escaping the route, which Flask
      answers with its own 500 page. */
  datatype Reply =
    | JsonReply(status: nat, body: JsonBody)
    | FileReply(data: Payload, downloadName: string, mimetype: Option<string>)
    | JpgFallbackReply(filename: string, pages: nat)
    | Unhandled

  function Rejected(r: Rejection): Reply {
    JsonReply(r.status, ErrorBody(r.message))
  }


  const NoFile := Rejection(400, "No file provided")
  const NoFileSelected := Rejection(400, "No file selected")
  const NotPdf := Rejection(400, "Please provide a PDF file")
  const NoFiles := Rejection(400, "No files provided")
  const TooFewFiles := Rejection(400, "Please provide at least 2 PDF files")
  /** The reader's IndexError for `pages[0]` of a document without pages. */
  const NoPageZero := "sequence index out of range"

  /** `field in request.files` */
  predicate HasField(files: seq<Part>, field: string) {
    exists i :: 0 <= i < |files| && files[i].field == field
  }

  /** `request.files.getlist(field)`: the uploads of that field in request order. */
  function GetList(files: seq<Part>, field: string): (r: seq<Upload>)
    ensures |r| <= |files|
    ensures r == [] <==> !HasField(files, field)
    decreases |files|
  {
    if files == [] then []
    else
      var rest := GetList(files[1..], field);
      assert forall i :: 1 <= i < |files| ==> files[i] == files[1..][i - 1];
      (if files[0].field == field then [files[0].upload] else []) + rest
  }

  /** The first upload of a field comes from the earliest part with that field. */
  lemma {:induction false} GetListFirst(files: seq<Part>, field: string)
    requires HasField(files, field)
    ensures exists i :: 0 <= i < |files| && files[i].field == field && files[i].upload == GetList(files, field)[0] &&
                        forall j :: 0 <= j < i ==> files[j].field != field
    decreases |files|
  {
    if files[0].field != field {
      var tail := files[1..];
      assert forall i :: 1 <= i < |files| ==> files[i] == tail[i - 1];
      GetListFirst(tail, field);
      var i :| 0 <= i < |tail| && tail[i].field == field && tail[i].upload == GetList(tail, field)[0] &&
               forall j :: 0 <= j < i ==> tail[j].field != field;
      assert files[i + 1] == tail[i];
    }
  }

  /** `request.files[field]`: the first upload of that field. */
  function First(files: seq<Part>, field: string): Upload
    requires HasField(files, field)
  {
    GetList(files, field)[0]
  }

  // ---- allowed_file ----

  const AllowedExtensions: set<string> := {"pdf"}

  /** `str.lower()` on one character; letters outside A-Z are left alone. */
  function AsciiLower(c: char): char {
    if 'A' <= c <= 'Z' then (c as int - 'A' as int + 'a' as int) as char else c
  }

  function Lower(s: string): (r: string)
    ensures |r| == |s| && forall i :: 0 <= i < |s| ==> r[i] == AsciiLower(s[i])
    decreases |s|
  {
    if s == [] then [] else [AsciiLower(s[0])] + Lower(s[1..])
  }

  /** The index of the last c in s, or -1. */
  function LastIndexOf(s: string, c: char): (r: int)
    ensures -1 <= r < |s|
    ensures r >= 0 ==> s[r] == c
    ensures forall j :: r < j < |s| ==> s[j] != c
    decreases |s|
  {
    if s == [] then -1
    else if s[|s| - 1] == c then |s| - 1
    else LastIndexOf(s[..|s| - 1], c)
  }

  /** `'.' in filename and filename.rsplit('.', 1)[1].lower() in ALLOWED_EXTENSIONS` */
  predicate AllowedFile(filename: string) {
    '.' in filename && Lower(filename[LastIndexOf(filename, '.') + 1..]) in AllowedExtensions
  }

  /** A name is allowed exactly when it ends in a dot and three letters that lower to "pdf". */
  lemma AllowedFileIff(f: string)
    ensures AllowedFile(f) <==> |f| >= 4 && f[|f| - 4] == '.' && Lower(f[|f| - 3..]) == "pdf"
  {
    if AllowedFile(f) {
      AllowedFileHasPdfSuffix(f);
    }
    if |f| >= 4 && f[|f| - 4] == '.' && Lower(f[|f| - 3..]) == "pdf" {
      PdfSuffixIsAllowed(f);
    }
  }

  lemma AllowedFileHasPdfSuffix(f: string)
    requires AllowedFile(f)
    ensures |f| >= 4 && f[|f| - 4] == '.' && Lower(f[|f| - 3..]) == "pdf"
  {
    var r := LastIndexOf(f, '.');
    var i :| 0 <= i < |f| && f[i] == '.';
    assert r >= 0;
    var tail := f[r + 1..];
    assert |Lower(tail)| == 3;
    assert r == |f| - 4;
  }

  lemma PdfSuffixIsAllowed(f: string)
    requires |f| >= 4 && f[|f| - 4] == '.' && Lower(f[|f| - 3..]) == "pdf"
    ensures AllowedFile(f)
  {
    var tail := f[|f| - 3..];
    var low := Lower(tail);
    assert low[0] == AsciiLower(tail[0]) && low[1] == AsciiLower(tail[1]) && low[2] == AsciiLower(tail[2]);
    assert tail[0] != '.' && tail[1] != '.' && tail[2] != '.';
    assert f[|f| - 1] == tail[2] && f[|f| - 2] == tail[1] && f[|f| - 3] == tail[0];
    var r := LastIndexOf(f, '.');
    assert r == |f| - 4;
    assert f[|f| - 4] in f;
  }

  /** A case-sensitive ".pdf" suffix always passes allowed_file. */
  lemma EndsWithPdfIsAllowed(f: string)
    requires EndsWith(f, ".pdf")
    ensures AllowedFile(f)
  {
    assert f[|f| - 4..] == ".pdf";
    assert f[|f| - 4] == '.';
    assert f[|f| - 3..] == f[|f| - 4..][1..];
    assert Lower("pdf") == "pdf";
    PdfSuffixIsAllowed(f);
  }

  /** allowed_file ignores the case of the extension. */
  lemma AcceptsUpperCase()
    ensures AllowedFile("A.PDF")
  {
    var f := "A.PDF";
    assert f[|f| - 4] == '.';
    assert f[|f| - 3..] == "PDF";
    assert Lower("PDF") == "pdf";
    PdfSuffixIsAllowed(f);
  }

  /** allowed_file looks only at the text after the last dot. */
  lemma AcceptsDoubleExtension()
    ensures AllowedFile("x.tar.pdf")
  {
    var f := "x.tar.pdf";
    assert f[|f| - 4] == '.';
    assert f[|f| - 3..] == "pdf";
    assert Lower("pdf") == "pdf";
    PdfSuffixIsAllowed(f);
  }

  /** The suffix check of split and info does not ignore case: "X.PDF" passes allowed_file only. */
  lemma ChecksDisagreeOnUpperCase()
    ensures AllowedFile("X.PDF") && !EndsWith("X.PDF", ".pdf")
  {
    var f := "X.PDF";
    assert f[|f| - 4] == '.';
    assert f[|f| - 3..] == "PDF";
    assert Lower("PDF") == "pdf";
    PdfSuffixIsAllowed(f);
  }

  lemma RejectedNames()
    ensures !AllowedFile("report.txt") && !AllowedFile("pdf")
  {
  }

  // ---- Validation chains ----

  /** The checks of convert_to_word, convert_to_jpg and convert_to_ppt, in order. */
  function CheckConvertUpload(files: seq<Part>): Result<Upload, Rejection> {
    if !HasField(files, "file") then Failure(NoFile)
    else
      var file := First(files, "file");
      if file.filename == "" then Failure(NoFileSelected)
      else if !AllowedFile(file.filename) then Failure(NotPdf)
      else Success(file)
  }

  /** The checks of split_pdf and get_pdf_info: presence, then a case-sensitive suffix. */
  function CheckPdfName(files: seq<Part>): Result<Upload, Rejection> {
    if !HasField(files, "file") then Failure(NoFile)
    else
      var file := First(files, "file");
      if !EndsWith(file.filename, ".pdf") then Failure(NotPdf)
      else Success(file)
  }

  /** Each rejection is reached only once the earlier checks have passed, and an accepted
      upload is the first `file` part with a non-empty, allowed name. */
  lemma CheckConvertUploadOrder(files: seq<Part>)
    ensures CheckConvertUpload(files) == Failure(NoFile) <==> !HasField(files, "file")
    ensures CheckConvertUpload(files) == Failure(NoFileSelected) <==>
              HasField(files, "file") && First(files, "file").filename == ""
    ensures CheckConvertUpload(files) == Failure(NotPdf) <==>
              HasField(files, "file") && First(files, "file").filename != "" && !AllowedFile(First(files, "file").filename)
    ensures CheckConvertUpload(files).Success? <==>
              HasField(files, "file") && AllowedFile(First(files, "file").filename)
    ensures CheckConvertUpload(files).Success? ==> CheckConvertUpload(files).value == First(files, "file")
  {
    if HasField(files, "file") && AllowedFile(First(files, "file").filename) {
      assert First(files, "file").filename != "";
    }
  }

  /** The split/info check accepts less than the converting routes' check, with the same upload;
      "X.PDF" shows it is strictly less. */
  lemma PdfNameCheckIsStricter(files: seq<Part>)
    ensures CheckPdfName(files).Success? ==> CheckConvertUpload(files) == CheckPdfName(files)
    ensures !HasField(files, "file") ==> CheckConvertUpload(files) == CheckPdfName(files) == Failure(NoFile)
    ensures var form := [Part("file", Upload("X.PDF", [], None))];
            CheckConvertUpload(form).Success? && CheckPdfName(form) == Failure(NotPdf)
  {
    if CheckPdfName(files).Success? {
      EndsWithPdfIsAllowed(First(files, "file").filename);
    }
    var form := [Part("file", Upload("X.PDF", [], None))];
    assert form[0].field == "file";
    assert First(form, "file").filename == "X.PDF";
    ChecksDisagreeOnUpperCase();
  }

  /** Forms that agree on field names and filenames are validated alike, whatever the bytes. */
  lemma ValidationIgnoresContent(a: seq<Part>, b: seq<Part>)
    requires |a| == |b|
    requires forall i :: 0 <= i < |a| ==> a[i].field == b[i].field && a[i].upload.filename == b[i].upload.filename
    ensures CheckConvertUpload(a).Failure? <==> CheckConvertUpload(b).Failure?
    ensures CheckConvertUpload(a).Failure? ==> CheckConvertUpload(a) == CheckConvertUpload(b)
    ensures CheckPdfName(a).Failure? <==> CheckPdfName(b).Failure?
    ensures CheckPdfName(a).Failure? ==> CheckPdfName(a) == CheckPdfName(b)
  {
    FirstAlike(a, b, "file");
  }

  lemma {:induction false} FirstAlike(a: seq<Part>, b: seq<Part>, field: string)
    requires |a| == |b|
    requires forall i :: 0 <= i < |a| ==> a[i].field == b[i].field && a[i].upload.filename == b[i].upload.filename
    ensures HasField(a, field) <==> HasField(b, field)
    ensures HasField(a, field) ==> First(a, field).filename == First(b, field).filename
  {
    if HasField(a, field) {
      var i :| 0 <= i < |a| && a[i].field == field;
      assert b[i].field == field;
      GetListFirst(a, field);
      GetListFirst(b, field);
      var ia :| 0 <= ia < |a| && a[ia].field == field && a[ia].upload == First(a, field) &&
                forall j :: 0 <= j < ia ==> a[j].field != field;
      var ib :| 0 <= ib < |b| && b[ib].field == field && b[ib].upload == First(b, field) &&
                forall j :: 0 <= j < ib ==> b[j].field != field;
      assert a[ib].field == field && b[ia].field == field;
      assert ia == ib;
    }
  }

  // ---- convert_to_word ----

  /** The lines convert_to_word writes before the page text. */
  function WordPreamble(filename: string, pageCount: nat, date: string): string {
    "\nCONVERTED DOCUMENT - PDF TO WORD\n\nOriginal PDF: " + filename + "\n" +
    ("Total Pages: " + NatToString(pageCount)) + ("\nConversion Date: " + date + "\n\nDOCUMENT CONTENT:\n")
  }

  const WordClosing := "\n\nConverted via PDFConvert Pro API\n        "

  /** The document convert_to_word writes around the page text. */
  function WordDocument(filename: string, pageCount: nat, date: string, content: string): string {
    WordPreamble(filename, pageCount, date) + content + WordClosing
  }

  /** What convert_to_word returns; `date` is the request's Date header and `secure` is
      secure_filename. */
  function WordReply(files: seq<Part>, date: Option<string>, secure: string -> string, parse: Parser): Reply {
    match CheckConvertUpload(files)
    case Failure(rej) => Rejected(rej)
    case Success(file) => WordFromUpload(file, date, secure, parse)
  }

  /** What convert_to_word returns once the upload has passed validation. */
  function WordFromUpload(file: Upload, date: Option<string>, secure: string -> string, parse: Parser): Reply {
    match parse(file.content)
    case Failure(e) => JsonReply(500, ErrorBody("Conversion failed: " + e))
    case Success(doc) =>
      var text := WordDocument(file.filename, |doc.pages|, date.GetOr("N/A"), WordText("", doc.pages, ServerPlaceholder));
      FileReply(Text(text), "converted_" + secure(file.filename) + ".docx", Some(WordMime))
  }

  method ConvertToWord(files: seq<Part>, date: Option<string>, secure: string -> string, parse: Parser)
    returns (reply: Reply)
    ensures reply == WordReply(files, date, secure, parse)
  {
    if !HasField(files, "file") {
      return Rejected(NoFile);
    }
    var file := First(files, "file");
    if file.filename == "" {
      return Rejected(NoFileSelected);
    }
    if !AllowedFile(file.filename) {
      return Rejected(NotPdf);
    }
    var reader := parse(file.content);
    if reader.Failure? {
      return JsonReply(500, ErrorBody("Conversion failed: " + reader.error));
    }
    var pages := reader.value.pages;
    var textContent := PageBlocks(pages);
    var outputFilename := "converted_" + secure(file.filename) + ".docx";
    var outputContent := WordDocument(file.filename, |pages|, date.GetOr("N/A"), textContent);
    reply := FileReply(Text(outputContent), outputFilename, Some(WordMime));
  }

  /** The `for page_num, page in enumerate(reader.pages)` loop of convert_to_word. */
  method PageBlocks(pages: seq<Page>) returns (textContent: string)
    ensures textContent == WordText("", pages, ServerPlaceholder)
  {
    textContent := "";
    var pageNum := 0;
    while pageNum < |pages|
      invariant 0 <= pageNum <= |pages|
      invariant textContent == WordText("", pages[..pageNum], ServerPlaceholder)
    {
      var entry := "Page " + NatToString(pageNum + 1) + ":\n";
      entry := entry + OrElse(pages[pageNum].text, ServerPlaceholder);
      entry := entry + "\n" + Rule + "\n";
      assert entry == WordEntry(pageNum + 1, pages[pageNum].text, ServerPlaceholder);
      assert pages[..pageNum + 1][..pageNum] == pages[..pageNum];
      textContent := textContent + entry;
      pageNum := pageNum + 1;
    }
    assert pages[..|pages|] == pages;
  }

  /** An accepted, readable upload becomes a .docx whose text holds every page's block, the
      page count and the original name. */
  lemma WordReplyHasEveryPage(files: seq<Part>, date: Option<string>, secure: string -> string, parse: Parser, k: nat)
    requires CheckConvertUpload(files).Success?
    requires var file := CheckConvertUpload(files).value;
             parse(file.content).Success? && 1 <= k <= |parse(file.content).value.pages|
    ensures var file := CheckConvertUpload(files).value;
            var pages := parse(file.content).value.pages;
            var reply := WordReply(files, date, secure, parse);
            && reply.FileReply? && reply.data.Text? && reply.mimetype == Some(WordMime)
            && reply.downloadName == "converted_" + secure(file.filename) + ".docx"
            && Contains(reply.data.text, WordEntry(k, pages[k - 1].text, ServerPlaceholder))
            && Contains(reply.data.text, "Total Pages: " + NatToString(|pages|))
  {
    var file := CheckConvertUpload(files).value;
    var pages := parse(file.content).value.pages;
    var body := WordText("", pages, ServerPlaceholder);
    WordTextHasPage("", pages, ServerPlaceholder, k);
    WordDocumentContains(file.filename, |pages|, date.GetOr("N/A"), body, WordEntry(k, pages[k - 1].text, ServerPlaceholder));
  }

  /** The document holds whatever its content holds, and its page-count line. */
  lemma WordDocumentContains(filename: string, pageCount: nat, date: string, content: string, pat: string)
    requires Contains(content, pat)
    ensures Contains(WordDocument(filename, pageCount, date, content), pat)
    ensures Contains(WordDocument(filename, pageCount, date, content), "Total Pages: " + NatToString(pageCount))
  {
    var pre := WordPreamble(filename, pageCount, date);
    ContainsExtend(content, pre, WordClosing, pat);
    ContainsMiddle("\nCONVERTED DOCUMENT - PDF TO WORD\n\nOriginal PDF: " + filename + "\n",
                   "Total Pages: " + NatToString(pageCount),
                   "\nConversion Date: " + date + "\n\nDOCUMENT CONTENT:\n");
    ContainsAppend(pre, content, "Total Pages: " + NatToString(pageCount));
    ContainsAppend(pre + content, WordClosing, "Total Pages: " + NatToString(pageCount));
  }

  // ---- convert_to_jpg ----

  /** The PIL step: the JPEG of the caption image for a filename and page count, or None when
      the imaging library raises. */
  type Renderer = (string, nat) -> Option<seq<byte>>

  /** convert_to_jpg: a caption image. When drawing raises, the except clause re-reads the
      upload and answers with the fallback JSON; when reading raises, the re-read in the except
      clause raises again and escapes the route. */
  function ConvertToJpg(files: seq<Part>, secure: string -> string, parse: Parser, render: Renderer): Reply {
    match CheckConvertUpload(files)
    case Failure(rej) => Rejected(rej)
    case Success(file) => JpgFromUpload(file, secure, parse, render)
  }

  /** What convert_to_jpg returns once the upload has passed validation. */
  function JpgFromUpload(file: Upload, secure: string -> string, parse: Parser, render: Renderer): Reply {
    match parse(file.content)
    case Failure(_) => Unhandled
    case Success(doc) =>
      match render(file.filename, |doc.pages|)
      case None => JpgFallbackReply("converted_" + secure(file.filename) + ".jpg", |doc.pages|)
      case Some(jpeg) => FileReply(Image(jpeg), "converted_" + secure(file.filename) + "_page_1.jpg", Some("image/jpeg"))
  }

  /** Past validation, convert_to_jpg gives the image exactly when the upload reads and draws,
      the fallback JSON with its page count when only drawing fails, and an escaping exception
      when it does not read: never a JSON rejection. */
  lemma JpgReplyCases(file: Upload, secure: string -> string, parse: Parser, render: Renderer)
    ensures var reply := JpgFromUpload(file, secure, parse, render);
            && (reply == Unhandled <==> parse(file.content).Failure?)
            && (reply.FileReply? <==> parse(file.content).Success? && render(file.filename, |parse(file.content).value.pages|).Some?)
            && (reply.FileReply? ==> reply.downloadName == "converted_" + secure(file.filename) + "_page_1.jpg" &&
                                     reply.mimetype == Some("image/jpeg"))
            && (reply.JpgFallbackReply? ==>
                  reply == JpgFallbackReply("converted_" + secure(file.filename) + ".jpg", |parse(file.content).value.pages|))
            && !reply.JsonReply?
  {
  }

  // ---- convert_to_ppt ----

  /** The lines convert_to_ppt writes before the slide text. */
  function PptPreamble(filename: string, pageCount: nat, date: string): string {
    "\nPDF TO POWERPOINT CONVERSION\n\nOriginal File: " + filename + "\n" +
    ("Total Pages: " + NatToString(pageCount)) + ("\nConversion Date: " + date + "\n\nPRESENTATION CONTENT:\n\n")
  }

  const PptClosing :=
    "\n\nSLIDE NOTES:\n- Converted via PDFConvert Pro API\n- Each PDF page becomes a PowerPoint slide\n" +
    "- Formatting and images are preserved\n\nPDFConvert Pro - Professional PDF Conversion\n        "

  /** The document convert_to_ppt writes around the slide text. */
  function PptDocument(filename: string, pageCount: nat, date: string, content: string): string {
    PptPreamble(filename, pageCount, date) + content + PptClosing
  }

  /** What convert_to_ppt returns. */
  function PptReply(files: seq<Part>, date: Option<string>, secure: string -> string, parse: Parser): Reply {
    match CheckConvertUpload(files)
    case Failure(rej) => Rejected(rej)
    case Success(file) => PptFromUpload(file, date, secure, parse)
  }

  /** What convert_to_ppt returns once the upload has passed validation. */
  function PptFromUpload(file: Upload, date: Option<string>, secure: string -> string, parse: Parser): Reply {
    match parse(file.content)
    case Failure(e) => JsonReply(500, ErrorBody("Conversion failed: " + e))
    case Success(doc) =>
      var text := PptDocument(file.filename, |doc.pages|, date.GetOr("N/A"), ServerSlides(FirstSlides(doc.pages)));
      FileReply(Text(text), "converted_" + secure(file.filename) + ".pptx", Some(PptMime))
  }

  method ConvertToPpt(files: seq<Part>, date: Option<string>, secure: string -> string, parse: Parser)
    returns (reply: Reply)
    ensures reply == PptReply(files, date, secure, parse)
  {
    if !HasField(files, "file") {
      return Rejected(NoFile);
    }
    var file := First(files, "file");
    if file.filename == "" {
      return Rejected(NoFileSelected);
    }
    if !AllowedFile(file.filename) {
      return Rejected(NotPdf);
    }
    var reader := parse(file.content);
    if reader.Failure? {
      return JsonReply(500, ErrorBody("Conversion failed: " + reader.error));
    }
    var textContent := SlideBlocks(FirstSlides(reader.value.pages));
    var pptContent := PptDocument(file.filename, |reader.value.pages|, date.GetOr("N/A"), textContent);
    var outputFilename := "converted_" + secure(file.filename) + ".pptx";
    reply := FileReply(Text(pptContent), outputFilename, Some(PptMime));
  }

  /** The `for page_num in range(min(3, len(reader.pages)))` loop of convert_to_ppt, given the
      pages it visits. */
  method SlideBlocks(slides: seq<Page>) returns (textContent: string)
    ensures textContent == ServerSlides(slides)
  {
    textContent := "";
    var pageNum := 0;
    while pageNum < |slides|
      invariant 0 <= pageNum <= |slides|
      invariant textContent == ServerSlides(slides[..pageNum])
    {
      var text := OrElse(slides[pageNum].text, "Page " + NatToString(pageNum + 1) + " content");
      var slide := "SLIDE " + NatToString(pageNum + 1) + ":\n" + text + "\n\n";
      assert slide == ServerSlide(pageNum + 1, slides[pageNum].text);
      assert slides[..pageNum + 1][..pageNum] == slides[..pageNum];
      textContent := textContent + slide;
      pageNum := pageNum + 1;
    }
    assert slides[..|slides|] == slides;
  }

  /** The slides use the first three pages only: documents with the same page count that agree
      on their first three pages' text give the same reply. */
  lemma PptReplyIgnoresLaterPages(f1: seq<Part>, f2: seq<Part>, date: Option<string>, secure: string -> string, parse: Parser)
    requires CheckConvertUpload(f1).Success? && CheckConvertUpload(f2).Success?
    requires CheckConvertUpload(f1).value.filename == CheckConvertUpload(f2).value.filename
    requires parse(CheckConvertUpload(f1).value.content).Success? && parse(CheckConvertUpload(f2).value.content).Success?
    requires var p1 := parse(CheckConvertUpload(f1).value.content).value.pages;
             var p2 := parse(CheckConvertUpload(f2).value.content).value.pages;
             |p1| == |p2| && forall i :: 0 <= i < |p1| && i < SlideLimit ==> p1[i].text == p2[i].text
    ensures PptReply(f1, date, secure, parse) == PptReply(f2, date, secure, parse)
  {
    var p1 := parse(CheckConvertUpload(f1).value.content).value.pages;
    var p2 := parse(CheckConvertUpload(f2).value.content).value.pages;
    ServerSlidesAreFirstThree(p1);
    ServerSlidesAreFirstThree(p2);
  }

  /** The three converting routes reject a form identically. */
  lemma ConvertRoutesRejectAlike(files: seq<Part>, date: Option<string>, secure: string -> string, parse: Parser, render: Renderer)
    requires CheckConvertUpload(files).Failure?
    ensures var r := Rejected(CheckConvertUpload(files).error);
            WordReply(files, date, secure, parse) == r && PptReply(files, date, secure, parse) == r &&
            ConvertToJpg(files, secure, parse, render) == r
  {
  }

  /** Past validation, convert_to_word answers with the .docx exactly when the upload reads,
      and otherwise with a 500 that carries the reader's error: never a 400. */
  lemma WordUploadReplies(file: Upload, date: Option<string>, secure: string -> string, parse: Parser)
    ensures var r := WordFromUpload(file, date, secure, parse);
            r.FileReply? <==> parse(file.content).Success?
    ensures var r := WordFromUpload(file, date, secure, parse);
            parse(file.content).Failure? ==> r == JsonReply(500, ErrorBody("Conversion failed: " + parse(file.content).error))
  {
  }

  /** Past validation, convert_to_ppt answers with the .pptx exactly when the upload reads,
      and otherwise with a 500 that carries the reader's error: never a 400. */
  lemma PptUploadReplies(file: Upload, date: Option<string>, secure: string -> string, parse: Parser)
    ensures var r := PptFromUpload(file, date, secure, parse);
            r.FileReply? <==> parse(file.content).Success?
    ensures var r := PptFromUpload(file, date, secure, parse);
            parse(file.content).Failure? ==> r == JsonReply(500, ErrorBody("Conversion failed: " + parse(file.content).error))
  {
  }

  // ---- merge_pdfs ----

  /** The contents of the uploads whose names end in ".pdf" (case-sensitive), in order. */
  function PdfContents(uploads: seq<Upload>): (docs: seq<seq<byte>>)
    ensures |docs| <= |uploads|
    decreases |uploads|
  {
    if uploads == [] then []
    else
      var last := uploads[|uploads| - 1];
      PdfContents(uploads[..|uploads| - 1]) + (if EndsWith(last.filename, ".pdf") then [last.content] else [])
  }

  lemma {:induction false} PdfContentsAppend(xs: seq<Upload>, ys: seq<Upload>)
    ensures PdfContents(xs + ys) == PdfContents(xs) + PdfContents(ys)
    decreases |ys|
  {
    if ys == [] {
      assert xs + ys == xs;
    } else {
      var init := ys[..|ys| - 1];
      assert (xs + ys)[..|xs + ys| - 1] == xs + init;
      assert (xs + ys)[|xs + ys| - 1] == ys[|ys| - 1];
      PdfContentsAppend(xs, init);
    }
  }

  /** Uploads with no ".pdf" name contribute nothing. */
  lemma {:induction false} PdfContentsNone(uploads: seq<Upload>)
    requires forall i :: 0 <= i < |uploads| ==> !EndsWith(uploads[i].filename, ".pdf")
    ensures PdfContents(uploads) == []
    decreases |uploads|
  {
    if uploads != [] {
      var init := uploads[..|uploads| - 1];
      assert forall i :: 0 <= i < |init| ==> init[i] == uploads[i];
      PdfContentsNone(init);
    }
  }

  /** What merge_pdfs returns: the count is checked on all uploads, then only the ".pdf" ones
      are merged, in order; the reader's first exception becomes a 500. */
  function MergeReply(files: seq<Part>, parse: Parser): Reply {
    if !HasField(files, "files") then Rejected(NoFiles)
    else
      var uploads := GetList(files, "files");
      if |uploads| < 2 then Rejected(TooFewFiles)
      else
        match Merged(PdfContents(uploads), parse)
        case Failure(e) => JsonReply(500, ErrorBody(e))
        case Success(pages) => FileReply(PdfFile(pages), "merged.pdf", None)
  }

  method MergePdfs(files: seq<Part>, parse: Parser) returns (reply: Reply)
    ensures reply == MergeReply(files, parse)
  {
    if !HasField(files, "files") {
      return Rejected(NoFiles);
    }
    var uploads := GetList(files, "files");
    if |uploads| < 2 {
      return Rejected(TooFewFiles);
    }
    var merged := MergeNamedPdfs(uploads, parse);
    if merged.Failure? {
      return JsonReply(500, ErrorBody(merged.error));
    }
    reply := FileReply(PdfFile(merged.value), "merged.pdf", None);
  }

  /** The loop appending every ".pdf" upload to the merger, then writing it out. */
  method MergeNamedPdfs(uploads: seq<Upload>, parse: Parser) returns (r: Result<seq<Page>, string>)
    ensures r == Merged(PdfContents(uploads), parse)
  {
    var merged: seq<Page> := [];
    var i := 0;
    while i < |uploads|
      invariant 0 <= i <= |uploads|
      invariant Merged(PdfContents(uploads[..i]), parse) == Success(merged)
    {
      var file := uploads[i];
      MergedStep(uploads, i, parse);
      if EndsWith(file.filename, ".pdf") {
        var reader := parse(file.content);
        if reader.Failure? {
          MergedPrefixFails(uploads, i + 1, parse);
          return Failure(reader.error);
        }
        merged := merged + reader.value.pages;
      }
      i := i + 1;
    }
    assert uploads[..|uploads|] == uploads;
    r := Success(merged);
  }

  lemma PdfContentsStep(uploads: seq<Upload>, i: nat)
    requires i < |uploads|
    ensures PdfContents(uploads[..i + 1]) ==
            PdfContents(uploads[..i]) + (if EndsWith(uploads[i].filename, ".pdf") then [uploads[i].content] else [])
  {
    assert uploads[..i + 1][..i] == uploads[..i];
  }

  /** One more upload: a ".pdf" one is appended to the merger, any other is skipped. */
  lemma MergedStep(uploads: seq<Upload>, i: nat, parse: Parser)
    requires i < |uploads|
    ensures var before := Merged(PdfContents(uploads[..i]), parse);
            Merged(PdfContents(uploads[..i + 1]), parse) ==
            if !EndsWith(uploads[i].filename, ".pdf") then before
            else match before
              case Failure(e) => Failure(e)
              case Success(p) =>
                match parse(uploads[i].content)
                case Failure(e) => Failure(e)
                case Success(d) => Success(p + d.pages)
  {
    var before := PdfContents(uploads[..i]);
    PdfContentsStep(uploads, i);
    if EndsWith(uploads[i].filename, ".pdf") {
      assert (before + [uploads[i].content])[..|before|] == before;
    } else {
      assert before + [] == before;
    }
  }

  /** Once the merger rejects an input, the rest of the uploads cannot change the outcome. */
  lemma {:induction false} MergedPrefixFails(uploads: seq<Upload>, i: nat, parse: Parser)
    requires i <= |uploads| && Merged(PdfContents(uploads[..i]), parse).Failure?
    ensures Merged(PdfContents(uploads), parse) == Merged(PdfContents(uploads[..i]), parse)
    decreases |uploads| - i
  {
    if i == |uploads| {
      assert uploads[..i] == uploads;
    } else {
      MergedStep(uploads, i, parse);
      MergedPrefixFails(uploads, i + 1, parse);
    }
  }

  /** The count is checked before the filter: two or more uploads none of which is named ".pdf"
      give an empty merged document, not an error. */
  lemma MergeCountsBeforeFiltering(files: seq<Part>, parse: Parser)
    requires |GetList(files, "files")| >= 2
    requires forall u :: u in GetList(files, "files") ==> !EndsWith(u.filename, ".pdf")
    ensures MergeReply(files, parse) == FileReply(PdfFile([]), "merged.pdf", None)
  {
    var uploads := GetList(files, "files");
    assert forall i :: 0 <= i < |uploads| ==> uploads[i] in uploads;
    PdfContentsNone(uploads);
  }

  /** Two readable ".pdf" uploads merge into the first's pages followed by the second's. */
  lemma MergeTwoPdfs(files: seq<Part>, parse: Parser)
    requires var uploads := GetList(files, "files");
             |uploads| == 2 && EndsWith(uploads[0].filename, ".pdf") && EndsWith(uploads[1].filename, ".pdf") &&
             parse(uploads[0].content).Success? && parse(uploads[1].content).Success?
    ensures var uploads := GetList(files, "files");
            MergeReply(files, parse) ==
            FileReply(PdfFile(parse(uploads[0].content).value.pages + parse(uploads[1].content).value.pages), "merged.pdf", None)
  {
    var uploads := GetList(files, "files");
    assert uploads[..1][..0] == [];
    assert uploads[..1] == [uploads[0]];
    assert PdfContents(uploads[..1]) == [uploads[0].content];
    assert PdfContents(uploads) == [uploads[0].content, uploads[1].content];
    MergedTwo(uploads[0].content, uploads[1].content, parse);
  }

  // ---- split_pdf ----

  /** split_pdf: a PDF holding only the first page. */
  function SplitPdf(files: seq<Part>, parse: Parser): Reply {
    match CheckPdfName(files)
    case Failure(rej) => Rejected(rej)
    case Success(file) =>
      match parse(file.content)
      case Failure(e) => JsonReply(500, ErrorBody(e))
      case Success(doc) =>
        if doc.pages == [] then JsonReply(500, ErrorBody(NoPageZero))
        else FileReply(PdfFile([doc.pages[0]]), "split_page_1.pdf", None)
  }

  /** A split succeeds exactly for a ".pdf" upload that reads as a non-empty document, and then
      keeps that document's first page and nothing else. */
  lemma SplitKeepsFirstPage(files: seq<Part>, parse: Parser)
    ensures SplitPdf(files, parse).FileReply? <==>
              CheckPdfName(files).Success? && parse(CheckPdfName(files).value.content).Success? &&
              |parse(CheckPdfName(files).value.content).value.pages| >= 1
    ensures SplitPdf(files, parse).FileReply? ==>
              var pages := parse(CheckPdfName(files).value.content).value.pages;
              SplitPdf(files, parse).data == PdfFile(pages[..1]) &&
              SplitPdf(files, parse).downloadName == "split_page_1.pdf"
  {
    if SplitPdf(files, parse).FileReply? {
      var pages := parse(CheckPdfName(files).value.content).value.pages;
      assert pages[..1] == [pages[0]];
    }
  }

  // ---- get_pdf_info ----

  /** get_pdf_info: name, page count, encryption, metadata, and the declared size of the part
      (0 when absent) as a kilobyte label. */
  function GetPdfInfo(files: seq<Part>, parse: Parser): Reply {
    match CheckPdfName(files)
    case Failure(rej) => Rejected(rej)
    case Success(file) =>
      match parse(file.content)
      case Failure(e) => JsonReply(500, ErrorBody(e))
      case Success(doc) =>
        JsonReply(200, InfoBody(file.filename, |doc.pages|, doc.encrypted, doc.metadata, KbLabel(file.contentLength.GetOr(0))))
  }

  /** Info and split validate alike, so "X.PDF" is refused by both although the converting
      routes accept it. */
  lemma InfoAndSplitRejectAlike(files: seq<Part>, parse: Parser)
    ensures CheckPdfName(files).Failure? ==> GetPdfInfo(files, parse) == SplitPdf(files, parse) == Rejected(CheckPdfName(files).error)
    ensures GetPdfInfo(files, parse).JsonReply? && GetPdfInfo(files, parse).status == 200 <==>
              CheckPdfName(files).Success? && parse(CheckPdfName(files).value.content).Success?
  {
  }
}
