/** api/convert.py: the single-request handler. A POST body is scanned for a file part by hand,
    the path picks a transform, and the handler writes the transform's output or a JSON body. */
module Serverless {
  import opened Results
  import opened Seqs
  import opened Bytes
  import opened Decimal
  import opened Pdf
  import opened Renditions
  import opened Multipart
  import opened Kilobytes

  const WordHeader := "PDF TO WORD CONVERSION\n\n"
  /** `str(e)` for the TypeError raised by subscripting the None that get_pdf_info returns. */
  const NoneNotSubscriptable := "'NoneType' object is not subscriptable"

  /** The JSON bodies the handler writes: {'status': 'ready', 'message': 'PDF Tools API'}, the
      info dictionary and {'error': str(e)}. */
  datatype Json = Ready | PdfInfo(pages: nat, encrypted: bool, size: string) | ErrorJson(error: string)

  /** One response written to the client. */
  datatype Response =
    | JsonResponse(status: nat, body: Json)
    | FileResponse(status: nat, contentType: string, filename: string, data: Payload)

  const ReadyResponse := JsonResponse(200, Ready)

  datatype Transform = ToWord | ToJpg | ToPpt | ToMerge | ToInfo

  /** The if/elif chain on self.path: four fixed paths, everything else goes to info. */
  function Route(path: string): (t: Transform)
    ensures t == ToWord <==> path == "/api/convert/word"
    ensures t == ToJpg <==> path == "/api/convert/jpg"
    ensures t == ToPpt <==> path == "/api/convert/ppt"
    ensures t == ToMerge <==> path == "/api/merge"
  {
    if path == "/api/convert/word" then ToWord
    else if path == "/api/convert/jpg" then ToJpg
    else if path == "/api/convert/ppt" then ToPpt
    else if path == "/api/merge" then ToMerge
    else ToInfo
  }

  /** Any other path, `/api/info` and `/split` included, is answered by the info transform. */
  lemma UnknownPathIsInfo(path: string)
    requires path !in {"/api/convert/word", "/api/convert/jpg", "/api/convert/ppt", "/api/merge"}
    ensures Route(path) == ToInfo
  {
  }

  /** `/api/info` has no branch of its own, and `/split` is not a serverless route: both get info. */
  lemma InfoAndSplitPathsAreInfo()
    ensures Route("/api/info") == ToInfo && Route("/split") == ToInfo
  {
  }

  /** What convert_to_word returns, or the reader's exception. */
  function WordOutput(data: seq<byte>, parse: Parser): Result<Output, string> {
    match parse(data)
    case Failure(e) => Failure(e)
    case Success(doc) => Success(Output(Text(WordText(WordHeader, doc.pages, ServerlessPlaceholder)), "converted.docx", WordMime))
  }

  method ConvertToWord(data: seq<byte>, parse: Parser) returns (r: Result<Output, string>)
    ensures r == WordOutput(data, parse)
  {
    var reader := parse(data);
    if reader.Failure? {
      return Failure(reader.error);
    }
    var pages := reader.value.pages;
    var textContent := WordHeader;
    var pageNum := 0;
    while pageNum < |pages|
      invariant 0 <= pageNum <= |pages|
      invariant textContent == WordText(WordHeader, pages[..pageNum], ServerlessPlaceholder)
    {
      var entry := "Page " + NatToString(pageNum + 1) + ":\n";
      entry := entry + OrElse(pages[pageNum].text, ServerlessPlaceholder);
      entry := entry + "\n" + Rule + "\n";
      assert entry == WordEntry(pageNum + 1, pages[pageNum].text, ServerlessPlaceholder);
      assert pages[..pageNum + 1][..pageNum] == pages[..pageNum];
      textContent := textContent + entry;
      pageNum := pageNum + 1;
    }
    assert pages[..|pages|] == pages;
    r := Success(Output(Text(textContent), "converted.docx", WordMime));
  }

  /** convert_to_jpg: a fixed caption image (the PIL rendering is the parameter `jpeg`); the
      upload is never read. */
  function ConvertToJpg(data: seq<byte>, jpeg: seq<byte>): Output {
    Output(Image(jpeg), "converted.jpg", "image/jpeg")
  }

  /** What convert_to_ppt returns, or the reader's exception. */
  function PptOutput(data: seq<byte>, parse: Parser): Result<Output, string> {
    match parse(data)
    case Failure(e) => Failure(e)
    case Success(doc) => Success(Output(Text(ServerlessPptText(|doc.pages|)), "converted.pptx", PptMime))
  }

  method ConvertToPpt(data: seq<byte>, parse: Parser) returns (r: Result<Output, string>)
    ensures r == PptOutput(data, parse)
  {
    var reader := parse(data);
    if reader.Failure? {
      return Failure(reader.error);
    }
    var n := |reader.value.pages|;
    var pptContent := ServerlessPptHeader;
    pptContent := pptContent + "Total Pages: " + NatToString(n) + "\n\n";
    var start := pptContent;
    var i := 0;
    while i < Min(SlideLimit, n)
      invariant 0 <= i <= Min(SlideLimit, n)
      invariant pptContent == ServerlessSlides(start, i)
    {
      var slide := "Slide " + NatToString(i + 1) + ":\n";
      slide := slide + SlideFiller;
      pptContent := pptContent + slide;
      i := i + 1;
    }
    r := Success(Output(Text(pptContent), "converted.pptx", PptMime));
  }

  /** What merge_pdfs returns, or the exception of the first input the reader rejects. */
  function MergeOutput(datas: seq<seq<byte>>, parse: Parser): Result<Output, string> {
    match Merged(datas, parse)
    case Failure(e) => Failure(e)
    case Success(pages) => Success(Output(PdfFile(pages), "merged.pdf", "application/pdf"))
  }

  method MergePdfs(datas: seq<seq<byte>>, parse: Parser) returns (r: Result<Output, string>)
    ensures r == MergeOutput(datas, parse)
  {
    var merged: seq<Page> := [];
    var i := 0;
    while i < |datas|
      invariant 0 <= i <= |datas|
      invariant Merged(datas[..i], parse) == Success(merged)
    {
      assert datas[..i + 1][..i] == datas[..i];
      var reader := parse(datas[i]);
      if reader.Failure? {
        assert Merged(datas[..i + 1], parse) == Failure(reader.error);
        MergedFailurePersists(datas[..i + 1], datas[i + 1..], parse);
        assert datas[..i + 1] + datas[i + 1..] == datas;
        return Failure(reader.error);
      }
      merged := merged + reader.value.pages;
      i := i + 1;
    }
    assert datas[..|datas|] == datas;
    r := Success(Output(PdfFile(merged), "merged.pdf", "application/pdf"));
  }

  /** get_pdf_info: the info dictionary it sends itself, or the reader's exception. */
  function GetPdfInfo(data: seq<byte>, parse: Parser): Result<Json, string> {
    match parse(data)
    case Failure(e) => Failure(e)
    case Success(doc) => Success(PdfInfo(|doc.pages|, doc.encrypted, KbLabel(|data|)))
  }

  /** What do_POST writes for a transform's result: the file with status 200, or the 500 JSON
      of the except clause. */
  function Served(r: Result<Output, string>): seq<Response> {
    match r
    case Failure(e) => [JsonResponse(500, ErrorJson(e))]
    case Success(out) => [FileResponse(200, out.contentType, out.filename, out.data)]
  }

  /** Everything do_POST writes, in order, for a request to `path` with body `body`. */
  function PostResponses(path: string, body: seq<byte>, parse: Parser, jpeg: seq<byte>): seq<Response> {
    match FilePayload(body)
    case None => [ReadyResponse]
    case Some(data) =>
      match Route(path)
      case ToWord => Served(WordOutput(data, parse))
      case ToJpg => Served(Success(ConvertToJpg(data, jpeg)))
      case ToPpt => Served(PptOutput(data, parse))
      case ToMerge => Served(MergeOutput([data], parse))
      case ToInfo =>
        match GetPdfInfo(data, parse)
        case Failure(e) => [JsonResponse(500, ErrorJson(e))]
        case Success(info) => [JsonResponse(200, info), JsonResponse(500, ErrorJson(NoneNotSubscriptable))]
  }

  /** do_POST after the body has been read. */
  method HandlePost(path: string, body: seq<byte>, parse: Parser, jpeg: seq<byte>) returns (sent: seq<Response>)
    ensures sent == PostResponses(path, body, parse, jpeg)
  {
    var fileData := ExtractFile(body);
    if fileData.None? {
      return [ReadyResponse];
    }
    var data := fileData.value;
    var result: Result<Output, string>;
    match Route(path) {
      case ToWord =>
        result := ConvertToWord(data, parse);
      case ToJpg =>
        result := Success(ConvertToJpg(data, jpeg));
      case ToPpt =>
        result := ConvertToPpt(data, parse);
      case ToMerge =>
        result := MergePdfs([data], parse);
      case ToInfo =>
        var info := GetPdfInfo(data, parse);
        if info.Failure? {
          return [JsonResponse(500, ErrorJson(info.error))];
        }
        // the info JSON is already sent; subscripting the returned None raises
        return [JsonResponse(200, info.value), JsonResponse(500, ErrorJson(NoneNotSubscriptable))];
    }
    sent := Served(result);
  }

  /** A body without the bytes `filename` gets the "ready" JSON and nothing else. */
  lemma ReadyWithoutFilename(path: string, body: seq<byte>, parse: Parser, jpeg: seq<byte>)
    requires !Contains(body, NameWord)
    ensures PostResponses(path, body, parse, jpeg) == [ReadyResponse]
  {
  }

  /** The "ready" JSON is the answer exactly when no file part is found, whatever the path. */
  lemma ReadyIffNoFilePart(path: string, body: seq<byte>, parse: Parser, jpeg: seq<byte>)
    ensures PostResponses(path, body, parse, jpeg) == [ReadyResponse] <==> FilePayload(body).None?
  {
  }

  /** The info branch always ends in a 500: after a readable document the info JSON goes out
      with 200 and is followed by the TypeError's 500; an unreadable one gets only the 500. */
  lemma InfoEndsInServerError(path: string, body: seq<byte>, parse: Parser, jpeg: seq<byte>)
    requires FilePayload(body).Some? && Route(path) == ToInfo
    ensures var sent := PostResponses(path, body, parse, jpeg);
            var data := FilePayload(body).value;
            && sent[|sent| - 1].JsonResponse? && sent[|sent| - 1].status == 500
            && (parse(data).Success? ==>
                  sent == [JsonResponse(200, PdfInfo(|parse(data).value.pages|, parse(data).value.encrypted, KbLabel(|data|))),
                           JsonResponse(500, ErrorJson(NoneNotSubscriptable))])
  {
  }

  /** The jpg path answers with the same image for every file part, readable or not. */
  lemma JpgIgnoresUpload(body: seq<byte>, parse: Parser, jpeg: seq<byte>)
    requires FilePayload(body).Some?
    ensures PostResponses("/api/convert/jpg", body, parse, jpeg) ==
            [FileResponse(200, "image/jpeg", "converted.jpg", Image(jpeg))]
  {
  }

  /** The merge path merges the one extracted file on its own: its pages come back unchanged. */
  lemma MergeOfOneFile(body: seq<byte>, parse: Parser, jpeg: seq<byte>)
    requires FilePayload(body).Some? && parse(FilePayload(body).value).Success?
    ensures PostResponses("/api/merge", body, parse, jpeg) ==
            [FileResponse(200, "application/pdf", "merged.pdf", PdfFile(parse(FilePayload(body).value).value.pages))]
  {
    var data := FilePayload(body).value;
    assert [data][..0] == [];
    assert [] + parse(data).value.pages == parse(data).value.pages;
    assert Merged([data], parse) == Success(parse(data).value.pages);
  }

  /** The Word rendition starts with its header and holds a block for every page. */
  lemma WordOutputHasEveryPage(data: seq<byte>, parse: Parser, k: nat)
    requires parse(data).Success? && 1 <= k <= |parse(data).value.pages|
    ensures WordOutput(data, parse).Success?
    ensures var out := WordOutput(data, parse).value;
            var pages := parse(data).value.pages;
            && out.data.Text? && StartsWith(out.data.text, WordHeader)
            && Contains(out.data.text, WordEntry(k, pages[k - 1].text, ServerlessPlaceholder))
  {
    var pages := parse(data).value.pages;
    WordTextHasPage(WordHeader, pages, ServerlessPlaceholder, k);
    WordTextStartsWith(WordHeader, pages, ServerlessPlaceholder);
  }

  /** The PowerPoint rendition depends on the page count only, never on the pages' text. */
  lemma PptOutputIgnoresText(d1: seq<byte>, d2: seq<byte>, parse: Parser)
    requires parse(d1).Success? && parse(d2).Success?
    requires |parse(d1).value.pages| == |parse(d2).value.pages|
    ensures PptOutput(d1, parse) == PptOutput(d2, parse)
  {
  }
}
