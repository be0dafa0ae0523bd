/** The PDF library as seen by the handlers: a reader that turns bytes into a document of pages,
    and a merger that concatenates the pages of several documents. */
module Pdf {
  import opened Results
  import opened Bytes

  /** One page of a parsed document: its own bytes (opaque here) and what text extraction
      returns for it, the empty string when nothing is extractable. */
  datatype Page = Page(content: seq<byte>, text: string)

  datatype Document = Document(pages: seq<Page>, encrypted: bool, metadata: Option<map<string, string>>)

  /** The reader: a document, or the message of the exception it raises on malformed bytes. */
  type Parser = seq<byte> -> Result<Document, string>

  /** What a transform streams back: text encoded as UTF-8, a JPEG image, or a PDF that the
      library writes holding exactly the given pages. */
  datatype Payload = Text(text: string) | Image(jpeg: seq<byte>) | PdfFile(pages: seq<Page>)

  /** The dictionary a transform returns: data, filename and content type. */
  datatype Output = Output(data: Payload, filename: string, contentType: string)

  /** Appending each input to the merger in order: the pages of all inputs, in input order,
      or the error of the first input the reader rejects. */
  function Merged(docs: seq<seq<byte>>, parse: Parser): Result<seq<Page>, string>
    decreases |docs|
  {
    if docs == [] then Success([])
    else
      match Merged(docs[..|docs| - 1], parse)
      case Failure(e) => Failure(e)
      case Success(pages) =>
        match parse(docs[|docs| - 1])
        case Failure(e) => Failure(e)
        case Success(doc) => Success(pages + doc.pages)
  }

  /** Merging a concatenation of inputs merges each part and concatenates the pages; a failure
      in the first part is final. */
  lemma {:induction false} MergedAppend(xs: seq<seq<byte>>, ys: seq<seq<byte>>, parse: Parser)
    ensures Merged(xs + ys, parse) ==
      match Merged(xs, parse)
      case Failure(e) => Failure(e)
      case Success(p) =>
        match Merged(ys, parse)
        case Failure(e) => Failure(e)
        case Success(q) => Success(p + q)
    decreases |ys|
  {
    if ys == [] {
      assert xs + ys == xs;
      if Merged(xs, parse).Success? {
        assert Merged(xs, parse).value + [] == Merged(xs, parse).value;
      }
    } else {
      var init := ys[..|ys| - 1];
      assert (xs + ys)[..|xs + ys| - 1] == xs + init;
      assert (xs + ys)[|xs + ys| - 1] == ys[|ys| - 1];
      MergedAppend(xs, init, parse);
      if Merged(xs, parse).Success? && Merged(init, parse).Success? && parse(ys[|ys| - 1]).Success? {
        var p, q, d := Merged(xs, parse).value, Merged(init, parse).value, parse(ys[|ys| - 1]).value;
        assert p + q + d.pages == p + (q + d.pages);
      }
    }
  }

  /** Once an input is rejected, later inputs do not change the outcome. */
  lemma {:induction false} MergedFailurePersists(xs: seq<seq<byte>>, ys: seq<seq<byte>>, parse: Parser)
    requires Merged(xs, parse).Failure?
    ensures Merged(xs + ys, parse) == Merged(xs, parse)
    decreases |ys|
  {
    if ys == [] {
      assert xs + ys == xs;
    } else {
      var init := ys[..|ys| - 1];
      assert (xs + ys)[..|xs + ys| - 1] == xs + init;
      MergedFailurePersists(xs, init, parse);
    }
  }

  /** The merge succeeds exactly when the reader accepts every input. */
  lemma {:induction false} MergedSucceedsIff(docs: seq<seq<byte>>, parse: Parser)
    ensures Merged(docs, parse).Success? <==> forall i :: 0 <= i < |docs| ==> parse(docs[i]).Success?
    decreases |docs|
  {
    if docs != [] {
      var init := docs[..|docs| - 1];
      MergedSucceedsIff(init, parse);
      assert forall i :: 0 <= i < |init| ==> init[i] == docs[i];
    }
  }

  /** A failed merge reports the error of the first input the reader rejects. */
  lemma {:induction false} MergedFirstFailure(docs: seq<seq<byte>>, parse: Parser)
    requires Merged(docs, parse).Failure?
    ensures exists i :: 0 <= i < |docs| && parse(docs[i]) == Failure(Merged(docs, parse).error) &&
                        forall j :: 0 <= j < i ==> parse(docs[j]).Success?
    decreases |docs|
  {
    var init := docs[..|docs| - 1];
    assert forall j :: 0 <= j < |init| ==> init[j] == docs[j];
    if Merged(init, parse).Failure? {
      MergedFirstFailure(init, parse);
      var i :| 0 <= i < |init| && parse(init[i]) == Failure(Merged(init, parse).error) &&
        forall j :: 0 <= j < i ==> parse(init[j]).Success?;
      assert parse(docs[i]) == Failure(Merged(docs, parse).error);
    } else {
      MergedSucceedsIff(init, parse);
      var i := |docs| - 1;
      assert parse(docs[i]) == Failure(Merged(docs, parse).error);
    }
  }

  /** Two accepted inputs of m and n pages merge into m + n pages, the first input's first. */
  lemma MergedTwo(a: seq<byte>, b: seq<byte>, parse: Parser)
    requires parse(a).Success? && parse(b).Success?
    ensures Merged([a, b], parse) == Success(parse(a).value.pages + parse(b).value.pages)
    ensures |Merged([a, b], parse).value| == |parse(a).value.pages| + |parse(b).value.pages|
  {
    assert [a, b][..1] == [a];
    assert [a][..0] == [];
    assert [] + parse(a).value.pages == parse(a).value.pages;
    assert Merged([a], parse) == Success(parse(a).value.pages);
  }
}
