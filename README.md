# PDFTOOLS, modelled in Dafny

PDFTOOLS converts, merges, splits and describes uploaded PDF files. It has two entry points:

- `app.py`, a Flask application. Its routes `/convert/word`, `/convert/jpg`, `/convert/ppt`,
  `/merge`, `/split` and `/info` validate a multipart form, read the PDF and answer with a file
  or a JSON body.
- `api/convert.py`, a serverless `BaseHTTPRequestHandler`. Its `do_POST` scans the raw request
  body for a file part by hand, picks a transform from the request path and writes the
  transform's output.

This project models the logic both entry points own:

- the byte-level multipart scan of `do_POST`;
- the path dispatch and the choice of responses, including the doubled response of the info
  branch;
- the page-by-page "Word" and "PowerPoint" text builders;
- `allowed_file` and the upload-validation chains of every Flask route;
- the count-then-filter rule of the merge route.

The PDF library is a parameter `parse: seq<byte> -> Result<Document, string>`. A document is a
sequence of pages, each with the text extraction gives for it. The imaging library,
`secure_filename` and the `Date` header are parameters as well.

Modules, in dependency order:

- `Results`: `Option`, `Result`.
- `Seqs`: Python's `startswith`, `endswith`, `in` and `s[a:b]` (negative indices included).
- `Decimal`: `str(n)` for non-negative integers.
- `Bytes`: `bytes.split(b'\r\n')` and `b'\r\n'.join`.
- `Kilobytes`: the size label `f"{n / 1024:.2f} KB"`.
- `Pdf`: pages, documents, the reader type and the merger.
- `Renditions`: the Word and PowerPoint texts, as functions the loops are proved against.
- `Multipart`: the serverless file-part scan.
- `Serverless`: `api/convert.py`.
- `Server`: `app.py`.

Every loop of the modelled core is a `method` with a `while` loop and its invariants. Each is proved
equal to a recursive specification function, and the properties are lemmas about those
functions.

## Model

| member | source | states |
|---|---|---|
| Bytes.SplitLines | api/convert.py:25 | `body.split(b'\r\n')` always yields at least one piece, and the first piece is a prefix of the input |
| Bytes.JoinLines | api/convert.py:37 | the model of `b'\r\n'.join(lines)`, a definition without a contract; JoinSplit and SplitJoin tie it to the split |
| Bytes.JoinSplit | api/convert.py:25 | joining the pieces of a split with CRLF gives back the original bytes |
| Bytes.SplitJoin | api/convert.py:37 | splitting the CRLF-join of CRLF-free lines gives back exactly those lines |
| Bytes.SplitLinesCrlfFree | api/convert.py:25 | no line produced by the split contains CR followed by LF |
| Bytes.JoinRunContained | api/convert.py:37 | the join of any contiguous run of lines occurs inside the join of all of them |
| Bytes.JoinAppend | api/convert.py:37 | joining two non-empty runs of lines puts exactly one CRLF between their joins |
| Bytes.SplitConcat | api/convert.py:25 | a CRLF between two byte strings separates their pieces: the split of the whole is both splits concatenated |
| Decimal.NatToString | app.py:54 | the rendering of a page number is a non-empty digit string without a leading zero |
| Decimal.NatToStringRoundTrip | app.py:54 | reading the digits back gives the number |
| Decimal.NatToStringInjective | app.py:54 | distinct page numbers render differently, so page labels never coincide |
| Kilobytes.Centikilobytes | api/convert.py:164 | the number of hundredths is within 1/2 of 25n/256, and a tie goes to the even one |
| Kilobytes.CentikilobytesUnique | api/convert.py:164 | any value meeting that rounding contract is the one computed, so the rounding is fully determined |
| Kilobytes.TwoDigits | app.py:287 | the fraction is exactly two digits denoting the hundredths, leading zero kept |
| Kilobytes.KbLabel | api/convert.py:164 | the model of `f"{n / 1024:.2f} KB"`, a definition without a contract; KbLabelReadsBack and the examples state what it prints |
| Kilobytes.KbLabelReadsBack | app.py:287 | the size label is whole kilobytes, '.', two digits and " KB", and it denotes the rounded value |
| Kilobytes.KbLabelZero | app.py:287 | a part without a declared size is labelled "0.00 KB" |
| Kilobytes.KbLabelWhole | api/convert.py:164 | 1024 bytes are labelled "1.00 KB" |
| Kilobytes.KbLabelHalf | api/convert.py:164 | 1536 bytes are labelled "1.50 KB" |
| Kilobytes.KbLabelTieDown | api/convert.py:164 | 128 bytes (0.125 KB, a tie) round down to the even "0.12 KB" |
| Kilobytes.KbLabelTieUp | api/convert.py:164 | 384 bytes (0.375 KB, a tie) round up to the even "0.38 KB" |
| Pdf.Merged | api/convert.py:140-148 | the model of appending every input to the merger, a definition without a contract; the Merged* lemmas below state its properties |
| Pdf.MergedAppend | api/convert.py:143-148 | merging a concatenation of inputs concatenates the pages of each part's merge, and a failure in the first part is final |
| Pdf.MergedFailurePersists | api/convert.py:143-145 | once the reader rejects an input, later inputs do not change the outcome |
| Pdf.MergedSucceedsIff | api/convert.py:143-145 | the merge succeeds exactly when the reader accepts every input |
| Pdf.MergedFirstFailure | api/convert.py:143-145 | a failed merge reports the error of the first input the reader rejects, after accepting all earlier ones |
| Pdf.MergedTwo | app.py:229-234 | two readable PDFs merge into the first's pages followed by the second's, m + n pages in all |
| Renditions.Repeat | app.py:56 | `"=" * 50` is fifty '=' characters |
| Renditions.WordTextHasPage | app.py:53-56 | for every k in 1..N, the text holds the block "Page k:\n", then the page text or the placeholder, then "\n", fifty '=' and "\n" |
| Renditions.WordTextStartsWith | api/convert.py:91-95 | the accumulated text keeps its initial header at the front |
| Renditions.WordTextEndsWithRule | app.py:56 | a document with at least one page produces a text ending in fifty '=' and a newline |
| Renditions.WordTextPlaceholderUnused | app.py:55 | when every page has non-empty text, the placeholder never appears: a non-empty text (even whitespace) is kept verbatim |
| Renditions.ServerSlidesAreFirstThree | app.py:175-177 | exactly min(3, N) slide blocks "SLIDE k:\n" + text + "\n\n" for the first pages, with "Page k content" for an empty text; later pages contribute nothing |
| Renditions.ServerlessSlidesAreFirstThree | api/convert.py:130-132 | exactly min(3, N) fixed blocks "Slide k:\nContent from PDF would appear here\n\n" |
| Multipart.LastNameLine | api/convert.py:29-31 | the index found lies before the scan position, or is -1 |
| Multipart.LastNameLineSpec | api/convert.py:29-31 | `file_start` comes from the last `filename="` line seen so far, -1 meaning none: a later filename line overrides an earlier one |
| Multipart.LastNameLineIs | api/convert.py:29-31 | the last filename line is uniquely determined by that characterization |
| Multipart.FirstEnd | api/convert.py:29-34 | the stopping index is -1 or a line index at or after the start |
| Multipart.FirstEndSpec | api/convert.py:32-34 | the scan stops at the first line that starts with `------` at or after a `filename="` line, -1 meaning it runs off the end |
| Multipart.FirstEndIs | api/convert.py:32-34 | the stopping line is uniquely determined by that characterization |
| Multipart.ScanFilePart | api/convert.py:26-34 | the loop's `file_end` is the first stopping line, and its `file_start` is three past the last filename line at or before it (or -1) |
| Multipart.LinesPayload | api/convert.py:26-37 | the specification of the scan and join on the body's lines, a definition without a contract; LinesPayloadSlice states its slice |
| Multipart.FilePayload | api/convert.py:23-37 | the specification of the whole extraction, a definition without a contract; ExtractFile is proved equal to it and the Payload* lemmas state its properties |
| Multipart.ExtractFile | api/convert.py:23-37 | the extracted file is the payload function of the body: None when the body lacks `filename` or no stopping line is found |
| Multipart.PayloadFoundIff | api/convert.py:23-36 | a file part is found exactly when the body contains `filename` and some line starting with `------` follows, or is, a `filename="` line |
| Multipart.PayloadFoundHasStop | api/convert.py:23-36 | a found payload comes from a body containing `filename` whose lines have a stop at FirstEnd |
| Multipart.StopGivesPayload | api/convert.py:23-36 | a body containing `filename` with any stopping line yields a payload |
| Multipart.NoNameWordNoPayload | api/convert.py:23 | without the bytes `filename` nothing is extracted |
| Multipart.PayloadLines | api/convert.py:37 | the payload is the CRLF-join of lines[file_start .. file_end-1]: the line just before the delimiter is excluded, and the payload is empty when file_start >= file_end-1 |
| Multipart.LinesPayloadSlice | api/convert.py:36-37 | the same slice statement, stated on the body's lines |
| Multipart.PayloadWhenStopAtFirstLine | api/convert.py:37 | when the stop is line 0, `file_end-1` is -1 and counts from the back: the payload is lines 3 .. next-to-last |
| Multipart.PayloadIsRunOfBody | api/convert.py:25-37 | the payload is always a contiguous byte range of the body |
| Multipart.BetweenLinesClean | api/convert.py:29-34 | no line from file_start up to the stop starts with `------` or contains `filename="` |
| Multipart.KeptLinesClean | api/convert.py:29-37 | the kept lines, re-split after the join, are still free of delimiters and filename markers |
| Multipart.CleanRunResplits | api/convert.py:37 | a run of clean CRLF-free lines re-splits after joining into lines that are still clean |
| Multipart.PayloadLinesClean | api/convert.py:25-37 | with file_end >= 1, no CRLF-separated line of the payload starts with `------` or contains `filename="` |
| Multipart.SinglePartLines | api/convert.py:25 | a browser's single-part body splits into boundary, two header lines, the blank line, the file's lines, the closing boundary, and an empty piece |
| Multipart.SinglePartMentionsName | api/convert.py:23 | such a body passes the `b'filename' in post_data` test |
| Multipart.SinglePartScan | api/convert.py:29-34 | on such a body the scan stops at the closing boundary, and the filename line is line 1, so file_start is 4 |
| Multipart.SinglePartLinesPayload | api/convert.py:37 | on those lines the payload is every line of the file's bytes but the last |
| Multipart.SinglePartDropsLastLine | api/convert.py:23-37 | for a well-formed single-part body, the extractor returns the file's lines without the last one |
| Multipart.SinglePartTrailingCrlf | api/convert.py:37 | a file whose bytes end in CRLF comes back without that final CRLF |
| Multipart.SinglePartLosesLastLine | api/convert.py:37 | a file whose last line is non-empty never comes back intact |
| Serverless.Route | api/convert.py:40-49 | each of the four fixed paths selects its transform, and only that path does |
| Serverless.UnknownPathIsInfo | api/convert.py:48-49 | every other path, `/api/info` and `/split` included, goes to info |
| Serverless.InfoAndSplitPathsAreInfo | api/convert.py:40-49 | `/api/info` and `/split` are answered by the info transform |
| Serverless.WordOutput | api/convert.py:87-101 | the specification of convert_to_word, a definition without a contract; the method ConvertToWord is proved equal to it |
| Serverless.PptOutput | api/convert.py:123-138 | the specification of convert_to_ppt, a definition without a contract; the method ConvertToPpt is proved equal to it |
| Serverless.MergeOutput | api/convert.py:140-155 | the specification of merge_pdfs, a definition without a contract; the method MergePdfs is proved equal to it |
| Serverless.ConvertToWord | api/convert.py:87-101 | the loop's text is the header followed by every page block with "[Content]" for empty text, named converted.docx with the Word mimetype; an unreadable upload gives the reader's error |
| Serverless.ConvertToPpt | api/convert.py:123-138 | the text is the header, "Total Pages: N", then min(3, N) fixed slide blocks, named converted.pptx |
| Serverless.MergePdfs | api/convert.py:140-155 | the merger's pages are all inputs' pages in order, named merged.pdf, or the first rejected input's error |
| Serverless.ConvertToJpg | api/convert.py:103-121 | the model of convert_to_jpg, a definition without a contract: the fixed image named converted.jpg, never reading the upload (JpgIgnoresUpload) |
| Serverless.GetPdfInfo | api/convert.py:157-168 | the model of get_pdf_info's sent dictionary, a definition without a contract; InfoEndsInServerError states the responses it leads to |
| Serverless.PostResponses | api/convert.py:23-63 | the specification of everything do_POST writes, a definition without a contract; HandlePost is proved equal to it and the lemmas below state its properties |
| Serverless.HandlePost | api/convert.py:17-63 | the responses written are those of the scan, the dispatch and the transforms, in order, the info branch's two responses included |
| Serverless.ReadyWithoutFilename | api/convert.py:23-60 | a body without `filename` gets only the 200 "ready" JSON |
| Serverless.ReadyIffNoFilePart | api/convert.py:36-60 | the "ready" JSON is the answer exactly when no file part is found, whatever the path |
| Serverless.InfoEndsInServerError | api/convert.py:48-63 | the info branch always ends in a 500: a readable document's info JSON goes out with 200 and is then followed by the TypeError from subscripting the returned None |
| Serverless.JpgIgnoresUpload | api/convert.py:103-121 | the jpg path answers with the same image named converted.jpg for every file part, readable or not |
| Serverless.MergeOfOneFile | api/convert.py:46-47 | the merge path merges the single extracted file on its own: its pages come back unchanged as merged.pdf |
| Serverless.WordOutputHasEveryPage | api/convert.py:91-95 | the Word text starts with "PDF TO WORD CONVERSION\n\n" and holds a block for every page |
| Serverless.PptOutputIgnoresText | api/convert.py:127-132 | the PowerPoint text depends only on the page count, never on the pages' text |
| Server.GetList | app.py:223 | `getlist` yields no more uploads than parts, and is empty exactly when the field is absent |
| Server.GetListFirst | app.py:42 | `request.files[field]` is the upload of the earliest part carrying that field |
| Server.Lower | app.py:18 | `lower()` keeps the length and lowers A-Z character by character |
| Server.LastIndexOf | app.py:18 | `rsplit('.', 1)` splits at the last dot: the index holds the dot, and no later character is one |
| Server.AllowedFile | app.py:17-18 | the model of allowed_file, a definition without a contract; AllowedFileIff characterizes it |
| Server.AllowedFileIff | app.py:17-18 | a name is allowed exactly when it ends in '.' and three characters that lower to "pdf" |
| Server.AllowedFileHasPdfSuffix | app.py:17-18 | an allowed name ends in a dot and case-insensitive "pdf" |
| Server.PdfSuffixIsAllowed | app.py:17-18 | every such name is allowed |
| Server.EndsWithPdfIsAllowed | app.py:17-18 | a case-sensitive ".pdf" suffix always passes allowed_file |
| Server.AcceptsUpperCase | app.py:18 | "A.PDF" is allowed |
| Server.AcceptsDoubleExtension | app.py:18 | "x.tar.pdf" is allowed |
| Server.RejectedNames | app.py:18 | "report.txt" and "pdf" are rejected |
| Server.ChecksDisagreeOnUpperCase | app.py:251 | "X.PDF" passes allowed_file but not the `endswith('.pdf')` check of split and info |
| Server.CheckConvertUpload | app.py:39-47 | the model of the word, jpg and ppt validation chain, a definition without a contract; CheckConvertUploadOrder states its order |
| Server.CheckPdfName | app.py:247-252 | the model of the split and info checks, a definition without a contract; PdfNameCheckIsStricter compares it with the other chain |
| Server.CheckConvertUploadOrder | app.py:39-47 | the three 400s come in order, each reached only when the earlier checks pass, and an accepted upload is the first `file` part |
| Server.PdfNameCheckIsStricter | app.py:247-252 | whatever split/info accept, the converting routes accept too, with the same upload; "X.PDF" is accepted only by the latter |
| Server.ValidationIgnoresContent | app.py:39-47 | validation depends only on the field names and filenames, never on the bytes |
| Server.FirstAlike | app.py:42 | forms that agree on fields and names pick uploads with the same name |
| Server.WordReply | app.py:35-87 | the specification of convert_to_word, a definition without a contract; the method ConvertToWord is proved equal to it |
| Server.WordFromUpload | app.py:49-87 | convert_to_word past validation, a definition without a contract; WordUploadReplies and WordReplyHasEveryPage state its outcome |
| Server.ConvertToWord | app.py:35-87 | the reply is the validation rejection, a 500 "Conversion failed: …" for an unreadable upload, or the .docx built by the page loop and the template |
| Server.PageBlocks | app.py:51-56 | the loop's text is every page block in order, with "[No extractable text]" for an empty text |
| Server.WordReplyHasEveryPage | app.py:53-84 | an accepted, readable upload becomes a file named "converted_" + secure name + ".docx" with the Word mimetype, holding every page's block and "Total Pages: N" |
| Server.WordDocumentContains | app.py:62-73 | the template keeps everything its content holds, and its page-count line |
| Server.WordUploadReplies | app.py:50-87 | past validation, the .docx comes exactly when the upload reads, otherwise a 500 carrying the reader's error, never a 400 |
| Server.ConvertToJpg | app.py:89-155 | the model of the jpg route, a definition without a contract: the validation rejection, or JpgFromUpload; ConvertRoutesRejectAlike covers the rejection |
| Server.JpgFromUpload | app.py:103-155 | the model of the jpg route past validation, a definition without a contract; JpgReplyCases states its cases |
| Server.JpgReplyCases | app.py:105-155 | past validation, the image named "converted_" + secure name + "_page_1.jpg" comes exactly when the upload reads and draws; the fallback JSON with the page count comes when only drawing fails; an escaping exception comes when nothing reads; never a JSON error |
| Server.PptReply | app.py:157-213 | the specification of convert_to_ppt, a definition without a contract; the method ConvertToPpt is proved equal to it |
| Server.PptFromUpload | app.py:171-213 | convert_to_ppt past validation, a definition without a contract; PptUploadReplies and PptReplyIgnoresLaterPages state its outcome |
| Server.ConvertToPpt | app.py:157-213 | the reply is the rejection, the 500 or the .pptx built from the first three pages |
| Server.SlideBlocks | app.py:173-177 | the loop's text is the slide blocks of the pages it visits |
| Server.PptReplyIgnoresLaterPages | app.py:175-197 | documents with the same page count that agree on their first three pages' text give the same reply |
| Server.PptUploadReplies | app.py:172-213 | past validation, the .pptx comes exactly when the upload reads, otherwise a 500 carrying the reader's error |
| Server.ConvertRoutesRejectAlike | app.py:93-101 | word, jpg and ppt reject a form identically |
| Server.PdfContents | app.py:229-231 | at most one input per upload: only names ending in ".pdf" contribute |
| Server.PdfContentsAppend | app.py:229-231 | the filter distributes over concatenation, keeping order |
| Server.PdfContentsNone | app.py:229-231 | uploads none of which ends in ".pdf" contribute nothing |
| Server.MergeReply | app.py:216-241 | the specification of merge_pdfs, a definition without a contract; MergePdfs is proved equal to it and MergeCountsBeforeFiltering and MergeTwoPdfs state its properties |
| Server.MergePdfs | app.py:216-241 | the reply is "No files provided", "Please provide at least 2 PDF files", the reader's 500, or merged.pdf of the ".pdf" uploads in order |
| Server.MergeNamedPdfs | app.py:227-235 | the loop appends exactly the ".pdf" uploads, in order, and stops at the first one the reader rejects |
| Server.PdfContentsStep | app.py:229-231 | one step of the filter loop |
| Server.MergedStep | app.py:229-231 | one more upload: a ".pdf" one is appended to the merger, any other is skipped |
| Server.MergedPrefixFails | app.py:229-231 | once the merger rejects an input, the remaining uploads cannot change the outcome |
| Server.MergeCountsBeforeFiltering | app.py:223-231 | two or more uploads none of which ends in ".pdf" give an empty merged.pdf, not a 400 |
| Server.MergeTwoPdfs | app.py:223-238 | two readable ".pdf" uploads merge into the first's pages followed by the second's |
| Server.SplitPdf | app.py:243-267 | the model of split_pdf, a definition without a contract; SplitKeepsFirstPage states its outcome |
| Server.SplitKeepsFirstPage | app.py:243-267 | a split succeeds exactly for a ".pdf" upload that reads as a non-empty document, and holds that document's first page alone, named split_page_1.pdf |
| Server.GetPdfInfo | app.py:269-293 | the model of get_pdf_info, a definition without a contract: name, pages, encryption, metadata and the size label of the declared length (0 when absent); InfoAndSplitRejectAlike states when it answers 200 |
| Server.InfoAndSplitRejectAlike | app.py:273-293 | info and split reject alike, and info answers 200 exactly for a readable ".pdf" upload |

## Left out

- Transport is not modelled: the socket, reading `Content-Length`, response headers, CORS, `do_OPTIONS`, `do_GET`, the home and health routes, the Vercel entry point and `app.run`. `HandlePost` starts from the request body already read. Its responses are the status and body of each JSON or file write; in the info branch, `send_response(200)` at `api/convert.py:51` also buffers a second 200 status line with its headers before the `TypeError`, and that line goes out ahead of the 500, so `[200 info, 500 error]` is not the literal byte stream.
- Header-writing failures are not modelled. In `api/convert.py:51-57` the transforms that return a dictionary always have the keys read there.
- The PDF library is the `Parser` parameter. Its parsing, `extract_text`, `is_encrypted` and `metadata`, and the bytes `PdfMerger` and `PdfWriter` write, are not modelled. A written PDF is `PdfFile(pages)`, the pages it holds.
- The reader is deterministic, so re-reading an upload gives the same result. This decides the jpg fallback of `app.py:148-155`: when the first read raises, its re-read raises too and the exception escapes the route (`Unhandled`). When only drawing raises, the re-read yields the page count.
- The jpg fallback's fixed `message` and `note` strings are not kept in `JpgFallbackReply`; only its filename and page count are.
- PIL drawing, `textwrap.fill` and JPEG encoding are not modelled. They are the `Renderer` parameter in `app.py` (None when drawing raises) and the `jpeg` parameter in `api/convert.py`. An exception from the PIL import in the serverless jpg transform is not modelled.
- `secure_filename` is the uninterpreted parameter `secure`. The `Date` header is the parameter `date`, with `None` for a missing header.
- `MAX_FILE_SIZE` (`app.py:14`) is never referenced, so no size check exists to model.
- Server.Lower: `str.lower()` is modelled for ASCII letters only; Unicode case mappings are not modelled.
- Kilobytes.KbLabel: the label is exact for byte counts below 2^53. There `n / 1024` is an exact binary float, and `.2f` rounds that exact value to nearest, ties to even. Larger counts are not modelled.
- JSON serialisation of the bodies, the metadata dictionary included, is not modelled; a body is a datatype of its fields.
- Server.SplitPdf: a readable document without pages gets a 500 with the message "sequence index out of range". The library raises this `IndexError` for `pages[0]`; its exact wording is the library's.
- Merge and split pass no mimetype argument to `send_file`; the model records that argument as `None`. `send_file` then guesses `application/pdf` from the download names `merged.pdf` and `split_page_1.pdf`; that guess is not modelled, and neither is `as_attachment`.
- Exceptions from `extract_text` are not distinguished from read failures: the parameter `parse` either yields every page's text or fails.
