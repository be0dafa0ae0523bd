/** The serverless handler's hand-rolled multipart extraction: split the body on CRLF, remember
    the line three after the last `filename="` line, stop at the first `------` line once a
    file name has been seen, and join the lines in between, minus the one just before the stop. */
module Multipart {
  import opened Results
  import opened Seqs
  import opened Bytes

  /** The bytes `filename`: without them anywhere in the body no extraction is tried. */
  const NameWord: seq<byte> := [102, 105, 108, 101, 110, 97, 109, 101]
  /** The bytes `filename="`, looked for on each line. */
  const NameMarker: seq<byte> := NameWord + [61, 34]
  /** The bytes `------`, taken as the start of a boundary line. */
  const DelimiterPrefix: seq<byte> := [45, 45, 45, 45, 45, 45]
  /** Lines skipped after the filename line: Content-Type, the blank line, then data. */
  const HeaderSkip: nat := 3

  predicate NamesFile(line: seq<byte>) {
    Contains(line, NameMarker)
  }

  predicate IsDelimiter(line: seq<byte>) {
    StartsWith(line, DelimiterPrefix)
  }

  /** Some line at or before index i names a file. */
  predicate NamedBy(lines: seq<seq<byte>>, i: int)
    requires i < |lines|
  {
    exists j :: 0 <= j <= i && NamesFile(lines[j])
  }

  /** The scan stops at line i: a delimiter, once a file name has been seen. */
  predicate EndsPart(lines: seq<seq<byte>>, i: int)
    requires 0 <= i < |lines|
  {
    IsDelimiter(lines[i]) && NamedBy(lines, i)
  }

  /** The last line before index `upto` that names a file, or -1 when there is none. */
  function LastNameLine(lines: seq<seq<byte>>, upto: nat): (j: int)
    requires upto <= |lines|
    ensures -1 <= j < upto
    decreases upto
  {
    if upto == 0 then -1
    else if NamesFile(lines[upto - 1]) then upto - 1
    else LastNameLine(lines, upto - 1)
  }

  /** LastNameLine finds the last filename line before `upto`, and -1 means there is none. */
  lemma {:induction false} LastNameLineSpec(lines: seq<seq<byte>>, upto: nat)
    requires upto <= |lines|
    ensures var j := LastNameLine(lines, upto);
            && (j >= 0 ==> NamesFile(lines[j]) && forall i :: j < i < upto ==> !NamesFile(lines[i]))
            && (j == -1 ==> forall i :: 0 <= i < upto ==> !NamesFile(lines[i]))
    decreases upto
  {
    if upto > 0 && !NamesFile(lines[upto - 1]) {
      LastNameLineSpec(lines, upto - 1);
    }
  }

  /** `file_start` after scanning the lines before index `upto`: three past the last filename
      line, or -1. */
  function StartAfter(lines: seq<seq<byte>>, upto: nat): int
    requires upto <= |lines|
  {
    var j := LastNameLine(lines, upto);
    if j == -1 then -1 else j + HeaderSkip
  }

  /** The first line at or after `from` where the scan stops, or -1 when it runs off the end. */
  function FirstEnd(lines: seq<seq<byte>>, from: nat): (e: int)
    requires from <= |lines|
    ensures e == -1 || from <= e < |lines|
    decreases |lines| - from
  {
    if from == |lines| then -1
    else if EndsPart(lines, from) then from
    else FirstEnd(lines, from + 1)
  }

  /** FirstEnd finds the first stopping line at or after `from`, and -1 means there is none. */
  lemma {:induction false} FirstEndSpec(lines: seq<seq<byte>>, from: nat)
    requires from <= |lines|
    ensures var e := FirstEnd(lines, from);
            && (e == -1 ==> forall i :: from <= i < |lines| ==> !EndsPart(lines, i))
            && (e != -1 ==> EndsPart(lines, e) && forall i :: from <= i < e ==> !EndsPart(lines, i))
    decreases |lines| - from
  {
    if from < |lines| && !EndsPart(lines, from) {
      FirstEndSpec(lines, from + 1);
    }
  }

  /** FirstEnd is pinned down by its specification. */
  lemma {:induction false} FirstEndIs(lines: seq<seq<byte>>, e: int)
    requires e == -1 || 0 <= e < |lines|
    requires e == -1 ==> forall i :: 0 <= i < |lines| ==> !EndsPart(lines, i)
    requires e != -1 ==> EndsPart(lines, e) && forall i :: 0 <= i < e ==> !EndsPart(lines, i)
    ensures FirstEnd(lines, 0) == e
  {
    FirstEndSpec(lines, 0);
  }

  /** The `for i, line in enumerate(lines)` scan of do_POST. */
  method ScanFilePart(lines: seq<seq<byte>>) returns (fileStart: int, fileEnd: int)
    ensures fileEnd == FirstEnd(lines, 0)
    ensures fileStart == StartAfter(lines, if fileEnd == -1 then |lines| else fileEnd + 1)
  {
    fileStart, fileEnd := -1, -1;
    var i := 0;
    while i < |lines|
      invariant 0 <= i <= |lines|
      invariant fileEnd == -1
      invariant fileStart == StartAfter(lines, i)
      invariant forall k :: 0 <= k < i ==> !EndsPart(lines, k)
    {
      if NamesFile(lines[i]) {
        fileStart := i + HeaderSkip;
      }
      assert fileStart == StartAfter(lines, i + 1);
      assert fileStart != -1 <==> NamedBy(lines, i) by {
        LastNameLineSpec(lines, i + 1);
        var j := LastNameLine(lines, i + 1);
        if j >= 0 {
          assert NamesFile(lines[j]);
        }
      }
      if fileStart != -1 && IsDelimiter(lines[i]) {
        fileEnd := i;
        FirstEndIs(lines, fileEnd);
        break;
      }
      i := i + 1;
    }
    if fileEnd == -1 {
      FirstEndIs(lines, -1);
    }
  }

  /** What the scan and join make of the body's lines: the payload, or None when no `------`
      line follows a `filename="` line. */
  function LinesPayload(lines: seq<seq<byte>>): Option<seq<byte>> {
    var fileEnd := FirstEnd(lines, 0);
    var fileStart := StartAfter(lines, if fileEnd == -1 then |lines| else fileEnd + 1);
    if fileStart != -1 && fileEnd != -1 then Some(JoinLines(PySlice(lines, fileStart, fileEnd - 1)))
    else None
  }

  /** What do_POST takes as the uploaded file, or None when it answers "ready" instead. */
  function FilePayload(body: seq<byte>): Option<seq<byte>> {
    if !Contains(body, NameWord) then None else LinesPayload(SplitLines(body))
  }

  /** Lines 23-37 of do_POST. */
  method ExtractFile(body: seq<byte>) returns (fileData: Option<seq<byte>>)
    ensures fileData == FilePayload(body)
  {
    fileData := None;
    if Contains(body, NameWord) {
      var lines := SplitLines(body);
      var fileStart, fileEnd := ScanFilePart(lines);
      if fileStart != -1 && fileEnd != -1 {
        fileData := Some(JoinLines(PySlice(lines, fileStart, fileEnd - 1)));
      }
    }
  }

  /** A payload is found exactly when the body mentions `filename` and some `------` line
      follows (or is) a `filename="` line. */
  lemma {:induction false} PayloadFoundIff(body: seq<byte>)
    ensures FilePayload(body).Some? <==>
              Contains(body, NameWord) &&
              exists i :: 0 <= i < |SplitLines(body)| && EndsPart(SplitLines(body), i)
  {
    if FilePayload(body).Some? {
      PayloadFoundHasStop(body);
    }
    if Contains(body, NameWord) && exists i :: 0 <= i < |SplitLines(body)| && EndsPart(SplitLines(body), i) {
      var i :| 0 <= i < |SplitLines(body)| && EndsPart(SplitLines(body), i);
      StopGivesPayload(body, i);
    }
  }

  /** A found payload comes from a body that mentions `filename` and has a stopping line. */
  lemma {:induction false} PayloadFoundHasStop(body: seq<byte>)
    requires FilePayload(body).Some?
    ensures Contains(body, NameWord)
    ensures var lines := SplitLines(body);
            0 <= FirstEnd(lines, 0) < |lines| && EndsPart(lines, FirstEnd(lines, 0))
  {
    var lines := SplitLines(body);
    FirstEndSpec(lines, 0);
  }

  /** A body that mentions `filename` and has a stopping line yields a payload. */
  lemma {:induction false} StopGivesPayload(body: seq<byte>, i: int)
    requires Contains(body, NameWord)
    requires 0 <= i < |SplitLines(body)| && EndsPart(SplitLines(body), i)
    ensures FilePayload(body).Some?
  {
    var lines := SplitLines(body);
    FirstEndSpec(lines, 0);
    var e := FirstEnd(lines, 0);
    assert e != -1;
    assert EndsPart(lines, e);
    var j :| 0 <= j <= e && NamesFile(lines[j]);
    LastNameLineSpec(lines, e + 1);
    assert LastNameLine(lines, e + 1) >= 0;
    assert StartAfter(lines, e + 1) != -1;
  }

  /** Without the bytes `filename` in the body nothing is extracted. */
  lemma {:induction false} NoNameWordNoPayload(body: seq<byte>)
    requires !Contains(body, NameWord)
    ensures FilePayload(body) == None
  {
  }

  /** The payload is lines[fileStart .. fileEnd-1] joined by CRLF: the line just before the
      delimiter is left out, and nothing is left when fileStart >= fileEnd - 1. */
  lemma {:induction false} PayloadLines(body: seq<byte>)
    requires FilePayload(body).Some?
    ensures var lines := SplitLines(body);
            var e := FirstEnd(lines, 0);
            var s := LastNameLine(lines, e + 1) + HeaderSkip;
            && e >= 0 && s >= HeaderSkip
            && (e >= 1 && s < e - 1 ==> FilePayload(body).value == JoinLines(lines[s..e - 1]))
            && (e >= 1 && s >= e - 1 ==> FilePayload(body).value == [])
  {
    LinesPayloadSlice(SplitLines(body));
  }

  /** A payload found in some lines is the slice between file_start and file_end - 1. */
  lemma {:induction false} LinesPayloadSlice(lines: seq<seq<byte>>)
    requires LinesPayload(lines).Some?
    ensures var e := FirstEnd(lines, 0);
            var s := LastNameLine(lines, e + 1) + HeaderSkip;
            && e >= 0 && s >= HeaderSkip
            && (e >= 1 && s < e - 1 ==> LinesPayload(lines).value == JoinLines(lines[s..e - 1]))
            && (e >= 1 && s >= e - 1 ==> LinesPayload(lines).value == [])
  {
    var e := FirstEnd(lines, 0);
    var s := LastNameLine(lines, e + 1) + HeaderSkip;
    assert StartAfter(lines, e + 1) == s;
    if e >= 1 {
      PySliceNonNegative(lines, s, e - 1);
    }
  }

  /** When the first `------` line is line 0 (itself carrying `filename="`), the end index -1
      counts from the back: the payload is every line from the fourth to the next-to-last. */
  lemma {:induction false} PayloadWhenStopAtFirstLine(body: seq<byte>)
    requires FilePayload(body).Some? && FirstEnd(SplitLines(body), 0) == 0
    ensures var lines := SplitLines(body);
            FilePayload(body).value == if |lines| - 1 > HeaderSkip then JoinLines(lines[HeaderSkip..|lines| - 1]) else []
  {
    var lines := SplitLines(body);
    FirstEndSpec(lines, 0);
    assert NamesFile(lines[0]);
    assert LastNameLine(lines, 1) == 0;
  }

  /** The payload is always a contiguous run of the body's bytes. */
  lemma {:induction false} PayloadIsRunOfBody(body: seq<byte>)
    requires FilePayload(body).Some?
    ensures Contains(body, FilePayload(body).value)
  {
    var lines := SplitLines(body);
    var e := FirstEnd(lines, 0);
    var s := StartAfter(lines, e + 1);
    PySliceIsRun(lines, s, e - 1);
    var lo, hi :| 0 <= lo <= hi <= |lines| && PySlice(lines, s, e - 1) == lines[lo..hi];
    JoinRunContained(lines, lo, hi);
    JoinSplit(body);
  }

  /** Between the data start and the stop, no line is a delimiter or names a file. */
  lemma {:induction false} BetweenLinesClean(lines: seq<seq<byte>>)
    requires FirstEnd(lines, 0) >= 0
    ensures forall i :: LastNameLine(lines, FirstEnd(lines, 0) + 1) + HeaderSkip <= i < FirstEnd(lines, 0) ==>
                          !IsDelimiter(lines[i]) && !NamesFile(lines[i])
  {
    var e := FirstEnd(lines, 0);
    var j := LastNameLine(lines, e + 1);
    FirstEndSpec(lines, 0);
    LastNameLineSpec(lines, e + 1);
    forall i | j + HeaderSkip <= i < e
      ensures !IsDelimiter(lines[i]) && !NamesFile(lines[i])
    {
      assert !EndsPart(lines, i);
      assert NamedBy(lines, i) by {
        assert 0 <= j <= i && NamesFile(lines[j]);
      }
    }
  }

  /** The lines kept from a scan that stopped after line 0 re-split into themselves, and none
      of them is a delimiter or names a file. */
  lemma {:induction false} KeptLinesClean(lines: seq<seq<byte>>)
    requires FirstEnd(lines, 0) >= 1
    requires forall i :: 0 <= i < |lines| ==> NoCrlf(lines[i])
    ensures var e := FirstEnd(lines, 0);
            var kept := PySlice(lines, LastNameLine(lines, e + 1) + HeaderSkip, e - 1);
            forall l :: l in SplitLines(JoinLines(kept)) ==> !IsDelimiter(l) && !NamesFile(l)
  {
    var e := FirstEnd(lines, 0);
    var s := LastNameLine(lines, e + 1) + HeaderSkip;
    PySliceNonNegative(lines, s, e - 1);
    if s < e - 1 {
      BetweenLinesClean(lines);
      CleanRunResplits(lines, s, e - 1);
    } else {
      assert SplitLines(JoinLines([])) == [[]];
    }
  }

  /** A run of CRLF-free lines, none a delimiter or naming a file, joins and re-splits into lines
      that are still neither. */
  lemma {:induction false} CleanRunResplits(lines: seq<seq<byte>>, lo: int, hi: int)
    requires 0 <= lo < hi <= |lines|
    requires forall i :: lo <= i < hi ==> NoCrlf(lines[i]) && !IsDelimiter(lines[i]) && !NamesFile(lines[i])
    ensures forall l :: l in SplitLines(JoinLines(lines[lo..hi])) ==> !IsDelimiter(l) && !NamesFile(l)
  {
    var kept := lines[lo..hi];
    assert forall k :: 0 <= k < |kept| ==> kept[k] == lines[lo + k];
    SplitJoin(kept);
  }

  /** When the scan stops after line 0, no CRLF-separated line of the payload starts with
      `------` or contains `filename="`. */
  lemma {:induction false} PayloadLinesClean(body: seq<byte>)
    requires FilePayload(body).Some? && FirstEnd(SplitLines(body), 0) >= 1
    ensures forall l :: l in SplitLines(FilePayload(body).value) ==> !IsDelimiter(l) && !NamesFile(l)
  {
    var lines := SplitLines(body);
    var e := FirstEnd(lines, 0);
    assert StartAfter(lines, e + 1) == LastNameLine(lines, e + 1) + HeaderSkip;
    SplitLinesCrlfFree(body);
    KeptLinesClean(lines);
  }

  /** LastNameLine is pinned down by its contract. */
  lemma {:induction false} LastNameLineIs(lines: seq<seq<byte>>, upto: nat, j: int)
    requires upto <= |lines| && 0 <= j < upto
    requires NamesFile(lines[j]) && forall i :: j < i < upto ==> !NamesFile(lines[i])
    ensures LastNameLine(lines, upto) == j
  {
    LastNameLineSpec(lines, upto);
  }

  /** The body a browser sends for a form with one file field: the opening boundary line, the
      part's Content-Disposition line, its Content-Type line, a blank line, the file's bytes,
      then CRLF, the closing boundary line and a final CRLF. */
  function SinglePartBody(opening: seq<byte>, disposition: seq<byte>, contentType: seq<byte>,
                          data: seq<byte>, closing: seq<byte>): seq<byte>
  {
    var fromData := data + CRLF + (closing + CRLF);
    var fromType := contentType + CRLF + (CRLF + fromData);
    opening + CRLF + (disposition + CRLF + fromType)
  }

  /** The header and boundary lines are single lines, only the Content-Disposition line names a
      file, the boundaries start with `------` and nothing else does. */
  predicate WellFormedSinglePart(opening: seq<byte>, disposition: seq<byte>, contentType: seq<byte>,
                                 data: seq<byte>, closing: seq<byte>)
  {
    && NoCrlf(opening) && NoCrlf(disposition) && NoCrlf(contentType) && NoCrlf(closing)
    && IsDelimiter(opening) && !NamesFile(opening)
    && NamesFile(disposition) && !IsDelimiter(disposition)
    && !NamesFile(contentType) && !IsDelimiter(contentType)
    && IsDelimiter(closing) && !NamesFile(closing)
    && forall l :: l in SplitLines(data) ==> !NamesFile(l) && !IsDelimiter(l)
  }

  /** The lines of a single-part body: the two header lines and the blank line, the file's own
      lines, the closing boundary and the empty piece after the final CRLF. */
  lemma {:induction false} SinglePartLines(opening: seq<byte>, disposition: seq<byte>, contentType: seq<byte>,
                                           data: seq<byte>, closing: seq<byte>)
    requires NoCrlf(opening) && NoCrlf(disposition) && NoCrlf(contentType) && NoCrlf(closing)
    ensures SplitLines(SinglePartBody(opening, disposition, contentType, data, closing)) ==
            [opening, disposition, contentType, []] + SplitLines(data) + [closing, []]
  {
    var dl := SplitLines(data);
    var fromData := data + CRLF + (closing + CRLF);
    var fromType := contentType + CRLF + (CRLF + fromData);
    SplitAfterLine(closing, []);
    assert closing + CRLF + [] == closing + CRLF;
    SplitConcat(data, closing + CRLF);
    SplitAfterLine([], fromData);
    assert [] + CRLF + fromData == CRLF + fromData;
    SplitAfterLine(contentType, CRLF + fromData);
    SplitAfterLine(disposition, fromType);
    SplitAfterLine(opening, disposition + CRLF + fromType);
    Regroup(opening, disposition, contentType, [], dl, closing, []);
  }

  /** Regrouping a chain of appends of one-element sequences. */
  lemma {:induction false} Regroup<T>(a: T, b: T, c: T, d: T, m: seq<T>, e: T, f: T)
    ensures [a] + ([b] + ([c] + ([d] + (m + ([e] + [f]))))) == [a, b, c, d] + m + [e, f]
  {
  }

  /** The only line naming a file is the Content-Disposition line. */
  lemma {:induction false} SinglePartMentionsName(opening: seq<byte>, disposition: seq<byte>, contentType: seq<byte>,
                                                  data: seq<byte>, closing: seq<byte>)
    requires WellFormedSinglePart(opening, disposition, contentType, data, closing)
    ensures Contains(SinglePartBody(opening, disposition, contentType, data, closing), NameWord)
  {
    var body := SinglePartBody(opening, disposition, contentType, data, closing);
    var lines := [opening, disposition, contentType, []] + SplitLines(data) + [closing, []];
    SinglePartLines(opening, disposition, contentType, data, closing);
    JoinSplit(body);
    JoinRunContained(lines, 1, 2);
    assert lines[1..2] == [disposition];
    ContainsTransitive(body, disposition, NameMarker);
    ContainsMiddle([], NameWord, [61, 34]);
    assert [] + NameWord + [61, 34] == NameMarker;
    ContainsTransitive(body, NameMarker, NameWord);
  }

  /** On the lines of a single-part body the scan stops at the closing boundary and file_start
      is 4, the first line of the file. */
  lemma {:induction false} SinglePartScan(opening: seq<byte>, disposition: seq<byte>, contentType: seq<byte>,
                                          dl: seq<seq<byte>>, closing: seq<byte>)
    requires IsDelimiter(opening) && !NamesFile(opening)
    requires NamesFile(disposition) && !IsDelimiter(disposition)
    requires !NamesFile(contentType) && !IsDelimiter(contentType)
    requires IsDelimiter(closing) && !NamesFile(closing)
    requires forall l :: l in dl ==> !NamesFile(l) && !IsDelimiter(l)
    ensures var lines := [opening, disposition, contentType, []] + dl + [closing, []];
            FirstEnd(lines, 0) == 4 + |dl| && LastNameLine(lines, 5 + |dl|) == 1
  {
    var lines := [opening, disposition, contentType, []] + dl + [closing, []];
    var n := |dl|;
    var e := 4 + n;
    assert forall k :: 0 <= k < n ==> lines[4 + k] == dl[k] && dl[k] in dl;
    assert lines[e] == closing;
    assert NamedBy(lines, e) by { assert NamesFile(lines[1]); }
    forall i | 0 <= i < e
      ensures !EndsPart(lines, i)
    {
      if i == 0 {
        assert !NamedBy(lines, 0);
      } else if i >= 4 {
        assert lines[i] == dl[i - 4];
      }
    }
    FirstEndIs(lines, e);
    forall i | 1 < i < e + 1
      ensures !NamesFile(lines[i])
    {
      if i == 3 {
        assert lines[3] == [];
      } else if 4 <= i < e {
        assert lines[i] == dl[i - 4];
      }
    }
    LastNameLineIs(lines, e + 1, 1);
  }

  /** For a well-formed single-part body the extractor returns the file's lines without the last
      one: the line just before the closing boundary is dropped. */
  lemma {:induction false} SinglePartDropsLastLine(opening: seq<byte>, disposition: seq<byte>, contentType: seq<byte>,
                                                   data: seq<byte>, closing: seq<byte>)
    requires WellFormedSinglePart(opening, disposition, contentType, data, closing)
    ensures var dl := SplitLines(data);
            FilePayload(SinglePartBody(opening, disposition, contentType, data, closing)) ==
            Some(JoinLines(dl[..|dl| - 1]))
  {
    SinglePartLines(opening, disposition, contentType, data, closing);
    SinglePartMentionsName(opening, disposition, contentType, data, closing);
    SinglePartLinesPayload(opening, disposition, contentType, SplitLines(data), closing);
  }

  /** The scan and join of a single-part body's lines keep all the file's lines but the last. */
  lemma {:induction false} SinglePartLinesPayload(opening: seq<byte>, disposition: seq<byte>, contentType: seq<byte>,
                                                  dl: seq<seq<byte>>, closing: seq<byte>)
    requires IsDelimiter(opening) && !NamesFile(opening)
    requires NamesFile(disposition) && !IsDelimiter(disposition)
    requires !NamesFile(contentType) && !IsDelimiter(contentType)
    requires IsDelimiter(closing) && !NamesFile(closing)
    requires forall l :: l in dl ==> !NamesFile(l) && !IsDelimiter(l)
    requires |dl| >= 1
    ensures LinesPayload([opening, disposition, contentType, []] + dl + [closing, []]) == Some(JoinLines(dl[..|dl| - 1]))
  {
    var lines := [opening, disposition, contentType, []] + dl + [closing, []];
    var n := |dl|;
    SinglePartScan(opening, disposition, contentType, dl, closing);
    LinesPayloadSlice(lines);
    if n > 1 {
      assert forall k :: 0 <= k < n - 1 ==> lines[4 + k] == dl[k];
      assert lines[4..3 + n] == dl[..n - 1];
    } else {
      assert dl[..0] == [];
    }
  }

  /** A file whose bytes end in CRLF comes back without that final CRLF. */
  lemma {:induction false} SinglePartTrailingCrlf(opening: seq<byte>, disposition: seq<byte>, contentType: seq<byte>,
                                                  d: seq<byte>, closing: seq<byte>)
    requires WellFormedSinglePart(opening, disposition, contentType, d + CRLF, closing)
    ensures FilePayload(SinglePartBody(opening, disposition, contentType, d + CRLF, closing)) == Some(d)
  {
    SinglePartDropsLastLine(opening, disposition, contentType, d + CRLF, closing);
    SplitConcat(d, []);
    assert d + CRLF + [] == d + CRLF;
    var dl := SplitLines(d + CRLF);
    assert dl == SplitLines(d) + [[]];
    assert dl[..|dl| - 1] == SplitLines(d);
    JoinSplit(d);
  }

  /** A file whose last line is not empty does not come back intact. */
  lemma {:induction false} SinglePartLosesLastLine(opening: seq<byte>, disposition: seq<byte>, contentType: seq<byte>,
                                                   data: seq<byte>, closing: seq<byte>)
    requires WellFormedSinglePart(opening, disposition, contentType, data, closing)
    requires SplitLines(data)[|SplitLines(data)| - 1] != []
    ensures FilePayload(SinglePartBody(opening, disposition, contentType, data, closing)) != Some(data)
  {
    SinglePartDropsLastLine(opening, disposition, contentType, data, closing);
    var dl := SplitLines(data);
    var n := |dl|;
    JoinSplit(data);
    if n == 1 {
      assert dl[..0] == [];
      assert data == dl[0];
    } else {
      assert dl == dl[..n - 1] + dl[n - 1..];
      JoinAppend(dl[..n - 1], dl[n - 1..]);
      assert JoinLines(dl[n - 1..]) == dl[n - 1];
      assert |data| > |JoinLines(dl[..n - 1])|;
    }
  }
}
