/** The plain-text "Word" and "PowerPoint" renditions built page by page, as specifications
    of the loops in both entry points. */
module Renditions {
  import opened Seqs
  import opened Decimal
  import opened Pdf

  /** Python's `text or fallback` on str: only the empty string is falsy. */
  function OrElse(text: string, fallback: string): string {
    if text == "" then fallback else text
  }

  function Repeat(c: char, n: nat): (r: string)
    ensures |r| == n && forall i :: 0 <= i < n ==> r[i] == c
  {
    if n == 0 then "" else Repeat(c, n - 1) + [c]
  }

  function Min(a: nat, b: nat): nat {
    if a <= b then a else b
  }

  /** `"=" * 50`, the separator after every page. */
  const Rule: string := Repeat('=', 50)

  /** Substituted for a page without extractable text by the serverless handler. */
  const ServerlessPlaceholder := "[Content]"
  /** Substituted for a page without extractable text by the web server. */
  const ServerPlaceholder := "[No extractable text]"

  /** The block for page k (counting from 1) with extracted text `text`: the label `Page k:`,
      the text verbatim when there is any and the placeholder when extraction gave the empty
      string, then the separator. */
  function WordEntry(k: nat, text: string, placeholder: string): string {
    "Page " + NatToString(k) + ":\n" + OrElse(text, placeholder) + "\n" + Rule + "\n"
  }

  /** `start` followed by the blocks of all pages in document order, numbered 1..|pages|: the
      text accumulated by the loop once it has gone through `pages`. */
  function WordText(start: string, pages: seq<Page>, placeholder: string): string
    decreases |pages|
  {
    if pages == [] then start
    else WordText(start, pages[..|pages| - 1], placeholder) + WordEntry(|pages|, pages[|pages| - 1].text, placeholder)
  }

  /** Every page k has its block somewhere in the text. */
  lemma {:induction false} WordTextHasPage(start: string, pages: seq<Page>, placeholder: string, k: nat)
    requires 1 <= k <= |pages|
    ensures Contains(WordText(start, pages, placeholder), WordEntry(k, pages[k - 1].text, placeholder))
    decreases |pages|
  {
    var init := pages[..|pages| - 1];
    var last := WordEntry(|pages|, pages[|pages| - 1].text, placeholder);
    var before := WordText(start, init, placeholder);
    if k == |pages| {
      ContainsSuffix(before, last);
    } else {
      WordTextHasPage(start, init, placeholder, k);
      assert init[k - 1] == pages[k - 1];
      ContainsAppend(before, last, WordEntry(k, pages[k - 1].text, placeholder));
    }
  }

  /** The text keeps what it started with at its front. */
  lemma {:induction false} WordTextStartsWith(start: string, pages: seq<Page>, placeholder: string)
    ensures StartsWith(WordText(start, pages, placeholder), start)
    decreases |pages|
  {
    if pages != [] {
      var init := pages[..|pages| - 1];
      WordTextStartsWith(start, init, placeholder);
      StartsWithAppend(WordText(start, init, placeholder), WordEntry(|pages|, pages[|pages| - 1].text, placeholder), start);
    }
  }

  /** A document with at least one page ends with the 50-character separator and a newline. */
  lemma WordTextEndsWithRule(start: string, pages: seq<Page>, placeholder: string)
    requires |pages| >= 1
    ensures EndsWith(WordText(start, pages, placeholder), Rule + "\n")
  {
    var n := |pages|;
    var head := "Page " + NatToString(n) + ":\n" + OrElse(pages[n - 1].text, placeholder) + "\n";
    var entry := WordEntry(n, pages[n - 1].text, placeholder);
    var before := WordText(start, pages[..n - 1], placeholder);
    EndsWithAppend(before, entry);
    EndsWithPair(head, Rule, "\n");
    EndsWithTransitive(before + entry, entry, Rule + "\n");
  }

  /** When every page has text, the placeholder is never used: both entry points produce the
      same page blocks. */
  lemma {:induction false} WordTextPlaceholderUnused(start: string, pages: seq<Page>, p1: string, p2: string)
    requires forall i :: 0 <= i < |pages| ==> pages[i].text != ""
    ensures WordText(start, pages, p1) == WordText(start, pages, p2)
    decreases |pages|
  {
    if pages != [] {
      var init := pages[..|pages| - 1];
      assert forall i :: 0 <= i < |init| ==> init[i] == pages[i];
      WordTextPlaceholderUnused(start, init, p1, p2);
    }
  }

  /** The content types both entry points give the two renditions. */
  const WordMime := "application/vnd.openxmlformats-officedocument.wordprocessingml.document"
  const PptMime := "application/vnd.openxmlformats-officedocument.presentationml.presentation"

  /** How many pages the PowerPoint renditions look at. */
  const SlideLimit: nat := 3

  /** `pages[:3]` */
  function FirstSlides(pages: seq<Page>): seq<Page> {
    pages[..Min(SlideLimit, |pages|)]
  }

  /** The web server's block for slide k with extracted text `text`. */
  function ServerSlide(k: nat, text: string): string {
    "SLIDE " + NatToString(k) + ":\n" + OrElse(text, "Page " + NatToString(k) + " content") + "\n\n"
  }

  /** The web server's slide blocks for the given pages, numbered from 1. */
  function ServerSlides(pages: seq<Page>): string
    decreases |pages|
  {
    if pages == [] then ""
    else ServerSlides(pages[..|pages| - 1]) + ServerSlide(|pages|, pages[|pages| - 1].text)
  }

  /** The web server's slides are exactly min(3, N) blocks, one for each of the first pages;
      later pages contribute nothing. */
  lemma ServerSlidesAreFirstThree(pages: seq<Page>)
    ensures |pages| == 0 ==> ServerSlides(FirstSlides(pages)) == ""
    ensures |pages| == 1 ==> ServerSlides(FirstSlides(pages)) == ServerSlide(1, pages[0].text)
    ensures |pages| == 2 ==>
              ServerSlides(FirstSlides(pages)) == ServerSlide(1, pages[0].text) + ServerSlide(2, pages[1].text)
    ensures |pages| >= 3 ==>
              ServerSlides(FirstSlides(pages)) ==
              ServerSlide(1, pages[0].text) + ServerSlide(2, pages[1].text) + ServerSlide(3, pages[2].text)
  {
    var f := FirstSlides(pages);
    var n := |f|;
    if n >= 1 {
      var s1 := ServerSlide(1, pages[0].text);
      assert f[..1][..0] == [];
      assert ServerSlides(f[..1]) == "" + s1;
      assert "" + s1 == s1;
      if n == 1 {
        assert f[..1] == f;
      } else {
        var s2 := ServerSlide(2, pages[1].text);
        assert f[..2][..1] == f[..1];
        assert ServerSlides(f[..2]) == s1 + s2;
        if n == 2 {
          assert f[..2] == f;
        } else {
          var s3 := ServerSlide(3, pages[2].text);
          assert f[..3][..2] == f[..2];
          assert f[..3] == f;
          assert ServerSlides(f) == s1 + s2 + s3;
        }
      }
    }
  }

  /** The fixed text of every slide in the serverless handler. */
  const SlideFiller := "Content from PDF would appear here\n\n"

  function ServerlessSlide(k: nat): string {
    "Slide " + NatToString(k) + ":\n" + SlideFiller
  }

  /** `start` followed by the serverless handler's first m slide blocks. */
  function ServerlessSlides(start: string, m: nat): string
    decreases m
  {
    if m == 0 then start else ServerlessSlides(start, m - 1) + ServerlessSlide(m)
  }

  const ServerlessPptHeader := "PDF TO POWERPOINT CONVERSION\n\n"

  /** The serverless handler's whole PowerPoint text for a document of n pages. */
  function ServerlessPptText(n: nat): string {
    ServerlessSlides(ServerlessPptHeader + "Total Pages: " + NatToString(n) + "\n\n", Min(SlideLimit, n))
  }

  /** The serverless slides are exactly min(3, n) fixed blocks, whatever the pages hold. */
  lemma ServerlessSlidesAreFirstThree(start: string, n: nat)
    ensures n == 0 ==> ServerlessSlides(start, Min(SlideLimit, n)) == start
    ensures n == 1 ==> ServerlessSlides(start, Min(SlideLimit, n)) == start + ServerlessSlide(1)
    ensures n == 2 ==> ServerlessSlides(start, Min(SlideLimit, n)) == start + ServerlessSlide(1) + ServerlessSlide(2)
    ensures n >= 3 ==>
              ServerlessSlides(start, Min(SlideLimit, n)) ==
              start + ServerlessSlide(1) + ServerlessSlide(2) + ServerlessSlide(3)
  {
    assert ServerlessSlides(start, 1) == start + ServerlessSlide(1);
    assert ServerlessSlides(start, 2) == start + ServerlessSlide(1) + ServerlessSlide(2);
  }
}
