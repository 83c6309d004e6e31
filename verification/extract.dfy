/**
 * The `OnHTML` closure of the Go scraper: choose the content region of the
 * page, clean its text, find the scripture reference and the titles, and
 * collect the paragraphs into the record.
 */
module Extract {
  import opened Wrappers
  import opened Text
  import opened Models
  import opened Boilerplate
  import opened Scripture
  import opened Titles
  import opened Segmentation
  import opened Paragraphs

  /**
   * What the closure reads from the parsed page: the text of `<title>` (the
   * collector's `ChildText`, already trimmed), the combined text of the
   * `h1` elements when there are any, and the candidate regions: the
   * `aside.w` elements, the `td.wj` cells, all `table td` cells and the body.
   */
  datatype Page = Page(titleText: string, h1Text: Option<string>, asides: seq<Element>,
                       wjCells: seq<Element>, tableCells: seq<Element>, body: Element)

  // ---- Region selection ----

  /** The last aside that has paragraph elements: the loop over them does not stop at the first. */
  function LastAside(asides: seq<Element>): (r: Option<nat>)
    ensures r.Some? ==> r.value < |asides| && asides[r.value].paragraphs != []
    ensures r.Some? ==> forall j :: r.value < j < |asides| ==> asides[j].paragraphs == []
    ensures r.None? ==> forall j :: 0 <= j < |asides| ==> asides[j].paragraphs == []
  {
    if asides == [] then None
    else if asides[|asides| - 1].paragraphs != [] then Some(|asides| - 1)
    else LastAside(asides[..|asides| - 1])
  }

  /** The byte length of each cell's trimmed text. */
  function CellLengths(cells: seq<Element>): (ls: seq<nat>)
    ensures |ls| == |cells|
    ensures forall k :: 0 <= k < |cells| ==> ls[k] == ByteLen(TrimSpace(cells[k].text))
  {
    if cells == [] then [] else [ByteLen(TrimSpace(cells[0].text))] + CellLengths(cells[1..])
  }

  /**
   * The loop for the longest cell from position `i`: `best` is the cell
   * kept so far and `max` its length, starting from nothing and 0; a cell
   * replaces it only when strictly longer.
   */
  function LongestFrom(ls: seq<nat>, i: nat, best: Option<nat>, max: nat): Option<nat>
    requires i <= |ls|
    decreases |ls| - i
  {
    if i == |ls| then best
    else if ls[i] > max then LongestFrom(ls, i + 1, Some(i), ls[i])
    else LongestFrom(ls, i + 1, best, max)
  }

  /** What the loop knows after the first `i` lengths. */
  predicate LongestSoFar(ls: seq<nat>, i: nat, best: Option<nat>, max: nat) {
    && i <= |ls|
    && (best.None? ==> max == 0)
    && (best.Some? ==> best.value < i && ls[best.value] == max > 0)
    && (forall j :: 0 <= j < i ==> ls[j] <= max)
    && (best.Some? ==> forall j :: 0 <= j < best.value ==> ls[j] < max)
  }

  /** `r` is the first position of a maximal, non-zero length, or nothing when all are zero. */
  predicate Longest(ls: seq<nat>, r: Option<nat>) {
    && (r.None? ==> forall j :: 0 <= j < |ls| ==> ls[j] == 0)
    && (r.Some? ==> r.value < |ls| && ls[r.value] > 0)
    && (r.Some? ==> forall j :: 0 <= j < |ls| ==> ls[j] <= ls[r.value])
    && (r.Some? ==> forall j :: 0 <= j < r.value ==> ls[j] < ls[r.value])
  }

  lemma {:induction false} LongestFromSpec(ls: seq<nat>, i: nat, best: Option<nat>, max: nat)
    requires LongestSoFar(ls, i, best, max)
    ensures Longest(ls, LongestFrom(ls, i, best, max))
    decreases |ls| - i
  {
    if i < |ls| {
      if ls[i] > max {
        LongestFromSpec(ls, i + 1, Some(i), ls[i]);
      } else {
        LongestFromSpec(ls, i + 1, best, max);
      }
    }
  }

  /**
   * The longest cell is the first of maximal trimmed length, and there is
   * none exactly when every cell's trimmed text is empty.
   */
  function LongestCell(cells: seq<Element>): (r: Option<nat>)
    ensures r.Some? ==> r.value < |cells|
    ensures r.Some? ==> forall j :: 0 <= j < |cells| ==>
      ByteLen(TrimSpace(cells[j].text)) <= ByteLen(TrimSpace(cells[r.value].text))
    ensures r.Some? ==> forall j :: 0 <= j < r.value ==>
      ByteLen(TrimSpace(cells[j].text)) < ByteLen(TrimSpace(cells[r.value].text))
    ensures r.None? <==> forall j :: 0 <= j < |cells| ==> TrimSpace(cells[j].text) == ""
  {
    var ls := CellLengths(cells);
    LongestFromSpec(ls, 0, None, 0);
    var r := LongestFrom(ls, 0, None, 0);
    assert forall j :: 0 <= j < |cells| ==> (ls[j] == 0 <==> TrimSpace(cells[j].text) == "");
    r
  }

  /**
   * The region as written: the last aside with paragraphs, else the first
   * `td.wj` cell, else the longest table cell, else the body. With table
   * cells that are all blank there is no region (`nil`).
   */
  function SelectRegionAsWritten(page: Page): Option<Element> {
    match LastAside(page.asides)
    case Some(i) => Some(page.asides[i])
    case None =>
      if page.wjCells != [] then Some(page.wjCells[0])
      else if page.tableCells != [] then
        match LongestCell(page.tableCells)
        case Some(i) => Some(page.tableCells[i])
        case None => None
      else Some(page.body)
  }

  /** The region, falling back to the body when the table cells are all blank. */
  function SelectRegion(page: Page): Element {
    SelectRegionAsWritten(page).GetOr(page.body)
  }

  /** The written selection fails exactly when it reaches table cells that are all blank. */
  lemma SelectRegionNil(page: Page)
    ensures SelectRegionAsWritten(page).None? <==>
      && (forall j :: 0 <= j < |page.asides| ==> page.asides[j].paragraphs == [])
      && page.wjCells == [] && page.tableCells != []
      && (forall j :: 0 <= j < |page.tableCells| ==> TrimSpace(page.tableCells[j].text) == "")
    ensures SelectRegionAsWritten(page).Some? ==> SelectRegion(page) == SelectRegionAsWritten(page).value
  {
  }

  // ---- The cleaned text ----

  /** A trimmed line survives the cleaning when it is non-empty and not header text. */
  function CleanLine(line: string): Option<string> {
    if line != "" && !IsHeaderLine(line) then Some(line) else None
  }

  /** The trimmed lines of the region text that survive the cleaning, in order. */
  function CleanLines(text: string): seq<string> {
    FilterMap(TrimLines(Split(text, '\n')), CleanLine)
  }

  /** `cleanText`: the surviving lines joined by newlines. */
  function CleanText(text: string): string {
    Join(CleanLines(text), "\n")
  }

  /**
   * Each surviving line is a non-empty, trimmed line of the region text
   * that is not header text, and splitting the cleaned text at newlines
   * gives the surviving lines back.
   */
  lemma CleanTextLines(text: string)
    ensures forall k :: 0 <= k < |CleanLines(text)| ==>
      var l := CleanLines(text)[k];
      l != "" && TrimSpace(l) == l && !IsHeaderLine(l) && '\n' !in l
    ensures CleanLines(text) != [] ==> Split(CleanText(text), '\n') == CleanLines(text)
  {
    var pieces := Split(text, '\n');
    var trimmed := TrimLines(pieces);
    var ls := CleanLines(text);
    forall k | 0 <= k < |ls|
      ensures ls[k] != "" && TrimSpace(ls[k]) == ls[k] && !IsHeaderLine(ls[k]) && '\n' !in ls[k]
    {
      FilterMapMembers(trimmed, CleanLine, ls[k]);
      var i :| 0 <= i < |trimmed| && CleanLine(trimmed[i]) == Some(ls[k]);
      TrimInfix(pieces[i], GoSpace, '\n');
      TrimSpaceIdempotent(pieces[i]);
    }
    if ls != [] {
      SplitJoin(ls, '\n');
    }
  }

  // ---- The record ----

  /** The reference: from the `h1` text when it has one, else a verse reference in the cleaned text. */
  function Reference(h1Text: Option<string>, cleanText: string): string {
    var fromHeading := if h1Text.Some? then HeadingReference(h1Text.value) else "";
    if fromHeading != "" then fromHeading else VerseReference(cleanText)
  }

  /**
   * A reference from the heading may be chapter-only; one from the cleaned
   * text always has a verse. Either way it runs from a letter to a digit.
   */
  lemma ReferenceShape(h1Text: Option<string>, cleanText: string)
    ensures var r := Reference(h1Text, cleanText);
      r != "" ==> ShapeAt(r, 0, |r|, false, ReWs) || ShapeAt(r, 0, |r|, true, ReWs)
    ensures var r := Reference(h1Text, cleanText);
      r != "" ==> IsAsciiLetter(r[0]) && IsAsciiDigit(r[|r| - 1])
    ensures h1Text.None? ==> Reference(h1Text, cleanText) == VerseReference(cleanText)
    ensures var r := Reference(h1Text, cleanText);
      r != "" && (h1Text.None? || HeadingReference(h1Text.value) == "") ==> ShapeAt(r, 0, |r|, true, ReWs)
  {
    if h1Text.Some? && HeadingReference(h1Text.value) != "" {
      HeadingReferenceShape(h1Text.value);
      var r := HeadingReference(h1Text.value);
      assert Reference(h1Text, cleanText) == r;
    } else {
      VerseReferenceShape(cleanText);
      var r := VerseReference(cleanText);
      assert Reference(h1Text, cleanText) == r;
    }
  }

  /** The closure over a chosen region, with a working sentence splitter. */
  function ExtractFrom(page: Page, region: Element, split: string -> seq<string>): (c: DevotionalContent)
    ensures WellFormed(c)
    ensures c.title == PageTitle(page.titleText)
  {
    var clean := CleanText(region.text);
    var h := DevotionalTitle(page.h1Text, clean, Reference(page.h1Text, clean));
    var ps := ExtractParagraphs(region, split);
    MakeContent(PageTitle(page.titleText), h.reference, h.title,
                if ps != [] then ps else FromText(clean, split))
  }

  /** The closure with the region selection and the sentence splitter corrected. */
  function Extract(page: Page): DevotionalContent {
    ExtractFrom(page, SelectRegion(page), SplitSentences)
  }

  /**
   * The record has no paragraphs exactly when neither the paragraph
   * elements nor the two text fallbacks give any.
   */
  lemma ExtractEmpty(page: Page, region: Element, split: string -> seq<string>)
    ensures ExtractFrom(page, region, split).devotionalContent == [] <==>
      ExtractParagraphs(region, split) == [] && ContentText(CleanText(region.text)) == ""
    ensures ExtractParagraphs(region, split) != [] ==>
      ExtractFrom(page, region, split).devotionalContent == ExtractParagraphs(region, split)
  {
    FromTextEmpty(CleanText(region.text), split);
  }

  /** What goquery's `Text` on a nil selection panics with. */
  const NilDereference: string := "runtime error: invalid memory address or nil pointer dereference"

  /**
   * The closure as written: it dereferences the missing region, and each
   * text fallback it reaches with more than 300 bytes of content panics
   * on the sentence pattern.
   */
  function ExtractAsWritten(page: Page): Outcome<DevotionalContent> {
    match SelectRegionAsWritten(page)
    case None => Panicked(NilDereference)
    case Some(region) =>
      var clean := CleanText(region.text);
      var h := DevotionalTitle(page.h1Text, clean, Reference(page.h1Text, clean));
      match ExtractParagraphsAsWritten(region)
      case Panicked(m) => Panicked(m)
      case Completed(ps) =>
        if ps != [] then Completed(MakeContent(PageTitle(page.titleText), h.reference, h.title, ps))
        else
          match FromTextAsWritten(clean)
          case Panicked(m) => Panicked(m)
          case Completed(ps') => Completed(MakeContent(PageTitle(page.titleText), h.reference, h.title, ps'))
  }

  /** Whenever the written closure completes, it produces the corrected record. */
  lemma ExtractAgrees(page: Page)
    ensures ExtractAsWritten(page).Completed? ==> ExtractAsWritten(page).value == Extract(page)
  {
    SelectRegionNil(page);
    var region := SelectRegion(page);
    ExtractParagraphsAgrees(region, SplitSentences);
    FromTextAgrees(CleanText(region.text), SplitSentences);
  }

  /** The written closure panics on a nil region, and otherwise on a long text fallback. */
  lemma ExtractPanics(page: Page)
    ensures SelectRegionAsWritten(page).None? ==> ExtractAsWritten(page) == Panicked(NilDereference)
    ensures SelectRegionAsWritten(page).Some? ==>
      var region := SelectRegionAsWritten(page).value;
      |FilterMap(region.paragraphs, StructuralText)| <= 1 && ByteLen(ContentText(region.text)) > 300 ==>
        ExtractAsWritten(page) == Panicked(LookaheadPanic)
  {
  }

  // ---- Two pages that show the panics ----

  /** A page with only a body. */
  function BodyOnly(text: string): Page {
    Page("", None, [], [], [], Element(text, []))
  }

  /** A page whose only table cell is blank: the written closure dereferences nil, the corrected one reads the body. */
  lemma BlankTablePanics()
    ensures var page := Page("", None, [], [], [Element(" ", [])], Element("", []));
      && ExtractAsWritten(page) == Panicked(NilDereference)
      && SelectRegion(page) == page.body
  {
    var page := Page("", None, [], [], [Element(" ", [])], Element("", []));
    assert TrimSpace(" ") == "";
    SelectRegionNil(page);
  }

  /** Every character of `s` is `c`. */
  predicate AllChar(s: string, c: char) {
    forall i :: 0 <= i < |s| ==> s[i] == c
  }

  /** A pattern that does not start with `c` does not occur in a run of `c`s. */
  lemma NotInRun(s: string, c: char, pat: string)
    requires AllChar(s, c) && pat != [] && pat[0] != c
    ensures !Contains(s, pat)
  {
    NotContainsWith(s, pat);
  }

  /** A run of `z`s is its own lower case. */
  lemma LowerRun(z: string)
    requires AllChar(z, 'z')
    ensures Lower(z) == z
  {
  }

  /** A run of `z`s holds no donation marker. */
  lemma RunNotDonation(z: string)
    requires AllChar(z, 'z')
    ensures !IsDonationContent(z)
  {
    LowerRun(z);
    NotInRun(z, 'z', "mari memberkati");
    NotInRun(z, 'z', "pancar pijar alkitab");
    NotInRun(z, 'z', "bca 106.30066.22");
    NotInRun(z, 'z', "yayasan lembaga sabda");
    NotInRun(z, 'z', "webmaster@");
    NotInRun(z, 'z', "ylsa.org");
    NotInRun(z, 'z', "copyright");
    NotInRun(z, 'z', CircumflexMarker);
    NotInRun(z, 'z', "santapan harian");
  }

  /** A run of `z`s holds no header marker. */
  lemma RunNotHeader(z: string)
    requires AllChar(z, 'z')
    ensures !IsHeaderLine(z)
  {
    LowerRun(z);
    NotInRun(z, 'z', "sabda.org");
    NotInRun(z, 'z', "publikasi");
    NotInRun(z, 'z', "versi cetak");
    NotInRun(z, 'z', "http://");
    NotInRun(z, 'z', "https://");
    NotInRun(z, 'z', "halaman ini adalah versi");
  }

  /** A run of `z`s is trimmed, holds no newline and is plain ASCII. */
  lemma PlainLine(z: string)
    requires AllChar(z, 'z')
    ensures TrimSpace(z) == z && ByteLen(z) == |z| && '\n' !in z
  {
    PlainTrimmed(z);
    PlainBytes(z);
  }

  lemma PlainTrimmed(z: string)
    requires AllChar(z, 'z')
    ensures TrimSpace(z) == z
  {
    if z != [] {
      assert z[0] == 'z' && z[|z| - 1] == 'z';
      TrimNoop(z, GoSpace);
    }
  }

  lemma PlainBytes(z: string)
    requires AllChar(z, 'z')
    ensures ByteLen(z) == |z|
  {
    assert forall i :: 0 <= i < |z| ==> z[i] as int < 0x80;
    ByteLenAscii(z);
  }

  /** The line `Lukas` is trimmed and names a Gospel. */
  lemma LukasLine()
    ensures TrimSpace("Lukas") == "Lukas" && IsGospelLine("Lukas")
  {
    TrimNoop("Lukas", GoSpace);
    assert Lower("Lukas") == "lukas";
    assert HasPrefix("lukas", "lukas");
  }

  /** The lines of a Gospel line followed by a run of `z`s, trimmed. */
  lemma ArticleLines(z: string)
    requires AllChar(z, 'z')
    ensures TrimLines(Split("Lukas\n" + z, '\n')) == ["Lukas", z]
  {
    PlainLine(z);
    LukasLine();
    assert "Lukas\n" + z == "Lukas" + ['\n'] + z;
    SplitCons("Lukas", '\n', z);
  }

  /**
   * A body of a Gospel line followed by a line of more than 300 `z`s: the
   * scan keeps that line, so the text fallback meets more than 300 bytes
   * and the written closure panics.
   */
  lemma LongArticlePanics(z: string)
    requires |z| > 300 && AllChar(z, 'z')
    ensures ContentText("Lukas\n" + z) == z
    ensures ExtractAsWritten(BodyOnly("Lukas\n" + z)) == Panicked(LookaheadPanic)
  {
    LongArticleText(z);
    ExtractPanics(BodyOnly("Lukas\n" + z));
  }

  /** The text fallback of that body is the long line alone. */
  lemma LongArticleText(z: string)
    requires |z| > 300 && AllChar(z, 'z')
    ensures ContentText("Lukas\n" + z) == z && ByteLen(z) > 300
  {
    PlainLine(z);
    ArticleLines(z);
    ScanArticle(z);
  }

  lemma ScanArticle(z: string)
    requires |z| > 300 && AllChar(z, 'z')
    ensures Scan(["Lukas", z], false, Sabda) == [z]
  {
    PlainLine(z);
    RunNotDonation(z);
    RunNotHeader(z);
    LukasLine();
    assert Scan([z], true, Sabda) == [z] + Scan([], true, Sabda);
  }


  /** The smallest such page: a Gospel line and 301 `z`s. */
  lemma LookaheadCounterexample()
    ensures ExtractAsWritten(BodyOnly("Lukas\n" + seq(301, _ => 'z'))) == Panicked(LookaheadPanic)
  {
    LongArticlePanics(seq(301, _ => 'z'));
  }
}
