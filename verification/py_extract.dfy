/**
 * `SABDAScraper.extract_content` of the Python service and of `app.py`:
 * the page text (BeautifulSoup's `get_text()`) and the `<title>` text, if
 * there is a title element, become the content record. The service drops
 * donation lines from the full text and cleans every paragraph; `app.py`
 * keeps both as the line walk leaves them. Python's `len` counts code
 * points and `str.split()` splits at Python whitespace.
 */
module PyExtract {
  import opened Wrappers
  import opened Text
  import opened Words
  import opened Decimal
  import Scripture
  import Service
  import opened Paragraphs
  import opened PyGrouping
  import opened PyCleaning
  import opened PyResponse

  /** The content dictionary; `devotionalTitle` is `None` when the key is not set. */
  datatype PyContent = PyContent(
    title: Option<string>,
    scriptureReference: Option<string>,
    devotionalTitle: Option<string>,
    devotionalContent: seq<string>,
    fullText: string,
    wordCount: nat)

  const AccountAndYay: string := "BCA 106.30066.22 Yay Pancar Pijar Alkitab"

  /** A line the service leaves out of the full text: it holds one of four donation phrases, case-sensitively. */
  predicate IsDonationLine(line: string) {
    || Contains(line, MariFull) || Contains(line, Edition)
    || Contains(line, AccountAndYay) || Contains(line, SendSupport)
  }

  /** The lines that are not donation lines, in order. */
  function FilterDonations(lines: seq<string>): (kept: seq<string>)
    ensures |kept| <= |lines|
    ensures forall k :: 0 <= k < |kept| ==> !IsDonationLine(kept[k])
  {
    if lines == [] then []
    else (if IsDonationLine(lines[0]) then [] else [lines[0]]) + FilterDonations(lines[1..])
  }

  /** A line is kept exactly when it is one of the lines and not a donation line. */
  lemma {:induction false} FilterDonationsMembers(lines: seq<string>, x: string)
    ensures x in FilterDonations(lines) <==> x in lines && !IsDonationLine(x)
  {
    if lines != [] {
      FilterDonationsMembers(lines[1..], x);
      assert lines == [lines[0]] + lines[1..];
    }
  }

  /** Without donation lines the filter keeps everything. */
  lemma {:induction false} FilterDonationsNoop(lines: seq<string>)
    requires forall k :: 0 <= k < |lines| ==> !IsDonationLine(lines[k])
    ensures FilterDonations(lines) == lines
  {
    if lines != [] {
      FilterDonationsNoop(lines[1..]);
    }
  }

  /** The kept lines of the page text: stripped, non-empty, without newlines. */
  lemma KeptAreLines(text: string, kept: seq<string>)
    requires kept == FilterDonations(Lines(text))
    ensures forall k :: 0 <= k < |kept| ==> IsLine(kept[k]) && '\n' !in kept[k]
  {
    var lines := Lines(text);
    forall k | 0 <= k < |kept| ensures IsLine(kept[k]) && '\n' !in kept[k] {
      FilterDonationsMembers(lines, kept[k]);
    }
  }

  /** `clean_text`: the kept lines joined with newlines. */
  function CleanText(text: string): string {
    Join(FilterDonations(Lines(text)), "\n")
  }

  /** The devotional title: group 2 of the title match, stripped, without bracketed segments, stripped. */
  function DevotionalTitle(clean: string): (t: Option<string>)
    ensures t.Some? ==> Trim(t.value, PySpace) == t.value && NoBracketPair(t.value)
    ensures t.Some? <==> Scripture.PyTitleMatch(clean).Some?
  {
    match Scripture.PyTitleMatch(clean)
    case Some((_, rest)) =>
      TitleTextSpec(rest);
      Some(TitleText(rest))
    case None => None
  }

  /** The `<title>` text stripped, or `None` without a title element. */
  function PageTitle(titleText: Option<string>): (t: Option<string>)
    ensures t.None? <==> titleText.None?
    ensures t.Some? ==> Trim(t.value, PySpace) == t.value
  {
    match titleText
    case Some(s) =>
      TrimIdempotent(s);
      Some(Trim(s, PySpace))
    case None => None
  }

  lemma TrimIdempotent(s: string)
    ensures Trim(Trim(s, PySpace), PySpace) == Trim(s, PySpace)
  {
    TrimNoop(Trim(s, PySpace), PySpace);
  }

  /**
   * `extract_content` of the service (app/services/scraper.py): the
   * paragraphs come from the walk over all lines, donation lines included,
   * and each is cleaned; the references and the counts come from the
   * text without donation lines.
   */
  function ExtractContent(titleText: Option<string>, mainText: string): (c: PyContent)
    ensures c.fullText == CleanText(mainText)
    ensures c.wordCount == WordCount(c.fullText, PySpace)
    ensures c.scriptureReference == Scripture.PyReference(c.fullText)
    ensures c.devotionalTitle == DevotionalTitle(c.fullText)
    ensures c.title.None? <==> titleText.None?
    ensures forall k :: 0 <= k < |c.devotionalContent| ==>
      var p := c.devotionalContent[k];
      |p| > 10 && Cleaned(p) && !Contains(p, Account) && !Contains(p, SendSupport)
  {
    var lines := Lines(mainText);
    var clean := CleanText(mainText);
    var content := FilterMap(GroupLines(lines), CleanParagraph);
    forall k | 0 <= k < |content|
      ensures var p := content[k]; |p| > 10 && Cleaned(p) && !Contains(p, Account) && !Contains(p, SendSupport)
    {
      FilterMapMembers(GroupLines(lines), CleanParagraph, content[k]);
    }
    PyContent(PageTitle(titleText), Scripture.PyReference(clean), DevotionalTitle(clean), content,
              clean, WordCount(clean, PySpace))
  }

  /** The service's extraction with the paragraph cleaning as written, which misses a differently spaced account number. */
  function ExtractContentAsWritten(titleText: Option<string>, mainText: string): (c: PyContent)
    ensures c.fullText == CleanText(mainText)
    ensures forall k :: 0 <= k < |c.devotionalContent| ==> |c.devotionalContent[k]| > 10
  {
    var content := FilterMap(GroupLines(Lines(mainText)), CleanParagraphAsWritten);
    forall k | 0 <= k < |content| ensures |content[k]| > 10 {
      FilterMapMembers(GroupLines(Lines(mainText)), CleanParagraphAsWritten, content[k]);
    }
    ExtractContent(titleText, mainText).(devotionalContent := content)
  }

  /** `FilterMap` with two functions that agree on every element gives the same result. */
  lemma {:induction false} FilterMapSame(xs: seq<string>, f: string -> Option<string>, g: string -> Option<string>)
    requires forall k :: 0 <= k < |xs| ==> f(xs[k]) == g(xs[k])
    ensures FilterMap(xs, f) == FilterMap(xs, g)
  {
    if xs != [] {
      FilterMapSame(xs[1..], f, g);
    }
  }

  /** When every paragraph is already single-spaced the two cleanings give the same record. */
  lemma AsWrittenAgrees(titleText: Option<string>, mainText: string)
    requires var ps := GroupLines(Lines(mainText)); forall k :: 0 <= k < |ps| ==> SingleSpaced(ps[k])
    ensures ExtractContentAsWritten(titleText, mainText) == ExtractContent(titleText, mainText)
  {
    var ps := GroupLines(Lines(mainText));
    forall k | 0 <= k < |ps| ensures CleanParagraphAsWritten(ps[k]) == CleanParagraph(ps[k]) {
      CleanParagraphAgrees(ps[k]);
    }
    FilterMapSame(ps, CleanParagraphAsWritten, CleanParagraph);
  }

  /**
   * The full text is the kept lines again: split at newlines it gives them
   * back, and it is empty exactly when no line is kept.
   */
  lemma FullTextLines(mainText: string)
    ensures var kept := FilterDonations(Lines(mainText));
      var full := CleanText(mainText);
      && (kept != [] ==> Split(full, '\n') == kept)
      && (full == "" <==> kept == [])
  {
    var kept := FilterDonations(Lines(mainText));
    KeptAreLines(mainText, kept);
    if kept != [] {
      assert "\n" == ['\n'];
      SplitJoin(kept, '\n');
      JoinFirstNonEmpty(kept, "\n");
    }
  }

  lemma JoinFirstNonEmpty(xs: seq<string>, sep: string)
    requires xs != [] && xs[0] != ""
    ensures Join(xs, sep) != ""
  {
    JoinFirst(xs, sep);
  }

  /** A line of the full text is a stripped line of the page that is not a donation line, and every such line is one. */
  lemma FullTextMembers(titleText: Option<string>, mainText: string, line: string)
    requires FilterDonations(Lines(mainText)) != []
    ensures line in Split(ExtractContent(titleText, mainText).fullText, '\n') <==>
      line in Lines(mainText) && !IsDonationLine(line)
  {
    FullTextLines(mainText);
    FilterDonationsMembers(Lines(mainText), line);
  }

  /** The scripture reference found has the form `book chapter:verse[-verse]`, whitespace as Python's `\s`. */
  lemma PyReferenceShape(text: string)
    ensures var r := Scripture.PyReference(text);
      r.Some? ==>
        && Scripture.ShapeAt(r.value, 0, |r.value|, true, Scripture.PyWs)
        && IsAsciiLetter(r.value[0]) && IsAsciiDigit(r.value[|r.value| - 1])
  {
    Scripture.FoundShape(text, true, Scripture.PyWs, Scripture.AnyEnd);
  }

  /**
   * `extract_content` of `app.py`: the same walk, but the full text keeps
   * every line and the paragraphs are not cleaned.
   */
  function ExtractContentApp(titleText: Option<string>, mainText: string): (c: PyContent)
    ensures c.wordCount == WordCount(c.fullText, PySpace)
    ensures c.title.None? <==> titleText.None?
    ensures forall k :: 0 <= k < |c.devotionalContent| ==> |c.devotionalContent[k]| > 20
  {
    var lines := Lines(mainText);
    var clean := Join(lines, "\n");
    PyContent(PageTitle(titleText), Scripture.PyReference(clean), DevotionalTitle(clean), GroupLines(lines),
              clean, WordCount(clean, PySpace))
  }

  /** The full text of `app.py` is every stripped non-empty line, and splits back into them. */
  lemma AppFullTextLines(titleText: Option<string>, mainText: string)
    ensures var lines := Lines(mainText);
      var full := ExtractContentApp(titleText, mainText).fullText;
      && (lines != [] ==> Split(full, '\n') == lines)
      && (full == "" <==> lines == [])
  {
    var lines := Lines(mainText);
    if lines != [] {
      assert forall k :: 0 <= k < |lines| ==> IsLine(lines[k]) && '\n' !in lines[k];
      assert "\n" == ['\n'];
      SplitJoin(lines, '\n');
      JoinFirstNonEmpty(lines, "\n");
    }
  }

  /** Without donation lines the two extractors agree on everything but the paragraph cleaning. */
  lemma NoDonationsAgree(titleText: Option<string>, mainText: string)
    requires var lines := Lines(mainText); forall k :: 0 <= k < |lines| ==> !IsDonationLine(lines[k])
    ensures ExtractContent(titleText, mainText).(devotionalContent := []) ==
            ExtractContentApp(titleText, mainText).(devotionalContent := [])
  {
    FilterDonationsNoop(Lines(mainText));
  }

  /** The service's paragraphs are exactly the cleanings of `app.py`'s paragraphs that survive the length test. */
  lemma ContentIsCleanedApp(titleText: Option<string>, mainText: string, p: string)
    ensures var app := ExtractContentApp(titleText, mainText).devotionalContent;
      p in ExtractContent(titleText, mainText).devotionalContent <==>
      exists i :: 0 <= i < |app| && CleanParagraph(app[i]) == Some(p)
  {
    FilterMapMembers(GroupLines(Lines(mainText)), CleanParagraph, p);
  }

  // ---- Date formatting and addresses ----

  /**
   * `str.zfill(width)`: zeros on the left up to `width` code points, after
   * a leading `+` or `-`; a string already that long is returned as is.
   */
  function Zfill(s: string, width: nat): (r: string)
    ensures |r| == if |s| < width then width else |s|
    ensures |s| >= width ==> r == s
    ensures |s| < width ==> forall i :: 0 <= i < |r| ==> r[i] in s || r[i] == '0'
  {
    if |s| >= width then s
    else
      var zeros := seq(width - |s|, _ => '0');
      if s != [] && (s[0] == '+' || s[0] == '-') then [s[0]] + zeros + s[1..] else zeros + s
  }

  /** Without a leading sign, zero-filling to four is Go's `%04s` padding. */
  lemma ZfillPad4(s: string)
    requires s == [] || (s[0] != '+' && s[0] != '-')
    ensures Zfill(s, 4) == Pad4(s)
  {
  }

  /** With a sign the two differ: Python keeps the sign in front, Go pads before it. */
  lemma ZfillSigned()
    ensures Zfill("+5", 4) == "+005" && Pad4("+5") == "00+5"
  {
    assert "+5"[1..] == "5";
  }

  /** Zero-filling keeps the text at its end when there is no sign, so the digits survive. */
  lemma ZfillDigits(s: string)
    requires AllDigits(s)
    ensures AllDigits(Zfill(s, 4)) && Zfill(s, 4)[|Zfill(s, 4)| - |s|..] == s
  {
    if s != [] {
      assert IsAsciiDigit(s[0]);
    }
    ZfillPad4(s);
  }

  /** The print-version address fetched: `tahun` the year, `edisi` the zero-filled date. */
  function PrintUrl(year: int, date: string): string {
    "https://www.sabda.org/publikasi/e-sh/cetak/?tahun=" + IntString(year) + "&edisi=" + Zfill(date, 4)
  }

  const SourceBase: string := "https://www.sabda.org/publikasi/e-sh/"

  /** The article address reported as `source`: year, then the zero-filled date cut after two characters. */
  function SourceUrl(year: int, date: string): (u: string)
    ensures var f := Zfill(date, 4);
      u == SourceBase + IntString(year) + "/" + f[..2] + "/" + f[2..] + "/"
  {
    var f := Zfill(date, 4);
    SourceBase + IntString(year) + "/" + f[..2] + "/" + f[2..] + "/"
  }

  /** For a date without a sign the Python and Go services fetch the same print-version address. */
  lemma PrintUrlAgrees(year: int, date: string)
    requires date == [] || (date[0] != '+' && date[0] != '-')
    ensures PrintUrl(year, date) == Service.PrintUrl(year, Pad4(date))
  {
    ZfillPad4(date);
  }

  /** The date's two halves are the month and day parts of the source address for a four-digit date. */
  lemma SourceUrlParts(year: int, date: string)
    requires |date| == 4
    ensures SourceUrl(year, date) == SourceBase + IntString(year) + "/" + date[..2] + "/" + date[2..] + "/"
  {
  }

  // ---- The content as a Python dictionary ----

  function OptStr(o: Option<string>): PyValue {
    match o
    case Some(s) => PyStr(s)
    case None => PyNone
  }

  function StrList(xs: seq<string>): (v: seq<PyValue>)
    ensures |v| == |xs| && forall k :: 0 <= k < |xs| ==> v[k] == PyStr(xs[k])
  {
    seq(|xs|, k requires 0 <= k < |xs| => PyStr(xs[k]))
  }

  /** The dictionary the extractor returns; `devotional_title` only when a title was found. */
  function ContentValue(c: PyContent): (v: PyValue)
    ensures v.PyDict?
    ensures "devotional_title" in v.entries <==> c.devotionalTitle.Some?
  {
    var base := map[
      "title" := OptStr(c.title),
      "scripture_reference" := OptStr(c.scriptureReference),
      "devotional_content" := PyList(StrList(c.devotionalContent)),
      "full_text" := PyStr(c.fullText),
      "word_count" := PyInt(c.wordCount)];
    match c.devotionalTitle
    case Some(t) => PyDict(base["devotional_title" := PyStr(t)])
    case None => PyDict(base)
  }

  /** A JSON string or null read back. */
  function ReadOptStr(v: PyValue): Option<Option<string>> {
    match v
    case PyNone => Some(None)
    case PyStr(s) => Some(Some(s))
    case _ => None
  }

  /** A list of strings read back, or nothing when an item is not a string. */
  function ReadStrs(items: seq<PyValue>): (r: Option<seq<string>>)
    ensures r.Some? ==> |r.value| == |items|
  {
    if items == [] then Some([])
    else match (items[0], ReadStrs(items[1..]))
      case (PyStr(s), Some(rest)) => Some([s] + rest)
      case _ => None
  }

  lemma {:induction false} ReadStrList(xs: seq<string>)
    ensures ReadStrs(StrList(xs)) == Some(xs)
  {
    if xs != [] {
      ReadStrList(xs[1..]);
      var items := StrList(xs);
      assert items[0] == PyStr(xs[0]);
      assert items[1..] == StrList(xs[1..]);
      assert [xs[0]] + xs[1..] == xs;
    }
  }

  /** The content record read back from a dictionary, as a client of the JSON response would. */
  function ReadContent(v: PyValue): Option<PyContent> {
    if !v.PyDict? then None
    else
      var d := v.entries;
      if !("title" in d && "scripture_reference" in d && "devotional_content" in d
           && "full_text" in d && "word_count" in d) then None
      else
        var title := ReadOptStr(d["title"]);
        var reference := ReadOptStr(d["scripture_reference"]);
        var dt := if "devotional_title" in d then ReadOptStr(d["devotional_title"]) else Some(None);
        match (title, reference, dt, d["devotional_content"], d["full_text"], d["word_count"])
        case (Some(t), Some(r), Some(Some(s)), PyList(items), PyStr(full), PyInt(n)) =>
          if n >= 0 && ReadStrs(items).Some? then Some(PyContent(t, r, Some(s), ReadStrs(items).value, full, n))
          else None
        case (Some(t), Some(r), Some(None), PyList(items), PyStr(full), PyInt(n)) =>
          if n >= 0 && ReadStrs(items).Some? && "devotional_title" !in d
          then Some(PyContent(t, r, None, ReadStrs(items).value, full, n))
          else None
        case _ => None
  }

  /** Reading the dictionary back gives the record it was made from. */
  lemma ContentRoundTrip(c: PyContent)
    ensures ReadContent(ContentValue(c)) == Some(c)
  {
    ReadStrList(c.devotionalContent);
    match c.title {
      case Some(_) =>
      case None =>
    }
    match c.scriptureReference {
      case Some(_) =>
      case None =>
    }
  }
}
