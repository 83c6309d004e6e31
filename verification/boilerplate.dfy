/**
 * The scraper's two boilerplate tests: donation/footer text, which ends
 * the article, and site-header text, which is dropped line by line. Each
 * test tries its markers in order and answers on the first hit, which is
 * the disjunction written out below.
 */
module Boilerplate {
  import opened Text

  /** The one donation marker with a capital letter: `"Â© "`, a mis-decoded copyright sign. */
  const CircumflexMarker: string := ['\U{C2}', '\U{A9}', ' ']

  /** `isDonationContent`: the lower-cased text contains a donation or footer marker. */
  predicate IsDonationContent(text: string) {
    var l := Lower(text);
    || Contains(l, "mari memberkati")
    || Contains(l, "pancar pijar alkitab")
    || Contains(l, "bca 106.30066.22")
    || Contains(l, "yayasan lembaga sabda")
    || Contains(l, "webmaster@")
    || Contains(l, "ylsa.org")
    || Contains(l, "copyright")
    || Contains(l, CircumflexMarker)
    || Contains(l, "santapan harian")
  }

  /** `isHeaderContent`: the text (which callers lower-case first) contains a header marker. */
  predicate IsHeaderContent(text: string) {
    || Contains(text, "sabda.org")
    || Contains(text, "publikasi")
    || Contains(text, "versi cetak")
    || Contains(text, "http://")
    || Contains(text, "https://")
    || Contains(text, "halaman ini adalah versi")
  }

  /** Lower-casing never produces a capital A with circumflex. */
  lemma LowerNeverCircumflexA(c: char)
    ensures LowerChar(c) != '\U{C2}'
  {
  }

  /**
   * The marker `"Â© "` can never match: it starts with a capital letter and
   * is looked for in lower-cased text.
   */
  lemma {:induction false} CircumflexMarkerDead(text: string)
    ensures !Contains(Lower(text), CircumflexMarker)
  {
    var l := Lower(text);
    if text != [] {
      LowerNeverCircumflexA(text[0]);
      assert l[0] != CircumflexMarker[0];
      assert l[1..] == Lower(text[1..]);
      CircumflexMarkerDead(text[1..]);
    }
  }

  /** Hence the donation test is decided by the eight other markers alone. */
  lemma DonationWithoutDeadMarker(text: string)
    ensures var l := Lower(text);
      IsDonationContent(text) <==>
        || Contains(l, "mari memberkati")
        || Contains(l, "pancar pijar alkitab")
        || Contains(l, "bca 106.30066.22")
        || Contains(l, "yayasan lembaga sabda")
        || Contains(l, "webmaster@")
        || Contains(l, "ylsa.org")
        || Contains(l, "copyright")
        || Contains(l, "santapan harian")
  {
    CircumflexMarkerDead(text);
  }

  /** A line with a web address is always header text. */
  lemma UrlIsHeader(text: string, i: nat)
    requires OccursAt(text, "https://", i)
    ensures IsHeaderContent(text)
  {
    ContainsSpec(text, "https://");
  }
}
