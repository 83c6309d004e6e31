/**
 * `extractParagraphs`: the paragraph elements of the content region,
 * filtered and tidied, the text fallback when they give at most one
 * paragraph, and a last pass that drops a trailing bracketed tag.
 */
module Paragraphs {
  import opened Wrappers
  import opened Text
  import opened Boilerplate
  import opened Rewrites
  import opened Segmentation

  /** A `<p>` element: its text and its `align` attribute, when it has one. */
  datatype ParagraphElement = ParagraphElement(text: string, align: Option<string>)

  /** A region of the page: all of its text, and its `p` elements in document order. */
  datatype Element = Element(text: string, paragraphs: seq<ParagraphElement>)

  /** A lone no-break space, which the element filter also skips. */
  const Nbsp: string := "\U{A0}"

  /** The values `f` gives, in order, for the elements it does not reject. */
  function FilterMap<T>(xs: seq<T>, f: T -> Option<string>): (r: seq<string>)
    ensures |r| <= |xs|
  {
    if xs == [] then []
    else (if f(xs[0]).Some? then [f(xs[0]).value] else []) + FilterMap(xs[1..], f)
  }

  /** A value is in the result exactly when `f` gives it for some element. */
  lemma {:induction false} FilterMapMembers<T>(xs: seq<T>, f: T -> Option<string>, y: string)
    ensures y in FilterMap(xs, f) <==> exists i :: 0 <= i < |xs| && f(xs[i]) == Some(y)
  {
    if xs != [] {
      FilterMapMembers(xs[1..], f, y);
      if y in FilterMap(xs[1..], f) {
        var i :| 0 <= i < |xs[1..]| && f(xs[1..][i]) == Some(y);
        assert f(xs[i + 1]) == Some(y);
      }
      if exists i :: 0 <= i < |xs| && f(xs[i]) == Some(y) {
        var i :| 0 <= i < |xs| && f(xs[i]) == Some(y);
        if i > 0 {
          assert xs[1..][i - 1] == xs[i];
        }
      }
    }
  }

  /** The filter treats each element on its own: it distributes over concatenation. */
  lemma {:induction false} FilterMapAppend<T>(xs: seq<T>, ys: seq<T>, f: T -> Option<string>)
    ensures FilterMap(xs + ys, f) == FilterMap(xs, f) + FilterMap(ys, f)
  {
    if xs == [] {
      assert xs + ys == ys;
    } else {
      var h := if f(xs[0]).Some? then [f(xs[0]).value] else [];
      assert (xs + ys)[0] == xs[0];
      assert (xs + ys)[1..] == xs[1..] + ys;
      assert FilterMap(xs + ys, f) == h + FilterMap(xs[1..] + ys, f);
      FilterMapAppend(xs[1..], ys, f);
      AppendAssoc(h, FilterMap(xs[1..], f), FilterMap(ys, f));
    }
  }

  // ---- The element filter ----

  /**
   * One `p` element through the filters: skip it when its trimmed text is
   * empty or a no-break space, when it is centred, when it is donation
   * text or when it is under 50 bytes; otherwise keep the trimmed text
   * with whitespace runs collapsed.
   */
  function StructuralText(p: ParagraphElement): Option<string> {
    var t := TrimSpace(p.text);
    if t == "" || t == Nbsp then None
    else if p.align == Some("center") then None
    else if IsDonationContent(t) then None
    else if ByteLen(t) < 50 then None
    else Some(CollapseSpaces(t))
  }

  /** Trimming never leaves a lone no-break space, which is whitespace to Go. */
  lemma NbspTrimmedAway(s: string)
    ensures TrimSpace(s) != Nbsp
  {
    var t := TrimSpace(s);
    assert t == [] || !IsGoSpace(t[0]);
  }

  /**
   * The element is kept exactly when its trimmed text is non-empty, it is
   * not centred, not donation text and at least 50 bytes long; what is
   * kept is that text with its visible characters unchanged and no two
   * whitespace characters in a row.
   */
  lemma StructuralTextSpec(p: ParagraphElement)
    ensures var t := TrimSpace(p.text);
      StructuralText(p).Some? <==>
        t != "" && p.align != Some("center") && !IsDonationContent(t) && ByteLen(t) >= 50
    ensures var t := TrimSpace(p.text);
      StructuralText(p).Some? ==>
        && StructuralText(p).value == CollapseSpaces(t)
        && Visible(StructuralText(p).value) == Visible(t)
        && NoDoubleSpace(StructuralText(p).value)
  {
    NbspTrimmedAway(p.text);
    CollapseSpacesSpec(TrimSpace(p.text));
  }

  // ---- The tidying pass ----

  /** Drop a trailing `[tag]` with the whitespace around it, trim, and keep what exceeds 50 bytes. */
  function Tidy(para: string): (r: Option<string>)
    ensures r.Some? ==> ByteLen(r.value) > 50 && TrimSpace(r.value) == r.value
  {
    var t := TrimSpace(StripTrailingTag(para));
    TrimSpaceIdempotent(StripTrailingTag(para));
    if ByteLen(t) > 50 then Some(t) else None
  }

  /** Paragraphs as the tidying pass leaves them: trimmed and over 50 bytes each. */
  predicate Tidied(ps: seq<string>) {
    forall k :: 0 <= k < |ps| ==> ByteLen(ps[k]) > 50 && TrimSpace(ps[k]) == ps[k]
  }

  /** The tidying pass over a list of paragraphs. */
  function TidyAll(ps: seq<string>): (r: seq<string>)
    ensures Tidied(r)
    ensures forall p :: p in r <==> exists i :: 0 <= i < |ps| && Tidy(ps[i]) == Some(p)
  {
    TidiedLong(ps);
    forall p ensures p in FilterMap(ps, Tidy) <==> exists i :: 0 <= i < |ps| && Tidy(ps[i]) == Some(p) {
      FilterMapMembers(ps, Tidy, p);
    }
    FilterMap(ps, Tidy)
  }

  lemma TidiedLong(ps: seq<string>)
    ensures Tidied(FilterMap(ps, Tidy))
  {
    var r := FilterMap(ps, Tidy);
    forall k | 0 <= k < |r|
      ensures ByteLen(r[k]) > 50 && TrimSpace(r[k]) == r[k]
    {
      FilterMapMembers(ps, Tidy, r[k]);
      var i :| 0 <= i < |ps| && Tidy(ps[i]) == Some(r[k]);
    }
  }

  /** Tidying a paragraph that has no trailing tag only trims it. */
  lemma TidyWithoutTag(para: string)
    requires forall p :: !TrailingTagAt(para, p)
    ensures Tidy(para) == if ByteLen(TrimSpace(para)) > 50 then Some(TrimSpace(para)) else None
  {
    StripTrailingTagSpec(para);
  }

  // ---- The whole step ----

  /**
   * `extractParagraphs` with a working sentence splitter: the element
   * filter, the text fallback over the region's text when it keeps at most
   * one paragraph, and the tidying pass.
   */
  function ExtractParagraphs(region: Element, split: string -> seq<string>): (r: seq<string>)
    ensures Tidied(r)
    ensures var kept := FilterMap(region.paragraphs, StructuralText);
      |kept| <= 1 ==> r == TidyAll(FromText(region.text, split))
    ensures var kept := FilterMap(region.paragraphs, StructuralText);
      |kept| > 1 ==> r == TidyAll(kept)
  {
    var kept := FilterMap(region.paragraphs, StructuralText);
    TidyAll(if |kept| <= 1 then FromText(region.text, split) else kept)
  }

  /**
   * `extractParagraphs` as written: the text fallback is the one whose
   * sentence pattern fails to compile, so it panics when it is reached
   * with more than 300 bytes of content.
   */
  function ExtractParagraphsAsWritten(region: Element): (r: Outcome<seq<string>>)
    ensures r.Panicked? <==>
      |FilterMap(region.paragraphs, StructuralText)| <= 1 && ByteLen(ContentText(region.text)) > 300
  {
    var kept := FilterMap(region.paragraphs, StructuralText);
    if |kept| <= 1 then
      match FromTextAsWritten(region.text)
      case Panicked(m) => Panicked(m)
      case Completed(ps) => Completed(TidyAll(ps))
    else Completed(TidyAll(kept))
  }

  /** When the written version completes it agrees with the corrected one, whatever the splitter. */
  lemma ExtractParagraphsAgrees(region: Element, split: string -> seq<string>)
    ensures ExtractParagraphsAsWritten(region).Completed? ==>
      ExtractParagraphsAsWritten(region).value == ExtractParagraphs(region, split)
  {
    FromTextAgrees(region.text, split);
  }
}
