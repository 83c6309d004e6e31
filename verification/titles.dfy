/**
 * The page title, the devotional title from the `h1` heading, and
 * `extractDevotionalTitle`, the fallback that looks for a title in the
 * cleaned text.
 */
module Titles {
  import opened Wrappers
  import opened Text
  import opened Scripture
  import opened Rewrites

  const DefaultTitle: string := "SABDA Devotional"

  /**
   * The record's title: the child text of `<title>` (which the collector
   * already trims), or the default when that is empty. The final trim the
   * scraper applies changes neither, as the first postcondition states.
   */
  function PageTitle(titleText: string): (t: string)
    ensures t != [] && TrimSpace(t) == t
    ensures TrimSpace(titleText) != [] ==> t == TrimSpace(titleText)
    ensures TrimSpace(titleText) == [] ==> t == DefaultTitle
  {
    var t := TrimSpace(titleText);
    if t == "" then DefaultTitleTrimmed(); DefaultTitle
    else TrimSpaceIdempotent(titleText); t
  }

  lemma DefaultTitleTrimmed()
    ensures DefaultTitle != [] && TrimSpace(DefaultTitle) == DefaultTitle
  {
    assert DefaultTitle[0] == 'S' && DefaultTitle[|DefaultTitle| - 1] == 'l';
    TrimNoop(DefaultTitle, GoSpace);
  }

  // ---- A title right after the reference in the text ----

  /** Where the lazy `[^,.\n]*?` stops: whitespace, `,` or `.`. */
  predicate IsStop(c: char) { IsReSpace(c) || c == ',' || c == '.' }

  /** The first stop at or after `p`, or `|s|`. */
  function StopFrom(s: string, p: nat): (q: nat)
    requires p <= |s|
    ensures p <= q <= |s|
    ensures q < |s| ==> IsStop(s[q])
    ensures forall t :: p <= t < q ==> !IsStop(s[t])
    decreases |s| - p
  {
    if p == |s| || IsStop(s[p]) then p else StopFrom(s, p + 1)
  }

  /**
   * `ref([A-Za-z][^,.\n]*?)(?:\s|$)` tried at `j`: the end of the group, when
   * `ref` occurs at `j` followed by a letter and the run after it ends at
   * whitespace or at the end of the text rather than at `,` or `.`.
   */
  function TitleAfterRefAt(text: string, ref: string, j: nat): (e: Option<nat>)
    requires j <= |text|
    ensures e.Some? ==> j + |ref| < e.value <= |text|
  {
    var k := j + |ref|;
    if !OccursAt(text, ref, j) || k >= |text| || !IsAsciiLetter(text[k]) then None
    else
      var e := StopFrom(text, k + 1);
      if e == |text| || IsReSpace(text[e]) then Some(e) else None
  }

  /** The match at `j` ends its group at `e`, and no match starts before `j`. */
  predicate LeftmostTitleAt(text: string, ref: string, j: nat, e: nat)
    requires j <= |text|
  {
    && TitleAfterRefAt(text, ref, j) == Some(e)
    && forall j' :: 0 <= j' < j ==> TitleAfterRefAt(text, ref, j').None?
  }

  /** The group of the leftmost match of `ref([A-Za-z][^,.\n]*?)(?:\s|$)` in `text`. */
  function TitleAfterRef(text: string, ref: string): (g: Option<string>)
    ensures g.Some? ==> g.value != [] && IsAsciiLetter(g.value[0])
    ensures g.Some? ==> forall t :: 0 <= t < |g.value| ==> !IsStop(g.value[t])
    ensures g.None? ==> forall j :: 0 <= j <= |text| ==> TitleAfterRefAt(text, ref, j).None?
    ensures g.Some? ==> exists j: nat, e: nat :: j <= |text| && LeftmostTitleAt(text, ref, j, e) && g.value == text[j + |ref|..e]
  {
    var ms := seq(|text| + 1, j requires 0 <= j <= |text| => TitleAfterRefAt(text, ref, j));
    match First(ms, 0)
    case Some((j, e)) =>
      assert ms[j] == TitleAfterRefAt(text, ref, j);
      assert forall j' :: 0 <= j' < j ==> ms[j'] == TitleAfterRefAt(text, ref, j');
      assert LeftmostTitleAt(text, ref, j, e);
      var g := text[j + |ref|..e];
      assert forall t :: 0 <= t < |g| ==> g[t] == text[j + |ref| + t];
      Some(g)
    case None =>
      assert forall j :: 0 <= j <= |text| ==> ms[j] == TitleAfterRefAt(text, ref, j);
      None
  }

  /** The clean-up applied to that group: trim, drop a number prefix, collapse spaces, trim. */
  function CleanRefTitle(g: string): string {
    TrimSpace(CollapseSpaces(StripNumberPrefix(TrimSpace(g))))
  }

  /**
   * The group holds no RE2 whitespace and starts with a letter, so of the
   * clean-up only the first trim can change it (it may drop trailing
   * Unicode spaces such as a no-break space).
   */
  lemma CleanRefTitleIsTrim(g: string)
    requires g != [] && IsAsciiLetter(g[0])
    requires forall t :: 0 <= t < |g| ==> !IsStop(g[t])
    ensures CleanRefTitle(g) == TrimSpace(g)
    ensures var t := CleanRefTitle(g);
      t != [] && IsAsciiLetter(t[0]) && forall i :: 0 <= i < |t| ==> !IsStop(t[i])
  {
    var t := TrimSpace(g);
    TrimmedTitle(g);
    assert StripNumberPrefix(t) == t;
    CollapseSpacesNoop(t);
  }

  lemma TrimmedTitle(g: string)
    requires g != [] && IsAsciiLetter(g[0])
    requires forall t :: 0 <= t < |g| ==> !IsStop(g[t])
    ensures var t := TrimSpace(g);
      && t != [] && IsAsciiLetter(t[0]) && (forall i :: 0 <= i < |t| ==> !IsStop(t[i]))
      && NoDoubleSpace(t) && TrimSpace(t) == t
  {
    var t := TrimSpace(g);
    TrimPrefixOfLetter(g);
    assert forall i :: 0 <= i < |t| ==> t[i] == g[i];
    TrimNoop(t, GoSpace);
  }

  /** Trimming a string that starts with a letter keeps that letter and adds no RE2 whitespace. */
  lemma TrimPrefixOfLetter(g: string)
    requires g != [] && IsAsciiLetter(g[0])
    requires forall t :: 0 <= t < |g| ==> !IsReSpace(g[t])
    ensures var t := TrimSpace(g);
      t != [] && t[0] == g[0] && t == g[..|t|] && forall i :: 0 <= i < |t| ==> !IsReSpace(t[i])
  {
    var l := TrimLeft(g, GoSpace);
    assert l == g;
    var r := TrimRight(l, GoSpace);
    assert !IsSpace(GoSpace, l[0]);
    assert forall i :: 0 <= i < |r| ==> r[i] == g[i];
  }

  // ---- The line scan ----

  /** A line the scan passes over. */
  predicate SkipLine(line: string, ref: string) {
    var lower := Lower(line);
    || ByteLen(line) < 3 || ByteLen(line) > 50
    || HasPrefix(lower, "ketika")
    || Contains(lower, "diperhadapkan")
    || Contains(lower, "sabda")
    || Contains(lower, "publikasi")
    || Contains(lower, "http")
    || Contains(line, ref)
  }

  /** `^[A-Z][a-zA-Z\s!?]*$`: a capital letter, then letters, whitespace, `!` and `?`. */
  predicate LooksLikeTitle(line: string) {
    && line != [] && IsAsciiUpper(line[0])
    && forall i :: 1 <= i < |line| ==> IsAsciiLetter(line[i]) || IsReSpace(line[i]) || line[i] == '!' || line[i] == '?'
  }

  /** A trimmed line the scan returns. */
  predicate TitleLine(line: string, ref: string) {
    !SkipLine(line, ref) && LooksLikeTitle(line)
  }

  /** The first trimmed line of `lines` that is a title line, or `""`. */
  function FirstTitleLine(lines: seq<string>, ref: string): (r: string)
    ensures r != "" ==> exists i :: 0 <= i < |lines| && r == TrimSpace(lines[i]) && TitleLine(r, ref)
    ensures r == "" <==> forall i :: 0 <= i < |lines| ==> !TitleLine(TrimSpace(lines[i]), ref)
  {
    if lines == [] then ""
    else
      var line := TrimSpace(lines[0]);
      if TitleLine(line, ref) then line
      else
        var r := FirstTitleLine(lines[1..], ref);
        assert forall i :: 1 <= i < |lines| ==> lines[i] == lines[1..][i - 1];
        if r != "" then
          var i :| 0 <= i < |lines[1..]| && r == TrimSpace(lines[1..][i]) && TitleLine(r, ref);
          assert r == TrimSpace(lines[i + 1]);
          r
        else r
  }

  /** `extractDevotionalTitle`. */
  function ExtractDevotionalTitle(text: string, ref: string): (title: string)
    ensures RefTitleFound(text, ref) ==> FromRef(text, ref, title)
    ensures !RefTitleFound(text, ref) ==> title == "" || TitleLine(title, ref)
    ensures !RefTitleFound(text, ref) ==> title == FirstTitleLine(Split(text, '\n'), ref)
  {
    if RefTitleFound(text, ref) then CleanRefTitle(TitleAfterRef(text, ref).value)
    else FirstTitleLine(Split(text, '\n'), ref)
  }

  /** The reference-title match exists and its cleaned group has an acceptable length. */
  predicate RefTitleFound(text: string, ref: string) {
    && ref != ""
    && TitleAfterRef(text, ref).Some?
    && 2 < ByteLen(CleanRefTitle(TitleAfterRef(text, ref).value)) < 100
  }

  /** `title` is the cleaned group of the reference-title match, of acceptable length. */
  predicate FromRef(text: string, ref: string, title: string) {
    && ref != ""
    && TitleAfterRef(text, ref).Some?
    && title == CleanRefTitle(TitleAfterRef(text, ref).value)
    && 2 < ByteLen(title) < 100
  }

  /** Without a reference every line contains the (empty) reference, so no title is found. */
  lemma NoRefNoTitle(text: string)
    ensures ExtractDevotionalTitle(text, "") == ""
  {
    var lines := Split(text, '\n');
    forall i | 0 <= i < |lines| ensures !TitleLine(TrimSpace(lines[i]), "") {
      ContainsEmpty(TrimSpace(lines[i]));
    }
  }

  // ---- The heading ----

  /** The reference and devotional title read off the `h1` text. */
  datatype Heading = Heading(reference: string, title: string)

  /**
   * The heading step: with no reference yet, a reference at the very start
   * of the trimmed heading is taken, and the rest of its line is the title;
   * with a reference, the heading without it is the title. A leading
   * `-number` is dropped; a title of three bytes or fewer is replaced by the
   * (reference-free) heading, again without a leading `-number`.
   */
  function ResolveHeading(h1Text: string, ref: string): (h: Heading)
    ensures TrimSpace(h.title) == h.title
    ensures ref != "" ==> h.reference == ref
    ensures ref == "" && LeadingReference(TrimSpace(h1Text)).None? ==> h.reference == ""
    ensures ref == "" && LeadingReference(TrimSpace(h1Text)).Some? ==>
              h.reference == LeadingReference(TrimSpace(h1Text)).value.0 && h.reference != ""
    ensures var t := TrimSpace(h1Text);
      var rest := if ref == "" then t else RemoveAll(t, ref);
      var dt1 := TrimSpace(StripDashNumber(HeadingResidual(t, ref)));
      h.title == if ByteLen(dt1) > 3 then dt1
                 else if ByteLen(rest) > 3 then TrimSpace(StripDashNumber(rest))
                 else dt1
  {
    var t := TrimSpace(h1Text);
    var lead := LeadingReference(t);
    var ref' := if ref == "" && lead.Some? then TrimSpace(lead.value.0) else ref;
    var rest := if ref == "" then t else RemoveAll(t, ref);
    // The source strips `^-\d+` only from a non-empty title; on `""` it is a no-op anyway.
    var dt0 := HeadingResidual(t, ref);
    var dt1 := TrimSpace(StripDashNumber(dt0));
    var dt := if ByteLen(dt1) > 3 then dt1
              else if ByteLen(rest) > 3 then TrimSpace(StripDashNumber(rest))
              else dt1;
    LeadingReferenceTrimmed(t);
    TrimSpaceIdempotent(StripDashNumber(dt0));
    TrimSpaceIdempotent(StripDashNumber(rest));
    Heading(ref', dt)
  }

  /**
   * The title the heading gives before the length test: with no reference
   * yet, the rest of the line after a leading reference (nothing without
   * one); with a reference, the heading without it.
   */
  function HeadingResidual(t: string, ref: string): (dt0: string)
    ensures ref != "" ==> dt0 == TrimSpace(RemoveAll(t, ref))
    ensures ref == "" && LeadingReference(t).None? ==> dt0 == ""
    ensures ref == "" && LeadingReference(t).Some? ==> dt0 == TrimSpace(LeadingReference(t).value.1)
  {
    if ref != "" then TrimSpace(RemoveAll(t, ref))
    else if LeadingReference(t).Some? then TrimSpace(LeadingReference(t).value.1)
    else ""
  }

  /** The leading reference is non-empty and starts and ends with a non-space. */
  lemma LeadingReferenceTrimmed(t: string)
    ensures LeadingReference(t).Some? ==>
      var r := LeadingReference(t).value.0; r != [] && TrimSpace(r) == r
  {
    var lead := LeadingReference(t);
    if lead.Some? {
      LetterToDigitTrimmed(lead.value.0);
    }
  }

  lemma LetterToDigitTrimmed(r: string)
    requires r != [] && IsAsciiLetter(r[0]) && IsAsciiDigit(r[|r| - 1])
    ensures TrimSpace(r) == r
  {
    TrimNoop(r, GoSpace);
  }

  /** The devotional title: from the heading when it gives one, else from the text. */
  function DevotionalTitle(h1Text: Option<string>, cleanText: string, ref: string): (r: Heading)
    ensures r.title == "" ==> ExtractDevotionalTitle(cleanText, r.reference) == ""
    ensures h1Text.None? ==> r == Heading(ref, ExtractDevotionalTitle(cleanText, ref))
    ensures h1Text.Some? && ResolveHeading(h1Text.value, ref).title != "" ==>
              r == ResolveHeading(h1Text.value, ref)
    ensures h1Text.Some? && ResolveHeading(h1Text.value, ref).title == "" ==>
              var h := ResolveHeading(h1Text.value, ref);
              r == Heading(h.reference, ExtractDevotionalTitle(cleanText, h.reference))
  {
    if h1Text.None? then Heading(ref, ExtractDevotionalTitle(cleanText, ref))
    else
      var h := ResolveHeading(h1Text.value, ref);
      if h.title == "" then Heading(h.reference, ExtractDevotionalTitle(cleanText, h.reference)) else h
  }
}
