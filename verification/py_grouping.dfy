/**
 * The line walk shared by both Python extractors (`extract_content` in
 * `app.py` and in `app/services/scraper.py`): the page text cut into
 * stripped, non-empty lines, and those lines grouped into paragraphs.
 * Header lines are passed over, the first footer line ends the walk, runs
 * of long lines are joined with spaces, and any other line ends a run.
 * Python's `len` counts code points, so lengths here are `|s|`.
 */
module PyGrouping {
  import opened Wrappers
  import opened Text
  import opened Segmentation
  import opened Paragraphs

  /** One line stripped, or nothing when it strips to the empty string. */
  function StripLine(line: string): Option<string> {
    var t := Trim(line, PySpace);
    if t == "" then None else Some(t)
  }

  /** `[line.strip() for line in text.split('\n') if line.strip()]`. */
  function Lines(text: string): (lines: seq<string>)
    ensures forall k :: 0 <= k < |lines| ==> IsLine(lines[k])
  {
    var pieces := Split(text, '\n');
    var lines := FilterMap(pieces, StripLine);
    forall k | 0 <= k < |lines| ensures IsLine(lines[k]) {
      FilterMapMembers(pieces, StripLine, lines[k]);
      var i :| 0 <= i < |pieces| && StripLine(pieces[i]) == Some(lines[k]);
      StripLineIsLine(pieces[i]);
    }
    lines
  }

  lemma StripLineIsLine(piece: string)
    requires '\n' !in piece
    ensures StripLine(piece).Some? ==> IsLine(StripLine(piece).value)
  {
    var t := Trim(piece, PySpace);
    if t != "" {
      TrimmedIsLine(piece, t);
      assert StripLine(piece) == Some(t);
    }
  }

  lemma TrimmedIsLine(piece: string, t: string)
    requires '\n' !in piece && t == Trim(piece, PySpace) && t != ""
    ensures IsLine(t)
  {
    TrimInfix(piece, PySpace, '\n');
    TrimNoop(t, PySpace);
  }

  /** What every line of `Lines` is: non-empty, stripped, and free of newlines. */
  predicate IsLine(line: string) {
    line != "" && Trim(line, PySpace) == line && '\n' !in line
  }

  /** `line` is what one of the pieces strips to, and it is not empty. */
  predicate StripsFrom(pieces: seq<string>, line: string) {
    line != "" && exists i :: 0 <= i < |pieces| && Trim(pieces[i], PySpace) == line
  }

  /** A line is in `Lines(text)` exactly when it is the non-empty strip of a piece between newlines. */
  lemma LinesMembers(text: string, line: string)
    ensures line in Lines(text) <==> StripsFrom(Split(text, '\n'), line)
  {
    var pieces := Split(text, '\n');
    assert Lines(text) == FilterMap(pieces, StripLine);
    StripMembers(pieces, line);
  }

  lemma StripMembers(pieces: seq<string>, line: string)
    ensures line in FilterMap(pieces, StripLine) <==> StripsFrom(pieces, line)
  {
    if line in FilterMap(pieces, StripLine) {
      StrippedFrom(pieces, line);
    }
    if StripsFrom(pieces, line) {
      StripsInto(pieces, line);
    }
  }

  lemma StrippedFrom(pieces: seq<string>, line: string)
    requires line in FilterMap(pieces, StripLine)
    ensures StripsFrom(pieces, line)
  {
    FilterMapMembers(pieces, StripLine, line);
    var i :| 0 <= i < |pieces| && StripLine(pieces[i]) == Some(line);
    assert Trim(pieces[i], PySpace) == line;
  }

  lemma StripsInto(pieces: seq<string>, line: string)
    requires StripsFrom(pieces, line)
    ensures line in FilterMap(pieces, StripLine)
  {
    var i :| 0 <= i < |pieces| && Trim(pieces[i], PySpace) == line;
    assert StripLine(pieces[i]) == Some(line);
    FilterMapMembers(pieces, StripLine, line);
  }

  /** Navigation and header text: the lower-cased line names the site, the print version or a link. */
  predicate IsSkipLine(line: string) {
    var l := Lower(line);
    || Contains(l, "sabda.org") || Contains(l, "publikasi") || Contains(l, "versi cetak")
    || Contains(l, "http://") || Contains(l, "https://")
  }

  /** Footer text: the lower-cased line names the foundation, the webmaster or its site. */
  predicate IsFooterLine(line: string) {
    var l := Lower(line);
    Contains(l, "yayasan lembaga sabda") || Contains(l, "webmaster@") || Contains(l, "ylsa.org")
  }

  /** A paragraph line: more than 20 code points, not opening with `[` and not closing with `]`. */
  predicate Qualifies(line: string) {
    |line| > 20 && !HasPrefix(line, "[") && !HasSuffix(line, "]")
  }

  /** The pending run as a group, when it is not empty. */
  function Close(cur: seq<string>): (gs: seq<seq<string>>)
    ensures cur == [] ==> gs == []
    ensures cur != [] ==> gs == [cur]
  {
    if cur == [] then [] else [cur]
  }

  /** Every group is a non-empty run of paragraph lines. */
  predicate GoodGroups(gs: seq<seq<string>>) {
    forall k :: 0 <= k < |gs| ==> gs[k] != [] && forall j :: 0 <= j < |gs[k]| ==> Qualifies(gs[k][j])
  }

  /**
   * The walk over `lines` with the run `cur` pending: the groups it
   * closes, including the last run when the walk ends.
   */
  function Groups(lines: seq<string>, cur: seq<string>): (gs: seq<seq<string>>)
    requires forall j :: 0 <= j < |cur| ==> Qualifies(cur[j])
    ensures GoodGroups(gs)
    decreases |lines|
  {
    if lines == [] then Close(cur)
    else if IsSkipLine(lines[0]) then Groups(lines[1..], cur)
    else if IsFooterLine(lines[0]) then Close(cur)
    else if Qualifies(lines[0]) then Groups(lines[1..], cur + [lines[0]])
    else
      var rest := Groups(lines[1..], []);
      assert forall k :: 0 <= k < |rest| ==> (Close(cur) + rest)[k + |Close(cur)|] == rest[k];
      Close(cur) + rest
  }

  /** The paragraph lines the walk reaches: those before the first footer line that is not also a header line. */
  function Kept(lines: seq<string>): (r: seq<string>)
    ensures forall j :: 0 <= j < |r| ==> Qualifies(r[j])
  {
    if lines == [] then []
    else if IsSkipLine(lines[0]) then Kept(lines[1..])
    else if IsFooterLine(lines[0]) then []
    else (if Qualifies(lines[0]) then [lines[0]] else []) + Kept(lines[1..])
  }

  /** The groups, laid end to end, are the pending run followed by exactly the paragraph lines reached. */
  lemma {:induction false} GroupsFlatten(lines: seq<string>, cur: seq<string>)
    requires forall j :: 0 <= j < |cur| ==> Qualifies(cur[j])
    ensures Flatten(Groups(lines, cur)) == cur + Kept(lines)
    decreases |lines|
  {
    if lines == [] || (!IsSkipLine(lines[0]) && IsFooterLine(lines[0])) {
      FlattenAtEnd(lines, cur);
    } else if IsSkipLine(lines[0]) {
      GroupsFlatten(lines[1..], cur);
    } else if Qualifies(lines[0]) {
      GroupsFlatten(lines[1..], cur + [lines[0]]);
      FlattenExtend(lines, cur);
    } else {
      GroupsFlatten(lines[1..], []);
      FlattenBreak(lines, cur);
    }
  }

  lemma FlattenAtEnd(lines: seq<string>, cur: seq<string>)
    requires forall j :: 0 <= j < |cur| ==> Qualifies(cur[j])
    requires lines == [] || (!IsSkipLine(lines[0]) && IsFooterLine(lines[0]))
    ensures Flatten(Groups(lines, cur)) == cur + Kept(lines)
  {
    assert Groups(lines, cur) == Close(cur) + [];
    assert Kept(lines) == [];
    CloseFlatten(cur, []);
  }

  lemma FlattenExtend(lines: seq<string>, cur: seq<string>)
    requires forall j :: 0 <= j < |cur| ==> Qualifies(cur[j])
    requires lines != [] && !IsSkipLine(lines[0]) && !IsFooterLine(lines[0]) && Qualifies(lines[0])
    requires Flatten(Groups(lines[1..], cur + [lines[0]])) == cur + [lines[0]] + Kept(lines[1..])
    ensures Flatten(Groups(lines, cur)) == cur + Kept(lines)
  {
    assert Kept(lines) == [lines[0]] + Kept(lines[1..]);
    QualifiesSnoc(cur, lines[0]);
    assert Groups(lines, cur) == Groups(lines[1..], cur + [lines[0]]);
    AppendAssoc(cur, [lines[0]], Kept(lines[1..]));
  }

  lemma QualifiesSnoc(cur: seq<string>, x: string)
    requires forall j :: 0 <= j < |cur| ==> Qualifies(cur[j])
    requires Qualifies(x)
    ensures forall j :: 0 <= j < |cur + [x]| ==> Qualifies((cur + [x])[j])
  {
  }

  lemma FlattenBreak(lines: seq<string>, cur: seq<string>)
    requires forall j :: 0 <= j < |cur| ==> Qualifies(cur[j])
    requires lines != [] && !IsSkipLine(lines[0]) && !IsFooterLine(lines[0]) && !Qualifies(lines[0])
    requires Flatten(Groups(lines[1..], [])) == [] + Kept(lines[1..])
    ensures Flatten(Groups(lines, cur)) == cur + Kept(lines)
  {
    assert Groups(lines, cur) == Close(cur) + Groups(lines[1..], []);
    assert Kept(lines) == [] + Kept(lines[1..]);
    CloseFlatten(cur, Groups(lines[1..], []));
  }


  lemma CloseFlatten(cur: seq<string>, gs: seq<seq<string>>)
    ensures Flatten(Close(cur) + gs) == cur + Flatten(gs)
  {
    if cur != [] {
      FlattenCons(cur, gs);
    } else {
      assert Close(cur) + gs == gs;
    }
  }

  /** A line that ends the pending run without ending the walk. */
  predicate IsBreakLine(line: string) {
    !IsSkipLine(line) && !IsFooterLine(line) && !Qualifies(line)
  }

  /** A line that joins the pending run. */
  predicate IsRunLine(line: string) {
    !IsSkipLine(line) && !IsFooterLine(line) && Qualifies(line)
  }

  /** Every line of `run` joins the pending run. */
  predicate IsRun(run: seq<string>) {
    run == [] || (IsRunLine(run[0]) && IsRun(run[1..]))
  }

  /**
   * Group boundaries: a run of paragraph lines (none a header or footer
   * line) followed by a line that is neither a header, a footer nor a
   * paragraph line closes exactly one
   * group, the pending run with the whole run appended, and the walk goes
   * on afresh after it.
   */
  lemma {:induction false} RunThenBreak(run: seq<string>, x: string, post: seq<string>, cur: seq<string>)
    requires forall j :: 0 <= j < |cur| ==> Qualifies(cur[j])
    requires IsRun(run)
    requires IsBreakLine(x)
    ensures Groups(run + [x] + post, cur) == Close(cur + run) + Groups(post, [])
    decreases |run|
  {
    if run == [] {
      BreakFirst(x, post, cur);
      assert cur + run == cur && run + [x] + post == [x] + post;
    } else {
      QualifiesSnoc(cur, run[0]);
      RunThenBreak(run[1..], x, post, cur + [run[0]]);
      ShiftFirst(cur, run);
      RunFirst(run, [x] + post, cur);
      AppendAssoc(run, [x], post);
      AppendAssoc(run[1..], [x], post);
    }
  }

  lemma BreakFirst(x: string, post: seq<string>, cur: seq<string>)
    requires forall j :: 0 <= j < |cur| ==> Qualifies(cur[j])
    requires IsBreakLine(x)
    ensures Groups([x] + post, cur) == Close(cur) + Groups(post, [])
  {
    BreakStep([x] + post, cur);
    assert ([x] + post)[1..] == post;
  }

  lemma RunFirst(run: seq<string>, post: seq<string>, cur: seq<string>)
    requires forall j :: 0 <= j < |cur| ==> Qualifies(cur[j])
    requires run != [] && IsRunLine(run[0])
    ensures Groups(run + post, cur) == Groups(run[1..] + post, cur + [run[0]])
  {
    RunStep(run + post, cur);
    assert (run + post)[0] == run[0] && (run + post)[1..] == run[1..] + post;
  }

  lemma RunStep(lines: seq<string>, cur: seq<string>)
    requires forall j :: 0 <= j < |cur| ==> Qualifies(cur[j])
    requires lines != [] && IsRunLine(lines[0])
    ensures Groups(lines, cur) == Groups(lines[1..], cur + [lines[0]])
  {
  }

  lemma BreakStep(lines: seq<string>, cur: seq<string>)
    requires forall j :: 0 <= j < |cur| ==> Qualifies(cur[j])
    requires lines != [] && IsBreakLine(lines[0])
    ensures Groups(lines, cur) == Close(cur) + Groups(lines[1..], [])
  {
  }

  /** A run of paragraph lines (none a header or footer line) that reaches the end of the input closes one group. */
  lemma {:induction false} RunThenEnd(run: seq<string>, cur: seq<string>)
    requires forall j :: 0 <= j < |cur| ==> Qualifies(cur[j])
    requires IsRun(run)
    ensures Groups(run, cur) == Close(cur + run)
    decreases |run|
  {
    if run == [] {
      assert cur + run == cur;
    } else {
      QualifiesSnoc(cur, run[0]);
      RunThenEnd(run[1..], cur + [run[0]]);
      ShiftFirst(cur, run);
    }
  }

  /** A header line anywhere in the input changes nothing: it neither ends the pending run nor the walk. */
  lemma {:induction false} SkipLineTransparent(pre: seq<string>, x: string, post: seq<string>, cur: seq<string>)
    requires IsSkipLine(x)
    requires forall j :: 0 <= j < |cur| ==> Qualifies(cur[j])
    ensures Groups(pre + [x] + post, cur) == Groups(pre + post, cur)
    decreases |pre|
  {
    if pre == [] {
      assert pre + [x] + post == [x] + post && ([x] + post)[1..] == post;
      assert pre + post == post;
    } else {
      var s, t := pre + [x] + post, pre + post;
      assert s[0] == t[0] == pre[0];
      assert s[1..] == pre[1..] + [x] + post;
      assert t[1..] == pre[1..] + post;
      if IsSkipLine(pre[0]) {
        SkipLineTransparent(pre[1..], x, post, cur);
      } else if IsFooterLine(pre[0]) {
      } else if Qualifies(pre[0]) {
        SkipLineTransparent(pre[1..], x, post, cur + [pre[0]]);
      } else {
        SkipLineTransparent(pre[1..], x, post, []);
      }
    }
  }

  /** The first footer line ends the walk: nothing after it matters, and the pending run is still closed. */
  lemma {:induction false} FooterEndsWalk(pre: seq<string>, x: string, post: seq<string>, cur: seq<string>)
    requires IsFooterLine(x) && !IsSkipLine(x)
    requires forall j :: 0 <= j < |cur| ==> Qualifies(cur[j])
    ensures Groups(pre + [x] + post, cur) == Groups(pre + [x], cur)
    ensures pre == [] ==> Groups([x] + post, cur) == Close(cur)
    decreases |pre|
  {
    if pre == [] {
      assert pre + [x] + post == [x] + post && pre + [x] == [x];
    } else {
      var s, t := pre + [x] + post, pre + [x];
      assert s[0] == t[0] == pre[0];
      assert s[1..] == pre[1..] + [x] + post;
      assert t[1..] == pre[1..] + [x];
      if IsSkipLine(pre[0]) {
        FooterEndsWalk(pre[1..], x, post, cur);
      } else if IsFooterLine(pre[0]) {
      } else if Qualifies(pre[0]) {
        FooterEndsWalk(pre[1..], x, post, cur + [pre[0]]);
      } else {
        FooterEndsWalk(pre[1..], x, post, []);
      }
    }
  }

  /** A footer address on the site's own domain is a header line first, so it does not end the walk. */
  lemma WebmasterOnSiteSkipped(post: seq<string>, cur: seq<string>)
    requires forall j :: 0 <= j < |cur| ==> Qualifies(cur[j])
    ensures IsFooterLine(Webmaster) && IsSkipLine(Webmaster)
    ensures Groups([Webmaster] + post, cur) == Groups(post, cur)
  {
    WebmasterClasses();
    SkipLineFirst(Webmaster, post, cur);
  }

  lemma SkipLineFirst(x: string, post: seq<string>, cur: seq<string>)
    requires forall j :: 0 <= j < |cur| ==> Qualifies(cur[j])
    requires IsSkipLine(x)
    ensures Groups([x] + post, cur) == Groups(post, cur)
  {
    assert ([x] + post)[1..] == post;
  }

  const Webmaster: string := "webmaster@sabda.org"

  lemma WebmasterClasses()
    ensures IsFooterLine(Webmaster) && IsSkipLine(Webmaster)
  {
    WebmasterLower();
    WebmasterOnSite();
    WebmasterAt();
  }

  lemma WebmasterLower()
    ensures Lower(Webmaster) == Webmaster
  {
    LowerFixed(Webmaster);
  }

  lemma WebmasterOnSite()
    ensures Contains(Webmaster, "sabda.org")
  {
    assert OccursAt(Webmaster, "sabda.org", 10);
    ContainsSpec(Webmaster, "sabda.org");
  }

  lemma WebmasterAt()
    ensures Contains(Webmaster, "webmaster@")
  {
    assert HasPrefix(Webmaster, "webmaster@");
  }

  /** Lower-casing leaves a string without capitals alone. */
  lemma LowerFixed(s: string)
    requires forall i :: 0 <= i < |s| ==> 'a' <= s[i] <= 'z' || s[i] in "@."
    ensures Lower(s) == s
  {
  }

  /** A join starts with its first part, so it is at least as long. */
  lemma JoinFirst(xs: seq<string>, sep: string)
    requires xs != []
    ensures |xs[0]| <= |Join(xs, sep)|
  {
  }

  /** The paragraphs of the walk from the start: each group joined with single spaces. */
  function GroupLines(lines: seq<string>): (ps: seq<string>)
    ensures forall k :: 0 <= k < |ps| ==> |ps[k]| > 20
  {
    var gs := Groups(lines, []);
    var ps := JoinEach(gs);
    forall k | 0 <= k < |ps| ensures |ps[k]| > 20 {
      JoinFirst(gs[k], " ");
    }
    ps
  }
}
