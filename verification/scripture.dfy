/**
 * Scripture-reference patterns, written out by hand instead of with a
 * regular-expression engine.
 *
 * Every pattern of the sources has the core
 *   `[A-Za-z]+ \s+ \d+` then an optional or required `:\d+`, then an optional `-\d+`,
 * and differs only in the whitespace class, whether a verse is required,
 * and what must hold where the match ends (a word boundary, nothing, or a
 * character other than a newline). `Ends` lists every position where the
 * core can end from a start, in the order a leftmost-first engine tries
 * them (longest first); each search then takes the first start and the
 * first end that its pattern accepts.
 */
module Scripture {
  import opened Wrappers
  import opened Text

  /** A character class of the patterns. */
  datatype Class = Letter | Digit | ReWs | PyWs

  predicate InClass(cls: Class, c: char) {
    match cls
    case Letter => IsAsciiLetter(c)
    case Digit => IsAsciiDigit(c)
    case ReWs => IsReSpace(c)
    case PyWs => IsPySpace(c)
  }


  /** Whitespace of either flavour is neither a letter nor a digit. */
  lemma WsNotLetterOrDigit(ws: Class, c: char)
    requires ws == ReWs || ws == PyWs
    requires InClass(ws, c)
    ensures !InClass(Letter, c) && !InClass(Digit, c)
  {
  }

  /** Every character of `s[lo..hi]` is in `cls`. */
  predicate AllIn(s: string, lo: int, hi: int, cls: Class) {
    0 <= lo <= hi <= |s| && forall t :: lo <= t < hi ==> InClass(cls, s[t])
  }

  /** End of the run of `cls` characters starting at `i`. */
  function RunEnd(s: string, i: nat, cls: Class): (j: nat)
    requires i <= |s|
    ensures i <= j <= |s|
    ensures AllIn(s, i, j, cls)
    ensures j < |s| ==> !InClass(cls, s[j])
    decreases |s| - i
  {
    if i < |s| && InClass(cls, s[i]) then RunEnd(s, i + 1, cls) else i
  }

  /** A run is never longer than the maximal one. */
  lemma RunEndMax(s: string, i: nat, j: int, cls: Class)
    requires i <= |s|
    requires AllIn(s, i, j, cls)
    ensures j <= RunEnd(s, i, cls)
  {
  }

  /** A run that stops before a character outside the class is the maximal one. */
  lemma RunEndExact(s: string, i: nat, j: int, cls: Class)
    requires i <= |s|
    requires AllIn(s, i, j, cls)
    requires j == |s| || !InClass(cls, s[j])
    ensures RunEnd(s, i, cls) == j
  {
    RunEndMax(s, i, j, cls);
  }

  /** The positions `hi, hi - 1, ..., lo`. */
  function Desc(hi: int, lo: int): (r: seq<nat>)
    requires 0 <= lo
    ensures |r| == if hi < lo then 0 else hi - lo + 1
    ensures forall p :: 0 <= p < |r| ==> r[p] == hi - p
    ensures forall k :: k in r ==> lo <= k <= hi
    decreases hi - lo
  {
    if hi < lo then [] else [hi as nat] + Desc(hi - 1, lo)
  }

  lemma InDesc(hi: int, lo: int)
    requires 0 <= lo
    ensures forall k :: k in Desc(hi, lo) <==> lo <= k <= hi
    ensures Descending(Desc(hi, lo))
  {
    var r := Desc(hi, lo);
    forall k | lo <= k <= hi ensures k in r {
      assert r[hi - k] == k;
    }
  }

  /**
   * The core matched at `s[i..k]`: letters, then whitespace, then digits,
   * then (as `verseRequired` demands) `:digits` with an optional `-digits`.
   */
  ghost predicate ShapeAt(s: string, i: int, k: int, verseRequired: bool, ws: Class) {
    exists a, b, c :: ShapeWith(s, i, a, b, c, k, verseRequired, ws)
  }

  /** The core at `s[i..k]` with letters `s[i..a]`, whitespace `s[a..b]` and chapter `s[b..c]`. */
  ghost predicate ShapeWith(s: string, i: int, a: int, b: int, c: int, k: int, verseRequired: bool, ws: Class) {
    && i < a < b < c <= k
    && AllIn(s, i, a, Letter) && AllIn(s, a, b, ws) && AllIn(s, b, c, Digit)
    && ((!verseRequired && c == k) || VerseAt(s, c, k))
  }

  /** `s[c..k]` is `:digits` or `:digits-digits`. */
  ghost predicate VerseAt(s: string, c: int, k: int) {
    exists d :: VerseWith(s, c, d, k)
  }

  /** `s[c..k]` is `:` then digits up to `d`, then nothing or `-digits`. */
  predicate VerseWith(s: string, c: int, d: int, k: int) {
    && 0 <= c < |s| && s[c] == ':' && c + 1 < d <= k && AllIn(s, c + 1, d, Digit)
    && (d == k || (d < |s| && s[d] == '-' && d + 1 < k && AllIn(s, d + 1, k, Digit)))
  }

  /** The letters-whitespace-digits head at `i`, with maximal runs: `(start of digits, end of digits)`. */
  function Head(s: string, i: nat, ws: Class): (r: Option<(nat, nat)>)
    requires i <= |s|
    ensures r.Some? ==> i < r.value.0 < r.value.1 <= |s|
  {
    var a := RunEnd(s, i, Letter);
    if a == i then None
    else
      var b := RunEnd(s, a, ws);
      if b == a then None
      else
        var c := RunEnd(s, b, Digit);
        if c == b then None else Some((b, c))
  }

  /** Ends of an optional `-digits` that starts at `d`, longest first. */
  function RangeEnds(s: string, d: nat): (r: seq<nat>)
    requires d <= |s|
    ensures forall k :: k in r ==> d < k <= |s| && IsAsciiDigit(s[k - 1])
  {
    if d < |s| && s[d] == '-' then Desc(RunEnd(s, d + 1, Digit), d + 2) else []
  }

  /** Ends of a `:digits(-digits)?` that starts at `c`, longest first. */
  function VerseEnds(s: string, c: nat): (r: seq<nat>)
    requires c <= |s|
    ensures forall k :: k in r ==> c < k <= |s| && IsAsciiDigit(s[k - 1])
  {
    if c < |s| && s[c] == ':' && RunEnd(s, c + 1, Digit) > c + 1 then
      var d := RunEnd(s, c + 1, Digit);
      RangeEnds(s, d) + Desc(d, c + 2)
    else []
  }

  /**
   * Every end of the core from `i`, in the order a backtracking engine
   * tries them: the longest verse range first, then shorter ones, then
   * verse-only ends, then (when the verse is optional) chapter-only ends.
   */
  function Ends(s: string, i: nat, verseRequired: bool, ws: Class): (r: seq<nat>)
    requires i <= |s|
    ensures forall k :: k in r ==> i < k <= |s| && IsAsciiDigit(s[k - 1])
    ensures r != [] ==> i < |s| && IsAsciiLetter(s[i])
  {
    match Head(s, i, ws)
    case None => []
    case Some((b, c)) => VerseEnds(s, c) + (if verseRequired then [] else Desc(c, b + 1))
  }

  predicate Descending(r: seq<nat>) {
    forall p, q :: 0 <= p < q < |r| ==> r[p] > r[q]
  }

  lemma DescendingAppend(x: seq<nat>, y: seq<nat>)
    requires Descending(x) && Descending(y)
    requires forall t :: t in x ==> forall u :: u in y ==> t > u
    ensures Descending(x + y)
  {
    forall p, q | 0 <= p < q < |x + y| ensures (x + y)[p] > (x + y)[q] {
      if p < |x| && q >= |x| {
        assert x[p] in x && y[q - |x|] in y;
      }
    }
  }

  /** `VerseEnds` holds exactly the ends of a verse part, in descending order. */
  lemma VerseEndsExact(s: string, c: nat, k: int)
    requires c <= |s|
    ensures k in VerseEnds(s, c) <==> VerseAt(s, c, k)
    ensures Descending(VerseEnds(s, c))
    ensures forall t :: t in VerseEnds(s, c) ==> c + 2 <= t <= |s|
  {
    VerseEndsOrdered(s, c);
    if k in VerseEnds(s, c) {
      VerseEndsSound(s, c, k);
    }
    if VerseAt(s, c, k) {
      VerseEndsComplete(s, c, k);
    }
  }

  lemma VerseEndsOrdered(s: string, c: nat)
    requires c <= |s|
    ensures Descending(VerseEnds(s, c))
    ensures forall t :: t in VerseEnds(s, c) ==> c + 2 <= t <= |s|
  {
    if c < |s| && s[c] == ':' && RunEnd(s, c + 1, Digit) > c + 1 {
      var d := RunEnd(s, c + 1, Digit);
      InDesc(d, c + 2);
      if d < |s| && s[d] == '-' {
        InDesc(RunEnd(s, d + 1, Digit), d + 2);
      }
      DescendingAppend(RangeEnds(s, d), Desc(d, c + 2));
    }
  }

  lemma VerseEndsSound(s: string, c: nat, k: int)
    requires c <= |s| && k in VerseEnds(s, c)
    ensures VerseAt(s, c, k)
  {
    var d := RunEnd(s, c + 1, Digit);
    assert VerseEnds(s, c) == RangeEnds(s, d) + Desc(d, c + 2);
    InDesc(d, c + 2);
    if k in RangeEnds(s, d) {
      InDesc(RunEnd(s, d + 1, Digit), d + 2);
      assert VerseWith(s, c, d, k);
    } else {
      assert AllIn(s, c + 1, k, Digit);
      assert VerseWith(s, c, k, k);
    }
  }

  lemma VerseEndsComplete(s: string, c: nat, k: int)
    requires c <= |s| && VerseAt(s, c, k)
    ensures k in VerseEnds(s, c)
  {
    var d' :| VerseWith(s, c, d', k);
    var d := RunEnd(s, c + 1, Digit);
    RunEndMax(s, c + 1, d', Digit);
    assert VerseEnds(s, c) == RangeEnds(s, d) + Desc(d, c + 2);
    if d' < k {
      RangeComplete(s, c, d', k);
    } else {
      InDesc(d, c + 2);
      assert k in Desc(d, c + 2);
    }
  }

  /** A verse with a range part ends where the range ends. */
  lemma RangeComplete(s: string, c: nat, d': int, k: int)
    requires c <= |s| && VerseWith(s, c, d', k) && d' < k
    ensures k in RangeEnds(s, RunEnd(s, c + 1, Digit))
  {
    assert !InClass(Digit, s[d']);
    RunEndExact(s, c + 1, d', Digit);
    var d := RunEnd(s, c + 1, Digit);
    assert d == d' && s[d] == '-';
    RunEndMax(s, d + 1, k, Digit);
    InDesc(RunEnd(s, d + 1, Digit), d + 2);
  }



  /** `Ends` holds exactly the positions where the core can end, longest first. */
  lemma EndsExact(s: string, i: nat, verseRequired: bool, ws: Class)
    requires i <= |s|
    requires ws == ReWs || ws == PyWs
    ensures forall k :: k in Ends(s, i, verseRequired, ws) <==> ShapeAt(s, i, k, verseRequired, ws)
    ensures Descending(Ends(s, i, verseRequired, ws))
  {
    forall k ensures k in Ends(s, i, verseRequired, ws) <==> ShapeAt(s, i, k, verseRequired, ws) {
      ShapeCases(s, i, verseRequired, ws, k);
    }
    EndsDescending(s, i, verseRequired, ws);
  }

  lemma EndsSplit(s: string, i: nat, verseRequired: bool, ws: Class)
    requires i <= |s| && Head(s, i, ws).Some?
    ensures var (b, c) := Head(s, i, ws).value;
      Ends(s, i, verseRequired, ws) == VerseEnds(s, c) + (if verseRequired then [] else Desc(c, b + 1))
  {
  }

  lemma EndsDescending(s: string, i: nat, verseRequired: bool, ws: Class)
    requires i <= |s|
    ensures Descending(Ends(s, i, verseRequired, ws))
  {
    if Head(s, i, ws).Some? {
      HeadEndsDescending(s, i, verseRequired, ws);
    } else {
      NoHeadNoEnds(s, i, verseRequired, ws);
    }
  }

  lemma NoHeadNoEnds(s: string, i: nat, verseRequired: bool, ws: Class)
    requires i <= |s| && Head(s, i, ws).None?
    ensures Ends(s, i, verseRequired, ws) == []
  {
  }

  lemma HeadEndsDescending(s: string, i: nat, verseRequired: bool, ws: Class)
    requires i <= |s| && Head(s, i, ws).Some?
    ensures Descending(Ends(s, i, verseRequired, ws))
  {
    var (b, c) := Head(s, i, ws).value;
    var v := VerseEnds(s, c) + (if verseRequired then [] else Desc(c, b + 1));
    EndsSplit(s, i, verseRequired, ws);
    VerseThenChapter(s, b, c, verseRequired);
    DescendingSame(v, Ends(s, i, verseRequired, ws));
  }


  lemma DescendingSame(x: seq<nat>, y: seq<nat>)
    requires x == y && Descending(x)
    ensures Descending(y)
  {
  }


  /** The verse ends from `c`, then (when allowed) the chapter-only ends, are in descending order. */
  lemma VerseThenChapter(s: string, b: nat, c: nat, verseRequired: bool)
    requires b < c <= |s|
    ensures Descending(VerseEnds(s, c) + (if verseRequired then [] else Desc(c, b + 1)))
  {
    var tail: seq<nat> := if verseRequired then [] else Desc(c, b + 1);
    VerseEndsOrdered(s, c);
    InDesc(c, b + 1);
    assert forall u :: u in tail ==> u <= c;
    DescendingAppend(VerseEnds(s, c), tail);
  }


  /** One end at a time: `k` is listed exactly when the core can end there. */
  lemma ShapeCases(s: string, i: nat, verseRequired: bool, ws: Class, k: int)
    requires i <= |s|
    requires ws == ReWs || ws == PyWs
    ensures k in Ends(s, i, verseRequired, ws) <==> ShapeAt(s, i, k, verseRequired, ws)
  {
    if k in Ends(s, i, verseRequired, ws) {
      EndsSound(s, i, verseRequired, ws, k);
    }
    if ShapeAt(s, i, k, verseRequired, ws) {
      var a, b, c :| ShapeWith(s, i, a, b, c, k, verseRequired, ws);
      EndsComplete(s, i, a, b, c, k, verseRequired, ws);
    }
  }

  lemma EndsSound(s: string, i: nat, verseRequired: bool, ws: Class, k: int)
    requires i <= |s|
    requires k in Ends(s, i, verseRequired, ws)
    ensures ShapeAt(s, i, k, verseRequired, ws)
  {
    var a := RunEnd(s, i, Letter);
    var b := RunEnd(s, a, ws);
    var c := RunEnd(s, b, Digit);
    VerseEndsExact(s, c, k);
    InDesc(c, b + 1);
    if k in VerseEnds(s, c) {
      assert ShapeWith(s, i, a, b, c, k, verseRequired, ws);
    } else {
      assert ShapeWith(s, i, a, b, k, k, verseRequired, ws);
    }
  }

  lemma EndsComplete(s: string, i: nat, a: int, b: int, c: int, k: int, verseRequired: bool, ws: Class)
    requires i <= |s|
    requires ws == ReWs || ws == PyWs
    requires ShapeWith(s, i, a, b, c, k, verseRequired, ws)
    ensures k in Ends(s, i, verseRequired, ws)
  {
    WsNotLetterOrDigit(ws, s[a]);
    RunEndExact(s, i, a, Letter);
    RunEndExact(s, a, b, ws);
    RunEndMax(s, b, c, Digit);
    var cm := RunEnd(s, b, Digit);
    assert Head(s, i, ws) == Some((b, cm));
    if !verseRequired && c == k {
      InDesc(cm, b + 1);
    } else {
      RunEndExact(s, b, c, Digit);
      VerseEndsExact(s, c, k);
    }
  }

  /** RE2's `\b`: a word character on exactly one side of position `k`. */
  predicate Boundary(s: string, k: int) {
    0 <= k <= |s| && ((k > 0 && IsWordChar(s[k - 1])) != (k < |s| && IsWordChar(s[k])))
  }

  /** What a pattern demands around the core. */
  datatype Accept =
    | AtBoundaries      // `\b(...)\b`
    | AnyEnd            // nothing, or a trailing `(.*)` that always matches
    | LineContinues     // a trailing `(.+?)(?=\n|$)`: one more character, not a newline

  predicate StartOk(acc: Accept, s: string, i: int) {
    acc == AtBoundaries ==> Boundary(s, i)
  }

  predicate EndOk(acc: Accept, s: string, k: int) {
    match acc
    case AtBoundaries => Boundary(s, k)
    case AnyEnd => true
    case LineContinues => 0 <= k < |s| && s[k] != '\n'
  }

  /** The pattern matches `s` with its core at `s[i..k]`. */
  ghost predicate MatchSpec(s: string, i: int, k: int, verseRequired: bool, ws: Class, acc: Accept) {
    StartOk(acc, s, i) && ShapeAt(s, i, k, verseRequired, ws) && EndOk(acc, s, k)
  }

  /** The first position of `ends` that the pattern accepts. */
  function FirstAccepted(s: string, ends: seq<nat>, acc: Accept): (r: Option<nat>)
    ensures r.Some? ==> r.value in ends && EndOk(acc, s, r.value)
    ensures r.None? ==> forall k :: k in ends ==> !EndOk(acc, s, k)
    ensures Descending(ends) && r.Some? ==> forall k :: k in ends && EndOk(acc, s, k) ==> k <= r.value
  {
    if ends == [] then None
    else if EndOk(acc, s, ends[0]) then Some(ends[0])
    else
      var r := FirstAccepted(s, ends[1..], acc);
      assert forall k :: k in ends[1..] ==> k in ends;
      assert Descending(ends) ==> Descending(ends[1..]) by {
        if Descending(ends) {
          assert forall p, q :: 0 <= p < q < |ends[1..]| ==> ends[1..][p] == ends[p + 1] && ends[1..][q] == ends[q + 1];
        }
      }
      r
  }

  /** Where the core ends in the match at `i`: the longest accepted end, if any. */
  function MatchAt(s: string, i: nat, verseRequired: bool, ws: Class, acc: Accept): (r: Option<nat>)
    requires i <= |s|
    ensures r.Some? ==> i < r.value <= |s|
    ensures r.Some? ==> IsAsciiLetter(s[i]) && IsAsciiDigit(s[r.value - 1])
  {
    if !StartOk(acc, s, i) then None else FirstAccepted(s, Ends(s, i, verseRequired, ws), acc)
  }

  /** `MatchAt` finds the longest match at `i`, and finds one exactly when there is one. */
  lemma MatchAtSpec(s: string, i: nat, verseRequired: bool, ws: Class, acc: Accept)
    requires i <= |s|
    requires ws == ReWs || ws == PyWs
    ensures var m := MatchAt(s, i, verseRequired, ws, acc);
      && (m.Some? ==> i < m.value <= |s| && MatchSpec(s, i, m.value, verseRequired, ws, acc)
                      && forall k :: MatchSpec(s, i, k, verseRequired, ws, acc) ==> k <= m.value)
      && (m.None? ==> forall k :: !MatchSpec(s, i, k, verseRequired, ws, acc))
  {
    EndsExact(s, i, verseRequired, ws);
  }

  /** The first `Some` of `ms` at or after `from`, with its index. */
  function First(ms: seq<Option<nat>>, from: nat): (r: Option<(nat, nat)>)
    requires from <= |ms|
    ensures r.Some? ==> from <= r.value.0 < |ms| && ms[r.value.0] == Some(r.value.1)
    ensures r.Some? ==> forall i :: from <= i < r.value.0 ==> ms[i].None?
    ensures r.None? ==> forall i :: from <= i < |ms| ==> ms[i].None?
    decreases |ms| - from
  {
    if from == |ms| then None
    else if ms[from].Some? then Some((from, ms[from].value))
    else First(ms, from + 1)
  }

  /** The match, if any, at every start `0..|s|`. */
  function Matches(s: string, verseRequired: bool, ws: Class, acc: Accept): (ms: seq<Option<nat>>)
    ensures |ms| == |s| + 1
    ensures forall i :: 0 <= i <= |s| ==> ms[i] == MatchAt(s, i, verseRequired, ws, acc)
  {
    seq(|s| + 1, i requires 0 <= i <= |s| => MatchAt(s, i, verseRequired, ws, acc))
  }

  /** Leftmost-first search from `from`: the first start with a match, and its core end. */
  function FindFrom(s: string, from: nat, verseRequired: bool, ws: Class, acc: Accept): (r: Option<(nat, nat)>)
    requires from <= |s|
    ensures r.Some? ==> from <= r.value.0 < r.value.1 <= |s|
    ensures r.Some? ==> MatchAt(s, r.value.0, verseRequired, ws, acc) == Some(r.value.1)
    ensures r.Some? ==> forall i :: from <= i < r.value.0 ==> MatchAt(s, i, verseRequired, ws, acc).None?
    ensures r.None? ==> forall i :: from <= i <= |s| ==> MatchAt(s, i, verseRequired, ws, acc).None?
  {
    First(Matches(s, verseRequired, ws, acc), from)
  }

  /** No match can start past the end of the text. */
  lemma NoMatchPastEnd(s: string, i: int, k: int, verseRequired: bool, ws: Class, acc: Accept)
    requires i >= |s|
    ensures !MatchSpec(s, i, k, verseRequired, ws, acc)
  {
  }

  /**
   * The search is leftmost-longest: it finds the first start where the
   * pattern matches and the longest core there, and finds nothing exactly
   * when the pattern matches nowhere.
   */
  lemma FindSpec(s: string, verseRequired: bool, ws: Class, acc: Accept)
    requires ws == ReWs || ws == PyWs
    ensures var r := FindFrom(s, 0, verseRequired, ws, acc);
      && (r.Some? ==> MatchSpec(s, r.value.0, r.value.1, verseRequired, ws, acc))
      && (r.Some? ==> forall k :: MatchSpec(s, r.value.0, k, verseRequired, ws, acc) ==> k <= r.value.1)
      && (r.Some? ==> forall i, k :: 0 <= i < r.value.0 ==> !MatchSpec(s, i, k, verseRequired, ws, acc))
      && (r.None? <==> forall i, k :: 0 <= i ==> !MatchSpec(s, i, k, verseRequired, ws, acc))
  {
    var r := FindFrom(s, 0, verseRequired, ws, acc);
    if r.Some? {
      MatchAtSpec(s, r.value.0, verseRequired, ws, acc);
      forall i, k | 0 <= i < r.value.0 ensures !MatchSpec(s, i, k, verseRequired, ws, acc) {
        MatchAtSpec(s, i, verseRequired, ws, acc);
      }
    } else {
      forall i, k | 0 <= i ensures !MatchSpec(s, i, k, verseRequired, ws, acc) {
        if i <= |s| {
          MatchAtSpec(s, i, verseRequired, ws, acc);
        } else {
          NoMatchPastEnd(s, i, k, verseRequired, ws, acc);
        }
      }
    }
  }

  // ---- The patterns of the sources ----

  /** The match of `\b([A-Za-z]+\s+\d+(?::\d+(?:-\d+)?)?)\b` in the `h1` text, or `""`. */
  function HeadingReference(h1: string): string {
    match FindFrom(h1, 0, false, ReWs, AtBoundaries)
    case Some((i, k)) => h1[i..k]
    case None => ""
  }

  /** The match of `\b([A-Za-z]+\s+\d+:\d+(?:-\d+)?)\b` in the cleaned text, or `""`. */
  function VerseReference(text: string): string {
    match FindFrom(text, 0, true, ReWs, AtBoundaries)
    case Some((i, k)) => text[i..k]
    case None => ""
  }

  /** A run of class characters stays one when the text is cut around it. */
  lemma AllInSlice(s: string, i: int, k: int, lo: int, hi: int, cls: Class)
    requires 0 <= i <= lo <= hi <= k <= |s|
    requires AllIn(s, lo, hi, cls)
    ensures AllIn(s[i..k], lo - i, hi - i, cls)
  {
    assert forall t :: lo - i <= t < hi - i ==> s[i..k][t] == s[t + i];
  }

  /** A core matched inside a text is, cut out, a core on its own. */
  lemma ShapeSlice(s: string, i: int, k: int, verseRequired: bool, ws: Class)
    requires 0 <= i && k <= |s|
    requires ShapeAt(s, i, k, verseRequired, ws)
    ensures var t := s[i..k]; ShapeAt(t, 0, |t|, verseRequired, ws)
  {
    var a, b, c :| ShapeWith(s, i, a, b, c, k, verseRequired, ws);
    var t := s[i..k];
    AllInSlice(s, i, k, i, a, Letter);
    AllInSlice(s, i, k, a, b, ws);
    AllInSlice(s, i, k, b, c, Digit);
    if VerseAt(s, c, k) {
      var d :| VerseWith(s, c, d, k);
      AllInSlice(s, i, k, c + 1, d, Digit);
      if d < k {
        AllInSlice(s, i, k, d + 1, k, Digit);
        assert t[d - i] == s[d];
      }
      assert t[c - i] == s[c];
      assert VerseWith(t, c - i, d - i, k - i);
    }
    assert ShapeWith(t, 0, a - i, b - i, c - i, k - i, verseRequired, ws);
  }

  /** A possible end of the core, cut out, is a core on its own, from a letter to a digit. */
  lemma EndShape(s: string, i: nat, k: nat, verseRequired: bool, ws: Class)
    requires i <= |s| && k in Ends(s, i, verseRequired, ws)
    ensures var r := s[i..k];
      && ShapeAt(r, 0, |r|, verseRequired, ws)
      && r != [] && IsAsciiLetter(r[0]) && IsAsciiDigit(r[|r| - 1])
  {
    EndsSound(s, i, verseRequired, ws, k);
    ShapeSlice(s, i, k, verseRequired, ws);
    EndLetterDigit(s, i, k, verseRequired, ws);
  }

  lemma EndLetterDigit(s: string, i: nat, k: nat, verseRequired: bool, ws: Class)
    requires i <= |s| && k in Ends(s, i, verseRequired, ws)
    ensures var r := s[i..k]; r != [] && IsAsciiLetter(r[0]) && IsAsciiDigit(r[|r| - 1])
  {
    assert |Ends(s, i, verseRequired, ws)| > 0;
    var r := s[i..k];
    assert r[0] == s[i] && r[|r| - 1] == s[k - 1];
  }

  /** A match, cut out, is a core on its own, from a letter to a digit. */
  lemma MatchShape(s: string, i: nat, k: nat, verseRequired: bool, ws: Class, acc: Accept)
    requires i <= |s| && MatchAt(s, i, verseRequired, ws, acc) == Some(k)
    ensures var r := s[i..k];
      && ShapeAt(r, 0, |r|, verseRequired, ws)
      && r != [] && IsAsciiLetter(r[0]) && IsAsciiDigit(r[|r| - 1])
  {
    EndShape(s, i, k, verseRequired, ws);
  }

  /** What the search finds, cut out, is a core on its own. */
  lemma {:induction false} FoundShape(s: string, verseRequired: bool, ws: Class, acc: Accept)
    requires ws == ReWs || ws == PyWs
    ensures var m := FindFrom(s, 0, verseRequired, ws, acc);
      m.Some? ==>
        var r := s[m.value.0..m.value.1];
        && ShapeAt(r, 0, |r|, verseRequired, ws)
        && r != [] && IsAsciiLetter(r[0]) && IsAsciiDigit(r[|r| - 1])
  {
    var m := FindFrom(s, 0, verseRequired, ws, acc);
    if m.Some? {
      MatchShape(s, m.value.0, m.value.1, verseRequired, ws, acc);
    }
  }

  /**
   * A reference found in the heading is letters, whitespace and a chapter,
   * optionally with `:verse` or `:verse-verse`.
   */
  lemma {:induction false} HeadingReferenceShape(h1: string)
    ensures var r := HeadingReference(h1);
      r != "" ==> ShapeAt(r, 0, |r|, false, ReWs) && IsAsciiLetter(r[0]) && IsAsciiDigit(r[|r| - 1])
  {
    var m := FindFrom(h1, 0, false, ReWs, AtBoundaries);
    FoundShape(h1, false, ReWs, AtBoundaries);
    if m.Some? {
      assert HeadingReference(h1) == h1[m.value.0..m.value.1];
    } else {
      assert HeadingReference(h1) == "";
    }
  }

  /** A reference found in the cleaned text always has a verse: `book chapter:verse[-verse]`. */
  lemma {:induction false} VerseReferenceShape(text: string)
    ensures var r := VerseReference(text);
      r != "" ==> ShapeAt(r, 0, |r|, true, ReWs) && IsAsciiLetter(r[0]) && IsAsciiDigit(r[|r| - 1])
  {
    var m := FindFrom(text, 0, true, ReWs, AtBoundaries);
    FoundShape(text, true, ReWs, AtBoundaries);
    if m.Some? {
      assert VerseReference(text) == text[m.value.0..m.value.1];
    } else {
      assert VerseReference(text) == "";
    }
  }

  /** Index of the first newline at or after `k`, or `|s|`. */
  function LineEnd(s: string, k: nat): (e: nat)
    requires k <= |s|
    ensures k <= e <= |s|
    ensures '\n' !in s[k..e]
    ensures e < |s| ==> s[e] == '\n'
  {
    k + IndexOf(s[k..], '\n')
  }

  /**
   * The groups of `^([A-Za-z]+\s+\d+(?::\d+(?:-\d+)?)?)(.*)`: the reference
   * at the start of `t`, and the rest of its first line.
   */
  function LeadingReference(t: string): (r: Option<(string, string)>)
    ensures r.Some? ==> r.value.0 != [] && IsAsciiLetter(r.value.0[0])
    ensures r.Some? ==> IsAsciiDigit(r.value.0[|r.value.0| - 1])
  {
    match MatchAt(t, 0, false, ReWs, AnyEnd)
    case Some(k) => Some((t[..k], t[k..LineEnd(t, k)]))
    case None => None
  }

  /** Python's `re.search(r'([A-Za-z]+\s+\d+:\d+(?:-\d+)?)', text)` group 1, or `None`. */
  function PyReference(text: string): Option<string> {
    match FindFrom(text, 0, true, PyWs, AnyEnd)
    case Some((i, k)) => Some(text[i..k])
    case None => None
  }

  /**
   * Python's `re.search(r'([A-Za-z]+\s+\d+:\d+(?:-\d+)?)(.+?)(?=\n|$)', text)`:
   * groups 1 and 2, or `None`.
   */
  function PyTitleMatch(text: string): Option<(string, string)> {
    match FindFrom(text, 0, true, PyWs, LineContinues)
    case Some((i, k)) => Some((text[i..k], text[k..LineEnd(text, k)]))
    case None => None
  }
}
