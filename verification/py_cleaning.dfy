/**
 * The paragraph cleaning of `app/services/scraper.py`: five `re.sub`
 * removals under `re.DOTALL`, each of which deletes everything from the
 * leftmost match of a donation pattern to the end, then whitespace runs
 * collapsed to one space, the ends stripped, and a trailing period pulled
 * against the text; and the removal of bracketed segments from the title.
 * Each pattern is matched by hand: a pattern here is a list of
 * alternatives, each a chain `p0.*?p1.*? … .*` of literal strings.
 */
module PyCleaning {
  import opened Wrappers
  import opened Text

  // ---- Literal search ----

  /** The first position at or after `from` where `pat` occurs (`str.find`). */
  function Find(s: string, pat: string, from: nat): (r: Option<nat>)
    ensures r.Some? ==> from <= r.value && OccursAt(s, pat, r.value)
    ensures r.Some? ==> forall k :: from <= k < r.value ==> !OccursAt(s, pat, k)
    ensures r.None? ==> forall k :: from <= k ==> !OccursAt(s, pat, k)
    decreases |s| - from
  {
    if from + |pat| > |s| then None
    else if OccursAt(s, pat, from) then Some(from)
    else Find(s, pat, from + 1)
  }

  // ---- Chains and alternatives ----

  /**
   * The chain `pats[0].*?pats[1].*? … .*` matches with its first part at
   * `p`: each part occurs after the end of the one before it. Under DOTALL
   * `.` is any character, so nothing else is asked of the gaps.
   */
  ghost predicate ChainAt(s: string, pats: seq<string>, p: int)
    decreases |pats|
  {
    if pats == [] then 0 <= p <= |s|
    else OccursAt(s, pats[0], p) && exists q :: p + |pats[0]| <= q <= |s| && ChainAt(s, pats[1..], q)
  }

  /** The chain matches somewhere at or after `from`, found by taking each part at its first occurrence. */
  function ChainFrom(s: string, pats: seq<string>, from: nat): bool
    decreases |pats|
  {
    if pats == [] then from <= |s|
    else match Find(s, pats[0], from)
      case None => false
      case Some(i) => ChainFrom(s, pats[1..], i + |pats[0]|)
  }

  /** Taking first occurrences loses no match: the search succeeds exactly when some match starts at or after `from`. */
  lemma {:induction false} ChainFromSpec(s: string, pats: seq<string>, from: nat)
    ensures ChainFrom(s, pats, from) <==> exists p :: from <= p && ChainAt(s, pats, p)
    decreases |pats|
  {
    if pats == [] {
      if ChainFrom(s, pats, from) {
        assert ChainAt(s, pats, from);
      }
    } else {
      var a := pats[0];
      match Find(s, a, from)
      case None =>
        forall p | from <= p ensures !ChainAt(s, pats, p) {
          assert !OccursAt(s, a, p);
        }
      case Some(i) =>
        ChainFromSpec(s, pats[1..], i + |a|);
        if ChainFrom(s, pats, from) {
          var q :| i + |a| <= q <= |s| && ChainAt(s, pats[1..], q);
          assert ChainAt(s, pats, i);
        }
        forall p | from <= p && ChainAt(s, pats, p) ensures ChainFrom(s, pats, from) {
          assert ChainAt(s, pats, p);
          var q :| p + |a| <= q <= |s| && ChainAt(s, pats[1..], q);
          assert i <= p;
          assert i + |a| <= q && ChainAt(s, pats[1..], q);
          assert ChainFrom(s, pats[1..], i + |a|);
        }
    }
  }

  /** Where the leftmost match of a chain starts, if it matches at all. */
  function ChainStart(s: string, pats: seq<string>): (r: Option<nat>)
    ensures r.Some? ==> r.value <= |s|
  {
    if pats == [] then Some(0)
    else match Find(s, pats[0], 0)
    case None => None
    case Some(i) => if ChainFrom(s, pats[1..], i + |pats[0]|) then Some(i) else None
  }

  /** `ChainStart` is the leftmost match. */
  lemma ChainStartSpec(s: string, pats: seq<string>)
    ensures ChainStart(s, pats).Some? ==>
      ChainAt(s, pats, ChainStart(s, pats).value) &&
      forall q :: q < ChainStart(s, pats).value ==> !ChainAt(s, pats, q)
    ensures ChainStart(s, pats).None? ==> forall q :: !ChainAt(s, pats, q)
  {
    if pats != [] {
      match Find(s, pats[0], 0)
      case None =>
        NoFirstPart(s, pats);
      case Some(i) =>
        LeftOfFirstPart(s, pats, i);
        if ChainFrom(s, pats[1..], i + |pats[0]|) {
          FirstPartStarts(s, pats, i);
        } else {
          FirstPartFails(s, pats, i);
        }
    }
  }

  lemma NoFirstPart(s: string, pats: seq<string>)
    requires pats != [] && Find(s, pats[0], 0).None?
    ensures forall q :: !ChainAt(s, pats, q)
  {
    forall q ensures !ChainAt(s, pats, q) {
      if 0 <= q {
        assert !OccursAt(s, pats[0], q);
      }
    }
  }

  lemma LeftOfFirstPart(s: string, pats: seq<string>, i: nat)
    requires pats != [] && Find(s, pats[0], 0) == Some(i)
    ensures forall q :: q < i ==> !ChainAt(s, pats, q)
  {
    forall q | q < i ensures !ChainAt(s, pats, q) {
      if 0 <= q {
        assert !OccursAt(s, pats[0], q);
      }
    }
  }

  lemma FirstPartStarts(s: string, pats: seq<string>, i: nat)
    requires pats != [] && Find(s, pats[0], 0) == Some(i)
    requires ChainFrom(s, pats[1..], i + |pats[0]|)
    ensures ChainAt(s, pats, i)
  {
    ChainFromSpec(s, pats[1..], i + |pats[0]|);
    var q :| i + |pats[0]| <= q && ChainAt(s, pats[1..], q);
    ChainAtBound(s, pats[1..], q);
  }

  lemma FirstPartFails(s: string, pats: seq<string>, i: nat)
    requires pats != [] && Find(s, pats[0], 0) == Some(i)
    requires !ChainFrom(s, pats[1..], i + |pats[0]|)
    ensures forall p :: !ChainAt(s, pats, p)
  {
    forall p ensures !ChainAt(s, pats, p) {
      if ChainAt(s, pats, p) {
        var q := ChainRest(s, pats, p);
        assert i <= p;
        assert i + |pats[0]| <= q && ChainAt(s, pats[1..], q);
        ChainFromSpec(s, pats[1..], i + |pats[0]|);
        assert false;
      }
    }
  }

  /** Where the rest of a matching chain starts. */
  lemma ChainRest(s: string, pats: seq<string>, p: int) returns (q: int)
    requires pats != [] && ChainAt(s, pats, p)
    ensures OccursAt(s, pats[0], p)
    ensures p + |pats[0]| <= q <= |s| && ChainAt(s, pats[1..], q)
  {
    q :| p + |pats[0]| <= q <= |s| && ChainAt(s, pats[1..], q);
  }

  /** A chain only matches inside the text. */
  lemma ChainAtBound(s: string, pats: seq<string>, p: int)
    requires ChainAt(s, pats, p)
    ensures 0 <= p <= |s|
  {
    if pats != [] {
      assert OccursAt(s, pats[0], p);
    }
  }


  /** Some alternative matches at `p`. */
  ghost predicate MatchAt(s: string, alts: seq<seq<string>>, p: int) {
    exists k :: 0 <= k < |alts| && ChainAt(s, alts[k], p)
  }

  /** The earlier of two optional positions. */
  function Earlier(a: Option<nat>, b: Option<nat>): (r: Option<nat>)
    ensures r.None? <==> a.None? && b.None?
    ensures r.Some? ==> (r == a || r == b)
    ensures r.Some? && a.Some? ==> r.value <= a.value
    ensures r.Some? && b.Some? ==> r.value <= b.value
  {
    match a
    case None => b
    case Some(x) =>
      match b
      case None => a
      case Some(y) => if y < x then b else a
  }

  /** Where the leftmost match of any alternative starts. */
  function Leftmost(s: string, alts: seq<seq<string>>): (r: Option<nat>)
    ensures r.Some? ==> r.value <= |s|
  {
    if alts == [] then None else Earlier(ChainStart(s, alts[0]), Leftmost(s, alts[1..]))
  }

  /** `Leftmost` is the first position at which the pattern matches, and there is none when it is `None`. */
  lemma {:induction false} LeftmostSpec(s: string, alts: seq<seq<string>>)
    ensures Leftmost(s, alts).Some? ==>
      MatchAt(s, alts, Leftmost(s, alts).value) &&
      forall q :: q < Leftmost(s, alts).value ==> !MatchAt(s, alts, q)
    ensures Leftmost(s, alts).None? ==> forall q :: !MatchAt(s, alts, q)
  {
    if alts != [] {
      var tail := alts[1..];
      LeftmostSpec(s, tail);
      ChainStartSpec(s, alts[0]);
      var a, b := ChainStart(s, alts[0]), Leftmost(s, tail);
      var r := Leftmost(s, alts);
      forall q | MatchAt(s, alts, q)
        ensures ChainAt(s, alts[0], q) || MatchAt(s, tail, q)
      {
        var k :| 0 <= k < |alts| && ChainAt(s, alts[k], q);
        if k > 0 {
          assert tail[k - 1] == alts[k];
        }
      }
      if r.Some? {
        if r == a {
          assert ChainAt(s, alts[0], r.value);
        } else {
          var k :| 0 <= k < |tail| && ChainAt(s, tail[k], r.value);
          assert alts[k + 1] == tail[k];
        }
      }
    }
  }

  /**
   * `re.sub(pattern, '', s, flags=re.DOTALL)` for a pattern whose every
   * alternative ends in `.*`: the leftmost match runs to the end of the
   * text, so everything from its start on is removed.
   */
  function DropMatch(s: string, alts: seq<seq<string>>): (r: string)
    ensures |r| <= |s| && r == s[..|r|]
    ensures Leftmost(s, alts).None? ==> r == s
    ensures Leftmost(s, alts).Some? ==> |r| == Leftmost(s, alts).value
  {
    match Leftmost(s, alts)
    case None => s
    case Some(p) => s[..p]
  }

  // ---- The five removals ----

  const Pms: string := "[PMS]"
  const MariShort: string := "Mari memberkati"
  const MariFull: string := "Mari memberkati para hamba Tuhan"
  const Account: string := "BCA 106.30066.22"
  const Yay: string := "Yay Pancar Pijar Alkitab"
  const Edition: string := "melalui edisi Santapan Harian"
  const SendSupport: string := "Kirim dukungan Anda ke:"

  /** `\[PMS\].*?(?:Mari memberkati|BCA 106\.30066\.22|Yay Pancar Pijar Alkitab).*` */
  const PmsAppeal: seq<seq<string>> := [[Pms, MariShort], [Pms, Account], [Pms, Yay]]
  /** `Mari memberkati para hamba Tuhan.*?(?:BCA 106\.30066\.22|Yay Pancar Pijar Alkitab).*` */
  const BlessAppeal: seq<seq<string>> := [[MariFull, Account], [MariFull, Yay]]
  /** `melalui edisi Santapan Harian.*?BCA 106\.30066\.22.*?Yay Pancar Pijar Alkitab.*` */
  const EditionAppeal: seq<seq<string>> := [[Edition, Account, Yay]]
  /** `.*BCA 106\.30066\.22.*` */
  const AccountLine: seq<seq<string>> := [["", Account]]
  /** `Kirim dukungan Anda ke:.*` */
  const SupportAppeal: seq<seq<string>> := [[SendSupport]]

  /** The five removals, in the order the scraper applies them. */
  function DropDonations(s: string): (r: string)
    ensures |r| <= |s| && r == s[..|r|]
  {
    var t1 := DropMatch(s, PmsAppeal);
    var t2 := DropMatch(t1, BlessAppeal);
    var t3 := DropMatch(t2, EditionAppeal);
    var t4 := DropMatch(t3, AccountLine);
    var t5 := DropMatch(t4, SupportAppeal);
    PrefixOfPrefix(s, t1, t2);
    PrefixOfPrefix(s, t2, t3);
    PrefixOfPrefix(s, t3, t4);
    PrefixOfPrefix(s, t4, t5);
    t5
  }

  lemma PrefixOfPrefix(s: string, t: string, u: string)
    requires |t| <= |s| && t == s[..|t|]
    requires |u| <= |t| && u == t[..|u|]
    ensures |u| <= |s| && u == s[..|u|]
  {
  }

  /** No occurrence of `pat` lies wholly before `i` in `s[..i]` when none starts before `i` in `s`. */
  lemma CutBeforeFirst(s: string, pat: string, i: nat)
    requires i <= |s|
    requires forall k :: 0 <= k < i ==> !OccursAt(s, pat, k)
    ensures pat != "" ==> !Contains(s[..i], pat)
  {
    ContainsSpec(s[..i], pat);
    forall k | OccursAt(s[..i], pat, k) ensures OccursAt(s, pat, k) && k <= i - |pat| {
      assert s[..i][k..k + |pat|] == s[k..k + |pat|];
    }
  }

  /** A string that lacks a pattern lacks it in every prefix too. */
  lemma PrefixLacks(s: string, n: nat, pat: string)
    requires n <= |s| && !Contains(s, pat)
    ensures !Contains(s[..n], pat)
  {
    ContainsSpec(s, pat);
    ContainsSpec(s[..n], pat);
    forall i | OccursAt(s[..n], pat, i) ensures OccursAt(s, pat, i) {
      assert s[..n][i..i + |pat|] == s[i..i + |pat|];
    }
  }

  /** A one-part pattern `pat.*` cuts at the first occurrence of `pat`. */
  lemma SingleCut(s: string, pat: string)
    ensures DropMatch(s, [[pat]]) == match Find(s, pat, 0) case Some(i) => s[..i] case None => s
  {
    assert [pat][1..] == [];
    assert [[pat]][1..] == [];
    match Find(s, pat, 0)
    case Some(i) =>
      assert ChainFrom(s, [pat][1..], i + |pat|);
      assert ChainStart(s, [pat]) == Some(i);
      assert Leftmost(s, [[pat]]) == Some(i);
    case None =>
      assert ChainStart(s, [pat]) == None;
      assert Leftmost(s, [[pat]]) == None;
  }

  /** `.*BCA 106\.30066\.22.*` empties any text that mentions the account, and leaves the rest alone. */
  lemma AccountRemoved(s: string)
    ensures Contains(s, Account) ==> DropMatch(s, AccountLine) == ""
    ensures !Contains(s, Account) ==> DropMatch(s, AccountLine) == s
    ensures !Contains(DropMatch(s, AccountLine), Account)
  {
    assert AccountLine[1..] == [] && AccountLine[0][1..] == [Account] && [Account][1..] == [];
    assert OccursAt(s, "", 0);
    assert Find(s, "", 0) == Some(0);
    ContainsSpec(s, Account);
    ContainsSpec("", Account);
    var found := ChainFrom(s, [Account], 0);
    match Find(s, Account, 0)
    case Some(i) =>
      assert ChainFrom(s, [Account][1..], i + |Account|);
      assert found;
    case None =>
      assert !found;
    assert ChainStart(s, ["", Account]) == if found then Some(0) else None;
    assert Leftmost(s, AccountLine) == ChainStart(s, ["", Account]);
  }

  /** `Kirim dukungan Anda ke:.*` leaves no copy of the appeal behind. */
  lemma AppealRemoved(s: string)
    ensures !Contains(DropMatch(s, SupportAppeal), SendSupport)
  {
    SingleCut(s, SendSupport);
    match Find(s, SendSupport, 0)
    case Some(i) => CutBeforeFirst(s, SendSupport, i);
    case None =>
      ContainsSpec(s, SendSupport);
  }

  /** After the five removals the text mentions neither the account number nor the support appeal. */
  lemma DonationsDropped(s: string)
    ensures !Contains(DropDonations(s), Account) && !Contains(DropDonations(s), SendSupport)
  {
    var t3 := DropMatch(DropMatch(DropMatch(s, PmsAppeal), BlessAppeal), EditionAppeal);
    var t4 := DropMatch(t3, AccountLine);
    var t5 := DropMatch(t4, SupportAppeal);
    AccountRemoved(t3);
    AppealRemoved(t4);
    PrefixLacks(t4, |t5|, Account);
  }

  // ---- Whitespace ----

  /** Every whitespace character is a plain space, and no two spaces are adjacent. */
  predicate SingleSpaced(s: string) {
    && (forall i :: 0 <= i < |s| ==> IsPySpace(s[i]) ==> s[i] == ' ')
    && (forall i :: 0 <= i < |s| - 1 ==> !(s[i] == ' ' && s[i + 1] == ' '))
  }

  lemma SingleSpacedCons(x: char, c: string)
    requires SingleSpaced(c) && (IsPySpace(x) ==> x == ' ')
    requires x == ' ' && c != [] ==> c[0] != ' '
    ensures SingleSpaced([x] + c)
  {
    var r := [x] + c;
    assert forall i :: 1 <= i < |r| ==> r[i] == c[i - 1];
  }

  /** `re.sub(r'\s+', ' ', s)`: every run of whitespace becomes one space. */
  function Collapse(s: string): (r: string)
    ensures r == [] <==> s == []
    ensures r != [] ==> (r[0] == ' ' <==> IsPySpace(s[0]))
    ensures SingleSpaced(r)
    decreases |s|
  {
    if s == [] then []
    else if IsPySpace(s[0]) then
      var c := Collapse(TrimLeft(s[1..], PySpace));
      SingleSpacedCons(' ', c);
      " " + c
    else
      var c := Collapse(s[1..]);
      SingleSpacedCons(s[0], c);
      [s[0]] + c
  }

  /** The characters of `s` that are not whitespace, in order. */
  function Ink(s: string): string {
    if s == [] then [] else (if IsPySpace(s[0]) then [] else [s[0]]) + Ink(s[1..])
  }

  lemma {:induction false} InkAppend(a: string, b: string)
    ensures Ink(a + b) == Ink(a) + Ink(b)
  {
    if a == [] {
      assert a + b == b;
    } else {
      assert (a + b)[0] == a[0] && (a + b)[1..] == a[1..] + b;
      InkAppend(a[1..], b);
    }
  }

  lemma {:induction false} InkOfSpaces(s: string)
    requires forall i :: 0 <= i < |s| ==> IsPySpace(s[i])
    ensures Ink(s) == []
  {
    if s != [] {
      InkOfSpaces(s[1..]);
    }
  }

  /** A string is its head followed by a tail of whitespace: its ink is the head's. */
  lemma InkSpaceTail(s: string, n: nat)
    requires n <= |s| && forall i :: n <= i < |s| ==> IsSpace(PySpace, s[i])
    ensures Ink(s) == Ink(s[..n])
  {
    var tail := s[n..];
    assert Ink(tail) == [] by {
      assert forall i :: 0 <= i < |tail| ==> tail[i] == s[n + i];
      InkOfSpaces(tail);
    }
    InkAppend(s[..n], tail);
    TakeDrop(s, n);
  }

  /** A string is a run of whitespace followed by the rest: its ink is the rest's. */
  lemma InkSpaceHead(s: string, n: nat)
    requires n <= |s| && forall i :: 0 <= i < n ==> IsSpace(PySpace, s[i])
    ensures Ink(s) == Ink(s[n..])
  {
    var head := s[..n];
    assert Ink(head) == [] by {
      assert forall i :: 0 <= i < |head| ==> head[i] == s[i];
      InkOfSpaces(head);
    }
    InkAppend(head, s[n..]);
    TakeDrop(s, n);
  }

  /** Trimming drops only whitespace. */
  lemma InkTrimLeft(s: string)
    ensures Ink(TrimLeft(s, PySpace)) == Ink(s)
  {
    InkSpaceHead(s, |s| - |TrimLeft(s, PySpace)|);
  }

  lemma InkTrimRight(s: string)
    ensures Ink(TrimRight(s, PySpace)) == Ink(s)
  {
    InkSpaceTail(s, |TrimRight(s, PySpace)|);
  }

  lemma InkTrim(s: string)
    ensures Ink(Trim(s, PySpace)) == Ink(s)
  {
    InkTrimLeft(s);
    InkTrimRight(TrimLeft(s, PySpace));
  }

  /** Collapsing changes only whitespace: the other characters stay, in order. */
  lemma {:induction false} CollapseKeepsInk(s: string)
    ensures Ink(Collapse(s)) == Ink(s)
    decreases |s|
  {
    if s != [] {
      if IsPySpace(s[0]) {
        var t := TrimLeft(s[1..], PySpace);
        CollapseKeepsInk(t);
        InkTrimLeft(s[1..]);
        InkAppend(" ", Collapse(t));
      } else {
        CollapseKeepsInk(s[1..]);
        InkAppend([s[0]], Collapse(s[1..]));
      }
    }
  }

  /** A single-spaced string is its own collapse, so collapsing twice collapses once. */
  lemma {:induction false} CollapseNoop(s: string)
    requires SingleSpaced(s)
    ensures Collapse(s) == s
    decreases |s|
  {
    if s != [] {
      assert SingleSpaced(s[1..]) by {
        assert forall i :: 0 <= i < |s| - 1 ==> s[1..][i] == s[i + 1];
      }
      if IsPySpace(s[0]) {
        assert s[1..] == [] || !IsPySpace(s[1..][0]);
      }
      CollapseNoop(s[1..]);
    }
  }

  lemma CollapseIdempotent(s: string)
    ensures Collapse(Collapse(s)) == Collapse(s)
  {
    CollapseNoop(Collapse(s));
  }

  /** Any slice of a single-spaced string is single-spaced. */
  lemma SingleSpacedSlice(s: string, a: nat, b: nat)
    requires SingleSpaced(s) && a <= b <= |s|
    ensures SingleSpaced(s[a..b])
  {
    var t := s[a..b];
    assert forall i :: 0 <= i < |t| ==> t[i] == s[a + i];
  }

  /** Stripping keeps a slice of the text. */
  lemma TrimSlice(s: string) returns (a: nat, b: nat)
    ensures a <= b <= |s| && Trim(s, PySpace) == s[a..b]
  {
    var l := TrimLeft(s, PySpace);
    var r := TrimRight(l, PySpace);
    a, b := |s| - |l|, |s| - |l| + |r|;
    assert Trim(s, PySpace) == r;
    assert l == s[a..];
    assert r == s[a..][..|r|];
    assert s[a..][..|r|] == s[a..b];
  }

  /**
   * `re.sub(r'\s*\.\s*$', '.', s)`: when the last character that is not
   * whitespace is a period, it and the whitespace around it become a
   * single period; otherwise nothing changes. (`$` also matches before a
   * final newline, which the trailing `\s*` absorbs either way.)
   */
  function FinalDot(s: string): (r: string)
  {
    var t := TrimRight(s, PySpace);
    if t != [] && t[|t| - 1] == '.' then TrimRight(t[..|t| - 1], PySpace) + "." else s
  }

  /** The period pass changes only whitespace, and leaves no whitespace before the final period. */
  lemma FinalDotSpec(s: string)
    ensures Ink(FinalDot(s)) == Ink(s)
    ensures var t := TrimRight(s, PySpace);
      t != [] && t[|t| - 1] == '.' ==> var r := FinalDot(s);
        r[|r| - 1] == '.' && (|r| == 1 || !IsPySpace(r[|r| - 2]))
  {
    var t := TrimRight(s, PySpace);
    InkTrimRight(s);
    if t != [] && t[|t| - 1] == '.' {
      FinalDotInk(s, t);
      FinalDotEnd(t[..|t| - 1]);
    }
  }

  lemma FinalDotInk(s: string, t: string)
    requires t == TrimRight(s, PySpace) && t != [] && t[|t| - 1] == '.'
    ensures Ink(FinalDot(s)) == Ink(s)
  {
    var v := t[..|t| - 1];
    var u := TrimRight(v, PySpace);
    assert FinalDot(s) == u + ".";
    InkTrimRight(s);
    InkTrimRight(v);
    assert t == v + ".";
    InkAppend(v, ".");
    InkAppend(u, ".");
    calc {
      Ink(u + ".");
      Ink(u) + Ink(".");
      Ink(v) + Ink(".");
      Ink(v + ".");
      Ink(s);
    }
  }

  lemma FinalDotEnd(v: string)
    ensures var r := TrimRight(v, PySpace) + ".";
      r[|r| - 1] == '.' && (|r| == 1 || !IsPySpace(r[|r| - 2]))
  {
    var u := TrimRight(v, PySpace);
    assert (u + ".")[|u|] == '.';
    if u != [] {
      assert (u + ".")[|u| - 1] == u[|u| - 1];
    }
  }


  /** A paragraph as the cleaning leaves it: stripped and single-spaced, with no space before a final period. */
  predicate Cleaned(c: string) {
    && c != [] && !IsPySpace(c[0]) && !IsPySpace(c[|c| - 1])
    && SingleSpaced(c)
    && (c[|c| - 1] == '.' && |c| > 1 ==> c[|c| - 2] != ' ')
  }

  /** The cleaning of one paragraph before the length test: removals, collapse, strip, period. */
  function Tidy(p: string): string {
    FinalDot(Trim(Collapse(DropDonations(p)), PySpace))
  }

  /** A collapsed, stripped, non-empty text comes out of the period pass cleaned. */
  lemma FinalDotCleaned(t: string)
    requires t != [] && SingleSpaced(t) && !IsPySpace(t[0]) && !IsPySpace(t[|t| - 1])
    ensures Cleaned(FinalDot(t))
  {
    assert TrimRight(t, PySpace) == t;
    if t[|t| - 1] == '.' {
      var v := t[..|t| - 1];
      var u := TrimRight(v, PySpace);
      SingleSpacedSlice(t, 0, |u|);
      assert t[..|u|] == u;
      var r := u + ".";
      assert forall i :: 0 <= i < |u| ==> r[i] == u[i];
      assert SingleSpaced(r) by {
        assert forall i :: 0 <= i < |r| - 1 ==> r[i] == u[i];
      }
      if u != [] {
        assert u[0] == t[0];
      }
    }
  }

  /** Every paragraph the cleaning keeps: stripped, single-spaced, no space before a final period, and no change but whitespace after the removals. */
  lemma TidySpec(p: string)
    ensures Ink(Tidy(p)) == Ink(DropDonations(p))
    ensures Tidy(p) != "" ==> Cleaned(Tidy(p))
  {
    var d := DropDonations(p);
    var c := Collapse(d);
    var t := Trim(c, PySpace);
    CollapseKeepsInk(d);
    InkTrim(c);
    FinalDotSpec(t);
    if t != [] {
      var a, b := TrimSlice(c);
      SingleSpacedSlice(c, a, b);
      FinalDotCleaned(t);
    } else {
      assert TrimRight(t, PySpace) == [];
    }
  }

  /**
   * One paragraph through the cleaning loop as written: the text after the
   * removals and the whitespace passes, kept only when it is more than ten
   * code points long.
   */
  function CleanParagraphAsWritten(p: string): (r: Option<string>)
    ensures r.Some? ==> |r.value| > 10 && Cleaned(r.value)
    ensures r.Some? ==> Ink(r.value) == Ink(DropDonations(p))
    ensures r.None? <==> |Tidy(p)| <= 10
  {
    var c := Tidy(p);
    TidySpec(p);
    if c != "" && |c| > 10 then Some(c) else None
  }

  /** A text that contains none of the patterns' first parts passes the removals unchanged. */
  lemma DropDonationsNoop(s: string)
    requires !Contains(s, Pms) && !Contains(s, MariFull) && !Contains(s, Edition)
    requires !Contains(s, Account) && !Contains(s, SendSupport)
    ensures DropDonations(s) == s
  {
    HeadAbsent(s, PmsAppeal[0], Pms);
    HeadAbsent(s, PmsAppeal[1], Pms);
    HeadAbsent(s, PmsAppeal[2], Pms);
    NoneMatch(s, PmsAppeal);
    HeadAbsent(s, BlessAppeal[0], MariFull);
    HeadAbsent(s, BlessAppeal[1], MariFull);
    NoneMatch(s, BlessAppeal);
    HeadAbsent(s, EditionAppeal[0], Edition);
    NoneMatch(s, EditionAppeal);
    AccountRemoved(s);
    SingleCut(s, SendSupport);
    AbsentNotFound(s, SendSupport);
  }

  lemma AbsentNotFound(s: string, pat: string)
    requires !Contains(s, pat)
    ensures Find(s, pat, 0) == None
  {
    ContainsSpec(s, pat);
  }

  /** A chain whose first part does not occur does not match. */
  lemma HeadAbsent(s: string, pats: seq<string>, head: string)
    requires pats != [] && pats[0] == head && !Contains(s, head)
    ensures ChainStart(s, pats) == None
  {
    AbsentNotFound(s, head);
  }

  lemma NoneMatch(s: string, alts: seq<seq<string>>)
    requires forall k :: 0 <= k < |alts| ==> ChainStart(s, alts[k]) == None
    ensures Leftmost(s, alts) == None
  {
  }

  /**
   * A paragraph that ends with the account number, written with another
   * whitespace character (a tab, a no-break space) in place of its space.
   */
  function SpacedAccount(pre: string, x: char): string {
    pre + SpacedNumber(x)
  }

  function SpacedNumber(x: char): string {
    Bca + ([x] + AccountDigits)
  }

  const Bca: string := "BCA"
  const AccountDigits: string := "106.30066.22"

  /** What the prefix may hold for the counterexample: no character that starts a removal pattern. */
  predicate PlainPrefix(pre: string) {
    && SingleSpaced(pre) && (pre == [] || !IsPySpace(pre[0]))
    && '[' !in pre && 'M' !in pre && 'm' !in pre && 'K' !in pre && 'B' !in pre
  }

  /**
   * The removals look for the account number with a plain space, and the
   * collapse that turns other whitespace into one comes after them: the
   * account number survives, now with a plain space.
   */
  lemma SpacedAccountSurvives(pre: string, x: char)
    requires IsPySpace(x) && x != ' ' && PlainPrefix(pre)
    ensures CleanParagraphAsWritten(SpacedAccount(pre, x)) == Some(pre + Account)
    ensures Contains(pre + Account, Account)
  {
    SpacedAccountPasses(pre, x);
    CollapseSpacedAccount(pre, x);
    AccountEnd(pre);
  }

  /** A text that ends with the account number is left alone by the strip and the period pass. */
  lemma AccountEnd(pre: string)
    requires pre == [] || !IsPySpace(pre[0])
    ensures var r := pre + Account;
      Trim(r, PySpace) == r && FinalDot(r) == r && |r| > 10 && Contains(r, Account)
  {
    var r := pre + Account;
    AccountEndTrimmed(pre, r);
    AccountInside(pre, r);
  }

  lemma AccountEndTrimmed(pre: string, r: string)
    requires pre == [] || !IsPySpace(pre[0])
    requires r == pre + Account
    ensures Trim(r, PySpace) == r && FinalDot(r) == r
  {
    assert r[0] == (if pre == [] then Account[0] else pre[0]);
    assert r[|r| - 1] == Account[|Account| - 1] == '2';
    assert TrimRight(r, PySpace) == r;
    TrimNoop(r, PySpace);
  }

  lemma AccountInside(pre: string, r: string)
    requires r == pre + Account
    ensures |r| > 10 && Contains(r, Account)
  {
    assert r[|pre|..|pre| + |Account|] == Account;
    assert OccursAt(r, Account, |pre|);
    ContainsSpec(r, Account);
  }


  lemma SpacedAccountPasses(pre: string, x: char)
    requires IsPySpace(x) && x != ' ' && PlainPrefix(pre)
    ensures DropDonations(SpacedAccount(pre, x)) == SpacedAccount(pre, x)
  {
    var s := SpacedAccount(pre, x);
    assert Pms[0] == '[' && MariFull[0] == 'M' && Edition[0] == 'm' && SendSupport[0] == 'K';
    SpacedLacks(pre, x, Pms);
    SpacedLacks(pre, x, MariFull);
    SpacedLacks(pre, x, Edition);
    SpacedLacks(pre, x, SendSupport);
    SpacedAccountDiffers(pre, x);
    DropDonationsNoop(s);
  }

  /** A pattern that starts with a character the spaced number lacks does not occur in it. */
  lemma SpacedLacks(pre: string, x: char, pat: string)
    requires IsPySpace(x) && PlainPrefix(pre)
    requires pat != [] && pat[0] in "[MmK"
    ensures !Contains(SpacedAccount(pre, x), pat)
  {
    var c := pat[0];
    assert c !in Bca && c !in AccountDigits && c !in pre && c != x;
    assert c !in SpacedAccount(pre, x);
    NotContainsWith(SpacedAccount(pre, x), pat);
  }

  lemma SpacedAccountDiffers(pre: string, x: char)
    requires IsPySpace(x) && x != ' ' && 'B' !in pre
    ensures !Contains(SpacedAccount(pre, x), Account)
  {
    var s := SpacedAccount(pre, x);
    var n := |pre|;
    ContainsSpec(s, Account);
    forall i | OccursAt(s, Account, i) ensures i == n {
      assert s[i] == s[i..i + |Account|][0] == 'B';
    }
    assert !OccursAt(s, Account, n) by {
      assert s[n + 3] == x && Account[3] == ' ';
      assert s[n..n + |Account|][3] == s[n + 3];
    }
  }

  /**
   * A single-spaced prefix is kept in front of the collapse of the rest,
   * as long as a final space in it is not followed by more whitespace.
   */
  lemma {:induction false} CollapsePrefix(p: string, t: string)
    requires SingleSpaced(p)
    requires p != [] && p[|p| - 1] == ' ' ==> t != [] && !IsPySpace(t[0])
    ensures Collapse(p + t) == p + Collapse(t)
  {
    if p != [] {
      var q := p[1..];
      SingleSpacedSlice(p, 1, |p|);
      if q != [] {
        assert q[|q| - 1] == p[|p| - 1];
      }
      CollapsePrefix(q, t);
      CollapsePrefixStep(p, t);
    } else {
      assert p + t == t;
    }
  }

  /** One step of `CollapsePrefix`: from the tail of the prefix to the whole. */
  lemma CollapsePrefixStep(p: string, t: string)
    requires SingleSpaced(p) && p != []
    requires p[|p| - 1] == ' ' ==> t != [] && !IsPySpace(t[0])
    requires Collapse(p[1..] + t) == p[1..] + Collapse(t)
    ensures Collapse(p + t) == p + Collapse(t)
  {
    ConsSplit(p, t, Collapse(t));
    if IsPySpace(p[0]) {
      SpaceStep(p, t);
      CollapseSpaceCons(p[1..] + t);
    } else {
      CollapseCons(p[0], p[1..] + t);
    }
  }

  lemma ConsSplit(p: string, t: string, c: string)
    requires p != []
    ensures p + t == [p[0]] + (p[1..] + t)
    ensures p + c == [p[0]] + (p[1..] + c)
  {
  }

  lemma SpaceStep(p: string, t: string)
    requires SingleSpaced(p) && p != [] && IsPySpace(p[0])
    requires p[|p| - 1] == ' ' ==> t != [] && !IsPySpace(t[0])
    ensures p[0] == ' '
    ensures var u := p[1..] + t; u == [] || !IsPySpace(u[0])
  {
    var u := p[1..] + t;
    if |p| > 1 {
      assert u[0] == p[1];
      assert !(p[0] == ' ' && p[1] == ' ');
    } else {
      assert u == t;
    }
  }


  lemma CollapseCons(x: char, u: string)
    requires !IsPySpace(x)
    ensures Collapse([x] + u) == [x] + Collapse(u)
  {
    assert ([x] + u)[1..] == u;
  }

  lemma CollapseSpaceCons(u: string)
    requires u == [] || !IsPySpace(u[0])
    ensures Collapse([' '] + u) == " " + Collapse(u)
  {
    assert ([' '] + u)[1..] == u;
    assert TrimLeft(u, PySpace) == u;
  }


  lemma CollapseSpacedAccount(pre: string, x: char)
    requires IsPySpace(x) && PlainPrefix(pre)
    ensures Collapse(SpacedAccount(pre, x)) == pre + Account
  {
    CollapseSpacedNumber(x);
    assert SpacedNumber(x)[0] == 'B';
    CollapsePrefix(pre, SpacedNumber(x));
  }

  lemma CollapseSpacedNumber(x: char)
    requires IsPySpace(x)
    ensures Collapse(SpacedNumber(x)) == Account
  {
    CollapseSpacedDigits(x);
    BcaPlain();
    CollapsePrefix(Bca, [x] + AccountDigits);
    AccountSplit();
  }

  lemma BcaPlain()
    ensures SingleSpaced(Bca) && forall i :: 0 <= i < |Bca| ==> !IsPySpace(Bca[i])
  {
  }

  lemma AccountSplit()
    ensures Bca + (" " + AccountDigits) == Account
  {
  }

  lemma CollapseSpacedDigits(x: char)
    requires IsPySpace(x)
    ensures Collapse([x] + AccountDigits) == " " + AccountDigits
  {
    var d := AccountDigits;
    DigitsCollapse();
    assert ([x] + d)[1..] == d;
    assert d[0] == '1';
    assert TrimLeft(d, PySpace) == d;
  }

  lemma DigitsCollapse()
    ensures Collapse(AccountDigits) == AccountDigits
  {
    var d := AccountDigits;
    assert forall i :: 0 <= i < |d| ==> d[i] in "0123456789.";
    assert SingleSpaced(d);
    CollapseNoop(d);
  }

  /** A text that lacks a pattern lacks it in every slice. */
  lemma SliceLacks(s: string, a: nat, b: nat, pat: string)
    requires a <= b <= |s| && !Contains(s, pat)
    ensures !Contains(s[a..b], pat)
  {
    ContainsSpec(s, pat);
    ContainsSpec(s[a..b], pat);
    forall i | OccursAt(s[a..b], pat, i) ensures OccursAt(s, pat, a + i) {
      var w := s[a..b][i..i + |pat|];
      assert forall j :: 0 <= j < |pat| ==> w[j] == s[a + i + j];
      assert w == s[a + i..a + i + |pat|];
    }
  }

  /** Appending a character a pattern does not end with cannot complete the pattern. */
  lemma SnocLacks(u: string, x: char, pat: string)
    requires !Contains(u, pat) && pat != [] && pat[|pat| - 1] != x
    ensures !Contains(u + [x], pat)
  {
    var v := u + [x];
    ContainsSpec(u, pat);
    ContainsSpec(v, pat);
    forall i | OccursAt(v, pat, i) ensures OccursAt(u, pat, i) {
      assert v[i..i + |pat|][|pat| - 1] == v[i + |pat| - 1];
      assert v[i..i + |pat|] == u[i..i + |pat|];
    }
  }

  /** The period pass adds no occurrence of a pattern that does not end with a period. */
  lemma FinalDotLacks(t: string, pat: string)
    requires !Contains(t, pat) && pat != [] && pat[|pat| - 1] != '.'
    ensures !Contains(FinalDot(t), pat)
  {
    var u := TrimRight(t, PySpace);
    if u != [] && u[|u| - 1] == '.' {
      var w := TrimRight(u[..|u| - 1], PySpace);
      assert w == t[0..|w|];
      SliceLacks(t, 0, |w|, pat);
      SnocLacks(w, '.', pat);
      assert w + "." == w + ['.'];
    }
  }

  /** The whitespace passes, applied to a single-spaced text, add no occurrence of `pat` to it. */
  lemma PassesLack(d: string, pat: string)
    requires SingleSpaced(d) && !Contains(d, pat) && pat != [] && pat[|pat| - 1] != '.'
    ensures !Contains(FinalDot(Trim(Collapse(d), PySpace)), pat)
  {
    CollapseNoop(d);
    var a, b := TrimSlice(d);
    SliceLacks(d, a, b, pat);
    FinalDotLacks(d[a..b], pat);
  }

  /**
   * The cleaning with whitespace collapsed before the removals as well, so
   * that they also see an account number or appeal written with other
   * whitespace.
   */
  function CleanParagraph(p: string): (r: Option<string>)
    ensures r.Some? ==> |r.value| > 10 && Cleaned(r.value)
    ensures r.Some? ==> !Contains(r.value, Account) && !Contains(r.value, SendSupport)
    ensures r.Some? ==> Ink(r.value) == Ink(DropDonations(Collapse(p)))
  {
    var c := Collapse(p);
    var d := DropDonations(c);
    SingleSpacedSlice(c, 0, |d|);
    assert c[0..|d|] == d;
    DonationsDropped(c);
    PassesLack(d, Account);
    PassesLack(d, SendSupport);
    CleanParagraphAsWritten(c)
  }

  /** On a paragraph that is already single-spaced the two cleanings agree. */
  lemma CleanParagraphAgrees(p: string)
    requires SingleSpaced(p)
    ensures CleanParagraph(p) == CleanParagraphAsWritten(p)
  {
    CollapseNoop(p);
  }

  // ---- Bracketed segments ----

  /** The position of the `]` that closes a bracket, searching from `k`; none when a newline or the end comes first. */
  function CloseBracket(s: string, k: nat): (r: Option<nat>)
    requires k <= |s|
    ensures r.Some? ==> k <= r.value < |s| && s[r.value] == ']'
    ensures r.Some? ==> forall j :: k <= j < r.value ==> s[j] != ']' && s[j] != '\n'
    ensures r.None? && '\n' !in s[k..] ==> ']' !in s[k..]
    decreases |s| - k
  {
    if k == |s| then None
    else if s[k] == ']' then Some(k)
    else if s[k] == '\n' then None
    else
      var r := CloseBracket(s, k + 1);
      assert s[k..] == [s[k]] + s[k + 1..];
      r
  }

  /**
   * `re.sub(r'\[.*?\]', '', s)`: from left to right, each `[` with a `]`
   * later on its line is removed together with everything up to the
   * first such `]`; a `[` without one is kept.
   */
  function RemoveBracketed(s: string): (r: string)
    ensures |r| <= |s|
    ensures forall i :: 0 <= i < |r| ==> r[i] in s
    decreases |s|
  {
    if s == [] then []
    else if s[0] == '[' && CloseBracket(s, 1).Some? then
      var rest := s[CloseBracket(s, 1).value + 1..];
      var r := RemoveBracketed(rest);
      assert forall i :: 0 <= i < |r| ==> r[i] in rest ==> r[i] in s;
      r
    else
      var r := RemoveBracketed(s[1..]);
      var r' := [s[0]] + r;
      assert forall i :: 1 <= i < |r'| ==> r'[i] == r[i - 1];
      r'
  }

  /** Text without brackets is left alone. */
  lemma {:induction false} RemoveBracketedNoop(s: string)
    requires '[' !in s
    ensures RemoveBracketed(s) == s
    decreases |s|
  {
    if s != [] {
      assert '[' !in s[1..];
      RemoveBracketedNoop(s[1..]);
    }
  }

  /** Text before the first `[` is kept as it is. */
  lemma {:induction false} RemoveBracketedKeepsPrefix(a: string, b: string)
    requires '[' !in a
    ensures RemoveBracketed(a + b) == a + RemoveBracketed(b)
    decreases |a|
  {
    if a != [] {
      var s := a + b;
      assert s[0] == a[0] && s[1..] == a[1..] + b;
      assert '[' !in a[1..];
      RemoveBracketedKeepsPrefix(a[1..], b);
      assert [a[0]] + (a[1..] + RemoveBracketed(b)) == a + RemoveBracketed(b);
    } else {
      assert a + b == b;
    }
  }

  /** A bracketed segment on one line is removed whole, `[` and `]` included. */
  lemma RemoveBracketedDropsSegment(x: string, b: string)
    requires ']' !in x && '\n' !in x
    ensures RemoveBracketed("[" + x + "]" + b) == RemoveBracketed(b)
  {
    var s := "[" + x + "]" + b;
    assert s[1..] == x + "]" + b;
    CloseBracketAfter(s, x, 1);
    assert s[|x| + 2..] == b;
  }

  /** Searching from `k`, the `]` right after a run `x` free of `]` and newlines closes the bracket. */
  lemma {:induction false} CloseBracketAfter(s: string, x: string, k: nat)
    requires k + |x| < |s| && s[k..k + |x|] == x && s[k + |x|] == ']'
    requires ']' !in x && '\n' !in x
    ensures CloseBracket(s, k) == Some(k + |x|)
    decreases |x|
  {
    if x != [] {
      assert s[k] == x[0];
      assert s[k + 1..k + 1 + |x[1..]|] == x[1..];
      CloseBracketAfter(s, x[1..], k + 1);
    }
  }

  /** No `[` is followed, anywhere later, by a `]`. */
  predicate NoBracketPair(r: string) {
    forall i, j :: 0 <= i < j < |r| && r[i] == '[' ==> r[j] != ']'
  }

  /** On one line, nothing bracketed survives: no `[` is followed by a `]`. */
  lemma {:induction false} RemoveBracketedComplete(s: string)
    requires '\n' !in s
    ensures NoBracketPair(RemoveBracketed(s))
    decreases |s|
  {
    if s != [] {
      var r := RemoveBracketed(s);
      if s[0] == '[' && CloseBracket(s, 1).Some? {
        var rest := s[CloseBracket(s, 1).value + 1..];
        assert forall c :: c in rest ==> c in s;
        RemoveBracketedComplete(rest);
      } else {
        var t := RemoveBracketed(s[1..]);
        assert '\n' !in s[1..];
        RemoveBracketedComplete(s[1..]);
        assert r == [s[0]] + t;
        if s[0] == '[' {
          assert ']' !in s[1..];
          assert forall j :: 0 <= j < |t| ==> t[j] != ']';
        }
        forall i, j | 0 <= i < j < |r| && r[i] == '['
          ensures r[j] != ']'
        {
          assert r[j] == t[j - 1];
          if i > 0 {
            assert r[i] == t[i - 1];
          }
        }
      }
    }
  }

  /** The devotional title: group 2 stripped, bracketed segments removed, stripped again. */
  function TitleText(g: string): string {
    Trim(RemoveBracketed(Trim(g, PySpace)), PySpace)
  }

  /** A title from one line is stripped and keeps no bracketed segment. */
  lemma TitleTextSpec(g: string)
    requires '\n' !in g
    ensures var t := TitleText(g);
      Trim(t, PySpace) == t && NoBracketPair(t)
  {
    var g1 := Trim(g, PySpace);
    TrimInfix(g, PySpace, '\n');
    RemoveBracketedComplete(g1);
    var r := RemoveBracketed(g1);
    var a, b := TrimSlice(r);
    NoBracketPairSlice(r, a, b);
    TrimNoop(Trim(r, PySpace), PySpace);
  }

  lemma NoBracketPairSlice(r: string, a: nat, b: nat)
    requires NoBracketPair(r) && a <= b <= |r|
    ensures NoBracketPair(r[a..b])
  {
    var t := r[a..b];
    assert forall i :: 0 <= i < |t| ==> t[i] == r[a + i];
  }
}
