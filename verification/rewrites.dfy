/**
 * The scraper's regular-expression replacements, each written out as the
 * scan the pattern performs:
 *   `^-\d+`                  dropped from the front of a title,
 *   `^-?\d*`                 dropped from the front of a title,
 *   `\s{2,}`                 replaced by one space,
 *   `\s*\[[\w\s]+\]\s*$`     (a trailing bracketed tag) dropped.
 * `\s` and `\w` are RE2's ASCII classes.
 */
module Rewrites {
  import opened Text

  /** Length of the leading run of ASCII digits of `s`. */
  function DigitRun(s: string): (n: nat)
    ensures n <= |s|
    ensures forall i :: 0 <= i < n ==> IsAsciiDigit(s[i])
    ensures n < |s| ==> !IsAsciiDigit(s[n])
  {
    if s != [] && IsAsciiDigit(s[0]) then 1 + DigitRun(s[1..]) else 0
  }

  /** `^-\d+` replaced by nothing: a dash and the digits after it, when there is at least one. */
  function StripDashNumber(s: string): (r: string)
    ensures |r| <= |s| && r == s[|s| - |r|..]
    ensures r != s <==> |s| >= 2 && s[0] == '-' && IsAsciiDigit(s[1])
    ensures r != s ==> r == s[1 + DigitRun(s[1..])..]
  {
    if |s| >= 2 && s[0] == '-' && IsAsciiDigit(s[1]) then s[1 + DigitRun(s[1..])..] else s
  }

  /** `^-?\d*` replaced by nothing: an optional dash, then any digits. */
  function StripNumberPrefix(s: string): (r: string)
    ensures |r| <= |s| && r == s[|s| - |r|..]
    ensures r == [] || !IsAsciiDigit(r[0])
    ensures s != [] && IsAsciiLetter(s[0]) ==> r == s
  {
    var t := if s != [] && s[0] == '-' then s[1..] else s;
    t[DigitRun(t)..]
  }

  /** Length of the leading run of RE2 whitespace of `s`. */
  function SpaceRun(s: string): (n: nat)
    ensures n <= |s|
    ensures forall i :: 0 <= i < n ==> IsReSpace(s[i])
    ensures n < |s| ==> !IsReSpace(s[n])
  {
    if s != [] && IsReSpace(s[0]) then 1 + SpaceRun(s[1..]) else 0
  }

  /** `\s{2,}` replaced by `" "`: each run of two or more whitespace characters becomes one space. */
  function CollapseSpaces(s: string): (r: string)
    ensures |r| <= |s|
    decreases |s|
  {
    if s == [] then []
    else
      var n := SpaceRun(s);
      if n >= 2 then " " + CollapseSpaces(s[n..])
      else [s[0]] + CollapseSpaces(s[1..])
  }

  /** No two whitespace characters are adjacent. */
  predicate NoDoubleSpace(s: string) {
    forall i :: 0 <= i < |s| - 1 ==> !(IsReSpace(s[i]) && IsReSpace(s[i + 1]))
  }

  /** The characters of `s` that are not whitespace, in order. */
  function Visible(s: string): string {
    if s == [] then [] else (if IsReSpace(s[0]) then [] else [s[0]]) + Visible(s[1..])
  }

  lemma {:induction false} VisibleAppend(a: string, b: string)
    ensures Visible(a + b) == Visible(a) + Visible(b)
  {
    if a == [] {
      assert a + b == b;
    } else {
      assert (a + b)[0] == a[0] && (a + b)[1..] == a[1..] + b;
      VisibleAppend(a[1..], b);
    }
  }

  lemma {:induction false} VisibleOfSpaces(s: string)
    requires forall i :: 0 <= i < |s| ==> IsReSpace(s[i])
    ensures Visible(s) == []
  {
    if s != [] {
      VisibleOfSpaces(s[1..]);
    }
  }

  /**
   * Collapsing keeps every visible character in order, and leaves no two
   * whitespace characters side by side.
   */
  lemma {:induction false} CollapseSpacesSpec(s: string)
    ensures Visible(CollapseSpaces(s)) == Visible(s)
    ensures NoDoubleSpace(CollapseSpaces(s))
    ensures CollapseSpaces(s) == [] || IsReSpace(CollapseSpaces(s)[0]) == IsReSpace(s[0])
    decreases |s|
  {
    if s != [] {
      var n := SpaceRun(s);
      if n >= 2 {
        var rest := s[n..];
        CollapseSpacesSpec(rest);
        assert s == s[..n] + rest;
        VisibleAppend(s[..n], rest);
        VisibleOfSpaces(s[..n]);
        VisibleAppend(" ", CollapseSpaces(rest));
        assert rest == [] || !IsReSpace(rest[0]);
      } else {
        var rest := s[1..];
        CollapseSpacesSpec(rest);
        assert s == [s[0]] + rest;
        VisibleAppend([s[0]], rest);
        VisibleAppend([s[0]], CollapseSpaces(rest));
        assert IsReSpace(s[0]) ==> rest == [] || !IsReSpace(rest[0]);
      }
    }
  }

  /** A string without double whitespace is left alone. */
  lemma {:induction false} CollapseSpacesNoop(s: string)
    requires NoDoubleSpace(s)
    ensures CollapseSpaces(s) == s
    decreases |s|
  {
    if s != [] {
      if |s| >= 2 {
        assert !(IsReSpace(s[0]) && IsReSpace(s[1]));
      }
      assert NoDoubleSpace(s[1..]) by {
        forall i | 0 <= i < |s[1..]| - 1 ensures !(IsReSpace(s[1..][i]) && IsReSpace(s[1..][i + 1])) {
          assert s[1..][i] == s[i + 1] && s[1..][i + 1] == s[i + 2];
        }
      }
      CollapseSpacesNoop(s[1..]);
    }
  }

  /** Collapsing twice is collapsing once. */
  lemma CollapseSpacesIdempotent(s: string)
    ensures CollapseSpaces(CollapseSpaces(s)) == CollapseSpaces(s)
  {
    CollapseSpacesSpec(s);
    CollapseSpacesNoop(CollapseSpaces(s));
  }

  /** `[\w\s]`. */
  predicate IsTagChar(c: char) { IsWordChar(c) || IsReSpace(c) }

  /** `s[p..]` is whitespace, `[`, one or more tag characters, `]`, whitespace. */
  ghost predicate TrailingTagAt(s: string, p: int) {
    exists q, r :: TagWith(s, p, q, r)
  }

  /** The tag at `p` has its `[` at `q` and its `]` at `r`. */
  predicate TagWith(s: string, p: int, q: int, r: int) {
    && 0 <= p <= q && q + 1 < r < |s|
    && (forall t :: p <= t < q ==> IsReSpace(s[t]))
    && s[q] == '[' && s[r] == ']'
    && (forall t :: q < t < r ==> IsTagChar(s[t]))
    && (forall t :: r < t < |s| ==> IsReSpace(s[t]))
  }

  /** Length of `s` without its trailing RE2 whitespace. */
  function RightEnd(s: string): (n: nat)
    ensures n <= |s|
    ensures forall t :: n <= t < |s| ==> IsReSpace(s[t])
    ensures n > 0 ==> !IsReSpace(s[n - 1])
  {
    if s != [] && IsReSpace(s[|s| - 1]) then RightEnd(s[..|s| - 1]) else |s|
  }

  /** Start of the run of tag characters ending just before `hi`. */
  function TagCharsFrom(s: string, hi: nat): (lo: nat)
    requires hi <= |s|
    ensures lo <= hi
    ensures forall t :: lo <= t < hi ==> IsTagChar(s[t])
    ensures lo > 0 ==> !IsTagChar(s[lo - 1])
  {
    if hi > 0 && IsTagChar(s[hi - 1]) then TagCharsFrom(s, hi - 1) else hi
  }

  /** Start of the run of RE2 whitespace ending just before `hi`. */
  function SpacesFrom(s: string, hi: nat): (lo: nat)
    requires hi <= |s|
    ensures lo <= hi
    ensures forall t :: lo <= t < hi ==> IsReSpace(s[t])
    ensures lo > 0 ==> !IsReSpace(s[lo - 1])
  {
    if hi > 0 && IsReSpace(s[hi - 1]) then SpacesFrom(s, hi - 1) else hi
  }

  /** Where the trailing tag of `s` starts, if it has one. */
  function TagStart(s: string): (p: int)
    ensures -1 <= p <= |s|
  {
    var n := RightEnd(s);
    if n == 0 || s[n - 1] != ']' then -1
    else
      var q := TagCharsFrom(s, n - 1);
      if q == 0 || q == n - 1 || s[q - 1] != '[' then -1
      else SpacesFrom(s, q - 1)
  }

  /** `\s*\[[\w\s]+\]\s*$` replaced by nothing. */
  function StripTrailingTag(s: string): (r: string)
    ensures |r| <= |s| && r == s[..|r|]
  {
    var p := TagStart(s);
    if p < 0 then s else s[..p]
  }

  /** The tag scan finds the leftmost start of a trailing tag, and finds one exactly when there is one. */
  lemma TagStartSpec(s: string)
    ensures TagStart(s) >= 0 ==> TrailingTagAt(s, TagStart(s))
    ensures TagStart(s) >= 0 ==> forall p :: 0 <= p < TagStart(s) ==> !TrailingTagAt(s, p)
    ensures TagStart(s) < 0 ==> forall p :: !TrailingTagAt(s, p)
  {
    var n := RightEnd(s);
    var p := TagStart(s);
    if p >= 0 {
      var q := TagCharsFrom(s, n - 1);
      assert TagWith(s, p, q - 1, n - 1);
    }
    forall p', q', r' | TagWith(s, p', q', r')
      ensures r' == n - 1 && q' == TagCharsFrom(s, n - 1) - 1 && p' >= TagStart(s) >= 0
    {
      assert !IsReSpace(s[r']);
      assert n == r' + 1;
      var q := TagCharsFrom(s, n - 1);
      assert !IsTagChar(s[q']);
      assert q' + 1 >= q;
      if q' + 1 > q {
        assert false;
      }
      var lo := SpacesFrom(s, q - 1);
      if lo > 0 {
        assert !IsReSpace(s[lo - 1]);
      }
    }
  }

  /** The rewrite removes exactly the trailing tag, and leaves a tag-free string alone. */
  lemma StripTrailingTagSpec(s: string)
    ensures StripTrailingTag(s) != s ==> TrailingTagAt(s, |StripTrailingTag(s)|)
    ensures StripTrailingTag(s) != s ==> forall p :: 0 <= p < |StripTrailingTag(s)| ==> !TrailingTagAt(s, p)
    ensures (forall p :: !TrailingTagAt(s, p)) ==> StripTrailingTag(s) == s
  {
    TagStartSpec(s);
  }
}
