/**
 * Characters and strings as the Go and Python sources see them.
 *
 * A string is a sequence of Unicode scalar values. Go's `len` counts the
 * bytes of the UTF-8 encoding (`ByteLen`); Python's `len` counts code
 * points (`|s|`). The three whitespace notions of the sources differ and
 * are kept apart: Go's `unicode.IsSpace` (used by `strings.TrimSpace` and
 * `strings.Fields`), RE2's `\s` class, and Python's `str.isspace` (used by
 * `strip`, `split` and the `re` module's `\s`).
 */
module Text {

  /** The whitespace notion a trimming or splitting function uses. */
  datatype Spaces = GoSpace | ReSpace | PySpace

  predicate IsAsciiUpper(c: char) { 'A' <= c <= 'Z' }

  predicate IsAsciiLetter(c: char) { 'A' <= c <= 'Z' || 'a' <= c <= 'z' }

  predicate IsAsciiDigit(c: char) { '0' <= c <= '9' }

  /** RE2's `\w`: ASCII letters, digits and underscore. */
  predicate IsWordChar(c: char) { IsAsciiLetter(c) || IsAsciiDigit(c) || c == '_' }

  /** RE2's `\s`: tab, newline, form feed, carriage return and space (no vertical tab). */
  predicate IsReSpace(c: char) {
    c == '\t' || c == '\n' || c == '\U{C}' || c == '\r' || c == ' '
  }

  /** Go's `unicode.IsSpace`. */
  predicate IsGoSpace(c: char) {
    || c == '\t' || c == '\n' || c == '\U{B}' || c == '\U{C}' || c == '\r' || c == ' '
    || c == '\U{85}' || c == '\U{A0}' || c == '\U{1680}'
    || ('\U{2000}' <= c <= '\U{200A}')
    || c == '\U{2028}' || c == '\U{2029}' || c == '\U{202F}' || c == '\U{205F}' || c == '\U{3000}'
  }

  /** Python's `str.isspace`: Go's set plus the four ASCII separators 0x1C..0x1F. */
  predicate IsPySpace(c: char) {
    IsGoSpace(c) || ('\U{1C}' <= c <= '\U{1F}')
  }

  predicate IsSpace(sp: Spaces, c: char) {
    match sp
    case GoSpace => IsGoSpace(c)
    case ReSpace => IsReSpace(c)
    case PySpace => IsPySpace(c)
  }

  /** The space character is whitespace under every notion. */
  lemma SpaceIsSpace(sp: Spaces)
    ensures IsSpace(sp, ' ')
  {
  }

  /** RE2 whitespace is whitespace for Go and for Python too. */
  lemma ReSpaceIsGoSpace(c: char)
    requires IsReSpace(c)
    ensures IsGoSpace(c) && IsPySpace(c)
  {
  }

  /**
   * Lower-casing of one character, as Go's `unicode.ToLower` and Python's
   * `str.lower` do it for ASCII and Latin-1 letters; other characters are
   * left as they are.
   */
  function LowerChar(c: char): (r: char)
    ensures IsAsciiUpper(c) ==> r as int == c as int + 32
    ensures !IsAsciiUpper(c) && !('\U{C0}' <= c <= '\U{DE}') ==> r == c
  {
    if 'A' <= c <= 'Z' || ('\U{C0}' <= c <= '\U{DE}' && c != '\U{D7}') then
      (c as int + 32) as char
    else
      c
  }

  function Lower(s: string): (r: string)
    ensures |r| == |s|
    ensures forall i :: 0 <= i < |s| ==> r[i] == LowerChar(s[i])
  {
    if s == [] then [] else [LowerChar(s[0])] + Lower(s[1..])
  }

  /** Number of bytes in the UTF-8 encoding of one character. */
  function Utf8Width(c: char): (n: nat)
    ensures 1 <= n <= 4
    ensures n == 1 <==> c as int < 0x80
  {
    if c as int < 0x80 then 1
    else if c as int < 0x800 then 2
    else if c as int < 0x10000 then 3
    else 4
  }

  /** Go's `len` of a string: the UTF-8 byte count. */
  function ByteLen(s: string): (n: nat)
    ensures |s| <= n <= 4 * |s|
  {
    if s == [] then 0 else Utf8Width(s[0]) + ByteLen(s[1..])
  }

  lemma {:induction false} ByteLenConcat(a: string, b: string)
    ensures ByteLen(a + b) == ByteLen(a) + ByteLen(b)
  {
    if a == [] {
      assert a + b == b;
    } else {
      assert (a + b)[0] == a[0];
      assert (a + b)[1..] == a[1..] + b;
      ByteLenConcat(a[1..], b);
    }
  }

  /** An ASCII string takes one byte per character. */
  lemma {:induction false} ByteLenAscii(s: string)
    requires forall i :: 0 <= i < |s| ==> s[i] as int < 0x80
    ensures ByteLen(s) == |s|
  {
    if s != [] {
      assert forall i :: 0 <= i < |s[1..]| ==> s[1..][i] == s[i + 1];
      ByteLenAscii(s[1..]);
    }
  }

  /** `pat` occurs in `s` at position `i`. */
  predicate OccursAt(s: string, pat: string, i: int) {
    0 <= i && i + |pat| <= |s| && s[i..i + |pat|] == pat
  }

  /** Go's `strings.Contains` and Python's `in` on strings, as a scan over the start positions. */
  predicate Contains(s: string, pat: string)
    decreases |s|
  {
    HasPrefix(s, pat) || (s != [] && Contains(s[1..], pat))
  }

  /** `Contains` holds exactly when the pattern occurs at some position. */
  lemma {:induction false} ContainsSpec(s: string, pat: string)
    ensures Contains(s, pat) <==> exists i :: OccursAt(s, pat, i)
    decreases |s|
  {
    if HasPrefix(s, pat) {
      assert OccursAt(s, pat, 0);
    }
    if s != [] {
      ContainsSpec(s[1..], pat);
      if Contains(s[1..], pat) {
        var i :| OccursAt(s[1..], pat, i);
        assert s[1..][i..i + |pat|] == s[i + 1..i + 1 + |pat|];
        assert OccursAt(s, pat, i + 1);
      }
      forall i | OccursAt(s, pat, i) && i > 0 ensures OccursAt(s[1..], pat, i - 1) {
        assert s[1..][i - 1..i - 1 + |pat|] == s[i..i + |pat|];
      }
    }
  }

  /** Go's `strings.HasPrefix` and Python's `startswith`. */
  predicate HasPrefix(s: string, p: string) {
    |p| <= |s| && s[..|p|] == p
  }

  /** Python's `endswith`. */
  predicate HasSuffix(s: string, p: string) {
    |p| <= |s| && s[|s| - |p|..] == p
  }

  /** The empty string occurs in every string. */
  lemma ContainsEmpty(s: string)
    ensures Contains(s, "")
  {
    assert HasPrefix(s, "");
  }

  /** Every occurrence of `pat` in `s[k..]` is an occurrence in `s`. */
  lemma {:induction false} ContainsSuffix(s: string, pat: string, k: nat)
    requires k <= |s|
    requires Contains(s[k..], pat)
    ensures Contains(s, pat)
  {
    if k > 0 {
      assert s[1..][k - 1..] == s[k..];
      ContainsSuffix(s[1..], pat, k - 1);
    }
  }

  /** A pattern whose first character `s` lacks does not occur in `s`. */
  lemma NotContainsWith(s: string, pat: string)
    ensures pat != [] && pat[0] !in s ==> !Contains(s, pat)
  {
    ContainsSpec(s, pat);
    forall i | OccursAt(s, pat, i) && pat != [] ensures s[i] == pat[0] {
      assert s[i..i + |pat|][0] == s[i];
    }
  }

  // ---- Sequence facts, stated once so that larger proofs need not re-derive them ----

  lemma AppendAssoc<T>(a: seq<T>, b: seq<T>, c: seq<T>)
    ensures a + b + c == a + (b + c)
  {
  }

  lemma TakeDrop<T>(s: seq<T>, n: nat)
    requires n <= |s|
    ensures s[..n] + s[n..] == s
  {
  }

  lemma ShiftFirst<T>(a: seq<T>, b: seq<T>)
    requires b != []
    ensures a + [b[0]] + b[1..] == a + b
  {
    assert [b[0]] + b[1..] == b;
  }

  lemma ThreeSlices<T>(s: seq<T>, i: nat, j: nat)
    requires i <= j <= |s|
    ensures s[..i] + s[i..j] + s[j..] == s
  {
    assert s[..i] + s[i..j] == s[..j];
  }

  /** Go's `strings.Join` and Python's `str.join`. */
  function Join(xs: seq<string>, sep: string): string
  {
    if |xs| == 0 then ""
    else if |xs| == 1 then xs[0]
    else xs[0] + sep + Join(xs[1..], sep)
  }

  lemma {:induction false} JoinSnoc(xs: seq<string>, x: string, sep: string)
    requires xs != []
    ensures Join(xs + [x], sep) == Join(xs, sep) + sep + x
  {
    if |xs| == 1 {
      assert xs + [x] == [xs[0], x];
    } else {
      assert (xs + [x])[1..] == xs[1..] + [x];
      JoinSnoc(xs[1..], x, sep);
    }
  }

  lemma {:induction false} JoinAppend(xs: seq<string>, ys: seq<string>, sep: string)
    requires xs != [] && ys != []
    ensures Join(xs + ys, sep) == Join(xs, sep) + sep + Join(ys, sep)
  {
    if |xs| == 1 {
      assert (xs + ys)[1..] == ys;
    } else {
      assert (xs + ys)[1..] == xs[1..] + ys;
      JoinAppend(xs[1..], ys, sep);
    }
  }

  /** A join is at least as long as each part, and has a separator between each pair. */
  lemma {:induction false} ByteLenJoin(xs: seq<string>, sep: string)
    requires xs != []
    ensures forall i :: 0 <= i < |xs| ==> ByteLen(xs[i]) <= ByteLen(Join(xs, sep))
    ensures sep != [] ==> |xs| - 1 <= ByteLen(Join(xs, sep))
  {
    if |xs| > 1 {
      ByteLenJoin(xs[1..], sep);
      ByteLenConcat(xs[0] + sep, Join(xs[1..], sep));
      ByteLenConcat(xs[0], sep);
      assert forall i :: 1 <= i < |xs| ==> xs[i] == xs[1..][i - 1];
    }
  }

  /** Index of the first `c` in `s`, or `|s|` when there is none. */
  function IndexOf(s: string, c: char): (i: nat)
    ensures i <= |s|
    ensures i < |s| ==> s[i] == c
    ensures forall j :: 0 <= j < i ==> s[j] != c
    ensures i == |s| <==> c !in s
  {
    if s == [] then 0 else if s[0] == c then 0 else 1 + IndexOf(s[1..], c)
  }

  /**
   * Go's `strings.Split(s, sep)` and Python's `s.split(sep)` for a
   * one-character separator: always at least one piece.
   */
  function Split(s: string, c: char): (r: seq<string>)
    ensures |r| >= 1
    ensures forall k :: 0 <= k < |r| ==> c !in r[k]
    decreases |s|
  {
    var i := IndexOf(s, c);
    if i == |s| then [s] else [s[..i]] + Split(s[i + 1..], c)
  }

  /** Joining the pieces of a split with the separator gives back the string. */
  lemma {:induction false} JoinSplit(s: string, c: char)
    ensures Join(Split(s, c), [c]) == s
    decreases |s|
  {
    var i := IndexOf(s, c);
    if i < |s| {
      var rest := Split(s[i + 1..], c);
      assert Split(s, c) == [s[..i]] + rest;
      JoinCons(s[..i], rest, [c]);
      JoinSplit(s[i + 1..], c);
      assert s == s[..i] + [c] + s[i + 1..];
    }
  }

  lemma JoinCons(x: string, xs: seq<string>, sep: string)
    requires xs != []
    ensures Join([x] + xs, sep) == x + sep + Join(xs, sep)
  {
    assert ([x] + xs)[1..] == xs;
  }

  /** The first separator in `a + [c] + b` is the one after `a` when `a` has none. */
  lemma IndexOfAfter(a: string, c: char, b: string)
    requires c !in a
    ensures IndexOf(a + [c] + b, c) == |a|
  {
    var s := a + [c] + b;
    assert s[|a|] == c;
    assert forall j :: 0 <= j < |a| ==> s[j] == a[j];
  }

  /** A separator-free piece and a separator split off as the first piece. */
  lemma SplitCons(a: string, c: char, b: string)
    requires c !in a
    ensures Split(a + [c] + b, c) == [a] + Split(b, c)
  {
    var s := a + [c] + b;
    IndexOfAfter(a, c, b);
    assert s[..|a|] == a;
    assert s[|a| + 1..] == b;
  }

  /** Splitting a join of separator-free pieces gives the pieces back. */
  lemma {:induction false} SplitJoin(xs: seq<string>, c: char)
    requires xs != []
    requires forall k :: 0 <= k < |xs| ==> c !in xs[k]
    ensures Split(Join(xs, [c]), c) == xs
  {
    if |xs| == 1 {
      assert IndexOf(xs[0], c) == |xs[0]|;
    } else {
      SplitCons(xs[0], c, Join(xs[1..], [c]));
      SplitJoin(xs[1..], c);
      assert xs == [xs[0]] + xs[1..];
    }
  }

  /** Drops the leading characters that are whitespace for `sp`. */
  function TrimLeft(s: string, sp: Spaces): (r: string)
    ensures |r| <= |s| && r == s[|s| - |r|..]
    ensures r == [] || !IsSpace(sp, r[0])
    ensures forall i :: 0 <= i < |s| - |r| ==> IsSpace(sp, s[i])
  {
    if s != [] && IsSpace(sp, s[0]) then TrimLeft(s[1..], sp) else s
  }

  /** Drops the trailing characters that are whitespace for `sp`. */
  function TrimRight(s: string, sp: Spaces): (r: string)
    ensures |r| <= |s| && r == s[..|r|]
    ensures r == [] || !IsSpace(sp, r[|r| - 1])
    ensures forall i :: |r| <= i < |s| ==> IsSpace(sp, s[i])
  {
    if s != [] && IsSpace(sp, s[|s| - 1]) then TrimRight(s[..|s| - 1], sp) else s
  }

  /**
   * Go's `strings.TrimSpace` (with `GoSpace`) and Python's `str.strip()`
   * (with `PySpace`): the longest infix whose ends are not whitespace.
   */
  function Trim(s: string, sp: Spaces): (r: string)
    ensures |r| <= |s|
    ensures r == [] || (!IsSpace(sp, r[0]) && !IsSpace(sp, r[|r| - 1]))
    ensures r == [] <==> forall i :: 0 <= i < |s| ==> IsSpace(sp, s[i])
  {
    var l := TrimLeft(s, sp);
    var r := TrimRight(l, sp);
    if r == [] then AllSpaceSuffix(s, l, sp); r else r
  }

  lemma AllSpaceSuffix(s: string, l: string, sp: Spaces)
    requires |l| <= |s| && l == s[|s| - |l|..]
    requires forall i :: 0 <= i < |s| - |l| ==> IsSpace(sp, s[i])
    requires forall i :: 0 <= i < |l| ==> IsSpace(sp, l[i])
    ensures forall i :: 0 <= i < |s| ==> IsSpace(sp, s[i])
  {
    forall i | |s| - |l| <= i < |s|
      ensures IsSpace(sp, s[i])
    {
      assert s[i] == l[i - (|s| - |l|)];
    }
  }

  /** Trimming only removes characters. */
  lemma TrimInfix(s: string, sp: Spaces, x: char)
    requires x !in s
    ensures x !in Trim(s, sp)
  {
    var l := TrimLeft(s, sp);
    var r := TrimRight(l, sp);
    assert forall t :: 0 <= t < |r| ==> r[t] == l[t] == s[|s| - |l| + t];
  }

  /** Go's `strings.TrimSpace`. */
  function TrimSpace(s: string): string { Trim(s, GoSpace) }

  /** Trimming twice trims once. */
  lemma TrimSpaceIdempotent(s: string)
    ensures TrimSpace(TrimSpace(s)) == TrimSpace(s)
  {
    TrimNoop(TrimSpace(s), GoSpace);
  }

  /** A string whose ends are not whitespace is its own trim. */
  lemma TrimNoop(s: string, sp: Spaces)
    requires s == [] || (!IsSpace(sp, s[0]) && !IsSpace(sp, s[|s| - 1]))
    ensures Trim(s, sp) == s
  {
  }

  /** Removes every non-overlapping occurrence of `pat`, scanning left to right (Go's `strings.ReplaceAll(s, pat, "")`). */
  function RemoveAll(s: string, pat: string): (r: string)
    ensures |r| <= |s|
    ensures pat == "" ==> r == s
    decreases |s|
  {
    if pat == [] || s == [] then s
    else if HasPrefix(s, pat) then RemoveAll(s[|pat|..], pat)
    else [s[0]] + RemoveAll(s[1..], pat)
  }

  /** Removing a string that does not occur changes nothing. */
  lemma {:induction false} RemoveAllAbsent(s: string, pat: string)
    requires !Contains(s, pat)
    ensures RemoveAll(s, pat) == s
    decreases |s|
  {
    if pat != [] && s != [] {
      RemoveAllAbsent(s[1..], pat);
    }
  }
}
