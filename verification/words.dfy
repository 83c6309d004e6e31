/**
 * Whitespace tokenisation: Go's `strings.Fields` and Python's `str.split()`
 * without arguments, both of which drop empty tokens.
 */
module Words {
  import opened Text

  /** A token: non-empty and free of whitespace. */
  predicate IsWord(w: string, sp: Spaces) {
    w != [] && forall i :: 0 <= i < |w| ==> !IsSpace(sp, w[i])
  }

  /** Number of leading characters of `s` that are not whitespace. */
  function WordLen(s: string, sp: Spaces): (n: nat)
    ensures n <= |s|
    ensures forall i :: 0 <= i < n ==> !IsSpace(sp, s[i])
    ensures n < |s| ==> IsSpace(sp, s[n])
  {
    if s == [] || IsSpace(sp, s[0]) then 0 else 1 + WordLen(s[1..], sp)
  }

  /** The maximal runs of non-whitespace characters of `s`, in order. */
  function Fields(s: string, sp: Spaces): (ws: seq<string>)
    ensures forall k :: 0 <= k < |ws| ==> IsWord(ws[k], sp)
    decreases |s|
  {
    if s == [] then []
    else if IsSpace(sp, s[0]) then Fields(s[1..], sp)
    else
      var n := WordLen(s, sp);
      [s[..n]] + Fields(s[n..], sp)
  }

  /** Whitespace-token count: Go's `len(strings.Fields(s))`, Python's `len(s.split())`. */
  function WordCount(s: string, sp: Spaces): nat {
    |Fields(s, sp)|
  }

  lemma {:induction false} WordLenOfWord(w: string, x: string, sp: Spaces)
    requires IsWord(w, sp)
    requires x == [] || IsSpace(sp, x[0])
    ensures WordLen(w + x, sp) == |w|
    decreases |w|
  {
    assert (w + x)[0] == w[0];
    if |w| > 1 {
      assert (w + x)[1..] == w[1..] + x;
      WordLenOfWord(w[1..], x, sp);
    } else {
      assert (w + x)[1..] == x;
    }
  }

  /** A token followed by whitespace (or nothing) is the first field. */
  lemma FieldsWordThen(w: string, x: string, sp: Spaces)
    requires IsWord(w, sp)
    requires x == [] || IsSpace(sp, x[0])
    ensures Fields(w + x, sp) == [w] + Fields(x, sp)
  {
    WordLenOfWord(w, x, sp);
    assert (w + x)[0] == w[0];
    assert (w + x)[..|w|] == w;
    assert (w + x)[|w|..] == x;
  }

  /** Splitting words joined by single spaces gives the words back. */
  lemma {:induction false} FieldsOfJoin(ws: seq<string>, sp: Spaces)
    requires forall k :: 0 <= k < |ws| ==> IsWord(ws[k], sp)
    ensures Fields(Join(ws, " "), sp) == ws
  {
    SpaceIsSpace(sp);
    if |ws| == 1 {
      FieldsWordThen(ws[0], "", sp);
      assert ws[0] + "" == ws[0];
    } else if |ws| > 1 {
      var rest := Join(ws[1..], " ");
      assert Join(ws, " ") == ws[0] + (" " + rest);
      FieldsWordThen(ws[0], " " + rest, sp);
      assert (" " + rest)[1..] == rest;
      FieldsOfJoin(ws[1..], sp);
      assert ws == [ws[0]] + ws[1..];
    }
  }

  /** Words joined by single spaces start and end with a non-space character. */
  lemma {:induction false} JoinWordsEnds(ws: seq<string>, sp: Spaces)
    requires ws != []
    requires forall k :: 0 <= k < |ws| ==> IsWord(ws[k], sp)
    ensures var j := Join(ws, " "); j != [] && !IsSpace(sp, j[0]) && !IsSpace(sp, j[|j| - 1])
  {
    if |ws| > 1 {
      JoinWordsEnds(ws[1..], sp);
      var rest := Join(ws[1..], " ");
      assert Join(ws, " ") == ws[0] + " " + rest;
      assert Join(ws, " ")[0] == ws[0][0];
      assert Join(ws, " ")[|Join(ws, " ")| - 1] == rest[|rest| - 1];
    }
  }

  predicate AllWords(ws: seq<string>, sp: Spaces) {
    forall k :: 0 <= k < |ws| ==> IsWord(ws[k], sp)
  }

  /** Trimming words joined by single spaces changes nothing. */
  lemma JoinWordsTrimmed(ws: seq<string>, sp: Spaces)
    requires AllWords(ws, sp)
    ensures Trim(Join(ws, " "), sp) == Join(ws, " ")
  {
    JoinWordsUntrimmed(ws, sp);
    TrimNoop(Join(ws, " "), sp);
  }

  lemma JoinWordsUntrimmed(ws: seq<string>, sp: Spaces)
    requires AllWords(ws, sp)
    ensures var j := Join(ws, " "); j == [] || (!IsSpace(sp, j[0]) && !IsSpace(sp, j[|j| - 1]))
  {
    if ws != [] {
      JoinWordsEnds(ws, sp);
    }
  }

  /** Words joined by single spaces take at least two bytes per word, less one. */
  lemma {:induction false} ByteLenJoinWords(ws: seq<string>, sp: Spaces)
    requires forall k :: 0 <= k < |ws| ==> IsWord(ws[k], sp)
    ensures ByteLen(Join(ws, " ")) >= 2 * |ws| - 1
  {
    if |ws| == 1 {
      assert ByteLen(ws[0]) >= |ws[0]| >= 1;
    } else if |ws| > 1 {
      ByteLenJoinWords(ws[1..], sp);
      ByteLenConcat(ws[0] + " ", Join(ws[1..], " "));
      ByteLenConcat(ws[0], " ");
      assert ByteLen(ws[0]) >= 1;
    }
  }
}
