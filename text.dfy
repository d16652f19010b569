/**
  Splitting a text at separator characters, the way Python's `re.split` does
  with a pattern that matches one character: every separator ends a
  fragment, so separators next to each other or to either end of the text
  produce empty fragments.
*/
module Text {

  /** `s` cut at every character that `sep` accepts; the fragments never contain a separator. */
  function Split(s: string, sep: char -> bool): (r: seq<string>)
    ensures |r| >= 1
    ensures r[0] == [] <==> s == [] || sep(s[0])
    ensures forall k, i | 0 <= k < |r| && 0 <= i < |r[k]| :: !sep(r[k][i])
    decreases |s|
  {
    if s == [] then [""]
    else if sep(s[0]) then [""] + Split(s[1..], sep)
    else
      var t := Split(s[1..], sep);
      [[s[0]] + t[0]] + t[1..]
  }

  /** The fragments that are not empty, in their order: `[w for w in fs if w != ""]`. */
  function NonEmpty(fs: seq<string>): (r: seq<string>)
    ensures |r| <= |fs|
    ensures forall w :: w in r <==> w in fs && w != ""
  {
    if fs == [] then []
    else (if fs[0] == "" then [] else [fs[0]]) + NonEmpty(fs[1..])
  }

  /** The number of maximal runs of characters that `sep` rejects, each counted at its last character. */
  function Runs(s: string, sep: char -> bool): (n: nat)
    ensures n <= |s|
  {
    if s == [] then 0
    else (if !sep(s[0]) && (|s| == 1 || sep(s[1])) then 1 else 0) + Runs(s[1..], sep)
  }

  /** Dropping the empty fragments of a split leaves one fragment per maximal run of non-separators. */
  lemma {:induction false} FragmentsAreRuns(s: string, sep: char -> bool)
    ensures |NonEmpty(Split(s, sep))| == Runs(s, sep)
  {
    if s != [] {
      var t := Split(s[1..], sep);
      FragmentsAreRuns(s[1..], sep);
      assert t == [t[0]] + t[1..];
      assert NonEmpty(t) == NonEmpty([t[0]]) + NonEmpty(t[1..]) by {
        NonEmptyAppend([t[0]], t[1..]);
      }
      if sep(s[0]) {
        assert Split(s, sep) == [""] + t;
        NonEmptyAppend([""], t);
      } else {
        var r := [[s[0]] + t[0]] + t[1..];
        assert Split(s, sep) == r;
        NonEmptyAppend([[s[0]] + t[0]], t[1..]);
      }
    }
  }

  lemma {:induction false} NonEmptyAppend(xs: seq<string>, ys: seq<string>)
    ensures NonEmpty(xs + ys) == NonEmpty(xs) + NonEmpty(ys)
  {
    if xs == [] {
      assert xs + ys == ys;
    } else {
      assert (xs + ys)[0] == xs[0] && (xs + ys)[1..] == xs[1..] + ys;
      NonEmptyAppend(xs[1..], ys);
    }
  }

  /** A text has no run of non-separators exactly when every character of it is a separator. */
  lemma {:induction false} NoRunsIffAllSeparators(s: string, sep: char -> bool)
    ensures Runs(s, sep) == 0 <==> forall i | 0 <= i < |s| :: sep(s[i])
  {
    if s != [] {
      NoRunsIffAllSeparators(s[1..], sep);
      assert forall i | 1 <= i < |s| :: s[i] == s[1..][i - 1];
    }
  }

  /** A text without separators is a single fragment. */
  lemma {:induction false} SplitNoSeparator(s: string, sep: char -> bool)
    requires forall i | 0 <= i < |s| :: !sep(s[i])
    ensures Split(s, sep) == [s]
  {
    if s != [] {
      SplitNoSeparator(s[1..], sep);
      assert [s[0]] + s[1..] == s;
    }
  }

  /** A word followed by a separator is cut off as the first fragment. */
  lemma {:induction false} SplitAfterWord(w: string, c: char, rest: string, sep: char -> bool)
    requires forall i | 0 <= i < |w| :: !sep(w[i])
    requires sep(c)
    ensures Split(w + [c] + rest, sep) == [w] + Split(rest, sep)
  {
    var s := w + [c] + rest;
    if w == [] {
      assert s == [c] + rest;
      assert s[1..] == rest;
    } else {
      assert s[0] == w[0] && s[1..] == w[1..] + [c] + rest;
      SplitAfterWord(w[1..], c, rest, sep);
      assert [w[0]] + w[1..] == w;
    }
  }
}
