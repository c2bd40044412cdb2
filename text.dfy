/**
 * The string functions the corpus scan applies to a file name and to a
 * file's content: the `.txt` filter, the genre prefix, the path join, the
 * base name used for the copy, and `str.split()` for the word count.
 */
module Text {

  /** Python's `str.isspace()`: the characters `str.split()` with no argument splits on. */
  predicate IsSpace(c: char)
  {
    || ('\t' <= c <= '\r')
    || ('\U{1C}' <= c <= ' ')
    || c == '\U{85}' || c == '\U{A0}' || c == '\U{1680}'
    || ('\U{2000}' <= c <= '\U{200A}')
    || c == '\U{2028}' || c == '\U{2029}' || c == '\U{202F}' || c == '\U{205F}' || c == '\U{3000}'
  }

  predicate NoSpace(s: string)
  {
    forall i :: 0 <= i < |s| ==> !IsSpace(s[i])
  }

  /** `s.endswith(suffix)`. */
  predicate EndsWith(s: string, suffix: string)
  {
    |suffix| <= |s| && s[|s| - |suffix|..] == suffix
  }

  /** The number of leading characters of `s` that are not whitespace. */
  function RunLength(s: string): (n: nat)
    ensures n <= |s|
    ensures NoSpace(s[..n])
    ensures n < |s| ==> IsSpace(s[n])
  {
    if s == [] || IsSpace(s[0]) then 0
    else
      var n := 1 + RunLength(s[1..]);
      assert s[..n] == [s[0]] + s[1..][..n - 1];
      n
  }

  /** `s.split()`: the maximal runs of non-whitespace characters of `s`, in order. */
  function Words(s: string): (ws: seq<string>)
    ensures forall k :: 0 <= k < |ws| ==> ws[k] != [] && NoSpace(ws[k])
    decreases |s|
  {
    if s == [] then []
    else if IsSpace(s[0]) then Words(s[1..])
    else
      var n := RunLength(s);
      [s[..n]] + Words(s[n..])
  }

  /** The characters of `s` that are not whitespace, in order. */
  function NonSpace(s: string): string
  {
    if s == [] then []
    else (if IsSpace(s[0]) then [] else [s[0]]) + NonSpace(s[1..])
  }

  function Concat(ws: seq<string>): string
  {
    if ws == [] then [] else ws[0] + Concat(ws[1..])
  }

  /**
   * The number of positions of `s` where a run of non-whitespace characters
   * starts: a non-whitespace character whose predecessor is whitespace, the
   * predecessor of `s[0]` counting as whitespace exactly when `afterSpace`.
   */
  function RunStarts(s: string, afterSpace: bool): nat
  {
    if s == [] then 0
    else (if afterSpace && !IsSpace(s[0]) then 1 else 0) + RunStarts(s[1..], IsSpace(s[0]))
  }

  lemma {:induction false} NonSpaceOfRun(s: string, k: nat)
    requires k <= |s| && NoSpace(s[..k])
    ensures NonSpace(s) == s[..k] + NonSpace(s[k..])
  {
    if k > 0 {
      assert !IsSpace(s[..k][0]);
      assert s[1..][..k - 1] == s[..k][1..];
      NonSpaceOfRun(s[1..], k - 1);
      assert s[1..][k - 1..] == s[k..];
      assert s[..k] == [s[0]] + s[1..][..k - 1];
    } else {
      assert s[k..] == s;
    }
  }

  /** Joining the words of `s` gives back exactly the non-whitespace characters of `s`. */
  lemma {:induction false} WordsConcat(s: string)
    ensures Concat(Words(s)) == NonSpace(s)
    decreases |s|
  {
    if s == [] {
    } else if IsSpace(s[0]) {
      WordsConcat(s[1..]);
    } else {
      var n := RunLength(s);
      WordsConcat(s[n..]);
      NonSpaceOfRun(s, n);
      var ws := [s[..n]] + Words(s[n..]);
      assert ws[0] == s[..n] && ws[1..] == Words(s[n..]);
    }
  }

  lemma {:induction false} RunStartsInRun(t: string, m: nat)
    requires m <= |t| && NoSpace(t[..m])
    ensures RunStarts(t, false) == RunStarts(t[m..], false)
  {
    if m > 0 {
      assert !IsSpace(t[..m][0]);
      assert t[1..][..m - 1] == t[..m][1..];
      RunStartsInRun(t[1..], m - 1);
      assert t[1..][m - 1..] == t[m..];
    } else {
      assert t[m..] == t;
    }
  }

  /** `len(s.split())` is the number of maximal runs of non-whitespace characters of `s`. */
  lemma {:induction false} WordsCount(s: string)
    ensures |Words(s)| == RunStarts(s, true)
    decreases |s|
  {
    if s == [] {
    } else if IsSpace(s[0]) {
      WordsCount(s[1..]);
    } else {
      var n := RunLength(s);
      WordsCount(s[n..]);
      assert s[1..][..n - 1] == s[..n][1..];
      RunStartsInRun(s[1..], n - 1);
      assert s[1..][n - 1..] == s[n..];
      var t := s[n..];
      assert t != [] ==> IsSpace(t[0]);
      assert RunStarts(t, false) == RunStarts(t, true);
    }
  }

  /** A content weighs no words exactly when it is empty or all whitespace. */
  lemma {:induction false} NoWordsIffBlank(s: string)
    ensures Words(s) == [] <==> NonSpace(s) == []
    ensures Words(s) == [] <==> (forall i :: 0 <= i < |s| ==> IsSpace(s[i]))
  {
    WordsConcat(s);
    BlankIffNoNonSpace(s);
    if Words(s) != [] {
      var ws := Words(s);
      assert Concat(ws) == ws[0] + Concat(ws[1..]);
      assert |Concat(ws)| >= |ws[0]| > 0;
    }
  }

  lemma {:induction false} BlankIffNoNonSpace(s: string)
    ensures NonSpace(s) == [] <==> (forall i :: 0 <= i < |s| ==> IsSpace(s[i]))
  {
    if s != [] {
      BlankIffNoNonSpace(s[1..]);
      assert forall i :: 1 <= i < |s| ==> s[i] == s[1..][i - 1];
    }
  }

  /** There are never more words than characters. */
  lemma {:induction false} WordsAtMostChars(s: string)
    ensures |Words(s)| <= |s|
    decreases |s|
  {
    if s == [] {
    } else if IsSpace(s[0]) {
      WordsAtMostChars(s[1..]);
    } else {
      WordsAtMostChars(s[RunLength(s)..]);
    }
  }

  /** `name.split('_')[0]`: the part of `name` before its first underscore, all of `name` when it has none. */
  function Genre(name: string): (g: string)
    ensures |g| <= |name| && g == name[..|g|]
    ensures '_' !in g
    ensures |g| < |name| ==> name[|g|] == '_'
  {
    if name == [] || name[0] == '_' then []
    else [name[0]] + Genre(name[1..])
  }

  /** The three facts `Genre` ensures single out its result: it is the only such prefix. */
  lemma GenreUnique(name: string, g: string)
    requires |g| <= |name| && g == name[..|g|]
    requires '_' !in g
    requires |g| < |name| ==> name[|g|] == '_'
    ensures g == Genre(name)
  {
  }

  /**
   * `os.path.join(folder, name)`: `name` alone when it is absolute, otherwise
   * `folder` and `name` with one `/` between them unless `folder` is empty or
   * already ends in `/`.
   */
  function JoinPath(folder: string, name: string): (p: string)
    ensures EndsWith(p, name)
    ensures '/' !in name && |name| < |p| ==> p[|p| - |name| - 1] == '/'
  {
    if |name| > 0 && name[0] == '/' then name
    else if folder == [] || folder[|folder| - 1] == '/' then folder + name
    else folder + "/" + name
  }

  /** `os.path.basename(p)`: what follows the last `/` of `p`. */
  function Basename(p: string): (b: string)
    ensures '/' !in b
    ensures EndsWith(p, b)
    ensures |b| < |p| ==> p[|p| - |b| - 1] == '/'
  {
    if p == [] || p[|p| - 1] == '/' then []
    else
      var b := Basename(p[..|p| - 1]) + [p[|p| - 1]];
      assert p[..|p| - 1][|p| - |b|..] + [p[|p| - 1]] == p[|p| - |b|..];
      b
  }

  /** A file copied under `basename(join(folder, name))` keeps its own name. */
  lemma BasenameOfJoin(folder: string, name: string)
    requires '/' !in name
    ensures Basename(JoinPath(folder, name)) == name
  {
  }
}
