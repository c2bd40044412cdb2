/**
 * The corpus scan of `select_files_by_optimization`: every `.txt` entry of
 * the source folder is weighed (characters or words of its content) and
 * filed under its genre, the part of its name before the first `_`.
 */
module Corpus {
  import opened Wrappers
  import opened Text
  import opened Sums

  /** One directory entry as the scan sees it: its name and the text it holds. */
  datatype Entry = Entry(name: string, content: string)

  /** One `(chemin_fichier, longueur)` pair of a genre's `fichiers` list. */
  datatype Candidate = Candidate(path: string, weight: nat)

  /** The per-genre record `{'fichiers': [...], 'somme': ...}`. */
  datatype GenreFiles = GenreFiles(files: seq<Candidate>, total: nat)

  /** The scan's result: the set `genres` and the dictionary `caracteristiques_par_genre`. */
  datatype Pool = Pool(genres: set<string>, table: map<string, GenreFiles>)

  datatype ScanError = InvalidMode

  predicate IsTxt(name: string)
  {
    EndsWith(name, ".txt")
  }

  /** The two weight modes, `'caracteres'` and `'mots'`. */
  datatype Measure = ByCharacters | ByWords

  /** The mode string as the scan compares it: `'caracteres'`, `'mots'`, or neither. */
  function ParseMode(mode: string): (r: Option<Measure>)
    ensures r == Some(ByCharacters) <==> mode == "caracteres"
    ensures r == Some(ByWords) <==> mode == "mots"
  {
    if mode == "caracteres" then Some(ByCharacters)
    else if mode == "mots" then Some(ByWords)
    else None
  }

  /** `len(contenu.split())`: the number of words of a content. */
  function WordCount(content: string): (n: nat)
    ensures n == RunStarts(content, true)
    ensures n <= |content|
  {
    WordsCount(content);
    WordsAtMostChars(content);
    |Words(content)|
  }

  /** The weight of a content under a valid mode: its length, or its number of words. */
  function Measured(m: Measure, content: string): nat
  {
    match m
    case ByCharacters => |content|
    case ByWords => WordCount(content)
  }

  /**
   * A file's weight as lines 29-34 compute it: its length in `caracteres`
   * mode, its number of words in `mots` mode; any other mode is an error.
   */
  function Weight(mode: string, content: string): (r: Result<nat, ScanError>)
    ensures r.Failure? <==> ParseMode(mode).None?
    ensures r.Failure? ==> r.error == InvalidMode
    ensures mode == "caracteres" ==> r.value == |content|
    ensures mode == "mots" ==> r.value == RunStarts(content, true) <= |content|
  {
    match ParseMode(mode)
    case None => Failure(InvalidMode)
    case Some(m) => Success(Measured(m, content))
  }

  /** In `mots` mode an empty or all-whitespace content weighs nothing, and only such a content. */
  lemma BlankWeighsNothing(content: string)
    ensures Weight("mots", content).value == 0 <==> forall i :: 0 <= i < |content| ==> IsSpace(content[i])
  {
    NoWordsIffBlank(content);
  }

  /** The entry of the `fichiers` list a `.txt` entry contributes. */
  function CandidateOf(folder: string, m: Measure, e: Entry): Candidate
  {
    Candidate(JoinPath(folder, e.name), Measured(m, e.content))
  }

  /** The number of `.txt` entries of `es`. */
  function TxtCount(es: seq<Entry>): nat
  {
    if es == [] then 0
    else TxtCount(es[..|es| - 1]) + (if IsTxt(es[|es| - 1].name) then 1 else 0)
  }

  /** The genres of the `.txt` entries of `es`. */
  function GenresOf(es: seq<Entry>): set<string>
  {
    if es == [] then {}
    else GenresOf(es[..|es| - 1]) + (if IsTxt(es[|es| - 1].name) then {Genre(es[|es| - 1].name)} else {})
  }

  /** The `fichiers` list of genre `g`: its `.txt` entries, in the order they were listed. */
  function FilesOfGenre(folder: string, es: seq<Entry>, m: Measure, g: string): seq<Candidate>
  {
    if es == [] then []
    else
      var e := es[|es| - 1];
      FilesOfGenre(folder, es[..|es| - 1], m, g)
        + (if IsTxt(e.name) && Genre(e.name) == g then [CandidateOf(folder, m, e)] else [])
  }

  /** `somme`: the sum of the weights of a `fichiers` list. */
  function TotalWeight(fs: seq<Candidate>): nat
  {
    if fs == [] then 0 else TotalWeight(fs[..|fs| - 1]) + fs[|fs| - 1].weight
  }

  /**
   * The scan loop. It fails with `InvalidMode` exactly when the mode is
   * invalid and some `.txt` entry is listed (the mode is only looked at when
   * a `.txt` entry is read). Otherwise `genres` is the key set of the table,
   * and each genre's record holds the `.txt` entries of that genre in order,
   * with `somme` the sum of their weights.
   */
  method Scan(folder: string, entries: seq<Entry>, mode: string) returns (r: Result<Pool, ScanError>)
    ensures r.Failure? <==> ParseMode(mode).None? && TxtCount(entries) > 0
    ensures r.Failure? ==> r.error == InvalidMode
    ensures r.Success? ==> r.value.genres == GenresOf(entries) && r.value.table.Keys == r.value.genres
    ensures r.Success? && ParseMode(mode).Some? ==>
      forall g :: g in r.value.table ==>
        r.value.table[g].files == FilesOfGenre(folder, entries, ParseMode(mode).value, g)
        && r.value.table[g].total == TotalWeight(r.value.table[g].files)
    ensures r.Success? && ParseMode(mode).Some? ==> r.value.table == Table(folder, entries, ParseMode(mode).value)
  {
    var genres: set<string> := {};
    var table: map<string, GenreFiles> := map[];
    var i := 0;
    while i < |entries|
      invariant 0 <= i <= |entries|
      invariant genres == table.Keys
      invariant ParseMode(mode).Some? ==> table == Table(folder, entries[..i], ParseMode(mode).value)
      invariant ParseMode(mode).None? ==> TxtCount(entries[..i]) == 0 && table == map[]
    {
      var e := entries[i];
      if IsTxt(e.name) {
        var genre := Genre(e.name);
        genres := genres + {genre};
        var w := Weight(mode, e.content);
        if w.Failure? {
          TxtCountPrefix(entries, i + 1);
          return Failure(InvalidMode);
        }
        var path := JoinPath(folder, e.name);
        table := AddCandidate(table, genre, Candidate(path, w.value));
      }
      if ParseMode(mode).Some? {
        ScanStep(folder, entries, i, ParseMode(mode).value);
      } else {
        SnocCounts(entries[..i], e);
        assert entries[..i + 1] == entries[..i] + [e];
      }
      i := i + 1;
    }
    assert entries[..i] == entries;
    NoGenresIffNoTxt(entries);
    return Success(Pool(genres, table));
  }

  /** Iteration `i` of the scan loop, stated on the prefixes before and after it. */
  lemma ScanStep(folder: string, es: seq<Entry>, i: nat, m: Measure)
    requires i < |es|
    ensures Table(folder, es[..i + 1], m) ==
      (if IsTxt(es[i].name) then AddCandidate(Table(folder, es[..i], m), Genre(es[i].name), CandidateOf(folder, m, es[i]))
       else Table(folder, es[..i], m))
  {
    assert es[..i + 1] == es[..i] + [es[i]];
    if IsTxt(es[i].name) {
      TableSnocTxt(folder, es[..i], es[i], m);
    } else {
      TableSnocOther(folder, es[..i], es[i], m);
    }
  }

  /** The table after scanning `es`: one record per genre, as the loop keeps it. */
  function Table(folder: string, es: seq<Entry>, m: Measure): (t: map<string, GenreFiles>)
  {
    map g | g in GenresOf(es) :: GenreFiles(FilesOfGenre(folder, es, m, g), TotalWeight(FilesOfGenre(folder, es, m, g)))
  }

  /** Lines 36-40 of the scan: append `c` to genre `g`'s record, creating an empty record first if there is none. */
  function AddCandidate(t: map<string, GenreFiles>, g: string, c: Candidate): (r: map<string, GenreFiles>)
    ensures r.Keys == t.Keys + {g}
  {
    var rec := if g in t then t[g] else GenreFiles([], 0);
    t[g := GenreFiles(rec.files + [c], rec.total + c.weight)]
  }

  /** One loop iteration on a `.txt` entry: it extends its genre's record, creating the record if needed. */
  lemma TableSnocTxt(folder: string, es: seq<Entry>, e: Entry, m: Measure)
    requires IsTxt(e.name)
    ensures Table(folder, es + [e], m) == AddCandidate(Table(folder, es, m), Genre(e.name), CandidateOf(folder, m, e))
  {
    var t' := Table(folder, es + [e], m);
    var u := AddCandidate(Table(folder, es, m), Genre(e.name), CandidateOf(folder, m, e));
    TableSnocKeys(folder, es, e, m);
    TableSnocValues(folder, es, e, m);
    SameTable(t', u);
  }

  lemma SameTable(a: map<string, GenreFiles>, b: map<string, GenreFiles>)
    requires a.Keys == b.Keys && forall h :: h in b ==> h in a && a[h] == b[h]
    ensures a == b
  {
  }

  lemma TableSnocKeys(folder: string, es: seq<Entry>, e: Entry, m: Measure)
    requires IsTxt(e.name)
    ensures Table(folder, es + [e], m).Keys == AddCandidate(Table(folder, es, m), Genre(e.name), CandidateOf(folder, m, e)).Keys
  {
    SnocCounts(es, e);
  }

  lemma TableSnocValues(folder: string, es: seq<Entry>, e: Entry, m: Measure)
    requires IsTxt(e.name)
    ensures
      var t', u := Table(folder, es + [e], m), AddCandidate(Table(folder, es, m), Genre(e.name), CandidateOf(folder, m, e));
      forall h :: h in u ==> h in t' && t'[h] == u[h]
  {
    var t', u := Table(folder, es + [e], m), AddCandidate(Table(folder, es, m), Genre(e.name), CandidateOf(folder, m, e));
    forall h | h in u ensures h in t' && t'[h] == u[h] {
      TableSnocAt(folder, es, e, m, h);
    }
  }

  lemma TableSnocAt(folder: string, es: seq<Entry>, e: Entry, m: Measure, h: string)
    requires IsTxt(e.name) && h in GenresOf(es) + {Genre(e.name)}
    ensures h in Table(folder, es + [e], m)
    ensures Table(folder, es + [e], m)[h] == AddCandidate(Table(folder, es, m), Genre(e.name), CandidateOf(folder, m, e))[h]
  {
    if h == Genre(e.name) {
      SnocCounts(es, e);
      TableSnocAtOwnGenre(folder, es, e, m);
    } else {
      TableSnocAtOther(folder, es, e, m, h);
    }
  }

  lemma TableSnocAtOther(folder: string, es: seq<Entry>, e: Entry, m: Measure, h: string)
    requires IsTxt(e.name) && h in GenresOf(es) && h != Genre(e.name)
    ensures h in Table(folder, es + [e], m)
    ensures Table(folder, es + [e], m)[h] == Table(folder, es, m)[h]
  {
    SnocCounts(es, e);
    assert h in GenresOf(es + [e]);
    SnocFiles(folder, es, e, m, h);
    assert FilesOfGenre(folder, es + [e], m, h) == FilesOfGenre(folder, es, m, h);
  }

  lemma TableSnocAtOwnGenre(folder: string, es: seq<Entry>, e: Entry, m: Measure)
    requires IsTxt(e.name)
    ensures Genre(e.name) in GenresOf(es + [e])
    ensures
      var t, g, c := Table(folder, es, m), Genre(e.name), CandidateOf(folder, m, e);
      var rec := if g in t then t[g] else GenreFiles([], 0);
      FilesOfGenre(folder, es + [e], m, g) == rec.files + [c]
      && TotalWeight(rec.files + [c]) == rec.total + c.weight
  {
    SnocCounts(es, e);
    var t, g, c := Table(folder, es, m), Genre(e.name), CandidateOf(folder, m, e);
    SnocFiles(folder, es, e, m, g);
    var rec := if g in t then t[g] else GenreFiles([], 0);
    if g !in t {
      FilesNonEmptyIff(folder, es, m, g);
    }
    var fs := rec.files + [c];
    assert fs[..|fs| - 1] == rec.files;
  }

  /** One loop iteration on any other entry: the table is unchanged. */
  lemma TableSnocOther(folder: string, es: seq<Entry>, e: Entry, m: Measure)
    requires !IsTxt(e.name)
    ensures Table(folder, es + [e], m) == Table(folder, es, m)
  {
    SnocCounts(es, e);
    var t, t' := Table(folder, es, m), Table(folder, es + [e], m);
    assert t'.Keys == t.Keys;
    forall g | g in t ensures t'[g] == t[g] {
      SnocFiles(folder, es, e, m, g);
    }
  }

  /** What one more listed entry does to the count of `.txt` entries and to the genres. */
  lemma SnocCounts(es: seq<Entry>, e: Entry)
    ensures TxtCount(es + [e]) == TxtCount(es) + (if IsTxt(e.name) then 1 else 0)
    ensures GenresOf(es + [e]) == GenresOf(es) + (if IsTxt(e.name) then {Genre(e.name)} else {})
  {
    assert (es + [e])[..|es|] == es;
  }

  /** What one more listed entry does to genre `g`'s list. */
  lemma SnocFiles(folder: string, es: seq<Entry>, e: Entry, m: Measure, g: string)
    ensures FilesOfGenre(folder, es + [e], m, g)
      == FilesOfGenre(folder, es, m, g) + (if IsTxt(e.name) && Genre(e.name) == g then [CandidateOf(folder, m, e)] else [])
  {
    assert (es + [e])[..|es|] == es;
  }

  lemma {:induction false} TxtCountPrefix(es: seq<Entry>, k: nat)
    requires k <= |es|
    ensures TxtCount(es[..k]) <= TxtCount(es)
    decreases |es|
  {
    if k < |es| {
      TxtCountPrefix(es[..|es| - 1], k);
      assert es[..|es| - 1][..k] == es[..k];
    } else {
      assert es[..k] == es;
    }
  }

  /** A genre is present exactly when some `.txt` entry carries it. */
  lemma {:induction false} GenresOfIff(es: seq<Entry>, g: string)
    ensures g in GenresOf(es) <==> exists i :: 0 <= i < |es| && IsTxt(es[i].name) && Genre(es[i].name) == g
  {
    if es != [] {
      var init := es[..|es| - 1];
      GenresOfIff(init, g);
      assert forall i :: 0 <= i < |init| ==> init[i] == es[i];
      if exists i :: 0 <= i < |es| && IsTxt(es[i].name) && Genre(es[i].name) == g {
        var i :| 0 <= i < |es| && IsTxt(es[i].name) && Genre(es[i].name) == g;
        if i < |init| {
          assert init[i] == es[i];
        }
      }
    }
  }

  /** There are no genres exactly when there are no `.txt` entries. */
  lemma {:induction false} NoGenresIffNoTxt(es: seq<Entry>)
    ensures GenresOf(es) == {} <==> TxtCount(es) == 0
  {
    if es != [] {
      NoGenresIffNoTxt(es[..|es| - 1]);
    }
  }

  /** No genre of the table has an empty `fichiers` list, and only genres of the table have entries. */
  lemma {:induction false} FilesNonEmptyIff(folder: string, es: seq<Entry>, m: Measure, g: string)
    ensures FilesOfGenre(folder, es, m, g) != [] <==> g in GenresOf(es)
  {
    if es != [] {
      FilesNonEmptyIff(folder, es[..|es| - 1], m, g);
    }
  }

  /** Every `.txt` entry is filed in its own genre's list. */
  lemma {:induction false} TxtEntryFiled(folder: string, es: seq<Entry>, m: Measure, i: nat)
    requires i < |es| && IsTxt(es[i].name)
    ensures CandidateOf(folder, m, es[i]) in FilesOfGenre(folder, es, m, Genre(es[i].name))
  {
    var init, e := es[..|es| - 1], es[|es| - 1];
    assert es == init + [e];
    SnocFiles(folder, init, e, m, Genre(es[i].name));
    if i < |init| {
      assert init[i] == es[i];
      TxtEntryFiled(folder, init, m, i);
    }
  }

  /** Every entry of genre `g`'s list comes from a `.txt` entry of genre `g`. */
  lemma {:induction false} FiledFromTxtEntry(folder: string, es: seq<Entry>, m: Measure, g: string, k: nat)
    requires k < |FilesOfGenre(folder, es, m, g)|
    ensures exists i :: (0 <= i < |es| && IsTxt(es[i].name) && Genre(es[i].name) == g
                         && FilesOfGenre(folder, es, m, g)[k] == CandidateOf(folder, m, es[i]))
  {
    var init, e := es[..|es| - 1], es[|es| - 1];
    var fs, fs0 := FilesOfGenre(folder, es, m, g), FilesOfGenre(folder, init, m, g);
    if k < |fs0| {
      FiledFromTxtEntry(folder, init, m, g, k);
      var i :| 0 <= i < |init| && IsTxt(init[i].name) && Genre(init[i].name) == g && fs0[k] == CandidateOf(folder, m, init[i]);
      assert init[i] == es[i] && fs[k] == fs0[k];
    } else {
      var i := |es| - 1;
      assert IsTxt(es[i].name) && Genre(es[i].name) == g && fs[k] == CandidateOf(folder, m, es[i]);
    }
  }

  /** The length of each genre's `fichiers` list. */
  function ListLengths(folder: string, es: seq<Entry>, m: Measure): map<string, nat>
  {
    map g | g in GenresOf(es) :: |FilesOfGenre(folder, es, m, g)|
  }

  /** Across all genres, the `fichiers` lists hold one entry per `.txt` entry. */
  lemma {:induction false} FileCount(folder: string, es: seq<Entry>, m: Measure)
    ensures SumOver(ListLengths(folder, es, m), GenresOf(es)) == TxtCount(es)
  {
    if es != [] {
      FileCount(folder, es[..|es| - 1], m);
      if IsTxt(es[|es| - 1].name) {
        FileCountTxtStep(folder, es, m);
      } else {
        FileCountOtherStep(folder, es, m);
      }
    }
  }

  /** The lists of the genres other than `g` do not change when an entry of genre `g` is listed. */
  lemma OtherListsKept(folder: string, es: seq<Entry>, m: Measure, g: string)
    requires es != [] && IsTxt(es[|es| - 1].name) && Genre(es[|es| - 1].name) == g
    ensures GenresOf(es) - {g} == GenresOf(es[..|es| - 1]) - {g}
    ensures SumOver(ListLengths(folder, es, m), GenresOf(es) - {g})
         == SumOver(ListLengths(folder, es[..|es| - 1], m), GenresOf(es[..|es| - 1]) - {g})
  {
    var init := es[..|es| - 1];
    var n, n0 := ListLengths(folder, es, m), ListLengths(folder, init, m);
    var gs0 := GenresOf(init) - {g};
    forall h | h in gs0 ensures n[h] == n0[h] {
      assert FilesOfGenre(folder, es, m, h) == FilesOfGenre(folder, init, m, h);
    }
    SumOverAgree(n, n0, gs0);
  }

  lemma FileCountTxtStep(folder: string, es: seq<Entry>, m: Measure)
    requires es != [] && IsTxt(es[|es| - 1].name)
    ensures SumOver(ListLengths(folder, es, m), GenresOf(es))
         == SumOver(ListLengths(folder, es[..|es| - 1], m), GenresOf(es[..|es| - 1])) + 1
  {
    var init, g := es[..|es| - 1], Genre(es[|es| - 1].name);
    var n, n0 := ListLengths(folder, es, m), ListLengths(folder, init, m);
    var gs, gs0 := GenresOf(es), GenresOf(init);
    assert g in gs;
    OtherListsKept(folder, es, m, g);
    assert n[g] == |FilesOfGenre(folder, init, m, g)| + 1;
    SumOverRemove(n, gs, g);
    if g in gs0 {
      SumOverRemove(n0, gs0, g);
    } else {
      FilesNonEmptyIff(folder, init, m, g);
      assert gs0 - {g} == gs0;
    }
  }

  lemma FileCountOtherStep(folder: string, es: seq<Entry>, m: Measure)
    requires es != [] && !IsTxt(es[|es| - 1].name)
    ensures SumOver(ListLengths(folder, es, m), GenresOf(es))
         == SumOver(ListLengths(folder, es[..|es| - 1], m), GenresOf(es[..|es| - 1]))
  {
    var init := es[..|es| - 1];
    var n, n0 := ListLengths(folder, es, m), ListLengths(folder, init, m);
    var gs0 := GenresOf(init);
    assert GenresOf(es) == gs0 && TxtCount(es) == TxtCount(init);
    forall h | h in gs0 ensures n[h] == n0[h] {
      assert FilesOfGenre(folder, es, m, h) == FilesOfGenre(folder, init, m, h);
    }
    SumOverAgree(n, n0, gs0);
  }

  /** An entry whose name does not end in `.txt`, wherever it is listed, changes neither the genres nor any list. */
  lemma OnlyTxtContributes(folder: string, m: Measure, before: seq<Entry>, e: Entry, after: seq<Entry>, g: string)
    requires !IsTxt(e.name)
    ensures GenresOf(before + [e] + after) == GenresOf(before + after)
    ensures FilesOfGenre(folder, before + [e] + after, m, g) == FilesOfGenre(folder, before + after, m, g)
  {
    OtherKeepsGenres(before, e, after);
    OtherKeepsFiles(folder, m, before, e, after, g);
  }

  lemma {:induction false} OtherKeepsGenres(before: seq<Entry>, e: Entry, after: seq<Entry>)
    requires !IsTxt(e.name)
    ensures GenresOf(before + [e] + after) == GenresOf(before + after)
    decreases |after|
  {
    if after == [] {
      assert before + [e] + after == before + [e] && before + after == before;
      SnocCounts(before, e);
    } else {
      var init, last := after[..|after| - 1], after[|after| - 1];
      OtherKeepsGenres(before, e, init);
      assert before + [e] + after == (before + [e] + init) + [last];
      assert before + after == (before + init) + [last];
      SnocCounts(before + [e] + init, last);
      SnocCounts(before + init, last);
    }
  }

  lemma OtherKeepsFiles(folder: string, m: Measure, before: seq<Entry>, e: Entry, after: seq<Entry>, g: string)
    requires !IsTxt(e.name)
    ensures FilesOfGenre(folder, before + [e] + after, m, g) == FilesOfGenre(folder, before + after, m, g)
  {
    FilesAppend(folder, before + [e], after, m, g);
    SnocFiles(folder, before, e, m, g);
    FilesAppend(folder, before, after, m, g);
  }

  /** The list of a genre over two listings one after the other is the two lists one after the other. */
  lemma {:induction false} FilesAppend(folder: string, a: seq<Entry>, b: seq<Entry>, m: Measure, g: string)
    ensures FilesOfGenre(folder, a + b, m, g) == FilesOfGenre(folder, a, m, g) + FilesOfGenre(folder, b, m, g)
    decreases |b|
  {
    if b == [] {
      assert a + b == a;
    } else {
      var init, last := b[..|b| - 1], b[|b| - 1];
      assert b == init + [last];
      assert a + b == (a + init) + [last];
      FilesAppend(folder, a, init, m, g);
      SnocFiles(folder, a + init, last, m, g);
      SnocFiles(folder, init, last, m, g);
    }
  }
}
