/**
 * The whole selection: the 0/1 problem lines 43-53 set out to pose over
 * every genre at once, its solution genre by genre, and the copies of lines
 * 59-62 that the chosen files turn into.
 */
module Selection {
  import opened Wrappers
  import opened Text
  import opened Sums
  import opened Corpus
  import opened Knapsack

  /** The weights of a genre's files, in list order. */
  function Weights(fs: seq<Candidate>): (w: seq<nat>)
    ensures |w| == |fs| && forall i :: 0 <= i < |fs| ==> w[i] == fs[i].weight
  {
    seq(|fs|, i requires 0 <= i < |fs| => fs[i].weight)
  }

  /** `x` holds one 0/1 variable per file of every genre, the variables line 46 indexes by genre and position. */
  predicate Shaped(table: map<string, GenreFiles>, x: map<string, seq<bool>>)
  {
    x.Keys == table.Keys && forall g :: g in x ==> |x[g]| == |table[g].files|
  }

  /** Every genre's chosen weight stays within the capacity (the constraints of lines 52-53). */
  predicate GlobalFeasible(table: map<string, GenreFiles>, cap: int, x: map<string, seq<bool>>)
  {
    x.Keys == table.Keys && forall g :: g in x ==> Feasible(Weights(table[g].files), cap, x[g])
  }

  ghost function Counts(x: map<string, seq<bool>>): map<string, nat>
  {
    map g | g in x :: Count(x[g])
  }

  /** The objective of line 49: the number of files chosen over all genres. */
  ghost function Objective(x: map<string, seq<bool>>): nat
  {
    SumOver(Counts(x), x.Keys)
  }

  /** What the solver is asked for: a feasible choice with the largest objective. */
  ghost predicate GlobalOptimal(table: map<string, GenreFiles>, cap: int, x: map<string, seq<bool>>)
  {
    GlobalFeasible(table, cap, x) &&
    forall y :: GlobalFeasible(table, cap, y) ==> Objective(y) <= Objective(x)
  }

  /** Each genre's choice is optimal for that genre's problem alone. */
  ghost predicate PerGenreOptimal(table: map<string, GenreFiles>, cap: int, x: map<string, seq<bool>>)
  {
    x.Keys == table.Keys && forall g :: g in x ==> Optimal(Weights(table[g].files), cap, x[g])
  }

  /** The constraints never mix genres, so optimal genre by genre is optimal overall. */
  lemma PerGenreIsGlobal(table: map<string, GenreFiles>, cap: int, x: map<string, seq<bool>>)
    requires PerGenreOptimal(table, cap, x)
    ensures GlobalOptimal(table, cap, x)
  {
    forall y | GlobalFeasible(table, cap, y) ensures Objective(y) <= Objective(x) {
      SumOverMono(Counts(y), Counts(x), x.Keys);
    }
  }

  /** Conversely, an overall optimum leaves no genre with room for a better choice. */
  lemma GlobalIsPerGenre(table: map<string, GenreFiles>, cap: int, x: map<string, seq<bool>>)
    requires GlobalOptimal(table, cap, x)
    ensures PerGenreOptimal(table, cap, x)
  {
    forall g, yg | g in x && Feasible(Weights(table[g].files), cap, yg)
      ensures Count(yg) <= Count(x[g])
    {
      ReplaceFeasible(table, cap, x, g, yg);
      ReplaceObjective(x, g, yg);
    }
  }

  /** Replacing one genre's choice by another feasible one keeps the whole choice feasible. */
  lemma ReplaceFeasible(table: map<string, GenreFiles>, cap: int, x: map<string, seq<bool>>, g: string, yg: seq<bool>)
    requires GlobalFeasible(table, cap, x) && g in x && Feasible(Weights(table[g].files), cap, yg)
    ensures GlobalFeasible(table, cap, x[g := yg])
  {
  }

  /** Replacing one genre's choice changes the objective by the difference of the two counts. */
  lemma ReplaceObjective(x: map<string, seq<bool>>, g: string, yg: seq<bool>)
    requires g in x
    ensures Objective(x[g := yg]) + Count(x[g]) == Objective(x) + Count(yg)
  {
    var y := x[g := yg];
    assert y.Keys == x.Keys;
    assert Counts(y) == Counts(x)[g := Count(yg)];
    SumOverUpdate(Counts(x), x.Keys, g, Count(yg));
  }

  /** With a negative capacity no genre can be satisfied, not even by choosing nothing. */
  lemma InfeasibleWhenNegative(table: map<string, GenreFiles>, cap: int, y: map<string, seq<bool>>)
    requires cap < 0 && table != map[]
    ensures !GlobalFeasible(table, cap, y)
  {
    if y.Keys == table.Keys {
      var g :| g in table;
      assert g in y;
    }
  }

  /**
   * Solves the whole problem, one genre at a time in no particular order.
   * `None` stands for the infeasible problem.
   */
  method Solve(table: map<string, GenreFiles>, cap: int) returns (r: Option<map<string, seq<bool>>>)
    ensures r.None? <==> cap < 0 && table != map[]
    ensures r.None? ==> forall y :: !GlobalFeasible(table, cap, y)
    ensures r.Some? ==> GlobalOptimal(table, cap, r.value)
  {
    if cap < 0 && table != map[] {
      forall y ensures !GlobalFeasible(table, cap, y) {
        InfeasibleWhenNegative(table, cap, y);
      }
      return None;
    }
    var x: map<string, seq<bool>> := map[];
    var todo := table.Keys;
    while todo != {}
      invariant todo <= table.Keys
      invariant x.Keys == table.Keys - todo
      invariant forall g :: g in x ==> Optimal(Weights(table[g].files), cap, x[g])
      decreases todo
    {
      var g :| g in todo;
      var xg := SelectGenre(Weights(table[g].files), cap);
      x := x[g := xg];
      todo := todo - {g};
    }
    PerGenreIsGlobal(table, cap, x);
    return Some(x);
  }

  /** The destination folder hard-coded at line 9. */
  const Destination: string := "data/corpus_balanced_optimized/"

  /** Where a chosen file is copied to: the destination folder, under the file's own base name. */
  function CopyTarget(source: string): (t: string)
    ensures Basename(t) == Basename(source)
    ensures Destination <= t
  {
    var b := Basename(source);
    BasenameOfJoin(Destination, b);
    JoinPath(Destination, b)
  }

  /** The paths copied for one genre: its chosen files, in list order. */
  function Picked(fs: seq<Candidate>, xg: seq<bool>): seq<string>
    requires |xg| == |fs|
  {
    if fs == [] then []
    else Picked(fs[..|fs| - 1], xg[..|xg| - 1]) + (if xg[|xg| - 1] then [fs[|fs| - 1].path] else [])
  }

  /** A genre makes exactly as many copies as it has chosen files. */
  lemma {:induction false} PickedCount(fs: seq<Candidate>, xg: seq<bool>)
    requires |xg| == |fs|
    ensures |Picked(fs, xg)| == Count(xg)
  {
    if fs != [] {
      PickedCount(fs[..|fs| - 1], xg[..|xg| - 1]);
    }
  }

  /** A chosen file is copied. */
  lemma {:induction false} PickedHas(fs: seq<Candidate>, xg: seq<bool>, i: nat)
    requires |xg| == |fs| && i < |fs| && xg[i]
    ensures fs[i].path in Picked(fs, xg)
  {
    var n := |fs| - 1;
    var ps, before := Picked(fs, xg), Picked(fs[..n], xg[..n]);
    if i < n {
      assert fs[..n][i] == fs[i] && xg[..n][i];
      PickedHas(fs[..n], xg[..n], i);
      assert before <= ps;
    } else {
      assert ps[|ps| - 1] == fs[i].path;
    }
  }

  /** Every copy comes from a chosen file. */
  lemma {:induction false} PickedFrom(fs: seq<Candidate>, xg: seq<bool>, k: nat)
    requires |xg| == |fs| && k < |Picked(fs, xg)|
    ensures exists i :: 0 <= i < |fs| && xg[i] && Picked(fs, xg)[k] == fs[i].path
  {
    var n := |fs| - 1;
    var ps, before := Picked(fs, xg), Picked(fs[..n], xg[..n]);
    if k < |before| {
      PickedFrom(fs[..n], xg[..n], k);
      var i :| 0 <= i < n && xg[..n][i] && before[k] == fs[..n][i].path;
      assert xg[i] && fs[..n][i] == fs[i] && ps[k] == before[k];
    } else {
      assert xg[n] && ps[k] == fs[n].path;
    }
  }

  /** One more file of the genre: its copy is added exactly when it is chosen. */
  lemma PickedSnoc(fs: seq<Candidate>, xg: seq<bool>, k: nat)
    requires |xg| == |fs| && k < |fs|
    ensures Picked(fs[..k + 1], xg[..k + 1])
         == Picked(fs[..k], xg[..k]) + (if xg[k] then [fs[k].path] else [])
  {
    assert fs[..k + 1][..k] == fs[..k] && xg[..k + 1][..k] == xg[..k];
  }

  /** A genre copies a file exactly when its variable is set. */
  lemma PickedMembers(fs: seq<Candidate>, xg: seq<bool>, p: string)
    requires |xg| == |fs|
    ensures p in Picked(fs, xg) <==> exists i :: 0 <= i < |fs| && xg[i] && p == fs[i].path
  {
    if p in Picked(fs, xg) {
      var k :| 0 <= k < |Picked(fs, xg)| && Picked(fs, xg)[k] == p;
      PickedFrom(fs, xg, k);
    }
    if exists i :: 0 <= i < |fs| && xg[i] && p == fs[i].path {
      var i :| 0 <= i < |fs| && xg[i] && p == fs[i].path;
      PickedHas(fs, xg, i);
    }
  }

  /** The inner loop of lines 60-62 for one genre. */
  method CopyGenre(fs: seq<Candidate>, xg: seq<bool>) returns (copied: seq<string>)
    requires |xg| == |fs|
    ensures copied == Picked(fs, xg)
  {
    copied := [];
    var k := 0;
    while k < |fs|
      invariant k <= |fs| && copied == Picked(fs[..k], xg[..k])
    {
      PickedSnoc(fs, xg, k);
      if xg[k] {
        copied := copied + [fs[k].path];
      }
      k := k + 1;
    }
    assert fs[..k] == fs && xg[..k] == xg;
  }

  /** `p` is the path of a chosen file of one of the genres `gs`. */
  ghost predicate Chosen(table: map<string, GenreFiles>, x: map<string, seq<bool>>, gs: set<string>, p: string)
  {
    exists g, i :: g in gs && g in table && g in x && 0 <= i < |x[g]| && i < |table[g].files| &&
      x[g][i] && p == table[g].files[i].path
  }

  lemma ChosenAdd(table: map<string, GenreFiles>, x: map<string, seq<bool>>, gs: set<string>, g: string, p: string)
    requires Shaped(table, x) && g in table
    ensures Chosen(table, x, gs + {g}, p) <==>
      Chosen(table, x, gs, p) || p in Picked(table[g].files, x[g])
  {
    var fs, xg := table[g].files, x[g];
    PickedMembers(fs, xg, p);
    if Chosen(table, x, gs + {g}, p) && !Chosen(table, x, gs, p) {
      var h, i :| h in gs + {g} && h in table && h in x && 0 <= i < |x[h]| && i < |table[h].files| &&
        x[h][i] && p == table[h].files[i].path;
      assert h == g;
    }
  }

  /**
   * Lines 59-62: the paths of the chosen files, in the order they are
   * copied, genre by genre in no particular order. Each path `p` is copied
   * to `CopyTarget(p)`. Exactly the chosen files are copied, once each.
   */
  method SelectedCopies(table: map<string, GenreFiles>, x: map<string, seq<bool>>) returns (copied: seq<string>)
    requires Shaped(table, x)
    ensures |copied| == Objective(x)
    ensures forall p :: p in copied <==> Chosen(table, x, table.Keys, p)
  {
    copied := [];
    var todo := table.Keys;
    while todo != {}
      invariant todo <= table.Keys
      invariant |copied| == SumOver(Counts(x), table.Keys - todo)
      invariant forall p :: p in copied <==> Chosen(table, x, table.Keys - todo, p)
      decreases todo
    {
      var g :| g in todo;
      var more := CopyGenre(table[g].files, x[g]);
      PickedCount(table[g].files, x[g]);
      SumOverAdd(Counts(x), table.Keys - todo, g);
      forall p ensures p in copied + more <==> Chosen(table, x, table.Keys - todo + {g}, p) {
        ChosenAdd(table, x, table.Keys - todo, g, p);
      }
      copied := copied + more;
      assert table.Keys - (todo - {g}) == table.Keys - todo + {g};
      todo := todo - {g};
    }
    assert table.Keys - todo == x.Keys;
  }

  /** A run never copies more files than the source folder lists `.txt` files. */
  lemma ObjectiveAtMostTxt(folder: string, es: seq<Entry>, m: Measure, x: map<string, seq<bool>>)
    requires Shaped(Table(folder, es, m), x)
    ensures Objective(x) <= TxtCount(es)
  {
    var t, lengths, counts := Table(folder, es, m), ListLengths(folder, es, m), Counts(x);
    assert x.Keys == GenresOf(es) == lengths.Keys == counts.Keys;
    forall g | g in x ensures counts[g] <= lengths[g] {
      CountAtMostLength(x[g]);
      assert |x[g]| == |t[g].files| == lengths[g];
    }
    SumOverMono(counts, lengths, x.Keys);
    FileCount(folder, es, m);
  }

  /** Every copy is of a listed `.txt` file, taken from its path in the source folder. */
  lemma CopiedFromTxt(folder: string, es: seq<Entry>, m: Measure, x: map<string, seq<bool>>, p: string)
    requires Shaped(Table(folder, es, m), x)
    requires Chosen(Table(folder, es, m), x, GenresOf(es), p)
    ensures exists i :: 0 <= i < |es| && IsTxt(es[i].name) && p == JoinPath(folder, es[i].name)
  {
    var t := Table(folder, es, m);
    var g, k :| g in GenresOf(es) && g in t && g in x && 0 <= k < |x[g]| && k < |t[g].files| &&
      x[g][k] && p == t[g].files[k].path;
    FiledFromTxtEntry(folder, es, m, g, k);
  }

  datatype SelectError = InvalidMode | Infeasible

  /** What a run produces: the grouped files, the chosen variables and the paths copied, each to its `CopyTarget`. */
  datatype Outcome = Outcome(pool: Pool, choice: map<string, seq<bool>>, copied: seq<string>)

  /**
   * `select_files_by_optimization`: group the files, solve the selection
   * problem and copy the chosen files.
   */
  method SelectFilesByOptimization(folder: string, entries: seq<Entry>, cap: int, mode: string)
    returns (r: Result<Outcome, SelectError>)
    ensures r == Failure(SelectError.InvalidMode) <==> ParseMode(mode).None? && TxtCount(entries) > 0
    ensures r == Failure(Infeasible) <==> ParseMode(mode).Some? && TxtCount(entries) > 0 && cap < 0
    ensures r.Success? ==>
      r.value.pool.genres == GenresOf(entries) && r.value.pool.table.Keys == GenresOf(entries) &&
      GlobalOptimal(r.value.pool.table, cap, r.value.choice)
    ensures r.Success? && ParseMode(mode).Some? ==>
      forall g :: g in r.value.pool.table ==>
        r.value.pool.table[g].files == FilesOfGenre(folder, entries, ParseMode(mode).value, g)
    ensures r.Success? ==> |r.value.copied| <= TxtCount(entries)
    ensures r.Success? ==>
      forall p :: p in r.value.copied ==>
        exists i :: 0 <= i < |entries| && IsTxt(entries[i].name) && p == JoinPath(folder, entries[i].name)
    ensures r.Success? ==>
      |r.value.copied| == Objective(r.value.choice) &&
      forall p :: p in r.value.copied <==> Chosen(r.value.pool.table, r.value.choice, r.value.pool.table.Keys, p)
  {
    var scanned := Scan(folder, entries, mode);
    if scanned.Failure? {
      return Failure(SelectError.InvalidMode);
    }
    var pool := scanned.value;
    NoGenresIffNoTxt(entries);
    var solved := Solve(pool.table, cap);
    if solved.None? {
      return Failure(Infeasible);
    }
    var x := solved.value;
    var copied := SelectedCopies(pool.table, x);
    if ParseMode(mode).Some? {
      var m := ParseMode(mode).value;
      ObjectiveAtMostTxt(folder, entries, m, x);
      forall p | p in copied
        ensures exists i :: 0 <= i < |entries| && IsTxt(entries[i].name) && p == JoinPath(folder, entries[i].name)
      {
        CopiedFromTxt(folder, entries, m, x, p);
      }
    }
    return Success(Outcome(pool, x, copied));
  }
}
