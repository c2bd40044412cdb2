# Balanced corpus selection by 0/1 optimisation

`select_files_by_optimization` (Optimisation.py) builds a balanced corpus out of a
folder of novels. Each file is named `<genre>_<rest>.txt`. The function works in four steps:

1. It reads every `.txt` file and weighs it. The weight is the number of characters in
   mode `'caracteres'` and the number of whitespace-separated words in mode `'mots'`.
2. It groups the files by genre. The genre is the part of the name before the first `_`.
   Each genre keeps a list of `(path, weight)` pairs, in the order the files were
   listed, plus the running sum `somme`.
3. It poses a linear program to the PuLP solver: one variable between 0 and 1 per file,
   maximise the number of files chosen, and keep every genre's chosen weight within
   `target_sum_per_genre`. The comment at line 45 asks for binary variables, but line 46
   passes the function `LpVariable.isInteger` where PuLP expects the variable category,
   so the variables are continuous. A file is then chosen when its value exceeds 0.5.
4. It copies every chosen file into `data/corpus_balanced_optimized/` under its own
   base name.

Besides `Wrappers` (the `Option` and `Result` types), the model has six modules:

- `Text` holds the string functions the scan uses: `str.isspace`, `str.split()` with
  its word count, the genre prefix, `os.path.join` and `os.path.basename`.
- `Sums` holds a sum over a finite set of genres.
- `Corpus` holds the weight of a file and the scan loop. `Corpus.Scan` is a method
  whose loop updates the genre set and the per-genre table step by step. It is proved
  against the declarative functions `GenresOf`, `FilesOfGenre` and `TotalWeight` over
  the listed entries.
- `Knapsack` states one genre's problem in the intended 0/1 form (`Count`, `Load`, `Feasible`, `Optimal`). All
  values are 1 and each constraint covers one genre, so this is a unit-value 0/1
  knapsack. `Knapsack.SelectGenre` solves it by taking the lightest files first and is
  proved optimal.
- `Selection` states the whole problem over all genres at once. It proves that an
  overall optimum is the same thing as an optimum in every genre, and it solves the
  problem genre by genre. It then turns the chosen variables into the list of copies,
  and chains scan, solve and copy in `SelectFilesByOptimization`.
- `Relaxation` states one genre's problem as line 46 actually poses it, over real
  values, with the rounding of line 61. It proves that the rounded answer can exceed
  the capacity (see "## Findings").

The solver is not modelled. Its place is taken by the definition of an optimal 0/1
answer, together with a method proved to produce one. The input folder is modelled as the
sequence of `(name, content)` entries that `os.listdir` and `read` would give. The
result is the sequence of paths the function copies, in copy order; each path `p` is
copied to `Selection.CopyTarget(p)`.

## Model

| member | source | states |
|---|---|---|
| Text.IsSpace | Optimisation.py:32 | defines the characters `str.isspace()` accepts, the separators of `str.split()` with no argument: `\t` to `\r`, `\x1c` to space, and the Unicode spaces `\x85`, `\xa0`, `\u1680`, `\u2000`-`\u200a`, `\u2028`, `\u2029`, `\u202f`, `\u205f`, `\u3000` |
| Text.Genre | Optimisation.py:22 | the genre is a prefix of the name that holds no `_`, and it is followed by `_` unless it is the whole name (so a leading `_` gives the empty genre) |
| Text.GenreUnique | Optimisation.py:22 | any prefix with those three properties is the genre, so the genre is determined by them |
| Text.RunLength | Optimisation.py:32 | the first word of a string ends at the first whitespace character or at the end |
| Text.Words | Optimisation.py:32 | `str.split()` yields only non-empty words without whitespace |
| Text.WordsConcat | Optimisation.py:32 | the words, put back together, are exactly the non-whitespace characters of the string in order |
| Text.WordsCount | Optimisation.py:32 | the number of words equals the number of maximal runs of non-whitespace characters |
| Text.NoWordsIffBlank | Optimisation.py:32 | there are no words exactly when the string is empty or all whitespace |
| Text.WordsAtMostChars | Optimisation.py:32 | a string never has more words than characters |
| Text.JoinPath | Optimisation.py:26 | `os.path.join(folder, name)` ends with `name`; when `name` holds no `/` and something comes before it, a `/` comes just before it |
| Text.Basename | Optimisation.py:62 | `os.path.basename(p)` is the part of `p` after its last `/` |
| Text.BasenameOfJoin | Optimisation.py:26-62 | a file copied under the base name of its joined path keeps its own name |
| Corpus.IsTxt | Optimisation.py:21 | defines the filter of line 21: the name ends with `.txt` |
| Corpus.ParseMode | Optimisation.py:29-34 | exactly `'caracteres'` selects characters and exactly `'mots'` selects words; any other mode is rejected |
| Corpus.WordCount | Optimisation.py:32 | `len(contenu.split())` is the number of runs of non-whitespace characters, at most the length of the content |
| Corpus.Weight | Optimisation.py:29-34 | the weight is the length in mode `'caracteres'`, the number of word runs in mode `'mots'`, and an `InvalidMode` error exactly for any other mode |
| Corpus.Measured | Optimisation.py:29-32 | defines the weight under a valid mode: `len(contenu)` for characters, the word count for words |
| Corpus.CandidateOf | Optimisation.py:26-39 | defines the pair a `.txt` entry appends: its path joined to the folder, and its weight |
| Corpus.BlankWeighsNothing | Optimisation.py:32 | in mode `'mots'` a file weighs 0 exactly when it is empty or all whitespace |
| Corpus.GenresOf | Optimisation.py:20-23 | defines `genres` after a listing: the genres of its `.txt` entries |
| Corpus.FilesOfGenre | Optimisation.py:20-39 | defines a genre's `fichiers` list after a listing: the pairs of its `.txt` entries of that genre, in listing order |
| Corpus.TotalWeight | Optimisation.py:40 | defines `somme`: the sum of the weights of a `fichiers` list |
| Corpus.Table | Optimisation.py:20-40 | defines `caracteristiques_par_genre` after a listing: one record per genre of `genres`, holding `FilesOfGenre` and its `TotalWeight` |
| Corpus.Scan | Optimisation.py:14-40 | the scan fails exactly when the mode is invalid and at least one `.txt` file is listed. Otherwise the genre set is the key set of the table and is exactly the genres of the `.txt` files. Each genre's list holds that genre's `.txt` files in listing order, and its `somme` is the sum of their weights |
| Corpus.AddCandidate | Optimisation.py:36-40 | creating a missing record and then appending to it gives the table exactly the genres it had plus this one |
| Corpus.ScanStep | Optimisation.py:20-40 | one iteration takes the table of a prefix of the listing to the table of the next prefix |
| Corpus.TableSnocTxt | Optimisation.py:21-40 | a `.txt` entry appends its `(path, weight)` to its genre's record and adds its weight to `somme`; it creates the record if needed and changes no other genre |
| Corpus.TableSnocOther | Optimisation.py:21 | an entry whose name does not end in `.txt` leaves the table unchanged |
| Corpus.OnlyTxtContributes | Optimisation.py:21 | removing an entry whose name does not end in `.txt` from anywhere in the listing changes neither the genres nor any genre's list |
| Corpus.FilesAppend | Optimisation.py:20-39 | a genre's list over two listings one after the other is the first list followed by the second, so the scan keeps listing order |
| Corpus.SnocCounts | Optimisation.py:21-23 | one more entry adds one `.txt` file and its genre exactly when its name ends in `.txt` |
| Corpus.GenresOfIff | Optimisation.py:21-23 | a genre is in the set exactly when some listed `.txt` file has that genre |
| Corpus.NoGenresIffNoTxt | Optimisation.py:21-23 | the genre set is empty exactly when no `.txt` file is listed |
| Corpus.FilesNonEmptyIff | Optimisation.py:36-39 | a genre's list is non-empty exactly when the genre is in the set, so no genre has an empty list |
| Corpus.TxtEntryFiled | Optimisation.py:36-39 | every listed `.txt` file appears in its own genre's list |
| Corpus.FiledFromTxtEntry | Optimisation.py:36-39 | every element of a genre's list comes from a listed `.txt` file of that genre |
| Corpus.FileCount | Optimisation.py:36-39 | across all genres, the lists hold as many entries as there are listed `.txt` files |
| Corpus.TxtCountPrefix | Optimisation.py:20-21 | a prefix of the listing holds no more `.txt` files than the whole listing |
| Knapsack.Count | Optimisation.py:49 | defines one genre's share of the objective: the number of variables set |
| Knapsack.Load | Optimisation.py:53 | defines the left-hand side of a genre's constraint: the sum of the weights of the files whose variable is set |
| Knapsack.Feasible | Optimisation.py:53 | defines a genre's constraint: one variable per file, and the load at most the capacity |
| Knapsack.Optimal | Optimisation.py:46-53 | defines an optimum of one genre's 0/1 problem: feasible, and no feasible choice counts more |
| Knapsack.NothingChosen | Optimisation.py:49-53 | choosing no file gives count 0 and load 0 |
| Knapsack.CountAtMostLength | Optimisation.py:49 | a genre's count is at most its number of files, and equals it when all are chosen |
| Knapsack.ChooseOne | Optimisation.py:49-53 | setting one more variable adds 1 to the objective and that file's weight to the constraint sum |
| Knapsack.Split | Optimisation.py:49-53 | count and load add up over a split of the chosen files |
| Knapsack.Exchange | Optimisation.py:46-53 | when the lightest files are chosen, any choice of more files weighs at least as much as these plus the lightest file left out |
| Knapsack.StopIsOptimal | Optimisation.py:46-53 | holding the lightest files, when the lightest file left out no longer fits, is an optimal choice |
| Knapsack.FourFilesExample | Optimisation.py:46-53 | weights 50, 30, 40 and 10 under capacity 80: choosing the files of weight 30, 40 and 10 is optimal, with 3 files |
| Knapsack.Lightest | Optimisation.py:46-53 | finds the first of the lightest files not yet chosen, or reports that all are chosen |
| Knapsack.SelectGenre | Optimisation.py:46-53 | one genre's choice is feasible (within the capacity), and no feasible choice takes more files |
| Knapsack.OptimalIsMaximal | Optimisation.py:49-53 | an optimal choice cannot take any further file without exceeding the capacity |
| Knapsack.ZeroCapacity | Optimisation.py:49-53 | with capacity 0 an optimal choice takes exactly the files of weight 0 |
| Knapsack.OptimaAgreeOnCount | Optimisation.py:46-49 | every optimal choice takes the same number of files; ties change which files, never how many |
| Knapsack.CapacityMonotone | Optimisation.py:53 | raising the capacity never lowers the optimal number of files |
| Selection.Shaped | Optimisation.py:46 | defines the variables of line 46: one per file of every genre, indexed by genre and position |
| Selection.GlobalFeasible | Optimisation.py:52-53 | defines the constraints of lines 52-53: every genre's load within the capacity |
| Selection.Objective | Optimisation.py:49 | defines the objective of line 49: the sum over all genres of the variables set |
| Selection.GlobalOptimal | Optimisation.py:43-53 | defines what the problem of lines 43-53 asks for in its 0/1 form: feasible, with no feasible choice of a larger objective |
| Selection.PerGenreIsGlobal | Optimisation.py:46-53 | a choice that is optimal in every genre maximises the total objective under all the constraints |
| Selection.GlobalIsPerGenre | Optimisation.py:46-53 | a choice that maximises the total objective is optimal in every genre |
| Selection.ReplaceFeasible | Optimisation.py:52-53 | each constraint covers one genre, so replacing one genre's choice by another that fits keeps every constraint met |
| Selection.ReplaceObjective | Optimisation.py:49 | replacing one genre's choice changes the objective by exactly the difference of the two counts |
| Selection.InfeasibleWhenNegative | Optimisation.py:52-53 | with a negative capacity and at least one genre, no choice meets the constraints |
| Selection.Solve | Optimisation.py:43-56 | the problem is infeasible exactly when the capacity is negative and there is a genre; otherwise the returned choice meets every genre's constraint and maximises the number of files |
| Selection.Destination | Optimisation.py:9 | the destination folder `data/corpus_balanced_optimized/` |
| Selection.CopyTarget | Optimisation.py:62 | a file is copied into the destination folder, under the base name of its source path |
| Selection.Picked | Optimisation.py:60-61 | defines the paths one genre copies: those of the files whose variable is set, in list order |
| Selection.PickedCount | Optimisation.py:59-62 | a genre makes exactly as many copies as it has chosen files |
| Selection.PickedHas | Optimisation.py:60-62 | every chosen file of a genre is copied |
| Selection.PickedFrom | Optimisation.py:60-62 | every path a genre copies is the path of one of its chosen files |
| Selection.PickedMembers | Optimisation.py:59-62 | a genre copies a file exactly when its variable is set |
| Selection.CopyGenre | Optimisation.py:60-62 | the inner copy loop copies the chosen files of one genre, in list order |
| Selection.SelectedCopies | Optimisation.py:59-62 | the paths copied are exactly the paths of the chosen files over all genres, and their number is the objective |
| Selection.ObjectiveAtMostTxt | Optimisation.py:46-49 | no choice copies more files than there are listed `.txt` files |
| Selection.CopiedFromTxt | Optimisation.py:26-62 | every path copied is the path, in the source folder, of a listed `.txt` file |
| Selection.SelectFilesByOptimization | Optimisation.py:7-62 | the whole function: `InvalidMode` exactly when the mode is invalid and a `.txt` file is listed; `Infeasible` exactly when the mode is valid, a `.txt` file is listed and the capacity is negative. Otherwise the table is the grouping of the listing and the choice is optimal. The paths copied are exactly those of the chosen files, each the path of a listed `.txt` file, and there are no more of them than listed `.txt` files |
| Relaxation.RealCount | Optimisation.py:49 | defines the objective of line 49 over the continuous variables line 46 actually creates |
| Relaxation.RealLoad | Optimisation.py:53 | defines the left-hand side of a genre's constraint over continuous variables |
| Relaxation.RelaxedFeasible | Optimisation.py:46-53 | defines the genre's problem as posed: each variable between 0 and 1, and the load at most the capacity |
| Relaxation.RelaxedOptimal | Optimisation.py:46-56 | defines what the solver returns for that problem: a feasible point with no feasible point of larger objective |
| Relaxation.Rounded | Optimisation.py:61 | defines the test of line 61: a file is copied when its value exceeds 0.5 |
| Relaxation.Embedding | Optimisation.py:46-61 | a 0/1 choice read as reals has the same count and load, is feasible for the relaxation exactly when it is feasible, and the test of line 61 gives it back |
| Relaxation.RoundingExceedsCapacity | Optimisation.py:46-61 | with weights 3 and 5 and capacity 7, the relaxation's only optimum is (1, 0.8); line 61 copies both files, of weight 8, above the capacity |

## Left out

- File-system I/O is not modelled: `os.listdir`, `open` and `read`, `os.makedirs` and `shutil.copy` (lines 10-11, 20, 27-28, 62). The listing is a sequence of `(name, content)` entries. The copies are returned as the sequence of source paths; the target of each is `Selection.CopyTarget` of it.
- A name returned by `os.listdir` never holds a `/`. The model does not assume this of its entries, so `Text.BasenameOfJoin` states it as a precondition.
- The listing order of `os.listdir` depends on the operating system. The model takes the entries in the order given.
- Iteration over the `genres` set (lines 46-59) has no fixed order. `Selection.Solve` and `Selection.SelectedCopies` pick genres in an arbitrary order, and their contracts do not depend on it.
- The PuLP solver (`LpProblem`, `LpVariable`, `prob.solve()`, lines 43, 46, 56) is a foreign library. The model states what an optimal 0/1 answer is, and supplies `Knapsack.SelectGenre`, proved to meet it. When several optimal choices exist, the solver may return any of them. The model proves that every optimum takes the same number of files, but claims nothing about which files the solver picks.
- The solver's behaviour on an infeasible problem is not modelled. That case is a negative capacity with at least one genre. There the model returns `Infeasible` instead of copying whatever values the solver leaves behind.
- The float threshold `value() > 0.5` (line 61): outside `Relaxation`, each variable is a boolean.
- Selection.Solve: solves the 0/1 program the comment at line 45 intends, not the linear relaxation that line 46 poses with continuous variables. The rounded relaxation can choose more weight than the capacity (weights 3 and 5, capacity 7: both files are copied), which this member never does; `Relaxation.RoundingExceedsCapacity` exhibits the difference.
- Knapsack.SelectGenre: returns an optimum of the intended 0/1 problem of one genre, not the rounded optimum of its relaxation, for the same reason.
- Selection.SelectFilesByOptimization: copies the files of an optimal 0/1 choice, not those of the rounded relaxation, for the same reason. Its `mode` parameter is required: the default `mode='caracteres'` of line 7 is not modelled.
- The module-level parameters and the call at lines 64-74 are not modelled. Nor are the unused imports of `random` and `pandas`.
- Decoding of file contents in text mode, and the errors reading can raise, are not modelled. Content is a sequence of characters.
- `somme` (line 40) is computed and proved equal to the sum of the list, but the source never reads it afterwards.
- The mode is looked at only when a `.txt` file is read (lines 29-34). A folder with no `.txt` file and an invalid mode raises nothing; `Selection.SelectFilesByOptimization` models exactly that.
- The code rejects nothing else: it does not check for duplicate names, does not reject a negative `target_sum_per_genre` before solving, and fixes no tie-break among optimal choices. The model adds none of these.

## Findings

| source | as written | input that shows it | evidently intended | confidence | as-written member | corrected member |
|---|---|---|---|---|---|---|
| Optimisation.py:46 | `LpVariable.isInteger`, a function, is passed where PuLP takes the variable category, so the variables are continuous between 0 and 1, and line 61 rounds the relaxed optimum at 0.5 | one genre with weights 3 and 5, `target_sum_per_genre` 7: the relaxation's only optimum is (1, 0.8), both files are copied, and their weights sum to 8 | binary variables, as the comment at line 45 says, so that no genre's copied weight exceeds the target | not executed; relies on PuLP treating any category other than its integer constant as continuous | Relaxation.RoundingExceedsCapacity | Knapsack.SelectGenre |
