# oier-contest-compare, modelled in Dafny

The program compares two olympiad contests. It loads a table of competitors
(`OIer`), each with a map from contest name to the `(score, rank)` of that
participation. It selects the competitors who took part in both contests and
pairs their scores competitor by competitor. It then correlates the two score
lists with Pearson's and Spearman's coefficients. Spearman's coefficient is
Pearson's coefficient of the tie-averaged ranks.

This project models the comparison engine that `main.py` and `reader.py` both
contain. Lines 14-95 of the two files (the `OIer` class, `Data.__init__`, the
contest selection and the rank and correlation functions) are identical, so a
row below that cites one of the two files within those lines cites the other
as well. The files differ in `compare_contests`, where `reader.py` returns
early when the two contests share no competitor, in the plotting options, in
the command line, and in whether `numpy` is imported.

Modules, one per component:

- `Wrappers` (`wrappers.dfy`): `Option` and `Result`. Python exceptions
  become `Err` values.
- `PyText` (`pytext.dfy`): `str.split` on a one-character separator, and
  `int()` on text.
- `Ranking` (`ranking.dfy`): `discrete_compact_rank` (a function) and
  `discrete_average_rank` (a method with the source's two loops). The compact
  ranks are proved against positions among the sorted distinct values and
  the number of distinct smaller values; the average ranks against the
  counting functions `Less`/`Count` on the data.
- `Correlation` (`correlation.dfy`): `calc_spearman`.
- `Records` (`records.dfy`): `OIer.__init__`, `parse_records` (a loop proved
  against `DecodeRecords`) and `participated`.
- `Store` (`store.dfy`): class `Data` with field `oierTable`. It covers the
  row-loading loop of `Data.__init__`, `get_oiers_by_contest`, and the
  data-gathering half of `compare_contests` in both versions.

## Model

| member | source | states |
|---|---|---|
| `PyText.Split` | main.py:31 | splitting yields at least one part, and no part contains the separator |
| `PyText.JoinSplit` | main.py:31 | joining the parts of `s.split(sep)` with `sep` gives back `s` |
| `PyText.SplitJoin` | main.py:31 | splitting a join of separator-free parts gives back the parts |
| `PyText.ParseInt` | main.py:23-34 | `int()` as called on the gender, enrolment, contest id and rank fields: accepted text is non-empty and ends in a digit, a negative result comes only from a leading `-`, and a run of digits gives its decimal value |
| `PyText.ParseIntRoundTrip` | main.py:32 | `int()` of the decimal text of any integer, signed or not, is that integer |
| `Ranking.SortedDistinctSpec` | main.py:59 | `sorted(set(data))` is strictly increasing and holds exactly the values of `data` |
| `Ranking.SortedDistinctLength` | main.py:59 | the sorted distinct values are as many as the distinct values |
| `Ranking.PositionMap` | main.py:60 | the dict built with `enumerate(unique_data, 1)` maps the k-th sorted value to k+1 |
| `Ranking.PositionMapKeys` | main.py:60 | the keys of that dict are exactly the sorted distinct values, and nothing else |
| `Ranking.DiscreteCompactRank` | main.py:58-61 | output parallel to the input; `out[i]` lies in 1..k and is the position of `data[i]` among the sorted distinct values |
| `Ranking.CompactRankDense` | main.py:59-61 | every compact rank lies in 1..k (k distinct values), and each of 1..k occurs |
| `Ranking.CompactRankOrder` | reader.py:58-61 | `data[i] < data[j]` iff `out[i] < out[j]`, and `data[i] == data[j]` iff `out[i] == out[j]` |
| `Ranking.CompactRankCountsSmaller` | main.py:58-61 | the compact rank of a value is 1 + the number of distinct values below it |
| `Ranking.AverageRanks` | reader.py:64-79 | the tie-averaged ranks are parallel to the input |
| `Ranking.CountOccurrences` | main.py:67-69 | after the counting loop, `occurrence_count[v]` is the number of occurrences of each distinct `v` |
| `Ranking.LessFirstDistinct` | main.py:72 | `cumulative_rank` starts at 0, the number of values below the smallest distinct value |
| `Ranking.LessNextDistinct` | main.py:73-77 | adding the count of one distinct value gives the number of values below the next one; this is the loop invariant on `cumulative_rank` |
| `Ranking.LessLastDistinct` | reader.py:72-77 | after the last distinct value `cumulative_rank` equals `len(data)` |
| `Ranking.AssignAverageRanks` | main.py:71-77 | walking the sorted distinct values with `cumulative_rank`, each distinct `v` is mapped to (c+1 + c+m)/2, where c values lie below `v` and `v` occurs m times |
| `Ranking.DiscreteAverageRank` | main.py:64-79 | each occurrence of `v` gets rank c + (m+1)/2, where c values lie below `v` and `v` occurs m times (the midpoint rule) |
| `Ranking.AverageRankBounds` | main.py:64-79 | every average rank lies in [1, n] |
| `Ranking.AverageRankSingleton` | reader.py:64-79 | a one-element input gets rank 1 |
| `Ranking.AverageRankOrder` | main.py:73-79 | average ranks preserve `<` and `==` between the values, in both directions |
| `Ranking.AverageRankSum` | reader.py:64-79 | the average ranks of n values sum to n(n+1)/2, with or without ties |
| `Ranking.AverageRanksInvariant` | main.py:64-79 | relabelling the values by a strictly increasing map leaves the average ranks unchanged |
| `Correlation.CalcSpearman` | reader.py:92-95 | the result is `calc_pearson` applied to the average ranks of `x` and of `y` |
| `Correlation.SpearmanInvariant` | main.py:91-95 | Spearman's coefficient is unchanged under strictly increasing relabellings of either input |
| `Records.PyIndex` | main.py:35 | `contests[contest_id]` succeeds iff `-len(contests) <= contest_id < len(contests)`, and gives the id-th entry, negative ids counting from the end; otherwise IndexError |
| `Records.DecodeScore` | main.py:33 | an empty score field gives NaN; otherwise the value `float()` gives, and ValueError exactly when `float()` rejects the field |
| `Records.DecodeRank` | main.py:34 | an empty rank field gives -1; otherwise the value `int()` gives, and ValueError exactly when `int()` rejects the field |
| `Records.RankFieldRoundTrip` | main.py:34 | the rank field written as `str(rank)`, or left empty, decodes back to the rank, or to -1 |
| `Records.DecodeEntry` | main.py:32-35 | a decoded entry names a contest of the catalogue; decoding an entry never fails an assertion |
| `Records.DecodeEntryFields` | reader.py:31-36 | a non-integer contest id is a ValueError; a missing score or rank field an IndexError; a score `float()` rejects or a rank `int()` rejects a ValueError; an id outside `-len(contests)..len(contests)-1` an IndexError; a decoded entry names `contests[id]`, with NaN or `float(score)` and -1 or `int(rank)` |
| `Records.EntryRoundTrip` | reader.py:32-36 | decoding `id:_:score:rank[:extra]` gives `contests[id]` (negative ids counting from the end) with that score, and the rank or -1 |
| `Records.DecodeRecordsStore` | main.py:29-36 | the `records` dict is the result of storing the decoded entries in order |
| `Records.StoreEntriesErrStays` | main.py:31-36 | once an entry raises, the later entries change nothing |
| `Records.StoreEntriesOk` | main.py:31-36 | `parse_records` succeeds iff every entry decodes |
| `Records.StoreEntriesFirstError` | main.py:31-36 | a failure reports the error of the first entry that fails |
| `Records.StoreEntriesKeys` | main.py:35-36 | the keys of `records` are exactly the contest names of the entries |
| `Records.StoreEntriesLastWins` | main.py:36 | the value under a contest name is the one from the last entry with that name |
| `Records.DecodeRecordsEntries` | reader.py:28-36 | `parse_records` over the entry strings succeeds iff each entry decodes, and its keys are the names the entries decode to |
| `Records.ParseRecords` | main.py:28-36 | the loop over `raw_records.split("/")` leaves `records` as `DecodeRecords` of the entries, or raises its error |
| `Records.EmptyRecordsRejected` | main.py:31-32 | an empty participation string raises ValueError (`int("")`) |
| `Records.DecodeOIer` | main.py:20-26 | a decoded competitor comes from a row of at least 5 columns; its name is column 2, its gender code `int(column 3)` is -1, 0 or 1, and its enrolment year is `int(column 4)` |
| `Records.DecodeOIerChecks` | reader.py:20-26 | the exceptions in the order `__init__` reads the columns: fewer than 4 columns IndexError, non-integer gender ValueError, gender outside {-1, 0, 1} AssertionError, exactly 4 columns IndexError, non-integer year ValueError; past those, the competitor decodes iff `parse_records` succeeds on the last column, and keeps its records |
| `Records.ParticipatedIffEntry` | main.py:38-39 | `participated(name)` holds for a decoded competitor iff some entry of its participation column decodes to `name` |
| `Records.NewOIer` | main.py:20-26 | `OIer.__init__` reads the name, checks the gender code, reads the enrolment year and calls `parse_records` on the last column, in that order |
| `Store.TakeOkSpec` | main.py:51-52 | stopping at the first failure keeps the leading successes in order and reports the first error |
| `Store.DecodeRowsTakeOk` | main.py:51-52 | decoding the table is stopping at the first row that fails among the rows decoded one by one |
| `Store.DecodeRowsSpec` | main.py:51-52 | the loaded competitors are the decoded leading rows in order; a failure is the first failing row's error |
| `Store.Data.constructor` | main.py:43 | the table starts empty |
| `Store.Data.Load` | main.py:51-52 | each row's `OIer` is appended in order; a failing row stops loading and leaves the rows before it appended |
| `Store.Data.GetOiersByContest` | main.py:54-55 | index `i` is selected iff `i < len(oier_table)` and the competitor participated in the contest; at most `len(oier_table)` indices |
| `Store.Data.PairScores` | main.py:114-121 | visiting the target set in any order, position k of both score lists holds the scores of the same competitor; the competitors are exactly the target set, each once |
| `Store.Data.CompareContests` | main.py:105-121 | the two score lists have the size of `A ∩ B` and are aligned per competitor over `A ∩ B` |
| `Store.Data.CompareContestsChecked` | reader.py:97-118 | nothing is built iff `A ∩ B` is empty; otherwise the score lists are non-empty and aligned per competitor over `A ∩ B` |

## Left out

- `calc_pearson` (main.py:82-89) is floating-point arithmetic with `math.sqrt` and a division. It is a function parameter of `CalcSpearman`. Its `ZeroDivisionError` on an empty or zero-variance input is not modelled. That includes `main.py`'s `compare_contests` calling it on empty lists when the two contests share no competitor.
- `Store.Data.CompareContests` and `Store.Data.CompareContestsChecked` stop once the two score lists are built. The correlations of those lists (the scores may be NaN) and all plotting, figure text, `savefig` and `show` calls are not modelled.
- `float()` on a score field is the parameter `parseFloat`; `None` stands for its ValueError. A `Score` is NaN, a signed infinity or a finite value; which text `float()` accepts is left to `parseFloat`. The rank functions work on exact `real` values, so Python floats, NaN among ranked values and the rounding of `/ 2` are not modelled.
- `PyText.ParseInt` models `int()` as an optional sign followed by ASCII digits. `int()` also accepts surrounding whitespace, `_` between digits and non-ASCII digits; those inputs decode to `ValueError` in the model.
- `Data.__init__` opening and parsing `contests.json` and `result.txt` (main.py:45-50) is file I/O and CSV parsing. The rows and the catalogue of contest names are parameters of `Store.Data.Load`. A catalogue entry without a `"name"` key (a `KeyError`) is not modelled.
- `Store.Data.constructor`: `oier_table` is a class attribute shared by every `Data` instance (main.py:43). The model gives each instance its own table, starting empty.
- The message `reader.py`'s `compare_contests` prints before its early return (reader.py:103) is console output and is not modelled; `Store.Data.CompareContestsChecked` returns `None` there.
- The iteration order of the Python set in `compare_contests` is left arbitrary: `PairScores` may visit the target set in any order.
- `assert` statements vanish under `python -O`; the model always checks the gender code.
- The command line, `main()` and its exit codes (main.py:145-177, reader.py:134-147) are not modelled, and neither is `generate_samples.py`, which only shells out and post-processes images.
- The code has no polynomial trend fit (`--polyfit` is passed by `generate_samples.py` but never defined), and `main.py`'s `compare_contests` does not check for an empty overlap. The model follows the code.
