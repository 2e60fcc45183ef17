# Astronaut table join and category classifiers, in Dafny

This project models two parts of the CDC-2025 astronaut analysis.

The first is the record-linkage script `joiningTables.py`. It joins an astronaut database table
with a scraped astronaut table:

- Each table gets a `first_last` key built from its `Name` column: the first and last word of the
  name (`get_first_last_name`).
- Where a table has a `Birth Place` column, each birthplace is reduced to its last
  comma-separated segment, and a U.S. postal abbreviation is spelled out as the state's name
  (`extract_state_from_birth_place`).
- The tables are inner-joined on the key with the suffixes `_db` and `_scrape`.
- The key and the scraped name and gender are dropped, and the database name and gender take the
  plain labels.
- Every missing, empty or whitespace-only cell becomes `0`.

The second part is the two classifiers of `old_model.py`. `group_majors` maps a free-text
college major to one of 19 labels. `group_military_branches` maps a military branch to one of 7.
Both work through an ordered chain of case-insensitive substring tests.

Modules:

- `Wrappers`: `Option` and `Result`.
- `PyStr`: the Python string operations the code relies on: `isspace`, `strip()`, `split()`,
  `split(',')`, `upper()`, `lower()`, substring `in` and `str(int)`, over Dafny strings. Each
  is exact for what the script observes (see "Left out" for `upper()` and `lower()`) and has
  its own lemmas (`split()` is characterized completely).
- `Frame`: the part of a pandas DataFrame the script uses.
  - A `Table` value holds distinct column labels and positional rows, with `Cell = Missing | Str
    | Num`.
  - There are functions for column read and assignment, `drop`, `rename`, `merge`, `fillna` and
    `replace`.
  - The `DataFrame` class is the mutable object whose methods update its fields in place.
- `NameKey`: `get_first_last_name`.
- `BirthPlace`: `extract_state_from_birth_place`, with the 51-entry abbreviation table.
- `AstronautJoin`: the script as functions of the two input tables, with lemmas about the
  table it writes.
- `JoinScript`: the script as methods that update `DataFrame` objects in place. Each method is
  proved to leave its objects in the state the `AstronautJoin` function for that step describes.
- `Categories`: the two classifiers.
  - Each is written as the script's `if`/`elif` chain.
  - Each is also written as a rule list read by `Classify`, whose contract states that the
    first rule that matches wins.
  - A lemma shows that the two forms agree on every text.

The script's exceptions become `Failure` values.

- A missing `Name` column gives `KeyError("Name")`.
- Where pandas would create two columns with one label, the model gives `DuplicateLabels` (see
  "Left out").

`pd.merge` matches a null key with a null key (unlike SQL), and the model follows pandas: rows whose names give no key (missing or all-whitespace names) are
paired with each other. `PairsMatch` states which pairs the join keeps, and this case is
included.

Two points from the proofs:

- In `group_majors`, the term `'chemical'` of the Chemistry rule can never be what selects that
  rule. The Chemical Engineering rule, or one before it, always catches such text first
  (`ChemicalIsEngineering`, `ChemistryOnlyByName`).
- The number `0`, unlike the text `"0"`, is not caught by the `pd.isnull(x) or x == '0'` test.
  It is classified as "Other" and "Other Military" (`NumberIsOtherMajor`,
  `NumberIsOtherMilitary`).

## Model

| member | source | states |
|---|---|---|
| PyStr.IsSpace | joiningTables.py:22 | the characters Python's `isspace()` accepts: the whitespace that `split()` and `strip()` with no argument (and the regular expression `\s`) work with |
| PyStr.Split | joiningTables.py:22 | `split()` gives non-empty words without whitespace, and gives none exactly when the text is all whitespace |
| PyStr.SplitDecomposition | joiningTables.py:22 | every text is its `split()` words interleaved with whitespace gaps that are non-empty between words: nothing is lost or invented |
| PyStr.SplitWeave | joiningTables.py:22 | conversely, `split()` of any words separated by whitespace gives back exactly those words |
| PyStr.StripLeft | joiningTables.py:56 | `lstrip()` never lengthens the text; `StripLeftSuffix` gives its exact shape |
| PyStr.StripLeftSuffix | joiningTables.py:56 | `lstrip()` removes a prefix made only of whitespace, and what it leaves does not start with whitespace |
| PyStr.StripRight | joiningTables.py:56 | `rstrip()` never lengthens the text; `StripRightPrefix` gives its exact shape |
| PyStr.StripRightPrefix | joiningTables.py:56 | `rstrip()` removes a suffix made only of whitespace, and what it leaves does not end with whitespace |
| PyStr.Strip | joiningTables.py:56 | `strip()` is `lstrip()` then `rstrip()`, never longer than the text; `StripSlice` gives its exact shape |
| PyStr.StripSlice | joiningTables.py:56 | `strip()` gives a slice of the text with only whitespace before and after it, and the slice neither starts nor ends with whitespace |
| PyStr.StripEmpty | joiningTables.py:56 | `strip()` gives the empty string exactly when the text is all whitespace |
| PyStr.StripPadded | joiningTables.py:56 | `strip()` of a trimmed text padded with whitespace gives back that text |
| PyStr.StripIdempotent | joiningTables.py:56-60 | stripping twice (as lines 56 and 60 do) is stripping once |
| PyStr.SplitOn | joiningTables.py:56 | `split(',')` gives at least one piece, even for the empty text |
| PyStr.SplitOnPieces | joiningTables.py:56 | `split(',')` gives one piece more than there are commas, none of them holding a comma |
| PyStr.JoinSplitOn | joiningTables.py:56 | joining the `split(',')` pieces with commas gives the text back |
| PyStr.SplitOnJoin | joiningTables.py:56 | `split(',')` of comma-free pieces joined with commas gives the pieces back |
| PyStr.AfterLast | joiningTables.py:59-60 | the text after the last comma, which `parts[-1]` holds; `AfterLastSuffix` and `SplitOnLast` give its properties |
| PyStr.SplitOnLast | joiningTables.py:56-60 | the last `split(',')` piece is the text after the last comma |
| PyStr.AfterLastSuffix | joiningTables.py:56-60 | the text after the last comma is a comma-free suffix that follows a comma, and it is the whole text exactly when there is no comma |
| PyStr.Upper | joiningTables.py:62 | `upper()`: one character may grow into several ("ß" gives "SS"), never into none |
| PyStr.UpperOfLower | joiningTables.py:62 | `upper()` after ASCII lower-casing is `upper()` |
| PyStr.UpperIdempotent | joiningTables.py:62 | upper-casing twice is upper-casing once |
| PyStr.AsciiLower | old_model.py:28 | `lower()` on the ASCII capitals, the only characters whose lower-case form can take part in a match (also line 79) |
| PyStr.Contains | old_model.py:31 | Python's `term in text`; `ContainsIsSubstring` proves it is the substring relation |
| PyStr.ContainsIsSubstring | old_model.py:31 | `term in text` holds exactly when the term is a slice of the text |
| PyStr.MissingChar | old_model.py:31 | text that lacks a character of a term does not contain the term |
| PyStr.IntToString | old_model.py:28 | `str(n)` of an integer holds only digits and a minus sign |
| Frame.Column | joiningTables.py:77-78 | `df['Name']` gives the cells of the column, or `KeyError` exactly when there is no such column |
| Frame.Apply | joiningTables.py:77-78 | `apply(f)` gives `f` of each cell, in order |
| Frame.WithColumn | joiningTables.py:77-84 | column assignment overwrites an existing column where it stands or appends a new one, and leaves every other cell as it was |
| Frame.Without | joiningTables.py:91 | the labels left after a drop are exactly those not dropped, still distinct |
| Frame.DropColumns | joiningTables.py:91 | `drop(columns=...)` removes those labels and keeps every other cell under its label |
| Frame.RenameColumns | joiningTables.py:111 | `rename(columns=...)` changes only the labels found in the mapping, and the rows stay as they were |
| Frame.RenamedCells | joiningTables.py:111 | after a rename, each column's cells are found under its new label |
| Frame.MapCells | joiningTables.py:115-117 | a cell-wise `fillna`/`replace` applies the cell function to every cell, and the labels stay |
| Frame.FillCell | joiningTables.py:115 | `fillna(0)` on one cell: a missing cell becomes the value, any other is kept |
| Frame.ReplaceCell | joiningTables.py:116 | `replace('', 0)` on one cell: only an exact match is replaced |
| Frame.BlankCell | joiningTables.py:117 | the whitespace `replace` on one cell: an empty or all-whitespace string becomes the value, every other cell, string or not, is kept |
| Frame.MapCellsTwice | joiningTables.py:115-117 | two cell-wise passes are one pass of their composition |
| Frame.MatchesOf | joiningTables.py:88 | the right rows whose key equals a given key, each once, in increasing order |
| Frame.MatchingPairs | joiningTables.py:88 | the inner-join pairs: exactly the (left, right) row pairs with equal keys, each once, in lexicographic order |
| Frame.Merge | joiningTables.py:88 | `merge(..., how='inner', suffixes=...)` fails exactly when the suffixed labels clash; otherwise it has the left labels, the right labels other than the key, and one row per matching pair |
| Frame.MergeLeftCells | joiningTables.py:88 | each left column is in the merge under its possibly suffixed label, holding the left row's cell for every pair |
| Frame.MergeRightCells | joiningTables.py:88 | each right column other than the key is in the merge under its possibly suffixed label, holding the right row's cell for every pair |
| Frame.MergePairs | joiningTables.py:88 | every merged row pairs rows with equal keys, and every such pair gives a row |
| Frame.KeyInMerged | joiningTables.py:88-91 | the key column survives the merge under its own label, so the later drop of `first_last` is valid |
| Frame.DataFrame.constructor | joiningTables.py:88 | the joined object holds the merged table |
| Frame.DataFrame.Assign | joiningTables.py:77-84 | in place, the object becomes the table with the column assigned |
| Frame.DataFrame.Drop | joiningTables.py:91-101 | in place, the object becomes the table without the dropped columns |
| Frame.DataFrame.Rename | joiningTables.py:111 | in place, the object becomes the renamed table |
| Frame.DataFrame.Map | joiningTables.py:115-117 | the object becomes the table with every cell replaced cell-wise |
| NameKey.FirstLastName | joiningTables.py:16-31 | the key is None exactly when the cell is not a string or is empty or all whitespace; otherwise it is non-empty and neither starts nor ends with whitespace |
| NameKey.KeyOfParts | joiningTables.py:26-31 | the key of a word list is None exactly when there are no words, and never has whitespace at either end |
| NameKey.KeyCell | joiningTables.py:77-78 | the `first_last` cell is missing exactly when the key is None, and otherwise holds the key |
| NameKey.FirstLastOfWords | joiningTables.py:18-31 | for any name made of words and whitespace: no words give None, one word gives that word unchanged, more give the first and the last word with one space between them, whatever lies between |
| NameKey.SingleWord | joiningTables.py:28-29 | a single whitespace-free word is its own key, case and punctuation included |
| NameKey.TwoWords | joiningTables.py:26-27 | "first last" is its own key |
| NameKey.ThreeWords | joiningTables.py:26-27 | a middle word is dropped |
| NameKey.MiddleNameDropped | joiningTables.py:21-27 | "John Fitzgerald Kennedy" gives "John Kennedy" |
| NameKey.FirstLastIdempotent | joiningTables.py:22-31 | building the key again from a key gives the same key |
| BirthPlace.Abbreviations | joiningTables.py:40-52 | the script's table: the 50 state abbreviations and DC, each with its full name |
| BirthPlace.StateName | joiningTables.py:62-63 | a state name is found exactly when the upper-cased text is an abbreviation in the table, and it is that abbreviation's entry |
| BirthPlace.Spelled | joiningTables.py:62-72 | the full name for an abbreviation, the given fallback otherwise |
| BirthPlace.StripAll | joiningTables.py:56 | the list comprehension strips each piece and keeps the count |
| BirthPlace.ExtractState | joiningTables.py:34-37 | a cell that is not a string passes through untouched; a string is rewritten by `ExtractText` |
| BirthPlace.ExtractText | joiningTables.py:54-72 | with a comma, the result is the trimmed text after the last comma, or its state name when that text is an abbreviation in any case; without a comma, it is the state name when the trimmed text is an abbreviation, and otherwise the original text, untrimmed |
| BirthPlace.CityAndState | joiningTables.py:56-65 | "city,state" is decided by the state part alone, whatever the city holds |
| BirthPlace.ResultKinds | joiningTables.py:59-72 | every result is a value of the table, the trimmed text after the last comma, or the original text when there is no comma |
| BirthPlace.LookupIgnoresCase | joiningTables.py:62-70 | lower-casing the text does not change the state found |
| BirthPlace.Texas | joiningTables.py:40-70 | "TX" and "tx" are both spelled out as "Texas" |
| BirthPlace.StateAfterComma | joiningTables.py:56-63 | "Houston, TX", and any place followed by a comma and "TX" with any whitespace around it, becomes "Texas" |
| BirthPlace.LowerCaseAbbreviation | joiningTables.py:66-70 | a lower-case abbreviation alone, with any whitespace around it, is spelled out |
| BirthPlace.UnknownKeptUntrimmed | joiningTables.py:66-72 | without a comma, text that is no abbreviation comes back untrimmed, padding included |
| AstronautJoin.WithKey | joiningTables.py:77-129 | `KeyError` exactly when there is no `Name` column; otherwise the `first_last` column holds each row's key and nothing else changes |
| AstronautJoin.WithStates | joiningTables.py:81-84 | `Birth Place` cells are rewritten only where the column exists, and every other cell is kept |
| AstronautJoin.Prepare | joiningTables.py:77-84 | both preparation steps on one table: the key column, the rewritten birthplaces, the `KeyError` for a missing `Name` |
| AstronautJoin.ScrapeDrops | joiningTables.py:94-98 | exactly `Name_scrape` and `Gender_scrape`, each only when present |
| AstronautJoin.DbRenames | joiningTables.py:104-108 | exactly `Name_db` to `Name` and `Gender_db` to `Gender`, each only when present |
| AstronautJoin.DropStage | joiningTables.py:91-101 | the columns left are exactly those other than the key and the scraped name and gender, with their cells |
| AstronautJoin.RenameStage | joiningTables.py:103-111 | only the database name and gender are relabelled, and the rows are unchanged; a failure exactly when new labels would clash |
| AstronautJoin.CleanCell | joiningTables.py:115-117 | a missing, empty or whitespace-only cell becomes 0, and every other cell is unchanged |
| AstronautJoin.Cleanup | joiningTables.py:91-117 | the cleanup of the merged table keeps its row count and fails only on a label clash |
| AstronautJoin.CleanupShape | joiningTables.py:91-111 | after the cleanup, none of `first_last`, `Name_scrape`, `Gender_scrape`, `Name_db` and `Gender_db` is a label |
| AstronautJoin.CleanupFilled | joiningTables.py:113-117 | after the cleanup, no cell is missing, empty or whitespace-only |
| AstronautJoin.CleanupKeeps | joiningTables.py:91-117 | a column the cleanup does not name keeps its label, with each cell cleaned |
| AstronautJoin.CleanupRenames | joiningTables.py:104-117 | `Name_db` and `Gender_db` reappear as `Name` and `Gender`, with their cells cleaned |
| AstronautJoin.NameKeys | joiningTables.py:77-78 | the join keys of a table, row by row |
| AstronautJoin.Pairs | joiningTables.py:88 | the kept row pairs index rows of both tables |
| AstronautJoin.PairsMatch | joiningTables.py:77-88 | the join keeps exactly the (database row, scraped row) pairs whose name keys are equal, missing keys included, each once |
| AstronautJoin.PreparedKeys | joiningTables.py:77-84 | the prepared key column holds the keys of the original names, whatever the birthplace step does |
| AstronautJoin.JoinedPairs | joiningTables.py:77-88 | the merge of the prepared tables pairs the rows whose name keys agree |
| AstronautJoin.Pipeline | joiningTables.py:77-131 | the script's output table, or its error; on success both tables had `Name` and there is one row per kept pair |
| AstronautJoin.PipelineErrors | joiningTables.py:77-129 | the run ends with the `KeyError` for `Name` exactly when a table lacks `Name`; otherwise only a label clash can stop it |
| AstronautJoin.NameDbLabel | joiningTables.py:88-106 | the database name is labelled `Name_db` in the merge |
| AstronautJoin.GenderDbLabel | joiningTables.py:88-108 | the database gender is labelled `Gender_db` in the merge when the scraped table has a gender too |
| AstronautJoin.KeyedLabel | joiningTables.py:77-88 | the added key column changes no other label's suffix |
| AstronautJoin.JoinedLeftCells | joiningTables.py:88 | the merge holds each prepared database cell of a kept pair under the merged label |
| AstronautJoin.JoinedRightCells | joiningTables.py:88 | the merge holds each prepared scraped cell of a kept pair under the merged label |
| AstronautJoin.JoinedLeft | joiningTables.py:81-88 | each database column is in the merge under its output label, holding the prepared cells of each kept pair |
| AstronautJoin.JoinedRight | joiningTables.py:83-88 | each scraped column other than the key is in the merge under its output label, holding the prepared cells of each kept pair |
| AstronautJoin.PipelineJoined | joiningTables.py:88-117 | on success, the output is the cleanup of the merge of the prepared tables |
| AstronautJoin.PipelineShape | joiningTables.py:77-117 | the output has one row per kept pair, a `Name` column, none of the removed or renamed labels, and no missing, empty or whitespace-only cell |
| AstronautJoin.PipelineName | joiningTables.py:88-117 | row `k` of the output has the cleaned database name of the `k`-th kept pair |
| AstronautJoin.PipelineGender | joiningTables.py:88-117 | when both tables have `Gender`, row `k` of the output has the cleaned database gender of the `k`-th kept pair under `Gender` |
| AstronautJoin.PipelineLeftColumn | joiningTables.py:81-117 | any other database column reaches the output under its label (`_db` when shared), its cells cleaned, with birthplaces rewritten first |
| AstronautJoin.PipelineRightColumn | joiningTables.py:83-117 | any other scraped column reaches the output under its label (`_scrape` when shared), its cells cleaned, with birthplaces rewritten first |
| JoinScript.AddKey | joiningTables.py:77-78 | in place: the key column is added, or the object is left alone and false returned when there is no `Name` |
| JoinScript.RewriteStates | joiningTables.py:81-84 | in place: the object becomes `WithStates` of its old value |
| JoinScript.DropDuplicates | joiningTables.py:91-101 | `columns_to_drop` built by appends, then the in-place drops: the object becomes `DropStage` of its old value |
| JoinScript.RenameDb | joiningTables.py:103-111 | `column_renames` built key by key, then the in-place rename: the object becomes `RenameStage` of its old value, with false on a clash |
| JoinScript.FillZeros | joiningTables.py:115-117 | the three reassignments of the table leave every cell cleaned |
| JoinScript.CleanJoined | joiningTables.py:91-117 | the joined object becomes the `Cleanup` of its old value, with false exactly when the cleanup fails |
| JoinScript.PrepareTables | joiningTables.py:77-84 | both inputs updated in place as `Prepare` says, stopping at the first table without `Name` with the second untouched |
| JoinScript.JoinAstronauts | joiningTables.py:77-131 | the script on objects: a fresh joined object holding `Pipeline`'s table, or its error, with the inputs updated up to the failing step |
| Categories.ContainsAny | old_model.py:31 | `any(term in text for term in terms)`: some term of the list occurs in the text |
| Categories.FirstHit | old_model.py:31-72 | the index found is a rule from the starting one on |
| Categories.FirstHitIsFirst | old_model.py:31-72 | the rule found matches the text, and no earlier rule from the start does |
| Categories.Classify | old_model.py:31-72 | the label of some rule, or the fallback |
| Categories.FirstRuleWins | old_model.py:31-72 | the first rule that matches decides the label; with none, the fallback |
| Categories.Labels | old_model.py:24-92 | the labels a rule list can give include every rule's label and the fallback |
| Categories.ClassifyInLabels | old_model.py:24-92 | the classifier gives one of its labels |
| Categories.NoLetterNoRule | old_model.py:28-92 | text without a lower-case letter matches no rule whose terms open with a letter |
| Categories.LowerText | old_model.py:28 | `str(x).lower()` of a string or a number |
| Categories.NumberHasNoLetter | old_model.py:28 | the text of a number has no letter |
| Categories.MajorOfText | old_model.py:30-72 | the `group_majors` chain gives one of the 18 chain labels |
| Categories.GroupMajors | old_model.py:24-72 | the result is one of the 19 labels; "Unknown" exactly for a missing cell or the text "0"; otherwise the chain on the lower-cased text |
| Categories.MajorRules | old_model.py:30-72 | the 17 rules of `group_majors`, with their terms and labels in the script's order |
| Categories.MajorChainIsRules | old_model.py:30-72 | the `if`/`elif` chain and the ordered rule list agree on every text |
| Categories.MajorTermsAreWords | old_model.py:31-69 | every major term opens with a letter |
| Categories.NumberIsOtherMajor | old_model.py:25-72 | a number, 0 included, gives "Other" |
| Categories.EngineeringBeforeSciences | old_model.py:31-52 | any text with "engineering" is given an engineering label |
| Categories.ChemicalIsEngineering | old_model.py:31-40 | any text with "chemical" is caught at the Chemical Engineering rule or before |
| Categories.ChemistryOnlyByName | old_model.py:39-58 | Chemistry is given only to text with "chemistry" and without "chemical" |
| Categories.BiochemistryNotChemistry | old_model.py:55-58 | text with "biochemistry" is never Chemistry |
| Categories.AerospaceEngineering | old_model.py:28-48 | "Aerospace Engineering" is Aeronautics and Astronautics |
| Categories.EngineeringCatchAll | old_model.py:31-48 | text with "engineering" and none of the earlier terms' letters is Other Engineering |
| Categories.EngineeringPhysics | old_model.py:47-52 | "Engineering Physics" is Other Engineering, not Physics |
| Categories.BiologicalByBiochemistry | old_model.py:31-56 | text with "biochemistry" and none of the earlier terms' letters is Biological Sciences |
| Categories.Biochemistry | old_model.py:55-58 | "Biochemistry" is Biological Sciences, not Chemistry |
| Categories.BranchOfText | old_model.py:79-92 | the branch chain gives one of the six chain labels |
| Categories.GroupMilitaryBranches | old_model.py:75-92 | the result is one of the 7 labels; "Civilian" exactly for a missing cell or the text "0"; otherwise the chain on the lower-cased text |
| Categories.BranchRules | old_model.py:81-90 | the 5 rules of `group_military_branches`, with their terms and labels in the script's order |
| Categories.BranchChainIsRules | old_model.py:79-92 | the branch chain and the ordered rule list agree on every text |
| Categories.BranchTermsAreWords | old_model.py:81-90 | every branch term opens with a letter |
| Categories.NumberIsOtherMilitary | old_model.py:76-92 | a number, 0 included, gives "Other Military" |
| Categories.AirForceFirst | old_model.py:81-82 | text naming the air force is US Air Force, whatever else it names |
| Categories.NavyBeforeOthers | old_model.py:81-84 | the navy test comes before the army, marine and coast guard tests |
| Categories.ArmyBeforeMarinesAndCoastGuard | old_model.py:81-86 | the army test comes before the marine and coast guard tests |
| Categories.NavyWhen | old_model.py:83-84 | text naming the navy and not the air force is US Navy |
| Categories.ArmyWhen | old_model.py:85-86 | text naming the army and neither earlier branch is US Army |
| Categories.MarineWhen | old_model.py:87-88 | text naming the marines and no earlier branch is US Marine Corps |
| Categories.CoastGuardWhen | old_model.py:89-90 | text naming the coast guard and no earlier branch is US Coast Guard |
| Categories.NoAIsOtherMilitary | old_model.py:91-92 | text naming no branch term (here, without an 'a') is Other Military |
| Categories.AirForceReached | old_model.py:81-82 | "Air Force" is US Air Force |
| Categories.NavyReached | old_model.py:83-84 | "Navy" is US Navy |
| Categories.ArmyReached | old_model.py:85-86 | "Army" is US Army |
| Categories.MarineReached | old_model.py:87-88 | "Marine Corps" is US Marine Corps |
| Categories.CoastGuardReached | old_model.py:89-90 | "Coast Guard" is US Coast Guard |
| Categories.ReserveIsOther | old_model.py:91-92 | "Reserve" is Other Military |
| Categories.BranchLabelsReached | old_model.py:75-92 | each of the 7 labels is the result for some cell, so the labels are exactly those 7 |

## Left out

- Reading and writing the CSV files, the file paths and the `print` summaries (joiningTables.py:4-12, 119-124) are not modelled. They are I/O. `JoinAstronauts` takes the two tables as objects and returns the joined one.
- The exception handlers (joiningTables.py:126-131) are reduced to the `Failure` value. `FileNotFoundError` and the generic handler belong to the I/O left out; the messages are text output.
- Frame.Merge: a table is modelled with distinct labels, so a merge whose labels clash is a `DuplicateLabels` failure. pandas raises `MergeError` when the suffixes repeat a label on one side, for instance when the database table already has `Name_db`; there the model agrees. When the clash is across the two sides, for instance when the scraped table has a `Name_db` column, pandas keeps two columns under one label, and the model does not capture that table.
- Frame.RenameColumns: its precondition excludes a rename onto a label that is already present, which pandas performs, leaving two columns under one label. In the script this happens when the database table has both `Gender` and `Gender_db` and the scraped table has no `Gender`. (`Name` cannot clash: both tables have it, so the merge always suffixes it.)
- Frame.DataFrame.Rename: the same precondition as `RenameColumns`, for the same reason.
- AstronautJoin.RenameStage: where the rename would give two columns one label (the `Gender` case above), the model gives a `DuplicateLabels` failure instead of pandas' table with two `Gender` columns.
- AstronautJoin.Pipeline: a label clash that pandas keeps as two same-named columns (across the two sides in the merge, or the `Gender` rename above) is a `DuplicateLabels` failure here.
- AstronautJoin.Cleanup: the same for the `Gender` rename clash; `JoinScript.CleanJoined` and `JoinScript.JoinAstronauts` report these failures in the same way.
- Frame.Merge: pandas orders an inner join's rows by left row, then right row, in current versions. Older versions grouped rows by key. The model uses the first order. The join properties (`PairsMatch`, `MergePairs`) state which pairs are kept, not the order. For a non-empty left table, column order follows pandas: left labels, then right labels without the key.
- Frame.Merge: the join matches keys by equality of cells, including a missing key with a missing key, which is what pandas does.
- Frame.DropColumns: its precondition leaves out the `KeyError` pandas raises for an absent label. The script only drops labels it has just found, or the key that the merge keeps (`KeyInMerged`).
- BirthPlace.ExtractText: the abbreviation table is a parameter, and the script passes `Abbreviations`. The properties are proved for every table.
- PyStr.Upper: only the characters whose Python uppercase form is all ASCII are mapped (ASCII letters, dotless i, long s, sharp s and the Latin ligatures). Other characters keep their form. Python may give another non-ASCII form for them, but that cannot change a lookup among two-letter ASCII keys.
- PyStr.AsciiLower: `lower()` maps only ASCII capitals. Among the non-ASCII capitals, only the Kelvin sign and the dotted capital I lower-case to an ASCII letter. No rule term contains a 'k', and none ends in an 'i', so neither can complete a term.
- Cell: numbers are integers. `str()` of a floating-point cell (such as `3.0`) is not modelled. The classifiers' `str(major)` is modelled for strings and integers only.
- Categories.GroupMajors: the range of 19 labels is proved, and each chain step is proved for the listed examples. That every one of the 19 labels is reached by some input is proved only for the branch labels (`BranchLabelsReached`).
- The rest of old_model.py is not part of this model. This covers the flight-time conversions (floating point), the sklearn encoding and model fitting, the similarity search, the evaluation and the Streamlit UI. The `visual` module is not part of this model either.
