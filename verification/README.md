# SchemaScanner, modelled in Dafny

SchemaScanner compares the table definitions kept as files in a schema folder
with the tables of a live MySQL server. It runs in four steps:

1. It walks the folder. Every file path that matches the configured pattern
   yields a (database, table) key, and the key is mapped to the path.
2. Both sides are turned into `` `db`.`table` `` strings.
3. It reports every name present on one side only. `[NOT IN DATABASE]` is a
   file without a table, unless `IgnoreNotInDatabase` is exactly `True`.
   `[NO FILE SCHEMA]` is a table without a file, unless `IgnoreNoFile` is
   exactly `True`.
4. For every name present on both sides, it takes the server's
   `CREATE TABLE` text and deletes its `AUTO_INCREMENT=<n> ` clause. It then
   diffs that text line by line against the file and reports every diff line
   as `[TABLE DIFF]`.

Each report increments a difference counter, which is printed at the end.

The model is split into these modules:

- `FileIndex` (`file_index.dfy`): the `parse_files` loop. `ParseFiles` is a
  method with the script's nested loops. It is proved against the left folds
  `IndexOf` and `MatchCount` over the walk's paths. Lemmas about those folds
  cover overwriting, counting and the abort on zero.
- `QualifiedNames` (`qualified_names.dfy`): the name format and the two
  name sets.
- `Reconciliation` (`reconciliation.dfy`): the symmetric difference, the
  intersection, the classification of a name, and the exact findings and
  count of the reconciliation.
- `AutoIncrement` (`auto_increment.dfy`): the leftmost-match search for
  `AUTO_INCREMENT=[0-9]+ `, Python's one-pass `str.replace(clause, "")`, and
  the normalisation built from the two.
- `ContentDiff` (`content_diff.dfy`): `str.split("\n")`, the diff of one
  table, and the `[TABLE DIFF]` findings of its lines.
- `Report` (`report.dfy`): the findings. It also holds what a loop over a
  Python set prints. The model leaves the visiting order open: `Collect`
  is the order-free multiset, and `Flatten` is the sequence for one order.
- `Scan` (`scan.dfy`): the script's state as the class `SchemaCheck`, with
  its loops as methods, and `Run`, which chains them.

Loops over Python sets and dicts pick their next element with `:|`, so every
postcondition holds for every visiting order.

Only the clause text `AUTO_INCREMENT=<n> ` is deleted. A clause at the end
keeps the space in front of it, so `CREATE TABLE t (id INT) AUTO_INCREMENT=42 `
normalises to `CREATE TABLE t (id INT) ` and still differs from
`CREATE TABLE t (id INT)` (`AutoIncrement.TrailingClauseKeepsSpace`).

## Model

| member | source | states |
|---|---|---|
| FileIndex.ParseFiles | src/init.py:45-66 | A missing folder gives `FolderMissing`. A walk where no path matches gives `NoSchemaFiles`. Otherwise the result is the index the matching paths build in walk order, where a later match overwrites its key, together with the number of matching paths. |
| FileIndex.DirPaths | src/init.py:53-55 | One full path per file of a directory: the k-th is the directory joined with the k-th file name. |
| FileIndex.MatchCount | src/init.py:57-58 | The number of matching paths, never more than the paths visited. |
| FileIndex.IndexOf | src/init.py:56-62 | Every entry's path, matched again, yields the key it is stored under, and the index holds at most as many keys as files were counted. |
| FileIndex.DuplicateKeyLosesEntry | src/init.py:59-62 | Two matching files with the same key leave the index strictly smaller than the count. |
| FileIndex.IndexHasEveryMatch | src/init.py:56-62 | The key of every matching path is in the index. |
| FileIndex.LastMatchWins | src/init.py:62 | A key maps to the last path that matched to it. |
| FileIndex.IndexEntriesVisited | src/init.py:56-62 | Every stored path is one of the visited paths. |
| FileIndex.ZeroCountIffNoMatch | src/init.py:57-65 | The count is zero exactly when no path matches, which is when the run stops. |
| QualifiedNames.QualifiedName | src/init.py:80 | The name is five characters longer than its two components together. |
| QualifiedNames.QualifiedNameParts | src/init.py:88 | The name is a backtick, the database, `` `.` ``, the table and a backtick, each at its fixed position. |
| QualifiedNames.FileNames | src/init.py:78-82 | The name of every index key is on the file side. |
| QualifiedNames.FileNamesNoMoreThanKeys | src/init.py:78-82 | The file side has no more names than the index has keys. |
| QualifiedNames.DbNames | src/init.py:87-89 | The name of every server row is on the database side, and there are no more names than rows. |
| QualifiedNames.DbNamesFromRows | src/init.py:87-89 | Every name of the database side is the name of one of the rows. |
| QualifiedNames.QualifiedNameInjective | src/init.py:80 | Equal components give equal names. Without backticks in the database names, equal names come only from equal components. |
| QualifiedNames.SameComponentsSameName | src/init.py:78-89 | A file key and a server row with equal components give the same name on both sides. |
| QualifiedNames.BacktickNamesCollide | src/init.py:80 | With backticks inside the components, two different pairs share one name. |
| Reconciliation.SchemaDifference | src/init.py:92 | A name is in the difference exactly when it is on one side only. |
| Reconciliation.SchemaMatch | src/init.py:104 | A name is matched exactly when it is on both sides. |
| Reconciliation.Classify | src/init.py:93-101 | A name of the difference gives a finding about that name, never a table diff: `[NOT IN DATABASE]` exactly when it is a file name, and nothing exactly when the flag of its side is `"True"`. |
| Reconciliation.ReconcileCount | src/init.py:92-101 | The counter's increase is never more than the size of the difference, and equals it when neither flag is exactly `"True"`. |
| Reconciliation.DifferenceAndMatchPartition | src/init.py:92-104 | The difference and the match are disjoint, and together they are the union of both sides. |
| Reconciliation.ReportedFindings | src/init.py:93-101 | A reported finding is `[NOT IN DATABASE]` for a file-only name or `[NO FILE SCHEMA]` for a server-only name, each unless its flag is exactly `"True"`, and every such finding is reported. |
| Reconciliation.ReportedCount | src/init.py:92-101 | The number of findings is \|file − db\| (0 when `IgnoreNotInDatabase` is `"True"`) plus \|db − file\| (0 when `IgnoreNoFile` is `"True"`). |
| Reconciliation.ReportedSize | src/init.py:93-101 | For any set of names, the findings counted by side. |
| Reconciliation.CollectReported | src/init.py:93-101 | Printing each name's finding, in any order, prints every reported finding exactly once. |
| Reconciliation.EqualSetsNoFindings | src/init.py:92-101 | Equal sides give no finding and a count of zero, whatever the flags. |
| Reconciliation.IgnoreNoFileSilencesDatabaseOnly | src/init.py:99-100 | With `IgnoreNoFile` exactly `"True"`, no `[NO FILE SCHEMA]` finding is reported. |
| AutoIncrement.ClauseAt | src/init.py:111 | A match at a position is a clause (the keyword, one or more digits, a space) and occurs there. |
| AutoIncrement.ClauseAtComplete | src/init.py:111 | Every clause occurring at a position is the match found there. |
| AutoIncrement.Search | src/init.py:111 | The search returns the leftmost position where the pattern matches, or nothing when it matches nowhere. |
| AutoIncrement.ClauseShape | src/init.py:111 | A clause starts with `A`, has `=` after the keyword, ends in a space, and holds no other `A`. |
| AutoIncrement.NoEqualsNoClause | src/init.py:111-112 | A text without `=` holds no clause. |
| AutoIncrement.NoSpaceNoClause | src/init.py:111-112 | A text without a space holds no clause. |
| AutoIncrement.ReplaceAll | src/init.py:114 | The replacement never makes the text longer. |
| AutoIncrement.ReplaceAllWithoutOccurrence | src/init.py:114 | Without an occurrence, the replacement leaves the text unchanged. |
| AutoIncrement.ReplaceAllShrinks | src/init.py:114 | With an occurrence, the result is at least one copy shorter. |
| AutoIncrement.RemovesEveryCopy | src/init.py:114 | Every copy of a clause is deleted, and the text on each side of it is treated on its own. |
| AutoIncrement.KeepsOtherClause | src/init.py:114 | A clause with another number is kept whole, and so is the text on each side of it. |
| AutoIncrement.Normalize | src/init.py:111-114 | The statement never grows, and gets strictly shorter whenever the search finds a clause. |
| AutoIncrement.NormalizeRemovesLeftmost | src/init.py:111-114 | The leftmost clause's text is the one deleted, and the statement shrinks by at least its length. |
| AutoIncrement.NormalizeUnchangedIff | src/init.py:111-114 | The statement is left unchanged exactly when it holds no clause. |
| AutoIncrement.NormalizeShorter | src/init.py:111-114 | When a clause occurs, the statement becomes strictly shorter. |
| AutoIncrement.NormalizeDeletesClause | src/init.py:111-114 | With no clause before a clause `c`, normalising `x + c + y` gives `x` followed by `y` with its copies of `c` deleted. |
| AutoIncrement.NormalizeTrailingClause | src/init.py:111-114 | A clause at the end of a clause-free text is deleted, and nothing else changes. |
| AutoIncrement.TrailingClauseKeepsSpace | src/init.py:111-114 | `CREATE TABLE t (id INT) AUTO_INCREMENT=42 ` normalises to `CREATE TABLE t (id INT) ` with the space kept, so it differs from `CREATE TABLE t (id INT)`. |
| AutoIncrement.NormalizeNotIdempotent | src/init.py:111-114 | One pass can join two halves into a new clause, so normalising twice differs from normalising once. |
| ContentDiff.Split | src/init.py:116 | `split("\n")` gives at least one piece, and no piece holds the separator. |
| ContentDiff.JoinSplit | src/init.py:116 | Joining the split lines gives back the text. |
| ContentDiff.SplitJoin | src/init.py:116 | Lines without the separator survive a join and a split unchanged. |
| ContentDiff.CompareTable | src/init.py:116 | A statement without a clause is diffed against the file text as it is. |
| ContentDiff.ClauseDoesNotShowInDiff | src/init.py:111-116 | A statement whose leftmost clause occurs only once, and the same statement without it, give no diff line, provided the diff emits nothing for equal inputs. |
| ContentDiff.DiffFindings | src/init.py:117-118 | One `[TABLE DIFF]` finding per diff line, in the diff's order, carrying the table's name and that line. |
| Report.CollectAnyOrder | src/init.py:107 | The findings of a set loop do not depend on which name is visited first. |
| Report.PrintedByNamesCollect | src/init.py:107 | Output printed name by name over a set, in any order, holds each name's findings exactly once. |
| Report.FlattenCollect | src/init.py:93-119 | A visiting order without repeats prints exactly the order-free multiset of findings of the visited set. |
| Scan.FileMapDetermined | src/init.py:78-81 | Without backticks in the database names, every file name maps to its own key's path. |
| Scan.SchemaCheck.constructor | src/init.py:72-75 | All sets, the map and the output start empty, and the counter starts at 0. |
| Scan.SchemaCheck.AddFileSchemas | src/init.py:78-82 | Adds the name of every index key, each mapped to the path of a key with that name. Nothing else changes. |
| Scan.SchemaCheck.AddDbSchemas | src/init.py:87-89 | Adds the name of every server row. Nothing else changes. |
| Scan.SchemaCheck.Reconcile | src/init.py:92-101 | Appends, for each name of the difference once, in some visiting order, that name's finding unless suppressed. So it appends exactly the reported findings and adds the counter formula to the counter. |
| Scan.SchemaCheck.ReportDifference | src/init.py:94-101 | Appends the one name's finding, unless suppressed, and counts it. |
| Scan.SchemaCheck.CompareMatches | src/init.py:104-119 | Appends, for each name on both sides once, in some visiting order, that table's diff findings together and in diff order, and counts each one. |
| Scan.SchemaCheck.CompareTableOf | src/init.py:108-119 | Appends the findings of one table's diff. |
| Scan.SchemaCheck.PrintTableDiff | src/init.py:117-119 | Appends one finding per diff line and counts each. The counter never decreases. |
| Scan.Run | src/init.py:45-122 | The two aborts of `parse_files`. Otherwise the number of files found, a final counter equal to the number of findings, and findings that are first the reconciliation's findings, name by name, then every matched table's diff lines, table by table. Their multiset is the reported differences plus the diff lines, and the counter is the reconciliation formula plus the diff lines. |

## Left out

- Reading `config.ini` is not modelled. The pattern, the base folder and the two flags come in as parameters, and the flags are the values `Config.get` returns, with the surrounding whitespace already stripped by `configparser`.
- `get_connection`, the password prompt and the MySQL driver are not modelled. The `information_schema` query is replaced by its result rows, given as a sequence and assumed already filtered. `SHOW CREATE TABLE` is replaced by the function `showCreate`.
- The filesystem is not modelled. `path.exists` becomes the flag `folderExists`, `os.walk` becomes the sequence of directories `walk`, and `path.join`/`normpath` with the backslash replacement become the function `join`. Reading a schema file becomes `readFile`.
- `get_regex` and the path `re.search` are not modelled, because they depend on Python's regex engine. They become the function `matcher`, which gives a path's (database, table) key or nothing.
- `difflib.unified_diff` is not modelled. It becomes the function `diff`, whose output lines are taken as they come.
- Printing and `exit` are not modelled as I/O. A printed finding is an entry of the output sequence, and a fatal exit is an `Aborted` outcome. The `files found..` line is the `filesFound` field, and `[Check done]` is the final `differenceCount`.
- Scan.SchemaCheck.AddFileSchemas: when two keys format to the same name, the model does not fix which key's path wins, because that depends on Python's dict iteration order. It states only that the path is one of those keys' paths. `Scan.FileMapDetermined` shows that this choice does not matter when no database name holds a backtick.
- Scan.SchemaCheck.Reconcile: it leaves open the order in which the names are visited, because that is Python's set iteration order. It fixes the output for every such order.
- Scan.SchemaCheck.CompareMatches: it leaves the visiting order open for the same reason.
- Scan.Run: it leaves both visiting orders open, and it shows only that some file map the file loop can build explains the findings, for the reason given for `AddFileSchemas`.
- Python's integers are unbounded, so the counters are `nat` and no width is modelled.
