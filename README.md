# fzp validator — a Dafny model of its validation core

The fzp `validator` command checks Fritzing part files (`.fzp`, an XML format
describing electronic parts), either one file (`--file`) or every `.fzp`
entry of a folder (`--dir`). This project models the validation core of
`main.go` and proves what it promises:

- **checkData** (`Checks` in `checks.dfy`): runs the module-id, title and
  properties checks in that order, each only while its `no-check-*` flag is
  unset, and returns how many failed. The checks themselves belong to the fzp
  library; a loaded record (`Fzp`) is seen only through the set of checks
  whose library method reports an error. Flags are the set of checks whose
  `no-check-*` flag is set.
- **isExtFzp** (`Ext` in `ext.dfy`): built on Go's `filepath.Ext`, which is
  modelled as its backward scan (stop at '/', return the rest from the last
  '.'). The filter accepts exactly the names that end in `.fzp`,
  case-sensitively.
- **strconv.Itoa** (`Decimal` in `decimal.dfy`): the decimal text of the
  failure count, with its inverse.
- **validateFile / validateFolder / cliValidateAction** (`Validator` in
  `validator.dfy`): a file's failure count becomes nil or the error
  `"<n> Errors @ <path>"`. A load failure halts the whole process with exit
  status 1. A folder walk validates every `.fzp` entry in listing order under
  the path `src + "/" + name`. It appends one error per failing file and
  carries on past failures. A listing failure gives the single error
  `validator failed @ read folder '<src>'`. The action's exit status is 0
  exactly when the run reports no error.

The file system is an input. `Files` says what `fzp.ReadFzp` gives for each
path: a record or a load failure. `Listing` is the folder's entry names, or
a listing failure. `checkData` and `validateFolder` are methods that keep
the source's step-by-step counter and error list. Each one is proved equal
to a specification function: `Reported` for the pipeline, `Walk` and
`FolderOutcome` for the folder. The properties are proved as lemmas about
those functions.

Three things the code does that a reader might not expect:

- A file that cannot be loaded does not count as one failed file. It stops
  the whole run through `os.Exit(1)` (main.go:168-171), at the first such
  file. The model returns `Halt` / `Halted`.
- Folder entries are not checked for being directories (main.go:191-200). A
  directory whose name ends in `.fzp` is handed to `validateFile` like a
  file.
- The fritzing-version, version, family and tags checks are commented out
  (main.go:208-259), so they never run and never count.

## Model

| member | source | states |
|---|---|---|
| `Checks.CheckData` | main.go:205-269 | The count equals the number of reported checks, and that number is at most 3. The reported checks are exactly the enabled, failing ones among module id, title and properties, in that order. |
| `Checks.Reported` | main.go:215-266 | A check is reported exactly when it is in the run list, its flag is unset and the library says it fails. At most one report per check, and none twice. |
| `Checks.ReportedPipeline` | main.go:215-266 | The pipeline's reports come in the fixed order: module id, then title, then properties. |
| `Checks.CountIsEnabledFailingChecks` | main.go:205-268 | The count is the size of ({module id, title, properties} ∩ failing) minus the disabled checks, so it lies in 0..3. |
| `Checks.NoFailuresIffEnabledChecksPass` | main.go:215-268 | Nothing is reported exactly when every enabled wired check passes. |
| `Checks.ReportedDependsOnlyOnChecksRun` | main.go:215-266 | The outcome depends only on the flags of the checks run, and on the results of those that are enabled. |
| `Checks.DisabledCheckNeverCounted` | main.go:215-266 | A check whose `no-check-*` flag is set is never reported. Making it pass or fail changes nothing. |
| `Checks.CommentedOutChecksInert` | main.go:208-259 | The fritzing-version, version, family and tags flags and outcomes never change the result. |
| `Checks.MoreFlagsFewerFailures` | main.go:215-266 | Setting more `no-check-*` flags never raises the count. |
| `Ext.ScanExt` | main.go:272 | The backward scan of `filepath.Ext` returns a suffix that starts with '.' and has no further '.' or '/'. It returns empty only when every '.' is followed by a later '/'. |
| `Ext.Ext` | main.go:272 | `filepath.Ext` gives the suffix from the last '.' of the final path element, or empty if that element has no '.'. |
| `Ext.ExtIsFzpIffEndsWith` | main.go:271-277 | `filepath.Ext(name) == ".fzp"` exactly when `name` ends with ".fzp". |
| `Ext.IsExtFzp` | main.go:271-277 | isExtFzp is true exactly when the name ends with ".fzp". The match is case-sensitive and also holds for names with '/'. |
| `Ext.IsExtFzpExamples` | main.go:271-277 | `a.fzp`, `.fzp` and `dir.fzp` are accepted. `a.fzp.bak`, `a.FZP`, `fzp`, `a.fz` and the empty name are rejected. |
| `Decimal.Itoa` | main.go:176 | The text is non-empty, all decimal digits, and has no leading zero. |
| `Decimal.AtoiItoa` | main.go:176 | Reading the decimal text back gives the number. |
| `Validator.ErrorTextRoundTrip` | main.go:176 | The error text `"<n> Errors @ <path>"` reads back to exactly `n` and `path`. |
| `Validator.FileOutcome` | main.go:166-181 | A load failure halts the run. Otherwise the file is valid exactly when it passes every enabled check. An invalid file's error is exactly `"<n> Errors @ <path>"` for its failure count n (1 to 3), and reads back as n and the path. |
| `Validator.ValidateFile` | main.go:166-181 | validateFile loads the path, runs checkData and returns the outcome `FileOutcome` specifies. |
| `Validator.MatchingPathsAppend` | main.go:191-201 | The paths validated for a listing are those of its first part followed by those of the rest, so listing order is kept. |
| `Validator.MatchingPathsMembers` | main.go:191-196 | Every entry ending in ".fzp" is validated under `src + "/" + name`. Every validated path comes from such an entry. |
| `Validator.MatchingPathsCount` | main.go:191-196 | The number of validated paths equals the number of listed entries whose name ends in ".fzp". |
| `Validator.WalkAppend` | main.go:191-202 | Walking two runs of paths gives the first run's errors, then the second's, unless the first halted. |
| `Validator.WalkErrorsNameFailingFiles` | main.go:195-198 | A walk yields no more errors than paths. Each error reads back as a walked path and a failure count from 1 to 3. |
| `Validator.FailingErrors` | main.go:191-202 | The errors a walk is meant to collect: one per file that loads and fails, with that file's own count, in path order. Its contract bounds the list by the number of paths; `WalkIsFailingErrors` ties it to the walk. |
| `Validator.FirstLoadFailure` | main.go:167-171 | The index it gives is that of the first path that fails to load: all earlier paths load. It equals the number of paths when every path loads. |
| `Validator.FirstLoadFailureAt` | main.go:167-171 | A failing path at index i with every earlier path loading is the first failure. |
| `Validator.WalkIsFailingErrors` | main.go:166-202 | When every path loads, a walk returns exactly the reference error list. Otherwise it halts at the first unloadable path, after the reference errors of the paths before it. |
| `Validator.WalkCleanIffAllValid` | main.go:191-202 | A walk returns an empty (nil) error list exactly when every walked file loads and passes. |
| `Validator.WalkHaltsIffLoadFails` | main.go:167-171 | A walk halts exactly when some walked file cannot be loaded, and it halts at the first such file. |
| `Validator.HaltedAtFirstLoadFailure` | main.go:167-171 | If the paths handed over so far all loaded and the next one does not, they end at the first unloadable path of the whole walk. |
| `Validator.ValidateFolder` | main.go:183-203 | validateFolder returns what `FolderOutcome` specifies. A listing failure gives exactly the read-folder error and validates nothing. A run that does not halt hands validateFile exactly the matching paths, in order. A halted run hands validateFile exactly the matching paths up to and including the first that cannot be loaded, and stops there. |
| `Validator.FolderCleanIffAllFilesPass` | main.go:183-203 | A folder run ends without error exactly when the folder can be listed and every ".fzp" entry loads and passes every enabled check. |
| `Validator.ValidateAction` | main.go:138-163 | The exit status is 0 or 1. With a file path it is 0 exactly when the file loads and passes. Otherwise, with a folder path, it is 0 exactly when the folder run returns no error. With neither it is 0 (help). |
| `Validator.FolderExample` | main.go:183-203 | Folder `d` holds `a.fzp` (passes), `b.fzp` (fails its title check) and `c.txt`. The run gives exactly one error, for `d/b.fzp` with count 1. |
| `Validator.ExampleErrorText` | main.go:176 | That error reads `1 Errors @ d/b.fzp`. |

## Left out

- The command-line definition, flag parsing and help text (main.go:18-130, 151-162). Flags are a set of check names. The help branch is modelled only as exit status 0.
- The `verbose` global, the `Log` helper and all printing (main.go:14-16, 172, 179, 198, 279-283). The `"=> <error>"` lines checkData prints are modelled as the sequence of checks whose error is printed, not as their text.
- The message printed before a load failure exits (main.go:169). Its `validator failed @` prefix is main.go's own; the `<err>` part comes from the fzp library. Neither is part of this model.
- `fzp.ReadFzp` and the rules of `CheckModuleId`, `CheckTitle` and `CheckProperties` (main.go:167, 216, 232, 262). They are library code. Loading and each check's pass/fail are inputs.
- `ioutil.ReadDir` and all file-system access (main.go:185). The listing is an input, given as names or a failure.
- The order of the listing: a `Listing` may give the entry names in any order. `ioutil.ReadDir` returns them sorted by file name; the model's results hold for every order, the sorted one included.
- `os.Exit` as a process action (main.go:126, 141-149, 170). It is modelled as the `Halt`/`Halted` results and an integer exit status.
- Ext.Ext: models '/' as the only path separator. Go's `filepath.Ext` on Windows also stops at '\\'.
- Decimal.Itoa: covers only non-negative numbers, because a failure count is never negative.
- Validator.ValidateFolder: the paths handed to validateFile are recorded in a ghost output. The model does not observe the calls themselves.
