# Cloudant backup scheduler — a Dafny model

The scheduler is a single Node.js script, `app.js`. It does three things:

- It reads a configuration with a default cron schedule and a list of databases, each with an optional schedule and an optional history (retention) count.
- It registers one node-cron timer per database.
- On each firing it exports that database to `./backup/<db>/<db>_backup_<date>.json`. After a successful export it unlinks the oldest snapshots beyond the configured history.

This project models the deterministic part of that script. The file system, the clock, node-cron and the export library become inputs:

- `config.dfy` (module `Config`) covers start-up, lines 15-34. It normalises `cfg.database` (falsy, array or bare object) and applies the JavaScript `||` defaults for schedule and history. Its specification function `Load` gives the registrations made and the error thrown, in the script's fixed order: invalid default, then no databases, then the first entry with an invalid schedule. `cron.validate` is the parameter `isValid`.
- `scheduler.dfy` (module `Scheduler`) is the imperative side of start-up. `CronRegistry` is node-cron's task list, and `cron.schedule` appends one registration to it. `Configure` is the validating `forEach`, proved to leave exactly `Load`'s registrations and error.
- `naming.dfy` (module `Naming`) models the names a run derives:
  - the two regex replacements that turn `toISOString()` into the date string;
  - the snapshot and log file names;
  - the export URL, with a reader `SplitUrl` that takes the parts back out.
- `retention.dfy` (module `Retention`) models `removeOldBackupFiles`:
  - the regular expression `<db>_backup.*json` as a scanner, proved equal to a declarative reading of the regex;
  - the filter over the directory listing;
  - an in-place sort by modification time;
  - the loop that attempts one unlink per selected file.
- `taskrunner.dfy` (module `TaskRunner`) models `backupTask`. It builds the names and the URL. Pruning runs only when the export callback reports success, and then with the `(database, history)` the timer was bound to.
- `wrappers.dfy` and `jstext.dfy` are helpers: `Option`, and the JavaScript line terminators that the regex `.` does not match.

Behaviour of the script that the model keeps as it is:

- The date string has minute precision, `YYYY-MM-DD_HH:MM`, and contains a colon. `Naming.IsoDateString` proves this format, and `Naming.SameMinuteSameSnapshot` proves that two runs in the same minute write the same file name.
- Equal modification times have no tie-break by file name. The sort's contract leaves their order open.
- There is no single-flight guard: overlapping ticks of one database both export.
- The entries before an invalid one are registered before the error is thrown. The error is uncaught at top level, so the process then exits.
- A negative history is kept as it is and means no pruning.
- The backup directory is created with a non-recursive `mkdirSync`, so a missing parent is not created.
- The error texts are `Default schedule not valid.`, `No databases defined in config` and `Schedule not valid for database <name>`.

## Model

| member | source | states |
|---|---|---|
| Config.MessageIdentifiesError | app.js:16-31 | the three thrown messages are pairwise distinct, and the per-database one determines the database name, so a message identifies its error |
| Config.ScheduleInheritance | app.js:27 | about `Config.EffectiveSchedule`: an absent schedule and an empty-string schedule both inherit the default; any non-empty schedule is kept verbatim |
| Config.HistoryDefault | app.js:28 | about `Config.EffectiveHistory`: the effective history is the configured value or 0 when absent (0 stays 0); a negative history stays negative |
| Config.RegisterEachFirstInvalid | app.js:25-34 | about `Config.RegisterEach`, the loop as a function: it registers exactly the entries before the first invalid one, in list order, each with its effective (schedule, name, history); every registered entry passed validation; it throws iff some entry is invalid, naming the first such entry |
| Config.DefaultCheckedFirst | app.js:15-18 | an invalid or absent default throws "Default schedule not valid." with no registration, whatever the database list holds |
| Config.EmptyListRejected | app.js:21-24 | about `Config.DatabaseList` inside `Config.Load`: with a valid default, the "No databases" error without registrations happens exactly when the normalised list is empty (falsy field or empty array) |
| Config.SingleSameAsSingleton | app.js:21 | about `Config.DatabaseList`: a bare database object and the same object in a one-element array produce identical start-up results |
| Config.LoadOutcome | app.js:15-34 | about `Config.Load`, all of start-up as a function: it either registers every listed entry, in order and without error, or throws the first error in the fixed order: default, then empty list, then the first invalid entry, with all earlier entries, each of which passed validation, already registered |
| Scheduler.CronRegistry.Schedule | app.js:33 | a `cron.schedule` call appends its registration to the task list and changes nothing else |
| Scheduler.Configure | app.js:15-34 | the imperative validate-then-register loop leaves the registry extended by exactly `Load`'s registrations and returns exactly `Load`'s error |
| Naming.ReplaceFirstT | app.js:39 | `replace(/T/, '_')` keeps the length and changes only the first `T`, to `_` |
| Naming.StripFrom | app.js:39 | `replace(/:..\..+$/, '')` returns the string unchanged when the regex matches nowhere, and cuts it at the leftmost match otherwise |
| Naming.IsoDateString | app.js:39 | about `Naming.DateString`: for `YYYY-MM-DDTHH:MM:SS.sssZ` the date string is `YYYY-MM-DD_HH:MM`: 16 characters with a colon at index 13 |
| Naming.SameMinuteSameSnapshot | app.js:39-44 | about `Naming.SnapshotName` of `Naming.DateString`: two runs of one database whose timestamps agree up to the minute write the same snapshot file name |
| Naming.UrlRoundTrip | app.js:46-47 | about `Naming.DatabaseUrl`: reading back the export URL yields exactly the configured user, password, host and database when the unescaped parts hold no `/`, the user no `:` and the host no `@` |
| Retention.MatchesIffPattern | app.js:68-69 | about `Retention.Matches`, the scanner for the filter's test: it holds iff `<db>_backup` occurs, `json` occurs at or after its end, and no line terminator lies between |
| Retention.Candidates | app.js:69 | the filtered listing holds each matching entry as often as the listing does, and nothing else |
| Retention.SortByMtime | app.js:72-74 | the in-place sort leaves the array ordered by ascending modification time and a permutation of what it held |
| Retention.Succeeded | app.js:78-83 | the successfully unlinked files are exactly the attempted files whose unlink reported no error, each as often as it was attempted |
| Retention.UnlinkEach | app.js:76-85 | the `forEach` over the selected slice attempts every selected file once, in order, whatever the earlier unlinks reported |
| Retention.RemoveOldBackupFiles | app.js:66-87 | nothing is attempted unless `0 < history < count`; otherwise exactly `count - history` candidates are attempted, oldest first, each no newer than any candidate left; every selected file is attempted whatever earlier unlinks did |
| Retention.PruneKeepsHistory | app.js:71-76 | a pruning pass leaves exactly `history` candidates unattempted; a pass that does not prune attempts none |
| Retention.PruneLeavesHistory | app.js:71-85 | what a pass leaves in the directory: `history` candidates plus one per failed unlink; exactly `history` when every unlink succeeds; all candidates when the pass does not prune |
| Retention.PruneCutoff | app.js:71-76 | when no two candidates share a modification time, a pruning pass is a cutoff: an unlink of a candidate is attempted exactly when it is older than every file kept, so the files kept are the `history` newest |
| Retention.OnlyCandidatesAttempted | app.js:68-76 | every unlink attempted is of a listed file that matches the snapshot pattern, so non-candidates are never touched |
| TaskRunner.BackupTask | app.js:37-64 | a run names its snapshot, log file and URL from the bound database and the start time; a failed export unlinks nothing; a successful one prunes with the bound `(database, history)` |
| TaskRunner.SnapshotIsCandidate | app.js:39-69 | the snapshot a run writes matches its database's pruning pattern |
| TaskRunner.LogFileNeverCandidate | app.js:45-69 | about `Naming.LogName`: the export log file `<db>_backup.log` never matches the pruning pattern, for any database name |
| TaskRunner.NewestSurvives | app.js:71-76 | with a positive history, a candidate strictly newer than all others (the run's own fresh snapshot) is never unlinked |

## Left out

- Loading the YAML file, and all `console` / console-stamp logging. These are input and output.
- node-cron internals: timer firing and the cron-expression grammar. `cron.validate` is the parameter `isValid`. A non-string value, such as an absent `schedule.default`, is taken to be rejected, as the library does.
- Configuration values of other shapes than modelled:
  - a non-string schedule, a non-integer history, an entry without `name`;
  - array elements that are not objects;
  - a truthy non-object `database` scalar;
  - a missing `schedule` or `databasehost` mapping, which throws a `TypeError`.
  A history is an integer, so JavaScript's coercions in `history > 0` are not modelled.
- The couchbackup export, the write stream, and the `parallelism` / `log` options. Only the outcome the callback reports is modelled, as `ExportOutcome`.
- File-system calls:
  - `existsSync` / `mkdirSync` and the directory paths are not modelled, nor the exception a failing `mkdirSync` or `statSync` would throw.
  - `readdirSync` / `statSync` become the listing of `(name, mtime)` that pruning reads.
  - The asynchronous `unlink` becomes a per-file outcome `unlinkOk`; the order in which unlink callbacks complete is not modelled.
- How the new snapshot enters the listing is not modelled; the listing at pruning time is an input.
- `new Date()`: the ISO string is an input. `Naming.IsoDateString` covers the 24-character form of years 0 to 9999, not the six-digit extended years.
- Regex metacharacters in database names: the database name is treated as a literal in the pattern.
- JavaScript's sort algorithm: the model sorts by insertion. Its contract fixes only the ascending order and the permutation, so the order of equal times is left open, as it is in the source.
- A single-flight guard and a tie-break on equal modification times: the code has neither.
- Naming.UrlRoundTrip: the round trip is stated only for credentials and a host without the characters named above, because the script does not percent-encode them.
- Naming.SplitUrl: a simplified reader of the export address. It ends the authority only at the first `/`, while a standard URL parser also ends it at `?` or `#`. So `Naming.UrlRoundTrip` does not describe how the export library reads credentials or a host that hold those characters.
