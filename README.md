# Backup locator

A Dafny model of `get_last_backup_info`, the backup-freshness probe of a small
Flask/SQLite events service. Given the backup directory, it reports the most
recent backup file and its age in whole seconds:

1. A missing directory gives `(None, None)`.
2. Only regular files of the listing are candidates. No regular file gives `(None, None)`.
3. Each candidate name is matched against `^app-(\d+)\.db$`. The digit run is read as a decimal epoch, and leading zeros are allowed.
4. If some name matches, the match with the largest epoch wins, whatever the modification times are. Otherwise the candidate with the latest modification time wins.
5. Ties go to the first maximal entry in listing order. This is how Python's `max(..., key=...)` behaves.
6. The age is `int(max(0, now - reference))`. The reference is the epoch in the named case and the modification time in the fallback case.

The filesystem and the clock become inputs:
- `dirExists` stands for `os.path.isdir`.
- The listing is a `seq<Entry>` in `os.listdir` order.
- Each entry carries its name, the result of `os.path.isfile` and the result of `os.path.getmtime`.
- `now` stands for the clock reading.

Modules:
- `Wrappers`: the `Option` type.
- `BackupName`: the filename convention, its parser, decimal rendering, and the parser's round trip.
- `Selection`: Python `max` with a key, as "the first position whose key is maximal".
- `BackupLocator`: the entries, the two accumulation loops as methods proved equal to the filter functions `Files` and `NamedBackups`, the whole operation as the method `GetLastBackupInfo`, its specification `Locate`, and the lemmas that characterise `Locate` directly over the listing.
- `BackupScenarios`: concrete snapshots and their results.

Facts about the code that shape the model:
- Ties go to the first maximal entry in listing order, as with Python `max`.
- Python integers do not overflow, so every digit run gives an epoch.
- An error while listing an existing directory raises an exception, and the model does not represent it.
- The function uses `re` (first at line 42) and `timezone` (first at line 50) without importing them (app/app.py:1-4). A missing directory (lines 29-30) or one with no regular file (lines 38-39) still returns `(None, None)`. Every call that gets past line 39 raises `NameError` at line 42. The model describes the evidently intended behaviour of those calls.

## Model

| member | source | states |
|---|---|---|
| `BackupName.DecimalValue` | app/app.py:48 | `int(m.group(1))` reads a run of k digits, most significant first, as a value below 10^k. |
| `BackupName.DecimalValueLeading` | app/app.py:48 | The value of a digit run is its leading digit times 10^(k-1) plus the value of the remaining digits. |
| `BackupName.Decimal` | app/app.py:48 | The rendering of an epoch is a non-empty run of ASCII digits with no leading zero unless the epoch is 0. |
| `BackupName.DecimalRoundTrip` | app/app.py:48 | Reading the decimal rendering of `n` as `int` gives back `n`. |
| `BackupName.LeadingZerosIgnored` | app/app.py:48 | Leading zeros do not change the value `int` reads from a digit run. |
| `BackupName.ConventionParts` | app/app.py:42 | A name built as `app-` + digits + `.db` splits back into exactly those three parts. |
| `BackupName.ConventionShape` | app/app.py:42 | A name follows the convention if and only if it starts with `app-`, ends with `.db` and has a non-empty digit run between them. |
| `BackupName.ParseBackupName` | app/app.py:42-48 | The anchored match accepts a name if and only if it follows the convention. The lemmas below fix its epoch as the value of the digit run. |
| `BackupName.ParseBackupNameAsWritten` | app/app.py:42-46 | The match as Python runs it, with `\d` read as ASCII digits, accepts a name if and only if the name follows the convention, or the name is a conforming name followed by one newline. On conforming names it gives the strict epoch. |
| `BackupName.WrongPrefixRejected` | app/app.py:42 | A name that does not start with `app-` is rejected. |
| `BackupName.ParseAcceptsConvention` | app/app.py:42-48 | Every name `app-` + non-empty digits + `.db` matches, and its epoch is the decimal value of the digits. |
| `BackupName.ParseRoundTrip` | app/app.py:42-48 | `app-` + decimal(n) + `.db` parses to `n`. |
| `BackupName.ParseLeadingZeros` | app/app.py:42-48 | A digit run with leading zeros is accepted and parsed as a decimal number. |
| `BackupName.TrailingNewlineAccepted` | app/app.py:42-46 | As written, any conforming name followed by a newline (`app-5.db` and a newline, say) matches with the epoch of its digits, although it does not follow the convention. |
| `BackupName.StrictRejectsNewline` | app/app.py:42 | With `$` read as the end of the name, no name that ends in a newline is accepted. |
| `Selection.MaxIndex` | app/app.py:53 | `max(items, key=f)` returns an item whose key is at least every other key, and no earlier item has the same key. |
| `Selection.FirstMaxUnique` | app/app.py:53 | Only one position can be the first maximal one, so the tie-break determines the choice. |
| `Selection.MaxIndexSnoc` | app/app.py:58 | One more item takes the choice exactly when its key is strictly greater than the current best. |
| `BackupLocator.Locate` | app/app.py:28-60 | The result is `(None, None)` if and only if the directory is missing or has no regular file. The Locate lemmas below characterise the name and age in every other case. |
| `BackupLocator.Files` | app/app.py:32-36 | An entry is in the list of files if and only if it is in the listing and is a regular file. |
| `BackupLocator.NamedBackups` | app/app.py:44-48 | Every pair in `with_epoch` comes from a file in `files` whose name matches, with the epoch that name encodes, and every file whose name matches contributes its pair (name and epoch). |
| `BackupLocator.Age` | app/app.py:54 | The age is 0 when the reference is not in the past. Otherwise it is the whole number of seconds elapsed, rounded down. |
| `BackupLocator.RegularFiles` | app/app.py:32-36 | The loop collects exactly the regular files, in listing order. |
| `BackupLocator.MatchBackups` | app/app.py:44-48 | The loop collects exactly the conforming names with their epochs, in order. |
| `BackupLocator.GetLastBackupInfo` | app/app.py:28-60 | The function returns the result `Locate` specifies for the snapshot and clock reading. |
| `BackupLocator.FilesSnoc` | app/app.py:33-36 | One more listed entry extends the list of files exactly when it is a regular file. |
| `BackupLocator.NamedBackupsSnoc` | app/app.py:45-48 | One more file extends `with_epoch` exactly when its name matches. |
| `BackupLocator.FilesEmptyIff` | app/app.py:38 | The list of files is empty if and only if no listed entry is a regular file. |
| `BackupLocator.NoNamedFileNoBackups` | app/app.py:52 | Without a conforming regular file, `with_epoch` is empty, so the fallback is taken. |
| `BackupLocator.NewestNamedExtend` | app/app.py:53 | After one more conforming file, the newest named entry is that file if its epoch is strictly larger, and stays the same otherwise. |
| `BackupLocator.NewestNamedKeep` | app/app.py:53 | An entry that is not a conforming regular file leaves the newest named entry unchanged. |
| `BackupLocator.NewestNamedAlone` | app/app.py:53 | A conforming regular file that follows no other conforming one is the newest named entry. |
| `BackupLocator.NewestNamedFirst` | app/app.py:44-53 | The first conforming regular file of a listing makes `with_epoch` a one-pair list and is the newest named entry. |
| `BackupLocator.NewestNamedStep` | app/app.py:44-53 | After one more conforming regular file, the pair `max` picks is still the newest named entry of the longer listing. |
| `BackupLocator.NewestNamedSkip` | app/app.py:35-36 | An entry that is a subdirectory or has a non-conforming name leaves `with_epoch` unchanged. |
| `BackupLocator.LatestModifiedExtend` | app/app.py:58 | After one more regular file, the latest modified entry is that file if its time is strictly later, and stays the same otherwise. |
| `BackupLocator.LatestModifiedKeep` | app/app.py:58 | An entry that is not a regular file leaves the latest modified entry unchanged. |
| `BackupLocator.LatestModifiedAlone` | app/app.py:58 | A regular file that follows no other regular file is the latest modified entry. |
| `BackupLocator.LatestModifiedFirst` | app/app.py:32-36 | The first regular file of a listing makes the list of files a one-entry list and is the latest modified entry. |
| `BackupLocator.LatestModifiedStep` | app/app.py:58 | After one more regular file, the file `max` picks is still the latest modified entry of the longer listing. |
| `BackupLocator.NewestNamedSelected` | app/app.py:44-53 | The pair `max(with_epoch, key=epoch)` picks is the first conforming regular file of the listing with the largest epoch. |
| `BackupLocator.LatestModifiedSelected` | app/app.py:58 | The file `max(files, key=getmtime)` picks is the first regular file of the listing with the latest modification time. |
| `BackupLocator.LocateNamed` | app/app.py:52-55 | With a conforming regular file present, the result is the first such file with the largest epoch, aged from that epoch. |
| `BackupLocator.LocateFallback` | app/app.py:57-60 | With regular files but none conforming, the result is the first regular file with the latest modification time, aged from that time. |
| `BackupLocator.LocateNameIsRegularFile` | app/app.py:35-36 | Any returned name is the name of a regular file in the listing. |
| `BackupLocator.LocateNamedIgnoresMtime` | app/app.py:52-55 | Once some name conforms, modification times have no effect on the result. |
| `BackupLocator.NewestNamedUnique` | app/app.py:53 | The newest named entry is unique. |
| `BackupLocator.LatestModifiedUnique` | app/app.py:58 | The latest modified entry is unique. |
| `BackupLocator.LocateAgeMonotone` | app/app.py:50-59 | On an unchanged snapshot, a later clock reading names the same file and never reports a smaller age. |
| `BackupLocator.AgeMonotone` | app/app.py:54 | The age never decreases as the clock advances. |
| `BackupLocator.AgeWholeSeconds` | app/app.py:59 | On whole-second readings, the age is exactly `max(0, now - reference)`. |
| `BackupScenarios.App100` | app/app.py:42-48 | `app-100.db` parses to epoch 100. |
| `BackupScenarios.App200` | app/app.py:42-48 | `app-200.db` parses to epoch 200. |
| `BackupScenarios.App007` | app/app.py:42-48 | `app-007.db` parses to epoch 7. |
| `BackupScenarios.App7` | app/app.py:42-48 | `app-7.db` parses to epoch 7. |
| `BackupScenarios.NotesTxtRejected` | app/app.py:42-47 | `notes.txt` does not match. |
| `BackupScenarios.RandomDbRejected` | app/app.py:42-47 | `random.db` does not match. |
| `BackupScenarios.UnnamedListing` | app/app.py:57-58 | In the listing `random.db` (time 10) and `notes.txt` (time 20), no name matches and `notes.txt` is the latest modified file. |
| `BackupScenarios.LargerEpochWins` | app/app.py:52-55 | Given `app-100.db` and `app-200.db`, the result is `app-200.db`, even when it has the older modification time. |
| `BackupScenarios.ConventionBeatsMtime` | app/app.py:52-55 | An old conforming backup wins over a much more recently modified `notes.txt`. |
| `BackupScenarios.FallbackToMtime` | app/app.py:57-60 | With only `random.db` and `notes.txt`, the later modified one is returned, aged from its modification time. |
| `BackupScenarios.SubdirectoryIgnored` | app/app.py:35-36 | A directory named `app-300.db` is not a candidate. |
| `BackupScenarios.TieGoesToFirstListed` | app/app.py:53 | `app-007.db` and `app-7.db` tie on epoch 7, and the one listed first wins. |
| `BackupScenarios.FutureBackupHasAgeZero` | app/app.py:54 | A backup whose epoch lies after the clock reading has age 0. |

## Left out

- Flask routes (`hello`, `health`, `add`, `consultation`, `count`) and `app.run`: these are HTTP/JSON glue with no logic of their own.
- SQLite helpers `get_conn` and `init_db`, and the SQL in the routes: these are calls into a foreign database engine.
- The environment reads of `DB_PATH` and `BACKUP_DIR`: the directory snapshot is passed in instead.
- `os.path.isdir`, `os.listdir`, `os.path.isfile`, `os.path.getmtime`: these filesystem calls become the `dirExists` flag and the `Entry` fields. Symbolic links count as files exactly when `isfile` would follow them to one.
- The second `getmtime` call on line 59 reads the time again and races with writers. The model reads each modification time once.
- An exception from listing an existing directory: it propagates in the source and is not represented.
- An `OSError` (such as `FileNotFoundError`) from `os.path.getmtime` in the fallback key (line 58) or at line 59, when a listed file disappears before it is read: the snapshot holds one time per entry, so the model cannot show this.
- `BackupLocator.Locate`: uses the strict reading of `$`, so for a regular file named `app-5.db` followed by a newline it differs from the source. The source takes that file as a backup with epoch 5. The model treats the name as non-conforming, so it plays no part in the named case and counts only in the modification-time fallback. The source's reading of `$` is `BackupName.ParseBackupNameAsWritten` (see Findings), which like the rest of the model reads `\d` as ASCII digits.
- Floating point: the clock and modification times are exact `real`s. Float rounding is ignored, and so is an `OverflowError` when an epoch is too large to convert to float in `now - epoch`.
- `BackupName.ParseBackupName`: `\d` is read as ASCII `0`-`9` only. This diverges from the source: Python's `\d` and `int` also accept other Unicode decimal digits, so the source takes `app-٣.db` as a backup with epoch 3. The model rejects that name, so it counts only in the modification-time fallback.
- `BackupName.ParseBackupNameAsWritten`: reproduces Python's `$` but, like `ParseBackupName`, reads `\d` as ASCII `0`-`9` only. It rejects `app-٣.db`, which the source's match accepts with epoch 3, so it is the match as written only for names whose digits are ASCII.
- Names that are not Unicode text: an `Entry` name is a sequence of Unicode scalar values. On POSIX, `os.listdir` returns a name with bytes it cannot decode as lone surrogate escapes, and the source can return such a file from the modification-time fallback (lines 58-60). No such name can be written as a model string, so no modelled listing contains that file.

## Findings

| source | as written | input that shows it | evidently intended | confidence | as-written member | corrected member |
|---|---|---|---|---|---|---|
| app/app.py:42 | `$` in `^app-(\d+)\.db$` also matches just before a final newline, so a file named `app-5.db` plus a newline is taken as a backup with epoch 5 | `"app-5.db\n"` | the pattern is anchored at the true end of the name, so only `app-<digits>.db` is accepted | medium, not executed | `BackupName.TrailingNewlineAccepted` | `BackupName.ParseBackupName` |
