# zfs-scripts, modelled in Dafny

This project models and proves properties of three small Python tools for ZFS snapshot management:

- **zfs-pull**: pulls the newest snapshot of a dataset from a remote host into a local pool over `ssh`. The transfer is incremental from the newest snapshot both sides share, or a full recursive send when they share none. The destination is held under a per-destination lock file while this runs.
- **zfs-expire-snapshot**: reads `auto-YYYYMMDD[-]HHMM` snapshot names and classifies each one as hourly, daily (taken at hour 0) and weekly (taken at hour 0 on a Monday). It destroys the snapshots that every one of their classes has outlived.
- **pipemeter**: relays the standard output of one command into the standard input of another, chunk by chunk. It counts the bytes, raises on a short write, and returns both exit statuses with the count.

The shell is not modelled; its calls become inputs to the model:

- a listing is the text the command printed, or `None` when `check_output` raised;
- a transfer is its exit status;
- `os.open` gives a descriptor or nothing, and `flock` either grants the lock or does not;
- the producer in pipemeter is the sequence of chunks it returns;
- the consumer's `write` is a function giving the count it accepted.

The three expiry thresholds are inputs: `now` minus the hourly, daily and weekly retention periods, each as an instant in microseconds since 0001-01-01 00:00.

Modules:

| file | module | contents |
|---|---|---|
| `wrappers.dfy` | `Wrappers` | `Option` |
| `lines.dfy` | `Lines` | Python's `str.split` on one character, its inverse `Join`, and the empty-line filter |
| `zfs_pull.dfy` | `ZfsPull` | dataset split, listings, planner loop, send/receive pipeline, log message, `main`, lock file name, the `FileLock` class, and the script's entry point |
| `calendar.dfy` | `Calendar` | the proleptic Gregorian calendar of Python's `datetime`: month lengths, ordinals, weekdays (Monday is 0), and instants |
| `expire_snapshot.dfy` | `ExpireSnapshot` | the name pattern and its inverse formatter, `parse_snapshot`, the keep loop, and the line loop of `expire_snapshots` |
| `pipemeter.dfy` | `PipeMeter` | the read/write/count loop |

`zfs-pull.py` has no compression stage and no read-only receive; its receive command is exactly `zfs receive -x mountpoint -F -d <dstds>` (line 41).

## Model

| member | source | states |
|---|---|---|
| Lines.IndexOf | zfs-pull.py:58 | The index of the first occurrence of the character, or the length when there is none. |
| Lines.Split | zfs-expire-snapshot.py:32 | `str.split(sep)`: at least one piece, and no piece contains the separator. |
| Lines.JoinSplit | zfs-expire-snapshot.py:32 | Joining the pieces of a split with the separator gives back the original text. |
| Lines.SplitJoin | zfs-expire-snapshot.py:32 | Splitting the join of separator-free pieces gives back exactly those pieces. |
| Lines.NonEmpty | zfs-pull.py:50 | The filter `if snap != ''`: keeps exactly the non-empty lines and is never longer than its input. |
| Lines.NonEmptyAppend | zfs-pull.py:50 | The filter distributes over concatenation, so the original order is kept. |
| ZfsPull.SplitDataset | zfs-pull.py:57-61 | `srcds.split('/', 1)` unpacks exactly when there is a `/`. The pool part has no `/`, and pool + `/` + rest is the name. |
| ZfsPull.SplitDatasetUnique | zfs-pull.py:58 | The split is at the first `/`. Any pool without a `/` that reassembles the name is the one found. |
| ZfsPull.LocalListCommand | zfs-pull.py:50 | The local listing command, formatted as at line 50. ListCommandsDetermineDataset states its property. |
| ZfsPull.RemoteListCommand | zfs-pull.py:53 | The remote listing command over `ssh -o BatchMode=yes`, formatted as at line 53, with the escaped quotes of the `sed` expression. |
| ZfsPull.ListCommandsDetermineDataset | zfs-pull.py:49-53 | Different datasets get different listing commands, both locally and on one host. |
| ZfsPull.ReadSnapshots | zfs-pull.py:49-53 | Listing output becomes names that are non-empty and have no newline. They are exactly the non-empty output lines. |
| ZfsPull.ReadSnapshotsOfListing | zfs-pull.py:49-53 | A listing of one name per line reads back as exactly those names, in order. |
| ZfsPull.FirstLocal | zfs-pull.py:66-73 | The planner's `fromsnap`, read newest first. When it is a snapshot, that snapshot is both local and remote. |
| ZfsPull.FirstLocalIsNewestCommon | zfs-pull.py:66-73 | The chosen `fromsnap`: it is local, nothing newer in the remote list is local, and it is None exactly when no remote snapshot is local. |
| ZfsPull.NewestIsLocalIff | zfs-pull.py:66-75 | `fromsnap == tosnap` exactly when the newest remote snapshot exists locally. |
| ZfsPull.SelectFromSnap | zfs-pull.py:66-73 | The scan loop with `break` computes the newest common snapshot. |
| ZfsPull.SendCommand | zfs-pull.py:34-39 | The send command: `zfs send`, then `-R ` or `-I <fromsnap> `, then `srcds@tosnap`. SendCommandMode states which mode is chosen. |
| ZfsPull.SendCommandMode | zfs-pull.py:34-39 | The send command is `zfs send -R` exactly without a common snapshot and `zfs send -I` exactly with one. It always ends in `srcds@tosnap`. |
| ZfsPull.PullCommand | zfs-pull.py:31-41 | The pipeline of line 41: `ssh -o BatchMode=yes <host> "<send command>"` piped into `zfs receive -x mountpoint -F -d <dstds>`. The lemmas below show that its inputs can be read back from it. |
| ZfsPull.PullMessage | zfs-pull.py:35-38 | The log message of lines 35 and 38: `Pulling snapshot for <host>/<srcds>: `, the range, then ` to <dstds>`. |
| ZfsPull.PullMessageDeterminesTosnap | zfs-pull.py:35-38 | With everything else fixed, equal log messages name the same target snapshot. |
| ZfsPull.PullMessageDeterminesFromsnap | zfs-pull.py:38 | With everything else fixed, equal messages of incremental pulls name the same starting snapshot. |
| ZfsPull.PullCommandDeterminesTosnap | zfs-pull.py:36-41 | With everything else fixed, different target snapshots give different pipelines. |
| ZfsPull.PullCommandDeterminesFromsnap | zfs-pull.py:39-41 | With everything else fixed, different incremental bases give different pipelines. |
| ZfsPull.FullAndIncrementalDiffer | zfs-pull.py:34-41 | A full pull and an incremental pull from the same host never produce the same pipeline. |
| ZfsPull.Decide | zfs-pull.py:66-78 | Once both listings are in, the plan and the transfer. The outcome is never a root rejection or a listing failure. |
| ZfsPull.Replication | zfs-pull.py:55-78 | One run of `main` as a function: the root check, the two listings in order, then the plan. The lemmas below state its properties. |
| ZfsPull.Replicate | zfs-pull.py:55-78 | `main` as a method: it follows the run that the lemmas below describe, with the planner scan written as a loop. |
| ZfsPull.RootRejectedBeforeListing | zfs-pull.py:57-64 | A source without `/` is rejected exactly when it has no `/`, before any listing. Otherwise the remote listing asks for `srcds`, and the local one asks for `dstds/` plus everything after the first `/`. |
| ZfsPull.EmptyRemoteNeverPulls | zfs-pull.py:63-67 | An empty remote listing ends the run with the IndexError of `remote_snapshots[0]`, and no transfer happens. |
| ZfsPull.PlanPullsNewestFromNewestCommon | zfs-pull.py:66-78 | No transfer happens exactly when the newest remote snapshot is local. Otherwise the newest snapshot is pulled from the newest common one, as a full send when there is none, and the transfer's status is reported. |
| ZfsPull.LocalOrderIrrelevant | zfs-pull.py:64-71 | The run depends only on which names the local listing holds, not on their order or repetition. |
| ZfsPull.ReplaceSlashes | zfs-pull.py:88 | `replace('/', '--')` leaves no `/` and never shortens the name. |
| ZfsPull.RestoreReplace | zfs-pull.py:88 | For names without `-`, the replacement can be undone. |
| ZfsPull.LockPath | zfs-pull.py:88 | The lock file is `/var/run/zfs-pull-` + a segment without `/` + `.lock`. |
| ZfsPull.LockPathInjective | zfs-pull.py:88 | Destinations without `-` in their names get distinct lock files. |
| ZfsPull.LockPathCollision | zfs-pull.py:88 | `tank/a` and `tank--a` share one lock file. |
| ZfsPull.ReleaseAsWritten | zfs-pull.py:20-23 | After the release as written (`if self.fd:`), a descriptor is still held exactly when it was descriptor 0. |
| ZfsPull.ReleaseAsWrittenKeepsDescriptorZero | zfs-pull.py:20-23 | A lock held on descriptor 0 is neither closed nor forgotten by the release as written. |
| ZfsPull.FileLock.constructor | zfs-pull.py:12-14 | A new lock holds no descriptor and no lock. |
| ZfsPull.FileLock.Acquire | zfs-pull.py:16-18 | A failed open changes nothing. A successful one keeps the descriptor, and holds the lock exactly when `flock` granted it. |
| ZfsPull.FileLock.Release | zfs-pull.py:20-23 | The corrected release of the Findings table, which tests the descriptor with `is not None`. From any state, afterwards no descriptor is held and no lock is held. A second release therefore finds nothing to close. |
| ZfsPull.ExitStatus | zfs-pull.py:80-89 | The process exits with 0 exactly when the run was up to date or pulled, and with 1 otherwise. |
| ZfsPull.Cli | zfs-pull.py:80-89 | Fewer than three arguments is a usage error, and no lock is taken. A lock that cannot be taken ends the run at `LockPath(dstds)`. A taken lock runs `main` on the three arguments. The corrected release then leaves the returned lock with no descriptor and no lock. |
| Calendar.IsLeap | zfs-expire-snapshot.py:20 | The Gregorian leap-year rule that `datetime` uses: divisible by 4, except centuries not divisible by 400. |
| Calendar.ValidDate | zfs-expire-snapshot.py:20 | The dates `datetime` accepts: year 1 to 9999, month 1 to 12, and a day within that month's length. |
| Calendar.ValidDateTime | zfs-expire-snapshot.py:20 | The fields `datetime(year, month, day, hour, minute)` accepts without a ValueError: a valid date, hour below 24, minute below 60. |
| Calendar.DaysInMonth | zfs-expire-snapshot.py:20 | Months have 28 to 31 days, and 29 exactly for February of a leap year. |
| Calendar.MonthsFillYear | zfs-expire-snapshot.py:20 | The twelve months add up to 365 or 366 days. |
| Calendar.DaysBeforeYearStep | zfs-expire-snapshot.py:25 | The closed form for the days before a year advances by the length of each year. |
| Calendar.Weekday | zfs-expire-snapshot.py:25 | `weekday()` is between 0 and 6. |
| Calendar.FirstDayIsMonday | zfs-expire-snapshot.py:25 | 0001-01-01 has ordinal 1 and is a Monday. |
| Calendar.Ordinal | zfs-expire-snapshot.py:20-25 | `toordinal()`: the day number from 0001-01-01, which is day 1. OrdinalNextDay and OrdinalOrder state its properties. |
| Calendar.OrdinalNextDay | zfs-expire-snapshot.py:25 | The next calendar date is valid and has the next ordinal. |
| Calendar.WeekdayNextDay | zfs-expire-snapshot.py:25 | Consecutive dates fall on consecutive weekdays. |
| Calendar.OrdinalWithinYear | zfs-expire-snapshot.py:25 | A date's ordinal lies within its year. |
| Calendar.OrdinalOrder | zfs-expire-snapshot.py:44 | Dates that are earlier field by field have smaller ordinals. |
| Calendar.Instant | zfs-expire-snapshot.py:44 | The instant of a datetime in microseconds, never negative. InstantOrder states its ordering. |
| Calendar.InstantOrder | zfs-expire-snapshot.py:44 | Comparing instants is comparing datetimes field by field. |
| ExpireSnapshot.DigitsValue | zfs-expire-snapshot.py:20 | `int()` of `n` decimal digits is below 10^n. |
| ExpireSnapshot.DigitsValueOfDigits | zfs-expire-snapshot.py:20 | Reading back a zero-padded number gives the number. |
| ExpireSnapshot.DigitsOfDigitsValue | zfs-expire-snapshot.py:20 | Zero-padding the value of a digit string gives back the string. |
| ExpireSnapshot.MatchName | zfs-expire-snapshot.py:9-16 | `tsreg.match`: a match needs `auto-` and eight digits at the start, and reads the five groups, with the time after an optional `-`. |
| ExpireSnapshot.MatchFormatted | zfs-expire-snapshot.py:9-16 | `auto-` + 8 digits + an optional `-` + 4 digits matches, with its own fields, whatever text follows. |
| ExpireSnapshot.ReadStampDigits | zfs-expire-snapshot.py:9-18 | The five groups read from eight date digits and four time digits fit four and two digits each, and format back to exactly those digits. |
| ExpireSnapshot.MatchedIsFormatted | zfs-expire-snapshot.py:9-16 | Every matching name begins with the formatted name of the fields it yields. |
| ExpireSnapshot.Classes | zfs-expire-snapshot.py:22-26 | The class string is `h`, `hd` or `hdw`. It has `d` exactly at hour 0, and `w` exactly at hour 0 on a Monday. |
| ExpireSnapshot.ParseSnapshot | zfs-expire-snapshot.py:11-28 | A parsed snapshot has a valid date and time, and its class string is that of its timestamp. |
| ExpireSnapshot.ParseFormatted | zfs-expire-snapshot.py:16-28 | A formatted name parses to its fields when they form a date and time. It is a date error otherwise, for example year 0, month 0 or 13, a day past the end of the month, an hour of 24 or more, or a minute of 60 or more. |
| ExpireSnapshot.NoMatchUnlessFormatted | zfs-expire-snapshot.py:16-17 | A name that does not start with a formatted name does not match. |
| ExpireSnapshot.KeepSnapshot | zfs-expire-snapshot.py:42-46 | The flag loop with `break` keeps the snapshot exactly when some class of it has `ts >= expires[c]`. |
| ExpireSnapshot.KeptByClass | zfs-expire-snapshot.py:22-46 | A parsed snapshot is kept when it is within the hourly threshold, or taken at hour 0 and within the daily one, or taken at hour 0 on a Monday and within the weekly one. |
| ExpireSnapshot.StopIndex | zfs-expire-snapshot.py:32-36 | The loop stops at the first line that is empty or does not split into two parts on `@`. |
| ExpireSnapshot.IsExpired | zfs-expire-snapshot.py:36-48 | One line: parse the snapshot part, skip it on any parse failure, otherwise destroy it when no class keeps it. |
| ExpireSnapshot.ExpireSnapshots | zfs-expire-snapshot.py:30-52 | The line loop destroys, in order, the expired lines before the stop, and aborts on a non-empty stop line. |
| ExpireSnapshot.ExpiredAmong | zfs-expire-snapshot.py:48-52 | The expired lines of a listing, in order, never more than there are lines. |
| ExpireSnapshot.Expire | zfs-expire-snapshot.py:30-52 | One call of `expire_snapshots` as a function: the expired lines before the stopping line, and that line when it aborts the run. ExpireOutcome states its properties. |
| ExpireSnapshot.ExpiredAmongExact | zfs-expire-snapshot.py:48-52 | A line is selected exactly when it is in the listing and expired. |
| ExpireSnapshot.ExpiredAmongAppend | zfs-expire-snapshot.py:32-52 | Selection distributes over concatenation, so the listing order is kept. |
| ExpireSnapshot.LaterLinesIgnored | zfs-expire-snapshot.py:32-36 | Nothing after the first empty or unsplittable line affects the run. |
| ExpireSnapshot.ExpireOutcome | zfs-expire-snapshot.py:32-52 | Only expired lines before the stop are destroyed, each by its full `ds@snap` text, so nothing is destroyed when the first line stops the run. Every expired line before the stop is destroyed. The run aborts exactly on a non-empty line without exactly one `@`. |
| ExpireSnapshot.UnparsedNeverDestroyed | zfs-expire-snapshot.py:37-40 | A snapshot that does not match the pattern, or matches with no such date, is never destroyed. |
| PipeMeter.FirstEmpty | pipemeter.py:19-22 | The loop ends at the first zero-length read, and every earlier read is non-empty. |
| PipeMeter.FirstShort | pipemeter.py:24-26 | Finds the first write that accepts fewer bytes than its chunk. Every earlier write was accepted in full. |
| PipeMeter.Pipemeter | pipemeter.py:16-33 | If no write is short: the result is (status1, status2, total length of the chunks read before the first empty read), and exactly those chunks were written, once each, in order. On the first short write: the error carries the wanted and written counts, and the chunks up to and including that one were written. |
| PipeMeter.CountIsRelayedLength | pipemeter.py:24-28 | The count equals the length of the concatenation of the written chunks. |
| PipeMeter.CountIsAccepted | pipemeter.py:24-28 | Without a short write, the count is exactly the sum of what the writes accepted. |
| PipeMeter.OutcomeIgnoresLaterInput | pipemeter.py:19-22 | Chunks after the first zero-length read are never read and do not affect the outcome. |
| PipeMeter.FirstShortPrefix | pipemeter.py:24-26 | Which write is short depends only on the chunks written so far. |

## Left out

- Every `subprocess` call (`check_call`, `check_output`, `Popen`, `wait`) is an input. The model takes the text of each zfs-pull listing (or its failure), the text of the zfs-expire-snapshot listing, the transfer's exit status, the chunks the producer emits, the consumer's accepted counts, and both exit statuses.
- The `sed -e "s/.*@//"` inside the listing commands runs in the shell. The model builds the command string but does not compute its effect.
- The dataset-name prefix that `sed` removes is taken as already removed in the listing text.
- `os.open` and `fcntl.flock` (zfs-pull.py:17-18) are an optional descriptor and a granted/not-granted flag. Operating-system lock semantics, and the descriptor that stays open when `flock` refuses, are left to process exit.
- `syslog`, `time.time()` and the elapsed-seconds message (zfs-pull.py:43-47, zfs-expire-snapshot.py:49) are side channels with floating point.
- The usage text printed at zfs-pull.py:83 is not modelled; only the usage error is.
- `datetime.now()`, `timedelta` and argparse (zfs-expire-snapshot.py:55-69) are not modelled. The three thresholds are instant inputs.
- ExpireSnapshot.ExpireSnapshots: a failing `zfs list` at zfs-expire-snapshot.py:32 is not modelled. Its `check_output` raises and ends the script, but the model takes the listing text as given.
- The loop over datasets at zfs-expire-snapshot.py:71-72 is not modelled. The model covers one `expire_snapshots` call. In the source, an aborted call ends the whole script, so later datasets are never processed. A call aborts on the uncaught ValueError of line 36 or on a failing destroy at line 52.
- The `zfs list` and `zfs destroy` command strings of zfs-expire-snapshot.py (lines 31 and 51) are not modelled. The model returns the ordered list of `ds@snap` lines to destroy.
- ZfsPull.Cli: runs the corrected release of the Findings table (ZfsPull.FileLock.Release). The script as written runs `release` with `if self.fd:`. When the lock was opened on descriptor 0, that release neither closes the descriptor nor drops the lock, and both stay held until the process exits. ZfsPull.ReleaseAsWritten models that behaviour.
- ExpireSnapshot.ExpireSnapshots: assumes every `zfs destroy` succeeds. In the source, a failing destroy raises from `check_call` and ends the run early.
- Concurrency and backpressure between pipemeter's two child processes are not modelled; only the sequential loop is.
- PipeMeter.Pipemeter: the request size of `read(CHUNKSIZE)` at pipemeter.py:19 is not modelled. That no chunk is longer than 65536 bytes is assumed of the producer, as a precondition, and passed through to the written chunks.
- A `read` or `write` that raises is not modelled, for example a `write` that raises a broken-pipe error when the consumer exits early (pipemeter.py:19, 24). The producer only returns chunks, and `write` only returns counts.
- Closing the pipes (pipemeter.py:30-31) has no effect in the model.
- PipeMeter.Pipemeter: `write` is modelled as returning the accepted count, as a raw file does under Python 3. Under Python 2 it returns None, which would make every non-empty write count as short.
- Non-ASCII digits: the name pattern is a byte-string pattern, so `\d` means `0`-`9` and nothing else.

## Findings

| source | as written | input that shows it | evidently intended | confidence | as-written member | corrected member |
|---|---|---|---|---|---|---|
| zfs-pull.py:20-23 | `release` closes the descriptor only `if self.fd:`, and descriptor 0 is falsy | the process starts with standard input closed, so `os.open` returns descriptor 0: release neither closes it nor clears `fd` | close whenever a descriptor is held (`if self.fd is not None`) | low, not executed | ZfsPull.ReleaseAsWritten | ZfsPull.FileLock.Release |
