# Download command and memoisation helpers of the MQTT controls plugin

This project models, in Dafny, the file-download command of the OctoPrint
MQTT controls plugin, and the two memoisation helpers the plugin uses.

- **Registry.** A module-level table maps each download's uid to its thread.
  `_set_download_thread` overwrites an entry. `_pop_download_thread` removes
  an entry and returns it, or returns None. The lock only makes each call
  atomic, so the table is a `map` updated one call at a time (`Registry`).
- **Command.** `DownloadFile.execute` reads one parsed payload. It stops a
  registered download, or starts a new one, or logs the payload as invalid.
  It raises KeyError when `uid` or `timestamp` is missing. The model returns
  the new table and the single action taken (`DownloadFile`).
- **Download thread.** The thread has a stop flag that only ever goes up.
  The transfer calls a progress callback after each block. That callback
  either raises the stop signal or sends one progress report. An optional
  MD5 check follows, and `run` sends exactly one terminal report: `success`,
  `stopped` or `error` (`DownloadThread`, `Progress`, `Exceptions`).
- **Earlier version.** `commands/download_file.py` is an earlier,
  single-file version of the same command. There the checksum is mandatory,
  reports are `failed` or `verified` without a timestamp, and every failure
  is raised again (`LegacyDownloadFile`).
- **Memoisation.** `cached_call` keeps the first truthy result of a function
  with no arguments. `cached_property` stores its value in the instance's
  `__dict__`, and Python's attribute lookup finds it there the next time
  (`Cache`).

Payloads and reports are dicts with string keys, `map<string, PyValue>`.
`PyValue` holds the JSON scalars None, bool, int, float and str, with
Python's truthiness: a `stop` of `0.0` is falsy like `0`. A transfer is modelled as the sequence of callbacks it makes,
with any stop requests from the command interleaved, followed by how it
ended: it returned a file name, or it failed. The MD5 digest of a file is a
function parameter. Python's `repr` of values and exceptions is a function
parameter too.

Behaviour of the code worth noting:
- Progress is Python 2 `round` of the exact ratio, with halves rounded away
  from zero. It is not the floor.
- A finished thread never removes itself from the table. Its entry stays
  until a stop pops it or a new start overwrites it.
- A second start under a uid that is still registered overwrites the entry.
  It is not rejected.
- The `reason` of an error report is `repr(exception)`, which the model
  keeps abstract. The `message` attributes built in `exceptions.py` are
  modelled separately. Python 2 builds `repr` from the constructor's
  positional arguments. `ChecksumVerificationError` is raised with keyword
  arguments only, so its repr need not show the digests.
- A payload without `uid` or `timestamp` makes `execute` raise KeyError. It
  is not a silent no-op.

## Model

| member | source | states |
|---|---|---|
| Registry.SetThread | octoprint_mqtt_controls/commands/download_file/__init__.py:13-15 | after a set, the uid maps to the new thread, replacing any earlier one; the key set grows by that uid only, and every other uid keeps its thread |
| Registry.PopThread | octoprint_mqtt_controls/commands/download_file/__init__.py:18-20 | a pop returns the uid's thread and removes only that key; for an absent uid it returns None and leaves the table unchanged |
| Registry.PopTwice | octoprint_mqtt_controls/commands/download_file/__init__.py:20 | popping the same uid twice in a row: the second pop returns None and changes nothing |
| Registry.SetThenPop | octoprint_mqtt_controls/commands/download_file.py:12-19 | in the earlier copy of the same table too, a pop after a set returns exactly the thread that was set and leaves the table as before minus that uid |
| Registry.PopThenSetRestores | octoprint_mqtt_controls/commands/download_file.py:17-19 | setting a popped thread back under its uid restores the table: pop is undone by set |
| Exceptions.NewStopDownload | octoprint_mqtt_controls/commands/download_file/exceptions.py:3-4 | a StopDownload exists only when exactly one uid argument is passed, and it carries that uid; any other argument count gives TypeError |
| Exceptions.NewChecksumVerificationError | octoprint_mqtt_controls/commands/download_file/exceptions.py:9-11 | the checksum error exists only when both `expected` and `calculated` are passed, and it carries both; a missing one gives TypeError with the count of arguments given |
| Exceptions.StopDownloadMessage | octoprint_mqtt_controls/commands/download_file/exceptions.py:4 | the stop message is `Download `, then the uid's repr, then ` has been forcefully stopped`, at those exact positions |
| Exceptions.StopMessageRoundTrip | octoprint_mqtt_controls/commands/download_file/exceptions.py:3-4 | reading a stop message back always recovers the uid's repr |
| Exceptions.StopMessageIdentifiesUid | octoprint_mqtt_controls/commands/download_file/exceptions.py:3-4 | under an injective repr, equal stop messages name the same uid |
| Exceptions.ChecksumMessage | octoprint_mqtt_controls/commands/download_file/exceptions.py:10-11 | the checksum message starts with `Checksums do not match: `, then the expected digest's repr, then ` != `, and ends with the calculated digest's repr |
| Exceptions.ChecksumMessageIdentifiesDigests | octoprint_mqtt_controls/commands/download_file/exceptions.py:9-11 | under an injective repr, and with equally long expected reprs, equal checksum messages come from the same expected and the same calculated digest, in that order |
| Progress.MarkerFromValue | octoprint_mqtt_controls/commands/download_file/progress.py:6-9 | looking a marker up by its value finds the marker with that value, or None when no marker has it |
| Progress.MarkerValuesDistinct | octoprint_mqtt_controls/commands/download_file/progress.py:7-9 | `error`, `stopped` and `success` are three distinct strings: two markers share a value only if they are the same marker |
| Progress.RoundHalfAway | octoprint_mqtt_controls/commands/download_file/download_thread.py:73 | the result is within one half of n/d, and a tie goes away from zero (Python 2 `round`) |
| Progress.PercentDone | octoprint_mqtt_controls/commands/download_file/download_thread.py:71-76 | with total_size > 0, progress is an int in 0..100 that is 100 exactly when the ratio is at least 99.5%, and is otherwise the nearest integer to 100*bc*bs/ts; with total_size <= 0, it is None |
| DownloadThread.ScheduleToStop | octoprint_mqtt_controls/commands/download_file/download_thread.py:46-48 | the stop flag is set, and neither the thread nor its reports change |
| DownloadThread.ReportData | octoprint_mqtt_controls/commands/download_file/download_thread.py:50-57 | a report has the keys uid and timestamp plus the data's keys; the data's values win, and uid and timestamp are the thread's unless the data overrides them |
| DownloadThread.ProgressData | octoprint_mqtt_controls/commands/download_file/download_thread.py:71-76 | the data of a progress report is the single key `progress`, holding the computed percentage |
| DownloadThread.TerminalData | octoprint_mqtt_controls/commands/download_file/download_thread.py:59-69 | the data of the terminal report holds the marker for how the try-block ended (`success` for none, `stopped` for StopDownload, `error` otherwise), which reads back as that marker; only an `error` report has a second key, `reason`, holding the exception's repr |
| DownloadThread.ReportHook | octoprint_mqtt_controls/commands/download_file/download_thread.py:78-83 | the callback raises the stop signal exactly when the flag is set, and then reports nothing; otherwise it appends exactly one progress report with the computed percentage; it never changes the flag |
| DownloadThread.Drive | octoprint_mqtt_controls/commands/download_file/download_thread.py:107-110 | over any transfer the flag never goes down; every report is a progress report; a callback raises exactly when a stop was requested before it, and then it raises the signal; with no raise, the reports are one per callback; with the flag already up, no report is sent |
| DownloadThread.DriveReportsBeforeStopAt | octoprint_mqtt_controls/commands/download_file/download_thread.py:78-83 | when the first stop request sits at index i and a callback follows it, the transfer raises the signal after exactly one report for each callback before i |
| DownloadThread.DriveReportsBeforeStop | octoprint_mqtt_controls/commands/download_file/download_thread.py:78-83 | the same count, for every index that holds the first stop request reaching a callback |
| DownloadThread.FirstStopExists | octoprint_mqtt_controls/commands/download_file/download_thread.py:78-83 | whenever a stop request reaches a callback, the first stop request reaches one too, so the count above covers every stopped transfer |
| DownloadThread.DriveFollowsCallbacks | octoprint_mqtt_controls/commands/download_file/download_thread.py:78-83 | the reports a transfer sends follow its callbacks: there are no more than there are callbacks, and the k-th carries the percentage of the k-th callback |
| DownloadThread.VerifyFileHash | octoprint_mqtt_controls/commands/download_file/download_thread.py:85-105 | a falsy md5 skips verification; otherwise it hashes the returned file, or the thread's path when that name is empty; it passes exactly when md5 equals the digest, and a failure carries expected = md5 and calculated = digest, which differ |
| DownloadThread.VerificationSkippedWithoutMd5 | octoprint_mqtt_controls/commands/download_file/download_thread.py:91-92 | without an md5 the digest is never consulted: every digest function gives the same result, a pass |
| DownloadThread.Outcome | octoprint_mqtt_controls/commands/download_file/download_thread.py:107-111 | the try-block ends with the stop signal whenever a stop reached a callback; otherwise with the transfer's failure if it failed, or with what verification of the returned file gives |
| DownloadThread.Run | octoprint_mqtt_controls/commands/download_file/download_thread.py:107-117 | a run sends progress reports and then one report, the last, whose data is chosen by how the try-block ended; the progress reports follow the transfer's callbacks in order, each carrying its own callback's percentage; when no stop reaches a callback there is exactly one per callback, and when one does, exactly one per callback before the first stop request |
| DownloadThread.RunReportsOneTerminal | octoprint_mqtt_controls/commands/download_file/download_thread.py:59-69 | exactly one report of a run carries a terminal marker, and it is the last; only an `error` report has a reason; every report names the thread's uid and timestamp |
| DownloadThread.TerminalReportShape | octoprint_mqtt_controls/commands/download_file/download_thread.py:59-69 | the terminal report for any outcome names the thread's uid and timestamp and carries that outcome's marker, with a reason exactly when the marker is `error` |
| DownloadThread.StoppedIffStopObserved | octoprint_mqtt_controls/commands/download_file/download_thread.py:112-113 | with the intended stop signal, a run ends in `stopped` exactly when a stop request reached a later callback |
| DownloadThread.SuccessIffCompleted | octoprint_mqtt_controls/commands/download_file/download_thread.py:116-117 | a run ends in `success` exactly when no stop reached a callback, the transfer returned a file, and verification passed |
| DownloadThread.ChecksumMismatchReportsError | octoprint_mqtt_controls/commands/download_file/download_thread.py:100-115 | a digest mismatch after a complete transfer ends in `error`, with the repr of the checksum error for md5 and that digest as the reason |
| DownloadThread.NoMd5CompletedIsSuccess | octoprint_mqtt_controls/commands/download_file/download_thread.py:91-92 | with no md5, an unstopped complete transfer always ends in `success`, whatever the digest |
| DownloadThread.IntendedStopSignal | octoprint_mqtt_controls/commands/download_file/download_thread.py:112 | the signal the stop handler expects is StopDownload carrying the thread's uid |
| DownloadThread.AsWrittenStopSignal | octoprint_mqtt_controls/commands/download_file/download_thread.py:81 | `raise StopDownload` with no argument evaluates to TypeError (2 arguments expected, 1 given) |
| DownloadThread.AsWrittenNeverStopped | octoprint_mqtt_controls/commands/download_file/download_thread.py:80-81 | as written, no run ever ends in `stopped` |
| DownloadThread.StopBeforeFirstCallback | octoprint_mqtt_controls/commands/download_file/download_thread.py:78-83 | with a stop before the first callback, the intended code sends exactly one `stopped` report; the code as written sends one `error` report carrying the TypeError |
| DownloadFile.Execute | octoprint_mqtt_controls/commands/download_file/__init__.py:31-63 | a missing uid or timestamp raises KeyError before any change; a stop for a registered uid removes it and schedules that thread's stop; otherwise, without url or filename, the payload is logged and the table is unchanged; otherwise a thread with the payload's uid, timestamp and url, the joined path and md5 (None when absent) is registered and started |
| DownloadFile.NewThread | octoprint_mqtt_controls/commands/download_file/__init__.py:49-58 | a started thread carries the payload's uid, timestamp and url, the file name joined to the uploads directory, and md5, which is None when the payload has none |
| DownloadFile.StartThenStopRestores | octoprint_mqtt_controls/commands/download_file/__init__.py:35-60 | starting under a free uid and then stopping hands the stop to exactly the started thread and restores the original table |
| DownloadFile.SecondStopIsLogged | octoprint_mqtt_controls/commands/download_file/__init__.py:35-48 | a second identical stop finds nothing registered and, having nothing to start, is only logged, with the table unchanged |
| DownloadFile.UnregisteredStopFallsThrough | octoprint_mqtt_controls/commands/download_file/__init__.py:35-42 | a stop for an unregistered uid does not return early: with url and filename present it starts a download |
| DownloadFile.RestartOrphansEarlierThread | octoprint_mqtt_controls/commands/download_file/__init__.py:49-60 | a second start under a registered uid replaces the first thread object; a later stop reaches the second one, a different object from the first even for equal payloads, and no entry of the table then holds the first |
| DownloadFile.OtherEntriesUntouched | octoprint_mqtt_controls/commands/download_file/__init__.py:13-20 | whatever the payload, every uid other than the payload's keeps its entry |
| LegacyDownloadFile.LegacyPercent | octoprint_mqtt_controls/commands/download_file.py:63-67 | for a positive size the earlier progress is exactly the current version's rounded, capped percentage; it is not guarded: a zero size raises ZeroDivisionError, and a negative size with over half a percent of progress gives a negative value |
| LegacyDownloadFile.LegacyUnknownSizeGoesNegative | octoprint_mqtt_controls/commands/download_file.py:64-67 | for one 8192-byte block of unknown size (-1), the earlier code reports -819200 where the current code reports None |
| LegacyDownloadFile.LegacyEmit | octoprint_mqtt_controls/commands/download_file.py:68-84 | an earlier report is appended after the existing ones and holds exactly `uid`, the thread's, and `progress` |
| LegacyDownloadFile.LegacyReportHook | octoprint_mqtt_controls/commands/download_file.py:86-91 | the earlier callback raises the stop signal when the flag is set, ZeroDivisionError for a zero size, and otherwise appends one report holding only uid and progress |
| LegacyDownloadFile.LegacyDrive | octoprint_mqtt_controls/commands/download_file.py:86-91 | over any transfer the earlier thread's flag never goes down; its reports are uid-and-integer progress reports; it raises exactly when a callback sees the flag set or a zero size, and then raises the stop signal or ZeroDivisionError; with no raise, the reports are one per callback |
| LegacyDownloadFile.LegacyDriveFirstRaiseAt | octoprint_mqtt_controls/commands/download_file.py:86-91 | at the first callback that raises, the earlier transfer raises the stop signal when a stop was requested before it (the flag is tested before the size) and ZeroDivisionError otherwise, after exactly one report for each callback before it |
| LegacyDownloadFile.LegacyDriveFirstRaise | octoprint_mqtt_controls/commands/download_file.py:86-91 | the same exception and count, for every index that holds the first raising callback |
| LegacyDownloadFile.FirstLegacyRaiseExists | octoprint_mqtt_controls/commands/download_file.py:86-91 | whenever the earlier transfer raises, some callback is the first to, so the exception and count above cover every raise |
| LegacyDownloadFile.LegacyDriveFollowsCallbacks | octoprint_mqtt_controls/commands/download_file.py:86-91 | the earlier thread's reports follow its callbacks: there are no more than there are callbacks, and the k-th carries the earlier percentage of the k-th callback |
| LegacyDownloadFile.LegacyVerify | octoprint_mqtt_controls/commands/download_file.py:93-107 | verification always runs; it passes exactly when the checksum equals the digest and then sends one `verified` report; a mismatch raises ValueError and sends nothing |
| LegacyDownloadFile.LegacyFailedRun | octoprint_mqtt_controls/commands/download_file.py:73-78 | a failure keeps every report sent so far, adds one `failed` report with the uid and the exception's repr, and hands the exception back to be raised |
| LegacyDownloadFile.LegacyVerifiedRun | octoprint_mqtt_controls/commands/download_file.py:80-84 | a run that raised nothing keeps every report sent so far and adds one `verified` report with the uid |
| LegacyDownloadFile.LegacyOutcome | octoprint_mqtt_controls/commands/download_file.py:86-114 | the earlier try-block ends with the first raising callback's exception (the stop signal after a stop request, else ZeroDivisionError), else the transfer's failure, else the failure to read the hashed file, else ValueError('File checksums do not match') on a mismatch, and nothing exactly when the file was returned and matches |
| LegacyDownloadFile.LegacyRun | octoprint_mqtt_controls/commands/download_file.py:109-116 | the run re-raises exactly the try-block's exception; any exception leads to one final `failed` report with that exception's repr, otherwise the last report is `verified`; the run raises nothing exactly when no stop reached a callback, no callback had size zero, a file was returned, and its digest matches the checksum; the reports before the last follow the callbacks in order with each callback's percentage, one per callback when nothing raised during the transfer, and one per callback before the first raising callback when one did |
| LegacyDownloadFile.LegacyRunOneTerminal | octoprint_mqtt_controls/commands/download_file.py:68-84 | exactly one report of an earlier run is `failed` or `verified`, and it is the last; every report has a uid and none has a timestamp |
| LegacyDownloadFile.LegacyMismatchFails | octoprint_mqtt_controls/commands/download_file.py:99-106 | when the file that is hashed does not match the checksum, or cannot be read, the earlier run always fails and re-raises |
| LegacyDownloadFile.LegacyCleanRunVerified | octoprint_mqtt_controls/commands/download_file.py:105-113 | a transfer with no stop request and no zero size that returns a file matching the checksum ends in `verified` after one progress report per callback |
| LegacyDownloadFile.LegacyExecute | octoprint_mqtt_controls/commands/download_file.py:128-155 | KeyError exactly when uid or timestamp is missing; a stop exactly when the stop names a registered uid, which is removed; a start exactly otherwise when url, filename and checksum are all present, including after a stop for an unregistered uid, registering a thread with the payload's uid, url and checksum, the joined path and no timestamp; otherwise the payload is only logged and the table is unchanged |
| LegacyDownloadFile.LegacyRequiresChecksum | octoprint_mqtt_controls/commands/download_file.py:138-145 | a start with url and filename but no checksum creates no thread and leaves the table unchanged |
| LegacyDownloadFile.LegacyUnregisteredStopFallsThrough | octoprint_mqtt_controls/commands/download_file.py:132-150 | a stop for an unregistered uid does not return early: with url, filename and checksum it starts a thread for that uid carrying the checksum |
| Cache.CallWrapper | octoprint_mqtt_controls/util/cache.py:19-27 | a truthy stored result is returned without running the function; otherwise the function runs once more: a value it returns is stored and returned, and an exception it raises propagates and leaves the stored result as it was |
| Cache.CallRepeatedly | octoprint_mqtt_controls/util/cache.py:23-27 | over n calls of a fresh wrapper, when none of the function's first k calls returns a truthy value (each returns a falsy one or raises) and, if the wrapper gets that far, the k-th does: the function runs min(n, k+1) times, each of the first k calls gives the function's own answer, and every call from the k-th on returns that truthy value; with k >= n the function runs on every call |
| Cache.UnkeptAnswerIsRetried | octoprint_mqtt_controls/util/cache.py:25-26 | after a falsy answer or an exception, nothing truthy is kept (an exception leaves the stored result as it was), so the next call runs the function again and gives its new answer |
| Cache.DescriptorGet | octoprint_mqtt_controls/util/cache.py:11-16 | on the class, the descriptor itself, with no call; on an instance, one call with that instance: a returned value is stored under the function's name in that instance's dict only, and an exception propagates and stores nothing |
| Cache.AccessRepeatedly | octoprint_mqtt_controls/util.py:6-11 | n accesses on an instance that has not cached the value, when the function raises on its first k calls: each of the first min(n, k+1) accesses calls it with that instance and yields its answer, every later access yields the value it returned without a call, and only that instance's dict gains the entry |
| Cache.DirectGetRunsEachTime | octoprint_mqtt_controls/util/cache.py:15-16 | calling `__get__` directly twice runs the function twice, and the second access yields the second answer; the caching comes only from the instance dict being consulted first |

## Left out

- Network and file I/O. `urlretrieve`, file reading and `hashlib` are not modelled. A transfer is a sequence of callbacks and stop requests, then a returned file name or a failure. The digest is a function parameter that may also report a read error.
- Threads, `Event` and `Lock`. Each registry call is atomic, so the model is sequential. Starting a thread is the `StartThread` action. A thread object's identity is a number the caller of `execute` supplies, and it must give each start a new one. A stop that arrives after the transfer has ended has no effect, because the flag is only read by the callback.
- Floating point. Progress uses exact rational arithmetic with Python 2 rounding. This idealises `float` division and `round`, including for very large byte counts.
- Python `repr` of values and exceptions. It is a function parameter, so report reasons are only known up to that function.
- Logging in `execute` and in the plugin. It has no effect on the table or the reports.
- `os.path.join` and the uploads or settings location. They are parameters. The error a non-string file name would raise is not modelled.
- Payload values are JSON scalars only. Lists and objects are left out. A float is its exact value, without rounding to a double. Python's equality of `True`, `1` and `1.0` as dict keys is left out too: the model keeps them as distinct uids.
- The report function is assumed never to raise.
- Cache.GetAttr: looks the cached value up under the wrapped function's `__name__`, which is where `__get__` stores it. When the property is bound to a different attribute name (`foo = cached_property(bar)`), Python misses the stored value and runs the function on every access; that case is not modelled.
- The thread machinery's treatment of the exception that the earlier `run` raises again is out of scope. The model only returns that exception.
- Plugin lifecycle, MQTT wiring, the HTTP request proxies, settings, `urlencode_safe`, the command base class and the printer/job state commands. They are plumbing outside the download command.

## Findings

| source | as written | input that shows it | evidently intended | confidence | as-written member | corrected member |
|---|---|---|---|---|---|---|
| octoprint_mqtt_controls/commands/download_file/download_thread.py:81 | `raise StopDownload` passes no uid, but `StopDownload.__init__` requires one. Python raises TypeError instead, `except StopDownload` does not catch it, and the run is reported as `error` (the same line is at download_file.py:89) | a stop request before a callback: events `[StopScheduled, Callback(0, 8192, 1000)]` | raise `StopDownload(self.uid)`, so the run is reported as `stopped` | high; not executed | DownloadThread.AsWrittenNeverStopped | DownloadThread.StoppedIffStopObserved |
| octoprint_mqtt_controls/commands/download_file.py:64-67 | progress divides by `total_size` with no guard. The transport passes -1 when the size is unknown, and 0 raises ZeroDivisionError | one 8192-byte block with total size -1 is reported as progress -819200 | progress None for an unknown size, as the current version does | high; not executed | LegacyDownloadFile.LegacyUnknownSizeGoesNegative | Progress.PercentDone |
