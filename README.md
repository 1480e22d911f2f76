# Grae-X Magic Eye Shield — a Dafny model of its detection core

Magic Eye Shield watches the user's download folders and warns when a file's
extension lies about its content: a file named `invoice.pdf` whose bytes are a
Windows executable is reported as suspicious. This project models the decision
logic of the application and the small state machines that consume its verdicts,
and proves what they promise.

- **Detector** (`src/detector.py`). `analyze` builds one detection record per file:
  - the base name;
  - the size in its unit;
  - the first 16 bytes as upper-case hexadecimal pairs;
  - libmagic's MIME type and description;
  - the extension the content implies (a fixed table with a `bin` fallback);
  - the extension the name claims (`os.path.splitext`, lower-cased, leading dots stripped);
  - the suspicious verdict: an extension is claimed, it differs from the implied one, and
    it is not one of the in-progress extensions `tmp`, `temp` and `part`.

  Any exception gives an error record instead.
- **Monitor** (`src/monitor.py`). The watchdog handler drops directory events. It drops
  paths that end, case-sensitively, with an ignored suffix (`src/config.py:9`). It
  analyses every other path and hands the record to the registered callback when that
  record is suspicious. `FileMonitor.start` watches every configured folder that exists,
  non-recursively.
- **Identifier** (`src/file_identifier.py`). The standalone identifier reports one of
  three outcomes: mismatch, no extension, or match. It has no in-progress exemption, and
  its MIME table lacks `application/x-msdos-program`. The model proves where it and the
  detector agree and where they do not.
- **Dashboard** (`src/dashboard.py`). It keeps:
  - the scanned, threat and safe counters;
  - the detection history;
  - the uptime decomposition;
  - the integer state of the scanner animation;
  - the list of monitored folders.
- **Popup** (`src/popup.py`). Only suspicious records raise an alert. The alert shortens
  the file name (40 characters), the description (50 characters plus "...") and the
  magic bytes (30 characters). Its auto-close countdown ticks from 10 down to 0.

libmagic and the file system are not modelled as code. What one path yields when it is
read is a `Files.Probe` value: either the size, the content, the MIME type and the
description, or the message of the exception that reading raised. `os.path.exists` and
`os.path.isfile` are parameters. The modules are:

| module | file |
|---|---|
| `Wrappers` | Option type |
| `Text` | ASCII `lower`, `endswith`, `lstrip` |
| `Files` | bytes, probe, `basename` |
| `Sizes` | unit thresholds |
| `Config` | ignore list and the shared folder list |
| `Detector` | the record builder |
| `Monitor` | the handler and the folder scheduling |
| `Identifier` | the standalone identifier |
| `Dashboard` | the statistics |
| `Popup` | the alert window |

The callback receives only suspicious records (`src/monitor.py:38-48`); safe and error
records are only printed. `Monitor.Forwarded` and `Monitor.ForwardedIff` state this rule.

The identifier's MIME table repeats the detector's twenty other pairs. The model writes it
as the detector's table without the `application/x-msdos-program` entry
(`Identifier.MimeTable`), which is the same map.

## Model

| member | source | states |
|---|---|---|
| `Files.Basename` | src/detector.py:11 | the base name has no '/', is a suffix of the path, and follows a '/' whenever it is shorter than the path |
| `Files.BasenameOfName` | src/detector.py:11 | a path without '/' is its own base name |
| `Text.Lower` | src/detector.py:18 | lower-casing keeps the length and maps each character through ASCII lower-casing |
| `Text.LowerIdempotent` | src/detector.py:19 | a lower-cased text has no capitals; lower-casing twice is lower-casing once; lower-case text is unchanged |
| `Text.LStrip` | src/detector.py:18 | `lstrip('.')` removes exactly a leading run of dots: the result is a suffix, what was removed is all dots, and the result does not start with a dot |
| `Detector.MimeToExtension` | src/detector.py:35-59 | the lookup is total: a MIME type outside the table gives "bin", one inside gives its table entry, and every result is a known extension |
| `Detector.ExecutableMimeTypes` | src/detector.py:41-42 | both `application/x-msdownload` and `application/x-msdos-program` map to "exe" |
| `Detector.KnownExtensionsAreLower` | src/detector.py:36-59 | every extension the table can yield is lower-case and has no '.' |
| `Detector.LastIndexOf` | src/detector.py:18 | the index found holds the character and nothing after it does; None exactly when the character is absent |
| `Detector.LastIndexOfAt` | src/detector.py:18 | an occurrence with no later occurrence is the one found |
| `Detector.SplitExt` | src/detector.py:18 | `splitext` of a base name: root and extension concatenate to the name; the extension is empty or one '.' followed by no other '.' |
| `Detector.StripDottedExtension` | src/detector.py:18 | lower-casing then stripping ".ext" gives the lower-cased text after the dot |
| `Detector.CurrentExtension` | src/detector.py:18 | the claimed extension is lower-case, contains no '.', and is empty whenever `splitext` finds no extension |
| `Detector.ExtensionOf` | src/detector.py:18 | for a stem that is not all dots and an `ext` without dots, the extension of "stem.ext" is `ext` lower-cased |
| `Detector.SplitAtLastDot` | src/detector.py:18 | a non-empty `splitext` extension starts at the last '.', which has a non-dot character before it |
| `Detector.ExtensionSource` | src/detector.py:18 | conversely, every non-empty extension comes from a name "stem.ext" of that shape |
| `Detector.NoDotNoExtension` | src/detector.py:18 | a name without '.' has no extension |
| `Detector.TrailingDotNoExtension` | src/detector.py:18 | a name ending in '.' has no extension |
| `Detector.LeadingDotsNoExtension` | src/detector.py:18 | a name whose only dots are leading ones (".bashrc") has no extension |
| `Detector.LeadingBytes` | src/detector.py:13-14 | `read(16)` yields the prefix of the content of length 16, or the whole content when it is shorter |
| `Detector.DigitValue` | src/detector.py:14 | the value of an upper-case hexadecimal digit, below 16, defined exactly on '0'-'9' and 'A'-'F' |
| `Detector.HexDigit` | src/detector.py:14 | the digit written for a value below 16 reads back as that value |
| `Detector.HexPair` | src/detector.py:14 | each byte is written as two upper-case hexadecimal digits whose value is the byte |
| `Detector.MagicHex` | src/detector.py:14 | n bytes render as 3n−1 characters, and as "" when n = 0 |
| `Detector.ParseHex` | src/detector.py:14 | a text that reads back to n bytes has length 3n−1, or 0 when n = 0 |
| `Detector.MagicHexRoundTrip` | src/detector.py:14 | the rendering reads back to exactly the bytes rendered |
| `Detector.MagicHexInjective` | src/detector.py:14 | different byte strings never render the same |
| `Detector.MagicHexPrefix` | src/detector.py:14 | the rendering of the first k bytes opens the rendering of all of them and is followed by a space when more bytes follow |
| `Detector.ShownExtension` | src/detector.py:29 | the shown extension is never empty: the claimed extension, or "(none)" |
| `Detector.Analyze` | src/detector.py:9-33 | an error record iff the file cannot be read, carrying the path and the message; otherwise the base name, the size, the rendered leading bytes, the MIME type, the description, the true extension and the shown claimed extension, each as computed from the path and the probe; a suspicious verdict implies a claimed, non-benign extension different from the true one; no extension gives a safe record showing "(none)" |
| `Detector.IsSuspicious` | src/detector.py:19-20 | the verdict: an extension is claimed, it differs from the true one ignoring case, and it is not tmp, temp or part (its meaning is proved in `Detector.SuspiciousIff`) |
| `Detector.SuspiciousIff` | src/detector.py:17-20 | for a readable file, suspicious iff the claimed extension is non-empty, not tmp/temp/part, and differs from the one the content implies |
| `Detector.NamedFileVerdict` | src/detector.py:17-20 | "stem.ext" is suspicious iff `ext` is not benign and differs from the table's extension for its MIME type |
| `Detector.UnknownContentVerdicts` | src/detector.py:17-20 | content outside the table is suspicious under every claimed extension except "bin" and the benign ones: "a.jpg" is reported, "data.bin" is not |
| `Detector.ExtensionNamed` | src/detector.py:11-18 | the claimed extension of the path "stem.ext" is `ext` |
| `Detector.FormatSize` | src/detector.py:61-66 | the division loop ends with the unit whose thresholds bracket the size and the exact quotient |
| `Sizes.Scale` | src/detector.py:62-65 | every unit is worth at least one byte |
| `Sizes.UnitFor` | src/detector.py:61-66 | the unit chosen is B below 1024, TB from 1024⁴, and otherwise the one whose scale is at most the size and 1024 times which exceeds it |
| `Sizes.UnitUnique` | src/detector.py:61-66 | no other unit meets those two bounds |
| `Sizes.Sized` | src/detector.py:61-66 | the shown value times the unit's scale is the size; it is below 1024 except in TB and at least 1 except in B |
| `Sizes.SizedUnique` | src/detector.py:61-66 | a value and unit that multiply back to the size, with the value at least 1 (except in B) and below 1024 (except in TB), are the ones shown |
| `Sizes.UnitAt` | src/detector.py:62 | each unit of the loop is 1024 times the one before |
| `Config.Join` | src/config.py:7 | `Path(dir) / name`: the directory, then exactly one '/', then the name, with no second '/' after the root directory |
| `Config.FolderList.constructor` | src/config.py:8 | the default folders are Downloads then Desktop under the home directory |
| `Monitor.Ignored` | src/monitor.py:30 | a path is ignored when it ends, case-sensitively, with one of the configured suffixes (its consequences are proved in `Monitor.IgnoredSuffix`, `Monitor.IgnoredNeverForwarded` and `Monitor.CapitalEndPassesFilter`) |
| `Monitor.Forwarded` | src/monitor.py:26-52 | one event hands at most one record to the callback, and only a suspicious one |
| `Monitor.ForwardedIff` | src/monitor.py:38-52 | the callback receives exactly the record `analyze` returned iff the path is not ignored, a callback is registered and the record is suspicious; otherwise nothing; an unreadable file never reaches it |
| `Monitor.DownloadHandler.constructor` | src/monitor.py:9-11 | a new handler has analysed nothing and called nothing |
| `Monitor.DownloadHandler.ProcessFile` | src/monitor.py:26-52 | a path not ignored is analysed, an ignored one is not, and the callback log grows by exactly what `Forwarded` says |
| `Monitor.DownloadHandler.OnCreated` | src/monitor.py:14-17 | a directory event changes nothing; a file event is processed |
| `Monitor.DownloadHandler.OnModified` | src/monitor.py:19-24 | a modify event is handled exactly as a create event |
| `Monitor.IgnoredSuffix` | src/monitor.py:30 | any path ending in an ignored suffix is ignored |
| `Monitor.IgnoredNeverForwarded` | src/monitor.py:30-32 | an ignored path never reaches the callback |
| `Monitor.DefaultIgnoreExamples` | src/config.py:9 | "download.crdownload" and "photo.jpg.part" are ignored |
| `Monitor.CapitalEndPassesFilter` | src/monitor.py:30 | the filter is case-sensitive: a path ending in a capital letter is never ignored |
| `Monitor.CapitalTempExtensionIsSafe` | src/monitor.py:30-35 | "X.TMP", "X.TEMP" and "X.PART" pass the filter yet are never suspicious, because the extension is lower-cased before the verdict |
| `Monitor.CapitalExtensionPasses` | src/monitor.py:30 | "stem.TMP", "stem.TEMP" and "stem.PART" are not ignored |
| `Monitor.CapitalExtensionBenign` | src/detector.py:18 | the claimed extension of those names is benign |
| `Monitor.BenignNeverSuspicious` | src/detector.py:19-20 | a benign claimed extension is never reported |
| `Monitor.CapitalBenignLowered` | src/detector.py:18-20 | "TMP", "TEMP" and "PART" lower-case to benign extensions |
| `Monitor.Scheduled` | src/monitor.py:63-68 | only existing configured folders are watched, each non-recursively, and every existing one is |
| `Monitor.ScheduledAppend` | src/monitor.py:63 | scheduling keeps the configured order |
| `Monitor.ScheduledAllExist` | src/monitor.py:63-65 | when all folders exist, the i-th watch is the i-th folder, non-recursive |
| `Monitor.FileMonitor.constructor` | src/monitor.py:56-59 | a new monitor has a fresh handler, no watches, was never started and is not running |
| `Monitor.FileMonitor.Start` | src/monitor.py:61-74 | a monitor never started before watches exactly the existing configured folders, in order, non-recursively, and then runs; it cannot be started again |
| `Monitor.FileMonitor.Stop` | src/monitor.py:76-80 | a started monitor stops running and the observer unschedules every watch as its thread stops |
| `Identifier.MimeToExtension` | src/file_identifier.py:153-176 | total with a "bin" fallback, which includes `application/x-msdos-program`; every result is a known extension |
| `Identifier.TablesAgree` | src/file_identifier.py:153-176 | the identifier's table gives the detector's answer for every MIME type except `application/x-msdos-program`, and a different one for that type |
| `Identifier.Classify` | src/file_identifier.py:106-119 | the three branches of the verdict, taken in the source's order (their meaning is proved in `Identifier.ClassifyCases`) |
| `Identifier.ClassifyCases` | src/file_identifier.py:106-119 | exactly one outcome applies: no extension iff none is claimed; match iff one is and it equals the true extension ignoring case; mismatch iff it differs |
| `Identifier.VerdictsCompared` | src/file_identifier.py:106 | the detector's verdict is the identifier's mismatch minus the benign extensions; a benign extension that differs from the true one is a mismatch here and not suspicious there |
| `Identifier.Identify` | src/file_identifier.py:70-125 | an empty or non-file path gives only the warning; a read failure gives the exception's message; otherwise the report carries the base name, the size, the description, the MIME type, the rendered leading bytes, the true extension, the claimed extension or "(none)", and the verdict's three cases |
| `Identifier.MsdosProgramDisagreement` | src/file_identifier.py:153-176 | for `application/x-msdos-program` content, "name.exe" is safe for the detector and a mismatch for the identifier, and "name.bin" the other way round |
| `Identifier.MsdosDetectorSide` | src/detector.py:42 | for that content, the detector reports "name.bin" and not "name.exe" |
| `Identifier.MsdosIdentifierSide` | src/file_identifier.py:106-119 | for that content, the identifier reports "name.exe" as a mismatch and "name.bin" as a match |
| `Identifier.FormatSize` | src/file_identifier.py:146-151 | the same unit thresholds and quotient as the detector's |
| `Dashboard.CountSuspicious` | src/dashboard.py:648-649 | the threat count of a history is at most its length, and zero iff no entry is suspicious |
| `Dashboard.CountSuspiciousAppend` | src/dashboard.py:645-649 | the threats of a history are the sum of those of its parts |
| `Dashboard.Uptime` | src/dashboard.py:688-691 | h·3600 + m·60 + s is the elapsed time, with 0 ≤ m < 60 and 0 ≤ s < 60, and h ≥ 0 for a non-negative time |
| `Dashboard.UptimeUnique` | src/dashboard.py:688-691 | any decomposition with those bounds is the one computed |
| `Dashboard.Step` | src/dashboard.py:622-631 | one animation frame keeps both angles in [0, 360), the pulse even and in [0, 52], the direction ±1, and a pulse above 50 shrinking |
| `Dashboard.StepsValid` | src/dashboard.py:618-634 | any number of frames keeps those bounds, and after n frames the scan angle is the start plus 5n modulo 360 |
| `Dashboard.Dashboard.constructor` | src/dashboard.py:14-52 | all counters zero and the history empty; the animation starts at rest and `start_animations` (line 52) runs one frame at once, leaving angles 5 and 2 and a pulse of 2, growing |
| `Dashboard.Dashboard.AddDetectionLog` | src/dashboard.py:643-671 | the record is appended and earlier entries are kept; exactly one of threats and safe grows, by the verdict; a detection record raises `files_scanned` and keeps scanned = threats + safe = history length; an error record stops at its missing file name, before `files_scanned` grows; a threat sets the pulse to 30 and the bounds still hold |
| `Dashboard.Dashboard.ClearLog` | src/dashboard.py:786-794 | on confirmation the history and the threat and safe counts are reset and `files_scanned` is kept; otherwise nothing changes |
| `Dashboard.Dashboard.ScanComplete` | src/dashboard.py:733-738 | `files_scanned` grows by exactly 5 and nothing else changes |
| `Dashboard.Dashboard.AnimateScanner` | src/dashboard.py:618-639 | the animation advances one frame, the counters are untouched, and the bounds hold |
| `Dashboard.Dashboard.AddMonitorFolder` | src/dashboard.py:719-725 | a chosen folder not yet listed is appended, and nothing else is; a list without duplicates keeps none |
| `Popup.Shortened` | src/popup.py:145-147 | a string within the width is unchanged; a longer one keeps its first width−3 characters, ends in "..." and is exactly width long |
| `Popup.ShortenedIdempotent` | src/popup.py:145-147 | shortening twice is shortening once |
| `Popup.ShownName` | src/popup.py:145-147 | a name of at most 40 characters is unchanged; a longer one becomes its first 37 characters and "...", 40 in all |
| `Popup.ShownNameIdempotent` | src/popup.py:145-147 | the name shortening is idempotent |
| `Popup.ShownDescription` | src/popup.py:172 | a description of at most 50 characters is unchanged; a longer one becomes its first 50 characters and "..."; at most 53 characters |
| `Popup.ShownMagic` | src/popup.py:250-252 | a magic string of at most 30 characters is unchanged; a longer one becomes its first 27 characters and "...", 30 in all |
| `Popup.ShownMagicOfBytes` | src/popup.py:250-252 | the rendering of up to 10 bytes is shown whole; that of 11 to 16 bytes shows the first nine bytes, a space and "..." |
| `Popup.LongMagicShown` | src/popup.py:250-252 | the case of 11 or more bytes |
| `Popup.MagicSpacePrefix` | src/popup.py:250-252 | the first 27 characters of a rendering of ten or more bytes are nine pairs and a space |
| `Popup.Alert` | src/popup.py:56-58 | an alert is built iff the record is suspicious; its name, description and magic lines are the record's fields under the three shortening rules, within 40, 53 and 30 characters, and it shows both extensions and the size unchanged |
| `Popup.Tick` | src/popup.py:331-333 | a positive countdown drops by one; zero stays zero |
| `Popup.TicksFloor` | src/popup.py:329-334 | from a non-negative start, k ticks leave max(start − k, 0): the countdown stops at zero and never goes negative |
| `Popup.LabelsCountDown` | src/popup.py:329-334 | the calls show start, start − 1, …, 1, one per call, and nothing once it reaches zero |
| `Popup.PopupManager.constructor` | src/popup.py:8-14 | a new manager has no countdown running |
| `Popup.PopupManager.UpdateCountdown` | src/popup.py:329-334 | a positive countdown is shown and lowered by one; zero shows nothing; it stays within [0, 10] |
| `Popup.PopupManager.ShowAlert` | src/popup.py:56-327 | a record that is not suspicious changes nothing; a suspicious one opens the alert, which shows 10 at once and leaves 9 |

## Left out

- libmagic and all file reads are not modelled as code. A `Files.Probe` value carries what they yield: the size, the content, the MIME type, the description, or the exception message. `os.path.exists` and `os.path.isfile` are parameters too.
- `Files.Basename` and `Config.Join` implement the POSIX path rules only (`os.path.basename`, and `Path(dir) / name` with '/'). The Windows variant, with '\\' and drive letters, is left out.
- `Text.Lower` lower-cases ASCII letters only. Python's `str.lower` also maps non-ASCII letters.
- `Detector.FormatSize` and `Identifier.FormatSize` return the exact quotient as a real number. The `.1f` rounding and the text rendering are left out.
- `Detector.Analyze` returns `is_suspicious` as a boolean. In the code the expression can yield the empty string "" for a name without an extension; "" is falsy wherever the record is read, so `false` stands for it.
- Watchdog's observer thread, the event queue and concurrency are left out, as is the one-second `time.sleep` in `on_modified`. The probe given to `OnModified` is the file as it looks after the wait.
- `Monitor.DownloadHandler` records the callback's invocations in a ghost log. What the callback does, and any exception it raises, belong to the application, which is not part of this model (`src/main.py`).
- `Monitor.FileMonitor.Start` requires that the monitor was never started, because a thread can be started only once. A second `start`, even after `stop`, schedules the folders again and then raises in the threading library; that path is not modelled.
- `Monitor.FileMonitor.Stop` requires a started monitor, because joining a thread that was never started raises; that path is not modelled. The join itself is left out. The unscheduling of every watch on stop is the observer library's behaviour; the library's code is not part of this model.
- `Identifier.Identify` leaves out the modification time: reading it with `os.path.getmtime` and formatting it in local time with `datetime.fromtimestamp(...).strftime` (`src/file_identifier.py:83`). A failure of that read is one of the exceptions `Files.Probe`'s `Unreadable` case stands for.
- The uptime is computed from an elapsed time that is a parameter. `time.time` and `datetime.now` are clocks and are not modelled.
- The canvas drawing (`math.sin`, `math.cos`), widget updates, message boxes, the log widgets, `flash_scanner`, the settings toggles and `scan_now`'s two-second delay are UI and are left out.
- The popup's quarantine and ignore buttons only display messages. Logo and icon loading and the window geometry are also left out.
- `Popup.PopupManager` has one `countdown` field shared by every alert, as in the code. A second alert restarts it at 10, and the earlier window's timer keeps ticking the same field. The timers' interleaving is not modelled; each `UpdateCountdown` is one timer firing.
- `src/main.py`, `src/tray.py` and the rest of `src/config.py` are glue, a sleep loop and constants. They are not part of this model.
