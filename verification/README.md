# camera-enumerator: a Dafny model of the `v4l2-ctl` parsers

This project models the text-parsing core of `camera_enumerator`, a small
Python library that lists the cameras of a machine together with their video
formats. On Linux it reads the output of the V4L2 tool `v4l2-ctl`. The
project models three things:

- `_parse_list_devices` turns `v4l2-ctl --list-devices` output into `Camera`
  records. The stripped output is cut into blocks at every literal `"\n\n"`,
  so a line holding only spaces does not separate blocks. A block becomes a
  camera when it has more than two lines and its second line holds
  `/dev/video` followed by a digit; any other block is skipped silently. The
  camera's name is the header line before the first `:`. Its index is the
  number after the first `/dev/video<N>` on the second line.
- `_parse_device_resolution` scans `v4l2-ctl --list-formats-ext` output with
  one regular expression. Each match becomes a `(width, height, fps)` tuple.
  The pattern pairs a `Size: Discrete WxH` marker with the first complete
  `Interval: Discrete <s>s (<fps> fps)` part after it, and the fps is
  truncated to an integer.
- The `Camera` record, with its `__str__` and `__repr__`. The driver
  `enumerate_v4l2_devices` and the installation check are modelled too. Each
  run of `v4l2-ctl` is a parameter that says how the run ended.

Modules, one per file:

| file | module | models |
|---|---|---|
| `wrappers.dfy` | `Wrappers` | `Option` (Python `None`/match objects) and `Result` (a value, or the message of a raised exception) |
| `strings.dfy` | `Strings` | `strip` and `split` as the parsers use them, the leftmost-occurrence search inside `split`, the `join` of `__repr__`, digit runs, and `int`/`str` on decimal digits |
| `camera.dfy` | `CameraRecord` | `Camera`, `__str__`, `__repr__`, and a reader for the formats section of `__repr__` |
| `devices.dfy` | `DeviceList` | `_parse_list_devices` |
| `formats.dfy` | `FormatList` | `_parse_device_resolution`, with the regular expression matched by hand |
| `enumeration.dfy` | `Enumeration` | `enumerate_v4l2_devices` and `_raise_if_v4l2_not_installed`, with the subprocess runs as parameters |

How the code's primitives are represented:

- Python `str.split(sep)` is modelled exactly: a left-to-right scan for
  non-overlapping occurrences of `sep`. In particular `''.split(sep)` is `['']`.
- `strip()` removes the ASCII characters for which `str.isspace` holds:
  `\t` to `\r`, space, and `\x1c` to `\x1f`.
- `re.search(r'/dev/video(\d+)', line)` finds the leftmost position where
  `/dev/video` is followed by a digit. `\d+` then takes the longest digit run.
- Under `re.DOTALL`, `pattern.findall` tries each position from left to right.
  After a match it resumes at the match's end.
- At one position the pattern behaves as follows:
  - the width run is forced, because it must be followed by `x`;
  - the height run is greedy and is always taken whole;
  - the lazy `.*?` stops at the first complete Interval part;
  - the two `[0-9.]+` runs are forced by the text after them.
- In the model, `int(float(fps))` of a `[0-9.]+` capture fails exactly when
  Python's `float` rejects the text: when it has two or more dots or is `.`
  alone. Otherwise it is the digits before the dot, read as a number. That is
  the truncation of the decimal. The range of a binary `float` is not
  modelled (see "## Left out").
- A rejected text makes the result a `Failure` carrying Python's `ValueError`
  message.

Two behaviours of the code are worth stating plainly:

- If an exception is raised after the listing, `enumerate_v4l2_devices`
  returns the cameras it holds. Cameras before the failing one have their
  formats, and the rest keep `[]` (src/camera_enumerator/linux.py:33-47;
  `Enumeration.EnumeratePartial`).
- `re.search` skips a `/dev/video` that is not followed by a digit
  (src/camera_enumerator/linux.py:83; `DeviceList.NodeIndexSpec`).

## Model

| member | source | states |
|---|---|---|
| Strings.Find | src/camera_enumerator/linux.py:81 | the position of the first occurrence of the pattern, and `None` exactly when it does not occur |
| Strings.Split | src/camera_enumerator/linux.py:77-78 | `str.split(sep)`: a left-to-right cut at non-overlapping separators; `SplitNonEmpty`, `SplitFirst`, `SplitPiecesFree` and the inverse law `JoinSplit` state what it gives |
| Strings.Join | src/camera_enumerator/camera.py:61-63 | `sep.join(parts)`; `SplitJoin` and `JoinSplit` state that it and `split` undo each other |
| Strings.SplitNonEmpty | src/camera_enumerator/linux.py:77-78 | `split` always gives at least one piece, and `''.split(sep) == ['']` |
| Strings.SplitFirst | src/camera_enumerator/linux.py:81 | the first piece of `split` is the text before the first separator, or all of it |
| Strings.JoinSplit | src/camera_enumerator/linux.py:77-78 | joining the pieces of `split` with the separator gives back the text |
| Strings.SplitPiecesFree | src/camera_enumerator/linux.py:77-78 | no piece of `split` contains the separator |
| Strings.SplitJoin | src/camera_enumerator/camera.py:61-63 | for a one-character separator absent from the parts, `split` undoes `join` |
| Strings.SplitCharCount | src/camera_enumerator/linux.py:78 | splitting on a character gives one more piece than there are occurrences of it |
| Strings.StripLeft | src/camera_enumerator/linux.py:77-78 | `lstrip()`: a suffix of the input that does not start with whitespace, and all that was cut is whitespace |
| Strings.StripRight | src/camera_enumerator/linux.py:77-78 | `rstrip()`: a prefix of the input that does not end with whitespace, and all that was cut is whitespace |
| Strings.Strip | src/camera_enumerator/linux.py:77-78 | `strip()` never lengthens the text; `StripSpec` characterizes it completely |
| Strings.StripSpec | src/camera_enumerator/linux.py:77-78 | the result is a slice of the input whose ends are not whitespace, and all that was cut is whitespace |
| Strings.StripIdempotent | src/camera_enumerator/linux.py:77-78 | stripping twice is stripping once |
| Strings.DigitRun | src/camera_enumerator/linux.py:83 | `\d+` after a position takes the maximal run of digits |
| Strings.RunEndMaximal | src/camera_enumerator/linux.py:106 | no run of a character class from a position is longer than the greedy one, and one stopped by a character outside the class is the greedy one |
| Strings.Value | src/camera_enumerator/linux.py:85 | `int()` of a digit string: n digits denote a number below 10^n; `ValueOfNatToString` makes it the inverse of `NatToString` |
| Strings.NatToString | src/camera_enumerator/camera.py:62 | `str(n)` for `n >= 0`: at least one digit, with a leading `0` only for zero; `ValueOfNatToString` reads it back |
| Strings.ValueOfNatToString | src/camera_enumerator/camera.py:62-64 | reading the decimal rendering of a natural number gives the number back |
| CameraRecord.IntToString | src/camera_enumerator/camera.py:64 | `str(int)`: an optional `-`, then decimal digits with no leading zero |
| CameraRecord.ParseIntToString | src/camera_enumerator/camera.py:64 | `int(str(n)) == n` for every integer |
| CameraRecord.Str | src/camera_enumerator/camera.py:51 | `__str__` returns the name; `ReprShowsName` states that `__repr__` shows it verbatim |
| CameraRecord.FormatEntry | src/camera_enumerator/camera.py:62 | an entry starts with a tab and holds no newline |
| CameraRecord.Entries | src/camera_enumerator/camera.py:62 | the list comprehension of entries; `EntriesAt` states one entry per format, the i-th rendering the i-th |
| CameraRecord.FormatsSection | src/camera_enumerator/camera.py:61-63 | `formats_str`; `FormatsSectionRoundTrip` states it reads back as exactly the formats, in order |
| CameraRecord.ReprHeader | src/camera_enumerator/camera.py:64 | the first two lines of `__repr__`; `Repr` states it is a prefix of every `__repr__` and `ReprShowsName` where the name sits in it |
| CameraRecord.EntriesAt | src/camera_enumerator/camera.py:61-62 | one entry per format, the i-th rendering the i-th format |
| CameraRecord.EntriesNoNewline | src/camera_enumerator/camera.py:61-63 | no entry holds a newline, so joining them with newlines keeps them apart |
| CameraRecord.ParseEachOf | src/camera_enumerator/camera.py:61-62 | lines that each read back as a value read back, in order, as the list of those values |
| CameraRecord.Repr | src/camera_enumerator/camera.py:61-64 | `__repr__` starts with `Camera(<index>, <name>)\nAvailable Formats:\n`, and ends right there exactly when there are no formats |
| CameraRecord.ReprShowsName | src/camera_enumerator/camera.py:51-64 | `__repr__` shows `__str__` (the name) verbatim after `Camera(<index>, `, followed by `)` |
| CameraRecord.EntryRoundTrip | src/camera_enumerator/camera.py:62 | each `\t{w}x{h}@{fps}fps` entry reads back as its format |
| CameraRecord.EntriesRoundTrip | src/camera_enumerator/camera.py:61-62 | the entries read back as the whole format list, in order |
| CameraRecord.FormatsSectionRoundTrip | src/camera_enumerator/camera.py:61-63 | the newline-joined section, with no trailing newline, reads back as exactly the formats |
| CameraRecord.ReprFormats | src/camera_enumerator/camera.py:61-64 | what follows the header of `__repr__` lists exactly the camera's formats, in order |
| DeviceList.Lines | src/camera_enumerator/linux.py:78 | a stripped block always splits into at least one line |
| DeviceList.NameOf | src/camera_enumerator/linux.py:81 | `split(':')[0]` is no longer than the header; `NameOfSpec` states it is the header up to the first `:` |
| DeviceList.NameOfSpec | src/camera_enumerator/linux.py:81 | the name is a prefix of the header, holds no `:`, and stops at the first `:` or at the end |
| DeviceList.FirstNodeFrom | src/camera_enumerator/linux.py:83 | a position found holds `/dev/video` followed by a digit, at or after the start |
| DeviceList.FirstNodeFromSpec | src/camera_enumerator/linux.py:83 | the position found is the leftmost such one from the start, and `None` means there is none |
| DeviceList.NodeIndex | src/camera_enumerator/linux.py:83-85 | `re.search(r'/dev/video(\d+)')` and `int` of the group; `NodeIndexSpec` states which node it reads and when it fails |
| DeviceList.NodeIndexSpec | src/camera_enumerator/linux.py:83-85 | `None` exactly when no `/dev/video<digit>` occurs; otherwise the value of the digit run at the leftmost one |
| DeviceList.ParseBlock | src/camera_enumerator/linux.py:78-87 | a block gives a camera exactly when it has more than two lines and `/dev/video` followed by a digit occurs on its second; the camera has no formats, a name that is the header up to its first `:`, and the value of the digit run after the leftmost such `/dev/video` as its index |
| DeviceList.Collect | src/camera_enumerator/linux.py:76-87 | the loop appends at most one camera per block |
| DeviceList.CollectFrom | src/camera_enumerator/linux.py:77-87 | every camera collected is what the parse of one of the blocks yields |
| DeviceList.Blocks | src/camera_enumerator/linux.py:77 | the stripped output always splits into at least one block |
| DeviceList.ParseListDevices | src/camera_enumerator/linux.py:76-88 | no more cameras than blocks |
| DeviceList.ParseListDevicesSpec | src/camera_enumerator/linux.py:76-88 | each camera comes from one block, and has `formats == []`, a non-negative index and no `:` in the name |
| DeviceList.ParseEmpty | src/camera_enumerator/linux.py:77-79 | empty output gives no cameras (it is one one-line block) |
| DeviceList.CollectAppend | src/camera_enumerator/linux.py:77-87 | cameras appear in block order: collecting two runs of blocks concatenates their cameras |
| DeviceList.CollectAll | src/camera_enumerator/linux.py:77-87 | when every block is accepted there is exactly one camera per block, the j-th from the j-th block |
| DeviceList.CollectNone | src/camera_enumerator/linux.py:79-84 | blocks that are all skipped give no cameras and no error |
| FormatList.SizeAt | src/camera_enumerator/linux.py:106 | a `Size: Discrete WxH` prefix found has non-empty width and height runs and ends inside the text |
| FormatList.SizeAtSpec | src/camera_enumerator/linux.py:106 | the prefix is found exactly when the pattern's `Size` part can match; the width is forced and the height run is the longest |
| FormatList.IntervalAt | src/camera_enumerator/linux.py:106 | an Interval part found has non-empty seconds and fps runs and ends inside the text |
| FormatList.IntervalAtSpec | src/camera_enumerator/linux.py:106 | the Interval part is found exactly when it can match, and its two runs are the only possible ones |
| FormatList.IntervalAtSound | src/camera_enumerator/linux.py:106 | an Interval part found is an Interval part of the pattern |
| FormatList.IntervalAtComplete | src/camera_enumerator/linux.py:106 | any way the Interval part can match at a position is the one found there |
| FormatList.FirstInterval | src/camera_enumerator/linux.py:106 | the lazy gap ends at a position where a complete Interval part starts |
| FormatList.FirstIntervalSpec | src/camera_enumerator/linux.py:106 | the lazy gap skips only positions where no Interval part starts, and gives up only when none starts further on |
| FormatList.MatchAt | src/camera_enumerator/linux.py:105-109 | a match found at a position starts there and ends inside the text |
| FormatList.MatchAtSound | src/camera_enumerator/linux.py:105-109 | a match found is a match of the pattern, with the greedy height and the shortest gap the regex engine prefers |
| FormatList.MatchAtComplete | src/camera_enumerator/linux.py:105-109 | when none is found, the pattern cannot match at that position at all |
| FormatList.Scan | src/camera_enumerator/linux.py:109 | the matches lie inside the text, in order and without overlap |
| FormatList.ScanHits | src/camera_enumerator/linux.py:109 | every match `findall` reports is the one the engine finds at its start |
| FormatList.ScanCovers | src/camera_enumerator/linux.py:109 | no match is skipped: every position where a match could start lies inside a reported match |
| FormatList.ScanSound | src/camera_enumerator/linux.py:109 | every reported match is a preferred match of the pattern |
| FormatList.IntegerPart | src/camera_enumerator/linux.py:110 | the digits of the fps before its first `.` |
| FormatList.FpsValue | src/camera_enumerator/linux.py:110 | `int(float(fps))`; `FpsValueAccepts` states when it fails and `FpsTruncates` that it truncates the decimal |
| FormatList.FpsValueAccepts | src/camera_enumerator/linux.py:110 | `int(float(fps))` succeeds exactly when the text has at most one `.` and is not `.` |
| FormatList.FpsTruncates | src/camera_enumerator/linux.py:110 | the fps is the decimal value truncated, not rounded |
| FormatList.CapturesOf | src/camera_enumerator/linux.py:106 | the three groups of a match are two digit runs and a `[0-9.]+` run |
| FormatList.FindAll | src/camera_enumerator/linux.py:109 | one group triple per match, each well formed |
| FormatList.ToFormat | src/camera_enumerator/linux.py:110 | one `(int(width), int(height), int(float(fps)))` tuple; `ToFormatsPointwise` places it in the result |
| FormatList.ToFormats | src/camera_enumerator/linux.py:110 | a successful comprehension has one tuple per match |
| FormatList.ToFormatsSucceeds | src/camera_enumerator/linux.py:110 | the list comprehension succeeds exactly when every fps converts |
| FormatList.ToFormatsPointwise | src/camera_enumerator/linux.py:110 | on success the i-th tuple is the conversion of the i-th match |
| FormatList.ToFormatsFirstError | src/camera_enumerator/linux.py:110 | on failure the error is Python's message for the first fps that does not convert |
| FormatList.ParseDeviceResolution | src/camera_enumerator/linux.py:105-111 | empty output gives `[]`, and a success has one tuple per match |
| FormatList.ScanBound | src/camera_enumerator/linux.py:105-109 | there are no more matches than `Size: Discrete ` markers, and no more than `Interval: Discrete ` markers |
| FormatList.ResolutionCountBound | src/camera_enumerator/linux.py:105-111 | no more tuples than markers of either kind |
| FormatList.AlternatingMatches | src/camera_enumerator/linux.py:105-109 | with alternating markers, each Size starts a match bound to its own Interval, and no other position starts one |
| FormatList.MatchTableOk | src/camera_enumerator/linux.py:105-109 | the match recorded at each position starts there and ends inside the text |
| FormatList.ScanIsTableScan | src/camera_enumerator/linux.py:109 | `findall` is the left-to-right scan of the match found at each position |
| FormatList.TableScanHits | src/camera_enumerator/linux.py:109 | every match a scan of a match table reports is the one recorded at its start |
| FormatList.TableScanCovers | src/camera_enumerator/linux.py:109 | a scan of a match table skips no recorded match: each lies inside a reported one |
| FormatList.AlternatingScanFrom | src/camera_enumerator/linux.py:109 | from any point between two pairs, the scan returns the remaining pairs in order |
| FormatList.AlternatingScan | src/camera_enumerator/linux.py:105-109 | with strictly alternating Size and Interval markers there is exactly one match per pair, in order, each Size bound to its own Interval |
| FormatList.AlternatingResolutions | src/camera_enumerator/linux.py:105-111 | with alternating markers, a successful parse gives exactly one tuple per pair |
| Enumeration.CheckInstalled | src/camera_enumerator/linux.py:50-60 | `_raise_if_v4l2_not_installed`; what its caller sees is stated by `Enumerate` |
| Enumeration.FilledCount | src/camera_enumerator/linux.py:38-44 | the loop fills no more cameras than there are |
| Enumeration.FilledCountSpec | src/camera_enumerator/linux.py:38-44 | the loop reaches every camera before the first failing fetch, and stops at that one |
| Enumeration.FillFormats | src/camera_enumerator/linux.py:38-43 | the loop returns as many cameras as it was given |
| Enumeration.FillFormatsPrefix | src/camera_enumerator/linux.py:38-44 | cameras before the first failure get their fetched formats; the rest are unchanged |
| Enumeration.Enumerate | src/camera_enumerator/linux.py:20-47 | a failed version check propagates: a missing tool raises the not-installed message, a failing tool the failed-to-run message, and any other exception passes through unchanged; a failed listing gives `[]`; otherwise one camera per parsed camera |
| Enumeration.EnumeratePartial | src/camera_enumerator/linux.py:33-47 | a failing fetch keeps all listed cameras: those before it with their formats, the rest with `[]` |
| Enumeration.EnumerateComplete | src/camera_enumerator/linux.py:38-43 | when every fetch succeeds, every camera gets its parsed formats |

## Left out

- Running `v4l2-ctl`: the model does not execute the subprocess or decode its output. Each run is a `Run` value that says how it ended.
- The model assumes a run's outcome depends only on the camera index. In reality two runs may differ.
- Printing: the diagnostic `print` in the `except` branch of `enumerate_v4l2_devices` is not modelled, because it does not affect the result.
- `get_cameras` and the `_is_*_os` helpers in src/camera_enumerator/camera.py:67-94 are left out. They detect the platform and dispatch, and the Linux branch only prints and returns `None`.
- `src/camera_enumerator/macos.py` is left out because it wraps AVFoundation objects through PyObjC.
- `src/main.py` is left out because it only prints.
- `src/tests/conftest.py` is left out because it only sets up the import path.
- Unicode is not modelled. `strip()` and the regex's `\d` are ASCII here. Python also treats the other Unicode whitespace characters as space and the other Unicode decimal digits as digits.
- Python's 4300-digit limit on `int()` of a string is left out. Digit runs longer than that raise `ValueError` in Python, and the model does not.
- FormatList.FpsTruncates: the model uses the exact truncated value. Python goes through a binary `float`, which differs from it as follows:
  - an fps above 2^53 can be rounded before truncation;
  - a long fraction can round up to the next integer before truncation: Python gives 30 for `29.99999999999999999`, and the model gives 29;
  - an fps with more than about 308 integer digits becomes infinity, and `int` then raises `OverflowError`.
- FormatList.FpsValueAccepts: the model accepts every `[0-9.]+` text with at most one dot that is not `.` alone. Python raises `OverflowError` instead when the integer part has more than about 308 digits, because `float` gives infinity.
- CameraRecord.Repr: Python's 4300-digit limit also applies to `str()` of an `int`, so `__repr__` raises `ValueError` when an index or a format field has more than 4300 digits. `IntToString` and `Repr` render such values.
- The source's tests check two concrete samples: the two-camera listing and the fourteen-pair format list. The model does not evaluate them. Instead, `CollectAll`, `NameOfSpec`, `NodeIndexSpec` and `AlternatingResolutions` state the general properties those samples exercise.
