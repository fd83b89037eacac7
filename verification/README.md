# Transcript output layer of youtube-transcript-generator, in Dafny

This project models the part of the transcript generator that turns a
finished transcription into files: the subtitle timestamp formatter
`format_timestamp`, the TXT, SRT, WebVTT and TSV serialisers, the
`save_transcript` driver that picks a file name and a serialiser per
requested format, and `sanitize_filename`, which cleans the video title
used in that file name. All of it is in `src/utils/file_handler.py` and
`src/utils/video_processor.py`.

Modules, one per file:

- `Text` (`text.dfy`): decimal rendering with Python's `d` / `0wd` format
  specs, `str.strip()` with Python's notion of whitespace, single-character
  `str.replace`, counting, and concatenation of rendered pieces.
- `Timestamp` (`timestamp.dfy`): `format_timestamp`. A time is an integer
  number of microseconds, the resolution of Python's `timedelta`. The
  fields come from floor division and modulo on the whole time. Dafny's `/`
  and `%` with a positive divisor agree with Python's `//` and `%`, also for
  negative times. Milliseconds are cut off, as `int(...)` does.
- `Sanitize` (`sanitize.dfy`): `sanitize_filename`. It models both the
  source's nine `replace` passes and a one-pass reading, and proves that
  the two are equal.
- `Serializers` (`serializers.dfy`): `save_as_txt`, `save_as_srt`,
  `save_as_vtt` and `save_as_tsv`, each as a pure function from the
  transcription to the text written to the file.
- `Writer` (`writer.dfy`): `save_transcript`.
  - The file system is a value: directories, a map from paths to contents,
    and the paths the process may not create or open.
  - A failing `mkdir` or `open` raises and ends the call.
  - The result dictionary is kept as its list of items in insertion order.

Behaviour of the code worth knowing, which the model keeps:

- The code truncates milliseconds with `int()`, so a time never carries
  into the next second. It does not clamp a negative time: -1 s renders as
  `-1:59:59,000`. `Timestamp.ExampleTruncation` and
  `Timestamp.SameMillisecond` state the truncation.
- The TSV writer replaces tabs in the text but not line breaks. A line break
  left in a stripped text is written as is and splits its row.
  `Serializers.TsvCounts` gives N + 1 lines only for texts with no line
  break left after stripping.
- The first `open` that fails ends the loop. The files written before it
  stay.
- `mkdir(parents=True, exist_ok=True)` leaves an existing output directory
  alone. When it fails, the parents it made before the failing component
  stay.

## Model

| member | source | states |
|---|---|---|
| Timestamp.Split | src/utils/file_handler.py:25-30 | The hours, minutes, seconds and milliseconds of a time by floor division and modulo. Milliseconds are cut off, not rounded. The fields other than hours are always in range. |
| Timestamp.SplitCorrect | src/utils/file_handler.py:26-30 | The four fields are in range: minutes and seconds below 60, milliseconds below 1000. They add up to the input's whole milliseconds rounded down, so the sub-millisecond rest is dropped and never rounded up. Hours are negative exactly for a negative time. |
| Timestamp.SplitUnique | src/utils/file_handler.py:26-30 | No other in-range clock adds up to the same whole milliseconds: the split is unique. |
| Timestamp.FormatTimestamp | src/utils/file_handler.py:14-37 | `HH:MM:SS,mmm` for `srt`, `HH:MM:SS.mmm` for `vtt`, and `HH:MM:SS` for any other style, each field rendered with `02d` or `03d`. Its properties are the lemmas below. |
| Timestamp.FormatIntRoundTrip | src/utils/file_handler.py:33 | `{n:02d}` of any integer, negative ones included, reads back as `n`. |
| Timestamp.ParseFormatRoundTrip | src/utils/file_handler.py:15-35 | Reading an SRT or WebVTT timestamp back gives the input time in whole milliseconds, rounded down. The rendering loses exactly the sub-millisecond rest. |
| Timestamp.SameMillisecond | src/utils/file_handler.py:26-35 | Two times render to the same SRT (or WebVTT) text exactly when they fall in the same millisecond. |
| Timestamp.SrtVttAgree | src/utils/file_handler.py:32-35 | The SRT and WebVTT renderings of a time have the same length. They agree everywhere except the character before the milliseconds: `,` versus `.`. |
| Timestamp.VttToSrt | src/utils/file_handler.py:32-35 | The SRT rendering is the WebVTT rendering with the `.` four characters from the end replaced by `,`. |
| Timestamp.PlainIsSrtWithoutMillis | src/utils/file_handler.py:32-37 | Any style other than `srt` and `vtt` gives the SRT rendering without its `,mmm` suffix. |
| Timestamp.HoursField | src/utils/file_handler.py:27-37 | For a non-negative time, in every style, the hours field is the whole hours zero padded to at least two digits, and it reads back as those hours. |
| Timestamp.ExampleFirstMillisecond | src/utils/file_handler.py:15-33 | Every time within the first millisecond renders as `00:00:00,000`. |
| Timestamp.ExampleHourMinuteSecond | src/utils/file_handler.py:15-33 | Every time within the millisecond starting at 3661.5 s renders as `01:01:01,500`. |
| Timestamp.ExampleTruncation | src/utils/file_handler.py:26-35 | Every time from 59.999 s up to 60 s, 59.9995 s among them, renders as `00:00:59,999` and `00:00:59.999`, never as 60 s. |
| Text.ZeroPadRoundTrip | src/utils/file_handler.py:33 | The zero-padded rendering of a natural number is all digits and reads back as that number. |
| Text.ZeroPadExact | src/utils/file_handler.py:33 | A number below 10^w padded to width w has exactly w characters. This is why minutes, seconds and milliseconds take 2, 2 and 3 characters. |
| Text.StripSpec | src/utils/file_handler.py:43 | `strip()` returns a string with no whitespace at either end. It is a contiguous slice of the input, with only whitespace before and after it. |
| Text.StripUnique | src/utils/file_handler.py:43 | Whitespace, then a trimmed core, then whitespace, strips to exactly that core. |
| Text.StripIdempotent | src/utils/file_handler.py:43 | Stripping twice is the same as stripping once. |
| Text.StripEmpty | src/utils/file_handler.py:43 | The stripped text is empty exactly when the input is all whitespace. |
| Sanitize.SanitizeFilename | src/utils/video_processor.py:82-95 | The result has the input's length, and no character of `<>:"/\|?*` is left in it. |
| Sanitize.ReplaceEach | src/utils/video_processor.py:92-94 | The source's loop as written: one `replace(c, '_')` pass per character of the list, in order. |
| Sanitize.ReplaceEachPointwise | src/utils/video_processor.py:92-95 | A run of `replace(c, '_')` passes, one per character of a list that does not contain `_`, turns each listed character into `_` and leaves every other position alone. |
| Sanitize.SanitizeIsPasses | src/utils/video_processor.py:92-95 | The one-pass reading equals the source's nine passes, taken in the source's order. |
| Sanitize.SanitizeIdempotent | src/utils/video_processor.py:82-95 | Sanitising twice is the same as sanitising once. |
| Sanitize.SanitizeFixedPoint | src/utils/video_processor.py:82-95 | A name comes back unchanged exactly when it has no invalid character. |
| Sanitize.SanitizeConcat | src/utils/video_processor.py:82-95 | Sanitising commutes with concatenation, so it works piece by piece. |
| Sanitize.ExampleTitle | src/utils/video_processor.py:82-95 | An invalid character between two clean parts (as in `My: Video`) becomes `_`, and the parts are kept. |
| Serializers.RenderTxt | src/utils/file_handler.py:40-44 | The TXT content has no whitespace at either end, and stripping it again changes nothing. It is empty exactly when the text is all whitespace, and never longer than the text. |
| Serializers.RenderSrt | src/utils/file_handler.py:47-58 | The SRT file is empty exactly when there are no segments. |
| Serializers.SrtBlock | src/utils/file_handler.py:50-57 | One SRT block: the index line, `start --> end` with SRT timestamps, the stripped text, and a blank line. |
| Serializers.SrtDocument | src/utils/file_handler.py:47-58 | The SRT file is the concatenation of exactly one block per segment, in order. Block `i` holds index `i + 1`, then the segment's time line and stripped text. |
| Serializers.SrtAppend | src/utils/file_handler.py:50-57 | The file for `a + b` is the file for `a` followed by the blocks of `b`, numbered on from `|a| + 1`. |
| Serializers.RenderVtt | src/utils/file_handler.py:61-72 | The WebVTT file always starts with `WEBVTT` and a blank line. It is only that header exactly when there are no segments. |
| Serializers.VttCue | src/utils/file_handler.py:65-71 | One WebVTT cue: `start --> end` with WebVTT timestamps, the stripped text, and a blank line, with no index line. |
| Serializers.VttDocument | src/utils/file_handler.py:61-72 | The WebVTT file is the header followed by exactly one cue per segment, in order. |
| Serializers.SrtCueVsVttCue | src/utils/file_handler.py:51-57 | The SRT time line and text of a segment equal its WebVTT cue with exactly two characters changed: the `.` in front of each timestamp's milliseconds becomes `,`. |
| Serializers.SrtBlockVsVttCue | src/utils/file_handler.py:47-72 | An SRT block is the index line followed by the WebVTT cue of the same segment with those two separators turned into `,`. Nothing else differs. |
| Serializers.TsvTextSpec | src/utils/file_handler.py:89 | The TSV text column has no tab. Position by position, it is the stripped text with each tab turned into a space. |
| Serializers.Fixed2 | src/utils/file_handler.py:90 | `f"{x:.2f}"` of a time: a `-` for a negative time, then the whole seconds, a point and two decimals of the time rounded to hundredths. |
| Serializers.TsvRow | src/utils/file_handler.py:86-90 | One TSV row: start and end as `.2f`, the text column, tab separated, ending in a line break. |
| Serializers.Fixed2RoundTrip | src/utils/file_handler.py:90 | The `.2f` column reads back as the time rounded to the nearest hundredth of a second, within half a hundredth, with its sign kept. |
| Serializers.Fixed2Plain | src/utils/file_handler.py:90 | A number column holds neither a tab nor a line break. |
| Serializers.TsvRowCounts | src/utils/file_handler.py:86-90 | Each row has exactly two tabs. Its line breaks are the closing one plus any the stripped text itself contains. |
| Serializers.RenderTsv | src/utils/file_handler.py:82-91 | The TSV file always starts with the header row. It is only that header exactly when there are no segments. |
| Serializers.TsvDocument | src/utils/file_handler.py:82-91 | The TSV file is the header followed by exactly one row per segment, in order. |
| Serializers.TsvCounts | src/utils/file_handler.py:82-91 | The TSV file has 2(N + 1) tabs. When no stripped text contains a line break, it has exactly N + 1 lines. |
| Writer.BaseName | src/utils/file_handler.py:117-119 | The video id, `_`, and the sanitised title. |
| Writer.Target | src/utils/file_handler.py:133 | The output directory joined with the base name, `.` and the format. |
| Writer.TargetName | src/utils/file_handler.py:118-119 | The path is the output directory plus one file name. The name is the video id, `_`, the sanitised title (same length as the title), `.` and the format. |
| Writer.TargetInjective | src/utils/file_handler.py:133 | Two formats get the same path exactly when they are the same format. |
| Writer.DedupKnownSpec | src/utils/file_handler.py:131-135 | The result keys are the known requested formats, each once, with no unknown format, in the order of their first requests. |
| Writer.UnknownsSpec | src/utils/file_handler.py:136-137 | The warnings name exactly the unknown requested formats, each as often as it was requested. Warnings and keys together never outnumber the requests. |
| Writer.PlannedSpec | src/utils/file_handler.py:131-134 | The files written are exactly one per known requested format, at that format's path, holding that format's content. |
| Writer.PutEntries | src/utils/file_handler.py:135 | Assigning a format's path to the dictionary keeps the key's place if it is already there, and otherwise appends it. |
| Writer.Render | src/utils/file_handler.py:40-91 | The text the handler of a known format writes: `txt`, `srt`, `vtt` and `tsv` use their serialiser, and `json` writes the given JSON text. |
| Writer.Handler | src/utils/file_handler.py:123-134 | The handler table as one function from format name to file content. Only its values at known formats are used. |
| Writer.Mkdir | src/utils/file_handler.py:115 | `mkdir(parents=True, exist_ok=True)` leaves files and permissions alone and never removes a directory. On success the directory exists. An existing directory is left alone, even a forbidden one. A path that is a file raises at once. Missing parents are made top down, and a forbidden one raises with the parents above it kept. |
| Writer.MkdirSpec | src/utils/file_handler.py:115 | `mkdir` raises exactly when a directory it has to create (one missing along with every deeper prefix of the path) is a file or forbidden. On success it has made exactly the missing directories. On failure it has made only missing ones, and never the output directory itself. |
| Writer.WriteFails | src/utils/file_handler.py:42 | `open(path, 'w')` raises for a forbidden path and for a directory. |
| Writer.WriteAll | src/utils/file_handler.py:131-139 | If every path is writable, the loop returns the dictionary of known formats in first-request order, the warnings, and the file system with the planned files written. If the first known format that cannot be opened is at position `i`, the loop raises for that format and path, and the files of the formats before `i` stay written. |
| Writer.SaveTranscript | src/utils/file_handler.py:94-139 | A failing `mkdir` raises before any file is written, and keeps the parents it made. Otherwise exactly the missing directories are made, and the result is that of the loop: key `j` maps to the path of the `j`-th distinct known format, or the first unwritable path raises with the earlier files kept. |

## Left out

- Floating point: times are integers in microseconds. The artefacts of
  `(seconds % 1) * 1000` on binary floats are not modelled. For example, a
  float a hair below a whole millisecond can lose one millisecond.
- Fixed2RoundTrip: a time exactly halfway between two hundredths is rounded
  away from zero (125000 us gives `0.13`). Python's `.2f` rounds the exact
  binary value of the float instead: an exact binary tie goes to even
  (0.125 gives `0.12`), and any other near-tie goes whichever way the binary
  value lies. The model's output differs from the source's on such ties.
- FormatTimestamp renders every integer time. The source's
  `timedelta(seconds=...)` raises `OverflowError` beyond 999999999 days
  either way. That happens after `open` has emptied the SRT or WebVTT
  file, and it aborts `save_transcript`. This error path is not modelled.
- `save_as_json` (lines 75-79): `json.dump` is a library call. Its text is
  the `jsonText` parameter of `SaveTranscript` and is written for `json`
  unchanged.
- `str(output_path)`: result paths are lists of path components. How
  pathlib renders them as text, and how it normalises `.`, `..` or a `/`
  inside the video id or the directory name, is not modelled.
- Logging: `logger.info` lines and the text of the unknown-format warning
  are not modelled. Only the list of unknown formats, in request order, is
  kept.
- Mkdir: permissions are a set of forbidden paths rather than modes on
  parent directories. Symbolic links and another process creating the same
  directory at the same time are not modelled.
- I/O failures other than a failing `mkdir` or `open` (a full disk in the
  middle of a write, partial files) are not modelled. A failing `open`
  writes nothing.
- The `encoding='utf-8'` argument: text is a sequence of code points, and
  no byte encoding is modelled.
- A result dictionary without `text` or `segments`, or a segment without
  `start`, `end` or `text`, makes the source raise `KeyError`. The model's
  datatypes always have those fields.
- The detected language is read only by the JSON writer and is not part of
  the model.
- Downloading with yt-dlp, transcription with Whisper, the command line,
  configuration and `clean_downloads` are not part of this model.
