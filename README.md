# yt2mp4 core in Dafny

This project models the two pieces of logic in the yt2mp4 web application that go beyond glue code. It then proves their properties.

- **The retention store for downloaded artifacts** (`src/lib/fileCleanup.js`). The store keeps a metadata map from filename to `{createdAt, accessed}` and persists it as one file in the downloads directory. Three read-modify-write operations act on it:
  - `trackFileCreation` inserts or overwrites a record.
  - `markFileAccessed` sets the accessed flag of an existing record.
  - `cleanupOldFiles` sweeps records older than 24 hours. It unlinks their files and keeps a record whose unlink fails, so that a later sweep retries it.

  `file_cleanup.dfy` models the filesystem as a class, `FileCleanup.RetentionStore`. Its fields are:
  - the persisted map, as an `Option` (`None` when the file is missing or does not parse; the code treats both cases alike);
  - the set of artifact files on disk;
  - the set of files whose unlink throws;
  - whether writing the metadata file succeeds;
  - whether a failing write is torn: `writeFileSync` opens with flag `'w'`, which empties the file, so a write that fails after the open (ENOSPC, EIO) leaves a file that no longer parses, while one that fails at the open leaves the old content.

  Each operation is a method, and each method is proved against a pure function (`Tracked`, `Marked`, `Swept`, `Unlinked`). The lemmas about those functions state the retention rules.
- **Quality-option selection of the formats endpoint** (`src/app/api/download/formats/route.js`). The endpoint turns the extractor's list of formats into a short list of download choices, in these steps:
  - pick the best audio-only format;
  - keep the mp4 video formats at 1080/720/480/360;
  - sort them by height, highest first (a stable sort);
  - keep one format per height, preferring avc1/h264;
  - map each kept format to an option with a size estimate and a label.

  `formats_route.dfy` has this pipeline as functions. Two parts of the code work by updating variables in a loop, and each of those is also a method proved equal to its function:
  - the dedupe reduce, which overwrites its accumulator in place (`DedupeByHeight`);
  - the unit-selection loop of `formatFileSize` (`FormatFileSize`).

`wrappers.dfy` holds the `Option` and `Result` datatypes.

Conventions:
- The clock (`Date.now()`) is an `int` parameter `now`.
- The extractor call (`youtubeDlExec`) is a function parameter. It returns the video data or the message of the error it throws.
- JavaScript truthiness is explicit: an optional number is truthy when present and non-zero.
- Bitrates (kbps), sizes (bytes) and durations (seconds) are integers. So `Math.round((x * 1024 * d) / 8)` is exactly `x * 128 * d`.
- A size that is `NaN` in the source (a missing duration) is `None`. An optional format field (`filesize`, `tbr`, `fps`, `height`) that is absent or JSON `null` is `None` too.

Two consequences of the code that are easy to miss:
- A record exactly 24 hours old survives a sweep, because the comparison at `src/lib/fileCleanup.js:91` is a strict `now - createdAt > 86400000` (`SweepKeepsFresh`).
- A record whose file is already gone is dropped without a retry, because the sweep checks `existsSync` before unlinking (`SweepDropsIffDeletedOrAbsent`).

## Model

| member | source | states |
|---|---|---|
| `FileCleanup.Tracked` | src/lib/fileCleanup.js:12-25 | the map written by trackFileCreation maps the file to `{createdAt: now, accessed: false}`, has the loaded keys plus that one, and keeps every other record |
| `FileCleanup.Loaded` | src/lib/fileCleanup.js:12-19 | trackFileCreation starts from the persisted map, or from the empty map when the metadata file is missing or does not parse |
| `FileCleanup.RetentionStore.TrackFileCreation` | src/lib/fileCleanup.js:8-33 | the metadata file becomes `Tracked(old content)` when the write succeeds; a failed write leaves the old content, or an unparsable file (None) when the write is torn |
| `FileCleanup.TrackCorruptStartsEmpty` | src/lib/fileCleanup.js:12-19 | over a missing or unparsable file, the written map holds only the new record; the prior content is discarded |
| `FileCleanup.TrackOverwritesAge` | src/lib/fileCleanup.js:21-25 | tracking an existing filename overwrites its record, resetting its age, and adds no key |
| `FileCleanup.Marked` | src/lib/fileCleanup.js:51-52 | marking sets `accessed`, keeps `createdAt`, keeps the key set and leaves every other record unchanged |
| `FileCleanup.MarkedIfPresent` | src/lib/fileCleanup.js:50-53 | markFileAccessed on the map: the key set and every other record are unchanged, and a present record becomes `{createdAt, accessed: true}`; an absent key changes nothing |
| `FileCleanup.RetentionStore.MarkFileAccessed` | src/lib/fileCleanup.js:36-61 | a present key is written back marked; an unreadable file or an absent key leaves the metadata file unchanged (no write); a failed write leaves the old content, or an unparsable file when torn |
| `FileCleanup.Expired` | src/lib/fileCleanup.js:82-91 | a record is expired when `now - createdAt` is strictly more than 24 h (86400000 ms) |
| `FileCleanup.Kept` | src/lib/fileCleanup.js:91-104 | the sweep keeps a record that is not expired, or whose file exists and whose unlink throws; it drops an expired record whose file is absent or whose unlink succeeds |
| `FileCleanup.Swept` | src/lib/fileCleanup.js:83-106 | the swept map's keys are a subset of the input keys and no record value is altered |
| `FileCleanup.Unlinked` | src/lib/fileCleanup.js:91-95 | only files of expired records that are on disk and whose unlink does not throw are deleted |
| `FileCleanup.Unlinks` | src/lib/fileCleanup.js:91-94 | a key is unlinked when its record is expired, its file exists and `unlinkSync` does not throw |
| `FileCleanup.RetentionStore.CleanupOldFiles` | src/lib/fileCleanup.js:64-114 | a missing or unparsable file makes the sweep a no-op; otherwise, visiting keys in any order, the disk loses exactly `Unlinked` (even if the final write fails), and the file becomes `Swept` when the write succeeds, keeps its old content when it fails at the open, and is left unparsable when the write is torn |
| `FileCleanup.RetentionStore.Write` | src/lib/fileCleanup.js:28-32 | writeFileSync with its failure only logged: the file holds the new map, or keeps its old content when the open fails, or is left unparsable when the write fails after emptying it |
| `FileCleanup.SweepKeepsFresh` | src/lib/fileCleanup.js:102-104 | a record at most 24 h old (`now - createdAt <= 86400000`) is kept unchanged and its file is not deleted |
| `FileCleanup.SweepDropsExpired` | src/lib/fileCleanup.js:91-95 | an expired record whose file is absent or whose unlink succeeds is dropped, and its file is not on disk afterwards |
| `FileCleanup.SweepRetainsFailedUnlink` | src/lib/fileCleanup.js:96-99 | an expired record whose unlink throws is kept with its value unchanged and its file stays on disk for a retry |
| `FileCleanup.SweepDropsIffDeletedOrAbsent` | src/lib/fileCleanup.js:90-105 | a record leaves the map if and only if the sweep deleted its file or found an expired record's file already gone |
| `FileCleanup.SweepIdempotent` | src/lib/fileCleanup.js:83-106 | with `now` and the unlink outcomes fixed, a second sweep over the first's output and the disk it left yields the same map and deletes nothing |
| `FileCleanup.SweepIgnoresAccessed` | src/lib/fileCleanup.js:86-106 | the sweep never consults `accessed`: marking before or after a sweep gives the same map and deletes the same files |
| `FileCleanup.TrackThenSweepWithinDay` | src/lib/fileCleanup.js:21-25 | a file tracked at t0 is still recorded as `{t0, false}` after any sweep at most 24 h later |
| `FileCleanup.TrackThenSweepAfterDay` | src/lib/fileCleanup.js:91-95 | a file tracked at t0 and swept more than 24 h later loses its record, and its file is gone when the unlink succeeds |
| `FileCleanup.ScenarioFreshArtifact` | src/lib/fileCleanup.js:102-104 | track "a.mp4" at 0 and sweep at 1 h: the record is still there |
| `FileCleanup.ScenarioExpiredArtifact` | src/lib/fileCleanup.js:91-95 | track "b.mp4" at 0 and sweep at 25 h: the file is deleted and the record is gone |
| `FileCleanup.ScenarioFailedDeletion` | src/lib/fileCleanup.js:96-99 | track "c.mp4" at 0, let its unlink fail, and sweep at 25 h: the record and the file remain |
| `FileCleanup.ScenarioCorruptRecovery` | src/lib/fileCleanup.js:12-25 | track "d.mp4" over a corrupt file: the map is exactly `{"d.mp4": {0, false}}` |
| `FileCleanup.ScenarioTornWrite` | src/lib/fileCleanup.js:28-32 | a torn write while tracking "f.mp4" loses every record; the next sweep returns at once on the unparsable file, so the expired "e.mp4" stays on disk |
| `FormatsRoute.PickBest` | src/app/api/download/formats/route.js:44-49 | the reduce returns null only from null over an empty list; otherwise the format at an `IsPick` index of the accumulator followed by the list: it beats (truthy tbr, strictly above a falsy or lower one) every earlier format and no later format beats it |
| `FormatsRoute.BetterAudio` | src/app/api/download/formats/route.js:45-48 | one reduce step takes `current` when there is no best yet or when `current` beats it (truthy tbr, and the best's tbr falsy or strictly lower), and otherwise keeps the best |
| `FormatsRoute.PickIffEarliestTop` | src/app/api/download/formats/route.js:44-49 | the `IsPick` index is exactly the earliest format with the highest truthy tbr, or the first format when no tbr is truthy |
| `FormatsRoute.BestAudio` | src/app/api/download/formats/route.js:42-49 | bestAudioFormat is null iff no format has `vcodec == 'none'` and `acodec != 'none'`; otherwise it is the audio-only format at an `IsPick` index of the filtered list |
| `FormatsRoute.IsAudioCandidate` | src/app/api/download/formats/route.js:43 | an audio-only candidate has vcodec 'none' and an acodec other than 'none' |
| `FormatsRoute.BestAudioEarliestTop` | src/app/api/download/formats/route.js:42-49 | bestAudioFormat is an audio-only format of the list: of the audio-only formats, the earliest with the highest truthy tbr, or the first one when none has a truthy tbr |
| `FormatsRoute.BestAudioTieKeepsFirst` | src/app/api/download/formats/route.js:45 | of two audio-only formats with the same truthy tbr, the first is kept (the comparison is a strict `>`) |
| `FormatsRoute.AudioSize` | src/app/api/download/formats/route.js:52-53 | audioSize is 0 without a best audio format; the best format's truthy filesize if any; else `tbr * 128 * duration` from a truthy tbr (NaN, None, exactly when the duration is missing); else 0 |
| `FormatsRoute.Filter` | src/app/api/download/formats/route.js:56-69 | the filter keeps exactly the elements of the input satisfying the predicate, and no more of them than the input has |
| `FormatsRoute.FilterCounts` | src/app/api/download/formats/route.js:56-69 | the filter keeps each element satisfying the predicate exactly as often as the input has it, and no other element |
| `FormatsRoute.FilterAppend` | src/app/api/download/formats/route.js:56-69 | the filter keeps order: filtering a concatenation is the concatenation of the filtered parts |
| `FormatsRoute.Eligible` | src/app/api/download/formats/route.js:57-69 | a format passes the filter when its vcodec is not 'none', its height is truthy and one of 1080/720/480/360, its resolution is not 'audio only' and its ext is mp4 |
| `FormatsRoute.SortByHeight` | src/app/api/download/formats/route.js:70 | the sort yields a permutation of its input in non-increasing height order |
| `FormatsRoute.SortStable` | src/app/api/download/formats/route.js:70 | the sort is stable: formats of equal height keep their relative order |
| `FormatsRoute.VideoFormats` | src/app/api/download/formats/route.js:56-70 | every element of `formats` passes the filter (video codec, truthy height among 1080/720/480/360, not "audio only", mp4); the list is sorted by height, highest first, and is a permutation of the filtered list |
| `FormatsRoute.VideoFormatsMembers` | src/app/api/download/formats/route.js:57-69 | a format is in `formats` iff it is in the extractor's list and passes the filter |
| `FormatsRoute.VideoFormatsOrder` | src/app/api/download/formats/route.js:70 | `formats` is non-increasing in height, and its formats of each height come in the extractor's order |
| `FormatsRoute.FindHeight` | src/app/api/download/formats/route.js:74 | `acc.find` by height gives the first entry with that height, or none when no entry has it |
| `FormatsRoute.DedupeStep` | src/app/api/download/formats/route.js:74-82 | one reduce step appends a format of a new height; a format of a height already present overwrites that entry when it is mp4 with vcodec 'avc1' or 'h264', and is otherwise dropped |
| `FormatsRoute.Preferred` | src/app/api/download/formats/route.js:78 | a repeated height overwrites its entry when the format is mp4 with vcodec 'avc1' or 'h264' |
| `FormatsRoute.Dedupe` | src/app/api/download/formats/route.js:73-83 | uniqueFormats is the reduce of DedupeStep over the sorted formats from the empty list |
| `FormatsRoute.DedupeByHeight` | src/app/api/download/formats/route.js:73-83 | the loop that appends new heights and overwrites in place at the found index computes exactly the reduce `Dedupe` |
| `FormatsRoute.Winner` | src/app/api/download/formats/route.js:74-81 | the format a group of equal-height formats ends as: the last one after the first that is preferred, else the first |
| `FormatsRoute.WinnerIsLastPreferred` | src/app/api/download/formats/route.js:74-81 | of the formats sharing one height, the kept one is the last later duplicate that is mp4 with vcodec 'avc1' or 'h264', or else the first |
| `FormatsRoute.DedupeWinners` | src/app/api/download/formats/route.js:73-83 | the dedupe output has exactly the heights of its input; each entry comes from the input and is the winner of its height's group |
| `FormatsRoute.DedupeKeepsOrder` | src/app/api/download/formats/route.js:73-83 | on a list sorted by height the dedupe output is sorted by height |
| `FormatsRoute.DedupeAtMostFour` | src/app/api/download/formats/route.js:73-83 | on formats at common heights, the dedupe leaves at most one entry per height and so at most 4 entries |
| `FormatsRoute.UniqueFormatsShape` | src/app/api/download/formats/route.js:73-83 | `uniqueFormats` has at most one entry per height, at most 4 entries, in non-increasing height order |
| `FormatsRoute.UniqueFormatsChoice` | src/app/api/download/formats/route.js:73-83 | `uniqueFormats` contains every height of `formats`; each entry is an eligible extractor format and the winner of its height's group in the extractor's order |
| `FormatsRoute.Scale` | src/app/api/download/formats/route.js:141-144 | the unit loop ends at a unit index of at most 3, with amount times 1024^index equal to the input, below 1024 unless at GB, and at least 1 once it has divided |
| `FormatsRoute.FileSizeText` | src/app/api/download/formats/route.js:136-146 | falsy bytes give "Size unavailable"; otherwise the amount is the bytes in one of B/KB/MB/GB (`InUnit`: below 1024 unless GB, at least 1 unless B); the '~' prefix appears iff the size is shown and estimated |
| `FormatsRoute.FormatFileSize` | src/app/api/download/formats/route.js:136-146 | the while loop over `size` and `unitIndex` computes `FileSizeText` |
| `FormatsRoute.FallbackBitrate` | src/app/api/download/formats/route.js:103-109 | the table gives 8000/5000/2500/1000 kbps for 1080/720/480/360 and 1000 for any other height |
| `FormatsRoute.AudioBitrate` | src/app/api/download/formats/route.js:95 | the audio bitrate of an estimate is the best audio format's truthy tbr, or 128 kbps |
| `FormatsRoute.EstimateSize` | src/app/api/download/formats/route.js:87-111 | a size is unestimated iff the format's positive filesize plus audioSize is a non-zero number, and then equals that sum; with a known duration and audio size a size is always a number |
| `FormatsRoute.SizeChoice` | src/app/api/download/formats/route.js:90-111 | with a known duration the size is chosen in order: a positive filesize plus the audio size, not estimated; else, for a truthy tbr and a non-zero duration, tbr plus the audio tbr (or 128) over the duration, estimated; whenever neither gives a truthy total, the table rate plus 128 over the duration, estimated (0 for a zero duration); with the duration missing, every size but the filesize total is NaN (None), estimated |
| `FormatsRoute.MissingDurationUnavailable` | src/app/api/download/formats/route.js:92-110 | with the duration missing and no filesize total, the option's filesize is NaN (sent as null) and its label shows "Size unavailable" |
| `FormatsRoute.Heading` | src/app/api/download/formats/route.js:121 | the label heading is "<height>p", followed by " <fps>fps" only when fps is above 30 |
| `FormatsRoute.IntToString` | src/app/api/download/formats/route.js:115 | a template literal renders an integer in decimal, with a leading "-" when negative |
| `FormatsRoute.OptionFor` | src/app/api/download/formats/route.js:86-122 | the map callback builds one option from a unique format: its size estimate, "<height>p", fps defaulting to 30, and the label |
| `FormatsRoute.OptionForSpec` | src/app/api/download/formats/route.js:113-122 | an option keeps format_id and codecs, has resolution "<height>p" and fps defaulting to 30, and labels its own size; the label shows " <fps>fps" only when fps > 30 |
| `FormatsRoute.QualityOptions` | src/app/api/download/formats/route.js:41-123 | qualityOptions maps OptionFor over uniqueFormats, with the best audio format and audioSize of the extractor's output |
| `FormatsRoute.OptionsFor` | src/app/api/download/formats/route.js:86-123 | the `.map` over uniqueFormats: OptionFor applied to each format in order |
| `FormatsRoute.OptionsForFields` | src/app/api/download/formats/route.js:86-123 | the map yields one option per format, in order, carrying the format's format_id, codecs and ext and showing "<height>p" |
| `FormatsRoute.QualityOptionsMap` | src/app/api/download/formats/route.js:86-123 | qualityOptions has one option per unique format, in order, so at most 4; option i carries format i's format_id, codecs and ext and shows its height as "<height>p" |
| `FormatsRoute.QualityOptionsDistinctResolutions` | src/app/api/download/formats/route.js:115 | no two quality options share a resolution string |
| `FormatsRoute.NatToStringInjective` | src/app/api/download/formats/route.js:115 | the decimal rendering of heights is one to one |
| `FormatsRoute.Post` | src/app/api/download/formats/route.js:27-132 | a missing or empty url gives 400 "YouTube URL is required"; an unparsable body or an extractor error gives 500, and only then; a non-empty url whose extraction succeeds gives exactly the quality options of the extractor's output |
| `FormatsRoute.MissingUrlIgnoresExtractor` | src/app/api/download/formats/route.js:29-35 | with a missing url, the response is the same 400 whatever the extractor would return, so the extractor is never consulted |

## Left out

- The JSON text of the metadata file is not modelled: parsing, `JSON.stringify` and the 2-space pretty-printing. The persisted state is the map itself, or `None` for a missing or unparsable file.
- A metadata file that parses to JSON other than an object of records is not modelled: an array, `null`, a number or a string, or records without `createdAt`. In the source the outcome depends on the value. An array makes `trackFileCreation` lose the new record silently, since `JSON.stringify` drops the non-index property. `null` makes all three operations throw outside their `try` blocks. A record without `createdAt` is never expired, so the sweep keeps it.
- Two metadata keys that name the same path after `path.join` normalisation (such as `a` and `./a`) are not modelled. Distinct keys are distinct files.
- Concurrency is not modelled: each operation is atomic and sequential. The lost-update race between concurrent requests on the metadata file, which the code does not lock, is outside the model.
- Logging (`console.log` / `console.error`) is not modelled.
- The downloads-directory creation and the `process.cwd()` paths are not modelled.
- The extractor call is a function parameter; its command-line options are not modelled.
- The request body is modelled as its `url` (absent, or a string) or a parse error. A non-string `url` is not modelled.
- `videoData.formats` missing, which throws in the source, is not modelled. The formats are always a list.
- A `null` duration, which JavaScript arithmetic treats as 0, is not modelled. A missing duration is `undefined`, and the sizes computed from it are `NaN`.
- Floating point is not modelled. Bitrates, sizes and durations are integers, so fractional `tbr` or `duration` and the `Math.round` of fractions are not modelled.
- FormatsRoute.FileSizeText: the one-decimal rendering (`toFixed(1)`) of the amount is left abstract. `SizeText` keeps the exact amount as a real, the unit name and the estimate flag, not the final string. Labels (`Label`) keep the heading as a string and the size as a `SizeText`.
- The UI pages, the download/muxing route, the video-serving route and the small counter routes are not part of this model.
