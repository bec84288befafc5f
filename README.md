# sc-youtube-downloader, modelled in Dafny

`src/index.ts` of sc-youtube-downloader is an interactive command-line
YouTube downloader built around one class, `YouTubeDownloader`. This
project models the decisions that class makes and proves properties of
them:

- **The format menu** (`getAvailableFormats`, `selectFormat`). The formats
  are split into three buckets: combined, video-only and audio-only. Each
  bucket is filtered. The combined and video-only buckets are stably
  sorted, each by its own quality table; the audio-only bucket keeps input
  order. Each bucket is then deduplicated through a JavaScript `Map`, which
  keeps each key at its first position with its last value. The video-only bucket is capped at
  four entries after deduplication. The audio-only bucket is capped at two
  before it. The buckets are listed in that order, and an empty menu is an
  error.
- **`sanitizeFilename`**: remove `<>:"/\|?*`, collapse each whitespace run
  to one space, trim, and cut to 200 characters.
- **`formatDuration`**: seconds shown as `h:mm:ss`, or as `m:ss` below one
  hour.
- **The download pipeline** (`downloadVideo`, `downloadAndMerge`,
  `cleanupTempFiles`):
  - **Routing.** A format with video and no audio goes through the merge.
    Any other format is downloaded straight to
    `sanitize(title + "." + container)`.
  - **The audio pick.** The merge takes the audio-only format with the
    highest bitrate, the first one among ties.
  - **The temporary files.** The video and audio streams are written to
    `temp_video_<now>.<container>` and `temp_audio_<now>.<container>`.
    They are muxed into `sanitize(title) + ".mp4"`.
  - **Cleanup.** On success the two temporary files are removed. On failure
    the two temporary files and the final file are removed.

The file system is a `FileSystem` class whose only field is the set of
existing paths. The network, the muxer and the clock are parameters:
- each external step reports an outcome (`Finished`, or `Aborted` with or
  without leaving its output file);
- the second `ytdl.getInfo` call is an optional format list;
- the two `Date.now()` readings are natural numbers.

Modules, one per file:
- `Wrappers`: `Option` and `Result`.
- `Seqs`: `slice(0, n)` and `substring(0, n)`.
- `Formats`: the format record, the bucket filters, keys and quality tables.
- `StableSort`: the stable descending sort behind `Array.prototype.sort`.
- `JsMap`: deduplication through `Map`.
- `FormatMenu`: the menu.
- `Sanitize`: the file-name sanitiser.
- `Duration`: `formatDuration`.
- `Download`: the pipeline.

## Model

| member | source | states |
|---|---|---|
| `Formats.DisplayQuality` | src/index.ts:177 | `qualityLabel \|\| quality`: the label when it is present and not empty, else the quality name; also used at lines 208, 240 and 250. It has no contract of its own; its properties are those of `Formats.CombinedRank` and `FormatMenu.CombinedCount`. |
| `Formats.LabelOrEmpty` | src/index.ts:195 | `qualityLabel \|\| ""`: the label when it is present and not empty, else the empty string. It has no contract of its own; its properties are those of `Formats.VideoOnlyRank` and `FormatMenu.VideoOnlySorted`. |
| `Formats.LabelText` | src/index.ts:217 | `${qualityLabel}` in a template literal: the label, or `undefined` when it is missing. It has no contract of its own; its properties are those of `FormatMenu.VideoOnlyKeys`. |
| `Formats.Bitrate` | src/index.ts:444 | `audioBitrate \|\| 0`: the bitrate, or 0 when it is missing. It has no contract of its own; its properties are those of `Download.PickAudioSpec`. |
| `Formats.InBucket` | src/index.ts:158-202 | The three filters: video and audio (line 159), video without audio with a non-empty label (line 183), audio without video (lines 201-202). It has no contract of its own; its properties are `Formats.Select` and `Formats.BucketOf`. |
| `Formats.Key` | src/index.ts:205-230 | The deduplication keys: `(qualityLabel \|\| quality)-container` (line 208), `qualityLabel-container` (line 217) and `quality-container` (line 226). It has no contract of its own; its properties are `FormatMenu.CombinedCount`, `FormatMenu.VideoOnlyKeys` and `FormatMenu.AudioMembers`. |
| `Formats.KeyOf` | src/index.ts:205-230 | `Formats.Key` of one bucket as a function value, the key passed to `JsMap.Unique`. It has no contract of its own; its properties are those of `JsMap.UniqueSpec`. |
| `Formats.CombinedRank` | src/index.ts:161-178 | The combined quality table: `hd2160`/`2160p` 6 down to `medium`/`360p` 1, with `small`, `240p` and every unknown name at 0 (`\|\| 0`). It has no contract of its own; its properties are `StableSort.SortDesc` and `FormatMenu.CombinedSorted` on it. |
| `Formats.VideoOnlyRank` | src/index.ts:184-196 | The video-only quality table: `2160p` 7 down to `240p` 1, with `144p` and every unknown name at 0 (`\|\| 0`). It has no contract of its own; its properties are `StableSort.SortDesc` and `FormatMenu.VideoOnlySorted` on it. |
| `Formats.Select` | src/index.ts:158-202 | A bucket's filter keeps exactly the formats of the input that pass its predicate, and adds none. |
| `Formats.SelectAppend` | src/index.ts:158-202 | Filtering a concatenation is the concatenation of the filtered parts, so order and repetitions are kept. |
| `Formats.SelectSingle` | src/index.ts:158-202 | A single format is kept exactly when it passes the bucket's predicate. |
| `Formats.SelectIndex` | src/index.ts:158-202 | A passing format at index `i` appears in the result right after the passing formats that come before `i`. |
| `Formats.SelectPosition` | src/index.ts:158-202 | Entry `k` of the result is an input format at some index with exactly `k` passing formats before it. |
| `Formats.BucketOf` | src/index.ts:158-202 | The three filters are disjoint. A format passes at most one of them, and `BucketOf` names it. |
| `StableSort.Insert` | src/index.ts:160-198 | One step of the stable sort behind `Array.prototype.sort`: the result is one longer, holds the list's elements plus the new one, and starts with the new element or the old head. |
| `StableSort.SortDesc` | src/index.ts:160-180 | The comparator sort `rank(b) - rank(a)` yields a permutation of its input whose ranks never increase. |
| `StableSort.SortDescStable` | src/index.ts:160-198 | The sort is stable. The elements of each rank keep their input order. |
| `StableSort.InsertSorted` | src/index.ts:160-198 | Inserting into a list sorted by descending rank keeps it sorted. |
| `StableSort.SortDescHead` | src/index.ts:443-445 | The head of the sorted list has maximal rank. It is the first element of the input with that rank. |
| `JsMap.UniqueSpec` | src/index.ts:205-230 | Map deduplication yields each key once, in the order of `Nub`. Each key holds the last element of the input with that key. `Nub` is first-occurrence order by `JsMap.NubFirstOccurrenceOrder`. |
| `JsMap.NubFirstOccurrenceOrder` | src/index.ts:205-230 | The reference `Nub` lists the distinct keys in the order of their first occurrence in the input. |
| `JsMap.MapSet` | src/index.ts:205-230 | `Map.prototype.set`. It has no contract of its own; its properties are `JsMap.BuildMapSpec` and `JsMap.UniqueSpec`. |
| `JsMap.BuildMap` | src/index.ts:205-230 | `new Map(entries)`. It has no contract of its own; its properties are `JsMap.BuildMapSpec` and `JsMap.UniqueSpec`. |
| `JsMap.BuildMapSpec` | src/index.ts:205-230 | The map's keys are `Nub` of the input keys, and each key holds the last input element with that key. |
| `JsMap.Unique` | src/index.ts:205-230 | `Array.from(new Map(...).values())`. It has no contract of its own; its properties are `JsMap.UniqueSpec`, `JsMap.UniqueProperties` and `JsMap.UniqueCount`. |
| `JsMap.UniqueProperties` | src/index.ts:205-230 | The deduplicated list has pairwise distinct keys and comes only from the input. It covers every key of the input, and it is empty only when the input is. |
| `JsMap.UniqueKeepsSorted` | src/index.ts:205-221 | When equal keys imply equal ranks, deduplicating a sorted list keeps it sorted. |
| `JsMap.UniqueCount` | src/index.ts:205-230 | The number of deduplicated entries is the number of distinct keys. |
| `JsMap.SortUniqueCount` | src/index.ts:205-213 | After sorting, deduplication still leaves one entry per distinct key. |
| `FormatMenu.CombinedBucket` | src/index.ts:157-212 | `uniqueCombined`. It has no contract of its own; its properties are `FormatMenu.CombinedMembers`, `FormatMenu.CombinedCount` and `FormatMenu.CombinedSorted`. |
| `FormatMenu.VideoOnlyBucket` | src/index.ts:182-221 | `uniqueVideoOnly`. It has no contract of its own; its properties are `FormatMenu.VideoOnlyMembers`, `FormatMenu.VideoOnlyKeys`, `FormatMenu.VideoOnlyCount` and `FormatMenu.VideoOnlySorted`. The cut is `Seqs.Take`, whose contract makes the bucket the first entries of the deduplicated, sorted list. |
| `FormatMenu.AudioBucket` | src/index.ts:200-230 | `uniqueAudio`. It has no contract of its own; its properties are `FormatMenu.AudioMembers` and `FormatMenu.AudioFirstTwo`. |
| `FormatMenu.Menu` | src/index.ts:236-268 | The formats behind the menu entries. It has no contract of its own; its properties are `FormatMenu.MenuBuckets`, `FormatMenu.MenuLength` and `FormatMenu.MenuEmpty`. |
| `FormatMenu.ChoiceName` | src/index.ts:243-264 | The entry labels of lines 243, 253 and 264: `quality (container)` for combined formats, the same plus the merge note for video-only ones, and `Áudio (container)` for audio; the size text is left out. It has no contract of its own; its properties are `FormatMenu.PushChoices` and `FormatMenu.GetAvailableFormats`. |
| `FormatMenu.PushChoices` | src/index.ts:238-268 | The three `forEach` loops push one labelled entry per bucket element, in the order combined, video-only, audio-only. |
| `FormatMenu.GetAvailableFormats` | src/index.ts:152-271 | The menu has one entry per bucket element, in menu order. Each entry's label is the one for the bucket its format belongs to. |
| `FormatMenu.SelectFormat` | src/index.ts:273-293 | Selection fails exactly when no format passes any bucket filter. Otherwise it returns the chosen menu format, which is one of the input formats. |
| `FormatMenu.CombinedMembers` | src/index.ts:157-213 | Combined entries are combined formats of the input with distinct keys. Every combined format's key is present. The bucket is empty iff there is no combined format. |
| `FormatMenu.CombinedCount` | src/index.ts:157-213 | The combined bucket has exactly one entry per distinct `(qualityLabel || quality)-container` key of the combined formats. |
| `FormatMenu.VideoOnlyMembers` | src/index.ts:182-221 | Video-only entries are input formats with video, no audio and a label. There are at most four. The bucket is empty iff no format qualifies. |
| `FormatMenu.VideoOnlyKeys` | src/index.ts:214-221 | Video-only entries have pairwise distinct `label-container` keys. |
| `FormatMenu.VideoOnlyCount` | src/index.ts:214-221 | The cut comes after deduplication. The video-only bucket has four entries, or one per distinct video-only key when there are fewer. |
| `FormatMenu.FirstAudio` | src/index.ts:200-202 | The two-format cut holds exactly the audio-only formats that have fewer than two audio-only formats before them. |
| `FormatMenu.AudioFirstTwo` | src/index.ts:200-230 | The cut comes before deduplication. Every audio entry is one of the first two audio-only formats, every key among those two is present, and there is one entry per such key. |
| `FormatMenu.AudioMembers` | src/index.ts:200-230 | Audio entries are audio-only input formats with distinct keys. There are at most two. The bucket is empty iff there is no audio-only format. |
| `FormatMenu.MenuBuckets` | src/index.ts:236-268 | Every menu entry is an input format in a bucket. All combined entries come before all video-only entries, which come before all audio entries. |
| `FormatMenu.CombinedSorted` | src/index.ts:157-213 | Combined entries are in non-increasing quality order. This assumes no container contains `-`. |
| `FormatMenu.VideoOnlySorted` | src/index.ts:182-221 | Video-only entries are in non-increasing quality order. This assumes no container contains `-`. |
| `FormatMenu.CombinedUnsortedWithDash` | src/index.ts:157-213 | The dash-free assumption is needed. For three combined formats of rank 3, 2 and 0, where `720p` in `x-mp4` and `720p-x` in `mp4` share a key, the bucket is the rank-0 format followed by the rank-2 one. |
| `FormatMenu.MenuLength` | src/index.ts:152-271 | The menu has at most (distinct combined keys) + 4 + 2 entries. |
| `FormatMenu.MenuEmpty` | src/index.ts:274-278 | The menu is empty exactly when no format passes any of the three filters. |
| `Sanitize.IsInvalid` | src/index.ts:334 | The character class `[<>:"/\\\|?*]`. It has no contract of its own; its properties are `Sanitize.StripInvalid` and `Sanitize.StripInvalidChar`. |
| `Sanitize.IsWhitespace` | src/index.ts:335-336 | JavaScript's `\s`, which is also what `trim` removes: TAB to CR, space, no-break space, the Unicode space separators, the line and paragraph separators and the byte order mark. It has no contract of its own; its properties are `Sanitize.Collapse`, `Sanitize.TrimStart`, `Sanitize.TrimEnd` and `Sanitize.Trim`. |
| `Sanitize.StripInvalid` | src/index.ts:334 | No character of `<>:"/\|?*` is left, and the text does not grow. |
| `Sanitize.StripInvalidAppend` | src/index.ts:334 | Stripping a concatenation is the concatenation of the stripped parts. |
| `Sanitize.StripInvalidChar` | src/index.ts:334 | One character is removed exactly when it is one of `<>:"/\|?*`. Whitespace and every other character stay. |
| `Sanitize.TrimStart` | src/index.ts:336 | The result is the longest suffix not starting with whitespace. Only whitespace is dropped. |
| `Sanitize.TrimEnd` | src/index.ts:336 | The result is the longest prefix not ending with whitespace. Only whitespace is dropped. |
| `Sanitize.Trim` | src/index.ts:336 | The result is empty or starts and ends with a non-whitespace character. `Sanitize.TrimSlice` gives the rest. |
| `Sanitize.Collapse` | src/index.ts:335 | Every whitespace character left is a space, no two are adjacent, and the text does not grow. It is empty iff its input is, and starts with whitespace iff its input does. |
| `Sanitize.CollapseJoin` | src/index.ts:335 | A string that starts with a word collapses to its words joined by single spaces, plus one space when it ends in whitespace. |
| `Sanitize.CollapseWords` | src/index.ts:335-336 | Collapsing and then trimming gives the maximal non-whitespace runs of the input, joined by exactly one space. |
| `Sanitize.NormalizedWords` | src/index.ts:333-336 | Before the cut, the name is the words of the stripped title joined by single spaces. |
| `Sanitize.SanitizeWords` | src/index.ts:332-338 | The name is the words of the stripped title joined by single spaces, cut to 200 characters. |
| `Sanitize.Normalized` | src/index.ts:333-336 | The title after the strip, the collapse and the trim. It has no contract of its own; its properties are `Sanitize.NormalizedWords`, `Sanitize.NormalizedGlyphs` and `Sanitize.NormalizedSpaced`. |
| `Sanitize.NormalizedSpaced` | src/index.ts:335-336 | A normalised title has whitespace only as lone spaces. |
| `Sanitize.SanitizeFilename` | src/index.ts:332-338 | `sanitizeFilename`. It has no contract of its own; its properties are `Sanitize.SanitizeSpec`, `Sanitize.SanitizeWords`, `Sanitize.SanitizeEmpty` and `Sanitize.SanitizeIdempotent`. |
| `Seqs.Take` | src/index.ts:337 | `substring(0, n)`, and `slice(0, n)` on lines 202 and 221, give the first `min(n, length)` elements. |
| `Sanitize.TrimSlice` | src/index.ts:336 | `trim` cuts out a contiguous slice and drops only whitespace on either side. |
| `Sanitize.TrimGlyphs` | src/index.ts:336 | Trimming keeps every glyph (a character that is neither invalid nor whitespace) in order. |
| `Sanitize.NormalizedGlyphs` | src/index.ts:333-336 | Stripping, collapsing and trimming keep every glyph of the title in order. |
| `Sanitize.SanitizeSpec` | src/index.ts:332-338 | The name has at most 200 characters, none invalid, single spaces only and no leading whitespace. Its glyphs are a prefix of the title's. When nothing was cut, all glyphs are kept and there is no trailing whitespace. |
| `Sanitize.SanitizeEmpty` | src/index.ts:332-338 | The name is empty exactly when the title has no glyph. |
| `Sanitize.SanitizeIdempotent` | src/index.ts:332-338 | A name that does not end in whitespace is its own sanitised form. |
| `Sanitize.SanitizeTrailingSpace` | src/index.ts:337 | A name the 200-character cut leaves ending in a space is not its own sanitised form. |
| `Sanitize.TrailingSpaceWitness` | src/index.ts:336-337 | 199 letters, a space and a letter sanitise to the 199 letters and a trailing space, because the cut comes after the trim. |
| `Sanitize.SanitizeWithoutWhitespace` | src/index.ts:332-338 | A title without whitespace and with at most 200 glyphs sanitises to exactly its glyphs. |
| `Sanitize.SanitizeExample` | src/index.ts:332-338 | `My:Video/Title*?` sanitises to `MyVideoTitle`. |
| `Duration.Fields` | src/index.ts:105-108 | Minutes and seconds are below 60, and hours·3600 + minutes·60 + seconds is the input. |
| `Duration.Decimal` | src/index.ts:111-115 | `toString` of a natural number is a non-empty digit string with no leading zero. |
| `Duration.PadStart2` | src/index.ts:111-115 | `padStart(2, "0")` gives two characters when the text is shorter than two, and otherwise leaves the length unchanged. |
| `Duration.FormatDuration` | src/index.ts:104-116 | `formatDuration`. It has no contract of its own; its properties are `Duration.ParseFormatDuration`, `Duration.FormatDurationInjective` and `Duration.FormatDurationShape`. |
| `Duration.DecimalValue` | src/index.ts:111-115 | The digits of `toString` read back as the number. |
| `Duration.PaddedField` | src/index.ts:111-115 | A field below 100 padded with `padStart(2, "0")` is two digits with the field's value. |
| `Duration.ParseFormatDuration` | src/index.ts:104-116 | Parsing the text back, with the strict inverse `ParseDuration`, gives the seconds. |
| `Duration.FormatDurationInjective` | src/index.ts:104-116 | Distinct durations print differently. |
| `Duration.FormatDurationShape` | src/index.ts:104-116 | There are three fields from one hour on and two below. The last field is two digits holding the seconds. With three fields, the middle one is two digits holding the minutes and the first holds the hours. |
| `Download.DirectFilename` | src/index.ts:352 | The name of a direct download. It has no contract of its own; its property is `Download.DirectFilenameLosesExtension`. |
| `Download.MergedFilename` | src/index.ts:451-452 | The name of a merged download. It has no contract of its own; its properties are `Download.MergedFilenameShape` and `Download.MergedPathNotTemp`. |
| `Download.TempVideoPath` | src/index.ts:456-459 | The temporary video path. It has no contract of its own; its property is `Download.TempPathsDistinct`. |
| `Download.TempAudioPath` | src/index.ts:460-463 | The temporary audio path. It has no contract of its own; its property is `Download.TempPathsDistinct`. |
| `Download.PickAudio` | src/index.ts:440-449 | The audio pick of `downloadAndMerge`. It has no contract of its own; its properties are `Download.PickAudioSpec` and `Download.PickAudioExample`. |
| `Download.NeedsMerge` | src/index.ts:347 | `format.hasVideo && !format.hasAudio`, the routing test of `downloadVideo`. It has no contract of its own; its property is `Download.DownloadRouting`. |
| `Download.FirstFailure` | src/index.ts:485-503 | The error of a failed merge: the video step if it did not finish, else the audio step, else the merge. It has no contract of its own; its property is `Download.StepsFailure`. |
| `Download.StepsOutcome` | src/index.ts:485-528 | The steps and cleanups as a function of the files before them. It has no contract of its own; its properties are `Download.StepsSuccess` and `Download.StepsFailure`. |
| `Download.MergeOutcome` | src/index.ts:433-528 | `downloadAndMerge` as a function of the files before it. It has no contract of its own; its property is `Download.MergeOutcomeSpec`. |
| `Download.DownloadOutcome` | src/index.ts:340-431 | `downloadVideo` as a function of the files before it. It has no contract of its own; its property is `Download.DownloadRouting`. |
| `Download.FileSystem.Exists` | src/index.ts:617 | `existsSync` answers whether the path is in the file set. |
| `Download.FileSystem.Unlink` | src/index.ts:618 | `unlinkSync` removes exactly that path. |
| `Download.FileSystem.Create` | src/index.ts:374-429 | A write stream's output path is added to the file set, and nothing else changes. |
| `Download.FileSystem.RunStep` | src/index.ts:374-429 | A step adds its output path when it finishes, or when it fails after creating the file. Nothing else changes. |
| `Download.FileSystem.CleanupTempFiles` | src/index.ts:614-628 | The new file set is the old one minus exactly the listed paths. |
| `Download.RunMerge` | src/index.ts:484-528 | The three steps and both cleanups produce the result and file set that `StepsOutcome` gives. |
| `Download.DownloadAndMerge` | src/index.ts:433-528 | The result and new file set are those `MergeOutcome` gives. |
| `Download.DownloadVideo` | src/index.ts:340-431 | The result and new file set are those `DownloadOutcome` gives. |
| `Download.PickAudioSpec` | src/index.ts:440-449 | There is no pick exactly when no format is audio-only. Otherwise the pick is an audio-only input format of maximal bitrate (missing counts 0), and every earlier audio-only format has a strictly lower bitrate. |
| `Download.FirstOfRankClass` | src/index.ts:441-445 | The first audio-only format of a given bitrate, placed in the input: no earlier audio-only format has that bitrate. |
| `Download.PickAudioExample` | src/index.ts:440-446 | With a 64 kbps and a 128 kbps audio format, the 128 kbps one is picked. |
| `Download.StepsSuccess` | src/index.ts:484-506 | After a successful merge the result is the final path. Neither temporary file exists, and the final file exists unless it has a temporary file's name. Every other path is unchanged. |
| `Download.StepsFailure` | src/index.ts:524-527 | A failed merge names the first step that did not finish and creates nothing. It removes exactly the two temporary paths and the final path, including a final file that existed before. |
| `Download.MergeOutcomeSpec` | src/index.ts:433-528 | The merge succeeds iff the formats are fetched again, an audio-only format exists and all three steps finish. Its result is the sanitised title plus `.mp4`. The errors raised before `try` change no file. The only file it can add is the final one. |
| `Download.DownloadRouting` | src/index.ts:340-353 | The merge is used exactly for formats with video and no audio. For such a format the result and file set are those of `MergeOutcome`, so `Download.MergeOutcomeSpec`, `Download.StepsSuccess` and `Download.StepsFailure` hold for `downloadVideo`: it succeeds iff the re-fetch, the audio pick and all three steps succeed, and only the merged path can be added. A success names the merged or the direct path accordingly. A direct download succeeds iff its stream finishes, and it adds its file whenever the stream created it. |
| `Download.TempPathsDistinct` | src/index.ts:456-463 | The two temporary paths differ for any clock readings. |
| `Download.MergedPathNotTemp` | src/index.ts:451-463 | The merged path is neither temporary path unless the sanitised title starts with `temp_`. |
| `Download.MergedFilenameShape` | src/index.ts:451-452 | The merged name ends in `.mp4` and has at most 204 characters. |
| `Download.DirectFilenameLosesExtension` | src/index.ts:352 | When the title alone has 200 glyphs, every glyph of the direct name comes from the title, so the extension is cut off. |

## Left out

- Network access (`ytdl`, `ytdl.getInfo`) and the muxer (`ffmpeg`) are
  external. Each step is a parameter saying how it ended. The first
  `getInfo` call and the mapping of provider records into `VideoFormat`
  (lines 60-93) are not modelled.
- Errors are named per step (`VideoStepFailed`, …). The source rethrows the
  underlying error unchanged, and this model has no underlying error to
  carry.
- `Date.now()` becomes two natural-number parameters.
- The terminal UI is not modelled: boxes, spinners, colours, `figlet`,
  `inquirer` prompts, progress percentages, the debug log and the welcome
  screen. The prompt's answer is a parameter of `SelectFormat`.
- `formatFileSize` uses floating point (`Math.log`, `toFixed`). Menu labels
  therefore omit the size text and the colour codes.
- `formatDuration` takes an already parsed natural number. `parseInt` of the
  `lengthSeconds` string and its NaN case are not modelled.
- `selectDownloadLocation`, `askForAnotherDownload`, `run`, the
  command-line handling in `main` and the `--debug` flag are the interactive
  shell around the core. They are not modelled.
- `path.join` normalisation is not modelled. A path is the pair of folder
  and name.
- Strings are sequences of Unicode characters. JavaScript's `substring(0, 200)`
  counts UTF-16 code units, so names with characters outside the Basic
  Multilingual Plane may be cut at a different place.
- Whitespace for `\s` and `trim` is the fixed ECMAScript code-point set, with
  no Unicode database behind it.
- An error thrown by `unlinkSync` is swallowed by `cleanupTempFiles`. The
  model's unlink cannot fail.
- Object-table lookups of inherited property names (for example a label
  `constructor`) are not modelled. Every name missing from a quality table
  ranks 0.
- A write stream truncates an existing file. The model records only which
  paths exist, not their contents.
- Concurrency and async ordering are not modelled. The steps run one after
  another, as the `await`s in the source make them.
- FormatMenu.CombinedSorted: proved only when no container contains `-`. The
  deduplication key is `label-container`, so a label such as `720p-x` can
  merge formats of different rank and break the order.
  `FormatMenu.CombinedUnsortedWithDash` gives such a case.
- FormatMenu.VideoOnlySorted: proved under the same dash-free assumption, for
  the same reason.
- Download.StepsFailure: on failure the final path is removed even when a
  file of that name existed before the download (src/index.ts:526,
  617-618).
- Duration.Decimal: JavaScript numbers are doubles. `toString` switches to
  exponent notation from 1e21, and integers above 2^53 lose precision. The
  model uses unbounded naturals, which agree for any realistic duration or
  clock reading.
