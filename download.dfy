/**
 * The download pipeline of src/index.ts: `downloadVideo` routes a format
 * to a direct download or to `downloadAndMerge`, which fetches a video
 * stream and an audio stream into temporary files, muxes them and cleans
 * up with `cleanupTempFiles`. The file system is a set of paths; the
 * network, the muxer and the clock are parameters.
 */
module Download {
  import opened Wrappers
  import opened Formats
  import opened StableSort
  import opened Sanitize
  import opened Duration

  /** `path.join(dir, name)`, kept as the pair it is built from. */
  datatype Path = Path(dir: string, name: string)

  /**
   * What one external step (a stream download or the mux) did: it
   * finished, or it failed, possibly after creating its output file.
   */
  datatype StepOutcome = Finished | Aborted(leftFile: bool)

  /** The step a failed download stopped at. */
  datatype DownloadError =
    | InfoUnavailable
    | NoAudioFormat
    | VideoStepFailed
    | AudioStepFailed
    | MergeFailed
    | DirectStepFailed

  /** Whether the step's output file exists after it. */
  predicate LeavesFile(o: StepOutcome) {
    o.Finished? || o.leftFile
  }

  /** `format.hasVideo && !format.hasAudio`: the format needs a separate audio stream. */
  predicate NeedsMerge(f: VideoFormat) {
    f.hasVideo && !f.hasAudio
  }

  /** The direct download's file name: the title and extension are sanitised together. */
  function DirectFilename(title: string, f: VideoFormat): string {
    SanitizeFilename(title + "." + f.container)
  }

  /** The merged file's name: the sanitised title plus `.mp4`. */
  function MergedFilename(title: string): string {
    SanitizeFilename(title) + ".mp4"
  }

  /** `temp_video_${Date.now()}.${container}` in the download folder. */
  function TempVideoPath(dir: string, clock: nat, video: VideoFormat): Path {
    Path(dir, "temp_video_" + Decimal(clock) + "." + video.container)
  }

  /** `temp_audio_${Date.now()}.${container}` in the download folder. */
  function TempAudioPath(dir: string, clock: nat, audio: VideoFormat): Path {
    Path(dir, "temp_audio_" + Decimal(clock) + "." + audio.container)
  }

  /**
   * The audio stream of a merge: the audio-only formats sorted by
   * `audioBitrate || 0`, highest first, and the first of them taken.
   */
  function PickAudio(formats: seq<VideoFormat>): Option<VideoFormat> {
    var sorted := SortDesc(BitrateOrder, Select(AudioOnly, formats));
    if sorted == [] then None else Some(sorted[0])
  }

  /** The file system: the set of paths that exist. */
  class FileSystem {
    var files: set<Path>

    constructor (initial: set<Path>)
      ensures files == initial
    {
      files := initial;
    }

    /** `fs.existsSync` */
    method Exists(p: Path) returns (b: bool)
      ensures b <==> p in files
    {
      b := p in files;
    }

    /** `fs.unlinkSync` */
    method Unlink(p: Path)
      modifies this
      ensures files == old(files) - {p}
    {
      files := files - {p};
    }

    /** A write stream's output file comes into existence. */
    method Create(p: Path)
      modifies this
      ensures files == old(files) + {p}
    {
      files := files + {p};
    }

    /** The effect of one external step on its output path. */
    method RunStep(p: Path, outcome: StepOutcome)
      modifies this
      ensures files == if LeavesFile(outcome) then old(files) + {p} else old(files)
    {
      if LeavesFile(outcome) {
        Create(p);
      }
    }

    /** `cleanupTempFiles`: remove each listed path that exists, and nothing else. */
    method CleanupTempFiles(paths: seq<Path>)
      modifies this
      ensures files == old(files) - (set p | p in paths)
    {
      for i := 0 to |paths|
        invariant files == old(files) - (set j | 0 <= j < i :: paths[j])
      {
        var present := Exists(paths[i]);
        if present {
          Unlink(paths[i]);
        }
        assert (set j | 0 <= j < i + 1 :: paths[j]) == (set j | 0 <= j < i :: paths[j]) + {paths[i]};
      }
      assert (set j | 0 <= j < |paths| :: paths[j]) == (set p | p in paths);
    }
  }

  /** The step a failed merge stopped at: the first of the three that did not finish. */
  function FirstFailure(videoStep: StepOutcome, audioStep: StepOutcome): DownloadError {
    if !videoStep.Finished? then VideoStepFailed
    else if !audioStep.Finished? then AudioStepFailed
    else MergeFailed
  }

  /**
   * The result and the new set of files after the three steps of
   * `downloadAndMerge` on the given paths: on success the temporary files
   * are cleaned up (line 506), on failure the temporary files and the
   * final file are (line 526).
   */
  function StepsOutcome(before: set<Path>, tempVideo: Path, tempAudio: Path, final: Path,
                        videoStep: StepOutcome, audioStep: StepOutcome, mergeStep: StepOutcome)
    : (Result<Path, DownloadError>, set<Path>)
  {
    if videoStep.Finished? && audioStep.Finished? && mergeStep.Finished? then
      (Success(final), (before + {tempVideo, tempAudio, final}) - {tempVideo, tempAudio})
    else
      (Failure(FirstFailure(videoStep, audioStep)), before - {tempVideo, tempAudio, final})
  }

  /**
   * `downloadAndMerge` as a function of the files before it. `refetched`
   * is the format list a second `ytdl.getInfo` returns (None when it
   * fails); the two clocks are the two `Date.now()` readings. The
   * failures before the `try` block leave the files alone.
   */
  function MergeOutcome(before: set<Path>, dir: string, title: string, video: VideoFormat,
                        refetched: Option<seq<VideoFormat>>, videoClock: nat, audioClock: nat,
                        videoStep: StepOutcome, audioStep: StepOutcome, mergeStep: StepOutcome)
    : (Result<Path, DownloadError>, set<Path>)
  {
    match refetched
    case None => (Failure(InfoUnavailable), before)
    case Some(formats) =>
      match PickAudio(formats)
      case None => (Failure(NoAudioFormat), before)
      case Some(audio) =>
        StepsOutcome(before, TempVideoPath(dir, videoClock, video), TempAudioPath(dir, audioClock, audio),
                     Path(dir, MergedFilename(title)), videoStep, audioStep, mergeStep)
  }

  /**
   * `downloadVideo` as a function of the files before it: a format with
   * video and no audio goes through the merge; any other format is
   * streamed straight to its file, which a failed stream leaves in place
   * if it had created it.
   */
  function DownloadOutcome(before: set<Path>, dir: string, title: string, format: VideoFormat,
                           refetched: Option<seq<VideoFormat>>, videoClock: nat, audioClock: nat,
                           directStep: StepOutcome, videoStep: StepOutcome, audioStep: StepOutcome,
                           mergeStep: StepOutcome)
    : (Result<Path, DownloadError>, set<Path>)
  {
    if NeedsMerge(format) then
      MergeOutcome(before, dir, title, format, refetched, videoClock, audioClock, videoStep, audioStep, mergeStep)
    else
      var target := Path(dir, DirectFilename(title, format));
      (if directStep.Finished? then Success(target) else Failure(DirectStepFailed),
       if LeavesFile(directStep) then before + {target} else before)
  }

  /** The three steps of `downloadAndMerge` on their paths, with both cleanups. */
  method RunMerge(fs: FileSystem, tempVideo: Path, tempAudio: Path, final: Path,
                  videoStep: StepOutcome, audioStep: StepOutcome, mergeStep: StepOutcome)
    returns (r: Result<Path, DownloadError>)
    modifies fs
    ensures (r, fs.files) == StepsOutcome(old(fs.files), tempVideo, tempAudio, final, videoStep, audioStep, mergeStep)
  {
    ghost var before := fs.files;
    var everything := [tempVideo, tempAudio, final];
    assert (set p | p in everything) == {tempVideo, tempAudio, final};
    fs.RunStep(tempVideo, videoStep);
    if !videoStep.Finished? {
      fs.CleanupTempFiles(everything);
      assert fs.files == before - {tempVideo, tempAudio, final};
      return Failure(VideoStepFailed);
    }
    fs.RunStep(tempAudio, audioStep);
    if !audioStep.Finished? {
      fs.CleanupTempFiles(everything);
      assert fs.files == before - {tempVideo, tempAudio, final};
      return Failure(AudioStepFailed);
    }
    fs.RunStep(final, mergeStep);
    if !mergeStep.Finished? {
      fs.CleanupTempFiles(everything);
      assert fs.files == before - {tempVideo, tempAudio, final};
      return Failure(MergeFailed);
    }
    var temps := [tempVideo, tempAudio];
    assert (set p | p in temps) == {tempVideo, tempAudio};
    fs.CleanupTempFiles(temps);
    assert fs.files == (before + {tempVideo, tempAudio, final}) - {tempVideo, tempAudio};
    r := Success(final);
  }

  /** `downloadAndMerge` */
  method DownloadAndMerge(fs: FileSystem, dir: string, title: string, video: VideoFormat,
                          refetched: Option<seq<VideoFormat>>, videoClock: nat, audioClock: nat,
                          videoStep: StepOutcome, audioStep: StepOutcome, mergeStep: StepOutcome)
    returns (r: Result<Path, DownloadError>)
    modifies fs
    ensures (r, fs.files) == MergeOutcome(old(fs.files), dir, title, video, refetched, videoClock, audioClock,
                                          videoStep, audioStep, mergeStep)
  {
    if refetched.None? {
      return Failure(InfoUnavailable);
    }
    var audio := PickAudio(refetched.value);
    if audio.None? {
      return Failure(NoAudioFormat);
    }
    var final := Path(dir, MergedFilename(title));
    var tempVideo := TempVideoPath(dir, videoClock, video);
    var tempAudio := TempAudioPath(dir, audioClock, audio.value);
    r := RunMerge(fs, tempVideo, tempAudio, final, videoStep, audioStep, mergeStep);
  }

  /** `downloadVideo` */
  method DownloadVideo(fs: FileSystem, dir: string, title: string, format: VideoFormat,
                       refetched: Option<seq<VideoFormat>>, videoClock: nat, audioClock: nat,
                       directStep: StepOutcome, videoStep: StepOutcome, audioStep: StepOutcome, mergeStep: StepOutcome)
    returns (r: Result<Path, DownloadError>)
    modifies fs
    ensures (r, fs.files) == DownloadOutcome(old(fs.files), dir, title, format, refetched, videoClock, audioClock,
                                             directStep, videoStep, audioStep, mergeStep)
  {
    if NeedsMerge(format) {
      r := DownloadAndMerge(fs, dir, title, format, refetched, videoClock, audioClock, videoStep, audioStep, mergeStep);
      return;
    }
    var target := Path(dir, DirectFilename(title, format));
    fs.RunStep(target, directStep);
    if directStep.Finished? {
      r := Success(target);
    } else {
      r := Failure(DirectStepFailed);
    }
  }

  // ---- lemmas ----

  /** The rank class of the audio-only formats, one format at a time. */
  lemma AudioClassCons(formats: seq<VideoFormat>, k: nat)
    requires formats != []
    ensures RankClass(BitrateOrder, Select(AudioOnly, formats), k)
         == (if InBucket(AudioOnly, formats[0]) && Bitrate(formats[0]) == k then [formats[0]] else [])
            + RankClass(BitrateOrder, Select(AudioOnly, formats[1..]), k)
  {
    var f := formats[0];
    var sel := Select(AudioOnly, formats);
    var tail := Select(AudioOnly, formats[1..]);
    if InBucket(AudioOnly, f) {
      assert sel == [f] + tail;
      assert sel[1..] == tail;
    } else {
      assert sel == tail;
    }
  }

  /**
   * The first element of a rank class of the audio-only formats, located
   * in the input: no earlier audio-only format has that bitrate.
   */
  lemma {:induction false} FirstOfRankClass(formats: seq<VideoFormat>, k: nat) returns (i: nat)
    requires RankClass(BitrateOrder, Select(AudioOnly, formats), k) != []
    ensures i < |formats|
    ensures formats[i] == RankClass(BitrateOrder, Select(AudioOnly, formats), k)[0]
    ensures InBucket(AudioOnly, formats[i]) && Bitrate(formats[i]) == k
    ensures forall j :: 0 <= j < i && InBucket(AudioOnly, formats[j]) ==> Bitrate(formats[j]) != k
  {
    var f := formats[0];
    var rest := formats[1..];
    AudioClassCons(formats, k);
    if InBucket(AudioOnly, f) && Bitrate(f) == k {
      i := 0;
    } else {
      var i' := FirstOfRankClass(rest, k);
      i := i' + 1;
      assert formats[i] == rest[i'];
      forall j | 0 <= j < i && InBucket(AudioOnly, formats[j]) ensures Bitrate(formats[j]) != k {
        if j > 0 {
          assert formats[j] == rest[j - 1];
        }
      }
    }
  }

  /**
   * The audio pick: none exactly when there is no audio-only format;
   * otherwise an audio-only format of the list with the highest bitrate
   * (missing counts as 0), and the first such one in list order.
   */
  lemma PickAudioSpec(formats: seq<VideoFormat>)
    ensures PickAudio(formats).None? <==> forall x :: x in formats ==> !InBucket(AudioOnly, x)
    ensures PickAudio(formats).Some? ==>
      var a := PickAudio(formats).value;
      && a in formats && InBucket(AudioOnly, a)
      && (forall x :: x in formats && InBucket(AudioOnly, x) ==> Bitrate(x) <= Bitrate(a))
      && (exists i :: 0 <= i < |formats| && formats[i] == a
            && forall j :: 0 <= j < i && InBucket(AudioOnly, formats[j]) ==> Bitrate(formats[j]) < Bitrate(a))
  {
    var sel := Select(AudioOnly, formats);
    var sorted := SortDesc(BitrateOrder, sel);
    SortDescMembers(BitrateOrder, sel);
    if sel != [] {
      assert sel[0] in sel;
      var a := sorted[0];
      assert a in sorted;
      SortDescHead(BitrateOrder, sel);
      var i := FirstOfRankClass(formats, Bitrate(a));
      forall x | x in formats && InBucket(AudioOnly, x) ensures Bitrate(x) <= Bitrate(a) {
        assert x in sel;
        assert BitrateOrder(x) <= BitrateOrder(a);
      }
      forall j | 0 <= j < i && InBucket(AudioOnly, formats[j]) ensures Bitrate(formats[j]) < Bitrate(a) {
        assert formats[j] in formats;
      }
    }
  }

  /** With 128 kbps and 64 kbps audio, the 128 kbps one is picked. */
  lemma PickAudioExample(a128: VideoFormat, a64: VideoFormat, video: VideoFormat)
    requires InBucket(AudioOnly, a128) && a128.audioBitrate == Some(128)
    requires InBucket(AudioOnly, a64) && a64.audioBitrate == Some(64)
    requires NeedsMerge(video)
    ensures PickAudio([video, a64, a128]) == Some(a128)
  {
    var formats := [video, a64, a128];
    PickAudioSpec(formats);
    var a := PickAudio(formats).value;
    assert a128 in formats;
    assert Bitrate(a) >= 128;
  }

  /** The two temporary paths never coincide, whatever the clock readings. */
  lemma TempPathsDistinct(dir: string, videoClock: nat, audioClock: nat, video: VideoFormat, audio: VideoFormat)
    ensures TempVideoPath(dir, videoClock, video) != TempAudioPath(dir, audioClock, audio)
  {
    assert TempVideoPath(dir, videoClock, video).name[5] == 'v';
    assert TempAudioPath(dir, audioClock, audio).name[5] == 'a';
  }

  /**
   * The merged file is neither temporary file unless the sanitised title
   * itself starts with `temp_`.
   */
  lemma MergedPathNotTemp(dir: string, title: string, clock: nat, f: VideoFormat)
    requires !("temp_" <= SanitizeFilename(title))
    ensures Path(dir, MergedFilename(title)) != TempVideoPath(dir, clock, f)
    ensures Path(dir, MergedFilename(title)) != TempAudioPath(dir, clock, f)
  {
    var s := SanitizeFilename(title);
    var m := MergedFilename(title);
    NotTempPrefix(s, "temp_video_" + Decimal(clock) + "." + f.container);
    NotTempPrefix(s, "temp_audio_" + Decimal(clock) + "." + f.container);
  }

  /** `s + ".mp4"` differs from a name that starts with `temp_` when `s` does not. */
  lemma NotTempPrefix(s: string, t: string)
    requires !("temp_" <= s) && "temp_" <= t
    ensures s + ".mp4" != t
  {
    var m := s + ".mp4";
    if |s| >= 5 {
      assert m[..5] == s[..5];
      assert m[..5] != t[..5];
    } else {
      assert m[|s|] == '.';
      assert t[|s|] == "temp_"[|s|];
      assert m[|s|] != t[|s|];
    }
  }

  /**
   * A successful merge: the result is the final path, the final file
   * exists unless its name is a temporary one, neither temporary file
   * exists, and every other path is as before.
   */
  lemma StepsSuccess(before: set<Path>, tv: Path, ta: Path, final: Path,
                     videoStep: StepOutcome, audioStep: StepOutcome, mergeStep: StepOutcome)
    requires StepsOutcome(before, tv, ta, final, videoStep, audioStep, mergeStep).0.Success?
    ensures var (r, after) := StepsOutcome(before, tv, ta, final, videoStep, audioStep, mergeStep);
      && videoStep.Finished? && audioStep.Finished? && mergeStep.Finished?
      && r.value == final
      && (final in after <==> final != tv && final != ta)
      && tv !in after && ta !in after
      && forall p :: p != tv && p != ta && p != final ==> (p in after <==> p in before)
  {
  }

  /**
   * A failed merge names the first step that did not finish, creates
   * nothing, and removes exactly the two temporary paths and the final
   * path: a final file that existed before the download is deleted too.
   */
  lemma StepsFailure(before: set<Path>, tv: Path, ta: Path, final: Path,
                     videoStep: StepOutcome, audioStep: StepOutcome, mergeStep: StepOutcome)
    requires StepsOutcome(before, tv, ta, final, videoStep, audioStep, mergeStep).0.Failure?
    ensures var (r, after) := StepsOutcome(before, tv, ta, final, videoStep, audioStep, mergeStep);
      && r.error == (if !videoStep.Finished? then VideoStepFailed
                     else if !audioStep.Finished? then AudioStepFailed else MergeFailed)
      && after <= before
      && tv !in after && ta !in after && final !in after
      && forall p :: p != tv && p != ta && p != final ==> (p in after <==> p in before)
  {
  }

  /**
   * `downloadAndMerge` succeeds exactly when the formats are fetched
   * again, an audio-only format exists and all three steps finish; on
   * success the result is the sanitised title plus `.mp4` in the folder;
   * the two errors raised before the `try` block change no file.
   */
  lemma MergeOutcomeSpec(before: set<Path>, dir: string, title: string, video: VideoFormat,
                         refetched: Option<seq<VideoFormat>>, videoClock: nat, audioClock: nat,
                         videoStep: StepOutcome, audioStep: StepOutcome, mergeStep: StepOutcome)
    ensures var (r, after) := MergeOutcome(before, dir, title, video, refetched, videoClock, audioClock,
                                           videoStep, audioStep, mergeStep);
      && (r.Success? <==> refetched.Some? && PickAudio(refetched.value).Some?
                          && videoStep.Finished? && audioStep.Finished? && mergeStep.Finished?)
      && (r.Success? ==> r.value == Path(dir, MergedFilename(title)))
      && (refetched.None? ==> r == Failure(InfoUnavailable) && after == before)
      && (refetched.Some? && PickAudio(refetched.value).None? ==> r == Failure(NoAudioFormat) && after == before)
      && (forall p :: p in after && p !in before ==> r.Success? && p == Path(dir, MergedFilename(title)))
  {
  }

  /**
   * Routing in `downloadVideo`: the merge path is taken exactly when the
   * format has video and no audio, and then the outcome is that of
   * `downloadAndMerge`; a direct download never fails with a merge error,
   * and a merge never with a direct one.
   */
  lemma DownloadRouting(before: set<Path>, dir: string, title: string, format: VideoFormat,
                        refetched: Option<seq<VideoFormat>>, videoClock: nat, audioClock: nat,
                        directStep: StepOutcome, videoStep: StepOutcome, audioStep: StepOutcome,
                        mergeStep: StepOutcome)
    ensures var (r, after) := DownloadOutcome(before, dir, title, format, refetched, videoClock, audioClock,
                                              directStep, videoStep, audioStep, mergeStep);
      && (r.Success? ==> r.value == if NeedsMerge(format) then Path(dir, MergedFilename(title))
                                    else Path(dir, DirectFilename(title, format)))
      && (r.Failure? ==> (r.error == DirectStepFailed <==> !NeedsMerge(format)))
      && (NeedsMerge(format) ==>
            && (r, after) == MergeOutcome(before, dir, title, format, refetched, videoClock, audioClock,
                                          videoStep, audioStep, mergeStep)
            && (r.Success? <==> refetched.Some? && PickAudio(refetched.value).Some?
                                && videoStep.Finished? && audioStep.Finished? && mergeStep.Finished?)
            && (forall p :: p in after && p !in before ==> r.Success? && p == Path(dir, MergedFilename(title))))
      && (!NeedsMerge(format) ==>
            && (r.Success? <==> directStep.Finished?)
            && after == before + (if LeavesFile(directStep) then {Path(dir, DirectFilename(title, format))} else {}))
  {
    if NeedsMerge(format) {
      MergeOutcomeSpec(before, dir, title, format, refetched, videoClock, audioClock, videoStep, audioStep, mergeStep);
    }
  }

  /** The merged name always ends in `.mp4` and is at most 204 characters long. */
  lemma MergedFilenameShape(title: string)
    ensures |MergedFilename(title)| <= MaxLength + 4
    ensures MergedFilename(title)[|MergedFilename(title)| - 4..] == ".mp4"
  {
    SanitizeSpec(title);
  }

  lemma {:induction false} GlyphsLength(s: string)
    ensures |Glyphs(s)| <= |s|
  {
    if s != [] {
      GlyphsLength(s[1..]);
    }
  }

  /**
   * The extension goes through the sanitiser and the cut too: when the
   * title alone has 200 glyphs, every glyph of the direct name comes from
   * the title, and the extension is lost.
   */
  lemma DirectFilenameLosesExtension(title: string, f: VideoFormat)
    requires |Glyphs(title)| >= MaxLength
    ensures Glyphs(DirectFilename(title, f)) <= Glyphs(title)
  {
    var name := DirectFilename(title, f);
    var whole := title + "." + f.container;
    assert Glyphs(name) <= Glyphs(whole) && |name| <= MaxLength by {
      SanitizeSpec(whole);
    }
    GlyphsLength(name);
    GlyphsOfJoin(title, f.container);
    PrefixOfAppend(Glyphs(name), Glyphs(title), Glyphs(".") + Glyphs(f.container));
  }

  lemma GlyphsOfJoin(title: string, container: string)
    ensures Glyphs(title + "." + container) == Glyphs(title) + (Glyphs(".") + Glyphs(container))
  {
    GlyphsAppend(title + ".", container);
    GlyphsAppend(title, ".");
  }

  lemma PrefixOfAppend(g: string, a: string, b: string)
    requires g <= a + b && |g| <= |a|
    ensures g <= a
  {
    assert g == (a + b)[..|g|] == a[..|g|];
  }
}
