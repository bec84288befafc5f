/**
 * The stream variant record (`VideoFormat` in src/index.ts) and the
 * JavaScript truthiness tests the format menu applies to it.
 */
module Formats {
  import opened Wrappers

  /**
   * One stream variant as the provider reports it. `quality` is never
   * missing (the fetcher substitutes "unknown"); `qualityLabel`,
   * `filesize` and `audioBitrate` may be.
   */
  datatype VideoFormat = VideoFormat(
    itag: int,
    quality: string,
    container: string,
    hasVideo: bool,
    hasAudio: bool,
    filesize: Option<nat>,
    qualityLabel: Option<string>,
    audioBitrate: Option<nat>)

  /** The three buckets of the format menu, in menu order. */
  datatype Bucket = Combined | VideoOnly | AudioOnly

  /** A string field is truthy in JavaScript iff it is present and not "". */
  predicate Truthy(s: Option<string>) {
    s.Some? && s.value != ""
  }

  /** `qualityLabel || quality` */
  function DisplayQuality(f: VideoFormat): string {
    if Truthy(f.qualityLabel) then f.qualityLabel.value else f.quality
  }

  /** `qualityLabel || ""` */
  function LabelOrEmpty(f: VideoFormat): string {
    if Truthy(f.qualityLabel) then f.qualityLabel.value else ""
  }

  /** `${qualityLabel}` in a template literal: a missing label prints "undefined". */
  function LabelText(f: VideoFormat): string {
    match f.qualityLabel
    case Some(l) => l
    case None => "undefined"
  }

  /** `audioBitrate || 0` */
  function Bitrate(f: VideoFormat): nat {
    match f.audioBitrate
    case Some(b) => b
    case None => 0
  }

  /** The filter predicate of each bucket. */
  predicate InBucket(b: Bucket, f: VideoFormat) {
    match b
    case Combined => f.hasVideo && f.hasAudio
    case VideoOnly => f.hasVideo && !f.hasAudio && Truthy(f.qualityLabel)
    case AudioOnly => f.hasAudio && !f.hasVideo
  }

  /** The key a bucket deduplicates on. */
  function Key(b: Bucket, f: VideoFormat): string {
    match b
    case Combined => DisplayQuality(f) + "-" + f.container
    case VideoOnly => LabelText(f) + "-" + f.container
    case AudioOnly => f.quality + "-" + f.container
  }

  /** `key` as a function value, for the deduplication of bucket `b`. */
  function KeyOf(b: Bucket): VideoFormat -> string {
    f => Key(b, f)
  }

  /** The lookup table of the combined bucket; unknown names rank 0 (`|| 0`). */
  function CombinedRank(name: string): nat {
    if name == "hd2160" || name == "2160p" then 6
    else if name == "hd1440" || name == "1440p" then 5
    else if name == "hd1080" || name == "1080p" then 4
    else if name == "hd720" || name == "720p" then 3
    else if name == "large" || name == "480p" then 2
    else if name == "medium" || name == "360p" then 1
    else 0
  }

  /** The lookup table of the video-only bucket; unknown names rank 0 (`|| 0`). */
  function VideoOnlyRank(name: string): nat {
    if name == "2160p" then 7
    else if name == "1440p" then 6
    else if name == "1080p" then 5
    else if name == "720p" then 4
    else if name == "480p" then 3
    else if name == "360p" then 2
    else if name == "240p" then 1
    else 0
  }

  /** Sort key of the combined bucket: the table entry of `qualityLabel || quality`. */
  const CombinedOrder: VideoFormat -> nat := f => CombinedRank(DisplayQuality(f))

  /** Sort key of the video-only bucket: the table entry of `qualityLabel || ""`. */
  const VideoOnlyOrder: VideoFormat -> nat := f => VideoOnlyRank(LabelOrEmpty(f))

  /** Sort key of the audio pick: `audioBitrate || 0`. */
  const BitrateOrder: VideoFormat -> nat := f => Bitrate(f)

  /** The bucket a format falls into, if any; the three filters are disjoint. */
  function BucketOf(f: VideoFormat): (r: Option<Bucket>)
    ensures r.Some? ==> InBucket(r.value, f)
    ensures forall b :: InBucket(b, f) ==> r == Some(b)
  {
    if InBucket(Combined, f) then Some(Combined)
    else if InBucket(VideoOnly, f) then Some(VideoOnly)
    else if InBucket(AudioOnly, f) then Some(AudioOnly)
    else None
  }

  /** Position of a bucket in the menu. */
  function BucketIndex(b: Bucket): nat {
    match b
    case Combined => 0
    case VideoOnly => 1
    case AudioOnly => 2
  }

  /** `formats.filter(...)` with the bucket's predicate. */
  function Select(b: Bucket, s: seq<VideoFormat>): (r: seq<VideoFormat>)
    ensures |r| <= |s|
    ensures forall x :: x in r <==> x in s && InBucket(b, x)
  {
    if s == [] then []
    else (if InBucket(b, s[0]) then [s[0]] else []) + Select(b, s[1..])
  }

  /** The filter works element by element: it distributes over concatenation. */
  lemma {:induction false} SelectAppend(b: Bucket, s: seq<VideoFormat>, t: seq<VideoFormat>)
    ensures Select(b, s + t) == Select(b, s) + Select(b, t)
  {
    if s == [] {
      assert s + t == t;
    } else {
      assert (s + t)[1..] == s[1..] + t;
      SelectAppend(b, s[1..], t);
    }
  }

  /** One format is kept exactly when it passes the bucket's predicate. */
  lemma SelectSingle(b: Bucket, x: VideoFormat)
    ensures Select(b, [x]) == if InBucket(b, x) then [x] else []
  {
    assert [x][1..] == [];
  }

  /**
   * The filter keeps input order: a passing format at index `i` of `s`
   * sits in the result just after the passing formats before it.
   */
  lemma SelectIndex(b: Bucket, s: seq<VideoFormat>, i: nat)
    requires i < |s| && InBucket(b, s[i])
    ensures |Select(b, s[..i])| < |Select(b, s)|
    ensures Select(b, s)[|Select(b, s[..i])|] == s[i]
  {
    assert s == s[..i] + [s[i]] + s[i + 1..];
    SelectAppend(b, s[..i] + [s[i]], s[i + 1..]);
    SelectAppend(b, s[..i], [s[i]]);
    SelectSingle(b, s[i]);
  }

  /** Each element of the result comes from an input position with exactly that many passing formats before it. */
  lemma {:induction false} SelectPosition(b: Bucket, s: seq<VideoFormat>, k: nat) returns (i: nat)
    requires k < |Select(b, s)|
    ensures i < |s| && s[i] == Select(b, s)[k] && InBucket(b, s[i])
    ensures |Select(b, s[..i])| == k
  {
    var head := Select(b, [s[0]]);
    SelectCons(b, s);
    if InBucket(b, s[0]) && k == 0 {
      i := 0;
      assert s[..0] == [];
    } else {
      var j := SelectPosition(b, s[1..], k - |head|);
      i := j + 1;
      SelectConsPrefix(b, s, j);
    }
  }

  lemma SelectCons(b: Bucket, s: seq<VideoFormat>)
    requires s != []
    ensures Select(b, s) == Select(b, [s[0]]) + Select(b, s[1..])
    ensures Select(b, [s[0]]) == if InBucket(b, s[0]) then [s[0]] else []
  {
    SelectSingle(b, s[0]);
  }

  lemma SelectConsPrefix(b: Bucket, s: seq<VideoFormat>, j: nat)
    requires j < |s| - 1
    ensures Select(b, s[..j + 1]) == Select(b, [s[0]]) + Select(b, s[1..][..j])
  {
    assert s[..j + 1] == [s[0]] + s[1..][..j];
    SelectAppend(b, [s[0]], s[1..][..j]);
  }
}
