/**
 * The format menu (`getAvailableFormats` and `selectFormat` in
 * src/index.ts): three buckets filtered, sorted, deduplicated and capped,
 * then listed combined first, video-only next and audio-only last.
 */
module FormatMenu {
  import opened Wrappers
  import opened Seqs
  import opened Formats
  import opened StableSort
  import opened JsMap

  /** At most this many video-only entries, counted after deduplication. */
  const MaxVideoOnly: nat := 4
  /** At most this many audio-only formats, counted before deduplication. */
  const MaxAudio: nat := 2

  /** One menu entry: the label shown (without terminal styling) and the format behind it. */
  datatype Choice = Choice(name: string, value: VideoFormat)

  datatype MenuError = NoFormatAvailable

  function CombinedBucket(formats: seq<VideoFormat>): seq<VideoFormat> {
    Unique(KeyOf(Combined), SortDesc(CombinedOrder, Select(Combined, formats)))
  }

  function VideoOnlyBucket(formats: seq<VideoFormat>): seq<VideoFormat> {
    Take(Unique(KeyOf(VideoOnly), SortDesc(VideoOnlyOrder, Select(VideoOnly, formats))), MaxVideoOnly)
  }

  function AudioBucket(formats: seq<VideoFormat>): seq<VideoFormat> {
    Unique(KeyOf(AudioOnly), Take(Select(AudioOnly, formats), MaxAudio))
  }

  /** The formats behind the menu entries, in menu order. */
  function Menu(formats: seq<VideoFormat>): seq<VideoFormat> {
    CombinedBucket(formats) + VideoOnlyBucket(formats) + AudioBucket(formats)
  }

  /** The label of an entry; the file-size text is not part of this model. */
  function ChoiceName(b: Bucket, f: VideoFormat): string {
    match b
    case Combined => DisplayQuality(f) + " (" + f.container + ")"
    case VideoOnly => DisplayQuality(f) + " (" + f.container + ") (será combinado com áudio)"
    case AudioOnly => "Áudio (" + f.container + ")"
  }

  /** True when no format passes any of the three bucket filters. */
  predicate NothingDownloadable(formats: seq<VideoFormat>) {
    forall x :: x in formats ==> !InBucket(Combined, x) && !InBucket(VideoOnly, x) && !InBucket(AudioOnly, x)
  }

  /** No container holds a '-', the separator of the deduplication keys. */
  predicate ContainersWithoutDash(formats: seq<VideoFormat>) {
    forall i :: 0 <= i < |formats| ==> '-' !in formats[i].container
  }

  /** The entries of `formats` labelled as bucket `b`. */
  function Labelled(b: Bucket, formats: seq<VideoFormat>): (r: seq<Choice>)
    ensures |r| == |formats|
    ensures forall i :: 0 <= i < |r| ==> r[i] == Choice(ChoiceName(b, formats[i]), formats[i])
  {
    seq(|formats|, i requires 0 <= i < |formats| => Choice(ChoiceName(b, formats[i]), formats[i]))
  }

  /**
   * The three `forEach` loops of `getAvailableFormats`: push one labelled
   * entry per format of each bucket, in bucket order.
   */
  method PushChoices(uniqueCombined: seq<VideoFormat>, uniqueVideoOnly: seq<VideoFormat>, uniqueAudio: seq<VideoFormat>)
    returns (choices: seq<Choice>)
    ensures choices == Labelled(Combined, uniqueCombined) + Labelled(VideoOnly, uniqueVideoOnly) + Labelled(AudioOnly, uniqueAudio)
  {
    choices := [];
    for i := 0 to |uniqueCombined|
      invariant choices == Labelled(Combined, uniqueCombined[..i])
    {
      var format := uniqueCombined[i];
      choices := choices + [Choice(ChoiceName(Combined, format), format)];
    }
    assert uniqueCombined[..|uniqueCombined|] == uniqueCombined;
    ghost var done := choices;
    for i := 0 to |uniqueVideoOnly|
      invariant choices == done + Labelled(VideoOnly, uniqueVideoOnly[..i])
    {
      var format := uniqueVideoOnly[i];
      choices := choices + [Choice(ChoiceName(VideoOnly, format), format)];
    }
    assert uniqueVideoOnly[..|uniqueVideoOnly|] == uniqueVideoOnly;
    done := choices;
    for i := 0 to |uniqueAudio|
      invariant choices == done + Labelled(AudioOnly, uniqueAudio[..i])
    {
      var format := uniqueAudio[i];
      choices := choices + [Choice(ChoiceName(AudioOnly, format), format)];
    }
    assert uniqueAudio[..|uniqueAudio|] == uniqueAudio;
  }

  /**
   * `getAvailableFormats`: one entry per menu format, in menu order, each
   * labelled by the bucket the format belongs to.
   */
  method GetAvailableFormats(formats: seq<VideoFormat>) returns (choices: seq<Choice>)
    ensures |choices| == |Menu(formats)|
    ensures forall i :: 0 <= i < |choices| ==> choices[i].value == Menu(formats)[i]
    ensures forall i :: 0 <= i < |choices| ==>
      BucketOf(choices[i].value).Some? && choices[i].name == ChoiceName(BucketOf(choices[i].value).value, choices[i].value)
  {
    var uniqueCombined := CombinedBucket(formats);
    var uniqueVideoOnly := VideoOnlyBucket(formats);
    var uniqueAudio := AudioBucket(formats);
    choices := PushChoices(uniqueCombined, uniqueVideoOnly, uniqueAudio);
    MenuBuckets(formats);
    LabelledMenu(uniqueCombined, uniqueVideoOnly, uniqueAudio, choices);
  }

  lemma LabelledMenu(c: seq<VideoFormat>, v: seq<VideoFormat>, a: seq<VideoFormat>, choices: seq<Choice>)
    requires choices == Labelled(Combined, c) + Labelled(VideoOnly, v) + Labelled(AudioOnly, a)
    requires forall x :: x in c ==> InBucket(Combined, x)
    requires forall x :: x in v ==> InBucket(VideoOnly, x)
    requires forall x :: x in a ==> InBucket(AudioOnly, x)
    ensures |choices| == |c + v + a|
    ensures forall i :: 0 <= i < |choices| ==> choices[i].value == (c + v + a)[i]
    ensures forall i :: 0 <= i < |choices| ==>
      BucketOf(choices[i].value).Some? && choices[i].name == ChoiceName(BucketOf(choices[i].value).value, choices[i].value)
  {
    forall i | 0 <= i < |choices|
      ensures choices[i].value == (c + v + a)[i]
      ensures BucketOf(choices[i].value).Some? && choices[i].name == ChoiceName(BucketOf(choices[i].value).value, choices[i].value)
    {
      if i < |c| {
        assert c[i] in c;
      } else if i < |c| + |v| {
        assert v[i - |c|] in v;
      } else {
        assert a[i - |c| - |v|] in a;
      }
    }
  }

  /**
   * `selectFormat`: an empty menu is an error; otherwise the prompt returns
   * the entry the user picks, here the one at position `answer`.
   */
  method SelectFormat(formats: seq<VideoFormat>, answer: nat) returns (r: Result<VideoFormat, MenuError>)
    requires Menu(formats) != [] ==> answer < |Menu(formats)|
    ensures r.Failure? <==> NothingDownloadable(formats)
    ensures r.Success? ==> answer < |Menu(formats)| && r.value == Menu(formats)[answer] && r.value in formats
  {
    var choices := GetAvailableFormats(formats);
    MenuEmpty(formats);
    if |choices| == 0 {
      r := Failure(NoFormatAvailable);
    } else {
      MenuBuckets(formats);
      assert choices[answer].value == Menu(formats)[answer];
      assert Menu(formats)[answer] in formats;
      r := Success(choices[answer].value);
    }
  }

  // ---- lemmas ----

  /** A bucket's filter result is empty exactly when no format passes the filter. */
  lemma SelectEmpty(b: Bucket, formats: seq<VideoFormat>)
    ensures Select(b, formats) == [] <==> forall x :: x in formats ==> !InBucket(b, x)
  {
    var sel := Select(b, formats);
    if sel != [] {
      assert sel[0] in sel;
    }
  }

  /**
   * The combined bucket: drawn from the combined formats, empty only when
   * there are none, with pairwise distinct keys and a representative of
   * every combined key.
   */
  lemma CombinedMembers(formats: seq<VideoFormat>)
    ensures forall x :: x in CombinedBucket(formats) ==> x in formats && InBucket(Combined, x)
    ensures CombinedBucket(formats) == [] <==> forall x :: x in formats ==> !InBucket(Combined, x)
    ensures forall i, j :: 0 <= i < j < |CombinedBucket(formats)| ==>
      Key(Combined, CombinedBucket(formats)[i]) != Key(Combined, CombinedBucket(formats)[j])
    ensures forall x :: x in formats && InBucket(Combined, x) ==>
      exists i :: 0 <= i < |CombinedBucket(formats)| && Key(Combined, CombinedBucket(formats)[i]) == Key(Combined, x)
  {
    var sel := Select(Combined, formats);
    var c := CombinedBucket(formats);
    SelectEmpty(Combined, formats);
    SortUniqueProperties(KeyOf(Combined), CombinedOrder, sel);
    UniqueProperties(KeyOf(Combined), SortDesc(CombinedOrder, sel));
    forall x | x in formats && InBucket(Combined, x)
      ensures exists i :: 0 <= i < |c| && Key(Combined, c[i]) == Key(Combined, x)
    {
      assert x in sel;
      var i :| 0 <= i < |c| && KeyOf(Combined)(c[i]) == KeyOf(Combined)(x);
      assert Key(Combined, c[i]) == Key(Combined, x);
    }
  }

  /** The combined bucket holds exactly one entry per distinct combined key. */
  lemma CombinedCount(formats: seq<VideoFormat>)
    ensures |CombinedBucket(formats)| == |set x | x in formats && InBucket(Combined, x) :: Key(Combined, x)|
  {
    var sel := Select(Combined, formats);
    var keys := set x | x in formats && InBucket(Combined, x) :: Key(Combined, x);
    forall x | x in sel ensures KeyOf(Combined)(x) in keys {
      assert x in formats && InBucket(Combined, x);
    }
    forall k | k in keys ensures exists x :: x in sel && KeyOf(Combined)(x) == k {
      var x :| x in formats && InBucket(Combined, x) && Key(Combined, x) == k;
      assert x in sel;
    }
    SortUniqueCount(KeyOf(Combined), CombinedOrder, sel, keys);
  }

  /**
   * The video-only bucket: drawn from the video-only formats, empty only
   * when there are none, and at most four entries.
   */
  lemma VideoOnlyMembers(formats: seq<VideoFormat>)
    ensures forall x :: x in VideoOnlyBucket(formats) ==> x in formats && InBucket(VideoOnly, x)
    ensures VideoOnlyBucket(formats) == [] <==> forall x :: x in formats ==> !InBucket(VideoOnly, x)
    ensures |VideoOnlyBucket(formats)| <= MaxVideoOnly
  {
    var sel := Select(VideoOnly, formats);
    var u := Unique(KeyOf(VideoOnly), SortDesc(VideoOnlyOrder, sel));
    var v := VideoOnlyBucket(formats);
    SelectEmpty(VideoOnly, formats);
    SortUniqueProperties(KeyOf(VideoOnly), VideoOnlyOrder, sel);
    TakeMembers(u, MaxVideoOnly);
  }

  /** No two video-only entries share a key. */
  lemma VideoOnlyKeys(formats: seq<VideoFormat>)
    ensures forall i, j :: 0 <= i < j < |VideoOnlyBucket(formats)| ==>
      Key(VideoOnly, VideoOnlyBucket(formats)[i]) != Key(VideoOnly, VideoOnlyBucket(formats)[j])
  {
    var t := SortDesc(VideoOnlyOrder, Select(VideoOnly, formats));
    var u := Unique(KeyOf(VideoOnly), t);
    var v := VideoOnlyBucket(formats);
    UniqueProperties(KeyOf(VideoOnly), t);
    assert v == u[..|v|];
    forall i, j | 0 <= i < j < |v| ensures Key(VideoOnly, v[i]) != Key(VideoOnly, v[j]) {
      assert KeyOf(VideoOnly)(u[i]) != KeyOf(VideoOnly)(u[j]);
    }
  }

  /**
   * The audio-only bucket: drawn from the audio-only formats, empty only
   * when there are none, with pairwise distinct keys and at most two entries.
   */
  lemma AudioMembers(formats: seq<VideoFormat>)
    ensures forall x :: x in AudioBucket(formats) ==> x in formats && InBucket(AudioOnly, x)
    ensures AudioBucket(formats) == [] <==> forall x :: x in formats ==> !InBucket(AudioOnly, x)
    ensures forall i, j :: 0 <= i < j < |AudioBucket(formats)| ==>
      Key(AudioOnly, AudioBucket(formats)[i]) != Key(AudioOnly, AudioBucket(formats)[j])
    ensures |AudioBucket(formats)| <= MaxAudio
  {
    var sel := Select(AudioOnly, formats);
    var t := Take(sel, MaxAudio);
    SelectEmpty(AudioOnly, formats);
    UniqueProperties(KeyOf(AudioOnly), t);
    forall x | x in AudioBucket(formats) ensures x in formats && InBucket(AudioOnly, x) {
      assert x in t;
      var i :| 0 <= i < |t| && t[i] == x;
      assert sel[i] in sel;
    }
  }

  /**
   * The video-only bucket is cut after deduplication: it holds four entries,
   * or one per distinct video-only key when there are fewer.
   */
  lemma VideoOnlyCount(formats: seq<VideoFormat>)
    ensures var n := |set x | x in formats && InBucket(VideoOnly, x) :: Key(VideoOnly, x)|;
      |VideoOnlyBucket(formats)| == if n < MaxVideoOnly then n else MaxVideoOnly
  {
    var sel := Select(VideoOnly, formats);
    var keys := set x | x in formats && InBucket(VideoOnly, x) :: Key(VideoOnly, x);
    forall x | x in sel ensures KeyOf(VideoOnly)(x) in keys {
      assert x in formats && InBucket(VideoOnly, x);
    }
    forall k | k in keys ensures exists x :: x in sel && KeyOf(VideoOnly)(x) == k {
      var x :| x in formats && InBucket(VideoOnly, x) && Key(VideoOnly, x) == k;
      assert x in sel;
    }
    SortUniqueCount(KeyOf(VideoOnly), VideoOnlyOrder, sel, keys);
  }

  /** Index `i` holds an audio-only format with fewer than two audio-only formats before it. */
  predicate AmongFirstAudio(formats: seq<VideoFormat>, i: int) {
    0 <= i < |formats| && InBucket(AudioOnly, formats[i]) && |Select(AudioOnly, formats[..i])| < MaxAudio
  }

  /** The two-format cut of the audio filter holds exactly the first two audio-only formats. */
  lemma FirstAudio(formats: seq<VideoFormat>)
    ensures forall x :: x in Take(Select(AudioOnly, formats), MaxAudio) <==>
      exists i :: AmongFirstAudio(formats, i) && formats[i] == x
  {
    var sel := Select(AudioOnly, formats);
    var t := Take(sel, MaxAudio);
    forall x | x in t ensures exists i :: AmongFirstAudio(formats, i) && formats[i] == x {
      var k :| 0 <= k < |t| && t[k] == x;
      var i := SelectPosition(AudioOnly, formats, k);
      assert AmongFirstAudio(formats, i);
    }
    forall i | AmongFirstAudio(formats, i) ensures formats[i] in t {
      SelectIndex(AudioOnly, formats, i);
      var k := |Select(AudioOnly, formats[..i])|;
      assert t[k] == formats[i];
    }
  }

  /**
   * The audio bucket is cut before deduplication: its entries are among
   * the first two audio-only formats, one per distinct key among those two.
   */
  lemma AudioFirstTwo(formats: seq<VideoFormat>)
    ensures forall x :: x in AudioBucket(formats) ==> exists i :: AmongFirstAudio(formats, i) && formats[i] == x
    ensures forall i :: AmongFirstAudio(formats, i) ==>
      exists k :: 0 <= k < |AudioBucket(formats)| && Key(AudioOnly, AudioBucket(formats)[k]) == Key(AudioOnly, formats[i])
    ensures |AudioBucket(formats)| == |set i | 0 <= i < |formats| && AmongFirstAudio(formats, i) :: Key(AudioOnly, formats[i])|
  {
    var t := Take(Select(AudioOnly, formats), MaxAudio);
    FirstAudio(formats);
    UniqueProperties(KeyOf(AudioOnly), t);
    AudioCoversFirstTwo(formats);
    AudioCountFirstTwo(formats);
  }

  lemma AudioCoversFirstTwo(formats: seq<VideoFormat>)
    ensures forall i :: AmongFirstAudio(formats, i) ==>
      exists k :: 0 <= k < |AudioBucket(formats)| && Key(AudioOnly, AudioBucket(formats)[k]) == Key(AudioOnly, formats[i])
  {
    var t := Take(Select(AudioOnly, formats), MaxAudio);
    var u := AudioBucket(formats);
    FirstAudio(formats);
    UniqueProperties(KeyOf(AudioOnly), t);
    forall i | AmongFirstAudio(formats, i)
      ensures exists k :: 0 <= k < |u| && Key(AudioOnly, u[k]) == Key(AudioOnly, formats[i])
    {
      assert formats[i] in t;
      var k :| 0 <= k < |u| && KeyOf(AudioOnly)(u[k]) == KeyOf(AudioOnly)(formats[i]);
      assert Key(AudioOnly, u[k]) == Key(AudioOnly, formats[i]);
    }
  }

  lemma AudioCountFirstTwo(formats: seq<VideoFormat>)
    ensures |AudioBucket(formats)| == |set i | 0 <= i < |formats| && AmongFirstAudio(formats, i) :: Key(AudioOnly, formats[i])|
  {
    var t := Take(Select(AudioOnly, formats), MaxAudio);
    FirstAudio(formats);
    var keys := set i | 0 <= i < |formats| && AmongFirstAudio(formats, i) :: Key(AudioOnly, formats[i]);
    forall x | x in t ensures KeyOf(AudioOnly)(x) in keys {
      var i :| AmongFirstAudio(formats, i) && formats[i] == x;
      assert Key(AudioOnly, formats[i]) in keys;
    }
    forall k | k in keys ensures exists x :: x in t && KeyOf(AudioOnly)(x) == k {
      var i :| 0 <= i < |formats| && AmongFirstAudio(formats, i) && Key(AudioOnly, formats[i]) == k;
      assert formats[i] in t;
    }
    UniqueCountKeys(KeyOf(AudioOnly), t, keys);
  }

  /** Positions of a concatenation of three bucket-pure sequences, bucket by bucket. */
  lemma ConcatBuckets(c: seq<VideoFormat>, v: seq<VideoFormat>, a: seq<VideoFormat>, formats: seq<VideoFormat>)
    requires forall x :: x in c ==> x in formats && InBucket(Combined, x)
    requires forall x :: x in v ==> x in formats && InBucket(VideoOnly, x)
    requires forall x :: x in a ==> x in formats && InBucket(AudioOnly, x)
    ensures forall i :: 0 <= i < |c + v + a| ==> (c + v + a)[i] in formats && BucketOf((c + v + a)[i]).Some?
    ensures forall i, j :: 0 <= i < j < |c + v + a| ==>
      BucketIndex(BucketOf((c + v + a)[i]).value) <= BucketIndex(BucketOf((c + v + a)[j]).value)
  {
    var m := c + v + a;
    forall i | 0 <= i < |m|
      ensures m[i] in formats
      ensures BucketOf(m[i]) == Some(if i < |c| then Combined else if i < |c| + |v| then VideoOnly else AudioOnly)
    {
      if i < |c| {
        assert m[i] == c[i] && c[i] in c;
      } else if i < |c| + |v| {
        assert m[i] == v[i - |c|] && v[i - |c|] in v;
      } else {
        assert m[i] == a[i - |c| - |v|] && a[i - |c| - |v|] in a;
      }
    }
  }

  /**
   * Every entry comes from the input and passes its bucket's filter; all
   * combined entries precede all video-only entries, which precede all
   * audio-only entries.
   */
  lemma MenuBuckets(formats: seq<VideoFormat>)
    ensures forall x :: x in CombinedBucket(formats) ==> x in formats && InBucket(Combined, x)
    ensures forall x :: x in VideoOnlyBucket(formats) ==> x in formats && InBucket(VideoOnly, x)
    ensures forall x :: x in AudioBucket(formats) ==> x in formats && InBucket(AudioOnly, x)
    ensures forall i :: 0 <= i < |Menu(formats)| ==> Menu(formats)[i] in formats && BucketOf(Menu(formats)[i]).Some?
    ensures forall i, j :: 0 <= i < j < |Menu(formats)| ==>
      BucketIndex(BucketOf(Menu(formats)[i]).value) <= BucketIndex(BucketOf(Menu(formats)[j]).value)
  {
    CombinedMembers(formats);
    VideoOnlyMembers(formats);
    AudioMembers(formats);
    ConcatBuckets(CombinedBucket(formats), VideoOnlyBucket(formats), AudioBucket(formats), formats);
  }

  /** Within the combined bucket, ranks never increase. */
  lemma CombinedSorted(formats: seq<VideoFormat>)
    requires ContainersWithoutDash(formats)
    ensures SortedDesc(CombinedOrder, CombinedBucket(formats))
  {
    var sel := Select(Combined, formats);
    var sc := SortDesc(CombinedOrder, sel);
    SortDescMembers(CombinedOrder, sel);
    forall i, j | 0 <= i < |sc| && 0 <= j < |sc| && Key(Combined, sc[i]) == Key(Combined, sc[j])
      ensures CombinedOrder(sc[i]) == CombinedOrder(sc[j])
    {
      assert sc[i] in sel && sc[j] in sel;
      assert sc[i] in formats && sc[j] in formats;
      DashSplit(DisplayQuality(sc[i]), sc[i].container, DisplayQuality(sc[j]), sc[j].container);
    }
    UniqueKeepsSorted(KeyOf(Combined), CombinedOrder, sc);
  }

  /** Deduplicating the sorted video-only formats keeps them sorted. */
  lemma VideoOnlyUniqueSorted(formats: seq<VideoFormat>)
    requires ContainersWithoutDash(formats)
    ensures SortedDesc(VideoOnlyOrder, Unique(KeyOf(VideoOnly), SortDesc(VideoOnlyOrder, Select(VideoOnly, formats))))
  {
    var sel := Select(VideoOnly, formats);
    var sv := SortDesc(VideoOnlyOrder, sel);
    SortDescMembers(VideoOnlyOrder, sel);
    forall i, j | 0 <= i < |sv| && 0 <= j < |sv| && Key(VideoOnly, sv[i]) == Key(VideoOnly, sv[j])
      ensures VideoOnlyOrder(sv[i]) == VideoOnlyOrder(sv[j])
    {
      assert sv[i] in sel && sv[j] in sel;
      assert sv[i] in formats && sv[j] in formats;
      DashSplit(LabelText(sv[i]), sv[i].container, LabelText(sv[j]), sv[j].container);
    }
    UniqueKeepsSorted(KeyOf(VideoOnly), VideoOnlyOrder, sv);
  }

  /** Within the video-only bucket, ranks never increase. */
  lemma VideoOnlySorted(formats: seq<VideoFormat>)
    requires ContainersWithoutDash(formats)
    ensures SortedDesc(VideoOnlyOrder, VideoOnlyBucket(formats))
  {
    VideoOnlyUniqueSorted(formats);
    var u := Unique(KeyOf(VideoOnly), SortDesc(VideoOnlyOrder, Select(VideoOnly, formats)));
    SortedPrefix(VideoOnlyOrder, u, |VideoOnlyBucket(formats)|);
  }

  // ---- the dash assumption is needed ----

  /**
   * Three combined formats of rank 3, 2 and 0. The first (`720p`, container
   * `x-mp4`) and the third (`720p-x`, container `mp4`) share the key
   * `720p-x-mp4`.
   */
  function DashClash(): seq<VideoFormat> {
    [ VideoFormat(1, "hd720", "x-mp4", true, true, None, Some("720p"), None),
      VideoFormat(2, "large", "mp4", true, true, None, Some("480p"), None),
      VideoFormat(3, "small", "mp4", true, true, None, Some("720p-x"), None) ]
  }

  lemma DashClashKeys()
    ensures Key(Combined, DashClash()[0]) == Key(Combined, DashClash()[2])
    ensures Key(Combined, DashClash()[0]) != Key(Combined, DashClash()[1])
  {
    var fs := DashClash();
    assert Key(Combined, fs[0]) == "720p" + "-" + "x-mp4";
    assert Key(Combined, fs[2]) == "720p-x" + "-" + "mp4";
    assert Key(Combined, fs[1]) == "480p" + "-" + "mp4";
    assert Key(Combined, fs[0])[0] != Key(Combined, fs[1])[0];
  }

  lemma DashClashRanks()
    ensures CombinedOrder(DashClash()[0]) == 3
    ensures CombinedOrder(DashClash()[1]) == 2
    ensures CombinedOrder(DashClash()[2]) == 0
  {
  }

  lemma DashClashSorted()
    ensures SortDesc(CombinedOrder, Select(Combined, DashClash())) == DashClash()
  {
    var fs := DashClash();
    SelectAll(Combined, fs);
    DashClashRanks();
    SortThree(CombinedOrder, fs[0], fs[1], fs[2]);
    assert fs == [fs[0], fs[1], fs[2]];
  }

  lemma {:induction false} SelectAll(b: Bucket, s: seq<VideoFormat>)
    requires forall i :: 0 <= i < |s| ==> InBucket(b, s[i])
    ensures Select(b, s) == s
  {
    if s != [] {
      SelectAll(b, s[1..]);
    }
  }

  /** Three elements already in descending order are left as they are. */
  lemma SortThree<T>(rank: T -> nat, a: T, b: T, c: T)
    requires rank(a) >= rank(b) >= rank(c)
    ensures SortDesc(rank, [a, b, c]) == [a, b, c]
  {
    SortTwo(rank, b, c);
    assert [a, b, c][1..] == [b, c];
  }

  lemma SortTwo<T>(rank: T -> nat, b: T, c: T)
    requires rank(b) >= rank(c)
    ensures SortDesc(rank, [b, c]) == [b, c]
  {
    SortOne(rank, c);
    assert [b, c][1..] == [c];
  }

  lemma SortOne<T>(rank: T -> nat, c: T)
    ensures SortDesc(rank, [c]) == [c]
  {
    assert [c][1..] == [];
  }

  lemma DashClashUnique()
    ensures Unique(KeyOf(Combined), DashClash()) == [DashClash()[2], DashClash()[1]]
  {
    var fs := DashClash();
    var key := KeyOf(Combined);
    DashClashKeys();
    var k0, k1 := Key(Combined, fs[0]), Key(Combined, fs[1]);
    var m1 := [Entry(k0, fs[0])];
    assert fs[..1][..0] == [];
    assert BuildMap(key, fs[..1]) == m1;
    var m2 := m1 + [Entry(k1, fs[1])];
    assert fs[..2][..1] == fs[..1];
    assert Find(m1, k1) == 1 by {
      assert m1[1..] == [];
    }
    assert BuildMap(key, fs[..2]) == m2;
    assert fs[..2] == fs[..|fs| - 1];
    assert Find(m2, k0) == 0;
    assert BuildMap(key, fs) == m2[0 := Entry(k0, fs[2])];
  }

  lemma DashClashBucket()
    ensures CombinedBucket(DashClash()) == [DashClash()[2], DashClash()[1]]
  {
    DashClashSorted();
    DashClashUnique();
  }

  /** Two positions in the wrong order make a sequence unsorted. */
  lemma Unsorted<T>(rank: T -> nat, s: seq<T>, i: nat, j: nat)
    requires i < j < |s| && rank(s[i]) < rank(s[j])
    ensures !SortedDesc(rank, s)
  {
  }

  /**
   * Without the dash assumption the combined bucket can be out of order:
   * here it lists the rank-0 format before the rank-2 one.
   */
  lemma CombinedUnsortedWithDash()
    ensures !ContainersWithoutDash(DashClash())
    ensures CombinedBucket(DashClash()) == [DashClash()[2], DashClash()[1]]
    ensures !SortedDesc(CombinedOrder, CombinedBucket(DashClash()))
  {
    var fs := DashClash();
    assert fs[0].container[1] == '-';
    DashClashBucket();
    DashClashRanks();
    Unsorted(CombinedOrder, [fs[2], fs[1]], 0, 1);
  }

  /** In `a + "-" + c` with no '-' in `c`, the last '-' sits just before `c`. */
  lemma LastDash(a: string, c: string)
    requires '-' !in c
    ensures (a + "-" + c)[|a|] == '-'
    ensures forall i :: |a| < i < |a + "-" + c| ==> (a + "-" + c)[i] != '-'
  {
    var k := a + "-" + c;
    forall i | |a| < i < |k| ensures k[i] != '-' {
      assert k[i] == c[i - |a| - 1];
    }
  }

  /** The last '-' of a key separates the quality name from a container without '-'. */
  lemma DashSplit(a: string, c: string, a': string, c': string)
    requires '-' !in c && '-' !in c'
    requires a + "-" + c == a' + "-" + c'
    ensures a == a' && c == c'
  {
    var k := a + "-" + c;
    LastDash(a, c);
    LastDash(a', c');
    assert |a| == |a'|;
    assert c == k[|a| + 1..] == c';
    assert a == k[..|a|] == a';
  }

  /**
   * The caps: at most four video-only and two audio-only entries, and one
   * combined entry per distinct combined key.
   */
  lemma MenuLength(formats: seq<VideoFormat>)
    ensures |Menu(formats)| <= |set x | x in formats && InBucket(Combined, x) :: Key(Combined, x)| + MaxVideoOnly + MaxAudio
  {
    CombinedCount(formats);
    VideoOnlyMembers(formats);
    AudioMembers(formats);
  }

  /** The menu is empty exactly when no format passes any bucket filter. */
  lemma MenuEmpty(formats: seq<VideoFormat>)
    ensures Menu(formats) == [] <==> NothingDownloadable(formats)
  {
    CombinedMembers(formats);
    VideoOnlyMembers(formats);
    AudioMembers(formats);
  }
}
