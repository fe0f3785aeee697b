/** The splitter's pure logic: how many equal-duration segments a video is
    cut into so that each stays under the upload size, how the segment files
    are named, and which directory entries count as videos. Arithmetic is on
    mathematical reals; the Python code computes in IEEE doubles. */
module VideoSplitter {
  import opened Strings
  import opened Paths
  import opened Lists

  /** The extensions `get_video_files` accepts, compared against the lower-cased suffix. */
  const VideoExtensions: seq<string> := [".mp4", ".mkv", ".avi", ".mov", ".flv", ".wmv"]

  /** The default `target_size_mb` of `calculate_segments`. */
  const DefaultTargetSizeMb: real := 9.9

  /** The text put between the stem and the part index of every segment file. */
  const PartMarker: string := "_part_"

  // ---------------------------------------------------------------------------
  // Segment sizing

  /** `math.ceil`: the least integer not below `x`. */
  function Ceil(x: real): (n: int)
    ensures (n - 1) as real < x <= n as real
  {
    if x.Floor as real == x then x.Floor else x.Floor + 1
  }

  /** A whole number of segments and the duration, in seconds, of each. */
  datatype SegmentPlan = SegmentPlan(numSegments: int, segmentDuration: real)

  /** The outcome of `calculate_segments`: a plan, or the `ZeroDivisionError`
      Python raises when either of its two divisions has a zero divisor. */
  datatype PlanResult = Planned(plan: SegmentPlan) | ZeroDivisionError

  /** Estimated size of the whole file: bits per second times seconds, in bytes. */
  function FileSizeBytes(duration: real, bitrate: real): real {
    bitrate * duration / 8.0
  }

  /** The target size in bytes: `target_size_mb` mebibytes. */
  function TargetBytes(targetSizeMb: real): real {
    targetSizeMb * 1024.0 * 1024.0
  }

  /** `n` is the least whole number of `target`-sized pieces covering `size`. */
  lemma CeilBounds(size: real, target: real, n: int)
    requires target > 0.0
    requires (n - 1) as real < size / target <= n as real
    ensures (n - 1) as real * target < size <= n as real * target
  {
    var q := size / target;
    assert size == q * target;
    assert (n - 1) as real * target < q * target;
    assert q * target <= n as real * target;
  }

  /** Scaling by a positive factor keeps the order of two reals. */
  lemma ScaleOrder(a: real, b: real, t: real)
    requires t > 0.0
    ensures a < b <==> a * t < b * t
  {
  }

  /** What the rounded-up quotient says about the dividend, for either sign of the divisor. */
  lemma CeilOfQuotient(size: real, target: real, n: int)
    requires target != 0.0
    requires (n - 1) as real < size / target <= n as real
    ensures target > 0.0 ==> (n - 1) as real * target < size <= n as real * target
    ensures n == 0 <==>
      (target > 0.0 && -target < size <= 0.0) || (target < 0.0 && 0.0 <= size < -target)
  {
    var t := if target > 0.0 then target else -target;
    var s := if target > 0.0 then size else -size;
    assert s / t == size / target;
    CeilBounds(s, t, n);
    if -t < s <= 0.0 {
      CoveringPiecesOfNothing((n - 1) as real, n as real, s, t);
    }
    if n == 0 {
      assert (n - 1) as real == -1.0 && n as real == 0.0;
    }
    assert n == 0 <==> -t < s <= 0.0;
    if target > 0.0 {
      assert t == target && s == size;
    } else {
      assert t == -target && s == -size;
    }
  }

  /** When `s` lies in `(lo * t, hi * t]` and also in `(-t, 0]`, then
      `-1 < hi` and `lo < 0`. */
  lemma CoveringPiecesOfNothing(lo: real, hi: real, s: real, t: real)
    requires t > 0.0 && -t < s <= 0.0
    requires lo * t < s <= hi * t
    ensures -1.0 < hi && lo < 0.0
  {
    ScaleOrder(-1.0, hi, t);
    ScaleOrder(lo, 0.0, t);
  }

  /** `calculate_segments(duration, bitrate, target_size_mb)`. */
  function CalculateSegments(duration: real, bitrate: real, targetSizeMb: real): (r: PlanResult)
    ensures
      var size, target := FileSizeBytes(duration, bitrate), TargetBytes(targetSizeMb);
      r.ZeroDivisionError? <==>
        target == 0.0 ||
        (target > 0.0 && -target < size <= 0.0) ||
        (target < 0.0 && 0.0 <= size < -target)
    ensures r.Planned? ==>
      r.plan.numSegments != 0 &&
      r.plan.numSegments as real * r.plan.segmentDuration == duration
    ensures
      var size, target := FileSizeBytes(duration, bitrate), TargetBytes(targetSizeMb);
      r.Planned? && target > 0.0 ==>
        (r.plan.numSegments - 1) as real * target < size <= r.plan.numSegments as real * target
  {
    var size := FileSizeBytes(duration, bitrate);
    var target := TargetBytes(targetSizeMb);
    if target == 0.0 then ZeroDivisionError
    else
      var n := Ceil(size / target);
      CeilOfQuotient(size, target, n);
      if n == 0 then ZeroDivisionError
      else Planned(SegmentPlan(n, duration / n as real))
  }

  /** A video with a positive estimated size is split into at least one
      segment. (How many exactly is the count bound of `CalculateSegments`.) */
  lemma PositiveSizeIsPlanned(duration: real, bitrate: real, targetSizeMb: real)
    requires bitrate * duration > 0.0 && targetSizeMb > 0.0
    ensures
      var r := CalculateSegments(duration, bitrate, targetSizeMb);
      r.Planned? && r.plan.numSegments >= 1
  {
    var r := CalculateSegments(duration, bitrate, targetSizeMb);
    var target := TargetBytes(targetSizeMb);
    assert FileSizeBytes(duration, bitrate) > 0.0;
    assert target > 0.0;
    ScaleOrder(0.0, r.plan.numSegments as real, target);
  }

  /** A video already within the target is one segment spanning the whole duration. */
  lemma SmallVideoIsOneSegment(duration: real, bitrate: real, targetSizeMb: real)
    requires targetSizeMb > 0.0
    requires 0.0 < FileSizeBytes(duration, bitrate) <= TargetBytes(targetSizeMb)
    ensures CalculateSegments(duration, bitrate, targetSizeMb) == Planned(SegmentPlan(1, duration))
  {
    var r := CalculateSegments(duration, bitrate, targetSizeMb);
    var target := TargetBytes(targetSizeMb);
    assert r.Planned?;
    var n := r.plan.numSegments;
    var size := FileSizeBytes(duration, bitrate);
    assert (n - 1) as real * target < size <= n as real * target;
    PiecesCoveringAtMostOne((n - 1) as real, n as real, size, target);
    assert r.plan.segmentDuration * 1.0 == duration;
  }

  /** When `size` lies in `(lo * target, hi * target]` and also in `(0, target]`,
      then `lo < 1` and `hi > 0`. */
  lemma PiecesCoveringAtMostOne(lo: real, hi: real, size: real, target: real)
    requires target > 0.0 && 0.0 < size <= target
    requires lo * target < size <= hi * target
    ensures lo < 1.0 && hi > 0.0
  {
    ScaleOrder(lo, 1.0, target);
    ScaleOrder(0.0, hi, target);
  }

  /** With no bitrate or no duration the estimate is 0 bytes, `math.ceil`
      gives 0 segments and the division by the segment count fails. */
  lemma NothingToSplitFails(duration: real, bitrate: real, targetSizeMb: real)
    requires bitrate == 0.0 || duration == 0.0
    ensures CalculateSegments(duration, bitrate, targetSizeMb) == ZeroDivisionError
  {
  }

  /** 600 s at 8,000,000 bit/s is 600,000,000 bytes; at 9.9 MiB
      (10,380,902.4 bytes) per segment that is 57.8 targets, so 58 segments. */
  lemma TenMinuteExample()
    ensures CalculateSegments(600.0, 8000000.0, DefaultTargetSizeMb) ==
      Planned(SegmentPlan(58, 600.0 / 58.0))
  {
    var target := TargetBytes(DefaultTargetSizeMb);
    assert FileSizeBytes(600.0, 8000000.0) == 600000000.0;
    assert target == 10380902.4;
    var r := CalculateSegments(600.0, 8000000.0, DefaultTargetSizeMb);
    assert r.Planned?;
    var n := r.plan.numSegments;
    assert 57.0 * target < 600000000.0 <= 58.0 * target;
    ScaleOrder(57.0, n as real, target);
    ScaleOrder((n - 1) as real, 58.0, target);
  }

  // ---------------------------------------------------------------------------
  // Part naming

  /** The name of part `i`: the output pattern `{stem}_part_%03d{suffix}`
      with the muxer's segment number put in for `%03d`. */
  function PartName(name: string, i: nat): string {
    Stem(name) + PartMarker + Pad3(i) + Suffix(name)
  }

  /** Below 1000 the index field is exactly three decimal digits. */
  lemma PartIndexIsThreeDigits(name: string, i: nat)
    requires i < 1000
    ensures PartName(name, i) == Stem(name) + PartMarker + Pad3(i) + Suffix(name)
    ensures |Pad3(i)| == 3 && IsDigit(Pad3(i)[0]) && IsDigit(Pad3(i)[1]) && IsDigit(Pad3(i)[2])
  {
    Pad3Small(i);
  }

  /** Below 1000, part names sort (as Python sorts `str`) in index order. */
  lemma PartNamesSortByIndex(name: string, i: nat, j: nat)
    requires i < 1000 && j < 1000
    ensures LessEq(PartName(name, i), PartName(name, j)) <==> i <= j
    ensures PartName(name, i) == PartName(name, j) <==> i == j
  {
    FieldOrder(Stem(name) + PartMarker, i, j, Suffix(name));
  }

  /** From the 1001st part on the padding no longer keeps the order:
      part 1000 sorts before part 999. */
  lemma PartThousandSortsBeforeNineHundredNinetyNine(name: string)
    ensures LessEq(PartName(name, 1000), PartName(name, 999))
    ensures PartName(name, 1000) != PartName(name, 999)
    ensures !LessEq(PartName(name, 999), PartName(name, 1000))
  {
    var prefix := Stem(name) + PartMarker;
    var a, b := Pad3(1000) + Suffix(name), Pad3(999) + Suffix(name);
    Pad3ThousandBeforeNineHundredNinetyNine(Suffix(name));
    assert PartName(name, 1000) == prefix + a && PartName(name, 999) == prefix + b;
    LessEqCommonPrefix(prefix, a, b);
    LessEqCommonPrefix(prefix, b, a);
  }

  /** The name of a part keeps the video's suffix, and its stem is the
      video's stem, the marker and the index field. */
  lemma PartNameSplits(name: string, i: nat)
    requires Suffix(name) != ""
    ensures Suffix(PartName(name, i)) == Suffix(name)
    ensures Stem(PartName(name, i)) == Stem(name) + PartMarker + Pad3(i)
  {
    JoinSplits(Stem(name) + PartMarker + Pad3(i), Suffix(name));
  }

  // ---------------------------------------------------------------------------
  // Selecting the videos of a directory

  /** The entry's lower-cased suffix is one of the video extensions. */
  predicate IsVideo(name: string) {
    ToLower(Suffix(name)) in VideoExtensions
  }

  /** `get_video_files`: the directory listing, in listing order, keeping
      only the videos. */
  function VideoFiles(entries: seq<string>): (r: seq<string>)
    ensures forall f :: f in r <==> f in entries && IsVideo(f)
    ensures forall f :: multiset(r)[f] == if IsVideo(f) then multiset(entries)[f] else 0
  {
    FilterSelects(entries, IsVideo);
    Filter(entries, IsVideo)
  }

  /** Filtering a listing in two pieces gives the two filtered pieces in
      order: the filter never reorders entries. */
  lemma VideoFilesKeepsOrder(a: seq<string>, b: seq<string>)
    ensures VideoFiles(a + b) == VideoFiles(a) + VideoFiles(b)
  {
    FilterAppend(a, b, IsVideo);
  }

  /** Every video has a suffix: a name without one is never selected. */
  lemma VideoHasSuffix(name: string)
    requires IsVideo(name)
    ensures Suffix(name) != ""
  {
    assert forall e :: e in VideoExtensions ==> e != "";
  }

  /** The comparison ignores case: upper-case and mixed-case extensions are
      selected like lower-case ones, and only the six video extensions are. */
  lemma VideoSuffixIgnoresCase(stem: string, ext: string)
    requires stem != [] && |ext| >= 1 && forall k :: 0 <= k < |ext| ==> ext[k] != '.'
    ensures IsVideo(stem + ("." + ext)) <==> ToLower("." + ext) in VideoExtensions
    ensures IsVideo(stem + ("." + ext)) <==> IsVideo(stem + ToLower("." + ext))
  {
    var suffix := "." + ext;
    var lower := ToLower(suffix);
    JoinSplits(stem, suffix);
    assert lower[0] == '.';
    assert forall k :: 1 <= k < |lower| ==> lower[k] == LowerChar(ext[k - 1]);
    JoinSplits(stem, lower);
    ToLowerIdempotent(suffix);
  }

  /** `".MP4".lower()` is `".mp4"`. */
  lemma LowerMp4()
    ensures ToLower(".MP4") == VideoExtensions[0]
  {
    var r := ToLower(".MP4");
    assert r[0] == '.' && r[1] == 'm' && r[2] == 'p' && r[3] == '4';
  }

  /** An upper-case extension is selected: `clip.MP4` counts as a video. */
  lemma UpperCaseExtensionIsVideo(stem: string)
    requires stem != []
    ensures IsVideo(stem + ".MP4")
  {
    JoinSplits(stem, ".MP4");
    LowerMp4();
  }
}
