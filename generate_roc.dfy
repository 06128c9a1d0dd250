/**
 * The frame-level alignment in generate_ROC.py that feeds `roc_curve`: for each test video,
 * a 0/1 ground-truth vector built from its annotated `(start, end)` couples and a score
 * vector that spreads the network's 32 segment scores back over the frames; then both are
 * appended to the running `y_trues` / `y_preds`.
 */
module GenerateRoc {
  import opened Results
  import opened Segments

  // ---------------------------------------------------------------------------
  // Python slice bounds

  /** The index a Python slice bound `i` selects in a sequence of length `n`: a negative
      bound counts from the end, and the result is clamped to `0..n`. */
  function SliceIndex(i: int, n: nat): (j: nat)
    ensures j <= n
    ensures 0 <= i <= n ==> j == i
    ensures i > n ==> j == n
    ensures i < 0 ==> j == (if n + i < 0 then 0 else n + i)
  {
    if i < 0 then (if n + i < 0 then 0 else n + i)
    else if i > n then n
    else i
  }

  // ---------------------------------------------------------------------------
  // Ground-truth labels

  /** One annotated anomalous interval; a start of `-1` marks an absent interval. */
  type Couple = (int, int)

  /** `y_true[couple[0]:couple[1]] = 1` sets frame `f` (for a couple that is not absent). */
  predicate Covers(couple: Couple, vidLen: nat, f: nat) {
    couple.0 != -1 && SliceIndex(couple.0, vidLen) <= f < SliceIndex(couple.1, vidLen)
  }

  /** Frame `f` lies in some annotated interval. */
  predicate Anomalous(couples: seq<Couple>, vidLen: nat, f: nat) {
    exists c :: c in couples && Covers(c, vidLen, f)
  }

  /** The label vector a video's couples describe: 1 on anomalous frames, 0 elsewhere. */
  function LabelVector(couples: seq<Couple>, vidLen: nat): (y: seq<real>)
    ensures |y| == vidLen
  {
    seq(vidLen, f requires 0 <= f < vidLen => if Anomalous(couples, vidLen, f) then 1.0 else 0.0)
  }

  lemma AnomalousSnoc(couples: seq<Couple>, c: Couple, vidLen: nat, f: nat)
    ensures Anomalous(couples + [c], vidLen, f) <==> Anomalous(couples, vidLen, f) || Covers(c, vidLen, f)
  {
    if Anomalous(couples + [c], vidLen, f) {
      var x :| x in couples + [c] && Covers(x, vidLen, f);
      assert x in couples || x == c;
    }
    if Anomalous(couples, vidLen, f) {
      var x :| x in couples && Covers(x, vidLen, f);
      assert x in couples + [c];
    }
    if Covers(c, vidLen, f) {
      assert c in couples + [c];
    }
  }

  /** Lines 75-79: zero-fill `vid_len` frames, then set each present couple's slice to 1. */
  method ExpandLabels(couples: seq<Couple>, vidLen: nat) returns (y: seq<real>)
    ensures y == LabelVector(couples, vidLen)
  {
    var a := new real[vidLen](_ => 0.0);
    for k := 0 to |couples|
      invariant forall f :: 0 <= f < vidLen ==>
        a[f] == if Anomalous(couples[..k], vidLen, f) then 1.0 else 0.0
    {
      assert couples[..k + 1] == couples[..k] + [couples[k]];
      forall f | 0 <= f < vidLen {
        AnomalousSnoc(couples[..k], couples[k], vidLen, f);
      }
      var couple := couples[k];
      if couple.0 != -1 {
        var lo := SliceIndex(couple.0, vidLen);
        var hi := SliceIndex(couple.1, vidLen);
        forall f | lo <= f < hi {
          a[f] := 1.0;
        }
      }
    }
    assert couples[..|couples|] == couples;
    y := a[..];
  }

  /** Every label is 0 or 1, and it is 1 exactly on the frames some present couple covers. */
  lemma LabelsAreBinary(couples: seq<Couple>, vidLen: nat, f: nat)
    requires f < vidLen
    ensures LabelVector(couples, vidLen)[f] == 0.0 || LabelVector(couples, vidLen)[f] == 1.0
    ensures LabelVector(couples, vidLen)[f] == 1.0 <==>
      exists c :: c in couples && c.0 != -1 && SliceIndex(c.0, vidLen) <= f < SliceIndex(c.1, vidLen)
  {
  }

  /** Labels depend only on which couples occur: not on their order, repetition or overlap. */
  lemma LabelsIgnoreOrder(a: seq<Couple>, b: seq<Couple>, vidLen: nat)
    requires forall c :: c in a <==> c in b
    ensures LabelVector(a, vidLen) == LabelVector(b, vidLen)
  {
  }

  /** The labels of two lists of couples together are the pointwise maximum (union). */
  lemma {:induction false} LabelsUnion(a: seq<Couple>, b: seq<Couple>, vidLen: nat, f: nat)
    requires f < vidLen
    ensures LabelVector(a + b, vidLen)[f] ==
      if LabelVector(a, vidLen)[f] == 1.0 || LabelVector(b, vidLen)[f] == 1.0 then 1.0 else 0.0
  {
    if Anomalous(a + b, vidLen, f) {
      var x :| x in a + b && Covers(x, vidLen, f);
      assert x in a || x in b;
    }
    if Anomalous(a, vidLen, f) {
      var x :| x in a && Covers(x, vidLen, f);
      assert x in a + b;
    }
    if Anomalous(b, vidLen, f) {
      var x :| x in b && Covers(x, vidLen, f);
      assert x in a + b;
    }
  }

  /** A couple whose start is `-1` changes nothing, wherever it appears. */
  lemma {:induction false} AbsentCoupleIgnored(a: seq<Couple>, b: seq<Couple>, end: int, vidLen: nat)
    ensures LabelVector(a + [(-1, end)] + b, vidLen) == LabelVector(a + b, vidLen)
  {
    forall f | 0 <= f < vidLen
      ensures Anomalous(a + [(-1, end)] + b, vidLen, f) <==> Anomalous(a + b, vidLen, f)
    {
      if Anomalous(a + [(-1, end)] + b, vidLen, f) {
        var x :| x in a + [(-1, end)] + b && Covers(x, vidLen, f);
        assert x in a || x in b;
        assert x in a + b;
      }
      if Anomalous(a + b, vidLen, f) {
        var x :| x in a + b && Covers(x, vidLen, f);
        assert x in a + [(-1, end)] + b;
      }
    }
  }

  // ---------------------------------------------------------------------------
  // Frame scores

  /** `segments_len = vid_len // 32`: whole frames per segment. */
  function SegmentLength(vidLen: nat): (m: nat)
    ensures SegmentCount * m <= vidLen < SegmentCount * m + SegmentCount
  {
    vidLen / SegmentCount
  }

  lemma {:induction false} MulMonotone(a: nat, b: nat, m: nat)
    requires a <= b
    ensures a * m <= b * m
    decreases b - a
  {
    if a < b {
      MulMonotone(a, b - 1, m);
      assert b * m == (b - 1) * m + m;
    }
  }

  lemma MulStrict(a: nat, b: nat, m: nat)
    ensures a < b ==> a * m + m <= b * m
  {
    if a < b {
      MulMonotone(a + 1, b, m);
      assert (a + 1) * m == a * m + m;
    }
  }

  /** A frame `f` in `[i*m, (i+1)*m)` belongs to segment `f / m == i`. */
  lemma FrameSegment(f: nat, i: nat, m: nat)
    requires m > 0 && i * m <= f < i * m + m
    ensures f / m == i
  {
    var q := f / m;
    MulStrict(q, i, m);
    MulStrict(i, q, m);
    assert f == q * m + f % m;
  }

  /** The score of frame `f`: its segment's score on the first `32 * segments_len` frames,
      0 on the `vid_len % 32` frames after them. */
  function ScoreAt(output: seq<real>, vidLen: nat, f: nat): (r: real)
    requires |output| == SegmentCount
    ensures r == 0.0 || exists i :: 0 <= i < SegmentCount && r == output[i]
  {
    var m := SegmentLength(vidLen);
    if f < SegmentCount * m then
      assert f / m < SegmentCount by {
        assert f == (f / m) * m + f % m;
        if f / m >= SegmentCount {
          MulMonotone(SegmentCount, f / m, m);
        }
      }
      output[f / m]
    else 0.0
  }

  /** The score vector of a video. */
  function ScoreVector(output: seq<real>, vidLen: nat): (y: seq<real>)
    requires |output| == SegmentCount
    ensures |y| == vidLen
  {
    seq(vidLen, f requires 0 <= f < vidLen => ScoreAt(output, vidLen, f))
  }

  /** Lines 80-84: zero-fill `vid_len` frames, then fill segment `i`'s frames
      `[i*segments_len, (i+1)*segments_len)` with `output[i]` for each of the 32 segments. */
  method ExpandScores(output: seq<real>, vidLen: nat) returns (y: seq<real>)
    requires |output| == SegmentCount
    ensures y == ScoreVector(output, vidLen)
  {
    var a := new real[vidLen](_ => 0.0);
    var m := SegmentLength(vidLen);
    for i := 0 to SegmentCount
      invariant forall f :: 0 <= f < vidLen ==>
        a[f] == if f < i * m then ScoreAt(output, vidLen, f) else 0.0
    {
      var lo := i * m;
      var hi := (i + 1) * m;
      assert hi == lo + m;
      MulMonotone(i + 1, SegmentCount, m);
      forall f | lo <= f < hi {
        a[f] := output[i];
      }
      forall f | lo <= f < hi
        ensures ScoreAt(output, vidLen, f) == output[i]
      {
        FrameSegment(f, i, m);
      }
    }
    y := a[..];
  }

  /** Every frame of segment `i` scores `output[i]`. */
  lemma SegmentFramesScore(output: seq<real>, vidLen: nat, i: nat, f: nat)
    requires |output| == SegmentCount && i < SegmentCount
    requires i * SegmentLength(vidLen) <= f < (i + 1) * SegmentLength(vidLen)
    ensures f < vidLen && ScoreVector(output, vidLen)[f] == output[i]
  {
    var m := SegmentLength(vidLen);
    assert (i + 1) * m == i * m + m;
    MulMonotone(i + 1, SegmentCount, m);
    FrameSegment(f, i, m);
  }

  /** The trailing `vid_len % 32` frames score 0. */
  lemma TrailingFramesScoreZero(output: seq<real>, vidLen: nat, f: nat)
    requires |output| == SegmentCount
    requires SegmentCount * SegmentLength(vidLen) <= f < vidLen
    ensures ScoreVector(output, vidLen)[f] == 0.0
  {
  }

  /** A video of fewer than 32 frames has segments of length 0 and scores 0 everywhere. */
  lemma ShortVideoScoresZero(output: seq<real>, vidLen: nat)
    requires |output| == SegmentCount && vidLen < SegmentCount
    ensures ScoreVector(output, vidLen) == seq(vidLen, _ => 0.0)
  {
  }

  // ---------------------------------------------------------------------------
  // Accumulating over videos

  /** What the loop at line 74 sees of one video: its frame count, its couples and the
      network's 32 segment scores. */
  datatype Video = Video(vidLen: nat, couples: seq<Couple>, output: seq<real>)

  predicate Scored(videos: seq<Video>) {
    forall k :: 0 <= k < |videos| ==> |videos[k].output| == SegmentCount
  }

  /** All videos' label vectors, concatenated in order. */
  function AllLabels(videos: seq<Video>): seq<real> {
    if videos == [] then []
    else AllLabels(videos[..|videos| - 1]) + LabelVector(videos[|videos| - 1].couples, videos[|videos| - 1].vidLen)
  }

  /** All videos' score vectors, concatenated in order. */
  function AllScores(videos: seq<Video>): seq<real>
    requires Scored(videos)
  {
    if videos == [] then []
    else AllScores(videos[..|videos| - 1]) + ScoreVector(videos[|videos| - 1].output, videos[|videos| - 1].vidLen)
  }

  /** The frames of all videos together. */
  function TotalFrames(videos: seq<Video>): nat {
    if videos == [] then 0 else TotalFrames(videos[..|videos| - 1]) + videos[|videos| - 1].vidLen
  }

  /** Lines 74-91: expand each video and append its vectors to `y_trues` / `y_preds`, which
      stay `None` until the first video. */
  method Accumulate(videos: seq<Video>) returns (yTrues: Option<seq<real>>, yPreds: Option<seq<real>>)
    requires Scored(videos)
    ensures yTrues.None? <==> videos == []
    ensures yPreds.None? <==> videos == []
    ensures videos != [] ==> yTrues.value == AllLabels(videos) && yPreds.value == AllScores(videos)
  {
    yTrues := None;
    yPreds := None;
    for k := 0 to |videos|
      invariant yTrues.None? <==> k == 0
      invariant yPreds.None? <==> k == 0
      invariant k > 0 ==> yTrues.value == AllLabels(videos[..k]) && yPreds.value == AllScores(videos[..k])
    {
      var v := videos[k];
      var yTrue := ExpandLabels(v.couples, v.vidLen);
      var yPred := ExpandScores(v.output, v.vidLen);
      assert videos[..k + 1][..k] == videos[..k];
      if yTrues.None? {
        assert AllLabels(videos[..1]) == AllLabels([]) + yTrue;
        assert AllScores(videos[..1]) == AllScores([]) + yPred;
        yTrues := Some(yTrue);
        yPreds := Some(yPred);
      } else {
        yTrues := Some(yTrues.value + yTrue);
        yPreds := Some(yPreds.value + yPred);
      }
    }
    assert videos[..|videos|] == videos;
  }

  /** Both totals cover every frame of every video once, so they stay the same length. */
  lemma {:induction false} TotalsAligned(videos: seq<Video>)
    requires Scored(videos)
    ensures |AllLabels(videos)| == TotalFrames(videos) == |AllScores(videos)|
    decreases |videos|
  {
    if videos != [] {
      TotalsAligned(videos[..|videos| - 1]);
    }
  }

  /** Processing more videos only appends: the totals for a prefix of the videos are a
      prefix of the totals for all of them. */
  lemma {:induction false} TotalsExtend(videos: seq<Video>, k: nat)
    requires Scored(videos) && k <= |videos|
    ensures AllLabels(videos[..k]) <= AllLabels(videos)
    ensures AllScores(videos[..k]) <= AllScores(videos)
    decreases |videos| - k
  {
    if k < |videos| {
      var init := videos[..|videos| - 1];
      assert videos[..|videos|] == videos;
      assert init[..k] == videos[..k];
      TotalsExtend(init, k);
    } else {
      assert videos[..k] == videos;
    }
  }

  /** Frame `f` of video `k` sits at the same index `TotalFrames(videos[..k]) + f` of both
      totals, holding that video's label and score for the frame. */
  lemma {:induction false} FrameAligned(videos: seq<Video>, k: nat, f: nat)
    requires Scored(videos) && k < |videos| && f < videos[k].vidLen
    ensures TotalFrames(videos[..k]) + f < |AllLabels(videos)| == |AllScores(videos)|
    ensures AllLabels(videos)[TotalFrames(videos[..k]) + f] == LabelVector(videos[k].couples, videos[k].vidLen)[f]
    ensures AllScores(videos)[TotalFrames(videos[..k]) + f] == ScoreVector(videos[k].output, videos[k].vidLen)[f]
  {
    var pre := videos[..k + 1];
    assert pre[..k] == videos[..k];
    assert Scored(pre);
    TotalsAligned(videos[..k]);
    TotalsExtend(videos, k + 1);
    TotalsAligned(videos);
    assert pre[..|pre| - 1] == videos[..k];
  }
}
