/** The arithmetic of the video export: the total duration, the progress
    percentages the render loop reports, the Ken Burns crop window of each
    frame, and the name and type of the downloaded file. */
module Export {
  import opened Pcm

  // ----- total duration and reported progress -----

  /** `buffer.duration` of each decoded scene: positive, since every
      decoded buffer holds at least one frame at a positive rate. */
  function Durations(buffers: seq<AudioBuffer>): (ds: seq<real>)
    requires forall i :: 0 <= i < |buffers| ==> buffers[i].sampleRate > 0 && buffers[i].length > 0
    ensures |ds| == |buffers| && AllPositive(ds)
    ensures forall i :: 0 <= i < |ds| ==> ds[i] == buffers[i].length as real / buffers[i].sampleRate as real
  {
    seq(|buffers|, i requires 0 <= i < |buffers| => buffers[i].Duration())
  }

  /** `buffers.reduce((acc, buf) => acc + buf.duration, 0)`. */
  function Sum(ds: seq<real>): real {
    if ds == [] then 0.0 else Sum(ds[..|ds| - 1]) + ds[|ds| - 1]
  }

  /** The same sum taken from the front. */
  function SumFrom(ds: seq<real>): real {
    if ds == [] then 0.0 else ds[0] + SumFrom(ds[1..])
  }

  predicate AllPositive(ds: seq<real>) {
    forall i :: 0 <= i < |ds| ==> ds[i] > 0.0
  }

  /** The clock readings of the frames of one scene, relative to its start:
      never negative, never decreasing. */
  predicate FrameTimes(es: seq<real>) {
    (forall j :: 0 <= j < |es| ==> es[j] >= 0.0)
    && (forall j, k :: 0 <= j < k < |es| ==> es[j] <= es[k])
  }

  predicate Sorted(r: seq<real>) {
    forall j, k :: 0 <= j < k < |r| ==> r[j] <= r[k]
  }

  /** Every element of `r` lies in [lo, hi]. */
  predicate Within(r: seq<real>, lo: real, hi: real) {
    forall k :: 0 <= k < |r| ==> lo <= r[k] <= hi
  }

  /** The positions in the video, in seconds, of the frames one scene
      renders: one per frame until the first frame past the scene's
      duration, where the render loop stops. */
  function ScenePositions(accumulated: real, duration: real, es: seq<real>): seq<real> {
    if es == [] || es[0] > duration then []
    else [accumulated + es[0]] + ScenePositions(accumulated, duration, es[1..])
  }

  /** The positions of the frames of scenes `ds` (with frame times `fs`),
      the first scene starting `accumulated` seconds into the video. */
  function PositionsFrom(ds: seq<real>, fs: seq<seq<real>>, accumulated: real): seq<real>
    requires |fs| == |ds|
  {
    if ds == [] then []
    else ScenePositions(accumulated, ds[0], fs[0]) + PositionsFrom(ds[1..], fs[1..], accumulated + ds[0])
  }

  /** `(position / totalDuration) * 100`. */
  function Percent(position: real, total: real): real
    requires total > 0.0
  {
    position / total * 100.0
  }

  function Percents(ps: seq<real>, total: real): (r: seq<real>)
    requires total > 0.0
    ensures |r| == |ps| && forall k :: 0 <= k < |ps| ==> r[k] == Percent(ps[k], total)
  {
    seq(|ps|, k requires 0 <= k < |ps| => Percent(ps[k], total))
  }

  /** Every percentage the export reports, in order. */
  function Reports(ds: seq<real>, fs: seq<seq<real>>): seq<real>
    requires |fs| == |ds| && AllPositive(ds)
  {
    if ds == [] then [] else
      SumPositive(ds);
      Percents(PositionsFrom(ds, fs, 0.0), Sum(ds))
  }

  lemma {:induction false} SumPositive(ds: seq<real>)
    requires AllPositive(ds)
    ensures Sum(ds) >= 0.0 && (ds != [] ==> Sum(ds) > 0.0)
    decreases |ds|
  {
    if ds != [] {
      SumPositive(ds[..|ds| - 1]);
    }
  }

  lemma SumAppend(ds: seq<real>, i: nat)
    requires i < |ds|
    ensures Sum(ds[..i + 1]) == Sum(ds[..i]) + ds[i]
  {
    assert ds[..i + 1][..i] == ds[..i];
  }

  lemma PercentsAppend(a: seq<real>, b: seq<real>, total: real)
    requires total > 0.0
    ensures Percents(a + b, total) == Percents(a, total) + Percents(b, total)
  {
  }

  lemma ScenePositionsStep(accumulated: real, duration: real, es: seq<real>, j: nat)
    requires j < |es|
    ensures es[j] > duration ==> ScenePositions(accumulated, duration, es[j..]) == []
    ensures es[j] <= duration ==>
      ScenePositions(accumulated, duration, es[j..]) == [accumulated + es[j]] + ScenePositions(accumulated, duration, es[j + 1..])
  {
    assert es[j..][1..] == es[j + 1..];
  }

  /** The render loop of one scene: from the scene's start, each frame
      reports `(accumulated + elapsed) / total * 100` until a frame falls
      past the scene's duration. The frame times are the clock readings the
      loop would see. */
  method RenderScene(accumulatedTime: real, totalDuration: real, duration: real, es: seq<real>)
    returns (reports: seq<real>)
    requires totalDuration > 0.0
    ensures reports == Percents(ScenePositions(accumulatedTime, duration, es), totalDuration)
  {
    reports := [];
    ghost var positions: seq<real> := [];
    var j := 0;
    while j < |es|
      invariant 0 <= j <= |es|
      invariant reports == Percents(positions, totalDuration)
      invariant positions + ScenePositions(accumulatedTime, duration, es[j..])
                == ScenePositions(accumulatedTime, duration, es)
    {
      var elapsed := es[j];
      ScenePositionsStep(accumulatedTime, duration, es, j);
      if elapsed > duration {
        return;
      }
      PercentsAppend(positions, [accumulatedTime + elapsed], totalDuration);
      reports := reports + [(accumulatedTime + elapsed) / totalDuration * 100.0];
      positions := positions + [accumulatedTime + elapsed];
      j := j + 1;
    }
    assert es[j..] == [];
  }

  /** The reports from scene `i` on are those of scene `i` followed by
      those of the scenes after it. */
  lemma ReportsStep(ds: seq<real>, fs: seq<seq<real>>, i: nat, accumulated: real, total: real)
    requires |fs| == |ds| && i < |ds| && total > 0.0
    ensures Percents(PositionsFrom(ds[i..], fs[i..], accumulated), total)
      == Percents(ScenePositions(accumulated, ds[i], fs[i]), total)
         + Percents(PositionsFrom(ds[i + 1..], fs[i + 1..], accumulated + ds[i]), total)
  {
    assert ds[i..][1..] == ds[i + 1..] && fs[i..][1..] == fs[i + 1..];
    PercentsAppend(ScenePositions(accumulated, ds[i], fs[i]), PositionsFrom(ds[i + 1..], fs[i + 1..], accumulated + ds[i]), total);
  }

  /** One turn of the scene loop keeps its invariant. */
  lemma ExportStep(ds: seq<real>, fs: seq<seq<real>>, i: nat, accumulated: real, total: real,
                   reports: seq<real>, sceneReports: seq<real>)
    requires |fs| == |ds| && i < |ds| && AllPositive(ds) && ds != [] && total == Sum(ds) && total > 0.0
    requires accumulated == Sum(ds[..i])
    requires reports + Percents(PositionsFrom(ds[i..], fs[i..], accumulated), total) == Reports(ds, fs)
    requires sceneReports == Percents(ScenePositions(accumulated, ds[i], fs[i]), total)
    ensures accumulated + ds[i] == Sum(ds[..i + 1])
    ensures (reports + sceneReports) + Percents(PositionsFrom(ds[i + 1..], fs[i + 1..], accumulated + ds[i]), total)
      == Reports(ds, fs)
  {
    ReportsStep(ds, fs, i, accumulated, total);
    SumAppend(ds, i);
  }

  /** The scene loop of `handleDownloadVideo`: render each scene, then add
      its duration to the accumulated time. */
  method ExportProgress(durations: seq<real>, frames: seq<seq<real>>) returns (reports: seq<real>)
    requires |frames| == |durations| && AllPositive(durations)
    ensures reports == Reports(durations, frames)
  {
    reports := [];
    if durations == [] {
      return;
    }
    var accumulatedTime := 0.0;
    SumPositive(durations);
    var totalDuration := Sum(durations);
    assert durations[0..] == durations && frames[0..] == frames;
    for i := 0 to |durations|
      invariant accumulatedTime == Sum(durations[..i])
      invariant reports + Percents(PositionsFrom(durations[i..], frames[i..], accumulatedTime), totalDuration)
                == Reports(durations, frames)
    {
      var sceneReports := RenderScene(accumulatedTime, totalDuration, durations[i], frames[i]);
      ExportStep(durations, frames, i, accumulatedTime, totalDuration, reports, sceneReports);
      reports := reports + sceneReports;
      accumulatedTime := accumulatedTime + durations[i];
    }
    assert durations[|durations|..] == [];
  }

  // ----- properties of the reports -----

  /** The frames of one scene sit, in order, between the scene's start and
      end in the video. */
  lemma {:induction false} ScenePositionsBounds(accumulated: real, duration: real, es: seq<real>)
    requires FrameTimes(es)
    ensures var r := ScenePositions(accumulated, duration, es);
      Within(r, accumulated, accumulated + duration) && Sorted(r)
      && (r != [] ==> r[0] == accumulated + es[0])
    decreases |es|
  {
    if es != [] && es[0] <= duration {
      ScenePositionsBounds(accumulated, duration, es[1..]);
    }
  }

  /** Two sorted runs, the first ending no later than the second begins,
      join into one sorted run. */
  lemma JoinSorted(a: seq<real>, b: seq<real>, lo: real, mid: real, hi: real)
    requires lo <= mid <= hi
    requires Sorted(a) && Within(a, lo, mid)
    requires Sorted(b) && Within(b, mid, hi)
    ensures Sorted(a + b) && Within(a + b, lo, hi)
  {
    forall j, k | 0 <= j < k < |a + b|
      ensures (a + b)[j] <= (a + b)[k]
    {
      if j < |a| <= k {
        assert (a + b)[j] == a[j] && (a + b)[k] == b[k - |a|];
      }
    }
  }

  /** The frames of scenes `ds` sit, in order, between `accumulated` and
      `accumulated` plus the scenes' total duration. */
  lemma {:induction false} PositionsFromBounds(ds: seq<real>, fs: seq<seq<real>>, accumulated: real)
    requires |fs| == |ds| && AllPositive(ds)
    requires forall i :: 0 <= i < |fs| ==> FrameTimes(fs[i])
    ensures var r := PositionsFrom(ds, fs, accumulated);
      Sorted(r) && Within(r, accumulated, accumulated + SumFrom(ds))
    decreases |ds|
  {
    if ds != [] {
      ScenePositionsBounds(accumulated, ds[0], fs[0]);
      PositionsFromBounds(ds[1..], fs[1..], accumulated + ds[0]);
      SumFromPositive(ds[1..]);
      JoinSorted(ScenePositions(accumulated, ds[0], fs[0]), PositionsFrom(ds[1..], fs[1..], accumulated + ds[0]),
        accumulated, accumulated + ds[0], accumulated + SumFrom(ds));
    }
  }

  lemma {:induction false} SumFromPositive(ds: seq<real>)
    requires AllPositive(ds)
    ensures SumFrom(ds) >= 0.0
    decreases |ds|
  {
    if ds != [] {
      SumFromPositive(ds[1..]);
    }
  }

  lemma {:induction false} SumFromIsSum(ds: seq<real>)
    ensures SumFrom(ds) == Sum(ds)
    decreases |ds|
  {
    if |ds| > 1 {
      var n := |ds| - 1;
      SumFromIsSum(ds[1..]);
      SumFromIsSum(ds[..n]);
      assert ds[..n][1..] == ds[1..][..n - 1];
      SumFromIsSum(ds[1..][..n - 1]);
    } else if |ds| == 1 {
      assert ds[..0] == [] && ds[1..] == [];
    }
  }

  /** Dividing by the total and scaling by 100 keeps the order and maps
      [0, total] onto [0, 100]. */
  lemma PercentMono(p: real, q: real, total: real)
    requires total > 0.0 && p <= q
    ensures Percent(p, total) <= Percent(q, total)
  {
    assert q / total - p / total == (q - p) / total;
  }

  lemma PercentRange(p: real, total: real)
    requires total > 0.0 && 0.0 <= p <= total
    ensures 0.0 <= Percent(p, total) <= 100.0
    ensures p < total ==> Percent(p, total) < 100.0
  {
    var q := p / total;
    assert q * total == p;
    if q > 1.0 {
      assert q * total > 1.0 * total;
    }
    if p < total && q >= 1.0 {
      assert q * total >= 1.0 * total;
    }
  }

  /** The export's progress stays within [0, 100] and never goes back. */
  lemma ReportsInRangeAndSorted(ds: seq<real>, fs: seq<seq<real>>)
    requires |fs| == |ds| && AllPositive(ds)
    requires forall i :: 0 <= i < |fs| ==> FrameTimes(fs[i])
    ensures Within(Reports(ds, fs), 0.0, 100.0) && Sorted(Reports(ds, fs))
  {
    if ds != [] {
      SumPositive(ds);
      SumFromIsSum(ds);
      var total := Sum(ds);
      var ps := PositionsFrom(ds, fs, 0.0);
      PositionsFromBounds(ds, fs, 0.0);
      var r := Reports(ds, fs);
      assert r == Percents(ps, total);
      forall k | 0 <= k < |r|
        ensures 0.0 <= r[k] <= 100.0
      {
        PercentRange(ps[k], total);
      }
      forall j, k | 0 <= j < k < |r|
        ensures r[j] <= r[k]
      {
        PercentMono(ps[j], ps[k], total);
      }
    }
  }

  /** Scenes that render no frame contribute no position. */
  lemma {:induction false} NoFramesNoPositions(ds: seq<real>, fs: seq<seq<real>>, accumulated: real)
    requires |fs| == |ds| && forall i :: 0 <= i < |fs| ==> fs[i] == []
    ensures PositionsFrom(ds, fs, accumulated) == []
    decreases |ds|
  {
    if ds != [] {
      assert fs[0] == [];
      NoFramesNoPositions(ds[1..], fs[1..], accumulated + ds[0]);
    }
  }

  /** A scene that renders no frame only moves the start of the next one. */
  lemma EmptySceneSkipped(d: real, ds: seq<real>, fs: seq<seq<real>>, accumulated: real)
    requires |fs| == |ds|
    ensures PositionsFrom([d] + ds, [[]] + fs, accumulated) == PositionsFrom(ds, fs, accumulated + d)
  {
    assert ([d] + ds)[1..] == ds && ([[]] + fs)[1..] == fs;
  }

  /** Eight three-second scenes, of which only the fourth renders a frame,
      1.5 s in: that frame is 10.5 s into the 24 s video and the export
      reports 43.75 %, once. */
  lemma EightScenesExample()
    ensures var ds := [3.0, 3.0, 3.0, 3.0, 3.0, 3.0, 3.0, 3.0];
      var fs: seq<seq<real>> := [[], [], [], [1.5], [], [], [], []];
      AllPositive(ds) && Reports(ds, fs) == [43.75]
  {
    var ds := [3.0, 3.0, 3.0, 3.0, 3.0, 3.0, 3.0, 3.0];
    var fs: seq<seq<real>> := [[], [], [], [1.5], [], [], [], []];
    EightScenesPositions(ds, fs);
    EightScenesTotal(ds);
    assert Percents([10.5], 24.0) == [43.75];
  }

  lemma EightScenesPositions(ds: seq<real>, fs: seq<seq<real>>)
    requires ds == [3.0, 3.0, 3.0, 3.0, 3.0, 3.0, 3.0, 3.0]
    requires fs == [[], [], [], [1.5], [], [], [], []]
    ensures PositionsFrom(ds, fs, 0.0) == [10.5]
  {
    var d4 := [3.0, 3.0, 3.0, 3.0];
    var none: seq<seq<real>> := [[], [], [], []];
    var d5, f5 := [3.0] + d4, [[1.5]] + none;
    assert PositionsFrom(d5, f5, 9.0) == [10.5] by {
      assert d5[1..] == d4 && f5[1..] == none;
      NoFramesNoPositions(d4, none, 12.0);
      assert [1.5][1..] == [];
      assert ScenePositions(9.0, 3.0, [1.5]) == [10.5];
    }
    var d6, f6 := [3.0] + d5, [[]] + f5;
    EmptySceneSkipped(3.0, d5, f5, 6.0);
    var d7, f7 := [3.0] + d6, [[]] + f6;
    EmptySceneSkipped(3.0, d6, f6, 3.0);
    EmptySceneSkipped(3.0, d7, f7, 0.0);
    assert ds == [3.0] + d7 && fs == [[]] + f7;
  }

  lemma EightScenesTotal(ds: seq<real>)
    requires ds == [3.0, 3.0, 3.0, 3.0, 3.0, 3.0, 3.0, 3.0]
    ensures Sum(ds) == 24.0
  {
    var d4 := [3.0, 3.0, 3.0, 3.0];
    assert SumFrom(d4) == 12.0 by {
      assert d4[1..] == [3.0, 3.0, 3.0];
      assert d4[1..][1..] == [3.0, 3.0];
      assert [3.0, 3.0][1..] == [3.0];
      assert [3.0][1..] == [];
    }
    var d5 := [3.0] + d4;
    assert SumFrom(d5) == 15.0 by { assert d5[1..] == d4; }
    var d6 := [3.0] + d5;
    assert SumFrom(d6) == 18.0 by { assert d6[1..] == d5; }
    var d7 := [3.0] + d6;
    assert SumFrom(d7) == 21.0 by { assert d7[1..] == d6; }
    assert ds == [3.0] + d7;
    assert SumFrom(ds) == 24.0 by { assert ds[1..] == d7; }
    SumFromIsSum(ds);
  }

  /** The last percentage reaches 100 only if a frame of the last scene
      falls exactly at its end; when every frame is rendered before its
      scene's end, the export finishes below 100. */
  lemma FinalReportBelowHundred(ds: seq<real>, fs: seq<seq<real>>)
    requires |fs| == |ds| && AllPositive(ds)
    requires forall i :: 0 <= i < |fs| ==> FrameTimes(fs[i])
    requires forall i, j :: 0 <= i < |fs| && 0 <= j < |fs[i]| ==> fs[i][j] < ds[i]
    ensures forall k :: 0 <= k < |Reports(ds, fs)| ==> Reports(ds, fs)[k] < 100.0
  {
    if ds != [] {
      SumPositive(ds);
      SumFromIsSum(ds);
      var total := Sum(ds);
      var ps := PositionsFrom(ds, fs, 0.0);
      PositionsFromBounds(ds, fs, 0.0);
      StrictPositionsFrom(ds, fs, 0.0);
      forall k | 0 <= k < |ps|
        ensures Percent(ps[k], total) < 100.0
      {
        PercentRange(ps[k], total);
      }
    }
  }

  lemma {:induction false} StrictScenePositions(accumulated: real, duration: real, es: seq<real>)
    requires forall j :: 0 <= j < |es| ==> es[j] < duration
    ensures forall k :: 0 <= k < |ScenePositions(accumulated, duration, es)| ==>
      ScenePositions(accumulated, duration, es)[k] < accumulated + duration
    decreases |es|
  {
    if es != [] {
      StrictScenePositions(accumulated, duration, es[1..]);
    }
  }

  lemma {:induction false} StrictPositionsFrom(ds: seq<real>, fs: seq<seq<real>>, accumulated: real)
    requires |fs| == |ds| && AllPositive(ds)
    requires forall i, j :: 0 <= i < |fs| && 0 <= j < |fs[i]| ==> fs[i][j] < ds[i]
    ensures forall k :: 0 <= k < |PositionsFrom(ds, fs, accumulated)| ==>
      PositionsFrom(ds, fs, accumulated)[k] < accumulated + SumFrom(ds)
    decreases |ds|
  {
    if ds != [] {
      StrictScenePositions(accumulated, ds[0], fs[0]);
      StrictPositionsFrom(ds[1..], fs[1..], accumulated + ds[0]);
      SumFromPositive(ds[1..]);
    }
  }

  // ----- Ken Burns -----

  /** The per-scene animation: start and end zoom and pan. */
  datatype Animation = Animation(startScale: real, endScale: real, startX: real, endX: real, startY: real, endY: real)

  /** The parameters drawn from six values of `Math.random()` in [0, 1). */
  function AnimationOf(r0: real, r1: real, r2: real, r3: real, r4: real, r5: real): (a: Animation)
    requires 0.0 <= r0 < 1.0 && 0.0 <= r1 < 1.0 && 0.0 <= r2 < 1.0
    requires 0.0 <= r3 < 1.0 && 0.0 <= r4 < 1.0 && 0.0 <= r5 < 1.0
    ensures 1.0 <= a.startScale < 1.1 && 1.1 <= a.endScale < 1.2
    ensures -40.0 <= a.startX < 40.0 && -40.0 <= a.endX < 40.0
    ensures -20.0 <= a.startY < 20.0 && -20.0 <= a.endY < 20.0
  {
    Animation(r0 * 0.1 + 1.0, r1 * 0.1 + 1.1, (r2 - 0.5) * 80.0, (r3 - 0.5) * 80.0, (r4 - 0.5) * 40.0, (r5 - 0.5) * 40.0)
  }

  /** `start + (end - start) * progress`. */
  function Lerp(start: real, end: real, progress: real): real {
    start + (end - start) * progress
  }

  lemma MulNonneg(a: real, b: real)
    requires a >= 0.0 && b >= 0.0
    ensures a * b >= 0.0
  {
  }

  /** For progress in [0, 1] the interpolation stays between its ends. */
  lemma LerpBetween(start: real, end: real, progress: real)
    requires 0.0 <= progress <= 1.0
    ensures start <= end ==> start <= Lerp(start, end, progress) <= end
    ensures end <= start ==> end <= Lerp(start, end, progress) <= start
  {
    if start <= end {
      MulNonneg(end - start, progress);
      MulNonneg(end - start, 1.0 - progress);
      assert end - Lerp(start, end, progress) == (end - start) * (1.0 - progress);
    } else {
      MulNonneg(start - end, progress);
      MulNonneg(start - end, 1.0 - progress);
      assert Lerp(start, end, progress) - end == (start - end) * (1.0 - progress);
    }
  }

  /** The progress of a frame within its scene, `elapsed / duration`: in
      [0, 1] for every frame the render loop draws. */
  function FrameProgress(elapsed: real, duration: real): (p: real)
    requires duration > 0.0
    ensures 0.0 <= elapsed <= duration ==> 0.0 <= p <= 1.0
    ensures elapsed == 0.0 ==> p == 0.0
    ensures elapsed == duration ==> p == 1.0
  {
    assert 0.0 <= elapsed <= duration ==> duration / duration - elapsed / duration == (duration - elapsed) / duration;
    elapsed / duration
  }

  /** The source rectangle `drawImage` crops from the image. */
  datatype Crop = Crop(sx: real, sy: real, sw: real, sh: real)

  /** The crop of a frame at `progress`: the image zoomed by the
      interpolated scale (a window of `width / scale` by `height / scale`),
      centred and moved against the interpolated pan. */
  function CropAt(a: Animation, width: real, height: real, progress: real): (c: Crop)
    requires Lerp(a.startScale, a.endScale, progress) > 0.0
  {
    var scale := Lerp(a.startScale, a.endScale, progress);
    var x := Lerp(a.startX, a.endX, progress);
    var y := Lerp(a.startY, a.endY, progress);
    var sw := width / scale;
    var sh := height / scale;
    Crop((width - sw) / 2.0 - x, (height - sh) / 2.0 - y, sw, sh)
  }

  /** A window cut by a scale of at least 1 is no larger than the image. */
  lemma ShrinkByScale(size: real, scale: real)
    requires size > 0.0 && scale >= 1.0
    ensures 0.0 < size / scale <= size
  {
    assert size - size / scale == size * (scale - 1.0) / scale;
    MulNonneg(size, scale - 1.0);
  }

  /** Zooming in never crops a window larger than the image, and the
      window's centre is the image's centre moved against the pan. */
  lemma CropWindow(a: Animation, width: real, height: real, progress: real)
    requires 1.0 <= a.startScale && 1.0 <= a.endScale && 0.0 <= progress <= 1.0
    requires width > 0.0 && height > 0.0
    ensures Lerp(a.startScale, a.endScale, progress) >= 1.0
    ensures var c := CropAt(a, width, height, progress);
      0.0 < c.sw <= width && 0.0 < c.sh <= height
      && c.sx + c.sw / 2.0 == width / 2.0 - Lerp(a.startX, a.endX, progress)
      && c.sy + c.sh / 2.0 == height / 2.0 - Lerp(a.startY, a.endY, progress)
  {
    LerpBetween(a.startScale, a.endScale, progress);
    var scale := Lerp(a.startScale, a.endScale, progress);
    ShrinkByScale(width, scale);
    ShrinkByScale(height, scale);
  }

  /** The crop stays inside the image horizontally exactly when the pan is
      no larger than the margin the zoom leaves on each side. */
  lemma CropInsideIff(a: Animation, width: real, height: real, progress: real)
    requires 1.0 <= a.startScale && 1.0 <= a.endScale && 0.0 <= progress <= 1.0
    requires width > 0.0 && height > 0.0
    ensures Lerp(a.startScale, a.endScale, progress) >= 1.0
    ensures var c := CropAt(a, width, height, progress);
      var x := Lerp(a.startX, a.endX, progress);
      (0.0 <= c.sx && c.sx + c.sw <= width) <==> (x <= (width - c.sw) / 2.0 && -x <= (width - c.sw) / 2.0)
  {
    LerpBetween(a.startScale, a.endScale, progress);
  }

  /** The first and last frames of a scene show the start and end zoom and
      pan. */
  lemma CropEnds(a: Animation, width: real, height: real)
    requires 1.0 <= a.startScale && 1.0 <= a.endScale
    ensures CropAt(a, width, height, 0.0) == Crop((width - width / a.startScale) / 2.0 - a.startX, (height - height / a.startScale) / 2.0 - a.startY, width / a.startScale, height / a.startScale)
    ensures CropAt(a, width, height, 1.0) == Crop((width - width / a.endScale) / 2.0 - a.endX, (height - height / a.endScale) / 2.0 - a.endY, width / a.endScale, height / a.endScale)
  {
    assert Lerp(a.startScale, a.endScale, 0.0) == a.startScale;
    assert Lerp(a.startScale, a.endScale, 1.0) == a.endScale;
  }

  // ----- file name and type -----

  const Mp4MimeType: string := "video/mp4; codecs=avc1.42E01E,mp4a.40.2"
  const WebmMimeType: string := "video/webm"

  /** The recorder's type: the mp4 codecs if the browser supports them,
      otherwise webm. */
  function ChooseMimeType(mp4Supported: bool): string {
    if mp4Supported then Mp4MimeType else WebmMimeType
  }

  predicate StartsWith(s: string, prefix: string) {
    |prefix| <= |s| && s[..|prefix|] == prefix
  }

  function Extension(mimeType: string): (ext: string)
    ensures ext == "mp4" <==> StartsWith(mimeType, "video/mp4")
    ensures ext == "webm" <==> !StartsWith(mimeType, "video/mp4")
  {
    if StartsWith(mimeType, "video/mp4") then "mp4" else "webm"
  }

  /** The file is an mp4 exactly when the browser supports the mp4 codecs. */
  lemma ExtensionOfChosenType(mp4Supported: bool)
    ensures Extension(ChooseMimeType(mp4Supported)) == if mp4Supported then "mp4" else "webm"
  {
    assert Mp4MimeType[..9] == "video/mp4";
    assert WebmMimeType[..9] != "video/mp4" by {
      assert WebmMimeType[6] == 'w';
    }
  }

  predicate IsAsciiAlnum(c: char) {
    ('a' <= c <= 'z') || ('A' <= c <= 'Z') || ('0' <= c <= '9')
  }

  /** `toLowerCase` on the characters that survive the replacement. */
  function ToLower(c: char): char {
    if 'A' <= c <= 'Z' then (c as int - 'A' as int + 'a' as int) as char else c
  }

  /** `title.replace(/[^a-z0-9]/gi, '_').toLowerCase()`. */
  function SanitizeTitle(title: string): (r: string)
    ensures |r| == |title|
    ensures forall i :: 0 <= i < |r| ==>
      (if IsAsciiAlnum(title[i]) then r[i] == ToLower(title[i]) else r[i] == '_')
  {
    seq(|title|, i requires 0 <= i < |title| => if IsAsciiAlnum(title[i]) then ToLower(title[i]) else '_')
  }

  predicate SafeChar(c: char) {
    ('a' <= c <= 'z') || ('0' <= c <= '9') || c == '_'
  }

  /** The sanitized title holds only lower-case letters, digits and `_`,
      and sanitizing it again changes nothing. */
  lemma SanitizeSafe(title: string)
    ensures forall i :: 0 <= i < |title| ==> SafeChar(SanitizeTitle(title)[i])
    ensures SanitizeTitle(SanitizeTitle(title)) == SanitizeTitle(title)
  {
    var r := SanitizeTitle(title);
    forall i | 0 <= i < |r|
      ensures SafeChar(r[i]) && SanitizeTitle(r)[i] == r[i]
    {
      if IsAsciiAlnum(title[i]) && 'A' <= title[i] <= 'Z' {
        assert r[i] as int == title[i] as int + 32;
      }
    }
  }

  /** `${sanitized title}.${extension}`. */
  function DownloadName(title: string, mimeType: string): (name: string)
    ensures |name| == |title| + 1 + |Extension(mimeType)|
    ensures name[..|title|] == SanitizeTitle(title) && name[|title|] == '.'
  {
    SanitizeTitle(title) + "." + Extension(mimeType)
  }

  lemma DownloadNameExample()
    ensures DownloadName("O Gato!", WebmMimeType) == "o_gato_.webm"
  {
    assert WebmMimeType[..9] != "video/mp4" by {
      assert WebmMimeType[6] == 'w';
    }
    assert SanitizeTitle("O Gato!") == "o_gato_";
  }
}
