/** The caption segmenter `getTextSegments` and the caption reveal that the
    live subtitle loop and the export render loop both perform: the scene
    text is cut into phrases, each phrase gets a window of the scene's
    progress proportional to its raw length, and the caption shown at a
    given progress is a prefix of the phrase whose window holds it. */
module Captions {
  import opened Wrappers
  import opened TextSplit

  /** One caption phrase: its trimmed text and its window of scene progress. */
  datatype Segment = Segment(text: string, startRatio: real, endRatio: real)

  function Min(a: real, b: real): real {
    if a <= b then a else b
  }

  /** The division `n / d` of two lengths. */
  function Ratio(n: nat, d: nat): real
    requires d > 0
  {
    n as real / d as real
  }

  lemma RatioMono(a: nat, b: nat, d: nat)
    requires d > 0 && a <= b
    ensures Ratio(a, d) <= Ratio(b, d)
  {
    assert Ratio(b, d) - Ratio(a, d) == (b - a) as real / d as real;
  }

  lemma RatioStrict(a: nat, b: nat, d: nat)
    requires d > 0 && a < b
    ensures Ratio(a, d) < Ratio(b, d)
  {
    assert Ratio(b, d) - Ratio(a, d) == (b - a) as real / d as real;
  }

  lemma RatioOne(a: nat, d: nat)
    requires d > 0
    ensures Ratio(a, d) <= 1.0 <==> a <= d
    ensures Ratio(a, d) == 1.0 <==> a == d
  {
    assert Ratio(a, d) * d as real == a as real;
  }

  // ----- segmentation -----

  /** `text.match(...) || [text]`: the matches, or the whole text when there
      are none. */
  function RawSegments(text: string): seq<string> {
    if Chunks(text) == [] then [text] else Chunks(text)
  }

  /** The `map` over the raw segments, with the running raw length `acc`:
      a raw segment that trims to empty is dropped and does not advance
      `acc`; any other one becomes a segment whose window runs from the
      length before it to the length after it, over the text length. */
  function SegmentsFrom(raw: seq<string>, acc: nat, total: nat): seq<Segment>
    requires total > 0
  {
    if raw == [] then []
    else if Trim(raw[0]) == [] then SegmentsFrom(raw[1..], acc, total)
    else
      var next := acc + |raw[0]|;
      [Segment(Trim(raw[0]), Ratio(acc, total), Min(Ratio(next, total), 1.0))]
        + SegmentsFrom(raw[1..], next, total)
  }

  /** One step of the `map`, as the loop of `GetTextSegments` takes it. */
  lemma SegmentsFromStep(raw: seq<string>, i: nat, acc: nat, total: nat)
    requires total > 0 && i < |raw|
    ensures Trim(raw[i]) == [] ==>
      SegmentsFrom(raw[i..], acc, total) == SegmentsFrom(raw[i + 1..], acc, total)
    ensures Trim(raw[i]) != [] ==>
      SegmentsFrom(raw[i..], acc, total)
      == [Segment(Trim(raw[i]), Ratio(acc, total), Min(Ratio(acc + |raw[i]|, total), 1.0))]
        + SegmentsFrom(raw[i + 1..], acc + |raw[i]|, total)
  {
    assert raw[i..][1..] == raw[i + 1..];
  }

  /** `getTextSegments(text)`. */
  function Segments(text: string): seq<Segment> {
    if text == [] then [] else SegmentsFrom(RawSegments(text), 0, |text|)
  }

  /** The imperative `getTextSegments`: one pass over the raw segments that
      threads the accumulated raw length. */
  method GetTextSegments(text: string) returns (segs: seq<Segment>)
    ensures segs == Segments(text)
    ensures text == [] ==> segs == []
  {
    if text == [] {
      return [];
    }
    var raw := RawSegments(text);
    var total := |text|;
    var currentAccumulatedLength: nat := 0;
    segs := [];
    for i := 0 to |raw|
      invariant segs + SegmentsFrom(raw[i..], currentAccumulatedLength, total) == SegmentsFrom(raw, 0, total)
    {
      SegmentsFromStep(raw, i, currentAccumulatedLength, total);
      var trimmed := Trim(raw[i]);
      if trimmed != [] {
        var startRatio := Ratio(currentAccumulatedLength, total);
        currentAccumulatedLength := currentAccumulatedLength + |raw[i]|;
        var endRatio := Min(Ratio(currentAccumulatedLength, total), 1.0);
        segs := segs + [Segment(trimmed, startRatio, endRatio)];
      }
    }
    assert raw[|raw|..] == [];
  }

  /** The raw length of the raw segments that are kept. */
  function KeptLength(raw: seq<string>): nat {
    if raw == [] then 0
    else (if Trim(raw[0]) == [] then 0 else |raw[0]|) + KeptLength(raw[1..])
  }

  /** Every segment has non-empty trimmed text and a non-empty window inside [0, 1]. */
  predicate WellFormed(segs: seq<Segment>) {
    forall i :: 0 <= i < |segs| ==>
      segs[i].text != [] && IsTrimmed(segs[i].text) && 0.0 <= segs[i].startRatio < segs[i].endRatio <= 1.0
  }

  /** Each window starts where the previous one ends. */
  ghost predicate Contiguous(segs: seq<Segment>) {
    forall i, j :: 0 <= i < j < |segs| && j == i + 1 ==> segs[j].startRatio == segs[i].endRatio
  }

  function Last<T>(s: seq<T>): T
    requires s != []
  {
    s[|s| - 1]
  }

  lemma ContiguousCons(head: Segment, tail: seq<Segment>)
    requires Contiguous(tail)
    requires tail != [] ==> tail[0].startRatio == head.endRatio
    ensures Contiguous([head] + tail)
  {
    var segs := [head] + tail;
    forall i, j | 0 <= i < j < |segs| && j == i + 1
      ensures segs[j].startRatio == segs[i].endRatio
    {
      if i > 0 {
        assert segs[i] == tail[i - 1] && segs[j] == tail[j - 1];
      }
    }
  }

  lemma LastCons<T>(head: T, tail: seq<T>)
    ensures Last([head] + tail) == if tail == [] then head else Last(tail)
  {
  }

  /** The head segment of a `map` step that keeps its raw segment. */
  lemma KeptHead(raw: seq<string>, acc: nat, total: nat)
    requires total > 0 && raw != [] && Trim(raw[0]) != [] && acc + |raw[0]| <= total
    ensures SegmentsFrom(raw, acc, total)
      == [Segment(Trim(raw[0]), Ratio(acc, total), Ratio(acc + |raw[0]|, total))]
        + SegmentsFrom(raw[1..], acc + |raw[0]|, total)
  {
    RatioOne(acc + |raw[0]|, total);
    assert Min(Ratio(acc + |raw[0]|, total), 1.0) == Ratio(acc + |raw[0]|, total);
  }

  /** Windows of the segments built from `raw` lie between the accumulated
      length before and after `raw`, and every segment is well formed. */
  lemma {:induction false} SegmentsFromBounds(raw: seq<string>, acc: nat, total: nat)
    requires total > 0 && acc + TotalLength(raw) <= total
    ensures var segs := SegmentsFrom(raw, acc, total);
      WellFormed(segs)
      && forall i :: 0 <= i < |segs| ==> Ratio(acc, total) <= segs[i].startRatio
  {
    if raw != [] {
      var next := acc + |raw[0]|;
      if Trim(raw[0]) == [] {
        SegmentsFromBounds(raw[1..], acc, total);
      } else {
        var head := Segment(Trim(raw[0]), Ratio(acc, total), Ratio(next, total));
        var tail := SegmentsFrom(raw[1..], next, total);
        assert SegmentsFrom(raw, acc, total) == [head] + tail by {
          KeptHead(raw, acc, total);
        }
        assert head.text != [] && IsTrimmed(head.text) by {
          TrimFacts(raw[0]);
        }
        assert 0.0 <= Ratio(acc, total) < Ratio(next, total) <= 1.0 by {
          RatioStrict(acc, next, total);
          RatioOne(next, total);
          RatioMono(0, acc, total);
          assert Ratio(0, total) == 0.0;
        }
        SegmentsFromBounds(raw[1..], next, total);
        assert forall i :: 0 <= i < |tail| ==> Ratio(acc, total) <= tail[i].startRatio by {
          RatioMono(acc, next, total);
        }
      }
    }
  }

  /** Windows of the segments built from `raw` are contiguous and the first
      starts at the accumulated length before `raw`. */
  lemma {:induction false} SegmentsFromContiguous(raw: seq<string>, acc: nat, total: nat)
    requires total > 0 && acc + TotalLength(raw) <= total
    ensures var segs := SegmentsFrom(raw, acc, total);
      Contiguous(segs) && (segs != [] ==> segs[0].startRatio == Ratio(acc, total))
  {
    if raw != [] {
      var next := acc + |raw[0]|;
      if Trim(raw[0]) == [] {
        SegmentsFromContiguous(raw[1..], acc, total);
      } else {
        var head := Segment(Trim(raw[0]), Ratio(acc, total), Ratio(next, total));
        var tail := SegmentsFrom(raw[1..], next, total);
        assert SegmentsFrom(raw, acc, total) == [head] + tail by {
          KeptHead(raw, acc, total);
        }
        SegmentsFromContiguous(raw[1..], next, total);
        ContiguousCons(head, tail);
      }
    }
  }

  /** The last window of the segments built from `raw` ends at the
      accumulated length before `raw` plus the kept raw length. */
  lemma {:induction false} SegmentsFromLast(raw: seq<string>, acc: nat, total: nat)
    requires total > 0 && acc + TotalLength(raw) <= total
    ensures var segs := SegmentsFrom(raw, acc, total);
      (segs != [] ==> Last(segs).endRatio == Ratio(acc + KeptLength(raw), total))
      && (segs == [] ==> KeptLength(raw) == 0)
  {
    if raw != [] {
      var next := acc + |raw[0]|;
      if Trim(raw[0]) == [] {
        SegmentsFromLast(raw[1..], acc, total);
      } else {
        var head := Segment(Trim(raw[0]), Ratio(acc, total), Ratio(next, total));
        var tail := SegmentsFrom(raw[1..], next, total);
        assert SegmentsFrom(raw, acc, total) == [head] + tail by {
          KeptHead(raw, acc, total);
        }
        SegmentsFromLast(raw[1..], next, total);
        LastCons(head, tail);
      }
    }
  }

  /** The total raw length of the raw segments never exceeds the text length. */
  lemma RawSegmentsLength(text: string)
    ensures TotalLength(RawSegments(text)) <= |text|
  {
    if Chunks(text) == [] {
      assert TotalLength([text]) == |text| + TotalLength([]);
    } else {
      ChunksCover(text);
      ConcatLength(Chunks(text));
    }
  }

  /** Segments of any text have trimmed non-empty texts and non-empty
      windows inside [0, 1]. */
  lemma SegmentsWellFormed(text: string)
    ensures WellFormed(Segments(text))
  {
    if text != [] {
      RawSegmentsLength(text);
      SegmentsFromBounds(RawSegments(text), 0, |text|);
    }
  }

  /** The first window of a text's segments starts at 0 and each later one
      starts where the previous one ends. */
  lemma SegmentsContiguous(text: string)
    ensures var segs := Segments(text);
      Contiguous(segs) && (segs != [] ==> segs[0].startRatio == 0.0)
  {
    if text != [] {
      var raw := RawSegments(text);
      RawSegmentsLength(text);
      SegmentsFromContiguous(raw, 0, |text|);
      assert Ratio(0, |text|) == 0.0;
    }
  }

  /** The last window of a text's segments ends at the kept raw length over
      the text length. */
  lemma SegmentsLastEnd(text: string)
    requires Segments(text) != []
    ensures Last(Segments(text)).endRatio == Ratio(KeptLength(RawSegments(text)), |text|)
  {
    var raw := RawSegments(text);
    RawSegmentsLength(text);
    SegmentsFromLast(raw, 0, |text|);
  }

  // ----- how much of the text the windows account for -----

  lemma {:induction false} KeptLengthBound(raw: seq<string>)
    requires forall k :: 0 <= k < |raw| ==> raw[k] != []
    ensures KeptLength(raw) <= TotalLength(raw)
    ensures KeptLength(raw) == TotalLength(raw) <==> forall k :: 0 <= k < |raw| ==> Trim(raw[k]) != []
  {
    if raw != [] {
      KeptLengthBound(raw[1..]);
      assert forall k :: 0 < k < |raw| ==> raw[k] == raw[1..][k - 1];
    }
  }

  /** The raw segments of a text that is not only delimiters are its
      matches, and their total length is the text length less its leading
      delimiters. */
  lemma RawSegmentsOfMatches(text: string)
    requires !AllDelimiters(text)
    ensures RawSegments(text) == Chunks(text)
    ensures TotalLength(Chunks(text)) == |text| - RunLength(text, true)
    ensures forall k :: 0 <= k < |Chunks(text)| ==> Chunks(text)[k] != []
  {
    ChunksEmpty(text);
    ChunksCover(text);
    ConcatLength(Chunks(text));
    ChunksShape(text);
  }

  /** The last window ends at 1 exactly when no raw length goes
      unaccounted: either the text is made of delimiters only (and the
      fallback keeps it whole), or it does not start with a delimiter and
      none of its matches trims to empty. Otherwise the caption windows stop
      short of the end of the scene. */
  lemma LastEndRatioIsOne(text: string)
    requires Segments(text) != []
    ensures Last(Segments(text)).endRatio == 1.0 <==>
      AllDelimiters(text)
      || (!IsDelimiter(text[0]) && forall k :: 0 <= k < |Chunks(text)| ==> Trim(Chunks(text)[k]) != [])
  {
    var raw := RawSegments(text);
    SegmentsLastEnd(text);
    RatioOne(KeptLength(raw), |text|);
    if AllDelimiters(text) {
      ChunksEmpty(text);
      assert raw == [text];
      DelimiterOnlySegments(text);
      assert KeptLength(raw) == |text| + KeptLength([]);
    } else {
      RawSegmentsOfMatches(text);
      KeptLengthBound(raw);
      assert RunLength(text, true) == 0 <==> !IsDelimiter(text[0]);
    }
  }

  /** Text made of delimiters only has no match; the fallback `[text]`
      gives one segment over the whole scene unless the text trims to
      empty (a text of newlines only), which gives none. */
  lemma DelimiterOnlySegments(text: string)
    requires text != [] && AllDelimiters(text)
    ensures Segments(text) == if Trim(text) == [] then [] else [Segment(Trim(text), 0.0, 1.0)]
  {
    ChunksEmpty(text);
    assert RawSegments(text) == [text];
    RatioOne(|text|, |text|);
    assert Ratio(0, |text|) == 0.0;
    assert SegmentsFrom([text], 0, |text|)
      == (if Trim(text) == [] then [] else [Segment(Trim(text), Ratio(0, |text|), Min(Ratio(|text|, |text|), 1.0))])
        + SegmentsFrom([], |text|, |text|);
  }

  // ----- caption reveal -----

  /** Slack added to the end of each window so that rounding at a boundary
      does not leave a progress value outside every window. */
  const BoundarySlack: real := 0.001

  predicate Covers(seg: Segment, progress: real) {
    seg.startRatio <= progress <= seg.endRatio + BoundarySlack
  }

  /** The index of the first segment, from `from` on, whose window (with the
      slack) holds `progress`, or None when there is none. */
  function FirstCoveringFrom(segs: seq<Segment>, progress: real, from: nat): (r: Option<nat>)
    requires from <= |segs|
    ensures r.Some? ==>
      from <= r.value < |segs| && Covers(segs[r.value], progress)
      && forall j :: from <= j < r.value ==> !Covers(segs[j], progress)
    ensures r.None? ==> forall j :: from <= j < |segs| ==> !Covers(segs[j], progress)
    decreases |segs| - from
  {
    if from == |segs| then None
    else if Covers(segs[from], progress) then Some(from)
    else FirstCoveringFrom(segs, progress, from + 1)
  }

  function FirstCovering(segs: seq<Segment>, progress: real): Option<nat> {
    FirstCoveringFrom(segs, progress, 0)
  }

  /** The segment the `for ... of` loop with `break` settles on. */
  function CurrentSegment(segs: seq<Segment>, progress: real): Option<Segment> {
    match FirstCovering(segs, progress)
    case None => None
    case Some(k) => Some(segs[k])
  }

  /** The segment search of the subtitle loop: scan in order and stop at the
      first window that holds `progress`. */
  method SelectSegment(segs: seq<Segment>, progress: real) returns (currentSegment: Option<Segment>)
    ensures currentSegment == CurrentSegment(segs, progress)
  {
    currentSegment := None;
    var i := 0;
    while i < |segs|
      invariant 0 <= i <= |segs|
      invariant FirstCovering(segs, progress) == FirstCoveringFrom(segs, progress, i)
    {
      if Covers(segs[i], progress) {
        currentSegment := Some(segs[i]);
        break;
      }
      i := i + 1;
    }
  }

  /** `s.substring(0, n)`: the first `n` characters, with `n` clamped to
      [0, |s|]. */
  function Substring0(s: string, n: int): (r: string)
    ensures |r| == (if n < 0 then 0 else if n > |s| then |s| else n)
    ensures r == s[..|r|]
  {
    if n <= 0 then [] else if n >= |s| then s else s[..n]
  }

  /** `Math.floor(text.length * segmentProgress)`, where `segmentProgress`
      is how far `progress` has gone through the window. */
  function CharsToShow(seg: Segment, progress: real): int
    requires seg.startRatio < seg.endRatio
  {
    (|seg.text| as real * ((progress - seg.startRatio) / (seg.endRatio - seg.startRatio))).Floor
  }

  function Reveal(seg: Segment, progress: real): string
    requires seg.startRatio < seg.endRatio
  {
    Substring0(seg.text, CharsToShow(seg, progress))
  }

  /** The caption at `progress`: the revealed part of the current segment,
      or the empty string when no window holds `progress`. */
  function Caption(segs: seq<Segment>, progress: real): (caption: string)
    requires WellFormed(segs)
    ensures FirstCovering(segs, progress).None? ==> caption == []
    ensures FirstCovering(segs, progress).Some? ==>
      var seg := segs[FirstCovering(segs, progress).value];
      |caption| == (if CharsToShow(seg, progress) < 0 then 0
                    else if CharsToShow(seg, progress) > |seg.text| then |seg.text|
                    else CharsToShow(seg, progress))
      && caption == seg.text[..|caption|]
  {
    match FirstCovering(segs, progress)
    case None => []
    case Some(k) => Reveal(segs[k], progress)
  }

  /** The caption of a scene text at a given progress. */
  function CaptionOf(text: string, progress: real): string {
    SegmentsWellFormed(text);
    Caption(Segments(text), progress)
  }

  /** The caption step of the subtitle loop and of the export render loop:
      find the current segment, then reveal the part of it that `progress`
      has reached. */
  method ShowCaption(segments: seq<Segment>, progress: real) returns (caption: string)
    requires WellFormed(segments)
    ensures caption == Caption(segments, progress)
  {
    var currentSegment := SelectSegment(segments, progress);
    match currentSegment
    case None =>
      caption := [];
    case Some(seg) =>
      ghost var k := FirstCovering(segments, progress).value;
      assert seg == segments[k] && seg.startRatio < seg.endRatio;
      var segmentProgress := (progress - seg.startRatio) / (seg.endRatio - seg.startRatio);
      var charsToShow := (|seg.text| as real * segmentProgress).Floor;
      assert charsToShow == CharsToShow(seg, progress);
      caption := Substring0(seg.text, charsToShow);
      assert caption == Reveal(segments[k], progress);
  }

  /** The caption a scene text shows at a given progress, in the source's steps. */
  method ComputeCaption(text: string, progress: real) returns (caption: string)
    ensures caption == CaptionOf(text, progress)
  {
    var segments := GetTextSegments(text);
    SegmentsWellFormed(text);
    caption := ShowCaption(segments, progress);
  }

  lemma DivMono(a: real, b: real, d: real)
    requires d > 0.0 && a <= b
    ensures a / d <= b / d
  {
    assert b / d - a / d == (b - a) / d;
  }

  lemma MulMono(c: real, a: real, b: real)
    requires c >= 0.0 && a <= b
    ensures c * a <= c * b
  {
    assert c * b - c * a == c * (b - a);
  }

  lemma FloorMono(x: real, y: real)
    requires x <= y
    ensures x.Floor <= y.Floor
  {
  }

  /** Within one segment, the revealed caption only grows with progress:
      the caption at an earlier progress is a prefix of the caption at a
      later one. */
  lemma RevealGrows(seg: Segment, p1: real, p2: real)
    requires seg.startRatio < seg.endRatio && p1 <= p2
    ensures CharsToShow(seg, p1) <= CharsToShow(seg, p2)
    ensures Reveal(seg, p1) == Reveal(seg, p2)[..|Reveal(seg, p1)|]
  {
    var w := seg.endRatio - seg.startRatio;
    DivMono(p1 - seg.startRatio, p2 - seg.startRatio, w);
    MulMono(|seg.text| as real, (p1 - seg.startRatio) / w, (p2 - seg.startRatio) / w);
    FloorMono(|seg.text| as real * ((p1 - seg.startRatio) / w), |seg.text| as real * ((p2 - seg.startRatio) / w));
  }

  /** At the start of its window a segment shows nothing; from the end of
      its window on (the slack included) it shows its whole text. */
  lemma RevealEnds(seg: Segment, progress: real)
    requires seg.startRatio < seg.endRatio
    ensures progress == seg.startRatio ==> Reveal(seg, progress) == []
    ensures progress >= seg.endRatio ==> Reveal(seg, progress) == seg.text
  {
    var w := seg.endRatio - seg.startRatio;
    if progress >= seg.endRatio {
      DivMono(w, progress - seg.startRatio, w);
      assert w / w == 1.0;
      MulMono(|seg.text| as real, 1.0, (progress - seg.startRatio) / w);
    }
  }

  /** Two progress values that fall in the same segment give captions of
      non-decreasing length, the earlier a prefix of the later. */
  lemma CaptionGrowsWithinSegment(segs: seq<Segment>, p1: real, p2: real)
    requires WellFormed(segs) && p1 <= p2
    requires FirstCovering(segs, p1).Some? && FirstCovering(segs, p1) == FirstCovering(segs, p2)
    ensures |Caption(segs, p1)| <= |Caption(segs, p2)|
    ensures Caption(segs, p1) == Caption(segs, p2)[..|Caption(segs, p1)|]
  {
    RevealGrows(segs[FirstCovering(segs, p1).value], p1, p2);
  }

  /** Contiguous windows leave no gap: every progress from the start of the
      first window to the (slackened) end of the last one selects a segment,
      namely the first whose slackened end it has not passed. */
  lemma {:induction false} NoGapFrom(segs: seq<Segment>, progress: real, from: nat)
    requires WellFormed(segs) && Contiguous(segs) && from < |segs|
    requires segs[from].startRatio <= progress <= Last(segs).endRatio + BoundarySlack
    ensures FirstCoveringFrom(segs, progress, from).Some?
    decreases |segs| - from
  {
    if !Covers(segs[from], progress) {
      assert from + 1 < |segs|;
      assert segs[from + 1].startRatio == segs[from].endRatio;
      NoGapFrom(segs, progress, from + 1);
    }
  }

  /** A scene's caption is never blank for lack of a window between the
      start of its first segment and the slackened end of its last. */
  lemma NoGap(text: string, progress: real)
    requires Segments(text) != []
    requires 0.0 <= progress <= Last(Segments(text)).endRatio + BoundarySlack
    ensures FirstCovering(Segments(text), progress).Some?
  {
    SegmentsWellFormed(text);
    SegmentsContiguous(text);
    NoGapFrom(Segments(text), progress, 0);
  }
}
