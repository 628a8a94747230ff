/** The story player's playback cursor: which scene plays, from where, and
    what happens on pause, resume, replay and when a scene's audio ends.
    The audio clock (`audioContext.currentTime`) is the field `clock`,
    advanced by `AdvanceClock`; the browser's `ended` event is `OnEnded`. */
module Playback {
  import opened Wrappers
  import opened Pcm
  import opened Captions

  /** An audio source node started by `playParagraph`: a unique `id`, the
      `scene` it plays (captured by its `onended` handler), the clock time it
      was started at and the offset into the scene it was started from.
      `fired` records that its `ended` event has been delivered. */
  datatype Source = Source(id: nat, scene: nat, startClock: real, offset: real, fired: bool)

  /** The player's refs and state, as a value. */
  datatype PlayerState = PlayerState(
    contextOpen: bool,          // the AudioContext exists and is not closed
    clock: real,                // audioContext.currentTime
    buffers: seq<AudioBuffer>,  // audioBuffersRef
    isReady: bool,
    currentIndex: nat,          // currentIndexRef (and currentParagraphIndex)
    isManualPause: bool,        // isManualPauseRef
    startedAt: real,            // startedAtRef
    pausedAt: real,             // pausedAtRef
    isPlaying: bool,
    isFinished: bool,
    subtitle: string,
    source: Option<Source>,     // sourceNodeRef
    nextSourceId: nat,
    isDownloading: bool)

  /** Every decoded buffer is a non-empty buffer at the fixed rate. */
  predicate Decoded(buffers: seq<AudioBuffer>) {
    forall i :: 0 <= i < |buffers| ==> buffers[i].sampleRate == SampleRate && buffers[i].length > 0
  }

  /** The facts every reachable state keeps. */
  predicate Inv(s: PlayerState) {
    Decoded(s.buffers)
    && s.startedAt <= s.clock && 0.0 <= s.pausedAt
    && (s.source.Some? ==>
          s.source.value.scene == s.currentIndex && s.source.value.id < s.nextSourceId
          && 0.0 <= s.source.value.offset && s.source.value.startClock <= s.clock
          && s.startedAt == s.source.value.startClock - s.source.value.offset)
    && (s.isPlaying ==>
          s.contextOpen && s.currentIndex < |s.buffers| && s.source.Some?
          && !s.isManualPause && !s.isFinished)
    && (!s.isReady ==> s.buffers == [] && s.source.None? && !s.isPlaying)
  }

  function Initial(): PlayerState {
    PlayerState(true, 0.0, [], false, 0, false, 0.0, 0.0, false, false, "", None, 0, false)
  }

  // ----- transitions, as functions of the state -----

  function AdvanceSpec(s: PlayerState, now: real): PlayerState
    requires now >= s.clock
  {
    s.(clock := now)
  }

  /** `playParagraph(index, offset)`. Past the last scene it stops and
      marks the story finished; with no audio context it does nothing;
      otherwise it replaces the source (the old one's handler is detached,
      so its `ended` event no longer reaches the player) and starts scene
      `index` at `offset`. */
  function PlaySpec(s: PlayerState, index: nat, offset: real): PlayerState {
    if index >= |s.buffers| then
      s.(isPlaying := false, isFinished := true, subtitle := "")
    else if !s.contextOpen then
      s
    else
      s.(currentIndex := index, isManualPause := false,
         source := Some(Source(s.nextSourceId, index, s.clock, offset, false)),
         nextSourceId := s.nextSourceId + 1,
         startedAt := s.clock - offset, isPlaying := true, isFinished := false)
  }

  /** `pauseAudio`: with a context and a source, remember how far the scene
      has played, mark the pause as manual and stop. */
  function PauseSpec(s: PlayerState): PlayerState {
    if !s.contextOpen || s.source.None? then s
    else s.(isManualPause := true, pausedAt := s.clock - s.startedAt, isPlaying := false)
  }

  /** `handleReplay`: scene 0 from its start. */
  function ReplaySpec(s: PlayerState): PlayerState {
    PlaySpec(s.(isFinished := false, pausedAt := 0.0), 0, 0.0)
  }

  /** `togglePlay`: pause when playing, replay when finished, otherwise
      resume the current scene at the stored offset. */
  function ToggleSpec(s: PlayerState): PlayerState {
    if s.isPlaying then PauseSpec(s)
    else if s.isFinished then ReplaySpec(s)
    else PlaySpec(s, s.currentIndex, s.pausedAt)
  }

  /** The `ended` event of source `id`. It reaches the player only if that
      source is still the current one (replacing a source detaches its
      handler) and only once. After a manual pause it changes nothing more;
      otherwise the stored offset is cleared and the next scene plays. */
  function EndedSpec(s: PlayerState, id: nat): PlayerState {
    if s.source.None? || s.source.value.id != id || s.source.value.fired then s
    else
      var s1 := s.(source := Some(s.source.value.(fired := true)));
      if s.isManualPause then s1
      else PlaySpec(s1.(pausedAt := 0.0), s.source.value.scene + 1, 0.0)
  }

  /** The end of the setup effect: the decoded buffers are stored, the
      player is ready and scene 0 starts. A closed player (the effect was
      cleaned up while decoding) ignores the result. */
  function SetupSpec(s: PlayerState, buffers: seq<AudioBuffer>): PlayerState {
    if !s.contextOpen then s
    else PlaySpec(s.(buffers := buffers, isReady := true), 0, 0.0)
  }

  /** The setup effect's cleanup: pause, then close the context. */
  function CloseSpec(s: PlayerState): PlayerState {
    PauseSpec(s).(contextOpen := false)
  }

  /** The start of `handleDownloadVideo`: mark the download and pause
      playback if it is running. */
  function BeginDownloadSpec(s: PlayerState): PlayerState {
    var s1 := s.(isDownloading := true);
    if s.isPlaying then PauseSpec(s1) else s1
  }

  // ----- the caption of the subtitle loop -----

  /** `story.paragraphs[i]`; a missing paragraph reads as no text. */
  function SceneText(paragraphs: seq<string>, i: nat): string {
    if i < |paragraphs| then paragraphs[i] else ""
  }

  /** How far the current scene has played, in seconds: the offset it was
      started from plus the clock time since. */
  function Position(s: PlayerState): real
    requires s.source.Some?
  {
    s.source.value.offset + (s.clock - s.source.value.startClock)
  }

  function Duration(s: PlayerState): (d: real)
    requires Inv(s) && s.currentIndex < |s.buffers|
    ensures d > 0.0
  {
    s.buffers[s.currentIndex].Duration()
  }

  /** The progress ratio of the current scene, `now - startedAt` over the
      scene's duration, at most 1. */
  function Progress(s: PlayerState): (p: real)
    requires Inv(s) && s.currentIndex < |s.buffers|
    ensures 0.0 <= p <= 1.0
    ensures s.source.Some? ==> p == Min(Position(s) / Duration(s), 1.0)
  {
    Min((s.clock - s.startedAt) / Duration(s), 1.0)
  }

  /** The progress ratio as the subtitle loop writes it: the stored pause
      offset is added to `now - startedAt`. */
  function ProgressAsWritten(s: PlayerState): (p: real)
    requires Inv(s) && s.currentIndex < |s.buffers|
    ensures 0.0 <= p <= 1.0
    ensures s.source.Some? ==> p == Min((Position(s) + s.pausedAt) / Duration(s), 1.0)
  {
    Min(((s.clock - s.startedAt) + s.pausedAt) / Duration(s), 1.0)
  }

  /** One frame of the subtitle loop as written: while playing, the caption
      of the current scene at the as-written progress. */
  function SubtitleSpec(s: PlayerState, paragraphs: seq<string>): PlayerState
    requires Inv(s)
  {
    if !s.isPlaying || s.source.None? || !s.contextOpen || s.currentIndex >= |s.buffers| then s
    else s.(subtitle := CaptionOf(SceneText(paragraphs, s.currentIndex), ProgressAsWritten(s)))
  }

  /** One frame of the subtitle loop with the elapsed time taken as
      `now - startedAt` alone, which already includes the resume offset. */
  function CorrectedSubtitleSpec(s: PlayerState, paragraphs: seq<string>): PlayerState
    requires Inv(s)
  {
    if !s.isPlaying || s.source.None? || !s.contextOpen || s.currentIndex >= |s.buffers| then s
    else s.(subtitle := CaptionOf(SceneText(paragraphs, s.currentIndex), Progress(s)))
  }

  predicate AllDecode(audioData: seq<string>) {
    forall i :: 0 <= i < |audioData| ==> DecodeAudio(audioData[i]).Success?
  }

  /** `buffers[i]` is the decoded audio of `audioData[i]`: one frame per
      decoded sample, at the fixed rate. */
  predicate DecodedFrom(buffers: seq<AudioBuffer>, audioData: seq<string>)
    requires AllDecode(audioData)
  {
    |buffers| == |audioData| && Decoded(buffers)
    && forall i :: 0 <= i < |audioData| ==> buffers[i].length == |DecodeAudio(audioData[i]).value|
  }

  /** `Promise.all(audioData.map(b64 => decodePcm(decodeBase64(b64), ctx)))`:
      every scene decoded in order, or None as soon as one fails. */
  method DecodeAll(audioData: seq<string>) returns (r: Option<seq<AudioBuffer>>)
    ensures r.None? <==> !AllDecode(audioData)
    ensures r.Some? ==> DecodedFrom(r.value, audioData)
  {
    var decoded: seq<AudioBuffer> := [];
    for i := 0 to |audioData|
      invariant AllDecode(audioData[..i]) && DecodedFrom(decoded, audioData[..i])
    {
      var buffer := DecodeScene(audioData[i]);
      if buffer.Failure? {
        assert !AllDecode(audioData) by {
          assert DecodeAudio(audioData[i]).Failure?;
        }
        return None;
      }
      DecodedFromExtend(decoded, audioData, i, buffer.value);
      decoded := decoded + [buffer.value];
    }
    assert audioData[..|audioData|] == audioData;
    return Some(decoded);
  }

  lemma DecodedFromExtend(decoded: seq<AudioBuffer>, audioData: seq<string>, i: nat, b: AudioBuffer)
    requires i < |audioData| && AllDecode(audioData[..i]) && DecodedFrom(decoded, audioData[..i])
    requires DecodeAudio(audioData[i]).Success?
    requires b.sampleRate == SampleRate && b.length == |DecodeAudio(audioData[i]).value|
    ensures AllDecode(audioData[..i + 1]) && DecodedFrom(decoded + [b], audioData[..i + 1])
  {
    var next := audioData[..i + 1];
    assert next == audioData[..i] + [audioData[i]];
    assert forall k :: 0 <= k < i ==> next[k] == audioData[..i][k];
  }

  // ----- the invariant is kept by every transition -----

  lemma AdvanceKeepsInv(s: PlayerState, now: real)
    requires Inv(s) && now >= s.clock
    ensures Inv(AdvanceSpec(s, now))
  {
  }

  lemma PlayKeepsInv(s: PlayerState, index: nat, offset: real)
    requires Inv(s) && offset >= 0.0
    ensures Inv(PlaySpec(s, index, offset))
  {
  }

  lemma PauseKeepsInv(s: PlayerState)
    requires Inv(s)
    ensures Inv(PauseSpec(s))
  {
  }

  lemma ReplayKeepsInv(s: PlayerState)
    requires Inv(s)
    ensures Inv(ReplaySpec(s))
  {
    PlayKeepsInv(s.(isFinished := false, pausedAt := 0.0), 0, 0.0);
  }

  lemma ToggleKeepsInv(s: PlayerState)
    requires Inv(s)
    ensures Inv(ToggleSpec(s))
  {
    if s.isPlaying {
      PauseKeepsInv(s);
    } else if s.isFinished {
      ReplayKeepsInv(s);
    } else {
      PlayKeepsInv(s, s.currentIndex, s.pausedAt);
    }
  }

  lemma EndedKeepsInv(s: PlayerState, id: nat)
    requires Inv(s)
    ensures Inv(EndedSpec(s, id))
  {
    if s.source.Some? && s.source.value.id == id && !s.source.value.fired {
      var s1 := s.(source := Some(s.source.value.(fired := true)));
      assert Inv(s1);
      if !s.isManualPause {
        PlayKeepsInv(s1.(pausedAt := 0.0), s.source.value.scene + 1, 0.0);
      }
    }
  }

  lemma SetupKeepsInv(s: PlayerState, buffers: seq<AudioBuffer>)
    requires Inv(s) && !s.isReady && Decoded(buffers)
    ensures Inv(SetupSpec(s, buffers))
  {
    if s.contextOpen {
      PlayKeepsInv(s.(buffers := buffers, isReady := true), 0, 0.0);
    }
  }

  lemma CloseKeepsInv(s: PlayerState)
    requires Inv(s)
    ensures Inv(CloseSpec(s))
  {
    PauseKeepsInv(s);
  }

  lemma BeginDownloadKeepsInv(s: PlayerState)
    requires Inv(s)
    ensures Inv(BeginDownloadSpec(s))
  {
    if s.isPlaying {
      PauseKeepsInv(s.(isDownloading := true));
    }
  }

  lemma SubtitleKeepsInv(s: PlayerState, paragraphs: seq<string>)
    requires Inv(s)
    ensures Inv(SubtitleSpec(s, paragraphs))
  {
  }

  // ----- properties of the transitions -----

  /** The `ended` event of a source is acted on at most once: delivering
      it again changes nothing, whether the first delivery moved on to a new
      source or left the ended one in place. */
  lemma EndedOnce(s: PlayerState, id: nat)
    requires Inv(s)
    ensures EndedSpec(EndedSpec(s, id), id) == EndedSpec(s, id)
  {
    if s.source.Some? && s.source.value.id == id && !s.source.value.fired {
      var s1 := s.(source := Some(s.source.value.(fired := true)));
      if !s.isManualPause {
        var s2 := s1.(pausedAt := 0.0);
        var next := s.source.value.scene + 1;
        if next < |s.buffers| && s.contextOpen {
          assert PlaySpec(s2, next, 0.0).source.value.id == s.nextSourceId;
          assert id < s.nextSourceId;
        }
      }
    }
  }

  /** An `ended` event of any source other than the current one, such as
      the one a replaced source sends after it is stopped, is ignored. */
  lemma StaleEndedIgnored(s: PlayerState, id: nat)
    requires s.source.None? || s.source.value.id != id
    ensures EndedSpec(s, id) == s
  {
  }

  /** Starting a scene replaces the source, so the previous source's
      `ended` event never advances the cursor afterwards. */
  lemma ReplacedSourceIgnored(s: PlayerState, index: nat, offset: real)
    requires Inv(s) && s.source.Some? && index < |s.buffers| && s.contextOpen
    ensures EndedSpec(PlaySpec(s, index, offset), s.source.value.id) == PlaySpec(s, index, offset)
  {
    assert PlaySpec(s, index, offset).source.value.id == s.nextSourceId;
  }

  /** `playParagraph` past the last scene stops, marks the story finished
      and clears the caption, leaving the cursor where it was; with a valid
      index and an open context it starts that scene at `offset`, so the
      scene's position is the offset. */
  lemma PlayFacts(s: PlayerState, index: nat, offset: real)
    requires Inv(s) && offset >= 0.0
    ensures var r := PlaySpec(s, index, offset);
      (index >= |s.buffers| ==>
         !r.isPlaying && r.isFinished && r.subtitle == "" && r.currentIndex == s.currentIndex)
      && (index < |s.buffers| && s.contextOpen ==>
            r.currentIndex == index && !r.isManualPause && r.startedAt == s.clock - offset
            && r.isPlaying && !r.isFinished && Position(r) == offset)
  {
  }

  /** A manual pause stores how far the scene has played, sets the manual
      flag and stops; the `ended` event the stopped source then sends leaves
      the cursor and the stored offset alone. */
  lemma PauseThenEnded(s: PlayerState, id: nat)
    requires Inv(s) && s.isPlaying
    ensures var p := PauseSpec(s);
      p.isManualPause && !p.isPlaying && p.pausedAt == Position(s)
      && EndedSpec(p, id).currentIndex == s.currentIndex
      && EndedSpec(p, id).pausedAt == p.pausedAt
      && !EndedSpec(p, id).isPlaying
  {
  }

  /** A natural end (no manual pause) clears the stored offset and plays
      exactly the next scene from its start, or, after the last scene,
      finishes. */
  lemma NaturalEnd(s: PlayerState)
    requires Inv(s) && s.isPlaying && !s.source.value.fired
    ensures var r := EndedSpec(s, s.source.value.id);
      r.pausedAt == 0.0
      && (s.currentIndex + 1 < |s.buffers| ==>
            r.currentIndex == s.currentIndex + 1 && r.isPlaying && Position(r) == 0.0)
      && (s.currentIndex + 1 >= |s.buffers| ==>
            r.currentIndex == s.currentIndex && r.isFinished && !r.isPlaying && r.subtitle == "")
  {
  }

  /** Pause, then resume: whatever `ended` event arrives in between and
      however long the pause lasts, the same scene plays again from the
      position at which it was paused. */
  lemma PauseResume(s: PlayerState, id: nat, now: real)
    requires Inv(s) && s.isPlaying && now >= s.clock
    ensures var p := PauseSpec(s);
      var r := ToggleSpec(AdvanceSpec(EndedSpec(p, id), now));
      r.isPlaying && r.currentIndex == s.currentIndex && Position(r) == Position(s)
      && r.startedAt == now - Position(s)
  {
    var p := PauseSpec(s);
    var e := EndedSpec(p, id);
    assert e.currentIndex == s.currentIndex && e.pausedAt == p.pausedAt;
    assert !e.isPlaying && !e.isFinished && e.contextOpen && e.buffers == s.buffers;
    var a := AdvanceSpec(e, now);
    assert ToggleSpec(a) == PlaySpec(a, a.currentIndex, a.pausedAt);
  }

  /** Replay restarts scene 0 at its start with no stored offset. */
  lemma ReplayRestarts(s: PlayerState)
    requires Inv(s) && |s.buffers| > 0 && s.contextOpen
    ensures var r := ReplaySpec(s);
      r.currentIndex == 0 && r.isPlaying && !r.isFinished && r.pausedAt == 0.0
      && r.startedAt == s.clock && Position(r) == 0.0
  {
  }

  /** With `startedAt` kept at the source's start time minus its offset,
      `now - startedAt` is exactly how far the scene has played. */
  lemma ElapsedIsPosition(s: PlayerState)
    requires Inv(s) && s.source.Some?
    ensures s.clock - s.startedAt == Position(s) && Position(s) >= 0.0
  {
  }

  /** The as-written elapsed time adds the stored pause offset on top of
      the position, so after a resume it runs ahead by that offset. */
  lemma ElapsedAsWrittenOvercounts(s: PlayerState)
    requires Inv(s) && s.source.Some?
    ensures (s.clock - s.startedAt) + s.pausedAt == Position(s) + s.pausedAt
    ensures s.pausedAt > 0.0 ==> (s.clock - s.startedAt) + s.pausedAt > Position(s)
  {
  }

  /** The as-written progress never lags the true one. The two agree, and
      so the as-written frame shows the corrected caption, while no pause
      offset is stored (before any pause, after a natural end, after a
      replay); with an offset stored, mid-scene it runs strictly ahead. */
  lemma ProgressAsWrittenAhead(s: PlayerState, paragraphs: seq<string>)
    requires Inv(s) && s.currentIndex < |s.buffers|
    ensures Progress(s) <= ProgressAsWritten(s)
    ensures s.pausedAt == 0.0 ==> ProgressAsWritten(s) == Progress(s)
    ensures s.pausedAt == 0.0 ==> SubtitleSpec(s, paragraphs) == CorrectedSubtitleSpec(s, paragraphs)
    ensures s.source.Some? && Position(s) < Duration(s) && s.pausedAt > 0.0 ==>
      Progress(s) < ProgressAsWritten(s)
  {
    DivideShifted(s.clock - s.startedAt, s.pausedAt, Duration(s));
  }

  /** Dividing by a positive duration keeps the order of the numerators. */
  lemma DivideShifted(e: real, p: real, d: real)
    requires d > 0.0 && p >= 0.0
    ensures e / d <= (e + p) / d
    ensures p > 0.0 ==> e / d < (e + p) / d
    ensures e < d ==> e / d < 1.0
  {
    assert (e + p) / d - e / d == p / d;
    assert d / d == 1.0;
    assert (d - e) / d == d / d - e / d;
  }

  // ----- runs of events -----

  /** What can happen to a ready player: time passes, the play button is
      pressed, a source's `ended` event arrives, a subtitle frame runs, a
      download starts or ends, or the player is closed. */
  datatype Event =
    | Tick(now: real)
    | TogglePressed
    | Ended(id: nat)
    | Frame
    | DownloadStarted
    | DownloadFinished
    | Closed

  function Step(s: PlayerState, e: Event, paragraphs: seq<string>): PlayerState
    requires Inv(s)
  {
    match e
    case Tick(now) => if now >= s.clock then AdvanceSpec(s, now) else s
    case TogglePressed => ToggleSpec(s)
    case Ended(id) => EndedSpec(s, id)
    case Frame => SubtitleSpec(s, paragraphs)
    case DownloadStarted => BeginDownloadSpec(s)
    case DownloadFinished => s.(isDownloading := false)
    case Closed => CloseSpec(s)
  }

  lemma StepKeepsInv(s: PlayerState, e: Event, paragraphs: seq<string>)
    requires Inv(s)
    ensures Inv(Step(s, e, paragraphs))
  {
    match e
    case Tick(now) =>
    case TogglePressed => ToggleKeepsInv(s);
    case Ended(id) => EndedKeepsInv(s, id);
    case Frame => SubtitleKeepsInv(s, paragraphs);
    case DownloadStarted => BeginDownloadKeepsInv(s);
    case DownloadFinished =>
    case Closed => CloseKeepsInv(s);
  }

  /** No event skips a scene: the cursor stays, moves to the next scene,
      or (on replay) goes back to scene 0. */
  lemma StepNeverSkips(s: PlayerState, e: Event, paragraphs: seq<string>)
    requires Inv(s)
    ensures var c := Step(s, e, paragraphs).currentIndex;
      c == s.currentIndex || c == s.currentIndex + 1 || c == 0
  {
    match e
    case Tick(now) =>
    case TogglePressed =>
      if !s.isPlaying && !s.isFinished {
        assert ToggleSpec(s) == PlaySpec(s, s.currentIndex, s.pausedAt);
      }
    case Ended(id) =>
      if s.source.Some? && s.source.value.id == id {
        assert s.source.value.scene == s.currentIndex;
      }
    case Frame =>
    case DownloadStarted =>
    case DownloadFinished =>
    case Closed =>
  }

  /** The state after a run of events; every state along the way keeps the
      invariant. */
  function Run(s: PlayerState, events: seq<Event>, paragraphs: seq<string>): (r: PlayerState)
    requires Inv(s)
    ensures Inv(r)
    decreases |events|
  {
    if events == [] then s
    else
      StepKeepsInv(s, events[0], paragraphs);
      Run(Step(s, events[0], paragraphs), events[1..], paragraphs)
  }

  /** Along any run, the cursor moves forward by at most one scene per
      event, unless a replay sends it back to 0. */
  lemma {:induction false} RunAdvancesAtMostOnePerEvent(s: PlayerState, events: seq<Event>, paragraphs: seq<string>)
    requires Inv(s)
    ensures Run(s, events, paragraphs).currentIndex <= s.currentIndex + |events|
    decreases |events|
  {
    if events != [] {
      StepKeepsInv(s, events[0], paragraphs);
      StepNeverSkips(s, events[0], paragraphs);
      RunAdvancesAtMostOnePerEvent(Step(s, events[0], paragraphs), events[1..], paragraphs);
    }
  }

  // ----- the player -----

  class Player {
    const paragraphs: seq<string>
    var contextOpen: bool
    var clock: real
    var buffers: seq<AudioBuffer>
    var isReady: bool
    var currentIndex: nat
    var isManualPause: bool
    var startedAt: real
    var pausedAt: real
    var isPlaying: bool
    var isFinished: bool
    var subtitle: string
    var source: Option<Source>
    var nextSourceId: nat
    var isDownloading: bool

    function State(): PlayerState
      reads this
    {
      PlayerState(contextOpen, clock, buffers, isReady, currentIndex, isManualPause, startedAt,
                  pausedAt, isPlaying, isFinished, subtitle, source, nextSourceId, isDownloading)
    }

    predicate Valid()
      reads this
    {
      Inv(State())
    }

    /** Mounting the player opens an audio context; nothing plays yet. */
    constructor (paragraphs: seq<string>)
      ensures this.paragraphs == paragraphs && State() == Initial() && Valid()
    {
      this.paragraphs := paragraphs;
      contextOpen := true;
      clock := 0.0;
      buffers := [];
      isReady := false;
      currentIndex := 0;
      isManualPause := false;
      startedAt := 0.0;
      pausedAt := 0.0;
      isPlaying := false;
      isFinished := false;
      subtitle := "";
      source := None;
      nextSourceId := 0;
      isDownloading := false;
    }

    /** Time passes on the audio clock. */
    method AdvanceClock(now: real)
      requires Valid() && now >= clock
      modifies this
      ensures Valid() && State() == AdvanceSpec(old(State()), now)
    {
      AdvanceKeepsInv(State(), now);
      clock := now;
    }

    method PlayParagraph(index: nat, offset: real)
      requires Valid() && offset >= 0.0
      modifies this
      ensures Valid() && State() == PlaySpec(old(State()), index, offset)
    {
      PlayKeepsInv(State(), index, offset);
      if index >= |buffers| {
        isPlaying, isFinished, subtitle := false, true, "";
        return;
      }
      if !contextOpen {
        return;
      }
      StartSource(index, offset);
    }

    /** The rest of `playParagraph`: the previous source, if any, is
        replaced (its handler detached and the node stopped) by a new one
        playing scene `index` from `offset`. */
    method StartSource(index: nat, offset: real)
      requires Valid() && offset >= 0.0 && index < |buffers| && contextOpen
      modifies this
      ensures Valid() && State() == PlaySpec(old(State()), index, offset)
    {
      PlayKeepsInv(State(), index, offset);
      currentIndex, isManualPause := index, false;
      source := Some(Source(nextSourceId, index, clock, offset, false));
      nextSourceId := nextSourceId + 1;
      startedAt := clock - offset;
      isPlaying, isFinished := true, false;
    }

    method PauseAudio()
      requires Valid()
      modifies this
      ensures Valid() && State() == PauseSpec(old(State()))
    {
      PauseKeepsInv(State());
      if !contextOpen || source.None? {
        return;
      }
      isManualPause := true;
      var elapsedTime := clock - startedAt;
      pausedAt := elapsedTime;
      isPlaying := false;
    }

    method HandleReplay()
      requires Valid()
      modifies this
      ensures Valid() && State() == ReplaySpec(old(State()))
    {
      isFinished := false;
      pausedAt := 0.0;
      PlayParagraph(0, 0.0);
    }

    method TogglePlay()
      requires Valid()
      modifies this
      ensures Valid() && State() == ToggleSpec(old(State()))
    {
      if isPlaying {
        PauseAudio();
      } else if isFinished {
        HandleReplay();
      } else {
        PlayParagraph(currentIndex, pausedAt);
      }
    }

    /** The browser delivers the `ended` event of source `id`. */
    method OnEnded(id: nat)
      requires Valid()
      modifies this
      ensures Valid() && State() == EndedSpec(old(State()), id)
    {
      EndedKeepsInv(State(), id);
      if source.None? || source.value.id != id || source.value.fired {
        return;
      }
      var scene := source.value.scene;
      source := Some(source.value.(fired := true));
      if !isManualPause {
        pausedAt := 0.0;
        PlayParagraph(scene + 1, 0.0);
      }
    }

    /** The setup effect after decoding succeeded. */
    method SetupBuffers(decoded: seq<AudioBuffer>)
      requires Valid() && !isReady && Decoded(decoded)
      modifies this
      ensures Valid() && State() == SetupSpec(old(State()), decoded)
    {
      SetupKeepsInv(State(), decoded);
      if !contextOpen {
        return;
      }
      buffers := decoded;
      isReady := true;
      PlayParagraph(0, 0.0);
    }

    /** The setup effect: decode every scene's audio; if any scene fails
        to decode the error is only logged and the player never becomes
        ready. */
    method Setup(audioData: seq<string>)
      requires Valid() && !isReady
      modifies this
      ensures Valid()
      ensures !AllDecode(audioData) ==> State() == old(State())
      ensures AllDecode(audioData) ==>
        (old(contextOpen) ==> DecodedFrom(buffers, audioData))
        && State() == SetupSpec(old(State()), buffers)
    {
      var decoded := DecodeAll(audioData);
      if decoded.None? {
        return;
      }
      SetupBuffers(decoded.value);
    }

    /** The setup effect's cleanup when the player is closed. */
    method Close()
      requires Valid()
      modifies this
      ensures Valid() && State() == CloseSpec(old(State()))
    {
      PauseAudio();
      contextOpen := false;
    }

    method BeginDownload()
      requires Valid()
      modifies this
      ensures Valid() && State() == BeginDownloadSpec(old(State()))
    {
      isDownloading := true;
      if isPlaying {
        PauseAudio();
      }
    }

    /** The recorder's `stop` handler. */
    method FinishDownload()
      requires Valid()
      modifies this
      ensures Valid() && State() == old(State()).(isDownloading := false)
    {
      isDownloading := false;
    }

    /** One frame of the subtitle loop. */
    method UpdateSubtitle()
      requires Valid()
      modifies this
      ensures Valid() && State() == SubtitleSpec(old(State()), paragraphs)
    {
      ghost var s := State();
      SubtitleKeepsInv(s, paragraphs);
      if !isPlaying || source.None? || !contextOpen {
        return;
      }
      if currentIndex >= |buffers| {
        return;
      }
      var buffer := buffers[currentIndex];
      var elapsedTime := (clock - startedAt) + pausedAt;
      var progress := Min(elapsedTime / buffer.Duration(), 1.0);
      assert progress == ProgressAsWritten(s);
      var text := SceneText(paragraphs, currentIndex);
      var caption := ComputeCaption(text, progress);
      subtitle := caption;
      assert State() == s.(subtitle := caption);
    }
  }

  /** A five-second scene paused at 2.3 s, resumed at once and watched for
      one more second has played 3.3 s, two thirds of the scene. The
      as-written elapsed time counts the 2.3 s offset twice (5.6 s), so the
      as-written progress is already clamped to 1 and the whole caption
      shows where two thirds of it should. */
  method PauseResumeScenario()
    returns (position: real, progress: real, elapsedAsWritten: real, progressAsWritten: real, subtitle: string)
    ensures position == 3.3 && progress == 0.66
    ensures elapsedAsWritten == 5.6 && progressAsWritten == 1.0
    ensures subtitle == CaptionOf("Era uma vez um gato.", 1.0)
  {
    var player := new Player(["Era uma vez um gato."]);
    var buffer := new AudioBuffer(120000, SampleRate);
    player.SetupBuffers([buffer]);
    player.AdvanceClock(2.3);
    player.TogglePlay();
    player.TogglePlay();
    player.AdvanceClock(3.3);
    var s := player.State();
    assert s.isPlaying && s.currentIndex == 0 && s.buffers == [buffer];
    assert Duration(s) == 5.0;
    position := Position(s);
    progress := Progress(s);
    elapsedAsWritten := (s.clock - s.startedAt) + s.pausedAt;
    progressAsWritten := ProgressAsWritten(s);
    player.UpdateSubtitle();
    subtitle := player.subtitle;
  }
}
