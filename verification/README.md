# Story player core, modelled in Dafny

This project models the core of the illustrated-story player
(`components/StoryPlayer.tsx`). The player reads each scene's narration aloud
and reveals a karaoke-style caption as the audio plays. It can also export the
whole story as a video with zooming and panning pictures. The modelled parts are:

- **Caption segmentation** (`getTextSegments`). A scene's text is split by the
  expression `/[^.!?,\n]+[.!?,\n]*|[^.!?,\n]+$/g`. Each piece is trimmed and
  gets a window `[startRatio, endRatio]` of the scene. The windows are
  proportional to the raw length of the piece.
- **Caption reveal.** The first window that holds the playback progress (with
  0.001 of slack) is the current one. It shows `floor(len * segmentProgress)`
  characters. The subtitle loop and the export render loop share this step.
- **Audio decoding.** `decodeBase64` is `atob` (WHATWG forgiving-base64)
  followed by a byte copy. `decodePcm` reads little-endian 16-bit frames,
  divides them by 32768 and creates one mono buffer at 24000 Hz.
- **The playback state machine.** It covers `playParagraph`, `pauseAudio`,
  `handleReplay`, `togglePlay` and the sources' `onended` handler. It also
  covers the setup effect (decode everything, then play scene 0), its cleanup,
  the subtitle frame and the start and end of a download.
- **Export arithmetic.** This is the total duration and the progress loop with
  its reported percentages. It also covers the Ken Burns crop window and the
  recorder's type, extension and file name.

Modules:

| file | module | contents |
|---|---|---|
| `wrappers.dfy` | `Wrappers` | `Option`, `Result` |
| `text_split.dfy` | `TextSplit` | the global regex match as a character-level split, and `trim` |
| `captions.dfy` | `Captions` | segments, their windows, segment selection and caption reveal |
| `base64.dfy` | `Base64` | forgiving-base64 decode (`atob`), an encoder, and the round trip |
| `pcm.dfy` | `Pcm` | `decodeBase64`, `decodePcm`, the `AudioBuffer` class |
| `playback.dfy` | `Playback` | the player state, one specification function per transition, the `Player` class |
| `export.dfy` | `Export` | the progress loop, Ken Burns and the download name |

The player's refs and state are fields of the class `Playback.Player`. Each
method is proved to keep the invariant `Inv`. Each method's new state is also
proved to equal a pure transition function of the old state
(`PlaySpec`, `PauseSpec`, `EndedSpec`, …). The properties of playback are
lemmas about those functions.

The audio clock `audioContext.currentTime` is the field `clock`, which
`AdvanceClock` moves forward. Each started source node is a `Source` value
with a unique id. `OnEnded(id)` is the browser delivering that node's `ended`
event. A replaced node's handler is detached (`onended = null`), so its event
is a no-op. A `fired` flag makes each event count once.

The subtitle loop is modelled as written: `Playback.SubtitleSpec` and
`Playback.Player.UpdateSubtitle` add the stored pause offset to
`now - startedAt` (see Findings). `Playback.CorrectedSubtitleSpec` is the same
frame with the elapsed time taken as `now - startedAt`, and
`Playback.ProgressAsWrittenAhead` relates the two.

Two consequences of the code:

- **The last window may end before 1.** The accumulator counts only the pieces
  that are kept, and leading delimiters are never matched. The last `endRatio`
  is 1 exactly when the text is all delimiters, or when it starts with a
  non-delimiter and no match trims to nothing (`Captions.LastEndRatioIsOne`).
  Otherwise it is below 1.
- **The export may finish below 100 %.** The render loop reports only frames
  with `elapsed <= duration`. So the last value is 100 only if a frame lands
  exactly on the end of the last scene (`Export.FinalReportBelowHundred`).

## Model

| member | source | states |
|---|---|---|
| `TextSplit.ChunksShape` | components/StoryPlayer.tsx:34 | every match of the segment expression is a run of non-delimiters followed by delimiters; every match but the last ends with a delimiter |
| `TextSplit.ChunksCover` | components/StoryPlayer.tsx:34 | the matches, concatenated, give back the text without its leading delimiters |
| `TextSplit.ChunksEmpty` | components/StoryPlayer.tsx:34 | the expression finds no match exactly when the text is all delimiters (the case where `[text]` is used) |
| `TextSplit.MatchIsMaximal` | components/StoryPlayer.tsx:34 | a match is greedy: the text after it is empty or starts with a non-delimiter |
| `TextSplit.TrimFacts` | components/StoryPlayer.tsx:38-39 | `trim` gives the empty string exactly for all-whitespace input; its result has no whitespace at either end and is the slice of the input between a leading and a trailing run of whitespace |
| `Captions.GetTextSegments` | components/StoryPlayer.tsx:32-45 | the loop with the running accumulated length computes `Segments(text)`; empty text gives no segments |
| `Captions.SegmentsWellFormed` | components/StoryPlayer.tsx:37-44 | every segment has non-empty trimmed text and a non-empty window with 0 <= start < end <= 1 |
| `Captions.SegmentsContiguous` | components/StoryPlayer.tsx:40-42 | the first window starts at 0 and each window starts where the previous one ends |
| `Captions.SegmentsLastEnd` | components/StoryPlayer.tsx:41-42 | the last window ends at the raw length of the kept pieces over the text length |
| `Captions.LastEndRatioIsOne` | components/StoryPlayer.tsx:33-44 | the last window ends at 1 exactly when the text is all delimiters, or it starts with a non-delimiter and no match trims to nothing |
| `Captions.DelimiterOnlySegments` | components/StoryPlayer.tsx:34 | a text of delimiters only is one segment spanning [0, 1], or none when it trims to nothing |
| `Captions.RawSegmentsOfMatches` | components/StoryPlayer.tsx:34-35 | with a match present, the raw pieces are the matches, all non-empty, and their total length is the text length less the leading delimiters |
| `Captions.KeptLengthBound` | components/StoryPlayer.tsx:38-41 | the length the accumulator reaches is at most the raw total, with equality exactly when no piece is dropped |
| `Captions.FirstCoveringFrom` | components/StoryPlayer.tsx:92-98 | the index found holds the progress in its window (with slack) and no earlier window does; none is found only when no window holds it |
| `Captions.SelectSegment` | components/StoryPlayer.tsx:92-98 | the scan with `break` returns the first segment whose window holds the progress |
| `Captions.Substring0` | components/StoryPlayer.tsx:103 | `substring(0, n)` is the prefix of length n clamped to [0, length] |
| `Captions.Caption` | components/StoryPlayer.tsx:100-106 | no current segment gives the empty caption; otherwise the caption is the prefix of the segment text whose length is `floor(len * segmentProgress)` clamped |
| `Captions.ShowCaption` | components/StoryPlayer.tsx:265-273 | the export's caption step computes `Caption(segments, progress)`, the same step as the subtitle loop |
| `Captions.ComputeCaption` | components/StoryPlayer.tsx:89-106 | segmenting the scene text and revealing at `progress` gives `CaptionOf(text, progress)` |
| `Captions.RevealGrows` | components/StoryPlayer.tsx:101-103 | within a segment the number of characters shown never decreases with progress, and the earlier caption is a prefix of the later one |
| `Captions.RevealEnds` | components/StoryPlayer.tsx:101-103 | at the start of its window a segment shows nothing; from the end of its window on it shows its whole text |
| `Captions.CaptionGrowsWithinSegment` | components/StoryPlayer.tsx:92-106 | while the current segment stays the same, the caption only grows as a prefix |
| `Captions.NoGap` | components/StoryPlayer.tsx:92-98 | every progress from 0 to the last window's end plus the 0.001 slack finds a current segment |
| `Base64.Decode` | components/StoryPlayer.tsx:7 | `atob` fails exactly when the cleaned input has length 1 mod 4 or holds a character outside the alphabet; the error is the length error in the first case and the alphabet error otherwise |
| `Base64.StripWhitespace` | components/StoryPlayer.tsx:7 | no ASCII whitespace is left and nothing longer than the input comes out |
| `Base64.StripWhitespaceAppend` | components/StoryPlayer.tsx:7 | removing whitespace distributes over concatenation, drops a whitespace character and keeps any other, so the result is the input's non-whitespace characters in order |
| `Base64.StripPadding` | components/StoryPlayer.tsx:7 | only when the length is a multiple of 4 are trailing `=` dropped: one or two, two when both are there, never more; what is dropped is all `=` and the rest is a prefix of the input |
| `Base64.DecodeEncode` | components/StoryPlayer.tsx:7-13 | decoding the standard encoding of any byte string gives back those bytes |
| `Base64.EncodeLength` | components/StoryPlayer.tsx:7 | the encoding's length is a multiple of 4 |
| `Base64.DecodeExamplesInvalid` | components/StoryPlayer.tsx:7 | `"Q"` fails for its length; `"QQ="` and `"Q==="` fail for a character outside the alphabet |
| `Base64.DecodeFullGroup` | components/StoryPlayer.tsx:7 | `"QUJD"` decodes to the bytes 65, 66, 67 |
| `Base64.DecodeWithWhitespace` | components/StoryPlayer.tsx:7 | whitespace inside the input is ignored: `" Q Q "` decodes to 65 |
| `Pcm.DecodeBase64` | components/StoryPlayer.tsx:6-14 | the returned array is fresh and holds the decoded bytes, or the `atob` error is returned |
| `Pcm.Int16Of` | components/StoryPlayer.tsx:22 | a frame is the 16-bit two's-complement value whose bytes are `lo`, `hi` (little-endian) |
| `Pcm.Normalize` | components/StoryPlayer.tsx:27 | every sample lies in [-1, 1) |
| `Pcm.Samples` | components/StoryPlayer.tsx:22-28 | there is one sample per pair of bytes, sample i being frame i over 32768 |
| `Pcm.DecodePcm` | components/StoryPlayer.tsx:16-30 | odd byte length and zero frames are errors; otherwise a fresh buffer of length/2 frames at 24000 Hz whose channel holds `Samples(bytes)` |
| `Pcm.AudioBuffer.constructor` | components/StoryPlayer.tsx:24 | `createBuffer` gives a silent buffer of the requested length and rate |
| `Pcm.DecodeAudio` | components/StoryPlayer.tsx:6-30 | a base64 failure is reported as such; decoded bytes of odd length or none are the PCM errors; otherwise the result is `Samples(bytes)`, non-empty |
| `Pcm.DecodeScene` | components/StoryPlayer.tsx:312 | `decodePcm(decodeBase64(b64))` succeeds exactly when `DecodeAudio` does, with those samples, and fails with its error |
| `Pcm.DecodeAudioRoundTrip` | components/StoryPlayer.tsx:6-30 | encoding N int16 samples as little-endian base64 and decoding gives N frames, frame i being sample i normalised |
| `Pcm.Int16RoundTrip` | components/StoryPlayer.tsx:22 | reading back the little-endian bytes of a 16-bit value gives the value |
| `Pcm.NormalizeInjective` | components/StoryPlayer.tsx:27 | distinct frames give distinct samples |
| `Playback.DecodeAll` | components/StoryPlayer.tsx:312 | fails exactly when some scene fails to decode; otherwise one buffer per scene, in order, with that scene's frame count at 24000 Hz |
| `Playback.Player.constructor` | components/StoryPlayer.tsx:55-73 | a new player is open, not ready, not playing, at scene 0 with no source |
| `Playback.Player.PlayParagraph` | components/StoryPlayer.tsx:111-145 | the new state is `PlaySpec`: finished past the last scene, unchanged without a context, else the scene started at `offset` on a new source |
| `Playback.Player.StartSource` | components/StoryPlayer.tsx:122-144 | the old source is replaced by a new one playing scene `index` from `offset`, with `startedAt = now - offset` |
| `Playback.Player.PauseAudio` | components/StoryPlayer.tsx:147-157 | the new state is `PauseSpec`: with a context and a source, the manual flag is set, `pausedAt = now - startedAt`, and playing stops |
| `Playback.Player.HandleReplay` | components/StoryPlayer.tsx:159-163 | the new state is `ReplaySpec`: not finished, no stored offset, scene 0 from its start |
| `Playback.Player.TogglePlay` | components/StoryPlayer.tsx:165-178 | the new state is `ToggleSpec`: pause when playing, replay when finished, else resume the current scene at `pausedAt` |
| `Playback.Player.OnEnded` | components/StoryPlayer.tsx:134-139 | the new state is `EndedSpec`: only the current source's first `ended` acts; without a manual pause it clears `pausedAt` and plays the next scene |
| `Playback.Player.SetupBuffers` | components/StoryPlayer.tsx:313-317 | unless the player was closed, the buffers are stored, the player is ready and scene 0 plays |
| `Playback.Player.Setup` | components/StoryPlayer.tsx:309-321 | a decode failure leaves the state unchanged; otherwise the state is `SetupSpec` with one buffer per scene whose frame count and rate are those of the scene's decoded audio |
| `Playback.Player.Close` | components/StoryPlayer.tsx:325-330 | cleanup pauses, then closes the context |
| `Playback.Player.BeginDownload` | components/StoryPlayer.tsx:181-183 | the download flag is set and playback is paused if it was running |
| `Playback.Player.FinishDownload` | components/StoryPlayer.tsx:214 | only the download flag is cleared |
| `Playback.Player.UpdateSubtitle` | components/StoryPlayer.tsx:75-106 | while playing, the subtitle becomes the caption of the current scene at the as-written `ProgressAsWritten`, the stored pause offset included; otherwise nothing changes |
| `Playback.ToggleKeepsInv` | components/StoryPlayer.tsx:165-178 | toggling keeps the invariant: a playing player has an open context, a valid scene, a current source, and is neither paused nor finished |
| `Playback.EndedKeepsInv` | components/StoryPlayer.tsx:134-139 | the `ended` handler keeps the invariant |
| `Playback.SetupKeepsInv` | components/StoryPlayer.tsx:313-317 | storing decoded buffers and starting scene 0 keeps the invariant |
| `Playback.EndedOnce` | components/StoryPlayer.tsx:134-139 | delivering the same `ended` event twice has the effect of delivering it once |
| `Playback.StaleEndedIgnored` | components/StoryPlayer.tsx:122-125 | the `ended` event of a source that is not the current one changes nothing |
| `Playback.ReplacedSourceIgnored` | components/StoryPlayer.tsx:122-125 | after a scene is started, the previous source's `ended` event changes nothing |
| `Playback.PlayFacts` | components/StoryPlayer.tsx:111-145 | past the last scene: stopped, finished, caption cleared, cursor unchanged; at a valid scene: that scene plays from `offset` |
| `Playback.PauseThenEnded` | components/StoryPlayer.tsx:134-157 | a pause stores the position played; the stopped source's `ended` then moves neither the cursor nor the stored offset |
| `Playback.NaturalEnd` | components/StoryPlayer.tsx:134-139 | a natural end clears the offset and plays exactly the next scene from 0, or after the last scene finishes |
| `Playback.PauseResume` | components/StoryPlayer.tsx:147-178 | pause, any `ended` event, time passing, then toggle: the same scene plays again from the position where it was paused |
| `Playback.ReplayRestarts` | components/StoryPlayer.tsx:159-163 | replay plays scene 0 from its start with no stored offset |
| `Playback.ElapsedIsPosition` | components/StoryPlayer.tsx:142 | `now - startedAt` is exactly how far the current scene has played |
| `Playback.ElapsedAsWrittenOvercounts` | components/StoryPlayer.tsx:86 | the subtitle loop's elapsed time exceeds the position by the stored pause offset |
| `Playback.ProgressAsWritten` | components/StoryPlayer.tsx:86-87 | the as-written progress is (position + stored pause offset) over the duration, clamped to [0, 1] |
| `Playback.Progress` | components/StoryPlayer.tsx:86-87 | the corrected progress is the position played over the scene's duration, clamped to [0, 1] |
| `Playback.PauseResumeScenario` | components/StoryPlayer.tsx:75-106 | a 5 s scene paused at 2.3 s and resumed for 1 s: position 3.3 s and progress 0.66, against 5.6 s and 1.0 as written, so the frame shows the caption at progress 1 |
| `Playback.ProgressAsWrittenAhead` | components/StoryPlayer.tsx:86-87 | the as-written progress never lags the true one; with no stored offset they agree and so do the as-written and corrected frames; with an offset, mid-scene, it runs strictly ahead |
| `Playback.StepNeverSkips` | components/StoryPlayer.tsx:111-178 | no event skips a scene: the cursor stays, moves to the next scene, or returns to 0 |
| `Playback.Run` | components/StoryPlayer.tsx:111-178 | every state reached by a run of events keeps the invariant |
| `Playback.RunAdvancesAtMostOnePerEvent` | components/StoryPlayer.tsx:111-178 | along any run the cursor advances by at most one scene per event |
| `Export.Durations` | components/StoryPlayer.tsx:229 | each decoded buffer's duration is its frame count over its rate, and is positive |
| `Export.RenderScene` | components/StoryPlayer.tsx:240-287 | one scene's render loop reports `(accumulated + elapsed) / total * 100` per frame until the first frame past the duration |
| `Export.ExportProgress` | components/StoryPlayer.tsx:226-291 | the scene loop reports exactly `Reports(durations, frames)` |
| `Export.ReportsInRangeAndSorted` | components/StoryPlayer.tsx:284 | every reported percentage is in [0, 100] and they never decrease |
| `Export.PositionsFromBounds` | components/StoryPlayer.tsx:226-290 | the frame positions are sorted and lie between the start and the end of the scenes |
| `Export.FinalReportBelowHundred` | components/StoryPlayer.tsx:245-246 | if every frame falls before its scene's end, every report is below 100 |
| `Export.EightScenesExample` | components/StoryPlayer.tsx:229-284 | eight 3 s scenes of which only the fourth renders a frame, 1.5 s in: the export reports exactly one value, 43.75 % |
| `Export.AnimationOf` | components/StoryPlayer.tsx:222-226 | start zoom in [1, 1.1), end zoom in [1.1, 1.2), pans within ±40 and ±20 |
| `Export.LerpBetween` | components/StoryPlayer.tsx:255-257 | for progress in [0, 1] the interpolated value lies between its ends |
| `Export.FrameProgress` | components/StoryPlayer.tsx:245-247 | every frame drawn has a progress in [0, 1]: 0 at the start, 1 at the end |
| `Export.CropWindow` | components/StoryPlayer.tsx:255-259 | the crop is no larger than the image and centred on the image centre moved against the pan |
| `Export.CropInsideIff` | components/StoryPlayer.tsx:255-259 | the crop stays inside the image horizontally exactly when the pan is within the margin left by the zoom |
| `Export.CropEnds` | components/StoryPlayer.tsx:255-259 | the first and last frames use the start and end zoom and pan |
| `Export.Extension` | components/StoryPlayer.tsx:210 | the extension is `mp4` exactly when the type starts with `video/mp4`, else `webm` |
| `Export.ExtensionOfChosenType` | components/StoryPlayer.tsx:199-210 | the file is `.mp4` exactly when the mp4 codecs are supported |
| `Export.SanitizeTitle` | components/StoryPlayer.tsx:211 | the name keeps the title's length; ASCII letters and digits are lower-cased, every other character becomes `_` |
| `Export.SanitizeSafe` | components/StoryPlayer.tsx:211 | the name holds only `a-z`, `0-9` and `_`, and sanitizing it again changes nothing |
| `Export.DownloadName` | components/StoryPlayer.tsx:210-211 | the download name is the sanitized title, a dot and the extension |
| `Export.DownloadNameExample` | components/StoryPlayer.tsx:210-211 | `"O Gato!"` recorded as webm downloads as `o_gato_.webm` |

## Left out

- Browser APIs are not modelled: the `AudioContext` graph, `MediaRecorder`, the canvas, `drawImage` and text drawing, blobs and the download link. The model keeps only the values they are given.
- Scheduling (`requestAnimationFrame`, `useEffect`, promises) is not modelled as concurrency. Each callback is one method call. Whatever order of events the browser produces is a sequence of `Playback.Event`s.
- React state updates are applied at once. The model does not capture stale closures over `isPlaying` or `isFinished`.
- The audio clock is an input that `AdvanceClock` moves forward. The export's frame times are inputs that are never negative and never decrease. `Math.random()` values are inputs in [0, 1).
- JavaScript numbers are modelled as exact reals. Floating-point rounding (in the ratios, the percentages and the crop) is not modelled.
- Strings are sequences of code points, not UTF-16 code units. This matters only outside the Basic Multilingual Plane: for `text.length` in the caption windows, and in `Export.SanitizeTitle`, where the source's pattern (without the `u` flag) replaces each of the two code units of such a character, so `"🐱"` becomes `"__"` in the source and `"_"` in the model.
- `Pcm.DecodePcm`: `new Int16Array(pcmData.buffer)` is modelled as little-endian and as covering exactly the decoded bytes. That holds for a fresh `Uint8Array` on little-endian platforms.
- `Playback.Player.Setup`: a decode failure is only logged by the source, so the model leaves the state unchanged. The model covers one run of the setup effect: `Setup` requires a player that is not ready yet, so re-running the effect when the audio changes is not modelled. Only the frame count and rate of each stored buffer are tied to the scene's decoded audio, not its samples. Resuming a suspended context is not modelled.
- `Base64.StripWhitespace`: its own contract states only that no whitespace is left and the result is no longer; which characters are kept, and in what order, is stated by `Base64.StripWhitespaceAppend`.
- `Playback.DecodeAll`: only the length and rate of each buffer are tied to the decoded audio. The sample values are stated per scene by `Pcm.DecodeScene`.
- Export: the images (`fetch`, `createImageBitmap`, a missing image drawing no crop), the 1920×1080 canvas, the recorder's chunks and the initial `setDownloadProgress(0)` are not modelled. The export's own decode is the same `decodePcm(decodeBase64(…))` as `Pcm.DecodeScene`. Its captions are `Captions.CaptionOf` at `Export.FrameProgress`.
- `handleDownloadVideo`, when `getContext` returns null or a decode fails: the source leaves `isDownloading` set. The model has no path for this beyond `Playback.Player.BeginDownload`.
- The rest of the repository is not part of this model: story generation and the service calls, the app shell and the other UI components.

## Findings

| source | as written | input that shows it | evidently intended | confidence | as-written member | corrected member |
|---|---|---|---|---|---|---|
| components/StoryPlayer.tsx:86 | `elapsedTime = (currentTime - startedAt) + pausedAt`, but on resume `startedAt` is already `currentTime - pausedAt`, so the offset is counted twice | a 5 s scene paused at 2.3 s, resumed at once, 1 s later: elapsed 5.6 s and progress 1.0 (whole caption shown), while 3.3 s of the scene has played | `elapsedTime = currentTime - startedAt` (progress 0.66) | not executed | `Playback.PauseResumeScenario` | `Playback.Progress` |
