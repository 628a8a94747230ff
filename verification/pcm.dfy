/** Decoding a scene's speech audio: base64 transport text to bytes
    (`decodeBase64`), then bytes to a mono buffer of normalised samples at
    24000 Hz (`decodePcm`). */
module Pcm {
  import opened Wrappers
  import opened Base64

  const SampleRate: nat := 24000
  const NumChannels: nat := 1

  /** Why decoding a scene's audio fails. */
  datatype PcmError =
    | OddByteLength   // `new Int16Array` on a buffer of odd byte length throws RangeError
    | NoFrames        // `createBuffer` with zero frames throws NotSupportedError

  /** A decoded audio buffer: `length` frames of one channel at
      `sampleRate`; the channel data is filled in after creation. */
  class AudioBuffer {
    const sampleRate: nat
    const length: nat
    const channelData: array<real>

    /** `createBuffer(1, length, sampleRate)`: a silent buffer. */
    constructor (length: nat, sampleRate: nat)
      requires length > 0 && sampleRate > 0
      ensures this.length == length && this.sampleRate == sampleRate
      ensures fresh(channelData) && channelData.Length == length
      ensures forall i :: 0 <= i < length ==> channelData[i] == 0.0
    {
      this.length := length;
      this.sampleRate := sampleRate;
      channelData := new real[length](_ => 0.0);
    }

    /** Duration in seconds. */
    function Duration(): real
      requires sampleRate > 0
    {
      length as real / sampleRate as real
    }
  }

  // ----- samples -----

  type int16 = x: int | -32768 <= x < 32768

  /** The little-endian 16-bit two's-complement value of bytes `lo`, `hi`. */
  function Int16Of(lo: uint8, hi: uint8): (v: int16)
    ensures (v + 65536) % 65536 == lo + 256 * hi
  {
    var u := lo + 256 * hi;
    if u >= 32768 then u - 65536 else u
  }

  /** `dataInt16[i]`: frame `i` read from bytes `2i` and `2i+1`. */
  function FrameAt(bytes: seq<uint8>, i: nat): int16
    requires 2 * i + 1 < |bytes|
  {
    Int16Of(bytes[2 * i], bytes[2 * i + 1])
  }

  /** `dataInt16[i] / 32768.0`. */
  function Normalize(v: int16): (x: real)
    ensures -1.0 <= x < 1.0
  {
    v as real / 32768.0
  }

  /** The channel data the decoder writes for `bytes`: one normalised
      sample per pair of bytes. */
  function Samples(bytes: seq<uint8>): (r: seq<real>)
    ensures |r| == |bytes| / 2
    ensures forall i :: 0 <= i < |r| ==> r[i] == Normalize(FrameAt(bytes, i)) && -1.0 <= r[i] < 1.0
  {
    seq(|bytes| / 2, i requires 0 <= i < |bytes| / 2 => Normalize(FrameAt(bytes, i)))
  }

  // ----- decodeBase64 -----

  /** `decodeBase64`: `atob`, then each character code of the binary
      string copied into a fresh byte array of the same length. */
  method DecodeBase64(base64: string) returns (r: Result<array<uint8>, Base64Error>)
    ensures Decode(base64).Failure? ==> r == Failure(Decode(base64).error)
    ensures Decode(base64).Success? ==>
      r.Success? && fresh(r.value) && r.value[..] == Decode(base64).value
  {
    var decoded := Atob(base64);
    if decoded.Failure? {
      return Failure(decoded.error);
    }
    var binaryString := decoded.value;
    var len := |binaryString|;
    var bytes := new uint8[len];
    for i := 0 to len
      invariant forall k :: 0 <= k < i ==> bytes[k] == Decode(base64).value[k]
    {
      bytes[i] := binaryString[i] as int;
    }
    return Success(bytes);
  }

  // ----- decodePcm -----

  /** `decodePcm`: view the bytes as little-endian 16-bit frames, create a
      mono buffer of that many frames at 24000 Hz and fill its channel with
      the normalised frames. */
  method DecodePcm(pcmData: array<uint8>) returns (r: Result<AudioBuffer, PcmError>)
    ensures pcmData.Length % 2 == 1 ==> r == Failure(OddByteLength)
    ensures pcmData.Length == 0 ==> r == Failure(NoFrames)
    ensures pcmData.Length % 2 == 0 && pcmData.Length > 0 ==>
      r.Success? && fresh(r.value) && fresh(r.value.channelData)
      && r.value.sampleRate == SampleRate && r.value.length == pcmData.Length / 2
      && r.value.channelData[..] == Samples(pcmData[..])
  {
    if pcmData.Length % 2 == 1 {
      return Failure(OddByteLength);
    }
    var frameCount := pcmData.Length / 2 / NumChannels;
    if frameCount == 0 {
      return Failure(NoFrames);
    }
    var buffer := new AudioBuffer(frameCount, SampleRate);
    var channelData := buffer.channelData;
    for i := 0 to frameCount
      invariant forall k :: 0 <= k < i ==> channelData[k] == Normalize(FrameAt(pcmData[..], k))
    {
      channelData[i] := Int16Of(pcmData[2 * i], pcmData[2 * i + 1]) as real / 32768.0;
    }
    return Success(buffer);
  }

  /** The whole decode of one scene's transport text, as a value. */
  function DecodeAudio(base64: string): (r: Result<seq<real>, DecodeError>)
    ensures r.Success? ==> Decode(base64).Success? && |r.value| > 0
    ensures Decode(base64).Failure? ==> r == Failure(InvalidBase64(Decode(base64).error))
    ensures Decode(base64).Success? && |Decode(base64).value| % 2 == 1 ==>
      r == Failure(InvalidPcm(OddByteLength))
    ensures Decode(base64).Success? && Decode(base64).value == [] ==> r == Failure(InvalidPcm(NoFrames))
    ensures Decode(base64).Success? && |Decode(base64).value| % 2 == 0 && Decode(base64).value != [] ==>
      r == Success(Samples(Decode(base64).value))
  {
    match Decode(base64)
    case Failure(e) => Failure(InvalidBase64(e))
    case Success(bytes) =>
      if |bytes| % 2 == 1 then Failure(InvalidPcm(OddByteLength))
      else if |bytes| == 0 then Failure(InvalidPcm(NoFrames))
      else Success(Samples(bytes))
  }

  datatype DecodeError = InvalidBase64(Base64Error) | InvalidPcm(PcmError)

  /** `decodePcm(decodeBase64(b64))`, the composition the player and the
      export run for each scene. */
  method DecodeScene(base64: string) returns (r: Result<AudioBuffer, DecodeError>)
    ensures DecodeAudio(base64).Failure? ==> r.Failure? && r.error == DecodeAudio(base64).error
    ensures DecodeAudio(base64).Success? ==>
      r.Success? && fresh(r.value) && fresh(r.value.channelData)
      && r.value.sampleRate == SampleRate && r.value.length == |DecodeAudio(base64).value|
      && r.value.channelData[..] == DecodeAudio(base64).value
  {
    var bytes := DecodeBase64(base64);
    if bytes.Failure? {
      return Failure(InvalidBase64(bytes.error));
    }
    var buffer := DecodePcm(bytes.value);
    if buffer.Failure? {
      return Failure(InvalidPcm(buffer.error));
    }
    return Success(buffer.value);
  }

  // ----- round trip -----

  /** The little-endian bytes of a 16-bit sample. */
  function Int16Bytes(v: int16): (b: seq<uint8>)
    ensures |b| == 2
  {
    var u := if v < 0 then v + 65536 else v;
    [u % 256, u / 256]
  }

  /** The transport bytes of a sequence of samples. */
  function PcmBytes(samples: seq<int16>): (b: seq<uint8>)
    ensures |b| == 2 * |samples|
  {
    if samples == [] then [] else Int16Bytes(samples[0]) + PcmBytes(samples[1..])
  }

  lemma Int16RoundTrip(v: int16)
    ensures Int16Of(Int16Bytes(v)[0], Int16Bytes(v)[1]) == v
  {
  }

  lemma {:induction false} FrameAtPcmBytes(samples: seq<int16>, i: nat)
    requires i < |samples|
    ensures FrameAt(PcmBytes(samples), i) == samples[i]
    decreases i
  {
    var b := PcmBytes(samples);
    assert b == Int16Bytes(samples[0]) + PcmBytes(samples[1..]);
    if i == 0 {
      Int16RoundTrip(samples[0]);
    } else {
      FrameAtPcmBytes(samples[1..], i - 1);
      assert b[2 * i] == PcmBytes(samples[1..])[2 * (i - 1)];
      assert b[2 * i + 1] == PcmBytes(samples[1..])[2 * (i - 1) + 1];
    }
  }

  /** Encoding N samples to the transport form and decoding it gives a
      buffer of exactly N frames, frame i being sample i normalised. */
  lemma DecodeAudioRoundTrip(samples: seq<int16>)
    requires samples != []
    ensures var r := DecodeAudio(Encode(PcmBytes(samples)));
      r.Success? && |r.value| == |samples|
      && forall i :: 0 <= i < |samples| ==> r.value[i] == Normalize(samples[i])
  {
    var bytes := PcmBytes(samples);
    DecodeEncode(bytes);
    assert |bytes| == 2 * |samples| && |bytes| / 2 == |samples| && |bytes| % 2 == 0;
    assert DecodeAudio(Encode(bytes)) == Success(Samples(bytes));
    forall i | 0 <= i < |samples|
      ensures Samples(bytes)[i] == Normalize(samples[i])
    {
      FrameAtPcmBytes(samples, i);
    }
  }

  /** Normalisation loses nothing: distinct frames give distinct samples. */
  lemma NormalizeInjective(v: int16, w: int16)
    requires Normalize(v) == Normalize(w)
    ensures v == w
  {
  }
}
