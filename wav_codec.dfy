/** The PCM codec of BiometricWavProcesser.py: the decode step at the top of
    `perform_fft` (lines 16-23) and the encode step of `reconstruct_wav`
    (lines 49-51), which uses the dtype that `perform_ifft` picked from the
    same width table (line 41). */
module WavCodec {
  import opened PcmTypes
  import opened SampleCodec
  import opened Shape

  /** The fields of the `wave` module's parameter tuple that the codec reads. */
  datatype WavParams = WavParams(nchannels: nat, sampwidth: nat, nframes: nat)

  /** A decoded data chunk: a flat sample array for one channel (or none),
      a frames x channels matrix for several. */
  datatype Samples = Mono(samples: seq<int>) | Frames(rows: seq<seq<int>>)

  /** Lines 49-51 up to the bytes: the samples in the order `tobytes` writes
      them, frame after frame, each frame its channels in order.  The source
      calls `flatten` only when `nchannels > 1`, but `tobytes` emits C order
      in any case, so a matrix yields its flattening either way. */
  function Interleaved(p: WavParams, d: Samples): (r: seq<int>)
    ensures d.Mono? ==> r == d.samples
    ensures Shaped(d, p) && p.nchannels > 1 ==> |r| == p.nframes * p.nchannels
  {
    match d
    case Mono(s) => s
    case Frames(m) =>
      if IsMatrix(m, p.nframes, p.nchannels) then
        FlattenLength(m, p.nframes, p.nchannels);
        Flatten(m)
      else
        Flatten(m)
  }

  /** The shape that decoding with `p` produces: a matrix of `nframes` rows of
      `nchannels` entries when there is more than one channel, a flat array
      otherwise. */
  predicate Shaped(d: Samples, p: WavParams) {
    if p.nchannels > 1 then d.Frames? && IsMatrix(d.rows, p.nframes, p.nchannels)
    else d.Mono?
  }

  /** Lines 17-23: look up the dtype, `np.frombuffer`, and `reshape` when
      there is more than one channel. */
  function Decode(frames: seq<byte>, p: WavParams): (r: Result<Samples>)
    ensures !ValidWidth(p.sampwidth) ==> r == Err(UnsupportedWidth(p.sampwidth))
    ensures ValidWidth(p.sampwidth) && |frames| % p.sampwidth != 0 ==>
              r == Err(BufferNotMultiple(|frames|, p.sampwidth))
    ensures && ValidWidth(p.sampwidth) && |frames| % p.sampwidth == 0 && p.nchannels > 1
            && |frames| != p.nframes * p.nchannels * p.sampwidth
            ==> r == Err(ShapeMismatch(|frames| / p.sampwidth, p.nframes, p.nchannels))
    ensures r.Ok? <==>
              && ValidWidth(p.sampwidth)
              && |frames| % p.sampwidth == 0
              && (p.nchannels > 1 ==> |frames| == p.nframes * p.nchannels * p.sampwidth)
    ensures r.Ok? ==> Shaped(r.value, p)
    ensures r.Ok? ==> Interleaved(p, r.value) == DecodeAll(SampleTypeOf(p.sampwidth).value, frames)
  {
    match SampleTypeOf(p.sampwidth)
    case Err(e) => Err(e)
    case Ok(t) =>
      if |frames| % t.Width() != 0 then Err(BufferNotMultiple(|frames|, t.Width()))
      else
        var flat := DecodeAll(t, frames);
        MulCancel(|flat|, p.nframes * p.nchannels, t.Width());
        ModuloUnique(|frames|, |flat|, 0, t.Width());
        if p.nchannels > 1 then
          if |flat| != p.nframes * p.nchannels then
            Err(ShapeMismatch(|flat|, p.nframes, p.nchannels))
          else
            FlattenReshape(flat, p.nframes, p.nchannels);
            Ok(Frames(Reshape(flat, p.nframes, p.nchannels)))
        else
          Ok(Mono(flat))
  }

  /** Lines 41 and 49-51: look up the dtype from the same width table, then
      write the samples in interleaved order, each in `sampwidth`
      little-endian bytes. */
  function Encode(p: WavParams, d: Samples): (r: Result<seq<byte>>)
    ensures r.Ok? <==> ValidWidth(p.sampwidth)
    ensures r.Err? ==> r.error == UnsupportedWidth(p.sampwidth)
    ensures r.Ok? ==> |r.value| == |Interleaved(p, d)| * p.sampwidth
  {
    match SampleTypeOf(p.sampwidth)
    case Err(e) => Err(e)
    case Ok(t) => Ok(EncodeAll(t, Interleaved(p, d)))
  }

  /** Multiplying by a positive number is injective. */
  lemma MulCancel(a: nat, b: nat, w: nat)
    requires w > 0
    ensures a * w == b * w <==> a == b
  {
    if a < b {
      MulAtLeast(b - a, w);
      assert b * w - a * w == (b - a) * w;
    } else if b < a {
      MulAtLeast(a - b, w);
      assert a * w - b * w == (a - b) * w;
    }
  }

  /** Encoding rejects exactly the widths decoding rejects: both go through
      the one table {1: int8, 2: int16, 4: int32}. */
  lemma SameWidthTable(frames: seq<byte>, p: WavParams, d: Samples)
    ensures Encode(p, d).Err? <==> Decode(frames, p) == Err(UnsupportedWidth(p.sampwidth))
  {
  }

  /** With several channels, row i, column c of the decoded matrix is the
      sample stored at flat index i * nchannels + c, that is at bytes
      (i * nchannels + c) * sampwidth up to the next sample. */
  lemma DecodeFrameAt(frames: seq<byte>, p: WavParams, i: nat, c: nat)
    requires Decode(frames, p).Ok? && p.nchannels > 1
    requires i < p.nframes && c < p.nchannels
    ensures var t, k := SampleTypeOf(p.sampwidth).value, i * p.nchannels + c;
            && (k + 1) * p.sampwidth <= |frames|
            && Decode(frames, p).value.rows[i][c]
               == DecodeSample(t, frames[k * p.sampwidth..(k + 1) * p.sampwidth])
  {
    var t := SampleTypeOf(p.sampwidth).value;
    var flat := DecodeAll(t, frames);
    MulCancel(|flat|, p.nframes * p.nchannels, t.Width());
    ReshapeAt(flat, p.nframes, p.nchannels, i, c);
    DecodeAllAt(t, frames, i * p.nchannels + c);
  }

  /** A matrix of `nframes` frames of `nchannels` samples is written as
      exactly nframes * nchannels * sampwidth bytes. */
  lemma PayloadLength(p: WavParams, m: seq<seq<int>>)
    requires ValidWidth(p.sampwidth)
    requires IsMatrix(m, p.nframes, p.nchannels)
    ensures Encode(p, Frames(m)).Ok?
    ensures |Encode(p, Frames(m)).value| == p.nframes * p.nchannels * p.sampwidth
  {
    FlattenLength(m, p.nframes, p.nchannels);
  }

  /** Re-encoding what was decoded reproduces the data chunk byte for byte. */
  lemma DecodeEncode(frames: seq<byte>, p: WavParams)
    requires Decode(frames, p).Ok?
    ensures Encode(p, Decode(frames, p).value) == Ok(frames)
  {
    EncodeDecodeAll(SampleTypeOf(p.sampwidth).value, frames);
  }

  /** Decoding what was encoded gives back samples of the shape the
      parameters describe, provided each fits the dtype. */
  lemma EncodeDecode(p: WavParams, d: Samples)
    requires ValidWidth(p.sampwidth) && Shaped(d, p)
    requires InRange(SampleTypeOf(p.sampwidth).value, Interleaved(p, d))
    ensures Encode(p, d).Ok? && Decode(Encode(p, d).value, p) == Ok(d)
  {
    var t := SampleTypeOf(p.sampwidth).value;
    var flat := Interleaved(p, d);
    var bs := EncodeAll(t, flat);
    DecodeEncodeAll(t, flat);
    MulCancel(|flat|, p.nframes * p.nchannels, t.Width());
    if p.nchannels > 1 {
      ReshapeFlatten(d.rows, p.nframes, p.nchannels);
    }
  }

  /** A crafted 3-byte width is refused, not misread. */
  lemma WidthThreeRejected(frames: seq<byte>, nchannels: nat, nframes: nat)
    ensures Decode(frames, WavParams(nchannels, 3, nframes)) == Err(UnsupportedWidth(3))
  {
  }

  /** Two 16-bit stereo frames, little-endian and two's complement. */
  lemma StereoExample()
    ensures Decode([0x64, 0x00, 0x9c, 0xff, 0x32, 0x00, 0xce, 0xff], WavParams(2, 2, 2))
            == Ok(Frames([[100, -100], [50, -50]]))
  {
    var frames: seq<byte> := [0x64, 0x00, 0x9c, 0xff, 0x32, 0x00, 0xce, 0xff];
    var flat := DecodeAll(Int16, frames);
    StereoExampleSamples();
    assert flat[..2] == [100, -100] && flat[2..] == [50, -50];
    var tail := [50, -50];
    assert tail[..2] == tail && tail[2..] == [];
    assert Reshape(tail, 1, 2) == [tail];
    assert Reshape(flat, 2, 2) == [[100, -100], tail];
  }

  /** The flat samples of the stereo example, one 16-bit sample at a time. */
  lemma StereoExampleSamples()
    ensures DecodeAll(Int16, [0x64, 0x00, 0x9c, 0xff, 0x32, 0x00, 0xce, 0xff]) == [100, -100, 50, -50]
  {
    var t := Int16;
    var s3: seq<byte> := [0xce, 0xff];
    var s2: seq<byte> := [0x32, 0x00] + s3;
    var s1: seq<byte> := [0x9c, 0xff] + s2;
    var s0: seq<byte> := [0x64, 0x00] + s1;
    assert DecodeSample(t, [0x64, 0x00]) == 100;
    assert DecodeSample(t, [0x9c, 0xff]) == -100;
    assert DecodeSample(t, [0x32, 0x00]) == 50;
    assert DecodeSample(t, [0xce, 0xff]) == -50;
    assert s3[..2] == s3 && s3[2..] == [];
    assert DecodeAll(t, s3) == [-50];
    assert s2[..2] == [0x32, 0x00] && s2[2..] == s3;
    assert DecodeAll(t, s2) == [50, -50];
    assert s1[..2] == [0x9c, 0xff] && s1[2..] == s2;
    assert DecodeAll(t, s1) == [-100, 50, -50];
    assert s0[..2] == [0x64, 0x00] && s0[2..] == s1;
    assert s0 == [0x64, 0x00, 0x9c, 0xff, 0x32, 0x00, 0xce, 0xff];
  }

  /** One-byte samples are read as signed int8: the byte 0x80, the silence
      level of unsigned 8-bit WAVE PCM, decodes to -128. */
  lemma SignedEightBit()
    ensures Decode([0x80, 0x7f, 0x00], WavParams(1, 1, 3)) == Ok(Mono([-128, 127, 0]))
  {
    var frames: seq<byte> := [0x80, 0x7f, 0x00];
    assert frames[1..][..1] == [0x7f] && frames[1..][1..] == [0x00];
    assert DecodeAll(Int8, frames) == [-128, 127, 0];
  }
}
