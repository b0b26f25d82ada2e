# PCM sample codec of the Biometric WAV processor

`BiometricWavProcesser.py` reads a WAV file, scales the magnitude of its
spectrum and writes the result back with the original format parameters.
Around the numerics sits a small serialiser/deserialiser for the linear PCM
data chunk of a RIFF WAVE file, and that codec is what this project models
and proves things about:

- **Decode** (`perform_fft`, lines 16-23): pick a signed numpy dtype from the
  sample width through the partial table `{1: int8, 2: int16, 4: int32}`,
  reinterpret the data-chunk bytes as a flat array of little-endian
  two's-complement integers of that width (`np.frombuffer`), and, when there
  is more than one channel, reshape it into `nframes` rows of `nchannels`
  columns in interleaved (C) order.
- **Encode** (`perform_ifft` line 41 and `reconstruct_wav` lines 49-51): the
  same width table picks the output dtype; a matrix is flattened back to
  interleaved order and each sample is written as `sampwidth` little-endian
  bytes (`tobytes`).

Modules, one per layer of the codec:

- `PcmTypes` (`pcm_types.dfy`): bytes, the three failures (the `KeyError` of
  the width table, the `ValueError` of `np.frombuffer` when the buffer is not
  a whole number of samples, the `ValueError` of `reshape` when the sample
  count is not `nframes * nchannels`), the dtypes and the width table.
- `LittleEndian` (`little_endian.dfy`): unsigned little-endian numbers.
- `SampleCodec` (`sample_codec.dfy`): one signed sample and the flat sample
  array, in both directions.
- `Shape` (`shape.dfy`): `reshape` and `flatten`.
- `WavCodec` (`wav_codec.dfy`): the decode and encode steps as the script
  performs them, and the round trips between them.

The code reads one-byte samples as signed `int8` (line 20), although 8-bit
PCM in the WAVE format is unsigned with silence at 0x80. The model does what
the code does; `WavCodec.SignedEightBit` shows the byte 0x80 decoding to -128.

A channel count of 0 is decoded like a count of 1, as a flat array, because
the code only tests `nchannels > 1` (line 22); the `wave` module refuses such
files before the codec runs.

numpy reads and writes in the machine's native byte order; the model fixes it
to little-endian, the order of the WAVE format and of the machines the script
targets (the comment at line 38 says "little endian").

## Model

| member | source | states |
|---|---|---|
| `PcmTypes.SampleTypeOf` | BiometricWavProcesser.py:20 | the width table yields a dtype exactly for widths 1, 2 and 4, whose itemsize equals the width; every other width (3, say) fails with an unsupported-width error |
| `PcmTypes.SignedRange` | BiometricWavProcesser.py:20 | the dtype of width w spans 2^(8w) values and its range is [-2^(8w-1), 2^(8w-1) - 1] |
| `LittleEndian.FromLE` | BiometricWavProcesser.py:21 | an n-byte little-endian number is below 256^n |
| `LittleEndian.ToLE` | BiometricWavProcesser.py:51 | a value written little-endian in n bytes occupies exactly n bytes |
| `LittleEndian.FromToLE` | BiometricWavProcesser.py:51 | reading back the n little-endian bytes of a value below 256^n gives the value |
| `LittleEndian.ToFromLE` | BiometricWavProcesser.py:21 | writing the value of a byte string in as many bytes gives the string back |
| `SampleCodec.DecodeSample` | BiometricWavProcesser.py:21 | a decoded sample lies in the signed range of its dtype, and is negative exactly when the top bit of its last (most significant) byte is set |
| `SampleCodec.EncodeSample` | BiometricWavProcesser.py:51 | each sample is written as exactly w bytes (what they hold is stated by `DecodeEncodeSample` and `EncodeSampleWraps`) |
| `SampleCodec.DecodeEncodeSample` | BiometricWavProcesser.py:51 | decoding the bytes written for an in-range sample returns the sample |
| `SampleCodec.EncodeDecodeSample` | BiometricWavProcesser.py:21 | writing a decoded sample reproduces its w bytes |
| `SampleCodec.EncodeSampleWraps` | BiometricWavProcesser.py:51 | the model extends the sample encoding of line 51, which only ever receives values that fit the dtype, to every integer by two's-complement narrowing: an integer x reads back as ((x + 2^(8w-1)) mod 2^(8w)) - 2^(8w-1), the value of the range congruent to x, and so as x itself when x is in range |
| `SampleCodec.DecodeAll` | BiometricWavProcesser.py:21 | `np.frombuffer` of a buffer whose length is a multiple of w yields len/w samples, each in the dtype's signed range |
| `SampleCodec.EncodeAll` | BiometricWavProcesser.py:51 | `tobytes` of n samples of width w yields n*w bytes, a whole number of samples |
| `SampleCodec.DecodeAllAt` | BiometricWavProcesser.py:21 | flat sample k is read from bytes k*w up to (k+1)*w |
| `SampleCodec.DecodeEncodeAll` | BiometricWavProcesser.py:51 | decoding the encoding of in-range samples returns the samples |
| `SampleCodec.EncodeDecodeAll` | BiometricWavProcesser.py:21 | encoding the decoding of any buffer whose length is a multiple of w returns the buffer |
| `Shape.Reshape` | BiometricWavProcesser.py:23 | `reshape((rows, cols))` of rows*cols samples is a matrix of `rows` rows of `cols` entries |
| `Shape.ReshapeAt` | BiometricWavProcesser.py:22-23 | row i, column c of the reshaped matrix is flat sample i*cols + c |
| `Shape.Flatten` | BiometricWavProcesser.py:50 | `flatten` keeps exactly the matrix's entries: every entry of every row appears in the result and nothing else does (its length, index map and inverse are stated by `FlattenLength`, `FlattenAt`, `FlattenReshape` and `ReshapeFlatten`) |
| `Shape.FlattenLength` | BiometricWavProcesser.py:50 | flattening a rows x cols matrix gives rows*cols samples |
| `Shape.FlattenReshape` | BiometricWavProcesser.py:49-50 | flatten after reshape is the identity on the interleaved sequence |
| `Shape.ReshapeFlatten` | BiometricWavProcesser.py:23 | reshape after flatten is the identity on a rows x cols matrix |
| `Shape.FlattenAt` | BiometricWavProcesser.py:50 | entry (i, c) of a matrix lands at flat index i*cols + c |
| `WavCodec.Interleaved` | BiometricWavProcesser.py:49-51 | the sample order `tobytes` writes: a flat array unchanged, and, with several channels, a matrix shaped as the parameters say becomes nframes*nchannels samples in C order (entry (i, c) at index i*nchannels + c by `FlattenAt`), whether or not `flatten` is called first |
| `WavCodec.Decode` | BiometricWavProcesser.py:16-23 | decoding fails with the width error exactly for widths outside the table, with the buffer error when the length is not a multiple of the width, with the shape error carrying the sample count, nframes and nchannels when several channels do not give nframes*nchannels samples; it succeeds exactly otherwise, yields a flat array for one channel and an nframes x nchannels matrix for several, and read in interleaved order the result is the flat decode of the buffer |
| `WavCodec.Encode` | BiometricWavProcesser.py:41-51 | encoding fails, with the width error, exactly for widths outside the table, and otherwise writes sampwidth bytes per sample |
| `WavCodec.SameWidthTable` | BiometricWavProcesser.py:41 | encoding rejects exactly the widths that decoding rejects |
| `WavCodec.DecodeFrameAt` | BiometricWavProcesser.py:21-23 | with several channels, decoded row i, column c is the sample at bytes (i*nchannels + c)*w up to the next sample |
| `WavCodec.PayloadLength` | BiometricWavProcesser.py:49-52 | a matrix of nframes frames of nchannels samples is written as exactly nframes*nchannels*sampwidth bytes |
| `WavCodec.DecodeEncode` | BiometricWavProcesser.py:51 | re-encoding any successfully decoded data chunk reproduces it byte for byte |
| `WavCodec.EncodeDecode` | BiometricWavProcesser.py:49-51 | decoding the encoding of in-range samples shaped as the parameters say gives the samples back |
| `WavCodec.WidthThreeRejected` | BiometricWavProcesser.py:20 | a format claiming 3-byte samples is refused, not misread |
| `WavCodec.StereoExample` | BiometricWavProcesser.py:20-23 | two 16-bit stereo frames decode to the 2 x 2 matrix [[100, -100], [50, -50]] |
| `WavCodec.SignedEightBit` | BiometricWavProcesser.py:20 | one-byte samples are signed: 0x80, 0x7f, 0x00 decode to -128, 127, 0 |

## Left out

- `extract_wav_header` (lines 7-11) and the `wave.open`, `setparams` and `writeframes` calls of `reconstruct_wav` (lines 47-48, 52): file I/O through the `wave` module. The model starts from the data-chunk bytes and the parameter values and ends with the bytes to be written.
- The parameter fields the codec does not read (frame rate, compression type and name): `setparams` copies them verbatim, so they have no effect on the payload.
- `np.fft.fft`, `np.fft.ifft` and `.real` (lines 26, 40) and `modify_magnitude` (lines 31-35): floating-point complex numerics inside numpy.
- The float-to-integer conversion done by `astype` (line 41): only its width lookup is modelled; numpy's conversion of out-of-range floats depends on the platform.
- `print_dft_magnitude` and `print_idft_data` (lines 56-65): console output only.
- `process_wav` (lines 69-76) and the script at lines 80-85: they only chain the steps with hard-coded file names and factor.
- The `nchannels > 1` test of `reconstruct_wav` (line 49) is not modelled as a branch: `tobytes` writes in C order, so a matrix gives the same bytes flattened or not, and `WavCodec.Interleaved` always lays a matrix out in that order.
- Native byte order: numpy uses the machine's order; the model fixes little-endian.
