/** Signed two's-complement samples of a fixed width, and the flat sample
    sequence of a data chunk: what `np.frombuffer(frames, dtype)` reads and
    what `ndarray.tobytes()` writes (BiometricWavProcesser.py lines 21 and 51).
    numpy reads in the machine's native order; the model fixes it to
    little-endian, the order the WAVE format prescribes. */
module SampleCodec {
  import opened PcmTypes
  import opened LittleEndian

  /** Every sample lies in the signed range of the dtype. */
  predicate InRange(t: SampleType, xs: seq<int>) {
    forall k :: 0 <= k < |xs| ==> t.Min() <= xs[k] <= t.Max()
  }

  /** One sample: the unsigned little-endian value, read as two's complement. */
  function DecodeSample(t: SampleType, bs: seq<byte>): (x: int)
    requires |bs| == t.Width()
    ensures t.Min() <= x <= t.Max()
    ensures x >= 0 <==> bs[t.Width() - 1] < 0x80
  {
    ModulusIsPow256(t);
    var u := FromLE(bs);
    SignBit(t, bs);
    if u < t.Half() then u else u - t.Modulus()
  }

  /** The top byte alone decides whether the unsigned value reaches half the modulus. */
  lemma SignBit(t: SampleType, bs: seq<byte>)
    requires |bs| == t.Width()
    ensures FromLE(bs) < t.Half() <==> bs[t.Width() - 1] < 0x80
  {
    match t
    case Int8 =>
      assert FromLE(bs) == bs[0];
    case Int16 =>
      assert FromLE(bs[1..]) == bs[1];
    case Int32 =>
      assert FromLE(bs[3..]) == bs[3];
      assert FromLE(bs[2..]) == bs[2] + 0x100 * FromLE(bs[3..]);
      assert FromLE(bs[1..]) == bs[1] + 0x100 * FromLE(bs[2..]);
  }

  /** One sample written in `t.Width()` little-endian bytes.  `tobytes` only
      ever receives values that fit the dtype; the model extends the encoding
      to every integer by two's-complement narrowing, keeping the low bytes. */
  function EncodeSample(t: SampleType, x: int): (bs: seq<byte>)
    ensures |bs| == t.Width()
  {
    ToLE(x % t.Modulus(), t.Width())
  }

  /** Decoding the bytes of an in-range sample gives the sample back. */
  lemma DecodeEncodeSample(t: SampleType, x: int)
    requires t.Min() <= x <= t.Max()
    ensures DecodeSample(t, EncodeSample(t, x)) == x
  {
    ModulusIsPow256(t);
    var m := t.Modulus();
    if x >= 0 {
      ModuloUnique(x, 0, x, m);
    } else {
      ModuloUnique(x, -1, x + m, m);
    }
    FromToLE(x % m, t.Width());
  }

  /** Encoding a decoded sample reproduces its bytes exactly. */
  lemma EncodeDecodeSample(t: SampleType, bs: seq<byte>)
    requires |bs| == t.Width()
    ensures EncodeSample(t, DecodeSample(t, bs)) == bs
  {
    ModulusIsPow256(t);
    var u := FromLE(bs);
    var y := DecodeSample(t, bs);
    if u < t.Half() {
      ModuloUnique(y, 0, u, t.Modulus());
    } else {
      ModuloUnique(y, -1, u, t.Modulus());
    }
    ToFromLE(bs);
  }

  /** An integer outside the range wraps: what is read back is
      ((x + 2^(8w-1)) mod 2^(8w)) - 2^(8w-1), the one value of the dtype's
      range that is congruent to x modulo 2^(8w). */
  lemma EncodeSampleWraps(t: SampleType, x: int)
    ensures DecodeSample(t, EncodeSample(t, x)) == (x + t.Half()) % t.Modulus() - t.Half()
  {
    ModulusIsPow256(t);
    var m, h := t.Modulus(), t.Half();
    var q, u := x / m, x % m;
    assert x == q * m + u;
    FromToLE(u, t.Width());
    if u < h {
      ModuloUnique(x + h, q, u + h, m);
    } else {
      ModuloUnique(x + h, q + 1, u + h - m, m);
    }
  }

  /** Euclidean division has a unique quotient and remainder. */
  lemma ModuloUnique(a: int, q: int, r: int, m: int)
    requires m > 0 && a == q * m + r && 0 <= r < m
    ensures a % m == r && a / m == q
  {
    var q', r' := a / m, a % m;
    assert a == q' * m + r';
    assert (q - q') * m == r' - r;
    if q > q' {
      MulAtLeast(q - q', m);
    } else if q < q' {
      MulAtLeast(q' - q, m);
    }
  }

  /** A positive multiple of a positive number is at least that number. */
  lemma MulAtLeast(d: int, m: int)
    requires d >= 1 && m > 0
    ensures d * m >= m
  {
  }

  /** Multiplying by a natural number preserves order. */
  lemma MulMonotone(a: nat, b: nat, m: nat)
    requires a <= b
    ensures a * m <= b * m
  {
  }

  /** `np.frombuffer`: the buffer cut into consecutive samples. */
  function DecodeAll(t: SampleType, bs: seq<byte>): (xs: seq<int>)
    requires |bs| % t.Width() == 0
    ensures |xs| * t.Width() == |bs|
    ensures InRange(t, xs)
    decreases |bs|
  {
    MultipleOfWidth(t, |bs|);
    if bs == [] then []
    else [DecodeSample(t, bs[..t.Width()])] + DecodeAll(t, bs[t.Width()..])
  }

  /** `tobytes`: the samples' encodings, concatenated in order. */
  function EncodeAll(t: SampleType, xs: seq<int>): (bs: seq<byte>)
    ensures |bs| == |xs| * t.Width()
    ensures |bs| % t.Width() == 0
  {
    if xs == [] then []
    else
      var rest := EncodeAll(t, xs[1..]);
      MultipleOfWidth(t, |rest|);
      EncodeSample(t, xs[0]) + rest
  }

  /** Sample k of the decoded buffer is read from bytes k*w up to (k+1)*w. */
  lemma {:induction false} DecodeAllAt(t: SampleType, bs: seq<byte>, k: nat)
    requires |bs| % t.Width() == 0
    requires k < |DecodeAll(t, bs)|
    ensures (k + 1) * t.Width() <= |bs|
    ensures DecodeAll(t, bs)[k] == DecodeSample(t, bs[k * t.Width()..(k + 1) * t.Width()])
  {
    var w := t.Width();
    var xs := DecodeAll(t, bs);
    MultipleOfWidth(t, |bs|);
    MulMonotone(k + 1, |xs|, w);
    if k > 0 {
      var tail := bs[w..];
      assert xs[k] == DecodeAll(t, tail)[k - 1];
      DecodeAllAt(t, tail, k - 1);
      MulStep(k, w);
      SliceOfTail(bs, w, (k - 1) * w, w);
    }
  }

  /** A slice of a suffix is a slice of the whole sequence, shifted. */
  lemma SliceOfTail<T>(s: seq<T>, d: nat, lo: nat, n: nat)
    requires d + lo + n <= |s|
    ensures s[d..][lo..lo + n] == s[d + lo..d + lo + n]
  {
  }

  /** One more factor adds one more `m`. */
  lemma MulStep(k: int, m: int)
    ensures k * m == (k - 1) * m + m && (k + 1) * m == k * m + m
  {
  }

  /** Decoding the encoding of in-range samples returns the samples. */
  lemma {:induction false} DecodeEncodeAll(t: SampleType, xs: seq<int>)
    requires InRange(t, xs)
    ensures DecodeAll(t, EncodeAll(t, xs)) == xs
  {
    if xs != [] {
      var bs := EncodeAll(t, xs);
      var rest := EncodeAll(t, xs[1..]);
      MultipleOfWidth(t, |rest|);
      assert bs[..t.Width()] == EncodeSample(t, xs[0]);
      assert bs[t.Width()..] == rest;
      DecodeEncodeSample(t, xs[0]);
      DecodeEncodeAll(t, xs[1..]);
    }
  }

  /** Encoding the decoding of any well-sized buffer returns the buffer. */
  lemma {:induction false} EncodeDecodeAll(t: SampleType, bs: seq<byte>)
    requires |bs| % t.Width() == 0
    ensures EncodeAll(t, DecodeAll(t, bs)) == bs
    decreases |bs|
  {
    var w := t.Width();
    MultipleOfWidth(t, |bs|);
    if bs != [] {
      var head, tail := bs[..w], bs[w..];
      var x, ys := DecodeSample(t, head), DecodeAll(t, tail);
      assert DecodeAll(t, bs) == [x] + ys;
      EncodeDecodeSample(t, head);
      EncodeDecodeAll(t, tail);
      EncodeAllCons(t, x, ys);
      assert bs == head + tail;
    }
  }

  /** Encoding one more leading sample prepends its bytes. */
  lemma EncodeAllCons(t: SampleType, x: int, xs: seq<int>)
    ensures EncodeAll(t, [x] + xs) == EncodeSample(t, x) + EncodeAll(t, xs)
  {
    assert ([x] + xs)[1..] == xs;
  }
}
