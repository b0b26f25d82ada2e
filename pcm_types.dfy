/** Bytes, the failures of the PCM codec, and the sample-width table that
    BiometricWavProcesser.py uses both when it decodes the data chunk
    (perform_fft) and when it narrows the reconstructed signal (perform_ifft). */
module PcmTypes {

  /** One octet of a WAVE data chunk. */
  type byte = b: int | 0 <= b < 0x100

  /** The exceptions the codec can raise. */
  datatype Error =
    | UnsupportedWidth(width: int)                    // KeyError from the width table
    | BufferNotMultiple(length: nat, itemsize: nat) // ValueError from np.frombuffer
    | ShapeMismatch(size: nat, rows: nat, cols: nat)  // ValueError from reshape

  datatype Result<+T> = Ok(value: T) | Err(error: Error)

  /** 256 to the power n: the number of distinct n-byte strings. */
  function Pow256(n: nat): (p: nat)
    ensures p >= 1
  {
    if n == 0 then 1 else 0x100 * Pow256(n - 1)
  }

  /** 2 to the power n. */
  function Pow2(n: nat): (p: nat)
    ensures p >= 1
  {
    if n == 0 then 1 else 2 * Pow2(n - 1)
  }

  /** The signed numpy dtypes the width table can select. */
  datatype SampleType = Int8 | Int16 | Int32 {

    /** Bytes per sample (numpy's itemsize). */
    function Width(): nat {
      match this
      case Int8 => 1
      case Int16 => 2
      case Int32 => 4
    }

    /** Number of distinct values of the dtype, 2^(8 * Width()). */
    function Modulus(): nat {
      match this
      case Int8 => 0x100
      case Int16 => 0x1_0000
      case Int32 => 0x1_0000_0000
    }

    /** Half the modulus: the first unsigned pattern read as negative. */
    function Half(): nat {
      match this
      case Int8 => 0x80
      case Int16 => 0x8000
      case Int32 => 0x8000_0000
    }

    /** Least value of the dtype. */
    function Min(): int { -(Half() as int) }

    /** Greatest value of the dtype. */
    function Max(): int { Half() as int - 1 }
  }

  /** The widths the table {1: int8, 2: int16, 4: int32} has a key for. */
  predicate ValidWidth(width: int) {
    width == 1 || width == 2 || width == 4
  }

  /** The dict lookup `{1: np.int8, 2: np.int16, 4: np.int32}[sampwidth]`:
      a dtype for the three keys, a KeyError for any other width. */
  function SampleTypeOf(width: int): (r: Result<SampleType>)
    ensures r.Ok? <==> ValidWidth(width)
    ensures r.Ok? ==> r.value.Width() == width
    ensures r.Err? ==> r.error == UnsupportedWidth(width)
  {
    if width == 1 then Ok(Int8)
    else if width == 2 then Ok(Int16)
    else if width == 4 then Ok(Int32)
    else Err(UnsupportedWidth(width))
  }

  /** Eight doublings make one factor of 256. */
  lemma {:induction false} Pow2Bytes(n: nat)
    ensures Pow2(8 * n) == Pow256(n)
  {
    if n > 0 {
      Pow2Bytes(n - 1);
      var k := 8 * (n - 1);
      calc {
        Pow2(k + 8);
        2 * Pow2(k + 7);
        4 * Pow2(k + 6);
        8 * Pow2(k + 5);
        16 * Pow2(k + 4);
        32 * Pow2(k + 3);
        64 * Pow2(k + 2);
        128 * Pow2(k + 1);
        256 * Pow2(k);
        0x100 * Pow256(n - 1);
      }
    }
  }

  /** The modulus of each dtype is 256^w and twice its half. */
  lemma ModulusIsPow256(t: SampleType)
    ensures t.Modulus() == Pow256(t.Width()) && t.Modulus() == 2 * t.Half()
  {
    match t
    case Int8 =>
      assert Pow256(1) == 0x100;
    case Int16 =>
      assert Pow256(2) == 0x1_0000;
    case Int32 =>
      assert Pow256(4) == 0x100 * Pow256(3) == 0x1_0000_0000;
  }

  /** The dtype constants agree with the general formulas: the modulus is
      256^w, and the signed range is [-2^(8w-1), 2^(8w-1) - 1]. */
  lemma SignedRange(t: SampleType)
    ensures t.Modulus() == Pow256(t.Width())
    ensures t.Half() == Pow2(8 * t.Width() - 1)
    ensures t.Modulus() == 2 * t.Half()
    ensures t.Min() == -(Pow2(8 * t.Width() - 1) as int) && t.Max() == Pow2(8 * t.Width() - 1) - 1
  {
    Pow2Bytes(t.Width());
    ModulusIsPow256(t);
    assert Pow2(8 * t.Width()) == 2 * Pow2(8 * t.Width() - 1);
  }

  /** Divisibility by a sample width, one sample at a time. */
  lemma MultipleOfWidth(t: SampleType, n: nat)
    ensures n % t.Width() == 0 && n > 0 ==> n >= t.Width() && (n - t.Width()) % t.Width() == 0
    ensures n % t.Width() == 0 ==> (n + t.Width()) % t.Width() == 0
  {
    match t
    case Int8 =>
    case Int16 =>
    case Int32 =>
  }
}
