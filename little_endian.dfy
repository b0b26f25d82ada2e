/** Unsigned little-endian integers: the byte order of every multi-byte
    sample in a WAVE data chunk. */
module LittleEndian {
  import opened PcmTypes

  /** The unsigned value of `bs`, least significant byte first. */
  function FromLE(bs: seq<byte>): (v: nat)
    ensures v < Pow256(|bs|)
  {
    if bs == [] then 0 else bs[0] + 0x100 * FromLE(bs[1..])
  }

  /** The low `n` bytes of `v`, least significant first. */
  function ToLE(v: nat, n: nat): (bs: seq<byte>)
    ensures |bs| == n
  {
    if n == 0 then [] else [v % 0x100] + ToLE(v / 0x100, n - 1)
  }

  /** Reading back the bytes of a value that fits in `n` bytes gives the value. */
  lemma {:induction false} FromToLE(v: nat, n: nat)
    requires v < Pow256(n)
    ensures FromLE(ToLE(v, n)) == v
  {
    if n > 0 {
      var bs := ToLE(v, n);
      assert Pow256(n) == 0x100 * Pow256(n - 1);
      assert v / 0x100 < Pow256(n - 1);
      FromToLE(v / 0x100, n - 1);
      assert bs[0] == v % 0x100 && bs[1..] == ToLE(v / 0x100, n - 1);
    }
  }

  /** Writing the value of a byte string in as many bytes gives the string back. */
  lemma {:induction false} ToFromLE(bs: seq<byte>)
    ensures ToLE(FromLE(bs), |bs|) == bs
  {
    if bs != [] {
      var v := FromLE(bs);
      ToFromLE(bs[1..]);
      assert v % 0x100 == bs[0] && v / 0x100 == FromLE(bs[1..]);
      assert bs == [bs[0]] + bs[1..];
    }
  }
}
