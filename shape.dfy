/** The two shapes a decoded data chunk takes: the flat, interleaved sample
    sequence, and the frames x channels matrix that `reshape` builds from it
    (BiometricWavProcesser.py line 23) and `flatten` undoes (line 50).
    Both follow numpy's default C order: a row is one frame, its entries the
    channels in order. */
module Shape {

  /** `m` is a rectangular matrix with `rows` rows of `cols` entries. */
  predicate IsMatrix(m: seq<seq<int>>, rows: nat, cols: nat) {
    |m| == rows && forall i :: 0 <= i < |m| ==> |m[i]| == cols
  }

  /** `flat.reshape((rows, cols))`: consecutive runs of `cols` samples become rows. */
  function Reshape(flat: seq<int>, rows: nat, cols: nat): (m: seq<seq<int>>)
    requires |flat| == rows * cols
    ensures IsMatrix(m, rows, cols)
    decreases rows
  {
    if rows == 0 then []
    else
      MulPred(rows, cols);
      [flat[..cols]] + Reshape(flat[cols..], rows - 1, cols)
  }

  /** `m.flatten()`: the rows laid end to end.  Every entry of every row
      appears in the result, and nothing else does. */
  function Flatten(m: seq<seq<int>>): (flat: seq<int>)
    ensures forall i, x :: 0 <= i < |m| && x in m[i] ==> x in flat
    ensures forall x :: x in flat ==> exists i :: 0 <= i < |m| && x in m[i]
  {
    if m == [] then [] else m[0] + Flatten(m[1..])
  }

  /** One factor fewer removes one `cols`. */
  lemma MulPred(rows: nat, cols: nat)
    requires rows > 0
    ensures rows * cols == (rows - 1) * cols + cols
    ensures (rows - 1) * cols >= 0
  {
  }

  /** A matrix of `rows` rows of `cols` entries flattens to `rows * cols` samples. */
  lemma {:induction false} FlattenLength(m: seq<seq<int>>, rows: nat, cols: nat)
    requires IsMatrix(m, rows, cols)
    ensures |Flatten(m)| == rows * cols
  {
    if rows > 0 {
      FlattenLength(m[1..], rows - 1, cols);
      MulPred(rows, cols);
    }
  }

  /** Row i, column c of the reshaped matrix is flat sample i * cols + c. */
  lemma {:induction false} ReshapeAt(flat: seq<int>, rows: nat, cols: nat, i: nat, c: nat)
    requires |flat| == rows * cols
    requires i < rows && c < cols
    ensures i * cols + c < |flat|
    ensures Reshape(flat, rows, cols)[i][c] == flat[i * cols + c]
  {
    MulPred(rows, cols);
    var m := Reshape(flat, rows, cols);
    var tail := flat[cols..];
    assert m[0] == flat[..cols] && m[1..] == Reshape(tail, rows - 1, cols);
    if i > 0 {
      ReshapeAt(tail, rows - 1, cols, i - 1, c);
      MulPred(i, cols);
      assert m[i][c] == tail[(i - 1) * cols + c];
    }
  }

  /** Flattening a reshaped sequence gives the sequence back. */
  lemma {:induction false} FlattenReshape(flat: seq<int>, rows: nat, cols: nat)
    requires |flat| == rows * cols
    ensures Flatten(Reshape(flat, rows, cols)) == flat
    decreases rows
  {
    if rows > 0 {
      MulPred(rows, cols);
      var m := Reshape(flat, rows, cols);
      assert m[0] == flat[..cols] && m[1..] == Reshape(flat[cols..], rows - 1, cols);
      FlattenReshape(flat[cols..], rows - 1, cols);
      assert flat == flat[..cols] + flat[cols..];
    }
  }

  /** Reshaping a flattened matrix gives the matrix back. */
  lemma {:induction false} ReshapeFlatten(m: seq<seq<int>>, rows: nat, cols: nat)
    requires IsMatrix(m, rows, cols)
    ensures |Flatten(m)| == rows * cols
    ensures Reshape(Flatten(m), rows, cols) == m
    decreases rows
  {
    FlattenLength(m, rows, cols);
    if rows > 0 {
      var flat := Flatten(m);
      assert flat[..cols] == m[0] && flat[cols..] == Flatten(m[1..]);
      ReshapeFlatten(m[1..], rows - 1, cols);
      assert m == [m[0]] + m[1..];
    }
  }

  /** Entry (i, c) of a matrix is sample i * cols + c of its flattening:
      the interleaving that `flatten` writes. */
  lemma FlattenAt(m: seq<seq<int>>, rows: nat, cols: nat, i: nat, c: nat)
    requires IsMatrix(m, rows, cols)
    requires i < rows && c < cols
    ensures i * cols + c < |Flatten(m)|
    ensures Flatten(m)[i * cols + c] == m[i][c]
  {
    ReshapeFlatten(m, rows, cols);
    ReshapeAt(Flatten(m), rows, cols, i, c);
  }
}
