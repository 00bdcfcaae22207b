/** The complex spectrogram pair `get_cplx_spectrogram` /
    `get_inv_cplx_spectrogram`: a row-major reshape of the signal into frames,
    a per-frame transform, and the flattening that undoes the reshape. The
    transforms (`np.fft.fft` and `np.fft.ifft` along axis 1) are parameters. */
module Spectrogram {
  import opened Common

  /** `m` has `rows` rows of `cols` elements each. */
  predicate IsShape<T>(m: seq<seq<T>>, rows: nat, cols: nat)
  {
    |m| == rows && forall i :: 0 <= i < |m| ==> |m[i]| == cols
  }

  lemma MulStep(i: nat, c: nat)
    ensures (i + 1) * c == i * c + c
  {
  }

  /** The rows of `x`, `cols` elements at a time. */
  function Rows<T>(x: seq<T>, rows: nat, cols: nat): (m: seq<seq<T>>)
    requires |x| == rows * cols
    ensures IsShape(m, rows, cols)
    decreases rows
  {
    if rows == 0 then []
    else
      MulStep(rows - 1, cols);
      [x[..cols]] + Rows(x[cols..], rows - 1, cols)
  }

  /** Row `i` of the rows of `x` is the slice from `i * cols` to `(i + 1) * cols`. */
  lemma {:induction false} RowsSlice<T>(x: seq<T>, rows: nat, cols: nat)
    requires |x| == rows * cols
    ensures forall i :: 0 <= i < rows ==>
      i * cols + cols <= |x| && Rows(x, rows, cols)[i] == x[i * cols..i * cols + cols]
    decreases rows
  {
    if rows > 0 {
      MulStep(rows - 1, cols);
      RowsSlice(x[cols..], rows - 1, cols);
      var m := Rows(x, rows, cols);
      forall i | 0 <= i < rows
        ensures i * cols + cols <= |x| && m[i] == x[i * cols..i * cols + cols]
      {
        if i > 0 {
          MulStep(i - 1, cols);
          assert m[i] == Rows(x[cols..], rows - 1, cols)[i - 1];
        }
      }
    }
  }

  /** The rows of `m` one after the other (row-major order). */
  function Flatten<T>(m: seq<seq<T>>): seq<T>
    decreases |m|
  {
    if |m| == 0 then [] else m[0] + Flatten(m[1..])
  }

  /** Read in order, the rows of `x` are `x`. */
  lemma {:induction false} FlattenRows<T>(x: seq<T>, rows: nat, cols: nat)
    requires |x| == rows * cols
    ensures Flatten(Rows(x, rows, cols)) == x
    decreases rows
  {
    if rows > 0 {
      MulStep(rows - 1, cols);
      FlattenRows(x[cols..], rows - 1, cols);
      assert Rows(x, rows, cols)[1..] == Rows(x[cols..], rows - 1, cols);
      assert x[..cols] + x[cols..] == x;
    }
  }

  /** `np.reshape(x, (rows, cols))`, which raises unless the sizes agree; the
      rows of the result, read in order, are `x`. */
  function Reshape<T>(x: seq<T>, rows: nat, cols: nat): (r: Result<seq<seq<T>>>)
    ensures r.Ok? <==> |x| == rows * cols
    ensures r.Err? ==> r.error == ShapeMismatch(|x|, rows, cols)
    ensures r.Ok? ==> IsShape(r.value, rows, cols) && Flatten(r.value) == x
  {
    if |x| != rows * cols then Err(ShapeMismatch(|x|, rows, cols))
    else
      FlattenRows(x, rows, cols);
      Ok(Rows(x, rows, cols))
  }

  /** Row `i`, column `j` of a reshape holds `x[i * cols + j]`. */
  lemma ReshapeAt<T>(x: seq<T>, rows: nat, cols: nat)
    requires |x| == rows * cols
    ensures forall i :: 0 <= i < rows ==>
      i * cols + cols <= |x| && Reshape(x, rows, cols).value[i] == x[i * cols..i * cols + cols]
    ensures forall i, j :: 0 <= i < rows && 0 <= j < cols ==>
      i * cols + j < |x| && Reshape(x, rows, cols).value[i][j] == x[i * cols + j]
  {
    RowsSlice(x, rows, cols);
  }

  /** A `rows` by `cols` matrix flattens to `rows * cols` elements. */
  lemma {:induction false} FlattenLength<T>(m: seq<seq<T>>, rows: nat, cols: nat)
    requires IsShape(m, rows, cols)
    ensures |Flatten(m)| == rows * cols
    decreases rows
  {
    if rows > 0 {
      MulStep(rows - 1, cols);
      FlattenLength(m[1..], rows - 1, cols);
    }
  }

  /** Two matrices of the same shape with the same flattening are equal. */
  lemma {:induction false} FlattenInjective<T>(a: seq<seq<T>>, b: seq<seq<T>>, rows: nat, cols: nat)
    requires IsShape(a, rows, cols) && IsShape(b, rows, cols)
    requires Flatten(a) == Flatten(b)
    ensures a == b
    decreases rows
  {
    if rows > 0 {
      var fa, fb := Flatten(a), Flatten(b);
      assert a[0] == fa[..cols];
      assert b[0] == fb[..cols];
      assert Flatten(a[1..]) == fa[cols..];
      assert Flatten(b[1..]) == fb[cols..];
      FlattenInjective(a[1..], b[1..], rows - 1, cols);
      assert a == [a[0]] + a[1..];
      assert b == [b[0]] + b[1..];
    }
  }

  /** Reshaping a flattened `rows` by `cols` matrix gives the matrix back. */
  lemma ReshapeFlatten<T>(m: seq<seq<T>>, rows: nat, cols: nat)
    requires IsShape(m, rows, cols)
    ensures Reshape(Flatten(m), rows, cols) == Ok(m)
  {
    FlattenLength(m, rows, cols);
    var r := Reshape(Flatten(m), rows, cols).value;
    FlattenInjective(r, m, rows, cols);
  }

  /** A transform applied to every row (`axis=1`). */
  function MapRows(m: seq<seq<Complex>>, f: seq<Complex> -> seq<Complex>): (r: seq<seq<Complex>>)
    ensures |r| == |m| && forall i :: 0 <= i < |m| ==> r[i] == f(m[i])
  {
    seq(|m|, i requires 0 <= i < |m| => f(m[i]))
  }

  /** `get_cplx_spectrogram(x, nframes, lframes)`: the reshape raises unless
      the signal has `nframes * lframes` samples, and the transform along
      axis 1 raises when the frames have no samples. */
  function Forward(x: seq<Complex>, nframes: nat, lframes: nat, fft: seq<Complex> -> seq<Complex>)
    : Result<seq<seq<Complex>>>
  {
    var frames :- Reshape(x, nframes, lframes);
    if lframes == 0 then Err(NoFftPoints(0)) else Ok(MapRows(frames, fft))
  }

  /** `get_inv_cplx_spectrogram(zz, nframes, lframes)` on a two-dimensional
      array `zz` with rows of `width` entries: transform every row (which
      raises when the rows are empty), then
      `np.reshape(_, (1, nframes * lframes))[0]`, which raises unless the total
      size is `nframes * lframes`. */
  function Inverse(zz: seq<seq<Complex>>, width: nat, nframes: nat, lframes: nat,
                   ifft: seq<Complex> -> seq<Complex>): Result<seq<Complex>>
    requires IsShape(zz, |zz|, width)
  {
    if width == 0 then Err(NoFftPoints(0))
    else
      var flat := Flatten(MapRows(zz, ifft));
      if |flat| != nframes * lframes then Err(ShapeMismatch(|flat|, 1, nframes * lframes))
      else Ok(flat)
  }

  /** The forward spectrogram raises for a signal of the wrong length, and for
      frames of no samples; otherwise frame `i` is the transform of the
      `lframes` samples from `i * lframes` on. */
  lemma ForwardFrames(x: seq<Complex>, nframes: nat, lframes: nat, fft: seq<Complex> -> seq<Complex>)
    ensures Forward(x, nframes, lframes, fft).Ok? <==> |x| == nframes * lframes && lframes > 0
    ensures |x| != nframes * lframes ==>
      Forward(x, nframes, lframes, fft) == Err(ShapeMismatch(|x|, nframes, lframes))
    ensures |x| == nframes * lframes && lframes == 0 ==>
      Forward(x, nframes, lframes, fft) == Err(NoFftPoints(0))
    ensures Forward(x, nframes, lframes, fft).Ok? ==>
      var zz := Forward(x, nframes, lframes, fft).value;
      && |zz| == nframes
      && forall i :: 0 <= i < nframes ==>
           i * lframes + lframes <= |x| && zz[i] == fft(x[i * lframes..i * lframes + lframes])
  {
    if |x| == nframes * lframes {
      ReshapeAt(x, nframes, lframes);
    }
  }

  /** When the transform keeps the length of a frame of `lframes > 0` samples
      and the inverse transform undoes it, the spectrogram is an `nframes` by
      `lframes` array and its inverse spectrogram is the signal. */
  lemma RoundTrip(x: seq<Complex>, nframes: nat, lframes: nat,
                  fft: seq<Complex> -> seq<Complex>, ifft: seq<Complex> -> seq<Complex>)
    requires |x| == nframes * lframes && lframes > 0
    requires forall row :: |row| == lframes ==> |fft(row)| == lframes && ifft(fft(row)) == row
    ensures Forward(x, nframes, lframes, fft).Ok?
    ensures IsShape(Forward(x, nframes, lframes, fft).value, nframes, lframes)
    ensures Inverse(Forward(x, nframes, lframes, fft).value, lframes, nframes, lframes, ifft) == Ok(x)
  {
    var m := Reshape(x, nframes, lframes).value;
    var zz := MapRows(m, fft);
    var back := MapRows(zz, ifft);
    assert forall i :: 0 <= i < |m| ==> back[i] == ifft(fft(m[i]));
    assert back == m;
  }
}
