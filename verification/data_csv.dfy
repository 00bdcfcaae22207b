/** `read_data_csv`: the numbers of the file (as `np.genfromtxt` reads them,
    one row per line) are flattened row by row (`np.ravel`) and read two at a
    time as complex samples (`.view(dtype='c16')`): element `k` is
    `flat[2k] + flat[2k+1] j`. */
module DataCsv {
  import opened Common
  import Spectrogram

  /** `.view(dtype='c16')` of a flat array of doubles: consecutive pairs,
      real part first. An odd count of doubles cannot be viewed as complex
      numbers and raises. */
  function Pairs(flat: seq<real>): (r: Result<seq<Complex>>)
    ensures r.Ok? <==> |flat| % 2 == 0
    ensures r.Err? ==> r.error == OddLength(|flat|)
    ensures r.Ok? ==> 2 * |r.value| == |flat|
    ensures r.Ok? ==> forall k :: 0 <= k < |r.value| ==> r.value[k] == Complex(flat[2 * k], flat[2 * k + 1])
    decreases |flat|
  {
    if |flat| % 2 != 0 then Err(OddLength(|flat|))
    else if |flat| == 0 then Ok([])
    else
      var rest := Pairs(flat[2..]).value;
      assert forall k :: 1 <= k < 1 + |rest| ==> flat[2..][2 * (k - 1)] == flat[2 * k];
      Ok([Complex(flat[0], flat[1])] + rest)
  }

  /** The doubles of complex samples in memory order: real, imaginary, real, ... */
  function Interleave(cx: seq<Complex>): (r: seq<real>)
    ensures |r| == 2 * |cx|
    decreases |cx|
  {
    if |cx| == 0 then [] else [cx[0].re, cx[0].im] + Interleave(cx[1..])
  }

  /** Viewing the doubles of complex samples as complex gives the samples back. */
  lemma {:induction false} PairsInterleave(cx: seq<Complex>)
    ensures Pairs(Interleave(cx)) == Ok(cx)
    decreases |cx|
  {
    if |cx| > 0 {
      PairsInterleave(cx[1..]);
      var flat := Interleave(cx);
      assert flat[2..] == Interleave(cx[1..]);
      assert cx == [cx[0]] + cx[1..];
    }
  }

  /** An even number of doubles viewed as complex and written back out is unchanged. */
  lemma {:induction false} InterleavePairs(flat: seq<real>)
    requires |flat| % 2 == 0
    ensures Interleave(Pairs(flat).value) == flat
    decreases |flat|
  {
    if |flat| > 0 {
      InterleavePairs(flat[2..]);
      var cx := Pairs(flat).value;
      assert cx[1..] == Pairs(flat[2..]).value;
      assert flat == [flat[0], flat[1]] + flat[2..];
    }
  }

  /** `read_data_csv` on the rows `np.genfromtxt` read. */
  function ReadDataCsv(rows: seq<seq<real>>): Result<seq<Complex>>
  {
    Pairs(Spectrogram.Flatten(rows))
  }

  /** A file of rows `I,Q` (two numbers per line) reads as one sample per line. */
  lemma {:induction false} RowsOfPairs(rows: seq<seq<real>>)
    requires forall i :: 0 <= i < |rows| ==> |rows[i]| == 2
    ensures ReadDataCsv(rows).Ok?
    ensures |ReadDataCsv(rows).value| == |rows|
    ensures forall i :: 0 <= i < |rows| ==> ReadDataCsv(rows).value[i] == Complex(rows[i][0], rows[i][1])
    decreases |rows|
  {
    if |rows| > 0 {
      RowsOfPairs(rows[1..]);
      var flat := Spectrogram.Flatten(rows);
      assert flat == rows[0] + Spectrogram.Flatten(rows[1..]);
      assert flat[2..] == Spectrogram.Flatten(rows[1..]);
      var r := ReadDataCsv(rows).value;
      assert r[1..] == ReadDataCsv(rows[1..]).value;
      forall i | 0 <= i < |rows|
        ensures r[i] == Complex(rows[i][0], rows[i][1])
      {
        if i > 0 {
          assert r[i] == r[1..][i - 1];
        }
      }
    }
  }
}
