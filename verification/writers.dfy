/** `write_signal_to_bin` and `write_signal_to_csv`. Both put
    `complex(fs, center)` in front of the samples: the binary writer only when
    `write_header` is set, the text writer always. The binary file holds each
    sample as two 32-bit floats, real part first (`astype(np.complex64)` then
    `tofile`); the text file holds one line `<re>|<im>` per sample. The float32
    encoding of a number is the parameter `enc`, Python's rendering of a float
    the parameter `show`. `np.insert` converts the header to the dtype of `cx`;
    the conversion of one part is the parameter `cast`: the identity for
    complex128, rounding to float32 for complex64. */
module Writers {
  import opened Common
  import opened Text
  import DataCsv

  /** The four bytes of a float32, in file order. */
  datatype Word = Word(b0: bv8, b1: bv8, b2: bv8, b3: bv8)

  /** `np.insert(cx, 0, complex(fs, center))` when `header` is set, else `cx`;
      the inserted value takes the dtype of `cx`. */
  function Records(cx: seq<Complex>, fs: real, center: real, header: bool, cast: real -> real): (r: seq<Complex>)
    ensures header ==> |r| == |cx| + 1 && r[0] == Complex(cast(fs), cast(center))
    ensures header ==> forall k :: 0 <= k < |cx| ==> r[k + 1] == cx[k]
    ensures !header ==> r == cx
  {
    if header then [Complex(cast(fs), cast(center))] + cx else cx
  }

  function WordBytes(w: Word): seq<bv8>
  {
    [w.b0, w.b1, w.b2, w.b3]
  }

  /** The bytes of a run of float32 values. */
  function EncodeAll(xs: seq<real>, enc: real -> Word): (r: seq<bv8>)
    ensures |r| == 4 * |xs|
    decreases |xs|
  {
    if |xs| == 0 then [] else WordBytes(enc(xs[0])) + EncodeAll(xs[1..], enc)
  }

  /** The content of `<filename>.bin` written by `write_signal_to_bin`. */
  function BinFile(cx: seq<Complex>, fs: real, center: real, writeHeader: bool,
                   cast: real -> real, enc: real -> Word): seq<bv8>
  {
    EncodeAll(DataCsv.Interleave(Records(cx, fs, center, writeHeader, cast)), enc)
  }

  /** Reading bytes back four at a time as float32 values. */
  function DecodeAll(bytes: seq<bv8>, dec: Word -> real): (r: seq<real>)
    requires |bytes| % 4 == 0
    ensures |r| == |bytes| / 4
    decreases |bytes|
  {
    if |bytes| == 0 then []
    else [dec(Word(bytes[0], bytes[1], bytes[2], bytes[3]))] + DecodeAll(bytes[4..], dec)
  }

  /** Rounding every part of every sample to float32. */
  function Round(cx: seq<Complex>, f32: real -> real): (r: seq<Complex>)
    ensures |r| == |cx| && forall k :: 0 <= k < |cx| ==> r[k] == Complex(f32(cx[k].re), f32(cx[k].im))
  {
    seq(|cx|, k requires 0 <= k < |cx| => Complex(f32(cx[k].re), f32(cx[k].im)))
  }

  /** `f` applied to every value. */
  function MapReal(xs: seq<real>, f: real -> real): (r: seq<real>)
    ensures |r| == |xs| && forall k :: 0 <= k < |xs| ==> r[k] == f(xs[k])
  {
    seq(|xs|, k requires 0 <= k < |xs| => f(xs[k]))
  }

  /** Decoding the encoding of float32 values gives each value rounded. */
  lemma {:induction false} DecodeEncode(xs: seq<real>, enc: real -> Word, dec: Word -> real, f32: real -> real)
    requires forall x :: dec(enc(x)) == f32(x)
    ensures DecodeAll(EncodeAll(xs, enc), dec) == MapReal(xs, f32)
    decreases |xs|
  {
    if |xs| > 0 {
      DecodeEncode(xs[1..], enc, dec, f32);
      var b := EncodeAll(xs, enc);
      assert b[4..] == EncodeAll(xs[1..], enc);
      assert Word(b[0], b[1], b[2], b[3]) == enc(xs[0]);
      var d := DecodeAll(b, dec);
      assert d == [f32(xs[0])] + MapReal(xs[1..], f32);
    }
  }

  lemma {:induction false} InterleaveRound(cx: seq<Complex>, f32: real -> real)
    ensures DataCsv.Interleave(Round(cx, f32)) == MapReal(DataCsv.Interleave(cx), f32)
    decreases |cx|
  {
    if |cx| > 0 {
      InterleaveRound(cx[1..], f32);
      assert Round(cx, f32)[1..] == Round(cx[1..], f32);
      var a := DataCsv.Interleave(Round(cx, f32));
      var b := MapReal(DataCsv.Interleave(cx), f32);
      var rest := DataCsv.Interleave(cx[1..]);
      assert DataCsv.Interleave(cx) == [cx[0].re, cx[0].im] + rest;
      assert a == [f32(cx[0].re), f32(cx[0].im)] + MapReal(rest, f32);
      forall k | 0 <= k < |a|
        ensures a[k] == b[k]
      {
        if k >= 2 {
          assert a[k] == MapReal(rest, f32)[k - 2];
        }
      }
    }
  }

  /** Reading the binary file back as float32 pairs gives the records written,
      the header sample first when `writeHeader` is set, each part rounded to
      float32 (`dec(enc(x)) == f32(x)`). */
  lemma BinRoundTrip(cx: seq<Complex>, fs: real, center: real, writeHeader: bool,
                     cast: real -> real, enc: real -> Word, dec: Word -> real, f32: real -> real)
    requires forall x :: dec(enc(x)) == f32(x)
    ensures |BinFile(cx, fs, center, writeHeader, cast, enc)| == 8 * (|cx| + if writeHeader then 1 else 0)
    ensures DataCsv.Pairs(DecodeAll(BinFile(cx, fs, center, writeHeader, cast, enc), dec))
      == Ok(Round(Records(cx, fs, center, writeHeader, cast), f32))
  {
    var recs := Records(cx, fs, center, writeHeader, cast);
    var xs := DataCsv.Interleave(recs);
    DecodeEncode(xs, enc, dec, f32);
    InterleaveRound(recs, f32);
    DataCsv.PairsInterleave(Round(recs, f32));
  }

  /** The dtype of `cx` does not change the binary file: whether the header is
      first cast to float32 (complex64) or kept (complex128), `astype` rounds it
      to float32, and rounding twice is rounding once. */
  lemma BinFileIgnoresHeaderCast(cx: seq<Complex>, fs: real, center: real, writeHeader: bool,
                                 f32: real -> real)
    requires forall x :: f32(f32(x)) == f32(x)
    ensures Round(Records(cx, fs, center, writeHeader, f32), f32)
      == Round(Records(cx, fs, center, writeHeader, x => x), f32)
  {
    if writeHeader {
      var a := Round(Records(cx, fs, center, true, f32), f32);
      var b := Round(Records(cx, fs, center, true, x => x), f32);
      assert a[0] == Complex(f32(f32(fs)), f32(f32(center)));
      assert a[0] == b[0];
      forall k | 1 <= k < |a|
        ensures a[k] == b[k]
      {
      }
    }
  }

  // ---------------------------------------------------------------------------
  // write_signal_to_csv

  /** One sample as a line: `'{}|{}'.format(re, im)` without its line end. */
  function Row(c: Complex, show: real -> string): string
  {
    show(c.re) + ['|'] + show(c.im)
  }

  /** The text written for the first samples, one line each. */
  function CsvText(recs: seq<Complex>, show: real -> string): string
    decreases |recs|
  {
    if |recs| == 0 then ""
    else CsvText(recs[..|recs| - 1], show) + Row(recs[|recs| - 1], show) + ['\n']
  }

  /** `write_signal_to_csv`: the loop of lines 197-199 over the samples with the
      header sample in front; the result is what the file holds. */
  method WriteSignalCsv(cx: seq<Complex>, fs: real, center: real, cast: real -> real,
                        show: real -> string)
    returns (content: string)
    ensures content == CsvText(Records(cx, fs, center, true, cast), show)
  {
    var recs := [Complex(cast(fs), cast(center))] + cx;
    content := "";
    var i := 0;
    while i < |recs|
      invariant 0 <= i <= |recs|
      invariant content == CsvText(recs[..i], show)
    {
      assert recs[..i + 1][..i] == recs[..i];
      content := content + Row(recs[i], show) + ['\n'];
      i := i + 1;
    }
    assert recs[..i] == recs;
  }

  /** The rows of the samples. */
  function Rows(recs: seq<Complex>, show: real -> string): (r: seq<string>)
    ensures |r| == |recs| && forall k :: 0 <= k < |recs| ==> r[k] == Row(recs[k], show)
  {
    seq(|recs|, k requires 0 <= k < |recs| => Row(recs[k], show))
  }

  /** The text is the rows joined by line ends, with a line end after the last. */
  lemma {:induction false} CsvTextJoin(recs: seq<Complex>, show: real -> string)
    ensures CsvText(recs, show) == Join(Rows(recs, show) + [""], '\n')
    decreases |recs|
  {
    if |recs| > 0 {
      var init := recs[..|recs| - 1];
      CsvTextJoin(init, show);
      JoinAppend(Rows(init, show), Row(recs[|recs| - 1], show), '\n');
      assert Rows(recs, show) == Rows(init, show) + [Row(recs[|recs| - 1], show)];
    }
  }

  /** Joining with one more empty piece adds the last piece and a separator. */
  lemma {:induction false} JoinAppend(parts: seq<string>, last: string, sep: char)
    ensures Join(parts + [last] + [""], sep) == Join(parts + [""], sep) + last + [sep]
    decreases |parts|
  {
    if |parts| == 0 {
      assert [last] + [""] == [last, ""];
      assert Join([""], sep) == "";
      assert Join([last, ""], sep) == last + [sep] + Join([""], sep);
    } else {
      JoinAppend(parts[1..], last, sep);
      assert (parts + [last] + [""])[1..] == parts[1..] + [last] + [""];
      assert (parts + [""])[1..] == parts[1..] + [""];
    }
  }

  /** Read back, the file written for `len(cx)` samples has `len(cx) + 1`
      lines: the header `<fs>|<center>`, both converted to the dtype of `cx`,
      and then one line `<re>|<im>` per sample, in order; each line splits on
      `|` into the two renderings (provided the rendering of a number contains
      neither `|` nor a line end). */
  lemma CsvReadBack(cx: seq<Complex>, fs: real, center: real, cast: real -> real, show: real -> string)
    requires forall x :: '|' !in show(x) && '\n' !in show(x)
    ensures var lines := Split(CsvText(Records(cx, fs, center, true, cast), show), '\n');
      && |lines| == |cx| + 2 && lines[|cx| + 1] == ""
      && Split(lines[0], '|') == [show(cast(fs)), show(cast(center))]
      && forall k :: 0 <= k < |cx| ==> Split(lines[k + 1], '|') == [show(cx[k].re), show(cx[k].im)]
  {
    var recs := Records(cx, fs, center, true, cast);
    var rows := Rows(recs, show);
    CsvTextJoin(recs, show);
    forall k | 0 <= k < |rows| + 1
      ensures '\n' !in (rows + [""])[k]
    {
      if k < |rows| {
        assert (rows + [""])[k] == show(recs[k].re) + ['|'] + show(recs[k].im);
      }
    }
    SplitJoin(rows + [""], '\n');
    forall k | 0 <= k < |recs|
      ensures Split(rows[k], '|') == [show(recs[k].re), show(recs[k].im)]
    {
      SplitHead(show(recs[k].re), show(recs[k].im), '|');
      SplitNoSeparator(show(recs[k].im), '|');
    }
  }
}
