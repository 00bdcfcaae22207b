# iqtools helpers, modelled in Dafny

This project models the self-contained helpers of `iqtools/tools.py`, the
tool collection of the IQTools library for IQ (in-phase/quadrature)
measurement data:

- `get_iq_object` picks a reader class from the lower-cased file extension
  (module `Dispatch`, built on a model of POSIX `os.path.splitext`).
- `get_eng_notation` writes a number with an SI prefix or an `e<n>` suffix.
  It chooses the exponent and cuts the mantissa (module `EngNotation`).
- `get_cplx_spectrogram` and `get_inv_cplx_spectrogram` reshape a signal
  row-major into frames and transform every frame. The inverse transforms
  every frame back and flattens the frames (module `Spectrogram`).
- `read_result_csv`: the header-keyword scan over the lines of the file and
  the centre-relative frequency axis (module `ResultCsv`; the scan loop is
  the method `ScanHeader`).
- `read_specan_xml`: the last-element-wins scalars and the fill of the power
  array (module `SpecanXml`; the fill loop is the method `Fill`).
- `read_data_csv`: the row-major flattening and the pairing of doubles into
  complex samples (module `DataCsv`).
- `parse_filename`: the split on `_` and the unit rewrites `MeVu` → `e6`,
  `uA` → `e-6` (module `Filename`).
- `write_signal_to_bin` and `write_signal_to_csv`: the header sample
  `complex(fs, center)`, the float32 byte stream, and the `<re>|<im>` lines
  (module `Writers`; the line loop is the method `WriteSignalCsv`).

`Common` holds the shared `Option`, `Result`, `Error`, `Complex` and `Axis`
types. Python exceptions become `Error` constructors. Where several
exceptions are possible, the model raises them in the order the source
evaluates them.

`Text` models the Python string operations the helpers use:
`str.split`, `str.replace`, `str.lower` and `'{}'.format` of an `int`.
`Text.LastIndexOf` is the `rfind` inside `os.path.splitext`. The source calls
no `str.join`: `Text.Join` describes the text of the lines
`write_signal_to_csv` writes one after another (iqtools/tools.py:197-199).

Numbers are exact reals. Library calls become function parameters: `float()`,
the `int()` of an element's text (iqtools/tools.py:251), the rendering of a float, the dtype conversion `np.insert` applies to the header, `np.fft.fft`/`ifft` and the float32
encoding. Every property that depends on such a call is stated under an
explicit hypothesis about it, for example `ifft(fft(row)) == row` or
`dec(enc(x)) == f32(x)`. The one failure of the transforms the source can
meet, rows of no samples, is modelled as the error `NoFftPoints`. The `int()`
of a float at iqtools/tools.py:121 is not a parameter: it is truncation toward
zero, the fixed function `EngNotation.Trunc`.

## Model

| member | source | states |
|---|---|---|
| Dispatch.SplitExt | iqtools/tools.py:44 | `os.path.splitext`: root and extension concatenate to the path; the extension is empty or a single dot followed by no dot and no `/` |
| Dispatch.ExtensionOfNamedFile | iqtools/tools.py:44 | a path `root.e` (base name not ending in a dot, `e` free of dots and slashes) splits into `root` and `.e` |
| Dispatch.Truthy | iqtools/tools.py:78-86 | `not header_filename` is false exactly for a present, non-empty name; used by `Dispatch.HeaderRequired` |
| Dispatch.ReaderFor | iqtools/tools.py:48-92 | the chain of extension tests on the lower-cased extension; specified by `Dispatch.ReaderForMatchesRegistry` and `Dispatch.ReadersOfExtensions` |
| Dispatch.GetIqObject | iqtools/tools.py:31-92 | `get_iq_object`; specified by `Dispatch.GetIqObjectMatchesRegistry`, `Dispatch.KindDependsOnlyOnExtension` and the lemmas on named files below |
| Dispatch.ReaderForMatchesRegistry | iqtools/tools.py:48-92 | the chain of extension tests builds a reader exactly for the ten registered extensions, TCAP/XDAT only with a truthy header file name; the reader has the registered kind, the given file name and the given header name |
| Dispatch.GetIqObjectMatchesRegistry | iqtools/tools.py:31-92 | the same, stated for `get_iq_object` on the lower-cased extension of the file name |
| Dispatch.ReaderForKind | iqtools/tools.py:48-90 | the reader kind chosen for an extension does not depend on the file name |
| Dispatch.KindDependsOnlyOnExtension | iqtools/tools.py:44-92 | two file names with the same lower-cased extension get the same reader kind |
| Dispatch.ReaderOfNamedFile | iqtools/tools.py:44-48 | the reader of `root.e` is the one chosen for `.` + lower-case `e` |
| Dispatch.ExtensionCaseIgnored | iqtools/tools.py:48-90 | upper-case letters in the extension do not change the reader kind |
| Dispatch.ReadersOfExtensions | iqtools/tools.py:48-90 | `.txt` and `.csv` give the CSV reader, `.iq` and `.iqt` the IQT reader; `.dat`/`.xdat` give TCAP/XDAT with a truthy header name and nothing otherwise |
| Dispatch.CsvFiles | iqtools/tools.py:48-50 | a file with extension `txt` or `csv` in any case gets `CSVData(filename)` |
| Dispatch.IqtFiles | iqtools/tools.py:60-66 | a file with extension `iq` or `iqt` in any case gets `IQTData(filename)` |
| Dispatch.HeaderRequired | iqtools/tools.py:76-90 | a `.dat` or `.xdat` file (any case) without a header file name, or with an empty one, gives `None` |
| Dispatch.UnknownExtension | iqtools/tools.py:46-92 | an extension outside the table (or no extension) gives `None` |
| Text.Lower | iqtools/tools.py:48 | lower-casing keeps the length and lower-cases each character |
| Text.LowerIdempotent | iqtools/tools.py:48 | lower-casing twice is lower-casing once; no upper-case letter remains |
| Text.LastIndexOf | iqtools/tools.py:44 | the index of the last occurrence of the character, or -1 when there is none |
| Text.IntToString | iqtools/tools.py:120 | `'{}'.format(num)` of an integer: a minus sign exactly for a negative number, then decimal digits; read back by `Text.ParseIntToString` |
| Text.Join | iqtools/tools.py:197-199 | the pieces one after another with the separator between them, the text of lines written in turn; specified by `Text.JoinSplit` and `Text.SplitJoin` |
| Text.Split | iqtools/tools.py:229 | `str.split` gives at least one piece and no piece contains the separator |
| Text.JoinSplit | iqtools/tools.py:229 | joining the pieces of a split with the separator gives the text back |
| Text.SplitJoin | iqtools/tools.py:229 | splitting a join of separator-free pieces gives the pieces back |
| Text.SplitHead | iqtools/tools.py:293 | a separator-free head followed by the separator is split off as the first piece |
| Text.SplitNoSeparator | iqtools/tools.py:293 | a text without the separator splits into itself alone |
| Text.Replace | iqtools/tools.py:295-296 | `str.replace`, left to right and without overlaps; specified by `Text.ReplaceShort`, `Text.ReplaceFront`, `Text.ReplaceSkips` and `Text.ReplaceSuffix` |
| Text.ReplaceShort | iqtools/tools.py:295-296 | a text shorter than the pattern is not changed by `replace` |
| Text.ReplaceFront | iqtools/tools.py:295-296 | an occurrence at the front is replaced and the scan resumes after it |
| Text.ReplaceSkips | iqtools/tools.py:295-296 | text that cannot start an occurrence passes through `replace` unchanged |
| Text.ReplaceSuffix | iqtools/tools.py:295-296 | `(x + pat).replace(pat, sub) == x + sub` when `x` holds no first character of `pat` |
| Text.NatToString | iqtools/tools.py:120 | the decimal rendering of a natural number is a non-empty run of digits |
| Text.ParseNatToString | iqtools/tools.py:120 | reading back the decimal rendering of a natural number gives the number |
| Text.ParseIntToString | iqtools/tools.py:120 | reading back `'{}'.format(i)` of any integer gives the integer |
| EngNotation.Pow10 | iqtools/tools.py:116-121 | `10 ** k` for every integer `k`, exactly, and positive; specified by `EngNotation.Pow10Step` and `EngNotation.Pow10Monotone` |
| EngNotation.Pow10Step | iqtools/tools.py:116 | `10 ** (k + 1) == 10 * 10 ** k` for every integer `k`, negative ones included |
| EngNotation.Pow10Monotone | iqtools/tools.py:116 | powers of ten grow with the exponent |
| EngNotation.Eligible | iqtools/tools.py:116 | the comprehension keeps exactly the table exponents whose power of ten does not exceed the magnitude |
| EngNotation.Max | iqtools/tools.py:116 | `max` of a non-empty list is an element of the list and no element exceeds it |
| EngNotation.Exponent | iqtools/tools.py:116 | `max([key for key in ref.keys() if abs(value) >= 10 ** key])`; specified by `EngNotation.ExponentChoice` and `EngNotation.ExponentInDecade` |
| EngNotation.KeysAreMultiplesOfThree | iqtools/tools.py:108-112 | the table's exponents are exactly the multiples of 3 from -24 to 24 |
| EngNotation.PrefixLetters | iqtools/tools.py:108-112 | every non-zero table exponent has a one-letter prefix |
| EngNotation.ExponentChoice | iqtools/tools.py:116 | the exponent exists iff the magnitude is at least `10 ** -24`, else `max` of an empty list raises; it is a multiple of 3 in [-24, 24], its power of ten does not exceed the magnitude, the next one up does (unless it is 24), and no larger table exponent qualifies |
| EngNotation.ExponentInDecade | iqtools/tools.py:116 | a magnitude between `10 ** k` and `10 ** (k + 3)`, `k` a table exponent, gets exponent `k` |
| EngNotation.Trunc | iqtools/tools.py:121 | `int()` of a float; specified by `EngNotation.TruncTowardZero` |
| EngNotation.TruncTowardZero | iqtools/tools.py:121 | `int()` of a float truncates toward zero: the result has the sign of the argument and is smaller in magnitude by less than one |
| EngNotation.Mantissa | iqtools/tools.py:121 | `int(abs(value) / 10 ** num * 10 ** decimal_place) / 10 ** decimal_place`; specified by `EngNotation.MantissaTruncates` and `EngNotation.MantissaDigits` |
| EngNotation.TruncToSteps | iqtools/tools.py:121 | `int(x * p) / p` for `x >= 0` is at most `x`, less than one step `1 / p` below it, and a whole number of steps |
| EngNotation.MantissaTruncates | iqtools/tools.py:121 | the mantissa is the magnitude divided by `10 ** num`, cut, not rounded: a whole number `int(quotient * 10 ** decimal_place)` of steps `10 ** -decimal_place`, not above the quotient and less than one step below it |
| EngNotation.MantissaDigits | iqtools/tools.py:121 | below the top exponent and with non-negative places the mantissa lies in [1, 1000) |
| EngNotation.Suffix | iqtools/tools.py:117-120 | `mult`; specified by `EngNotation.SuffixShape` and `EngNotation.SuffixDeterminesExponent` |
| EngNotation.SuffixDeterminesExponent | iqtools/tools.py:117-120 | the suffix reads back as the exponent it stands for |
| EngNotation.SuffixShape | iqtools/tools.py:117-120 | the suffix is empty for exponent 0, the one-letter prefix when a unit is given, and `e<num>` otherwise |
| EngNotation.GetEngNotation | iqtools/tools.py:113-122 | zero is written `"0" + unit`; the call raises exactly for non-zero magnitudes below `10 ** -24` |
| EngNotation.Decompose | iqtools/tools.py:115-121 | `flag`, `num`, the mantissa and `mult` of a non-zero value; specified by `EngNotation.DecomposeParts` |
| EngNotation.Render | iqtools/tools.py:121-122 | the four-part format string; specified by `EngNotation.RendersParts`, `EngNotation.SignShown` and `EngNotation.Example1500Hz` |
| EngNotation.DecomposeParts | iqtools/tools.py:115-121 | for a non-zero value in range, the sign flag is set iff the value is negative; the exponent is as `ExponentChoice` says; the mantissa is `Mantissa` of the magnitude (so cut to whole steps, as `MantissaTruncates` says) and within one step below the quotient; the suffix is `Suffix` of the exponent |
| EngNotation.RendersParts | iqtools/tools.py:121-122 | the text is the sign, the rendered mantissa, the suffix and the unit |
| EngNotation.SignShown | iqtools/tools.py:115-122 | the text starts with `-` exactly for negative values, given a rendering of non-negative numbers that is non-empty and unsigned |
| EngNotation.Example1500Hz | iqtools/tools.py:95-122 | `get_eng_notation(1500, 'Hz', 2)` is the rendering of 1.5, then `k`, then `Hz` |
| Spectrogram.Rows | iqtools/tools.py:126 | cutting `rows * cols` elements into rows gives `rows` rows of `cols` elements |
| Spectrogram.RowsSlice | iqtools/tools.py:126 | row `i` is the slice `x[i * cols .. (i + 1) * cols]` |
| Spectrogram.FlattenRows | iqtools/tools.py:126-133 | flattening the rows of `x` gives `x` back |
| Spectrogram.Flatten | iqtools/tools.py:133 | `np.reshape(inv_zz, (1, nframes * lframes))[0]`, and `np.ravel` at iqtools/tools.py:282: the rows one after another; specified by `Spectrogram.FlattenRows`, `Spectrogram.FlattenLength` and `Spectrogram.ReshapeFlatten` |
| Spectrogram.Reshape | iqtools/tools.py:126 | `np.reshape` succeeds iff the size is `rows * cols`, else raises with the sizes; on success the result has that shape and flattens back to the input |
| Spectrogram.ReshapeAt | iqtools/tools.py:126 | element `(i, j)` of the reshaped signal is `x[i * cols + j]` |
| Spectrogram.FlattenLength | iqtools/tools.py:133 | a `rows` by `cols` matrix flattens to `rows * cols` elements |
| Spectrogram.FlattenInjective | iqtools/tools.py:133 | two matrices of the same shape with the same flattening are equal |
| Spectrogram.ReshapeFlatten | iqtools/tools.py:126-133 | reshaping the flattening of a matrix gives the matrix back |
| Spectrogram.MapRows | iqtools/tools.py:127 | the transform along axis 1 transforms every row and keeps the row count |
| Spectrogram.Forward | iqtools/tools.py:125-128 | `get_cplx_spectrogram`; specified by `Spectrogram.ForwardFrames` and `Spectrogram.RoundTrip` |
| Spectrogram.Inverse | iqtools/tools.py:131-134 | `get_inv_cplx_spectrogram` on an array with rows of `width` entries: no rows of no points, and a total size of `nframes * lframes`; specified by `Spectrogram.RoundTrip` |
| Spectrogram.ForwardFrames | iqtools/tools.py:125-128 | the spectrogram succeeds iff the signal has `nframes * lframes` samples and `lframes > 0`; a wrong length raises the reshape error, frames of no samples raise the transform's error; frame `i` is the transform of samples `i * lframes` to `(i + 1) * lframes` |
| Spectrogram.RoundTrip | iqtools/tools.py:125-134 | for `lframes > 0`, when `fft` keeps the frame length and `ifft` undoes it, the spectrogram is an `nframes` by `lframes` array and its inverse spectrogram is the signal |
| ResultCsv.Value | iqtools/tools.py:231-235 | `float(l[1])`, raising on a text that is not a number; specified by `ResultCsv.ScanRaises` and `ResultCsv.ScanTakesLast` |
| ResultCsv.Sets | iqtools/tools.py:229-234 | `key in l and len(l) == 3`; specified by `ResultCsv.KeyFirstSets` and `ResultCsv.KeyLastMissed` |
| ResultCsv.Step | iqtools/tools.py:229-235 | one pass of the loop body; specified by `ResultCsv.StepEffect` |
| ResultCsv.Scan | iqtools/tools.py:228-235 | the loop as a fold over the lines; specified by `ResultCsv.ScanRaises` and `ResultCsv.ScanTakesLast`, and computed by `ResultCsv.ScanHeader` |
| ResultCsv.ScanHeader | iqtools/tools.py:228-235 | the header loop computes the scan: the assignments of the lines in order, or the exception of the first line whose value does not convert |
| ResultCsv.ScanStopsAtError | iqtools/tools.py:228-235 | once a prefix of the lines raises, the whole loop raises the same exception |
| ResultCsv.LastSetting | iqtools/tools.py:228-235 | the index of the last line that sets a key, with no later line setting it, or -1 |
| ResultCsv.StepEffect | iqtools/tools.py:229-235 | one line raises iff it sets a key and its second field is not a number; otherwise every value it sets is taken from its second field and the others are kept |
| ResultCsv.ScanRaises | iqtools/tools.py:228-235 | the scan raises iff some line raises, and then with the error of the first such line |
| ResultCsv.ScanTakesLast | iqtools/tools.py:228-235 | after the scan every value is the one given by the last line that sets it; a key no line sets stays unassigned |
| ResultCsv.KeyFirstSets | iqtools/tools.py:229-231 | a line `key,value,rest` of comma-free fields sets the key, with the value read from the second field |
| ResultCsv.KeyLastMissed | iqtools/tools.py:227-230 | a key written as the third field is seen with its line end and sets nothing |
| ResultCsv.ReadResultCsv | iqtools/tools.py:236-237 | on success the power values are returned unchanged and the axis has one point per value |
| ResultCsv.ReadResultCsvAxis | iqtools/tools.py:219-237 | the read succeeds iff the scan succeeds and all three keys are set; the axis runs from the last start to the last stop, both relative to the last centre; a start never set raises for `start` |
| SpecanXml.Texts | iqtools/tools.py:250 | the texts of the elements with the tag, at most one per element |
| SpecanXml.TextsAppend | iqtools/tools.py:250 | `iter(tag=...)` yields no texts for no elements, and one more element adds its text exactly when it has the tag, in document order |
| SpecanXml.ConvertOne | iqtools/tools.py:251 | converting an element's text succeeds iff the element has text that converts; otherwise it raises with the tag and the text |
| SpecanXml.ConvertAll | iqtools/tools.py:250-261 | a conversion loop succeeds iff every text converts and then gives every value in order; otherwise it raises the error of the first text that does not convert |
| SpecanXml.LastOf | iqtools/tools.py:250-259 | the variable a loop leaves holds the last value, and is unassigned exactly when there were none |
| SpecanXml.Zeros | iqtools/tools.py:262 | `np.zeros(count)` has `count` entries, all zero |
| SpecanXml.Filled | iqtools/tools.py:262-266 | the fill succeeds iff there are at most `count` `y` values, else it raises an index error at `count`; the values come first in order and zeros follow |
| SpecanXml.Fill | iqtools/tools.py:262-266 | the fill loop over a zero-filled array gives exactly `Filled` |
| SpecanXml.ReadSpecanXml | iqtools/tools.py:240-269 | `read_specan_xml` with its exceptions in source order; specified by `SpecanXml.ReadSucceeds`, `SpecanXml.TraceContents` and `SpecanXml.TooManyValues` |
| SpecanXml.ReadSucceeds | iqtools/tools.py:250-269 | the read succeeds iff every `Count`, `XStart`, `XStop` and `y` text converts, the last `Count` is non-negative and at least the number of `y` elements, and `XStart`, `XStop`, `XUnits` and `YUnits` each occur |
| SpecanXml.LastConverted | iqtools/tools.py:250-255 | a scalar is set iff some element has its tag, and then it is the conversion of the last such element's text |
| SpecanXml.SuccessfulRead | iqtools/tools.py:250-269 | a successful read converted every text; `count` is non-negative with no more `y` values than `count`; the trace is built from the last values and the filled array |
| SpecanXml.TraceContents | iqtools/tools.py:240-269 | a read trace runs from the last `XStart` to the last `XStop` with the last `Count` points; the power array has `Count` entries, the `y` values first in document order and zeros after; the units are those of the last `XUnits` and `YUnits` |
| SpecanXml.TooManyValues | iqtools/tools.py:260-266 | with all texts readable and `Count` non-negative, more `y` elements than `Count` raises an index error at `Count` |
| DataCsv.Pairs | iqtools/tools.py:282 | viewing doubles as complex fails iff their count is odd; sample `k` is `flat[2k] + flat[2k+1] j` |
| DataCsv.Interleave | iqtools/tools.py:282 | complex samples as doubles in memory order, two per sample; the inverse of `DataCsv.Pairs` by `DataCsv.PairsInterleave` and `DataCsv.InterleavePairs` |
| DataCsv.PairsInterleave | iqtools/tools.py:282 | viewing the doubles of complex samples as complex gives the samples back |
| DataCsv.InterleavePairs | iqtools/tools.py:282 | an even run of doubles viewed as complex lays out as the same doubles |
| DataCsv.ReadDataCsv | iqtools/tools.py:280-283 | `read_data_csv` on the rows read; specified by `DataCsv.RowsOfPairs` and `DataCsv.Pairs` |
| DataCsv.RowsOfPairs | iqtools/tools.py:280-283 | a file of rows `I,Q` reads as one sample `I + Q j` per row, in order |
| Filename.Number | iqtools/tools.py:295-296 | `float(text)` succeeds iff the text converts, else raises with the text |
| Filename.Field | iqtools/tools.py:294-296 | `fields[k]` succeeds iff there are more than `k` fields, else raises an index error |
| Filename.ParseFilename | iqtools/tools.py:286-297 | `parse_filename`; specified by `Filename.ParseFilenameShape`, `Filename.ParseFormatted` and `Filename.Example` |
| Filename.ParseFilenameShape | iqtools/tools.py:293-297 | fewer than three fields raise an index error, for field 1 before any number is read and for field 2 after; the description is the text before the first `_` |
| Filename.FirstField | iqtools/tools.py:293-294 | the first piece of a split on `_` is the longest `_`-free prefix |
| Filename.ParseFormatted | iqtools/tools.py:286-297 | a name `<descr>_<e>MeVu_<c>uA_<rest>` parses to the description, `float(e + "e6")` and `float(c + "e-6")` |
| Filename.Example | iqtools/tools.py:289-297 | `58Ni26+_374MeVu_250uA_pos_0_0.tiq` parses to `58Ni26+`, `float("374e6")` and `float("250e-6")` |
| Writers.Records | iqtools/tools.py:187-195 | with the header, `complex(fs, center)` converted to the dtype of `cx` (the parameter `cast`: exact for complex128, float32 for complex64) comes first and the samples follow in order; without it, the samples are unchanged |
| Writers.EncodeAll | iqtools/tools.py:189-190 | each float32 takes four bytes of the file |
| Writers.DecodeAll | iqtools/tools.py:189-190 | reading four bytes at a time gives one value per four bytes |
| Writers.Round | iqtools/tools.py:189 | `astype(np.complex64)` rounds both parts of every sample and keeps the count |
| Writers.DecodeEncode | iqtools/tools.py:189-190 | decoding the bytes of float32 values gives each value rounded to float32 |
| Writers.InterleaveRound | iqtools/tools.py:189 | rounding the samples and then laying them out equals laying them out and then rounding every double |
| Writers.BinFile | iqtools/tools.py:175-190 | the bytes `write_signal_to_bin` writes; specified by `Writers.BinRoundTrip` |
| Writers.BinRoundTrip | iqtools/tools.py:175-190 | the `.bin` file has 8 bytes per record; read back as float32 pairs it gives the records, the header sample first when `write_header` is set, each part rounded to float32 |
| Writers.BinFileIgnoresHeaderCast | iqtools/tools.py:188-189 | the `.bin` file does not depend on the dtype of `cx`: a header first cast to float32 and one kept exact round to the same float32 record |
| Writers.CsvText | iqtools/tools.py:193-199 | the text `write_signal_to_csv` writes; specified by `Writers.CsvTextJoin` and `Writers.CsvReadBack` |
| Writers.WriteSignalCsv | iqtools/tools.py:193-199 | the line loop writes exactly the lines of the header sample and the samples, one line per record, its real and imaginary parts separated by a bar |
| Writers.Row | iqtools/tools.py:198 | the format at that line, the renderings of the real and the imaginary part with a bar between them, without the line end; split back into its two renderings by `Writers.CsvReadBack` |
| Writers.Rows | iqtools/tools.py:197-199 | one row per record, the renderings of its two parts separated by a bar |
| Writers.CsvTextJoin | iqtools/tools.py:197-199 | the text is the rows joined by line ends, with a line end after the last |
| Writers.CsvReadBack | iqtools/tools.py:193-199 | the `.csv` file holds `len(cx) + 1` lines and a final empty piece; the first line splits into `fs` and `center` as converted to the dtype of `cx`, line `k + 1` into the parts of sample `k` |

## Left out

- I/O is not modelled. The model takes what the functions read as inputs: the lines `readlines` gives, the rows `np.genfromtxt` gives, the elements `et.fromstring` gives in document order. It returns the bytes or text a writer would write. Logging (`log.info`) is left out.
- `float()`, `int()` of a text, Python's rendering of a float, `np.fft.fft`/`ifft` and the float32 encoding are function parameters. Their numerics are not modelled.
- Numbers are exact reals, not IEEE doubles. In `get_eng_notation`, `10 ** key` with a negative key and the division are inexact in Python; near a power of ten the source can choose differently from the model.
- `np.linspace` is kept as its three arguments (`Axis`). The axis values are floating-point numerics.
- The reader classes built by `get_iq_object` (`CSVData`, `TIQData`, ...) are not part of this model. They are represented by constructors carrying their arguments.
- `get_root_th2d`, `make_test_signal`, `shift_phase`, `write_signal_to_wav`, `make_analytical` and the later ROOT/npy/CSV spectrum writers are not part of this model. They are floating-point numerics, random noise, or glue around libraries that are not shown.
- `np.reshape` is modelled with explicit shapes only. The `-1` size inference (used only at iqtools/tools.py:325, which is left out) and negative frame sizes passed to `get_cplx_spectrogram`/`get_inv_cplx_spectrogram` are not modelled; both sizes are `nat`.
- Spectrogram.RoundTrip: states exact equality under the hypothesis that `ifft` exactly undoes `fft`. It does not give the floating-point tolerance of the real transforms. Apart from rows of no samples, the transforms are taken to be total.
- Spectrogram.Inverse: takes its argument as a two-dimensional array, rows of equal length `width`. Ragged input, which numpy would not accept as such an array, is not modelled.
- Writers.Records: only complex-dtype input is modelled; the conversion of the header to complex128 or complex64 is the parameter `cast`, so for complex64 the header `write_signal_to_csv` writes is rounded to float32. For a real or integer `cx`, `np.insert(cx, 0, complex(fs, center))` at iqtools/tools.py:188 and :195 casts the header to the array's dtype and raises `TypeError`; the model writes such samples as complex numbers with imaginary part 0.
- Text.Lower: lower-cases ASCII letters only. It does not model Unicode case mapping.
- Text.Split: models `str.split` with one separator character, the only form the source uses.
- Dispatch.SplitExt: follows the POSIX rules of `os.path.splitext` (`/` separators, leading dots of the base name are not an extension). Windows paths are not modelled.
- SpecanXml.ReadSpecanXml: a text that `int()`/`float()` rejects, or an element without text, raises one generic `BadText` error. The model does not tell apart Python's `TypeError` and `ValueError`.
- `read_specan_xml` does not check `Count` against the number of `y` elements: more `y` elements raise an `IndexError`, fewer leave zeros (iqtools/tools.py:262-266; `SpecanXml.Filled`, `SpecanXml.ReadSucceeds`).
- `read_result_csv` accepts a key in any of the three fields of a line (iqtools/tools.py:230-234; `ResultCsv.Sets`).
- A key `read_result_csv` never finds raises `UnboundLocalError` when its name is read (iqtools/tools.py:236; `ResultCsv.ReadResultCsv`).
