/** `parse_filename`: experiment file names such as
    `58Ni26+_374MeVu_250uA_pos_0_0.tiq` are split on `_`; the first field is
    the description, the second the energy with `MeVu` standing for `e6`, the
    third the current with `uA` standing for `e-6`. Python's `float` is the
    parameter `toFloat`. */
module Filename {
  import opened Common
  import opened Text

  datatype ParsedName = ParsedName(descr: string, energy: real, current: real)

  const EnergyUnit := "MeVu"
  const CurrentUnit := "uA"

  /** `float(text)`, which raises on text that is not a number. */
  function Number(text: string, toFloat: string -> Option<real>): (r: Result<real>)
    ensures r.Ok? <==> toFloat(text).Some?
    ensures r.Ok? ==> Some(r.value) == toFloat(text)
    ensures r.Err? ==> r.error == NotANumber(text)
  {
    if toFloat(text).Some? then Ok(toFloat(text).value) else Err(NotANumber(text))
  }

  /** `fields[k]`, which raises when there are not more than `k` fields. */
  function Field(fields: seq<string>, k: nat): (r: Result<string>)
    ensures r.Ok? <==> k < |fields|
    ensures r.Ok? ==> r.value == fields[k]
    ensures r.Err? ==> r.error == IndexOutOfBounds(k, |fields|)
  {
    if k < |fields| then Ok(fields[k]) else Err(IndexOutOfBounds(k, |fields|))
  }

  /** `parse_filename(filename)`. */
  function ParseFilename(filename: string, toFloat: string -> Option<real>): Result<ParsedName>
  {
    var fields := Split(filename, '_');
    var descr := fields[0];
    var e :- Field(fields, 1);
    var energy :- Number(Replace(e, EnergyUnit, "e6"), toFloat);
    var c :- Field(fields, 2);
    var current :- Number(Replace(c, CurrentUnit, "e-6"), toFloat);
    Ok(ParsedName(descr, energy, current))
  }

  /** The description is the text before the first `_` (all of it when there
      is none); fewer than three fields raise an `IndexError`, for field 1
      before its number is read and for field 2 after. */
  lemma ParseFilenameShape(filename: string, toFloat: string -> Option<real>)
    ensures var fields := Split(filename, '_');
      && (|fields| < 2 ==> ParseFilename(filename, toFloat) == Err(IndexOutOfBounds(1, |fields|)))
      && (|fields| == 2 && toFloat(Replace(fields[1], EnergyUnit, "e6")).Some? ==>
            ParseFilename(filename, toFloat) == Err(IndexOutOfBounds(2, 2)))
      && (ParseFilename(filename, toFloat).Ok? ==> |fields| >= 3)
    ensures ParseFilename(filename, toFloat).Ok? ==>
      var d := ParseFilename(filename, toFloat).value.descr;
      && '_' !in d && d <= filename && (|d| == |filename| || filename[|d|] == '_')
  {
    FirstField(filename);
  }

  /** The first field of a split is the text up to the first separator. */
  lemma {:induction false} FirstField(s: string)
    ensures var d := Split(s, '_')[0];
      '_' !in d && d <= s && (|d| == |s| || s[|d|] == '_')
    decreases |s|
  {
    if |s| > 0 && s[0] != '_' {
      FirstField(s[1..]);
    }
  }

  /** The name of a file written as `<descr>_<e>MeVu_<c>uA_<rest>`. */
  function FormatFilename(descr: string, e: string, c: string, rest: string): string
  {
    descr + ['_'] + (e + EnergyUnit) + ['_'] + (c + CurrentUnit) + ['_'] + rest
  }

  /** Parsing a name written as `<descr>_<e>MeVu_<c>uA_<rest>` gives the
      description back and reads the energy from `<e>e6` and the current from
      `<c>e-6`. */
  lemma ParseFormatted(descr: string, e: string, c: string, rest: string, toFloat: string -> Option<real>)
    requires '_' !in descr && '_' !in e && '_' !in c
    requires 'M' !in e && 'u' !in c
    requires toFloat(e + "e6").Some? && toFloat(c + "e-6").Some?
    ensures ParseFilename(FormatFilename(descr, e, c, rest), toFloat)
      == Ok(ParsedName(descr, toFloat(e + "e6").value, toFloat(c + "e-6").value))
  {
    var eu, cu := e + EnergyUnit, c + CurrentUnit;
    assert '_' !in eu && '_' !in cu;
    var tail := cu + ['_'] + rest;
    var mid := eu + ['_'] + tail;
    assert FormatFilename(descr, e, c, rest) == descr + ['_'] + mid;
    SplitHead(descr, mid, '_');
    SplitHead(eu, tail, '_');
    SplitHead(cu, rest, '_');
    var fields := Split(FormatFilename(descr, e, c, rest), '_');
    assert fields == [descr, eu, cu] + Split(rest, '_');
    ReplaceSuffix(e, EnergyUnit, "e6");
    ReplaceSuffix(c, CurrentUnit, "e-6");
  }

  // ---------------------------------------------------------------------------
  // Steps of the example in the docstring of `parse_filename`: the lemmas below
  // only build `Example` and state no property of the model of their own.

  lemma ExampleFormat()
    ensures FormatFilename("58Ni26+", "374", "250", "pos_0_0.tiq") == "58Ni26+_374MeVu_250uA_pos_0_0.tiq"
  {
  }

  lemma ExampleFields(descr: string, e: string, c: string, rest: string, toFloat: string -> Option<real>)
    requires descr == "58Ni26+" && e == "374" && c == "250"
    requires toFloat(e + "e6").Some? && toFloat(c + "e-6").Some?
    ensures ParseFilename(FormatFilename(descr, e, c, rest), toFloat)
      == Ok(ParsedName(descr, toFloat(e + "e6").value, toFloat(c + "e-6").value))
  {
    ParseFormatted(descr, e, c, rest, toFloat);
  }

  /** `58Ni26+_374MeVu_250uA_pos_0_0.tiq` has description `58Ni26+`, energy
      `float("374e6")` and current `float("250e-6")`. */
  lemma Example(toFloat: string -> Option<real>)
    requires toFloat("374e6").Some? && toFloat("250e-6").Some?
    ensures ParseFilename("58Ni26+_374MeVu_250uA_pos_0_0.tiq", toFloat)
      == Ok(ParsedName("58Ni26+", toFloat("374e6").value, toFloat("250e-6").value))
  {
    ExampleFormat();
    assert "374" + "e6" == "374e6";
    assert "250" + "e-6" == "250e-6";
    ExampleFields("58Ni26+", "374", "250", "pos_0_0.tiq", toFloat);
  }
}
