/** The header scan of `read_result_csv`: every line of the file (as
    `readlines` gives them, line ends kept) is split on `,`, and a line of
    exactly three fields containing the field `Frequency`, `XStart` or `XStop`
    sets the centre, start or stop frequency from its second field. The later
    line wins. Python's `float` is the parameter `toFloat`; the power values
    `np.genfromtxt(filename, skip_header=63)` reads are the parameter `p`. */
module ResultCsv {
  import opened Common
  import opened Text

  /** What the scan has assigned so far; `None` is a name never assigned. */
  datatype Header = Header(center: Option<real>, start: Option<real>, stop: Option<real>)

  const Unset := Header(None, None, None)

  /** `key in l and len(l) == 3` for the fields `l` of `line`. */
  predicate Sets(line: string, key: string)
  {
    var fields := Split(line, ',');
    key in fields && |fields| == 3
  }

  /** The text `float(l[1])` converts. */
  function Field1(line: string): string
  {
    var fields := Split(line, ',');
    if |fields| > 1 then fields[1] else ""
  }

  /** `float(l[1])`, which raises on text that is not a number. */
  function Value(line: string, toFloat: string -> Option<real>): Result<real>
  {
    var v := toFloat(Field1(line));
    if v.Some? then Ok(v.value) else Err(NotANumber(Field1(line)))
  }

  /** The body of the loop for one line: the three tests in order. */
  function Step(h: Header, line: string, toFloat: string -> Option<real>): Result<Header>
  {
    var h1 :- if Sets(line, "Frequency") then
                var v :- Value(line, toFloat); Ok(h.(center := Some(v)))
              else Ok(h);
    var h2 :- if Sets(line, "XStart") then
                var v :- Value(line, toFloat); Ok(h1.(start := Some(v)))
              else Ok(h1);
    if Sets(line, "XStop") then
      var v :- Value(line, toFloat); Ok(h2.(stop := Some(v)))
    else Ok(h2)
  }

  /** The loop over `lines` from the start, stopping at the first exception. */
  function Scan(lines: seq<string>, toFloat: string -> Option<real>): Result<Header>
    decreases |lines|
  {
    if |lines| == 0 then Ok(Unset)
    else
      var h :- Scan(lines[..|lines| - 1], toFloat);
      Step(h, lines[|lines| - 1], toFloat)
  }

  /** The header loop of `read_result_csv` (lines 228-235). */
  method ScanHeader(lines: seq<string>, toFloat: string -> Option<real>) returns (r: Result<Header>)
    ensures r == Scan(lines, toFloat)
  {
    var h := Unset;
    var i := 0;
    while i < |lines|
      invariant 0 <= i <= |lines|
      invariant Scan(lines[..i], toFloat) == Ok(h)
    {
      assert lines[..i + 1][..i] == lines[..i];
      var line := lines[i];
      if Sets(line, "Frequency") {
        var v := toFloat(Field1(line));
        if v.None? {
          assert lines[..i + 1] == lines[..i] + [line];
          r := Err(NotANumber(Field1(line)));
          ScanStopsAtError(lines, i + 1, toFloat);
          return;
        }
        h := h.(center := Some(v.value));
      }
      if Sets(line, "XStart") {
        var v := toFloat(Field1(line));
        if v.None? {
          r := Err(NotANumber(Field1(line)));
          ScanStopsAtError(lines, i + 1, toFloat);
          return;
        }
        h := h.(start := Some(v.value));
      }
      if Sets(line, "XStop") {
        var v := toFloat(Field1(line));
        if v.None? {
          r := Err(NotANumber(Field1(line)));
          ScanStopsAtError(lines, i + 1, toFloat);
          return;
        }
        h := h.(stop := Some(v.value));
      }
      i := i + 1;
    }
    assert lines[..i] == lines;
    r := Ok(h);
  }

  /** Once a prefix of the lines raises, the whole scan raises the same. */
  lemma {:induction false} ScanStopsAtError(lines: seq<string>, n: nat, toFloat: string -> Option<real>)
    requires n <= |lines| && Scan(lines[..n], toFloat).Err?
    ensures Scan(lines, toFloat) == Scan(lines[..n], toFloat)
    decreases |lines| - n
  {
    if n < |lines| {
      assert lines[..n + 1][..n] == lines[..n];
      ScanStopsAtError(lines, n + 1, toFloat);
    } else {
      assert lines[..n] == lines;
    }
  }

  // ---------------------------------------------------------------------------
  // A reference description of the scan's outcome

  /** The index of the last line that sets `key`, or -1. */
  function LastSetting(lines: seq<string>, key: string): (k: int)
    ensures -1 <= k < |lines|
    ensures k >= 0 ==> Sets(lines[k], key)
    ensures forall m :: k < m < |lines| ==> !Sets(lines[m], key)
    decreases |lines|
  {
    if |lines| == 0 then -1
    else if Sets(lines[|lines| - 1], key) then |lines| - 1
    else LastSetting(lines[..|lines| - 1], key)
  }

  /** The value the last line setting `key` gives it, or `None`. */
  function LastValue(lines: seq<string>, key: string, toFloat: string -> Option<real>): Option<real>
  {
    var k := LastSetting(lines, key);
    if k < 0 then None else toFloat(Field1(lines[k]))
  }

  /** The line raises: it sets one of the keys and its second field is not a number. */
  predicate Raises(line: string, toFloat: string -> Option<real>)
  {
    (Sets(line, "Frequency") || Sets(line, "XStart") || Sets(line, "XStop"))
    && toFloat(Field1(line)).None?
  }

  /** One line: it raises exactly as `Raises` says, and otherwise each value
      is taken from the line when the line sets it and kept when it does not. */
  lemma StepEffect(h: Header, line: string, toFloat: string -> Option<real>)
    ensures Step(h, line, toFloat).Err? <==> Raises(line, toFloat)
    ensures Step(h, line, toFloat).Err? ==> Step(h, line, toFloat).error == NotANumber(Field1(line))
    ensures Step(h, line, toFloat).Ok? ==>
      var v := toFloat(Field1(line)); var h' := Step(h, line, toFloat).value;
      && h'.center == (if Sets(line, "Frequency") then v else h.center)
      && h'.start == (if Sets(line, "XStart") then v else h.start)
      && h'.stop == (if Sets(line, "XStop") then v else h.stop)
  {
  }

  /** The scan raises exactly when some line raises, and then with the error
      of the first such line. */
  lemma {:induction false} ScanRaises(lines: seq<string>, toFloat: string -> Option<real>)
    ensures Scan(lines, toFloat).Err? <==> exists k :: 0 <= k < |lines| && Raises(lines[k], toFloat)
    ensures Scan(lines, toFloat).Err? ==>
      exists k :: 0 <= k < |lines| && Raises(lines[k], toFloat)
        && (forall m :: 0 <= m < k ==> !Raises(lines[m], toFloat))
        && Scan(lines, toFloat).error == NotANumber(Field1(lines[k]))
    decreases |lines|
  {
    if |lines| > 0 {
      var init, last := lines[..|lines| - 1], lines[|lines| - 1];
      ScanRaises(init, toFloat);
      assert forall m :: 0 <= m < |init| ==> init[m] == lines[m];
      if Scan(init, toFloat).Ok? {
        StepEffect(Scan(init, toFloat).value, last, toFloat);
      }
    }
  }

  /** When the scan succeeds, each value is the one given by the last line that
      sets it; a key no line sets stays unassigned. */
  lemma {:induction false} ScanTakesLast(lines: seq<string>, toFloat: string -> Option<real>)
    requires Scan(lines, toFloat).Ok?
    ensures var h := Scan(lines, toFloat).value;
      && h.center == LastValue(lines, "Frequency", toFloat)
      && h.start == LastValue(lines, "XStart", toFloat)
      && h.stop == LastValue(lines, "XStop", toFloat)
    decreases |lines|
  {
    if |lines| > 0 {
      var init, last := lines[..|lines| - 1], lines[|lines| - 1];
      assert Scan(init, toFloat).Ok?;
      ScanTakesLast(init, toFloat);
      StepEffect(Scan(init, toFloat).value, last, toFloat);
    }
  }

  // ---------------------------------------------------------------------------
  // Which lines set a key

  /** A line of three comma-free fields whose first field is the key sets it,
      and the value is read from the second field. */
  lemma KeyFirstSets(key: string, v: string, rest: string)
    requires ',' !in key && ',' !in v && ',' !in rest
    ensures Sets(key + [','] + v + [','] + rest, key)
    ensures Field1(key + [','] + v + [','] + rest) == v
  {
    var line := key + [','] + v + [','] + rest;
    assert line == key + [','] + (v + [','] + rest);
    SplitHead(key, v + [','] + rest, ',');
    SplitHead(v, rest, ',');
    SplitNoSeparator(rest, ',');
    assert Split(line, ',') == [key, v, rest];
  }

  /** `readlines` keeps the line end, so a key written as the last of three
      fields is seen as `key + "\n"` and does not set anything. */
  lemma KeyLastMissed(a: string, b: string, key: string)
    requires ',' !in a && ',' !in b && ',' !in key
    requires a != key && b != key
    ensures !Sets(a + [','] + b + [','] + key + ['\n'], key)
  {
    var last := key + ['\n'];
    var line := a + [','] + b + [','] + last;
    assert a + [','] + b + [','] + key + ['\n'] == line;
    assert line == a + [','] + (b + [','] + last);
    SplitHead(a, b + [','] + last, ',');
    SplitHead(b, last, ',');
    assert ',' !in last;
    SplitNoSeparator(last, ',');
    assert Split(line, ',') == [a, b, last];
    assert |last| != |key|;
    assert key !in [a, b, last];
  }

  // ---------------------------------------------------------------------------
  // read_result_csv

  /** `read_result_csv`: the frequency axis is
      `np.linspace(start - center, stop - center, len(p))`; a name the scan
      never assigned raises when it is read (`start`, then `center`, then `stop`). */
  function ReadResultCsv(lines: seq<string>, p: seq<real>, toFloat: string -> Option<real>)
    : (r: Result<(Axis, seq<real>)>)
    ensures r.Ok? ==> r.value.1 == p && r.value.0.count == |p|
  {
    var h :- Scan(lines, toFloat);
    if h.start.None? then Err(Unbound("start"))
    else if h.center.None? then Err(Unbound("center"))
    else if h.stop.None? then Err(Unbound("stop"))
    else Ok((Axis(h.start.value - h.center.value, h.stop.value - h.center.value, |p|), p))
  }

  /** The axis runs from the last start to the last stop, both relative to the
      last centre; it fails exactly when a line raises or a key is never set. */
  lemma ReadResultCsvAxis(lines: seq<string>, p: seq<real>, toFloat: string -> Option<real>)
    ensures ReadResultCsv(lines, p, toFloat).Ok? <==>
      && Scan(lines, toFloat).Ok?
      && LastValue(lines, "Frequency", toFloat).Some?
      && LastValue(lines, "XStart", toFloat).Some?
      && LastValue(lines, "XStop", toFloat).Some?
    ensures ReadResultCsv(lines, p, toFloat).Ok? ==>
      var c := LastValue(lines, "Frequency", toFloat).value;
      ReadResultCsv(lines, p, toFloat).value.0
        == Axis(LastValue(lines, "XStart", toFloat).value - c, LastValue(lines, "XStop", toFloat).value - c, |p|)
    ensures Scan(lines, toFloat).Ok? && LastSetting(lines, "XStart") < 0 ==>
      ReadResultCsv(lines, p, toFloat) == Err(Unbound("start"))
  {
    if Scan(lines, toFloat).Ok? {
      ScanTakesLast(lines, toFloat);
    }
  }
}
