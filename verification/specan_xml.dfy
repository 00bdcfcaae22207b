/** `read_specan_xml`: the trace file of a spectrum analyser, given as its
    elements in document order (what `xml_tree_root.iter()` visits). The
    scalars take the value of the LAST element with their tag; the `y` values
    are written one after the other into a zero-filled array of length
    `Count`. Python's `int` and `float` on an element's text are the parameters
    `toInt` and `toFloat`. */
module SpecanXml {
  import opened Common

  /** An XML element: its tag and its text (`None` for an element without text). */
  datatype Element = Element(tag: string, text: Option<string>)

  /** What `read_specan_xml` returns: the frequency axis
      `np.linspace(start, stop, count)`, the power array and the unit pair. */
  datatype Trace = Trace(axis: Axis, power: seq<real>, xunits: Option<string>, yunits: Option<string>)

  /** The texts of the elements of `doc` with tag `tag`, in document order
      (`iter(tag=...)`). */
  function Texts(doc: seq<Element>, tag: string): (r: seq<Option<string>>)
    ensures |r| <= |doc|
    decreases |doc|
  {
    if |doc| == 0 then []
    else (if doc[0].tag == tag then [doc[0].text] else []) + Texts(doc[1..], tag)
  }

  /** The texts of a document grow element by element: no texts for no
      elements, and one more element adds its text exactly when it has the tag. */
  lemma {:induction false} TextsAppend(doc: seq<Element>, e: Element, tag: string)
    ensures Texts([], tag) == []
    ensures Texts(doc + [e], tag) == Texts(doc, tag) + (if e.tag == tag then [e.text] else [])
    decreases |doc|
  {
    if |doc| > 0 {
      TextsAppend(doc[1..], e, tag);
      assert (doc + [e])[1..] == doc[1..] + [e];
    }
  }

  /** `conv(elem.text)` for one element; no text or text that does not convert raises. */
  function ConvertOne<T>(tag: string, text: Option<string>, conv: string -> Option<T>): (r: Result<T>)
    ensures r.Ok? <==> text.Some? && conv(text.value).Some?
    ensures r.Ok? ==> r.value == conv(text.value).value
    ensures r.Err? ==> r.error == BadText(tag, text)
  {
    if text.Some? && conv(text.value).Some? then Ok(conv(text.value).value) else Err(BadText(tag, text))
  }

  /** The loop `for elem in iter(tag=tag): x = conv(elem.text)` over all the
      texts: every value in order, or the exception of the first text that does
      not convert. */
  function ConvertAll<T>(tag: string, texts: seq<Option<string>>, conv: string -> Option<T>)
    : (r: Result<seq<T>>)
    ensures r.Ok? <==> forall k :: 0 <= k < |texts| ==> ConvertOne(tag, texts[k], conv).Ok?
    ensures r.Ok? ==> |r.value| == |texts|
    ensures r.Ok? ==> forall k :: 0 <= k < |texts| ==> r.value[k] == ConvertOne(tag, texts[k], conv).value
    ensures r.Err? ==>
      exists k :: 0 <= k < |texts| && ConvertOne(tag, texts[k], conv).Err?
        && (forall m :: 0 <= m < k ==> ConvertOne(tag, texts[m], conv).Ok?)
        && r.error == BadText(tag, texts[k])
    decreases |texts|
  {
    if |texts| == 0 then Ok([])
    else
      var v :- ConvertOne(tag, texts[0], conv);
      var rest := ConvertAll(tag, texts[1..], conv);
      if rest.Err? then
        assert forall m :: 1 <= m < |texts| ==> texts[m] == texts[1..][m - 1];
        Err(rest.error)
      else
        Ok([v] + rest.value)
  }

  /** The value the loop leaves in its variable: the last one, or `None` when no
      element has the tag and the variable is never assigned. */
  function LastOf<T>(values: seq<T>): (r: Option<T>)
    ensures r.None? <==> |values| == 0
    ensures r.Some? ==> r.value == values[|values| - 1]
  {
    if |values| == 0 then None else Some(values[|values| - 1])
  }

  /** `count` zeros, as `np.zeros(count)` gives them. */
  function Zeros(count: nat): (r: seq<real>)
    ensures |r| == count && forall k :: 0 <= k < count ==> r[k] == 0.0
  {
    seq(count, _ => 0.0)
  }

  /** The outcome of the fill loop: the `y` values at indices 0, 1, 2, ...,
      zeros after them; an `IndexError` at index `count` when there are more
      `y` values than `count`. */
  function Filled(ys: seq<real>, count: nat): (r: Result<seq<real>>)
    ensures r.Ok? <==> |ys| <= count
    ensures r.Err? ==> r.error == IndexOutOfBounds(count, count)
    ensures r.Ok? ==> |r.value| == count
    ensures r.Ok? ==> forall k :: 0 <= k < |ys| ==> r.value[k] == ys[k]
    ensures r.Ok? ==> forall k :: |ys| <= k < count ==> r.value[k] == 0.0
  {
    if |ys| > count then Err(IndexOutOfBounds(count, count)) else Ok(ys + Zeros(count - |ys|))
  }

  /** The fill loop (lines 262-266): `p = np.zeros(count)`, then `p[i] = y`
      and `i += 1` for every `y` value in document order. */
  method Fill(ys: seq<real>, count: nat) returns (r: Result<seq<real>>)
    ensures r == Filled(ys, count)
  {
    var p := new real[count](_ => 0.0);
    var i := 0;
    while i < |ys|
      invariant 0 <= i <= |ys| && i <= count
      invariant p[..] == ys[..i] + Zeros(count - i)
    {
      if i >= count {
        return Err(IndexOutOfBounds(i, count));
      }
      p[i] := ys[i];
      assert ys[..i + 1] == ys[..i] + [ys[i]];
      i := i + 1;
    }
    assert ys[..i] == ys;
    return Ok(p[..]);
  }

  /** `read_specan_xml`, with the exceptions in the order the source raises them:
      a `Count`, `XStart`, `XStop` or `y` text that does not convert; `count`
      never assigned (no `Count` element) or negative (`np.zeros`); too many
      `y` values (the fill); `start` or `stop` never assigned (`np.linspace`);
      `xunits` or `yunits` never assigned (the return). */
  function ReadSpecanXml(doc: seq<Element>, toInt: string -> Option<int>, toFloat: string -> Option<real>)
    : Result<Trace>
  {
    var counts :- ConvertAll("Count", Texts(doc, "Count"), toInt);
    var starts :- ConvertAll("XStart", Texts(doc, "XStart"), toFloat);
    var stops :- ConvertAll("XStop", Texts(doc, "XStop"), toFloat);
    var xunits := LastOf(Texts(doc, "XUnits"));
    var yunits := LastOf(Texts(doc, "YUnits"));
    var ys :- ConvertAll("y", Texts(doc, "y"), toFloat);
    var count := LastOf(counts);
    if count.None? then Err(Unbound("count"))
    else if count.value < 0 then Err(NegativeDimension(count.value))
    else
      var p :- Filled(ys, count.value);
      var start := LastOf(starts);
      var stop := LastOf(stops);
      if start.None? then Err(Unbound("start"))
      else if stop.None? then Err(Unbound("stop"))
      else if xunits.None? then Err(Unbound("xunits"))
      else if yunits.None? then Err(Unbound("yunits"))
      else Ok(Trace(Axis(start.value, stop.value, count.value), p, xunits.value, yunits.value))
  }

  /** The value of a scalar is the conversion of the text of the last element
      with its tag. */
  lemma LastConverted<T>(tag: string, texts: seq<Option<string>>, conv: string -> Option<T>)
    requires ConvertAll(tag, texts, conv).Ok?
    ensures var last := LastOf(ConvertAll(tag, texts, conv).value);
      && (last.Some? <==> |texts| > 0)
      && (last.Some? ==> texts[|texts| - 1].Some? && Some(last.value) == conv(texts[|texts| - 1].value))
  {
    var vs := ConvertAll(tag, texts, conv).value;
    if |texts| > 0 {
      assert ConvertOne(tag, texts[|texts| - 1], conv).Ok?;
    }
  }

  /** What a successfully read trace holds: the axis runs from the last `XStart`
      to the last `XStop` with the last `Count` points; the power array has
      `Count` entries, the `y` values first in document order and zeros after;
      the units are the texts of the last `XUnits` and `YUnits` elements. */
  lemma TraceContents(doc: seq<Element>, toInt: string -> Option<int>, toFloat: string -> Option<real>)
    requires ReadSpecanXml(doc, toInt, toFloat).Ok?
    ensures var t := ReadSpecanXml(doc, toInt, toFloat).value;
      var counts := Texts(doc, "Count"); var starts := Texts(doc, "XStart");
      var stops := Texts(doc, "XStop"); var ys := Texts(doc, "y");
      && |counts| > 0 && |starts| > 0 && |stops| > 0
      && counts[|counts| - 1].Some? && Some(t.axis.count as int) == toInt(counts[|counts| - 1].value)
      && starts[|starts| - 1].Some? && Some(t.axis.first) == toFloat(starts[|starts| - 1].value)
      && stops[|stops| - 1].Some? && Some(t.axis.last) == toFloat(stops[|stops| - 1].value)
      && |t.power| == t.axis.count && |ys| <= t.axis.count
      && (forall k :: 0 <= k < |ys| ==> ys[k].Some? && Some(t.power[k]) == toFloat(ys[k].value))
      && (forall k :: |ys| <= k < |t.power| ==> t.power[k] == 0.0)
      && Some(t.xunits) == LastOf(Texts(doc, "XUnits"))
      && Some(t.yunits) == LastOf(Texts(doc, "YUnits"))
  {
    var counts := Texts(doc, "Count");
    var starts := Texts(doc, "XStart");
    var stops := Texts(doc, "XStop");
    var ys := Texts(doc, "y");
    var cs := ConvertAll("Count", counts, toInt);
    var ss := ConvertAll("XStart", starts, toFloat);
    var ts := ConvertAll("XStop", stops, toFloat);
    var vs := ConvertAll("y", ys, toFloat);
    SuccessfulRead(doc, toInt, toFloat, cs, ss, ts, vs);
    LastConverted("Count", counts, toInt);
    LastConverted("XStart", starts, toFloat);
    LastConverted("XStop", stops, toFloat);
    assert forall k :: 0 <= k < |ys| ==> ConvertOne("y", ys[k], toFloat).Ok?;
  }

  /** A successful read has every conversion succeed, and the trace is built
      from the last values and the filled array. */
  lemma SuccessfulRead(doc: seq<Element>, toInt: string -> Option<int>, toFloat: string -> Option<real>,
                       cs: Result<seq<int>>, ss: Result<seq<real>>, ts: Result<seq<real>>, vs: Result<seq<real>>)
    requires ReadSpecanXml(doc, toInt, toFloat).Ok?
    requires cs == ConvertAll("Count", Texts(doc, "Count"), toInt)
    requires ss == ConvertAll("XStart", Texts(doc, "XStart"), toFloat)
    requires ts == ConvertAll("XStop", Texts(doc, "XStop"), toFloat)
    requires vs == ConvertAll("y", Texts(doc, "y"), toFloat)
    ensures cs.Ok? && ss.Ok? && ts.Ok? && vs.Ok?
    ensures |cs.value| > 0 && |ss.value| > 0 && |ts.value| > 0
    ensures var count := cs.value[|cs.value| - 1];
      && count >= 0 && Filled(vs.value, count).Ok?
      && ReadSpecanXml(doc, toInt, toFloat).value
         == Trace(Axis(ss.value[|ss.value| - 1], ts.value[|ts.value| - 1], count),
                  Filled(vs.value, count).value,
                  LastOf(Texts(doc, "XUnits")).value, LastOf(Texts(doc, "YUnits")).value)
  {
  }

  /** The read succeeds exactly when every `Count`, `XStart`, `XStop` and `y`
      text converts, the last `Count` is non-negative and not below the number
      of `y` elements, and each of `XStart`, `XStop`, `XUnits` and `YUnits`
      occurs at least once. */
  lemma ReadSucceeds(doc: seq<Element>, toInt: string -> Option<int>, toFloat: string -> Option<real>)
    ensures ReadSpecanXml(doc, toInt, toFloat).Ok? <==>
      && ConvertAll("Count", Texts(doc, "Count"), toInt).Ok?
      && ConvertAll("XStart", Texts(doc, "XStart"), toFloat).Ok?
      && ConvertAll("XStop", Texts(doc, "XStop"), toFloat).Ok?
      && ConvertAll("y", Texts(doc, "y"), toFloat).Ok?
      && |Texts(doc, "Count")| > 0
      && (var counts := ConvertAll("Count", Texts(doc, "Count"), toInt).value;
          0 <= counts[|counts| - 1] && |Texts(doc, "y")| <= counts[|counts| - 1])
      && |Texts(doc, "XStart")| > 0 && |Texts(doc, "XStop")| > 0
      && |Texts(doc, "XUnits")| > 0 && |Texts(doc, "YUnits")| > 0
  {
    var cs := ConvertAll("Count", Texts(doc, "Count"), toInt);
    var ys := ConvertAll("y", Texts(doc, "y"), toFloat);
    if cs.Ok? && ys.Ok? {
      assert |ys.value| == |Texts(doc, "y")|;
    }
  }

  /** With every text readable and `Count` non-negative, more `y` elements than
      `Count` is an `IndexError` at index `Count`, and no more is not an error
      of the fill. */
  lemma TooManyValues(doc: seq<Element>, toInt: string -> Option<int>, toFloat: string -> Option<real>)
    requires ConvertAll("Count", Texts(doc, "Count"), toInt).Ok?
    requires ConvertAll("XStart", Texts(doc, "XStart"), toFloat).Ok?
    requires ConvertAll("XStop", Texts(doc, "XStop"), toFloat).Ok?
    requires ConvertAll("y", Texts(doc, "y"), toFloat).Ok?
    requires |Texts(doc, "Count")| > 0
    ensures var counts := ConvertAll("Count", Texts(doc, "Count"), toInt).value;
      var count := counts[|counts| - 1];
      count >= 0 && |Texts(doc, "y")| > count ==>
        ReadSpecanXml(doc, toInt, toFloat) == Err(IndexOutOfBounds(count, count))
  {
  }
}
