/** Choosing the reader for a measurement file from its extension
    (`get_iq_object`). The reader classes themselves are represented by
    constructors carrying the arguments they would be built with. */
module Dispatch {
  import opened Common
  import opened Text

  // ---------------------------------------------------------------------------
  // os.path.splitext (POSIX rules)

  /** True when `p[lo..hi]` holds a character other than a dot. */
  predicate HasNonDot(p: string, lo: int, hi: int)
    requires 0 <= lo <= hi <= |p|
  {
    exists k :: lo <= k < hi && p[k] != '.'
  }

  /** `os.path.splitext(p)`: the extension runs from the last dot of the base
      name to the end, unless that dot is only preceded by dots in the base
      name (a leading-dot name such as `.hidden` has no extension). */
  function SplitExt(p: string): (r: (string, string))
    ensures r.0 + r.1 == p
    ensures r.1 == [] || (r.1[0] == '.' && '.' !in r.1[1..] && '/' !in r.1)
  {
    var sepIndex := LastIndexOf(p, '/');
    var dotIndex := LastIndexOf(p, '.');
    if dotIndex > sepIndex && HasNonDot(p, sepIndex + 1, dotIndex) then
      assert forall k :: 0 <= k < |p[dotIndex..]| ==> p[dotIndex..][k] == p[dotIndex + k];
      (p[..dotIndex], p[dotIndex..])
    else
      (p, "")
  }

  function Extension(p: string): string
  {
    SplitExt(p).1
  }

  /** A file named `root.e`, whose base name does not end in a dot, has the
      extension `.e`. */
  lemma ExtensionOfNamedFile(root: string, e: string)
    requires |root| > 0 && root[|root| - 1] != '/' && root[|root| - 1] != '.'
    requires '.' !in e && '/' !in e
    ensures SplitExt(root + "." + e) == (root, "." + e)
  {
    var p := root + "." + e;
    assert p[|root|] == '.';
    assert forall k :: |root| < k < |p| ==> p[k] == e[k - |root| - 1];
    var dotIndex := LastIndexOf(p, '.');
    var sepIndex := LastIndexOf(p, '/');
    assert dotIndex == |root|;
    assert p[|root| - 1] == root[|root| - 1];
    assert sepIndex < |root| - 1;
    assert HasNonDot(p, sepIndex + 1, dotIndex);
    assert p[..dotIndex] == root;
    assert p[dotIndex..] == "." + e;
  }

  // ---------------------------------------------------------------------------
  // Readers

  datatype ReaderKind = Csv | Bin | Wav | Iqt | Tiq | Tdms | Tcap | Xdat

  /** The reader object built for a file; TCAP and XDAT readers also take the
      name of their text header file. */
  datatype IqObject =
    | CsvData(filename: string)
    | BinData(filename: string)
    | WavData(filename: string)
    | IqtData(filename: string)
    | TiqData(filename: string)
    | TdmsData(filename: string)
    | TcapData(filename: string, headerFilename: string)
    | XdatData(filename: string, headerFilename: string)

  function Kind(o: IqObject): ReaderKind
  {
    match o
    case CsvData(_) => Csv
    case BinData(_) => Bin
    case WavData(_) => Wav
    case IqtData(_) => Iqt
    case TiqData(_) => Tiq
    case TdmsData(_) => Tdms
    case TcapData(_, _) => Tcap
    case XdatData(_, _) => Xdat
  }

  /** The extension table the chain of tests encodes: lower-case extension to
      reader kind. */
  const Registry: map<string, ReaderKind> :=
    map[".txt" := Csv, ".csv" := Csv, ".bin" := Bin, ".wav" := Wav,
        ".iqt" := Iqt, ".iq" := Iqt, ".tiq" := Tiq, ".tdms" := Tdms,
        ".dat" := Tcap, ".xdat" := Xdat]

  predicate NeedsHeader(k: ReaderKind)
  {
    k == Tcap || k == Xdat
  }

  /** Python truthiness of `header_filename`: neither `None` nor empty. */
  predicate Truthy(header: Option<string>)
  {
    header.Some? && header.value != ""
  }

  /** The chain of tests of `get_iq_object` on the lower-cased extension
      `ext`, one test per extension. */
  function ReaderFor(ext: string, filename: string, header: Option<string>): Option<IqObject>
  {
    if ext == ".txt" || ext == ".csv" then Some(CsvData(filename))
    else if ext == ".bin" then Some(BinData(filename))
    else if ext == ".wav" then Some(WavData(filename))
    else if ext == ".iqt" then Some(IqtData(filename))
    else if ext == ".iq" then Some(IqtData(filename))
    else if ext == ".tiq" then Some(TiqData(filename))
    else if ext == ".tdms" then Some(TdmsData(filename))
    else if ext == ".dat" then
      if !Truthy(header) then None else Some(TcapData(filename, header.value))
    else if ext == ".xdat" then
      if !Truthy(header) then None else Some(XdatData(filename, header.value))
    else None
  }

  /** `get_iq_object(filename, header_filename)`. */
  function GetIqObject(filename: string, header: Option<string>): Option<IqObject>
  {
    ReaderFor(Lower(Extension(filename)), filename, header)
  }

  /** The chain of tests agrees with the extension table: a reader is built
      exactly for the registered extensions (given a header file where the
      reader needs one), it is of the registered kind, and it is built with
      the file name and header file name given. */
  lemma ReaderForMatchesRegistry(ext: string, filename: string, header: Option<string>)
    ensures var r := ReaderFor(ext, filename, header);
      && (r.Some? <==> ext in Registry && (NeedsHeader(Registry[ext]) ==> Truthy(header)))
      && (r.Some? ==> Kind(r.value) == Registry[ext] && r.value.filename == filename)
      && (r.Some? && NeedsHeader(Kind(r.value)) ==> Truthy(header) && r.value.headerFilename == header.value)
  {
  }

  /** `get_iq_object` agrees with the extension table on the lower-cased extension. */
  lemma GetIqObjectMatchesRegistry(filename: string, header: Option<string>)
    ensures var ext := Lower(Extension(filename)); var r := GetIqObject(filename, header);
      && (r.Some? <==> ext in Registry && (NeedsHeader(Registry[ext]) ==> Truthy(header)))
      && (r.Some? ==> Kind(r.value) == Registry[ext] && r.value.filename == filename)
      && (r.Some? && NeedsHeader(Kind(r.value)) ==> Truthy(header) && r.value.headerFilename == header.value)
  {
    ReaderForMatchesRegistry(Lower(Extension(filename)), filename, header);
  }

  function KindOf(o: Option<IqObject>): Option<ReaderKind>
  {
    if o.Some? then Some(Kind(o.value)) else None
  }

  /** The kind of reader chosen for an extension does not depend on the file name. */
  lemma ReaderForKind(ext: string, f1: string, f2: string, header: Option<string>)
    ensures KindOf(ReaderFor(ext, f1, header)) == KindOf(ReaderFor(ext, f2, header))
  {
  }

  /** The choice depends on nothing but the lower-cased extension (and, for
      TCAP and XDAT, on whether a header file is named). */
  lemma KindDependsOnlyOnExtension(f1: string, f2: string, header: Option<string>)
    requires Lower(Extension(f1)) == Lower(Extension(f2))
    ensures KindOf(GetIqObject(f1, header)) == KindOf(GetIqObject(f2, header))
  {
    ReaderForKind(Lower(Extension(f1)), f1, f2, header);
  }

  /** The reader of `root.e` is the one registered for `.e` in lower case. */
  lemma ReaderOfNamedFile(root: string, e: string, header: Option<string>)
    requires |root| > 0 && root[|root| - 1] != '/' && root[|root| - 1] != '.'
    requires '.' !in e && '/' !in e
    ensures GetIqObject(root + "." + e, header) == ReaderFor("." + Lower(e), root + "." + e, header)
  {
    ExtensionOfNamedFile(root, e);
    assert Lower("." + e) == "." + Lower(e);
  }

  /** Upper-case letters in the extension do not change the reader. */
  lemma ExtensionCaseIgnored(root: string, e: string, header: Option<string>)
    requires |root| > 0 && root[|root| - 1] != '/' && root[|root| - 1] != '.'
    requires '.' !in e && '/' !in e
    ensures KindOf(GetIqObject(root + "." + e, header)) == KindOf(GetIqObject(root + "." + Lower(e), header))
  {
    ReaderOfNamedFile(root, e, header);
    assert forall k :: 0 <= k < |Lower(e)| ==> Lower(e)[k] == LowerChar(e[k]);
    assert '.' !in Lower(e) && '/' !in Lower(e);
    ReaderOfNamedFile(root, Lower(e), header);
    LowerIdempotent(e);
    ReaderForKind("." + Lower(e), root + "." + e, root + "." + Lower(e), header);
  }

  /** `.txt` and `.csv` select the CSV reader, `.iq` and `.iqt` the IQT
      reader, and `.dat` and `.xdat` the TCAP and XDAT readers when a header
      file is named and nothing otherwise. */
  lemma ReadersOfExtensions(filename: string, header: Option<string>)
    ensures ReaderFor(".txt", filename, header) == Some(CsvData(filename))
    ensures ReaderFor(".csv", filename, header) == Some(CsvData(filename))
    ensures ReaderFor(".iq", filename, header) == Some(IqtData(filename))
    ensures ReaderFor(".iqt", filename, header) == Some(IqtData(filename))
    ensures ReaderFor(".dat", filename, header) ==
      if Truthy(header) then Some(TcapData(filename, header.value)) else None
    ensures ReaderFor(".xdat", filename, header) ==
      if Truthy(header) then Some(XdatData(filename, header.value)) else None
  {
  }

  /** A file whose extension reads `txt` or `csv`, in any case, gets the CSV
      reader. */
  lemma CsvFiles(root: string, e: string, header: Option<string>)
    requires |root| > 0 && root[|root| - 1] != '/' && root[|root| - 1] != '.'
    requires '.' !in e && '/' !in e
    requires Lower(e) == "txt" || Lower(e) == "csv"
    ensures GetIqObject(root + "." + e, header) == Some(CsvData(root + "." + e))
  {
    var f := root + "." + e;
    ReaderOfNamedFile(root, e, header);
    ReadersOfExtensions(f, header);
    if Lower(e) == "txt" {
      assert "." + Lower(e) == ".txt";
      assert ReaderFor(".txt", f, header) == Some(CsvData(f));
    } else {
      assert "." + Lower(e) == ".csv";
      assert ReaderFor(".csv", f, header) == Some(CsvData(f));
    }
  }

  /** A file whose extension reads `iq` or `iqt`, in any case, gets the IQT
      reader. */
  lemma IqtFiles(root: string, e: string, header: Option<string>)
    requires |root| > 0 && root[|root| - 1] != '/' && root[|root| - 1] != '.'
    requires '.' !in e && '/' !in e
    requires Lower(e) == "iq" || Lower(e) == "iqt"
    ensures GetIqObject(root + "." + e, header) == Some(IqtData(root + "." + e))
  {
    var f := root + "." + e;
    ReaderOfNamedFile(root, e, header);
    ReadersOfExtensions(f, header);
    if Lower(e) == "iq" {
      assert "." + Lower(e) == ".iq";
      assert ReaderFor(".iq", f, header) == Some(IqtData(f));
    } else {
      assert "." + Lower(e) == ".iqt";
      assert ReaderFor(".iqt", f, header) == Some(IqtData(f));
    }
  }

  /** A TCAP or XDAT file named with an upper- or lower-case extension and
      no header file name (or an empty one) gives no reader. */
  lemma HeaderRequired(root: string, e: string, header: Option<string>)
    requires |root| > 0 && root[|root| - 1] != '/' && root[|root| - 1] != '.'
    requires '.' !in e && '/' !in e
    requires Lower(e) == "dat" || Lower(e) == "xdat"
    requires header == None || header == Some("")
    ensures GetIqObject(root + "." + e, header) == None
  {
    var f := root + "." + e;
    ReaderOfNamedFile(root, e, header);
    ReadersOfExtensions(f, header);
    assert !Truthy(header);
    if Lower(e) == "dat" {
      assert "." + Lower(e) == ".dat";
      assert ReaderFor(".dat", f, header) == None;
    } else {
      assert "." + Lower(e) == ".xdat";
      assert ReaderFor(".xdat", f, header) == None;
    }
  }

  /** A file without an extension, or with one outside the table, gives no reader. */
  lemma UnknownExtension(filename: string, header: Option<string>)
    requires Lower(Extension(filename)) !in Registry
    ensures GetIqObject(filename, header) == None
  {
  }
}
