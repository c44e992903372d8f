/** Dataset creation, details and listing of datasets/datasets.py, with the
    object store as a map and the foreign parts of reading a file (encoding
    detection, CSV parsing, featuretype inference) supplied by the caller. */
module Ingestion {
  import opened Results
  import opened Text
  import opened Metadata
  import Naming

  const NoFilePart := "No file part"
  const NoSelectedFile := "No selected file"
  const LengthMismatch := "featuretypes must be the same length as the DataFrame columns"

  /** An uploaded file part: its filename and its bytes. */
  datatype FilePart = FilePart(filename: string, contents: seq<bv8>)

  /** The parts of the multipart request: `file`, and `featuretypes` already
      read as its stripped, decoded lines. */
  datatype Files = Files(file: Option<FilePart>, featuretypes: Option<seq<string>>)

  /** A parsed table: its column names and its rows. */
  datatype Frame = Frame(columns: seq<string>, rows: seq<seq<string>>)

  /** The dataset details answered to the caller: `name`, `columns` when known,
      and `filename`. */
  datatype Details = Details(name: string, columns: Option<seq<Column>>, filename: Option<string>)

  /** What the service delegates to libraries: NFKD normalisation, reading a
      file part into a frame (`None` when reading raises), and featuretype
      inference. */
  datatype Env = Env(
    nfkd: string -> string,
    read: FilePart -> Option<Frame>,
    infer: Frame -> seq<string>)

  /** The metadata kept for a file that could not be read as a table. */
  function RawMetadata(filename: string): Metadata {
    Metadata(None, None, Some(filename))
  }

  /** The featuretypes of a new dataset: the `featuretypes` part when sent
      (label check first, then the length check), otherwise the inferred ones. */
  function ChooseFeaturetypes(part: Option<seq<string>>, frame: Frame, infer: Frame -> seq<string>): (r: Result<seq<string>>)
    ensures part.None? ==> r == Ok(infer(frame))
    ensures part.Some? && ValidateFeaturetypes(part.value).Some? ==> r == Err(Error(BadRequest, InvalidFeaturetype))
    ensures part.Some? && ValidateFeaturetypes(part.value).None? && |part.value| != |frame.columns| ==>
              r == Err(Error(BadRequest, LengthMismatch))
    ensures part.Some? && r.Ok? ==>
              && r.value == part.value
              && |r.value| == |frame.columns|
              && (forall i :: 0 <= i < |r.value| ==> IsFeaturetype(r.value[i]))
  {
    match part
    case None => Ok(infer(frame))
    case Some(fts) =>
      match ValidateFeaturetypes(fts)
      case Some(message) => Err(Error(BadRequest, message))
      case None =>
        if |frame.columns| != |fts| then Err(Error(BadRequest, LengthMismatch)) else Ok(fts)
  }

  /** `create_dataset(files)`: answers the details and the store after saving. */
  function CreateDataset(env: Env, store: Store, files: Files): (r: Result<(Details, Store)>)
    ensures files.file.None? ==> r == Err(Error(BadRequest, NoFilePart))
    ensures files.file.Some? && files.file.value.filename == "" ==> r == Err(Error(BadRequest, NoSelectedFile))
    ensures r.Err? ==> r.error.kind == BadRequest
    ensures r.Err? && files.file.Some? && files.file.value.filename != "" ==>
              env.read(files.file.value).Some? && files.featuretypes.Some?
    ensures r.Ok? ==>
              var (details, store') := r.value;
              && files.file.Some?
              && details.name !in store
              && IsAscii(details.name) && ' ' !in details.name
              && details.filename == Some(files.file.value.filename)
              && store'.Keys == store.Keys + {details.name}
              && (forall n :: n in store ==> store'[n] == store[n])
              && store'[details.name].originalFilename == details.filename
    ensures r.Ok? ==> r.value.0.name == Naming.GenerateName(env.nfkd, store.Keys, files.file.value.filename, 1)
    ensures files.file.Some? && files.file.value.filename != "" && env.read(files.file.value).None? ==>
              && r.Ok?
              && r.value.0.columns.None?
              && r.value.1[r.value.0.name] == RawMetadata(files.file.value.filename)
    ensures files.file.Some? && files.file.value.filename != "" && env.read(files.file.value).Some? ==>
              var frame := env.read(files.file.value).value;
              var chosen := ChooseFeaturetypes(files.featuretypes, frame, env.infer);
              && (r.Ok? <==> chosen.Ok?)
              && (r.Err? ==> r.error == chosen.error)
              && (r.Ok? ==>
                    && r.value.0.columns == Some(ZipColumns(frame.columns, chosen.value))
                    && r.value.1[r.value.0.name] == Metadata(Some(frame.columns), Some(chosen.value), Some(files.file.value.filename)))
  {
    if files.file.None? then Err(Error(BadRequest, NoFilePart))
    else
      var file := files.file.value;
      if file.filename == "" then Err(Error(BadRequest, NoSelectedFile))
      else
        var name := Naming.GenerateName(env.nfkd, store.Keys, file.filename, 1);
        match env.read(file)
        case None =>
          Ok((Details(name, None, Some(file.filename)), store[name := RawMetadata(file.filename)]))
        case Some(frame) =>
          var fts :- ChooseFeaturetypes(files.featuretypes, frame, env.infer);
          var metadata := Metadata(Some(frame.columns), Some(fts), Some(file.filename));
          Ok((Details(name, Some(ZipColumns(frame.columns, fts)), Some(file.filename)), store[name := metadata]))
  }

  /** `get_dataset(name)`. */
  function GetDataset(store: Store, name: string): (r: Result<Details>)
    ensures r.Err? <==> name !in store
    ensures r.Err? ==> r.error == Error(NotFound, DatasetNotFound)
    ensures r.Ok? ==> r.value.name == name && r.value.filename == store[name].originalFilename
    ensures r.Ok? ==> (r.value.columns.Some? <==> store[name].columns.Some? && store[name].featuretypes.Some?)
    ensures r.Ok? && r.value.columns.Some? ==>
              var cols := r.value.columns.value;
              var names := store[name].columns.value;
              var fts := store[name].featuretypes.value;
              && |cols| == (if |names| <= |fts| then |names| else |fts|)
              && forall i :: 0 <= i < |cols| ==> cols[i] == Column(names[i], fts[i])
  {
    if name !in store then Err(Error(NotFound, DatasetNotFound))
    else
      var metadata := store[name];
      if metadata.columns.Some? && metadata.featuretypes.Some? then
        Ok(Details(name, Some(ZipColumns(metadata.columns.value, metadata.featuretypes.value)), metadata.originalFilename))
      else Ok(Details(name, None, metadata.originalFilename))
  }

  /** Getting a dataset right after creating it answers the details creation
      answered, for tabular and raw uploads alike. */
  lemma CreateThenGet(env: Env, store: Store, files: Files)
    requires CreateDataset(env, store, files).Ok?
    ensures var (details, store') := CreateDataset(env, store, files).value;
      GetDataset(store', details.name) == Ok(details)
  {
  }

  /** A tabular upload with a valid `featuretypes` part of the right length is
      saved and described with exactly those featuretypes. */
  lemma CreateWithFeaturetypes(env: Env, store: Store, files: Files)
    requires files.file.Some? && files.file.value.filename != ""
    requires env.read(files.file.value).Some?
    requires files.featuretypes.Some?
    requires forall i :: 0 <= i < |files.featuretypes.value| ==> IsFeaturetype(files.featuretypes.value[i])
    requires |files.featuretypes.value| == |env.read(files.file.value).value.columns|
    ensures CreateDataset(env, store, files).Ok?
    ensures var (details, store') := CreateDataset(env, store, files).value;
      var columns := env.read(files.file.value).value.columns;
      && details.columns == Some(ZipColumns(columns, files.featuretypes.value))
      && store'[details.name] == Metadata(Some(columns), files.featuretypes, Some(files.file.value.filename))
  {
  }

  /** Labels are checked before the length: an invalid label is reported even
      when the count is also wrong. */
  lemma InvalidLabelBeforeLength(env: Env, store: Store, files: Files)
    requires files.file.Some? && files.file.value.filename != ""
    requires env.read(files.file.value).Some?
    requires files.featuretypes.Some?
    requires exists i :: 0 <= i < |files.featuretypes.value| && !IsFeaturetype(files.featuretypes.value[i])
    ensures CreateDataset(env, store, files) == Err(Error(BadRequest, InvalidFeaturetype))
  {
  }

  /** Without a `featuretypes` part, a readable upload is saved and described
      with the inferred featuretypes. */
  lemma CreateInferred(env: Env, store: Store, files: Files)
    requires files.file.Some? && files.file.value.filename != ""
    requires env.read(files.file.value).Some?
    requires files.featuretypes.None?
    ensures CreateDataset(env, store, files).Ok?
    ensures var (details, store') := CreateDataset(env, store, files).value;
      var frame := env.read(files.file.value).value;
      && details.columns == Some(ZipColumns(frame.columns, env.infer(frame)))
      && store'[details.name] == Metadata(Some(frame.columns), Some(env.infer(frame)), Some(files.file.value.filename))
  {
  }

  /** Valid labels that do not match the number of columns are refused, and
      nothing is saved. */
  lemma LengthMismatchRefused(env: Env, store: Store, files: Files)
    requires files.file.Some? && files.file.value.filename != ""
    requires env.read(files.file.value).Some?
    requires files.featuretypes.Some?
    requires forall i :: 0 <= i < |files.featuretypes.value| ==> IsFeaturetype(files.featuretypes.value[i])
    requires |files.featuretypes.value| != |env.read(files.file.value).value.columns|
    ensures CreateDataset(env, store, files) == Err(Error(BadRequest, LengthMismatch))
  {
  }

  /** A filename whose normalised form is not yet stored keeps that name. */
  lemma CreateKeepsFreeName(env: Env, store: Store, files: Files)
    requires files.file.Some?
    requires CreateDataset(env, store, files).Ok?
    requires Naming.Normalise(env.nfkd, files.file.value.filename) !in store
    ensures CreateDataset(env, store, files).value.0.name == Naming.Normalise(env.nfkd, files.file.value.filename)
  {
  }

  /** `list_datasets()` over the store's listing of names. */
  function ListDatasets(store: Store, listing: seq<string>): (r: Result<seq<Details>>)
    ensures r.Ok? <==> forall i :: 0 <= i < |listing| ==> listing[i] in store
    ensures r.Ok? ==> |r.value| == |listing|
    ensures r.Ok? ==> forall i :: 0 <= i < |listing| ==> GetDataset(store, listing[i]) == Ok(r.value[i])
    ensures r.Err? ==> r.error == Error(NotFound, DatasetNotFound)
    decreases |listing|
  {
    if |listing| == 0 then Ok([])
    else
      match GetDataset(store, listing[0])
      case Err(e) => Err(e)
      case Ok(d) =>
        match ListDatasets(store, listing[1..])
        case Err(e) => Err(e)
        case Ok(ds) => Ok([d] + ds)
  }

  // The header decision of `read_into_dataframe`

  /** Whether to take the first row as the header (`"infer"`) or to read every
      row as data (`None`, columns named by prefix). */
  datatype Header = Infer | Headerless

  /** The positions below `n` where the two dtype sequences agree. */
  ghost function Agreeing<D>(a: seq<D>, b: seq<D>, n: nat): set<nat>
    requires n <= |a| && n <= |b|
  {
    set i: nat | i < n && a[i] == b[i]
  }

  /** `(df1.dtypes.values == df2.dtypes.values).sum()`. */
  function Matches<D(==)>(a: seq<D>, b: seq<D>): (m: nat)
    requires |a| == |b|
    ensures m <= |a|
    ensures m == |Agreeing(a, b, |a|)|
    decreases |a|
  {
    if |a| == 0 then 0
    else
      var n := |a| - 1;
      var m := Matches(a[..n], b[..n]) + (if a[n] == b[n] then 1 else 0);
      AgreeingStep(a, b, n);
      m
  }

  lemma AgreeingStep<D>(a: seq<D>, b: seq<D>, n: nat)
    requires |a| == |b| == n + 1
    ensures |Agreeing(a, b, n + 1)| == |Agreeing(a[..n], b[..n], n)| + (if a[n] == b[n] then 1 else 0)
  {
    var prefix := Agreeing(a[..n], b[..n], n);
    assert prefix == Agreeing(a, b, n);
    if a[n] == b[n] {
      assert Agreeing(a, b, n + 1) == prefix + {n};
    } else {
      assert Agreeing(a, b, n + 1) == prefix;
    }
  }

  /** `header = "infer" if sim < th else None` with `th = 0.9`, where `sim` is
      the share of columns whose dtype is the same whether or not the first row
      is read as a header. */
  function ChooseHeader<D(==)>(withHeader: seq<D>, withoutHeader: seq<D>): (h: Header)
    requires |withHeader| == |withoutHeader| > 0
    ensures h == Infer <==> (Matches(withHeader, withoutHeader) as real) / (|withHeader| as real) < 0.9
  {
    var m := Matches(withHeader, withoutHeader);
    var n := |withHeader|;
    ShareBelow(m, n);
    if 10 * m < 9 * n then Infer else Headerless
  }

  lemma ShareBelow(m: nat, n: nat)
    requires 0 < n
    ensures (m as real) / (n as real) < 0.9 <==> 10 * m < 9 * n
  {
    RealDivBelow(m as real, n as real, 0.9);
    assert (m as real) < 0.9 * (n as real) <==> 10 * m < 9 * n;
  }

  /** For a positive divisor, a quotient is below `t` exactly when the dividend
      is below `t` times the divisor. */
  lemma RealDivBelow(a: real, x: real, t: real)
    requires 0.0 < x
    ensures a / x < t <==> a < t * x
  {
    var s := a / x;
    assert s * x == a;
    if s < t {
      RealScale(s, t, x);
    } else {
      RealScale(t, s, x);
    }
  }

  lemma RealScale(a: real, b: real, x: real)
    requires a <= b && 0.0 < x
    ensures a * x <= b * x
    ensures a < b ==> a * x < b * x
  {
  }

  /** A file whose first row reads as data in every column is read headerless. */
  lemma SameDtypesHeaderless<D>(dtypes: seq<D>)
    requires |dtypes| > 0
    ensures ChooseHeader(dtypes, dtypes) == Headerless
  {
    MatchesSelf(dtypes);
  }

  lemma {:induction false} MatchesSelf<D>(a: seq<D>)
    ensures Matches(a, a) == |a|
    decreases |a|
  {
    if |a| > 0 {
      MatchesSelf(a[..|a| - 1]);
    }
  }

  /** Column names `col0`, `col1`, ... that `prefix="col"` gives a headerless read. */
  function PrefixedNames(n: nat): (names: seq<string>)
    ensures |names| == n
    ensures forall i :: 0 <= i < n ==> names[i] == "col" + Decimal(i)
    decreases n
  {
    if n == 0 then [] else PrefixedNames(n - 1) + ["col" + Decimal(n - 1)]
  }

  /** Synthesised column names never repeat. */
  lemma PrefixedNamesDistinct(n: nat, i: nat, j: nat)
    requires i < n && j < n && i != j
    ensures PrefixedNames(n)[i] != PrefixedNames(n)[j]
  {
    var names := PrefixedNames(n);
    if names[i] == names[j] {
      assert Decimal(i) == names[i][3..];
      assert Decimal(j) == names[j][3..];
      DecimalInjective(i, j);
    }
  }

  /** The column names of the final read: the first row under `Infer`,
      `col0..col(N-1)` otherwise. */
  function HeaderColumns(h: Header, firstRow: seq<string>): (names: seq<string>)
    ensures |names| == |firstRow|
    ensures h == Headerless ==> forall i :: 0 <= i < |names| ==> names[i] == "col" + Decimal(i)
  {
    match h
    case Infer => firstRow
    case Headerless => PrefixedNames(|firstRow|)
  }
}
