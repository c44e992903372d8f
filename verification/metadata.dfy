/** The object store as the dataset service sees it: each dataset name maps to
    the metadata stored with it, whose keys are all optional. */
module Metadata {
  import opened Results

  const DatasetNotFound := "The specified dataset does not exist"
  const InvalidFeaturetype := "featuretype must be one of DateTime, Numerical, Categorical"

  const DateTime := "DateTime"
  const Numerical := "Numerical"
  const Categorical := "Categorical"

  /** The `columns`, `featuretypes` and `original-filename` metadata keys. */
  datatype Metadata = Metadata(
    columns: Option<seq<string>>,
    featuretypes: Option<seq<string>>,
    originalFilename: Option<string>)

  type Store = map<string, Metadata>

  /** One `{"name": ..., "featuretype": ...}` entry of a column listing. */
  datatype Column = Column(name: string, featuretype: string)

  predicate IsFeaturetype(s: string) {
    s == DateTime || s == Numerical || s == Categorical
  }

  /** `validate_featuretypes`: checks every label in order and fails with the
      label error at the first one outside the three featuretypes. */
  function ValidateFeaturetypes(fts: seq<string>): (r: Option<string>)
    ensures r.None? <==> forall i :: 0 <= i < |fts| ==> IsFeaturetype(fts[i])
    ensures r.Some? ==> r.value == InvalidFeaturetype
    decreases |fts|
  {
    if |fts| == 0 then None
    else if !IsFeaturetype(fts[0]) then Some(InvalidFeaturetype)
    else ValidateFeaturetypes(fts[1..])
  }

  /** `[{"name": col, "featuretype": ftype} for col, ftype in zip(names, fts)]`:
      pairs by position, as long as the shorter list. */
  function ZipColumns(names: seq<string>, fts: seq<string>): (cols: seq<Column>)
    ensures |cols| == if |names| <= |fts| then |names| else |fts|
    ensures forall i :: 0 <= i < |cols| ==> cols[i] == Column(names[i], fts[i])
    decreases |names|
  {
    if |names| == 0 || |fts| == 0 then []
    else [Column(names[0], fts[0])] + ZipColumns(names[1..], fts[1..])
  }
}
