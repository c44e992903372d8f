/** Column listing and the featuretype update of one column, from
    datasets/columns.py. The frame's column names are the `columns` recorded
    in the dataset's metadata. */
module Columns {
  import opened Results
  import opened Text
  import opened Metadata
  import Ingestion

  const ColumnNotFound := "The specified column does not exist"
  /** What Python reports for `metadata["featuretypes"]` when the key is absent. */
  const MissingFeaturetypes := "'featuretypes'"
  /** What Python reports for assigning past the end of a list. */
  const IndexOutOfRange := "list assignment index out of range"

  /** `list_columns(dataset)`: column names paired with featuretypes by position. */
  function ListColumns(store: Store, dataset: string): (r: Result<seq<Column>>)
    ensures dataset !in store ==> r == Err(Error(NotFound, DatasetNotFound))
    ensures dataset in store && store[dataset].columns.Some? && store[dataset].featuretypes.Some? ==>
              var names := store[dataset].columns.value;
              var fts := store[dataset].featuretypes.value;
              && r.Ok?
              && |r.value| == (if |names| <= |fts| then |names| else |fts|)
              && forall i :: 0 <= i < |r.value| ==> r.value[i] == Column(names[i], fts[i])
    ensures r.Err? && dataset in store ==> r.error.kind == Unexpected
  {
    if dataset !in store then Err(Error(NotFound, DatasetNotFound))
    else
      var metadata := store[dataset];
      if metadata.columns.None? || metadata.featuretypes.None? then Err(Error(Unexpected, MissingFeaturetypes))
      else Ok(ZipColumns(metadata.columns.value, metadata.featuretypes.value))
  }

  /** `update_column(dataset, column, featuretype)`: answers the column info and
      the store after saving. */
  function UpdateColumn(store: Store, dataset: string, column: string, featuretype: string): (r: Result<(Column, Store)>)
    ensures dataset !in store ==> r == Err(Error(NotFound, DatasetNotFound))
    ensures dataset in store && store[dataset].columns.Some? && store[dataset].featuretypes.Some?
            && column !in store[dataset].columns.value ==>
              r == Err(Error(NotFound, ColumnNotFound))
    ensures dataset in store && (store[dataset].columns.None? || store[dataset].featuretypes.None?) ==>
              r == Err(Error(Unexpected, MissingFeaturetypes))
    ensures dataset in store && store[dataset].columns.Some? && store[dataset].featuretypes.Some?
            && column in store[dataset].columns.value
            && IndexOf(store[dataset].columns.value, column) >= |store[dataset].featuretypes.value| ==>
              r == Err(Error(Unexpected, IndexOutOfRange))
    ensures r.Ok? ==>
              && dataset in store
              && store[dataset].columns.Some? && store[dataset].featuretypes.Some?
              && column in store[dataset].columns.value
    ensures r.Ok? ==>
              var (info, store') := r.value;
              var before := store[dataset];
              var i := IndexOf(before.columns.value, column);
              && info == Column(column, featuretype)
              && store'.Keys == store.Keys
              && (forall n :: n in store && n != dataset ==> store'[n] == store[n])
              && store'[dataset].columns == before.columns
              && store'[dataset].originalFilename == before.originalFilename
              && i < |before.featuretypes.value|
              && store'[dataset].featuretypes == Some(before.featuretypes.value[i := featuretype])
              && (forall j :: 0 <= j < |store'[dataset].featuretypes.value| ==>
                    IsFeaturetype(store'[dataset].featuretypes.value[j]))
    ensures dataset in store && store[dataset].columns.Some? && store[dataset].featuretypes.Some?
            && column in store[dataset].columns.value
            && IndexOf(store[dataset].columns.value, column) < |store[dataset].featuretypes.value| ==>
              var updated := store[dataset].featuretypes.value[IndexOf(store[dataset].columns.value, column) := featuretype];
              && (r.Ok? <==> ValidateFeaturetypes(updated).None?)
              && (r.Err? ==> r.error == Error(BadRequest, InvalidFeaturetype))
  {
    if dataset !in store then Err(Error(NotFound, DatasetNotFound))
    else
      var metadata := store[dataset];
      if metadata.columns.None? || metadata.featuretypes.None? then Err(Error(Unexpected, MissingFeaturetypes))
      else
        var columns := metadata.columns.value;
        var fts := metadata.featuretypes.value;
        if column !in columns then Err(Error(NotFound, ColumnNotFound))
        else
          var i := IndexOf(columns, column);
          if i >= |fts| then Err(Error(Unexpected, IndexOutOfRange))
          else
            var updated := fts[i := featuretype];
            match ValidateFeaturetypes(updated)
            case Some(message) => Err(Error(BadRequest, message))
            case None =>
              Ok((Column(column, featuretype), store[dataset := metadata.(featuretypes := Some(updated))]))
  }

  /** The missing-column check comes before any featuretype validation. */
  lemma UnknownColumnBeforeValidation(store: Store, dataset: string, column: string, featuretype: string)
    requires dataset in store && store[dataset].columns.Some? && store[dataset].featuretypes.Some?
    requires column !in store[dataset].columns.value
    requires !IsFeaturetype(featuretype)
    ensures UpdateColumn(store, dataset, column, featuretype) == Err(Error(NotFound, ColumnNotFound))
  {
  }

  /** A label outside the three featuretypes is refused and nothing is saved:
      no new store comes back. */
  lemma InvalidFeaturetypeRefused(store: Store, dataset: string, column: string, featuretype: string)
    requires dataset in store && store[dataset].columns.Some? && store[dataset].featuretypes.Some?
    requires column in store[dataset].columns.value
    requires IndexOf(store[dataset].columns.value, column) < |store[dataset].featuretypes.value|
    requires !IsFeaturetype(featuretype)
    ensures UpdateColumn(store, dataset, column, featuretype) == Err(Error(BadRequest, InvalidFeaturetype))
  {
    var fts := store[dataset].featuretypes.value;
    var i := IndexOf(store[dataset].columns.value, column);
    assert !IsFeaturetype(fts[i := featuretype][i]);
  }

  /** The whole updated list is validated: an invalid label already stored for
      another column is refused too, whatever the new featuretype. */
  lemma StoredInvalidRefused(store: Store, dataset: string, column: string, featuretype: string, j: nat)
    requires dataset in store && store[dataset].columns.Some? && store[dataset].featuretypes.Some?
    requires column in store[dataset].columns.value
    requires IndexOf(store[dataset].columns.value, column) < |store[dataset].featuretypes.value|
    requires j < |store[dataset].featuretypes.value| && j != IndexOf(store[dataset].columns.value, column)
    requires !IsFeaturetype(store[dataset].featuretypes.value[j])
    ensures UpdateColumn(store, dataset, column, featuretype) == Err(Error(BadRequest, InvalidFeaturetype))
  {
    var fts := store[dataset].featuretypes.value;
    var i := IndexOf(store[dataset].columns.value, column);
    assert !IsFeaturetype(fts[i := featuretype][j]);
  }

  /** A valid update of a dataset whose featuretypes are all valid succeeds. */
  lemma ValidUpdateSucceeds(store: Store, dataset: string, column: string, featuretype: string)
    requires dataset in store && store[dataset].columns.Some? && store[dataset].featuretypes.Some?
    requires column in store[dataset].columns.value
    requires IndexOf(store[dataset].columns.value, column) < |store[dataset].featuretypes.value|
    requires forall j :: 0 <= j < |store[dataset].featuretypes.value| ==> IsFeaturetype(store[dataset].featuretypes.value[j])
    requires IsFeaturetype(featuretype)
    ensures UpdateColumn(store, dataset, column, featuretype).Ok?
  {
  }

  /** Setting a column to the featuretype it already has leaves the store as it was. */
  lemma UpdateToCurrentIsIdentity(store: Store, dataset: string, column: string)
    requires dataset in store && store[dataset].columns.Some? && store[dataset].featuretypes.Some?
    requires column in store[dataset].columns.value
    requires IndexOf(store[dataset].columns.value, column) < |store[dataset].featuretypes.value|
    ensures var current := store[dataset].featuretypes.value[IndexOf(store[dataset].columns.value, column)];
      var r := UpdateColumn(store, dataset, column, current);
      r.Ok? ==> r.value.1 == store
  {
    var metadata := store[dataset];
    var fts := metadata.featuretypes.value;
    var i := IndexOf(metadata.columns.value, column);
    assert fts[i := fts[i]] == fts;
    assert metadata.(featuretypes := Some(fts)) == metadata;
    assert store[dataset := metadata] == store;
  }

  /** After an update, listing the columns shows the new featuretype at the
      first position of that column name, and the earlier ones elsewhere. */
  lemma UpdateThenList(store: Store, dataset: string, column: string, featuretype: string)
    requires UpdateColumn(store, dataset, column, featuretype).Ok?
    ensures var store' := UpdateColumn(store, dataset, column, featuretype).value.1;
      var names := store[dataset].columns.value;
      var before := store[dataset].featuretypes.value;
      var i := IndexOf(names, column);
      var listed := ListColumns(store', dataset);
      && listed.Ok?
      && i < |listed.value|
      && listed.value[i] == Column(column, featuretype)
      && forall j :: 0 <= j < |listed.value| && j != i ==> listed.value[j] == Column(names[j], before[j])
  {
  }

  /** Listing the columns of a freshly created tabular dataset gives the
      columns that creation answered. */
  lemma CreateThenList(env: Ingestion.Env, store: Store, files: Ingestion.Files)
    requires Ingestion.CreateDataset(env, store, files).Ok?
    requires env.read(files.file.value).Some?
    ensures var (details, store') := Ingestion.CreateDataset(env, store, files).value;
      && details.columns.Some?
      && ListColumns(store', details.name) == Ok(details.columns.value)
  {
  }
}
