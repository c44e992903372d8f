/** The `FileUploadValidate` validators of datasets/schemas.py. Each one either
    accepts its field or fails with status 400 and a fixed detail. */
module Upload {
  import opened Results

  const FileNotExists := "File not exists"
  const ContentEmpty := "File content is empty or blank"
  const FilenameNotExists := "Filename not exists"

  /** An uploaded file: its filename and its bytes. */
  datatype UploadFile = UploadFile(filename: string, contents: seq<bv8>)

  /** The `name` and `size` fields that `check_file_exists` fills in. */
  datatype Fields = Fields(name: string, size: int)

  /** `check_file_exists`: the file must be present and have content; its
      length and filename then fill the `size` and `name` fields. */
  function CheckFileExists(file: Option<UploadFile>): (r: Result<Fields>)
    ensures file.None? ==> r == Err(Error(BadRequest, FileNotExists))
    ensures file.Some? && |file.value.contents| == 0 ==> r == Err(Error(BadRequest, ContentEmpty))
    ensures file.Some? && |file.value.contents| > 0 ==> r.Ok?
    ensures r.Ok? ==> file.Some? && r.value.size == |file.value.contents| > 0 && r.value.name == file.value.filename
  {
    match file
    case None => Err(Error(BadRequest, FileNotExists))
    case Some(f) =>
      if |f.contents| <= 0 then Err(Error(BadRequest, ContentEmpty))
      else Ok(Fields(f.filename, |f.contents|))
  }

  /** `check_size_is_empty`: a size given as a number must be positive. */
  function CheckSizeIsEmpty(value: Option<int>): (r: Result<Option<int>>)
    ensures r.Err? <==> value.Some? && value.value <= 0
    ensures r.Err? ==> r.error == Error(BadRequest, ContentEmpty)
    ensures r.Ok? ==> r.value == value
  {
    match value
    case Some(size) => if size <= 0 then Err(Error(BadRequest, ContentEmpty)) else Ok(value)
    case None => Ok(value)
  }

  /** `get_filename`: the name must be present and non-empty. */
  function GetFilename(value: Option<string>): (r: Result<string>)
    ensures r.Err? <==> value.None? || value.value == ""
    ensures r.Err? ==> r.error == Error(BadRequest, FilenameNotExists)
    ensures r.Ok? ==> r.value == value.value
  {
    match value
    case Some(name) => if name == "" then Err(Error(BadRequest, FilenameNotExists)) else Ok(name)
    case None => Err(Error(BadRequest, FilenameNotExists))
  }

  /** How the three validators relate: the size and name `check_file_exists`
      fills in would pass the `size` validator, and would pass the `name`
      validator exactly when the upload has a filename. This is not one
      validation pass: pydantic validates the fields in their declared order,
      `name`, `size`, then `file`, so the values written by the `file`
      validator are not checked again in that pass. */
  lemma AcceptedFieldsValidate(file: Option<UploadFile>)
    requires CheckFileExists(file).Ok?
    ensures CheckSizeIsEmpty(Some(CheckFileExists(file).value.size)).Ok?
    ensures GetFilename(Some(CheckFileExists(file).value.name)).Ok? <==> file.value.filename != ""
  {
  }
}
