# platiagro datasets: a Dafny model of the ingestion core

This project models the pure decision logic of the platiagro `datasets`
service, which accepts uploaded tabular files, names and stores them, and
serves their columns and content:

- **Pagination** (`data_pagination`): rows are cut into chunks of
  `abs(page_size)` by `zip_longest`, the requested chunk is picked with Python
  list indexing (negative positions included), and `filter(None, ...)` drops
  the `None` padding together with every other falsy row.
- **Snake case** (`to_snake_case`): the two regular-expression rewrites
  `(.)([A-Z][a-z]+)` and `([a-z0-9])([A-Z])` as left-to-right scans, then
  lower-casing.
- **Dataset names** (`generate_name`): ASCII normalisation with dashes for
  spaces, `os.path.splitext`, and the probe for `-2`, `-3`, ... suffixes.
- **Ingestion** (`create_dataset`, `get_dataset`, `list_datasets`, and the
  header rule of `read_into_dataframe`).
- **Columns** (`list_columns`, `update_column`).
- **Upload validation** (the three validators of `FileUploadValidate`).

The object store is a `map` from dataset name to a `Metadata` record whose
`columns`, `featuretypes` and `original-filename` entries are `Option`s.
Operations that write to the store return the new store with their answer.
Exceptions become `Err(Error(kind, message))` values; the kind is the HTTP
class (`NotFound` 404, `BadRequest` 400, `Unexpected` 500).
Some parts come from outside the service:

- NFKD normalisation is a caller-supplied `nfkd` function.
- Reading an upload into a frame is a caller-supplied `read`. It returns
  `None` where `read_into_dataframe` raises.
- Featuretype inference is a caller-supplied `infer`.

Python truthiness of a row is a caller-supplied `truthy`.

Decisions where the code leaves something to a library outside the service (the platiagro SDK):

- Saving a frame records its column names along with the metadata the
  service passes. The service passes only `featuretypes` and
  `original-filename`, but `get_dataset` and `list_columns` read `columns`
  back, and tests/test_api.py:173-196 shows them present after creation.
- A raw (unreadable) upload is saved with only its original filename as
  metadata. The code passes no metadata at all, so what the store keeps for
  it is the library's choice.
- The frame's column names (`df.columns` in `columns.py`) are the `columns`
  recorded in the metadata.

## Model

| member | source | states |
|---|---|---|
| Text.ToLower | datasets/utils.py:56 | lower-casing leaves no `A`..`Z`, maps each upper-case letter to its lower-case letter and keeps every other character |
| Text.Decimal | datasets/datasets.py:200 | the attempt number is written as a non-empty string of decimal digits with no leading zero (`0` alone for zero), as `str` writes it |
| Text.ParseDecimalOfDecimal | datasets/datasets.py:200 | reading the written attempt number back gives the number |
| Text.DecimalInjective | datasets/datasets.py:200 | distinct attempt numbers are written differently |
| Text.LastIndexOf | datasets/datasets.py:199 | the position `rfind` reports holds the character and none follows it; -1 means the character is absent |
| Text.IndexOf | datasets/columns.py:58 | `list.index` gives the first position holding the value |
| Pagination.Chunks | datasets/utils.py:30 | `zip_longest` cuts the rows into `NumPages(len, n)` chunks; `Pagination.ChunkAt` and `Pagination.ChunkLength` fix each chunk's rows and length |
| Pagination.ChunkLength | datasets/utils.py:30 | `zip_longest` over one iterator yields chunks of exactly `abs(page_size)` entries |
| Pagination.PyIndex | datasets/utils.py:35-37 | a chunk index is valid exactly from `-len` to `len-1`, negative ones counting from the end |
| Pagination.Keep | datasets/utils.py:33-35 | `filter(None, ...)` keeps only truthy rows and never lengthens a chunk |
| Pagination.DataPagination | datasets/utils.py:9-39 | NotFound "The specified page does not exist" exactly when the page is outside `1-k..k` for `k = ceil(len/abs(page_size))`, so for empty content or a zero page size; otherwise a page of at most `abs(page_size)` truthy rows |
| Pagination.NumPagesIsCeil | datasets/utils.py:30 | for a positive page size the number of chunks is `ceil(len/n)` |
| Pagination.StartIsProduct | datasets/utils.py:30 | chunk `i` starts at row `i*n` |
| Pagination.ChunkAt | datasets/utils.py:30 | chunk `i` is rows `Start(i) .. min(Start(i)+n, len)` followed by `None` padding, where `Start(i) = i*n` (`Pagination.StartIsProduct`) |
| Pagination.KeepPad | datasets/utils.py:33-35 | filtering a padded chunk keeps exactly the truthy rows of its slice, in order |
| Pages.PageSlice | datasets/utils.py:30 | the rows of any chunk are a non-empty run of at most `n` rows |
| Pages.PageAt | datasets/utils.py:30-37 | a page number that Python indexing maps to chunk `i` answers the truthy rows of chunk `i` |
| Pages.PositivePage | datasets/utils.py:30-35 | page `p` in `1..k` is the truthy part of the rows of chunk `p-1` (`Pages.PageSlice`), in order |
| Pages.PositivePageSlice | datasets/utils.py:30-35 | without falsy rows, page `p` in `1..k` is exactly rows `Start(p-1) .. min(Start(p-1)+n, len)`, that is `(p-1)*n .. min(p*n, len)` |
| Pages.SameChunk | datasets/utils.py:35-37 | two page numbers that index the same chunk give the same answer |
| Pages.NonPositivePage | datasets/utils.py:35-37 | a page `p <= 0` with `-p < k` counts chunks from the end as Python indexing does: it is the same as page `k+p` |
| Pages.NegativePageSize | datasets/utils.py:30 | a negative page size gives the same answer as its absolute value |
| Pages.PagesCoverContent | datasets/utils.py:30-35 | without falsy rows, pages `1..k` concatenated are the whole content |
| Pages.PagesPrefix | datasets/utils.py:30-35 | without falsy rows, pages `1..j` concatenated are the first `min(Start(j), len)` rows, that is `min(j*n, len)` |
| SnakeCase.LowerRun | datasets/utils.py:55 | the greedy `[a-z]+` run covers only lower-case letters and stops before the next non-lower-case one |
| SnakeCase.SnakeMarks | datasets/utils.py:55-56 | the marked result spells the lower-cased input once the inserted underscores are dropped, is no shorter, and begins with the first input character |
| SnakeCase.ToSnakeCase | datasets/utils.py:55-56 | the result has no upper-case ASCII letter, is at least as long as the input, and starts with the lower-cased first character (no underscore is put before it) |
| SnakeCase.SnakeCaseErasesToLower | datasets/utils.py:55-56 | deleting exactly the underscores the rewrites inserted yields the lower-cased input |
| SnakeCase.NoUpperUnchanged | datasets/utils.py:55-56 | a name without upper-case letters is returned unchanged |
| SnakeCase.SplitWords | datasets/utils.py:55 | the first rewrite never shortens the name (where it inserts is stated by the lemmas below) |
| SnakeCase.SplitCamel | datasets/utils.py:56 | the second rewrite never shortens the name (where it inserts is stated by the lemmas below) |
| SnakeCase.SplitWordsKeepsOriginals | datasets/utils.py:55 | the first rewrite only inserts underscores: the input characters survive in order |
| SnakeCase.SplitCamelKeepsOriginals | datasets/utils.py:56 | the second rewrite only inserts underscores: the input characters survive in order |
| SnakeCase.SplitWordsNoUpper | datasets/utils.py:55 | without an upper-case letter the first pattern never matches |
| SnakeCase.SplitCamelNoUpper | datasets/utils.py:56 | without an upper-case letter the second pattern never matches |
| SnakeCase.SplitWordsInsertsBeforeWords | datasets/utils.py:55 | every underscore the first rewrite inserts comes after a character other than a newline and before an upper-case letter that a lower-case letter follows |
| SnakeCase.SplitWordsRun | datasets/utils.py:55 | where `(.)([A-Z][a-z]+)` matches at the start, the underscore goes after the first character, the whole greedy lower-case run is consumed, and the scan resumes after it |
| SnakeCase.SplitWordsNoMatch | datasets/utils.py:55 | where the first pattern matches nowhere, the first rewrite changes nothing |
| SnakeCase.SplitWordsAppend | datasets/utils.py:55 | across a seam that no match can cross (the right side does not continue a lower-case run and no match starts at the left side's last character), the two sides are rewritten independently |
| SnakeCase.SplitCamelNoPairLeft | datasets/utils.py:56 | after the second rewrite no `[a-z0-9][A-Z]` pair is left adjacent |
| SnakeCase.SplitCamelKeepsWords | datasets/utils.py:55-56 | the second rewrite leaves every underscore of the first where it was, with its capitalised word after it and no newline before it, and puts each of its own between a `[a-z0-9]` and a `[A-Z]` symbol |
| SnakeCase.SnakeCasePlacesUnderscores | datasets/utils.py:55-56 | across the whole conversion, every inserted underscore follows a character and sits either inside a `[a-z0-9][A-Z]` pair or after a non-newline character in front of a capitalised word; the lower-casing keeps the inserted underscores in place |
| SnakeCase.SplitCamelInsertsInPairs | datasets/utils.py:56 | on input characters, every underscore the second rewrite inserts sits between a `[a-z0-9]` symbol and a `[A-Z]` symbol |
| SnakeCase.SplitCamelCount | datasets/utils.py:56 | the second rewrite inserts exactly one underscore per adjacent `[a-z0-9][A-Z]` pair of its input |
| SnakeCase.SplitCamelNoPair | datasets/utils.py:56 | without an adjacent `[a-z0-9][A-Z]` pair the second rewrite changes nothing |
| SnakeCase.SplitCamelAppend | datasets/utils.py:56 | across a seam that is not a `[a-z0-9][A-Z]` pair, the two sides are rewritten independently |
| SnakeCaseExamples.AcronymThenWords | datasets/utils.py:55-56 | a lower-case prefix, an acronym and two capitalised words come out as those four words, lower-cased and joined by single underscores |
| SnakeCaseExamples.AcronymWords | datasets/utils.py:55 | in such a name the first rewrite inserts one underscore only, between the acronym and the first capitalised word |
| SnakeCaseExamples.AcronymCamel | datasets/utils.py:56 | the second rewrite then inserts underscores between prefix and acronym and between the two words |
| SnakeCaseExamples.CamelJoin | datasets/utils.py:56 | two pieces without an inner `[a-z0-9][A-Z]` pair that form one where they meet get exactly one underscore, there |
| SnakeCaseExamples.AcronymInCamelCase | datasets/utils.py:55-56 | `getHTTPResponseCode` becomes `get_http_response_code` |
| SnakeCaseExamples.NewlineBlocksWordSplit | datasets/utils.py:55 | `A\nBc` becomes `a\nbc`: the `.` of the first pattern does not match a newline |
| SnakeCaseExamples.WordSplitAfterLetter | datasets/utils.py:55-56 | `AxBc` becomes `ax_bc`: any other character before a capitalised word gets an underscore |
| Naming.DropNonAscii | datasets/datasets.py:193 | encoding to ASCII with `ignore` leaves only ASCII characters, keeps every ASCII character as often as the input has it, and keeps ASCII text as it is |
| Naming.DropNonAsciiAppend | datasets/datasets.py:193 | dropping works piece by piece, so the kept characters stay in input order |
| Naming.DashSpaces | datasets/datasets.py:194 | every space becomes a dash and every other character stays |
| Naming.Normalise | datasets/datasets.py:192-195 | the normalised name is ASCII and has no space |
| Naming.NormaliseIdentity | datasets/datasets.py:192-195 | an ASCII name without spaces that NFKD leaves alone is its own normalised name |
| Naming.Splitext | datasets/datasets.py:199 | stem and extension concatenate back to the name; a non-empty extension starts at the last dot, inside the last path component, after some non-dot character of it; the extension is empty exactly when only dots precede every dot of the last component |
| Naming.SplitextIris | datasets/datasets.py:199 | `iris.data` splits into `iris` and `.data` |
| Naming.SplitextHidden | datasets/datasets.py:199 | `.bashrc` has no extension |
| Naming.Candidate | datasets/datasets.py:192-200 | every candidate name is ASCII and has no space |
| Naming.CandidateInjective | datasets/datasets.py:197-200 | distinct attempts from the first on try distinct names |
| Naming.GenerateName | datasets/datasets.py:180-209 | the name returned is free, ASCII and space-free; it is the normalised name when that is free at the first attempt; it is the candidate of the first free attempt, and the attempts it probes past are at most the store's names still pending |
| Naming.PendingShrinks | datasets/datasets.py:202-209 | a taken candidate leaves one pending stored name fewer, so the probe ends within the store's size plus one attempts |
| Naming.GenerateNameProbes | datasets/datasets.py:180-209 | from the first attempt, the first free candidate is returned after at most one probe per stored name plus one |
| Metadata.ValidateFeaturetypes | datasets/columns.py:61 | the labels pass exactly when each is DateTime, Numerical or Categorical; otherwise the error names the three labels |
| Metadata.ZipColumns | datasets/columns.py:25-29 | the i-th entry pairs the i-th name with the i-th featuretype, for as many entries as the shorter list |
| Ingestion.ChooseFeaturetypes | datasets/datasets.py:62-74 | a sent `featuretypes` part is checked for labels first and then for length, and is used as sent; without it the inferred featuretypes are used |
| Ingestion.CreateDataset | datasets/datasets.py:27-85 | "No file part" and "No selected file" come first; every error is a BadRequest and, past those two, needs a readable file with a `featuretypes` part; success saves under the name `generate_name` gives, which is fresh and ASCII, without touching other datasets; an unreadable file is always accepted, saved raw and answered without columns; a readable one succeeds exactly when the featuretypes choice does, failing with its error, and is saved with its columns, the chosen featuretypes and its filename, answering the columns zipped with those featuretypes |
| Ingestion.GetDataset | datasets/datasets.py:88-113 | NotFound exactly for a missing name; columns are answered, zipped by position with the length of the shorter list, exactly when both `columns` and `featuretypes` are recorded; the filename is the recorded one |
| Ingestion.CreateInferred | datasets/datasets.py:62-85 | without a `featuretypes` part the inferred featuretypes are saved and answered |
| Ingestion.LengthMismatchRefused | datasets/datasets.py:71-72 | valid labels of the wrong count are refused with the length error |
| Ingestion.CreateKeepsFreeName | datasets/datasets.py:50 | a filename whose normalised form is not stored is saved under that form |
| Ingestion.CreateThenGet | datasets/datasets.py:27-113 | getting a dataset right after creating it answers what creation answered |
| Ingestion.CreateWithFeaturetypes | datasets/datasets.py:62-85 | valid featuretypes of the right length are saved and answered as sent |
| Ingestion.InvalidLabelBeforeLength | datasets/datasets.py:63-72 | an invalid label is reported even when the length is wrong too |
| Ingestion.ListDatasets | datasets/datasets.py:17-24 | succeeds exactly when every listed name is stored, answering each one's details in listing order |
| Ingestion.Matches | datasets/datasets.py:164 | the number of agreeing dtypes is the size of the set of positions where they agree |
| Ingestion.ChooseHeader | datasets/datasets.py:164-165 | the first row is taken as the header exactly when the share of agreeing dtypes, as a real number, is below 0.9 |
| Ingestion.SameDtypesHeaderless | datasets/datasets.py:164-175 | when every dtype agrees the file is read without a header |
| Ingestion.PrefixedNames | datasets/datasets.py:174-175 | headerless columns are named `col0`, `col1`, ... |
| Ingestion.PrefixedNamesDistinct | datasets/datasets.py:174-175 | synthesised column names never repeat |
| Ingestion.HeaderColumns | datasets/datasets.py:165-175 | a headerless read names its columns `col0..col(N-1)`, one per column |
| Columns.ListColumns | datasets/columns.py:8-33 | NotFound for a missing dataset; otherwise the i-th name paired with the i-th featuretype, as long as the shorter list |
| Columns.UpdateColumn | datasets/columns.py:36-73 | NotFound for a missing dataset or column; Unexpected with the `KeyError` text when `featuretypes` (or the column list) is not recorded, and Unexpected with the `IndexError` text when the column's index is past the recorded featuretypes; on success only the featuretype at the column's first index changes, all labels are valid, other datasets and the column list are untouched, and the answer is the column with its new featuretype; for an existing column whose index is within the recorded featuretypes the update succeeds exactly when the whole updated list passes validation, and otherwise fails with BadRequest and the label error |
| Columns.UnknownColumnBeforeValidation | datasets/columns.py:54-61 | an unknown column is reported even with an invalid featuretype |
| Columns.InvalidFeaturetypeRefused | datasets/columns.py:58-71 | an invalid featuretype is refused with BadRequest and no store is written |
| Columns.StoredInvalidRefused | datasets/columns.py:58-71 | an invalid label already stored for another column is refused with BadRequest too, whatever the new featuretype |
| Columns.ValidUpdateSucceeds | datasets/columns.py:54-73 | a valid featuretype for an existing column of a dataset with valid labels is saved |
| Columns.UpdateToCurrentIsIdentity | datasets/columns.py:58-66 | setting a column to its current featuretype leaves the store as it was |
| Columns.UpdateThenList | datasets/columns.py:8-73 | after an update, the listing shows the new featuretype at the column's first index and the earlier ones elsewhere |
| Columns.CreateThenList | datasets/columns.py:8-33 | listing the columns of a freshly created tabular dataset gives the columns creation answered |
| Upload.CheckFileExists | datasets/schemas.py:14-25 | "File not exists" for a missing file, "File content is empty or blank" for empty content; a present file with content is accepted, with size its byte length and name its filename |
| Upload.CheckSizeIsEmpty | datasets/schemas.py:27-31 | a given size is refused with "File content is empty or blank" exactly when it is not positive |
| Upload.GetFilename | datasets/schemas.py:33-37 | the name is refused with "Filename not exists" exactly when it is absent or empty |
| Upload.AcceptedFieldsValidate | datasets/schemas.py:14-37 | a relation between the validators, not a run of them (pydantic validates `name`, `size`, then `file`, so within one pass the values `check_file_exists` writes are not checked again): the size and name it fills in would pass the size validator, and would pass the name validator exactly when the filename is non-empty |

## Left out

- Encoding detection with chardet, compression inference and pandas CSV
  parsing in `read_into_dataframe` (datasets/datasets.py:130-162) are foreign
  libraries. Reading is the `read` parameter and only the header rule is modelled.
- The `float` mean compared with 0.9: the rule is stated over the real share
  and decided by the integer comparison `10*matches < 9*n`. Both dtype
  sequences are required to have the same positive length, since an empty
  mean is NaN.
- Ingestion.HeaderColumns: pandas' renaming of header cells is not modelled:
  under `"infer"` it renames duplicate names (`a.1`) and blank cells
  (`Unnamed: i`); the model takes the first row as the names unchanged.
- `infer_featuretypes` and `validate_featuretypes` live in a library that is
  not part of this model. Inference is the `infer` parameter. Validation is
  membership in the three labels its error message names.
- Object store calls (`stat_dataset`, `save_dataset`, `load_dataset`,
  `load_metadata`, `list_datasets`) are replaced by the map and by the
  listing parameter of `ListDatasets`; there is no I/O.
- Naming.GenerateName: Python's recursion limit is not modelled. `generate_name`
  recurses once per taken candidate, so CPython would raise `RecursionError`
  (an HTTP 500) after about a thousand taken names; the model always answers
  the first free name, and `Naming.PendingShrinks` bounds the probe only
  mathematically.
- The race between `generate_name`'s probe and the later save is a
  concurrency matter outside this sequential model.
- Unicode NFKD is the `nfkd` parameter.
- SnakeCase.ToSnakeCase: requires an ASCII name, because `lower()` of
  non-ASCII letters is not modelled.
- SnakeCase.ToSnakeCase: its own contract does not say where underscores
  go. The positions are stated for the whole conversion by
  `SnakeCase.SnakeCasePlacesUnderscores`, per rewrite by
  `SnakeCase.SplitWordsInsertsBeforeWords`, `SnakeCase.SplitCamelInsertsInPairs`,
  `SnakeCase.SplitCamelNoPairLeft` and `SnakeCase.SplitCamelCount`, and, for
  whole names, for a lower-case prefix followed by an acronym and
  capitalised words (`SnakeCaseExamples.AcronymThenWords`).
- SnakeCase.SplitWords: does not state the converse of
  `SnakeCase.SplitWordsInsertsBeforeWords` (that every place where a match
  could start gets an underscore). Matches overlap, and which ones the scan
  takes is shown by `SnakeCase.SplitWordsRun` and the worked cases.
- Decoding the `featuretypes` part (`strip().decode("utf8")`) is not
  modelled: the part arrives as its lines.
- Columns.ListColumns and Columns.UpdateColumn: a dataset without recorded
  `columns` or `featuretypes` gives an Unexpected error. Python raises
  `KeyError` there, and `UpdateColumn` also answers Unexpected where
  `featuretypes[idx] = featuretype` raises `IndexError` (a column list longer
  than the featuretypes); both reach the client as HTTP 500. What `load_dataset` does with a raw upload is the
  library's business.
- `datasets/samples.py`, `datasets/api.py`, `datasets/monkeypatch.py` and
  `setup.py` are configuration, server and packaging glue.
