# pyreadstat label resolution, SPSS multiple-response parsing, and buffer I/O, in Dafny

This project models three parts of pyreadstat and proves properties of them.

- **Value labels** (`pyreadstat/pyfunctions.py`).
  - `set_value_labels` replaces each coded cell of a data frame by its label. It can also turn the column into an unordered or an ordered categorical. In the ordered case the categories follow the raw codes, through the `revdict` loop.
  - `set_catalog_to_sas` swaps in the label sets of a SAS catalog. It then relabels the frame with them and rebuilds `variable_value_labels`.
  - Frames, columns and metadata are immutable Dafny values. So "the input is never mutated" holds by construction: no function can change its arguments.
- **Multiple-response sets** (`src/spss/readstat_sav_parse_mr_name.c`).
  - `parse_mr_string` splits the multiple-response record of a `.sav` file into lines.
  - `parse_mr_line` and `extract_mr_data` read one line, `name=<C|D><count> <value> <len> <label> <vars>`, into an `mr_set_t`.
  - The two Ragel state machines are modelled by what they accept and compute, not table by table. The model keeps their semantic actions as written:
    - the name copy;
    - the type and the moved start;
    - the count and counted value, including the start that is not advanced when the count is 0;
    - the length-prefixed label;
    - the subvariables.
- **Buffer I/O** (`src/readstat_io_buffer.c`). The open, close, seek, read and progress-update handlers over an in-memory `{buf, size, pos}` context.

Files:

| file | module | contents |
|---|---|---|
| `readstat_errors.dfy` | `ReadstatErrors` | the `readstat_error_t` codes used; `Result` |
| `values.dfy` | `Values` | Python cell values, truthiness, the ordering `sorted` uses |
| `value_labels.dfy` | `ValueLabels` | `set_value_labels`, `revdict`, ordered categories, `set_catalog_to_sas` |
| `label_properties.dfy` | `LabelProperties` | relations between calls; the worked examples |
| `c_text.dfy` | `CText` | character classes, `strtol`, decimal text, text occurrence |
| `mr_line.dfy` | `MrLine` | `mr_set_t`, `extract_mr_data`, `parse_mr_line` |
| `mr_line_properties.dfy` | `MrLineProperties` | what every accepted or rejected line satisfies |
| `mr_line_format.dfy` | `MrLineFormat` | the line SPSS writes for a set; the read-back proof |
| `mr_string.dfy` | `MrString` | `parse_mr_string`; a record as a list of lines |
| `mr_string_format.dfy` | `MrStringFormat` | the record written for a list of sets; the read-back proof |
| `mr_examples.dfy` | `MrExamples` | rejected inputs worked through |
| `buffer_io.dfy` | `BufferIo` | the buffer I/O handlers and how they combine |

Behaviours of the code that a reader might not expect, which the model keeps as written:

- The docstring of `set_catalog_to_sas` (pyreadstat/pyfunctions.py:81-82, 104) says that when no appropriate format is found, the frame and the metadata come back unaltered. The code replaces `value_labels` with the catalog's whenever both the catalog's label sets and the data's format names are non-empty. This happens even when no format matches. The frame then comes back unchanged, but the metadata does not: `value_labels` is the catalog's and `variable_value_labels` is empty (`LabelProperties.CatalogWithoutMatchingFormats`).
- The ordered categories are not always ordered by the least code of each label. The test `if not revdict.get(curcat)` lets a later code overwrite a falsy one: a code of `0`, `0.0` or `""`. This is shown in `LabelProperties.RevDictSkipsFalsyLeastCode` and `LabelProperties.FalsyCodeReordersCategories`.
- The first subvariable of a line keeps the blanks that come before it. The machine does not move `start` over them.
- A count of `0` sets the counted value to -1 but leaves `start` on the count digits. The label length is then read with `strtol` from the count onward, so it is 0.

## Model

| member | source | states |
|---|---|---|
| ValueLabels.ExtendLabels | pyreadstat/pyfunctions.py:47-50 | the extended dictionary keeps every original label and maps each column value that has no label to itself; its keys are the labels' keys plus the column's values |
| ValueLabels.RelabelCells | pyreadstat/pyfunctions.py:51 | `replace_strict` keeps the length; cell i becomes its label when it has one and stays as it is otherwise |
| ValueLabels.RevDict | pyreadstat/pyfunctions.py:54-60 | `revdict` has exactly the labels as keys, and each label's entry is a code that carries that label |
| ValueLabels.RevDictChoosesCode | pyreadstat/pyfunctions.py:55-60 | with the codes visited in ascending order, the code `revdict` keeps for a label is its least truthy code when it has one; when every code with that label is falsy, it is the greatest of them |
| ValueLabels.OrderedCategories | pyreadstat/pyfunctions.py:53-61 | the categories are exactly the labels, without repeats, in strictly increasing order of their `revdict` code |
| ValueLabels.CategoriesCoverLabels | pyreadstat/pyfunctions.py:53 | `list(set(labels.values()))`: every label shows up among the categories, and only labels do |
| ValueLabels.CategoriesDistinct | pyreadstat/pyfunctions.py:53 | the category list has no repeated label |
| ValueLabels.RelabelColumn | pyreadstat/pyfunctions.py:45-72 | the column raises `TypeError` exactly when ordered mode must sort codes of mixed kinds; otherwise its cells are relabelled; its dtype is the ordered categorical over `OrderedCategories` when ordered mode is on (whatever `formats_as_category` says), plain categorical when only `formats_as_category` is on, and otherwise not categorical: the plain column `replace_strict` returns |
| ValueLabels.OrderedColumnCategories | pyreadstat/pyfunctions.py:47-53 | the categories of an ordered column are the dictionary's labels together with the column values that have no label |
| ValueLabels.SetValueLabels | pyreadstat/pyfunctions.py:38-75 | the result has the same columns; it raises exactly when some resolving column must sort codes of mixed kinds; a column whose format name resolves to a non-empty dictionary is relabelled; every other column is left as it was |
| ValueLabels.CatalogVariableLabels | pyreadstat/pyfunctions.py:115-120 | `variable_value_labels` maps exactly the variables whose format names a non-empty catalog label set, and maps each one to that set |
| ValueLabels.SetCatalogToSas | pyreadstat/pyfunctions.py:108-127 | with catalog label sets and format names present: the frame is `set_value_labels` under the catalog's label sets, `value_labels` is replaced by the catalog's exactly, `variable_value_labels` is rebuilt from the catalog, and nothing else changes. Otherwise frame and metadata come back unchanged |
| LabelProperties.NoMetadataKeepsFrame | pyreadstat/pyfunctions.py:40 | with no label sets or no format names, the frame comes back identical |
| LabelProperties.SetValueLabelsOnColumnSubset | pyreadstat/pyfunctions.py:41-51 | relabelling a sub-frame of some columns gives exactly those columns of the relabelled whole frame |
| LabelProperties.OrderedModeTakesPrecedence | pyreadstat/pyfunctions.py:52-71 | with ordered mode on, the result is the same whether `formats_as_category` is set or not |
| LabelProperties.CatalogWithoutMatchingFormats | pyreadstat/pyfunctions.py:108-120 | a catalog whose non-empty sets no variable names leaves the frame unchanged; `value_labels` is still replaced by the catalog's, and `variable_value_labels` is empty |
| LabelProperties.RevDictTakesLeastTruthyCode | pyreadstat/pyfunctions.py:55-60 | when a label's smallest code is truthy, `revdict` holds that code |
| LabelProperties.RevDictSkipsFalsyLeastCode | pyreadstat/pyfunctions.py:59-60 | when a label's smallest code is falsy and another code carries the label, `revdict` does not hold the smallest code |
| LabelProperties.FalsyCodeReordersCategories | pyreadstat/pyfunctions.py:55-61 | for the codes 0 and `ca` with label `a` and the code `cb` with label `b`, where 0 < `cb` < `ca`, the categories are `[b, a]` |
| LabelProperties.OrderedThreeLevels | pyreadstat/pyfunctions.py:53-61 | three codes with distinct labels give the labels in code order, whatever the label text |
| LabelProperties.OrderedLevelsExample | pyreadstat/pyfunctions.py:45-62 | codes {3: high, 1: low, 2: medium} on [1, 2, 3, 1] give [low, medium, high, low] with categories [low, medium, high] |
| LabelProperties.CategoricalLevelsExample | pyreadstat/pyfunctions.py:69-71 | the same codes and cells in unordered mode give [low, medium, high, low] as a plain categorical |
| Values.SortedElems | pyreadstat/pyfunctions.py:54-55 | `sorted` on a set gives each element once, in strictly increasing order |
| MrLine.Tokens | src/spss/readstat_sav_parse_mr_name.c:223-234 | a successful subvariable list is non-empty; every failure is `READSTAT_ERROR_BAD_MR_STRING` |
| MrLine.TokensAreNames | src/spss/readstat_sav_parse_mr_name.c:223-234 | every subvariable after the first is a run of `[A-Za-z0-9_]`, and so is the first when no blanks precede it |
| MrLine.FirstToken | src/spss/readstat_sav_parse_mr_name.c:223-230 | the first subvariable is the blanks before the first name character, then a name |
| MrLine.LabelAndList | src/spss/readstat_sav_parse_mr_name.c:209-234 | only the label and the subvariables are filled in; the subvariable list is non-empty; every failure is the bad-string error |
| MrLine.CountedAndRest | src/spss/readstat_sav_parse_mr_name.c:188-234 | only the counted value, the label and the subvariables are filled in; the subvariable list is non-empty; every failure is the bad-string error |
| MrLine.ExtractMrData | src/spss/readstat_sav_parse_mr_name.c:73-282 | defined on C strings, one character per byte, as the C code stops at the first NUL; an accepted line starts with the non-empty set name, then `=`, then the type; the type is `C` or `D`; `is_dichotomy` holds exactly for `D`; there is at least one subvariable; a rejection is `READSTAT_ERROR_BAD_MR_STRING` |
| MrLine.ParseMrLine | src/spss/readstat_sav_parse_mr_name.c:285-288 | for a C string, the status is OK exactly when the line is accepted, and then the set is the one extracted; a rejected line leaves the all-zero set |
| MrLineProperties.ExtractedNameIsName | src/spss/readstat_sav_parse_mr_name.c:173-179 | the name of an accepted set is a run of `[A-Za-z0-9_]` and is the line's prefix |
| MrLineProperties.TokensRejectDoubleBlank | src/spss/readstat_sav_parse_mr_name.c:223-234 | from the first name character of the subvariable list on, two white-space characters in a row reject the list: names are separated by exactly one. Blanks before the first name are accepted (see `MrLine.FirstToken`) |
| MrLineProperties.CountZeroEmptiesLabel | src/spss/readstat_sav_parse_mr_name.c:188-221 | when there is at least one count digit and the digits read as zero, the counted value is -1 and the label is empty, because the label length is read from the count digits on |
| MrLineProperties.StrToLStopsAtRunEnd | src/spss/readstat_sav_parse_mr_name.c:212-215 | `strtol` from a digit gives the same value however far the copied text reaches past the run of digits |
| MrLineProperties.SubvariablesAreNames | src/spss/readstat_sav_parse_mr_name.c:223-234 | every accepted subvariable is a name, except that the first carries the blanks before it |
| MrLineFormat.ExtractFormatted | src/spss/readstat_sav_parse_mr_name.c:73-282 | every set with a name, type C or D, a label of bytes without NUL, a counted value of -1 or more and non-empty name-only subvariables is written as a C string and read back exactly from it |
| MrLineFormat.LabelAndListOfFormatted | src/spss/readstat_sav_parse_mr_name.c:209-234 | a written length, label and subvariable list are read back, whether the length is read from its own digits or after one blank |
| MrLineFormat.CountedAndRestWithoutValue | src/spss/readstat_sav_parse_mr_name.c:188-207 | an empty count reads as counted value -1, and the rest is read back |
| MrLineFormat.CountedAndRestWithValue | src/spss/readstat_sav_parse_mr_name.c:188-207 | a count of the value's digit count reads the value's digits as the counted value, and the rest is read back |
| MrLineFormat.TokensOfJoin | src/spss/readstat_sav_parse_mr_name.c:223-234 | names joined by single blanks are read back as those names |
| MrLineFormat.FormatMrLineIsCString | src/spss/readstat_sav_parse_mr_name.c:73-80 | the line written for a set with a NUL-free label holds no NUL, so the C code reads all of it |
| MrString.Lines | src/spss/readstat_sav_parse_mr_name.c:337-468 | the outer machine from its second state: it reports OK or the bad-string error; OK needs a final newline and at least one set |
| MrString.ParseMrString | src/spss/readstat_sav_parse_mr_name.c:337-468 | the record is accepted only when it starts with `$` and ends with a newline, and then holds at least one set; a text that is empty or does not start with `$` is rejected with no set |
| MrString.ParseLines | src/spss/readstat_sav_parse_mr_name.c:427-441 | parsing lines in turn: OK exactly when every line is accepted, and then one set per line; otherwise it stops at the first rejected line, reports its status, and keeps the sets of the lines before it, in order |
| MrString.LinesOfRecord | src/spss/readstat_sav_parse_mr_name.c:427-456 | where a record of lines appears in the text, the machine's result is the line-by-line result |
| MrString.ParseMrStringOfRecord | src/spss/readstat_sav_parse_mr_name.c:337-468 | any text made of `$` and the first line, then for each further line any non-newline character and the line, each line ended by a newline, parses as its lines do one by one |
| MrString.ParseMrStringOfTruncatedRecord | src/spss/readstat_sav_parse_mr_name.c:427-462 | a `$`-led record of complete lines followed by one more lead character and a line without its newline is rejected, and the sets of the complete lines before the first rejected one are kept, as `n_mr_lines` counts them |
| MrString.LinesOfTruncatedRecord | src/spss/readstat_sav_parse_mr_name.c:427-462 | where such a truncated record appears in the text, the machine rejects it and keeps the line-by-line sets of its complete lines |
| MrStringFormat.ParseFormattedMrString | src/spss/readstat_sav_parse_mr_name.c:337-468 | the record written for a non-empty list of writable sets is accepted and gives back exactly those sets, in order, so `n_mr_lines` is the number of lines |
| MrStringFormat.FormatMrLineIsLineText | src/spss/readstat_sav_parse_mr_name.c:427-441 | the line written for a set has no newline or NUL when its label has none, so the outer machine cuts the record at its line breaks |
| MrExamples.MissingFinalNewline | src/spss/readstat_sav_parse_mr_name.c:459-462 | a one-line record without its final newline is rejected, and no set is kept |
| MrExamples.UnknownTypeLine | src/spss/readstat_sav_parse_mr_name.c:252-255 | the type `E` rejects the line; that every type other than `C` and `D` does follows from the contract of `MrLine.ExtractMrData` |
| BufferIo.Open | src/readstat_io_buffer.c:8-11 | open returns OK and rewinds to position 0, keeping the buffer |
| BufferIo.Close | src/readstat_io_buffer.c:13-16 | close returns OK and rewinds to position 0, keeping the buffer |
| BufferIo.Seek | src/readstat_io_buffer.c:18-40 | the result is -1 exactly when the flag is unknown or the target (offset from start, current position or end) is negative, and then the context is unchanged; otherwise the position becomes the target, even past the end, and is returned |
| BufferIo.Read | src/readstat_io_buffer.c:42-52 | the count is the smaller of the request and the bytes left (0 at or past the end); the data are the buffer's bytes from the position on, that many; the position advances by the count |
| BufferIo.Update | src/readstat_io_buffer.c:54-64 | the result is `READSTAT_ERROR_USER_ABORT` exactly when a progress callback is set and answers non-zero, and OK otherwise |
| BufferIo.ReadsCompose | src/readstat_io_buffer.c:42-52 | two reads in a row return the same bytes and leave the same position as one read of both counts |
| BufferIo.ReadAfterSeekSet | src/readstat_io_buffer.c:18-52 | after seeking to `offset` from the start, a read returns the bytes from `offset` on, as many as were asked for and are there |
| BufferIo.ReadAfterOpen | src/readstat_io_buffer.c:8-11 | after open, a read returns the buffer's first bytes |
| BufferIo.NothingAfterEnd | src/readstat_io_buffer.c:29-48 | a seek to or past the end succeeds, and a read there returns 0 bytes and leaves the position |
| BufferIo.RereadAfterSeekBack | src/readstat_io_buffer.c:26-52 | seeking back by the count just read restores the context, and reading again returns the same bytes |
| BufferIo.SeekCurZero | src/readstat_io_buffer.c:26-39 | a seek by zero from the current position reports the position and changes nothing |
| BufferIo.ReadStaysWithinBuffer | src/readstat_io_buffer.c:44-50 | a position at or before the end stays so after a read |
| BufferIo.HandlersKeepBuffer | src/readstat_io_buffer.c:8-52 | no handler changes the buffer or its size |

## Left out

- Data frames are modelled as maps from column name to cells. Narwhals' backends, dtypes other than the three kinds of column, NaN, `None` and missing cells are not modelled. Sorting codes of mixed kinds is modelled as Python's `TypeError`.
- Reading files, `worker.py`, `setup.py` and the C-extension glue are not part of this model.
- `buffer_io_init` is left out. It registers the five handlers and returns the error of the first registration that fails; a failing update-handler registration is swallowed, and the stale `READSTAT_OK` is returned (src/readstat_io_buffer.c:82-83). It then allocates the context `{buffer, size, 0}` and hands it to the parser. The registration calls are parser code outside this model, and the allocation is memory management.
- BufferIo.Update: the progress fraction `pos / file_size` passed to the callback is floating point. The callback is foreign code, so its answer is a parameter and the fraction is not modelled.
- BufferIo.Seek: `readstat_off_t` and `size_t` are unbounded integers here. Overflow of `pos + offset` or `size + offset` is not modelled.
- BufferIo.Read: a request larger than `SSIZE_MAX`, which turns negative when cast to `ssize_t`, is not modelled. The model holds a buffer with at least `size` bytes, as the caller of `buffer_io_init` must provide.
- MrLine.ExtractMrData: each character of a line stands for one byte of the C string, so lengths and counts count bytes. Text in a multi-byte encoding such as UTF-8 must be given as its bytes, one character each; a character above 255 is outside the model.
- MrLine.ExtractMrData: takes C strings only. Bytes after an embedded NUL never reach the C code, so a line holding a NUL is outside the model.
- MrLine.ExtractMrData: `strtol` and `int` overflow on very long digit runs is not modelled. Counts and lengths are unbounded.
- MrLine.ExtractMrData: where the C code would copy past the end of the line, the line is rejected instead. This covers a label length or counted-value count that reaches past the end. In C this is undefined behaviour.
- MrString.Lines: two newlines in a row make the C code write before the start of a zero-size buffer, which is undefined behaviour. The model rejects that line and keeps the sets read before it.
- MrString.ParseMrString: the input is a C string, so it holds no NUL. The partial `mr_sets` array is not modelled. On failure the model returns only the sets counted in `n_mr_lines`.
- The Ragel tables and interpreter are not modelled state by state. Memory allocation and freeing are not modelled either.
