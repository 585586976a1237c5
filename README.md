# LaF flat-file readers in Dafny

LaF reads large flat files (delimited CSV and fixed-width text) block by
block. It turns each field into an integer, a double, a string or a factor
code without loading the whole file. The repository holds several
generations of the reader, and each behaves a little differently:

- `LaF/src`: the older package. It has the line-based CSV reader, the
  fixed-width reader, the conversions `strtoint` / `strtodouble`, the
  integer factor column, the line-break detection and the line utilities
  `nlines`, `get_line` and `get_lines`.
- `src`: the newer package. It has its own line-based CSV reader, which
  pads short lines and knows about a byte order mark, plus the factor and
  integer columns, the reader with its column list, the reader manager and
  `determine_linebreak` / `has_bom`.
- `work/v01`–`work/v05`: prototypes.
  - Byte buffers with `next` / `peek`.
  - Character-by-character CSV state machines (NEWREC, INREC, INRECQ,
    ENDREC) that report to columns or to event handlers.
  - `atoif`, `f_atol` and `f_atod`.
  - The dynamic array and the array columns.
  - The counting event handlers.

Each source file is its own module, named after its generation and its
file (`LaFCsvReader`, `SrcCsvReader`, `V05Conversion`,
`WorkCsvReader`, ...). Where a source file uses code of another
generation, or code that is not part of this model, its module imports
the module of the generation that has it:

- `LaFFile` proves its loop against `SrcFile.LinebreakOf`;
- `SrcIntColumn` and `LaFIntFactorColumn` use `LaFConversion`'s `strtoint`;
- `WorkCsvReader` reads through `V02Buffer`;
- `V04Main` is proved against `V05EventHandlerColumns.Apply`, as the same
  handler class;
- `V05ArrayColumn` stores into `V04DynamicArray`.

The modules `Text`, `LineLayout`, `LineScan` and `CsvLayout` hold
definitions that several of them use:

- digit and space scanning;
- the layout of a row of fields in a file;
- the step-by-step semantics of the line-based `next_line`;
- the layout of a quoted field of the state machines.

A file is its content as a `seq<char>`, each `char` a byte. The stream
position is a counter into that sequence, and a block read is the slice
`min(block, remaining)` long. The objects whose fields the C++ code updates
are classes:

- the readers and their buffers;
- the columns;
- the dynamic array;
- the event handlers;
- the reader manager.

Their methods are proved against specification functions:

- `Run`, `NextLineOf` and `OffsetOf` for the line readers;
- `Step` / `Run` for the state machines;
- `StrToIntOf`, `AtoifOf` and `FAtodOf` for the conversions;
- `LineScanOf` and `LinesScanOf` for the line utilities.

Lemmas state what those functions mean:

- a laid-out row reads back as its fields;
- quoted separators and doubled or escaped quotes are taken as text;
- a number written as digits converts to its value;
- trailing text, inner spaces and blank fields are flagged;
- `get_line` returns exactly the requested lines.

Handler and column callbacks behind virtual calls appear as a trace of
calls (`events`, `calls`) that the methods extend.

## Model

| member | source | states |
|---|---|---|
| SrcFile.DetermineLinebreak | src/file.cpp:22-37 | the byte-by-byte loop returns the code of `LinebreakOf`, the first line break of the file |
| SrcFile.LinebreakNone | src/file.cpp:25-36 | the code is 0 exactly when the file holds neither '\n' nor '\r' (both directions) |
| SrcFile.FirstBreakFound | src/file.cpp:25-29 | when a break exists, the scan stops on the first one |
| SrcFile.FirstBreakAfter | src/file.cpp:25-29 | bytes other than '\n' and '\r' are passed over |
| SrcFile.LinebreakUnix | src/file.cpp:26-27 | a first break that is '\n' gives 1 |
| SrcFile.LinebreakDos | src/file.cpp:29-31 | a first break "\r\n" gives 2 |
| SrcFile.LinebreakMac | src/file.cpp:29-33 | a '\r' followed by another byte or by the end of the file gives 3 |
| SrcFile.HasBom | src/file.cpp:39-50 | a file that cannot be opened is an error; otherwise true exactly when the first three bytes are EF BB BF, whatever `c` held before the first read |
| LaFFile.DetermineLinebreak | LaF/src/file.cpp:21-37 | the older loop returns the same code as `SrcFile.LinebreakOf`, a value in 0..3 |
| SrcReaderManager.ReaderManager.constructor | src/readermanager.cpp:69-70 | a new manager holds no readers |
| SrcReaderManager.Registry.Instance | src/readermanager.cpp:27-34 | the first call creates an empty manager; every later call returns that same object |
| SrcReaderManager.ReaderManager.NewReader | src/readermanager.cpp:43-46 | the reader is appended and its handle is the number of entries before the call, so handles are never reused |
| SrcReaderManager.ReaderManager.GetReader | src/readermanager.cpp:48-52 | null for a negative handle or one at or past the table size, otherwise the entry under the handle |
| SrcReaderManager.ReaderManager.CloseReader | src/readermanager.cpp:54-66 | the entry of the handle becomes null; the table keeps its size and every other entry; a negative, out-of-range or closed handle changes nothing |
| SrcReaderManager.LookupAfterNew | src/readermanager.cpp:43-52 | after new_reader the new handle reaches the new reader and every other handle reaches what it reached before |
| SrcReaderManager.LookupAfterClose | src/readermanager.cpp:48-60 | after close_reader the closed handle reaches null and every other handle reaches what it reached before |
| SrcReader.Reader.constructor | src/reader.cpp:20-22 | the defaults: decimal separator '.', no trimming, failed conversions not ignored, no columns |
| SrcReader.Reader.AddDoubleColumn | src/reader.cpp:29-35 | one double column is appended, indexed by the previous column count, taking the current ignore flag and separator; the settings stay |
| SrcReader.Reader.AddIntColumn | src/reader.cpp:37-42 | one int column is appended, indexed by the previous column count, taking the current ignore flag |
| SrcReader.Reader.AddStringColumn | src/reader.cpp:44-49 | one string column is appended, indexed by the previous column count, taking the current trim flag |
| SrcReader.Reader.AddFactorColumn | src/reader.cpp:50-55 | one new factor column is appended, indexed by the previous column count, taking the current trim flag, with no levels |
| SrcReader.Reader.GetColumns | src/reader.cpp:57-59 | all columns in the order they were added |
| SrcReader.Reader.GetColumn | src/reader.cpp:61-63 | the i-th column added, whose index is i |
| SrcReader.Reader.SetDecimalSeparator | src/reader.cpp:65-67 | sets the separator only; existing columns are untouched |
| SrcReader.Reader.GetDecimalSeparator | src/reader.cpp:69-71 | returns the separator last set |
| SrcReader.Reader.SetTrim | src/reader.cpp:73-75 | sets the trim flag only; existing columns are untouched |
| SrcReader.Reader.GetTrim | src/reader.cpp:77-79 | returns the trim flag last set |
| SrcReader.Reader.SetIgnoreFailedConversion | src/reader.cpp:81-83 | sets the ignore flag only; existing columns are untouched |
| SrcReader.Reader.GetIgnoreFailedConversion | src/reader.cpp:85-87 | returns the ignore flag last set |
| SrcFactorColumn.FactorColumn.constructor | src/factorcolumn.cpp:22-24 | a new factor column does not trim and has no levels |
| SrcFactorColumn.FactorColumn.SetTrim | src/factorcolumn.cpp:29-31 | sets the trim flag; the levels stay |
| SrcFactorColumn.FactorColumn.GetTrim | src/factorcolumn.cpp:33-35 | returns the trim flag last set |
| SrcFactorColumn.FactorColumn.GetLevels | src/factorcolumn.cpp:51-53 | returns the whole level map |
| SrcFactorColumn.FactorColumn.GetValue | src/factorcolumn.cpp:37-49 | an empty value is missing and leaves the map; a value already seen returns its code and leaves the map; an unseen value is added with code one past the number of levels; the numbering 1..n is kept |
| SrcFactorColumn.NumberedAdd | src/factorcolumn.cpp:45-47 | adding a value keeps the codes exactly 1..size, each code owned by one value |
| SrcFactorColumn.LevelsOfNumbered | src/factorcolumn.cpp:45-48 | over any sequence of calls from no levels the codes stay 1..size |
| SrcFactorColumn.LevelsAreFirstSeen | src/factorcolumn.cpp:40-48 | after a sequence of calls the k-th distinct non-empty value has code k, and every level is one of those values |
| SrcIntColumn.GetValue | src/intcolumn.cpp:30-44 | a result other than missing is the strtoint value of the field; under the ignore policy there is never an error; an error comes only from a failing strtoint on a non-blank field and names the line before the current one, the column and the field |
| SrcIntColumn.BlankIsMissing | src/intcolumn.cpp:34 | an empty or all-space field is missing whatever the policy |
| SrcIntColumn.Converts | src/intcolumn.cpp:34-35 | a non-blank field that converts reads as the strtoint value |
| SrcIntColumn.ReadsInteger | src/intcolumn.cpp:34-35 | spaces, an optional sign, digits and spaces read as the signed decimal value of the digits |
| SrcIntColumn.Fails | src/intcolumn.cpp:36-43 | a non-blank field strtoint rejects is missing when failures are ignored and otherwise the error naming line, column and field |
| SrcIntColumn.InnerSpaceFails | src/intcolumn.cpp:35-43 | a space between digits makes the conversion fail, so the policy decides |
| SrcIntColumn.NotBlank | src/intcolumn.cpp:34 | a field with a byte other than a space is not blank |
| SrcIntColumn.DigitsNotBlank | src/intcolumn.cpp:34 | a field with a digit in it is not blank |
| LaFIntFactorColumn.IntFactorColumn.constructor | LaF/src/intfactorcolumn.cpp:22-24 | a new column has no levels |
| LaFIntFactorColumn.IntFactorColumn.GetValue | LaF/src/intfactorcolumn.cpp:29-45 | the map is not changed; the result is `Lookup`: missing for a blank field, the error naming line, column and field when strtoint fails, missing for a key without a level, otherwise that key's code |
| LaFIntFactorColumn.SetLevelOf | LaF/src/intfactorcolumn.cpp:47-57 | a new key gets code size+1 and the name; an existing key keeps its code and gets the new name; no other key changes |
| LaFIntFactorColumn.IntFactorColumn.SetLevel | LaF/src/intfactorcolumn.cpp:47-57 | the map becomes `SetLevelOf` of the old map, and the codes stay exactly 1..size |
| LaFIntFactorColumn.NumberedSetLevel | LaF/src/intfactorcolumn.cpp:47-56 | set_level keeps every code in 1..size and owned by one key |
| LaFIntFactorColumn.SetLevelThenLookUp | LaF/src/intfactorcolumn.cpp:47-79 | after set_level(v, name) the only key with v's code is v, and its name is the one set |
| LaFIntFactorColumn.ReadAfterSetLevel | LaF/src/intfactorcolumn.cpp:29-57 | a field that reads as a key set with set_level gets that key's code, a code in 1..size owned by that key alone; a key never set reads as missing |
| LaFIntFactorColumn.CodeOwner | LaF/src/intfactorcolumn.cpp:67-79 | in a numbered map a code belongs to one key, so the linear searches do not depend on the map's order |
| LaFIntFactorColumn.IntFactorColumn.ClearLevels | LaF/src/intfactorcolumn.cpp:59-61 | the map becomes empty |
| LaFIntFactorColumn.IntFactorColumn.NLevels | LaF/src/intfactorcolumn.cpp:63-65 | the number of levels is the size of the map |
| LaFIntFactorColumn.AsUnsigned | LaF/src/intfactorcolumn.cpp:67-69 | the int key converted to the unsigned int get_level returns: itself when non-negative, plus 2^32 when negative |
| LaFIntFactorColumn.IntFactorColumn.GetLevel | LaF/src/intfactorcolumn.cpp:67-72 | the key whose code is i, as unsigned, or 0 when no key has code i |
| LaFIntFactorColumn.IntFactorColumn.GetLabel | LaF/src/intfactorcolumn.cpp:74-79 | the name of the key whose code is i, or "" when no key has code i |
| V04DynamicArray.DynamicArray.constructor | work/v04/include/dynamicarray.h:10-12 | a new array is empty with capacity the given size |
| V04DynamicArray.DynamicArray.Size | work/v04/include/dynamicarray.h:18 | the number of elements pushed |
| V04DynamicArray.DynamicArray.Data | work/v04/include/dynamicarray.h:19 | the block, whose first `size()` elements are the contents in order |
| V04DynamicArray.GrownCapacity | work/v04/include/dynamicarray.h:21-36 | the capacity push_back leaves: unchanged while there is room, doubled when full, and then above the size |
| V04DynamicArray.DynamicArray.PushBack | work/v04/include/dynamicarray.h:21-36 | the value becomes the last element, the earlier ones stay, the size grows by one and stays within the capacity |
| V04DynamicArray.DynamicArray.Truncate | work/v04/include/dynamicarray.h:28-30 | the capacity becomes exactly the size; the contents stay |
| V04DynamicArray.DynamicArray.Resize | work/v04/include/dynamicarray.h:38-48 | the capacity becomes the new size and the elements both capacities hold are kept |
| V04ArrayColumn.ArrayColumn.constructor | work/v04/include/arraycolumn.h:10-11 | a new column holds no values, its array having the initial capacity |
| V04ArrayColumn.ArrayColumn.Parse | work/v04/include/arraycolumn.h:15-19 | exactly one converted value is appended, whatever the converter's error flag says |
| V04ArrayColumn.ArrayColumn.FinishedReading | work/v04/include/arraycolumn.h:21-23 | the storage shrinks to the number of values; the values stay |
| V04ArrayColumn.ArrayColumn.Size | work/v04/include/arraycolumn.h:26 | the number of values |
| V04ArrayColumn.ArrayColumn.Data | work/v04/include/arraycolumn.h:25 | the storage, whose first `size()` elements are the values |
| V05ArrayColumn.ConvertedValue | work/v05/laf2/src/conversion.h:156-167 | the value `convert<T>` gives a field: an error exactly for a target other than int and double |
| V05ArrayColumn.ArrayColumn.constructor | work/v05/laf2/src/arraycolumn.h:23-24 | a new column holds no values, with the initial capacity |
| V05ArrayColumn.ArrayColumn.Parse | work/v05/laf2/src/arraycolumn.h:30-34 | one `convert<T>` result is appended per call, the error flag discarded; a target without a conversion throws and appends nothing |
| V05ArrayColumn.ArrayColumn.FinishedReading | work/v05/laf2/src/arraycolumn.h:36-38 | the storage shrinks to the number of values; the values stay |
| V05ArrayColumn.ArrayColumn.Size | work/v05/laf2/src/arraycolumn.h:41 | the number of values |
| V05ArrayColumn.ArrayColumn.Data | work/v05/laf2/src/arraycolumn.h:40 | the storage, whose first `size()` elements are the values |
| V04Main.MyEventHandler.constructor | work/v04/main.cpp:12-13 | a new handler has no columns |
| V04Main.MyEventHandler.AddColumn | work/v04/main.cpp:15-18 | throws "Too many columns." exactly when 1024 columns exist, leaving them; otherwise the column is appended |
| V04Main.MyEventHandler.StartReading | work/v04/main.cpp:21-26 | the counters become 0 and every column is started, in order: the move `V05EventHandlerColumns.Apply` gives `start_reading` |
| V04Main.MyEventHandler.FinishedReading | work/v04/main.cpp:28-31 | every column is finished, in order |
| V04Main.MyEventHandler.NewRecord | work/v04/main.cpp:33-37 | with `col_` at the number of columns it throws and changes nothing; otherwise column `col_` parses the field and `col_` moves on |
| V04Main.MyEventHandler.EndOfLine | work/v04/main.cpp:39-42 | `col_` returns to 0 and `row_` moves on |
| V05EventHandlerColumns.Apply | work/v05/laf2/src/eventhandler_columns.h:16-37 | reference for one reader call: an exception exactly for a `new_record` with `col_` at the number of columns; otherwise field k after a line end goes to column k |
| V05EventHandlerColumns.StartsOf | work/v05/laf2/src/eventhandler_columns.h:19-20 | one `start_reading` per column, in column order |
| V05EventHandlerColumns.FinishesOf | work/v05/laf2/src/eventhandler_columns.h:24-25 | one `finished_reading` per column, in column order |
| V05EventHandlerColumns.HandleOk | work/v05/laf2/src/eventhandler_columns.h:28-37 | a trace is handled without an exception exactly when no `new_record` comes with the column counter at the number of columns; then the counters are the reference counters |
| V05EventHandlerColumns.HandleAppend | work/v05/laf2/src/eventhandler_columns.h:16-37 | handling two traces one after the other is handling their concatenation, an exception ending it |
| V05EventHandlerColumns.ParsedEvents | work/v05/laf2/src/eventhandler_columns.h:28-32 | the column calls of a row has one call per field |
| V05EventHandlerColumns.ParsedEventAt | work/v05/laf2/src/eventhandler_columns.h:28-32 | the k-th field from column `start` goes to column `start + k` |
| V05EventHandlerColumns.HandleRecords | work/v05/laf2/src/eventhandler_columns.h:28-32 | the fields of a row go to consecutive columns while columns remain; a field beyond the last column throws |
| V05EventHandlerColumns.HandleRow | work/v05/laf2/src/eventhandler_columns.h:28-37 | a complete row from column 0 sends field k to column k, moves `row_` on by one and returns `col_` to 0; a row wider than the columns throws |
| V05EventHandlerColumns.HandleParse | work/v05/laf2/src/eventhandler_columns.h:16-26 | over a whole parse, `start_reading` resets the counters and starts every column first, and `finished_reading` finishes every column last |
| V05EventHandlerColumns.EventHandlerColumns.constructor | work/v05/laf2/src/eventhandler_columns.h:8-9 | a new handler has no columns |
| V05EventHandlerColumns.EventHandlerColumns.AddColumn | work/v05/laf2/src/eventhandler_columns.h:11-14 | throws "Too many columns." exactly when 1024 columns exist, leaving them; otherwise the column is appended |
| V05EventHandlerColumns.EventHandlerColumns.StartReading | work/v05/laf2/src/eventhandler_columns.h:16-21 | the new state is `Apply` of `start_reading`: counters 0, every column started |
| V05EventHandlerColumns.EventHandlerColumns.FinishedReading | work/v05/laf2/src/eventhandler_columns.h:23-26 | the new state is `Apply` of `finished_reading`: every column finished |
| V05EventHandlerColumns.EventHandlerColumns.NewRecord | work/v05/laf2/src/eventhandler_columns.h:28-32 | the new state is `Apply` of `new_record`; the exception leaves the state as it was |
| V05EventHandlerColumns.EventHandlerColumns.EndOfLine | work/v05/laf2/src/eventhandler_columns.h:34-37 | the new state is `Apply` of `end_of_line`: `col_` 0, `row_` one more |
| V05EventHandlerCountRows.Apply | work/v05/laf2/src/eventhandlercountrows.h:9-26 | `start_reading` zeroes the counters; `new_record` adds one field to the row and keeps ncol at least col; `end_of_line` counts a row and returns col to 0; `finished_reading` changes nothing |
| V05EventHandlerCountRows.Widths | work/v05/laf2/src/eventhandlercountrows.h:18-26 | reference: the width of every row of a trace, the open row last |
| V05EventHandlerCountRows.MaxOfIsMaximum | work/v05/laf2/src/eventhandlercountrows.h:20 | the maximum of the widths bounds every width and is one of them |
| V05EventHandlerCountRows.CountedStep | work/v05/laf2/src/eventhandlercountrows.h:18-26 | one more call other than `start_reading` keeps nrow, ncol and col equal to the reference counts |
| V05EventHandlerCountRows.CountMeaning | work/v05/laf2/src/eventhandlercountrows.h:18-29 | from zeroed counters, nrow is the number of `end_of_line` calls, ncol the widest row and col the width of the open row |
| V05EventHandlerCountRows.CountFrom | work/v05/laf2/src/eventhandlercountrows.h:9-13 | after `start_reading` whatever the counters held before no longer matters |
| V05EventHandlerCountRows.CountParse | work/v05/laf2/src/eventhandlercountrows.h:9-29 | over a whole parse, nrow() counts the `end_of_line` calls and ncol() is the widest row |
| V05EventHandlerCountRows.ApplyKeepsColBound | work/v05/laf2/src/eventhandlercountrows.h:18-25 | col never exceeds ncol once it did not |
| V05EventHandlerCountRows.EventHandlerCountRows.constructor | work/v05/laf2/src/eventhandlercountrows.h:6-7 | the counters start at 0 |
| V05EventHandlerCountRows.EventHandlerCountRows.StartReading | work/v05/laf2/src/eventhandlercountrows.h:9-13 | the new counters are `Apply` of `start_reading` |
| V05EventHandlerCountRows.EventHandlerCountRows.NewRecord | work/v05/laf2/src/eventhandlercountrows.h:18-21 | the new counters are `Apply` of `new_record`; the bytes are ignored |
| V05EventHandlerCountRows.EventHandlerCountRows.EndOfLine | work/v05/laf2/src/eventhandlercountrows.h:23-26 | the new counters are `Apply` of `end_of_line` |
| V05EventHandlerCountRows.EventHandlerCountRows.NCol | work/v05/laf2/src/eventhandlercountrows.h:28 | the widest row counter |
| V05EventHandlerCountRows.EventHandlerCountRows.NRow | work/v05/laf2/src/eventhandlercountrows.h:29 | the row counter |
| V01Atoif.Atoif | work/v01/atoif.h:2-20 | the two loops return `AtoifOf`: the value of the digit run after the leading spaces |
| V01Atoif.AtoifReadsDigits | work/v01/atoif.h:5-17 | spaces, a non-empty digit run and anything not starting with a digit read as the decimal value of the run, whatever follows |
| V01Atoif.AtoifBetween | work/v01/atoif.h:5-17 | once the space scan and the digit scan are known to stop around `d`, the value is that of `d` |
| V01Atoif.AtoifWithoutDigits | work/v01/atoif.h:3-19 | a field whose first non-space byte is not a digit ('-', a letter) or that is all spaces gives 0 |
| V01Atoif.AtoifBounds | work/v01/atoif.h:10-17 | the value is never negative and has no more decimal digits than the run |
| V02Buffer.Buffer.constructor | work/v02/include/buffer.h:11-14 | a new buffer is empty and has consumed nothing |
| V02Buffer.Buffer.Refill | work/v02/include/buffer.h:21-23 | a refill reads the next min(100000, remaining) bytes and sets the cursor to 0 |
| V02Buffer.Buffer.Next | work/v02/include/buffer.h:18-27 | the next file byte, consuming it; at the end of the file 0 on every call, consuming nothing |
| V02Buffer.Buffer.Peek | work/v02/include/buffer.h:29-38 | the byte `next` would return, consuming nothing |
| V02Buffer.PeekThenNext | work/v02/include/buffer.h:18-38 | by the contracts alone, `peek` then `next` yield the same byte, and a second `next` the byte after it |
| V05Buffer.Buffer.constructor | work/v05/laf2/src/buffer.h:11-15 | with `skip` the stream starts at that byte (at the end when it lies past it); 0 seeks nothing |
| V05Buffer.Buffer.Refill | work/v05/laf2/src/buffer.h:22-24 | a refill reads the next min(1000000, remaining) bytes and sets the cursor to 0 |
| V05Buffer.Buffer.Next | work/v05/laf2/src/buffer.h:19-28 | the next file byte, consuming it; at the end of the file 0 on every call |
| V05Buffer.Buffer.Peek | work/v05/laf2/src/buffer.h:30-39 | the byte `next` would return, consuming nothing |
| V05Buffer.SkipThenRead | work/v05/laf2/src/buffer.h:11-39 | by the contracts alone, after skipping k bytes `peek` and then `next` both yield file byte k |
| V01Main.Buffer.constructor | work/v01/main.cpp:13-16 | a new buffer is empty and has consumed nothing |
| V01Main.Buffer.Refill | work/v01/main.cpp:23-25 | a refill reads the next min(100000, remaining) bytes and sets the cursor to 0 |
| V01Main.Buffer.Next | work/v01/main.cpp:20-29 | the next file byte, consuming it; at the end of the file 0 on every call |
| V01Main.Buffer.Peek | work/v01/main.cpp:31-40 | the byte `next` would return, consuming nothing |
| V01Main.NextNextPeek | work/v01/main.cpp:20-40 | by the contracts alone, two `next` calls give two successive file bytes and `peek` the byte the following `next` gives |
| V01Main.ByteSteps | work/v01/main.cpp:20-29 | once the file is used up `next` gives 0 and stays, so the bytes one and two calls on are those one and two further in the file |
| V01Main.CSVReader.constructor | work/v01/main.cpp:70-71 | the reader starts in NEWREC on the file's bytes |
| V01Main.CSVReader.NewRecord | work/v01/main.cpp:81-90 | `atoif` of the field is added to the sum and `col_` moves on |
| V01Main.CSVReader.EndOfLine | work/v01/main.cpp:92-95 | `col_` returns to 0 and `row_` moves on |
| V01Main.CSVReader.StateNewRec | work/v01/main.cpp:97-112 | the new state is `NewRecStep`: '"' opens a quoted field, '\n' and '\r' are skipped, any other byte starts a plain field with it |
| V01Main.CSVReader.Append | work/v01/main.cpp:108-137 | the byte is collected at the end of the field |
| V01Main.CSVReader.StateInRec | work/v01/main.cpp:114-128 | the new state is `InRecStep`: '\n' adds the field and ends the line, ',' adds the field, anything else is collected |
| V01Main.CSVReader.StateInRecQ | work/v01/main.cpp:130-139 | the new state is `InRecQStep`: any '"' adds the field and goes to ENDREC, with no escape; anything else is collected |
| V01Main.CSVReader.StateEndRec | work/v01/main.cpp:141-153 | the new state is `EndRecStep`: '\n' and '\r' end the line and, like ',', go to NEWREC; anything else is ignored |
| V01Main.CSVReader.Dispatch | work/v01/main.cpp:160-165 | the handler of the current state is applied: the new state is `Step` of the byte |
| V01Main.CSVReader.Turn | work/v01/main.cpp:159-166 | one turn of the loop: a 0 byte or the end of the file stops it unchanged; otherwise the byte is consumed and the run from the next byte gives the same end as before |
| V01Main.CSVReader.Parse | work/v01/main.cpp:155-168 | the sum is cleared, the counters reset, every byte up to the first 0 or the end of the file goes through the machine, and the sum printed is that of `Run` |
| V01Main.RunAdvance | work/v01/main.cpp:159-166 | one byte of the run |
| V01Main.RunPlainField | work/v01/main.cpp:125-126 | inside a plain field every byte but ',' and '\n' is collected |
| V01Main.SeparatorStep | work/v01/main.cpp:116-124 | the separator after a plain field adds its `atoif` value, and '\n' also ends the line |
| V01Main.FieldThenSeparator | work/v01/main.cpp:106-124 | a plain field and its ',' or '\n' read from a record start add the field's value, and '\n' ends the line |
| V01Main.RunRow | work/v01/main.cpp:81-128 | a row of plain fields from a record start adds the sum of their `atoif` values, counts one row and leaves the column at 0 |
| V01Main.RunRowHead | work/v01/main.cpp:106-124 | the first field of a longer row and its ',' add its value, and the rest of the row follows |
| V01Main.RunRowLast | work/v01/main.cpp:106-120 | a one-field row adds the value and ends the line |
| V01Main.RunRowJoin | work/v01/main.cpp:81-95 | the first field followed by the rest of the row sums to the whole row |
| V01Main.RunQuotedBody | work/v01/main.cpp:136-137 | inside quotes every byte but '"' is collected, ',' and '\n' included |
| V01Main.RunQuotedField | work/v01/main.cpp:99-135 | a quoted field from a record start ends at the first '"' after the opening one and adds the value of the bytes between; there is no escape |
| V01Main.RunSkipsBreaks | work/v01/main.cpp:103-105 | between records line breaks are skipped: blank lines add nothing |
| V01Main.RunUnterminatedField | work/v01/main.cpp:114-128 | a plain field that the input ends in, with no ',' or '\n' after it, is never added to the sum |
| WorkCsvReader.NewRecordOf | work/include/csvreader.h:43-47 | throws "Row contains too many columns." exactly when the current column is past the last one; otherwise the field is handed to the current column and the column moves on |
| WorkCsvReader.Step | work/include/csvreader.h:59-125 | a step dispatched on the state throws only the row-too-long error, and consumes the byte after it only for an escaped quote inside quotes |
| WorkCsvReader.StartsOf | work/include/csvreader.h:33-36 | start_reading is called once on every column, in the order they were added |
| WorkCsvReader.FinishesOf | work/include/csvreader.h:38-41 | finished_reading is called once on every column, in the order they were added |
| WorkCsvReader.CSVReader.constructor | work/include/csvreader.h:21-23 | a new reader has no columns, is in NEWREC, understands both escapes and reads the file's bytes from the start |
| WorkCsvReader.CSVReader.AddColumn | work/include/csvreader.h:25-28 | the column is appended to the table, or "Too many columns." is thrown when the table already holds 1024 and nothing changes |
| WorkCsvReader.CSVReader.SetQuoteType | work/include/csvreader.h:30 | the quote type becomes the given one and nothing else changes |
| WorkCsvReader.CSVReader.QuoteTypeOf | work/include/csvreader.h:31 | the current quote type |
| WorkCsvReader.CSVReader.StartReadingAll | work/include/csvreader.h:33-36 | the loop records start_reading on every column in order and changes no parser state |
| WorkCsvReader.CSVReader.FinishedReadingAll | work/include/csvreader.h:38-41 | the loop records finished_reading on every column in order and changes no parser state |
| WorkCsvReader.CSVReader.NewRecord | work/include/csvreader.h:43-47 | the new state is `NewRecordOf` of the old one, or the row-too-long error |
| WorkCsvReader.CSVReader.EndOfLine | work/include/csvreader.h:49-52 | the column returns to 0 and the row moves on |
| WorkCsvReader.CSVReader.StateNewRec | work/include/csvreader.h:71-86 | the new state is `NewRecStep`: '"' opens a quoted field, '\n' and '\r' are skipped, any other byte starts a plain field with it |
| WorkCsvReader.CSVReader.Append | work/include/csvreader.h:82-125 | the byte is collected at the end of the field in the scratch array |
| WorkCsvReader.CSVReader.StateInRec | work/include/csvreader.h:88-102 | the new state is `InRecStep`: '\n' hands over the field and ends the line, ',' hands over the field, anything else is collected |
| WorkCsvReader.CSVReader.TakeEscapedQuote | work/include/csvreader.h:107-123 | when `peek` shows a quote, one quote is collected and the peeked byte consumed; otherwise nothing changes |
| WorkCsvReader.CSVReader.StateInRecQ | work/include/csvreader.h:104-126 | the new state is `InRecQStep`: `""` (double or both) and `\"` (backslash or both) give a quote, consuming the second byte; another '"' hands over the field and goes to ENDREC; anything else is collected |
| WorkCsvReader.CSVReader.StateEndRec | work/include/csvreader.h:128-140 | the new state is `EndRecStep`: '\n' and '\r' end the line and fall through, like ',', to NEWREC; anything else is ignored |
| WorkCsvReader.CSVReader.Dispatch | work/include/csvreader.h:60-65 | the handler of the current state is applied: the new state is `Step` of the byte and the peeked byte |
| WorkCsvReader.CSVReader.NextInput | work/include/csvreader.h:59 | `next` gives the input byte at the current position, and the byte after it is what `peek` shows; 0 only at the end of the input |
| WorkCsvReader.CSVReader.Turn | work/include/csvreader.h:59-66 | one turn of the loop: a 0 byte stops it unchanged; otherwise the run from the new position and state ends as the run from the old one |
| WorkCsvReader.CSVReader.Parse | work/include/csvreader.h:55-68 | the columns are told to start, every byte up to the first 0 goes through the machine, and the columns are told to finish: the new state is that of `Run`, or its error |
| WorkCsvReader.RunAdvanceOk | work/include/csvreader.h:59-66 | a step that does not throw leaves the rest of the run to the new state, one or two bytes on |
| WorkCsvReader.RunAdvanceErr | work/include/csvreader.h:44 | a step that throws ends the run with its error |
| WorkCsvReader.RunPlainField | work/include/csvreader.h:99-100 | inside an unquoted field every byte but ',' and '\n' is collected |
| WorkCsvReader.PlainFieldRun | work/include/csvreader.h:80-100 | a plain field read from a record start is collected whole, in INREC |
| WorkCsvReader.FieldThenSeparator | work/include/csvreader.h:88-98 | a plain field and its ',' or '\n' hand the field to the current column, '\n' ends the line, and with no column left the row throws |
| WorkCsvReader.RunRow | work/include/csvreader.h:43-102 | a row of plain fields hands each field to the next column in order and ends on column 0 of the next row; a row with more fields than columns left throws |
| WorkCsvReader.RunRowHead | work/include/csvreader.h:95-98 | the first field of a longer row and its ',' go to the current column and the rest of the row follows |
| WorkCsvReader.RunRowLast | work/include/csvreader.h:90-94 | a one-field row hands the field to the current column, if there is one, and ends the line |
| WorkCsvReader.RunRowJoin | work/include/csvreader.h:43-52 | the first field followed by the rest of the row gives the calls of the whole row |
| WorkCsvReader.RowJoinScan | work/include/csvreader.h:43-52 | the rest of the row ends where the whole row ends and leaves the same state |
| WorkCsvReader.RowEventsSplit | work/include/csvreader.h:45-46 | the calls of the first field followed by those of the rest are the calls of the whole row |
| WorkCsvReader.ParsedEvents | work/include/csvreader.h:45 | one `parse` call per field |
| WorkCsvReader.DoubledStep | work/include/csvreader.h:105-125 | with doubled quotes on, `""` inside quotes is collected as one quote and any other byte as itself |
| WorkCsvReader.RunDoubledBody | work/include/csvreader.h:104-126 | the inside of a quoted field written with doubled quotes reads back as the field, up to the closing quote |
| WorkCsvReader.BackslashedStep | work/include/csvreader.h:117-125 | with backslash escapes on, `\"` inside quotes is collected as one quote and any other byte but a quote as itself |
| WorkCsvReader.RunBackslashedBody | work/include/csvreader.h:117-125 | the inside of a quoted field written with backslash escapes reads back as the field, as long as the field does not end in a backslash |
| WorkCsvReader.QuotedField | work/include/csvreader.h:73-116 | a quoted field whose body reads back as `f` hands `f` to the current column and leaves the machine in ENDREC, or throws when no column is left |
| WorkCsvReader.RunDoubledField | work/include/csvreader.h:73-116 | a quoted field written with doubled quotes reaches its column as the field |
| WorkCsvReader.RunBackslashedField | work/include/csvreader.h:73-125 | a quoted field written with backslash escapes reaches its column as the field |
| WorkCsvReader.RunSkipsBreaks | work/include/csvreader.h:77-79 | between records line breaks are skipped without a call on a column or a new row: blank lines vanish |
| WorkCsvReader.RunIgnoresAfterQuote | work/include/csvreader.h:136-138 | after a closing quote every byte other than a line break or ',' is dropped |
| WorkCsvReader.RunUnterminatedField | work/include/csvreader.h:88-102 | an unquoted field that the input ends in, with no ',' or '\n' after it, never reaches a column |
| WorkCsvReader.RunAppendsParses | work/include/csvreader.h:43-47 | a run only appends `parse` calls to those recorded before and never moves past the last column |
| V05CsvReader.Step | work/v05/laf2/src/csvreader.h:26-94 | a step dispatched on the state consumes the byte after it only for an escaped quote inside quotes |
| V05CsvReader.CSVReader.constructor | work/v05/laf2/src/csvreader.h:17-19 | a new reader is in NEWREC, understands both escapes, has made no handler call and reads the file's bytes from the start |
| V05CsvReader.CSVReader.SetQuoteType | work/v05/laf2/src/csvreader.h:21 | the quote type becomes the given one and nothing else changes |
| V05CsvReader.CSVReader.QuoteTypeOf | work/v05/laf2/src/csvreader.h:22 | the current quote type |
| V05CsvReader.CSVReader.StateNewRec | work/v05/laf2/src/csvreader.h:39-54 | the new state is `NewRecStep`: '"' opens a quoted field, '\n' and '\r' are skipped, any other byte starts a plain field with it |
| V05CsvReader.CSVReader.Append | work/v05/laf2/src/csvreader.h:50-93 | the byte is collected at the end of the field in the scratch array |
| V05CsvReader.CSVReader.StateInRec | work/v05/laf2/src/csvreader.h:56-70 | the new state is `InRecStep`: '\n' hands the field to the handler and ends the line, ',' hands over the field, anything else is collected |
| V05CsvReader.CSVReader.TakeEscapedQuote | work/v05/laf2/src/csvreader.h:75-91 | when `peek` shows a quote, one quote is collected and the peeked byte consumed; otherwise nothing changes |
| V05CsvReader.CSVReader.StateInRecQ | work/v05/laf2/src/csvreader.h:72-94 | the new state is `InRecQStep`: `""` (double or both) and `\"` (backslash or both) give a quote, consuming the second byte; another '"' hands the field to the handler and goes to ENDREC; anything else is collected |
| V05CsvReader.CSVReader.StateEndRec | work/v05/laf2/src/csvreader.h:96-108 | the new state is `EndRecStep`: '\n' and '\r' tell the handler the line ended and fall through, like ',', to NEWREC; anything else is ignored |
| V05CsvReader.CSVReader.Dispatch | work/v05/laf2/src/csvreader.h:27-32 | the handler of the current state is applied: the new state is `Step` of the byte and the peeked byte |
| V05CsvReader.CSVReader.NextInput | work/v05/laf2/src/csvreader.h:26 | `next` gives the input byte at the current position, and the byte after it is what `peek` shows; 0 only at the end of the input |
| V05CsvReader.CSVReader.Turn | work/v05/laf2/src/csvreader.h:26-33 | one turn of the loop: a 0 byte stops it unchanged; otherwise the run from the new position and state ends as the run from the old one |
| V05CsvReader.CSVReader.Parse | work/v05/laf2/src/csvreader.h:24-35 | the handler is told reading starts, every byte up to the first 0 goes through the machine, and the handler is told reading finished: the new state is that of `Run` |
| V05CsvReader.RunAdvance | work/v05/laf2/src/csvreader.h:26-33 | one step leaves the rest of the run to the new state, one or two bytes on |
| V05CsvReader.RunPlainField | work/v05/laf2/src/csvreader.h:67-68 | inside an unquoted field every byte but ',' and '\n' is collected |
| V05CsvReader.FieldThenSeparator | work/v05/laf2/src/csvreader.h:48-66 | a plain field and its ',' or '\n' hand the field to the handler, and '\n' also the end of the line |
| V05CsvReader.RecordCalls | work/v05/laf2/src/csvreader.h:59-64 | one `new_record` call per field |
| V05CsvReader.RecordCallsSplit | work/v05/laf2/src/csvreader.h:59-64 | the call of the first field followed by those of the rest are the calls of the whole row |
| V05CsvReader.RunRow | work/v05/laf2/src/csvreader.h:39-70 | a row of plain fields hands every field to the handler, in order, then the end of the line |
| V05CsvReader.DoubledStep | work/v05/laf2/src/csvreader.h:73-93 | with doubled quotes on, `""` inside quotes is collected as one quote and any other byte as itself |
| V05CsvReader.RunDoubledBody | work/v05/laf2/src/csvreader.h:72-94 | the inside of a quoted field written with doubled quotes reads back as the field, up to the closing quote |
| V05CsvReader.RunDoubledField | work/v05/laf2/src/csvreader.h:41-84 | a quoted field written with doubled quotes reaches the handler as the field and leaves the machine in ENDREC |
| V05CsvReader.BackslashedStep | work/v05/laf2/src/csvreader.h:85-93 | with backslash escapes on, `\"` inside quotes is collected as one quote and any other byte but a quote as itself |
| V05CsvReader.RunBackslashedBody | work/v05/laf2/src/csvreader.h:85-93 | the inside of a quoted field written with backslash escapes reads back as the field, as long as the field does not end in a backslash |
| V05CsvReader.RunBackslashedField | work/v05/laf2/src/csvreader.h:41-94 | a quoted field written with backslash escapes reaches the handler as the field |
| V05CsvReader.RunSkipsBreaks | work/v05/laf2/src/csvreader.h:45-47 | between records line breaks are skipped without a handler call: blank lines vanish |
| V05CsvReader.RunIgnoresAfterQuote | work/v05/laf2/src/csvreader.h:104-106 | after a closing quote every byte other than a line break or ',' is dropped |
| V05CsvReader.RunUnterminatedField | work/v05/laf2/src/csvreader.h:56-70 | an unquoted field that the input ends in, with no ',' or '\n' after it, never reaches the handler |
| V05CsvReader.StepAppendsInnerCalls | work/v05/laf2/src/csvreader.h:56-108 | a step only appends `new_record` and `end_of_line` calls to those made before |
| V05CsvReader.RunAppendsInnerCalls | work/v05/laf2/src/csvreader.h:26-33 | a run only appends `new_record` and `end_of_line` calls to those made before |
| V05CsvReader.ParseCallOrder | work/v05/laf2/src/csvreader.h:24-35 | a parse calls `start_reading` first and `finished_reading` last, and only `new_record` and `end_of_line` in between |
| V05Conversion.Atoif | work/v05/laf2/src/conversion.h:7-40 | the pointer-and-length loops return the value and flag of `AtoifOf`, the layout-based reading of the field |
| V05Conversion.DigitRun | work/v05/laf2/src/conversion.h:20-31 | the digit loop stops at the end of the digit run and its value is the decimal value of those digits; `num` says whether there was any |
| V05Conversion.CheckRemainder | work/v05/laf2/src/conversion.h:32-110 | the flag is set exactly when a byte other than a space follows |
| V05Conversion.AtoifOnLayout | work/v05/laf2/src/conversion.h:7-40 | on spaces, an optional '-', digits and a rest, atoif gives the signed value of the digits (or `na` without digits) and flags a rest that is not blank |
| V05Conversion.AtoifOfAt | work/v05/laf2/src/conversion.h:9-39 | atoif in terms of where the spaces, the sign and the digit run stop in the field |
| V05Conversion.IntTextScans | work/v05/laf2/src/conversion.h:9-31 | on a field of that layout the space scan stops at the sign or first digit, the sign is seen exactly when present, and the digit scan stops after the digits |
| V05Conversion.AtoifReadsInteger | work/v05/laf2/src/conversion.h:7-39 | spaces, an optional '-', a digit string and trailing spaces give the signed value of the digits without error; leading zeros are allowed |
| V05Conversion.AtoifFlagsTrailingText | work/v05/laf2/src/conversion.h:23-38 | a byte after the digits that is neither a space nor a digit ('+', a letter, a second '-') sets the flag; the value is that of the digits read, or `na` |
| V05Conversion.AtoifFlagsInnerSpace | work/v05/laf2/src/conversion.h:23-38 | a space inside the number ("4 2") ends the digit run and sets the flag |
| V05Conversion.AtoifWithoutDigits | work/v05/laf2/src/conversion.h:21-39 | an empty or blank field, or a lone '-', gives `na` and no error |
| V05Conversion.FAtol | work/v05/laf2/src/conversion.h:42-52 | the loop stops at the end of the digit run and extends the start value by those digits in 64-bit unsigned arithmetic |
| V05Conversion.ModStep | work/v05/laf2/src/conversion.h:46 | one decimal step on a wrapped 64-bit accumulator agrees with the exact step taken modulo 2^64 |
| V05Conversion.NumberLayoutOf | work/v05/laf2/src/conversion.h:60-81 | the integer digits and the fraction digits of the field lie in order inside it, each run stopping at its first non-digit |
| V05Conversion.ExponentLayoutOf | work/v05/laf2/src/conversion.h:86-97 | after the exponent's optional sign the exponent digits run to their first non-digit |
| V05Conversion.Clamp | work/v05/laf2/src/conversion.h:100-102 | the result lies in [-308, 323] and a value already inside is kept |
| V05Conversion.ReadNumber | work/v05/laf2/src/conversion.h:59-81 | the sign, the 64-bit mantissa of the integer and fraction digits, the number of fraction digits as `neg_exp`, and where the pointer stops are those of the layout |
| V05Conversion.ReadExponent | work/v05/laf2/src/conversion.h:83-103 | the pointer stops after the exponent digits and `neg_exp` is shifted by the exponent and clamped |
| V05Conversion.FAtod | work/v05/laf2/src/conversion.h:55-114 | the loops return the sign, mantissa, `neg_exp` and flag of `FAtodOf`, and the table index `308 + neg_exp` is inside the 633-entry table (below its last entry when there is an exponent) |
| V05Conversion.MantissaSteps | work/v05/laf2/src/conversion.h:72-79 | the two `f_atol` calls give the value of all integer and fraction digits modulo 2^64 |
| V05Conversion.ModStep2 | work/v05/laf2/src/conversion.h:79 | continuing the wrapped accumulator across the '.' equals reading all digits at once, modulo 2^64 |
| V05Conversion.AddWrappedSubtracts | work/v05/laf2/src/conversion.h:87-98 | adding `exponent_sign * exp` with `exponent_sign` the uint64 -1 subtracts the exponent, while the difference fits a ptrdiff_t |
| V05Conversion.MinusOneMod | work/v05/laf2/src/conversion.h:87-98 | `(2^64 - 1) * e` is `-e` modulo 2^64 |
| V05Conversion.WrapSum | work/v05/laf2/src/conversion.h:98 | the wrapped sum is the difference, or the difference plus 2^64 when it is negative |
| V05Conversion.AddWrappedAdds | work/v05/laf2/src/conversion.h:88-98 | after "e-" the exponent is added to `neg_exp` |
| V05Conversion.FAtodExponent | work/v05/laf2/src/conversion.h:83-103 | "eN" and "e+N" subtract N from the number of fraction digits and "e-N" adds it, and the sum is clamped to [-308, 323] |
| V05Conversion.ShiftedBy | work/v05/laf2/src/conversion.h:97-102 | the shifted `neg_exp` of an exponent that fits is the clamped sum or difference |
| V05Conversion.FAtodMantissaExact | work/v05/laf2/src/conversion.h:72-81 | with at most 19 digits in all, the uint64 mantissa is the exact decimal value of the digits |
| V05Conversion.Pow10Below64 | work/v05/laf2/src/conversion.h:72-81 | 10^19 is below 2^64, so 19 digits never wrap |
| V05Conversion.LayoutHead | work/v05/laf2/src/conversion.h:60-72 | the sign and the integer digits of the layout start where the spaces stop and the sign is taken |
| V05Conversion.DecimalTextInteger | work/v05/laf2/src/conversion.h:60-75 | on spaces, an optional '-', digits and '.', the integer scan stops at the '.' after exactly those digits |
| V05Conversion.FractionSkip | work/v05/laf2/src/conversion.h:79 | the fraction scan stops after the fraction digits |
| V05Conversion.FractionAfterDot | work/v05/laf2/src/conversion.h:75-80 | a '.' after the integer digits opens the fraction digits |
| V05Conversion.DecimalTextScans | work/v05/laf2/src/conversion.h:60-81 | on a decimal field the layout finds the sign, the integer digits, the '.' and the fraction digits where they were written |
| V05Conversion.FAtodReadsDecimal | work/v05/laf2/src/conversion.h:55-113 | spaces, an optional '-', digits, '.', digits and trailing spaces give the sign, the value of all digits as mantissa, the number of fraction digits as `neg_exp`, and no error |
| V05Conversion.FAtodFlagsTrailingText | work/v05/laf2/src/conversion.h:104-110 | a byte after the fraction that is neither a space, a digit nor an exponent marker sets the flag |
| V05Conversion.FAtodBlank | work/v05/laf2/src/conversion.h:60-113 | an empty or blank field gives zero without error, whatever `na` is |
| V05Conversion.Convert | work/v05/laf2/src/conversion.h:156-167 | `int` converts with atoif, `double` with f_atod, and any other type throws "Conversion not implemented." |
| LaFConversion.CharToInt | LaF/src/conversion.cpp:4-18 | a byte converts exactly when it is a decimal digit, to its value 0-9; any other byte throws |
| LaFConversion.StrToInt | LaF/src/conversion.cpp:20-49 | the right-to-left loop returns the result of `StrToIntOf`, and throws as it does |
| LaFConversion.RunConcat | LaF/src/conversion.cpp:28 | the loop over `x + y` reads `y` first and `x` after it: right to left |
| LaFConversion.RunErr | LaF/src/conversion.cpp:32-41 | once the loop throws, the field throws |
| LaFConversion.SuffixStep | LaF/src/conversion.cpp:28-46 | one more byte from the right continues the loop over the suffix |
| LaFConversion.RunErrFromSuffix | LaF/src/conversion.cpp:32-41 | a throw on a suffix of the field is a throw on the field |
| LaFConversion.RunSpaces | LaF/src/conversion.cpp:29-30 | spaces change nothing while trailing, and after the number they set `ltrim` |
| LaFConversion.RunCons | LaF/src/conversion.cpp:28 | the loop over `[c] + t` is one more step after the loop over `t` |
| LaFConversion.RunDigits | LaF/src/conversion.cpp:40-45 | a digit string adds its decimal value at the current place value and moves the place value on one decimal place per digit |
| LaFConversion.DigitsStep | LaF/src/conversion.cpp:42-43 | the first digit of a string, read after the others, completes the value of the string |
| LaFConversion.StepDigit | LaF/src/conversion.cpp:40-45 | a digit before `ltrim` adds its value at the current place, moves the place value on and clears `rtrim` |
| LaFConversion.RunKeepsLtrim | LaF/src/conversion.cpp:30-38 | `ltrim` is never cleared once set |
| LaFConversion.RunKeepsNotRtrim | LaF/src/conversion.cpp:35-44 | `rtrim` is never set again once cleared |
| LaFConversion.StrToIntRejectsBlank | LaF/src/conversion.cpp:21-47 | an empty or blank field has no digit and throws |
| LaFConversion.RunSign | LaF/src/conversion.cpp:31-39 | a sign right after the digits records its sign and sets `ltrim` |
| LaFConversion.StrToIntReadsInteger | LaF/src/conversion.cpp:20-49 | spaces, an optional '+' or '-', a non-empty digit string and spaces convert to the signed value of the digits |
| LaFConversion.ScanResult | LaF/src/conversion.cpp:47-48 | a loop that ends having seen a digit returns the signed value read |
| LaFConversion.FinishOk | LaF/src/conversion.cpp:47-48 | with a digit seen, the result is the sign times the value |
| LaFConversion.StrToIntOfRun | LaF/src/conversion.cpp:21-48 | on a non-empty field strtoint is the end of the loop over all of it |
| LaFConversion.RunDigitsFromStart | LaF/src/conversion.cpp:23-45 | a digit string from the start reads its decimal value |
| LaFConversion.RunThen | LaF/src/conversion.cpp:28 | the loops over `y` and then `x` make the loop over `x + y` |
| LaFConversion.StepAfterLtrim | LaF/src/conversion.cpp:32-41 | a byte that is not a space, seen once `ltrim` is set, throws |
| LaFConversion.ErrOnSuffix | LaF/src/conversion.cpp:28-46 | a throw on the right part of a field is a throw on the field |
| LaFConversion.StrToIntRejectsInnerSpace | LaF/src/conversion.cpp:29-45 | a space with a digit right of it and a non-space left of it throws: "4 2", "- 5", or a second digit group |
| LaFConversion.RunWithoutDigits | LaF/src/conversion.cpp:28-44 | before the first digit from the right, spaces keep the loop in its start state and a sign or any other byte throws |
| LaFConversion.StrToIntRejectsMisplacedSign | LaF/src/conversion.cpp:31-39 | a sign that is not just left of the leftmost digit throws: a trailing sign, a second sign, or a sign between digits |
| LaFConversion.StrToIntRejectsByte | LaF/src/conversion.cpp:4-17 | any byte other than a space, a sign or a digit makes strtoint throw, through chartoint |
| LaFConversion.AllCharsEqual | LaF/src/conversion.cpp:51-56 | the result is true exactly when every byte of the field is the given byte |
| LaFConversion.SignOf | LaF/src/conversion.cpp:62-71 | after the spaces a '-' is taken and any other byte left for the digits; a field of spaces throws |
| LaFConversion.BeforeFrom | LaF/src/conversion.cpp:79-103 | the integer scan stops at the separator, at an exponent marker, or at a space that starts a blank rest, inside the field |
| LaFConversion.AfterFrom | LaF/src/conversion.cpp:105-123 | the fraction scan stops at a space that starts a blank rest or at an exponent marker, never at a separator |
| LaFConversion.ReadSign | LaF/src/conversion.cpp:62-71 | the loop gives the result of `SignOf` |
| LaFConversion.CheckRemainder | LaF/src/conversion.cpp:73-77 | the loop throws exactly when a byte other than a space follows |
| LaFConversion.ReadBeforeDecimal | LaF/src/conversion.cpp:79-103 | the loop gives the result of `BeforeFrom` |
| LaFConversion.ReadAfterDecimal | LaF/src/conversion.cpp:105-123 | the loop gives the result of `AfterFrom` |
| LaFConversion.StrToDouble | LaF/src/conversion.cpp:131-151 | the phases give the result of `StrToDoubleOf`: the sign, the integer and fraction digits and the exponent, or the throw |
| LaFConversion.BeforeFromShift | LaF/src/conversion.cpp:83-100 | the integer scan over a field with a prefix is the scan of the rest, moved right |
| LaFConversion.BeforeFromSuffix | LaF/src/conversion.cpp:83-100 | the integer scan from the end of a prefix is the scan of the rest, moved right |
| LaFConversion.AfterFromSuffix | LaF/src/conversion.cpp:109-121 | the fraction scan from the end of a prefix is the scan of the rest, moved right |
| LaFConversion.AfterFromShift | LaF/src/conversion.cpp:109-121 | the fraction scan over a field with a prefix is the scan of the rest, moved right |
| LaFConversion.ScansOverDigits | LaF/src/conversion.cpp:98-120 | digits that are not the separator are passed over by both scans |
| LaFConversion.ScansLeadingDigits | LaF/src/conversion.cpp:98-120 | leading digits move both scans right by their length |
| LaFConversion.AfterSpaces | LaF/src/conversion.cpp:110-113 | a run of spaces ends the fraction scan with nothing after it |
| LaFConversion.SignOfLeading | LaF/src/conversion.cpp:62-71 | after spaces and an optional '-', the sign is read and the digits start right after it |
| LaFConversion.SeparatorStops | LaF/src/conversion.cpp:84-88 | the separator ends the integer scan and the fraction starts after it |
| LaFConversion.BeforeScan | LaF/src/conversion.cpp:83-100 | digits up to the separator form the integer part |
| LaFConversion.BeforeScanOn | LaF/src/conversion.cpp:83-100 | digits up to the separator form the integer part, after any prefix |
| LaFConversion.AfterScan | LaF/src/conversion.cpp:109-121 | fraction digits after any prefix move the fraction scan of the rest right |
| LaFConversion.DecimalFieldHead | LaF/src/conversion.cpp:62-103 | on spaces, an optional '-', digits and the separator, the sign and integer scans stop after exactly those digits |
| LaFConversion.DecimalFieldTail | LaF/src/conversion.cpp:105-123 | on such a field the fraction scan passes over the fraction digits and continues on the rest |
| LaFConversion.BeforeScanDigits | LaF/src/conversion.cpp:83-100 | leading digits after any prefix move the integer scan of the rest right |
| LaFConversion.IntegerFieldScans | LaF/src/conversion.cpp:62-103 | on spaces, an optional '-' and digits, the sign and integer scans stop after exactly those digits |
| LaFConversion.BeforeSpaces | LaF/src/conversion.cpp:94-97 | a run of spaces ends the integer scan with nothing after it |
| LaFConversion.ScansAtMarker | LaF/src/conversion.cpp:89-118 | an exponent marker that is not the separator ends either scan |
| LaFConversion.ScansAtInnerSpace | LaF/src/conversion.cpp:94-113 | a space followed by anything but spaces makes either scan throw |
| LaFConversion.StrToDoubleWhole | LaF/src/conversion.cpp:140-148 | when the integer scan stops elsewhere than at the separator there is no fraction, and only an exponent marker leads to strtoint of the rest |
| LaFConversion.StrToDoubleFraction | LaF/src/conversion.cpp:140-148 | after the separator the fraction digits are read, and only an exponent marker leads to strtoint of the rest |
| LaFConversion.StrToDoubleBeforeThrows | LaF/src/conversion.cpp:141 | a throw in the integer scan is a throw of strtodouble |
| LaFConversion.StrToDoubleAfterThrows | LaF/src/conversion.cpp:144 | a throw in the fraction scan is a throw of strtodouble |
| LaFConversion.ExponentAfterMarker | LaF/src/conversion.cpp:125-147 | the exponent is strtoint of the bytes after the marker, and a throw there is a throw of strtodouble |
| LaFConversion.StrToDoubleReadsInteger | LaF/src/conversion.cpp:131-151 | spaces, an optional '-', digits and trailing spaces give the digits as the integer part, no fraction and no exponent |
| LaFConversion.StrToDoubleReadsDecimal | LaF/src/conversion.cpp:131-151 | spaces, an optional '-', digits, the separator, digits and trailing spaces give the two digit runs as integer and fraction parts |
| LaFConversion.StrToDoubleReadsIntegerExponent | LaF/src/conversion.cpp:89-147 | an integer part followed by 'e' or 'E' takes strtoint of the rest of the field as the exponent |
| LaFConversion.DecimalExponentResult | LaF/src/conversion.cpp:142-148 | scans that stop at a marker after a fraction give the digits and the exponent strtoint reads |
| LaFConversion.StrToDoubleReadsDecimalExponent | LaF/src/conversion.cpp:114-147 | a decimal number followed by 'e' or 'E' takes strtoint of the rest of the field as the exponent |
| LaFConversion.StrToDoubleRejectsEmptyExponent | LaF/src/conversion.cpp:21-126 | the empty exponent of "1e" throws |
| LaFConversion.StrToDoubleRejectsBlank | LaF/src/conversion.cpp:62-132 | an empty field or one of spaces throws |
| LaFConversion.BeforeRejects | LaF/src/conversion.cpp:98 | a byte that is no digit, space, separator or marker throws in the integer scan |
| LaFConversion.AfterRejects | LaF/src/conversion.cpp:119 | a byte that is no digit, space or marker throws in the fraction scan |
| LaFConversion.StrToDoubleRejectsIntegerByte | LaF/src/conversion.cpp:79-103 | in the integer part a '+', a second '-' or any other byte that is no digit, space, separator or marker throws |
| LaFConversion.StrToDoubleRejectsIntegerSpace | LaF/src/conversion.cpp:94-97 | in the integer part a space followed by anything but spaces throws |
| LaFConversion.StrToDoubleRejectsFractionByte | LaF/src/conversion.cpp:105-123 | in the fraction a second separator or any other byte that is no digit, space or marker throws |
| LaFConversion.StrToDoubleRejectsFractionSpace | LaF/src/conversion.cpp:110-113 | in the fraction a space followed by anything but spaces throws |
| LaFConversion.ValueOfDecimal | LaF/src/conversion.cpp:98-150 | the value read is the digits without the separator divided by ten to the number of fraction digits, with the sign |
| LaFConversion.ValueOfExponent | LaF/src/conversion.cpp:128-150 | the exponent scales the value by a power of ten |
| LaFCsvReader.Run | LaF/src/csvreader.cpp:84-134 | the rest of next_line counts at most one line, counts it whenever it returns true, and stops inside the data |
| LaFCsvReader.Resume | LaF/src/csvreader.cpp:96-131 | the rest of next_line after one byte counts at most one line, and counts it whenever it returns true |
| LaFCsvReader.StepOutcome | LaF/src/csvreader.cpp:96-131 | a byte that lets the line go on leaves the outcome to the next byte; a '\n' returns whether the line has every column and counts the line; a throw ends the call with its error |
| LaFCsvReader.ContinueOutcome | LaF/src/csvreader.cpp:96-131 | a byte that lets the line go on leaves the outcome to the rest of the data |
| LaFCsvReader.NextLineOf | LaF/src/csvreader.cpp:77-135 | next_line moves the current line on by at most one, and by one whenever it returns true |
| LaFCsvReader.DetermineNColumns | LaF/src/csvreader.cpp:177-198 | the byte loop returns `NColumnsOf`: the separators in the first data line, plus one unless the line is empty |
| LaFCsvReader.CSVReader.constructor | LaF/src/csvreader.cpp:24-39 | the reader starts at the offset past the skipped lines, at line 0, with a 1024-byte line buffer and the number of columns of the first data line |
| LaFCsvReader.CSVReader.NLines | LaF/src/csvreader.cpp:49-67 | the block loop counts the '\n' bytes of the whole file |
| LaFCsvReader.CSVReader.Reset | LaF/src/csvreader.cpp:69-75 | the reader returns to the first data byte and line 0 |
| LaFCsvReader.CSVReader.ReadBlock | LaF/src/csvreader.cpp:87-88 | a read takes the next min(buffer size, bytes left) bytes |
| LaFCsvReader.CSVReader.ResizeLineBuffer | LaF/src/csvreader.cpp:200-209 | the new line buffer is twice as large, at least 1024, and starts with the strncpy copy of the old one |
| LaFCsvReader.CSVReader.Append | LaF/src/csvreader.cpp:105-128 | the byte is collected at the end of the line buffer, which is grown first when it is full |
| LaFCsvReader.CSVReader.Consume | LaF/src/csvreader.cpp:97-130 | the loop body on one byte makes exactly the move `Step` gives: the new field state, the return, the throw, and the line count |
| LaFCsvReader.CSVReader.Fetch | LaF/src/csvreader.cpp:85-95 | a new block is read when the last one is used up; the byte given is the data byte at the current position, or the end of the data |
| LaFCsvReader.CSVReader.Absorb | LaF/src/csvreader.cpp:96-131 | the byte goes through the loop body and the position moves on unless the call returned or threw |
| LaFCsvReader.CSVReader.NextByte | LaF/src/csvreader.cpp:84-132 | one pass of the loop keeps what the rest of the call comes to, or ends the call with it |
| LaFCsvReader.CSVReader.Proceed | LaF/src/csvreader.cpp:96-131 | a byte of the current block keeps what the rest of the call comes to, or ends the call with it |
| LaFCsvReader.CSVReader.NextLine | LaF/src/csvreader.cpp:77-135 | the result, the new position, line number and spans, and the line buffer's contents are those of `NextLineOf` |
| LaFCsvReader.CSVReader.GotoLine | LaF/src/csvreader.cpp:137-146 | the result and the position reached are those of `GotoOf`: nothing when already on line l + 1, a reset when past it, then lines read until it is reached or a line returns false |
| LaFCsvReader.CSVReader.GetBuffer | LaF/src/csvreader.cpp:148-150 | field i starts at its recorded position in the line buffer |
| LaFCsvReader.CSVReader.GetLength | LaF/src/csvreader.cpp:152-154 | the recorded length of field i |
| LaFCsvReader.RunPlainText | LaF/src/csvreader.cpp:123-129 | outside quotes every byte of a plain field but '\r' is collected |
| LaFCsvReader.RunQuotedText | LaF/src/csvreader.cpp:97-108 | inside quotes every byte but '\r' is collected, separators included |
| LaFCsvReader.RunField | LaF/src/csvreader.cpp:97-129 | a field read from its start collects its value |
| LaFCsvReader.RunQuotedField | LaF/src/csvreader.cpp:98-111 | a quote at the start of a field opens it and the next quote closes it; the text between is collected |
| LaFCsvReader.FieldThenSeparator | LaF/src/csvreader.cpp:112-122 | a field and its separator record the field's length and the next field's position, or throw "Line has too many columns" when there is no room |
| LaFCsvReader.LastField | LaF/src/csvreader.cpp:112-119 | the last field and its '\n' record its length, count the line and return whether every column was filled |
| LaFCsvReader.EndedRow | LaF/src/csvreader.cpp:112-119 | the rest of the row ending the line ends the whole row |
| LaFCsvReader.RunRow | LaF/src/csvreader.cpp:96-131 | a row with more fields than columns throws; otherwise the line is the values of the fields and each field's span is recorded |
| LaFCsvReader.EndedReadBack | LaF/src/csvreader.cpp:113-119 | a finished line reads back as its fields |
| LaFCsvReader.NextLineRow | LaF/src/csvreader.cpp:77-135 | next_line on a row of fields throws when it has more fields than columns, and otherwise reads back the value and span of every field |
| LaFCsvReader.RunNoLineEnd | LaF/src/csvreader.cpp:85-121 | without a '\n' ahead the call throws or returns false at the end of the data, and counts no line |
| LaFCsvReader.NextLineAtEnd | LaF/src/csvreader.cpp:89-94 | a last line without '\n' is never returned as a line |
| LaFCsvReader.RunOpenQuote | LaF/src/csvreader.cpp:97-101 | inside a quote a '\n' throws "Line ended while open quote" |
| LaFCsvReader.NextLineOpenQuote | LaF/src/csvreader.cpp:97-111 | a line that opens a quote and ends before closing it throws |
| LaFCsvReader.ForwardReaches | LaF/src/csvreader.cpp:141-145 | reading forward never passes the target line and ends on it unless a line returned false or threw |
| LaFCsvReader.GotoReaches | LaF/src/csvreader.cpp:137-146 | goto_line(l) ends at most on line l + 1, and on it when it returns true; it does nothing when already there |
| LaFCsvReader.NColText | LaF/src/csvreader.cpp:183-195 | bytes other than the separator, '\n' and NUL make the line non-empty and count nothing |
| LaFCsvReader.NColRow | LaF/src/csvreader.cpp:183-195 | a row of fields counts one column per field, and none for an empty line |
| LaFCsvReader.RawBytes | LaF/src/csvreader.cpp:185-188 | a field without a separator holds no separator, line end or NUL |
| LaFCsvReader.NColumnsOfRow | LaF/src/csvreader.cpp:177-198 | when the first data line is a row of fields, the number of columns is the number of fields, 0 for an empty line |
| LaFCsvReader.FirstLineReadBack | LaF/src/csvreader.cpp:35-135 | the first data line, read with the number of columns the reader determined, returns true and reads back in full |
| LaFCsvReader.QuotedSeparator | LaF/src/csvreader.cpp:110-187 | determine_ncolumns counts a separator inside quotes and next_line does not: the first line `"a,b"` counts two columns, and reading it gives false |
| LaFCsvReader.QuotedSeparatorCounted | LaF/src/csvreader.cpp:185-187 | the first line `"a,b"` counts two columns |
| LaFCsvReader.QuotedSeparatorRead | LaF/src/csvreader.cpp:97-117 | reading `"a,b"` with two columns gives one field and false |
| SrcCsvReader.Run | src/csvreader.cpp:87-148 | the rest of next_line counts at most one line, counts it whenever it returns true, and stops inside the data |
| SrcCsvReader.Resume | src/csvreader.cpp:99-145 | the rest of next_line after one byte counts at most one line, and counts it whenever it returns true |
| SrcCsvReader.StepOutcome | src/csvreader.cpp:99-145 | a byte that lets the line go on leaves the outcome to the next byte; a '\n' returns whether the line is complete or padded and counts the line; a throw ends the call with its error |
| SrcCsvReader.ContinueOutcome | src/csvreader.cpp:99-145 | a byte that lets the line go on leaves the outcome to the rest of the data |
| SrcCsvReader.NextLineOf | src/csvreader.cpp:80-149 | next_line moves the current line on by at most one, and by one whenever it returns true |
| SrcCsvReader.DetermineNColumns | src/csvreader.cpp:195-225 | the byte loop returns `NColumnsOf`: the separators outside quotes in the first data line, plus one unless the line is empty |
| SrcCsvReader.CSVReader.constructor | src/csvreader.cpp:25-40 | the reader starts at the offset past the skipped lines, at line 0, with a 1024-byte line buffer and the number of columns of the first data line |
| SrcCsvReader.CSVReader.NLines | src/csvreader.cpp:50-69 | the block loop counts the '\n' bytes of the data after the offset |
| SrcCsvReader.CSVReader.Reset | src/csvreader.cpp:71-77 | the reader returns to the first data byte and line 0 |
| SrcCsvReader.CSVReader.ReadBlock | src/csvreader.cpp:90-91 | a read takes the next min(buffer size, bytes left) bytes |
| SrcCsvReader.CSVReader.ResizeLineBuffer | src/csvreader.cpp:227-236 | the new line buffer is twice as large, at least 1024, and starts with the strncpy copy of the old one |
| SrcCsvReader.CSVReader.Append | src/csvreader.cpp:108-142 | the byte is collected at the end of the line buffer, which is grown first when it is full |
| SrcCsvReader.CSVReader.Pad | src/csvreader.cpp:122-125 | the fields from the current one on get length 0 and the position of the end of the line; the others keep their spans |
| SrcCsvReader.CSVReader.Consume | src/csvreader.cpp:100-144 | the loop body on one byte makes exactly the move `Step` gives: the new field state, the return, the throw, and the line count |
| SrcCsvReader.CSVReader.Fetch | src/csvreader.cpp:88-98 | a new block is read when the last one is used up; the byte given is the data byte at the current position, or the end of the data |
| SrcCsvReader.CSVReader.Absorb | src/csvreader.cpp:99-145 | the byte goes through the loop body and the position moves on unless the call returned or threw |
| SrcCsvReader.CSVReader.NextByte | src/csvreader.cpp:87-146 | one pass of the loop keeps what the rest of the call comes to, or ends the call with it |
| SrcCsvReader.CSVReader.Proceed | src/csvreader.cpp:99-145 | a byte of the current block keeps what the rest of the call comes to, or ends the call with it |
| SrcCsvReader.CSVReader.NextLine | src/csvreader.cpp:80-149 | the result, the new position, line number and spans, and the line buffer's contents are those of `NextLineOf` |
| SrcCsvReader.CSVReader.GotoLine | src/csvreader.cpp:151-160 | the result and the position reached are those of `GotoOf`: nothing when already on line l + 1, a reset when past it, then lines read until it is reached or a line returns false |
| SrcCsvReader.CSVReader.GetBuffer | src/csvreader.cpp:162-164 | field i starts at its recorded position in the line buffer |
| SrcCsvReader.CSVReader.GetLength | src/csvreader.cpp:166-168 | the recorded length of field i |
| SrcCsvReader.RunPlainText | src/csvreader.cpp:137-143 | outside quotes every byte of a plain field but '\r' is collected |
| SrcCsvReader.RunQuotedText | src/csvreader.cpp:100-111 | inside quotes every byte but '\r' is collected, separators included |
| SrcCsvReader.RunField | src/csvreader.cpp:100-143 | a field read from its start collects its value |
| SrcCsvReader.RunQuotedField | src/csvreader.cpp:101-114 | a quote at the start of a field opens it and the next quote closes it; the text between is collected |
| SrcCsvReader.FieldThenSeparator | src/csvreader.cpp:115-136 | a field and its separator record the field's length and the next field's position, or throw "Line has too many columns" when there is no room |
| SrcCsvReader.LastField | src/csvreader.cpp:115-133 | the last field and its '\n' record its length and count the line; the line is returned true when every column is filled, or padded when at least two are |
| SrcCsvReader.EndedRow | src/csvreader.cpp:115-133 | the rest of the row ending the line ends the whole row |
| SrcCsvReader.RunRow | src/csvreader.cpp:99-145 | a row with more fields than columns throws; otherwise the line is the values of the fields and each field's span is recorded |
| SrcCsvReader.EndedReadBack | src/csvreader.cpp:116-133 | a finished line reads back as its fields, padded when short |
| SrcCsvReader.NextLineRow | src/csvreader.cpp:80-149 | next_line on a row of fields throws when it has more fields than columns, and otherwise reads back the value and span of every field |
| SrcCsvReader.RunNoLineEnd | src/csvreader.cpp:88-134 | without a '\n' ahead the call throws or returns false at the end of the data, and counts no line |
| SrcCsvReader.NextLineAtEnd | src/csvreader.cpp:92-97 | a last line without '\n' is never returned as a line |
| SrcCsvReader.RunOpenQuote | src/csvreader.cpp:100-104 | inside a quote a '\n' throws "Line ended while open quote" |
| SrcCsvReader.NextLineOpenQuote | src/csvreader.cpp:100-114 | a line that opens a quote and ends before closing it throws |
| SrcCsvReader.ForwardReaches | src/csvreader.cpp:155-159 | reading forward never passes the target line and ends on it unless a line returned false or threw |
| SrcCsvReader.GotoReaches | src/csvreader.cpp:151-160 | goto_line(l) ends at most on line l + 1, and on it when it returns true; it does nothing when already there |
| SrcCsvReader.NColText | src/csvreader.cpp:202-222 | inside a quote separators count nothing, and bytes other than quotes, separators, '\n' and NUL make the line non-empty |
| SrcCsvReader.NColQuoted | src/csvreader.cpp:204-209 | the two quotes of a quoted text toggle the flag and leave it as it was |
| SrcCsvReader.NColField | src/csvreader.cpp:202-222 | one field of the file counts nothing and leaves the line empty only if it is blank |
| SrcCsvReader.NColRow | src/csvreader.cpp:202-222 | a row of fields counts one column per field, and none for a line that is one blank field |
| SrcCsvReader.NColumnsOfRow | src/csvreader.cpp:195-225 | when the first data line is a row of fields, the number of columns is the number of fields, 0 for one blank field |
| SrcCsvReader.FirstLineReadBack | src/csvreader.cpp:36-149 | the first data line, read with the number of columns the reader determined, returns true and reads back in full |
| SrcCsvReader.QuoteInsideField | src/csvreader.cpp:113-214 | determine_ncolumns and next_line disagree on a quote inside a field: the first line `a"b,c` counts one column and reading it throws |
| SrcCsvReader.QuoteInsideFieldCounted | src/csvreader.cpp:204-214 | the first line `a"b,c` counts one column |
| SrcCsvReader.QuoteInsideFieldRead | src/csvreader.cpp:113-134 | reading `a"b,c` with one column throws "Line has too many columns" |
| LaFFwfReader.LineSizeFromMeaning | LaF/src/fwfreader.cpp:143-146 | from a position before the first '\n', the `get` loop stops just past the first '\n', or at the end of a file without one |
| LaFFwfReader.LineSizeOfMeaning | LaF/src/fwfreader.cpp:139-149 | the record length is the position just past the first '\n', or the file length without one; a non-empty file has records of at least one byte |
| LaFFwfReader.DetermineLineSize | LaF/src/fwfreader.cpp:139-149 | the byte loop returns `LineSizeOf` of the file |
| LaFFwfReader.Got | LaF/src/fwfreader.cpp:132-133 | a read of n bytes gets at most n, all inside the file, and fewer only at the end of the file |
| LaFFwfReader.ContiguousPush | LaF/src/fwfreader.cpp:121-127 | a column added by its width keeps the columns side by side |
| LaFFwfReader.RecordFits | LaF/src/fwfreader.cpp:28-61 | a record that starts inside a block of whole records ends inside it |
| LaFFwfReader.CopyRecord | LaF/src/fwfreader.cpp:59 | strncpy copies the record's bytes into the line buffer up to the first NUL and pads with NULs, and leaves its last byte alone |
| LaFFwfReader.FWFReader.constructor | LaF/src/fwfreader.cpp:26-41 | the record length comes from the first line, a block holds `buffersize` records, the number of records is the file size modulo 2^32 over the record length unless given, and the reader is reset |
| LaFFwfReader.FWFReader.NextBlock | LaF/src/fwfreader.cpp:129-137 | with a good stream a block of at most `buffersize_` bytes is read from the stream position and the stream stays good only on a full block; otherwise the current pointer becomes null and nothing else changes |
| LaFFwfReader.FWFReader.Reset | LaF/src/fwfreader.cpp:49-54 | the stream is back at byte 0, at line 0, and the first block is read |
| LaFFwfReader.FWFReader.NextLine | LaF/src/fwfreader.cpp:56-64 | when a byte of a record is left, the record is copied as strncpy copies it, the position moves one record on and the line count goes up; otherwise false and nothing moves; true exactly while reads are left (`RecordsLeft`), one fewer after each |
| LaFFwfReader.FWFReader.CopyCurrent | LaF/src/fwfreader.cpp:59 | the record at the reading position, as far as the file holds it, is copied as strncpy copies it |
| LaFFwfReader.FWFReader.Refill | LaF/src/fwfreader.cpp:57-58 | a block is read when the last one is used up; a record is left exactly when the reading position is inside the file |
| LaFFwfReader.FWFReader.RecordInBlock | LaF/src/fwfreader.cpp:59 | the record at the reading position lies inside the block, and so does the part of it the file holds |
| LaFFwfReader.FWFReader.Advance | LaF/src/fwfreader.cpp:60-62 | the reading position moves one record on and the line count goes up |
| LaFFwfReader.FWFReader.GotoLine | LaF/src/fwfreader.cpp:66-73 | the reader moves to record n and reads it as next_line does: true exactly when record n starts inside the file |
| LaFFwfReader.FWFReader.Seek | LaF/src/fwfreader.cpp:68-71 | the stream is cleared and moved to record n, a block is read from there, and the line count becomes n |
| LaFFwfReader.FWFReader.GetCurrentLine | LaF/src/fwfreader.cpp:75-77 | the current line plus one |
| LaFFwfReader.FWFReader.GetBuffer | LaF/src/fwfreader.cpp:79-81 | column i starts at its start offset in the line buffer |
| LaFFwfReader.FWFReader.GetLength | LaF/src/fwfreader.cpp:83-85 | the width of column i |
| LaFFwfReader.FWFReader.AddColumnAt | LaF/src/fwfreader.cpp:116-119 | the start and the width are appended to the column lists and nothing else changes |
| LaFFwfReader.FWFReader.AddColumn | LaF/src/fwfreader.cpp:121-127 | the new column starts where the last one ends (at 0 for the first), so columns added by width stay side by side |
| LaFFwfReader.FWFReader.DetermineNLines | LaF/src/fwfreader.cpp:151-157 | the number of records is the file size, wrapped to the `unsigned int` it is stored in, over the record length, and the reader is reset on the way; for a file under 4 GiB next_line then returns true that many times, plus once for a partial last record |
| LaFFwfReader.NLinesMeaning | LaF/src/fwfreader.cpp:151-157 | next_line from the start returns true `size / linesize` times on a file that ends on a record boundary, and once more for a partial last record, which nlines does not count |
| LaFTextutils.SplitOf | LaF/src/textutils.cpp:37-44 | the file splits into one complete line per '\n' and a tail |
| LaFTextutils.SplitHasNoNewline | LaF/src/textutils.cpp:37-44 | no line and no tail contains a '\n' |
| LaFTextutils.LinesGrow | LaF/src/textutils.cpp:64-87 | a line is complete once its '\n' is read: reading more bytes only appends lines |
| LaFTextutils.NLines | LaF/src/textutils.cpp:23-50 | the block loop counts the '\n' bytes, plus one for a last line without '\n' |
| LaFTextutils.NLinesCountsLines | LaF/src/textutils.cpp:37-47 | that count is the number of lines, complete or not |
| LaFTextutils.LineScanOfExtend | LaF/src/textutils.cpp:69-85 | get_line's scan of one more byte is one more step |
| LaFTextutils.LineScanStopped | LaF/src/textutils.cpp:74-76 | once the last requested line was returned, the rest of the file is ignored |
| LaFTextutils.GetLine | LaF/src/textutils.cpp:52-89 | the block loop returns the result of `LineScanOf` over the whole file |
| LaFTextutils.GetLineBlock | LaF/src/textutils.cpp:69-85 | the byte loop over one block continues the scan of the file up to where it stopped |
| LaFTextutils.LineByte | LaF/src/textutils.cpp:70-84 | the loop body on one byte makes the scan's step: a '\n' on the wanted line returns it and moves to the next number, any other byte of the wanted line is collected |
| LaFTextutils.LineStepServes | LaF/src/textutils.cpp:70-84 | each step keeps the returned lines equal to the requested lines of the file read so far |
| LaFTextutils.LineScanServes | LaF/src/textutils.cpp:64-87 | the scan of any prefix returns exactly the requested lines it holds |
| LaFTextutils.GetLineReturnsRequestedLines | LaF/src/textutils.cpp:52-89 | for strictly increasing non-negative numbers, get_line returns the requested lines in order, each without its '\n', and stops at the first requested line the file does not end with '\n' |
| LaFTextutils.GetLineShape | LaF/src/textutils.cpp:52-89 | whatever the numbers, at most one line per number is returned and no line holds a '\n' |
| LaFTextutils.LinesScanOfExtend | LaF/src/textutils.cpp:108-122 | get_lines' scan of one more byte is one more step |
| LaFTextutils.LinesByte | LaF/src/textutils.cpp:109-121 | the loop body on one byte makes the scan's step: a '\n' after a non-empty line returns it and moves on, stopping at the last number; a byte of the wanted line is collected |
| LaFTextutils.GetLines | LaF/src/textutils.cpp:91-127 | the block loop returns the result of `LinesScanOf` over the whole file |
| LaFTextutils.GetLinesShape | LaF/src/textutils.cpp:91-127 | get_lines never returns an empty line or one with a '\n', and its index is the number of lines returned, capped at the last requested number |
| LineScan.GrownSize | src/csvreader.cpp:228-229 | the new size is twice the old one, and at least 1024 |
| LineScan.DetermineOffset | LaF/src/csvreader.cpp:164-175 | the byte loop returns `OffsetOf`, a failed read at the end of the file counted too |
| LineScan.OffsetFromCounts | LaF/src/csvreader.cpp:167-172 | from any byte, the loop stops just past the skip-th line end ahead, or one past the end of the file when there are fewer |
| LineScan.OffsetMeaning | LaF/src/csvreader.cpp:164-175 | the offset is just past the skip-th line end of the file, or one past its end when it has fewer |
| LineScan.CollectAllEffect | LaF/src/csvreader.cpp:126-128 | collecting bytes without NUL appends them to the line, whatever growth of the buffer happens on the way |
| LineLayout.StrncpyOfNoNul | LaF/src/csvreader.cpp:204 | without a NUL byte the copy is exact |
| LineLayout.StrncpyOfStopsAtNul | LaF/src/csvreader.cpp:204 | from the first NUL on, the copy holds only NUL bytes |
| LineLayout.StrncpyOfPrefix | LaF/src/fwfreader.cpp:59 | the first k bytes of the copy are the copy of the first k bytes |
| LineLayout.StrncpyOfAt | LaF/src/csvreader.cpp:204 | byte k of the copy is the source byte while no NUL came before it, and NUL from there on |
| LineLayout.Strncpy | src/csvreader.cpp:231 | the first n bytes of the target become the strncpy copy of the source and the rest stays |
| Text.LineBefore | LaF/src/intfactorcolumn.cpp:40 | `get_current_line() - 1` on an unsigned 32-bit line number: one less, and line 0 wraps to the largest value |
| Text.UntilZeroNext | work/include/csvreader.h:59 | in `while (char c = read_buffer_.next())` the byte is 0 exactly at the end of the input, which stops at the first NUL byte or the end of the file; otherwise it is the input byte, and `peek` gives the byte after it |
| Text.FileRead | LaF/src/csvreader.cpp:87 | a read of n bytes at a stream position puts those n bytes of the file at the start of the buffer and leaves the rest of the buffer as it was |

## Left out

**External code, I/O and output**
- R and Rcpp glue: LaF/src/LaF.cpp, src/LaF.h, src/init.cpp, the Rcpp wrappers of LaF/src/textutils.cpp, and the v05 drivers (laf2/src/test.cpp, csv_read.cpp, nrow.cpp). They only convert to and from R vectors.
- The `assign` / `init` / `next` methods of the column headers. They write into R vectors.
- The string and double columns. Their classes are not part of this model; `SrcReader` keeps only the settings they receive.
- The typed `add_*_column` wrappers of LaF/src/fwfreader.cpp:87-110. They build a column around the span that `add_column` records, and only `add_column` is modelled.
- `warning` on a short line in src/csvreader.cpp: printing to R is output only.
- The `cout` messages of `set_level` in LaF/src/intfactorcolumn.cpp, and the sum that work/v01/main.cpp prints. `Parse` returns that sum instead.
- Real file I/O:
  - `ifstream`, `seekg`, `tellg`, `gcount` and `file.get` act on the content as a byte sequence;
  - only `SrcFile.HasBom` takes a file that cannot be opened, as an error; the readers take the content of a file that opened.
- Destructors and `delete[]`: memory release is not modelled.
- Threads and mutexes (work/v05/test_multithreading) are concurrency experiments.
- The drivers and test programs: work/main.cpp, work/v04/nrow.cpp, work/v04/test_dynamicarray.cpp, work/test.cpp and work/data/generate_csv.cpp.

**Code with no logic to model, or undefined behaviour**
- LaF/src/stats.cpp: floating-point statistics through R's missing-value helpers.
- work/v02/include/columns.h: its sum is never initialised and `parse` falls off the end of a `bool` function.
- `atoif2` in work/v01/atoif.h has no return statement.
- `print_char` in work/v02/include/utils.h is debug output only.
- `chartostring`: src/conversion.cpp is not part of this model.
  - `SrcFactorColumn` takes the conversion of a field to its text as a function parameter.
  - `SrcIntColumn` uses the `strtoint` of LaF/src/conversion.cpp.
- work/v05/laf2/src/dynamicarray.h is not part of this model. `V05ArrayColumn` stores into `V04DynamicArray`.
- work/v04/include/conversion.h is not part of this model. `V04ArrayColumn` takes its converter as a constructor parameter.

**Floating point**
- The `exp_table` multiply of `f_atod` is not modelled. `V05Conversion.FAtod` returns the sign, the 64-bit mantissa and the power of ten instead of the double.
- `strtodouble`, `read_before_decimal` and `read_after_decimal` accumulate doubles and call `pow`. `LaFConversion` returns the digits read, the exponent and the exact value as a real.
- `mystrtol` / `mystrtof` (work/v05/laf2/src/conversion.h:116-153). They scan NUL-terminated pointers with no length and rely on the sign of `char`.

**Integer widths**
- LaFConversion.StrToInt: the `int` result and its `10 * n` place values do not wrap at 32 bits. The result is the exact integer.
- V05Conversion.Atoif, V01Atoif.Atoif: the `int` accumulator does not wrap at 32 bits. The result is the exact integer.
- V01Main.CSVReader.Parse: the running `int` sum and the `size_t` row and column counters are exact integers.
- LaFFwfReader.FWFReader.constructor: `buffersize_(linesize_*buffersize)` (LaF/src/fwfreader.cpp:28) is computed exactly; the `unsigned int` product would wrap at 2^32. The header of the LaF fixed-width reader is not part of this model; the newer src/fwfreader.h:63-64 declares both fields `unsigned int`.
- LaFFwfReader.FWFReader.GotoLine, LaFFwfReader.FWFReader.Seek: the seek target `line*linesize_` (LaF/src/fwfreader.cpp:69) is computed exactly; the `unsigned int` product would wrap at 2^32 for a record at or past 4 GiB.
- LaFFwfReader.FWFReader.NextLine, LaFFwfReader.FWFReader.GetCurrentLine, LaFCsvReader.CSVReader.NextLine, LaFCsvReader.CSVReader.GotoLine, SrcCsvReader.CSVReader.NextLine, SrcCsvReader.CSVReader.GotoLine: the `unsigned int current_line_` counters are exact integers and do not wrap after 2^32 - 1 lines.
- V04DynamicArray.DynamicArray.PushBack: requires a capacity above 0. Doubling a capacity of 0 stays 0, and the source would then write past the block.

**Undefined behaviour turned into preconditions**
- V05Conversion.FAtod:
  - requires the table index to stay inside `exp_table`;
  - the mantissa wraps modulo 2^64, as `uint64_t` does.
- V05Conversion.Atoif: when no byte is left after the spaces, the sign test of work/v05/laf2/src/conversion.h:15 reads `*str` past the end of the field (`f_atod` guards its sign with `len > 0`). The model guards the test with `i < |s|`, so that byte counts as no '-'.
- V05Conversion.ReadExponent: when the field ends right after 'e' or 'E', the exponent-sign tests of work/v05/laf2/src/conversion.h:88 and :92 read `*str` past the end of the field, and the `--len` after a sign would wrap the `size_t`. The model guards both tests with `i < |s|`, so that byte counts as neither '-' nor '+'.
- V04Main.MyEventHandler.constructor, V05EventHandlerColumns.EventHandlerColumns.constructor, V05EventHandlerCountRows.EventHandlerCountRows.constructor: the source leaves the counters (`row_`/`col_`, and `nrow_`/`ncol_`/`col_`) unset until `start_reading`; the model starts them at 0.
- V04ArrayColumn.ArrayColumn.Parse, V05ArrayColumn.ArrayColumn.Parse: the `bool parse` of work/v04/include/arraycolumn.h and work/v05/laf2/src/arraycolumn.h falls off its end without a return value. The model returns no flag (v04) or only the exception of `convert` (v05).
- WorkCsvReader.CSVReader.Parse, V05CsvReader.CSVReader.Parse, V01Main.CSVReader.Parse: require that no field grows past the 1024-byte scratch buffer, which the source writes without a check.
- LaFCsvReader.CSVReader.NextLine, SrcCsvReader.CSVReader.NextLine: require at least one column, for the write of `positions_[0]`. With too many fields, the out-of-bounds write of `positions_[column]` before the throw in LaF/src/csvreader.cpp:120-121 is not made.
- LaFFwfReader.FWFReader.constructor: requires a non-empty file, from which the record length is taken.
- SrcCsvReader.CSVReader.constructor: excludes a file that starts with a byte order mark. `determine_offset` (src/csvreader.cpp:181-184) then seeks relative to the end of the file, and that branch is not modelled.
- LaFTextutils.GetLine, LaFTextutils.GetLines: require at least one line number. The source reads `line_numbers[0]` without a check.
- Bytes left in a line buffer from an earlier, longer line are not stated. Only the part the lengths and positions point at is.

**Where the code and its own tests disagree** (the model follows the code)
- work/test.cpp:82 and work/test.cpp:90 expect an error for the text "-", but `atoif` and `f_atod` give none.
- `f_atod` ignores its `na` parameter: a blank field converts to 0.
- `strtodouble`:
  - does not accept a '+' sign;
  - reads a lone "-" as minus zero without an error;
  - rejects "1e", since the empty exponent goes through `strtoint`.
- `determine_ncolumns` (both line readers) does not count the last field of a first line that ends at the end of the file without '\n'.
- The LaF `determine_offset`: in a file with fewer line ends than lines to skip, the failed read at the end is counted too, so the offset is one past the end of the file.
- The state machines of work/include/csvreader.h and work/v05/laf2/src/csvreader.h:
  - collect a separator met in NEWREC as text of the next field ("a,,b" gives the fields "a" and ",b");
  - `parse` does not reset the machine state or the field, so a second parse continues from where the first stopped.
