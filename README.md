# ccwc, modelled in Dafny

`ccwc` is a small clone of `wc`. For each file named on the command line it
prints the selected counts of that file followed by its name. With no files it
prints the counts of standard input. With more than one file it also prints a
`total` line. The counts are taken over the raw bytes of each input:

- bytes;
- characters, lines and words, which first decode the bytes as strict UTF-8.

Four flags choose among the counts: `-l` lines, `-w` words, `-c` bytes and
`-m` chars.

The project models two files:

- **utilities.py**, the four counters. Modules:
  - `Utf8`: strict decoding, following section 4 of RFC 3629;
  - `Text`: splitting a text at single separator characters;
  - `Metrics`: the counters themselves.
- **ccwc.py**, the driver. Module `Ccwc` holds:
  - the metric selection;
  - `wrapper` and `generate_file_metric`;
  - the main block's loop, its stdin branch and its total-line rule.

  The global `message` and the dictionary `files_metric_summary` are fields of
  the class `Ccwc.Program`. The dictionary is kept as a map plus its keys in
  insertion order. Printed lines are appended to the field `output`.

`Format` holds `str(n)` for non-negative integers and the layout of an output
line. It also holds the column reading that test.py performs on a line.

A decode error is an exception the program never catches, and it ends the run.
The model handles it as follows:

- Each counter that decodes returns `None` on malformed input.
- A wrapper call on such input records nothing.
- `generate_file_metric` stops at the first metric that fails.
- The run stops with `completed == false`. By then `output` holds the lines
  already printed.

## Model

| member | source | states |
|---|---|---|
| Utf8.SequenceLength | utilities.py:13 | the length of the encoding a lead byte starts is 1 exactly for bytes below 0x80; it is 0 exactly for continuation bytes, 0xC0, 0xC1 and bytes from 0xF5 up |
| Utf8.ScalarOf | utilities.py:13 | a well-formed encoding stands for a Unicode scalar value in the range reserved for its length, so there are no overlong forms and no surrogates |
| Utf8.Decode | utilities.py:13 | `bytes.decode()` in strict mode: the text, or None at the first position that does not start a well-formed encoding; Utf8.DecodeEncode and Utf8.EncodeDecode show it is the exact inverse of Utf8.Encode |
| Utf8.EncodeCharIsEncoding | utilities.py:13 | the shortest-form encoding of any character is well-formed and decodes back to that character |
| Utf8.ScalarOfEncodes | utilities.py:13 | every well-formed encoding is the shortest-form encoding of its scalar value |
| Utf8.DecodeStep | utilities.py:13 | a successful decode takes a well-formed first encoding off the front, then decodes the rest |
| Utf8.DecodeEncode | utilities.py:13 | decoding the encoding of any text gives the text back |
| Utf8.DecodeChar | utilities.py:18 | the encoding of one character decodes to that character alone |
| Utf8.EncodeDecode | utilities.py:13 | every buffer that decodes is the encoding of its text |
| Utf8.EncodeAppend | utilities.py:13 | encoding distributes over concatenation |
| Utf8.DecodeAppend | utilities.py:18 | decoding works piecewise on two well-formed buffers |
| Utf8.DecodableAppend | utilities.py:18 | two well-formed buffers concatenate to a well-formed buffer |
| Utf8.DecodedLengthIsLeadBytes | utilities.py:25 | the length of the decoded text equals the number of bytes that are not continuation bytes |
| Utf8.DecodedLengthBound | utilities.py:25 | the decoded text is never longer than the buffer, and has the same length exactly when every byte is below 0x80 |
| Utf8.AsciiCountPreserved | utilities.py:18-21 | an ASCII byte value occurs in a well-formed buffer as often as its character occurs in the decoded text |
| Text.Split | utilities.py:13 | `re.split` on a one-character pattern always yields at least one fragment; no fragment contains a separator; the first fragment is empty exactly when the text is empty or starts with a separator |
| Text.NonEmpty | utilities.py:12-14 | the list comprehension keeps exactly the non-empty fragments and never adds to their number |
| Text.FragmentsAreRuns | utilities.py:12-14 | the number of non-empty fragments equals the number of maximal runs of non-separators |
| Text.NonEmptyAppend | utilities.py:13 | filtering distributes over concatenation |
| Text.NoRunsIffAllSeparators | utilities.py:12-14 | a text has no runs exactly when all of its characters are separators |
| Text.SplitNoSeparator | test.py:29 | a text without separators splits into itself alone |
| Text.SplitAfterWord | test.py:29 | a word followed by a separator is split off as the first fragment |
| Metrics.IsSpace | utilities.py:13 | the characters `\s` matches in a text pattern, which are those `str.isspace` accepts: 0x09-0x0D, 0x1C-0x20, 0x85, 0xA0, 0x1680, 0x2000-0x200A, 0x2028, 0x2029, 0x202F, 0x205F, 0x3000; Metrics.NoWordsIffAllSpace ties it to the word count |
| Metrics.CountBytes | utilities.py:5-6 | the byte count is the length of the buffer and needs no decoding |
| Metrics.CountWords | utilities.py:11-14 | the word count is defined exactly on the buffers that decode, and then equals the number of maximal runs of non-whitespace characters |
| Metrics.LineCount | utilities.py:17-21 | the line count with start 0 is defined exactly on the buffers that decode, and then equals the number of 0x0A bytes |
| Metrics.CountLines | utilities.py:17-21 | the loop returns the start `i` plus the number of newline characters of the decoded text, which is `i` plus the line count; it fails exactly when the decode fails |
| Metrics.CountCharacters | utilities.py:24-25 | the character count is defined exactly on the buffers that decode; it equals the number of lead bytes and is at most the byte count; it equals the byte count exactly when every byte is below 0x80 |
| Metrics.CountsAtMostCharacters | utilities.py:11-25 | the word count and the line count fail on the same buffers as the character count, and never exceed it |
| Metrics.NoWordsIffAllSpace | utilities.py:11-14 | a decodable buffer has word count 0 exactly when its text is whitespace only, the empty text included |
| Metrics.LinesAfterAppend | utilities.py:18-21 | appending one character adds one line for a newline and none for any other character, so a trailing unterminated line is never counted |
| Metrics.LinesOfAppend | utilities.py:17-21 | the line counts of two decodable buffers add up over their concatenation |
| Metrics.LinesOfChar | utilities.py:18-20 | the encoding of one character holds one line if the character is a newline, and none otherwise |
| Format.DigitChar | ccwc.py:77 | a digit below 10 becomes the character that stands for it |
| Format.Decimal | ccwc.py:77 | `str(n)` has at least one character, all of them digits, and no leading zero except in "0" itself |
| Format.ParseDecimal | test.py:29 | `int(v)` on a field of digits only, None on any other field; Format.ParseDecimalOfDecimal shows it inverts `str(n)` |
| Format.Render | ccwc.py:77 | the numbers of one line, each followed by one space, as the message accumulates them; Format.ColumnsReadBack and Ccwc.RecordRowMessage show they read back as the values and are what a row appends |
| Format.ParseDecimalOfDecimal | test.py:29 | `int(str(n)) == n` |
| Format.SplitRenderedLine | test.py:29 | splitting an output line at spaces gives the digits of each value in order, then the name |
| Format.ReadColumns | test.py:29 | the integers of all fields of a line split at spaces except the last; Format.ColumnsReadBack shows it gives back the values Format.Render wrote |
| Format.ParseAllDecimals | test.py:29 | parsing the decimal forms of the values gives the values back |
| Format.ColumnsReadBack | test.py:29 | the columns test.py reads from a line are exactly the values rendered into it |
| Ccwc.Selection | ccwc.py:85-101 | with no flag the selection is lines, words, bytes; with flags it holds exactly the flagged metrics; it is always in the order lines, words, bytes, chars |
| Ccwc.DefaultSelection | ccwc.py:86-89 | the selection with no flag is lines, then words, then bytes |
| Ccwc.Key | ccwc.py:87-101 | the key literal handed to wrapper with each metric: "lines", "words", "bytes", "chars"; Ccwc.KeyInjective shows no two metrics share one |
| Ccwc.MetricValue | ccwc.py:76 | what the counter passed as func returns for the buffer, count_lines with its default start 0, None where it raises a decode error; Ccwc.Program.Measure is proved against it |
| Ccwc.RowOf | ccwc.py:85-101 | a row, when it exists, has one number per selected metric |
| Ccwc.RowOfAt | ccwc.py:85-101 | the j-th number of a row is the j-th selected metric's value; a metric that fails leaves no row |
| Ccwc.RowOfDefined | ccwc.py:85-101 | a row exists exactly when every selected metric is defined |
| Ccwc.KeysOf | ccwc.py:87-101 | the j-th key handed to wrapper is the key of the j-th selected metric |
| Ccwc.SelectionKeysDistinct | ccwc.py:87-101 | no selection hands the same key to wrapper twice |
| Ccwc.KeyInjective | ccwc.py:87-101 | different metrics have different keys |
| Ccwc.Record | ccwc.py:77-79 | one wrapper call with value v; Ccwc.RecordEffect and Ccwc.RecordKeepsConsistent state its effect on the message, on every key and on the insertion order |
| Ccwc.RecordEffect | ccwc.py:77-79 | one wrapper call appends the number and a space to the message and adds its value to its own key; every other entry is unchanged; the key joins the end of the insertion order only when it was absent |
| Ccwc.RecordKeepsConsistent | ccwc.py:78-79 | a wrapper call keeps the insertion order listing each key of the dictionary exactly once |
| Ccwc.RecordAll | ccwc.py:85-101 | the wrapper calls of a selection in order, stopping at the first that fails; Ccwc.RecordAllIsRecordRow and Ccwc.RecordAllAppend relate it to the known row and to a split selection |
| Ccwc.RecordRow | ccwc.py:85-101 | the same wrapper calls once the row is known; Ccwc.RecordRowMessage, Ccwc.RecordRowKeys and Ccwc.RecordRowTotals state its effect on the message, the insertion order and each entry |
| Ccwc.RecordAllAppend | ccwc.py:85-101 | the wrapper calls of two selections in sequence run the second only if the first went through |
| Ccwc.RecordAllCons | ccwc.py:85-101 | recording one metric and then the rest |
| Ccwc.RecordAllIsRecordRow | ccwc.py:85-101 | generate_file_metric goes through exactly when the row exists, and then records the row's values under the selection's keys |
| Ccwc.RecordRowMessage | ccwc.py:77 | recording a row appends the rendered row to the message |
| Ccwc.RecordRowKeys | ccwc.py:78 | recording a row with distinct keys appends the keys not yet present, in their order |
| Ccwc.RecordRowTotals | ccwc.py:78-79 | recording a row adds each value to its own key and leaves every other entry unchanged |
| Ccwc.NewKeysIgnores | ccwc.py:78 | a key outside the row does not change which of the row's keys are new |
| Ccwc.NewKeysOfEmpty | ccwc.py:78 | into an empty dictionary every key of the row is new |
| Ccwc.NewKeysOfPresent | ccwc.py:78 | into a dictionary that holds all of a row's keys none of them is new |
| Ccwc.RowKeys | ccwc.py:78 | after the first input, and after every later one, the insertion order is exactly the selection's keys |
| Ccwc.AllRowsAt | ccwc.py:119-121 | when every input went through, each input has its row |
| Ccwc.AllRowsAppend | ccwc.py:119-121 | one more input that goes through extends a run where every input went through |
| Ccwc.FirstFailure | ccwc.py:119-121 | the position where the loop stops is within the inputs |
| Ccwc.FirstFailureIsFirst | ccwc.py:119-121 | every input before the position of the first failure goes through, and the input at that position does not |
| Ccwc.FirstFailureAt | ccwc.py:119-121 | a position where every input before it went through and the input there failed, or the end, is the first failure |
| Ccwc.Total | ccwc.py:79 | the sum of one metric over the inputs that `update` accumulates; Ccwc.TotalAppend states how one more input adds to it |
| Ccwc.Totals | ccwc.py:135 | the column sums, one per selected metric |
| Ccwc.TotalAppend | ccwc.py:79 | one more input adds its value to a metric's sum |
| Ccwc.FileLines | ccwc.py:119-125 | one printed line per input |
| Ccwc.FileLineAt | ccwc.py:121-124 | the k-th printed line is the k-th input's numbers, each with a space, then its name |
| Ccwc.FileLinesAppend | ccwc.py:119-125 | one more input prints one more line, at the end |
| Ccwc.LoopStep | ccwc.py:119-125 | one more pass of the loop that goes through leaves the summary and the printed lines covering one input more |
| Ccwc.ValuesOf | ccwc.py:135 | `values()` lists the entries in the dictionary's insertion order |
| Ccwc.RecordAllMessage | ccwc.py:121 | a successful generate_file_metric appends the input's rendered row to the message |
| Ccwc.SummaryOf | ccwc.py:119-121 | the dictionary after a run of inputs that all went through: empty before the first, then the selection's keys in order each holding its metric's sum; Ccwc.FileStep and Ccwc.Program.CountFiles show the loop keeps it |
| Ccwc.FileStep | ccwc.py:119-121 | one more successful input turns the summary of the inputs so far into the summary of one input more: the keys are the selection's keys in selection order, and each entry is that metric's sum |
| Ccwc.RowStep | ccwc.py:78-79 | recording the known row of one more input into the summary of the inputs so far gives the summary of one input more |
| Ccwc.RowTotals | ccwc.py:79 | recording the row of one more input leaves each selected metric's entry at its sum over the inputs so far |
| Ccwc.TotalLine | ccwc.py:134-135 | after all inputs, the dictionary's values in insertion order are the column sums in selection order |
| Ccwc.ColumnsLineUp | ccwc.py:124-135 | the columns read from each per-file line and from the total line hold that input's numbers and the sums, in the same order |
| Ccwc.Program.constructor | ccwc.py:116-117 | the run starts with an empty message and an empty dictionary |
| Ccwc.Program.Measure | ccwc.py:76 | the call of the metric function gives that metric's value on the buffer, with count_lines started at 0 |
| Ccwc.Program.Add | ccwc.py:77-79 | appending the number, `setdefault` and `update` together perform one wrapper call's recording; the dictionary stays consistent and nothing is printed |
| Ccwc.Program.Wrapper | ccwc.py:74-79 | wrapper succeeds exactly when its metric is defined on the buffer; it then records that value under its key; otherwise the state is unchanged |
| Ccwc.Program.GenerateFileMetric | ccwc.py:85-101 | generate_file_metric performs the wrapper calls of the selection in order, stopping at the first that fails |
| Ccwc.Program.SelectedMetrics | ccwc.py:90-101 | the flagged branch calls wrapper once per flag given, in the order lines, words, bytes, chars |
| Ccwc.Program.CountFile | ccwc.py:119-125 | one pass of the loop succeeds exactly when the input's row exists; it then prints the row followed by the name, leaves the message empty, and records the row in the dictionary |
| Ccwc.Program.CountFiles | ccwc.py:119-125 | the loop prints one line per input up to the first failing input and stops there; when every input goes through, the dictionary holds the selection's keys in order with each metric's sum |
| Ccwc.Program.Run | ccwc.py:113-135 | with no files the run prints exactly one line for stdin, its numbers with no name; with files it prints one line per file up to the first failure; it prints the total line with the column sums exactly when all files went through and there is more than one |

## Left out

- Argument parsing (ccwc.py:15-62, 114) is library mechanics. The model takes the four flags as a `Flags` value and the files as a sequence of inputs.
- Opening and reading files and standard input (ccwc.py:120-121, 129) is I/O. Each input arrives as a name and its bytes, and stdin as its bytes. A file that cannot be opened is not modelled.
- Printing is I/O. `print` appends its line to `output` without the trailing newline. `print(*values, "total")` is the values each followed by a space, then `total`.
- The traceback of an uncaught decode error is not modelled. The run just stops, with the lines printed so far.
- Python's regex engine is not modelled. `re.split("\s", …)` is `Text.Split` with `Metrics.IsSpace`, the characters `str.isspace` accepts.
- Ccwc.Total counts 0 for an input on which its metric fails. It is used only where every input went through, so that case never reaches the total line.
- The key literals "lines", "words", "bytes" and "chars" that generate_file_metric passes to wrapper are written as `Key(m)` at the call sites.
- The options are declared in the order `-l`, `-c`, `-m`, `-w` (ccwc.py:32-62), but generate_file_metric always computes the flagged metrics in the order lines, words, bytes, chars (ccwc.py:91-101); the model follows the latter.
- test.py runs the program as a subprocess. Only its way of reading the columns of an output line (test.py:29) is modelled, as `Format.ReadColumns`.
