# scut, modelled in Dafny

scut is a small C version of `cut`. It is invoked as `scut <mode> <selection>`.
- It reads lines from standard input.
- For each line it prints the requested columns, separated by blanks, followed by one newline.

There are three modes:
- `-l`: a column is one character.
- `-w`: a column is a field; fields are split on blanks.
- `-c`: a column is a field; fields are split on commas.

A selection such as `1-2,7-15` lists single columns `a` and runs `a-b`, separated by commas.

The project models the two parts of `scut/scut.c` that do the work.

**The selection parser** (`selection.dfy`, module `Selection`):
- `ValidateSelection` is the character-class check.
- `AddRange` writes one inclusive run of columns into the column array.
- `GetCols` is the left-to-right scanner that expands a selection into that array. Its state is:
  - the two-character digit buffer;
  - the pending start of a range (-1 when there is none);
  - the write index.
- The scanner is specified by a function of the same shape:
  - `Run` folds `Step` over the selection, with one character of lookahead.
  - `Parse` flushes the last term.
- `Parse` is tied to an independent reference. A selection written from a list of terms (`Text`) parses to the concatenation of the terms' runs (`Expand`); this is `ParseText`. Every such text passes validation; this is `TextAccepted`.

**The per-line extractor** (`extraction.dfy`, module `Extraction`):
- The loop at `scut/scut.c:153-191` is lifted into `ExtractLine`.
  - `ExtractLine` calls one method per mode: `ExtractChars`/`WalkChars` and `ExtractFields`/`WalkFields`.
  - Each loop body is a step method: `CharStep`, `FieldStep`.
  - Each loop is proved against a specification function of the line read, which is:
    - `Scanned`: the buffer up to its first newline or terminator;
    - `SelectChars`: the characters at the requested positions, each followed by a blank while columns remain;
    - `Fields`: the fields the walk reads;
    - `SelectFields`: the requested fields, with a blank after each requested field that a delimiter closes while columns remain.
- `Fields` splits the way the code walks. The character after a delimiter is always content of the next field, so two adjacent delimiters do not make an empty field.
  - `FieldsJoin`: splitting loses no character.
  - `FieldsOfJoin`: fields without delimiters are recovered from their join.
  - `FieldsShape`: states where a delimiter can occur in a field.

**The driver** (`main.dfy`, module `Scut`): `CutLines` validates the selection and fills a zero-initialised array of 128 columns. It then cuts every input line with `CutEach`.

`usage.dfy` (module `Usage`) proves the worked examples of the header comment of `scut/scut.c`.
- The comment's last example (line 44) says that `-w 1,3-5` turns `sample text` into `sample text`. The code prints `sample ` instead: leaving the selected field 1 while column 3 is still pending prints a blank, and field 2 is not selected. `SampleTextExample` proves what the code prints.

## Model

| member | source | states |
|---|---|---|
| Selection.ValidateSelection | scut/scut.c:56-66 | returns 0 exactly when the selection is non-empty, its first and last characters are digits and every character between is a digit, comma or hyphen; returns 2 otherwise |
| Selection.ValidSelectionChars | scut/scut.c:51-55 | every character of a valid selection, first and last included, is a digit, comma or hyphen |
| Selection.RangeAt | scut/scut.c:72-79 | the run from a to b has b-a+1 entries, or none when a > b, and its k-th entry is a+k |
| Selection.AddRange | scut/scut.c:72-79 | writes the run a..b starting at the write index and returns the index just after it; entries before and after the run are unchanged |
| Selection.AtoiOfBuffer | scut/scut.c:89-96 | atoi of the digit buffer gives the value of the digits stored in it so far |
| Selection.PushDigit | scut/scut.c:94-96 | storing one more digit in the buffer multiplies its value by ten and adds the digit |
| Selection.RunExtends | scut/scut.c:93-119 | the scanner only appends columns: the columns found so far are a prefix of all later ones and of the final list |
| Selection.FlushRange | scut/scut.c:100-103 | a term with a pending start appends the run from that start to the number, leaving later entries unchanged |
| Selection.FlushTerm | scut/scut.c:120-126 | a finished term appends its columns (the run from the pending start, or the number alone) after the columns written so far; later entries are unchanged |
| Selection.ScanDigit | scut/scut.c:94-117 | one pass of the loop body on a digit does what the scanner function's step does: same number, same pending start, same columns written, and the buffer is reset exactly when a comma or hyphen follows |
| Selection.GetCols | scut/scut.c:86-127 | the array starts with exactly the columns the scanner function gives for the selection; every later entry keeps its old value |
| Selection.RunTermThenComma | scut/scut.c:97-110 | a term followed by a comma appends its columns and resets the number and the pending start |
| Selection.RunLastTerm | scut/scut.c:120-126 | the last term is flushed at the end of the selection |
| Selection.ParseText | scut/scut.c:15-20 | a selection written as comma-separated terms a and a-b parses to the concatenation of the terms' columns, in order |
| Selection.TextAccepted | scut/scut.c:15-20 | such a selection passes validation and has no number of more than two digits |
| Extraction.Requested | scut/scut.c:144 | the columns the array asks for are its entries before the first 0, none of them 0, followed by that 0 |
| Extraction.RequestedPrefix | scut/scut.c:144-149 | when the parser leaves its nonzero columns followed by a 0, the extractor requests exactly those columns |
| Extraction.Scanned | scut/scut.c:155 | the walk reads the prefix of the buffer before the first newline or terminator, and no newline or terminator is in it |
| Extraction.ScannedLine | scut/scut.c:155 | a line followed by its newline, or by the end of the buffer, is scanned up to there |
| Extraction.CharTaken | scut/scut.c:156-161 | the character at a requested position is printed, with one blank after it unless it is the last requested column |
| Extraction.CharsTail | scut/scut.c:155-162 | requested positions past the end of the line print nothing |
| Extraction.CharStep | scut/scut.c:156-162 | one pass of the `-l` body extends the output exactly as the specification does; the column cursor only moves forward, by at most one, and never past the 0 that ends the columns |
| Extraction.WalkChars | scut/scut.c:153-162 | the `-l` walk prints exactly the characters at the requested positions, each followed by a blank while columns remain |
| Extraction.ExtractChars | scut/scut.c:153-162 | `-l` output for the columns the array holds |
| Extraction.FieldsJoin | scut/scut.c:163-189 | joining the fields the walk reads with the delimiter gives back the line: splitting drops and adds no character |
| Extraction.FieldsOfJoin | scut/scut.c:163-189 | fields without delimiters, all but the first non-empty, are read back exactly from their join, and the walk never steps past its end |
| Extraction.FieldsShape | scut/scut.c:164-186 | the first field holds no delimiter, and a later field holds one only as its first character (the character after a delimiter is never tested) |
| Extraction.ClosedWithNewline | scut/scut.c:152-155 | a line ending in a delimiter is closed by the newline fgets keeps, which becomes content |
| Extraction.ExtendStep | scut/scut.c:172-187 | a character that is not a delimiter joins the last field and is printed exactly when that field is the requested column the walk is at |
| Extraction.DelimPasses | scut/scut.c:164-187 | a delimiter that does not leave a requested field with columns after it prints no blank, and the next character is printed exactly when its field is the column waited for |
| Extraction.DelimClosesRequested | scut/scut.c:164-187 | a delimiter that closes the requested field while another column is pending prints one blank and moves to the next column; the next character is printed exactly when the new field is that column |
| Extraction.EmittedAll | scut/scut.c:155-190 | at the end of the line, what the walk has printed is the selected fields |
| Extraction.WalkStep | scut/scut.c:163-189 | one step of the walk stays inside the walked text and keeps reading towards the same fields |
| Extraction.FieldStep | scut/scut.c:163-189 | one pass of the field body gives the printed text of the specification for the fields read so far; the cursor moves by one, or by two after a delimiter, `col` counts fields, and the column cursor moves forward by at most one |
| Extraction.WalkFields | scut/scut.c:153-190 | the field walk prints exactly the requested fields of the walked line |
| Extraction.ExtractFields | scut/scut.c:153-190 | `-w` and `-c` output for the columns the array holds |
| Extraction.ExtractLine | scut/scut.c:153-191 | the output for one buffer is the selection for its mode followed by one newline |
| Extraction.ClosedOutput | scut/scut.c:163-191 | when no delimiter ends the scanned line, the field output is taken from the scanned line itself |
| Extraction.OneNewline | scut/scut.c:155-191 | the output of a buffer ends with a newline and holds no other newline |
| Scut.CutEach | scut/scut.c:151-192 | one output line per input buffer, each the extractor's output for the requested columns |
| Scut.CutLines | scut/scut.c:144-192 | an invalid selection gives exit code 2 and no output; a valid one gives exit code 0 and, for every input line, the output for the parsed columns |
| Usage.LongSelectionParse | scut/scut.c:29 | `1-2,7-15` is valid and expands to 1, 2, 7, 8, ..., 15 |
| Usage.ShortSelectionParse | scut/scut.c:35 | `1,3-5` is valid and expands to 1, 3, 4, 5 |
| Usage.ChainedDashes | scut/scut.c:111-117 | in `1-2-3` the first hyphen's start wins: it expands to 1, 2, 3 |
| Usage.RefusedSelections | scut/scut.c:56-66 | the empty selection, a leading hyphen, a trailing comma and a semicolon are refused |
| Usage.CharsExample | scut/scut.c:29-30 | `-l 1-2,7-15` on `alice,30,532,AZ,S` prints `a l 3 0 , 5 3 2 , A Z` |
| Usage.CommaExample | scut/scut.c:35-36 | `-c 1,3-5` on the same line prints `alice 532 AZ S` |
| Usage.WhitespaceExample | scut/scut.c:42-43 | `-w 1,3-5` on `this is some` prints `this some` |
| Usage.SampleTextExample | scut/scut.c:42-44 | `-w 1,3-5` on the last line `sample text`, which has no newline, prints `sample ` and a newline |
| Usage.AdjacentDelimiters | scut/scut.c:177-187 | `a,,b` splits into `a` and `,b`: the second comma is content |
| Usage.TrailingDelimiter | scut/scut.c:176-191 | `-c 3` on `a,b,` followed by its newline prints the newline as field 3, then the newline of the line |

## Left out

- Argument plumbing (scut/scut.c:130-143): the argument count, the mode flag compared with `strcmp`, and the messages to stderr. The mode is a `Mode` value.
- Stream I/O: `fgets` and `printf` (scut/scut.c:152-191). Input lines come in as a sequence of buffers, and each output line is returned as a string.
- fgets reads at most 127 characters per call, so a longer line is cut into several buffers. That splitting is not modelled: each element of the input is one buffer.
- `atoi` is a libc call. It is modelled by `Atoi`, the value of the leading ASCII digits, which is all `getCols` relies on.
- Undefined behaviour is ruled out by preconditions rather than modelled. Three cases:
  - a number of three or more digits overflows the digit buffer (`ShortNumbers`);
  - more than 127 columns leave no 0 after the last one;
  - in `-w`/`-c` mode, a buffer that ends in a delimiter with no newline after it makes the walk read past the terminator (`FieldLine`).
- Scut.CutLines: requires the parsed columns to be positive and strictly ascending. The contract is therefore weaker than the code, which also accepts columns out of order, repeated, or 0 (for example `3,1` or `0`):
  - for such columns the walk prints only the columns it meets in order;
  - a 0 ends the list early.
- Extraction.OneNewline: stated only for buffers whose field walk stays inside the scanned line. When a newline-terminated buffer ends in a delimiter, the newline is content of the last field and can be printed before the final one; `Usage.TrailingDelimiter` shows this case.
- The mode test sits inside the loop in the code (scut/scut.c:156, 163, 176). The model tests the mode once and runs one loop per mode. The branches taken are the same.
- The two field modes share one walk, parameterised by the delimiter.
