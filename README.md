# csvcut core in Dafny

A model of the core of csvcut, a tool that cuts columns out of CSV input.
The model covers these parts:

- **The tokenizer** (`src/ccsv.h`). `ccsv_init_ex` and `ccsv_init` set up a
  cursor. `ccsv_nextfield` returns one field per call and rewrites the
  caller's line buffer in place as it goes: NUL bytes over separators and
  trailing blanks. It recognises quoted fields and steps over doubled quotes.
- **The column-list compiler** (`needpos` and `get_list` in
  `src/csvcut.c`). It turns a `-f` list such as `-3,5,7-9,12-` into a
  growable byte array `positions` and the scalars `autostart`, `autostop`
  and `maxval`.
- **The quote counters** `countquotes` and `countquotes_fld`.
- **The logical-record assembler** in `csv_cut`. It reads physical lines
  with `fgets` into a buffer that grows by `BUFCHUNK` bytes. It keeps
  appending lines by a per-line quote-parity test against an alternating
  target.
- **The per-field selection and header handling** in `csv_cut`: which
  fields go to the printer, with which field index and output position.
- **`escape`**, the JSON-style escaping of newline, tab, carriage return and
  double quote, and **`xmltagsanitize`**, which rewrites a header name into
  an ASCII subset of the `Name` production of section 2.3 of XML 1.0.
- **The earlier `csvcut.c`** at the top of the repository. Its `get_list`,
  `needpos` and assembly loop are those of `src/csvcut.c`. Its record loop
  differs: the `-H` header is dropped before tokenisation, and its
  selection test is off by one and unbounded.

C pointers into a buffer become indices into a `seq<char>` whose last byte
is NUL (module `Libc`), and NULL becomes `None`. The input stream is a
`seq<char>` with a read position. Each imperative routine is a method
proved against a function that specifies it:

| routine | method | specification |
|---|---|---|
| `ccsv_nextfield` | `Ccsv.Cursor.NextField` | `Ccsv.NextFieldSpec` |
| `needpos` | `FieldList.Columns.NeedPosInPlace` | `FieldList.NeedPos` |
| `get_list` | `FieldList.Columns.GetList` | `FieldList.Compile` |
| the assembly loop | `Assembler.ReadRecord` | `Assembler.Assemble` |
| `csv_cut` | `Cut.CutFile` | `Cut.CutStream` |
| `escape` | `Escape.Scratch.Escape` | `Escape.Escaped` |

The properties are proved about those functions. Modules:

| file | module | contents |
|---|---|---|
| `ctype.dfy` | `Ctype` | character classes |
| `libc.dfy` | `Libc` | `Option`, C strings, `strchr`, `strtol` |
| `ccsv.dfy` | `Ccsv` | the tokenizer |
| `ccsv_laws.dfy` | `CcsvLaws` | what one tokenizer call returns |
| `ccsv_roundtrip.dfy` | `CcsvRoundTrip` | splitting a joined line gives back its fields |
| `quotes.dfy` | `Quotes` | quote counters |
| `quotes_laws.dfy` | `QuotesLaws` | quote-counter laws |
| `fieldlist.dfy` | `FieldList` | `needpos`, `get_list` and the selection test |
| `fieldlist_laws.dfy` | `FieldListLaws` | their laws |
| `assembler.dfy` | `Assembler` | the record assembler |
| `assembler_laws.dfy` | `AssemblerLaws` | the parity rule against the intended rule |
| `cut.dfy` | `Cut` | the record loop of `csv_cut` |
| `escape.dfy` | `Escape` | `escape` |
| `xmltag.dfy` | `XmlTag` | `xmltagsanitize` |
| `legacy.dfy` | `Legacy` | the earlier `csvcut.c` |

The earlier `csvcut.c` has `get_list` and `needpos` identical line for line
to `src/csvcut.c` (csvcut.c:48-126 against src/csvcut.c:90-168). Its
assembly loop (csvcut.c:149-168) is the same loop; its quote counter is
`countchar(..., '"', ...)`, which `Legacy.CountChar` shows counts what
`countquotes` counts. So module `Legacy` reuses `FieldList` and
`Assembler` and models only what differs.

## Model

| member | source | states |
|---|---|---|
| Libc.StrChr | src/ccsv.h:49 | strchr: the first occurrence of the character in the C string, or None when the string ends first |
| Libc.StrToL | src/csvcut.c:128-135 | strtol on a run of decimal digits: it reads at least one digit and stops at the first byte that is not one |
| Ccsv.SkipSpace | src/ccsv.h:46 | the first byte at or after the cursor that is not blank, which lies within the C string |
| Ccsv.FieldEnd | src/ccsv.h:49-51 | the end found is a separator lying inside the C string; for a quoted field, Ccsv.QuotedEnd says which quote it is |
| Ccsv.SkipPairsCloses | src/ccsv.h:51 | from an opening quote, the loop over doubled quotes stops at the first quote whose preceding text is single bytes other than a quote and `""` pairs, and that is not itself followed by a quote; it gives None exactly when no quote of the C string is such a quote |
| Ccsv.QuotedEnd | src/ccsv.h:49-51 | the end of a quoted field is the first quote that closes it: the text before it is bytes other than a quote and `""` pairs, and no quote follows it; there is no end exactly when no quote of the C string closes the field |
| Ccsv.TrimBack | src/ccsv.h:56 | the backward trim in mid-record stops at the start of the call, never below it |
| Ccsv.NextFieldSpec | src/ccsv.h:38-68 | one call: a NULL cursor returns NULL and changes nothing; otherwise the field starts after the leading blanks (one byte further on an opening quote), `type` is '"' or the delimiter, and the buffer keeps its length and terminator |
| Ccsv.NextFieldProgress | src/ccsv.h:49-65 | the cursor only moves forward inside the buffer, and the next call again cannot scan before the buffer |
| Ccsv.Cursor.InitEx | src/ccsv.h:21-24 | the cursor stands at the start of the line with the given delimiter |
| Ccsv.Cursor.Init | src/ccsv.h:28-31 | as InitEx with a comma |
| Ccsv.Cursor.NextField | src/ccsv.h:38-68 | the buffer, cursor, returned field and stored type are those of NextFieldSpec on the old buffer and cursor |
| Ccsv.Cursor.FindFieldEnd | src/ccsv.h:49-51 | the loop over doubled quotes finds FieldEnd |
| Ccsv.Cursor.TrimBlanksBack | src/ccsv.h:56 | the in-place trim loop computes TrimBack |
| Ccsv.Cursor.CutLast | src/ccsv.h:60-65 | the end-of-record branch rewrites the buffer as LastField says |
| Ccsv.Cursor.CutEnded | src/ccsv.h:52-58 | a field ended by its separator is cut as EndedField says |
| CcsvLaws.QuotedField | src/ccsv.h:47-57 | a quoted field returns the text between its quotes, doubled quotes kept as they are; the closing quote is the first one that closes the field, as Ccsv.QuotedEnd states; the cursor moves past the first delimiter found from one byte before the closing quote |
| CcsvLaws.UnquotedField | src/ccsv.h:49-64 | an unquoted field returns the text up to the next delimiter or the end of the record, trailing blanks trimmed, with a NUL written just after it |
| CcsvLaws.TrimRightIs | src/ccsv.h:56 | the trimmed value is exactly the prefix up to the last byte that is not blank |
| CcsvLaws.BlankFieldLeaks | src/ccsv.h:56 | an empty field preceded by two or more blanks keeps its delimiter: the value returned is the delimiter and the rest of the record |
| CcsvLaws.NullForever | src/ccsv.h:43-65 | once a call leaves the cursor NULL, every later call returns NULL and changes nothing |
| CcsvLaws.EmptyAtEnd | src/ccsv.h:60-65 | a cursor on the terminating NUL yields one empty field, then NULL |
| CcsvLaws.QuotedDelimiterLast | src/ccsv.h:53-55 | a quoted value ending in the delimiter, as in `"a,",b`, yields `a,` and an empty field; the rest of the record is lost |
| CcsvLaws.DoubledQuoteKept | src/ccsv.h:51 | `"a""b",c` yields `a""b`, the doubled quote not collapsed, and the cursor moves to `c` |
| CcsvRoundTrip.RoundTrip | src/ccsv.h:38-68 | for any delimiter but NUL, quote and newline, a blank one such as a tab included: fields with no delimiter, quote or NUL inside and no blank at either end, none of them empty when the delimiter is blank, joined by the delimiter and ended by a newline, come back unchanged from successive calls; the one line left out is the blank one |
| CcsvRoundTrip.BlankDelimiterDropsEmpty | src/ccsv.h:46 | with a blank delimiter such as a tab, an empty field between two plain ones is lost: the skip over leading blanks takes its delimiter for white space, so f, an empty field and g come back as f and g |
| CcsvRoundTrip.RoundTripFrom | src/ccsv.h:38-68 | the same, with the same delimiters and fields, from any cursor position in a longer buffer |
| Quotes.Count | src/csvcut.c:173 | the number of occurrences of a character, at most the length |
| Quotes.CountIsMultiplicity | src/csvcut.c:173 | the count is the multiplicity of the character in the multiset of the text |
| Quotes.CountAppend | src/csvcut.c:357 | the counts of two adjacent chunks add up |
| Quotes.OutsideDelims | src/csvcut.c:182 | the delimiters counted while the quotes before them are even; at most the delimiters of the text |
| Quotes.NoQuotesAllOutside | src/csvcut.c:182 | without quotes every delimiter is counted |
| Quotes.CountQuotes | src/csvcut.c:170-175 | returns the quotes of the C string and sets len to its length |
| Quotes.CountQuotesFld | src/csvcut.c:177-186 | as CountQuotes, and fields goes up by OutsideDelims of the string |
| QuotesLaws.HeaderCountMatches | src/csvcut.c:357-387 | on a line of plain fields, one plus the delimiters countquotes_fld counts is the number of fields the tokenizer returns |
| QuotesLaws.JoinDelims | src/csvcut.c:182 | joined plain fields hold one delimiter fewer than fields |
| Assembler.FGets | src/csvcut.c:355 | fgets with room for n-1 bytes: stops after a newline, after n-1 bytes or at the end of the input; NULL only at the end |
| Assembler.ChunkStep | src/csvcut.c:355-366 | one chunk: appended verbatim with its quotes counted, the buffer grown by BUFCHUNK when it does not end in a newline |
| Assembler.ReadLine | src/csvcut.c:353-367 | the inner loop: chunks until one ends in a newline or fgets returns NULL |
| Assembler.Assemble | src/csvcut.c:350-369 | one logical record from a position: the stream only moves forward and the buffer never shrinks |
| Assembler.ReadChunk | src/csvcut.c:355-366 | one pass on the locals buf, lnx, lnxsiz, bufsiz: the state ChunkStep gives, keeping lnx + lnxsiz == bufsiz |
| Assembler.ReadPhysicalLine | src/csvcut.c:353-367 | the inner loop on the locals: the state and quote count ReadLine gives |
| Assembler.ReadRecord | src/csvcut.c:350-369 | the outer loop on the locals: the stream position, buffer, size and end flag Assemble gives |
| AssemblerLaws.ReadLineReads | src/csvcut.c:353-367 | the inner loop reads exactly the next physical line, verbatim, with its quotes counted; it ends the input exactly when the line has no newline |
| AssemblerLaws.AssembleVerbatim | src/csvcut.c:350-369 | the record is the old text and the bytes consumed, verbatim |
| AssemblerLaws.AssembleIsParityRule | src/csvcut.c:350-369 | a record none of whose lines starts with room for the NUL alone is the run of whole lines ParityRule picks: the k-th line ends it when its own quote parity differs from k's |
| AssemblerLaws.FitsHasRoom | src/csvcut.c:350-369 | a record that fits the buffer with two bytes to spare leaves room for a byte at the start of each of its lines |
| AssemblerLaws.AssembleFitsParityRule | src/csvcut.c:350-369 | in particular, a record that fits the first buffer with two bytes to spare is the run of lines ParityRule picks |
| AssemblerLaws.EarlyClose | src/csvcut.c:351-368 | a line that starts with room for the NUL alone ends the record: fgets stores an empty string with no quotes, and the record is what was read before it, not at the end of the input |
| AssemblerLaws.TightBufferCloses | src/csvcut.c:350-369 | on `"ab`, `c"` with a five-byte buffer the record ends after the first line, its field still open, though the parity rule picks both lines |
| AssemblerLaws.TightBufferRoomy | src/csvcut.c:350-369 | on the same input with a six-byte buffer the record is both lines |
| AssemblerLaws.IntendedIsEven | src/csvcut.c:350-369 | the intended record, ended at the first line end with an even number of quotes so far, is balanced unless the input runs out |
| AssemblerLaws.IntendedIsFirst | src/csvcut.c:350-369 | every line end inside the intended record has an odd number of quotes before it, so it is the shortest balanced run of lines |
| AssemblerLaws.TwoLinesAgree | src/csvcut.c:350-369 | the parity rule and the intended rule agree whenever either ends the record within two lines |
| AssemblerLaws.ThirdLineGlued | src/csvcut.c:350-369 | on `"a`, `b`, `c"`, `d` the assembler glues all four lines into one record, though the field closes on the third |
| AssemblerLaws.AssembleProgress | src/csvcut.c:348-369 | a record read before the end of the input consumes at least one byte |
| FieldList.NeedPos | src/csvcut.c:90-106 | needpos keeps NULL-ness and capacity consistent |
| FieldListLaws.NeedPosKeeps | src/csvcut.c:96-105 | needpos keeps the old bytes, zeroes the new ones and leaves at least n |
| FieldListLaws.GrowthBounds | src/csvcut.c:96-101 | no growth when big enough; the first request is taken as is; later ones double the capacity and stay below twice the request |
| FieldList.Columns.NeedPosInPlace | src/csvcut.c:90-106 | the array and capacity in place become NeedPos of the old state |
| FieldList.ParseToken | src/csvcut.c:123-145 | an accepted token has start and stop at least 1 |
| FieldListLaws.RenderParse | src/csvcut.c:123-145 | every range get_list accepts is read back from its token `N`, `N-M`, `-M`, `N-` or `N-M-` |
| FieldListLaws.TokenErrors | src/csvcut.c:142-145 | trailing junk is an illegal value even on a zero, which is checked after it; `-` and `0` are zero values |
| FieldList.SplitList | src/csvcut.c:122 | strsep on ", \t": every separator ends a token |
| FieldListLaws.AdjacentSeparatorsRejected | src/csvcut.c:122-145 | `1, 2` gives an empty token and aborts with the zero-value error |
| FieldList.Compile | src/csvcut.c:110-168 | get_list keeps the invariant: NULL exactly while nothing was allocated, index maxval inside the array |
| FieldListLaws.CompileOutcome | src/csvcut.c:122-168 | get_list takes every token, or stops at the first one that does not parse with that token's error |
| FieldListLaws.CompileMarks | src/csvcut.c:122-167 | a call adds its ranges and 1..autostart to the marks of earlier calls and removes none |
| FieldListLaws.MarksUnion | src/csvcut.c:122-150 | the marks of all tokens accumulate as a union |
| FieldListLaws.AutostartIsMax | src/csvcut.c:130-131 | autostart is the largest M of the `-M` tokens, or what it was |
| FieldListLaws.AutostopIsMin | src/csvcut.c:136-139 | autostop is the smallest stop of the open tokens, or what it was; zero exactly when there is none |
| FieldListLaws.MaxvalIsMax | src/csvcut.c:146-149 | before the final adjustments maxval is the largest stop, or what it was |
| FieldListLaws.FinishMaxval | src/csvcut.c:153-163 | the final maxval is capped at autostop, then raised to autostart, and stays inside the array |
| FieldListLaws.ReversedMarksNothing | src/csvcut.c:146-150 | a reversed `N-M` marks nothing but still raises maxval |
| FieldList.Columns.GetList | src/csvcut.c:110-168 | on the statics in place: the new state is Compile's, or the error of the first bad token |
| FieldList.Columns.Selects | src/csvcut.c:391 | the selection test on the statics, with autostop>0, is EmitsFixed of their state |
| FieldList.Columns.Release | src/csvcut.c:412-413 | positions becomes NULL; capacity and scalars stay |
| FieldListLaws.SelectionMeaning | src/csvcut.c:391 | with the corrected test, 0-based field i is emitted exactly when the list asks for column i+1 |
| FieldListLaws.OneDashAsWritten | src/csvcut.c:391 | the test as written, `autostop>1`, emits field 0 but not field 1 for `1-`, which asks for column 2 |
| FieldListLaws.EmitsAgree | src/csvcut.c:391 | the written and corrected tests differ only when autostop is 1 |
| Cut.Selected | src/csvcut.c:383-397 | the fields printed from one record, at most as many as the record holds |
| Cut.SelectedSound | src/csvcut.c:383-397 | each printed field is a kept one with its own value, and the k-th has col k |
| Cut.SelectedOrdered | src/csvcut.c:383-397 | the printed fields keep record order |
| Cut.SelectedComplete | src/csvcut.c:383-397 | every kept field is printed |
| Cut.SelectedColumns | src/csvcut.c:383-397 | after a `-f` list, the printed fields are exactly those whose columns the list asks for, in order, at col 0, 1, ... |
| Cut.SelectedAll | src/csvcut.c:391 | with no list every field is printed at its own index |
| Cut.Here | src/csvcut.c:370-390 | a record gives a row exactly when it is not the empty end-of-input buffer and not line 1 under -H |
| Cut.NumberedMeans | src/csvcut.c:370 | rows carry increasing line numbers, never 1 under -H |
| Cut.CutStream | src/csvcut.c:348-400 | the rows of an input carry increasing line numbers, skip line 1 under -H and hold every field in place without a list, with the corrected test `autostop>0`; where the model stops, at a blank record, it names a later line |
| Cut.CutRecord | src/csvcut.c:382-397 | the fields passed to the printer are Selected of the tokenizer's fields, with the corrected test `autostop>0`; none under -H on line 1 |
| Cut.CutOne | src/csvcut.c:350-398 | one pass: the assembled record, the next line number, and its row |
| Cut.CutFile | src/csvcut.c:320-416 | the rows and the stop of csv_cut are CutStream's from a BUFCHUNK buffer, with the corrected test `autostop>0`; positions is freed at the end |
| Escape.Escaped | src/csvcut.c:212-225 | the escaped text is at most twice the field, and free of NUL when the field is |
| Escape.EscapedCopies | src/csvcut.c:214-215 | text without newline, tab, carriage return or quote is copied unchanged |
| Escape.EscapedIsSafe | src/csvcut.c:190-224 | the output has no raw newline, tab or carriage return, and every quote in it follows a backslash |
| Escape.DoubledQuoteCollapses | src/csvcut.c:218-222 | `""` becomes `\"` |
| Escape.BackslashIsAmbiguous | src/csvcut.c:190 | a backslash is not escaped, so `\n` typed out and a newline escape alike |
| Escape.EscapedRoundTrip | src/csvcut.c:212-225 | with no backslash in the field and nothing dropped after a quote, reading the output back gives the field |
| Escape.AsWrittenFresh | src/csvcut.c:204-210 | on a fresh buffer the as-written block suffices exactly when the field is non-empty and not every character is doubled |
| Escape.AsWrittenTooShort | src/csvcut.c:204-210 | the as-written block is 3 bytes where a newline needs 4, and absent where an empty first field needs 2 |
| Escape.CorrectedSuffices | src/csvcut.c:204-210 | the corrected block always holds sentinel, output and NUL |
| Escape.Scratch.constructor | src/csvcut.c:192-193 | no block at program start |
| Escape.Scratch.Release | src/csvcut.c:197-203 | escape(NULL) frees the block |
| Escape.Scratch.Escape | src/csvcut.c:188-228 | returns Escaped of the field, written after the sentinel and ended by NUL, in a block grown to hold it |
| XmlTag.SanitizedIsName | src/csvcut.c:230-237 | a non-empty name becomes a Name of the same length; a first byte that is not a letter and any later byte that is not a letter or digit become '_' |
| XmlTag.SanitizedFixesNames | src/csvcut.c:230-237 | a non-empty string is left unchanged exactly when it is already a name |
| XmlTag.SanitizedIdempotent | src/csvcut.c:230-237 | sanitizing twice is sanitizing once |
| XmlTag.AsWrittenAgrees | src/csvcut.c:230-237 | on a non-empty name the function as written rewrites just that C string, as Sanitized says |
| XmlTag.AsWrittenEmptyRunsOn | src/csvcut.c:232-236 | on an empty name the terminator is overwritten and the loop runs off the buffer or across the next string |
| XmlTag.Sanitize | src/csvcut.c:230-237 | in place, with the first statement guarded: the C string becomes Sanitized of it and nothing else changes |
| Legacy.CountChar | csvcut.c:128-133 | returns the occurrences of the character in the C string and sets len to its length |
| Legacy.KeepsOfRanges | csvcut.c:179 | after ranges that all parse, field i is kept exactly when the list asks for column i, one further on than intended |
| Legacy.KeepsMeaning | csvcut.c:48-126 | the same for a `-f` list as get_list reads it |
| Legacy.KeepsShifted | csvcut.c:179 | field 0 is never kept once a list is given, and field i+1 is kept exactly when the corrected src test keeps field i |
| Legacy.FirstColumnAsWritten | csvcut.c:179 | `-f 1` keeps the second field and not the first, and a field past the array sends the test out of bounds |
| Legacy.Kept | csvcut.c:177-183 | the fields printed from one record, at most as many as it holds |
| Legacy.KeptSound | csvcut.c:177-183 | each printed field is kept with its own value, in record order, the k-th at col k |
| Legacy.KeptComplete | csvcut.c:177-183 | every kept field is printed |
| Legacy.KeptAll | csvcut.c:179 | with no list every field is printed in place |
| Legacy.Record | csvcut.c:169-185 | line 1 under -H gives no row whatever it holds, since it is dropped before it is cut; an empty buffer gives no row; the model stops on a blank record or an out-of-bounds test |
| Legacy.LegacyStream | csvcut.c:147-187 | rows numbered increasingly, line 1 skipped under -H, every field in place without a list |
| Legacy.Test | csvcut.c:179 | the test on the statics: None exactly when it would read past the array, otherwise Keeps |
| Legacy.CutRecord | csvcut.c:175-184 | the printed fields are Kept of the tokenizer's fields, or the loop stops at the first field the test cannot read |
| Legacy.CutOne | csvcut.c:149-185 | one pass: the assembled record, the next line number, and Record of it |
| Legacy.CutFile | csvcut.c:135-191 | the rows and stop are LegacyStream's from a BUFCHUNK buffer; positions is left as it was |

## Left out

- Printing: `print_field_csv`, `print_field_json`, `print_field_xml` and the `printf` framing in `csv_cut` (src/csvcut.c:239-253, 338-347, 376-379, 398-403; csvcut.c:181-185) are not modelled. The model stops at the field, its index and its output position handed to the printer.
- `check_callout`, `setup_callout` and `parse_range` (src/csvcut.c:255-318, 441-488) run external commands with `popen`. Cut.CutRecord treats the call at src/csvcut.c:393 as returning the field unchanged, so a NULL from a callout, which skips the print but still advances `col`, is not modelled.
- The header-name table `fields` and its size `fldnum` (src/csvcut.c:329-330, 372, 385-389, 404-409) are not modelled. It is sized from countquotes_fld's count and indexed by the tokenizer's. QuotesLaws.HeaderCountMatches shows the two agree on lines of plain fields. Longer rows read past it; that read is not modelled.
- `main`, `usage`, `version`, `get_type`, getopt, `fopen` and exit codes (src/csvcut.c:419-439, 492-554; csvcut.c:193-249) are not modelled.
- Memory allocation failure (`malloc`, `realloc` or `calloc` returning NULL) is not modelled.
- Input bytes equal to NUL are excluded (`'\0' !in input`): fgets stores them, but every C-string routine would stop there.
- Ccsv.NextFieldSpec: requires that the C string at the cursor has a byte that is not blank. On a record of blanks only, such as `"\n"`, the trim at src/ccsv.h:62-63 reads before the buffer, which is undefined behaviour. Cut.CutStream and Legacy.LegacyStream stop with that line number instead.
- Legacy.Record: where the test at csvcut.c:179 would read `positions[i]` past the array (undefined behaviour), the model stops with that line number.
- Legacy.CutFile: reuses Assembler.ReadRecord, whose chunk counter is countquotes. Legacy.CountChar on '"' has the same contract, so the loop is the same.
- AssemblerLaws.AssembleIsParityRule: requires that no line of the record starts with room for the NUL alone. A line that does closes the record early, with its field still open (AssemblerLaws.EarlyClose, AssemblerLaws.TightBufferCloses); the next record then starts in the middle of the field.
- CcsvRoundTrip.RoundTrip: with a blank delimiter such as a tab, fields must not be empty. An empty field is lost, as CcsvRoundTrip.BlankDelimiterDropsEmpty states.
- Assembler.FGets: with room for exactly one byte it stores only the NUL and succeeds, as glibc's fgets does. C leaves this case to the implementation.
- Integer widths are not modelled. `size_t` column numbers, `strtol` overflow and `int` buffer sizes are unbounded integers.
- Character classes are those of the C locale (`isspace`, `isalpha`, `isalnum`, `isdigit` on ASCII).
- Escape.Scratch.Escape: models the corrected growth guard (see Findings). The as-written allocation is stated by Escape.AsWrittenBytes and the lemmas about it.
- XmlTag.Sanitize: models the first statement guarded against the empty name (see Findings). The as-written function is XmlTag.AsWritten.
- Cut.Selected: uses the corrected test `autostop>0` (see Findings). The as-written test is FieldList.Emits.

## Findings

| source | as written | input that shows it | evidently intended | confidence | as-written member | corrected member |
|---|---|---|---|---|---|---|
| src/csvcut.c:391 | `autostop>1&&autostop<(i+1)` | `-f 1-` prints only the first column | every column from the first on, as `N-` does for N > 1 | high, not executed | FieldListLaws.OneDashAsWritten | FieldListLaws.SelectionMeaning |
| src/csvcut.c:205-209 | `buflen<len*2`, then a block of `len*2+1` bytes | a field that is a single newline needs 4 bytes (sentinel, `\`, `n`, NUL) and gets 3 | a block of `len*2+2` bytes | high, not executed | Escape.AsWrittenTooShort | Escape.Scratch.Escape |
| src/csvcut.c:205-225 | no block is made when `buflen` is 0 and `len` is 0 | an empty field escaped before any other: `*b='\0'` writes through NULL+1 | a block is always present | high, not executed | Escape.AsWrittenTooShort | Escape.Scratch.Escape |
| src/csvcut.c:232 | `if(!isalpha(*field)) *field='_';` with no test for the terminator | an empty header name: the NUL becomes '_' and the loop runs on | an empty name is left alone | high, not executed | XmlTag.AsWrittenEmptyRunsOn | XmlTag.Sanitize |
| csvcut.c:179 | `positions[i]` for the 0-based field i | `-f 1` prints the second column and never the first | `positions[i+1]`, bounded by `maxval`, as src/csvcut.c:391 has it | high, not executed | Legacy.FirstColumnAsWritten | FieldListLaws.SelectionMeaning |
