# eclint core in Dafny

This project models the core of eclint, a linter and fixer for EditorConfig
rules. Its input is the resolved EditorConfig definition of one file plus the
file's bytes. The model covers:

- **Bytes** (`bytes.dfy`): the bytes the rules care about (cr, lf, tab, space)
  and the helpers from Go's `bytes` package the checks use.
- **Errors** (`errors.dfy`): a validation error, which carries a position, a
  line and an index; a configuration error (`ErrConfiguration`); any other
  error; and the panic of `bytes.Repeat`.
- **Scanner** (`scanner.dfy`): `SplitLines`, which splits lines and keeps
  their terminators. Also the `bufio.Scanner` loop that drives it over the
  chunks a reader delivers, and `ReadLines`.
- **Validators** (`validators.dfy`): the per-line checks. These are
  `endOfLine`, `indentStyle`, `checkInsertFinalNewline`,
  `checkTrimTrailingWhitespace`, the three block-comment helpers and
  `MaxLineLength`.
- **Definitions** (`definitions.dfy`): `newDefinition`, which derives the
  linter's view of a section, and `OverrideDefinitionUsingPrefix`.
  `strconv.Atoi` is modelled with its 64-bit range.
- **Probes** (`probes.dfy`): the binary and charset probes run on the first
  512 bytes of a file.
- **Lint** (`lint.dfy`): `validate`, which runs the checks line by line and
  carries the "inside a block comment" state. Also `LintWithDefinition`.
- **Fixer** (`fix.dfy`): `fix` and its two line rewriters,
  `fixTabAndSpacePrefix` and `fixTrailingWhitespace`.

A file is a `seq<byte>`, where a byte is a `bv8`. `Scanner.Lines` turns it
into the sequence of lines the scanner yields at end of input. Each line keeps
its `\r`, `\n` or `\r\n`. The linter and the fixer walk this sequence with
`ReadLines`. The callback's `isEOF` flag means "this is the last line".

Several behaviours of the code are kept exactly as written:

- `probeBinary` never flags a NUL byte. Its `b == 0x00` case comes after the
  ASCII case, which matches first.
- `isBlockCommentEnd` tests `data[:i]`, which leaves out the last non-terminator
  byte. So " */" does not end a comment.
- `MaxLineLength` uses 0 to mean "no breaking position yet", so an overflow at
  index 0 is reported at the next overflowing index.
- In `newDefinition`, the `block_comment` guard tests `bs` rather than `bc`.
  So the value "unset" is taken literally.
- `fixTabAndSpacePrefix` returns its input unchanged when the whole line is
  indentation units.
- A charset mismatch after chardet can never be reported, because
  `detectCharset` only ever returns the expected charset.
- `fix` rewrites the terminator whenever `end_of_line` is not empty, "unset"
  included.

`fix` is idempotent whenever its terminator is the one `end_of_line` names, or
`end_of_line` is empty (`Fixer.FixIdempotent`). Every line it writes needs no
further indentation or trim fix, whatever its terminator. The rescan reads the
written bytes back as the same lines but for one case: a line ending in a lone
`\r`, followed by a line that is a lone `\n`, comes back as one `\r\n` line,
which is written back unchanged too. Trimming can make such a `\n` line out of
" \n". With `end_of_line` set it can only be the last line, because every other
line carries the configured terminator.

## Model

| member | source | states |
|---|---|---|
| Bytes.Repeat | fix.go:128-132 | `bytes.Repeat` of one byte gives exactly n copies of it |
| Bytes.TrimRightEol | fix.go:163 | `bytes.TrimRight(data, "\r\n")` keeps a prefix, drops only cr/lf, and leaves no cr/lf at the end |
| Bytes.TrailingBlankCount | validators.go:156-173 | counts the run of spaces and tabs at the end, and the byte before it is not one |
| Bytes.LeadingBlankCount | validators.go:176-186 | counts the run of spaces and tabs at the start, and the byte after it is not one |
| Bytes.LeadingCount | validators.go:104-107 | counts the leading copies of one byte, and the byte after them differs |
| Bytes.FirstEol | validators.go:230-233 | the index of the first cr/lf (or the length); nothing before it is a terminator |
| Bytes.FromString | definition.go:47-59 | `[]byte(s)` of a configuration value keeps its length |
| Scanner.TerminatorOf | validators.go:46-74 | a line's terminator is one of its suffixes |
| Scanner.SplitLines | scanner.go:14-39 | returns a token iff a cr/lf is buffered. The token is a terminated prefix, and a CR token is never followed by a buffered LF. Asks for more exactly when no terminator is buffered before end of input. Returns the rest as a final token at end of input, or reports done on an empty buffer |
| Scanner.SplitLinesFixed | scanner.go:14-39 | agrees with the split as written at end of input and whenever the first terminator is not a trailing CR; before end of input it never yields a CR that may be the first half of a CRLF |
| Scanner.LinesFlatten | scanner.go:46-63 | concatenating the lines gives back the whole content: no byte is lost or added |
| Scanner.LinesWellFormed | scanner.go:14-39 | no line is empty, every line but the last is terminated, the last line is terminated or has no cr/lf, and a line ending in CR is never followed by one starting with LF |
| Scanner.LinesOfFlatten | scanner.go:14-39 | splitting the concatenation of well-formed lines gives those lines back (the inverse of `LinesFlatten`) |
| Scanner.SplitAtLine | scanner.go:14-39 | a terminated line at the head of a buffer is the token returned |
| Scanner.SplitFixedPrefixStable | scanner.go:14-39 | once the corrected split yields a token, more data does not change it |
| Scanner.Lines | scanner.go:46-63 | an empty file has no lines, and a non-empty file has at least one and never more lines than bytes. `LinesFlatten`, `LinesOfFlatten` and `LinesWellFormed` pin down their contents |
| Scanner.Scan | scanner.go:49-61 | whichever split function runs and however the input is chunked, every line the scanner yields is non-empty |
| Scanner.ScanKeepsEveryByte | scanner.go:49-61 | the lines the scanner yields, put back together, are exactly the buffered bytes followed by every read: nothing is dropped or repeated, as written or corrected |
| Scanner.ScanFixedIsChunkIndependent | scanner.go:46-63 | with the corrected split, the scanner yields the same lines however the reader chunks the input |
| Scanner.ScanAtEof | scanner.go:46-63 | at end of input the scanner yields exactly `Lines` of its buffer |
| Scanner.ScanAsWrittenSplitsCrLf | scanner.go:17-22 | as written, the chunks `a\r` then `\n` produce two lines, while the same bytes in one chunk produce one line |
| Scanner.ReadLines | scanner.go:46-63 | collects at most one error per line |
| Scanner.ReadLinesCollectsAll | scanner.go:52-60 | the errors are the callback's non-nil results, in line order |
| Scanner.ReadLinesSound | scanner.go:52-60 | every collected error was produced by the callback on some line, with that line's index |
| Validators.EolBytes | fix.go:143-146 | the terminator of a valid `end_of_line` value is non-empty and made of cr/lf only |
| Validators.EndOfLine | validators.go:46-74 | an unknown value is a configuration error, and a mismatch is reported at the line's length |
| Validators.EndOfLineAcceptsExactTerminator | validators.go:46-74 | a scanned line passes iff its terminator is exactly the configured one (lf rejects crlf) |
| Validators.IndentStyle | validators.go:77-127 | "unset" and a space size of 0 pass. An unknown style or a negative size is a configuration error. Otherwise, after the leading run of the expected byte, the other indent byte is a style mismatch at that index; a run length that is not a multiple of the size is a size mismatch, unless the run reaches a terminator or the end (tab uses size 1) |
| Validators.IndentScan | validators.go:104-124 | the loop stops at the first byte that is not the expected indent byte, with the verdict above |
| Validators.CheckInsertFinalNewline | validators.go:130-153 | an empty line passes; otherwise it fails at its length iff ending in cr/lf disagrees with the setting, with the message matching the direction |
| Validators.CheckTrimTrailingWhitespace | validators.go:156-173 | fails iff the last byte before the terminator run is a space or tab, at that byte's index |
| Validators.TrailingScan | validators.go:157-170 | the backward loop gives the verdict above from any starting point inside the terminator run |
| Validators.IsBlockCommentStart | validators.go:176-186 | true iff the first byte that is not a space or tab starts the marker |
| Validators.CheckBlockComment | validators.go:189-206 | from position i, fails at the first byte that is not blank iff the prefix does not start there |
| Validators.IsBlockCommentEnd | validators.go:209-219 | true iff, with t the length before the terminators, t >= 2 and the bytes before index t-1 end with the marker (the last byte is left out, as written) |
| Validators.MaxLineLength | validators.go:226-257 | fails iff the width up to the first terminator exceeds the maximum. The width counts a tab as tabWidth, skips continuation bytes and counts every other byte as one. A failure reports that width and the first breaking index after 0 |
| Validators.BreakingPositionSkipsIndexZero | validators.go:244-246 | a line that is too long from its first byte is reported at index 1, not 0 |
| Definitions.Atoi | definition.go:35-39 | `strconv.Atoi` accepts only an optional sign followed by digits, within 64 bits, and the sign decides the value's sign |
| Definitions.NatTextValue | definition.go:35-39 | the decimal text of n reads back as n |
| Definitions.AtoiOfItoa | definition.go:35-39 | parsing the decimal text of any 64-bit integer gives it back |
| Definitions.AtoiExamples | definition.go:35-39 | "", "-", "off" and "4a" are refused; "4", "+7" and "-3" parse |
| Definitions.NewDefinition | definition.go:25-77 | "utf-8-bom" is renamed. An unparsable indent_size is an error. The block-comment markers are read only when indent_style is set. max_line_length sets the maximum and defaults the tab width to 8 when it is not positive; otherwise both stay as given |
| Definitions.BlockCommentMarkers | definition.go:44-61 | refuses the section iff markers apply and block_comment_end is missing, empty or "unset" |
| Definitions.NewDefinitionSucceedsIff | definition.go:25-77 | the definition is built iff indent_size parses, block_comment_end is present where needed, and max_line_length is off, unset or a non-negative number |
| Definitions.MissingBlockCommentEndIsRefused | lint_test.go:137-175 | a Java section without block_comment_end is refused |
| Definitions.MarkersIgnoredWithoutIndentStyle | definition.go:44 | without indent_style no marker is read, and only max_line_length can make the section fail |
| Definitions.BlockCommentUnsetTakenLiterally | definition.go:48-52 | `block_comment = unset` becomes the literal prefix "unset" |
| Definitions.Strip | definition.go:86 | removing the prefix gives back the rest of the key |
| Definitions.OverrideKey | definition.go:87-109 | copies the value under the stripped key, replaces the matching string setting and nothing else, parses tab_width, and fails exactly on a bad tab_width or a boolean setting |
| Definitions.OverrideDefinitionUsingPrefix | definition.go:83-114 | never loses a raw key |
| Definitions.OverrideCopiesPrefixedValues | definition.go:84-88 | on success every prefixed key's value is present under its stripped key, and every other key keeps its value |
| Definitions.OverrideSucceedsIff | definition.go:83-114 | the override succeeds iff every prefixed key names a setting that can be overridden with its value |
| Definitions.OverrideReplacesSettings | definition.go:89-97 | each of indent_style, indent_size, charset and end_of_line takes the value of its prefixed key when one is given, and otherwise keeps its own |
| Definitions.OverrideReplacesTabWidth | definition.go:98-104 | the tab width becomes the parsed prefixed value if one is given and otherwise stays |
| Definitions.OverrideRefusesBooleanSettings | definition.go:105-108 | a prefixed trim_trailing_whitespace or insert_final_newline always makes the override fail |
| Definitions.OverrideExampleSucceeds | definition_test.go:10-43 | the example's four prefixed keys are accepted |
| Definitions.OverrideExample | definition_test.go:10-43 | the example ends with charset "unset", indent_style space, indent_size "4" and tab width 4 |
| Probes.BinaryScanSpec | probes.go:59-101 | the byte loop reports binary iff the bytes from i on are not well-shaped UTF-8, where a leader may be cut short only at the end when cut is allowed |
| Probes.ContinuationScanSpec | probes.go:88-97 | the inner loop reports binary iff the owed continuation bytes are wrong or missing |
| Probes.ProbeMagic | probes.go:44-54 | true iff the bytes begin with the five bytes of the text `%PDF-` |
| Probes.PdfMagicIsText | probes.go:47 | the magic bytes are `[]byte("%PDF-")` |
| Probes.ProbeBinary | probes.go:59-101 | `probeBinary` is true iff the peeked bytes are not well-shaped UTF-8 (a trailing cut leader counts as binary) |
| Probes.AsciiIsWellShaped | probes.go:67-68 | ASCII bytes, NUL included, are never binary |
| Probes.ProbeBinaryExamples | probes_test.go:128-169 | a reversed euro, a truncated euro, a middle-only emoji and a truncated emoji are binary; an emoji in text and the bytes 0x00 and 0xFF are not |
| Probes.WindowOfWellShaped | probes.go:20 | any prefix of well-shaped text is well-shaped when a cut at the end is allowed |
| Probes.DetectCharsetUsingBOM | probes.go:173-188 | returns a charset only if its byte-order mark starts the data, and returns "" iff no mark does |
| Probes.DetectBomOfPrefixed | probes.go:173-188 | each mark is recognised after any bytes, except that utf-16le followed by two NULs reads as utf-32le |
| Probes.DetectCharset | probes.go:191-223 | no charset passes. Otherwise a detector failure is an error, and the expected charset is returned iff the detector reported UTF-8 for utf-8 or some ISO-8859 for latin1; anything else is a configuration error |
| Probes.ProbeCharset | probes.go:103-144 | empty data returns the configured charset. A BOM charset must match the detected mark, or a validation error at 0 results. utf-8 and latin1 go to chardet. Success never changes a configured charset |
| Probes.ProbeCharsetNeverReportsMismatch | probes.go:133-138 | the "does not match expected" error is unreachable |
| Probes.Peek | probes.go:20 | the peek is the first min(512, length) bytes |
| Probes.ProbeCharsetOrBinary | probes.go:19-41 | a PDF magic or binary-looking peek is binary with no charset; otherwise the charset probe's result or error is passed on |
| Probes.PeekCutFlagsTextAsBinary | probes.go:20-28 | well-formed text whose two-byte character straddles byte 512 is reported binary as written, but not by the corrected probe |
| Probes.ProbeCharsetOrBinaryFixed | probes.go:19-41 | identical to the probe as written for inputs of at most 512 bytes, and a binary verdict carries no charset |
| Probes.FixedProbeAcceptsWellShaped | probes.go:25-33 | the corrected probe calls well-shaped UTF-8 text binary only on the PDF magic |
| Probes.ProbeUtf8Examples | probes_test.go:30-95 | the utf-8 emoji text and the empty file probe as utf-8 text |
| Probes.ProbeBomExamples | probes_test.go:30-95 | the utf-8 bom, utf-32le and utf-32be samples probe as their charsets |
| Lint.EndingCheck | lint.go:128-136 | the last line is checked only for the final newline, and other lines only for end_of_line when it is set |
| Lint.IndentWithComments | lint.go:138-158 | outside a comment the verdict is `indentStyle`. Inside one the comment state ends only on the end marker. It starts only on a passing line that opens with the start marker, and always does so |
| Lint.LengthSubject | lint.go:165-175 | the line measured is the line minus a UTF-8 BOM, dropped only on line 0 with a known charset |
| Lint.Enrich | lint.go:179-188 | a validation error gets the line and its index; other errors pass through unchanged |
| Lint.IndentStage | lint.go:138-158 | skipped after an earlier failure or when indentation is not checked |
| Lint.TrimStage | lint.go:160-162 | skipped after an earlier failure or unless trimming is true |
| Lint.LengthStage | lint.go:164-177 | skipped after an earlier failure or when there is no maximum |
| Lint.ValidateLine | lint.go:121-189 | the comment state changes only when indentation is checked, and a reported validation error names its line and index with a position inside it |
| Lint.FirstFailure | lint.go:138-176 | passes iff all checks pass, and otherwise reports the first failure |
| Lint.ValidateLineReportsFirstFailure | lint.go:121-189 | a line reports the first failing check in the order ending, indentation, trailing whitespace, length |
| Lint.EndOfLineIgnoredOnLastLine | lint.go:128-131 | end_of_line has no effect on the last line |
| Lint.FinalNewlineIgnoredBeforeLastLine | lint.go:132-136 | insert_final_newline has no effect on any other line |
| Lint.BlockCommentState | lint.go:138-158 | a line that fails its ending check keeps the state. A comment closes only on the end marker and opens only on a line that passes indentation and starts with the start marker |
| Lint.Validate | lint.go:114-190 | at most one error per line |
| Lint.ValidateFindingsArePlaced | lint.go:179-188 | every validation error names a line of the file and that line's index |
| Lint.NoRulesNoFindings | lint.go:114-190 | a definition that enables no rule reports nothing |
| Lint.WithFilename | lint.go:100-108 | a validation error gets the file name; other errors are unchanged |
| Lint.LintWithDefinition | lint.go:43-111 | with the probe as written: a bad definition is the only error. A file the probe calls binary reports nothing, and a probe error is the only error. Otherwise the errors are validate's, each with the file name |
| Lint.LintFindingsNameTheFile | lint.go:99-108 | when the probe as written succeeds, every validation error reported names the file |
| Lint.LintWithDefinitionFixed | lint.go:84-108 | with the corrected probe: the same verdicts for files of at most 512 bytes. For well-shaped UTF-8 content without the PDF magic, the file is never skipped as binary and its validation errors are reported with the file name |
| Lint.CutTextSkippedByLint | lint.go:84-93 | 511 `a` bytes and an `é` with no final newline: as written the linter reports nothing; with the corrected probe it reports the missing final newline |
| Lint.JavaSectionRules | lint_test.go:113-125 | the Java section builds a definition with tab indentation, lf endings and the markers "/*", "*" and "*/" |
| Lint.JavaOpenLine | lint_test.go:96 | the "/**" line passes and opens the comment |
| Lint.InsideLineVerdicts | lint_test.go:97-98 | the comment lines fail plain indentation at 1 but pass the block-comment prefix check |
| Lint.InsideLinesDoNotEnd | lint_test.go:97-98 | neither comment line ends the comment, " */" included, as written |
| Lint.JavaInsideLine | lint_test.go:97-98 | inside the comment, both lines pass and the comment stays open |
| Lint.JavaClassLine | lint_test.go:99 | the class line passes as the last line |
| Lint.JavaFileLines | lint_test.go:95-100 | the Java file scans into its five lines |
| Lint.JavaWalk | lint_test.go:127-132 | walking the five lines reports nothing |
| Lint.JavaFileIsClean | lint_test.go:82-135 | the Java file validates with no errors |
| Fixer.PrefixScan | fix.go:188-206 | the loop never consumes past the end |
| Fixer.PrefixScanStops | fix.go:188-206 | where the loop stops, neither unit starts |
| Fixer.PrefixScanCoversUnits | fix.go:188-204 | what the loop consumed is a sequence of that many c or x units |
| Fixer.FixTabAndSpacePrefix | fix.go:184-209 | a line made only of units comes back unchanged; otherwise the consumed units are replaced |
| Fixer.ConvertedPrefixShape | fix.go:188-205 | the rewritten line is one c per unit consumed, followed by the untouched rest |
| Fixer.ScanOfConverted | fix.go:188-206 | rescanning m copies of c followed by a stopping rest consumes exactly those m units |
| Fixer.FixTabAndSpacePrefixIdempotent | fix.go:184-209 | rewriting the prefix twice is the same as once |
| Fixer.SpaceFixPasses | fix.go:127-129 | after the space rewrite, a line whose content starts with a non-blank byte passes the space indentation check |
| Fixer.TabFixPasses | fix.go:130-132 | after the tab rewrite, a line whose content starts with a non-blank byte passes the tab indentation check |
| Fixer.AllIndentLineIsKept | fix.go:208 | a lone tab under space indentation is left as is and still fails the check |
| Fixer.TrailingLoop | fix.go:220-233 | the backward loop never grows the line |
| Fixer.Cut | fix.go:235-237 | removing the range u..v keeps the bytes before u and shifts the rest down |
| Fixer.FixTrailingWhitespace | fix.go:212-240 | the result is never longer than the line |
| Fixer.ScannedLineEolsAtEnd | scanner.go:14-39 | every scanned line has its terminator bytes only at the end |
| Fixer.FixTrailingWhitespaceOfLine | fix.go:212-240 | on such a line the result is the body without trailing blanks, followed by the original terminator |
| Fixer.FixedLineParts | fix.go:212-240 | the fixed line's body is the trimmed body, which ends in no blank, and the terminator is unchanged |
| Fixer.FixedLinePassesTrim | fix_test.go:174-224 | a fixed line always passes the trailing-whitespace check |
| Fixer.FixTrailingWhitespaceIdempotent | fix.go:212-240 | fixing a line twice is the same as once, and the result keeps its terminator at the end |
| Fixer.UnitSize | fix.go:112-120 | the indentation unit is never 0 |
| Fixer.IndentUnits | fix.go:122-141 | only space and tab give units, both non-empty and blank. "" and unset give none. Any other style is a configuration error, and a negative size panics |
| Fixer.FixLine | fix.go:153-166 | when end_of_line is set and the line is not the last, the fixed line ends with the configured terminator and has no other cr/lf just before it. `LastLineKeepsItsEnding`, `OnlyTheTerminatorDiffers` and `NoRulesKeepLineText` state what else it keeps |
| Fixer.NewTerminatorKeepsTrim | fix.go:162-166 | replacing the terminator does not change the trailing-whitespace verdict |
| Fixer.LastLineKeepsItsEnding | fix.go:153-166 | the last line keeps its own terminator, or its absence, whatever the rules |
| Fixer.OnlyTheTerminatorDiffers | fix.go:162-166 | a non-last line is fixed exactly like the last one up to its terminator. Without end_of_line the two are the same |
| Fixer.NoRulesKeepLineText | fix.go:153-166 | without indentation or trimming, a line's text before its terminator is unchanged, and the last line comes back as it was |
| Fixer.PrefixKeepsEnding | fix.go:184-209 | rewriting the indentation prefix keeps the line's terminator |
| Fixer.FixLineTrims | fix.go:153-166 | with trimming on, every fixed line passes the trailing-whitespace check |
| Fixer.FixLines | fix.go:153-174 | one fixed line per scanned line |
| Fixer.Fix | fix.go:103-181 | a style error is returned first, then a missing terminator is an error, and otherwise the fix succeeds. `FixIdempotent` is its partner: fixing the result again changes nothing |
| Fixer.FixedLinesEndWithEol | fix.go:162-166 | every fixed line but the last passes the end_of_line check for the configured value |
| Fixer.FixedLinesPassTrim | fix.go:158-160 | with trimming on, every line of the fixed file passes the trailing-whitespace check |
| Fixer.FixLinesKeepsConforming | fix.go:153-174 | with nothing to fix, each line comes back unchanged |
| Fixer.FixKeepsConformingContent | fix.go:103-181 | with nothing to fix, the file comes back byte for byte |
| Fixer.ScanSharedPrefix | fix.go:184-209 | the indentation loop stops at or before the first non-blank byte, so two lines that agree up to one are scanned alike |
| Fixer.ConvertedSharedPrefix | fix.go:184-209 | a line whose indentation is already converted stays so, whatever follows its first non-blank byte |
| Fixer.NoIndentKept | fix.go:184-209 | a line that is empty or opens with a non-blank byte comes back unchanged |
| Fixer.TrimKeepsConverted | fix.go:154-160 | removing the trailing whitespace of a converted line leaves its indentation converted |
| Fixer.SettledAnyTerminator | fix.go:154-166 | whether a complete line needs any indentation or trim fix does not depend on its terminator |
| Fixer.FixLineSettles | fix.go:153-166 | every fixed line needs no further indentation or trim fix and keeps its shape: complete, or free of cr/lf. With end_of_line set, every line but the last ends with the configured terminator |
| Fixer.FixLinesRewritten | fix.go:153-174 | the fixed lines of any file have that shape and need no further fix, line by line |
| Fixer.SettledLineKept | fix.go:153-166 | a line needing no fix comes back unchanged as the last line, and as any other line once it carries the configured terminator |
| Scanner.LinesOfOneLine | scanner.go:14-39 | a single complete line, or one free of cr/lf, is read back as that one line |
| Fixer.JoinedPair | scanner.go:14-39 | when a fixed line ending in a lone cr is followed by a line opening with lf, that line is a lone lf. It is the last line unless end_of_line is empty |
| Fixer.MergedLines | scanner.go:14-39 | the two are read back as one line ending in cr lf, which needs no fix either and is written back as it is |
| Fixer.RefixRewritten | fix.go:153-174 | splitting the bytes of such fixed lines and fixing them again gives the same bytes |
| Fixer.FixIdempotent | fix.go:103-181 | fixing the file `fix` wrote gives the same file back, when the terminator is the one end_of_line names (lf, crlf or cr) or end_of_line is empty |
| Fixer.EmptyEolNotIdempotent | fix.go:162-166 | with end_of_line set but an empty terminator, " \n x\n" is fixed into "  x\n" and that into "\tx\n": the fix is then not idempotent |
| Fixer.IndentSectionDefinition | fix_test.go:108-146 | the indentation test's section gives size 2, no tab width and lf endings |
| Fixer.SamplePrefixFixed | fix_test.go:114-127 | the mixed tab and space sample becomes four units of the configured style |
| Fixer.FixIndentSample | fix_test.go:108-172 | the sample fails the indentation check before the fix and passes it after, and the fix changes it |
| Fixer.EolSectionDefinition | fix_test.go:13-43 | the end-of-line test's section gives no indentation fix and no trimming |
| Fixer.FixEolSampleKept | fix_test.go:44-72 | under lf the two-line sample is unchanged |
| Fixer.FixEolSampleConverted | fix_test.go:75-103 | under crlf the sample's lf becomes crlf and nothing else changes |

## Left out

- Reading files (`os.Stat`, `os.Open`, directories), `probeReadable`, `Lint`, `FixWithDefinition` and `fixWithFilename` are left out: they are file-system I/O around the modelled core. A file is its content, given as bytes.
- Context cancellation in `validate` and the logging calls are left out: they do not change any verdict on complete input.
- The `fileSize` argument of `ReadLines` at lint.go:121 and fix.go:153 is left out. Only the two-argument `ReadLines` of scanner.go is modelled, over the complete content.
- `bufio.Reader.Peek` errors other than `io.EOF` are left out: they are reader failures.
- `def.EOL()` is not part of this model. `Fixer.Fix` takes its outcome as a parameter, and `Validators.EolBytes` is the lf/crlf/cr mapping the lemmas assume.
- Fixer.FixIdempotent: stated only for a terminator that end_of_line names (lf, crlf or cr), or for an empty end_of_line. For another end_of_line value, such as "unset", the terminator comes from `def.EOL()`, which is not part of this model. With an empty terminator the fix joins lines and is not idempotent, as `Fixer.EmptyEolNotIdempotent` shows.
- chardet is a foreign library. `Probes.DetectCharset` takes its answer as a `detector` parameter.
- Error message text is left out: messages are an enumeration carrying their arguments.
- Go's map iteration order is not modelled. `Definitions.OverrideDefinitionUsingPrefix` takes the raw keys as an explicit sequence, and its lemmas assume the keys are distinct and that no key still carries the prefix after stripping.
- Definitions.OverrideDefinitionUsingPrefix: on an error, the Go function has already changed the keys visited before the failure. The model returns only the error, not the partly changed definition.
- `bufio.Scanner` stops at a token longer than its 64 KiB buffer, and `ReadLines` never reads `sc.Err()` (scanner.go:49-62), so a longer line silently ends the walk there. `Scanner.Lines`, `Scanner.Scan` and `Scanner.ReadLines` have no such limit.
- Bytes.FromString: takes each character as one byte, its code point modulo 256. Go's `[]byte(s)` is the UTF-8 encoding, so the two differ for a configuration value with a non-ASCII character, such as a non-ASCII block-comment marker.
- Writing into the `bytes.Buffer` in `fix` cannot fail, so that error path is left out.
- `fixInsertFinalNewline` and the fixer's changed/fixed flags appear only in the tests' later signatures; the model follows `fix` as it stands in fix.go.
- Fixer.FixTrailingWhitespace: the contract is stated for lines whose cr/lf bytes are all at the end, as every scanned line's are. For a line with an inner terminator, the loop's result is only bounded in length.
- Fixer.SpaceFixPasses and Fixer.TabFixPasses are stated for the prefix rewrite of one line whose content starts with a non-blank byte. They are not stated for lines that consist only of indentation, nor for the whole output of `Fix`.

## Findings

| source | as written | input that shows it | evidently intended | confidence | as-written member | corrected member |
|---|---|---|---|---|---|---|
| scanner.go:17-22 | before end of input, a buffer ending in `\r` yields that `\r` as a complete line | a reader that delivers `a\r` and then `\n`: two lines, `a\r` and `\n`, instead of `a\r\n` | a trailing `\r` before end of input asks for more data, so the lines do not depend on how the reader chunks the file | high, not executed | Scanner.ScanAsWrittenSplitsCrLf | Scanner.ScanFixedIsChunkIndependent |
| probes.go:20-28 | `probeBinary` runs on a 512-byte peek and treats a multi-byte character cut at byte 512 as binary | 511 `a` bytes followed by `é` (`C3 A9`) and no final newline, under a section with insert_final_newline: the peek ends in `C3`, so `LintWithDefinition` skips the text file as binary and reports nothing | a leader byte cut by the end of the peek is not evidence of binary content, so the missing final newline is reported | high, not executed | Lint.CutTextSkippedByLint | Lint.LintWithDefinitionFixed |
