/**
 The validation walk (lint.go): every line of a file goes through the
 checks its definition enables, in a fixed order, and yields at most
 one error; whether the walk is inside a block comment is the one piece
 of state carried from line to line.
 */
module Lint {
  import opened Bytes
  import opened Errors
  import opened Settings
  import opened Scanner
  import opened Validators
  import opened Definitions
  import opened Probes

  /** The indentation check, and with it the block-comment tracking, is enabled. */
  predicate IndentActive(def: Definition) {
    def.config.indentStyle != "" && def.config.indentStyle != UNSET_VALUE && def.config.indentSize != UNSET_VALUE
  }

  /** The first check: the final newline on the last line, the line ending on every other. */
  function EndingCheck(def: Definition, data: seq<byte>, isEOF: bool): (r: Outcome)
    ensures isEOF && def.config.insertFinalNewline.None? ==> r.Pass?
    ensures !isEOF && !IsSet(def.config.endOfLine) ==> r.Pass?
    ensures r.Fail? && r.error.Validation? ==> r.error.ve.position == |data|
  {
    if isEOF then
      if def.config.insertFinalNewline.Some? then CheckInsertFinalNewline(data, def.config.insertFinalNewline.value)
      else Pass
    else if IsSet(def.config.endOfLine) then EndOfLine(def.config.endOfLine, data)
    else Pass
  }

  /**
   The indentation check with the block-comment tracking: inside a block
   comment with a continuation marker, an indentation finding is
   replaced by the continuation-marker check from the failing position;
   the comment ends on a line the end marker closes, and begins on a
   line without error that opens it.
   */
  function IndentWithComments(def: Definition, inside: bool, data: seq<byte>): (r: (Outcome, bool))
    ensures r.0.Fail? && r.0.error.Validation? ==> 0 <= r.0.error.ve.position < |data|
    ensures inside && !r.1 ==> def.blockCommentEnd.Some? && IsBlockCommentEnd(def.blockCommentEnd.value, data)
    ensures !inside && r.1 ==> r.0.Pass? && def.blockCommentStart.Some? && IsBlockCommentStart(def.blockCommentStart.value, data)
    ensures !inside && r.0.Pass? && def.blockCommentStart.Some? && IsBlockCommentStart(def.blockCommentStart.value, data) ==> r.1
    ensures !inside ==> r.0 == IndentStyle(def.config.indentStyle, def.indentSize, data)
  {
    var e := IndentStyle(def.config.indentStyle, def.indentSize, data);
    var e' :=
      if e.Fail? && inside && def.blockComment.Some? && e.error.Validation? then
        CheckBlockComment(e.error.ve.position as nat, def.blockComment.value, data)
      else e;
    var inside' := if inside && def.blockCommentEnd.Some? then !IsBlockCommentEnd(def.blockCommentEnd.value, data) else inside;
    var inside'' :=
      if e'.Pass? && !inside' && def.blockCommentStart.Some? then IsBlockCommentStart(def.blockCommentStart.value, data)
      else inside';
    (e', inside'')
  }

  /** The line the length check measures: line 0 without its UTF-8 byte-order mark when a charset was probed. */
  function LengthSubject(index: nat, charset: string, data: seq<byte>): (d: seq<byte>)
    ensures HasSuffix(data, d)
    ensures d != data <==> index == 0 && charset != "" && HasPrefix(data, UTF8_BOM)
  {
    if index == 0 && charset != "" && HasPrefix(data, UTF8_BOM) then data[|UTF8_BOM|..] else data
  }

  /** A finding is given the line it was found on and its index; other errors pass unchanged. */
  function Enrich(o: Outcome, data: seq<byte>, index: nat): (e: Option<Error>)
    ensures o.Pass? <==> e.None?
    ensures o.Fail? && !o.error.Validation? ==> e == Some(o.error)
    ensures o.Fail? && o.error.Validation? ==>
      e == Some(Validation(o.error.ve.(line := data, index := index)))
  {
    match o
    case Pass => None
    case Fail(Validation(ve)) => Some(Validation(ve.(line := data, index := index)))
    case Fail(err) => Some(err)
  }

  /** The indentation stage: it runs only while the ending check passed and indentation is configured. */
  function IndentStage(def: Definition, inside: bool, data: seq<byte>, prior: Outcome): (r: (Outcome, bool))
    ensures prior.Fail? ==> r == (prior, inside)
    ensures !IndentActive(def) ==> r == (prior, inside)
    ensures r.0.Fail? && r.0.error.Validation? && !(prior.Fail? && prior.error.Validation?) ==>
      0 <= r.0.error.ve.position < |data|
  {
    if prior.Pass? && IndentActive(def) then IndentWithComments(def, inside, data) else (prior, inside)
  }

  /** The trailing-whitespace stage: it runs only while the earlier checks passed and trimming is asked for. */
  function TrimStage(def: Definition, data: seq<byte>, prior: Outcome): (r: Outcome)
    ensures prior.Fail? ==> r == prior
    ensures def.config.trimTrailingWhitespace != Some(true) ==> r == prior
    ensures r.Fail? && r.error.Validation? && !(prior.Fail? && prior.error.Validation?) ==>
      0 <= r.error.ve.position <= |data|
  {
    if prior.Pass? && def.config.trimTrailingWhitespace == Some(true) then CheckTrimTrailingWhitespace(data) else prior
  }

  /** The length stage: it runs only while the earlier checks passed and a maximum length is set. */
  function LengthStage(def: Definition, charset: string, index: nat, data: seq<byte>, prior: Outcome): (r: Outcome)
    ensures prior.Fail? ==> r == prior
    ensures def.maxLength <= 0 ==> r == prior
    ensures r.Fail? && r.error.Validation? && !(prior.Fail? && prior.error.Validation?) ==>
      0 <= r.error.ve.position <= |data|
  {
    if prior.Pass? && def.maxLength > 0 then MaxLineLength(def.maxLength, def.tabWidth, LengthSubject(index, charset, data))
    else prior
  }

  /**
   The `validate` callback for one line: the ending, indentation,
   trailing-whitespace and length checks run in that order, each only
   while the earlier ones passed; the answer is the next block-comment
   state and the enriched error, if any.
   */
  function ValidateLine(def: Definition, charset: string, inside: bool, index: nat, data: seq<byte>, isEOF: bool): (r: (bool, Option<Error>))
    ensures !IndentActive(def) ==> r.0 == inside
    ensures r.1.Some? && r.1.value.Validation? ==>
      && r.1.value.ve.line == data
      && r.1.value.ve.index == index
      && 0 <= r.1.value.ve.position <= |data|
  {
    var ending := EndingCheck(def, data, isEOF);
    var (indent, inside') := IndentStage(def, inside, data, ending);
    var trim := TrimStage(def, data, indent);
    var length := LengthStage(def, charset, index, data, trim);
    (inside', Enrich(length, data, index))
  }

  /** The first failure among outcomes, in order. */
  function FirstFailure(checks: seq<Outcome>): (r: Outcome)
    ensures r.Pass? <==> forall i :: 0 <= i < |checks| ==> checks[i].Pass?
    ensures r.Fail? ==> exists i :: 0 <= i < |checks| && checks[i] == r && forall j :: 0 <= j < i ==> checks[j].Pass?
  {
    if |checks| == 0 then Pass
    else if checks[0].Fail? then checks[0]
    else
      var r := FirstFailure(checks[1..]);
      assert forall i :: 0 < i < |checks| ==> checks[i] == checks[1..][i - 1];
      r
  }

  /** Each check of a line on its own, as if every earlier one had passed. */
  function Checks(def: Definition, charset: string, inside: bool, index: nat, data: seq<byte>, isEOF: bool): (cs: seq<Outcome>)
    ensures |cs| == 4
  {
    [ EndingCheck(def, data, isEOF),
      if IndentActive(def) then IndentWithComments(def, inside, data).0 else Pass,
      if def.config.trimTrailingWhitespace == Some(true) then CheckTrimTrailingWhitespace(data) else Pass,
      if def.maxLength > 0 then MaxLineLength(def.maxLength, def.tabWidth, LengthSubject(index, charset, data)) else Pass ]
  }

  /**
   The error of a line is the first failing check in the order ending,
   indentation, trailing whitespace, length: a later check never masks
   an earlier one, and an earlier failure silences the later checks.
   */
  lemma {:induction false} ValidateLineReportsFirstFailure(def: Definition, charset: string, inside: bool, index: nat,
                                                           data: seq<byte>, isEOF: bool)
    ensures ValidateLine(def, charset, inside, index, data, isEOF).1
         == Enrich(FirstFailure(Checks(def, charset, inside, index, data, isEOF)), data, index)
  {
    var cs := Checks(def, charset, inside, index, data, isEOF);
    assert cs[1..][1..][1..][1..] == [];
    var ending := EndingCheck(def, data, isEOF);
    var (indent, _) := IndentStage(def, inside, data, ending);
    var trim := TrimStage(def, data, indent);
    var length := LengthStage(def, charset, index, data, trim);
    calc {
      FirstFailure(cs);
      if cs[0].Fail? then cs[0]
      else if cs[1].Fail? then cs[1]
      else if cs[2].Fail? then cs[2]
      else if cs[3].Fail? then cs[3]
      else Pass;
      length;
    }
  }

  /** On the last line the line-ending setting plays no part. */
  lemma EndOfLineIgnoredOnLastLine(def: Definition, charset: string, inside: bool, index: nat, data: seq<byte>, eol: string)
    ensures ValidateLine(def.(config := def.config.(endOfLine := eol)), charset, inside, index, data, true)
         == ValidateLine(def, charset, inside, index, data, true)
  {
    var d1 := def.(config := def.config.(endOfLine := eol));
    var ending := EndingCheck(def, data, true);
    assert EndingCheck(d1, data, true) == ending;
    var indent := IndentStage(def, inside, data, ending);
    assert IndentStage(d1, inside, data, ending) == indent;
    var trim := TrimStage(def, data, indent.0);
    assert TrimStage(d1, data, indent.0) == trim;
    assert LengthStage(d1, charset, index, data, trim) == LengthStage(def, charset, index, data, trim);
  }

  /** On every line but the last the final-newline setting plays no part. */
  lemma FinalNewlineIgnoredBeforeLastLine(def: Definition, charset: string, inside: bool, index: nat, data: seq<byte>,
                                          finalNewline: Option<bool>)
    ensures ValidateLine(def.(config := def.config.(insertFinalNewline := finalNewline)), charset, inside, index, data, false)
         == ValidateLine(def, charset, inside, index, data, false)
  {
    var d2 := def.(config := def.config.(insertFinalNewline := finalNewline));
    var ending := EndingCheck(def, data, false);
    assert EndingCheck(d2, data, false) == ending;
    var indent := IndentStage(def, inside, data, ending);
    assert IndentStage(d2, inside, data, ending) == indent;
    var trim := TrimStage(def, data, indent.0);
    assert TrimStage(d2, data, indent.0) == trim;
    assert LengthStage(d2, charset, index, data, trim) == LengthStage(def, charset, index, data, trim);
  }

  /** The state rules of the block-comment tracking, as seen from the whole line. */
  lemma BlockCommentState(def: Definition, charset: string, inside: bool, index: nat, data: seq<byte>, isEOF: bool)
    ensures var next := ValidateLine(def, charset, inside, index, data, isEOF).0;
      && (EndingCheck(def, data, isEOF).Fail? ==> next == inside)
      && (inside && !next ==> def.blockCommentEnd.Some? && IsBlockCommentEnd(def.blockCommentEnd.value, data))
      && (!inside && next ==> IndentActive(def) && def.blockCommentStart.Some?
                              && IsBlockCommentStart(def.blockCommentStart.value, data)
                              && IndentStyle(def.config.indentStyle, def.indentSize, data).Pass?)
  {
  }

  /** The whole file's validation: the callback folded over its lines from index 0, outside any comment. */
  function Validate(content: seq<byte>, charset: string, def: Definition): (errs: seq<Error>)
    ensures |errs| <= |Lines(content)|
  {
    ReadLines(Lines(content), 0, false, Callback(def, charset))
  }

  /** `ValidateLine` as the callback `ReadLines` is given. */
  function Callback(def: Definition, charset: string): (bool, nat, seq<byte>, bool) -> (bool, Option<Error>) {
    (s: bool, i: nat, d: seq<byte>, eof: bool) => ValidateLine(def, charset, s, i, d, eof)
  }

  /** A finding that carries one of `lines`, that line's index, and a position within the line. */
  predicate Placed(e: Error, lines: seq<seq<byte>>) {
    e.Validation? ==>
      exists k :: 0 <= k < |lines| && e.ve.index == k && e.ve.line == lines[k] && 0 <= e.ve.position <= |lines[k]|
  }

  /** Every finding of the walk carries the line it was found on, that line's index, and a position within it. */
  lemma ValidateFindingsArePlaced(content: seq<byte>, charset: string, def: Definition)
    ensures forall e :: e in Validate(content, charset, def) ==> Placed(e, Lines(content))
  {
    var ls := Lines(content);
    var fn := Callback(def, charset);
    var P := (i: nat, d: seq<byte>, e: Error) => e.Validation? ==> e.ve.index == i && e.ve.line == d && 0 <= e.ve.position <= |d|;
    forall s, i, d, eof | fn(s, i, d, eof).1.Some?
      ensures P(i, d, fn(s, i, d, eof).1.value)
    {
      assert fn(s, i, d, eof) == ValidateLine(def, charset, s, i, d, eof);
    }
    ReadLinesSound(ls, 0, false, fn, P);
    forall e | e in Validate(content, charset, def)
      ensures Placed(e, ls)
    {
      var k :| 0 <= k < |ls| && P(0 + k, ls[k], e);
    }
  }

  /** A definition that enables no check at all. */
  predicate NoRules(def: Definition) {
    && def.config.insertFinalNewline.None?
    && !IsSet(def.config.endOfLine)
    && !IndentActive(def)
    && def.config.trimTrailingWhitespace != Some(true)
    && def.maxLength <= 0
  }

  /** With no check enabled the walk finds nothing, whatever the lines and the state. */
  lemma {:induction false} NoRulesNoFindings(lines: seq<seq<byte>>, index: nat, inside: bool, charset: string, def: Definition)
    requires NoRules(def)
    ensures ReadLines(lines, index, inside, Callback(def, charset)) == []
    decreases |lines|
  {
    if |lines| > 0 {
      var step := ValidateLine(def, charset, inside, index, lines[0], |lines| == 1);
      assert step.1.None?;
      NoRulesNoFindings(lines[1..], index + 1, step.0, charset, def);
    }
  }

  /** `Filename` is set on a finding; any other error is left as it is. */
  function WithFilename(e: Error, filename: string): (r: Error)
    ensures e.Validation? ==> r == Validation(e.ve.(filename := filename))
    ensures !e.Validation? ==> r == e
  {
    if e.Validation? then Validation(e.ve.(filename := filename)) else e
  }

  /**
   What `LintWithDefinition` does with a definition once the probe has
   answered: a probe error is the only result, binary content yields no
   errors, and otherwise the findings of the walk carry the file name.
   */
  function LintProbed(def: Definition, filename: string, content: seq<byte>, probe: Result<(string, bool)>): seq<Error> {
    match probe
    case Err(e) => [e]
    case Ok((charset, isBinary)) =>
      if isBinary then []
      else
        var found := Validate(content, charset, def);
        seq(|found|, i requires 0 <= i < |found| => WithFilename(found[i], filename))
  }

  /**
   `LintWithDefinition` once the file is open: the section is turned into
   a definition (its error is the only result), the first 512 bytes are
   probed as `ProbeCharsetOrBinary` does, binary content yields no
   errors, a probe error is the only result, and otherwise the findings
   of the walk are returned with the file name.
   */
  function LintWithDefinition(d: EditorConfig, filename: string, content: seq<byte>,
                              detector: seq<byte> -> Option<seq<string>>): (errs: seq<Error>)
    ensures NewDefinition(d).Err? ==> errs == [NewDefinition(d).error]
    ensures NewDefinition(d).Ok? ==>
      var probe := ProbeCharsetOrBinary(content, NewDefinition(d).value.config.charset, detector);
      && (probe.Ok? && probe.value.1 ==> errs == [])
      && (probe.Err? ==> errs == [probe.error])
      && (probe.Ok? && !probe.value.1 ==>
            var found := Validate(content, probe.value.0, NewDefinition(d).value);
            |errs| == |found| && forall i :: 0 <= i < |errs| ==> errs[i] == WithFilename(found[i], filename))
  {
    match NewDefinition(d)
    case Err(e) => [e]
    case Ok(def) => LintProbed(def, filename, content, ProbeCharsetOrBinary(content, def.config.charset, detector))
  }

  /**
   Once the file has been probed as text, every finding returned names
   the file. (A finding of the probe itself is returned as it is.)
   */
  lemma LintFindingsNameTheFile(d: EditorConfig, filename: string, content: seq<byte>,
                                detector: seq<byte> -> Option<seq<string>>)
    requires NewDefinition(d).Ok?
    requires ProbeCharsetOrBinary(content, NewDefinition(d).value.config.charset, detector).Ok?
    ensures forall e :: e in LintWithDefinition(d, filename, content, detector) && e.Validation? ==>
      e.ve.filename == filename
  {
    var errs := LintWithDefinition(d, filename, content, detector);
    forall e | e in errs && e.Validation?
      ensures e.ve.filename == filename
    {
      var i :| 0 <= i < |errs| && errs[i] == e;
    }
  }

  /**
   The linter with the corrected probe, which does not take a
   multi-byte character cut by the 512-byte window as binary content.
   */
  function LintWithDefinitionFixed(d: EditorConfig, filename: string, content: seq<byte>,
                                   detector: seq<byte> -> Option<seq<string>>): (errs: seq<Error>)
    ensures |content| <= PEEK_SIZE ==> errs == LintWithDefinition(d, filename, content, detector)
    ensures NewDefinition(d).Err? ==> errs == [NewDefinition(d).error]
    ensures NewDefinition(d).Ok? && WellShaped(content, false) && !ProbeMagic(Peek(content)) ==>
      var probe := ProbeCharsetOrBinaryFixed(content, NewDefinition(d).value.config.charset, detector);
      && (probe.Err? ==> errs == [probe.error])
      && (probe.Ok? ==>
            var found := Validate(content, probe.value.0, NewDefinition(d).value);
            |errs| == |found| && forall i :: 0 <= i < |errs| ==> errs[i] == WithFilename(found[i], filename))
  {
    match NewDefinition(d)
    case Err(e) => [e]
    case Ok(def) =>
      var probe := ProbeCharsetOrBinaryFixed(content, def.config.charset, detector);
      FixedProbeAcceptsWellShapedWhen(content, def.config.charset, detector);
      LintProbed(def, filename, content, probe)
  }

  /** `FixedProbeAcceptsWellShaped` for any content, as an implication. */
  lemma FixedProbeAcceptsWellShapedWhen(content: seq<byte>, charset: string,
                                        detector: seq<byte> -> Option<seq<string>>)
    ensures WellShaped(content, false) ==>
      var r := ProbeCharsetOrBinaryFixed(content, charset, detector);
      r.Ok? && r.value.1 ==> ProbeMagic(Peek(content))
  {
    if WellShaped(content, false) {
      FixedProbeAcceptsWellShaped(content, charset, detector);
    }
  }

  /** A section that asks only for a final newline. */
  const FINAL_NEWLINE_SECTION := EditorConfig("", "", "", "", 0, None, Some(true), map[])

  /**
   A text file of 511 ASCII bytes and an "é" without a final newline: as
   written, the linter skips it as binary and reports nothing; with the
   corrected probe it reports the missing final newline.
   */
  lemma CutTextSkippedByLint(content: seq<byte>)
    requires content == Repeat(0x61, 511) + [0xC3, 0xA9]
    ensures LintWithDefinition(FINAL_NEWLINE_SECTION, "f", content, _ => None) == []
    ensures |LintWithDefinitionFixed(FINAL_NEWLINE_SECTION, "f", content, _ => None)| == 1
  {
    PeekCutFlagsTextAsBinary(content);
    var d := FINAL_NEWLINE_SECTION;
    assert NewDefinition(d).Ok?;
    var def := NewDefinition(d).value;
    assert def.config.charset == "";
    assert NoEol(content) by {
      forall i | 0 <= i < |content|
        ensures !IsEol(content[i])
      {
        if i < 511 {
          assert content[i] == Repeat(0x61, 511)[i];
        }
      }
    }
    OneLineFile(content);
    var found := Validate(content, "", def);
    assert found == ReadLines([content], 0, false, Callback(def, ""));
    assert CheckInsertFinalNewline(content, true).Fail? by {
      assert content[|content| - 1] == 0xA9;
    }
    assert ValidateLine(def, "", false, 0, content, true).1.Some?;
    assert |found| == 1;
  }

  /** Content without cr/lf is one line. */
  lemma OneLineFile(content: seq<byte>)
    requires |content| > 0 && NoEol(content)
    ensures Lines(content) == [content]
  {
  }

  // ---------------------------------------------------------------- the Java block-comment example

  // The rules of the Java section: lf endings, tab indentation, and slash-star, star and star-slash
  // as the block-comment markers.
  predicate JavaRules(def: Definition) {
    && def.config.endOfLine == "lf"
    && def.config.indentStyle == TAB_VALUE
    && def.config.indentSize == ""
    && def.config.insertFinalNewline.None?
    && def.config.trimTrailingWhitespace.None?
    && def.maxLength == 0
    && def.blockCommentStart == Some([0x2F, 0x2A])
    && def.blockComment == Some([0x2A])
    && def.blockCommentEnd == Some([0x2A, 0x2F])
  }

  /** The Java section's markers as bytes. */
  lemma JavaMarkerBytes()
    ensures FromString("/*") == [0x2F, 0x2A]
    ensures FromString("*") == [0x2A]
    ensures FromString("*/") == [0x2A, 0x2F]
  {
    AsciiByte('/', 0x2F);
    AsciiByte('*', 0x2A);
    assert FromString("/*")[0] == 0x2F && FromString("/*")[1] == 0x2A;
    assert FromString("*")[0] == 0x2A;
    assert FromString("*/")[0] == 0x2A && FromString("*/")[1] == 0x2F;
  }

  /** The Java section becomes a definition with those rules. */
  lemma JavaSectionRules(d: EditorConfig)
    requires d == EditorConfig("utf-8", "lf", TAB_VALUE, "", 0, None, None,
                               map["block_comment_start" := "/*", "block_comment" := "*", "block_comment_end" := "*/"])
    ensures NewDefinition(d).Ok? && JavaRules(NewDefinition(d).value)
  {
    JavaMarkerBytes();
    assert BlockCommentsApply(d) && Configured(d.raw, "block_comment_end");
    assert !MaxLengthGiven(d.raw);
    NewDefinitionSucceedsIff(d);
  }

  const JAVA_BLANK: seq<byte> := [LF]
  const JAVA_OPEN: seq<byte> := [TAB, 0x2F, 0x2A, 0x2A, LF]
  const JAVA_MIDDLE: seq<byte> := [TAB, SPACE, 0x2A, LF]
  const JAVA_CLOSE: seq<byte> := [TAB, SPACE, 0x2A, 0x2F, LF]
  /** "\tpublic class ... {}\n" */
  const JAVA_CLASS: seq<byte> :=
    [TAB, 0x70, 0x75, 0x62, 0x6C, 0x69, 0x63, SPACE, 0x63, 0x6C, 0x61, 0x73, 0x73, SPACE, 0x2E, 0x2E, 0x2E, SPACE, 0x7B, 0x7D, LF]

  /** The opening line starts the comment. */
  lemma JavaOpenLine(def: Definition, index: nat)
    requires JavaRules(def)
    ensures ValidateLine(def, UTF8, false, index, JAVA_OPEN, false) == (true, None)
  {
    assert IndentStyle(TAB_VALUE, def.indentSize, JAVA_OPEN) == Pass by {
      assert LeadingCount(JAVA_OPEN, TAB) == 1;
    }
    assert IsBlockCommentStart([0x2F, 0x2A], JAVA_OPEN);
  }

  /** The validators' verdicts on the two lines inside the comment. */
  lemma InsideLineVerdicts(size: int, line: seq<byte>)
    requires line == JAVA_MIDDLE || line == JAVA_CLOSE
    ensures EndOfLine("lf", line) == Pass
    ensures IndentStyle(TAB_VALUE, size, line) == Fail(Invalid(IndentStyleMismatch(TAB_VALUE), 1))
    ensures CheckBlockComment(1, [0x2A], line) == Pass
  {
    assert LeadingCount(line, TAB) == 1;
    assert LeadingBlankCount(line[1..]) == 1;
  }

  /** Neither line inside the comment ends it: the end test looks at the bytes before the last non-eol byte. */
  lemma InsideLinesDoNotEnd(line: seq<byte>)
    requires line == JAVA_MIDDLE || line == JAVA_CLOSE
    ensures !IsBlockCommentEnd([0x2A, 0x2F], line)
  {
    TrailingStopsAt(line, |line| - 2);
    var before := line[..|line| - 2];
    assert before[|before| - 1] != 0x2F;
  }

  /**
   A line inside the comment: the space before the star is an
   indentation-style finding, which inside the comment is replaced by
   the marker check, and that passes. The closing line passes too, but
   its end marker does not end the comment.
   */
  lemma JavaInsideLine(def: Definition, index: nat, line: seq<byte>)
    requires JavaRules(def)
    requires line == JAVA_MIDDLE || line == JAVA_CLOSE
    ensures ValidateLine(def, UTF8, true, index, line, false) == (true, None)
  {
    InsideLineVerdicts(def.indentSize, line);
    InsideLinesDoNotEnd(line);
    assert EndingCheck(def, line, false) == Pass;
    assert IndentWithComments(def, true, line) == (Pass, true);
  }

  /** The class line, the last one, is correctly indented. */
  lemma JavaClassLine(def: Definition, index: nat)
    requires JavaRules(def)
    ensures ValidateLine(def, UTF8, true, index, JAVA_CLASS, true).1 == None
  {
    assert LeadingCount(JAVA_CLASS, TAB) == 1;
  }

  /** The lines of the Java file. */
  function JavaLines(): seq<seq<byte>> {
    [JAVA_BLANK, JAVA_OPEN, JAVA_MIDDLE, JAVA_CLOSE, JAVA_CLASS]
  }

  /** A line of text bytes closed by one lf is a terminated line not ending in a cr. */
  lemma LfLine(l: seq<byte>)
    requires |l| > 0 && l[|l| - 1] == LF && NoEol(l[..|l| - 1])
    ensures Terminated(l) && !EndsWithCr(l)
  {
    FirstEolIs(l, |l| - 1);
    assert l[|l| - 1..] == [LF];
  }

  lemma JavaLinesWellFormed()
    ensures WellFormedLines(JavaLines())
  {
    LfLine(JAVA_BLANK);
    LfLine(JAVA_OPEN);
    LfLine(JAVA_MIDDLE);
    LfLine(JAVA_CLOSE);
    LfLine(JAVA_CLASS);
  }

  /** The scanner splits the Java file into exactly those lines. */
  lemma JavaFileLines(content: seq<byte>)
    requires content == JAVA_BLANK + JAVA_OPEN + JAVA_MIDDLE + JAVA_CLOSE + JAVA_CLASS
    ensures Lines(content) == JavaLines()
  {
    var ls := JavaLines();
    assert Flatten(ls[4..]) == JAVA_CLASS;
    assert Flatten(ls[3..]) == JAVA_CLOSE + JAVA_CLASS;
    assert Flatten(ls[2..]) == JAVA_MIDDLE + JAVA_CLOSE + JAVA_CLASS;
    assert Flatten(ls[1..]) == JAVA_OPEN + JAVA_MIDDLE + JAVA_CLOSE + JAVA_CLASS;
    assert Flatten(ls) == content;
    JavaLinesWellFormed();
    LinesOfFlatten(ls);
  }

  /** The walk over those lines, state threaded through, returns no finding. */
  lemma JavaWalk(def: Definition)
    requires JavaRules(def)
    ensures ReadLines(JavaLines(), 0, false, Callback(def, UTF8)) == []
  {
    var ls := JavaLines();
    var cb := Callback(def, UTF8);
    assert ValidateLine(def, UTF8, false, 0, JAVA_BLANK, false) == (false, None);
    JavaOpenLine(def, 1);
    JavaInsideLine(def, 2, JAVA_MIDDLE);
    JavaInsideLine(def, 3, JAVA_CLOSE);
    JavaClassLine(def, 4);
    assert ReadLines(ls[4..], 4, true, cb) == [];
    assert ReadLines(ls[3..], 3, true, cb) == [];
    assert ReadLines(ls[2..], 2, true, cb) == [];
    assert ReadLines(ls[1..], 1, false, cb) == [];
  }

  /** The test's Java file validates without a finding. */
  lemma JavaFileIsClean(def: Definition, content: seq<byte>)
    requires JavaRules(def)
    requires content == JAVA_BLANK + JAVA_OPEN + JAVA_MIDDLE + JAVA_CLOSE + JAVA_CLASS
    ensures Validate(content, UTF8, def) == []
  {
    JavaFileLines(content);
    JavaWalk(def);
  }
}
