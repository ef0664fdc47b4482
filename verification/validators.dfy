/**
 The per-line checks (validators.go). Each takes one line's bytes, with
 its terminator, and answers `Pass`, a positioned validation finding, or
 a configuration error for a value it does not understand.
 */
module Validators {
  import opened Bytes
  import opened Errors
  import opened Scanner
  import opened Settings

  const UTF8_BOM: seq<byte> := [0xEF, 0xBB, 0xBF]
  const UTF16LE_BOM: seq<byte> := [0xFF, 0xFE]
  const UTF16BE_BOM: seq<byte> := [0xFE, 0xFF]
  const UTF32LE_BOM: seq<byte> := [0xFF, 0xFE, 0x00, 0x00]
  const UTF32BE_BOM: seq<byte> := [0x00, 0x00, 0xFE, 0xFF]

  /**
   The terminator an `end_of_line` value asks for. The helper that maps
   the value to bytes is not part of this model; this mapping (lf to
   `\n`, crlf to `\r\n`, cr to `\r`) is assumed.
   */
  function EolBytes(eol: string): (t: seq<byte>)
    requires eol == "lf" || eol == "crlf" || eol == "cr"
    ensures t != [] && forall i :: 0 <= i < |t| ==> IsEol(t[i])
  {
    if eol == "lf" then [LF] else if eol == "crlf" then [CR, LF] else [CR]
  }

  // ---------------------------------------------------------------- end of line

  /**
   `endOfLine`: "lf" wants an `\n` not preceded by `\r`, "crlf" wants
   `\r\n`, "cr" wants `\r`; a mismatch is reported past the last byte,
   and any other value is a configuration error.
   */
  function EndOfLine(eol: string, data: seq<byte>): (r: Outcome)
    ensures !(eol == "lf" || eol == "crlf" || eol == "cr") ==>
      r == Fail(Configuration(InvalidEndOfLine(eol)))
    ensures r.Fail? && r.error.Validation? ==> r == Fail(Invalid(EolMismatch(eol), |data|))
  {
    if eol == "lf" then
      if !HasSuffix(data, [LF]) || HasSuffix(data, [CR, LF]) then Fail(Invalid(EolMismatch(eol), |data|))
      else Pass
    else if eol == "crlf" then
      if !HasSuffix(data, [CR, LF]) then Fail(Invalid(EolMismatch(eol), |data|))
      else Pass
    else if eol == "cr" then
      if !HasSuffix(data, [CR]) then Fail(Invalid(EolMismatch(eol), |data|))
      else Pass
    else Fail(Configuration(InvalidEndOfLine(eol)))
  }

  /**
   On a line the scanner can yield, `endOfLine` passes exactly when the
   line's terminator is the configured one; an unterminated line fails.
   */
  lemma EndOfLineAcceptsExactTerminator(eol: string, line: seq<byte>)
    requires eol == "lf" || eol == "crlf" || eol == "cr"
    requires Terminated(line) || NoEol(line)
    ensures EndOfLine(eol, line).Pass? <==> TerminatorOf(line) == EolBytes(eol)
    ensures EndOfLine(eol, line).Fail? ==> FailsAt(EndOfLine(eol, line), |line|)
  {
    var j := FirstEol(line);
    var t := TerminatorOf(line);
    if j < |line| {
      assert line == line[..j] + t;
      if j > 0 {
        assert !IsEol(line[..j][j - 1]);
      }
    } else {
      if |line| > 0 {
        assert !IsEol(line[|line| - 1]);
      }
    }
  }

  // ---------------------------------------------------------------- indentation

  /**
   `indentStyle`: "space" indents with spaces in blocks of `size`, "tab"
   with tabs (the size is then taken as 1), "unset" turns the check off,
   and anything else is a configuration error. A size of 0 disables the
   check and a negative size is a configuration error.
   */
  function IndentStyle(style: string, size: int, data: seq<byte>): (r: Outcome)
    ensures r.Fail? && r.error.Validation? ==> 0 <= r.error.ve.position < |data|
    ensures style == UNSET_VALUE ==> r.Pass?
    ensures style !in {SPACE_VALUE, TAB_VALUE, UNSET_VALUE} ==>
      r == Fail(Configuration(InvalidIndentStyle(style)))
    ensures style == SPACE_VALUE && size == 0 ==> r.Pass?
    ensures style == SPACE_VALUE && size < 0 ==> r == Fail(Configuration(InvalidIndentSize(size)))
    ensures style == TAB_VALUE ==>
      var k := LeadingCount(data, TAB);
      if k < |data| && data[k] == SPACE then r == Fail(Invalid(IndentStyleMismatch(style), k))
      else r.Pass?
    ensures style == SPACE_VALUE && size > 0 ==>
      var k := LeadingCount(data, SPACE);
      if k == |data| then r.Pass?
      else if data[k] == TAB then r == Fail(Invalid(IndentStyleMismatch(style), k))
      else if IsEol(data[k]) || k % size == 0 then r.Pass?
      else r == Fail(Invalid(IndentSizeMismatch(size, k), k))
  {
    if style == SPACE_VALUE then IndentCheck(style, SPACE, TAB, size, data)
    else if style == TAB_VALUE then IndentCheck(style, TAB, SPACE, 1, data)
    else if style == UNSET_VALUE then Pass
    else Fail(Configuration(InvalidIndentStyle(style)))
  }

  function IndentCheck(style: string, c: byte, x: byte, size: int, data: seq<byte>): (r: Outcome)
    requires c != x
    ensures size > 0 ==> r == IndentScan(style, c, x, size, data, 0)
  {
    if size == 0 then Pass
    else if size < 0 then Fail(Configuration(InvalidIndentSize(size)))
    else IndentScan(style, c, x, size, data, 0)
  }

  /**
   The scan of `indentStyle` from index `i`: indent bytes are skipped;
   the other indent byte is a style error; a cr/lf, or any byte at a
   multiple of the size, ends the indentation cleanly; any other byte
   is a size error at its index. The verdict depends only on the first
   byte after the leading run of indent bytes.
   */
  function IndentScan(style: string, c: byte, x: byte, size: int, data: seq<byte>, i: nat): (r: Outcome)
    requires size > 0 && c != x
    requires i <= LeadingCount(data, c)
    ensures var k := LeadingCount(data, c);
      if k == |data| then r.Pass?
      else if data[k] == x then r == Fail(Invalid(IndentStyleMismatch(style), k))
      else if IsEol(data[k]) || k % size == 0 then r.Pass?
      else r == Fail(Invalid(IndentSizeMismatch(size, k), k))
    decreases |data| - i
  {
    if i >= |data| then Pass
    else if data[i] == c then IndentScan(style, c, x, size, data, i + 1)
    else if data[i] == x then Fail(Invalid(IndentStyleMismatch(style), i))
    else if IsEol(data[i]) || i % size == 0 then Pass
    else Fail(Invalid(IndentSizeMismatch(size, i), i))
  }

  // ---------------------------------------------------------------- final newline

  /**
   `checkInsertFinalNewline`: an empty last line is always accepted;
   otherwise the last line must end in cr/lf exactly when the flag asks
   for a final newline. A finding is reported past the last byte.
   */
  function CheckInsertFinalNewline(data: seq<byte>, insertFinalNewline: bool): (r: Outcome)
    ensures |data| == 0 ==> r.Pass?
    ensures |data| > 0 ==> (r.Fail? <==> IsEol(data[|data| - 1]) != insertFinalNewline)
    ensures r.Fail? ==> r == Fail(Invalid(if insertFinalNewline then FinalNewlineMissing else ExtraneousFinalNewline, |data|))
  {
    if |data| == 0 then Pass
    else
      var last := data[|data| - 1];
      if last != CR && last != LF then
        if insertFinalNewline then Fail(Invalid(FinalNewlineMissing, |data|)) else Pass
      else
        if !insertFinalNewline then Fail(Invalid(ExtraneousFinalNewline, |data|)) else Pass
  }

  // ---------------------------------------------------------------- trailing whitespace

  /**
   `checkTrimTrailingWhitespace`: past the trailing cr/lf run, a space
   or tab is reported at its index; any other byte (0xA0 included) ends
   the check.
   */
  function CheckTrimTrailingWhitespace(data: seq<byte>): (r: Outcome)
    ensures var j := |data| - TrailingEolCount(data);
      if j > 0 && IsBlank(data[j - 1]) then r == Fail(Invalid(TrailingWhitespace, j - 1))
      else r.Pass?
  {
    TrailingScan(data, |data| - 1)
  }

  function TrailingScan(data: seq<byte>, i: int): (r: Outcome)
    requires -1 <= i < |data|
    requires forall k :: i < k < |data| ==> IsEol(data[k])
    ensures var j := |data| - TrailingEolCount(data);
      if j > 0 && IsBlank(data[j - 1]) then r == Fail(Invalid(TrailingWhitespace, j - 1))
      else r.Pass?
    decreases i + 1
  {
    if i < 0 then
      TrailingAllEol(data);
      Pass
    else if IsEol(data[i]) then TrailingScan(data, i - 1)
    else
      TrailingStopsAt(data, i);
      if IsBlank(data[i]) then Fail(Invalid(TrailingWhitespace, i)) else Pass
  }

  lemma TrailingAllEol(data: seq<byte>)
    requires forall k :: 0 <= k < |data| ==> IsEol(data[k])
    ensures TrailingEolCount(data) == |data|
  {
    if |data| > 0 {
      TrailingAllEol(data[..|data| - 1]);
    }
  }

  lemma TrailingStopsAt(data: seq<byte>, i: nat)
    requires i < |data| && !IsEol(data[i])
    requires forall k :: i < k < |data| ==> IsEol(data[k])
    ensures TrailingEolCount(data) == |data| - 1 - i
    decreases |data|
  {
    if i < |data| - 1 {
      TrailingStopsAt(data[..|data| - 1], i);
    }
  }

  // ---------------------------------------------------------------- block comments

  /** `isBlockCommentStart`: the first byte that is not a space or tab begins `start`. */
  function IsBlockCommentStart(start: seq<byte>, data: seq<byte>): (b: bool)
    ensures var k := LeadingBlankCount(data);
      b <==> k < |data| && HasPrefix(data[k..], start)
  {
    BlockStartScan(start, data, 0)
  }

  function BlockStartScan(start: seq<byte>, data: seq<byte>, i: nat): (b: bool)
    requires i <= LeadingBlankCount(data)
    ensures var k := LeadingBlankCount(data);
      b <==> k < |data| && HasPrefix(data[k..], start)
    decreases |data| - i
  {
    if i >= |data| then false
    else if IsBlank(data[i]) then BlockStartScan(start, data, i + 1)
    else HasPrefix(data[i..], start)
  }

  /**
   `checkBlockComment`: from index `i`, spaces and tabs are skipped and
   the first other byte must begin `prefix`; otherwise the finding is at
   that byte.
   */
  function CheckBlockComment(i: nat, prefix: seq<byte>, data: seq<byte>): (r: Outcome)
    ensures i >= |data| ==> r.Pass?
    ensures i < |data| ==>
      var k := i + LeadingBlankCount(data[i..]);
      if k < |data| && !HasPrefix(data[k..], prefix) then r == Fail(Invalid(BlockCommentPrefixExpected, k))
      else r.Pass?
    decreases |data| - i
  {
    if i >= |data| then Pass
    else if IsBlank(data[i]) then
      assert data[i + 1..] == data[i..][1..];
      CheckBlockComment(i + 1, prefix, data)
    else if !HasPrefix(data[i..], prefix) then Fail(Invalid(BlockCommentPrefixExpected, i))
    else Pass
  }

  /**
   `isBlockCommentEnd`: at the last byte `i > 0` that is not a cr/lf, the
   bytes strictly before `i` must end with `end`; the byte at `i` itself
   is not part of the test.
   */
  function IsBlockCommentEnd(end: seq<byte>, data: seq<byte>): (b: bool)
    ensures var t := |data| - TrailingEolCount(data);
      b <==> t >= 2 && HasSuffix(data[..t - 1], end)
  {
    BlockEndScan(end, data, |data| - 1)
  }

  function BlockEndScan(end: seq<byte>, data: seq<byte>, i: int): (b: bool)
    requires -1 <= i < |data|
    requires forall k :: i < k < |data| ==> IsEol(data[k])
    ensures var t := |data| - TrailingEolCount(data);
      b <==> t >= 2 && HasSuffix(data[..t - 1], end)
    decreases i + 1
  {
    if i <= 0 then
      if i == 0 && !IsEol(data[0]) then
        TrailingStopsAt(data, 0);
        false
      else
        TrailingAllEol(data);
        false
    else if IsEol(data[i]) then BlockEndScan(end, data, i - 1)
    else
      TrailingStopsAt(data, i);
      HasSuffix(data[..i], end)
  }

  // ---------------------------------------------------------------- line length

  /** The width `MaxLineLength` gives one byte. */
  function ByteWidth(b: byte, tabWidth: int): int {
    if b == TAB then tabWidth else if IsContinuation(b) then 0 else 1
  }

  /** The width of a run of bytes: a tab counts `tabWidth`, a continuation byte 0, any other byte 1. */
  function Width(s: seq<byte>, tabWidth: int): int {
    if |s| == 0 then 0 else Width(s[..|s| - 1], tabWidth) + ByteWidth(s[|s| - 1], tabWidth)
  }

  /** The width up to and including byte `i` is over the limit. */
  predicate Exceeds(data: seq<byte>, i: nat, maxLength: int, tabWidth: int)
    requires i < |data|
  {
    Width(data[..i + 1], tabWidth) > maxLength
  }

  /**
   The breaking position `MaxLineLength` reports among the first `n`
   bytes: the first index from 1 on where the running width is over the
   limit, or 0 when there is none (an excess at index 0 alone is
   recorded as 0 and then replaced by the next index).
   */
  predicate IsBreakingPosition(data: seq<byte>, n: nat, p: nat, maxLength: int, tabWidth: int)
    requires n <= |data|
  {
    || (p == 0 && forall i :: 1 <= i < n ==> !Exceeds(data, i, maxLength, tabWidth))
    || (1 <= p < n && Exceeds(data, p, maxLength, tabWidth)
        && forall i :: 1 <= i < p ==> !Exceeds(data, i, maxLength, tabWidth))
  }

  /**
   `MaxLineLength`: the width of the bytes before the first cr/lf, with
   a tab counting `tabWidth` and a UTF-8 continuation byte nothing, must
   not exceed `maxLength`; the finding carries the breaking position.
   */
  function MaxLineLength(maxLength: int, tabWidth: int, data: seq<byte>): (r: Outcome)
    ensures var n := FirstEol(data);
      r.Fail? <==> Width(data[..n], tabWidth) > maxLength
    ensures var n := FirstEol(data);
      r.Fail? ==>
        && r.error.Validation?
        && r.error == Invalid(LineTooLong(Width(data[..n], tabWidth), maxLength), r.error.ve.position)
        && 0 <= r.error.ve.position
        && IsBreakingPosition(data, n, r.error.ve.position, maxLength, tabWidth)
  {
    MaxScan(maxLength, tabWidth, data, 0, 0, 0)
  }

  /**
   The loop of `MaxLineLength` from index `i`, with the running width
   `length` and the breaking position `bp` recorded so far.
   */
  function MaxScan(maxLength: int, tabWidth: int, data: seq<byte>, i: nat, length: int, bp: nat): (r: Outcome)
    requires i <= |data| && NoEol(data[..i])
    requires length == Width(data[..i], tabWidth)
    requires bp == 0 ==> forall k :: 1 <= k < i ==> !Exceeds(data, k, maxLength, tabWidth)
    requires bp != 0 ==>
      && bp < i
      && Exceeds(data, bp, maxLength, tabWidth)
      && forall k :: 1 <= k < bp ==> !Exceeds(data, k, maxLength, tabWidth)
    ensures var n := FirstEol(data);
      r.Fail? <==> Width(data[..n], tabWidth) > maxLength
    ensures var n := FirstEol(data);
      r.Fail? ==>
        && r.error.Validation?
        && r.error == Invalid(LineTooLong(Width(data[..n], tabWidth), maxLength), r.error.ve.position)
        && 0 <= r.error.ve.position
        && IsBreakingPosition(data, n, r.error.ve.position, maxLength, tabWidth)
    decreases |data| - i
  {
    if i < |data| && data[i] != CR && data[i] != LF then
      var b := data[i];
      var length' := length + (if b == TAB then tabWidth else if b >> 6 == 0x2 then 0 else 1);
      assert data[..i + 1][..i] == data[..i];
      assert (b >> 6 == 0x2) == IsContinuation(b);
      assert length' == Width(data[..i + 1], tabWidth);
      assert NoEol(data[..i + 1]) by {
        assert forall k :: 0 <= k < i ==> data[..i + 1][k] == data[..i][k];
      }
      var bp' := if length' > maxLength && bp == 0 then i else bp;
      MaxScan(maxLength, tabWidth, data, i + 1, length', bp')
    else
      FirstEolIs(data, i);
      if length > maxLength then Fail(Invalid(LineTooLong(length, maxLength), bp))
      else Pass
  }

  /**
   The breaking position is never 0 when the line has a second byte: an
   excess already at index 0 is reported at index 1.
   */
  lemma BreakingPositionSkipsIndexZero()
    ensures MaxLineLength(0, 8, [0x61, 0x62]) == Fail(Invalid(LineTooLong(2, 0), 1))
  {
    var d: seq<byte> := [0x61, 0x62];
    FirstEolIs(d, 2);
    assert d[..2] == d;
    assert d[..1] == [0x61];
    assert Width(d[..1], 8) == 1;
    assert Exceeds(d, 1, 0, 8);
    var r := MaxLineLength(0, 8, d);
    assert r.error.ve.position == 1;
  }
}
