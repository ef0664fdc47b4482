/**
 The line scanner: a split function in the style of `bufio.ScanLines`
 that keeps each line's exact terminator (`\r`, `\n` or `\r\n`), the
 `bufio.Scanner` loop that drives it over the chunks a reader delivers,
 and `ReadLines`, which hands every line with its zero-based index to a
 callback and collects the errors the callback returns.
 */
module Scanner {
  import opened Bytes
  import opened Errors

  /** The four answers a Go split function can give. */
  datatype SplitResult =
      /** `(advance, data[0:advance], nil)`. */
    | Token(advance: nat, token: seq<byte>)
      /** `(0, nil, nil)`: ask the scanner for more data. */
    | NeedMore
      /** `(0, data, bufio.ErrFinalToken)`. */
    | FinalToken(token: seq<byte>)
      /** `(0, nil, io.EOF)`. */
    | Done

  predicate IsTerminator(t: seq<byte>) {
    t == [CR] || t == [LF] || t == [CR, LF]
  }

  /** The terminator a line carries: its bytes from the first cr/lf on. */
  function TerminatorOf(l: seq<byte>): (t: seq<byte>)
    ensures HasSuffix(l, t)
  {
    l[FirstEol(l)..]
  }

  /** A complete line: a body free of cr/lf followed by exactly one terminator. */
  predicate Terminated(l: seq<byte>) {
    FirstEol(l) < |l| && IsTerminator(l[FirstEol(l)..])
  }

  /** A line ending in a lone cr, which must not be followed by an lf. */
  predicate EndsWithCr(l: seq<byte>) {
    |l| > 0 && l[|l| - 1] == CR
  }

  /**
   `SplitLines` (scanner.go): the first cr ends a token, taking the next
   byte too when it is an lf; a bare lf ends a token; without a
   terminator nothing is consumed until the end of the input, where a
   non-empty remainder is the final token.
   */
  function SplitLines(data: seq<byte>, atEOF: bool): (r: SplitResult)
    ensures r.Token? <==> !NoEol(data)
    ensures r.Token? ==> 0 < r.advance <= |data| && r.token == data[..r.advance]
    ensures r.Token? ==> Terminated(r.token)
    ensures r.Token? && EndsWithCr(r.token) ==> !(r.advance < |data| && data[r.advance] == LF)
    ensures r.NeedMore? <==> NoEol(data) && !atEOF
    ensures r.FinalToken? <==> NoEol(data) && atEOF && |data| > 0
    ensures r.FinalToken? ==> r.token == data
    ensures r.Done? <==> NoEol(data) && atEOF && |data| == 0
  {
    var j := FirstEol(data);
    if j < |data| then
      if data[j] == CR then
        var n := if j + 1 < |data| && data[j + 1] == LF then j + 2 else j + 1;
        assert data[..n][..j] == data[..j];
        FirstEolIs(data[..n], j);
        assert data[..n][j..] == data[j..n];
        Token(n, data[..n])
      else
        assert data[..j + 1][..j] == data[..j];
        FirstEolIs(data[..j + 1], j);
        assert data[..j + 1][j..] == [LF];
        Token(j + 1, data[..j + 1])
    else if !atEOF then NeedMore
    else if j != 0 then
      assert data[..j] == data;
      FinalToken(data)
    else Done
  }

  /**
   The split function with the lone-cr case corrected: a cr that is the
   last buffered byte before the end of the input may be the first half
   of a `\r\n`, so more data is requested instead of cutting the line.
   */
  function SplitLinesFixed(data: seq<byte>, atEOF: bool): (r: SplitResult)
    ensures atEOF ==> r == SplitLines(data, true)
    ensures !atEOF && !NoEol(data) && !(FirstEol(data) == |data| - 1 && data[|data| - 1] == CR)
      ==> r == SplitLines(data, false)
    ensures r.Token? ==> 0 < r.advance <= |data| && r.token == data[..r.advance] && Terminated(r.token)
    ensures r.Token? && !atEOF ==> !EndsWithCr(r.token) || r.advance < |data|
    ensures !atEOF ==> r.Token? || r.NeedMore?
  {
    var j := FirstEol(data);
    if !atEOF && j == |data| - 1 && data[j] == CR then NeedMore
    else SplitLines(data, atEOF)
  }

  /**
   The lines of a complete buffer, in order: the tokens the scanner
   yields when the whole content is available and the end of input has
   been reached.
   */
  function Lines(data: seq<byte>): (ls: seq<seq<byte>>)
    ensures |ls| <= |data|
    ensures |ls| == 0 <==> |data| == 0
    decreases |data|
  {
    match SplitLinesFixed(data, true)
    case Token(n, t) => [t] + Lines(data[n..])
    case FinalToken(t) => [t]
    case _ => []
  }

  /**
   The lines a scanner could have produced: every line is non-empty,
   every line but the last carries a terminator, the last is either
   terminated or free of cr/lf, and a line ending in a lone cr is not
   followed by a line starting with lf.
   */
  predicate WellFormedLines(ls: seq<seq<byte>>) {
    && (forall i :: 0 <= i < |ls| ==> |ls[i]| > 0)
    && (forall i :: 0 <= i < |ls| - 1 ==> Terminated(ls[i]))
    && (|ls| > 0 ==> Terminated(ls[|ls| - 1]) || NoEol(ls[|ls| - 1]))
    && (forall i :: 0 <= i < |ls| - 1 ==> EndsWithCr(ls[i]) ==> ls[i + 1][0] != LF)
  }

  /** Splitting at a terminator does not look past the terminator. */
  lemma SplitAtLine(l: seq<byte>, rest: seq<byte>, atEOF: bool)
    requires Terminated(l)
    requires EndsWithCr(l) ==> (|rest| > 0 && rest[0] != LF) || (atEOF && |rest| == 0)
    ensures SplitLinesFixed(l + rest, atEOF) == Token(|l|, l)
  {
    var d := l + rest;
    var j := FirstEol(l);
    FirstEolAppend(l, rest);
    assert FirstEol(d) == j;
    assert d[..|l|] == l;
    if l[j] == CR {
      if l[j..] == [CR] {
        assert EndsWithCr(l);
      } else {
        assert l[j..] == [CR, LF];
      }
    }
  }

  lemma FirstEolAppend(a: seq<byte>, b: seq<byte>)
    requires FirstEol(a) < |a|
    ensures FirstEol(a + b) == FirstEol(a)
  {
    if IsEol(a[0]) {
    } else {
      assert (a + b)[1..] == a[1..] + b;
      FirstEolAppend(a[1..], b);
    }
  }

  /** Joining the lines gives back the buffer byte for byte. */
  lemma {:induction false} LinesFlatten(data: seq<byte>)
    ensures Flatten(Lines(data)) == data
    decreases |data|
  {
    match SplitLinesFixed(data, true)
    case Token(n, t) =>
      var rest := Lines(data[n..]);
      LinesFlatten(data[n..]);
      assert Lines(data) == [t] + rest;
      assert ([t] + rest)[1..] == rest;
      assert Flatten([t] + rest) == t + Flatten(rest);
      assert data == data[..n] + data[n..];
    case FinalToken(t) =>
      assert Flatten([t]) == t + Flatten([]);
    case Done =>
    case NeedMore =>
  }

  /** The lines of any buffer have the shape `WellFormedLines` describes. */
  lemma {:induction false} LinesWellFormed(data: seq<byte>)
    ensures WellFormedLines(Lines(data))
    decreases |data|
  {
    match SplitLinesFixed(data, true)
    case Token(n, t) =>
      var rest := data[n..];
      LinesWellFormed(rest);
      assert Lines(data) == [t] + Lines(rest);
      if |Lines(rest)| > 0 {
        LinesHead(rest);
      }
      ConsWellFormed(t, Lines(rest));
    case FinalToken(t) =>
    case Done =>
    case NeedMore =>
  }

  /** A terminated line put in front of well-formed lines keeps them well formed. */
  lemma ConsWellFormed(t: seq<byte>, rest: seq<seq<byte>>)
    requires |t| > 0 && Terminated(t) && WellFormedLines(rest)
    requires |rest| > 0 && EndsWithCr(t) ==> rest[0][0] != LF
    ensures WellFormedLines([t] + rest)
  {
    var ls := [t] + rest;
    assert forall i :: 1 <= i < |ls| ==> ls[i] == rest[i - 1];
  }

  /** The first line of a non-empty buffer starts the buffer. */
  lemma LinesHead(data: seq<byte>)
    requires |Lines(data)| > 0
    ensures |Lines(data)[0]| > 0 && Lines(data)[0][0] == data[0]
  {
  }

  /** Splitting the concatenation of well-formed lines gives back those lines. */
  lemma {:induction false} LinesOfFlatten(ls: seq<seq<byte>>)
    requires WellFormedLines(ls)
    ensures Lines(Flatten(ls)) == ls
    decreases |ls|
  {
    if |ls| == 0 {
      assert SplitLinesFixed([], true) == Done;
    } else {
      var l := ls[0];
      var rest := Flatten(ls[1..]);
      assert WellFormedLines(ls[1..]) by {
        forall i | 0 <= i < |ls[1..]| - 1
          ensures EndsWithCr(ls[1..][i]) ==> ls[1..][i + 1][0] != LF
        {
          assert ls[1..][i] == ls[i + 1] && ls[1..][i + 1] == ls[i + 2];
        }
      }
      if |ls| == 1 {
        assert rest == [];
        assert l + rest == l;
        if Terminated(l) {
          SplitAtLine(l, rest, true);
          assert (l + rest)[|l|..] == [];
          assert SplitLinesFixed([], true) == Done;
        } else {
          assert NoEol(l);
          assert SplitLinesFixed(l, true) == FinalToken(l);
        }
      } else {
        assert |ls[1]| > 0;
        assert rest == ls[1] + Flatten(ls[2..]);
        assert Terminated(l);
        if EndsWithCr(l) {
          assert ls[1][0] != LF;
        }
        SplitAtLine(l, rest, true);
        assert (l + rest)[|l|..] == rest;
        LinesOfFlatten(ls[1..]);
      }
    }
  }

  /** A single line the scanner could yield, complete or free of cr/lf, is read back as that one line. */
  lemma LinesOfOneLine(l: seq<byte>)
    requires |l| > 0 && (Terminated(l) || NoEol(l))
    ensures Lines(l) == [l]
  {
    if Terminated(l) {
      SplitAtLine(l, [], true);
      assert l + [] == l;
      assert l[|l|..] == [];
    } else {
      assert SplitLinesFixed(l, true) == FinalToken(l);
    }
  }

  /** Once a cr/lf has been buffered, more data does not change the token. */
  lemma SplitFixedPrefixStable(data: seq<byte>, more: seq<byte>, atEOF: bool)
    requires SplitLinesFixed(data, false).Token?
    ensures SplitLinesFixed(data + more, atEOF) == SplitLinesFixed(data, false)
  {
    var t := SplitLinesFixed(data, false).token;
    assert data == t + data[|t|..];
    assert data + more == t + (data[|t|..] + more);
    if EndsWithCr(t) {
      var j := FirstEol(data);
      assert |t| < |data|;
      assert data[|t|] != LF;
    }
    SplitAtLine(t, data[|t|..] + more, atEOF);
    SplitAtLine(t, data[|t|..], false);
  }

  /**
   The `bufio.Scanner` loop over the chunks a reader returns. `buf` holds
   the unconsumed buffered bytes, `chunks` the reads still to come and
   `eof` whether the reader has reported the end of its input. The split
   function is called on what is buffered (with `atEOF` only once the
   end was reported); a token is yielded, a final token stops the scan,
   and a request for more data triggers the next read.
   */
  function Scan(buf: seq<byte>, chunks: seq<seq<byte>>, eof: bool, asWritten: bool): (ls: seq<seq<byte>>)
    requires eof ==> chunks == []
    ensures forall i :: 0 <= i < |ls| ==> |ls[i]| > 0
    decreases |chunks|, if eof then 0 else 1, |buf|
  {
    if |buf| > 0 || eof then
      match Split(buf, eof, asWritten)
      case Token(n, t) => [t] + Scan(buf[n..], chunks, eof, asWritten)
      case FinalToken(t) => [t]
      case Done => []
      case NeedMore =>
        if eof then []
        else if |chunks| == 0 then Scan(buf, [], true, asWritten)
        else Scan(buf + chunks[0], chunks[1..], false, asWritten)
    else if |chunks| == 0 then Scan(buf, [], true, asWritten)
    else Scan(buf + chunks[0], chunks[1..], false, asWritten)
  }

  /** The split function the scanner runs: as written, or corrected. */
  function Split(buf: seq<byte>, eof: bool, asWritten: bool): (r: SplitResult)
    ensures r.Token? ==> 0 < r.advance <= |buf| && r.token == buf[..r.advance]
    ensures r.FinalToken? ==> r.token == buf && |buf| > 0
    ensures r.Done? ==> |buf| == 0
    ensures r.NeedMore? ==> !eof
  {
    if asWritten then SplitLines(buf, eof) else SplitLinesFixed(buf, eof)
  }

  /**
   Whichever split function runs and however the reader chunks its
   input, the scanner neither drops nor repeats a byte: its tokens put
   back together are the buffered bytes followed by every read.
   */
  lemma {:induction false} ScanKeepsEveryByte(buf: seq<byte>, chunks: seq<seq<byte>>, eof: bool, asWritten: bool)
    requires eof ==> chunks == []
    ensures Flatten(Scan(buf, chunks, eof, asWritten)) == buf + Flatten(chunks)
    decreases |chunks|, if eof then 0 else 1, |buf|
  {
    var ls := Scan(buf, chunks, eof, asWritten);
    if |buf| > 0 || eof {
      var r := Split(buf, eof, asWritten);
      if r.Token? {
        ScanKeepsEveryByte(buf[r.advance..], chunks, eof, asWritten);
        ScanToken(buf, chunks, eof, asWritten);
        TokenKeepsBytes(buf, r.advance, ls, Scan(buf[r.advance..], chunks, eof, asWritten), Flatten(chunks));
      } else if r.FinalToken? {
        assert ls == [buf];
        assert Flatten([buf]) == buf + Flatten([]);
      } else if r.Done? {
        assert ls == [];
      } else if |chunks| == 0 {
        assert ls == Scan(buf, [], true, asWritten);
        ScanKeepsEveryByte(buf, [], true, asWritten);
      } else {
        assert ls == Scan(buf + chunks[0], chunks[1..], false, asWritten);
        NextRead(buf, chunks, asWritten);
      }
    } else if |chunks| == 0 {
      ScanKeepsEveryByte(buf, [], true, asWritten);
    } else {
      NextRead(buf, chunks, asWritten);
    }
  }

  /** A line cut from the front of the buffer, put back in front of the rest, restores the buffer. */
  lemma TokenKeepsBytes(buf: seq<byte>, n: nat, ls: seq<seq<byte>>, rest: seq<seq<byte>>, after: seq<byte>)
    requires n <= |buf| && ls == [buf[..n]] + rest
    requires Flatten(rest) == buf[n..] + after
    ensures Flatten(ls) == buf + after
  {
    FlattenCons(buf[..n], rest);
    assert buf == buf[..n] + buf[n..];
  }

  /** A token the split function returns is the scanner's next line. */
  lemma ScanToken(buf: seq<byte>, chunks: seq<seq<byte>>, eof: bool, asWritten: bool)
    requires eof ==> chunks == []
    requires (|buf| > 0 || eof) && Split(buf, eof, asWritten).Token?
    ensures var n := Split(buf, eof, asWritten).advance;
      Scan(buf, chunks, eof, asWritten) == [buf[..n]] + Scan(buf[n..], chunks, eof, asWritten)
  {
  }

  lemma FlattenCons(t: seq<byte>, rest: seq<seq<byte>>)
    ensures Flatten([t] + rest) == t + Flatten(rest)
  {
    assert ([t] + rest)[1..] == rest;
  }

  /** The step of `ScanKeepsEveryByte` where the scanner appends the next read to its buffer. */
  lemma {:induction false} NextRead(buf: seq<byte>, chunks: seq<seq<byte>>, asWritten: bool)
    requires |chunks| > 0
    ensures Flatten(Scan(buf + chunks[0], chunks[1..], false, asWritten)) == buf + Flatten(chunks)
    decreases |chunks|, 0, 0
  {
    ScanKeepsEveryByte(buf + chunks[0], chunks[1..], false, asWritten);
    assert buf + Flatten(chunks) == (buf + chunks[0]) + Flatten(chunks[1..]);
  }

  /**
   With the corrected split function, however the reader chunks its
   input, the scanner yields exactly the lines of the whole buffer.
   */
  lemma {:induction false} ScanFixedIsChunkIndependent(buf: seq<byte>, chunks: seq<seq<byte>>, eof: bool)
    requires eof ==> chunks == []
    ensures Scan(buf, chunks, eof, false) == Lines(buf + Flatten(chunks))
    decreases |chunks|, if eof then 0 else 1, |buf|
  {
    if eof {
      assert buf + Flatten(chunks) == buf;
      ScanAtEof(buf);
    } else if |buf| > 0 && SplitLinesFixed(buf, false).Token? {
      var n := SplitLinesFixed(buf, false).advance;
      var t := SplitLinesFixed(buf, false).token;
      var all := buf + Flatten(chunks);
      SplitFixedPrefixStable(buf, Flatten(chunks), true);
      assert Lines(all) == [t] + Lines(all[n..]);
      ScanFixedIsChunkIndependent(buf[n..], chunks, eof);
      SliceOfAppend(buf, Flatten(chunks), n);
    } else if |chunks| == 0 {
      assert Scan(buf, chunks, false, false) == Scan(buf, [], true, false);
      ScanFixedIsChunkIndependent(buf, [], true);
      assert buf + Flatten(chunks) == buf;
    } else {
      assert Scan(buf, chunks, false, false) == Scan(buf + chunks[0], chunks[1..], false, false);
      ScanFixedIsChunkIndependent(buf + chunks[0], chunks[1..], false);
      assert Flatten(chunks) == chunks[0] + Flatten(chunks[1..]);
      assert buf + Flatten(chunks) == (buf + chunks[0]) + Flatten(chunks[1..]);
    }
  }

  /** Once the end of input is known, the scanner yields the lines of what is buffered. */
  lemma {:induction false} ScanAtEof(buf: seq<byte>)
    ensures Scan(buf, [], true, false) == Lines(buf)
    decreases |buf|
  {
    match SplitLinesFixed(buf, true)
    case Token(n, t) =>
      ScanAtEof(buf[n..]);
    case FinalToken(t) =>
    case Done =>
    case NeedMore =>
  }

  /**
   With the split function as written, a `\r\n` that straddles two reads
   is cut into a lone-cr line and a lone-lf line.
   */
  lemma ScanAsWrittenSplitsCrLf()
    ensures Scan([], [[0x61, CR], [LF]], false, true) == [[0x61, CR], [LF]]
    ensures Lines([0x61, CR, LF]) == [[0x61, CR, LF]]
  {
    var a: seq<byte> := [0x61, CR];
    var b: seq<byte> := [LF];
    FirstEolIs(a, 1);
    assert SplitLines(a, false) == Token(2, a);
    FirstEolIs(b, 0);
    assert SplitLines(b, false) == Token(1, b);
    assert SplitLines([], true) == Done;
    assert Scan([], [], true, true) == [];
    assert Scan([], [], false, true) == [];
    assert b[1..] == [];
    assert Scan(b, [], false, true) == [b];
    assert [] + b == b;
    assert Scan([], [b], false, true) == [b];
    assert a[2..] == [];
    assert Scan(a, [b], false, true) == [a, b];
    assert [] + a == a;
    assert Scan([], [a, b], false, true) == [a, b];
    var ab: seq<byte> := [0x61, CR, LF];
    FirstEolIs(ab, 1);
    assert SplitLinesFixed(ab, true) == Token(3, ab);
    assert ab[3..] == [];
    assert SplitLinesFixed([], true) == Done;
  }

  /**
   `ReadLines` (scanner.go): the callback sees the lines in order with
   indices counting up from `index`, and the last line flagged as the
   end of input. Every error it returns is collected; none stops the
   walk. The callback's state stands for what it keeps across calls.
   */
  function ReadLines<S, E>(lines: seq<seq<byte>>, index: nat, state: S,
                           fn: (S, nat, seq<byte>, bool) -> (S, Option<E>)): (errs: seq<E>)
    ensures |errs| <= |lines|
    decreases |lines|
  {
    if |lines| == 0 then []
    else
      var step := fn(state, index, lines[0], |lines| == 1);
      var rest := ReadLines(lines[1..], index + 1, step.0, fn);
      if step.1.Some? then [step.1.value] + rest else rest
  }

  /** What the callback returned for each line, in order, states threaded through. */
  function Outputs<S, E>(lines: seq<seq<byte>>, index: nat, state: S,
                         fn: (S, nat, seq<byte>, bool) -> (S, Option<E>)): (outs: seq<Option<E>>)
    ensures |outs| == |lines|
    decreases |lines|
  {
    if |lines| == 0 then []
    else
      var step := fn(state, index, lines[0], |lines| == 1);
      [step.1] + Outputs(lines[1..], index + 1, step.0, fn)
  }

  /** The values of the `Some` entries, in order. */
  function Somes<E>(outs: seq<Option<E>>): seq<E> {
    if |outs| == 0 then []
    else if outs[0].Some? then [outs[0].value] + Somes(outs[1..])
    else Somes(outs[1..])
  }

  /** `ReadLines` returns every error the callback produced, in line order. */
  lemma {:induction false} ReadLinesCollectsAll<S, E>(lines: seq<seq<byte>>, index: nat, state: S,
                                                      fn: (S, nat, seq<byte>, bool) -> (S, Option<E>))
    ensures ReadLines(lines, index, state, fn) == Somes(Outputs(lines, index, state, fn))
    decreases |lines|
  {
    if |lines| > 0 {
      var step := fn(state, index, lines[0], |lines| == 1);
      ReadLinesCollectsAll(lines[1..], index + 1, step.0, fn);
      var outs := Outputs(lines, index, state, fn);
      assert outs[0] == step.1;
      assert outs[1..] == Outputs(lines[1..], index + 1, step.0, fn);
    }
  }

  /**
   Whatever the callback promises of each error it returns for line `i`
   holds of every collected error, for the line it was returned for.
   */
  lemma {:induction false} ReadLinesSound<S, E>(lines: seq<seq<byte>>, index: nat, state: S,
                                                fn: (S, nat, seq<byte>, bool) -> (S, Option<E>),
                                                P: (nat, seq<byte>, E) -> bool)
    requires forall s, i, d, eof :: fn(s, i, d, eof).1.Some? ==> P(i, d, fn(s, i, d, eof).1.value)
    ensures forall e :: e in ReadLines(lines, index, state, fn) ==>
      exists k :: 0 <= k < |lines| && P(index + k, lines[k], e)
    decreases |lines|
  {
    if |lines| > 0 {
      var step := fn(state, index, lines[0], |lines| == 1);
      var rest := ReadLines(lines[1..], index + 1, step.0, fn);
      ReadLinesSound(lines[1..], index + 1, step.0, fn, P);
      forall e | e in ReadLines(lines, index, state, fn)
        ensures exists k :: 0 <= k < |lines| && P(index + k, lines[k], e)
      {
        if step.1.Some? && e == step.1.value {
          assert P(index + 0, lines[0], e);
        } else {
          assert e in rest;
          var k :| 0 <= k < |lines[1..]| && P(index + 1 + k, lines[1..][k], e);
          assert lines[1..][k] == lines[k + 1];
          assert P(index + (k + 1), lines[k + 1], e);
        }
      }
    }
  }
}
