/**
 The fixer (fix.go): each line of a text file is rewritten in turn (its
 indentation converted to the configured style, its trailing whitespace
 removed, its terminator replaced by the configured one) and the
 rewritten lines are joined back together.
 */
module Fixer {
  import opened Bytes
  import opened Errors
  import opened Settings
  import opened Scanner
  import opened Validators
  import opened Definitions

  // ---------------------------------------------------------------- indentation

  /** `s` is `k` indentation units laid end to end, each one `c` or `x`. */
  predicate IsUnits(s: seq<byte>, c: seq<byte>, x: seq<byte>, k: nat)
    decreases k
  {
    if k == 0 then s == []
    else
      || (HasPrefix(s, c) && IsUnits(s[|c|..], c, x, k - 1))
      || (HasPrefix(s, x) && IsUnits(s[|x|..], c, x, k - 1))
  }

  /** How far the indentation scan got: the units it counted and the bytes they cover. */
  datatype UnitScan = UnitScan(units: nat, covered: nat)

  /**
   The loop of `fixTabAndSpacePrefix`: leading units are consumed, `c`
   tried before `x`, until the data ends or starts with neither.
   */
  function PrefixScan(data: seq<byte>, c: seq<byte>, x: seq<byte>): (r: UnitScan)
    requires |c| > 0 && |x| > 0
    ensures r.covered <= |data|
    decreases |data|
  {
    if |data| == 0 then UnitScan(0, 0)
    else if HasPrefix(data, c) then
      var r := PrefixScan(data[|c|..], c, x);
      UnitScan(r.units + 1, |c| + r.covered)
    else if HasPrefix(data, x) then
      var r := PrefixScan(data[|x|..], c, x);
      UnitScan(r.units + 1, |x| + r.covered)
    else UnitScan(0, 0)
  }

  /** The scan stops only where the data ends or starts with neither unit. */
  lemma {:induction false} PrefixScanStops(data: seq<byte>, c: seq<byte>, x: seq<byte>)
    requires |c| > 0 && |x| > 0
    ensures var s := PrefixScan(data, c, x);
      s.covered < |data| ==> !HasPrefix(data[s.covered..], c) && !HasPrefix(data[s.covered..], x)
    decreases |data|
  {
    if |data| > 0 && (HasPrefix(data, c) || HasPrefix(data, x)) {
      var u := if HasPrefix(data, c) then c else x;
      var r := PrefixScan(data[|u|..], c, x);
      PrefixScanStops(data[|u|..], c, x);
      assert data[|u| + r.covered..] == data[|u|..][r.covered..];
    }
  }

  /** What the scan consumed is exactly as many units as it counted. */
  lemma {:induction false} PrefixScanCoversUnits(data: seq<byte>, c: seq<byte>, x: seq<byte>)
    requires |c| > 0 && |x| > 0
    ensures IsUnits(data[..PrefixScan(data, c, x).covered], c, x, PrefixScan(data, c, x).units)
    decreases |data|
  {
    if |data| > 0 && (HasPrefix(data, c) || HasPrefix(data, x)) {
      var u := if HasPrefix(data, c) then c else x;
      var r := PrefixScan(data[|u|..], c, x);
      PrefixScanCoversUnits(data[|u|..], c, x);
      UnitsCons(data, u, c, x, r.covered, r.units);
    }
  }

  /** A unit followed by `k` units is `k + 1` units. */
  lemma UnitsCons(data: seq<byte>, u: seq<byte>, c: seq<byte>, x: seq<byte>, j: nat, k: nat)
    requires u == c || u == x
    requires HasPrefix(data, u) && |u| + j <= |data|
    requires IsUnits(data[|u|..][..j], c, x, k)
    ensures IsUnits(data[..|u| + j], c, x, k + 1)
  {
    var s := data[..|u| + j];
    assert s[..|u|] == u;
    assert s[|u|..] == data[|u|..][..j];
  }

  /**
   `fixTabAndSpacePrefix`: every leading unit is written as `c` and the
   rest of the line is copied; but when the units cover the whole line
   the line is returned as it was, unconverted.
   */
  function FixTabAndSpacePrefix(data: seq<byte>, c: seq<byte>, x: seq<byte>): (r: seq<byte>)
    requires |c| > 0 && |x| > 0
    ensures PrefixScan(data, c, x).covered == |data| ==> r == data
    ensures PrefixScan(data, c, x).covered < |data| ==> r == ConvertedPrefix(data, c, x)
  {
    var s := PrefixScan(data, c, x);
    if s.covered < |data| then RepeatSeq(c, s.units) + data[s.covered..] else data
  }

  /** The leading units written as `c`, the rest of the line unchanged. */
  function ConvertedPrefix(data: seq<byte>, c: seq<byte>, x: seq<byte>): seq<byte>
    requires |c| > 0 && |x| > 0
  {
    var s := PrefixScan(data, c, x);
    RepeatSeq(c, s.units) + data[s.covered..]
  }

  /** Laying whole `c` units in front of a rest that starts with neither unit scans back to the same units. */
  lemma {:induction false} ScanOfConverted(m: nat, rest: seq<byte>, c: seq<byte>, x: seq<byte>)
    requires |c| > 0 && |x| > 0
    requires |rest| > 0 ==> !HasPrefix(rest, c) && !HasPrefix(rest, x)
    ensures PrefixScan(RepeatSeq(c, m) + rest, c, x) == UnitScan(m, |RepeatSeq(c, m)|)
    decreases m
  {
    if m > 0 {
      var tail := RepeatSeq(c, m - 1) + rest;
      ScanOfConverted(m - 1, rest, c, x);
      assert RepeatSeq(c, m) == c + RepeatSeq(c, m - 1);
      assert |RepeatSeq(c, m)| == |c| + |RepeatSeq(c, m - 1)|;
      assert RepeatSeq(c, m) + rest == c + tail;
      assert (c + tail)[..|c|] == c;
      assert (c + tail)[|c|..] == tail;
    } else {
      assert RepeatSeq(c, 0) + rest == rest;
    }
  }

  /** Converting the indentation twice is converting it once. */
  lemma FixTabAndSpacePrefixIdempotent(data: seq<byte>, c: seq<byte>, x: seq<byte>)
    requires |c| > 0 && |x| > 0
    ensures FixTabAndSpacePrefix(FixTabAndSpacePrefix(data, c, x), c, x) == FixTabAndSpacePrefix(data, c, x)
  {
    var s := PrefixScan(data, c, x);
    if s.covered < |data| {
      PrefixScanStops(data, c, x);
      ScanOfConverted(s.units, data[s.covered..], c, x);
    }
  }

  /**
   The line after the units is never touched: the converted line ends
   with the bytes from the first non-unit byte on, and starts with as
   many `c` as there were units.
   */
  lemma ConvertedPrefixShape(data: seq<byte>, c: seq<byte>, x: seq<byte>)
    requires |c| > 0 && |x| > 0
    ensures var s := PrefixScan(data, c, x);
      && IsUnits(data[..s.covered], c, x, s.units)
      && HasPrefix(ConvertedPrefix(data, c, x), RepeatSeq(c, s.units))
      && HasSuffix(ConvertedPrefix(data, c, x), data[s.covered..])
  {
    PrefixScanCoversUnits(data, c, x);
  }

  /** Units made of one repeated byte are a run of that byte. */
  lemma {:induction false} RepeatSeqOfRun(c: seq<byte>, b: byte, k: nat)
    requires forall i :: 0 <= i < |c| ==> c[i] == b
    ensures forall i :: 0 <= i < |RepeatSeq(c, k)| ==> RepeatSeq(c, k)[i] == b
    decreases k
  {
    if k > 0 {
      RepeatSeqOfRun(c, b, k - 1);
      assert RepeatSeq(c, k) == c + RepeatSeq(c, k - 1);
    }
  }

  /** `LeadingCount` is the length of the leading run. */
  lemma LeadingCountIs(s: seq<byte>, b: byte, n: nat)
    requires n <= |s| && (forall i :: 0 <= i < n ==> s[i] == b) && (n < |s| ==> s[n] != b)
    ensures LeadingCount(s, b) == n
    decreases n
  {
    if n > 0 {
      LeadingCountIs(s[1..], b, n - 1);
    }
  }

  /** A non-zero multiple of `n` is at least `n` away from zero. */
  lemma MulSign(d: int, n: nat)
    requires n > 0
    ensures d >= 1 ==> d * n >= n
    ensures d <= -1 ==> d * n <= -(n as int)
    decreases if d < 0 then -d else d
  {
    if d > 1 {
      MulSign(d - 1, n);
      assert d * n == (d - 1) * n + n;
    } else if d < -1 {
      MulSign(d + 1, n);
      assert d * n == (d + 1) * n - n;
    }
  }

  /** `k * n` leaves no remainder modulo `n`. */
  lemma MultipleMod(k: nat, n: nat)
    requires n > 0
    ensures (k * n) % n == 0
  {
    var a := k * n;
    var d := k - a / n;
    assert a == (a / n) * n + a % n;
    assert d * n == a % n;
    MulSign(d, n);
  }

  /** A line opening with a whole number of space units and then neither blank passes the space style. */
  lemma SpaceRunPasses(out: seq<byte>, n: nat, size: nat)
    requires size > 0 && n <= |out| && n % size == 0
    requires forall i :: 0 <= i < n ==> out[i] == SPACE
    requires n < |out| ==> !IsBlank(out[n])
    ensures IndentStyle(SPACE_VALUE, size, out).Pass?
  {
    LeadingCountIs(out, SPACE, n);
  }

  /** A line opening with tabs and then neither blank passes the tab style. */
  lemma TabRunPasses(out: seq<byte>, n: nat, size: int)
    requires n <= |out|
    requires forall i :: 0 <= i < n ==> out[i] == TAB
    requires n < |out| ==> !IsBlank(out[n])
    ensures IndentStyle(TAB_VALUE, size, out).Pass?
  {
    LeadingCountIs(out, TAB, n);
  }

  /**
   The converted line opens with a run of `b`, one `c` per unit, and
   then the byte the scan stopped at.
   */
  lemma ConvertedLayout(data: seq<byte>, c: seq<byte>, x: seq<byte>, b: byte)
    requires |c| > 0 && |x| > 0 && forall i :: 0 <= i < |c| ==> c[i] == b
    requires PrefixScan(data, c, x).covered < |data|
    ensures var s := PrefixScan(data, c, x);
      var n := |RepeatSeq(c, s.units)|;
      var out := FixTabAndSpacePrefix(data, c, x);
      && n < |out| && out[n] == data[s.covered] && forall i :: 0 <= i < n ==> out[i] == b
  {
    var s := PrefixScan(data, c, x);
    RepeatSeqOfRun(c, b, s.units);
  }

  /**
   When the scan stops at a byte that is not blank, the converted line is
   a run of `b` followed by that byte.
   */
  lemma FixedLineOpensWithRun(data: seq<byte>, c: seq<byte>, x: seq<byte>, b: byte) returns (n: nat)
    requires |c| > 0 && |x| > 0 && forall i :: 0 <= i < |c| ==> c[i] == b
    requires PrefixScan(data, c, x).covered < |data| && !IsBlank(data[PrefixScan(data, c, x).covered])
    ensures var out := FixTabAndSpacePrefix(data, c, x);
      && n < |out| && !IsBlank(out[n]) && forall i :: 0 <= i < n ==> out[i] == b
  {
    n := |RepeatSeq(c, PrefixScan(data, c, x).units)|;
    ConvertedLayout(data, c, x, b);
  }

  /** The first byte after the units is not the other unit's first byte. */
  lemma StopIsNotUnit(data: seq<byte>, c: seq<byte>, x: seq<byte>, b: byte)
    requires |c| > 0 && |x| > 0
    requires PrefixScan(data, c, x).covered < |data|
    requires x == [b] || c == [b]
    ensures data[PrefixScan(data, c, x).covered] != b
  {
    PrefixScanStops(data, c, x);
    var s := PrefixScan(data, c, x);
    assert data[s.covered..][..1] == [data[s.covered]];
  }

  /**
   The space style's units are `size` spaces in place of a tab. When the
   indentation ends on a whole unit (the first byte after the units is
   not a space) the converted line passes the indentation check.
   */
  lemma SpaceFixPasses(data: seq<byte>, size: nat)
    requires size > 0
    requires var s := PrefixScan(data, Repeat(SPACE, size), [TAB]);
      s.covered < |data| && data[s.covered] != SPACE
    ensures IndentStyle(SPACE_VALUE, size, FixTabAndSpacePrefix(data, Repeat(SPACE, size), [TAB])).Pass?
  {
    var c := Repeat(SPACE, size);
    var s := PrefixScan(data, c, [TAB]);
    var out := FixTabAndSpacePrefix(data, c, [TAB]);
    var n := |RepeatSeq(c, s.units)|;
    ConvertedLayout(data, c, [TAB], SPACE);
    StopIsNotUnit(data, c, [TAB], TAB);
    MultipleMod(s.units, size);
    SpaceRunPasses(out, n, size);
  }

  /**
   The tab style's unit is one tab in place of `size` spaces. When the
   indentation ends on a whole unit the converted line passes the check.
   */
  lemma TabFixPasses(data: seq<byte>, size: nat)
    requires size > 0
    requires var s := PrefixScan(data, [TAB], Repeat(SPACE, size));
      s.covered < |data| && data[s.covered] != SPACE
    ensures IndentStyle(TAB_VALUE, size, FixTabAndSpacePrefix(data, [TAB], Repeat(SPACE, size))).Pass?
  {
    var x := Repeat(SPACE, size);
    StopIsNotUnit(data, [TAB], x, TAB);
    var n := FixedLineOpensWithRun(data, [TAB], x, TAB);
    TabRunPasses(FixTabAndSpacePrefix(data, [TAB], x), n, size);
  }

  /**
   A line made of nothing but indentation units is returned unconverted,
   so a last line holding a lone tab still fails the space style.
   */
  lemma AllIndentLineIsKept()
    ensures FixTabAndSpacePrefix([TAB], [SPACE, SPACE], [TAB]) == [TAB]
    ensures IndentStyle(SPACE_VALUE, 2, [TAB]).Fail?
    ensures ConvertedPrefix([TAB], [SPACE, SPACE], [TAB]) == [SPACE, SPACE]
  {
    assert PrefixScan([TAB][1..], [SPACE, SPACE], [TAB]) == UnitScan(0, 0);
    assert PrefixScan([TAB], [SPACE, SPACE], [TAB]) == UnitScan(1, 1);
    assert RepeatSeq([SPACE, SPACE], 1) == [SPACE, SPACE] + RepeatSeq([SPACE, SPACE], 0);
    assert LeadingCount([TAB], SPACE) == 0;
  }

  // ---------------------------------------------------------------- trailing whitespace

  /**
   The backward loop of `fixTrailingWhitespace`. `u` is one past the byte
   under inspection and `[u, v)` the range to cut: a cr/lf moves both
   ends down, a space/tab only `u`, and any other byte (or the start of
   the data) ends the loop.
   */
  function TrailingLoop(data: seq<byte>, u: nat, v: nat): (r: seq<byte>)
    requires u <= v <= |data|
    ensures |r| <= |data|
    decreases u
  {
    if u == 0 || !(IsEol(data[u - 1]) || IsBlank(data[u - 1])) then Cut(data, u, v)
    else if IsEol(data[u - 1]) then TrailingLoop(data, u - 1, v - 1)
    else TrailingLoop(data, u - 1, v)
  }

  /** The data without the bytes in `[u, v)`. */
  function Cut(data: seq<byte>, u: nat, v: nat): (r: seq<byte>)
    requires u <= v <= |data|
    ensures |r| == |data| - (v - u)
    ensures forall i :: 0 <= i < u ==> r[i] == data[i]
    ensures forall i :: u <= i < |r| ==> r[i] == data[i + v - u]
  {
    if u != v then data[..u] + data[v..] else data
  }

  /** `fixTrailingWhitespace`: the loop started at the end of the data. */
  function FixTrailingWhitespace(data: seq<byte>): (r: seq<byte>)
    ensures |r| <= |data|
  {
    TrailingLoop(data, |data|, |data|)
  }

  /** Every cr/lf of `l` is followed by cr/lf bytes only. */
  predicate EolsAtEnd(l: seq<byte>) {
    forall i, j :: 0 <= i < j < |l| && IsEol(l[i]) ==> IsEol(l[j])
  }

  /** A line the scanner yields keeps its cr/lf bytes at its end. */
  lemma ScannedLineEolsAtEnd(l: seq<byte>)
    requires Terminated(l) || NoEol(l)
    ensures EolsAtEnd(l)
  {
    var j := FirstEol(l);
    forall k | 0 <= k < j
      ensures !IsEol(l[k])
    {
      assert l[..j][k] == l[k];
    }
    forall a, b | 0 <= a < b < |l| && IsEol(l[a])
      ensures IsEol(l[b])
    {
      assert l[j..][b - j] == l[b];
    }
  }

  /** Then the body (the line without its trailing cr/lf run) holds none. */
  lemma EolsAtEndBody(l: seq<byte>)
    requires EolsAtEnd(l)
    ensures NoEol(TrimRightEol(l))
  {
    var n := |TrimRightEol(l)|;
    forall i | 0 <= i < n
      ensures !IsEol(TrimRightEol(l)[i])
    {
      assert TrimRightEol(l)[i] == l[i];
      assert !IsEol(l[n - 1]);
    }
  }

  /** The converted indentation keeps the cr/lf bytes at the end, as units hold none. */
  lemma PrefixKeepsEolsAtEnd(data: seq<byte>, c: seq<byte>, x: seq<byte>)
    requires |c| > 0 && |x| > 0 && NoEol(c)
    requires EolsAtEnd(data)
    ensures EolsAtEnd(FixTabAndSpacePrefix(data, c, x))
  {
    var s := PrefixScan(data, c, x);
    if s.covered < |data| {
      var r := RepeatSeq(c, s.units);
      RepeatSeqNoEol(c, s.units);
      var out := FixTabAndSpacePrefix(data, c, x);
      assert out == r + data[s.covered..];
      forall a, b | 0 <= a < b < |out| && IsEol(out[a])
        ensures IsEol(out[b])
      {
        assert a >= |r|;
        assert out[a] == data[s.covered + a - |r|];
        assert out[b] == data[s.covered + b - |r|];
      }
    }
  }

  /** Units with no cr/lf laid end to end hold none. */
  lemma {:induction false} RepeatSeqNoEol(c: seq<byte>, k: nat)
    requires NoEol(c)
    ensures NoEol(RepeatSeq(c, k))
    decreases k
  {
    if k > 0 {
      RepeatSeqNoEol(c, k - 1);
      assert RepeatSeq(c, k) == c + RepeatSeq(c, k - 1);
    }
  }

  /** `TrailingEolCount` is the one count that its three properties describe. */
  lemma TrailingEolCountIs(s: seq<byte>, n: nat)
    requires n <= |s| && forall i :: |s| - n <= i < |s| ==> IsEol(s[i])
    requires n < |s| ==> !IsEol(s[|s| - n - 1])
    ensures TrailingEolCount(s) == n
  {
  }

  /** A line's body with its trailing spaces and tabs removed. */
  function TrimmedBody(l: seq<byte>): (r: seq<byte>)
    ensures HasPrefix(TrimRightEol(l), r)
  {
    var b := TrimRightEol(l);
    b[..|b| - TrailingBlankCount(b)]
  }

  /** The loop steps over the terminator without cutting anything. */
  lemma {:induction false} EolPhase(data: seq<byte>, u: nat)
    requires |TrimRightEol(data)| <= u <= |data|
    ensures TrailingLoop(data, u, u) == TrailingLoop(data, |TrimRightEol(data)|, |TrimRightEol(data)|)
    decreases u
  {
    if u > |TrimRightEol(data)| {
      assert IsEol(data[u - 1]);
      EolPhase(data, u - 1);
    }
  }

  /** Then it steps over the trailing blanks of the body and cuts them. */
  lemma {:induction false} BlankPhase(data: seq<byte>, u: nat)
    requires NoEol(TrimRightEol(data))
    requires var b := TrimRightEol(data);
      |b| - TrailingBlankCount(b) <= u <= |b|
    ensures var b := TrimRightEol(data);
      TrailingLoop(data, u, |b|) == Cut(data, |b| - TrailingBlankCount(b), |b|)
    decreases u
  {
    var b := TrimRightEol(data);
    var t := TrailingBlankCount(b);
    if u > |b| - t {
      assert data[u - 1] == b[u - 1];
      assert !IsEol(b[u - 1]) && IsBlank(b[u - 1]);
      assert TrailingLoop(data, u, |b|) == TrailingLoop(data, u - 1, |b|);
      BlankPhase(data, u - 1);
    } else {
      if u > 0 {
        assert data[u - 1] == b[u - 1];
        assert !IsEol(b[u - 1]) && !IsBlank(b[u - 1]);
      }
      assert TrailingLoop(data, u, |b|) == Cut(data, u, |b|);
    }
  }

  /**
   On a scanned line, `fixTrailingWhitespace` removes exactly the spaces
   and tabs before the terminator and keeps everything else.
   */
  lemma FixTrailingWhitespaceOfLine(l: seq<byte>)
    requires EolsAtEnd(l)
    ensures FixTrailingWhitespace(l) == TrimmedBody(l) + l[|TrimRightEol(l)|..]
  {
    EolsAtEndBody(l);
    var b := TrimRightEol(l);
    EolPhase(l, |l|);
    BlankPhase(l, |b|);
    CutBlanks(l, b, TrailingBlankCount(b));
  }

  /** Cutting the `t` bytes before the end of the prefix `b` keeps the rest of `b` and what follows it. */
  lemma CutBlanks(l: seq<byte>, b: seq<byte>, t: nat)
    requires HasPrefix(l, b) && t <= |b|
    ensures Cut(l, |b| - t, |b|) == b[..|b| - t] + l[|b|..]
  {
    assert l[..|b|] == b;
    if t == 0 {
      assert l == b + l[|b|..];
    } else {
      assert l[..|b| - t] == b[..|b| - t];
    }
  }

  /** The fixed line is accepted by `checkTrimTrailingWhitespace`. */
  lemma FixedLinePassesTrim(l: seq<byte>)
    requires EolsAtEnd(l)
    ensures CheckTrimTrailingWhitespace(FixTrailingWhitespace(l)).Pass?
  {
    FixTrailingWhitespaceOfLine(l);
    EolsAtEndBody(l);
    var body := TrimmedBody(l);
    var r := FixTrailingWhitespace(l);
    var b := TrimRightEol(l);
    var t := TrailingBlankCount(b);
    TrailingEolCountIs(r, |l| - |b|);
    if |body| > 0 {
      assert r[|body| - 1] == b[|b| - t - 1];
    }
  }

  /** The fixed line is the trimmed body, with no blank at its end, and then the old terminator. */
  lemma FixedLineParts(l: seq<byte>)
    requires EolsAtEnd(l)
    ensures var r := FixTrailingWhitespace(l);
      && TrimRightEol(r) == TrimmedBody(l)
      && TrailingBlankCount(TrimmedBody(l)) == 0
      && r[|TrimmedBody(l)|..] == l[|TrimRightEol(l)|..]
  {
    FixTrailingWhitespaceOfLine(l);
    EolsAtEndBody(l);
    var r := FixTrailingWhitespace(l);
    var b := TrimRightEol(l);
    var body := TrimmedBody(l);
    var t := TrailingBlankCount(b);
    TrailingEolCountIs(r, |l| - |b|);
    assert |body| > 0 ==> body[|body| - 1] == b[|b| - t - 1];
  }

  /** Fixing a fixed line changes nothing. */
  lemma FixTrailingWhitespaceIdempotent(l: seq<byte>)
    requires EolsAtEnd(l)
    ensures EolsAtEnd(FixTrailingWhitespace(l))
    ensures FixTrailingWhitespace(FixTrailingWhitespace(l)) == FixTrailingWhitespace(l)
  {
    FixedLineParts(l);
    FixedLineEolsAtEnd(l);
    var r := FixTrailingWhitespace(l);
    assert TrimmedBody(r) == TrimmedBody(l);
    FixTrailingWhitespaceOfLine(r);
  }

  /** The fixed line still has its cr/lf bytes at its end. */
  lemma FixedLineEolsAtEnd(l: seq<byte>)
    requires EolsAtEnd(l)
    ensures EolsAtEnd(FixTrailingWhitespace(l))
  {
    FixTrailingWhitespaceOfLine(l);
    EolsAtEndBody(l);
    var r := FixTrailingWhitespace(l);
    var body := TrimmedBody(l);
    forall a, b | 0 <= a < b < |r| && IsEol(r[a])
      ensures IsEol(r[b])
    {
      assert a >= |body|;
      assert r[b] == l[|TrimRightEol(l)| + b - |body|];
    }
  }

  // ---------------------------------------------------------------- the file

  /**
   The unit size of `fix`: the tab width when one is set, else the
   indentation size, else 2.
   */
  function UnitSize(def: Definition): (n: int)
    ensures n != 0
  {
    if def.tabWidth != 0 then def.tabWidth
    else if def.indentSize != 0 then def.indentSize
    else 2
  }

  /** Whether indentation is converted, and then the wanted unit `c` and the unit `x` it replaces. */
  datatype Indentation = NoIndentFix | Units(c: seq<byte>, x: seq<byte>)

  /**
   The indentation units of `fix`. A negative unit size makes the
   repetition of spaces panic; an indentation style other than "space",
   "tab", "" and "unset" is a configuration error.
   */
  function IndentUnits(def: Definition): (r: Result<Indentation>)
    ensures r.Ok? && r.value.Units? ==> |r.value.c| > 0 && |r.value.x| > 0
    ensures r.Ok? && r.value.Units? ==> def.config.indentStyle in {SPACE_VALUE, TAB_VALUE}
    ensures r.Ok? && r.value.Units? ==>
      (forall i :: 0 <= i < |r.value.c| ==> IsBlank(r.value.c[i])) && forall i :: 0 <= i < |r.value.x| ==> IsBlank(r.value.x[i])
  {
    var n := UnitSize(def);
    var style := def.config.indentStyle;
    if style == SPACE_VALUE || style == TAB_VALUE then
      if n < 0 then Err(Panic(NegativeRepeatCount(n)))
      else if style == SPACE_VALUE then Ok(Units(Repeat(SPACE, n), [TAB]))
      else Ok(Units([TAB], Repeat(SPACE, n)))
    else if style == "" || style == UNSET_VALUE then Ok(NoIndentFix)
    else Err(Configuration(InvalidIndentStyle(style)))
  }

  /**
   The callback of `fix` on one line: indentation converted, trailing
   whitespace removed when asked for, and (but on the last line) the
   terminator replaced by `eol` whenever `end_of_line` is not empty.
   */
  function FixLine(def: Definition, units: Indentation, eol: seq<byte>, data: seq<byte>, isEOF: bool): (r: seq<byte>)
    requires units.Units? ==> |units.c| > 0 && |units.x| > 0
    ensures def.config.endOfLine != "" && !isEOF ==> 
      HasSuffix(r, eol) && (|r| == |eol| || !IsEol(r[|r| - |eol| - 1]))
  {
    var a := if units.Units? then FixTabAndSpacePrefix(data, units.c, units.x) else data;
    var b := if def.config.trimTrailingWhitespace == Some(true) then FixTrailingWhitespace(a) else a;
    if def.config.endOfLine != "" && !isEOF then TrimRightEol(b) + eol else b
  }

  /** Replacing the terminator keeps the verdict of `checkTrimTrailingWhitespace`. */
  lemma NewTerminatorKeepsTrim(b: seq<byte>, eol: seq<byte>)
    requires forall i :: 0 <= i < |eol| ==> IsEol(eol[i])
    ensures CheckTrimTrailingWhitespace(TrimRightEol(b) + eol) == CheckTrimTrailingWhitespace(b)
  {
    var t := TrimRightEol(b);
    TrailingEolCountIs(t + eol, |eol|);
  }

  /**
   With `trim_trailing_whitespace` on, every line `fix` writes passes
   `checkTrimTrailingWhitespace`, whatever the indentation units and
   the terminator.
   */
  lemma FixLineTrims(def: Definition, units: Indentation, eol: seq<byte>, data: seq<byte>, isEOF: bool)
    requires units.Units? ==> |units.c| > 0 && |units.x| > 0 && NoEol(units.c)
    requires def.config.trimTrailingWhitespace == Some(true)
    requires forall i :: 0 <= i < |eol| ==> IsEol(eol[i])
    requires EolsAtEnd(data)
    ensures CheckTrimTrailingWhitespace(FixLine(def, units, eol, data, isEOF)).Pass?
  {
    var a := if units.Units? then FixTabAndSpacePrefix(data, units.c, units.x) else data;
    if units.Units? {
      PrefixKeepsEolsAtEnd(data, units.c, units.x);
    }
    FixedLinePassesTrim(a);
    var b := FixTrailingWhitespace(a);
    if def.config.endOfLine != "" && !isEOF {
      NewTerminatorKeepsTrim(b, eol);
    }
  }

  /** The trailing cr/lf run of a line. */
  function Ending(l: seq<byte>): seq<byte> {
    l[|TrimRightEol(l)|..]
  }

  /** Units free of cr/lf laid end to end hold none. */
  lemma {:induction false} UnitsNoEol(s: seq<byte>, c: seq<byte>, x: seq<byte>, k: nat)
    requires NoEol(c) && NoEol(x) && IsUnits(s, c, x, k)
    ensures NoEol(s)
    decreases k
  {
    if k > 0 {
      var u := if HasPrefix(s, c) && IsUnits(s[|c|..], c, x, k - 1) then c else x;
      UnitsNoEol(s[|u|..], c, x, k - 1);
      forall i | 0 <= i < |s|
        ensures !IsEol(s[i])
      {
        if i < |u| {
          assert s[i] == s[..|u|][i];
        } else {
          assert s[i] == s[|u|..][i - |u|];
        }
      }
    }
  }

  /** Bytes free of cr/lf in front of a line leave its ending as it was. */
  lemma EndingAfterNoEol(p: seq<byte>, t: seq<byte>)
    requires NoEol(p)
    ensures Ending(p + t) == Ending(t)
  {
    var n := TrailingEolCount(t);
    TrailingEolCountIs(p + t, n);
    assert (p + t)[|p + t| - n..] == t[|t| - n..];
  }

  /** Converting the indentation leaves the line's ending as it was. */
  lemma PrefixKeepsEnding(data: seq<byte>, c: seq<byte>, x: seq<byte>)
    requires |c| > 0 && |x| > 0 && NoEol(c) && NoEol(x)
    ensures Ending(FixTabAndSpacePrefix(data, c, x)) == Ending(data)
  {
    var s := PrefixScan(data, c, x);
    if s.covered < |data| {
      var rest := data[s.covered..];
      PrefixScanCoversUnits(data, c, x);
      UnitsNoEol(data[..s.covered], c, x, s.units);
      RepeatSeqNoEol(c, s.units);
      EndingAfterNoEol(RepeatSeq(c, s.units), rest);
      assert data == data[..s.covered] + rest;
      EndingAfterNoEol(data[..s.covered], rest);
    }
  }

  /** On a line with its cr/lf at the end, the terminator is the ending. */
  lemma TerminatorIsEnding(l: seq<byte>)
    requires EolsAtEnd(l)
    ensures TerminatorOf(l) == Ending(l)
  {
    EolsAtEndBody(l);
    var j := |TrimRightEol(l)|;
    assert l[..j] == TrimRightEol(l);
    FirstEolIs(l, j);
  }

  /**
   The last line keeps its own terminator (or its lack of one): only
   the indentation and the trailing whitespace before it may change.
   */
  lemma LastLineKeepsItsEnding(def: Definition, units: Indentation, eol: seq<byte>, data: seq<byte>)
    requires units.Units? ==> |units.c| > 0 && |units.x| > 0 && NoEol(units.c) && NoEol(units.x)
    requires EolsAtEnd(data)
    ensures TerminatorOf(FixLine(def, units, eol, data, true)) == TerminatorOf(data)
  {
    var a := if units.Units? then FixTabAndSpacePrefix(data, units.c, units.x) else data;
    if units.Units? {
      PrefixKeepsEolsAtEnd(data, units.c, units.x);
      PrefixKeepsEnding(data, units.c, units.x);
    }
    var b := if def.config.trimTrailingWhitespace == Some(true) then FixTrailingWhitespace(a) else a;
    if def.config.trimTrailingWhitespace == Some(true) {
      FixedLineParts(a);
      FixedLineEolsAtEnd(a);
    }
    assert Ending(b) == Ending(data);
    TerminatorIsEnding(b);
    TerminatorIsEnding(data);
  }

  /**
   A line other than the last is written as the last line would be, but
   for its terminator: the bytes before the trailing cr/lf run are the
   same, and without `end_of_line` the whole line is.
   */
  lemma OnlyTheTerminatorDiffers(def: Definition, units: Indentation, eol: seq<byte>, data: seq<byte>, isEOF: bool)
    requires units.Units? ==> |units.c| > 0 && |units.x| > 0
    requires forall i :: 0 <= i < |eol| ==> IsEol(eol[i])
    ensures TrimRightEol(FixLine(def, units, eol, data, isEOF)) == TrimRightEol(FixLine(def, units, eol, data, true))
    ensures def.config.endOfLine == "" ==> FixLine(def, units, eol, data, isEOF) == FixLine(def, units, eol, data, true)
  {
    var b := FixLine(def, units, eol, data, true);
    if def.config.endOfLine != "" && !isEOF {
      var t := TrimRightEol(b);
      TrailingEolCountIs(t + eol, |eol|);
      assert (t + eol)[..|t|] == t;
    }
  }

  /**
   Without indentation or trim rules, `fix` keeps every line's bytes
   before its trailing cr/lf run, and the last line as a whole.
   */
  lemma NoRulesKeepLineText(def: Definition, eol: seq<byte>, data: seq<byte>, isEOF: bool)
    requires def.config.trimTrailingWhitespace != Some(true)
    requires forall i :: 0 <= i < |eol| ==> IsEol(eol[i])
    ensures TrimRightEol(FixLine(def, NoIndentFix, eol, data, isEOF)) == TrimRightEol(data)
    ensures FixLine(def, NoIndentFix, eol, data, true) == data
  {
    OnlyTheTerminatorDiffers(def, NoIndentFix, eol, data, isEOF);
  }

  /** The fixed lines, in order, the last one flagged as the end of input as `ReadLines` does. */
  function FixLines(def: Definition, units: Indentation, eol: seq<byte>, lines: seq<seq<byte>>): (r: seq<seq<byte>>)
    requires units.Units? ==> |units.c| > 0 && |units.x| > 0
    ensures |r| == |lines|
  {
    seq(|lines|, i requires 0 <= i < |lines| => FixLine(def, units, eol, lines[i], i == |lines| - 1))
  }

  /**
   `fix`: the indentation settings are checked first, then the
   terminator (`eol` is `def.EOL()`, `None` when it fails), and the fixed
   lines are written one after the other. Writing into the in-memory
   buffer does not fail, so no line reports an error.
   */
  function Fix(content: seq<byte>, def: Definition, eol: Option<seq<byte>>): (r: Result<seq<byte>>)
    ensures IndentUnits(def).Err? ==> r == Err(IndentUnits(def).error)
    ensures IndentUnits(def).Ok? && eol.None? ==> r == Err(Plain(EolUnavailable))
    ensures IndentUnits(def).Ok? && eol.Some? ==> r.Ok?
  {
    var units := IndentUnits(def);
    if units.Err? then Err(units.error)
    else if eol.None? then Err(Plain(EolUnavailable))
    else Ok(Flatten(FixLines(def, units.value, eol.value, Lines(content))))
  }

  /** Every line but the last carries the configured terminator and passes `endOfLine`. */
  lemma FixedLinesEndWithEol(def: Definition, units: Indentation, eolName: string, lines: seq<seq<byte>>)
    requires units.Units? ==> |units.c| > 0 && |units.x| > 0
    requires def.config.endOfLine == eolName
    requires eolName == "lf" || eolName == "crlf" || eolName == "cr"
    ensures var fixed := FixLines(def, units, EolBytes(eolName), lines);
      forall i :: 0 <= i < |fixed| - 1 ==> HasSuffix(fixed[i], EolBytes(eolName)) && EndOfLine(eolName, fixed[i]).Pass?
  {
    var fixed := FixLines(def, units, EolBytes(eolName), lines);
    forall i | 0 <= i < |fixed| - 1
      ensures HasSuffix(fixed[i], EolBytes(eolName)) && EndOfLine(eolName, fixed[i]).Pass?
    {
      assert fixed[i] == FixLine(def, units, EolBytes(eolName), lines[i], false);
      SingleTerminatorPasses(eolName, fixed[i]);
    }
  }

  /** A line ending in the configured terminator, with no cr/lf just before it, passes `endOfLine`. */
  lemma SingleTerminatorPasses(eolName: string, l: seq<byte>)
    requires eolName == "lf" || eolName == "crlf" || eolName == "cr"
    requires var t := EolBytes(eolName);
      HasSuffix(l, t) && (|l| == |t| || !IsEol(l[|l| - |t| - 1]))
    ensures EndOfLine(eolName, l).Pass?
  {
    if eolName == "lf" && |l| >= 2 {
      assert l[|l| - 2..] != [CR, LF];
    }
  }

  /**
   With `trim_trailing_whitespace` on, no line of the fixed file keeps
   trailing whitespace.
   */
  lemma FixedLinesPassTrim(content: seq<byte>, def: Definition, eol: seq<byte>)
    requires IndentUnits(def).Ok? && def.config.trimTrailingWhitespace == Some(true)
    requires forall i :: 0 <= i < |eol| ==> IsEol(eol[i])
    ensures var fixed := FixLines(def, IndentUnits(def).value, eol, Lines(content));
      forall i :: 0 <= i < |fixed| ==> CheckTrimTrailingWhitespace(fixed[i]).Pass?
  {
    var units := IndentUnits(def).value;
    var ls := Lines(content);
    LinesWellFormed(content);
    forall i | 0 <= i < |ls|
      ensures CheckTrimTrailingWhitespace(FixLines(def, units, eol, ls)[i]).Pass?
    {
      ScannedLineEolsAtEnd(ls[i]);
      FixLineTrims(def, units, eol, ls[i], i == |ls| - 1);
    }
  }

  /** Lines that already conform to the settings come through the fixer unchanged. */
  lemma FixLinesKeepsConforming(def: Definition, eol: seq<byte>, lines: seq<seq<byte>>)
    requires def.config.trimTrailingWhitespace != Some(true)
    requires def.config.endOfLine != "" ==>
      forall i :: 0 <= i < |lines| - 1 ==> TrimRightEol(lines[i]) + eol == lines[i]
    ensures FixLines(def, NoIndentFix, eol, lines) == lines
  {
    var fixed := FixLines(def, NoIndentFix, eol, lines);
    forall i | 0 <= i < |lines|
      ensures fixed[i] == lines[i]
    {
      assert fixed[i] == FixLine(def, NoIndentFix, eol, lines[i], i == |lines| - 1);
    }
  }

  /**
   Without an indentation style and a trim request, a file whose lines
   already end with the configured terminator (all but the last) is
   written back byte for byte; with no `end_of_line` any file is.
   */
  lemma FixKeepsConformingContent(content: seq<byte>, def: Definition, eol: seq<byte>)
    requires IndentUnits(def) == Ok(NoIndentFix)
    requires def.config.trimTrailingWhitespace != Some(true)
    requires def.config.endOfLine != "" ==>
      forall i :: 0 <= i < |Lines(content)| - 1 ==> TrimRightEol(Lines(content)[i]) + eol == Lines(content)[i]
    ensures Fix(content, def, Some(eol)) == Ok(content)
  {
    FixLinesKeepsConforming(def, eol, Lines(content));
    LinesFlatten(content);
  }

  // ---------------------------------------------------------------- fixing twice

  /** Every byte of `u` is a space or a tab. */
  predicate AllBlank(u: seq<byte>) {
    forall i :: 0 <= i < |u| ==> IsBlank(u[i])
  }

  /** Indentation units as `IndentUnits` makes them: non-empty runs of spaces and tabs. */
  predicate BlankUnits(units: Indentation) {
    units.Units? ==> |units.c| > 0 && |units.x| > 0 && AllBlank(units.c) && AllBlank(units.x)
  }

  /**
   Whether a line starts with a blank unit is decided before its first
   non-blank byte: two lines that agree up to a non-blank byte at `q`
   agree on it, and a unit they start with lies before `q`.
   */
  lemma UnitBeforeFirstNonBlank(y: seq<byte>, z: seq<byte>, q: nat, u: seq<byte>)
    requires AllBlank(u)
    requires q < |y| && q < |z| && y[..q] == z[..q] && !IsBlank(y[q]) && !IsBlank(z[q])
    ensures HasPrefix(y, u) <==> HasPrefix(z, u)
    ensures HasPrefix(y, u) ==> |u| <= q
  {
    if |u| <= q {
      assert y[..|u|] == y[..q][..|u|];
      assert z[..|u|] == z[..q][..|u|];
    } else {
      if |u| <= |y| {
        assert y[..|u|][q] == y[q];
      }
      if |u| <= |z| {
        assert z[..|u|][q] == z[q];
      }
    }
  }

  /**
   The indentation scan never reads past the first non-blank byte: lines
   that agree up to one are scanned alike, and the scan stops before it.
   */
  lemma {:induction false} ScanSharedPrefix(y: seq<byte>, z: seq<byte>, q: nat, c: seq<byte>, x: seq<byte>)
    requires |c| > 0 && |x| > 0 && AllBlank(c) && AllBlank(x)
    requires q < |y| && q < |z| && y[..q] == z[..q] && !IsBlank(y[q]) && !IsBlank(z[q])
    ensures PrefixScan(y, c, x) == PrefixScan(z, c, x)
    ensures PrefixScan(y, c, x).covered <= q
    decreases q
  {
    UnitBeforeFirstNonBlank(y, z, q, c);
    UnitBeforeFirstNonBlank(y, z, q, x);
    if HasPrefix(y, c) || HasPrefix(y, x) {
      var u := if HasPrefix(y, c) then c else x;
      assert y[|u|..][..q - |u|] == y[..q][|u|..];
      assert z[|u|..][..q - |u|] == z[..q][|u|..];
      ScanSharedPrefix(y[|u|..], z[|u|..], q - |u|, c, x);
    }
  }

  /**
   A line whose indentation is already converted stays so whatever
   follows its first non-blank byte.
   */
  lemma ConvertedSharedPrefix(y: seq<byte>, z: seq<byte>, q: nat, c: seq<byte>, x: seq<byte>)
    requires |c| > 0 && |x| > 0 && AllBlank(c) && AllBlank(x)
    requires q < |y| && q < |z| && y[..q] == z[..q] && !IsBlank(y[q]) && !IsBlank(z[q])
    requires FixTabAndSpacePrefix(y, c, x) == y
    ensures FixTabAndSpacePrefix(z, c, x) == z
  {
    ScanSharedPrefix(y, z, q, c, x);
    var s := PrefixScan(y, c, x);
    var r := RepeatSeq(c, s.units);
    assert r + y[s.covered..] == y;
    assert y[..s.covered] == r;
    assert z[..s.covered] == y[..q][..s.covered];
    assert z == z[..s.covered] + z[s.covered..];
  }

  /** A line that is empty or opens with a non-blank byte has no indentation to convert. */
  lemma NoIndentKept(y: seq<byte>, c: seq<byte>, x: seq<byte>)
    requires |c| > 0 && |x| > 0 && AllBlank(c) && AllBlank(x)
    requires |y| == 0 || !IsBlank(y[0])
    ensures FixTabAndSpacePrefix(y, c, x) == y
  {
    if |y| > 0 {
      if |c| <= |y| {
        assert y[..|c|][0] == y[0];
      }
      if |x| <= |y| {
        assert y[..|x|][0] == y[0];
      }
      assert RepeatSeq(c, 0) + y[0..] == y;
    }
  }

  /**
   A line `fix` would leave as it is were it the last one: its
   indentation is already converted and, when trimming is on, it has no
   trailing whitespace.
   */
  predicate Settled(def: Definition, units: Indentation, l: seq<byte>)
    requires units.Units? ==> |units.c| > 0 && |units.x| > 0
  {
    && (units.Units? ==> FixTabAndSpacePrefix(l, units.c, units.x) == l)
    && (def.config.trimTrailingWhitespace == Some(true) ==> FixTrailingWhitespace(l) == l)
  }

  /** A body free of cr/lf and then a run of cr/lf: the body is what `TrimRightEol` keeps, the run the ending. */
  lemma BodyAndEnding(b: seq<byte>, t: seq<byte>)
    requires NoEol(b) && forall i :: 0 <= i < |t| ==> IsEol(t[i])
    ensures TrimRightEol(b + t) == b && Ending(b + t) == t && EolsAtEnd(b + t)
  {
    var l := b + t;
    TrailingEolCountIs(l, |t|);
    assert l[..|b|] == b;
    forall i, j | 0 <= i < j < |l| && IsEol(l[i])
      ensures IsEol(l[j])
    {
      assert i >= |b|;
      assert l[j] == t[j - |b|];
    }
  }

  /** A line with its cr/lf at the end is its body and then its ending. */
  lemma SplitAtEnding(l: seq<byte>)
    requires EolsAtEnd(l)
    ensures l == TrimRightEol(l) + Ending(l)
    ensures NoEol(TrimRightEol(l)) && forall i :: 0 <= i < |Ending(l)| ==> IsEol(Ending(l)[i])
  {
    EolsAtEndBody(l);
  }

  /** A body free of cr/lf followed by a terminator is a complete line with that terminator. */
  lemma TerminatedParts(b: seq<byte>, t: seq<byte>)
    requires NoEol(b) && IsTerminator(t)
    ensures Terminated(b + t) && TerminatorOf(b + t) == t
  {
    assert (b + t)[..|b|] == b;
    FirstEolIs(b + t, |b|);
    assert (b + t)[|b|..] == t;
  }

  /** Trimming a line made of a body and cr/lf bytes removes the blanks at the end of the body only. */
  lemma TrimOfParts(b: seq<byte>, t: seq<byte>)
    requires NoEol(b) && forall i :: 0 <= i < |t| ==> IsEol(t[i])
    ensures FixTrailingWhitespace(b + t) == b[..|b| - TrailingBlankCount(b)] + t
  {
    var l := b + t;
    BodyAndEnding(b, t);
    FixTrailingWhitespaceOfLine(l);
    assert TrimmedBody(l) == b[..|b| - TrailingBlankCount(b)];
    assert l[|TrimRightEol(l)|..] == t;
  }

  /** Whether a complete line is settled does not depend on its terminator. */
  lemma SettledAnyTerminator(def: Definition, units: Indentation, b: seq<byte>, t: seq<byte>, t2: seq<byte>)
    requires BlankUnits(units)
    requires NoEol(b)
    requires |t| > 0 && forall i :: 0 <= i < |t| ==> IsEol(t[i])
    requires |t2| > 0 && forall i :: 0 <= i < |t2| ==> IsEol(t2[i])
    requires Settled(def, units, b + t)
    ensures Settled(def, units, b + t2)
  {
    if units.Units? {
      assert (b + t)[..|b|] == b == (b + t2)[..|b|];
      ConvertedSharedPrefix(b + t, b + t2, |b|, units.c, units.x);
    }
    if def.config.trimTrailingWhitespace == Some(true) {
      TrimOfParts(b, t);
      TrimOfParts(b, t2);
    }
  }

  /** Two lines that open with the same bytes, the last of them not blank, agree up to that byte. */
  lemma SharedBody(a: seq<byte>, b: seq<byte>, p: seq<byte>)
    requires HasPrefix(a, p) && HasPrefix(b, p) && |p| > 0 && !IsBlank(p[|p| - 1])
    ensures a[..|p| - 1] == b[..|p| - 1] && !IsBlank(a[|p| - 1]) && !IsBlank(b[|p| - 1])
  {
    assert a[..|p| - 1] == p[..|p| - 1] == b[..|p| - 1];
    assert a[|p| - 1] == a[..|p|][|p| - 1];
    assert b[|p| - 1] == b[..|p|][|p| - 1];
  }

  /**
   Trimming a line whose indentation is converted keeps it converted:
   what precedes the last non-blank byte is untouched, and a line with
   nothing left before its ending has no indentation.
   */
  lemma TrimKeepsConverted(a: seq<byte>, c: seq<byte>, x: seq<byte>)
    requires |c| > 0 && |x| > 0 && AllBlank(c) && AllBlank(x)
    requires EolsAtEnd(a) && FixTabAndSpacePrefix(a, c, x) == a
    ensures FixTabAndSpacePrefix(FixTrailingWhitespace(a), c, x) == FixTrailingWhitespace(a)
  {
    FixedLineParts(a);
    FixTrailingWhitespaceOfLine(a);
    var tb := TrimmedBody(a);
    var b := FixTrailingWhitespace(a);
    if |tb| > 0 {
      assert HasPrefix(a, tb) by {
        assert a[..|tb|] == a[..|TrimRightEol(a)|][..|tb|];
      }
      assert HasPrefix(b, tb);
      SharedBody(a, b, tb);
      ConvertedSharedPrefix(a, b, |tb| - 1, c, x);
    } else {
      assert b == Ending(a);
      NoIndentKept(b, c, x);
    }
  }

  /** The line before its terminator is rewritten: converted, trimmed, settled, with the ending it had. */
  lemma RewrittenBody(def: Definition, units: Indentation, l: seq<byte>)
    requires BlankUnits(units)
    requires EolsAtEnd(l)
    ensures var b := FixLine(def, units, [], l, true);
      Settled(def, units, b) && EolsAtEnd(b) && Ending(b) == Ending(l)
  {
    var a := if units.Units? then FixTabAndSpacePrefix(l, units.c, units.x) else l;
    if units.Units? {
      FixTabAndSpacePrefixIdempotent(l, units.c, units.x);
      PrefixKeepsEolsAtEnd(l, units.c, units.x);
      PrefixKeepsEnding(l, units.c, units.x);
    }
    if def.config.trimTrailingWhitespace == Some(true) {
      FixTrailingWhitespaceIdempotent(a);
      FixedLineParts(a);
      if units.Units? {
        TrimKeepsConverted(a, units.c, units.x);
      }
    }
  }

  /** A line's ending tells its shape: a terminator when it is complete, nothing when it is free of cr/lf. */
  lemma EndingOfShape(l: seq<byte>)
    requires Terminated(l) || NoEol(l)
    ensures EolsAtEnd(l)
    ensures Terminated(l) ==> IsTerminator(Ending(l))
    ensures NoEol(l) ==> Ending(l) == []
  {
    ScannedLineEolsAtEnd(l);
    TerminatorIsEnding(l);
  }

  /** A settled line given a new terminator is a settled complete line with that terminator. */
  lemma NewTerminatorSettles(def: Definition, units: Indentation, b: seq<byte>, eol: seq<byte>)
    requires BlankUnits(units)
    requires EolsAtEnd(b) && |Ending(b)| > 0 && Settled(def, units, b)
    requires IsTerminator(eol)
    ensures var g := TrimRightEol(b) + eol;
      Settled(def, units, g) && Terminated(g) && TerminatorOf(g) == eol
  {
    SplitAtEnding(b);
    SettledAnyTerminator(def, units, TrimRightEol(b), Ending(b), eol);
    TerminatedParts(TrimRightEol(b), eol);
  }

  /** A line whose ending is a terminator is complete; one with no ending holds no cr/lf. */
  lemma ShapeOfEnding(b: seq<byte>)
    requires EolsAtEnd(b)
    ensures IsTerminator(Ending(b)) ==> Terminated(b)
    ensures Ending(b) == [] ==> NoEol(b)
  {
    SplitAtEnding(b);
    if IsTerminator(Ending(b)) {
      TerminatedParts(TrimRightEol(b), Ending(b));
    }
  }

  /** A line other than the last is the rewritten body with `eol` in place of its terminator when `end_of_line` is set. */
  lemma FixLineOfBody(def: Definition, units: Indentation, eol: seq<byte>, l: seq<byte>, isEOF: bool)
    requires units.Units? ==> |units.c| > 0 && |units.x| > 0
    ensures var b := FixLine(def, units, [], l, true);
      FixLine(def, units, eol, l, isEOF) == if def.config.endOfLine != "" && !isEOF then TrimRightEol(b) + eol else b
  {
  }

  /**
   Every line `fix` writes is settled, keeps its shape (complete, or free
   of cr/lf), and but for the last carries `eol` when `end_of_line` is set.
   */
  lemma FixLineSettles(def: Definition, units: Indentation, eol: seq<byte>, l: seq<byte>, isEOF: bool)
    requires BlankUnits(units)
    requires def.config.endOfLine != "" ==> IsTerminator(eol)
    requires Terminated(l) || (isEOF && NoEol(l))
    ensures var g := FixLine(def, units, eol, l, isEOF);
      && Settled(def, units, g)
      && (Terminated(l) ==> Terminated(g))
      && (NoEol(l) ==> NoEol(g))
      && (def.config.endOfLine != "" && !isEOF ==> TerminatorOf(g) == eol)
  {
    EndingOfShape(l);
    RewrittenBody(def, units, l);
    var b := FixLine(def, units, [], l, true);
    FixLineOfBody(def, units, eol, l, isEOF);
    if def.config.endOfLine != "" && !isEOF {
      NewTerminatorSettles(def, units, b, eol);
    } else {
      ShapeOfEnding(b);
    }
  }

  /**
   The shape of the lines `fix` writes: every line but the last is
   complete, the last is complete or free of cr/lf, and with
   `end_of_line` set every line but the last ends with `eol`.
   */
  predicate Shaped(def: Definition, eol: seq<byte>, gs: seq<seq<byte>>) {
    && (forall i :: 0 <= i < |gs| - 1 ==> Terminated(gs[i]))
    && (|gs| > 0 ==> Terminated(gs[|gs| - 1]) || NoEol(gs[|gs| - 1]))
    && (def.config.endOfLine != "" ==> forall i :: 0 <= i < |gs| - 1 ==> TerminatorOf(gs[i]) == eol)
  }

  /** Every line is settled. */
  predicate AllSettled(def: Definition, units: Indentation, gs: seq<seq<byte>>)
    requires BlankUnits(units)
  {
    forall i :: 0 <= i < |gs| ==> Settled(def, units, gs[i])
  }

  /** Lines as `fix` writes them: shaped and settled. */
  predicate Rewritten(def: Definition, units: Indentation, eol: seq<byte>, gs: seq<seq<byte>>)
    requires BlankUnits(units)
  {
    Shaped(def, eol, gs) && AllSettled(def, units, gs)
  }

  /** The lines after the first `k` of rewritten lines are rewritten lines. */
  lemma RewrittenTail(def: Definition, units: Indentation, eol: seq<byte>, gs: seq<seq<byte>>, k: nat)
    requires BlankUnits(units) && Rewritten(def, units, eol, gs) && k <= |gs|
    ensures Rewritten(def, units, eol, gs[k..])
  {
    var t := gs[k..];
    assert forall i :: 0 <= i < |t| ==> t[i] == gs[k + i];
  }

  /** The lines `fix` writes from the scanner's lines are rewritten lines. */
  lemma FixLinesRewritten(def: Definition, units: Indentation, eol: seq<byte>, ls: seq<seq<byte>>)
    requires BlankUnits(units)
    requires def.config.endOfLine != "" ==> IsTerminator(eol)
    requires WellFormedLines(ls)
    ensures Rewritten(def, units, eol, FixLines(def, units, eol, ls))
  {
    var gs := FixLines(def, units, eol, ls);
    forall i | 0 <= i < |ls|
      ensures && Settled(def, units, gs[i])
              && (i < |ls| - 1 ==> Terminated(gs[i]))
              && (i == |ls| - 1 ==> Terminated(gs[i]) || NoEol(gs[i]))
              && (def.config.endOfLine != "" && i < |ls| - 1 ==> TerminatorOf(gs[i]) == eol)
    {
      FixLineSettles(def, units, eol, ls[i], i == |ls| - 1);
    }
  }

  /** Fixing a line in front of others is fixing it, flagged last when nothing follows, and then the others. */
  lemma FixLinesCons(def: Definition, units: Indentation, eol: seq<byte>, h: seq<byte>, hs: seq<seq<byte>>)
    requires units.Units? ==> |units.c| > 0 && |units.x| > 0
    ensures FixLines(def, units, eol, [h] + hs) == [FixLine(def, units, eol, h, |hs| == 0)] + FixLines(def, units, eol, hs)
  {
    var l := [h] + hs;
    var r := FixLines(def, units, eol, l);
    var s := [FixLine(def, units, eol, h, |hs| == 0)] + FixLines(def, units, eol, hs);
    forall i | 0 <= i < |l|
      ensures r[i] == s[i]
    {
      if i > 0 {
        assert l[i] == hs[i - 1];
      }
    }
  }

  /**
   A settled line is written back as it is: as the last line, and as any
   other line when it already carries the terminator `fix` gives it.
   */
  lemma SettledLineKept(def: Definition, units: Indentation, eol: seq<byte>, l: seq<byte>, isEOF: bool)
    requires BlankUnits(units) && Settled(def, units, l)
    requires !isEOF && def.config.endOfLine != "" ==> Terminated(l) && TerminatorOf(l) == eol
    ensures FixLine(def, units, eol, l, isEOF) == l
  {
    if !isEOF && def.config.endOfLine != "" {
      EndingOfShape(l);
      TerminatorIsEnding(l);
      SplitAtEnding(l);
    }
  }

  /** A lone settled line, complete or free of cr/lf, is fixed into itself. */
  lemma LastLineRefixed(def: Definition, units: Indentation, eol: seq<byte>, g: seq<byte>)
    requires BlankUnits(units) && Settled(def, units, g)
    requires Terminated(g) || NoEol(g)
    ensures Flatten(FixLines(def, units, eol, Lines(g))) == g
  {
    if |g| > 0 {
      LinesOfOneLine(g);
      SettledLineKept(def, units, eol, g, true);
      assert FixLines(def, units, eol, [g]) == [g];
      assert Flatten([g]) == g + Flatten([]);
    }
  }

  /**
   A settled complete line in front of bytes that are fixed into
   themselves is fixed into itself too, provided the scanner ends the
   line where it ends.
   */
  lemma LineThenRest(def: Definition, units: Indentation, eol: seq<byte>, g: seq<byte>, r: seq<byte>)
    requires BlankUnits(units) && Settled(def, units, g) && Terminated(g)
    requires def.config.endOfLine != "" && |r| > 0 ==> TerminatorOf(g) == eol
    requires EndsWithCr(g) ==> |r| == 0 || r[0] != LF
    requires Flatten(FixLines(def, units, eol, Lines(r))) == r
    ensures Flatten(FixLines(def, units, eol, Lines(g + r))) == g + r
  {
    SplitAtLine(g, r, true);
    assert (g + r)[|g|..] == r;
    assert Lines(g + r) == [g] + Lines(r);
    FixLinesCons(def, units, eol, g, Lines(r));
    SettledLineKept(def, units, eol, g, |Lines(r)| == 0);
    FlattenCons(g, FixLines(def, units, eol, Lines(r)));
  }

  /** A complete line starting with lf is a lone lf. */
  lemma LoneLf(h: seq<byte>)
    requires Terminated(h) && |h| > 0 && h[0] == LF
    ensures h == [LF] && TerminatorOf(h) == [LF]
  {
    FirstEolIs(h, 0);
  }

  /** A complete line ending in cr is its body and a lone cr. */
  lemma CrTerminated(g: seq<byte>)
    requires Terminated(g) && EndsWithCr(g)
    ensures TerminatorOf(g) == [CR]
    ensures g == TrimRightEol(g) + [CR] && NoEol(TrimRightEol(g))
  {
    EndingOfShape(g);
    TerminatorIsEnding(g);
    SplitAtEnding(g);
  }

  /** The bytes of two or more lines: the first, the second, then the rest. */
  lemma FlattenTwo(gs: seq<seq<byte>>)
    requires |gs| >= 2
    ensures Flatten(gs[1..]) == gs[1] + Flatten(gs[2..])
    ensures Flatten(gs) == gs[0] + gs[1] + Flatten(gs[2..])
  {
    var t := gs[1..];
    assert t[0] == gs[1] && t[1..] == gs[2..];
    assert Flatten(t) == gs[1] + Flatten(gs[2..]);
    assert Flatten(gs) == gs[0] + Flatten(t);
  }

  /**
   When the scanner joins the first two rewritten lines, the second is a
   lone lf; then no line follows unless `end_of_line` is empty, since
   with it set both lines would carry the same terminator.
   */
  lemma JoinedPair(def: Definition, eol: seq<byte>, gs: seq<seq<byte>>)
    requires Shaped(def, eol, gs) && |gs| >= 2 && JoinsNext(gs)
    ensures gs[1] == [LF]
    ensures |Flatten(gs[2..])| > 0 ==> def.config.endOfLine == ""
  {
    var g, h := gs[0], gs[1];
    FlattenTwo(gs);
    if |gs| > 2 {
      assert Terminated(h);
    } else {
      assert gs[2..] == [];
    }
    assert h[0] == LF;
    assert Terminated(h) by {
      assert !NoEol(h);
    }
    LoneLf(h);
    CrTerminated(g);
    if |Flatten(gs[2..])| > 0 {
      assert |gs| > 2;
      assert def.config.endOfLine == "" by {
        assert TerminatorOf(gs[1]) == [LF] && TerminatorOf(gs[0]) == [CR];
      }
    }
  }

  /** A settled line ending in a lone cr, with an lf added, is a settled line ending in cr lf. */
  lemma JoinedLineSettled(def: Definition, units: Indentation, g: seq<byte>)
    requires BlankUnits(units) && Settled(def, units, g)
    requires Terminated(g) && EndsWithCr(g)
    ensures Settled(def, units, g + [LF]) && Terminated(g + [LF]) && !EndsWithCr(g + [LF])
  {
    CrTerminated(g);
    var body := TrimRightEol(g);
    assert g + [LF] == body + [CR, LF];
    SettledAnyTerminator(def, units, body, [CR], [CR, LF]);
    TerminatedParts(body, [CR, LF]);
  }

  /**
   Rewritten lines where a line ending in a lone cr is followed by a lone
   lf: the scanner reads the two as one line ending in cr lf, which is
   settled too, and no terminator is rewritten after it unless it is the
   last line.
   */
  lemma MergedLines(def: Definition, units: Indentation, eol: seq<byte>, gs: seq<seq<byte>>)
    requires BlankUnits(units) && Shaped(def, eol, gs) && |gs| >= 2 && Settled(def, units, gs[0])
    requires JoinsNext(gs)
    requires Flatten(FixLines(def, units, eol, Lines(Flatten(gs[2..])))) == Flatten(gs[2..])
    ensures Flatten(FixLines(def, units, eol, Lines(Flatten(gs)))) == Flatten(gs)
  {
    JoinedPair(def, eol, gs);
    FlattenTwo(gs);
    var g, r2 := gs[0], Flatten(gs[2..]);
    JoinedLineSettled(def, units, g);
    LineThenRest(def, units, eol, g + [LF], r2);
  }

  /** No line or a single one: the rewritten bytes are fixed into themselves. */
  lemma RefixShort(def: Definition, units: Indentation, eol: seq<byte>, gs: seq<seq<byte>>)
    requires BlankUnits(units) && Shaped(def, eol, gs) && |gs| <= 1
    requires |gs| == 1 ==> Settled(def, units, gs[0])
    ensures Flatten(FixLines(def, units, eol, Lines(Flatten(gs)))) == Flatten(gs)
  {
    if |gs| == 0 {
      assert Flatten(gs) == [];
      assert FixLines(def, units, eol, Lines([])) == [];
    } else {
      var g := gs[0];
      assert Flatten(gs) == g + Flatten([]) == g;
      LastLineRefixed(def, units, eol, g);
    }
  }

  /** Whether the scanner reads the first two rewritten lines as one: a lone cr, then a line starting with lf. */
  predicate JoinsNext(gs: seq<seq<byte>>)
    requires |gs| > 0
  {
    EndsWithCr(gs[0]) && |Flatten(gs[1..])| > 0 && Flatten(gs[1..])[0] == LF
  }

  /** A first line the scanner ends where it ends is fixed into itself, and the rest as before. */
  lemma RefixFirstLine(def: Definition, units: Indentation, eol: seq<byte>, gs: seq<seq<byte>>)
    requires BlankUnits(units) && Shaped(def, eol, gs) && |gs| >= 2 && Settled(def, units, gs[0])
    requires !JoinsNext(gs)
    requires Flatten(FixLines(def, units, eol, Lines(Flatten(gs[1..])))) == Flatten(gs[1..])
    ensures Flatten(FixLines(def, units, eol, Lines(Flatten(gs)))) == Flatten(gs)
  {
    var g, r := gs[0], Flatten(gs[1..]);
    assert Flatten(gs) == g + r;
    LineThenRest(def, units, eol, g, r);
  }

  /** Splitting and fixing the bytes of rewritten lines gives those bytes back. */
  lemma {:induction false} RefixRewritten(def: Definition, units: Indentation, eol: seq<byte>, gs: seq<seq<byte>>)
    requires BlankUnits(units) && Rewritten(def, units, eol, gs)
    ensures Flatten(FixLines(def, units, eol, Lines(Flatten(gs)))) == Flatten(gs)
    decreases |gs|
  {
    if |gs| <= 1 {
      RefixShort(def, units, eol, gs);
    } else if JoinsNext(gs) {
      RewrittenTail(def, units, eol, gs, 2);
      RefixRewritten(def, units, eol, gs[2..]);
      MergedLines(def, units, eol, gs);
    } else {
      RewrittenTail(def, units, eol, gs, 1);
      RefixRewritten(def, units, eol, gs[1..]);
      RefixFirstLine(def, units, eol, gs);
    }
  }

  /**
   `fix` is idempotent: fixing the file it wrote changes nothing, when
   `eol` is the terminator `end_of_line` names or `end_of_line` is empty.
   */
  lemma FixIdempotent(content: seq<byte>, def: Definition, eol: seq<byte>)
    requires IndentUnits(def).Ok?
    requires || ((def.config.endOfLine == "lf" || def.config.endOfLine == "crlf" || def.config.endOfLine == "cr")
                 && eol == EolBytes(def.config.endOfLine))
             || def.config.endOfLine == ""
    ensures Fix(content, def, Some(eol)).Ok?
    ensures Fix(Fix(content, def, Some(eol)).value, def, Some(eol)) == Fix(content, def, Some(eol))
  {
    var units := IndentUnits(def).value;
    LinesWellFormed(content);
    FixLinesRewritten(def, units, eol, Lines(content));
    RefixRewritten(def, units, eol, FixLines(def, units, eol, Lines(content)));
  }

  // ---------------------------------------------------------------- examples

  /** The one-line file of the indentation tests: two tabs, two spaces, a tab, then "A line". */
  const INDENT_SAMPLE: seq<byte> := [TAB, TAB, SPACE, SPACE, TAB] + A_LINE

  /** The rest of that line: "A line" and its lf. */
  const A_LINE: seq<byte> := [0x41, 0x20, 0x6C, 0x69, 0x6E, 0x65, LF]

  /** The section of the indentation tests: lf terminators, the given style, units of 2. */
  function IndentSection(style: string): EditorConfig {
    EditorConfig("", "lf", style, "2", 0, None, None, map[])
  }

  /** The definition of the indentation tests keeps the style and reads the size 2. */
  lemma IndentSectionDefinition(style: string)
    requires style == TAB_VALUE || style == SPACE_VALUE
    ensures NewDefinition(IndentSection(style)).Ok?
    ensures var def := NewDefinition(IndentSection(style)).value;
      && def.indentSize == 2 && def.tabWidth == 0 && def.config.indentStyle == style
      && def.config.endOfLine == "lf" && def.config.trimTrailingWhitespace.None?
  {
    assert DigitsValue("2") == 2 by { assert "2"[..0] == ""; }
    assert Atoi("2") == Some(2);
    assert !BlockCommentsApply(IndentSection(style));
  }

  /** The scanner yields the sample as its only line. */
  lemma IndentSampleLines()
    ensures Lines(INDENT_SAMPLE) == [INDENT_SAMPLE]
  {
    FirstEolIs(INDENT_SAMPLE, |INDENT_SAMPLE| - 1);
    assert INDENT_SAMPLE[|INDENT_SAMPLE| - 1..] == [LF];
    assert Flatten([INDENT_SAMPLE]) == INDENT_SAMPLE;
    LinesOfFlatten([INDENT_SAMPLE]);
  }

  /** The indentation of the sample is four units: tab, tab, two spaces, tab. */
  lemma SampleScan(c: seq<byte>, x: seq<byte>)
    requires (c == [TAB] && x == [SPACE, SPACE]) || (c == [SPACE, SPACE] && x == [TAB])
    ensures PrefixScan(INDENT_SAMPLE, c, x) == UnitScan(4, 5)
  {
    var r3 := [TAB] + A_LINE;
    var r2 := [SPACE, SPACE] + r3;
    var r1 := [TAB] + r2;
    assert INDENT_SAMPLE == [TAB] + r1;
    SampleStep(A_LINE, c, x, 0x41);
    UnitStep(r3, [TAB], c, x, A_LINE);
    assert PrefixScan(r3, c, x) == UnitScan(1, 1);
    UnitStep(r2, [SPACE, SPACE], c, x, r3);
    assert PrefixScan(r2, c, x) == UnitScan(2, 3);
    UnitStep(r1, [TAB], c, x, r2);
    assert PrefixScan(r1, c, x) == UnitScan(3, 4);
    UnitStep(INDENT_SAMPLE, [TAB], c, x, r1);
  }

  /** Data opening with a byte that starts neither unit scans to nothing. */
  lemma SampleStep(d: seq<byte>, c: seq<byte>, x: seq<byte>, b: byte)
    requires |c| > 0 && |x| > 0 && |d| > 0 && d[0] == b && b != c[0] && b != x[0]
    ensures PrefixScan(d, c, x) == UnitScan(0, 0)
  {
    if |c| <= |d| {
      assert d[..|c|][0] == b;
    }
    if |x| <= |d| {
      assert d[..|x|][0] == b;
    }
  }

  /** Data opening with a whole unit `u` scans one unit further than the rest. */
  lemma UnitStep(d: seq<byte>, u: seq<byte>, c: seq<byte>, x: seq<byte>, rest: seq<byte>)
    requires |c| > 0 && |x| > 0 && (u == c || u == x) && d == u + rest
    requires u == x ==> u[0] != c[0]
    ensures PrefixScan(d, c, x) == UnitScan(PrefixScan(rest, c, x).units + 1, |u| + PrefixScan(rest, c, x).covered)
  {
    assert d[..|u|] == u;
    assert d[|u|..] == rest;
    if u == x && |c| <= |d| {
      assert d[..|c|][0] == u[0];
    }
  }

  /** Four units of `c`. */
  lemma FourUnits(c: seq<byte>)
    ensures RepeatSeq(c, 4) == c + c + c + c
  {
    assert RepeatSeq(c, 1) == c;
    assert RepeatSeq(c, 2) == c + c;
    assert RepeatSeq(c, 3) == c + c + c;
  }

  /** The sample converted to the unit `c`: four of them, then "A line". */
  lemma SamplePrefixFixed(c: seq<byte>, x: seq<byte>)
    requires (c == [TAB] && x == [SPACE, SPACE]) || (c == [SPACE, SPACE] && x == [TAB])
    ensures FixTabAndSpacePrefix(INDENT_SAMPLE, c, x) == c + c + c + c + A_LINE
  {
    SampleScan(c, x);
    FourUnits(c);
  }

  /** On a file of one line, `fix` writes that line fixed as the last one. */
  lemma FixOneLine(content: seq<byte>, def: Definition, eol: seq<byte>)
    requires Lines(content) == [content]
    requires IndentUnits(def).Ok?
    ensures Fix(content, def, Some(eol)) == Ok(FixLine(def, IndentUnits(def).value, eol, content, true))
  {
    var fixed := FixLines(def, IndentUnits(def).value, eol, [content]);
    assert |fixed| == 1 && fixed[0] == FixLine(def, IndentUnits(def).value, eol, content, true);
    assert fixed == [fixed[0]];
    assert fixed[1..] == [];
    assert Flatten(fixed) == fixed[0] + Flatten(fixed[1..]);
    assert Flatten(fixed) == fixed[0];
    assert Fix(content, def, Some(eol)) == Ok(Flatten(FixLines(def, IndentUnits(def).value, eol, Lines(content))));
  }

  /** On a file of two lines, `fix` writes the first fixed as an inner line and the second as the last. */
  lemma FixTwoLines(content: seq<byte>, def: Definition, eol: seq<byte>, first: seq<byte>, last: seq<byte>)
    requires Lines(content) == [first, last]
    requires IndentUnits(def).Ok?
    ensures var units := IndentUnits(def).value;
      Fix(content, def, Some(eol)) == Ok(FixLine(def, units, eol, first, false) + FixLine(def, units, eol, last, true))
  {
    var units := IndentUnits(def).value;
    var fixed := FixLines(def, units, eol, [first, last]);
    assert fixed == [FixLine(def, units, eol, first, false), FixLine(def, units, eol, last, true)];
    assert fixed[1..] == [fixed[1]] && fixed[1..][1..] == [];
    assert Flatten(fixed[1..]) == fixed[1] + Flatten([]);
    assert Flatten(fixed) == fixed[0] + fixed[1];
    assert Fix(content, def, Some(eol)) == Ok(Flatten(FixLines(def, units, eol, Lines(content))));
  }

  /** A section converting to tab indentation in units of two spaces, with `end_of_line = unset`. */
  const UNSET_EOL_DEFINITION: Definition :=
    Definition(EditorConfig("", UNSET_VALUE, TAB_VALUE, "2", 0, None, None, map[]), None, None, None, 0, 0, 2)

  /** The byte of "x". */
  const X_BYTE: byte := 0x78

  /** The scanner splits " \n x\n" at its first lf. */
  lemma UnsetEolSampleLines(first: seq<byte>, last: seq<byte>)
    requires first == [SPACE, LF] && last == [SPACE, X_BYTE, LF]
    ensures Lines(first + last) == [first, last]
  {
    FirstEolIs(first, 1);
    FirstEolIs(last, 2);
    SplitAtLine(first, last, true);
    assert (first + last)[|first|..] == last;
    LinesOfOneLine(last);
    assert Lines(first + last) == [first] + Lines(last);
  }

  /** "  x\n" is read as one line. */
  lemma JoinedSampleLines(joined: seq<byte>)
    requires joined == [SPACE, SPACE, X_BYTE, LF]
    ensures Lines(joined) == [joined]
  {
    FirstEolIs(joined, 3);
    LinesOfOneLine(joined);
  }

  /** The units of the sample definition: a tab in place of two spaces. */
  lemma UnsetEolUnits()
    ensures IndentUnits(UNSET_EOL_DEFINITION) == Ok(Units([TAB], [SPACE, SPACE]))
  {
    assert Repeat(SPACE, 2) == [SPACE, SPACE];
  }

  /** The first pass on " \n": no unit to convert, and its lf gives way to the empty terminator. */
  lemma UnsetEolFirstLine(def: Definition, units: Indentation, l: seq<byte>)
    requires def == UNSET_EOL_DEFINITION && units == Units([TAB], [SPACE, SPACE])
    requires l == [SPACE, LF]
    ensures FixLine(def, units, [], l, false) == [SPACE]
  {
    assert l[..1][0] != units.c[0] && l[..2][1] != units.x[1];
    assert PrefixScan(l, units.c, units.x) == UnitScan(0, 0);
    assert RepeatSeq(units.c, 0) == [];
    TrailingEolCountIs(l, 1);
  }

  /** The first pass on " x\n", the last line: a lone space is no unit, so nothing changes. */
  lemma UnsetEolLastLine(def: Definition, units: Indentation, l: seq<byte>)
    requires def == UNSET_EOL_DEFINITION && units == Units([TAB], [SPACE, SPACE])
    requires l == [SPACE, X_BYTE, LF]
    ensures FixLine(def, units, [], l, true) == l
  {
    assert l[..1][0] != units.c[0] && l[..2][1] != units.x[1];
    assert PrefixScan(l, units.c, units.x) == UnitScan(0, 0);
    assert RepeatSeq(units.c, 0) == [];
  }

  /** The second pass: the two joined spaces are one unit, written as a tab. */
  lemma UnsetEolSecondPass(def: Definition, units: Indentation, l: seq<byte>)
    requires def == UNSET_EOL_DEFINITION && units == Units([TAB], [SPACE, SPACE])
    requires l == [SPACE, SPACE, X_BYTE, LF]
    ensures FixLine(def, units, [], l, true) == [TAB, X_BYTE, LF]
  {
    var c, x := units.c, units.x;
    assert l[..2] == x && l[2..][..1][0] != c[0] && l[2..][..2][1] != x[1];
    assert PrefixScan(l[2..], c, x) == UnitScan(0, 0);
    assert PrefixScan(l, c, x) == UnitScan(1, 2);
    assert RepeatSeq(c, 1) == c + RepeatSeq(c, 0);
  }

  /** The first pass writes " \n x\n" as "  x\n". */
  lemma UnsetEolFixJoins(def: Definition, first: seq<byte>, last: seq<byte>, content: seq<byte>, joined: seq<byte>)
    requires def == UNSET_EOL_DEFINITION
    requires first == [SPACE, LF] && last == [SPACE, X_BYTE, LF] && content == first + last
    requires joined == [SPACE] + last
    ensures Fix(content, def, Some([])) == Ok(joined)
  {
    UnsetEolUnits();
    var units := IndentUnits(def).value;
    UnsetEolSampleLines(first, last);
    UnsetEolFirstLine(def, units, first);
    UnsetEolLastLine(def, units, last);
    FixTwoLines(content, def, [], first, last);
  }

  /** The second pass writes "  x\n" as "\tx\n". */
  lemma UnsetEolFixConverts(def: Definition, joined: seq<byte>, out: seq<byte>)
    requires def == UNSET_EOL_DEFINITION
    requires joined == [SPACE, SPACE, X_BYTE, LF] && out == [TAB, X_BYTE, LF]
    ensures Fix(joined, def, Some([])) == Ok(out)
  {
    UnsetEolUnits();
    JoinedSampleLines(joined);
    UnsetEolSecondPass(def, IndentUnits(def).value, joined);
    FixOneLine(joined, def, []);
  }

  /**
   `fix` is not idempotent when `eol` is empty while `end_of_line` is set
   (as with "unset"): the empty terminator joins " " to the next line,
   and the second pass converts the two spaces the join brought together.
   */
  lemma EmptyEolNotIdempotent(content: seq<byte>, def: Definition)
    requires content == [SPACE, LF, SPACE, X_BYTE, LF] && def == UNSET_EOL_DEFINITION
    ensures var once := Fix(content, def, Some([]));
      once.Ok? && Fix(once.value, def, Some([])) != once
  {
    var first: seq<byte> := [SPACE, LF];
    var last: seq<byte> := [SPACE, X_BYTE, LF];
    var joined: seq<byte> := [SPACE] + last;
    var out: seq<byte> := [TAB, X_BYTE, LF];
    UnsetEolFixJoins(def, first, last, content, joined);
    UnsetEolFixConverts(def, joined, out);
    assert out[0] != joined[0];
  }

  /**
   The indentation tests: the sample fails the configured style, and
   `fix` converts its indentation so that it passes.
   */
  lemma FixIndentSample(style: string, def: Definition)
    requires style == TAB_VALUE || style == SPACE_VALUE
    requires NewDefinition(IndentSection(style)) == Ok(def)
    ensures IndentStyle(style, def.indentSize, INDENT_SAMPLE).Fail?
    ensures var c := if style == TAB_VALUE then [TAB] else [SPACE, SPACE];
      && Fix(INDENT_SAMPLE, def, Some([LF])) == Ok(c + c + c + c + A_LINE)
      && c + c + c + c + A_LINE != INDENT_SAMPLE
      && IndentStyle(style, def.indentSize, c + c + c + c + A_LINE).Pass?
  {
    IndentSectionDefinition(style);
    IndentSampleLines();
    var c: seq<byte> := if style == TAB_VALUE then [TAB] else [SPACE, SPACE];
    var x: seq<byte> := if style == TAB_VALUE then [SPACE, SPACE] else [TAB];
    assert Repeat(SPACE, 2) == [SPACE, SPACE];
    assert IndentUnits(def) == Ok(Units(c, x));
    FixOneLine(INDENT_SAMPLE, def, [LF]);
    SamplePrefixFixed(c, x);
    var out := c + c + c + c + A_LINE;
    SampleVerdicts(style, c, out);
  }

  /** The verdicts of `indentStyle` on the sample and on its conversion. */
  lemma SampleVerdicts(style: string, c: seq<byte>, out: seq<byte>)
    requires style == TAB_VALUE || style == SPACE_VALUE
    requires c == if style == TAB_VALUE then [TAB] else [SPACE, SPACE]
    requires out == c + c + c + c + A_LINE
    ensures IndentStyle(style, 2, INDENT_SAMPLE).Fail?
    ensures out != INDENT_SAMPLE && IndentStyle(style, 2, out).Pass?
  {
    if style == TAB_VALUE {
      LeadingCountIs(INDENT_SAMPLE, TAB, 2);
      LeadingCountIs(out, TAB, 4);
      assert out[2] != INDENT_SAMPLE[2];
    } else {
      LeadingCountIs(INDENT_SAMPLE, SPACE, 0);
      LeadingCountIs(out, SPACE, 8);
      assert out[0] != INDENT_SAMPLE[0];
    }
  }

  /** "A file", the first line of the end-of-line tests. */
  const A_FILE: seq<byte> := [0x41, 0x20, 0x66, 0x69, 0x6C, 0x65]

  /** "With many lines", their last line, left unterminated. */
  const MANY_LINES: seq<byte> := [0x57, 0x69, 0x74, 0x68, 0x20, 0x6D, 0x61, 0x6E, 0x79, 0x20, 0x6C, 0x69, 0x6E, 0x65, 0x73]

  /** The section of the end-of-line tests: only `end_of_line` is set. */
  function EolSection(eol: string): EditorConfig {
    EditorConfig("", eol, "", "", 0, None, None, map[])
  }

  /** The definition of that section converts no indentation and trims nothing. */
  lemma EolSectionDefinition(eol: string)
    ensures NewDefinition(EolSection(eol)).Ok?
    ensures var def := NewDefinition(EolSection(eol)).value;
      && IndentUnits(def) == Ok(NoIndentFix) && def.config.endOfLine == eol
      && def.config.trimTrailingWhitespace.None?
  {
    assert !BlockCommentsApply(EolSection(eol));
  }

  /** The scanner splits the two-line file at its lf. */
  lemma EolSampleLines(content: seq<byte>)
    requires content == A_FILE + [LF] + MANY_LINES
    ensures Lines(content) == [A_FILE + [LF], MANY_LINES]
  {
    var ls := [A_FILE + [LF], MANY_LINES];
    EolSampleWellFormed();
    EolSampleFlatten();
    LinesOfFlatten(ls);
  }

  lemma EolSampleWellFormed()
    ensures WellFormedLines([A_FILE + [LF], MANY_LINES])
  {
    var first := A_FILE + [LF];
    assert first[..|A_FILE|] == A_FILE;
    FirstEolIs(first, |A_FILE|);
    assert first[|A_FILE|..] == [LF];
    assert Terminated(first) && !EndsWithCr(first);
    assert NoEol(MANY_LINES);
  }

  lemma EolSampleFlatten()
    ensures Flatten([A_FILE + [LF], MANY_LINES]) == A_FILE + [LF] + MANY_LINES
  {
    var ls := [A_FILE + [LF], MANY_LINES];
    assert ls[1..] == [MANY_LINES];
    assert Flatten(ls[1..]) == MANY_LINES + Flatten([]);
  }

  /** The first line of the sample without its lf. */
  lemma AFileTrimmed()
    ensures TrimRightEol(A_FILE + [LF]) == A_FILE
  {
    var s := A_FILE + [LF];
    TrailingEolCountIs(s, 1);
    assert s[..|s| - 1] == A_FILE;
  }

  /** Without indentation or trim rules, a line other than the last gets the new terminator. */
  lemma RewrittenTerminator(def: Definition, eol: seq<byte>, data: seq<byte>)
    requires def.config.trimTrailingWhitespace != Some(true) && def.config.endOfLine != ""
    ensures FixLine(def, NoIndentFix, eol, data, false) == TrimRightEol(data) + eol
  {
  }

  /**
   The end-of-line test under `end_of_line = lf` (a definition as
   `EolSectionDefinition` describes): the lf file is written back unchanged.
   */
  lemma FixEolSampleKept(def: Definition, content: seq<byte>)
    requires IndentUnits(def) == Ok(NoIndentFix) && def.config.trimTrailingWhitespace.None?
    requires def.config.endOfLine == "lf"
    requires content == A_FILE + [LF] + MANY_LINES
    ensures Fix(content, def, Some([LF])) == Ok(content)
  {
    EolSampleLines(content);
    AFileTrimmed();
    FixKeepsConformingContent(content, def, [LF]);
  }

  /** The two lines of the end-of-line sample as `fix` writes them under crlf. */
  lemma EolSampleLinesConverted(def: Definition)
    requires def.config.trimTrailingWhitespace.None? && def.config.endOfLine == "crlf"
    ensures FixLine(def, NoIndentFix, [CR, LF], A_FILE + [LF], false) == A_FILE + [CR, LF]
    ensures FixLine(def, NoIndentFix, [CR, LF], MANY_LINES, true) == MANY_LINES
  {
    AFileTrimmed();
    RewrittenTerminator(def, [CR, LF], A_FILE + [LF]);
    NoRulesKeepLineText(def, [CR, LF], MANY_LINES, true);
  }

  /** The same file under `end_of_line = crlf`: its lf becomes a crlf. */
  lemma FixEolSampleConverted(def: Definition, content: seq<byte>)
    requires IndentUnits(def) == Ok(NoIndentFix) && def.config.trimTrailingWhitespace.None?
    requires def.config.endOfLine == "crlf"
    requires content == A_FILE + [LF] + MANY_LINES
    ensures Fix(content, def, Some([CR, LF])) == Ok(A_FILE + [CR, LF] + MANY_LINES)
  {
    EolSampleLines(content);
    FixTwoLines(content, def, [CR, LF], A_FILE + [LF], MANY_LINES);
    EolSampleLinesConverted(def);
  }
}
