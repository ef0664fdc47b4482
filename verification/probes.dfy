/**
 The probes run on the first bytes of a file before it is checked
 (probes.go): a magic-number test for PDF, a UTF-8 shape test that
 flags binary content, the byte-order-mark table and the comparison of
 the declared charset with what the bytes show.
 */
module Probes {
  import opened Bytes
  import opened Errors
  import opened Settings
  import opened Validators

  /** How many bytes the probes look at. */
  const PEEK_SIZE: nat := 512

  /** `%PDF-`. */
  const PDF_MAGIC: seq<byte> := [0x25, 0x50, 0x44, 0x46, 0x2D]

  /** `probeMagic`: the bytes begin like a PDF document, with the text `%PDF-`. */
  function ProbeMagic(bs: seq<byte>): (r: bool)
    ensures r <==> 5 <= |bs| && bs[..5] == FromString("%PDF-")
    ensures r ==> bs[0] == 0x25
  {
    PdfMagicIsText();
    HasPrefix(bs, PDF_MAGIC)
  }

  /** The magic bytes are the ASCII encoding of `%PDF-`. */
  lemma PdfMagicIsText()
    ensures FromString("%PDF-") == PDF_MAGIC
  {
    var m := FromString("%PDF-");
    AsciiByte('%', 0x25);
    AsciiByte('P', 0x50);
    AsciiByte('D', 0x44);
    AsciiByte('F', 0x46);
    AsciiByte('-', 0x2D);
    assert m[0] == 0x25 && m[1] == 0x50 && m[2] == 0x44 && m[3] == 0x46 && m[4] == 0x2D;
  }

  // ---------------------------------------------------------------- binary

  /** The number of continuation bytes a leading byte announces, 0 for any other byte. */
  function LeaderCount(b: byte): nat {
    if b & 0xE0 == 0xC0 then 1
    else if b & 0xF0 == 0xE0 then 2
    else if b & 0xF8 == 0xF0 then 3
    else 0
  }

  predicate AllContinuations(s: seq<byte>) {
    forall k :: 0 <= k < |s| ==> IsContinuation(s[k])
  }

  /**
   The byte shapes `probeBinary` accepts: ASCII bytes, and a leading
   byte followed by exactly the continuation bytes it announces; a
   stray continuation byte is refused, and bytes 0xF8 to 0xFF stand
   alone. When `cut`, the bytes are a window cut from a longer input
   and a sequence the window's end truncates is accepted too.
   */
  predicate WellShaped(s: seq<byte>, cut: bool)
    decreases |s|
  {
    if |s| == 0 then true
    else if s[0] & 0x80 == 0 then WellShaped(s[1..], cut)
    else if IsContinuation(s[0]) then false
    else
      var n := LeaderCount(s[0]);
      if n < |s| then AllContinuations(s[1..n + 1]) && WellShaped(s[n + 1..], cut)
      else cut && AllContinuations(s[1..])
  }

  /**
   `probeBinary`: any byte shape but the accepted ones marks the content
   as binary, including a sequence truncated by the end of the bytes.
   */
  function ProbeBinary(bs: seq<byte>): (r: bool)
    ensures r <==> !WellShaped(bs, false)
  {
    BinaryScanSpec(bs, 0, false);
    assert bs[0..] == bs;
    BinaryScan(bs, 0, 0, false)
  }

  /**
   The outer loop of `probeBinary` at index `i` with `cont` continuation
   bytes still owed. With `cut`, a sequence still owing bytes at the end
   is not held against the content: the corrected probe of a window.
   */
  function BinaryScan(bs: seq<byte>, i: nat, cont: nat, cut: bool): bool
    requires i <= |bs| && (i < |bs| ==> cont == 0)
    decreases |bs| - i, 1
  {
    if i >= |bs| then cont > 0 && !cut
    else
      var b := bs[i];
      if b & 0x80 == 0x00 then BinaryScan(bs, i + 1, cont, cut)
      else if b & 0xC0 == 0x80 then true
      else if b & 0xE0 == 0xC0 then ContinuationScan(bs, i, 1, cut)
      else if b & 0xF0 == 0xE0 then ContinuationScan(bs, i, 2, cut)
      else if b & 0xF8 == 0xF0 then ContinuationScan(bs, i, 3, cut)
      else if b == 0x00 then assert false; true
      else ContinuationScan(bs, i, cont, cut)
  }

  /** The inner loop of `probeBinary`: the `cont` bytes after index `i` must be continuation bytes. */
  function ContinuationScan(bs: seq<byte>, i: nat, cont: nat, cut: bool): bool
    requires i < |bs|
    decreases |bs| - i, 0
  {
    if cont > 0 && i < |bs| - 1 then
      if bs[i + 1] & 0xC0 != 0x80 then true
      else ContinuationScan(bs, i + 1, cont - 1, cut)
    else BinaryScan(bs, i + 1, cont, cut)
  }

  /** What the inner loop decides: the owed bytes are there and continuations, and the rest is well shaped. */
  predicate OwedBytesFine(bs: seq<byte>, i: nat, c: nat, cut: bool)
    requires i < |bs|
  {
    if c < |bs| - i then AllContinuations(bs[i + 1..i + c + 1]) && WellShaped(bs[i + c + 1..], cut)
    else cut && AllContinuations(bs[i + 1..])
  }

  /** The scan flags exactly the byte sequences that are not well shaped. */
  lemma {:induction false} BinaryScanSpec(bs: seq<byte>, i: nat, cut: bool)
    requires i <= |bs|
    ensures BinaryScan(bs, i, 0, cut) <==> !WellShaped(bs[i..], cut)
    decreases |bs| - i, 1
  {
    if i < |bs| {
      var s := bs[i..];
      var b := bs[i];
      assert s[0] == b && s[1..] == bs[i + 1..];
      if b & 0x80 == 0 {
        BinaryScanSpec(bs, i + 1, cut);
      } else if b & 0xC0 == 0x80 {
        assert IsContinuation(s[0]);
      } else {
        var n := LeaderCount(b);
        assert !IsContinuation(b);
        ContinuationScanSpec(bs, i, n, cut);
        assert n < |s| ==> s[1..n + 1] == bs[i + 1..i + n + 1] && s[n + 1..] == bs[i + n + 1..];
      }
    }
  }

  lemma {:induction false} ContinuationScanSpec(bs: seq<byte>, i: nat, c: nat, cut: bool)
    requires i < |bs|
    ensures ContinuationScan(bs, i, c, cut) <==> !OwedBytesFine(bs, i, c, cut)
    decreases |bs| - i, 0
  {
    if c > 0 && i < |bs| - 1 {
      if bs[i + 1] & 0xC0 != 0x80 {
        assert !IsContinuation(bs[i + 1]);
        if c < |bs| - i {
          assert bs[i + 1..i + c + 1][0] == bs[i + 1];
        } else {
          assert bs[i + 1..][0] == bs[i + 1];
        }
      } else {
        ContinuationScanSpec(bs, i + 1, c - 1, cut);
        if c < |bs| - i {
          assert bs[i + 1..i + c + 1] == [bs[i + 1]] + bs[i + 2..i + c + 1];
        } else {
          assert bs[i + 1..] == [bs[i + 1]] + bs[i + 2..];
        }
      }
    } else if c == 0 {
      BinaryScanSpec(bs, i + 1, cut);
      assert bs[i + 1..i + 1] == [];
    } else {
      assert bs[i + 1..] == [];
    }
  }

  /** ASCII never looks binary, the NUL byte included. */
  lemma {:induction false} AsciiIsWellShaped(s: seq<byte>, cut: bool)
    requires forall k :: 0 <= k < |s| ==> s[k] < 0x80
    ensures WellShaped(s, cut)
    decreases |s|
  {
    if |s| > 0 {
      assert s[0] & 0x80 == 0 by { assert s[0] < 0x80; }
      AsciiIsWellShaped(s[1..], cut);
    }
  }

  /** Contents the probe is expected to flag, and one it must not. */
  lemma ProbeBinaryExamples()
    ensures ProbeBinary([0xAC, 0x82, 0xE2])
    ensures ProbeBinary([0xE2, 0x82])
    ensures ProbeBinary([0x9F, 0x92, 0xA9])
    ensures ProbeBinary([0xF0, 0x9F, 0x92])
    ensures !ProbeBinary([0x68, 0x69, 0x20, 0xF0, 0x9F, 0x92, 0xA9, 0x21])
    ensures !ProbeBinary([0x00]) && !ProbeBinary([0xFF])
  {
  }

  /** A window of well-shaped content is well shaped as a cut window. */
  lemma {:induction false} WindowOfWellShaped(s: seq<byte>, n: nat)
    requires WellShaped(s, false) && n <= |s|
    ensures WellShaped(s[..n], true)
    decreases |s|
  {
    if n > 0 {
      var w := s[..n];
      assert w[0] == s[0];
      if s[0] & 0x80 == 0 {
        WindowOfWellShaped(s[1..], n - 1);
        assert w[1..] == s[1..][..n - 1];
      } else {
        var k := LeaderCount(s[0]);
        if k < n {
          assert w[1..k + 1] == s[1..k + 1];
          WindowOfWellShaped(s[k + 1..], n - k - 1);
          assert w[k + 1..] == s[k + 1..][..n - k - 1];
        } else {
          assert w[1..] == s[1..k + 1][..n - 1];
        }
      }
    }
  }

  // ---------------------------------------------------------------- byte-order marks

  /** The charsets a byte-order mark can announce. */
  predicate IsBomCharset(cs: string) {
    cs in {"utf-32le", "utf-32be", "utf-16le", "utf-16be", "utf-8 bom"}
  }

  /** The byte-order mark of each charset that has one. */
  function BomOf(cs: string): seq<byte>
    requires IsBomCharset(cs)
  {
    if cs == "utf-32le" then UTF32LE_BOM
    else if cs == "utf-32be" then UTF32BE_BOM
    else if cs == "utf-16le" then UTF16LE_BOM
    else if cs == "utf-16be" then UTF16BE_BOM
    else UTF8_BOM
  }

  /**
   `detectCharsetUsingBOM`: the byte-order marks are tried in the order
   utf-32le, utf-32be, utf-16le, utf-16be, utf-8; "" when none matches.
   */
  function DetectCharsetUsingBOM(data: seq<byte>): (cs: string)
    ensures cs == "" || (IsBomCharset(cs) && HasPrefix(data, BomOf(cs)))
    ensures cs == "" <==> forall c :: IsBomCharset(c) ==> !HasPrefix(data, BomOf(c))
  {
    if HasPrefix(data, UTF32LE_BOM) then "utf-32le"
    else if HasPrefix(data, UTF32BE_BOM) then "utf-32be"
    else if HasPrefix(data, UTF16LE_BOM) then "utf-16le"
    else if HasPrefix(data, UTF16BE_BOM) then "utf-16be"
    else if HasPrefix(data, UTF8_BOM) then "utf-8 bom"
    else ""
  }

  /**
   Content that starts with a charset's byte-order mark is detected as
   that charset, except that a utf-16le mark followed by two zero bytes
   reads as the utf-32le mark.
   */
  lemma DetectBomOfPrefixed(cs: string, rest: seq<byte>)
    requires IsBomCharset(cs)
    ensures cs != "utf-16le" || !HasPrefix(rest, [0x00, 0x00]) ==> DetectCharsetUsingBOM(BomOf(cs) + rest) == cs
    ensures cs == "utf-16le" && HasPrefix(rest, [0x00, 0x00]) ==> DetectCharsetUsingBOM(BomOf(cs) + rest) == "utf-32le"
  {
    var d := BomOf(cs) + rest;
    assert d[..|BomOf(cs)|] == BomOf(cs);
    assert d[0] == BomOf(cs)[0];
    if cs == "utf-16le" {
      if |d| >= 4 && d[..4] == UTF32LE_BOM {
        assert rest[..2] == d[2..4];
        assert HasPrefix(rest, [0x00, 0x00]);
      }
      if HasPrefix(rest, [0x00, 0x00]) {
        assert d[..4] == UTF32LE_BOM;
      }
    } else if cs == "utf-32be" {
      assert !HasPrefix(d, UTF32LE_BOM);
    }
  }

  // ---------------------------------------------------------------- charset

  /**
   `detectCharset` around the statistical detector, which is a parameter
   here: `None` when it fails, otherwise the names of the charsets it
   found plausible. "utf-8" needs a "UTF-8" among them and "latin1" an
   "ISO-8859-" charset; any other declared charset is refused.
   */
  function DetectCharset(charset: string, data: seq<byte>, detector: seq<byte> -> Option<seq<string>>): (r: Result<string>)
    ensures charset == "" ==> r == Ok("")
    ensures r.Ok? ==> r.value == charset
    ensures charset != "" && detector(data).None? ==> r == Err(Plain(DetectorFailure))
    ensures charset != "" && detector(data).Some? ==>
      (r.Ok? <==> (charset == UTF8 && "UTF-8" in detector(data).value)
                  || (charset == LATIN1 && exists c :: c in detector(data).value && HasPrefix(c, "ISO-8859-")))
    ensures r.Err? && detector(data).Some? ==> r.error == Configuration(UnsupportedCharset(charset))
  {
    if charset == "" then Ok(charset)
    else
      match detector(data)
      case None => Err(Plain(DetectorFailure))
      case Some(results) =>
        var hasLatin1 := exists c :: c in results && HasPrefix(c, "ISO-8859-");
        var hasUtf8 := exists c :: c in results && !HasPrefix(c, "ISO-8859-") && c == "UTF-8";
        if hasUtf8 && charset == UTF8 then Ok(charset)
        else if hasLatin1 && charset == LATIN1 then Ok(charset)
        else Err(Configuration(UnsupportedCharset(charset)))
  }

  /**
   `probeCharset`: empty content keeps the declared charset; a declared
   charset other than utf-8 and latin1 must be announced by the
   byte-order mark; utf-8 and latin1 go to the detector. A mismatch is a
   validation finding at position 0.
   */
  function ProbeCharset(bs: seq<byte>, charset: string, detector: seq<byte> -> Option<seq<string>>): (r: Result<string>)
    ensures |bs| == 0 ==> r == Ok(charset)
    ensures r.Ok? && charset != "" ==> r.value == charset
    ensures r.Ok? && charset == "" ==> r.value == DetectCharsetUsingBOM(bs) || |bs| == 0
    ensures |bs| > 0 && charset !in {"", UTF8, LATIN1} ==>
      if DetectCharsetUsingBOM(bs) == charset then r == Ok(charset)
      else r == Err(Invalid(BomPrefixMissing(charset, DetectCharsetUsingBOM(bs)), 0))
    ensures |bs| > 0 && charset in {UTF8, LATIN1} ==>
      r == DetectCharset(charset, bs, detector)
  {
    if |bs| == 0 then Ok(charset)
    else
      var cs := if charset != UTF8 && charset != LATIN1 then DetectCharsetUsingBOM(bs) else "";
      if charset != UTF8 && charset != LATIN1 && charset != "" && cs != charset then
        Err(Invalid(BomPrefixMissing(charset, cs), 0))
      else if cs == "" && charset != "" then
        match DetectCharset(charset, bs, detector)
        case Err(e) => Err(e)
        case Ok(c) =>
          if charset != c then Err(Invalid(CharsetMismatch(c, charset), 0))
          else Ok(c)
      else Ok(cs)
  }

  /** The detected-charset mismatch finding is never produced: the detector's answer is the declared charset. */
  lemma ProbeCharsetNeverReportsMismatch(bs: seq<byte>, charset: string, detector: seq<byte> -> Option<seq<string>>)
    ensures var r := ProbeCharset(bs, charset, detector);
      !(r.Err? && r.error.Validation? && r.error.ve.message.CharsetMismatch?)
  {
  }

  // ---------------------------------------------------------------- the probe

  /** The bytes the probes see: at most the first 512. */
  function Peek(content: seq<byte>): (bs: seq<byte>)
    ensures HasPrefix(content, bs) && |bs| == if |content| < PEEK_SIZE then |content| else PEEK_SIZE
  {
    if |content| < PEEK_SIZE then content else content[..PEEK_SIZE]
  }

  /**
   `ProbeCharsetOrBinary`: content that looks like a PDF or binary is
   reported binary, with no charset and no error; otherwise the charset
   probe decides, and its error is passed on.
   */
  function ProbeCharsetOrBinary(content: seq<byte>, charset: string,
                                detector: seq<byte> -> Option<seq<string>>): (r: Result<(string, bool)>)
    ensures ProbeMagic(Peek(content)) || ProbeBinary(Peek(content)) ==> r == Ok(("", true))
    ensures !(ProbeMagic(Peek(content)) || ProbeBinary(Peek(content))) ==>
      match ProbeCharset(Peek(content), charset, detector)
      case Ok(cs) => r == Ok((cs, false))
      case Err(e) => r == Err(e)
  {
    var bs := Peek(content);
    var isBinary := ProbeMagic(bs) || ProbeBinary(bs);
    if isBinary then Ok(("", true))
    else
      match ProbeCharset(bs, charset, detector)
      case Err(e) => Err(e)
      case Ok(cs) => Ok((cs, false))
  }

  /**
   The probe with a window cut from a longer file judged as a window: a
   multi-byte sequence that the 512-byte window truncates is not taken
   as a sign of binary content.
   */
  function ProbeCharsetOrBinaryFixed(content: seq<byte>, charset: string,
                                     detector: seq<byte> -> Option<seq<string>>): (r: Result<(string, bool)>)
    ensures |content| <= PEEK_SIZE ==> r == ProbeCharsetOrBinary(content, charset, detector)
    ensures r.Ok? && r.value.1 ==> r == Ok(("", true))
  {
    var bs := Peek(content);
    var isBinary := ProbeMagic(bs) || BinaryScan(bs, 0, 0, |content| > PEEK_SIZE);
    if isBinary then Ok(("", true))
    else
      match ProbeCharset(bs, charset, detector)
      case Err(e) => Err(e)
      case Ok(cs) => Ok((cs, false))
  }

  /**
   With the window judged as a window, well-shaped content is reported
   binary only when it starts like a PDF, however long it is; content
   that is itself truncated is still flagged.
   */
  lemma FixedProbeAcceptsWellShaped(content: seq<byte>, charset: string,
                                    detector: seq<byte> -> Option<seq<string>>)
    requires WellShaped(content, false)
    ensures var r := ProbeCharsetOrBinaryFixed(content, charset, detector);
      r.Ok? && r.value.1 ==> ProbeMagic(Peek(content))
  {
    var bs := Peek(content);
    BinaryScanSpec(bs, 0, |content| > PEEK_SIZE);
    assert bs[0..] == bs;
    if |content| > PEEK_SIZE {
      WindowOfWellShaped(content, PEEK_SIZE);
    } else {
      assert bs == content;
    }
  }

  /**
   As written, a file of 511 ASCII bytes followed by the two-byte
   UTF-8 encoding of "é" is reported binary: the 512-byte window ends
   after the leading byte 0xC3. The corrected probe accepts it.
   */
  lemma PeekCutFlagsTextAsBinary(content: seq<byte>)
    requires content == Repeat(0x61, 511) + [0xC3, 0xA9]
    ensures WellShaped(content, false)
    ensures ProbeCharsetOrBinary(content, "", _ => None) == Ok(("", true))
    ensures ProbeCharsetOrBinaryFixed(content, "", _ => None) == Ok(("", false))
  {
    var a := Repeat(0x61, 511);
    var bs := Peek(content);
    assert bs == a + [0xC3];
    AsciiPrefix(a, [0xC3, 0xA9], false);
    AsciiPrefix(a, [0xC3], false);
    AsciiPrefix(a, [0xC3], true);
    assert WellShaped([0xC3, 0xA9], false) by {
      assert [0xC3, 0xA9][1..2] == [0xA9];
      assert [0xC3, 0xA9][2..] == [];
    }
    assert !WellShaped([0xC3], false);
    assert WellShaped([0xC3], true) by {
      assert [0xC3][1..] == [];
    }
    BinaryScanSpec(bs, 0, true);
    assert bs[0..] == bs;
    assert !ProbeMagic(bs) by { assert bs[0] != PDF_MAGIC[0]; }
    assert ProbeCharset(bs, "", _ => None) == Ok("") by {
      assert DetectCharsetUsingBOM(bs) == "" by {
        assert bs[0] == 0x61;
      }
    }
  }

  /** An ASCII prefix does not change whether the rest is well shaped. */
  lemma {:induction false} AsciiPrefix(a: seq<byte>, s: seq<byte>, cut: bool)
    requires forall k :: 0 <= k < |a| ==> a[k] < 0x80
    ensures WellShaped(a + s, cut) == WellShaped(s, cut)
    decreases |a|
  {
    if |a| > 0 {
      assert (a + s)[0] == a[0];
      assert a[0] & 0x80 == 0 by { assert a[0] < 0x80; }
      assert (a + s)[1..] == a[1..] + s;
      AsciiPrefix(a[1..], s, cut);
    } else {
      assert a + s == s;
    }
  }

  /** The probe tests: a declared utf-8 that the detector bears out is confirmed, and so is empty content. */
  lemma ProbeUtf8Examples(detector: seq<byte> -> Option<seq<string>>, content: seq<byte>)
    requires content == [0x68, 0x69, 0x20, 0xF0, 0x9F, 0x92, 0xA9, 0x21]
    requires detector(content) == Some(["UTF-8"])
    ensures ProbeCharsetOrBinary(content, UTF8, detector) == Ok((UTF8, false))
    ensures ProbeCharsetOrBinary([], UTF8, detector) == Ok((UTF8, false))
  {
    assert Peek(content) == content;
    assert !ProbeMagic(content) by { assert content[0] != PDF_MAGIC[0]; }
    ProbeBinaryExamples();
    assert "UTF-8" in detector(content).value;
  }

  /** The probe tests: content starting with the declared charset's byte-order mark is confirmed. */
  lemma ProbeBomExamples(detector: seq<byte> -> Option<seq<string>>, cs: string, content: seq<byte>)
    requires || (cs == "utf-8 bom" && content == [0xEF, 0xBB, 0xBF, 0x68, 0x65, 0x6C, 0x6C, 0x6F, 0x2E])
             || (cs == "utf-32le" && content == [0xFF, 0xFE, 0x00, 0x00, 0x68, 0x00, 0x00, 0x00])
             || (cs == "utf-32be" && content == [0x00, 0x00, 0xFE, 0xFF, 0x00, 0x00, 0x00, 0x68])
    ensures ProbeCharsetOrBinary(content, cs, detector) == Ok((cs, false))
  {
    BomSamplesAreText(cs, content);
    DetectBomOfPrefixed(cs, content[|BomOf(cs)|..]);
    assert content == BomOf(cs) + content[|BomOf(cs)|..];
  }

  /** The byte-order-mark samples fit in the window and look like neither a PDF nor binary content. */
  lemma BomSamplesAreText(cs: string, content: seq<byte>)
    requires || (cs == "utf-8 bom" && content == [0xEF, 0xBB, 0xBF, 0x68, 0x65, 0x6C, 0x6C, 0x6F, 0x2E])
             || (cs == "utf-32le" && content == [0xFF, 0xFE, 0x00, 0x00, 0x68, 0x00, 0x00, 0x00])
             || (cs == "utf-32be" && content == [0x00, 0x00, 0xFE, 0xFF, 0x00, 0x00, 0x00, 0x68])
    ensures Peek(content) == content && !ProbeMagic(content) && !ProbeBinary(content)
  {
    if cs == "utf-8 bom" {
      assert !ProbeBinary([0xEF, 0xBB, 0xBF, 0x68, 0x65, 0x6C, 0x6C, 0x6F, 0x2E]);
    } else if cs == "utf-32le" {
      assert !ProbeBinary([0xFF, 0xFE, 0x00, 0x00, 0x68, 0x00, 0x00, 0x00]);
    } else {
      assert !ProbeBinary([0x00, 0x00, 0xFE, 0xFF, 0x00, 0x00, 0x00, 0x68]);
    }
  }
}
