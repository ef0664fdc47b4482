/**
 The linter's view of an EditorConfig section (definition.go): the
 parsed section as the EditorConfig library hands it over, the derived
 definition with the integer and block-comment settings the checks
 need, and the override of settings by prefixed keys.
 */
module Definitions {
  import opened Bytes
  import opened Errors
  import opened Settings

  // ---------------------------------------------------------------- integers

  const INT64_MIN: int := -0x8000_0000_0000_0000
  const INT64_MAX: int := 0x7FFF_FFFF_FFFF_FFFF

  predicate IsDigit(c: char) {
    '0' <= c <= '9'
  }

  predicate AllDigits(s: string) {
    forall i :: 0 <= i < |s| ==> IsDigit(s[i])
  }

  /** The value of a run of decimal digits, most significant first. */
  function DigitsValue(s: string): nat
    requires AllDigits(s)
  {
    if |s| == 0 then 0 else DigitsValue(s[..|s| - 1]) * 10 + (s[|s| - 1] as int - '0' as int)
  }

  /** The digits of a sign, if any, are what follows it. */
  function Unsigned(s: string): string {
    if |s| > 0 && (s[0] == '+' || s[0] == '-') then s[1..] else s
  }

  /**
   `strconv.Atoi`: an optional `+` or `-` followed by at least one decimal
   digit, whose value fits a 64-bit signed integer; anything else is an
   error.
   */
  function Atoi(s: string): (r: Option<int>)
    ensures r.Some? ==> INT64_MIN <= r.value <= INT64_MAX
    ensures r.Some? ==> |Unsigned(s)| > 0 && AllDigits(Unsigned(s))
    ensures r.Some? && |s| > 0 && s[0] == '-' ==> r.value <= 0
    ensures r.Some? && !(|s| > 0 && s[0] == '-') ==> r.value >= 0
  {
    var digits := Unsigned(s);
    if |digits| == 0 || !AllDigits(digits) then None
    else
      var m: int := DigitsValue(digits);
      var v := if s[0] == '-' then -m else m;
      if v < INT64_MIN || v > INT64_MAX then None else Some(v)
  }

  /** The shortest decimal text of a natural number. */
  function NatText(n: nat): (s: string)
    ensures |s| > 0 && AllDigits(s)
  {
    if n < 10 then [('0' as int + n) as char]
    else NatText(n / 10) + [('0' as int + n % 10) as char]
  }

  /** The decimal text of an integer, with a `-` when it is negative. */
  function Itoa(n: int): (s: string)
    ensures |s| > 0
  {
    if n < 0 then "-" + NatText(-n) else NatText(n)
  }

  lemma {:induction false} NatTextValue(n: nat)
    ensures DigitsValue(NatText(n)) == n
  {
    if n >= 10 {
      NatTextValue(n / 10);
      var s := NatText(n);
      assert s[..|s| - 1] == NatText(n / 10);
    }
  }

  /** Every 64-bit integer survives printing and parsing back. */
  lemma AtoiOfItoa(n: int)
    requires INT64_MIN <= n <= INT64_MAX
    ensures Atoi(Itoa(n)) == Some(n)
  {
    var s := Itoa(n);
    if n < 0 {
      NatTextValue(-n);
      assert Unsigned(s) == NatText(-n);
    } else {
      NatTextValue(n);
      assert s[0] != '-' && s[0] != '+';
    }
  }

  /** Concrete readings of `strconv.Atoi`. */
  lemma AtoiExamples()
    ensures Atoi("") == None && Atoi("-") == None && Atoi("off") == None && Atoi("4a") == None
    ensures Atoi("4") == Some(4) && Atoi("+7") == Some(7) && Atoi("-3") == Some(-3)
  {
    assert !AllDigits("off") by { assert !IsDigit("off"[0]); }
    assert !AllDigits("4a") by { assert !IsDigit("4a"[1]); }
    assert DigitsValue("4") == 4 by { assert "4"[..0] == ""; }
    assert Unsigned("+7") == "7";
    assert DigitsValue("7") == 7 by { assert "7"[..0] == ""; }
    assert Unsigned("-3") == "3";
    assert DigitsValue("3") == 3 by { assert "3"[..0] == ""; }
  }

  // ---------------------------------------------------------------- sections

  /**
   The section the EditorConfig library parsed for a file: its known
   string settings, `tab_width` as an integer, the two boolean settings
   (absent or set) and every raw key/value pair.
   */
  datatype EditorConfig = EditorConfig(
    charset: string,
    endOfLine: string,
    indentStyle: string,
    indentSize: string,
    tabWidth: int,
    trimTrailingWhitespace: Option<bool>,
    insertFinalNewline: Option<bool>,
    raw: map<string, string>)

  /**
   The linter's definition: the section with its charset normalised,
   the block-comment markers (absent when not configured), and the
   integer settings `max_line_length` (0 for none), `tab_width` and
   `indent_size`.
   */
  datatype Definition = Definition(
    config: EditorConfig,
    blockCommentStart: Option<seq<byte>>,
    blockComment: Option<seq<byte>>,
    blockCommentEnd: Option<seq<byte>>,
    maxLength: int,
    tabWidth: int,
    indentSize: int)

  /** A raw key with a value other than "" and "unset". */
  predicate Configured(raw: map<string, string>, key: string) {
    key in raw && raw[key] != "" && raw[key] != UNSET_VALUE
  }

  /** A setting other than "" and "unset". */
  predicate IsSet(value: string) {
    value != "" && value != UNSET_VALUE
  }

  /** A `max_line_length` is given other than "off" and "unset". */
  predicate MaxLengthGiven(raw: map<string, string>) {
    "max_line_length" in raw && raw["max_line_length"] != "off" && raw["max_line_length"] != UNSET_VALUE
  }

  /** The block-comment markers apply: an indentation style and a start marker are set. */
  predicate BlockCommentsApply(d: EditorConfig) {
    IsSet(d.indentStyle) && Configured(d.raw, "block_comment_start")
  }

  /** The charset with the "utf-8-bom" spelling normalised. */
  function NormalCharset(charset: string): string {
    if charset == "utf-8-bom" then "utf-8 bom" else charset
  }

  /**
   `newDefinition`: parses `indent_size` (when set) and `max_line_length`
   (when given, non-negative, defaulting a non-positive tab width to 8),
   reads the block-comment markers when an indentation style is set,
   and refuses a start marker without an end marker.
   */
  function NewDefinition(d: EditorConfig): (r: Result<Definition>)
    ensures IsSet(d.indentSize) && Atoi(d.indentSize).None? ==>
      r == Err(Plain(NotAnInteger("indent_size", d.indentSize)))
    ensures r.Ok? ==> r.value.config == d.(charset := NormalCharset(d.charset))
    ensures r.Ok? ==> r.value.indentSize == (if IsSet(d.indentSize) then Atoi(d.indentSize).value else 0)
    ensures r.Ok? && !BlockCommentsApply(d) ==>
      r.value.blockCommentStart.None? && r.value.blockComment.None? && r.value.blockCommentEnd.None?
    ensures r.Ok? && BlockCommentsApply(d) ==>
      && "block_comment_end" in d.raw
      && r.value.blockCommentStart == Some(FromString(d.raw["block_comment_start"]))
      && r.value.blockCommentEnd == Some(FromString(d.raw["block_comment_end"]))
      && r.value.blockComment ==
         (if "block_comment" in d.raw && d.raw["block_comment"] != "" then Some(FromString(d.raw["block_comment"])) else None)
    ensures r.Ok? && MaxLengthGiven(d.raw) ==>
      && Atoi(d.raw["max_line_length"]) == Some(r.value.maxLength)
      && r.value.maxLength >= 0
      && r.value.tabWidth == (if d.tabWidth <= 0 then DEFAULT_TAB_WIDTH else d.tabWidth)
    ensures r.Ok? && !MaxLengthGiven(d.raw) ==> r.value.maxLength == 0 && r.value.tabWidth == d.tabWidth
  {
    var indentSize := if IsSet(d.indentSize) then Atoi(d.indentSize) else Some(0);
    if indentSize.None? then Err(Plain(NotAnInteger("indent_size", d.indentSize)))
    else
      var markers := BlockCommentMarkers(d);
      if markers.Err? then Err(markers.error)
      else
        var config := d.(charset := NormalCharset(d.charset));
        var (start, middle, end) := markers.value;
        if MaxLengthGiven(d.raw) then
          var mll := d.raw["max_line_length"];
          var ml := Atoi(mll);
          if ml.None? || ml.value < 0 then Err(Plain(InvalidMaxLineLength(mll)))
          else
            var tabWidth := if d.tabWidth <= 0 then DEFAULT_TAB_WIDTH else d.tabWidth;
            Ok(Definition(config, start, middle, end, ml.value, tabWidth, indentSize.value))
        else Ok(Definition(config, start, middle, end, 0, d.tabWidth, indentSize.value))
  }

  /**
   The block-comment part of `newDefinition`. The guard on
   `block_comment` tests the start marker's value against "unset" rather
   than its own, so a `block_comment` of "unset" is taken literally.
   */
  function BlockCommentMarkers(d: EditorConfig): (r: Result<(Option<seq<byte>>, Option<seq<byte>>, Option<seq<byte>>)>)
    ensures r.Err? <==> BlockCommentsApply(d) && !Configured(d.raw, "block_comment_end")
    ensures r.Err? ==> r.error == Plain(BlockCommentEndMissing)
  {
    if IsSet(d.indentStyle) then
      if "block_comment_start" in d.raw && d.raw["block_comment_start"] != "" && d.raw["block_comment_start"] != UNSET_VALUE then
        var bs := d.raw["block_comment_start"];
        var middle :=
          if "block_comment" in d.raw && d.raw["block_comment"] != "" && bs != UNSET_VALUE
          then Some(FromString(d.raw["block_comment"])) else None;
        if !("block_comment_end" in d.raw) || d.raw["block_comment_end"] == "" || d.raw["block_comment_end"] == UNSET_VALUE then
          Err(Plain(BlockCommentEndMissing))
        else Ok((Some(FromString(bs)), middle, Some(FromString(d.raw["block_comment_end"]))))
      else Ok((None, None, None))
    else Ok((None, None, None))
  }

  /**
   `newDefinition` succeeds exactly when `indent_size` is unset or an
   integer, a start marker comes with an end marker, and a given
   `max_line_length` is a non-negative integer.
   */
  lemma NewDefinitionSucceedsIff(d: EditorConfig)
    ensures NewDefinition(d).Ok? <==>
      && (IsSet(d.indentSize) ==> Atoi(d.indentSize).Some?)
      && (BlockCommentsApply(d) ==> Configured(d.raw, "block_comment_end"))
      && (MaxLengthGiven(d.raw) ==> Atoi(d.raw["max_line_length"]).Some? && Atoi(d.raw["max_line_length"]).value >= 0)
  {
  }

  /** A section with nothing but the given settings. */
  function Section(indentStyle: string, raw: map<string, string>): EditorConfig {
    EditorConfig("", "", indentStyle, "", 0, None, None, raw)
  }

  /** A start marker without an end marker is refused; the test's section shows it. */
  lemma MissingBlockCommentEndIsRefused()
    ensures NewDefinition(Section(TAB_VALUE, map["block_comment_start" := "/*", "block_comment" := "*", "block_comment_end" := ""]))
      == Err(Plain(BlockCommentEndMissing))
  {
  }

  /** Without an indentation style the block-comment markers are ignored, even an incomplete set. */
  lemma MarkersIgnoredWithoutIndentStyle(style: string, raw: map<string, string>)
    requires !IsSet(style)
    ensures NewDefinition(Section(style, raw)).Ok? ==> NewDefinition(Section(style, raw)).value.blockCommentStart.None?
    ensures !MaxLengthGiven(raw) ==> NewDefinition(Section(style, raw)).Ok?
  {
  }

  /** A `block_comment` of "unset" becomes the literal marker "unset". */
  lemma BlockCommentUnsetTakenLiterally()
    ensures var d := NewDefinition(Section(SPACE_VALUE, map["block_comment_start" := "/*", "block_comment" := "unset", "block_comment_end" := "*/"]));
      d.Ok? && d.value.blockComment == Some(FromString("unset"))
  {
  }

  // ---------------------------------------------------------------- overrides

  /** `k` with `prefix` removed; `k` must start with `prefix`. */
  function Strip(k: string, prefix: string): (nk: string)
    requires HasPrefix(k, prefix)
    ensures prefix + nk == k
  {
    k[|prefix|..]
  }

  /** A prefixed key the override accepts: not a boolean setting, and an integer `tab_width`. */
  predicate Accepted(nk: string, v: string) {
    nk !in {"trim_trailing_whitespace", "insert_final_newline"} && (nk == "tab_width" ==> Atoi(v).Some?)
  }

  /** The four string settings an override can replace. */
  predicate IsStringSetting(key: string) {
    key in {"indent_style", "indent_size", "charset", "end_of_line"}
  }

  /** The value of a string setting in a section. */
  function SettingOf(d: EditorConfig, key: string): string
    requires IsStringSetting(key)
  {
    if key == "indent_style" then d.indentStyle
    else if key == "indent_size" then d.indentSize
    else if key == "charset" then d.charset
    else d.endOfLine
  }

  /**
   The effect of one prefixed key `k` with value `v` on the section: the
   raw value is copied to the unprefixed key, a known setting is
   replaced, `tab_width` must be an integer, and the two boolean
   settings cannot be overridden.
   */
  function OverrideKey(d: EditorConfig, nk: string, v: string): (r: Result<EditorConfig>)
    ensures r.Ok? ==> r.value.raw == d.raw[nk := v]
    ensures r.Ok? <==> Accepted(nk, v)
    ensures r.Ok? ==> forall key :: IsStringSetting(key) ==>
      SettingOf(r.value, key) == if nk == key then v else SettingOf(d, key)
    ensures r.Ok? ==> r.value.tabWidth == if nk == "tab_width" then Atoi(v).value else d.tabWidth
  {
    var d := d.(raw := d.raw[nk := v]);
    if nk == "indent_style" then Ok(d.(indentStyle := v))
    else if nk == "indent_size" then Ok(d.(indentSize := v))
    else if nk == "charset" then Ok(d.(charset := v))
    else if nk == "end_of_line" then Ok(d.(endOfLine := v))
    else if nk == "tab_width" then
      match Atoi(v)
      case None => Err(Plain(NotAnInteger("tab_width", v)))
      case Some(i) => Ok(d.(tabWidth := i))
    else if nk == "trim_trailing_whitespace" then Err(Plain(CannotOverride(nk)))
    else if nk == "insert_final_newline" then Err(Plain(CannotOverride(nk)))
    else Ok(d)
  }

  /**
   `OverrideDefinitionUsingPrefix`, visiting the raw keys in the order
   `keys` gives. Each key is looked up when it is visited, so a value
   copied earlier in the walk is the one seen; the first refusal ends
   the walk.
   */
  function OverrideDefinitionUsingPrefix(d: EditorConfig, prefix: string, keys: seq<string>): (r: Result<EditorConfig>)
    requires forall k :: k in keys ==> k in d.raw
    ensures r.Ok? ==> d.raw.Keys <= r.value.raw.Keys
    decreases |keys|
  {
    if |keys| == 0 then Ok(d)
    else
      var k := keys[0];
      if HasPrefix(k, prefix) then
        match OverrideKey(d, Strip(k, prefix), d.raw[k])
        case Err(e) => Err(e)
        case Ok(d') => OverrideDefinitionUsingPrefix(d', prefix, keys[1..])
      else OverrideDefinitionUsingPrefix(d, prefix, keys[1..])
  }

  /** The settings the walk replaces: `key` with the prefix has a value. */
  function Overridden(d: EditorConfig, prefix: string, keys: seq<string>, key: string, current: string): string
    requires forall k :: k in keys ==> k in d.raw
  {
    if prefix + key in keys then d.raw[prefix + key] else current
  }

  /** A walk whose prefixed keys, once stripped, never carry the prefix again. */
  predicate Unchained(prefix: string, keys: seq<string>) {
    && |prefix| > 0
    && (forall i, j :: 0 <= i < j < |keys| ==> keys[i] != keys[j])
    && (forall k :: k in keys && HasPrefix(k, prefix) ==> !HasPrefix(Strip(k, prefix), prefix))
  }

  /** The unprefixed keys the walk writes. */
  predicate IsStripped(x: string, prefix: string, keys: seq<string>) {
    exists k :: k in keys && HasPrefix(k, prefix) && x == Strip(k, prefix)
  }

  /**
   When the stripped keys are not themselves prefixed, a successful
   override copies every prefixed value to its unprefixed key and leaves
   every other key as it was.
   */
  lemma {:induction false} OverrideCopiesPrefixedValues(d: EditorConfig, prefix: string, keys: seq<string>)
    requires forall k :: k in keys ==> k in d.raw
    requires Unchained(prefix, keys)
    ensures var r := OverrideDefinitionUsingPrefix(d, prefix, keys);
      r.Ok? ==>
        && (forall k :: k in keys && HasPrefix(k, prefix) ==>
              Strip(k, prefix) in r.value.raw && r.value.raw[Strip(k, prefix)] == d.raw[k])
        && (forall x :: x in d.raw && !IsStripped(x, prefix, keys) ==> r.value.raw[x] == d.raw[x])
    decreases |keys|
  {
    var r := OverrideDefinitionUsingPrefix(d, prefix, keys);
    if |keys| > 0 && r.Ok? {
      var k := keys[0];
      var tail := keys[1..];
      UnchainedTail(prefix, keys);
      if HasPrefix(k, prefix) {
        var nk := Strip(k, prefix);
        var d' := OverrideKey(d, nk, d.raw[k]).value;
        assert r == OverrideDefinitionUsingPrefix(d', prefix, tail);
        OverrideCopiesPrefixedValues(d', prefix, tail);
        assert !HasPrefix(nk, prefix);
        forall t | t in tail && HasPrefix(t, prefix)
          ensures Strip(t, prefix) in r.value.raw && r.value.raw[Strip(t, prefix)] == d.raw[t]
        {
          assert t != nk;
        }
        assert !IsStripped(nk, prefix, tail) by {
          forall t | t in tail && HasPrefix(t, prefix) ensures nk != Strip(t, prefix) {
            StripInjective(t, k, prefix);
          }
        }
        forall x | x in d.raw && !IsStripped(x, prefix, keys)
          ensures r.value.raw[x] == d.raw[x]
        {
          assert x != nk;
          assert !IsStripped(x, prefix, tail) by {
            forall t | t in tail && HasPrefix(t, prefix) ensures x != Strip(t, prefix) {
              assert t in keys;
            }
          }
        }
      } else {
        assert r == OverrideDefinitionUsingPrefix(d, prefix, tail);
        OverrideCopiesPrefixedValues(d, prefix, tail);
        forall x | x in d.raw && !IsStripped(x, prefix, keys)
          ensures !IsStripped(x, prefix, tail)
        {
          forall t | t in tail && HasPrefix(t, prefix) ensures x != Strip(t, prefix) {
            assert t in keys;
          }
        }
      }
    }
  }

  lemma UnchainedTail(prefix: string, keys: seq<string>)
    requires Unchained(prefix, keys) && |keys| > 0
    ensures Unchained(prefix, keys[1..])
    ensures keys[0] !in keys[1..]
  {
    var tail := keys[1..];
    forall i, j | 0 <= i < j < |tail| ensures tail[i] != tail[j] {
      assert tail[i] == keys[i + 1] && tail[j] == keys[j + 1];
    }
    forall i | 0 <= i < |tail| ensures tail[i] != keys[0] {
      assert tail[i] == keys[i + 1];
    }
  }

  /** When the stripped keys are not themselves prefixed, the override succeeds exactly when every prefixed key is accepted. */
  lemma {:induction false} OverrideSucceedsIff(d: EditorConfig, prefix: string, keys: seq<string>)
    requires forall k :: k in keys ==> k in d.raw
    requires Unchained(prefix, keys)
    ensures OverrideDefinitionUsingPrefix(d, prefix, keys).Ok? <==>
      forall k :: k in keys && HasPrefix(k, prefix) ==> Accepted(Strip(k, prefix), d.raw[k])
    decreases |keys|
  {
    if |keys| > 0 {
      var k := keys[0];
      var tail := keys[1..];
      UnchainedTail(prefix, keys);
      if HasPrefix(k, prefix) {
        var nk := Strip(k, prefix);
        var step := OverrideKey(d, nk, d.raw[k]);
        if step.Ok? {
          assert !HasPrefix(nk, prefix);
          assert forall t :: t in tail && HasPrefix(t, prefix) ==> step.value.raw[t] == d.raw[t];
          OverrideSucceedsIff(step.value, prefix, tail);
        }
      } else {
        OverrideSucceedsIff(d, prefix, tail);
      }
    }
  }

  /**
   A successful override replaces each known string setting by the value
   of its prefixed key when that key is visited, and keeps it otherwise.
   */
  lemma {:induction false} OverrideReplacesSettings(d: EditorConfig, prefix: string, keys: seq<string>, key: string)
    requires forall k :: k in keys ==> k in d.raw
    requires Unchained(prefix, keys)
    requires IsStringSetting(key)
    ensures var r := OverrideDefinitionUsingPrefix(d, prefix, keys);
      r.Ok? ==> SettingOf(r.value, key) == Overridden(d, prefix, keys, key, SettingOf(d, key))
    decreases |keys|
  {
    var r := OverrideDefinitionUsingPrefix(d, prefix, keys);
    if |keys| > 0 && r.Ok? {
      var k := keys[0];
      var tail := keys[1..];
      UnchainedTail(prefix, keys);
      if HasPrefix(k, prefix) {
        var nk := Strip(k, prefix);
        var d' := OverrideKey(d, nk, d.raw[k]).value;
        OverrideReplacesSettings(d', prefix, tail, key);
        assert prefix + key == k <==> nk == key;
      } else {
        OverrideReplacesSettings(d, prefix, tail, key);
        assert (prefix + key)[..|prefix|] == prefix;
      }
    }
  }

  /** A successful override takes `tab_width` from its prefixed key when that key is visited. */
  lemma {:induction false} OverrideReplacesTabWidth(d: EditorConfig, prefix: string, keys: seq<string>)
    requires forall k :: k in keys ==> k in d.raw
    requires Unchained(prefix, keys)
    ensures var r := OverrideDefinitionUsingPrefix(d, prefix, keys);
      r.Ok? ==>
        if prefix + "tab_width" in keys then Atoi(d.raw[prefix + "tab_width"]) == Some(r.value.tabWidth)
        else r.value.tabWidth == d.tabWidth
    decreases |keys|
  {
    var r := OverrideDefinitionUsingPrefix(d, prefix, keys);
    if |keys| > 0 && r.Ok? {
      var k := keys[0];
      var tail := keys[1..];
      UnchainedTail(prefix, keys);
      if HasPrefix(k, prefix) {
        var nk := Strip(k, prefix);
        var d' := OverrideKey(d, nk, d.raw[k]).value;
        OverrideReplacesTabWidth(d', prefix, tail);
        assert prefix + "tab_width" == k <==> nk == "tab_width";
      } else {
        OverrideReplacesTabWidth(d, prefix, tail);
        assert (prefix + "tab_width")[..|prefix|] == prefix;
      }
    }
  }

  /** Two prefixed keys with the same remainder are the same key. */
  lemma StripInjective(a: string, b: string, prefix: string)
    requires HasPrefix(a, prefix) && HasPrefix(b, prefix)
    ensures a != b ==> Strip(a, prefix) != Strip(b, prefix)
  {
  }

  /** A prefixed boolean setting makes the override fail, whatever else is visited. */
  lemma OverrideRefusesBooleanSettings(d: EditorConfig, prefix: string, keys: seq<string>, key: string)
    requires forall k :: k in keys ==> k in d.raw
    requires key in {"trim_trailing_whitespace", "insert_final_newline"}
    requires prefix + key in keys
    ensures OverrideDefinitionUsingPrefix(d, prefix, keys).Err?
    decreases |keys|
  {
    var k := keys[0];
    if k == prefix + key {
      assert HasPrefix(k, prefix) by { assert k[..|prefix|] == prefix; }
      assert Strip(k, prefix) == key;
    } else {
      assert prefix + key in keys[1..];
      if HasPrefix(k, prefix) {
        var r := OverrideKey(d, Strip(k, prefix), d.raw[k]);
        if r.Ok? {
          OverrideRefusesBooleanSettings(r.value, prefix, keys[1..], key);
        }
      } else {
        OverrideRefusesBooleanSettings(d, prefix, keys[1..], key);
      }
    }
  }

  /** The keys of the override test are distinct and their remainders carry no prefix. */
  lemma ExampleKeys(keys: seq<string>)
    requires keys == ["@_charset", "@_indent_style", "@_indent_size", "@_tab_width"]
    ensures Unchained("@_", keys)
    ensures forall k :: k in keys ==> HasPrefix(k, "@_")
    ensures Strip(keys[0], "@_") == "charset" && Strip(keys[1], "@_") == "indent_style"
    ensures Strip(keys[2], "@_") == "indent_size" && Strip(keys[3], "@_") == "tab_width"
  {
    forall i, j | 0 <= i < j < |keys| ensures keys[i] != keys[j] {
      assert |keys[i]| != |keys[j]|;
    }
    forall k | k in keys ensures HasPrefix(k, "@_") && !HasPrefix(Strip(k, "@_"), "@_") {
      assert k[2] != '@';
    }
  }

  /** The override test succeeds: none of its keys is refused. */
  lemma OverrideExampleSucceeds(d: EditorConfig, keys: seq<string>)
    requires keys == ["@_charset", "@_indent_style", "@_indent_size", "@_tab_width"]
    requires forall k :: k in keys ==> k in d.raw
    requires d.raw["@_tab_width"] == "4"
    ensures OverrideDefinitionUsingPrefix(d, "@_", keys).Ok?
  {
    assert Atoi("4").Some? by {
      assert DigitsValue("4") == 4 by { assert "4"[..0] == ""; }
    }
    ExampleKeys(keys);
    forall k | k in keys && HasPrefix(k, "@_") ensures Accepted(Strip(k, "@_"), d.raw[k]) {
      var nk := Strip(k, "@_");
      assert |nk| != |"trim_trailing_whitespace"| && |nk| != |"insert_final_newline"|;
    }
    OverrideSucceedsIff(d, "@_", keys);
  }

  /**
   The override test, for any section holding its four prefixed keys:
   prefixed charset, style, size and tab width replace the section's own.
   */
  lemma OverrideExample(d: EditorConfig, keys: seq<string>)
    requires keys == ["@_charset", "@_indent_style", "@_indent_size", "@_tab_width"]
    requires forall k :: k in keys ==> k in d.raw
    requires d.raw["@_charset"] == "unset" && d.raw["@_indent_style"] == "space"
    requires d.raw["@_indent_size"] == "4" && d.raw["@_tab_width"] == "4"
    ensures var r := OverrideDefinitionUsingPrefix(d, "@_", keys);
      r.Ok? && r.value.charset == "unset" && r.value.indentStyle == SPACE_VALUE
      && r.value.indentSize == "4" && r.value.tabWidth == 4
  {
    var p := "@_";
    OverrideExampleSucceeds(d, keys);
    assert Atoi("4") == Some(4) by {
      assert DigitsValue("4") == 4 by { assert "4"[..0] == ""; }
    }
    ExampleKeys(keys);
    assert p + "charset" == keys[0] && p + "indent_style" == keys[1];
    assert p + "indent_size" == keys[2] && p + "tab_width" == keys[3];
    OverrideReplacesSettings(d, p, keys, "charset");
    OverrideReplacesSettings(d, p, keys, "indent_style");
    OverrideReplacesSettings(d, p, keys, "indent_size");
    OverrideReplacesTabWidth(d, p, keys);
  }
}
