/**
 * `EconInfoHelper.PrettyPrintEconAsync`: after `EconInfo.json` has been re-serialised
 * with indentation, every `\uXXXX` escape (RFC 8259 section 7) is replaced by the
 * character it denotes, then every two-character sequence backslash-`n` is deleted,
 * and the file is overwritten with the result.
 *
 * Text is a sequence of UTF-16 code units, as in C#: in the rewritten string the escape
 * of a lone surrogate yields that surrogate.
 */
module EconInfoHelper {
  import opened Wrappers

  newtype CodeUnit = x: int | 0 <= x < 0x1_0000

  type Text = seq<CodeUnit>

  const Backslash: CodeUnit := 0x5C
  const LowerU: CodeUnit := 0x75
  const UpperU: CodeUnit := 0x55
  const LowerN: CodeUnit := 0x6E

  /** The value of a hexadecimal digit in either letter case. */
  function HexValue(c: CodeUnit): Option<nat>
  {
    if 0x30 <= c <= 0x39 then Some((c - 0x30) as nat)
    else if 0x41 <= c <= 0x46 then Some((c - 0x41 + 10) as nat)
    else if 0x61 <= c <= 0x66 then Some((c - 0x61 + 10) as nat)
    else None
  }

  predicate IsHexDigit(c: CodeUnit)
  {
    HexValue(c).Some?
  }

  /**
   * The regular expression `\\u([0-9A-F]{4})` with `RegexOptions.IgnoreCase` matches at
   * `i`: a backslash, `u` or `U`, and four hexadecimal digits.
   */
  predicate IsEscapeAt(s: Text, i: nat)
  {
    && i + 6 <= |s|
    && s[i] == Backslash
    && (s[i + 1] == LowerU || s[i + 1] == UpperU)
    && IsHexDigit(s[i + 2]) && IsHexDigit(s[i + 3]) && IsHexDigit(s[i + 4]) && IsHexDigit(s[i + 5])
  }

  /** `(char)int.Parse(digits, NumberStyles.HexNumber)` for the four digits of a match. */
  function EscapeValue(s: Text, i: nat): (c: CodeUnit)
    requires IsEscapeAt(s, i)
  {
    (4096 * HexValue(s[i + 2]).value + 256 * HexValue(s[i + 3]).value
      + 16 * HexValue(s[i + 4]).value + HexValue(s[i + 5]).value) as CodeUnit
  }

  /**
   * `UnicodeEscapeSequence().Replace(json, ...)`: the regular expression is tried at
   * every position from left to right, and after a match the search resumes behind it,
   * so the produced characters are never examined again.
   */
  function UnescapeUnicode(s: Text): Text
  {
    if |s| == 0 then []
    else if IsEscapeAt(s, 0) then [EscapeValue(s, 0)] + UnescapeUnicode(s[6..])
    else [s[0]] + UnescapeUnicode(s[1..])
  }

  /** `json.Replace(@"\n", "")`: an ordinal, left-to-right, non-overlapping deletion. */
  function RemoveEscapedNewlines(s: Text): Text
  {
    if |s| < 2 then s
    else if s[0] == Backslash && s[1] == LowerN then RemoveEscapedNewlines(s[2..])
    else [s[0]] + RemoveEscapedNewlines(s[1..])
  }

  /** The post-serialisation rewrite: unescape first, then delete the `\n` pairs. */
  function Rewrite(json: Text): Text
  {
    RemoveEscapedNewlines(UnescapeUnicode(json))
  }

  /** `EconInfo.json`, which the operation reads and overwrites in place. */
  class EconFile {
    var content: Text

    constructor (content: Text)
      ensures this.content == content
    {
      this.content := content;
    }

    /**
     * The file-writing part of `PrettyPrintEconAsync`. `reserialized` is the indented
     * re-serialisation of the file's JSON (`None` standing for null); a null or empty
     * one leaves the file untouched, otherwise the file is truncated and receives the
     * rewritten text.
     */
    method PrettyPrintEcon(reserialized: Option<Text>)
      modifies this
      ensures reserialized.None? || |reserialized.value| == 0 ==> content == old(content)
      ensures reserialized.Some? && |reserialized.value| > 0 ==> content == Rewrite(reserialized.value)
    {
      if reserialized.None? || |reserialized.value| == 0 {
        return;
      }
      var json := reserialized.value;
      json := UnescapeUnicode(json);
      json := RemoveEscapedNewlines(json);
      content := [];
      content := content + json;
    }
  }

  // ---------------------------------------------------------------------------
  // Properties of the rewrite

  /** Text without a backslash passes through unchanged, and the rewrite never lengthens text. */
  lemma RewriteBounds(json: Text)
    ensures |Rewrite(json)| <= |json|
    ensures Backslash !in json ==> Rewrite(json) == json
  {
    UnescapeBounds(json);
    DeletionBounds(UnescapeUnicode(json));
  }

  /** The escape replacement never lengthens text and leaves backslash-free text unchanged. */
  lemma {:induction false} UnescapeBounds(s: Text)
    ensures |UnescapeUnicode(s)| <= |s|
    ensures Backslash !in s ==> UnescapeUnicode(s) == s
  {
    if |s| > 0 {
      if IsEscapeAt(s, 0) {
        UnescapeBounds(s[6..]);
      } else {
        UnescapeBounds(s[1..]);
        if Backslash !in s {
          TailKeepsNoBackslash(s);
        }
      }
    }
  }

  /** Dropping the first code unit of backslash-free text leaves backslash-free text. */
  lemma TailKeepsNoBackslash(s: Text)
    requires |s| >= 1 && Backslash !in s
    ensures Backslash !in s[1..] && s == [s[0]] + s[1..]
  {
    assert forall i :: 0 <= i < |s| - 1 ==> s[1..][i] == s[i + 1];
  }

  /** The deletion never lengthens text and leaves backslash-free text unchanged. */
  lemma {:induction false} DeletionBounds(s: Text)
    ensures |RemoveEscapedNewlines(s)| <= |s|
    ensures Backslash !in s ==> RemoveEscapedNewlines(s) == s
  {
    if |s| >= 2 {
      if s[0] == Backslash && s[1] == LowerN {
        DeletionBounds(s[2..]);
      } else {
        DeletionBounds(s[1..]);
        if Backslash !in s {
          TailKeepsNoBackslash(s);
        }
      }
    }
  }

  /**
   * Behind a backslash-free prefix, an escape becomes the single code unit it denotes
   * and the rest of the text is unescaped independently.
   */
  lemma {:induction false} EscapeIsReplaced(prefix: Text, s: Text)
    requires Backslash !in prefix
    requires IsEscapeAt(s, 0)
    ensures UnescapeUnicode(prefix + s) == prefix + [EscapeValue(s, 0)] + UnescapeUnicode(s[6..])
  {
    if |prefix| > 0 {
      var t := prefix + s;
      assert t[1..] == prefix[1..] + s;
      assert t[0] == prefix[0] != Backslash;
      EscapeIsReplaced(prefix[1..], s);
      assert UnescapeUnicode(t) == [prefix[0]] + UnescapeUnicode(t[1..]);
      assert [prefix[0]] + prefix[1..] == prefix;
    } else {
      assert prefix + s == s;
    }
  }

  /**
   * Behind a backslash-free prefix, a backslash that starts no escape (`\"`, `\\`, `\t`,
   * `\n`, or `\u` with fewer than four hexadecimal digits) is kept, and the search
   * resumes right behind it.
   */
  lemma {:induction false} NonEscapeIsKept(prefix: Text, s: Text)
    requires Backslash !in prefix
    requires |s| >= 1 && s[0] == Backslash && !IsEscapeAt(s, 0)
    ensures UnescapeUnicode(prefix + s) == prefix + [Backslash] + UnescapeUnicode(s[1..])
  {
    if |prefix| > 0 {
      var t := prefix + s;
      assert t[1..] == prefix[1..] + s;
      assert t[0] == prefix[0] != Backslash;
      NonEscapeIsKept(prefix[1..], s);
      assert UnescapeUnicode(t) == [prefix[0]] + UnescapeUnicode(t[1..]);
      assert [prefix[0]] + prefix[1..] == prefix;
    } else {
      assert prefix + s == s;
    }
  }

  /** A backslash and `u` not followed by four hexadecimal digits are kept as they are. */
  lemma ShortEscapeIsKept(s: Text)
    requires |s| >= 2 && s[0] == Backslash && (s[1] == LowerU || s[1] == UpperU)
    requires !IsEscapeAt(s, 0)
    ensures UnescapeUnicode(s) == s[..2] + UnescapeUnicode(s[2..])
  {
    assert !IsEscapeAt(s[1..], 0);
    assert s[1..][1..] == s[2..];
  }

  /** Behind a backslash-free prefix, a backslash-`n` pair is deleted. */
  lemma {:induction false} EscapedNewlineIsDeleted(prefix: Text, s: Text)
    requires Backslash !in prefix
    requires |s| >= 2 && s[0] == Backslash && s[1] == LowerN
    ensures RemoveEscapedNewlines(prefix + s) == prefix + RemoveEscapedNewlines(s[2..])
  {
    if |prefix| > 0 {
      var t := prefix + s;
      assert t[1..] == prefix[1..] + s;
      assert t[0] == prefix[0] != Backslash;
      EscapedNewlineIsDeleted(prefix[1..], s);
      assert RemoveEscapedNewlines(t) == [prefix[0]] + RemoveEscapedNewlines(t[1..]);
      assert [prefix[0]] + prefix[1..] == prefix;
    } else {
      assert prefix + s == s;
    }
  }

  /**
   * Behind a backslash-free prefix, a backslash not followed by `n` is kept, and the
   * search resumes right behind it.
   */
  lemma OtherBackslashIsKept(prefix: Text, s: Text)
    requires Backslash !in prefix
    requires |s| >= 1 && s[0] == Backslash && (|s| == 1 || s[1] != LowerN)
    ensures RemoveEscapedNewlines(prefix + s) == prefix + [Backslash] + RemoveEscapedNewlines(s[1..])
  {
    PlainPrefixSurvivesDeletion(prefix, s);
    if |s| == 1 {
      assert s[1..] == [];
    } else {
      assert RemoveEscapedNewlines(s) == [Backslash] + RemoveEscapedNewlines(s[1..]);
    }
  }

  /** A backslash-free prefix passes through the deletion unchanged. */
  lemma {:induction false} PlainPrefixSurvivesDeletion(prefix: Text, s: Text)
    requires Backslash !in prefix
    ensures RemoveEscapedNewlines(prefix + s) == prefix + RemoveEscapedNewlines(s)
  {
    if |prefix| > 0 {
      var t := prefix + s;
      assert t[1..] == prefix[1..] + s;
      PlainPrefixSurvivesDeletion(prefix[1..], s);
      if |t| >= 2 {
        assert t[0] == prefix[0] != Backslash;
        assert RemoveEscapedNewlines(t) == [prefix[0]] + RemoveEscapedNewlines(t[1..]);
      } else {
        assert s == [] && t == prefix;
      }
      assert [prefix[0]] + prefix[1..] == prefix;
    } else {
      assert prefix + s == s;
    }
  }

  /**
   * Unescaping runs before the deletion: an escape that denotes a backslash, followed by
   * `n`, forms a pair that the deletion then removes.
   */
  lemma UnescapeRunsFirst(s: Text)
    requires IsEscapeAt(s, 0) && EscapeValue(s, 0) == Backslash
    requires |s| >= 7 && s[6] == LowerN
    ensures Rewrite(s) == Rewrite(s[7..])
  {
    assert s[6..][1..] == s[7..];
    assert !IsEscapeAt(s[6..], 0);
    assert UnescapeUnicode(s[6..]) == [LowerN] + UnescapeUnicode(s[7..]);
    assert UnescapeUnicode(s) == [Backslash, LowerN] + UnescapeUnicode(s[7..]);
  }

  /**
   * After a match the search resumes behind it: when an escape denotes a backslash and
   * the text behind it would complete an escape with that backslash, that escape stays
   * literal in the result.
   */
  lemma ProducedTextIsNotRescanned(s: Text)
    requires IsEscapeAt(s, 0) && EscapeValue(s, 0) == Backslash
    requires |s| >= 11 && (s[6] == LowerU || s[6] == UpperU)
    requires IsHexDigit(s[7]) && IsHexDigit(s[8]) && IsHexDigit(s[9]) && IsHexDigit(s[10])
    ensures UnescapeUnicode(s) == [Backslash] + s[6..11] + UnescapeUnicode(s[11..])
  {
    var plain := s[6..11];
    HexDigitsAreNotBackslashes(plain);
    calc {
      UnescapeUnicode(s);
    == { EscapeAtFront(s); }
      [Backslash] + UnescapeUnicode(s[6..]);
    == { assert s[6..] == plain + s[11..]; }
      [Backslash] + UnescapeUnicode(plain + s[11..]);
    == { PlainPrefixIsKept(plain, s[11..]); }
      [Backslash] + (plain + UnescapeUnicode(s[11..]));
    ==
      [Backslash] + plain + UnescapeUnicode(s[11..]);
    }
  }

  /** A `u` or `U` followed by four hex digits holds no backslash. */
  lemma HexDigitsAreNotBackslashes(t: Text)
    requires |t| == 5 && (t[0] == LowerU || t[0] == UpperU)
    requires IsHexDigit(t[1]) && IsHexDigit(t[2]) && IsHexDigit(t[3]) && IsHexDigit(t[4])
    ensures Backslash !in t
  {
  }

  /** An escape at the front becomes its code unit, and the rest is unescaped on its own. */
  lemma EscapeAtFront(s: Text)
    requires IsEscapeAt(s, 0)
    ensures UnescapeUnicode(s) == [EscapeValue(s, 0)] + UnescapeUnicode(s[6..])
  {
  }

  /** A backslash-free prefix passes through the unescaping unchanged. */
  lemma {:induction false} PlainPrefixIsKept(prefix: Text, s: Text)
    requires Backslash !in prefix
    ensures UnescapeUnicode(prefix + s) == prefix + UnescapeUnicode(s)
  {
    if |prefix| > 0 {
      var t := prefix + s;
      assert t[1..] == prefix[1..] + s;
      assert t[0] == prefix[0] != Backslash;
      PlainPrefixIsKept(prefix[1..], s);
      assert UnescapeUnicode(t) == [prefix[0]] + UnescapeUnicode(t[1..]);
      assert [prefix[0]] + prefix[1..] == prefix;
    } else {
      assert prefix + s == s;
    }
  }
}
