/** JsonHelper: the pre-checks of IsValidJson, and the repair of a JSON object whose
    "propertyAddress" string value contains unescaped double quotes.
    The repair scans from the start of that value for the first quote that is not
    escaped by a preceding backslash and is followed, after optional whitespace, by
    ',' or '}': that quote closes the value. Every other unescaped quote inside the
    value is escaped with a backslash. */
module JsonHelper {
  import opened Text

  /** The key the repair looks for, up to and including the value's opening quote. */
  const Key: string := "\"propertyAddress\":\""

  /** The trimmed text starts with '{' and ends with '}'. */
  predicate WrappedInBraces(t: string) {
    t != [] && t[0] == '{' && t[|t| - 1] == '}'
  }

  /** IsValidJson. JToken.Parse is not part of this model: `parses` is its verdict
      on the trimmed text (true when it raises no JsonReaderException). */
  function IsValidJson(s: string, parses: string -> bool): (r: bool)
    ensures r <==> !IsBlank(s) && WrappedInBraces(Trim(s)) && parses(Trim(s))
  {
    if IsBlank(s) then false
    else
      var t := Trim(s);
      if !(t[0] == '{' && t[|t| - 1] == '}') then false
      else parses(t)
  }

  // ---------------------------------------------------------------------------
  // Specification of the repair

  /** The backslash flag after the character at i: set by a backslash that is not
      itself escaped, cleared by every other character. */
  function NextFlag(c: char, flag: bool): bool {
    c == '\\' && !flag
  }

  /** The first index from k on whose character is not whitespace, or |s|. */
  function SkipWhiteSpace(s: string, k: nat): (n: nat)
    requires k <= |s|
    ensures k <= n <= |s|
    decreases |s| - k
  {
    if k == |s| || !IsWhiteSpace(s[k]) then k else SkipWhiteSpace(s, k + 1)
  }

  /** The quote at i closes a value when the first non-whitespace character after it
      is ',' or '}'. */
  predicate ClosesValue(s: string, i: nat)
    requires i < |s|
  {
    var n := SkipWhiteSpace(s, i + 1);
    n < |s| && (s[n] == ',' || s[n] == '}')
  }

  /** The character at i is a quote that no backslash escapes. */
  predicate BareQuote(s: string, i: nat, flag: bool)
    requires i < |s|
  {
    s[i] == '"' && !flag
  }

  /** The index of the quote that closes the value, scanning from i with the given
      backslash flag; None when no such quote exists. */
  function FindValueEnd(s: string, i: nat, flag: bool): (r: Option<nat>)
    ensures r.Some? ==> i <= r.value < |s| && s[r.value] == '"'
    decreases |s| - i
  {
    if i >= |s| then None
    else if BareQuote(s, i, flag) && ClosesValue(s, i) then Some(i)
    else FindValueEnd(s, i + 1, NextFlag(s[i], flag))
  }

  /** The backslash flag on reaching `end`, scanning from i with `flag`. */
  function FlagAfter(s: string, i: nat, end: nat, flag: bool): bool
    requires i <= end <= |s|
    decreases end - i
  {
    if i == end then flag else FlagAfter(s, i + 1, end, NextFlag(s[i], flag))
  }

  /** The text that replaces s[i..end]: every bare quote becomes a backslash and a
      quote, every other character is copied. */
  function Escape(s: string, i: nat, end: nat, flag: bool): string
    requires i <= end <= |s|
    decreases end - i
  {
    if i == end then []
    else (if BareQuote(s, i, flag) then "\\\"" else [s[i]]) + Escape(s, i + 1, end, NextFlag(s[i], flag))
  }

  /** The number of bare quotes in s[i..end]. */
  function EscapeCount(s: string, i: nat, end: nat, flag: bool): nat
    requires i <= end <= |s|
    decreases end - i
  {
    if i == end then 0
    else (if BareQuote(s, i, flag) then 1 else 0) + EscapeCount(s, i + 1, end, NextFlag(s[i], flag))
  }

  /** RepairBrokenAdditionalInformationJsonString as a function of its input. The input
      comes back untouched (untrimmed) when it is blank, not wrapped in braces once
      trimmed, has no propertyAddress key, has no closing quote, or has nothing to escape. */
  function Repair(jsonString: string): string {
    if IsBlank(jsonString) then jsonString
    else
      var json := Trim(jsonString);
      if !WrappedInBraces(json) then jsonString
      else
        match IndexOf(json, Key)
        case None => jsonString
        case Some(k) =>
          var vs := k + |Key|;
          match FindValueEnd(json, vs, false)
          case None => jsonString
          case Some(ve) =>
            if EscapeCount(json, vs, ve, false) == 0 then jsonString
            else Escaped(json, vs, ve)
  }

  /** The text with its value s[vs..ve] escaped and everything around it kept. */
  function Escaped(json: string, vs: nat, ve: nat): string
    requires vs <= ve <= |json|
  {
    json[..vs] + Escape(json, vs, ve, false) + json[ve..]
  }

  // ---------------------------------------------------------------------------
  // The scanner

  /** RepairBrokenAdditionalInformationJsonString: the guards, then the two loops of the
      source (the search for the closing quote and the escaping copy into a buffer). */
  method RepairBrokenAdditionalInformationJsonString(jsonString: string) returns (r: string)
    ensures r == Repair(jsonString)
  {
    if IsBlank(jsonString) {
      return jsonString;
    }
    var json := Trim(jsonString);
    if !(json[0] == '{') || !(json[|json| - 1] == '}') {
      return jsonString;
    }
    var keyIndex := IndexOf(json, Key);
    if keyIndex.None? {
      return jsonString;
    }
    var valueStartIndex := keyIndex.value + |Key|;
    var valueEndIndex := FindValueEndIndex(json, valueStartIndex);
    if valueEndIndex == -1 {
      return jsonString;
    }
    var repairedJson, repairNeeded := EscapeValue(json, valueStartIndex, valueEndIndex);
    if repairNeeded {
      return repairedJson;
    } else {
      return jsonString;
    }
  }

  /** The first loop: scans from the value's start for the closing quote, skipping the
      whitespace after each bare quote; -1 when there is none. */
  method FindValueEndIndex(json: string, valueStartIndex: nat) returns (valueEndIndex: int)
    ensures valueEndIndex == -1 <==> FindValueEnd(json, valueStartIndex, false).None?
    ensures valueEndIndex >= -1
    ensures valueEndIndex >= 0 ==> FindValueEnd(json, valueStartIndex, false) == Some(valueEndIndex as nat)
  {
    valueEndIndex := -1;
    var previousCharWasBackslash := false;
    var i := valueStartIndex;
    while i < |json|
      invariant valueStartIndex <= i && (i == valueStartIndex || i <= |json|)
      invariant FindValueEnd(json, i, previousCharWasBackslash) == FindValueEnd(json, valueStartIndex, false)
      decreases |json| - i
    {
      var currentChar := json[i];
      if currentChar == '"' && !previousCharWasBackslash {
        var nextCharIndex := i + 1;
        while nextCharIndex < |json| && IsWhiteSpace(json[nextCharIndex])
          invariant i + 1 <= nextCharIndex <= |json|
          invariant SkipWhiteSpace(json, nextCharIndex) == SkipWhiteSpace(json, i + 1)
        {
          nextCharIndex := nextCharIndex + 1;
        }
        if nextCharIndex < |json| && (json[nextCharIndex] == ',' || json[nextCharIndex] == '}') {
          valueEndIndex := i;
          return;
        }
      }
      previousCharWasBackslash := currentChar == '\\' && !previousCharWasBackslash;
      i := i + 1;
    }
  }

  /** The second loop: copies json[..valueEndIndex] after the value's start into a
      buffer holding json[..valueStartIndex], escaping every bare quote, then appends
      the rest of json; reports whether any quote was escaped. */
  method EscapeValue(json: string, valueStartIndex: nat, valueEndIndex: nat)
    returns (repairedJson: string, repairNeeded: bool)
    requires valueStartIndex <= valueEndIndex <= |json|
    ensures repairedJson == Escaped(json, valueStartIndex, valueEndIndex)
    ensures repairNeeded <==> EscapeCount(json, valueStartIndex, valueEndIndex, false) > 0
  {
    repairedJson := json[..valueStartIndex];
    var previousCharWasBackslash := false;
    repairNeeded := false;
    ghost var escaped := 0;
    var i := valueStartIndex;
    while i < valueEndIndex
      invariant valueStartIndex <= i <= valueEndIndex
      invariant repairedJson + Escape(json, i, valueEndIndex, previousCharWasBackslash)
             == json[..valueStartIndex] + Escape(json, valueStartIndex, valueEndIndex, false)
      invariant EscapeCount(json, valueStartIndex, valueEndIndex, false)
             == escaped + EscapeCount(json, i, valueEndIndex, previousCharWasBackslash)
      invariant repairNeeded <==> escaped > 0
    {
      var currentChar := json[i];
      if currentChar == '"' && !previousCharWasBackslash {
        repairedJson := repairedJson + ['\\'];
        repairedJson := repairedJson + ['"'];
        repairNeeded := true;
        escaped := escaped + 1;
      } else {
        repairedJson := repairedJson + [currentChar];
      }
      previousCharWasBackslash := currentChar == '\\' && !previousCharWasBackslash;
      i := i + 1;
    }
    repairedJson := repairedJson + json[valueEndIndex..];
  }

  // ---------------------------------------------------------------------------
  // Properties of the repair

  /** The escaped value is the original value plus one backslash per bare quote. */
  lemma {:induction false} EscapeLength(s: string, i: nat, end: nat, flag: bool)
    requires i <= end <= |s|
    ensures |Escape(s, i, end, flag)| == (end - i) + EscapeCount(s, i, end, flag)
    decreases end - i
  {
    if i < end {
      EscapeLength(s, i + 1, end, NextFlag(s[i], flag));
    }
  }

  /** Escaping changes nothing exactly when there is no bare quote. */
  lemma {:induction false} EscapeWithoutBareQuotes(s: string, i: nat, end: nat, flag: bool)
    requires i <= end <= |s| && EscapeCount(s, i, end, flag) == 0
    ensures Escape(s, i, end, flag) == s[i..end]
    decreases end - i
  {
    if i < end {
      EscapeWithoutBareQuotes(s, i + 1, end, NextFlag(s[i], flag));
      assert s[i..end] == [s[i]] + s[i + 1..end];
    }
  }

  /** When the repair changes its input, the result is the trimmed input with the value
      between the key and its closing quote escaped: everything up to the value's start
      and everything from the closing quote on is kept verbatim, and the result is longer
      than the trimmed input by the number of quotes escaped, at least one. */
  lemma RepairShape(s: string)
    ensures Repair(s) != s ==>
      && !IsBlank(s) && WrappedInBraces(Trim(s))
      && IndexOf(Trim(s), Key).Some?
      && var json := Trim(s);
         var vs := IndexOf(json, Key).value + |Key|;
         && FindValueEnd(json, vs, false).Some?
         && var ve := FindValueEnd(json, vs, false).value;
            && 0 < EscapeCount(json, vs, ve, false)
            && Repair(s) == json[..vs] + Escape(json, vs, ve, false) + json[ve..]
            && |Repair(s)| == |json| + EscapeCount(json, vs, ve, false)
  {
    if Repair(s) != s {
      var json := Trim(s);
      var vs := IndexOf(json, Key).value + |Key|;
      var ve := FindValueEnd(json, vs, false).value;
      EscapeLength(json, vs, ve, false);
    }
  }

  /** The repair leaves the input untouched when the value has no bare quote, even if a
      closing quote was found. */
  lemma RepairUnneeded(s: string)
    requires !IsBlank(s) && WrappedInBraces(Trim(s)) && IndexOf(Trim(s), Key).Some?
    requires var json := Trim(s);
             var vs := IndexOf(json, Key).value + |Key|;
             FindValueEnd(json, vs, false).Some?
             && EscapeCount(json, vs, FindValueEnd(json, vs, false).value, false) == 0
    ensures Repair(s) == s
  {
  }

  /** Scanning the escaped text from its start, with the flag the original scan had
      there: no quote in it is bare, and the flag on leaving it is the flag the
      original scan had on reaching `end`. */
  lemma {:induction false} ScanThroughEscaped(s: string, i: nat, end: nat, flag: bool, r: string, off: nat)
    requires i <= end <= |s|
    requires off + |Escape(s, i, end, flag)| <= |r|
    requires r[off..off + |Escape(s, i, end, flag)|] == Escape(s, i, end, flag)
    ensures EscapeCount(r, off, off + |Escape(s, i, end, flag)|, flag) == 0
    ensures FlagAfter(r, off, off + |Escape(s, i, end, flag)|, flag) == FlagAfter(s, i, end, flag)
    decreases end - i
  {
    if i < end {
      var rest := Escape(s, i + 1, end, NextFlag(s[i], flag));
      var e := off + |Escape(s, i, end, flag)|;
      if BareQuote(s, i, flag) {
        assert Escape(s, i, end, flag) == "\\\"" + rest;
        SplitSlice(r, off, "\\\"", rest);
        ScanThroughEscaped(s, i + 1, end, NextFlag(s[i], flag), r, off + 2);
        CountStep(r, off, e, false);
        CountStep(r, off + 1, e, true);
      } else {
        assert Escape(s, i, end, flag) == [s[i]] + rest;
        SplitSlice(r, off, [s[i]], rest);
        ScanThroughEscaped(s, i + 1, end, NextFlag(s[i], flag), r, off + 1);
        CountStep(r, off, e, flag);
      }
    }
  }

  /** One step of the count and the flag over a character that is not a bare quote. */
  lemma CountStep(r: string, off: nat, e: nat, flag: bool)
    requires off < e <= |r| && !BareQuote(r, off, flag)
    ensures EscapeCount(r, off, e, flag) == EscapeCount(r, off + 1, e, NextFlag(r[off], flag))
    ensures FlagAfter(r, off, e, flag) == FlagAfter(r, off + 1, e, NextFlag(r[off], flag))
  {
  }

  /** The search for the closing quote crosses a stretch without bare quotes and goes
      on with the flag it has at the stretch's end. */
  lemma {:induction false} NoBareQuoteCrossed(r: string, off: nat, e: nat, flag: bool)
    requires off <= e <= |r| && EscapeCount(r, off, e, flag) == 0
    ensures FindValueEnd(r, off, flag) == FindValueEnd(r, e, FlagAfter(r, off, e, flag))
    decreases e - off
  {
    if off < e {
      assert !BareQuote(r, off, flag);
      NoBareQuoteCrossed(r, off + 1, e, NextFlag(r[off], flag));
    }
  }

  /** A slice of r that spells a + b holds a from its start and b right after. */
  lemma SplitSlice(r: string, off: nat, a: string, b: string)
    requires off + |a| + |b| <= |r| && r[off..off + |a| + |b|] == a + b
    ensures forall i :: 0 <= i < |a| ==> r[off + i] == a[i]
    ensures r[off + |a|..off + |a| + |b|] == b
  {
    forall i | 0 <= i < |a| ensures r[off + i] == a[i] {
      assert r[off + i] == r[off..off + |a| + |b|][i];
    }
    assert r[off + |a|..off + |a| + |b|] == r[off..off + |a| + |b|][|a|..];
  }

  /** The quote the scan found is bare (the flag is clear on reaching it) and is
      followed, after optional whitespace, by ',' or '}'. */
  lemma {:induction false} ValueEndCloses(s: string, i: nat, flag: bool)
    requires FindValueEnd(s, i, flag).Some?
    ensures var e := FindValueEnd(s, i, flag).value;
            FlagAfter(s, i, e, flag) == false && ClosesValue(s, e)
    decreases |s| - i
  {
    if !(BareQuote(s, i, flag) && ClosesValue(s, i)) {
      ValueEndCloses(s, i + 1, NextFlag(s[i], flag));
    }
  }

  /** Whether a quote closes a value depends only on the text after it. */
  lemma {:induction false} SkipWhiteSpaceShift(s: string, a: nat, t: string, b: nat)
    requires a <= |s| && b <= |t| && s[a..] == t[b..]
    ensures SkipWhiteSpace(s, a) - a == SkipWhiteSpace(t, b) - b
    decreases |s| - a
  {
    if a < |s| {
      assert s[a] == s[a..][0] && t[b] == t[b..][0];
      if IsWhiteSpace(s[a]) {
        assert s[a + 1..] == s[a..][1..] && t[b + 1..] == t[b..][1..];
        SkipWhiteSpaceShift(s, a + 1, t, b + 1);
      }
    }
  }

  /** Repairing a repaired text changes nothing: after one pass every quote inside the
      value is escaped, so the second pass finds the same closing quote and nothing to
      escape before it. */
  lemma RepairIdempotent(s: string)
    ensures Repair(Repair(s)) == Repair(s)
  {
    if Repair(s) != s {
      RepairShape(s);
      var json := Trim(s);
      var k := IndexOf(json, Key).value;
      RepairedIsFixed(json, k, FindValueEnd(json, k + |Key|, false).value);
    }
  }

  /** The repaired text of a trimmed, braced input is left as it is by the repair. */
  lemma RepairedIsFixed(json: string, k: nat, ve: nat)
    requires WrappedInBraces(json)
    requires IndexOf(json, Key) == Some(k) && FindValueEnd(json, k + |Key|, false) == Some(ve)
    ensures Repair(Escaped(json, k + |Key|, ve)) == Escaped(json, k + |Key|, ve)
  {
    RescanRepaired(json, k, ve);
    RescanEscaped(json, k + |Key|, ve);
    KeptWhenNothingToEscape(Escaped(json, k + |Key|, ve), k, k + |Key| + |Escape(json, k + |Key|, ve, false)|);
  }

  /** Escaping a value strictly inside a braced text keeps it braced. */
  lemma EscapedKeepsBraces(json: string, vs: nat, ve: nat)
    requires 0 < vs <= ve < |json| && WrappedInBraces(json)
    ensures WrappedInBraces(Escaped(json, vs, ve))
  {
    var r := Escaped(json, vs, ve);
    var e := Escape(json, vs, ve, false);
    assert r == json[..vs] + (e + json[ve..]);
    assert r[0] == json[..vs][0];
    assert r[|r| - 1] == json[ve..][|json| - ve - 1];
  }

  /** A braced text whose value has no bare quote is kept by the repair. */
  lemma KeptWhenNothingToEscape(r: string, k: nat, ve: nat)
    requires WrappedInBraces(r)
    requires IndexOf(r, Key) == Some(k) && FindValueEnd(r, k + |Key|, false) == Some(ve)
    requires EscapeCount(r, k + |Key|, ve, false) == 0
    ensures Repair(r) == r
  {
    TrimOfTrimmed(r);
    assert !IsBlank(r) by {
      assert !IsWhiteSpace(r[0]);
    }
  }

  /** The repaired text is still braced, and the search for the key finds it at the
      same place. */
  lemma RescanRepaired(json: string, k: nat, ve: nat)
    requires WrappedInBraces(json)
    requires IndexOf(json, Key) == Some(k)
    requires FindValueEnd(json, k + |Key|, false) == Some(ve)
    ensures WrappedInBraces(Escaped(json, k + |Key|, ve))
    ensures IndexOf(Escaped(json, k + |Key|, ve), Key) == Some(k)
  {
    EscapedKeepsBraces(json, k + |Key|, ve);
    EscapedParts(json, k + |Key|, ve);
    IndexOfSamePrefix(json, Escaped(json, k + |Key|, ve), Key, 0, k);
  }

  /** RescanValue, for the escaped text itself. */
  lemma RescanEscaped(json: string, vs: nat, ve: nat)
    requires vs <= |json| && FindValueEnd(json, vs, false) == Some(ve)
    ensures FindValueEnd(Escaped(json, vs, ve), vs, false) == Some(vs + |Escape(json, vs, ve, false)|)
    ensures EscapeCount(Escaped(json, vs, ve), vs, vs + |Escape(json, vs, ve, false)|, false) == 0
  {
    EscapedParts(json, vs, ve);
    RescanValue(json, vs, ve, Escape(json, vs, ve, false), Escaped(json, vs, ve));
  }

  /** The escaped text is the text before the value, the escaped value, and the text
      from the closing quote on. */
  lemma EscapedParts(json: string, vs: nat, ve: nat)
    requires vs <= ve <= |json|
    ensures var r := Escaped(json, vs, ve);
            var n := vs + |Escape(json, vs, ve, false)|;
            && n <= |r|
            && r[..vs] == json[..vs]
            && r[vs..n] == Escape(json, vs, ve, false)
            && r[n..] == json[ve..]
  {
  }

  /** The scan of the repaired value, from its start, stops at the original closing
      quote, now shifted by the backslashes added, and finds no bare quote before it. */
  lemma RescanValue(json: string, vs: nat, ve: nat, e: string, r: string)
    requires vs <= |json| && FindValueEnd(json, vs, false) == Some(ve)
    requires e == Escape(json, vs, ve, false)
    requires vs + |e| <= |r| && r[vs..vs + |e|] == e && r[vs + |e|..] == json[ve..]
    ensures FindValueEnd(r, vs, false) == Some(vs + |e|)
    ensures EscapeCount(r, vs, vs + |e|, false) == 0
  {
    ScanThroughEscaped(json, vs, ve, false, r, vs);
    NoBareQuoteCrossed(r, vs, vs + |e|, false);
    ValueEndCloses(json, vs, false);
    ClosingQuoteKept(json, ve, e, r, vs + |e|);
  }

  /** The closing quote, moved to `at` with the same text after it, still closes the
      value when the scan reaches it with a clear flag. */
  lemma ClosingQuoteKept(json: string, ve: nat, e: string, r: string, at: nat)
    requires ve < |json| && json[ve] == '"' && ClosesValue(json, ve)
    requires at <= |r| && r[at..] == json[ve..]
    ensures FindValueEnd(r, at, false) == Some(at)
  {
    assert r[at] == json[ve] by {
      assert r[at] == r[at..][0];
    }
    assert r[at + 1..] == json[ve + 1..] by {
      assert r[at + 1..] == r[at..][1..];
    }
    SkipWhiteSpaceShift(json, ve + 1, r, at + 1);
  }

  /** The repair rewrites only inputs that pass IsValidJson's pre-checks. */
  lemma RepairOnlyBraced(s: string, parses: string -> bool)
    requires Repair(s) != s
    ensures !IsBlank(s) && WrappedInBraces(Trim(s))
    ensures IsValidJson(s, parses) == parses(Trim(s))
  {
    RepairShape(s);
  }
}
