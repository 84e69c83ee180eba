/** String primitives of the .NET base library that the modelled code relies on:
    char.IsWhiteSpace, String.Trim, String.IsNullOrWhiteSpace, ToLower/ToUpper,
    OrdinalIgnoreCase equality, String.Split(char) and ordinal IndexOf.
    Strings are sequences of chars; a null string is not distinguished from "". */
module Text {

  /** char.IsWhiteSpace: the Unicode space separators, the line and paragraph
      separators and the control characters U+0009..U+000D and U+0085. */
  predicate IsWhiteSpace(c: char) {
    c == ' ' || ('\t' <= c <= '\r') || c == '\U{0085}' || c == '\U{00A0}' || c == '\U{1680}'
    || ('\U{2000}' <= c <= '\U{200A}') || c == '\U{2028}' || c == '\U{2029}'
    || c == '\U{202F}' || c == '\U{205F}' || c == '\U{3000}'
  }

  /** String.IsNullOrWhiteSpace */
  predicate IsBlank(s: string) {
    forall i :: 0 <= i < |s| ==> IsWhiteSpace(s[i])
  }

  /** The first position at or after i whose character is not whitespace, or |s|. */
  function FirstNonWhiteSpace(s: string, i: nat): (k: nat)
    requires i <= |s|
    ensures i <= k <= |s|
    ensures forall m :: i <= m < k ==> IsWhiteSpace(s[m])
    ensures k < |s| ==> !IsWhiteSpace(s[k])
    decreases |s| - i
  {
    if i == |s| || !IsWhiteSpace(s[i]) then i else FirstNonWhiteSpace(s, i + 1)
  }

  /** The end of s[lo..j] once the whitespace run that ends at j is cut off. */
  function EndBeforeWhiteSpace(s: string, lo: nat, j: nat): (e: nat)
    requires lo <= j <= |s|
    ensures lo <= e <= j
    ensures forall m :: e <= m < j ==> IsWhiteSpace(s[m])
    ensures lo < e ==> !IsWhiteSpace(s[e - 1])
    decreases j
  {
    if j == lo || !IsWhiteSpace(s[j - 1]) then j else EndBeforeWhiteSpace(s, lo, j - 1)
  }

  /** The number of whitespace characters String.TrimStart() removes. */
  function LeadingWhiteSpace(s: string): nat {
    FirstNonWhiteSpace(s, 0)
  }

  /** String.Trim(): a slice of s, bounded by non-whitespace, with only whitespace cut off. */
  function Trim(s: string): (r: string)
    ensures LeadingWhiteSpace(s) + |r| <= |s|
    ensures r == s[LeadingWhiteSpace(s)..LeadingWhiteSpace(s) + |r|]
    ensures forall i :: 0 <= i < LeadingWhiteSpace(s) ==> IsWhiteSpace(s[i])
    ensures forall i :: LeadingWhiteSpace(s) + |r| <= i < |s| ==> IsWhiteSpace(s[i])
    ensures r == [] || (!IsWhiteSpace(r[0]) && !IsWhiteSpace(r[|r| - 1]))
    ensures r == [] <==> IsBlank(s)
  {
    var a := FirstNonWhiteSpace(s, 0);
    var e := EndBeforeWhiteSpace(s, a, |s|);
    if a < e then
      assert s[a..e][0] == s[a] && s[a..e][e - a - 1] == s[e - 1];
      s[a..e]
    else
      []
  }

  /** A string whose two ends are not whitespace is its own trim. */
  lemma TrimOfTrimmed(s: string)
    requires s != [] && !IsWhiteSpace(s[0]) && !IsWhiteSpace(s[|s| - 1])
    ensures Trim(s) == s
  {
    assert FirstNonWhiteSpace(s, 0) == 0;
    assert EndBeforeWhiteSpace(s, 0, |s|) == |s|;
    assert s[0..|s|] == s;
  }

  /** Trimming removes exactly the whitespace padding around a string with non-blank ends. */
  lemma TrimOfPadded(w1: string, c: string, w2: string)
    requires IsBlank(w1) && IsBlank(w2)
    requires c != [] && !IsWhiteSpace(c[0]) && !IsWhiteSpace(c[|c| - 1])
    ensures Trim(w1 + c + w2) == c
  {
    var x := w1 + c + w2;
    var b := |w1| + |c|;
    assert forall m :: 0 <= m < |w1| ==> x[m] == w1[m];
    assert x[|w1|] == c[0] && x[b - 1] == c[|c| - 1];
    assert forall m :: b <= m < |x| ==> x[m] == w2[m - b];
    var a := FirstNonWhiteSpace(x, 0);
    assert a == |w1|;
    var e := EndBeforeWhiteSpace(x, a, |x|);
    assert e == b;
    assert x[a..e] == c;
  }

  /** char.ToLowerInvariant for Latin (A-Z) and Cyrillic (U+0400..U+042F) capitals;
      every other character is its own lower case. */
  function LowerChar(c: char): char {
    if 'A' <= c <= 'Z' then (c as int + 32) as char
    else if '\U{0410}' <= c <= '\U{042F}' then (c as int + 32) as char
    else if '\U{0400}' <= c <= '\U{040F}' then (c as int + 80) as char
    else c
  }

  /** char.ToUpperInvariant for the same two alphabets. */
  function UpperChar(c: char): char {
    if 'a' <= c <= 'z' then (c as int - 32) as char
    else if '\U{0430}' <= c <= '\U{044F}' then (c as int - 32) as char
    else if '\U{0450}' <= c <= '\U{045F}' then (c as int - 80) as char
    else c
  }

  /** String.ToLower() */
  function ToLower(s: string): (r: string)
    ensures |r| == |s| && forall i :: 0 <= i < |s| ==> r[i] == LowerChar(s[i])
  {
    seq(|s|, i requires 0 <= i < |s| => LowerChar(s[i]))
  }

  /** Whitespace has no case: lower-casing keeps a character's whitespace-ness. */
  lemma LowerKeepsWhiteSpace(c: char)
    ensures IsWhiteSpace(LowerChar(c)) <==> IsWhiteSpace(c)
  {
  }

  /** String.Equals(a, b, StringComparison.OrdinalIgnoreCase): equal length and
      equal upper-case forms, character by character. */
  predicate EqualsIgnoreCase(a: string, b: string) {
    |a| == |b| && forall i :: 0 <= i < |a| ==> UpperChar(a[i]) == UpperChar(b[i])
  }

  /** String.Split(sep): every part, empty ones included, in order. */
  function Split(s: string, sep: char): (r: seq<string>)
    ensures |r| >= 1
    ensures sep !in s ==> r == [s]
  {
    if s == [] then [[]]
    else
      var rest := Split(s[1..], sep);
      if s[0] == sep then [[]] + rest
      else assert [s[0]] + s[1..] == s; [[s[0]] + rest[0]] + rest[1..]
  }

  /** Splitting at the first separator yields the text before it, then the split of the rest. */
  lemma {:induction false} SplitAtFirst(a: string, b: string, sep: char)
    requires sep !in a
    ensures Split(a + [sep] + b, sep) == [a] + Split(b, sep)
  {
    if a == [] {
      assert a + [sep] + b == [sep] + b;
      assert ([sep] + b)[1..] == b;
    } else {
      assert (a + [sep] + b)[1..] == a[1..] + [sep] + b;
      SplitAtFirst(a[1..], b, sep);
      assert [a[0]] + a[1..] == a;
    }
  }

  /** Ordinal occurrence of `key` at position j of s. */
  predicate OccursAt(s: string, key: string, j: nat) {
    j + |key| <= |s| && s[j..j + |key|] == key
  }

  /** String.IndexOf(key, StringComparison.Ordinal), searching from position j. */
  function IndexOfFrom(s: string, key: string, j: nat): (r: Option<nat>)
    ensures r.Some? ==> j <= r.value && OccursAt(s, key, r.value)
    ensures r.Some? ==> forall m :: j <= m < r.value ==> !OccursAt(s, key, m)
    ensures r.None? ==> forall m :: j <= m ==> !OccursAt(s, key, m)
    decreases |s| - j
  {
    if j + |key| > |s| then None
    else if s[j..j + |key|] == key then Some(j)
    else IndexOfFrom(s, key, j + 1)
  }

  function IndexOf(s: string, key: string): Option<nat> {
    IndexOfFrom(s, key, 0)
  }

  /** The first occurrence of a key is a property of the text up to its end:
      another string with the same prefix finds it at the same place. */
  lemma {:induction false} IndexOfSamePrefix(s: string, t: string, key: string, j: nat, k: nat)
    requires IndexOfFrom(s, key, j) == Some(k)
    requires k + |key| <= |t| && t[..k + |key|] == s[..k + |key|]
    ensures IndexOfFrom(t, key, j) == Some(k)
    decreases k - j
  {
    forall m | j <= m < j + |key| ensures t[m] == s[m] {
      assert t[m] == t[..k + |key|][m] && s[m] == s[..k + |key|][m];
    }
    assert t[j..j + |key|] == s[j..j + |key|];
    if j < k {
      IndexOfSamePrefix(s, t, key, j + 1, k);
    }
  }

  datatype Option<+T> = None | Some(value: T)
}
