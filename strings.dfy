/**
  The .NET string primitives the pipeline relies on, stated over `seq<char>`:
  white-space classification, Trim, ordinal and ordinal-ignore-case search,
  Split on one character, Join, and ToLowerInvariant.
  Case mapping is modelled for ASCII letters only.
 */
module Strings {
  import opened Wrappers

  /** Char.IsWhiteSpace: U+0009..U+000D, U+0020, U+0085, U+00A0 and the Unicode space, line and paragraph separators. */
  predicate IsWhiteSpace(c: char)
  {
    c == ' ' || ('\t' <= c <= '\r') || c == '\U{0085}' || c == '\U{00A0}' || c == '\U{1680}'
    || ('\U{2000}' <= c <= '\U{200A}') || c == '\U{2028}' || c == '\U{2029}'
    || c == '\U{202F}' || c == '\U{205F}' || c == '\U{3000}'
  }

  function AllWhiteSpace(s: string): (r: bool)
    ensures r <==> forall i | 0 <= i < |s| :: IsWhiteSpace(s[i])
  {
    s == [] || (IsWhiteSpace(s[0]) && AllWhiteSpace(s[1..]))
  }

  /** string.IsNullOrWhiteSpace */
  function IsNullOrWhiteSpace(s: Option<string>): (r: bool)
    ensures r <==> s.None? || forall i | 0 <= i < |s.value| :: IsWhiteSpace(s.value[i])
    ensures !r ==> s.Some? && exists i | 0 <= i < |s.value| :: !IsWhiteSpace(s.value[i])
  {
    match s
    case None => true
    case Some(t) => AllWhiteSpace(t)
  }

  /** string.TrimStart(): the suffix left after dropping the leading white space. */
  function TrimStart(s: string): (r: string)
    ensures |r| <= |s| && r == s[|s| - |r|..]
    ensures forall i | 0 <= i < |s| - |r| :: IsWhiteSpace(s[i])
    ensures r != [] ==> !IsWhiteSpace(r[0])
  {
    if s != [] && IsWhiteSpace(s[0]) then TrimStart(s[1..]) else s
  }

  /** string.TrimEnd(): the prefix left after dropping the trailing white space. */
  function TrimEnd(s: string): (r: string)
    ensures |r| <= |s| && r == s[..|r|]
    ensures forall i | |r| <= i < |s| :: IsWhiteSpace(s[i])
    ensures r != [] ==> !IsWhiteSpace(r[|r| - 1])
  {
    if s != [] && IsWhiteSpace(s[|s| - 1]) then TrimEnd(s[..|s| - 1]) else s
  }

  /** string.Trim() */
  function Trim(s: string): (r: string)
  {
    TrimEnd(TrimStart(s))
  }

  /** What Trim keeps: a slice of its input with no white space at either end, empty exactly for blank input. */
  lemma TrimProperties(s: string)
    ensures |Trim(s)| <= |s|
    ensures Trim(s) != [] ==> !IsWhiteSpace(Trim(s)[0]) && !IsWhiteSpace(Trim(s)[|Trim(s)| - 1])
    ensures Trim(s) == [] <==> AllWhiteSpace(s)
    ensures Trim(Trim(s)) == Trim(s)
  {
    var t := TrimStart(s);
    var r := TrimEnd(t);
    if r != [] {
      assert r[0] == t[0];
    } else {
      assert AllWhiteSpace(t);
    }
  }

  /** ToUpperInvariant on one character (ASCII letters only), the folding behind OrdinalIgnoreCase. */
  function ToUpper(c: char): char
  {
    if 'a' <= c <= 'z' then (c as int - 32) as char else c
  }

  /** ToLowerInvariant on one character (ASCII letters only). */
  function ToLower(c: char): char
  {
    if 'A' <= c <= 'Z' then (c as int + 32) as char else c
  }

  /** string.ToLowerInvariant() */
  function ToLowerInvariant(s: string): (r: string)
    ensures |r| == |s|
    ensures forall i | 0 <= i < |s| :: r[i] == ToLower(s[i])
  {
    if s == [] then [] else [ToLower(s[0])] + ToLowerInvariant(s[1..])
  }

  predicate CharEquals(a: char, b: char, ignoreCase: bool)
  {
    if ignoreCase then ToUpper(a) == ToUpper(b) else a == b
  }

  /** string.Equals(a, b, StringComparison.OrdinalIgnoreCase) */
  predicate EqualsIgnoreCase(a: string, b: string)
  {
    |a| == |b| && forall i | 0 <= i < |a| :: CharEquals(a[i], b[i], true)
  }

  /** Strings equal under OrdinalIgnoreCase have the same ToLowerInvariant form. */
  lemma EqualsIgnoreCaseSameLower(a: string, b: string)
    requires EqualsIgnoreCase(a, b)
    ensures ToLowerInvariant(a) == ToLowerInvariant(b)
  {
    forall i | 0 <= i < |a| ensures ToLowerInvariant(a)[i] == ToLowerInvariant(b)[i] {
      assert CharEquals(a[i], b[i], true);
      SameUpperSameLower(a[i], b[i]);
    }
  }

  lemma SameUpperSameLower(x: char, y: char)
    requires ToUpper(x) == ToUpper(y)
    ensures ToLower(x) == ToLower(y)
  {
  }

  /** `pat` occurs in `s` at index `i`, compared ordinally or ordinally ignoring case. */
  predicate MatchesAt(s: string, pat: string, i: nat, ignoreCase: bool)
  {
    i + |pat| <= |s| && SameChars(s[i..i + |pat|], pat, ignoreCase)
  }

  /** `a` and `b` agree character by character, compared ordinally or ordinally ignoring case. */
  predicate SameChars(a: string, b: string, ignoreCase: bool)
  {
    |a| == |b| && (a == [] || (CharEquals(a[0], b[0], ignoreCase) && SameChars(a[1..], b[1..], ignoreCase)))
  }

  /** SameChars is the pointwise comparison. */
  lemma {:induction false} SameCharsMeaning(a: string, b: string, ignoreCase: bool)
    ensures SameChars(a, b, ignoreCase) <==> |a| == |b| && forall k | 0 <= k < |a| :: CharEquals(a[k], b[k], ignoreCase)
  {
    if a != [] && |a| == |b| {
      SameCharsMeaning(a[1..], b[1..], ignoreCase);
      assert forall k | 1 <= k < |a| :: a[k] == a[1..][k - 1] && b[k] == b[1..][k - 1];
    }
  }

  /** string.IndexOf(pat, start, comparison): the first match at or after `start`, or -1. */
  function IndexOf(s: string, pat: string, start: nat, ignoreCase: bool): (r: int)
    requires start <= |s|
    ensures r == -1 || start <= r <= |s| - |pat|
    decreases |s| - start
  {
    if MatchesAt(s, pat, start, ignoreCase) then start
    else if start == |s| then -1
    else IndexOf(s, pat, start + 1, ignoreCase)
  }

  /** What IndexOf returns, when it is not -1, is a match. */
  lemma {:induction false} IndexOfFound(s: string, pat: string, start: nat, ignoreCase: bool)
    requires start <= |s|
    ensures IndexOf(s, pat, start, ignoreCase) != -1 ==> MatchesAt(s, pat, IndexOf(s, pat, start, ignoreCase), ignoreCase)
    decreases |s| - start
  {
    if !MatchesAt(s, pat, start, ignoreCase) && start < |s| {
      IndexOfFound(s, pat, start + 1, ignoreCase);
    }
  }

  /** No match lies between `start` and what IndexOf returns; -1 means no match at or after `start`. */
  lemma {:induction false} IndexOfFirst(s: string, pat: string, start: nat, ignoreCase: bool)
    requires start <= |s|
    ensures forall i | start <= i && (IndexOf(s, pat, start, ignoreCase) == -1 || i < IndexOf(s, pat, start, ignoreCase)) ::
      !MatchesAt(s, pat, i, ignoreCase)
    decreases |s| - start
  {
    if !MatchesAt(s, pat, start, ignoreCase) && start < |s| {
      IndexOfFirst(s, pat, start + 1, ignoreCase);
    }
  }

  /** `t` occurs in `s` at index `i`. */
  predicate SubstringAt(t: string, s: string, i: nat)
  {
    i + |t| <= |s| && s[i..i + |t|] == t
  }

  ghost predicate IsSubstring(t: string, s: string)
  {
    exists i: nat :: SubstringAt(t, s, i)
  }

  /** string.Join(sep, xs) */
  function Join(sep: string, xs: seq<string>): (r: string)
  {
    if xs == [] then "" else if |xs| == 1 then xs[0] else xs[0] + sep + Join(sep, xs[1..])
  }

  /** Each joined element occurs in the joined string. */
  lemma {:induction false} JoinContainsElements(sep: string, xs: seq<string>, k: nat)
    requires k < |xs|
    ensures IsSubstring(xs[k], Join(sep, xs))
  {
    if |xs| == 1 {
      assert SubstringAt(xs[0], Join(sep, xs), 0);
    } else if k == 0 {
      assert SubstringAt(xs[0], Join(sep, xs), 0);
    } else {
      JoinContainsElements(sep, xs[1..], k - 1);
      var i: nat :| SubstringAt(xs[k], Join(sep, xs[1..]), i);
      var prefix := xs[0] + sep;
      assert Join(sep, xs) == prefix + Join(sep, xs[1..]);
      assert SubstringAt(xs[k], Join(sep, xs), |prefix| + i);
    }
  }

  /** A string with no character of a non-empty separator, found in a join, lies inside a single element. */
  lemma {:induction false} SeparatorFreeSubstringInElement(sep: string, xs: seq<string>, t: string, i: nat)
    requires sep != [] && t != []
    requires forall c | c in t :: c !in sep
    requires SubstringAt(t, Join(sep, xs), i)
    ensures exists k | 0 <= k < |xs| :: IsSubstring(t, xs[k])
  {
    if |xs| == 1 {
      assert SubstringAt(t, xs[0], i);
    } else {
      var head := xs[0];
      var rest := Join(sep, xs[1..]);
      assert Join(sep, xs) == head + sep + rest;
      if i + |t| <= |head| {
        assert SubstringAt(t, head, i) by {
          assert Join(sep, xs)[i..i + |t|] == head[i..i + |t|];
        }
      } else if i >= |head| + |sep| {
        var j: nat := i - |head| - |sep|;
        assert SubstringAt(t, rest, j) by {
          assert Join(sep, xs)[i..i + |t|] == rest[j..j + |t|];
        }
        SeparatorFreeSubstringInElement(sep, xs[1..], t, j);
        var k :| 0 <= k < |xs[1..]| && IsSubstring(t, xs[1..][k]);
        assert xs[1..][k] == xs[k + 1];
      } else {
        // t would cover a character of the separator
        SpanCoversSeparator(head, sep, rest, t, i);
        assert false;
      }
    }
  }

  /** A slice of `head + sep + rest` that starts before the end of `sep` and ends after `head` holds a character of `sep`. */
  lemma SpanCoversSeparator(head: string, sep: string, rest: string, t: string, i: nat)
    ensures SubstringAt(t, head + sep + rest, i) && t != [] && sep != [] && i < |head| + |sep| && i + |t| > |head|
            ==> exists k | 0 <= k < |t| :: t[k] in t && t[k] in sep
  {
    if SubstringAt(t, head + sep + rest, i) && t != [] && sep != [] && i < |head| + |sep| && i + |t| > |head| {
      var w := head + sep + rest;
      var p := if i >= |head| then i else |head|;
      assert 0 <= p - i < |t|;
      assert w[i..i + |t|] == t;
      assert t[p - i] == w[i..i + |t|][p - i] == w[p];
      assert w[p] == sep[p - |head|];
    }
  }

  /** Number of occurrences of character `c` in `s`. */
  function Count(s: string, c: char): nat
  {
    if s == [] then 0 else (if s[0] == c then 1 else 0) + Count(s[1..], c)
  }

  /** string.Split(c): the pieces between occurrences of `c`, empty pieces kept. */
  function Split(s: string, c: char): (r: seq<string>)
    ensures |r| == Count(s, c) + 1
    ensures forall k | 0 <= k < |r| :: c !in r[k]
  {
    if s == [] then [""]
    else
      var rest := Split(s[1..], c);
      if s[0] == c then [""] + rest else [[s[0]] + rest[0]] + rest[1..]
  }

  /** Split yields exactly two pieces iff the character occurs exactly once. */
  lemma SplitTwoPieces(s: string, c: char)
    ensures |Split(s, c)| == 2 <==> Count(s, c) == 1
  {
  }
}
