/**
  Extraction of storage connection strings from one page of code-search results.

  A page is the sequence of its result containers (the `div.code-list-item` nodes, in document
  order). Of each container the model keeps the inner text of its `td.blob-code` cells and
  whether it has a `p.title` node and, inside it, an `a` node with its inner text.
  HttpUtility.HtmlDecode is a given function `htmlDecode`.
 */
module GitHubPage {
  import opened Wrappers
  import opened Strings
  import opened Linq
  import opened SharedLibs

  /** The marker token, searched for ignoring case. */
  const Marker: string := "DefaultEndpointsProtocol"
  /** The terminator, searched for ordinally. */
  const Terminator: string := "=="
  /** Environment.NewLine of the Windows .NET Framework the program targets. */
  const NewLine: string := "\r\n"

  /** The first `p.title` node of a container, with the inner text of its first `a` node if it has one. */
  datatype Title = Title(firstAnchorText: Option<string>)

  /** A result container: the inner texts of its code cells and its first title node, if any. */
  datatype CodeDiv = CodeDiv(codeCells: seq<string>, title: Option<Title>)

  type Page = seq<CodeDiv>

  // ---------------------------------------------------------------------------------------
  // GetCodeContent and GetRepoName

  /** The code lines as the page shows them: each cell's inner text trimmed, then HTML-decoded. */
  function DecodedLines(div: CodeDiv, htmlDecode: string -> string): (r: seq<string>)
    ensures |r| == |div.codeCells|
  {
    seq(|div.codeCells|, i requires 0 <= i < |div.codeCells| => htmlDecode(Trim(div.codeCells[i])))
  }

  /**
    GetCodeContent: the decoded lines joined by NewLine, or the empty string when there are no code
    cells. The early return agrees with joining no lines, and a single line is returned as it is.
   */
  function GetCodeContent(div: CodeDiv, htmlDecode: string -> string): (r: string)
    ensures r == Join(NewLine, DecodedLines(div, htmlDecode))
    ensures div.codeCells == [] ==> r == ""
    ensures |div.codeCells| == 1 ==> r == htmlDecode(Trim(div.codeCells[0]))
  {
    if div.codeCells == [] then "" else Join(NewLine, DecodedLines(div, htmlDecode))
  }

  /** GetRepoName: the trimmed text of the first anchor of the first title node, or "" when either is missing. */
  function GetRepoName(div: CodeDiv): (r: string)
    ensures div.title.None? ==> r == ""
    ensures div.title.Some? && div.title.value.firstAnchorText.None? ==> r == ""
    ensures r != [] ==> !IsWhiteSpace(r[0]) && !IsWhiteSpace(r[|r| - 1])
  {
    match div.title
    case None => ""
    case Some(p) =>
      match p.firstAnchorText
      case None => ""
      case Some(text) => TrimProperties(text); Trim(text)
  }

  // ---------------------------------------------------------------------------------------
  // The spans ExtractConnectionStrings takes, defined declaratively

  predicate MarkerAt(code: string, i: nat)
  {
    MatchesAt(code, Marker, i, true)
  }

  predicate TerminatorAt(code: string, i: nat)
  {
    MatchesAt(code, Terminator, i, false)
  }

  predicate HasLineBreak(s: string)
  {
    '\r' in s || '\n' in s
  }

  /** Where a span that starts at `b` ends: the first terminator at or after b + 1, or -1. */
  function EndOf(code: string, b: nat): int
    requires b < |code|
  {
    IndexOf(code, Terminator, b + 1, false)
  }

  /** The next marker at or after `i`, or -1. */
  function NextMarker(code: string, i: nat): int
    requires i <= |code|
  {
    IndexOf(code, Marker, i, true)
  }

  /** EndOf, when it is not -1, is a terminator that leaves room for both its characters. */
  lemma EndOfFound(code: string, b: nat)
    requires b < |code|
    ensures EndOf(code, b) != -1 ==> b + 1 <= EndOf(code, b) && EndOf(code, b) + 2 <= |code| && TerminatorAt(code, EndOf(code, b))
  {
    IndexOfFound(code, Terminator, b + 1, false);
  }

  /** No terminator lies between `b` and EndOf. */
  lemma EndOfFirst(code: string, b: nat)
    requires b < |code|
    ensures forall i | b + 1 <= i && (EndOf(code, b) == -1 || i < EndOf(code, b)) :: !TerminatorAt(code, i)
  {
    IndexOfFirst(code, Terminator, b + 1, false);
  }

  /** No marker lies between `i` and NextMarker. */
  lemma NextMarkerFirst(code: string, i: nat)
    requires i <= |code|
    ensures forall j | i <= j && (NextMarker(code, i) == -1 || j < NextMarker(code, i)) :: !MarkerAt(code, j)
  {
    IndexOfFirst(code, Marker, i, true);
  }

  /**
    The marker at `b` opens an emitted connection string: a terminator follows it, the next
    marker after `b` does not start before that terminator, and the span has no line break.
   */
  ghost predicate Accepted(code: string, b: nat)
  {
    && b < |code|
    && MarkerAt(code, b)
    && EndOf(code, b) >= 0
    && (NextMarker(code, b + 1) == -1 || NextMarker(code, b + 1) >= EndOf(code, b))
    && !HasLineBreak(code[b..EndOf(code, b) + 2])
  }

  /** No marker starts strictly between an accepted marker and its terminator. */
  lemma AcceptedNoInnerMarker(code: string, b: nat, j: nat)
    requires Accepted(code, b)
    requires b < j < EndOf(code, b)
    ensures !MarkerAt(code, j)
  {
    NextMarkerFirst(code, b + 1);
  }

  /** The accepted marker positions at or after `from`, in increasing order. */
  ghost function AcceptedFrom(code: string, from: nat): seq<nat>
    decreases |code| - from
  {
    if from >= |code| then [] else (if Accepted(code, from) then [from] else []) + AcceptedFrom(code, from + 1)
  }

  /** The text of the span a marker at `b` opens: from the marker through the terminator. */
  ghost function SpanText(code: string, b: nat): string
  {
    if b < |code| && EndOf(code, b) >= 0 then code[b..EndOf(code, b) + 2] else ""
  }

  ghost function Texts(code: string, bs: seq<nat>): (r: seq<string>)
    ensures |r| == |bs|
  {
    if bs == [] then [] else [SpanText(code, bs[0])] + Texts(code, bs[1..])
  }

  /** Texts keeps the order of the positions it is given. */
  lemma {:induction false} TextsAt(code: string, bs: seq<nat>)
    ensures forall k | 0 <= k < |bs| :: Texts(code, bs)[k] == SpanText(code, bs[k])
  {
    if bs != [] {
      TextsAt(code, bs[1..]);
    }
  }

  lemma {:induction false} TextsAppend(code: string, bs: seq<nat>, cs: seq<nat>)
    ensures Texts(code, bs + cs) == Texts(code, bs) + Texts(code, cs)
  {
    if bs != [] {
      assert (bs + cs)[0] == bs[0];
      assert (bs + cs)[1..] == bs[1..] + cs;
      TextsAppend(code, bs[1..], cs);
      var head := [SpanText(code, bs[0])];
      assert head + (Texts(code, bs[1..]) + Texts(code, cs)) == (head + Texts(code, bs[1..])) + Texts(code, cs);
    } else {
      assert bs + cs == cs;
    }
  }

  /** What ExtractConnectionStrings returns for `code`: the texts of all accepted spans, in order. */
  ghost function Extracted(code: string): seq<string>
  {
    Texts(code, AcceptedFrom(code, 0))
  }

  /** The shape of every emitted string. */
  ghost predicate WellFormedConnectionString(t: string)
  {
    && |t| >= |Marker| + |Terminator|
    && MarkerAt(t, 0)
    && TerminatorAt(t, |t| - |Terminator|)
    && (forall j | 0 < j < |t| :: !MarkerAt(t, j))
    && (forall j | 0 <= j < |t| - |Terminator| :: !TerminatorAt(t, j))
    && !HasLineBreak(t)
  }

  // ---------------------------------------------------------------------------------------
  // Lemmas about spans

  lemma MarkerLetters()
    ensures forall k | 0 <= k < |Marker| :: ToUpper(Marker[k]) != '='
  {
  }

  /** No '=' lies inside a marker occurrence. */
  lemma MarkerHasNoEquals(code: string, b: nat, j: nat)
    requires MarkerAt(code, b)
    requires b <= j < b + |Marker|
    ensures code[j] != '='
  {
    var w := code[b..b + |Marker|];
    MarkerLetters();
    SameCharsMeaning(w, Marker, true);
    assert CharEquals(w[j - b], Marker[j - b], true);
    assert w[j - b] == code[j];
  }

  /** A terminator is two '=' characters. */
  lemma TerminatorChars(code: string, e: nat)
    ensures TerminatorAt(code, e) ==> e + 2 <= |code| && code[e] == '=' && code[e + 1] == '='
  {
    if TerminatorAt(code, e) {
      SameCharsMeaning(code[e..e + 2], Terminator, false);
      assert CharEquals(code[e..e + 2][0], Terminator[0], false);
      assert CharEquals(code[e..e + 2][1], Terminator[1], false);
    }
  }

  /** A terminator's two characters cannot start a marker. */
  lemma TerminatorIsNotMarker(code: string, e: nat)
    requires TerminatorAt(code, e)
    ensures !MarkerAt(code, e) && !MarkerAt(code, e + 1)
  {
    TerminatorChars(code, e);
    if MarkerAt(code, e) {
      MarkerHasNoEquals(code, e, e);
    }
    if MarkerAt(code, e + 1) {
      MarkerHasNoEquals(code, e + 1, e + 1);
    }
  }

  /** A marker does not start with a terminator. */
  lemma MarkerIsNotTerminator(code: string, b: nat)
    requires MarkerAt(code, b)
    ensures !TerminatorAt(code, b)
  {
    MarkerHasNoEquals(code, b, b);
    TerminatorChars(code, b);
  }

  /** A span's terminator lies after the whole marker. */
  lemma EndAfterMarker(code: string, b: nat)
    requires b < |code| && MarkerAt(code, b) && EndOf(code, b) >= 0
    ensures EndOf(code, b) >= b + |Marker|
  {
    var e := EndOf(code, b);
    EndOfFound(code, b);
    if e < b + |Marker| {
      TerminatorChars(code, e);
      MarkerHasNoEquals(code, b, e);
    }
  }

  /** A match inside a slice is a match in the whole string, shifted by the slice's start. */
  lemma MatchesInSlice(code: string, lo: nat, hi: nat, pat: string, j: nat, ignoreCase: bool)
    requires lo <= hi <= |code|
    requires j + |pat| <= hi - lo
    ensures MatchesAt(code[lo..hi], pat, j, ignoreCase) <==> MatchesAt(code, pat, lo + j, ignoreCase)
  {
    var u, v := code[lo..hi][j..j + |pat|], code[lo + j..lo + j + |pat|];
    assert forall k | 0 <= k < |u| :: u[k] == code[lo + j + k] == v[k];
    assert u == v;
  }

  /** Every accepted span is a well-formed connection string found at its marker position. */
  lemma AcceptedSpanShape(code: string, b: nat)
    requires Accepted(code, b)
    ensures WellFormedConnectionString(SpanText(code, b))
    ensures SubstringAt(SpanText(code, b), code, b)
  {
    var e := EndOf(code, b);
    var t := SpanText(code, b);
    EndOfFound(code, b);
    EndAfterMarker(code, b);
    assert |t| == e + 2 - b;
    MatchesInSlice(code, b, e + 2, Marker, 0, true);
    MatchesInSlice(code, b, e + 2, Terminator, |t| - 2, false);
    SpanNoInnerMarker(code, b);
    SpanNoInnerTerminator(code, b);
  }

  /** No marker starts inside an accepted span after its own. */
  lemma SpanNoInnerMarker(code: string, b: nat)
    requires Accepted(code, b)
    ensures forall j | 0 < j < |SpanText(code, b)| :: !MarkerAt(SpanText(code, b), j)
  {
    var e := EndOf(code, b);
    var t := SpanText(code, b);
    EndOfFound(code, b);
    forall j | 0 < j < |t| ensures !MarkerAt(t, j) {
      if j + |Marker| <= |t| {
        MatchesInSlice(code, b, e + 2, Marker, j, true);
        AcceptedNoInnerMarker(code, b, b + j);
      }
    }
  }

  /** No terminator starts inside an accepted span before its own. */
  lemma SpanNoInnerTerminator(code: string, b: nat)
    requires Accepted(code, b)
    ensures forall j | 0 <= j < |SpanText(code, b)| - 2 :: !TerminatorAt(SpanText(code, b), j)
  {
    var e := EndOf(code, b);
    var t := SpanText(code, b);
    EndOfFound(code, b);
    EndOfFirst(code, b);
    forall j | 0 <= j < |t| - 2 ensures !TerminatorAt(t, j) {
      MatchesInSlice(code, b, e + 2, Terminator, j, false);
      if j == 0 {
        MarkerIsNotTerminator(code, b);
      } else {
        assert b + 1 <= b + j < e;
        assert !TerminatorAt(code, b + j);
      }
    }
  }

  /** Accepted spans never overlap: the next accepted marker starts after the previous terminator. */
  lemma AcceptedSpansDisjoint(code: string, b1: nat, b2: nat)
    requires Accepted(code, b1) && Accepted(code, b2) && b1 < b2
    ensures EndOf(code, b1) + 2 <= b2
  {
    var e1 := EndOf(code, b1);
    EndOfFound(code, b1);
    NextMarkerFirst(code, b1 + 1);
    TerminatorIsNotMarker(code, e1);
  }

  /** Innermost marker wins: a marker followed by another marker before any terminator opens nothing. */
  lemma OuterMarkerNotAccepted(code: string, b: nat, m: nat)
    requires b < m && MarkerAt(code, b) && MarkerAt(code, m)
    requires forall j | b < j <= m :: !TerminatorAt(code, j)
    ensures !Accepted(code, b)
  {
    if b < |code| && EndOf(code, b) >= 0 {
      var e := EndOf(code, b);
      EndOfFound(code, b);
      EndOfFirst(code, b);
      NextMarkerFirst(code, b + 1);
      assert e > m;
    }
  }

  /** AcceptedFrom lists exactly the accepted positions from `from` on, in strictly increasing order. */
  lemma {:induction false} AcceptedFromSpec(code: string, from: nat)
    ensures forall k | 0 <= k < |AcceptedFrom(code, from)| ::
      from <= AcceptedFrom(code, from)[k] && Accepted(code, AcceptedFrom(code, from)[k])
    ensures forall k, l | 0 <= k < l < |AcceptedFrom(code, from)| :: AcceptedFrom(code, from)[k] < AcceptedFrom(code, from)[l]
    ensures forall b: nat | from <= b && Accepted(code, b) :: b in AcceptedFrom(code, from)
    decreases |code| - from
  {
    if from < |code| {
      AcceptedFromSpec(code, from + 1);
    }
  }

  /** Positions that open nothing can be skipped. */
  lemma {:induction false} SkipUnaccepted(code: string, s: nat, t: nat)
    requires s <= t <= |code|
    requires forall j | s <= j < t :: !Accepted(code, j)
    ensures AcceptedFrom(code, s) == AcceptedFrom(code, t)
    decreases t - s
  {
    if s < t {
      SkipUnaccepted(code, s + 1, t);
    }
  }

  /**
    The emitted strings, in the order they are emitted, sit at strictly increasing positions of
    `code`, do not overlap, and each is a well-formed connection string.
   */
  lemma ExtractedInOrder(code: string)
    ensures |Extracted(code)| == |AcceptedFrom(code, 0)|
    ensures forall k | 0 <= k < |Extracted(code)| ::
      SubstringAt(Extracted(code)[k], code, AcceptedFrom(code, 0)[k]) && WellFormedConnectionString(Extracted(code)[k])
    ensures forall k, l | 0 <= k < l < |Extracted(code)| ::
      AcceptedFrom(code, 0)[k] + |Extracted(code)[k]| <= AcceptedFrom(code, 0)[l]
  {
    var bs := AcceptedFrom(code, 0);
    AcceptedFromSpec(code, 0);
    TextsAt(code, bs);
    forall k | 0 <= k < |bs| ensures SubstringAt(Extracted(code)[k], code, bs[k]) && WellFormedConnectionString(Extracted(code)[k]) {
      AcceptedSpanShape(code, bs[k]);
    }
    forall k, l | 0 <= k < l < |bs| ensures bs[k] + |Extracted(code)[k]| <= bs[l] {
      AcceptedSpansDisjoint(code, bs[k], bs[l]);
    }
  }

  /** Every accepted span of `code` is emitted. */
  lemma ExtractedComplete(code: string, b: nat)
    requires Accepted(code, b)
    ensures SpanText(code, b) in Extracted(code)
  {
    var bs := AcceptedFrom(code, 0);
    AcceptedFromSpec(code, 0);
    TextsAt(code, bs);
    var k :| 0 <= k < |bs| && bs[k] == b;
    assert Extracted(code)[k] == SpanText(code, b);
  }

  // ---------------------------------------------------------------------------------------
  // The four ways one round of the scan can go, stated on AcceptedFrom

  /** No marker at or after `s`: nothing more is accepted. */
  lemma ScanNoMarker(code: string, s: nat)
    requires s <= |code|
    requires IndexOf(code, Marker, s, true) == -1
    ensures AcceptedFrom(code, s) == []
  {
    IndexOfFirst(code, Marker, s, true);
    forall j | s <= j < |code| ensures !Accepted(code, j) {
      assert !MarkerAt(code, j);
    }
    SkipUnaccepted(code, s, |code|);
  }

  /** A marker at `b` with no terminator after it: nothing more is accepted. */
  lemma ScanNoTerminator(code: string, s: nat, b: nat)
    requires s <= |code|
    requires b == IndexOf(code, Marker, s, true)
    requires IndexOf(code, Terminator, b + 1, false) == -1
    ensures AcceptedFrom(code, s) == []
  {
    IndexOfFirst(code, Marker, s, true);
    EndOfFirst(code, b);
    forall j | s <= j < |code| ensures !Accepted(code, j) {
      if j >= b {
        EndOfFound(code, j);
        assert EndOf(code, j) == -1;
      } else {
        assert !MarkerAt(code, j);
      }
    }
    SkipUnaccepted(code, s, |code|);
  }

  /** Another marker `m` starts before the terminator of the marker at `b`: the scan may restart at `m`. */
  lemma ScanInnerMarker(code: string, s: nat, b: nat, m: nat)
    requires s <= |code|
    requires b == IndexOf(code, Marker, s, true)
    requires m == IndexOf(code, Marker, b + 1, true)
    requires m < IndexOf(code, Terminator, b + 1, false)
    ensures AcceptedFrom(code, s) == AcceptedFrom(code, m)
  {
    IndexOfFirst(code, Marker, s, true);
    NextMarkerFirst(code, b + 1);
    forall j | s <= j < m ensures !Accepted(code, j) {
      if j != b {
        assert !MarkerAt(code, j);
      }
    }
    SkipUnaccepted(code, s, m);
  }

  /** One step of AcceptedFrom. */
  lemma AcceptedFromStep(code: string, b: nat)
    requires b < |code|
    ensures AcceptedFrom(code, b) == (if Accepted(code, b) then [b] else []) + AcceptedFrom(code, b + 1)
  {
  }

  /** Nothing before the first marker at or after `s` is accepted. */
  lemma NoneBeforeMarker(code: string, s: nat, b: nat)
    requires s <= |code|
    requires b == IndexOf(code, Marker, s, true)
    requires b != -1
    ensures forall j | s <= j < b :: !Accepted(code, j)
  {
    IndexOfFirst(code, Marker, s, true);
    forall j | s <= j < b ensures !Accepted(code, j) {
      assert !MarkerAt(code, j);
    }
  }

  /** Nothing strictly inside a span, nor at its terminator, is accepted. */
  lemma NoneInsideSpan(code: string, b: nat, e: nat)
    requires b < |code|
    requires e == IndexOf(code, Terminator, b + 1, false)
    requires NextMarker(code, b + 1) == -1 || NextMarker(code, b + 1) >= e
    ensures e + 2 <= |code|
    ensures forall j | b < j < e + 2 :: !Accepted(code, j)
  {
    EndOfFound(code, b);
    NextMarkerFirst(code, b + 1);
    TerminatorIsNotMarker(code, e);
    forall j | b < j < e + 2 ensures !Accepted(code, j) {
      if j < e {
        assert !MarkerAt(code, j);
      }
    }
  }

  /** The marker at `b` and its terminator `e` delimit a span, and it is accepted unless it has a line break. */
  lemma ScanSpan(code: string, s: nat, b: nat, e: nat)
    requires s <= |code|
    requires b == IndexOf(code, Marker, s, true)
    requires e == IndexOf(code, Terminator, b + 1, false)
    requires IndexOf(code, Marker, b + 1, true) == -1 || IndexOf(code, Marker, b + 1, true) >= e
    ensures e + 2 <= |code|
    ensures Accepted(code, b) <==> !HasLineBreak(code[b..e + 2])
    ensures SpanText(code, b) == code[b..e + 2]
  {
    IndexOfFound(code, Marker, s, true);
    assert MarkerAt(code, b);
    assert EndOf(code, b) == e;
  }

  /** After the span the marker at `b` and its terminator `e` delimit, the scan resumes at e + 2. */
  lemma ScanTaken(code: string, s: nat, b: nat, e: nat)
    requires s <= |code|
    requires b == IndexOf(code, Marker, s, true)
    requires e == IndexOf(code, Terminator, b + 1, false)
    requires IndexOf(code, Marker, b + 1, true) == -1 || IndexOf(code, Marker, b + 1, true) >= e
    ensures e + 2 <= |code|
    ensures AcceptedFrom(code, s) == (if Accepted(code, b) then [b] else []) + AcceptedFrom(code, e + 2)
  {
    SkipToMarker(code, s, b);
    AcceptedFromStep(code, b);
    SkipSpan(code, b, e);
  }

  /** A span with a line break contributes nothing, and the scan resumes after it. */
  lemma ScanDropsSpan(code: string, s: nat, b: nat, e: nat, span: string, next: nat)
    requires s <= |code|
    requires b == IndexOf(code, Marker, s, true)
    requires e == IndexOf(code, Terminator, b + 1, false)
    requires IndexOf(code, Marker, b + 1, true) == -1 || IndexOf(code, Marker, b + 1, true) >= e
    requires e + 2 <= |code| && span == code[b..e + 2] && HasLineBreak(span)
    requires next == b + |span|
    ensures Texts(code, AcceptedFrom(code, s)) == Texts(code, AcceptedFrom(code, next))
  {
    ScanSpan(code, s, b, e);
    ScanTaken(code, s, b, e);
    assert next == e + 2;
    assert !Accepted(code, b);
    assert AcceptedFrom(code, s) == [] + AcceptedFrom(code, next);
    assert [] + AcceptedFrom(code, next) == AcceptedFrom(code, next);
  }

  /** A span without a line break is emitted, and the scan resumes after it. */
  lemma ScanKeepsSpan(code: string, s: nat, b: nat, e: nat, span: string, next: nat)
    requires s <= |code|
    requires b == IndexOf(code, Marker, s, true)
    requires e == IndexOf(code, Terminator, b + 1, false)
    requires IndexOf(code, Marker, b + 1, true) == -1 || IndexOf(code, Marker, b + 1, true) >= e
    requires e + 2 <= |code| && span == code[b..e + 2] && !HasLineBreak(span)
    requires next == b + |span|
    ensures Texts(code, AcceptedFrom(code, s)) == [span] + Texts(code, AcceptedFrom(code, next))
  {
    ScanSpan(code, s, b, e);
    ScanTaken(code, s, b, e);
    assert next == e + 2;
    assert AcceptedFrom(code, s) == [b] + AcceptedFrom(code, next);
    TextsAppend(code, [b], AcceptedFrom(code, next));
    assert Texts(code, [b]) == [span];
  }

  /** The scan may jump to the next marker. */
  lemma SkipToMarker(code: string, s: nat, b: nat)
    requires s <= |code|
    requires b == IndexOf(code, Marker, s, true)
    ensures AcceptedFrom(code, s) == AcceptedFrom(code, b)
  {
    NoneBeforeMarker(code, s, b);
    SkipUnaccepted(code, s, b);
  }

  /** The scan may jump over a span that no marker interrupts. */
  lemma SkipSpan(code: string, b: nat, e: nat)
    requires b < |code|
    requires e == IndexOf(code, Terminator, b + 1, false)
    requires NextMarker(code, b + 1) == -1 || NextMarker(code, b + 1) >= e
    ensures e + 2 <= |code|
    ensures AcceptedFrom(code, b + 1) == AcceptedFrom(code, e + 2)
  {
    NoneInsideSpan(code, b, e);
    SkipUnaccepted(code, b + 1, e + 2);
  }

  // ---------------------------------------------------------------------------------------
  // ExtractConnectionStrings

  /** The scan loop of ExtractConnectionStrings; `startSearchAt` strictly grows on every round. */
  method ExtractConnectionStrings(code: string) returns (results: seq<string>)
    ensures results == Extracted(code)
  {
    results := [];
    var startSearchAt: nat := 0;
    while true
      invariant startSearchAt <= |code|
      invariant Extracted(code) == results + Texts(code, AcceptedFrom(code, startSearchAt))
      decreases |code| - startSearchAt
    {
      var indexBegin := IndexOf(code, Marker, startSearchAt, true);
      if indexBegin == -1 {
        ScanNoMarker(code, startSearchAt);
        break;
      }
      var indexEnd := IndexOf(code, Terminator, indexBegin + 1, false);
      if indexEnd == -1 {
        ScanNoTerminator(code, startSearchAt, indexBegin);
        break;
      }

      // make sure there is not another marker between the two
      var indexBeginInBetween := IndexOf(code, Marker, indexBegin + 1, true);
      if indexBeginInBetween != -1 && indexBeginInBetween < indexEnd {
        ScanInnerMarker(code, startSearchAt, indexBegin, indexBeginInBetween);
        startSearchAt := indexBeginInBetween;
        continue;
      }

      var connStr := code[indexBegin..indexEnd + 2];
      ghost var from := startSearchAt;
      startSearchAt := indexBegin + |connStr|;
      ghost var rest := Texts(code, AcceptedFrom(code, startSearchAt));

      if '\r' in connStr || '\n' in connStr {
        ScanDropsSpan(code, from, indexBegin, indexEnd, connStr, startSearchAt);
        continue;
      }

      ScanKeepsSpan(code, from, indexBegin, indexEnd, connStr, startSearchAt);
      assert results + ([connStr] + rest) == (results + [connStr]) + rest;
      results := results + [connStr];
    }
  }

  // ---------------------------------------------------------------------------------------
  // IdentifyConnectionStrings

  /** The Select of IdentifyConnectionStrings: each found string paired with the repository name. */
  function Pairs(repoName: string, found: seq<string>): (r: seq<IdentifiedConnectionString>)
    ensures |r| == |found|
    ensures forall j | 0 <= j < |found| :: r[j] == IdentifiedConnectionString(Some(repoName), Some(found[j]))
  {
    seq(|found|, j requires 0 <= j < |found| => IdentifiedConnectionString(Some(repoName), Some(found[j])))
  }

  /** What one container adds to the candidate list: its connection strings, each paired with its repository name. */
  ghost function ContainerPairs(div: CodeDiv, htmlDecode: string -> string): seq<IdentifiedConnectionString>
  {
    Pairs(GetRepoName(div), Extracted(GetCodeContent(div, htmlDecode)))
  }

  /** The candidate list after the first `n` containers, before filtering. */
  ghost function PagePairs(page: Page, htmlDecode: string -> string, n: nat): seq<IdentifiedConnectionString>
    requires n <= |page|
  {
    SelectMany(page[..n], div => ContainerPairs(div, htmlDecode))
  }

  /** Each container appends its pairs. */
  lemma PagePairsStep(page: Page, htmlDecode: string -> string, i: nat)
    requires i < |page|
    ensures PagePairs(page, htmlDecode, i + 1) == PagePairs(page, htmlDecode, i) + ContainerPairs(page[i], htmlDecode)
  {
    assert page[..i + 1] == page[..i] + [page[i]];
    SelectManySnoc(page[..i], page[i], div => ContainerPairs(div, htmlDecode));
  }

  /** `x` pairs a connection string extracted from container `div` with that container's repository name. */
  ghost predicate FromContainer(div: CodeDiv, htmlDecode: string -> string, x: IdentifiedConnectionString)
  {
    && x.repository == Some(GetRepoName(div))
    && x.connectionString.Some?
    && x.connectionString.value in Extracted(GetCodeContent(div, htmlDecode))
  }

  /** A container's pairs are exactly the candidates that come from it. */
  lemma ContainerPairsMeaning(div: CodeDiv, htmlDecode: string -> string, x: IdentifiedConnectionString)
    ensures x in ContainerPairs(div, htmlDecode) <==> FromContainer(div, htmlDecode, x)
  {
    var found := Extracted(GetCodeContent(div, htmlDecode));
    var added := Pairs(GetRepoName(div), found);
    if FromContainer(div, htmlDecode, x) {
      var j :| 0 <= j < |found| && found[j] == x.connectionString.value;
      assert added[j] == x;
    }
  }

  /** `x` is one of the candidates a page yields. */
  ghost predicate Identified(page: Page, htmlDecode: string -> string, x: IdentifiedConnectionString)
  {
    x.HasAllFields() && exists k | 0 <= k < |page| :: FromContainer(page[k], htmlDecode, x)
  }

  /** The pairs of the whole page are the candidates that come from some container. */
  lemma PagePairsMeaning(page: Page, htmlDecode: string -> string, x: IdentifiedConnectionString)
    ensures x in PagePairs(page, htmlDecode, |page|) <==> exists k | 0 <= k < |page| :: FromContainer(page[k], htmlDecode, x)
  {
    var f := div => ContainerPairs(div, htmlDecode);
    assert page[..|page|] == page;
    SelectManyMembers(page, f);
    forall k | 0 <= k < |page| ensures x in f(page[k]) <==> FromContainer(page[k], htmlDecode, x) {
      ContainerPairsMeaning(page[k], htmlDecode, x);
    }
  }

  /**
    IdentifyConnectionStrings: every connection string of every container paired with that
    container's repository name, incomplete pairs dropped, duplicates removed.
   */
  method IdentifyConnectionStrings(page: Page, htmlDecode: string -> string) returns (r: seq<IdentifiedConnectionString>)
    ensures r == Distinct(Where(PagePairs(page, htmlDecode, |page|), (x: IdentifiedConnectionString) => x.HasAllFields()))
    ensures NoDuplicates(r)
    ensures forall x :: x in r <==> Identified(page, htmlDecode, x)
  {
    var identifiedConnectionStrings: seq<IdentifiedConnectionString> := [];
    for i := 0 to |page|
      invariant identifiedConnectionStrings == PagePairs(page, htmlDecode, i)
    {
      PagePairsStep(page, htmlDecode, i);
      var connectionStrings := ExtractConnectionStrings(GetCodeContent(page[i], htmlDecode));
      if |connectionStrings| == 0 {
        continue;
      }
      var repoName := GetRepoName(page[i]);
      identifiedConnectionStrings := identifiedConnectionStrings + Pairs(repoName, connectionStrings);
    }
    r := Distinct(Where(identifiedConnectionStrings, (x: IdentifiedConnectionString) => x.HasAllFields()));
    forall x ensures x in r <==> Identified(page, htmlDecode, x) {
      PagePairsMeaning(page, htmlDecode, x);
    }
  }

  // ---------------------------------------------------------------------------------------
  // Consequences for the pipeline

  /** A container without a title node or without an anchor in it contributes no candidate. */
  lemma UntitledContainerContributesNothing(page: Page, htmlDecode: string -> string, k: nat, x: IdentifiedConnectionString)
    requires k < |page|
    requires page[k].title.None? || page[k].title.value.firstAnchorText.None?
    requires FromContainer(page[k], htmlDecode, x)
    ensures !Identified(page, htmlDecode, x)
  {
    assert x.repository == Some("");
  }

  /** No code cells: the content is empty and nothing is extracted from it. */
  lemma NoCellsNoCandidates(div: CodeDiv, htmlDecode: string -> string)
    requires div.codeCells == []
    ensures GetCodeContent(div, htmlDecode) == ""
    ensures Extracted(GetCodeContent(div, htmlDecode)) == []
  {
  }

  /** The content holds each decoded line. */
  lemma CodeContentHoldsLines(div: CodeDiv, htmlDecode: string -> string, k: nat)
    requires k < |div.codeCells|
    ensures IsSubstring(DecodedLines(div, htmlDecode)[k], GetCodeContent(div, htmlDecode))
  {
    JoinContainsElements(NewLine, DecodedLines(div, htmlDecode), k);
  }

  /** Every string extracted from a container lies inside a single decoded code line. */
  lemma ExtractedWithinOneLine(div: CodeDiv, htmlDecode: string -> string, t: string)
    requires t in Extracted(GetCodeContent(div, htmlDecode))
    ensures exists k | 0 <= k < |div.codeCells| :: IsSubstring(t, DecodedLines(div, htmlDecode)[k])
  {
    var lines := DecodedLines(div, htmlDecode);
    var content := GetCodeContent(div, htmlDecode);
    ExtractedInOrder(content);
    var i :| 0 <= i < |Extracted(content)| && Extracted(content)[i] == t;
    var b := AcceptedFrom(content, 0)[i];
    assert SubstringAt(t, content, b) && WellFormedConnectionString(t);
    assert content == Join(NewLine, lines);
    assert forall c | c in t :: c !in NewLine;
    SeparatorFreeSubstringInElement(NewLine, lines, t, b);
  }
}
