/**
 * The SDP codec-preference rewriter of the peer-connection audio demo
 * (`maybePreferCodec` and its helpers, which the page took from AppRTC's
 * sdputils). A session description is CRLF-separated `type=value` lines
 * (section 5 of RFC 4566); the rewriter finds the first `m=` line of a media
 * type and the first `a=rtpmap` line naming a codec, and moves that codec's
 * payload type to the front of the `m=` line's format list, which is the
 * preference order (section 5.1 of RFC 3264). Every miss returns the input.
 */
module SdpUtils {
  import opened Wrappers
  import opened JsString

  const CRLF: string := "\r\n"
  const Space: string := " "
  const RtpmapTag: string := "a=rtpmap:"

  // ---------------------------------------------------------------------
  // findLine / findLineInRange
  // ---------------------------------------------------------------------

  /** The test `findLineInRange` applies to one line. */
  predicate LineMatches(line: string, prefix: string, substr: string) {
    StartsWith(line, prefix) && (substr == "" || Contains(Lower(line), Lower(substr)))
  }

  /** `endLine` of -1 stands for the end of the array. */
  function RealEnd(lines: seq<string>, endLine: int): int {
    if endLine != -1 then endLine else |lines|
  }

  /**
   * Every index the search visits lies inside the array; on any other index
   * the source would call `indexOf` on `undefined` and throw.
   */
  predicate VisitsOnlyLines(n: nat, from: int, end: int) {
    end <= from || (0 <= from && end <= n)
  }

  /** The index of the first line in `[from, end)` that passes the test. */
  function FirstMatch(lines: seq<string>, from: int, end: int, prefix: string, substr: string): (r: Option<nat>)
    requires VisitsOnlyLines(|lines|, from, end)
    ensures r.Some? ==> from <= r.value < end
    decreases end - from
  {
    if end <= from then None
    else if LineMatches(lines[from], prefix, substr) then Some(from)
    else FirstMatch(lines, from + 1, end, prefix, substr)
  }

  /** `r` is the least matching index in `[from, end)`, or `None` when there is none. */
  ghost predicate IsFirstMatch(lines: seq<string>, from: int, end: int, prefix: string, substr: string, r: Option<nat>)
    requires VisitsOnlyLines(|lines|, from, end)
  {
    match r
    case Some(k) =>
      from <= k < end && LineMatches(lines[k], prefix, substr) &&
      forall j :: from <= j < k ==> !LineMatches(lines[j], prefix, substr)
    case None =>
      forall j :: from <= j < end ==> !LineMatches(lines[j], prefix, substr)
  }

  lemma {:induction false} FirstMatchIsFirst(lines: seq<string>, from: int, end: int, prefix: string, substr: string)
    requires VisitsOnlyLines(|lines|, from, end)
    ensures IsFirstMatch(lines, from, end, prefix, substr, FirstMatch(lines, from, end, prefix, substr))
    decreases end - from
  {
    if from < end && !LineMatches(lines[from], prefix, substr) {
      FirstMatchIsFirst(lines, from + 1, end, prefix, substr);
    }
  }

  /** The least matching index is unique, so it is what `FirstMatch` computes. */
  lemma FirstMatchUnique(lines: seq<string>, from: int, end: int, prefix: string, substr: string, r: Option<nat>)
    requires VisitsOnlyLines(|lines|, from, end)
    requires IsFirstMatch(lines, from, end, prefix, substr, r)
    ensures r == FirstMatch(lines, from, end, prefix, substr)
  {
    FirstMatchIsFirst(lines, from, end, prefix, substr);
  }

  /** `findLineInRange(sdpLines, startLine, endLine, prefix, substr)`. */
  method FindLineInRange(sdpLines: seq<string>, startLine: int, endLine: int, prefix: string, substr: string)
    returns (r: Option<nat>)
    requires VisitsOnlyLines(|sdpLines|, startLine, RealEnd(sdpLines, endLine))
    ensures IsFirstMatch(sdpLines, startLine, RealEnd(sdpLines, endLine), prefix, substr, r)
    ensures r == FirstMatch(sdpLines, startLine, RealEnd(sdpLines, endLine), prefix, substr)
  {
    var realEndLine := if endLine != -1 then endLine else |sdpLines|;
    var i := startLine;
    while i < realEndLine
      invariant i == startLine || 0 <= startLine < i <= realEndLine <= |sdpLines|
      invariant forall j :: startLine <= j < i ==> !LineMatches(sdpLines[j], prefix, substr)
    {
      if LineMatches(sdpLines[i], prefix, substr) {
        r := Some(i);
        FirstMatchUnique(sdpLines, startLine, realEndLine, prefix, substr, r);
        return;
      }
      i := i + 1;
    }
    r := None;
    FirstMatchUnique(sdpLines, startLine, realEndLine, prefix, substr, r);
  }

  /** `findLine(sdpLines, prefix, substr)`: the search over the whole array. */
  method FindLine(sdpLines: seq<string>, prefix: string, substr: string) returns (r: Option<nat>)
    ensures IsFirstMatch(sdpLines, 0, |sdpLines|, prefix, substr, r)
    ensures r == FirstMatch(sdpLines, 0, |sdpLines|, prefix, substr)
  {
    r := FindLineInRange(sdpLines, 0, -1, prefix, substr);
  }

  // ---------------------------------------------------------------------
  // getCodecPayloadType: the pattern  a=rtpmap:(\d+) \w+\/\d+
  // ---------------------------------------------------------------------

  /** `\d` */
  predicate IsDigit(c: char) {
    '0' <= c <= '9'
  }

  /** `\w` (without the Unicode flag) */
  predicate IsWordChar(c: char) {
    'a' <= c <= 'z' || 'A' <= c <= 'Z' || IsDigit(c) || c == '_'
  }

  predicate AllDigits(d: string) {
    forall k :: 0 <= k < |d| ==> IsDigit(d[k])
  }

  /** Length of the longest run of digits starting at `i`. */
  function DigitRun(s: string, i: nat): (n: nat)
    requires i <= |s|
    ensures i + n <= |s|
    ensures forall k :: i <= k < i + n ==> IsDigit(s[k])
    ensures i + n == |s| || !IsDigit(s[i + n])
    decreases |s| - i
  {
    if i < |s| && IsDigit(s[i]) then 1 + DigitRun(s, i + 1) else 0
  }

  /** Length of the longest run of word characters starting at `i`. */
  function WordRun(s: string, i: nat): (n: nat)
    requires i <= |s|
    ensures i + n <= |s|
    ensures forall k :: i <= k < i + n ==> IsWordChar(s[k])
    ensures i + n == |s| || !IsWordChar(s[i + n])
    decreases |s| - i
  {
    if i < |s| && IsWordChar(s[i]) then 1 + WordRun(s, i + 1) else 0
  }

  ghost predicate WordSpan(s: string, a: nat, b: nat)
    requires a <= b <= |s|
  {
    forall m :: a <= m < b ==> IsWordChar(s[m])
  }

  /**
   * The pattern matches at position `p` of `s` with `d` as its group:
   * `a=rtpmap:`, then the digits `d`, one space, one or more word
   * characters, `/` and at least one digit.
   */
  ghost predicate RtpmapAt(s: string, p: nat, d: string) {
    var i := p + |RtpmapTag|;
    var j := i + |d|;
    j < |s| && OccursAt(s, RtpmapTag, p) && s[i..j] == d && d != "" && AllDigits(d) && s[j] == ' ' &&
    exists k: nat :: j + 1 < k < |s| - 1 && WordSpan(s, j + 1, k) && s[k] == '/' && IsDigit(s[k + 1])
  }

  /** The match attempt at position `p`, as the regular-expression engine makes it. */
  function MatchAt(s: string, p: nat): (r: Option<string>)
    requires p <= |s|
    ensures r.Some? ==> r.value != "" && AllDigits(r.value)
  {
    var i := p + |RtpmapTag|;
    if !OccursAt(s, RtpmapTag, p) then None
    else
      var j := i + DigitRun(s, i);
      if j == i || j >= |s| || s[j] != ' ' then None
      else
        var k := j + 1 + WordRun(s, j + 1);
        if k == j + 1 || k + 1 >= |s| || s[k] != '/' || !IsDigit(s[k + 1]) then None
        else Some(s[i..j])
  }

  lemma {:induction false} DigitRunExact(s: string, i: nat, n: nat)
    requires i + n <= |s|
    requires forall k :: i <= k < i + n ==> IsDigit(s[k])
    requires i + n == |s| || !IsDigit(s[i + n])
    ensures DigitRun(s, i) == n
    decreases n
  {
    if n > 0 {
      DigitRunExact(s, i + 1, n - 1);
    }
  }

  lemma {:induction false} WordRunExact(s: string, i: nat, n: nat)
    requires i + n <= |s|
    requires forall k :: i <= k < i + n ==> IsWordChar(s[k])
    requires i + n == |s| || !IsWordChar(s[i + n])
    ensures WordRun(s, i) == n
    decreases n
  {
    if n > 0 {
      WordRunExact(s, i + 1, n - 1);
    }
  }

  /** What the engine finds at `p` is a match of the pattern. */
  lemma MatchAtSound(s: string, p: nat)
    requires p <= |s|
    requires MatchAt(s, p).Some?
    ensures RtpmapAt(s, p, MatchAt(s, p).value)
  {
    var d := MatchAt(s, p).value;
    var i := p + |RtpmapTag|;
    var j := i + DigitRun(s, i);
    var k := j + 1 + WordRun(s, j + 1);
    assert d == s[i..j];
    assert forall m :: 0 <= m < |d| ==> d[m] == s[i + m];
    assert WordSpan(s, j + 1, k);
  }

  /** A match of the pattern at `p` is what the engine finds there. */
  lemma MatchAtComplete(s: string, p: nat, d: string)
    requires RtpmapAt(s, p, d)
    ensures p <= |s| && MatchAt(s, p) == Some(d)
  {
    var j := p + |RtpmapTag| + |d|;
    var k: nat :| j + 1 < k < |s| - 1 && WordSpan(s, j + 1, k) && s[k] == '/' && IsDigit(s[k + 1]);
    MatchAtParts(s, p, d, k);
  }

  /** `MatchAtComplete` with the end of the encoding name given. */
  lemma MatchAtParts(s: string, p: nat, d: string, k: nat)
    requires p + |RtpmapTag| + |d| + 1 < k < |s| - 1
    requires OccursAt(s, RtpmapTag, p) && s[p + |RtpmapTag|..p + |RtpmapTag| + |d|] == d
    requires d != "" && AllDigits(d) && s[p + |RtpmapTag| + |d|] == ' '
    requires WordSpan(s, p + |RtpmapTag| + |d| + 1, k) && s[k] == '/' && IsDigit(s[k + 1])
    ensures MatchAt(s, p) == Some(d)
  {
    var i := p + |RtpmapTag|;
    var j := i + |d|;
    assert DigitRun(s, i) == |d| by {
      assert forall m :: i <= m < j ==> s[m] == d[m - i];
      DigitRunExact(s, i, |d|);
    }
    assert WordRun(s, j + 1) == k - j - 1 by {
      WordRunExact(s, j + 1, k - j - 1);
    }
    MatchAtRuns(s, p, j, k);
  }

  /** The match attempt at `p` in terms of where its two runs end. */
  lemma MatchAtRuns(s: string, p: nat, j: nat, k: nat)
    requires p + |RtpmapTag| < j && j + 1 < k && k + 1 < |s| && OccursAt(s, RtpmapTag, p)
    requires p + |RtpmapTag| + DigitRun(s, p + |RtpmapTag|) == j && s[j] == ' '
    requires j + 1 + WordRun(s, j + 1) == k && s[k] == '/' && IsDigit(s[k + 1])
    ensures MatchAt(s, p) == Some(s[p + |RtpmapTag|..j])
  {
  }

  lemma MatchAtIsRtpmapAt(s: string, p: nat, d: string)
    requires p <= |s|
    ensures MatchAt(s, p) == Some(d) <==> RtpmapAt(s, p, d)
  {
    if MatchAt(s, p) == Some(d) {
      MatchAtSound(s, p);
    }
    if RtpmapAt(s, p, d) {
      MatchAtComplete(s, p, d);
    }
  }

  /**
   * The regular expression engine tries each start position of the line in
   * turn, `0` through `|s|`; `MatchAttempts(s)[p]` is the outcome of the try
   * at `p`.
   */
  function MatchAttempts(s: string): (r: seq<Option<string>>)
    ensures |r| == |s| + 1
  {
    seq(|s| + 1, p requires 0 <= p <= |s| => MatchAt(s, p))
  }

  /** The outcome of the first successful try at or after index `p`, or `None`. */
  function FirstSome(attempts: seq<Option<string>>, p: nat): Option<string>
    requires p <= |attempts|
    decreases |attempts| - p
  {
    if p == |attempts| then None
    else if attempts[p].Some? then attempts[p]
    else FirstSome(attempts, p + 1)
  }

  /**
   * `getCodecPayloadType(sdpLine)`: the group of the leftmost match, or
   * `null`; a group is always a non-empty digit string.
   */
  function CodecPayloadType(sdpLine: string): (r: Option<string>)
    ensures r.Some? ==> r.value != "" && AllDigits(r.value)
  {
    var attempts := MatchAttempts(sdpLine);
    FirstSomeDigits(attempts, 0);
    FirstSome(attempts, 0)
  }

  /** When every successful try yields a non-empty digit string, so does `FirstSome`. */
  lemma {:induction false} FirstSomeDigits(attempts: seq<Option<string>>, from: nat)
    requires from <= |attempts|
    requires forall p :: 0 <= p < |attempts| && attempts[p].Some? ==> attempts[p].value != "" && AllDigits(attempts[p].value)
    ensures FirstSome(attempts, from).Some? ==>
      FirstSome(attempts, from).value != "" && AllDigits(FirstSome(attempts, from).value)
    decreases |attempts| - from
  {
    if from < |attempts| && attempts[from].None? {
      FirstSomeDigits(attempts, from + 1);
    }
  }

  /** When `FirstSome` finds nothing, every try from `from` on fails. */
  lemma {:induction false} FirstSomeNone(attempts: seq<Option<string>>, from: nat)
    requires from <= |attempts|
    requires FirstSome(attempts, from).None?
    ensures forall p: nat :: from <= p < |attempts| ==> attempts[p].None?
    decreases |attempts| - from
  {
    if from < |attempts| {
      FirstSomeNone(attempts, from + 1);
    }
  }

  /** When `FirstSome` finds a value, it is that of the first successful try. */
  lemma {:induction false} FirstSomeSome(attempts: seq<Option<string>>, from: nat) returns (p: nat)
    requires from <= |attempts|
    requires FirstSome(attempts, from).Some?
    ensures from <= p < |attempts| && attempts[p] == FirstSome(attempts, from)
    ensures forall q: nat :: from <= q < p ==> attempts[q].None?
    decreases |attempts| - from
  {
    if attempts[from].Some? {
      p := from;
    } else {
      p := FirstSomeSome(attempts, from + 1);
    }
  }

  /** No match of the pattern can start past the end of the line. */
  lemma RtpmapAtInLine(s: string, p: nat, d: string)
    requires RtpmapAt(s, p, d)
    ensures p <= |s|
  {
  }

  /**
   * `getCodecPayloadType` yields a value exactly when the pattern matches
   * somewhere in the line, and then the value is the digit string of the
   * leftmost match.
   */
  lemma CodecPayloadTypeSpec(sdpLine: string)
    ensures CodecPayloadType(sdpLine).None? <==> forall p: nat, d: string :: !RtpmapAt(sdpLine, p, d)
    ensures CodecPayloadType(sdpLine).Some? ==>
      exists p: nat :: RtpmapAt(sdpLine, p, CodecPayloadType(sdpLine).value) &&
        forall q: nat, d: string :: q < p ==> !RtpmapAt(sdpLine, q, d)
    ensures CodecPayloadType(sdpLine).Some? ==>
      CodecPayloadType(sdpLine).value != "" && AllDigits(CodecPayloadType(sdpLine).value)
  {
    var r := CodecPayloadType(sdpLine);
    var a := MatchAttempts(sdpLine);
    if r.None? {
      FirstSomeNone(a, 0);
      forall p: nat, d: string ensures !RtpmapAt(sdpLine, p, d) {
        if RtpmapAt(sdpLine, p, d) {
          RtpmapAtInLine(sdpLine, p, d);
          assert a[p] == MatchAt(sdpLine, p);
          MatchAtIsRtpmapAt(sdpLine, p, d);
        }
      }
    } else {
      var p := FirstSomeSome(a, 0);
      assert a[p] == MatchAt(sdpLine, p);
      MatchAtSound(sdpLine, p);
      forall q: nat, d: string | q < p ensures !RtpmapAt(sdpLine, q, d) {
        assert a[q] == MatchAt(sdpLine, q);
        MatchAtIsRtpmapAt(sdpLine, q, d);
      }
    }
  }

  // ---------------------------------------------------------------------
  // setDefaultCodec
  // ---------------------------------------------------------------------

  /** The tokens of `ts` other than `x`, in their order. */
  function RemoveAll(ts: seq<string>, x: string): seq<string>
    decreases |ts|
  {
    if ts == [] then [] else (if ts[0] == x then [] else [ts[0]]) + RemoveAll(ts[1..], x)
  }

  /** `a` is `b` with some elements left out. */
  ghost predicate IsSubsequence(a: seq<string>, b: seq<string>)
    decreases |b|
  {
    a == [] || (b != [] && if a[0] == b[0] then IsSubsequence(a[1..], b[1..]) else IsSubsequence(a, b[1..]))
  }

  lemma {:induction false} RemoveAllSnoc(ts: seq<string>, t: string, x: string)
    ensures RemoveAll(ts + [t], x) == RemoveAll(ts, x) + (if t == x then [] else [t])
    decreases |ts|
  {
    if ts == [] {
      assert [] + [t] == [t];
    } else {
      assert (ts + [t])[1..] == ts[1..] + [t];
      RemoveAllSnoc(ts[1..], t, x);
    }
  }

  /** Every copy of `x` goes; every other token keeps its multiplicity. */
  lemma {:induction false} RemoveAllMultiset(ts: seq<string>, x: string)
    ensures multiset(RemoveAll(ts, x)) == multiset(ts)[x := 0]
    decreases |ts|
  {
    if ts != [] {
      RemoveAllMultiset(ts[1..], x);
      assert ts == [ts[0]] + ts[1..];
    }
  }

  /** The kept tokens stay in their original relative order. */
  lemma {:induction false} RemoveAllSubsequence(ts: seq<string>, x: string)
    ensures IsSubsequence(RemoveAll(ts, x), ts)
    decreases |ts|
  {
    if ts != [] {
      RemoveAllSubsequence(ts[1..], x);
      var rest := RemoveAll(ts[1..], x);
      RemoveAllMultiset(ts[1..], x);
      assert x !in multiset(rest);
      if ts[0] != x {
        assert ([ts[0]] + rest)[1..] == rest;
      } else {
        assert RemoveAll(ts, x) == rest;
        assert rest != [] ==> rest[0] in multiset(rest) && rest[0] != ts[0];
      }
    }
  }

  /** Nothing is removed when `x` is absent. */
  lemma {:induction false} RemoveAllAbsent(ts: seq<string>, x: string)
    requires x !in ts
    ensures RemoveAll(ts, x) == ts
    decreases |ts|
  {
    if ts != [] {
      RemoveAllAbsent(ts[1..], x);
      assert ts == [ts[0]] + ts[1..];
    }
  }

  function Min(a: int, b: int): int {
    if a < b then a else b
  }

  /**
   * The token list `setDefaultCodec` builds from the `m=` line's tokens: the
   * first three (or all, when fewer), the payload, then every later token
   * that differs from the payload.
   */
  function PreferTokens(elements: seq<string>, payload: string): seq<string> {
    var head := Min(3, |elements|);
    elements[..head] + [payload] + RemoveAll(elements[head..], payload)
  }

  /** The line `setDefaultCodec(mLine, payload)` returns. */
  function DefaultCodecLine(mLine: string, payload: string): string {
    Join(PreferTokens(Split(mLine, Space), payload), Space)
  }

  /** `setDefaultCodec(mLine, payload)`. */
  method SetDefaultCodec(mLine: string, payload: string) returns (r: string)
    ensures r == DefaultCodecLine(mLine, payload)
  {
    var elements := Split(mLine, Space);
    var head := Min(3, |elements|);
    var newLine := elements[..head];
    newLine := newLine + [payload];
    var i := 3;
    while i < |elements|
      invariant 3 <= i
      invariant |elements| > 3 ==> i <= |elements|
      invariant newLine == elements[..head] + [payload] + RemoveAll(elements[head..Min(i, |elements|)], payload)
    {
      RemoveAllSnoc(elements[3..i], elements[i], payload);
      assert elements[3..i + 1] == elements[3..i] + [elements[i]];
      if elements[i] != payload {
        newLine := newLine + [elements[i]];
      }
      i := i + 1;
    }
    assert elements[head..Min(i, |elements|)] == elements[head..];
    r := Join(newLine, Space);
  }

  lemma SpaceBorderFree()
    ensures BorderFree(Space)
  {
  }

  /** Every token of `PreferTokens(elements, payload)` is a token of `elements` or the payload. */
  lemma PreferTokensFrom(elements: seq<string>, payload: string)
    ensures forall w :: w in PreferTokens(elements, payload) ==> w in elements || w == payload
  {
    var head := Min(3, |elements|);
    RemoveAllMultiset(elements[head..], payload);
    forall w | w in RemoveAll(elements[head..], payload) ensures w in elements {
      assert w in multiset(RemoveAll(elements[head..], payload));
      assert w in elements[head..];
    }
  }

  /** Re-splitting the rewritten line on spaces gives back exactly the token list built. */
  lemma DefaultCodecLineSplits(mLine: string, payload: string)
    requires ' ' !in payload
    ensures Split(DefaultCodecLine(mLine, payload), Space) == PreferTokens(Split(mLine, Space), payload)
  {
    var elements := Split(mLine, Space);
    var t := PreferTokens(elements, payload);
    SplitPieces(mLine, Space);
    PreferTokensFrom(elements, payload);
    ContainsChar(payload, ' ');
    forall i | 0 <= i < |t| ensures !Contains(t[i], Space) {
      assert t[i] in t;
      if t[i] != payload {
        var k :| 0 <= k < |elements| && elements[k] == t[i];
      }
    }
    SpaceBorderFree();
    SplitJoin(t, Space);
  }

  /** From index 3 on, the payload occurs exactly once and every other token keeps its count. */
  lemma PreferTokensCount(e: seq<string>, payload: string)
    requires |e| >= 3
    ensures multiset(PreferTokens(e, payload)[3..]) == multiset(e[3..])[payload := 1]
  {
    var rest := RemoveAll(e[3..], payload);
    var u := [payload] + rest;
    assert PreferTokens(e, payload) == e[..3] + u;
    assert (e[..3] + u)[3..] == u;
    RemoveAllMultiset(e[3..], payload);
    assert multiset(rest)[payload] == 0;
    assert multiset(u) == multiset{payload} + multiset(rest);
  }

  /** What `PreferTokens` keeps, adds and drops. */
  lemma PreferTokensShape(e: seq<string>, payload: string)
    ensures var t := PreferTokens(e, payload);
      (|e| >= 3 ==>
        |t| >= 4 && t[..3] == e[..3] && t[3] == payload && t[4..] == RemoveAll(e[3..], payload) &&
        multiset(t[3..]) == multiset(e[3..])[payload := 1]) &&
      (|e| < 3 ==> t == e + [payload])
  {
    if |e| >= 3 {
      var rest := RemoveAll(e[3..], payload);
      var t := e[..3] + [payload] + rest;
      assert PreferTokens(e, payload) == t;
      assert t[..3] == e[..3] && t[3] == payload && t[4..] == rest;
      PreferTokensCount(e, payload);
    } else {
      assert e[..|e|] == e;
      assert e[|e|..] == [];
    }
  }

  /**
   * The rewritten `m=` line, read back as tokens: the first three tokens are
   * kept, the payload type is the fourth, and the rest are the original
   * formats without any copy of the payload; the formats are the old ones up
   * to the one copy of the payload. A line with fewer than three tokens gets
   * the payload appended.
   */
  lemma DefaultCodecTokens(mLine: string, payload: string)
    requires ' ' !in payload
    ensures var e := Split(mLine, Space);
      var t := Split(DefaultCodecLine(mLine, payload), Space);
      (|e| >= 3 ==>
        |t| >= 4 && t[..3] == e[..3] && t[3] == payload && t[4..] == RemoveAll(e[3..], payload) &&
        multiset(t[3..]) == multiset(e[3..])[payload := 1]) &&
      (|e| < 3 ==> t == e + [payload])
  {
    DefaultCodecLineSplits(mLine, payload);
    PreferTokensShape(Split(mLine, Space), payload);
  }

  /** Reordering an already reordered token list, with three tokens or more, changes nothing. */
  lemma PreferTokensIdempotent(e: seq<string>, payload: string)
    requires |e| >= 3
    ensures PreferTokens(PreferTokens(e, payload), payload) == PreferTokens(e, payload)
  {
    var rest := RemoveAll(e[3..], payload);
    var t := e[..3] + [payload] + rest;
    assert PreferTokens(e, payload) == t;
    assert t[..3] == e[..3];
    assert t[3..] == [payload] + rest;
    assert RemoveAll(t[3..], payload) == RemoveAll(rest, payload);
    RemoveAllMultiset(e[3..], payload);
    assert multiset(rest)[payload] == 0;
    RemoveAllAbsent(rest, payload);
  }

  /** `setDefaultCodec` applied twice equals applying it once, given three tokens. */
  lemma DefaultCodecIdempotent(mLine: string, payload: string)
    requires |Split(mLine, Space)| >= 3
    requires ' ' !in payload
    ensures DefaultCodecLine(DefaultCodecLine(mLine, payload), payload) == DefaultCodecLine(mLine, payload)
  {
    DefaultCodecLineSplits(mLine, payload);
    PreferTokensIdempotent(Split(mLine, Space), payload);
  }

  // ---------------------------------------------------------------------
  // maybePreferCodec
  // ---------------------------------------------------------------------

  /**
   * The payload type `maybePreferCodec` promotes, when both of its tests
   * pass: the first `a=rtpmap` line naming the codec has a truthy index (so
   * not 0), and the extracted payload type is a truthy (non-empty) string.
   */
  function ResolvedPayload(lines: seq<string>, codec: string): Option<string> {
    var c := FirstMatch(lines, 0, |lines|, "a=rtpmap", codec);
    if c.Some? && c.value != 0 then
      var p := CodecPayloadType(lines[c.value]);
      if p.Some? && p.value != "" then p else None
    else None
  }

  /** The text `maybePreferCodec(sdp, mediaType, dir, codec)` returns. */
  function PreferCodec(sdp: string, mediaType: string, codec: string): string {
    if codec == "" then sdp
    else
      var lines := Split(sdp, CRLF);
      var m := FirstMatch(lines, 0, |lines|, "m=", mediaType);
      if m.None? then sdp
      else
        var payload := ResolvedPayload(lines, codec);
        if payload.Some? then Join(lines[m.value := DefaultCodecLine(lines[m.value], payload.value)], CRLF)
        else Join(lines, CRLF)
  }

  /**
   * `maybePreferCodec(sdp, type, dir, codec)`. The direction only feeds a
   * diagnostic message, so it has no effect here.
   */
  method MaybePreferCodec(sdp: string, mediaType: string, dir: string, codec: string) returns (r: string)
    ensures r == PreferCodec(sdp, mediaType, codec)
  {
    if codec == "" {
      return sdp;
    }
    var sdpLines := Split(sdp, CRLF);
    var mLineIndex := FindLine(sdpLines, "m=", mediaType);
    if mLineIndex.None? {
      return sdp;
    }
    var codecIndex := FindLine(sdpLines, "a=rtpmap", codec);
    if codecIndex.Some? && codecIndex.value != 0 {
      var payload := CodecPayloadType(sdpLines[codecIndex.value]);
      if payload.Some? && payload.value != "" {
        var newLine := SetDefaultCodec(sdpLines[mLineIndex.value], payload.value);
        sdpLines := sdpLines[mLineIndex.value := newLine];
      }
    }
    r := Join(sdpLines, CRLF);
  }

  /** `forceChosenAudioCodec(sdp)`, with the selector's value passed in as `codec`. */
  method ForceChosenAudioCodec(sdp: string, codec: string) returns (r: string)
    ensures r == PreferCodec(sdp, "audio", codec)
  {
    r := MaybePreferCodec(sdp, "audio", "send", codec);
  }

  /** A resolved payload type is a non-empty digit string, so it holds no space and no CR. */
  lemma ResolvedPayloadDigits(lines: seq<string>, codec: string)
    requires ResolvedPayload(lines, codec).Some?
    ensures var p := ResolvedPayload(lines, codec).value;
      p != "" && AllDigits(p) && ' ' !in p && !Contains(p, CRLF)
  {
    var c := FirstMatch(lines, 0, |lines|, "a=rtpmap", codec).value;
    CodecPayloadTypeSpec(lines[c]);
    var p := ResolvedPayload(lines, codec).value;
    forall i: nat | i <= |p| ensures !OccursAt(p, CRLF, i) {
      if i + 2 <= |p| {
        assert p[i..i + 2][0] == p[i];
      }
    }
  }

  /**
   * Every fallback leaves the text exactly as it was: no codec preference,
   * no `m=` line for the media type, no `a=rtpmap` line naming the codec, a
   * first such line at index 0, or a first such line the pattern does not
   * match. (Joining the CRLF-split lines with CRLF is the identity.)
   */
  lemma PreferCodecUnchanged(sdp: string, mediaType: string, codec: string)
    requires var lines := Split(sdp, CRLF);
      codec == "" ||
      (forall i :: 0 <= i < |lines| ==> !LineMatches(lines[i], "m=", mediaType)) ||
      (forall i :: 0 <= i < |lines| ==> !LineMatches(lines[i], "a=rtpmap", codec)) ||
      LineMatches(lines[0], "a=rtpmap", codec) ||
      (FirstMatch(lines, 0, |lines|, "a=rtpmap", codec).Some? &&
       CodecPayloadType(lines[FirstMatch(lines, 0, |lines|, "a=rtpmap", codec).value]).None?)
    ensures PreferCodec(sdp, mediaType, codec) == sdp
  {
    var lines := Split(sdp, CRLF);
    FirstMatchIsFirst(lines, 0, |lines|, "m=", mediaType);
    FirstMatchIsFirst(lines, 0, |lines|, "a=rtpmap", codec);
    JoinSplit(sdp, CRLF);
  }

  lemma CrlfBorderFree()
    ensures BorderFree(CRLF)
  {
    assert CRLF[..1] == "\r" && CRLF[1..] == "\n";
  }

  /** The rewritten `m=` line contains no CRLF when the old one and the payload do not. */
  lemma DefaultCodecLineOneLine(mLine: string, payload: string)
    requires !Contains(mLine, CRLF) && !Contains(payload, CRLF)
    ensures !Contains(DefaultCodecLine(mLine, payload), CRLF)
  {
    var e := Split(mLine, Space);
    var t := PreferTokens(e, payload);
    SplitPieces(mLine, Space);
    PreferTokensFrom(e, payload);
    forall i | 0 <= i < |t| ensures !Contains(t[i], CRLF) {
      assert t[i] in t;
      if t[i] != payload {
        var k :| 0 <= k < |e| && e[k] == t[i];
        if Contains(t[i], CRLF) {
          ContainsTrans(mLine, t[i], CRLF);
        }
      }
    }
    JoinFree2(t, Space, CRLF);
  }

  /**
   * On a rewrite, splitting the output gives the input's lines with only
   * the `m=` line replaced, by the `setDefaultCodec` rewrite of itself.
   */
  lemma PreferCodecRewrite(sdp: string, mediaType: string, codec: string, m: nat, payload: string)
    requires codec != ""
    requires FirstMatch(Split(sdp, CRLF), 0, |Split(sdp, CRLF)|, "m=", mediaType) == Some(m)
    requires ResolvedPayload(Split(sdp, CRLF), codec) == Some(payload)
    ensures var lines := Split(sdp, CRLF);
      var out := Split(PreferCodec(sdp, mediaType, codec), CRLF);
      |out| == |lines| && out[m] == DefaultCodecLine(lines[m], payload) &&
      forall i :: 0 <= i < |lines| && i != m ==> out[i] == lines[i]
  {
    var lines := Split(sdp, CRLF);
    var newLines := lines[m := DefaultCodecLine(lines[m], payload)];
    assert PreferCodec(sdp, mediaType, codec) == Join(newLines, CRLF);
    SplitPieces(sdp, CRLF);
    ResolvedPayloadDigits(lines, codec);
    DefaultCodecLineOneLine(lines[m], payload);
    CrlfBorderFree();
    SplitJoin(newLines, CRLF);
  }

  /** Two arrays whose lines agree on the test have the same first match. */
  lemma {:induction false} FirstMatchAgree(a: seq<string>, b: seq<string>, from: int, end: int, prefix: string, substr: string)
    requires |a| == |b| && VisitsOnlyLines(|a|, from, end)
    requires forall i :: from <= i < end ==> (LineMatches(a[i], prefix, substr) <==> LineMatches(b[i], prefix, substr))
    ensures FirstMatch(a, from, end, prefix, substr) == FirstMatch(b, from, end, prefix, substr)
    decreases end - from
  {
    if from < end {
      FirstMatchAgree(a, b, from + 1, end, prefix, substr);
    }
  }

  lemma LowerConcat(a: string, b: string)
    ensures Lower(a + b) == Lower(a) + Lower(b)
  {
  }

  /** A string occurs in `x + y` wherever it occurs in `x`. */
  lemma ContainsPrefix(x: string, y: string, w: string)
    requires Contains(x, w)
    ensures Contains(x + y, w)
  {
    assert (x + y)[..|x|] == x;
    assert OccursAt(x + y, x, 0);
    ContainsTrans(x + y, x, w);
  }

  /**
   * When the first token of the `m=` line passes the search on its own (as
   * `m=audio` does for `audio`), the rewritten line still passes it.
   */
  lemma DefaultCodecLineStillMatches(mLine: string, payload: string, mediaType: string)
    requires |Split(mLine, Space)| >= 3 && LineMatches(Split(mLine, Space)[0], "m=", mediaType)
    ensures LineMatches(DefaultCodecLine(mLine, payload), "m=", mediaType)
  {
    var e := Split(mLine, Space);
    var t := PreferTokens(e, payload);
    assert t[0] == e[0];
    JoinCons(t[0], t[1..], Space);
    assert t == [t[0]] + t[1..];
    var rest := Space + Join(t[1..], Space);
    assert DefaultCodecLine(mLine, payload) == e[0] + rest;
    assert (e[0] + rest)[..2] == e[0][..2];
    LowerConcat(e[0], rest);
    if mediaType != "" {
      ContainsPrefix(Lower(e[0]), Lower(rest), Lower(mediaType));
    }
  }

  /** No `m=` line is an `a=rtpmap` line. */
  lemma MediaLineIsNotRtpmap(line: string, substr: string)
    requires StartsWith(line, "m=")
    ensures !LineMatches(line, "a=rtpmap", substr)
  {
    assert line[0] == 'm';
  }

  /**
   * Rewriting twice is rewriting once, provided the first token of the
   * targeted `m=` line names the media type (so the rewritten line is still
   * the first to match) and the line has the three fixed tokens. Without the
   * first proviso the media type may have matched inside the format list,
   * which the rewrite reorders.
   */
  lemma PreferCodecIdempotent(sdp: string, mediaType: string, codec: string, m: nat)
    requires FirstMatch(Split(sdp, CRLF), 0, |Split(sdp, CRLF)|, "m=", mediaType) == Some(m)
    requires |Split(Split(sdp, CRLF)[m], Space)| >= 3
    requires LineMatches(Split(Split(sdp, CRLF)[m], Space)[0], "m=", mediaType)
    ensures PreferCodec(PreferCodec(sdp, mediaType, codec), mediaType, codec) == PreferCodec(sdp, mediaType, codec)
  {
    var lines := Split(sdp, CRLF);
    var r := PreferCodec(sdp, mediaType, codec);
    if codec == "" {
    } else if ResolvedPayload(lines, codec).None? {
      JoinSplit(sdp, CRLF);
    } else {
      var p := ResolvedPayload(lines, codec).value;
      var out := lines[m := DefaultCodecLine(lines[m], p)];
      PreferCodecRewrite(sdp, mediaType, codec, m, p);
      assert Split(r, CRLF) == out;
      RewrittenMediaLineFound(lines, mediaType, m, p);
      RewrittenPayloadResolved(lines, mediaType, codec, m, p);
      // The m= line is already in its rewritten form.
      ResolvedPayloadDigits(lines, codec);
      DefaultCodecIdempotent(lines[m], p);
      assert out[m := DefaultCodecLine(out[m], p)] == out;
      JoinSplit(r, CRLF);
    }
  }

  /** After the rewrite the same `m=` line is the first to match again. */
  lemma RewrittenMediaLineFound(lines: seq<string>, mediaType: string, m: nat, p: string)
    requires FirstMatch(lines, 0, |lines|, "m=", mediaType) == Some(m)
    requires |Split(lines[m], Space)| >= 3
    requires LineMatches(Split(lines[m], Space)[0], "m=", mediaType)
    ensures var out := lines[m := DefaultCodecLine(lines[m], p)];
      FirstMatch(out, 0, |out|, "m=", mediaType) == Some(m)
  {
    var out := lines[m := DefaultCodecLine(lines[m], p)];
    FirstMatchIsFirst(lines, 0, |lines|, "m=", mediaType);
    DefaultCodecLineStillMatches(lines[m], p, mediaType);
    FirstMatchUnique(out, 0, |out|, "m=", mediaType, Some(m));
  }

  /** After the rewrite the same `a=rtpmap` line is found, with the same payload type. */
  lemma RewrittenPayloadResolved(lines: seq<string>, mediaType: string, codec: string, m: nat, p: string)
    requires FirstMatch(lines, 0, |lines|, "m=", mediaType) == Some(m)
    requires |Split(lines[m], Space)| >= 3
    requires LineMatches(Split(lines[m], Space)[0], "m=", mediaType)
    requires ResolvedPayload(lines, codec) == Some(p)
    ensures var out := lines[m := DefaultCodecLine(lines[m], p)];
      ResolvedPayload(out, codec) == Some(p)
  {
    var nl := DefaultCodecLine(lines[m], p);
    var out := lines[m := nl];
    FirstMatchIsFirst(lines, 0, |lines|, "m=", mediaType);
    MediaLineIsNotRtpmap(lines[m], codec);
    DefaultCodecLineStillMatches(lines[m], p, mediaType);
    MediaLineIsNotRtpmap(nl, codec);
    FirstMatchAgree(lines, out, 0, |lines|, "a=rtpmap", codec);
    var c := FirstMatch(lines, 0, |lines|, "a=rtpmap", codec);
    FirstMatchIsFirst(lines, 0, |lines|, "a=rtpmap", codec);
    assert c.value != m;
  }
}
