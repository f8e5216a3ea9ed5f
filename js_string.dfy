/**
 * The few JavaScript string operations the SDP rewriter relies on, over
 * `string` (= `seq<char>`): `indexOf`, ASCII `toLowerCase`, `split` with a
 * non-empty string separator and `Array.prototype.join`.
 */
module JsString {

  /** `s.indexOf(p) === 0`: `p` is a prefix of `s` (the empty string always is). */
  predicate StartsWith(s: string, p: string) {
    |p| <= |s| && s[..|p|] == p
  }

  /** `w` occurs in `s` starting at position `i`. */
  predicate OccursAt(s: string, w: string, i: nat) {
    i + |w| <= |s| && s[i..i + |w|] == w
  }

  /** `s.indexOf(w) !== -1`. */
  predicate Contains(s: string, w: string) {
    exists i: nat :: i <= |s| && OccursAt(s, w, i)
  }

  predicate IsUpper(c: char) {
    'A' <= c <= 'Z'
  }

  /** `toLowerCase` on one character, restricted to ASCII letters. */
  function LowerChar(c: char): (r: char)
    ensures IsUpper(c) ==> 'a' <= r <= 'z' && r as int - 'a' as int == c as int - 'A' as int
    ensures !IsUpper(c) ==> r == c
  {
    if IsUpper(c) then (c as int - 'A' as int + 'a' as int) as char else c
  }

  /** `s.toLowerCase()`, ASCII case folding character by character. */
  function Lower(s: string): (r: string)
    ensures |r| == |s|
    ensures forall i :: 0 <= i < |r| ==> !IsUpper(r[i])
  {
    seq(|s|, i requires 0 <= i < |s| => LowerChar(s[i]))
  }

  /** `a` and `b` are the same character up to ASCII case. */
  predicate SameLetterIgnoringCase(a: char, b: char) {
    a == b ||
    (IsUpper(a) && b as int == a as int - 'A' as int + 'a' as int) ||
    (IsUpper(b) && a as int == b as int - 'A' as int + 'a' as int)
  }

  /** Two characters fold to the same one exactly when they differ at most in ASCII case. */
  lemma LowerCharEqual(a: char, b: char)
    ensures LowerChar(a) == LowerChar(b) <==> SameLetterIgnoringCase(a, b)
  {
  }

  /**
   * Two strings fold to the same string exactly when they have the same
   * length and differ at most in the ASCII case of their characters; this is
   * what the case-insensitive search relies on.
   */
  lemma LowerEqual(s: string, t: string)
    ensures Lower(s) == Lower(t) <==>
      |s| == |t| && forall i :: 0 <= i < |s| ==> SameLetterIgnoringCase(s[i], t[i])
  {
    if Lower(s) == Lower(t) {
      forall i | 0 <= i < |s| ensures SameLetterIgnoringCase(s[i], t[i]) {
        assert Lower(s)[i] == Lower(t)[i];
        LowerCharEqual(s[i], t[i]);
      }
    }
    if |s| == |t| && forall i :: 0 <= i < |s| ==> SameLetterIgnoringCase(s[i], t[i]) {
      forall i | 0 <= i < |s| ensures Lower(s)[i] == Lower(t)[i] {
        LowerCharEqual(s[i], t[i]);
      }
    }
  }

  /**
   * `s.split(sep)` for a non-empty separator: cut at every occurrence of
   * `sep`, scanning from the left, occurrences not overlapping. At least one
   * piece always comes back (`"".split(sep)` is `[""]`).
   */
  function Split(s: string, sep: string): (r: seq<string>)
    requires |sep| > 0
    ensures |r| >= 1
    decreases |s|
  {
    if |s| < |sep| then [s]
    else if s[..|sep|] == sep then [""] + Split(s[|sep|..], sep)
    else
      var rest := Split(s[1..], sep);
      [[s[0]] + rest[0]] + rest[1..]
  }

  /** The sum of the lengths of the pieces. */
  function TotalLength(parts: seq<string>): nat
    decreases |parts|
  {
    if |parts| == 0 then 0 else |parts[0]| + TotalLength(parts[1..])
  }

  /** `parts.join(sep)`: the pieces with `sep` between neighbours. */
  function Join(parts: seq<string>, sep: string): (r: string)
    ensures |parts| >= 1 ==> StartsWith(r, parts[0])
    ensures |parts| >= 1 ==> |r| == TotalLength(parts) + (|parts| - 1) * |sep|
    decreases |parts|
  {
    if |parts| == 0 then ""
    else if |parts| == 1 then parts[0]
    else parts[0] + sep + Join(parts[1..], sep)
  }

  /** No proper prefix of `sep` is also a suffix of it (true of "\r\n" and " "). */
  predicate BorderFree(sep: string) {
    forall k :: 0 < k < |sep| ==> sep[..k] != sep[|sep| - k..]
  }

  /** A slice of a slice is a slice of the original. */
  lemma SliceOfSlice(s: string, a: nat, b: nat, c: nat, d: nat)
    requires a <= b <= |s| && c <= d <= b - a
    ensures s[a..b][c..d] == s[a + c..a + d]
  {
    assert forall k :: 0 <= k < d - c ==> s[a..b][c..d][k] == s[a + c + k];
  }

  lemma JoinCons(p: string, ps: seq<string>, sep: string)
    requires |ps| >= 1
    ensures Join([p] + ps, sep) == p + sep + Join(ps, sep)
  {
    assert ([p] + ps)[1..] == ps;
  }

  /** Gluing a character onto the first piece glues it onto the join. */
  lemma JoinGlue(c: char, r: seq<string>, sep: string)
    requires |r| >= 1
    ensures Join([[c] + r[0]] + r[1..], sep) == [c] + Join(r, sep)
  {
    if |r| > 1 {
      JoinCons([c] + r[0], r[1..], sep);
      JoinCons(r[0], r[1..], sep);
      assert r == [r[0]] + r[1..];
    }
  }

  /** Joining the pieces of a split with the same separator gives the string back. */
  lemma {:induction false} JoinSplit(s: string, sep: string)
    requires |sep| > 0
    ensures Join(Split(s, sep), sep) == s
    decreases |s|
  {
    if |s| < |sep| {
    } else if s[..|sep|] == sep {
      var t := s[|sep|..];
      JoinSplit(t, sep);
      assert s == sep + t;
      SplitSep(t, sep);
      JoinCons("", Split(t, sep), sep);
    } else {
      var t := s[1..];
      JoinSplit(t, sep);
      assert Split(s, sep) == [[s[0]] + Split(t, sep)[0]] + Split(t, sep)[1..];
      JoinGlue(s[0], Split(t, sep), sep);
      assert s == [s[0]] + t;
    }
  }

  /** Where no separator starts at index 0, the first character joins the first piece. */
  lemma SplitStep(s: string, sep: string)
    requires |sep| > 0 && |s| >= |sep| && !OccursAt(s, sep, 0)
    ensures Split(s, sep) == [[s[0]] + Split(s[1..], sep)[0]] + Split(s[1..], sep)[1..]
  {
  }

  /** Dropping the first character shifts the positions where `sep` does not occur. */
  lemma NoOccurrenceShift(s: string, sep: string, n: nat)
    requires 0 < n <= |s|
    requires forall i: nat :: i < n ==> !OccursAt(s, sep, i)
    ensures forall i: nat :: i < n - 1 ==> !OccursAt(s[1..], sep, i)
  {
    forall i: nat | i < n - 1
      ensures !OccursAt(s[1..], sep, i)
    {
      assert !OccursAt(s, sep, i + 1);
      if i + |sep| <= |s[1..]| {
        SliceOfSlice(s, 1, |s|, i, i + |sep|);
      }
    }
  }

  /**
   * When no occurrence of `sep` starts inside `a`, splitting `a + rest`
   * glues `a` onto the first piece of `rest`.
   */
  lemma {:induction false} SplitSkip(a: string, rest: string, sep: string)
    requires |sep| > 0
    requires forall i: nat :: i < |a| ==> !OccursAt(a + rest, sep, i)
    ensures Split(a + rest, sep) == [a + Split(rest, sep)[0]] + Split(rest, sep)[1..]
    decreases |a|
  {
    var s := a + rest;
    var r := Split(rest, sep);
    if a == [] {
      assert s == rest;
      assert a + r[0] == r[0];
      assert r == [r[0]] + r[1..];
    } else if |s| < |sep| {
      assert r == [rest];
    } else {
      assert !OccursAt(s, sep, 0);
      assert s[1..] == a[1..] + rest;
      NoOccurrenceShift(s, sep, |a|);
      SplitSkip(a[1..], rest, sep);
      SplitStep(s, sep);
      assert [s[0]] + (a[1..] + r[0]) == a + r[0];
    }
  }

  lemma SplitSep(t: string, sep: string)
    requires |sep| > 0
    ensures Split(sep + t, sep) == [""] + Split(t, sep)
  {
    var s := sep + t;
    assert s[..|sep|] == sep;
    assert s[|sep|..] == t;
  }

  /** An occurrence of a border-free `sep` never straddles the end of a `sep`-free `p`. */
  lemma NoStraddle(p: string, sep: string, t: string)
    requires |sep| > 0 && BorderFree(sep)
    requires !Contains(p, sep)
    ensures forall i: nat :: i < |p| ==> !OccursAt(p + sep + t, sep, i)
  {
    var s := p + sep + t;
    forall i: nat | i < |p|
      ensures !OccursAt(s, sep, i)
    {
      if i + |sep| <= |p| {
        assert s[i..i + |sep|] == p[i..i + |sep|];
        assert !OccursAt(p, sep, i);
      } else {
        var k := i + |sep| - |p|;
        assert 0 < k < |sep|;
        var x, y := p[i..], sep[..k];
        assert s[i..i + |sep|] == x + y;
        assert (x + y)[|x|..] == y;
        assert sep[|sep| - k..] != y;
      }
    }
  }

  /**
   * Splitting a join gives the pieces back, provided that no piece contains
   * the separator and the separator cannot overlap itself.
   */
  lemma {:induction false} SplitJoin(parts: seq<string>, sep: string)
    requires |sep| > 0 && BorderFree(sep)
    requires |parts| >= 1
    requires forall i :: 0 <= i < |parts| ==> !Contains(parts[i], sep)
    ensures Split(Join(parts, sep), sep) == parts
    decreases |parts|
  {
    var p := parts[0];
    assert !Contains(p, sep);
    if |parts| == 1 {
      assert p + "" == p;
      forall i: nat | i < |p| ensures !OccursAt(p + "", sep, i) {
        assert !OccursAt(p, sep, i);
      }
      SplitSkip(p, "", sep);
    } else {
      var ps := parts[1..];
      var t := Join(ps, sep);
      assert forall i :: 0 <= i < |ps| ==> ps[i] == parts[i + 1];
      SplitJoin(ps, sep);
      JoinCons(p, ps, sep);
      assert parts == [p] + ps;
      NoStraddle(p, sep, t);
      assert p + sep + t == p + (sep + t);
      SplitSkip(p, sep + t, sep);
      SplitSep(t, sep);
      var r := Split(sep + t, sep);
      assert r[0] == "" && r[1..] == ps;
      assert p + r[0] == p;
    }
  }

  /** The first piece of a split is a prefix of the string. */
  lemma {:induction false} SplitHeadPrefix(s: string, sep: string)
    requires |sep| > 0
    ensures StartsWith(s, Split(s, sep)[0])
    decreases |s|
  {
    if |s| >= |sep| && s[..|sep|] != sep {
      var t := s[1..];
      SplitHeadPrefix(t, sep);
      var rest := Split(t, sep);
      assert Split(s, sep)[0] == [s[0]] + rest[0];
      assert t[..|rest[0]|] == rest[0];
    }
  }

  /** No piece of a split contains the separator. */
  lemma {:induction false} SplitPiecesFree(s: string, sep: string)
    requires |sep| > 0
    ensures forall i :: 0 <= i < |Split(s, sep)| ==> !Contains(Split(s, sep)[i], sep)
    decreases |s|
  {
    var r := Split(s, sep);
    if |s| < |sep| {
      forall j: nat | j <= |s| ensures !OccursAt(s, sep, j) { }
    } else if s[..|sep|] == sep {
      var t := s[|sep|..];
      SplitPiecesFree(t, sep);
      assert r == [""] + Split(t, sep);
      forall j: nat | j <= 0 ensures !OccursAt("", sep, j) { }
    } else {
      var t := s[1..];
      SplitPiecesFree(t, sep);
      SplitHeadPrefix(t, sep);
      var rest := Split(t, sep);
      var h := [s[0]] + rest[0];
      assert r == [h] + rest[1..];
      assert t[..|rest[0]|] == rest[0];
      assert h == s[..|h|];
      forall j: nat | j <= |h| ensures !OccursAt(h, sep, j) {
        if j + |sep| <= |h| {
          if j == 0 {
            assert h[..|sep|] == s[..|sep|];
          } else {
            SliceOfSlice(h, 1, |h|, j - 1, j - 1 + |sep|);
            assert h[1..] == rest[0];
            assert !OccursAt(rest[0], sep, j - 1);
          }
        }
      }
      assert forall i | 1 <= i < |r| :: r[i] == rest[i];
    }
  }

  /** Every piece of a split occurs in the string. */
  lemma {:induction false} SplitPiecesOccur(s: string, sep: string)
    requires |sep| > 0
    ensures forall i :: 0 <= i < |Split(s, sep)| ==> Contains(s, Split(s, sep)[i])
    decreases |s|
  {
    var r := Split(s, sep);
    SplitHeadPrefix(s, sep);
    assert OccursAt(s, r[0], 0);
    if |s| < |sep| {
    } else if s[..|sep|] == sep {
      var t := s[|sep|..];
      SplitPiecesOccur(t, sep);
      var rest := Split(t, sep);
      assert r == [""] + rest;
      forall i | 1 <= i < |r| ensures Contains(s, r[i]) {
        assert r[i] == rest[i - 1];
        var j: nat :| j <= |t| && OccursAt(t, r[i], j);
        SliceOfSlice(s, |sep|, |s|, j, j + |r[i]|);
        assert OccursAt(s, r[i], |sep| + j);
      }
    } else {
      var t := s[1..];
      SplitPiecesOccur(t, sep);
      var rest := Split(t, sep);
      assert r == [[s[0]] + rest[0]] + rest[1..];
      forall i | 1 <= i < |r| ensures Contains(s, r[i]) {
        assert r[i] == rest[i];
        var j: nat :| j <= |t| && OccursAt(t, r[i], j);
        SliceOfSlice(s, 1, |s|, j, j + |r[i]|);
        assert OccursAt(s, r[i], 1 + j);
      }
    }
  }

  /**
   * The first piece of a split is a prefix of the string, every piece occurs
   * in the string, and no piece contains the separator.
   */
  lemma SplitPieces(s: string, sep: string)
    requires |sep| > 0
    ensures StartsWith(s, Split(s, sep)[0])
    ensures forall i :: 0 <= i < |Split(s, sep)| ==> !Contains(Split(s, sep)[i], sep)
    ensures forall i :: 0 <= i < |Split(s, sep)| ==> Contains(s, Split(s, sep)[i])
  {
    SplitHeadPrefix(s, sep);
    SplitPiecesFree(s, sep);
    SplitPiecesOccur(s, sep);
  }

  /** Whatever occurs in a string that occurs in `s` also occurs in `s`. */
  lemma ContainsTrans(s: string, x: string, w: string)
    requires Contains(s, x) && Contains(x, w)
    ensures Contains(s, w)
  {
    var i: nat :| i <= |s| && OccursAt(s, x, i);
    var j: nat :| j <= |x| && OccursAt(x, w, j);
    SliceOfSlice(s, i, i + |x|, j, j + |w|);
    assert OccursAt(s, w, i + j);
  }

  /** A one-character string occurs exactly when that character does. */
  lemma ContainsChar(s: string, c: char)
    ensures Contains(s, [c]) <==> c in s
  {
    if c in s {
      var i :| 0 <= i < |s| && s[i] == c;
      assert OccursAt(s, [c], i);
    }
    if Contains(s, [c]) {
      var i: nat :| i <= |s| && OccursAt(s, [c], i);
      assert s[i..i + 1][0] == s[i];
    }
  }

  /** A two-character string occurs in `x + y` inside `x`, inside `y`, or across the seam. */
  lemma ContainsConcat2(x: string, y: string, w: string)
    requires |w| == 2
    ensures Contains(x + y, w) ==>
      Contains(x, w) || Contains(y, w) || (x != [] && y != [] && x[|x| - 1] == w[0] && y[0] == w[1])
  {
    var s := x + y;
    if Contains(s, w) {
      var i: nat :| i <= |s| && OccursAt(s, w, i);
      assert s[i..i + 2][0] == s[i] && s[i..i + 2][1] == s[i + 1];
      if i + 2 <= |x| {
        assert x[i..i + 2] == s[i..i + 2];
        assert OccursAt(x, w, i);
      } else if i >= |x| {
        assert y[i - |x|..i - |x| + 2] == s[i..i + 2];
        assert OccursAt(y, w, i - |x|);
      }
    }
  }

  /**
   * Joining pieces with a one-character separator creates no new occurrence
   * of a two-character string that does not contain the separator.
   */
  lemma {:induction false} JoinFree2(parts: seq<string>, sep: string, w: string)
    requires |sep| == 1 && |w| == 2 && sep[0] != w[0] && sep[0] != w[1]
    requires forall i :: 0 <= i < |parts| ==> !Contains(parts[i], w)
    ensures !Contains(Join(parts, sep), w)
    decreases |parts|
  {
    if |parts| == 0 {
      forall i: nat | i <= 0 ensures !OccursAt("", w, i) { }
    } else if |parts| == 1 {
    } else {
      var p, ps := parts[0], parts[1..];
      var j := Join(ps, sep);
      assert forall i :: 0 <= i < |ps| ==> ps[i] == parts[i + 1];
      JoinFree2(ps, sep, w);
      forall i: nat | i <= |sep| ensures !OccursAt(sep, w, i) { }
      ContainsConcat2(sep, j, w);
      assert !Contains(sep + j, w);
      assert p + sep + j == p + (sep + j);
      ContainsConcat2(p, sep + j, w);
    }
  }

  /** A string whose first character is absent from `s` does not occur in `s`. */
  lemma AbsentFirstChar(s: string, w: string)
    requires w != [] && w[0] !in s
    ensures !Contains(s, w)
  {
    forall i: nat | i <= |s| ensures !OccursAt(s, w, i) {
      if i + |w| <= |s| {
        assert s[i..i + |w|][0] == s[i];
      }
    }
  }

  /** `y` occurs in `x + y` right after `x`. */
  lemma ContainsSuffix(x: string, y: string)
    ensures Contains(x + y, y)
  {
    assert (x + y)[|x|..|x| + |y|] == y;
    assert OccursAt(x + y, y, |x|);
  }
}
