/** String helpers shared by the Java client and the C++ worker: prefix and
    substring search, ASCII lower-casing, Java's `String.trim`, literal
    replace-all, delimiter splitting as `std::getline` does it, and the
    lexicographic order of `String.compareTo` / `std::string::operator<`.
    Characters are compared by code, so all case handling is ASCII-only. */
module Text {
  import opened Wrappers

  predicate StartsWith(s: string, prefix: string) {
    |prefix| <= |s| && s[..|prefix|] == prefix
  }

  /** `sub` occurs in `s` at position `i`. */
  predicate OccursAt(s: string, sub: string, i: int) {
    0 <= i && i + |sub| <= |s| && s[i..i + |sub|] == sub
  }

  /** First position of `sub` in `s` (`std::string::find`, `String.indexOf`). */
  function IndexOf(s: string, sub: string): (r: Option<nat>)
    ensures r.Some? ==> OccursAt(s, sub, r.value)
    ensures r.Some? ==> forall j :: 0 <= j < r.value ==> !OccursAt(s, sub, j)
    ensures r.None? ==> forall j :: !OccursAt(s, sub, j)
    decreases |s|
  {
    if StartsWith(s, sub) then Some(0)
    else if |s| == 0 then None
    else
      OccursShiftAll(s, sub);
      match IndexOf(s[1..], sub)
      case Some(i) => Some(i + 1)
      case None => None
  }

  /** Dropping the first character shifts every occurrence one place left. */
  lemma OccursShift(s: string, sub: string, j: int)
    requires |s| > 0 && 1 <= j
    ensures OccursAt(s, sub, j) <==> OccursAt(s[1..], sub, j - 1)
  {
    if j + |sub| <= |s| {
      assert s[j..j + |sub|] == s[1..][j - 1..j - 1 + |sub|];
    }
  }

  lemma OccursShiftAll(s: string, sub: string)
    requires |s| > 0
    ensures forall j :: 1 <= j ==> (OccursAt(s, sub, j) <==> OccursAt(s[1..], sub, j - 1))
  {
    forall j | 1 <= j ensures OccursAt(s, sub, j) <==> OccursAt(s[1..], sub, j - 1) {
      OccursShift(s, sub, j);
    }
  }

  /** `s.contains(sub)` in Java, `s.find(sub) != npos` in C++. */
  predicate Contains(s: string, sub: string) {
    IndexOf(s, sub).Some?
  }

  lemma ContainsIffOccurs(s: string, sub: string)
    ensures Contains(s, sub) <==> exists i :: OccursAt(s, sub, i)
  {
    if Contains(s, sub) {
      assert OccursAt(s, sub, IndexOf(s, sub).value);
    }
  }

  lemma EmptyContained(s: string)
    ensures Contains(s, "")
  {
    assert OccursAt(s, "", 0);
  }

  /** A string of length n contains a character exactly when some index holds it. */
  lemma ContainsChar(s: string, c: char)
    ensures Contains(s, [c]) <==> c in s
  {
    if c in s {
      var i :| 0 <= i < |s| && s[i] == c;
      assert s[i..i + 1] == [c];
      assert OccursAt(s, [c], i);
    }
    if Contains(s, [c]) {
      var i := IndexOf(s, [c]).value;
      assert s[i..i + 1] == [c];
      assert s[i] == c;
    }
  }

  function LowerChar(c: char): char {
    if 'A' <= c <= 'Z' then (c as int + 32) as char else c
  }

  /** ASCII lower-casing (`::tolower` in the "C" locale, `String.toLowerCase` on ASCII text). */
  function ToLower(s: string): (r: string)
    ensures |r| == |s|
    ensures forall i :: 0 <= i < |s| ==> r[i] == LowerChar(s[i])
  {
    if s == [] then [] else [LowerChar(s[0])] + ToLower(s[1..])
  }

  lemma ToLowerIdempotent(s: string)
    ensures ToLower(ToLower(s)) == ToLower(s)
  {
  }

  /** `String.equalsIgnoreCase` restricted to ASCII case. */
  predicate EqualsIgnoreCase(a: string, b: string) {
    ToLower(a) == ToLower(b)
  }

  /** Java's notion of white space for `String.trim`: every code up to U+0020. */
  predicate IsTrimmable(c: char) {
    c <= ' '
  }

  function TrimStart(s: string): (r: string)
    ensures |r| <= |s| && r == s[|s| - |r|..]
    ensures forall i :: 0 <= i < |s| - |r| ==> IsTrimmable(s[i])
    ensures |r| > 0 ==> !IsTrimmable(r[0])
  {
    if |s| > 0 && IsTrimmable(s[0]) then
      var t := TrimStart(s[1..]);
      assert s[1..][|s| - 1 - |t|..] == s[|s| - |t|..];
      assert forall i :: 1 <= i < |s| ==> s[1..][i - 1] == s[i];
      t
    else s
  }

  function TrimEnd(s: string): (r: string)
    ensures |r| <= |s| && r == s[..|r|]
    ensures forall i :: |r| <= i < |s| ==> IsTrimmable(s[i])
    ensures |r| > 0 ==> !IsTrimmable(r[|r| - 1])
  {
    if |s| > 0 && IsTrimmable(s[|s| - 1]) then TrimEnd(s[..|s| - 1]) else s
  }

  /** `String.trim`. */
  function Trim(s: string): string {
    TrimEnd(TrimStart(s))
  }

  /** The trimmed text is a slice of the input, is empty exactly when every
      character is white space, and otherwise neither starts nor ends with white space. */
  lemma TrimSpec(s: string)
    ensures exists a, b :: 0 <= a <= b <= |s| && Trim(s) == s[a..b]
    ensures Trim(s) == "" <==> forall i :: 0 <= i < |s| ==> IsTrimmable(s[i])
    ensures |Trim(s)| > 0 ==> !IsTrimmable(Trim(s)[0]) && !IsTrimmable(Trim(s)[|Trim(s)| - 1])
  {
    TrimSlice(s);
    TrimEmptyIff(s);
  }

  lemma TrimSlice(s: string)
    ensures exists a, b :: 0 <= a <= b <= |s| && Trim(s) == s[a..b]
  {
    var t := TrimStart(s);
    var a := |s| - |t|;
    var r := TrimEnd(t);
    assert s[a..a + |r|] == r;
  }

  lemma TrimEmptyIff(s: string)
    ensures Trim(s) == "" <==> forall i :: 0 <= i < |s| ==> IsTrimmable(s[i])
  {
    var t := TrimStart(s);
    if |t| > 0 {
      assert t[0] == s[|s| - |t|];
      assert TrimEnd(t) != "";
    }
  }

  /** `TrimStart` stops at the first character that is not white space. */
  lemma {:induction false} TrimStartAt(s: string, a: nat)
    requires a <= |s| && (forall i :: 0 <= i < a ==> IsTrimmable(s[i]))
    requires a < |s| ==> !IsTrimmable(s[a])
    ensures TrimStart(s) == s[a..]
    decreases a
  {
    if a > 0 {
      TrimStartAt(s[1..], a - 1);
      assert s[1..][a - 1..] == s[a..];
    }
  }

  /** `TrimEnd` stops at the last character that is not white space. */
  lemma {:induction false} TrimEndAt(s: string, b: nat)
    requires b <= |s| && (forall i :: b <= i < |s| ==> IsTrimmable(s[i]))
    requires b > 0 ==> !IsTrimmable(s[b - 1])
    ensures TrimEnd(s) == s[..b]
    decreases |s| - b
  {
    if b < |s| {
      var s' := s[..|s| - 1];
      TrimEndAt(s', b);
      assert s'[..b] == s[..b];
    }
  }

  lemma TrimIdempotent(s: string)
    ensures Trim(Trim(s)) == Trim(s)
  {
    var t := Trim(s);
    TrimSpec(s);
    if |t| > 0 {
      assert TrimStart(t) == t;
      assert TrimEnd(t) == t;
    }
  }

  predicate IsAsciiDigit(c: char) {
    '0' <= c <= '9'
  }

  /** The Java pattern `^\d{n}$` (Java's `\d` is ASCII 0-9 by default). */
  predicate IsDigitsOfLength(s: string, n: nat) {
    |s| == n && forall i :: 0 <= i < |s| ==> IsAsciiDigit(s[i])
  }

  /** `String.replace(target, replacement)`: every non-overlapping occurrence,
      scanning left to right. */
  function ReplaceAll(s: string, pat: string, rep: string): (r: string)
    requires |pat| > 0
    ensures |rep| == |pat| ==> |r| == |s|
    ensures |s| < |pat| ==> r == s
    decreases |s|
  {
    if |s| < |pat| then s
    else if s[..|pat|] == pat then rep + ReplaceAll(s[|pat|..], pat, rep)
    else [s[0]] + ReplaceAll(s[1..], pat, rep)
  }

  /** The leftmost occurrence is replaced and the scan resumes after it:
      text with no occurrence of `pat` before `a + pat` keeps `a`, and the
      rest is replaced in turn. With `ReplaceAllNoOccurrence` this pins
      `ReplaceAll` down independently of its definition. */
  lemma {:induction false} ReplaceAllFirst(a: string, pat: string, b: string, rep: string)
    requires |pat| > 0
    requires forall i :: 0 <= i < |a| ==> !OccursAt(a + pat + b, pat, i)
    ensures ReplaceAll(a + pat + b, pat, rep) == a + rep + ReplaceAll(b, pat, rep)
    decreases |a|
  {
    var s := a + pat + b;
    if |a| == 0 {
      assert s == pat + b;
      ReplaceAllAtPrefix(pat, b, rep);
    } else {
      assert !OccursAt(s, pat, 0);
      assert s[..|pat|] != pat;
      assert s[1..] == a[1..] + pat + b;
      forall i | 0 <= i < |a[1..]| ensures !OccursAt(a[1..] + pat + b, pat, i) {
        OccursShift(s, pat, i + 1);
      }
      ReplaceAllFirst(a[1..], pat, b, rep);
      assert ReplaceAll(s, pat, rep) == [s[0]] + ReplaceAll(s[1..], pat, rep);
      assert [a[0]] + (a[1..] + rep + ReplaceAll(b, pat, rep)) == a + rep + ReplaceAll(b, pat, rep);
    }
  }

  /** Pieces joined by a separator string. */
  function JoinWith(ps: seq<string>, sep: string): (r: string)
    ensures |ps| == 1 ==> r == ps[0]
    ensures |ps| >= 2 ==> r == ps[0] + sep + JoinWith(ps[1..], sep)
  {
    if |ps| == 0 then ""
    else if |ps| == 1 then ps[0]
    else ps[0] + sep + JoinWith(ps[1..], sep)
  }

  /** In the joined text, `pat` starts inside no piece: no piece contains it
      and none straddles a boundary. */
  predicate SeparatedBy(ps: seq<string>, pat: string) {
    forall k, i :: 0 <= k < |ps| && 0 <= i < |ps[k]| ==> !OccursAt(JoinWith(ps[k..], pat), pat, i)
  }

  /** Every occurrence is replaced: pieces joined by `pat`, with `pat`
      starting inside none of them, become the same pieces joined by `rep`. */
  lemma {:induction false} ReplaceAllJoin(ps: seq<string>, pat: string, rep: string)
    requires |pat| > 0 && SeparatedBy(ps, pat)
    ensures ReplaceAll(JoinWith(ps, pat), pat, rep) == JoinWith(ps, rep)
    decreases |ps|
  {
    if |ps| == 1 {
      assert ps[0..] == ps;
      forall i ensures !OccursAt(ps[0], pat, i) {
        if 0 <= i < |ps[0]| {
          assert !OccursAt(JoinWith(ps[0..], pat), pat, i);
        }
      }
      ReplaceAllNoOccurrence(ps[0], pat, rep);
    } else if |ps| >= 2 {
      assert ps[0..] == ps;
      forall i | 0 <= i < |ps[0]| ensures !OccursAt(ps[0] + pat + JoinWith(ps[1..], pat), pat, i) {
        assert !OccursAt(JoinWith(ps[0..], pat), pat, i);
      }
      ReplaceAllFirst(ps[0], pat, JoinWith(ps[1..], pat), rep);
      forall k, i | 0 <= k < |ps[1..]| && 0 <= i < |ps[1..][k]|
        ensures !OccursAt(JoinWith(ps[1..][k..], pat), pat, i)
      {
        assert ps[1..][k..] == ps[k + 1..];
        assert !OccursAt(JoinWith(ps[k + 1..], pat), pat, i);
      }
      ReplaceAllJoin(ps[1..], pat, rep);
    }
  }

  lemma {:induction false} ReplaceAllNoOccurrence(s: string, pat: string, rep: string)
    requires |pat| > 0
    requires forall i :: !OccursAt(s, pat, i)
    ensures ReplaceAll(s, pat, rep) == s
    decreases |s|
  {
    if |s| < |pat| {
    } else {
      assert !OccursAt(s, pat, 0);
      forall i ensures !OccursAt(s[1..], pat, i) {
        if i >= 0 {
          OccursShift(s, pat, i + 1);
        }
      }
      ReplaceAllNoOccurrence(s[1..], pat, rep);
    }
  }

  lemma ReplaceAllAtPrefix(pat: string, t: string, rep: string)
    requires |pat| > 0
    ensures ReplaceAll(pat + t, pat, rep) == rep + ReplaceAll(t, pat, rep)
  {
    var s := pat + t;
    assert s[..|pat|] == pat;
    assert s[|pat|..] == t;
  }

  predicate IsLineBreak(c: char) {
    c == '\n' || c == '\r'
  }

  /** Concatenating the lines `BufferedReader.readLine` returns: every line
      break is dropped and nothing else changes. */
  function StripLineBreaks(s: string): (r: string)
    ensures |r| <= |s|
    ensures forall i :: 0 <= i < |r| ==> !IsLineBreak(r[i])
    decreases |s|
  {
    if |s| == 0 then ""
    else if IsLineBreak(s[0]) then StripLineBreaks(s[1..])
    else [s[0]] + StripLineBreaks(s[1..])
  }

  /** Text without line breaks reads back unchanged. */
  lemma {:induction false} StripLineBreaksIdentity(s: string)
    requires forall i :: 0 <= i < |s| ==> !IsLineBreak(s[i])
    ensures StripLineBreaks(s) == s
    decreases |s|
  {
    if |s| > 0 {
      StripLineBreaksIdentity(s[1..]);
      assert [s[0]] + s[1..] == s;
    }
  }

  /** Split at every delimiter, keeping empty pieces; always at least one piece. */
  function SplitAll(s: string, d: char): (r: seq<string>)
    ensures |r| >= 1
    decreases |s|
  {
    if |s| == 0 then [""]
    else
      var rest := SplitAll(s[1..], d);
      if s[0] == d then [""] + rest
      else [[s[0]] + rest[0]] + rest[1..]
  }

  /** Repeated `std::getline(stream, piece, d)`: like `SplitAll`, except that
      an empty final piece is not produced (the last extraction fails at end of input). */
  function GetlineSplit(s: string, d: char): (r: seq<string>)
  {
    var ps := SplitAll(s, d);
    if ps[|ps| - 1] == "" then ps[..|ps| - 1] else ps
  }

  function Join(ps: seq<string>, d: char): string
  {
    if |ps| == 0 then ""
    else if |ps| == 1 then ps[0]
    else ps[0] + [d] + Join(ps[1..], d)
  }

  lemma {:induction false} SplitAllNoDelim(p: string, d: char)
    requires d !in p
    ensures SplitAll(p, d) == [p]
    decreases |p|
  {
    if |p| > 0 {
      SplitAllNoDelim(p[1..], d);
      assert [p[0]] + p[1..] == p;
    }
  }

  lemma {:induction false} SplitAllAfterPiece(p: string, d: char, t: string)
    requires d !in p
    ensures SplitAll(p + [d] + t, d) == [p] + SplitAll(t, d)
    decreases |p|
  {
    var s := p + [d] + t;
    if |p| == 0 {
      assert s[1..] == t;
    } else {
      assert s[1..] == p[1..] + [d] + t;
      SplitAllAfterPiece(p[1..], d, t);
      assert [p[0]] + p[1..] == p;
    }
  }

  /** Splitting undoes joining when no piece holds the delimiter. */
  lemma {:induction false} SplitJoin(ps: seq<string>, d: char)
    requires |ps| >= 1
    requires forall k :: 0 <= k < |ps| ==> d !in ps[k]
    ensures SplitAll(Join(ps, d), d) == ps
    decreases |ps|
  {
    if |ps| == 1 {
      SplitAllNoDelim(ps[0], d);
    } else {
      SplitAllAfterPiece(ps[0], d, Join(ps[1..], d));
      SplitJoin(ps[1..], d);
      assert [ps[0]] + ps[1..] == ps;
    }
  }

  /** Joining the pieces of a split gives the text back, and no piece holds the delimiter. */
  lemma {:induction false} JoinSplit(s: string, d: char)
    ensures Join(SplitAll(s, d), d) == s
    ensures forall k :: 0 <= k < |SplitAll(s, d)| ==> d !in SplitAll(s, d)[k]
    decreases |s|
  {
    if |s| > 0 {
      var rest := SplitAll(s[1..], d);
      JoinSplit(s[1..], d);
      if s[0] == d {
        assert Join([""] + rest, d) == "" + [d] + Join(rest, d);
        assert [s[0]] + s[1..] == s;
      } else {
        var ps := [[s[0]] + rest[0]] + rest[1..];
        if |rest| == 1 {
          assert Join(ps, d) == [s[0]] + rest[0];
        } else {
          assert Join(rest, d) == rest[0] + [d] + Join(rest[1..], d);
          assert ps[1..] == rest[1..];
          assert Join(ps, d) == [s[0]] + rest[0] + [d] + Join(rest[1..], d);
        }
        assert [s[0]] + s[1..] == s;
        forall k | 0 <= k < |ps| ensures d !in ps[k] {
          if k > 0 {
            assert ps[k] == rest[k];
          }
        }
      }
    }
  }

  /** A character other than the delimiter that no piece holds is not in the joined text. */
  lemma {:induction false} JoinFree(ps: seq<string>, d: char, x: char)
    requires x != d
    requires forall k :: 0 <= k < |ps| ==> x !in ps[k]
    ensures x !in Join(ps, d)
    decreases |ps|
  {
    if |ps| > 1 {
      JoinFree(ps[1..], d, x);
    }
  }

  /** Strict lexicographic order by character code (`String.compareTo(..) < 0`,
      `std::string::operator<`). */
  predicate LexLess(a: string, b: string)
    decreases |a|
  {
    |b| > 0 && (|a| == 0 || a[0] < b[0] || (a[0] == b[0] && LexLess(a[1..], b[1..])))
  }

  predicate LexLe(a: string, b: string) {
    a == b || LexLess(a, b)
  }

  lemma {:induction false} LexLessIrreflexive(a: string)
    ensures !LexLess(a, a)
    decreases |a|
  {
    if |a| > 0 {
      LexLessIrreflexive(a[1..]);
    }
  }

  lemma {:induction false} LexLessTransitive(a: string, b: string, c: string)
    requires LexLess(a, b) && LexLess(b, c)
    ensures LexLess(a, c)
    decreases |a|
  {
    if |a| > 0 && a[0] == b[0] && b[0] == c[0] {
      LexLessTransitive(a[1..], b[1..], c[1..]);
    }
  }

  lemma {:induction false} LexLessTotal(a: string, b: string)
    ensures a == b || LexLess(a, b) || LexLess(b, a)
    decreases |a|
  {
    if |a| > 0 && |b| > 0 && a[0] == b[0] {
      LexLessTotal(a[1..], b[1..]);
      if a[1..] == b[1..] {
        assert a == [a[0]] + a[1..] && b == [b[0]] + b[1..];
      }
    }
  }

  lemma LexLessAsymmetric(a: string, b: string)
    requires LexLess(a, b)
    ensures !LexLess(b, a)
  {
    LexLessIrreflexive(a);
    if LexLess(b, a) {
      LexLessTransitive(a, b, a);
    }
  }

  /** `LexLe` is the non-strict order belonging to `LexLess`: total, and
      exactly the negation of the reversed strict order. */
  lemma LexLeIffNotLess(a: string, b: string)
    ensures LexLe(a, b) <==> !LexLess(b, a)
  {
    LexLessTotal(a, b);
    if a == b {
      LexLessIrreflexive(a);
    } else if LexLess(a, b) {
      LexLessAsymmetric(a, b);
    }
  }

  lemma LexLeTransitive(a: string, b: string, c: string)
    requires LexLe(a, b) && LexLe(b, c)
    ensures LexLe(a, c)
  {
    if a != b && b != c {
      LexLessTransitive(a, b, c);
    }
  }
}
