/**
 * The part of Python's `str` that the application relies on: substring
 * search (`sub in s`), `s.split(sep)`, `s.split(sep, 1)`, `s.startswith(p)`
 * and `s.strip()`. A string is a sequence of code points, as in Python.
 */
module PyStr {
  import opened Outcomes

  /** `sub` occurs in `s` starting at index `j`. */
  predicate OccursAt(s: string, sub: string, j: nat) {
    j + |sub| <= |s| && s[j..j + |sub|] == sub
  }

  /** Python's `sub in s`. */
  predicate Contains(s: string, sub: string) {
    exists j: nat | j <= |s| :: OccursAt(s, sub, j)
  }

  /** Python's `s.startswith(p)`. */
  predicate StartsWith(s: string, p: string) {
    |p| <= |s| && s[..|p|] == p
  }

  /** Occurrences in `s[1..]` are the occurrences in `s` after index 0, shifted by one. */
  lemma ShiftOccurrence(s: string, sub: string)
    requires |s| > 0
    ensures forall j: nat :: OccursAt(s[1..], sub, j) ==> OccursAt(s, sub, j + 1)
    ensures forall j: nat :: 0 < j && OccursAt(s, sub, j) ==> OccursAt(s[1..], sub, j - 1)
    ensures OccursAt(s, sub, 0) <==> StartsWith(s, sub)
    ensures Contains(s, sub) && !OccursAt(s, sub, 0) ==> Contains(s[1..], sub)
  {
    forall j: nat | OccursAt(s[1..], sub, j)
      ensures OccursAt(s, sub, j + 1)
    {
      assert s[1..][j..j + |sub|] == s[j + 1..j + 1 + |sub|];
    }
    forall j: nat | 0 < j && OccursAt(s, sub, j)
      ensures OccursAt(s[1..], sub, j - 1)
    {
      assert s[1..][j - 1..j - 1 + |sub|] == s[j..j + |sub|];
    }
    if Contains(s, sub) && !OccursAt(s, sub, 0) {
      var j: nat :| j <= |s| && OccursAt(s, sub, j);
      assert OccursAt(s[1..], sub, j - 1);
    }
  }

  /** The index of the first occurrence of `sub` in `s`, if any. */
  function Find(s: string, sub: string): (r: Option<nat>)
    ensures r.Some? ==> OccursAt(s, sub, r.value)
    ensures r.Some? ==> forall j: nat :: j < r.value ==> !OccursAt(s, sub, j)
    ensures r.None? <==> !Contains(s, sub)
    decreases |s|
  {
    if |s| < |sub| then None
    else if StartsWith(s, sub) then
      assert OccursAt(s, sub, 0);
      Some(0)
    else
      ShiftOccurrence(s, sub);
      match Find(s[1..], sub)
      case None => None
      case Some(k) => Some(k + 1)
  }

  /** An occurrence inside a prefix of `s` is an occurrence in `s`. */
  lemma OccursInPrefix(s: string, m: nat, sub: string, j: nat)
    requires m <= |s| && OccursAt(s[..m], sub, j)
    ensures OccursAt(s, sub, j)
  {
    assert s[..m][j..j + |sub|] == s[j..j + |sub|];
  }

  /** A prefix of a string that does not contain `sub` does not contain it either. */
  lemma PrefixAvoids(s: string, m: nat, sub: string)
    requires m <= |s| && !Contains(s, sub)
    ensures !Contains(s[..m], sub)
  {
    if Contains(s[..m], sub) {
      var j: nat :| j <= |s[..m]| && OccursAt(s[..m], sub, j);
      OccursInPrefix(s, m, sub, j);
    }
  }

  /** How many of the `n` pieces of a split remain from piece `i` on. */
  function LinesLeft(n: nat, i: nat): nat {
    if i < n then n - i else 0
  }

  /** Python's `sep.join(parts)`. */
  function Join(parts: seq<string>, sep: string): string
  {
    if |parts| == 0 then ""
    else if |parts| == 1 then parts[0]
    else parts[0] + sep + Join(parts[1..], sep)
  }

  /**
   * Python's `s.split(sep)` for a non-empty separator: the pieces between
   * the successive non-overlapping occurrences of `sep`, scanned left to right.
   */
  function Split(s: string, sep: string): (r: seq<string>)
    requires |sep| > 0
    ensures |r| >= 1
    ensures |r| == 1 <==> !Contains(s, sep)
    ensures forall i :: 0 <= i < |r| ==> !Contains(r[i], sep)
    decreases |s|
  {
    match Find(s, sep)
    case None => [s]
    case Some(k) =>
      var rest := Split(s[k + |sep|..], sep);
      PrefixBeforeFirst(s, sep, k);
      assert ([s[..k]] + rest)[1..] == rest;
      [s[..k]] + rest
  }

  /** Joining the pieces of `s.split(sep)` with `sep` gives back `s`. */
  lemma {:induction false} SplitJoinsBack(s: string, sep: string)
    requires |sep| > 0
    ensures Join(Split(s, sep), sep) == s
    decreases |s|
  {
    match Find(s, sep)
    case None =>
    case Some(k) =>
      SplitJoinsBack(s[k + |sep|..], sep);
      var rest := Split(s[k + |sep|..], sep);
      assert ([s[..k]] + rest)[1..] == rest;
      CutAround(s, sep, k);
  }

  /** An occurrence of `sep` cuts `s` into the text before it, `sep` and the text after it. */
  lemma CutAround(s: string, sep: string, k: nat)
    requires OccursAt(s, sep, k)
    ensures s == s[..k] + sep + s[k + |sep|..]
  {
  }

  /** The text before the first occurrence of `sep` holds no occurrence of it. */
  lemma PrefixBeforeFirst(s: string, sep: string, k: nat)
    requires |sep| > 0 && k <= |s|
    requires forall j: nat :: j < k ==> !OccursAt(s, sep, j)
    ensures !Contains(s[..k], sep)
  {
    if Contains(s[..k], sep) {
      var j: nat :| j <= |s[..k]| && OccursAt(s[..k], sep, j);
      OccursInPrefix(s, k, sep, j);
    }
  }

  /** Python's `s.split(sep, 1)`: at most one cut, at the first occurrence. */
  function SplitOnce(s: string, sep: string): (r: seq<string>)
    requires |sep| > 0
    ensures |r| == if Contains(s, sep) then 2 else 1
    ensures Join(r, sep) == s
    ensures !Contains(r[0], sep)
    ensures forall j: nat :: j < |r[0]| ==> !OccursAt(s, sep, j)
  {
    match Find(s, sep)
    case None => [s]
    case Some(k) =>
      PrefixBeforeFirst(s, sep, k);
      [s[..k], s[k + |sep|..]]
  }

  /**
   * `s.split(sep, 1)[1] if sep in s else s`: the text after the first
   * occurrence of `sep`, or all of `s` when `sep` does not occur.
   */
  function AfterFirst(s: string, sep: string): (r: string)
    requires |sep| > 0
    ensures Contains(s, sep) ==>
      |r| + |sep| <= |s| && s[|s| - |r| - |sep|..] == sep + r
      && !Contains(s[..|s| - |r| - |sep|], sep)
      && forall j: nat :: j < |s| - |r| - |sep| ==> !OccursAt(s, sep, j)
    ensures !Contains(s, sep) ==> r == s
  {
    if Contains(s, sep) then
      var parts := SplitOnce(s, sep);
      assert s == parts[0] + sep + parts[1];
      assert s[..|parts[0]|] == parts[0];
      parts[1]
    else s
  }

  /**
   * For a two-character separator whose characters differ, the text after
   * the first separator of `p + sep + q` is `q` whenever `p` has none.
   */
  lemma {:induction false} AfterFirstOfJoined(p: string, sep: string, q: string)
    requires |sep| == 2 && sep[0] != sep[1]
    requires !Contains(p, sep)
    ensures AfterFirst(p + sep + q, sep) == q
  {
    var s := p + sep + q;
    assert OccursAt(s, sep, |p|) by { assert s[|p|..|p| + 2] == sep; }
    var k := Find(s, sep).value;
    if k + 2 <= |p| {
      assert s[..|p|][k..k + 2] == s[k..k + 2];
      assert OccursAt(p, sep, k);
    }
    assert k == |p|;
    assert SplitOnce(s, sep) == [s[..k], s[k + 2..]];
    assert s[k + 2..] == q;
  }

  /** Whitespace in the sense of Python's `str.isspace`, which `strip()` removes. */
  predicate IsSpace(c: char) {
    ('\t' <= c <= '\r') || ('\U{1C}' <= c <= '\U{1F}') || c == ' '
    || c == '\U{85}' || c == '\U{A0}' || c == '\U{1680}'
    || ('\U{2000}' <= c <= '\U{200A}') || c == '\U{2028}' || c == '\U{2029}'
    || c == '\U{202F}' || c == '\U{205F}' || c == '\U{3000}'
  }

  predicate AllSpace(s: string) {
    forall i :: 0 <= i < |s| ==> IsSpace(s[i])
  }

  /** Python's `s.lstrip()`: `s` without its leading whitespace. */
  function StripStart(s: string): string {
    if |s| > 0 && IsSpace(s[0]) then StripStart(s[1..]) else s
  }

  /** Python's `s.rstrip()`: `s` without its trailing whitespace. */
  function StripEnd(s: string): string {
    if |s| > 0 && IsSpace(s[|s| - 1]) then StripEnd(s[..|s| - 1]) else s
  }

  /**
   * Python's `s.strip()`: `s` without its leading and trailing whitespace,
   * so that it neither starts nor ends with whitespace.
   */
  function Strip(s: string): (r: string)
    ensures |r| <= |s|
    ensures r == [] || (!IsSpace(r[0]) && !IsSpace(r[|r| - 1]))
  {
    var t := StripStart(s);
    StripStartShape(s);
    StripEndShape(t);
    var r := StripEnd(t);
    assert r != [] ==> r == t[..|r|] && r[0] == t[0];
    r
  }

  /** `lstrip()` leaves a suffix that does not start with whitespace, after whitespace only. */
  lemma {:induction false} StripStartShape(s: string)
    ensures var r := StripStart(s);
      |r| <= |s| && r == s[|s| - |r|..] && AllSpace(s[..|s| - |r|]) && (r == [] || !IsSpace(r[0]))
    decreases |s|
  {
    if |s| > 0 && IsSpace(s[0]) {
      StripStartShape(s[1..]);
      var r := StripStart(s);
      var cut := |s| - |r|;
      assert s[1..][|s| - 1 - |r|..] == s[cut..];
      forall k | 0 <= k < cut
        ensures IsSpace(s[..cut][k])
      {
        if k > 0 {
          assert s[..cut][k] == s[1..][..cut - 1][k - 1];
        }
      }
    } else {
      assert s[0..] == s;
    }
  }

  /** `rstrip()` leaves a prefix that does not end with whitespace, before whitespace only. */
  lemma {:induction false} StripEndShape(s: string)
    ensures var r := StripEnd(s);
      |r| <= |s| && r == s[..|r|] && AllSpace(s[|r|..]) && (r == [] || !IsSpace(r[|r| - 1]))
    decreases |s|
  {
    if |s| > 0 && IsSpace(s[|s| - 1]) {
      var front := s[..|s| - 1];
      StripEndShape(front);
      var r := StripEnd(s);
      assert front[..|r|] == s[..|r|];
      forall k | 0 <= k < |s| - |r|
        ensures IsSpace(s[|r|..][k])
      {
        if |r| + k < |s| - 1 {
          assert s[|r|..][k] == front[|r|..][k];
        }
      }
    } else {
      assert s[..|s|] == s;
    }
  }

  /**
   * The stripped string is a slice of `s` with only whitespace outside it.
   * With the ends `Strip` guarantees, this determines the result.
   */
  lemma StripShape(s: string)
    ensures var r := Strip(s);
      exists a: nat :: a + |r| <= |s| && s[a..a + |r|] == r && AllSpace(s[..a]) && AllSpace(s[a + |r|..])
  {
    var t := StripStart(s);
    StripStartShape(s);
    StripEndShape(t);
    var r := Strip(s);
    var a := |s| - |t|;
    assert s[a..a + |r|] == r by {
      assert t[..|r|] == s[a..a + |r|];
    }
    assert s[a + |r|..] == t[|r|..];
  }

  /** `lstrip()` removes exactly a whitespace prefix in front of text that starts otherwise. */
  lemma {:induction false} StripStartPadded(p: string, y: string)
    requires AllSpace(p) && (y == [] || !IsSpace(y[0]))
    ensures StripStart(p + y) == y
    decreases |p|
  {
    if p == [] {
      assert p + y == y;
    } else {
      assert (p + y)[0] == p[0];
      assert (p + y)[1..] == p[1..] + y;
      assert AllSpace(p[1..]) by {
        forall k | 0 <= k < |p| - 1 ensures IsSpace(p[1..][k]) {
          assert p[1..][k] == p[k + 1];
        }
      }
      StripStartPadded(p[1..], y);
    }
  }

  /** `rstrip()` removes exactly a whitespace suffix after text that ends otherwise. */
  lemma {:induction false} StripEndPadded(y: string, p: string)
    requires AllSpace(p) && (y == [] || !IsSpace(y[|y| - 1]))
    ensures StripEnd(y + p) == y
    decreases |p|
  {
    if p == [] {
      assert y + p == y;
    } else {
      var s := y + p;
      assert s[|s| - 1] == p[|p| - 1];
      assert s[..|s| - 1] == y + p[..|p| - 1];
      var front := p[..|p| - 1];
      assert AllSpace(front) by {
        forall k | 0 <= k < |front| ensures IsSpace(front[k]) {
          assert front[k] == p[k];
        }
      }
      StripEndPadded(y, front);
    }
  }

  /** `strip()` removes exactly the whitespace padding around a trimmed core. */
  lemma StripPadded(p1: string, x: string, p2: string)
    requires AllSpace(p1) && AllSpace(p2)
    requires x == [] || (!IsSpace(x[0]) && !IsSpace(x[|x| - 1]))
    ensures Strip(p1 + x + p2) == x
  {
    if x == [] {
      assert p1 + x + p2 == p1 + p2 + x;
      assert AllSpace(p1 + p2) by {
        forall k | 0 <= k < |p1| + |p2| ensures IsSpace((p1 + p2)[k]) {
          if k >= |p1| {
            assert (p1 + p2)[k] == p2[k - |p1|];
          }
        }
      }
      StripStartPadded(p1 + p2, x);
      assert StripEnd([]) == [];
    } else {
      assert p1 + x + p2 == p1 + (x + p2);
      assert (x + p2)[0] == x[0];
      StripStartPadded(p1, x + p2);
      StripEndPadded(x, p2);
    }
  }

  /** A string without the first character of `sub` cannot contain `sub`. */
  lemma AvoidsFirstChar(s: string, sub: string)
    requires |sub| > 0 && sub[0] !in s
    ensures !Contains(s, sub)
  {
    forall j: nat | j <= |s|
      ensures !OccursAt(s, sub, j)
    {
      if j + |sub| <= |s| {
        assert s[j..j + |sub|][0] == s[j];
      }
    }
  }

  /** For a one-character separator, `sub in s` is membership of that character. */
  lemma ContainsChar(s: string, c: char)
    ensures Contains(s, [c]) <==> c in s
  {
    if c in s {
      var j :| 0 <= j < |s| && s[j] == c;
      assert OccursAt(s, [c], j);
    }
    if Contains(s, [c]) {
      var j: nat :| j <= |s| && OccursAt(s, [c], j);
      assert s[j] == s[j..j + 1][0];
    }
  }

  /** The first `c` in `a + [c] + b` is the one after `a` when `a` has none. */
  lemma FindChar(a: string, c: char, b: string)
    requires c !in a
    ensures Find(a + [c] + b, [c]) == Some(|a|)
  {
    var s := a + [c] + b;
    assert OccursAt(s, [c], |a|) by { assert s[|a|..|a| + 1] == [c]; }
    forall j: nat | j < |a|
      ensures !OccursAt(s, [c], j)
    {
      assert s[j..j + 1][0] == a[j];
    }
  }

  /**
   * Splitting on a one-character separator undoes joining with it, when no
   * piece contains that character.
   */
  lemma {:induction false} SplitJoin(parts: seq<string>, sep: string)
    requires |sep| == 1 && |parts| >= 1
    requires forall i :: 0 <= i < |parts| ==> sep[0] !in parts[i]
    ensures Split(Join(parts, sep), sep) == parts
    decreases |parts|
  {
    if |parts| == 1 {
      assert sep == [sep[0]];
      ContainsChar(parts[0], sep[0]);
    } else {
      var rest := Join(parts[1..], sep);
      assert Split(Join(parts, sep), sep) == [parts[0]] + Split(rest, sep) by {
        assert Join(parts, sep) == parts[0] + sep + rest;
        SplitAfterFirst(parts[0], sep, rest);
      }
      assert Split(rest, sep) == parts[1..] by {
        SplitJoin(parts[1..], sep);
      }
      assert [parts[0]] + parts[1..] == parts;
    }
  }

  /** Splitting on a one-character `sep` cuts at its first occurrence, which ends the first piece when that piece has none. */
  lemma SplitAfterFirst(a: string, sep: string, rest: string)
    requires |sep| == 1 && sep[0] !in a
    ensures Split(a + sep + rest, sep) == [a] + Split(rest, sep)
  {
    var s := a + sep + rest;
    assert sep == [sep[0]];
    FindChar(a, sep[0], rest);
    assert s[..|a|] == a;
    assert s[|a| + 1..] == rest;
  }

  /** The first piece of `s.split(sep)` is the text before the first `sep`. */
  lemma FirstPiece(s: string, sep: string)
    requires |sep| > 0
    ensures var p := Split(s, sep)[0];
      p == s[..|p|] && !Contains(p, sep) && (|p| == |s| || OccursAt(s, sep, |p|))
      && forall j: nat :: j < |p| ==> !OccursAt(s, sep, j)
  {
  }

  /** The second piece of `s.split(sep)` is the first piece of what follows the first `sep`. */
  lemma SecondPiece(s: string, sep: string)
    requires |sep| > 0 && Contains(s, sep)
    ensures |Split(s, sep)| >= 2 && Split(s, sep)[1] == Split(AfterFirst(s, sep), sep)[0]
  {
    var k := Find(s, sep).value;
    assert SplitOnce(s, sep)[1] == s[k + |sep|..];
  }

  /** The last piece of `s.split(sep)` is a suffix of `s`. */
  lemma LastPiece(s: string, sep: string)
    requires |sep| > 0
    ensures var parts := Split(s, sep); var p := parts[|parts| - 1];
      |p| <= |s| && p == s[|s| - |p|..]
  {
    var parts := Split(s, sep);
    var p := parts[|parts| - 1];
    if |parts| == 1 {
      assert p == s by {
        SplitJoinsBack(s, sep);
      }
      WholeSuffix(s, p);
    } else {
      LastPieceAfterSep(s, sep);
    }
  }

  /** When `s.split(sep)` has several pieces, the last one starts right after an occurrence of `sep`. */
  lemma LastPieceAfterSep(s: string, sep: string)
    requires |sep| > 0 && |Split(s, sep)| > 1
    ensures var parts := Split(s, sep); var p := parts[|parts| - 1];
      |p| + |sep| <= |s| && p == s[|s| - |p|..] && OccursAt(s, sep, |s| - |p| - |sep|)
  {
    var parts := Split(s, sep);
    var p := parts[|parts| - 1];
    var front := Join(parts[..|parts| - 1], sep);
    assert s == front + sep + p by {
      SplitJoinsBack(s, sep);
      JoinLast(parts, sep);
    }
    JoinedTail(s, front, sep, p);
  }

  lemma WholeSuffix(s: string, p: string)
    requires p == s
    ensures |p| <= |s| && p == s[|s| - |p|..]
  {
    assert s[0..] == s;
  }

  /** In `front + sep + p`, `p` is the suffix right after an occurrence of `sep`. */
  lemma JoinedTail(s: string, front: string, sep: string, p: string)
    requires s == front + sep + p
    ensures |p| + |sep| <= |s| && p == s[|s| - |p|..] && OccursAt(s, sep, |s| - |p| - |sep|)
  {
    assert s[|front|..|front| + |sep|] == sep;
  }

  /** Joining splits off the last part together with the separator before it. */
  lemma {:induction false} JoinLast(parts: seq<string>, sep: string)
    requires |parts| >= 2
    ensures Join(parts, sep) == Join(parts[..|parts| - 1], sep) + sep + parts[|parts| - 1]
    decreases |parts|
  {
    var n := |parts|;
    if n > 2 {
      JoinLast(parts[1..], sep);
      assert parts[1..][..n - 2] == parts[..n - 1][1..];
      assert parts[1..][n - 2] == parts[n - 1];
    } else {
      assert parts[..1] == [parts[0]];
      assert parts[1..] == [parts[1]];
    }
  }

  /**
   * For a one-character separator that occurs, the last piece is the suffix
   * after its last occurrence: a `c` stands right before it and none inside.
   */
  lemma LastPieceAfterChar(s: string, c: char)
    requires Contains(s, [c])
    ensures var parts := Split(s, [c]); var p := parts[|parts| - 1];
      |p| < |s| && p == s[|s| - |p|..] && s[|s| - |p| - 1] == c && c !in p
  {
    PiecesLackChar(s, c);
    LastPieceAfterSep(s, [c]);
    var parts := Split(s, [c]);
    var j := |s| - |parts[|parts| - 1]| - 1;
    assert s[j] == s[j..j + 1][0];
  }

  /** No piece of `s.split(c)` holds the character `c`. */
  lemma PiecesLackChar(s: string, c: char)
    ensures var parts := Split(s, [c]); forall i :: 0 <= i < |parts| ==> c !in parts[i]
  {
    var parts := Split(s, [c]);
    forall i | 0 <= i < |parts|
      ensures c !in parts[i]
    {
      ContainsChar(parts[i], c);
    }
  }
}
