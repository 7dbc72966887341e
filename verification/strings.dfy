/** The Python `str` operations the meal tool relies on: `strip`, `in`,
    `find`, `split`, `join`, `count` and `replace(pat, '')`, on `string`
    as a sequence of Unicode scalar values. */
module Strings {
  import opened Optional
  import opened Sequences

  /** Python's `str.isspace()` for a single character; the regular-expression
      class `\s` of a `str` pattern matches exactly these characters. */
  predicate IsSpace(c: char) {
    || c == ' '
    || ('\t' <= c <= '\r')
    || ('\U{1C}' <= c <= '\U{1F}')
    || c == '\U{85}' || c == '\U{A0}' || c == '\U{1680}'
    || ('\U{2000}' <= c <= '\U{200A}')
    || c == '\U{2028}' || c == '\U{2029}' || c == '\U{202F}' || c == '\U{205F}'
    || c == '\U{3000}'
  }

  /** The decimal digits matched by the regular-expression class `\d`
      (the ASCII ones; see README). */
  predicate IsDigit(c: char) {
    '0' <= c <= '9'
  }

  predicate AllSpace(s: string) {
    forall k :: 0 <= k < |s| ==> IsSpace(s[k])
  }

  /** The length of the run of whitespace at the front of `s`. */
  function LeadingSpaces(s: string): (n: nat)
    ensures n <= |s|
    ensures forall k :: 0 <= k < n ==> IsSpace(s[k])
    ensures n == |s| || !IsSpace(s[n])
    decreases |s|
  {
    if |s| > 0 && IsSpace(s[0]) then 1 + LeadingSpaces(s[1..]) else 0
  }

  /** The length of the run of whitespace at the end of `s`. */
  function TrailingSpaces(s: string): (n: nat)
    ensures n <= |s|
    ensures forall k :: |s| - n <= k < |s| ==> IsSpace(s[k])
    ensures n == |s| || !IsSpace(s[|s| - n - 1])
    decreases |s|
  {
    if |s| > 0 && IsSpace(s[|s| - 1]) then 1 + TrailingSpaces(s[..|s| - 1]) else 0
  }

  /** A string with no whitespace at either end. */
  predicate Trimmed(s: string) {
    s == [] || (!IsSpace(s[0]) && !IsSpace(s[|s| - 1]))
  }

  /** Python's `str.strip()`: the slice of `s` left once the whitespace at
      both ends is cut off. */
  function Trim(s: string): (r: string)
    ensures Trimmed(r)
    ensures LeadingSpaces(s) + |r| <= |s|
    ensures r == s[LeadingSpaces(s)..LeadingSpaces(s) + |r|]
    ensures forall k :: LeadingSpaces(s) + |r| <= k < |s| ==> IsSpace(s[k])
  {
    var i := LeadingSpaces(s);
    var t := s[i..];
    var j := TrailingSpaces(t);
    var r := t[..|t| - j];
    assert r == s[i..i + |r|];
    r
  }

  /** Stripping a string that is already trimmed changes nothing. */
  lemma TrimTrimmed(s: string)
    requires Trimmed(s)
    ensures Trim(s) == s
  {
    if |s| > 0 {
      assert LeadingSpaces(s) == 0;
      assert TrailingSpaces(s) == 0;
    }
  }

  /** `pat` occurs in `s` starting at index `i`. */
  predicate OccursAt(s: string, pat: string, i: int) {
    0 <= i && i + |pat| <= |s| && s[i..i + |pat|] == pat
  }

  lemma OccursAtTail(s: string, pat: string)
    requires |s| > 0
    ensures forall j :: 1 <= j ==> (OccursAt(s[1..], pat, j - 1) <==> OccursAt(s, pat, j))
  {
    forall j | 1 <= j ensures OccursAt(s[1..], pat, j - 1) <==> OccursAt(s, pat, j) {
      if j + |pat| <= |s| {
        assert s[1..][j - 1..j - 1 + |pat|] == s[j..j + |pat|];
      }
    }
  }

  /** Python's `str.find`: the leftmost index at which `pat` occurs in `s`,
      or `None` (Python's -1) when it occurs nowhere. */
  function IndexOf(s: string, pat: string): (r: Option<nat>)
    ensures r.Some? ==> r.value + |pat| <= |s|
    decreases |s|
  {
    if |s| < |pat| then None
    else if OccursAt(s, pat, 0) then Some(0)
    else
      match IndexOf(s[1..], pat)
      case None => None
      case Some(i) => Some(i + 1)
  }

  /** `IndexOf` reports an occurrence, and no occurrence lies to its left. */
  lemma {:induction false} IndexOfSpec(s: string, pat: string)
    ensures IndexOf(s, pat).Some? ==> OccursAt(s, pat, IndexOf(s, pat).value)
    ensures forall j :: (IndexOf(s, pat).None? || j < IndexOf(s, pat).value) ==> !OccursAt(s, pat, j)
    decreases |s|
  {
    if |s| < |pat| {
    } else if OccursAt(s, pat, 0) {
    } else {
      OccursAtTail(s, pat);
      IndexOfSpec(s[1..], pat);
    }
  }

  /** Python's `pat in s`. */
  predicate Contains(s: string, pat: string) {
    IndexOf(s, pat).Some?
  }

  /** The leftmost occurrence is the one `IndexOf` reports. */
  lemma IndexOfLeftmost(s: string, pat: string, i: nat)
    requires OccursAt(s, pat, i)
    requires forall j :: 0 <= j < i ==> !OccursAt(s, pat, j)
    ensures IndexOf(s, pat) == Some(i)
  {
    IndexOfSpec(s, pat);
  }

  /** `pat in s` holds exactly when `pat` occurs at some index of `s`. */
  lemma ContainsIff(s: string, pat: string)
    ensures Contains(s, pat) <==> exists i :: OccursAt(s, pat, i)
  {
    IndexOfSpec(s, pat);
  }

  lemma OccursInPrefix(s: string, pat: string, n: nat, j: int)
    requires n <= |s|
    requires OccursAt(s[..n], pat, j)
    ensures OccursAt(s, pat, j)
  {
    assert s[..n][j..j + |pat|] == s[j..j + |pat|];
  }

  lemma OccursInSlice(s: string, pat: string, i: nat, n: nat, j: int)
    requires i + n <= |s|
    requires OccursAt(s[i..i + n], pat, j)
    ensures OccursAt(s, pat, i + j)
  {
    assert s[i..i + n] == s[i..][..n];
    assert s[i..][..n][j..j + |pat|] == s[i..][j..j + |pat|];
    assert s[i..][j..j + |pat|] == s[i + j..i + j + |pat|];
  }

  /** A one-character pattern occurs exactly where that character stands. */
  lemma OccursAtChar(s: string, c: char, j: int)
    ensures OccursAt(s, [c], j) <==> (0 <= j < |s| && s[j] == c)
  {
    if 0 <= j < |s| {
      assert s[j..j + 1] == [s[j]];
    }
  }

  /** A string in which `pat` does not occur before index `n` has a prefix of
      length `n` without `pat`. */
  lemma NotInPrefix(s: string, pat: string, n: nat)
    requires |pat| > 0 && n <= |s|
    requires forall j :: 0 <= j < n ==> !OccursAt(s, pat, j)
    ensures !Contains(s[..n], pat)
  {
    if Contains(s[..n], pat) {
      IndexOfSpec(s[..n], pat);
      var j := IndexOf(s[..n], pat).value;
      OccursInPrefix(s, pat, n, j);
    }
  }

  /** Trimming never creates an occurrence of a pattern. */
  lemma TrimKeepsOut(s: string, pat: string)
    requires !Contains(s, pat)
    ensures !Contains(Trim(s), pat)
  {
    var r := Trim(s);
    var i := LeadingSpaces(s);
    assert r == s[i..i + |r|];
    IndexOfSpec(s, pat);
    if Contains(r, pat) {
      IndexOfSpec(r, pat);
      OccursInSlice(s, pat, i, |r|, IndexOf(r, pat).value);
    }
  }

  /** Python's `str.split(sep)` with an explicit separator: the pieces between
      the occurrences of `sep`, found left to right without overlapping. */
  function Split(s: string, sep: string): (ps: seq<string>)
    requires |sep| > 0
    ensures |ps| >= 1
    decreases |s|
  {
    match IndexOf(s, sep)
    case None => [s]
    case Some(i) => [s[..i]] + Split(s[i + |sep|..], sep)
  }

  /** No piece of a split holds the separator. */
  lemma {:induction false} SplitPiecesClean(s: string, sep: string)
    requires |sep| > 0
    ensures forall k :: 0 <= k < |Split(s, sep)| ==> !Contains(Split(s, sep)[k], sep)
    decreases |s|
  {
    match IndexOf(s, sep)
    case None =>
    case Some(i) =>
      IndexOfSpec(s, sep);
      NotInPrefix(s, sep, i);
      SplitPiecesClean(s[i + |sep|..], sep);
  }

  /** Python's `sep.join(ps)`. */
  function Join(ps: seq<string>, sep: string): string
  {
    if |ps| == 0 then ""
    else if |ps| == 1 then ps[0]
    else ps[0] + sep + Join(ps[1..], sep)
  }

  /** Python's `str.count(sep)`: the number of non-overlapping occurrences. */
  function Count(s: string, sep: string): nat
    requires |sep| > 0
    decreases |s|
  {
    match IndexOf(s, sep)
    case None => 0
    case Some(i) => 1 + Count(s[i + |sep|..], sep)
  }

  /** Python's `str.replace(pat, '')`: every non-overlapping occurrence of
      `pat`, found left to right, deleted. */
  function RemoveAll(s: string, pat: string): (r: string)
    requires |pat| > 0
    ensures |r| <= |s|
    decreases |s|
  {
    match IndexOf(s, pat)
    case None => s
    case Some(i) => s[..i] + RemoveAll(s[i + |pat|..], pat)
  }

  /** Each deleted occurrence takes exactly `|pat|` characters away. */
  lemma {:induction false} RemoveAllLength(s: string, pat: string)
    requires |pat| > 0
    ensures |RemoveAll(s, pat)| + |pat| * Count(s, pat) == |s|
    decreases |s|
  {
    match IndexOf(s, pat)
    case None =>
    case Some(i) =>
      var rest := s[i + |pat|..];
      var n := Count(rest, pat);
      assert Count(s, pat) == 1 + n;
      assert |pat| * Count(s, pat) == |pat| + |pat| * n by {
        assert |pat| * (1 + n) == |pat| + |pat| * n;
      }
      assert |RemoveAll(s, pat)| == i + |RemoveAll(rest, pat)|;
      RemoveAllLength(rest, pat);
  }

  /** Deleting every occurrence of one character leaves none of it. */
  lemma {:induction false} RemoveAllChar(s: string, c: char)
    ensures c !in RemoveAll(s, [c])
    decreases |s|
  {
    IndexOfSpec(s, [c]);
    match IndexOf(s, [c])
    case None =>
      forall j | 0 <= j < |s| ensures s[j] != c {
        OccursAtChar(s, c, j);
      }
    case Some(i) =>
      forall j | 0 <= j < i ensures s[j] != c {
        OccursAtChar(s, c, j);
      }
      RemoveAllChar(s[i + 1..], c);
  }

  /** A separator none of whose proper prefixes is also a suffix: two of its
      occurrences can never overlap, nor can one straddle a join. */
  predicate NoBorder(sep: string) {
    forall k :: 0 < k < |sep| ==> sep[..k] != sep[|sep| - k..]
  }

  /** A separator whose first character appears nowhere else has no border. */
  lemma NoBorderByFirstChar(sep: string)
    requires |sep| > 0
    requires forall i :: 0 < i < |sep| ==> sep[i] != sep[0]
    ensures NoBorder(sep)
  {
    forall k | 0 < k < |sep| ensures sep[..k] != sep[|sep| - k..] {
      assert sep[|sep| - k..][0] == sep[|sep| - k];
    }
  }

  /** A leftmost occurrence in `a` stays the leftmost in any extension of `a`. */
  lemma IndexOfExtend(a: string, t: string, pat: string)
    requires IndexOf(a, pat).Some?
    ensures IndexOf(a + t, pat) == IndexOf(a, pat)
  {
    IndexOfSpec(a, pat);
    var i := IndexOf(a, pat).value;
    assert (a + t)[i..i + |pat|] == a[i..i + |pat|];
    forall j | 0 <= j < i ensures !OccursAt(a + t, pat, j) {
      if OccursAt(a + t, pat, j) {
        assert (a + t)[j..j + |pat|] == a[j..j + |pat|];
        assert OccursAt(a, pat, j);
      }
    }
    IndexOfLeftmost(a + t, pat, i);
  }

  /** When `a` holds no separator, the first separator of `a + sep + b` is the
      one placed right after `a`. */
  lemma IndexOfAtSeparator(a: string, sep: string, b: string)
    requires |sep| > 0 && NoBorder(sep)
    requires !Contains(a, sep)
    ensures IndexOf(a + sep + b, sep) == Some(|a|)
  {
    var s := a + sep + b;
    var n := |sep|;
    IndexOfSpec(a, sep);
    assert s[|a|..|a| + n] == sep;
    forall j | 0 <= j < |a| ensures !OccursAt(s, sep, j) {
      if j + n <= |a| {
        assert s[j..j + n] == a[j..j + n];
        assert !OccursAt(a, sep, j);
      } else if j + n <= |s| {
        var k := |a| - j;
        assert s[j..j + n][k..] == sep[..n - k];
        assert sep[..n - k] != sep[n - (n - k)..];
      }
    }
    IndexOfLeftmost(s, sep, |a|);
  }

  /** One step of `Split`: the piece before the first separator, then the
      split of what follows it. */
  lemma SplitStep(s: string, sep: string, i: nat)
    requires |sep| > 0
    requires IndexOf(s, sep) == Some(i)
    ensures Split(s, sep) == [s[..i]] + Split(s[i + |sep|..], sep)
  {
  }

  /** Splitting a string glued together at a separator splits both halves. */
  lemma {:induction false} SplitConcat(a: string, sep: string, b: string)
    requires |sep| > 0 && NoBorder(sep)
    ensures Split(a + sep + b, sep) == Split(a, sep) + Split(b, sep)
    decreases |a|
  {
    var s := a + sep + b;
    match IndexOf(a, sep)
    case None =>
      IndexOfAtSeparator(a, sep, b);
      SplitConcatNone(a, sep, b);
    case Some(i) =>
      var rest := a[i + |sep|..];
      SplitConcat(rest, sep, b);
      SplitConcatSome(a, sep, b, i);
  }

  lemma SplitConcatNone(a: string, sep: string, b: string)
    requires |sep| > 0
    requires IndexOf(a, sep).None?
    requires IndexOf(a + sep + b, sep) == Some(|a|)
    ensures Split(a + sep + b, sep) == Split(a, sep) + Split(b, sep)
  {
    var s := a + sep + b;
    SplitStep(s, sep, |a|);
    assert s[..|a|] == a;
    assert s[|a| + |sep|..] == b;
  }

  lemma SplitConcatSome(a: string, sep: string, b: string, i: nat)
    requires |sep| > 0
    requires IndexOf(a, sep) == Some(i)
    requires Split(a[i + |sep|..] + sep + b, sep) == Split(a[i + |sep|..], sep) + Split(b, sep)
    ensures Split(a + sep + b, sep) == Split(a, sep) + Split(b, sep)
  {
    SplitExtend(a, sep, b, sep, i);
    SplitStep(a, sep, i);
    ConsAssoc(a[..i], Split(a[i + |sep|..], sep), Split(b, sep));
  }

  /** A string whose first separator lies in `a` splits there, whatever
      follows `a`. */
  lemma SplitExtend(a: string, m: string, b: string, sep: string, i: nat)
    requires |sep| > 0
    requires IndexOf(a, sep) == Some(i)
    ensures Split(a + m + b, sep) == [a[..i]] + Split(a[i + |sep|..] + m + b, sep)
  {
    var s := a + m + b;
    assert s == a + (m + b);
    IndexOfExtend(a, m + b, sep);
    SplitStep(s, sep, i);
    assert s[i + |sep|..] == a[i + |sep|..] + m + b;
    assert s[..i] == a[..i];
  }

  /** Joining the pieces of a split gives the string back. */
  lemma {:induction false} JoinSplit(s: string, sep: string)
    requires |sep| > 0
    ensures Join(Split(s, sep), sep) == s
    decreases |s|
  {
    match IndexOf(s, sep)
    case None =>
    case Some(i) =>
      var rest := s[i + |sep|..];
      IndexOfSpec(s, sep);
      JoinSplit(rest, sep);
      var ps := Split(s, sep);
      assert ps == [s[..i]] + Split(rest, sep);
      assert |ps| >= 2 && ps[0] == s[..i] && ps[1..] == Split(rest, sep);
      assert Join(ps, sep) == s[..i] + sep + rest;
      assert s == s[..i] + sep + rest;
  }

  /** Splitting a join of separator-free pieces gives the pieces back. */
  lemma {:induction false} SplitJoin(ps: seq<string>, sep: string)
    requires |sep| > 0 && NoBorder(sep)
    requires |ps| > 0
    requires forall k :: 0 <= k < |ps| ==> !Contains(ps[k], sep)
    ensures Split(Join(ps, sep), sep) == ps
    decreases |ps|
  {
    if |ps| == 1 {
      assert IndexOf(ps[0], sep).None?;
    } else {
      SplitJoin(ps[1..], sep);
      SplitConcat(ps[0], sep, Join(ps[1..], sep));
      assert IndexOf(ps[0], sep).None?;
      assert [ps[0]] + ps[1..] == ps;
    }
  }

  /** A string with `c` separators splits into `c + 1` pieces. */
  lemma {:induction false} SplitCount(s: string, sep: string)
    requires |sep| > 0
    ensures |Split(s, sep)| == Count(s, sep) + 1
    decreases |s|
  {
    match IndexOf(s, sep)
    case None =>
    case Some(i) =>
      SplitCount(s[i + |sep|..], sep);
  }

  /** Joining `n` separator-free pieces puts exactly `n - 1` separators in. */
  lemma {:induction false} JoinCount(ps: seq<string>, sep: string)
    requires |sep| > 0 && NoBorder(sep)
    requires |ps| > 0
    requires forall k :: 0 <= k < |ps| ==> !Contains(ps[k], sep)
    ensures Count(Join(ps, sep), sep) == |ps| - 1
  {
    SplitJoin(ps, sep);
    SplitCount(Join(ps, sep), sep);
  }

  /** Python's identity `s.replace(p, '') == ''.join(s.split(p))`. */
  lemma {:induction false} RemoveAllIsJoinOfSplit(s: string, pat: string)
    requires |pat| > 0
    ensures RemoveAll(s, pat) == Join(Split(s, pat), "")
    decreases |s|
  {
    match IndexOf(s, pat)
    case None =>
    case Some(i) =>
      var rest := s[i + |pat|..];
      RemoveAllIsJoinOfSplit(rest, pat);
      var ps := Split(s, pat);
      assert ps[1..] == Split(rest, pat);
  }

  /** Deleting occurrences keeps the remaining characters in order. */
  lemma {:induction false} RemoveAllSubsequence(s: string, pat: string)
    requires |pat| > 0
    ensures IsSubsequence(RemoveAll(s, pat), s)
    decreases |s|
  {
    match IndexOf(s, pat)
    case None =>
      SubsequenceRefl(s);
    case Some(i) =>
      var head, found, rest := s[..i], s[i..i + |pat|], s[i + |pat|..];
      var kept := RemoveAll(rest, pat);
      assert RemoveAll(s, pat) == head + kept;
      RemoveAllSubsequence(rest, pat);
      SubsequencePrepend(kept, found, rest);
      SubsequenceKeepPrefix(head, kept, found + rest);
      SplitThree(s, i, i + |pat|);
  }

  /** Cutting a string at two indices and gluing the pieces back. */
  lemma SplitThree(s: string, i: nat, j: nat)
    requires i <= j <= |s|
    ensures s[..i] + (s[i..j] + s[j..]) == s
  {
    assert s[i..j] + s[j..] == s[i..];
  }

  /** An occurrence at a known index makes `pat in s` true. */
  lemma ContainsAt(s: string, pat: string, i: int)
    requires OccursAt(s, pat, i)
    ensures Contains(s, pat)
  {
    ContainsIff(s, pat);
  }

  /** A pattern holding a character that `s` lacks does not occur in `s`. */
  lemma MissingCharNotContained(s: string, pat: string, c: char)
    requires c in pat && c !in s
    ensures !Contains(s, pat)
  {
    ContainsIff(s, pat);
    var k :| 0 <= k < |pat| && pat[k] == c;
    forall i ensures !OccursAt(s, pat, i) {
      if 0 <= i && i + |pat| <= |s| {
        assert s[i..i + |pat|][k] == s[i + k];
      }
    }
  }
}
