/** Deleting the allergen annotations from a dish-list string: Python's
    `re.sub(r'\s*\([^)]*\d[^)]*\)', '', s)`, written as the left-to-right
    scan the regular-expression engine performs.

    At a scan position the pattern can match in one way only. `\s*` takes the
    whole run of whitespace (giving some back never helps, since a whitespace
    character is not `(`), the next character must be `(`, and because
    neither `[^)]*` may cross a `)`, the closing `\)` is the first `)` after
    that `(`. The match exists exactly when some digit lies between the two.
    Nothing stops the body from holding `(` or `<br/>`. */
module Allergens {
  import opened Optional
  import opened Sequences
  import opened Strings

  /** No `)` at the indices `a .. b-1` of `t`. */
  predicate NoCloseIn(t: string, a: int, b: int) {
    forall j :: a <= j < b && 0 <= j < |t| ==> t[j] != ')'
  }

  /** Some decimal digit at the indices `a .. b-1` of `t`. */
  predicate DigitIn(t: string, a: int, b: int) {
    exists j :: a <= j < b && 0 <= j < |t| && IsDigit(t[j])
  }

  /** The index of the first `)` of `s` at or after index `i`, or `None`. */
  function ClosingParen(s: string, i: nat): (r: Option<nat>)
    requires i <= |s|
    ensures r.Some? ==> i <= r.value < |s| && s[r.value] == ')' && NoCloseIn(s, i, r.value)
    ensures r.None? ==> NoCloseIn(s, i, |s|)
    decreases |s| - i
  {
    if i == |s| then None
    else if s[i] == ')' then Some(i)
    else ClosingParen(s, i + 1)
  }

  /** Any `)` with no `)` between `i` and it is the one `ClosingParen` finds. */
  lemma ClosingParenUnique(s: string, i: nat, c: nat)
    requires i <= c < |s| && s[c] == ')' && NoCloseIn(s, i, c)
    ensures ClosingParen(s, i).Some? && ClosingParen(s, i).value == c
  {
  }

  /** The length of the match of `\s*\([^)]*\d[^)]*\)` at the very start of
      `s`, or `None` when the pattern does not match there. */
  function MatchLen(s: string): (r: Option<nat>)
    ensures r.Some? ==> 2 <= r.value <= |s|
  {
    var q := LeadingSpaces(s);
    if q < |s| && s[q] == '(' then
      match ClosingParen(s, q + 1)
      case None => None
      case Some(c) => if DigitIn(s, q + 1, c) then Some(c + 1) else None
    else None
  }

  /** `u` as a whole matches `\s*\([^)]*\d[^)]*\)`: whitespace, `(`, a body
      without `)` holding at least one digit, `)`. */
  ghost predicate MatchesPattern(u: string) {
    exists q :: PatternAt(u, q)
  }

  /** `u` matches the pattern with the `(` at index `q`. */
  ghost predicate PatternAt(u: string, q: int) {
    && 0 <= q && q + 2 <= |u|
    && SpacesBefore(u, q)
    && u[q] == '('
    && u[|u| - 1] == ')'
    && NoCloseIn(u, q + 1, |u| - 1)
    && DigitIn(u, q + 1, |u| - 1)
  }

  /** Whitespace at the indices `0 .. q-1` of `t`. */
  predicate SpacesBefore(t: string, q: int) {
    forall k :: 0 <= k < q && k < |t| ==> IsSpace(t[k])
  }

  /** A group the `\([^)]*\d[^)]*\)` part of the pattern matches: a `(` at
      `i`, the first `)` after it at `r`, and a digit in between. */
  ghost predicate DigitGroup(t: string, i: int, r: int) {
    && 0 <= i < r < |t|
    && t[i] == '('
    && t[r] == ')'
    && NoCloseIn(t, i + 1, r)
    && DigitIn(t, i + 1, r)
  }

  ghost predicate ContainsDigitGroup(t: string) {
    exists i, r :: DigitGroup(t, i, r)
  }

  /** Python's `re.sub(r'\s*\([^)]*\d[^)]*\)', '', s)`: at each position a
      match is deleted and the scan resumes right after it; otherwise the
      character is kept and the scan moves on by one. */
  function StripAllergens(s: string): (r: string)
    ensures |r| <= |s|
    decreases |s|
  {
    if |s| == 0 then ""
    else
      match MatchLen(s)
      case Some(e) => StripAllergens(s[e..])
      case None => [s[0]] + StripAllergens(s[1..])
  }

  /** A whitespace run that ends where a non-space character stands is the
      one `LeadingSpaces` measures. */
  lemma LeadingSpacesExact(s: string, n: nat)
    requires n < |s| && !IsSpace(s[n])
    requires forall k :: 0 <= k < n ==> IsSpace(s[k])
    ensures LeadingSpaces(s) == n
  {
  }

  /** Where the pattern matches, its `\(...\)` part is a digit group. */
  lemma MatchGivesGroup(s: string)
    requires MatchLen(s).Some?
    ensures DigitGroup(s, LeadingSpaces(s), MatchLen(s).value - 1)
  {
    var q := LeadingSpaces(s);
    assert q < |s| && s[q] == '(';
    assert ClosingParen(s, q + 1).Some?;
    var c := ClosingParen(s, q + 1).value;
    assert DigitIn(s, q + 1, c);
    assert MatchLen(s).value == c + 1;
  }

  /** `MatchLen` reports exactly the prefixes of `s` the pattern matches: the
      match is found when there is one, only then, and it is unique. */
  lemma MatchLenIsRegexMatch(s: string, e: nat)
    ensures MatchLen(s) == Some(e) <==> (e <= |s| && MatchesPattern(s[..e]))
  {
    if MatchLen(s) == Some(e) {
      MatchLenSound(s);
    }
    if e <= |s| && MatchesPattern(s[..e]) {
      MatchLenComplete(s, e);
    }
  }

  /** The prefix `MatchLen` reports matches the pattern. */
  lemma MatchLenSound(s: string)
    requires MatchLen(s).Some?
    ensures MatchesPattern(s[..MatchLen(s).value])
  {
    var e := MatchLen(s).value;
    var q := LeadingSpaces(s);
    MatchGivesGroup(s);
    PatternAtPrefix(s, e, q);
    assert PatternAt(s[..e], q);
  }

  /** A prefix the pattern matches is the one `MatchLen` reports. */
  lemma MatchLenComplete(s: string, e: nat)
    requires e <= |s| && MatchesPattern(s[..e])
    ensures MatchLen(s).Some? && MatchLen(s).value == e
  {
    var q :| PatternAt(s[..e], q);
    PatternAtPrefix(s, e, q);
    MatchLenOf(s, q, e - 1);
  }

  /** Matching a prefix, read off the whole string. */
  lemma PatternAtPrefix(s: string, e: nat, q: int)
    requires e <= |s| && 0 <= q && q + 2 <= e
    ensures PatternAt(s[..e], q) <==>
              && SpacesBefore(s, q) && s[q] == '(' && s[e - 1] == ')'
              && NoCloseIn(s, q + 1, e - 1) && DigitIn(s, q + 1, e - 1)
  {
    var u := s[..e];
    assert u[q] == s[q] && u[e - 1] == s[e - 1];
    SpacesPrefix(s, e, q);
    NoClosePrefix(s, e, q + 1, e - 1);
    DigitPrefix(s, e, q + 1, e - 1);
  }

  lemma SpacesPrefix(s: string, e: nat, q: int)
    requires e <= |s| && q <= e
    ensures SpacesBefore(s[..e], q) <==> SpacesBefore(s, q)
  {
    assert forall k :: 0 <= k < q && k < e ==> s[..e][k] == s[k];
  }

  lemma NoClosePrefix(s: string, e: nat, a: int, b: int)
    requires e <= |s| && b <= e
    ensures NoCloseIn(s[..e], a, b) <==> NoCloseIn(s, a, b)
  {
    assert forall j :: a <= j < b && 0 <= j ==> s[..e][j] == s[j];
  }

  lemma DigitPrefix(s: string, e: nat, a: int, b: int)
    requires e <= |s| && b <= e
    ensures DigitIn(s[..e], a, b) <==> DigitIn(s, a, b)
  {
    if DigitIn(s, a, b) {
      var j :| a <= j < b && 0 <= j < |s| && IsDigit(s[j]);
      assert s[..e][j] == s[j];
    }
    if DigitIn(s[..e], a, b) {
      var j :| a <= j < b && 0 <= j < e && IsDigit(s[..e][j]);
      assert s[..e][j] == s[j];
    }
  }

  /** Whitespace up to `q`, a `(` at `q`, the first `)` after it at `c` and a
      digit in between: the match runs to `c`. */
  lemma MatchLenOf(s: string, q: nat, c: nat)
    requires q < c < |s|
    requires SpacesBefore(s, q)
    requires s[q] == '(' && s[c] == ')' && NoCloseIn(s, q + 1, c) && DigitIn(s, q + 1, c)
    ensures MatchLen(s).Some? && MatchLen(s).value == c + 1
  {
    LeadingSpacesExact(s, q);
    ClosingParenUnique(s, q + 1, c);
    MatchLenUnfold(s, q, c);
  }

  lemma MatchLenUnfold(s: string, q: nat, c: nat)
    requires q < |s| && LeadingSpaces(s) == q && s[q] == '('
    requires ClosingParen(s, q + 1).Some? && ClosingParen(s, q + 1).value == c
    requires DigitIn(s, q + 1, c)
    ensures MatchLen(s).Some? && MatchLen(s).value == c + 1
  {
  }

  /** The scan keeps the surviving characters in their order. */
  lemma {:induction false} StripSubsequence(s: string)
    ensures IsSubsequence(StripAllergens(s), s)
    decreases |s|
  {
    if |s| > 0 {
      match MatchLen(s)
      case Some(e) =>
        var rest := s[e..];
        assert StripAllergens(s) == StripAllergens(rest);
        StripSubsequence(rest);
        SubsequencePrepend(StripAllergens(rest), s[..e], rest);
        TakeDrop(s, e);
      case None =>
        var rest := s[1..];
        StripKeepsHead(s);
        StripSubsequence(rest);
        SubsequenceCons(s[0], StripAllergens(rest), rest);
        TakeDrop(s, 1);
    }
  }

  /** A character absent from the input is absent from the output. */
  lemma StripNoNewChar(s: string, c: char)
    requires c !in s
    ensures c !in StripAllergens(s)
  {
    StripSubsequence(s);
    if c in StripAllergens(s) {
      SubsequenceElements(StripAllergens(s), s, c);
    }
  }

  /** A stretch free of `)` and digits, ending at a `)`, is passed over
      unchanged: no match can start inside it. */
  lemma {:induction false} PrefixKept(t: string, o: nat)
    requires o < |t| && t[o] == ')'
    requires NoCloseIn(t, 0, o) && !DigitIn(t, 0, o)
    ensures StripAllergens(t) == t[..o + 1] + StripAllergens(t[o + 1..])
    decreases o
  {
    PrefixNoMatch(t, o);
    StripKeepsHead(t);
    if o > 0 {
      PrefixShift(t, 0, o);
      PrefixKept(t[1..], o - 1);
    }
    ConsSlice(t, o, StripAllergens(t[o + 1..]));
  }

  /** Where no match starts, the scan keeps the first character. */
  lemma StripKeepsHead(s: string)
    requires |s| > 0 && MatchLen(s).None?
    ensures StripAllergens(s) == [s[0]] + StripAllergens(s[1..])
  {
  }

  /** Dropping the first character keeps a stretch free of `)` and digits. */
  lemma PrefixShift(t: string, a: nat, o: nat)
    requires a < o < |t|
    requires NoCloseIn(t, a, o) && !DigitIn(t, a, o)
    ensures NoCloseIn(t[1..], a, o - 1) && !DigitIn(t[1..], a, o - 1)
  {
    ShiftRange(t, a + 1, o);
  }

  /** No match starts at the front of a stretch free of `)` and digits that
      ends at a `)`. */
  lemma PrefixNoMatch(t: string, o: nat)
    requires o < |t| && t[o] == ')'
    requires NoCloseIn(t, 0, o) && !DigitIn(t, 0, o)
    ensures MatchLen(t).None?
  {
    var q := LeadingSpaces(t);
    if q < |t| && t[q] == '(' {
      assert q < o;
      ClosingParenUnique(t, q + 1, o);
      assert forall j :: q + 1 <= j < o ==> !IsDigit(t[j]);
    }
  }

  lemma DigitGroupShift(c: char, t: string, i: int, r: int)
    requires 1 <= i
    ensures DigitGroup([c] + t, i, r) <==> DigitGroup(t, i - 1, r - 1)
  {
    var u := [c] + t;
    assert u[1..] == t;
    if i < r <= |t| {
      ShiftRange(u, i + 1, r);
      assert u[i] == t[i - 1];
    }
    if r < |u| && i < r {
      assert u[r] == t[r - 1];
    }
  }

  /** What the scan leaves behind holds no digit group. */
  lemma {:induction false} StripLeavesNoDigitGroup(s: string)
    ensures !ContainsDigitGroup(StripAllergens(s))
    decreases |s|
  {
    if |s| > 0 {
      match MatchLen(s)
      case Some(e) =>
        StripLeavesNoDigitGroup(s[e..]);
      case None =>
        var tail := StripAllergens(s[1..]);
        var out := [s[0]] + tail;
        StripLeavesNoDigitGroup(s[1..]);
        forall i, r | 1 <= i ensures !DigitGroup(out, i, r) {
          DigitGroupShift(s[0], tail, i, r);
        }
        forall r ensures !DigitGroup(out, 0, r) {
          FirstNotGroup(s, r);
        }
    }
  }

  /** At a kept `(`, the scan's output has no digit group starting there. */
  lemma FirstNotGroup(s: string, r: int)
    requires |s| > 0 && MatchLen(s).None?
    ensures !DigitGroup([s[0]] + StripAllergens(s[1..]), 0, r)
  {
    if s[0] == '(' {
      LeadingSpacesExact(s, 0);
      match ClosingParen(s, 1)
      case None =>
        assert ')' !in s[1..];
        UnclosedNotGroup(s[0], s[1..], r);
      case Some(c) =>
        DigitFreeNotGroup(s, c, r);
    }
  }

  /** With no `)` left after it, a kept `(` opens no group. */
  lemma UnclosedNotGroup(x: char, t: string, r: int)
    requires ')' !in t
    ensures !DigitGroup([x] + StripAllergens(t), 0, r)
  {
    StripNoNewChar(t, ')');
    ConsLacks(x, StripAllergens(t), ')');
  }

  lemma ConsLacks(x: char, tail: string, c: char)
    requires c !in tail
    ensures forall j :: 1 <= j < |[x] + tail| ==> ([x] + tail)[j] != c
  {
    assert forall j :: 1 <= j < |[x] + tail| ==> ([x] + tail)[j] == tail[j - 1];
  }

  /** A kept `(` whose first `)` encloses no digit opens no digit group. */
  lemma DigitFreeNotGroup(s: string, c: nat, r: int)
    requires 1 <= c < |s| && s[0] == '(' && s[c] == ')'
    requires NoCloseIn(s, 1, c) && !DigitIn(s, 1, c)
    ensures !DigitGroup([s[0]] + StripAllergens(s[1..]), 0, r)
  {
    var out := [s[0]] + StripAllergens(s[1..]);
    KeepsFirstGroup(s, c);
    assert out[..c + 1] == s[..c + 1];
    NoClosePrefix(out, c + 1, 1, c);
    NoClosePrefix(s, c + 1, 1, c);
    DigitPrefix(out, c + 1, 1, c);
    DigitPrefix(s, c + 1, 1, c);
    assert out[c] == s[..c + 1][c];
    ClosedNotGroup(out, c, r);
  }

  /** The scan keeps a leading `(` together with everything up to the first
      `)` after it when no digit lies in between. */
  lemma KeepsFirstGroup(s: string, c: nat)
    requires 1 <= c < |s| && s[0] == '(' && s[c] == ')'
    requires NoCloseIn(s, 1, c) && !DigitIn(s, 1, c)
    ensures [s[0]] + StripAllergens(s[1..]) == s[..c + 1] + StripAllergens(s[c + 1..])
  {
    var t := s[1..];
    PrefixShift(s, 0, c);
    assert t[c - 1] == s[c];
    PrefixKept(t, c - 1);
    ConsSlice(s, c, StripAllergens(t[c..]));
  }

  /** Dropping the first character moves a range one index down. */
  lemma ShiftRange(s: string, a: int, b: int)
    requires 1 <= a <= b <= |s|
    ensures NoCloseIn(s[1..], a - 1, b - 1) <==> NoCloseIn(s, a, b)
    ensures DigitIn(s[1..], a - 1, b - 1) <==> DigitIn(s, a, b)
  {
    var t := s[1..];
    assert forall j :: a <= j < b ==> t[j - 1] == s[j];
    if DigitIn(s, a, b) {
      var j :| a <= j < b && 0 <= j < |s| && IsDigit(s[j]);
      assert IsDigit(t[j - 1]);
    }
    if DigitIn(t, a - 1, b - 1) {
      var j :| a - 1 <= j < b - 1 && 0 <= j < |t| && IsDigit(t[j]);
      assert IsDigit(s[j + 1]);
    }
  }

  /** A `(` at index 0 whose first `)` encloses no digit is no digit group,
      whichever `)` is tried. */
  lemma ClosedNotGroup(out: string, c: nat, r: int)
    requires c < |out| && out[c] == ')'
    requires NoCloseIn(out, 1, c) && !DigitIn(out, 1, c)
    ensures !DigitGroup(out, 0, r)
  {
  }

  /** A string without digit groups passes the scan unchanged. */
  lemma {:induction false} StripIdentity(s: string)
    requires !ContainsDigitGroup(s)
    ensures StripAllergens(s) == s
    decreases |s|
  {
    if |s| > 0 {
      if MatchLen(s).Some? {
        MatchGivesGroup(s);
      }
      assert s == [s[0]] + s[1..];
      forall i, r | 0 <= i ensures !DigitGroup(s[1..], i, r) {
        DigitGroupShift(s[0], s[1..], i + 1, r + 1);
      }
      StripIdentity(s[1..]);
    }
  }

  /** The scan changes a string exactly when the string holds a digit group. */
  lemma StripFixpoint(s: string)
    ensures StripAllergens(s) == s <==> !ContainsDigitGroup(s)
  {
    StripLeavesNoDigitGroup(s);
    if !ContainsDigitGroup(s) {
      StripIdentity(s);
    }
  }

  /** Scanning twice removes nothing more than scanning once. */
  lemma StripIdempotent(s: string)
    ensures StripAllergens(StripAllergens(s)) == StripAllergens(s)
  {
    StripLeavesNoDigitGroup(s);
    StripIdentity(StripAllergens(s));
  }

  /** A parenthesised group without a digit, such as `(가)`, is kept as is. */
  lemma KeepsDigitFreeGroup(g: string, b: string)
    requires ')' !in g && !DigitIn(g, 0, |g|)
    ensures StripAllergens("(" + g + ")" + b) == "(" + g + ")" + StripAllergens(b)
  {
    var t := "(" + g + ")" + b;
    var o := |g| + 1;
    assert forall j :: 1 <= j < o ==> t[j] == g[j - 1];
    assert t[o] == ')';
    PrefixKept(t, o);
    assert t[..o + 1] == "(" + g + ")";
    assert t[o + 1..] == b;
  }

  /** A digit group at the scan position goes, together with the whitespace
      in front of it. */
  lemma RemovesLeadingGroup(w: string, g: string, b: string)
    requires AllSpace(w)
    requires ')' !in g && DigitIn(g, 0, |g|)
    ensures StripAllergens(w + "(" + g + ")" + b) == StripAllergens(b)
  {
    var m := w + "(" + g + ")";
    var s := m + b;
    GroupPattern(w, g);
    assert s[..|m|] == m;
    MatchLenComplete(s, |m|);
    StripDropsMatch(s);
    assert s[|m|..] == b;
  }

  /** Whitespace, then a parenthesised body with a digit and no `)`: the
      whole matches the pattern. */
  lemma GroupPattern(w: string, g: string)
    requires AllSpace(w)
    requires ')' !in g && DigitIn(g, 0, |g|)
    ensures PatternAt(w + "(" + g + ")", |w|)
  {
    var m := w + "(" + g + ")";
    assert forall k :: 0 <= k < |w| ==> m[k] == w[k];
    assert forall j :: |w| + 1 <= j < |m| - 1 ==> m[j] == g[j - |w| - 1];
    var j :| 0 <= j < |g| && IsDigit(g[j]);
    assert m[|w| + 1 + j] == g[j];
  }

  /** Where a match starts, the scan deletes it and resumes after it. */
  lemma StripDropsMatch(s: string)
    requires MatchLen(s).Some?
    ensures StripAllergens(s) == StripAllergens(s[MatchLen(s).value..])
  {
  }

  /** A stretch without `(` that does not end in whitespace is kept whole. */
  lemma {:induction false} StripPlainPrefix(a: string, b: string)
    requires '(' !in a
    requires a == [] || !IsSpace(a[|a| - 1])
    ensures StripAllergens(a + b) == a + StripAllergens(b)
    decreases |a|
  {
    if |a| == 0 {
      assert a + b == b;
    } else {
      PlainPrefixNoMatch(a, b);
      var a' := a[1..];
      assert a' == [] || a'[|a'| - 1] == a[|a| - 1];
      StripPlainPrefix(a', b);
      KeptFirst(a, b);
    }
  }

  /** One kept character in front of a stretch the scan passes over. */
  lemma KeptFirst(a: string, b: string)
    requires |a| > 0 && MatchLen(a + b).None?
    requires StripAllergens(a[1..] + b) == a[1..] + StripAllergens(b)
    ensures StripAllergens(a + b) == a + StripAllergens(b)
  {
    var x, a', sb := a[0], a[1..], StripAllergens(b);
    assert [x] + a' == a;
    ConsAssoc(x, a', b);
    StripKeepsFirst(x, a' + b);
    ConsAssoc(x, a', sb);
  }

  /** Where no match starts, the scan keeps the first character. */
  lemma StripKeepsFirst(x: char, t: string)
    requires MatchLen([x] + t).None?
    ensures StripAllergens([x] + t) == [x] + StripAllergens(t)
  {
    var s := [x] + t;
    assert s[1..] == t;
  }

  /** No match starts at the front of such a stretch. */
  lemma PlainPrefixNoMatch(a: string, b: string)
    requires |a| > 0 && '(' !in a && !IsSpace(a[|a| - 1])
    ensures MatchLen(a + b).None?
  {
    var s := a + b;
    var q := LeadingSpaces(s);
    assert s[|a| - 1] == a[|a| - 1];
    assert q < |a|;
    assert s[q] == a[q];
  }
}
