/**
 The string operations the search script relies on: `toLowerCase`, `trim`,
 `includes` and `substring(0, n)`, on strings modelled as sequences of
 Unicode scalar values.
 */
module Text {

  /** The characters `String.prototype.trim` removes: ECMAScript WhiteSpace
      (TAB, VT, FF, SP, NBSP, ZWNBSP and the Zs category) and LineTerminator
      (LF, CR, LS, PS). */
  predicate IsSpace(c: char) {
    || c == '\t' || c == '\U{000B}' || c == '\U{000C}' || c == ' '
    || c == '\U{00A0}' || c == '\U{FEFF}' || c == '\U{1680}'
    || ('\U{2000}' <= c <= '\U{200A}')
    || c == '\U{202F}' || c == '\U{205F}' || c == '\U{3000}'
    || c == '\n' || c == '\r' || c == '\U{2028}' || c == '\U{2029}'
  }

  predicate IsUpper(c: char) {
    'A' <= c <= 'Z'
  }

  /** ASCII lower-casing of one character; every other character is kept. */
  function LowerChar(c: char): (d: char)
    ensures IsUpper(c) ==> d as int == c as int + 32
    ensures !IsUpper(c) ==> d == c
    ensures !IsUpper(d)
  {
    if IsUpper(c) then (c as int - 'A' as int + 'a' as int) as char else c
  }

  /** `s.toLowerCase()`, restricted to ASCII letters. */
  function ToLower(s: string): (r: string)
    ensures |r| == |s|
    ensures forall i {:trigger r[i]} :: 0 <= i < |s| ==> r[i] == LowerChar(s[i])
  {
    if s == [] then [] else [LowerChar(s[0])] + ToLower(s[1..])
  }

  /** Two strings that differ only in the case of their letters. */
  predicate SameUpToCase(a: string, b: string) {
    ToLower(a) == ToLower(b)
  }

  /** Lower-casing a second time changes nothing. */
  lemma ToLowerIdempotent(s: string)
    ensures ToLower(ToLower(s)) == ToLower(s)
  {
  }

  /** A character is removed by `trim` exactly when its lower-case form is. */
  lemma SpaceIgnoresCase(c: char)
    ensures IsSpace(LowerChar(c)) <==> IsSpace(c)
  {
  }

  /** The first index at or after `i` that does not hold white space (or
      the end of `s`): where `trim` starts its result. */
  function SkipLeading(s: string, i: nat): (j: nat)
    requires i <= |s|
    ensures i <= j <= |s|
    ensures forall m {:trigger IsSpace(s[m])} :: i <= m < j ==> IsSpace(s[m])
    ensures j == |s| || !IsSpace(s[j])
    decreases |s| - i
  {
    if i < |s| && IsSpace(s[i]) then SkipLeading(s, i + 1) else i
  }

  /** The end, at most `hi` and at least `lo`, of `s[lo..hi]` once its
      trailing white space is removed: where `trim` ends its result. */
  function SkipTrailing(s: string, lo: nat, hi: nat): (j: nat)
    requires lo <= hi <= |s|
    ensures lo <= j <= hi
    ensures forall m {:trigger IsSpace(s[m])} :: j <= m < hi ==> IsSpace(s[m])
    ensures j == lo || !IsSpace(s[j - 1])
    decreases hi
  {
    if lo < hi && IsSpace(s[hi - 1]) then SkipTrailing(s, lo, hi - 1) else hi
  }

  /** `r` is the slice of `s` at `k` and everything around it is white space. */
  predicate TrimmedAt(s: string, r: string, k: int) {
    && OccursAt(s, r, k)
    && (forall i {:trigger IsSpace(s[i])} :: 0 <= i < k ==> IsSpace(s[i]))
    && (forall i {:trigger IsSpace(s[i])} :: k + |r| <= i < |s| ==> IsSpace(s[i]))
  }

  /** `s.trim()`: the slice of `s` left once white space is removed from both
      ends; it neither starts nor ends with white space. */
  function Trim(s: string): (r: string)
    ensures exists k :: TrimmedAt(s, r, k)
    ensures r == [] || (!IsSpace(r[0]) && !IsSpace(r[|r| - 1]))
  {
    var lo := SkipLeading(s, 0);
    var hi := SkipTrailing(s, lo, |s|);
    assert TrimmedAt(s, s[lo..hi], lo);
    s[lo..hi]
  }

  /** In a string that is only white space nothing is left after `i`. */
  lemma {:induction false} SkipLeadingAllSpace(s: string, i: nat)
    requires i <= |s|
    requires forall m :: 0 <= m < |s| ==> IsSpace(s[m])
    ensures SkipLeading(s, i) == |s|
    decreases |s| - i
  {
    if i < |s| {
      SkipLeadingAllSpace(s, i + 1);
    }
  }

  /** A string that is only white space trims to the empty string. */
  lemma TrimAllSpace(s: string)
    requires forall i :: 0 <= i < |s| ==> IsSpace(s[i])
    ensures Trim(s) == []
  {
    SkipLeadingAllSpace(s, 0);
  }

  /** Lower-casing does not move the start of the trimmed slice. */
  lemma {:induction false} SkipLeadingLower(s: string, i: nat)
    requires i <= |s|
    ensures SkipLeading(ToLower(s), i) == SkipLeading(s, i)
    decreases |s| - i
  {
    if i < |s| {
      SpaceIgnoresCase(s[i]);
      SkipLeadingLower(s, i + 1);
    }
  }

  /** Lower-casing does not move the end of the trimmed slice. */
  lemma {:induction false} SkipTrailingLower(s: string, lo: nat, hi: nat)
    requires lo <= hi <= |s|
    ensures SkipTrailing(ToLower(s), lo, hi) == SkipTrailing(s, lo, hi)
    decreases hi
  {
    if lo < hi {
      SpaceIgnoresCase(s[hi - 1]);
      SkipTrailingLower(s, lo, hi - 1);
    }
  }

  /** Trimming and lower-casing commute, since no letter is white space. */
  lemma TrimLower(s: string)
    ensures Trim(ToLower(s)) == ToLower(Trim(s))
  {
    var lo := SkipLeading(s, 0);
    SkipLeadingLower(s, 0);
    SkipTrailingLower(s, lo, |s|);
    LowerSlice(s, lo, SkipTrailing(s, lo, |s|));
  }

  /** Lower-casing a slice is slicing the lower-cased string. */
  lemma LowerSlice(s: string, lo: nat, hi: nat)
    requires lo <= hi <= |s|
    ensures ToLower(s)[lo..hi] == ToLower(s[lo..hi])
  {
    var a, b := ToLower(s)[lo..hi], ToLower(s[lo..hi]);
    forall i | 0 <= i < hi - lo ensures a[i] == b[i] {
      assert s[lo..hi][i] == s[lo + i];
    }
  }

  /** `sub` occurs in `s` starting at index `i`. */
  predicate OccursAt(s: string, sub: string, i: int) {
    0 <= i && i + |sub| <= |s| && s[i..i + |sub|] == sub
  }

  /** `s.includes(sub)`: a search from the left for an occurrence of `sub`.
      The empty string and `s` itself are always found; nothing longer than
      `s` ever is. */
  function Contains(s: string, sub: string): (r: bool)
    ensures r ==> |sub| <= |s|
    ensures sub == [] ==> r
    ensures sub == s ==> r
    decreases |s|
  {
    |sub| <= |s| && (s[..|sub|] == sub || (|sub| < |s| && Contains(s[1..], sub)))
  }

  /** The search finds an occurrence exactly when there is one. */
  lemma {:induction false} ContainsIff(s: string, sub: string)
    ensures Contains(s, sub) <==> exists i :: OccursAt(s, sub, i)
    decreases |s|
  {
    if |sub| <= |s| && s[..|sub|] == sub {
      assert OccursAt(s, sub, 0);
    } else if |sub| < |s| {
      ContainsIff(s[1..], sub);
      forall i | OccursAt(s, sub, i) ensures i > 0 && OccursAt(s[1..], sub, i - 1) {
        assert s[1..][i - 1..i - 1 + |sub|] == s[i..i + |sub|];
      }
      if Contains(s[1..], sub) {
        var i :| OccursAt(s[1..], sub, i);
        assert s[1..][i..i + |sub|] == s[i + 1..i + 1 + |sub|];
        assert OccursAt(s, sub, i + 1);
      }
    }
  }

  /** Lower-casing both sides keeps an occurrence: a field that contains the
      query in any mixture of cases contains the lower-cased query once the
      field is lower-cased too. */
  lemma ContainsLower(s: string, sub: string)
    requires Contains(s, sub)
    ensures Contains(ToLower(s), ToLower(sub))
  {
    ContainsIff(s, sub);
    var i :| OccursAt(s, sub, i);
    var ls, lsub := ToLower(s), ToLower(sub);
    assert ls[i..i + |sub|] == lsub;
    assert OccursAt(ls, lsub, i);
    ContainsIff(ls, lsub);
  }
}
