/**
 * The JavaScript string operations the widget relies on, over `seq<char>`.
 * A character stands for one UTF-16 code unit; surrogate pairs are not modelled.
 */
module Strings {
  import opened Wrappers

  /** An ASCII digit, which is what `/\d/` and `[0-9]` match. */
  predicate IsDigit(c: char) {
    '0' <= c <= '9'
  }

  predicate IsUpper(c: char) {
    'A' <= c <= 'Z'
  }

  /** `toLowerCase` on one character, for the ASCII range. */
  function LowerChar(c: char): (d: char)
    ensures !IsUpper(d)
    ensures c == d || (IsUpper(c) && d as int == c as int + 32)
  {
    if IsUpper(c) then (c as int + 32) as char else c
  }

  /** `String.prototype.toLowerCase`, for the ASCII range. */
  function Lower(s: string): (r: string)
    ensures |r| == |s|
    ensures forall i :: 0 <= i < |s| ==> r[i] == LowerChar(s[i])
  {
    seq(|s|, i requires 0 <= i < |s| => LowerChar(s[i]))
  }

  predicate IsLowerLetter(c: char) {
    'a' <= c <= 'z'
  }

  /** `toUpperCase` on one character, for the ASCII range. */
  function UpperChar(c: char): (d: char)
    ensures !IsLowerLetter(d)
    ensures c == d || (IsLowerLetter(c) && d as int == c as int - 32)
  {
    if IsLowerLetter(c) then (c as int - 32) as char else c
  }

  /** `String.prototype.toUpperCase`, for the ASCII range. */
  function Upper(s: string): (r: string)
    ensures |r| == |s|
    ensures forall i :: 0 <= i < |s| ==> r[i] == UpperChar(s[i])
  {
    seq(|s|, i requires 0 <= i < |s| => UpperChar(s[i]))
  }

  lemma LowerIdempotent(s: string)
    ensures Lower(Lower(s)) == Lower(s)
  {
  }


  /** `pat` occurs in `s` starting at index `i`. */
  predicate OccursAt(s: string, pat: string, i: nat) {
    i + |pat| <= |s| && s[i..i + |pat|] == pat
  }

  /** The first index at or after `from` where `pat` occurs, like `indexOf(pat, from)`. */
  function IndexOfFrom(s: string, pat: string, from: nat): (r: Option<nat>)
    ensures r.Some? ==> from <= r.value && OccursAt(s, pat, r.value)
    ensures forall j :: from <= j && (r.None? || j < r.value) ==> !OccursAt(s, pat, j)
    decreases |s| - from
  {
    if from + |pat| > |s| then None
    else if OccursAt(s, pat, from) then Some(from)
    else IndexOfFrom(s, pat, from + 1)
  }

  function IndexOf(s: string, pat: string): Option<nat> {
    IndexOfFrom(s, pat, 0)
  }

  /** An occurrence with none ahead of it is the one `indexOf` finds. */
  lemma IndexOfFirstOccurrence(s: string, pat: string, k: nat)
    requires OccursAt(s, pat, k)
    requires forall j: nat :: j < k ==> !OccursAt(s, pat, j)
    ensures IndexOf(s, pat) == Some(k)
  {
  }

  /** For a one-character pattern, `indexOf` finds the first occurrence of that character. */
  lemma IndexOfChar(s: string, c: char)
    ensures c !in s ==> IndexOf(s, [c]) == None
    ensures c in s ==> IndexOf(s, [c]) == Some(FirstIndex(s, c))
  {
    forall j: nat | j + 1 <= |s| ensures OccursAt(s, [c], j) <==> s[j] == c {
      assert s[j..j + 1][0] == s[j];
      if s[j] == c {
        assert s[j..j + 1] == [c];
      }
    }
    if c in s {
      var k := FirstIndex(s, c);
      forall j: nat | j < k ensures !OccursAt(s, [c], j) {
        assert s[..k][j] == s[j];
      }
      IndexOfFirstOccurrence(s, [c], k);
    }
  }

  /**
   * `s.replace(pat, rep)` with a string pattern: the first occurrence, if any,
   * is replaced and the text on either side of it is kept.
   */
  function ReplaceFirst(s: string, pat: string, rep: string): (r: string)
    ensures IndexOf(s, pat).None? ==> r == s
    ensures IndexOf(s, pat).Some? ==>
      var k := IndexOf(s, pat).value;
      |r| == |s| - |pat| + |rep| && r[..k] == s[..k] && r[k..k + |rep|] == rep && r[k + |rep|..] == s[k + |pat|..]
  {
    match IndexOf(s, pat)
    case None => s
    case Some(k) => s[..k] + rep + s[k + |pat|..]
  }

  /** A character outside the pattern survives the replacement. */
  lemma ReplaceFirstKeeps(s: string, pat: string, rep: string, c: char)
    requires c in s && c !in pat
    ensures c in ReplaceFirst(s, pat, rep)
  {
    match IndexOf(s, pat)
    case None =>
    case Some(k) =>
      var r := ReplaceFirst(s, pat, rep);
      var i :| 0 <= i < |s| && s[i] == c;
      if i < k {
        assert r[..k][i] == c;
      } else if i >= k + |pat| {
        assert s[k + |pat|..][i - k - |pat|] == c;
        assert r[k + |rep|..][i - k - |pat|] == c;
      } else {
        assert false;
      }
  }

  lemma ReplaceFirstChars(s: string, pat: string, rep: string, c: char)
    requires c in ReplaceFirst(s, pat, rep)
    ensures c in s || c in rep
  {
    var r := ReplaceFirst(s, pat, rep);
    if IndexOf(s, pat).Some? {
      var k := IndexOf(s, pat).value;
      var i :| 0 <= i < |r| && r[i] == c;
      if i < k {
        assert r[..k][i] == s[..k][i] == s[i];
      } else if i >= k + |rep| {
        var t := i - k - |rep|;
        assert r[k + |rep|..][t] == s[k + |pat|..][t] == s[k + |pat| + t];
      } else {
        assert r[k..k + |rep|][i - k] == rep[i - k];
      }
    }
  }


  /** The characters of `s` that `keep` accepts, in order (a global regex replace by ""). */
  function Filter(s: string, keep: char -> bool): (r: string)
    ensures |r| <= |s|
    ensures forall i :: 0 <= i < |r| ==> keep(r[i])
    ensures forall c :: c in r ==> c in s
    ensures forall c :: c in s && keep(c) ==> c in r
  {
    if s == [] then []
    else (if keep(s[0]) then [s[0]] else []) + Filter(s[1..], keep)
  }

  lemma {:induction false} FilterConcat(a: string, b: string, keep: char -> bool)
    ensures Filter(a + b, keep) == Filter(a, keep) + Filter(b, keep)
  {
    if a == [] {
      assert a + b == b;
    } else {
      assert (a + b)[0] == a[0];
      assert (a + b)[1..] == a[1..] + b;
      FilterConcat(a[1..], b, keep);
    }
  }

  lemma {:induction false} FilterKeepsAll(s: string, keep: char -> bool)
    requires forall i :: 0 <= i < |s| ==> keep(s[i])
    ensures Filter(s, keep) == s
  {
    if s != [] {
      FilterKeepsAll(s[1..], keep);
    }
  }

  lemma {:induction false} FilterDropsAll(s: string, keep: char -> bool)
    requires forall i :: 0 <= i < |s| ==> !keep(s[i])
    ensures Filter(s, keep) == []
  {
    if s != [] {
      FilterDropsAll(s[1..], keep);
    }
  }

  /** Every occurrence of `c` removed (`replace(/c/g, "")`). */
  function RemoveAll(s: string, c: char): (r: string)
    ensures c !in r
    ensures forall x :: x in r ==> x in s
    ensures forall x :: x in s && x != c ==> x in r
  {
    if s == [] then []
    else (if s[0] == c then [] else [s[0]]) + RemoveAll(s[1..], c)
  }

  lemma {:induction false} RemoveAllConcat(a: string, b: string, c: char)
    ensures RemoveAll(a + b, c) == RemoveAll(a, c) + RemoveAll(b, c)
  {
    if a == [] {
      assert a + b == b;
    } else {
      var head := if a[0] == c then [] else [a[0]];
      assert (a + b)[0] == a[0];
      assert (a + b)[1..] == a[1..] + b;
      assert RemoveAll(a + b, c) == head + RemoveAll(a[1..] + b, c);
      assert RemoveAll(a, c) == head + RemoveAll(a[1..], c);
      RemoveAllConcat(a[1..], b, c);
    }
  }


  lemma {:induction false} RemoveAllAbsent(s: string, c: char)
    requires c !in s
    ensures RemoveAll(s, c) == s
  {
    if s != [] {
      RemoveAllAbsent(s[1..], c);
    }
  }

  predicate AtMostOne(s: string, c: char) {
    forall i, j :: 0 <= i < |s| && 0 <= j < |s| && s[i] == c && s[j] == c ==> i == j
  }

  /** The index of the first `c` in `s`. */
  function FirstIndex(s: string, c: char): (k: nat)
    requires c in s
    ensures k < |s| && s[k] == c && c !in s[..k]
  {
    if s[0] == c then 0
    else
      var k' := FirstIndex(s[1..], c);
      assert s[..k' + 1] == [s[0]] + s[1..][..k'];
      k' + 1
  }

  lemma FirstIndexOfJoin(a: string, c: char, b: string)
    requires c !in a
    ensures c in a + [c] + b && FirstIndex(a + [c] + b, c) == |a|
  {
    var s := a + [c] + b;
    assert s[|a|] == c;
    assert s[..|a|] == a;
  }

  /** The text before the first `c`, or all of `s` when `c` does not occur (`s.split(c)[0]`). */
  function Before(s: string, c: char): (r: string)
    ensures c !in r
    ensures |r| <= |s| && r == s[..|r|]
  {
    if c in s then s[..FirstIndex(s, c)] else s
  }

  /** `Before` is the prefix up to any occurrence of `c` that has no `c` ahead of it. */
  lemma BeforeAt(s: string, c: char, k: nat)
    requires k < |s| && s[k] == c && c !in s[..k]
    ensures Before(s, c) == s[..k]
  {
    var f := FirstIndex(s, c);
    assert forall j :: 0 <= j < k ==> s[..k][j] == s[j];
    assert forall j :: 0 <= j < f ==> s[..f][j] == s[j];
  }

  /** Lower-casing maps the ASCII range character by character, so it keeps the first `-`. */
  lemma LowerBefore(s: string)
    ensures Before(Lower(s), '-') == Lower(Before(s, '-'))
  {
    if '-' in s {
      var k := FirstIndex(s, '-');
      assert Lower(s)[..k] == Lower(s[..k]);
      BeforeAt(Lower(s), '-', k);
    } else {
      assert '-' !in Lower(s);
    }
  }

  /** The text after the first `c`. */
  function After(s: string, c: char): string
    requires c in s
  {
    s[FirstIndex(s, c) + 1..]
  }

  lemma BeforeAfter(s: string, c: char)
    requires c in s
    ensures s == Before(s, c) + [c] + After(s, c)
  {
  }

  lemma BeforeAfterOfJoin(a: string, c: char, b: string)
    requires c !in a
    ensures Before(a + [c] + b, c) == a && After(a + [c] + b, c) == b
  {
    FirstIndexOfJoin(a, c, b);
  }

  /** `s.split(sep)` for a one-character separator. */
  function Split(s: string, sep: char): (parts: seq<string>)
    ensures |parts| >= 1
    ensures parts[0] == Before(s, sep)
    ensures |parts| >= 2 <==> sep in s
    ensures forall i :: 0 <= i < |parts| ==> sep !in parts[i]
    decreases |s|
  {
    if sep !in s then [s]
    else [Before(s, sep)] + Split(After(s, sep), sep)
  }

  lemma SplitSecond(s: string, sep: char)
    requires sep in s
    ensures Split(s, sep)[1] == Before(After(s, sep), sep)
  {
  }

  /** `parts.join("")`. */
  function Concat(parts: seq<string>): string {
    if parts == [] then [] else parts[0] + Concat(parts[1..])
  }

  /** `parts.join(sep)`. */
  function JoinWith(parts: seq<string>, sep: char): string
    requires |parts| >= 1
  {
    if |parts| == 1 then parts[0] else parts[0] + [sep] + JoinWith(parts[1..], sep)
  }

  /** Splitting and joining with the same separator gives back the string. */
  lemma {:induction false} SplitJoin(s: string, sep: char)
    ensures JoinWith(Split(s, sep), sep) == s
    decreases |s|
  {
    if sep in s {
      SplitJoin(After(s, sep), sep);
      BeforeAfter(s, sep);
    }
  }

  /** Joining the parts of a split with "" deletes the separator. */
  lemma {:induction false} ConcatSplit(s: string, sep: char)
    ensures Concat(Split(s, sep)) == RemoveAll(s, sep)
    decreases |s|
  {
    if sep !in s {
      RemoveAllAbsent(s, sep);
    } else {
      var b, a := Before(s, sep), After(s, sep);
      var parts := Split(s, sep);
      assert parts == [b] + Split(a, sep);
      assert parts[1..] == Split(a, sep);
      assert Concat(parts) == b + Concat(Split(a, sep));
      ConcatSplit(a, sep);
      BeforeAfter(s, sep);
      RemoveAllSplice(b, sep, a);
    }
  }

  lemma {:induction false} RemoveAllSplice(b: string, sep: char, a: string)
    requires sep !in b
    ensures RemoveAll(b + [sep] + a, sep) == b + RemoveAll(a, sep)
    decreases |b|
  {
    if b == [] {
      assert b + [sep] + a == [sep] + a;
      assert ([sep] + a)[1..] == a;
    } else {
      assert (b + [sep] + a)[1..] == b[1..] + [sep] + a;
      RemoveAllSplice(b[1..], sep, a);
    }
  }


  /**
   * `a <= b` on JavaScript strings: lexicographic by code unit, a proper
   * prefix ordering before the longer string.
   */
  function LexLe(a: string, b: string): bool {
    if a == [] then true
    else if b == [] then false
    else a[0] < b[0] || (a[0] == b[0] && LexLe(a[1..], b[1..]))
  }
}
