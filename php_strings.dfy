/**
 * The PHP string builtins the page relies on: `explode` (split a string on a
 * non-empty separator), `implode` (its inverse) and `substr_count` (the number
 * of non-overlapping occurrences, scanned left to right).
 */
module PhpStrings {
  import opened Wrappers

  /** `d` occurs in `s` starting at index `i`. */
  predicate OccursAt(s: string, d: string, i: nat)
  {
    i + |d| <= |s| && s[i..i + |d|] == d
  }

  /** `d` occurs nowhere in `s`. */
  ghost predicate Free(s: string, d: string)
  {
    forall i: nat :: !OccursAt(s, d, i)
  }

  /** The leftmost occurrence of `d` in `s` at or after index `from`. */
  function FindFrom(s: string, d: string, from: nat): (r: Option<nat>)
    requires |d| > 0
    ensures r.Some? ==> from <= r.value && OccursAt(s, d, r.value)
    ensures forall i: nat :: from <= i && (r.None? || i < r.value) ==> !OccursAt(s, d, i)
    decreases |s| - from
  {
    if |s| < from + |d| then None
    else if OccursAt(s, d, from) then Some(from)
    else FindFrom(s, d, from + 1)
  }

  /** An occurrence with none before it (from `from` on) is the one FindFrom returns. */
  lemma FindFromIs(s: string, d: string, from: nat, i: nat)
    requires |d| > 0 && from <= i && OccursAt(s, d, i)
    requires forall j: nat :: from <= j < i ==> !OccursAt(s, d, j)
    ensures FindFrom(s, d, from) == Some(i)
  {
  }

  /** PHP `explode(d, s)`: the pieces of `s` between the occurrences of `d`. */
  function Explode(s: string, d: string): (parts: seq<string>)
    requires |d| > 0
    ensures |parts| >= 1
    decreases |s|
  {
    match FindFrom(s, d, 0)
    case None => [s]
    case Some(i) => [s[..i]] + Explode(s[i + |d|..], d)
  }

  /** PHP `implode(d, parts)`: the parts joined with `d` between neighbours. */
  function Implode(parts: seq<string>, d: string): string
  {
    if |parts| == 0 then ""
    else if |parts| == 1 then parts[0]
    else parts[0] + d + Implode(parts[1..], d)
  }

  /** Implode splits off its last part. */
  lemma {:induction false} ImplodeSnoc(parts: seq<string>, q: string, d: string)
    requires |parts| >= 1
    ensures Implode(parts + [q], d) == Implode(parts, d) + d + q
    decreases |parts|
  {
    if |parts| > 1 {
      ImplodeSnoc(parts[1..], q, d);
      assert (parts + [q])[1..] == parts[1..] + [q];
    }
  }

  /** Non-overlapping occurrences of `d` in `s` from index `from`, scanning left to right. */
  function CountFrom(s: string, d: string, from: nat): nat
    requires |d| > 0
    decreases |s| - from
  {
    if |s| < from + |d| then 0
    else if OccursAt(s, d, from) then 1 + CountFrom(s, d, from + |d|)
    else CountFrom(s, d, from + 1)
  }

  /** PHP `substr_count(s, d)`. */
  function SubstrCount(s: string, d: string): nat
    requires |d| > 0
  {
    CountFrom(s, d, 0)
  }

  /** In `p + d`, the leftmost occurrence of `d` is the appended one. */
  ghost predicate EndsAtSeparator(p: string, d: string)
  {
    forall j: nat :: j < |p| ==> !OccursAt(p + d, d, j)
  }

  /** Parts that `Implode` joins so that `Explode` finds exactly the same parts again. */
  ghost predicate Separable(parts: seq<string>, d: string)
  {
    && |parts| >= 1
    && (forall k :: 0 <= k < |parts| - 1 ==> EndsAtSeparator(parts[k], d))
    && Free(parts[|parts| - 1], d)
  }

  /** Joining the pieces back with the separator gives the original string. */
  lemma {:induction false} ImplodeExplode(s: string, d: string)
    requires |d| > 0
    ensures Implode(Explode(s, d), d) == s
    decreases |s|
  {
    match FindFrom(s, d, 0)
    case None =>
    case Some(i) =>
      var rest := s[i + |d|..];
      var tail := Explode(rest, d);
      ImplodeExplode(rest, d);
      var parts := [s[..i]] + tail;
      assert parts[1..] == tail;
      assert Implode(parts, d) == s[..i] + d + rest;
      assert s == s[..i] + s[i..i + |d|] + rest;
  }

  /** No piece of `Explode(s, d)` contains the separator. */
  lemma {:induction false} ExplodePiecesFree(s: string, d: string)
    requires |d| > 0
    ensures forall k :: 0 <= k < |Explode(s, d)| ==> Free(Explode(s, d)[k], d)
    decreases |s|
  {
    match FindFrom(s, d, 0)
    case None =>
    case Some(i) =>
      var rest := s[i + |d|..];
      ExplodePiecesFree(rest, d);
      forall j: nat ensures !OccursAt(s[..i], d, j) {
        if OccursAt(s[..i], d, j) {
          assert s[..i][j..j + |d|] == s[j..j + |d|];
          assert OccursAt(s, d, j);
        }
      }
      assert Explode(s, d) == [s[..i]] + Explode(rest, d);
  }

  lemma {:induction false} CountFromSkip(s: string, d: string, from: nat, k: nat)
    requires |d| > 0 && from <= k
    requires forall j: nat :: from <= j < k ==> !OccursAt(s, d, j)
    ensures CountFrom(s, d, from) == CountFrom(s, d, k)
    decreases k - from
  {
    if from < k {
      CountFromSkip(s, d, from + 1, k);
      assert !OccursAt(s, d, from);
    }
  }

  lemma {:induction false} CountFromShift(s: string, d: string, m: nat, from: nat)
    requires |d| > 0 && m <= |s|
    ensures CountFrom(s, d, m + from) == CountFrom(s[m..], d, from)
    decreases |s| - from
  {
    if |s| >= m + from + |d| {
      assert s[m..][from..from + |d|] == s[m + from..m + from + |d|];
      CountFromShift(s, d, m, from + |d|);
      CountFromShift(s, d, m, from + 1);
    }
  }

  /** An occurrence at `from` is counted, and the scan resumes after it. */
  lemma CountFromAt(s: string, d: string, from: nat)
    requires |d| > 0 && OccursAt(s, d, from)
    ensures CountFrom(s, d, from) == 1 + CountFrom(s, d, from + |d|)
  {
  }

  /** No separator found: nothing to count. */
  lemma CountNotFound(s: string, d: string)
    requires |d| > 0 && FindFrom(s, d, 0) == None
    ensures SubstrCount(s, d) == 0
  {
    CountFromSkip(s, d, 0, |s|);
  }

  /** A first occurrence at `i`: one occurrence, then those after it. */
  lemma CountFirst(s: string, d: string, i: nat)
    requires |d| > 0 && OccursAt(s, d, i)
    requires forall j: nat :: j < i ==> !OccursAt(s, d, j)
    ensures SubstrCount(s, d) == 1 + SubstrCount(s[i + |d|..], d)
  {
    calc {
      SubstrCount(s, d);
      CountFrom(s, d, 0);
      { CountFromSkip(s, d, 0, i); }
      CountFrom(s, d, i);
      { CountFromAt(s, d, i); }
      1 + CountFrom(s, d, i + |d|);
      { CountFromShift(s, d, i + |d|, 0); }
      1 + CountFrom(s[i + |d|..], d, 0);
    }
  }

  /** `explode` returns one more piece than there are separator occurrences. */
  lemma {:induction false} ExplodeLength(s: string, d: string)
    requires |d| > 0
    ensures |Explode(s, d)| == SubstrCount(s, d) + 1
    decreases |s|
  {
    match FindFrom(s, d, 0)
    case None =>
      ExplodeNotFound(s, d);
      CountNotFound(s, d);
    case Some(i) =>
      ExplodeFound(s, d, i);
      CountFirst(s, d, i);
      ExplodeLength(s[i + |d|..], d);
  }

  /** In `p + d + rest`, the first separator is the one after `p` when `p` ends at a separator. */
  lemma FindAfterPart(p: string, d: string, rest: string)
    requires |d| > 0 && EndsAtSeparator(p, d)
    ensures FindFrom(p + d + rest, d, 0) == Some(|p|)
  {
    var s := p + d + rest;
    forall j: nat | j < |p| ensures !OccursAt(s, d, j) {
      assert !OccursAt(p + d, d, j);
      if j + |d| <= |p + d| {
        assert (p + d)[j..j + |d|] == s[j..j + |d|];
      }
    }
    assert s[|p|..|p| + |d|] == d;
    FindFromIs(s, d, 0, |p|);
  }

  /** The tail of separable parts is separable. */
  lemma SeparableTail(parts: seq<string>, d: string)
    requires Separable(parts, d) && |parts| > 1
    ensures Separable(parts[1..], d)
  {
    var tail := parts[1..];
    forall k | 0 <= k < |tail| - 1 ensures EndsAtSeparator(tail[k], d) {
      assert tail[k] == parts[k + 1];
    }
  }

  /** Exploding a join of separable parts gives the parts back. */
  lemma {:induction false} ExplodeImplode(parts: seq<string>, d: string)
    requires |d| > 0 && Separable(parts, d)
    ensures Explode(Implode(parts, d), d) == parts
    decreases |parts|
  {
    if |parts| == 1 {
      ExplodeNotFound(parts[0], d);
    } else {
      SeparableTail(parts, d);
      ExplodeImplode(parts[1..], d);
      ExplodeImplodeInduct(parts, d);
    }
  }

  /** The step of ExplodeImplode: from the parts after the first to all of them. */
  lemma ExplodeImplodeInduct(parts: seq<string>, d: string)
    requires |d| > 0 && Separable(parts, d) && |parts| > 1
    requires Explode(Implode(parts[1..], d), d) == parts[1..]
    ensures Explode(Implode(parts, d), d) == parts
  {
    var p, rest := parts[0], Implode(parts[1..], d);
    var s := p + d + rest;
    assert Implode(parts, d) == s;
    FindAfterPart(p, d, rest);
    ExplodeFound(s, d, |p|);
    assert s[..|p|] == p;
    assert s[|p| + |d|..] == rest;
  }

  /** Parts that share no character with the separator are separable. */
  lemma SeparableWhenDisjoint(parts: seq<string>, d: string)
    requires |d| > 0 && |parts| >= 1
    requires forall k, j :: 0 <= k < |parts| && 0 <= j < |parts[k]| ==> parts[k][j] !in d
    ensures Separable(parts, d)
  {
    forall k | 0 <= k < |parts| ensures EndsAtSeparator(parts[k], d) && Free(parts[k], d) {
      var p := parts[k];
      forall j: nat | j < |p| ensures !OccursAt(p + d, d, j) {
        assert p[j] !in d;
        assert (p + d)[j] == p[j];
      }
      forall j: nat | j + |d| <= |p| ensures !OccursAt(p, d, j) {
        assert p[j] !in d;
        assert p[j..j + |d|][0] == p[j];
      }
    }
  }

  /** A one-character separator occurs exactly where that character is. */
  lemma OccursAtChar(s: string, c: char, j: nat)
    ensures OccursAt(s, [c], j) <==> j < |s| && s[j] == c
  {
    if j < |s| {
      assert s[j..j + 1] == [s[j]];
    }
  }

  /** One step of `Explode` when the separator is found at `i`. */
  lemma ExplodeFound(s: string, d: string, i: nat)
    requires |d| > 0 && FindFrom(s, d, 0) == Some(i)
    ensures i + |d| <= |s|
    ensures Explode(s, d) == [s[..i]] + Explode(s[i + |d|..], d)
  {
  }

  /** `Explode` of a string in which the separator is not found. */
  lemma ExplodeNotFound(s: string, d: string)
    requires |d| > 0 && FindFrom(s, d, 0) == None
    ensures Explode(s, d) == [s]
  {
  }

  /** With a one-character separator, the piece count is the character count plus one. */
  lemma {:induction false} ExplodeCharLength(s: string, c: char)
    ensures |Explode(s, [c])| == multiset(s)[c] + 1
    decreases |s|
  {
    match FindFrom(s, [c], 0)
    case None =>
      ExplodeNotFound(s, [c]);
      forall j | 0 <= j < |s| ensures s[j] != c {
        OccursAtChar(s, c, j);
      }
      assert c !in s;
    case Some(i) =>
      ExplodeFound(s, [c], i);
      var rest := s[i + 1..];
      ExplodeCharLength(rest, c);
      forall j | 0 <= j < i ensures s[..i][j] != c {
        OccursAtChar(s, c, j);
      }
      OccursAtChar(s, c, i);
      assert c !in s[..i];
      assert s == s[..i] + [c] + rest;
      assert multiset(s) == multiset(s[..i]) + multiset([c]) + multiset(rest);
  }

  /** Where `a` holds no `c`, the first `c` in `a + [c] + b` is the added one. */
  lemma FindCharAfter(a: string, c: char, b: string)
    requires FindFrom(a, [c], 0) == None
    ensures FindFrom(a + [c] + b, [c], 0) == Some(|a|)
  {
    var s := a + [c] + b;
    forall j: nat | j < |a| ensures !OccursAt(s, [c], j) {
      OccursAtChar(s, c, j);
      OccursAtChar(a, c, j);
    }
    OccursAtChar(s, c, |a|);
    FindFromIs(s, [c], 0, |a|);
  }

  /** Where the first `c` in `a` is at `i`, it is also the first in `a + [c] + b`. */
  lemma FindCharWithin(a: string, c: char, b: string, i: nat)
    requires FindFrom(a, [c], 0) == Some(i)
    ensures i < |a|
    ensures FindFrom(a + [c] + b, [c], 0) == Some(i)
  {
    var s := a + [c] + b;
    forall j: nat | j < i ensures !OccursAt(s, [c], j) {
      OccursAtChar(s, c, j);
      OccursAtChar(a, c, j);
    }
    OccursAtChar(s, c, i);
    OccursAtChar(a, c, i);
    FindFromIs(s, [c], 0, i);
  }

  /** Splitting `a + [c] + b` when `a` holds no `c`: `a` is the first piece. */
  lemma ExplodeCharConcatFirst(a: string, c: char, b: string)
    requires FindFrom(a, [c], 0) == None
    ensures Explode(a + [c] + b, [c]) == [a] + Explode(b, [c])
  {
    var s := a + [c] + b;
    FindCharAfter(a, c, b);
    ExplodeFound(s, [c], |a|);
    assert s[..|a|] == a;
    assert s[|a| + 1..] == b;
  }

  /** Splitting `a + [c] + b` when `a` holds a `c` at `i`: the piece before it comes first. */
  lemma ExplodeCharConcatStep(a: string, c: char, b: string, i: nat)
    requires FindFrom(a, [c], 0) == Some(i)
    ensures i < |a|
    ensures Explode(a + [c] + b, [c]) == [a[..i]] + Explode(a[i + 1..] + [c] + b, [c])
  {
    FindCharWithin(a, c, b, i);
    ExplodeFound(a + [c] + b, [c], i);
    assert (a + [c] + b)[..i] == a[..i];
    assert (a + [c] + b)[i + 1..] == a[i + 1..] + [c] + b;
  }

  /**
   * With a one-character separator, splitting `a + [c] + b` splits `a` and `b`
   * separately: pieces are never merged or reordered.
   */
  lemma {:induction false} ExplodeCharConcat(a: string, c: char, b: string)
    ensures Explode(a + [c] + b, [c]) == Explode(a, [c]) + Explode(b, [c])
    decreases |a|
  {
    match FindFrom(a, [c], 0)
    case None =>
      ExplodeNotFound(a, [c]);
      ExplodeCharConcatFirst(a, c, b);
    case Some(i) =>
      FindCharWithin(a, c, b, i);
      ExplodeCharConcat(a[i + 1..], c, b);
      ExplodeCharConcatInduct(a, c, b, i);
  }

  /** The step of ExplodeCharConcat: from the rest of `a` after its first `c` to all of `a`. */
  lemma ExplodeCharConcatInduct(a: string, c: char, b: string, i: nat)
    requires FindFrom(a, [c], 0) == Some(i)
    requires i < |a|
    requires Explode(a[i + 1..] + [c] + b, [c]) == Explode(a[i + 1..], [c]) + Explode(b, [c])
    ensures Explode(a + [c] + b, [c]) == Explode(a, [c]) + Explode(b, [c])
  {
    ExplodeFound(a, [c], i);
    ExplodeCharConcatStep(a, c, b, i);
    var head, rest, tail := [a[..i]], Explode(a[i + 1..], [c]), Explode(b, [c]);
    calc {
      Explode(a + [c] + b, [c]);
      head + Explode(a[i + 1..] + [c] + b, [c]);
      head + (rest + tail);
      { AppendAssoc(head, rest, tail); }
      (head + rest) + tail;
      Explode(a, [c]) + tail;
    }
  }

  /** Sequence concatenation is associative. */
  lemma AppendAssoc<T>(x: seq<T>, y: seq<T>, z: seq<T>)
    ensures x + (y + z) == (x + y) + z
  {
  }
}
