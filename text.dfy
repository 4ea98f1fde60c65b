/**
 * Plain substring search and replacement over strings, as Rust's `str::find`,
 * `str::contains` and `str::replace` perform them: literal, case-sensitive,
 * leftmost first.
 */
module Text {
  import opened Wrappers

  /** `p` occurs in `s` starting at index `i`. */
  predicate OccursAt(s: string, p: string, i: nat) {
    i + |p| <= |s| && s[i..i + |p|] == p
  }

  /** `p` occurs somewhere in `s` (Rust's `s.contains(p)`). */
  ghost predicate Contains(s: string, p: string) {
    exists i: nat :: OccursAt(s, p, i)
  }

  lemma SliceOfSlice(s: string, lo: nat, hi: nat, a: nat, b: nat)
    requires lo <= hi <= |s| && a <= b <= hi - lo
    ensures s[lo..hi][a..b] == s[lo + a..lo + b]
  {
    assert |s[lo..hi][a..b]| == |s[lo + a..lo + b]|;
    forall k | 0 <= k < b - a ensures s[lo..hi][a..b][k] == s[lo + a..lo + b][k] {
    }
  }

  lemma OccursAtHead(s: string, p: string, i: nat)
    requires p != [] && OccursAt(s, p, i)
    ensures s[i] == p[0]
  {
    assert s[i..i + |p|][0] == s[i];
  }

  lemma OccursAtTail(s: string, p: string, i: nat)
    requires s != []
    ensures OccursAt(s, p, i + 1) <==> OccursAt(s[1..], p, i)
  {
    if i + 1 + |p| <= |s| {
      assert s[1..][i..i + |p|] == s[i + 1..i + 1 + |p|];
    }
  }

  /** An occurrence inside a slice of `s` is an occurrence in `s`, shifted. */
  lemma OccursInSlice(s: string, p: string, lo: nat, hi: nat, i: nat)
    requires lo <= hi <= |s|
    ensures OccursAt(s[lo..hi], p, i) ==> OccursAt(s, p, lo + i)
  {
    if OccursAt(s[lo..hi], p, i) {
      SliceOfSlice(s, lo, hi, i, i + |p|);
    }
  }

  /** An occurrence in a suffix of `s` is an occurrence in `s`, shifted. */
  lemma OccursInSuffix(s: string, p: string, lo: nat, i: nat)
    requires lo <= |s|
    ensures OccursAt(s[lo..], p, i) ==> OccursAt(s, p, lo + i)
  {
    if OccursAt(s[lo..], p, i) {
      assert s[lo..][i..i + |p|] == s[lo + i..lo + i + |p|];
    }
  }

  /** An occurrence in `s` at or after `lo` is an occurrence in the suffix from `lo`. */
  lemma OccursIntoSuffix(s: string, p: string, lo: nat, i: nat)
    requires lo <= i
    ensures OccursAt(s, p, i) ==> OccursAt(s[lo..], p, i - lo)
  {
    if OccursAt(s, p, i) {
      assert s[lo..][i - lo..i - lo + |p|] == s[i..i + |p|];
    }
  }

  /** An occurrence in `s` that lies inside `[lo, hi)` is an occurrence in the slice. */
  lemma OccursIntoSlice(s: string, p: string, lo: nat, hi: nat, i: nat)
    requires lo <= i && i + |p| <= hi <= |s|
    ensures OccursAt(s, p, i) ==> OccursAt(s[lo..hi], p, i - lo)
  {
    SliceOfSlice(s, lo, hi, i - lo, i - lo + |p|);
  }

  /**
   * Index of the first occurrence of `p` in `s` (Rust's `s.find(p)`).
   * The result is the least index at which `p` occurs, and None exactly when
   * `p` occurs nowhere.
   */
  function Find(s: string, p: string): (r: Option<nat>)
    ensures r.Some? ==> OccursAt(s, p, r.value)
    ensures r.Some? ==> forall j: nat :: j < r.value ==> !OccursAt(s, p, j)
    ensures r.None? ==> forall j: nat :: !OccursAt(s, p, j)
    ensures r.Some? <==> Contains(s, p)
    decreases |s|
  {
    if |s| < |p| then None
    else if s[..|p|] == p then Some(0)
    else
      match Find(s[1..], p)
      case None =>
        assert forall j: nat :: !OccursAt(s, p, j) by {
          forall j: nat ensures !OccursAt(s, p, j) {
            if j > 0 { OccursAtTail(s, p, j - 1); }
          }
        }
        None
      case Some(k) =>
        OccursAtTail(s, p, k);
        assert forall j: nat :: j < k + 1 ==> !OccursAt(s, p, j) by {
          forall j: nat | j < k + 1 ensures !OccursAt(s, p, j) {
            if j > 0 { OccursAtTail(s, p, j - 1); }
          }
        }
        Some(k + 1)
  }

  /** The first occurrence is the only index satisfying the two Find conditions. */
  lemma FindIsFirst(s: string, p: string, i: nat)
    requires OccursAt(s, p, i)
    requires forall j: nat :: j < i ==> !OccursAt(s, p, j)
    ensures Find(s, p) == Some(i)
  {
  }

  lemma ContainsInfix(a: string, b: string, c: string)
    ensures Contains(a + b + c, b)
  {
    assert (a + b + c)[|a|..|a| + |b|] == b;
    assert OccursAt(a + b + c, b, |a|);
  }

  /** Containment is transitive: a string holding `t` holds everything `t` holds. */
  lemma ContainsTransitive(s: string, t: string, u: string)
    requires Contains(s, t) && Contains(t, u)
    ensures Contains(s, u)
  {
    var i: nat :| OccursAt(s, t, i);
    var j: nat :| OccursAt(t, u, j);
    SliceOfSlice(s, i, i + |t|, j, j + |u|);
    assert OccursAt(s, u, i + j);
  }

  /**
   * Rust's `s.replace(pat, rep)`: scanning left to right, every non-overlapping
   * occurrence of `pat` is replaced by `rep`. An empty `pat` matches at every
   * character boundary, so `rep` is put before each character and at the end.
   */
  function ReplaceAll(s: string, pat: string, rep: string): string
    decreases |s|
  {
    if pat == [] then
      if s == [] then rep else rep + [s[0]] + ReplaceAll(s[1..], pat, rep)
    else if |s| < |pat| then s
    else if s[..|pat|] == pat then rep + ReplaceAll(s[|pat|..], pat, rep)
    else [s[0]] + ReplaceAll(s[1..], pat, rep)
  }

  /** Text holding no occurrence of the pattern comes back unchanged. */
  lemma {:induction false} ReplaceAllAbsent(s: string, pat: string, rep: string)
    requires pat != []
    requires !Contains(s, pat)
    ensures ReplaceAll(s, pat, rep) == s
    decreases |s|
  {
    if |s| >= |pat| {
      assert !OccursAt(s, pat, 0);
      assert !Contains(s[1..], pat) by {
        forall j: nat ensures !OccursAt(s[1..], pat, j) {
          OccursAtTail(s, pat, j);
        }
      }
      ReplaceAllAbsent(s[1..], pat, rep);
    }
  }

  /** A text that starts with the pattern has that occurrence replaced first. */
  lemma ReplaceAllMatch(s: string, pat: string, rep: string)
    requires pat != [] && |pat| <= |s| && s[..|pat|] == pat
    ensures ReplaceAll(s, pat, rep) == rep + ReplaceAll(s[|pat|..], pat, rep)
  {
  }

  /** A text that does not start with the pattern keeps its first character. */
  lemma ReplaceAllSkip(s: string, pat: string, rep: string)
    requires pat != [] && |pat| <= |s| && s[..|pat|] != pat
    ensures ReplaceAll(s, pat, rep) == [s[0]] + ReplaceAll(s[1..], pat, rep)
  {
  }

  lemma ContainsPrefix(b: string, c: string)
    ensures Contains(b + c, b)
  {
    assert (b + c)[0..|b|] == b;
    assert OccursAt(b + c, b, 0);
  }

  lemma ContainsSuffix(b: string, c: string)
    ensures Contains(b + c, c)
  {
    assert (b + c)[|b|..|b| + |c|] == c;
    assert OccursAt(b + c, c, |b|);
  }

  lemma ContainsPastHead(x: char, t: string, u: string)
    requires Contains(t, u)
    ensures Contains([x] + t, u)
  {
    var j: nat :| OccursAt(t, u, j);
    assert ([x] + t)[1..] == t;
    OccursAtTail([x] + t, u, j);
  }

  /** Whenever the pattern occurs, the replacement text appears in the result. */
  lemma {:induction false} ReplaceAllInserts(s: string, pat: string, rep: string)
    requires pat != []
    requires Contains(s, pat)
    ensures Contains(ReplaceAll(s, pat, rep), rep)
    decreases |s|
  {
    var i: nat :| OccursAt(s, pat, i);
    if s[..|pat|] == pat {
      ReplaceAllMatch(s, pat, rep);
      ContainsPrefix(rep, ReplaceAll(s[|pat|..], pat, rep));
    } else {
      assert i != 0;
      OccursAtTail(s, pat, i - 1);
      ReplaceAllInserts(s[1..], pat, rep);
      ReplaceAllSkip(s, pat, rep);
      ContainsPastHead(s[0], ReplaceAll(s[1..], pat, rep), rep);
    }
  }
}
