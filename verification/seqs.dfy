/** Sequence and string helpers: filtering, subsequences, duplicate-freedom and substring tests. */
module Seqs {

  /** `r` is obtained from `s` by deleting elements, keeping the order of the rest. */
  predicate IsSubsequence<T(==)>(r: seq<T>, s: seq<T>)
    decreases |s|
  {
    if |r| == 0 then true
    else if |s| == 0 then false
    else if r[0] == s[0] then IsSubsequence(r[1..], s[1..])
    else IsSubsequence(r, s[1..])
  }

  /** No element occurs twice. */
  predicate Distinct<T(==)>(s: seq<T>) {
    forall i, j :: 0 <= i < j < |s| ==> s[i] != s[j]
  }

  /** The elements of `s` that satisfy `p`, in their original order (Array.prototype.filter). */
  function Filter<T(!new)>(s: seq<T>, p: T -> bool): (r: seq<T>)
    ensures |r| <= |s|
    ensures forall x :: x in r <==> x in s && p(x)
    ensures forall i :: 0 <= i < |r| ==> p(r[i])
    decreases |s|
  {
    if |s| == 0 then []
    else if p(s[0]) then [s[0]] + Filter(s[1..], p)
    else Filter(s[1..], p)
  }

  /** Applies `f` to every element, keeping the order (Array.prototype.map). */
  function Map<T, U>(s: seq<T>, f: T -> U): (r: seq<U>)
    ensures |r| == |s|
    ensures forall i :: 0 <= i < |s| ==> r[i] == f(s[i])
  {
    seq(|s|, i requires 0 <= i < |s| => f(s[i]))
  }

  lemma {:induction false} SubsequenceOfTail<T>(r: seq<T>, s: seq<T>)
    requires |s| > 0 && IsSubsequence(r, s[1..])
    ensures IsSubsequence(r, s)
    decreases |s|, 1
  {
    if |r| > 0 && r[0] == s[0] {
      // r[1..] is a subsequence of s[1..] because r is
      SubsequenceDropHead(r, s[1..]);
    }
  }

  lemma {:induction false} SubsequenceDropHead<T>(r: seq<T>, s: seq<T>)
    requires |r| > 0 && IsSubsequence(r, s)
    ensures IsSubsequence(r[1..], s)
    decreases |s|, 2
  {
    if r[0] == s[0] {
      if |r[1..]| > 0 {
        SubsequenceDropHead(r[1..], s[1..]);
        SubsequenceOfTail(r[1..], s);
      }
    } else {
      SubsequenceDropHead(r, s[1..]);
      if |r[1..]| > 0 {
        SubsequenceOfTail(r[1..], s);
      }
    }
  }

  /** Filtering deletes elements and never reorders the survivors. */
  lemma {:induction false} FilterIsSubsequence<T(!new)>(s: seq<T>, p: T -> bool)
    ensures IsSubsequence(Filter(s, p), s)
    decreases |s|
  {
    if |s| > 0 {
      FilterIsSubsequence(s[1..], p);
      if !p(s[0]) && |Filter(s[1..], p)| > 0 {
        SubsequenceOfTail(Filter(s[1..], p), s);
      }
    }
  }

  /** Mapping both sides keeps a subsequence a subsequence. */
  lemma {:induction false} MapKeepsSubsequence<T, U>(r: seq<T>, s: seq<T>, f: T -> U)
    requires IsSubsequence(r, s)
    ensures IsSubsequence(Map(r, f), Map(s, f))
    decreases |s|
  {
    if |r| > 0 {
      assert Map(s, f)[1..] == Map(s[1..], f);
      assert Map(r, f)[1..] == Map(r[1..], f);
      if r[0] == s[0] {
        MapKeepsSubsequence(r[1..], s[1..], f);
      } else {
        MapKeepsSubsequence(r, s[1..], f);
        if |Map(r, f)| > 0 {
          SubsequenceOfTail(Map(r, f), Map(s, f));
        }
      }
    }
  }

  /** Every element of a subsequence is an element of the sequence. */
  lemma {:induction false} SubsequenceMembers<T>(r: seq<T>, s: seq<T>)
    requires IsSubsequence(r, s)
    ensures forall x :: x in r ==> x in s
    decreases |s|
  {
    if |r| > 0 {
      if r[0] == s[0] {
        SubsequenceMembers(r[1..], s[1..]);
        assert forall x :: x in r ==> x == r[0] || x in r[1..];
      } else {
        SubsequenceMembers(r, s[1..]);
      }
    }
  }

  /** A subsequence of a duplicate-free sequence is duplicate-free. */
  lemma {:induction false} SubsequenceKeepsDistinct<T>(r: seq<T>, s: seq<T>)
    requires IsSubsequence(r, s) && Distinct(s)
    ensures Distinct(r)
    decreases |s|
  {
    if |r| > 0 {
      assert Distinct(s[1..]) by {
        forall i, j | 0 <= i < j < |s[1..]| ensures s[1..][i] != s[1..][j] {
          assert s[1..][i] == s[i + 1] && s[1..][j] == s[j + 1];
        }
      }
      if r[0] == s[0] {
        SubsequenceKeepsDistinct(r[1..], s[1..]);
        SubsequenceMembers(r[1..], s[1..]);
        forall j | 0 < j < |r| ensures r[0] != r[j] {
          assert r[j] == r[1..][j - 1];
          assert r[j] in s[1..];
          var k :| 0 <= k < |s[1..]| && s[1..][k] == r[j];
          assert s[k + 1] == r[j];
        }
      } else {
        SubsequenceKeepsDistinct(r, s[1..]);
      }
    }
  }

  /** Every element relates by `R` to every later one. */
  predicate Pairwise<T>(s: seq<T>, R: (T, T) -> bool) {
    forall i, j :: 0 <= i < j < |s| ==> R(s[i], s[j])
  }

  /** A subsequence keeps every pairwise relation among its elements, since it keeps their order. */
  lemma {:induction false} SubsequenceKeepsPairwise<T>(r: seq<T>, s: seq<T>, R: (T, T) -> bool)
    requires IsSubsequence(r, s) && Pairwise(s, R)
    ensures Pairwise(r, R)
    decreases |s|
  {
    if |r| > 0 {
      assert Pairwise(s[1..], R) by {
        forall i, j | 0 <= i < j < |s[1..]| ensures R(s[1..][i], s[1..][j]) {
          assert s[1..][i] == s[i + 1] && s[1..][j] == s[j + 1];
        }
      }
      if r[0] == s[0] {
        SubsequenceKeepsPairwise(r[1..], s[1..], R);
        SubsequenceMembers(r[1..], s[1..]);
        forall j | 0 < j < |r| ensures R(r[0], r[j]) {
          assert r[j] == r[1..][j - 1];
          assert r[j] in s[1..];
          var k :| 0 <= k < |s[1..]| && s[1..][k] == r[j];
          assert s[k + 1] == r[j];
        }
        forall i, j | 0 <= i < j < |r| ensures R(r[i], r[j]) {
          if i > 0 {
            assert r[i] == r[1..][i - 1] && r[j] == r[1..][j - 1];
          }
        }
      } else {
        SubsequenceKeepsPairwise(r, s[1..], R);
      }
    }
  }

  /** `t` occurs in `s` as a contiguous block (String.prototype.includes). */
  predicate Contains(s: string, t: string)
    decreases |s|
  {
    if |t| > |s| then false
    else if s[..|t|] == t then true
    else Contains(s[1..], t)
  }

  /** `s` begins with `t` (the CSS `^=` attribute operator). */
  predicate StartsWith(s: string, t: string) {
    |t| <= |s| && s[..|t|] == t
  }

  /** `t` occurs in `s` starting at position `i`. */
  predicate OccursAt(s: string, t: string, i: int) {
    0 <= i && i + |t| <= |s| && s[i..i + |t|] == t
  }

  /** `Contains` agrees with the positional definition of a substring occurrence. */
  lemma {:induction false} ContainsAt(s: string, t: string)
    ensures Contains(s, t) <==> exists i :: OccursAt(s, t, i)
    decreases |s|
  {
    if |t| > |s| {
    } else if s[..|t|] == t {
      assert OccursAt(s, t, 0);
    } else {
      ContainsAt(s[1..], t);
      if exists i :: OccursAt(s, t, i) {
        var i :| OccursAt(s, t, i);
        assert i != 0;
        assert s[1..][i - 1..i - 1 + |t|] == s[i..i + |t|];
        assert OccursAt(s[1..], t, i - 1);
      }
      if exists i :: OccursAt(s[1..], t, i) {
        var i :| OccursAt(s[1..], t, i);
        assert s[i + 1..i + 1 + |t|] == s[1..][i..i + |t|];
        assert OccursAt(s, t, i + 1);
      }
    }
  }

  /** A text lacking one of the characters of `t` cannot contain `t`. */
  lemma ContainsNeedsChar(s: string, t: string, c: char)
    requires c in t && c !in s
    ensures !Contains(s, t)
  {
    ContainsAt(s, t);
  }

  /** A text ending in `t` contains `t`. */
  lemma {:induction false} ContainsSuffix(u: string, t: string)
    ensures Contains(u + t, t)
    decreases |u|
  {
    if |u| > 0 && (u + t)[..|t|] != t {
      assert (u + t)[1..] == u[1..] + t;
      ContainsSuffix(u[1..], t);
    }
  }
}
