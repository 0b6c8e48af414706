/** Order-preserving filtering and the subsequence relation, shared by the scanners and queries. */
module Sequences {

  /** The elements of `s` that satisfy `p`, in the order in which they occur in `s`. */
  function Filter<T>(s: seq<T>, p: T -> bool): (r: seq<T>)
    ensures |r| <= |s|
  {
    if s == [] then [] else Filter(s[..|s| - 1], p) + (if p(s[|s| - 1]) then [s[|s| - 1]] else [])
  }

  /** `s` is obtained from `t` by deleting elements: either the last element of `t` is kept as
      the last element of `s`, or it is dropped. */
  ghost predicate IsSubsequence<T>(s: seq<T>, t: seq<T>)
    decreases |t|
  {
    s == [] ||
    (t != [] &&
     ((s[|s| - 1] == t[|t| - 1] && IsSubsequence(s[..|s| - 1], t[..|t| - 1])) ||
      IsSubsequence(s, t[..|t| - 1])))
  }

  lemma {:induction false} SubsequenceLength<T>(s: seq<T>, t: seq<T>)
    requires IsSubsequence(s, t)
    ensures |s| <= |t|
    decreases |t|
  {
    if s != [] {
      if s[|s| - 1] == t[|t| - 1] && IsSubsequence(s[..|s| - 1], t[..|t| - 1]) {
        SubsequenceLength(s[..|s| - 1], t[..|t| - 1]);
      } else {
        SubsequenceLength(s, t[..|t| - 1]);
      }
    }
  }

  lemma {:induction false} SubsequenceReflexive<T>(s: seq<T>)
    ensures IsSubsequence(s, s)
    decreases |s|
  {
    if s != [] {
      SubsequenceReflexive(s[..|s| - 1]);
    }
  }

  /** Keeping the same element at the end of both sides preserves the relation. */
  lemma {:induction false} SubsequenceSnoc<T>(s: seq<T>, t: seq<T>, x: T)
    requires IsSubsequence(s, t)
    ensures IsSubsequence(s + [x], t + [x])
  {
    assert (s + [x])[..|s|] == s;
    assert (t + [x])[..|t|] == t;
  }

  /** A subsequence of a prefix of `t` is a subsequence of every longer prefix of `t`. */
  lemma {:induction false} SubsequenceOfLongerPrefix<T>(s: seq<T>, t: seq<T>, i: nat, j: nat)
    requires i <= j <= |t|
    requires IsSubsequence(s, t[..i])
    ensures IsSubsequence(s, t[..j])
    decreases j - i
  {
    if i < j {
      SubsequenceOfLongerPrefix(s, t, i, j - 1);
      assert t[..j][..j - 1] == t[..j - 1];
    }
  }

  /** Appending the same suffix to both sides preserves the relation. */
  lemma {:induction false} SubsequenceAppend<T>(s: seq<T>, t: seq<T>, u: seq<T>)
    requires IsSubsequence(s, t)
    ensures IsSubsequence(s + u, t + u)
    decreases |u|
  {
    if u == [] {
      assert s + u == s && t + u == t;
    } else {
      var u' := u[..|u| - 1];
      SubsequenceAppend(s, t, u');
      SubsequenceSnoc(s + u', t + u', u[|u| - 1]);
      assert s + u' + [u[|u| - 1]] == s + u;
      assert t + u' + [u[|u| - 1]] == t + u;
    }
  }

  lemma {:induction false} FilterIsSubsequence<T>(s: seq<T>, p: T -> bool)
    ensures IsSubsequence(Filter(s, p), s)
    decreases |s|
  {
    if s != [] {
      var s' := s[..|s| - 1];
      FilterIsSubsequence(s', p);
      if p(s[|s| - 1]) {
        SubsequenceSnoc(Filter(s', p), s', s[|s| - 1]);
        assert s' + [s[|s| - 1]] == s;
      } else {
        assert Filter(s, p) == Filter(s', p);
      }
    }
  }

  /** An element is kept exactly when it occurs in `s` and satisfies `p`. */
  lemma {:induction false} FilterMembership<T>(s: seq<T>, p: T -> bool, x: T)
    ensures x in Filter(s, p) <==> x in s && p(x)
    decreases |s|
  {
    if s != [] {
      var s' := s[..|s| - 1];
      FilterMembership(s', p, x);
      assert s == s' + [s[|s| - 1]];
    }
  }

  lemma {:induction false} FilterConcat<T>(s: seq<T>, t: seq<T>, p: T -> bool)
    ensures Filter(s + t, p) == Filter(s, p) + Filter(t, p)
    decreases |t|
  {
    if t == [] {
      assert s + t == s;
    } else {
      var t' := t[..|t| - 1];
      FilterConcat(s, t', p);
      assert (s + t)[..|s + t| - 1] == s + t';
    }
  }

  /** Every element of the filtered sequence satisfies `p`. */
  lemma {:induction false} FilterAll<T>(s: seq<T>, p: T -> bool)
    ensures forall k :: 0 <= k < |Filter(s, p)| ==> p(Filter(s, p)[k])
    decreases |s|
  {
    if s != [] {
      FilterAll(s[..|s| - 1], p);
    }
  }

  /** A filter that keeps everything is the identity. */
  lemma {:induction false} FilterTrue<T>(s: seq<T>, p: T -> bool)
    requires forall k :: 0 <= k < |s| ==> p(s[k])
    ensures Filter(s, p) == s
    decreases |s|
  {
    if s != [] {
      FilterTrue(s[..|s| - 1], p);
    }
  }

  // Identities of slices and concatenations, kept apart so that proofs about a pass over a
  // sequence need not argue element by element.

  /** Appending `s[i]` then `s[i + 1..j]` is appending `s[i..j]`. */
  lemma {:induction false} AppendElementThenSlice<T>(out: seq<T>, s: seq<T>, i: nat, j: nat)
    requires i < j <= |s|
    ensures out + [s[i]] + s[i + 1..j] == out + s[i..j]
  {
    assert [s[i]] + s[i + 1..j] == s[i..j];
  }

  /** Appending `s[i]` then `s[i + 1..]` is appending `s[i..]`. */
  lemma {:induction false} AppendElementThenTail<T>(out: seq<T>, s: seq<T>, i: nat)
    requires i < |s|
    ensures out + [s[i]] + s[i + 1..] == out + s[i..]
  {
    assert [s[i]] + s[i + 1..] == s[i..];
  }

  /** A slice up to `j`, then the rest from `j`, is the rest from `i`. */
  lemma {:induction false} SliceThenRest<T>(s: seq<T>, i: nat, j: nat)
    requires i <= j <= |s|
    ensures s[i..j] + s[j..] == s[i..]
  {
  }

  /** A prefix, then the rest, is the whole sequence. */
  lemma {:induction false} PrefixThenRest<T>(s: seq<T>, j: nat)
    requires j <= |s|
    ensures s[..j] + s[j..] == s
  {
  }

  /** A prefix of a suffix is a slice. */
  lemma {:induction false} PrefixOfSuffix<T>(s: seq<T>, i: nat, n: nat)
    requires i + n <= |s|
    ensures s[i..][..n] == s[i..i + n]
  {
  }
}
