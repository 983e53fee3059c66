/**
 * The stable two-way split that SplitByAvailablePods computes, as a
 * specification on values: Select(s, verdicts, b) keeps, in order, the
 * elements of s whose verdict is b. The lemmas state that the two halves
 * form an order-preserving partition of s.
 */
module Partition {

  /** The elements of s whose verdict is b, in the order of s. */
  function Select<T>(s: seq<T>, verdicts: seq<bool>, b: bool): (r: seq<T>)
    requires |verdicts| == |s|
    ensures |r| <= |s|
    decreases |s|
  {
    if s == [] then []
    else
      var n := |s| - 1;
      Select(s[..n], verdicts[..n], b) + (if verdicts[n] == b then [s[n]] else [])
  }

  /** One more element extends exactly the side its verdict names. */
  lemma SelectExtend<T>(s: seq<T>, verdicts: seq<bool>, i: nat, b: bool)
    requires |verdicts| == |s| && i < |s|
    ensures Select(s[..i + 1], verdicts[..i + 1], b)
         == Select(s[..i], verdicts[..i], b) + (if verdicts[i] == b then [s[i]] else [])
  {
    assert s[..i + 1][..i] == s[..i] && verdicts[..i + 1][..i] == verdicts[..i];
  }

  /** a can be obtained from s by deleting elements. */
  predicate IsSubsequence<T(==)>(a: seq<T>, s: seq<T>)
    decreases |s|
  {
    if a == [] then true
    else if s == [] then false
    else (a[|a| - 1] == s[|s| - 1] && IsSubsequence(a[..|a| - 1], s[..|s| - 1]))
         || IsSubsequence(a, s[..|s| - 1])
  }

  /** Every element goes to exactly one side, so the sizes add up. */
  lemma {:induction false} SelectSizes<T>(s: seq<T>, verdicts: seq<bool>)
    requires |verdicts| == |s|
    ensures |Select(s, verdicts, true)| + |Select(s, verdicts, false)| == |s|
    decreases |s|
  {
    if s != [] {
      SelectSizes(s[..|s| - 1], verdicts[..|s| - 1]);
    }
  }

  /** Together the two sides hold every element as often as s does. */
  lemma {:induction false} SelectMultiset<T>(s: seq<T>, verdicts: seq<bool>)
    requires |verdicts| == |s|
    ensures multiset(Select(s, verdicts, true)) + multiset(Select(s, verdicts, false)) == multiset(s)
    decreases |s|
  {
    if s != [] {
      var n := |s| - 1;
      SelectMultiset(s[..n], verdicts[..n]);
      assert s == s[..n] + [s[n]];
    }
  }

  /** Each side keeps the relative order of s. */
  lemma {:induction false} SelectIsSubsequence<T>(s: seq<T>, verdicts: seq<bool>, b: bool)
    requires |verdicts| == |s|
    ensures IsSubsequence(Select(s, verdicts, b), s)
    decreases |s|
  {
    if s != [] {
      var n := |s| - 1;
      var prefix := Select(s[..n], verdicts[..n], b);
      SelectIsSubsequence(s[..n], verdicts[..n], b);
      if verdicts[n] == b {
        var r := prefix + [s[n]];
        assert r[..|r| - 1] == prefix;
      } else {
        assert Select(s, verdicts, b) == prefix;
      }
    }
  }

  /** An element is on side b exactly when some position holding it has verdict b. */
  lemma {:induction false} SelectMembers<T>(s: seq<T>, verdicts: seq<bool>, b: bool, x: T)
    requires |verdicts| == |s|
    ensures x in Select(s, verdicts, b) <==> exists i :: 0 <= i < |s| && s[i] == x && verdicts[i] == b
    decreases |s|
  {
    if s != [] {
      var n := |s| - 1;
      SelectMembers(s[..n], verdicts[..n], b, x);
      if exists i :: 0 <= i < |s| && s[i] == x && verdicts[i] == b {
        var i :| 0 <= i < |s| && s[i] == x && verdicts[i] == b;
        if i < n {
          assert s[..n][i] == x && verdicts[..n][i] == b;
        }
      }
      if x in Select(s[..n], verdicts[..n], b) {
        var i :| 0 <= i < n && s[..n][i] == x && verdicts[..n][i] == b;
        assert s[i] == x && verdicts[i] == b;
      }
    }
  }
}
