/**
 * The add-or-update of a toleration in a pod specification
 * (v1helper.AddOrUpdateTolerationInPodSpec). The helper's own code is not
 * part of this model, so its match rule is an assumption stated here: two
 * tolerations match when their key, operator, value and effect agree (the
 * duration is ignored). Every entry that matches the new toleration is
 * replaced by it in place; when none matches, the new toleration is appended.
 */
module TolerationHelper {
  import opened Api

  /** The assumed match rule. */
  predicate Matches(t: Toleration, other: Toleration): (r: bool)
    ensures r <==> t.(tolerationSeconds := other.tolerationSeconds) == other
  {
    t.key == other.key && t.operator == other.operator && t.value == other.value && t.effect == other.effect
  }

  /** The entries of ts that match t, in order. */
  function Matching(ts: seq<Toleration>, t: Toleration): (r: seq<Toleration>)
    ensures |r| <= |ts|
    decreases |ts|
  {
    if ts == [] then [] else (if Matches(t, ts[0]) then [ts[0]] else []) + Matching(ts[1..], t)
  }

  /** The entries of ts that do not match t, in order. */
  function Others(ts: seq<Toleration>, t: Toleration): (r: seq<Toleration>)
    ensures |r| <= |ts|
    decreases |ts|
  {
    if ts == [] then [] else (if Matches(t, ts[0]) then [] else [ts[0]]) + Others(ts[1..], t)
  }

  /** ts with every entry that matches t replaced by t. */
  function ReplaceMatching(ts: seq<Toleration>, t: Toleration): (r: seq<Toleration>)
    ensures |r| == |ts|
    ensures forall i :: 0 <= i < |ts| ==> r[i] == (if Matches(t, ts[i]) then t else ts[i])
    decreases |ts|
  {
    if ts == [] then [] else [if Matches(t, ts[0]) then t else ts[0]] + ReplaceMatching(ts[1..], t)
  }

  lemma {:induction false} MatchingMembers(ts: seq<Toleration>, t: Toleration)
    ensures forall x :: x in Matching(ts, t) <==> x in ts && Matches(t, x)
    decreases |ts|
  {
    if ts != [] {
      MatchingMembers(ts[1..], t);
      assert ts == [ts[0]] + ts[1..];
    }
  }

  lemma {:induction false} OthersMembers(ts: seq<Toleration>, t: Toleration)
    ensures forall x :: x in Others(ts, t) <==> x in ts && !Matches(t, x)
    decreases |ts|
  {
    if ts != [] {
      OthersMembers(ts[1..], t);
      assert ts == [ts[0]] + ts[1..];
    }
  }

  /** n copies of t. */
  function Copies(t: Toleration, n: nat): (r: seq<Toleration>)
    ensures |r| == n && forall x :: x in r ==> x == t
  {
    seq(n, _ => t)
  }

  /**
   * Add-or-update: afterwards t is present, every entry is t or came from ts,
   * and every entry of ts that does not match t is still there.
   */
  function AddOrUpdate(ts: seq<Toleration>, t: Toleration): (r: seq<Toleration>)
    ensures t in r
    ensures forall x :: x in r ==> x == t || x in ts
    ensures forall x :: x in ts && !Matches(t, x) ==> x in r
  {
    if Matching(ts, t) == [] then
      ts + [t]
    else
      var r := ReplaceMatching(ts, t);
      assert t in r by {
        MatchingMembers(ts, t);
        var x := Matching(ts, t)[0];
        assert x in Matching(ts, t);
        var i :| 0 <= i < |ts| && ts[i] == x;
        assert r[i] == t;
      }
      r
  }

  /** The pod-specification form the stamper uses: only the toleration list changes. */
  function AddOrUpdateTolerationInPodSpec(spec: PodSpec, t: Toleration): (r: PodSpec)
    ensures r.tolerations == AddOrUpdate(spec.tolerations, t)
    ensures r.(tolerations := spec.tolerations) == spec
  {
    spec.(tolerations := AddOrUpdate(spec.tolerations, t))
  }

  lemma {:induction false} MatchingAppend(a: seq<Toleration>, b: seq<Toleration>, t: Toleration)
    ensures Matching(a + b, t) == Matching(a, t) + Matching(b, t)
    decreases |a|
  {
    if a != [] {
      assert (a + b)[0] == a[0];
      assert (a + b)[1..] == a[1..] + b;
      MatchingAppend(a[1..], b, t);
      var h := if Matches(t, a[0]) then [a[0]] else [];
      assert Matching(a + b, t) == h + Matching(a[1..] + b, t);
      assert Matching(a, t) == h + Matching(a[1..], t);
    } else {
      assert a + b == b;
    }
  }

  lemma {:induction false} OthersAppend(a: seq<Toleration>, b: seq<Toleration>, t: Toleration)
    ensures Others(a + b, t) == Others(a, t) + Others(b, t)
    decreases |a|
  {
    if a != [] {
      assert (a + b)[0] == a[0];
      assert (a + b)[1..] == a[1..] + b;
      OthersAppend(a[1..], b, t);
      var h := if Matches(t, a[0]) then [] else [a[0]];
      assert Others(a + b, t) == h + Others(a[1..] + b, t);
      assert Others(a, t) == h + Others(a[1..], t);
    } else {
      assert a + b == b;
    }
  }

  lemma {:induction false} OthersOfReplaceMatching(ts: seq<Toleration>, t: Toleration)
    ensures Others(ReplaceMatching(ts, t), t) == Others(ts, t)
    decreases |ts|
  {
    if ts != [] {
      OthersOfReplaceMatching(ts[1..], t);
    }
  }

  lemma {:induction false} MatchingOfReplaceMatching(ts: seq<Toleration>, t: Toleration)
    ensures Matching(ReplaceMatching(ts, t), t) == Copies(t, |Matching(ts, t)|)
    decreases |ts|
  {
    if ts != [] {
      MatchingOfReplaceMatching(ts[1..], t);
      if Matches(t, ts[0]) {
        assert Copies(t, |Matching(ts, t)|) == [t] + Copies(t, |Matching(ts[1..], t)|);
      }
    }
  }

  /** Replacing matches of u leaves the entries that match t alone when u and t differ in key. */
  lemma {:induction false} MatchingOfReplaceOtherKey(ts: seq<Toleration>, u: Toleration, t: Toleration)
    requires u.key != t.key
    ensures Matching(ReplaceMatching(ts, u), t) == Matching(ts, t)
    decreases |ts|
  {
    if ts != [] {
      MatchingOfReplaceOtherKey(ts[1..], u, t);
    }
  }

  /** Replacing is the identity once every entry that matches t is t itself. */
  lemma {:induction false} ReplaceMatchingFixed(ts: seq<Toleration>, t: Toleration)
    requires forall x :: x in ts && Matches(t, x) ==> x == t
    ensures ReplaceMatching(ts, t) == ts
    decreases |ts|
  {
    if ts != [] {
      ReplaceMatchingFixed(ts[1..], t);
    }
  }

  /** Filtering out two tolerations' matches can be done in either order. */
  lemma {:induction false} OthersCommute(ts: seq<Toleration>, a: Toleration, b: Toleration)
    ensures Others(Others(ts, a), b) == Others(Others(ts, b), a)
    decreases |ts|
  {
    if ts != [] {
      var x, rest := ts[0], ts[1..];
      OthersCommute(rest, a, b);
      OthersCons(x, rest, a);
      OthersCons(x, rest, b);
      assert ts == [x] + rest;
      if Matches(a, x) {
        assert Others(ts, a) == Others(rest, a);
        if !Matches(b, x) {
          OthersCons(x, Others(rest, b), a);
        } else {
          assert Others(ts, b) == Others(rest, b);
        }
      } else if Matches(b, x) {
        assert Others(ts, b) == Others(rest, b);
        OthersCons(x, Others(rest, a), b);
      } else {
        OthersCons(x, Others(rest, a), b);
        OthersCons(x, Others(rest, b), a);
      }
    }
  }

  lemma OthersCons(x: Toleration, rest: seq<Toleration>, t: Toleration)
    ensures Others([x] + rest, t) == (if Matches(t, x) then [] else [x]) + Others(rest, t)
  {
    assert ([x] + rest)[0] == x;
    assert ([x] + rest)[1..] == rest;
  }

  /** The entries that do not match t survive add-or-update unchanged and in order. */
  lemma AddOrUpdateKeepsOthers(ts: seq<Toleration>, t: Toleration)
    ensures Others(AddOrUpdate(ts, t), t) == Others(ts, t)
  {
    if Matching(ts, t) == [] {
      OthersAppend(ts, [t], t);
    } else {
      OthersOfReplaceMatching(ts, t);
    }
  }

  /** After add-or-update every entry matching t is t, and there are as many as before, at least one. */
  lemma AddOrUpdateMatching(ts: seq<Toleration>, t: Toleration)
    ensures Matching(AddOrUpdate(ts, t), t)
         == Copies(t, if Matching(ts, t) == [] then 1 else |Matching(ts, t)|)
  {
    if Matching(ts, t) == [] {
      MatchingAppend(ts, [t], t);
      assert Copies(t, 1) == [t];
    } else {
      MatchingOfReplaceMatching(ts, t);
    }
  }

  /** With at most one matching entry to start with, exactly one entry matches t afterwards: t itself. */
  lemma AddOrUpdateUnique(ts: seq<Toleration>, t: Toleration)
    requires |Matching(ts, t)| <= 1
    ensures Matching(AddOrUpdate(ts, t), t) == [t]
  {
    AddOrUpdateMatching(ts, t);
    assert Copies(t, 1) == [t];
  }

  /** Adding the same toleration twice is the same as adding it once. */
  lemma AddOrUpdateIdempotent(ts: seq<Toleration>, t: Toleration)
    ensures AddOrUpdate(AddOrUpdate(ts, t), t) == AddOrUpdate(ts, t)
  {
    var r := AddOrUpdate(ts, t);
    AddOrUpdateMatching(ts, t);
    MatchingMembers(r, t);
    ReplaceMatchingFixed(r, t);
  }

  /** Adding u does not change which entries match a toleration t with another key. */
  lemma AddOrUpdateOtherKey(ts: seq<Toleration>, u: Toleration, t: Toleration)
    requires u.key != t.key
    ensures Matching(AddOrUpdate(ts, u), t) == Matching(ts, t)
  {
    if Matching(ts, u) == [] {
      MatchingAppend(ts, [u], t);
    } else {
      MatchingOfReplaceOtherKey(ts, u, t);
    }
  }
}
