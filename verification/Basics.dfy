/** What several components share: optional values, bytes, filtering and counting. */
module Basics {

  datatype Option<T> = None | Some(value: T)

  type byte = x: int | 0 <= x < 256

  /** How many values k bytes can take. */
  function Limit(k: nat): nat {
    if k == 0 then 1 else 256 * Limit(k - 1)
  }

  /** The elements that satisfy p, in order. */
  function Filter<T>(s: seq<T>, p: T -> bool): (r: seq<T>)
    ensures |r| <= |s|
  {
    if s == [] then [] else Filter(s[..|s| - 1], p) + (if p(s[|s| - 1]) then [s[|s| - 1]] else [])
  }

  function Not<T>(p: T -> bool): T -> bool {
    x => !p(x)
  }

  /** Filtering from the front gives the same. */
  lemma {:induction false} FilterFront<T>(s: seq<T>, p: T -> bool)
    requires s != []
    ensures Filter(s, p) == (if p(s[0]) then [s[0]] else []) + Filter(s[1..], p)
  {
    var n := |s| - 1;
    if n > 0 {
      FilterFront(s[..n], p);
      assert s[..n][1..] == s[1..][..n - 1];
    }
  }

  /** r holds the elements at the places idx, which are in order and are all that satisfy p. */
  ghost predicate Selects<T>(s: seq<T>, p: T -> bool, r: seq<T>, idx: seq<nat>) {
    && |idx| == |r|
    && (forall i: nat :: i < |idx| ==> idx[i] < |s| && p(s[idx[i]]) && r[i] == s[idx[i]])
    && (forall i: nat, j: nat :: i < j < |idx| ==> idx[i] < idx[j])
    && (forall k: nat :: k < |s| && p(s[k]) ==> k in idx)
  }

  lemma SelectsLast<T>(s: seq<T>, p: T -> bool, r: seq<T>, idx: seq<nat>, x: T)
    requires Selects(s, p, r, idx)
    ensures p(x) ==> Selects(s + [x], p, r + [x], idx + [|s|])
    ensures !p(x) ==> Selects(s + [x], p, r, idx)
  {
    var all := s + [x];
    assert forall k: nat :: k < |s| ==> all[k] == s[k];
    if p(x) {
      var idx' := idx + [|s|];
      assert idx'[|idx|] == |s|;
      forall k: nat | k < |all| && p(all[k]) ensures k in idx' {
        if k < |s| { assert p(s[k]) && k in idx; }
      }
    } else {
      forall k: nat | k < |all| && p(all[k]) ensures k in idx {
        assert k < |s| && p(s[k]);
      }
    }
  }

  /** So filtering selects exactly the elements that satisfy p. */
  lemma {:induction false} FilterSelects<T>(s: seq<T>, p: T -> bool) returns (idx: seq<nat>)
    ensures Selects(s, p, Filter(s, p), idx)
  {
    idx := [];
    if s != [] {
      var n := |s| - 1;
      idx := FilterSelects(s[..n], p);
      SelectsLast(s[..n], p, Filter(s[..n], p), idx, s[n]);
      assert s[..n] + [s[n]] == s;
      if p(s[n]) { idx := idx + [n]; }
    }
  }

  lemma {:induction false} SubsetSize<T>(a: set<T>, b: set<T>)
    requires a <= b
    ensures |a| <= |b|
  {
    if a != {} {
      var x :| x in a;
      SubsetSize(a - {x}, b - {x});
    }
  }
}
