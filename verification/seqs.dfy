/**
 The two sequence stages a loop-to-pipeline refactoring chains together:
 `Array.prototype.filter` and `Array.prototype.map`. Both accept partial
 functions, so that a stage that reads a field which may be missing can only
 be applied where every element has that field.
 */
module Seqs {

  /** Keeps, in order, the elements of `s` that satisfy `p`: each kept
      element as often as it occurs in `s` (FilterCounts), every other
      element not at all, in the order of `s` (FilterAppend). */
  function Filter<T(!new)>(s: seq<T>, p: T --> bool): (r: seq<T>)
    requires forall i :: 0 <= i < |s| ==> p.requires(s[i])
    ensures |r| <= |s|
    ensures forall x :: x in r <==> x in s && p(x)
    decreases |s|
  {
    if |s| == 0 then []
    else if p(s[0]) then [s[0]] + Filter(s[1..], p)
    else Filter(s[1..], p)
  }

  /** Applies `f` to every element of `s`, in order. */
  function Map<T, U>(s: seq<T>, f: T --> U): (r: seq<U>)
    requires forall i :: 0 <= i < |s| ==> f.requires(s[i])
    ensures |r| == |s|
    ensures forall i :: 0 <= i < |s| ==> r[i] == f(s[i])
    decreases |s|
  {
    if |s| == 0 then [] else [f(s[0])] + Map(s[1..], f)
  }

  /** Filtering keeps every element satisfying `p` as many times as it
      occurs in `s`, and drops every other element. */
  lemma {:induction false} FilterCounts<T(!new)>(s: seq<T>, p: T --> bool)
    requires forall i :: 0 <= i < |s| ==> p.requires(s[i])
    ensures forall x :: multiset(Filter(s, p))[x] == if x in s && p(x) then multiset(s)[x] else 0
    decreases |s|
  {
    if |s| > 0 {
      FilterCounts(s[1..], p);
      assert s == [s[0]] + s[1..];
    }
  }

  /** Filtering distributes over concatenation, so the kept elements stay in
      their order. */
  lemma {:induction false} FilterAppend<T(!new)>(a: seq<T>, b: seq<T>, p: T --> bool)
    requires forall i :: 0 <= i < |a| ==> p.requires(a[i])
    requires forall i :: 0 <= i < |b| ==> p.requires(b[i])
    ensures Filter(a + b, p) == Filter(a, p) + Filter(b, p)
    decreases |a|
  {
    if |a| > 0 {
      assert (a + b)[1..] == a[1..] + b;
      FilterAppend(a[1..], b, p);
    } else {
      assert a + b == b;
    }
  }

  /** Mapping distributes over concatenation. */
  lemma MapAppend<T, U>(a: seq<T>, b: seq<T>, f: T --> U)
    requires forall i :: 0 <= i < |a| ==> f.requires(a[i])
    requires forall i :: 0 <= i < |b| ==> f.requires(b[i])
    ensures Map(a + b, f) == Map(a, f) + Map(b, f)
  {
    var r := Map(a + b, f);
    assert forall i :: 0 <= i < |a| ==> r[i] == f((a + b)[i]) == f(a[i]);
    assert forall i :: |a| <= i < |a| + |b| ==> r[i] == f((a + b)[i]) == f(b[i - |a|]);
  }

  /** Extending a slice by one position appends that element. */
  lemma SliceSnoc<T>(s: seq<T>, i: nat, j: nat)
    requires i <= j < |s|
    ensures s[i..j + 1] == s[i..j] + [s[j]]
  {
  }

  /** A non-empty sequence is its prefix followed by its last element. */
  lemma InitLast<T>(s: seq<T>)
    requires |s| > 0
    ensures s == s[..|s| - 1] + [s[|s| - 1]]
  {
  }

  /** The indices, in increasing order, of the elements of `s` that satisfy
      `p`. */
  function Positions<T>(s: seq<T>, p: T -> bool): seq<nat>
    decreases |s|
  {
    if |s| == 0 then []
    else
      var n := |s| - 1;
      Positions(s[..n], p) + (if p(s[n]) then [n] else [])
  }

  /** Every listed index is that of an element satisfying `p`. */
  lemma {:induction false} PositionsSound<T>(s: seq<T>, p: T -> bool)
    ensures forall j :: 0 <= j < |Positions(s, p)| ==>
              Positions(s, p)[j] < |s| && p(s[Positions(s, p)[j]])
    decreases |s|
  {
    if |s| > 0 {
      var n := |s| - 1;
      var init := s[..n];
      PositionsSound(init, p);
      var ix0, ix := Positions(init, p), Positions(s, p);
      assert ix == ix0 + (if p(s[n]) then [n] else []);
      forall j | 0 <= j < |ix| ensures ix[j] < |s| && p(s[ix[j]]) {
        if j < |ix0| {
          assert ix[j] == ix0[j] && init[ix0[j]] == s[ix0[j]];
        }
      }
    }
  }

  /** The listed indices are strictly increasing. */
  lemma {:induction false} PositionsIncreasing<T>(s: seq<T>, p: T -> bool)
    ensures forall j, j' :: 0 <= j < j' < |Positions(s, p)| ==>
              Positions(s, p)[j] < Positions(s, p)[j']
    decreases |s|
  {
    if |s| > 0 {
      var n := |s| - 1;
      var init := s[..n];
      PositionsIncreasing(init, p);
      PositionsSound(init, p);
      var ix0, ix := Positions(init, p), Positions(s, p);
      assert ix == ix0 + (if p(s[n]) then [n] else []);
      forall j, j' | 0 <= j < j' < |ix| ensures ix[j] < ix[j'] {
        assert ix[j] == ix0[j] < n;
        if j' < |ix0| {
          assert ix[j'] == ix0[j'];
        }
      }
    }
  }

  /** The index of every element satisfying `p` is listed. */
  lemma {:induction false} PositionsComplete<T>(s: seq<T>, p: T -> bool)
    ensures forall k :: 0 <= k < |s| && p(s[k]) ==> k in Positions(s, p)
    decreases |s|
  {
    if |s| > 0 {
      var n := |s| - 1;
      var init := s[..n];
      PositionsComplete(init, p);
      var ix0, ix := Positions(init, p), Positions(s, p);
      assert ix == ix0 + (if p(s[n]) then [n] else []);
      forall k | 0 <= k < |s| && p(s[k]) ensures k in ix {
        if k < n {
          assert init[k] == s[k];
          assert k in ix0;
        }
      }
    }
  }
}
