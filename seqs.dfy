/** Order-preserving selection from a sequence: pandas' boolean-mask indexing
    and Python's filtering list comprehension both keep, in their original
    order, exactly the elements that pass a test. */
module Seqs {

  /** a is b with some positions dropped: ix lists, in increasing order, the
      positions of b that a keeps. */
  ghost predicate Picks<T>(a: seq<T>, b: seq<T>, ix: seq<nat>)
  {
    && |ix| == |a|
    && (forall k :: 0 <= k < |ix| ==> ix[k] < |b| && a[k] == b[ix[k]])
    && (forall k, l :: 0 <= k < l < |ix| ==> ix[k] < ix[l])
  }

  /** The elements of s that pass p, in order. */
  function Select<T>(s: seq<T>, p: T -> bool): (r: seq<T>)
    ensures |r| <= |s|
    ensures forall k :: 0 <= k < |r| ==> p(r[k])
  {
    if s == [] then [] else (if p(s[0]) then [s[0]] else []) + Select(s[1..], p)
  }

  function Shift(ix: seq<nat>): (r: seq<nat>)
    ensures |r| == |ix| && forall k :: 0 <= k < |ix| ==> r[k] == ix[k] + 1
  {
    seq(|ix|, k requires 0 <= k < |ix| => ix[k] + 1)
  }

  /** The positions of s whose elements pass p, in increasing order. */
  function SelectedPositions<T>(s: seq<T>, p: T -> bool): seq<nat>
  {
    if s == [] then [] else (if p(s[0]) then [0] else []) + Shift(SelectedPositions(s[1..], p))
  }

  /** Select keeps the elements at SelectedPositions, in order. */
  lemma {:induction false} SelectPicks<T>(s: seq<T>, p: T -> bool)
    ensures Picks(Select(s, p), s, SelectedPositions(s, p))
  {
    if s != [] {
      var rest, ixRest := Select(s[1..], p), SelectedPositions(s[1..], p);
      SelectPicks(s[1..], p);
      PicksShift(rest, s, ixRest);
      if p(s[0]) {
        assert Select(s, p) == [s[0]] + rest && SelectedPositions(s, p) == [0] + Shift(ixRest);
        PicksCons(rest, s, Shift(ixRest));
      } else {
        assert Select(s, p) == rest && SelectedPositions(s, p) == Shift(ixRest);
      }
    }
  }

  /** Positions into the tail of b are positions into b, one further on. */
  lemma PicksShift<T>(a: seq<T>, b: seq<T>, ix: seq<nat>)
    requires b != [] && Picks(a, b[1..], ix)
    ensures Picks(a, b, Shift(ix)) && forall k :: 0 <= k < |ix| ==> Shift(ix)[k] > 0
  {
    forall k | 0 <= k < |ix| ensures Shift(ix)[k] < |b| && a[k] == b[Shift(ix)[k]] {
      assert b[1..][ix[k]] == b[ix[k] + 1];
    }
  }

  /** Keeping b's first element as well puts position 0 in front. */
  lemma PicksCons<T>(a: seq<T>, b: seq<T>, ix: seq<nat>)
    requires b != [] && Picks(a, b, ix) && forall k :: 0 <= k < |ix| ==> ix[k] > 0
    ensures Picks([b[0]] + a, b, [0] + ix)
  {
    var a', ix' := [b[0]] + a, [0] + ix;
    forall k | 0 <= k < |ix'| ensures ix'[k] < |b| && a'[k] == b[ix'[k]] {
      if k > 0 { assert a'[k] == a[k - 1] && ix'[k] == ix[k - 1]; }
    }
    forall k, l | 0 <= k < l < |ix'| ensures ix'[k] < ix'[l] {
      assert ix'[l] == ix[l - 1];
      if k > 0 { assert ix'[k] == ix[k - 1]; }
    }
  }

  /** A position is selected exactly when its element passes the test. */
  lemma {:induction false} SelectedPositionsExact<T>(s: seq<T>, p: T -> bool)
    ensures forall j :: 0 <= j < |s| ==> (j in SelectedPositions(s, p) <==> p(s[j]))
  {
    if s != [] {
      var ixRest := SelectedPositions(s[1..], p);
      SelectedPositionsExact(s[1..], p);
      var sh := Shift(ixRest);
      assert SelectedPositions(s, p) == (if p(s[0]) then [0] else []) + sh;
      forall j | 0 <= j < |s| ensures (j in SelectedPositions(s, p) <==> p(s[j])) {
        if j > 0 {
          assert s[j] == s[1..][j - 1];
          assert (j - 1 in ixRest) <==> (j in sh);
        } else {
          assert 0 !in sh;
        }
      }
    }
  }

  /** A test that nothing passes selects nothing. */
  lemma {:induction false} SelectNone<T>(s: seq<T>, p: T -> bool)
    requires forall k :: 0 <= k < |s| ==> !p(s[k])
    ensures Select(s, p) == []
  {
    if s != [] {
      SelectNone(s[1..], p);
    }
  }

  /** An element that passes the test is selected, so the selection is not
      empty. */
  lemma {:induction false} SelectHas<T>(s: seq<T>, p: T -> bool, i: nat)
    requires i < |s| && p(s[i])
    ensures s[i] in Select(s, p)
  {
    if i > 0 {
      assert s[i] == s[1..][i - 1];
      SelectHas(s[1..], p, i - 1);
    }
  }
}
