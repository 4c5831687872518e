/** Strictly increasing lists of identifiers, as kept by `std::lower_bound` insertions. */
module SortedLists {

  ghost predicate Increasing(s: seq<nat>) {
    forall i, j :: 0 <= i < j < |s| ==> s[i] < s[j]
  }

  ghost predicate Below(s: seq<nat>, bound: nat) {
    forall i :: 0 <= i < |s| ==> s[i] < bound
  }

  ghost function Elements(s: seq<nat>): set<nat> { set x | x in s }

  /** The list with `x` at its place. */
  function Insert(s: seq<nat>, x: nat): seq<nat> {
    if s == [] || x < s[0] then [x] + s
    else if x == s[0] then s
    else [s[0]] + Insert(s[1..], x)
  }

  function InsertAll(s: seq<nat>, t: seq<nat>): seq<nat>
    decreases |t|
  {
    if t == [] then s else InsertAll(Insert(s, t[0]), t[1..])
  }

  function Without(s: seq<nat>, t: seq<nat>): seq<nat> {
    if s == [] then [] else (if s[0] in t then [] else [s[0]]) + Without(s[1..], t)
  }

  /** A strictly increasing list is determined by its elements. */
  lemma {:induction false} Canonical(s: seq<nat>, t: seq<nat>)
    requires Increasing(s) && Increasing(t) && forall x :: x in s <==> x in t
    ensures s == t
    decreases |s|
  {
    assert (s != [] ==> s[0] in s) && (t != [] ==> t[0] in t);
    if s != [] && t != [] {
      forall x ensures x in s[1..] <==> x in t[1..] {
        if x in s[1..] { assert x in s; }
        if x in t[1..] { assert x in t; }
      }
      Canonical(s[1..], t[1..]);
    }
  }

  lemma {:induction false} InsertLaw(s: seq<nat>, x: nat)
    requires Increasing(s)
    ensures Increasing(Insert(s, x))
    ensures forall y :: y in Insert(s, x) <==> y == x || y in s
    decreases |s|
  {
    if s != [] && x > s[0] {
      InsertLaw(s[1..], x);
      forall y ensures y in s <==> y == s[0] || y in s[1..] { }
      assert forall i :: 0 <= i < |s| - 1 ==> s[1..][i] > s[0];
      var r := Insert(s[1..], x);
      forall i | 0 <= i < |r| ensures r[i] > s[0] { assert r[i] in r; }
    }
  }

  lemma {:induction false} InsertAllLaw(s: seq<nat>, t: seq<nat>)
    requires Increasing(s)
    ensures Increasing(InsertAll(s, t))
    ensures forall y :: y in InsertAll(s, t) <==> y in s || y in t
    decreases |t|
  {
    if t != [] {
      InsertLaw(s, t[0]);
      InsertAllLaw(Insert(s, t[0]), t[1..]);
      assert forall y :: y in t <==> y == t[0] || y in t[1..];
    }
  }

  lemma {:induction false} WithoutLaw(s: seq<nat>, t: seq<nat>)
    requires Increasing(s)
    ensures Increasing(Without(s, t))
    ensures forall y :: y in Without(s, t) <==> y in s && y !in t
    decreases |s|
  {
    if s != [] {
      WithoutLaw(s[1..], t);
      assert forall y :: y in s <==> y == s[0] || y in s[1..];
      assert forall i :: 0 <= i < |s| - 1 ==> s[1..][i] > s[0];
      var r := Without(s[1..], t);
      forall i | 0 <= i < |r| ensures r[i] > s[0] { assert r[i] in r; }
    }
  }

  /** Pigeonhole: `n` different identifiers below `bound` need `n <= bound`. */
  lemma {:induction false} CountFits(s: seq<nat>, bound: nat)
    requires Increasing(s) && Below(s, bound)
    ensures |s| <= bound
  {
    if s != [] {
      ValueAtLeastIndex(s, |s| - 1);
    }
  }

  lemma {:induction false} ValueAtLeastIndex(s: seq<nat>, i: nat)
    requires Increasing(s) && i < |s|
    ensures s[i] >= i
    decreases i
  {
    if i > 0 { ValueAtLeastIndex(s, i - 1); }
  }

  // ---------------------------------------------------------------------------
  // The operations
  // ---------------------------------------------------------------------------

  /** `std::lower_bound`. */
  method LowerBound(s: seq<nat>, x: nat) returns (it: nat)
    requires Increasing(s)
    ensures it <= |s|
    ensures forall k :: 0 <= k < it ==> s[k] < x
    ensures forall k :: it <= k < |s| ==> s[k] >= x
  {
    it := 0;
    var hi := |s|;
    while it < hi
      invariant it <= hi <= |s|
      invariant forall k :: 0 <= k < it ==> s[k] < x
      invariant forall k :: hi <= k < |s| ==> s[k] >= x
    {
      var mid := (it + hi) / 2;
      if s[mid] < x { it := mid + 1; } else { hi := mid; }
    }
  }

  method Added(s: seq<nat>, x: nat) returns (r: seq<nat>)
    requires Increasing(s)
    ensures r == Insert(s, x)
  {
    var it := LowerBound(s, x);
    InsertLaw(s, x);
    if it == |s| || s[it] != x {
      r := s[..it] + [x] + s[it..];
      assert forall y :: y in s <==> y in s[..it] || y in s[it..];
    } else {
      r := s;
    }
    Canonical(r, Insert(s, x));
  }

  method Removed(s: seq<nat>, x: nat) returns (r: seq<nat>)
    requires Increasing(s)
    ensures r == Without(s, [x])
  {
    var it := LowerBound(s, x);
    WithoutLaw(s, [x]);
    if it < |s| && s[it] == x {
      r := s[..it] + s[it + 1..];
      assert s == s[..it] + [x] + s[it + 1..];
    } else {
      r := s;
    }
    Canonical(r, Without(s, [x]));
  }

  /** `std::binary_search`. */
  method Contains(s: seq<nat>, x: nat) returns (found: bool)
    requires Increasing(s)
    ensures found == (x in s)
  {
    var it := LowerBound(s, x);
    found := it < |s| && s[it] == x;
  }

  /** `std::set_difference` walks both lists once, so it relies on both being sorted. */
  method Difference(s: seq<nat>, t: seq<nat>) returns (r: seq<nat>)
    requires Increasing(s) && Increasing(t)
    ensures r == Without(s, t)
  {
    r := [];
    var i, j := 0, 0;
    while i < |s|
      invariant 0 <= i <= |s| && 0 <= j <= |t|
      invariant i < |s| ==> forall k :: 0 <= k < j ==> t[k] < s[i]
      invariant r + Without(s[i..], t) == Without(s, t)
      decreases |s| - i + |t| - j
    {
      if j == |t| || s[i] < t[j] {
        assert s[i] !in t;
        assert s[i..][1..] == s[i + 1..];
        r := r + [s[i]];
        i := i + 1;
      } else if t[j] < s[i] {
        j := j + 1;
      } else {
        assert s[i] in t;
        assert s[i..][1..] == s[i + 1..];
        i, j := i + 1, j + 1;
      }
    }
  }
}
