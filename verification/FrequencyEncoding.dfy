/**
 Recoding of values by frequency: the most frequent value gets code 0, and so on.
 The table of values in code order is what the decoder needs to invert the codes.
 */
module FrequencyEncoding {

  /** `a` precedes `b`: it is more frequent in `s`, or equally frequent and smaller. */
  predicate Precedes(s: seq<nat>, a: nat, b: nat) {
    multiset(s)[a] > multiset(s)[b] || (multiset(s)[a] == multiset(s)[b] && a < b)
  }

  /** `t` lists the distinct values of `s`, most frequent first, smaller first among equals. */
  ghost predicate IsTable(s: seq<nat>, t: seq<nat>) {
    && (forall v :: v in t <==> v in s)
    && forall i, j :: 0 <= i < j < |t| ==> Precedes(s, t[i], t[j])
  }

  lemma TableIsInjective(s: seq<nat>, t: seq<nat>, i: nat, j: nat)
    requires IsTable(s, t) && i < |t| && j < |t| && t[i] == t[j]
    ensures i == j
  {
    assert i < j ==> Precedes(s, t[i], t[j]);
    assert j < i ==> Precedes(s, t[j], t[i]);
  }

  /** There is only one such table, whatever order a sorting algorithm meets the values in. */
  lemma {:induction false} TableIsUnique(s: seq<nat>, t: seq<nat>, u: seq<nat>, k: nat)
    requires IsTable(s, t) && IsTable(s, u) && k <= |t| && k <= |u|
    ensures t[..k] == u[..k]
    ensures k == |t| ==> |u| == |t|
  {
    if k > 0 {
      TableIsUnique(s, t, u, k - 1);
      NotLater(s, t, u, k - 1);
      NotLater(s, u, t, k - 1);
      assert t[..k] == t[..k - 1] + [t[k - 1]] && u[..k] == u[..k - 1] + [u[k - 1]];
    }
    if |u| > k {
      forall i | 0 <= i < k
        ensures t[i] != u[k]
      {
        assert t[..k][i] == u[i];
        assert Precedes(s, u[i], u[k]);
      }
      assert u[k] in t;
    }
  }

  lemma NotLater(s: seq<nat>, t: seq<nat>, u: seq<nat>, k: nat)
    requires IsTable(s, t) && IsTable(s, u) && k < |t| && k < |u|
    requires t[..k] == u[..k]
    ensures t[k] == u[k] || Precedes(s, t[k], u[k])
  {
    var i :| 0 <= i < |t| && t[i] == u[k] by { assert u[k] in t; }
    assert i < k ==> t[..k][i] == u[i] && Precedes(s, u[i], u[k]);
  }

  // ---------------------------------------------------------------------------
  // Encoding
  // ---------------------------------------------------------------------------

  /** Counts every value: the first pass of the encoder. */
  method CountValues(input: array<nat>) returns (counts: map<nat, nat>)
    ensures counts.Keys == set v | v in input[..]
    ensures forall v :: v in counts ==> counts[v] == multiset(input[..])[v]
  {
    counts := map[];
    for i := 0 to input.Length
      invariant forall v :: v in counts <==> v in input[..i]
      invariant forall v :: v in counts ==> counts[v] == multiset(input[..i])[v]
    {
      var v := input[i];
      assert input[..i + 1] == input[..i] + [v];
      counts := counts[v := (if v in counts then counts[v] else 0) + 1];
    }
    assert input[..input.Length] == input[..];
  }

  predicate Ranks(counts: map<nat, nat>, a: nat, b: nat)
    requires a in counts && b in counts
  {
    counts[a] > counts[b] || (counts[a] == counts[b] && a < b)
  }

  ghost predicate Ranked(counts: map<nat, nat>, t: seq<nat>) {
    && (forall i :: 0 <= i < |t| ==> t[i] in counts)
    && forall i, j :: 0 <= i < j < |t| ==> Ranks(counts, t[i], t[j])
  }

  /** Puts one more value into its place in the ranking. */
  method InsertRanked(counts: map<nat, nat>, t: seq<nat>, v: nat) returns (r: seq<nat>)
    requires Ranked(counts, t) && v in counts && v !in t
    ensures Ranked(counts, r)
    ensures forall x :: x in r <==> x in t || x == v
  {
    var k := 0;
    while k < |t| && Ranks(counts, t[k], v)
      invariant k <= |t|
      invariant forall i :: 0 <= i < k ==> Ranks(counts, t[i], v)
    {
      k := k + 1;
    }
    r := t[..k] + [v] + t[k..];
    assert forall i :: k <= i < |t| ==> Ranks(counts, v, t[i]) by {
      assert k < |t| ==> t[k] != v;
    }
    assert t == t[..k] + t[k..];
  }

  /** The sort of the (frequency, value) pairs. Any order of visiting the values gives the same ranking. */
  method SortByFrequency(counts: map<nat, nat>) returns (t: seq<nat>)
    ensures Ranked(counts, t)
    ensures forall v :: v in t <==> v in counts
  {
    t := [];
    var rest := counts.Keys;
    while rest != {}
      invariant Ranked(counts, t)
      invariant rest <= counts.Keys
      invariant forall v :: v in t <==> v in counts && v !in rest
      decreases rest
    {
      var v :| v in rest;
      t := InsertRanked(counts, t, v);
      rest := rest - {v};
    }
  }

  /**
   The encoder. `output` may be the same array as `input`: each position is read
   just before it is overwritten.
   */
  method EncodeFrequency(input: array<nat>, output: array<nat>) returns (sortedValues: seq<nat>, indexMap: seq<nat>)
    requires input.Length == output.Length < 0x1_0000_0000
    modifies output
    ensures IsTable(old(input[..]), sortedValues)
    ensures |indexMap| == |sortedValues| && forall k :: 0 <= k < |indexMap| ==> indexMap[k] == k
    ensures forall i :: 0 <= i < output.Length ==>
            output[i] < |sortedValues| && sortedValues[output[i]] == old(input[i])
  {
    ghost var s := input[..];
    var counts := CountValues(input);
    sortedValues := SortByFrequency(counts);
    var codes := AssignCodes(counts, sortedValues);
    indexMap := [];
    for k := 0 to |sortedValues|
      invariant |indexMap| == k && forall j :: 0 <= j < k ==> indexMap[j] == j
    {
      indexMap := indexMap + [codes[sortedValues[k]]];
    }
    RankingIsTable(s, counts, sortedValues);
    for i := 0 to input.Length
      invariant forall j :: i <= j < input.Length ==> input[j] == s[j]
      invariant forall j :: 0 <= j < i ==> output[j] < |sortedValues| && sortedValues[output[j]] == s[j]
    {
      assert s[i] in s;
      var code := codes[input[i]];
      output[i] := code;
    }
  }

  /** The value-to-code map: codes are handed out in table order. */
  method AssignCodes(counts: map<nat, nat>, t: seq<nat>) returns (codes: map<nat, nat>)
    requires Ranked(counts, t)
    ensures forall k :: 0 <= k < |t| ==> t[k] in codes && codes[t[k]] == k
  {
    codes := map[];
    var code := 0;
    while code < |t|
      invariant code <= |t|
      invariant forall k :: 0 <= k < code ==> t[k] in codes && codes[t[k]] == k
    {
      assert forall k :: 0 <= k < code ==> Ranks(counts, t[k], t[code]);
      codes := codes[t[code] := code];
      code := code + 1;
    }
  }

  lemma RankingIsTable(s: seq<nat>, counts: map<nat, nat>, t: seq<nat>)
    requires counts.Keys == set v | v in s
    requires forall v :: v in counts ==> counts[v] == multiset(s)[v]
    requires Ranked(counts, t) && forall v :: v in t <==> v in counts
    ensures IsTable(s, t)
  {
    forall i, j | 0 <= i < j < |t|
      ensures Precedes(s, t[i], t[j])
    {
      assert Ranks(counts, t[i], t[j]);
    }
    assert forall v :: v in counts <==> v in s;
  }

  // ---------------------------------------------------------------------------
  // Decoding
  // ---------------------------------------------------------------------------

  /** The decoder: fills the code table, then looks every code up. Input and output may be the same array. */
  method DecodeFrequency(encoded: array<nat>, decoded: array<nat>, sortedValues: seq<nat>, indexMap: seq<nat>)
    requires encoded.Length == decoded.Length
    requires |indexMap| == |sortedValues|
    requires forall k :: 0 <= k < |indexMap| ==> indexMap[k] < |sortedValues|
    requires forall k, l :: 0 <= k < l < |indexMap| ==> indexMap[k] != indexMap[l]
    requires forall i :: 0 <= i < encoded.Length ==> encoded[i] < |sortedValues|
    modifies decoded
    ensures forall i, k :: 0 <= i < decoded.Length && 0 <= k < |indexMap| ==>
                             (indexMap[k] == old(encoded[i]) ==> decoded[i] == sortedValues[k])
  {
    var codeToValue := new nat[|sortedValues|];
    for k := 0 to |sortedValues|
      invariant forall l :: 0 <= l < k ==> codeToValue[indexMap[l]] == sortedValues[l]
      invariant forall i :: 0 <= i < encoded.Length ==> encoded[i] == old(encoded[i])
    {
      codeToValue[indexMap[k]] := sortedValues[k];
    }
    for i := 0 to encoded.Length
      invariant forall j :: i <= j < encoded.Length ==> encoded[j] == old(encoded[j])
      invariant forall l :: 0 <= l < |indexMap| ==> codeToValue[indexMap[l]] == sortedValues[l]
      invariant forall j, k :: 0 <= j < i && 0 <= k < |indexMap| ==>
                                 (indexMap[k] == old(encoded[j]) ==> decoded[j] == sortedValues[k])
    {
      decoded[i] := codeToValue[encoded[i]];
    }
  }

  /** Codes of a table: what the encoder leaves in its output. */
  ghost predicate IsCoding(s: seq<nat>, t: seq<nat>, codes: seq<nat>) {
    && IsTable(s, t)
    && |codes| == |s|
    && forall i :: 0 <= i < |s| ==> codes[i] < |t| && t[codes[i]] == s[i]
  }

  /** Equal values get equal codes, different values different codes, and every code below the table size is used. */
  lemma CodesAreBijective(s: seq<nat>, t: seq<nat>, codes: seq<nat>)
    requires IsCoding(s, t, codes)
    ensures forall i, j :: 0 <= i < |s| && 0 <= j < |s| ==> (codes[i] == codes[j] <==> s[i] == s[j])
    ensures forall c :: 0 <= c < |t| ==> c in codes
  {
    forall i, j | 0 <= i < |s| && 0 <= j < |s| && s[i] == s[j]
      ensures codes[i] == codes[j]
    {
      TableIsInjective(s, t, codes[i], codes[j]);
    }
    forall c | 0 <= c < |t|
      ensures c in codes
    {
      assert t[c] in s;
      var i :| 0 <= i < |s| && s[i] == t[c];
      TableIsInjective(s, t, codes[i], c);
    }
  }

  /** More frequent values never get larger codes. */
  lemma CodesFollowFrequency(s: seq<nat>, t: seq<nat>, codes: seq<nat>, i: nat, j: nat)
    requires IsCoding(s, t, codes) && i < |s| && j < |s|
    ensures codes[i] < codes[j] <==> Precedes(s, s[i], s[j])
  {
    if codes[i] < codes[j] {
      assert Precedes(s, t[codes[i]], t[codes[j]]);
    } else if codes[j] < codes[i] {
      assert Precedes(s, t[codes[j]], t[codes[i]]);
    }
  }

  // ---------------------------------------------------------------------------
  // The codes are as small as one-to-one codes can be
  // ---------------------------------------------------------------------------

  function Sum(s: seq<nat>): nat {
    if s == [] then 0 else Sum(s[..|s| - 1]) + s[|s| - 1]
  }

  function Weighted(c: seq<nat>, f: seq<nat>): nat
    requires |c| == |f|
  {
    if c == [] then 0 else Weighted(c[..|c| - 1], f[..|f| - 1]) + c[|c| - 1] * f[|f| - 1]
  }

  ghost predicate Distinct(f: seq<nat>) { forall i, j :: 0 <= i < j < |f| ==> f[i] != f[j] }

  ghost predicate Descending(c: seq<nat>) { forall i, j :: 0 <= i < j < |c| ==> c[i] >= c[j] }

  function Iota(n: nat): (s: seq<nat>)
    ensures |s| == n && forall i :: 0 <= i < n ==> s[i] == i
  {
    seq(n, i => i)
  }

  lemma {:induction false} BoundedSetSize(s: set<nat>, n: nat)
    requires forall x :: x in s ==> x < n
    ensures |s| <= n
  {
    if n == 0 {
      assert s == {};
    } else {
      BoundedSetSize(s - {n - 1}, n - 1);
      assert n - 1 in s ==> |s - {n - 1}| == |s| - 1;
      assert n - 1 !in s ==> s - {n - 1} == s;
    }
  }

  lemma {:induction false} DistinctSetSize(f: seq<nat>)
    requires Distinct(f)
    ensures |set i | 0 <= i < |f| :: f[i]| == |f|
  {
    var all := set i | 0 <= i < |f| :: f[i];
    if f != [] {
      var init := f[..|f| - 1];
      DistinctSetSize(init);
      var fewer := set i | 0 <= i < |init| :: init[i];
      assert all == fewer + {f[|f| - 1]};
      assert f[|f| - 1] !in fewer;
    }
  }

  /** Among n distinct naturals, one is at least n - 1. */
  lemma LargeMember(f: seq<nat>) returns (m: nat)
    requires f != [] && Distinct(f)
    ensures m < |f| && f[m] >= |f| - 1
  {
    if i :| 0 <= i < |f| && f[i] >= |f| - 1 {
      m := i;
    } else {
      DistinctSetSize(f);
      BoundedSetSize(set i | 0 <= i < |f| :: f[i], |f| - 1);
    }
  }

  lemma {:induction false} SumWithout(f: seq<nat>, m: nat)
    requires m < |f|
    ensures Sum(f) == Sum(f[..m] + f[m + 1..]) + f[m]
  {
    var rest := f[..m] + f[m + 1..];
    if m == |f| - 1 {
      assert rest == f[..m];
    } else {
      var init := f[..|f| - 1];
      SumWithout(init, m);
      assert rest[..|rest| - 1] == init[..m] + init[m + 1..];
    }
  }

  lemma {:induction false} DistinctSum(f: seq<nat>)
    requires Distinct(f)
    ensures Sum(f) >= Sum(Iota(|f|))
    decreases |f|
  {
    if f != [] {
      var m := LargeMember(f);
      SumWithout(f, m);
      DistinctSum(f[..m] + f[m + 1..]);
      assert Iota(|f|)[..|f| - 1] == Iota(|f| - 1);
    }
  }

  lemma Distribute(x: int, y: int, z: int)
    ensures (x + y) * z == x * z + y * z && z * (x + y) == z * x + z * y
  {
  }

  lemma ProductMonotone(d: nat, x: nat, y: nat)
    requires x <= y
    ensures d * x <= d * y
  {
    Distribute(y - x, x, d);
  }

  function Lowered(c: seq<nat>, d: nat): (r: seq<nat>)
    requires forall i :: 0 <= i < |c| ==> c[i] >= d
    ensures |r| == |c| && forall i :: 0 <= i < |c| ==> r[i] == c[i] - d
  {
    seq(|c|, i requires 0 <= i < |c| => c[i] - d)
  }

  /** Taking `d` off every weight takes `d` times the plain sum off the weighted sum. */
  lemma {:induction false} LoweredSum(c: seq<nat>, f: seq<nat>, d: nat)
    requires |c| == |f| && forall i :: 0 <= i < |c| ==> c[i] >= d
    ensures Weighted(c, f) == Weighted(Lowered(c, d), f) + d * Sum(f)
    decreases |c|
  {
    if c != [] {
      var n := |c| - 1;
      LoweredSum(c[..n], f[..n], d);
      assert Lowered(c, d)[..n] == Lowered(c[..n], d);
      Distribute(c[n] - d, d, f[n]);
      Distribute(Sum(f[..n]), f[n], d);
    }
  }

  /** The rearrangement bound: descending weights meet the smallest possible total when the values ascend from 0. */
  lemma {:induction false} Rearrangement(c: seq<nat>, f: seq<nat>)
    requires |c| == |f| && Descending(c) && Distinct(f)
    ensures Weighted(c, Iota(|c|)) <= Weighted(c, f)
    decreases |c|
  {
    if c != [] {
      var n := |c| - 1;
      var d, up := c[n], Iota(|c|);
      var low := Lowered(c, d);
      LoweredSum(c, f, d);
      LoweredSum(c, up, d);
      Rearrangement(low[..n], f[..n]);
      assert up[..n] == Iota(n);
      assert low[n] * f[n] == 0 && low[n] * up[n] == 0;
      DistinctSum(f);
      ProductMonotone(d, Sum(up), Sum(f));
    }
  }

  function Assigned(s: seq<nat>, f: nat -> nat): (r: seq<nat>)
    ensures |r| == |s| && forall i :: 0 <= i < |s| ==> r[i] == f(s[i])
  {
    seq(|s|, i requires 0 <= i < |s| => f(s[i]))
  }

  function CountsIn(s: seq<nat>, t: seq<nat>): (r: seq<nat>)
    ensures |r| == |t| && forall i :: 0 <= i < |t| ==> r[i] == multiset(s)[t[i]]
  {
    seq(|t|, i requires 0 <= i < |t| => multiset(s)[t[i]])
  }

  lemma {:induction false} RaiseOne(c: seq<nat>, f: seq<nat>, p: nat)
    requires |c| == |f| && p < |c|
    ensures Weighted(c[p := c[p] + 1], f) == Weighted(c, f) + f[p]
    decreases |c|
  {
    var n, raised := |c| - 1, c[p := c[p] + 1];
    if p == n {
      assert raised[..n] == c[..n];
      Distribute(c[p], 1, f[p]);
    } else {
      assert raised[..n] == c[..n][p := c[p] + 1];
      RaiseOne(c[..n], f[..n], p);
    }
  }

  lemma CountsStep(s: seq<nat>, t: seq<nat>, p: nat)
    requires Distinct(t) && p < |t|
    ensures CountsIn(s + [t[p]], t) == CountsIn(s, t)[p := CountsIn(s, t)[p] + 1]
  {
  }

  /** A sum over the elements is a sum over the distinct values, each weighted by its count. */
  lemma {:induction false} SumByValue(s: seq<nat>, t: seq<nat>, f: nat -> nat)
    requires Distinct(t) && forall v :: v in s ==> v in t
    ensures Sum(Assigned(s, f)) == Weighted(CountsIn(s, t), Assigned(t, f))
    decreases |s|
  {
    if s == [] {
      AllZero(CountsIn(s, t), Assigned(t, f));
    } else {
      hide Weighted;
      var n := |s| - 1;
      var init := s[..n];
      SumByValue(init, t, f);
      AssignedSnoc(init, f, s[n]);
      assert s == init + [s[n]];
      assert s[n] in t;
      var p :| 0 <= p < |t| && t[p] == s[n];
      CountsStep(init, t, p);
      RaiseOne(CountsIn(init, t), Assigned(t, f), p);
    }
  }

  lemma AssignedSnoc(s: seq<nat>, f: nat -> nat, v: nat)
    ensures Sum(Assigned(s + [v], f)) == Sum(Assigned(s, f)) + f(v)
  {
    assert Assigned(s + [v], f)[..|s|] == Assigned(s, f);
  }

  lemma {:induction false} AllZero(c: seq<nat>, f: seq<nat>)
    requires |c| == |f| && forall i :: 0 <= i < |c| ==> c[i] == 0
    ensures Weighted(c, f) == 0
    decreases |c|
  {
    if c != [] { AllZero(c[..|c| - 1], f[..|f| - 1]); }
  }

  ghost predicate OneToOneOn(s: seq<nat>, f: nat -> nat) {
    forall i, j :: 0 <= i < |s| && 0 <= j < |s| && f(s[i]) == f(s[j]) ==> s[i] == s[j]
  }

  /** No assignment of different naturals to different values makes the emitted codes smaller in total. */
  lemma CodesAreMinimal(s: seq<nat>, t: seq<nat>, codes: seq<nat>, f: nat -> nat)
    requires IsCoding(s, t, codes) && OneToOneOn(s, f)
    ensures Sum(codes) <= Sum(Assigned(s, f))
  {
    var code := (v: nat) => if v in t then Position(t, v) else 0;
    CodesAreAssigned(s, t, codes, code);
    TableFacts(s, t, f);
    SumByValue(s, t, code);
    SumByValue(s, t, f);
    Rearrangement(CountsIn(s, t), Assigned(t, f));
  }

  lemma CodesAreAssigned(s: seq<nat>, t: seq<nat>, codes: seq<nat>, code: nat -> nat)
    requires IsCoding(s, t, codes)
    requires forall v :: v in t ==> code(v) < |t| && t[code(v)] == v
    ensures codes == Assigned(s, code)
    ensures Assigned(t, code) == Iota(|t|)
  {
    forall i | 0 <= i < |s|
      ensures codes[i] == code(s[i])
    {
      assert s[i] in t;
      TableIsInjective(s, t, codes[i], code(s[i]));
    }
    forall k | 0 <= k < |t|
      ensures code(t[k]) == k
    {
      assert t[k] in t;
      TableIsInjective(s, t, k, code(t[k]));
    }
  }

  lemma TableFacts(s: seq<nat>, t: seq<nat>, f: nat -> nat)
    requires IsTable(s, t) && OneToOneOn(s, f)
    ensures Distinct(t) && forall v :: v in s ==> v in t
    ensures Descending(CountsIn(s, t))
    ensures Distinct(Assigned(t, f))
  {
    forall i, j | 0 <= i < j < |t|
      ensures t[i] != t[j] && multiset(s)[t[i]] >= multiset(s)[t[j]] && f(t[i]) != f(t[j])
    {
      assert Precedes(s, t[i], t[j]);
      assert t[i] in s && t[j] in s;
      var a :| 0 <= a < |s| && s[a] == t[i];
      var b :| 0 <= b < |s| && s[b] == t[j];
      assert s[a] != s[b];
    }
  }

  function Position(t: seq<nat>, v: nat): (k: nat)
    requires v in t
    ensures k < |t| && t[k] == v
  {
    if t[0] == v then 0 else 1 + Position(t[1..], v)
  }
}
