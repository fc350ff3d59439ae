/** Sums over finite maps. */
module Sums {

  ghost function Sum<K>(m: map<K, int>): int
    decreases |m|
  {
    if m == map[] then 0 else
    var k :| k in m;
    Shrinks(m, k);
    m[k] + Sum(m - {k})
  }

  lemma Shrinks<K, V>(m: map<K, V>, k: K)
    requires k in m
    ensures |m - {k}| < |m|
  {
    assert (m - {k}).Keys == m.Keys - {k};
  }

  /** Any key may be taken out first. */
  lemma {:induction false} SumSplit<K>(m: map<K, int>, k: K)
    requires k in m
    ensures Sum(m) == m[k] + Sum(m - {k})
    decreases |m|
  {
    var j :| j in m && Sum(m) == m[j] + Sum(m - {j});
    if j != k {
      Shrinks(m, j);
      Shrinks(m, k);
      SumSplit(m - {j}, k);
      SumSplit(m - {k}, j);
      assert m - {j} - {k} == m - {k} - {j};
    }
  }

  lemma SumUpdate<K>(m: map<K, int>, k: K, v: int)
    ensures Sum(m[k := v]) == Sum(m) - (if k in m then m[k] else 0) + v
  {
    SumSplit(m[k := v], k);
    assert m[k := v] - {k} == m - {k};
    if k in m {
      SumSplit(m, k);
    } else {
      assert m - {k} == m;
    }
  }

  lemma SumDrop<K>(m: map<K, int>, k: K)
    ensures Sum(m - {k}) == Sum(m) - if k in m then m[k] else 0
  {
    if k in m {
      SumSplit(m, k);
    } else {
      assert m - {k} == m;
    }
  }

  lemma {:induction false} SumNonNegative<K>(m: map<K, int>)
    requires forall k | k in m :: m[k] >= 0
    ensures Sum(m) >= 0
    decreases |m|
  {
    if m != map[] {
      var k :| k in m && Sum(m) == m[k] + Sum(m - {k});
      Shrinks(m, k);
      SumNonNegative(m - {k});
    }
  }

  lemma {:induction false} SumSubset<K>(part: map<K, int>, whole: map<K, int>)
    requires part.Keys <= whole.Keys && forall k | k in part :: part[k] == whole[k]
    requires forall k | k in whole :: whole[k] >= 0
    ensures Sum(part) <= Sum(whole)
    decreases |part|
  {
    if part == map[] {
      SumNonNegative(whole);
    } else {
      var k :| k in part;
      Shrinks(part, k);
      SumSubset(part - {k}, whole - {k});
      SumDrop(part, k);
      SumDrop(whole, k);
    }
  }

  /** The sum without some keys is less by what they stand for. */
  lemma {:induction false} SumWithout<K>(whole: map<K, int>, part: map<K, int>)
    requires part.Keys <= whole.Keys && forall k | k in part :: part[k] == whole[k]
    ensures Sum(whole - part.Keys) == Sum(whole) - Sum(part)
    decreases |part|
  {
    if part == map[] {
      assert whole - part.Keys == whole;
    } else {
      var k :| k in part;
      Shrinks(part, k);
      SumWithout(whole - {k}, part - {k});
      SumDrop(part, k);
      SumDrop(whole, k);
      assert whole - {k} - (part - {k}).Keys == whole - part.Keys;
    }
  }
}
