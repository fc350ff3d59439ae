/** Which extended attributes stay in the inode and which go to the shared table. */
module XattrSpill {
  import opened Sums
  import opened Options

  /** The numbers below `n`. */
  function Below(n: nat): (s: set<nat>)
    ensures |s| == n
    ensures forall i :: i in s <==> 0 <= i < n
  {
    if n == 0 then {} else Below(n - 1) + {n - 1}
  }

  function All(sizes: seq<nat>): set<nat> {
    Below(|sizes|)
  }

  ghost function SumOf(sizes: seq<nat>, s: set<nat>): int
    requires s <= All(sizes)
  {
    Sum(SizeMap(sizes, s))
  }

  ghost function SizeMap(sizes: seq<nat>, s: set<nat>): map<nat, int>
    requires s <= All(sizes)
  {
    map i | i in s :: sizes[i]
  }

  lemma SumOfNone(sizes: seq<nat>)
    ensures SumOf(sizes, {}) == 0
  {
    assert SizeMap(sizes, {}) == map[];
  }

  /** The inode's attribute area: a header, an id for each shared entry, the other entries in full. */
  ghost function Taken(sizes: seq<nat>, s: set<nat>): int
    requires s <= All(sizes)
  {
    12 + 4 * |s| + SumOf(sizes, All(sizes)) - SumOf(sizes, s)
  }

  ghost predicate FitsWith(sizes: seq<nat>, max: int, s: set<nat>)
    requires s <= All(sizes)
  {
    Taken(sizes, s) <= max
  }

  /** Fits, with no more entries spilled than in any choice that fits, and of those the most bytes. */
  ghost predicate Best(sizes: seq<nat>, max: int, s: set<nat>) {
    && s <= All(sizes) && FitsWith(sizes, max, s)
    && (forall t | t <= All(sizes) && FitsWith(sizes, max, t) :: |s| <= |t|)
    && forall t | t <= All(sizes) && |t| == |s| :: SumOf(sizes, t) <= SumOf(sizes, s)
  }

  /** Any two best choices leave areas of the same length. */
  lemma BestTakes(sizes: seq<nat>, max: int, s: set<nat>, t: set<nat>)
    requires Best(sizes, max, s) && Best(sizes, max, t)
    ensures Taken(sizes, s) == Taken(sizes, t)
  {
    hide SumOf, Below;
  }

  /** Only entries longer than an id are spilled. */
  lemma BestSpillsLong(sizes: seq<nat>, max: int, s: set<nat>, i: nat)
    requires Best(sizes, max, s) && i in s
    ensures sizes[i] > 4
  {
    hide SumOf, Below;
    var fewer := s - {i};
    assert s == fewer + {i};
    SumAdd(sizes, fewer, i);
    assert sizes[i] <= 4 ==> FitsWith(sizes, max, fewer) && |fewer| < |s|;
  }

  lemma SumAdd(sizes: seq<nat>, s: set<nat>, i: nat)
    requires s <= All(sizes) && i in All(sizes) && i !in s
    ensures SumOf(sizes, s + {i}) == SumOf(sizes, s) + sizes[i]
  {
    assert SizeMap(sizes, s + {i}) == SizeMap(sizes, s)[i := sizes[i]];
    SumUpdate(SizeMap(sizes, s), i, sizes[i]);
  }

  /** Of all sets of a size, one that holds the largest entries holds the most bytes. */
  lemma {:induction false} LargestHoldMost(sizes: seq<nat>, best: set<nat>, s: set<nat>)
    requires best <= All(sizes) && s <= All(sizes) && |s| == |best|
    requires forall a, b | a in best && b in All(sizes) && b !in best :: sizes[a] >= sizes[b]
    ensures SumOf(sizes, s) <= SumOf(sizes, best)
    decreases |s - best|
  {
    hide Below, SumOf;
    if s <= best {
      SameSize(s, best);
    } else {
      var a :| a in s && a !in best;
      Elsewhere(s, best);
      var b :| b in best && b !in s;
      var rest := s - {a};
      var swapped := rest + {b};
      assert s == rest + {a};
      SumAdd(sizes, rest, a);
      SumAdd(sizes, rest, b);
      assert swapped - best == (s - best) - {a};
      LargestHoldMost(sizes, best, swapped);
    }
  }

  lemma SameSize(s: set<nat>, t: set<nat>)
    requires s <= t && |s| == |t|
    ensures s == t
  {
    assert t == s + (t - s);
    assert |t - s| == 0;
  }

  lemma Elsewhere(s: set<nat>, t: set<nat>)
    requires |s| == |t| && !(s <= t)
    ensures exists b :: b in t && b !in s
  {
    if t <= s {
      SameSize(t, s);
    }
  }

  /** Entries are at least four bytes, so what stays inline is worth at least an id each. */
  lemma {:induction false} AtLeastFour(sizes: seq<nat>, s: set<nat>)
    requires s <= All(sizes) && forall i | 0 <= i < |sizes| :: sizes[i] >= 4
    ensures SumOf(sizes, s) >= 4 * |s|
    decreases |s|
  {
    if s == {} {
      SumOfNone(sizes);
    } else {
      var i :| i in s;
      var rest := s - {i};
      assert s == rest + {i};
      AtLeastFour(sizes, rest);
      SumAdd(sizes, rest, i);
    }
  }

  lemma SumSplitOff(sizes: seq<nat>, s: set<nat>)
    requires s <= All(sizes)
    ensures SumOf(sizes, All(sizes)) == SumOf(sizes, s) + SumOf(sizes, All(sizes) - s)
  {
    SumUnion(sizes, s, All(sizes) - s);
    assert s + (All(sizes) - s) == All(sizes);
  }

  lemma {:induction false} SumUnion(sizes: seq<nat>, s: set<nat>, t: set<nat>)
    requires s <= All(sizes) && t <= All(sizes) && s !! t
    ensures SumOf(sizes, s + t) == SumOf(sizes, s) + SumOf(sizes, t)
    decreases |t|
  {
    hide Below, SumOf;
    if t == {} {
      assert s + t == s;
      SumOfNone(sizes);
    } else {
      var i :| i in t;
      var rest := t - {i};
      assert t == rest + {i} && s + t == (s + rest) + {i};
      SumUnion(sizes, s, rest);
      SumAdd(sizes, rest, i);
      SumAdd(sizes, s + rest, i);
    }
  }

  /** When spilling everything does not fit, nothing does. */
  lemma NothingFits(sizes: seq<nat>, max: int, s: set<nat>)
    requires s <= All(sizes) && (forall i | 0 <= i < |sizes| :: sizes[i] >= 4) && !FitsWith(sizes, max, All(sizes))
    ensures !FitsWith(sizes, max, s)
  {
    SumSplitOff(sizes, s);
    AtLeastFour(sizes, All(sizes) - s);
    assert |All(sizes)| == |s| + |All(sizes) - s| by {
      assert All(sizes) == s + (All(sizes) - s);
    }
  }

  /** Spill entries, the largest first, until the rest fits. No choice that fits spills fewer, none of that many entries
      leaves a shorter area, and it gives up only when no choice fits. */
  method Spill(sizes: seq<nat>, max: int) returns (r: Option<set<nat>>)
    requires forall i | 0 <= i < |sizes| :: sizes[i] >= 4
    ensures r.Some? ==> Best(sizes, max, r.value)
    ensures r.None? ==> forall s | s <= All(sizes) :: !FitsWith(sizes, max, s)
  {
    hide SumOf;
    var inline := Total(sizes);
    SumOfNone(sizes);
    if 12 + inline <= max {
      NoneIsBest(sizes, max);
      return Some({});
    }
    var spilled: set<nat> := {};
    while |spilled| < |sizes| && 12 + 4 * |spilled| + inline > max
      invariant spilled <= All(sizes) && inline == SumOf(sizes, All(sizes)) - SumOf(sizes, spilled)
      invariant forall a, b | a in spilled && b in All(sizes) && b !in spilled :: sizes[a] >= sizes[b]
      invariant forall s | s <= All(sizes) && |s| < |spilled| :: !FitsWith(sizes, max, s)
      decreases |sizes| - |spilled|
    {
      forall s | s <= All(sizes) && |s| == |spilled|
        ensures !FitsWith(sizes, max, s)
      {
        LargestHoldMost(sizes, spilled, s);
      }
      var i := Largest(sizes, spilled);
      SumAdd(sizes, spilled, i);
      inline := inline - sizes[i];
      spilled := spilled + {i};
    }
    if 12 + 4 * |spilled| + inline > max {
      Everything(sizes, spilled);
      forall s | s <= All(sizes)
        ensures !FitsWith(sizes, max, s)
      {
        NothingFits(sizes, max, s);
      }
      return None;
    }
    forall s | s <= All(sizes) && |s| == |spilled|
      ensures SumOf(sizes, s) <= SumOf(sizes, spilled)
    {
      LargestHoldMost(sizes, spilled, s);
    }
    r := Some(spilled);
  }

  lemma NoneIsBest(sizes: seq<nat>, max: int)
    requires FitsWith(sizes, max, {})
    ensures Best(sizes, max, {})
  {
    hide SumOf, Below;
    forall t: set<nat> | |t| == 0
      ensures t == {}
    {
    }
  }

  lemma Everything(sizes: seq<nat>, s: set<nat>)
    requires s <= All(sizes) && |s| >= |sizes|
    ensures s == All(sizes)
  {
    assert All(sizes) == s + (All(sizes) - s);
    assert |All(sizes) - s| == 0;
  }

  method Total(sizes: seq<nat>) returns (total: nat)
    ensures total == SumOf(sizes, All(sizes))
  {
    hide Below, SumOf;
    total := 0;
    var i := 0;
    SumOfNone(sizes);
    ghost var seen: set<nat> := {};
    while i < |sizes|
      invariant 0 <= i <= |sizes| && seen == Below(i) && seen <= All(sizes) && total == SumOf(sizes, seen)
    {
      SumAdd(sizes, seen, i);
      total, seen := total + sizes[i], seen + {i};
      assert seen == Below(i + 1);
      i := i + 1;
    }
    assert seen == All(sizes);
  }

  lemma SomeLeft(sizes: seq<nat>, spilled: set<nat>)
    requires spilled <= All(sizes) && |spilled| < |sizes|
    ensures exists i :: 0 <= i < |sizes| && i !in spilled
  {
    assert spilled != All(sizes);
    assert exists i :: i in All(sizes) && i !in spilled;
  }

  /** The largest entry not spilled yet; the first in key order among equals. */
  method Largest(sizes: seq<nat>, spilled: set<nat>) returns (i: nat)
    requires spilled <= All(sizes) && |spilled| < |sizes|
    ensures i in All(sizes) && i !in spilled
    ensures forall b | b in All(sizes) && b !in spilled :: sizes[b] <= sizes[i]
    ensures forall b | b in All(sizes) && b !in spilled && sizes[b] == sizes[i] :: i <= b
  {
    var best: Option<nat> := None;
    var k := 0;
    while k < |sizes|
      invariant 0 <= k <= |sizes|
      invariant best.None? ==> forall b | 0 <= b < k :: b in spilled
      invariant best.Some? ==> best.value < k && best.value !in spilled
      invariant best.Some? ==> forall b | 0 <= b < k && b !in spilled ::
                 sizes[b] <= sizes[best.value] && (sizes[b] == sizes[best.value] ==> best.value <= b)
    {
      if k !in spilled && (best.None? || sizes[k] > sizes[best.value]) {
        best := Some(k);
      }
      k := k + 1;
    }
    SomeLeft(sizes, spilled);
    i := best.value;
  }
}
