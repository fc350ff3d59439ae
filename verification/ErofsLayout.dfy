/** Where an EROFS image puts things: inode slots that do not overlap, and blocks handed out in order. */
module ErofsLayout {
  import opened Bytes
  import FlatFile

  const BLOCK: nat := 4096

  const SLOT: nat := 32

  /** The blocks that hold `n` bytes. */
  function Blocks(n: nat): (b: nat)
    ensures n <= BLOCK * b < n + BLOCK
  {
    (n + BLOCK - 1) / BLOCK
  }

  // ----- inode slots -----

  /** Each position once. */
  ghost predicate Permutation(order: seq<nat>, n: nat) {
    && |order| == n && (forall p | 0 <= p < n :: order[p] < n)
    && (forall i | 0 <= i < n :: i in order) && forall p, q | 0 <= p < q < n :: order[p] != order[q]
  }

  ghost predicate Rising(nids: seq<nat>, order: seq<nat>) {
    && (forall p | 0 <= p < |order| :: order[p] < |nids|)
    && forall p, q | 0 <= p < q < |order| :: nids[order[p]] <= nids[order[q]]
  }

  /** The nodes in inode order. */
  method SortByNid(nids: seq<nat>) returns (order: seq<nat>)
    ensures Permutation(order, |nids|) && Rising(nids, order)
  {
    hide Permutation, Rising;
    order := [];
    NothingSorted(nids);
    var i := 0;
    while i < |nids|
      invariant 0 <= i <= |nids| && Permutation(order, i) && Rising(nids, order)
    {
      order := InsertByNid(nids, order, i);
      i := i + 1;
    }
  }

  lemma NothingSorted(nids: seq<nat>)
    ensures Permutation([], 0) && Rising(nids, [])
  {
  }

  method InsertByNid(nids: seq<nat>, order: seq<nat>, i: nat) returns (more: seq<nat>)
    requires i < |nids| && Permutation(order, i) && Rising(nids, order)
    ensures Permutation(more, i + 1) && Rising(nids, more)
  {
    var p := |order|;
    while p > 0 && nids[order[p - 1]] > nids[i]
      invariant 0 <= p <= |order| && forall q | p <= q < |order| :: nids[order[q]] > nids[i]
    {
      p := p - 1;
    }
    more := order[..p] + [i] + order[p..];
    Inserted(nids, order, i, p);
  }

  lemma Inserted(nids: seq<nat>, order: seq<nat>, i: nat, p: nat)
    requires i < |nids| && Permutation(order, i) && Rising(nids, order) && p <= |order|
    requires forall q | p <= q < |order| :: nids[order[q]] > nids[i]
    requires p > 0 ==> nids[order[p - 1]] <= nids[i]
    ensures var more := order[..p] + [i] + order[p..]; Permutation(more, i + 1) && Rising(nids, more)
  {
    var more := order[..p] + [i] + order[p..];
    InsertedOnce(order, i, p);
    forall q | 0 <= q < p
      ensures nids[order[q]] <= nids[i]
    {
      assert q < p - 1 ==> nids[order[q]] <= nids[order[p - 1]];
    }
  }

  lemma InsertedOnce(order: seq<nat>, i: nat, p: nat)
    requires Permutation(order, i) && p <= |order|
    ensures Permutation(order[..p] + [i] + order[p..], i + 1)
  {
    var more := order[..p] + [i] + order[p..];
    assert more[p] == i;
    forall j | 0 <= j < i + 1
      ensures j in more
    {
      if j < i {
        var q := Where(order, i, j);
        assert more[if q < p then q else q + 1] == j;
      }
    }
  }

  lemma Where(order: seq<nat>, n: nat, i: nat) returns (p: nat)
    requires Permutation(order, n) && i < n
    ensures p < |order| && order[p] == i
  {
    assert i in order;
    p :| 0 <= p < |order| && order[p] == i;
  }

  ghost predicate Distinct(nids: seq<nat>) {
    forall i, j | 0 <= i < j < |nids| :: nids[i] != nids[j]
  }

  /** Whether two nodes share an inode number: it is enough to compare neighbours. */
  method HasDuplicate(nids: seq<nat>, order: seq<nat>) returns (found: bool)
    requires Permutation(order, |nids|) && Rising(nids, order)
    ensures found <==> !Distinct(nids)
  {
    var p := 1;
    while p < |order|
      invariant |order| == 0 || 1 <= p <= |order|
      invariant forall q | 1 <= q < p && q < |order| :: nids[order[q - 1]] < nids[order[q]]
    {
      assert nids[order[p - 1]] <= nids[order[p]];
      if nids[order[p - 1]] == nids[order[p]] {
        var a, b := order[p - 1], order[p];
        assert a != b;
        assert nids[Min(a, b)] == nids[Max(a, b)];
        return true;
      }
      p := p + 1;
    }
    NeighboursDiffer(nids, order);
    found := false;
  }

  lemma NeighboursDiffer(nids: seq<nat>, order: seq<nat>)
    requires Permutation(order, |nids|) && Rising(nids, order)
    requires forall q | 1 <= q < |order| :: nids[order[q - 1]] < nids[order[q]]
    ensures Distinct(nids)
  {
    forall i, j | 0 <= i < j < |nids|
      ensures nids[i] != nids[j]
    {
      var p := Where(order, |nids|, i);
      var q := Where(order, |nids|, j);
      if p < q {
        assert nids[order[q - 1]] < nids[order[q]];
        assert p < q - 1 ==> nids[order[p]] <= nids[order[q - 1]];
      } else {
        assert nids[order[p - 1]] < nids[order[p]];
        assert q < p - 1 ==> nids[order[q]] <= nids[order[p - 1]];
      }
    }
  }

  predicate Clear(nids: seq<nat>, counts: seq<nat>, i: nat, j: nat)
    requires i < |nids| == |counts| && j < |nids|
  {
    nids[i] + counts[i] <= nids[j] || nids[j] + counts[j] <= nids[i]
  }

  ghost predicate AllClear(nids: seq<nat>, counts: seq<nat>) {
    |nids| == |counts| && forall i, j | 0 <= i < j < |nids| :: Clear(nids, counts, i, j)
  }

  /** Whether two nodes' slots overlap: again neighbours tell. */
  method HasOverlap(nids: seq<nat>, counts: seq<nat>, order: seq<nat>) returns (found: bool)
    requires |counts| == |nids| && Permutation(order, |nids|) && Rising(nids, order) && Distinct(nids)
    ensures found <==> !AllClear(nids, counts)
  {
    var p := 1;
    while p < |order|
      invariant |order| == 0 || 1 <= p <= |order|
      invariant forall q | 1 <= q < p && q < |order| :: nids[order[q - 1]] + counts[order[q - 1]] <= nids[order[q]]
    {
      if nids[order[p - 1]] + counts[order[p - 1]] > nids[order[p]] {
        var a, b := order[p - 1], order[p];
        assert a != b && nids[a] <= nids[b];
        assert !Clear(nids, counts, Min(a, b), Max(a, b));
        return true;
      }
      p := p + 1;
    }
    NeighboursClear(nids, counts, order);
    found := false;
  }

  lemma NeighboursClear(nids: seq<nat>, counts: seq<nat>, order: seq<nat>)
    requires |counts| == |nids| && Permutation(order, |nids|) && Rising(nids, order)
    requires forall q | 1 <= q < |order| :: nids[order[q - 1]] + counts[order[q - 1]] <= nids[order[q]]
    ensures AllClear(nids, counts)
  {
    forall i, j | 0 <= i < j < |nids|
      ensures Clear(nids, counts, i, j)
    {
      var p := Where(order, |nids|, i);
      var q := Where(order, |nids|, j);
      if p < q {
        assert nids[order[p]] + counts[order[p]] <= nids[order[p + 1]];
        assert p + 1 < q ==> nids[order[p + 1]] <= nids[order[q]];
      } else {
        assert nids[order[q]] + counts[order[q]] <= nids[order[q + 1]];
        assert q + 1 < p ==> nids[order[q + 1]] <= nids[order[p]];
      }
    }
  }

  /** The slots the image needs. */
  method MaxSlot(nids: seq<nat>, counts: seq<nat>) returns (max: nat)
    requires |nids| == |counts|
    ensures forall i | 0 <= i < |nids| :: nids[i] + counts[i] <= max
    ensures max == 0 || exists i :: 0 <= i < |nids| && max == nids[i] + counts[i]
  {
    max := 0;
    var i := 0;
    while i < |nids|
      invariant 0 <= i <= |nids| && forall j | 0 <= j < i :: nids[j] + counts[j] <= max
      invariant max == 0 || exists j :: 0 <= j < |nids| && max == nids[j] + counts[j]
    {
      if nids[i] + counts[i] > max {
        max := nids[i] + counts[i];
      }
      i := i + 1;
    }
  }

  // ----- data blocks -----

  /** Node `i` has data and is of the kind being placed. */
  predicate Chosen(lens: seq<nat>, dirs: seq<bool>, which: bool, i: nat) {
    i < |lens| == |dirs| && lens[i] > 0 && dirs[i] == which
  }

  /** The chosen nodes below `n` have blocks of their own in [from, to). */
  ghost predicate Placed(lens: seq<nat>, dirs: seq<bool>, which: bool, blks: seq<nat>, from: nat, to: nat, n: nat) {
    && |blks| == |lens| && from <= to
    && (forall i | 0 <= i < n && Chosen(lens, dirs, which, i) :: from <= blks[i] && blks[i] + Blocks(lens[i]) <= to)
    && forall i, j | 0 <= i < j < n && Chosen(lens, dirs, which, i) && Chosen(lens, dirs, which, j) ::
         blks[i] + Blocks(lens[i]) <= blks[j]
  }

  /** Give every directory, or every file, its blocks. */
  method AssignBlocks(lens: seq<nat>, dirs: seq<bool>, which: bool, blks0: seq<nat>, start: nat)
      returns (blks: seq<nat>, end: nat)
    requires |dirs| == |lens| == |blks0|
    ensures Placed(lens, dirs, which, blks, start, end, |lens|)
    ensures forall i | 0 <= i < |lens| && !Chosen(lens, dirs, which, i) :: blks[i] == blks0[i]
  {
    blks, end := blks0, start;
    var i := 0;
    while i < |lens|
      invariant 0 <= i <= |lens| && Placed(lens, dirs, which, blks, start, end, i)
      invariant forall j | 0 <= j < |lens| && !Chosen(lens, dirs, which, j) :: blks[j] == blks0[j]
    {
      if dirs[i] == which && lens[i] > 0 {
        blks := blks[i := end];
        end := end + Blocks(lens[i]);
      }
      i := i + 1;
    }
  }

  // ----- writing -----

  datatype Patch = Patch(off: nat, bytes: seq<Byte>)

  predicate Apart(p: Patch, q: Patch) {
    p.off + |p.bytes| <= q.off || q.off + |q.bytes| <= p.off
  }

  predicate Holds(image: seq<Byte>, p: Patch) {
    p.off + |p.bytes| <= |image| && image[p.off..p.off + |p.bytes|] == p.bytes
  }

  ghost predicate AllApart(ps: seq<Patch>) {
    forall i, j | 0 <= i < j < |ps| :: Apart(ps[i], ps[j])
  }

  ghost predicate Within(ps: seq<Patch>, lo: nat, hi: nat) {
    forall i | 0 <= i < |ps| :: lo <= ps[i].off && ps[i].off + |ps[i].bytes| <= hi
  }

  /** Patches below a point and patches above it do not meet. */
  lemma ApartJoin(a: seq<Patch>, b: seq<Patch>, lo: nat, mid: nat, hi: nat)
    requires AllApart(a) && AllApart(b) && Within(a, lo, mid) && Within(b, mid, hi) && lo <= mid <= hi
    ensures AllApart(a + b) && Within(a + b, lo, hi)
  {
  }

  lemma ApartPrefix(a: seq<Patch>, b: seq<Patch>)
    requires AllApart(a + b)
    ensures AllApart(a)
  {
    forall i, j | 0 <= i < j < |a|
      ensures Apart(a[i], a[j])
    {
      assert (a + b)[i] == a[i] && (a + b)[j] == a[j];
    }
  }

  lemma StillHolds(image: seq<Byte>, p: Patch, q: Patch)
    requires Holds(image, p) && Apart(p, q)
    ensures Holds(FlatFile.Write(image, q.off, q.bytes), p)
  {
    var next := FlatFile.Write(image, q.off, q.bytes);
    forall k | 0 <= k < |p.bytes|
      ensures next[p.off..p.off + |p.bytes|][k] == p.bytes[k]
    {
      assert image[p.off..p.off + |p.bytes|][k] == image[p.off + k];
      assert next[p.off + k] == At(image, p.off + k);
    }
  }

  lemma NowHolds(image: seq<Byte>, q: Patch)
    ensures Holds(FlatFile.Write(image, q.off, q.bytes), q)
  {
    var next := FlatFile.Write(image, q.off, q.bytes);
    assert next[q.off..q.off + |q.bytes|] == q.bytes;
  }

  /** The file the image goes to, and what has been written to it. */
  class Disk {
    var bytes: seq<Byte>
    ghost var written: seq<Patch>

    constructor ()
      ensures Valid() && written == [] && bytes == []
    {
      bytes, written := [], [];
    }

    /** Nothing written has been overwritten. */
    ghost predicate Valid()
      reads this
    {
      AllApart(written) && forall i | 0 <= i < |written| :: Holds(bytes, written[i])
    }

    method WriteAt(data: seq<Byte>, off: nat)
      requires Valid() && data != [] && AllApart(written + [Patch(off, data)])
      modifies this
      ensures Valid() && written == old(written) + [Patch(off, data)] && bytes == FlatFile.Write(old(bytes), off, data)
    {
      hide Holds, Apart;
      ghost var p := Patch(off, data);
      ghost var all := written + [p];
      ghost var was := bytes;
      bytes := FlatFile.Write(bytes, off, data);
      NowHolds(was, p);
      forall i | 0 <= i < |all|
        ensures Holds(bytes, all[i])
      {
        if i < |written| {
          assert Apart(all[i], all[|written|]);
          StillHolds(was, all[i], p);
        }
      }
      written := all;
    }

    /** Several writes in turn. */
    method WriteAll(ps: seq<Patch>)
      requires Valid() && AllApart(written + ps) && forall i | 0 <= i < |ps| :: ps[i].bytes != []
      modifies this
      ensures Valid() && written == old(written) + ps
    {
      hide Holds, Apart;
      var i := 0;
      while i < |ps|
        invariant 0 <= i <= |ps| && Valid() && written == old(written) + ps[..i]
      {
        assert ps[..i + 1] == ps[..i] + [ps[i]];
        assert old(written) + ps == (written + [ps[i]]) + ps[i + 1..];
        ApartPrefix(written + [ps[i]], ps[i + 1..]);
        WriteAt(ps[i].bytes, ps[i].off);
        i := i + 1;
      }
      assert ps[..|ps|] == ps;
    }
  }
}
