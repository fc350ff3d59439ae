/** The checker's walk over the directory graph of an image. */
module Fsck {

  datatype Error = TooDeep | Cycle | TooMany | Unreadable(code: nat)

  datatype Result<+T> = Ok(value: T) | Err(error: Error)

  /** What expanding an inode gives: the inodes its directory names, "." and ".." aside, or why it is corrupt.
      A file names none. */
  datatype Expansion = Names(inodes: seq<nat>) | Corrupt(code: nat)

  type Graph = nat -> Expansion

  const MAX_DEPTH: nat := 100

  predicate Edge(g: Graph, a: nat, b: nat) {
    g(a).Names? && b in g(a).inodes
  }

  /** A walk along edges. */
  ghost predicate Walk(g: Graph, p: seq<nat>) {
    |p| >= 1 && forall i | 0 <= i < |p| - 1 :: Edge(g, p[i], p[i + 1])
  }

  ghost predicate Leads(g: Graph, p: seq<nat>, from: nat, to: nat) {
    Walk(g, p) && p[0] == from && p[|p| - 1] == to
  }

  ghost predicate Reachable(g: Graph, root: nat, n: nat) {
    exists p :: Leads(g, p, root, n)
  }

  /** In reach by a walk the checker may take. */
  ghost predicate Shallow(g: Graph, root: nat, n: nat) {
    exists p :: Leads(g, p, root, n) && |p| <= MAX_DEPTH
  }

  // ----- finish order -----

  /** Every finished inode was expanded, and every inode it names finished before it. */
  ghost predicate Finished(g: Graph, order: seq<nat>) {
    forall i | 0 <= i < |order| :: g(order[i]).Names? && Before(g, order, i)
  }

  ghost predicate Before(g: Graph, order: seq<nat>, i: nat)
    requires i < |order| && g(order[i]).Names?
  {
    forall c | c in g(order[i]).inodes :: c in order[..i]
  }

  ghost predicate Distinct(order: seq<nat>) {
    forall i, j | 0 <= i < j < |order| :: order[i] != order[j]
  }

  lemma FinishedMore(g: Graph, order: seq<nat>, n: nat)
    requires Finished(g, order) && g(n).Names? && forall c | c in g(n).inodes :: c in order
    ensures Finished(g, order + [n])
  {
    var more := order + [n];
    forall i | 0 <= i < |more|
      ensures g(more[i]).Names? && Before(g, more, i)
    {
      if i < |order| {
        assert Before(g, order, i);
        assert more[..i] == order[..i];
      } else {
        assert more[..i] == order;
      }
    }
  }

  /** Along a walk from a finished inode, positions in the finish order fall. */
  lemma {:induction false} WalkFalls(g: Graph, order: seq<nat>, p: seq<nat>, k: nat) returns (at: nat)
    requires Finished(g, order) && Walk(g, p) && k < |p| && p[0] in order
    ensures at < |order| && order[at] == p[k]
    ensures exists first :: 0 <= first < |order| && order[first] == p[0] && (k > 0 ==> at < first)
    decreases k
  {
    if k == 0 {
      at :| 0 <= at < |order| && order[at] == p[0];
    } else {
      var before := WalkFalls(g, order, p, k - 1);
      assert Edge(g, p[k - 1], p[k]);
      assert Before(g, order, before);
      at :| 0 <= at < before && order[at] == p[k];
    }
  }

  /** So a finish order with no repeats rules out cycles among what it holds. */
  lemma NoCycle(g: Graph, order: seq<nat>, p: seq<nat>)
    requires Finished(g, order) && Distinct(order) && Walk(g, p) && |p| > 1 && p[0] in order
    ensures p[|p| - 1] != p[0]
  {
    var at := WalkFalls(g, order, p, |p| - 1);
  }

  lemma ReachesOnlyFinished(g: Graph, order: seq<nat>, root: nat, n: nat)
    requires Finished(g, order) && root in order && Reachable(g, root, n)
    ensures n in order
  {
    var p :| Leads(g, p, root, n);
    var at := WalkFalls(g, order, p, |p| - 1);
  }

  // ----- what a refusal means -----

  /** The fault an error reports is there: a walk from the root too long, a closed walk the root reaches, more
      inodes in reach than the image declares, or a corrupt inode in reach. */
  ghost predicate Fault(g: Graph, root: nat, limit: nat, e: Error) {
    match e
    case TooDeep => exists p :: Walk(g, p) && p[0] == root && |p| == MAX_DEPTH + 1
    case Cycle => exists p :: Walk(g, p) && |p| > 1 && p[0] == p[|p| - 1] && Reachable(g, root, p[0])
    case TooMany => exists s: seq<nat> :: Distinct(s) && |s| > limit && AllReachable(g, root, s)
    case Unreadable(code) => exists n :: Reachable(g, root, n) && g(n) == Corrupt(code)
  }

  ghost predicate AllReachable(g: Graph, root: nat, s: seq<nat>) {
    forall i | 0 <= i < |s| :: Reachable(g, root, s[i])
  }

  ghost predicate AllShallow(g: Graph, root: nat, s: seq<nat>) {
    forall i | 0 <= i < |s| :: Shallow(g, root, s[i])
  }

  /** The inodes a walk passed before its last. */
  ghost function Passed(trail: seq<nat>): set<nat>
    requires trail != []
  {
    set i | 0 <= i < |trail| - 1 :: trail[i]
  }

  lemma TrailReaches(g: Graph, trail: seq<nat>, i: nat)
    requires Walk(g, trail) && i < |trail|
    ensures Reachable(g, trail[0], trail[i])
  {
    assert Leads(g, trail[..i + 1], trail[0], trail[i]);
  }

  lemma TrailCloses(g: Graph, trail: seq<nat>)
    requires Walk(g, trail) && trail[|trail| - 1] in Passed(trail)
    ensures Fault(g, trail[0], 0, Cycle)
  {
    var n := |trail|;
    var i :| 0 <= i < n - 1 && trail[i] == trail[n - 1];
    var p := trail[i..];
    forall k | 0 <= k < |p| - 1
      ensures Edge(g, p[k], p[k + 1])
    {
      assert Edge(g, trail[i + k], trail[i + k + 1]);
    }
    TrailReaches(g, trail, i);
    assert Walk(g, p) && |p| > 1 && p[0] == p[|p| - 1];
  }

  // ----- the walk -----

  /** The walk's notes. `expanded` lists the inodes in the order they were expanded. */
  class Traversal {
    const graph: Graph
    const limit: nat
    ghost const root: nat
    var visited: set<nat>
    var active: set<nat>
    var parsed: nat
    ghost var expanded: seq<nat>
    ghost var order: seq<nat>

    constructor (graph: Graph, inodes: nat, ghost root: nat)
      ensures Valid() && visited == {} && active == {} && order == [] && this.graph == graph && this.root == root
              && limit == inodes + 100
    {
      this.graph, limit, this.root := graph, inodes + 100, root;
      visited, active, parsed, expanded, order := {}, {}, 0, [], [];
    }

    /** Visited inodes are the active and the finished ones, each expanded once and in reach of the root. */
    ghost predicate Valid()
      reads this
    {
      && Finished(graph, order) && Distinct(order) && Distinct(expanded) && AllShallow(graph, root, expanded)
         && parsed == |expanded|
      && (forall n :: n in visited <==> n in active || n in order)
      && (forall n :: n in visited <==> n in expanded)
      && (forall n | n in active :: n !in order)
    }

    method Traverse(nid: nat, depth: nat, ghost trail: seq<nat>) returns (r: Result<()>)
      requires Valid() && 1 <= depth == |trail| <= MAX_DEPTH + 1
      requires Walk(graph, trail) && trail[0] == root && trail[depth - 1] == nid && active == Passed(trail)
      modifies `visited, `active, `parsed, `expanded, `order
      ensures r.Ok? ==> Valid() && active == old(active) && old(order) <= order && nid in order
      ensures r.Err? ==> Fault(graph, root, limit, r.error)
      decreases MAX_DEPTH + 1 - depth, 1
    {
      hide Finished, Fault, AllShallow;
      if depth > MAX_DEPTH {
        DeepFault(graph, trail, limit);
        return Err(TooDeep);
      }
      if nid in active {
        CycleFault(graph, trail, limit);
        return Err(Cycle);
      }
      if nid in visited {
        return Ok(());
      }
      assert Leads(graph, trail, root, nid);
      Enter(nid);
      if parsed > limit {
        ManyFault(graph, root, limit, expanded);
        return Err(TooMany);
      }
      var found := graph(nid);
      if found.Corrupt? {
        CorruptFault(graph, root, limit, nid);
        return Err(Unreadable(found.code));
      }
      PassedOn(trail);
      r := TraverseAll(found.inodes, depth, trail);
      if r.Err? {
        return;
      }
      FinishedMore(graph, order, nid);
      active := active - {nid};
      order := order + [nid];
    }

    /** Mark an inode as being expanded. */
    method Enter(nid: nat)
      requires Valid() && nid !in visited && Shallow(graph, root, nid)
      modifies `visited, `active, `parsed, `expanded
      ensures Valid() && visited == old(visited) + {nid} && active == old(active) + {nid} && parsed == old(parsed) + 1
    {
      hide Finished, Shallow;
      visited, active := visited + {nid}, active + {nid};
      expanded := expanded + [nid];
      parsed := parsed + 1;
    }

    /** Each of an inode's entries in turn. */
    method TraverseAll(inodes: seq<nat>, depth: nat, ghost trail: seq<nat>) returns (r: Result<()>)
      requires Valid() && 1 <= depth == |trail| <= MAX_DEPTH
      requires Walk(graph, trail) && trail[0] == root && graph(trail[depth - 1]) == Names(inodes)
      requires active == Passed(trail + [0])
      modifies `visited, `active, `parsed, `expanded, `order
      ensures r.Ok? ==> Valid() && active == old(active) && old(order) <= order
      ensures r.Ok? ==> forall c | c in inodes :: c in order
      ensures r.Err? ==> Fault(graph, root, limit, r.error)
      decreases MAX_DEPTH + 1 - depth, 0
    {
      hide Finished, Fault, AllShallow, Distinct;
      var i := 0;
      while i < |inodes|
        invariant 0 <= i <= |inodes| && Valid() && active == old(active) && old(order) <= order
        invariant forall j | 0 <= j < i :: inodes[j] in order
      {
        TrailGrows(graph, trail, inodes[i]);
        r := Traverse(inodes[i], depth + 1, trail + [inodes[i]]);
        if r.Err? {
          return;
        }
        i := i + 1;
      }
      r := Ok(());
    }
  }

  lemma PassedOn(trail: seq<nat>)
    requires trail != []
    ensures Passed(trail + [0]) == Passed(trail) + {trail[|trail| - 1]}
  {
    var more := trail + [0];
    forall x | x in Passed(trail) + {trail[|trail| - 1]}
      ensures x in Passed(more)
    {
      if x == trail[|trail| - 1] {
        assert more[|trail| - 1] == x;
      } else {
        var i :| 0 <= i < |trail| - 1 && trail[i] == x;
        assert more[i] == x;
      }
    }
  }

  lemma TrailGrows(g: Graph, trail: seq<nat>, n: nat)
    requires Walk(g, trail) && Edge(g, trail[|trail| - 1], n)
    ensures Walk(g, trail + [n]) && Passed(trail + [n]) == Passed(trail + [0])
  {
    assert forall i | 0 <= i < |trail| :: (trail + [n])[i] == (trail + [0])[i] == trail[i];
  }

  lemma DeepFault(g: Graph, trail: seq<nat>, limit: nat)
    requires Walk(g, trail) && |trail| == MAX_DEPTH + 1
    ensures Fault(g, trail[0], limit, TooDeep)
  {
  }

  lemma CycleFault(g: Graph, trail: seq<nat>, limit: nat)
    requires Walk(g, trail) && trail[|trail| - 1] in Passed(trail)
    ensures Fault(g, trail[0], limit, Cycle)
  {
    TrailCloses(g, trail);
  }

  lemma ManyFault(g: Graph, root: nat, limit: nat, s: seq<nat>)
    requires Distinct(s) && |s| > limit && AllShallow(g, root, s)
    ensures Fault(g, root, limit, TooMany)
  {
    hide Leads;
    forall i | 0 <= i < |s|
      ensures Reachable(g, root, s[i])
    {
      assert Shallow(g, root, s[i]);
    }
    assert AllReachable(g, root, s);
  }

  lemma CorruptFault(g: Graph, root: nat, limit: nat, n: nat)
    requires Reachable(g, root, n) && g(n).Corrupt?
    ensures Fault(g, root, limit, Unreadable(g(n).code))
  {
  }

  /** The verdict. When it passes, nothing reachable from the root lies on a cycle, everything reachable was readable
      and close enough, and no inode was expanded twice. When it fails, the fault it reports is there. */
  method Check(graph: Graph, inodes: nat, root: nat) returns (r: Result<()>, ghost expanded: seq<nat>)
    ensures Distinct(expanded)
    ensures r.Ok? ==> forall n | Reachable(graph, root, n) ::
              n in expanded && graph(n).Names? && Shallow(graph, root, n)
    ensures r.Ok? ==> forall p | Walk(graph, p) && |p| > 1 && Reachable(graph, root, p[0]) :: p[|p| - 1] != p[0]
    ensures r.Err? ==> Fault(graph, root, inodes + 100, r.error)
  {
    hide Reachable, Fault, Shallow;
    var w := new Traversal(graph, inodes, root);
    assert Walk(graph, [root]) && Passed([root]) == {};
    r := w.Traverse(root, 1, [root]);
    expanded := if r.Ok? then w.expanded else [];
    if r.Ok? {
      forall n | Reachable(graph, root, n)
        ensures n in w.order && n in expanded && graph(n).Names? && Shallow(graph, root, n)
      {
        ReachesOnlyFinished(graph, w.order, root, n);
      }
      forall p | Walk(graph, p) && |p| > 1 && Reachable(graph, root, p[0])
        ensures p[|p| - 1] != p[0]
      {
        ReachesOnlyFinished(graph, w.order, root, p[0]);
        NoCycle(graph, w.order, p);
      }
    }
  }
}
