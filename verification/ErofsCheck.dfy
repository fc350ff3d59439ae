/** The checker on written images: it passes them exactly when the tree is not too deep. */
module ErofsCheck {
  import opened Bytes
  import opened ErofsInode
  import opened ErofsTree
  import opened ErofsImage
  import opened ErofsWriter
  import opened ErofsReader
  import opened Fsck
  import Dir = ErofsDir

  // ----- the graph of an image -----

  predicate Dotted(name: seq<Byte>) {
    name == DOT || name == DOT_DOT
  }

  /** The inodes a directory names, but for itself and its parent. */
  function Kids(ds: seq<Dir.Dirent>): seq<nat> {
    if ds == [] then [] else (if Dotted(ds[0].name) then [] else [ds[0].nid]) + Kids(ds[1..])
  }

  /** Everything the checker reads of one inode. */
  function Expand(utf8: Dir.Utf8, image: seq<Byte>, s: Super, nid: nat): Expansion {
    var i := NodeAt(image, s, nid);
    if i.Bad? then Corrupt(1)
    else if i.value.layout != 0 && i.value.layout != FLAT_INLINE then Corrupt(2)
    else if i.value.xattrCount > 0 && AttrsAt(image, s, nid).Bad? then Corrupt(3)
    else if Kind(i.value.mode) == K_DIR then
      var ds := ListAt(utf8, image, s, nid);
      if ds.Bad? then Corrupt(4) else Names(Kids(ds.value))
    else if (Kind(i.value.mode) == K_REG || Kind(i.value.mode) == K_LNK) && DataAt(image, s, nid, i.value).Bad?
            then Corrupt(5)
    else Names([])
  }

  function GraphOf(utf8: Dir.Utf8, image: seq<Byte>, s: Super): Graph {
    (nid: nat) => Expand(utf8, image, s, nid)
  }

  lemma {:induction false} KidsAre(ds: seq<Dir.Dirent>, b: nat)
    ensures b in Kids(ds) <==> exists j :: 0 <= j < |ds| && ds[j].nid == b && !Dotted(ds[j].name)
  {
    if ds != [] {
      KidsAre(ds[1..], b);
      assert forall j | 1 <= j < |ds| :: ds[j] == ds[1..][j - 1];
    }
  }

  // ----- what the checker asks of a tree -----

  /** Only directories have a directory's mode, and no child hides behind a dot name. */
  ghost predicate Checkable(root: Node) {
    forall a | a in Inodes(root) ::
      && (!a.node.isDir ==> Kind(a.node.mode) != K_DIR)
      && forall k | 0 <= k < |a.node.children| :: !Dotted(a.node.children[k].name)
  }

  function Height(t: Node): (h: nat)
    ensures h >= 1
    decreases t
  {
    if t.isDir then 1 + MaxHeight(t.children) else 1
  }

  function MaxHeight(ts: seq<Node>): nat
    decreases ts
  {
    if ts == [] then 0 else Max(Height(ts[0]), MaxHeight(ts[1..]))
  }

  lemma {:induction false} HeightFalls(ts: seq<Node>, c: Node)
    requires c in ts
    ensures Height(c) <= MaxHeight(ts)
    decreases |ts|
  {
    if c != ts[0] {
      HeightFalls(ts[1..], c);
    }
  }

  lemma {:induction false} Tallest(ts: seq<Node>) returns (k: nat)
    requires ts != []
    ensures k < |ts| && Height(ts[k]) == MaxHeight(ts)
    decreases |ts|
  {
    if Height(ts[0]) >= MaxHeight(ts[1..]) {
      k := 0;
    } else {
      var j := Tallest(ts[1..]);
      k := j + 1;
    }
  }

  // ----- edges are children -----

  /** An image that reads back, and its graph. */
  ghost predicate Graphed(utf8: Dir.Utf8, crc: Crc, root: Node, l: Layout, image: seq<Byte>, g: Graph) {
    Compiled(utf8, crc, root, l, image) && Checkable(root) && g == GraphOf(utf8, image, l.super)
  }

  lemma OwnKind(t: Node)
    requires InRange(t) && !t.isDir && Kind(t.mode) != K_DIR
    ensures Kind(ModeOf(t)) != K_DIR
  {
    var k := Kind(t.mode);
    assert t.mode == 4096 * k + t.mode % 4096;
    if k == 0 {
      assert ModeOf(t) == 4096 * 8 + t.mode % 4096;
    }
  }

  lemma FileExpands(utf8: Dir.Utf8, crc: Crc, root: Node, l: Layout, image: seq<Byte>, g: Graph, n: Info)
    requires Graphed(utf8, crc, root, l, image, g) && n in Inodes(root) && !n.node.isDir
    ensures g(n.nid) == Names([])
  {
    hide Visited, Planned, WellLaid, SuperGood, Small, DistinctNids, DataAt, AttrsAt, NodeAt, ListAt, PlanGood,
        AllVisible;
    var i := CompiledReady(utf8, crc, root, l, image, n);
    NodeReads(utf8, crc, Inodes(root), l, image, i);
    AttrsReadIff(utf8, crc, Inodes(root), l, image, i);
    DataReads(utf8, crc, Inodes(root), l, image, i);
    PlanIs(utf8, Inodes(root), l, i);
    OwnKind(n.node);
  }

  lemma DirectoryExpands(utf8: Dir.Utf8, crc: Crc, root: Node, l: Layout, image: seq<Byte>, g: Graph, n: Info)
      returns (ds: seq<Dir.Dirent>)
    requires Graphed(utf8, crc, root, l, image, g) && n in Inodes(root) && n.node.isDir
    ensures g(n.nid) == Names(Kids(ds)) && IsListing(Inodes(root), n, ds) && DistinctNames(n.node.children)
    ensures forall j | 0 <= j < |ds| :: ds[j].name != []
  {
    hide Visited, Planned, WellLaid, SuperGood, Small, DistinctNids, DistinctNames, DataAt, AttrsAt, NodeAt, ListAt,
        PlanGood, Kids, Find, AllVisible, Dir.GoodNames;
    var i := CompiledReady(utf8, crc, root, l, image, n);
    NodeReads(utf8, crc, Inodes(root), l, image, i);
    AttrsReadIff(utf8, crc, Inodes(root), l, image, i);
    PlanIs(utf8, Inodes(root), l, i);
    DirectoryKindIff(n.node);
    StoredBelow(utf8, crc, root, l, image);
    ds := ListingReads(utf8, crc, Inodes(root), l, image, i);
    NamesNotEmpty(utf8, ds);
  }

  /** Every edge leads to a child's inode. */
  lemma EdgeIsChild(utf8: Dir.Utf8, crc: Crc, root: Node, l: Layout, image: seq<Byte>, g: Graph, n: Info, b: nat)
      returns (a: Info)
    requires Graphed(utf8, crc, root, l, image, g) && n in Inodes(root) && Edge(g, n.nid, b)
    ensures a in Inodes(root) && a.nid == b && a.parent == n.nid && Height(a.node) < Height(n.node)
  {
    hide Visited, Compiled, GraphOf, Kids, Find, Checkable, DistinctNames, Dir.GoodNames;
    if !n.node.isDir {
      FileExpands(utf8, crc, root, l, image, g, n);
    }
    var ds := DirectoryExpands(utf8, crc, root, l, image, g, n);
    KidsAre(ds, b);
    var j :| 0 <= j < |ds| && ds[j].nid == b && !Dotted(ds[j].name);
    DistinctRoot(utf8, crc, root, l, image);
    a := ListedChild(root, n, ds, j - 2);
    HeightFalls(n.node.children, a.node);
  }

  lemma DistinctRoot(utf8: Dir.Utf8, crc: Crc, root: Node, l: Layout, image: seq<Byte>)
    requires Compiled(utf8, crc, root, l, image)
    ensures DistinctNids(Inodes(root))
  {
    hide Visited, Stored;
    DistinctStored(utf8, crc, root, l, image);
  }

  /** And every child has its edge. */
  lemma ChildIsEdge(utf8: Dir.Utf8, crc: Crc, root: Node, l: Layout, image: seq<Byte>, g: Graph, n: Info, k: nat)
      returns (a: Info)
    requires Graphed(utf8, crc, root, l, image, g) && n in Inodes(root) && n.node.isDir && k < |n.node.children|
    ensures a in Inodes(root) && a.node == n.node.children[k] && Edge(g, n.nid, a.nid)
  {
    hide Visited, Compiled, GraphOf, Kids, Find, DistinctNames, Dir.GoodNames;
    var ds := DirectoryExpands(utf8, crc, root, l, image, g, n);
    DistinctRoot(utf8, crc, root, l, image);
    a := ListedChild(root, n, ds, k);
    OwnName(n.node.children, k);
    KidsAre(ds, a.nid);
    assert ds[2 + k].nid == a.nid && !Dotted(ds[2 + k].name);
  }

  lemma OwnName(ts: seq<Node>, k: nat)
    requires DistinctNames(ts) && k < |ts|
    ensures FirstAt(ts, ts[k].name) == k
  {
  }

  // ----- walks go down the tree -----

  lemma {:induction false} WalkDescends(utf8: Dir.Utf8, crc: Crc, root: Node, l: Layout, image: seq<Byte>, g: Graph,
                                        n: Info, p: seq<nat>, k: nat)
      returns (a: Info)
    requires Graphed(utf8, crc, root, l, image, g) && n in Inodes(root) && Walk(g, p) && p[0] == n.nid && k < |p|
    ensures a in Inodes(root) && a.nid == p[k] && Height(a.node) + k <= Height(n.node) && (k == 0 ==> a == n)
    ensures k > 0 ==> a.parent == p[k - 1]
    decreases k
  {
    hide Visited, Graphed, Height;
    if k == 0 {
      a := n;
    } else {
      var b := WalkDescends(utf8, crc, root, l, image, g, n, p, k - 1);
      assert Edge(g, p[k - 1], p[k]);
      a := EdgeIsChild(utf8, crc, root, l, image, g, b, p[k]);
    }
  }

  /** No walk comes back. */
  lemma NoReturn(utf8: Dir.Utf8, crc: Crc, root: Node, l: Layout, image: seq<Byte>, g: Graph, n: Info, p: seq<nat>)
    requires Graphed(utf8, crc, root, l, image, g) && n in Inodes(root) && Walk(g, p) && p[0] == n.nid && |p| > 1
    ensures p[|p| - 1] != p[0]
  {
    hide Visited, Compiled, Height, GraphOf, Checkable;
    var a := WalkDescends(utf8, crc, root, l, image, g, n, p, |p| - 1);
    if p[|p| - 1] == p[0] {
      DistinctRoot(utf8, crc, root, l, image);
      SameNid(Inodes(root), a, n);
      assert false;
    }
  }

  /** Walks from the root to the same inode are equally long. */
  lemma {:induction false} SameLength(utf8: Dir.Utf8, crc: Crc, root: Node, l: Layout, image: seq<Byte>, g: Graph,
                                      n: Info, p: seq<nat>, q: seq<nat>)
    requires Graphed(utf8, crc, root, l, image, g) && n in Inodes(root) && Walk(g, p) && Walk(g, q)
             && p[0] == q[0] == n.nid
             && p[|p| - 1] == q[|q| - 1]
    ensures |p| == |q|
    decreases |p|
  {
    hide Visited, Compiled, Height, GraphOf, Checkable;
    if |p| == 1 || |q| == 1 {
      if |p| > 1 {
        NoReturn(utf8, crc, root, l, image, g, n, p);
      }
      if |q| > 1 {
        NoReturn(utf8, crc, root, l, image, g, n, q);
      }
    } else {
      var a := WalkDescends(utf8, crc, root, l, image, g, n, p, |p| - 1);
      var b := WalkDescends(utf8, crc, root, l, image, g, n, q, |q| - 1);
      DistinctRoot(utf8, crc, root, l, image);
      SameNid(Inodes(root), a, b);
      SameLength(utf8, crc, root, l, image, g, n, p[..|p| - 1], q[..|q| - 1]);
    }
  }

  /** A tree as high as `h` has a walk that long. */
  lemma {:induction false} DeepWalk(utf8: Dir.Utf8, crc: Crc, root: Node, l: Layout, image: seq<Byte>, g: Graph,
                                    n: Info, h: nat)
      returns (p: seq<nat>)
    requires Graphed(utf8, crc, root, l, image, g) && n in Inodes(root) && 1 <= h <= Height(n.node)
    ensures Walk(g, p) && |p| == h && p[0] == n.nid
    decreases h
  {
    hide Visited, Graphed;
    if h == 1 {
      p := [n.nid];
    } else {
      assert n.node.isDir && n.node.children != [];
      var k := Tallest(n.node.children);
      var a := ChildIsEdge(utf8, crc, root, l, image, g, n, k);
      var rest := DeepWalk(utf8, crc, root, l, image, g, a, h - 1);
      p := [n.nid] + rest;
      forall i | 0 <= i < |p| - 1
        ensures Edge(g, p[i], p[i + 1])
      {
        if i > 0 {
          assert Edge(g, rest[i - 1], rest[i]);
        }
      }
    }
  }

  // ----- the checker's verdict -----

  lemma RootFirst(utf8: Dir.Utf8, crc: Crc, root: Node, l: Layout, image: seq<Byte>) returns (n: Info)
    requires Compiled(utf8, crc, root, l, image)
    ensures n in Inodes(root) && n.node == root && n.nid == l.super.rootNid && l.super.inodes == |Inodes(root)|
  {
    hide Visited, Planned, WellLaid, Small, Ranged, Legible, NoTwins, DistinctNids;
    VisitedParents(root, 0, [], 0, true);
    n := Inodes(root)[0];
  }

  /** Every inode in reach is one of the tree's. */
  lemma ReachedIsInode(utf8: Dir.Utf8, crc: Crc, root: Node, l: Layout, image: seq<Byte>, g: Graph, b: nat)
      returns (a: Info)
    requires Graphed(utf8, crc, root, l, image, g) && Reachable(g, l.super.rootNid, b)
    ensures a in Inodes(root) && a.nid == b
  {
    hide Visited, Compiled, GraphOf, Checkable, Height;
    var n := RootFirst(utf8, crc, root, l, image);
    var p :| Leads(g, p, l.super.rootNid, b);
    a := WalkDescends(utf8, crc, root, l, image, g, n, p, |p| - 1);
  }

  /** Different inodes of the tree are at most as many as the tree has. */
  lemma {:induction false} NoMore(nids: seq<nat>, s: seq<nat>)
    requires Fsck.Distinct(s) && forall i | 0 <= i < |s| :: s[i] in nids
    ensures |s| <= |nids|
    decreases |s|
  {
    if s != [] {
      var last := |s| - 1;
      var j :| 0 <= j < |nids| && nids[j] == s[last];
      var others := nids[..j] + nids[j + 1..];
      forall i | 0 <= i < last
        ensures s[..last][i] in others
      {
        var q :| 0 <= q < |nids| && nids[q] == s[i];
        assert s[i] != s[last];
        assert others[if q < j then q else q - 1] == s[i];
      }
      NoMore(others, s[..last]);
    }
  }

  /** A tree that is not too deep has none of the faults. */
  lemma NoFault(utf8: Dir.Utf8, crc: Crc, root: Node, l: Layout, image: seq<Byte>, g: Graph, e: Fsck.Error)
    requires Graphed(utf8, crc, root, l, image, g) && Height(root) <= MAX_DEPTH
    ensures !Fault(g, l.super.rootNid, l.super.inodes + 100, e)
  {
    hide Visited, Compiled, GraphOf, Checkable, Height, Reachable;
    var n := RootFirst(utf8, crc, root, l, image);
    if Fault(g, l.super.rootNid, l.super.inodes + 100, e) {
      match e
      case TooDeep =>
        var p :| Walk(g, p) && p[0] == l.super.rootNid && |p| == MAX_DEPTH + 1;
        var a := WalkDescends(utf8, crc, root, l, image, g, n, p, MAX_DEPTH);
        assert false;
      case Cycle =>
        var p :| Walk(g, p) && |p| > 1 && p[0] == p[|p| - 1] && Reachable(g, l.super.rootNid, p[0]);
        var a := ReachedIsInode(utf8, crc, root, l, image, g, p[0]);
        NoReturn(utf8, crc, root, l, image, g, a, p);
        assert false;
      case TooMany =>
        var s: seq<nat> :| Fsck.Distinct(s) && |s| > l.super.inodes + 100 && AllReachable(g, l.super.rootNid, s);
        FewReached(utf8, crc, root, l, image, g, s);
        assert false;
      case Unreadable(code) =>
        var b :| Reachable(g, l.super.rootNid, b) && g(b) == Corrupt(code);
        var a := ReachedIsInode(utf8, crc, root, l, image, g, b);
        Expands(utf8, crc, root, l, image, g, a);
        assert false;
    }
  }

  lemma FewReached(utf8: Dir.Utf8, crc: Crc, root: Node, l: Layout, image: seq<Byte>, g: Graph, s: seq<nat>)
    requires Graphed(utf8, crc, root, l, image, g) && Fsck.Distinct(s) && AllReachable(g, l.super.rootNid, s)
    ensures |s| <= |Inodes(root)|
  {
    hide Visited, Graphed, Reachable;
    var nids := Nids(Inodes(root));
    forall i | 0 <= i < |s|
      ensures s[i] in nids
    {
      var a := ReachedIsInode(utf8, crc, root, l, image, g, s[i]);
      var j :| 0 <= j < |Inodes(root)| && Inodes(root)[j] == a;
      assert nids[j] == s[i];
    }
    NoMore(nids, s);
  }

  lemma Expands(utf8: Dir.Utf8, crc: Crc, root: Node, l: Layout, image: seq<Byte>, g: Graph, n: Info)
    requires Graphed(utf8, crc, root, l, image, g) && n in Inodes(root)
    ensures g(n.nid).Names?
  {
    hide Visited, Graphed;
    if n.node.isDir {
      var ds := DirectoryExpands(utf8, crc, root, l, image, g, n);
    } else {
      FileExpands(utf8, crc, root, l, image, g, n);
    }
  }

  /** A tree that is too deep has an inode no short walk reaches. */
  lemma DeepUnreached(utf8: Dir.Utf8, crc: Crc, root: Node, l: Layout, image: seq<Byte>, g: Graph) returns (b: nat)
    requires Graphed(utf8, crc, root, l, image, g) && Height(root) > MAX_DEPTH
    ensures Reachable(g, l.super.rootNid, b) && !Shallow(g, l.super.rootNid, b)
  {
    hide Visited, Compiled, GraphOf, Checkable, Height;
    var n := RootFirst(utf8, crc, root, l, image);
    var p := DeepWalk(utf8, crc, root, l, image, g, n, MAX_DEPTH + 1);
    b := p[|p| - 1];
    assert Leads(g, p, n.nid, b);
    forall q | Leads(g, q, n.nid, b)
      ensures |q| > MAX_DEPTH
    {
      SameLength(utf8, crc, root, l, image, g, n, p, q);
    }
  }

  /** Every inode in reach of the root reads, within the depth limit, and no walk from one comes back to it. */
  ghost predicate Sound(g: Graph, root: nat) {
    && (forall n | Reachable(g, root, n) :: g(n).Names? && Shallow(g, root, n))
    && forall p | Walk(g, p) && |p| > 1 && Reachable(g, root, p[0]) :: p[|p| - 1] != p[0]
  }

  ghost predicate Faulty(g: Graph, root: nat, limit: nat) {
    exists e :: Fault(g, root, limit, e)
  }

  /** Check an image, of any origin. One that passes is sound, and one that does not has a fault. One compiled from a
      tree passes if and only if the tree is at most a hundred levels deep. */
  method CheckImage(crc: Crc, utf8: Dir.Utf8, image: seq<Byte>) returns (passed: bool)
    ensures passed ==> ReadSuper(crc, image).Ok? &&
                       Sound(GraphOf(utf8, image, ReadSuper(crc, image).value), ReadSuper(crc, image).value.rootNid)
    ensures !passed ==>
              var s := ReadSuper(crc, image);
              || s.Err? || (s.value.xattrBlk > 0 && s.value.xattrBlk >= s.value.blocks)
              || Faulty(GraphOf(utf8, image, s.value), s.value.rootNid, s.value.inodes + 100)
    ensures forall root, l | Compiled(utf8, crc, root, l, image) && Checkable(root) :: passed <==>
              Height(root) <= MAX_DEPTH
  {
    hide Visited, Compiled, Checkable, Height, GraphOf, Reachable, Shallow, Fault, Walk, ReadSuper;
    var s := ReadSuper(crc, image);
    forall root, l | Compiled(utf8, crc, root, l, image)
      ensures s == ErofsInode.Ok(l.super) && l.super.xattrBlk < l.super.blocks
    {
      SuperOf(utf8, crc, root, l, image);
    }
    if s.Err? || (s.value.xattrBlk > 0 && s.value.xattrBlk >= s.value.blocks) {
      return false;
    }
    var g := GraphOf(utf8, image, s.value);
    var r, expanded := Check(g, s.value.inodes, s.value.rootNid);
    forall root, l | Compiled(utf8, crc, root, l, image) && Checkable(root)
      ensures r.Ok? <==> Height(root) <= MAX_DEPTH
    {
      if Height(root) <= MAX_DEPTH {
        if r.Err? {
          NoFault(utf8, crc, root, l, image, g, r.error);
        }
      } else {
        var b := DeepUnreached(utf8, crc, root, l, image, g);
      }
    }
    passed := r.Ok?;
  }

  lemma SuperOf(utf8: Dir.Utf8, crc: Crc, root: Node, l: Layout, image: seq<Byte>)
    requires Compiled(utf8, crc, root, l, image)
    ensures ReadSuper(crc, image) == ErofsInode.Ok(l.super) && l.super.xattrBlk < l.super.blocks
  {
    hide Visited, Planned, WellLaid, Small, Ranged, Legible, NoTwins, DistinctNids, ShownExactly, ReadSuper;
    ImageShowsIff(utf8, crc, root, l, image);
  }
}
