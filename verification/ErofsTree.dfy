/** The tree an EROFS image is made from, and the list of inodes the writer collects from it. */
module ErofsTree {
  import opened Bytes
  import opened ErofsDir
  import opened Options
  import Xattr

  /** `attrs` are in key order. `content` is what opening a file streams; `size` is what it claims. */
  datatype Node = Node(name: seq<Byte>, ino: nat, mode: nat, uid: nat, gid: nat, mtime: nat, rdev: nat, isDir: bool,
                       metadataOnly: bool, size: nat, content: seq<Byte>, attrs: seq<Xattr.Attr>, children: seq<Node>)

  datatype Info = Info(node: Node, nid: nat, parent: nat, name: seq<Byte>)

  const STRIDE: nat := 8

  // ----- numbering -----

  /** The first node keeps its inode number even when it is zero. */
  function NidOf(t: Node, auto: nat, first: bool): nat {
    if t.ino != 0 || first then t.ino else auto
  }

  /** A tree's inodes, parents before children, and the next number to give out. */
  function Visited(t: Node, parent: nat, name: seq<Byte>, auto: nat, first: bool): (seq<Info>, nat)
    decreases t
  {
    var nid := NidOf(t, auto, first);
    var next := Max(auto, nid + STRIDE);
    var below := if t.isDir then VisitedAll(t.children, nid, next) else ([], next);
    ([Info(t, nid, parent, name)] + below.0, below.1)
  }

  function VisitedAll(ts: seq<Node>, parent: nat, auto: nat): (seq<Info>, nat)
    decreases ts
  {
    if ts == [] then ([], auto) else
    var first := Visited(ts[0], parent, ts[0].name, auto, false);
    var rest := VisitedAll(ts[1..], parent, first.1);
    (first.0 + rest.0, rest.1)
  }

  function Inodes(root: Node): seq<Info> {
    Visited(root, 0, [], 0, true).0
  }

  /** The writer's first pass. */
  class Collector {
    var nodes: seq<Info>
    var autoNid: nat

    constructor ()
      ensures nodes == [] && autoNid == 0
    {
      nodes, autoNid := [], 0;
    }

    method Visit(t: Node, parent: nat, name: seq<Byte>)
      modifies this
      ensures var v := Visited(t, parent, name, old(autoNid), old(nodes) == []);
              nodes == old(nodes) + v.0 && autoNid == v.1
      decreases t
    {
      hide VisitedAll;
      var nid := if t.ino != 0 || nodes == [] then t.ino else autoNid;
      if nid + STRIDE > autoNid {
        autoNid := nid + STRIDE;
      }
      nodes := nodes + [Info(t, nid, parent, name)];
      if t.isDir {
        VisitAll(t.children, nid);
      }
    }

    method VisitAll(ts: seq<Node>, parent: nat)
      requires nodes != []
      modifies this
      ensures var v := VisitedAll(ts, parent, old(autoNid));
              nodes == old(nodes) + v.0 && autoNid == v.1
      decreases ts
    {
      hide Visited;
      var i := 0;
      ghost var all := VisitedAll(ts, parent, autoNid);
      assert ts[0..] == ts;
      while i < |ts|
        invariant 0 <= i <= |ts| && nodes != []
        invariant var rest := VisitedAll(ts[i..], parent, autoNid);
                  old(nodes) + all.0 == nodes + rest.0 && all.1 == rest.1
      {
        assert ts[i..][0] == ts[i] && ts[i..][1..] == ts[i + 1..];
        Visit(ts[i], parent, ts[i].name);
        i := i + 1;
      }
    }
  }

  // ----- parents and children in the list -----

  predicate Child(p: Info, a: Info) {
    p.node.isDir && a.parent == p.nid && a.node in p.node.children && a.name == a.node.name
  }

  ghost predicate HasParent(all: seq<Info>, a: Info) {
    exists p :: p in all && Child(p, a)
  }

  ghost predicate HasChild(all: seq<Info>, parent: nat, c: Node) {
    exists a: Info :: a in all && a.node == c && a.parent == parent && a.name == c.name
  }

  ghost predicate Whole(all: seq<Info>) {
    forall p, c | p in all && p.node.isDir && c in p.node.children :: HasChild(all, p.nid, c)
  }

  lemma HasMore(small: seq<Info>, all: seq<Info>)
    requires forall a | a in small :: a in all
    ensures forall a | HasParent(small, a) :: HasParent(all, a)
    ensures forall p, c | HasChild(small, p, c) :: HasChild(all, p, c)
  {
  }

  lemma {:induction false} VisitedParents(t: Node, parent: nat, name: seq<Byte>, auto: nat, first: bool)
    ensures var all := Visited(t, parent, name, auto, first).0;
            && all != [] && all[0] == Info(t, NidOf(t, auto, first), parent, name) && Whole(all)
            && forall a | a in all :: a == all[0] || HasParent(all, a)
    decreases t
  {
    var all := Visited(t, parent, name, auto, first).0;
    if t.isDir {
      var nid := NidOf(t, auto, first);
      var next := Max(auto, nid + STRIDE);
      VisitedAllParents(t.children, nid, next);
      var below := VisitedAll(t.children, nid, next).0;
      assert all == [all[0]] + below;
      HasMore(below, all);
      forall a | a in all
        ensures a == all[0] || HasParent(all, a)
      {
        if a != all[0] && a.parent == nid && a.node in t.children && a.name == a.node.name {
          assert Child(all[0], a);
        }
      }
    }
  }

  lemma {:induction false} VisitedAllParents(ts: seq<Node>, parent: nat, auto: nat)
    ensures var all := VisitedAll(ts, parent, auto).0;
            && Whole(all) && (forall c | c in ts :: HasChild(all, parent, c))
            && forall a | a in all :: (a.parent == parent && a.node in ts && a.name == a.node.name) || HasParent(all, a)
    decreases ts
  {
    if ts != [] {
      var all := VisitedAll(ts, parent, auto).0;
      var first := Visited(ts[0], parent, ts[0].name, auto, false);
      var rest := VisitedAll(ts[1..], parent, first.1).0;
      VisitedParents(ts[0], parent, ts[0].name, auto, false);
      VisitedAllParents(ts[1..], parent, first.1);
      assert all == first.0 + rest;
      HasMore(first.0, all);
      HasMore(rest, all);
      assert first.0[0] in all;
      assert HasChild(all, parent, ts[0]);
      assert ts == [ts[0]] + ts[1..];
    }
  }

  // ----- finding a directory's children -----

  ghost predicate DistinctNids(all: seq<Info>) {
    forall i, j | 0 <= i < j < |all| :: all[i].nid != all[j].nid
  }

  ghost predicate DistinctNames(ts: seq<Node>) {
    forall i, j | 0 <= i < j < |ts| :: ts[i].name != ts[j].name
  }

  /** The first inode with this parent and name. */
  function Find(all: seq<Info>, parent: nat, name: seq<Byte>): (r: Option<Info>)
    ensures r.Some? ==> r.value in all && r.value.parent == parent && r.value.name == name
    ensures r.None? ==> forall a | a in all :: a.parent != parent || a.name != name
  {
    if all == [] then None
    else if all[0].parent == parent && all[0].name == name then Some(all[0])
    else Find(all[1..], parent, name)
  }

  lemma SameNid(all: seq<Info>, p: Info, n: Info)
    requires DistinctNids(all) && p in all && n in all && p.nid == n.nid
    ensures p == n
  {
    var i :| 0 <= i < |all| && all[i] == p;
    var j :| 0 <= j < |all| && all[j] == n;
  }

  // ----- children of the same name -----

  predicate Named(ts: seq<Node>, name: seq<Byte>) {
    exists i :: 0 <= i < |ts| && ts[i].name == name
  }

  /** The first child of that name. */
  function FirstAt(ts: seq<Node>, name: seq<Byte>): (i: nat)
    requires Named(ts, name)
    ensures i < |ts| && ts[i].name == name && forall j | 0 <= j < i :: ts[j].name != name
  {
    if ts[0].name == name then 0 else
    assert forall i | 1 <= i < |ts| :: ts[i] == ts[1..][i - 1];
    1 + FirstAt(ts[1..], name)
  }

  function First(ts: seq<Node>, name: seq<Byte>): Node
    requires Named(ts, name)
  {
    ts[FirstAt(ts, name)]
  }

  lemma {:induction false} FindBoth(x: seq<Info>, y: seq<Info>, parent: nat, name: seq<Byte>)
    ensures Find(x + y, parent, name) == if Find(x, parent, name).Some? then Find(x, parent, name)
            else Find(y, parent, name)
  {
    if x == [] {
      assert x + y == y;
    } else {
      assert (x + y)[1..] == x[1..] + y;
      FindBoth(x[1..], y, parent, name);
    }
  }

  ghost predicate Unused(all: seq<Info>, nid: nat) {
    forall a | a in all :: a.nid != nid
  }

  lemma DistinctParts(x: seq<Info>, y: seq<Info>)
    requires DistinctNids(x + y)
    ensures DistinctNids(x) && DistinctNids(y) && forall a, b | a in x && b in y :: a.nid != b.nid
  {
    var all := x + y;
    assert forall i | 0 <= i < |x| :: all[i] == x[i];
    assert forall j | 0 <= j < |y| :: all[|x| + j] == y[j];
    forall a, b | a in x && b in y
      ensures a.nid != b.nid
    {
      var i :| 0 <= i < |x| && x[i] == a;
      var j :| 0 <= j < |y| && y[j] == b;
      assert all[i].nid != all[|x| + j].nid;
    }
  }

  /** Below a node nothing is listed under a number that is not used there, but the node itself. */
  lemma NoneBelow(t: Node, parent: nat, name: seq<Byte>, auto: nat, first: bool, nid: nat, wanted: seq<Byte>)
    requires Unused(Visited(t, parent, name, auto, first).0, nid) && (parent != nid || name != wanted)
    ensures Find(Visited(t, parent, name, auto, first).0, nid, wanted).None?
  {
    hide Visited, Find;
    VisitedParents(t, parent, name, auto, first);
  }

  /** Looking up a name among the children of a directory finds the first of them that has it. */
  lemma {:induction false} FirstFound(ts: seq<Node>, parent: nat, auto: nat, name: seq<Byte>)
    requires Unused(VisitedAll(ts, parent, auto).0, parent) && Named(ts, name)
    ensures var r := Find(VisitedAll(ts, parent, auto).0, parent, name);
            r.Some? && r.value.node == First(ts, name)
    decreases ts
  {
    hide Visited, Find;
    var mine := Visited(ts[0], parent, ts[0].name, auto, false);
    var rest := VisitedAll(ts[1..], parent, mine.1).0;
    VisitedParents(ts[0], parent, ts[0].name, auto, false);
    FindBoth(mine.0, rest, parent, name);
    if ts[0].name == name {
      FindHead(mine.0, parent, name);
    } else {
      NoneBelow(ts[0], parent, ts[0].name, auto, false, parent, name);
      assert forall i | 1 <= i < |ts| :: ts[i] == ts[1..][i - 1];
      FirstFound(ts[1..], parent, mine.1, name);
    }
  }

  lemma FindHead(all: seq<Info>, parent: nat, name: seq<Byte>)
    requires all != [] && all[0].parent == parent && all[0].name == name
    ensures Find(all, parent, name) == Some(all[0])
  {
  }

  /** So everywhere in a tree. */
  lemma {:induction false} FoundIn(t: Node, parent: nat, own: seq<Byte>, auto: nat, first: bool, n: Info,
                                   name: seq<Byte>)
    requires var all := Visited(t, parent, own, auto, first).0;
             DistinctNids(all) && n in all && n.node.isDir && Named(n.node.children, name)
             && (own != name || Unused(all, parent))
    ensures var r := Find(Visited(t, parent, own, auto, first).0, n.nid, name);
            r.Some? && r.value.node == First(n.node.children, name)
    decreases t
  {
    hide VisitedAll, Find;
    var all, nid := Visited(t, parent, own, auto, first).0, NidOf(t, auto, first);
    var head := [Info(t, nid, parent, own)];
    VisitedParents(t, parent, own, auto, first);
    if t.isDir {
      var next := Max(auto, nid + STRIDE);
      var below := VisitedAll(t.children, nid, next).0;
      DistinctParts(head, below);
      FindBoth(head, below, n.nid, name);
      NotHead(head[0], n.nid, name);
      if n == head[0] {
        FirstFound(t.children, nid, next, name);
      } else {
        FoundInAll(t.children, nid, next, n, name);
      }
    }
  }

  lemma NotHead(a: Info, nid: nat, name: seq<Byte>)
    requires a.parent != nid || a.name != name
    ensures Find([a], nid, name).None?
  {
    assert [a][1..] == [];
  }

  lemma {:induction false} FoundInAll(ts: seq<Node>, parent: nat, auto: nat, n: Info, name: seq<Byte>)
    requires var all := VisitedAll(ts, parent, auto).0;
             DistinctNids(all) && n in all && n.node.isDir && Named(n.node.children, name) && Unused(all, parent)
    ensures var r := Find(VisitedAll(ts, parent, auto).0, n.nid, name);
            r.Some? && r.value.node == First(n.node.children, name)
    decreases ts
  {
    hide Visited, Find;
    var mine := Visited(ts[0], parent, ts[0].name, auto, false);
    var rest := VisitedAll(ts[1..], parent, mine.1).0;
    DistinctParts(mine.0, rest);
    FindBoth(mine.0, rest, n.nid, name);
    if n in mine.0 {
      FoundIn(ts[0], parent, ts[0].name, auto, false, n, name);
    } else {
      NoneBelow(ts[0], parent, ts[0].name, auto, false, n.nid, name);
      FoundInAll(ts[1..], parent, mine.1, n, name);
    }
  }

  // ----- directory entries -----

  const FT_REG: Byte := 1
  const FT_DIR: Byte := 2

  /** The high four bits of a mode: the kind of file. */
  function Kind(mode: nat): nat {
    mode / 4096 % 16
  }

  const K_FIFO: nat := 1
  const K_CHR: nat := 2
  const K_DIR: nat := 4
  const K_BLK: nat := 6
  const K_REG: nat := 8
  const K_LNK: nat := 10
  const K_SOCK: nat := 12

  /** The mode with its kind: a directory's bit is or-ed in, a mode without a kind is a regular file's. */
  function ModeOf(t: Node): nat {
    if t.isDir then if Kind(t.mode) / 4 % 2 == 1 then t.mode else t.mode + 0x4000
    else if Kind(t.mode) == 0 then t.mode + 0x8000
    else t.mode
  }

  function FileTypeOf(t: Node): Byte {
    if t.isDir then FT_DIR
    else
      var k := Kind(ModeOf(t));
      if k == K_LNK then 7 else if k == K_CHR then 3 else if k == K_BLK then 4 else if k == K_FIFO then 5
      else if k == K_SOCK then 6 else FT_REG
  }

  const DOT: seq<Byte> := [46]

  const DOT_DOT: seq<Byte> := [46, 46]

  function EntryFor(a: Info): Dirent {
    Dirent(a.nid, a.name, FileTypeOf(a.node))
  }

  /** A directory's own kind is a directory's exactly when its mode carries no other kind. */
  lemma DirectoryKindIff(t: Node)
    requires t.isDir && t.mode < 0x1_0000
    ensures Kind(ModeOf(t)) == K_DIR <==> Kind(t.mode) == 0 || Kind(t.mode) == K_DIR
    ensures ModeOf(t) < 0x1_0000 && ModeOf(t) % 4096 == t.mode % 4096
  {
    var k := Kind(t.mode);
    assert t.mode == 4096 * k + t.mode % 4096 && 0 <= k < 16;
    if k / 4 % 2 == 0 {
      assert ModeOf(t) == 4096 * (k + 4) + t.mode % 4096;
      assert k < 12;
    }
  }

  /** The entries of a directory: itself, its parent, its children in order. */
  method DirectoryEntries(all: seq<Info>, n: Info) returns (r: Option<seq<Dirent>>)
    ensures r.Some? <==> forall k | 0 <= k < |n.node.children| :: Find(all, n.nid, n.node.children[k].name).Some?
    ensures r.Some? ==>
              && |r.value| == 2 + |n.node.children|
              && r.value[0] == Dirent(n.nid, DOT, FT_DIR) && r.value[1] == Dirent(n.parent, DOT_DOT, FT_DIR)
    ensures r.Some? ==> forall k | 0 <= k < |n.node.children| ::
              r.value[2 + k] == EntryFor(Find(all, n.nid, n.node.children[k].name).value)
  {
    hide Find, FileTypeOf;
    var ds := [Dirent(n.nid, DOT, FT_DIR), Dirent(n.parent, DOT_DOT, FT_DIR)];
    var i := 0;
    while i < |n.node.children|
      invariant 0 <= i <= |n.node.children| && |ds| == 2 + i
      invariant ds[0] == Dirent(n.nid, DOT, FT_DIR) && ds[1] == Dirent(n.parent, DOT_DOT, FT_DIR)
      invariant forall k | 0 <= k < i :: Find(all, n.nid, n.node.children[k].name).Some?
      invariant forall k | 0 <= k < i :: ds[2 + k] == EntryFor(Find(all, n.nid, n.node.children[k].name).value)
    {
      var a := FindChild(all, n.nid, n.node.children[i].name);
      if a.None? {
        return None;
      }
      ds := ds + [EntryFor(a.value)];
      i := i + 1;
    }
    r := Some(ds);
  }

  method FindChild(all: seq<Info>, parent: nat, name: seq<Byte>) returns (r: Option<Info>)
    ensures r == Find(all, parent, name)
  {
    var i := 0;
    assert all[0..] == all;
    while i < |all|
      invariant 0 <= i <= |all| && Find(all, parent, name) == Find(all[i..], parent, name)
    {
      assert all[i..][1..] == all[i + 1..];
      if all[i].parent == parent && all[i].name == name {
        return Some(all[i]);
      }
      i := i + 1;
    }
    r := None;
  }
}
