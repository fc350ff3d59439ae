/** The link counts of directories: two, and one for each subdirectory. Every operation keeps them but one rename. */
module NamespaceLinks {
  import opened NamespaceModel
  import opened NamespaceProofs
  import opened Namespace

  /** The entries of `d` that name directories. */
  ghost function Subdirs(t: Tree, d: Ino): set<Slot> {
    set s | s in t.entries && s.dir == d && IsDir(t, t.entries[s])
  }

  ghost predicate DirCountOk(t: Tree, d: Ino)
    requires d in t.inodes
  {
    t.inodes[d].nlink == 2 + |Subdirs(t, d)|
  }

  ghost predicate DirCountsOk(t: Tree) {
    forall d | IsDir(t, d) :: DirCountOk(t, d)
  }

  // ----- operations on files -----

  /** The directories of two trees are the same, and so are the entries that name them. */
  ghost predicate SameDirs(t: Tree, u: Tree) {
    && (forall i :: IsDir(u, i) <==> IsDir(t, i))
    && (forall i | IsDir(t, i) :: u.inodes[i].nlink == t.inodes[i].nlink)
    && forall s :: s in t.entries && IsDir(t, t.entries[s]) <==> s in u.entries && IsDir(u, u.entries[s])
  }

  lemma SameDirsCount(t: Tree, u: Tree)
    requires SameDirs(t, u)
    ensures DirCountsOk(u) <==> DirCountsOk(t)
  {
    forall d | IsDir(t, d)
      ensures Subdirs(u, d) == Subdirs(t, d)
    {
    }
  }

  lemma FileOpsCount(t: Tree, s: Slot, i: Ino, kind: Kind, open: bool)
    requires EntriesOk(t)
    ensures i !in t.inodes && s !in t.entries && !kind.Dir? ==> SameDirs(t, Create(t, s, i, kind))
    ensures i in t.inodes && !IsDir(t, i) && s !in t.entries ==> SameDirs(t, NamespaceModel.Link(t, i, s))
    ensures s in t.entries && !IsDir(t, t.entries[s]) ==> SameDirs(t, NamespaceModel.Unlink(t, s, open))
    ensures !IsDir(t, i) ==> SameDirs(t, DropOrphan(t, i))
  {
  }

  lemma RenameFileRows(t: Tree, from: Slot, to: Slot, open: bool, steps: nat)
    requires EntriesOk(t) && Renames(t, from, to, steps) && !IsDir(t, t.entries[from])
    ensures Defined(t, from, to)
    ensures var u := NamespaceModel.Rename(t, from, to, open);
            && (forall i :: IsDir(u, i) <==> IsDir(t, i))
            && forall i | IsDir(t, i) :: u.inodes[i].nlink == t.inodes[i].nlink
  {
    hide Avoids;
    assert IsDir(t, from.dir) && IsDir(t, to.dir) && t.entries[from] in t.inodes;
  }

  lemma RenameFileCount(t: Tree, from: Slot, to: Slot, open: bool, steps: nat)
    requires EntriesOk(t) && Renames(t, from, to, steps) && !IsDir(t, t.entries[from])
    ensures SameDirs(t, NamespaceModel.Rename(t, from, to, open))
  {
    hide Avoids, IsDir;
    RenameFileRows(t, from, to, open, steps);
    assert NamespaceModel.Rename(t, from, to, open).entries == (t.entries - {from})[to := t.entries[from]];
  }

  // ----- operations on directories -----

  lemma MkdirSubdirs(t: Tree, s: Slot, c: Ino, d: Ino)
    requires EntriesOk(t) && IsDir(t, s.dir) && s !in t.entries && c !in t.inodes
             && IsDir(NamespaceModel.Mkdir(t, s, c), d)
    ensures d == c || IsDir(t, d)
    ensures Subdirs(NamespaceModel.Mkdir(t, s, c), d) ==
            if d == c then {} else Subdirs(t, d) + if d == s.dir then {s} else {}
  {
  }

  lemma MkdirCounts(t: Tree, s: Slot, c: Ino)
    requires Inv(t) && DirCountsOk(t) && IsDir(t, s.dir) && s !in t.entries && c !in t.inodes
    ensures DirCountsOk(NamespaceModel.Mkdir(t, s, c))
  {
    hide Links, RootedOk, DirsOk, CountsOk, EntriesOk, Subdirs;
    var u := NamespaceModel.Mkdir(t, s, c);
    forall d | IsDir(u, d)
      ensures DirCountOk(u, d)
    {
      MkdirSubdirs(t, s, c, d);
      NotAmong(t, s, d);
      if d != c {
        assert DirCountOk(t, d);
      }
    }
  }

  lemma RmdirCounts(t: Tree, s: Slot)
    requires Inv(t) && DirCountsOk(t) && s in t.entries && IsDir(t, t.entries[s]) && Empty(t, t.entries[s])
    ensures DirCountsOk(NamespaceModel.Rmdir(t, s))
  {
    hide Links, RootedOk, DirsOk, CountsOk, Subdirs;
    var u, c := NamespaceModel.Rmdir(t, s), t.entries[s];
    OnlyNameOf(t, s);
    forall d | IsDir(u, d)
      ensures DirCountOk(u, d)
    {
      assert DirCountOk(t, d);
      RmdirSubdirs(t, s, d);
      NotAmong(t, s, d);
    }
  }

  lemma RmdirSubdirs(t: Tree, s: Slot, d: Ino)
    requires EntriesOk(t) && s in t.entries && IsDir(t, t.entries[s]) && d != t.entries[s] && s.dir != t.entries[s]
    requires forall r | r in t.entries && t.entries[r] == t.entries[s] :: r == s
    ensures Subdirs(NamespaceModel.Rmdir(t, s), d) == Subdirs(t, d) - {s}
    ensures d == s.dir ==> s in Subdirs(t, d)
  {
  }

  lemma OnlyNameOf(t: Tree, s: Slot)
    requires Inv(t) && s in t.entries && IsDir(t, t.entries[s])
    ensures s.dir != t.entries[s] && t.entries[s] != ROOT
    ensures forall r | r in t.entries && t.entries[r] == t.entries[s] :: r == s
  {
    hide Links, Reaches;
    EntryNotInItself(t, s);
    OnlyName(t, s);
  }

  /** A rename that replaces one directory by another of the same parent. */
  predicate ReplacesInPlace(t: Tree, from: Slot, to: Slot)
    requires from in t.entries
  {
    from != to && from.dir == to.dir && to in t.entries && IsDir(t, t.entries[from])
  }

  /** The entries of a directory after another directory was renamed. */
  lemma RenamedSubdirs(t: Tree, from: Slot, to: Slot, open: bool, steps: nat, d: Ino)
    requires Inv(t) && Renames(t, from, to, steps) && from != to && IsDir(t, t.entries[from])
    requires IsDir(NamespaceModel.Rename(t, from, to, open), d)
    ensures IsDir(t, d) && Subdirs(NamespaceModel.Rename(t, from, to, open), d) ==
                           Subdirs(t, d) - {from} - {to} + if d == to.dir then {to} else {}
    ensures from in Subdirs(t, from.dir) && (to in t.entries ==> to in Subdirs(t, to.dir))
  {
    hide Links, RootedOk, DirsOk, CountsOk, Avoids;
    var u := NamespaceModel.Rename(t, from, to, open);
    OnlyNameOf(t, from);
    if to in t.entries {
      OnlyNameOf(t, to);
    }
    EmptyTarget(t, from, to, steps);
  }

  lemma EmptyTarget(t: Tree, from: Slot, to: Slot, steps: nat)
    requires Inv(t) && Renames(t, from, to, steps) && from != to && IsDir(t, t.entries[from])
    ensures to in t.entries ==> t.entries[to] != from.dir && t.entries[to] != to.dir && t.entries[to] != t.entries[from]
    ensures t.entries[from] != from.dir && t.entries[from] != to.dir
  {
    hide Links, Reaches, Avoids, CountsOk;
    OnlyNameOf(t, from);
    RenameDistinct(t, from, to, steps);
  }

  lemma RenamedLinks(t: Tree, from: Slot, to: Slot, open: bool, steps: nat, d: Ino)
    requires Inv(t) && Renames(t, from, to, steps) && from != to && IsDir(t, t.entries[from])
    requires IsDir(NamespaceModel.Rename(t, from, to, open), d) && IsDir(t, d)
    ensures NamespaceModel.Rename(t, from, to, open).inodes[d].nlink ==
            if from.dir != to.dir && d == from.dir then Lowered(t.inodes[d], 2).nlink
            else if from.dir != to.dir && d == to.dir && to !in t.entries then Raised(t.inodes[d], 2).nlink
            else t.inodes[d].nlink
  {
    hide Links, RootedOk, DirsOk, CountsOk, Avoids;
    EmptyTarget(t, from, to, steps);
  }

  lemma SizeWithout<T>(was: set<T>, a: T, b: T)
    requires a != b
    ensures |was - {a} - {b}| == |was| - (if a in was then 1 else 0) - if b in was then 1 else 0
  {
    assert a !in was ==> was - {a} == was;
    assert b !in was ==> was - {a} - {b} == was - {a};
  }

  lemma RenamedCount(t: Tree, from: Slot, to: Slot, open: bool, steps: nat, d: Ino)
    requires Inv(t) && Renames(t, from, to, steps) && from != to && IsDir(t, t.entries[from])
    requires IsDir(NamespaceModel.Rename(t, from, to, open), d) && IsDir(t, d) && DirCountOk(t, d)
    ensures DirCountOk(NamespaceModel.Rename(t, from, to, open), d) <==> !(ReplacesInPlace(t, from, to) && d == to.dir)
  {
    hide Inv, Renames, NamespaceModel.Rename, Subdirs;
    RenameDefined(t, from, to, steps);
    RenamedSubdirs(t, from, to, open, steps, d);
    RenamedLinks(t, from, to, open, steps, d);
    NotAmong(t, from, d);
    NotAmong(t, to, d);
    SizeWithout(Subdirs(t, d), from, to);
  }

  lemma NotAmong(t: Tree, s: Slot, d: Ino)
    ensures s.dir != d || s !in t.entries ==> s !in Subdirs(t, d)
  {
  }

  /** A rename keeps the counts of directories if and only if it does not replace a directory in place: there the new
      parent's count is lowered in a copy that is never written. */
  lemma RenameCountsIff(t: Tree, from: Slot, to: Slot, open: bool, steps: nat)
    requires Inv(t) && DirCountsOk(t) && Renames(t, from, to, steps)
    ensures Defined(t, from, to)
    ensures DirCountsOk(NamespaceModel.Rename(t, from, to, open)) <==> !ReplacesInPlace(t, from, to)
  {
    hide Inv, NamespaceModel.Rename, Subdirs, Renames, DirCountOk;
    RenameDefined(t, from, to, steps);
    var u := NamespaceModel.Rename(t, from, to, open);
    if from == to {
      RenameToItself(t, from, open, steps);
    } else if !IsDir(t, t.entries[from]) {
      EntriesFine(t);
      RenameFileCount(t, from, to, open, steps);
      SameDirsCount(t, u);
    } else {
      forall d | IsDir(u, d)
        ensures DirCountOk(u, d) <==> !(ReplacesInPlace(t, from, to) && d == to.dir)
      {
        RenamedSubdirs(t, from, to, open, steps, d);
        RenamedCount(t, from, to, open, steps, d);
      }
      ParentStays(t, from, to, open, steps);
    }
  }

  lemma ParentStays(t: Tree, from: Slot, to: Slot, open: bool, steps: nat)
    requires Inv(t) && Renames(t, from, to, steps) && from != to && IsDir(t, t.entries[from])
    ensures IsDir(NamespaceModel.Rename(t, from, to, open), to.dir)
  {
    hide Links, RootedOk, DirsOk, CountsOk, Avoids;
    EmptyTarget(t, from, to, steps);
  }

  // ----- runs -----

  /** The operation the counts of directories do not survive. */
  predicate Miscounts(t: Tree, op: Op) {
    && op.DoRename?
    && var from, to := Slot(Normalize(op.fromDir), op.fromName), Slot(Normalize(op.toDir), op.toName);
       !RenameError(t, from, to).Err? && ReplacesInPlace(t, from, to)
  }

  lemma EntriesFine(t: Tree)
    requires Inv(t)
    ensures EntriesOk(t)
  {
    hide EntriesOk, Links, RootedOk, DirsOk, CountsOk;
  }

  /** One operation, on a tree with its counts right, keeps those of directories if and only if it is no such rename. */
  lemma StepCountsIff(t: Tree, op: Op, u: Tree)
    requires Inv(t) && DirCountsOk(t) && Covered(t, op) && Moves(t, op, u)
    ensures DirCountsOk(u) <==> !Miscounts(t, op)
  {
    hide Inv, DirCountsOk, NamespaceModel.Rename, SameDirs, EntriesOk;
    EntriesFine(t);
    match op
    case DoMkdir(dir, name) =>
      var s := Slot(Normalize(dir), name);
      if !CreateError(t, s).Err? {
        var c: Ino :| c !in t.inodes && u == NamespaceModel.Mkdir(t, s, c);
        MkdirCounts(t, s, c);
      }
    case DoCreate(dir, name, kind) =>
      var s := Slot(Normalize(dir), name);
      if !CreateError(t, s).Err? {
        var c: Ino :| c !in t.inodes && u == Create(t, s, c, kind);
        FileOpsCount(t, s, c, kind, false);
        SameDirsCount(t, u);
      }
    case DoLink(ino, dir, name) =>
      var i, s := Normalize(ino), Slot(Normalize(dir), name);
      FileOpsCount(t, s, i, Regular, false);
      if !LinkError(t, i, s).Err? {
        SameDirsCount(t, u);
      }
    case DoUnlink(dir, name) =>
      var s := Slot(Normalize(dir), name);
      FileOpsCount(t, s, 0, Regular, false);
      FileOpsCount(t, s, 0, Regular, true);
      if !UnlinkError(t, s).Err? {
        SameDirsCount(t, u);
      }
    case DoRmdir(dir, name) =>
      var s := Slot(Normalize(dir), name);
      if !RmdirError(t, s).Err? {
        RmdirCounts(t, s);
      }
    case DoRename(fromDir, fromName, toDir, toName) =>
      RenameStepIff(t, Slot(Normalize(fromDir), fromName), Slot(Normalize(toDir), toName), u, op);
    case DoOpen(_) =>
    case DoRelease(_, _) =>
      if u != t {
        var i :| i in t.inodes && !IsDir(t, i) && t.inodes[i].nlink == 0 && u == DropOrphan(t, i);
        FileOpsCount(t, Slot(0, ""), i, Regular, false);
        SameDirsCount(t, u);
      }
  }

  lemma RenameStepIff(t: Tree, from: Slot, to: Slot, u: Tree, op: Op)
    requires Inv(t) && DirCountsOk(t) && Moves(t, op, u) && op.DoRename?
    requires from == Slot(Normalize(op.fromDir), op.fromName) && to == Slot(Normalize(op.toDir), op.toName)
    ensures DirCountsOk(u) <==> !Miscounts(t, op)
  {
    hide DirCountsOk, NamespaceModel.Rename, Links, Reaches, Meets, Avoids;
    if !RenameError(t, from, to).Err? {
      if IsDir(t, t.entries[from]) && from.dir != to.dir {
        if !Below(t.inodes, to.dir, t.entries[from]) {
          var n := NotBelowAvoids(t, to.dir, t.entries[from]);
          RenameCountsIff(t, from, to, true, n);
          RenameCountsIff(t, from, to, false, n);
        }
      } else {
        RenameCountsIff(t, from, to, true, 0);
        RenameCountsIff(t, from, to, false, 0);
      }
    }
  }

  /** Over every run, the counts of directories stay right until a directory is replaced in place. */
  lemma {:induction false} RunCounts(trace: seq<Tree>, ops: seq<Op>, n: nat)
    requires IsTrace(trace, ops) && n <= |ops| && DirCountsOk(trace[0]) && forall k | 0 <= k <= |ops| :: Inv(trace[k])
    requires forall k | 0 <= k < n :: !Miscounts(trace[k], ops[k])
    ensures DirCountsOk(trace[n])
    decreases n
  {
    hide Inv, DirCountsOk, Moves, Covered, Miscounts;
    if n > 0 {
      RunCounts(trace, ops, n - 1);
      assert Continues(trace[n - 1], ops[n - 1], trace[n]);
      if Covered(trace[n - 1], ops[n - 1]) {
        StepCountsIff(trace[n - 1], ops[n - 1], trace[n]);
      }
    }
  }

  /** Make two directories and rename one onto the other: the root counts two subdirectories and has one. */
  lemma ReplaceDirectory() returns (trace: seq<Tree>, ops: seq<Op>)
    ensures ops == [DoMkdir(ROOT, "a"), DoMkdir(ROOT, "b"), DoRename(ROOT, "a", ROOT, "b")]
    ensures IsTrace(trace, ops) && trace[0] == RootOnly() && DirCountsOk(trace[2])
    ensures trace[3] == Tree(map[ROOT := Row(Dir, 4, 0), 8 := Row(Dir, 2, ROOT)], map[B := 8]) && !DirCountsOk(trace[3])
  {
    hide Inv, DirCountsOk, Moves, Covered;
    var none := RootOnly();
    var one := NamespaceModel.Mkdir(none, A, 8);
    var two := NamespaceModel.Mkdir(one, B, 16);
    var last := Tree(map[ROOT := Row(Dir, 4, 0), 8 := Row(Dir, 2, ROOT)], map[B := 8]);
    ops := [DoMkdir(ROOT, "a"), DoMkdir(ROOT, "b"), DoRename(ROOT, "a", ROOT, "b")];
    trace := [none, one, two, last];
    RootOnlyOk();
    RootCounts();
    MkdirKeeps(none, A, 8);
    MkdirCounts(none, A, 8);
    MkdirKeeps(one, B, 16);
    MkdirCounts(one, B, 16);
    MkdirMoves(none, "a", 8);
    MkdirMoves(one, "b", 16);
    LastMoves(two, last);
    StepCountsIff(two, ops[2], last);
  }

  lemma RootCounts()
    ensures DirCountsOk(RootOnly())
  {
    assert Subdirs(RootOnly(), ROOT) == {};
  }

  lemma MkdirMoves(t: Tree, name: string, c: Ino)
    requires !CreateError(t, Slot(ROOT, name)).Err? && c != 0 && c !in t.inodes && ROOT in t.inodes
    ensures Covered(t, DoMkdir(ROOT, name))
            && Moves(t, DoMkdir(ROOT, name), NamespaceModel.Mkdir(t, Slot(ROOT, name), c))
  {
  }

  lemma LastMoves(two: Tree, last: Tree)
    requires two == Tree(map[ROOT := Row(Dir, 4, 0), 8 := Row(Dir, 2, ROOT), 16 := Row(Dir, 2, ROOT)],
                 map[A := 8, B := 16])
    requires last == Tree(map[ROOT := Row(Dir, 4, 0), 8 := Row(Dir, 2, ROOT)], map[B := 8])
    ensures var op := DoRename(ROOT, "a", ROOT, "b"); Covered(two, op) && Moves(two, op, last) && Miscounts(two, op)
  {
    assert Empty(two, 16);
    assert Defined(two, A, B) && NamespaceModel.Rename(two, A, B, false) == last;
  }
}
