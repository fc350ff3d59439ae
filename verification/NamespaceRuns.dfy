/** What survives every run of the namespace, restarts and the operations that break the counts included: no entry
    dangles, no file has fewer links counted than names, and every directory has its one name. */
module NamespaceRuns {
  import opened NamespaceModel
  import opened NamespaceProofs
  import opened Namespace

  /** No file is counted below the number of entries naming it. */
  ghost predicate AtLeast(t: Tree) {
    forall i | i in t.inodes && !t.inodes[i].kind.Dir? :: t.inodes[i].nlink >= Links(t.entries, i)
  }

  ghost predicate NotOwnParent(t: Tree) {
    forall d | IsDir(t, d) && d != ROOT :: t.inodes[d].parent != d
  }

  ghost predicate Sound(t: Tree) {
    IsDir(t, ROOT) && 0 !in t.inodes && EntriesOk(t) && AtLeast(t) && DirsOk(t) && NotOwnParent(t)
  }

  /** A turn of a run: an operation, or a restart, which leaves the rows alone. */
  datatype Turn = Act(op: Op) | Restart

  /** What the code may do to the rows, whatever its cache of parents knows and whichever handles are open: the walk of
      a rename may or may not find the moved directory above the new parent, but always if it is the new parent. */
  ghost predicate Takes(t: Tree, turn: Turn, u: Tree) {
    match turn
    case Restart => u == t
    case Act(DoCreate(_, _, Dir)) => u == t
    case Act(DoRename(fromDir, fromName, toDir, toName)) =>
      var from, to := Slot(Normalize(fromDir), fromName), Slot(Normalize(toDir), toName);
      || u == t
      || (&& RenameError(t, from, to).Ok? && Defined(t, from, to)
          && (IsDir(t, t.entries[from]) && from.dir != to.dir ==> to.dir != t.entries[from])
          && (u == NamespaceModel.Rename(t, from, to, true) || u == NamespaceModel.Rename(t, from, to, false)))
    case Act(op) => Moves(t, op, u)
  }

  /** The invariant of covered runs is more than that, and what it says of a step is one of these. */
  lemma InvIsSound(t: Tree)
    requires Inv(t)
    ensures Sound(t)
  {
    hide Links;
    forall d | IsDir(t, d) && d != ROOT
      ensures t.inodes[d].parent != d
    {
      ParentIsDir(t, d);
      var s :| s in t.entries && t.entries[s] == d && s.dir == t.inodes[d].parent;
      EntryNotInItself(t, s);
    }
  }

  lemma MovesTakes(t: Tree, op: Op, u: Tree)
    requires Moves(t, op, u) && Covered(t, op)
    ensures Takes(t, Act(op), u)
  {
    hide NamespaceModel.Rename, Meets;
    if op.DoRename? {
      var from, to := Slot(Normalize(op.fromDir), op.fromName), Slot(Normalize(op.toDir), op.toName);
      if RenameError(t, from, to).Ok? {
        SelfBelow(t.inodes, t.entries[from]);
      }
    }
  }

  // ----- each operation -----

  lemma OnlyEntry(t: Tree, s: Slot)
    requires Sound(t) && s in t.entries && IsDir(t, t.entries[s])
    ensures s.dir == t.inodes[t.entries[s]].parent && s.dir != t.entries[s]
    ensures forall r | r in t.entries && t.entries[r] == t.entries[s] :: r == s
  {
    hide Links, AtLeast;
    assert OneEntry(t, t.entries[s]);
    forall r | r in t.entries && t.entries[r] == t.entries[s]
      ensures r == s
    {
      if r != s {
        TwoNames(t.entries, r, s);
      }
    }
  }

  lemma CreateSound(t: Tree, s: Slot, c: Ino, kind: Kind)
    requires Sound(t) && IsDir(t, s.dir) && s !in t.entries && c !in t.inodes && c != 0 && !kind.Dir?
    ensures Sound(Create(t, s, c, kind))
  {
    hide Links, OneEntry;
    var u := Create(t, s, c, kind);
    forall i | i in u.inodes
      ensures !u.inodes[i].kind.Dir? ==> u.inodes[i].nlink >= Links(u.entries, i)
      ensures u.inodes[i].kind.Dir? && i != ROOT ==> OneEntry(u, i)
    {
      CreateOne(t, s, c, kind, i);
    }
  }

  lemma CreateOne(t: Tree, s: Slot, c: Ino, kind: Kind, i: Ino)
    requires Sound(t) && s !in t.entries && c !in t.inodes && !kind.Dir? && i in Create(t, s, c, kind).inodes
    ensures var u := Create(t, s, c, kind);
            && (!u.inodes[i].kind.Dir? ==> u.inodes[i].nlink >= Links(u.entries, i))
            && (u.inodes[i].kind.Dir? && i != ROOT ==> OneEntry(u, i))
  {
    hide Links;
    LinksAdd(t.entries, s, c, i);
    if i == c {
      NoLinks(t, c);
    } else if IsDir(t, i) && i != ROOT {
      assert OneEntry(t, i);
    }
  }

  lemma MkdirSound(t: Tree, s: Slot, c: Ino)
    requires Sound(t) && IsDir(t, s.dir) && s !in t.entries && c !in t.inodes && c != 0
    ensures Sound(Mkdir(t, s, c))
  {
    hide Links, OneEntry;
    var u := Mkdir(t, s, c);
    forall i | i in u.inodes
      ensures !u.inodes[i].kind.Dir? ==> u.inodes[i].nlink >= Links(u.entries, i)
      ensures u.inodes[i].kind.Dir? && i != ROOT ==> OneEntry(u, i)
    {
      MkdirOne(t, s, c, i);
    }
  }

  lemma MkdirOne(t: Tree, s: Slot, c: Ino, i: Ino)
    requires Sound(t) && IsDir(t, s.dir) && s !in t.entries && c !in t.inodes && i in Mkdir(t, s, c).inodes
    ensures var u := Mkdir(t, s, c);
            && (!u.inodes[i].kind.Dir? ==> u.inodes[i].nlink >= Links(u.entries, i))
            && (u.inodes[i].kind.Dir? && i != ROOT ==> OneEntry(u, i))
  {
    hide Links;
    LinksAdd(t.entries, s, c, i);
    if i == c {
      NoLinks(t, c);
    } else if IsDir(t, i) && i != ROOT {
      assert OneEntry(t, i);
    }
  }

  lemma LinkSound(t: Tree, i: Ino, s: Slot)
    requires Sound(t) && i in t.inodes && !IsDir(t, i) && IsDir(t, s.dir) && s !in t.entries
    ensures Sound(NamespaceModel.Link(t, i, s))
  {
    hide Links;
    var u := NamespaceModel.Link(t, i, s);
    forall k | k in u.inodes
      ensures !u.inodes[k].kind.Dir? ==> u.inodes[k].nlink >= Links(u.entries, k)
      ensures u.inodes[k].kind.Dir? && k != ROOT ==> OneEntry(u, k)
    {
      LinksAdd(t.entries, s, i, k);
      if IsDir(t, k) && k != ROOT {
        assert OneEntry(t, k);
      }
    }
  }

  lemma NoneNames(entries: map<Slot, Ino>, i: Ino)
    requires Links(entries, i) == 0
    ensures forall s | s in entries :: entries[s] != i
  {
    assert Naming(entries, i) == {};
    assert forall s | s in entries :: s !in Naming(entries, i);
  }

  lemma Counted(t: Tree, s: Slot)
    requires s in t.entries
    ensures Links(t.entries, t.entries[s]) >= 1
  {
    assert s in Naming(t.entries, t.entries[s]);
  }

  lemma UnlinkSound(t: Tree, s: Slot, open: bool)
    requires Sound(t) && s in t.entries && !IsDir(t, t.entries[s])
    ensures t.entries[s] in t.inodes && Sound(NamespaceModel.Unlink(t, s, open))
  {
    hide Links;
    var u, c := NamespaceModel.Unlink(t, s, open), t.entries[s];
    Counted(t, s);
    LinksDrop(t.entries, s, c);
    if c !in u.inodes {
      NoneNames(u.entries, c);
    }
    forall k | k in u.inodes
      ensures !u.inodes[k].kind.Dir? ==> u.inodes[k].nlink >= Links(u.entries, k)
      ensures u.inodes[k].kind.Dir? && k != ROOT ==> OneEntry(u, k)
    {
      LinksDrop(t.entries, s, k);
      if IsDir(t, k) && k != ROOT {
        assert OneEntry(t, k);
      }
    }
  }

  lemma RmdirSound(t: Tree, s: Slot)
    requires Sound(t) && s in t.entries && IsDir(t, t.entries[s]) && Empty(t, t.entries[s])
    ensures s.dir in t.inodes && Sound(Rmdir(t, s))
  {
    hide Links, OneEntry;
    var u := Rmdir(t, s);
    OnlyEntry(t, s);
    forall k | k in u.inodes
      ensures !u.inodes[k].kind.Dir? ==> u.inodes[k].nlink >= Links(u.entries, k)
      ensures u.inodes[k].kind.Dir? && k != ROOT ==> OneEntry(u, k)
    {
      RmdirOne(t, s, k);
    }
  }

  lemma RmdirOne(t: Tree, s: Slot, k: Ino)
    requires Sound(t) && s in t.entries && s.dir in t.inodes && k in Rmdir(t, s).inodes && k != t.entries[s]
    ensures var u := Rmdir(t, s);
            && (!u.inodes[k].kind.Dir? ==> u.inodes[k].nlink >= Links(u.entries, k))
            && (u.inodes[k].kind.Dir? && k != ROOT ==> OneEntry(u, k))
  {
    hide Links;
    LinksDrop(t.entries, s, k);
    if IsDir(t, k) && k != ROOT {
      assert OneEntry(t, k);
    }
  }

  lemma DropSound(t: Tree, i: Ino)
    requires Sound(t) && i in t.inodes && !IsDir(t, i) && t.inodes[i].nlink == 0
    ensures Sound(DropOrphan(t, i))
  {
    hide Links;
    NoneNames(t.entries, i);
    var u := DropOrphan(t, i);
    forall k | IsDir(u, k) && k != ROOT
      ensures OneEntry(u, k)
    {
      assert OneEntry(t, k);
    }
  }

  // ----- renaming -----

  /** A rename whose checks passed, not into the directory it moves. */
  ghost predicate GoesAhead(t: Tree, from: Slot, to: Slot) {
    && RenameError(t, from, to).Ok?
    && (IsDir(t, t.entries[from]) && from.dir != to.dir ==> to.dir != t.entries[from])
  }

  lemma RenameApart(t: Tree, from: Slot, to: Slot)
    requires Sound(t) && GoesAhead(t, from, to)
    ensures Defined(t, from, to) && IsDir(t, from.dir) && IsDir(t, to.dir) && t.entries[from] != ROOT
    ensures from.dir != t.entries[from] && to.dir != t.entries[from]
    ensures to in t.entries ==> t.entries[to] != ROOT && from.dir != t.entries[to] && to.dir != t.entries[to]
    ensures from != to && to in t.entries && t.entries[to] == t.entries[from] ==> !IsDir(t, t.entries[from])
  {
    hide Links, AtLeast;
    if IsDir(t, t.entries[from]) {
      OnlyEntry(t, from);
    }
  }

  /** The names that are left: the target has lost one, and so has a file renamed onto another name of itself. */
  lemma RenameNames(entries: map<Slot, Ino>, from: Slot, to: Slot, i: Ino)
    requires from in entries && from != to
    ensures Links((entries - {from})[to := entries[from]], i)
            + (if to in entries && i == entries[to] then 1 else 0) == Links(entries, i)
  {
    hide Links;
    if to in entries && entries[to] == entries[from] {
      assert (entries - {from})[to := entries[from]] == entries - {from};
      LinksDrop(entries, from, i);
    } else {
      RenameLinks(entries, from, to, i);
    }
  }

  /** The row of each inode afterwards. */
  lemma RenamedRow(t: Tree, from: Slot, to: Slot, open: bool, i: Ino)
    requires Sound(t) && GoesAhead(t, from, to) && from != to
    ensures Defined(t, from, to)
    ensures var u, c := NamespaceModel.Rename(t, from, to, open), t.entries[from];
            var target := if to in t.entries && t.entries[to] != c then t.entries[to] else 0;
            && (i in u.inodes ==>
                  && i in t.inodes && u.inodes[i].kind == t.inodes[i].kind
                  && u.inodes[i].parent == if i == c && IsDir(t, c) then to.dir else t.inodes[i].parent)
            && (i in t.inodes && i != target ==>
                  i in u.inodes && (!IsDir(t, i) ==> u.inodes[i].nlink == t.inodes[i].nlink))
            && (i == target && i in t.inodes ==>
                  && (IsDir(t, i) ==> i !in u.inodes)
                  && (!IsDir(t, i) ==>
                        var n := if t.inodes[i].nlink > 1 then t.inodes[i].nlink - 1 else 0;
                        (i !in u.inodes ==> n == 0) && (i in u.inodes ==> u.inodes[i].nlink == n)))
  {
    hide Links, AtLeast, DirsOk;
    RenameApart(t, from, to);
  }

  lemma RenamedOne(t: Tree, from: Slot, to: Slot, open: bool, d: Ino)
    requires Sound(t) && GoesAhead(t, from, to) && from != to
    ensures Defined(t, from, to)
    ensures var u := NamespaceModel.Rename(t, from, to, open);
            && (IsDir(u, d) && d != ROOT ==> OneEntry(u, d) && u.inodes[d].parent != d)
            && (d in u.inodes && !IsDir(u, d) ==> u.inodes[d].nlink >= Links(u.entries, d))
  {
    hide Links, RenameError, NamespaceModel.Rename, EntriesOk;
    RenameApart(t, from, to);
    RenamedRow(t, from, to, open, d);
    RenameNames(t.entries, from, to, d);
    var u := NamespaceModel.Rename(t, from, to, open);
    RenamedEntries(t, from, to, open);
    if IsDir(u, d) && d != ROOT {
      assert OneEntry(t, d);
      if d == t.entries[from] {
        OnlyEntry(t, from);
      }
    }
  }

  lemma RenamedEntries(t: Tree, from: Slot, to: Slot, open: bool)
    requires Defined(t, from, to)
    ensures NamespaceModel.Rename(t, from, to, open).entries == (t.entries - {from})[to := t.entries[from]]
  {
  }

  /** Every entry that is left leads somewhere. */
  lemma RenamedLeads(t: Tree, from: Slot, to: Slot, open: bool, s: Slot)
    requires Sound(t) && GoesAhead(t, from, to) && from != to && Defined(t, from, to)
    requires s in NamespaceModel.Rename(t, from, to, open).entries
    ensures var u := NamespaceModel.Rename(t, from, to, open);
            IsDir(u, s.dir) && u.entries[s] in u.inodes && u.entries[s] != ROOT
  {
    hide Links, RenameError, NamespaceModel.Rename, DirsOk;
    var u, c := NamespaceModel.Rename(t, from, to, open), t.entries[from];
    RenameApart(t, from, to);
    RenamedEntries(t, from, to, open);
    assert IsDir(t, s.dir) && u.entries[s] in t.inodes && u.entries[s] != ROOT;
    RenamedRow(t, from, to, open, s.dir);
    RenamedRow(t, from, to, open, u.entries[s]);
    RenameNames(t.entries, from, to, u.entries[s]);
    Counted(u, s);
    if to in t.entries && t.entries[to] != c && IsDir(t, t.entries[to]) {
      TargetEmpty(t, from, to, s);
      OnlyEntry(t, to);
    }
  }

  lemma TargetEmpty(t: Tree, from: Slot, to: Slot, s: Slot)
    requires GoesAhead(t, from, to) && to in t.entries && IsDir(t, t.entries[to]) && (s in t.entries || s == to)
    requires to.dir != t.entries[to]
    ensures s.dir != t.entries[to]
  {
  }

  lemma RenameSound(t: Tree, from: Slot, to: Slot, open: bool)
    requires Sound(t) && GoesAhead(t, from, to)
    ensures Defined(t, from, to) && Sound(NamespaceModel.Rename(t, from, to, open))
  {
    hide Links, RenameError, NamespaceModel.Rename, GoesAhead, OneEntry;
    RenameApart(t, from, to);
    var u := NamespaceModel.Rename(t, from, to, open);
    if from == to {
      RenameSelf(t, from, open);
    } else {
      RenamedRow(t, from, to, open, ROOT);
      RenamedRow(t, from, to, open, 0);
      forall d
        ensures IsDir(u, d) && d != ROOT ==> OneEntry(u, d) && u.inodes[d].parent != d
        ensures d in u.inodes && !IsDir(u, d) ==> u.inodes[d].nlink >= Links(u.entries, d)
      {
        RenamedOne(t, from, to, open, d);
      }
      forall s | s in u.entries
        ensures IsDir(u, s.dir) && u.entries[s] in u.inodes && u.entries[s] != ROOT
      {
        RenamedLeads(t, from, to, open, s);
      }
    }
  }

  lemma RenameSelf(t: Tree, s: Slot, open: bool)
    requires Sound(t) && GoesAhead(t, s, s)
    ensures Defined(t, s, s) && NamespaceModel.Rename(t, s, s, open) == t
  {
    hide Links, AtLeast;
    RenameApart(t, s, s);
    var u := NamespaceModel.Rename(t, s, s, open);
    if IsDir(t, t.entries[s]) {
      OnlyEntry(t, s);
    }
    assert u.entries == t.entries;
    assert u.inodes == t.inodes;
  }

  // ----- runs -----

  lemma StepSound(t: Tree, turn: Turn, u: Tree)
    requires Sound(t) && Takes(t, turn, u)
    ensures Sound(u)
  {
    hide Sound, NamespaceModel.Rename, Dropped, Raised, Lowered;
    Basics(t);
    if turn.Act? {
      match turn.op
      case DoMkdir(dir, name) =>
        var s := Slot(Normalize(dir), name);
        if CreateError(t, s).Ok? {
          var c: Ino :| c != 0 && c !in t.inodes && u == NamespaceModel.Mkdir(t, s, c);
          MkdirSound(t, s, c);
        }
      case DoCreate(dir, name, kind) =>
        var s := Slot(Normalize(dir), name);
        if CreateError(t, s).Ok? && !kind.Dir? {
          var c: Ino :| c != 0 && c !in t.inodes && u == NamespaceModel.Create(t, s, c, kind);
          CreateSound(t, s, c, kind);
        }
      case DoLink(ino, dir, name) =>
        var i, s := Normalize(ino), Slot(Normalize(dir), name);
        if LinkError(t, i, s).Ok? {
          LinkSound(t, i, s);
        }
      case DoUnlink(dir, name) =>
        var s := Slot(Normalize(dir), name);
        if UnlinkError(t, s).Ok? {
          UnlinkSound(t, s, true);
          UnlinkSound(t, s, false);
        }
      case DoRmdir(dir, name) =>
        var s := Slot(Normalize(dir), name);
        if RmdirError(t, s).Ok? {
          RmdirSound(t, s);
        }
      case DoRename(fromDir, fromName, toDir, toName) =>
        var from, to := Slot(Normalize(fromDir), fromName), Slot(Normalize(toDir), toName);
        if u != t {
          RenameSound(t, from, to, true);
          RenameSound(t, from, to, false);
        }
      case DoOpen(_) =>
      case DoRelease(_, _) =>
        if u != t {
          var i :| i in t.inodes && !IsDir(t, i) && t.inodes[i].nlink == 0 && u == DropOrphan(t, i);
          DropSound(t, i);
        }
    }
  }

  lemma Basics(t: Tree)
    requires Sound(t)
    ensures 0 !in t.inodes && forall s | s in t.entries :: t.entries[s] in t.inodes && s.dir in t.inodes
  {
  }

  /** Any turn of the volume, from a state it reaches with the counts right, is one of these. */
  method Perform(volume: Namespace, turn: Turn)
    requires volume.Valid()
    modifies volume
    ensures Takes(old(volume.State()), turn, volume.State()) && Sound(volume.State())
  {
    hide Inv, Ready, Sound, NamespaceModel.Rename, Seen, Below;
    ghost var t := volume.State();
    InvIsSound(t);
    if turn.Restart? {
      volume.Reload();
    } else if turn.op.DoRename? {
      PerformRename(volume, turn.op);
    } else if turn.op.DoLink? {
      var _ := volume.Link(turn.op.ino, turn.op.dir, turn.op.name);
    } else if !(turn.op.DoCreate? && turn.op.kind.Dir?) {
      volume.Apply(turn.op);
      MovesTakes(t, turn.op, volume.State());
    }
    StepSound(t, turn, volume.State());
  }

  method PerformRename(volume: Namespace, op: Op)
    requires volume.Valid() && op.DoRename?
    modifies volume
    ensures Takes(old(volume.State()), Act(op), volume.State())
  {
    hide Inv, Ready, NamespaceModel.Rename, Seen, Below;
    ghost var t, cache := volume.State(), volume.dirParents;
    var from, to := Slot(Normalize(op.fromDir), op.fromName), Slot(Normalize(op.toDir), op.toName);
    var _ := volume.Rename(op.fromDir, op.fromName, op.toDir, op.toName);
    if RenameError(t, from, to).Ok? && !Seen(t.inodes, Loaded(t, cache, from, to), to.dir, t.entries[from]) {
      Namespace.NotMet(t.inodes, Loaded(t, cache, from, to), to.dir, t.entries[from]);
    }
  }

  ghost predicate IsRun(trace: seq<Tree>, turns: seq<Turn>) {
    |trace| == |turns| + 1 && forall k | 0 <= k < |turns| :: Takes(trace[k], turns[k], trace[k + 1])
  }

  /** Over every run. */
  lemma {:induction false} RunSound(trace: seq<Tree>, turns: seq<Turn>, n: nat)
    requires IsRun(trace, turns) && Sound(trace[0]) && n <= |turns|
    ensures Sound(trace[n])
  {
    hide Sound, Takes;
    if n > 0 {
      RunSound(trace, turns, n - 1);
      StepSound(trace[n - 1], turns[n - 1], trace[n]);
    }
  }
}
