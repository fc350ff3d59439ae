/** The volume's namespace operations: the checks in the source's order, the in-memory cache of directory
    parents, open handles, and the walk that keeps Rename from making a cycle. */
module Namespace {
  import opened NamespaceModel
  import opened NamespaceProofs

  datatype Errno = ENAMETOOLONG | EINVAL | ENOENT | ENOTDIR | EEXIST | EISDIR | EPERM | ENOTEMPTY

  datatype Result = Ok(ino: Ino) | Err(error: Errno)

  const MAX_NAME_LENGTH := 255

  const INODE_STRIDE := 8

  function Normalize(i: Ino): Ino {
    if i == 0 then ROOT else i
  }

  predicate BadName(name: string) {
    name == "" || name == "." || name == ".."
  }

  /** The error a creating operation reports, checked in this order; None means it goes ahead. */
  function CreateError(t: Tree, s: Slot): Result {
    if |s.name| > MAX_NAME_LENGTH then Err(ENAMETOOLONG)
    else if BadName(s.name) then Err(EINVAL)
    else if s.dir !in t.inodes then Err(ENOENT)
    else if !IsDir(t, s.dir) then Err(ENOTDIR)
    else if s in t.entries then Err(EEXIST)
    else Ok(0)
  }

  function LinkError(t: Tree, i: Ino, s: Slot): Result {
    if |s.name| > MAX_NAME_LENGTH then Err(ENAMETOOLONG)
    else if BadName(s.name) then Err(EINVAL)
    else if i !in t.inodes then Err(ENOENT)
    else if IsDir(t, i) then Err(EPERM)
    else CreateError(t, s)
  }

  function UnlinkError(t: Tree, s: Slot): Result {
    if |s.name| > MAX_NAME_LENGTH then Err(ENAMETOOLONG)
    else if s !in t.entries then Err(ENOENT)
    else if t.entries[s] !in t.inodes then Err(ENOENT)
    else if IsDir(t, t.entries[s]) then Err(EISDIR)
    else Ok(t.entries[s])
  }

  function RmdirError(t: Tree, s: Slot): Result {
    if |s.name| > MAX_NAME_LENGTH then Err(ENAMETOOLONG)
    else if s !in t.entries then Err(ENOENT)
    else if t.entries[s] !in t.inodes then Err(ENOENT)
    else if !IsDir(t, t.entries[s]) then Err(ENOTDIR)
    else if !Empty(t, t.entries[s]) then Err(ENOTEMPTY)
    else Ok(t.entries[s])
  }

  /** Everything Rename checks except that the new parent is not below the moved directory. */
  function RenameError(t: Tree, from: Slot, to: Slot): Result {
    if |from.name| > MAX_NAME_LENGTH || |to.name| > MAX_NAME_LENGTH then Err(ENAMETOOLONG)
    else if BadName(from.name) || BadName(to.name) then Err(EINVAL)
    else if from !in t.entries then Err(ENOENT)
    else if to.dir !in t.inodes then Err(ENOENT)
    else if !IsDir(t, to.dir) then Err(ENOTDIR)
    else if IsDir(t, t.entries[from]) then
      if to in t.entries && !IsDir(t, t.entries[to]) then Err(ENOTDIR)
      else if to in t.entries && !Empty(t, t.entries[to]) then Err(ENOTEMPTY)
      else Ok(t.entries[from])
    else if to in t.entries && IsDir(t, t.entries[to]) then Err(EISDIR)
    else Ok(t.entries[from])
  }

  /** The chain of parents from `d` meets `c` within `n` steps. */
  ghost predicate Meets(inodes: map<Ino, Row>, d: Ino, c: Ino, n: nat)
    decreases n
  {
    d == c || (n > 0 && d != ROOT && d in inodes && Meets(inodes, inodes[d].parent, c, n - 1))
  }

  /** `d` is `c` or lies below it. */
  ghost predicate Below(inodes: map<Ino, Row>, d: Ino, c: Ino) {
    exists n: nat :: Meets(inodes, d, c, n)
  }

  // ----- the parent cache and the allocator -----

  /** The cache agrees with the rows, and if it is full it knows every directory that has a subdirectory; every inode
      number in use is below the allocator's next one. */
  ghost predicate Ready(t: Tree, cache: map<Ino, Ino>, next: Ino, full: bool) {
    && ROOT < next && ROOT in t.inodes && t.inodes[ROOT].parent == 0
    && (forall i | i in t.inodes :: i < next)
    && ROOT in cache && cache[ROOT] == ROOT
    && (forall d | d in cache && d != ROOT :: IsDir(t, d) && cache[d] == t.inodes[d].parent)
    && (full ==> forall d {:trigger ParentKnown(t, cache, d)} | IsDir(t, d) && d != ROOT :: ParentKnown(t, cache, d))
  }

  ghost predicate ParentKnown(t: Tree, cache: map<Ino, Ino>, d: Ino) {
    d in t.inodes && t.inodes[d].parent in cache
  }

  /** Loading a directory's row notes its parent. */
  function Noted(t: Tree, cache: map<Ino, Ino>, i: Ino): map<Ino, Ino> {
    if IsDir(t, i) && t.inodes[i].parent != 0 then cache[i := t.inodes[i].parent] else cache
  }

  lemma NotedReady(t: Tree, cache: map<Ino, Ino>, next: Ino, full: bool, i: Ino)
    requires Inv(t) && Ready(t, cache, next, full)
    ensures Ready(t, Noted(t, cache, i), next, full)
    ensures IsDir(t, i) ==> i in Noted(t, cache, i)
    ensures cache.Keys <= Noted(t, cache, i).Keys
  {
    hide Links, Reaches;
    if IsDir(t, i) && i != ROOT {
      ParentIsDir(t, i);
    }
    forall d | full && IsDir(t, d) && d != ROOT
      ensures ParentKnown(t, Noted(t, cache, i), d)
    {
      assert ParentKnown(t, cache, d);
    }
  }

  lemma RootIsDir(t: Tree)
    requires Inv(t)
    ensures IsDir(t, ROOT) && 0 !in t.inodes
  {
  }

  lemma EntryHome(t: Tree, s: Slot)
    requires Inv(t) && s in t.entries
    ensures IsDir(t, s.dir) && t.entries[s] in t.inodes && t.entries[s] != ROOT
  {
  }

  lemma MkdirReady(t: Tree, cache: map<Ino, Ino>, next: Ino, full: bool, s: Slot)
    requires Ready(t, cache, next, full) && IsDir(t, s.dir) && s.dir in cache
    ensures Ready(NamespaceModel.Mkdir(t, s, next), cache[next := s.dir], next + INODE_STRIDE, full)
    ensures next !in t.inodes && next != 0
  {
    var u := NamespaceModel.Mkdir(t, s, next);
    forall d | full && IsDir(u, d) && d != ROOT
      ensures ParentKnown(u, cache[next := s.dir], d)
    {
      assert d != next ==> ParentKnown(t, cache, d);
    }
  }

  lemma CreateReady(t: Tree, cache: map<Ino, Ino>, next: Ino, full: bool, s: Slot, kind: Kind)
    requires Ready(t, cache, next, full) && !kind.Dir?
    ensures Ready(NamespaceModel.Create(t, s, next, kind), cache, next + INODE_STRIDE, full)
  {
    var u := NamespaceModel.Create(t, s, next, kind);
    forall d | full && IsDir(u, d) && d != ROOT
      ensures ParentKnown(u, cache, d)
    {
      assert ParentKnown(t, cache, d);
    }
  }

  /** Rows that lose only a file, or change only counts, leave the cache good. */
  lemma SameDirsReady(t: Tree, u: Tree, cache: map<Ino, Ino>, next: Ino, full: bool)
    requires Ready(t, cache, next, full)
    requires forall i | i in u.inodes :: i in t.inodes
    requires forall i :: IsDir(t, i) <==> IsDir(u, i)
    requires forall i | IsDir(t, i) :: i in u.inodes && u.inodes[i].parent == t.inodes[i].parent
    requires IsDir(t, ROOT)
    ensures Ready(u, cache, next, full)
  {
    forall d | full && IsDir(u, d) && d != ROOT
      ensures ParentKnown(u, cache, d)
    {
      assert ParentKnown(t, cache, d);
    }
  }

  lemma RmdirReady(t: Tree, cache: map<Ino, Ino>, next: Ino, full: bool, s: Slot)
    requires Inv(t) && Ready(t, cache, next, full) && RmdirError(t, s).Ok?
    ensures Ready(NamespaceModel.Rmdir(t, s), cache - {t.entries[s]}, next, full)
  {
    hide Links, Reaches, CountsOk, RootedOk;
    var u, c := NamespaceModel.Rmdir(t, s), t.entries[s];
    EmptyIsNobodysParent(t, c);
    EntryNotInItself(t, s);
    forall d | full && IsDir(u, d) && d != ROOT
      ensures ParentKnown(u, cache - {c}, d)
    {
      assert ParentKnown(t, cache, d);
    }
  }

  /** The cache a rename leaves: the moved directory's new parent, and no replaced directory. */
  function RenamedCache(t: Tree, cache: map<Ino, Ino>, from: Slot, to: Slot): map<Ino, Ino>
    requires from in t.entries
  {
    var moved := if IsDir(t, t.entries[from]) && from.dir != to.dir then cache[t.entries[from] := to.dir] else cache;
    if to in t.entries && IsDir(t, t.entries[to]) then moved - {t.entries[to]} else moved
  }

  lemma RenameReady(t: Tree, cache: map<Ino, Ino>, next: Ino, full: bool, from: Slot, to: Slot, open: bool, steps: nat)
    requires Inv(t) && Ready(t, cache, next, full) && Renames(t, from, to, steps) && to.dir in cache
    ensures Ready(Rename(t, from, to, open), RenamedCache(t, cache, from, to), next, full)
  {
    hide Inv, Renames, Ready, Rename;
    RenameDefined(t, from, to, steps);
    if from == to {
      RenameToItself(t, from, open, steps);
      ReadyWithout(t, cache, next, full, from, steps);
    } else if SameFile(t, from, to) {
      RenameSameDirs(t, from, to, open, steps);
      RootIsDir(t);
      SameDirsReady(t, Rename(t, from, to, open), cache, next, full);
    } else {
      RenameOtherReady(t, cache, next, full, from, to, open, steps);
    }
  }

  lemma ReadyWithout(t: Tree, cache: map<Ino, Ino>, next: Ino, full: bool, s: Slot, steps: nat)
    requires Inv(t) && Ready(t, cache, next, full) && Renames(t, s, s, steps)
    ensures Ready(t, RenamedCache(t, cache, s, s), next, full)
  {
    hide Links, Reaches, Avoids;
    var c := t.entries[s];
    if IsDir(t, c) {
      EmptyIsNobodysParent(t, c);
    }
    forall d | full && IsDir(t, d) && d != ROOT
      ensures ParentKnown(t, RenamedCache(t, cache, s, s), d)
    {
      assert ParentKnown(t, cache, d);
    }
  }

  lemma RenameSameDirs(t: Tree, from: Slot, to: Slot, open: bool, steps: nat)
    requires Inv(t) && Renames(t, from, to, steps) && SameFile(t, from, to)
    ensures var u := Rename(t, from, to, open);
            && (forall i | i in u.inodes :: i in t.inodes)
            && (forall i :: IsDir(t, i) <==> IsDir(u, i))
            && (forall i | IsDir(t, i) :: i in u.inodes && u.inodes[i].parent == t.inodes[i].parent)
            && !IsDir(t, t.entries[from])
  {
    hide Links, Reaches, Avoids;
    assert !IsDir(t, t.entries[from]) by {
      if IsDir(t, t.entries[from]) {
        OnlyName(t, from);
      }
    }
  }

  lemma RenameOtherReady(t: Tree, cache: map<Ino, Ino>, next: Ino, full: bool, from: Slot, to: Slot, open: bool,
                         steps: nat)
    requires Inv(t) && Ready(t, cache, next, full) && Renames(t, from, to, steps) && to.dir in cache
    requires from != to && !SameFile(t, from, to)
    ensures Ready(Rename(t, from, to, open), RenamedCache(t, cache, from, to), next, full)
  {
    hide Links, Inv, Rename, Renames, RenamedCache, OneEntry;
    RenameDefined(t, from, to, steps);
    var u := Rename(t, from, to, open);
    forall i | i in u.inodes
      ensures i in t.inodes && u.inodes[i].kind == t.inodes[i].kind
    {
      RenameRows(t, from, to, open, steps, i);
    }
    RenameDirs(t, from, to, open, steps);
    forall d | full && IsDir(u, d) && d != ROOT
      ensures ParentKnown(u, RenamedCache(t, cache, from, to), d)
    {
      RenameParentKnown(t, cache, next, full, from, to, open, steps, d);
    }
    RenameCacheAgrees(t, cache, next, full, from, to, open, steps);
  }

  lemma RenameDirs(t: Tree, from: Slot, to: Slot, open: bool, steps: nat)
    requires Inv(t) && Renames(t, from, to, steps) && from != to && !SameFile(t, from, to)
    ensures var u, c := Rename(t, from, to, open), t.entries[from];
            && c != ROOT && c != Target(t, to) && IsDir(u, ROOT) && u.inodes[ROOT].parent == t.inodes[ROOT].parent
            && forall d | IsDir(t, d) && d != Target(t, to) ::
                 IsDir(u, d) && u.inodes[d].parent == if d == c then to.dir else t.inodes[d].parent
  {
    hide Links, Reaches, Avoids, Rename, OneEntry;
    RenameDefined(t, from, to, steps);
    RenameDistinct(t, from, to, steps);
    RenameParents(t, from, to, open, steps);
    forall d | IsDir(t, d) && d != Target(t, to)
      ensures IsDir(Rename(t, from, to, open), d)
    {
      RenameRows(t, from, to, open, steps, d);
    }
  }

  lemma RenameParentKnown(t: Tree, cache: map<Ino, Ino>, next: Ino, full: bool, from: Slot, to: Slot, open: bool,
                          steps: nat, d: Ino)
    requires Inv(t) && Ready(t, cache, next, full) && Renames(t, from, to, steps) && to.dir in cache
    requires full && from != to && !SameFile(t, from, to) && IsDir(Rename(t, from, to, open), d) && d != ROOT
    ensures ParentKnown(Rename(t, from, to, open), RenamedCache(t, cache, from, to), d)
  {
    hide Links, Inv, Rename, Renames, OneEntry;
    RenameDefined(t, from, to, steps);
    RenameDistinct(t, from, to, steps);
    RenameRows(t, from, to, open, steps, d);
    RenameDropsTarget(t, from, to, open, steps);
    TargetIsNobodysParent(t, from, to, steps);
    RenameDirs(t, from, to, open, steps);
    assert ParentKnown(t, cache, d);
  }

  lemma RenameCacheAgrees(t: Tree, cache: map<Ino, Ino>, next: Ino, full: bool, from: Slot, to: Slot, open: bool,
                          steps: nat)
    requires Inv(t) && Ready(t, cache, next, full) && Renames(t, from, to, steps) && to.dir in cache
    requires from != to && !SameFile(t, from, to)
    ensures var u, cache' := Rename(t, from, to, open), RenamedCache(t, cache, from, to);
            && ROOT in cache' && cache'[ROOT] == ROOT
            && forall d | d in cache' && d != ROOT :: IsDir(u, d) && cache'[d] == u.inodes[d].parent
  {
    hide Links, Inv, Rename, Renames, OneEntry;
    RenameDefined(t, from, to, steps);
    RenameDistinct(t, from, to, steps);
    RenameDirs(t, from, to, open, steps);
    SameParent(t, from);
    RootIsDir(t);
    var cache' := RenamedCache(t, cache, from, to);
    forall d | d in cache' && d != ROOT
      ensures IsDir(t, d) && d != Target(t, to)
    {
    }
  }

  lemma SameParent(t: Tree, s: Slot)
    requires Inv(t) && s in t.entries
    ensures IsDir(t, t.entries[s]) ==> t.inodes[t.entries[s]].parent == s.dir
  {
    hide Links;
    if IsDir(t, t.entries[s]) {
      assert OneEntry(t, t.entries[s]);
    }
  }

  /** Does a handle hold the rename's target open? */
  predicate TargetOpen(open: map<Ino, nat>, t: Tree, to: Slot) {
    to in t.entries && t.entries[to] in open && open[t.entries[to]] > 0
  }

  // ----- the walk up -----

  /** The chain of parents from `d` meets `c` within `n` steps, over directories the cache knows. */
  ghost predicate Sees(inodes: map<Ino, Row>, cache: map<Ino, Ino>, d: Ino, c: Ino, n: nat)
    decreases n
  {
    d == c || (n > 0 && d != ROOT && d in inodes && d in cache && Sees(inodes, cache, inodes[d].parent, c, n - 1))
  }

  /** The walk up from `d` finds `c`. */
  ghost predicate Seen(inodes: map<Ino, Row>, cache: map<Ino, Ino>, d: Ino, c: Ino) {
    exists n: nat :: Sees(inodes, cache, d, c, n)
  }

  lemma SeenStep(inodes: map<Ino, Row>, cache: map<Ino, Ino>, d: Ino, c: Ino)
    requires d != c && d != ROOT && d in inodes
    ensures Seen(inodes, cache, d, c) <==> d in cache && Seen(inodes, cache, inodes[d].parent, c)
  {
    if Seen(inodes, cache, d, c) {
      var n: nat :| Sees(inodes, cache, d, c, n);
      assert Sees(inodes, cache, inodes[d].parent, c, n - 1);
    }
    if d in cache && Seen(inodes, cache, inodes[d].parent, c) {
      var n: nat :| Sees(inodes, cache, inodes[d].parent, c, n);
      assert Sees(inodes, cache, d, c, n + 1);
    }
  }

  lemma NotSeen(inodes: map<Ino, Row>, cache: map<Ino, Ino>, c: Ino)
    requires c != ROOT
    ensures !Seen(inodes, cache, ROOT, c)
  {
  }

  /** What the walk finds is there. */
  lemma {:induction false} SeesMeets(inodes: map<Ino, Row>, cache: map<Ino, Ino>, d: Ino, c: Ino, n: nat)
    requires Sees(inodes, cache, d, c, n)
    ensures Meets(inodes, d, c, n)
    decreases n
  {
    if d != c {
      SeesMeets(inodes, cache, inodes[d].parent, c, n - 1);
    }
  }

  /** With a full cache it finds all there is. */
  lemma {:induction false} MeetsSees(t: Tree, cache: map<Ino, Ino>, next: Ino, d: Ino, c: Ino, n: nat)
    requires Inv(t) && Ready(t, cache, next, true) && IsDir(t, d) && d in cache && Meets(t.inodes, d, c, n)
    ensures Sees(t.inodes, cache, d, c, n)
    decreases n
  {
    hide Links, Reaches, CountsOk, DirsOk, EntriesOk;
    if d != c {
      ParentIsDir(t, d);
      assert ParentKnown(t, cache, d);
      MeetsSees(t, cache, next, t.inodes[d].parent, c, n - 1);
    }
  }

  lemma SeenIsBelow(t: Tree, cache: map<Ino, Ino>, next: Ino, full: bool, d: Ino, c: Ino)
    requires Inv(t) && Ready(t, cache, next, full) && IsDir(t, d) && d in cache
    ensures Seen(t.inodes, cache, d, c) ==> Below(t.inodes, d, c)
    ensures full ==> (Seen(t.inodes, cache, d, c) <==> Below(t.inodes, d, c))
  {
    hide Inv, Ready, Sees, Meets;
    if Seen(t.inodes, cache, d, c) {
      var n: nat :| Sees(t.inodes, cache, d, c, n);
      SeesMeets(t.inodes, cache, d, c, n);
    }
    if full && Below(t.inodes, d, c) {
      var n: nat :| Meets(t.inodes, d, c, n);
      MeetsSees(t, cache, next, d, c, n);
    }
  }

  /** A chain of parents that does not meet `c` avoids it all the way to the root. */
  lemma NotBelowAvoids(t: Tree, d: Ino, c: Ino) returns (n: nat)
    requires Inv(t) && IsDir(t, d) && !Below(t.inodes, d, c)
    ensures Avoids(t.inodes, d, c, n)
  {
    assert Rooted(t.inodes, d);
    n :| Reaches(t.inodes, d, n);
    ReachesAvoids(t.inodes, d, c, n);
  }

  lemma {:induction false} ReachesAvoids(inodes: map<Ino, Row>, d: Ino, c: Ino, n: nat)
    requires Reaches(inodes, d, n) && !Below(inodes, d, c)
    ensures Avoids(inodes, d, c, n)
    decreases n
  {
    if d == c {
      assert Meets(inodes, d, c, 0);
    } else if d != ROOT {
      BelowParent(inodes, d, c);
      ReachesAvoids(inodes, inodes[d].parent, c, n - 1);
    }
  }

  lemma BelowParent(inodes: map<Ino, Row>, d: Ino, c: Ino)
    requires d in inodes && d != ROOT
    ensures Below(inodes, inodes[d].parent, c) ==> Below(inodes, d, c)
    ensures d != c ==> (Below(inodes, d, c) <==> Below(inodes, inodes[d].parent, c))
  {
    if Below(inodes, inodes[d].parent, c) {
      var m: nat :| Meets(inodes, inodes[d].parent, c, m);
      assert Meets(inodes, d, c, m + 1);
    }
    if d != c && Below(inodes, d, c) {
      var m: nat :| Meets(inodes, d, c, m);
      assert Meets(inodes, inodes[d].parent, c, m - 1);
    }
  }

  // ----- moving a directory below itself -----

  /** The rename moves a directory to below itself. */
  ghost predicate MovesBelow(t: Tree, from: Slot, to: Slot)
    requires from in t.entries
  {
    IsDir(t, t.entries[from]) && from.dir != to.dir && Below(t.inodes, to.dir, t.entries[from])
  }

  /** What the rename writes: below the moved directory every directory keeps its parent, and its own is below it. */
  lemma MovedParents(t: Tree, from: Slot, to: Slot, open: bool)
    requires Inv(t) && RenameError(t, from, to).Ok? && MovesBelow(t, from, to) && to.dir != t.entries[from]
    ensures Defined(t, from, to)
    ensures var u, c := Rename(t, from, to, open), t.entries[from];
            && IsDir(u, c) && u.inodes[c].parent == to.dir
            && forall d | d in u.inodes && IsDir(t, d) && d != c :: u.inodes[d].parent == t.inodes[d].parent
  {
    hide Links, Reaches, Meets;
    EntryNotInItself(t, from);
    assert from != to;
    if to in t.entries && t.entries[to] == t.entries[from] {
      OnlyName(t, from);
    }
  }

  /** From there no chain of parents reaches the root any more. */
  lemma {:induction false} NeverReaches(t: Tree, rows: map<Ino, Row>, top: Ino, c: Ino, d: Ino, n: nat)
    requires Inv(t) && c != ROOT && IsDir(t, d) && Below(t.inodes, d, c) && Below(t.inodes, top, c) && IsDir(t, top)
    requires c in rows ==> rows[c].parent == top
    requires forall i | i in rows && IsDir(t, i) && i != c :: rows[i].parent == t.inodes[i].parent
    ensures !Reaches(rows, d, n)
    decreases n
  {
    assert d != ROOT by {
      RootNotBelow(t.inodes, c);
    }
    if n > 0 && d in rows {
      if d == c {
        NeverReaches(t, rows, top, c, top, n - 1);
      } else {
        ParentIsDir(t, d);
        BelowParent(t.inodes, d, c);
        NeverReaches(t, rows, top, c, t.inodes[d].parent, n - 1);
      }
    }
  }

  lemma RootNotBelow(inodes: map<Ino, Row>, c: Ino)
    requires c != ROOT
    ensures !Below(inodes, ROOT, c)
  {
  }

  /** So the tree falls apart. */
  lemma MovedBelowBreaks(t: Tree, from: Slot, to: Slot, open: bool)
    requires Inv(t) && RenameError(t, from, to).Ok? && MovesBelow(t, from, to) && to.dir != t.entries[from]
    ensures Defined(t, from, to) && !Inv(Rename(t, from, to, open))
  {
    hide Links, Reaches, Meets, Rename, EntriesOk, CountsOk, DirsOk;
    var c := t.entries[from];
    EntryHome(t, from);
    MovedParents(t, from, to, open);
    var u := Rename(t, from, to, open);
    SelfBelow(t.inodes, c);
    forall n: nat
      ensures !Reaches(u.inodes, c, n)
    {
      NeverReaches(t, u.inodes, to.dir, c, c, n);
    }
    assert !Rooted(u.inodes, c);
  }

  lemma SelfBelow(inodes: map<Ino, Row>, c: Ino)
    ensures Below(inodes, c, c)
  {
    assert Meets(inodes, c, c, 0);
  }

  /** The cache after a rename has loaded its rows. */
  function Loaded(t: Tree, cache: map<Ino, Ino>, from: Slot, to: Slot): map<Ino, Ino>
    requires from in t.entries
  {
    var both := Noted(t, Noted(t, Noted(t, cache, to.dir), t.entries[from]), from.dir);
    if to in t.entries then Noted(t, both, t.entries[to]) else both
  }

  /** A rename that passed its checks keeps everything exactly when it is neither between two names of one file nor
      below the directory it moves. */
  lemma CommitKeeps(t: Tree, cache: map<Ino, Ino>, next: Ino, full: bool, from: Slot, to: Slot, open: bool)
    requires Inv(t) && Ready(t, cache, next, full) && RenameError(t, from, to).Ok? && to.dir in cache
    requires IsDir(t, t.entries[from]) && from.dir != to.dir ==> to.dir != t.entries[from]
    ensures Defined(t, from, to)
    ensures !MovesBelow(t, from, to) ==> Ready(Rename(t, from, to, open), RenamedCache(t, cache, from, to), next, full)
    ensures Inv(Rename(t, from, to, open)) <==> !SameFile(t, from, to) && !MovesBelow(t, from, to)
  {
    hide Inv, Ready, Rename, Below, Avoids;
    if MovesBelow(t, from, to) {
      MovedBelowBreaks(t, from, to, open);
    } else {
      var steps := 0;
      if IsDir(t, t.entries[from]) && from.dir != to.dir {
        steps := NotBelowAvoids(t, to.dir, t.entries[from]);
      }
      RenameDefined(t, from, to, steps);
      RenameKeeps(t, from, to, open, steps);
      RenameReady(t, cache, next, full, from, to, open, steps);
    }
  }

  datatype Op =
    | DoMkdir(dir: Ino, name: string)
    | DoCreate(dir: Ino, name: string, kind: Kind)
    | DoLink(ino: Ino, dir: Ino, name: string)
    | DoUnlink(dir: Ino, name: string)
    | DoRmdir(dir: Ino, name: string)
    | DoRename(fromDir: Ino, fromName: string, toDir: Ino, toName: string)
    | DoOpen(ino: Ino)
    | DoRelease(ino: Ino, fh: nat)

  /** The two operations the invariant does not cover: linking an open file that has no name left, and renaming one
      name of a file onto another name of it. */
  predicate Covered(t: Tree, op: Op) {
    match op
    case DoLink(ino, _, _) => Normalize(ino) in t.inodes ==> t.inodes[Normalize(ino)].nlink >= 1
    case DoRename(fromDir, fromName, toDir, toName) =>
      var from, to := Slot(Normalize(fromDir), fromName), Slot(Normalize(toDir), toName);
      from in t.entries && to in t.entries && from != to ==> t.entries[from] != t.entries[to]
    case DoCreate(_, _, kind) => !kind.Dir?
    case _ => true
  }

  /** What an operation does to the tree: nothing when it is refused, else its row transaction, under a new inode
      number, and with whatever handles are open. */
  ghost predicate Moves(t: Tree, op: Op, u: Tree) {
    match op
    case DoMkdir(dir, name) =>
      var s := Slot(Normalize(dir), name);
      if CreateError(t, s).Err? then u == t else exists c: Ino ::
           c != 0 && c !in t.inodes && u == NamespaceModel.Mkdir(t, s, c)
    case DoCreate(dir, name, kind) =>
      var s := Slot(Normalize(dir), name);
      if CreateError(t, s).Err? then u == t else exists c: Ino ::
           c != 0 && c !in t.inodes && u == NamespaceModel.Create(t, s, c, kind)
    case DoLink(ino, dir, name) =>
      var i, s := Normalize(ino), Slot(Normalize(dir), name);
      if LinkError(t, i, s).Err? then u == t else u == NamespaceModel.Link(t, i, s)
    case DoUnlink(dir, name) =>
      var s := Slot(Normalize(dir), name);
      if UnlinkError(t, s).Err? then u == t
      else u == NamespaceModel.Unlink(t, s, true) || u == NamespaceModel.Unlink(t, s, false)
    case DoRmdir(dir, name) =>
      var s := Slot(Normalize(dir), name);
      if RmdirError(t, s).Err? then u == t else s.dir in t.inodes && u == NamespaceModel.Rmdir(t, s)
    case DoRename(fromDir, fromName, toDir, toName) =>
      var from, to := Slot(Normalize(fromDir), fromName), Slot(Normalize(toDir), toName);
      if RenameError(t, from, to).Err? then u == t
      else if IsDir(t, t.entries[from]) && from.dir != to.dir && Below(t.inodes, to.dir, t.entries[from]) then u == t
      else Defined(t, from, to)
           && (u == NamespaceModel.Rename(t, from, to, true) || u == NamespaceModel.Rename(t, from, to, false))
    case DoOpen(_) => u == t
    case DoRelease(_, _) => u == t || exists i ::
      i in t.inodes && !IsDir(t, i) && t.inodes[i].nlink == 0 && u == DropOrphan(t, i)
  }

  /** The open handles: the inode of each, how many each inode has, and the last number given out. */
  datatype Handles = Handles(of: map<nat, Ino>, counts: map<Ino, nat>, last: nat)

  predicate Held(h: Handles, i: Ino) {
    i in h.counts && h.counts[i] > 0
  }

  /** What an operation does to the handles, and how they decide what it does to the tree. */
  ghost predicate Handled(t: Tree, h: Handles, op: Op, u: Tree, g: Handles) {
    match op
    case DoUnlink(dir, name) =>
      var s := Slot(Normalize(dir), name);
      g == h && (UnlinkError(t, s).Ok? ==> u == NamespaceModel.Unlink(t, s, Held(h, t.entries[s])))
    case DoRename(fromDir, fromName, toDir, toName) =>
      var from, to := Slot(Normalize(fromDir), fromName), Slot(Normalize(toDir), toName);
      && g == h
      && (u == t || (Defined(t, from, to) && u == NamespaceModel.Rename(t, from, to, TargetOpen(h.counts, t, to))))
    case DoOpen(ino) =>
      var i := Normalize(ino);
      g == if i in t.inodes then Handles(h.of[h.last + 1 := i],
                                         h.counts[i := (if i in h.counts then h.counts[i] else 0) + 1], h.last + 1)
           else h
    case DoRelease(ino, fh) =>
      var known := fh != 0 && fh in h.of;
      var i, of := if known then h.of[fh] else Normalize(ino), if known then h.of - {fh} else h.of;
      if i in h.counts && h.counts[i] > 1 then
        g == Handles(of, h.counts[i := h.counts[i] - 1], h.last) && u == t
      else
        && g == Handles(of, h.counts - {i}, h.last)
        && u == if i in t.inodes && !IsDir(t, i) && t.inodes[i].nlink == 0 then DropOrphan(t, i) else t
    case _ => g == h
  }

  /** A file that has a handle before and after an operation is still there. */
  lemma HeldStays(t: Tree, h: Handles, op: Op, u: Tree, g: Handles, i: Ino)
    requires Inv(t) && Moves(t, op, u) && Handled(t, h, op, u, g)
    requires i in t.inodes && !IsDir(t, i) && Held(h, i) && Held(g, i)
    ensures i in u.inodes
  {
    hide Links, Reaches, CountsOk, DirsOk, RootedOk, Below;
    if op.DoRmdir? {
      var s := Slot(Normalize(op.dir), op.name);
      if RmdirError(t, s).Ok? {
        EntryHome(t, s);
      }
    }
  }

  ghost predicate Continues(t: Tree, op: Op, u: Tree) {
    if Covered(t, op) then Moves(t, op, u) else u == t
  }

  ghost predicate IsTrace(trace: seq<Tree>, ops: seq<Op>) {
    |trace| == |ops| + 1 && forall k | 0 <= k < |ops| :: Continues(trace[k], ops[k], trace[k + 1])
  }

  lemma NextIsFree(t: Tree, cache: map<Ino, Ino>, next: Ino, full: bool)
    requires Ready(t, cache, next, full)
    ensures next !in t.inodes && next != 0
  {
  }

  // ----- runs that break the counts -----

  function RootOnly(): Tree {
    Tree(map[ROOT := Row(Dir, 2, 0)], map[])
  }

  lemma RootOnlyOk()
    ensures Inv(RootOnly())
  {
    assert Reaches(RootOnly().inodes, ROOT, 0);
  }

  /** Every step does what the model says, and all but the last keeps the invariant. */
  ghost predicate Breaks(trace: seq<Tree>, ops: seq<Op>) {
    && |trace| == |ops| + 1 && ops != [] && trace[0] == RootOnly()
    && (forall k | 0 <= k < |ops| :: Moves(trace[k], ops[k], trace[k + 1]) && Inv(trace[k]))
    && !Inv(trace[|ops|])
  }

  const A: Slot := Slot(ROOT, "a")

  const B: Slot := Slot(ROOT, "b")

  /** The tree with one file `a`. */
  lemma OneFile() returns (t: Tree)
    ensures Inv(t) && Moves(RootOnly(), DoCreate(ROOT, "a", Regular), t)
    ensures t == Tree(map[ROOT := Row(Dir, 2, 0), 8 := Row(Regular, 1, 0)], map[A := 8])
  {
    hide Inv;
    var none := RootOnly();
    RootOnlyOk();
    t := NamespaceModel.Create(none, A, 8, Regular);
    CreateKeeps(none, A, 8, Regular);
    assert !CreateError(none, A).Err?;
  }

  /** Create a file, open it, unlink it, link it: its count ends at two for one name. */
  lemma LinkOfOrphan() returns (trace: seq<Tree>, ops: seq<Op>)
    ensures Breaks(trace, ops)
            && ops == [DoCreate(ROOT, "a", Regular), DoOpen(8), DoUnlink(ROOT, "a"), DoLink(8, ROOT, "b")]
  {
    hide Inv;
    var none := RootOnly();
    RootOnlyOk();
    var one := OneFile();
    UnlinkKeeps(one, A, true);
    var orphan := NamespaceModel.Unlink(one, A, true);
    LinkKeeps(orphan, 8, B);
    ops := [DoCreate(ROOT, "a", Regular), DoOpen(8), DoUnlink(ROOT, "a"), DoLink(8, ROOT, "b")];
    trace := [none, one, one, orphan, NamespaceModel.Link(orphan, 8, B)];
    assert Moves(one, ops[2], orphan) && Moves(orphan, ops[3], trace[4]);
  }

  /** Create a file, link it, rename one name onto the other: its count stays at two for one name. */
  lemma RenameOntoOtherName() returns (trace: seq<Tree>, ops: seq<Op>)
    ensures Breaks(trace, ops)
            && ops == [DoCreate(ROOT, "a", Regular), DoLink(8, ROOT, "b"), DoRename(ROOT, "a", ROOT, "b")]
  {
    hide Inv;
    var none := RootOnly();
    RootOnlyOk();
    var one := OneFile();
    LinkKeeps(one, 8, B);
    var two := NamespaceModel.Link(one, 8, B);
    RenameOntoSameFile(two, A, B, false, 0);
    ops := [DoCreate(ROOT, "a", Regular), DoLink(8, ROOT, "b"), DoRename(ROOT, "a", ROOT, "b")];
    trace := [none, one, two, NamespaceModel.Rename(two, A, B, false)];
    assert Moves(one, ops[1], two) && Moves(two, ops[2], trace[3]);
  }

  const IN_A: Slot := Slot(8, "b")

  const IN_B: Slot := Slot(16, "c")

  const IN_C: Slot := Slot(24, "x")

  /** Directories `a`, `a/b` and `a/b/c`. */
  function Nested(): Tree {
    Tree(map[ROOT := Row(Dir, 3, 0), 8 := Row(Dir, 3, ROOT), 16 := Row(Dir, 3, 8), 24 := Row(Dir, 2, 16)],
         map[A := 8, IN_A := 16, IN_B := 24])
  }

  lemma NestedOk()
    ensures Inv(Nested()) && Ready(Nested(), map[ROOT := ROOT], 32, false)
  {
    hide Inv;
    RootOnlyOk();
    MkdirKeeps(RootOnly(), A, 8);
    var one := NamespaceModel.Mkdir(RootOnly(), A, 8);
    MkdirKeeps(one, IN_A, 16);
    var two := NamespaceModel.Mkdir(one, IN_A, 16);
    MkdirKeeps(two, IN_B, 24);
    assert NamespaceModel.Mkdir(two, IN_B, 24) == Nested();
  }

  /** After a restart, `a` can be moved to `a/b/c/x`: the walk up from `c` does not know the parent of `b`, and the
      three directories are cut off from the root. */
  lemma RestartThenMove()
    ensures var t, cache := Nested(), map[ROOT := ROOT];
            && Inv(t) && Ready(t, cache, 32, false) && RenameError(t, A, IN_C).Ok?
            && MovesBelow(t, A, IN_C) && !Seen(t.inodes, Loaded(t, cache, A, IN_C), 24, 8)
            && Defined(t, A, IN_C) && !Inv(Rename(t, A, IN_C, false))
  {
    hide Inv, Ready, Rename, Meets, Sees;
    var t, cache := Nested(), map[ROOT := ROOT];
    NestedOk();
    assert !RenameError(t, A, IN_C).Err?;
    assert Below(t.inodes, 24, 8) by {
      NestedBelow();
    }
    assert !Seen(t.inodes, Loaded(t, cache, A, IN_C), 24, 8) by {
      NestedUnseen();
    }
    MovedBelowBreaks(t, A, IN_C, false);
  }

  lemma NestedBelow()
    ensures Below(Nested().inodes, 24, 8)
  {
    assert Meets(Nested().inodes, 8, 8, 0);
    assert Meets(Nested().inodes, 16, 8, 1);
    assert Meets(Nested().inodes, 24, 8, 2);
  }

  lemma NestedUnseen()
    ensures !Seen(Nested().inodes, Loaded(Nested(), map[ROOT := ROOT], A, IN_C), 24, 8)
  {
    hide Sees, Seen;
    var rows, cache := Nested().inodes, Loaded(Nested(), map[ROOT := ROOT], A, IN_C);
    assert 16 !in cache;
    SeenStep(rows, cache, 24, 8);
    SeenStep(rows, cache, 16, 8);
  }

  class Namespace {
    var inodes: map<Ino, Row>
    var entries: map<Slot, Ino>
    var dirParents: map<Ino, Ino>
    var handles: map<nat, Ino>
    var openInodes: map<Ino, nat>
    var nextFh: nat
    var nextInode: Ino
    ghost var full: bool

    constructor ()
      ensures Valid() && full
      ensures inodes == map[ROOT := Row(Dir, 2, 0)] && entries == map[] && openInodes == map[]
    {
      inodes, entries, dirParents := map[ROOT := Row(Dir, 2, 0)], map[], map[ROOT := ROOT];
      handles, openInodes, nextFh, nextInode := map[], map[], 0, INODE_STRIDE;
      full := true;
      new;
      assert Reaches(inodes, ROOT, 0);
    }

    ghost function State(): Tree
      reads this
    {
      Tree(inodes, entries)
    }

    ghost function Opened(): Handles
      reads this
    {
      Handles(handles, openInodes, nextFh)
    }

    ghost predicate Valid()
      reads this
    {
      Inv(State()) && Ready(State(), dirParents, nextInode, full)
    }

    predicate HasOpenHandles(i: Ino)
      reads this
    {
      i in openInodes && openInodes[i] > 0
    }

    /** Loading a row notes a directory's parent in the cache. */
    method Load(i: Ino) returns (found: bool)
      requires Valid()
      modifies this`dirParents
      ensures Valid() && found == (i in inodes)
      ensures dirParents == Noted(State(), old(dirParents), i)
      ensures IsDir(State(), i) ==> i in dirParents
    {
      hide Inv, Ready;
      NotedReady(State(), dirParents, nextInode, full, i);
      if i in inodes && inodes[i].kind.Dir? && inodes[i].parent != 0 {
        dirParents := dirParents[i := inodes[i].parent];
      }
      found := i in inodes;
    }

    method Mkdir(dir: Ino, name: string) returns (r: Result)
      requires Valid()
      modifies this
      ensures full == old(full)
      ensures Valid()
      ensures handles == old(handles) && openInodes == old(openInodes) && nextFh == old(nextFh)
      ensures var t, s := old(State()), Slot(Normalize(dir), name);
              if CreateError(t, s).Err? then r == CreateError(t, s) && State() == t && nextInode == old(nextInode)
              else
                && r == Ok(old(nextInode)) && nextInode == r.ino + INODE_STRIDE
                && State() == NamespaceModel.Mkdir(t, s, r.ino)
    {
      hide Inv, Ready, Raised;
      if |name| > MAX_NAME_LENGTH {
        return Err(ENAMETOOLONG);
      }
      var s := Slot(Normalize(dir), name);
      if BadName(name) {
        return Err(EINVAL);
      }
      var found := Load(s.dir);
      if !found {
        return Err(ENOENT);
      }
      if !inodes[s.dir].kind.Dir? {
        return Err(ENOTDIR);
      }
      if s in entries {
        return Err(EEXIST);
      }
      var c := nextInode;
      nextInode := nextInode + INODE_STRIDE;
      MkdirReady(State(), dirParents, c, full, s);
      MkdirKeeps(State(), s, c);
      var parent := Raised(inodes[s.dir], 2);
      dirParents := dirParents[c := s.dir];
      inodes := inodes[c := Row(Dir, 2, s.dir)][s.dir := parent];
      entries := entries[s := c];
      r := Ok(c);
    }

    /** A new file, or, for a regular file, new content for the regular file already there. */
    method CreateFile(dir: Ino, name: string, kind: Kind) returns (r: Result)
      requires Valid() && !kind.Dir? && !kind.Symlink?
      modifies this
      ensures full == old(full)
      ensures Valid()
      ensures handles == old(handles) && openInodes == old(openInodes) && nextFh == old(nextFh)
      ensures var t, s := old(State()), Slot(Normalize(dir), name);
              var e := CreateError(t, s);
              if e == Err(EEXIST) then
                && State() == t && nextInode == old(nextInode)
                && var c := t.entries[s];
                   r == if IsDir(t, c) then Err(EISDIR) else if kind.Regular? && t.inodes[c].kind.Regular? then Ok(c)
                   else Err(EEXIST)
              else if e.Err? then r == e && State() == t && nextInode == old(nextInode)
              else r == Ok(old(nextInode)) && nextInode == r.ino + INODE_STRIDE
                   && State() == NamespaceModel.Create(t, s, r.ino, kind)
    {
      hide Ready, Links, Reaches, CountsOk, DirsOk, RootedOk;
      if |name| > MAX_NAME_LENGTH {
        return Err(ENAMETOOLONG);
      }
      var s := Slot(Normalize(dir), name);
      if BadName(name) {
        return Err(EINVAL);
      }
      var found := Load(s.dir);
      if !found {
        return Err(ENOENT);
      }
      if !inodes[s.dir].kind.Dir? {
        return Err(ENOTDIR);
      }
      if s in entries {
        var c := entries[s];
        found := Load(c);
        if inodes[c].kind.Dir? {
          return Err(EISDIR);
        }
        if !kind.Regular? || !inodes[c].kind.Regular? {
          return Err(EEXIST);
        }
        return Ok(c);
      }
      r := Insert(s, kind);
    }

    method Symlink(dir: Ino, name: string) returns (r: Result)
      requires Valid()
      modifies this
      ensures full == old(full)
      ensures Valid()
      ensures handles == old(handles) && openInodes == old(openInodes) && nextFh == old(nextFh)
      ensures var t, s := old(State()), Slot(Normalize(dir), name);
              if CreateError(t, s).Err? then r == CreateError(t, s) && State() == t && nextInode == old(nextInode)
              else r == Ok(old(nextInode)) && nextInode == r.ino + INODE_STRIDE
                   && State() == NamespaceModel.Create(t, s, r.ino, Kind.Symlink)
    {
      hide Inv, Ready;
      if |name| > MAX_NAME_LENGTH {
        return Err(ENAMETOOLONG);
      }
      var s := Slot(Normalize(dir), name);
      if BadName(name) {
        return Err(EINVAL);
      }
      var found := Load(s.dir);
      if !found {
        return Err(ENOENT);
      }
      if !inodes[s.dir].kind.Dir? {
        return Err(ENOTDIR);
      }
      if s in entries {
        return Err(EEXIST);
      }
      r := Insert(s, Kind.Symlink);
    }

    method Insert(s: Slot, kind: Kind) returns (r: Result)
      requires Valid() && IsDir(State(), s.dir) && s !in entries && !kind.Dir?
      modifies this`inodes, this`entries, this`nextInode
      ensures Valid()
      ensures r == Ok(old(nextInode)) && nextInode == r.ino + INODE_STRIDE
              && State() == NamespaceModel.Create(old(State()), s, r.ino, kind)
    {
      hide Inv;
      var c := nextInode;
      CreateKeeps(State(), s, c, kind);
      CreateReady(State(), dirParents, c, full, s, kind);
      nextInode := nextInode + INODE_STRIDE;
      inodes, entries := inodes[c := Row(kind, 1, 0)], entries[s := c];
      r := Ok(c);
    }

    /** Linking keeps the invariant exactly when the file still has a name. */
    method Link(ino: Ino, dir: Ino, name: string) returns (r: Result)
      requires Valid()
      modifies this
      ensures full == old(full)
      ensures handles == old(handles) && openInodes == old(openInodes) && nextFh == old(nextFh)
              && nextInode == old(nextInode)
      ensures var t, i, s := old(State()), Normalize(ino), Slot(Normalize(dir), name);
              if LinkError(t, i, s).Err? then r == LinkError(t, i, s) && State() == t && Valid()
              else r == Ok(i) && State() == NamespaceModel.Link(t, i, s) && (Valid() <==> t.inodes[i].nlink >= 1)
    {
      hide Inv, Ready;
      var i, s := Normalize(ino), Slot(Normalize(dir), name);
      if |name| > MAX_NAME_LENGTH {
        return Err(ENAMETOOLONG);
      }
      if BadName(name) {
        return Err(EINVAL);
      }
      var found := Load(i);
      if !found {
        return Err(ENOENT);
      }
      if inodes[i].kind.Dir? {
        return Err(EPERM);
      }
      found := Load(s.dir);
      if !found {
        return Err(ENOENT);
      }
      if !inodes[s.dir].kind.Dir? {
        return Err(ENOTDIR);
      }
      if s in entries {
        return Err(EEXIST);
      }
      ghost var t := State();
      LinkKeeps(t, i, s);
      RootIsDir(t);
      inodes, entries := inodes[i := Raised(inodes[i], 1)], entries[s := i];
      SameDirsReady(t, State(), dirParents, nextInode, full);
      r := Ok(i);
    }

    method Unlink(dir: Ino, name: string) returns (r: Result)
      requires Valid()
      modifies this
      ensures full == old(full)
      ensures Valid()
      ensures handles == old(handles) && openInodes == old(openInodes) && nextFh == old(nextFh)
              && nextInode == old(nextInode)
      ensures var t, s := old(State()), Slot(Normalize(dir), name);
              if UnlinkError(t, s).Err? then r == UnlinkError(t, s) && State() == t
              else r == UnlinkError(t, s) && State() == NamespaceModel.Unlink(t, s, old(HasOpenHandles(r.ino)))
    {
      hide Inv, Ready;
      var s := Slot(Normalize(dir), name);
      if |name| > MAX_NAME_LENGTH {
        return Err(ENAMETOOLONG);
      }
      if s !in entries {
        return Err(ENOENT);
      }
      var c := entries[s];
      var found := Load(c);
      if !found {
        return Err(ENOENT);
      }
      if inodes[c].kind.Dir? {
        return Err(EISDIR);
      }
      found := Load(s.dir);
      ghost var t := State();
      UnlinkKeeps(t, s, HasOpenHandles(c));
      RootIsDir(t);
      var row := inodes[c].(nlink := if inodes[c].nlink > 1 then inodes[c].nlink - 1 else 0);
      if row.nlink == 0 && !HasOpenHandles(c) {
        inodes := inodes - {c};
      } else {
        inodes := inodes[c := row];
      }
      entries := entries - {s};
      SameDirsReady(t, State(), dirParents, nextInode, full);
      r := Ok(c);
    }

    method Rmdir(dir: Ino, name: string) returns (r: Result)
      requires Valid()
      modifies this
      ensures full == old(full)
      ensures Valid()
      ensures handles == old(handles) && openInodes == old(openInodes) && nextFh == old(nextFh)
              && nextInode == old(nextInode)
      ensures var t, s := old(State()), Slot(Normalize(dir), name);
              if RmdirError(t, s).Err? then r == RmdirError(t, s) && State() == t
              else r == RmdirError(t, s) && State() == NamespaceModel.Rmdir(t, s)
    {
      hide Inv, Ready, Lowered;
      var s := Slot(Normalize(dir), name);
      if |name| > MAX_NAME_LENGTH {
        return Err(ENAMETOOLONG);
      }
      if s !in entries {
        return Err(ENOENT);
      }
      var c := entries[s];
      var found := Load(c);
      if !found {
        return Err(ENOENT);
      }
      if !inodes[c].kind.Dir? {
        return Err(ENOTDIR);
      }
      if exists e :: e in entries && e.dir == c {
        return Err(ENOTEMPTY);
      }
      found := Load(s.dir);
      ghost var t := State();
      RmdirKeeps(t, s);
      RmdirReady(t, dirParents, nextInode, full, s);
      EntryHome(t, s);
      dirParents := dirParents - {c};
      inodes, entries := (inodes - {c})[s.dir := Lowered(inodes[s.dir], 2)], entries - {s};
      r := Ok(c);
    }

    /** The walk up from the new parent, over the parents the cache knows: does it meet the directory being moved? It
        ends because every chain of parents reaches the root. */
    method Walk(start: Ino, child: Ino) returns (met: bool)
      requires Valid() && IsDir(State(), start) && child != ROOT
      ensures met <==> Seen(inodes, dirParents, start, child)
      ensures full && start in dirParents ==> (met <==> Below(inodes, start, child))
    {
      hide Links, Seen, Below, CountsOk, DirsOk, EntriesOk, Sees;
      var curr := start;
      assert Rooted(inodes, start);
      ghost var left: nat :| Reaches(inodes, start, left);
      if start in dirParents {
        SeenIsBelow(State(), dirParents, nextInode, full, start, child);
      }
      while curr != 0 && curr != ROOT
        invariant IsDir(State(), curr) && Reaches(inodes, curr, left)
        invariant Seen(inodes, dirParents, start, child) <==> Seen(inodes, dirParents, curr, child)
        decreases left
      {
        if curr == child {
          SeenNow(inodes, dirParents, child);
          return true;
        }
        ParentIsDir(State(), curr);
        NotOwnAncestor(inodes, curr, left);
        SeenStep(inodes, dirParents, curr, child);
        if curr !in dirParents || dirParents[curr] == curr {
          return false;
        }
        curr, left := dirParents[curr], left - 1;
      }
      NotSeen(inodes, dirParents, child);
      return false;
    }

    static lemma SeenNow(inodes: map<Ino, Row>, cache: map<Ino, Ino>, c: Ino)
      ensures Seen(inodes, cache, c, c)
    {
      assert Sees(inodes, cache, c, c, 0);
    }

    /** A restart, or a restored snapshot: the rows stay, the cache forgets all but the root, no handle is open. */
    method Reload()
      requires Valid()
      modifies this
      ensures Valid() && !full && State() == old(State()) && dirParents == map[ROOT := ROOT]
      ensures openInodes == map[] && handles == map[] && nextInode == old(nextInode)
    {
      hide Inv;
      dirParents, handles, openInodes := map[ROOT := ROOT], map[], map[];
      full := false;
    }

    /** Rename moves one entry, replacing what the target named. It goes ahead exactly when its checks pass and the walk
        up from the new parent does not meet the moved directory; and it keeps the invariant exactly when source and
        target are not two names of one file and the new parent is not below the moved directory, which the walk can
        miss only if the cache is not full. */
    method Rename(fromDir: Ino, fromName: string, toDir: Ino, toName: string) returns (r: Result)
      requires Valid()
      modifies this
      ensures full == old(full)
      ensures handles == old(handles) && openInodes == old(openInodes) && nextFh == old(nextFh)
              && nextInode == old(nextInode)
      ensures var t, from, to := old(State()), Slot(Normalize(fromDir), fromName), Slot(Normalize(toDir), toName);
              if RenameError(t, from, to).Err? then r == RenameError(t, from, to) && State() == t && Valid()
              else if IsDir(t, t.entries[from]) && from.dir != to.dir
                      && Seen(t.inodes, Loaded(t, old(dirParents), from, to), to.dir, t.entries[from]) then
                r == Err(EINVAL) && State() == t && Valid()
              else
                && r == Ok(t.entries[from]) && Defined(t, from, to)
                && State() == NamespaceModel.Rename(t, from, to, TargetOpen(old(openInodes), t, to))
                && (Valid() <==> !SameFile(t, from, to) && !MovesBelow(t, from, to))
      ensures old(full) ==>
                var t, from, to := old(State()), Slot(Normalize(fromDir), fromName), Slot(Normalize(toDir), toName);
                RenameError(t, from, to).Ok? ==> (MovesBelow(t, from, to) <==> r == Err(EINVAL))
    {
      hide Inv, Ready, NamespaceModel.Rename, Seen, Below;
      var from, to := Slot(Normalize(fromDir), fromName), Slot(Normalize(toDir), toName);
      if |fromName| > MAX_NAME_LENGTH || |toName| > MAX_NAME_LENGTH {
        return Err(ENAMETOOLONG);
      }
      if BadName(fromName) || BadName(toName) {
        return Err(EINVAL);
      }
      if from !in entries {
        return Err(ENOENT);
      }
      var found := Load(to.dir);
      if !found {
        return Err(ENOENT);
      }
      if !inodes[to.dir].kind.Dir? {
        return Err(ENOTDIR);
      }
      var c := entries[from];
      found := Load(c);
      found := Load(from.dir);
      if to in entries {
        found := Load(entries[to]);
        EntryHome(State(), to);
      }
      EntryHome(State(), from);
      ghost var t := State();
      if inodes[c].kind.Dir? {
        if to in entries {
          if !inodes[entries[to]].kind.Dir? {
            return Err(ENOTDIR);
          }
          if exists e :: e in entries && e.dir == entries[to] {
            return Err(ENOTEMPTY);
          }
        }
        if from.dir != to.dir {
          var met := Walk(to.dir, c);
          if met {
            SeenIsBelow(t, dirParents, nextInode, full, to.dir, c);
            return Err(EINVAL);
          }
          NotMet(inodes, dirParents, to.dir, c);
        }
      } else if to in entries && inodes[entries[to]].kind.Dir? {
        return Err(EISDIR);
      }
      Commit(from, to);
      r := Ok(c);
    }

    static lemma NotMet(inodes: map<Ino, Row>, cache: map<Ino, Ino>, d: Ino, c: Ino)
      requires !Seen(inodes, cache, d, c)
      ensures d != c
    {
      if d == c {
        SeenNow(inodes, cache, c);
      }
    }

    /** The row transaction of a rename whose checks have passed. */
    method Commit(from: Slot, to: Slot)
      requires Valid() && RenameError(State(), from, to).Ok? && to.dir in dirParents
      requires IsDir(State(), entries[from]) && from.dir != to.dir ==> to.dir != entries[from]
      modifies this`inodes, this`entries, this`dirParents
      ensures Defined(old(State()), from, to)
      ensures State() == NamespaceModel.Rename(old(State()), from, to, TargetOpen(openInodes, old(State()), to))
      ensures Valid() <==> !SameFile(old(State()), from, to) && !MovesBelow(old(State()), from, to)
    {
      hide Inv, Ready;
      ghost var t, open := State(), TargetOpen(openInodes, State(), to);
      EntryHome(t, from);
      CommitKeeps(t, dirParents, nextInode, full, from, to, open);
      var c := entries[from];
      var isDir := inodes[c].kind.Dir?;
      var moved := isDir && from.dir != to.dir;
      var child := if isDir then inodes[c].(parent := to.dir) else inodes[c];
      var oldParent := if moved then Lowered(inodes[from.dir], 2) else inodes[from.dir];
      var newParent := if moved && to !in entries then Raised(inodes[to.dir], 2) else inodes[to.dir];
      if moved {
        dirParents := dirParents[c := to.dir];
      }
      var rows := inodes;
      if to in entries {
        var target := entries[to];
        if inodes[target].kind.Dir? {
          dirParents := dirParents - {target};
          rows := rows - {target};
        } else {
          var row := inodes[target].(nlink := if inodes[target].nlink > 1 then inodes[target].nlink - 1 else 0);
          rows := if row.nlink == 0 && !HasOpenHandles(target) then rows - {target} else rows[target := row];
        }
      }
      rows := rows[c := child][from.dir := oldParent];
      inodes := if from.dir == to.dir then rows else rows[to.dir := newParent];
      entries := (entries - {from})[to := c];
    }

    method Open(ino: Ino) returns (r: Result, fh: nat)
      requires Valid()
      modifies this
      ensures full == old(full)
      ensures Valid() && State() == old(State()) && nextInode == old(nextInode)
      ensures var i := Normalize(ino);
              if i !in inodes then r == Err(ENOENT) && handles == old(handles) && openInodes == old(openInodes)
                 && nextFh == old(nextFh)
              else
                && r == Ok(i) && fh == nextFh == old(nextFh) + 1
                && handles == old(handles)[fh := i]
                && openInodes == old(openInodes)[i := (if i in old(openInodes) then old(openInodes)[i] else 0) + 1]
    {
      hide Inv, Ready;
      var i := Normalize(ino);
      fh := 0;
      var found := Load(i);
      if !found {
        return Err(ENOENT), 0;
      }
      nextFh := nextFh + 1;
      fh := nextFh;
      handles := handles[fh := i];
      openInodes := openInodes[i := (if i in openInodes then openInodes[i] else 0) + 1];
      r := Ok(i);
    }

    /** The last handle of an unlinked file takes the file with it. */
    method Release(ino: Ino, fh: nat)
      requires Valid()
      modifies this
      ensures full == old(full)
      ensures Valid() && nextInode == old(nextInode) && nextFh == old(nextFh)
      ensures var known := fh != 0 && fh in old(handles);
              var i, t := if known then old(handles)[fh] else Normalize(ino), old(State());
              && handles == (if known then old(handles) - {fh} else old(handles))
              && if i in old(openInodes) && old(openInodes)[i] > 1 then
                   openInodes == old(openInodes)[i := old(openInodes)[i] - 1] && State() == t
                 else
                   && openInodes == old(openInodes) - {i}
                   && State() == if i in t.inodes && !IsDir(t, i) && t.inodes[i].nlink == 0 then DropOrphan(t, i) else t
    {
      hide Inv, Ready;
      var i := Normalize(ino);
      if fh != 0 && fh in handles {
        i := handles[fh];
        handles := handles - {fh};
      }
      if i in openInodes && openInodes[i] > 1 {
        openInodes := openInodes[i := openInodes[i] - 1];
        return;
      }
      openInodes := openInodes - {i};
      var found := Load(i);
      if !found {
        return;
      }
      if !inodes[i].kind.Dir? && inodes[i].nlink == 0 {
        ghost var t := State();
        DropOrphanKeeps(t, i);
        RootIsDir(t);
        inodes := inodes - {i};
        SameDirsReady(t, State(), dirParents, nextInode, full);
      }
    }

    /** Every run of operations the invariant covers, from any valid state: every operation does what the model says
        to the tree and the handles the one before left, and every tree on the way is a tree with the counts right.
        The two the invariant does not cover are skipped here, though the code performs them. */
    method Run(ops: seq<Op>) returns (ghost trace: seq<Tree>, ghost held: seq<Handles>)
      requires Valid() && full
      modifies this
      ensures full == old(full)
      ensures Valid() && IsTrace(trace, ops) && trace[0] == old(State()) && trace[|ops|] == State()
      ensures forall k | 0 <= k <= |ops| :: Inv(trace[k])
      ensures |held| == |trace| && held[0] == old(Opened()) && held[|ops|] == Opened()
      ensures forall k | 0 <= k < |ops| && Covered(trace[k], ops[k]) ::
                Handled(trace[k], held[k], ops[k], trace[k + 1], held[k + 1])
    {
      hide Inv, Ready, Moves, Covered, Handled;
      trace, held := [State()], [Opened()];
      for k := 0 to |ops|
        invariant Valid() && full && |trace| == k + 1 && trace[0] == old(State()) && trace[k] == State()
        invariant forall j | 0 <= j <= k :: Inv(trace[j])
        invariant forall j | 0 <= j < k :: Continues(trace[j], ops[j], trace[j + 1])
        invariant |held| == k + 1 && held[0] == old(Opened()) && held[k] == Opened()
        invariant forall j | 0 <= j < k && Covered(trace[j], ops[j]) ::
                    Handled(trace[j], held[j], ops[j], trace[j + 1], held[j + 1])
      {
        if Covered(Tree(inodes, entries), ops[k]) {
          Apply(ops[k]);
        }
        trace, held := trace + [State()], held + [Opened()];
      }
    }

    method Apply(op: Op)
      requires Valid() && Covered(State(), op) && (op.DoRename? ==> full)
      modifies this
      ensures full == old(full)
      ensures Valid() && Moves(old(State()), op, State())
      ensures Handled(old(State()), old(Opened()), op, State(), Opened())
    {
      hide Inv, Ready;
      NextIsFree(State(), dirParents, nextInode, full);
      match op
      case DoMkdir(dir, name) => var _ := Mkdir(dir, name);
      case DoCreate(dir, name, kind) =>
        if kind.Symlink? {
          var _ := Symlink(dir, name);
        } else {
          var _ := CreateFile(dir, name, kind);
        }
      case DoLink(ino, dir, name) => var _ := Link(ino, dir, name);
      case DoUnlink(dir, name) => var _ := Unlink(dir, name);
      case DoRmdir(dir, name) =>
        if Slot(Normalize(dir), name) in entries {
          EntryHome(State(), Slot(Normalize(dir), name));
        }
        var _ := Rmdir(dir, name);
      case DoRename(fromDir, fromName, toDir, toName) => var _ := Rename(fromDir, fromName, toDir, toName);
      case DoOpen(ino) => var _, _ := Open(ino);
      case DoRelease(ino, fh) => Release(ino, fh);
    }
  }
}
