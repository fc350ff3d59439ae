/** The directory tree as rows: inodes, and directory entries naming them. Each function is the row
    transaction one namespace operation commits. */
module NamespaceModel {

  type Ino = nat

  const ROOT: Ino := 1

  datatype Kind = Dir | Regular | Symlink | Special

  /** `parent` is meaningful for directories only; the root's is 0. */
  datatype Row = Row(kind: Kind, nlink: nat, parent: Ino)

  datatype Slot = Slot(dir: Ino, name: string)

  datatype Tree = Tree(inodes: map<Ino, Row>, entries: map<Slot, Ino>)

  predicate IsDir(t: Tree, i: Ino) {
    i in t.inodes && t.inodes[i].kind.Dir?
  }

  /** Link counts as the source moves them: up from at least `floor`, down to no less than it. */
  function Raised(r: Row, floor: nat): Row {
    r.(nlink := (if r.nlink < floor then floor else r.nlink) + 1)
  }

  function Lowered(r: Row, floor: nat): Row {
    if r.nlink > floor then r.(nlink := r.nlink - 1) else r
  }

  function Mkdir(t: Tree, s: Slot, c: Ino): Tree
    requires s.dir in t.inodes
  {
    var parent := Raised(t.inodes[s.dir], 2);
    Tree(t.inodes[c := Row(Dir, 2, s.dir)][s.dir := parent], t.entries[s := c])
  }

  /** A new file, device, socket, fifo or symlink. */
  function Create(t: Tree, s: Slot, c: Ino, kind: Kind): Tree {
    Tree(t.inodes[c := Row(kind, 1, 0)], t.entries[s := c])
  }

  function Link(t: Tree, i: Ino, s: Slot): Tree
    requires i in t.inodes
  {
    Tree(t.inodes[i := Raised(t.inodes[i], 1)], t.entries[s := i])
  }

  /** One entry fewer names `i`: a count of 0 deletes the row unless a handle holds the inode open. */
  function Dropped(t: Tree, i: Ino, open: bool): map<Ino, Row>
    requires i in t.inodes
  {
    var r := t.inodes[i].(nlink := if t.inodes[i].nlink > 1 then t.inodes[i].nlink - 1 else 0);
    if r.nlink == 0 && !open then t.inodes - {i} else t.inodes[i := r]
  }

  function Unlink(t: Tree, s: Slot, open: bool): Tree
    requires s in t.entries && t.entries[s] in t.inodes
  {
    Tree(Dropped(t, t.entries[s], open), t.entries - {s})
  }

  function Rmdir(t: Tree, s: Slot): Tree
    requires s in t.entries && s.dir in t.inodes
  {
    Tree((t.inodes - {t.entries[s]})[s.dir := Lowered(t.inodes[s.dir], 2)], t.entries - {s})
  }

  predicate Empty(t: Tree, d: Ino) {
    forall s | s in t.entries :: s.dir != d
  }

  /** The rows of the replaced target: a directory row is deleted, another row loses a link. */
  function Replaced(t: Tree, to: Slot, open: bool): map<Ino, Row>
    requires to in t.entries ==> t.entries[to] in t.inodes
  {
    if to !in t.entries then t.inodes
    else if IsDir(t, t.entries[to]) then t.inodes - {t.entries[to]}
    else Dropped(t, t.entries[to], open)
  }

  /** The rows a rename reads are there. */
  predicate Defined(t: Tree, from: Slot, to: Slot) {
    && from in t.entries && t.entries[from] in t.inodes && from.dir in t.inodes && to.dir in t.inodes
    && (to in t.entries ==> t.entries[to] in t.inodes)
  }

  /** Every row written here was copied before the transaction began, so a later write of the same row
      replaces an earlier one whole. */
  function Rename(t: Tree, from: Slot, to: Slot, open: bool): Tree
    requires Defined(t, from, to)
  {
    var c := t.entries[from];
    var child := if IsDir(t, c) then t.inodes[c].(parent := to.dir) else t.inodes[c];
    var moved := IsDir(t, c) && from.dir != to.dir;
    var oldParent := if moved then Lowered(t.inodes[from.dir], 2) else t.inodes[from.dir];
    var newParent := if moved && to !in t.entries then Raised(t.inodes[to.dir], 2) else t.inodes[to.dir];
    var rows := Replaced(t, to, open)[c := child][from.dir := oldParent];
    Tree(if from.dir == to.dir then rows else rows[to.dir := newParent], (t.entries - {from})[to := c])
  }

  function DropOrphan(t: Tree, i: Ino): Tree {
    t.(inodes := t.inodes - {i})
  }
}

/** What every namespace operation keeps, and exactly when it does not. */
module NamespaceProofs {
  import opened NamespaceModel

  ghost function Naming(entries: map<Slot, Ino>, i: Ino): set<Slot> {
    set s | s in entries && entries[s] == i
  }

  /** The number of entries naming `i`. */
  ghost function Links(entries: map<Slot, Ino>, i: Ino): nat {
    |Naming(entries, i)|
  }

  lemma LinksAdd(entries: map<Slot, Ino>, s: Slot, c: Ino, i: Ino)
    requires s !in entries
    ensures Links(entries[s := c], i) == Links(entries, i) + if i == c then 1 else 0
  {
    assert Naming(entries[s := c], i) == Naming(entries, i) + if i == c then {s} else {};
  }

  lemma LinksDrop(entries: map<Slot, Ino>, s: Slot, i: Ino)
    requires s in entries
    ensures Links(entries - {s}, i) + (if i == entries[s] then 1 else 0) == Links(entries, i)
  {
    assert Naming(entries - {s}, i) == Naming(entries, i) - {s};
  }

  /** The chain of parents from `d` reaches the root in at most `n` steps. */
  ghost predicate Reaches(inodes: map<Ino, Row>, d: Ino, n: nat)
    decreases n
  {
    d == ROOT || (n > 0 && d in inodes && Reaches(inodes, inodes[d].parent, n - 1))
  }

  ghost predicate Rooted(inodes: map<Ino, Row>, d: Ino) {
    exists n: nat :: Reaches(inodes, d, n)
  }

  /** Every entry sits in a directory and names an inode other than the root. */
  ghost predicate EntriesOk(t: Tree) {
    forall s | s in t.entries :: IsDir(t, s.dir) && t.entries[s] in t.inodes && t.entries[s] != ROOT
  }

  /** A file's link count is the number of entries naming it. */
  ghost predicate CountsOk(t: Tree) {
    forall i | i in t.inodes && !t.inodes[i].kind.Dir? :: t.inodes[i].nlink == Links(t.entries, i)
  }

  /** A directory other than the root has exactly one entry, in the directory its row calls its parent. */
  ghost predicate OneEntry(t: Tree, d: Ino)
    requires d in t.inodes
  {
    && Links(t.entries, d) == 1
    && forall s | s in t.entries && t.entries[s] == d :: s.dir == t.inodes[d].parent
  }

  ghost predicate DirsOk(t: Tree) {
    forall d | IsDir(t, d) && d != ROOT :: OneEntry(t, d)
  }

  ghost predicate RootedOk(t: Tree) {
    forall d | IsDir(t, d) :: Rooted(t.inodes, d)
  }

  ghost predicate Inv(t: Tree) {
    && IsDir(t, ROOT) && 0 !in t.inodes
    && EntriesOk(t)
    && CountsOk(t)
    && DirsOk(t)
    && RootedOk(t)
  }

  /** The parent of a directory is a directory. */
  lemma ParentIsDir(t: Tree, d: Ino)
    requires Inv(t) && IsDir(t, d) && d != ROOT
    ensures IsDir(t, t.inodes[d].parent)
    ensures exists s :: s in t.entries && t.entries[s] == d && s.dir == t.inodes[d].parent
  {
    assert OneEntry(t, d);
    var s :| s in Naming(t.entries, d);
    assert s in t.entries && t.entries[s] == d;
  }

  // ----- chains of parents -----

  /** Rows that keep every parent keep every chain. */
  lemma {:induction false} ReachesIn(inodes: map<Ino, Row>, rows: map<Ino, Row>, d: Ino, n: nat)
    requires Reaches(inodes, d, n)
    requires forall i | i in inodes && i != ROOT :: i in rows && rows[i].parent == inodes[i].parent
    ensures Reaches(rows, d, n)
    decreases n
  {
    if d != ROOT {
      ReachesIn(inodes, rows, inodes[d].parent, n - 1);
    }
  }

  /** A chain of directories survives the loss of rows that are nobody's parent. */
  lemma {:induction false} ReachesWithout(t: Tree, rows: map<Ino, Row>, gone: Ino, d: Ino, n: nat)
    requires Inv(t) && IsDir(t, d) && d != gone && gone != ROOT && Reaches(t.inodes, d, n)
    requires forall i | IsDir(t, i) && i != ROOT && i != gone :: i in rows && rows[i].parent == t.inodes[i].parent
    requires forall i | IsDir(t, i) && i != ROOT :: t.inodes[i].parent != gone
    ensures Reaches(rows, d, n)
    decreases n
  {
    if d != ROOT {
      ParentIsDir(t, d);
      ReachesWithout(t, rows, gone, t.inodes[d].parent, n - 1);
    }
  }

  lemma RootedWithout(t: Tree, rows: map<Ino, Row>, gone: Ino, d: Ino)
    requires Inv(t) && IsDir(t, d) && d != gone && gone != ROOT
    requires forall i | IsDir(t, i) && i != ROOT && i != gone :: i in rows && rows[i].parent == t.inodes[i].parent
    requires forall i | IsDir(t, i) && i != ROOT :: t.inodes[i].parent != gone
    ensures Rooted(rows, d)
  {
    var n: nat :| Reaches(t.inodes, d, n);
    ReachesWithout(t, rows, gone, d, n);
  }

  // ----- creating -----

  lemma CreateKeeps(t: Tree, s: Slot, c: Ino, kind: Kind)
    requires Inv(t) && IsDir(t, s.dir) && s !in t.entries && c !in t.inodes && c != 0 && !kind.Dir?
    ensures Inv(Create(t, s, c, kind))
  {
    hide Links, Reaches;
    var u := Create(t, s, c, kind);
    forall i | i in u.inodes
      ensures !u.inodes[i].kind.Dir? ==> u.inodes[i].nlink == Links(u.entries, i)
      ensures u.inodes[i].kind.Dir? && i != ROOT ==> OneEntry(u, i)
    {
      LinksAdd(t.entries, s, c, i);
      if i == c {
        NoLinks(t, c);
      } else if IsDir(t, i) && i != ROOT {
        assert OneEntry(t, i);
      }
    }
    forall d | IsDir(u, d)
      ensures Rooted(u.inodes, d)
    {
      assert IsDir(t, d) && Rooted(t.inodes, d);
      var n: nat :| Reaches(t.inodes, d, n);
      ReachesIn(t.inodes, u.inodes, d, n);
    }
  }

  lemma NoLinks(t: Tree, c: Ino)
    requires EntriesOk(t) && c !in t.inodes
    ensures Links(t.entries, c) == 0
  {
    assert Naming(t.entries, c) == {};
  }

  lemma MkdirKeeps(t: Tree, s: Slot, c: Ino)
    requires Inv(t) && IsDir(t, s.dir) && s !in t.entries && c !in t.inodes && c != 0
    ensures Inv(Mkdir(t, s, c))
  {
    hide Links;
    var u := Mkdir(t, s, c);
    forall i | i in u.inodes
      ensures !u.inodes[i].kind.Dir? ==> u.inodes[i].nlink == Links(u.entries, i)
      ensures u.inodes[i].kind.Dir? && i != ROOT ==> OneEntry(u, i)
    {
      LinksAdd(t.entries, s, c, i);
      if i == c {
        NoLinks(t, c);
      } else if IsDir(t, i) && i != ROOT {
        assert OneEntry(t, i);
      }
    }
    forall d | IsDir(u, d)
      ensures Rooted(u.inodes, d)
    {
      var p := if d == c then s.dir else d;
      assert IsDir(t, p) && Rooted(t.inodes, p);
      var n: nat :| Reaches(t.inodes, p, n);
      ReachesIn(t.inodes, u.inodes, p, n);
      assert d == c ==> Reaches(u.inodes, d, n + 1);
    }
  }

  lemma LinkCounts(t: Tree, i: Ino, s: Slot)
    requires Inv(t) && i in t.inodes && !IsDir(t, i) && IsDir(t, s.dir) && s !in t.entries
    ensures Links(t.entries[s := i], i) == t.inodes[i].nlink + 1
    ensures CountsOk(Link(t, i, s)) <==> t.inodes[i].nlink >= 1
  {
    hide Links, RootedOk, DirsOk;
    var u := Link(t, i, s);
    forall k | k in u.inodes && !u.inodes[k].kind.Dir?
      ensures Links(u.entries, k) == t.inodes[k].nlink + if k == i then 1 else 0
    {
      LinksAdd(t.entries, s, i, k);
    }
  }

  /** Linking keeps the counts exactly when the file still had a link: an open file with no name left is
      counted from 1, and ends one too high. */
  lemma LinkKeeps(t: Tree, i: Ino, s: Slot)
    requires Inv(t) && i in t.inodes && !IsDir(t, i) && IsDir(t, s.dir) && s !in t.entries
    ensures Inv(Link(t, i, s)) <==> t.inodes[i].nlink >= 1
  {
    hide Links, CountsOk, Reaches;
    var u := Link(t, i, s);
    LinkCounts(t, i, s);
    forall k | IsDir(u, k) && k != ROOT
      ensures OneEntry(u, k)
    {
      LinksAdd(t.entries, s, i, k);
      assert OneEntry(t, k);
    }
    forall d | IsDir(u, d)
      ensures Rooted(u.inodes, d)
    {
      assert IsDir(t, d) && Rooted(t.inodes, d);
      var n: nat :| Reaches(t.inodes, d, n);
      ReachesIn(t.inodes, u.inodes, d, n);
    }
  }

  // ----- removing -----

  lemma UnlinkRow(t: Tree, s: Slot, open: bool, k: Ino)
    requires Inv(t) && s in t.entries && !IsDir(t, t.entries[s]) && k in Unlink(t, s, open).inodes
    ensures var u := Unlink(t, s, open);
            && (!u.inodes[k].kind.Dir? ==> u.inodes[k].nlink == Links(u.entries, k))
            && (u.inodes[k].kind.Dir? && k != ROOT ==> OneEntry(u, k))
  {
    hide Links, Reaches, Naming, RootedOk;
    LinkedOnce(t.entries, s);
    LinksDrop(t.entries, s, k);
    if IsDir(t, k) && k != ROOT {
      assert OneEntry(t, k);
    }
  }

  lemma UnlinkKeeps(t: Tree, s: Slot, open: bool)
    requires Inv(t) && s in t.entries && !IsDir(t, t.entries[s])
    ensures Inv(Unlink(t, s, open))
  {
    hide Links, Reaches, Naming, OneEntry;
    var u, c := Unlink(t, s, open), t.entries[s];
    forall k | k in u.inodes
      ensures !u.inodes[k].kind.Dir? ==> u.inodes[k].nlink == Links(u.entries, k)
      ensures u.inodes[k].kind.Dir? && k != ROOT ==> OneEntry(u, k)
    {
      UnlinkRow(t, s, open, k);
    }
    LinkedOnce(t.entries, s);
    LinksDrop(t.entries, s, c);
    if c !in u.inodes {
      NoNaming(u.entries, c);
    }
    FileIsNobodysParent(t, c);
    forall d | IsDir(u, d)
      ensures Rooted(u.inodes, d)
    {
      RootedWithout(t, u.inodes, c, d);
    }
  }

  lemma LinkedOnce(entries: map<Slot, Ino>, s: Slot)
    requires s in entries
    ensures Links(entries, entries[s]) >= 1
  {
    assert s in Naming(entries, entries[s]);
  }

  lemma NoNaming(entries: map<Slot, Ino>, c: Ino)
    requires Links(entries, c) == 0
    ensures forall s | s in entries :: entries[s] != c
  {
    forall s | s in entries
      ensures entries[s] != c
    {
      assert Naming(entries, c) == {};
      assert s !in Naming(entries, c);
    }
  }

  lemma FileIsNobodysParent(t: Tree, c: Ino)
    requires Inv(t) && !IsDir(t, c)
    ensures forall i | IsDir(t, i) && i != ROOT :: t.inodes[i].parent != c
  {
    forall i | IsDir(t, i) && i != ROOT
      ensures t.inodes[i].parent != c
    {
      ParentIsDir(t, i);
    }
  }

  lemma EmptyIsNobodysParent(t: Tree, d: Ino)
    requires Inv(t) && Empty(t, d)
    ensures forall i | IsDir(t, i) && i != ROOT :: t.inodes[i].parent != d
  {
    forall i | IsDir(t, i) && i != ROOT
      ensures t.inodes[i].parent != d
    {
      ParentIsDir(t, i);
    }
  }

  lemma RmdirKeeps(t: Tree, s: Slot)
    requires Inv(t) && s in t.entries && IsDir(t, t.entries[s]) && Empty(t, t.entries[s])
    ensures Inv(Rmdir(t, s))
  {
    hide Links, Reaches, Naming;
    var u, c := Rmdir(t, s), t.entries[s];
    assert OneEntry(t, c);
    assert s.dir != c;
    forall k | k in u.inodes
      ensures !u.inodes[k].kind.Dir? ==> u.inodes[k].nlink == Links(u.entries, k)
      ensures u.inodes[k].kind.Dir? && k != ROOT ==> OneEntry(u, k)
    {
      LinksDrop(t.entries, s, k);
      if IsDir(t, k) && k != ROOT {
        assert OneEntry(t, k);
      }
    }
    LinksDrop(t.entries, s, c);
    NoNaming(u.entries, c);
    forall d | IsDir(u, d)
      ensures Rooted(u.inodes, d)
    {
      EmptyIsNobodysParent(t, c);
      RootedWithout(t, u.inodes, c, d);
    }
  }

  lemma DropOrphanKeeps(t: Tree, i: Ino)
    requires Inv(t) && i in t.inodes && !IsDir(t, i) && t.inodes[i].nlink == 0
    ensures Inv(DropOrphan(t, i))
  {
    var u := DropOrphan(t, i);
    NoNaming(t.entries, i);
    forall d | IsDir(u, d) && d != ROOT
      ensures OneEntry(u, d)
    {
      assert OneEntry(t, d);
    }
    forall d | IsDir(u, d)
      ensures Rooted(u.inodes, d)
    {
      FileIsNobodysParent(t, i);
      RootedWithout(t, u.inodes, i, d);
    }
  }

  // ----- renaming -----

  /** The checks Rename makes before it commits. `steps` bounds the walk up from the new parent, which
      must not meet the directory being moved. */
  ghost predicate Renames(t: Tree, from: Slot, to: Slot, steps: nat) {
    && from in t.entries && IsDir(t, to.dir)
    && var c := t.entries[from];
       if IsDir(t, c) then
         && (to in t.entries ==> IsDir(t, t.entries[to]) && Empty(t, t.entries[to]))
         && (from.dir != to.dir ==> Avoids(t.inodes, to.dir, c, steps))
       else
         to in t.entries ==> !IsDir(t, t.entries[to])
  }

  /** The chain of parents from `d` reaches the root within `n` steps without meeting `c`. */
  ghost predicate Avoids(inodes: map<Ino, Row>, d: Ino, c: Ino, n: nat)
    decreases n
  {
    d != c && (d == ROOT || (n > 0 && d in inodes && Avoids(inodes, inodes[d].parent, c, n - 1)))
  }

  /** The one rename that breaks the counts: two names of one file. */
  predicate SameFile(t: Tree, from: Slot, to: Slot)
    requires from in t.entries
  {
    from != to && to in t.entries && t.entries[to] == t.entries[from]
  }

  lemma {:induction false} NotOwnAncestor(inodes: map<Ino, Row>, d: Ino, n: nat)
    requires Reaches(inodes, d, n) && d != ROOT && d in inodes
    ensures inodes[d].parent != d
    decreases n
  {
    if inodes[d].parent == d {
      NotOwnAncestor(inodes, d, n - 1);
    }
  }

  lemma EntryNotInItself(t: Tree, s: Slot)
    requires Inv(t) && s in t.entries
    ensures s.dir != t.entries[s]
  {
    var d := t.entries[s];
    if IsDir(t, d) {
      assert OneEntry(t, d) && Rooted(t.inodes, d);
      var n: nat :| Reaches(t.inodes, d, n);
      NotOwnAncestor(t.inodes, d, n);
    }
  }

  /** The rows a rename writes, when the target is another inode or absent: none clobbers another. */
  lemma RenameDistinct(t: Tree, from: Slot, to: Slot, steps: nat)
    requires Inv(t) && Renames(t, from, to, steps) && !(to in t.entries && t.entries[to] == t.entries[from])
    ensures var c := t.entries[from];
            && c != ROOT && from.dir != c && to.dir != c && IsDir(t, from.dir) && c in t.inodes
            && (to in t.entries ==> t.entries[to] !in {c, from.dir, to.dir, ROOT})
            && (to in t.entries ==> t.entries[to] in t.inodes)
  {
    EntryNotInItself(t, from);
    if to in t.entries {
      EntryNotInItself(t, to);
    }
  }

  lemma RenameLinks(entries: map<Slot, Ino>, from: Slot, to: Slot, i: Ino)
    requires from in entries && from != to && !(to in entries && entries[to] == entries[from])
    ensures Links((entries - {from})[to := entries[from]], i) + (if to in entries && i == entries[to] then 1
                else 0) == Links(entries, i)
  {
    hide Links, Naming;
    var c := entries[from];
    LinksDrop(entries, from, i);
    if to in entries {
      LinksDrop(entries - {from}, to, i);
      LinksAdd(entries - {from} - {to}, to, c, i);
      assert (entries - {from} - {to})[to := c] == (entries - {from})[to := c];
    } else {
      LinksAdd(entries - {from}, to, c, i);
    }
  }

  /** Renaming an entry onto itself commits the rows it read. */
  lemma RenameToItself(t: Tree, s: Slot, open: bool, steps: nat)
    requires Inv(t) && Renames(t, s, s, steps)
    ensures Rename(t, s, s, open) == t
  {
    var c, u := t.entries[s], Rename(t, s, s, open);
    EntryNotInItself(t, s);
    if IsDir(t, c) {
      assert OneEntry(t, c);
    }
    assert u.entries == t.entries;
    assert u.inodes == t.inodes;
  }

  /** Renaming one name of a file onto another drops a name but not a link. */
  lemma RenameOntoSameFile(t: Tree, from: Slot, to: Slot, open: bool, steps: nat)
    requires Inv(t) && Renames(t, from, to, steps) && SameFile(t, from, to)
    ensures !Inv(Rename(t, from, to, open))
  {
    hide Links, Reaches;
    var c, u := t.entries[from], Rename(t, from, to, open);
    EntryNotInItself(t, from);
    EntryNotInItself(t, to);
    assert !IsDir(t, c) by {
      if IsDir(t, c) {
        OnlyName(t, from);
      }
    }
    assert u.entries == t.entries - {from};
    LinksDrop(t.entries, from, c);
    assert u.inodes[c].nlink == t.inodes[c].nlink;
  }

  lemma TwoNames(entries: map<Slot, Ino>, a: Slot, b: Slot)
    requires a in entries && b in entries && a != b && entries[a] == entries[b]
    ensures Links(entries, entries[a]) >= 2
  {
    assert {a, b} <= Naming(entries, entries[a]);
    SubsetSize({a, b}, Naming(entries, entries[a]));
  }

  lemma SubsetSize<T>(a: set<T>, b: set<T>)
    requires a <= b
    ensures |a| <= |b|
  {
    assert b == a + (b - a);
  }

  lemma RenameRows(t: Tree, from: Slot, to: Slot, open: bool, steps: nat, i: Ino)
    requires Inv(t) && Renames(t, from, to, steps) && !(to in t.entries && t.entries[to] == t.entries[from])
             && from != to
    requires i in Rename(t, from, to, open).inodes
    ensures var u := Rename(t, from, to, open);
            && i in t.inodes && u.inodes[i].kind == t.inodes[i].kind
            && (!u.inodes[i].kind.Dir? ==> u.inodes[i].nlink == Links(u.entries, i))
            && (u.inodes[i].kind.Dir? ==>
                   u.inodes[i].parent == if i == t.entries[from] then to.dir else t.inodes[i].parent)
            && (u.inodes[i].kind.Dir? && i != ROOT ==> OneEntry(u, i))
  {
    hide Links, Reaches, RootedOk, Avoids;
    var u, c := Rename(t, from, to, open), t.entries[from];
    RenameDistinct(t, from, to, steps);
    RenameLinks(t.entries, from, to, i);
    if to in t.entries {
      LinkedOnce(t.entries, to);
    }
    if IsDir(t, i) && i != ROOT {
      assert OneEntry(t, i);
      if i == c {
        OnlyName(t, from);
      }
    }
  }

  lemma OnlyName(t: Tree, s: Slot)
    requires Inv(t) && s in t.entries && IsDir(t, t.entries[s])
    ensures forall r | r in t.entries && t.entries[r] == t.entries[s] :: r == s
  {
    hide Links;
    assert OneEntry(t, t.entries[s]);
    forall r | r in t.entries && t.entries[r] == t.entries[s]
      ensures r == s
    {
      if r != s {
        TwoNames(t.entries, r, s);
      }
    }
  }

  /** The moved directory's new chain of parents. */
  lemma {:induction false} AvoidsKeeps(t: Tree, rows: map<Ino, Row>, gone: Ino, c: Ino, d: Ino, n: nat)
    requires Inv(t) && IsDir(t, d) && d != gone && gone != ROOT && Avoids(t.inodes, d, c, n)
    requires forall i | IsDir(t, i) && i != ROOT && i != gone && i != c ::
               i in rows && rows[i].parent == t.inodes[i].parent
    requires forall i | IsDir(t, i) && i != ROOT :: t.inodes[i].parent != gone
    ensures Reaches(rows, d, n)
    decreases n
  {
    if d != ROOT {
      ParentIsDir(t, d);
      AvoidsKeeps(t, rows, gone, c, t.inodes[d].parent, n - 1);
    }
  }

  lemma {:induction false} MovedKeeps(t: Tree, rows: map<Ino, Row>, gone: Ino, c: Ino, d: Ino, n: nat)
    requires Inv(t) && IsDir(t, d) && d != gone && gone != ROOT && Reaches(t.inodes, d, n)
    requires forall i | IsDir(t, i) && i != ROOT && i != gone && i != c ::
               i in rows && rows[i].parent == t.inodes[i].parent
    requires forall i | IsDir(t, i) && i != ROOT :: t.inodes[i].parent != gone
    requires c in rows && Rooted(rows, rows[c].parent)
    ensures Rooted(rows, d)
    decreases n
  {
    if d == ROOT {
      assert Reaches(rows, d, 0);
    } else if d == c {
      var m: nat :| Reaches(rows, rows[c].parent, m);
      assert Reaches(rows, c, m + 1);
    } else {
      ParentIsDir(t, d);
      MovedKeeps(t, rows, gone, c, t.inodes[d].parent, n - 1);
      var m: nat :| Reaches(rows, t.inodes[d].parent, m);
      assert Reaches(rows, d, m + 1);
    }
  }

  /** The row a rename deletes, if any; 0 is nobody's number. */
  function Target(t: Tree, to: Slot): Ino {
    if to in t.entries then t.entries[to] else 0
  }

  lemma TargetIsNobodysParent(t: Tree, from: Slot, to: Slot, steps: nat)
    requires Inv(t) && Renames(t, from, to, steps)
    ensures forall i | IsDir(t, i) && i != ROOT :: t.inodes[i].parent != Target(t, to)
  {
    hide Reaches, Links, Avoids;
    if to in t.entries && IsDir(t, t.entries[to]) {
      EmptyIsNobodysParent(t, t.entries[to]);
    } else {
      FileIsNobodysParent(t, Target(t, to));
    }
  }

  lemma RenameParents(t: Tree, from: Slot, to: Slot, open: bool, steps: nat)
    requires Inv(t) && Renames(t, from, to, steps) && !(to in t.entries && t.entries[to] == t.entries[from])
    ensures var rows, c := Rename(t, from, to, open).inodes, t.entries[from];
            && (forall i | IsDir(t, i) && i != Target(t, to) :: i in rows)
            && (forall i | IsDir(t, i) && i != Target(t, to) && i != c :: rows[i].parent == t.inodes[i].parent)
            && (IsDir(t, c) ==> rows[c].parent == to.dir)
  {
    hide Links, Reaches, Avoids;
    RenameDistinct(t, from, to, steps);
  }

  lemma RenameRooted(t: Tree, from: Slot, to: Slot, open: bool, steps: nat, d: Ino)
    requires Inv(t) && Renames(t, from, to, steps) && !(to in t.entries && t.entries[to] == t.entries[from])
    requires IsDir(t, d) && d != Target(t, to)
    ensures Rooted(Rename(t, from, to, open).inodes, d)
  {
    hide Links, Reaches, Avoids, Rename, CountsOk;
    var rows, c, gone := Rename(t, from, to, open).inodes, t.entries[from], Target(t, to);
    RenameDistinct(t, from, to, steps);
    RenameParents(t, from, to, open, steps);
    TargetIsNobodysParent(t, from, to, steps);
    assert Rooted(t.inodes, d);
    if IsDir(t, c) && from.dir != to.dir {
      AvoidsKeeps(t, rows, gone, c, to.dir, steps);
      assert Rooted(rows, to.dir);
      var n: nat :| Reaches(t.inodes, d, n);
      MovedKeeps(t, rows, gone, c, d, n);
    } else {
      assert IsDir(t, c) ==> OneEntry(t, c);
      RootedWithout(t, rows, gone, d);
    }
  }

  lemma RenameOtherKeeps(t: Tree, from: Slot, to: Slot, open: bool, steps: nat)
    requires Inv(t) && Renames(t, from, to, steps) && from != to && !SameFile(t, from, to)
    ensures Inv(Rename(t, from, to, open))
  {
    hide Links, Rooted, Renames, Rename, EntriesOk;
    RenameDefined(t, from, to, steps);
    var u := Rename(t, from, to, open);
    RenameDistinct(t, from, to, steps);
    RenameParents(t, from, to, open, steps);
    forall i | i in u.inodes
      ensures i in t.inodes && u.inodes[i].kind == t.inodes[i].kind
      ensures !u.inodes[i].kind.Dir? ==> u.inodes[i].nlink == Links(u.entries, i)
      ensures u.inodes[i].kind.Dir? && i != ROOT ==> OneEntry(u, i)
      ensures u.inodes[i].kind.Dir? ==> Rooted(u.inodes, i)
    {
      RenameRows(t, from, to, open, steps, i);
      if u.inodes[i].kind.Dir? {
        RenameDropsTarget(t, from, to, open, steps);
        RenameRooted(t, from, to, open, steps, i);
      }
    }
    RenameEntries(t, from, to, open, steps);
  }

  lemma RenameDropsTarget(t: Tree, from: Slot, to: Slot, open: bool, steps: nat)
    requires Inv(t) && Renames(t, from, to, steps) && from != to && !SameFile(t, from, to)
    ensures IsDir(t, Target(t, to)) ==> Target(t, to) !in Rename(t, from, to, open).inodes
  {
    hide Links, Reaches, Avoids;
    RenameDistinct(t, from, to, steps);
  }

  lemma RenameEntries(t: Tree, from: Slot, to: Slot, open: bool, steps: nat)
    requires Inv(t) && Renames(t, from, to, steps) && from != to && !SameFile(t, from, to)
    ensures EntriesOk(Rename(t, from, to, open))
  {
    hide Links, Reaches, Avoids, RootedOk;
    var u, gone := Rename(t, from, to, open), Target(t, to);
    RenameDistinct(t, from, to, steps);
    forall s | s in u.entries
      ensures IsDir(u, s.dir) && u.entries[s] in u.inodes && u.entries[s] != ROOT
    {
      assert s.dir != gone && IsDir(t, s.dir);
      if s != to {
        RenameKeepsNamed(t, from, to, open, steps, s);
      }
    }
  }

  /** What another entry names is still there. */
  lemma RenameKeepsNamed(t: Tree, from: Slot, to: Slot, open: bool, steps: nat, s: Slot)
    requires Inv(t) && Renames(t, from, to, steps) && from != to && !SameFile(t, from, to)
    requires s in t.entries && s != from && s != to
    ensures t.entries[s] in Rename(t, from, to, open).inodes
  {
    hide Links, Reaches, Avoids, RootedOk;
    RenameDefined(t, from, to, steps);
    if to in t.entries && t.entries[to] == t.entries[s] {
      TwoNames(t.entries, to, s);
      if IsDir(t, t.entries[s]) {
        OnlyName(t, s);
      }
    }
  }

  /** A rename that passes its checks keeps the tree a tree, and every count right, exactly when it does not
      rename one name of a file onto another name of the same file. */
  lemma RenameKeeps(t: Tree, from: Slot, to: Slot, open: bool, steps: nat)
    requires Inv(t) && Renames(t, from, to, steps)
    ensures Inv(Rename(t, from, to, open)) <==> !SameFile(t, from, to)
  {
    hide Inv, Renames, Rename;
    RenameDefined(t, from, to, steps);
    if from == to {
      RenameToItself(t, from, open, steps);
    } else if SameFile(t, from, to) {
      RenameOntoSameFile(t, from, to, open, steps);
    } else {
      RenameOtherKeeps(t, from, to, open, steps);
    }
  }

  lemma RenameDefined(t: Tree, from: Slot, to: Slot, steps: nat)
    requires Inv(t) && Renames(t, from, to, steps)
    ensures Defined(t, from, to)
  {
  }
}
