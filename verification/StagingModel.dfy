/** Staged chunks and the packs that hold them. */
module StagingModel {
  import opened Sums
  import opened Options

  /** One chunk of one file. */
  datatype Slot = Slot(ino: nat, index: nat)

  /** Where a staged chunk's bytes are: the entry of a pack, named by the hash of the bytes. */
  datatype Ref = Ref(pack: nat, entry: nat, length: nat)

  datatype PackState = NotStarted | Uploading | Uploaded | Failed

  datatype Pack = Pack(live: int, state: PackState, size: nat)

  type Staged = map<Slot, Ref>

  type Packs = map<nat, Pack>

  function Users(staged: Staged, p: nat): set<Slot> {
    set s | s in staged && staged[s].pack == p
  }

  function Lengths(staged: Staged): map<Slot, int> {
    map s | s in staged :: staged[s].length
  }

  /** Every staged reference names a pack that is there, each pack counts its references, and the byte count
      is the sum of their lengths. */
  ghost predicate CountsOk(staged: Staged, packs: Packs, stagedBytes: int) {
    && (forall s | s in staged :: staged[s].pack in packs)
    && (forall p | p in packs :: packs[p].live == |Users(staged, p)|)
    && stagedBytes == Sum(Lengths(staged))
  }

  /** `packs` with `more` more references counted for `p`. */
  function Counted(packs: Packs, p: nat, more: int): Packs {
    if p in packs then packs[p := packs[p].(live := packs[p].live + more)] else packs
  }

  lemma CountedShape(packs: Packs, p: nat, more: int)
    ensures Counted(packs, p, more).Keys == packs.Keys && forall q | q in packs ::
              Counted(packs, p, more)[q].state == packs[q].state
  {
  }

  lemma DropKeeps(staged: Staged, packs: Packs, stagedBytes: int, s: Slot)
    requires CountsOk(staged, packs, stagedBytes) && s in staged
    ensures CountsOk(staged - {s}, Counted(packs, staged[s].pack, -1), stagedBytes - staged[s].length)
  {
    var left, counted := staged - {s}, Counted(packs, staged[s].pack, -1);
    forall p | p in counted
      ensures counted[p].live == |Users(left, p)|
    {
      if p == staged[s].pack {
        assert Users(left, p) == Users(staged, p) - {s};
      } else {
        assert Users(left, p) == Users(staged, p);
      }
    }
    assert Lengths(left) == Lengths(staged) - {s};
    SumDrop(Lengths(staged), s);
  }

  lemma AddKeeps(staged: Staged, packs: Packs, stagedBytes: int, s: Slot, r: Ref)
    requires CountsOk(staged, packs, stagedBytes) && s !in staged && r.pack in packs
    ensures CountsOk(staged[s := r], Counted(packs, r.pack, 1), stagedBytes + r.length)
  {
    var more, counted := staged[s := r], Counted(packs, r.pack, 1);
    forall p | p in counted
      ensures counted[p].live == |Users(more, p)|
    {
      UsersAdd(staged, s, r, p);
    }
    assert Lengths(more) == Lengths(staged)[s := r.length];
    SumUpdate(Lengths(staged), s, r.length);
  }

  lemma UsersAdd(staged: Staged, s: Slot, r: Ref, p: nat)
    requires s !in staged
    ensures |Users(staged[s := r], p)| == |Users(staged, p)| + if p == r.pack then 1 else 0
  {
    assert s !in Users(staged, p);
    assert Users(staged[s := r], p) == Users(staged, p) + if p == r.pack then {s} else {};
  }

  /** Pointing a chunk at `r`, whether it was staged or not. */
  lemma SetKeeps(staged: Staged, packs: Packs, stagedBytes: int, s: Slot, r: Ref)
    requires CountsOk(staged, packs, stagedBytes) && r.pack in packs
    ensures var freed := if s in staged then Counted(packs, staged[s].pack, -1) else packs;
            && Counted(freed, r.pack, 1).Keys == packs.Keys
            && (forall q | q in packs :: Counted(freed, r.pack, 1)[q].state == packs[q].state)
            && CountsOk(staged[s := r], Counted(freed, r.pack, 1),
                   stagedBytes - (if s in staged then staged[s].length else 0) + r.length)
  {
    hide CountsOk, Counted;
    if s in staged {
      DropKeeps(staged, packs, stagedBytes, s);
      CountedShape(packs, staged[s].pack, -1);
      CountedShape(Counted(packs, staged[s].pack, -1), r.pack, 1);
      AddKeeps(staged - {s}, Counted(packs, staged[s].pack, -1), stagedBytes - staged[s].length, s, r);
      assert (staged - {s})[s := r] == staged[s := r];
    } else {
      CountedShape(packs, r.pack, 1);
      AddKeeps(staged, packs, stagedBytes, s, r);
    }
  }

  /** Deleting a pack nobody counts on. */
  lemma ForgetKeeps(staged: Staged, packs: Packs, stagedBytes: int, p: nat)
    requires CountsOk(staged, packs, stagedBytes) && p in packs && packs[p].live <= 0
    ensures CountsOk(staged, packs - {p}, stagedBytes) && Users(staged, p) == {}
  {
    assert |Users(staged, p)| == 0;
    forall s | s in staged
      ensures staged[s].pack != p
    {
      assert s !in Users(staged, p);
    }
  }

  /** A pack may change in anything but its count. */
  lemma PackKeeps(staged: Staged, packs: Packs, stagedBytes: int, p: nat, to: Pack)
    requires CountsOk(staged, packs, stagedBytes) && to.live == (if p in packs then packs[p].live else 0)
    requires p !in packs ==> Users(staged, p) == {}
    ensures CountsOk(staged, packs[p := to], stagedBytes)
  {
  }

  /** What a sync takes with it: the references staged when it began, of the inodes it is for. */
  datatype Snapshot = Snapshot(at: nat, chunks: Staged, filter: Option<set<nat>>)

  datatype Waiter = Waiter(at: nat, ino: nat)

  predicate Covers(filter: Option<set<nat>>, ino: nat) {
    filter.None? || ino in filter.value
  }

  /** A sync answers a waiter when it began at or after the waiter's write and is for its inode. */
  predicate Answers(at: nat, filter: Option<set<nat>>, w: Waiter) {
    w.at <= at && Covers(filter, w.ino)
  }

  function Answered(at: nat, filter: Option<set<nat>>, waiters: seq<Waiter>): seq<Waiter> {
    if waiters == [] then [] else
    var n := |waiters| - 1;
    Answered(at, filter, waiters[..n]) + if Answers(at, filter, waiters[n]) then [waiters[n]] else []
  }

  function Unanswered(at: nat, filter: Option<set<nat>>, waiters: seq<Waiter>): seq<Waiter> {
    if waiters == [] then [] else
    var n := |waiters| - 1;
    Unanswered(at, filter, waiters[..n]) + if Answers(at, filter, waiters[n]) then [] else [waiters[n]]
  }

  lemma {:induction false} AnsweredAre(at: nat, filter: Option<set<nat>>, waiters: seq<Waiter>)
    ensures forall w | w in Answered(at, filter, waiters) :: Answers(at, filter, w)
    ensures forall w | w in Unanswered(at, filter, waiters) :: !Answers(at, filter, w)
  {
    hide Answers;
    if waiters != [] {
      AnsweredAre(at, filter, waiters[..|waiters| - 1]);
    }
  }

  /** No waiter is lost or answered twice. */
  lemma {:induction false} WaitersKept(at: nat, filter: Option<set<nat>>, waiters: seq<Waiter>)
    ensures multiset(Answered(at, filter, waiters)) + multiset(Unanswered(at, filter, waiters)) == multiset(waiters)
  {
    hide Answers;
    if waiters != [] {
      var n := |waiters| - 1;
      WaitersKept(at, filter, waiters[..n]);
      assert waiters == waiters[..n] + [waiters[n]];
      assert multiset(waiters) == multiset(waiters[..n]) + multiset([waiters[n]]);
    }
  }

  function TotalBytes(packs: Packs): map<nat, int> {
    map p | p in packs :: packs[p].size
  }

  predicate Evictable(packs: Packs, p: nat) {
    p in packs && packs[p].state == Uploaded && packs[p].live <= 0
  }

  /** One chunk of a write: its index, the hash and length of its new bytes, and how its pack stands afterwards. */
  datatype Chunk = Chunk(index: nat, entry: nat, length: nat, size: nat, full: bool)

  /** The chunks a write stages. */
  function Touched(ino: nat, chunks: seq<Chunk>): set<Slot> {
    set i | 0 <= i < |chunks| :: Slot(ino, chunks[i].index)
  }

  lemma TouchedNone(ino: nat)
    ensures Touched(ino, []) == {}
  {
  }

  lemma TouchedMore(ino: nat, chunks: seq<Chunk>, i: nat)
    requires i < |chunks|
    ensures Touched(ino, chunks[..i + 1]) == Touched(ino, chunks[..i]) + {Slot(ino, chunks[i].index)}
  {
    var before, after := chunks[..i], chunks[..i + 1];
    forall s | s in Touched(ino, before) + {Slot(ino, chunks[i].index)}
      ensures s in Touched(ino, after)
    {
      if s == Slot(ino, chunks[i].index) {
        assert after[i] == chunks[i];
      } else {
        var j :| 0 <= j < |before| && s == Slot(ino, before[j].index);
        assert after[j] == before[j];
      }
    }
    forall s | s in Touched(ino, after)
      ensures s in Touched(ino, before) + {Slot(ino, chunks[i].index)}
    {
      var j :| 0 <= j < |after| && s == Slot(ino, after[j].index);
      if j < i {
        assert before[j] == after[j];
      }
    }
  }

  /** When each staged chunk was staged, after a write staged its chunks one by one. */
  function Stamped(births: map<Slot, nat>, clock: nat, ino: nat, chunks: seq<Chunk>): map<Slot, nat> {
    if chunks == [] then births else
    var n := |chunks| - 1;
    Stamped(births, clock, ino, chunks[..n])[Slot(ino, chunks[n].index) := clock + n + 1]
  }
}
