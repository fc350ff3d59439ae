/** The staging area: writes append chunks to packs, syncs commit what they found staged, waiters wait for
    syncs. A sync runs in two locked steps with anything in between. */
module Staging {
  import opened Minimum
  import opened Sums
  import opened StagingModel
  import opened Options

  class Staging {
    var staged: Staged
    var packs: Packs
    var stagedBytes: int
    var active: Option<nat>
    var nextPack: nat
    var stagingSeq: nat
    var waiters: seq<Waiter>
    /** Inodes whose last sync failed and was not yet reported. */
    var failures: set<nat>
    const maxBytes: int
    /** Whether packs are uploaded anywhere; if not they count as uploaded once sealed. */
    const hasStore: bool

    /** For each staged chunk: when it was staged, and the number of the write that staged it. */
    ghost var birth: map<Slot, nat>
    ghost var stamp: map<Slot, nat>
    ghost var clock: nat

    ghost predicate Valid()
      reads this
    {
      && CountsOk(staged, packs, stagedBytes)
      && (forall p | p in packs :: p <= nextPack)
      && (active.Some? ==> active.value in packs && packs[active.value].state == NotStarted)
      && birth.Keys == staged.Keys && stamp.Keys == staged.Keys
      && (forall s | s in staged :: birth[s] <= clock && stamp[s] <= stagingSeq + 1)
    }

    /** The snapshot of a sync that began at clock `c`, when the newest pack was `p` and none was active: all
        that was staged then and is not staged anew since is in it, under the same reference; all that was
        staged since has a newer pack and belongs to a later write. */
    ghost predicate Began(snap: Snapshot, c: nat, p: nat)
      reads `staged, `active, `nextPack, `stagingSeq, `birth, `stamp, `clock
    {
      && c <= clock && snap.at <= stagingSeq && p <= nextPack
      && (forall s | s in snap.chunks :: Covers(snap.filter, s.ino))
      && (forall s | s in staged && s in birth && birth[s] <= c && Covers(snap.filter, s.ino) ::
             s in snap.chunks && snap.chunks[s] == staged[s])
      && (forall s | s in staged && s in birth && birth[s] > c :: s in stamp && stamp[s] > snap.at)
      && (snap.chunks != map[] ==>
            && (active.Some? ==> active.value > p)
            && (forall s | s in snap.chunks :: snap.chunks[s].pack <= p)
            && (forall s | s in staged && s in birth && birth[s] > c :: staged[s].pack > p))
    }

    constructor (maxBytes: int, hasStore: bool)
      ensures Valid() && staged == map[] && waiters == [] && clock == 0 && stagingSeq == 0
    {
      this.maxBytes, this.hasStore := maxBytes, hasStore;
      staged, packs, stagedBytes, active, nextPack, stagingSeq := map[], map[], 0, None, 0, 0;
      waiters, failures, birth, stamp, clock := [], {}, map[], map[], 0;
    }

    // ----- packs -----

    /** Delete uploaded packs with no references, lowest first, until `needed` more bytes fit. */
    method EvictUploaded(needed: int)
      requires Valid()
      modifies `packs
      ensures Valid() && packs.Keys <= old(packs).Keys && forall p | p in packs :: packs[p] == old(packs)[p]
      ensures forall p | p in old(packs) && p !in packs :: Evictable(old(packs), p) && Users(staged, p) == {}
      ensures forall p, q | p in old(packs) && p !in packs && q in packs && Evictable(packs, q) :: p < q
      ensures packs == old(packs) || Sum(TotalBytes(packs)) + needed <= maxBytes || forall q | q in packs ::
                !Evictable(packs, q)
    {
      hide CountsOk, Sum;
      var total := PackBytes();
      var eligible := set p | p in packs && Evictable(packs, p);
      while eligible != {} && total + needed > maxBytes
        invariant Valid() && packs.Keys <= old(packs).Keys && forall p | p in packs :: packs[p] == old(packs)[p]
        invariant forall p :: p in eligible <==> p in packs && Evictable(packs, p)
        invariant total == Sum(TotalBytes(packs))
        invariant forall p | p in old(packs) && p !in packs :: Evictable(old(packs), p) && Users(staged, p) == {}
        invariant forall p, q | p in old(packs) && p !in packs && q in eligible :: p < q
        decreases |eligible|
      {
        var p := Smallest(eligible);
        var size := packs[p].size;
        Delete(p);
        eligible := eligible - {p};
        total := total - size;
      }
    }

    method Delete(p: nat)
      requires Valid() && p in packs && Evictable(packs, p)
      modifies `packs
      ensures Valid() && packs == old(packs) - {p} && Users(staged, p) == {}
      ensures Sum(TotalBytes(packs)) == Sum(TotalBytes(old(packs))) - old(packs)[p].size
    {
      hide CountsOk, Sum;
      ForgetKeeps(staged, packs, stagedBytes, p);
      SumDrop(TotalBytes(packs), p);
      assert TotalBytes(packs - {p}) == TotalBytes(packs) - {p};
      packs := packs - {p};
    }

    method PackBytes() returns (total: int)
      ensures total == Sum(TotalBytes(packs))
    {
      total := 0;
      var todo := packs;
      while todo != map[]
        invariant total + Sum(TotalBytes(todo)) == Sum(TotalBytes(packs)) && forall p | p in todo ::
                    p in packs && todo[p] == packs[p]
        decreases |todo|
      {
        var p :| p in todo;
        SumDrop(TotalBytes(todo), p);
        assert TotalBytes(todo - {p}) == TotalBytes(todo) - {p};
        Shrinks(todo, p);
        total := total + todo[p].size;
        todo := todo - {p};
      }
      assert TotalBytes(todo) == map[];
    }

    // ----- writing -----

    /** The active pack, opened if there is none, after an append that makes it `size` bytes. */
    method Append(size: nat) returns (p: nat)
      requires Valid()
      modifies `packs, `active, `nextPack
      ensures Valid() && active == Some(p) && nextPack >= old(nextPack)
      ensures p == if old(active).Some? then old(active).value else old(nextPack) + 1
    {
      hide CountsOk;
      if active.None? {
        nextPack := nextPack + 1;
        Unused(staged, packs, stagedBytes, nextPack);
        PackKeeps(staged, packs, stagedBytes, nextPack, Pack(0, NotStarted, 0));
        packs := packs[nextPack := Pack(0, NotStarted, 0)];
        active := Some(nextPack);
      }
      p := active.value;
      PackKeeps(staged, packs, stagedBytes, p, packs[p].(size := size));
      packs := packs[p := packs[p].(size := size)];
    }

    /** Point a chunk at a reference. */
    method Set(s: Slot, r: Ref)
      requires Valid() && r.pack in packs
      modifies `staged, `packs, `stagedBytes, `birth, `stamp, `clock
      ensures Valid() && staged == old(staged)[s := r]
      ensures stamp == old(stamp)[s := stagingSeq + 1] && clock == old(clock) + 1 && birth == old(birth)[s := clock]
    {
      hide CountsOk, Counted;
      SetKeeps(staged, packs, stagedBytes, s, r);
      var freed, bytes := packs, stagedBytes;
      if s in staged {
        freed, bytes := Counted(packs, staged[s].pack, -1), stagedBytes - staged[s].length;
      }
      staged, packs, stagedBytes := staged[s := r], Counted(freed, r.pack, 1), bytes + r.length;
      clock := clock + 1;
      birth, stamp := birth[s := clock], stamp[s := stagingSeq + 1];
    }

    /** Append a chunk's bytes to the active pack and stage the reference. `entry` is the bytes' hash, `size` the
        pack's size afterwards, and `full` says whether that was its last slot. */
    method Stage(s: Slot, entry: nat, length: nat, size: nat, full: bool)
      requires Valid()
      modifies `staged, `packs, `stagedBytes, `active, `nextPack, `birth, `stamp, `clock
      ensures Valid() && s in staged && staged == old(staged)[s := staged[s]] && staged[s].entry == entry
              && staged[s].length == length
      ensures stamp == old(stamp)[s := stagingSeq + 1] && clock == old(clock) + 1 && birth == old(birth)[s := clock]
      ensures forall snap: Snapshot, c: nat, p: nat {:trigger Began(snap, c, p)} :: old(Began(snap, c, p)) ==>
                Began(snap, c, p)
    {
      hide CountsOk, Staging.Began;
      EvictUploaded(length);
      var p := Append(size);
      if full {
        PackKeeps(staged, packs, stagedBytes, p, packs[p].(state := if hasStore then Uploading else Uploaded));
        packs := packs[p := packs[p].(state := if hasStore then Uploading else Uploaded)];
        active := None;
      }
      Set(s, Ref(p, entry, length));
      StagedSince(s);
    }

    /** What is staged now has a newer pack than any sync begun before. */
    twostate lemma StagedSince(s: Slot)
      requires s in staged && staged == old(staged)[s := staged[s]]
      requires clock == old(clock) + 1 && birth == old(birth)[s := clock] && stamp == old(stamp)[s := stagingSeq + 1]
      requires stagingSeq == old(stagingSeq) && nextPack >= old(nextPack)
               && (active.Some? ==> active.value == staged[s].pack)
      requires staged[s].pack == if old(active).Some? then old(active).value else old(nextPack) + 1
      ensures forall snap: Snapshot, c: nat, p: nat {:trigger Began(snap, c, p)} :: old(Began(snap, c, p)) ==>
                Began(snap, c, p)
    {
    }

    /** A write stages the chunks it touches and, when it gets through, takes the next number. */
    method Write(ino: nat, chunks: seq<Chunk>, completes: bool)
      requires Valid()
      modifies `staged, `packs, `stagedBytes, `active, `nextPack, `stagingSeq, `birth, `stamp, `clock
      ensures Valid() && stagingSeq == old(stagingSeq) + if completes then 1 else 0
      ensures staged.Keys == old(staged).Keys + Touched(ino, chunks)
      ensures forall s | s in Touched(ino, chunks) :: stamp[s] == old(stagingSeq) + 1
      ensures forall s | s in old(staged) && s !in Touched(ino, chunks) ::
                staged[s] == old(staged)[s] && stamp[s] == old(stamp)[s]
      ensures clock == old(clock) + |chunks| && birth == Stamped(old(birth), old(clock), ino, chunks)
      ensures forall snap: Snapshot, c: nat, p: nat {:trigger Began(snap, c, p)} :: old(Began(snap, c, p)) ==>
                Began(snap, c, p)
    {
      hide CountsOk, Staging.Began, Touched;
      var i := 0;
      TouchedNone(ino);
      assert chunks[..0] == [];
      while i < |chunks|
        invariant 0 <= i <= |chunks| && Valid() && stagingSeq == old(stagingSeq)
        invariant staged.Keys == old(staged).Keys + Touched(ino, chunks[..i])
        invariant forall s | s in Touched(ino, chunks[..i]) :: stamp[s] == stagingSeq + 1
        invariant forall s | s in old(staged) && s !in Touched(ino, chunks[..i]) ::
                    staged[s] == old(staged)[s] && stamp[s] == old(stamp)[s]
        invariant clock == old(clock) + i && birth == Stamped(old(birth), old(clock), ino, chunks[..i])
        invariant forall snap: Snapshot, c: nat, p: nat {:trigger Began(snap, c, p)} :: old(Began(snap, c, p)) ==>
                    Began(snap, c, p)
      {
        TouchedMore(ino, chunks, i);
        assert chunks[..i + 1][..i] == chunks[..i];
        Stage(Slot(ino, chunks[i].index), chunks[i].entry, chunks[i].length, chunks[i].size, chunks[i].full);
        i := i + 1;
      }
      assert chunks[..i] == chunks;
      label numbered:
      if completes {
        stagingSeq := stagingSeq + 1;
        Numbered@numbered();
      }
    }

    twostate lemma Numbered()
      requires old(stagingSeq) <= stagingSeq && unchanged(`staged, `active, `nextPack, `birth, `stamp, `clock)
      ensures forall snap: Snapshot, c: nat, p: nat {:trigger Began(snap, c, p)} :: old(Began(snap, c, p)) ==>
                Began(snap, c, p)
    {
    }

    // ----- dropping -----

    /** Forget one staged chunk: its file was cut or its bytes are committed. */
    method Drop(s: Slot)
      requires Valid()
      modifies `staged, `packs, `stagedBytes, `birth, `stamp
      ensures Valid() && staged == old(staged) - {s} && birth == old(birth) - {s} && stamp == old(stamp) - {s}
      ensures forall snap: Snapshot, c: nat, p: nat {:trigger Began(snap, c, p)} :: old(Began(snap, c, p)) ==>
                Began(snap, c, p)
    {
      hide CountsOk, Counted, Staging.Began;
      if s in staged {
        DropKeeps(staged, packs, stagedBytes, s);
        CountedShape(packs, staged[s].pack, -1);
        stagedBytes := stagedBytes - staged[s].length;
        packs := Counted(packs, staged[s].pack, -1);
        staged := staged - {s};
        birth, stamp := birth - {s}, stamp - {s};
        DroppedSince(s);
      }
    }

    twostate lemma DroppedSince(s: Slot)
      requires staged == old(staged) - {s} && birth == old(birth) - {s} && stamp == old(stamp) - {s}
      requires unchanged(`active, `nextPack, `stagingSeq, `clock)
      ensures forall snap: Snapshot, c: nat, p: nat {:trigger Began(snap, c, p)} :: old(Began(snap, c, p)) ==>
                Began(snap, c, p)
    {
    }

    /** Forget every staged chunk of a file that is gone. */
    method DropFile(ino: nat)
      requires Valid()
      modifies `staged, `packs, `stagedBytes, `birth, `stamp
      ensures Valid() && staged == (map s | s in old(staged) && s.ino != ino :: old(staged)[s])
      ensures forall s | s in staged :: birth[s] == old(birth)[s] && stamp[s] == old(stamp)[s]
      ensures forall snap: Snapshot, c: nat, p: nat {:trigger Began(snap, c, p)} :: old(Began(snap, c, p)) ==>
                Began(snap, c, p)
    {
      hide CountsOk, Staging.Began;
      var todo := set s | s in staged && s.ino == ino;
      ghost var mine := todo;
      while todo != {}
        invariant Valid() && todo <= mine && staged == old(staged) - (mine - todo)
        invariant forall s | s in staged :: birth[s] == old(birth)[s] && stamp[s] == old(stamp)[s]
        invariant forall snap: Snapshot, c: nat, p: nat {:trigger Began(snap, c, p)} :: old(Began(snap, c, p)) ==>
                    Began(snap, c, p)
        decreases |todo|
      {
        var s :| s in todo;
        Drop(s);
        todo := todo - {s};
      }
    }

    /** A sealed pack's upload starts, ends or fails. */
    method SetPackState(p: nat, state: PackState)
      requires Valid() && active != Some(p)
      modifies `packs
      ensures Valid() && packs == if p in old(packs) then old(packs)[p := old(packs)[p].(state := state)]
              else old(packs)
    {
      hide CountsOk;
      if p in packs {
        PackKeeps(staged, packs, stagedBytes, p, packs[p].(state := state));
        packs := packs[p := packs[p].(state := state)];
      }
    }

    // ----- syncing -----

    /** Seal the active pack and note what is staged for the inodes the sync is for. */
    method BeginSync(filter: Option<set<nat>>) returns (snap: Snapshot, ghost c: nat, ghost p: nat)
      requires Valid()
      modifies `active
      ensures Valid() && Began(snap, c, p) && snap.filter == filter && snap.at == stagingSeq && c == clock
      ensures snap.chunks == map s | s in staged && Covers(filter, s.ino) :: staged[s]
      ensures forall other: Snapshot, d: nat, q: nat {:trigger Began(other, d, q)} :: old(Began(other, d, q)) ==>
                Began(other, d, q)
    {
      hide CountsOk, Staging.Began;
      active := None;
      snap := Snapshot(stagingSeq, map s | s in staged && Covers(filter, s.ino) :: staged[s], filter);
      c, p := clock, nextPack;
      BeganNow(snap);
      SealedSince();
    }

    lemma BeganNow(snap: Snapshot)
      requires Valid() && active.None? && snap.at == stagingSeq
      requires snap.chunks == map s | s in staged && Covers(snap.filter, s.ino) :: staged[s]
      ensures Began(snap, clock, nextPack)
    {
      hide Sum, Users;
    }

    twostate lemma SealedSince()
      requires active.None? && unchanged(`staged, `nextPack, `stagingSeq, `birth, `stamp, `clock)
      ensures forall snap: Snapshot, c: nat, p: nat {:trigger Began(snap, c, p)} :: old(Began(snap, c, p)) ==>
                Began(snap, c, p)
    {
    }

    /** Nothing is staged for those inodes: there is nothing to seal or note. */
    method BeginIdle(filter: Option<set<nat>>) returns (snap: Snapshot, ghost c: nat)
      requires Valid() && forall s | s in staged :: !Covers(filter, s.ino)
      ensures Began(snap, c, nextPack) && snap == Snapshot(stagingSeq, map[], filter) && c == clock
    {
      hide Sum, Users;
      snap, c := Snapshot(stagingSeq, map[], filter), clock;
    }

    /** The sync is committed, or failed. A committed one drops exactly what it had noted and was not staged
        anew since. It answers the waiters it is for; with success only when nothing is staged any more for
        the waiter's inode but by writes after the one it waits for. */
    method FinishSync(snap: Snapshot, committed: bool, ghost c: nat, ghost p: nat) returns (done: seq<Waiter>)
      requires Valid() && (committed ==> Began(snap, c, p))
      modifies `staged, `packs, `stagedBytes, `waiters, `failures, `birth, `stamp
      ensures Valid() && done == Answered(snap.at, snap.filter, old(waiters))
              && waiters == Unanswered(snap.at, snap.filter, old(waiters))
      ensures multiset(done) + multiset(waiters) == multiset(old(waiters))
      ensures !committed ==> staged == old(staged)
      ensures committed ==>
                staged == map s | s in old(staged) && !(s in snap.chunks && old(birth)[s] <= c) :: old(staged)[s]
      ensures committed ==> forall s | s in staged && Covers(snap.filter, s.ino) :: stamp[s] > snap.at
      ensures forall s | s in staged :: birth[s] == old(birth)[s] && stamp[s] == old(stamp)[s]
      ensures committed ==> forall w, s | w in done && s in staged && s.ino == w.ino :: stamp[s] > w.at
      ensures failures == if committed then old(failures) - Inodes(snap) else old(failures) + Inodes(snap)
      ensures forall other: Snapshot, d: nat, q: nat {:trigger Began(other, d, q)} :: old(Began(other, d, q)) ==>
                Began(other, d, q)
    {
      hide CountsOk, Staging.Began, Answered, Unanswered, Inodes;
      Settle(snap, committed, c, p);
      WaitersKept(snap.at, snap.filter, waiters);
      if committed {
        AllLater(snap);
      }
      done := AnswerWaiters(snap);
    }

    method Settle(snap: Snapshot, committed: bool, ghost c: nat, ghost p: nat)
      requires Valid() && (committed ==> Began(snap, c, p))
      modifies `staged, `packs, `stagedBytes, `failures, `birth, `stamp
      ensures Valid() && (!committed ==> staged == old(staged))
      ensures committed ==>
                staged == map s | s in old(staged) && !(s in snap.chunks && old(birth)[s] <= c) :: old(staged)[s]
      ensures committed ==> forall s | s in staged && Covers(snap.filter, s.ino) :: stamp[s] > snap.at
      ensures forall s | s in staged :: birth[s] == old(birth)[s] && stamp[s] == old(stamp)[s]
      ensures failures == if committed then old(failures) - Inodes(snap) else old(failures) + Inodes(snap)
      ensures forall other: Snapshot, d: nat, q: nat {:trigger Began(other, d, q)} :: old(Began(other, d, q)) ==>
                Began(other, d, q)
    {
      hide CountsOk, Staging.Began, Inodes;
      if committed {
        EvictUploaded(0);
        Commit(snap, c, p);
        OnlyLater(snap, c, p);
        failures := failures - Inodes(snap);
      } else {
        failures := failures + Inodes(snap);
      }
    }

    lemma AllLater(snap: Snapshot)
      requires stamp.Keys == staged.Keys && forall s | s in staged && Covers(snap.filter, s.ino) :: stamp[s] > snap.at
      ensures forall w, s | w in Answered(snap.at, snap.filter, waiters) && s in staged && s.ino == w.ino ::
                stamp[s] > w.at
    {
      AnsweredAre(snap.at, snap.filter, waiters);
    }

    /** Once the noted chunks are gone, what is staged for the sync's inodes is from later writes. */
    lemma OnlyLater(snap: Snapshot, c: nat, p: nat)
      requires Valid() && Began(snap, c, p) && forall s | s in staged && s in snap.chunks :: birth[s] > c
      ensures forall s | s in staged && Covers(snap.filter, s.ino) :: stamp[s] > snap.at
    {
      hide CountsOk;
    }

    /** Drop the noted chunks that still stand under the noted reference. */
    method Commit(snap: Snapshot, ghost c: nat, ghost p: nat)
      requires Valid() && Began(snap, c, p)
      modifies `staged, `packs, `stagedBytes, `birth, `stamp
      ensures Valid() && Began(snap, c, p)
      ensures staged == map s | s in old(staged) && !(s in snap.chunks && old(birth)[s] <= c) :: old(staged)[s]
      ensures forall s | s in staged :: birth[s] == old(birth)[s] && stamp[s] == old(stamp)[s]
      ensures forall other: Snapshot, d: nat, q: nat {:trigger Began(other, d, q)} :: old(Began(other, d, q)) ==>
                Began(other, d, q)
    {
      hide CountsOk, Staging.Began;
      var todo := snap.chunks.Keys;
      while todo != {}
        invariant Valid() && Began(snap, c, p) && todo <= snap.chunks.Keys
        invariant forall s :: s in staged <==>
                    s in old(staged) && !(s in snap.chunks && s !in todo && old(birth)[s] <= c)
        invariant forall s | s in staged ::
                    staged[s] == old(staged)[s] && birth[s] == old(birth)[s] && stamp[s] == old(stamp)[s]
        invariant forall other: Snapshot, d: nat, q: nat {:trigger Began(other, d, q)} :: old(Began(other, d, q)) ==>
                    Began(other, d, q)
        decreases |todo|
      {
        var s :| s in todo;
        StandsIff(snap, c, p, s);
        if s in staged && staged[s] == snap.chunks[s] {
          Drop(s);
        }
        todo := todo - {s};
      }
    }

    /** A noted chunk stands under its reference exactly when it was not staged anew. */
    lemma StandsIff(snap: Snapshot, c: nat, p: nat, s: Slot)
      requires Valid() && Began(snap, c, p) && s in snap.chunks
      ensures s in staged ==> (staged[s] == snap.chunks[s] <==> birth[s] <= c)
    {
      hide CountsOk;
    }

    method AnswerWaiters(snap: Snapshot) returns (done: seq<Waiter>)
      modifies `waiters
      ensures done == Answered(snap.at, snap.filter, old(waiters))
              && waiters == Unanswered(snap.at, snap.filter, old(waiters))
    {
      var remaining, i := [], 0;
      done := [];
      while i < |waiters|
        invariant 0 <= i <= |waiters|
        invariant done == Answered(snap.at, snap.filter, waiters[..i])
                  && remaining == Unanswered(snap.at, snap.filter, waiters[..i])
        modifies {}
      {
        assert waiters[..i + 1][..i] == waiters[..i];
        var w := waiters[i];
        if w.at <= snap.at && (snap.filter.None? || w.ino in snap.filter.value) {
          done := done + [w];
        } else {
          remaining := remaining + [w];
        }
        i := i + 1;
      }
      assert waiters[..i] == waiters;
      waiters := remaining;
    }

    /** Ask for a sync without running one: there is nothing to wait for when nothing is staged for the inode
        (on close) or at all; otherwise wait for the writes so far. */
    method RequestSync(ino: nat, onClose: bool) returns (waits: bool)
      requires Valid()
      modifies `waiters
      ensures Valid()
      ensures waits <==> exists s :: s in staged && (onClose ==> s.ino == ino)
      ensures waiters == if waits then old(waiters) + [Waiter(stagingSeq, ino)] else old(waiters)
    {
      hide CountsOk;
      var wanted := set s | s in staged && (onClose ==> s.ino == ino);
      waits := wanted != {};
      assert waits ==> exists s :: s in wanted;
      if s :| s in staged && (onClose ==> s.ino == ino) {
        assert s in wanted;
      }
      if waits {
        waiters := waiters + [Waiter(stagingSeq, ino)];
      }
    }
  }

  function Inodes(snap: Snapshot): set<nat> {
    set s | s in snap.chunks :: s.ino
  }

  lemma Unused(staged: Staged, packs: Packs, stagedBytes: int, p: nat)
    requires CountsOk(staged, packs, stagedBytes) && p !in packs
    ensures Users(staged, p) == {}
  {
  }
}
