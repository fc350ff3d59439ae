/** The staging area driven by any events, with any number of syncs under way: it goes through the states of SyncModel,
    so that what SyncProofs says of a run holds of it. */
module StagingRuns {
  import opened StagingModel
  import opened SyncModel
  import opened SyncProofs
  import opened Options
  import S = Staging

  /** A sync's snapshot is as the model has it: the same chunks, noted at one time. */
  ghost predicate Matches(area: S.Staging, snap: Snapshot, phase: Phase, sync: Sync, p: nat)
    reads area
  {
    && snap.at == sync.at && snap.filter == sync.filter && snap.chunks.Keys == sync.notes.Keys && phase == sync.phase
    && (phase != Failing ==> area.Began(snap, sync.began, p))
  }

  ghost predicate Correspond(area: S.Staging, syncs: map<nat, Snapshot>, phases: map<nat, Phase>,
                             models: map<nat, Sync>, packs: map<nat, nat>)
    reads area
  {
    && syncs.Keys == phases.Keys == models.Keys == packs.Keys
    && forall id | id in syncs && id in phases && id in models && id in packs ::
         Matches(area, syncs[id], phases[id], models[id], packs[id])
  }

  lemma OneMore(area: S.Staging, syncs: map<nat, Snapshot>, phases: map<nat, Phase>, models: map<nat, Sync>,
                packs: map<nat, nat>, id: nat, snap: Snapshot, phase: Phase, sync: Sync, p: nat)
    requires Correspond(area, syncs, phases, models, packs) && Matches(area, snap, phase, sync, p)
    ensures Correspond(area, syncs[id := snap], phases[id := phase], models[id := sync], packs[id := p])
    ensures snap.chunks == map[] <==> sync.notes == map[]
  {
    hide Matches;
    Matching(area, snap, phase, sync, p);
  }

  lemma OneOf(area: S.Staging, syncs: map<nat, Snapshot>, phases: map<nat, Phase>, models: map<nat, Sync>,
              packs: map<nat, nat>, id: nat)
    requires Correspond(area, syncs, phases, models, packs)
    ensures syncs.Keys == phases.Keys == models.Keys == packs.Keys
    ensures id in syncs ==> Matches(area, syncs[id], phases[id], models[id], packs[id])
    ensures id in syncs ==> (syncs[id].chunks == map[] <==> models[id].notes == map[]) && phases[id] == models[id].phase
  {
    hide Matches;
    if id in syncs {
      Matching(area, syncs[id], phases[id], models[id], packs[id]);
    }
  }

  lemma OneLess(area: S.Staging, syncs: map<nat, Snapshot>, phases: map<nat, Phase>, models: map<nat, Sync>,
                packs: map<nat, nat>, id: nat)
    requires Correspond(area, syncs, phases, models, packs)
    ensures Correspond(area, syncs - {id}, phases - {id}, models - {id}, packs - {id})
  {
    hide Matches;
  }

  lemma Matching(area: S.Staging, snap: Snapshot, phase: Phase, sync: Sync, p: nat)
    requires Matches(area, snap, phase, sync, p)
    ensures (snap.chunks == map[] <==> sync.notes == map[]) && phase == sync.phase
  {
    if sync.notes == map[] {
      assert snap.chunks.Keys == {};
    }
  }

  lemma WrittenMatches(area: S.Staging, snap: Snapshot, sync: Sync, p: nat)
    requires Matches(area, snap, Pending, sync, p)
    ensures Matches(area, snap, Committed, sync.(phase := Committed), p)
  {
    hide S.Staging.Began;
  }

  /** The numbers and births of what is staged. */
  lemma Stamps(area: S.Staging)
    requires area.Valid()
    ensures area.birth.Keys == area.staged.Keys == area.stamp.Keys
  {
    hide CountsOk;
  }

  /** Noted chunks that still stand are those staged no later than the sync began. */
  lemma StandingIs(st: State, sync: Sync, ok: bool, births: Notes)
    requires Began(st.births, st.live, st.clock, st.number, sync)
    requires births == (if ok then map s | s in st.births && !(s in sync.notes && st.births[s] <= sync.began) ::
                          st.births[s] else st.births)
    ensures births == Remaining(st.births, sync.notes, ok)
  {
  }

  /** A run in progress: the staging area, the syncs under way and the mark. */
  class Runner {
    const area: S.Staging
    var syncs: map<nat, Snapshot>
    var phases: map<nat, Phase>
    var next: nat
    var marked: bool
    /** The model's state, and the newest pack when each sync began. */
    ghost var st: State
    ghost var packs: map<nat, nat>

    ghost predicate Staged()
      reads `st, area
    {
      && area.Valid() && st.births == area.birth && st.clock == area.clock && st.number == area.stagingSeq
      && st.waiters == area.waiters
    }

    ghost predicate AllMatch()
      reads this, area
    {
      Correspond(area, syncs, phases, st.syncs, packs) && next == st.next && marked == st.marked
    }

    ghost predicate Valid()
      reads this, area
    {
      Staged() && AllMatch() && Ok(st)
    }

    constructor (area: S.Staging)
      requires area.Valid() && area.staged == map[] && area.waiters == [] && area.clock == 0 && area.stagingSeq == 0
      ensures Valid() && this.area == area && st == START
    {
      this.area := area;
      syncs, phases, next, marked, packs, st := map[], map[], 0, false, map[], START;
      new;
      Stamps(area);
      StartOk();
    }

    /** What changes neither the syncs nor what they noted leaves them matching. */
    twostate lemma StillMatch()
      requires old(AllMatch()) && unchanged(`syncs, `phases, `packs, `next, `marked)
      requires st.syncs == old(st.syncs) && st.next == old(st.next) && st.marked == old(st.marked)
      requires forall snap: Snapshot, c: nat, p: nat {:trigger area.Began(snap, c, p)} ::
                 old(area.Began(snap, c, p)) ==> area.Began(snap, c, p)
      ensures AllMatch()
    {
      hide S.Staging.Began;
    }

    method DoWrite(ino: nat, chunks: seq<Chunk>, completes: bool)
      requires Valid()
      modifies this`st, area
      ensures Valid() && st == Step(old(st), Write(ino, chunks, completes))
    {
      hide Ok, Stamped, Touched, S.Staging.Valid, S.Staging.Began, Runner.AllMatch;
      area.Write(ino, chunks, completes);
      StepOk(st, Write(ino, chunks, completes));
      st := Step(st, Write(ino, chunks, completes));
      StillMatch();
    }

    /** Chunks leave because their file was cut or deleted. */
    method DoDrop(slot: Slot)
      requires Valid()
      modifies this`st, area
      ensures Valid() && st == Step(old(st), Drop(slot))
    {
      hide Ok, S.Staging.Valid, S.Staging.Began, Runner.AllMatch;
      area.Drop(slot);
      StepOk(st, Drop(slot));
      st := Step(st, Drop(slot));
      StillMatch();
    }

    method DoDropFile(ino: nat)
      requires Valid()
      modifies this`st, area
      ensures Valid() && st == Step(old(st), DropFile(ino))
    {
      hide Ok, S.Staging.Valid, S.Staging.Began, Runner.AllMatch;
      Stamps(area);
      area.DropFile(ino);
      Stamps(area);
      StepOk(st, DropFile(ino));
      st := Step(st, DropFile(ino));
      assert st.births == area.birth;
      StillMatch();
    }

    method DoRequest(ino: nat, onClose: bool) returns (waits: bool)
      requires Valid()
      modifies this`st, area
      ensures Valid() && st == Step(old(st), Request(ino, onClose)) && waits == Waits(old(st).births, ino, onClose)
    {
      hide Ok, S.Staging.Valid, Runner.AllMatch;
      Stamps(area);
      waits := area.RequestSync(ino, onClose);
      assert forall s :: s in area.staged <==> s in st.births;
      assert waits == Waits(st.births, ino, onClose);
      StepOk(st, Request(ino, onClose));
      st := Step(st, Request(ino, onClose));
      StillMatch();
    }

    /** What a sync notes: nothing, if its pack cannot be sealed or nothing is staged for its files. */
    method Note(filter: Option<set<nat>>, seals: bool) returns (snap: Snapshot, phase: Phase, ghost p: nat)
      requires Staged()
      modifies area`active
      ensures Staged() && Matches(area, snap, phase, Starting(st, filter, seals), p)
      ensures forall other: Snapshot, d: nat, q: nat {:trigger area.Began(other, d, q)} ::
                old(area.Began(other, d, q)) ==> area.Began(other, d, q)
    {
      hide S.Staging.Valid, S.Staging.Began;
      Stamps(area);
      phase := Pending;
      ghost var c: nat;
      if !exists s :: s in area.staged && Covers(filter, s.ino) {
        snap, c := area.BeginIdle(filter);
        p := area.nextPack;
        assert Noted(st.births, filter) == map[];
      } else if seals {
        snap, c, p := area.BeginSync(filter);
      } else {
        var s :| s in area.staged && Covers(filter, s.ino);
        assert s in Noted(st.births, filter);
        snap, phase, p := Snapshot(area.stagingSeq, map[], filter), Failing, 0;
      }
    }

    /** A sync begins, unless the mark is set. */
    method DoBegin(filter: Option<set<nat>>, seals: bool)
      requires Valid()
      modifies this, area
      ensures Valid() && st == Step(old(st), Begin(filter, seals))
    {
      hide Ok, S.Staging.Valid, S.Staging.Began, Matches, Starting, Correspond;
      StepOk(st, Begin(filter, seals));
      if marked {
        return;
      }
      var snap, phase;
      ghost var p;
      snap, phase, p := Note(filter, seals);
      Rematch();
      OneMore(area, syncs, phases, st.syncs, packs, next, snap, phase, Starting(st, filter, seals), p);
      syncs, phases, packs := syncs[next := snap], phases[next := phase], packs[next := p];
      next, marked := next + 1, snap.chunks != map[];
      st := Step(st, Begin(filter, seals));
    }

    twostate lemma Rematch()
      requires old(AllMatch()) && unchanged(this)
      requires forall snap: Snapshot, c: nat, p: nat {:trigger area.Began(snap, c, p)} ::
                 old(area.Began(snap, c, p)) ==> area.Began(snap, c, p)
      ensures AllMatch()
    {
      hide S.Staging.Began;
    }

    /** A sync writes its rows. */
    method DoCommit(id: nat)
      requires Valid()
      modifies this
      ensures Valid() && st == Step(old(st), Commit(id))
    {
      hide Ok, S.Staging.Valid, S.Staging.Began, Matches;
      StepOk(st, Commit(id));
      OneOf(area, syncs, phases, st.syncs, packs, id);
      if id in syncs && phases[id] == Pending && syncs[id].chunks != map[] {
        WrittenMatches(area, syncs[id], st.syncs[id], packs[id]);
        phases := phases[id := Committed];
        st := Step(st, Commit(id));
      }
    }

    /** A sync ends, if it can end so: its chunks leave, its waiters are answered and the mark is cleared. */
    method DoFinish(id: nat, ok: bool) returns (done: seq<Waiter>)
      requires Valid()
      modifies this, area
      ensures Valid() && st == Step(old(st), Finish(id, ok))
      ensures done == if Ends(old(st), id, ok)
              then Answered(old(st).syncs[id].at, old(st).syncs[id].filter, old(st).waiters) else []
    {
      hide Ok, S.Staging.Valid, S.Staging.Began, Answered, Unanswered, Remaining, Matches, Correspond;
      StepOk(st, Finish(id, ok));
      OneOf(area, syncs, phases, st.syncs, packs, id);
      done := [];
      if id in syncs && (!ok || phases[id] == Committed || (phases[id] == Pending && syncs[id].chunks == map[])) {
        done := Retire(id, ok);
        Rematch();
        OneLess(area, syncs, phases, st.syncs, packs, id);
        st := Step(st, Finish(id, ok));
        syncs, phases, packs, marked := syncs - {id}, phases - {id}, packs - {id}, false;
      }
    }

    /** The staging area's part of a sync's end. */
    method Retire(id: nat, ok: bool) returns (done: seq<Waiter>)
      requires Staged() && Ok(st) && id in syncs && id in phases && id in packs && id in st.syncs && Ends(st, id, ok)
      requires Matches(area, syncs[id], phases[id], st.syncs[id], packs[id])
      modifies area
      ensures area.Valid() && area.clock == st.clock && area.stagingSeq == st.number
      ensures area.birth == Remaining(st.births, st.syncs[id].notes, ok)
      ensures done == Answered(st.syncs[id].at, st.syncs[id].filter, st.waiters)
      ensures area.waiters == Unanswered(st.syncs[id].at, st.syncs[id].filter, st.waiters)
      ensures forall other: Snapshot, d: nat, q: nat {:trigger area.Began(other, d, q)} ::
                old(area.Began(other, d, q)) ==> area.Began(other, d, q)
    {
      hide Dated, Accounted, LogOk, Follows, S.Staging.Valid, S.Staging.Began, Answered, Unanswered, S.Inodes,
          Began, Remaining;
      ghost var sync := st.syncs[id];
      assert Began(st.births, st.live, st.clock, st.number, sync);
      Stamps(area);
      done := area.FinishSync(syncs[id], ok, sync.began, packs[id]);
      Stamps(area);
      StandingIs(st, sync, ok, area.birth);
    }

    method DoUpload(pack: nat, state: PackState)
      requires Valid()
      modifies area
      ensures Valid() && st == old(st)
    {
      hide Ok, S.Staging.Began, CountsOk;
      if area.active != Some(pack) {
        area.SetPackState(pack, state);
      }
    }

    /** Any events, in any order, take the staging area and its syncs through the model's run. */
    method Run(events: seq<Event>)
      requires Valid()
      modifies this, area
      ensures Valid() && st == SyncModel.Run(old(st), events)
    {
      hide Runner.Valid, Step;
      for k := 0 to |events|
        invariant Valid() && st == SyncModel.Run(old(st), events[..k])
      {
        assert events[..k + 1][..k] == events[..k] && events[..k + 1][k] == events[k];
        match events[k]
        case Write(ino, chunks, completes) => DoWrite(ino, chunks, completes);
        case Drop(slot) => DoDrop(slot);
        case DropFile(ino) => DoDropFile(ino);
        case Request(ino, onClose) => var _ := DoRequest(ino, onClose);
        case Begin(filter, seals) => DoBegin(filter, seals);
        case Commit(id) => DoCommit(id);
        case Finish(id, ok) => var _ := DoFinish(id, ok);
        case Upload(pack, state) => DoUpload(pack, state); NoChange(st, pack, state);
      }
      assert events[..|events|] == events;
    }
  }

  lemma NoChange(st: State, pack: nat, state: PackState)
    ensures Step(st, Upload(pack, state)) == st
  {
  }
}
