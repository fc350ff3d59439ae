/** What fsync is worth: over every run, when a successful reply is true. */
module SyncProofs {
  import opened StagingModel
  import opened SyncModel
  import opened Options

  // ----- what every event keeps -----

  ghost predicate Dated(births: Notes, live: set<Version>, clock: nat, number: nat) {
    && (forall s | s in births :: births[s] <= clock)
    && (forall v | v in live :: v.birth <= clock && v.number <= number + 1)
    && (forall v | v in live && v.slot in births :: v.birth <= births[v.slot])
  }

  /** A sync noted what was staged when it began; what was staged since has a later time and a later number. */
  ghost predicate Began(births: Notes, live: set<Version>, clock: nat, number: nat, sync: Sync) {
    && sync.began <= clock && sync.at <= number
    && (forall s | s in sync.notes :: sync.notes[s] <= sync.began && Covers(sync.filter, s.ino))
    && (forall s | s in sync.notes && s in births && births[s] <= sync.began :: births[s] == sync.notes[s])
    && (forall v | v in live && v.birth > sync.began :: v.number > sync.at)
  }

  /** Every version is staged, or hidden by a newer one that is, or some sync has committed it. */
  ghost predicate Accounted(births: Notes, live: set<Version>, commits: seq<Notes>) {
    forall v | v in live :: v.slot in births || EverHad(commits, v)
  }

  /** What was written before a sync began is committed, or will be with it. */
  ghost predicate Follows(live: set<Version>, commits: seq<Notes>, sync: Sync) {
    sync.phase != Failing ==> forall v | v in live && Covers(sync.filter, v.slot.ino) && v.birth <= sync.began ::
      EverHad(commits, v) || (sync.phase == Pending && Has(sync.notes, v))
  }

  ghost predicate SyncsOk(st: State) {
    forall id | id in st.syncs ::
      && id < st.next && Began(st.births, st.live, st.clock, st.number, st.syncs[id])
      && Follows(st.live, st.commits, st.syncs[id])
  }

  /** A reply is no later than the waiters it answers and for their files; and all that it promises, if it reports
      success, has been committed by some sync. */
  ghost predicate Kept(r: Reply) {
    && (forall w | w in r.done :: Answers(r.at, r.filter, w))
    && (r.ok ==> forall v | v in r.live && Promised(r.at, r.filter, v) :: EverHad(r.commits, v))
  }

  function Told(log: seq<Reply>): multiset<Waiter> {
    if log == [] then multiset{} else Told(log[..|log| - 1]) + multiset(log[|log| - 1].done)
  }

  ghost predicate LogOk(st: State) {
    && (forall r | r in st.log :: Kept(r))
    && st.asked == Told(st.log) + multiset(st.waiters)
  }

  ghost predicate Ok(st: State) {
    && Dated(st.births, st.live, st.clock, st.number) && Accounted(st.births, st.live, st.commits)
    && SyncsOk(st) && LogOk(st)
  }

  // ----- writes -----

  lemma {:induction false} StampedAre(births: Notes, clock: nat, ino: nat, chunks: seq<Chunk>)
    ensures Stamped(births, clock, ino, chunks).Keys == births.Keys + Touched(ino, chunks)
    ensures forall s | s in Touched(ino, chunks) :: clock < Stamped(births, clock, ino, chunks)[s] <= clock + |chunks|
    ensures forall s | s in births && s !in Touched(ino, chunks) :: Stamped(births, clock, ino, chunks)[s] == births[s]
  {
    hide Touched;
    if chunks == [] {
      TouchedNone(ino);
    } else {
      var n := |chunks| - 1;
      StampedAre(births, clock, ino, chunks[..n]);
      TouchedMore(ino, chunks, n);
      assert chunks[..n + 1] == chunks;
    }
  }

  lemma WriteBegan(st: State, ino: nat, chunks: seq<Chunk>, completes: bool, sync: Sync)
    requires Began(st.births, st.live, st.clock, st.number, sync)
    ensures var to := AfterWrite(st, ino, chunks, completes);
            Began(to.births, to.live, to.clock, to.number, sync)
  {
    hide Touched, Stamped;
    StampedAre(st.births, st.clock, ino, chunks);
  }

  lemma WriteFollows(st: State, ino: nat, chunks: seq<Chunk>, completes: bool, sync: Sync)
    requires Began(st.births, st.live, st.clock, st.number, sync) && Follows(st.live, st.commits, sync)
    ensures Follows(AfterWrite(st, ino, chunks, completes).live, st.commits, sync)
  {
    hide Touched, Stamped, EverHad, Has;
    StampedAre(st.births, st.clock, ino, chunks);
  }

  lemma WriteOk(st: State, ino: nat, chunks: seq<Chunk>, completes: bool)
    requires Ok(st)
    ensures Ok(AfterWrite(st, ino, chunks, completes))
  {
    hide Touched, Stamped, Began, Follows, EverHad, Kept, Told;
    var to := AfterWrite(st, ino, chunks, completes);
    StampedAre(st.births, st.clock, ino, chunks);
    forall id | id in st.syncs
      ensures Began(to.births, to.live, to.clock, to.number, st.syncs[id]) && Follows(to.live, to.commits, st.syncs[id])
    {
      WriteBegan(st, ino, chunks, completes, st.syncs[id]);
      WriteFollows(st, ino, chunks, completes, st.syncs[id]);
    }
  }

  // ----- cut chunks -----

  /** Fewer chunks staged and the versions of no others left. */
  lemma FewerOk(st: State, to: State)
    requires Ok(st) && to == st.(births := to.births, live := to.live) && to.live <= st.live
    requires to.births.Keys <= st.births.Keys && forall s | s in to.births :: to.births[s] == st.births[s]
    requires forall v | v in to.live && v.slot in st.births :: v.slot in to.births
    ensures Ok(to)
  {
    hide EverHad, Has, Kept, Told;
  }

  // ----- requests -----

  /** With nothing staged for it a file has nothing that is not committed. */
  lemma UnstagedKept(births: Notes, live: set<Version>, commits: seq<Notes>, ino: nat, onClose: bool, at: nat)
    requires Accounted(births, live, commits) && !Waits(births, ino, onClose)
    ensures Kept(Reply(at, Some({ino}), [], true, live, commits))
  {
    hide EverHad;
  }

  lemma RequestLog(st: State, ino: nat, onClose: bool)
    requires LogOk(st) && Accounted(st.births, st.live, st.commits)
    ensures LogOk(AfterRequest(st, ino, onClose))
  {
    hide Accounted, Kept, Waits;
    var to := AfterRequest(st, ino, onClose);
    if !Waits(st.births, ino, onClose) {
      UnstagedKept(st.births, st.live, st.commits, ino, onClose, st.number);
      assert to.log[..|st.log|] == st.log;
    }
  }

  lemma RequestOk(st: State, ino: nat, onClose: bool)
    requires Ok(st)
    ensures Ok(AfterRequest(st, ino, onClose))
  {
    hide Dated, Accounted, SyncsOk, LogOk, Waits;
    RequestLog(st, ino, onClose);
    SameSyncs(st, AfterRequest(st, ino, onClose));
  }

  lemma SameSyncs(st: State, to: State)
    requires SyncsOk(st) && to == st.(waiters := to.waiters, asked := to.asked, log := to.log)
    ensures SyncsOk(to)
  {
    hide Began, Follows;
  }

  // ----- the steps of a sync -----

  lemma BeginOk(st: State, filter: Option<set<nat>>, seals: bool)
    requires Ok(st)
    ensures Ok(AfterBegin(st, filter, seals))
  {
    hide Began, Follows, Kept, Told, EverHad, Starting;
    if !st.marked {
      BeginBegan(st, filter, seals);
    }
  }

  lemma BeginBegan(st: State, filter: Option<set<nat>>, seals: bool)
    requires Dated(st.births, st.live, st.clock, st.number) && Accounted(st.births, st.live, st.commits)
    ensures var sync := Starting(st, filter, seals);
            Began(st.births, st.live, st.clock, st.number, sync) && Follows(st.live, st.commits, sync)
  {
    hide EverHad;
  }

  lemma HadMore(commits: seq<Notes>, notes: Notes, v: Version)
    ensures EverHad(commits + [notes], v) <==> EverHad(commits, v) || Has(notes, v)
  {
    hide Has;
    var more := commits + [notes];
    if i :| 0 <= i < |commits| && Has(commits[i], v) {
      assert Has(more[i], v);
    }
    if Has(notes, v) {
      assert Has(more[|commits|], v);
    }
  }

  lemma CommitFollows(live: set<Version>, commits: seq<Notes>, notes: Notes, sync: Sync)
    requires Follows(live, commits, sync)
    ensures Follows(live, commits + [notes], sync)
    ensures sync.notes == notes && sync.phase == Pending ==>
              Follows(live, commits + [notes], sync.(phase := Committed))
  {
    hide EverHad, Has;
    forall v
      ensures EverHad(commits + [notes], v) <==> EverHad(commits, v) || Has(notes, v)
    {
      HadMore(commits, notes, v);
    }
  }

  lemma CommitOk(st: State, id: nat)
    requires Ok(st)
    ensures Ok(AfterCommit(st, id))
  {
    hide Dated, Began, Follows, Has, EverHad, Kept, Told;
    if id in st.syncs && Unwritten(st.syncs[id]) {
      var to, notes := AfterCommit(st, id), st.syncs[id].notes;
      forall v | v in st.live
        ensures v.slot in st.births || EverHad(to.commits, v)
      {
        HadMore(st.commits, notes, v);
      }
      forall k | k in to.syncs
        ensures Began(to.births, to.live, to.clock, to.number, to.syncs[k]) && Follows(to.live, to.commits, to.syncs[k])
      {
        CommitFollows(st.live, st.commits, notes, st.syncs[k]);
        PhaseBegan(st, st.syncs[k]);
      }
    }
  }

  lemma PhaseBegan(st: State, sync: Sync)
    requires Began(st.births, st.live, st.clock, st.number, sync)
    ensures Began(st.births, st.live, st.clock, st.number, sync.(phase := Committed))
  {
  }

  /** What leaves the staging area is committed. */
  lemma RemainingAccounted(st: State, sync: Sync, ok: bool)
    requires Dated(st.births, st.live, st.clock, st.number) && Accounted(st.births, st.live, st.commits)
    requires Began(st.births, st.live, st.clock, st.number, sync) && Follows(st.live, st.commits, sync)
    requires ok ==> sync.phase != Failing && !Unwritten(sync)
    ensures Accounted(Remaining(st.births, sync.notes, ok), st.live, st.commits)
  {
    hide EverHad, Has;
    var left := Remaining(st.births, sync.notes, ok);
    forall v | v in st.live
      ensures v.slot in left || EverHad(st.commits, v)
    {
      if v.slot in st.births && v.slot !in left {
        assert v.birth <= sync.began;
      }
    }
  }

  lemma RemainingBegan(st: State, notes: Notes, ok: bool, sync: Sync)
    requires Began(st.births, st.live, st.clock, st.number, sync)
    ensures Began(Remaining(st.births, notes, ok), st.live, st.clock, st.number, sync)
  {
  }

  lemma RemainingDated(st: State, notes: Notes, ok: bool)
    requires Dated(st.births, st.live, st.clock, st.number)
    ensures Dated(Remaining(st.births, notes, ok), st.live, st.clock, st.number)
  {
  }

  /** A sync that succeeds has committed, or found committed, all that it promises. */
  lemma FinishKept(st: State, sync: Sync, done: seq<Waiter>, ok: bool)
    requires Began(st.births, st.live, st.clock, st.number, sync) && Follows(st.live, st.commits, sync)
    requires ok ==> sync.phase != Failing && !Unwritten(sync)
    requires forall w | w in done :: Answers(sync.at, sync.filter, w)
    ensures Kept(Reply(sync.at, sync.filter, done, ok, st.live, st.commits))
  {
    hide EverHad;
  }

  lemma FinishLog(st: State, id: nat, ok: bool)
    requires LogOk(st) && Ends(st, id, ok)
    requires var sync := st.syncs[id];
             && Began(st.births, st.live, st.clock, st.number, sync) && Follows(st.live, st.commits, sync)
    ensures LogOk(AfterFinish(st, id, ok))
  {
    hide Began, Follows, Answered, Unanswered, Kept;
    var to, sync := AfterFinish(st, id, ok), st.syncs[id];
    var r := to.log[|st.log|];
    AnsweredAre(sync.at, sync.filter, st.waiters);
    FinishKept(st, sync, r.done, ok);
    WaitersKept(sync.at, sync.filter, st.waiters);
    assert to.log[..|st.log|] == st.log;
  }

  lemma FinishOk(st: State, id: nat, ok: bool)
    requires Ok(st)
    ensures Ok(AfterFinish(st, id, ok))
  {
    hide Dated, Began, Follows, Accounted, LogOk, Answered, Unanswered, Remaining;
    if Ends(st, id, ok) {
      var sync := st.syncs[id];
      RemainingDated(st, sync.notes, ok);
      RemainingAccounted(st, sync, ok);
      FinishLog(st, id, ok);
      forall k | k in st.syncs
        ensures Began(Remaining(st.births, sync.notes, ok), st.live, st.clock, st.number, st.syncs[k])
      {
        RemainingBegan(st, sync.notes, ok, st.syncs[k]);
      }
    }
  }

  lemma StepOk(st: State, e: Event)
    requires Ok(st)
    ensures Ok(Step(st, e))
  {
    hide Ok;
    match e
    case Write(ino, chunks, completes) => WriteOk(st, ino, chunks, completes);
    case Drop(slot) => FewerOk(st, AfterDrop(st, slot));
    case DropFile(ino) => FewerOk(st, AfterDropFile(st, ino));
    case Request(ino, onClose) => RequestOk(st, ino, onClose);
    case Begin(filter, seals) => BeginOk(st, filter, seals);
    case Commit(id) => CommitOk(st, id);
    case Finish(id, ok) => FinishOk(st, id, ok);
    case Upload(_, _) =>
  }

  lemma {:induction false} RunOk(st: State, events: seq<Event>)
    requires Ok(st)
    ensures Ok(Run(st, events))
  {
    hide Ok, Step;
    if events != [] {
      RunOk(st, events[..|events| - 1]);
      StepOk(Run(st, events[..|events| - 1]), events[|events| - 1]);
    }
  }

  // ----- when a reply is true -----

  /** The row of a chunk is what the last sync that committed it had noted. */
  lemma {:induction false} RowIsLast(commits: seq<Notes>, s: Slot) returns (j: int)
    ensures s in Rows(commits) <==> j >= 0
    ensures -1 <= j < |commits| && forall k | j < k < |commits| :: s !in commits[k]
    ensures j >= 0 ==> s in commits[j] && Rows(commits)[s] == commits[j][s]
  {
    if commits == [] {
      j := -1;
    } else if s in commits[|commits| - 1] {
      j := |commits| - 1;
    } else {
      j := RowIsLast(commits[..|commits| - 1], s);
    }
  }

  /** A version some sync committed is in the rows, or a newer one, exactly when it was not overtaken. */
  lemma InRowsIff(commits: seq<Notes>, v: Version)
    requires EverHad(commits, v)
    ensures Has(Rows(commits), v) <==> !Overtaken(commits, v)
  {
    var j := RowIsLast(commits, v.slot);
    var i :| 0 <= i < |commits| && Has(commits[i], v);
    assert i <= j;
    if Overtaken(commits, v) {
      var m, n :| 0 <= m < n < |commits| && Has(commits[m], v) && v.slot in commits[n]
                  && commits[n][v.slot] < v.birth && forall k | n < k < |commits| :: v.slot !in commits[k];
      assert n == j;
    }
  }

  /** Over every run: a successful reply is true if and only if no sync overtook another on a chunk it promises. */
  lemma ReplyTrueIff(events: seq<Event>, r: Reply)
    requires r in Run(START, events).log && r.ok
    ensures True(r) <==> forall v | v in r.live && Promised(r.at, r.filter, v) :: !Overtaken(r.commits, v)
  {
    hide Run, Rows, Has, Overtaken, EverHad, Dated, SyncsOk, Accounted;
    StartOk();
    RunOk(START, events);
    assert Kept(r);
    forall v | v in r.live && Promised(r.at, r.filter, v)
      ensures Has(Rows(r.commits), v) <==> !Overtaken(r.commits, v)
    {
      InRowsIff(r.commits, v);
    }
  }

  lemma StartOk()
    ensures Ok(START)
  {
  }

  /** So for its waiters: none is lost or answered twice, and one told of success by a true reply has in the rows
      whatever the writes it waits for left in its file. */
  lemma WaitersServed(events: seq<Event>)
    ensures var st := Run(START, events); st.asked == Told(st.log) + multiset(st.waiters)
    ensures forall r, w, v | r in Run(START, events).log && w in r.done && True(r) && v in r.live ::
              v.slot.ino == w.ino && v.number <= w.at ==> Has(Rows(r.commits), v)
  {
    hide Run, Rows, Has, EverHad, Dated, SyncsOk, Accounted, Told;
    StartOk();
    RunOk(START, events);
    var log := Run(START, events).log;
    forall r, w, v | r in log && w in r.done && True(r) && v in r.live && v.slot.ino == w.ino && v.number <= w.at
      ensures Has(Rows(r.commits), v)
    {
      assert Kept(r);
    }
  }

  // ----- syncs in order -----

  /** What later syncs commit is no older. */
  ghost predicate InOrder(commits: seq<Notes>) {
    forall i, j, s | 0 <= i < j < |commits| && s in commits[i] && s in commits[j] :: commits[i][s] <= commits[j][s]
  }

  ghost predicate Newest(commits: seq<Notes>, notes: Notes) {
    forall i, s | 0 <= i < |commits| && s in notes && s in commits[i] :: commits[i][s] <= notes[s]
  }

  /** A sync may begin while another has yet to write its rows. */
  ghost predicate Exposed(st: State) {
    !st.marked && exists id :: id in st.syncs && Unwritten(st.syncs[id])
  }

  /** No sync begins then. */
  ghost predicate Guarded(st: State, events: seq<Event>) {
    forall n | 0 <= n < |events| && events[n].Begin? :: !Exposed(Run(st, events[..n]))
  }

  ghost predicate Ordered(st: State) {
    && InOrder(st.commits) && Newest(st.commits, st.births)
    && (forall i, s | 0 <= i < |st.commits| && s in st.commits[i] :: st.commits[i][s] <= st.clock)
    && (forall id | id in st.syncs && Unwritten(st.syncs[id]) :: Newest(st.commits, st.syncs[id].notes))
    && (forall a, b | a in st.syncs && b in st.syncs && Unwritten(st.syncs[a]) && Unwritten(st.syncs[b]) :: a == b)
  }

  lemma WriteOrdered(st: State, ino: nat, chunks: seq<Chunk>, completes: bool)
    requires Ordered(st)
    ensures Ordered(AfterWrite(st, ino, chunks, completes))
  {
    hide Touched, Stamped, InOrder, Unwritten;
    StampedAre(st.births, st.clock, ino, chunks);
  }

  lemma BeginOrdered(st: State, filter: Option<set<nat>>, seals: bool)
    requires Ordered(st) && !Exposed(st)
    ensures Ordered(AfterBegin(st, filter, seals))
  {
    hide InOrder;
  }

  /** The one sync that had yet to write its rows writes them, none older than those before. */
  lemma CommitOrdered(st: State, id: nat)
    requires Ok(st) && Ordered(st)
    ensures Ordered(AfterCommit(st, id))
  {
    hide Dated, Accounted, Follows, LogOk;
    if id in st.syncs && Unwritten(st.syncs[id]) {
      var sync := st.syncs[id];
      assert Began(st.births, st.live, st.clock, st.number, sync);
    }
  }

  lemma FinishOrdered(st: State, id: nat, ok: bool)
    requires Ordered(st)
    ensures Ordered(AfterFinish(st, id, ok))
  {
    hide InOrder, Answered, Unanswered, Unwritten;
  }

  lemma StepOrdered(st: State, e: Event)
    requires Ok(st) && Ordered(st) && (e.Begin? ==> !Exposed(st))
    ensures Ordered(Step(st, e))
  {
    hide Ok, Exposed, InOrder, Unwritten;
    match e
    case Write(ino, chunks, completes) => WriteOrdered(st, ino, chunks, completes);
    case Begin(filter, seals) => BeginOrdered(st, filter, seals);
    case Commit(id) => CommitOrdered(st, id);
    case Finish(id, ok) => FinishOrdered(st, id, ok);
    case _ =>
  }

  lemma {:induction false} RunOrdered(events: seq<Event>)
    requires Guarded(START, events)
    ensures Ordered(Run(START, events))
  {
    hide Ok, Ordered, Step, Exposed;
    if events == [] {
      StartOrdered();
    } else {
      var n := |events| - 1;
      assert forall k | 0 <= k < n :: events[..n][..k] == events[..k];
      RunOrdered(events[..n]);
      StartOk();
      RunOk(START, events[..n]);
      StepOrdered(Run(START, events[..n]), events[n]);
    }
  }

  lemma StartOrdered()
    ensures Ordered(START)
  {
  }

  lemma StepReply(st: State, e: Event, r: Reply)
    requires r in Step(st, e).log
    ensures st.commits <= Step(st, e).commits && (r in st.log || r.commits == Step(st, e).commits)
  {
    hide Answered, Unanswered, Stamped, Touched, Waits, Ends, Unwritten, Remaining, Starting;
  }

  /** Each reply was given with the commits there were then. */
  lemma {:induction false} ReplyCommits(events: seq<Event>, r: Reply)
    requires r in Run(START, events).log
    ensures r.commits <= Run(START, events).commits
  {
    hide Step;
    if events != [] {
      var n := |events| - 1;
      StepReply(Run(START, events[..n]), events[n], r);
      if r in Run(START, events[..n]).log {
        ReplyCommits(events[..n], r);
      }
    }
  }

  lemma OrderedNotOvertaken(commits: seq<Notes>, all: seq<Notes>, v: Version)
    requires InOrder(all) && commits <= all
    ensures !Overtaken(commits, v)
  {
  }

  /** If no sync begins while another has yet to write its rows, every successful reply is true. */
  lemma GuardedIsTrue(events: seq<Event>, r: Reply)
    requires Guarded(START, events) && r in Run(START, events).log && r.ok
    ensures True(r)
  {
    hide Run, Guarded, Overtaken, True, Newest, InOrder;
    RunOrdered(events);
    ReplyCommits(events, r);
    forall v
      ensures !Overtaken(r.commits, v)
    {
      OrderedNotOvertaken(r.commits, Run(START, events).commits, v);
    }
    ReplyTrueIff(events, r);
  }

  /** So when a sync begins only when none is under way. */
  lemma OneAtATimeIsTrue(events: seq<Event>, r: Reply)
    requires forall n | 0 <= n < |events| && events[n].Begin? :: Run(START, events[..n]).syncs == map[]
    requires r in Run(START, events).log && r.ok
    ensures True(r)
  {
    hide Run, True;
    GuardedIsTrue(events, r);
  }

  // ----- how a volume becomes exposed, and what follows -----

  /** Only the end of another sync exposes one that has yet to write its rows: it clears a mark it did not set. */
  lemma ExposedIff(st: State, e: Event)
    requires Ok(st) && !Exposed(st)
    ensures Exposed(Step(st, e)) <==>
            && e.Finish? && Ends(st, e.id, e.ok)
            && exists id :: id in st.syncs && id != e.id && Unwritten(st.syncs[id])
  {
    hide Dated, Accounted, Follows, LogOk, Began, Answered, Unanswered, Stamped, Touched, Waits, Remaining;
    var to := Step(st, e);
    if e.Finish? && Ends(st, e.id, e.ok) {
      assert forall id :: id in to.syncs <==> id in st.syncs && id != e.id;
    } else if e.Commit? {
      if id :| id in to.syncs && Unwritten(to.syncs[id]) {
        assert id in st.syncs && Unwritten(st.syncs[id]);
      }
    }
  }

  lemma {:induction false} RunMore(st: State, first: seq<Event>, then_: seq<Event>)
    ensures Run(st, first + then_) == Run(Run(st, first), then_)
  {
    hide Step;
    if then_ == [] {
      assert first + then_ == first;
    } else {
      var n := |then_| - 1;
      RunMore(st, first, then_[..n]);
      assert (first + then_)[..|first| + n] == first + then_[..n];
    }
  }

  lemma RunOne(st: State, first: seq<Event>, e: Event)
    ensures Run(st, first + [e]) == Step(Run(st, first), e)
  {
    hide Step;
    assert (first + [e])[..|first|] == first;
  }

  lemma RunFour(st: State, e: Event, f: Event, g: Event, h: Event)
    ensures Run(st, [e, f, g, h]) == Step(Step(Step(Step(st, e), f), g), h)
  {
    hide Step, Run;
    RunNone(st);
    RunOne(st, [], e);
    assert [] + [e] == [e];
    RunOne(st, [e], f);
    assert [e] + [f] == [e, f];
    RunOne(st, [e, f], g);
    assert [e, f] + [g] == [e, f, g];
    RunOne(st, [e, f, g], h);
    assert [e, f, g] + [h] == [e, f, g, h];
  }

  lemma RunNone(st: State)
    ensures Run(st, []) == st
  {
  }

  /** Sync `a` has noted chunk `s`. The chunk is written again; a second sync, number `next`, runs from begin to end;
      then `a` writes its rows and ends. A third sync finds nothing staged and reports success. */
  function Overtaking(next: nat, a: nat, s: Slot): seq<Event> {
    [Write(s.ino, [Chunk(s.index, 0, 0, 0, false)], true), Begin(None, true), Commit(next), Finish(next, true)]
    + [Commit(a), Finish(a, true), Begin(None, true), Finish(next + 1, true)]
  }

  lemma RestagedAt(st: State, s: Slot)
    requires Ok(st) && !st.marked
    ensures var to := AfterWrite(st, s.ino, [Chunk(s.index, 0, 0, 0, false)], true);
            && to.births == st.births[s := st.clock + 1] && to.syncs == st.syncs && to.next == st.next && !to.marked
            && to.number == st.number + 1 && to.commits == st.commits
            && Version(s, st.clock + 1, st.number + 1) in to.live
  {
    hide Ok;
    var chunks := [Chunk(s.index, 0, 0, 0, false)];
    assert chunks[..0] == [];
    assert Stamped(st.births, st.clock, s.ino, chunks[..0]) == st.births;
    assert Slot(s.ino, chunks[0].index) in Touched(s.ino, chunks);
  }

  /** A sync of everything, begun and ended with nothing in between, leaves nothing staged. */
  lemma WholeSync(st: State, s: Slot)
    requires !st.marked && s in st.births
    ensures var to := AfterFinish(AfterCommit(AfterBegin(st, None, true), st.next), st.next, true);
            && to.births == map[] && to.syncs == st.syncs - {st.next} && to.next == st.next + 1 && !to.marked
            && to.number == st.number && to.commits == st.commits + [st.births] && to.live == st.live
  {
    hide Answered, Unanswered;
    var begun := AfterBegin(st, None, true);
    assert Noted(st.births, None) == st.births;
    var written := AfterCommit(begun, st.next);
    assert written.syncs[st.next].notes == st.births;
    assert Remaining(st.births, st.births, true) == map[];
    assert written.syncs - {st.next} == st.syncs - {st.next};
  }

  lemma IdleSync(st: State)
    requires !st.marked && st.births == map[]
    ensures var to := AfterFinish(AfterBegin(st, None, true), st.next, true);
            && |to.log| > 0
            && var r := to.log[|to.log| - 1];
            r.at == st.number && r.filter == None && r.ok && r.live == st.live && r.commits == st.commits
  {
    hide Answered, Unanswered, Remaining;
    assert Noted(st.births, None) == map[];
  }

  lemma OvertakingRuns(st: State, next: nat, a: nat, s: Slot)
    ensures Run(st, Overtaking(next, a, s)) ==
            (var one := AfterWrite(st, s.ino, [Chunk(s.index, 0, 0, 0, false)], true);
             var two := AfterFinish(AfterCommit(AfterBegin(one, None, true), next), next, true);
             AfterFinish(AfterBegin(AfterFinish(AfterCommit(two, a), a, true), None, true), next + 1, true))
  {
    hide AfterWrite, AfterFinish, AfterCommit, AfterBegin, Run;
    var one := [Write(s.ino, [Chunk(s.index, 0, 0, 0, false)], true), Begin(None, true), Commit(next),
        Finish(next, true)];
    var two := [Commit(a), Finish(a, true), Begin(None, true), Finish(next + 1, true)];
    RunMore(st, one, two);
    RunFour(st, one[0], one[1], one[2], one[3]);
    RunFour(Run(st, one), two[0], two[1], two[2], two[3]);
  }

  /** From every exposed state some run ends with a successful reply that is not true. */
  lemma ExposedLoses(st: State, a: nat, s: Slot)
    requires Ok(st) && !st.marked && a in st.syncs && Unwritten(st.syncs[a]) && s in st.syncs[a].notes
    ensures var log := Run(st, Overtaking(st.next, a, s)).log;
            |log| > 0 && log[|log| - 1].ok && !True(log[|log| - 1])
  {
    hide AfterWrite, AfterFinish, AfterBegin, AfterCommit, Run, Dated, Accounted, Follows, LogOk, Rows;
    var old_ := st.syncs[a];
    assert a < st.next && Began(st.births, st.live, st.clock, st.number, old_);
    var v := Version(s, st.clock + 1, st.number + 1);
    var one := AfterWrite(st, s.ino, [Chunk(s.index, 0, 0, 0, false)], true);
    RestagedAt(st, s);
    WholeSync(one, s);
    var two := AfterFinish(AfterCommit(AfterBegin(one, None, true), st.next), st.next, true);
    var three := AfterFinish(AfterCommit(two, a), a, true);
    LateCommit(two, a, v);
    IdleSync(three);
    OvertakingRuns(st, st.next, a, s);
  }

  lemma LateCommit(st: State, a: nat, v: Version)
    requires a in st.syncs && Unwritten(st.syncs[a]) && v.slot in st.syncs[a].notes
             && st.syncs[a].notes[v.slot] < v.birth && !st.marked && st.births == map[]
    ensures var to := AfterFinish(AfterCommit(st, a), a, true);
            && !Has(Rows(to.commits), v) && to.live == st.live && to.births == map[] && !to.marked
            && to.number == st.number && to.next == st.next
  {
    hide Answered, Unanswered;
  }

  /** And an idle sync is all it takes to get there: begun before the first write, it ends while the sync of that write
      is under way. */
  const EXPOSING: seq<Event> := [Begin(None, true), Write(1, [Chunk(0, 0, 0, 0, false)], true), Begin(None, true),
      Finish(0, true)]

  lemma ExposingRuns() returns (st: State)
    ensures st == Run(START, EXPOSING) && st.next == 2 && !st.marked
    ensures 1 in st.syncs && Unwritten(st.syncs[1]) && Slot(1, 0) in st.syncs[1].notes
  {
    hide Run, AfterWrite, Answered, Unanswered, Remaining, Ok;
    RunFour(START, EXPOSING[0], EXPOSING[1], EXPOSING[2], EXPOSING[3]);
    var begun := AfterBegin(START, None, true);
    assert begun.syncs == map[0 := Sync(0, None, map[], 0, Pending)];
    StartOk();
    StepOk(START, EXPOSING[0]);
    RestagedAt(begun, Slot(1, 0));
    var written := AfterWrite(begun, 1, [Chunk(0, 0, 0, 0, false)], true);
    var second := AfterBegin(written, None, true);
    assert Slot(1, 0) in second.syncs[1].notes;
    st := AfterFinish(second, 0, true);
  }

  /** A run of the code as it is, at the end of which fsync reports success and a write is lost. */
  lemma SyncLosesWrite()
    ensures var log := Run(START, EXPOSING + Overtaking(2, 1, Slot(1, 0))).log;
            |log| > 0 && log[|log| - 1].ok && !True(log[|log| - 1])
  {
    hide Run, True;
    var st := ExposingRuns();
    StartOk();
    RunOk(START, EXPOSING);
    RunMore(START, EXPOSING, Overtaking(2, 1, Slot(1, 0)));
    ExposedLoses(st, 1, Slot(1, 0));
  }
}
