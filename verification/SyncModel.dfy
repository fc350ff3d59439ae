/** Syncs racing with writes, on values. Each event is one locked step of the source: a sync notes what is staged, later
    writes its rows in one transaction, and later still takes what it noted out of the staging area and answers. */
module SyncModel {
  import opened StagingModel
  import opened Options

  /** One staging of a chunk: when it was staged, and the number of the write that staged it. */
  datatype Version = Version(slot: Slot, birth: nat, number: nat)

  /** Chunks, each by the time it was staged: what is staged, what a sync noted, what the rows hold. */
  type Notes = map<Slot, nat>

  /** A sync has yet to write its rows, has written them, or could not seal its pack and will fail. */
  datatype Phase = Pending | Committed | Failing

  datatype Sync = Sync(at: nat, filter: Option<set<nat>>, notes: Notes, began: nat, phase: Phase)

  /** An answer: for the writes up to `at` of the files covered, to the caller and the waiters `done`; and what was live
      and committed at that moment. */
  datatype Reply = Reply(at: nat, filter: Option<set<nat>>, done: seq<Waiter>, ok: bool, live: set<Version>,
                         commits: seq<Notes>)

  /** `live` are the versions of chunks not cut or deleted since; `commits` the row transactions of syncs, in order;
      `marked` the flag that keeps others from beginning. */
  datatype State = State(births: Notes, clock: nat, number: nat, live: set<Version>, commits: seq<Notes>,
                         syncs: map<nat, Sync>, next: nat, marked: bool, waiters: seq<Waiter>, asked: multiset<Waiter>,
                         log: seq<Reply>)

  /** Writes that got through or not, cut chunks and deleted files, requests to sync, the three steps of a sync, and
      pack uploads. Syncs are numbered in the order they begin. */
  datatype Event =
    | Write(ino: nat, chunks: seq<Chunk>, completes: bool)
    | Drop(slot: Slot)
    | DropFile(ino: nat)
    | Request(ino: nat, onClose: bool)
    | Begin(filter: Option<set<nat>>, seals: bool)
    | Commit(id: nat)
    | Finish(id: nat, ok: bool)
    | Upload(pack: nat, state: PackState)

  const START := State(map[], 0, 0, {}, [], map[], 0, false, [], multiset{}, [])

  // ----- the record -----

  /** The chunk rows: each chunk is as the last sync that committed it had noted it. */
  function Rows(commits: seq<Notes>): Notes {
    if commits == [] then map[] else Rows(commits[..|commits| - 1]) + commits[|commits| - 1]
  }

  /** The version, or a newer one of its chunk. */
  predicate Has(notes: Notes, v: Version) {
    v.slot in notes && notes[v.slot] >= v.birth
  }

  ghost predicate EverHad(commits: seq<Notes>, v: Version) {
    exists i :: 0 <= i < |commits| && Has(commits[i], v)
  }

  predicate Promised(at: nat, filter: Option<set<nat>>, v: Version) {
    Covers(filter, v.slot.ino) && v.number <= at
  }

  /** All that a reply promises is in the rows. */
  ghost predicate True(r: Reply) {
    forall v | v in r.live && Promised(r.at, r.filter, v) :: Has(Rows(r.commits), v)
  }

  /** A sync had the version, and the last to commit its chunk is a later one that had noted an older version. */
  ghost predicate Overtaken(commits: seq<Notes>, v: Version) {
    exists i, j | 0 <= i < j < |commits| && Has(commits[i], v) && v.slot in commits[j] ::
      commits[j][v.slot] < v.birth && forall k | j < k < |commits| :: v.slot !in commits[k]
  }

  // ----- the events -----

  function AfterWrite(st: State, ino: nat, chunks: seq<Chunk>, completes: bool): State {
    var births := Stamped(st.births, st.clock, ino, chunks);
    st.(births := births, clock := st.clock + |chunks|, number := st.number + if completes then 1 else 0,
        live := st.live + set s | s in births && s in Touched(ino, chunks) :: Version(s, births[s], st.number + 1))
  }

  function AfterDrop(st: State, slot: Slot): State {
    st.(births := st.births - {slot}, live := set v | v in st.live && v.slot != slot)
  }

  function AfterDropFile(st: State, ino: nat): State {
    st.(births := map s | s in st.births && s.ino != ino :: st.births[s],
        live := set v | v in st.live && v.slot.ino != ino)
  }

  predicate Waits(births: Notes, ino: nat, onClose: bool) {
    exists s :: s in births && (onClose ==> s.ino == ino)
  }

  /** With nothing staged the answer is at once; otherwise a waiter waits for the writes so far. */
  function AfterRequest(st: State, ino: nat, onClose: bool): State {
    if Waits(st.births, ino, onClose) then
      var w := Waiter(st.number, ino);
      st.(waiters := st.waiters + [w], asked := st.asked + multiset{w})
    else
      st.(log := st.log + [Reply(st.number, Some({ino}), [], true, st.live, st.commits)])
  }

  function Noted(births: Notes, filter: Option<set<nat>>): Notes {
    map s | s in births && Covers(filter, s.ino) :: births[s]
  }

  /** A sync notes what is staged for it, if anything is and its pack can be sealed. */
  function Starting(st: State, filter: Option<set<nat>>, seals: bool): Sync {
    var found := Noted(st.births, filter);
    if seals || found == map[] then Sync(st.number, filter, found, st.clock, Pending)
    else Sync(st.number, filter, map[], st.clock, Failing)
  }

  /** A sync begins unless the mark is set; it sets the mark if it notes anything. */
  function AfterBegin(st: State, filter: Option<set<nat>>, seals: bool): State {
    if st.marked then st else
    var sync := Starting(st, filter, seals);
    st.(syncs := st.syncs[st.next := sync], next := st.next + 1, marked := sync.notes != map[])
  }

  predicate Unwritten(sync: Sync) {
    sync.phase == Pending && sync.notes != map[]
  }

  function AfterCommit(st: State, id: nat): State {
    if id !in st.syncs || !Unwritten(st.syncs[id]) then st else
    st.(commits := st.commits + [st.syncs[id].notes], syncs := st.syncs[id := st.syncs[id].(phase := Committed)])
  }

  /** A sync succeeds once its rows are written, or if it has none to write. It may fail at any time. */
  predicate Ends(st: State, id: nat, ok: bool) {
    id in st.syncs && (ok ==> st.syncs[id].phase != Failing && !Unwritten(st.syncs[id]))
  }

  /** What it noted and still stands leaves the staging area if it succeeds. Its waiters are answered, and the mark is
      cleared, whoever set it. */
  function AfterFinish(st: State, id: nat, ok: bool): State {
    if !Ends(st, id, ok) then st else
    var sync := st.syncs[id];
    var done := Answered(sync.at, sync.filter, st.waiters);
    st.(births := Remaining(st.births, sync.notes, ok), syncs := st.syncs - {id}, marked := false,
        waiters := Unanswered(sync.at, sync.filter, st.waiters),
        log := st.log + [Reply(sync.at, sync.filter, done, ok, st.live, st.commits)])
  }

  function Remaining(births: Notes, notes: Notes, ok: bool): Notes {
    map s | s in births && !(ok && s in notes && notes[s] == births[s]) :: births[s]
  }

  function Step(st: State, e: Event): State {
    match e
    case Write(ino, chunks, completes) => AfterWrite(st, ino, chunks, completes)
    case Drop(slot) => AfterDrop(st, slot)
    case DropFile(ino) => AfterDropFile(st, ino)
    case Request(ino, onClose) => AfterRequest(st, ino, onClose)
    case Begin(filter, seals) => AfterBegin(st, filter, seals)
    case Commit(id) => AfterCommit(st, id)
    case Finish(id, ok) => AfterFinish(st, id, ok)
    case Upload(_, _) => st
  }

  function Run(st: State, events: seq<Event>): State {
    if events == [] then st else Step(Run(st, events[..|events| - 1]), events[|events| - 1])
  }
}
