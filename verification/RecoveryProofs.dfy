/** When starting a replay afresh in the middle of a stream gives what replaying all of it gives. */
module RecoveryProofs {
  import opened RecoveryModel
  import Bytes

  lemma OpenStep(stream: seq<Record>, p: nat, k: nat, tx: nat)
    requires p < k <= |stream|
    ensures OpenSince(stream, p, k, tx) <==> OpenSince(stream, p, k - 1, tx) && !Closes(stream, k, tx)
  {
    if OpenSince(stream, p, k, tx) {
      var j: nat :| OpenFrom(stream, p, k, tx, j);
      assert OpenFrom(stream, p, k - 1, tx, j);
    }
    if OpenSince(stream, p, k - 1, tx) && !Closes(stream, k, tx) {
      var j: nat :| OpenFrom(stream, p, k - 1, tx, j);
      assert OpenFrom(stream, p, k, tx, j);
    }
  }

  lemma OpenGrows(stream: seq<Record>, k: nat, tx: nat)
    requires 1 <= k <= |stream|
    ensures OpenSince(stream, k, k, tx) <==>
              OpenSince(stream, k - 1, k, tx) || (Rec(stream, k).Write? && Rec(stream, k).tx == tx && tx != 0)
  {
    if Rec(stream, k).Write? && Rec(stream, k).tx == tx && tx != 0 {
      assert OpenFrom(stream, k, k, tx, k);
    }
    if OpenSince(stream, k - 1, k, tx) {
      var j: nat :| OpenFrom(stream, k - 1, k, tx, j);
      assert OpenFrom(stream, k, k, tx, j);
    }
    if OpenSince(stream, k, k, tx) {
      var j: nat :| OpenFrom(stream, k, k, tx, j);
      if j < k {
        assert OpenFrom(stream, k - 1, k, tx, j);
      }
    }
  }

  /** One record's step, seen from one transaction. */
  lemma HeldStep(s: Replay, stream: seq<Record>, k: nat, tx: nat)
    requires 1 <= k <= |stream|
    ensures var rec, next := Rec(stream, k), Step(s, k, Rec(stream, k)).pending;
            var writes := rec.Write? && rec.tx == tx && tx != 0;
            && !(writes && Closes(stream, k, tx))
            && (tx in next <==> writes || (tx in s.pending && !Closes(stream, k, tx)))
            && Held(next, tx) == if writes then Held(s.pending, tx) + [Change(k, rec.key, rec.op)]
                                 else if Closes(stream, k, tx) then [] else Held(s.pending, tx)
  {
  }

  /** What a replay has pending is exactly what is open in the stream. */
  lemma {:induction false} PendingIsOpen(s: Replay, stream: seq<Record>, k: nat, tx: nat)
    requires k <= |stream| && s.pending == map[]
    ensures tx in Run(s, stream, 0, k).pending <==> OpenSince(stream, k, k, tx)
  {
    hide OpenSince, Step, Closes;
    if k > 0 {
      PendingIsOpen(s, stream, k - 1, tx);
      OpenStep(stream, k - 1, k, tx);
      OpenGrows(stream, k, tx);
      HeldStep(Run(s, stream, 0, k - 1), stream, k, tx);
    } else {
      NothingOpen(stream, tx);
    }
  }

  lemma NothingOpen(stream: seq<Record>, tx: nat)
    ensures !OpenSince(stream, 0, 0, tx)
  {
  }

  lemma {:induction false} PendingNotEmpty(s: Replay, stream: seq<Record>, k: nat, tx: nat)
    requires k <= |stream| && s.pending == map[] && tx in Run(s, stream, 0, k).pending
    ensures Run(s, stream, 0, k).pending[tx] != []
  {
    if k > 0 && tx in Run(s, stream, 0, k - 1).pending {
      PendingNotEmpty(s, stream, k - 1, tx);
    }
  }

  /** A replay continued past `p` holds, of each transaction, what was open at `p` and still is, followed by
      what a replay begun afresh at `p` holds. */
  lemma {:induction false} Carried(s: Replay, t: Replay, stream: seq<Record>, p: nat, k: nat, tx: nat)
    requires p <= k <= |stream| && s.pending == map[] && t.pending == map[]
    ensures var full, begun := Run(s, stream, 0, k).pending, Run(t, stream, p, k).pending;
            Held(full, tx) == (if OpenSince(stream, p, k, tx) then Held(Run(s, stream, 0, p).pending, tx)
                else []) + Held(begun, tx)
  {
    hide OpenSince, Step, Closes, Run, Held;
    if k == p {
      PendingIsOpen(s, stream, p, tx);
      CarriedStart(s, t, stream, p, tx);
    } else {
      Carried(s, t, stream, p, k - 1, tx);
      OpenStep(stream, p, k, tx);
      RunStep(s, stream, 0, k);
      RunStep(t, stream, p, k);
      HeldStep(Run(s, stream, 0, k - 1), stream, k, tx);
      HeldStep(Run(t, stream, p, k - 1), stream, k, tx);
      var carry := if OpenSince(stream, p, k - 1, tx) then Held(Run(s, stream, 0, p).pending, tx) else [];
      var begun, rec := Held(Run(t, stream, p, k - 1).pending, tx), Rec(stream, k);
      if rec.Write? {
        Appended(carry, begun, Change(k, rec.key, rec.op));
      }
    }
  }

  lemma CarriedStart(s: Replay, t: Replay, stream: seq<Record>, p: nat, tx: nat)
    requires p <= |stream| && t.pending == map[]
    requires tx in Run(s, stream, 0, p).pending <==> OpenSince(stream, p, p, tx)
    ensures var full := Run(s, stream, 0, p).pending;
            Held(full, tx) == (if OpenSince(stream, p, p, tx) then Held(full, tx)
                else []) + Held(Run(t, stream, p, p).pending, tx)
  {
    hide OpenSince;
  }

  lemma RunStep(s: Replay, stream: seq<Record>, from: nat, k: nat)
    requires from < k <= |stream|
    ensures Run(s, stream, from, k) == Step(Run(s, stream, from, k - 1), k, Rec(stream, k))
  {
    hide Step;
  }

  lemma Appended(carry: seq<Change>, begun: seq<Change>, c: Change)
    ensures (carry + begun) + [c] == carry + (begun + [c])
  {
  }

  /** A record has the same effect in both replays exactly when it does not commit a straddling transaction. */
  lemma SameEffectIff(s: Replay, t: Replay, stream: seq<Record>, p: nat, k: nat)
    requires p < k <= |stream| && s.pending == map[] && t.pending == map[]
    ensures EffectAt(s, stream, 0, k) == EffectAt(t, stream, p, k) <==> !Straddles(stream, p, k)
  {
    var rec := Rec(stream, k);
    if rec.Commit? {
      Carried(s, t, stream, p, k - 1, rec.tx);
      if OpenSince(stream, p, k - 1, rec.tx) {
        var j: nat :| OpenFrom(stream, p, k - 1, rec.tx, j);
        assert OpenFrom(stream, p, p, rec.tx, j);
        PendingIsOpen(s, stream, p, rec.tx);
        PendingNotEmpty(s, stream, p, rec.tx);
      }
    }
  }

  /** So a snapshot of the rows at `p`, replayed to `n`, has at every position the effects of the whole stream
      if and only if no transaction straddles `p`; and then it recovers the same rows. */
  lemma {:induction false} SnapshotReplay(s: Replay, stream: seq<Record>, p: nat, n: nat)
    requires p <= n <= |stream| && s.pending == map[]
    ensures var t := Replay(Run(s, stream, 0, p).rows, map[]);
            && ((forall k | p < k <= n :: EffectAt(s, stream, 0, k) == EffectAt(t, stream, p, k))
                <==> (forall k | p < k <= n :: !Straddles(stream, p, k)))
            && ((forall k | p < k <= n :: !Straddles(stream, p, k)) ==>
                   Run(t, stream, p, n).rows == Run(s, stream, 0, n).rows)
  {
    hide Straddles;
    var t := Replay(Run(s, stream, 0, p).rows, map[]);
    forall k | p < k <= n
      ensures EffectAt(s, stream, 0, k) == EffectAt(t, stream, p, k) <==> !Straddles(stream, p, k)
    {
      SameEffectIff(s, t, stream, p, k);
    }
    if n > p && forall k | p < k <= n :: !Straddles(stream, p, k) {
      SnapshotReplay(s, stream, p, n - 1);
      assert EffectAt(s, stream, 0, n) == EffectAt(t, stream, p, n);
    }
  }

  /** Where nothing is pending, nothing straddles. */
  lemma NothingPending(s: Replay, stream: seq<Record>, p: nat, n: nat)
    requires p <= n <= |stream| && s.pending == map[] && Run(s, stream, 0, p).pending == map[]
    ensures forall k | p < k <= n :: !Straddles(stream, p, k)
  {
    forall k | p < k <= n
      ensures !Straddles(stream, p, k)
    {
      if Straddles(stream, p, k) {
        var tx := Rec(stream, k).tx;
        var j: nat :| OpenFrom(stream, p, k - 1, tx, j);
        assert OpenFrom(stream, p, p, tx, j);
        PendingIsOpen(s, stream, p, tx);
      }
    }
  }

  // ----- sessions -----

  predicate Ordered(bounds: seq<nat>, n: nat) {
    && (forall i, j | 0 <= i < j < |bounds| :: bounds[i] <= bounds[j])
    && forall i | 0 <= i < |bounds| :: bounds[i] <= n
  }

  /** The rows a volume lives with: at each bound it stopped, and what was pending was discarded. */
  function LiveRows(s: Replay, stream: seq<Record>, bounds: seq<nat>, n: nat): Rows
    requires Ordered(bounds, n) && n <= |stream|
    decreases |bounds|
  {
    if bounds == [] then Run(s, stream, 0, n).rows else
    var last, rest := bounds[|bounds| - 1], bounds[..|bounds| - 1];
    Run(Replay(LiveRows(s, stream, rest, last), map[]), stream, last, n).rows
  }

  /** What position `k` did to those rows: its effect in a replay begun at the last bound before it. */
  function LiveEffect(s: Replay, stream: seq<Record>, bounds: seq<nat>, k: nat): Effect
    requires 1 <= k <= |stream|
    decreases |bounds|
  {
    if bounds == [] then EffectAt(s, stream, 0, k) else
    var last, rest := bounds[|bounds| - 1], bounds[..|bounds| - 1];
    if last < k then EffectAt(Replay(map[], map[]), stream, last, k) else LiveEffect(s, stream, rest, k)
  }

  /** What is pending does not depend on the rows. */
  lemma {:induction false} PendingAlone(s: Replay, t: Replay, stream: seq<Record>, from: nat, k: nat)
    requires from <= k <= |stream| && s.pending == t.pending
    ensures Run(s, stream, from, k).pending == Run(t, stream, from, k).pending
  {
    hide NextPending;
    if from < k {
      PendingAlone(s, t, stream, from, k - 1);
    }
  }

  /** The rows a volume lives with are those its positions' effects make. */
  lemma LiveStep(s: Replay, stream: seq<Record>, bounds: seq<nat>, n: nat)
    requires 1 <= n <= |stream| && Ordered(bounds, n - 1)
    ensures Ordered(bounds, n)
    ensures LiveRows(s, stream, bounds, n) == Perform(LiveRows(s, stream, bounds, n - 1),
                LiveEffect(s, stream, bounds, n))
  {
    hide NextPending, EffectOf, Perform;
    if bounds == [] {
      RunStep(s, stream, 0, n);
    } else {
      var last, rest := bounds[|bounds| - 1], bounds[..|bounds| - 1];
      var t := Replay(LiveRows(s, stream, rest, last), map[]);
      RunStep(t, stream, last, n);
      PendingAlone(t, Replay(map[], map[]), stream, last, n - 1);
    }
  }

  /** A transaction that straddles a position straddles every later one before its commit. */
  lemma StraddlesLater(stream: seq<Record>, b: nat, c: nat, k: nat)
    requires b <= c < k <= |stream| && Straddles(stream, b, k)
    ensures Straddles(stream, c, k)
  {
    var tx := Rec(stream, k).tx;
    var j: nat :| OpenFrom(stream, b, k - 1, tx, j);
    assert OpenFrom(stream, c, k - 1, tx, j);
  }

  /** No transaction abandoned at a bound is committed after it. */
  ghost predicate NoneStraddles(stream: seq<Record>, bounds: seq<nat>, n: nat)
    requires n <= |stream|
  {
    forall b, k | b in bounds && b < k <= n :: !Straddles(stream, b, k)
  }

  lemma {:induction false} EffectIsLiveIff(s: Replay, stream: seq<Record>, bounds: seq<nat>, n: nat, k: nat)
    requires Ordered(bounds, n) && 1 <= k <= |stream| && s.pending == map[]
    ensures EffectAt(s, stream, 0, k) == LiveEffect(s, stream, bounds, k) <==> forall b | b in bounds && b < k ::
              !Straddles(stream, b, k)
    decreases |bounds|
  {
    hide EffectAt, Straddles;
    if bounds != [] {
      var last, rest := bounds[|bounds| - 1], bounds[..|bounds| - 1];
      assert last in bounds && bounds == rest + [last];
      if last < k {
        SameEffectIff(s, Replay(map[], map[]), stream, last, k);
        forall b | b in bounds && b < k && Straddles(stream, b, k)
          ensures Straddles(stream, last, k)
        {
          StraddlesLater(stream, b, last, k);
        }
      } else {
        EffectIsLiveIff(s, stream, rest, n, k);
      }
    }
  }

  /** Replaying the whole stream, abandoned transactions and all, has at every position the effect it had when the
      volume lived, if and only if no transaction abandoned at a bound is committed after it; and then it gives the
      rows the volume lived with. */
  lemma ReplayIsLive(s: Replay, stream: seq<Record>, bounds: seq<nat>, n: nat)
    requires Ordered(bounds, n) && n <= |stream| && s.pending == map[]
    ensures (forall k | 1 <= k <= n :: EffectAt(s, stream, 0, k) == LiveEffect(s, stream, bounds, k)) <==>
              NoneStraddles(stream, bounds, n)
    ensures NoneStraddles(stream, bounds, n) ==> Run(s, stream, 0, n).rows == LiveRows(s, stream, bounds, n)
  {
    hide EffectAt, LiveEffect, Straddles, Run, LiveRows;
    forall k | 1 <= k <= n
      ensures EffectAt(s, stream, 0, k) == LiveEffect(s, stream, bounds, k) <==> forall b | b in bounds && b < k ::
                !Straddles(stream, b, k)
    {
      EffectIsLiveIff(s, stream, bounds, n, k);
    }
    if forall k | 1 <= k <= n :: EffectAt(s, stream, 0, k) == LiveEffect(s, stream, bounds, k) {
      forall b, k | b in bounds && b < k <= n
        ensures !Straddles(stream, b, k)
      {
        assert EffectAt(s, stream, 0, k) == LiveEffect(s, stream, bounds, k);
      }
    }
    if NoneStraddles(stream, bounds, n) {
      LiveRowsAre(s, stream, bounds, n);
    }
  }

  lemma {:induction false} LiveRowsAre(s: Replay, stream: seq<Record>, bounds: seq<nat>, n: nat)
    requires Ordered(bounds, n) && n <= |stream| && s.pending == map[] && NoneStraddles(stream, bounds, n)
    ensures Run(s, stream, 0, n).rows == LiveRows(s, stream, bounds, n)
    decreases |bounds|
  {
    hide Run, Straddles;
    if bounds != [] {
      var last, rest := bounds[|bounds| - 1], bounds[..|bounds| - 1];
      assert last in bounds && forall b | b in rest :: b in bounds;
      LiveRowsAre(s, stream, rest, last);
      SnapshotReplay(s, stream, last, n);
    }
  }

  /** No transaction is left open at a bound: that is enough, and ids may be used again in every session. */
  lemma ClosedSessions(s: Replay, stream: seq<Record>, bounds: seq<nat>, n: nat)
    requires Ordered(bounds, n) && n <= |stream| && s.pending == map[]
    requires forall b | b in bounds :: Run(s, stream, 0, b).pending == map[]
    ensures Run(s, stream, 0, n).rows == LiveRows(s, stream, bounds, n)
  {
    hide Run, LiveRows, Straddles;
    forall b, k | b in bounds && b < k <= n
      ensures !Straddles(stream, b, k)
    {
      NothingPending(s, stream, b, n);
    }
    ReplayIsLive(s, stream, bounds, n);
  }

  /** Where one does straddle a bound, the rows differ: a transaction abandoned in one session is committed by another
      that uses its id again. */
  lemma ReusedId(key: Key, other: Key, row: seq<Bytes.Byte>)
    requires key != other
    ensures var stream, s := [Write(1, key, Upsert(row)), Write(1, other, Upsert(row)), Commit(1)],
        Replay(map[], map[]);
            key in Run(s, stream, 0, 3).rows && key !in LiveRows(s, stream, [1], 3)
  {
    hide ApplyBatch;
    var stream, s := [Write(1, key, Upsert(row)), Write(1, other, Upsert(row)), Commit(1)], Replay(map[], map[]);
    var a, b := Change(1, key, Upsert(row)), Change(2, other, Upsert(row));
    Batches(a, b);
    assert Run(s, stream, 0, 0) == s && Run(s, stream, 1, 1) == s;
    var none: seq<Change> := [];
    assert none + [a] == [a] && [a] + [b] == [a, b] && none + [b] == [b];
    assert Run(s, stream, 0, 1) == Step(s, 1, stream[0]) == Replay(map[], map[1 := [a]]);
    assert Run(s, stream, 0, 2) == Step(Run(s, stream, 0, 1), 2, stream[1]) == Replay(map[], map[1 := [a, b]]);
    assert Run(s, stream, 0, 3).rows == ApplyBatch(map[], [a, b]);
    assert Run(s, stream, 1, 2) == Step(s, 2, stream[1]) == Replay(map[], map[1 := [b]]);
    assert Run(s, stream, 1, 3).rows == ApplyBatch(map[], [b]);
    assert [1][..0] == [];
    assert LiveRows(s, stream, [], 1) == map[];
  }

  lemma Batches(a: Change, b: Change)
    ensures ApplyBatch(map[], []) == map[] && ApplyBatch(map[], [b]) == Applied(map[], b)
    ensures ApplyBatch(map[], [a, b]) == Applied(Applied(map[], a), b)
  {
    assert [b][..0] == [] && [a, b][..1] == [a] && [a][..0] == [];
  }

  // ----- the safe position -----

  /** The safe position a reader reports after `n` records. */
  function SafeAt(s: Replay, stream: seq<Record>, n: nat): nat
    requires n <= |stream|
  {
    if n == 0 then 0 else if Run(s, stream, 0, n).pending == map[] then n else SafeAt(s, stream, n - 1)
  }

  /** It is the latest position with nothing pending, so a snapshot there replays like the whole stream. */
  lemma {:induction false} SafeIsLatest(s: Replay, stream: seq<Record>, n: nat)
    requires n <= |stream| && s.pending == map[]
    ensures SafeAt(s, stream, n) <= n && Run(s, stream, 0, SafeAt(s, stream, n)).pending == map[]
    ensures forall k | SafeAt(s, stream, n) < k <= n :: Run(s, stream, 0, k).pending != map[]
  {
    if n > 0 && Run(s, stream, 0, n).pending != map[] {
      SafeIsLatest(s, stream, n - 1);
    }
  }

  lemma SafeSnapshot(s: Replay, stream: seq<Record>, m: nat, n: nat)
    requires m <= n <= |stream| && s.pending == map[]
    ensures var p := SafeAt(s, stream, m);
            p <= m && Run(Replay(Run(s, stream, 0, p).rows, map[]), stream, p, n).rows == Run(s, stream, 0, n).rows
  {
    hide Run;
    SafeIsLatest(s, stream, m);
    NothingPending(s, stream, SafeAt(s, stream, m), n);
    SnapshotReplay(s, stream, SafeAt(s, stream, m), n);
  }
}
