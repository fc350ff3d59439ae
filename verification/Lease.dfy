/** Exclusive holds on volumes: a node's mount acquires one, renews it, releases it, or lets it expire. */
module Lease {
  import opened Options

  datatype Hold = Hold(node: string, mount: string, acquiredAt: int, expiry: int)

  datatype Error = InvalidArgument | Aborted(node: string, mount: string) | FailedPrecondition(node: string,
      mount: string)

  datatype Result<+T> = Ok(value: T) | Err(error: Error)

  const DEFAULT_TTL: int := 30_000_000_000

  predicate ValidVolume(v: string) {
    v != "" && v != "." && v != ".." && forall i | 0 <= i < |v| ::
      'A' <= v[i] <= 'Z' || 'a' <= v[i] <= 'z' || '0' <= v[i] <= '9' || v[i] in "._-"
  }

  // ----- what the calls do to the holds -----

  datatype Call =
    | Acquire(volume: string, node: string, mount: string, now: int)
    | Renew(volume: string, node: string, mount: string, now: int)
    | Release(volume: string, node: string, mount: string, now: int)

  type Holds = map<string, Hold>

  predicate Live(holds: Holds, v: string, now: int) {
    v in holds && now < holds[v].expiry
  }

  predicate Mine(holds: Holds, call: Call) {
    call.volume in holds && holds[call.volume].node == call.node && holds[call.volume].mount == call.mount
  }

  predicate WellFormed(call: Call) {
    if call.Release? then call.volume != "" && call.node != ""
    else ValidVolume(call.volume) && call.node != "" && call.mount != ""
  }

  /** The call leaves its (node, mount) holding the volume. */
  predicate Grants(holds: Holds, call: Call) {
    !call.Release? && WellFormed(call) && (Mine(holds, call) || !Live(holds, call.volume, call.now))
  }

  /** The call gives up the hold: its node asks to, or the lease is over. */
  predicate Drops(holds: Holds, call: Call) {
    && call.Release? && WellFormed(call) && call.volume in holds
    && ((holds[call.volume].node == call.node && (call.mount == "" || holds[call.volume].mount == call.mount))
        || call.now > holds[call.volume].expiry)
  }

  function After(holds: Holds, ttl: int, call: Call): Holds {
    if Grants(holds, call) then
      holds[call.volume := if Keeps(holds, call) then holds[call.volume].(expiry := call.now + ttl)
                           else Hold(call.node, call.mount, call.now, call.now + ttl)]
    else if Drops(holds, call) then holds - {call.volume}
    else holds
  }

  /** The call extends a hold it finds rather than starting one; a late renewal still extends its own. */
  predicate Keeps(holds: Holds, call: Call) {
    Mine(holds, call) && (call.Renew? || Live(holds, call.volume, call.now))
  }

  /** A well-formed acquire of this volume at this moment. */
  predicate Acquires(c: Call, v: string, now: int) {
    c.Acquire? && c.volume == v && c.now == now && WellFormed(c)
  }

  class Server {
    var holds: Holds
    const ttl: int

    constructor (ttl: int)
      ensures holds == map[] && this.ttl > 0
    {
      holds := map[];
      this.ttl := if ttl <= 0 then DEFAULT_TTL else ttl;
    }

    method AcquireExclusive(v: string, node: string, mount: string, now: int) returns (r: Result<Hold>)
      modifies this
      ensures holds == After(old(holds), ttl, Acquire(v, node, mount, now))
      ensures r.Ok? <==> Grants(old(holds), Acquire(v, node, mount, now))
      ensures r.Ok? ==> v in holds && r.value == holds[v]
      ensures r.Ok? ==> r.value.node == node && r.value.mount == mount && r.value.expiry == now + ttl
      ensures r.Err? ==> if WellFormed(Acquire(v, node, mount, now))
                         then v in old(holds) && r.error == Aborted(old(holds)[v].node, old(holds)[v].mount)
                         else r.error == InvalidArgument
    {
      if !ValidVolume(v) || node == "" || mount == "" {
        return Err(InvalidArgument);
      }
      if v in holds && now < holds[v].expiry {
        var hold := holds[v];
        if hold.node == node && hold.mount == mount {
          holds := holds[v := hold.(expiry := now + ttl)];
          return Ok(holds[v]);
        }
        return Err(Aborted(hold.node, hold.mount));
      }
      holds := holds[v := Hold(node, mount, now, now + ttl)];
      r := Ok(holds[v]);
    }

    method RenewExclusive(v: string, node: string, mount: string, now: int) returns (r: Result<Hold>)
      modifies this
      ensures holds == After(old(holds), ttl, Renew(v, node, mount, now))
      ensures r.Ok? <==> Grants(old(holds), Renew(v, node, mount, now))
      ensures r.Ok? ==> v in holds && r.value == holds[v]
      ensures r.Ok? ==> r.value.node == node && r.value.mount == mount && r.value.expiry == now + ttl
      ensures r.Err? ==> if WellFormed(Renew(v, node, mount, now))
                         then v in old(holds) && r.error == FailedPrecondition(old(holds)[v].node,
                             old(holds)[v].mount) else r.error == InvalidArgument
    {
      if !ValidVolume(v) || node == "" || mount == "" {
        return Err(InvalidArgument);
      }
      if v !in holds {
        holds := holds[v := Hold(node, mount, now, now + ttl)];
        return Ok(holds[v]);
      }
      var hold := holds[v];
      if hold.node == node && hold.mount == mount {
        holds := holds[v := hold.(expiry := now + ttl)];
        return Ok(holds[v]);
      }
      if now < hold.expiry {
        return Err(FailedPrecondition(hold.node, hold.mount));
      }
      holds := holds[v := Hold(node, mount, now, now + ttl)];
      r := Ok(holds[v]);
    }

    method ReleaseExclusive(v: string, node: string, mount: string, now: int) returns (r: Result<()>)
      modifies this
      ensures holds == After(old(holds), ttl, Release(v, node, mount, now))
      ensures r == if v != "" && node != "" then Ok(()) else Err(InvalidArgument)
    {
      if v == "" || node == "" {
        return Err(InvalidArgument);
      }
      if v in holds {
        var hold := holds[v];
        if hold.node == node && (mount == "" || hold.mount == mount) {
          holds := holds - {v};
        } else if now > hold.expiry {
          holds := holds - {v};
        }
      }
      r := Ok(());
    }

    /** The hold to report. Without one anybody can acquire the volume. Before the reported hold expires nobody but its
        owner can; at that very moment anybody can again, though the hold is still reported. */
    method GetExclusiveHold(v: string, now: int) returns (r: Result<Option<Hold>>)
      ensures r.Err? <==> v == ""
      ensures r.Err? ==> r.error == InvalidArgument
      ensures r.Ok? && r.value.Some? ==> v in holds && r.value.value == holds[v] && now <= holds[v].expiry
      ensures r.Ok? && r.value.None? ==> forall c | Acquires(c, v, now) :: Grants(holds, c)
      ensures r.Ok? && r.value.Some? ==>
                forall c | Acquires(c, v, now) :: Grants(holds, c) <==> Mine(holds, c) || now == r.value.value.expiry
    {
      if v == "" {
        return Err(InvalidArgument);
      }
      if v !in holds || now > holds[v].expiry {
        return Ok(None);
      }
      r := Ok(Some(holds[v]));
    }

    /** Any calls make a run. */
    method Run(calls: seq<Call>) returns (ghost states: seq<Holds>)
      modifies this
      ensures IsRun(states, calls, ttl) && states[0] == old(holds) && states[|calls|] == holds
    {
      states := [holds];
      var k := 0;
      while k < |calls|
        invariant 0 <= k <= |calls| && |states| == k + 1 && states[0] == old(holds) && states[k] == holds
        invariant forall j | 0 <= j < k :: states[j + 1] == After(states[j], ttl, calls[j])
      {
        match calls[k] {
          case Acquire(v, n, m, now) => var _ := AcquireExclusive(v, n, m, now);
          case Renew(v, n, m, now) => var _ := RenewExclusive(v, n, m, now);
          case Release(v, n, m, now) => var _ := ReleaseExclusive(v, n, m, now);
        }
        states := states + [holds];
        k := k + 1;
      }
    }
  }

  // ----- exclusion -----

  ghost predicate IsRun(states: seq<Holds>, calls: seq<Call>, ttl: int) {
    && |states| == |calls| + 1
    && forall k | 0 <= k < |calls| :: states[k + 1] == After(states[k], ttl, calls[k])
  }

  predicate ClockForward(calls: seq<Call>) {
    forall i, j | 0 <= i < j < |calls| :: calls[i].now <= calls[j].now
  }

  /** The holding node gave the volume back. */
  predicate GivesBack(call: Call, owner: Call) {
    call.Release? && call.volume == owner.volume && call.node == owner.node
    && (call.mount == "" || call.mount == owner.mount)
  }

  /** The grant still stands at this moment, or its time is over. */
  predicate Protected(holds: Holds, owner: Call, until: int, now: int) {
    now >= until || (Mine(holds, owner) && holds[owner.volume].expiry >= until)
  }

  lemma GrantProtects(holds: Holds, ttl: int, owner: Call)
    requires Grants(holds, owner)
    ensures Protected(After(holds, ttl, owner), owner, owner.now + ttl, owner.now)
  {
  }

  /** Until then, whatever is called, the grant stands and no other (node, mount) is granted the volume. */
  lemma StaysProtected(holds: Holds, ttl: int, owner: Call, until: int, before: int, call: Call)
    requires Protected(holds, owner, until, before) && before <= call.now && owner.now <= call.now
             && until == owner.now + ttl
    requires !GivesBack(call, owner)
    ensures Protected(After(holds, ttl, call), owner, until, call.now)
    ensures Grants(holds, call) && call.volume == owner.volume && call.now < until ==>
              call.node == owner.node && call.mount == owner.mount
  {
  }

  /** Over any run with a forward clock: once call `i` is granted a volume, no other (node, mount) is granted it
      by a call `j` before the lease is over, unless the holding node gave it back between. */
  lemma Exclusive(states: seq<Holds>, calls: seq<Call>, ttl: int, i: nat, j: nat)
    requires IsRun(states, calls, ttl) && ClockForward(calls) && i < j < |calls|
    requires Grants(states[i], calls[i]) && Grants(states[j], calls[j]) && calls[j].volume == calls[i].volume
    requires calls[j].node != calls[i].node || calls[j].mount != calls[i].mount
    ensures calls[j].now >= calls[i].now + ttl || exists k | i < k < j :: GivesBack(calls[k], calls[i])
  {
    hide Protected, After;
    var owner, until := calls[i], calls[i].now + ttl;
    if !(exists k | i < k < j :: GivesBack(calls[k], owner)) {
      assert states[i + 1] == After(states[i], ttl, calls[i]);
      GrantProtects(states[i], ttl, owner);
      var k := i + 1;
      while k < j
        invariant i < k <= j && Protected(states[k], owner, until, calls[k - 1].now)
      {
        StaysProtected(states[k], ttl, owner, until, calls[k - 1].now, calls[k]);
        assert states[k + 1] == After(states[k], ttl, calls[k]);
        k := k + 1;
      }
      StaysProtected(states[j], ttl, owner, until, calls[j - 1].now, calls[j]);
    }
  }

  /** Over any run from nothing, a hold in the map is the last grant of its volume: its owner and its expiry are that
      call's, and nothing after it granted the volume again. */
  lemma {:induction false} HeldIsLastGrant(states: seq<Holds>, calls: seq<Call>, ttl: int, v: string, n: nat)
      returns (k: nat)
    requires IsRun(states, calls, ttl) && states[0] == map[] && n <= |calls| && v in states[n]
    ensures k < n && Grants(states[k], calls[k]) && calls[k].volume == v
    ensures states[n][v].node == calls[k].node && states[n][v].mount == calls[k].mount
    ensures states[n][v].expiry == calls[k].now + ttl
    ensures forall j | k < j < n :: !(Grants(states[j], calls[j]) && calls[j].volume == v)
    ensures forall j | k < j < n :: !(Drops(states[j], calls[j]) && calls[j].volume == v)
    decreases n
  {
    var last := n - 1;
    assert states[last + 1] == After(states[last], ttl, calls[last]);
    if Grants(states[last], calls[last]) && calls[last].volume == v {
      k := last;
    } else {
      k := HeldIsLastGrant(states, calls, ttl, v, last);
    }
  }
}
