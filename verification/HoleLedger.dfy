/** The in-memory hole ledger, updated in place under its lock. */
module HoleLedgers {
  import opened Wrappers
  import opened MapFacts
  import opened HoleModel
  import opened HoleRuns

  function DefaultConfig(confirmAfter: nat): Config {
    Config(confirmAfter, HOLE_TTL, confirmAfter + HOLE_CONFIRM_FETCH + PROVISIONAL_MARGIN,
           DEFAULT_HOLE_CAPACITY)
  }

  /** A provisional hole of a default ledger outlives the confirm delay and the fetch that
      confirms it. */
  lemma ProvisionalOutlivesTheDelay(e: Entry, now: nat, confirmAfter: nat)
    requires e.state == Provisional
    requires now <= e.firstRefusedAt + confirmAfter + HOLE_CONFIRM_FETCH
    ensures !Lapsed(e, now, DefaultConfig(confirmAfter))
  {
  }

  /** The records in order of use, least recent first. */
  ghost predicate InUseOrder(holes: Holes, order: seq<string>)
    decreases |order|
  {
    if order == [] then holes.Keys == {}
    else
      && holes.Keys != {}
      && order[0] == Oldest(TouchedOf(holes))
      && InUseOrder(holes - {order[0]}, order[1..])
  }

  method SortByUse(holes: Holes) returns (order: seq<string>)
    requires Injective(TouchedOf(holes))
    ensures InUseOrder(holes, order)
    decreases |holes|
  {
    if holes.Keys == {} {
      return [];
    }
    var first := FindOldest(TouchedOf(holes));
    assert TouchedOf(holes - {first}) == TouchedOf(holes) - {first};
    InjectiveDrop(TouchedOf(holes), {first});
    var rest := SortByUse(holes - {first});
    order := [first] + rest;
    assert order[1..] == rest;
  }

  class InMemoryHoleLedger {
    const c: Config
    var holes: Holes
    var clock: nat
    var nextSweep: Option<nat>

    ghost function Abs(): Ledger
      reads this
    {
      Ledger(holes, clock, nextSweep)
    }

    ghost predicate Valid()
      reads this
    {
      Wf(Abs(), c)
    }

    lemma ValidMeans()
      requires Valid()
      ensures 1 <= c.capacity && Wf(Abs(), c)
      ensures Abs() == Ledger(holes, clock, nextSweep)
    {
    }

    /** A ledger for a configuration; a capacity of zero counts as one. */
    constructor (config: Config)
      ensures Valid() && Abs() == NewLedger()
      ensures c == config.(capacity := Max(config.capacity, 1))
    {
      c := config.(capacity := Max(config.capacity, 1));
      holes, clock, nextSweep := map[], 0, None;
    }

    method Sweep(now: nat)
      requires Valid()
      modifies `holes, `nextSweep
      ensures Valid() && Abs() == Swept(old(Abs()), now, c)
    {
      SweepKeeps(Abs(), now, c);
      holes := Fresh(holes, now, c);
      nextSweep := Some(now + SWEEP_INTERVAL);
    }

    /** Make room for one record: sweep when due or full, then evict the least recently
        used down to nine tenths of the capacity. */
    method MakeRoom(now: nat)
      requires Valid()
      modifies `holes, `nextSweep
      ensures Valid() && |holes| < c.capacity
      ensures Abs() == RoomMade(old(Abs()), now, c)
    {
      hide Wf, Fresh, EvictOldest, Keep, RoomMade, Swept, Injective, TouchedOf;
      WfMeans(Abs(), c);
      RoomIsMade(Abs(), now, c);
      RoomMeans(Abs(), now, c);
      var full := |holes| >= c.capacity;
      if full || nextSweep.None? || now >= nextSweep.value {
        Sweep(now);
        WfMeans(Abs(), c);
      }
      if |holes| < c.capacity {
        return;
      }
      EvictLeastUsed(|holes| - Keep(c));
    }

    method EvictLeastUsed(evict: nat)
      requires Injective(TouchedOf(holes)) && evict <= |holes|
      modifies `holes
      ensures holes == EvictOldest(old(holes), evict)
    {
      hide *;
      var byUse := SortByUse(holes);
      assert byUse[0..] == byUse;
      var i := 0;
      while i < evict
        invariant 0 <= i <= evict && i <= |byUse|
        invariant InUseOrder(holes, byUse[i..])
        invariant evict - i <= |holes|
        invariant EvictOldest(holes, evict - i) == EvictOldest(old(holes), evict)
      {
        ghost var order := byUse[i..];
        EvictStep(holes, order, evict - i);
        assert order[0] == byUse[i] && order[1..] == byUse[i + 1..];
        holes := holes - {byUse[i]};
        i := i + 1;
      }
      EvictNone(holes);
    }

    /** Tick, drop a record that is no evidence for this outcome, and make room for a
        refusal that has none. */
    method PrepareNote(id: string, outcome: Outcome, servers: seq<string>, now: nat)
      requires Valid()
      modifies this
      ensures Valid()
      ensures Abs() == Prepared(old(Abs()), id, outcome, servers, now, c)
    {
      hide Wf, Outdated, RoomMade, Prepared;
      TickIsWf(Abs(), id, c);
      PreparedMeans(Abs(), id, outcome, servers, now, c);
      clock := clock + 1;
      if id in holes && Outdated(holes[id], outcome, servers, now, c) {
        holes := holes - {id};
      }
      if outcome.Refused? && id !in holes {
        MakeRoom(now);
      }
    }

    method Note(id: string, outcome: Outcome, servers: seq<string>, now: nat)
      returns (answer: NoteAnswer)
      requires Valid()
      modifies this
      ensures Valid()
      ensures (Abs(), answer) == Noted(old(Abs()), id, outcome, servers, now, c)
      ensures outcome.Refused? ==> id in holes && answer.state == Some(holes[id].state)
    {
      NotedIsWf(Abs(), id, outcome, servers, now, c);
      hide Injective, TouchedOf, Lapsed, RoomMade, Refuse, Prepared, Wf;
      PrepareNote(id, outcome, servers, now);
      var touched := clock;
      match outcome {
        case Present =>
          holes := holes - {id};
          answer := NoteAnswer(None, false);
        case Transport(server) =>
          if id !in holes {
            return NoteAnswer(None, false);
          }
          var entry := holes[id];
          holes := holes[id := entry.(touched := touched,
                                      evidence := entry.evidence[server := Unreachable],
                                      reprobeClaimedAt := None)];
          answer := NoteAnswer(Some(entry.state), false);
        case Refused(server) =>
          answer := NoteRefusal(id, server, servers, now);
      }
    }

    /** Enter a refusal on the article's record, made now if there is none, and confirm the
        hole once every server has refused across the confirm delay. */
    method NoteRefusal(id: string, server: string, servers: seq<string>, now: nat)
      returns (answer: NoteAnswer)
      modifies `holes
      ensures
        var was := if id in old(holes) then old(holes)[id] else NewEntry(servers, now, clock);
        var e := Refuse(was, server, servers, now, clock, c);
        && holes == old(holes)[id := e]
        && answer == NoteAnswer(Some(e.state), e.state == Provisional)
    {
      hide AllRefused;
      var entry := if id in holes then holes[id] else NewEntry(servers, now, clock);
      entry := entry.(touched := clock, evidence := entry.evidence[server := Refusal]);
      if entry.state == Confirmed {
        holes := holes[id := entry];
        return NoteAnswer(Some(Confirmed), false);
      }
      var allRefused := AllRefused(entry.evidence, servers);
      var waited := Since(now, entry.firstRefusedAt) >= c.confirmAfter;
      if allRefused && waited {
        entry := entry.(state := Confirmed, confirmedAt := Some(now),
                        expiresAt := Some(now + c.ttl), reprobeClaimedAt := None);
      }
      holes := holes[id := entry];
      answer := NoteAnswer(Some(entry.state), entry.state == Provisional);
    }

    method ConsultFor(id: string, servers: seq<string>, now: nat) returns (answer: Consult)
      requires Valid()
      modifies `holes, `clock
      ensures Valid()
      ensures (Abs(), answer) == Consulted(old(Abs()), id, servers, now, c)
      ensures ConsultIs(old(Abs()), id, servers, now, c, answer)
      ensures answer == Reprobe ==> id in holes && holes[id].reprobeClaimedAt == Some(now)
    {
      hide Injective, TouchedOf, Lapsed, Wf, ConsultIs;
      ConsultAnswers(Abs(), id, servers, now, c);
      ConsultedIsWf(Abs(), id, servers, now, c);
      var touched := clock + 1;
      clock := touched;
      if id !in holes {
        return Fetch;
      }
      var entry := holes[id];
      if entry.fingerprint != Fingerprint(servers) || Lapsed(entry, now, c) {
        holes := holes - {id};
        return Fetch;
      }
      entry := entry.(touched := touched);
      if entry.state == Provisional {
        answer := Held;
      } else if !Expired(entry, now) {
        answer := Skip;
      } else {
        var claimed := entry.reprobeClaimedAt.Some?
          && Since(now, entry.reprobeClaimedAt.value) < REPROBE_CLAIM_TIMEOUT;
        if claimed {
          answer := Skip;
        } else {
          entry := entry.(reprobeClaimedAt := Some(now));
          answer := Reprobe;
        }
      }
      holes := holes[id := entry];
    }

    /** The state of a hole, unless its record has lapsed. */
    method StateOf(id: string, now: nat) returns (state: Option<HoleState>)
      ensures state.Some? <==> id in holes && !Lapsed(holes[id], now, c)
      ensures state.Some? ==> state.value == holes[id].state
    {
      if id in holes && !Lapsed(holes[id], now, c) {
        return Some(holes[id].state);
      }
      state := None;
    }

    /** Take back a confirmed hole of an earlier process, unless it ran out or there is a
        record of the article. */
    method Restore(hole: StoredHole, now: nat)
      requires Valid()
      modifies this
      ensures Valid() && |holes| <= c.capacity
      ensures Abs() == Restored(old(Abs()), hole, now, c)
    {
      hide Injective, TouchedOf, Lapsed, RoomMade;
      RestoredIsWf(Abs(), hole, now, c);
      if now >= hole.expiresAt || hole.messageId in holes {
        return;
      }
      MakeRoom(now);
      clock := clock + 1;
      holes := holes[hole.messageId := Entry(
        Confirmed,
        Marks(hole.refusedBy, Refusal) + Marks(hole.unreachable, Unreachable),
        hole.firstRefusedAt, Some(hole.confirmedAt), Some(hole.expiresAt),
        hole.fingerprint, None, clock)];
    }
  }

  lemma RoomMeans(l: Ledger, now: nat, c: Config)
    requires 1 <= c.capacity
    ensures Keep(c) < c.capacity
    ensures
      var full := |l.holes| >= c.capacity || l.nextSweep.None? || now >= l.nextSweep.value;
      var s := if full then Swept(l, now, c) else l;
      RoomMade(l, now, c)
      == if |s.holes| < c.capacity then s else s.(holes := EvictOldest(s.holes, |s.holes| - Keep(c)))
  {
    hide Swept, EvictOldest;
  }

  lemma PreparedMeans(l: Ledger, id: string, outcome: Outcome, servers: seq<string>, now: nat, c: Config)
    requires Wf(l, c)
    ensures 1 <= c.capacity
    ensures
      var l1 := l.(clock := l.clock + 1);
      var l2 := if id in l.holes && Outdated(l.holes[id], outcome, servers, now, c)
                then l1.(holes := l.holes - {id}) else l1;
      Prepared(l, id, outcome, servers, now, c)
      == if outcome.Refused? && id !in l2.holes then RoomMade(l2, now, c) else l2
  {
    hide Outdated, RoomMade, Injective, TouchedOf;
  }

  /** A tick, and a record dropped with it, leave a ledger well-formed. */
  lemma TickIsWf(l: Ledger, id: string, c: Config)
    requires Wf(l, c)
    ensures Wf(l.(clock := l.clock + 1), c)
    ensures Wf(l.(clock := l.clock + 1, holes := l.holes - {id}), c)
  {
    DropRecord(l.holes, id);
    hide Injective, TouchedOf;
  }

  lemma EvictStep(holes: Holes, order: seq<string>, n: nat)
    requires InUseOrder(holes, order) && 0 < n <= |holes|
    ensures order != []
    ensures |holes - {order[0]}| == |holes| - 1
    ensures EvictOldest(holes, n) == EvictOldest(holes - {order[0]}, n - 1)
    ensures InUseOrder(holes - {order[0]}, order[1..])
  {
    NotEmpty(holes);
    DropsOne(holes, order[0]);
  }

  lemma EvictNone(holes: Holes)
    ensures EvictOldest(holes, 0) == holes
  {
  }

  lemma DropsOne(holes: Holes, id: string)
    requires id in holes
    ensures |holes - {id}| == |holes| - 1
  {
    assert (holes - {id}).Keys == holes.Keys - {id};
    assert |holes - {id}| == |holes.Keys - {id}|;
  }
}
