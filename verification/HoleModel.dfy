/** The hole ledger as a value: when a refused article becomes a recorded hole. Times are
    milliseconds of a clock that does not run backwards. */
module HoleModel {
  import opened Wrappers
  import opened MapFacts

  const HOLE_TTL: nat := 24 * 60 * 60 * 1000
  const HOLE_CONFIRM_FETCH: nat := 5 * 1000
  const REPROBE_CLAIM_TIMEOUT: nat := 30 * 1000
  const PROVISIONAL_MARGIN: nat := 60 * 1000
  const EXPIRED_GRACE: nat := 60 * 60 * 1000
  const SWEEP_INTERVAL: nat := 60 * 1000
  const DEFAULT_HOLE_CAPACITY: nat := 100_000

  datatype HoleState = Provisional | Confirmed

  datatype Outcome = Present | Refused(server: string) | Transport(server: string)

  datatype NoteAnswer = NoteAnswer(state: Option<HoleState>, confirmNeeded: bool)

  datatype Consult = Fetch | Held | Skip | Reprobe

  datatype Evidence = Refusal | Unreachable

  datatype Entry = Entry(
    state: HoleState,
    evidence: map<string, Evidence>,
    firstRefusedAt: nat,
    confirmedAt: Option<nat>,
    expiresAt: Option<nat>,
    fingerprint: set<string>,
    reprobeClaimedAt: Option<nat>,
    touched: nat)

  datatype StoredHole = StoredHole(
    messageId: string,
    refusedBy: seq<string>,
    unreachable: seq<string>,
    fingerprint: set<string>,
    firstRefusedAt: nat,
    confirmedAt: nat,
    expiresAt: nat)

  datatype Config = Config(confirmAfter: nat, ttl: nat, provisionalTtl: nat, capacity: nat)

  type Holes = map<string, Entry>

  datatype Ledger = Ledger(holes: Holes, clock: nat, nextSweep: Option<nat>)

  /** The set of servers that were asked stands for its fingerprint. */
  function Fingerprint(servers: seq<string>): set<string> {
    set s | s in servers
  }

  function Since(now: nat, at: nat): nat { Sat(now, at) }

  predicate Expired(e: Entry, now: nat) {
    e.expiresAt.Some? && now >= e.expiresAt.value
  }

  predicate Lapsed(e: Entry, now: nat, c: Config) {
    match e.state
    case Provisional => Since(now, e.firstRefusedAt) >= c.provisionalTtl
    case Confirmed => e.expiresAt.Some? && now >= e.expiresAt.value + EXPIRED_GRACE
  }

  function TouchedOf(holes: Holes): (r: map<string, nat>)
    ensures r.Keys == holes.Keys
  {
    map id | id in holes :: holes[id].touched
  }

  ghost predicate Wf(l: Ledger, c: Config) {
    && 1 <= c.capacity
    && |l.holes| <= c.capacity
    && Injective(TouchedOf(l.holes))
    && forall id :: id in l.holes ==> l.holes[id].touched <= l.clock
  }

  lemma WfMeans(l: Ledger, c: Config)
    requires Wf(l, c)
    ensures 1 <= c.capacity && Injective(TouchedOf(l.holes))
  {
  }

  // ---- Making room ----------------------------------------------------------------

  function Fresh(holes: Holes, now: nat, c: Config): (r: Holes)
    ensures |r| <= |holes|
  {
    var r := map id | id in holes && !Lapsed(holes[id], now, c) :: holes[id];
    SubsetIsSmaller(r, holes);
    r
  }

  lemma SubsetIsSmaller(a: Holes, b: Holes)
    requires a.Keys <= b.Keys
    ensures |a| <= |b|
  {
    assert b.Keys == a.Keys + (b.Keys - a.Keys);
    assert |a| == |a.Keys| && |b| == |b.Keys|;
  }

  function Swept(l: Ledger, now: nat, c: Config): Ledger {
    l.(holes := Fresh(l.holes, now, c), nextSweep := Some(now + SWEEP_INTERVAL))
  }

  predicate SweepDue(l: Ledger, now: nat, c: Config) {
    |l.holes| >= c.capacity || l.nextSweep.None? || now >= l.nextSweep.value
  }

  lemma NotEmpty(holes: Holes)
    requires |holes| > 0
    ensures holes.Keys != {}
  {
    assert |holes| == |holes.Keys|;
  }

  /** The records left when the `n` least recently used go. */
  ghost function EvictOldest(holes: Holes, n: nat): (r: Holes)
    requires n <= |holes|
    ensures r.Keys <= holes.Keys && (forall id :: id in r ==> r[id] == holes[id])
    ensures |r| == |holes| - n
  {
    if n == 0 then holes
    else
      NotEmpty(holes);
      var victim := Oldest(TouchedOf(holes));
      EvictOldest(holes - {victim}, n - 1)
  }

  function Keep(c: Config): nat
    requires 1 <= c.capacity
  {
    Min(c.capacity * 9 / 10, c.capacity - 1)
  }

  ghost function RoomMade(l: Ledger, now: nat, c: Config): Ledger
    requires 1 <= c.capacity
  {
    var s := if SweepDue(l, now, c) then Swept(l, now, c) else l;
    if |s.holes| < c.capacity then s
    else s.(holes := EvictOldest(s.holes, |s.holes| - Keep(c)))
  }

  // ---- Notes ----------------------------------------------------------------------

  /** A record that is no evidence for this outcome any more. */
  predicate Outdated(e: Entry, outcome: Outcome, servers: seq<string>, now: nat, c: Config) {
    Lapsed(e, now, c)
    || (!outcome.Transport? && (e.fingerprint != Fingerprint(servers) || Expired(e, now)))
  }

  function NewEntry(servers: seq<string>, now: nat, touched: nat): Entry {
    Entry(Provisional, map[], now, None, None, Fingerprint(servers), None, touched)
  }

  predicate AllRefused(evidence: map<string, Evidence>, servers: seq<string>) {
    servers != [] && forall i :: 0 <= i < |servers| ==>
      servers[i] in evidence && evidence[servers[i]] == Refusal
  }

  /** A record after one more refusal. */
  function Refuse(e: Entry, server: string, servers: seq<string>, now: nat, touched: nat, c: Config): Entry {
    var e1 := e.(touched := touched, evidence := e.evidence[server := Refusal]);
    if e1.state == Provisional && AllRefused(e1.evidence, servers)
       && Since(now, e1.firstRefusedAt) >= c.confirmAfter
    then e1.(state := Confirmed, confirmedAt := Some(now), expiresAt := Some(now + c.ttl),
             reprobeClaimedAt := None)
    else e1
  }

  /** The ledger when a note comes to its outcome: the clock ticked, an outdated record
      gone, and room made for a refusal that has no record. */
  ghost function Prepared(l: Ledger, id: string, outcome: Outcome, servers: seq<string>, now: nat, c: Config)
    : Ledger
    requires 1 <= c.capacity
  {
    var l1 := l.(clock := l.clock + 1);
    var l2 := if id in l1.holes && Outdated(l1.holes[id], outcome, servers, now, c)
              then l1.(holes := l1.holes - {id}) else l1;
    if outcome.Refused? && id !in l2.holes then RoomMade(l2, now, c) else l2
  }

  ghost function Noted(l: Ledger, id: string, outcome: Outcome, servers: seq<string>, now: nat, c: Config)
    : (Ledger, NoteAnswer)
    requires 1 <= c.capacity
  {
    var p := Prepared(l, id, outcome, servers, now, c);
    match outcome
    case Present => (p.(holes := p.holes - {id}), NoteAnswer(None, false))
    case Transport(server) =>
      if id !in p.holes then (p, NoteAnswer(None, false))
      else
        var e := p.holes[id];
        (p.(holes := p.holes[id := e.(touched := p.clock,
                                      evidence := e.evidence[server := Unreachable],
                                      reprobeClaimedAt := None)]),
         NoteAnswer(Some(e.state), false))
    case Refused(server) =>
      var e := if id in p.holes then p.holes[id] else NewEntry(servers, now, p.clock);
      var e1 := Refuse(e, server, servers, now, p.clock, c);
      (p.(holes := p.holes[id := e1]),
       NoteAnswer(Some(e1.state), e1.state == Provisional))
  }

  // ---- Consults and restores ------------------------------------------------------

  function Consulted(l: Ledger, id: string, servers: seq<string>, now: nat, c: Config): (Ledger, Consult) {
    var l1 := l.(clock := l.clock + 1);
    if id !in l1.holes then (l1, Fetch)
    else
      var e := l1.holes[id];
      if e.fingerprint != Fingerprint(servers) || Lapsed(e, now, c) then
        (l1.(holes := l1.holes - {id}), Fetch)
      else
        var e1 := e.(touched := l1.clock);
        if e.state == Provisional then (l1.(holes := l1.holes[id := e1]), Held)
        else if !Expired(e, now) then (l1.(holes := l1.holes[id := e1]), Skip)
        else if e.reprobeClaimedAt.Some? && Since(now, e.reprobeClaimedAt.value) < REPROBE_CLAIM_TIMEOUT then
          (l1.(holes := l1.holes[id := e1]), Skip)
        else
          (l1.(holes := l1.holes[id := e1.(reprobeClaimedAt := Some(now))]), Reprobe)
  }

  /** The record that answers a caller with these servers to ask, if there is one. */
  ghost predicate Answers(l: Ledger, id: string, servers: seq<string>, now: nat, c: Config) {
    id in l.holes && l.holes[id].fingerprint == Fingerprint(servers) && !Lapsed(l.holes[id], now, c)
  }

  /** Some caller was told to probe again, and its claim has not timed out. */
  predicate ClaimHolds(e: Entry, now: nat) {
    e.reprobeClaimedAt.Some? && now < e.reprobeClaimedAt.value + REPROBE_CLAIM_TIMEOUT
  }

  /** The four answers, each exactly in its own case. */
  ghost predicate ConsultIs(l: Ledger, id: string, servers: seq<string>, now: nat, c: Config, answer: Consult) {
    var answers := Answers(l, id, servers, now, c);
    && (answer == Fetch <==> !answers)
    && (answer == Held <==> answers && l.holes[id].state == Provisional)
    && (answer == Skip <==>
          && answers && l.holes[id].state == Confirmed
          && (!Expired(l.holes[id], now) || ClaimHolds(l.holes[id], now)))
    && (answer == Reprobe <==>
          && answers && l.holes[id].state == Confirmed
          && Expired(l.holes[id], now) && !ClaimHolds(l.holes[id], now))
  }

  /** A consult gives the answer of its case. It drops a record that does not answer, notes a
      claim when it gives one out, and otherwise only the use of a record. */
  lemma ConsultAnswers(l: Ledger, id: string, servers: seq<string>, now: nat, c: Config)
    ensures
      var (after, answer) := Consulted(l, id, servers, now, c);
      && ConsultIs(l, id, servers, now, c, answer)
      && (id in after.holes <==> answer != Fetch)
      && (forall i :: i in after.holes ==>
            && i in l.holes
            && after.holes[i] == l.holes[i].(touched := after.holes[i].touched,
                                             reprobeClaimedAt := after.holes[i].reprobeClaimedAt)
            && (after.holes[i].touched ==
                  if i == id then l.clock + 1 else l.holes[i].touched)
            && (after.holes[i].reprobeClaimedAt ==
                  if i == id && answer == Reprobe then Some(now) else l.holes[i].reprobeClaimedAt))
      && (forall i :: i in l.holes && i != id ==> i in after.holes)
  {
    hide Lapsed;
  }

  function Marks(servers: seq<string>, kind: Evidence): map<string, Evidence> {
    map s | s in servers :: kind
  }

  ghost function Restored(l: Ledger, hole: StoredHole, now: nat, c: Config): Ledger
    requires 1 <= c.capacity
  {
    if now >= hole.expiresAt || hole.messageId in l.holes then l
    else
      var l1 := RoomMade(l, now, c);
      var touched := l1.clock + 1;
      Ledger(
        l1.holes[hole.messageId := Entry(
          Confirmed,
          Marks(hole.refusedBy, Refusal) + Marks(hole.unreachable, Unreachable),
          hole.firstRefusedAt, Some(hole.confirmedAt), Some(hole.expiresAt),
          hole.fingerprint, None, touched)],
        touched,
        l1.nextSweep)
  }

  // ---- Room and recency -----------------------------------------------------------

  /** One turn of an eviction. */
  lemma EvictUnfolds(holes: Holes, n: nat)
    requires 0 < n <= |holes|
    ensures holes.Keys != {} && n - 1 <= |holes - {Oldest(TouchedOf(holes))}|
    ensures EvictOldest(holes, n) == EvictOldest(holes - {Oldest(TouchedOf(holes))}, n - 1)
    ensures Injective(TouchedOf(holes)) ==> Injective(TouchedOf(holes - {Oldest(TouchedOf(holes))}))
  {
    NotEmpty(holes);
    var v := Oldest(TouchedOf(holes));
    hide Oldest, Injective;
    assert TouchedOf(holes - {v}) == TouchedOf(holes) - {v};
    if Injective(TouchedOf(holes)) {
      InjectiveDrop(TouchedOf(holes), {v});
    }
  }

  lemma {:induction false} EvictOldestKeepsInjective(holes: Holes, n: nat)
    requires n <= |holes| && Injective(TouchedOf(holes))
    ensures Injective(TouchedOf(EvictOldest(holes, n)))
  {
    if n == 0 {
      hide Injective;
    } else {
      hide *;
      EvictUnfolds(holes, n);
      EvictOldestKeepsInjective(holes - {Oldest(TouchedOf(holes))}, n - 1);
    }
  }

  /** Everything that went was used longer ago than everything that stays. */
  ghost predicate Outlived(holes: Holes, left: Holes) {
    forall i, j :: i in holes.Keys - left.Keys && j in holes.Keys * left.Keys ==>
      holes[i].touched < holes[j].touched
  }

  lemma {:induction false} SurvivorsAreNewer(holes: Holes, n: nat)
    requires n <= |holes| && Injective(TouchedOf(holes))
    ensures Outlived(holes, EvictOldest(holes, n))
  {
    hide Injective, Outlived;
    if n == 0 {
      NobodyOutlived(holes);
    } else {
      hide *;
      EvictUnfolds(holes, n);
      var v := Oldest(TouchedOf(holes));
      SurvivorsAreNewer(holes - {v}, n - 1);
      assert (holes - {v}).Keys == holes.Keys - {v};
      OldestIsOutlived(holes, EvictOldest(holes - {v}, n - 1));
    }
  }

  lemma NobodyOutlived(holes: Holes)
    ensures Outlived(holes, holes)
  {
  }

  lemma OldestIsOutlived(holes: Holes, left: Holes)
    requires holes.Keys != {} && Injective(TouchedOf(holes))
    requires Outlived(holes - {Oldest(TouchedOf(holes))}, left)
    requires left.Keys <= holes.Keys - {Oldest(TouchedOf(holes))}
    ensures Outlived(holes, left)
  {
    hide Injective;
    var v := Oldest(TouchedOf(holes));
    var rest := holes - {v};
    forall i, j | i in holes.Keys - left.Keys && j in holes.Keys * left.Keys
      ensures holes[i].touched < holes[j].touched
    {
      if i == v {
        assert TouchedOf(holes)[v] <= TouchedOf(holes)[j];
        InjectiveMeans(TouchedOf(holes), v, j);
      } else {
        assert i in rest.Keys - left.Keys && j in rest.Keys * left.Keys;
        assert rest[i] == holes[i] && rest[j] == holes[j];
      }
    }
  }

  lemma SweepKeeps(l: Ledger, now: nat, c: Config)
    requires Wf(l, c)
    ensures
      var r := Swept(l, now, c);
      && Wf(r, c) && r.clock == l.clock
      && (forall id :: id in r.holes <==> id in l.holes && !Lapsed(l.holes[id], now, c))
      && (forall id :: id in r.holes ==> r.holes[id] == l.holes[id])
  {
    hide Lapsed, Injective;
    var r := Swept(l, now, c);
    var gone := l.holes.Keys - r.holes.Keys;
    WfMeans(l, c);
    FreshMeans(l.holes, now, c);
    InjectiveDrop(TouchedOf(l.holes), gone);
  }

  lemma FreshMeans(holes: Holes, now: nat, c: Config)
    ensures
      var left := Fresh(holes, now, c);
      && (forall id :: id in left <==> id in holes && !Lapsed(holes[id], now, c))
      && (forall id :: id in left ==> left[id] == holes[id])
      && TouchedOf(left) == TouchedOf(holes) - (holes.Keys - left.Keys)
  {
    hide Lapsed;
    var left := Fresh(holes, now, c);
    assert TouchedOf(left) == TouchedOf(holes) - (holes.Keys - left.Keys);
  }

  lemma EvictionKeeps(l: Ledger, c: Config)
    requires Wf(l, c) && |l.holes| >= c.capacity
    ensures
      var r := l.(holes := EvictOldest(l.holes, |l.holes| - Keep(c)));
      && Wf(r, c) && |r.holes| == Keep(c) < c.capacity
      && Outlived(l.holes, r.holes)
  {
    hide Injective, Outlived, TouchedOf;
    EvictOldestKeepsInjective(l.holes, |l.holes| - Keep(c));
    SurvivorsAreNewer(l.holes, |l.holes| - Keep(c));
  }

  /** After making room there is room for one more, lapsed records aside only the least
      recently used go, and they go only when the ledger is full. */
  lemma RoomIsMade(l: Ledger, now: nat, c: Config)
    requires Wf(l, c)
    ensures
      var r := RoomMade(l, now, c);
      && Wf(r, c) && |r.holes| < c.capacity && r.clock == l.clock
      && (forall id :: id in r.holes ==> id in l.holes && r.holes[id] == l.holes[id])
      && (forall gone, left :: gone in l.holes && gone !in r.holes && left in r.holes ==>
            Lapsed(l.holes[gone], now, c) || l.holes[gone].touched < l.holes[left].touched)
      && (forall gone :: gone in l.holes && gone !in r.holes ==>
            Lapsed(l.holes[gone], now, c) || |l.holes| >= c.capacity)
      && ((exists gone :: gone in l.holes && gone !in r.holes && !Lapsed(l.holes[gone], now, c)) ==>
            9 * c.capacity - 10 < 10 * |r.holes| <= 9 * c.capacity)
  {
    hide Wf, Lapsed, EvictOldest, Swept, SweepDue, Outlived, Keep;
    WfMeans(l, c);
    NineTenths(c);
    SweepKeeps(l, now, c);
    SweepWhenFull(l, now, c);
    var s := if SweepDue(l, now, c) then Swept(l, now, c) else l;
    if |s.holes| >= c.capacity {
      EvictionKeeps(s, c);
      OutlivedMeans(s.holes, RoomMade(l, now, c).holes);
    }
  }

  lemma NineTenths(c: Config)
    requires 1 <= c.capacity
    ensures 9 * c.capacity - 10 < 10 * Keep(c) <= 9 * c.capacity
  {
  }

  /** A lapsed record is kept when room is made only if the ledger is not full and was swept
      less than the sweep interval ago. */
  lemma SweptWhenDue(l: Ledger, now: nat, c: Config)
    requires Wf(l, c)
    ensures
      var r := RoomMade(l, now, c);
      && ((exists id :: id in r.holes && Lapsed(r.holes[id], now, c)) ==>
            |l.holes| < c.capacity && l.nextSweep.Some? && now < l.nextSweep.value)
      && (r.nextSweep == l.nextSweep || r.nextSweep == Some(now + SWEEP_INTERVAL))
      && (l.nextSweep.None? ==> r.nextSweep.Some?)
  {
    hide Wf, Lapsed, EvictOldest, Keep, Injective;
    WfMeans(l, c);
    RoomIsMade(l, now, c);
    SweepKeeps(l, now, c);
  }

  lemma SweepWhenFull(l: Ledger, now: nat, c: Config)
    ensures |l.holes| >= c.capacity ==> SweepDue(l, now, c)
    ensures |Swept(l, now, c).holes| <= |l.holes|
  {
    hide Fresh;
  }

  lemma OutlivedMeans(holes: Holes, left: Holes)
    requires Outlived(holes, left)
    ensures forall i, j :: i in holes && i !in left && j in holes && j in left ==>
      holes[i].touched < holes[j].touched
  {
  }

  lemma CountPut(holes: Holes, id: string, e: Entry)
    ensures |holes[id := e]| == |holes| + if id in holes then 0 else 1
  {
    assert holes[id := e].Keys == holes.Keys + {id};
    assert |holes[id := e]| == |holes.Keys + {id}|;
  }

  lemma PutRecord(holes: Holes, id: string, e: Entry, clock: nat)
    requires Injective(TouchedOf(holes))
    requires forall i :: i in holes ==> holes[i].touched <= clock
    requires e.touched > clock || (id in holes && e.touched == holes[id].touched)
    ensures Injective(TouchedOf(holes[id := e]))
    ensures |holes[id := e]| == |holes| + if id in holes then 0 else 1
  {
    hide Injective;
    var t := TouchedOf(holes);
    assert TouchedOf(holes[id := e]) == t[id := e.touched];
    assert id in holes ==> t[id] == holes[id].touched;
    assert forall j :: j in t ==> t[j] <= clock;
    if e.touched <= clock {
      forall j | j in t && t[j] == e.touched ensures j == id {
        InjectiveMeans(t, j, id);
      }
    }
    InjectivePut(t, id, e.touched);
    CountPut(holes, id, e);
  }

  lemma DropRecord(holes: Holes, id: string)
    requires Injective(TouchedOf(holes))
    ensures Injective(TouchedOf(holes - {id})) && |holes - {id}| <= |holes|
  {
    assert TouchedOf(holes - {id}) == TouchedOf(holes) - {id};
    InjectiveDrop(TouchedOf(holes), {id});
    SubsetIsSmaller(holes - {id}, holes);
  }

  lemma PreparedIsWf(l: Ledger, id: string, outcome: Outcome, servers: seq<string>, now: nat, c: Config)
    requires Wf(l, c)
    ensures
      var p := Prepared(l, id, outcome, servers, now, c);
      && Wf(p, c) && p.clock == l.clock + 1
      && (forall i :: i in p.holes ==> i in l.holes && p.holes[i] == l.holes[i])
      && (id in l.holes && Outdated(l.holes[id], outcome, servers, now, c) ==> id !in p.holes)
      && (outcome.Refused? && id !in p.holes ==> |p.holes| < c.capacity)
  {
    hide Injective, TouchedOf, Outdated, RoomMade;
    var l1 := l.(clock := l.clock + 1);
    DropRecord(l1.holes, id);
    var l2 := if id in l1.holes && Outdated(l1.holes[id], outcome, servers, now, c)
              then l1.(holes := l1.holes - {id}) else l1;
    assert Wf(l2, c);
    RoomIsMade(l2, now, c);
  }

  /** After any note the ledger is within its capacity and recencies stay distinct. */
  lemma NotedIsWf(l: Ledger, id: string, outcome: Outcome, servers: seq<string>, now: nat, c: Config)
    requires Wf(l, c)
    ensures Wf(Noted(l, id, outcome, servers, now, c).0, c)
  {
    hide Injective, TouchedOf, Oldest, EvictOldest, Outdated, Prepared, AllRefused;
    PreparedIsWf(l, id, outcome, servers, now, c);
    var p := Prepared(l, id, outcome, servers, now, c);
    var after := Noted(l, id, outcome, servers, now, c).0;
    if outcome.Present? {
      DropRecord(p.holes, id);
    } else if id in after.holes && (outcome.Refused? || id in p.holes) {
      PutRecord(p.holes, id, after.holes[id], l.clock);
    }
  }

  lemma ConsultedIsWf(l: Ledger, id: string, servers: seq<string>, now: nat, c: Config)
    requires Wf(l, c)
    ensures Wf(Consulted(l, id, servers, now, c).0, c)
  {
    hide Injective, TouchedOf, Lapsed;
    var after := Consulted(l, id, servers, now, c).0;
    if id in l.holes {
      if id in after.holes {
        PutRecord(l.holes, id, after.holes[id], l.clock);
      } else {
        DropRecord(l.holes, id);
      }
    }
  }

  lemma RestoredIsWf(l: Ledger, hole: StoredHole, now: nat, c: Config)
    requires Wf(l, c)
    ensures Wf(Restored(l, hole, now, c), c)
  {
    hide Injective, Oldest, EvictOldest;
    if now < hole.expiresAt && hole.messageId !in l.holes {
      RoomIsMade(l, now, c);
      var l1 := RoomMade(l, now, c);
      PutRecord(l1.holes, hole.messageId, Restored(l, hole, now, c).holes[hole.messageId], l1.clock);
    }
  }
}
