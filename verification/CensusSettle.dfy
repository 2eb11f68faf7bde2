/** Settling articles: from the cache where it is probed, else pool by pool. */
module CensusSettling {
  import opened Wrappers
  import opened MapFacts
  import opened Census

  datatype PoolStat = Present | Absent | Failed

  datatype ArticleState = Has | Missing | Unestablished

  datatype PoolFailures = PoolFailures(pool: nat, failed: nat)

  /** The cache: a state and when it runs out. */
  type Cache = map<string, (ArticleState, nat)>

  /** What each pool answers about each article; trips, timeouts and skipped pools are
      failures like any other. */
  type Answers = (nat, string) -> PoolStat

  datatype SettleConfig = SettleConfig(presentTtl: nat, missingTtl: nat, capacity: nat)

  // ---- The rule, article by article -----------------------------------------------

  ghost predicate SomePoolHas(answers: Answers, pools: nat, id: string) {
    exists k: nat :: k < pools && answers(k, id) == Present
  }

  ghost predicate AllPoolsAbsent(answers: Answers, pools: nat, id: string) {
    forall k: nat :: k < pools ==> answers(k, id) == Absent
  }

  /** Present if some pool has it, missing if there is a pool and all answer that it is
      absent, else not established. */
  ghost function Rule(answers: Answers, pools: nat, id: string): ArticleState {
    if SomePoolHas(answers, pools, id) then Has
    else if pools > 0 && AllPoolsAbsent(answers, pools, id) then Missing
    else Unestablished
  }

  /** The ids no pool before `k` has, in order: the ones pool `k` is asked about. */
  ghost function StillAsked(ids: seq<string>, answers: Answers, k: nat): seq<string> {
    if ids == [] then []
    else (if SomePoolHas(answers, k, ids[0]) then [] else [ids[0]]) + StillAsked(ids[1..], answers, k)
  }

  function CountFailed(ids: seq<string>, answers: Answers, pool: nat): nat {
    if ids == [] then 0
    else CountFailed(ids[..|ids| - 1], answers, pool)
         + if answers(pool, ids[|ids| - 1]) == Failed then 1 else 0
  }

  function CountAbsent(answers: Answers, id: string, pools: nat): (r: nat)
    ensures r <= pools
    ensures r == pools <==> forall k: nat :: k < pools ==> answers(k, id) == Absent
  {
    if pools == 0 then 0
    else CountAbsent(answers, id, pools - 1) + if answers(pools - 1, id) == Absent then 1 else 0
  }

  /** One id on from pool `k`: those it does not have. */
  function NotHad(ids: seq<string>, answers: Answers, k: nat): seq<string> {
    if ids == [] then []
    else
      var id := ids[|ids| - 1];
      NotHad(ids[..|ids| - 1], answers, k) + if answers(k, id) == Present then [] else [id]
  }

  lemma {:induction false} NotHadSplit(a: seq<string>, b: seq<string>, answers: Answers, k: nat)
    ensures NotHad(a + b, answers, k) == NotHad(a, answers, k) + NotHad(b, answers, k)
  {
    if b == [] {
      assert a + b == a;
    } else {
      assert (a + b)[..|a + b| - 1] == a + b[..|b| - 1];
      NotHadSplit(a, b[..|b| - 1], answers, k);
    }
  }

  lemma {:induction false} StillAskedStep(ids: seq<string>, answers: Answers, k: nat)
    ensures NotHad(StillAsked(ids, answers, k), answers, k) == StillAsked(ids, answers, k + 1)
  {
    if ids != [] {
      var id := ids[0];
      assert SomePoolHas(answers, k + 1, id) <==> SomePoolHas(answers, k, id) || answers(k, id) == Present;
      var first := if SomePoolHas(answers, k, id) then [] else [id];
      NotHadSplit(first, StillAsked(ids[1..], answers, k), answers, k);
      StillAskedStep(ids[1..], answers, k);
      if first == [id] {
        assert NotHad([id], answers, k) == NotHad([id][..0], answers, k)
          + if answers(k, id) == Present then [] else [id];
      }
    }
  }

  lemma {:induction false} StillAskedHas(ids: seq<string>, answers: Answers, k: nat, id: string)
    ensures id in StillAsked(ids, answers, k) <==> id in ids && !SomePoolHas(answers, k, id)
  {
    if ids != [] {
      StillAskedHas(ids[1..], answers, k, id);
    }
  }

  lemma {:induction false} StillAskedDistinct(ids: seq<string>, answers: Answers, k: nat)
    requires Distinct(ids)
    ensures Distinct(StillAsked(ids, answers, k))
  {
    if ids != [] {
      var rest := ids[1..];
      assert forall i, j :: 0 <= i < j < |rest| ==> rest[i] == ids[i + 1] && rest[j] == ids[j + 1];
      StillAskedDistinct(rest, answers, k);
      StillAskedHas(rest, answers, k, ids[0]);
    }
  }

  lemma {:induction false} NobodyAskedYet(ids: seq<string>, answers: Answers)
    ensures StillAsked(ids, answers, 0) == ids
  {
    if ids != [] {
      NobodyAskedYet(ids[1..], answers);
    }
  }

  // ---- The pool-by-pool walk ------------------------------------------------------

  datatype Evidence = Evidence(present: bool, absentOn: nat)

  type Gathered = map<string, Evidence>

  /** What has been gathered once the pools before `k` have been asked. */
  ghost predicate GatheredTo(e: Gathered, ids: seq<string>, answers: Answers, k: nat) {
    && (forall id :: id in e <==> id in ids)
    && (forall id :: id in e ==>
          && (e[id].present <==> SomePoolHas(answers, k, id))
          && (!e[id].present ==> e[id].absentOn == CountAbsent(answers, id, k)))
  }

  /** What one pool's pass over the ids `done` makes of the evidence. */
  ghost predicate Passed(e: Gathered, e': Gathered, done: seq<string>, answers: Answers, k: nat) {
    && e'.Keys == e.Keys
    && (forall id :: id in e && id !in done ==> e'[id] == e[id])
    && (forall id :: id in e && id in done ==> e'[id] == Noted(e[id], answers(k, id)))
  }

  function Noted(ev: Evidence, stat: PoolStat): Evidence {
    match stat
    case Present => ev.(present := true)
    case Absent => ev.(absentOn := ev.absentOn + 1)
    case Failed => ev
  }

  lemma PassedKeys(e: Gathered, e': Gathered, done: seq<string>, answers: Answers, k: nat)
    requires Passed(e, e', done, answers, k)
    ensures e'.Keys == e.Keys
  {
  }

  lemma PassedMore(e: Gathered, e': Gathered, done: seq<string>, id: string, answers: Answers, k: nat)
    requires Passed(e, e', done, answers, k) && id in e && id !in done
    ensures Passed(e, e'[id := Noted(e'[id], answers(k, id))], done + [id], answers, k)
  {
  }

  lemma DistinctTake(ids: seq<string>, i: nat)
    requires Distinct(ids) && i < |ids|
    ensures ids[i] !in ids[..i] && ids[..i + 1] == ids[..i] + [ids[i]]
  {
  }

  lemma PassedAll(e: Gathered, e': Gathered, ids: seq<string>, answers: Answers, k: nat)
    requires GatheredTo(e, ids, answers, k)
    requires Passed(e, e', StillAsked(ids, answers, k), answers, k)
    ensures GatheredTo(e', ids, answers, k + 1)
  {
    forall id | id in e'
      ensures e'[id].present <==> SomePoolHas(answers, k + 1, id)
      ensures !e'[id].present ==> e'[id].absentOn == CountAbsent(answers, id, k + 1)
    {
      StillAskedHas(ids, answers, k, id);
      assert SomePoolHas(answers, k + 1, id) <==> SomePoolHas(answers, k, id) || answers(k, id) == Present;
    }
  }

  lemma PassStep(pending: seq<string>, i: nat, answers: Answers, k: nat)
    requires Distinct(pending) && i < |pending|
    ensures pending[i] !in pending[..i] && pending[..i + 1] == pending[..i] + [pending[i]]
    ensures NotHad(pending[..i + 1], answers, k) == NotHad(pending[..i], answers, k)
      + if answers(k, pending[i]) == Present then [] else [pending[i]]
    ensures CountFailed(pending[..i + 1], answers, k) == CountFailed(pending[..i], answers, k)
      + if answers(k, pending[i]) == Failed then 1 else 0
  {
    assert pending[..i + 1][..i] == pending[..i];
  }

  lemma PassStarts(ids: seq<string>, answers: Answers, k: nat, e: Gathered)
    requires GatheredTo(e, ids, answers, k) && Distinct(ids)
    ensures Distinct(StillAsked(ids, answers, k))
    ensures forall id :: id in StillAsked(ids, answers, k) ==> id in e
    ensures Passed(e, e, [], answers, k)
    ensures NotHad([], answers, k) == [] && CountFailed([], answers, k) == 0
  {
    StillAskedDistinct(ids, answers, k);
    forall id | id in StillAsked(ids, answers, k) ensures id in e {
      StillAskedHas(ids, answers, k, id);
    }
  }

  /** One pool's pass: note each answer, keep whom the pool does not have. */
  method AskPool(pending: seq<string>, ids: seq<string>, answers: Answers, k: nat, e: Gathered)
    returns (e': Gathered, next: seq<string>, failed: nat)
    requires GatheredTo(e, ids, answers, k)
    requires pending == StillAsked(ids, answers, k) && Distinct(ids)
    ensures GatheredTo(e', ids, answers, k + 1)
    ensures next == StillAsked(ids, answers, k + 1)
    ensures failed == CountFailed(pending, answers, k)
  {
    hide *;
    PassStarts(ids, answers, k, e);
    e', next, failed := e, [], 0;
    var i := 0;
    assert pending[..0] == [];
    while i < |pending|
      invariant 0 <= i <= |pending|
      invariant next == NotHad(pending[..i], answers, k)
      invariant failed == CountFailed(pending[..i], answers, k)
      invariant Passed(e, e', pending[..i], answers, k)
    {
      var id := pending[i];
      assert id in pending;
      PassStep(pending, i, answers, k);
      PassedMore(e, e', pending[..i], id, answers, k);
      PassedKeys(e, e', pending[..i], answers, k);
      e' := e'[id := Noted(e'[id], answers(k, id))];
      if answers(k, id) == Failed {
        failed := failed + 1;
      }
      if answers(k, id) != Present {
        next := next + [id];
      }
      i := i + 1;
    }
    assert pending[..i] == pending;
    StillAskedStep(ids, answers, k);
    PassedAll(e, e', ids, answers, k);
  }

  /** The pools with failed answers, and how many each. */
  function FailuresOf(asked: seq<seq<string>>, answers: Answers): seq<PoolFailures> {
    if asked == [] then []
    else
      var k := |asked| - 1;
      var failed := CountFailed(asked[k], answers, k);
      FailuresOf(asked[..k], answers) + if failed > 0 then [PoolFailures(k, failed)] else []
  }

  /** Each pool asked is asked about the ids no earlier pool had. */
  ghost predicate AskedInTurn(asked: seq<seq<string>>, ids: seq<string>, answers: Answers) {
    forall k: nat :: k < |asked| ==> asked[k] == StillAsked(ids, answers, k)
  }

  lemma GatheredEarly(e: Gathered, ids: seq<string>, answers: Answers, k: nat, pools: nat)
    requires GatheredTo(e, ids, answers, k) && k <= pools && StillAsked(ids, answers, k) == []
    ensures GatheredTo(e, ids, answers, pools)
  {
    forall id | id in e ensures e[id].present && SomePoolHas(answers, pools, id) {
      StillAskedHas(ids, answers, k, id);
    }
  }

  function NoEvidence(ids: seq<string>): Gathered {
    map id | id in ids :: Evidence(false, 0)
  }

  lemma NothingGathered(ids: seq<string>, answers: Answers)
    ensures GatheredTo(NoEvidence(ids), ids, answers, 0)
    ensures FailuresOf([], answers) == [] && AskedInTurn([], ids, answers)
  {
  }

  lemma AskedOneMore(asked: seq<seq<string>>, ids: seq<string>, answers: Answers)
    requires AskedInTurn(asked, ids, answers)
    ensures AskedInTurn(asked + [StillAsked(ids, answers, |asked|)], ids, answers)
  {
  }

  lemma FailuresMore(asked: seq<seq<string>>, pending: seq<string>, answers: Answers)
    ensures FailuresOf(asked + [pending], answers) == FailuresOf(asked, answers)
      + if CountFailed(pending, answers, |asked|) > 0
        then [PoolFailures(|asked|, CountFailed(pending, answers, |asked|))] else []
  {
    assert (asked + [pending])[..|asked|] == asked;
  }

  /** Ask the pools in order. Pool `k` is asked about exactly the ids no earlier pool had;
      the walk stops early only when no id is left. */
  method AskPools(ids: seq<string>, pools: nat, answers: Answers)
    returns (e: Gathered, asked: seq<seq<string>>, failures: seq<PoolFailures>)
    requires Distinct(ids)
    ensures GatheredTo(e, ids, answers, pools)
    ensures |asked| <= pools && AskedInTurn(asked, ids, answers)
    ensures |asked| < pools ==> StillAsked(ids, answers, |asked|) == []
    ensures failures == FailuresOf(asked, answers)
  {
    hide *;
    e := NoEvidence(ids);
    var pending := ids;
    NobodyAskedYet(ids, answers);
    NothingGathered(ids, answers);
    asked, failures := [], [];
    while |asked| < pools && pending != []
      invariant |asked| <= pools
      invariant pending == StillAsked(ids, answers, |asked|)
      invariant GatheredTo(e, ids, answers, |asked|)
      invariant AskedInTurn(asked, ids, answers)
      invariant failures == FailuresOf(asked, answers)
    {
      AskedOneMore(asked, ids, answers);
      FailuresMore(asked, pending, answers);
      var next, failed;
      e, next, failed := AskPool(pending, ids, answers, |asked|, e);
      if failed > 0 {
        failures := failures + [PoolFailures(|asked|, failed)];
      }
      asked, pending := asked + [pending], next;
    }
    if |asked| < pools {
      GatheredEarly(e, ids, answers, |asked|, pools);
    }
  }

  /** The state the gathered evidence settles an id in. */
  function StateFrom(ev: Evidence, pools: nat): ArticleState {
    if ev.present then Has
    else if pools > 0 && ev.absentOn == pools then Missing
    else Unestablished
  }

  lemma EvidenceFollowsTheRule(e: Gathered, ids: seq<string>, answers: Answers, pools: nat, id: string)
    requires GatheredTo(e, ids, answers, pools) && id in e
    ensures StateFrom(e[id], pools) == Rule(answers, pools, id)
  {
  }

  // ---- The cache ------------------------------------------------------------------

  predicate Fresh(cache: Cache, id: string, now: nat) {
    id in cache && cache[id].1 > now
  }

  function Expiries(cache: Cache): map<string, nat> {
    map id | id in cache :: cache[id].1
  }

  function Entry(s: ArticleState, now: nat, c: SettleConfig): (ArticleState, nat) {
    (s, now + if s == Has then c.presentTtl else c.missingTtl)
  }

  /** What holding the cache to its capacity leaves: all of it when it fits, else what had
      not run out; more than that goes only to get down to nine tenths, and then what was
      closest to running out. */
  ghost predicate Enforced(cache: Cache, r: Cache, capacity: nat, now: nat) {
    && (forall id :: id in r ==> id in cache && r[id] == cache[id])
    && (|cache| <= capacity ==> r == cache)
    && (|cache| > capacity ==> forall id :: id in r ==> cache[id].1 > now)
    && (forall gone, left :: gone in cache && gone !in r && left in r ==> cache[gone].1 <= cache[left].1)
    && (|cache| > capacity && (exists gone :: gone in cache && gone !in r && cache[gone].1 > now) ==>
          |r| == capacity - capacity / 10)
  }

  /** Hold the cache to its capacity: drop what ran out, and if that is not enough the
      entries closest to running out, down to nine tenths. */
  method EnforceCapacity(cache: Cache, capacity: nat, now: nat) returns (r: Cache)
    ensures |r| <= capacity
    ensures Enforced(cache, r, capacity, now)
  {
    hide Enforced, FreshOldest, Expiries;
    r := cache;
    if |r| <= capacity {
      FitsIsEnforced(cache, capacity, now);
      return;
    }
    r := map id | id in cache && cache[id].1 > now :: cache[id];
    NotRunOut(cache, r, now);
    var keep := capacity - capacity / 10;
    if |r| <= capacity {
      CutIsEnforced(cache, r, capacity, now);
      return;
    }
    while |r| > keep
      invariant FreshOldest(cache, r, now)
      invariant |r| >= keep
      decreases |r|
    {
      HasKeys(r);
      var victim := FindOldest(Expiries(r));
      OneLess(cache, r, now, victim);
      r := r - {victim};
    }
    CutIsEnforced(cache, r, capacity, now);
  }

  /** Entries that have not run out, everything that went running out no later. */
  ghost predicate FreshOldest(cache: Cache, r: Cache, now: nat) {
    && (forall id :: id in r ==> id in cache && r[id] == cache[id] && cache[id].1 > now)
    && (forall gone, left :: gone in cache && gone !in r && left in r ==> cache[gone].1 <= cache[left].1)
  }

  lemma FitsIsEnforced(cache: Cache, capacity: nat, now: nat)
    requires |cache| <= capacity
    ensures Enforced(cache, cache, capacity, now)
  {
  }

  lemma NotRunOut(cache: Cache, r: Cache, now: nat)
    requires r == map id | id in cache && cache[id].1 > now :: cache[id]
    ensures FreshOldest(cache, r, now)
  {
  }

  /** A cut cache is what enforcing leaves, if it was cut to nine tenths or lost only what had
      run out. */
  lemma CutIsEnforced(cache: Cache, r: Cache, capacity: nat, now: nat)
    requires FreshOldest(cache, r, now) && |cache| > capacity
    requires |r| == capacity - capacity / 10 || forall id :: id in cache && cache[id].1 > now ==> id in r
    ensures Enforced(cache, r, capacity, now)
  {
  }

  lemma HasKeys(r: Cache)
    requires |r| > 0
    ensures Expiries(r).Keys == r.Keys && r.Keys != {}
  {
    assert |r| == |r.Keys|;
  }

  lemma OneLess(cache: Cache, r: Cache, now: nat, victim: string)
    requires FreshOldest(cache, r, now) && IsOldest(Expiries(r), victim)
    ensures FreshOldest(cache, r - {victim}, now) && |r - {victim}| == |r| - 1
  {
    assert (r - {victim}).Keys == r.Keys - {victim};
    assert |r - {victim}| == |r.Keys - {victim}| && |r| == |r.Keys|;
    assert forall id :: id in r ==> Expiries(r)[victim] <= Expiries(r)[id];
  }

  /** What a cache holds of an id a settling probed: a state that was established stands until
      its own time to live is over, and then no longer. */
  ghost predicate StandsFor(cache: Cache, id: string, state: ArticleState, later: nat, c: SettleConfig) {
    id in cache && state != Unestablished ==>
      && cache[id].0 == state
      && forall at: nat :: Fresh(cache, id, at) <==>
           at < (if state == Has then later + c.presentTtl else later + c.missingTtl)
  }

  /** The cache after a settling: what it established stands for as long as it may, what was
      replayed runs out when it would have, and nothing else comes in. */
  ghost predicate Replays(
      before: Cache, after: Cache, states: Settled, probed: set<string>, later: nat, c: SettleConfig)
  {
    && (forall id :: id in probed && id in states ==> StandsFor(after, id, states[id], later, c))
    && (forall id :: id in after && (id !in probed || id !in states || states[id] == Unestablished) ==>
          id in before && after[id] == before[id])
  }

  lemma CacheReplays(before: Cache, after: Cache, states: Settled, probed: set<string>, later: nat, c: SettleConfig)
    requires Enforced(before + EntriesOf(states, probed, later, c), after, c.capacity, later)
    ensures Replays(before, after, states, probed, later, c)
  {
    hide Enforced, StandsFor, Entry;
    var all := before + EntriesOf(states, probed, later, c);
    EnforcedMeans(all, after, c.capacity, later);
    forall id | id in probed && id in states ensures StandsFor(after, id, states[id], later, c) {
      EntryStands(after, id, states[id], later, c);
    }
  }

  lemma EntryStands(cache: Cache, id: string, state: ArticleState, later: nat, c: SettleConfig)
    requires id in cache && state != Unestablished ==> cache[id] == Entry(state, later, c)
    ensures StandsFor(cache, id, state, later, c)
  {
  }

  lemma EnforcedMeans(cache: Cache, r: Cache, capacity: nat, now: nat)
    requires Enforced(cache, r, capacity, now)
    ensures forall id :: id in r ==> id in cache && r[id] == cache[id]
  {
  }

  type Settled = map<string, ArticleState>

  function StatesFrom(e: Gathered, pools: nat): (r: Settled)
    ensures r.Keys == e.Keys
  {
    map id | id in e :: StateFrom(e[id], pools)
  }

  /** What settling adds to the cache: nothing for an id that is not established. */
  function EntriesOf(states: Settled, probed: set<string>, now: nat, c: SettleConfig): Cache {
    map id | id in states && id in probed && states[id] != Unestablished :: Entry(states[id], now, c)
  }

  lemma GatheredIds(e: Gathered, ids: seq<string>, answers: Answers, pools: nat)
    requires GatheredTo(e, ids, answers, pools)
    ensures forall id :: id in e <==> id in ids
  {
  }

  lemma SettledByTheRule(e: Gathered, ids: seq<string>, answers: Answers, pools: nat)
    requires GatheredTo(e, ids, answers, pools)
    ensures forall id :: id in e ==> StatesFrom(e, pools)[id] == Rule(answers, pools, id)
  {
    hide GatheredTo, Rule, StateFrom;
    forall id | id in e ensures StatesFrom(e, pools)[id] == Rule(answers, pools, id) {
      EvidenceFollowsTheRule(e, ids, answers, pools, id);
    }
  }

  lemma DistinctMore(ids: seq<string>, id: string)
    requires Distinct(ids) && id !in ids
    ensures Distinct(ids + [id])
  {
  }

  /** Pool `k` is asked about an id exactly when the id was probed and no earlier pool has it. */
  ghost predicate AskedInTurnOf(probed: set<string>, asked: seq<seq<string>>, answers: Answers, pools: nat) {
    && |asked| <= pools
    && (forall k: nat, id :: k < |asked| ==>
          (id in asked[k] <==> id in probed && !SomePoolHas(answers, k, id)))
    && (forall k: nat, id :: |asked| <= k < pools && id in probed ==> SomePoolHas(answers, k, id))
  }

  lemma AskedOf(ids: seq<string>, asked: seq<seq<string>>, answers: Answers, pools: nat, probed: set<string>)
    requires |asked| <= pools && AskedInTurn(asked, ids, answers)
    requires |asked| < pools ==> StillAsked(ids, answers, |asked|) == []
    requires forall id :: id in probed <==> id in ids
    ensures AskedInTurnOf(probed, asked, answers, pools)
  {
    forall k: nat, id | k < |asked| ensures id in asked[k] <==> id in probed && !SomePoolHas(answers, k, id) {
      StillAskedHas(ids, answers, k, id);
    }
    forall k: nat, id | |asked| <= k < pools && id in probed ensures SomePoolHas(answers, k, id) {
      StillAskedHas(ids, answers, |asked|, id);
    }
  }

  // ---- Settling -------------------------------------------------------------------

  class DamageCensus {
    const c: SettleConfig
    var cache: Cache

    constructor (config: SettleConfig)
      ensures c == config && cache == map[]
    {
      c := config;
      cache := map[];
    }

    /** The fresh states the cache holds, and the ids it does not settle. */
    method LookUp(ids: seq<string>, now: nat) returns (states: Settled, pending: seq<string>)
      requires Distinct(ids)
      ensures forall id :: id in states <==> id in ids && Fresh(cache, id, now)
      ensures forall id :: id in states ==> id in cache && states[id] == cache[id].0
      ensures forall id :: id in pending <==> id in ids && !Fresh(cache, id, now)
      ensures Distinct(pending)
    {
      states, pending := map[], [];
      var i := 0;
      while i < |ids|
        invariant 0 <= i <= |ids|
        invariant forall id :: id in states <==> id in ids[..i] && Fresh(cache, id, now)
        invariant forall id :: id in states ==> id in cache && states[id] == cache[id].0
        invariant forall id :: id in pending <==> id in ids[..i] && !Fresh(cache, id, now)
        invariant Distinct(pending)
      {
        var id := ids[i];
        DistinctTake(ids, i);
        if Fresh(cache, id, now) {
          states := states[id := cache[id].0];
        } else {
          DistinctMore(pending, id);
          pending := pending + [id];
        }
        hide Distinct;
        i := i + 1;
      }
      assert ids[..i] == ids;
    }

    /** Settle every id: from the cache where it is fresh, else by asking the pools. What is
        settled by the pools follows the rule, and is cached unless it is not established. */
    method Settle(ids: seq<string>, pools: nat, answers: Answers, now: nat, later: nat)
      returns (states: Settled, probed: set<string>, asked: seq<seq<string>>, failures: seq<PoolFailures>)
      requires Distinct(ids)
      modifies this
      ensures |cache| <= c.capacity
      ensures states.Keys == (set id | id in ids)
      ensures forall id :: id in probed <==> id in ids && !Fresh(old(cache), id, now)
      ensures forall id :: id in probed ==> states[id] == Rule(answers, pools, id)
      ensures forall id :: id in ids && id !in probed ==> id in old(cache) && states[id] == old(cache)[id].0
      ensures AskedInTurnOf(probed, asked, answers, pools)
      ensures failures == FailuresOf(asked, answers)
      ensures Enforced(old(cache) + EntriesOf(states, probed, later, c), cache, c.capacity, later)
      ensures Replays(old(cache), cache, states, probed, later, c)
    {
      hide *;
      var pending, e;
      states, pending := LookUp(ids, now);
      e, asked, failures := AskPools(pending, pools, answers);
      GatheredIds(e, pending, answers, pools);
      probed := e.Keys;
      AskedOf(pending, asked, answers, pools, probed);
      var settled := StatesFrom(e, pools);
      SettledByTheRule(e, pending, answers, pools);
      states := states + settled;
      ghost var before := cache;
      cache := EnforceCapacity(cache + EntriesOf(states, probed, later, c), c.capacity, later);
      CacheReplays(before, cache, states, probed, later, c);
    }
  }
}
