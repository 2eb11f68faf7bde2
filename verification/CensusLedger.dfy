/** What a census tells the hole ledger, and how the ledger classes what is missing. */
module CensusLedger {
  import opened Wrappers
  import opened MapFacts
  import opened Census
  import opened CensusSettling
  import H = HoleModel
  import opened HoleLedgers

  /** When each of one article's calls to the ledger is made. */
  type Times = nat -> nat

  /** When the calls of each article of a pass are made. */
  type PassTimes = nat -> Times

  /** The ledger after the first `n` servers refused an article. */
  ghost function RefusedBy(l: H.Ledger, id: string, servers: seq<string>, n: nat, at: Times, c: H.Config): H.Ledger
    requires 1 <= c.capacity && n <= |servers|
  {
    if n == 0 then l
    else H.Noted(RefusedBy(l, id, servers, n - 1, at, c), id, H.Refused(servers[n - 1]), servers, at(n - 1), c).0
  }

  /** The state of an article's hole, unless there is no record or it has lapsed. */
  function HoleState(l: H.Ledger, id: string, now: nat, c: H.Config): Option<H.HoleState> {
    if id in l.holes && !H.Lapsed(l.holes[id], now, c) then Some(l.holes[id].state) else None
  }

  /** What one settled article does to the ledger: a miss the pools just gave is a refusal by
      every server; a miss replayed from the cache is none. */
  ghost function Told(l: H.Ledger, id: string, state: ArticleState, probed: bool, servers: seq<string>,
                      at: Times, c: H.Config): H.Ledger
    requires 1 <= c.capacity
  {
    if state == Missing && probed then RefusedBy(l, id, servers, |servers|, at, c) else l
  }

  /** The class of one settled article, given the ledger once it was told. */
  ghost function ClassOf(l: H.Ledger, id: string, state: ArticleState, probed: bool, servers: seq<string>,
                         at: Times, c: H.Config): Loss {
    match state
    case Has => Unharmed
    case Unestablished => Possible
    case Missing =>
      var hole := if probed
                  then (if servers == [] || id !in l.holes then None else Some(l.holes[id].state))
                  else HoleState(l, id, at(0), c);
      if hole == Some(H.Confirmed) then Certain else Possible
  }

  /** The ledger after the first `n` articles, taken in order. */
  ghost function ToldAll(l: H.Ledger, ids: seq<string>, n: nat, states: Settled, probed: set<string>,
                         servers: seq<string>, at: PassTimes, c: H.Config): H.Ledger
    requires 1 <= c.capacity && n <= |ids| && forall id :: id in ids ==> id in states
  {
    if n == 0 then l
    else
      var id := ids[n - 1];
      Told(ToldAll(l, ids, n - 1, states, probed, servers, at, c), id, states[id], id in probed, servers, at(n - 1), c)
  }

  // ---- What refusals in one pass can do -------------------------------------------

  /** Only the article refused gets or changes a record; others may go, for room. */
  ghost predicate OnlyAbout(l: H.Ledger, l': H.Ledger, id: string) {
    forall i :: i in l'.holes && i != id ==> i in l.holes && l'.holes[i] == l.holes[i]
  }

  /** A record was there before the article's first call, confirmed, or by the last call as
      old as the confirm delay. */
  ghost predicate OldEnough(l: H.Ledger, id: string, first: nat, last: nat, c: H.Config) {
    && id in l.holes && !H.Lapsed(l.holes[id], first, c)
    && (l.holes[id].state == H.Confirmed || H.Since(last, l.holes[id].firstRefusedAt) >= c.confirmAfter)
  }

  /** What a record made or kept by the calls between `first` and `last` can be. */
  ghost predicate Earned(l: H.Ledger, e: H.Entry, id: string, first: nat, last: nat, c: H.Config) {
    && (e.state == H.Confirmed ==> OldEnough(l, id, first, last, c) || H.Since(last, first) >= c.confirmAfter)
    && (e.state == H.Provisional ==>
          e.firstRefusedAt >= first
          || (id in l.holes && !H.Lapsed(l.holes[id], first, c) && e.firstRefusedAt == l.holes[id].firstRefusedAt))
  }

  lemma NotedOnlyAbout(l: H.Ledger, id: string, server: string, servers: seq<string>, now: nat, c: H.Config)
    requires H.Wf(l, c)
    ensures OnlyAbout(l, H.Noted(l, id, H.Refused(server), servers, now, c).0, id)
    ensures id in H.Noted(l, id, H.Refused(server), servers, now, c).0.holes
  {
    H.PreparedIsWf(l, id, H.Refused(server), servers, now, c);
    hide H.Wf, H.Prepared, H.Refuse;
  }

  /** One more refusal of the pass keeps what the article's record can be. */
  lemma EarnedStays(
      l: H.Ledger, l': H.Ledger, id: string, noted: bool, server: string, servers: seq<string>,
      first: nat, last: nat, now: nat, c: H.Config)
    requires H.Wf(l', c) && first <= last <= now
    requires if noted then id in l'.holes && Earned(l, l'.holes[id], id, first, last, c) else l' == l && first == now
    ensures
      var after := H.Noted(l', id, H.Refused(server), servers, now, c).0;
      id in after.holes && Earned(l, after.holes[id], id, first, now, c)
  {
    hide H.AllRefused, Injective, H.TouchedOf, H.RoomMade;
    H.PreparedIsWf(l', id, H.Refused(server), servers, now, c);
    var p := H.Prepared(l', id, H.Refused(server), servers, now, c);
    var was := if id in p.holes then p.holes[id] else H.NewEntry(servers, now, p.clock);
    if id in p.holes {
      KeptIsNotLapsed(l', id, server, servers, now, c);
    }
    EarnedOn(l, was, id, server, servers, first, now, p.clock, c);
  }

  lemma KeptIsNotLapsed(l: H.Ledger, id: string, server: string, servers: seq<string>, now: nat, c: H.Config)
    requires H.Wf(l, c) && id in H.Prepared(l, id, H.Refused(server), servers, now, c).holes
    ensures id in l.holes && !H.Lapsed(l.holes[id], now, c)
  {
    H.PreparedIsWf(l, id, H.Refused(server), servers, now, c);
    hide H.Wf, H.RoomMade;
  }

  lemma EarnedOn(l: H.Ledger, was: H.Entry, id: string, server: string, servers: seq<string>,
                 first: nat, now: nat, touched: nat, c: H.Config)
    requires first <= now && Earned(l, was, id, first, now, c)
    ensures Earned(l, H.Refuse(was, server, servers, now, touched, c), id, first, now, c)
  {
    hide H.AllRefused, H.Lapsed;
  }

  /** What the refusals of one pass have made of a ledger, the last of them at `last`. */
  ghost predicate EarnedIn(
      l: H.Ledger, after: H.Ledger, id: string, noted: bool, first: nat, last: nat, c: H.Config) {
    && H.Wf(after, c) && OnlyAbout(l, after, id)
    && (noted ==> id in after.holes && Earned(l, after.holes[id], id, first, last, c))
    && (!noted ==> after == l)
  }

  lemma OneMoreEarned(l: H.Ledger, before: H.Ledger, id: string, noted: bool, server: string,
                      servers: seq<string>, first: nat, last: nat, now: nat, c: H.Config)
    requires EarnedIn(l, before, id, noted, first, last, c) && first <= last <= now && 1 <= c.capacity
    requires !noted ==> first == now
    ensures EarnedIn(l, H.Noted(before, id, H.Refused(server), servers, now, c).0, id, true, first, now, c)
  {
    hide H.Wf, H.Noted, Earned;
    H.NotedIsWf(before, id, H.Refused(server), servers, now, c);
    NotedOnlyAbout(before, id, server, servers, now, c);
    EarnedStays(l, before, id, noted, server, servers, first, last, now, c);
  }

  /** Calls are made one after the other. */
  ghost predicate InTime(at: Times) {
    forall i, j :: i <= j ==> at(i) <= at(j)
  }

  lemma {:induction false} RefusalsEarn(l: H.Ledger, id: string, servers: seq<string>, n: nat, at: Times, c: H.Config)
    requires H.Wf(l, c) && n <= |servers| && InTime(at)
    ensures 1 <= c.capacity
    ensures EarnedIn(l, RefusedBy(l, id, servers, n, at, c), id, n > 0, at(0), at(if n == 0 then 0 else n - 1), c)
  {
    hide H.Wf, H.Noted, Earned;
    H.WfMeans(l, c);
    if n > 0 {
      RefusalsEarn(l, id, servers, n - 1, at, c);
      OneMoreEarned(l, RefusedBy(l, id, servers, n - 1, at, c), id, n > 1, servers[n - 1], servers,
                    at(0), at(if n == 1 then 0 else n - 2), at(n - 1), c);
    }
  }

  ghost predicate AsBegan(l: H.Ledger, l': H.Ledger, done: seq<string>) {
    forall i :: i in l'.holes && i !in done ==> i in l.holes && l'.holes[i] == l.holes[i]
  }

  lemma BeganStep(l: H.Ledger, before: H.Ledger, after: H.Ledger, done: seq<string>, id: string)
    requires AsBegan(l, before, done) && OnlyAbout(before, after, id)
    ensures AsBegan(l, after, done + [id])
  {
  }

  /** The calls of every article are made one after the other. */
  ghost predicate PassInTime(at: PassTimes) {
    forall n :: InTime(at(n))
  }

  lemma ToldNothing(
      l: H.Ledger, ids: seq<string>, states: Settled, probed: set<string>, servers: seq<string>,
      at: PassTimes, c: H.Config)
    requires 1 <= c.capacity && forall id :: id in ids ==> id in states
    ensures ToldAll(l, ids, 0, states, probed, servers, at, c) == l
    ensures AsBegan(l, l, ids[..0])
  {
  }

  lemma ToldOnlyAbout(
      l: H.Ledger, ids: seq<string>, n: nat, states: Settled, probed: set<string>, servers: seq<string>,
      at: PassTimes, c: H.Config)
    requires 1 <= c.capacity && n < |ids| && PassInTime(at)
    requires forall id :: id in ids ==> id in states
    requires H.Wf(ToldAll(l, ids, n, states, probed, servers, at, c), c)
    ensures
      var before := ToldAll(l, ids, n, states, probed, servers, at, c);
      var after := ToldAll(l, ids, n + 1, states, probed, servers, at, c);
      H.Wf(after, c) && OnlyAbout(before, after, ids[n])
  {
    hide H.Wf, RefusedBy, H.Lapsed, Earned, InTime;
    assert InTime(at(n));
    RefusalsEarn(ToldAll(l, ids, n, states, probed, servers, at, c), ids[n], servers, |servers|, at(n), c);
  }

  /** Before its turn, an article's record is the one the pass began with, or gone. */
  lemma {:induction false} UntilItsTurn(
      l: H.Ledger, ids: seq<string>, n: nat, states: Settled, probed: set<string>, servers: seq<string>,
      at: PassTimes, c: H.Config)
    requires H.Wf(l, c) && n <= |ids| && PassInTime(at)
    requires forall id :: id in ids ==> id in states
    ensures 1 <= c.capacity
    ensures
      var l' := ToldAll(l, ids, n, states, probed, servers, at, c);
      H.Wf(l', c) && AsBegan(l, l', ids[..n])
  {
    hide *;
    H.WfMeans(l, c);
    ToldNothing(l, ids, states, probed, servers, at, c);
    if n > 0 {
      UntilItsTurn(l, ids, n - 1, states, probed, servers, at, c);
      var before := ToldAll(l, ids, n - 1, states, probed, servers, at, c);
      ToldOnlyAbout(l, ids, n - 1, states, probed, servers, at, c);
      var after := ToldAll(l, ids, n, states, probed, servers, at, c);
      BeganStep(l, before, after, ids[..n - 1], ids[n - 1]);
      assert ids[..n] == ids[..n - 1] + [ids[n - 1]];
    }
  }

  /** A census alone writes an article off only if its own refusals take the confirm delay,
      as they do when the delay is zero. Else a certain loss was missing and the ledger held
      a record of it before the pass, confirmed or by then as old as the delay; for a miss
      replayed from the cache, a confirmed one. */
  lemma CertainLossHadARecord(
      l: H.Ledger, ids: seq<string>, n: nat, states: Settled, probed: set<string>, servers: seq<string>,
      at: PassTimes, c: H.Config)
    requires H.Wf(l, c) && 1 <= c.capacity && n < |ids| && Distinct(ids) && PassInTime(at)
    requires forall id :: id in ids ==> id in states
    requires
      var l' := ToldAll(l, ids, n + 1, states, probed, servers, at, c);
      ClassOf(l', ids[n], states[ids[n]], ids[n] in probed, servers, at(n), c) == Certain
    ensures states[ids[n]] == Missing
    ensures ids[n] in probed ==>
      && servers != []
      && var first, last := at(n)(0), at(n)(|servers| - 1);
         OldEnough(l, ids[n], first, last, c) || H.Since(last, first) >= c.confirmAfter
    ensures ids[n] !in probed ==> HoleState(l, ids[n], at(n)(0), c) == Some(H.Confirmed)
  {
    hide H.Wf, RefusedBy, H.Lapsed, InTime;
    UntilItsTurn(l, ids, n, states, probed, servers, at, c);
    var before := ToldAll(l, ids, n, states, probed, servers, at, c);
    DistinctTake(ids, n);
    if ids[n] in probed {
      assert InTime(at(n));
      RefusalsEarn(before, ids[n], servers, |servers|, at(n), c);
    }
  }

  // ---- One instant, exactly -------------------------------------------------------

  /** A record that a refusal at this instant adds to. */
  ghost predicate Current(l: H.Ledger, id: string, servers: seq<string>, now: nat, c: H.Config) {
    id in l.holes && !H.Lapsed(l.holes[id], now, c)
    && l.holes[id].fingerprint == H.Fingerprint(servers) && !H.Expired(l.holes[id], now)
  }

  /** When the refusals of a pass at one instant leave the hole confirmed. */
  ghost predicate Confirms(l: H.Ledger, id: string, servers: seq<string>, now: nat, c: H.Config) {
    if Current(l, id, servers, now, c) then
      l.holes[id].state == H.Confirmed || H.Since(now, l.holes[id].firstRefusedAt) >= c.confirmAfter
    else c.confirmAfter == 0
  }

  /** The article's record once the first `n` servers have refused at this instant. */
  ghost predicate RefusedSoFar(l: H.Ledger, e: H.Entry, id: string, servers: seq<string>, n: nat, now: nat, c: H.Config)
    requires n <= |servers|
  {
    && e.fingerprint == H.Fingerprint(servers) && !H.Lapsed(e, now, c) && !H.Expired(e, now)
    && (forall i :: 0 <= i < n ==> servers[i] in e.evidence && e.evidence[servers[i]] == H.Refusal)
    && e.firstRefusedAt == (if Current(l, id, servers, now, c) then l.holes[id].firstRefusedAt else now)
    && (e.state == H.Confirmed ==> Confirms(l, id, servers, now, c))
    && (Current(l, id, servers, now, c) && l.holes[id].state == H.Confirmed ==> e.state == H.Confirmed)
    && (n == |servers| && Confirms(l, id, servers, now, c) ==> e.state == H.Confirmed)
  }

  lemma FirstRefusal(l: H.Ledger, id: string, servers: seq<string>, now: nat, c: H.Config)
    requires H.Wf(l, c) && servers != [] && 0 < c.ttl && 0 < c.provisionalTtl
    ensures
      var after := H.Noted(l, id, H.Refused(servers[0]), servers, now, c).0;
      id in after.holes && RefusedSoFar(l, after.holes[id], id, servers, 1, now, c)
  {
    hide Injective, H.TouchedOf, H.RoomMade;
    H.PreparedIsWf(l, id, H.Refused(servers[0]), servers, now, c);
    var p := H.Prepared(l, id, H.Refused(servers[0]), servers, now, c);
    assert id in p.holes <==> Current(l, id, servers, now, c);
  }

  lemma OneMoreRefusal(l: H.Ledger, l': H.Ledger, id: string, servers: seq<string>, n: nat, now: nat, c: H.Config)
    requires H.Wf(l', c) && 0 < n < |servers| && 0 < c.ttl && 0 < c.provisionalTtl
    requires id in l'.holes && RefusedSoFar(l, l'.holes[id], id, servers, n, now, c)
    ensures
      var after := H.Noted(l', id, H.Refused(servers[n]), servers, now, c).0;
      id in after.holes && RefusedSoFar(l, after.holes[id], id, servers, n + 1, now, c)
  {
    hide Injective, H.TouchedOf, H.RoomMade, Current;
    H.PreparedIsWf(l', id, H.Refused(servers[n]), servers, now, c);
    var p := H.Prepared(l', id, H.Refused(servers[n]), servers, now, c);
    assert id in p.holes && p.holes[id] == l'.holes[id];
  }

  lemma {:induction false} RefusedAtOnce(l: H.Ledger, id: string, servers: seq<string>, n: nat, now: nat, c: H.Config)
    requires H.Wf(l, c) && 0 < n <= |servers| && 0 < c.ttl && 0 < c.provisionalTtl
    ensures 1 <= c.capacity
    ensures
      var after := RefusedBy(l, id, servers, n, _ => now, c);
      H.Wf(after, c) && id in after.holes && RefusedSoFar(l, after.holes[id], id, servers, n, now, c)
  {
    hide H.Wf, H.Noted, RefusedSoFar;
    H.WfMeans(l, c);
    if n == 1 {
      H.NotedIsWf(l, id, H.Refused(servers[0]), servers, now, c);
      FirstRefusal(l, id, servers, now, c);
    } else {
      RefusedAtOnce(l, id, servers, n - 1, now, c);
      var before := RefusedBy(l, id, servers, n - 1, _ => now, c);
      H.NotedIsWf(before, id, H.Refused(servers[n - 1]), servers, now, c);
      OneMoreRefusal(l, before, id, servers, n - 1, now, c);
    }
  }

  /** A miss probed at one instant is a certain loss exactly when there is a server and the
      current record was confirmed or is as old as the confirm delay, or there is no current
      record and the delay is zero. One replayed from the cache is exactly when there is a
      confirmed record that has not lapsed. */
  lemma CertainExactlyWhen(l: H.Ledger, id: string, servers: seq<string>, now: nat, c: H.Config)
    requires H.Wf(l, c) && 0 < c.ttl && 0 < c.provisionalTtl
    ensures 1 <= c.capacity
    ensures
      var after := Told(l, id, Missing, true, servers, _ => now, c);
      ClassOf(after, id, Missing, true, servers, _ => now, c) == Certain
      <==> servers != [] && Confirms(l, id, servers, now, c)
    ensures ClassOf(l, id, Missing, false, servers, _ => now, c) == Certain
      <==> id in l.holes && l.holes[id].state == H.Confirmed && !H.Lapsed(l.holes[id], now, c)
  {
    hide H.Wf, H.Noted, RefusedBy, Confirms, Current;
    H.WfMeans(l, c);
    if servers != [] {
      RefusedAtOnce(l, id, servers, |servers|, now, c);
    }
  }

  /** So with a delay of zero one census does write off an article nothing was known of. */
  lemma ZeroDelayNeedsNoRecord(id: string, server: string, now: nat, c: H.Config)
    requires 1 <= c.capacity && 0 < c.ttl && 0 < c.provisionalTtl && c.confirmAfter == 0
    ensures
      var l := H.Ledger(map[], 0, None);
      var after := Told(l, id, Missing, true, [server], _ => now, c);
      H.Wf(l, c) && ClassOf(after, id, Missing, true, [server], _ => now, c) == Certain
  {
    CertainExactlyWhen(H.Ledger(map[], 0, None), id, [server], now, c);
  }

  /** Telling the ledger of a pass makes a record only of what the pass found missing. */
  lemma {:induction false} OnlyMissingGetRecords(
      l: H.Ledger, ids: seq<string>, n: nat, states: Settled, probed: set<string>, servers: seq<string>,
      at: PassTimes, c: H.Config)
    requires H.Wf(l, c) && n <= |ids| && PassInTime(at)
    requires forall id :: id in ids ==> id in states
    ensures 1 <= c.capacity
    ensures
      var l' := ToldAll(l, ids, n, states, probed, servers, at, c);
      forall i :: i in l'.holes ==> i in l.holes || (i in ids && states[i] == Missing && i in probed)
  {
    hide H.Wf, RefusedBy, PassInTime, OnlyAbout;
    H.WfMeans(l, c);
    if n > 0 {
      OnlyMissingGetRecords(l, ids, n - 1, states, probed, servers, at, c);
      UntilItsTurn(l, ids, n - 1, states, probed, servers, at, c);
      ToldOnlyAbout(l, ids, n - 1, states, probed, servers, at, c);
      OnlyAboutMeans(ToldAll(l, ids, n - 1, states, probed, servers, at, c),
                     ToldAll(l, ids, n, states, probed, servers, at, c), ids[n - 1]);
    }
  }

  lemma OnlyAboutMeans(l: H.Ledger, l': H.Ledger, id: string)
    requires OnlyAbout(l, l', id)
    ensures forall i :: i in l'.holes && i != id ==> i in l.holes
  {
  }

  // ---- The pass -------------------------------------------------------------------

  lemma RefusedByNone(l: H.Ledger, id: string, servers: seq<string>, at: Times, c: H.Config)
    requires 1 <= c.capacity
    ensures RefusedBy(l, id, servers, 0, at, c) == l
  {
  }

  lemma RefusedByMore(l: H.Ledger, id: string, servers: seq<string>, n: nat, at: Times, c: H.Config)
    requires 1 <= c.capacity && n < |servers|
    ensures RefusedBy(l, id, servers, n + 1, at, c)
      == H.Noted(RefusedBy(l, id, servers, n, at, c), id, H.Refused(servers[n]), servers, at(n), c).0
  {
    hide H.Noted;
  }

  /** Note one refusal per server; the state is that of the last answer. */
  method NoteRefusals(ledger: InMemoryHoleLedger, id: string, servers: seq<string>, at: Times)
    returns (hole: Option<H.HoleState>)
    requires ledger.Valid()
    modifies ledger
    ensures ledger.Valid()
    ensures ledger.Abs() == RefusedBy(old(ledger.Abs()), id, servers, |servers|, at, ledger.c)
    ensures servers == [] ==> hole.None?
    ensures servers != [] ==> id in ledger.holes && hole == Some(ledger.holes[id].state)
  {
    hide *;
    hole := None;
    var i := 0;
    ghost var l := ledger.Abs();
    ledger.ValidMeans();
    RefusedByNone(l, id, servers, at, ledger.c);
    while i < |servers|
      invariant 0 <= i <= |servers|
      invariant ledger.Valid()
      invariant ledger.Abs() == RefusedBy(l, id, servers, i, at, ledger.c)
      invariant i == 0 ==> hole.None?
      invariant i > 0 ==> id in ledger.holes && hole == Some(ledger.holes[id].state)
    {
      RefusedByMore(l, id, servers, i, at, ledger.c);
      var answer := ledger.Note(id, H.Refused(servers[i]), servers, at(i));
      hole := answer.state;
      i := i + 1;
    }
  }

  /** The class of one settled article, telling the ledger of a fresh miss. */
  method ClassArticle(id: string, state: ArticleState, probed: bool, servers: seq<string>, at: Times,
                      ledger: InMemoryHoleLedger)
    returns (kind: Loss)
    requires ledger.Valid()
    modifies ledger
    ensures ledger.Valid()
    ensures ledger.Abs() == Told(old(ledger.Abs()), id, state, probed, servers, at, ledger.c)
    ensures kind == ClassOf(ledger.Abs(), id, state, probed, servers, at, ledger.c)
  {
    hide H.Wf, RefusedBy;
    ledger.ValidMeans();
    match state {
      case Has => kind := Unharmed;
      case Unestablished => kind := Possible;
      case Missing =>
        var hole;
        if probed {
          hole := NoteRefusals(ledger, id, servers, at);
        } else {
          hole := ledger.StateOf(id, at(0));
        }
        kind := if hole == Some(H.Confirmed) then Certain else Possible;
    }
  }

  ghost predicate Classed(loss: Losses, l: H.Ledger, ids: seq<string>, n: nat, states: Settled,
                          probed: set<string>, servers: seq<string>, at: PassTimes, c: H.Config)
    requires 1 <= c.capacity && n <= |ids| && forall id :: id in ids ==> id in states
  {
    && (forall id :: id in loss <==> id in ids[..n])
    && (forall k :: 0 <= k < n ==> IsClassed(loss, l, ids, k, states, probed, servers, at, c))
  }

  /** What classes say of states: unharmed exactly what is there, open what is not
      established, and certainly lost only what is missing. */
  ghost predicate FollowStates(loss: Losses, states: Settled) {
    && loss.Keys == states.Keys
    && (forall id :: id in states ==>
          && (loss[id] == Unharmed <==> states[id] == Has)
          && (states[id] == Unestablished ==> loss[id] == Possible)
          && (loss[id] == Certain ==> states[id] == Missing))
  }

  lemma ClassedFollowStates(loss: Losses, l: H.Ledger, ids: seq<string>, states: Settled,
                            probed: set<string>, servers: seq<string>, at: PassTimes, c: H.Config)
    requires 1 <= c.capacity && forall id :: id in ids <==> id in states
    requires Classed(loss, l, ids, |ids|, states, probed, servers, at, c)
    ensures FollowStates(loss, states)
  {
    hide ToldAll, HoleState;
    assert ids[..|ids|] == ids;
    forall id | id in states
      ensures loss[id] == Unharmed <==> states[id] == Has
      ensures states[id] == Unestablished ==> loss[id] == Possible
      ensures loss[id] == Certain ==> states[id] == Missing
    {
      var k :| 0 <= k < |ids| && ids[k] == id;
      assert IsClassed(loss, l, ids, k, states, probed, servers, at, c);
    }
  }

  /** The class the article at `k` gets, by the ledger as it is at its turn. */
  ghost predicate IsClassed(loss: Losses, l: H.Ledger, ids: seq<string>, k: nat, states: Settled,
                            probed: set<string>, servers: seq<string>, at: PassTimes, c: H.Config)
    requires 1 <= c.capacity && k < |ids| && forall id :: id in ids ==> id in states
  {
    var l' := ToldAll(l, ids, k + 1, states, probed, servers, at, c);
    ids[k] in loss && loss[ids[k]] == ClassOf(l', ids[k], states[ids[k]], ids[k] in probed, servers, at(k), c)
  }

  lemma NothingClassed(l: H.Ledger, ids: seq<string>, states: Settled,
                       probed: set<string>, servers: seq<string>, at: PassTimes, c: H.Config)
    requires 1 <= c.capacity && forall id :: id in ids ==> id in states
    ensures Classed(map[], l, ids, 0, states, probed, servers, at, c)
    ensures ToldAll(l, ids, 0, states, probed, servers, at, c) == l
  {
  }

  lemma ClassedMore(loss: Losses, l: H.Ledger, ids: seq<string>, n: nat, states: Settled,
                    probed: set<string>, servers: seq<string>, at: PassTimes, c: H.Config, kind: Loss)
    requires 1 <= c.capacity && n < |ids| && (forall id :: id in ids ==> id in states) && Distinct(ids)
    requires Classed(loss, l, ids, n, states, probed, servers, at, c)
    requires
      var l' := ToldAll(l, ids, n + 1, states, probed, servers, at, c);
      kind == ClassOf(l', ids[n], states[ids[n]], ids[n] in probed, servers, at(n), c)
    ensures ids[n] !in loss
    ensures Classed(loss[ids[n] := kind], l, ids, n + 1, states, probed, servers, at, c)
  {
    hide Distinct, ToldAll, ClassOf;
    DistinctTake(ids, n);
    var loss' := loss[ids[n] := kind];
    forall k | 0 <= k < n ensures IsClassed(loss', l, ids, k, states, probed, servers, at, c) {
      assert IsClassed(loss, l, ids, k, states, probed, servers, at, c);
      assert ids[k] in ids[..n];
    }
  }

  /** The first `n` ids in a state, in order. */
  function InState(ids: seq<string>, n: nat, states: Settled, state: ArticleState): seq<string>
    requires n <= |ids| && forall id :: id in ids ==> id in states
  {
    if n == 0 then []
    else InState(ids, n - 1, states, state) + if states[ids[n - 1]] == state then [ids[n - 1]] else []
  }

  /** Of the first `n` ids, those missing whose loss is only possible, in order. */
  function ProvisionalAmong(ids: seq<string>, n: nat, states: Settled, loss: Losses): seq<string>
    requires n <= |ids| && forall id :: id in ids ==> id in states
  {
    if n == 0 then []
    else
      var id := ids[n - 1];
      ProvisionalAmong(ids, n - 1, states, loss)
      + if states[id] == Missing && LossOf(loss, id) == Possible then [id] else []
  }

  lemma {:induction false} ProvisionalSame(
      ids: seq<string>, n: nat, states: Settled, loss: Losses, id: string, kind: Loss)
    requires n <= |ids| && (forall i :: i in ids ==> i in states) && id !in ids[..n]
    ensures ProvisionalAmong(ids, n, states, loss[id := kind]) == ProvisionalAmong(ids, n, states, loss)
  {
    if n > 0 {
      assert ids[..n] == ids[..n - 1] + [ids[n - 1]];
      ProvisionalSame(ids, n - 1, states, loss, id, kind);
    }
  }

  /** The ids a report lists: what is missing, what is not established, and what is missing
      but may yet turn up; and how many are there. */
  datatype Listing = Listing(
    missing: seq<string>, unestablished: seq<string>, provisional: seq<string>, present: nat)

  /** The listing of the first `n` ids. */
  function ListingOf(ids: seq<string>, n: nat, states: Settled, loss: Losses): Listing
    requires n <= |ids| && forall id :: id in ids ==> id in states
  {
    Listing(InState(ids, n, states, Missing), InState(ids, n, states, Unestablished),
            ProvisionalAmong(ids, n, states, loss), |InState(ids, n, states, Has)|)
  }

  /** A listing with one more article on it. */
  function Listed(r: Listing, id: string, state: ArticleState, kind: Loss): Listing {
    match state
    case Has => r.(present := r.present + 1)
    case Unestablished => r.(unestablished := r.unestablished + [id])
    case Missing =>
      r.(missing := r.missing + [id], provisional := r.provisional + if kind == Possible then [id] else [])
  }

  lemma ListedMore(ids: seq<string>, n: nat, states: Settled, loss: Losses, kind: Loss)
    requires n < |ids| && (forall i :: i in ids ==> i in states) && Distinct(ids)
    ensures ListingOf(ids, n + 1, states, loss[ids[n] := kind])
      == Listed(ListingOf(ids, n, states, loss), ids[n], states[ids[n]], kind)
  {
    DistinctTake(ids, n);
    ProvisionalSame(ids, n, states, loss, ids[n], kind);
  }

  /** Every id is on one list, and the provisional ones are among the missing. */
  lemma {:induction false} ListingSorts(ids: seq<string>, n: nat, states: Settled, loss: Losses)
    requires n <= |ids| && forall id :: id in ids ==> id in states
    ensures
      var r := ListingOf(ids, n, states, loss);
      && |r.missing| + |r.unestablished| + r.present == n
      && (forall id :: id in r.missing <==> id in ids[..n] && states[id] == Missing)
      && (forall id :: id in r.unestablished <==> id in ids[..n] && states[id] == Unestablished)
      && (forall id :: id in r.provisional <==> id in r.missing && LossOf(loss, id) == Possible)
  {
    if n > 0 {
      ListingSorts(ids, n - 1, states, loss);
      assert ids[..n] == ids[..n - 1] + [ids[n - 1]];
    }
  }

  /** Class every settled article in id order, telling the ledger of each fresh miss, and
      list what the report lists. */
  method Classify(ids: seq<string>, states: Settled, probed: set<string>, servers: seq<string>, at: PassTimes,
                  ledger: InMemoryHoleLedger)
    returns (loss: Losses, listing: Listing)
    requires ledger.Valid() && Distinct(ids) && forall id :: id in ids <==> id in states
    modifies ledger
    ensures ledger.Valid()
    ensures ledger.Abs() == ToldAll(old(ledger.Abs()), ids, |ids|, states, probed, servers, at, ledger.c)
    ensures Classed(loss, old(ledger.Abs()), ids, |ids|, states, probed, servers, at, ledger.c)
    ensures FollowStates(loss, states)
    ensures listing == ListingOf(ids, |ids|, states, loss)
  {
    hide H.Wf, Distinct, Classed, ClassOf, Told, ProvisionalAmong, InState, FollowStates;
    ghost var l := ledger.Abs();
    ledger.ValidMeans();
    loss, listing := map[], Listing([], [], [], 0);
    var i := 0;
    NothingClassed(l, ids, states, probed, servers, at, ledger.c);
    NothingListed(ids, states);
    while i < |ids|
      invariant 0 <= i <= |ids|
      invariant ledger.Valid()
      invariant ledger.Abs() == ToldAll(l, ids, i, states, probed, servers, at, ledger.c)
      invariant Classed(loss, l, ids, i, states, probed, servers, at, ledger.c)
      invariant listing == ListingOf(ids, i, states, loss)
    {
      var id := ids[i];
      var kind := ClassArticle(id, states[id], id in probed, servers, at(i), ledger);
      ClassedMore(loss, l, ids, i, states, probed, servers, at, ledger.c, kind);
      ListedMore(ids, i, states, loss, kind);
      listing := Listed(listing, id, states[id], kind);
      loss := loss[id := kind];
      i := i + 1;
    }
    ClassedFollowStates(loss, l, ids, states, probed, servers, at, ledger.c);
  }

  lemma NothingListed(ids: seq<string>, states: Settled)
    requires forall id :: id in ids ==> id in states
    ensures ListingOf(ids, 0, states, map[]) == Listing([], [], [], 0)
  {
  }
}
