/** What a record of the hole ledger proves about its history: why a confirmed hole may be
    believed, and who may probe it again. */
module HoleRuns {
  import opened Wrappers
  import opened MapFacts
  import opened HoleModel

  datatype Op =
    | Note(id: string, outcome: Outcome, servers: seq<string>)
    | Ask(id: string, servers: seq<string>)
    | Restore(hole: StoredHole)
    | List

  datatype Event =
    /** An outcome was noted, with the set of servers asked. */
    | Said(id: string, outcome: Outcome, servers: set<string>, at: nat)
    /** A caller that had these servers to ask was answered. */
    | Told(id: string, servers: set<string>, answer: Consult, at: nat)
    /** Records went: outdated, lapsed, evicted, answered present. */
    | Lost(ids: set<string>)

  ghost function Next(l: Ledger, op: Op, now: nat, c: Config): Ledger
    requires 1 <= c.capacity
  {
    match op
    case Note(id, outcome, servers) => Noted(l, id, outcome, servers, now, c).0
    case Ask(id, servers) => Consulted(l, id, servers, now, c).0
    case Restore(hole) => Restored(l, hole, now, c)
    case List => Swept(l, now, c)
  }

  ghost function Events(l: Ledger, op: Op, now: nat, c: Config): seq<Event>
    requires 1 <= c.capacity
  {
    var gone := l.holes.Keys - Next(l, op, now, c).holes.Keys;
    match op
    case Note(id, outcome, servers) =>
      var outdated := if id in l.holes && Outdated(l.holes[id], outcome, servers, now, c) then {id} else {};
      [Lost(gone + outdated), Said(id, outcome, Fingerprint(servers), now)]
    case Ask(id, servers) =>
      [Lost(gone), Told(id, Fingerprint(servers), Consulted(l, id, servers, now, c).1, now)]
    case Restore(_) => [Lost(gone)]
    case List => [Lost(gone)]
  }

  ghost predicate Run(
      l: Ledger, log: seq<Event>, now: nat, ops: seq<(Op, nat)>, end: Ledger, endLog: seq<Event>, c: Config)
    decreases |ops|
  {
    if ops == [] then l == end && log == endLog
    else
      var (op, at) := ops[0];
      && 1 <= c.capacity && now <= at
      && Run(Next(l, op, at, c), log + Events(l, op, at, c), at, ops[1..], end, endLog, c)
  }

  // ---- Why a confirmed hole may be believed ---------------------------------------

  predicate Conclusive(ev: Event, id: string) {
    ev.Said? && ev.id == id && !ev.outcome.Transport?
  }

  /** Between two points of the log a server refused the article. */
  ghost predicate RefusedBy(log: seq<Event>, from: nat, to: nat, id: string, server: string) {
    exists k :: from <= k < to && k < |log| && log[k].Said? && log[k].id == id
      && log[k].outcome == Refused(server)
  }

  /** The record started with the refusal at `born`. Since then every conclusive answer was
      a refusal with the same servers asked, and each server marked as refusing did. */
  ghost predicate Backed(log: seq<Event>, born: nat, id: string, e: Entry) {
    && born < |log|
    && Conclusive(log[born], id) && log[born].at == e.firstRefusedAt
    && (forall k :: born <= k < |log| && Conclusive(log[k], id) ==>
          log[k].outcome.Refused? && log[k].servers == e.fingerprint)
    && (forall s :: s in e.evidence && e.evidence[s] == Refusal ==> RefusedBy(log, born, |log|, id, s))
  }

  /** The refusal at `conf` confirmed it: by then every one of a non-empty set of servers
      had refused since the first refusal, and the confirm delay had passed. */
  ghost predicate ConfirmedAt(log: seq<Event>, born: nat, conf: nat, id: string, e: Entry, c: Config) {
    && born <= conf < |log|
    && Conclusive(log[conf], id)
    && log[conf].at >= e.firstRefusedAt + c.confirmAfter
    && e.confirmedAt == Some(log[conf].at) && e.expiresAt == Some(log[conf].at + c.ttl)
    && e.fingerprint != {}
    && (forall s :: s in e.fingerprint ==> RefusedBy(log, born, conf + 1, id, s))
  }

  ghost predicate Explained(log: seq<Event>, id: string, e: Entry, c: Config) {
    exists born: nat, conf: nat :: Supports(log, born, conf, id, e, c)
  }

  ghost predicate Supports(log: seq<Event>, born: nat, conf: nat, id: string, e: Entry, c: Config) {
    Backed(log, born, id, e) && (e.state == Confirmed ==> ConfirmedAt(log, born, conf, id, e, c))
  }

  ghost predicate AllExplained(l: Ledger, log: seq<Event>, c: Config) {
    forall id :: id in l.holes ==> Explained(log, id, l.holes[id], c)
  }

  ghost predicate LogBefore(log: seq<Event>, now: nat) {
    forall k :: 0 <= k < |log| && !log[k].Lost? ==> log[k].at <= now
  }

  /** What does not concern an article leaves its explanation standing. */
  lemma ExplainedStays(log: seq<Event>, more: seq<Event>, id: string, e: Entry, e': Entry, c: Config)
    requires Explained(log, id, e, c)
    requires forall k :: 0 <= k < |more| ==> !Conclusive(more[k], id)
    requires e'.state == e.state && e'.firstRefusedAt == e.firstRefusedAt
    requires e'.confirmedAt == e.confirmedAt && e'.expiresAt == e.expiresAt
    requires e'.fingerprint == e.fingerprint
    requires forall s :: s in e'.evidence && e'.evidence[s] == Refusal ==>
      s in e.evidence && e.evidence[s] == Refusal
    ensures Explained(log + more, id, e', c)
  {
    var born: nat, conf: nat :| Supports(log, born, conf, id, e, c);
    forall s, to: nat | RefusedBy(log, born, to, id, s) && to <= |log|
      ensures RefusedBy(log + more, born, to, id, s) && RefusedBy(log + more, born, |log + more|, id, s)
    {
      RefusedByStays(log, more, born, to, |log + more|, id, s);
      RefusedByStays(log, more, born, to, to, id, s);
    }
    assert forall k :: 0 <= k < |log| ==> (log + more)[k] == log[k];
    assert Backed(log + more, born, id, e');
    assert Supports(log + more, born, conf, id, e', c);
  }

  lemma RefusedByStays(log: seq<Event>, more: seq<Event>, from: nat, to: nat, to': nat, id: string, s: string)
    requires RefusedBy(log, from, to, id, s) && to <= |log| && to <= to'
    ensures RefusedBy(log + more, from, to', id, s)
  {
    var k :| from <= k < to && k < |log| && log[k].Said? && log[k].id == id
      && log[k].outcome == Refused(s);
    assert (log + more)[k] == log[k];
  }

  /** A refusal with no record starts one. */
  lemma FirstRefusal(log: seq<Event>, lost: Event, id: string, server: string, servers: seq<string>,
                     now: nat, touched: nat, c: Config)
    requires lost.Lost?
    ensures
      var said := Said(id, Refused(server), Fingerprint(servers), now);
      Explained(log + [lost, said], id, Refuse(NewEntry(servers, now, touched), server, servers, now, touched, c), c)
  {
    var said := Said(id, Refused(server), Fingerprint(servers), now);
    var all := log + [lost, said];
    var e := Refuse(NewEntry(servers, now, touched), server, servers, now, touched, c);
    var born := |log| + 1;
    assert all[born] == said;
    assert RefusedBy(all, born, |all|, id, server);
    assert Backed(all, born, id, e);
    if e.state == Confirmed {
      assert servers[0] in e.fingerprint;
      assert forall s :: s in e.fingerprint ==> s == server;
      assert ConfirmedAt(all, born, born, id, e, c);
    }
    assert Supports(all, born, born, id, e, c);
  }

  /** A refusal on record adds its server, and confirms only when all have refused. */
  lemma OneMoreRefusal(log: seq<Event>, lost: Event, id: string, e: Entry, server: string, servers: seq<string>,
                       now: nat, touched: nat, c: Config)
    requires lost.Lost? && Explained(log, id, e, c) && LogBefore(log, now)
    requires e.fingerprint == Fingerprint(servers)
    ensures
      var said := Said(id, Refused(server), Fingerprint(servers), now);
      Explained(log + [lost, said], id, Refuse(e, server, servers, now, touched, c), c)
  {
    var said := Said(id, Refused(server), Fingerprint(servers), now);
    var more := [lost, said];
    var all := log + more;
    var e1 := Refuse(e, server, servers, now, touched, c);
    var born: nat, conf: nat :| Supports(log, born, conf, id, e, c);
    var last := |log| + 1;
    assert all[last] == said && all[last - 1] == lost && all[born] == log[born];
    assert RefusedBy(all, born, |all|, id, server);
    forall s, to: nat | RefusedBy(log, born, to, id, s) && to <= |log|
      ensures RefusedBy(all, born, to, id, s) && RefusedBy(all, born, |all|, id, s)
    {
      RefusedByStays(log, more, born, to, |all|, id, s);
      RefusedByStays(log, more, born, to, to, id, s);
    }
    assert forall k :: born <= k < |all| && k != last && k != last - 1 ==> all[k] == log[k];
    assert Backed(all, born, id, e1);
    if e.state == Confirmed {
      assert all[conf] == log[conf];
      assert Supports(all, born, conf, id, e1, c);
    } else if e1.state == Confirmed {
      assert log[born].at <= now;
      assert servers[0] in e1.fingerprint;
      forall s | s in e1.fingerprint ensures RefusedBy(all, born, last + 1, id, s) {
        var i :| 0 <= i < |servers| && servers[i] == s;
        assert e1.evidence[s] == Refusal;
      }
      assert Supports(all, born, last, id, e1, c);
    } else {
      assert Supports(all, born, 0, id, e1, c);
    }
  }

  lemma NoteKeepsExplained(
      l: Ledger, log: seq<Event>, id: string, outcome: Outcome, servers: seq<string>, now: nat, c: Config)
    requires Wf(l, c) && AllExplained(l, log, c) && LogBefore(log, now)
    ensures AllExplained(Next(l, Note(id, outcome, servers), now, c),
                         log + Events(l, Note(id, outcome, servers), now, c), c)
  {
    assert 1 <= c.capacity;
    hide Injective, Explained, Wf, Noted, Outdated, Events, LogBefore;
    var op := Note(id, outcome, servers);
    forall i | i in Next(l, op, now, c).holes
      ensures Explained(log + Events(l, op, now, c), i, Next(l, op, now, c).holes[i], c)
    {
      if i == id {
        NoteExplainsItsOwn(l, log, id, outcome, servers, now, c);
      } else {
        NoteExplainsOthers(l, log, id, outcome, servers, now, c, i);
      }
    }
  }

  lemma NoteExplainsOthers(l: Ledger, log: seq<Event>, id: string, outcome: Outcome, servers: seq<string>,
                           now: nat, c: Config, i: string)
    requires Wf(l, c) && AllExplained(l, log, c) && i != id
    requires i in Noted(l, id, outcome, servers, now, c).0.holes
    ensures Explained(log + Events(l, Note(id, outcome, servers), now, c), i,
                      Noted(l, id, outcome, servers, now, c).0.holes[i], c)
  {
    hide Explained, Wf, Prepared, Refuse, Outdated;
    PreparedIsWf(l, id, outcome, servers, now, c);
    WfMeans(l, c);
    assert Explained(log, i, l.holes[i], c);
    ExplainedStays(log, Events(l, Note(id, outcome, servers), now, c), i, l.holes[i], l.holes[i], c);
  }

  lemma NoteExplainsItsOwn(l: Ledger, log: seq<Event>, id: string, outcome: Outcome, servers: seq<string>,
                           now: nat, c: Config)
    requires Wf(l, c) && AllExplained(l, log, c) && LogBefore(log, now)
    requires id in Noted(l, id, outcome, servers, now, c).0.holes
    ensures Explained(log + Events(l, Note(id, outcome, servers), now, c), id,
                      Noted(l, id, outcome, servers, now, c).0.holes[id], c)
  {
    hide Explained, Wf, Prepared, Refuse, Outdated, LogBefore;
    PreparedIsWf(l, id, outcome, servers, now, c);
    WfMeans(l, c);
    var p := Prepared(l, id, outcome, servers, now, c);
    var more := Events(l, Note(id, outcome, servers), now, c);
    if outcome.Transport? {
      assert Explained(log, id, l.holes[id], c);
      ExplainedStays(log, more, id, l.holes[id], Noted(l, id, outcome, servers, now, c).0.holes[id], c);
    } else if id in p.holes {
      assert Explained(log, id, l.holes[id], c);
      KeptIsCurrent(l, id, outcome, servers, now, c);
      OneMoreRefusal(log, more[0], id, l.holes[id], outcome.server, servers, now, p.clock, c);
    } else {
      FirstRefusal(log, more[0], id, outcome.server, servers, now, p.clock, c);
    }
  }

  /** A record a conclusive outcome finds was made with the same servers asked. */
  lemma KeptIsCurrent(l: Ledger, id: string, outcome: Outcome, servers: seq<string>, now: nat, c: Config)
    requires Wf(l, c) && !outcome.Transport? && id in Prepared(l, id, outcome, servers, now, c).holes
    ensures id in l.holes && l.holes[id].fingerprint == Fingerprint(servers)
    ensures !Outdated(l.holes[id], outcome, servers, now, c)
  {
    hide Injective;
    PreparedIsWf(l, id, outcome, servers, now, c);
  }

  lemma NextKeepsExplained(l: Ledger, log: seq<Event>, op: Op, now: nat, c: Config)
    requires Wf(l, c) && AllExplained(l, log, c) && LogBefore(log, now) && !op.Restore?
    ensures AllExplained(Next(l, op, now, c), log + Events(l, op, now, c), c)
  {
    hide Injective, Explained;
    match op
    case Note(id, outcome, servers) => NoteKeepsExplained(l, log, id, outcome, servers, now, c);
    case Ask(id, servers) =>
      var after, more := Next(l, op, now, c), Events(l, op, now, c);
      forall i | i in after.holes ensures Explained(log + more, i, after.holes[i], c) {
        assert Explained(log, i, l.holes[i], c);
        ExplainedStays(log, more, i, l.holes[i], after.holes[i], c);
      }
    case List =>
      var after, more := Next(l, op, now, c), Events(l, op, now, c);
      forall i | i in after.holes ensures Explained(log + more, i, after.holes[i], c) {
        assert Explained(log, i, l.holes[i], c);
        ExplainedStays(log, more, i, l.holes[i], after.holes[i], c);
      }
  }

  lemma NextKeepsWf(l: Ledger, log: seq<Event>, op: Op, now: nat, c: Config)
    requires Wf(l, c)
    requires LogBefore(log, now)
    ensures Wf(Next(l, op, now, c), c)
    ensures LogBefore(log + Events(l, op, now, c), now)
  {
    hide Injective, Wf;
    match op
    case Note(id, outcome, servers) => NotedIsWf(l, id, outcome, servers, now, c);
    case Ask(id, servers) => ConsultedIsWf(l, id, servers, now, c);
    case Restore(hole) => RestoredIsWf(l, hole, now, c);
    case List => SweepKeeps(l, now, c);
  }

  lemma LogBeforeLater(log: seq<Event>, now: nat, later: nat)
    requires LogBefore(log, now) && now <= later
    ensures LogBefore(log, later)
  {
  }

  /** Over any run in which no hole of an earlier process is restored, every record is
      explained by the run's log. In particular a confirmed hole has, since its first
      refusal, a refusal from every server of one non-empty and unchanged set of servers,
      no present answer in between, and at least the confirm delay between the first
      refusal and the confirming one. */
  lemma {:induction false} ConfirmedHolesHaveEvidence(
      l: Ledger, log: seq<Event>, now: nat, ops: seq<(Op, nat)>, end: Ledger, endLog: seq<Event>, c: Config)
    requires Wf(l, c) && AllExplained(l, log, c) && LogBefore(log, now)
    requires Run(l, log, now, ops, end, endLog, c)
    requires forall i :: 0 <= i < |ops| ==> !ops[i].0.Restore?
    ensures Wf(end, c) && AllExplained(end, endLog, c)
    decreases |ops|
  {
    hide Wf, AllExplained, LogBefore, Next, Events;
    if ops != [] {
      var (op, at) := ops[0];
      LogBeforeLater(log, now, at);
      NextKeepsExplained(l, log, op, at, c);
      NextKeepsWf(l, log, op, at, c);
      ConfirmedHolesHaveEvidence(Next(l, op, at, c), log + Events(l, op, at, c), at, ops[1..], end, endLog, c);
    }
  }

  /** The ledger is bounded, whatever runs, restores included. */
  lemma {:induction false} RunsStayBounded(
      l: Ledger, log: seq<Event>, now: nat, ops: seq<(Op, nat)>, end: Ledger, endLog: seq<Event>, c: Config)
    requires Wf(l, c) && LogBefore(log, now) && Run(l, log, now, ops, end, endLog, c)
    ensures Wf(end, c) && |end.holes| <= c.capacity
    decreases |ops|
  {
    if ops != [] {
      var (op, at) := ops[0];
      LogBeforeLater(log, now, at);
      NextKeepsWf(l, log, op, at, c);
      RunsStayBounded(Next(l, op, at, c), log + Events(l, op, at, c), at, ops[1..], end, endLog, c);
    }
  }

  // ---- Who may probe again --------------------------------------------------------

  /** A caller was told to probe again. */
  predicate Claims(ev: Event) {
    ev.Told? && ev.answer == Reprobe
  }

  /** What lets another caller probe an article again before the claim times out. */
  predicate Frees(ev: Event, id: string) {
    || (ev.Lost? && id in ev.ids)
    || (ev.Said? && ev.id == id && ev.outcome.Transport?)
  }

  ghost predicate FreedBetween(log: seq<Event>, i: int, j: int, id: string) {
    exists k :: 0 <= i < k < j <= |log| && Frees(log[k], id)
  }

  /** Two callers are told to probe the same article only with the claim timeout, a
      transport outcome or the loss of the record between them. */
  ghost predicate ProbesApart(log: seq<Event>) {
    forall i, j :: 0 <= i < j < |log| && Claims(log[i]) && Claims(log[j]) && log[i].id == log[j].id ==>
      log[j].at >= log[i].at + REPROBE_CLAIM_TIMEOUT || FreedBetween(log, i, j, log[i].id)
  }

  ghost predicate ClaimStands(holes: Holes, id: string, at: nat) {
    && id in holes && holes[id].state == Confirmed
    && holes[id].reprobeClaimedAt.Some? && holes[id].reprobeClaimedAt.value >= at
  }

  ghost predicate ClaimsKept(l: Ledger, log: seq<Event>) {
    forall i :: 0 <= i < |log| && Claims(log[i]) ==>
      ClaimStands(l.holes, log[i].id, log[i].at) || FreedBetween(log, i, |log|, log[i].id)
  }

  ghost predicate FreedBy(evs: seq<Event>, id: string) {
    exists k :: 0 <= k < |evs| && Frees(evs[k], id)
  }

  /** A standing claim outlives a step unless the step frees the article. */
  lemma StepKeepsClaim(l: Ledger, op: Op, now: nat, c: Config, id: string, at: nat)
    requires Wf(l, c) && ClaimStands(l.holes, id, at) && at <= now
    ensures ClaimStands(Next(l, op, now, c).holes, id, at) || FreedBy(Events(l, op, now, c), id)
  {
    assert 1 <= c.capacity;
    hide Injective, Wf, Next, Events, Frees;
    var evs := Events(l, op, now, c);
    if id !in Next(l, op, now, c).holes {
      GoneIsLost(l, op, now, c, id);
    } else if op.Note? && op.id == id {
      NoteKeepsClaim(l, op.outcome, op.servers, now, c, id, at);
    } else if !op.Ask? || op.id != id {
      OthersStay(l, op, now, c, id);
    } else {
      AskKeepsClaim(l, op.servers, now, c, id, at);
    }
  }

  lemma GoneIsLost(l: Ledger, op: Op, now: nat, c: Config, id: string)
    requires Wf(l, c) && id in l.holes && id !in Next(l, op, now, c).holes
    ensures FreedBy(Events(l, op, now, c), id)
  {
    hide Injective, Next, Outdated;
    assert Frees(Events(l, op, now, c)[0], id);
  }

  lemma OthersStay(l: Ledger, op: Op, now: nat, c: Config, id: string)
    requires Wf(l, c) && id in Next(l, op, now, c).holes && id in l.holes
    requires (op.Note? || op.Ask?) ==> op.id != id
    ensures Next(l, op, now, c).holes[id] == l.holes[id]
  {
    hide Lapsed, Prepared, RoomMade, Wf, Refuse;
    if op.Note? {
      PreparedIsWf(l, op.id, op.outcome, op.servers, now, c);
    } else if op.Restore? {
      RoomIsMade(l, now, c);
    }
  }

  lemma AskKeepsClaim(l: Ledger, servers: seq<string>, now: nat, c: Config, id: string, at: nat)
    requires Wf(l, c) && ClaimStands(l.holes, id, at) && at <= now
    requires id in Next(l, Ask(id, servers), now, c).holes
    ensures ClaimStands(Next(l, Ask(id, servers), now, c).holes, id, at)
  {
    hide Injective, Lapsed;
  }

  lemma NoteKeepsClaim(l: Ledger, outcome: Outcome, servers: seq<string>, now: nat, c: Config, id: string, at: nat)
    requires Wf(l, c) && ClaimStands(l.holes, id, at)
    requires id in Next(l, Note(id, outcome, servers), now, c).holes
    ensures
      || ClaimStands(Next(l, Note(id, outcome, servers), now, c).holes, id, at)
      || FreedBy(Events(l, Note(id, outcome, servers), now, c), id)
  {
    hide Injective, Lapsed, RoomMade, Outdated, AllRefused;
    var evs := Events(l, Note(id, outcome, servers), now, c);
    if outcome.Transport? {
      assert Frees(evs[1], id);
    } else if Outdated(l.holes[id], outcome, servers, now, c) {
      assert Frees(evs[0], id);
    } else {
      assert Prepared(l, id, outcome, servers, now, c).holes[id] == l.holes[id];
    }
  }

  lemma NextKeepsClaims(l: Ledger, log: seq<Event>, op: Op, now: nat, c: Config)
    requires Wf(l, c) && ClaimsKept(l, log) && LogBefore(log, now)
    ensures ClaimsKept(Next(l, op, now, c), log + Events(l, op, now, c))
  {
    assert 1 <= c.capacity;
    hide Wf, ClaimStands, Frees, Injective, Next, Events;
    var after, evs := Next(l, op, now, c), Events(l, op, now, c);
    var all := log + evs;
    forall i | 0 <= i < |all| && Claims(all[i])
      ensures ClaimStands(after.holes, all[i].id, all[i].at) || FreedBetween(all, i, |all|, all[i].id)
    {
      if i < |log| {
        FreedStays(log, evs, i, |log|, |all|, log[i].id);
        if ClaimStands(l.holes, log[i].id, log[i].at) {
          StepKeepsClaim(l, op, now, c, log[i].id, log[i].at);
          if FreedBy(evs, log[i].id) {
            var k :| 0 <= k < |evs| && Frees(evs[k], log[i].id);
            assert all[|log| + k] == evs[k];
          }
        }
      } else {
        assert all[i] == evs[i - |log|];
        FreshClaimStands(l, op, now, c);
      }
    }
  }

  lemma NextKeepsProbesApart(l: Ledger, log: seq<Event>, op: Op, now: nat, c: Config)
    requires Wf(l, c) && ClaimsKept(l, log) && ProbesApart(log)
    ensures ProbesApart(log + Events(l, op, now, c))
  {
    assert 1 <= c.capacity;
    hide Wf, ClaimStands, Frees, Injective, Next, Events;
    var evs := Events(l, op, now, c);
    var all := log + evs;
    OneClaimAtMost(l, op, now, c);
    forall i, j | 0 <= i < j < |all| && Claims(all[i]) && Claims(all[j]) && all[i].id == all[j].id
      ensures all[j].at >= all[i].at + REPROBE_CLAIM_TIMEOUT || FreedBetween(all, i, j, all[i].id)
    {
      if j < |log| {
        FreedStays(log, evs, i, j, j, log[i].id);
      } else {
        assert all[j] == evs[j - |log|];
        FreedStays(log, evs, i, |log|, j, all[i].id);
        ClaimNeedsTimeout(l, op, now, c, all[i].id, all[i].at);
      }
    }
  }

  lemma OneClaimAtMost(l: Ledger, op: Op, now: nat, c: Config)
    requires Wf(l, c)
    ensures forall k :: 0 <= k < |Events(l, op, now, c)| && Claims(Events(l, op, now, c)[k]) ==> k == 1
  {
    hide Wf, Next;
  }

  lemma FreedStays(log: seq<Event>, more: seq<Event>, i: int, j: int, j': int, id: string)
    requires j <= |log| && j <= j' <= |log + more|
    ensures FreedBetween(log, i, j, id) ==> FreedBetween(log + more, i, j', id)
  {
    if FreedBetween(log, i, j, id) {
      var k :| 0 <= i < k < j <= |log| && Frees(log[k], id);
      assert (log + more)[k] == log[k];
    }
  }

  lemma FreshClaimStands(l: Ledger, op: Op, now: nat, c: Config)
    requires Wf(l, c)
    ensures forall k :: 0 <= k < |Events(l, op, now, c)| && Claims(Events(l, op, now, c)[k]) ==>
      ClaimStands(Next(l, op, now, c).holes, Events(l, op, now, c)[k].id, Events(l, op, now, c)[k].at)
  {
    hide Injective, Wf;
  }

  lemma ClaimNeedsTimeout(l: Ledger, op: Op, now: nat, c: Config, id: string, at: nat)
    requires Wf(l, c)
    requires |Events(l, op, now, c)| > 1
    requires Claims(Events(l, op, now, c)[1]) && Events(l, op, now, c)[1].id == id
    ensures ClaimStands(l.holes, id, at) ==> Events(l, op, now, c)[1].at >= at + REPROBE_CLAIM_TIMEOUT
  {
    hide Injective, Wf;
  }

  /** Over any run, between two answers that tell callers to probe the same article, either
      the claim timeout passed, a transport outcome released the claim, or the record was
      lost: replaced, lapsed or evicted. */
  lemma {:induction false} ReprobesAreApart(
      l: Ledger, log: seq<Event>, now: nat, ops: seq<(Op, nat)>, end: Ledger, endLog: seq<Event>, c: Config)
    requires Wf(l, c) && LogBefore(log, now) && ClaimsKept(l, log) && ProbesApart(log)
    requires Run(l, log, now, ops, end, endLog, c)
    ensures ProbesApart(endLog)
    decreases |ops|
  {
    hide Wf, ClaimsKept, ProbesApart, LogBefore, Next, Events;
    if ops != [] {
      var (op, at) := ops[0];
      LogBeforeLater(log, now, at);
      NextKeepsWf(l, log, op, at, c);
      NextKeepsClaims(l, log, op, at, c);
      NextKeepsProbesApart(l, log, op, at, c);
      ReprobesAreApart(Next(l, op, at, c), log + Events(l, op, at, c), at, ops[1..], end, endLog, c);
    }
  }

  function NewLedger(): Ledger {
    Ledger(map[], 0, None)
  }

  /** A new ledger starts every one of these runs. */
  lemma NewLedgerStarts(c: Config, now: nat)
    requires 1 <= c.capacity
    ensures Wf(NewLedger(), c) && AllExplained(NewLedger(), [], c) && LogBefore([], now)
    ensures ClaimsKept(NewLedger(), []) && ProbesApart([])
  {
  }

  /** A transport failure is never a miss: it makes no record and moves none forward. On one
      that has not lapsed it marks the server unreachable and lets the next caller probe. */
  lemma TransportIsNoEvidence(l: Ledger, id: string, server: string, servers: seq<string>, now: nat, c: Config)
    requires Wf(l, c)
    ensures
      var (after, answer) := Noted(l, id, Transport(server), servers, now, c);
      && after.holes.Keys <= l.holes.Keys
      && (forall i :: i in after.holes ==>
            && after.holes[i].state == l.holes[i].state
            && after.holes[i].firstRefusedAt == l.holes[i].firstRefusedAt
            && (forall s :: s in after.holes[i].evidence && after.holes[i].evidence[s] == Refusal ==>
                  s in l.holes[i].evidence && l.holes[i].evidence[s] == Refusal))
      && !answer.confirmNeeded
      && (id in after.holes <==> id in l.holes && !Lapsed(l.holes[id], now, c))
      && (id in after.holes ==>
            && after.holes[id].reprobeClaimedAt.None?
            && server in after.holes[id].evidence && after.holes[id].evidence[server] == Unreachable)
  {
    hide Injective;
    PreparedIsWf(l, id, Transport(server), servers, now, c);
  }

  /** Servers that have refused an article, counting the one that just did. */
  ghost predicate AllHaveRefused(evidence: map<string, Evidence>, server: string, servers: seq<string>) {
    Fingerprint(servers) != {} && forall s :: s in Fingerprint(servers) ==>
      s == server || (s in evidence && evidence[s] == Refusal)
  }

  /** A refusal leaves the hole confirmed exactly when a current record was confirmed before,
      or every server has now refused and the delay since the first refusal is over; without
      a current record the first refusal is this one. */
  lemma RefusalConfirmsExactlyWhen(l: Ledger, id: string, server: string, servers: seq<string>, now: nat, c: Config)
    requires Wf(l, c)
    ensures
      var answer := Noted(l, id, Refused(server), servers, now, c).1;
      var current := Answers(l, id, servers, now, c) && !Expired(l.holes[id], now);
      && answer.state.Some? && (answer.confirmNeeded <==> answer.state == Some(Provisional))
      && (answer.state == Some(Confirmed) <==>
            if current then
              || l.holes[id].state == Confirmed
              || (AllHaveRefused(l.holes[id].evidence, server, servers)
                  && now - l.holes[id].firstRefusedAt >= c.confirmAfter
                  && now >= l.holes[id].firstRefusedAt)
              || (AllHaveRefused(l.holes[id].evidence, server, servers) && c.confirmAfter == 0)
            else AllHaveRefused(map[], server, servers) && c.confirmAfter == 0)
  {
    hide Injective, TouchedOf, RoomMade, Lapsed;
    PreparedIsWf(l, id, Refused(server), servers, now, c);
    var p := Prepared(l, id, Refused(server), servers, now, c);
    var current := Answers(l, id, servers, now, c) && !Expired(l.holes[id], now);
    assert current <==> id in p.holes;
    var evidence := if current then l.holes[id].evidence else map[];
    RefusedByAll(evidence, server, servers);
  }

  lemma RefusedByAll(evidence: map<string, Evidence>, server: string, servers: seq<string>)
    ensures AllRefused(evidence[server := Refusal], servers) <==> AllHaveRefused(evidence, server, servers)
  {
    if servers != [] {
      assert servers[0] in Fingerprint(servers);
    }
    if AllHaveRefused(evidence, server, servers) {
      forall i | 0 <= i < |servers|
        ensures servers[i] == server || (servers[i] in evidence && evidence[servers[i]] == Refusal)
      {
        assert servers[i] in Fingerprint(servers);
      }
    }
  }
}
