/** What an answer of the hole ledger tells about the run before it: a caller is kept from
    fetching an article only on evidence. */
module HoleAnswers {
  import opened Wrappers
  import opened MapFacts
  import opened HoleModel
  import opened HoleRuns

  /** From `born` up to `conf` every one of a non-empty set of servers refused, the last at
      least the confirm delay after the first. */
  ghost predicate RefusedByAll(log: seq<Event>, born: nat, conf: nat, id: string, servers: set<string>, c: Config) {
    && born <= conf < |log|
    && Conclusive(log[born], id) && Conclusive(log[conf], id)
    && log[conf].at >= log[born].at + c.confirmAfter
    && servers != {}
    && (forall s :: s in servers ==> RefusedBy(log, born, conf + 1, id, s))
  }

  /** From `born` to `j` no server had the article, and all were refusals with these servers
      asked. */
  ghost predicate OnlyRefusals(log: seq<Event>, born: nat, j: nat, id: string, servers: set<string>) {
    && born < j <= |log| && Conclusive(log[born], id)
    && (forall k :: born <= k < j && Conclusive(log[k], id) ==> log[k].outcome.Refused? && log[k].servers == servers)
  }

  /** Some caller was told to probe the article less than the claim timeout before `at`. */
  ghost predicate ClaimedLately(log: seq<Event>, j: nat, id: string, at: nat) {
    exists i :: 0 <= i < j <= |log| && Claims(log[i]) && log[i].id == id && at < log[i].at + REPROBE_CLAIM_TIMEOUT
  }

  /** What stands behind the answer at `j`. */
  ghost predicate Grounds(log: seq<Event>, j: nat, born: nat, conf: nat, c: Config)
    requires j < |log| && log[j].Told?
  {
    var (id, servers, at) := (log[j].id, log[j].servers, log[j].at);
    && OnlyRefusals(log, born, j, id, servers)
    && (log[j].answer == Held ==> at < log[born].at + c.provisionalTtl)
    && (log[j].answer in {Skip, Reprobe} ==> conf < j && RefusedByAll(log, born, conf, id, servers, c))
    && (log[j].answer == Skip ==> at < log[conf].at + c.ttl || ClaimedLately(log, j, id, at))
    && (log[j].answer == Reprobe ==> log[conf].at + c.ttl <= at < log[conf].at + c.ttl + EXPIRED_GRACE)
  }

  ghost predicate Grounded(log: seq<Event>, j: nat, c: Config)
    requires j < |log| && log[j].Told?
  {
    exists born: nat, conf: nat :: Grounds(log, j, born, conf, c)
  }

  ghost predicate AnswersGrounded(log: seq<Event>, c: Config) {
    forall j :: 0 <= j < |log| && log[j].Told? && log[j].answer != Fetch ==> Grounded(log, j, c)
  }

  ghost predicate ClaimLogged(log: seq<Event>, id: string, e: Entry) {
    e.reprobeClaimedAt.Some? ==>
      exists i :: 0 <= i < |log| && Claims(log[i]) && log[i].id == id && log[i].at == e.reprobeClaimedAt.value
  }

  /** Every claim a record has was given out. */
  ghost predicate ClaimsLogged(l: Ledger, log: seq<Event>) {
    forall id :: id in l.holes ==> ClaimLogged(log, id, l.holes[id])
  }

  lemma GroundedStays(log: seq<Event>, more: seq<Event>, j: nat, c: Config)
    requires j < |log| && log[j].Told? && Grounded(log, j, c)
    ensures (log + more)[j] == log[j] && Grounded(log + more, j, c)
  {
    var all := log + more;
    assert forall k :: 0 <= k < |log| ==> all[k] == log[k];
    var born: nat, conf: nat :| Grounds(log, j, born, conf, c);
    var id, at := log[j].id, log[j].at;
    if ClaimedLately(log, j, id, at) {
      var i :| 0 <= i < j && Claims(log[i]) && log[i].id == id && at < log[i].at + REPROBE_CLAIM_TIMEOUT;
      assert Claims(all[i]);
    }
    var upto := conf + 1;
    forall s | conf < j && RefusedBy(log, born, upto, id, s) ensures RefusedBy(all, born, upto, id, s) {
      RefusedByStays(log, more, born, upto, upto, id, s);
    }
    assert Grounds(all, j, born, conf, c);
  }

  /** An answer given for a record that is explained has its grounds. */
  lemma AnswerIsGrounded(l: Ledger, log: seq<Event>, id: string, servers: seq<string>, now: nat, c: Config)
    requires AllExplained(l, log, c) && ClaimsLogged(l, log) && LogBefore(log, now) && 1 <= c.capacity
    requires Consulted(l, id, servers, now, c).1 != Fetch
    ensures
      var all := log + Events(l, Ask(id, servers), now, c);
      all[|log| + 1].Told? && Grounded(all, |log| + 1, c)
  {
    ConsultAnswers(l, id, servers, now, c);
    var more := Events(l, Ask(id, servers), now, c);
    hide Consulted, Events;
    var all, j := log + more, |log| + 1;
    EventsOfAsk(l, id, servers, now, c);
    var e := l.holes[id];
    assert Explained(log, id, e, c) && ClaimLogged(log, id, e);
    var born: nat, conf: nat :| Supports(log, born, conf, id, e, c);
    SupportsLater(log, more, born, conf, id, e, c);
    hide Supports, RefusedBy;
    if e.state == Confirmed {
      if ClaimHolds(e, now) {
        assert forall k :: 0 <= k < |log| ==> all[k] == log[k];
        var i :| 0 <= i < |log| && Claims(log[i]) && log[i].id == id && log[i].at == e.reprobeClaimedAt.value;
        assert Claims(all[i]) && ClaimedLately(all, j, id, now);
      }
    }
    assert Grounds(all, j, born, conf, c);
  }

  /** What supports a record is still there after what says nothing conclusive. */
  lemma SupportsLater(log: seq<Event>, more: seq<Event>, born: nat, conf: nat, id: string, e: Entry, c: Config)
    requires Supports(log, born, conf, id, e, c)
    requires |more| == 2 && !Conclusive(more[0], id)
    ensures
      var all, j := log + more, |log| + 1;
      && OnlyRefusals(all, born, j, id, e.fingerprint) && all[born].at == e.firstRefusedAt
      && (e.state == Confirmed ==>
            && conf < j && RefusedByAll(all, born, conf, id, e.fingerprint, c)
            && e.expiresAt == Some(all[conf].at + c.ttl))
  {
    var all := log + more;
    assert forall k :: 0 <= k < |log| ==> all[k] == log[k];
    if e.state == Confirmed {
      forall s | s in e.fingerprint ensures RefusedBy(all, born, conf + 1, id, s) {
        RefusedByStays(log, more, born, conf + 1, conf + 1, id, s);
      }
    }
  }

  lemma EventsOfAsk(l: Ledger, id: string, servers: seq<string>, now: nat, c: Config)
    requires 1 <= c.capacity
    ensures
      var more := Events(l, Ask(id, servers), now, c);
      && |more| == 2 && more[0].Lost?
      && more[1] == Told(id, Fingerprint(servers), Consulted(l, id, servers, now, c).1, now)
  {
    hide Consulted;
  }

  lemma ToldOnlyWhenAsked(l: Ledger, op: Op, now: nat, c: Config)
    requires 1 <= c.capacity && !op.Ask?
    ensures forall k :: 0 <= k < |Events(l, op, now, c)| ==> !Events(l, op, now, c)[k].Told?
  {
    hide Next, Outdated;
  }

  lemma NextKeepsGrounded(l: Ledger, log: seq<Event>, op: Op, now: nat, c: Config)
    requires 1 <= c.capacity && AllExplained(l, log, c) && ClaimsLogged(l, log) && LogBefore(log, now)
    requires AnswersGrounded(log, c)
    ensures AnswersGrounded(log + Events(l, op, now, c), c)
  {
    hide AllExplained, ClaimsLogged, LogBefore, Grounded, Events, Next;
    var more := Events(l, op, now, c);
    var all := log + more;
    assert forall j :: |log| <= j < |all| ==> all[j] == more[j - |log|];
    forall j | 0 <= j < |all| && all[j].Told? && all[j].answer != Fetch ensures Grounded(all, j, c) {
      if j < |log| {
        GroundedStays(log, more, j, c);
      } else if op.Ask? {
        EventsOfAsk(l, op.id, op.servers, now, c);
        AnswerIsGrounded(l, log, op.id, op.servers, now, c);
      } else {
        ToldOnlyWhenAsked(l, op, now, c);
      }
    }
  }

  /** A step leaves a record's claim, takes it away, or gives one out and says so. */
  lemma ClaimsCome(l: Ledger, op: Op, now: nat, c: Config, id: string)
    requires Wf(l, c) && id in Next(l, op, now, c).holes
    ensures 1 <= c.capacity
    ensures
      var e := Next(l, op, now, c).holes[id];
      || e.reprobeClaimedAt.None?
      || (id in l.holes && e.reprobeClaimedAt == l.holes[id].reprobeClaimedAt)
      || (op.Ask? && op.id == id && e.reprobeClaimedAt == Some(now)
          && Consulted(l, id, op.servers, now, c).1 == Reprobe)
  {
    hide *;
    WfMeans(l, c);
    match op
    case Note(i, outcome, servers) => NoteClaims(l, i, outcome, servers, now, c, id);
    case Restore(hole) => RestoreClaims(l, hole, now, c, id);
    case Ask(i, servers) => AskClaims(l, i, servers, now, c, id);
    case List => ListClaims(l, now, c, id);
  }

  lemma NoteClaims(l: Ledger, i: string, outcome: Outcome, servers: seq<string>, now: nat, c: Config, id: string)
    requires Wf(l, c) && 1 <= c.capacity && id in Next(l, Note(i, outcome, servers), now, c).holes
    ensures
      var e := Next(l, Note(i, outcome, servers), now, c).holes[id];
      e.reprobeClaimedAt.None? || (id in l.holes && e.reprobeClaimedAt == l.holes[id].reprobeClaimedAt)
  {
    hide Wf, Prepared, AllRefused, Lapsed;
    PreparedIsWf(l, i, outcome, servers, now, c);
  }

  lemma RestoreClaims(l: Ledger, hole: StoredHole, now: nat, c: Config, id: string)
    requires Wf(l, c) && 1 <= c.capacity && id in Next(l, Restore(hole), now, c).holes
    ensures
      var e := Next(l, Restore(hole), now, c).holes[id];
      e.reprobeClaimedAt.None? || (id in l.holes && e == l.holes[id])
  {
    hide Wf, RoomMade, Lapsed, Marks;
    RoomIsMade(l, now, c);
  }

  lemma AskClaims(l: Ledger, i: string, servers: seq<string>, now: nat, c: Config, id: string)
    requires 1 <= c.capacity && id in Next(l, Ask(i, servers), now, c).holes
    ensures
      var e := Next(l, Ask(i, servers), now, c).holes[id];
      || (id in l.holes && e.reprobeClaimedAt == l.holes[id].reprobeClaimedAt)
      || (i == id && e.reprobeClaimedAt == Some(now) && Consulted(l, i, servers, now, c).1 == Reprobe)
  {
    hide Consulted, ConsultIs;
    ConsultAnswers(l, i, servers, now, c);
  }

  lemma ListClaims(l: Ledger, now: nat, c: Config, id: string)
    requires 1 <= c.capacity && id in Next(l, List, now, c).holes
    ensures id in l.holes && Next(l, List, now, c).holes[id] == l.holes[id]
  {
    hide Lapsed;
  }

  lemma NextKeepsClaimsLogged(l: Ledger, log: seq<Event>, op: Op, now: nat, c: Config)
    requires Wf(l, c) && ClaimsLogged(l, log)
    ensures 1 <= c.capacity
    ensures ClaimsLogged(Next(l, op, now, c), log + Events(l, op, now, c))
  {
    WfMeans(l, c);
    hide Wf, Next, Events, Consulted;
    var more := Events(l, op, now, c);
    var all := log + more;
    forall id | id in Next(l, op, now, c).holes ensures ClaimLogged(all, id, Next(l, op, now, c).holes[id]) {
      var e := Next(l, op, now, c).holes[id];
      ClaimsCome(l, op, now, c, id);
      if e.reprobeClaimedAt.Some? && id in l.holes && e.reprobeClaimedAt == l.holes[id].reprobeClaimedAt {
        assert ClaimLogged(log, id, l.holes[id]);
        var i :| 0 <= i < |log| && Claims(log[i]) && log[i].id == id && log[i].at == e.reprobeClaimedAt.value;
        assert Claims(all[i]) && all[i] == log[i];
      } else if e.reprobeClaimedAt.Some? {
        EventsOfAsk(l, id, op.servers, now, c);
        assert all[|log| + 1] == more[1] && Claims(all[|log| + 1]);
      }
    }
  }

  /** Over any run in which no hole of an earlier process is restored: a caller is told to
      skip an article only after every one of an unchanged, non-empty set of servers, those
      the caller has to ask, refused it across the confirm delay and none had it since, and
      then only within the time to live or while another probes; to probe it again only once
      that time is over; and to hold off only after such a refusal, not yet lapsed. */
  lemma {:induction false} AnswersHaveGrounds(
      l: Ledger, log: seq<Event>, now: nat, ops: seq<(Op, nat)>, end: Ledger, endLog: seq<Event>, c: Config)
    requires Wf(l, c) && AllExplained(l, log, c) && LogBefore(log, now) && ClaimsLogged(l, log)
    requires AnswersGrounded(log, c)
    requires Run(l, log, now, ops, end, endLog, c)
    requires forall i :: 0 <= i < |ops| ==> !ops[i].0.Restore?
    ensures AnswersGrounded(endLog, c)
    decreases |ops|
  {
    WfMeans(l, c);
    hide Wf, AllExplained, LogBefore, Next, Events, ClaimsLogged, AnswersGrounded;
    if ops != [] {
      var (op, at) := ops[0];
      LogBeforeLater(log, now, at);
      NextKeepsExplained(l, log, op, at, c);
      NextKeepsWf(l, log, op, at, c);
      NextKeepsGrounded(l, log, op, at, c);
      NextKeepsClaimsLogged(l, log, op, at, c);
      AnswersHaveGrounds(Next(l, op, at, c), log + Events(l, op, at, c), at, ops[1..], end, endLog, c);
    }
  }

  lemma NewLedgerStartsGrounded(c: Config)
    ensures ClaimsLogged(NewLedger(), []) && AnswersGrounded([], c)
  {
  }

  // ---- Holes of an earlier process ------------------------------------------------

  /** How a hole taken back answers a caller: as a confirmed hole of its servers, skipped until
      it expires, then to be probed again, and forgotten after the grace. */
  ghost predicate AnswersAsRestored(l: Ledger, hole: StoredHole, c: Config) {
    forall servers: seq<string>, later: nat ::
      Consulted(l, hole.messageId, servers, later, c).1 ==
        if Fingerprint(servers) != hole.fingerprint then Fetch
        else if later < hole.expiresAt then Skip
        else if later < hole.expiresAt + EXPIRED_GRACE then Reprobe
        else Fetch
  }

  /** The record is the hole's: its servers come back as they were marked. */
  ghost predicate RecordsHole(e: Entry, hole: StoredHole) {
    && e.state == Confirmed && e.reprobeClaimedAt.None? && e.fingerprint == hole.fingerprint
    && e.firstRefusedAt == hole.firstRefusedAt
    && e.confirmedAt == Some(hole.confirmedAt) && e.expiresAt == Some(hole.expiresAt)
    && (forall s :: s in e.evidence <==> s in hole.refusedBy || s in hole.unreachable)
    && (forall s :: s in e.evidence ==> (e.evidence[s] == Refusal <==> s !in hole.unreachable))
  }

  lemma RecordedAnswers(l: Ledger, hole: StoredHole, c: Config)
    requires hole.messageId in l.holes && RecordsHole(l.holes[hole.messageId], hole)
    ensures AnswersAsRestored(l, hole, c)
  {
  }

  /** A stored hole that has not expired is taken back unless there is a record of the article;
      else nothing changes. */
  lemma RestoreTakesBack(l: Ledger, hole: StoredHole, now: nat, c: Config)
    requires 1 <= c.capacity
    ensures
      var after := Restored(l, hole, now, c);
      if now >= hole.expiresAt || hole.messageId in l.holes then after == l
      else
        && hole.messageId in after.holes && RecordsHole(after.holes[hole.messageId], hole)
        && AnswersAsRestored(after, hole, c)
  {
    hide RoomMade, AnswersAsRestored;
    if now < hole.expiresAt && hole.messageId !in l.holes {
      RecordedAnswers(Restored(l, hole, now, c), hole, c);
    }
  }

  lemma RestoreKeepsOthers(l: Ledger, hole: StoredHole, now: nat, c: Config)
    requires Wf(l, c)
    ensures 1 <= c.capacity
    ensures
      var after := Restored(l, hole, now, c);
      forall i :: i in after.holes && i != hole.messageId ==> i in l.holes && after.holes[i] == l.holes[i]
  {
    hide Wf, RoomMade, Marks;
    WfMeans(l, c);
    RoomIsMade(l, now, c);
  }
}
