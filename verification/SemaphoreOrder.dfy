/** Who waits and who is served when: nobody waits for a permit he could have, asks of one
    kind are served in the order they came in, and whoever goes away is not served any more. */
module SemaphoreOrder {
  import opened Wrappers
  import opened PrioritizedSemaphores
  import opened SemaphoreRuns

  // ---- Nobody waits for nothing ---------------------------------------------------

  /** In every state a run reaches, every queued ask has its reason to wait. */
  lemma NobodyWaitsForNothing(w: World)
    requires Reachable(w)
    ensures w.sem.Wf() && AllWaitForReason(w.sem)
  {
    ReachableInv(w);
    StopsExactlyWhen(w.sem);
  }

  /** In particular the reserve is lent out to the last permit: with a borrowing read-ahead ask
      queued, no demand ask, and repair at its floor or idle, every permit is out. */
  lemma TheReserveIsLent(w: World, i: nat)
    requires Reachable(w) && w.sem.Wf()
    requires i < |w.sem.Queue(ReadAhead)| && w.sem.Queue(ReadAhead)[i].borrowsReserve
    requires w.sem.Held(Repair) >= w.sem.repairFloor || (w.sem.Held(Repair) == 0 && w.sem.Queue(Repair) == [])
    ensures w.sem.HeldTotal() == w.sem.total
  {
    NobodyWaitsForNothing(w);
  }

  /** Who gets the next permit, if one is free: a demand ask before all; then a repair ask
      below the floor; then the first read-ahead or ingest ask there is room for, of which
      borrowing read-ahead has all there is unless repair is owed some of its floor; and
      repair at its floor only when no read-ahead or ingest ask is queued. */
  lemma NextIs(s: State)
    requires s.Wf()
    ensures s.NextGrantable() == Some((Demand, 0)) <==> s.HeldTotal() < s.total && s.Queue(Demand) != []
    ensures s.NextGrantable() == Some((Repair, 0)) <==>
      && s.HeldTotal() < s.total && s.Queue(Demand) == [] && s.Queue(Repair) != [] && RoomBeyondDemand(s) > 0
      && (s.Held(Repair) < s.repairFloor || s.Queue(ReadAhead) == [])
    ensures s.NextGrantable().Some? && s.NextGrantable().value.0 == ReadAhead <==>
      && s.HeldTotal() < s.total && s.Queue(Demand) == []
      && (s.Queue(Repair) == [] || s.Held(Repair) >= s.repairFloor)
      && exists i :: 0 <= i < |s.Queue(ReadAhead)| && HasRoom(s, s.Queue(ReadAhead)[i])
    ensures s.NextGrantable().Some? && s.NextGrantable().value.0 == ReadAhead ==>
      var q, pos := s.Queue(ReadAhead), s.NextGrantable().value.1;
      pos < |q| && HasRoom(s, q[pos]) && forall i :: 0 <= i < pos ==> !HasRoom(s, q[i])
  {
    if s.Free() > 0 {
      RepairGuards(s);
      FitsExactlyWhen(s);
    }
  }

  /** There is room for a read-ahead or an ingest ask. */
  predicate HasRoom(s: State, w: Waiter)
    requires s.Shaped()
  {
    (w.borrowsReserve && !FloorOwed(s))
    || RoomBeyondDemand(s) > if FloorOwed(s) then s.repairFloor - s.Held(Repair) else 0
  }

  // ---- First come, first served ---------------------------------------------------

  datatype Event =
    /** A permit was sent. */
    | Sent(grant: Grant)
    /** An asker went away. */
    | Gone(id: nat)

  /** What an event means for a waiter of a tier that comes after it: it asked after a waiter
      of its kind that was served, and it is closed if it is the one that went away. */
  predicate Follows(e: Event, t: Tier, w: Waiter) {
    match e
    case Sent(g) => g.tier == t && g.waiter.borrowsReserve == w.borrowsReserve ==> g.waiter.id < w.id
    case Gone(id) => id == w.id ==> w.closed
  }

  /** Permits of one kind went out in the order of the asks, and none to an asker that had
      gone away. */
  ghost predicate InTurn(log: seq<Event>) {
    forall i, j :: 0 <= i < j < |log| && log[j].Sent? ==>
      Follows(log[i], log[j].grant.tier, log[j].grant.waiter) && !log[j].grant.waiter.closed
  }

  /** Queues are in the order of the asks. */
  ghost predicate ById(s: State)
    requires s.Shaped()
  {
    && (forall t, i, j {:trigger s.Queue(t)[i], s.Queue(t)[j]} :: 0 <= i < j < |s.Queue(t)| ==>
          s.Queue(t)[i].id < s.Queue(t)[j].id)
    && (forall t, w {:trigger w in s.Queue(t)} :: w in s.Queue(t) ==> w.id < s.nextId)
  }

  /** Whoever is queued follows all that happened. */
  ghost predicate AllFollow(s: State, log: seq<Event>)
    requires s.Shaped()
  {
    && (forall e, t, w {:trigger Follows(e, t, w)} :: e in log && w in s.Queue(t) ==> Follows(e, t, w))
    && (forall e :: e in log ==> (if e.Sent? then e.grant.waiter.id else e.id) < s.nextId)
  }

  ghost predicate Orderly(s: State, log: seq<Event>)
    requires s.Shaped()
  {
    ById(s) && AllFollow(s, log) && InTurn(log)
  }

  function Sents(grants: seq<Grant>): seq<Event> {
    seq(|grants|, i requires 0 <= i < |grants| => Sent(grants[i]))
  }

  /** What a step adds to the log. */
  function Events(w: World, step: Step): seq<Event>
    requires w.sem.Wf() && Enabled(w, step)
  {
    match step
    case Ask(_, _, leaving) => Sents(Dispatched(Start(w, step), leaving).1)
    case Return(_, _, leaving) => Sents(Dispatched(Start(w, step), leaving).1)
    case Cancel(id) => if id < w.sem.nextId then [Gone(id)] else []
  }

  ghost predicate LoggedRun(w: World, log: seq<Event>, steps: seq<Step>, end: World, endLog: seq<Event>)
    decreases |steps|
  {
    if steps == [] then w == end && log == endLog
    else
      && w.sem.Wf() && Enabled(w, steps[0])
      && LoggedRun(Next(w, steps[0]), log + Events(w, steps[0]), steps[1..], end, endLog)
  }

  /** The waiter picked is the first of its kind in its queue. */
  lemma PickIsFirstOfItsKind(s: State)
    requires s.Wf() && s.NextGrantable().Some?
    ensures
      var (tier, pos) := s.NextGrantable().value;
      && pos < |s.Queue(tier)|
      && forall i :: 0 <= i < pos ==> s.Queue(tier)[i].borrowsReserve != s.Queue(tier)[pos].borrowsReserve
  {
  }

  lemma WithoutOne(q: seq<Waiter>, pos: nat)
    requires pos < |q| && forall i, j :: 0 <= i < j < |q| ==> q[i].id < q[j].id
    ensures
      var r := q[..pos] + q[pos + 1..];
      && (forall i, j :: 0 <= i < j < |r| ==> r[i].id < r[j].id)
      && (forall w :: w in r ==> w in q)
      && (forall w :: w in r ==> w.id > q[pos].id || exists i :: 0 <= i < pos && q[i] == w)
  {
    var r := q[..pos] + q[pos + 1..];
    forall k | 0 <= k < |r| ensures r[k] in q && (r[k].id > q[pos].id || exists i :: 0 <= i < pos && q[i] == r[k]) {
      var at := if k < pos then k else k + 1;
      assert r[k] == q[at];
    }
  }

  /** What stays in the queues when one waiter is taken off. */
  lemma RemoveKeeps(s: State, tier: Tier, pos: nat)
    requires s.Shaped() && ById(s) && pos < |s.Queue(tier)|
    ensures
      var s1 := s.Remove(tier, pos);
      && ById(s1)
      && (forall t, w {:trigger w in s1.Queue(t)} :: w in s1.Queue(t) ==> w in s.Queue(t))
      && (forall w :: w in s1.Queue(tier) ==>
            w.id > s.Queue(tier)[pos].id || exists i :: 0 <= i < pos && s.Queue(tier)[i] == w)
  {
    var q, s1 := s.Queue(tier), s.Remove(tier, pos);
    assert forall i, j :: 0 <= i < j < |q| ==> q[i].id < q[j].id;
    WithoutOne(q, pos);
    var r := q[..pos] + q[pos + 1..];
    assert forall t :: s1.Queue(t) == if t == tier then r else s.Queue(t);
  }

  /** One turn of the granting loop keeps the order. */
  lemma HandedKeepsOrder(s: State, leaving: set<nat>, log: seq<Event>)
    requires s.Wf() && Orderly(s, log) && NoneClosed(s) && s.NextGrantable().Some?
    ensures
      var (s1, sent) := Handed(s, leaving);
      Orderly(s1, log + Sents(sent)) && NoneClosed(s1)
  {
    PickIsFirstOfItsKind(s);
    var (tier, pos) := s.NextGrantable().value;
    hide State.NextGrantable, State.Wf;
    RemoveKeeps(s, tier, pos);
    var w, s1 := s.Queue(tier)[pos], s.Remove(tier, pos);
    assert w in s.Queue(tier);
    var (next, sent) := Handed(s, leaving);
    assert next.nextId == s1.nextId == s.nextId && forall t :: next.Queue(t) == s1.Queue(t);
    assert ById(next) && NoneClosed(next);
    SentKeepsOrder(s, next, log, tier, w, sent);
  }

  lemma SentKeepsOrder(s: State, next: State, log: seq<Event>, tier: Tier, w: Waiter, sent: seq<Grant>)
    requires s.Shaped() && next.Shaped() && AllFollow(s, log) && InTurn(log)
    requires w in s.Queue(tier) && !w.closed && w.id < s.nextId == next.nextId
    requires forall t, v {:trigger v in next.Queue(t)} :: v in next.Queue(t) ==> v in s.Queue(t)
    requires forall v :: v in next.Queue(tier) && v.borrowsReserve == w.borrowsReserve ==> w.id < v.id
    requires sent == [] || sent == [Grant(tier, w)]
    ensures AllFollow(next, log + Sents(sent)) && InTurn(log + Sents(sent))
  {
    var more := Sents(sent);
    assert more == [] || more == [Sent(Grant(tier, w))];
    var all := log + more;
    forall i, j | 0 <= i < j < |all| && all[j].Sent?
      ensures Follows(all[i], all[j].grant.tier, all[j].grant.waiter) && !all[j].grant.waiter.closed
    {
      assert all[i] == log[i] && log[i] in log;
    }
    forall e, t, v {:trigger Follows(e, t, v)} | e in all && v in next.Queue(t) ensures Follows(e, t, v) {
      if e !in log {
        assert e == Sent(Grant(tier, w));
      }
    }
  }

  lemma {:induction false} DrainKeepsOrder(s: State, leaving: set<nat>, log: seq<Event>)
    requires s.Wf() && Orderly(s, log) && NoneClosed(s)
    ensures var (end, sent) := Drain(s, leaving); end.Wf() && Orderly(end, log + Sents(sent))
    decreases s.QueuedTotal()
  {
    hide Orderly, NoneClosed, State.NextGrantable;
    if s.NextGrantable().None? {
      assert log + Sents([]) == log;
    } else {
      HandedKeepsOrder(s, leaving, log);
      var (s1, sent) := Handed(s, leaving);
      DrainKeepsOrder(s1, leaving, log + Sents(sent));
      var rest := Drain(s1, leaving).1;
      assert log + Sents(sent + rest) == log + Sents(sent) + Sents(rest);
    }
  }

  lemma {:induction false} LiveAscends(q: seq<Waiter>)
    requires forall i, j :: 0 <= i < j < |q| ==> q[i].id < q[j].id
    ensures forall i, j :: 0 <= i < j < |Live(q)| ==> Live(q)[i].id < Live(q)[j].id
  {
    if q != [] {
      var rest := q[1..];
      assert forall i :: 0 <= i < |rest| ==> rest[i] == q[i + 1];
      LiveAscends(rest);
      forall w | w in Live(rest) ensures q[0].id < w.id {
        assert w in rest;
      }
      assert forall j :: 0 <= j < |Live(rest)| ==> Live(rest)[j] in Live(rest);
    }
  }

  lemma PrunedKeepsOrder(s: State, log: seq<Event>)
    requires s.Wf() && Orderly(s, log)
    ensures s.Pruned().Wf() && Orderly(s.Pruned(), log) && NoneClosed(s.Pruned())
  {
    var p := s.Pruned();
    assert forall t :: p.Queue(t) == Live(s.Queue(t));
    forall t ensures forall i, j :: 0 <= i < j < |p.Queue(t)| ==> p.Queue(t)[i].id < p.Queue(t)[j].id {
      assert forall i, j :: 0 <= i < j < |s.Queue(t)| ==> s.Queue(t)[i].id < s.Queue(t)[j].id;
      LiveAscends(s.Queue(t));
    }
  }

  lemma StartKeepsOrder(w: World, step: Step, log: seq<Event>)
    requires w.sem.Wf() && Enabled(w, step) && !step.Cancel? && Orderly(w.sem, log)
    ensures Orderly(Start(w, step), log)
  {
    var s, s0 := Start(w, step), w.sem;
    if step.Ask? {
      var added := Waiter(s0.nextId, step.borrowsReserve, false);
      assert forall t :: s.Queue(t) == s0.Queue(t) + if t == step.tier then [added] else [];
      forall t, i, j {:trigger s.Queue(t)[i], s.Queue(t)[j]} | 0 <= i < j < |s.Queue(t)|
        ensures s.Queue(t)[i].id < s.Queue(t)[j].id
      {
        assert s.Queue(t)[i] == s0.Queue(t)[i] && s0.Queue(t)[i] in s0.Queue(t);
      }
      forall e, t, v {:trigger Follows(e, t, v)} | e in log && v in s.Queue(t) ensures Follows(e, t, v) {
        if v !in s0.Queue(t) {
          assert v == added;
        }
      }
    } else {
      assert forall t :: s.Queue(t) == s0.Queue(t);
    }
  }

  lemma CancelKeepsOrder(s: State, id: nat, log: seq<Event>)
    requires s.Wf() && Orderly(s, log)
    ensures Orderly(s.Cancelled(id), log + if id < s.nextId then [Gone(id)] else [])
  {
    var c := s.Cancelled(id);
    var all := log + if id < s.nextId then [Gone(id)] else [];
    assert forall t :: c.Queue(t) == Close(s.Queue(t), id);
    forall e, t, v {:trigger Follows(e, t, v)} | e in all && v in c.Queue(t) ensures Follows(e, t, v) {
      var k :| 0 <= k < |c.Queue(t)| && c.Queue(t)[k] == v;
      var was := s.Queue(t)[k];
      assert was in s.Queue(t) && was.id == v.id && was.borrowsReserve == v.borrowsReserve;
      assert e in log ==> Follows(e, t, was);
    }
    forall t, v {:trigger v in c.Queue(t)} | v in c.Queue(t) ensures v.id < c.nextId {
      var k :| 0 <= k < |c.Queue(t)| && c.Queue(t)[k] == v;
      assert s.Queue(t)[k] in s.Queue(t);
    }
    forall i, j | 0 <= i < j < |all| && all[j].Sent?
      ensures Follows(all[i], all[j].grant.tier, all[j].grant.waiter) && !all[j].grant.waiter.closed
    {
      assert all[i] == log[i] && all[j] == log[j];
    }
  }

  lemma StepKeepsOrder(w: World, step: Step, log: seq<Event>)
    requires w.sem.Wf() && Enabled(w, step) && Orderly(w.sem, log)
    ensures Next(w, step).sem.Wf() && Orderly(Next(w, step).sem, log + Events(w, step))
  {
    hide Orderly, NoneClosed, Drain;
    if step.Cancel? {
      CancelKeepsOrder(w.sem, step.id, log);
    } else {
      StartKeepsOrder(w, step, log);
      PrunedKeepsOrder(Start(w, step), log);
      DrainKeepsOrder(Start(w, step).Pruned(), step.leaving, log);
    }
  }

  /** Over any run, whatever is asked, returned and cancelled: of the permits sent to one tier,
      those to read-ahead asks go out in the order of these asks, and so do those to ingest
      asks, and those of each other tier; and none goes to an asker that had gone away. */
  lemma {:induction false} PermitsGoInTurn(w: World, log: seq<Event>, steps: seq<Step>, end: World, endLog: seq<Event>)
    requires w.sem.Wf() && Orderly(w.sem, log) && LoggedRun(w, log, steps, end, endLog)
    ensures InTurn(endLog)
    decreases |steps|
  {
    hide Orderly, Next, Events;
    if steps == [] {
      OrderlyMeans(w.sem, log);
    } else {
      StepKeepsOrder(w, steps[0], log);
      PermitsGoInTurn(Next(w, steps[0]), log + Events(w, steps[0]), steps[1..], end, endLog);
    }
  }

  lemma OrderlyMeans(s: State, log: seq<Event>)
    requires s.Shaped() && Orderly(s, log)
    ensures InTurn(log)
  {
  }

  lemma NewPoolIsOrderly(total: nat, reserved: nat, floor: nat)
    requires reserved + floor <= total
    ensures Initial(total, reserved, floor).Wf() && Orderly(Initial(total, reserved, floor), [])
  {
  }

  // ---- Every permit is counted ----------------------------------------------------

  /** The permits a log sends to a tier. */
  function SentTo(log: seq<Event>, t: Tier): nat {
    if log == [] then 0
    else SentTo(log[..|log| - 1], t) + if log[|log| - 1].Sent? && log[|log| - 1].grant.tier == t then 1 else 0
  }

  function ReturnedTo(steps: seq<Step>, t: Tier): nat {
    if steps == [] then 0
    else (if steps[0].Return? && steps[0].tier == t then 1 else 0) + ReturnedTo(steps[1..], t)
  }

  lemma {:induction false} SentToSplits(a: seq<Event>, b: seq<Event>, t: Tier)
    ensures SentTo(a + b, t) == SentTo(a, t) + SentTo(b, t)
  {
    if b == [] {
      assert a + b == a;
    } else {
      assert (a + b)[..|a + b| - 1] == a + b[..|b| - 1];
      SentToSplits(a, b[..|b| - 1], t);
    }
  }

  lemma {:induction false} DrainCounts(s: State, leaving: set<nat>, t: Tier)
    requires s.Wf()
    ensures var (end, sent) := Drain(s, leaving);
      end.Wf() && SameLimits(s, end) && end.Held(t) == s.Held(t) + SentTo(Sents(sent), t)
    decreases s.QueuedTotal()
  {
    hide State.NextGrantable;
    if s.NextGrantable().None? {
      assert Sents([]) == [];
    } else {
      var (s1, sent) := Handed(s, leaving);
      var rest := Drain(s1, leaving).1;
      DrainCounts(s1, leaving, t);
      assert Sents(sent + rest) == Sents(sent) + Sents(rest);
      SentToSplits(Sents(sent), Sents(rest), t);
      OneIsCounted(s, leaving, t);
    }
  }

  lemma OneIsCounted(s: State, leaving: set<nat>, t: Tier)
    requires s.Wf() && s.NextGrantable().Some?
    ensures
      var (s1, sent) := Handed(s, leaving);
      SameLimits(s, s1) && s1.Held(t) == s.Held(t) + SentTo(Sents(sent), t)
  {
    hide State.NextGrantable;
    var sent := Handed(s, leaving).1;
    assert SentTo([], t) == 0;
    assert |sent| == 1 ==> Sents(sent)[..0] == [];
  }

  lemma StepCounts(w: World, step: Step, t: Tier)
    requires w.sem.Wf() && Enabled(w, step)
    ensures Next(w, step).sem.Wf() && SameLimits(w.sem, Next(w, step).sem)
    ensures Next(w, step).sem.Held(t) + ReturnedTo([step], t) == w.sem.Held(t) + SentTo(Events(w, step), t)
  {
    hide Drain;
    assert SentTo([], t) == 0;
    if step.Cancel? {
      var more := Events(w, step);
      assert |more| == 1 ==> more[..0] == [];
    } else {
      DrainCounts(Start(w, step).Pruned(), step.leaving, t);
    }
  }

  lemma {:induction false} HeldIsSentLessReturned(
      w: World, log: seq<Event>, steps: seq<Step>, end: World, endLog: seq<Event>, t: Tier)
    requires w.sem.Wf() && LoggedRun(w, log, steps, end, endLog)
    ensures end.sem.Wf() && SameLimits(w.sem, end.sem)
    ensures end.sem.Held(t) + ReturnedTo(steps, t) + SentTo(log, t) == w.sem.Held(t) + SentTo(endLog, t)
    decreases |steps|
  {
    hide Next, Events;
    if steps != [] {
      StepCounts(w, steps[0], t);
      SentToSplits(log, Events(w, steps[0]), t);
      assert [steps[0]][1..] == [];
      HeldIsSentLessReturned(Next(w, steps[0]), log + Events(w, steps[0]), steps[1..], end, endLog, t);
    }
  }

  /** Over any run of a new pool the permits sent and not yet returned are exactly those its
      counters say are held, at each tier, so at most as many as there are. */
  lemma PermitsAreConserved(
      total: nat, reserved: nat, floor: nat, steps: seq<Step>, end: World, log: seq<Event>)
    requires reserved + floor <= total
    requires LoggedRun(World(Initial(total, reserved, floor), 0), [], steps, end, log)
    ensures end.sem.Wf()
    ensures forall t :: SentTo(log, t) - ReturnedTo(steps, t) == end.sem.Held(t)
    ensures SentTo(log, Demand) + SentTo(log, ReadAhead) + SentTo(log, Repair)
      - (ReturnedTo(steps, Demand) + ReturnedTo(steps, ReadAhead) + ReturnedTo(steps, Repair)) <= total
  {
    var w := World(Initial(total, reserved, floor), 0);
    HeldIsSentLessReturned(w, [], steps, end, log, Demand);
    forall t ensures SentTo(log, t) - ReturnedTo(steps, t) == end.sem.Held(t) {
      HeldIsSentLessReturned(w, [], steps, end, log, t);
    }
    assert SentTo(log, Demand) - ReturnedTo(steps, Demand) == end.sem.Held(Demand);
    assert SentTo(log, ReadAhead) - ReturnedTo(steps, ReadAhead) == end.sem.Held(ReadAhead);
    assert SentTo(log, Repair) - ReturnedTo(steps, Repair) == end.sem.Held(Repair);
  }
}
