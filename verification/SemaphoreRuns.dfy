/** What every run of asks, releases and cancels keeps.

    A `World` adds to the scheduler's state the one thing the state does not record:
    how many of the permits held at the read-ahead tier are ingest permits, which may
    not borrow the demand reserve. */
module SemaphoreRuns {
  import opened Wrappers
  import opened PrioritizedSemaphores

  datatype World = World(sem: State, ingest: nat)

  datatype Step =
    | Ask(tier: Tier, borrowsReserve: bool, leaving: set<nat>)
    | Return(tier: Tier, ingest: bool, leaving: set<nat>)
    | Cancel(id: nat)

  function IngestGrants(g: seq<Grant>): nat {
    if g == [] then 0
    else (if IsIngest(g[0]) then 1 else 0) + IngestGrants(g[1..])
  }

  predicate IsIngest(g: Grant) {
    g.tier == ReadAhead && !g.waiter.borrowsReserve
  }

  /** Only read-ahead asks borrow; a permit is returned by someone who holds it. */
  ghost predicate Enabled(w: World, step: Step)
    requires w.sem.Wf()
  {
    match step
    case Ask(tier, borrows, _) => borrows ==> tier == ReadAhead
    case Return(tier, ingest, _) =>
      && w.sem.Held(tier) > 0
      && (ingest ==> tier == ReadAhead && w.ingest > 0)
      && (tier == ReadAhead && !ingest ==> w.sem.Held(tier) > w.ingest)
    case Cancel(_) => true
  }

  function Next(w: World, step: Step): World
    requires w.sem.Wf() && Enabled(w, step)
  {
    match step
    case Ask(tier, borrows, leaving) =>
      var (s, g) := Dispatched(w.sem.Enqueue(tier, borrows), leaving);
      World(s, w.ingest + IngestGrants(g))
    case Return(tier, ingest, leaving) =>
      var (s, g) := Dispatched(w.sem.Give(tier), leaving);
      World(s, (if ingest then w.ingest - 1 else w.ingest) + IngestGrants(g))
    case Cancel(id) => World(w.sem.Cancelled(id), w.ingest)
  }

  /** At most `total` permits are out, only read-ahead may sit in the demand reserve,
      every queued borrower is a read-ahead ask, and nothing queued can be granted. */
  ghost predicate Inv(w: World) {
    && w.sem.Wf()
    && Split(w.sem, w.ingest)
    && TaggedRight(w.sem)
    && w.sem.NextGrantable().None?
  }

  ghost predicate Split(s: State, ingest: nat)
    requires s.Wf()
  {
    ingest <= s.Held(ReadAhead) && s.Held(Repair) + ingest <= s.Share()
  }

  ghost predicate TaggedRight(s: State)
    requires s.Shaped()
  {
    forall t, i {:trigger s.Queue(t)[i]} :: 0 <= i < |s.Queue(t)| && t != ReadAhead ==>
      !s.Queue(t)[i].borrowsReserve
  }

  ghost predicate Run(w: World, steps: seq<Step>, end: World)
    decreases |steps|
  {
    if steps == [] then w == end
    else w.sem.Wf() && Enabled(w, steps[0]) && Run(Next(w, steps[0]), steps[1..], end)
  }

  /** A run of a scheduler made with these limits. */
  ghost predicate RunOf(total: nat, reserved: nat, floor: nat, steps: seq<Step>, end: World) {
    reserved + floor <= total && Run(World(Initial(total, reserved, floor), 0), steps, end)
  }

  ghost predicate Reachable(w: World) {
    exists total, reserved, floor, steps :: RunOf(total, reserved, floor, steps, w)
  }

  // ---- The grant rule -------------------------------------------------------------

  /** With a permit free, both repair guards say the same: the permits held outside
      demand do not fill the share. In particular the part of the reserve read-ahead has
      borrowed never makes a difference to the guard of the repair floor. */
  lemma RepairGuards(s: State)
    requires s.Wf() && s.Free() > 0
    ensures s.Free() > Sat(s.UnmetDemand(), s.ReserveBorrowed()) <==> s.NonDemand() < s.Share()
    ensures s.Free() > s.UnmetDemand() <==> s.NonDemand() < s.Share()
  {
    var d, o := s.Held(Demand), s.NonDemand();
    assert s.Free() == s.total - d - o;
    if d <= s.demandReserved {
      assert s.Free() > s.UnmetDemand() <==> o < s.Share();
      if o < s.Share() {
        assert s.ReserveBorrowed() == 0;
      } else {
        assert s.UnmetDemand() - s.ReserveBorrowed() == s.Free();
      }
    } else {
      assert o < s.Share();
    }
  }

  /** Which states can grant, and to whom: demand first; below its floor repair before
      read-ahead; whoever may not borrow needs room in the share. */
  lemma GrantGuards(s: State)
    requires s.Wf() && s.NextGrantable().Some?
    ensures s.Free() > 0
    ensures
      var (tier, pos) := s.NextGrantable().value;
      && pos < |s.Queue(tier)|
      && (s.Waiting(Demand) ==> tier == Demand)
      && (tier == Repair ==> s.NonDemand() < s.Share())
      && (tier == ReadAhead && !s.Queue(ReadAhead)[pos].borrowsReserve ==>
            s.NonDemand() < s.Share())
      && (tier == ReadAhead && s.Waiting(Repair) ==> s.Held(Repair) >= s.repairFloor)
      && (tier == ReadAhead && s.UnmetRepair() > 0 ==>
            s.ShareFree() > s.UnmetRepair() && s.Free() > s.UnmetRepair() + s.UnmetDemand())
      && (tier != Demand && !(tier == ReadAhead && s.Queue(ReadAhead)[pos].borrowsReserve) ==>
            s.Free() > s.UnmetDemand())
  {
    RepairGuards(s);
  }

  /** The state right after a grant. */
  function After(s: State): State
    requires s.Wf() && s.NextGrantable().Some?
  {
    var (tier, pos) := s.NextGrantable().value;
    s.Remove(tier, pos).Take(tier)
  }

  /** A grant at the read-ahead tier is never made over a queued repair ask below the
      floor; and while repair holds permits below its floor, it leaves the whole unmet
      floor free, in the share and on top of what demand has reserved. */
  lemma ReadAheadRespectsRepairFloor(s: State)
    requires s.Wf() && s.NextGrantable().Some?
    requires s.NextGrantable().value.0 == ReadAhead
    ensures s.Waiting(Repair) ==> s.Held(Repair) >= s.repairFloor
    ensures 0 < s.Held(Repair) < s.repairFloor ==>
      var unmet := s.repairFloor - s.Held(Repair);
      && After(s).ShareFree() >= unmet
      && After(s).Free() >= unmet + After(s).UnmetDemand()
  {
    GrantGuards(s);
  }

  /** Ingest and repair leave demand its unmet reserve, and a grant that ends up inside
      the reserve goes to a borrowing read-ahead ask, with no demand ask queued and
      repair idle or at its floor. */
  ghost predicate BorrowsRightly(s: State)
    requires s.Wf() && s.NextGrantable().Some?
  {
    var (tier, pos) := s.NextGrantable().value;
    && pos < |s.Queue(tier)|
    && var borrower := tier == ReadAhead && s.Queue(ReadAhead)[pos].borrowsReserve;
       && (tier != Demand && !borrower ==> After(s).Free() >= After(s).UnmetDemand())
       && (tier != Demand && After(s).NonDemand() > s.Share() ==>
             && borrower
             && !s.Waiting(Demand)
             && (s.Held(Repair) >= s.repairFloor
                 || (s.Held(Repair) == 0 && !s.Waiting(Repair))))
  }

  lemma OnlyReadAheadBorrows(s: State)
    requires s.Wf() && s.NextGrantable().Some?
    ensures BorrowsRightly(s)
  {
    GrantGuards(s);
  }

  /** A repair ask below the floor is next as soon as the share has room: read-ahead
      cannot hold it back any longer than it takes to empty what it borrowed. */
  lemma RepairBelowFloorIsNext(s: State)
    requires s.Wf() && s.Free() > 0 && !s.Waiting(Demand)
    requires s.Waiting(Repair) && s.Held(Repair) < s.repairFloor
    ensures s.NonDemand() < s.Share() <==> s.NextGrantable() == Some((Repair, 0))
    ensures s.NonDemand() >= s.Share() <==> s.NextGrantable() == None
  {
    RepairGuards(s);
    if s.NextGrantable().Some? {
      GrantGuards(s);
    }
  }

  // ---- Every grant of every dispatch ----------------------------------------------

  /** The states in which the granting loop picks its grants, in order. */
  ghost function GrantPoints(s: State, leaving: set<nat>): (r: seq<State>)
    requires s.Wf()
    ensures forall p :: p in r ==> p.Wf() && p.NextGrantable().Some?
    decreases s.QueuedTotal()
  {
    if s.NextGrantable().None? then []
    else [s] + GrantPoints(Handed(s, leaving).0, leaving)
  }

  /** The grant picked in a state. */
  function Pick(p: State): Grant
    requires p.Wf() && p.NextGrantable().Some?
  {
    var (tier, pos) := p.NextGrantable().value;
    Grant(tier, p.Queue(tier)[pos])
  }

  /** The grants picked in some states, but for those whose waiter has left. */
  ghost function Picks(points: seq<State>, leaving: set<nat>): seq<Grant>
    requires forall p :: p in points ==> p.Wf() && p.NextGrantable().Some?
  {
    if points == [] then []
    else
      (if Pick(points[0]).waiter.id in leaving then [] else [Pick(points[0])])
      + Picks(points[1..], leaving)
  }

  /** The permits a granting loop sends are the ones picked at its grant points. */
  lemma {:induction false} DrainSendsThePicks(s: State, leaving: set<nat>)
    requires s.Wf()
    ensures Drain(s, leaving).1 == Picks(GrantPoints(s, leaving), leaving)
    decreases s.QueuedTotal()
  {
    if s.NextGrantable().Some? {
      var next := Handed(s, leaving).0;
      DrainSendsThePicks(next, leaving);
      assert GrantPoints(s, leaving)[1..] == GrantPoints(next, leaving);
    }
  }

  /** No queued entry belongs to an asker that had gone away before the dispatch. */
  ghost predicate NoneClosed(s: State)
    requires s.Shaped()
  {
    forall t, w {:trigger w in s.Queue(t)} :: w in s.Queue(t) ==> !w.closed
  }

  /** A read-ahead grant is not made over a queued repair ask below the floor; and with
      repair holding part of its floor it leaves the rest free, in the share and besides
      what demand has reserved. */
  ghost predicate Respectful(p: State)
    requires p.Wf() && p.NextGrantable().Some?
  {
    p.NextGrantable().value.0 == ReadAhead ==>
      && (p.Waiting(Repair) ==> p.Held(Repair) >= p.repairFloor)
      && (0 < p.Held(Repair) < p.repairFloor ==>
            After(p).ShareFree() >= p.repairFloor - p.Held(Repair)
            && After(p).Free() >= p.repairFloor - p.Held(Repair) + After(p).UnmetDemand())
  }

  lemma {:induction false} PointsAreLive(s: State, leaving: set<nat>, p: State)
    requires s.Wf() && NoneClosed(s) && p in GrantPoints(s, leaving)
    ensures NoneClosed(p) && SameLimits(s, p)
    decreases s.QueuedTotal()
  {
    if p != s {
      var (tier, pos) := s.NextGrantable().value;
      var s1 := s.Remove(tier, pos);
      var next := Handed(s, leaving).0;
      assert forall t :: next.Queue(t) == s1.Queue(t);
      assert forall t, w {:trigger w in s1.Queue(t)} :: w in s1.Queue(t) ==> w in s.Queue(t);
      PointsAreLive(next, leaving, p);
    }
  }

  /** The state an ask or a return dispatches: the ask queued, the permit given back. */
  function Start(w: World, step: Step): (s: State)
    requires w.sem.Wf() && Enabled(w, step) && !step.Cancel?
    ensures s.Wf()
  {
    match step
    case Ask(tier, borrows, _) => w.sem.Enqueue(tier, borrows)
    case Return(tier, _, _) => w.sem.Give(tier)
  }

  /** Every grant of every run: whatever ask or return comes in whatever state a run
      reaches, and whichever waiters leave meanwhile, each permit its dispatch sends is
      picked in a state where nobody queued had gone away before; every pick respects the
      repair floor, and none but borrowing read-ahead takes from the demand reserve. */
  lemma EveryGrantRespectsRepairFloor(w: World, step: Step)
    requires Reachable(w) && w.sem.Wf() && Enabled(w, step) && !step.Cancel?
    ensures
      var pruned := Start(w, step).Pruned();
      var points := GrantPoints(pruned, step.leaving);
      && Next(w, step).sem == Dispatched(Start(w, step), step.leaving).0
      && Dispatched(Start(w, step), step.leaving).1 == Picks(points, step.leaving)
      && (forall p :: p in points ==> NoneClosed(p) && SameLimits(w.sem, p))
      && (forall p :: p in points ==> Respectful(p) && BorrowsRightly(p))
  {
    ReachableInv(w);
    var pruned := Start(w, step).Pruned();
    var points := GrantPoints(pruned, step.leaving);
    DrainSendsThePicks(pruned, step.leaving);
    forall p | p in points ensures NoneClosed(p) && SameLimits(w.sem, p) {
      PointsAreLive(pruned, step.leaving, p);
    }
    forall p | p in points ensures Respectful(p) && BorrowsRightly(p) {
      OnlyReadAheadBorrows(p);
      if p.NextGrantable().value.0 == ReadAhead {
        ReadAheadRespectsRepairFloor(p);
      }
    }
  }

  // ---- The invariant --------------------------------------------------------------

  lemma LiveKeepsTags(q: seq<Waiter>)
    requires forall i :: 0 <= i < |q| ==> !q[i].borrowsReserve
    ensures forall i :: 0 <= i < |Live(q)| ==> !Live(q)[i].borrowsReserve
  {
    forall i | 0 <= i < |Live(q)| ensures !Live(q)[i].borrowsReserve {
      assert Live(q)[i] in q;
    }
  }

  lemma PrunedKeeps(s: State)
    requires s.Wf() && TaggedRight(s)
    ensures s.Pruned().Wf() && TaggedRight(s.Pruned())
    ensures s.Pruned().QueuedTotal() <= s.QueuedTotal()
  {
    var p := s.Pruned();
    forall t, i {:trigger p.Queue(t)[i]} | 0 <= i < |p.Queue(t)| && t != ReadAhead
      ensures !p.Queue(t)[i].borrowsReserve
    {
      assert forall j :: 0 <= j < |s.Queue(t)| ==> !s.Queue(t)[j].borrowsReserve;
      LiveKeepsTags(s.Queue(t));
    }
  }

  lemma HandedKeeps(s: State, leaving: set<nat>, ingest: nat)
    requires s.Wf() && Split(s, ingest) && TaggedRight(s) && s.NextGrantable().Some?
    ensures
      var (s1, sent) := Handed(s, leaving);
      && Split(s1, ingest + IngestGrants(sent)) && TaggedRight(s1)
      && SameLimits(s, s1)
      && s1.HeldTotal() + s1.QueuedTotal() <= s.HeldTotal() + s.QueuedTotal()
      && s1.QueuedTotal() < s.QueuedTotal()
  {
    GrantGuards(s);
    var (tier, pos) := s.NextGrantable().value;
    var s1 := s.Remove(tier, pos);
    forall t, i {:trigger s1.Queue(t)[i]} | 0 <= i < |s1.Queue(t)| && t != ReadAhead
      ensures !s1.Queue(t)[i].borrowsReserve
    {
      var j := if t == tier && i >= pos then i + 1 else i;
      assert s1.Queue(t)[i] == s.Queue(t)[j];
    }
    var w := s.Queue(tier)[pos];
    if w.id !in leaving {
      var s2 := s1.Take(tier);
      assert forall t :: s2.Queue(t) == s1.Queue(t);
      var sent := [Grant(tier, w)];
      assert IngestGrants(sent) == (if IsIngest(sent[0]) then 1 else 0) + IngestGrants([]);
    }
  }

  ghost predicate SameLimits(s: State, t: State) {
    t.total == s.total && t.demandReserved == s.demandReserved && t.repairFloor == s.repairFloor
  }

  lemma IngestGrantsSplit(a: seq<Grant>, b: seq<Grant>)
    ensures IngestGrants(a + b) == IngestGrants(a) + IngestGrants(b)
  {
    if a == [] {
      assert a + b == b;
    } else {
      assert (a + b)[1..] == a[1..] + b;
      IngestGrantsSplit(a[1..], b);
    }
  }

  lemma {:induction false} DrainKeeps(s: State, leaving: set<nat>, ingest: nat)
    requires s.Wf() && Split(s, ingest) && TaggedRight(s)
    ensures
      var (end, sent) := Drain(s, leaving);
      && end.Wf() && Split(end, ingest + IngestGrants(sent)) && TaggedRight(end)
      && end.NextGrantable().None?
      && SameLimits(s, end)
      && end.HeldTotal() + end.QueuedTotal() <= s.HeldTotal() + s.QueuedTotal()
    decreases s.QueuedTotal()
  {
    if s.NextGrantable().Some? {
      HandedKeeps(s, leaving, ingest);
      var (s1, sent) := Handed(s, leaving);
      DrainKeeps(s1, leaving, ingest + IngestGrants(sent));
      IngestGrantsSplit(sent, Drain(s1, leaving).1);
    }
  }

  /** Closing an entry does not change what can be granted: the grant rule does not look
      at it. */
  lemma CancelKeeps(s: State, id: nat)
    requires s.Wf() && TaggedRight(s)
    ensures
      var c := s.Cancelled(id);
      && c.Wf() && TaggedRight(c) && c.NextGrantable() == s.NextGrantable()
      && c.QueuedTotal() == s.QueuedTotal() && c.HeldTotal() == s.HeldTotal()
  {
    var c := s.Cancelled(id);
    assert forall t :: |c.Queue(t)| == |s.Queue(t)| && c.Held(t) == s.Held(t);
    assert forall t, i {:trigger c.Queue(t)[i]} :: 0 <= i < |c.Queue(t)| ==>
      c.Queue(t)[i].borrowsReserve == s.Queue(t)[i].borrowsReserve;
    var fits := s.ShareFree() > s.UnmetRepair() && s.Free() > s.UnmetRepair() + s.UnmetDemand();
    ClosingKeepsPosition(s.Queue(ReadAhead), id, s.UnmetRepair() == 0, fits);
  }

  lemma ClosingKeepsPosition(q: seq<Waiter>, id: nat, borrowOpen: bool, fits: bool)
    ensures Position(Close(q, id), borrowOpen, fits) == Position(q, borrowOpen, fits)
  {
    var c := Close(q, id);
    var p, r := Position(c, borrowOpen, fits), Position(q, borrowOpen, fits);
    assert forall i :: 0 <= i < |q| ==> c[i].borrowsReserve == q[i].borrowsReserve;
    assert p.Some? ==> fits || (borrowOpen && q[p.value].borrowsReserve);
    assert r.Some? ==> fits || (borrowOpen && c[r.value].borrowsReserve);
  }

  /** One step of any kind keeps the invariant. An ask adds at most one to what is held
      or queued, a release takes at least one off. */
  lemma NextKeepsInv(w: World, step: Step)
    requires Inv(w) && Enabled(w, step)
    ensures Inv(Next(w, step)) && SameLimits(w.sem, Next(w, step).sem)
    ensures Load(Next(w, step).sem)
      <= Load(w.sem) + (if step.Ask? then 1 else 0) - (if step.Return? then 1 else 0)
  {
    match step {
      case Cancel(id) =>
        CancelKeeps(w.sem, id);
      case _ =>
        hide Inv;
        DispatchKeepsInv(w, step);
    }
  }

  lemma DispatchKeepsInv(w: World, step: Step)
    requires Inv(w) && Enabled(w, step) && !step.Cancel?
    ensures Inv(Next(w, step)) && SameLimits(w.sem, Next(w, step).sem)
    ensures Load(Next(w, step).sem)
      <= Load(w.sem) + (if step.Ask? then 1 else 0) - (if step.Return? then 1 else 0)
  {
    hide Drain, TaggedRight, State.NextGrantable;
    StartKeeps(w, step);
    var s := Start(w, step);
    PrunedKeeps(s);
    DrainKeeps(s.Pruned(), step.leaving, if step.Return? && step.ingest then w.ingest - 1 else w.ingest);
  }

  /** An ask queued or a permit given back leaves the split and the tags right. */
  lemma StartKeeps(w: World, step: Step)
    requires Inv(w) && Enabled(w, step) && !step.Cancel?
    ensures
      var s := Start(w, step);
      && TaggedRight(s) && Split(s, if step.Return? && step.ingest then w.ingest - 1 else w.ingest)
      && Split(s.Pruned(), if step.Return? && step.ingest then w.ingest - 1 else w.ingest)
      && SameLimits(w.sem, s) && SameLimits(s, s.Pruned())
      && Load(s) == Load(w.sem) + (if step.Ask? then 1 else 0) - (if step.Return? then 1 else 0)
  {
    hide State.NextGrantable;
    var s := Start(w, step);
    forall t, i {:trigger s.Queue(t)[i]} | 0 <= i < |s.Queue(t)| && t != ReadAhead
      ensures !s.Queue(t)[i].borrowsReserve
    {
      if i < |w.sem.Queue(t)| {
        assert s.Queue(t)[i] == w.sem.Queue(t)[i];
      }
    }
  }

  function Load(s: State): nat
    requires s.Shaped()
  {
    s.HeldTotal() + s.QueuedTotal()
  }

  lemma {:induction false} RunKeepsInv(w: World, steps: seq<Step>, end: World)
    requires Inv(w) && Run(w, steps, end)
    ensures Inv(end) && SameLimits(w.sem, end.sem)
    decreases |steps|
  {
    if steps != [] {
      NextKeepsInv(w, steps[0]);
      RunKeepsInv(Next(w, steps[0]), steps[1..], end);
    }
  }

  lemma ReachableInv(w: World)
    requires Reachable(w)
    ensures Inv(w)
  {
    var total, reserved, floor, steps :| RunOf(total, reserved, floor, steps, w);
    RunKeepsInv(World(Initial(total, reserved, floor), 0), steps, w);
  }

  /** In every reachable state at most `total` permits are held, repair and ingest stay
      inside the share, and whatever sits in the demand reserve besides demand is
      borrowing read-ahead. */
  lemma ReserveIsOnlyBorrowedByReadAhead(w: World)
    requires Reachable(w)
    ensures w.sem.Wf()
    ensures w.sem.HeldTotal() <= w.sem.total
    ensures w.sem.Held(Repair) + w.ingest <= w.sem.total - w.sem.demandReserved
    ensures w.sem.ReserveBorrowed() <= w.sem.Held(ReadAhead) - w.ingest
  {
    ReachableInv(w);
  }

  // ---- Progress -------------------------------------------------------------------

  /** With a permit outside the reserve, no reachable state has asks queued while
      nothing is held. */
  lemma NobodyWaitsOnAnIdlePool(w: World)
    requires Reachable(w)
    ensures w.sem.Wf()
    ensures w.sem.total > w.sem.demandReserved && w.sem.HeldTotal() == 0 ==>
      w.sem.QueuedTotal() == 0
  {
    ReachableInv(w);
    if w.sem.total > w.sem.demandReserved && w.sem.HeldTotal() == 0 && w.sem.QueuedTotal() > 0 {
      IdlePoolGrants(w.sem);
    }
  }

  lemma IdlePoolGrants(s: State)
    requires s.Wf() && s.HeldTotal() == 0 && s.total > s.demandReserved
    requires s.QueuedTotal() > 0
    ensures s.NextGrantable().Some?
  {
    RepairGuards(s);
    assert s.ShareFree() > 0 && s.Free() > s.UnmetDemand();
    assert s.Waiting(Demand) || s.Waiting(ReadAhead) || s.Waiting(Repair);
  }

  /** The share is what progress needs: no run ever leaves an ask stuck on a pool nobody
      holds a permit of exactly when some permit lies outside the demand reserve. */
  lemma ProgressNeedsAShare(total: nat, reserved: nat, floor: nat)
    requires reserved + floor <= total
    ensures total > reserved <==>
      forall steps, w :: RunOf(total, reserved, floor, steps, w) ==> !Stuck(w)
  {
    var init := World(Initial(total, reserved, floor), 0);
    if total > reserved {
      forall steps, w | RunOf(total, reserved, floor, steps, w) ensures !Stuck(w) {
        RunKeepsInv(init, steps, w);
        if w.sem.HeldTotal() == 0 && w.sem.QueuedTotal() > 0 {
          IdlePoolGrants(w.sem);
        }
      }
    } else {
      // An ingest ask on a pool that is all reserve is queued for good.
      var ask := Ask(ReadAhead, false, {});
      var queued := init.sem.Enqueue(ReadAhead, false);
      var q := queued.waiters[1][0];
      assert queued.waiters[1] == [q] && Live([q]) == [q] by {
        assert Live([q]) == [q] + Live([q][1..]);
      }
      assert queued.Pruned() == queued;
      assert queued.NextGrantable() == None;
      assert Dispatched(queued, {}) == (queued, []);
      var end := World(queued, 0);
      assert Next(init, ask) == end;
      assert Run(end, [ask][1..], end);
      assert RunOf(total, reserved, floor, [ask], end);
      assert Stuck(end);
    }
  }

  /** Asks are queued and nobody holds a permit, so no release will ever serve them. */
  ghost predicate Stuck(w: World) {
    w.sem.Wf() && w.sem.HeldTotal() == 0 && w.sem.QueuedTotal() > 0
  }

  /** From any reachable state, with no new asks, at most `held + queued` releases empty
      every queue: a run of that many releases, or of fewer after which nothing is left to
      release, ends with no ask queued. */
  lemma ReleasesEmptyQueues(w: World, steps: seq<Step>, end: World)
    requires Reachable(w) && w.sem.total > w.sem.demandReserved
    requires Run(w, steps, end)
    requires forall i :: 0 <= i < |steps| ==> steps[i].Return?
    ensures w.sem.Wf() && end.sem.Wf()
    ensures |steps| <= Load(w.sem)
    ensures |steps| == Load(w.sem) || end.sem.HeldTotal() == 0 ==> end.sem.QueuedTotal() == 0
  {
    ReachableInv(w);
    ReleasesUnload(w, steps, end);
    if end.sem.HeldTotal() == 0 && end.sem.QueuedTotal() > 0 {
      IdlePoolGrants(end.sem);
    }
  }

  lemma {:induction false} ReleasesUnload(w: World, steps: seq<Step>, end: World)
    requires Inv(w) && Run(w, steps, end)
    requires forall i :: 0 <= i < |steps| ==> steps[i].Return?
    ensures Inv(end) && SameLimits(w.sem, end.sem)
    ensures Load(end.sem) + |steps| <= Load(w.sem)
    decreases |steps|
  {
    if steps != [] {
      NextKeepsInv(w, steps[0]);
      ReleasesUnload(Next(w, steps[0]), steps[1..], end);
    }
  }
}
