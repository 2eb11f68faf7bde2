/** The three-tier permit scheduler.

    Everything the source does under its lock is one method here. A permit is handed
    out by sending it to the waiter; the sends of one dispatch come back as a list of
    grants. A waiter whose task goes away between the prune and the send is named in
    `leaving`: the send to it fails and is undone. */
module PrioritizedSemaphores {
  import opened Wrappers

  const DEFAULT_REPAIR_FLOOR_PCT: nat := 25

  datatype Tier = Demand | ReadAhead | Repair

  function Idx(t: Tier): (i: nat)
    ensures i < 3
  {
    match t
    case Demand => 0
    case ReadAhead => 1
    case Repair => 2
  }

  /** A queued ask. `closed` says that the asking task has gone away; the entry stays
      in its queue until the next prune. */
  datatype Waiter = Waiter(id: nat, borrowsReserve: bool, closed: bool)

  datatype Grant = Grant(tier: Tier, waiter: Waiter)

  datatype State = State(
    total: nat,
    demandReserved: nat,
    repairFloor: nat,
    held: seq<nat>,
    waiters: seq<seq<Waiter>>,
    nextId: nat)
  {
    ghost predicate Shaped() {
      |held| == 3 && |waiters| == 3 && demandReserved + repairFloor <= total
    }

    function HeldTotal(): nat
      requires Shaped()
    {
      held[0] + held[1] + held[2]
    }

    function Held(t: Tier): nat
      requires Shaped()
    {
      held[Idx(t)]
    }

    function Queue(t: Tier): seq<Waiter>
      requires Shaped()
    {
      waiters[Idx(t)]
    }

    /** What every reachable state satisfies at least: no more permits are out than exist. */
    ghost predicate Wf() {
      Shaped() && HeldTotal() <= total
    }

    function Free(): nat
      requires Shaped()
    {
      Sat(total, HeldTotal())
    }

    predicate Waiting(t: Tier)
      requires Shaped()
    {
      Queue(t) != []
    }

    function UnmetDemand(): nat
      requires Shaped()
    {
      Sat(demandReserved, Held(Demand))
    }

    /** Permits held by ingest, read-ahead and repair. */
    function NonDemand(): nat
      requires Shaped()
    {
      HeldTotal() - Held(Demand)
    }

    /** The permits outside the demand reserve. */
    function Share(): nat
      requires Shaped()
    {
      total - demandReserved
    }

    function ReserveBorrowed(): nat
      requires Shaped()
    {
      Sat(NonDemand(), Share())
    }

    function UnmetRepair(): nat
      requires Shaped()
    {
      if Held(Repair) > 0 || Waiting(Repair) then Sat(repairFloor, Held(Repair)) else 0
    }

    function ShareFree(): nat
      requires Shaped()
    {
      Sat(Share(), NonDemand())
    }

    /** The tier and queue position of the waiter that gets the next permit. */
    function NextGrantable(): Option<(Tier, nat)>
      requires Shaped()
    {
      if Free() == 0 then None
      else if Waiting(Demand) then Some((Demand, 0))
      else
        var reserveLeft := Sat(UnmetDemand(), ReserveBorrowed());
        if Waiting(Repair) && Held(Repair) < repairFloor && Free() > reserveLeft then
          Some((Repair, 0))
        else
          var unmetRepair := UnmetRepair();
          var fitsShare := ShareFree() > unmetRepair && Free() > unmetRepair + UnmetDemand();
          match Position(Queue(ReadAhead), unmetRepair == 0, fitsShare)
          case Some(pos) => Some((ReadAhead, pos))
          case None =>
            if Waiting(Repair) && Free() > UnmetDemand() then Some((Repair, 0)) else None
    }

    /** Live or closed entries in all queues. */
    function QueuedTotal(): nat
      requires Shaped()
    {
      |waiters[0]| + |waiters[1]| + |waiters[2]|
    }

    function Remove(t: Tier, pos: nat): State
      requires Shaped() && pos < |Queue(t)|
    {
      var q := Queue(t);
      this.(waiters := waiters[Idx(t) := q[..pos] + q[pos + 1..]])
    }

    function Take(t: Tier): State
      requires Shaped()
    {
      this.(held := held[Idx(t) := Held(t) + 1])
    }

    function Give(t: Tier): State
      requires Shaped() && Held(t) > 0
    {
      this.(held := held[Idx(t) := Held(t) - 1])
    }

    function Enqueue(t: Tier, borrowsReserve: bool): State
      requires Shaped()
    {
      this.(waiters := waiters[Idx(t) := Queue(t) + [Waiter(nextId, borrowsReserve, false)]],
            nextId := nextId + 1)
    }

    function Pruned(): State
      requires Shaped()
    {
      this.(waiters := [Live(waiters[0]), Live(waiters[1]), Live(waiters[2])])
    }

    function Cancelled(id: nat): State
      requires Shaped()
    {
      this.(waiters := [Close(waiters[0], id), Close(waiters[1], id), Close(waiters[2], id)])
    }
  }

  /** The first waiter that may be granted: one that borrows when borrowing is open, or
      any when the share has room. */
  function Position(q: seq<Waiter>, borrowOpen: bool, fitsShare: bool): (r: Option<nat>)
    ensures r.Some? ==> r.value < |q| && (fitsShare || (borrowOpen && q[r.value].borrowsReserve))
    ensures r.Some? ==>
      forall i :: 0 <= i < r.value ==> !fitsShare && !(borrowOpen && q[i].borrowsReserve)
    ensures r.None? ==>
      forall i :: 0 <= i < |q| ==> !fitsShare && !(borrowOpen && q[i].borrowsReserve)
  {
    if q == [] then None
    else if (q[0].borrowsReserve && borrowOpen) || fitsShare then Some(0)
    else
      match Position(q[1..], borrowOpen, fitsShare)
      case Some(i) => Some(i + 1)
      case None => None
  }

  /** The queue without the waiters that have gone away, in order. */
  function Live(q: seq<Waiter>): (r: seq<Waiter>)
    ensures |r| <= |q|
    ensures forall w :: w in r <==> w in q && !w.closed
  {
    if q == [] then []
    else if q[0].closed then Live(q[1..])
    else [q[0]] + Live(q[1..])
  }

  function Close(q: seq<Waiter>, id: nat): (r: seq<Waiter>)
    ensures |r| == |q|
    ensures forall i :: 0 <= i < |q| ==>
      r[i] == if q[i].id == id then q[i].(closed := true) else q[i]
  {
    seq(|q|, i requires 0 <= i < |q| => if q[i].id == id then q[i].(closed := true) else q[i])
  }

  /** Permits free besides those demand has reserved and does not hold. */
  function RoomBeyondDemand(s: State): nat
    requires s.Shaped()
  {
    Sat(s.total, s.Held(ReadAhead) + s.Held(Repair) + Max(s.Held(Demand), s.demandReserved))
  }

  /** Repair, holding permits or asking for some, has not got its floor. */
  predicate FloorOwed(s: State)
    requires s.Shaped()
  {
    s.Held(Repair) < s.repairFloor && (s.Held(Repair) > 0 || s.Queue(Repair) != [])
  }

  /** Every queued ask has a reason to wait: all permits are out; or else no demand ask waits,
      repair waits only for want of a permit outside the reserve, borrowing read-ahead only
      for the repair floor, and read-ahead of either kind only for want of room besides what
      the demand reserve and the repair floor still claim. */
  ghost predicate AllWaitForReason(s: State)
    requires s.Shaped()
  {
    s.HeldTotal() >= s.total
    || (&& s.Queue(Demand) == []
        && (s.Queue(Repair) != [] ==> s.Held(ReadAhead) + s.Held(Repair) + s.demandReserved >= s.total)
        && (forall i :: 0 <= i < |s.Queue(ReadAhead)| && s.Queue(ReadAhead)[i].borrowsReserve ==> FloorOwed(s))
        && (s.Queue(ReadAhead) != [] ==>
              RoomBeyondDemand(s) <= if FloorOwed(s) then s.repairFloor - s.Held(Repair) else 0))
  }

  /** The grant rule stops exactly when every queued ask has its reason. */
  lemma StopsExactlyWhen(s: State)
    requires s.Wf()
    ensures s.NextGrantable().None? <==> AllWaitForReason(s)
  {
    if s.Free() > 0 {
      FitsExactlyWhen(s);
    }
  }

  lemma FitsExactlyWhen(s: State)
    requires s.Wf() && s.Free() > 0
    ensures s.UnmetRepair() == if FloorOwed(s) then s.repairFloor - s.Held(Repair) else 0
    ensures s.ShareFree() > s.UnmetRepair() && s.Free() > s.UnmetRepair() + s.UnmetDemand()
      <==> RoomBeyondDemand(s) > s.UnmetRepair()
  {
  }

  /** One turn of the granting loop: the state after it and the permit it sent, if the
      send went through. */
  function Handed(s: State, leaving: set<nat>): (r: (State, seq<Grant>))
    requires s.Wf() && s.NextGrantable().Some?
    ensures r.0.Wf() && r.0.QueuedTotal() < s.QueuedTotal()
  {
    var (tier, pos) := s.NextGrantable().value;
    var w := s.Queue(tier)[pos];
    var s1 := s.Remove(tier, pos);
    if w.id in leaving then (s1, []) else (s1.Take(tier), [Grant(tier, w)])
  }

  /** What the granting loop does from a pruned state: the state it ends in and the
      permits it sends, in order. */
  function Drain(s: State, leaving: set<nat>): (State, seq<Grant>)
    requires s.Wf()
    decreases s.QueuedTotal()
  {
    if s.NextGrantable().None? then (s, [])
    else
      var (s1, sent) := Handed(s, leaving);
      var (s2, rest) := Drain(s1, leaving);
      (s2, sent + rest)
  }

  function Dispatched(s: State, leaving: set<nat>): (State, seq<Grant>)
    requires s.Wf()
  {
    Drain(s.Pruned(), leaving)
  }

  /** The scheduler itself, updated in place under its lock. */
  class PrioritizedSemaphore {
    const total: nat
    const demandReserved: nat
    const repairFloor: nat
    const held: array<nat>
    const waiters: array<seq<Waiter>>
    var nextId: nat

    ghost predicate Valid()
      reads this, held, waiters
    {
      && held.Length == 3
      && waiters.Length == 3
      && (held as object) != waiters
      && Abs().Wf()
    }

    function Abs(): State
      reads this, held, waiters
    {
      State(total, demandReserved, repairFloor, held[..], waiters[..], nextId)
    }

    /** The source panics unless the floors fit the pool. */
    constructor WithRepairFloor(totalPermits: nat, highPriorityReserved: nat, repairFloor: nat)
      requires highPriorityReserved + repairFloor <= totalPermits
      ensures Valid() && fresh(held) && fresh(waiters)
      ensures Abs() == Initial(totalPermits, highPriorityReserved, repairFloor)
    {
      this.total := totalPermits;
      this.demandReserved := highPriorityReserved;
      this.repairFloor := repairFloor;
      this.held := new nat[3](_ => 0);
      this.waiters := new seq<Waiter>[3](_ => []);
      this.nextId := 0;
      new;
      assert held[..] == [0, 0, 0];
      assert waiters[..] == [[], [], []];
    }

    constructor New(totalPermits: nat, highPriorityReserved: nat)
      requires highPriorityReserved <= totalPermits
      ensures Valid() && fresh(held) && fresh(waiters)
      ensures Abs() == Initial(totalPermits, highPriorityReserved,
                               DefaultFloor(totalPermits, highPriorityReserved))
    {
      this.total := totalPermits;
      this.demandReserved := highPriorityReserved;
      DefaultFloorFits(totalPermits, highPriorityReserved);
      this.repairFloor := DefaultFloor(totalPermits, highPriorityReserved);
      this.held := new nat[3](_ => 0);
      this.waiters := new seq<Waiter>[3](_ => []);
      this.nextId := 0;
      new;
      assert held[..] == [0, 0, 0];
      assert waiters[..] == [[], [], []];
    }

    method Prune()
      requires Valid()
      modifies waiters
      ensures Valid()
      ensures Abs() == old(Abs()).Pruned()
    {
      var i := 0;
      while i < 3
        invariant 0 <= i <= 3
        invariant forall k :: 0 <= k < i ==> waiters[k] == Live(old(waiters[k]))
        invariant forall k :: i <= k < 3 ==> waiters[k] == old(waiters[k])
        invariant held[..] == old(held[..])
      {
        waiters[i] := Live(waiters[i]);
        i := i + 1;
      }
      assert waiters[..] == old(Abs()).Pruned().waiters;
    }

    /** Take a waiter off its queue and send it a permit. A send that fails is undone. */
    method Hand(tier: Tier, pos: nat, leaving: set<nat>) returns (sent: seq<Grant>)
      requires Valid()
      requires Abs().NextGrantable() == Some((tier, pos))
      modifies held, waiters
      ensures Valid()
      ensures (Abs(), sent) == Handed(old(Abs()), leaving)
    {
      ghost var before := Abs();
      var i := Idx(tier);
      var w := waiters[i][pos];
      waiters[i] := waiters[i][..pos] + waiters[i][pos + 1..];
      assert Abs() == before.Remove(tier, pos);
      held[i] := held[i] + 1;
      if w.id in leaving {
        held[i] := held[i] - 1;
        assert Abs() == before.Remove(tier, pos);
        sent := [];
      } else {
        assert Abs() == before.Remove(tier, pos).Take(tier);
        sent := [Grant(tier, w)];
      }
    }

    /** Prune, then grant until nothing can be granted. */
    method Dispatch(leaving: set<nat>) returns (granted: seq<Grant>)
      requires Valid()
      modifies held, waiters
      ensures Valid()
      ensures (Abs(), granted) == Dispatched(old(Abs()), leaving)
      ensures AllWaitForReason(Abs())
    {
      Prune();
      ghost var all := Drain(Abs(), leaving);
      granted := [];
      var next := Abs().NextGrantable();
      while next.Some?
        invariant Valid()
        invariant next == Abs().NextGrantable()
        invariant all.0 == Drain(Abs(), leaving).0
        invariant all.1 == granted + Drain(Abs(), leaving).1
        decreases Abs().QueuedTotal()
      {
        ghost var before, rest := Abs(), Drain(Abs(), leaving).1;
        var sent := Hand(next.value.0, next.value.1, leaving);
        assert rest == sent + Drain(Abs(), leaving).1;
        granted := granted + sent;
        next := Abs().NextGrantable();
      }
      assert granted + [] == granted;
      assert all == (Abs(), granted);
      StopsExactlyWhen(Abs());
    }

    /** Queue an ask and dispatch. */
    method Acquire(tier: Tier, borrowsReserve: bool, leaving: set<nat>)
      returns (id: nat, granted: seq<Grant>)
      requires Valid()
      modifies this, held, waiters
      ensures Valid()
      ensures id == old(nextId)
      ensures (Abs(), granted) == Dispatched(old(Abs()).Enqueue(tier, borrowsReserve), leaving)
      ensures AllWaitForReason(Abs())
    {
      id := nextId;
      ghost var before := Abs();
      var i := Idx(tier);
      waiters[i] := waiters[i] + [Waiter(id, borrowsReserve, false)];
      nextId := nextId + 1;
      assert Abs() == before.Enqueue(tier, borrowsReserve);
      granted := Dispatch(leaving);
    }

    /** A permit comes back: it was held, so its count is not zero. */
    method Release(tier: Tier, leaving: set<nat>) returns (granted: seq<Grant>)
      requires Valid()
      requires Abs().Held(tier) > 0
      modifies held, waiters
      ensures Valid()
      ensures (Abs(), granted) == Dispatched(old(Abs()).Give(tier), leaving)
      ensures AllWaitForReason(Abs())
    {
      ghost var before := Abs();
      var i := Idx(tier);
      held[i] := held[i] - 1;
      assert Abs() == before.Give(tier);
      granted := Dispatch(leaving);
    }

    /** The asking task goes away. Its entry is only marked. */
    method Cancel(id: nat)
      requires Valid()
      modifies waiters
      ensures Valid()
      ensures Abs() == old(Abs()).Cancelled(id)
    {
      ghost var before := Abs();
      waiters[0], waiters[1], waiters[2] :=
        Close(waiters[0], id), Close(waiters[1], id), Close(waiters[2], id);
      assert waiters[..] == before.Cancelled(id).waiters;
    }
  }

  function Initial(total: nat, reserved: nat, floor: nat): State {
    State(total, reserved, floor, [0, 0, 0], [[], [], []], 0)
  }

  /** A quarter of the pool, rounded up, capped one below the share. */
  function DefaultFloor(total: nat, reserved: nat): nat
    requires reserved <= total
  {
    Min(DivCeil(total * DEFAULT_REPAIR_FLOOR_PCT, 100), Sat(total - reserved, 1))
  }

  /** The default floor is one the explicit constructor accepts, and it always leaves
      read-ahead a permit of the share when there is a share. It is a quarter of the pool,
      rounded up, unless the share is too small for that. */
  lemma DefaultFloorFits(total: nat, reserved: nat)
    requires reserved <= total
    ensures reserved + DefaultFloor(total, reserved) <= total
    ensures total > reserved ==> reserved + DefaultFloor(total, reserved) < total
    ensures 4 * DefaultFloor(total, reserved) < total + 4
    ensures 4 * DefaultFloor(total, reserved) >= total || DefaultFloor(total, reserved) + 1 >= total - reserved
  {
    var pct := total * DEFAULT_REPAIR_FLOOR_PCT;
    assert DivCeil(pct, 100) * 100 <= pct + 99;
  }
}
