/** One census from end to end, and what its verdict says of the answers the pools gave. */
module CensusRuns {
  import opened Wrappers
  import opened MapFacts
  import opened Articles
  import opened Census
  import opened CensusVerdicts
  import opened CensusSettling
  import opened CensusLedger
  import opened HoleLedgers
  import H = HoleModel
  import F = Fingerprints

  /** What a census goes by: the cache it starts with, when, and what each pool answers. */
  datatype Seen = Seen(cache: Cache, now: nat, pools: nat, answers: Answers)
  {
    /** Some pool has the article, or had it when a cached answer was got. */
    ghost predicate There(id: string) {
      if Fresh(cache, id, now) then cache[id].0 == Has else SomePoolHas(answers, pools, id)
    }

    /** There are pools and none has the article, or so it was when a cached answer was got. */
    ghost predicate Missing(id: string) {
      if Fresh(cache, id, now) then cache[id].0 == ArticleState.Missing
      else pools > 0 && AllPoolsAbsent(answers, pools, id)
    }
  }

  /** The states are what was seen. */
  ghost predicate AsSeen(states: Settled, seen: Seen, ids: seq<string>) {
    && (forall id :: id in states <==> id in ids)
    && (forall id :: id in states ==>
          && (states[id] == Has <==> seen.There(id))
          && (states[id] == ArticleState.Missing <==> seen.Missing(id)))
  }

  /** A way things may be in which nothing that was seen there is lost. */
  ghost predicate Spares(t: Truth, target: CensusTarget, seen: Seen) {
    forall id :: id in AllIds(target) && seen.There(id) ==> id !in t.lost
  }

  /** A way things may be in which all that was seen missing is lost. */
  ghost predicate LosesMissing(t: Truth, target: CensusTarget, seen: Seen) {
    forall id :: id in AllIds(target) && seen.Missing(id) ==> id in t.lost
  }

  /** An intact verdict: every article of the set's files that has bytes was seen there, and
      nothing is lost as long as what was seen there is not. A repairable one: whatever
      becomes of all other articles, recovery covers it. One beyond repair: whatever becomes
      of all but the missing ones, it does not. */
  ghost predicate VerdictStands(target: CensusTarget, seen: Seen, verdict: Option<Verdict>)
    requires target.recovery.Some?
  {
    var s := target.recovery.value;
    && (verdict == Some(Intact) ==>
          && (forall fi, a :: 0 <= fi < |s.files| && IsCarried(target.files, s.files[fi].name, a) && a.len > 0 ==>
                seen.There(a.messageId))
          && (forall t :: Spares(t, target, seen) ==> LostInSet(target, t) == {}))
    && (verdict == Some(Repairable) ==> forall t :: Spares(t, target, seen) ==> Mendable(target.files, s, t))
    && (verdict == Some(BeyondRepair) ==> forall t :: LosesMissing(t, target, seen) ==> !Mendable(target.files, s, t))
  }

  /** The slices of the set lost in one truth, but those of files not carried. */
  ghost function LostInSet(target: CensusTarget, t: Truth): set<(nat, nat)>
    requires target.recovery.Some?
  {
    LostSlices(target.files, target.recovery.value, t, |target.recovery.value.files|)
  }

  // ---- More lost, fewer mended ----------------------------------------------------

  lemma {:induction false} MoreIsLost(files: seq<CensusFile>, s: Par2RecoverySet, t: Truth, t': Truth, n: nat)
    requires n <= |s.files| && t.lost <= t'.lost && t.gone == t'.gone
    ensures LostSlices(files, s, t, n) <= LostSlices(files, s, t', n)
  {
    if n > 0 {
      MoreIsLost(files, s, t, t', n - 1);
      assert LostOf(files, s, t, n - 1) <= LostOf(files, s, t', n - 1);
    }
  }

  lemma LessIsMendable(files: seq<CensusFile>, s: Par2RecoverySet, t: Truth, t': Truth)
    requires t.lost <= t'.lost && t.gone == t'.gone
    ensures LostSlices(files, s, t, |s.files|) <= LostSlices(files, s, t', |s.files|)
    ensures Mendable(files, s, t') ==> Mendable(files, s, t)
  {
    hide LostSlices;
    MoreIsLost(files, s, t, t', |s.files|);
    var few, many := LostSlices(files, s, t, |s.files|), LostSlices(files, s, t', |s.files|);
    assert many == few + (many - few);
    BlocksMonotone(s.volumes, v => Alive(v, t'.lost), v => Alive(v, t.lost));
  }

  // ---- The verdict ----------------------------------------------------------------

  lemma AllowedByMore(t: Truth, target: CensusTarget, loss: Losses, states: Settled, seen: Seen)
    requires FollowStates(loss, states) && AsSeen(states, seen, AllIds(target)) && Spares(t, target, seen)
    ensures Allowed(t.(lost := t.lost + IdsWith(AllIds(target), loss, Certain)), target, loss)
  {
    hide AllIds, Seen.There, Seen.Missing;
  }

  lemma AllowedByLess(t: Truth, target: CensusTarget, loss: Losses, states: Settled, seen: Seen)
    requires FollowStates(loss, states) && AsSeen(states, seen, AllIds(target)) && LosesMissing(t, target, seen)
    ensures Allowed(t.(lost := t.lost - IdsWith(AllIds(target), loss, Unharmed)), target, loss)
  {
    hide AllIds, Seen.There, Seen.Missing;
  }

  /** An article that has bytes and is lost loses a slice. */
  lemma LostBytesLoseASlice(target: CensusTarget, fi: nat, a: ArticleSpan)
    requires target.recovery.Some? && fi < |target.recovery.value.files|
    requires IsCarried(target.files, target.recovery.value.files[fi].name, a) && a.len > 0
    requires InFile(target.files, target.recovery.value)
    ensures LostInSet(target, Truth({a.messageId}, {})) != {}
  {
    hide SliceCount, LostSlices, Range;
    var s, t := target.recovery.value, Truth({a.messageId}, {});
    var slice := if s.sliceSize == 0 then 1 else s.sliceSize;
    var size, k := s.files[fi].size, a.offset / slice;
    assert IsHit(a, slice, size, k, a.offset);
    HitSliceExists(a, slice, size, k);
    assert k in LostOf(target.files, s, t, fi);
    LostSlicesHave(target.files, s, t, |s.files|, fi, k);
  }

  lemma {:induction false} LostSlicesHave(
      files: seq<CensusFile>, s: Par2RecoverySet, t: Truth, n: nat, fi: nat, k: nat)
    requires fi < n <= |s.files| && k in LostOf(files, s, t, fi)
    ensures (fi, k) in LostSlices(files, s, t, n)
  {
    hide LostOf;
    if fi < n - 1 {
      LostSlicesHave(files, s, t, n - 1, fi, k);
    }
  }

  /** Whatever verdict is given on states that were seen, it stands. */
  lemma GivenVerdictsStand(target: CensusTarget, seen: Seen, states: Settled, loss: Losses, r: Report)
    requires target.recovery.Some? && InFile(target.files, target.recovery.value)
    requires FollowStates(loss, states) && AsSeen(states, seen, AllIds(target)) && Accounts(target, loss, r)
    ensures VerdictStands(target, seen, r.verdict)
  {
    hide LostSlices, Blocks, Allowed, InFile, Accounts, FollowStates, AsSeen, Spares, LosesMissing, AllIds, IdsWith,
         Mendable, IsCarried;
    var s := target.recovery.value;
    VerdictIsExact(target, loss, r);
    forall t | Spares(t, target, seen)
      ensures r.verdict == Some(Intact) ==> LostInSet(target, t) == {}
      ensures r.verdict == Some(Repairable) ==> Mendable(target.files, s, t)
    {
      AllowedByMore(t, target, loss, states, seen);
      LessIsMendable(target.files, s, t, t.(lost := t.lost + IdsWith(AllIds(target), loss, Certain)));
    }
    forall t | LosesMissing(t, target, seen) ensures r.verdict == Some(BeyondRepair) ==> !Mendable(target.files, s, t) {
      AllowedByLess(t, target, loss, states, seen);
      LessIsMendable(target.files, s, t.(lost := t.lost - IdsWith(AllIds(target), loss, Unharmed)), t);
    }
    forall fi, a | 0 <= fi < |s.files| && IsCarried(target.files, s.files[fi].name, a) && a.len > 0
      ensures r.verdict == Some(Intact) ==> seen.There(a.messageId)
    {
      LostBytesLoseASlice(target, fi, a);
      if !seen.There(a.messageId) {
        OneIsSpared(target, seen, a.messageId);
      }
    }
  }

  lemma OneIsSpared(target: CensusTarget, seen: Seen, id: string)
    requires !seen.There(id)
    ensures Spares(Truth({id}, {}), target, seen)
  {
  }

  /** Without a recovery set the verdict is intact exactly when every article was seen there;
      it is beyond repair only when some article was seen missing. */
  lemma GivenVerdictsWithoutSet(target: CensusTarget, seen: Seen, states: Settled, loss: Losses, r: Report)
    requires target.recovery.None?
    requires FollowStates(loss, states) && AsSeen(states, seen, AllIds(target)) && Accounts(target, loss, r)
    ensures r.verdict == Some(Intact) <==> forall id :: id in AllIds(target) ==> seen.There(id)
    ensures r.verdict == Some(BeyondRepair) ==> exists id :: id in AllIds(target) && seen.Missing(id)
  {
    hide Seen.There, Seen.Missing, DataIds;
    assert AllIds(target) == DataIds(target.files);
    var certain, possible := IdsWith(AllIds(target), loss, Certain), IdsWith(AllIds(target), loss, Possible);
    assert |certain| == 0 <==> certain == {};
    if r.verdict == Some(BeyondRepair) {
      var id :| id in certain;
      assert seen.Missing(id);
    }
    if r.verdict == Some(Intact) {
      assert |possible| == 0 && certain == possible == {};
      forall id | id in AllIds(target) ensures seen.There(id) {
        assert id !in certain && id !in possible;
      }
    }
  }

  // ---- The run --------------------------------------------------------------------

  lemma PresentForgets(l: H.Ledger, id: string, servers: seq<string>, now: nat, c: H.Config)
    requires 1 <= c.capacity
    ensures H.Noted(l, id, H.Present, servers, now, c).0.holes == l.holes - {id}
  {
    hide H.Outdated;
  }

  /** The holes left once the ledger was told of the first `n` ids. */
  function ToldPresent(holes: H.Holes, ids: seq<string>, n: nat, states: Settled): H.Holes
    requires n <= |ids| && forall id :: id in ids ==> id in states
  {
    if n == 0 then holes
    else ToldPresent(holes, ids, n - 1, states) - if states[ids[n - 1]] == Has then {ids[n - 1]} else {}
  }

  /** The ledger forgets the articles that are there, and nothing else. */
  lemma {:induction false} OnlyPresentForgotten(holes: H.Holes, ids: seq<string>, n: nat, states: Settled)
    requires n <= |ids| && forall id :: id in ids ==> id in states
    ensures ToldPresent(holes, ids, n, states) == holes - (set id | id in ids[..n] && states[id] == Has)
  {
    if n > 0 {
      OnlyPresentForgotten(holes, ids, n - 1, states);
      assert ids[..n] == ids[..n - 1] + [ids[n - 1]];
    }
  }

  lemma NobodyToldYet(holes: H.Holes, ids: seq<string>, states: Settled)
    requires forall id :: id in ids ==> id in states
    ensures ToldPresent(holes, ids, 0, states) == holes
  {
  }

  lemma ToldPresentMore(holes: H.Holes, ids: seq<string>, n: nat, states: Settled)
    requires n < |ids| && forall id :: id in ids ==> id in states
    ensures ToldPresent(holes, ids, n + 1, states)
      == ToldPresent(holes, ids, n, states) - if states[ids[n]] == Has then {ids[n]} else {}
  {
  }

  method NoteOnePresent(id: string, servers: seq<string>, at: nat, ledger: InMemoryHoleLedger)
    requires ledger.Valid()
    modifies ledger
    ensures ledger.Valid() && ledger.holes == old(ledger.holes) - {id}
  {
    hide *;
    ledger.ValidMeans();
    PresentForgets(ledger.Abs(), id, servers, at, ledger.c);
    var answer := ledger.Note(id, H.Present, servers, at);
    ledger.ValidMeans();
  }

  /** Tell the ledger of the articles that are there. */
  method NotePresent(ids: seq<string>, states: Settled, servers: seq<string>, at: Times, ledger: InMemoryHoleLedger)
    requires ledger.Valid() && forall id :: id in ids ==> id in states
    modifies ledger
    ensures ledger.Valid()
    ensures ledger.holes == old(ledger.holes) - (set id | id in ids && states[id] == Has)
  {
    hide *;
    var i := 0;
    NobodyToldYet(ledger.holes, ids, states);
    while i < |ids|
      invariant 0 <= i <= |ids| && ledger.Valid()
      invariant ledger.holes == ToldPresent(old(ledger.holes), ids, i, states)
    {
      ToldPresentMore(old(ledger.holes), ids, i, states);
      if states[ids[i]] == Has {
        NoteOnePresent(ids[i], servers, at(i), ledger);
      }
      i := i + 1;
    }
    OnlyPresentForgotten(old(ledger.holes), ids, |ids|, states);
    assert ids[..|ids|] == ids;
  }

  lemma SortedIds(ids: seq<string>)
    ensures Distinct(F.SortedNames(ids))
  {
    var sorted := F.SortedNames(ids);
    F.SortedNamesAscend(ids);
    forall i, j | 0 <= i < j < |sorted| ensures sorted[i] != sorted[j] {
      var from := sorted[i..];
      forall k | 0 < k < |from| ensures F.Less(from[k - 1], from[k]) {
        var at := i + k;
        assert F.Less(sorted[at - 1], sorted[at]);
      }
      F.FirstIsLeast(from, j - i);
      F.LessIsTotal(sorted[i], sorted[j]);
    }
  }

  lemma SettledAsSeen(states: Settled, seen: Seen, ids: seq<string>, probed: set<string>)
    requires forall id :: id in states <==> id in ids
    requires forall id :: id in probed <==> id in ids && !Fresh(seen.cache, id, seen.now)
    requires forall id :: id in probed ==> states[id] == Rule(seen.answers, seen.pools, id)
    requires forall id :: id in ids && id !in probed ==> id in seen.cache && states[id] == seen.cache[id].0
    ensures AsSeen(states, seen, ids)
  {
    forall id | id in states && seen.pools > 0 && AllPoolsAbsent(seen.answers, seen.pools, id)
      ensures !SomePoolHas(seen.answers, seen.pools, id)
    {
    }
  }

  lemma SeenMeans(states: Settled, seen: Seen, ids: seq<string>)
    requires AsSeen(states, seen, ids)
    ensures forall id :: id in ids ==>
      && id in states
      && (states[id] == Has <==> seen.There(id))
      && (states[id] == ArticleState.Missing <==> seen.Missing(id))
      && (states[id] == Unestablished <==> !seen.There(id) && !seen.Missing(id))
  {
  }

  /** A census: settle every surveyed article, tell the ledger what is there, class what is
      not, and assess. Its lists and its verdict are about what the pools answered, or had
      answered when a cached answer was got. */
  method RunCensus(
      target: CensusTarget, servers: seq<string>, answers: Answers, census: DamageCensus, ledger: InMemoryHoleLedger,
      now: nat, later: nat, noted: Times, at: PassTimes)
    returns (r: Report, listing: Listing, failures: seq<PoolFailures>)
    requires ledger.Valid() && PassInTime(at)
    modifies census, ledger
    ensures ledger.Valid() && |census.cache| <= census.c.capacity
    ensures
      var seen := Seen(old(census.cache), now, |servers|, answers);
      && (forall id :: id in listing.missing <==> id in AllIds(target) && seen.Missing(id))
      && (forall id :: id in listing.unestablished <==>
            id in AllIds(target) && !seen.Missing(id) && !seen.There(id))
      && (forall id :: id in listing.provisional ==> id in listing.missing)
      && (forall id :: id in AllIds(target) && seen.There(id) ==> id !in ledger.holes)
      && (target.recovery.Some? && InFile(target.files, target.recovery.value) ==>
            VerdictStands(target, seen, r.verdict))
      && (target.recovery.None? ==>
            && (r.verdict == Some(Intact) <==> forall id :: id in AllIds(target) ==> seen.There(id))
            && (r.verdict == Some(BeyondRepair) ==> exists id :: id in AllIds(target) && seen.Missing(id)))
  {
    hide *;
    ghost var seen := Seen(census.cache, now, |servers|, answers);
    var ids := SurveyedIds(target);
    var states, probed, asked;
    states, probed, asked, failures := census.Settle(ids, |servers|, answers, now, later);
    SettledAsSeen(states, seen, AllIds(target), probed);
    NotePresent(ids, states, servers, noted, ledger);
    ghost var l := ledger.Abs();
    ledger.ValidMeans();
    var ordered := F.SortedNames(ids);
    SortedIds(ids);
    var loss;
    loss, listing := Classify(ordered, states, probed, servers, at, ledger);
    r := Assess(target, loss);
    OnlyMissingGetRecords(l, ordered, |ordered|, states, probed, servers, at, ledger.c);
    ListingSorts(ordered, |ordered|, states, loss);
    assert ordered[..|ordered|] == ordered;
    SeenMeans(states, seen, AllIds(target));
    ledger.ValidMeans();
    forall id | id in AllIds(target) && seen.There(id) ensures id !in ledger.holes {
      assert id in ids && states[id] == Has && id !in l.holes;
    }
    if target.recovery.None? {
      GivenVerdictsWithoutSet(target, seen, states, loss, r);
    } else if InFile(target.files, target.recovery.value) {
      GivenVerdictsStand(target, seen, states, loss, r);
    }
  }
}
