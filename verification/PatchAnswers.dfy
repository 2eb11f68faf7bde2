/** When an insert is taken and what it is refused for, said of the spans and bytes that are
    there. */
module PatchAnswers {
  import opened Wrappers
  import opened Articles
  import opened MapFacts
  import opened PatchSpans
  import opened PatchModel
  import opened PatchRuns

  /** The release under an id, if it comes from the stamp's NZB blob. */
  function Current(s: Store, id: ReleaseId, stamp: Stamp): Option<Release> {
    if id in s.releases && s.releases[id].stamp.blob == stamp.blob then Some(s.releases[id]) else None
  }

  /** The spans the current release has of a file. */
  function SpansThere(s: Store, id: ReleaseId, stamp: Stamp, file: string): seq<Span> {
    match Current(s, id, stamp)
    case None => []
    case Some(r) => if file in r.files then r.files[file].spans else []
  }

  predicate SameRange(x: Span, y: Span) {
    x.start == y.start && |x.data| == |y.data|
  }

  predicate Meet(x: Span, y: Span) {
    x.start < y.End() && y.start < x.End()
  }

  ghost predicate Replaces(spans: seq<Span>, span: Span) {
    exists i :: 0 <= i < |spans| && SameRange(spans[i], span)
  }

  /** Some span overlaps the new one without having its very range. */
  ghost predicate Clashes(spans: seq<Span>, span: Span) {
    exists i :: 0 <= i < |spans| && Meet(spans[i], span) && !SameRange(spans[i], span)
  }

  /** What the release comes to with the span in it: its bytes and the span's, less the
      replaced one's, and the cost of a file that is new to it. */
  ghost function NeededFor(s: Store, id: ReleaseId, stamp: Stamp, file: CensusFile, span: Span): nat {
    var current := Current(s, id, stamp);
    (if current.Some? then current.value.Bytes() else 0)
    + (if Replaces(SpansThere(s, id, stamp, file.name), span) then 0 else |span.data|)
    + (if current.Some? && file.name in current.value.files then 0 else FileCost(file.name, file.articles))
  }

  predicate InFile(file: CensusFile, span: Span) {
    span.data != [] && span.End() <= LayoutSize(file.articles)
  }

  /** Which answer an insert gets: each exactly in its own case. */
  ghost predicate Answered(s: Store, id: ReleaseId, stamp: Stamp, file: CensusFile, span: Span,
                           r: Result<(), PatchError>) {
    var clashes := Clashes(SpansThere(s, id, stamp, file.name), span);
    var needed := NeededFor(s, id, stamp, file, span);
    && (r == Err(Empty) <==> span.data == [])
    && (r == Err(OutOfFile(span.start, |span.data|, LayoutSize(file.articles))) <==>
          span.data != [] && span.End() > LayoutSize(file.articles))
    && (r == Err(Overlap(span.start, |span.data|)) <==> InFile(file, span) && clashes)
    && (r == Err(OverBudget(needed, s.budget)) <==> InFile(file, span) && !clashes && needed > s.budget)
    && (r == Ok(()) <==> InFile(file, span) && !clashes && needed <= s.budget)
  }

  lemma OnlyOneAnswer(s: Store, id: ReleaseId, stamp: Stamp, file: CensusFile, span: Span,
                      r: Result<(), PatchError>)
    requires Answered(s, id, stamp, file, span, Ok(())) && Answered(s, id, stamp, file, span, r)
    ensures r == Ok(())
  {
    hide Clashes, SpansThere, NeededFor;
  }

  /** The overlap check, said of the spans. */
  lemma OverlapCheckMeans(spans: seq<Span>, span: Span)
    requires Ordered(spans) && span.data != []
    ensures CheckOverlap(spans, span.start, |span.data|) == None <==> Clashes(spans, span)
    ensures CheckOverlap(spans, span.start, |span.data|) == Some(|span.data|) <==> Replaces(spans, span)
  {
    var r := CheckOverlap(spans, span.start, |span.data|);
    assert forall i :: 0 <= i < |spans| ==>
      (SameRange(spans[i], span) <==> spans[i].start == span.start && |spans[i].data| == |span.data|);
    assert forall i :: 0 <= i < |spans| ==>
      (Meet(spans[i], span) <==> !(spans[i].End() <= span.start || span.End() <= spans[i].start));
    hide SameRange, Meet, StartingBefore;
    if r == Some(|span.data|) {
      var i :| 0 <= i < |spans| && spans[i].start == span.start && |spans[i].data| == |span.data|;
      assert SameRange(spans[i], span);
      SameRangeIsAlone(spans, span, i);
    }
  }

  lemma SameRangeIsAlone(spans: seq<Span>, span: Span, i: nat)
    requires Ordered(spans) && span.data != [] && i < |spans| && SameRange(spans[i], span)
    ensures !Clashes(spans, span)
  {
    forall j | 0 <= j < |spans| && Meet(spans[j], span) ensures SameRange(spans[j], span) {
      Apart(spans, i, j);
    }
  }

  /** The locked half of an insert: stale exactly when another blob's patches are there, and
      else answered by what is there. */
  lemma CommitAnswers(s: Store, id: ReleaseId, stamp: Stamp, file: CensusFile, span: Span)
    requires Wf(s) && InFile(file, span)
    ensures
      var r := Committed(s, id, stamp, file, span).1;
      var stale := id in s.releases && s.releases[id].stamp.blob != stamp.blob;
      && (r == Err(Stale) <==> stale)
      && (!stale ==> Answered(s, id, stamp, file, span, r))
  {
    hide Total, Injective, EvictToFit, CheckOverlap, Patched, Placeable, FileCost, PutBack, Clashes, Replaces,
         LayoutSize;
    if id in s.releases && file.name in s.releases[id].files {
      assert WfFile(s.releases[id].files[file.name], file.name);
      OverlapCheckMeans(s.releases[id].files[file.name].spans, span);
    }
    NothingThere(span);
  }

  lemma NothingThere(span: Span)
    ensures !Clashes([], span) && !Replaces([], span)
  {
  }

  /** What an accepted insert leaves: the release is the stamp's, was used last of all, and
      holds the new bytes over what it held; a replaced blob's bytes are gone. */
  lemma CommitLeaves(s: Store, id: ReleaseId, stamp: Stamp, file: CensusFile, span: Span)
    requires Wf(s) && span.data != [] && Committed(s, id, stamp, file, span).1.Ok?
    ensures
      var after := Committed(s, id, stamp, file, span).0;
      && id in after.releases && after.releases[id].stamp == stamp
      && Newest(after, id)
      && (forall at: nat :: ByteIn(after.releases, id, file.name, at) ==
            if span.start <= at < span.End() then Some(span.data[at - span.start])
            else ByteIn(s.releases, id, file.name, at))
      && (forall other, at: nat :: other != file.name ==>
            ByteIn(after.releases, id, other, at) == ByteIn(s.releases, id, other, at))
  {
    hide Total, EvictToFit, CheckOverlap, Wf, ByteIn, OnlySweeps, Lays, CheckCommit;
    CommitIsNewest(s, id, stamp, file, span);
    CommitBytes(s, id, stamp, file, span);
    var after := Committed(s, id, stamp, file, span).0;
    var kept :|
      && OnlySweeps(s.releases, kept) && kept.Keys + {id} == after.releases.Keys
      && (id in s.releases ==> id in kept) && Lays(kept, after.releases, id, file.name, span);
    KeptBytes(s.releases, kept, id);
    LaidBytes(kept, after.releases, id, file.name, span);
  }

  /** The release was used after every other. */
  ghost predicate Newest(s: Store, id: ReleaseId) {
    id in s.releases && forall j :: j in s.releases && j != id ==> s.releases[j].lastRead < s.releases[id].lastRead
  }

  lemma CommitIsNewest(s: Store, id: ReleaseId, stamp: Stamp, file: CensusFile, span: Span)
    requires Wf(s) && span.data != [] && Committed(s, id, stamp, file, span).1.Ok?
    ensures
      var after := Committed(s, id, stamp, file, span).0;
      id in after.releases && after.releases[id].stamp == stamp && Newest(after, id)
  {
    hide Total, Injective, WfRelease, OrderedFiles, CheckOverlap, ByteSums, LastReads;
    StoreIsOrdered(s, id);
    var growth := CheckCommit(s, id, stamp, file, span).value;
    EvictKeeps(s.releases, growth, Some(id), s.budget);
  }

  lemma KeptBytes(before: Releases, kept: Releases, id: ReleaseId)
    requires OnlySweeps(before, kept) && (id in before ==> id in kept)
    ensures forall f, at: nat :: ByteIn(kept, id, f, at) == ByteIn(before, id, f, at)
  {
    hide ByteAt;
  }

  lemma LaidBytes(kept: Releases, after: Releases, id: ReleaseId, file: string, span: Span)
    requires Lays(kept, after, id, file, span)
    ensures forall at: nat ::
      ByteIn(after, id, file, at)
      == if span.start <= at < span.End() then Some(span.data[at - span.start]) else ByteIn(kept, id, file, at)
    ensures forall other, at: nat :: other != file ==> ByteIn(after, id, other, at) == ByteIn(kept, id, other, at)
  {
    hide ByteIn;
  }

  /** A read makes its release the newest. */
  lemma ReadIsNewest(s: Store, id: ReleaseId)
    requires Wf(s) && id in s.releases
    ensures Newest(Touched(s, id), id)
    ensures Touched(s, id).releases[id].Bytes() == s.releases[id].Bytes()
    ensures forall j :: j in s.releases && j != id ==>
      j in Touched(s, id).releases && Touched(s, id).releases[j] == s.releases[j]
  {
    hide Total, Injective, WfRelease;
  }

  /** Room for the growth of a release is made by the shortest prefix of the others in
      last-use order, and whoever stays is as before. */
  ghost predicate MadeRoom(s: Store, id: ReleaseId, growth: nat, after: Releases) {
    && ShortestPrefix(s.releases, growth, Some(id), s.budget, s.releases.Keys - after.Keys)
    && after.Keys <= s.releases.Keys + {id}
    && (forall j :: j in after && j != id ==> after[j] == s.releases[j])
  }

  lemma PutBackMakesRoom(s: Store, growth: nat, id: ReleaseId, r: Release)
    requires Wf(s)
    ensures MadeRoom(s, id, growth, PutBack(s, growth, id, r).releases)
  {
    hide Total, Injective, WfRelease, ByteSums, LastReads, ShortestPrefix;
    EvictTakesShortestPrefix(s.releases, growth, Some(id), s.budget);
    EvictKeeps(s.releases, growth, Some(id), s.budget);
    var left := EvictToFit(s.releases, growth, Some(id), s.budget);
    assert s.releases.Keys - left[id := r].Keys == s.releases.Keys - left.Keys;
  }

  /** An accepted insert evicts for what the release grows by, no more, and leaves the
      release's records alone. */
  lemma CommitMakesRoom(s: Store, id: ReleaseId, stamp: Stamp, file: CensusFile, span: Span)
    requires Wf(s) && InFile(file, span) && Committed(s, id, stamp, file, span).1.Ok?
    ensures
      var after := Committed(s, id, stamp, file, span).0.releases;
      var was := if id in s.releases then s.releases[id] else NewRelease(stamp, 0);
      && NeededFor(s, id, stamp, file, span) >= was.Bytes()
      && MadeRoom(s, id, NeededFor(s, id, stamp, file, span) - was.Bytes(), after)
      && id in after && after[id].Bytes() == NeededFor(s, id, stamp, file, span)
      && after[id].holes == was.holes && after[id].verdict == was.verdict
  {
    hide Total, Injective, EvictToFit, CheckOverlap, FileCost, Clashes, Replaces, LayoutSize, MadeRoom, ByteSums,
         LastReads;
    if id in s.releases && file.name in s.releases[id].files {
      assert WfFile(s.releases[id].files[file.name], file.name);
      OverlapCheckMeans(s.releases[id].files[file.name].spans, span);
    }
    NothingThere(span);
    var growth := CheckCommit(s, id, stamp, file, span).value;
    var r := Committed(s, id, stamp, file, span).0.releases[id];
    PutBackMakesRoom(s, growth, id, r);
  }

  // ---- Records --------------------------------------------------------------------

  /** No message-id is on record twice. */
  ghost predicate RecordedOnce(holes: seq<HoleRecord>) {
    forall i, j :: 0 <= i < j < |holes| ==> holes[i].messageId != holes[j].messageId
  }

  /** The last of some records of a message-id. */
  function LastOf(holes: seq<HoleRecord>, m: string): Option<HoleRecord> {
    if holes == [] then None
    else if holes[|holes| - 1].messageId == m then Some(holes[|holes| - 1])
    else LastOf(holes[..|holes| - 1], m)
  }

  ghost predicate OnRecord(holes: seq<HoleRecord>, h: HoleRecord) {
    h in holes
  }

  lemma {:induction false} PutHoleHas(holes: seq<HoleRecord>, h: HoleRecord)
    requires RecordedOnce(holes)
    ensures forall x :: x in PutHole(holes, h) <==> x == h || (x in holes && x.messageId != h.messageId)
  {
    if holes != [] {
      var rest := holes[1..];
      FirstIsOnce(holes);
      if holes[0].messageId == h.messageId {
        assert forall x :: x in [h] + rest <==> x == h || x in rest;
      } else {
        PutHoleHas(rest, h);
        var more := PutHole(rest, h);
        assert forall x :: x in [holes[0]] + more <==> x == holes[0] || x in more;
      }
    }
  }

  lemma FirstIsOnce(holes: seq<HoleRecord>)
    requires holes != []
    ensures RecordedOnce(holes) <==>
      RecordedOnce(holes[1..]) && forall x :: x in holes[1..] ==> x.messageId != holes[0].messageId
    ensures forall x :: x in holes <==> x == holes[0] || x in holes[1..]
  {
    var rest := holes[1..];
    assert forall i :: 0 <= i < |rest| ==> rest[i] == holes[i + 1];
    if RecordedOnce(rest) && forall x :: x in rest ==> x.messageId != holes[0].messageId {
      forall i, j | 0 <= i < j < |holes| ensures holes[i].messageId != holes[j].messageId {
        assert holes[j] == rest[j - 1] && (i > 0 ==> holes[i] == rest[i - 1]);
      }
    }
  }

  lemma {:induction false} PutHoleMeans(holes: seq<HoleRecord>, h: HoleRecord)
    requires RecordedOnce(holes)
    ensures RecordedOnce(PutHole(holes, h))
    ensures forall x :: x in PutHole(holes, h) <==> x == h || (x in holes && x.messageId != h.messageId)
  {
    hide RecordedOnce;
    PutHoleHas(holes, h);
    if holes == [] {
      OneIsOnce(h);
    } else {
      var put, rest := PutHole(holes, h), holes[1..];
      FirstIsOnce(holes);
      FirstIsOnce(put);
      if holes[0].messageId == h.messageId {
        assert put[1..] == rest;
      } else {
        PutHoleMeans(rest, h);
        assert put[1..] == PutHole(rest, h);
      }
    }
  }

  lemma OneIsOnce(h: HoleRecord)
    ensures RecordedOnce([h])
  {
  }

  /** Records added replace those of their message-ids, the last of each counting, and leave
      all others; none comes to be on record twice. */
  lemma {:induction false} AddedLast(holes: seq<HoleRecord>, added: seq<HoleRecord>)
    requires RecordedOnce(holes)
    ensures RecordedOnce(PutHoles(holes, added))
    ensures forall x :: x in PutHoles(holes, added) <==>
      LastOf(added, x.messageId) == Some(x) || (LastOf(added, x.messageId).None? && x in holes)
    decreases |added|
  {
    if added != [] {
      PutHoleMeans(holes, added[0]);
      AddedLast(PutHole(holes, added[0]), added[1..]);
      forall m ensures LastOf(added, m) ==
        if LastOf(added[1..], m).Some? then LastOf(added[1..], m)
        else if added[0].messageId == m then Some(added[0]) else None
      {
        LastOfSplit(added, m);
      }
    }
  }

  lemma {:induction false} LastOfSplit(added: seq<HoleRecord>, m: string)
    requires added != []
    ensures LastOf(added, m) ==
      if LastOf(added[1..], m).Some? then LastOf(added[1..], m)
      else if added[0].messageId == m then Some(added[0]) else None
    decreases |added|
  {
    var last := added[|added| - 1];
    if |added| > 1 {
      assert added[1..][|added| - 2] == last;
      assert added[1..][..|added| - 2] == added[..|added| - 1][1..];
      if last.messageId != m {
        LastOfSplit(added[..|added| - 1], m);
      }
    }
  }

  function IdLengths(articles: seq<ArticleSpan>): nat {
    if articles == [] then 0 else |articles[0].messageId| + IdLengths(articles[1..])
  }

  /** What indexing a file costs: a fixed part and its name, and for each article a fixed part,
      the name again and the message-id twice. */
  lemma {:induction false} IndexCost(name: string, articles: seq<ArticleSpan>)
    ensures FileCost(name, articles) == 128 + |name| + (96 + |name|) * |articles| + 2 * IdLengths(articles)
  {
    if articles != [] {
      IndexCost(name, articles[1..]);
      assert (96 + |name|) * |articles| == (96 + |name|) * |articles[1..]| + 96 + |name|;
    }
  }

  /** Records are charged one by one, each with a fixed part and its texts, and so is a verdict. */
  lemma {:induction false} RecordCosts(a: seq<HoleRecord>, b: seq<HoleRecord>, h: HoleRecord)
    ensures HolesCost(a + b) == HolesCost(a) + HolesCost(b)
    ensures HolesCost([h])
      == 64 + |h.messageId| + |h.fingerprint| + Lengths(h.refusedBy) + Lengths(h.unreachable)
    ensures VerdictCost(None) == 0
    ensures forall v :: VerdictCost(Some(v)) == 64 + |v.diagnosis| + Lengths(v.servers)
  {
    assert HolesCost([]) == 0 && [h][1..] == [];
    if a == [] {
      assert a + b == b;
    } else {
      assert (a + b)[1..] == a[1..] + b;
      RecordCosts(a[1..], b, h);
    }
  }

  /** What a release's records and files come to once a change is on it. */
  ghost function RecordsNeed(s: Store, id: ReleaseId, stamp: Stamp, change: Change): nat {
    var current := Current(s, id, stamp);
    var files := if current.Some? then current.value.files else map[];
    var holes := if current.Some? then current.value.holes else [];
    var verdict := if current.Some? then current.value.verdict else None;
    Total(SpanSums(files)) + Total(FileCosts(files))
    + HolesCost(if change.AddHoles? then PutHoles(holes, change.added) else holes)
    + VerdictCost(if change.SetVerdict? then Some(change.verdict) else verdict)
  }

  /** The locked half of a record update: stale exactly when another blob's patches are there,
      and else taken exactly when the release fits the budget with the change on it. */
  lemma RecordAnswers(s: Store, id: ReleaseId, stamp: Stamp, change: Change)
    requires Wf(s)
    ensures
      var r := Recorded(s, id, stamp, change).1;
      var stale := id in s.releases && s.releases[id].stamp.blob != stamp.blob;
      && (r == Err(Stale) <==> stale)
      && (!stale ==>
            && (r == Ok(()) <==> RecordsNeed(s, id, stamp, change) <= s.budget)
            && (r != Ok(()) <==> r == Err(OverBudget(RecordsNeed(s, id, stamp, change), s.budget))))
  {
    hide Total, Injective, EvictToFit, PutHoles, HolesCost, VerdictCost;
    TotalEmpty(SpanSums(map[]));
    NewReleaseIsWf(stamp, s.clock + 1);
  }

  /** What an accepted record update leaves. */
  lemma RecordLeaves(s: Store, id: ReleaseId, stamp: Stamp, change: Change)
    requires Wf(s) && Recorded(s, id, stamp, change).1.Ok?
    ensures
      var after := Recorded(s, id, stamp, change).0;
      var was := if id in s.releases then s.releases[id].holes else [];
      && id in after.releases && after.releases[id].stamp == stamp
      && (RecordedOnce(was) ==> RecordedOnce(after.releases[id].holes))
      && (change.AddHoles? && RecordedOnce(was) ==>
            forall x :: x in after.releases[id].holes <==>
              LastOf(change.added, x.messageId) == Some(x)
              || (LastOf(change.added, x.messageId).None? && x in was))
      && (change.SetVerdict? ==> after.releases[id].verdict == Some(change.verdict) && after.releases[id].holes == was)
      && (change.AddHoles? ==>
            after.releases[id].verdict == if id in s.releases then s.releases[id].verdict else None)
      && (forall file, at: nat :: ByteIn(after.releases, id, file, at) == ByteIn(s.releases, id, file, at))
  {
    hide Total, EvictToFit, Wf, PutHoles, RecordedOnce, LastOf;
    var was := if id in s.releases then s.releases[id].holes else [];
    if change.AddHoles? && RecordedOnce(was) {
      AddedLast(was, change.added);
    }
  }

  /** An accepted record update evicts for what the release grows by, and leaves its files
      alone. */
  lemma RecordMakesRoom(s: Store, id: ReleaseId, stamp: Stamp, change: Change)
    requires Wf(s) && Recorded(s, id, stamp, change).1.Ok?
    ensures
      var after := Recorded(s, id, stamp, change).0.releases;
      var was := if id in s.releases then s.releases[id] else NewRelease(stamp, 0);
      && MadeRoom(s, id, Sat(RecordsNeed(s, id, stamp, change), was.Bytes()), after)
      && id in after && after[id].Bytes() == RecordsNeed(s, id, stamp, change)
      && after[id].files == was.files
      && (if id in s.releases then after[id].lastRead == was.lastRead else after[id].lastRead > s.clock)
  {
    hide Total, Injective, EvictToFit, PutHoles, HolesCost, VerdictCost, MadeRoom, ByteSums, LastReads;
    TotalEmpty(SpanSums(map[]));
    NewReleaseIsWf(stamp, s.clock + 1);
    var was := BaseRelease(s.releases, id, stamp, s.clock + 1);
    var r := Updated(was, stamp, change);
    PutBackMakesRoom(s, Sat(r.metaBytes, was.metaBytes), id, r);
  }

  // ---- With a stale release gone --------------------------------------------------

  /** Whether a stale release is still there makes no difference to the answer. */
  lemma StaleCountsForNothing(s: Store, id: ReleaseId, stamp: Stamp)
    requires Wf(s)
    ensures
      var dropped := Dropped(s, id);
      id in s.releases && s.releases[id].stamp.blob != stamp.blob ==>
        && Wf(dropped) && Current(dropped, id, stamp) == Current(s, id, stamp) == None
        && dropped.budget == s.budget
        && (forall file, span, r ::
              Answered(dropped, id, stamp, file, span, r) <==> Answered(s, id, stamp, file, span, r))
        && (forall change :: RecordsNeed(dropped, id, stamp, change) == RecordsNeed(s, id, stamp, change))
  {
    hide Total, Wf, Clashes, Replaces, FileCost, LayoutSize;
    DropKeepsWf(s, id);
  }
}
