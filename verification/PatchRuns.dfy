/** What every interleaving of the store's locked sections keeps, and what a reader gets:
    the last bytes written to each offset since its release was last taken out. */
module PatchRuns {
  import opened Wrappers
  import opened Articles
  import opened MapFacts
  import opened PatchSpans
  import opened PatchModel

  /** One locked section. An insert's check half changes nothing, so an insert is its
      commit, wherever it falls among the other sections; the drop of a stale release
      before it is a section of its own. */
  datatype Op =
    | Commit(id: ReleaseId, stamp: Stamp, file: CensusFile, span: Span)
    | Record(id: ReleaseId, stamp: Stamp, change: Change)
    | Drop(id: ReleaseId)
    | Read(id: ReleaseId)

  datatype Event =
    | Wrote(id: ReleaseId, file: string, span: Span)
    | Gone(ids: set<ReleaseId>)

  ghost predicate Possible(s: Store, op: Op) {
    && (op.Commit? ==> op.span.data != [] && op.span.End() <= LayoutSize(op.file.articles))
    && (op.Read? ==> op.id in s.releases)
  }

  ghost function Next(s: Store, op: Op): Store
    requires Wf(s) && Possible(s, op)
  {
    match op
    case Commit(id, stamp, file, span) => Committed(s, id, stamp, file, span).0
    case Record(id, stamp, change) => Recorded(s, id, stamp, change).0
    case Drop(id) => Dropped(s, id)
    case Read(id) => Touched(s, id)
  }

  /** What the section did to the bytes: the releases that went, then the span written. */
  ghost function Events(s: Store, op: Op): seq<Event>
    requires Wf(s) && Possible(s, op)
  {
    [Gone(s.releases.Keys - Next(s, op).releases.Keys)]
    + if op.Commit? && Committed(s, op.id, op.stamp, op.file, op.span).1.Ok? then
        [Wrote(op.id, op.file.name, op.span)]
      else []
  }

  /** The last byte written to an offset, unless its release went away since. */
  function LastWrite(log: seq<Event>, id: ReleaseId, file: string, at: nat): Option<Byte> {
    if log == [] then None
    else
      var before := log[..|log| - 1];
      match log[|log| - 1]
      case Wrote(i, f, span) =>
        if i == id && f == file && span.start <= at < span.End() then Some(span.data[at - span.start])
        else LastWrite(before, id, file, at)
      case Gone(ids) => if id in ids then None else LastWrite(before, id, file, at)
  }

  ghost predicate Run(s: Store, log: seq<Event>, ops: seq<Op>, end: Store, endLog: seq<Event>)
    decreases |ops|
  {
    if ops == [] then s == end && log == endLog
    else
      && Wf(s) && Possible(s, ops[0])
      && Run(Next(s, ops[0]), log + Events(s, ops[0]), ops[1..], end, endLog)
  }

  ghost predicate Refines(rels: Releases, log: seq<Event>) {
    forall id, file, at: nat :: ByteIn(rels, id, file, at) == LastWrite(log, id, file, at)
  }

  // ---- Well-formedness ------------------------------------------------------------

  lemma PatchedSums(files: map<string, FilePatches>, name: string, f: FilePatches, f': FilePatches)
    requires if name in files then files[name] == f else f.spans == []
    requires f'.name == f.name && f'.articles == f.articles
    ensures Total(SpanSums(files[name := f'])) + SpanBytes(f.spans)
      == Total(SpanSums(files)) + SpanBytes(f'.spans)
    ensures Total(FileCosts(files[name := f']))
      == Total(FileCosts(files)) + if name in files then 0 else FileCost(f.name, f.articles)
    ensures Total(SpanCounts(files[name := f'])) + |f.spans|
      == Total(SpanCounts(files)) + |f'.spans|
  {
    hide *;
    PatchedSpanSums(files, name, f');
    PatchedFileCosts(files, name, f');
    PatchedSpanCounts(files, name, f');
    NoSpansNoBytes();
    TotalPut(SpanSums(files), name, SpanBytes(f'.spans));
    TotalPut(FileCosts(files), name, FileCost(f.name, f.articles));
    TotalPut(SpanCounts(files), name, |f'.spans|);
  }

  lemma PatchedSpanSums(files: map<string, FilePatches>, name: string, f': FilePatches)
    ensures SpanSums(files[name := f']) == SpanSums(files)[name := SpanBytes(f'.spans)]
    ensures name in SpanSums(files) <==> name in files
    ensures name in files ==> SpanSums(files)[name] == SpanBytes(files[name].spans)
  {
    hide SpanBytes;
  }

  lemma PatchedFileCosts(files: map<string, FilePatches>, name: string, f': FilePatches)
    ensures FileCosts(files[name := f']) == FileCosts(files)[name := FileCost(f'.name, f'.articles)]
    ensures name in FileCosts(files) <==> name in files
    ensures name in files ==> FileCosts(files)[name] == FileCost(files[name].name, files[name].articles)
  {
    hide FileCost;
  }

  lemma PatchedSpanCounts(files: map<string, FilePatches>, name: string, f': FilePatches)
    ensures SpanCounts(files[name := f']) == SpanCounts(files)[name := |f'.spans|]
    ensures name in SpanCounts(files) <==> name in files
    ensures name in files ==> SpanCounts(files)[name] == |files[name].spans|
  {
  }

  lemma NoSpansNoBytes()
    ensures SpanBytes([]) == 0
  {
  }

  lemma PatchedIsWf(base: Release, stamp: Stamp, file: CensusFile, span: Span, growth: nat, now: nat)
    requires WfRelease(base) && Placeable(base, file, span, growth)
    ensures WfRelease(Patched(base, stamp, file, span, growth, now))
    ensures Patched(base, stamp, file, span, growth, now).Bytes() == base.Bytes() + growth
  {
    hide Total, Insert, CheckOverlap, SpanSums, FileCosts, FileCost, SpanBytes;
    var f := BaseFile(base, file);
    InsertFits(f.spans, span);
    PatchedSums(base.files, file.name, f, f.(spans := Insert(f.spans, span)));
  }

  lemma UpdatedIsWf(was: Release, stamp: Stamp, change: Change)
    requires WfRelease(was)
    ensures WfRelease(Updated(was, stamp, change))
  {
  }

  lemma NewReleaseIsWf(stamp: Stamp, now: nat)
    ensures WfRelease(NewRelease(stamp, now))
  {
    hide Total;
    TotalEmpty(SpanSums(NewRelease(stamp, now).files));
    TotalEmpty(FileCosts(NewRelease(stamp, now).files));
  }

  lemma EvictedIsWf(s: Store, growth: nat, keep: Option<ReleaseId>)
    requires Wf(s)
    ensures
      var kept := EvictToFit(s.releases, growth, keep, s.budget);
      && (forall id :: id in kept ==> id in s.releases && kept[id] == s.releases[id])
      && (forall id :: id in kept ==> WfRelease(kept[id]) && kept[id].lastRead <= s.clock)
      && Injective(LastReads(kept))
  {
    EvictKeeps(s.releases, growth, keep, s.budget);
  }

  /** Putting one release back with a recency no other has, and with bytes that fit. */
  lemma PutKeepsWf(budget: nat, clock: nat, kept: Releases, id: ReleaseId, r: Release)
    requires forall j :: j in kept ==> WfRelease(kept[j]) && kept[j].lastRead <= clock
    requires Injective(LastReads(kept)) && WfRelease(r)
    requires r.lastRead == clock + 1 || (id in kept && r.lastRead == kept[id].lastRead)
    requires Total(ByteSums(kept)) + r.Bytes()
      <= budget + if id in kept then kept[id].Bytes() else 0
    ensures Wf(Store(budget, clock + 1, kept[id := r]))
  {
    hide Total, WfRelease, ByteSums, LastReads;
    var rels := kept[id := r];
    PutSums(kept, id, r);
    PutReads(kept, id, r);
    InjectivePut(LastReads(kept), id, r.lastRead);
    TotalPut(ByteSums(kept), id, r.Bytes());
  }

  lemma PutSums(kept: Releases, id: ReleaseId, r: Release)
    ensures ByteSums(kept[id := r]) == ByteSums(kept)[id := r.Bytes()]
    ensures id in ByteSums(kept) <==> id in kept
    ensures id in kept ==> ByteSums(kept)[id] == kept[id].Bytes()
  {
  }

  lemma PutReads(kept: Releases, id: ReleaseId, r: Release)
    ensures LastReads(kept[id := r]) == LastReads(kept)[id := r.lastRead]
    ensures forall j :: j in LastReads(kept) <==> j in kept
    ensures forall j :: j in kept ==> LastReads(kept)[j] == kept[j].lastRead
  {
  }

  lemma PutBackKeepsWf(s: Store, growth: nat, id: ReleaseId, r: Release, was: Release)
    requires Wf(s) && WfRelease(r)
    requires if id in s.releases then was == s.releases[id] else was.Bytes() == 0
    requires r.lastRead == s.clock + 1 || (id in s.releases && r.lastRead == was.lastRead)
    requires r.Bytes() <= was.Bytes() + growth <= s.budget
    ensures Wf(PutBack(s, growth, id, r))
  {
    hide Total, WfRelease;
    EvictMakesRoom(s.releases, growth, id, s.budget);
    EvictedIsWf(s, growth, Some(id));
    PutKeepsWf(s.budget, s.clock, EvictToFit(s.releases, growth, Some(id), s.budget), id, r);
  }

  lemma BaseIsWf(s: Store, id: ReleaseId, stamp: Stamp)
    requires Wf(s)
    ensures
      var base := BaseRelease(s.releases, id, stamp, s.clock + 1);
      && WfRelease(base)
      && base.Bytes() <= s.budget
      && (id !in s.releases ==> base.Bytes() == 0)
  {
    hide Total, WfRelease;
    NewReleaseIsWf(stamp, s.clock + 1);
    if id in s.releases {
      TotalTake(ByteSums(s.releases), id);
    }
  }

  lemma CommitKeepsWf(s: Store, id: ReleaseId, stamp: Stamp, file: CensusFile, span: Span)
    requires Wf(s) && span.data != []
    ensures Wf(Committed(s, id, stamp, file, span).0)
  {
    hide Total, PutBack, Placeable, Patched, CheckOverlap;
    var check := CheckCommit(s, id, stamp, file, span);
    if check.Ok? {
      var base := BaseRelease(s.releases, id, stamp, s.clock + 1);
      CheckedIsPlaceable(s, id, stamp, file, span, s.clock + 1);
      BaseIsWf(s, id, stamp);
      PatchedIsWf(base, stamp, file, span, check.value, s.clock + 1);
      var r := Patched(base, stamp, file, span, check.value, s.clock + 1);
      assert r.lastRead == s.clock + 1 by { PatchedIsNew(base, stamp, file, span, check.value, s.clock + 1); }
      assert base.Bytes() + check.value <= s.budget;
      PutBackKeepsWf(s, check.value, id, r, base);
    }
  }

  lemma PatchedIsNew(base: Release, stamp: Stamp, file: CensusFile, span: Span, growth: nat, now: nat)
    requires Placeable(base, file, span, growth)
    ensures Patched(base, stamp, file, span, growth, now).lastRead == now
  {
  }

  lemma RecordKeepsWf(s: Store, id: ReleaseId, stamp: Stamp, change: Change)
    requires Wf(s)
    ensures Wf(Recorded(s, id, stamp, change).0)
  {
    hide Total, PutBack, WfRelease;
    var was := BaseRelease(s.releases, id, stamp, s.clock + 1);
    var r := Updated(was, stamp, change);
    BaseIsWf(s, id, stamp);
    UpdatedIsWf(was, stamp, change);
    if !StaleFor(Lookup(s.releases, id), stamp) && r.Bytes() <= s.budget {
      PutBackKeepsWf(s, Sat(r.metaBytes, was.metaBytes), id, r, was);
    }
  }

  lemma DropKeepsWf(s: Store, id: ReleaseId)
    requires Wf(s)
    ensures Wf(Dropped(s, id))
  {
    hide Total, WfRelease;
    EvictKeepsInjective(s.releases, id);
    if id in s.releases {
      TotalTake(ByteSums(s.releases), id);
      assert ByteSums(s.releases - {id}) == ByteSums(s.releases) - {id};
    } else {
      assert s.releases - {id} == s.releases;
    }
  }

  lemma ReadKeepsWf(s: Store, id: ReleaseId)
    requires Wf(s) && id in s.releases
    ensures Wf(Touched(s, id))
  {
    hide Total;
    PutKeepsWf(s.budget, s.clock, s.releases, id, s.releases[id].(lastRead := s.clock + 1));
  }

  lemma NextKeepsWf(s: Store, op: Op)
    requires Wf(s) && Possible(s, op)
    ensures Wf(Next(s, op)) && Next(s, op).budget == s.budget
  {
    hide Wf, Total, EvictToFit;
    match op
    case Commit(id, stamp, file, span) => CommitKeepsWf(s, id, stamp, file, span);
    case Record(id, stamp, change) => RecordKeepsWf(s, id, stamp, change);
    case Drop(id) => DropKeepsWf(s, id);
    case Read(id) => ReadKeepsWf(s, id);
  }

  // ---- The byte map ---------------------------------------------------------------

  /** Nothing happens to the bytes but that releases go away whole. */
  ghost predicate OnlySweeps(before: Releases, after: Releases) {
    forall j, f, at: nat {:trigger ByteIn(after, j, f, at)} ::
      ByteIn(after, j, f, at) == if j in after then ByteIn(before, j, f, at) else None
  }

  /** A span is laid over the bytes of one file, and nothing else changes. */
  ghost predicate Lays(before: Releases, after: Releases, id: ReleaseId, file: string, span: Span) {
    forall j, f, at: nat {:trigger ByteIn(after, j, f, at)} ::
      ByteIn(after, j, f, at) ==
        if j == id && f == file && span.start <= at < span.End() then Some(span.data[at - span.start])
        else ByteIn(before, j, f, at)
  }

  lemma SweepRefines(before: Releases, after: Releases, log: seq<Event>)
    requires Refines(before, log) && OnlySweeps(before, after)
    ensures Refines(after, log + [Gone(before.Keys - after.Keys)])
  {
    hide ByteIn;
    var log1 := log + [Gone(before.Keys - after.Keys)];
    assert log1[..|log1| - 1] == log;
    forall j, f, at: nat ensures ByteIn(after, j, f, at) == LastWrite(log1, j, f, at) {
      assert ByteIn(before, j, f, at) == LastWrite(log, j, f, at);
      if j !in before && j !in after {
        AbsentHasNoBytes(before, j, f, at);
      }
    }
  }

  lemma AbsentHasNoBytes(rels: Releases, j: ReleaseId, f: string, at: nat)
    requires j !in rels
    ensures ByteIn(rels, j, f, at) == None
  {
  }

  lemma LayRefines(before: Releases, after: Releases, log: seq<Event>, id: ReleaseId, file: string, span: Span)
    requires Refines(before, log) && Lays(before, after, id, file, span)
    ensures Refines(after, log + [Wrote(id, file, span)])
  {
    hide ByteIn;
    var log1 := log + [Wrote(id, file, span)];
    assert log1[..|log1| - 1] == log;
    forall j, f, at: nat ensures ByteIn(after, j, f, at) == LastWrite(log1, j, f, at) {
      assert ByteIn(before, j, f, at) == LastWrite(log, j, f, at);
    }
  }

  /** A commit that goes through evicts whole releases and then lays the span over its
      file's bytes; one that is refused changes nothing at all. */
  lemma CommitBytes(s: Store, id: ReleaseId, stamp: Stamp, file: CensusFile, span: Span)
    requires Wf(s) && span.data != []
    ensures
      var (after, result) := Committed(s, id, stamp, file, span);
      if result.Err? then after == s
      else
        exists kept: Releases ::
          && OnlySweeps(s.releases, kept)
          && kept.Keys + {id} == after.releases.Keys
          && (id in s.releases ==> id in kept)
          && Lays(kept, after.releases, id, file.name, span)
  {
    hide Total, EvictToFit, Placeable, Patched, CheckOverlap, OnlySweeps, Lays, Wf, CheckCommit, OrderedFiles;
    StoreIsOrdered(s, id);
    var check := CheckCommit(s, id, stamp, file, span);
    if check.Ok? {
      var kept := EvictToFit(s.releases, check.value, Some(id), s.budget);
      KeptForCommit(s, id, stamp, file, span, check.value);
      SubsetSweeps(s.releases, kept);
      PatchLays(kept, id, stamp, file, span, check.value, s.clock + 1);
    }
  }

  lemma StoreIsOrdered(s: Store, id: ReleaseId)
    requires Wf(s)
    ensures id in s.releases ==> OrderedFiles(s.releases[id]) && WfRelease(s.releases[id])
  {
    hide Total, Injective, FileCosts, SpanSums;
  }

  /** What an eviction leaves for a commit: the release's own base, and the rest as it was. */
  lemma KeptForCommit(s: Store, id: ReleaseId, stamp: Stamp, file: CensusFile, span: Span, growth: nat)
    requires Wf(s) && span.data != [] && CheckCommit(s, id, stamp, file, span) == Ok(growth)
    ensures
      var kept := EvictToFit(s.releases, growth, Some(id), s.budget);
      && (id in s.releases ==> id in kept)
      && BaseRelease(kept, id, stamp, s.clock + 1) == BaseRelease(s.releases, id, stamp, s.clock + 1)
      && Placeable(BaseRelease(kept, id, stamp, s.clock + 1), file, span, growth)
  {
    hide Total, EvictToFit, Placeable, Wf, WfRelease, CheckCommit, OrderedFiles;
    StoreIsOrdered(s, id);
    EvictKeeps(s.releases, growth, Some(id), s.budget);
    CheckedIsPlaceable(s, id, stamp, file, span, s.clock + 1);
  }

  lemma SubsetSweeps(before: Releases, after: Releases)
    requires forall id :: id in after ==> id in before && after[id] == before[id]
    ensures OnlySweeps(before, after)
  {
  }

  lemma PatchLays(kept: Releases, id: ReleaseId, stamp: Stamp, file: CensusFile, span: Span, growth: nat, now: nat)
    requires Placeable(BaseRelease(kept, id, stamp, now), file, span, growth)
    ensures
      var base := BaseRelease(kept, id, stamp, now);
      Lays(kept, kept[id := Patched(base, stamp, file, span, growth, now)], id, file.name, span)
  {
    hide Insert, CheckOverlap;
    var base := BaseRelease(kept, id, stamp, now);
    var after := kept[id := Patched(base, stamp, file, span, growth, now)];
    var spans := BaseFile(base, file).spans;
    InsertOverlays(spans, span);
    if file.name !in base.files {
      forall at: nat ensures ByteAt(spans, at) == None {
        NothingAt(spans, 0, at);
      }
    }
    forall j, f, at: nat {:trigger ByteIn(after, j, f, at)}
      ensures ByteIn(after, j, f, at) ==
        if j == id && f == file.name && span.start <= at < span.End() then
          Some(span.data[at - span.start])
        else ByteIn(kept, j, f, at)
    {
      if j == id && f == file.name {
        assert ByteIn(after, j, f, at) == Overlaid(spans, span, at);
        assert ByteIn(kept, j, f, at) == ByteAt(spans, at);
      }
    }
  }

  lemma RecordBytes(s: Store, id: ReleaseId, stamp: Stamp, change: Change)
    requires Wf(s)
    ensures OnlySweeps(s.releases, Recorded(s, id, stamp, change).0.releases)
  {
    hide Total, EvictToFit, Wf;
    var was := BaseRelease(s.releases, id, stamp, s.clock + 1);
    var r := Updated(was, stamp, change);
    EvictKeeps(s.releases, Sat(r.metaBytes, was.metaBytes), Some(id), s.budget);
  }

  /** One section keeps the store a picture of its log. */
  lemma NextRefines(s: Store, log: seq<Event>, op: Op)
    requires Wf(s) && Possible(s, op) && Refines(s.releases, log)
    ensures Refines(Next(s, op).releases, log + Events(s, op))
  {
    hide Wf, Refines, OnlySweeps, Lays, Committed, Recorded;
    var after := Next(s, op).releases;
    match op
    case Commit(id, stamp, file, span) => CommitRefines(s, log, id, stamp, file, span);
    case Record(id, stamp, change) =>
      RecordBytes(s, id, stamp, change);
      SweepRefines(s.releases, after, log);
      assert log + Events(s, op) == log + [Gone(s.releases.Keys - after.Keys)];
    case Drop(id) =>
      SubsetSweeps(s.releases, after);
      SweepRefines(s.releases, after, log);
      assert log + Events(s, op) == log + [Gone(s.releases.Keys - after.Keys)];
    case Read(id) =>
      TouchSweeps(s, id);
      SweepRefines(s.releases, after, log);
      assert log + Events(s, op) == log + [Gone(s.releases.Keys - after.Keys)];
  }

  lemma CommitRefines(s: Store, log: seq<Event>, id: ReleaseId, stamp: Stamp, file: CensusFile, span: Span)
    requires Wf(s) && Possible(s, Commit(id, stamp, file, span)) && Refines(s.releases, log)
    ensures
      var op := Commit(id, stamp, file, span);
      Refines(Next(s, op).releases, log + Events(s, op))
  {
    hide Wf, Refines, OnlySweeps, Lays, Committed;
    var op := Commit(id, stamp, file, span);
    var after := Next(s, op).releases;
    CommitBytes(s, id, stamp, file, span);
    if Committed(s, id, stamp, file, span).1.Ok? {
      var kept :|
        && OnlySweeps(s.releases, kept)
        && kept.Keys + {id} == after.Keys
        && (id in s.releases ==> id in kept)
        && Lays(kept, after, id, file.name, span);
      var gone := Gone(s.releases.Keys - after.Keys);
      assert s.releases.Keys - kept.Keys == s.releases.Keys - after.Keys;
      SweepRefines(s.releases, kept, log);
      LayRefines(kept, after, log + [gone], id, file.name, span);
      assert log + Events(s, op) == (log + [gone]) + [Wrote(id, file.name, span)];
    } else {
      SubsetSweeps(s.releases, after);
      SweepRefines(s.releases, after, log);
      assert log + Events(s, op) == log + [Gone(s.releases.Keys - after.Keys)];
    }
  }

  lemma TouchSweeps(s: Store, id: ReleaseId)
    requires id in s.releases
    ensures OnlySweeps(s.releases, Touched(s, id).releases)
  {
  }

  /** Whatever the order of commits, record updates, drops and reads, and whatever is
      evicted on the way, the store stays well-formed, within its budget, and holds for
      each offset of each file the last byte written there since its release was last
      taken out. */
  lemma {:induction false} RunsRefineTheByteMap(
      s: Store, log: seq<Event>, ops: seq<Op>, end: Store, endLog: seq<Event>)
    requires Wf(s) && Refines(s.releases, log) && Run(s, log, ops, end, endLog)
    ensures Wf(end) && Refines(end.releases, endLog)
    ensures end.budget == s.budget && Total(ByteSums(end.releases)) <= s.budget
    decreases |ops|
  {
    if ops != [] {
      NextKeepsWf(s, ops[0]);
      NextRefines(s, log, ops[0]);
      RunsRefineTheByteMap(Next(s, ops[0]), log + Events(s, ops[0]), ops[1..], end, endLog);
    }
  }

  function NewStore(budget: nat): Store {
    Store(budget, 0, map[])
  }

  lemma NewStoreRefines(budget: nat)
    ensures Wf(NewStore(budget)) && Refines(NewStore(budget).releases, [])
  {
    assert ByteSums(NewStore(budget).releases).Keys == {};
  }
}
