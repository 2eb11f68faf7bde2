/** The patch store itself: releases, cached counters, message-id index and recency clock,
    updated in place, one method per locked section. */
module PatchStores {
  import opened Wrappers
  import opened Articles
  import opened MapFacts
  import opened PatchSpans
  import opened PatchModel
  import opened PatchIndex
  import opened PatchRuns
  import opened PatchAnswers

  /** The reference, if any, that a reader of a message-id is served from. */
  ghost predicate Serves(rels: Releases, ref: ArticleRef) {
    && HasFile(rels, ref.release, ref.file)
    && ref.len > 0
    && Covered(rels[ref.release].files[ref.file].spans, ref.offset, ref.offset + ref.len)
  }

  /** The bytes of a reference, as the byte map has them. */
  ghost predicate AreBytesOf(rels: Releases, ref: ArticleRef, bytes: seq<Byte>) {
    && |bytes| == ref.len
    && forall i :: 0 <= i < |bytes| ==>
         ByteIn(rels, ref.release, ref.file, ref.offset + i) == Some(bytes[i])
  }

  class PatchStore {
    const budget: nat
    var clock: nat
    var releases: Releases
    var articles: Index
    var dataBytes: nat
    var metaBytes: nat
    var spans: nat

    /** What was written and what went, section by section. */
    ghost var log: seq<Event>

    ghost function Abs(): Store
      reads this
    {
      Store(budget, clock, releases)
    }

    /** The counters are the sums they stand for and the index is exact. */
    ghost predicate Consistent()
      reads `releases, `articles, `dataBytes, `metaBytes, `spans
    {
      && dataBytes == Total(DataSums(releases))
      && metaBytes == Total(MetaSums(releases))
      && spans == Total(CountSums(releases))
      && Exact(articles, releases)
    }

    ghost predicate Intact()
      reads this
    {
      Wf(Abs()) && Consistent()
    }

    /** The store is intact, and holds for each offset the byte last written there since its
        release was last taken out. */
    ghost predicate Valid()
      reads this
    {
      Intact() && Refines(releases, log)
    }

    constructor InMemory(budget: nat)
      ensures Valid() && Abs() == NewStore(budget) && log == []
    {
      this.budget := budget;
      clock, releases, articles, log := 0, map[], map[], [];
      dataBytes, metaBytes, spans := 0, 0, 0;
      new;
      NewStoreRefines(budget);
      TotalEmpty(DataSums(releases));
      TotalEmpty(MetaSums(releases));
      TotalEmpty(CountSums(releases));
    }

    /** The total the budget bounds: the two cached counters together. */
    lemma CountersAreTheTotal()
      requires Consistent()
      ensures dataBytes + metaBytes == Total(ByteSums(releases))
    {
      TotalSum(DataSums(releases), MetaSums(releases), ByteSums(releases));
    }

    /** In any valid state: the bytes held stay within the budget, no reference dangles,
        every article of every patched file is indexed. */
    lemma ValidMeans()
      requires Intact()
      ensures dataBytes + metaBytes <= budget
      ensures forall m, ref :: m in articles && ref in articles[m] ==> HasFile(releases, ref.release, ref.file)
      ensures forall id, file, a ::
        HasFile(releases, id, file) && a in releases[id].files[file].articles ==>
          a.messageId in articles && Names(articles[a.messageId], id, file)
    {
      CountersAreTheTotal();
      forall m, ref | m in articles && ref in articles[m]
        ensures HasFile(releases, ref.release, ref.file)
      {
        assert ref in RefsOf(articles, m);
        assert IsRef(releases, m, ref);
      }
      forall id, file, a | HasFile(releases, id, file) && a in releases[id].files[file].articles
        ensures a.messageId in articles && Names(articles[a.messageId], id, file)
      {
        var f := FirstOf(releases[id].files[file].articles, a.messageId).value;
        var ref := ArticleRef(id, file, f.offset, f.len);
        assert IsRef(releases, a.messageId, ref);
        assert ref in RefsOf(articles, a.messageId);
      }
    }

    lemma WfIsInjective()
      requires Wf(Abs())
      ensures Injective(LastReads(releases))
    {
    }

    // ---- The index ----------------------------------------------------------------

    method IndexArticles(release: ReleaseId, file: string, list: seq<ArticleSpan>)
      modifies this`articles
      ensures articles == IndexFile(old(articles), release, file, list)
    {
      var i := 0;
      while i < |list|
        invariant 0 <= i <= |list|
        invariant IndexFile(articles, release, file, list[i..])
          == IndexFile(old(articles), release, file, list)
      {
        articles := AddRef(articles, release, file, list[i]);
        assert list[i..][1..] == list[i + 1..];
        i := i + 1;
      }
    }

    /** Take a release's references out of the index, for the articles of one file. */
    method ForgetArticles(list: seq<ArticleSpan>, id: ReleaseId, ghost before: Index, ghost done: set<string>)
      returns (ghost after: set<string>)
      requires articles == Without(before, done, id)
      modifies this`articles
      ensures articles == Without(before, after, id)
      ensures done <= after && forall a :: a in list ==> a.messageId in after
    {
      after := done;
      var i := 0;
      while i < |list|
        invariant 0 <= i <= |list|
        invariant articles == Without(before, after, id)
        invariant done <= after && forall k :: 0 <= k < i ==> list[k].messageId in after
      {
        var m := list[i].messageId;
        ForgetMore(before, after, m, id);
        articles := Forget(articles, m, id);
        after := after + {m};
        i := i + 1;
      }
    }

    /** Take a release out: its references, its counts, then nothing of it is left. */
    method RemoveRelease(id: ReleaseId) returns (found: bool)
      requires Intact()
      modifies `clock, `releases, `articles, `dataBytes, `metaBytes, `spans
      ensures Intact()
      ensures Abs() == Dropped(old(Abs()), id)
      ensures found == (id in old(releases))
    {
      hide Total, Wf, Exact, Without, PickedCounts, SpanCounts, CountSums, DataSums, MetaSums;
      if id !in releases {
        assert releases - {id} == releases;
        return false;
      }
      ghost var before, all := articles, releases;
      var release := releases[id];
      RemovalSums(id);
      releases := releases - {id};
      var names := release.files.Keys;
      ghost var done: set<string> := {};
      WithoutNothing(before, id);
      PickAll(release.files);
      while names != {}
        invariant names <= release.files.Keys
        invariant articles == Without(before, done, id)
        invariant forall n, a :: n in release.files && n !in names && a in release.files[n].articles ==>
          a.messageId in done
        invariant spans == Total(CountSums(releases)) + Total(PickedCounts(release.files, names))
        invariant releases == all - {id} && clock == old(clock)
        invariant dataBytes == old(dataBytes) && metaBytes == old(metaBytes)
        decreases names
      {
        var n :| n in names;
        done := ForgetArticles(release.files[n].articles, id, before, done);
        PickOne(release.files, names, n);
        spans := spans - |release.files[n].spans|;
        names := names - {n};
      }
      PickNone(release.files);
      dataBytes := dataBytes - release.dataBytes;
      metaBytes := metaBytes - release.metaBytes;
      WithoutExact(before, all, done, id);
      DropKeepsWf(old(Abs()), id);
      found := true;
    }

    lemma RemovalSums(id: ReleaseId)
      requires Consistent() && id in releases
      ensures dataBytes == Total(DataSums(releases - {id})) + releases[id].dataBytes
      ensures metaBytes == Total(MetaSums(releases - {id})) + releases[id].metaBytes
      ensures spans == Total(CountSums(releases - {id})) + Total(SpanCounts(releases[id].files))
    {
      hide Total;
      TotalTake(DataSums(releases), id);
      TotalTake(MetaSums(releases), id);
      TotalTake(CountSums(releases), id);
      assert DataSums(releases - {id}) == DataSums(releases) - {id};
      assert MetaSums(releases - {id}) == MetaSums(releases) - {id};
      assert CountSums(releases - {id}) == CountSums(releases) - {id};
    }

    /** Evict least recently read releases other than `keep` until the growth fits. */
    method EvictToFitInPlace(growth: nat, keep: Option<ReleaseId>)
      requires Intact()
      modifies `clock, `releases, `articles, `dataBytes, `metaBytes, `spans
      ensures Intact() && clock == old(clock)
      ensures releases == EvictToFit(old(releases), growth, keep, budget)
    {
      hide Total, WfRelease, Exact, Consistent, Wf, EvictToFit, Candidates;
      CountersAreTheTotal();
      while dataBytes + metaBytes + growth > budget
        invariant Intact() && clock == old(clock)
        invariant dataBytes + metaBytes == Total(ByteSums(releases))
        invariant EvictToFit(releases, growth, keep, budget)
          == EvictToFit(old(releases), growth, keep, budget)
        decreases |releases|
      {
        var candidates := Candidates(releases, keep);
        EvictionTurn(releases, growth, keep, budget);
        if candidates.Keys == {} {
          return;
        }
        WfIsInjective();
        CandidatesInjective(releases, keep);
        var victim := FindOldest(candidates);
        var removed := RemoveRelease(victim);
        CountersAreTheTotal();
      }
      EvictionTurn(releases, growth, keep, budget);
    }

    // ---- Inserts ------------------------------------------------------------------

    /** The unlocked half of an insert: what it would be refused for, and whether the
        release's older patches come from another NZB blob and have to go first. */
    method CheckInsert(id: ReleaseId, stamp: Stamp, file: CensusFile, span: Span)
      returns (r: Result<bool, PatchError>)
      requires Intact()
      ensures r == Err(Empty) <==> span.data == []
      ensures r.Err? && r.error.OutOfFile? <==>
        span.data != [] && span.End() > LayoutSize(file.articles)
      ensures span.data != [] && span.End() <= LayoutSize(file.articles) ==>
        var stale := StaleFor(Lookup(releases, id), stamp);
        var check := CheckCommit(Abs().(releases := if stale then releases - {id} else releases),
                                 id, stamp, file, span);
        r == if check.Ok? then Ok(stale) else Err(check.error)
      ensures Answered(Abs(), id, stamp, file, span, if r.Ok? then Ok(()) else Err(r.error))
      ensures r.Ok? ==> r.value == (id in releases && releases[id].stamp.blob != stamp.blob)
    {
      hide Answered;
      CheckAnswers(Abs(), id, stamp, file, span);
      if span.data == [] {
        return Err(Empty);
      }
      var size := LayoutSize(file.articles);
      if span.End() > size {
        return Err(OutOfFile(span.start, |span.data|, size));
      }
      var existing := Lookup(releases, id);
      var stale := StaleFor(existing, stamp);
      var current := if stale then None else existing;
      var fits := Fits(current, file, span.start, |span.data|, budget);
      if fits.Err? {
        return Err(fits.error);
      }
      return Ok(stale);
    }

    /** The locked half of an insert. It logs what it wrote and what went to make room. */
    method Commit(id: ReleaseId, stamp: Stamp, file: CensusFile, span: Span)
      returns (r: Result<(), PatchError>)
      requires Valid() && span.data != [] && span.End() <= LayoutSize(file.articles)
      modifies this
      ensures Valid()
      ensures (Abs(), r) == Committed(old(Abs()), id, stamp, file, span)
      ensures log == old(log) + Events(old(Abs()), Op.Commit(id, stamp, file, span))
      ensures r == Err(Stale) <==> id in old(releases) && old(releases)[id].stamp.blob != stamp.blob
      ensures r != Err(Stale) ==> Answered(old(Abs()), id, stamp, file, span, r)
      ensures r.Ok? ==> Newest(Abs(), id) && releases[id].stamp == stamp
    {
      hide Wf, Consistent, Refines, Events, Committed, LayoutSize, Answered, Newest;
      ghost var was, op := Abs(), Op.Commit(id, stamp, file, span);
      CommitAnswers(was, id, stamp, file, span);
      if Committed(was, id, stamp, file, span).1.Ok? {
        CommitIsNewest(was, id, stamp, file, span);
      }
      NextRefines(was, log, op);
      r := PlaceSpan(id, stamp, file, span);
      log := log + Events(was, op);
    }

    /** Check again, make room, and only then index the span. */
    method PlaceSpan(id: ReleaseId, stamp: Stamp, file: CensusFile, span: Span)
      returns (r: Result<(), PatchError>)
      requires Intact() && span.data != []
      modifies `clock, `releases, `articles, `dataBytes, `metaBytes, `spans
      ensures Intact()
      ensures (Abs(), r) == Committed(old(Abs()), id, stamp, file, span)
    {
      hide Total, Exact, Fits, Placeable, Patched, EvictToFit, WfRelease, Consistent;
      ghost var was := Abs();
      EachReleaseOrdered();
      var check := CheckCommit(Store(budget, clock, releases), id, stamp, file, span);
      if check.Err? {
        return Err(check.error);
      }
      CheckedPlace(was, id, stamp, file, span);
      EvictToFitInPlace(check.value, Some(id));
      EvictKeeps(was.releases, check.value, Some(id), budget);
      assert BaseRelease(releases, id, stamp, clock + 1) == BaseRelease(was.releases, id, stamp, clock + 1);
      IndexSpan(id, stamp, file, span, check.value);
      CommitKeepsWf(was, id, stamp, file, span);
      r := Ok(());
    }

    /** Put a span that fits into its release, with its charge and its references. */
    method IndexSpan(id: ReleaseId, stamp: Stamp, file: CensusFile, span: Span, growth: nat)
      requires Consistent()
      requires Placeable(BaseRelease(releases, id, stamp, clock + 1), file, span, growth)
      modifies `clock, `releases, `articles, `dataBytes, `metaBytes, `spans
      ensures Consistent() && clock == old(clock) + 1
      ensures releases == old(releases)[id :=
        Patched(BaseRelease(old(releases), id, stamp, old(clock) + 1), stamp, file, span, growth,
                old(clock) + 1)]
    {
      hide Total, Exact, CheckOverlap, Insert, IndexFile, DataSums, MetaSums, CountSums, Ordered, FileCost;
      ghost var kept, index := releases, articles;
      var now := clock + 1;
      clock := now;
      var entry := BaseRelease(releases, id, stamp, now);
      var newFile := file.name !in entry.files;
      var patches := BaseFile(entry, file);
      ReplacedIs(entry, file, span, growth);
      PatchSums(kept, id, stamp, file, span, growth, now);
      PatchKeepsExact(kept, index, id, stamp, file, span, growth, now);
      var replaced := ReplacedLen(patches.spans, span.start);
      var dataGrowth := |span.data| - replaced;
      var metaGrowth := growth - dataGrowth;
      entry := Release(
        entry.stamp.(fingerprint := stamp.fingerprint),
        entry.files[file.name := patches.(spans := Insert(patches.spans, span))],
        entry.holes,
        entry.verdict,
        entry.dataBytes + dataGrowth,
        entry.metaBytes + metaGrowth,
        now);
      releases := releases[id := entry];
      dataBytes := dataBytes + dataGrowth;
      metaBytes := metaBytes + metaGrowth;
      if replaced == 0 {
        spans := spans + 1;
      }
      if newFile {
        IndexArticles(id, file.name, file.articles);
      }
    }

    /** An insert with nothing in between its sections: a span in its file that clashes with
        none and fits the budget is stored, whatever is there of an older blob goes first, and
        what is refused leaves the store as it was. */
    method InsertPatch(id: ReleaseId, stamp: Stamp, file: CensusFile, span: Span)
      returns (r: Result<(), PatchError>)
      requires Valid()
      modifies this
      ensures Valid()
      ensures r.Err? ==> Abs() == old(Abs())
      ensures Answered(old(Abs()), id, stamp, file, span, r)
      ensures r.Ok? ==> Newest(Abs(), id) && releases[id].stamp == stamp
      ensures r.Ok? ==>
        && Wf(Fresh(old(Abs()), id, stamp))
        && Abs() == Committed(Fresh(old(Abs()), id, stamp), id, stamp, file, span).0
    {
      hide Wf, Consistent, Refines, Committed, CheckCommit, Answered, Newest;
      ghost var was := Abs();
      FreshIsWf(was, id, stamp);
      FreshAnswers(was, id, stamp, file, span);
      var check := CheckInsert(id, stamp, file, span);
      if check.Err? {
        return Err(check.error);
      }
      if check.value {
        var dropped := DropRelease(id);
      }
      assert Abs() == Fresh(was, id, stamp);
      r := Commit(id, stamp, file, span);
      OnlyOneAnswer(was, id, stamp, file, span, r);
    }

    // ---- Records, drops and reads --------------------------------------------------

    /** Change a release's hole records or verdict and charge them. What an older NZB blob
        left goes first. */
    method UpdateRecords(id: ReleaseId, stamp: Stamp, change: Change)
      returns (r: Result<(), PatchError>)
      requires Valid()
      modifies this
      ensures Valid()
      ensures Wf(Fresh(old(Abs()), id, stamp))
      ensures (Abs(), r) == Recorded(Fresh(old(Abs()), id, stamp), id, stamp, change)
      ensures r.Ok? <==> RecordsNeed(old(Abs()), id, stamp, change) <= budget
      ensures r.Err? ==> r.error == OverBudget(RecordsNeed(old(Abs()), id, stamp, change), budget)
      ensures r.Ok? ==> id in releases && releases[id].stamp == stamp
    {
      hide Wf, Consistent, Refines, Recorded, RecordsNeed, RecordedOnce, LastOf;
      FreshIsWf(Abs(), id, stamp);
      FreshRecords(Abs(), id, stamp, change);
      if StaleFor(Lookup(releases, id), stamp) {
        var dropped := DropRelease(id);
      }
      r := CommitRecords(id, stamp, change);
    }

    /** The locked half of a record update. It logs what went to make room. */
    method CommitRecords(id: ReleaseId, stamp: Stamp, change: Change)
      returns (r: Result<(), PatchError>)
      requires Valid()
      modifies this
      ensures Valid()
      ensures (Abs(), r) == Recorded(old(Abs()), id, stamp, change)
      ensures log == old(log) + Events(old(Abs()), Op.Record(id, stamp, change))
    {
      hide Wf, Consistent, Refines, Events, Recorded;
      ghost var was, op := Abs(), Op.Record(id, stamp, change);
      NextRefines(was, log, op);
      r := ChangeRecords(id, stamp, change);
      log := log + Events(was, op);
    }

    /** Check the charge, make room, and put the changed records in. */
    method ChangeRecords(id: ReleaseId, stamp: Stamp, change: Change)
      returns (r: Result<(), PatchError>)
      requires Intact()
      modifies `clock, `releases, `articles, `dataBytes, `metaBytes, `spans
      ensures Intact()
      ensures (Abs(), r) == Recorded(old(Abs()), id, stamp, change)
    {
      hide Total, Exact, EvictToFit, WfRelease, DataSums, MetaSums, CountSums, Wf, FileCosts, HolesCost, VerdictCost,
           ChangedHoles, ChangedVerdict;
      ghost var was := Abs();
      var existing := Lookup(releases, id);
      if StaleFor(existing, stamp) {
        return Err(Stale);
      }
      var entry := BaseRelease(releases, id, stamp, clock + 1);
      var holes := ChangedHoles(entry.holes, change);
      var verdict := ChangedVerdict(entry.verdict, change);
      var filesCost := SumUp(FileCosts(entry.files));
      var meta := filesCost + HolesCost(holes) + VerdictCost(verdict);
      var oldMeta, data := entry.metaBytes, entry.dataBytes;
      if data + meta > budget {
        return Err(OverBudget(data + meta, budget));
      }
      EvictToFitInPlace(Sat(meta, oldMeta), Some(id));
      EvictKeeps(was.releases, Sat(meta, oldMeta), Some(id), budget);
      PutRecords(id, entry, stamp, holes, verdict, meta);
      RecordKeepsWf(was, id, stamp, change);
      r := Ok(());
    }

    /** Put changed records into a release, with their charge. */
    method PutRecords(id: ReleaseId, entry: Release, stamp: Stamp, holes: seq<HoleRecord>,
                      verdict: Option<ReleaseVerdict>, meta: nat)
      requires Consistent()
      requires if id in releases then entry == releases[id] else entry.files == map[] && entry.Bytes() == 0
      modifies `clock, `releases, `metaBytes
      ensures Consistent() && clock == old(clock) + 1
      ensures releases == old(releases)[id :=
        entry.(stamp := entry.stamp.(fingerprint := stamp.fingerprint),
               holes := holes, verdict := verdict, metaBytes := meta)]
    {
      hide Total, Exact, DataSums, MetaSums, CountSums;
      ghost var kept := releases;
      clock := clock + 1;
      var changed := entry.(stamp := entry.stamp.(fingerprint := stamp.fingerprint),
                            holes := holes, verdict := verdict, metaBytes := meta);
      UpdateSums(kept, id, entry, changed);
      releases := releases[id := changed];
      metaBytes := metaBytes - entry.metaBytes + meta;
    }

    /** The release and all the store knows of it are gone. */
    method DropRelease(id: ReleaseId) returns (found: bool)
      requires Valid()
      modifies this
      ensures Valid()
      ensures Abs() == Dropped(old(Abs()), id)
      ensures found == (id in old(releases))
      ensures log == old(log) + Events(old(Abs()), Op.Drop(id))
    {
      hide Wf, Consistent, Refines, Events;
      ghost var was, op := Abs(), Op.Drop(id);
      NextRefines(was, log, op);
      found := RemoveRelease(id);
      log := log + Events(was, op);
    }

    /** The first of a message-id's references whose whole span patches cover, and the
        pieces that cover it. */
    method FindPieces(m: string) returns (r: Option<(nat, seq<Piece>)>)
      requires Intact()
      ensures r.Some? <==> exists ref :: IsRef(releases, m, ref) && Serves(releases, ref)
      ensures r.Some? ==>
        var (k, pieces) := r.value;
        && k < |RefsOf(articles, m)|
        && var ref := RefsOf(articles, m)[k];
           && Serves(releases, ref)
           && (forall i :: 0 <= i < k ==> !Serves(releases, RefsOf(articles, m)[i]))
           && (forall p :: p in pieces ==> p.from + p.n <= |p.data|)
           && AreBytesOf(releases, ref, PieceBytes(pieces))
    {
      hide Total, DataSums, MetaSums, CountSums, Gathered, AreBytesOf, PieceBytes, IsRef;
      var refs := RefsOf(articles, m);
      var k := 0;
      while k < |refs|
        invariant 0 <= k <= |refs|
        invariant forall i :: 0 <= i < k ==> !Serves(releases, refs[i])
      {
        var ref := refs[k];
        assert IsRef(releases, m, ref);
        RefIsLive(releases, m, ref);
        var found := Pieces(releases[ref.release].files[ref.file].spans, ref.offset, ref.len);
        if found.Some? {
          GatheredAre(releases, ref, found.value);
          return Some((k, found.value));
        }
        k := k + 1;
      }
      forall ref | IsRef(releases, m, ref) ensures !Serves(releases, ref) {
        assert ref in refs;
      }
      r := None;
    }

    /** The patched bytes of an article: those written last to the first of its files the
        whole of it was written to, and none exactly when it was not to any. The article is
        read whole or not at all, and the read counts for its release's recency. */
    method ReadArticle(m: string) returns (r: Option<seq<Byte>>, ghost from: nat)
      requires Valid()
      modifies this`releases, this`clock, this`log
      ensures Valid()
      ensures r.Some? <==> exists ref :: IsRef(old(releases), m, ref) && Written(old(log), ref)
      ensures r.None? ==> Abs() == old(Abs()) && log == old(log)
      ensures r.Some? ==>
        && from < |RefsOf(articles, m)|
        && var ref := RefsOf(articles, m)[from];
           && IsRef(old(releases), m, ref) && Written(old(log), ref)
           && |r.value| == ref.len
           && (forall i :: 0 <= i < |r.value| ==>
                 LastWrite(old(log), ref.release, ref.file, ref.offset + i) == Some(r.value[i]))
           && (forall k :: 0 <= k < from ==> !Written(old(log), RefsOf(articles, m)[k]))
           && Abs() == Touched(old(Abs()), ref.release) && Newest(Abs(), ref.release)
           && log == old(log) + Events(old(Abs()), Op.Read(ref.release))
    {
      hide Wf, Consistent, Refines, Events, IsRef, Serves, AreBytesOf, Written, LastWrite, Newest;
      ghost var was := Abs();
      ServedAreWritten(m);
      r, from := ServeArticle(m);
      if r.Some? {
        ghost var ref := RefsOf(articles, m)[from];
        assert ref in RefsOf(articles, m);
        RefIsLive(was.releases, m, ref);
        BytesAreLastWrites(was.releases, log, ref, r.value);
        BytesHaveItsLength(was.releases, ref, r.value);
        ReadIsNewest(was, ref.release);
        NextRefines(was, log, Op.Read(ref.release));
        log := log + Events(was, Op.Read(ref.release));
      }
    }

    /** For every reference of a message-id, being served is having been written. */
    lemma ServedAreWritten(m: string)
      requires Valid()
      ensures forall ref :: ref in RefsOf(articles, m) <==> IsRef(releases, m, ref)
      ensures forall ref :: IsRef(releases, m, ref) ==> (Serves(releases, ref) <==> Written(log, ref))
    {
      hide Wf, Refines, IsRef, Serves, Written, LastWrite, Total;
      forall ref | IsRef(releases, m, ref) ensures Serves(releases, ref) <==> Written(log, ref) {
        RefIsLive(releases, m, ref);
        BytesAreLastWrites(releases, log, ref, []);
      }
    }

    /** The bytes of the first reference patches cover the whole of. */
    method ServeArticle(m: string) returns (r: Option<seq<Byte>>, ghost from: nat)
      requires Intact()
      modifies this`releases, this`clock
      ensures Intact()
      ensures r.Some? <==> exists ref :: IsRef(old(releases), m, ref) && Serves(old(releases), ref)
      ensures r.None? ==> Abs() == old(Abs())
      ensures r.Some? ==>
        && from < |RefsOf(articles, m)|
        && var ref := RefsOf(articles, m)[from];
           && Serves(old(releases), ref) && AreBytesOf(old(releases), ref, r.value)
           && (forall k :: 0 <= k < from ==> !Serves(old(releases), RefsOf(articles, m)[k]))
           && Abs() == Touched(old(Abs()), ref.release)
    {
      hide Total, DataSums, MetaSums, CountSums, Exact, WfRelease, AreBytesOf, IsRef, Covered;
      var found := FindPieces(m);
      if found.None? {
        return None, 0;
      }
      from := found.value.0;
      var bytes := Assemble(found.value.1);
      var id := RefsOf(articles, m)[found.value.0].release;
      ReadKeepsWf(Abs(), id);
      TouchKeepsConsistent(id);
      clock := clock + 1;
      releases := releases[id := releases[id].(lastRead := clock)];
      r := Some(bytes);
    }

    lemma TouchKeepsConsistent(id: ReleaseId)
      requires Consistent() && id in releases
      ensures
        var after := releases[id := releases[id].(lastRead := clock + 1)];
        && dataBytes == Total(DataSums(after))
        && metaBytes == Total(MetaSums(after))
        && spans == Total(CountSums(after))
        && Exact(articles, after)
    {
      hide Total, Exact;
      var after := releases[id := releases[id].(lastRead := clock + 1)];
      assert DataSums(after) == DataSums(releases);
      assert MetaSums(after) == MetaSums(releases);
      assert CountSums(after) == CountSums(releases);
      assert SameLayouts(releases, after);
      SameLayoutsExact(articles, releases, after);
    }

    lemma EachReleaseOrdered()
      requires Wf(Abs())
      ensures forall id :: id in releases ==> OrderedFiles(releases[id])
    {
    }
  }

  /** The length of the span an insert at an offset replaces, if it replaces one. */
  function ReplacedLen(spans: seq<Span>, start: nat): nat
    requires Ordered(spans)
  {
    if ReplacesAt(spans, start) then |spans[StartingBefore(spans, start)].data| else 0
  }

  lemma ReplacedIs(base: Release, file: CensusFile, span: Span, growth: nat)
    requires Placeable(base, file, span, growth)
    ensures ReplacedLen(BaseFile(base, file).spans, span.start)
      == CheckOverlap(BaseFile(base, file).spans, span.start, |span.data|).value
    ensures |span.data| - CheckOverlap(BaseFile(base, file).spans, span.start, |span.data|).value <= growth
    ensures CheckOverlap(BaseFile(base, file).spans, span.start, |span.data|).value <= |span.data|
  {
    InsertPlace(BaseFile(base, file).spans, span);
  }

  /** What a patch adds to the three counters. */
  lemma PatchSums(kept: Releases, id: ReleaseId, stamp: Stamp, file: CensusFile, span: Span, growth: nat, now: nat)
    requires Placeable(BaseRelease(kept, id, stamp, now), file, span, growth)
    ensures
      var base := BaseRelease(kept, id, stamp, now);
      var after := kept[id := Patched(base, stamp, file, span, growth, now)];
      var replaced := ReplacedLen(BaseFile(base, file).spans, span.start);
      && Total(DataSums(after)) == Total(DataSums(kept)) + |span.data| - replaced
      && Total(MetaSums(after)) == Total(MetaSums(kept)) + growth - (|span.data| - replaced)
      && Total(CountSums(after)) == Total(CountSums(kept)) + if replaced == 0 then 1 else 0
  {
    hide Total, Insert, CheckOverlap, SpanCounts, Ordered, FileCost, DataSums, MetaSums, CountSums, Placeable;
    var base := BaseRelease(kept, id, stamp, now);
    var r := Patched(base, stamp, file, span, growth, now);
    ReplacedIs(base, file, span, growth);
    PatchCounts(base, stamp, file, span, growth, now);
    PutReleaseSums(kept, id, r);
    TotalPut(DataSums(kept), id, r.dataBytes);
    TotalPut(MetaSums(kept), id, r.metaBytes);
    TotalPut(CountSums(kept), id, Total(SpanCounts(r.files)));
    NewHasNoSpans(stamp, now);
  }

  lemma PatchCounts(base: Release, stamp: Stamp, file: CensusFile, span: Span, growth: nat, now: nat)
    requires Placeable(base, file, span, growth)
    ensures Total(SpanCounts(Patched(base, stamp, file, span, growth, now).files))
      == Total(SpanCounts(base.files))
         + if ReplacedLen(BaseFile(base, file).spans, span.start) == 0 then 1 else 0
  {
    hide Total, Insert, CheckOverlap, SpanCounts, FileCost;
    var f := BaseFile(base, file);
    InsertFits(f.spans, span);
    ReplacedIs(base, file, span, growth);
    PatchedSums(base.files, file.name, f, f.(spans := Insert(f.spans, span)));
  }

  lemma NewHasNoSpans(stamp: Stamp, now: nat)
    ensures Total(SpanCounts(NewRelease(stamp, now).files)) == 0
  {
    TotalEmpty(SpanCounts(NewRelease(stamp, now).files));
  }

  /** A patch of a file that was not there adds the file to what the index has to name; a
      patch of one that was changes nothing the index names. */
  lemma PatchKeepsExact(
      kept: Releases, index: Index, id: ReleaseId, stamp: Stamp, file: CensusFile, span: Span,
      growth: nat, now: nat)
    requires Exact(index, kept)
    requires Placeable(BaseRelease(kept, id, stamp, now), file, span, growth)
    ensures
      var base := BaseRelease(kept, id, stamp, now);
      var after := kept[id := Patched(base, stamp, file, span, growth, now)];
      Exact(if file.name in base.files then index else IndexFile(index, id, file.name, file.articles), after)
  {
    hide Exact, Insert, CheckOverlap, Ordered, FileCost, IndexFile;
    var base := BaseRelease(kept, id, stamp, now);
    var after := kept[id := Patched(base, stamp, file, span, growth, now)];
    if file.name in base.files {
      assert SameLayouts(kept, after);
      SameLayoutsExact(index, kept, after);
    } else {
      assert OneMoreFile(kept, after, id, file.name);
      IndexFileExact(index, kept, after, id, file.name);
    }
  }

  /** The store an insert finds once its stale release is gone. */
  ghost function Fresh(s: Store, id: ReleaseId, stamp: Stamp): Store {
    if StaleFor(Lookup(s.releases, id), stamp) then Dropped(s, id) else s
  }

  lemma FreshIsWf(s: Store, id: ReleaseId, stamp: Stamp)
    requires Wf(s)
    ensures Wf(Fresh(s, id, stamp))
  {
    hide Wf;
    DropKeepsWf(s, id);
  }

  /** The answer to an insert is the one its locked half gives once a stale release is gone;
      its unlocked half gives the same. */
  lemma FreshAnswers(s: Store, id: ReleaseId, stamp: Stamp, file: CensusFile, span: Span)
    requires Wf(s)
    ensures Wf(Fresh(s, id, stamp))
    ensures StaleFor(Lookup(Fresh(s, id, stamp).releases, id), stamp) == false
    ensures forall r ::
      Answered(Fresh(s, id, stamp), id, stamp, file, span, r) <==> Answered(s, id, stamp, file, span, r)
    ensures Fresh(s, id, stamp).budget == s.budget
  {
    hide Wf, Answered, RecordsNeed;
    FreshIsWf(s, id, stamp);
    StaleCountsForNothing(s, id, stamp);
  }

  lemma FreshRecords(s: Store, id: ReleaseId, stamp: Stamp, change: Change)
    requires Wf(s)
    ensures
      var dropped := Fresh(s, id, stamp);
      var r := Recorded(dropped, id, stamp, change);
      && (r.1 == Ok(()) <==> RecordsNeed(s, id, stamp, change) <= s.budget)
      && (r.1 != Ok(()) ==> r.1 == Err(OverBudget(RecordsNeed(s, id, stamp, change), s.budget)))
      && (r.1 == Ok(()) ==> id in r.0.releases && r.0.releases[id].stamp == stamp)
  {
    hide Wf, Answered, RecordsNeed, Recorded, RecordedOnce, LastOf, PutHoles, ByteIn;
    FreshIsWf(s, id, stamp);
    StaleCountsForNothing(s, id, stamp);
    RecordAnswers(Fresh(s, id, stamp), id, stamp, change);
    if Recorded(Fresh(s, id, stamp), id, stamp, change).1.Ok? {
      RecordLeaves(Fresh(s, id, stamp), id, stamp, change);
    }
  }

  /** The unlocked half answers as the locked one would at once. */
  lemma CheckAnswers(s: Store, id: ReleaseId, stamp: Stamp, file: CensusFile, span: Span)
    requires Wf(s)
    ensures span.data == [] ==> Answered(s, id, stamp, file, span, Err(Empty))
    ensures span.data != [] && span.End() > LayoutSize(file.articles) ==>
      Answered(s, id, stamp, file, span, Err(OutOfFile(span.start, |span.data|, LayoutSize(file.articles))))
    ensures InFile(file, span) ==>
      var check := CheckCommit(Fresh(s, id, stamp), id, stamp, file, span);
      Answered(s, id, stamp, file, span, if check.Ok? then Ok(()) else Err(check.error))
  {
    hide Wf, CheckCommit, Clashes, NeededFor, LayoutSize;
    FreshAnswers(s, id, stamp, file, span);
    if InFile(file, span) {
      CommitAnswers(Fresh(s, id, stamp), id, stamp, file, span);
      CommittedResult(Fresh(s, id, stamp), id, stamp, file, span);
    }
  }

  lemma CommittedResult(s: Store, id: ReleaseId, stamp: Stamp, file: CensusFile, span: Span)
    requires Wf(s) && span.data != []
    ensures
      var check := CheckCommit(s, id, stamp, file, span);
      Committed(s, id, stamp, file, span).1 == if check.Ok? then Ok(()) else Err(check.error)
  {
  }

  lemma UpdateSums(kept: Releases, id: ReleaseId, was: Release, r: Release)
    requires if id in kept then was == kept[id] else was.files == map[] && was.Bytes() == 0
    requires r.files == was.files && r.dataBytes == was.dataBytes
    ensures Total(DataSums(kept[id := r])) == Total(DataSums(kept))
    ensures Total(MetaSums(kept[id := r])) + was.metaBytes == Total(MetaSums(kept)) + r.metaBytes
    ensures Total(CountSums(kept[id := r])) == Total(CountSums(kept))
    ensures forall index :: Exact(index, kept) ==> Exact(index, kept[id := r])
  {
    hide *;
    PutReleaseSums(kept, id, r);
    TotalPut(DataSums(kept), id, r.dataBytes);
    TotalPut(MetaSums(kept), id, r.metaBytes);
    TotalPut(CountSums(kept), id, Total(SpanCounts(r.files)));
    NoFilesNoSpans(r.files);
    WasBytes(was);
    LayoutsStay(kept, id, was, r);
    forall index | Exact(index, kept) ensures Exact(index, kept[id := r]) {
      SameLayoutsExact(index, kept, kept[id := r]);
    }
  }

  lemma WasBytes(was: Release)
    ensures was.Bytes() == was.dataBytes + was.metaBytes
  {
  }

  lemma NoFilesNoSpans(files: map<string, FilePatches>)
    ensures files == map[] ==> Total(SpanCounts(files)) == 0
  {
    if files == map[] {
      TotalEmpty(SpanCounts(files));
    }
  }

  lemma LayoutsStay(kept: Releases, id: ReleaseId, was: Release, r: Release)
    requires if id in kept then was == kept[id] else was.files == map[]
    requires r.files == was.files
    ensures SameLayouts(kept, kept[id := r])
  {
  }

  /** What putting a release into a store does to the sums over its releases. */
  lemma PutReleaseSums(kept: Releases, id: ReleaseId, r: Release)
    ensures DataSums(kept[id := r]) == DataSums(kept)[id := r.dataBytes]
    ensures MetaSums(kept[id := r]) == MetaSums(kept)[id := r.metaBytes]
    ensures CountSums(kept[id := r]) == CountSums(kept)[id := Total(SpanCounts(r.files))]
    ensures id in DataSums(kept) <==> id in kept
    ensures id in MetaSums(kept) <==> id in kept
    ensures id in CountSums(kept) <==> id in kept
    ensures id in kept ==>
      && DataSums(kept)[id] == kept[id].dataBytes && MetaSums(kept)[id] == kept[id].metaBytes
      && CountSums(kept)[id] == Total(SpanCounts(kept[id].files))
  {
    hide Total;
  }

  /** Lay pieces one after another. */
  method Assemble(pieces: seq<Piece>) returns (out: seq<Byte>)
    requires forall p :: p in pieces ==> p.from + p.n <= |p.data|
    ensures out == PieceBytes(pieces)
  {
    out := [];
    var i := 0;
    while i < |pieces|
      invariant 0 <= i <= |pieces|
      invariant out == PieceBytes(pieces[..i])
    {
      var p := pieces[i];
      assert pieces[..i + 1][..i] == pieces[..i];
      out := out + p.data[p.from..p.from + p.n];
      i := i + 1;
    }
    assert pieces[..i] == pieces;
  }

  lemma RefIsLive(rels: Releases, m: string, ref: ArticleRef)
    requires IsRef(rels, m, ref)
    ensures HasFile(rels, ref.release, ref.file)
  {
  }

  lemma GatheredAre(rels: Releases, ref: ArticleRef, pieces: seq<Piece>)
    requires HasFile(rels, ref.release, ref.file)
    requires Gathered(rels[ref.release].files[ref.file].spans, ref.offset, ref.offset + ref.len, pieces)
    ensures forall p :: p in pieces ==> p.from + p.n <= |p.data|
    ensures AreBytesOf(rels, ref, PieceBytes(pieces))
  {
  }

  lemma CheckedPlace(s: Store, id: ReleaseId, stamp: Stamp, file: CensusFile, span: Span)
    requires Wf(s) && span.data != [] && CheckCommit(s, id, stamp, file, span).Ok?
    ensures Placeable(BaseRelease(s.releases, id, stamp, s.clock + 1), file, span,
                      CheckCommit(s, id, stamp, file, span).value)
  {
    CheckedIsPlaceable(s, id, stamp, file, span, s.clock + 1);
  }

  /** How many spans each of some files has. */
  ghost function PickedCounts(files: map<string, FilePatches>, names: set<string>): map<string, nat> {
    map n | n in files && n in names :: |files[n].spans|
  }

  lemma PickAll(files: map<string, FilePatches>)
    ensures PickedCounts(files, files.Keys) == SpanCounts(files)
  {
  }

  lemma PickNone(files: map<string, FilePatches>)
    ensures Total(PickedCounts(files, {})) == 0
  {
    TotalEmpty(PickedCounts(files, {}));
  }

  lemma PickOne(files: map<string, FilePatches>, names: set<string>, n: string)
    requires n in names && n in files
    ensures Total(PickedCounts(files, names)) == |files[n].spans| + Total(PickedCounts(files, names - {n}))
  {
    hide Total;
    TotalTake(PickedCounts(files, names), n);
    assert PickedCounts(files, names) - {n} == PickedCounts(files, names - {n});
  }

  lemma WithoutNothing(index: Index, id: ReleaseId)
    ensures Without(index, {}, id) == index
  {
  }

  /** One turn of an eviction. */
  lemma EvictionTurn(rels: Releases, growth: nat, keep: Option<ReleaseId>, budget: nat)
    ensures Total(ByteSums(rels)) + growth <= budget || Candidates(rels, keep).Keys == {} ==>
      EvictToFit(rels, growth, keep, budget) == rels
    ensures Total(ByteSums(rels)) + growth > budget && Candidates(rels, keep).Keys != {} ==>
      var victim := Oldest(Candidates(rels, keep));
      && victim in rels && |rels - {victim}| < |rels|
      && EvictToFit(rels, growth, keep, budget) == EvictToFit(rels - {victim}, growth, keep, budget)
  {
    hide Total;
    if Candidates(rels, keep).Keys != {} {
      var victim := Oldest(Candidates(rels, keep));
      assert rels.Keys == (rels - {victim}).Keys + {victim};
      assert |rels.Keys| == |(rels - {victim}).Keys| + 1;
    }
  }

  lemma CandidatesInjective(rels: Releases, keep: Option<ReleaseId>)
    requires Injective(LastReads(rels))
    ensures Injective(Candidates(rels, keep))
  {
    var c := Candidates(rels, keep);
    forall i, j | i in c && j in c && c[i] == c[j] ensures i == j {
      assert LastReads(rels)[i] == c[i] && LastReads(rels)[j] == c[j];
    }
  }

  // ---- What readers get, over runs ------------------------------------------------

  /** The article has bytes, and every one of them was written to its file since its release
      was last taken out. */
  ghost predicate Written(log: seq<Event>, ref: ArticleRef) {
    ref.len > 0 && forall at: nat :: ref.offset <= at < ref.offset + ref.len ==>
      LastWrite(log, ref.release, ref.file, at).Some?
  }

  /** After any run, an article of a file in the store is served exactly when the whole of it
      was written, and what is served are the bytes written last. */
  lemma ReadersGetTheLastWrites(
      budget: nat, ops: seq<Op>, end: Store, log: seq<Event>, ref: ArticleRef, bytes: seq<Byte>)
    requires Run(NewStore(budget), [], ops, end, log)
    requires HasFile(end.releases, ref.release, ref.file)
    ensures Serves(end.releases, ref) <==> Written(log, ref)
    ensures AreBytesOf(end.releases, ref, bytes) ==>
      forall i :: 0 <= i < |bytes| ==>
        LastWrite(log, ref.release, ref.file, ref.offset + i) == Some(bytes[i])
  {
    NewStoreRefines(budget);
    RunsRefineTheByteMap(NewStore(budget), [], ops, end, log);
    hide *;
    BytesAreLastWrites(end.releases, log, ref, bytes);
  }

  lemma BytesHaveItsLength(rels: Releases, ref: ArticleRef, bytes: seq<Byte>)
    requires AreBytesOf(rels, ref, bytes)
    ensures |bytes| == ref.len
  {
  }

  lemma BytesAreLastWrites(rels: Releases, log: seq<Event>, ref: ArticleRef, bytes: seq<Byte>)
    requires Refines(rels, log) && HasFile(rels, ref.release, ref.file)
    ensures Serves(rels, ref) <==> Written(log, ref)
    ensures AreBytesOf(rels, ref, bytes) ==>
      forall i :: 0 <= i < |bytes| ==>
        LastWrite(log, ref.release, ref.file, ref.offset + i) == Some(bytes[i])
  {
    hide LastWrite, ByteAt;
    var id, f := ref.release, ref.file;
    assert forall at: nat :: ByteIn(rels, id, f, at) == LastWrite(log, id, f, at);
    assert forall at: nat :: ByteIn(rels, id, f, at) == ByteAt(rels[id].files[f].spans, at);
  }
}
