/** The patch store's releases as a value, and what each locked section does to them.

    The store's cached counters and its message-id index are not part of this value: they
    are fields of the class in PatchStores, which keeps them equal to what is computed
    here from the releases. */
module PatchModel {
  import opened Wrappers
  import opened Articles
  import opened MapFacts
  import opened PatchSpans

  const ARTICLE_INDEX_COST: nat := 96
  const FILE_INDEX_COST: nat := 128
  const RECORD_COST: nat := 64

  type ReleaseId = nat

  datatype Stamp = Stamp(blob: Option<nat>, fingerprint: string)

  datatype ReleaseVerdict = ReleaseVerdict(diagnosis: string, servers: seq<string>, atMs: nat)

  /** A confirmed hole as a release keeps it, the fingerprint as the text that is charged. */
  datatype HoleRecord = HoleRecord(
    messageId: string,
    refusedBy: seq<string>,
    unreachable: seq<string>,
    fingerprint: string,
    firstRefusedAtMs: nat,
    confirmedAtMs: nat,
    expiresAtMs: nat)

  datatype FilePatches = FilePatches(
    name: string, articles: seq<ArticleSpan>, size: nat, spans: seq<Span>)

  datatype Release = Release(
    stamp: Stamp,
    files: map<string, FilePatches>,
    holes: seq<HoleRecord>,
    verdict: Option<ReleaseVerdict>,
    dataBytes: nat,
    metaBytes: nat,
    lastRead: nat)
  {
    function Bytes(): nat { dataBytes + metaBytes }
  }

  datatype PatchError =
    | Empty
    | OutOfFile(offset: nat, len: nat, size: nat)
    | Overlap(offset: nat, len: nat)
    | OverBudget(needed: nat, budget: nat)
    | Stale

  type Releases = map<ReleaseId, Release>

  datatype Store = Store(budget: nat, clock: nat, releases: Releases)

  function NewRelease(stamp: Stamp, now: nat): Release {
    Release(stamp, map[], [], None, 0, 0, now)
  }

  // ---- Costs ----------------------------------------------------------------------

  function ArticlesCost(articles: seq<ArticleSpan>, name: nat): nat {
    if articles == [] then 0
    else ARTICLE_INDEX_COST + 2 * |articles[0].messageId| + name + ArticlesCost(articles[1..], name)
  }

  function FileCost(name: string, articles: seq<ArticleSpan>): nat {
    FILE_INDEX_COST + |name| + ArticlesCost(articles, |name|)
  }

  function Lengths(names: seq<string>): nat {
    if names == [] then 0 else |names[0]| + Lengths(names[1..])
  }

  function HoleCost(h: HoleRecord): nat {
    RECORD_COST + |h.messageId| + |h.fingerprint| + Lengths(h.refusedBy) + Lengths(h.unreachable)
  }

  function HolesCost(holes: seq<HoleRecord>): nat {
    if holes == [] then 0 else HoleCost(holes[0]) + HolesCost(holes[1..])
  }

  function VerdictCost(verdict: Option<ReleaseVerdict>): nat {
    match verdict
    case None => 0
    case Some(v) => RECORD_COST + |v.diagnosis| + Lengths(v.servers)
  }

  function FileCosts(files: map<string, FilePatches>): map<string, nat> {
    map n | n in files :: FileCost(files[n].name, files[n].articles)
  }

  function SpanSums(files: map<string, FilePatches>): map<string, nat> {
    map n | n in files :: SpanBytes(files[n].spans)
  }

  function SpanCounts(files: map<string, FilePatches>): map<string, nat> {
    map n | n in files :: |files[n].spans|
  }

  function DataSums(rels: Releases): map<ReleaseId, nat> {
    map id | id in rels :: rels[id].dataBytes
  }

  function MetaSums(rels: Releases): map<ReleaseId, nat> {
    map id | id in rels :: rels[id].metaBytes
  }

  function ByteSums(rels: Releases): map<ReleaseId, nat> {
    map id | id in rels :: rels[id].Bytes()
  }

  ghost function CountSums(rels: Releases): map<ReleaseId, nat> {
    map id | id in rels :: Total(SpanCounts(rels[id].files))
  }

  function LastReads(rels: Releases): map<ReleaseId, nat> {
    map id | id in rels :: rels[id].lastRead
  }

  // ---- Well-formed stores ---------------------------------------------------------

  ghost predicate WfFile(f: FilePatches, name: string) {
    f.name == name && Ordered(f.spans)
  }

  /** A release's cached counters are the sums they stand for, and the spans of each of
      its files are in order and do not overlap. */
  ghost predicate WfRelease(r: Release) {
    && (forall n :: n in r.files ==> WfFile(r.files[n], n))
    && r.dataBytes == Total(SpanSums(r.files))
    && r.metaBytes == Total(FileCosts(r.files)) + HolesCost(r.holes) + VerdictCost(r.verdict)
  }

  ghost predicate Wf(s: Store) {
    && (forall id :: id in s.releases ==> WfRelease(s.releases[id]))
    && (forall id :: id in s.releases ==> s.releases[id].lastRead <= s.clock)
    && Injective(LastReads(s.releases))
    && Total(ByteSums(s.releases)) <= s.budget
  }

  function Lookup(rels: Releases, id: ReleaseId): Option<Release> {
    if id in rels then Some(rels[id]) else None
  }

  /** The byte the store serves for an offset of a release's file. */
  ghost function ByteIn(rels: Releases, id: ReleaseId, file: string, at: nat): Option<Byte> {
    if id in rels && file in rels[id].files then ByteAt(rels[id].files[file].spans, at) else None
  }

  // ---- What a locked section does -------------------------------------------------

  ghost predicate OrderedFiles(r: Release) {
    forall n :: n in r.files ==> Ordered(r.files[n].spans)
  }

  /** The bytes a span adds to a release, unless it overlaps another or the release would
      not fit the budget even with nothing else in the store. */
  function Fits(release: Option<Release>, file: CensusFile, offset: nat, len: nat, budget: nat)
    : (r: Result<nat, PatchError>)
    requires release.Some? ==> OrderedFiles(release.value)
    requires len > 0
    ensures r.Ok? ==> r.value + (if release.Some? then release.value.Bytes() else 0) <= budget
    ensures r.Ok? && release.Some? && file.name in release.value.files ==>
      CheckOverlap(release.value.files[file.name].spans, offset, len).Some?
  {
    var patched := release.Some? && file.name in release.value.files;
    var replaced :=
      if patched then CheckOverlap(release.value.files[file.name].spans, offset, len) else Some(0);
    match replaced
    case None => Err(Overlap(offset, len))
    case Some(gone) =>
      var growth := len - gone + if patched then 0 else FileCost(file.name, file.articles);
      var needed := (if release.Some? then release.value.Bytes() else 0) + growth;
      if needed > budget then Err(OverBudget(needed, budget)) else Ok(growth)
  }

  predicate StaleFor(release: Option<Release>, stamp: Stamp) {
    release.Some? && release.value.stamp.blob != stamp.blob
  }

  function Candidates(rels: Releases, keep: Option<ReleaseId>): map<ReleaseId, nat> {
    map id | id in rels && Some(id) != keep :: rels[id].lastRead
  }

  /** Evict the least recently read releases other than `keep` until `growth` more bytes
      fit, or none is left to evict. */
  ghost function EvictToFit(rels: Releases, growth: nat, keep: Option<ReleaseId>, budget: nat)
    : (r: Releases)
    ensures r.Keys <= rels.Keys && (forall id :: id in r ==> r[id] == rels[id])
    decreases |rels|
  {
    if Total(ByteSums(rels)) + growth <= budget || Candidates(rels, keep).Keys == {} then rels
    else EvictToFit(rels - {Oldest(Candidates(rels, keep))}, growth, keep, budget)
  }

  function BaseFile(base: Release, file: CensusFile): FilePatches {
    if file.name in base.files then base.files[file.name]
    else FilePatches(file.name, file.articles, LayoutSize(file.articles), [])
  }

  /** A span that can go into a release: what the overlap check and the charge ask for. */
  ghost predicate Placeable(base: Release, file: CensusFile, span: Span, growth: nat) {
    var f := BaseFile(base, file);
    && span.data != []
    && WfFile(f, file.name)
    && CheckOverlap(f.spans, span.start, |span.data|).Some?
    && growth == |span.data| - CheckOverlap(f.spans, span.start, |span.data|).value
         + if file.name in base.files then 0 else FileCost(file.name, file.articles)
  }

  /** The release with the span in it, charged for its growth. */
  function Patched(base: Release, stamp: Stamp, file: CensusFile, span: Span, growth: nat, now: nat)
    : Release
    requires Placeable(base, file, span, growth)
  {
    var f := BaseFile(base, file);
    var dataGrowth := |span.data| - CheckOverlap(f.spans, span.start, |span.data|).value;
    Release(
      base.stamp.(fingerprint := stamp.fingerprint),
      base.files[file.name := f.(spans := Insert(f.spans, span))],
      base.holes,
      base.verdict,
      base.dataBytes + dataGrowth,
      base.metaBytes + (growth - dataGrowth),
      now)
  }

  function BaseRelease(rels: Releases, id: ReleaseId, stamp: Stamp, now: nat): Release {
    if id in rels then rels[id] else NewRelease(stamp, now)
  }

  /** What both halves of an insert check: the blob, the overlap and the budget. */
  function CheckCommit(s: Store, id: ReleaseId, stamp: Stamp, file: CensusFile, span: Span)
    : (r: Result<nat, PatchError>)
    requires id in s.releases ==> OrderedFiles(s.releases[id])
    requires span.data != []
  {
    var existing := Lookup(s.releases, id);
    if StaleFor(existing, stamp) then Err(Stale)
    else Fits(existing, file, span.start, |span.data|, s.budget)
  }

  lemma CheckedIsPlaceable(s: Store, id: ReleaseId, stamp: Stamp, file: CensusFile, span: Span, now: nat)
    requires id in s.releases ==> WfRelease(s.releases[id])
    requires span.data != [] && CheckCommit(s, id, stamp, file, span).Ok?
    ensures Placeable(BaseRelease(s.releases, id, stamp, now), file, span,
                      CheckCommit(s, id, stamp, file, span).value)
  {
  }

  /** The locked half of an insert. */
  ghost function Committed(s: Store, id: ReleaseId, stamp: Stamp, file: CensusFile, span: Span)
    : (Store, Result<(), PatchError>)
    requires Wf(s) && span.data != []
  {
    match CheckCommit(s, id, stamp, file, span)
    case Err(e) => (s, Err(e))
    case Ok(growth) =>
      CheckedIsPlaceable(s, id, stamp, file, span, s.clock + 1);
      (PutBack(s, growth, id, Patched(BaseRelease(s.releases, id, stamp, s.clock + 1),
                                      stamp, file, span, growth, s.clock + 1)),
       Ok(()))
  }

  /** Make room for the growth of a release, and put the release as it has become. */
  ghost function PutBack(s: Store, growth: nat, id: ReleaseId, r: Release): Store {
    Store(s.budget, s.clock + 1, EvictToFit(s.releases, growth, Some(id), s.budget)[id := r])
  }

  /** What a record update changes: hole records by message-id, or the verdict. */
  datatype Change = AddHoles(added: seq<HoleRecord>) | SetVerdict(verdict: ReleaseVerdict)

  function PutHole(holes: seq<HoleRecord>, h: HoleRecord): seq<HoleRecord> {
    if holes == [] then [h]
    else if holes[0].messageId == h.messageId then [h] + holes[1..]
    else [holes[0]] + PutHole(holes[1..], h)
  }

  function PutHoles(holes: seq<HoleRecord>, added: seq<HoleRecord>): seq<HoleRecord>
    decreases |added|
  {
    if added == [] then holes else PutHoles(PutHole(holes, added[0]), added[1..])
  }

  function ChangedHoles(holes: seq<HoleRecord>, c: Change): seq<HoleRecord> {
    if c.AddHoles? then PutHoles(holes, c.added) else holes
  }

  function ChangedVerdict(v: Option<ReleaseVerdict>, c: Change): Option<ReleaseVerdict> {
    if c.SetVerdict? then Some(c.verdict) else v
  }

  /** The release with its records changed and charged afresh. */
  ghost function Updated(was: Release, stamp: Stamp, change: Change): Release {
    var holes := ChangedHoles(was.holes, change);
    var verdict := ChangedVerdict(was.verdict, change);
    was.(stamp := was.stamp.(fingerprint := stamp.fingerprint),
         holes := holes,
         verdict := verdict,
         metaBytes := Total(FileCosts(was.files)) + HolesCost(holes) + VerdictCost(verdict))
  }

  /** The locked half of a record update. */
  ghost function Recorded(s: Store, id: ReleaseId, stamp: Stamp, change: Change)
    : (Store, Result<(), PatchError>)
  {
    if StaleFor(Lookup(s.releases, id), stamp) then (s, Err(Stale))
    else
      var was := BaseRelease(s.releases, id, stamp, s.clock + 1);
      var r := Updated(was, stamp, change);
      if r.Bytes() > s.budget then (s, Err(OverBudget(r.Bytes(), s.budget)))
      else (PutBack(s, Sat(r.metaBytes, was.metaBytes), id, r), Ok(()))
  }

  ghost function Dropped(s: Store, id: ReleaseId): Store {
    s.(releases := s.releases - {id})
  }

  /** A read of a release bumps its recency. */
  function Touched(s: Store, id: ReleaseId): Store
    requires id in s.releases
  {
    Store(s.budget, s.clock + 1, s.releases[id := s.releases[id].(lastRead := s.clock + 1)])
  }

  // ---- Eviction -------------------------------------------------------------------

  lemma {:induction false} EvictKeeps(rels: Releases, growth: nat, keep: Option<ReleaseId>, budget: nat)
    ensures keep.Some? && keep.value in rels ==> keep.value in EvictToFit(rels, growth, keep, budget)
    ensures Injective(LastReads(rels)) ==>
      Injective(LastReads(EvictToFit(rels, growth, keep, budget)))
    decreases |rels|
  {
    if !(Total(ByteSums(rels)) + growth <= budget || Candidates(rels, keep).Keys == {}) {
      var victim := Oldest(Candidates(rels, keep));
      if Injective(LastReads(rels)) {
        EvictKeepsInjective(rels, victim);
      }
      EvictKeeps(rels - {victim}, growth, keep, budget);
    }
  }

  /** A set of releases that may be evicted together: never the kept one, and with every
      member all candidates read longer ago. */
  ghost predicate LruPrefix(rels: Releases, keep: Option<ReleaseId>, gone: set<ReleaseId>) {
    && gone <= Candidates(rels, keep).Keys
    && (forall i, j :: i in gone && j in Candidates(rels, keep).Keys && Older(rels, j, i) ==> j in gone)
  }

  predicate Older(rels: Releases, j: ReleaseId, i: ReleaseId)
    requires i in rels && j in rels
  {
    rels[j].lastRead < rels[i].lastRead
  }

  ghost predicate FitsWithout(rels: Releases, gone: set<ReleaseId>, growth: nat, budget: nat) {
    Total(ByteSums(rels - gone)) + growth <= budget
  }

  /** What is gone is a prefix in last-use order that leaves the kept release out, and the
      shortest one that makes the growth fit: whatever prefix makes it fit contains it. It
      stops short of fitting only when nothing but the kept release is left. */
  ghost predicate ShortestPrefix(
      rels: Releases, growth: nat, keep: Option<ReleaseId>, budget: nat, gone: set<ReleaseId>)
  {
    && LruPrefix(rels, keep, gone)
    && (FitsWithout(rels, gone, growth, budget) || Candidates(rels - gone, keep).Keys == {})
    && (forall other :: LruPrefix(rels, keep, other) && FitsWithout(rels, other, growth, budget)
          ==> gone <= other)
  }

  ghost predicate EvictedTo(
      rels: Releases, growth: nat, keep: Option<ReleaseId>, budget: nat, left: Releases)
  {
    && left == rels - (rels.Keys - left.Keys)
    && ShortestPrefix(rels, growth, keep, budget, rels.Keys - left.Keys)
  }

  /** Eviction takes whole releases, never the kept one, and exactly the shortest prefix in
      last-use order that makes the growth fit. */
  lemma {:induction false} EvictTakesShortestPrefix(
      rels: Releases, growth: nat, keep: Option<ReleaseId>, budget: nat)
    requires Injective(LastReads(rels))
    ensures EvictedTo(rels, growth, keep, budget, EvictToFit(rels, growth, keep, budget))
    decreases |rels|
  {
    if Total(ByteSums(rels)) + growth <= budget || Candidates(rels, keep).Keys == {} {
      NothingToEvict(rels, growth, keep, budget);
    } else {
      var v := Oldest(Candidates(rels, keep));
      EvictKeepsInjective(rels, v);
      EvictTakesShortestPrefix(rels - {v}, growth, keep, budget);
      OneMoreEvicted(rels, growth, keep, budget, EvictToFit(rels - {v}, growth, keep, budget));
    }
  }

  lemma NothingToEvict(rels: Releases, growth: nat, keep: Option<ReleaseId>, budget: nat)
    requires Total(ByteSums(rels)) + growth <= budget || Candidates(rels, keep).Keys == {}
    ensures EvictedTo(rels, growth, keep, budget, rels)
  {
    assert rels.Keys - rels.Keys == {};
    assert rels - {} == rels;
  }

  lemma OneMoreEvicted(
      rels: Releases, growth: nat, keep: Option<ReleaseId>, budget: nat, left: Releases)
    requires Injective(LastReads(rels)) && Candidates(rels, keep).Keys != {}
    requires Total(ByteSums(rels)) + growth > budget
    requires EvictedTo(rels - {Oldest(Candidates(rels, keep))}, growth, keep, budget, left)
    ensures EvictedTo(rels, growth, keep, budget, left)
  {
    var v := Oldest(Candidates(rels, keep));
    var more := (rels - {v}).Keys - left.Keys;
    assert v !in left;
    assert rels.Keys - left.Keys == more + {v};
    assert rels - (more + {v}) == (rels - {v}) - more;
    OneMoreVictim(rels, growth, keep, budget, more);
  }

  /** If the growth does not fit, the oldest candidate goes, and then the shortest prefix
      of the rest. */
  lemma OneMoreVictim(
      rels: Releases, growth: nat, keep: Option<ReleaseId>, budget: nat, more: set<ReleaseId>)
    requires Injective(LastReads(rels)) && Candidates(rels, keep).Keys != {}
    requires Total(ByteSums(rels)) + growth > budget
    requires ShortestPrefix(rels - {Oldest(Candidates(rels, keep))}, growth, keep, budget, more)
    ensures ShortestPrefix(rels, growth, keep, budget, more + {Oldest(Candidates(rels, keep))})
  {
    hide Injective, LruPrefix, Total, Candidates, ByteSums;
    var v := Oldest(Candidates(rels, keep));
    var rest := rels - {v};
    VictimExtends(rels, keep, more);
    assert rels - (more + {v}) == rest - more;
    forall other | LruPrefix(rels, keep, other) && FitsWithout(rels, other, growth, budget)
      ensures more + {v} <= other
    {
      assert rels - {} == rels;
      VictimFirst(rels, keep, other);
      assert rest - (other - {v}) == rels - other;
      assert FitsWithout(rest, other - {v}, growth, budget);
    }
  }

  /** A non-empty prefix contains the least recently read candidate, and is a prefix of
      the rest without it. */
  lemma VictimFirst(rels: Releases, keep: Option<ReleaseId>, other: set<ReleaseId>)
    requires Injective(LastReads(rels)) && LruPrefix(rels, keep, other) && other != {}
    ensures Candidates(rels, keep).Keys != {}
    ensures
      var v := Oldest(Candidates(rels, keep));
      v in other && LruPrefix(rels - {v}, keep, other - {v})
  {
    var i :| i in other;
    var v := Oldest(Candidates(rels, keep));
    assert LastReads(rels)[v] == rels[v].lastRead && LastReads(rels)[i] == rels[i].lastRead;
    assert v == i || Older(rels, v, i);
    var rest := rels - {v};
    assert Candidates(rest, keep).Keys == Candidates(rels, keep).Keys - {v};
    forall i, j | i in other - {v} && j in Candidates(rest, keep).Keys && Older(rest, j, i)
      ensures j in other - {v}
    {
      assert Older(rels, j, i);
    }
  }

  lemma VictimExtends(rels: Releases, keep: Option<ReleaseId>, gone: set<ReleaseId>)
    requires Injective(LastReads(rels)) && Candidates(rels, keep).Keys != {}
    requires LruPrefix(rels - {Oldest(Candidates(rels, keep))}, keep, gone)
    ensures LruPrefix(rels, keep, gone + {Oldest(Candidates(rels, keep))})
  {
    var v := Oldest(Candidates(rels, keep));
    var rest := rels - {v};
    assert Candidates(rest, keep).Keys == Candidates(rels, keep).Keys - {v};
    forall i, j | i in gone + {v} && j in Candidates(rels, keep).Keys && Older(rels, j, i)
      ensures j in gone + {v}
    {
      if j != v {
        assert i != v by {
          assert Candidates(rels, keep)[v] <= Candidates(rels, keep)[j];
        }
        assert Older(rest, j, i);
      }
    }
  }

  lemma EvictKeepsInjective(rels: Releases, v: ReleaseId)
    requires Injective(LastReads(rels))
    ensures Injective(LastReads(rels - {v}))
  {
    assert LastReads(rels - {v}) == LastReads(rels) - {v};
    InjectiveDrop(LastReads(rels), {v});
  }

  /** Room is made: afterwards the growth fits, if it fits the kept release alone. */
  lemma EvictMakesRoom(rels: Releases, growth: nat, id: ReleaseId, budget: nat)
    requires Injective(LastReads(rels))
    requires (if id in rels then rels[id].Bytes() else 0) + growth <= budget
    ensures Total(ByteSums(EvictToFit(rels, growth, Some(id), budget))) + growth <= budget
    ensures id in rels ==> id in EvictToFit(rels, growth, Some(id), budget)
  {
    EvictKeeps(rels, growth, Some(id), budget);
    EvictTakesShortestPrefix(rels, growth, Some(id), budget);
    var left := EvictToFit(rels, growth, Some(id), budget);
    if Candidates(left, Some(id)).Keys == {} {
      OnlyKeptLeft(left, id);
    }
  }

  lemma OnlyKeptLeft(left: Releases, id: ReleaseId)
    requires Candidates(left, Some(id)).Keys == {}
    ensures Total(ByteSums(left)) == if id in left then left[id].Bytes() else 0
  {
    forall j | j in left ensures j == id {
      assert j == id || j in Candidates(left, Some(id));
    }
    if id in left {
      TotalTake(ByteSums(left), id);
      assert (ByteSums(left) - {id}).Keys == {};
    } else {
      assert ByteSums(left).Keys == {};
    }
  }
}
