/** The damage census: from settled articles to slices lost, possibly lost, and a verdict. */
module Census {
  import opened Wrappers
  import opened Articles

  datatype Par2FileEntry = Par2FileEntry(name: string, size: nat)

  datatype RecoveryVolume = RecoveryVolume(blocks: nat, segmentIds: seq<string>)

  datatype Par2RecoverySet = Par2RecoverySet(
    sliceSize: nat, files: seq<Par2FileEntry>, volumes: seq<RecoveryVolume>)

  datatype CensusTarget = CensusTarget(files: seq<CensusFile>, recovery: Option<Par2RecoverySet>)

  /** Whether an article is there, is lost for certain, or may be lost. */
  datatype Loss = Unharmed | Certain | Possible

  datatype DamageUnit = Slices | Articles

  datatype Verdict = Intact | Repairable | BeyondRepair

  datatype Report = Report(
    unit: DamageUnit,
    damaged: nat,
    uncertain: nat,
    recoveryAvailable: nat,
    recoveryUncertain: nat,
    unprotectedMissing: nat,
    verdict: Option<Verdict>)

  type Losses = map<string, Loss>

  /** An article nothing is known of might be lost. */
  function LossOf(loss: Losses, id: string): Loss {
    if id in loss then loss[id] else Possible
  }

  function SettleVerdict(damaged: nat, uncertain: nat, available: nat, recoveryUncertain: nat): Option<Verdict> {
    if damaged == 0 && uncertain == 0 then Some(Intact)
    else if damaged > available + recoveryUncertain then Some(BeyondRepair)
    else if damaged + uncertain <= available then Some(Repairable)
    else None
  }

  // ---- Surveyed ids ---------------------------------------------------------------

  function IdsOf(articles: seq<ArticleSpan>): seq<string> {
    seq(|articles|, i requires 0 <= i < |articles| => articles[i].messageId)
  }

  function DataIds(files: seq<CensusFile>): seq<string> {
    if files == [] then [] else IdsOf(files[0].articles) + DataIds(files[1..])
  }

  function VolumeIds(volumes: seq<RecoveryVolume>): seq<string> {
    if volumes == [] then [] else volumes[0].segmentIds + VolumeIds(volumes[1..])
  }

  function AllIds(target: CensusTarget): seq<string> {
    DataIds(target.files) + if target.recovery.Some? then VolumeIds(target.recovery.value.volumes) else []
  }

  ghost predicate Distinct(ids: seq<string>) {
    forall i, j :: 0 <= i < j < |ids| ==> ids[i] != ids[j]
  }

  /** Every message-id the census settles, each once, in order of first appearance. */
  method SurveyedIds(target: CensusTarget) returns (ids: seq<string>)
    ensures Distinct(ids)
    ensures forall id :: id in ids <==> id in AllIds(target)
  {
    var all := AllIds(target);
    var seen: set<string> := {};
    ids := [];
    var i := 0;
    while i < |all|
      invariant 0 <= i <= |all|
      invariant forall id :: id in seen <==> id in all[..i]
      invariant forall id :: id in ids <==> id in all[..i]
      invariant Distinct(ids)
    {
      assert all[..i + 1] == all[..i] + [all[i]];
      if all[i] !in seen {
        ids := ids + [all[i]];
        seen := seen + {all[i]};
      }
      i := i + 1;
    }
    assert all[..i] == all;
  }

  // ---- Damage ---------------------------------------------------------------------

  function SliceSize(s: Par2RecoverySet): (r: nat)
    ensures r > 0
  {
    Max(s.sliceSize, 1)
  }

  function SliceCount(size: nat, slice: nat): nat
    requires slice > 0
  {
    DivCeil(size, slice)
  }

  /** The file of a name that the release carries; the last one, when there are several. */
  function CarriedAs(files: seq<CensusFile>, name: string): Option<CensusFile> {
    if files == [] then None
    else if files[|files| - 1].name == name then Some(files[|files| - 1])
    else CarriedAs(files[..|files| - 1], name)
  }

  /** The slices an article is charged to. */
  function SlicesOf(a: ArticleSpan, slice: nat, slices: nat): set<nat>
    requires slice > 0
  {
    if a.len == 0 then {}
    else
      var first := a.offset / slice;
      var last := Min((a.offset + a.len - 1) / slice, Max(slices, 1) - 1);
      Range(first, last + 1)
  }

  function Range(lo: nat, hi: nat): (r: set<nat>)
    ensures forall s :: s in r <==> lo <= s < hi
  {
    if lo >= hi then {} else Range(lo, hi - 1) + {hi - 1}
  }

  /** The slices charged to articles of one class. */
  function Charged(articles: seq<ArticleSpan>, loss: Losses, kind: Loss, slice: nat, slices: nat): set<nat>
    requires slice > 0
  {
    if articles == [] then {}
    else
      var a := articles[|articles| - 1];
      Charged(articles[..|articles| - 1], loss, kind, slice, slices)
      + if LossOf(loss, a.messageId) == kind then SlicesOf(a, slice, slices) else {}
  }

  function Tag(fi: nat, slices: set<nat>): set<(nat, nat)> {
    set s | s in slices :: (fi, s)
  }

  /** What file `fi` of the set adds to the damaged slices, and to the uncertain ones. */
  function FileSlices(files: seq<CensusFile>, s: Par2RecoverySet, loss: Losses, kind: Loss, fi: nat): set<nat>
    requires fi < |s.files|
  {
    var slices := SliceCount(s.files[fi].size, SliceSize(s));
    match CarriedAs(files, s.files[fi].name)
    case Some(f) => Charged(f.articles, loss, kind, SliceSize(s), slices)
    case None => if kind == Possible then Range(0, slices) else {}
  }

  function Bucket(files: seq<CensusFile>, s: Par2RecoverySet, loss: Losses, kind: Loss, n: nat): set<(nat, nat)>
    requires n <= |s.files|
  {
    if n == 0 then {}
    else Bucket(files, s, loss, kind, n - 1) + Tag(n - 1, FileSlices(files, s, loss, kind, n - 1))
  }

  lemma NothingCharged(loss: Losses, slice: nat, slices: nat)
    requires slice > 0
    ensures Charged([], loss, Certain, slice, slices) == {} == Charged([], loss, Possible, slice, slices)
  {
  }

  lemma ChargedMore(articles: seq<ArticleSpan>, i: nat, loss: Losses, kind: Loss, slice: nat, slices: nat)
    requires slice > 0 && i < |articles|
    ensures Charged(articles[..i + 1], loss, kind, slice, slices)
      == Charged(articles[..i], loss, kind, slice, slices)
         + if LossOf(loss, articles[i].messageId) == kind then SlicesOf(articles[i], slice, slices) else {}
  {
    assert articles[..i + 1][..i] == articles[..i];
    hide LossOf, SlicesOf;
  }

  /** The slices an article-by-article walk over one file collects. */
  method CollectFile(articles: seq<ArticleSpan>, loss: Losses, slice: nat, slices: nat)
    returns (damaged: set<nat>, uncertain: set<nat>)
    requires slice > 0
    ensures damaged == Charged(articles, loss, Certain, slice, slices)
    ensures uncertain == Charged(articles, loss, Possible, slice, slices)
  {
    hide Charged, Range;
    damaged, uncertain := {}, {};
    var i := 0;
    NothingCharged(loss, slice, slices);
    assert articles[..0] == [];
    while i < |articles|
      invariant 0 <= i <= |articles|
      invariant damaged == Charged(articles[..i], loss, Certain, slice, slices)
      invariant uncertain == Charged(articles[..i], loss, Possible, slice, slices)
    {
      var a := articles[i];
      var kind := LossOf(loss, a.messageId);
      ChargedMore(articles, i, loss, Certain, slice, slices);
      ChargedMore(articles, i, loss, Possible, slice, slices);
      if kind != Unharmed && a.len != 0 {
        var first := a.offset / slice;
        var last := Min((a.offset + a.len - 1) / slice, Max(slices, 1) - 1);
        if kind == Certain {
          damaged := damaged + Range(first, last + 1);
        } else {
          uncertain := uncertain + Range(first, last + 1);
        }
      }
      i := i + 1;
    }
    assert articles[..i] == articles;
  }

  /** The slices a walk over the set's files collects; all those of a file the release does
      not carry are uncertain. */
  method CollectSlices(files: seq<CensusFile>, s: Par2RecoverySet, loss: Losses)
    returns (damaged: set<(nat, nat)>, uncertain: set<(nat, nat)>)
    ensures damaged == Bucket(files, s, loss, Certain, |s.files|)
    ensures uncertain == Bucket(files, s, loss, Possible, |s.files|)
  {
    damaged, uncertain := {}, {};
    var slice := SliceSize(s);
    var fi := 0;
    while fi < |s.files|
      invariant 0 <= fi <= |s.files|
      invariant damaged == Bucket(files, s, loss, Certain, fi)
      invariant uncertain == Bucket(files, s, loss, Possible, fi)
    {
      var slices := SliceCount(s.files[fi].size, slice);
      var carried := CarriedAs(files, s.files[fi].name);
      if carried.None? {
        uncertain := uncertain + Tag(fi, Range(0, slices));
      } else {
        var lost, unsure := CollectFile(carried.value.articles, loss, slice, slices);
        damaged := damaged + Tag(fi, lost);
        uncertain := uncertain + Tag(fi, unsure);
      }
      fi := fi + 1;
    }
  }

  function IdsWith(ids: seq<string>, loss: Losses, kind: Loss): set<string> {
    set id | id in ids && LossOf(loss, id) == kind
  }

  function BlocksIf(volumes: seq<RecoveryVolume>, ok: RecoveryVolume -> bool): nat {
    if volumes == [] then 0
    else (if ok(volumes[|volumes| - 1]) then volumes[|volumes| - 1].blocks else 0)
         + BlocksIf(volumes[..|volumes| - 1], ok)
  }

  predicate Whole(v: RecoveryVolume, loss: Losses) {
    forall i :: 0 <= i < |v.segmentIds| ==> LossOf(loss, v.segmentIds[i]) == Unharmed
  }

  predicate Broken(v: RecoveryVolume, loss: Losses) {
    exists i :: 0 <= i < |v.segmentIds| && LossOf(loss, v.segmentIds[i]) == Certain
  }

  method CountRecovery(volumes: seq<RecoveryVolume>, loss: Losses)
    returns (available: nat, uncertain: nat)
    ensures available == BlocksIf(volumes, v => Whole(v, loss))
    ensures uncertain == BlocksIf(volumes, v => !Whole(v, loss) && !Broken(v, loss))
  {
    available, uncertain := 0, 0;
    var i := 0;
    while i < |volumes|
      invariant 0 <= i <= |volumes|
      invariant available == BlocksIf(volumes[..i], v => Whole(v, loss))
      invariant uncertain == BlocksIf(volumes[..i], v => !Whole(v, loss) && !Broken(v, loss))
    {
      var v := volumes[i];
      assert volumes[..i + 1][..i] == volumes[..i];
      i := i + 1;
      if Broken(v, loss) {
        continue;
      }
      if !Whole(v, loss) {
        uncertain := uncertain + v.blocks;
      } else {
        available := available + v.blocks;
      }
    }
    assert volumes[..i] == volumes;
  }

  /** Articles known lost in files the set does not protect. */
  function UnprotectedMissing(files: seq<CensusFile>, s: Par2RecoverySet, loss: Losses): nat {
    if files == [] then 0
    else
      var f := files[|files| - 1];
      UnprotectedMissing(files[..|files| - 1], s, loss)
      + if Protects(s, f.name) then 0 else CountCertain(f.articles, loss)
  }

  function CountCertain(articles: seq<ArticleSpan>, loss: Losses): nat {
    if articles == [] then 0
    else
      CountCertain(articles[..|articles| - 1], loss)
      + if LossOf(loss, articles[|articles| - 1].messageId) == Certain then 1 else 0
  }

  /** The places of the articles known lost. */
  ghost function CertainAt(articles: seq<ArticleSpan>, loss: Losses): set<nat> {
    set a: nat | a < |articles| && LossOf(loss, articles[a].messageId) == Certain
  }

  /** The places of those in files whose name the set does not have. */
  ghost function UnprotectedAt(files: seq<CensusFile>, s: Par2RecoverySet, loss: Losses): set<(nat, nat)> {
    set f: nat, a: nat | f < |files| && a in CertainAt(files[f].articles, loss) && !Protects(s, files[f].name) :: (f, a)
  }

  predicate Protects(s: Par2RecoverySet, name: string) {
    exists i :: 0 <= i < |s.files| && s.files[i].name == name
  }

  lemma {:induction false} CertainAreCounted(articles: seq<ArticleSpan>, loss: Losses)
    ensures CountCertain(articles, loss) == |CertainAt(articles, loss)|
  {
    if articles != [] {
      var n := |articles| - 1;
      CertainAreCounted(articles[..n], loss);
      assert CertainAt(articles, loss) == CertainAt(articles[..n], loss)
        + if LossOf(loss, articles[n].messageId) == Certain then {n} else {};
    }
  }

  lemma {:induction false} TagCounts(fi: nat, slices: set<nat>)
    ensures |Tag(fi, slices)| == |slices|
  {
    if slices != {} {
      var x :| x in slices;
      TagCounts(fi, slices - {x});
      assert Tag(fi, slices) == Tag(fi, slices - {x}) + {(fi, x)};
    }
  }

  lemma OneFileMore(files: seq<CensusFile>, s: Par2RecoverySet, loss: Losses)
    requires files != []
    ensures
      var n := |files| - 1;
      var before, more := UnprotectedAt(files[..n], s, loss), Tag(n, CertainAt(files[n].articles, loss));
      && before * more == {}
      && UnprotectedAt(files, s, loss) == before + if Protects(s, files[n].name) then {} else more
  {
    hide CertainAt, Protects;
    var n := |files| - 1;
    assert forall f :: 0 <= f < n ==> files[..n][f] == files[f];
  }

  /** Every article known lost in a file whose name the set does not have counts once. */
  lemma {:induction false} UnprotectedAreCounted(files: seq<CensusFile>, s: Par2RecoverySet, loss: Losses)
    ensures UnprotectedMissing(files, s, loss) == |UnprotectedAt(files, s, loss)|
  {
    hide CertainAt, Protects, Tag;
    if files != [] {
      var n := |files| - 1;
      var f := files[n];
      UnprotectedAreCounted(files[..n], s, loss);
      CertainAreCounted(f.articles, loss);
      TagCounts(n, CertainAt(f.articles, loss));
      OneFileMore(files, s, loss);
    }
  }

  /** The figures of a report, from the sets they count. */
  ghost predicate Accounts(target: CensusTarget, loss: Losses, r: Report) {
    && r.verdict == SettleVerdict(r.damaged, r.uncertain, r.recoveryAvailable, r.recoveryUncertain)
    && (target.recovery.None? ==>
          && r.unit == Articles && r.recoveryAvailable == r.recoveryUncertain == r.unprotectedMissing == 0
          && r.damaged == |IdsWith(DataIds(target.files), loss, Certain)|
          && r.uncertain == |IdsWith(DataIds(target.files), loss, Possible)|)
    && (target.recovery.Some? ==>
          var s := target.recovery.value;
          var damaged := Bucket(target.files, s, loss, Certain, |s.files|);
          && r.unit == Slices
          && r.damaged == |damaged|
          && r.uncertain == |Bucket(target.files, s, loss, Possible, |s.files|) - damaged|
          && r.recoveryAvailable == BlocksIf(s.volumes, v => Whole(v, loss))
          && r.recoveryUncertain == BlocksIf(s.volumes, v => !Whole(v, loss) && !Broken(v, loss))
          && r.unprotectedMissing == UnprotectedMissing(target.files, s, loss))
  }

  /** Turn the classes of the articles into damage figures and a verdict. */
  method Assess(target: CensusTarget, loss: Losses) returns (r: Report)
    ensures Accounts(target, loss, r)
  {
    if target.recovery.None? {
      var ids := DataIds(target.files);
      var damaged, uncertain: set<string> := {}, {};
      var i := 0;
      while i < |ids|
        invariant 0 <= i <= |ids|
        invariant damaged == IdsWith(ids[..i], loss, Certain)
        invariant uncertain == IdsWith(ids[..i], loss, Possible)
      {
        assert ids[..i + 1] == ids[..i] + [ids[i]];
        match LossOf(loss, ids[i]) {
          case Certain => damaged := damaged + {ids[i]};
          case Possible => uncertain := uncertain + {ids[i]};
          case Unharmed =>
        }
        i := i + 1;
      }
      assert ids[..i] == ids;
      assert uncertain - damaged == uncertain;
      r := Report(Articles, |damaged|, |uncertain - damaged|, 0, 0, 0,
                  SettleVerdict(|damaged|, |uncertain - damaged|, 0, 0));
    } else {
      var s := target.recovery.value;
      var damaged, uncertain := CollectSlices(target.files, s, loss);
      var available, recoveryUncertain := CountRecovery(s.volumes, loss);
      r := Report(Slices, |damaged|, |uncertain - damaged|, available, recoveryUncertain,
                  UnprotectedMissing(target.files, s, loss),
                  SettleVerdict(|damaged|, |uncertain - damaged|, available, recoveryUncertain));
    }
  }
}
