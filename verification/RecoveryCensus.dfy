/** A census over the spans of a recorded set: the recorded part sizes put every article
    inside its file, which is what makes the damage figures exact. */
module RecoveryCensus {
  import opened Wrappers
  import opened Articles
  import opened RecoverySets
  import opened Census
  import opened CensusVerdicts

  /** The set as the census takes it. */
  function Entries(files: seq<ProtectedFile>): seq<Par2FileEntry> {
    seq(|files|, i requires 0 <= i < |files| => Par2FileEntry(files[i].name, files[i].size))
  }

  /** Where a set names a file more than once, no carried one is larger than another; in
      particular, where no name comes twice. */
  ghost predicate SharedNamesFit(files: seq<ProtectedFile>, part: Option<nat>) {
    forall i, j :: 0 <= i < |files| && 0 <= j < |files| ==>
      files[i].name == files[j].name && CensusFileOf(files[j], part).Some? ==>
        files[j].size <= files[i].size
  }

  lemma DistinctNamesFit(files: seq<ProtectedFile>, part: Option<nat>)
    requires forall i, j :: 0 <= i < j < |files| ==> files[i].name != files[j].name
    ensures SharedNamesFit(files, part)
  {
  }

  lemma {:induction false} CensusFilesComeFrom(files: seq<ProtectedFile>, part: Option<nat>, f: CensusFile)
    requires f in CensusFiles(files, part)
    ensures exists i :: 0 <= i < |files| && CensusFileOf(files[i], part) == Some(f)
  {
    var first := CensusFileOf(files[0], part);
    if first != Some(f) {
      CensusFilesComeFrom(files[1..], part, f);
      var i :| 0 <= i < |files[1..]| && CensusFileOf(files[1..][i], part) == Some(f);
      assert CensusFileOf(files[i + 1], part) == Some(f);
    }
  }

  lemma RecordedSpansAreInFile(files: seq<ProtectedFile>, part: Option<nat>, s: Par2RecoverySet)
    requires SharedNamesFit(files, part) && s.files == Entries(files)
    ensures InFile(CensusFiles(files, part), s)
  {
    var carried := CensusFiles(files, part);
    forall fi, a | 0 <= fi < |s.files| && IsCarried(carried, s.files[fi].name, a) && a.len > 0
      ensures a.offset < s.files[fi].size
    {
      var f := CarriedAs(carried, s.files[fi].name).value;
      CarriedIsThere(carried, s.files[fi].name);
      CensusFilesComeFrom(files, part, f);
      var i :| 0 <= i < |files| && CensusFileOf(files[i], part) == Some(f);
      assert files[i].name == files[fi].name;
      assert files[i].size <= files[fi].size;
      SpansTileTheFile(files[i], part);
      TilesCover(f.articles, 0, files[i].size);
    }
  }

  /** For a recorded set, the verdict of any assessment of it is sound and complete. */
  lemma RecordedSetVerdictIsExact(
      files: seq<ProtectedFile>, part: Option<nat>, target: CensusTarget, loss: Losses, r: Report)
    requires SharedNamesFit(files, part)
    requires target.files == CensusFiles(files, part)
    requires target.recovery.Some? && target.recovery.value.files == Entries(files)
    requires Accounts(target, loss, r)
    ensures
      var s := target.recovery.value;
      && (r.verdict == Some(Repairable) || r.verdict == Some(Intact) <==>
            forall t :: Allowed(t, target, loss) ==> Mendable(target.files, s, t))
      && (r.verdict == Some(BeyondRepair) <==>
            forall t :: Allowed(t, target, loss) ==> !Mendable(target.files, s, t))
  {
    RecordedSpansAreInFile(files, part, target.recovery.value);
    VerdictIsExact(target, loss, r);
  }
}
