/** A protected file as the release carries it: the spans of its articles, sized from the
    recorded part size. */
module RecoverySets {
  import opened Wrappers
  import opened Articles

  datatype CarriedFile = CarriedFile(segmentIds: seq<string>, partSize: Option<nat>)

  datatype ProtectedFile = ProtectedFile(name: string, size: nat, carried: Option<CarriedFile>)

  /** The learned part size of the file, else of the release, if it is positive; else the
      file spread evenly over its articles. */
  function PartSize(carried: CarriedFile, releasePartSize: Option<nat>, size: nat): (part: nat)
    requires carried.segmentIds != []
    ensures part > 0
  {
    var learned := if carried.partSize.Some? then carried.partSize else releasePartSize;
    if learned.Some? && learned.value > 0 then learned.value
    else Max(DivCeil(size, |carried.segmentIds|), 1)
  }

  /** The span of article `i` of `n`. */
  function SpanOf(id: string, i: nat, n: nat, part: nat, size: nat): ArticleSpan
    requires i < n
  {
    var offset := Min(i * part, size);
    var remaining := size - offset;
    ArticleSpan(id, offset, if i == n - 1 then remaining else Min(part, remaining))
  }

  function CensusFileOf(file: ProtectedFile, releasePartSize: Option<nat>): (r: Option<CensusFile>)
    ensures r.Some? <==> file.carried.Some? && file.carried.value.segmentIds != []
    ensures r.Some? ==> r.value.name == file.name
    ensures r.Some? ==> |r.value.articles| == |file.carried.value.segmentIds|
  {
    if file.carried.None? || file.carried.value.segmentIds == [] then None
    else
      var ids := file.carried.value.segmentIds;
      var part := PartSize(file.carried.value, releasePartSize, file.size);
      Some(CensusFile(file.name,
        seq(|ids|, i requires 0 <= i < |ids| => SpanOf(ids[i], i, |ids|, part, file.size))))
  }

  /** The files of a set that the release carries, in order. */
  function CensusFiles(files: seq<ProtectedFile>, releasePartSize: Option<nat>): seq<CensusFile> {
    if files == [] then []
    else
      (match CensusFileOf(files[0], releasePartSize)
       case Some(f) => [f]
       case None => [])
      + CensusFiles(files[1..], releasePartSize)
  }

  /** Whatever part size is recorded, or none, the spans follow one another from the first
      byte of the file to its last without gap or overlap, in the order of the segments. */
  lemma SpansTileTheFile(file: ProtectedFile, releasePartSize: Option<nat>)
    requires CensusFileOf(file, releasePartSize).Some?
    ensures
      var f := CensusFileOf(file, releasePartSize).value;
      && Tiles(f.articles, 0, file.size)
      && (forall i :: 0 <= i < |f.articles| ==>
            f.articles[i].messageId == file.carried.value.segmentIds[i])
  {
    var ids := file.carried.value.segmentIds;
    var part := PartSize(file.carried.value, releasePartSize, file.size);
    var f := CensusFileOf(file, releasePartSize).value;
    TilesFrom(f.articles, ids, 0, part, file.size);
    assert f.articles[0..] == f.articles;
  }

  /** Where each article starts: at its place in parts of the size learned for the file, else
      of that learned for the release, else of an even share of the file. A learned size of
      zero is none, but the file's own hides the release's. */
  lemma PartsStart(file: ProtectedFile, releasePartSize: Option<nat>, i: nat)
    requires CensusFileOf(file, releasePartSize).Some? && i < |file.carried.value.segmentIds|
    ensures
      var start := CensusFileOf(file, releasePartSize).value.articles[i].offset;
      var own, n := file.carried.value.partSize, |file.carried.value.segmentIds|;
      && (forall p: nat :: p > 0 && (own == Some(p) || (own.None? && releasePartSize == Some(p))) ==>
            start == Min(i * p, file.size))
      && (own == Some(0) || (own.None? && releasePartSize in {None, Some(0)}) ==>
            start == Min(i * Max(DivCeil(file.size, n), 1), file.size))
  {
  }

  lemma {:induction false} TilesFrom(articles: seq<ArticleSpan>, ids: seq<string>, i: nat, part: nat, size: nat)
    requires i < |ids| == |articles|
    requires forall k :: 0 <= k < |ids| ==> articles[k] == SpanOf(ids[k], k, |ids|, part, size)
    ensures Tiles(articles[i..], Min(i * part, size), size)
    decreases |ids| - i
  {
    var rest := articles[i..];
    assert rest[0] == articles[i] && rest[1..] == articles[i + 1..];
    assert (i + 1) * part == i * part + part;
    if i + 1 < |ids| {
      TilesFrom(articles, ids, i + 1, part, size);
    }
  }

  /** Tiles stay inside the file, so a non-empty one starts before its end; and every byte
      of the file lies in one. */
  lemma {:induction false} TilesCover(articles: seq<ArticleSpan>, start: nat, end: nat)
    requires Tiles(articles, start, end)
    ensures start <= end
    ensures forall a :: a in articles ==> start <= a.offset && a.offset + a.len <= end
    ensures forall b :: start <= b < end ==> Carried(articles, b)
  {
    if articles != [] {
      TilesCover(articles[1..], start + articles[0].len, end);
      forall b | start <= b < end ensures Carried(articles, b) {
        if b < start + articles[0].len {
          assert HasByte(articles[0], b);
        } else {
          assert Carried(articles[1..], b);
          var a :| a in articles[1..] && HasByte(a, b);
          assert a in articles;
        }
      }
    }
  }
}
