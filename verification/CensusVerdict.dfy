/** What the census verdict means: it holds however the open questions turn out, and it is
    given whenever they all turn out the same way. */
module CensusVerdicts {
  import opened Wrappers
  import opened Articles
  import opened Census

  /** One way things may be: the articles that are lost, and the slices lost of files the
      release does not carry. */
  datatype Truth = Truth(lost: set<string>, gone: set<(nat, nat)>)

  /** A way things may be given what the census established: an article that is there is
      not lost, one known lost is, and anything else is open. */
  ghost predicate Allowed(t: Truth, target: CensusTarget, loss: Losses) {
    forall id :: id in AllIds(target) ==>
      && (LossOf(loss, id) == Unharmed ==> id !in t.lost)
      && (LossOf(loss, id) == Certain ==> id in t.lost)
  }

  // ---- Slices, byte by byte -------------------------------------------------------

  /** A byte of the file that the article carries and that lies in slice `k`. */
  predicate IsHit(a: ArticleSpan, slice: nat, size: nat, k: nat, b: nat)
    requires slice > 0
  {
    HasByte(a, b) && b < size && b / slice == k
  }

  ghost predicate Hits(a: ArticleSpan, slice: nat, size: nat, k: nat)
    requires slice > 0
  {
    exists b: nat :: IsHit(a, slice, size, k, b)
  }

  lemma DivAtMost(b: nat, slice: nat, k: nat)
    requires slice > 0
    ensures b / slice <= k <==> b < (k + 1) * slice
  {
    var q := b / slice;
    assert q * slice <= b < q * slice + slice;
    if q <= k {
      assert q * slice <= k * slice;
    } else {
      assert (k + 1) * slice <= q * slice;
    }
  }

  lemma DivAtLeast(b: nat, slice: nat, k: nat)
    requires slice > 0
    ensures k <= b / slice <==> k * slice <= b
  {
    if k > 0 {
      DivAtMost(b, slice, k - 1);
    }
  }

  lemma DivBounds(b: nat, slice: nat, k: nat)
    requires slice > 0
    ensures b / slice <= k <==> b < (k + 1) * slice
    ensures k <= b / slice <==> k * slice <= b
    ensures k * slice / slice == k
  {
    DivAtMost(b, slice, k);
    DivAtLeast(b, slice, k);
    DivExact(slice, k);
  }

  lemma DivExact(slice: nat, k: nat)
    requires slice > 0
    ensures k * slice / slice == k
  {
    var b := k * slice;
    DivAtMost(b, slice, k);
    DivAtLeast(b, slice, k);
    assert (k + 1) * slice == b + slice;
  }

  /** The slices of a file are the ones that hold a byte of it. */
  lemma SliceStarts(size: nat, slice: nat, k: nat)
    requires slice > 0
    ensures k < SliceCount(size, slice) <==> k * slice < size
  {
    DivBounds(size + slice - 1, slice, k + 1);
    assert (k + 1) * slice == k * slice + slice;
  }

  /** An article that starts in the file is charged to exactly the slices that hold one of
      its bytes. */
  lemma ChargedSlicesHoldItsBytes(a: ArticleSpan, slice: nat, size: nat, k: nat)
    requires slice > 0 && (a.len > 0 ==> a.offset < size)
    ensures k in SlicesOf(a, slice, SliceCount(size, slice)) <==> Hits(a, slice, size, k)
  {
    var slices := SliceCount(size, slice);
    if a.len > 0 {
      var end := a.offset + a.len - 1;
      SliceStarts(size, slice, 0);
      SliceStarts(size, slice, k);
      if k in SlicesOf(a, slice, slices) {
        var b := Max(a.offset, k * slice);
        DivBounds(end, slice, k);
        DivBounds(a.offset, slice, k);
        assert IsHit(a, slice, size, k, b);
      }
      if Hits(a, slice, size, k) {
        var b: nat :| IsHit(a, slice, size, k, b);
        DivBounds(b, slice, k);
        DivBounds(end, slice, k);
        DivBounds(a.offset, slice, k);
      }
    }
  }

  /** For any article and file, the charge is right about every slice exactly when the
      article is empty, starts in the file, or starts past its last slice: one that starts
      in the padding of the last slice is charged to a slice it has no byte of. */
  lemma ChargeIsRightExactlyWhen(a: ArticleSpan, slice: nat, size: nat)
    requires slice > 0
    ensures
      (forall k: nat :: k in SlicesOf(a, slice, SliceCount(size, slice)) <==> Hits(a, slice, size, k))
      <==> (a.len == 0 || a.offset < size || a.offset / slice >= Max(SliceCount(size, slice), 1))
  {
    var slices := SliceCount(size, slice);
    if a.len == 0 || a.offset < size {
      forall k: nat ensures k in SlicesOf(a, slice, slices) <==> Hits(a, slice, size, k) {
        ChargedSlicesHoldItsBytes(a, slice, size, k);
      }
    } else {
      var first := a.offset / slice;
      assert !Hits(a, slice, size, first);
      DivBounds(a.offset, slice, first);
      DivBounds(a.offset + a.len - 1, slice, first);
      assert first in SlicesOf(a, slice, slices) <==> first < Max(slices, 1);
    }
  }

  lemma {:induction false} ChargedMeans(
      articles: seq<ArticleSpan>, loss: Losses, kind: Loss, slice: nat, slices: nat, k: nat)
    requires slice > 0
    ensures k in Charged(articles, loss, kind, slice, slices) <==>
      exists a :: a in articles && LossOf(loss, a.messageId) == kind && k in SlicesOf(a, slice, slices)
  {
    if articles != [] {
      var n := |articles| - 1;
      ChargedMeans(articles[..n], loss, kind, slice, slices, k);
      assert forall a :: a in articles <==> a in articles[..n] || a == articles[n];
    }
  }

  // ---- What is lost in one truth --------------------------------------------------

  ghost predicate SliceLost(articles: seq<ArticleSpan>, lost: set<string>, slice: nat, size: nat, k: nat)
    requires slice > 0
  {
    exists a :: a in articles && a.messageId in lost && Hits(a, slice, size, k)
  }

  /** The slices of file `fi` that hold a lost byte. */
  ghost function LostOf(files: seq<CensusFile>, s: Par2RecoverySet, t: Truth, fi: nat): set<nat>
    requires fi < |s.files|
  {
    var size, slice := s.files[fi].size, if s.sliceSize == 0 then 1 else s.sliceSize;
    match CarriedAs(files, s.files[fi].name)
    case Some(f) => set k | k in Range(0, SliceCount(size, slice)) && SliceLost(f.articles, t.lost, slice, size, k)
    case None => set k | k in Range(0, SliceCount(size, slice)) && (fi, k) in t.gone
  }

  ghost function LostSlices(files: seq<CensusFile>, s: Par2RecoverySet, t: Truth, n: nat): set<(nat, nat)>
    requires n <= |s.files|
  {
    if n == 0 then {} else LostSlices(files, s, t, n - 1) + Tag(n - 1, LostOf(files, s, t, n - 1))
  }

  predicate Alive(v: RecoveryVolume, lost: set<string>) {
    forall i :: 0 <= i < |v.segmentIds| ==> v.segmentIds[i] !in lost
  }

  function Blocks(s: Par2RecoverySet, t: Truth): nat {
    BlocksIf(s.volumes, v => Alive(v, t.lost))
  }

  /** The recovery blocks that survive cover the slices that are lost. */
  ghost predicate Mendable(files: seq<CensusFile>, s: Par2RecoverySet, t: Truth) {
    |LostSlices(files, s, t, |s.files|)| <= Blocks(s, t)
  }

  predicate IsCarried(files: seq<CensusFile>, name: string, a: ArticleSpan) {
    CarriedAs(files, name).Some? && a in CarriedAs(files, name).value.articles
  }

  /** Every carried article of the set's files starts inside its file, as it does when the
      spans tile the file. */
  ghost predicate InFile(files: seq<CensusFile>, s: Par2RecoverySet) {
    forall fi, a ::
      0 <= fi < |s.files| && IsCarried(files, s.files[fi].name, a) && a.len > 0 ==> a.offset < s.files[fi].size
  }

  // ---- Bounds ---------------------------------------------------------------------

  lemma {:induction false} DataIdsHave(files: seq<CensusFile>, f: CensusFile, a: ArticleSpan)
    requires f in files && a in f.articles
    ensures a.messageId in DataIds(files)
  {
    if files[0] == f {
      var i :| 0 <= i < |f.articles| && f.articles[i] == a;
      assert IdsOf(f.articles)[i] == a.messageId;
    } else {
      DataIdsHave(files[1..], f, a);
    }
  }

  /** A file of a name is found exactly when the release carries one, and it is the last one. */
  lemma {:induction false} CarriedIsLast(files: seq<CensusFile>, name: string)
    ensures CarriedAs(files, name).Some? <==> exists i :: 0 <= i < |files| && files[i].name == name
    ensures CarriedAs(files, name).Some? ==>
      exists i :: 0 <= i < |files| && files[i].name == name && files[i] == CarriedAs(files, name).value
        && forall j :: i < j < |files| ==> files[j].name != name
  {
    if files != [] {
      var last := |files| - 1;
      CarriedIsLast(files[..last], name);
      assert files[last] == files[last];
      assert forall i :: 0 <= i < last ==> files[..last][i] == files[i];
    }
  }

  lemma CarriedIsThere(files: seq<CensusFile>, name: string)
    requires CarriedAs(files, name).Some?
    ensures CarriedAs(files, name).value in files && CarriedAs(files, name).value.name == name
  {
    CarriedIsLast(files, name);
  }

  lemma FileBounds(target: CensusTarget, loss: Losses, t: Truth, fi: nat)
    requires target.recovery.Some? && fi < |target.recovery.value.files|
    requires InFile(target.files, target.recovery.value) && Allowed(t, target, loss)
    ensures
      var s := target.recovery.value;
      FileSlices(target.files, s, loss, Certain, fi)
        <= LostOf(target.files, s, t, fi)
        <= FileSlices(target.files, s, loss, Certain, fi) + FileSlices(target.files, s, loss, Possible, fi)
  {
    hide SliceCount, Charged, SlicesOf, SliceLost, AllIds, IsCarried, Allowed;
    var s := target.recovery.value;
    var size, slice := s.files[fi].size, SliceSize(s);
    var carried := CarriedAs(target.files, s.files[fi].name);
    if carried.Some? {
      CarriedStartInFile(target, fi);
      AllowedIn(target, loss, t, carried.value);
      CertainAreLost(carried.value.articles, loss, t.lost, slice, size);
      LostAreOpen(carried.value.articles, loss, t.lost, slice, size);
    }
  }

  /** The articles of a carried file of the set, and where they start. */
  lemma CarriedStartInFile(target: CensusTarget, fi: nat)
    requires target.recovery.Some? && fi < |target.recovery.value.files|
    requires InFile(target.files, target.recovery.value)
    requires CarriedAs(target.files, target.recovery.value.files[fi].name).Some?
    ensures
      var f := CarriedAs(target.files, target.recovery.value.files[fi].name).value;
      && f in target.files
      && forall a :: a in f.articles && a.len > 0 ==> a.offset < target.recovery.value.files[fi].size
  {
    hide CarriedAs;
    var s := target.recovery.value;
    CarriedIsThere(target.files, s.files[fi].name);
    var f := CarriedAs(target.files, s.files[fi].name).value;
    forall a | a in f.articles && a.len > 0 ensures a.offset < s.files[fi].size {
      assert IsCarried(target.files, s.files[fi].name, a);
    }
  }

  /** What a truth that is allowed says of the articles of a file. */
  lemma AllowedIn(target: CensusTarget, loss: Losses, t: Truth, f: CensusFile)
    requires Allowed(t, target, loss) && f in target.files
    ensures forall a :: a in f.articles ==>
      && (LossOf(loss, a.messageId) == Unharmed ==> a.messageId !in t.lost)
      && (LossOf(loss, a.messageId) == Certain ==> a.messageId in t.lost)
  {
    hide DataIds, VolumeIds, LossOf;
    forall a | a in f.articles ensures a.messageId in AllIds(target) {
      DataIdsHave(target.files, f, a);
    }
  }

  lemma CertainAreLost(articles: seq<ArticleSpan>, loss: Losses, lost: set<string>, slice: nat, size: nat)
    requires slice > 0 && forall a :: a in articles && a.len > 0 ==> a.offset < size
    requires forall a :: a in articles ==> LossOf(loss, a.messageId) == Certain ==> a.messageId in lost
    ensures forall k :: k in Charged(articles, loss, Certain, slice, SliceCount(size, slice)) ==>
      k < SliceCount(size, slice) && SliceLost(articles, lost, slice, size, k)
  {
    hide SliceCount, Charged, SlicesOf, LossOf, Hits;
    var slices := SliceCount(size, slice);
    forall k | k in Charged(articles, loss, Certain, slice, slices)
      ensures k < slices && SliceLost(articles, lost, slice, size, k)
    {
      ChargedMeans(articles, loss, Certain, slice, slices, k);
      var a :| a in articles && LossOf(loss, a.messageId) == Certain && k in SlicesOf(a, slice, slices);
      ChargedSlicesHoldItsBytes(a, slice, size, k);
      HitSliceExists(a, slice, size, k);
    }
  }

  lemma LostAreOpen(articles: seq<ArticleSpan>, loss: Losses, lost: set<string>, slice: nat, size: nat)
    requires slice > 0 && forall a :: a in articles && a.len > 0 ==> a.offset < size
    requires forall a :: a in articles ==> LossOf(loss, a.messageId) == Unharmed ==> a.messageId !in lost
    ensures forall k: nat :: SliceLost(articles, lost, slice, size, k) ==>
      || k in Charged(articles, loss, Certain, slice, SliceCount(size, slice))
      || k in Charged(articles, loss, Possible, slice, SliceCount(size, slice))
  {
    hide SliceCount, Charged, SlicesOf, Hits;
    var slices := SliceCount(size, slice);
    forall k: nat | SliceLost(articles, lost, slice, size, k)
      ensures || k in Charged(articles, loss, Certain, slice, slices)
              || k in Charged(articles, loss, Possible, slice, slices)
    {
      var a :| a in articles && a.messageId in lost && Hits(a, slice, size, k);
      ChargedSlicesHoldItsBytes(a, slice, size, k);
      ChargedMeans(articles, loss, Certain, slice, slices, k);
      ChargedMeans(articles, loss, Possible, slice, slices, k);
    }
  }

  lemma HitSliceExists(a: ArticleSpan, slice: nat, size: nat, k: nat)
    requires slice > 0 && Hits(a, slice, size, k)
    ensures k < SliceCount(size, slice)
  {
    var b: nat :| IsHit(a, slice, size, k, b);
    DivBounds(b, slice, k);
    SliceStarts(size, slice, k);
  }

  /** However the open questions turn out, the slices that hold a lost byte are all those
      counted as damaged and none beyond the damaged and the uncertain ones. */
  lemma {:induction false} LostSlicesAreBounded(target: CensusTarget, loss: Losses, t: Truth, n: nat)
    requires target.recovery.Some? && n <= |target.recovery.value.files|
    requires InFile(target.files, target.recovery.value) && Allowed(t, target, loss)
    ensures
      var s := target.recovery.value;
      Bucket(target.files, s, loss, Certain, n)
        <= LostSlices(target.files, s, t, n)
        <= Bucket(target.files, s, loss, Certain, n) + Bucket(target.files, s, loss, Possible, n)
  {
    hide FileSlices, LostOf, InFile, Allowed, Tag;
    if n > 0 {
      LostSlicesAreBounded(target, loss, t, n - 1);
      FileBounds(target, loss, t, n - 1);
      var s := target.recovery.value;
      TagKeeps(n - 1, FileSlices(target.files, s, loss, Certain, n - 1), LostOf(target.files, s, t, n - 1),
               FileSlices(target.files, s, loss, Possible, n - 1));
    }
  }

  lemma TagJoins(fi: nat, a: set<nat>, b: set<nat>)
    ensures Tag(fi, a + b) == Tag(fi, a) + Tag(fi, b)
  {
  }

  lemma TagKeeps(fi: nat, certain: set<nat>, lost: set<nat>, possible: set<nat>)
    requires certain <= lost <= certain + possible
    ensures Tag(fi, certain) <= Tag(fi, lost) <= Tag(fi, certain) + Tag(fi, possible)
  {
  }

  /** The best that can be: every open question turns out well. */
  ghost function Best(target: CensusTarget, loss: Losses): Truth {
    Truth(IdsWith(AllIds(target), loss, Certain), {})
  }

  /** The worst that can be: everything open is lost. */
  ghost function Worst(target: CensusTarget, loss: Losses): Truth
    requires target.recovery.Some?
  {
    var s := target.recovery.value;
    Truth(IdsWith(AllIds(target), loss, Certain) + IdsWith(AllIds(target), loss, Possible),
          Bucket(target.files, s, loss, Possible, |s.files|))
  }

  lemma ExtremesAreAllowed(target: CensusTarget, loss: Losses)
    requires target.recovery.Some?
    ensures Allowed(Best(target, loss), target, loss)
    ensures Allowed(Worst(target, loss), target, loss)
  {
  }

  lemma {:induction false} BucketMeans(
      files: seq<CensusFile>, s: Par2RecoverySet, loss: Losses, kind: Loss, n: nat, fi: nat, k: nat)
    requires n <= |s.files|
    ensures (fi, k) in Bucket(files, s, loss, kind, n) <==> fi < n && k in FileSlices(files, s, loss, kind, fi)
  {
    if n > 0 {
      BucketMeans(files, s, loss, kind, n - 1, fi, k);
    }
  }

  lemma BestFile(target: CensusTarget, loss: Losses, fi: nat)
    requires target.recovery.Some? && fi < |target.recovery.value.files|
    requires InFile(target.files, target.recovery.value)
    ensures LostOf(target.files, target.recovery.value, Best(target, loss), fi)
      == FileSlices(target.files, target.recovery.value, loss, Certain, fi)
  {
    var s, t := target.recovery.value, Best(target, loss);
    ExtremesAreAllowed(target, loss);
    FileBounds(target, loss, t, fi);
    var size, slice := s.files[fi].size, SliceSize(s);
    var carried := CarriedAs(target.files, s.files[fi].name);
    if carried.Some? {
      var articles := carried.value.articles;
      forall k | k in LostOf(target.files, s, t, fi)
        ensures k in Charged(articles, loss, Certain, slice, SliceCount(size, slice))
      {
        var a :| a in articles && a.messageId in t.lost && Hits(a, slice, size, k);
        assert IsCarried(target.files, s.files[fi].name, a);
        ChargedSlicesHoldItsBytes(a, slice, size, k);
        ChargedMeans(articles, loss, Certain, slice, SliceCount(size, slice), k);
      }
    }
  }

  lemma WorstFile(target: CensusTarget, loss: Losses, fi: nat)
    requires target.recovery.Some? && fi < |target.recovery.value.files|
    requires InFile(target.files, target.recovery.value)
    ensures
      var s := target.recovery.value;
      LostOf(target.files, s, Worst(target, loss), fi)
        == FileSlices(target.files, s, loss, Certain, fi) + FileSlices(target.files, s, loss, Possible, fi)
  {
    var s, t := target.recovery.value, Worst(target, loss);
    ExtremesAreAllowed(target, loss);
    FileBounds(target, loss, t, fi);
    var size, slice := s.files[fi].size, SliceSize(s);
    var slices := SliceCount(size, slice);
    var carried := CarriedAs(target.files, s.files[fi].name);
    forall k | k in FileSlices(target.files, s, loss, Possible, fi) ensures k in LostOf(target.files, s, t, fi) {
      if carried.Some? {
        var articles := carried.value.articles;
        CarriedIsThere(target.files, s.files[fi].name);
        ChargedMeans(articles, loss, Possible, slice, slices, k);
        var a :| a in articles && LossOf(loss, a.messageId) == Possible && k in SlicesOf(a, slice, slices);
        DataIdsHave(target.files, carried.value, a);
        assert IsCarried(target.files, s.files[fi].name, a);
        ChargedSlicesHoldItsBytes(a, slice, size, k);
        HitSliceExists(a, slice, size, k);
      } else {
        BucketMeans(target.files, s, loss, Possible, |s.files|, fi, k);
      }
    }
  }

  lemma {:induction false} ExtremeSlices(target: CensusTarget, loss: Losses, n: nat)
    requires target.recovery.Some? && n <= |target.recovery.value.files|
    requires InFile(target.files, target.recovery.value)
    ensures
      var s := target.recovery.value;
      var d, u := Bucket(target.files, s, loss, Certain, n), Bucket(target.files, s, loss, Possible, n);
      && LostSlices(target.files, s, Best(target, loss), n) == d
      && LostSlices(target.files, s, Worst(target, loss), n) == d + u
  {
    hide FileSlices, LostOf, InFile, Best, Worst, Tag;
    if n > 0 {
      ExtremeSlices(target, loss, n - 1);
      BestFile(target, loss, n - 1);
      WorstFile(target, loss, n - 1);
      var s := target.recovery.value;
      TagJoins(n - 1, FileSlices(target.files, s, loss, Certain, n - 1),
               FileSlices(target.files, s, loss, Possible, n - 1));
    }
  }

  // ---- Recovery blocks ------------------------------------------------------------

  lemma {:induction false} BlocksMonotone(
      volumes: seq<RecoveryVolume>, p: RecoveryVolume -> bool, q: RecoveryVolume -> bool)
    requires forall v :: v in volumes && p(v) ==> q(v)
    ensures BlocksIf(volumes, p) <= BlocksIf(volumes, q)
  {
    if volumes != [] {
      BlocksMonotone(volumes[..|volumes| - 1], p, q);
    }
  }

  lemma {:induction false} BlocksAdd(volumes: seq<RecoveryVolume>, p: RecoveryVolume -> bool,
                                     q: RecoveryVolume -> bool, both: RecoveryVolume -> bool)
    requires forall v :: v in volumes ==> !(p(v) && q(v)) && (both(v) <==> p(v) || q(v))
    ensures BlocksIf(volumes, p) + BlocksIf(volumes, q) == BlocksIf(volumes, both)
  {
    if volumes != [] {
      BlocksAdd(volumes[..|volumes| - 1], p, q, both);
    }
  }

  lemma {:induction false} VolumeIdsHave(volumes: seq<RecoveryVolume>, v: RecoveryVolume, i: nat)
    requires v in volumes && i < |v.segmentIds|
    ensures v.segmentIds[i] in VolumeIds(volumes)
  {
    if volumes[0] != v {
      VolumeIdsHave(volumes[1..], v, i);
    }
  }

  /** However the open questions turn out, the surviving recovery blocks are between those
      known available and those that might be; the extremes are met. */
  lemma BlocksAreBounded(target: CensusTarget, loss: Losses, t: Truth)
    requires target.recovery.Some? && Allowed(t, target, loss)
    ensures
      var s := target.recovery.value;
      var a := BlocksIf(s.volumes, v => Whole(v, loss));
      var u := BlocksIf(s.volumes, v => !Whole(v, loss) && !Broken(v, loss));
      && a <= Blocks(s, t) <= a + u
      && (t == Best(target, loss) ==> Blocks(s, t) == a + u)
      && (t == Worst(target, loss) ==> Blocks(s, t) == a)
  {
    var s := target.recovery.value;
    var whole := (v: RecoveryVolume) => Whole(v, loss);
    var maybe := (v: RecoveryVolume) => !Whole(v, loss) && !Broken(v, loss);
    var unbroken := (v: RecoveryVolume) => !Broken(v, loss);
    var alive := (v: RecoveryVolume) => Alive(v, t.lost);
    forall v, i | v in s.volumes && 0 <= i < |v.segmentIds| ensures v.segmentIds[i] in AllIds(target) {
      VolumeIdsHave(s.volumes, v, i);
    }
    forall v | v in s.volumes
      ensures Whole(v, loss) ==> Alive(v, t.lost) && !Broken(v, loss)
      ensures Broken(v, loss) ==> !Alive(v, t.lost)
    {
      if Broken(v, loss) {
        var i :| 0 <= i < |v.segmentIds| && LossOf(loss, v.segmentIds[i]) == Certain;
        assert v.segmentIds[i] in t.lost;
      }
    }
    BlocksAdd(s.volumes, whole, maybe, unbroken);
    BlocksMonotone(s.volumes, whole, alive);
    BlocksMonotone(s.volumes, alive, unbroken);
    if t == Best(target, loss) {
      BlocksMonotone(s.volumes, unbroken, alive);
    }
    if t == Worst(target, loss) {
      forall v | v in s.volumes && Alive(v, t.lost) ensures Whole(v, loss) {
        forall i | 0 <= i < |v.segmentIds| ensures LossOf(loss, v.segmentIds[i]) == Unharmed {
          assert v.segmentIds[i] in AllIds(target);
        }
      }
      BlocksMonotone(s.volumes, alive, whole);
    }
  }

  // ---- The verdict ----------------------------------------------------------------

  lemma Sizes(d: set<(nat, nat)>, u: set<(nat, nat)>, lost: set<(nat, nat)>)
    requires d <= lost <= d + u
    ensures |d| <= |lost| <= |d| + |u - d|
    ensures |d + u| == |d| + |u - d|
  {
    assert lost == d + (lost - d);
    assert d + u == d + (u - d);
    assert lost - d <= u - d;
    assert u - d == (lost - d) + ((u - d) - (lost - d));
  }

  /** The figures of a report bound what is lost and what survives, and the bounds are met:
      by the best case on the one side, by the worst on the other. */
  lemma ReportBounds(target: CensusTarget, loss: Losses, r: Report, t: Truth)
    requires target.recovery.Some? && Accounts(target, loss, r)
    requires InFile(target.files, target.recovery.value) && Allowed(t, target, loss)
    ensures
      var s := target.recovery.value;
      var lost := |LostSlices(target.files, s, t, |s.files|)|;
      && r.damaged <= lost <= r.damaged + r.uncertain
      && r.recoveryAvailable <= Blocks(s, t) <= r.recoveryAvailable + r.recoveryUncertain
      && (t == Best(target, loss) ==>
            lost == r.damaged && Blocks(s, t) == r.recoveryAvailable + r.recoveryUncertain)
      && (t == Worst(target, loss) ==>
            lost == r.damaged + r.uncertain && Blocks(s, t) == r.recoveryAvailable)
  {
    var s := target.recovery.value;
    var d, u := Bucket(target.files, s, loss, Certain, |s.files|), Bucket(target.files, s, loss, Possible, |s.files|);
    LostSlicesAreBounded(target, loss, t, |s.files|);
    Sizes(d, u, LostSlices(target.files, s, t, |s.files|));
    BlocksAreBounded(target, loss, t);
    ExtremeSlices(target, loss, |s.files|);
  }

  /** The verdict is sound and complete: intact when no way things may be loses a slice,
      repairable when recovery covers the loss in all of them, beyond repair when it does
      in none, and open exactly when they disagree. */
  lemma VerdictIsExact(target: CensusTarget, loss: Losses, r: Report)
    requires target.recovery.Some? && Accounts(target, loss, r)
    requires InFile(target.files, target.recovery.value)
    ensures
      var s := target.recovery.value;
      && (r.verdict == Some(Intact) <==>
            forall t :: Allowed(t, target, loss) ==> LostSlices(target.files, s, t, |s.files|) == {})
      && (r.verdict == Some(Intact) || r.verdict == Some(Repairable) <==>
            forall t :: Allowed(t, target, loss) ==> Mendable(target.files, s, t))
      && (r.verdict == Some(BeyondRepair) <==>
            forall t :: Allowed(t, target, loss) ==> !Mendable(target.files, s, t))
      && (r.verdict == None <==>
            exists t, t' :: Allowed(t, target, loss) && Allowed(t', target, loss)
              && Mendable(target.files, s, t) && !Mendable(target.files, s, t'))
  {
    hide LostSlices, Blocks, Allowed, InFile, Accounts;
    assert r.verdict == SettleVerdict(r.damaged, r.uncertain, r.recoveryAvailable, r.recoveryUncertain) by {
      AccountsSettles(target, loss, r);
    }
    var s := target.recovery.value;
    var best, worst := Best(target, loss), Worst(target, loss);
    ExtremesAreAllowed(target, loss);
    ReportBounds(target, loss, r, best);
    ReportBounds(target, loss, r, worst);
    forall t | Allowed(t, target, loss)
      ensures r.verdict == Some(Intact) ==> LostSlices(target.files, s, t, |s.files|) == {}
      ensures Mendable(target.files, s, worst) ==> Mendable(target.files, s, t)
      ensures Mendable(target.files, s, t) ==> Mendable(target.files, s, best)
    {
      ReportBounds(target, loss, r, t);
    }
  }

  lemma AccountsSettles(target: CensusTarget, loss: Losses, r: Report)
    requires Accounts(target, loss, r)
    ensures r.verdict == SettleVerdict(r.damaged, r.uncertain, r.recoveryAvailable, r.recoveryUncertain)
  {
  }

  // ---- Without a recovery set -----------------------------------------------------

  ghost function LostArticles(files: seq<CensusFile>, t: Truth): set<string> {
    set id | id in DataIds(files) && id in t.lost
  }

  /** Without a recovery set articles are counted: intact when no way things may be loses
      one, beyond repair when all do, open when they disagree. */
  lemma VerdictWithoutRecoverySet(target: CensusTarget, loss: Losses, r: Report)
    requires target.recovery.None? && Accounts(target, loss, r)
    ensures r.verdict != Some(Repairable)
    ensures r.verdict == Some(Intact) <==>
      forall t :: Allowed(t, target, loss) ==> LostArticles(target.files, t) == {}
    ensures r.verdict == Some(BeyondRepair) <==>
      forall t :: Allowed(t, target, loss) ==> LostArticles(target.files, t) != {}
  {
    var ids := DataIds(target.files);
    assert AllIds(target) == ids;
    var best := Truth(IdsWith(ids, loss, Certain), {});
    var worst := Truth(IdsWith(ids, loss, Certain) + IdsWith(ids, loss, Possible), {});
    assert Allowed(best, target, loss) && Allowed(worst, target, loss);
    assert LostArticles(target.files, best) == IdsWith(ids, loss, Certain);
    assert LostArticles(target.files, worst) == IdsWith(ids, loss, Certain) + IdsWith(ids, loss, Possible);
    forall t | Allowed(t, target, loss)
      ensures IdsWith(ids, loss, Certain) <= LostArticles(target.files, t)
        <= IdsWith(ids, loss, Certain) + IdsWith(ids, loss, Possible)
    {
    }
    Cardinalities(IdsWith(ids, loss, Certain));
    Cardinalities(IdsWith(ids, loss, Possible));
  }

  lemma Cardinalities(s: set<string>)
    ensures |s| == 0 <==> s == {}
  {
  }
}
