/** Finding the segment that holds a byte by interpolation, and aligning a stream to it. */
module SegmentSearch {
  import opened Wrappers

  const MAX_PROBES: nat := 20
  const SCRATCH: nat := 65536

  type Segments = seq<seq<Byte>>

  /** The byte range a segment declares, from 1, both ends included. */
  datatype Header = Header(partBegin: nat, partEnd: nat)

  /** A segment and where it starts; `exact` if a probe found it, else it is an estimate. */
  datatype Found = Found(index: nat, startByte: nat, exact: bool)

  datatype SearchError = NoSegments

  datatype AlignError = Search(error: SearchError) | ReadFailed | UnexpectedEof

  /** Where in an interval of segments and bytes the interpolation guesses, before it is
      clamped to the interval. */
  type Guess = (int, int, int, int) -> int

  // ---- The file -------------------------------------------------------------------

  function Concat(segs: Segments): seq<Byte> {
    if segs == [] then [] else segs[0] + Concat(segs[1..])
  }

  /** Where segment `i` starts. */
  function StartOf(segs: Segments, i: nat): nat
    requires i <= |segs|
  {
    if i == 0 then 0 else StartOf(segs, i - 1) + |segs[i - 1]|
  }

  ghost predicate Holds(segs: Segments, i: nat, target: nat)
    requires i < |segs|
  {
    StartOf(segs, i) <= target < StartOf(segs, i + 1)
  }

  /** Headers that can be read tell the truth. */
  ghost predicate Truthful(segs: Segments, headers: seq<Option<Header>>) {
    |headers| == |segs| && forall i :: 0 <= i < |segs| ==> TruthfulAt(segs, headers, i)
  }

  ghost predicate TruthfulAt(segs: Segments, headers: seq<Option<Header>>, i: nat)
    requires i < |segs| && i < |headers|
  {
    headers[i].Some? ==> headers[i].value == Header(StartOf(segs, i) + 1, StartOf(segs, i + 1))
  }

  lemma {:induction false} StartsAscend(segs: Segments, i: nat, j: nat)
    requires i <= j <= |segs|
    ensures StartOf(segs, i) <= StartOf(segs, j)
  {
    if i < j {
      StartsAscend(segs, i, j - 1);
    }
  }

  lemma {:induction false} StartOfRest(segs: Segments, i: nat)
    requires segs != [] && i < |segs|
    ensures StartOf(segs, i + 1) == |segs[0]| + StartOf(segs[1..], i)
  {
    if i > 0 {
      StartOfRest(segs, i - 1);
    }
  }

  /** The file from a segment's start on is the segments from there on. */
  lemma {:induction false} FileFrom(segs: Segments, i: nat)
    requires i <= |segs|
    ensures StartOf(segs, i) <= |Concat(segs)|
    ensures Concat(segs)[StartOf(segs, i)..] == Concat(segs[i..])
  {
    if i == 0 {
      assert segs[0..] == segs;
    } else {
      FileFrom(segs[1..], i - 1);
      StartOfRest(segs, i - 1);
      assert segs[1..][i - 1..] == segs[i..];
      var first, rest, at := segs[0], Concat(segs[1..]), StartOf(segs[1..], i - 1);
      hide *;
      assert (first + rest)[|first| + at..] == rest[at..];
    }
  }

  lemma FileSize(segs: Segments)
    ensures |Concat(segs)| == StartOf(segs, |segs|)
  {
    FileFrom(segs, |segs|);
    assert segs[|segs|..] == [];
  }

  /** Some segment holds every byte of the file. */
  lemma {:induction false} SomeSegmentHolds(segs: Segments, n: nat, target: nat) returns (i: nat)
    requires n <= |segs| && target < StartOf(segs, n)
    ensures i < n && Holds(segs, i, target)
  {
    if StartOf(segs, n - 1) <= target {
      i := n - 1;
    } else {
      i := SomeSegmentHolds(segs, n - 1, target);
    }
  }

  // ---- The search -----------------------------------------------------------------

  /** The estimate the search falls back on: the segment before where equal ones would put it. */
  function Estimate(n: nat, fileSize: nat, target: nat): (r: Found)
    requires n > 0
    ensures r.index < n && !r.exact
  {
    var avg := fileSize / n;
    var est := Min(if avg == 0 then 0 else target / avg, n - 1);
    Found(Sat(est, 1), Sat(est, 1) * avg, false)
  }

  /** With segments of one size, the estimate is the segment before the one that holds the
      target, or the first, and where it starts. */
  lemma EstimateIsTheOneBefore(n: nat, part: nat, target: nat, i: nat)
    requires i < n && i * part <= target < (i + 1) * part
    ensures
      var r := Estimate(n, n * part, target);
      && r.index == (if i == 0 then 0 else i - 1)
      && r.startByte == (if i == 0 then 0 else (i - 1) * part)
  {
    assert n * part / n == part by {
      DivUnique(n * part, n, part, 0);
    }
    DivUnique(target, part, i, target - i * part);
  }

  lemma DivUnique(a: nat, b: nat, q: nat, r: nat)
    requires a == q * b + r && r < b
    ensures a / b == q
  {
    var d: int, m: int := a / b - q, a % b;
    assert a == (a / b) * b + m;
    assert d * b == r - m;
    assert d >= 1 ==> d * b >= b;
    assert d <= -1 ==> d * b <= -1 * b;
  }

  function Clamp(i: int, lo: int, hi: int): (r: int)
    requires lo <= hi
    ensures lo <= r <= hi
  {
    if i < lo then lo else if i > hi then hi else i
  }

  /** Probes so far, none twice; `lo..hi` is all they leave. */
  ghost predicate Narrowed(probes: seq<nat>, lo: int, hi: int, n: nat) {
    && 0 <= lo <= hi <= n
    && |probes| <= n - (hi - lo)
    && (forall k :: 0 <= k < |probes| ==> probes[k] < n && !(lo <= probes[k] < hi))
    && (forall j, k :: 0 <= j < k < |probes| ==> probes[j] != probes[k])
  }

  /** The interval still holds the segment of the target, if the file has the target. */
  ghost predicate KeepsTarget(segs: Segments, target: nat, lo: int, hi: int) {
    forall i: nat :: i < |segs| && Holds(segs, i, target) ==> lo <= i < hi
  }

  lemma TooLow(segs: Segments, target: nat, lo: int, hi: int, guess: nat)
    requires KeepsTarget(segs, target, lo, hi) && guess < |segs| && StartOf(segs, guess + 1) <= target
    ensures KeepsTarget(segs, target, guess + 1, hi)
  {
    forall i: nat | i < |segs| && Holds(segs, i, target) ensures guess + 1 <= i < hi {
      if i <= guess {
        StartsAscend(segs, i + 1, guess + 1);
      }
    }
  }

  lemma TooHigh(segs: Segments, target: nat, lo: int, hi: int, guess: nat)
    requires KeepsTarget(segs, target, lo, hi) && guess < |segs| && StartOf(segs, guess) > target
    ensures KeepsTarget(segs, target, lo, guess)
  {
    forall i: nat | i < |segs| && Holds(segs, i, target) ensures lo <= i < guess {
      if i >= guess {
        StartsAscend(segs, guess, i);
      }
    }
  }

  /** Why a search that found nothing exact gave up. */
  ghost predicate GaveUp(segs: Segments, headers: seq<Option<Header>>, fileSize: nat, target: nat, probes: seq<nat>) {
    || target >= fileSize || target >= StartOf(segs, |segs|)
    || (probes != [] && probes[|probes| - 1] < |headers| && headers[probes[|probes| - 1]].None?)
    || |probes| == MAX_PROBES
  }

  /** What a probe of a readable header says. */
  lemma HeaderMeans(segs: Segments, headers: seq<Option<Header>>, i: nat)
    requires Truthful(segs, headers) && i < |headers| && headers[i].Some?
    ensures i < |segs|
    ensures Sat(headers[i].value.partBegin, 1) == StartOf(segs, i)
    ensures headers[i].value.partEnd == StartOf(segs, i + 1)
  {
    hide StartOf;
    assert TruthfulAt(segs, headers, i);
  }

  lemma TruthfulSize(segs: Segments, headers: seq<Option<Header>>)
    requires Truthful(segs, headers)
    ensures |headers| == |segs|
  {
  }

  lemma NothingProbed(segs: Segments, target: nat)
    ensures Narrowed([], 0, |segs|, |segs|) && KeepsTarget(segs, target, 0, |segs|)
  {
  }

  /** A probe outside what is left narrows it from below. */
  lemma NarrowUp(probes: seq<nat>, lo: int, hi: int, n: nat, guess: nat)
    requires Narrowed(probes, lo, hi, n) && lo <= guess < hi
    ensures Narrowed(probes + [guess], guess + 1, hi, n)
  {
  }

  lemma NarrowDown(probes: seq<nat>, lo: int, hi: int, n: nat, guess: nat)
    requires Narrowed(probes, lo, hi, n) && lo <= guess < hi
    ensures Narrowed(probes + [guess], lo, guess, n)
  {
  }

  lemma NarrowedMeans(probes: seq<nat>, lo: int, hi: int, n: nat)
    requires Narrowed(probes, lo, hi, n)
    ensures 0 <= lo <= hi <= n && |probes| <= n - (hi - lo)
    ensures forall k :: 0 <= k < |probes| ==> probes[k] < n
    ensures forall j, k :: 0 <= j < k < |probes| ==> probes[j] != probes[k]
  {
  }

  /** A file's target that is left is left in an interval that is not empty. */
  lemma TargetIsLeft(segs: Segments, target: nat, lo: int, hi: int)
    requires KeepsTarget(segs, target, lo, hi) && target < StartOf(segs, |segs|)
    ensures lo < hi
  {
    var home := SomeSegmentHolds(segs, |segs|, target);
  }

  /** Narrow down to the segment that holds the target, wherever the interpolation guesses. A
      probe never comes back to a segment, and a hit is exact. Nothing exact is found only if
      the target is outside the file, a header cannot be read, or twenty probes were made. */
  method FindSegment(segs: Segments, headers: seq<Option<Header>>, fileSize: nat, target: nat, guess: Guess)
    returns (r: Result<Found, SearchError>, probes: seq<nat>)
    requires Truthful(segs, headers)
    ensures r.Err? <==> segs == []
    ensures |probes| <= MAX_PROBES && |probes| <= |segs|
    ensures forall k :: 0 <= k < |probes| ==> probes[k] < |headers|
    ensures forall j, k :: 0 <= j < k < |probes| ==> probes[j] != probes[k]
    ensures segs != [] && target == 0 ==> r == Ok(Found(0, 0, true))
    ensures r.Ok? ==> r.value.index < |segs|
    ensures r.Ok? && r.value.exact && target > 0 ==>
      && r.value.startByte == StartOf(segs, r.value.index)
      && Holds(segs, r.value.index, target) && target < fileSize
    ensures r.Ok? && !r.value.exact ==>
      r.value == Estimate(|segs|, fileSize, target) && GaveUp(segs, headers, fileSize, target, probes)
    ensures r.Ok? && !r.value.exact && |segs| <= MAX_PROBES && target < Min(fileSize, StartOf(segs, |segs|)) ==>
      probes != [] && headers[probes[|probes| - 1]].None?
  {
    hide Concat, Estimate, StartOf, Truthful, Narrowed, KeepsTarget;
    var n := |segs|;
    probes := [];
    TruthfulSize(segs, headers);
    if n == 0 {
      return Err(NoSegments), probes;
    }
    if target == 0 {
      return Ok(Found(0, 0, true)), probes;
    }
    var lo, hi: int, loByte, hiByte: int := 0, n, 0, fileSize;
    NothingProbed(segs, target);
    var iteration := 0;
    while iteration < MAX_PROBES
      invariant 0 <= iteration == |probes| <= MAX_PROBES
      invariant Narrowed(probes, lo, hi, n)
      invariant KeepsTarget(segs, target, lo, hi)
      invariant loByte <= target
      invariant hiByte == fileSize || (target < hiByte && target < fileSize)
    {
      NarrowedMeans(probes, lo, hi, n);
      if target < StartOf(segs, n) {
        TargetIsLeft(segs, target, lo, hi);
      }
      if lo >= hi || loByte >= hiByte {
        break;
      }
      if target < loByte || target >= hiByte {
        break;
      }
      var guessIdx := Clamp(lo + guess(lo, hi, loByte, hiByte), lo, hi - 1);
      NarrowUp(probes, lo, hi, n, guessIdx);
      NarrowDown(probes, lo, hi, n, guessIdx);
      NarrowedMeans(probes + [guessIdx], lo, guessIdx, n);
      probes := probes + [guessIdx];
      if headers[guessIdx].None? {
        return Ok(Estimate(n, fileSize, target)), probes;
      }
      HeaderMeans(segs, headers, guessIdx);
      var header := headers[guessIdx].value;
      var segStart := Sat(header.partBegin, 1);
      var segEnd := header.partEnd;
      if segEnd <= target {
        TooLow(segs, target, lo, hi, guessIdx);
        lo, loByte := guessIdx + 1, segEnd;
      } else if segStart > target {
        TooHigh(segs, target, lo, hi, guessIdx);
        hi, hiByte := guessIdx, segStart;
      } else {
        return Ok(Found(guessIdx, segStart, true)), probes;
      }
      iteration := iteration + 1;
    }
    NarrowedMeans(probes, lo, hi, n);
    if target < StartOf(segs, n) {
      TargetIsLeft(segs, target, lo, hi);
    }
    r := Ok(Estimate(n, fileSize, target));
  }

  // ---- Alignment ------------------------------------------------------------------

  /** How many bytes each read of the segments gives, if it does not fail. */
  type Chunks = nat -> Option<nat>

  /** A byte of a file whose few segments all have readable headers. */
  ghost predicate Findable(segs: Segments, headers: seq<Option<Header>>, fileSize: nat, target: nat) {
    && 0 < target < Min(fileSize, StartOf(segs, |segs|))
    && |segs| <= MAX_PROBES
    && (forall i :: 0 <= i < |headers| ==> headers[i].Some?)
  }

  /** Position a stream at the target: the segments from `index` on, `at` bytes into them. */
  method Align(segs: Segments, headers: seq<Option<Header>>, fileSize: nat, target: nat, guess: Guess, chunks: Chunks)
    returns (r: Result<(nat, nat), AlignError>, found: Option<Found>, polls: nat)
    requires Truthful(segs, headers)
    ensures target == 0 ==> r == Ok((0, 0))
    ensures target > 0 ==> (r == Err(Search(NoSegments)) <==> segs == [])
    ensures r.Ok? && target > 0 ==>
      && found.Some? && r.value.0 == found.value.index < |segs|
      && r.value.1 == Sat(target, found.value.startByte) <= |Concat(segs[r.value.0..])|
      && (found.value.exact ==> Concat(segs[r.value.0..])[r.value.1..] == RestOf(segs, target))
    ensures r == Err(UnexpectedEof) ==>
      && found.Some? && found.value.index < |segs| && !found.value.exact
      && Sat(target, found.value.startByte) > |Concat(segs[found.value.index..])|
    ensures r == Err(ReadFailed) ==> polls > 0 && chunks(polls - 1).None?
    ensures Findable(segs, headers, fileSize, target) && (forall k :: chunks(k).Some?) ==>
      r.Ok? && r.value.0 < |segs| && r.value.1 <= |Concat(segs[r.value.0..])|
      && Concat(segs[r.value.0..])[r.value.1..] == RestOf(segs, target)
  {
    found, polls := None, 0;
    if target == 0 {
      return Ok((0, 0)), None, 0;
    }
    var search, probes := FindSegment(segs, headers, fileSize, target, guess);
    if search.Err? {
      assert search.error == NoSegments;
      return Err(Search(search.error)), None, 0;
    }
    var hit := search.value;
    found := Some(hit);
    if hit.exact {
      FromTarget(segs, hit.index, target);
      assert Sat(target, hit.startByte) == target - StartOf(segs, hit.index);
    }
    assert Findable(segs, headers, fileSize, target) ==> hit.exact;
    hide *;
    var skipped;
    skipped, polls := Skip(|Concat(segs[hit.index..])|, Sat(target, hit.startByte), chunks);
    if skipped.Err? {
      return Err(skipped.error), found, polls;
    }
    r := Ok((hit.index, skipped.value));
  }

  /** Read past the first `toSkip` bytes of `size`. */
  method Skip(size: nat, toSkip: nat, chunks: Chunks) returns (r: Result<nat, AlignError>, polls: nat)
    ensures r.Ok? ==> r.value == toSkip <= size
    ensures r.Err? ==> r.error == ReadFailed || r.error == UnexpectedEof
    ensures r == Err(ReadFailed) ==> polls > 0 && chunks(polls - 1).None?
    ensures r == Err(UnexpectedEof) ==> toSkip > size
  {
    var left, at := toSkip, 0;
    polls := 0;
    while left > 0
      invariant at <= size && at + left == toSkip
    {
      var want := Min(SCRATCH, left);
      var answer := chunks(polls);
      polls := polls + 1;
      if answer.None? {
        return Err(ReadFailed), polls;
      }
      var got := Min(Max(answer.value, 1), Min(want, size - at));
      if got == 0 {
        return Err(UnexpectedEof), polls;
      }
      at, left := at + got, left - got;
    }
    r := Ok(at);
  }

  /** The file from the target on. */
  function RestOf(segs: Segments, target: nat): seq<Byte> {
    if target <= |Concat(segs)| then Concat(segs)[target..] else []
  }

  lemma FromTarget(segs: Segments, i: nat, target: nat)
    requires i < |segs| && Holds(segs, i, target)
    ensures target - StartOf(segs, i) <= |Concat(segs[i..])|
    ensures Concat(segs[i..])[target - StartOf(segs, i)..] == RestOf(segs, target)
  {
    FileFrom(segs, i);
    FileSize(segs);
    StartsAscend(segs, i + 1, |segs|);
    var file, start := Concat(segs), StartOf(segs, i);
    hide Concat, StartOf;
    assert file[start..][target - start..] == file[target..];
  }
}
