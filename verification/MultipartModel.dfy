/** A virtual file over parts, each a range of some decoded segment data: one poll or seek of
    its stream, as a value. */
module MultipartModel {
  import opened Wrappers

  const SKIP_CHUNK: nat := 8192
  const READ_CHUNK: nat := 65536

  /** A part: bytes `segStart..segEnd` of its segments' content are bytes
      `fileStart..fileEnd` of the virtual file. */
  datatype Part = Part(content: seq<Byte>, segStart: int, segEnd: int, fileStart: int, fileEnd: int)

  /** The stream of a part's segments: how far it has been read, and whether it has ended,
      by an error or at its end. */
  datatype Inner = Inner(at: nat, ended: bool)

  datatype Stream = Stream(
    parts: seq<Part>,
    fileSize: nat,
    position: nat,
    part: nat,
    inner: Option<Inner>,
    skip: nat,
    remaining: nat,
    pendingSeek: Option<nat>)

  /** What the segments do when polled: nothing yet, at most `n` more bytes, or an error. */
  datatype Answer = NotReady | Chunk(n: nat) | Fails

  datatype Poll = Pending | Ready(bytes: seq<Byte>) | Failed

  function NewStream(parts: seq<Part>, fileSize: nat): Stream {
    Stream(parts, fileSize, 0, 0, None, 0, 0, None)
  }

  /** A part is only worked on when there is one. */
  ghost predicate Shaped(s: Stream) {
    (s.skip > 0 || s.remaining > 0 || s.inner.Some?) ==> s.part < |s.parts|
  }

  predicate Contains(p: Part, pos: nat) {
    p.fileStart <= pos < p.fileEnd
  }

  /** The first part, from `i` on, that contains a position. */
  function FindPart(parts: seq<Part>, pos: nat, i: nat): (r: Option<nat>)
    requires i <= |parts|
    ensures r.Some? ==> i <= r.value < |parts| && Contains(parts[r.value], pos)
    ensures r.None? ==> forall k :: i <= k < |parts| ==> !Contains(parts[k], pos)
    decreases |parts| - i
  {
    if i == |parts| then None
    else if Contains(parts[i], pos) then Some(i)
    else FindPart(parts, pos, i + 1)
  }

  function NotBelowZero(i: int): nat {
    if i < 0 then 0 else i
  }

  function Setup(s: Stream, part: nat, position: int): Stream
    requires part < |s.parts|
  {
    var p := s.parts[part];
    var offset := position - p.fileStart;
    s.(part := part, skip := NotBelowZero(p.segStart + offset),
       remaining := NotBelowZero(p.segEnd - p.segStart - offset), inner := None)
  }

  function InnerOf(s: Stream): Inner {
    if s.inner.Some? then s.inner.value else Inner(0, false)
  }

  /** One poll of a part's segments for up to `cap` bytes, which may come in any pieces. */
  function InnerRead(content: seq<Byte>, i: Inner, cap: nat, answer: Answer): (Inner, Poll)
    requires cap > 0
  {
    if i.ended then (i, Ready([]))
    else match answer
      case NotReady => (i, Pending)
      case Fails => (i.(ended := true), Failed)
      case Chunk(n) =>
        if i.at >= |content| then (i.(ended := true), Ready([]))
        else
          var k := Min(Max(n, 1), Min(cap, |content| - i.at));
          (i.(at := i.at + k), Ready(content[i.at..i.at + k]))
  }

  function Polled(s: Stream, room: nat, answer: Answer): (r: (Stream, Poll))
    requires Shaped(s)
    ensures Shaped(r.0)
  {
    if s.position >= s.fileSize then (s, Ready([]))
    else if s.remaining == 0 && s.skip == 0 then
      match FindPart(s.parts, s.position, 0)
      case None => (s, Ready([]))
      case Some(idx) => PolledInPart(Setup(s, idx, s.position), room, answer)
    else PolledInPart(s, room, answer)
  }

  function PolledInPart(s0: Stream, room: nat, answer: Answer): (r: (Stream, Poll))
    requires s0.part < |s0.parts|
    ensures Shaped(r.0)
  {
    var s := s0.(inner := Some(InnerOf(s0)));
    var content := s.parts[s.part].content;
    if s.skip > 0 then
      var (inner, out) := InnerRead(content, s.inner.value, Min(s.skip, SKIP_CHUNK), answer);
      match out
      case Pending => (s.(inner := Some(inner)), Pending)
      case Failed => (s.(inner := Some(inner)), Failed)
      case Ready(bytes) =>
        if bytes == [] then (s.(inner := None), Pending)
        else (s.(inner := Some(inner), skip := Sat(s.skip, |bytes|)), Pending)
    else if s.remaining == 0 then
      var next := s.part + 1;
      if next >= |s.parts| then (s, Ready([]))
      else (Setup(s, next, s.parts[next].fileStart), Pending)
    else if room == 0 then (s, Ready([]))
    else
      var (inner, out) := InnerRead(content, s.inner.value, Min(Min(s.remaining, room), READ_CHUNK), answer);
      match out
      case Pending => (s.(inner := Some(inner)), Pending)
      case Failed => (s.(inner := Some(inner)), Failed)
      case Ready(bytes) =>
        if bytes == [] then (s.(inner := None), Pending)
        else (s.(inner := Some(inner), position := s.position + |bytes|, remaining := Sat(s.remaining, |bytes|)),
              Ready(bytes))
  }

  // ---- Seeks ----------------------------------------------------------------------

  datatype SeekFrom = Start(offset: nat) | Current(delta: int) | End(delta: int)

  datatype SeekError = NegativePosition

  function SeekTarget(s: Stream, to: SeekFrom): Result<nat, SeekError> {
    var target := match to
      case Start(offset) => offset
      case Current(delta) => s.position + delta
      case End(delta) => s.fileSize + delta;
    if target < 0 then Err(NegativePosition) else Ok(target)
  }

  function SeekStarted(s: Stream, to: SeekFrom): Stream {
    match SeekTarget(s, to)
    case Ok(target) => s.(pendingSeek := Some(target))
    case Err(_) => s
  }

  /** The place a seek asks for: counted from the file's start, from where the stream stands,
      or from the file's end. */
  predicate AsksFor(s: Stream, to: SeekFrom, pos: int) {
    && (to.Start? ==> pos == to.offset)
    && (to.Current? ==> pos - s.position == to.delta)
    && (to.End? ==> pos - s.fileSize == to.delta)
  }

  function SeekCompleted(s: Stream): Stream {
    match s.pendingSeek
    case None => s
    case Some(target) =>
      s.(pendingSeek := None, position := Min(target, s.fileSize), inner := None, part := 0, skip := 0, remaining := 0)
  }

  /** A seek notes the place it asks for, unless that is before the start, and then nothing;
      completing it moves there, at most to the end of the file. */
  lemma SeekNotesItsPlace(s: Stream, to: SeekFrom, pos: int)
    requires AsksFor(s, to, pos)
    ensures pos >= 0 ==> SeekStarted(s, to).pendingSeek == Some(pos)
    ensures pos >= 0 ==> SeekCompleted(SeekStarted(s, to)).position == Min(pos, s.fileSize)
    ensures pos < 0 ==> SeekStarted(s, to) == s
    ensures SeekStarted(s, to).(pendingSeek := s.pendingSeek) == s
  {
  }

  // ---- The file the parts make ----------------------------------------------------

  /** The parts tile the file, each with as many bytes of its segments. */
  ghost predicate Tiled(parts: seq<Part>, fileSize: nat) {
    && (forall k :: 0 <= k < |parts| ==> Fits(parts, k))
    && fileSize == EndOf(parts, |parts|)
  }

  ghost predicate Fits(parts: seq<Part>, k: nat)
    requires k < |parts|
  {
    var p := parts[k];
    && 0 <= p.segStart <= p.segEnd <= |p.content|
    && p.fileEnd - p.fileStart == p.segEnd - p.segStart
    && p.fileStart == EndOf(parts, k)
  }

  /** Where the first `n` parts end. */
  function EndOf(parts: seq<Part>, n: nat): int
    requires n <= |parts|
  {
    if n == 0 then 0 else parts[n - 1].fileEnd
  }

  function SliceOf(p: Part): seq<Byte> {
    if 0 <= p.segStart <= p.segEnd <= |p.content| then p.content[p.segStart..p.segEnd] else []
  }

  /** The first `n` parts' slices, one after the other. */
  function Joined(parts: seq<Part>, n: nat): seq<Byte>
    requires n <= |parts|
  {
    if n == 0 then [] else Joined(parts, n - 1) + SliceOf(parts[n - 1])
  }

  /** The virtual file. */
  function Virtual(parts: seq<Part>): seq<Byte> {
    Joined(parts, |parts|)
  }

  lemma FitsAt(parts: seq<Part>, fileSize: nat, k: nat)
    requires Tiled(parts, fileSize) && k < |parts|
    ensures Fits(parts, k)
  {
  }

  lemma SliceEnds(parts: seq<Part>, k: nat)
    requires k < |parts| && Fits(parts, k)
    ensures EndOf(parts, k) + |SliceOf(parts[k])| == EndOf(parts, k + 1)
  {
  }

  lemma NothingJoined(parts: seq<Part>)
    ensures Joined(parts, 0) == [] && EndOf(parts, 0) == 0
  {
  }

  lemma JoinedStep(parts: seq<Part>, n: nat)
    requires 0 < n <= |parts|
    ensures Joined(parts, n) == Joined(parts, n - 1) + SliceOf(parts[n - 1])
  {
  }

  lemma {:induction false} JoinedSize(parts: seq<Part>, fileSize: nat, n: nat)
    requires Tiled(parts, fileSize) && n <= |parts|
    ensures |Joined(parts, n)| == EndOf(parts, n)
  {
    hide *;
    NothingJoined(parts);
    if n > 0 {
      FitsAt(parts, fileSize, n - 1);
      SliceEnds(parts, n - 1);
      JoinedStep(parts, n);
      JoinedSize(parts, fileSize, n - 1);
    }
  }

  lemma FitsMeans(parts: seq<Part>, fileSize: nat, k: nat)
    requires Tiled(parts, fileSize) && k < |parts|
    ensures Fits(parts, k) && |Joined(parts, k)| == parts[k].fileStart
  {
    assert Fits(parts, k);
    JoinedSize(parts, fileSize, k);
    hide Joined, Tiled;
  }

  /** The file's bytes in a part's range are the part's. */
  lemma {:induction false} JoinedByte(parts: seq<Part>, fileSize: nat, n: nat, k: nat, pos: nat)
    requires Tiled(parts, fileSize) && k < n <= |parts|
    requires parts[k].fileStart <= pos < parts[k].fileEnd
    ensures IsPartsByte(parts[k], Joined(parts, n), pos)
  {
    hide *;
    JoinedStep(parts, n);
    FitsMeans(parts, fileSize, k);
    if k < n - 1 {
      JoinedByte(parts, fileSize, n - 1, k, pos);
      StillPartsByte(parts[k], Joined(parts, n - 1), SliceOf(parts[n - 1]), pos);
    } else {
      SliceAt(parts, k, Joined(parts, k), pos);
    }
  }

  ghost predicate IsPartsByte(p: Part, file: seq<Byte>, pos: nat) {
    var at := p.segStart + pos - p.fileStart;
    0 <= at < |p.content| && pos < |file| && file[pos] == p.content[at]
  }

  lemma StillPartsByte(p: Part, file: seq<Byte>, more: seq<Byte>, pos: nat)
    requires IsPartsByte(p, file, pos)
    ensures IsPartsByte(p, file + more, pos)
  {
  }

  lemma SliceAt(parts: seq<Part>, k: nat, before: seq<Byte>, pos: nat)
    requires k < |parts| && Fits(parts, k)
    requires |before| == parts[k].fileStart <= pos < parts[k].fileEnd
    ensures IsPartsByte(parts[k], before + SliceOf(parts[k]), pos)
  {
  }

  /** Every position of the file is in a part. */
  lemma {:induction false} SomePartHas(parts: seq<Part>, fileSize: nat, pos: nat, n: nat)
    requires Tiled(parts, fileSize) && n <= |parts| && pos < EndOf(parts, n)
    ensures FindPart(parts, pos, 0).Some?
  {
    assert Fits(parts, n - 1);
    if !Contains(parts[n - 1], pos) {
      SomePartHas(parts, fileSize, pos, n - 1);
    }
  }
}
