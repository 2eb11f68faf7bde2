/** What reading a virtual file yields: the parts' slices one after the other, from wherever
    the reader last sought to, however the segments are chunked. */
module MultipartRuns {
  import opened Wrappers
  import opened MultipartModel

  /** Where the part's segments are to be for the position: what has been read of them and
      what is left to skip end at the position's byte. */
  ghost predicate InStep(s: Stream) {
    && s.position <= s.fileSize
    && ((s.skip > 0 || s.remaining > 0) ==>
          && s.part < |s.parts|
          && Contains(s.parts[s.part], s.position)
          && s.remaining == s.parts[s.part].fileEnd - s.position
          && !InnerOf(s).ended
          && InnerOf(s).at + s.skip == Offset(s))
    && (s.inner.Some? ==> s.part < |s.parts|)
  }

  /** The position, as an offset in the content of its part. */
  function Offset(s: Stream): int
    requires s.part < |s.parts|
  {
    s.parts[s.part].segStart + s.position - s.parts[s.part].fileStart
  }

  /** Bytes still to be skipped before the next data, counting the search for the part. */
  ghost function Work(s: Stream): nat
  {
    if s.skip > 0 || s.remaining > 0 || FindPart(s.parts, s.position, 0).None? then s.skip
    else 1 + Setup(s, FindPart(s.parts, s.position, 0).value, s.position).skip
  }

  /** What a poll in step gives. */
  ghost predicate PollGood(s: Stream, room: nat, answer: Answer, s': Stream, out: Poll) {
    && s'.parts == s.parts && s'.fileSize == s.fileSize && s'.pendingSeek == s.pendingSeek
    && (!out.Failed? ==> InStep(s'))
    && (out.Failed? <==> answer.Fails? && Asks(s, room))
    && (!out.Ready? ==> s'.position == s.position)
    && (out.Pending? && !answer.NotReady? ==> Work(s') < Work(s))
    && (out.Ready? ==>
          && |out.bytes| <= room && s'.position == s.position + |out.bytes|
          && s'.position <= |Virtual(s.parts)|
          && out.bytes == Virtual(s.parts)[s.position..s'.position]
          && (out.bytes == [] ==> s.position == s.fileSize || room == 0))
  }

  /** The poll gets to ask the segments: there is file left, and bytes to skip or room. */
  ghost predicate Asks(s: Stream, room: nat) {
    s.position < s.fileSize && (room > 0 || SetUp(s).skip > 0)
  }

  /** The stream with the part of its position set up. */
  ghost function SetUp(s: Stream): Stream {
    if s.skip > 0 || s.remaining > 0 || FindPart(s.parts, s.position, 0).None? then s
    else Setup(s, FindPart(s.parts, s.position, 0).value, s.position)
  }

  /** A piece of a part's content is the same piece of the file. */
  lemma PieceOfFile(parts: seq<Part>, fileSize: nat, k: nat, pos: nat, n: nat)
    requires Tiled(parts, fileSize) && k < |parts| && parts[k].fileStart <= pos && pos + n <= parts[k].fileEnd
    ensures
      var at := parts[k].segStart + pos - parts[k].fileStart;
      && pos + n <= |Virtual(parts)| == fileSize
      && 0 <= at && at + n <= |parts[k].content|
      && parts[k].content[at..at + n] == Virtual(parts)[pos..pos + n]
  {
    hide *;
    var file, p := Virtual(parts), parts[k];
    VirtualIsJoined(parts, fileSize, k);
    JoinedSize(parts, fileSize, |parts|);
    EndsAscend(parts, fileSize, k + 1, |parts|);
    var at := p.segStart + pos - p.fileStart;
    forall j | pos <= j < pos + n ensures file[j] == p.content[at + (j - pos)] {
      JoinedByte(parts, fileSize, |parts|, k, j);
      PartsByteMeans(p, file, j);
    }
    SamePiece(file, pos, p.content, at, n);
  }

  lemma VirtualIsJoined(parts: seq<Part>, fileSize: nat, k: nat)
    requires Tiled(parts, fileSize) && k < |parts|
    ensures Virtual(parts) == Joined(parts, |parts|) && fileSize == EndOf(parts, |parts|)
    ensures EndOf(parts, k + 1) == parts[k].fileEnd
    ensures 0 <= parts[k].segStart <= parts[k].segEnd <= |parts[k].content|
    ensures parts[k].fileEnd - parts[k].fileStart == parts[k].segEnd - parts[k].segStart
  {
    assert Fits(parts, k);
  }

  lemma PartsByteMeans(p: Part, file: seq<Byte>, j: nat)
    requires IsPartsByte(p, file, j)
    ensures
      var at := p.segStart + j - p.fileStart;
      0 <= at < |p.content| && j < |file| && file[j] == p.content[at]
  {
  }

  lemma SamePiece(a: seq<Byte>, i: nat, b: seq<Byte>, j: nat, n: nat)
    requires i + n <= |a| && j + n <= |b|
    requires forall k :: i <= k < i + n ==> a[k] == b[j + (k - i)]
    ensures a[i..i + n] == b[j..j + n]
  {
    var there, here := a[i..i + n], b[j..j + n];
    forall k | 0 <= k < n ensures there[k] == here[k] {
      assert there[k] == a[i + k];
    }
    assert there == here;
  }

  lemma {:induction false} EndsAscend(parts: seq<Part>, fileSize: nat, m: nat, n: nat)
    requires Tiled(parts, fileSize) && m <= n <= |parts|
    ensures EndOf(parts, m) <= EndOf(parts, n)
  {
    if m < n {
      assert Fits(parts, n - 1);
      EndsAscend(parts, fileSize, m, n - 1);
    }
  }

  /** What the part's segments answer, from a state in step. */
  lemma PollInPartSteps(s: Stream, room: nat, answer: Answer)
    requires InStep(s) && s.position < s.fileSize && s.part < |s.parts| && Fits(s.parts, s.part)
    requires s.parts[s.part].fileEnd <= s.fileSize
    requires s.skip > 0 || s.remaining > 0
    ensures
      var (s', out) := PolledInPart(s, room, answer);
      && s'.parts == s.parts && s'.fileSize == s.fileSize && s'.pendingSeek == s.pendingSeek
      && (!out.Failed? ==> InStep(s'))
      && (out.Failed? <==> answer.Fails? && (room > 0 || s.skip > 0))
      && (!out.Ready? ==> s'.position == s.position)
      && (out.Pending? && !answer.NotReady? ==> s'.skip < s.skip && s'.skip + s'.remaining > 0)
      && (out.Ready? ==>
            var k := |out.bytes|;
            && k <= room && k <= s.remaining && s'.position == s.position + k
            && 0 <= Offset(s) && Offset(s) + k <= |s.parts[s.part].content|
            && out.bytes == s.parts[s.part].content[Offset(s)..Offset(s) + k]
            && (k == 0 ==> room == 0))
  {
    hide FindPart;
  }

  lemma PollInPartGood(s: Stream, room: nat, answer: Answer)
    requires InStep(s) && Tiled(s.parts, s.fileSize) && s.position < s.fileSize
    requires s.skip > 0 || s.remaining > 0
    ensures PollGood(s, room, answer, PolledInPart(s, room, answer).0, PolledInPart(s, room, answer).1)
  {
    assert Fits(s.parts, s.part);
    EndsAscend(s.parts, s.fileSize, s.part + 1, |s.parts|);
    PollInPartSteps(s, room, answer);
    var (s', out) := PolledInPart(s, room, answer);
    if out.Ready? {
      PieceOfFile(s.parts, s.fileSize, s.part, s.position, |out.bytes|);
    }
    hide Tiled, Virtual, FindPart, PolledInPart, Setup, EndOf, Fits;
  }

  /** A poll delivers the file's next bytes and nothing else. It delivers none only at the
      end of the file or for want of room; when the segments are ready it either delivers or
      comes closer to doing so. */
  lemma PollDeliversTheFile(s: Stream, room: nat, answer: Answer)
    requires InStep(s) && Tiled(s.parts, s.fileSize)
    ensures Shaped(s)
    ensures PollGood(s, room, answer, Polled(s, room, answer).0, Polled(s, room, answer).1)
  {
    hide *;
    VirtualMeans(s.parts, s.fileSize);
    if s.position < s.fileSize {
      SetUpInStep(s, room, answer);
      PollInPartGood(SetUp(s), room, answer);
      GoodFromSetUp(s, room, answer, Polled(s, room, answer).0, Polled(s, room, answer).1);
    } else {
      EndIsGood(s, room, answer);
    }
  }

  lemma EndIsGood(s: Stream, room: nat, answer: Answer)
    requires InStep(s) && s.position >= s.fileSize && |Virtual(s.parts)| == s.fileSize
    ensures Shaped(s) && PollGood(s, room, answer, Polled(s, room, answer).0, Polled(s, room, answer).1)
  {
    hide PolledInPart, FindPart, Virtual;
  }

  /** Setting up the part of the position puts the stream in step there. */
  lemma SetUpInStep(s: Stream, room: nat, answer: Answer)
    requires InStep(s) && Tiled(s.parts, s.fileSize) && s.position < s.fileSize
    ensures Shaped(s)
    ensures
      var s1 := SetUp(s);
      && InStep(s1) && Tiled(s1.parts, s1.fileSize) && s1.position < s1.fileSize
      && (s1.skip > 0 || s1.remaining > 0)
      && Polled(s, room, answer) == PolledInPart(s1, room, answer)
  {
    hide PolledInPart;
    SomePartHas(s.parts, s.fileSize, s.position, |s.parts|);
    assert Fits(s.parts, SetUp(s).part);
  }

  lemma GoodFromSetUp(s: Stream, room: nat, answer: Answer, s': Stream, out: Poll)
    requires InStep(s) && PollGood(SetUp(s), room, answer, s', out)
    ensures PollGood(s, room, answer, s', out)
  {
    hide FindPart, Virtual, InStep;
  }

  // ---- Runs -----------------------------------------------------------------------

  datatype Op =
    | Read(room: nat, answer: Answer)
    | StartSeek(to: SeekFrom)
    | Complete

  /** A stream with what it delivered since `origin`, where the last seek went; `sound` until
      the segments fail. */
  datatype Reader = Reader(s: Stream, origin: nat, delivered: seq<Byte>, sound: bool)

  ghost function Act(r: Reader, op: Op): (r': Reader)
    requires Shaped(r.s)
    ensures Shaped(r'.s)
  {
    match op
    case Read(room, answer) =>
      var (s', out) := Polled(r.s, room, answer);
      r.(s := s', delivered := r.delivered + if out.Ready? then out.bytes else [], sound := r.sound && !out.Failed?)
    case StartSeek(to) => r.(s := SeekStarted(r.s, to))
    case Complete =>
      var s' := SeekCompleted(r.s);
      if r.s.pendingSeek.None? then r else Reader(s', s'.position, [], true)
  }

  ghost function RunOf(r: Reader, ops: seq<Op>): (r': Reader)
    requires Shaped(r.s)
    ensures Shaped(r'.s)
    decreases |ops|
  {
    if ops == [] then r else RunOf(Act(r, ops[0]), ops[1..])
  }

  /** What was delivered is the file from the origin to the position. */
  ghost predicate Faithful(r: Reader) {
    && InStep(r.s)
    && r.origin <= r.s.position <= |Virtual(r.s.parts)|
    && r.delivered == Virtual(r.s.parts)[r.origin..r.s.position]
  }

  lemma ReadKeepsFaithful(r: Reader, room: nat, answer: Answer)
    requires Shaped(r.s) && Tiled(r.s.parts, r.s.fileSize) && Faithful(r)
    ensures Act(r, Read(room, answer)).s.parts == r.s.parts
    ensures !Polled(r.s, room, answer).1.Failed? ==> Faithful(Act(r, Read(room, answer)))
  {
    PollDeliversTheFile(r.s, room, answer);
    hide Polled, Virtual, Tiled, Shaped, InStep, Work, Asks;
    var file := Virtual(r.s.parts);
    var (s', out) := Polled(r.s, room, answer);
    if out.Ready? {
      assert file[r.origin..r.s.position] + file[r.s.position..s'.position] == file[r.origin..s'.position];
    }
  }

  lemma ActKeepsFaithful(r: Reader, op: Op)
    requires Shaped(r.s) && Tiled(r.s.parts, r.s.fileSize) && (r.sound ==> Faithful(r))
    ensures Act(r, op).s.parts == r.s.parts && Act(r, op).s.fileSize == r.s.fileSize
    ensures Act(r, op).sound ==> Faithful(Act(r, op))
  {
    match op
    case Read(room, answer) =>
      PollKeepsFile(r.s, room, answer);
      if r.sound {
        ReadKeepsFaithful(r, room, answer);
      }
      hide Faithful, Polled, Tiled, Shaped;
    case StartSeek(to) =>
      hide Tiled, Virtual;
    case Complete =>
      JoinedSize(r.s.parts, r.s.fileSize, |r.s.parts|);
      hide Tiled;
  }

  lemma PollKeepsFile(s: Stream, room: nat, answer: Answer)
    requires Shaped(s)
    ensures Polled(s, room, answer).0.parts == s.parts && Polled(s, room, answer).0.fileSize == s.fileSize
    ensures Polled(s, room, answer).0.pendingSeek == s.pendingSeek
  {
  }

  /** Whatever is read and sought, in whatever pieces the segments come: from the last place
      sought to, the reader has been given exactly the file, up to where it stands, unless the
      segments have failed since. */
  lemma {:induction false} RunsDeliverTheFile(r: Reader, ops: seq<Op>)
    requires Shaped(r.s) && Tiled(r.s.parts, r.s.fileSize) && (r.sound ==> Faithful(r))
    ensures RunOf(r, ops).s.parts == r.s.parts
    ensures RunOf(r, ops).sound ==> Faithful(RunOf(r, ops))
    decreases |ops|
  {
    hide Shaped, Tiled, Faithful;
    if ops != [] {
      ActKeepsFaithful(r, ops[0]);
      RunsDeliverTheFile(Act(r, ops[0]), ops[1..]);
    }
  }

  lemma {:induction false} ReadsKeepThePlace(r: Reader, polls: seq<Op>)
    requires Shaped(r.s) && forall i :: 0 <= i < |polls| ==> polls[i].Read?
    ensures RunOf(r, polls).s.pendingSeek == r.s.pendingSeek && RunOf(r, polls).s.fileSize == r.s.fileSize
    ensures RunOf(r, polls).s.parts == r.s.parts
    decreases |polls|
  {
    if polls != [] {
      PollKeepsFile(r.s, polls[0].room, polls[0].answer);
      hide Polled, Shaped;
      ReadsKeepThePlace(Act(r, polls[0]), polls[1..]);
    }
  }

  lemma {:induction false} OriginStays(r: Reader, ops: seq<Op>)
    requires Shaped(r.s) && forall i :: 0 <= i < |ops| ==> !ops[i].Complete?
    ensures RunOf(r, ops).origin == r.origin && RunOf(r, ops).s.parts == r.s.parts
    decreases |ops|
  {
    if ops != [] {
      if ops[0].Read? {
        PollKeepsFile(r.s, ops[0].room, ops[0].answer);
      }
      hide Polled, Shaped;
      OriginStays(Act(r, ops[0]), ops[1..]);
    }
  }

  /** After a seek to a place and its completion, with reads in between or not, what is
      delivered until the next completion is the file from that place, or from the end when it
      is past it. */
  lemma SeeksDeliverFromTheirPlace(r: Reader, to: SeekFrom, pos: nat, polls: seq<Op>, ops: seq<Op>)
    requires Shaped(r.s) && Tiled(r.s.parts, r.s.fileSize) && (r.sound ==> Faithful(r))
    requires AsksFor(r.s, to, pos)
    requires forall i :: 0 <= i < |polls| ==> polls[i].Read?
    requires forall i :: 0 <= i < |ops| ==> !ops[i].Complete?
    ensures
      var end := RunOf(Act(RunOf(Act(r, StartSeek(to)), polls), Complete), ops);
      var file := Virtual(r.s.parts);
      && end.origin == Min(pos, r.s.fileSize) <= |file| == r.s.fileSize
      && (end.sound ==>
            end.origin <= end.s.position <= |file| && end.delivered == file[end.origin..end.s.position])
  {
    hide *;
    StartNotes(r, to, pos);
    ActKeepsFaithful(r, StartSeek(to));
    var started := Act(r, StartSeek(to));
    ReadsKeepThePlace(started, polls);
    RunsDeliverTheFile(started, polls);
    var before := RunOf(started, polls);
    ActKeepsFaithful(before, Complete);
    CompletingGoesThere(before);
    var completed := Act(before, Complete);
    OriginStays(completed, ops);
    RunsDeliverTheFile(completed, ops);
    FaithfulMeans(RunOf(completed, ops));
    VirtualMeans(r.s.parts, r.s.fileSize);
  }

  lemma StartNotes(r: Reader, to: SeekFrom, pos: nat)
    requires Shaped(r.s) && AsksFor(r.s, to, pos)
    ensures Act(r, StartSeek(to)).s.pendingSeek == Some(pos)
  {
    SeekNotesItsPlace(r.s, to, pos);
  }

  lemma CompletingGoesThere(r: Reader)
    requires Shaped(r.s) && r.s.pendingSeek.Some?
    ensures Act(r, Complete).origin == Min(r.s.pendingSeek.value, r.s.fileSize) <= r.s.fileSize
  {
  }

  lemma FaithfulMeans(r: Reader)
    requires r.sound ==> Faithful(r)
    ensures r.sound ==>
      r.origin <= r.s.position <= |Virtual(r.s.parts)| && r.delivered == Virtual(r.s.parts)[r.origin..r.s.position]
  {
  }

  lemma VirtualMeans(parts: seq<Part>, fileSize: nat)
    requires Tiled(parts, fileSize)
    ensures |Virtual(parts)| == fileSize
  {
    JoinedSize(parts, fileSize, |parts|);
  }

  lemma NewStreamStarts(parts: seq<Part>, fileSize: nat)
    requires Tiled(parts, fileSize)
    ensures Shaped(NewStream(parts, fileSize))
    ensures Faithful(Reader(NewStream(parts, fileSize), 0, [], true))
  {
  }

  /** Poll again while nothing comes. */
  ghost function PollUntil(s: Stream, room: nat, answers: seq<Answer>): (Stream, Poll)
    requires Shaped(s)
    decreases |answers|
  {
    if answers == [] then (s, Pending)
    else
      var (s', out) := Polled(s, room, answers[0]);
      if out.Pending? then PollUntil(s', room, answers[1..]) else (s', out)
  }

  /** With room and segments that are always ready, the polls end: bytes come, at most as many
      polls later as there are bytes to skip. */
  lemma {:induction false} PollsEnd(s: Stream, room: nat, answers: seq<Answer>)
    requires InStep(s) && Shaped(s) && Tiled(s.parts, s.fileSize) && s.position < s.fileSize && room > 0
    requires |answers| > Work(s) && forall i :: 0 <= i < |answers| ==> answers[i].Chunk?
    ensures PollUntil(s, room, answers).1.Ready? && PollUntil(s, room, answers).1.bytes != []
    decreases |answers|
  {
    PollDeliversTheFile(s, room, answers[0]);
    var (s', out) := Polled(s, room, answers[0]);
    hide Polled, Tiled, Virtual, Work, InStep, Shaped;
    if out.Pending? {
      PollsEnd(s', room, answers[1..]);
    }
  }

  // ---- After the segments failed --------------------------------------------------

  /** Reading on after the segments failed, without a seek, starts their content over and does
      not skip again what had been read of it. The stream is back in step exactly when
      nothing had been read of the part's content yet. */
  lemma RetryLosesItsPlace(s: Stream, room: nat, room2: nat, answer: Answer)
    requires InStep(s) && s.position < s.fileSize && (s.skip > 0 || s.remaining > 0)
    requires room > 0 && room2 > 0
    ensures Shaped(s)
    ensures Polled(s, room, Fails).1 == Failed
    ensures
      var retried := Polled(Polled(s, room, Fails).0, room2, answer);
      && retried.1 == Pending && retried.0.position == s.position && retried.0.inner == None
      && retried.0.skip == s.skip && retried.0.remaining == s.remaining
      && (InStep(retried.0) <==> InnerOf(s).at == 0)
  {
    hide FindPart;
  }

  /** As in step, but for the segments being `lag` bytes behind the position. */
  ghost predicate Lags(s: Stream, lag: nat) {
    && s.position < s.fileSize && (s.skip > 0 || s.remaining > 0)
    && s.part < |s.parts| && Fits(s.parts, s.part)
    && Contains(s.parts[s.part], s.position)
    && s.remaining == s.parts[s.part].fileEnd - s.position
    && !InnerOf(s).ended
    && InnerOf(s).at + s.skip == Offset(s) - lag
  }

  /** A lagging stream skips what it has to and then delivers the part's content from `lag`
      bytes before the position's. */
  lemma LaggingPoll(s: Stream, room: nat, answer: Answer, lag: nat)
    requires Lags(s, lag) && room > 0 && answer.Chunk?
    ensures Shaped(s)
    ensures
      var (s', out) := Polled(s, room, answer);
      var content, from := s.parts[s.part].content, Offset(s) - lag;
      && !out.Failed?
      && (out.Pending? ==>
            && Lags(s', lag) && s'.skip < s.skip
            && s'.part == s.part && s'.parts == s.parts && s'.position == s.position)
      && (out.Ready? ==>
            && out.bytes != [] && 0 <= from && from + |out.bytes| <= |content|
            && out.bytes == content[from..from + |out.bytes|])
  {
    hide FindPart, PolledInPart;
    LaggingPollInPart(s, room, answer, lag);
  }

  lemma LaggingPollInPart(s: Stream, room: nat, answer: Answer, lag: nat)
    requires Lags(s, lag) && room > 0 && answer.Chunk?
    ensures
      var (s', out) := PolledInPart(s, room, answer);
      var content, from := s.parts[s.part].content, Offset(s) - lag;
      && !out.Failed?
      && (out.Pending? ==>
            && Lags(s', lag) && s'.skip < s.skip
            && s'.part == s.part && s'.parts == s.parts && s'.position == s.position)
      && (out.Ready? ==>
            && out.bytes != [] && 0 <= from && from + |out.bytes| <= |content|
            && out.bytes == content[from..from + |out.bytes|])
  {
    hide FindPart, Setup, EndOf;
  }

  lemma {:induction false} LaggingPollsDeliver(s: Stream, room: nat, answers: seq<Answer>, lag: nat)
    requires Lags(s, lag) && room > 0 && Shaped(s)
    requires |answers| > s.skip && forall i :: 0 <= i < |answers| ==> answers[i].Chunk?
    ensures
      var out := PollUntil(s, room, answers).1;
      var content, from := s.parts[s.part].content, Offset(s) - lag;
      && out.Ready? && out.bytes != [] && 0 <= from && from + |out.bytes| <= |content|
      && out.bytes == content[from..from + |out.bytes|]
    decreases |answers|
  {
    hide Polled, Lags, Shaped;
    LaggingPoll(s, room, answers[0], lag);
    var (s', out) := Polled(s, room, answers[0]);
    if out.Pending? {
      LaggingPollsDeliver(s', room, answers[1..], lag);
    }
  }

  lemma RetryLags(s: Stream, room: nat, answer: Answer)
    requires InStep(s) && Tiled(s.parts, s.fileSize) && s.position < s.fileSize && room > 0
    requires s.skip > 0 || s.remaining > 0
    ensures Shaped(s)
    ensures
      var retried := Polled(Polled(s, room, Fails).0, room, answer).0;
      Lags(retried, InnerOf(s).at) && retried.skip == s.skip && Shaped(retried)
      && retried.part == s.part && retried.parts == s.parts && retried.position == s.position
  {
    hide FindPart;
    assert Fits(s.parts, s.part);
  }

  /** For every part and every place in it: when the segments fail after `a` bytes of the
      part's content were read, a retry next delivers the content from `a` bytes too early. */
  lemma RetryDeliversTooEarly(s: Stream, room: nat, answer: Answer, answers: seq<Answer>)
    requires InStep(s) && Tiled(s.parts, s.fileSize) && s.position < s.fileSize && room > 0
    requires s.skip > 0 || s.remaining > 0
    requires |answers| > s.skip && forall i :: 0 <= i < |answers| ==> answers[i].Chunk?
    ensures Shaped(s)
    ensures
      var retried := Polled(Polled(s, room, Fails).0, room, answer).0;
      var out := PollUntil(retried, room, answers).1;
      var content, from := s.parts[s.part].content, Offset(s) - InnerOf(s).at;
      && out.Ready? && out.bytes != [] && 0 <= from && from + |out.bytes| <= |content|
      && out.bytes == content[from..from + |out.bytes|]
  {
    hide Polled, Lags;
    RetryLags(s, room, answer);
    var retried := Polled(Polled(s, room, Fails).0, room, answer).0;
    LaggingPollsDeliver(retried, room, answers, InnerOf(s).at);
  }

  /** So a retried read can deliver wrong bytes: of a two-byte file whose second byte fails
      once, the reader is given the first byte twice. */
  lemma RetryCanRepeatBytes()
    ensures
      var s := NewStream([Part([1, 2], 0, 2, 0, 2)], 2);
      var r := RunOf(Reader(s, 0, [], true),
        [Read(1, Chunk(1)), Read(1, Fails), Read(1, NotReady), Read(1, Chunk(1))]);
      && Tiled(s.parts, 2) && Virtual(s.parts) == [1, 2]
      && r.delivered == [1, 1] && !r.sound
  {
    var parts := [Part([1, 2], 0, 2, 0, 2)];
    var s := NewStream(parts, 2);
    assert Fits(parts, 0);
    assert Joined(parts, 1) == Joined(parts, 0) + SliceOf(parts[0]);
    var r0 := Reader(s, 0, [], true);
    var ops := [Read(1, Chunk(1)), Read(1, Fails), Read(1, NotReady), Read(1, Chunk(1))];
    var s1 := Polled(s, 1, Chunk(1)).0;
    assert FindPart(parts, 0, 0) == Some(0);
    assert Polled(s, 1, Chunk(1)).1 == Ready([1]);
    var r1 := Act(r0, ops[0]);
    assert r1 == Reader(s1, 0, [1], true);
    var r2 := Act(r1, ops[1]);
    var r3 := Act(r2, ops[2]);
    var r4 := Act(r3, ops[3]);
    assert r4.delivered == [1, 1];
    assert ops[1..][1..] == ops[2..] && ops[2..][1..] == ops[3..] && ops[3..][1..] == [];
    assert RunOf(r0, ops) == RunOf(r1, ops[1..]) == RunOf(r2, ops[2..]) == RunOf(r3, ops[3..]) == RunOf(r4, []);
  }
}
