/** The decrypting stream as a value: one poll of a read, one step of a seek. */
module AesModel {
  import opened Wrappers
  import opened Cbc

  const READ_BLOCKS: nat := 256

  datatype SeekState =
    | Idle
    | NeedPrevBlock(target: nat, block: nat)
    | SeekingToPrevBlock(target: nat, block: nat)
    /** `got` is what has been read of the block before. */
    | ReadingPrevBlock(target: nat, block: nat, got: seq<Byte>)
    | SeekingToTarget(target: nat)

  /** The encrypted stream: its bytes, where it stands, and where it is told to go. */
  datatype Inner = Inner(bytes: seq<Byte>, at: nat, goTo: Option<nat>)

  datatype Stream = Stream(
    inner: Inner,
    iv: Block,
    decodedSize: nat,
    position: nat,
    buffer: seq<Byte>,
    bufferOffset: nat,
    pendingSeek: Option<nat>,
    seek: SeekState)

  /** What the encrypted stream does when polled: nothing yet, at most `n` bytes, or fail. */
  datatype Answer = NotReady | Gives(n: nat) | Fails

  datatype Poll = Pending | Ready(bytes: seq<Byte>) | Failed

  /** A vector of at most sixteen bytes, filled up with zeros. */
  function PadBlock(iv: seq<Byte>): Block {
    seq(16, i requires 0 <= i < 16 => if i < |iv| then iv[i] else 0)
  }

  function NewStream(bytes: seq<Byte>, iv: seq<Byte>, decodedSize: nat): Stream {
    Stream(Inner(bytes, 0, None), PadBlock(iv), decodedSize, 0, [], 0, None, Idle)
  }

  ghost predicate Shaped(s: Stream) {
    && s.bufferOffset <= |s.buffer|
    && (s.seek.ReadingPrevBlock? ==> |s.seek.got| < BLOCK)
  }

  // ---- Reads ----------------------------------------------------------------------

  function InnerRead(i: Inner, cap: nat, answer: Answer): (Inner, Poll) {
    match answer
    case NotReady => (i, Pending)
    case Fails => (i, Failed)
    case Gives(n) =>
      if i.at >= |i.bytes| || cap == 0 then (i, Ready([]))
      else
        var k := Min(Max(n, 1), Min(cap, |i.bytes| - i.at));
        (i.(at := i.at + k), Ready(i.bytes[i.at..i.at + k]))
  }

  /** Whole blocks of what was read; a part of a block is dropped. */
  function Usable(read: seq<Byte>): (r: seq<Byte>)
    ensures |r| % BLOCK == 0 && |r| <= |read| < |r| + BLOCK
  {
    read[..|read| / BLOCK * BLOCK]
  }

  function Polled(s: Stream, d: BlockCipher, room: nat, answer: Answer): (Stream, Poll)
    requires Shaped(s)
  {
    if s.position >= s.decodedSize then (s, Ready([]))
    else if s.bufferOffset < |s.buffer| then
      var k := Min(Min(|s.buffer| - s.bufferOffset, room), s.decodedSize - s.position);
      (s.(bufferOffset := s.bufferOffset + k, position := s.position + k),
       Ready(s.buffer[s.bufferOffset..s.bufferOffset + k]))
    else
      var (inner, out) := InnerRead(s.inner, READ_BLOCKS * BLOCK, answer);
      if !out.Ready? then (s, out)
      else if Usable(out.bytes) == [] then (s.(inner := inner), Ready([]))
      else Decrypted(s.(inner := inner), d, Usable(out.bytes), room)
  }

  /** Serve a chunk of whole blocks, keeping what does not fit. */
  function Decrypted(s: Stream, d: BlockCipher, usable: seq<Byte>, room: nat): (Stream, Poll)
    requires |usable| % BLOCK == 0 && usable != [] && s.position < s.decodedSize
  {
    var plain := Decrypt(d, s.iv, usable);
    var k := Min(Min(|plain|, room), s.decodedSize - s.position);
    (s.(iv := Last(s.iv, usable),
        position := s.position + k,
        buffer := if k < |plain| then plain else [],
        bufferOffset := if k < |plain| then k else 0),
     Ready(plain[..k]))
  }

  // ---- Seeks ----------------------------------------------------------------------

  datatype SeekFrom = Start(offset: nat) | Current(delta: int) | End(delta: int)

  function Target(s: Stream, to: SeekFrom): int {
    match to
    case Start(offset) => offset
    case Current(delta) => s.position + delta
    case End(delta) => s.decodedSize + delta
  }

  /** Begin to seek: to the block before the target's, for its ciphertext, or to the start. */
  function SeekStarted(s: Stream, to: SeekFrom): Stream {
    if Target(s, to) < 0 then s
    else
      var target := Min(Target(s, to), s.decodedSize);
      var block := target / BLOCK;
      var s1 := s.(pendingSeek := Some(Target(s, to)));
      if block == 0 then s1.(seek := SeekingToTarget(target), inner := s.inner.(goTo := Some(0)))
      else s1.(seek := NeedPrevBlock(target, block), inner := s.inner.(goTo := Some((block - 1) * BLOCK)))
  }

  datatype SeekPoll = Again | Waiting | Done(at: nat) | SeekFailed

  function InnerSeek(i: Inner, answer: Answer): (Inner, SeekPoll) {
    match answer
    case NotReady => (i, Waiting)
    case Fails => (i.(goTo := None), SeekFailed)
    case Gives(_) => (Inner(i.bytes, if i.goTo.Some? then i.goTo.value else i.at, None), Done(0))
  }

  /** One turn of the loop that completes a seek; only some turns poll the stream below. */
  function SeekTurn(s: Stream, answer: Answer): (Stream, SeekPoll)
    requires Shaped(s)
  {
    match s.seek
    case Idle => (s.(pendingSeek := None), Done(s.position))
    case NeedPrevBlock(target, block) => (s.(seek := SeekingToPrevBlock(target, block)), Again)
    case SeekingToPrevBlock(target, block) =>
      var (inner, out) := InnerSeek(s.inner, answer);
      var s1 := s.(inner := inner);
      (match out
       case Waiting => (s1, Waiting)
       case SeekFailed => (s1.(seek := Idle), SeekFailed)
       case Again => (s1, Again)
       case Done(_) => (s1.(seek := ReadingPrevBlock(target, block, [])), Again))
    case ReadingPrevBlock(target, block, got) =>
      var (inner, out) := InnerRead(s.inner, BLOCK - |got|, answer);
      var s1 := s.(inner := inner);
      (match out
       case Pending => (s1, Waiting)
       case Failed => (s1.(seek := Idle), SeekFailed)
       case Ready(bytes) =>
         var total := got + bytes;
         if |total| < BLOCK then
           if bytes == [] then (s1.(seek := Idle), SeekFailed)
           else (s1.(seek := ReadingPrevBlock(target, block, total)), Again)
         else
           (s1.(iv := total[..BLOCK], seek := SeekingToTarget(target),
                inner := inner.(goTo := Some(block * BLOCK))), Again))
    case SeekingToTarget(target) =>
      var (inner, out) := InnerSeek(s.inner, answer);
      var s1 := s.(inner := inner);
      match out
      case Waiting => (s1, Waiting)
      case SeekFailed => (s1.(seek := Idle), SeekFailed)
      case Again => (s1, Again)
      case Done(_) =>
        (s1.(seek := Idle, position := target, pendingSeek := None, buffer := [], bufferOffset := 0), Done(target))
  }

  /** Turns the loop still takes at most. */
  function TurnsLeft(s: Stream): (r: nat)
    requires Shaped(s)
  {
    match s.seek
    case Idle => 0
    case SeekingToTarget(_) => 1
    case ReadingPrevBlock(_, _, got) => 2 + (BLOCK - |got|)
    case SeekingToPrevBlock(_, _) => 3 + BLOCK
    case NeedPrevBlock(_, _) => 4 + BLOCK
  }

  lemma TurnsEnd(s: Stream, answer: Answer)
    requires Shaped(s)
    ensures Shaped(SeekTurn(s, answer).0)
    ensures SeekTurn(s, answer).1.Again? ==> TurnsLeft(SeekTurn(s, answer).0) < TurnsLeft(s)
  {
  }

  /** Turn until the seek is done, fails or has to wait. */
  function Completed(s: Stream, answers: nat -> Answer, k: nat): (Stream, SeekPoll)
    requires Shaped(s)
    decreases TurnsLeft(s)
  {
    TurnsEnd(s, answers(k));
    var (s', out) := SeekTurn(s, answers(k));
    if out.Again? then Completed(s', answers, k + 1) else (s', out)
  }

  // ---- Where a seek lands ---------------------------------------------------------

  /** The place a seek asks for: counted from the start, from where the stream stands, or from
      the end of the decoded bytes. */
  predicate AsksFor(s: Stream, to: SeekFrom, pos: int) {
    && (to.Start? ==> pos == to.offset)
    && (to.Current? ==> pos - s.position == to.delta)
    && (to.End? ==> pos - s.decodedSize == to.delta)
  }

  /** A seek under way to a target. */
  predicate Heads(s: Stream, target: nat) {
    match s.seek
    case Idle => false
    case NeedPrevBlock(t, _) => t == target
    case SeekingToPrevBlock(t, _) => t == target
    case ReadingPrevBlock(t, _, _) => t == target
    case SeekingToTarget(t) => t == target
  }

  lemma TurnHeads(s: Stream, answer: Answer, target: nat)
    requires Shaped(s) && Heads(s, target)
    ensures
      var (s', out) := SeekTurn(s, answer);
      && (out.Again? || out.Waiting? ==> Heads(s', target) && s'.position == s.position)
      && (out.Done? ==> s'.position == target == out.at && s'.seek == Idle && s'.buffer == [])
      && (out.SeekFailed? ==> s'.position == s.position && s'.seek == Idle)
      && (answer.Gives? ==> !out.Waiting?)
      && (answer.Gives? && s.seek.ReadingPrevBlock? && s.inner.at >= |s.inner.bytes| ==> out.SeekFailed?)
  {
  }

  /** However often it has to wait, a seek that is done is done at its target, and one that
      fails leaves the position; with a stream below that is ready it does one or the other. */
  lemma {:induction false} HeadsThere(s: Stream, answers: nat -> Answer, k: nat, target: nat)
    requires Shaped(s) && Heads(s, target)
    ensures
      var (s', out) := Completed(s, answers, k);
      && (out.Waiting? ==> Heads(s', target) && s'.position == s.position)
      && (out.Done? ==> s'.position == target == out.at && s'.seek == Idle && s'.buffer == [])
      && (out.SeekFailed? ==> s'.position == s.position && s'.seek == Idle)
      && ((forall i :: answers(i).Gives?) ==> out.Done? || out.SeekFailed?)
    decreases TurnsLeft(s)
  {
    hide SeekTurn, TurnsLeft, Shaped, Heads;
    TurnsEnd(s, answers(k));
    TurnHeads(s, answers(k), target);
    var (s', out) := SeekTurn(s, answers(k));
    if out.Again? {
      HeadsThere(s', answers, k + 1, target);
    }
  }

  /** A seek to a place heads there, at most to the end of the decoded bytes; one to before the
      start changes nothing. */
  lemma SeekHeadsThere(s: Stream, to: SeekFrom, pos: int)
    requires AsksFor(s, to, pos)
    ensures Target(s, to) == pos
    ensures pos < 0 ==> SeekStarted(s, to) == s
    ensures pos >= 0 ==>
      Heads(SeekStarted(s, to), Min(pos, s.decodedSize)) && SeekStarted(s, to).pendingSeek == Some(pos)
  {
  }
}
