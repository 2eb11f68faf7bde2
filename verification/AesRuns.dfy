/** What the decrypting stream yields: the plaintext, cut at its declared size, from wherever
    the reader last sought to on a block boundary. */
module AesRuns {
  import opened Wrappers
  import opened Cbc
  import opened AesModel

  /** The cipher, the original vector and the encrypted bytes, in whole blocks. */
  datatype Source = Source(d: BlockCipher, iv: Block, bytes: seq<Byte>)

  function Plain(src: Source): (p: seq<Byte>)
    requires |src.bytes| % BLOCK == 0
    ensures |p| == |src.bytes|
  {
    Decrypt(src.d, src.iv, src.bytes)
  }

  /** The stream stands where its buffer ends, ready to decrypt what follows. */
  ghost predicate Positioned(s: Stream, src: Source)
    requires |src.bytes| % BLOCK == 0
  {
    && s.inner.bytes == src.bytes
    && s.bufferOffset <= |s.buffer|
    && s.inner.at % BLOCK == 0 && s.inner.at <= |src.bytes|
    && s.iv == Last(src.iv, src.bytes[..s.inner.at])
    && s.position + (|s.buffer| - s.bufferOffset) == s.inner.at
    && s.buffer[s.bufferOffset..] == Plain(src)[s.position..s.inner.at]
  }

  /** The poll asks the encrypted stream. */
  predicate Asks(s: Stream) {
    s.position < s.decodedSize && s.bufferOffset >= |s.buffer|
  }

  /** The encrypted stream gives whole blocks. */
  predicate GivesBlocks(s: Stream, answer: Answer) {
    var out := InnerRead(s.inner, READ_BLOCKS * BLOCK, answer).1;
    out.Ready? ==> |out.bytes| % BLOCK == 0
  }

  // ---- Reads ----------------------------------------------------------------------

  /** What a poll delivers: the next bytes of the plaintext, none past the declared size, and
      none at all only at the end or for want of room. */
  ghost predicate PollGood(s: Stream, src: Source, room: nat, s': Stream, out: Poll)
    requires |src.bytes| % BLOCK == 0
  {
    && s'.decodedSize == s.decodedSize && s'.seek == s.seek
    && Positioned(s', src)
    && (out.Ready? ==>
          && |out.bytes| <= room && s'.position == s.position + |out.bytes| <= s.decodedSize
          && s'.position <= |Plain(src)| && out.bytes == Plain(src)[s.position..s'.position]
          && (out.bytes == [] ==> room == 0 || s.position == |src.bytes|))
    && (!out.Ready? ==> s' == s)
  }

  lemma SlicesJoin(p: seq<Byte>, a: nat, b: nat, c: nat)
    requires a <= b <= c <= |p|
    ensures p[a..c][..b - a] == p[a..b] && p[a..c][b - a..] == p[b..c] && p[a..b] + p[b..c] == p[a..c]
  {
  }

  lemma BufferedPollGood(s: Stream, src: Source, room: nat, answer: Answer)
    requires |src.bytes| % BLOCK == 0 && Positioned(s, src) && Shaped(s)
    requires s.position < s.decodedSize && s.bufferOffset < |s.buffer|
    ensures PollGood(s, src, room, Polled(s, src.d, room, answer).0, Polled(s, src.d, room, answer).1)
  {
    hide Plain, Last, Decrypt, Decrypted, InnerRead;
    var k := Min(Min(|s.buffer| - s.bufferOffset, room), s.decodedSize - s.position);
    ServedFromBuffer(Plain(src), s.buffer, s.bufferOffset, s.position, s.inner.at, k);
  }

  /** What is served of a buffered piece of the plaintext, and what stays buffered. */
  lemma ServedFromBuffer(p: seq<Byte>, buffer: seq<Byte>, offset: nat, from: nat, at: nat, k: nat)
    requires offset + k <= |buffer| && from <= at <= |p| && buffer[offset..] == p[from..at]
    ensures from + k <= at
    ensures buffer[offset..offset + k] == p[from..from + k]
    ensures buffer[offset + k..] == p[from + k..at]
  {
    var rest := buffer[offset..];
    SlicesJoin(p, from, from + k, at);
    assert buffer[offset..offset + k] == rest[..k];
    assert buffer[offset + k..] == rest[k..];
  }

  lemma LastOf(iv: Block, c: seq<Byte>, at: nat, n: nat)
    requires at % BLOCK == 0 && n % BLOCK == 0 && 0 < n && at + n <= |c|
    ensures Last(Last(iv, c[..at]), c[at..at + n]) == Last(iv, c[..at + n])
  {
    assert c[at..at + n][n - BLOCK..] == c[..at + n][at + n - BLOCK..];
  }

  lemma ChunkIsPlain(s: Stream, src: Source, n: nat)
    requires |src.bytes| % BLOCK == 0 && Positioned(s, src) && s.bufferOffset == |s.buffer|
    requires 0 < n && n % BLOCK == 0 && s.inner.at + n <= |src.bytes|
    ensures
      var at := s.inner.at;
      && (at + n) % BLOCK == 0 && s.position == at
      && Decrypt(src.d, s.iv, src.bytes[at..at + n]) == Plain(src)[at..at + n]
      && Last(s.iv, src.bytes[at..at + n]) == Last(src.iv, src.bytes[..at + n])
  {
    hide Last, Decrypt;
    var at := s.inner.at;
    PlainPiece(src.d, src.iv, src.bytes, at, n);
    LastOf(src.iv, src.bytes, at, n);
  }

  lemma DecryptedGood(s: Stream, src: Source, room: nat, n: nat)
    requires |src.bytes| % BLOCK == 0 && Positioned(s, src) && Shaped(s)
    requires s.position < s.decodedSize && s.bufferOffset == |s.buffer|
    requires 0 < n && n % BLOCK == 0 && s.inner.at + n <= |src.bytes|
    ensures
      var s1 := s.(inner := s.inner.(at := s.inner.at + n));
      var (s', out) := Decrypted(s1, src.d, src.bytes[s.inner.at..s.inner.at + n], room);
      PollGood(s, src, room, s', out)
  {
    hide Plain, Last, Decrypt;
    ChunkIsPlain(s, src, n);
    var p, at := Plain(src), s.inner.at;
    var k := Min(Min(n, room), s.decodedSize - s.position);
    ServedAndKept(p, at, k, n);
  }

  /** What is served of a chunk of the plaintext, and what is kept of it. */
  lemma ServedAndKept(p: seq<Byte>, at: nat, k: nat, n: nat)
    requires k <= n && at + n <= |p|
    ensures
      var plain := p[at..at + n];
      var buffer, offset := if k < n then plain else [], if k < n then k else 0;
      && |plain| == n && plain[..k] == p[at..at + k]
      && offset <= |buffer| && |buffer| - offset == n - k && buffer[offset..] == p[at + k..at + n]
  {
  }

  lemma PollDeliversPlain(s: Stream, src: Source, room: nat, answer: Answer)
    requires |src.bytes| % BLOCK == 0 && Positioned(s, src) && Shaped(s)
    requires s.position < s.decodedSize && (Asks(s) ==> GivesBlocks(s, answer))
    ensures PollGood(s, src, room, Polled(s, src.d, room, answer).0, Polled(s, src.d, room, answer).1)
  {
    hide Plain, Last, Decrypt, Decrypted, InnerRead, Positioned, PollGood, Polled;
    PositionedMeans(s, src);
    if s.bufferOffset < |s.buffer| {
      BufferedPollGood(s, src, room, answer);
    } else {
      AskedPollGood(s, src, room, answer);
    }
  }

  lemma PositionedMeans(s: Stream, src: Source)
    requires |src.bytes| % BLOCK == 0 && Positioned(s, src)
    ensures s.bufferOffset <= |s.buffer| && s.inner.bytes == src.bytes && s.inner.at <= |src.bytes|
    ensures s.bufferOffset == |s.buffer| ==> s.position == s.inner.at
  {
  }

  lemma AskedPollGood(s: Stream, src: Source, room: nat, answer: Answer)
    requires |src.bytes| % BLOCK == 0 && Positioned(s, src) && Shaped(s)
    requires s.position < s.decodedSize && s.bufferOffset == |s.buffer| && GivesBlocks(s, answer)
    ensures PollGood(s, src, room, Polled(s, src.d, room, answer).0, Polled(s, src.d, room, answer).1)
  {
    hide Plain, Last, Decrypt, Decrypted, Positioned;
    PositionedMeans(s, src);
    var (inner, out) := InnerRead(s.inner, READ_BLOCKS * BLOCK, answer);
    if out.Ready? && out.bytes != [] {
      assert Usable(out.bytes) == out.bytes;
      DecryptedGood(s, src, room, |out.bytes|);
    } else {
      assert Plain(src)[s.position..s.position] == [];
    }
  }

  /** Whole blocks are what it takes: after a chunk that ends inside a block the stream is
      out of place, the rest of the block being lost. */
  lemma PartOfABlockIsLost(s: Stream, src: Source, room: nat, answer: Answer)
    requires |src.bytes| % BLOCK == 0 && Positioned(s, src) && Shaped(s)
    requires Asks(s) && answer.Gives?
    ensures Positioned(Polled(s, src.d, room, answer).0, src) <==> GivesBlocks(s, answer)
  {
    if GivesBlocks(s, answer) {
      PollDeliversPlain(s, src, room, answer);
    }
    hide Plain, Last, Decrypt;
  }

  // ---- Seeks ----------------------------------------------------------------------

  /** How far a seek in progress has come. */
  ghost predicate SeekOk(s: Stream, src: Source) {
    && s.inner.bytes == src.bytes
    && match s.seek
       case Idle => true
       case NeedPrevBlock(target, block) =>
         target <= s.decodedSize && block == target / BLOCK > 0 && s.inner.goTo == Some((block - 1) * BLOCK)
       case SeekingToPrevBlock(target, block) =>
         target <= s.decodedSize && block == target / BLOCK > 0 && s.inner.goTo == Some((block - 1) * BLOCK)
       case ReadingPrevBlock(target, block, got) =>
         && target <= s.decodedSize && block == target / BLOCK > 0
         && |got| < BLOCK && s.inner.at == (block - 1) * BLOCK + |got|
         && (got != [] ==> s.inner.at <= |src.bytes| && got == src.bytes[(block - 1) * BLOCK..s.inner.at])
       case SeekingToTarget(target) =>
         && target <= s.decodedSize
         && s.inner.goTo == Some(target / BLOCK * BLOCK)
         && (target >= BLOCK ==>
               var start := target / BLOCK * BLOCK;
               start <= |src.bytes| && s.iv == src.bytes[start - BLOCK..start])
  }

  lemma StartKeepsSeekOk(s: Stream, src: Source, to: SeekFrom)
    requires SeekOk(s, src)
    ensures SeekOk(SeekStarted(s, to), src)
  {
  }

  lemma BlockRead(s: Stream, src: Source, answer: Answer)
    requires SeekOk(s, src) && s.seek.ReadingPrevBlock?
    ensures
      var (inner, out) := InnerRead(s.inner, BLOCK - |s.seek.got|, answer);
      out.Ready? && out.bytes != [] ==>
        var total := s.seek.got + out.bytes;
        && |total| <= BLOCK && inner.at == (s.seek.block - 1) * BLOCK + |total| <= |src.bytes|
        && total == src.bytes[(s.seek.block - 1) * BLOCK..inner.at]
  {
    var from := (s.seek.block - 1) * BLOCK;
    var (inner, out) := InnerRead(s.inner, BLOCK - |s.seek.got|, answer);
    if out.Ready? && out.bytes != [] {
      SlicesJoin(src.bytes, from, s.inner.at, inner.at);
      assert s.seek.got == src.bytes[from..s.inner.at];
    }
  }

  /** What reading a piece of the block before comes to. */
  lemma BlockReadKeepsSeekOk(s: Stream, src: Source, answer: Answer)
    requires Shaped(s) && SeekOk(s, src) && s.seek.ReadingPrevBlock?
    ensures SeekOk(SeekTurn(s, answer).0, src)
  {
    hide InnerRead;
    BlockRead(s, src, answer);
    InnerKeepsBytes(s.inner, BLOCK - |s.seek.got|, answer);
    var (inner, out) := InnerRead(s.inner, BLOCK - |s.seek.got|, answer);
    var block := s.seek.block;
    assert s.seek.target >= BLOCK && s.seek.target / BLOCK * BLOCK == block * BLOCK;
    assert (block - 1) * BLOCK + BLOCK == block * BLOCK;
    if out.Ready? {
      var total := s.seek.got + out.bytes;
      assert |total| == BLOCK ==> total[..BLOCK] == total;
    }
  }

  lemma InnerKeepsBytes(i: Inner, cap: nat, answer: Answer)
    ensures InnerRead(i, cap, answer).0.bytes == i.bytes
    ensures InnerRead(i, cap, answer).1 == Ready([]) ==> InnerRead(i, cap, answer).0 == i
    ensures !InnerRead(i, cap, answer).1.Ready? ==> InnerRead(i, cap, answer).0 == i
  {
  }

  lemma TurnKeepsSeekOk(s: Stream, src: Source, answer: Answer)
    requires Shaped(s) && SeekOk(s, src)
    ensures SeekOk(SeekTurn(s, answer).0, src)
  {
    hide InnerRead;
    if s.seek.ReadingPrevBlock? {
      BlockReadKeepsSeekOk(s, src, answer);
    }
  }

  /** A seek that completes lands at its target, cut to the declared size, and continues with
      the plaintext from there exactly when the target is on a block boundary and, at the
      start, the vector is still the original one. */
  lemma SeekIsExactExactlyWhen(s: Stream, src: Source, answer: Answer)
    requires |src.bytes| % BLOCK == 0 && Shaped(s) && SeekOk(s, src)
    requires s.seek.SeekingToTarget? && answer.Gives?
    ensures
      var (s', out) := SeekTurn(s, answer);
      && out == Done(s.seek.target) && s'.position == s.seek.target <= s.decodedSize && s'.seek.Idle?
      && (Positioned(s', src) <==>
            s.seek.target % BLOCK == 0 && (s.seek.target >= BLOCK || s.iv == src.iv))
  {
    hide Plain, Decrypt, InnerRead, Last;
    var target := s.seek.target;
    var start := target / BLOCK * BLOCK;
    StartsABlock(target);
    LastBefore(src, start);
    NoPlain(src, target);
  }

  lemma StartsABlock(target: nat)
    ensures var start := target / BLOCK * BLOCK; start % BLOCK == 0 && start <= target < start + BLOCK
    ensures target < BLOCK <==> target / BLOCK * BLOCK == 0
    ensures target % BLOCK == 0 <==> target == target / BLOCK * BLOCK
  {
  }

  /** The vector at a block's start. */
  lemma LastBefore(src: Source, start: nat)
    requires start % BLOCK == 0 && start <= |src.bytes|
    ensures Last(src.iv, src.bytes[..start])
         == if start == 0 then src.iv else src.bytes[start - BLOCK..start]
  {
    if start > 0 {
      assert src.bytes[..start][start - BLOCK..] == src.bytes[start - BLOCK..start];
    }
  }

  lemma NoPlain(src: Source, at: nat)
    requires |src.bytes| % BLOCK == 0
    ensures at <= |src.bytes| ==> Plain(src)[at..at] == []
  {
    hide Decrypt;
  }

  // ---- Runs -----------------------------------------------------------------------

  datatype Op =
    | Read(room: nat, answer: Answer)
    | StartSeek(to: SeekFrom)
    | Turn(answer: Answer)

  /** A stream with what it delivered since `origin`. It is `sound` from the start on and
      after each exact seek, until a part of a block is read or a seek fails. */
  datatype Reader = Reader(s: Stream, origin: nat, delivered: seq<Byte>, sound: bool)

  /** The caller reads only when no seek is in progress. */
  predicate Enabled(r: Reader, op: Op) {
    op.Read? ==> r.s.seek.Idle?
  }

  predicate Exact(s: Stream, src: Source, target: nat) {
    target == s.decodedSize || (target % BLOCK == 0 && (target >= BLOCK || s.iv == src.iv))
  }

  ghost function Act(r: Reader, src: Source, op: Op): Reader
    requires Shaped(r.s)
  {
    match op
    case Read(room, answer) =>
      var (s', out) := Polled(r.s, src.d, room, answer);
      r.(s := s', delivered := r.delivered + if out.Ready? then out.bytes else [],
         sound := r.sound && (Asks(r.s) ==> GivesBlocks(r.s, answer)))
    case StartSeek(to) => r.(s := SeekStarted(r.s, to))
    case Turn(answer) =>
      var (s', out) := SeekTurn(r.s, answer);
      if out.SeekFailed? then r.(s := s', sound := false)
      else if out.Done? && !r.s.seek.Idle? then Reader(s', s'.position, [], Exact(r.s, src, s'.position))
      else r.(s := s')
  }

  /** What was delivered is the plaintext from the origin to the position, within the
      declared size. */
  ghost predicate Faithful(r: Reader, src: Source)
    requires |src.bytes| % BLOCK == 0
  {
    && r.origin <= r.s.position <= r.s.decodedSize
    && (r.s.position < r.s.decodedSize ==> Positioned(r.s, src))
    && |r.delivered| == r.s.position - r.origin
    && (r.delivered != [] ==> r.s.position <= |src.bytes| && r.delivered == Plain(src)[r.origin..r.s.position])
  }

  ghost predicate Good(r: Reader, src: Source)
    requires |src.bytes| % BLOCK == 0
  {
    && Shaped(r.s) && SeekOk(r.s, src)
    && (r.s.seek.Idle? && r.sound ==> Faithful(r, src))
  }

  lemma PollKeepsShape(s: Stream, src: Source, room: nat, answer: Answer)
    requires Shaped(s) && SeekOk(s, src) && s.seek.Idle?
    ensures Shaped(Polled(s, src.d, room, answer).0) && SeekOk(Polled(s, src.d, room, answer).0, src)
    ensures Polled(s, src.d, room, answer).0.seek.Idle?
  {
    hide Decrypt, Last;
  }

  lemma ReadKeepsGood(r: Reader, src: Source, room: nat, answer: Answer)
    requires |src.bytes| % BLOCK == 0 && Good(r, src) && r.s.seek.Idle?
    ensures Good(Act(r, src, Read(room, answer)), src)
  {
    PollKeepsShape(r.s, src, room, answer);
    var r' := Act(r, src, Read(room, answer));
    if r'.sound && r.s.position < r.s.decodedSize {
      PollDeliversPlain(r.s, src, room, answer);
      var p, out := Plain(src), Polled(r.s, src.d, room, answer).1;
      hide Polled, Positioned, Plain, GivesBlocks, SeekOk, Shaped;
      if out.Ready? {
        SlicesJoin(p, r.origin, r.s.position, r'.s.position);
        assert r.delivered == [] ==> r.origin == r.s.position && r.delivered == p[r.origin..r.s.position];
      }
    }
  }

  lemma TurnKeepsGood(r: Reader, src: Source, answer: Answer)
    requires |src.bytes| % BLOCK == 0 && Good(r, src)
    ensures Good(Act(r, src, Turn(answer)), src)
  {
    hide SeekOk, Plain, Decrypt, Last, InnerRead;
    TurnKeepsSeekOk(r.s, src, answer);
    TurnsEnd(r.s, answer);
    if r.s.seek.SeekingToTarget? && answer.Gives? {
      SeekIsExactExactlyWhen(r.s, src, answer);
    }
  }

  lemma ActKeepsShape(r: Reader, src: Source, op: Op)
    requires Shaped(r.s)
    ensures Shaped(Act(r, src, op).s)
  {
    hide Decrypt, Last, InnerRead;
    if op.Turn? {
      TurnsEnd(r.s, op.answer);
    }
  }

  lemma ActKeepsGood(r: Reader, src: Source, op: Op)
    requires |src.bytes| % BLOCK == 0 && Good(r, src) && Enabled(r, op)
    ensures Good(Act(r, src, op), src)
  {
    hide Plain, SeekOk, Polled, SeekTurn, Faithful;
    match op {
      case Read(room, answer) => ReadKeepsGood(r, src, room, answer);
      case Turn(answer) => TurnKeepsGood(r, src, answer);
      case StartSeek(to) => StartKeepsSeekOk(r.s, src, to);
    }
  }

  ghost predicate Run(r: Reader, src: Source, ops: seq<Op>, end: Reader)
    decreases |ops|
  {
    if ops == [] then r == end
    else Shaped(r.s) && Enabled(r, ops[0]) && Run(Act(r, src, ops[0]), src, ops[1..], end)
  }

  /** However it is read and sought, the stream gives the plaintext, cut at the declared size,
      from the start or the last exact seek on. */
  lemma {:induction false} RunsDeliverPlain(r: Reader, src: Source, ops: seq<Op>, end: Reader)
    requires |src.bytes| % BLOCK == 0 && Good(r, src) && Run(r, src, ops, end)
    ensures Good(end, src)
    decreases |ops|
  {
    if ops != [] {
      ActKeepsGood(r, src, ops[0]);
      hide Good, Act;
      RunsDeliverPlain(Act(r, src, ops[0]), src, ops[1..], end);
    }
  }

  lemma NewStreamStarts(d: BlockCipher, bytes: seq<Byte>, iv: seq<Byte>, decodedSize: nat)
    requires |bytes| % BLOCK == 0
    ensures Good(Reader(NewStream(bytes, iv, decodedSize), 0, [], true), Source(d, PadBlock(iv), bytes))
  {
    assert bytes[..0] == [];
  }

  /** Of bytes that were encrypted, a sound run gives back what was encrypted. */
  lemma RunsGiveBackWhatWasEncrypted(
      d: BlockCipher, e: BlockCipher, iv: Block, p: seq<Byte>, decodedSize: nat, ops: seq<Op>, end: Reader)
    requires Inverse(d, e) && |p| % BLOCK == 0 && decodedSize <= |p|
    requires
      var s := NewStream(Encrypt(e, iv, p), iv, decodedSize);
      Run(Reader(s, 0, [], true), Source(d, iv, Encrypt(e, iv, p)), ops, end)
    requires end.sound && end.s.seek.Idle?
    ensures end.origin <= end.s.position <= |p| && end.delivered == p[end.origin..end.s.position]
  {
    var c := Encrypt(e, iv, p);
    assert PadBlock(iv) == iv;
    NewStreamStarts(d, c, iv, decodedSize);
    RunsDeliverPlain(Reader(NewStream(c, iv, decodedSize), 0, [], true), Source(d, iv, c), ops, end);
    DecryptUndoesEncrypt(d, e, iv, p);
    SizeStays(Reader(NewStream(c, iv, decodedSize), 0, [], true), Source(d, iv, c), ops, end);
    hide Run, Decrypt, Encrypt, SeekOk;
  }

  lemma {:induction false} SizeStays(r: Reader, src: Source, ops: seq<Op>, end: Reader)
    requires Run(r, src, ops, end)
    ensures end.s.decodedSize == r.s.decodedSize
    decreases |ops|
  {
    if ops != [] {
      assert Act(r, src, ops[0]).s.decodedSize == r.s.decodedSize by {
        hide Decrypt, Last;
      }
      SizeStays(Act(r, src, ops[0]), src, ops[1..], end);
    }
  }

  // ---- Seeks that go wrong --------------------------------------------------------

  /** What the first read after a seek delivers, from any place and to any target: the blocks
      from the one the target lies in, decrypted with the vector the stream then has. To a
      target in the first block that is the vector it had when the seek began; to any other
      it is the right one, and the bytes are the plaintext from the block's start on. */
  lemma DeliveredAfterSeek(s: Stream, src: Source, n: nat, room: nat)
    requires |src.bytes| % BLOCK == 0 && Shaped(s) && SeekOk(s, src)
    requires s.seek.SeekingToTarget? && s.seek.target < s.decodedSize
    requires 0 < n <= READ_BLOCKS * BLOCK && n % BLOCK == 0
    requires s.seek.target / BLOCK * BLOCK + n <= |src.bytes|
    ensures
      var start := s.seek.target / BLOCK * BLOCK;
      var landed := SeekTurn(s, Gives(0)).0;
      var out := Polled(landed, src.d, room, Gives(n)).1;
      && Shaped(landed) && landed.position == s.seek.target
      && out.Ready? && |out.bytes| == Min(Min(n, room), s.decodedSize - s.seek.target)
      && out.bytes == Decrypt(src.d, s.iv, src.bytes[start..start + n])[..|out.bytes|]
      && (s.seek.target >= BLOCK ==> out.bytes == Plain(src)[start..start + |out.bytes|])
  {
    hide Decrypt, Last, Plain, InnerRead, Polled, SeekTurn;
    var start := s.seek.target / BLOCK * BLOCK;
    StartsABlock(s.seek.target);
    var landed := SeekTurn(s, Gives(0)).0;
    Landing(s, src);
    FirstPoll(landed, src.d, n, room);
    if s.seek.target >= BLOCK {
      LastBefore(src, start);
      PlainPiece(src.d, src.iv, src.bytes, start, n);
      var k := |Polled(landed, src.d, room, Gives(n)).1.bytes|;
      PlainPrefix(Plain(src), start, n, k);
      PlainIs(src);
    }
  }

  lemma PlainIs(src: Source)
    requires |src.bytes| % BLOCK == 0
    ensures Plain(src) == Decrypt(src.d, src.iv, src.bytes)
  {
    hide Decrypt;
  }

  lemma PlainPrefix(p: seq<Byte>, start: nat, n: nat, k: nat)
    requires k <= n && start + n <= |p|
    ensures p[start..start + n][..k] == p[start..start + k]
  {
  }

  /** Where a seek lands. */
  lemma Landing(s: Stream, src: Source)
    requires Shaped(s) && SeekOk(s, src) && s.seek.SeekingToTarget?
    ensures
      var landed := SeekTurn(s, Gives(0)).0;
      && Shaped(landed) && landed.position == s.seek.target && landed.buffer == [] && landed.bufferOffset == 0
      && landed.inner == Inner(src.bytes, s.seek.target / BLOCK * BLOCK, None)
      && landed.iv == s.iv && landed.decodedSize == s.decodedSize
    ensures
      var start := s.seek.target / BLOCK * BLOCK;
      s.seek.target >= BLOCK ==> start <= |src.bytes| && s.iv == src.bytes[start - BLOCK..start]
  {
  }

  /** A poll with nothing buffered delivers the blocks it is given. */
  lemma FirstPoll(s: Stream, d: BlockCipher, n: nat, room: nat)
    requires Shaped(s) && s.buffer == [] && s.position < s.decodedSize
    requires 0 < n <= READ_BLOCKS * BLOCK && n % BLOCK == 0 && s.inner.at + n <= |s.inner.bytes|
    ensures
      var out := Polled(s, d, room, Gives(n)).1;
      var plain := Decrypt(d, s.iv, s.inner.bytes[s.inner.at..s.inner.at + n]);
      && |plain| == n
      && out.Ready? && |out.bytes| == Min(Min(n, room), s.decodedSize - s.position)
      && out.bytes == plain[..|out.bytes|]
  {
    hide Decrypt, Last;
    var chunk := s.inner.bytes[s.inner.at..s.inner.at + n];
    assert Usable(chunk) == chunk && chunk != [];
  }

  ghost function RunOf(r: Reader, src: Source, ops: seq<Op>): Reader
    requires Shaped(r.s)
    decreases |ops|
  {
    if ops == [] then r
    else
      ActKeepsShape(r, src, ops[0]);
      RunOf(Act(r, src, ops[0]), src, ops[1..])
  }

  lemma RunOfThree(r: Reader, src: Source, a: Op, b: Op, c: Op)
    requires Shaped(r.s)
    ensures Shaped(Act(r, src, a).s) && Shaped(Act(Act(r, src, a), src, b).s)
    ensures RunOf(r, src, [a, b, c]) == Act(Act(Act(r, src, a), src, b), src, c)
  {
    hide Act;
    var ra := Act(r, src, a);
    ActKeepsShape(r, src, a);
    var rb := Act(ra, src, b);
    ActKeepsShape(ra, src, b);
    var rc := Act(rb, src, c);
    ActKeepsShape(rb, src, c);
    assert [a, b, c][1..] == [b, c] && [b, c][1..] == [c] && [c][1..] == [];
    assert RunOf(rb, src, [c]) == RunOf(rc, src, []) == rc;
    assert RunOf(ra, src, [b, c]) == RunOf(rb, src, [c]);
  }

  /** A new stream that seeks into its first block delivers that block from its start: every
      byte comes `target` places too late. */
  lemma SeekInsideTheFirstBlock(src: Source, target: nat, room: nat)
    requires |src.bytes| % BLOCK == 0 && BLOCK <= |src.bytes| && 0 < target < BLOCK && room + target <= BLOCK
    ensures
      var start := Reader(NewStream(src.bytes, src.iv, |src.bytes|), 0, [], true);
      var ops := [StartSeek(Start(target)), Turn(Gives(0)), Read(room, Gives(BLOCK))];
      var end := RunOf(start, src, ops);
      && end.origin == target && end.s.position == target + room
      && end.delivered == Plain(src)[..room] && !end.sound
  {
    hide Decrypt, Polled;
    var r0 := Reader(NewStream(src.bytes, src.iv, |src.bytes|), 0, [], true);
    assert PadBlock(src.iv) == src.iv;
    RunOfThree(r0, src, StartSeek(Start(target)), Turn(Gives(0)), Read(room, Gives(BLOCK)));
    var r1 := Act(r0, src, StartSeek(Start(target)));
    assert target / BLOCK == 0;
    assert SeekOk(r1.s, src) && r1.s.seek == SeekingToTarget(target);
    DeliveredAfterSeek(r1.s, src, BLOCK, room);
    assert src.bytes[..0] == [];
    PlainPiece(src.d, src.iv, src.bytes, 0, BLOCK);
    assert Plain(src)[0..BLOCK][..room] == Plain(src)[..room];
    var r2 := Act(r1, src, Turn(Gives(0)));
    assert r2.delivered == [];
    PositionAdvances(r2.s, src.d, room, Gives(BLOCK));
  }

  lemma PositionAdvances(s: Stream, d: BlockCipher, room: nat, answer: Answer)
    requires Shaped(s)
    ensures
      var (s', out) := Polled(s, d, room, answer);
      out.Ready? ==> s'.position == s.position + |out.bytes|
  {
    hide Decrypt, Last;
  }

  lemma XorTellsApart(x: Block, a: Block, b: Block)
    ensures Xor(x, a) == Xor(x, b) <==> a == b
  {
    if Xor(x, a) == Xor(x, b) {
      forall i | 0 <= i < 16 ensures a[i] == b[i] {
        assert Xor(x, a)[i] == Xor(x, b)[i];
        XorByteTellsApart(x[i], a[i], b[i]);
      }
    }
  }

  lemma XorByteTellsApart(x: Byte, a: Byte, b: Byte)
    ensures x ^ a == x ^ b ==> a == b
  {
  }

  /** A stream that has read ahead and is taken back to its start decrypts its first block
      with the last block read: the block comes out right only if that block happens to be
      the original vector. */
  lemma SeekBackToTheStart(src: Source, n: nat)
    requires |src.bytes| % BLOCK == 0 && 0 < n <= READ_BLOCKS * BLOCK && n % BLOCK == 0 && n <= |src.bytes|
    ensures
      var start := Reader(NewStream(src.bytes, src.iv, |src.bytes|), 0, [], true);
      var read := Act(start, src, Read(n, Gives(n)));
      var end := RunOf(read, src, [StartSeek(Start(0)), Turn(Gives(0)), Read(BLOCK, Gives(BLOCK))]);
      && read.delivered == Plain(src)[..n]
      && end.origin == 0 && |end.delivered| == BLOCK
      && (end.delivered == Plain(src)[..BLOCK] <==> src.bytes[n - BLOCK..n] == src.iv)
  {
    hide Polled, Decrypt, Plain, SeekOk, Last, SeekTurn, Act, InnerRead;
    var r0 := Reader(NewStream(src.bytes, src.iv, |src.bytes|), 0, [], true);
    ReadAhead(src, n);
    var r1 := Act(r0, src, Read(n, Gives(n)));
    RunOfThree(r1, src, StartSeek(Start(0)), Turn(Gives(0)), Read(BLOCK, Gives(BLOCK)));
    BackToTheStart(r1, src);
    FirstBlock(src, r1.s.iv);
  }

  lemma BackToTheStart(r: Reader, src: Source)
    requires Shaped(r.s) && r.s.seek.Idle? && r.s.inner.bytes == src.bytes && r.s.decodedSize == |src.bytes|
    requires |src.bytes| % BLOCK == 0 && BLOCK <= |src.bytes|
    ensures
      var r1 := Act(r, src, StartSeek(Start(0)));
      var r2 := Act(r1, src, Turn(Gives(0)));
      var r3 := Act(r2, src, Read(BLOCK, Gives(BLOCK)));
      && r3.origin == 0 && |r3.delivered| == BLOCK
      && r3.delivered == Decrypt(src.d, r.s.iv, src.bytes[..BLOCK])
  {
    hide Polled, Decrypt, Plain, Last, InnerRead;
    var r1 := Act(r, src, StartSeek(Start(0)));
    DeliveredAfterSeek(r1.s, src, BLOCK, BLOCK);
    assert src.bytes[0..BLOCK] == src.bytes[..BLOCK];
    var out := Polled(SeekTurn(r1.s, Gives(0)).0, src.d, BLOCK, Gives(BLOCK)).1;
    assert Decrypt(src.d, r.s.iv, src.bytes[..BLOCK])[..BLOCK] == Decrypt(src.d, r.s.iv, src.bytes[..BLOCK]);
    assert [] + out.bytes == out.bytes;
  }

  /** The first block, decrypted with any vector, is right only with the original one. */
  lemma FirstBlock(src: Source, iv: Block)
    requires |src.bytes| % BLOCK == 0 && BLOCK <= |src.bytes|
    ensures |Decrypt(src.d, iv, src.bytes[..BLOCK])| == BLOCK
    ensures Decrypt(src.d, iv, src.bytes[..BLOCK]) == Plain(src)[..BLOCK] <==> iv == src.iv
  {
    var first := src.bytes[..BLOCK];
    assert first[..BLOCK] == first && first[BLOCK..] == [];
    assert Decrypt(src.d, iv, first) == Xor(src.d(first), iv) + [];
    assert Plain(src)[..BLOCK] == Xor(src.d(first), src.iv);
    XorTellsApart(src.d(first), iv, src.iv);
  }

  lemma ReadAhead(src: Source, n: nat)
    requires |src.bytes| % BLOCK == 0 && 0 < n <= READ_BLOCKS * BLOCK && n % BLOCK == 0 && n <= |src.bytes|
    ensures
      var r := Act(Reader(NewStream(src.bytes, src.iv, |src.bytes|), 0, [], true), src, Read(n, Gives(n)));
      && Shaped(r.s) && r.s.seek == Idle && r.s.inner == Inner(src.bytes, n, None)
      && r.s.decodedSize == |src.bytes| && r.s.iv == src.bytes[n - BLOCK..n]
      && r.delivered == Plain(src)[..n]
  {
    hide Decrypt;
    var s := NewStream(src.bytes, src.iv, |src.bytes|);
    assert PadBlock(src.iv) == src.iv && src.bytes[..0] == [];
    assert InnerRead(s.inner, READ_BLOCKS * BLOCK, Gives(n)).1 == Ready(src.bytes[0..n]);
    assert Usable(src.bytes[0..n]) == src.bytes[0..n];
    PlainPiece(src.d, src.iv, src.bytes, 0, n);
    assert src.bytes[0..n][n - BLOCK..] == src.bytes[n - BLOCK..n];
    assert Plain(src)[0..n][..n] == Plain(src)[..n];
  }
}
