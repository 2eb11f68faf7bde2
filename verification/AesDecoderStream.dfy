/** The decrypting stream, updated in place as it is polled. */
module AesDecoderStreams {
  import opened Wrappers
  import opened Cbc
  import opened AesModel
  import opened AesRuns

  datatype SeekError = NegativePosition

  /** The first `i` blocks decrypted. */
  ghost predicate BlocksDone(d: BlockCipher, iv: Block, usable: seq<Byte>, i: nat, currentIv: Block, plain: seq<Byte>)
    requires |usable| % BLOCK == 0
  {
    && i * BLOCK <= |usable|
    && currentIv == Last(iv, usable[..i * BLOCK])
    && plain + Decrypt(d, currentIv, usable[i * BLOCK..]) == Decrypt(d, iv, usable)
  }

  lemma NoBlocks(d: BlockCipher, iv: Block, usable: seq<Byte>)
    requires |usable| % BLOCK == 0
    ensures BlocksDone(d, iv, usable, 0, iv, [])
  {
    hide Decrypt;
    assert usable[0 * BLOCK..] == usable;
    assert [] + Decrypt(d, iv, usable) == Decrypt(d, iv, usable);
  }

  lemma OneBlock(d: BlockCipher, iv: Block, usable: seq<Byte>, i: nat, currentIv: Block, plain: seq<Byte>)
    requires |usable| % BLOCK == 0 && BlocksDone(d, iv, usable, i, currentIv, plain) && (i + 1) * BLOCK <= |usable|
    ensures |usable[i * BLOCK..(i + 1) * BLOCK]| == BLOCK
    ensures
      var ciphertext: Block := usable[i * BLOCK..(i + 1) * BLOCK];
      BlocksDone(d, iv, usable, i + 1, ciphertext, plain + Xor(d(ciphertext), currentIv))
  {
    var ciphertext: Block := usable[i * BLOCK..(i + 1) * BLOCK];
    NextBlock(d, currentIv, usable, i);
    assert usable[..(i + 1) * BLOCK][i * BLOCK..] == ciphertext;
    var one: seq<Byte> := Xor(d(ciphertext), currentIv);
    hide Decrypt;
    Associates(plain, one, Decrypt(d, ciphertext, usable[(i + 1) * BLOCK..]));
  }

  lemma NextBlock(d: BlockCipher, currentIv: Block, usable: seq<Byte>, i: nat)
    requires |usable| % BLOCK == 0 && (i + 1) * BLOCK <= |usable|
    ensures |usable[i * BLOCK..(i + 1) * BLOCK]| == BLOCK
    ensures
      var ciphertext: Block := usable[i * BLOCK..(i + 1) * BLOCK];
      Decrypt(d, currentIv, usable[i * BLOCK..])
      == Xor(d(ciphertext), currentIv) + Decrypt(d, ciphertext, usable[(i + 1) * BLOCK..])
  {
    var rest := usable[i * BLOCK..];
    assert rest[..BLOCK] == usable[i * BLOCK..(i + 1) * BLOCK];
    assert rest[BLOCK..] == usable[(i + 1) * BLOCK..];
  }

  lemma AllBlocks(d: BlockCipher, iv: Block, usable: seq<Byte>, i: nat, currentIv: Block, plain: seq<Byte>)
    requires |usable| % BLOCK == 0 && i == |usable| / BLOCK && BlocksDone(d, iv, usable, i, currentIv, plain)
    ensures currentIv == Last(iv, usable) && plain == Decrypt(d, iv, usable)
  {
    assert usable[i * BLOCK..] == [];
    assert usable[..i * BLOCK] == usable;
    hide Last;
    assert plain + Decrypt(d, currentIv, []) == plain;
  }

  lemma Associates(a: seq<Byte>, b: seq<Byte>, c: seq<Byte>)
    ensures a + (b + c) == (a + b) + c
  {
  }

  class AesDecoderStream {
    const cipher: BlockCipher
    const decodedSize: nat
    var inner: Inner
    var iv: Block
    var position: nat
    var buffer: seq<Byte>
    var bufferOffset: nat
    var pendingSeek: Option<nat>
    var seekState: SeekState

    /** The encrypted bytes with their cipher and vector; where the last completed seek went,
        what was delivered since, and whether that is the plaintext. */
    ghost const src: Source
    ghost var origin: nat
    ghost var delivered: seq<Byte>
    ghost var sound: bool

    ghost function Abs(): Stream
      reads this
    {
      Stream(inner, iv, decodedSize, position, buffer, bufferOffset, pendingSeek, seekState)
    }

    ghost function Track(): Reader
      reads this
    {
      Reader(Abs(), origin, delivered, sound)
    }

    /** Over whole blocks, what was delivered since the last exact seek is the plaintext from
        there, cut at the declared size. */
    ghost predicate Valid()
      reads this
    {
      Shaped(Abs()) && src.d == cipher && (|src.bytes| % BLOCK == 0 ==> Good(Track(), src))
    }

    lemma KeepsValid(op: Op)
      requires Valid() && Enabled(Track(), op)
      ensures Shaped(Act(Track(), src, op).s)
      ensures |src.bytes| % BLOCK == 0 ==> Good(Act(Track(), src, op), src)
    {
      hide Good, Act;
      ActKeepsShape(Track(), src, op);
      if |src.bytes| % BLOCK == 0 {
        ActKeepsGood(Track(), src, op);
      }
    }

    constructor (bytes: seq<Byte>, cipher: BlockCipher, iv: seq<Byte>, decodedSize: nat)
      ensures Valid() && Track() == Reader(NewStream(bytes, iv, decodedSize), 0, [], true)
      ensures src == Source(cipher, PadBlock(iv), bytes)
    {
      this.cipher, this.decodedSize := cipher, decodedSize;
      inner, this.iv := Inner(bytes, 0, None), PadBlock(iv);
      position, buffer, bufferOffset, pendingSeek, seekState := 0, [], 0, None, Idle;
      src := Source(cipher, PadBlock(iv), bytes);
      origin, delivered, sound := 0, [], true;
      new;
      if |bytes| % BLOCK == 0 {
        NewStreamStarts(cipher, bytes, iv, decodedSize);
      }
    }

    /** Decrypt whole blocks one by one, each with the ciphertext before it. */
    method DecryptBlocks(usable: seq<Byte>) returns (plain: seq<Byte>)
      requires |usable| % BLOCK == 0 && usable != []
      modifies `iv
      ensures plain == Decrypt(cipher, old(iv), usable)
      ensures iv == Last(old(iv), usable)
    {
      hide Decrypt, Last, BlocksDone, Xor;
      var currentIv := iv;
      plain := [];
      var i := 0;
      var blocks := |usable| / BLOCK;
      NoBlocks(cipher, iv, usable);
      while i < blocks
        invariant 0 <= i <= blocks && iv == old(iv)
        invariant BlocksDone(cipher, iv, usable, i, currentIv, plain)
      {
        OneBlock(cipher, iv, usable, i, currentIv, plain);
        var ciphertext: Block := usable[i * BLOCK..(i + 1) * BLOCK];
        plain := plain + Xor(cipher(ciphertext), currentIv);
        currentIv := ciphertext;
        i := i + 1;
      }
      AllBlocks(cipher, iv, usable, i, currentIv, plain);
      iv := currentIv;
    }

    /** Poll for up to `room` bytes of plaintext, when no seek is in progress. */
    method PollRead(room: nat, answer: Answer) returns (out: Poll)
      requires Valid() && seekState.Idle?
      modifies this
      ensures Valid()
      ensures (Abs(), out) == Polled(old(Abs()), cipher, room, answer)
      ensures Track() == Act(old(Track()), src, Read(room, answer))
    {
      KeepsValid(Read(room, answer));
      hide Good, Polled, InnerRead;
      ghost var whole := Asks(Abs()) ==> GivesBlocks(Abs(), answer);
      out := Poll(room, answer);
      delivered := delivered + if out.Ready? then out.bytes else [];
      sound := sound && whole;
    }

    method Poll(room: nat, answer: Answer) returns (out: Poll)
      requires Shaped(Abs())
      modifies `inner, `iv, `position, `buffer, `bufferOffset
      ensures (Abs(), out) == Polled(old(Abs()), cipher, room, answer)
    {
      hide Decrypt, Last, InnerRead;
      if position >= decodedSize {
        return Ready([]);
      }
      var left := decodedSize - position;
      if bufferOffset < |buffer| {
        var toCopy := Min(Min(|buffer| - bufferOffset, room), left);
        out := Ready(buffer[bufferOffset..bufferOffset + toCopy]);
        bufferOffset := bufferOffset + toCopy;
        position := position + toCopy;
        return;
      }
      var (i, read) := InnerRead(inner, READ_BLOCKS * BLOCK, answer);
      if !read.Ready? {
        return read;
      }
      inner := i;
      var usable := Usable(read.bytes);
      if usable == [] {
        return Ready([]);
      }
      var plain := DecryptBlocks(usable);
      var toCopy := Min(Min(|plain|, room), left);
      position := position + toCopy;
      if toCopy < |plain| {
        buffer, bufferOffset := plain, toCopy;
      } else {
        buffer, bufferOffset := [], 0;
      }
      out := Ready(plain[..toCopy]);
    }

    /** Begin to seek; the position stays until the seek completes. */
    method StartSeek(to: SeekFrom) returns (r: Result<(), SeekError>)
      requires Valid()
      modifies this
      ensures Valid() && position == old(position)
      ensures Track() == Act(old(Track()), src, AesRuns.StartSeek(to))
      ensures r.Err? <==> (to.Current? && old(position) + to.delta < 0) || (to.End? && decodedSize + to.delta < 0)
      ensures r.Ok? ==>
        && pendingSeek.Some? && AsksFor(old(Abs()), to, pendingSeek.value)
        && Heads(Abs(), Min(pendingSeek.value, decodedSize))
    {
      KeepsValid(AesRuns.StartSeek(to));
      hide Good;
      var asked;
      match to {
        case Start(offset) => asked := offset;
        case Current(delta) => asked := position + delta;
        case End(delta) => asked := decodedSize + delta;
      }
      if asked < 0 {
        return Err(NegativePosition);
      }
      pendingSeek := Some(asked);
      var target := Min(asked, decodedSize);
      var block := target / BLOCK;
      if block == 0 {
        seekState := SeekingToTarget(target);
        inner := inner.(goTo := Some(0));
      } else {
        seekState := NeedPrevBlock(target, block);
        inner := inner.(goTo := Some((block - 1) * BLOCK));
      }
      r := Ok(());
    }

    /** Work on the seek until it is done, fails or has to wait. */
    method PollComplete(answers: nat -> Answer) returns (out: SeekPoll)
      requires Valid()
      modifies this
      ensures Valid() && !out.Again?
      ensures (Abs(), out) == Completed(old(Abs()), answers, 0)
      ensures out.Done? && !old(seekState).Idle? ==>
        origin == position == out.at && delivered == [] && seekState.Idle?
      ensures forall target: nat :: Heads(old(Abs()), target) ==>
        && (out.Done? ==> position == target)
        && (out.Waiting? ==> Heads(Abs(), target))
    {
      forall target: nat | Heads(Abs(), target)
        ensures var (s, r) := Completed(Abs(), answers, 0);
          (r.Done? ==> s.position == target) && (r.Waiting? ==> Heads(s, target))
      {
        HeadsThere(Abs(), answers, 0, target);
      }
      var k := 0;
      out := Again;
      while out.Again?
        invariant Valid()
        invariant out.Again? ==> Completed(Abs(), answers, k) == Completed(old(Abs()), answers, 0)
        invariant !out.Again? ==> (Abs(), out) == Completed(old(Abs()), answers, 0)
        invariant out.Again? && !old(seekState).Idle? ==> !seekState.Idle?
        invariant out.Done? && !old(seekState).Idle? ==>
          origin == position == out.at && delivered == [] && seekState.Idle?
        decreases out.Again?, TurnsLeft(Abs())
      {
        hide Good, InnerRead;
        TurnsEnd(Abs(), answers(k));
        out := TurnOnce(answers(k));
        k := k + 1;
      }
    }

    /** One turn of the loop. A seek that completes starts a new origin. */
    method TurnOnce(answer: Answer) returns (out: SeekPoll)
      requires Valid()
      modifies this
      ensures Valid()
      ensures (Abs(), out) == SeekTurn(old(Abs()), answer)
      ensures Track() == Act(old(Track()), src, Turn(answer))
    {
      KeepsValid(Turn(answer));
      hide Good, SeekTurn, Exact;
      ghost var was := Abs();
      out := TakeTurn(answer);
      if out.SeekFailed? {
        sound := false;
      } else if out.Done? && !was.seek.Idle? {
        origin, delivered, sound := position, [], Exact(was, src, position);
      }
    }

    method TakeTurn(answer: Answer) returns (out: SeekPoll)
      requires Shaped(Abs())
      modifies `inner, `iv, `position, `buffer, `bufferOffset, `pendingSeek, `seekState
      ensures (Abs(), out) == SeekTurn(old(Abs()), answer)
    {
      match seekState {
        case Idle =>
          pendingSeek := None;
          out := Done(position);
        case NeedPrevBlock(target, block) =>
          seekState := SeekingToPrevBlock(target, block);
          out := Again;
        case SeekingToPrevBlock(target, block) =>
          out := CompleteInner(answer);
          if out.Done? {
            seekState := ReadingPrevBlock(target, block, []);
            out := Again;
          }
        case ReadingPrevBlock(target, block, got) =>
          out := ReadPrevBlock(target, block, got, answer);
        case SeekingToTarget(target) =>
          out := CompleteInner(answer);
          if out.Done? {
            seekState, position, pendingSeek, buffer, bufferOffset := Idle, target, None, [], 0;
            out := Done(target);
          }
      }
    }

    method CompleteInner(answer: Answer) returns (out: SeekPoll)
      modifies `inner, `seekState
      ensures (inner, out) == InnerSeek(old(inner), answer)
      ensures seekState == if out.SeekFailed? then Idle else old(seekState)
      ensures !out.Again?
    {
      var (i, o) := InnerSeek(inner, answer);
      inner, out := i, o;
      if out.SeekFailed? {
        seekState := Idle;
      }
    }

    method ReadPrevBlock(target: nat, block: nat, got: seq<Byte>, answer: Answer) returns (out: SeekPoll)
      requires Shaped(Abs()) && seekState == ReadingPrevBlock(target, block, got)
      modifies `inner, `iv, `seekState
      ensures (Abs(), out) == SeekTurn(old(Abs()), answer)
    {
      var (i, read) := InnerRead(inner, BLOCK - |got|, answer);
      inner := i;
      match read {
        case Pending => out := Waiting;
        case Failed =>
          seekState := Idle;
          out := SeekFailed;
        case Ready(bytes) =>
          var total := got + bytes;
          if |total| < BLOCK {
            if bytes == [] {
              seekState := Idle;
              return SeekFailed;
            }
            seekState := ReadingPrevBlock(target, block, total);
          } else {
            iv := total[..BLOCK];
            seekState := SeekingToTarget(target);
            inner := inner.(goTo := Some(block * BLOCK));
          }
          out := Again;
      }
    }
  }
}
