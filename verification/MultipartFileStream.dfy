/** The stream over a virtual file, updated in place as it is polled. */
module MultipartFileStreams {
  import opened Wrappers
  import opened MultipartModel
  import opened MultipartRuns

  lemma DeliversTheFile(s: Stream, origin: nat, delivered: seq<Byte>, sound: bool, room: nat, answer: Answer)
    requires Shaped(s) && (Tiled(s.parts, s.fileSize) && sound ==> Faithful(Reader(s, origin, delivered, sound)))
    ensures Tiled(s.parts, s.fileSize) && sound ==>
      PollGood(s, room, answer, Polled(s, room, answer).0, Polled(s, room, answer).1)
  {
    hide Tiled, PollGood, Polled;
    if Tiled(s.parts, s.fileSize) && sound {
      PollDeliversTheFile(s, room, answer);
    }
  }

  class MultipartFileStream {
    const parts: seq<Part>
    const fileSize: nat
    var position: nat
    var currentPart: nat
    var inner: Option<Inner>
    var skipBytes: nat
    var partBytesRemaining: nat
    var pendingSeek: Option<nat>

    /** Where the last completed seek went, what was delivered since, and whether the segments
        have answered without an error since. */
    ghost var origin: nat
    ghost var delivered: seq<Byte>
    ghost var sound: bool

    ghost function Abs(): Stream
      reads this
    {
      Stream(parts, fileSize, position, currentPart, inner, skipBytes, partBytesRemaining, pendingSeek)
    }

    ghost function Track(): Reader
      reads this
    {
      Reader(Abs(), origin, delivered, sound)
    }

    /** Over parts that tile the file, what was delivered is the file from the origin to the
        position, unless the segments have failed since. */
    ghost predicate Valid()
      reads this
    {
      Shaped(Abs()) && (Tiled(parts, fileSize) && sound ==> Faithful(Track()))
    }

    lemma KeepsValid(op: Op)
      requires Valid()
      ensures var r := Act(Track(), op); Tiled(parts, fileSize) && r.sound ==> Faithful(r)
    {
      hide Tiled, Faithful, Act;
      if Tiled(parts, fileSize) {
        ActKeepsFaithful(Track(), op);
      }
    }

    constructor (parts: seq<Part>, fileSize: nat)
      ensures Valid() && Track() == Reader(NewStream(parts, fileSize), 0, [], true)
    {
      this.parts, this.fileSize := parts, fileSize;
      position, currentPart, inner, skipBytes, partBytesRemaining, pendingSeek := 0, 0, None, 0, 0, None;
      origin, delivered, sound := 0, [], true;
      new;
      if Tiled(parts, fileSize) {
        NewStreamStarts(parts, fileSize);
      }
    }

    method SetupPart(part: nat, at: int)
      requires part < |parts|
      modifies `currentPart, `inner, `skipBytes, `partBytesRemaining
      ensures Abs() == Setup(old(Abs()), part, at)
    {
      var p := parts[part];
      var offsetInPart := at - p.fileStart;
      var skip := p.segStart + offsetInPart;
      var left := p.segEnd - p.segStart - offsetInPart;
      currentPart, skipBytes, partBytesRemaining := part, NotBelowZero(skip), NotBelowZero(left);
      inner := None;
    }

    method EnsureInner()
      requires currentPart < |parts|
      modifies `inner
      ensures inner == Some(InnerOf(old(Abs())))
    {
      if inner.None? {
        inner := Some(Inner(0, false));
      }
    }

    /** Ask the part's segments for up to `cap` bytes. */
    method PollInner(cap: nat, answer: Answer) returns (out: Poll)
      requires cap > 0 && currentPart < |parts| && inner.Some?
      modifies `inner
      ensures inner.Some?
      ensures (inner.value, out) == InnerRead(parts[currentPart].content, old(inner).value, cap, answer)
    {
      var (i, o) := InnerRead(parts[currentPart].content, inner.value, cap, answer);
      inner := Some(i);
      out := o;
    }

    /** Poll for up to `room` bytes. What comes is the next of the file, and a poll of ready
        segments makes progress. */
    method PollRead(room: nat, answer: Answer) returns (out: Poll)
      requires Valid()
      modifies this
      ensures Valid()
      ensures (Abs(), out) == Polled(old(Abs()), room, answer)
      ensures Track() == Act(old(Track()), Read(room, answer))
      ensures Tiled(parts, fileSize) && old(sound) ==> PollGood(old(Abs()), room, answer, Abs(), out)
    {
      hide Faithful, Tiled, PollGood;
      KeepsValid(Read(room, answer));
      DeliversTheFile(Abs(), origin, delivered, sound, room, answer);
      out := Poll(room, answer);
      if out.Ready? {
        delivered := delivered + out.bytes;
      } else {
        assert delivered + [] == delivered;
      }
      sound := sound && !out.Failed?;
    }

    method Poll(room: nat, answer: Answer) returns (out: Poll)
      requires Shaped(Abs())
      modifies `position, `currentPart, `inner, `skipBytes, `partBytesRemaining
      ensures (Abs(), out) == Polled(old(Abs()), room, answer)
    {
      if position >= fileSize {
        return Ready([]);
      }
      if partBytesRemaining == 0 && skipBytes == 0 {
        var found := FindPart(parts, position, 0);
        if found.None? {
          return Ready([]);
        }
        SetupPart(found.value, position);
      }
      out := PollPart(room, answer);
    }

    method PollPart(room: nat, answer: Answer) returns (out: Poll)
      requires currentPart < |parts|
      modifies `position, `currentPart, `inner, `skipBytes, `partBytesRemaining
      ensures (Abs(), out) == PolledInPart(old(Abs()), room, answer)
    {
      EnsureInner();
      if skipBytes > 0 {
        out := PollInner(Min(skipBytes, SKIP_CHUNK), answer);
        if !out.Ready? {
          return;
        }
        if out.bytes == [] {
          inner := None;
          return Pending;
        }
        skipBytes := Sat(skipBytes, |out.bytes|);
        return Pending;
      }
      if partBytesRemaining == 0 {
        var next := currentPart + 1;
        if next >= |parts| {
          return Ready([]);
        }
        SetupPart(next, parts[next].fileStart);
        return Pending;
      }
      var cap := Min(partBytesRemaining, room);
      if cap == 0 {
        return Ready([]);
      }
      out := PollInner(Min(cap, READ_CHUNK), answer);
      if !out.Ready? {
        return;
      }
      if out.bytes == [] {
        inner := None;
        return Pending;
      }
      position := position + |out.bytes|;
      partBytesRemaining := Sat(partBytesRemaining, |out.bytes|);
    }

    /** Note where to go; the stream does not move yet. */
    method StartSeek(to: SeekFrom) returns (r: Result<(), SeekError>)
      requires Valid()
      modifies `pendingSeek
      ensures Valid() && position == old(position)
      ensures Track() == Act(old(Track()), MultipartRuns.StartSeek(to))
      ensures r.Err? <==> (to.Current? && old(position) + to.delta < 0) || (to.End? && fileSize + to.delta < 0)
      ensures r.Ok? ==> pendingSeek.Some? && AsksFor(old(Abs()), to, pendingSeek.value)
      ensures r.Err? ==> pendingSeek == old(pendingSeek)
    {
      KeepsValid(MultipartRuns.StartSeek(to));
      hide Faithful, Tiled;
      var target;
      match to {
        case Start(offset) => target := offset;
        case Current(delta) => target := position + delta;
        case End(delta) => target := fileSize + delta;
      }
      if target < 0 {
        return Err(NegativePosition);
      }
      pendingSeek := Some(target);
      r := Ok(());
    }

    /** Go where the last seek asked, at most to the end of the file. */
    method PollComplete() returns (at: nat)
      requires Valid()
      modifies this
      ensures Valid() && at == position
      ensures Track() == Act(old(Track()), Complete)
      ensures at == if old(pendingSeek).Some? then Min(old(pendingSeek).value, fileSize) else old(position)
      ensures pendingSeek.None?
    {
      hide Faithful, Tiled;
      KeepsValid(Complete);
      if pendingSeek.None? {
        return position;
      }
      var target := Min(pendingSeek.value, fileSize);
      pendingSeek := None;
      position := target;
      inner, currentPart, skipBytes, partBytesRemaining := None, 0, 0, 0;
      origin, delivered, sound := target, [], true;
      at := target;
    }
  }
}
