/** The prefetched stream, its task's and its reader's steps updating it in place. */
module MultiSegmentStreams {
  import opened Wrappers
  import opened PrefetchModel
  import opened PrefetchRuns

  class MultiSegmentStream {
    const results: seq<Fetched>
    const lookahead: nat
    var nextToSpawn: nat
    var pending: seq<Fetch>
    var inHand: Option<Fetched>
    var channel: seq<Fetched>
    var closed: bool
    var buffer: seq<Byte>
    var done: bool
    var head: nat
    var delivered: nat
    var bytesRead: nat

    /** What the reader was given, and the errors it was told of. */
    ghost var output: seq<Byte>
    ghost var errors: seq<string>

    ghost function Abs(): State
      reads this
    {
      State(results, lookahead, nextToSpawn, pending, inHand, channel, closed, buffer, done, head, delivered)
    }

    ghost function Track(): Reader
      reads this
    {
      Reader(Abs(), output, errors)
    }

    /** The reader was given the segments delivered, in order, but for what is buffered, and
        an error exactly when it asked for the first one that fails. */
    ghost predicate Valid()
      reads this
    {
      Faithful(Track()) && bytesRead == |output|
    }

    /** Start fetching up to `lookahead` segments. A channel cannot be made without room. */
    constructor (results: seq<Fetched>, lookahead: nat)
      requires lookahead > 0
      ensures Valid() && Track() == Reader(NewState(results, lookahead), [], [])
    {
      hide Faithful, Inv;
      var concurrency := Max(lookahead, 1);
      var next: nat, window: seq<Fetch> := 0, [];
      while next < |results| && |window| < concurrency
        invariant next <= |results| && |window| == next <= concurrency
        invariant window == Window(next)
      {
        window := window + [Spawned(next)];
        next := next + 1;
      }
      this.results, this.lookahead := results, lookahead;
      nextToSpawn, pending, inHand, channel, closed := next, window, None, [], false;
      buffer, done, head, delivered, bytesRead := [], false, 0, 0, 0;
      output, errors := [], [];
      NewReaderFaithful(results, lookahead);
    }

    /** The fetch at a place of the window completes. */
    method FetchCompletes(at: nat)
      requires Valid() && Enabled(Abs(), Complete(at))
      modifies `pending
      ensures Valid() && Track() == Act(old(Track()), Complete(at))
    {
      hide Faithful;
      ActKeepsFaithful(Track(), Complete(at));
      pending := pending[at := pending[at].(answer := Some(results[pending[at].idx]))];
    }

    /** The reader has come to a segment that still waits for a permit: it is demand now. */
    method PromoteFetch(at: nat)
      requires Valid() && Enabled(Abs(), Promote(at))
      modifies `pending
      ensures Valid() && Track() == Act(old(Track()), Promote(at))
    {
      hide Faithful;
      ActKeepsFaithful(Track(), Promote(at));
      pending := pending[at := pending[at].(promoted := true)];
    }

    /** Nothing is left to fetch or to send: the channel is closed. */
    method Finish()
      requires Valid() && Enabled(Abs(), Close)
      modifies `closed
      ensures Valid() && Track() == Act(old(Track()), Close)
    {
      hide Faithful;
      ActKeepsFaithful(Track(), Close);
      closed := true;
    }

    /** The fetcher takes the first result of its window once it is there. */
    method TakeResult()
      requires Valid() && Enabled(Abs(), Take)
      modifies `pending, `inHand
      ensures Valid() && Track() == Act(old(Track()), Take)
    {
      hide Faithful;
      ActKeepsFaithful(Track(), Take);
      inHand, pending := pending[0].answer, pending[1..];
    }

    /** The fetcher sends what it holds, and starts the next fetch. */
    method SendResult()
      requires Valid() && Enabled(Abs(), Send)
      modifies `channel, `inHand, `pending, `nextToSpawn
      ensures Valid() && Track() == Act(old(Track()), Send)
    {
      hide Faithful;
      ActKeepsFaithful(Track(), Send);
      channel := channel + [inHand.value];
      inHand := None;
      if nextToSpawn < |results| {
        pending := pending + [Spawned(nextToSpawn)];
        nextToSpawn := nextToSpawn + 1;
      }
    }

    /** The reader polls for up to `room` bytes: from its buffer, else from the next segment,
        keeping what does not fit. */
    method PollRead(room: nat) returns (out: Poll)
      requires Valid()
      modifies this
      ensures Valid()
      ensures (Abs(), out) == PrefetchModel.PollRead(old(Abs()), room)
      ensures output == old(output) + if out.Ready? then out.bytes else []
      ensures errors == old(errors) + if out.Failed? then [out.error] else []
    {
      hide Faithful;
      ActKeepsFaithful(Track(), Read(room));
      out := Poll(room);
      assert output + [] == output && errors + [] == errors;
      output := output + if out.Ready? then out.bytes else [];
      errors := errors + if out.Failed? then [out.error] else [];
    }

    method Poll(room: nat) returns (out: Poll)
      modifies `buffer, `channel, `done, `head, `delivered, `bytesRead
      ensures (Abs(), out) == PrefetchModel.PollRead(old(Abs()), room)
      ensures bytesRead == old(bytesRead) + if out.Ready? then |out.bytes| else 0
    {
      if buffer != [] {
        var toCopy := Min(|buffer|, room);
        out := Ready(buffer[..toCopy]);
        buffer := buffer[toCopy..];
        bytesRead := bytesRead + toCopy;
        return;
      }
      if done {
        return Ready([]);
      }
      if channel == [] {
        if closed {
          done := true;
          return Ready([]);
        }
        return Pending;
      }
      var received := channel[0];
      channel := channel[1..];
      match received {
        case Ok(data) =>
          head := head + 1;
          delivered := delivered + 1;
          var toCopy := Min(|data|, room);
          out := Ready(data[..toCopy]);
          bytesRead := bytesRead + toCopy;
          buffer := data[toCopy..];
        case Err(e) =>
          done := true;
          out := Failed(e);
      }
    }
  }
}
