/** Prefetching segments in order: the fetcher that works ahead, the bounded channel, and the
    reader, each moving one step at a time. */
module PrefetchModel {
  import opened Wrappers

  type Fetched = Result<seq<Byte>, string>

  /** A fetch in flight; `answer` once it has completed. */
  datatype Fetch = Fetch(idx: nat, answer: Option<Fetched>, promoted: bool)

  /** `results` is what the fetch of each segment will answer. */
  datatype State = State(
    results: seq<Fetched>,
    lookahead: nat,
    nextToSpawn: nat,
    pending: seq<Fetch>,
    inHand: Option<Fetched>,
    channel: seq<Fetched>,
    closed: bool,
    buffer: seq<Byte>,
    done: bool,
    head: nat,
    delivered: nat)

  datatype Poll = Pending | Ready(bytes: seq<Byte>) | Failed(error: string)

  datatype Step =
    /** The fetch at a place in the window completes. */
    | Complete(at: nat)
    /** A fetch that has not completed is promoted to demand. */
    | Promote(at: nat)
    /** The fetcher takes the first result. */
    | Take
    /** The fetcher sends what it took and starts one more fetch. */
    | Send
    /** The fetcher ends. */
    | Close
    /** The reader polls for up to `room` bytes. */
    | Read(room: nat)

  function Spawned(idx: nat): Fetch {
    Fetch(idx, None, false)
  }

  /** The first `n` fetches, just started. */
  function Window(n: nat): (r: seq<Fetch>)
    ensures |r| == n && forall k :: 0 <= k < n ==> r[k] == Spawned(k)
  {
    if n == 0 then [] else Window(n - 1) + [Spawned(n - 1)]
  }

  function NewState(results: seq<Fetched>, lookahead: nat): State {
    var n := Min(|results|, Max(lookahead, 1));
    State(results, lookahead, n, Window(n), None, [], false, [], false, 0, 0)
  }

  predicate Enabled(s: State, step: Step) {
    match step
    case Complete(at) => at < |s.pending| && s.pending[at].answer.None? && s.pending[at].idx < |s.results|
    case Promote(at) => at < |s.pending| && s.pending[at].answer.None? && s.head >= s.pending[at].idx
    case Take => s.inHand.None? && s.pending != [] && s.pending[0].answer.Some?
    case Send => s.inHand.Some? && |s.channel| < s.lookahead
    case Close => s.inHand.None? && s.pending == [] && !s.closed
    case Read(_) => true
  }

  function Next(s: State, step: Step): State
    requires Enabled(s, step)
  {
    match step
    case Complete(at) =>
      var f := s.pending[at];
      s.(pending := s.pending[at := f.(answer := Some(s.results[f.idx]))])
    case Promote(at) => s.(pending := s.pending[at := s.pending[at].(promoted := true)])
    case Take => s.(inHand := s.pending[0].answer, pending := s.pending[1..])
    case Send =>
      var s1 := s.(inHand := None, channel := s.channel + [s.inHand.value]);
      if s.nextToSpawn < |s.results|
      then s1.(pending := s.pending + [Spawned(s.nextToSpawn)], nextToSpawn := s.nextToSpawn + 1)
      else s1
    case Close => s.(closed := true)
    case Read(room) => PollRead(s, room).0
  }

  function PollRead(s: State, room: nat): (State, Poll) {
    if s.buffer != [] then
      var k := Min(|s.buffer|, room);
      (s.(buffer := s.buffer[k..]), Ready(s.buffer[..k]))
    else if s.done then (s, Ready([]))
    else if s.channel != [] then
      match s.channel[0]
      case Ok(data) =>
        var k := Min(|data|, room);
        (s.(channel := s.channel[1..], head := s.head + 1, delivered := s.delivered + 1, buffer := data[k..]),
         Ready(data[..k]))
      case Err(e) => (s.(channel := s.channel[1..], done := true), Failed(e))
    else if s.closed then (s.(done := true), Ready([]))
    else (s, Pending)
  }

  // ---- What every run keeps -------------------------------------------------------

  /** Results the fetcher has taken from the window, sent, and the reader received. */
  function Taken(s: State): int { s.nextToSpawn - |s.pending| }
  function Sent(s: State): int { Taken(s) - if s.inHand.Some? then 1 else 0 }
  function Received(s: State): int { Sent(s) - |s.channel| }

  ghost predicate InWindow(s: State, k: nat)
    requires k < |s.pending|
  {
    var f := s.pending[k];
    && f.idx == Taken(s) + k && f.idx < |s.results|
    && (f.answer.Some? ==> f.answer.value == s.results[f.idx])
    && (f.promoted ==> f.idx <= s.delivered)
  }

  ghost predicate InChannel(s: State, k: nat)
    requires k < |s.channel|
  {
    && 0 <= Received(s) + k < |s.results|
    && s.channel[k] == s.results[Received(s) + k]
  }

  ghost predicate WindowOk(s: State) {
    forall k :: 0 <= k < |s.pending| ==> InWindow(s, k)
  }

  ghost predicate ChannelOk(s: State) {
    && (s.inHand.Some? ==> 0 <= Sent(s) < |s.results| && s.inHand.value == s.results[Sent(s)])
    && (forall k :: 0 <= k < |s.channel| ==> InChannel(s, k))
  }

  /** The window stays as wide as the lookahead while there is more to start. */
  ghost predicate Counts(s: State) {
    && s.lookahead > 0
    && s.nextToSpawn <= |s.results|
    && |s.channel| <= s.lookahead
    && Sent(s) <= s.nextToSpawn <= Sent(s) + s.lookahead
    && (s.nextToSpawn < |s.results| ==> s.nextToSpawn == Sent(s) + s.lookahead)
    && (s.closed ==> s.pending == [] && s.inHand.None?)
  }

  ghost predicate ReaderOk(s: State) {
    && s.head == s.delivered
    && s.delivered <= Received(s) <= s.delivered + 1
    && Received(s) <= |s.results|
    && (forall k :: 0 <= k < s.delivered ==> s.results[k].Ok?)
    && (Received(s) > s.delivered ==> s.done && s.results[s.delivered].Err?)
    && (s.done && Received(s) == s.delivered ==> s.delivered == |s.results|)
  }

  ghost predicate Inv(s: State) {
    WindowOk(s) && ChannelOk(s) && Counts(s) && ReaderOk(s)
  }

  lemma NewStateInv(results: seq<Fetched>, lookahead: nat)
    requires lookahead > 0
    ensures Inv(NewState(results, lookahead))
  {
  }

  lemma ReadKeepsWindow(s: State, room: nat)
    requires WindowOk(s)
    ensures WindowOk(PollRead(s, room).0)
  {
    var s' := PollRead(s, room).0;
    forall k | 0 <= k < |s'.pending| ensures InWindow(s', k) {
      assert InWindow(s, k);
    }
  }

  lemma ReadKeepsChannel(s: State, room: nat)
    requires ChannelOk(s)
    ensures ChannelOk(PollRead(s, room).0)
  {
    var s' := PollRead(s, room).0;
    forall k | 0 <= k < |s'.channel| ensures InChannel(s', k) {
      assert InChannel(s, k + (|s.channel| - |s'.channel|));
    }
  }

  lemma ReadKeepsInv(s: State, room: nat)
    requires Inv(s)
    ensures Inv(PollRead(s, room).0)
  {
    ReadKeepsWindow(s, room);
    ReadKeepsChannel(s, room);
    assert s.channel != [] ==> InChannel(s, 0);
    hide WindowOk, ChannelOk;
  }

  lemma TaskKeepsWindow(s: State, step: Step)
    requires Inv(s) && Enabled(s, step) && !step.Read?
    ensures WindowOk(Next(s, step))
  {
    var s' := Next(s, step);
    hide ChannelOk;
    forall k | 0 <= k < |s'.pending| ensures InWindow(s', k) {
      var k0 := if step.Take? then k + 1 else k;
      assert k0 < |s.pending| ==> InWindow(s, k0);
      hide WindowOk, ReaderOk;
    }
  }

  lemma TaskKeepsChannel(s: State, step: Step)
    requires Inv(s) && Enabled(s, step) && !step.Read?
    ensures ChannelOk(Next(s, step))
  {
    var s' := Next(s, step);
    assert step.Take? ==> InWindow(s, 0);
    hide WindowOk;
    forall k | 0 <= k < |s'.channel| ensures InChannel(s', k) {
      assert k < |s.channel| ==> InChannel(s, k);
    }
  }

  lemma TaskKeepsInv(s: State, step: Step)
    requires Inv(s) && Enabled(s, step) && !step.Read?
    ensures Inv(Next(s, step))
  {
    TaskKeepsWindow(s, step);
    TaskKeepsChannel(s, step);
    assert step.Take? ==> InWindow(s, 0);
    hide WindowOk, ChannelOk;
  }
}
