/** What the reader of a prefetched stream sees, in every interleaving. */
module PrefetchRuns {
  import opened Wrappers
  import opened PrefetchModel

  /** A state with what the reader was given so far. */
  datatype Reader = Reader(s: State, output: seq<Byte>, errors: seq<string>)

  ghost function Act(r: Reader, step: Step): Reader
    requires Enabled(r.s, step)
  {
    var r' := r.(s := Next(r.s, step));
    if !step.Read? then r'
    else
      match PollRead(r.s, step.room).1
      case Pending => r'
      case Ready(bytes) => r'.(output := r.output + bytes)
      case Failed(e) => r'.(errors := r.errors + [e])
  }

  ghost predicate Run(r: Reader, steps: seq<Step>, end: Reader)
    decreases |steps|
  {
    if steps == [] then r == end
    else Enabled(r.s, steps[0]) && Run(Act(r, steps[0]), steps[1..], end)
  }

  /** The first `n` segments, one after the other. */
  function Joined(results: seq<Fetched>, n: nat): seq<Byte>
    requires n <= |results|
  {
    if n == 0 then [] else Joined(results, n - 1) + if results[n - 1].Ok? then results[n - 1].value else []
  }

  /** The reader has been given the segments delivered, but for what is still buffered, and
      an error exactly when the next segment failed and it asked for that. */
  ghost predicate Faithful(r: Reader) {
    && Inv(r.s)
    && r.s.delivered <= |r.s.results|
    && r.output + r.s.buffer == Joined(r.s.results, r.s.delivered)
    && r.errors == if Received(r.s) > r.s.delivered then [r.s.results[r.s.delivered].error] else []
  }

  lemma NewReaderFaithful(results: seq<Fetched>, lookahead: nat)
    requires lookahead > 0
    ensures Faithful(Reader(NewState(results, lookahead), [], []))
  {
    NewStateInv(results, lookahead);
    hide Inv;
  }

  lemma SplitAt(data: seq<Byte>, k: nat)
    requires k <= |data|
    ensures data == data[..k] + data[k..]
  {
  }

  lemma ReadKeepsFaithful(r: Reader, room: nat)
    requires Faithful(r)
    ensures Faithful(Act(r, Read(room)))
  {
    hide Inv, Joined;
    ReadKeepsInv(r.s, room);
    ChannelMeans(r.s);
    var s := r.s;
    if s.buffer != [] {
      SplitOutput(r.output, s.buffer, Min(|s.buffer|, room));
    } else if !s.done && s.channel != [] {
      assert r.output + s.buffer == r.output;
      if s.channel[0].Ok? {
        JoinedMore(s.results, s.delivered);
        SplitOutput(r.output, s.channel[0].value, Min(|s.channel[0].value|, room));
      }
    }
  }

  lemma SplitOutput(output: seq<Byte>, data: seq<Byte>, k: nat)
    requires k <= |data|
    ensures output + data[..k] + data[k..] == output + data
  {
    SplitAt(data, k);
  }

  lemma JoinedMore(results: seq<Fetched>, n: nat)
    requires n < |results| && results[n].Ok?
    ensures Joined(results, n + 1) == Joined(results, n) + results[n].value
  {
  }

  /** What the first result in the channel is, and where the reader stands. */
  lemma ChannelMeans(s: State)
    requires Inv(s)
    ensures s.delivered <= Received(s) <= |s.results| && (Received(s) > s.delivered ==> s.done)
    ensures s.channel != [] ==> Received(s) < |s.results| && s.channel[0] == s.results[Received(s)]
  {
    hide WindowOk;
    assert s.channel != [] ==> InChannel(s, 0);
  }

  lemma ActKeepsFaithful(r: Reader, step: Step)
    requires Faithful(r) && Enabled(r.s, step)
    ensures Faithful(Act(r, step)) && Act(r, step).s.results == r.s.results
    ensures Act(r, step).s.lookahead == r.s.lookahead
  {
    hide Inv, Joined;
    if step.Read? {
      ReadKeepsFaithful(r, step.room);
    } else {
      TaskKeepsInv(r.s, step);
    }
  }

  /** In every interleaving the reader is given the segments in order up to the first that
      fails, and then at most one error. */
  lemma {:induction false} RunsDeliverInOrder(r: Reader, steps: seq<Step>, end: Reader)
    requires Faithful(r) && Run(r, steps, end)
    ensures Faithful(end) && end.s.results == r.s.results && end.s.lookahead == r.s.lookahead
    decreases |steps|
  {
    hide Faithful, Enabled;
    if steps != [] {
      ActKeepsFaithful(r, steps[0]);
      RunsDeliverInOrder(Act(r, steps[0]), steps[1..], end);
    }
  }

  /** What being faithful comes to: all output precedes the first failing segment; a reader
      told of the end without an error was given every segment; an error is that of the
      first segment that fails. */
  lemma FaithfulMeans(r: Reader, room: nat)
    requires Faithful(r) && room > 0
    ensures |r.errors| <= 1
    ensures forall k :: 0 <= k < r.s.delivered ==> r.s.results[k].Ok?
    ensures r.errors != [] ==>
      && r.s.delivered < |r.s.results| && r.s.results[r.s.delivered] == Err(r.errors[0])
      && !PollRead(r.s, room).1.Failed? && !PollRead(r.s, room).1.Pending?
    ensures PollRead(r.s, room).1 == Ready([]) ==>
      || (r.errors != [] && r.output == Joined(r.s.results, r.s.delivered))
      || (r.s.delivered == |r.s.results| && r.output == Joined(r.s.results, |r.s.results|))
      || r.s.results[r.s.delivered] == Ok([])
  {
    if r.s.channel != [] {
      assert InChannel(r.s, 0);
    }
    assert r.s.buffer == [] ==> r.output + r.s.buffer == r.output;
  }

  // ---- How far ahead is started ---------------------------------------------------

  /** At most twice the lookahead is started beyond what was delivered; one more once the
      reader was told of an error, since that segment left the channel undelivered. */
  lemma StartedIsBounded(r: Reader)
    requires Faithful(r)
    ensures r.s.nextToSpawn <= r.s.delivered + 2 * r.s.lookahead + |r.errors|
  {
  }

  /** The first segment whose fetch fails. */
  function FirstFailure(results: seq<Fetched>): (r: Option<nat>)
    ensures r.Some? ==> r.value < |results| && results[r.value].Err?
    ensures r.Some? ==> forall i :: 0 <= i < r.value ==> results[i].Ok?
    ensures r.None? ==> forall i :: 0 <= i < |results| ==> results[i].Ok?
  {
    if results == [] then None
    else if results[0].Err? then Some(0)
    else
      match FirstFailure(results[1..])
      case Some(k) => Some(k + 1)
      case None => None
  }

  function NewReader(results: seq<Fetched>, lookahead: nat): Reader {
    Reader(NewState(results, lookahead), [], [])
  }

  /** A run leads from one to the other. */
  ghost predicate Leads(r: Reader, end: Reader) {
    exists steps :: Run(r, steps, end)
  }

  /** No run ever starts more than twice the lookahead beyond what it delivered. */
  ghost predicate StaysWithinTwice(results: seq<Fetched>, lookahead: nat) {
    forall end :: Leads(NewReader(results, lookahead), end) ==>
      end.s.nextToSpawn <= end.s.delivered + 2 * lookahead
  }

  /** Twice the lookahead bounds every run exactly when no segment fails, or the release
      ends within twice the lookahead of the first that does. */
  lemma TwiceTheLookaheadExactlyWhen(results: seq<Fetched>, lookahead: nat)
    requires lookahead > 0
    ensures StaysWithinTwice(results, lookahead) <==>
      FirstFailure(results).None? || |results| <= FirstFailure(results).value + 2 * lookahead
  {
    var start, failure := NewReader(results, lookahead), FirstFailure(results);
    NewReaderFaithful(results, lookahead);
    if failure.Some? && |results| > failure.value + 2 * lookahead {
      AnErrorLeavesOneMore(results, lookahead, failure.value);
    } else {
      forall end | Leads(start, end) ensures end.s.nextToSpawn <= end.s.delivered + 2 * lookahead {
        var steps :| Run(start, steps, end);
        RunsDeliverInOrder(start, steps, end);
        StartedIsBounded(end);
        ErrorIsFirstFailure(end);
      }
    }
  }

  lemma ErrorIsFirstFailure(r: Reader)
    requires Faithful(r)
    ensures r.s.nextToSpawn <= |r.s.results|
    ensures r.errors != [] ==> FirstFailure(r.s.results) == Some(r.s.delivered)
  {
  }

  // ---- A run that gets to the one more --------------------------------------------

  lemma {:induction false} RunMore(r: Reader, steps: seq<Step>, mid: Reader, step: Step)
    requires Run(r, steps, mid) && Enabled(mid.s, step)
    ensures Run(r, steps + [step], Act(mid, step))
    decreases |steps|
  {
    hide Enabled, Act;
    if steps == [] {
      assert Run(Act(mid, step), [], Act(mid, step));
      assert [step][1..] == [];
    } else {
      RunMore(Act(r, steps[0]), steps[1..], mid, step);
      assert (steps + [step])[1..] == steps[1..] + [step];
    }
  }

  lemma LeadsNowhere(r: Reader)
    ensures Leads(r, r)
  {
    assert Run(r, [], r);
  }

  lemma LeadsOn(r: Reader, mid: Reader, step: Step)
    requires Leads(r, mid) && Enabled(mid.s, step)
    ensures Leads(r, Act(mid, step))
  {
    var steps :| Run(r, steps, mid);
    RunMore(r, steps, mid, step);
  }

  /** Between the fetcher's turns: nothing in hand, nothing completed in the window, and the
      reader's buffer empty. */
  ghost predicate AtRest(r: Reader, sent: nat, delivered: nat, errors: nat) {
    && Faithful(r)
    && r.s.inHand.None? && !r.s.closed && r.s.buffer == []
    && (forall k :: 0 <= k < |r.s.pending| ==> r.s.pending[k].answer.None?)
    && Sent(r.s) == sent && r.s.delivered == delivered && |r.errors| == errors
  }

  /** The fetcher's turn: the next fetch completes, is taken and sent, and one more starts. */
  lemma SendOne(start: Reader, r: Reader, sent: nat, delivered: nat, errors: nat) returns (end: Reader)
    requires Leads(start, r) && AtRest(r, sent, delivered, errors)
    requires sent < |r.s.results| && sent < delivered + errors + r.s.lookahead
    ensures Leads(start, end) && AtRest(end, sent + 1, delivered, errors)
    ensures end.s.results == r.s.results && end.s.lookahead == r.s.lookahead
  {
    hide Faithful, Leads, Run;
    SomeIsPending(r);
    var r1 := Act(r, Complete(0));
    LeadsOn(start, r, Complete(0));
    ActKeepsFaithful(r, Complete(0));
    var r2 := Act(r1, Take);
    LeadsOn(start, r1, Take);
    ActKeepsFaithful(r1, Take);
    end := Act(r2, Send);
    LeadsOn(start, r2, Send);
    ActKeepsFaithful(r2, Send);
  }

  lemma SomeIsPending(r: Reader)
    requires Faithful(r) && r.s.inHand.None? && Sent(r.s) < |r.s.results|
    ensures r.s.pending != [] && r.s.pending[0].idx < |r.s.results|
    ensures |r.s.channel| == Sent(r.s) - r.s.delivered - |r.errors|
  {
    hide ChannelOk, Joined;
    assert r.s.pending != [] ==> InWindow(r.s, 0);
  }

  /** The reader's turn: it reads the whole of the next segment, or is told of its error. */
  lemma ReadOne(start: Reader, r: Reader, sent: nat, delivered: nat) returns (end: Reader)
    requires Leads(start, r) && AtRest(r, sent, delivered, 0) && delivered < sent <= |r.s.results|
    ensures Leads(start, end)
    ensures r.s.results[delivered].Ok? ==> AtRest(end, sent, delivered + 1, 0)
    ensures r.s.results[delivered].Err? ==> AtRest(end, sent, delivered, 1)
    ensures end.s.results == r.s.results && end.s.lookahead == r.s.lookahead
  {
    var next := r.s.results[delivered];
    assert r.s.channel != [] && InChannel(r.s, 0) && !r.s.done;
    var step := Read(if next.Ok? then |next.value| else 1);
    end := Act(r, step);
    LeadsOn(start, r, step);
    ActKeepsFaithful(r, step);
    hide Faithful, Leads;
  }

  lemma {:induction false} SendMore(start: Reader, r: Reader, sent: nat, delivered: nat, errors: nat, n: nat)
    returns (end: Reader)
    requires Leads(start, r) && AtRest(r, sent, delivered, errors)
    requires sent + n <= |r.s.results| && sent + n <= delivered + errors + r.s.lookahead
    ensures Leads(start, end) && AtRest(end, sent + n, delivered, errors)
    ensures end.s.results == r.s.results && end.s.lookahead == r.s.lookahead
    decreases n
  {
    hide *;
    end := r;
    if n > 0 {
      end := SendOne(start, r, sent, delivered, errors);
      end := SendMore(start, end, sent + 1, delivered, errors, n - 1);
    }
  }

  /** Send and read the first `k` segments one by one. */
  lemma {:induction false} DeliverFirst(results: seq<Fetched>, lookahead: nat, k: nat) returns (end: Reader)
    requires lookahead > 0 && k <= |results| && forall i :: 0 <= i < k ==> results[i].Ok?
    ensures Leads(NewReader(results, lookahead), end) && AtRest(end, k, k, 0)
    ensures end.s.results == results && end.s.lookahead == lookahead
  {
    var start := NewReader(results, lookahead);
    if k == 0 {
      NewReaderFaithful(results, lookahead);
      LeadsNowhere(start);
      end := start;
    } else {
      end := DeliverFirst(results, lookahead, k - 1);
      end := SendOne(start, end, k - 1, k - 1, 0);
      end := ReadOne(start, end, k, k - 1);
    }
  }

  /** Deliver what comes before the first failure, fill the channel, read the error and send
      once more: twice the lookahead and one are started beyond what was delivered. */
  lemma {:induction false} AnErrorLeavesOneMore(results: seq<Fetched>, lookahead: nat, k: nat)
    requires lookahead > 0 && FirstFailure(results) == Some(k) && |results| > k + 2 * lookahead
    ensures exists end ::
      && Leads(NewReader(results, lookahead), end) && |end.errors| == 1
      && end.s.delivered == k && end.s.nextToSpawn == k + 2 * lookahead + 1
  {
    var start := NewReader(results, lookahead);
    var end := DeliverFirst(results, lookahead, k);
    end := SendMore(start, end, k, k, 0, lookahead);
    end := ReadOne(start, end, k + lookahead, k);
    end := SendOne(start, end, k + lookahead, k, 1);
    assert Leads(start, end);
  }

  /** Only a segment before which everything was delivered is ever promoted to demand. */
  lemma PromotedIsNext(r: Reader, at: nat)
    requires Faithful(r) && Enabled(r.s, Promote(at))
    ensures r.s.pending[at].idx <= r.s.delivered
    ensures r.errors == [] ==> r.s.pending[at].idx == r.s.delivered
  {
    assert InWindow(r.s, at);
  }

  /** The fetch of a segment can be promoted exactly while it is awaited, or an error passed it
      over, and has not completed; and that is all a promotion changes. */
  lemma PromotableExactlyWhen(r: Reader, at: nat)
    requires Faithful(r) && at < |r.s.pending|
    ensures Enabled(r.s, Promote(at)) <==> r.s.pending[at].answer.None? && r.s.pending[at].idx <= r.s.delivered
    ensures Enabled(r.s, Promote(at)) ==>
      var s' := Next(r.s, Promote(at));
      && s'.pending[at].promoted
      && s' == r.s.(pending := r.s.pending[at := s'.pending[at]])
      && s'.pending[at] == r.s.pending[at].(promoted := true)
  {
  }

  lemma PromotedStayDelivered(r: Reader, at: nat)
    requires Faithful(r) && at < |r.s.pending| && r.s.pending[at].promoted
    ensures r.s.pending[at].idx <= r.s.delivered
  {
    assert InWindow(r.s, at);
  }

  /** A reader that has to wait never waits for nothing: the fetcher or a fetch can move. */
  lemma WaitingReaderIsServed(s: State, room: nat)
    requires Inv(s) && PollRead(s, room).1.Pending?
    ensures Enabled(s, Send) || Enabled(s, Take) || Enabled(s, Complete(0)) || Enabled(s, Close)
  {
    if s.pending != [] {
      assert InWindow(s, 0);
    }
  }
}
