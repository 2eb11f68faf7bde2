/** The repaired spans of one file: an ordered map from start offset to bytes, kept as a
    sequence in order of start, and the bytes it covers. */
module PatchSpans {
  import opened Wrappers

  datatype Span = Span(start: nat, data: seq<Byte>)
  {
    function End(): nat { start + |data| }
  }

  /** Part of an article: a span's bytes, where in them the part starts, its length. */
  datatype Piece = Piece(data: seq<Byte>, from: nat, n: nat)

  /** In order, non-empty and not overlapping. */
  ghost predicate Ordered(spans: seq<Span>) {
    && (forall i :: 0 <= i < |spans| ==> spans[i].data != [])
    && (forall i, j :: 0 <= i < j < |spans| ==> spans[i].End() <= spans[j].start)
  }

  lemma Apart(spans: seq<Span>, i: nat, j: nat)
    requires Ordered(spans) && i < |spans| && j < |spans|
    ensures i < j ==> spans[i].End() <= spans[j].start
    ensures j < i ==> spans[j].End() <= spans[i].start
  {
  }

  ghost predicate Holds(spans: seq<Span>, i: int, at: nat) {
    0 <= i < |spans| && spans[i].start <= at < spans[i].End()
  }

  /** The byte the spans give for an offset of the file, if one covers it. */
  ghost function ByteAt(spans: seq<Span>, at: nat): Option<Byte> {
    if exists i :: Holds(spans, i, at) then
      var i :| Holds(spans, i, at);
      Some(spans[i].data[at - spans[i].start])
    else None
  }

  lemma ByteAtIs(spans: seq<Span>, i: nat, at: nat)
    requires Ordered(spans) && Holds(spans, i, at)
    ensures ByteAt(spans, at) == Some(spans[i].data[at - spans[i].start])
  {
    forall j | Holds(spans, j, at) ensures j == i {
      Apart(spans, i, j);
    }
  }

  ghost predicate Covered(spans: seq<Span>, from: nat, end: nat) {
    forall at :: from <= at < end ==> ByteAt(spans, at).Some?
  }

  ghost function BytesOf(spans: seq<Span>, from: nat, len: nat): (r: seq<Byte>)
    requires Covered(spans, from, from + len)
    ensures |r| == len
    ensures forall i :: 0 <= i < len ==> Some(r[i]) == ByteAt(spans, from + i)
  {
    seq(len, i requires 0 <= i < len => ByteAt(spans, from + i).value)
  }

  function SpanBytes(spans: seq<Span>): nat {
    if spans == [] then 0 else |spans[0].data| + SpanBytes(spans[1..])
  }

  lemma {:induction false} SpanBytesSplit(a: seq<Span>, b: seq<Span>)
    ensures SpanBytes(a + b) == SpanBytes(a) + SpanBytes(b)
  {
    if a == [] {
      assert a + b == b;
    } else {
      assert (a + b)[1..] == a[1..] + b;
      SpanBytesSplit(a[1..], b);
    }
  }

  /** How many spans start before `at`; the rest start at or after it. */
  function StartingBefore(spans: seq<Span>, at: nat): (k: nat)
    requires Ordered(spans)
    ensures k <= |spans|
    ensures forall i :: 0 <= i < k ==> spans[i].start < at
    ensures forall i :: k <= i < |spans| ==> at <= spans[i].start
  {
    if spans == [] || at <= spans[0].start then 0 else 1 + StartingBefore(spans[1..], at)
  }

  /** Bytes an insert of `len` bytes at `offset` replaces: all of an existing span with
      exactly that range, or none. Any other overlap is refused. */
  function CheckOverlap(spans: seq<Span>, offset: nat, len: nat): (r: Option<nat>)
    requires Ordered(spans) && len > 0
    ensures r.Some? ==> r.value == 0 || r.value == len
    ensures r == Some(len) <==>
      exists i :: 0 <= i < |spans| && spans[i].start == offset && |spans[i].data| == len
    ensures r == Some(0) <==>
      forall i :: 0 <= i < |spans| ==> spans[i].End() <= offset || offset + len <= spans[i].start
  {
    var k := StartingBefore(spans, offset + 1);
    var at := StartingBefore(spans, offset);
    if k > 0 && spans[k - 1].start == offset && |spans[k - 1].data| == len then Some(len)
    else
      var before := k > 0 && spans[k - 1].End() > offset;
      var after := at < |spans| && spans[at].start < offset + len;
      OverlapFacts(spans, offset, len, k, at);
      if before || after then None else Some(0)
  }

  /** Looking at the last span that starts at or before the offset and at the first one
      that starts at or after it is enough. */
  lemma OverlapFacts(spans: seq<Span>, offset: nat, len: nat, k: nat, at: nat)
    requires Ordered(spans) && len > 0
    requires k == StartingBefore(spans, offset + 1) && at == StartingBefore(spans, offset)
    ensures k > 0 && spans[k - 1].End() > offset ==>
      exists i :: 0 <= i < |spans| && spans[i].End() > offset && spans[i].start < offset + len
    ensures at < |spans| && spans[at].start < offset + len ==>
      exists i :: 0 <= i < |spans| && spans[i].End() > offset && spans[i].start < offset + len
    ensures
      (k > 0 && spans[k - 1].End() > offset)
      || (at < |spans| && spans[at].start < offset + len)
      || forall i :: 0 <= i < |spans| ==> spans[i].End() <= offset || offset + len <= spans[i].start
    ensures forall i :: 0 <= i < |spans| && spans[i].start == offset ==> i == k - 1
  {
    if at < |spans| && spans[at].start < offset + len {
      assert spans[at].End() > offset;
    }
    forall i | 0 <= i < |spans| && spans[i].start == offset ensures i == k - 1 {
      assert i < k;
      Apart(spans, i, k - 1);
    }
    if !(k > 0 && spans[k - 1].End() > offset) && !(at < |spans| && spans[at].start < offset + len) {
      forall i | 0 <= i < |spans|
        ensures spans[i].End() <= offset || offset + len <= spans[i].start
      {
        if i < k - 1 {
          assert spans[i].End() <= spans[k - 1].start;
        } else if i >= at {
          if i > at { assert spans[at].End() <= spans[i].start; }
        }
      }
    }
  }

  /** Insert a span at its start offset, replacing one that starts there. */
  function Insert(spans: seq<Span>, s: Span): (r: seq<Span>)
    requires Ordered(spans)
  {
    var k := StartingBefore(spans, s.start);
    spans[..k] + [s] + spans[(if ReplacesAt(spans, s.start) then k + 1 else k)..]
  }

  predicate ReplacesAt(spans: seq<Span>, start: nat)
    requires Ordered(spans)
  {
    var k := StartingBefore(spans, start);
    k < |spans| && spans[k].start == start
  }

  /** An insert the overlap check lets through keeps the spans in order and apart, and adds
      up: the bytes grow by its length less what it replaced, and the count grows exactly
      when it replaced nothing. */
  lemma InsertFits(spans: seq<Span>, s: Span)
    requires Ordered(spans) && s.data != []
    requires CheckOverlap(spans, s.start, |s.data|).Some?
    ensures Ordered(Insert(spans, s))
    ensures SpanBytes(Insert(spans, s)) + CheckOverlap(spans, s.start, |s.data|).value
      == SpanBytes(spans) + |s.data|
    ensures ReplacesAt(spans, s.start) <==> CheckOverlap(spans, s.start, |s.data|).value > 0
    ensures |Insert(spans, s)| == |spans| + if ReplacesAt(spans, s.start) then 0 else 1
  {
    var k := StartingBefore(spans, s.start);
    var k' := if ReplacesAt(spans, s.start) then k + 1 else k;
    InsertPlace(spans, s);
    InsertOrdered(spans, s, k, k');
    InsertSums(spans, s, k, k');
  }

  /** It changes exactly the bytes it carries. */
  lemma InsertOverlays(spans: seq<Span>, s: Span)
    requires Ordered(spans) && s.data != []
    requires CheckOverlap(spans, s.start, |s.data|).Some?
    ensures forall at: nat :: ByteAt(Insert(spans, s), at) == Overlaid(spans, s, at)
  {
    hide ByteAt, CheckOverlap, Overlaid;
    var k := StartingBefore(spans, s.start);
    var k' := if ReplacesAt(spans, s.start) then k + 1 else k;
    InsertPlace(spans, s);
    InsertOrdered(spans, s, k, k');
    InsertBytes(spans, s, k, k');
  }

  /** The byte at an offset once `s` lies over the spans. */
  ghost function Overlaid(spans: seq<Span>, s: Span, at: nat): Option<Byte> {
    if s.start <= at < s.End() then Some(s.data[at - s.start]) else ByteAt(spans, at)
  }

  /** Where an insert lands: what is before ends by its start, what is after starts at its
      end or later, and what it replaces has its range. */
  lemma InsertPlace(spans: seq<Span>, s: Span)
    requires Ordered(spans) && s.data != []
    requires CheckOverlap(spans, s.start, |s.data|).Some?
    ensures
      var k, rep := StartingBefore(spans, s.start), ReplacesAt(spans, s.start);
      && (rep <==> CheckOverlap(spans, s.start, |s.data|) == Some(|s.data|))
      && (rep ==> |spans[k].data| == |s.data|)
      && (forall i :: 0 <= i < k ==> spans[i].End() <= s.start)
      && (forall i :: (if rep then k + 1 else k) <= i < |spans| ==> s.End() <= spans[i].start)
  {
    var k, rep := StartingBefore(spans, s.start), ReplacesAt(spans, s.start);
    if rep {
      assert spans[k].End() > s.start && spans[k].start < s.End();
      assert CheckOverlap(spans, s.start, |s.data|) != Some(0);
      var i :| 0 <= i < |spans| && spans[i].start == s.start && |spans[i].data| == |s.data|;
      assert i == k by {
        Apart(spans, i, k);
      }
      forall i | 0 <= i < k ensures spans[i].End() <= s.start {
        assert spans[i].End() <= spans[k].start;
      }
      forall i | k + 1 <= i < |spans| ensures s.End() <= spans[i].start {
        assert spans[k].End() <= spans[i].start;
      }
    } else {
      assert CheckOverlap(spans, s.start, |s.data|) != Some(|s.data|);
    }
  }

  lemma InsertSums(spans: seq<Span>, s: Span, k: nat, k': nat)
    requires k <= k' <= |spans| && k' <= k + 1
    ensures SpanBytes(spans[..k] + [s] + spans[k'..])
      + (if k' == k then 0 else |spans[k].data|) == SpanBytes(spans) + |s.data|
  {
    var mid := spans[k..k'];
    assert spans == spans[..k] + mid + spans[k'..];
    SpanBytesSplit(spans[..k] + mid, spans[k'..]);
    SpanBytesSplit(spans[..k], mid);
    SpanBytesSplit(spans[..k] + [s], spans[k'..]);
    SpanBytesSplit(spans[..k], [s]);
    if k < k' {
      assert mid == [spans[k]];
      assert SpanBytes(mid) == |spans[k].data| + SpanBytes(mid[1..]);
    }
    assert SpanBytes([s]) == |s.data| + SpanBytes([s][1..]);
  }

  lemma InsertOrdered(spans: seq<Span>, s: Span, k: nat, k': nat)
    requires Ordered(spans) && s.data != [] && k <= k' <= |spans|
    requires forall i :: 0 <= i < k ==> spans[i].End() <= s.start
    requires forall i :: k' <= i < |spans| ==> s.End() <= spans[i].start
    ensures Ordered(spans[..k] + [s] + spans[k'..])
  {
    var r := spans[..k] + [s] + spans[k'..];
    forall i, j | 0 <= i < j < |r| ensures r[i].End() <= r[j].start {
      if i < k && j > k {
        assert r[j] == spans[j - k - 1 + k'];
      } else if i > k {
        assert r[i] == spans[i - k - 1 + k'] && r[j] == spans[j - k - 1 + k'];
      }
    }
  }

  lemma InsertBytes(spans: seq<Span>, s: Span, k: nat, k': nat)
    requires Ordered(spans) && s.data != [] && k <= k' <= |spans|
    requires Ordered(spans[..k] + [s] + spans[k'..])
    requires forall i :: k <= i < k' ==> spans[i].start == s.start && spans[i].End() == s.End()
    ensures forall at: nat ::
      ByteAt(spans[..k] + [s] + spans[k'..], at) == Overlaid(spans, s, at)
  {
    hide ByteAt, Ordered;
    var r := spans[..k] + [s] + spans[k'..];
    forall at: nat ensures ByteAt(r, at) == Overlaid(spans, s, at) {
      if s.start <= at < s.End() {
        assert Holds(r, k, at);
        ByteAtIs(r, k, at);
      } else if i :| Holds(spans, i, at) {
        ByteAtIs(spans, i, at);
        var j := if i < k then i else i - k' + k + 1;
        assert r[j] == spans[i];
        assert Holds(r, j, at);
        ByteAtIs(r, j, at);
      } else {
        NoSpanHolds(spans, s, k, k', at);
        NoByteAt(r, at);
        NoByteAt(spans, at);
      }
    }
  }

  lemma NoSpanHolds(spans: seq<Span>, s: Span, k: nat, k': nat, at: nat)
    requires k <= k' <= |spans| && !(s.start <= at < s.End())
    requires forall i :: !Holds(spans, i, at)
    ensures forall j :: !Holds(spans[..k] + [s] + spans[k'..], j, at)
  {
    var r := spans[..k] + [s] + spans[k'..];
    forall j ensures !Holds(r, j, at) {
      if 0 <= j < |r| && j != k {
        var i := if j < k then j else j - k - 1 + k';
        assert r[j] == spans[i];
        assert !Holds(spans, i, at);
      }
    }
  }

  lemma NoByteAt(spans: seq<Span>, at: nat)
    requires forall i :: !Holds(spans, i, at)
    ensures ByteAt(spans, at) == None
  {
  }

  function PieceBytes(pieces: seq<Piece>): seq<Byte>
    requires forall p :: p in pieces ==> p.from + p.n <= |p.data|
  {
    if pieces == [] then []
    else PieceBytes(pieces[..|pieces| - 1]) + LastBytes(pieces)
  }

  function LastBytes(pieces: seq<Piece>): seq<Byte>
    requires pieces != []
    requires forall p :: p in pieces ==> p.from + p.n <= |p.data|
  {
    var p := pieces[|pieces| - 1];
    p.data[p.from..p.from + p.n]
  }

  /** `out` holds the bytes from `offset` up to `at`. */
  ghost predicate Gathered(spans: seq<Span>, offset: nat, at: nat, out: seq<Piece>) {
    && offset <= at
    && Covered(spans, offset, at)
    && (forall p :: p in out ==> p.from + p.n <= |p.data|)
    && PieceBytes(out) == BytesOf(spans, offset, at - offset)
  }

  lemma GatherMore(spans: seq<Span>, i: nat, offset: nat, at: nat, n: nat, out: seq<Piece>)
    requires Ordered(spans) && Gathered(spans, offset, at, out)
    requires i < |spans| && spans[i].start <= at && at + n <= spans[i].End()
    ensures Gathered(spans, offset, at + n,
                     out + [Piece(spans[i].data, at - spans[i].start, n)])
  {
    var p := Piece(spans[i].data, at - spans[i].start, n);
    var more := out + [p];
    assert more[..|more| - 1] == out;
    forall o: nat | at <= o < at + n ensures ByteAt(spans, o) == Some(p.data[o - spans[i].start]) {
      assert Holds(spans, i, o);
      ByteAtIs(spans, i, o);
    }
    assert Covered(spans, offset, at + n);
    assert PieceBytes(more) == PieceBytes(out) + p.data[p.from..p.from + p.n];
    assert PieceBytes(more) == BytesOf(spans, offset, at + n - offset);
  }

  /** The pieces of spans that cover `len` bytes from `offset` without a gap: found exactly
      when every one of the bytes is covered, and then they are those bytes. */
  method Pieces(spans: seq<Span>, offset: nat, len: nat) returns (r: Option<seq<Piece>>)
    requires Ordered(spans)
    ensures r.Some? <==> len > 0 && Covered(spans, offset, offset + len)
    ensures r.Some? ==> Gathered(spans, offset, offset + len, r.value)
  {
    var end := offset + len;
    var at := offset;
    var out: seq<Piece> := [];
    var i := StartingBefore(spans, offset + 1);
    if i == 0 {
      NothingAt(spans, 0, offset);
      return None;
    }
    i := i - 1;
    forall j | 0 <= j < i ensures spans[j].End() <= at {
      assert spans[j].End() <= spans[i].start;
    }
    while i < |spans| && spans[i].start < end
      invariant 0 <= i <= |spans| && offset <= at <= end
      invariant Gathered(spans, offset, at, out)
      invariant forall j :: 0 <= j < i ==> spans[j].End() <= at
      decreases |spans| - i
    {
      if spans[i].End() > at {
        if spans[i].start > at {
          NothingAt(spans, i, at);
          return None;
        }
        var n := Min(spans[i].End(), end) - at;
        GatherMore(spans, i, offset, at, n, out);
        out := out + [Piece(spans[i].data, at - spans[i].start, n)];
        at := at + n;
        if at >= end {
          break;
        }
      }
      i := i + 1;
    }
    if at >= end && len > 0 {
      return Some(out);
    }
    if at < end {
      NothingAt(spans, i, at);
    }
    return None;
  }

  /** A gap: the spans before `i` end by `at` and those from `i` on start after it. */
  lemma NothingAt(spans: seq<Span>, i: nat, at: nat)
    requires Ordered(spans) && i <= |spans|
    requires forall j :: 0 <= j < i ==> spans[j].End() <= at
    requires i < |spans| ==> spans[i].start > at
    ensures ByteAt(spans, at) == None
  {
    forall j ensures !Holds(spans, j, at) {
      if i < j < |spans| {
        assert spans[i].End() <= spans[j].start;
      }
    }
  }
}
