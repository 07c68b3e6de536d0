/** What ends a run of the reader: the time-out of a read, its failure, or the limit on frames. */
module BeastEvents {
  import opened Common
  import opened Beast
  import opened BeastReader
  import opened BeastProps
  import opened BeastReads
  import opened BeastFragments
  import opened BeastCuts

  ghost predicate AllData(events: seq<ReadEvent>) {
    forall i :: 0 <= i < |events| ==> events[i].Data?
  }

  lemma RestAllData(events: seq<ReadEvent>, n: nat)
    requires AllData(events) && |events| > 0 && n <= |events[0].bytes|
    ensures AllData(Rest(events, n))
  {
  }

  lemma RestConcat(events: seq<ReadEvent>, more: seq<ReadEvent>, n: nat)
    requires |events| > 0 && events[0].Data? && n <= |events[0].bytes|
    ensures (events + more)[0] == events[0]
    ensures Rest(events + more, n) == Rest(events, n) + more
  {
    assert (events + more)[1..] == events[1..] + more;
    if n < |events[0].bytes| {
      assert [Data(events[0].bytes[n..])] + (events[1..] + more) == [Data(events[0].bytes[n..])] + events[1..] + more;
    }
  }

  // ---- one turn, by what the reader does next ----

  /** A run goes on behind its first read with another buffer, or ends with it. */
  lemma FirstTurn(buf: seq<byte>, offset: nat, frames: seq<Frame>, events: seq<ReadEvent>, max: nat)
    returns (on: bool, buf': seq<byte>, offset': nat, frames': seq<Frame>, n: nat)
    requires |buf| == BUFFER && offset <= BUFFER && |events| > 0 && events[0].Data?
    ensures n <= |events[0].bytes| && |buf'| == BUFFER && offset' <= BUFFER
    ensures on ==> n > 0 && |frames'| < max
    ensures forall more: seq<ReadEvent> ::
              ReadAll(buf, offset, frames, events + more, max)
              == if on then ReadAll(buf', offset', frames', Rest(events, n) + more, max) else Ok(frames')
    ensures !on && |frames| < max && |frames'| < max ==> n == 0
  {
    hide ScanBuffer, Filled, Shifted, Rest;
    n := Min(|events[0].bytes|, BUFFER - offset);
    on, buf', offset', frames' := false, buf, 0, frames;
    if n > 0 {
      var filled := Filled(buf, offset, events[0].bytes[..n]);
      var s := ScanBuffer(filled, offset + n, 0, Scanned(frames, 0), max);
      on, frames' := |s.frames| < max, s.frames;
      if s.consumed < offset + n {
        buf', offset' := Shifted(filled, s.consumed, offset + n), offset + n - s.consumed;
      } else {
        buf' := filled;
      }
    }
    forall more: seq<ReadEvent>
      ensures ReadAll(buf, offset, frames, events + more, max)
              == if on then ReadAll(buf', offset', frames', Rest(events, n) + more, max) else Ok(frames')
    {
      RestConcat(events, more, n);
    }
  }

  lemma NoMore(events: seq<ReadEvent>)
    ensures events + [] == events
  {
  }

  /** Bytes alone never make a run fail. */
  lemma {:induction false} DataNeverFails(buf: seq<byte>, offset: nat, frames: seq<Frame>, events: seq<ReadEvent>,
                                          max: nat)
    requires |buf| == BUFFER && offset <= BUFFER && AllData(events)
    ensures ReadAll(buf, offset, frames, events, max).Ok?
    decreases Volume(events) + |events|
  {
    hide ReadAll, Rest;
    if |events| == 0 {
      NoReads(buf, offset, frames, max);
    } else {
      var on, buf', offset', frames', n := FirstTurn(buf, offset, frames, events, max);
      NoMore(events);
      if on {
        RestAllData(events, n);
        RestShorter(events, n);
        NoMore(Rest(events, n));
        DataNeverFails(buf', offset', frames', Rest(events, n), max);
      }
    }
  }

  lemma RestShorter(events: seq<ReadEvent>, n: nat)
    requires |events| > 0 && events[0].Data? && 0 < n <= |events[0].bytes|
    ensures Volume(Rest(events, n)) + |Rest(events, n)| < Volume(events) + |events|
  {
  }

  /** Bytes that do not fit into the buffer stay in the stream: the next read brings them. */
  lemma SurplusStays(buf: seq<byte>, offset: nat, frames: seq<Frame>, a: seq<byte>, b: seq<byte>,
                     later: seq<ReadEvent>, max: nat)
    requires |buf| == BUFFER && offset + |a| == BUFFER && |a| > 0 && |b| > 0
    ensures ReadAll(buf, offset, frames, [Data(a + b)] + later, max)
            == ReadAll(buf, offset, frames, [Data(a)] + ([Data(b)] + later), max)
  {
    hide ScanBuffer, Filled, Shifted;
    var whole, cut := [Data(a + b)] + later, [Data(a)] + ([Data(b)] + later);
    assert whole[1..] == later && cut[1..] == [Data(b)] + later;
    assert (a + b)[..|a|] == a && (a + b)[|a|..] == b && a[..|a|] == a;
    assert Rest(whole, |a|) == [Data(b)] + later == Rest(cut, |a|);
  }

  // ---- time-outs ----

  lemma TimeOutNow(buf: seq<byte>, offset: nat, frames: seq<Frame>, later: seq<ReadEvent>, max: nat)
    requires |buf| == BUFFER && offset <= BUFFER
    ensures ReadAll(buf, offset, frames, [WouldBlock] + later, max) == Ok(frames)
  {
  }

  /** A read that times out ends the run with the frames of the reads before it, whatever would have come after. */
  lemma {:induction false} TimeOutEnds(buf: seq<byte>, offset: nat, frames: seq<Frame>, events: seq<ReadEvent>,
                                       later: seq<ReadEvent>, max: nat)
    requires |buf| == BUFFER && offset <= BUFFER && AllData(events)
    ensures ReadAll(buf, offset, frames, events + ([WouldBlock] + later), max)
            == ReadAll(buf, offset, frames, events, max)
    decreases Volume(events) + |events|
  {
    hide ReadAll, Rest;
    var tail := [WouldBlock] + later;
    if |events| == 0 {
      assert events + tail == tail;
      TimeOutNow(buf, offset, frames, later, max);
      NoReads(buf, offset, frames, max);
    } else {
      var on, buf', offset', frames', n := FirstTurn(buf, offset, frames, events, max);
      NoMore(events);
      if on {
        RestAllData(events, n);
        RestShorter(events, n);
        NoMore(Rest(events, n));
        TimeOutEnds(buf', offset', frames', Rest(events, n), later, max);
      }
    }
  }

  // ---- the limit ----

  /** A run that has reached the limit ends there, whatever would have come after. */
  lemma {:induction false} LimitEnds(buf: seq<byte>, offset: nat, frames: seq<Frame>, events: seq<ReadEvent>,
                                     more: seq<ReadEvent>, max: nat)
    requires |buf| == BUFFER && offset <= BUFFER && AllData(events) && |frames| < max
    requires ReadAll(buf, offset, frames, events, max).Ok?
    requires |ReadAll(buf, offset, frames, events, max).frames| >= max
    ensures ReadAll(buf, offset, frames, events + more, max) == ReadAll(buf, offset, frames, events, max)
    decreases Volume(events) + |events|
  {
    hide ReadAll, Rest;
    if |events| == 0 {
      NoReads(buf, offset, frames, max);
    } else {
      var on, buf', offset', frames', n := FirstTurn(buf, offset, frames, events, max);
      NoMore(events);
      if on {
        RestAllData(events, n);
        RestShorter(events, n);
        NoMore(Rest(events, n));
        LimitEnds(buf', offset', frames', Rest(events, n), more, max);
      }
    }
  }

  // ---- failures ----

  lemma FailureNow(buf: seq<byte>, offset: nat, frames: seq<Frame>, later: seq<ReadEvent>, max: nat)
    requires |buf| == BUFFER && offset <= BUFFER
    ensures ReadAll(buf, offset, frames, [Failed] + later, max) == Err
  {
  }

  /** What comes behind the reads either is never looked at, or is met by a failure's error. */
  lemma {:induction false} EndedOrFails(buf: seq<byte>, offset: nat, frames: seq<Frame>, events: seq<ReadEvent>,
                                        max: nat)
    returns (ended: bool)
    requires |buf| == BUFFER && offset <= BUFFER && AllData(events)
    ensures ended ==> forall more: seq<ReadEvent> ::
              ReadAll(buf, offset, frames, events + more, max) == ReadAll(buf, offset, frames, events, max)
    ensures !ended ==> forall later: seq<ReadEvent> {:trigger [Failed] + later} ::
              ReadAll(buf, offset, frames, events + ([Failed] + later), max) == Err
    decreases Volume(events) + |events|
  {
    hide ReadAll, Rest;
    if |events| == 0 {
      ended := false;
      forall later: seq<ReadEvent> {:trigger [Failed] + later}
        ensures ReadAll(buf, offset, frames, events + ([Failed] + later), max) == Err
      {
        assert events + ([Failed] + later) == [Failed] + later;
        FailureNow(buf, offset, frames, later, max);
      }
    } else {
      var on, buf', offset', frames', n := FirstTurn(buf, offset, frames, events, max);
      NoMore(events);
      ended := true;
      if on {
        RestAllData(events, n);
        RestShorter(events, n);
        NoMore(Rest(events, n));
        ended := EndedOrFails(buf', offset', frames', Rest(events, n), max);
      }
    }
  }

  /** A failing read makes the run fail, with all its frames lost, if and only if the run would have gone on reading. */
  lemma FailureReported(buf: seq<byte>, offset: nat, frames: seq<Frame>, events: seq<ReadEvent>,
                        later: seq<ReadEvent>, max: nat)
    requires |buf| == BUFFER && offset <= BUFFER && AllData(events)
    ensures var r := ReadAll(buf, offset, frames, events, max);
            var failed := ReadAll(buf, offset, frames, events + ([Failed] + later), max);
            && (failed == Err || failed == r)
            && (failed == Err <==> exists more: seq<ReadEvent> :: ReadAll(buf, offset, frames, events + more, max) != r)
  {
    hide ReadAll;
    DataNeverFails(buf, offset, frames, events, max);
    var ended := EndedOrFails(buf, offset, frames, events, max);
  }

  // ---- printed streams ----

  lemma {:induction false} ReadsAreData(chunks: seq<seq<Sent>>)
    ensures AllData(Reads(chunks))
  {
    hide Stream;
    if |chunks| > 0 {
      ReadsAreData(chunks[1..]);
    }
  }

  lemma {:induction false} CutIsData(bytes: seq<byte>, sizes: seq<nat>)
    requires Sum(sizes) == |bytes|
    ensures AllData(Cut(bytes, sizes))
    decreases |sizes|
  {
    if |sizes| > 0 {
      CutIsData(bytes[sizes[0]..], sizes[1..]);
    }
  }

  /** Whole-frame reads that end in a time-out bring what they bring without it. */
  lemma WholeFrameReadsTimedOut(chunks: seq<seq<Sent>>, later: seq<ReadEvent>, max: nat)
    requires ReadsFit(0, chunks) && max > |AllFrames(chunks)|
    ensures ReadAll(ZeroBuffer(), 0, [], Reads(chunks) + ([WouldBlock] + later), max) == Ok(AllFrames(chunks))
            <==> Faithful(ZeroBuffer(), [], chunks)
  {
    hide ReadAll, ReadsFit, Faithful, Reads, AllFrames;
    ReadsAreData(chunks);
    TimeOutEnds(ZeroBuffer(), 0, [], Reads(chunks), later, max);
    WholeFrameReads(chunks, max);
  }

  /** And so does a stream that is cut anywhere. */
  lemma CutStreamTimedOut(xs: seq<Sent>, sizes: seq<nat>, later: seq<ReadEvent>, max: nat)
    requires AllMessages(xs) && AllUnambiguous(xs) && max > |xs|
    requires SizesFit(sizes) && Sum(sizes) == |Stream(xs)|
    ensures CutsFit([], xs, 0, sizes)
    ensures ReadAll(ZeroBuffer(), 0, [], Cut(Stream(xs), sizes) + ([WouldBlock] + later), max) == Ok(Frames(xs))
            <==> GoodRun(ZeroBuffer(), [], xs, 0, sizes)
  {
    hide ReadAll, GoodRun, Cut, Frames, Stream, CutsFit;
    CutIsData(Stream(xs), sizes);
    TimeOutEnds(ZeroBuffer(), 0, [], Cut(Stream(xs), sizes), later, max);
    CutStream(xs, sizes, max);
  }

  // ---- failures of printed streams ----

  lemma {:induction false} ReadsAppend(chunks: seq<seq<Sent>>, xs: seq<Sent>)
    ensures Reads(chunks + [xs]) == Reads(chunks) + [Data(Stream(xs))]
    ensures AllFrames(chunks + [xs]) == AllFrames(chunks) + Frames(xs)
  {
    hide Stream, Frames;
    if |chunks| == 0 {
      assert chunks + [xs] == [xs] && [xs][1..] == [];
    } else {
      assert (chunks + [xs])[0] == chunks[0] && (chunks + [xs])[1..] == chunks[1..] + [xs];
      ReadsAppend(chunks[1..], xs);
    }
  }

  lemma {:induction false} AppendFits(kept: nat, chunks: seq<seq<Sent>>, x: Sent)
    requires ReadsFit(kept, chunks) && IsMessage(x.data) && kept <= 37
    ensures ReadsFit(kept, chunks + [[x]])
    decreases |chunks|
  {
    hide Encoded;
    OneInStream(x);
    WireShort(x);
    if |chunks| == 0 {
      assert chunks + [[x]] == [[x]] && [[x]][1..] == [] && [x][|[x]| - 1] == x;
    } else {
      var last := chunks[0][|chunks[0]| - 1];
      WireShort(last);
      assert (chunks + [[x]])[0] == chunks[0] && (chunks + [[x]])[1..] == chunks[1..] + [[x]];
      AppendFits(|Kept(last)|, chunks[1..], x);
    }
  }

  /** Some frame to send. */
  function AnyFrame(): (x: Sent)
    ensures IsMessage(x.data) && Unambiguous(Wire(x))
  {
    LongWire();
    Sent(LONG_PAYLOAD, 0, 0)
  }

  /** A failure behind faithful reads takes their frames with it, unless they are as many as were asked for. */
  lemma FaithfulReadsFailed(chunks: seq<seq<Sent>>, later: seq<ReadEvent>, max: nat)
    requires ReadsFit(0, chunks) && Faithful(ZeroBuffer(), [], chunks) && max >= |AllFrames(chunks)| && max > 0
    ensures ReadAll(ZeroBuffer(), 0, [], Reads(chunks) + ([Failed] + later), max)
            == if max > |AllFrames(chunks)| then Err else Ok(AllFrames(chunks))
  {
    hide ReadAll, ReadsFit, Faithful, Reads, AllFrames, AnyFrame;
    ReadsAreData(chunks);
    WholeFrameReads(chunks, max);
    if max > |AllFrames(chunks)| {
      var x := AnyFrame();
      AppendFits(0, chunks, x);
      ReadsAppend(chunks, [x]);
      ReadsAtLeast(ZeroBuffer(), 0, [], chunks + [[x]], max, 0);
      FailureReported(ZeroBuffer(), 0, [], Reads(chunks), later, max);
    } else {
      LimitEnds(ZeroBuffer(), 0, [], Reads(chunks), [Failed] + later, max);
    }
  }

  lemma {:induction false} StreamAppend(xs: seq<Sent>, x: Sent)
    ensures Stream(xs + [x]) == Stream(xs) + Wire(x)
  {
    hide Encoded;
    if |xs| == 0 {
      assert xs + [x] == [x];
      OneInStream(x);
    } else {
      assert (xs + [x])[0] == xs[0] && (xs + [x])[1..] == xs[1..] + [x];
      StreamAppend(xs[1..], x);
    }
  }

  lemma {:induction false} CutAppend(bytes: seq<byte>, sizes: seq<nat>, last: seq<byte>)
    requires Sum(sizes) == |bytes|
    ensures Sum(sizes + [|last|]) == |bytes + last|
    ensures Cut(bytes + last, sizes + [|last|]) == Cut(bytes, sizes) + [Data(last)]
    decreases |sizes|
  {
    if |sizes| == 0 {
      assert sizes + [|last|] == [|last|] && [|last|][1..] == [] && bytes + last == last;
      assert last[..|last|] == last && last[|last|..] == [];
    } else {
      assert (sizes + [|last|])[0] == sizes[0] && (sizes + [|last|])[1..] == sizes[1..] + [|last|];
      assert (bytes + last)[..sizes[0]] == bytes[..sizes[0]];
      assert (bytes + last)[sizes[0]..] == bytes[sizes[0]..] + last;
      CutAppend(bytes[sizes[0]..], sizes[1..], last);
    }
  }

  /** The same behind a stream that is cut anywhere. */
  lemma CutStreamFailed(xs: seq<Sent>, sizes: seq<nat>, later: seq<ReadEvent>, max: nat)
    requires AllMessages(xs) && AllUnambiguous(xs) && max >= |xs| && max > 0
    requires SizesFit(sizes) && Sum(sizes) == |Stream(xs)|
    requires CutsFit([], xs, 0, sizes) && GoodRun(ZeroBuffer(), [], xs, 0, sizes)
    ensures ReadAll(ZeroBuffer(), 0, [], Cut(Stream(xs), sizes) + ([Failed] + later), max)
            == if max > |xs| then Err else Ok(Frames(xs))
  {
    hide ReadAll, GoodRun, Cut, Stream, CutsFit, Frames, AnyFrame, Unambiguous;
    var events := Cut(Stream(xs), sizes);
    CutIsData(Stream(xs), sizes);
    CutStream(xs, sizes, max);
    if max > |xs| {
      var x := AnyFrame();
      WireShort(x);
      StreamAppend(xs, x);
      CutAppend(Stream(xs), sizes, Wire(x));
      var all, cuts := xs + [x], sizes + [|Wire(x)|];
      StartFits(all, cuts);
      AheadStart(all);
      RunAtLeast(ZeroBuffer(), [], all, 0, [], cuts, max);
      FailureReported(ZeroBuffer(), 0, [], events, later, max);
    } else {
      LimitEnds(ZeroBuffer(), 0, [], events, [Failed] + later, max);
    }
  }

  lemma AheadStart(xs: seq<Sent>)
    ensures Ahead([], xs)[0..] == Stream(xs) && Ahead([], xs)[..0] == []
  {
    hide Stream;
  }
}
