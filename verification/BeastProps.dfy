/** What the stream reader returns, for any buffer and for printed streams. */
module BeastProps {
  import opened Common
  import opened Beast
  import opened BeastReader

  // ---- the scan reads every marker, and nothing else ----

  /** The frames that start at the markers from `i` up to `j`. */
  function Marked(buf: seq<byte>, i: nat, j: nat): seq<Frame>
    requires i <= j <= |buf|
    decreases j - i
  {
    if i == j then []
    else
      var rest := Marked(buf, i + 1, j);
      if buf[i] == ESC && ParseBeastFrame(buf[i..]).Some? then [ParseBeastFrame(buf[i..]).value] + rest else rest
  }

  function Take(s: seq<Frame>, n: nat): seq<Frame> {
    if |s| <= n then s else s[..n]
  }

  lemma {:induction false} MarkedSplit(buf: seq<byte>, i: nat, j: nat, k: nat)
    requires i <= j <= k <= |buf|
    ensures Marked(buf, i, k) == Marked(buf, i, j) + Marked(buf, j, k)
    decreases j - i
  {
    hide ParseBeastFrame;
    if i < j {
      MarkedSplit(buf, i + 1, j, k);
    }
  }

  lemma {:induction false} NothingMarked(buf: seq<byte>, i: nat, j: nat)
    requires i <= j <= |buf|
    requires forall p :: i <= p < j ==> buf[p] != ESC || ParseBeastFrame(buf[p..]).None?
    ensures Marked(buf, i, j) == []
    decreases j - i
  {
    hide ParseBeastFrame;
    if i < j {
      NothingMarked(buf, i + 1, j);
    }
  }

  lemma MarkedSkips(buf: seq<byte>, total: nat, i: nat)
    requires i < total <= |buf| && buf[i] == ESC && ParseBeastFrame(buf[i..]).Some?
    ensures Marked(buf, i, total) ==
            [ParseBeastFrame(buf[i..]).value] + Marked(buf, NextMarker(buf, total, i + 1), total)
  {
    hide ParseBeastFrame;
    var next := NextMarker(buf, total, i + 1);
    NothingMarked(buf, i + 1, next);
    MarkedSplit(buf, i + 1, next, total);
  }

  /** The skipping scan loop returns the frames at all markers, up to the limit. */
  lemma {:induction false} ScanIsMarked(buf: seq<byte>, total: nat, i: nat, s: Scanned, max: nat)
    requires i <= total <= |buf| && s.consumed <= total && |s.frames| <= max
    ensures ScanBuffer(buf, total, i, s, max).frames == Take(s.frames + Marked(buf, i, total), max)
    decreases total - i
  {
    hide ParseBeastFrame, IsType;
    if i == total || |s.frames| >= max {
      assert Take(s.frames + Marked(buf, i, total), max) == s.frames;
    } else if buf[i] == ESC && ParseBeastFrame(buf[i..]).Some? {
      var next := NextMarker(buf, total, i + 1);
      var frame := ParseBeastFrame(buf[i..]).value;
      MarkedSkips(buf, total, i);
      ScanIsMarked(buf, total, next, Scanned(s.frames + [frame], next), max);
      assert s.frames + ([frame] + Marked(buf, next, total)) == s.frames + [frame] + Marked(buf, next, total);
    } else {
      ScanIsMarked(buf, total, i + 1, s, max);
    }
  }

  /** A marker parses exactly when a frame type follows it and the buffer does not end within nine bytes. */
  lemma MarkerParses(data: seq<byte>)
    requires |data| > 9 && data[0] == ESC
    ensures ParseBeastFrame(data).Some? <==> IsType(data[1])
  {
  }

  // ---- what a scan leaves behind ----

  ghost predicate NothingParses(buf: seq<byte>, i: nat, j: nat) {
    i <= j <= |buf| && forall p :: i <= p < j && buf[p] == ESC ==> ParseBeastFrame(buf[p..]).None?
  }

  lemma {:induction false} NothingScanned(buf: seq<byte>, total: nat, i: nat, s: Scanned, max: nat)
    requires i <= total <= |buf| && s.consumed <= total && NothingParses(buf, i, total)
    ensures ScanBuffer(buf, total, i, s, max) == s
    decreases total - i
  {
    hide ParseBeastFrame;
    if i < total && |s.frames| < max {
      NothingScanned(buf, total, i + 1, s, max);
    }
  }

  lemma {:induction false} NothingMarkedParses(buf: seq<byte>, i: nat, j: nat)
    requires i <= j <= |buf| && Marked(buf, i, j) == []
    ensures NothingParses(buf, i, j)
    decreases j - i
  {
    hide ParseBeastFrame;
    if i < j {
      NothingMarkedParses(buf, i + 1, j);
    }
  }

  /** A scan does not consume an 0x1a at which, and behind which, nothing parses. */
  lemma {:induction false} ConsumedBefore(buf: seq<byte>, total: nat, i: nat, s: Scanned, max: nat, e: nat)
    requires i <= e < total <= |buf| && s.consumed <= e && buf[e] == ESC && NothingParses(buf, e, total)
    ensures ScanBuffer(buf, total, i, s, max).consumed <= e
    decreases total - i
  {
    hide ParseBeastFrame;
    if |s.frames| < max {
      if i == e {
        NothingScanned(buf, total, i, s, max);
      } else if buf[i] == ESC && ParseBeastFrame(buf[i..]).Some? {
        var next := NextMarker(buf, total, i + 1);
        ConsumedBefore(buf, total, next, Scanned(s.frames + [ParseBeastFrame(buf[i..]).value], next), max, e);
      } else {
        ConsumedBefore(buf, total, i + 1, s, max, e);
      }
    }
  }

  /** Behind the bytes a scan has consumed, nothing parses. */
  lemma {:induction false} NothingBehind(buf: seq<byte>, total: nat, i: nat, s: Scanned, max: nat)
    requires s.consumed <= i <= total <= |buf| && NothingParses(buf, s.consumed, i)
    ensures var r := ScanBuffer(buf, total, i, s, max);
            |r.frames| < max ==> NothingParses(buf, r.consumed, total)
    decreases total - i
  {
    hide ParseBeastFrame;
    if i < total && |s.frames| < max {
      if buf[i] == ESC && ParseBeastFrame(buf[i..]).Some? {
        var next := NextMarker(buf, total, i + 1);
        NothingBehind(buf, total, next, Scanned(s.frames + [ParseBeastFrame(buf[i..]).value], next), max);
      } else {
        NothingBehind(buf, total, i + 1, s, max);
      }
    }
  }

  lemma {:induction false} ConsumedGrows(buf: seq<byte>, total: nat, i: nat, s: Scanned, max: nat)
    requires s.consumed <= i <= total <= |buf|
    ensures ScanBuffer(buf, total, i, s, max).consumed >= s.consumed
    decreases total - i
  {
    hide ParseBeastFrame;
    if i < total && |s.frames| < max {
      if buf[i] == ESC && ParseBeastFrame(buf[i..]).Some? {
        var next := NextMarker(buf, total, i + 1);
        ConsumedGrows(buf, total, next, Scanned(s.frames + [ParseBeastFrame(buf[i..]).value], next), max);
      } else {
        ConsumedGrows(buf, total, i + 1, s, max);
      }
    }
  }

  /** A scan consumes at least everything up to the first 0x1a behind any marker that parses. */
  lemma {:induction false} ConsumedAtLeast(buf: seq<byte>, total: nat, i: nat, s: Scanned, max: nat, f: nat)
    requires s.consumed <= i <= f < total <= |buf| && buf[f] == ESC && ParseBeastFrame(buf[f..]).Some?
    ensures var r := ScanBuffer(buf, total, i, s, max);
            |r.frames| < max ==> r.consumed >= NextMarker(buf, total, f + 1)
    decreases total - i
  {
    hide ParseBeastFrame;
    if |s.frames| < max {
      if buf[i] == ESC && ParseBeastFrame(buf[i..]).Some? {
        var next := NextMarker(buf, total, i + 1);
        var t := Scanned(s.frames + [ParseBeastFrame(buf[i..]).value], next);
        if i < f {
          ConsumedAtLeast(buf, total, next, t, max, f);
        } else {
          ConsumedGrows(buf, total, next, t, max);
        }
      } else {
        ConsumedAtLeast(buf, total, i + 1, s, max, f);
      }
    }
  }

  /** A scan consumes everything up to the first 0x1a behind the last marker that parses. */
  lemma {:induction false} ConsumedUpTo(buf: seq<byte>, total: nat, i: nat, s: Scanned, max: nat, f: nat)
    requires i <= f < total <= |buf| && s.consumed <= total
    requires buf[f] == ESC && ParseBeastFrame(buf[f..]).Some? && NothingParses(buf, f + 1, total)
    ensures var r := ScanBuffer(buf, total, i, s, max);
            |r.frames| < max ==> r.consumed == NextMarker(buf, total, f + 1)
    decreases total - i
  {
    hide ParseBeastFrame;
    if |s.frames| < max {
      if buf[i] == ESC && ParseBeastFrame(buf[i..]).Some? {
        var next := NextMarker(buf, total, i + 1);
        var t := Scanned(s.frames + [ParseBeastFrame(buf[i..]).value], next);
        if i < f {
          ConsumedUpTo(buf, total, next, t, max, f);
        } else {
          NothingScanned(buf, total, next, t, max);
        }
      } else {
        ConsumedUpTo(buf, total, i + 1, s, max, f);
      }
    }
  }

  // ---- one read ----

  /** One turn of the reader, when the read fits into the buffer. */
  lemma OneTurn(buf: seq<byte>, offset: nat, frames: seq<Frame>, w: seq<byte>, later: seq<ReadEvent>, max: nat)
    requires |buf| == BUFFER && |w| > 0 && offset + |w| <= BUFFER
    ensures var filled, total := Filled(buf, offset, w), offset + |w|;
            var s := ScanBuffer(filled, total, 0, Scanned(frames, 0), max);
            ReadAll(buf, offset, frames, [Data(w)] + later, max) ==
            if |s.frames| >= max then Ok(s.frames)
            else if s.consumed < total then
              ReadAll(Shifted(filled, s.consumed, total), total - s.consumed, s.frames, later, max)
            else ReadAll(filled, 0, s.frames, later, max)
  {
    hide ParseBeastFrame, ScanBuffer, Filled, Shifted;
    var events := [Data(w)] + later;
    assert w[..|w|] == w && events[1..] == later && Rest(events, |w|) == later;
  }

  /** Whatever one read brings, the reader returns the frames at its markers, in the zero-padded buffer. */
  lemma OneRead(bytes: seq<byte>, max: nat)
    requires 0 < |bytes| <= BUFFER
    ensures ReadAll(ZeroBuffer(), 0, [], [Data(bytes)], max) ==
            Ok(Take(Marked(Filled(ZeroBuffer(), 0, bytes), 0, |bytes|), max))
  {
    hide ParseBeastFrame, ScanBuffer, Marked, Shifted;
    var filled := Filled(ZeroBuffer(), 0, bytes);
    assert bytes[..|bytes|] == bytes;
    ScanIsMarked(filled, |bytes|, 0, Scanned([], 0), max);
    assert [] + Marked(filled, 0, |bytes|) == Marked(filled, 0, |bytes|);
    var events := [Data(bytes)];
    assert Rest(events, |bytes|) == [];
  }

  // ---- streams of printed frames ----

  /** A frame to send: payload, signal byte and timestamp. */
  datatype Sent = Sent(data: seq<byte>, rssi: byte, ts: int)

  function Wire(x: Sent): seq<byte> {
    Encoded(x.data, x.rssi, x.ts)
  }

  function Stream(xs: seq<Sent>): seq<byte> {
    if |xs| == 0 then [] else Wire(xs[0]) + Stream(xs[1..])
  }

  function Frames(xs: seq<Sent>): (fs: seq<Frame>)
    ensures |fs| == |xs|
  {
    if |xs| == 0 then [] else [FrameOf(xs[0].data, xs[0].rssi, xs[0].ts)] + Frames(xs[1..])
  }

  ghost predicate AllMessages(xs: seq<Sent>) {
    forall i :: 0 <= i < |xs| ==> IsMessage(xs[i].data)
  }

  /** No 0x1a after the first byte of the frame is followed by a frame type. */
  predicate Unambiguous(w: seq<byte>) {
    forall k :: 1 <= k < |w| - 1 && w[k] == ESC ==> !IsType(w[k + 1])
  }

  ghost predicate AllUnambiguous(xs: seq<Sent>) {
    forall i :: 0 <= i < |xs| ==> Unambiguous(Wire(xs[i]))
  }

  predicate EndsInMarker(w: seq<byte>) {
    |w| > 0 && w[|w| - 1] == ESC
  }

  /** The bytes of `w` stand at `i`. */
  ghost predicate BytesAt(buf: seq<byte>, i: nat, w: seq<byte>) {
    i + |w| <= |buf| && buf[i..i + |w|] == w
  }

  /** What follows the bytes of `w`, which stand at `i`, makes their last byte a marker. */
  ghost predicate CompletedAt(buf: seq<byte>, i: nat, w: seq<byte>) {
    EndsInMarker(w) && i + |w| < |buf| && IsType(buf[i + |w|])
  }

  lemma MarkerAt(buf: seq<byte>, p: nat)
    requires p < |buf| && buf[p] == ESC
    ensures ParseBeastFrame(buf[p..]).Some? ==> p + 1 < |buf| && IsType(buf[p + 1])
    ensures p + 9 < |buf| && IsType(buf[p + 1]) ==> ParseBeastFrame(buf[p..]).Some?
  {
    if p + 9 < |buf| {
      MarkerParses(buf[p..]);
    }
  }

  lemma MarkerOrNot(buf: seq<byte>, p: nat)
    requires p + 1 < |buf|
    ensures buf[p] == ESC && !IsType(buf[p + 1]) ==> ParseBeastFrame(buf[p..]).None?
  {
    hide ParseBeastFrame, IsType;
    if buf[p] == ESC {
      MarkerAt(buf, p);
    }
  }

  lemma ByteOf(buf: seq<byte>, i: nat, w: seq<byte>, k: nat)
    requires BytesAt(buf, i, w) && k < |w|
    ensures buf[i + k] == w[k]
  {
    assert buf[i..i + |w|][k] == buf[i + k];
  }

  /** Inside the bytes of an unambiguous frame, or of a part of it, nothing parses. */
  lemma InnerClean(buf: seq<byte>, i: nat, w: seq<byte>)
    requires |w| > 0 && BytesAt(buf, i, w) && Unambiguous(w) && !CompletedAt(buf, i, w)
    ensures NothingParses(buf, i + 1, i + |w|)
    ensures Marked(buf, i + 1, i + |w|) == []
  {
    hide ParseBeastFrame, Marked, IsType, BytesAt;
    BytesFit(buf, i, w);
    forall p | i + 1 <= p < i + |w| && buf[p] == ESC
      ensures ParseBeastFrame(buf[p..]).None?
    {
      ByteOf(buf, i, w, p - i);
      if p + 1 < i + |w| {
        ByteOf(buf, i, w, p - i + 1);
      }
      MarkerAt(buf, p);
    }
    NothingMarked(buf, i + 1, i + |w|);
  }

  lemma BytesFit(buf: seq<byte>, i: nat, w: seq<byte>)
    requires BytesAt(buf, i, w)
    ensures i + |w| <= |buf|
  {
  }

  lemma InnerMarker(buf: seq<byte>, i: nat, end: nat, p: nat)
    requires i < p < end <= |buf| && p + 9 < |buf| && buf[p] == ESC && IsType(buf[p + 1])
    ensures |Marked(buf, i + 1, end)| > 0
  {
    hide ParseBeastFrame, IsType;
    MarkerAt(buf, p);
    MarkedSplit(buf, i + 1, p, end);
    assert |Marked(buf, p, end)| > 0;
  }

  /** An ambiguous frame, and one whose last byte is completed to a marker, hold a marker that parses. */
  lemma InnerFound(buf: seq<byte>, i: nat, w: seq<byte>)
    requires |w| > 1 && BytesAt(buf, i, w) && i + |w| + 8 < |buf|
    requires !Unambiguous(w) || CompletedAt(buf, i, w)
    ensures |Marked(buf, i + 1, i + |w|)| > 0
  {
    hide IsType, Marked, BytesAt;
    if !Unambiguous(w) {
      var k :| 1 <= k < |w| - 1 && w[k] == ESC && IsType(w[k + 1]);
      ByteOf(buf, i, w, k);
      ByteOf(buf, i, w, k + 1);
      InnerMarker(buf, i, i + |w|, i + k);
    } else {
      ByteOf(buf, i, w, |w| - 1);
      InnerMarker(buf, i, i + |w|, i + |w| - 1);
    }
  }

  lemma FrameMarked(buf: seq<byte>, i: nat, x: Sent)
    requires IsMessage(x.data) && BytesAt(buf, i, Wire(x))
    ensures var inner := Marked(buf, i + 1, i + |Wire(x)|);
            Marked(buf, i, i + |Wire(x)|) == [FrameOf(x.data, x.rssi, x.ts)] + inner
    ensures buf[i] == ESC && ParseBeastFrame(buf[i..]) == Some(FrameOf(x.data, x.rssi, x.ts))
  {
    hide ParseBeastFrame, IsType, Encoded, Marked, BytesAt, FrameOf;
    var w := Wire(x);
    WireStart(x);
    BytesFit(buf, i, w);
    ByteOf(buf, i, w, 0);
    BytesSplit(buf, i, w);
    ParseEncoded(x.data, x.rssi, x.ts, buf[i + |w|..]);
    MarkedHead(buf, i, i + |w|);
  }

  lemma BytesSplit(buf: seq<byte>, i: nat, w: seq<byte>)
    requires BytesAt(buf, i, w)
    ensures i + |w| <= |buf| && buf[i..] == w + buf[i + |w|..]
  {
    assert buf[i..] == buf[i..i + |w|] + buf[i + |w|..];
  }

  lemma MarkedHead(buf: seq<byte>, i: nat, j: nat)
    requires i < j <= |buf| && buf[i] == ESC && ParseBeastFrame(buf[i..]).Some?
    ensures Marked(buf, i, j) == [ParseBeastFrame(buf[i..]).value] + Marked(buf, i + 1, j)
  {
    hide ParseBeastFrame;
  }

  lemma WireStart(x: Sent)
    ensures |Wire(x)| > 1 && Wire(x)[0] == ESC
  {
  }

  lemma FirstBytes(buf: seq<byte>, i: nat, xs: seq<Sent>)
    requires |xs| > 0 && BytesAt(buf, i, Stream(xs))
    ensures var w, rest := Wire(xs[0]), Stream(xs[1..]);
            && Stream(xs) == w + rest && |w| > 1
            && BytesAt(buf, i, w) && BytesAt(buf, i + |w|, rest)
            && i + |w| + |rest| == i + |Stream(xs)| <= |buf|
  {
    hide Wire, BytesAt;
    JoinedAt(buf, i, Wire(xs[0]), Stream(xs[1..]));
    WireStart(xs[0]);
    BytesFit(buf, i, Stream(xs));
  }

  lemma JoinedAt(buf: seq<byte>, i: nat, a: seq<byte>, b: seq<byte>)
    requires BytesAt(buf, i, a + b)
    ensures BytesAt(buf, i, a) && BytesAt(buf, i + |a|, b)
  {
    SplitAt(buf, i, a, b);
  }

  lemma EndOfJoined(w: seq<byte>, rest: seq<byte>)
    requires |rest| > 0
    ensures EndsInMarker(w + rest) <==> EndsInMarker(rest)
  {
  }

  lemma FirstStands(buf: seq<byte>, i: nat, xs: seq<Sent>)
    requires |xs| > 0 && BytesAt(buf, i, Stream(xs))
    ensures var w, rest := Wire(xs[0]), Stream(xs[1..]);
            && BytesAt(buf, i, w) && BytesAt(buf, i + |w|, rest) && |w| > 1
            && i + |w| + |rest| == i + |Stream(xs)| <= |buf|
            && (CompletedAt(buf, i, Stream(xs)) <==>
                  if |xs| == 1 then CompletedAt(buf, i, w) else CompletedAt(buf, i + |w|, rest))
            && (|xs| > 1 ==> !CompletedAt(buf, i, w))
  {
    hide IsType, Encoded, Stream, BytesAt, EndsInMarker, Wire;
    var w, rest := Wire(xs[0]), Stream(xs[1..]);
    FirstBytes(buf, i, xs);
    StreamStart(xs[1..]);
    EscIsNoType();
    if |xs| == 1 {
      NoStream(xs[1..]);
      assert w + rest == w;
    } else {
      EndOfJoined(w, rest);
      ByteOf(buf, i + |w|, rest, 0);
    }
  }

  lemma NothingStands(buf: seq<byte>, i: nat)
    requires BytesAt(buf, i, [])
    ensures i <= |buf| && Marked(buf, i, i) == []
  {
  }

  /** The markers of unambiguous frames are the frames. */
  lemma {:induction false} StreamMarked(buf: seq<byte>, i: nat, xs: seq<Sent>)
    requires AllMessages(xs) && AllUnambiguous(xs)
    requires BytesAt(buf, i, Stream(xs)) && !CompletedAt(buf, i, Stream(xs))
    ensures i + |Stream(xs)| <= |buf|
    ensures Marked(buf, i, i + |Stream(xs)|) == Frames(xs)
    decreases |xs|
  {
    hide ParseBeastFrame, Encoded, Unambiguous, AllUnambiguous, Marked, BytesAt, CompletedAt, Stream, FrameOf;
    if |xs| == 0 {
      assert Stream(xs) == [] by { NoStream(xs); }
      NothingStands(buf, i);
    } else {
      FirstStands(buf, i, xs);
      var w := Wire(xs[0]);
      var j, total := i + |w|, i + |Stream(xs)|;
      AllTail(xs);
      NothingCompleted(buf, j);
      if |xs| == 1 {
        NoStream(xs[1..]);
      }
      StreamMarked(buf, j, xs[1..]);
      MarkedSplit(buf, i, j, total);
      FrameMarked(buf, i, xs[0]);
      InnerClean(buf, i, w);
      assert Marked(buf, i, j) == [FrameOf(xs[0].data, xs[0].rssi, xs[0].ts)];
    }
  }

  lemma NoStream(xs: seq<Sent>)
    requires |xs| == 0
    ensures Stream(xs) == []
  {
  }

  lemma NothingCompleted(buf: seq<byte>, i: nat)
    ensures !CompletedAt(buf, i, [])
  {
  }

  /** Whatever the frames are and whatever follows them, all of them are marked; more are, if any is ambiguous. */
  lemma {:induction false} StreamAtLeast(buf: seq<byte>, i: nat, xs: seq<Sent>)
    requires AllMessages(xs) && BytesAt(buf, i, Stream(xs))
    ensures i + |Stream(xs)| <= |buf|
    ensures |Marked(buf, i, i + |Stream(xs)|)| >= |xs|
    ensures i + |Stream(xs)| + 8 < |buf| && (!AllUnambiguous(xs) || CompletedAt(buf, i, Stream(xs))) ==>
              |Marked(buf, i, i + |Stream(xs)|)| > |xs|
    decreases |xs|
  {
    hide ParseBeastFrame, Encoded, Unambiguous, Marked, BytesAt, CompletedAt;
    if |xs| == 0 {
      NothingStands(buf, i);
      NothingCompleted(buf, i);
    } else {
      FirstStands(buf, i, xs);
      var w := Wire(xs[0]);
      var j, total := i + |w|, i + |Stream(xs)|;
      AllTail(xs);
      StreamAtLeast(buf, j, xs[1..]);
      MarkedSplit(buf, i, j, total);
      FrameMarked(buf, i, xs[0]);
      if total + 8 < |buf| && (!Unambiguous(w) || CompletedAt(buf, i, w)) {
        InnerFound(buf, i, w);
      }
      NothingCompleted(buf, j);
    }
  }

  lemma AllTail(xs: seq<Sent>)
    requires |xs| > 0
    ensures AllUnambiguous(xs) <==> Unambiguous(Wire(xs[0])) && AllUnambiguous(xs[1..])
  {
    hide Unambiguous, Encoded;
    if Unambiguous(Wire(xs[0])) && AllUnambiguous(xs[1..]) {
      forall i | 0 <= i < |xs|
        ensures Unambiguous(Wire(xs[i]))
      {
        assert i > 0 ==> xs[i] == xs[1..][i - 1];
      }
    }
  }

  lemma EscIsNoType()
    ensures !IsType(ESC)
  {
  }

  lemma StreamStart(xs: seq<Sent>)
    ensures |Stream(xs)| > 0 ==> Stream(xs)[0] == ESC
    ensures |Stream(xs)| > 0 <==> |xs| > 0
  {
  }

  lemma SplitAt(buf: seq<byte>, i: nat, a: seq<byte>, b: seq<byte>)
    requires i + |a + b| <= |buf| && buf[i..i + |a + b|] == a + b
    ensures buf[i..i + |a|] == a && buf[i + |a|..i + |a + b|] == b
  {
    var c := buf[i..i + |a + b|];
    assert c[..|a|] == a && c[|a|..] == b;
    assert buf[i..i + |a|] == c[..|a|] && buf[i + |a|..i + |a + b|] == c[|a|..];
  }

  /**
    * Printed frames delivered in one read come back exactly, in order, if and only if no frame holds an inner marker.
    * The reader is given room for one more frame than was sent, and its buffer room for one more header.
    */
  lemma PrintedStreamRoundTrip(xs: seq<Sent>, max: nat)
    requires AllMessages(xs) && 0 < |Stream(xs)| <= BUFFER - 9 && max > |xs|
    ensures ReadAll(ZeroBuffer(), 0, [], [Data(Stream(xs))], max) == Ok(Frames(xs)) <==> AllUnambiguous(xs)
  {
    hide ParseBeastFrame, IsType, ReadAll, Marked, Stream, Wire, AllUnambiguous, CompletedAt;
    OneRead(Stream(xs), max);
    StreamAtStart(Stream(xs));
    StreamAtLeast(Filled(ZeroBuffer(), 0, Stream(xs)), 0, xs);
    if AllUnambiguous(xs) {
      StreamMarked(Filled(ZeroBuffer(), 0, Stream(xs)), 0, xs);
    }
  }

  /** The part that needs no spare room: a full buffer and a limit of exactly the frames sent will do. */
  lemma PrintedStreamReturned(xs: seq<Sent>, max: nat)
    requires AllMessages(xs) && AllUnambiguous(xs) && 0 < |Stream(xs)| <= BUFFER && max >= |xs|
    ensures ReadAll(ZeroBuffer(), 0, [], [Data(Stream(xs))], max) == Ok(Frames(xs))
  {
    hide ParseBeastFrame, IsType, ReadAll, Marked, Stream, Wire, AllUnambiguous, CompletedAt;
    OneRead(Stream(xs), max);
    StreamAtStart(Stream(xs));
    StreamMarked(Filled(ZeroBuffer(), 0, Stream(xs)), 0, xs);
  }

  lemma StreamAtStart(bytes: seq<byte>)
    requires |bytes| <= BUFFER
    ensures BytesAt(Filled(ZeroBuffer(), 0, bytes), 0, bytes)
    ensures !CompletedAt(Filled(ZeroBuffer(), 0, bytes), 0, bytes)
  {
  }

  /** A printed payload that holds 0x1a 0x31 is read as two frames. */
  lemma InnerMarkerMisread()
    ensures var xs := [Sent([0x1a, 0x31, 0, 0, 0, 0, 0], 0, 0)];
            ReadAll(ZeroBuffer(), 0, [], [Data(Stream(xs))], 2) != Ok(Frames(xs))
  {
    hide ReadAll;
    var x := Sent([0x1a, 0x31, 0, 0, 0, 0, 0], 0, 0);
    var w := Wire(x);
    EscapedMarker([0x31, 0, 0, 0, 0, 0]);
    assert x.data == [ESC] + [0x31, 0, 0, 0, 0, 0];
    assert w[10] == ESC && IsType(w[11]) && !Unambiguous(w);
    assert Stream([x]) == w + Stream([x][1..]) && Stream([x][1..]) == [];
    assert [x][0] == x;
    PrintedStreamRoundTrip([x], 2);
  }

  lemma {:induction false} EscapedMarker(rest: seq<byte>)
    requires |rest| > 0 && rest[0] != ESC
    ensures |Escaped([ESC] + rest)| > 2 && Escaped([ESC] + rest)[1] == ESC && Escaped([ESC] + rest)[2] == rest[0]
  {
    var all := [ESC] + rest;
    var n := |rest|;
    if n == 1 {
      assert all[..1] == [ESC] && all[..1][..0] == [];
      assert Escaped([ESC]) == [ESC, ESC];
    } else {
      assert all[..n] == [ESC] + rest[..n - 1];
      EscapedMarker(rest[..n - 1]);
    }
  }
}
