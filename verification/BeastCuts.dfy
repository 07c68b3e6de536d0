/** Printed frames that arrive in reads cut anywhere, within frames or between them. */
module BeastCuts {
  import opened Common
  import opened Beast
  import opened BeastReader
  import opened BeastProps
  import opened BeastReads

  // ---- streams ----

  lemma {:induction false} StreamSplit(xs: seq<Sent>, k: nat)
    requires k <= |xs|
    ensures Stream(xs) == Stream(xs[..k]) + Stream(xs[k..])
  {
    hide Encoded;
    if k == 0 {
      assert xs[..0] == [] && xs[0..] == xs;
    } else {
      StreamSplit(xs[1..], k - 1);
      assert xs[..k][0] == xs[0] && xs[..k][1..] == xs[1..][..k - 1] && xs[1..][k - 1..] == xs[k..];
    }
  }

  lemma StreamNext(xs: seq<Sent>, k: nat)
    requires 0 < k <= |xs|
    ensures Stream(xs[..k]) == Stream(xs[..k - 1]) + Wire(xs[k - 1])
  {
    hide Encoded;
    var p := xs[..k];
    StreamSplit(p, k - 1);
    assert p[..k - 1] == xs[..k - 1] && p[k - 1..] == [xs[k - 1]];
    assert [xs[k - 1]][0] == xs[k - 1] && [xs[k - 1]][1..] == [] && Stream([]) == [];
  }

  lemma {:induction false} FramesSplit(xs: seq<Sent>, k: nat)
    requires k <= |xs|
    ensures Frames(xs) == Frames(xs[..k]) + Frames(xs[k..])
  {
    hide FrameOf;
    if k == 0 {
      assert xs[..0] == [] && xs[0..] == xs;
    } else {
      FramesSplit(xs[1..], k - 1);
      assert xs[..k][0] == xs[0] && xs[..k][1..] == xs[1..][..k - 1] && xs[1..][k - 1..] == xs[k..];
    }
  }

  lemma WireHeader(x: Sent)
    requires IsMessage(x.data)
    ensures 16 <= |Wire(x)| <= 37 && Wire(x)[0] == ESC && IsType(Wire(x)[1])
  {
  }

  // ---- what one read opens, and whether it is read as it was sent ----

  /** The last byte of what has been read is made a marker by a stale byte behind it. */
  predicate Completed(buf: seq<byte>, end: nat) {
    0 < end < |buf| && buf[end - 1] == ESC && IsType(buf[end])
  }

  /** The frame that begins at `at` is opened: its type has been read, or a stale byte stands in for it. */
  predicate Opens(buf: seq<byte>, at: nat, end: nat) {
    at + 1 < end || (at + 1 == end < |buf| && IsType(buf[end]))
  }

  /** How many of the frames that follow from `at` on are opened. */
  function Opened(buf: seq<byte>, at: nat, rest: seq<Sent>, end: nat): (k: nat)
    ensures k <= |rest|
    decreases |rest|
  {
    if |rest| == 0 || !Opens(buf, at, end) then 0
    else 1 + Opened(buf, at + |Wire(rest[0])|, rest[1..], end)
  }

  /** Every frame opened in this read is read as it was sent, and nothing else is. */
  ghost predicate GoodFrom(buf: seq<byte>, at: nat, rest: seq<Sent>, end: nat)
    decreases |rest|
  {
    if |rest| == 0 || !Opens(buf, at, end) then true
    else
      var next := at + |Wire(rest[0])|;
      if next < end then GoodFrom(buf, next, rest[1..], end)
      else if next == end then !Completed(buf, end)
      else
        && at < |buf| && ParseBeastFrame(buf[at..]) == Some(FrameOf(rest[0].data, rest[0].rssi, rest[0].ts))
        && (at + 1 < end ==> !Completed(buf, end))
  }

  /** The same for a read behind the rest `pre` of an earlier frame. */
  ghost predicate GoodRead(buf: seq<byte>, pre: seq<byte>, rest: seq<Sent>, end: nat) {
    if end <= |pre| then !Completed(buf, end) else GoodFrom(buf, |pre|, rest, end)
  }

  /** The bytes from `at` to `end` are the first ones of the stream. */
  ghost predicate Delivered(buf: seq<byte>, at: nat, rest: seq<Sent>, end: nat) {
    at <= end && end + 9 <= |buf| && end - at <= |Stream(rest)| && buf[at..end] == Stream(rest)[..end - at]
  }

  ghost predicate Sendable(xs: seq<Sent>) {
    AllMessages(xs) && AllUnambiguous(xs)
  }

  lemma SendableTail(xs: seq<Sent>)
    requires Sendable(xs) && |xs| > 0
    ensures Sendable(xs[1..]) && IsMessage(xs[0].data) && Unambiguous(Wire(xs[0]))
  {
    hide Unambiguous;
    AllTail(xs);
  }

  /** The first frame of what has been delivered. */
  lemma FirstDelivered(buf: seq<byte>, at: nat, rest: seq<Sent>, end: nat)
    requires |rest| > 0 && Delivered(buf, at, rest, end)
    ensures var w := Wire(rest[0]);
            && (at + |w| <= end ==> BytesAt(buf, at, w) && Delivered(buf, at + |w|, rest[1..], end))
            && (end < at + |w| ==> BytesAt(buf, at, w[..end - at]))
            && (forall j :: at <= j < end && j < at + |w| ==> buf[j] == w[j - at])
            && (at + |w| < end ==> |rest| > 1 && buf[at + |w|] == ESC)
  {
    hide Encoded;
    var w, tail := Wire(rest[0]), Stream(rest[1..]);
    assert Stream(rest) == w + tail;
    StreamStart(rest[1..]);
    forall j | at <= j < end
      ensures buf[j] == (w + tail)[j - at]
    {
      assert buf[at..end][j - at] == buf[j];
    }
    if at + |w| <= end {
      assert buf[at..at + |w|] == w;
      assert buf[at + |w|..end] == tail[..end - at - |w|];
    } else {
      assert buf[at..end] == w[..end - at];
    }
  }

  lemma PartUnambiguous(w: seq<byte>, n: nat)
    requires Unambiguous(w) && n <= |w|
    ensures Unambiguous(w[..n])
  {
    hide IsType;
    var v := w[..n];
    forall k | 1 <= k < |v| - 1 && v[k] == ESC
      ensures !IsType(v[k + 1])
    {
      assert v[k] == w[k] && v[k + 1] == w[k + 1];
    }
  }

  /** What stands at a marker of the delivered bytes, when the frame there is whole or cut. */
  lemma OneMarked(buf: seq<byte>, at: nat, w: seq<byte>, end: nat)
    requires |w| > 0 && w[0] == ESC && Unambiguous(w) && BytesAt(buf, at, w) && end == at + |w| && end + 9 <= |buf|
    requires Opens(buf, at, end)
    requires |w| > 1 ==> IsType(w[1])
    ensures ParseBeastFrame(buf[at..]).Some? && buf[at] == ESC
    ensures var g := ParseBeastFrame(buf[at..]).value;
            Marked(buf, at, end) == [g] + Marked(buf, at + 1, end)
    ensures Marked(buf, at + 1, end) == [] <==> !(|w| > 1 && Completed(buf, end))
  {
    hide ParseBeastFrame, IsType, Unambiguous;
    ByteOf(buf, at, w, 0);
    if |w| > 1 {
      ByteOf(buf, at, w, 1);
      ByteOf(buf, at, w, |w| - 1);
      if Completed(buf, end) {
        InnerFound(buf, at, w);
      } else {
        InnerClean(buf, at, w);
      }
    }
    MarkerAt(buf, at);
  }

  /** The last opened frame begins here. */
  function LastOpened(at: nat, rest: seq<Sent>, k: nat): nat
    requires 0 < k <= |rest|
  {
    at + |Stream(rest[..k - 1])|
  }

  lemma LastOpenedLater(at: nat, rest: seq<Sent>, k: nat)
    requires 1 < k <= |rest|
    ensures LastOpened(at, rest, k) == LastOpened(at + |Wire(rest[0])|, rest[1..], k - 1)
  {
    hide Encoded;
    assert rest[..k - 1][0] == rest[0] && rest[..k - 1][1..] == rest[1..][..k - 2];
  }

  lemma FirstFrames(rest: seq<Sent>, k: nat)
    requires 0 < k <= |rest|
    ensures Frames(rest[..k]) == [FrameOf(rest[0].data, rest[0].rssi, rest[0].ts)] + Frames(rest[1..][..k - 1])
  {
    hide FrameOf;
    assert rest[..k][0] == rest[0] && rest[..k][1..] == rest[1..][..k - 1];
  }

  lemma NotOpened(buf: seq<byte>, at: nat, rest: seq<Sent>, end: nat)
    requires Delivered(buf, at, rest, end) && AllMessages(rest) && (|rest| == 0 || !Opens(buf, at, end))
    ensures Marked(buf, at, end) == [] && NothingParses(buf, at, end) && end <= at + 1
    ensures |rest| == 0 ==> end == at
  {
    hide ParseBeastFrame, IsType, Encoded;
    if |rest| > 0 && at < end {
      FirstDelivered(buf, at, rest, end);
      WireHeader(rest[0]);
      MarkerOrNot(buf, at);
    }
    NothingMarked(buf, at, end);
  }

  /** A whole frame with others behind it. */
  lemma WholeMarked(buf: seq<byte>, at: nat, rest: seq<Sent>, end: nat)
    requires |rest| > 0 && Sendable(rest) && Delivered(buf, at, rest, end) && at + |Wire(rest[0])| < end
    ensures var x, next := rest[0], at + |Wire(rest[0])|;
            && Marked(buf, at, end) == [FrameOf(x.data, x.rssi, x.ts)] + Marked(buf, next, end)
            && NothingParses(buf, at + 1, next)
            && buf[at] == ESC && ParseBeastFrame(buf[at..]).Some?
  {
    hide ParseBeastFrame, IsType, Unambiguous, Encoded, Marked, AllUnambiguous, FrameOf;
    var w := Wire(rest[0]);
    SendableTail(rest);
    FirstDelivered(buf, at, rest, end);
    WireHeader(rest[0]);
    EscIsNoType();
    FrameMarked(buf, at, rest[0]);
    InnerClean(buf, at, w);
    MarkedSplit(buf, at, at + |w|, end);
  }

  lemma JoinNothing(buf: seq<byte>, i: nat, j: nat, k: nat)
    requires NothingParses(buf, i, j) && NothingParses(buf, j, k)
    ensures NothingParses(buf, i, k)
  {
    hide ParseBeastFrame;
  }

  /** The last frame that has been delivered, whole or in part. */
  lemma LastMarked(buf: seq<byte>, at: nat, rest: seq<Sent>, end: nat)
    requires |rest| > 0 && Sendable(rest) && Delivered(buf, at, rest, end) && Opens(buf, at, end)
    requires end <= at + |Wire(rest[0])|
    ensures buf[at] == ESC && ParseBeastFrame(buf[at..]).Some?
    ensures |Marked(buf, at, end)| >= 1
    ensures GoodFrom(buf, at, rest, end)
            <==> Marked(buf, at, end) == [FrameOf(rest[0].data, rest[0].rssi, rest[0].ts)]
    ensures GoodFrom(buf, at, rest, end) ==> NothingParses(buf, at + 1, end)
  {
    hide ParseBeastFrame, IsType, Unambiguous, Encoded, Marked, AllUnambiguous, FrameOf, Completed, BytesAt;
    var x, w := rest[0], Wire(rest[0]);
    SendableTail(rest);
    FirstDelivered(buf, at, rest, end);
    WireHeader(x);
    var v := w[..end - at];
    assert end == at + |w| ==> v == w;
    PartUnambiguous(w, end - at);
    OneMarked(buf, at, v, end);
    if end == at + |w| {
      FrameMarked(buf, at, x);
    }
    var f, g, inner := FrameOf(x.data, x.rssi, x.ts), ParseBeastFrame(buf[at..]).value, Marked(buf, at + 1, end);
    OneAndMore(g, inner, f);
    if inner == [] {
      NothingMarkedParses(buf, at + 1, end);
    }
  }

  lemma OneAndMore(g: Frame, inner: seq<Frame>, f: Frame)
    ensures [g] + inner == [f] <==> g == f && inner == []
  {
    if [g] + inner == [f] {
      assert |[g] + inner| == 1;
      assert ([g] + inner)[0] == g;
    }
  }

  /** The markers of what has been delivered: the opened frames, exactly when the read is good. */
  lemma {:induction false} MarkedFrom(buf: seq<byte>, at: nat, rest: seq<Sent>, end: nat)
    requires Sendable(rest) && Delivered(buf, at, rest, end)
    ensures var k := Opened(buf, at, rest, end);
            && |Marked(buf, at, end)| >= k
            && (GoodFrom(buf, at, rest, end) <==> Marked(buf, at, end) == Frames(rest[..k]))
            && end <= at + |Stream(rest[..k])| + 1 && (k == |rest| ==> end <= at + |Stream(rest)|)
            && (end == at + |Stream(rest[..k])| + 1 ==>
                  k < |rest| && buf[end - 1] == ESC && NothingParses(buf, end - 1, end))
            && (k > 0 ==>
                  var f := LastOpened(at, rest, k);
                  && at <= f < end && buf[f] == ESC && ParseBeastFrame(buf[f..]).Some?
                  && (GoodFrom(buf, at, rest, end) ==> NothingParses(buf, f + 1, end)))
    decreases |rest|
  {
    hide ParseBeastFrame, IsType, Encoded, Marked, AllUnambiguous, AllMessages, FrameOf, Completed, Stream;
    var k := Opened(buf, at, rest, end);
    if |rest| == 0 || !Opens(buf, at, end) {
      NoneOpened(buf, at, rest, end);
    } else {
      var w := Wire(rest[0]);
      var next := at + |w|;
      SendableTail(rest);
      WireHeader(rest[0]);
      FirstFrames(rest, k);
      StreamOfOpened(rest, k);
      if next < end {
        FirstDelivered(buf, at, rest, end);
        WholeMarked(buf, at, rest, end);
        MarkedFrom(buf, next, rest[1..], end);
        SameRest(FrameOf(rest[0].data, rest[0].rssi, rest[0].ts), Marked(buf, next, end), Frames(rest[1..][..k - 1]));
        if k > 1 {
          LastOpenedLater(at, rest, k);
        } else {
          FirstOpened(at, rest);
          NoneOpened(buf, next, rest[1..], end);
          JoinNothing(buf, at + 1, next, end);
        }
      } else {
        LastMarked(buf, at, rest, end);
        assert k == 1;
        FirstOpened(at, rest);
      }
    }
  }

  lemma SameRest(f: Frame, a: seq<Frame>, b: seq<Frame>)
    ensures [f] + a == [f] + b <==> a == b
  {
    assert ([f] + a)[1..] == a && ([f] + b)[1..] == b;
  }

  lemma FirstOpened(at: nat, rest: seq<Sent>)
    requires |rest| > 0
    ensures LastOpened(at, rest, 1) == at && Frames(rest[1..][..0]) == []
  {
    assert rest[..0] == [];
  }

  lemma StreamOfOpened(rest: seq<Sent>, k: nat)
    requires 0 < k <= |rest|
    ensures |Stream(rest[..k])| == |Wire(rest[0])| + |Stream(rest[1..][..k - 1])|
    ensures |Stream(rest)| == |Wire(rest[0])| + |Stream(rest[1..])|
    ensures k == 1 ==> |Stream(rest[..k])| == |Wire(rest[0])|
  {
    hide Encoded;
    assert rest[..k][0] == rest[0] && rest[..k][1..] == rest[1..][..k - 1];
    assert k == 1 ==> rest[1..][..0] == [];
  }

  lemma NoneOpened(buf: seq<byte>, at: nat, rest: seq<Sent>, end: nat)
    requires Sendable(rest) && Delivered(buf, at, rest, end) && (|rest| == 0 || !Opens(buf, at, end))
    ensures Opened(buf, at, rest, end) == 0 && Frames(rest[..0]) == [] && Stream(rest[..0]) == []
    ensures Marked(buf, at, end) == [] && NothingParses(buf, at, end) && end <= at + 1
    ensures |rest| == 0 ==> end == at && Stream(rest) == []
    ensures end == at + 1 ==> buf[at] == ESC
    ensures end <= at + |Stream(rest)|
  {
    hide ParseBeastFrame, IsType, Encoded;
    NotOpened(buf, at, rest, end);
    assert rest[..0] == [];
    if end == at + 1 {
      FirstDelivered(buf, at, rest, end);
      WireHeader(rest[0]);
    }
  }

  // ---- a read behind the rest of an earlier frame ----

  /** What follows in the stream: the rest of an earlier frame, and the frames that have not been opened. */
  function Ahead(pre: seq<byte>, rest: seq<Sent>): seq<byte> {
    pre + Stream(rest)
  }

  /** The first bytes of what follows are in the buffer. */
  ghost predicate InBuffer(buf: seq<byte>, pre: seq<byte>, rest: seq<Sent>, end: nat) {
    end + 9 <= |buf| && end <= |Ahead(pre, rest)| && buf[..end] == Ahead(pre, rest)[..end]
  }

  lemma InBufferSplit(buf: seq<byte>, pre: seq<byte>, rest: seq<Sent>, end: nat)
    requires InBuffer(buf, pre, rest, end)
    ensures forall j :: 0 <= j < end && j < |pre| ==> buf[j] == pre[j]
    ensures |pre| <= end ==> buf[..|pre|] == pre && Delivered(buf, |pre|, rest, end)
  {
    hide Stream;
    forall j | 0 <= j < end && j < |pre|
      ensures buf[j] == pre[j]
    {
      assert buf[..end][j] == buf[j];
    }
    if |pre| <= end {
      assert buf[|pre|..end] == buf[..end][|pre|..];
    }
  }

  /** A part of the rest of an earlier frame, at the end of what has been read. */
  lemma PrePart(buf: seq<byte>, pre: seq<byte>, rest: seq<Sent>, end: nat)
    requires InBuffer(buf, pre, rest, end) && Quiet(pre) && end <= |pre|
    ensures Marked(buf, 0, end) == [] <==> !Completed(buf, end)
  {
    hide ParseBeastFrame, Marked, IsType, Stream;
    InBufferSplit(buf, pre, rest, end);
    if Completed(buf, end) {
      MarkerAt(buf, end - 1);
      MarkedSplit(buf, 0, end - 1, end);
      MarkedAt(buf, end - 1);
    } else {
      forall p | 0 <= p < end
        ensures buf[p] != ESC || ParseBeastFrame(buf[p..]).None?
      {
        MarkerOrNot(buf, p);
      }
      NothingMarked(buf, 0, end);
    }
  }

  lemma MarkedAt(buf: seq<byte>, p: nat)
    requires p < |buf| && buf[p] == ESC && ParseBeastFrame(buf[p..]).Some?
    ensures |Marked(buf, p, p + 1)| > 0
  {
    hide ParseBeastFrame;
  }

  lemma NotOpenedBefore(buf: seq<byte>, at: nat, rest: seq<Sent>, end: nat)
    requires end <= at
    ensures Opened(buf, at, rest, end) == 0
  {
  }

  /** The markers of one read. */
  lemma MarkedRead(buf: seq<byte>, pre: seq<byte>, rest: seq<Sent>, end: nat)
    requires Sendable(rest) && InBuffer(buf, pre, rest, end)
    ensures var k := Opened(buf, |pre|, rest, end);
            && |Marked(buf, 0, end)| >= k
            && (Quiet(pre) ==> (GoodRead(buf, pre, rest, end) <==> Marked(buf, 0, end) == Frames(rest[..k])))
  {
    hide ParseBeastFrame, Marked, IsType, Stream, Encoded, Quiet, GoodFrom, Completed, AllUnambiguous, AllMessages,
         Opened;
    InBufferSplit(buf, pre, rest, end);
    if end <= |pre| {
      NotOpenedBefore(buf, |pre|, rest, end);
      assert rest[..0] == [] && Frames([]) == [];
      if Quiet(pre) {
        PrePart(buf, pre, rest, end);
      }
    } else {
      MarkedSplit(buf, 0, |pre|, end);
      MarkedFrom(buf, |pre|, rest, end);
      if Quiet(pre) {
        FirstIsMarker(buf, |pre|, rest, end);
        QuietTail(buf, pre, [ESC]);
      }
    }
  }

  lemma FirstIsMarker(buf: seq<byte>, at: nat, rest: seq<Sent>, end: nat)
    requires Delivered(buf, at, rest, end) && at < end && AllMessages(rest)
    ensures BytesAt(buf, at, [ESC])
  {
    hide Encoded;
    StreamStart(rest);
    FirstDelivered(buf, at, rest, end);
    WireHeader(rest[0]);
  }

  // ---- the state between reads ----

  const REST: nat := 36

  /** No more than the marker of the next frame has been read, and the rest of the earlier frame is short. */
  ghost predicate Between(pre: seq<byte>, rest: seq<Sent>, d: nat) {
    |pre| <= REST && d <= |pre| + 1 && d <= |Ahead(pre, rest)|
  }

  /** Where the next frame that has not been opened begins. */
  function EndOfOpened(pre: seq<byte>, rest: seq<Sent>, k: nat): nat
    requires k <= |rest|
  {
    |pre| + |Stream(rest[..k])|
  }

  /** The state after a read, when the reader has consumed `c` bytes. */
  lemma NextState(buf: seq<byte>, pre: seq<byte>, rest: seq<Sent>, end: nat, c: nat)
    requires Sendable(rest) && InBuffer(buf, pre, rest, end) && c <= end
    requires var k := Opened(buf, |pre|, rest, end);
             && c <= EndOfOpened(pre, rest, k)
             && (if k == 0 then |pre| <= REST else LastOpened(|pre|, rest, k) < c)
    ensures var k := Opened(buf, |pre|, rest, end);
            var e := EndOfOpened(pre, rest, k);
            && c <= e <= |Ahead(pre, rest)|
            && var pre' := Ahead(pre, rest)[c..e];
            && Ahead(pre', rest[k..]) == Ahead(pre, rest)[c..]
            && Between(pre', rest[k..], end - c) && Sendable(rest[k..])
            && (k > 0 ==> |pre'| < |Wire(rest[k - 1])| && Unambiguous(Wire(rest[k - 1]))
                          && pre' == Wire(rest[k - 1])[|Wire(rest[k - 1])| - |pre'|..])
  {
    hide Stream, Encoded, Opened, Unambiguous, Delivered;
    var k := Opened(buf, |pre|, rest, end);
    var e, all := EndOfOpened(pre, rest, k), Ahead(pre, rest);
    StreamSplit(rest, k);
    assert all == pre + Stream(rest[..k]) + Stream(rest[k..]);
    assert all[..e] == pre + Stream(rest[..k]);
    assert all[c..] == all[c..e] + Stream(rest[k..]);
    InBufferSplit(buf, pre, rest, end);
    SendableFrom(rest, k);
    if end > |pre| {
      MarkedFrom(buf, |pre|, rest, end);
    } else {
      NotOpenedBefore(buf, |pre|, rest, end);
    }
    if k > 0 {
      StreamNext(rest, k);
      WireHeader(rest[k - 1]);
      var w := Wire(rest[k - 1]);
      assert all[..e] == (pre + Stream(rest[..k - 1])) + w;
      assert all[c..e] == all[..e][c..];
      assert all[..e][c..] == w[|w| - (e - c)..];
    }
  }

  lemma SendableFrom(xs: seq<Sent>, k: nat)
    requires Sendable(xs) && k <= |xs|
    ensures Sendable(xs[k..])
    ensures k > 0 ==> IsMessage(xs[k - 1].data) && Unambiguous(Wire(xs[k - 1]))
  {
    hide Unambiguous, Encoded;
  }

  /** What a good read leaves unconsumed begins here: at the first 0x1a behind the start of the last opened frame. */
  function Hold(buf: seq<byte>, pre: seq<byte>, rest: seq<Sent>, end: nat): (c: nat)
    requires end <= |buf|
    ensures c <= end
  {
    var k := Opened(buf, |pre|, rest, end);
    if k == 0 || LastOpened(|pre|, rest, k) >= end then 0 else NextMarker(buf, end, LastOpened(|pre|, rest, k) + 1)
  }

  /** The pending marker of an unopened frame is a marker, and nothing parses there. */
  lemma Pending(buf: seq<byte>, pre: seq<byte>, rest: seq<Sent>, end: nat)
    requires Sendable(rest) && InBuffer(buf, pre, rest, end)
    ensures var k := Opened(buf, |pre|, rest, end);
            var e := EndOfOpened(pre, rest, k);
            && end <= e + 1
            && (end == e + 1 ==> buf[e] == ESC && NothingParses(buf, e, end))
            && (k > 0 ==> end > |pre|)
  {
    hide ParseBeastFrame, Stream, Encoded, Opened;
    InBufferSplit(buf, pre, rest, end);
    if end > |pre| {
      MarkedFrom(buf, |pre|, rest, end);
    } else {
      NotOpenedBefore(buf, |pre|, rest, end);
      assert Stream(rest[..0]) == [] by { NoStream(rest[..0]); }
    }
  }

  lemma HoldFits(buf: seq<byte>, pre: seq<byte>, rest: seq<Sent>, end: nat)
    requires Sendable(rest) && InBuffer(buf, pre, rest, end)
    ensures var k, c := Opened(buf, |pre|, rest, end), Hold(buf, pre, rest, end);
            && c <= EndOfOpened(pre, rest, k)
            && (if k == 0 then c == 0 else LastOpened(|pre|, rest, k) < c)
  {
    hide ParseBeastFrame, Stream, Encoded, Opened;
    var k := Opened(buf, |pre|, rest, end);
    Pending(buf, pre, rest, end);
    if k > 0 {
      InBufferSplit(buf, pre, rest, end);
      MarkedFrom(buf, |pre|, rest, end);
      StreamNext(rest, k);
      WireHeaderOf(rest, k - 1);
    }
  }

  lemma WireHeaderOf(rest: seq<Sent>, i: nat)
    requires AllMessages(rest) && i < |rest|
    ensures |Wire(rest[i])| >= 16
  {
    WireHeader(rest[i]);
  }

  lemma KeptPartQuiet(w: seq<byte>, n: nat)
    requires Unambiguous(w) && n < |w|
    ensures Quiet(w[|w| - n..])
  {
    hide IsType;
    var t := w[|w| - n..];
    forall k | 0 <= k < |t| - 1 && t[k] == ESC
      ensures !IsType(t[k + 1])
    {
      assert t[k] == w[|w| - n + k] && t[k + 1] == w[|w| - n + k + 1];
    }
  }

  // ---- one read ----

  /** A read that fits, from the stream: at least one byte, and room for the kept bytes and one more header. */
  ghost predicate CutFits(pre: seq<byte>, rest: seq<Sent>, d: nat, n: nat) {
    0 < n && n + REST + 10 <= BUFFER && d + n <= |Ahead(pre, rest)|
  }

  /** The buffer with everything read of the stream in it, in front of what was left of earlier reads. */
  function Overlaid(img: seq<byte>, pre: seq<byte>, rest: seq<Sent>, end: nat): (buf: seq<byte>)
    requires end <= |Ahead(pre, rest)| && end <= |img|
    ensures |buf| == |img|
  {
    Ahead(pre, rest)[..end] + img[end..]
  }

  lemma OverlaidBytes(img: seq<byte>, pre: seq<byte>, rest: seq<Sent>, d: nat, n: nat)
    requires |img| == BUFFER && Between(pre, rest, d) && CutFits(pre, rest, d, n)
    ensures var all, next := Ahead(pre, rest), Overlaid(img, pre, rest, d + n);
            && InBuffer(next, pre, rest, d + n)
            && d + n <= BUFFER && Filled(Image(img, all[..d]), d, all[d..d + n]) == next
  {
    hide Ahead;
    var all := Ahead(pre, rest);
    assert all[..d] + all[d..d + n] == all[..d + n];
  }

  lemma ReplacedImage(buf: seq<byte>, c: nat, end: nat)
    requires c <= end <= |buf|
    ensures Image(buf, buf[c..end]) == if c < end then Shifted(buf, c, end) else buf
  {
  }

  /** A good read brings exactly the frames it opens. */
  lemma GoodTurn(img: seq<byte>, pre: seq<byte>, rest: seq<Sent>, d: nat, n: nat,
                 frames: seq<Frame>, later: seq<ReadEvent>, max: nat)
    requires |img| == BUFFER && Sendable(rest) && Quiet(pre) && Between(pre, rest, d) && CutFits(pre, rest, d, n)
    requires var next := Overlaid(img, pre, rest, d + n);
             GoodRead(next, pre, rest, d + n) && |frames| + Opened(next, |pre|, rest, d + n) <= max
    ensures var all, end, next := Ahead(pre, rest), d + n, Overlaid(img, pre, rest, d + n);
            var k, c := Opened(next, |pre|, rest, end), Hold(next, pre, rest, end);
            ReadAll(Image(img, all[..d]), d, frames, [Data(all[d..end])] + later, max) ==
            if |frames| + k >= max then Ok(frames + Frames(rest[..k]))
            else ReadAll(Image(next, all[c..end]), end - c, frames + Frames(rest[..k]), later, max)
  {
    hide ParseBeastFrame, ScanBuffer, Marked, Encoded, Stream, Frames, Opened, GoodRead, ReadAll, Ahead, Sendable,
         Quiet, Overlaid, Hold, Filled, Shifted, Image, InBuffer;
    var all, end, next := Ahead(pre, rest), d + n, Overlaid(img, pre, rest, d + n);
    var k, c := Opened(next, |pre|, rest, end), Hold(next, pre, rest, end);
    OverlaidBytes(img, pre, rest, d, n);
    MarkedRead(next, pre, rest, end);
    ScanIsMarked(next, end, 0, Scanned(frames, 0), max);
    OneTurn(Image(img, all[..d]), d, frames, all[d..end], later, max);
    var s := ScanBuffer(next, end, 0, Scanned(frames, 0), max);
    assert s.frames == frames + Frames(rest[..k]);
    if |s.frames| < max {
      HoldIsConsumed(next, pre, rest, end, Scanned(frames, 0), max);
      DeliveredSlice(next, pre, rest, end, c);
      ReplacedImage(next, c, end);
    }
  }

  lemma DeliveredSlice(buf: seq<byte>, pre: seq<byte>, rest: seq<Sent>, end: nat, c: nat)
    requires InBuffer(buf, pre, rest, end) && c <= end
    ensures Ahead(pre, rest)[c..end] == buf[c..end]
  {
    hide Ahead;
    assert buf[..end][c..end] == buf[c..end];
  }

  lemma HoldIsConsumed(buf: seq<byte>, pre: seq<byte>, rest: seq<Sent>, end: nat, s: Scanned, max: nat)
    requires Sendable(rest) && Quiet(pre) && InBuffer(buf, pre, rest, end) && GoodRead(buf, pre, rest, end)
    requires s.consumed == 0 && |ScanBuffer(buf, end, 0, s, max).frames| < max
    ensures ScanBuffer(buf, end, 0, s, max).consumed == Hold(buf, pre, rest, end)
  {
    hide ParseBeastFrame, ScanBuffer, Marked, Encoded, Stream, Opened, GoodFrom, Ahead, Sendable, Quiet, Delivered;
    var k := Opened(buf, |pre|, rest, end);
    MarkedRead(buf, pre, rest, end);
    InBufferSplit(buf, pre, rest, end);
    if k == 0 {
      assert rest[..0] == [] && Frames([]) == [];
      NothingMarkedParses(buf, 0, end);
      NothingScanned(buf, end, 0, s, max);
    } else {
      if end <= |pre| {
        NotOpenedBefore(buf, |pre|, rest, end);
      }
      MarkedFrom(buf, |pre|, rest, end);
      ConsumedUpTo(buf, end, 0, s, max, LastOpened(|pre|, rest, k));
    }
  }

  /** What a scan of any read consumes. */
  lemma AnyConsumed(buf: seq<byte>, pre: seq<byte>, rest: seq<Sent>, end: nat, s: Scanned, max: nat)
    requires Sendable(rest) && InBuffer(buf, pre, rest, end) && |pre| <= REST
    requires s.consumed == 0 && |ScanBuffer(buf, end, 0, s, max).frames| < max
    ensures var k, c := Opened(buf, |pre|, rest, end), ScanBuffer(buf, end, 0, s, max).consumed;
            && c <= end && c <= EndOfOpened(pre, rest, k)
            && (if k == 0 then |pre| <= REST else LastOpened(|pre|, rest, k) < c)
  {
    hide ParseBeastFrame, ScanBuffer, Marked, Encoded, Stream, Opened, GoodFrom, Ahead, Sendable, Delivered;
    var k := Opened(buf, |pre|, rest, end);
    Pending(buf, pre, rest, end);
    InBufferSplit(buf, pre, rest, end);
    if k > 0 {
      MarkedFrom(buf, |pre|, rest, end);
      ConsumedAtLeast(buf, end, 0, s, max, LastOpened(|pre|, rest, k));
    }
    if end == EndOfOpened(pre, rest, k) + 1 {
      ConsumedBefore(buf, end, 0, s, max, end - 1);
    }
  }

  // ---- any number of reads ----

  function Sum(sizes: seq<nat>): nat {
    if |sizes| == 0 then 0 else sizes[0] + Sum(sizes[1..])
  }

  /** Bytes in reads of the given sizes. */
  function Cut(bytes: seq<byte>, sizes: seq<nat>): seq<ReadEvent>
    requires Sum(sizes) == |bytes|
    decreases |sizes|
  {
    if |sizes| == 0 then [] else [Data(bytes[..sizes[0]])] + Cut(bytes[sizes[0]..], sizes[1..])
  }

  ghost predicate SizesFit(sizes: seq<nat>) {
    forall i :: 0 <= i < |sizes| ==> 0 < sizes[i] && sizes[i] + REST + 10 <= BUFFER
  }

  ghost predicate CutsFit(pre: seq<byte>, rest: seq<Sent>, d: nat, sizes: seq<nat>) {
    Sendable(rest) && Between(pre, rest, d) && SizesFit(sizes) && d + Sum(sizes) == |Ahead(pre, rest)|
  }

  lemma FirstFits(pre: seq<byte>, rest: seq<Sent>, d: nat, sizes: seq<nat>)
    requires CutsFit(pre, rest, d, sizes) && |sizes| > 0
    ensures CutFits(pre, rest, d, sizes[0]) && d + sizes[0] + 9 <= BUFFER && SizesFit(sizes[1..])
    ensures d + sizes[0] + Sum(sizes[1..]) == |Ahead(pre, rest)|
  {
    hide Ahead;
  }

  /** The state after a read, for the reads that follow. */
  lemma LaterFit(buf: seq<byte>, pre: seq<byte>, rest: seq<Sent>, d: nat, sizes: seq<nat>, c: nat)
    requires CutsFit(pre, rest, d, sizes) && |sizes| > 0 && InBuffer(buf, pre, rest, d + sizes[0]) && c <= d + sizes[0]
    requires var k := Opened(buf, |pre|, rest, d + sizes[0]);
             && c <= EndOfOpened(pre, rest, k)
             && (if k == 0 then |pre| <= REST else LastOpened(|pre|, rest, k) < c)
    ensures var end := d + sizes[0];
            var k := Opened(buf, |pre|, rest, end);
            var e := EndOfOpened(pre, rest, k);
            && c <= e <= |Ahead(pre, rest)|
            && var pre' := Ahead(pre, rest)[c..e];
            && Ahead(pre', rest[k..]) == Ahead(pre, rest)[c..]
            && CutsFit(pre', rest[k..], end - c, sizes[1..])
            && Ahead(pre', rest[k..])[..end - c] == Ahead(pre, rest)[c..end]
            && Ahead(pre', rest[k..])[end - c..] == Ahead(pre, rest)[end..]
  {
    hide Ahead, Opened, LastOpened, EndOfOpened, Sendable, InBuffer;
    FirstFits(pre, rest, d, sizes);
    NextState(buf, pre, rest, d + sizes[0], c);
    var all, end := Ahead(pre, rest), d + sizes[0];
    assert all[c..][..end - c] == all[c..end] && all[c..][end - c..] == all[end..];
  }

  lemma GoodLaterQuiet(buf: seq<byte>, pre: seq<byte>, rest: seq<Sent>, end: nat)
    requires Sendable(rest) && InBuffer(buf, pre, rest, end) && Quiet(pre) && |pre| <= REST
    ensures var k, c := Opened(buf, |pre|, rest, end), Hold(buf, pre, rest, end);
            var e := EndOfOpened(pre, rest, k);
            c <= e <= |Ahead(pre, rest)| && Quiet(Ahead(pre, rest)[c..e])
  {
    hide Opened, Sendable, Quiet, Hold, Unambiguous, Wire, Stream;
    var k, c := Opened(buf, |pre|, rest, end), Hold(buf, pre, rest, end);
    HoldFits(buf, pre, rest, end);
    NextState(buf, pre, rest, end, c);
    var pre' := Ahead(pre, rest)[c..EndOfOpened(pre, rest, k)];
    if k == 0 {
      NoStream(rest[..0]);
      assert pre' == pre;
    } else {
      KeptPartQuiet(Wire(rest[k - 1]), |pre'|);
    }
  }

  /**
    * All reads are good: every frame is opened with its own type, or a stale one, and read as it was sent, though the
    * end of it may be stale; and no other 0x1a is completed to a marker.
    */
  ghost predicate GoodRun(img: seq<byte>, pre: seq<byte>, rest: seq<Sent>, d: nat, sizes: seq<nat>)
    requires |img| == BUFFER && CutsFit(pre, rest, d, sizes)
    decreases |sizes|
  {
    |sizes| == 0 ||
    (FirstFits(pre, rest, d, sizes);
     OverlaidBytes(img, pre, rest, d, sizes[0]);
     var end := d + sizes[0];
     var next := Overlaid(img, pre, rest, end);
     HoldFits(next, pre, rest, end);
     var k, c := Opened(next, |pre|, rest, end), Hold(next, pre, rest, end);
     LaterFit(next, pre, rest, d, sizes, c);
     && GoodRead(next, pre, rest, end)
     && GoodRun(next, Ahead(pre, rest)[c..EndOfOpened(pre, rest, k)], rest[k..], end - c, sizes[1..]))
  }

  lemma AllRead(pre: seq<byte>, rest: seq<Sent>, d: nat)
    requires CutsFit(pre, rest, d, [])
    ensures rest == []
  {
    hide Encoded;
  }

  lemma CutStep(bytes: seq<byte>, sizes: seq<nat>)
    requires |sizes| > 0 && Sum(sizes) == |bytes|
    ensures Cut(bytes, sizes) == [Data(bytes[..sizes[0]])] + Cut(bytes[sizes[0]..], sizes[1..])
  {
  }

  /** The first read of what is still to come. */
  lemma NextRead(pre: seq<byte>, rest: seq<Sent>, d: nat, sizes: seq<nat>)
    requires CutsFit(pre, rest, d, sizes) && |sizes| > 0
    ensures var all, end := Ahead(pre, rest), d + sizes[0];
            && end <= |all| && Sum(sizes) == |all[d..]| && Sum(sizes[1..]) == |all[end..]|
            && Cut(all[d..], sizes) == [Data(all[d..end])] + Cut(all[end..], sizes[1..])
  {
    hide Ahead, Cut;
    var all, end := Ahead(pre, rest), d + sizes[0];
    CutStep(all[d..], sizes);
    assert all[d..][..sizes[0]] == all[d..end] && all[d..][sizes[0]..] == all[end..];
  }

  /** Good reads bring exactly the frames that were sent. */
  lemma {:induction false} RunReturned(img: seq<byte>, pre: seq<byte>, rest: seq<Sent>, d: nat, frames: seq<Frame>,
                                       sizes: seq<nat>, max: nat)
    requires |img| == BUFFER && CutsFit(pre, rest, d, sizes) && Quiet(pre) && GoodRun(img, pre, rest, d, sizes)
    requires |frames| + |rest| <= max
    ensures Sum(sizes) == |Ahead(pre, rest)[d..]|
    ensures ReadAll(Image(img, Ahead(pre, rest)[..d]), d, frames, Cut(Ahead(pre, rest)[d..], sizes), max)
            == Ok(frames + Frames(rest))
    decreases |sizes|
  {
    hide ReadAll, Ahead, Frames, Opened, EndOfOpened, GoodRead, Overlaid, Hold, Quiet, Image, Cut, Sendable;
    var all := Ahead(pre, rest);
    if |sizes| == 0 {
      AllRead(pre, rest, d);
      NothingToRead(all[d..], Image(img, all[..d]), d, frames, max);
    } else {
      var end := d + sizes[0];
      FirstFits(pre, rest, d, sizes);
      OverlaidBytes(img, pre, rest, d, sizes[0]);
      var next := Overlaid(img, pre, rest, end);
      HoldFits(next, pre, rest, end);
      var k, c := Opened(next, |pre|, rest, end), Hold(next, pre, rest, end);
      LaterFit(next, pre, rest, d, sizes, c);
      NextRead(pre, rest, d, sizes);
      GoodTurn(img, pre, rest, d, sizes[0], frames, Cut(all[end..], sizes[1..]), max);
      FramesSplit(rest, k);
      assert frames + Frames(rest) == frames + Frames(rest[..k]) + Frames(rest[k..]);
      if |frames| + k >= max {
        NoFrames(rest[k..]);
      } else {
        GoodLaterQuiet(next, pre, rest, end);
        RunReturned(next, all[c..EndOfOpened(pre, rest, k)], rest[k..], end - c, frames + Frames(rest[..k]),
          sizes[1..], max);
      }
    }
  }

  lemma NoFrames(xs: seq<Sent>)
    requires |xs| == 0
    ensures Frames(xs) == []
  {
  }

  lemma NothingToRead(bytes: seq<byte>, buf: seq<byte>, d: nat, frames: seq<Frame>, max: nat)
    requires |bytes| == 0 && |buf| == BUFFER && d <= BUFFER
    ensures Sum([]) == |bytes| && ReadAll(buf, d, frames, Cut(bytes, []), max) == Ok(frames) && Frames([]) == []
  {
  }

  /** Any read: its markers, as far as the limit allows, and the state that follows. */
  lemma AnyTurn(buf: seq<byte>, pre: seq<byte>, rest: seq<Sent>, d: nat, sizes: seq<nat>,
                frames: seq<Frame>, later: seq<ReadEvent>, max: nat)
    returns (fs: seq<Frame>, buf': seq<byte>, c: nat)
    requires |buf| == BUFFER && CutsFit(pre, rest, d, sizes) && |sizes| > 0 && |frames| < max
    requires d <= BUFFER && buf[..d] == Ahead(pre, rest)[..d]
    ensures var all, end := Ahead(pre, rest), d + sizes[0];
            && end <= |all| && end + 9 <= BUFFER
            && var next := Filled(buf, d, all[d..end]);
            && InBuffer(next, pre, rest, end)
            && fs == Take(frames + Marked(next, 0, end), max)
            && |Marked(next, 0, end)| >= Opened(next, |pre|, rest, end)
            && |buf'| == BUFFER && c <= end
            && ReadAll(buf, d, frames, [Data(all[d..end])] + later, max) ==
               (if |fs| >= max then Ok(fs) else ReadAll(buf', end - c, fs, later, max))
            && (|fs| < max ==>
                  var k := Opened(next, |pre|, rest, end);
                  && c <= EndOfOpened(pre, rest, k)
                  && (if k == 0 then |pre| <= REST else LastOpened(|pre|, rest, k) < c)
                  && buf'[..end - c] == all[c..end])
  {
    hide ParseBeastFrame, ScanBuffer, Marked, ReadAll, Ahead, Opened, EndOfOpened, LastOpened, Sendable, Filled,
         Shifted, InBuffer;
    FirstFits(pre, rest, d, sizes);
    var all, end := Ahead(pre, rest), d + sizes[0];
    var next := Filled(buf, d, all[d..end]);
    FilledInBuffer(buf, pre, rest, d, end);
    MarkedRead(next, pre, rest, end);
    ScanIsMarked(next, end, 0, Scanned(frames, 0), max);
    OneTurn(buf, d, frames, all[d..end], later, max);
    var s := ScanBuffer(next, end, 0, Scanned(frames, 0), max);
    fs, buf', c := s.frames, next, end;
    if |fs| < max {
      AnyConsumed(next, pre, rest, end, Scanned(frames, 0), max);
      c := s.consumed;
      DeliveredSlice(next, pre, rest, end, c);
      if c < end {
        buf' := Shifted(next, c, end);
        ShiftedFront(next, c, end);
      }
    }
  }

  lemma ShiftedFront(buf: seq<byte>, c: nat, end: nat)
    requires c <= end <= |buf|
    ensures Shifted(buf, c, end)[..end - c] == buf[c..end]
  {
  }

  lemma FilledInBuffer(buf: seq<byte>, pre: seq<byte>, rest: seq<Sent>, d: nat, end: nat)
    requires d <= end && end + 9 <= |buf| && end <= |Ahead(pre, rest)| && buf[..d] == Ahead(pre, rest)[..d]
    ensures InBuffer(Filled(buf, d, Ahead(pre, rest)[d..end]), pre, rest, end)
  {
    hide Ahead;
    var all := Ahead(pre, rest);
    assert all[..d] + all[d..end] == all[..end];
  }

  /** Whatever happens, as many frames come back as are still to be opened, as far as the limit allows. */
  lemma {:induction false} RunAtLeast(buf: seq<byte>, pre: seq<byte>, rest: seq<Sent>, d: nat, frames: seq<Frame>,
                                      sizes: seq<nat>, max: nat)
    requires |buf| == BUFFER && CutsFit(pre, rest, d, sizes) && d <= BUFFER && buf[..d] == Ahead(pre, rest)[..d]
    requires |frames| < max
    ensures Sum(sizes) == |Ahead(pre, rest)[d..]|
    ensures var r := ReadAll(buf, d, frames, Cut(Ahead(pre, rest)[d..], sizes), max);
            r.Ok? && |r.frames| >= Min(max, |frames| + |rest|)
    decreases |sizes|
  {
    hide ReadAll, Ahead, Frames, Opened, EndOfOpened, LastOpened, Marked, Cut, Sendable, Filled, InBuffer;
    var all := Ahead(pre, rest);
    if |sizes| == 0 {
      AllRead(pre, rest, d);
      NothingToRead(all[d..], buf, d, frames, max);
    } else {
      var end := d + sizes[0];
      NextRead(pre, rest, d, sizes);
      var fs, buf', c := AnyTurn(buf, pre, rest, d, sizes, frames, Cut(all[end..], sizes[1..]), max);
      if |fs| < max {
        var next := Filled(buf, d, all[d..end]);
        var k := Opened(next, |pre|, rest, end);
        LaterFit(next, pre, rest, d, sizes, c);
        RunAtLeast(buf', all[c..EndOfOpened(pre, rest, k)], rest[k..], end - c, fs, sizes[1..], max);
      }
    }
  }

  /** The reader never takes a frame back. */
  lemma {:induction false} ReadAllExtends(buf: seq<byte>, offset: nat, frames: seq<Frame>, events: seq<ReadEvent>,
                                          max: nat)
    requires |buf| == BUFFER && offset <= BUFFER && |frames| <= max
    ensures var r := ReadAll(buf, offset, frames, events, max);
            r.Ok? ==> |frames| <= |r.frames| && r.frames[..|frames|] == frames
    decreases Volume(events) + |events|
  {
    hide ScanBuffer, ParseBeastFrame, Shifted, Filled, Marked;
    if |events| > 0 && events[0].Data? && Min(|events[0].bytes|, BUFFER - offset) > 0 {
      var n := Min(|events[0].bytes|, BUFFER - offset);
      var filled := Filled(buf, offset, events[0].bytes[..n]);
      var s := ScanBuffer(filled, offset + n, 0, Scanned(frames, 0), max);
      ScanIsMarked(filled, offset + n, 0, Scanned(frames, 0), max);
      if |s.frames| < max {
        if s.consumed < offset + n {
          ReadAllExtends(Shifted(filled, s.consumed, offset + n), offset + n - s.consumed, s.frames, Rest(events, n),
            max);
        } else {
          ReadAllExtends(filled, 0, s.frames, Rest(events, n), max);
        }
      }
    }
  }

  /** A read that is not good makes the reader return something else. */
  lemma BadTurn(img: seq<byte>, pre: seq<byte>, rest: seq<Sent>, d: nat, frames: seq<Frame>, sizes: seq<nat>, max: nat)
    requires |img| == BUFFER && CutsFit(pre, rest, d, sizes) && Quiet(pre) && |sizes| > 0
    requires d + sizes[0] <= BUFFER && !GoodRead(Overlaid(img, pre, rest, d + sizes[0]), pre, rest, d + sizes[0])
    requires |frames| + |rest| < max
    ensures Sum(sizes) == |Ahead(pre, rest)[d..]|
    ensures ReadAll(Image(img, Ahead(pre, rest)[..d]), d, frames, Cut(Ahead(pre, rest)[d..], sizes), max)
            != Ok(frames + Frames(rest))
  {
    hide ReadAll, Ahead, Frames, Opened, EndOfOpened, LastOpened, Marked, Cut, Sendable, Filled, InBuffer, GoodRead,
         Overlaid, Image, Quiet;
    var all, end := Ahead(pre, rest), d + sizes[0];
    FirstFits(pre, rest, d, sizes);
    OverlaidBytes(img, pre, rest, d, sizes[0]);
    ImageFront(img, all[..d]);
    NextRead(pre, rest, d, sizes);
    var next := Overlaid(img, pre, rest, end);
    var k := Opened(next, |pre|, rest, end);
    var marked := Marked(next, 0, end);
    MarkedRead(next, pre, rest, end);
    var fs, buf', c := AnyTurn(Image(img, all[..d]), pre, rest, d, sizes, frames, Cut(all[end..], sizes[1..]), max);
    if |marked| > k {
      if |fs| < max {
        LaterFit(next, pre, rest, d, sizes, c);
        RunAtLeast(buf', all[c..EndOfOpened(pre, rest, k)], rest[k..], end - c, fs, sizes[1..], max);
      }
    } else {
      FramesSplit(rest, k);
      assert frames + Frames(rest) == frames + Frames(rest[..k]) + Frames(rest[k..]);
      DifferentPrefix(frames, marked, Frames(rest[..k]), Frames(rest[k..]));
      if |fs| < max {
        ReadAllExtends(buf', end - c, fs, Cut(all[end..], sizes[1..]), max);
      }
    }
  }

  lemma ImageFront(img: seq<byte>, t: seq<byte>)
    requires |t| <= |img|
    ensures Image(img, t)[..|t|] == t
  {
  }

  lemma DifferentPrefix(frames: seq<Frame>, a: seq<Frame>, b: seq<Frame>, more: seq<Frame>)
    requires |a| == |b| && a != b
    ensures forall r: seq<Frame> | |frames + a| <= |r| && r[..|frames + a|] == frames + a :: r != frames + b + more
  {
    assert (frames + a)[|frames|..] == a && (frames + b)[|frames|..] == b;
    assert (frames + b + more)[..|frames + b|] == frames + b;
  }

  /** A run that is not good returns something else than what was sent. */
  lemma {:induction false} RunSpoiled(img: seq<byte>, pre: seq<byte>, rest: seq<Sent>, d: nat, frames: seq<Frame>,
                                      sizes: seq<nat>, max: nat)
    requires |img| == BUFFER && CutsFit(pre, rest, d, sizes) && Quiet(pre) && !GoodRun(img, pre, rest, d, sizes)
    requires |frames| + |rest| < max
    ensures Sum(sizes) == |Ahead(pre, rest)[d..]|
    ensures ReadAll(Image(img, Ahead(pre, rest)[..d]), d, frames, Cut(Ahead(pre, rest)[d..], sizes), max)
            != Ok(frames + Frames(rest))
    decreases |sizes|
  {
    hide ReadAll, Ahead, Frames, Opened, EndOfOpened, GoodRead, Overlaid, Hold, Quiet, Image, Cut, Sendable;
    var all := Ahead(pre, rest);
    var end := d + sizes[0];
    FirstFits(pre, rest, d, sizes);
    OverlaidBytes(img, pre, rest, d, sizes[0]);
    var next := Overlaid(img, pre, rest, end);
    HoldFits(next, pre, rest, end);
    var k, c := Opened(next, |pre|, rest, end), Hold(next, pre, rest, end);
    LaterFit(next, pre, rest, d, sizes, c);
    NextRead(pre, rest, d, sizes);
    if GoodRead(next, pre, rest, end) {
      GoodTurn(img, pre, rest, d, sizes[0], frames, Cut(all[end..], sizes[1..]), max);
      FramesSplit(rest, k);
      assert frames + Frames(rest) == frames + Frames(rest[..k]) + Frames(rest[k..]);
      GoodLaterQuiet(next, pre, rest, end);
      RunSpoiled(next, all[c..EndOfOpened(pre, rest, k)], rest[k..], end - c, frames + Frames(rest[..k]), sizes[1..],
        max);
    } else {
      BadTurn(img, pre, rest, d, frames, sizes, max);
    }
  }

  // ---- the theorem ----

  lemma StartFits(xs: seq<Sent>, sizes: seq<nat>)
    requires Sendable(xs) && SizesFit(sizes) && Sum(sizes) == |Stream(xs)|
    ensures CutsFit([], xs, 0, sizes) && Ahead([], xs) == Stream(xs) && Quiet([])
  {
    hide Encoded;
  }

  /**
    * Unambiguous frames, printed one after the other and read in pieces of any sizes, come back exactly if and only if
    * every read is good. The reader is given room for one more frame than was sent; good reads do not need it.
    */
  lemma CutStream(xs: seq<Sent>, sizes: seq<nat>, max: nat)
    requires AllMessages(xs) && AllUnambiguous(xs) && max >= |xs|
    requires SizesFit(sizes) && Sum(sizes) == |Stream(xs)|
    ensures CutsFit([], xs, 0, sizes)
    ensures var back := ReadAll(ZeroBuffer(), 0, [], Cut(Stream(xs), sizes), max) == Ok(Frames(xs));
            && (GoodRun(ZeroBuffer(), [], xs, 0, sizes) ==> back)
            && (max > |xs| ==> (back <==> GoodRun(ZeroBuffer(), [], xs, 0, sizes)))
  {
    hide ReadAll, GoodRun, Cut, Frames, Stream, CutsFit, Ahead;
    StartFits(xs, sizes);
    var s := Stream(xs);
    assert s[0..] == s && s[..0] == [];
    assert Image(ZeroBuffer(), []) == ZeroBuffer();
    assert [] + Frames(xs) == Frames(xs);
    if GoodRun(ZeroBuffer(), [], xs, 0, sizes) {
      RunReturned(ZeroBuffer(), [], xs, 0, [], sizes, max);
    } else if max > |xs| {
      RunSpoiled(ZeroBuffer(), [], xs, 0, [], sizes, max);
    }
  }
}
