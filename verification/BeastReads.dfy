/** Printed frames that arrive in several reads, each of them ending at the end of a frame. */
module BeastReads {
  import opened Common
  import opened Beast
  import opened BeastReader
  import opened BeastProps

  /** Bytes in which no marker is followed by a frame type. */
  ghost predicate Quiet(t: seq<byte>) {
    forall k :: 0 <= k < |t| - 1 && t[k] == ESC ==> !IsType(t[k + 1])
  }

  lemma WireShort(x: Sent)
    requires IsMessage(x.data)
    ensures 16 <= |Wire(x)| <= 37
  {
  }

  /** What the reader keeps of a frame it has read: everything from its first inner 0x1a on. */
  function Kept(x: Sent): (t: seq<byte>)
    ensures |t| < |Wire(x)|
  {
    var w := Wire(x);
    WireStart(x);
    w[NextMarker(w, |w|, 1)..]
  }

  lemma KeptQuiet(x: Sent)
    requires Unambiguous(Wire(x))
    ensures Quiet(Kept(x))
  {
    hide IsType;
    var w, t := Wire(x), Kept(x);
    WireStart(x);
    var c := NextMarker(w, |w|, 1);
    forall k | 0 <= k < |t| - 1 && t[k] == ESC
      ensures !IsType(t[k + 1])
    {
      assert t[k] == w[c + k] && t[k + 1] == w[c + k + 1];
    }
  }

  /** The last frame of a stream, and where it begins. */
  lemma {:induction false} LastFrame(xs: seq<Sent>) returns (before: seq<byte>)
    requires |xs| > 0
    ensures Stream(xs) == before + Wire(xs[|xs| - 1])
  {
    hide Encoded;
    if |xs| == 1 {
      before := [];
      assert xs[1..] == [];
    } else {
      var b := LastFrame(xs[1..]);
      before := Wire(xs[0]) + b;
    }
  }

  lemma LastFrameParses(buf: seq<byte>, offset: nat, xs: seq<Sent>) returns (f: nat)
    requires AllMessages(xs) && |xs| > 0 && BytesAt(buf, offset, Stream(xs))
    ensures offset <= f && f + |Wire(xs[|xs| - 1])| == offset + |Stream(xs)| <= |buf|
    ensures 16 <= |Wire(xs[|xs| - 1])| <= 37 && BytesAt(buf, f, Wire(xs[|xs| - 1]))
    ensures buf[f] == ESC && ParseBeastFrame(buf[f..]).Some?
    ensures CompletedAt(buf, f, Wire(xs[|xs| - 1])) <==> CompletedAt(buf, offset, Stream(xs))
  {
    hide ParseBeastFrame, Encoded, Stream, IsType;
    var x := xs[|xs| - 1];
    var before := LastFrame(xs);
    f := offset + |before|;
    SplitAt(buf, offset, before, Wire(x));
    WireShort(x);
    FrameMarked(buf, f, x);
  }

  // ---- the buffer between reads ----

  /**
    * The reader's buffer when the frames of one read are in it: kept bytes, frames, and what is left of earlier
    * reads.
    */
  function Loaded(img: seq<byte>, t: seq<byte>, xs: seq<Sent>): (next: seq<byte>)
    requires |t| + |Stream(xs)| <= |img|
    ensures |next| == |img|
  {
    t + Stream(xs) + img[|t| + |Stream(xs)|..]
  }

  /** The frames of a read fit behind `kept` bytes, with room for one more header. */
  ghost predicate ReadFits(kept: nat, xs: seq<Sent>) {
    |xs| > 0 && AllMessages(xs) && kept + |Stream(xs)| + 9 <= 65536
  }

  /** Every read fits behind the bytes that are kept from the one before. */
  ghost predicate ReadsFit(kept: nat, chunks: seq<seq<Sent>>)
    decreases |chunks|
  {
    |chunks| == 0 ||
    (ReadFits(kept, chunks[0]) && ReadsFit(|Kept(chunks[0][|chunks[0]| - 1])|, chunks[1..]))
  }

  /** One read is read faithfully: no frame is ambiguous, and no stale byte makes a marker of the last byte. */
  ghost predicate FaithfulRead(img: seq<byte>, t: seq<byte>, xs: seq<Sent>)
    requires |t| + |Stream(xs)| <= |img|
  {
    AllUnambiguous(xs) && !CompletedAt(Loaded(img, t, xs), |t|, Stream(xs))
  }

  /** All reads are, when the buffer holds `img` and the bytes `t` have been kept. */
  ghost predicate Faithful(img: seq<byte>, t: seq<byte>, chunks: seq<seq<Sent>>)
    requires |img| == BUFFER && ReadsFit(|t|, chunks)
    decreases |chunks|
  {
    |chunks| == 0 ||
    (var xs := chunks[0];
     FaithfulRead(img, t, xs) && Faithful(Loaded(img, t, xs), Kept(xs[|xs| - 1]), chunks[1..]))
  }

  function Image(img: seq<byte>, t: seq<byte>): (buf: seq<byte>)
    requires |t| <= |img|
    ensures |buf| == |img|
  {
    t + img[|t|..]
  }

  lemma LoadedIsFilled(img: seq<byte>, t: seq<byte>, xs: seq<Sent>)
    requires |t| + |Stream(xs)| <= |img|
    ensures Filled(Image(img, t), |t|, Stream(xs)) == Loaded(img, t, xs)
    ensures BytesAt(Loaded(img, t, xs), |t|, Stream(xs))
    ensures Loaded(img, t, xs)[..|t|] == t
  {
    hide Stream;
  }

  /** The kept bytes parse to nothing in front of another read. */
  lemma QuietTail(buf: seq<byte>, t: seq<byte>, w: seq<byte>)
    requires Quiet(t) && BytesAt(buf, |t|, w) && buf[..|t|] == t && |w| > 0 && w[0] == ESC
    ensures Marked(buf, 0, |t|) == []
  {
    hide ParseBeastFrame, Marked, IsType;
    EscIsNoType();
    forall p | 0 <= p < |t|
      ensures buf[p] != ESC || ParseBeastFrame(buf[p..]).None?
    {
      assert buf[p] == t[p];
      if buf[p] == ESC {
        if p + 1 < |t| {
          assert buf[p + 1] == t[p + 1];
        } else {
          ByteOf(buf, |t|, w, 0);
        }
        MarkerAt(buf, p);
      }
    }
    NothingMarked(buf, 0, |t|);
  }

  lemma SameMarker(buf: seq<byte>, f: nat, w: seq<byte>, total: nat)
    requires |w| > 0 && BytesAt(buf, f, w) && total == f + |w|
    ensures NextMarker(buf, total, f + 1) == f + NextMarker(w, |w|, 1)
  {
    var a, b := NextMarker(buf, total, f + 1), NextMarker(w, |w|, 1);
    hide NextMarker;
    if b < |w| {
      ByteOf(buf, f, w, b);
    }
    if a < total {
      ByteOf(buf, f, w, a - f);
    }
  }

  /** What is kept after a scan. */
  lemma KeptBytes(buf: seq<byte>, offset: nat, xs: seq<Sent>, s: Scanned, max: nat)
    requires AllMessages(xs) && AllUnambiguous(xs) && |xs| > 0 && s.consumed == 0
    requires BytesAt(buf, offset, Stream(xs)) && !CompletedAt(buf, offset, Stream(xs))
    ensures offset + |Stream(xs)| <= |buf|
    ensures var total := offset + |Stream(xs)|;
            var r := ScanBuffer(buf, total, 0, s, max);
            |r.frames| < max ==> buf[r.consumed..total] == Kept(xs[|xs| - 1])
  {
    hide ParseBeastFrame, ScanBuffer, Stream, Unambiguous, IsType, CompletedAt, NextMarker, Wire;
    var x, total := xs[|xs| - 1], offset + |Stream(xs)|;
    var f := LastFrameParses(buf, offset, xs);
    InnerClean(buf, f, Wire(x));
    ConsumedUpTo(buf, total, 0, s, max, f);
    WireStart(x);
    SameMarker(buf, f, Wire(x), total);
    var c := NextMarker(Wire(x), |Wire(x)|, 1);
    assert buf[f..total] == Wire(x);
    assert buf[f + c..total] == buf[f..total][c..];
  }

  // ---- one read ----

  /** A faithful read brings exactly its frames, and leaves the buffer as described. */
  lemma FaithfulTurn(img: seq<byte>, t: seq<byte>, xs: seq<Sent>, frames: seq<Frame>, later: seq<ReadEvent>, max: nat)
    requires |img| == BUFFER && Quiet(t) && ReadFits(|t|, xs) && FaithfulRead(img, t, xs)
    requires |frames| + |xs| <= max
    ensures |Kept(xs[|xs| - 1])| <= BUFFER && Quiet(Kept(xs[|xs| - 1]))
    ensures var kept := Kept(xs[|xs| - 1]);
            ReadAll(Image(img, t), |t|, frames, [Data(Stream(xs))] + later, max) ==
            if |frames| + |xs| >= max then Ok(frames + Frames(xs))
            else ReadAll(Image(Loaded(img, t, xs), kept), |kept|, frames + Frames(xs), later, max)
  {
    hide ParseBeastFrame, ScanBuffer, Marked, IsType, Stream, Frames, Unambiguous, AllUnambiguous, Quiet, ReadAll,
         Kept, Wire, CompletedAt, BytesAt;
    var w, next := Stream(xs), Loaded(img, t, xs);
    var total := |t| + |w|;
    StreamStart(xs);
    LoadedIsFilled(img, t, xs);
    QuietTail(next, t, w);
    MarkedSplit(next, 0, |t|, total);
    StreamMarked(next, |t|, xs);
    ScanIsMarked(next, total, 0, Scanned(frames, 0), max);
    KeptBytes(next, |t|, xs, Scanned(frames, 0), max);
    OneTurn(Image(img, t), |t|, frames, w, later, max);
    var s := ScanBuffer(next, total, 0, Scanned(frames, 0), max);
    assert s.frames == frames + Frames(xs);
    LastUnambiguous(xs);
    WireShort(xs[|xs| - 1]);
    KeptQuiet(xs[|xs| - 1]);
    if |s.frames| < max {
      KeptImage(next, s.consumed, total, Kept(xs[|xs| - 1]));
    }
  }

  lemma LastUnambiguous(xs: seq<Sent>)
    requires AllUnambiguous(xs) && |xs| > 0
    ensures Unambiguous(Wire(xs[|xs| - 1]))
  {
    hide Unambiguous;
  }

  lemma KeptImage(buf: seq<byte>, consumed: nat, total: nat, kept: seq<byte>)
    requires consumed <= total <= |buf| && buf[consumed..total] == kept
    ensures |kept| == total - consumed
    ensures Image(buf, kept) == if consumed < total then Shifted(buf, consumed, total) else buf
  {
  }

  /** A scan finds at least the frames of a read, and one more if the read is not faithful. */
  lemma ScanAtLeast(buf: seq<byte>, offset: nat, xs: seq<Sent>, frames: seq<Frame>, max: nat)
    requires |buf| == BUFFER && ReadFits(offset, xs) && BytesAt(buf, offset, Stream(xs)) && |frames| < max
    ensures offset + |Stream(xs)| <= |buf|
    ensures var total := offset + |Stream(xs)|;
            var s := ScanBuffer(buf, total, 0, Scanned(frames, 0), max);
            && |s.frames| >= Min(max, |frames| + |xs|)
            && (!AllUnambiguous(xs) || CompletedAt(buf, offset, Stream(xs)) ==>
                  |s.frames| >= Min(max, |frames| + |xs| + 1))
            && (|s.frames| < max ==> total - s.consumed <= |Kept(xs[|xs| - 1])|)
  {
    hide ParseBeastFrame, ScanBuffer, Marked, IsType, Stream, Unambiguous, AllUnambiguous, Wire, CompletedAt, BytesAt;
    BytesFit(buf, offset, Stream(xs));
    var total := offset + |Stream(xs)|;
    MarkedSplit(buf, 0, offset, total);
    StreamAtLeast(buf, offset, xs);
    ScanIsMarked(buf, total, 0, Scanned(frames, 0), max);
    var w := Wire(xs[|xs| - 1]);
    var f := LastFrameParses(buf, offset, xs);
    ConsumedAtLeast(buf, total, 0, Scanned(frames, 0), max, f);
    SameMarker(buf, f, w, total);
    KeptLength(xs[|xs| - 1]);
  }

  lemma KeptLength(x: Sent)
    ensures |Wire(x)| > 0 && |Kept(x)| == |Wire(x)| - NextMarker(Wire(x), |Wire(x)|, 1)
  {
    hide Encoded;
    WireStart(x);
  }

  /** Any read brings at least its frames, and one more if it is not faithful. */
  lemma AnyTurn(buf: seq<byte>, offset: nat, xs: seq<Sent>, frames: seq<Frame>, later: seq<ReadEvent>, max: nat)
    returns (fs: seq<Frame>, buf': seq<byte>, offset': nat)
    requires |buf| == BUFFER && ReadFits(offset, xs)
    ensures |buf'| == BUFFER && offset' <= |Kept(xs[|xs| - 1])|
    ensures ReadAll(buf, offset, frames, [Data(Stream(xs))] + later, max) ==
            if |fs| >= max then Ok(fs) else ReadAll(buf', offset', fs, later, max)
    ensures |fs| >= Min(max, |frames| + |xs|)
    ensures !AllUnambiguous(xs) || CompletedAt(Filled(buf, offset, Stream(xs)), offset, Stream(xs)) ==>
              |fs| >= Min(max, |frames| + |xs| + 1)
  {
    hide ScanBuffer, Stream, AllUnambiguous, ReadAll, CompletedAt, Filled, Shifted;
    var w, next := Stream(xs), Filled(buf, offset, Stream(xs));
    var total := offset + |w|;
    StreamStart(xs);
    OneTurn(buf, offset, frames, w, later, max);
    var s := ScanBuffer(next, total, 0, Scanned(frames, 0), max);
    fs := s.frames;
    buf', offset' := buf, 0;
    if |frames| >= max {
      FullScan(next, total, Scanned(frames, 0), max);
    } else {
      FilledBytes(buf, offset, w);
      ScanAtLeast(next, offset, xs, frames, max);
      if |fs| < max {
        if s.consumed < total {
          buf', offset' := Shifted(next, s.consumed, total), total - s.consumed;
        } else {
          buf' := next;
        }
      }
    }
  }

  lemma FilledBytes(buf: seq<byte>, offset: nat, w: seq<byte>)
    requires offset + |w| <= |buf|
    ensures BytesAt(Filled(buf, offset, w), offset, w)
  {
  }

  lemma FullScan(buf: seq<byte>, total: nat, s: Scanned, max: nat)
    requires total <= |buf| && s.consumed <= total && |s.frames| >= max
    ensures ScanBuffer(buf, total, 0, s, max) == s
  {
  }

  // ---- any number of reads ----

  function Reads(chunks: seq<seq<Sent>>): (events: seq<ReadEvent>)
    ensures |events| == |chunks|
  {
    if |chunks| == 0 then [] else [Data(Stream(chunks[0]))] + Reads(chunks[1..])
  }

  function AllFrames(chunks: seq<seq<Sent>>): (fs: seq<Frame>) {
    if |chunks| == 0 then [] else Frames(chunks[0]) + AllFrames(chunks[1..])
  }

  lemma NoReads(buf: seq<byte>, offset: nat, frames: seq<Frame>, max: nat)
    requires |buf| == BUFFER && offset <= BUFFER
    ensures ReadAll(buf, offset, frames, [], max) == Ok(frames)
  {
  }

  lemma NoneLeft(kept: nat, chunks: seq<seq<Sent>>)
    requires ReadsFit(kept, chunks) && AllFrames(chunks) == []
    ensures chunks == []
  {
    hide Stream;
  }

  /** Faithful reads bring exactly their frames. */
  lemma {:induction false} ReadsReturned(img: seq<byte>, t: seq<byte>, frames: seq<Frame>, chunks: seq<seq<Sent>>,
                                         max: nat)
    requires |img| == BUFFER && |t| <= BUFFER && Quiet(t) && ReadsFit(|t|, chunks) && Faithful(img, t, chunks)
    requires |frames| + |AllFrames(chunks)| <= max
    ensures ReadAll(Image(img, t), |t|, frames, Reads(chunks), max) == Ok(frames + AllFrames(chunks))
    decreases |chunks|
  {
    hide Stream, Quiet, Frames, ReadAll, Kept, ReadFits, FaithfulRead, Loaded, Image;
    if |chunks| == 0 {
      NoReads(Image(img, t), |t|, frames, max);
    } else {
      var xs := chunks[0];
      LoadedFits(t, xs);
      FaithfulTurn(img, t, xs, frames, Reads(chunks[1..]), max);
      assert frames + Frames(xs) + AllFrames(chunks[1..]) == frames + AllFrames(chunks);
      if |frames| + |xs| >= max {
        NoneLeft(|Kept(xs[|xs| - 1])|, chunks[1..]);
      } else {
        ReadsReturned(Loaded(img, t, xs), Kept(xs[|xs| - 1]), frames + Frames(xs), chunks[1..], max);
      }
    }
  }

  lemma LoadedFits(t: seq<byte>, xs: seq<Sent>)
    requires ReadFits(|t|, xs)
    ensures |xs| > 0 && |t| + |Stream(xs)| <= BUFFER
  {
    hide Stream;
  }

  /** Whatever the reads are, at least their frames come back, as far as the limit allows. */
  lemma {:induction false} ReadsAtLeast(buf: seq<byte>, offset: nat, frames: seq<Frame>, chunks: seq<seq<Sent>>,
                                        max: nat, kept: nat)
    requires |buf| == BUFFER && offset <= kept <= BUFFER && ReadsFit(kept, chunks)
    ensures var r := ReadAll(buf, offset, frames, Reads(chunks), max);
            r.Ok? && |r.frames| >= Min(max, |frames| + |AllFrames(chunks)|)
    decreases |chunks|
  {
    hide Stream, ReadAll, ReadFits, CompletedAt, AllUnambiguous;
    if |chunks| == 0 {
      NoReads(buf, offset, frames, max);
    } else {
      var xs := chunks[0];
      FitsEarlier(kept, offset, xs);
      WireShort(xs[|xs| - 1]);
      var fs, buf', offset' := AnyTurn(buf, offset, xs, frames, Reads(chunks[1..]), max);
      if |fs| < max {
        ReadsAtLeast(buf', offset', fs, chunks[1..], max, |Kept(xs[|xs| - 1])|);
      }
    }
  }

  lemma FitsEarlier(kept: nat, offset: nat, xs: seq<Sent>)
    requires ReadFits(kept, xs) && offset <= kept
    ensures ReadFits(offset, xs) && |xs| > 0 && IsMessage(xs[|xs| - 1].data)
  {
    hide Stream;
  }

  /** A read that is not faithful makes the reader return more frames than were sent. */
  lemma {:induction false} ReadsSpoiled(img: seq<byte>, t: seq<byte>, frames: seq<Frame>, chunks: seq<seq<Sent>>,
                                        max: nat)
    requires |img| == BUFFER && |t| <= BUFFER && Quiet(t) && ReadsFit(|t|, chunks) && !Faithful(img, t, chunks)
    requires |frames| + |AllFrames(chunks)| < max
    ensures var r := ReadAll(Image(img, t), |t|, frames, Reads(chunks), max);
            r.Ok? && |r.frames| > |frames| + |AllFrames(chunks)|
    decreases |chunks|
  {
    hide Stream, Quiet, ReadAll, Kept, ReadFits, Loaded, Image, AllUnambiguous, CompletedAt;
    var xs := chunks[0];
    LoadedFits(t, xs);
    FitsEarlier(|t|, |t|, xs);
    WireShort(xs[|xs| - 1]);
    if FaithfulRead(img, t, xs) {
      FaithfulTurn(img, t, xs, frames, Reads(chunks[1..]), max);
      ReadsSpoiled(Loaded(img, t, xs), Kept(xs[|xs| - 1]), frames + Frames(xs), chunks[1..], max);
    } else {
      LoadedIsFilled(img, t, xs);
      var fs, buf', offset' := AnyTurn(Image(img, t), |t|, xs, frames, Reads(chunks[1..]), max);
      if |fs| < max {
        ReadsAtLeast(buf', offset', fs, chunks[1..], max, |Kept(xs[|xs| - 1])|);
      }
    }
  }

  /**
    * Printed frames that are spread over any number of reads, none of which ends within a frame, come back exactly if
    * and only if every read is faithful: no frame is ambiguous, and no read whose last byte is 0x1a is followed by a
    * stale frame type in the buffer. The reader is given room for one more frame than was sent; faithful reads do not
    * need it.
    */
  lemma WholeFrameReads(chunks: seq<seq<Sent>>, max: nat)
    requires ReadsFit(0, chunks) && max >= |AllFrames(chunks)|
    ensures var back := ReadAll(ZeroBuffer(), 0, [], Reads(chunks), max) == Ok(AllFrames(chunks));
            && (Faithful(ZeroBuffer(), [], chunks) ==> back)
            && (max > |AllFrames(chunks)| ==> (back <==> Faithful(ZeroBuffer(), [], chunks)))
  {
    hide ReadAll, ReadsFit, Faithful, Reads, AllFrames;
    assert Image(ZeroBuffer(), []) == ZeroBuffer();
    assert Quiet([]);
    assert [] + AllFrames(chunks) == AllFrames(chunks);
    if Faithful(ZeroBuffer(), [], chunks) {
      ReadsReturned(ZeroBuffer(), [], [], chunks, max);
    } else if max > |AllFrames(chunks)| {
      ReadsSpoiled(ZeroBuffer(), [], [], chunks, max);
    }
  }

  // ---- payloads that do not end in 0x1a ----

  lemma WireEnd(x: Sent)
    requires IsMessage(x.data)
    ensures EndsInMarker(Wire(x)) <==> EndsInMarker(x.data)
  {
    hide TimestampBytes;
    var w, e := Wire(x), Escaped(x.data);
    assert w[|w| - 1] == e[|e| - 1];
  }

  /** Without ambiguous frames, only a payload that ends in 0x1a, the last one of its read, can spoil a run. */
  lemma {:induction false} FaithfulUnlessMarkerEnds(img: seq<byte>, t: seq<byte>, chunks: seq<seq<Sent>>)
    requires |img| == BUFFER && ReadsFit(|t|, chunks)
    requires forall i :: 0 <= i < |chunks| ==> AllUnambiguous(chunks[i])
    requires forall i :: 0 <= i < |chunks| && |chunks[i]| > 0 ==> !EndsInMarker(chunks[i][|chunks[i]| - 1].data)
    ensures Faithful(img, t, chunks)
    decreases |chunks|
  {
    hide Stream, Wire, Kept, ReadFits, Loaded, AllUnambiguous;
    if |chunks| > 0 {
      var xs := chunks[0];
      LoadedFits(t, xs);
      StreamEnd(|t|, xs);
      FaithfulUnlessMarkerEnds(Loaded(img, t, xs), Kept(xs[|xs| - 1]), chunks[1..]);
    }
  }

  lemma StreamEnd(kept: nat, xs: seq<Sent>)
    requires ReadFits(kept, xs)
    ensures EndsInMarker(Stream(xs)) <==> EndsInMarker(xs[|xs| - 1].data)
  {
    hide Stream, Encoded;
    var before := LastFrame(xs);
    WireEnd(xs[|xs| - 1]);
    WireStart(xs[|xs| - 1]);
  }
}
