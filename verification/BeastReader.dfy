/** The stream reader: it scans what it has for start markers and parses at each of them. */
module BeastReader {
  import opened Common
  import opened Beast

  const BUFFER: nat := 65536

  /** What one call of the underlying stream can bring; an empty chunk is the end of the stream. */
  datatype ReadEvent = Data(bytes: seq<byte>) | WouldBlock | Failed

  datatype Outcome = Ok(frames: seq<Frame>) | Err

  // ---- the scan of one buffer ----

  /** The first marker at or after `i`, or `total`. */
  function NextMarker(buf: seq<byte>, total: nat, i: nat): (j: nat)
    requires i <= total <= |buf|
    ensures i <= j <= total
    ensures forall k :: i <= k < j ==> buf[k] != ESC
    ensures j < total ==> buf[j] == ESC
    decreases total - i
  {
    if i == total || buf[i] == ESC then i else NextMarker(buf, total, i + 1)
  }

  datatype Scanned = Scanned(frames: seq<Frame>, consumed: nat)

  function ScanBuffer(buf: seq<byte>, total: nat, i: nat, s: Scanned, max: nat): (r: Scanned)
    requires i <= total <= |buf| && s.consumed <= total
    ensures r.consumed <= total
    decreases total - i
  {
    if i == total || |s.frames| >= max then s
    else if buf[i] == ESC && ParseBeastFrame(buf[i..]).Some? then
      var next := NextMarker(buf, total, i + 1);
      ScanBuffer(buf, total, next, Scanned(s.frames + [ParseBeastFrame(buf[i..]).value], next), max)
    else ScanBuffer(buf, total, i + 1, s, max)
  }

  method ScanLoop(buf: array<byte>, total: nat, before: seq<Frame>, max: nat)
    returns (frames: seq<Frame>, consumed: nat)
    requires total <= buf.Length
    ensures Scanned(frames, consumed) == ScanBuffer(buf[..], total, 0, Scanned(before, 0), max)
  {
    hide ParseBeastFrame;
    frames, consumed := before, 0;
    var i := 0;
    while i < total && |frames| < max
      invariant i <= total && consumed <= total
      invariant ScanBuffer(buf[..], total, i, Scanned(frames, consumed), max)
                == ScanBuffer(buf[..], total, 0, Scanned(before, 0), max)
      decreases total - i
    {
      if buf[i] == ESC {
        var frame := ParseBeastFrame(buf[i..]);
        assert buf[i..] == buf[..][i..];
        if frame.Some? {
          frames := frames + [frame.value];
          ghost var start := i + 1;
          i := i + 1;
          while i < total && buf[i] != ESC
            invariant start <= i <= total
            invariant NextMarker(buf[..], total, i) == NextMarker(buf[..], total, start)
          {
            i := i + 1;
          }
          consumed := i;
          continue;
        }
      }
      i := i + 1;
    }
  }

  // ---- the whole reader ----

  function Shifted(buf: seq<byte>, consumed: nat, total: nat): (r: seq<byte>)
    requires consumed <= total <= |buf|
    ensures |r| == |buf|
  {
    buf[consumed..total] + buf[total - consumed..]
  }

  function Filled(buf: seq<byte>, offset: nat, chunk: seq<byte>): (r: seq<byte>)
    requires offset + |chunk| <= |buf|
    ensures |r| == |buf|
  {
    buf[..offset] + chunk + buf[offset + |chunk|..]
  }

  function Volume(events: seq<ReadEvent>): nat {
    if |events| == 0 then 0 else (if events[0].Data? then |events[0].bytes| else 0) + Volume(events[1..])
  }

  /** The events that are left when `n` bytes of the first one have been taken. */
  function Rest(events: seq<ReadEvent>, n: nat): (r: seq<ReadEvent>)
    requires |events| > 0 && events[0].Data? && n <= |events[0].bytes|
    ensures n > 0 ==> Volume(r) + |r| < Volume(events) + |events|
  {
    var later := events[1..];
    if n < |events[0].bytes| then
      var r := [Data(events[0].bytes[n..])] + later;
      assert r[1..] == later;
      r
    else later
  }

  function ReadAll(buf: seq<byte>, offset: nat, frames: seq<Frame>, events: seq<ReadEvent>, max: nat): Outcome
    requires |buf| == BUFFER && offset <= BUFFER
    decreases Volume(events) + |events|
  {
    if |events| == 0 || events[0].WouldBlock? then Ok(frames)
    else if events[0].Failed? then Err
    else
      var n := Min(|events[0].bytes|, BUFFER - offset);
      if n == 0 then Ok(frames)
      else
        var filled := Filled(buf, offset, events[0].bytes[..n]);
        var s := ScanBuffer(filled, offset + n, 0, Scanned(frames, 0), max);
        if |s.frames| >= max then Ok(s.frames)
        else if s.consumed < offset + n then
          ReadAll(Shifted(filled, s.consumed, offset + n), offset + n - s.consumed, s.frames, Rest(events, n), max)
        else ReadAll(filled, 0, s.frames, Rest(events, n), max)
  }

  function ZeroBuffer(): (buf: seq<byte>)
    ensures |buf| == BUFFER
  {
    seq(BUFFER, _ => 0)
  }

  method ReadBeastFrames(reader: seq<ReadEvent>, maxFrames: nat) returns (r: Outcome)
    ensures r == ReadAll(ZeroBuffer(), 0, [], reader, maxFrames)
  {
    hide ScanBuffer, ParseBeastFrame, Filled, Shifted, Rest;
    var buf := new byte[BUFFER](_ => 0);
    var frames := [];
    var offset: nat := 0;
    var events := reader;
    assert buf[..] == ZeroBuffer();
    while |events| > 0
      invariant offset <= BUFFER && buf.Length == BUFFER
      invariant ReadAll(buf[..], offset, frames, events, maxFrames) == ReadAll(ZeroBuffer(), 0, [], reader, maxFrames)
      decreases Volume(events) + |events|
    {
      match events[0]
      case WouldBlock => return Ok(frames);
      case Failed => return Err;
      case Data(bytes) =>
        var n := Min(|bytes|, BUFFER - offset);
        if n == 0 {
          break;
        }
        CopyIn(buf, offset, bytes[..n]);
        var total := offset + n;
        var consumed;
        frames, consumed := ScanLoop(buf, total, frames, maxFrames);
        if |frames| >= maxFrames {
          break;
        }
        if consumed < total {
          ShiftDown(buf, consumed, total);
          offset := total - consumed;
        } else {
          offset := 0;
        }
        events := Rest(events, n);
    }
    return Ok(frames);
  }

  method CopyIn(buf: array<byte>, offset: nat, chunk: seq<byte>)
    requires offset + |chunk| <= buf.Length
    modifies buf
    ensures buf[..] == Filled(old(buf[..]), offset, chunk)
  {
    for k := 0 to |chunk|
      invariant buf[..offset] == old(buf[..offset]) && buf[offset + k..] == old(buf[offset + k..])
      invariant buf[offset..offset + k] == chunk[..k]
    {
      buf[offset + k] := chunk[k];
    }
  }

  method ShiftDown(buf: array<byte>, consumed: nat, total: nat)
    requires consumed <= total <= buf.Length
    modifies buf
    ensures buf[..] == Shifted(old(buf[..]), consumed, total)
  {
    for k := 0 to total - consumed
      invariant buf[..k] == old(buf[consumed..consumed + k]) && buf[k..] == old(buf[k..])
    {
      buf[k] := buf[consumed + k];
    }
  }
}
