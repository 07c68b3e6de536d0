/** The main loop's buffers: every read is demodulated behind the last 300 samples of what came before. */
module Overlap {
  import opened Common
  import opened Slicer
  import opened Scoring
  import opened Demod

  const OVERLAP_SAMPLES: nat := 300

  /** The byte of an idle receiver, which fills the tail before the first read. */
  const FILLER: bv8 := 128

  // ---- what has been received ----

  function Joined(input: seq<seq<bv8>>): seq<bv8> {
    if |input| == 0 then [] else Joined(input[..|input| - 1]) + input[|input| - 1]
  }

  function Filler(bytesPerSample: nat): (f: seq<bv8>)
    ensures |f| == OVERLAP_SAMPLES * bytesPerSample
  {
    seq(OVERLAP_SAMPLES * bytesPerSample, _ => FILLER)
  }

  /** The filler and every byte read. */
  function History(bytesPerSample: nat, input: seq<seq<bv8>>): seq<bv8> {
    Filler(bytesPerSample) + Joined(input)
  }

  /** The combined buffer of read number `k`: the end of what has been received by then. */
  function Combined(bytesPerSample: nat, input: seq<seq<bv8>>, k: nat): (c: seq<bv8>)
    requires k < |input|
    ensures |c| == OVERLAP_SAMPLES * bytesPerSample + |input[k]|
  {
    var h := History(bytesPerSample, input[..k + 1]);
    assert input[..k + 1][k] == input[k] && input[..k + 1][..k] == input[..k];
    h[|h| - (OVERLAP_SAMPLES * bytesPerSample + |input[k]|)..]
  }

  // ---- the main loop ----

  /** The main loop's two buffers, and every read so far. */
  class ReadLoop {
    const bytesPerSample: nat
    const readTarget: nat
    const combined: array<bv8>
    const overlapTail: array<bv8>
    ghost var input: seq<seq<bv8>>

    ghost predicate Valid()
      reads this, overlapTail
    {
      && combined != overlapTail
      && overlapTail.Length == OVERLAP_SAMPLES * bytesPerSample
      && combined.Length == readTarget + overlapTail.Length
      && EndsWith(History(bytesPerSample, input), overlapTail[..])
    }

    constructor (bytesPerSample: nat, readTarget: nat)
      ensures Valid() && fresh(combined) && fresh(overlapTail)
      ensures this.bytesPerSample == bytesPerSample && this.readTarget == readTarget
      ensures input == []
    {
      this.bytesPerSample, this.readTarget := bytesPerSample, readTarget;
      combined := new bv8[readTarget + OVERLAP_SAMPLES * bytesPerSample](_ => 0);
      overlapTail := new bv8[OVERLAP_SAMPLES * bytesPerSample](_ => FILLER);
      input := [];
      new;
      assert overlapTail[..] == Filler(bytesPerSample) == History(bytesPerSample, []);
    }

    /** Build the combined buffer: overlap tail, then new data. */
    method Combine(sampleBuffer: array<bv8>, n: nat) returns (combinedLen: nat)
      requires Valid() && n <= readTarget && n <= sampleBuffer.Length && sampleBuffer != combined
      modifies combined
      ensures Valid() && combinedLen == overlapTail.Length + n
      ensures combined[..combinedLen] == overlapTail[..] + sampleBuffer[..n]
    {
      var overlap := overlapTail.Length;
      CopySlice(overlapTail, 0, combined, 0, overlap);
      CopySlice(sampleBuffer, 0, combined, overlap, n);
      combinedLen := overlap + n;
    }

    /** Save the tail for the next read. */
    method SaveTail(sampleBuffer: array<bv8>, n: nat)
      requires n <= sampleBuffer.Length && sampleBuffer != overlapTail
      modifies overlapTail
      ensures overlapTail[..] == NextTail(old(overlapTail[..]), sampleBuffer[..n])
    {
      var tailCopy := if n < overlapTail.Length then n else overlapTail.Length;
      if tailCopy > 0 {
        var keep := overlapTail.Length - tailCopy;
        CopyWithin(overlapTail, tailCopy, keep);
        CopySlice(sampleBuffer, n - tailCopy, overlapTail, keep, tailCopy);
      }
    }

    /** One read: the combined buffer is the end of everything received, overlap included. */
    method OnRead(sampleBuffer: array<bv8>, n: nat) returns (combinedLen: nat)
      requires Valid() && 0 < n <= readTarget && n <= sampleBuffer.Length
      requires sampleBuffer != combined && sampleBuffer != overlapTail
      modifies this, combined, overlapTail
      ensures Valid()
      ensures input == old(input) + [sampleBuffer[..n]]
      ensures combinedLen == overlapTail.Length + n && combinedLen <= combined.Length
      ensures combined[..combinedLen] == Combined(bytesPerSample, input, |input| - 1)
    {
      hide EndsWith, NextTail, History, Combined;
      ghost var tail, data := overlapTail[..], sampleBuffer[..n];
      combinedLen := Combine(sampleBuffer, n);
      ghost var whole := combined[..combinedLen];
      SaveTail(sampleBuffer, n);
      assert combined[..combinedLen] == whole;
      EndOfHistory(History(bytesPerSample, input), tail, data);
      OneMoreRead(bytesPerSample, input, data, whole);
      input := input + [data];
    }
  }

  lemma OneMoreRead(bytesPerSample: nat, input: seq<seq<bv8>>, data: seq<bv8>, whole: seq<bv8>)
    ensures var all := input + [data];
            && History(bytesPerSample, all) == History(bytesPerSample, input) + data
            && (|whole| == OVERLAP_SAMPLES * bytesPerSample + |data| && EndsWith(History(bytesPerSample, all), whole)
                ==> whole == Combined(bytesPerSample, all, |input|))
  {
    var all := input + [data];
    assert all[..|input|] == input && all[..|input| + 1] == all;
  }

  predicate EndsWith(h: seq<bv8>, t: seq<bv8>) {
    |t| <= |h| && t == h[|h| - |t|..]
  }

  /** The tail after a read: its last bytes, or all of it behind what is left of the old tail. */
  function NextTail(tail: seq<bv8>, data: seq<bv8>): (next: seq<bv8>)
    ensures |next| == |tail|
  {
    var k := if |data| < |tail| then |data| else |tail|;
    tail[k..] + data[|data| - k..]
  }

  /** The old tail and the new data are the end of the history, and so is the new tail. */
  lemma EndOfHistory(history: seq<bv8>, tail: seq<bv8>, data: seq<bv8>)
    requires EndsWith(history, tail)
    ensures EndsWith(history + data, tail + data)
    ensures EndsWith(history + data, NextTail(tail, data))
  {
  }

  /** Copy `n` bytes between two buffers. */
  method CopySlice(from: array<bv8>, i: nat, to: array<bv8>, j: nat, n: nat)
    requires from != to && i + n <= from.Length && j + n <= to.Length
    modifies to
    ensures to[..j] == old(to[..j]) && to[j..j + n] == from[i..i + n] && to[j + n..] == old(to[j + n..])
  {
    for k := 0 to n
      invariant to[..j] == old(to[..j]) && to[j + n..] == old(to[j + n..])
      invariant to[j..j + k] == from[i..i + k]
    {
      to[j + k] := from[i + k];
    }
  }

  /** Move the `n` bytes from `i` on to the front of the same buffer. */
  method CopyWithin(a: array<bv8>, i: nat, n: nat)
    requires i + n <= a.Length
    modifies a
    ensures a[..n] == old(a[i..i + n])
    ensures a[n..] == old(a[n..])
  {
    for k := 0 to n
      invariant a[..k] == old(a[i..i + k])
      invariant a[k..] == old(a[k..])
    {
      a[k] := a[i + k];
    }
  }

  // ---- whole runs, in samples ----

  /** Samples read before read number `k`, when read number `j` has `sizes[j]` samples. */
  function Before(sizes: seq<nat>, k: nat): nat
    requires k <= |sizes|
  {
    if k == 0 then 0 else Before(sizes, k - 1) + sizes[k - 1]
  }

  /** Every read ends between two samples. */
  ghost predicate Aligned(bytesPerSample: nat, input: seq<seq<bv8>>) {
    bytesPerSample > 0 && forall k :: 0 <= k < |input| ==> |input[k]| % bytesPerSample == 0
  }

  function Sizes(bytesPerSample: nat, input: seq<seq<bv8>>): (sizes: seq<nat>)
    requires bytesPerSample > 0
    ensures |sizes| == |input|
  {
    seq(|input|, k requires 0 <= k < |input| => |input[k]| / bytesPerSample)
  }

  /** The bytes of one sample. */
  function SampleBytes(n: nat, b: seq<bv8>, i: nat): seq<bv8>
    requires n > 0 && i < |b| / n
  {
    SampleFits(n, |b|, i);
    b[i * n..(i + 1) * n]
  }

  lemma SampleFits(n: nat, len: nat, i: nat)
    requires n > 0 && i < len / n
    ensures 0 <= i * n <= (i + 1) * n <= len
  {
    MulMonotone(i + 1, len / n, n);
    MulMonotone(i, i + 1, n);
    assert len == n * (len / n) + len % n;
  }

  /** The magnitudes of the samples in `b`. */
  function Magnitudes(n: nat, convert: seq<bv8> -> u16, b: seq<bv8>): (m: seq<u16>)
    requires n > 0
    ensures |m| == |b| / n
  {
    seq<u16>(|b| / n, i requires 0 <= i < |b| / n => convert(SampleBytes(n, b, i)))
  }

  lemma SliceFits(n: nat, len: nat, from: nat, to: nat)
    requires n > 0 && from <= to && to * n <= len
    ensures 0 <= from * n <= to * n && to <= len / n
    ensures (to * n - from * n) / n == to - from
  {
    MulMonotone(from, to, n);
    MulDistributes(from, to - from, n);
    DivMul(to - from, n);
    assert len == n * (len / n) + len % n;
    MulDistributes(len / n, 1, n);
    if len / n < to {
      MulMonotone(len / n + 1, to, n);
    }
  }

  lemma SampleOfSlice(n: nat, b: seq<bv8>, from: nat, to: nat, i: nat)
    requires n > 0 && from <= to && to * n <= |b| && i < to - from
    requires 0 <= from * n <= to * n && to <= |b| / n && (to * n - from * n) / n == to - from
    ensures SampleBytes(n, b[from * n..to * n], i) == SampleBytes(n, b, from + i)
  {
    var s := b[from * n..to * n];
    SampleFits(n, |s|, i);
    SampleFits(n, |b|, from + i);
    MulDistributes(from, i, n);
    MulDistributes(from, i + 1, n);
    SubSlice(b, from * n, to * n, i * n, (i + 1) * n);
  }

  /** The magnitudes of a slice of whole samples are the slice of the magnitudes. */
  lemma MagnitudesOfSlice(n: nat, convert: seq<bv8> -> u16, b: seq<bv8>, from: nat, to: nat)
    requires n > 0 && from <= to && to * n <= |b|
    ensures 0 <= from * n <= to * n && to <= |b| / n
    ensures Magnitudes(n, convert, b[from * n..to * n]) == Magnitudes(n, convert, b)[from..to]
  {
    hide SampleBytes;
    SliceFits(n, |b|, from, to);
    forall i | 0 <= i < to - from
      ensures Magnitudes(n, convert, b[from * n..to * n])[i] == Magnitudes(n, convert, b)[from + i]
    {
      SampleOfSlice(n, b, from, to, i);
    }
  }

  /** The stream, and the filler and the stream, in magnitudes. */
  function Stream(n: nat, convert: seq<bv8> -> u16, input: seq<seq<bv8>>): seq<u16>
    requires n > 0
  {
    Magnitudes(n, convert, Joined(input))
  }

  function Received(n: nat, convert: seq<bv8> -> u16, input: seq<seq<bv8>>): seq<u16>
    requires n > 0
  {
    Magnitudes(n, convert, History(n, input))
  }

  /** The magnitude buffer that read number `k` is demodulated from. */
  function Buffer(n: nat, convert: seq<bv8> -> u16, input: seq<seq<bv8>>, k: nat): seq<u16>
    requires n > 0 && k < |input|
  {
    Magnitudes(n, convert, Combined(n, input, k))
  }

  lemma SizeOf(n: nat, input: seq<seq<bv8>>, k: nat)
    requires Aligned(n, input) && k < |input|
    ensures |input[k]| == Sizes(n, input)[k] * n
  {
    assert |input[k]| == n * (|input[k]| / n) + |input[k]| % n;
  }

  lemma {:induction false} JoinedLength(n: nat, input: seq<seq<bv8>>, k: nat)
    requires Aligned(n, input) && k <= |input|
    ensures |Joined(input[..k])| == Before(Sizes(n, input), k) * n
    ensures Joined(input[..k]) <= Joined(input)
    decreases k
  {
    hide Sizes;
    if k > 0 {
      JoinedLength(n, input, k - 1);
      assert input[..k][..k - 1] == input[..k - 1];
      SizeOf(n, input, k - 1);
      MulDistributes(Before(Sizes(n, input), k - 1), Sizes(n, input)[k - 1], n);
    }
    JoinedPrefix(input, k);
  }

  lemma {:induction false} JoinedPrefix(input: seq<seq<bv8>>, k: nat)
    requires k <= |input|
    ensures Joined(input[..k]) <= Joined(input)
  {
    if k == |input| {
      assert input[..k] == input;
    } else {
      JoinedPrefix(input[..|input| - 1], k);
      assert input[..|input| - 1][..k] == input[..k];
    }
  }

  lemma CombinedIsSlice(n: nat, input: seq<seq<bv8>>, k: nat)
    requires Aligned(n, input) && k < |input|
    ensures var sizes := Sizes(n, input);
            var start := Before(sizes, k);
            && start * n <= (start + OVERLAP_SAMPLES + sizes[k]) * n <= |History(n, input)|
            && Combined(n, input, k) == History(n, input)[start * n..(start + OVERLAP_SAMPLES + sizes[k]) * n]
  {
    hide Sizes, Joined, Before;
    var sizes := Sizes(n, input);
    var start := Before(sizes, k);
    JoinedLength(n, input, k);
    JoinedLength(n, input, k + 1);
    SizeOf(n, input, k);
    assert Before(sizes, k + 1) == start + sizes[k] by { BeforeNext(sizes, k); }
    MulDistributes(start, sizes[k], n);
    MulDistributes(start + sizes[k], OVERLAP_SAMPLES, n);
    MulMonotone(start, start + OVERLAP_SAMPLES + sizes[k], n);
    var h := History(n, input[..k + 1]);
    assert h <= History(n, input);
  }

  lemma BeforeNext(sizes: seq<nat>, k: nat)
    requires k < |sizes|
    ensures Before(sizes, k + 1) == Before(sizes, k) + sizes[k]
  {
  }

  /** Every magnitude buffer is the matching slice of the filler and the stream. */
  lemma BufferIsSlice(n: nat, convert: seq<bv8> -> u16, input: seq<seq<bv8>>, k: nat)
    requires Aligned(n, input) && k < |input|
    ensures var sizes := Sizes(n, input);
            var start := Before(sizes, k);
            && start + OVERLAP_SAMPLES + sizes[k] <= |Received(n, convert, input)|
            && Buffer(n, convert, input, k) == Received(n, convert, input)[start..start + OVERLAP_SAMPLES + sizes[k]]
  {
    hide Combined, History, Magnitudes, Sizes, Before;
    var sizes := Sizes(n, input);
    var start := Before(sizes, k);
    CombinedIsSlice(n, input, k);
    MagnitudesOfSlice(n, convert, History(n, input), start, start + OVERLAP_SAMPLES + sizes[k]);
  }

  /** The filler makes 300 samples; the stream follows. */
  /** Before the first read the receiver counts as idle: 300 samples made of bytes 128. */
  lemma FillerSamples(n: nat, convert: seq<bv8> -> u16, input: seq<seq<bv8>>, i: nat)
    requires n > 0 && i < 300
    ensures |Received(n, convert, input)| >= 300
    ensures Received(n, convert, input)[i] == convert(seq(n, _ => 128 as bv8))
  {
    hide Joined;
    var h := History(n, input);
    SliceFits(n, |h|, i, 300);
    SliceFits(n, |h|, i, i + 1);
    FillerSlice(n, i);
    assert SampleBytes(n, h, i) == Filler(n)[i * n..(i + 1) * n];
  }

  lemma FillerSlice(n: nat, i: nat)
    requires n > 0 && i < 300
    ensures 0 <= i * n <= (i + 1) * n <= |Filler(n)| == 300 * n
    ensures Filler(n)[i * n..(i + 1) * n] == seq(n, _ => 128 as bv8)
  {
    MulMonotone(i, i + 1, n);
    MulMonotone(i + 1, 300, n);
    assert (i + 1) * n - i * n == n;
  }

  lemma StreamBehindFiller(n: nat, convert: seq<bv8> -> u16, input: seq<seq<bv8>>)
    requires Aligned(n, input)
    ensures |Stream(n, convert, input)| == Before(Sizes(n, input), |input|)
    ensures |Received(n, convert, input)| == OVERLAP_SAMPLES + |Stream(n, convert, input)|
    ensures Received(n, convert, input)[OVERLAP_SAMPLES..] == Stream(n, convert, input)
  {
    hide Magnitudes;
    var all, total := Joined(input), Before(Sizes(n, input), |input|);
    JoinedLength(n, input, |input|);
    assert input[..|input|] == input;
    DivMul(total, n);
    MulDistributes(OVERLAP_SAMPLES, total, n);
    DivMul(OVERLAP_SAMPLES + total, n);
    var h := History(n, input);
    MagnitudesOfSlice(n, convert, h, OVERLAP_SAMPLES, OVERLAP_SAMPLES + total);
    assert h[OVERLAP_SAMPLES * n..(OVERLAP_SAMPLES + total) * n] == all;
  }

  // ---- which samples are tried, and where ----

  /** The stream's sample `j` is the sample `pa` of the buffer of read number `k`, and lies below `stop` there. */
  ghost predicate TriedAt(n: nat, convert: seq<bv8> -> u16, input: seq<seq<bv8>>, k: nat, j: nat, pa: nat)
    requires n > 0 && k < |input|
  {
    && pa + Before(Sizes(n, input), k) == j + OVERLAP_SAMPLES
    && pa < Stop(|Buffer(n, convert, input, k)|)
  }

  /** From `j` on, the stream's next `len` samples stand at `pa` in the buffer of read number `k`. */
  ghost predicate StreamAt(n: nat, convert: seq<bv8> -> u16, input: seq<seq<bv8>>, k: nat, j: nat, pa: nat, len: nat)
    requires n > 0 && k < |input|
  {
    && pa + len <= |Buffer(n, convert, input, k)| && j + len <= |Stream(n, convert, input)|
    && Buffer(n, convert, input, k)[pa..pa + len] == Stream(n, convert, input)[j..j + len]
  }

  lemma SamePlace(n: nat, convert: seq<bv8> -> u16, input: seq<seq<bv8>>, k: nat, j: nat, pa: nat, len: nat)
    requires Aligned(n, input) && k < |input|
    requires pa + Before(Sizes(n, input), k) == j + OVERLAP_SAMPLES && pa + len <= |Buffer(n, convert, input, k)|
    ensures StreamAt(n, convert, input, k, j, pa, len)
  {
    hide Magnitudes, Combined, History, Joined, Stream, Buffer, Received, Sizes, Before;
    BufferIsSlice(n, convert, input, k);
    StreamBehindFiller(n, convert, input);
    var all, start := Received(n, convert, input), Before(Sizes(n, input), k);
    SubSlice(all, start, start + OVERLAP_SAMPLES + Sizes(n, input)[k], pa, pa + len);
    assert all[OVERLAP_SAMPLES..] == all[OVERLAP_SAMPLES..|all|];
    SubSlice(all, OVERLAP_SAMPLES, |all|, j, j + len);
  }

  lemma BufferLength(n: nat, convert: seq<bv8> -> u16, input: seq<seq<bv8>>, k: nat)
    requires Aligned(n, input) && k < |input|
    ensures |Buffer(n, convert, input, k)| == OVERLAP_SAMPLES + Sizes(n, input)[k]
  {
    hide Buffer, Received;
    BufferIsSlice(n, convert, input, k);
  }

  /** The first read by which more than `j` samples have come, and the guard with them. */
  lemma {:induction false} ReadThatHolds(sizes: seq<nat>, n: nat, reach: nat) returns (k: nat)
    requires n <= |sizes| && 0 < reach <= Before(sizes, n)
    ensures k < n && Before(sizes, k) < reach <= Before(sizes, k) + sizes[k]
  {
    if reach <= Before(sizes, n - 1) {
      k := ReadThatHolds(sizes, n - 1, reach);
    } else {
      k := n - 1;
    }
  }

  lemma {:induction false} BeforeMonotone(sizes: seq<nat>, k: nat, n: nat)
    requires k <= n <= |sizes|
    ensures Before(sizes, k) <= Before(sizes, n)
  {
    if k < n {
      BeforeMonotone(sizes, k, n - 1);
    }
  }

  /**
    * No preamble position falls between reads: for any sequence of aligned reads, a sample of the stream stands below
    * `stop` in the buffer of some read exactly when it is not one of the last 285.
    */
  lemma EverySampleTried(n: nat, convert: seq<bv8> -> u16, input: seq<seq<bv8>>, j: nat)
    requires Aligned(n, input)
    ensures (exists k, pa :: 0 <= k < |input| && 0 <= pa && TriedAt(n, convert, input, k, j, pa)
                             && StreamAt(n, convert, input, k, j, pa, 1))
            <==> j + 285 < |Stream(n, convert, input)|
  {
    hide Stream, Buffer, Sizes, StreamAt;
    var sizes := Sizes(n, input);
    StreamBehindFiller(n, convert, input);
    if j + GUARD < |Stream(n, convert, input)| {
      var k := ReadThatHolds(sizes, |input|, j + GUARD + 1);
      BufferLength(n, convert, input, k);
      var pa := j + OVERLAP_SAMPLES - Before(sizes, k);
      assert TriedAt(n, convert, input, k, j, pa);
      SamePlace(n, convert, input, k, j, pa, 1);
    }
    forall k: nat, pa: nat | k < |input| && TriedAt(n, convert, input, k, j, pa)
      ensures j + GUARD < |Stream(n, convert, input)|
    {
      BufferLength(n, convert, input, k);
      BeforeMonotone(sizes, k + 1, |input|);
    }
  }

  // ---- messages at the end of a buffer ----

  /** A buffer of `len` samples holds the last byte of a long message with its preamble at `pa`, tried at any phase. */
  predicate Fits(len: nat, pa: nat) {
    (StartTick(8, pa) + 96 * (LONG_MSG_BYTES - 1)) / 5 + 20 <= len
  }

  lemma FitsHolds(mag: seq<u16>, pa: nat, tryPhase: nat, k: nat)
    requires Fits(|mag|, pa) && tryPhase <= 8 && k < LONG_MSG_BYTES
    ensures Holds(mag, StartTick(tryPhase, pa), k)
  {
    assert StartTick(tryPhase, pa) + 96 * k <= StartTick(8, pa) + 96 * (LONG_MSG_BYTES - 1);
  }

  /** The samples of a long message, preamble included, at the latest phase. */
  const LONGEST: nat := 290

  /** The guard of every byte of a long message holds, at every phase. */
  ghost predicate HoldsWhole(mag: seq<u16>, pa: nat) {
    forall tryPhase: nat, b: nat | tryPhase <= 8 && b < LONG_MSG_BYTES :: Holds(mag, StartTick(tryPhase, pa), b)
  }

  lemma HoldsLongest(mag: seq<u16>, pa: nat)
    ensures HoldsWhole(mag, pa) <==> pa + LONGEST <= |mag|
  {
    if pa + LONGEST <= |mag| {
      forall tryPhase: nat, b: nat | tryPhase <= 8 && b < LONG_MSG_BYTES
        ensures Holds(mag, StartTick(tryPhase, pa), b)
      {
        FitsHolds(mag, pa, tryPhase, b);
      }
    } else {
      assert !Holds(mag, StartTick(8, pa), LONG_MSG_BYTES - 1);
    }
  }

  /**
    * The guard of a scan lets it try positions whose message is cut off by the end of the buffer. No message is lost by
    * that: a position is tried in a buffer that holds the whole of any message that begins there exactly when 290
    * samples of the stream are left, and the buffer has these samples unchanged.
    */
  lemma EveryMessageHeld(n: nat, convert: seq<bv8> -> u16, input: seq<seq<bv8>>, j: nat)
    requires Aligned(n, input)
    ensures (exists k, pa :: 0 <= k < |input| && 0 <= pa && TriedAt(n, convert, input, k, j, pa)
                             && HoldsWhole(Buffer(n, convert, input, k), pa)
                             && StreamAt(n, convert, input, k, j, pa, LONGEST))
            <==> j + LONGEST <= |Stream(n, convert, input)|
  {
    hide Stream, Buffer, Sizes, HoldsWhole, StreamAt;
    var sizes := Sizes(n, input);
    StreamBehindFiller(n, convert, input);
    if j + LONGEST <= |Stream(n, convert, input)| {
      var k := ReadThatHolds(sizes, |input|, j + LONGEST);
      BufferLength(n, convert, input, k);
      var pa := j + OVERLAP_SAMPLES - Before(sizes, k);
      assert TriedAt(n, convert, input, k, j, pa);
      HoldsLongest(Buffer(n, convert, input, k), pa);
      SamePlace(n, convert, input, k, j, pa, LONGEST);
    }
    forall k: nat, pa: nat | k < |input| && StreamAt(n, convert, input, k, j, pa, LONGEST)
      ensures j + LONGEST <= |Stream(n, convert, input)|
    {
      AtLeast(n, convert, input, k, j, pa, LONGEST);
    }
  }

  lemma AtLeast(n: nat, convert: seq<bv8> -> u16, input: seq<seq<bv8>>, k: nat, j: nat, pa: nat, len: nat)
    requires n > 0 && k < |input| && StreamAt(n, convert, input, k, j, pa, len)
    ensures j + len <= |Stream(n, convert, input)|
  {
  }
}
