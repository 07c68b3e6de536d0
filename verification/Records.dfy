/** Record files: timestamped frames one after the other, read back until the data runs out. */
module Records {
  import opened Common
  import opened Beast

  const HEADER: nat := 9

  /** A frame as a record: timestamp, flags, type, payload length, payload. */
  function Record(f: Frame): (r: seq<byte>)
    ensures |r| == HEADER + |f.payload|
  {
    TimestampBytes(f.timestamp) + [0, f.frameType, |f.payload| % 0x100] + f.payload
  }

  method EncodeRecord(f: Frame) returns (out: seq<byte>)
    ensures out == Record(f)
    ensures DecodeRecord(out) == Some(Recorded(f)) <==> Recordable(f)
    ensures out == TimestampBytes(f.timestamp) + [0, f.frameType, |f.payload| % 256] + f.payload
  {
    out := TimestampBytes(f.timestamp);
    out := out + [0];
    out := out + [f.frameType];
    var len: byte := |f.payload| % 0x100;
    out := out + [len];
    out := out + f.payload;
    DecodeRecorded(f);
  }

  function DecodeRecord(data: seq<byte>): Option<Frame> {
    if |data| < HEADER then None
    else if |data| < HEADER + data[8] as int then None
    else Some(Frame(Value(data[0..6]), data[7], data[HEADER..HEADER + data[8] as int], 0xff))
  }

  /** What a record keeps of a frame: all but the signal byte. */
  predicate Recordable(f: Frame) {
    |f.payload| <= 255 && 0 <= f.timestamp < TS_RANGE
  }

  function Recorded(f: Frame): Frame {
    f.(rssi := 0xff)
  }

  /** A record gives its frame back exactly when the payload length fits a byte and the timestamp 48 bits. */
  lemma DecodeRecorded(f: Frame)
    ensures DecodeRecord(Record(f)) == Some(Recorded(f)) <==> Recordable(f)
  {
    hide TimestampBytes, Value;
    TimestampRoundTrip(f.timestamp);
    var r := Record(f);
    assert r[0..6] == TimestampBytes(f.timestamp);
    if |f.payload| <= 255 {
      assert r[HEADER..HEADER + |f.payload|] == f.payload;
    }
  }

  // ---- files ----

  /** The records of a file from byte `i` on. */
  function Parsed(data: seq<byte>, i: nat): seq<Frame>
    requires i <= |data|
    decreases |data| - i
  {
    if i + HEADER > |data| then []
    else
      var total := HEADER + data[i + 8] as int;
      if i + total > |data| then []
      else
        var frame := DecodeRecord(data[i..i + total]);
        (if frame.Some? then [frame.value] else []) + Parsed(data, i + total)
  }

  lemma ParsedStep(data: seq<byte>, i: nat)
    requires i <= |data|
    ensures i + HEADER > |data| ==> Parsed(data, i) == []
    ensures i + HEADER <= |data| ==>
              var total := HEADER + data[i + 8] as int;
              Parsed(data, i) ==
              if i + total > |data| then []
              else
                var frame := DecodeRecord(data[i..i + total]);
                (if frame.Some? then [frame.value] else []) + Parsed(data, i + total)
  {
    hide DecodeRecord;
  }

  method ReadRecordsFromFile(data: seq<byte>) returns (frames: seq<Frame>)
    ensures frames == Parsed(data, 0)
  {
    hide DecodeRecord, Parsed;
    frames := [];
    var i: nat := 0;
    while i + HEADER <= |data|
      invariant i <= |data|
      invariant frames + Parsed(data, i) == Parsed(data, 0)
    {
      ParsedStep(data, i);
      var payloadLen := data[i + 8] as int;
      var totalLen := HEADER + payloadLen;
      if i + totalLen > |data| {
        break;
      }
      var frame := DecodeRecord(data[i..i + totalLen]);
      if frame.Some? {
        frames := frames + [frame.value];
      }
      i := i + totalLen;
    }
    ParsedStep(data, i);
  }

  function File(fs: seq<Frame>): seq<byte> {
    if |fs| == 0 then [] else Record(fs[0]) + File(fs[1..])
  }

  /** How many of the records lie wholly inside the first `n` bytes of the file. */
  function Whole(fs: seq<Frame>, n: nat): (k: nat)
    ensures k <= |fs|
  {
    if |fs| == 0 || n < |Record(fs[0])| then 0 else 1 + Whole(fs[1..], n - |Record(fs[0])|)
  }

  lemma WholeIsExact(fs: seq<Frame>, n: nat, k: nat)
    requires k <= |fs|
    ensures |File(fs[..k])| <= n <==> k <= Whole(fs, n)
  {
    if k > 0 {
      assert fs[..k][0] == fs[0] && fs[..k][1..] == fs[1..][..k - 1];
      if n >= |Record(fs[0])| {
        WholeIsExact(fs[1..], n - |Record(fs[0])|, k - 1);
      }
    }
  }

  function AllRecorded(fs: seq<Frame>): (r: seq<Frame>)
    ensures |r| == |fs|
  {
    seq(|fs|, i requires 0 <= i < |fs| => Recorded(fs[i]))
  }

  /** Parsing from byte `i` on is parsing the rest of the file. */
  lemma {:induction false} ParsedSuffix(data: seq<byte>, i: nat, j: nat)
    requires i <= j <= |data|
    ensures Parsed(data, j) == Parsed(data[i..], j - i)
    decreases |data| - j
  {
    hide DecodeRecord;
    var rest := data[i..];
    if j + HEADER <= |data| {
      var total := HEADER + data[j + 8] as int;
      assert rest[j - i + 8] == data[j + 8];
      if j + total <= |data| {
        assert rest[j - i..j - i + total] == data[j..j + total];
        ParsedSuffix(data, i, j + total);
      }
    }
  }

  /** A file cut off anywhere still yields every record that is wholly there, and nothing else. */
  lemma {:induction false} TruncatedFileRead(fs: seq<Frame>, n: nat)
    requires forall i :: 0 <= i < |fs| ==> Recordable(fs[i])
    requires n <= |File(fs)|
    ensures Parsed(File(fs)[..n], 0) == AllRecorded(fs[..Whole(fs, n)])
    decreases |fs|
  {
    hide DecodeRecord, Record, Recorded, Parsed, AllRecorded;
    var data := File(fs)[..n];
    ParsedStep(data, 0);
    AllRecordedStep(fs[..Whole(fs, n)]);
    if |fs| > 0 {
      var r, rest := Record(fs[0]), File(fs[1..]);
      RecordLength(fs[0]);
      if n >= 9 {
        assert data[8] == r[8];
      }
      if n >= |r| {
        assert data[0..|r|] == r;
        DecodeRecorded(fs[0]);
        ParsedSuffix(data, |r|, |r|);
        assert data[|r|..] == rest[..n - |r|];
        TruncatedFileRead(fs[1..], n - |r|);
        var k := Whole(fs, n);
        assert fs[..k][0] == fs[0] && fs[..k][1..] == fs[1..][..k - 1];
      }
    }
  }

  lemma AllRecordedStep(fs: seq<Frame>)
    ensures AllRecorded(fs) == if |fs| == 0 then [] else [Recorded(fs[0])] + AllRecorded(fs[1..])
  {
    hide Recorded;
  }

  lemma RecordLength(f: Frame)
    requires Recordable(f)
    ensures Record(f)[8] as int == |f.payload|
  {
    hide TimestampBytes;
  }

  lemma {:induction false} WholeFile(fs: seq<Frame>)
    ensures Whole(fs, |File(fs)|) == |fs|
  {
    if |fs| > 0 {
      WholeFile(fs[1..]);
    }
  }

  /** A complete file round-trips. */
  lemma FileRoundTrip(fs: seq<Frame>)
    requires forall i :: 0 <= i < |fs| ==> Recordable(fs[i])
    ensures Parsed(File(fs), 0) == AllRecorded(fs)
  {
    hide Parsed, Record, Recorded, File;
    WholeFile(fs);
    TruncatedFileRead(fs, |File(fs)|);
    assert File(fs)[..|File(fs)|] == File(fs) && fs[..|fs|] == fs;
  }
}
