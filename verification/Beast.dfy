/** Beast framing: the printer, the parser and the resynchronising stream reader. */
module Beast {
  import opened Common

  type byte = x: int | 0 <= x < 0x100

  const ESC: byte := 0x1a

  datatype Frame = Frame(timestamp: int, frameType: byte, payload: seq<byte>, rssi: byte)

  predicate IsType(b: byte) {
    b == 0x31 || b == 0x32 || b == 0x33
  }

  // ---- byte stuffing ----

  /** Every 0x1a doubled. */
  function Escaped(data: seq<byte>): (r: seq<byte>)
    ensures |data| <= |r| <= 2 * |data|
  {
    if |data| == 0 then []
    else Escaped(data[..|data| - 1]) + (if data[|data| - 1] == ESC then [ESC, ESC] else [data[|data| - 1]])
  }

  /** Doubled 0x1a collapsed, single ones kept. */
  function Destuffed(data: seq<byte>): seq<byte> {
    if |data| == 0 then []
    else if data[0] == ESC && |data| > 1 && data[1] == ESC then [ESC] + Destuffed(data[2..])
    else [data[0]] + Destuffed(data[1..])
  }

  method EscapeBeast(data: seq<byte>) returns (escaped: seq<byte>)
    ensures escaped == Escaped(data)
  {
    escaped := [];
    for i := 0 to |data|
      invariant escaped == Escaped(data[..i])
    {
      assert data[..i + 1][..i] == data[..i];
      escaped := escaped + [data[i]];
      if data[i] == ESC {
        escaped := escaped + [ESC];
      }
    }
    assert data[..|data|] == data;
  }

  lemma DestuffStep(data: seq<byte>, i: nat)
    requires i < |data|
    ensures data[i] == ESC && i + 1 < |data| && data[i + 1] == ESC ==>
              Destuffed(data[i..]) == [data[i]] + Destuffed(data[i + 2..])
    ensures !(data[i] == ESC && i + 1 < |data| && data[i + 1] == ESC) ==>
              Destuffed(data[i..]) == [data[i]] + Destuffed(data[i + 1..])
  {
    var rest := data[i..];
    assert rest[0] == data[i] && rest[1..] == data[i + 1..];
    if |rest| > 1 {
      assert rest[1] == data[i + 1] && rest[2..] == data[i + 2..];
    }
  }

  method DestuffBeast(data: seq<byte>) returns (out: seq<byte>)
    ensures out == Destuffed(data)
  {
    hide Destuffed;
    out := [];
    var i := 0;
    assert data[0..] == data;
    while i < |data|
      invariant 0 <= i <= |data|
      invariant out + Destuffed(data[i..]) == Destuffed(data)
    {
      DestuffStep(data, i);
      out := out + [data[i]];
      if data[i] == ESC && i + 1 < |data| && data[i + 1] == ESC {
        i := i + 2;
      } else {
        i := i + 1;
      }
    }
    assert data[i..] == [];
    DestuffNothing();
  }

  lemma DestuffNothing()
    ensures Destuffed([]) == []
  {
  }

  /** What was stuffed comes back, whatever follows it in the buffer. */
  lemma {:induction false} DestuffEscaped(a: seq<byte>, b: seq<byte>)
    ensures Destuffed(Escaped(a) + b) == a + Destuffed(b)
  {
    var n := |a|;
    if n == 0 {
      assert Escaped(a) + b == b;
    } else {
      var x := a[n - 1];
      var tail := if x == ESC then [ESC, ESC] else [x];
      assert Escaped(a) + b == Escaped(a[..n - 1]) + (tail + b);
      DestuffEscaped(a[..n - 1], tail + b);
      assert (tail + b)[|tail|..] == b;
      assert Destuffed(tail + b) == [x] + Destuffed(b);
      assert a + Destuffed(b) == a[..n - 1] + ([x] + Destuffed(b));
    }
  }

  // ---- timestamps: 48 bits, most significant byte first ----

  /** The last `n` bytes of a number, most significant first. */
  function BigEndian(t: nat, n: nat): (r: seq<byte>)
    ensures |r| == n
  {
    if n == 0 then [] else BigEndian(t / 0x100, n - 1) + [t % 0x100]
  }

  function Value(b: seq<byte>): nat {
    if |b| == 0 then 0 else Value(b[..|b| - 1]) * 0x100 + b[|b| - 1] as int
  }

  function Bytes(n: nat): nat {
    if n == 0 then 1 else 0x100 * Bytes(n - 1)
  }

  lemma {:induction false} ValueBigEndian(t: nat, n: nat)
    requires t < Bytes(n)
    ensures Value(BigEndian(t, n)) == t
  {
    if n > 0 {
      ValueBigEndian(t / 0x100, n - 1);
    }
  }

  const TS_RANGE: nat := 0x1_0000_0000_0000

  /** The low 48 bits of a timestamp, negative ones in two's complement. */
  function TimestampBytes(ts: int): (r: seq<byte>)
    ensures |r| == 6
  {
    BigEndian(ts % TS_RANGE, 6)
  }

  lemma TimestampRoundTrip(ts: int)
    ensures Value(TimestampBytes(ts)) == ts % TS_RANGE
  {
    assert Bytes(6) == 0x100 * Bytes(5) && Bytes(5) == 0x100 * Bytes(4) && Bytes(4) == 0x100 * Bytes(3);
    ValueBigEndian(ts % TS_RANGE, 6);
  }

  // ---- one frame ----

  function RssiByte(signal: real): byte {
    if signal <= 0.0 then 0xff
    else
      var x := signal / 256.0;
      if x >= 255.0 then 255 else x.Floor
  }

  /** The byte counts whole steps of 256; a level that is not positive looks like the strongest. */
  lemma RssiSteps(signal: real)
    ensures var b := RssiByte(signal);
            && (0.0 < signal < 65536.0 ==> 256.0 * b as real <= signal < 256.0 * (b as real + 1.0))
            && (signal <= 0.0 || signal >= 65536.0 ==> b == 255)
  {
  }

  function TypeFor(n: nat): byte {
    if n <= 7 then 0x32 else 0x33
  }

  /** A frame as it goes over the wire. */
  function Stuffed(t: byte, data: seq<byte>, rssi: byte, ts: int): (r: seq<byte>)
    ensures 9 + |data| <= |r| <= 9 + 2 * |data|
  {
    [ESC, t] + TimestampBytes(ts) + [rssi] + Escaped(data)
  }

  /** A frame as it is printed: its type says how long the payload is at most. */
  function Encoded(data: seq<byte>, rssi: byte, ts: int): (r: seq<byte>)
    ensures 9 + |data| <= |r| <= 9 + 2 * |data|
  {
    Stuffed(TypeFor(|data|), data, rssi, ts)
  }

  method EncodeBeastOutput(data: seq<byte>, signal: real, ts: int) returns (out: seq<byte>)
    ensures out == Encoded(data, RssiByte(signal), ts)
    ensures IsMessage(data) ==>
              forall rest: seq<byte> :: ParseBeastFrame(out + rest) == Some(FrameOf(data, RssiByte(signal), ts))
  {
    hide ParseBeastFrame, RssiByte;
    out := [ESC];
    var msgType: byte := if |data| <= 7 then 0x32 else 0x33;
    out := out + [msgType];
    out := out + TimestampBytes(ts);
    out := out + [RssiByte(signal)];
    var escaped := EscapeBeast(data);
    out := out + escaped;
    assert out == Encoded(data, RssiByte(signal), ts);
    if IsMessage(data) {
      forall rest: seq<byte>
        ensures ParseBeastFrame(out + rest) == Some(FrameOf(data, RssiByte(signal), ts))
      {
        ParseEncoded(data, RssiByte(signal), ts, rest);
      }
    }
  }

  function MaxPayload(t: byte): nat {
    if t == 0x31 then 2 else if t == 0x32 then 7 else 14
  }

  function ParseBeastFrame(data: seq<byte>): Option<Frame> {
    if |data| < 9 || data[0] != ESC || !IsType(data[1]) then None
    else
      var rawEnd := Min(9 + 2 * MaxPayload(data[1]), |data|);
      if rawEnd <= 9 then None
      else
        var payload := Destuffed(data[9..rawEnd]);
        Some(Frame(Value(data[2..8]), data[1], payload[..Min(|payload|, MaxPayload(data[1]))], data[8]))
  }

  /** A payload as the demodulator emits them. */
  predicate IsMessage(data: seq<byte>) {
    |data| == 7 || |data| == 14
  }

  function FrameOf(data: seq<byte>, rssi: byte, ts: int): Frame {
    Frame(ts % TS_RANGE, TypeFor(|data|), data, rssi)
  }

  /** What parses: a marker and a frame type with at least one byte behind the header, and nothing else. */
  lemma ParsesExactly(data: seq<byte>)
    ensures ParseBeastFrame(data).Some?
            <==> |data| >= 10 && data[0] == ESC && (data[1] == 0x31 || data[1] == 0x32 || data[1] == 0x33)
  {
  }

  /** Stuffed frames of all three types parse back, whatever follows them in the buffer. */
  lemma ParseStuffed(t: byte, data: seq<byte>, rssi: byte, ts: int, rest: seq<byte>)
    requires IsType(t) && |data| == MaxPayload(t)
    ensures ParseBeastFrame(Stuffed(t, data, rssi, ts) + rest) == Some(Frame(ts % TS_RANGE, t, data, rssi))
  {
    hide TimestampBytes, Value, IsType, MaxPayload;
    var all := Stuffed(t, data, rssi, ts) + rest;
    var e := Escaped(data);
    TimestampRoundTrip(ts);
    assert all[2..8] == TimestampBytes(ts);
    PayloadPositive(t);
    var rawEnd := Min(9 + 2 * |data|, |all|);
    var raw := all[9..rawEnd];
    assert raw == e + raw[|e|..];
    DestuffEscaped(data, raw[|e|..]);
  }

  lemma PayloadPositive(t: byte)
    ensures MaxPayload(t) > 0
  {
  }

  /** A printed frame parses back, whatever follows it in the buffer. */
  lemma ParseEncoded(data: seq<byte>, rssi: byte, ts: int, rest: seq<byte>)
    requires IsMessage(data)
    ensures ParseBeastFrame(Encoded(data, rssi, ts) + rest) == Some(FrameOf(data, rssi, ts))
  {
    ParseStuffed(TypeFor(|data|), data, rssi, ts, rest);
  }

  /** A Mode A/C frame, which no program here prints, holds two bytes and parses back as well. */
  lemma ParseTwoBytes(data: seq<byte>, rssi: byte, ts: int, rest: seq<byte>)
    requires |data| == 2
    ensures ParseBeastFrame(Stuffed(0x31, data, rssi, ts) + rest) == Some(Frame(ts % TS_RANGE, 0x31, data, rssi))
  {
    ParseStuffed(0x31, data, rssi, ts, rest);
  }
}
