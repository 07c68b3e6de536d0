/** Applying the table: which damaged frames are diagnosed, and what the repair restores. */
module Repair {
  import opened Bits
  import opened Words
  import opened Crc
  import opened Engine
  import opened Powers
  import opened CrcFix
  import opened FixTable

  ghost predicate BitsFit(bits: seq<int>, n: nat) {
    forall i :: 0 <= i < |bits| ==> bits[i] < n
  }

  /** The message with the listed bits flipped, up to the first negative entry. */
  function Corrected(msg: seq<bv8>, bits: seq<int>): (r: seq<bv8>)
    requires BitsFit(bits, 8 * |msg|)
    ensures |r| == |msg|
    decreases |bits|
  {
    if |bits| == 0 || bits[0] < 0 then msg else Corrected(Flip(msg, bits[0]), bits[1..])
  }

  /** The repair in place. */
  method Fix(msg: array<bv8>, info: ErrorInfo)
    requires BitsFit(info.bits, 8 * msg.Length)
    modifies msg
    ensures msg[..] == Corrected(old(msg[..]), info.bits)
  {
    hide Mask;
    var i := 0;
    assert info.bits[0..] == info.bits;
    while i < |info.bits|
      invariant 0 <= i <= |info.bits|
      invariant Corrected(msg[..], info.bits[i..]) == Corrected(old(msg[..]), info.bits)
    {
      var bitPos := info.bits[i];
      if bitPos < 0 {
        break;
      }
      ghost var before := msg[..];
      msg[bitPos / 8] := msg[bitPos / 8] ^ Mask(bitPos % 8);
      assert msg[..] == Flip(before, bitPos);
      assert info.bits[i..][1..] == info.bits[i + 1..];
      i := i + 1;
    }
  }

  // ---- what the table entries are ----

  lemma Corrected1(msg: seq<bv8>, info: ErrorInfo)
    requires |info.bits| == 2 && 0 <= info.bits[0] < 8 * |msg| && info.bits[1] < 0
    ensures Corrected(msg, info.bits) == Flip(msg, info.bits[0])
  {
    hide Flip;
    assert info.bits[1..][0] == info.bits[1];
  }

  lemma Corrected2(msg: seq<bv8>, info: ErrorInfo)
    requires |info.bits| == 2 && 0 <= info.bits[0] < 8 * |msg| && 0 <= info.bits[1] < 8 * |msg|
    ensures Corrected(msg, info.bits) == Flip(Flip(msg, info.bits[0]), info.bits[1])
  {
    hide Flip;
    var rest := info.bits[1..];
    assert rest[0] == info.bits[1] && rest[1..] == [];
    assert Corrected(Flip(msg, info.bits[0]), rest) == Corrected(Flip(Flip(msg, info.bits[0]), rest[0]), rest[1..]);
  }

  lemma FlipsDiffer(msg: seq<bv8>, p: nat, q: nat)
    requires p < 8 * |msg| && q < 8 * |msg| && p != q
    ensures Flip(msg, p) != msg && Flip(msg, p) != Flip(msg, q)
  {
    hide Flip, ToBits;
    FlipBitAt(msg, p, p);
    FlipBitAt(msg, q, p);
  }

  /** The stored entry of a single damaged bit repairs that bit exactly when its position is below 128. */
  lemma StoredSingleRepairs(msg: seq<bv8>, p: nat)
    requires p < 8 * |msg|
    ensures BitsFit([AsI8(p), -1], 8 * |msg|)
    ensures Corrected(msg, [AsI8(p), -1]) == Flip(msg, p) <==> p < 128
  {
    hide Flip;
    StoredExactly(p);
    var q := AsI8(p);
    if q >= 0 {
      Corrected1(msg, ErrorInfo(0, 1, [q, -1]));
      if q != p {
        FlipsDiffer(msg, p, q);
      }
    } else {
      FlipsDiffer(msg, p, 0);
    }
  }

  /** A repair of positions below `q` leaves bit `q` alone. */
  lemma {:induction false} CorrectedBelow(msg: seq<bv8>, bits: seq<int>, q: nat)
    requires BitsFit(bits, 8 * |msg|) && q < 8 * |msg| && forall i :: 0 <= i < |bits| ==> bits[i] < q
    ensures ToBits(Corrected(msg, bits))[q] == ToBits(msg)[q]
    decreases |bits|
  {
    hide Flip, ToBits;
    if |bits| > 0 && bits[0] >= 0 {
      FlipBitAt(msg, bits[0], q);
      CorrectedBelow(Flip(msg, bits[0]), bits[1..], q);
    }
  }

  lemma StoredBelow(p: nat)
    ensures AsI8(p) < 128
  {
  }

  /** The stored entry of two damaged bits repairs the two exactly when both positions are below 128. */
  lemma StoredPairRepairs(msg: seq<bv8>, p: nat, q: nat)
    requires p < q < 8 * |msg|
    ensures BitsFit([AsI8(p), AsI8(q)], 8 * |msg|)
    ensures Corrected(msg, [AsI8(p), AsI8(q)]) == Flip(Flip(msg, p), q) <==> q < 128
  {
    hide Flip, ToBits, AsI8;
    StoredExactly(p);
    StoredExactly(q);
    StoredBelow(p);
    StoredBelow(q);
    StoredFit(p, 8 * |msg|);
    StoredFit(q, 8 * |msg|);
    if q < 128 {
      Corrected2(msg, ErrorInfo(0, 2, [AsI8(p), AsI8(q)]));
    } else {
      CorrectedBelow(msg, [AsI8(p), AsI8(q)], q);
      FlipBitAt(msg, p, q);
      FlipBitAt(Flip(msg, p), q, q);
    }
  }

  lemma StoredFit(p: nat, n: nat)
    requires p < n
    ensures AsI8(p) < n
  {
  }

  // ---- checksums of damaged frames ----

  /** The residue of a valid frame is zero. */
  lemma ValidResidue(msg: seq<bv8>, bitlen: nat)
    requires IsFrame(msg, bitlen)
    ensures Checksum(msg, bitlen) == 0 <==> Residue(ToBits(msg)) == Zeros(24)
  {
    hide IsFrame, Checksum, Residue, ToBits, WordBits, Zeros, Is24;
    FrameChecksum(msg, bitlen);
    ZeroBits();
    if Residue(ToBits(msg)) == Zeros(24) {
      WordExtensional(Checksum(msg, bitlen), 0);
    }
  }

  lemma FlipResidue(msg: seq<bv8>, bitlen: nat, p: nat)
    requires IsFrame(msg, bitlen) && p < bitlen
    ensures Residue(ToBits(Flip(msg, p))) == Xor(Residue(ToBits(msg)), PowX(bitlen - 1 - p))
  {
    hide Residue, ToBits, PowX, Flip, Unit, Xor;
    FlipBits(msg, p);
    ResidueXor(ToBits(msg), Unit(bitlen, p));
    UnitResidue(bitlen, p);
  }

  lemma XorZero(r: seq<bool>)
    ensures Xor(Zeros(|r|), r) == r && Xor(r, Zeros(|r|)) == r
  {
  }

  lemma XorCancel(r: seq<bool>, s: seq<bool>)
    requires |r| == |s|
    ensures Xor(r, s) == Zeros(|r|) <==> r == s
  {
    if Xor(r, s) == Zeros(|r|) {
      forall i | 0 <= i < |r|
        ensures r[i] == s[i]
      {
        assert Xor(r, s)[i] == Zeros(|r|)[i];
      }
    }
  }

  lemma XorTwice(r: seq<bool>, s: seq<bool>)
    requires |r| == |s|
    ensures Xor(Xor(r, s), s) == r
  {
  }

  /** One flipped bit of a valid frame gives the syndrome of that position. */
  lemma FlipSyndrome(msg: seq<bv8>, bitlen: nat, p: nat)
    requires IsFrame(msg, bitlen) && p < bitlen && Checksum(msg, bitlen) == 0
    ensures Checksum(Flip(msg, p), bitlen) == Syndrome(bitlen, p)
  {
    hide WordBits, Residue, ToBits, PowX, Flip, Syndrome, Checksum, Xor, Zeros, Is24;
    ValidResidue(msg, bitlen);
    FlipResidue(msg, bitlen, p);
    XorZero(PowX(bitlen - 1 - p));
    FrameChecksum(Flip(msg, p), bitlen);
    SyndromeBits(bitlen, p);
    WordExtensional(Checksum(Flip(msg, p), bitlen), Syndrome(bitlen, p));
  }

  lemma FlipSyndrome2(msg: seq<bv8>, bitlen: nat, p: nat, q: nat)
    requires IsFrame(msg, bitlen) && p < bitlen && q < bitlen && p != q && Checksum(msg, bitlen) == 0
    ensures Checksum(Flip(Flip(msg, p), q), bitlen) == Syndrome2(bitlen, p, q)
  {
    hide WordBits, Residue, ToBits, PowX, Flip, Syndrome2, Checksum, Xor, Zeros, Is24;
    var damaged := Flip(Flip(msg, p), q);
    ValidResidue(msg, bitlen);
    FlipResidue(msg, bitlen, p);
    FlipResidue(Flip(msg, p), bitlen, q);
    XorZero(PowX(bitlen - 1 - p));
    FrameChecksum(damaged, bitlen);
    SyndromeBits2(bitlen, p, q);
    WordExtensional(Checksum(damaged, bitlen), Syndrome2(bitlen, p, q));
  }

  // ---- what is diagnosed ----

  lemma PowNotZero(n: nat)
    ensures PowX(n) != Zeros(24)
  {
    assert Unit(24, 23)[23] != Zeros(24)[23];
    if PowX(n) == Zeros(24) {
      MulXKernel(Unit(24, 23), n);
    }
  }

  lemma SyndromeNotZero(bitlen: nat, p: nat)
    requires FrameBits(bitlen) && p < bitlen
    ensures Syndrome(bitlen, p) != 0
  {
    hide WordBits, Syndrome, PowX, Zeros, Is24;
    SyndromeBits(bitlen, p);
    PowNotZero(bitlen - 1 - p);
    ZeroBits();
  }

  lemma Syndrome2NotZero(bitlen: nat, p: nat, q: nat)
    requires FrameBits(bitlen) && p < q < bitlen
    ensures Syndrome2(bitlen, p, q) != 0
  {
    hide WordBits, Syndrome2, PowX, Zeros, Xor, Is24;
    SyndromeBits2(bitlen, p, q);
    PowDistinct(bitlen - 1 - q, bitlen - 1 - p);
    XorCancel(PowX(bitlen - 1 - p), PowX(bitlen - 1 - q));
    ZeroBits();
  }

  lemma SyndromeDistinct(bitlen: nat, p: nat, q: nat)
    requires FrameBits(bitlen) && p < q < bitlen
    ensures Syndrome(bitlen, p) != Syndrome(bitlen, q)
  {
    hide WordBits, Syndrome, PowX, Is24;
    SyndromeBits(bitlen, p);
    SyndromeBits(bitlen, q);
    PowDistinct(bitlen - 1 - q, bitlen - 1 - p);
  }

  /** A valid frame is never diagnosed as damaged. */
  lemma ValidNotDiagnosed(table: Table, bitlen: nat)
    requires FrameBits(bitlen) && TableFor(table, bitlen)
    ensures Key(0) !in table
  {
    hide Syndrome, Syndrome2, Is24;
    if Key(0) in table {
      var info := table[Key(0)];
      assert Entry(bitlen, 0, info);
      if Entry1(bitlen, 0, info) {
        SyndromeNotZero(bitlen, info.bits[0]);
      } else {
        Syndrome2NotZero(bitlen, info.bits[0], info.bits[1]);
      }
    }
  }

  /** The entry of a one-bit syndrome is that bit. */
  lemma SingleEntry(table: Table, bitlen: nat, p: nat)
    requires FrameBits(bitlen) && TableFor(table, bitlen) && 5 <= p < bitlen
    ensures Key(Syndrome(bitlen, p)) in table
    ensures table[Key(Syndrome(bitlen, p))] == ErrorInfo(Syndrome(bitlen, p), 1, [p as int, -1])
  {
    hide Syndrome, Syndrome2, Is24;
    var s := Syndrome(bitlen, p);
    assert Has1(table, bitlen, p);
    var info := table[Key(s)];
    assert Entry(bitlen, s, info);
    if info.bits[0] < p {
      SyndromeDistinct(bitlen, info.bits[0], p);
    } else if p < info.bits[0] {
      SyndromeDistinct(bitlen, p, info.bits[0]);
    }
    assert info.bits == [p as int, -1];
  }

  lemma FlipTwice(msg: seq<bv8>, p: nat)
    requires p < 8 * |msg|
    ensures Flip(Flip(msg, p), p) == msg
  {
    hide Flip, ToBits;
    FlipBits(msg, p);
    FlipBits(Flip(msg, p), p);
    XorTwice(ToBits(msg), Unit(8 * |msg|, p));
    BytesExtensional(Flip(Flip(msg, p), p), msg);
  }

  /** Exact single-error correction: a valid frame with one bit flipped outside the format field is restored. */
  lemma SingleErrorCorrected(table: Table, msg: seq<bv8>, bitlen: nat, p: nat)
    requires TableFor(table, bitlen) && IsFrame(msg, bitlen) && Checksum(msg, bitlen) == 0 && 5 <= p < bitlen
    ensures var s := Checksum(Flip(msg, p), bitlen);
            && Key(s) in table
            && table[Key(s)] == ErrorInfo(s, 1, [p as int, -1])
            && BitsFit(table[Key(s)].bits, bitlen)
            && Corrected(Flip(msg, p), table[Key(s)].bits) == msg
  {
    hide Syndrome, Flip, Checksum, TableFor, Is24;
    FlipSyndrome(msg, bitlen, p);
    SingleEntry(table, bitlen, p);
    var info := table[Key(Syndrome(bitlen, p))];
    Corrected1(Flip(msg, p), info);
    FlipTwice(msg, p);
  }

  // ---- what a repair does to any frame ----

  /** The number of bits in which two messages differ. */
  function Distance(a: seq<bv8>, b: seq<bv8>): (d: nat)
    requires |a| == |b|
    ensures d <= 8 * |a|
  {
    Ones(Xor(ToBits(a), ToBits(b)))
  }

  /** The downlink format: the first five bits. */
  function Format(msg: seq<bv8>): bv8
    requires |msg| > 0
  {
    msg[0] >> 3
  }

  lemma OnesSet(bits: seq<bool>, p: nat)
    requires p < |bits| && !bits[p]
    ensures Ones(bits[p := true]) == Ones(bits) + 1
  {
    var a, b := bits[..p], bits[p + 1..];
    assert bits == a + ([false] + b);
    assert bits[p := true] == a + ([true] + b);
    OnesConcat(a, [false] + b);
    OnesConcat(a, [true] + b);
    OnesConcat([false], b);
    OnesConcat([true], b);
    OnesOne(false);
    OnesOne(true);
  }

  lemma FlipDistance(msg: seq<bv8>, p: nat)
    requires p < 8 * |msg|
    ensures Distance(Flip(msg, p), msg) == 1
  {
    hide Flip, ToBits;
    var n := 8 * |msg|;
    FlipBits(msg, p);
    assert Xor(Xor(ToBits(msg), Unit(n, p)), ToBits(msg)) == Unit(n, p);
    OnesUnit(n, p);
  }

  lemma FlipDistance2(msg: seq<bv8>, p: nat, q: nat)
    requires p < q < 8 * |msg|
    ensures Distance(Flip(Flip(msg, p), q), msg) == 2
  {
    hide Flip, ToBits;
    var n := 8 * |msg|;
    FlipBits(msg, p);
    FlipBits(Flip(msg, p), q);
    assert Xor(Xor(Xor(ToBits(msg), Unit(n, p)), Unit(n, q)), ToBits(msg)) == Unit(n, p)[q := true];
    OnesUnit(n, p);
    OnesSet(Unit(n, p), q);
  }

  lemma DistanceSelf(a: seq<bv8>)
    ensures Distance(a, a) == 0
  {
    hide ToBits;
    XorSelf(ToBits(a));
    OnesZeros(8 * |a|);
  }

  lemma MaskKeepsFormat(b: bv8, i: nat)
    requires 5 <= i < 8
    ensures (b ^ Mask(i)) >> 3 == b >> 3
  {
  }

  lemma FlipKeepsFormat(msg: seq<bv8>, p: nat)
    requires 5 <= p < 8 * |msg|
    ensures Format(Flip(msg, p)) == Format(msg)
  {
    hide Mask;
    if p < 8 {
      MaskKeepsFormat(msg[0], p);
    }
  }

  lemma CancelSyndrome(msg: seq<bv8>, repaired: seq<bv8>, bitlen: nat, r: seq<bool>)
    requires IsFrame(msg, bitlen) && IsFrame(repaired, bitlen) && |r| == 24
    requires Residue(ToBits(repaired)) == Xor(Residue(ToBits(msg)), r)
    requires WordBits(Checksum(msg, bitlen)) == r
    ensures Checksum(repaired, bitlen) == 0
  {
    hide WordBits, Residue, ToBits, Checksum, Xor, Zeros, Is24;
    FrameChecksum(msg, bitlen);
    XorSelf(r);
    ValidResidue(repaired, bitlen);
  }

  lemma XorPair(r: seq<bool>, s: seq<bool>, t: seq<bool>)
    requires |r| == |s| == |t|
    ensures Xor(Xor(r, s), t) == Xor(r, Xor(s, t))
  {
  }

  /** Whatever the frame was, repairing a diagnosed frame gives a valid one of the same format, `errors` bits away. */
  lemma RepairSound(table: Table, msg: seq<bv8>, bitlen: nat)
    requires TableFor(table, bitlen) && IsFrame(msg, bitlen) && Key(Checksum(msg, bitlen)) in table
    ensures var info := table[Key(Checksum(msg, bitlen))];
            && BitsFit(info.bits, bitlen)
            && Checksum(Corrected(msg, info.bits), bitlen) == 0
            && Format(Corrected(msg, info.bits)) == Format(msg)
            && Distance(Corrected(msg, info.bits), msg) == info.errors
            && 1 <= info.errors <= 2
  {
    hide WordBits, Residue, ToBits, PowX, Flip, Syndrome, Syndrome2, Checksum, Xor, Distance, Format, Corrected, Is24;
    var s := Checksum(msg, bitlen);
    var info := table[Key(s)];
    assert Entry(bitlen, s, info);
    var p := info.bits[0];
    FlipResidue(msg, bitlen, p);
    FlipKeepsFormat(msg, p);
    if Entry1(bitlen, s, info) {
      Corrected1(msg, info);
      SyndromeBits(bitlen, p);
      CancelSyndrome(msg, Flip(msg, p), bitlen, PowX(bitlen - 1 - p));
      FlipDistance(msg, p);
    } else {
      var q := info.bits[1];
      Corrected2(msg, info);
      SyndromeBits2(bitlen, p, q);
      FlipResidue(Flip(msg, p), bitlen, q);
      FlipKeepsFormat(Flip(msg, p), q);
      XorPair(Residue(ToBits(msg)), PowX(bitlen - 1 - p), PowX(bitlen - 1 - q));
      CancelSyndrome(msg, Flip(Flip(msg, p), q), bitlen, Xor(PowX(bitlen - 1 - p), PowX(bitlen - 1 - q)));
      FlipDistance2(msg, p, q);
    }
  }

  // ---- parity ----

  lemma PowOdd(n: nat)
    ensures Odd(PowX(n))
  {
    hide PowX;
    UnitResidue(n + 1, 0);
    OnesUnit(n + 1, 0);
    ResidueOdd(Unit(n + 1, 0));
  }

  /** One-bit syndromes have odd weight and two-bit syndromes even weight, so they never meet. */
  lemma EntryParity(bitlen: nat, s: bv32, info: ErrorInfo)
    requires FrameBits(bitlen) && Entry(bitlen, s, info)
    ensures Odd(WordBits(s)) <==> info.errors == 1
  {
    hide WordBits, PowX, Syndrome, Syndrome2, Xor, Odd, Is24;
    var p := info.bits[0];
    PowOdd(bitlen - 1 - p);
    if Entry1(bitlen, s, info) {
      SyndromeBits(bitlen, p);
    } else {
      var q := info.bits[1];
      SyndromeBits2(bitlen, p, q);
      PowOdd(bitlen - 1 - q);
      OddXor(PowX(bitlen - 1 - p), PowX(bitlen - 1 - q));
    }
  }

  /** The checksum of a damaged frame has the parity of the damage. */
  lemma DamageParity(valid: seq<bv8>, msg: seq<bv8>, bitlen: nat)
    requires IsFrame(valid, bitlen) && IsFrame(msg, bitlen) && Checksum(valid, bitlen) == 0
    ensures Odd(WordBits(Checksum(msg, bitlen))) <==> Distance(msg, valid) % 2 == 1
  {
    hide WordBits, Residue, ToBits, Checksum, Zeros, Xor, Is24;
    ValidResidue(valid, bitlen);
    FrameChecksum(msg, bitlen);
    ResidueXor(ToBits(msg), ToBits(valid));
    XorZero(Residue(ToBits(msg)));
    ResidueOdd(Xor(ToBits(msg), ToBits(valid)));
  }

  /** Odd damage is always detected, and the kind of diagnosis always has the parity of the damage. */
  lemma DiagnosisParity(table: Table, valid: seq<bv8>, msg: seq<bv8>, bitlen: nat)
    requires TableFor(table, bitlen)
    requires IsFrame(valid, bitlen) && IsFrame(msg, bitlen) && Checksum(valid, bitlen) == 0
    ensures Distance(msg, valid) % 2 == 1 ==> Checksum(msg, bitlen) != 0
    ensures Key(Checksum(msg, bitlen)) in table ==>
              table[Key(Checksum(msg, bitlen))].errors == if Distance(msg, valid) % 2 == 1 then 1 else 2
  {
    hide WordBits, Checksum, Distance, Syndrome, Syndrome2, Odd, Is24;
    var s := Checksum(msg, bitlen);
    DamageParity(valid, msg, bitlen);
    ZeroBits();
    ZerosEven();
    if Key(s) in table {
      assert Entry(bitlen, s, table[Key(s)]);
      EntryParity(bitlen, s, table[Key(s)]);
    }
  }

  lemma ZerosEven()
    ensures !Odd(Zeros(24))
  {
    OnesZeros(24);
  }

  /** Two flipped bits outside the format field are always diagnosed, and always as a two-bit error. */
  lemma DoubleErrorDiagnosed(table: Table, msg: seq<bv8>, bitlen: nat, p: nat, q: nat)
    requires TableFor(table, bitlen) && IsFrame(msg, bitlen) && Checksum(msg, bitlen) == 0
    requires 5 <= p < q < bitlen
    ensures var s := Checksum(Flip(Flip(msg, p), q), bitlen);
            && Key(s) in table
            && table[Key(s)].errors == 2
  {
    hide Checksum, Flip, Syndrome, Syndrome2, Distance, Is24;
    FlipSyndrome2(msg, bitlen, p, q);
    assert Has2(table, bitlen, p, q);
    FlipDistance2(msg, p, q);
    DiagnosisParity(table, msg, Flip(Flip(msg, p), q), bitlen);
  }

  // ---- what becomes of two-bit damage ----

  lemma Unit4(n: nat, p: nat, q: nat, i: nat, j: nat) returns (x: seq<bool>)
    requires p < n && q < n && i < n && j < n && p != q && i != j && p != i && p != j && q != i && q != j
    ensures x == Xor(Xor(Unit(n, p), Unit(n, q)), Xor(Unit(n, i), Unit(n, j))) && Ones(x) == 4
  {
    hide Ones;
    x := Unit(n, p)[q := true][i := true][j := true];
    OnesUnit(n, p);
    OnesSet(Unit(n, p), q);
    OnesSet(Unit(n, p)[q := true], i);
    OnesSet(Unit(n, p)[q := true][i := true], j);
  }

  lemma FourFlips(msg: seq<bv8>, p: nat, q: nat, i: nat, j: nat)
    requires p < 8 * |msg| && q < 8 * |msg| && i < 8 * |msg| && j < 8 * |msg|
    requires p != q && i != j && p != i && p != j && q != i && q != j
    ensures Distance(Flip(Flip(Flip(Flip(msg, p), q), i), j), msg) == 4
  {
    hide Flip, ToBits, Unit, Ones;
    var n := 8 * |msg|;
    FlipBits(msg, p);
    FlipBits(Flip(msg, p), q);
    FlipBits(Flip(Flip(msg, p), q), i);
    FlipBits(Flip(Flip(Flip(msg, p), q), i), j);
    var x := Unit4(n, p, q, i, j);
    var m := ToBits(msg);
    assert Xor(Xor(Xor(Xor(Xor(m, Unit(n, p)), Unit(n, q)), Unit(n, i)), Unit(n, j)), m)
        == Xor(Xor(Unit(n, p), Unit(n, q)), Xor(Unit(n, i), Unit(n, j)));
  }

  lemma FlipsCommute(msg: seq<bv8>, p: nat, q: nat)
    requires p < 8 * |msg| && q < 8 * |msg|
    ensures Flip(Flip(msg, p), q) == Flip(Flip(msg, q), p)
  {
    hide Flip, ToBits, Unit;
    var a, b := Flip(Flip(msg, p), q), Flip(Flip(msg, q), p);
    FlipBits(msg, p);
    FlipBits(msg, q);
    FlipBits(Flip(msg, p), q);
    FlipBits(Flip(msg, q), p);
    assert Xor(Xor(ToBits(msg), Unit(8 * |msg|, p)), Unit(8 * |msg|, q))
        == Xor(Xor(ToBits(msg), Unit(8 * |msg|, q)), Unit(8 * |msg|, p));
    BytesExtensional(a, b);
  }

  /** Two pairs of positions with one syndrome are the same pair, or have no position in common. */
  lemma PairsDisjoint(bitlen: nat, p: nat, q: nat, i: nat, j: nat)
    requires FrameBits(bitlen) && p < q < bitlen && i < j < bitlen
    requires Syndrome2(bitlen, p, q) == Syndrome2(bitlen, i, j)
    ensures (p == i && q == j) || (p != i && p != j && q != i && q != j)
  {
    hide WordBits, Syndrome2, PowX, Xor, Is24;
    var n := bitlen - 1;
    SyndromeBits2(bitlen, p, q);
    SyndromeBits2(bitlen, i, j);
    if p == i || p == j || q == i || q == j {
      var common := if p == i || p == j then p else q;
      var a, b := if p == i || p == j then q else p, if common == i then j else i;
      XorCommutes(PowX(n - p), PowX(n - q));
      XorCommutes(PowX(n - i), PowX(n - j));
      CancelCommon(PowX(n - common), PowX(n - a), PowX(n - b));
      if a < b {
        PowDistinct(n - b, n - a);
      } else if b < a {
        PowDistinct(n - a, n - b);
      }
    }
  }

  lemma XorCommutes(r: seq<bool>, s: seq<bool>)
    requires |r| == |s|
    ensures Xor(r, s) == Xor(s, r)
  {
  }

  lemma CancelCommon(c: seq<bool>, r: seq<bool>, s: seq<bool>)
    requires |c| == |r| == |s| && Xor(c, r) == Xor(c, s)
    ensures r == s
  {
    assert Xor(Xor(c, r), c) == r && Xor(Xor(c, s), c) == s;
  }

  /**
    * Repairing a valid frame with two damaged bits restores it exactly when the table names these two bits; otherwise
    * the result is another valid frame, four bits away from the original.
    */
  lemma DoubleErrorRepaired(table: Table, msg: seq<bv8>, bitlen: nat, p: nat, q: nat)
    requires TableFor(table, bitlen) && IsFrame(msg, bitlen) && Checksum(msg, bitlen) == 0
    requires 5 <= p < q < bitlen
    ensures var damaged := Flip(Flip(msg, p), q);
            var s := Checksum(damaged, bitlen);
            && Key(s) in table && BitsFit(table[Key(s)].bits, bitlen)
            && var repaired := Corrected(damaged, table[Key(s)].bits);
            && Checksum(repaired, bitlen) == 0
            && (repaired == msg <==> table[Key(s)].bits == [p as int, q])
            && Distance(repaired, msg) == if table[Key(s)].bits == [p as int, q] then 0 else 4
  {
    hide Checksum, Flip, Syndrome, Syndrome2, Distance, Corrected, Is24;
    var damaged := Flip(Flip(msg, p), q);
    var s := Checksum(damaged, bitlen);
    DoubleErrorDiagnosed(table, msg, bitlen, p, q);
    RepairSound(table, damaged, bitlen);
    FlipSyndrome2(msg, bitlen, p, q);
    var info := table[Key(s)];
    assert Entry(bitlen, s, info);
    var i, j := info.bits[0], info.bits[1];
    PairsDisjoint(bitlen, p, q, i, j);
    Corrected2(damaged, info);
    DistanceSelf(msg);
    if p == i && q == j {
      FlipsCommute(damaged, p, q);
      FlipTwice(Flip(msg, p), q);
      FlipTwice(msg, p);
    } else {
      FourFlips(msg, p, q, i, j);
    }
  }
}
