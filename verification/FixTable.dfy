/** The error-correction table: how it is built, what it diagnoses and what it repairs. */
module FixTable {
  import opened Common
  import opened Engine
  import opened CrcFix

  // ---- entries ----

  /** An entry names the error that has its syndrome, and never touches the format field (bits 0 to 4). */
  ghost predicate Entry(bitlen: nat, s: bv32, info: ErrorInfo) {
    && info.syndrome == s
    && |info.bits| == 2
    && (Entry1(bitlen, s, info) || Entry2(bitlen, s, info))
  }

  ghost predicate Entry1(bitlen: nat, s: bv32, info: ErrorInfo)
    requires |info.bits| == 2
  {
    info.errors == 1 && 5 <= info.bits[0] < bitlen && info.bits[1] == -1 && s == Syndrome(bitlen, info.bits[0])
  }

  ghost predicate Entry2(bitlen: nat, s: bv32, info: ErrorInfo)
    requires |info.bits| == 2
  {
    info.errors == 2 && 5 <= info.bits[0] < info.bits[1] < bitlen && s == Syndrome2(bitlen, info.bits[0], info.bits[1])
  }

  ghost predicate Sound(table: Table, bitlen: nat) {
    forall s :: s in table ==> Entry(bitlen, s.syndrome, table[s])
  }

  ghost predicate Has1(table: Table, bitlen: nat, p: nat)
    requires p < bitlen
  {
    Key(Syndrome(bitlen, p)) in table && table[Key(Syndrome(bitlen, p))].errors == 1
  }

  ghost predicate Has2(table: Table, bitlen: nat, p: nat, q: nat)
    requires p < bitlen && q < bitlen
  {
    Key(Syndrome2(bitlen, p, q)) in table
  }

  /** The one-bit errors before position `n` are diagnosed as such. */
  ghost predicate Singles(table: Table, bitlen: nat, n: nat) {
    forall p: nat :: 5 <= p < n && p < bitlen ==> Has1(table, bitlen, p)
  }

  /** The two-bit errors before the pair `m`, `n` in the order of the loops are diagnosed. */
  ghost predicate Pairs(table: Table, bitlen: nat, m: nat, n: nat) {
    forall p: nat, q: nat :: 5 <= p < q < bitlen && (p < m || (p == m && q < n)) ==> Has2(table, bitlen, p, q)
  }

  /** Every one-bit error is diagnosed as such, and every two-bit error is diagnosed. */
  ghost predicate TableFor(table: Table, bitlen: nat) {
    Sound(table, bitlen) && Singles(table, bitlen, bitlen) && Pairs(table, bitlen, bitlen, 0)
  }

  // ---- entries as they are stored: positions in an i8 ----

  /** A position as an i8. */
  function AsI8(p: nat): int {
    if p % 256 < 128 then p % 256 else p % 256 - 256
  }

  /** A position is stored as it is exactly when it is below 128. */
  lemma StoredExactly(p: nat)
    ensures AsI8(p) == p <==> p < 128
  {
  }

  ghost predicate Stored1(bitlen: nat, s: bv32, info: ErrorInfo) {
    exists p: nat :: 5 <= p < bitlen && s == Syndrome(bitlen, p) && info == ErrorInfo(s, 1, [AsI8(p), -1])
  }

  ghost predicate Stored2(bitlen: nat, s: bv32, info: ErrorInfo) {
    exists p: nat, q: nat :: 5 <= p < q < bitlen && s == Syndrome2(bitlen, p, q)
                             && info == ErrorInfo(s, 2, [AsI8(p), AsI8(q)])
  }

  ghost predicate StoredSound(table: Table, bitlen: nat) {
    forall s :: s in table ==> Stored1(bitlen, s.syndrome, table[s]) || Stored2(bitlen, s.syndrome, table[s])
  }

  /** What the builder makes for any length: every error is diagnosed, every diagnosis names one, stored in i8. */
  ghost predicate StoredTable(table: Table, bitlen: nat) {
    StoredSound(table, bitlen) && Singles(table, bitlen, bitlen) && Pairs(table, bitlen, bitlen, 0)
  }

  lemma StoredEntry(bitlen: nat, s: bv32, info: ErrorInfo)
    requires bitlen <= 128 && (Stored1(bitlen, s, info) || Stored2(bitlen, s, info))
    ensures Entry(bitlen, s, info)
  {
    hide Syndrome, Syndrome2;
    if Stored1(bitlen, s, info) {
      var p: nat :| 5 <= p < bitlen && s == Syndrome(bitlen, p) && info == ErrorInfo(s, 1, [AsI8(p), -1]);
      StoredExactly(p);
    } else {
      var p: nat, q: nat :| 5 <= p < q < bitlen && s == Syndrome2(bitlen, p, q)
                            && info == ErrorInfo(s, 2, [AsI8(p), AsI8(q)]);
      StoredExactly(p);
      StoredExactly(q);
    }
  }

  /** For messages of up to 128 bits the stored positions are the real ones. */
  lemma StoredIsExact(table: Table, bitlen: nat)
    requires bitlen <= 128 && StoredTable(table, bitlen)
    ensures TableFor(table, bitlen)
  {
    hide Stored1, Stored2, Entry, Has1, Has2;
    forall s | s in table
      ensures Entry(bitlen, s.syndrome, table[s])
    {
      StoredEntry(bitlen, s.syndrome, table[s]);
    }
  }

  // ---- the table builder ----

  lemma Insert1(table: Table, bitlen: nat, p: nat, info: ErrorInfo)
    requires 5 <= p < bitlen && StoredSound(table, bitlen) && Singles(table, bitlen, p)
    requires info == ErrorInfo(Syndrome(bitlen, p), 1, [AsI8(p), -1])
    ensures StoredSound(table[Key(info.syndrome) := info], bitlen)
    ensures Singles(table[Key(info.syndrome) := info], bitlen, p + 1)
  {
    hide Syndrome, Stored2;
    var t := table[Key(info.syndrome) := info];
    assert Stored1(bitlen, info.syndrome, info);
    forall k: nat | 5 <= k < p + 1
      ensures Has1(t, bitlen, k)
    {
      assert k < p ==> Has1(table, bitlen, k);
    }
  }

  lemma OrInsert2(table: Table, bitlen: nat, p: nat, q: nat, info: ErrorInfo)
    requires 5 <= p < q < bitlen
    requires StoredSound(table, bitlen) && Singles(table, bitlen, bitlen) && Pairs(table, bitlen, p, q)
    requires info == ErrorInfo(Syndrome2(bitlen, p, q), 2, [AsI8(p), AsI8(q)])
    requires Key(info.syndrome) !in table
    ensures StoredSound(table[Key(info.syndrome) := info], bitlen)
    ensures Singles(table[Key(info.syndrome) := info], bitlen, bitlen)
    ensures Pairs(table[Key(info.syndrome) := info], bitlen, p, q + 1)
  {
    hide Syndrome, Syndrome2, Stored1;
    var t := table[Key(info.syndrome) := info];
    assert Stored2(bitlen, info.syndrome, info);
    forall k: nat | 5 <= k < bitlen
      ensures Has1(t, bitlen, k)
    {
      assert Has1(table, bitlen, k);
    }
    forall k: nat, l: nat | 5 <= k < l < bitlen && (k < p || (k == p && l < q + 1))
      ensures Has2(t, bitlen, k, l)
    {
      assert k < p || l < q ==> Has2(table, bitlen, k, l);
    }
  }

  lemma AlreadyThere(table: Table, bitlen: nat, p: nat, q: nat)
    requires 5 <= p < q < bitlen && Pairs(table, bitlen, p, q)
    requires Key(Syndrome2(bitlen, p, q)) in table
    ensures Pairs(table, bitlen, p, q + 1)
  {
    hide Syndrome2;
    assert Has2(table, bitlen, p, q);
  }

  /** One-bit errors are always inserted. */
  method BuildSingles(bitlen: nat) returns (table: Table)
    ensures StoredSound(table, bitlen) && Singles(table, bitlen, bitlen)
  {
    hide StoredSound, Has1, Checksum, ZeroBytes, AsI8;
    table := map[];
    SoundEmpty(bitlen);
    var bitPos := 5;
    while bitPos < bitlen
      invariant 5 <= bitPos
      invariant StoredSound(table, bitlen) && Singles(table, bitlen, bitPos)
    {
      var errorMsg := SetBit(ZeroBytes(NBytes(bitlen)), bitPos);
      var syndrome := ModesChecksum(errorMsg, bitlen);
      var info := ErrorInfo(syndrome, 1, [AsI8(bitPos), -1]);
      Insert1(table, bitlen, bitPos, info);
      table := table[Key(syndrome) := info];
      bitPos := bitPos + 1;
    }
  }

  /** Two-bit errors are inserted only where there is no entry yet. */
  method AddDoubles(singles: Table, bitlen: nat) returns (table: Table)
    requires StoredSound(singles, bitlen) && Singles(singles, bitlen, bitlen)
    ensures StoredTable(table, bitlen)
  {
    hide StoredSound, Has1, Has2, Singles, Checksum, ZeroBytes, AsI8;
    table := singles;
    var bit1 := 5;
    while bit1 < bitlen
      invariant 5 <= bit1
      invariant StoredSound(table, bitlen) && Singles(table, bitlen, bitlen) && Pairs(table, bitlen, bit1, 0)
    {
      var bit2 := bit1 + 1;
      while bit2 < bitlen
        invariant bit1 < bit2
        invariant StoredSound(table, bitlen) && Singles(table, bitlen, bitlen) && Pairs(table, bitlen, bit1, bit2)
      {
        var errorMsg := SetBit(SetBit(ZeroBytes(NBytes(bitlen)), bit1), bit2);
        var syndrome := ModesChecksum(errorMsg, bitlen);
        if Key(syndrome) in table {
          AlreadyThere(table, bitlen, bit1, bit2);
        } else {
          var info := ErrorInfo(syndrome, 2, [AsI8(bit1), AsI8(bit2)]);
          OrInsert2(table, bitlen, bit1, bit2, info);
          table := table[Key(syndrome) := info];
        }
        bit2 := bit2 + 1;
      }
      bit1 := bit1 + 1;
    }
  }

  lemma SoundEmpty(bitlen: nat)
    ensures StoredSound(map[], bitlen)
  {
  }

  class CrcFixEngine {
    const table: Table
    const maxBitlen: nat

    ghost predicate Valid() {
      TableFor(table, maxBitlen)
    }

    /** For any length, every error is diagnosed; for messages of up to 128 bits, as what it is. */
    constructor (bitlen: nat)
      ensures StoredTable(table, bitlen) && maxBitlen == bitlen
      ensures bitlen <= 128 ==> Valid()
    {
      var singles := BuildSingles(bitlen);
      var all := AddDoubles(singles, bitlen);
      table, maxBitlen := all, bitlen;
      if bitlen <= 128 { StoredIsExact(all, bitlen); }
    }

    function Diagnose(syndrome: bv32): Option<ErrorInfo> {
      Lookup(table, syndrome)
    }
  }
}
