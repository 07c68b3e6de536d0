/** The order in which scores put messages: what the choice between phases prefers. */
module Ranking {
  import opened Common
  import opened Words
  import opened Engine
  import opened FixTable
  import opened Scoring
  import opened MultiPass
  import opened EndToEnd

  /** The damage that the checksum of a message shows: the number of bits to repair, or three for more than can be. */
  function Damage(rx: Receiver, msg: seq<bv8>): (d: nat)
    requires WellFormed(msg)
  {
    WellFormedFrame(msg);
    if Checksum(msg, 8 * |msg|) == 0 then 0 else if Diagnosed(rx, msg).Some? then Diagnosed(rx, msg).value.errors else 3
  }

  lemma DamageRange(rx: Receiver, msg: seq<bv8>)
    requires rx.Valid() && WellFormed(msg)
    ensures Damage(rx, msg) <= 3
    ensures Damage(rx, msg) == 0 <==> (WellFormedFrame(msg); Checksum(msg, 8 * |msg|) == 0)
  {
    hide Checksum, WellFormed, TableFor, Diagnosed;
    WellFormedFrame(msg);
    if Diagnosed(rx, msg).Some? {
      DiagnosedErrors(rx, msg);
    }
  }

  predicate SquitterFormat(msg: seq<bv8>)
    requires WellFormed(msg)
  {
    msg[0] >> 3 == 17 || msg[0] >> 3 == 18
  }

  predicate AllCallFormat(msg: seq<bv8>)
    requires WellFormed(msg)
  {
    msg[0] >> 3 == 11
  }

  /** An all-call reply to no interrogator in particular. */
  predicate Unnumbered(msg: seq<bv8>)
    requires WellFormed(msg)
  {
    msg[0] & 7 == 0
  }

  /** Extended squitters: the less damage the better, and then a known aircraft. Beyond repair all are equal. */
  lemma SquitterOrder(rx: Receiver, a: seq<bv8>, b: seq<bv8>)
    requires rx.Valid() && WellFormed(a) && WellFormed(b) && SquitterFormat(a) && SquitterFormat(b)
    ensures Score(rx, a) > Score(rx, b)
            <==> Damage(rx, a) < Damage(rx, b)
                 || (Damage(rx, a) == Damage(rx, b) < 3 && Known(rx, a) && !Known(rx, b))
  {
    hide Checksum, MessageLength, Join;
    DamageRange(rx, a);
    DamageRange(rx, b);
  }

  /** Any other damaged reply counts only if one bit is to be repaired, and then a known aircraft counts more. */
  lemma DamagedReplyOrder(rx: Receiver, a: seq<bv8>, b: seq<bv8>)
    requires rx.Valid() && WellFormed(a) && WellFormed(b) && !SquitterFormat(a) && !SquitterFormat(b)
    requires AllCallFormat(a) <==> AllCallFormat(b)
    requires Damage(rx, a) > 0 && Damage(rx, b) > 0
    ensures Score(rx, a) > Score(rx, b)
            <==> Damage(rx, a) == 1 && (Damage(rx, b) > 1 || (Known(rx, a) && !Known(rx, b)))
  {
    hide Checksum, MessageLength, Join;
    DamageRange(rx, a);
    DamageRange(rx, b);
  }

  /** Clean all-call replies: first those to no interrogator, then known aircraft. */
  lemma CleanAllCallOrder(rx: Receiver, a: seq<bv8>, b: seq<bv8>)
    requires rx.Valid() && WellFormed(a) && WellFormed(b) && AllCallFormat(a) && AllCallFormat(b)
    requires Damage(rx, a) == Damage(rx, b) == 0
    ensures Score(rx, a) > Score(rx, b)
            <==> (Unnumbered(a) && !Unnumbered(b)) || (Unnumbered(a) == Unnumbered(b) && Known(rx, a) && !Known(rx, b))
  {
    hide Checksum, MessageLength, Join;
    DamageRange(rx, a);
    DamageRange(rx, b);
  }

  /** Clean replies with address parity: known aircraft first. */
  lemma CleanReplyOrder(rx: Receiver, a: seq<bv8>, b: seq<bv8>)
    requires rx.Valid() && WellFormed(a) && WellFormed(b)
    requires !SquitterFormat(a) && !AllCallFormat(a) && !SquitterFormat(b) && !AllCallFormat(b)
    requires Damage(rx, a) == Damage(rx, b) == 0
    ensures Score(rx, a) > Score(rx, b) <==> Known(rx, a) && !Known(rx, b)
  {
    hide Checksum, MessageLength, Join;
    DamageRange(rx, a);
    DamageRange(rx, b);
  }

  // ---- across formats ----

  /** Nothing that the score takes for repairable. */
  predicate Hopeless(rx: Receiver, msg: seq<bv8>)
    requires WellFormed(msg)
  {
    Damage(rx, msg) > if SquitterFormat(msg) then 2 else 1
  }

  /** A message beyond repair loses against any other that is not, of whatever format, and beats none. */
  lemma HopelessLoses(rx: Receiver, a: seq<bv8>, b: seq<bv8>)
    requires rx.Valid() && WellFormed(a) && WellFormed(b) && Hopeless(rx, b)
    ensures Score(rx, a) > Score(rx, b) <==> !Hopeless(rx, a)
    ensures Score(rx, a) >= Score(rx, b)
  {
    hide Checksum, MessageLength, Join;
    DamageRange(rx, a);
    DamageRange(rx, b);
  }

  /**
    * A clean squitter wins against everything but another clean squitter, with one exception: from an unknown aircraft
    * it loses against a clean all-call reply from a known one to no interrogator.
    */
  lemma CleanSquitterWins(rx: Receiver, a: seq<bv8>, b: seq<bv8>)
    requires rx.Valid() && WellFormed(a) && WellFormed(b) && SquitterFormat(a) && Damage(rx, a) == 0
    requires !(SquitterFormat(b) && Damage(rx, b) == 0)
    ensures Score(rx, a) > Score(rx, b)
            <==> Known(rx, a) || !(AllCallFormat(b) && Damage(rx, b) == 0 && Unnumbered(b) && Known(rx, b))
  {
    hide Checksum, MessageLength, Join;
    DamageRange(rx, b);
  }
}
