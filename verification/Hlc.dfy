/**
 The hybrid-logical-clock timestamp of the timestamp oracle: a physical part in
 milliseconds and a logical counter, packed into 64 bits by a shift and a bitwise or.
 */
module Hlc {
  import opened Numbers

  const LOGICAL_BITS: nat := 18
  const LOGICAL_RANGE: nat := 262144
  const MAX_LOGICAL: nat := 262143

  /** The physical times whose shift by 18 bits still fits in 64 bits (up to the year 4199). */
  const PHYSICAL_RANGE: nat := 70368744177664

  datatype TimeStamp = TimeStamp(physical: nat, logical: nat) {

    /** Reset: move to a new millisecond and restart the logical counter. */
    function Reset(now: nat): TimeStamp {
      TimeStamp(now, 0)
    }

    /** Incr: the next timestamp inside the same millisecond. */
    function Incr(): TimeStamp {
      TimeStamp(physical, logical + 1)
    }

    predicate ExceedLogicalMax() {
      logical > MAX_LOGICAL
    }

    /** The 64-bit form: the shift drops the bits above 63, the or does not carry. */
    function Compose(): nat {
      BitOr((physical * LOGICAL_RANGE) % TWO_64, logical)
    }
  }

  lemma RangeIsPow2()
    ensures Pow2(LOGICAL_BITS) == LOGICAL_RANGE
  {
    assert Pow2(6) == 64;
    assert Pow2(12) == 4096 by { assert Pow2(9) == 512; }
    assert Pow2(15) == 32768;
  }

  /** In the normal range the packed form is the positional value of the two parts. */
  lemma ComposeValue(t: TimeStamp)
    requires t.physical < PHYSICAL_RANGE && t.logical <= MAX_LOGICAL
    ensures t.Compose() == t.physical * LOGICAL_RANGE + t.logical
  {
    RangeIsPow2();
    OrOfDisjointBits(t.physical, t.logical, LOGICAL_BITS);
  }

  /** Packing preserves and reflects the order on (physical, logical). */
  lemma ComposeOrder(s: TimeStamp, t: TimeStamp)
    requires s.physical < PHYSICAL_RANGE && s.logical <= MAX_LOGICAL
    requires t.physical < PHYSICAL_RANGE && t.logical <= MAX_LOGICAL
    ensures s.Compose() < t.Compose()
       <==> s.physical < t.physical || (s.physical == t.physical && s.logical < t.logical)
  {
    ComposeValue(s);
    ComposeValue(t);
  }

  /** The first logical value past the limit: its bit is or-ed onto the lowest physical bit. */
  lemma ComposeAtOverflow(t: TimeStamp)
    requires t.physical < PHYSICAL_RANGE && t.logical == MAX_LOGICAL + 1
    ensures t.Compose() == (if t.physical % 2 == 0 then t.physical + 1 else t.physical) * LOGICAL_RANGE
  {
    RangeIsPow2();
    OrOfShifted(t.physical, 1, LOGICAL_BITS);
    OrOne(t.physical);
  }

  /** Exactly one increment moves the packed form backwards: leaving MAX_LOGICAL in an odd millisecond. */
  lemma IncrMovesForward(t: TimeStamp)
    requires t.physical < PHYSICAL_RANGE && t.logical <= MAX_LOGICAL
    ensures t.Incr().Compose() > t.Compose() <==> !(t.logical == MAX_LOGICAL && t.physical % 2 == 1)
  {
    ComposeValue(t);
    if t.logical < MAX_LOGICAL {
      ComposeValue(t.Incr());
    } else {
      ComposeAtOverflow(t.Incr());
    }
  }
}
