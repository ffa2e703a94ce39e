/** Numbers stored as a low and a high half (util.cpp). */
module Util {
  const U16: nat := 0x1_0000
  const U32: nat := 0x1_0000_0000

  /** The halves of a number, as set_lo_hi stores it: what does not fit is cut off. */
  datatype Halves = Halves(lo: nat, hi: nat)

  /** Two 16-bit halves of a 32-bit number. */
  function SetLoHi16(value: nat): Halves {
    Halves(value % U16, value / U16 % U16)
  }

  function FromLoHi16(h: Halves): nat {
    h.hi * U16 + h.lo
  }

  /** A 32-bit and a 16-bit half; from_lo_hi widens the high half. */
  function SetLoHi48(value: nat): Halves {
    Halves(value % U32, value / U32 % U16)
  }

  /** Two 32-bit halves of a 64-bit number. */
  function SetLoHi32(value: nat): Halves {
    Halves(value % U32, value / U32 % U32)
  }

  function FromLoHi32(h: Halves): nat {
    h.hi * U32 + h.lo
  }

  /** decr_lo_hi: 32-bit subtraction wraps around. */
  function DecrLoHi16(h: Halves, diff: nat): Halves {
    SetLoHi16((FromLoHi16(h) + U32 - diff % U32) % U32)
  }

  /** incr_lo_hi: 32-bit addition wraps around. */
  function IncrLoHi16(h: Halves, diff: nat): Halves {
    SetLoHi16((FromLoHi16(h) + diff) % U32)
  }

  /** incr_lo_hi on 64 bits. */
  function IncrLoHi32(h: Halves, diff: nat): Halves {
    SetLoHi32((FromLoHi32(h) + diff) % (U32 * U32))
  }

  function IncrLoHi48(h: Halves, diff: nat): Halves {
    SetLoHi48((FromLoHi32(h) + diff) % (U32 * U32))
  }

  /** Two 16-bit halves show this number. */
  predicate Stores16(h: Halves, n: nat) { h.lo < U16 && FromLoHi16(h) == n }

  /** Where the 16-bit from_lo_hi is not declared, the 32-bit one reads two 16-bit halves: the high
      half then counts 2 to the 32, and a 32-bit variable keeps the low half only. */
  lemma ReadAsWide(h: Halves, n: nat)
    requires Stores16(h, n)
    ensures FromLoHi32(h) % U32 == n % U16
    ensures FromLoHi32(h) == n <==> n < U16
  {
  }

  /** A number is read back exactly when it fits. */
  lemma LoHi16RoundTrip(value: nat)
    ensures FromLoHi16(SetLoHi16(value)) == value <==> value < U16 * U16
    ensures SetLoHi16(value).lo < U16
  {
  }

  /** What is counted down stays exact as long as the counter does not fall below 0. */
  lemma Decremented(h: Halves, diff: nat)
    requires diff <= FromLoHi16(h) < U32
    ensures Stores16(DecrLoHi16(h, diff), FromLoHi16(h) - diff)
  {
    hide FromLoHi16, SetLoHi16;
    LoHi16RoundTrip(FromLoHi16(h) - diff);
  }

  lemma Incremented16(h: Halves, diff: nat)
    requires FromLoHi16(h) + diff < U32
    ensures Stores16(IncrLoHi16(h, diff), FromLoHi16(h) + diff)
  {
    hide FromLoHi16, SetLoHi16;
    LoHi16RoundTrip(FromLoHi16(h) + diff);
  }

  lemma Incremented(h: Halves, diff: nat)
    requires FromLoHi32(h) + diff < U32 * U32
    ensures FromLoHi32(IncrLoHi32(h, diff)) == FromLoHi32(h) + diff
  {
    hide FromLoHi32, SetLoHi32;
    LoHi32RoundTrip(FromLoHi32(h) + diff);
  }

  lemma LoHi48RoundTrip(value: nat)
    ensures FromLoHi32(SetLoHi48(value)) == value <==> value < U32 * U16
  {
  }

  lemma Incremented48(h: Halves, diff: nat)
    requires FromLoHi32(h) + diff < U32 * U16
    ensures FromLoHi32(IncrLoHi48(h, diff)) == FromLoHi32(h) + diff
  {
    hide FromLoHi32, SetLoHi48;
    LoHi48RoundTrip(FromLoHi32(h) + diff);
  }

  lemma LoHi32RoundTrip(value: nat)
    ensures FromLoHi32(SetLoHi32(value)) == value <==> value < U32 * U32
  {
  }
}
