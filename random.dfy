/** The permuted congruential generator of src/random.rs: a 64-bit linear
    congruential state advance followed by an xorshift-and-rotate output
    function computed from the state before the advance. All arithmetic is
    wrapping `u64`, which `bv64` models exactly. */
module Random {

  const MULTIPLIER: bv64 := 6364136223846793005

  /** The state after one step: `state * MULTIPLIER + (inc | 1)`, modulo 2^64. */
  function Advance(state: bv64, inc: bv64): bv64
  {
    state * MULTIPLIER + (inc | 1)
  }

  /** `((oldstate >> 18) ^ oldstate) >> 27` */
  function XorShifted(oldState: bv64): bv64
  {
    ((oldState >> 18) ^ oldState) >> 27
  }

  /** `oldstate >> 59`: the top five bits of the old state, so a right
      shift that never reaches the width of the word. */
  function Rotation(oldState: bv64): (rot: bv64)
    ensures rot < 32
  {
    oldState >> 59
  }

  /** The left-shift amount `(-(rot as i128)) & 31`, computed in 128 bits as
      the source does and narrowed back afterwards; it too stays below 32. */
  function LeftShift(rot: bv64): (amount: bv64)
    ensures amount < 32
  {
    ((0 as bv128 - rot as bv128) & 31) as bv64
  }

  /** The value `next` returns: `(x >> rot) | (x << ((-rot) & 31))`, over the
      full 64 bits of `x`, without the narrowing to 32 bits of reference PCG32. */
  function Output(oldState: bv64): bv64
  {
    Rotate(XorShifted(oldState), Rotation(oldState))
  }

  /** `(x >> rot) | (x << ((-rot) & 31))` */
  function Rotate(x: bv64, rot: bv64): bv64
    requires rot < 32
  {
    (x >> rot) | (x << LeftShift(rot))
  }

  lemma RotateByZero(x: bv64)
    ensures Rotate(x, 0) == x
  {
    assert LeftShift(0) == 0;
  }

  /** The increment actually added is always odd. */
  lemma IncrementIsOdd(inc: bv64)
    ensures (inc | 1) & 1 == 1
  {
  }

  /** The xorshifted value has at most 37 significant bits. */
  lemma XorShiftedBelow(oldState: bv64)
    ensures XorShifted(oldState) < 1 << 37
  {
  }

  /** With no rotation the output is the xorshifted value itself. */
  lemma NoRotationIsIdentity(oldState: bv64)
    requires Rotation(oldState) == 0
    ensures Output(oldState) == XorShifted(oldState)
  {
    RotateByZero(XorShifted(oldState));
  }

  /** For a non-zero rotation the two shift amounts add up to 32. */
  lemma ShiftAmountsComplement(rot: bv64)
    requires 0 < rot < 32
    ensures rot + LeftShift(rot) == 32
  {
  }

  /** Unlike reference PCG32 the output is not confined to 32 bits: bits of
      the 37-bit xorshifted value survive above bit 31. */
  lemma OutputExceeds32Bits()
    ensures Output(0x0800_0000_0000_0000) >= 1 << 32
  {
  }

  /** The generator's two words, updated in place by `next`. */
  class Pcgr {
    var state: bv64
    var inc: bv64

    constructor (state: bv64, inc: bv64)
      ensures this.state == state && this.inc == inc
    {
      this.state := state;
      this.inc := inc;
    }

    /** `PCGR::next`: advances `state`, leaves `inc` alone, and returns the
        output of the state it started from. */
    method Next() returns (r: bv64)
      modifies this
      ensures state == Advance(old(state), old(inc))
      ensures inc == old(inc)
      ensures r == Output(old(state))
    {
      var oldState := state;
      state := Advance(oldState, inc);
      r := Output(oldState);
    }
  }
}
