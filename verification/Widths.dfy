/** The ranges of the program's unsigned integers, and sizes it fixes that no result depends on. */
module Widths {
  type Positive = n: nat | 0 < n witness 1

  const U16: nat := 0x1_0000
  const U32: nat := 0x1_0000_0000
  const U64: nat := 0x1_0000_0000_0000_0000

  lemma {:induction false} Wrap32(x: nat)
    ensures x < U32 ==> x % U32 == x
    ensures U32 <= x < 2 * U32 ==> x % U32 == x - U32
  {
  }

  /** A counter that wraps around as it goes ends where one does that wraps at the end. */
  lemma {:induction false} CountOn16(x: nat, more: nat)
    ensures (x % U16 + more) % U16 == (x + more) % U16
  {
  }

  lemma {:induction false} CountOn32(x: nat, more: nat)
    ensures (x % U32 + more) % U32 == (x + more) % U32
  {
  }

  lemma {:induction false} CountOn64(x: nat, more: nat)
    ensures (x % U64 + more) % U64 == (x + more) % U64
  {
  }
}
