/** How the program takes numbers out of bytes, and that it is always their network order. */
module ByteOrder {
  import opened Bytes

  /** A byte as the bits it is made of. */
  function Bits(b: byte): (x: bv8)
    ensures x as nat == b as nat
  {
    if b == 0 then 0 else Bits(b - 1) + 1
  }

  /** The same numbers as the program assembles them: promoted bytes, shifted and or-ed together. */
  function Shifted16(d: seq<byte>, i: nat): nat
    requires i + 2 <= |d|
  {
    Joined(0, 0, Bits(d[i]), Bits(d[i + 1])) as nat
  }

  function Shifted32(d: seq<byte>, i: nat): nat
    requires i + 4 <= |d|
  {
    Joined(Bits(d[i]), Bits(d[i + 1]), Bits(d[i + 2]), Bits(d[i + 3])) as nat
  }

  function Joined(a: bv8, b: bv8, c: bv8, e: bv8): bv32 {
    (a as bv32 << 24) | (b as bv32 << 16) | (c as bv32 << 8) | e as bv32
  }

  /** The byte order of the host: the results hold for either. */
  const LITTLE_ENDIAN: bool

  /** The 32-bit word at d[i..], as the host loads it. */
  function Loaded32(d: seq<byte>, i: nat): bv32
    requires i + 4 <= |d|
  {
    Word(Bits(d[i]), Bits(d[i + 1]), Bits(d[i + 2]), Bits(d[i + 3]))
  }

  function Word(b0: bv8, b1: bv8, b2: bv8, b3: bv8): bv32 {
    if LITTLE_ENDIAN
    then b0 as bv32 | (b1 as bv32 << 8) | (b2 as bv32 << 16) | (b3 as bv32 << 24)
    else b3 as bv32 | (b2 as bv32 << 8) | (b1 as bv32 << 16) | (b0 as bv32 << 24)
  }

  /** The library's conversion from network order: it swaps the bytes on a little-endian host. */
  function Ntohl(x: bv32): bv32 {
    if LITTLE_ENDIAN
    then (x << 24) | ((x & 0xFF00) << 8) | ((x >> 8) & 0xFF00) | (x >> 24)
    else x
  }

  lemma {:induction false} OrIsSum(a: bv8, b: bv8, c: bv8, e: bv8)
    ensures ((a as bv32 << 24) | (b as bv32 << 16) | (c as bv32 << 8) | e as bv32) as nat
      == ((a as nat * 0x100 + b as nat) * 0x100 + c as nat) * 0x100 + e as nat
  {
  }

  lemma {:induction false} JoinedIsSum(a: bv8, b: bv8, c: bv8, e: bv8)
    ensures Joined(a, b, c, e) as nat == ((a as nat * 0x100 + b as nat) * 0x100 + c as nat) * 0x100 + e as nat
  {
    var x := Joined(a, b, c, e);
    JoinedIs(a, b, c, e, x);
    hide Joined;
    OrIsSum(a, b, c, e);
  }

  lemma {:induction false} JoinedIs(a: bv8, b: bv8, c: bv8, e: bv8, x: bv32)
    requires x == Joined(a, b, c, e)
    ensures x == (a as bv32 << 24) | (b as bv32 << 16) | (c as bv32 << 8) | e as bv32
  {
  }

  lemma {:induction false} NtohlUndoesLoad(a: bv8, b: bv8, c: bv8, e: bv8)
    ensures Ntohl(Word(a, b, c, e)) == Joined(a, b, c, e)
  {
  }

  /** Shifting and or-ing, and loading and converting, both give the number the bytes stand for. */
  lemma {:induction false} Shifted16Is(d: seq<byte>, i: nat)
    requires i + 2 <= |d|
    ensures Shifted16(d, i) == BE16(d, i)
  {
    hide Joined;
    JoinedIsSum(0, 0, Bits(d[i]), Bits(d[i + 1]));
  }

  lemma {:induction false} Shifted32Is(d: seq<byte>, i: nat)
    requires i + 4 <= |d|
    ensures Shifted32(d, i) == BE32(d, i) == Ntohl(Loaded32(d, i)) as nat
  {
    hide Joined, Ntohl, Word;
    JoinedIsSum(Bits(d[i]), Bits(d[i + 1]), Bits(d[i + 2]), Bits(d[i + 3]));
    NtohlUndoesLoad(Bits(d[i]), Bits(d[i + 1]), Bits(d[i + 2]), Bits(d[i + 3]));
  }

  /** The halves of a byte, masked and shifted out. */
  function LowNibble(b: byte): nat { (Bits(b) & 0x0F) as nat }

  function HighNibble(b: byte): nat { (Bits(b) >> 4) as nat }

  lemma {:induction false} NibblesOfBits(x: bv8)
    ensures x as nat == (x >> 4) as nat * 16 + (x & 0x0F) as nat && x & 0x0F < 16
  {
  }

  lemma {:induction false} NibblesAre(b: byte)
    ensures LowNibble(b) == b as nat % 16 && HighNibble(b) == b as nat / 16
  {
    NibblesOfBits(Bits(b));
  }
}
