/** The bytes all the program's buffers are made of. */
module Bytes {
  newtype byte = x: int | 0 <= x < 0x100

  method Memcpy(dst: array<byte>, at: nat, src: seq<byte>)
    requires at + |src| <= dst.Length
    modifies dst
    ensures forall i :: 0 <= i < dst.Length ==>
      dst[i] == if at <= i < at + |src| then src[i - at] else old(dst[i])
  {
    for i := 0 to |src|
      invariant forall j :: 0 <= j < dst.Length ==>
        dst[j] == if at <= j < at + i then src[j - at] else old(dst[j])
    {
      dst[at + i] := src[i];
    }
  }

  /** Memcpy to the end of what a buffer holds so far. */
  method Append(dst: array<byte>, at: nat, src: seq<byte>)
    requires at + |src| <= dst.Length
    modifies dst
    ensures dst[..at + |src|] == old(dst[..at]) + src
    ensures dst[at + |src|..] == old(dst[at + |src|..])
  {
    Memcpy(dst, at, src);
  }

  /** The numbers that 2 or 4 bytes in network order stand for. */
  function BE16(d: seq<byte>, i: nat): (n: nat)
    requires i + 2 <= |d|
    ensures n < 0x1_0000
  {
    d[i] as nat * 0x100 + d[i + 1] as nat
  }

  function BE32(d: seq<byte>, i: nat): (n: nat)
    requires i + 4 <= |d|
    ensures n < 0x1_0000_0000
  {
    BE16(d, i) * 0x1_0000 + BE16(d, i + 2)
  }

  /** The bytes of a number in network order. */
  function Put16(n: nat): (s: seq<byte>)
    requires n < 0x1_0000
    ensures |s| == 2
  {
    [(n / 0x100) as byte, (n % 0x100) as byte]
  }

  function Put32(n: nat): (s: seq<byte>)
    requires n < 0x1_0000_0000
    ensures |s| == 4
  {
    Put16(n / 0x1_0000) + Put16(n % 0x1_0000)
  }

  /** Numbers are where their bytes are. */
  lemma {:induction false} GetInside(d: seq<byte>, s: seq<byte>, at: nat, i: nat)
    requires at + |s| <= |d| && d[at..at + |s|] == s
    ensures i < |s| ==> d[at + i] == s[i]
    ensures i + 2 <= |s| ==> BE16(d, at + i) == BE16(s, i)
    ensures i + 4 <= |s| ==> BE32(d, at + i) == BE32(s, i)
  {
  }
}
