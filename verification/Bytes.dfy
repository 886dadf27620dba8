/** Bytes, fixed-width integers in either byte order, and where a byte string
    stands inside a larger one. */
module Bytes {

  type Byte = b: int | 0 <= b < 256

  const U32_LIMIT := 0x1_0000_0000

  function Reverse<T>(s: seq<T>): (r: seq<T>)
    ensures |r| == |s|
  {
    if s == [] then [] else Reverse(s[1..]) + [s[0]]
  }

  lemma {:induction false} ReverseAt<T>(s: seq<T>, i: nat)
    requires i < |s|
    ensures Reverse(s)[i] == s[|s| - 1 - i]
  {
    if i < |s| - 1 { ReverseAt(s[1..], i); }
  }

  lemma ReverseTwice<T>(s: seq<T>)
    ensures Reverse(Reverse(s)) == s
  {
    forall i | 0 <= i < |s| ensures Reverse(Reverse(s))[i] == s[i] {
      ReverseAt(Reverse(s), i);
      ReverseAt(s, |s| - 1 - i);
    }
  }

  /** Four bytes as an unsigned integer. */
  function U32(b: seq<Byte>, le: bool): (n: nat)
    requires |b| == 4
    ensures n < U32_LIMIT
  {
    var b0: int, b1: int, b2: int, b3: int := b[0], b[1], b[2], b[3];
    if le then b0 + 256 * b1 + 65536 * b2 + 16777216 * b3
    else b3 + 256 * b2 + 65536 * b1 + 16777216 * b0
  }

  function PutU32(n: nat, le: bool): (b: seq<Byte>)
    requires n < U32_LIMIT
    ensures |b| == 4
  {
    var b0, b1, b2, b3 := n % 256, (n / 256) % 256, (n / 65536) % 256, n / 16777216;
    if le then [b0, b1, b2, b3] else [b3, b2, b1, b0]
  }

  lemma U32RoundTrip(n: nat, le: bool)
    requires n < U32_LIMIT
    ensures U32(PutU32(n, le), le) == n
  {
    assert n / 65536 == n / 256 / 256;
    assert n / 16777216 == n / 256 / 256 / 256;
  }

  lemma U32Inverse(b: seq<Byte>, le: bool)
    requires |b| == 4
    ensures PutU32(U32(b, le), le) == b
  {
    var b0: int, b1: int, b2: int, b3: int := b[0], b[1], b[2], b[3];
    if le { Digits256(b0, b1, b2, b3); } else { Digits256(b3, b2, b1, b0); }
  }

  lemma Digits256(b0: Byte, b1: Byte, b2: Byte, b3: Byte)
    ensures var n := b0 + 256 * b1 + 65536 * b2 + 16777216 * b3;
            n % 256 == b0 && (n / 256) % 256 == b1 && (n / 65536) % 256 == b2 && n / 16777216 == b3
  {
    var n := b0 + 256 * b1 + 65536 * b2 + 16777216 * b3;
    assert n / 256 == b1 + 256 * b2 + 65536 * b3;
    assert n / 65536 == b2 + 256 * b3;
    assert n / 16777216 == b3;
  }

  /** `part` stands at offset `off` of `whole`. */
  ghost predicate Holds(whole: seq<Byte>, off: nat, part: seq<Byte>) {
    off + |part| <= |whole| && whole[off..off + |part|] == part
  }

  lemma HoldsSplit(whole: seq<Byte>, off: nat, a: seq<Byte>, b: seq<Byte>)
    requires Holds(whole, off, a + b)
    ensures Holds(whole, off, a) && Holds(whole, off + |a|, b)
  {
    assert whole[off..off + |a|] == (a + b)[..|a|];
    assert whole[off + |a|..off + |a| + |b|] == (a + b)[|a|..];
  }

  lemma HoldsJoin(whole: seq<Byte>, off: nat, a: seq<Byte>, b: seq<Byte>)
    requires Holds(whole, off, a) && Holds(whole, off + |a|, b)
    ensures Holds(whole, off, a + b)
  {
    assert whole[off..off + |a| + |b|] == whole[off..off + |a|] + whole[off + |a|..off + |a| + |b|];
  }
}
