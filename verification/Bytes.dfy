/** Bytes as the assemblers write them and the linkers read them. */
module Bytes {
  import opened Wrappers

  type byte = x: int | 0 <= x < 256

  /** A C string: bytes without the terminating NUL. */
  type Name = s: seq<byte> | 0 !in s

  /** `Bputc(&obuf, x)` keeps the low eight bits of a two's complement integer. */
  function Low(x: int): byte {
    x % 256
  }

  /** `long` truncated to 32 bits and read back as a signed integer. */
  function Wrap32(x: int): (r: int)
    ensures -0x8000_0000 <= r < 0x8000_0000
    ensures (r - x) % 0x1_0000_0000 == 0
    ensures -0x8000_0000 <= x < 0x8000_0000 ==> r == x
  {
    var m := x % 0x1_0000_0000;
    if m < 0x8000_0000 then m else m - 0x1_0000_0000
  }

  /** `Bputc(l); Bputc(l>>8); Bputc(l>>16); Bputc(l>>24)` with arithmetic shifts. */
  function EncodeWord(l: int): (r: seq<byte>)
    ensures |r| == 4
  {
    [Low(l), Low(l / 0x100), Low(l / 0x1_0000), Low(l / 0x100_0000)]
  }

  /** `p[0] | p[1]<<8 | p[2]<<16 | p[3]<<24` in a 32-bit int. */
  function DecodeWord(p: seq<byte>): int
    requires |p| >= 4
  {
    var b0: int, b1: int, b2: int, b3: int := p[0], p[1], p[2], p[3];
    Wrap32(b0 + 0x100 * b1 + 0x1_0000 * b2 + 0x100_0000 * b3)
  }

  /** The four bytes of a word determine it modulo 2^32, whatever its sign. */
  lemma {:induction false} WordRoundTrip(l: int)
    ensures DecodeWord(EncodeWord(l)) == Wrap32(l)
  {
    var q1, q2, q3 := l / 0x100, l / 0x1_0000, l / 0x100_0000;
    assert q2 == q1 / 0x100;
    assert q3 == q2 / 0x100;
    var v := Low(l) + 0x100 * Low(q1) + 0x1_0000 * Low(q2) + 0x100_0000 * Low(q3);
    assert Low(l) == l - 0x100 * q1;
    assert Low(q1) == q1 - 0x100 * q2;
    assert Low(q2) == q2 - 0x100 * q3;
    var q4 := q3 / 0x100;
    assert Low(q3) == q3 - 0x100 * q4;
    assert v == l - 0x1_0000_0000 * q4;
    assert v % 0x1_0000_0000 == l % 0x1_0000_0000;
  }

  /** Position of the first NUL at or after `from`, as `memchr` finds it. */
  function FindNul(bs: seq<byte>, from: nat): (r: Option<nat>)
    requires from <= |bs|
    ensures r.Some? ==> from <= r.value < |bs| && bs[r.value] == 0 && 0 !in bs[from..r.value]
    ensures r.None? ==> 0 !in bs[from..]
    decreases |bs| - from
  {
    if from == |bs| then None
    else if bs[from] == 0 then Some(from)
    else FindNul(bs, from + 1)
  }

  lemma {:induction false} FindNulAt(bs: seq<byte>, from: nat, k: nat)
    requires from <= k < |bs| && bs[k] == 0 && forall i :: from <= i < k ==> bs[i] != 0
    ensures FindNul(bs, from) == Some(k)
    decreases k - from
  {
    if from < k {
      FindNulAt(bs, from + 1, k);
    }
  }

  lemma ConsInjective<T>(a: T, x: seq<T>, b: T, y: seq<T>)
    ensures [a] + x == [b] + y <==> a == b && x == y
  {
    if [a] + x == [b] + y {
      assert a == ([a] + x)[0] == ([b] + y)[0] == b;
      assert x == ([a] + x)[1..] == ([b] + y)[1..] == y;
    }
  }

  /** Four parts and what follows them, cut at every boundary. */
  lemma CutFour(a: seq<byte>, w: seq<byte>, f: seq<byte>, t: seq<byte>, rest: seq<byte>)
    ensures var p := a + w + f + t + rest;
            var (i, j, k) := (|a|, |a| + |w|, |a| + |w| + |f|);
            p[..i] == a && p[i..j] == w && p[j..] == f + (t + rest) && p[k..] == t + rest
  {
    var p := a + w + f + t + rest;
    assert p == a + (w + (f + (t + rest)));
    assert p == (a + w) + (f + (t + rest));
    assert p == (a + w + f) + (t + rest);
  }

  lemma Assoc(a: seq<byte>, b: seq<byte>, c: seq<byte>)
    ensures a + (b + c) == a + b + c
  {
  }
}
