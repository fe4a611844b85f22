/**
  Bit strings, most significant bit first, and the shift/mask arithmetic that the
  media layer applies to unsigned integers.  `Shr`, `Shl` and `Low` are C's `v >> k`,
  `v << k` and `v & ((1 << k) - 1)` on naturals.
 */
module Bits {

  type Byte = x: int | 0 <= x < 256

  type Bytes = seq<Byte>

  function Pow2(n: nat): (p: nat)
    ensures p >= 1
  {
    if n == 0 then 1 else 2 * Pow2(n - 1)
  }

  lemma {:induction false} Pow2Monotone(m: nat, n: nat)
    requires m <= n
    ensures Pow2(m) <= Pow2(n)
    decreases n
  {
    if m < n {
      Pow2Monotone(m, n - 1);
    }
  }

  lemma Pow2Values()
    ensures Pow2(1) == 2 && Pow2(2) == 4 && Pow2(4) == 16 && Pow2(5) == 32 && Pow2(6) == 64
    ensures Pow2(8) == 256 && Pow2(12) == 4096 && Pow2(16) == 65536
  {
    assert Pow2(4) == 16;
    assert Pow2(8) == 256;
    assert Pow2(12) == 4096;
  }

  /** Concatenation is associative; stated once so that longer proofs need not rediscover it. */
  lemma Assoc(a: seq<bool>, b: seq<bool>, c: seq<bool>)
    ensures (a + b) + c == a + (b + c)
  {
  }

  function Shr(v: nat, k: nat): nat
    decreases k, v
  {
    if k == 0 then v else Shr(v / 2, k - 1)
  }

  function Shl(v: nat, k: nat): nat
    decreases k, v
  {
    if k == 0 then v else 2 * Shl(v, k - 1)
  }

  function Low(v: nat, k: nat): nat
    decreases k, v
  {
    if k == 0 then 0 else 2 * Low(v / 2, k - 1) + v % 2
  }

  /** The `n` low bits of `v`, most significant first. */
  function ToBits(v: nat, n: nat): (b: seq<bool>)
    ensures |b| == n
    decreases n, v
  {
    if n == 0 then [] else ToBits(v / 2, n - 1) + [v % 2 == 1]
  }

  function Value(b: seq<bool>): (v: nat)
    ensures v < Pow2(|b|)
  {
    if b == [] then 0
    else 2 * Value(b[..|b| - 1]) + (if b[|b| - 1] then 1 else 0)
  }

  lemma {:induction false} ValueOfBits(v: nat, n: nat)
    requires v < Pow2(n)
    ensures Value(ToBits(v, n)) == v
    decreases n
  {
    if n > 0 {
      ValueOfBits(v / 2, n - 1);
      assert ToBits(v, n)[..n - 1] == ToBits(v / 2, n - 1);
    }
  }

  lemma {:induction false} SplitBits(v: nat, m: nat, n: nat)
    ensures ToBits(v, m + n) == ToBits(Shr(v, n), m) + ToBits(v, n)
    decreases n
  {
    if n > 0 {
      SplitBits(v / 2, m, n - 1);
      assert ToBits(v, m + n) == ToBits(v / 2, m + n - 1) + [v % 2 == 1];
      assert ToBits(v, n) == ToBits(v / 2, n - 1) + [v % 2 == 1] && Shr(v, n) == Shr(v / 2, n - 1);
      hide ToBits, Shr;
    }
  }

  lemma {:induction false} JoinBits(a: nat, b: nat, m: nat, n: nat)
    requires b < Pow2(n)
    ensures ToBits(Shl(a, n) + b, m + n) == ToBits(a, m) + ToBits(b, n)
    decreases n
  {
    if n > 0 {
      assert (Shl(a, n) + b) / 2 == Shl(a, n - 1) + b / 2;
      JoinBits(a, b / 2, m, n - 1);
    }
  }

  lemma {:induction false} JoinBound(a: nat, b: nat, m: nat, n: nat)
    requires a < Pow2(m) && b < Pow2(n)
    ensures Shl(a, n) + b < Pow2(m + n)
    decreases n
  {
    if n > 0 {
      JoinBound(a, b / 2, m, n - 1);
    }
  }

  lemma {:induction false} ShrBound(v: nat, m: nat, n: nat)
    requires v < Pow2(m + n)
    ensures Shr(v, n) < Pow2(m)
    decreases n
  {
    if n > 0 {
      ShrBound(v / 2, m, n - 1);
    }
  }

  lemma {:induction false} ShrShr(v: nat, j: nat, k: nat)
    ensures Shr(Shr(v, j), k) == Shr(v, j + k)
    decreases j
  {
    if j > 0 {
      ShrShr(v / 2, j - 1, k);
    }
  }

  lemma {:induction false} LowBits(v: nat, k: nat, n: nat)
    requires n <= k
    ensures Low(v, k) < Pow2(k)
    ensures ToBits(Low(v, k), n) == ToBits(v, n)
    decreases k
  {
    if k > 0 {
      LowBits(v / 2, k - 1, if n == 0 then 0 else n - 1);
    }
  }

  lemma {:induction false} LowIdentity(v: nat, k: nat)
    requires v < Pow2(k)
    ensures Low(v, k) == v
    decreases k
  {
    if k > 0 {
      LowIdentity(v / 2, k - 1);
    }
  }

  /** The bits of a byte buffer, in the order in which they are transmitted. */
  function AllBits(s: seq<Byte>): (b: seq<bool>)
    ensures |b| == 8 * |s|
  {
    if s == [] then [] else ToBits(s[0], 8) + AllBits(s[1..])
  }

  lemma {:induction false} AllBitsConcat(s: seq<Byte>, t: seq<Byte>)
    ensures AllBits(s + t) == AllBits(s) + AllBits(t)
  {
    if s == [] {
      assert s + t == t;
    } else {
      AllBitsConcat(s[1..], t);
      assert (s + t)[1..] == s[1..] + t;
    }
  }

  lemma AllBitsAt(s: seq<Byte>, i: nat)
    requires i < |s|
    ensures AllBits(s) == AllBits(s[..i]) + ToBits(s[i], 8) + AllBits(s[i + 1..])
  {
    var tail := s[i..];
    AllBitsConcat(s[..i], tail);
    assert s == s[..i] + tail;
    assert tail[1..] == s[i + 1..];
  }

  lemma AllBitsUpdate(s: seq<Byte>, i: nat, x: Byte)
    requires i < |s|
    ensures AllBits(s)[8 * i..8 * i + 8] == ToBits(s[i], 8)
    ensures AllBits(s[i := x]) == AllBits(s)[..8 * i] + ToBits(x, 8) + AllBits(s)[8 * i + 8..]
  {
    hide AllBits, ToBits;
    AllBitsAt(s, i);
    AllBitsAt(s[i := x], i);
    assert s[i := x][..i] == s[..i] && s[i := x][i + 1..] == s[i + 1..];
    var a, b, c := AllBits(s[..i]), ToBits(s[i], 8), AllBits(s[i + 1..]);
    assert (a + b + c)[8 * i..8 * i + 8] == b && (a + b + c)[..8 * i] == a && (a + b + c)[8 * i + 8..] == c;
  }

  function Zeros(n: nat): (b: seq<bool>)
    ensures |b| == n
  {
    seq(n, _ => false)
  }

  lemma {:induction false} ZeroBits(n: nat)
    ensures ToBits(0, n) == Zeros(n)
  {
    if n > 0 {
      ZeroBits(n - 1);
    }
  }
}
