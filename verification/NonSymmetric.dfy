/**
  The non-symmetric unsigned code ns(n) of Appendix A.8.2 of the AV1 RTP specification:
  the writer's side (src/dependencydescriptor.cpp) and the reader that inverts it.
 */
module NonSymmetric {
  import opened Bits
  import opened BitWriting

  /** The outcome of reading a bit string: a value and what is left, or a truncated input. */
  datatype Parsed<+T> = Truncated | Parsed(value: T, rest: seq<bool>) {
    predicate IsFailure() { Truncated? }

    function PropagateFailure<U>(): Parsed<U>
      requires Truncated?
    {
      Truncated
    }

    function Extract(): (T, seq<bool>)
      requires Parsed?
    {
      (value, rest)
    }
  }

  /** The fixed-width field f(n). */
  function ReadField(n: nat, b: seq<bool>): (r: Parsed<nat>)
    ensures r.Parsed? ==> |r.rest| == |b| - n && r.value < Pow2(n)
  {
    if |b| < n then Truncated else Parsed(Value(b[..n]), b[n..])
  }

  lemma ReadFieldInverts(v: nat, n: nat, rest: seq<bool>)
    requires v < Pow2(n)
    ensures ReadField(n, ToBits(v, n) + rest) == Parsed(v, rest)
  {
    ValueOfBits(v, n);
    assert (ToBits(v, n) + rest)[..n] == ToBits(v, n);
    assert (ToBits(v, n) + rest)[n..] == rest;
  }

  function BitLength(n: nat): nat {
    if n == 0 then 0 else 1 + BitLength(n / 2)
  }

  lemma {:induction false} BitLengthBounds(n: nat)
    requires n > 0
    ensures BitLength(n) > 0
    ensures Pow2(BitLength(n) - 1) <= n < Pow2(BitLength(n))
  {
    if n > 1 {
      BitLengthBounds(n / 2);
    }
  }

  /** The bits of `v` in a code of `n` values: the short code below `2^w - n`, else the long one. */
  function NsBits(v: nat, n: nat): seq<bool>
    requires v < n
  {
    BitLengthBounds(n);
    var w := BitLength(n);
    var m := Pow2(w) - n;
    if v < m then ToBits(v, w - 1) else ToBits(v + m, w)
  }

  /** ns(n) as the specification reads it. */
  function ReadNs(n: nat, b: seq<bool>): (r: Parsed<nat>)
    requires n > 0
    ensures r.Parsed? ==> |r.rest| <= |b|
  {
    BitLengthBounds(n);
    var w := BitLength(n);
    var m := Pow2(w) - n;
    var (v, b1) :- ReadField(w - 1, b);
    if v < m then Parsed(v, b1)
    else
      var (extra, b2) :- ReadField(1, b1);
      Parsed(2 * v - m + extra, b2)
  }

  lemma ReadNsInverts(v: nat, n: nat, rest: seq<bool>)
    requires v < n
    ensures ReadNs(n, NsBits(v, n) + rest) == Parsed(v, rest)
  {
    BitLengthBounds(n);
    var w := BitLength(n);
    var m := Pow2(w) - n;
    assert Pow2(w) == 2 * Pow2(w - 1);
    if v < m {
      ReadFieldInverts(v, w - 1, rest);
    } else {
      var code := v + m;
      var last := ToBits(code, 1);
      assert NsBits(v, n) + rest == ToBits(code / 2, w - 1) + (last + rest);
      ReadFieldInverts(code / 2, w - 1, last + rest);
      assert last == ToBits(code % 2, 1);
      assert Pow2(1) == 2;
      ReadFieldInverts(code % 2, 1, rest);
    }
  }

  /** The loop by which `writeNonSymmetric` counts the bits of `n`. */
  method BitWidth(n: nat) returns (width: nat)
    ensures width == BitLength(n)
  {
    width := 0;
    var x := n;
    while x != 0
      invariant BitLength(n) == width + BitLength(x)
    {
      x := x / 2;
      width := width + 1;
    }
  }

  /** `writeNonSymmetric`: nothing is written when only one value is possible. */
  method WriteNonSymmetric(w: BitWriter, v: nat, n: nat) returns (ok: bool)
    requires w.Valid() && v < n
    modifies w, w.buf
    ensures w.Valid()
    ensures ok <==> old(w.offset) + |NsBits(v, n)| <= w.size
    ensures ok ==> w.Log == old(w.Log) + NsBits(v, n)
  {
    BitLengthBounds(n);
    if n == 1 {
      assert Pow2(1) == 2 && BitLength(1) == 1;
      return true;
    }
    var width := BitWidth(n);
    assert Pow2(width) == 2 * Pow2(width - 1);
    var m := Shl(1, width) - n;
    ShlIsPow2(width);
    if v < m {
      ok := w.Write(v, width - 1);
    } else {
      ok := w.Write(v + m, width);
    }
  }

  lemma {:induction false} ShlIsPow2(k: nat)
    ensures Shl(1, k) == Pow2(k)
  {
    if k > 0 {
      ShlIsPow2(k - 1);
    }
  }
}
