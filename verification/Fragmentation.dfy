/**
  Cutting NAL units to a maximum payload size (src/nalunit.cpp, src/h265nalunit.cpp).
 */
module Fragmentation {
  import opened Bits
  import opened NalAssembly
  import opened NalCodec

  function CeilDiv(a: nat, b: nat): nat
    requires b > 0
  {
    (a + b - 1) / b
  }

  /** The evened-out fragment size, before the fragment header is taken off; a 16-bit value. */
  function EvenSize(size: nat, max: nat): nat
    requires size > max > 0
  {
    CeilDivPositive(size, max);
    CeilDiv(size, CeilDiv(size, max)) % 65536
  }

  lemma CeilDivBounds(a: nat, b: nat)
    requires b > 0
    ensures a <= CeilDiv(a, b) * b < a + b
  {
    var q, r := (a + b - 1) / b, (a + b - 1) % b;
    assert a + b - 1 == q * b + r;
  }

  lemma MulLe(a: nat, b: nat, c: nat)
    requires a <= b
    ensures a * c <= b * c
  {
  }

  lemma FactorLt(a: nat, b: nat, c: nat)
    requires a * c < b * c
    ensures a < b
  {
  }

  lemma CeilDivPositive(a: nat, b: nat)
    requires a > b > 0
    ensures CeilDiv(a, b) >= 2
  {
    CeilDivBounds(a, b);
    FactorLt(1, CeilDiv(a, b), b);
  }

  lemma EvenSizeAtMost(size: nat, max: nat, n: nat)
    requires n > 0 && size <= n * max
    ensures CeilDiv(size, n) <= max
  {
    var e := CeilDiv(size, n);
    CeilDivBounds(size, n);
    assert (max + 1) * n == n * max + n;
    FactorLt(e, max + 1, n);
  }

  lemma Twice(h: nat, n: nat)
    requires n >= 2
    ensures h * n <= 2 * h * (n - 1)
  {
    assert 2 * h * (n - 1) == h * n + h * (n - 2);
  }

  lemma EvenSizeAbove(size: nat, max: nat, n: nat, overhead: nat)
    requires n >= 2 && size > (n - 1) * max && max >= 2 * overhead
    ensures overhead < CeilDiv(size, n)
  {
    CeilDivBounds(size, n);
    hide CeilDiv;
    MulLe(2 * overhead, max, n - 1);
    Twice(overhead, n);
    FactorLt(overhead, CeilDiv(size, n), n);
  }

  /** The size is even enough: at most the maximum, and more than the overhead. */
  lemma EvenSizeBounds(size: nat, max: nat, overhead: nat)
    requires size > max >= 2 * overhead > 0 && max < 65536
    ensures overhead < EvenSize(size, max) <= max
  {
    var n := CeilDiv(size, max);
    CeilDivPositive(size, max);
    CeilDivBounds(size, max);
    assert (n - 1) * max == n * max - max;
    hide CeilDiv;
    EvenSizeAtMost(size, max, n);
    EvenSizeAbove(size, max, n, overhead);
  }

  /** Whatever the maximum, the 16-bit size does not exceed it. */
  lemma EvenSizeFits(size: nat, max: nat)
    requires size > max > 0
    ensures EvenSize(size, max) <= max
  {
    if max < 65536 {
      CeilDivPositive(size, max);
      CeilDivBounds(size, max);
      hide CeilDiv;
      EvenSizeAtMost(size, max, CeilDiv(size, max));
    }
  }

  /** A unit in two halves. */
  lemma TwoHalves(size: nat, max: nat)
    requires 0 < max < size <= 2 * max
    ensures EvenSize(size, max) == (size + 1) / 2 % 65536
  {
    var n := CeilDiv(size, max);
    CeilDivPositive(size, max);
    CeilDivBounds(size, max);
    if n > 2 {
      MulLe(3, n, max);
    }
  }

  /** Above 16 bits there is a unit whose even size is a multiple of 2^16. */
  lemma Vanishes(max: nat)
    requires max >= 65536
    ensures var size := 131072 * (max / 131072 + 1); size > max && EvenSize(size, max) == 0
  {
    hide EvenSize;
    var k := max / 131072 + 1;
    var size := 131072 * k;
    TwoHalves(size, max);
    assert (size + 1) / 2 == 65536 * k;
  }

  /**
    Units of every length above the maximum can be cut if and only if the maximum is at least
    twice the overhead and a 16-bit number.  Below, a unit one byte too long leaves no room behind
    the fragment header; above, some even size is a multiple of 2^16 and truncated to 0.
   */
  lemma ProgressIff(max: nat, overhead: nat)
    requires max > 0 && overhead > 0
    ensures (forall size {:trigger EvenSize(size, max)} :: size > max ==> EvenSize(size, max) > overhead) <==>
            2 * overhead <= max < 65536
  {
    hide EvenSize;
    if 2 * overhead <= max < 65536 {
      forall size {:trigger EvenSize(size, max)} | size > max
        ensures EvenSize(size, max) > overhead
      {
        EvenSizeBounds(size, max, overhead);
      }
    } else if max < 65536 {
      TwoHalves(max + 1, max);
    } else {
      Vanishes(max);
    }
  }

  /** A maximum of 2^16 and a unit of twice that: the even size is truncated to 0. */
  lemma LargeMaximumExample()
    ensures EvenSize(131072, 65536) == 0
  {
    TwoHalves(131072, 65536);
  }

  /** A unit that is sent whole, or whose fragments have room behind their headers. */
  predicate Cuttable(c: Codec, nal: Bytes, max: nat) {
    |nal| <= max || (max > 0 && EvenSize(|nal|, max) > c.Overhead())
  }

  ghost predicate AllCuttable(c: Codec, nals: seq<Bytes>, max: nat) {
    forall i :: 0 <= i < |nals| ==> |nals[i]| >= c.HeaderSize() && Cuttable(c, nals[i], max)
  }

  /** With a 16-bit maximum of at least twice the overhead every unit can be cut. */
  lemma SmallMaximum(c: Codec, nals: seq<Bytes>, max: nat)
    requires 2 * c.Overhead() <= max < 65536 && forall i :: 0 <= i < |nals| ==> |nals[i]| >= c.HeaderSize()
    ensures AllCuttable(c, nals, max)
  {
    hide EvenSize;
    forall i | 0 <= i < |nals|
      ensures Cuttable(c, nals[i], max)
    {
      if |nals[i]| > max {
        EvenSizeBounds(|nals[i]|, max, c.Overhead());
      }
    }
  }

  // ---------------------------------------------------------------- the pieces

  /** The end of the fragment that starts at `offset` of a payload of `size` bytes. */
  function EndOf(size: nat, chunk: nat, offset: nat): nat {
    if offset + chunk <= size then offset + chunk else size
  }

  /** The fragment that starts at `offset`: the first one is the start, the one that reaches the end is the end. */
  function PieceAt(c: Codec, nal: Bytes, owner: nat, chunk: nat, offset: nat): Piece
    requires c.HeaderSize() + offset <= |nal|
  {
    var h, size := c.HeaderSize(), |nal| - c.HeaderSize();
    var e := EndOf(size, chunk, offset);
    var start, end := offset == 0, offset != 0 && offset + chunk >= size;
    var data := nal[h + offset..h + e];
    Piece(c.Wrap(nal, start, end, data), Fragment(start, end, nal[..h], data), owner, nal[..h + e])
  }

  /** The pieces of `nal` from byte `offset` of its payload on, added to `acc`. */
  function CutInto(c: Codec, nal: Bytes, owner: nat, chunk: nat, offset: nat, acc: seq<Piece>): seq<Piece>
    requires |nal| >= c.HeaderSize() && chunk > 0
    decreases |nal| - offset
  {
    var size := |nal| - c.HeaderSize();
    if offset >= size then acc
    else
      CutInto(c, nal, owner, chunk, EndOf(size, chunk, offset), acc + [PieceAt(c, nal, owner, chunk, offset)])
  }

  /** The pieces of one unit, as `GenerateFragments` makes them. */
  function CutOne(c: Codec, nal: Bytes, owner: nat, max: nat, acc: seq<Piece>): seq<Piece>
    requires |nal| >= c.HeaderSize() && Cuttable(c, nal, max)
  {
    if |nal| > max then
      CutInto(c, nal, owner, EvenSize(|nal|, max) - c.Overhead(), 0, acc)
    else acc + [Piece(nal, Whole([nal]), owner, nal)]
  }

  function CutAll(c: Codec, nals: seq<Bytes>, max: nat): seq<Piece>
    requires AllCuttable(c, nals, max)
  {
    if nals == [] then []
    else CutOne(c, nals[|nals| - 1], |nals| - 1, max, CutAll(c, nals[..|nals| - 1], max))
  }

  function Payloads(ps: seq<Piece>): (r: seq<Bytes>)
    ensures |r| == |ps|
  {
    seq(|ps|, i requires 0 <= i < |ps| => ps[i].payload)
  }

  lemma PayloadsSnoc(ps: seq<Piece>, p: Piece)
    ensures Payloads(ps + [p]) == Payloads(ps) + [p.payload]
  {
  }

  lemma PiecePayload(c: Codec, nal: Bytes, owner: nat, chunk: nat, offset: nat)
    requires c.HeaderSize() + offset <= |nal|
    ensures var payload := nal[c.HeaderSize()..];
            PieceAt(c, nal, owner, chunk, offset).payload ==
            c.Wrap(nal, offset == 0, offset != 0 && offset + chunk >= |payload|,
                   payload[offset..EndOf(|payload|, chunk, offset)])
  {
    var h, payload := c.HeaderSize(), nal[c.HeaderSize()..];
    var e := EndOf(|payload|, chunk, offset);
    TailSlice(nal, h, offset, e);
  }

  lemma TailSlice(s: Bytes, h: nat, a: nat, b: nat)
    requires a <= b && h + b <= |s|
    ensures s[h..][a..b] == s[h + a..h + b]
  {
  }

  /** `generateFragments`: the fragmentation units of one unit above the maximum. */
  method Fragments(c: Codec, nal: Bytes, max: nat, ghost owner: nat, ghost acc: seq<Piece>)
    returns (result: seq<Bytes>)
    requires |nal| > max && |nal| >= c.HeaderSize() && Cuttable(c, nal, max)
    ensures Payloads(acc) + result == Payloads(CutOne(c, nal, owner, max, acc))
  {
    hide Payloads, PieceAt, EvenSize;
    EvenSizeFits(|nal|, max);
    var size := EvenSize(|nal|, max) - c.Overhead();
    var payload := nal[c.HeaderSize()..];
    ghost var chunk := size;
    ghost var all := CutInto(c, nal, owner, chunk, 0, acc);
    ghost var done := acc;
    var offset := 0;
    result := [];
    while offset < |payload|
      invariant 0 < size <= chunk && offset <= |payload|
      invariant size < chunk ==> offset == |payload|
      invariant CutInto(c, nal, owner, chunk, offset, done) == all
      invariant Payloads(acc) + result == Payloads(done)
    {
      var start, end := offset == 0, false;
      if offset != 0 && offset + size >= |payload| {
        if offset + size > |payload| {
          size := |payload| - offset;
        }
        end := true;
      }
      assert offset + size == EndOf(|payload|, chunk, offset);
      var data := payload[offset..offset + size];
      ghost var piece := PieceAt(c, nal, owner, chunk, offset);
      var fragment := c.Wrap(nal, start, end, data);
      PiecePayload(c, nal, owner, chunk, offset);
      assert fragment == piece.payload;
      PayloadsSnoc(done, piece);
      assert Payloads(acc) + (result + [fragment]) == (Payloads(acc) + result) + [fragment];
      done := done + [piece];
      result := result + [fragment];
      offset := offset + size;
    }
  }

  /** `GenerateFragments` */
  method GenerateFragments(c: Codec, nals: seq<Bytes>, max: nat) returns (result: seq<Bytes>)
    requires AllCuttable(c, nals, max)
    ensures result == Payloads(CutAll(c, nals, max))
  {
    hide CutInto, Payloads;
    result := [];
    assert Payloads([]) == [];
    for i := 0 to |nals|
      invariant result == Payloads(CutAll(c, nals[..i], max))
    {
      assert nals[..i + 1][..i] == nals[..i];
      if |nals[i]| > max {
        var fragments := Fragments(c, nals[i], max, i, CutAll(c, nals[..i], max));
        result := result + fragments;
      } else {
        PayloadsSnoc(CutAll(c, nals[..i], max), Piece(nals[i], Whole([nals[i]]), i, nals[i]));
        result := result + [nals[i]];
      }
    }
    assert nals[..|nals|] == nals;
  }
}
