/**
  The bit writer of src/dependencydescriptor.cpp: a cursor over a byte buffer that is
  updated in place, or over no buffer at all when only the size is wanted.
 */
module BitWriting {
  import opened Bits

  /** The largest `size_t`, the capacity of a writer that only measures. */
  const SIZE_MAX: nat := 0xFFFF_FFFF_FFFF_FFFF

  /** `width` bits of `b` replaced from position `at` on. */
  function Spliced(b: seq<bool>, at: nat, new_: seq<bool>): (r: seq<bool>)
    requires at + |new_| <= |b|
    ensures |r| == |b|
  {
    b[..at] + new_ + b[at + |new_|..]
  }

  /** The value that keeps the `o` high and `s` low bits of `p` and puts `vv` between them. */
  function Between(p: nat, o: nat, n: nat, s: nat, vv: nat): nat {
    Shl(Shl(Shr(p, n + s), n) + vv, s) + Low(p, s)
  }

  lemma BetweenBound(p: nat, o: nat, n: nat, s: nat, vv: nat)
    requires p < Pow2(o + n + s) && vv < Pow2(n)
    ensures Between(p, o, n, s, vv) < Pow2(o + n + s)
  {
    assert o + (n + s) == o + n + s;
    ShrBound(p, o, n + s);
    JoinBound(Shr(p, n + s), vv, o, n);
    LowBits(p, s, s);
    JoinBound(Shl(Shr(p, n + s), n) + vv, Low(p, s), o + n, s);
  }

  lemma BetweenBits(p: nat, o: nat, n: nat, s: nat, vv: nat)
    requires vv < Pow2(n)
    ensures ToBits(Between(p, o, n, s, vv), o + n + s) == Spliced(ToBits(p, o + n + s), o, ToBits(vv, n))
  {
    var high := Shr(p, n + s);
    calc {
      ToBits(Between(p, o, n, s, vv), o + n + s);
      { LowBits(p, s, s); JoinBits(Shl(high, n) + vv, Low(p, s), o + n, s); }
      ToBits(Shl(high, n) + vv, o + n) + ToBits(p, s);
      { JoinBits(high, vv, o, n); }
      ToBits(high, o) + ToBits(vv, n) + ToBits(p, s);
    }
    assert ToBits(p, o + n + s)[..o] == ToBits(high, o) by {
      assert o + (n + s) == o + n + s;
      SplitBits(p, o, n + s);
    }
    assert ToBits(p, o + n + s)[o + n..] == ToBits(p, s) by {
      SplitBits(p, o + n, s);
    }
  }

  /** The byte store of `writePartialByte`: `need` bits of `vv` placed `offset` bits into `p`. */
  function PartialByte(p: Byte, offset: nat, need: nat, vv: nat): (r: Byte)
    requires offset + need <= 8 && vv < Pow2(need)
    ensures ToBits(r, 8) == Spliced(ToBits(p, 8), offset, ToBits(vv, need))
  {
    var shift := 8 - offset - need;
    assert Pow2(offset + need + shift) == 256 by { assert Pow2(8) == 256; }
    BetweenBound(p, offset, need, shift, vv);
    BetweenBits(p, offset, need, shift, vv);
    Between(p, offset, need, shift, vv)
  }

  lemma SpliceInside(b: seq<bool>, lo: nat, hi: nat, at: nat, new_: seq<bool>)
    requires lo <= hi <= |b| && lo + at + |new_| <= hi
    ensures b[..lo] + Spliced(b[lo..hi], at, new_) + b[hi..] == Spliced(b, lo + at, new_)
  {
  }

  lemma SpliceByte(s: seq<Byte>, i: nat, x: Byte, at: nat, new_: seq<bool>)
    requires i < |s| && at + |new_| <= 8
    requires ToBits(x, 8) == Spliced(ToBits(s[i], 8), at, new_)
    ensures AllBits(s[i := x]) == Spliced(AllBits(s), 8 * i + at, new_)
  {
    AllBitsUpdate(s, i, x);
    SpliceInside(AllBits(s), 8 * i, 8 * i + 8, at, new_);
  }

  lemma SpliceNext(o: seq<bool>, at: nat, a: seq<bool>, b: seq<bool>)
    requires at + |a| + |b| <= |o|
    ensures Spliced(Spliced(o, at, a), at + |a|, b) == Spliced(o, at, a + b)
  {
  }

  class BitWriter {
    const buf: array?<Byte>
    const initialOffset: nat
    const size: nat
    var offset: nat

    ghost const Orig: seq<bool>  // the bits of the buffer when the writer was made
    ghost var Log: seq<bool>     // every bit written so far

    ghost predicate Valid()
      reads this, buf
    {
      && offset == initialOffset + |Log| <= size
      && (buf != null ==>
            && size <= 8 * buf.Length == |Orig|
            && AllBits(buf[..]) == Spliced(Orig, initialOffset, Log))
    }

    constructor FromSizeBits(buffer: array<Byte>, offsetBits: nat, sizeBits: nat)
      requires offsetBits <= sizeBits <= 8 * buffer.Length
      ensures Valid() && buf == buffer && initialOffset == offsetBits && size == sizeBits
      ensures Log == [] && Orig == AllBits(buffer[..])
    {
      buf, initialOffset, size, offset := buffer, offsetBits, sizeBits, offsetBits;
      Log, Orig := [], AllBits(buffer[..]);
    }

    constructor FromNull()
      ensures Valid() && buf == null && initialOffset == 0 && size == SIZE_MAX && Log == []
    {
      buf, initialOffset, size, offset := null, 0, SIZE_MAX, 0;
      Log, Orig := [], [];
    }

    function GetWrittenBits(): (n: nat)
      requires Valid()
      reads this, buf
      ensures n == |Log|
    {
      offset - initialOffset
    }

    /** Stores up to the end of byte `index`; the caller advances the cursor. */
    method WritePartialByte(index: nat, at: nat, v: nat, bits: nat) returns (need: nat)
      requires at < 8 && (at == 0 || v < Pow2(bits))
      requires buf != null && bits > 0 ==> index < buf.Length
      modifies buf
      ensures need == if bits <= 8 - at then bits else 8 - at
      ensures buf != null && bits > 0 ==>
                AllBits(buf[..]) ==
                Spliced(old(AllBits(buf[..])), 8 * index + at, ToBits(Shr(v, bits - need), need))
      ensures buf != null && bits == 0 ==> buf[..] == old(buf[..])
    {
      need := if bits <= 8 - at then bits else 8 - at;
      if buf != null && bits > 0 {
        ghost var was := buf[..];
        var vv := PartialValue(at, v, bits, need);
        var x := PartialByte(buf[index], at, need, vv);
        SpliceByte(was, index, x, at, ToBits(vv, need));
        buf[index] := x;
        assert buf[..] == was[index := x];
      }
    }

    /** Eight bits stored at once. */
    method WriteWholeByte(index: nat, v: nat)
      requires buf != null && index < buf.Length
      modifies buf
      ensures AllBits(buf[..]) == Spliced(old(AllBits(buf[..])), 8 * index, ToBits(v, 8))
    {
      LowBits(v, 8, 8);
      assert Pow2(8) == 256;
      var x: Byte := Low(v, 8);
      ghost var was := buf[..];
      assert ToBits(x, 8) == Spliced(ToBits(was[index], 8), 0, ToBits(v, 8));
      SpliceByte(was, index, x, 0, ToBits(v, 8));
      buf[index] := x;
      assert buf[..] == was[index := x];
    }

    /** Moves the cursor over bits that have just been stored. */
    method Advance(n: nat, ghost stored: seq<bool>)
      requires |stored| == n && offset + n <= size && offset == initialOffset + |Log|
      requires buf != null ==> size <= 8 * buf.Length == |Orig|
      requires buf != null ==> AllBits(buf[..]) == Spliced(Spliced(Orig, initialOffset, Log), offset, stored)
      modifies this
      ensures Log == old(Log) + stored && offset == old(offset) + n && Valid()
    {
      if buf != null {
        SpliceNext(Orig, initialOffset, Log, stored);
      }
      Log := Log + stored;
      offset := offset + n;
    }

    method StorePartial(v: nat, bits: nat) returns (need: nat)
      requires Valid() && 0 < bits <= size - offset
      requires offset % 8 == 0 || v < Pow2(bits)
      modifies this, buf
      ensures Valid()
      ensures need == if bits <= 8 - old(offset) % 8 then bits else 8 - old(offset) % 8
      ensures offset == old(offset) + need && Log == old(Log) + ToBits(Shr(v, bits - need), need)
    {
      need := WritePartialByte(offset / 8, offset % 8, v, bits);
      Advance(need, ToBits(Shr(v, bits - need), need));
    }

    method StoreByte(v: nat)
      requires Valid() && offset % 8 == 0 && offset + 8 <= size
      modifies this, buf
      ensures Valid() && offset == old(offset) + 8 && Log == old(Log) + ToBits(v, 8)
    {
      if buf != null {
        WriteWholeByte(offset / 8, v);
      }
      Advance(8, ToBits(v, 8));
    }

    /** The eight-bits-at-a-time loop, entered at a byte boundary with `pending` bits left. */
    method StoreBytes(v: nat, pending: nat) returns (rest: nat)
      requires Valid() && offset % 8 == 0 && offset + pending <= size
      modifies this, buf
      ensures Valid()
      ensures rest <= pending && rest < 8 && offset % 8 == 0 && offset + rest == old(offset) + pending
      ensures Log == old(Log) + ToBits(Shr(v, rest), pending - rest)
    {
      rest := pending;
      ghost var log := Log;
      while rest >= 8
        invariant rest <= pending && offset + rest == old(offset) + pending
        invariant offset % 8 == 0
        invariant Valid()
        invariant Log == log + ToBits(Shr(v, rest), pending - rest)
      {
        ghost var done, more := ToBits(Shr(v, rest), pending - rest), ToBits(Shr(v, rest - 8), 8);
        assert log + (done + more) == (log + done) + more;
        StoreByte(Shr(v, rest - 8));
        assert Log == log + (done + more);
        Chunk(v, pending, rest, 8);
        rest := rest - 8;
      }
    }

    /** Appends the `bits` low bits of `v`, or refuses when they do not fit. */
    method Write(v: nat, bits: nat) returns (ok: bool)
      requires Valid() && v < Pow2(bits)
      modifies this, buf
      ensures Valid()
      ensures ok <==> old(offset) + bits <= size
      ensures Log == if ok then old(Log) + ToBits(v, bits) else old(Log)
    {
      if offset + bits > size {
        return false;
      }
      if bits == 0 {
        return true;
      }
      // up to the byte boundary
      var written := StorePartial(v, bits);
      if written < bits {
        var pending := bits - written;
        Chunk(v, bits, pending, pending);
        // whole bytes, then what is left
        var rest := StoreBytes(v, pending);
        Chunk(v, pending, rest, rest);
        if rest > 0 {
          written := StorePartial(v, rest);
        }
      }
      return true;
    }
  }

  /** What `writePartialByte` shifts into place: the store drops everything above the byte. */
  function PartialValue(at: nat, v: nat, bits: nat, need: nat): (vv: nat)
    requires at + need <= 8 && need <= bits && (at == 0 || v < Pow2(bits))
    ensures vv < Pow2(need) && ToBits(vv, need) == ToBits(Shr(v, bits - need), need)
  {
    var moved := Shr(v, bits - need);
    LowBits(moved, at + need, need);
    assert at != 0 ==> Low(moved, at + need) < Pow2(need) by {
      if at != 0 {
        ShrBound(v, need, bits - need);
        Pow2Monotone(need, at + need);
        LowIdentity(moved, at + need);
      }
    }
    Low(moved, at + need)
  }

  /** Taking `k` more of the `bits` bits of `v` when `rest` of them are left. */
  lemma Chunk(v: nat, bits: nat, rest: nat, k: nat)
    requires k <= rest <= bits
    ensures ToBits(Shr(v, rest - k), bits - (rest - k)) ==
            ToBits(Shr(v, rest), bits - rest) + ToBits(Shr(v, rest - k), k)
  {
    ShrShr(v, rest - k, k);
    SplitBits(Shr(v, rest - k), bits - rest, k);
  }
}
