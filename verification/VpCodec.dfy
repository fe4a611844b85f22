/**
  The payload descriptors of VP8 (RFC 7741; src/vp8rtppacketizer.cpp, src/vp8rtpdepacketizer.cpp)
  and VP9 (RFC 9628; src/vp9rtppacketizer.cpp, src/vp9rtpdepacketizer.cpp).
 */
module VpCodec {
  import opened Bits

  datatype Size = Truncated | Size(n: nat)

  predicate HasBit(b: Byte, weight: nat)
    requires weight > 0
  {
    b / weight % 2 == 1
  }

  // ---------------------------------------------------------------- VP8

  /** The picture id takes one byte, or two when its first bit says so. */
  function AfterPictureId(p: Bytes, n: nat): Size {
    if |p| < n + 1 then Truncated
    else if !HasBit(p[n], 128) then Size(n + 1)
    else if |p| < n + 2 then Truncated
    else Size(n + 2)
  }

  function OneMore(p: Bytes, present: bool, s: Size): Size {
    if s.Truncated? || !present then s
    else if |p| < s.n + 1 then Truncated
    else Size(s.n + 1)
  }

  function Vp8DescriptorSize(p: Bytes): (s: Size)
    requires p != []
  {
    if !HasBit(p[0], 128) then Size(1)
    else if |p| < 2 then Truncated
    else
      var x := p[1];
      var s1 := if HasBit(x, 128) then AfterPictureId(p, 2) else Size(2);
      var s2 := OneMore(p, HasBit(x, 64), s1);
      OneMore(p, HasBit(x, 32) || HasBit(x, 16), s2)
  }

  // ---------------------------------------------------------------- VP9

  /** Up to `left` reference indices, each saying whether another follows. */
  function AfterReferences(p: Bytes, n: nat, left: nat): nat
    decreases left
  {
    if left == 0 || |p| < n + 1 then n
    else if !HasBit(p[n], 1) then n + 1
    else AfterReferences(p, n + 1, left - 1)
  }

  /** `groups` picture groups, each with the references it announces. */
  function AfterGroups(p: Bytes, n: nat, groups: nat): Size
    decreases groups
  {
    if groups == 0 then Size(n)
    else if |p| < n + 1 then Truncated
    else
      var refs := p[n] / 4 % 4;
      if |p| < n + 1 + refs then Truncated else AfterGroups(p, n + 1 + refs, groups - 1)
  }

  /** The scalability structure at position `n`. */
  function AfterStructure(p: Bytes, n: nat): Size {
    if |p| < n + 1 then Truncated
    else
      var ss := p[n];
      var resolutions := if HasBit(ss, 16) then 4 * (ss / 32 + 1) else 0;
      if |p| < n + 1 + resolutions then Truncated
      else
        var m := n + 1 + resolutions;
        if !HasBit(ss, 8) then Size(m)
        else if |p| < m + 1 then Truncated
        else AfterGroups(p, m + 1, p[m])
  }

  function Vp9DescriptorSize(p: Bytes): (s: Size)
    requires p != []
  {
    var b := p[0];
    var s1 := if HasBit(b, 128) then AfterPictureId(p, 1) else Size(1);
    var s2 := OneMore(p, HasBit(b, 32), s1);
    var s3 := OneMore(p, HasBit(b, 32) && !HasBit(b, 16), s2);
    if s3.Truncated? then s3
    else
      var n := if HasBit(b, 64) && HasBit(b, 16) then AfterReferences(p, s3.n, 3) else s3.n;
      if HasBit(b, 2) then AfterStructure(p, n) else Size(n)
  }

  /** The loop over reference indices. */
  method ReadReferences(p: Bytes, n: nat) returns (size: nat)
    ensures size == AfterReferences(p, n, 3)
  {
    size := n;
    var i := 0;
    while i < 3
      invariant 0 <= i <= 3
      invariant AfterReferences(p, size, 3 - i) == AfterReferences(p, n, 3)
    {
      if |p| < size + 1 {
        return;
      }
      var ref := p[size];
      size := size + 1;
      if !HasBit(ref, 1) {
        return;
      }
      i := i + 1;
    }
  }

  /** The loop over picture groups. */
  method ReadGroups(p: Bytes, n: nat, groups: nat) returns (s: Size)
    ensures s == AfterGroups(p, n, groups)
  {
    var size: nat := n;
    var i := 0;
    while i < groups
      invariant 0 <= i <= groups
      invariant AfterGroups(p, size, groups - i) == AfterGroups(p, n, groups)
    {
      if |p| < size + 1 {
        return Truncated;
      }
      var refs: nat := p[size] / 4 % 4;
      size := size + 1;
      if |p| < size + refs {
        return Truncated;
      }
      size := size + refs;
      i := i + 1;
    }
    return Size(size);
  }

  /** The multi-branch VP9 parser. */
  method ReadVp9Descriptor(p: Bytes) returns (s: Size)
    requires p != []
    ensures s == Vp9DescriptorSize(p)
  {
    var size := 1;
    var first := p[0];
    if HasBit(first, 128) {
      if |p| < size + 1 { return Truncated; }
      var pictureId := p[size];
      size := size + 1;
      if HasBit(pictureId, 128) {
        if |p| < size + 1 { return Truncated; }
        size := size + 1;
      }
    }
    if HasBit(first, 32) {
      if |p| < size + 1 { return Truncated; }
      size := size + 1;
      if !HasBit(first, 16) {
        if |p| < size + 1 { return Truncated; }
        size := size + 1;
      }
    }
    if HasBit(first, 64) && HasBit(first, 16) {
      size := ReadReferences(p, size);
    }
    if HasBit(first, 2) {
      s := ReadStructure(p, size);
    } else {
      s := Size(size);
    }
  }

  method ReadStructure(p: Bytes, n: nat) returns (s: Size)
    ensures s == AfterStructure(p, n)
  {
    var size: nat := n;
    if |p| < size + 1 { return Truncated; }
    var ss := p[size];
    size := size + 1;
    var layers: nat := ss / 32 + 1;
    if HasBit(ss, 16) {
      var resolutionSize := 4 * layers;
      if |p| < size + resolutionSize { return Truncated; }
      size := size + resolutionSize;
    }
    if HasBit(ss, 8) {
      if |p| < size + 1 { return Truncated; }
      var groups := p[size];
      size := size + 1;
      s := ReadGroups(p, size, groups);
    } else {
      s := Size(size);
    }
  }

  /** The VP8 parser. */
  method ReadVp8Descriptor(p: Bytes) returns (s: Size)
    requires p != []
    ensures s == Vp8DescriptorSize(p)
  {
    var size := 1;
    if HasBit(p[0], 128) {
      if |p| < size + 1 { return Truncated; }
      var extension := p[size];
      size := size + 1;
      if HasBit(extension, 128) {
        if |p| < size + 1 { return Truncated; }
        var pictureId := p[size];
        size := size + 1;
        if HasBit(pictureId, 128) {
          if |p| < size + 1 { return Truncated; }
          size := size + 1;
        }
      }
      if HasBit(extension, 64) {
        if |p| < size + 1 { return Truncated; }
        size := size + 1;
      }
      if HasBit(extension, 32) || HasBit(extension, 16) {
        if |p| < size + 1 { return Truncated; }
        size := size + 1;
      }
    }
    return Size(size);
  }

  // ---------------------------------------------------------------- the two codecs

  datatype Vp = VP8 | VP9 {
    function DescriptorSize(p: Bytes): Size
      requires p != []
    {
      if VP8? then Vp8DescriptorSize(p) else Vp9DescriptorSize(p)
    }

    /** The S bit of VP8 and the B bit of VP9. */
    predicate StartsFrame(first: Byte) {
      if VP8? then HasBit(first, 16) else HasBit(first, 8)
    }

    /** Frames that the packetizer sends at all. */
    predicate Sends(frame: Bytes, max: nat) {
      max > 1 && |frame| >= (if VP8? then 3 else 1)
    }

    /** Neither a key frame nor, for VP9, a repeated one. */
    predicate IsInter(first: Byte) {
      if VP8? then first % 2 == 1 else !HasBit(first, 8) && HasBit(first, 4)
    }

    /** The one-byte descriptor of the fragment at `index`. */
    function Descriptor(frame: Bytes, first: bool, last: bool): Byte
      requires frame != []
    {
      if VP8? then
        (if IsInter(frame[0]) then 32 else 0) + (if first then 16 else 0)
      else
        (if IsInter(frame[0]) then 64 else 0) + (if first then 8 else 0) + (if last then 4 else 0)
    }
  }

  /** The parser of the codec. */
  method ReadDescriptor(vp: Vp, p: Bytes) returns (s: Size)
    requires p != []
    ensures s == vp.DescriptorSize(p)
  {
    if vp.VP8? {
      s := ReadVp8Descriptor(p);
    } else {
      s := ReadVp9Descriptor(p);
    }
  }

  /** The packetizer's descriptors are one byte long and tell start, end (VP9) and kind of frame. */
  lemma DescriptorReads(vp: Vp, frame: Bytes, first: bool, last: bool, data: Bytes)
    requires frame != []
    ensures vp.DescriptorSize([vp.Descriptor(frame, first, last)] + data) == Size(1)
    ensures var d := vp.Descriptor(frame, first, last);
            && vp.StartsFrame(d) == first
            && (vp.VP9? ==> HasBit(d, 4) == last)
            && HasBit(d, if vp.VP8? then 32 else 64) == vp.IsInter(frame[0])
  {
  }
}
