/**
  `DependencyDescriptorWriter` of src/dependencydescriptor.cpp: the code that emits a descriptor
  through a bit writer.  A method returns false where the source throws.
 */
module DescriptorWriter {
  import opened Options
  import opened Bits
  import opened BitWriting
  import opened NonSymmetric
  import opened DependencyDescriptor

  /** The writer took exactly `bits`, or refused because they do not fit. */
  twostate predicate Emitted(w: BitWriter, bits: seq<bool>, ok: bool)
    reads w, w.buf
  {
    && w.Valid()
    && (ok <==> old(w.offset) + |bits| <= w.size)
    && (ok ==> w.Log == old(w.Log) + bits)
  }

  method WriteFlag(w: BitWriter, b: bool) returns (ok: bool)
    requires w.Valid()
    modifies w, w.buf
    ensures Emitted(w, Flag(b), ok)
  {
    Pow2Values();
    ok := w.Write(if b then 1 else 0, 1);
  }

  /** `for (x : values) writeBits(x, width)` */
  method WriteEach(w: BitWriter, values: seq<nat>, width: nat) returns (ok: bool)
    requires w.Valid() && AllBelow(values, Pow2(width))
    modifies w, w.buf
    ensures Emitted(w, Each(values, width), ok)
  {
    hide ToBits;
    ghost var goal := w.Log + Each(values, width);
    for i := 0 to |values|
      invariant w.Valid() && goal == w.Log + Each(values[i..], width)
    {
      assert values[i..][1..] == values[i + 1..];
      Assoc(w.Log, ToBits(values[i], width), Each(values[i + 1..], width));
      ok := w.Write(values[i], width);
      if !ok {
        return;
      }
    }
    ok := true;
  }

  method WriteEachNs(w: BitWriter, values: seq<nat>, n: nat) returns (ok: bool)
    requires w.Valid() && AllBelow(values, n)
    modifies w, w.buf
    ensures Emitted(w, EachNs(values, n), ok)
  {
    hide NsBits;
    ghost var goal := w.Log + EachNs(values, n);
    for i := 0 to |values|
      invariant w.Valid() && goal == w.Log + EachNs(values[i..], n)
    {
      assert values[i..][1..] == values[i + 1..];
      Assoc(w.Log, NsBits(values[i], n), EachNs(values[i + 1..], n));
      ok := WriteNonSymmetric(w, values[i], n);
      if !ok {
        return;
      }
    }
    ok := true;
  }

  method WriteLayers(w: BitWriter, ts: seq<Template>) returns (ok: bool)
    requires w.Valid() && |ts| > 0
    modifies w, w.buf
    ensures w.Valid()
    ensures ok <==> LayersExpressible(ts) && old(w.offset) + |LayerBits(ts)| <= w.size
    ensures ok ==> w.Log == old(w.Log) + LayerBits(ts)
  {
    hide ToBits;
    Pow2Values();
    ghost var goal := w.Log + LayerBits(ts);
    for i := 1 to |ts|
      invariant w.Valid() && goal == w.Log + LayerBits(ts[i - 1..])
      invariant forall j :: 1 <= j < i ==> NextLayerIdc(ts[j - 1], ts[j]) != 3
    {
      var idc := NextLayerIdc(ts[i - 1], ts[i]);
      if idc == 3 {
        return false;
      }
      assert ts[i - 1..][1..] == ts[i..];
      Assoc(w.Log, ToBits(idc, 2), LayerBits(ts[i..]));
      ok := w.Write(idc, 2);
      if !ok {
        return;
      }
    }
    assert LayersExpressible(ts);
    ok := w.Write(3, 2);
  }

  method WriteTemplateDtis(w: BitWriter, ts: seq<Template>) returns (ok: bool)
    requires w.Valid()
    modifies w, w.buf
    ensures Emitted(w, TemplateDtiBits(ts), ok)
  {
    hide Each;
    Pow2Values();
    ghost var goal := w.Log + TemplateDtiBits(ts);
    for i := 0 to |ts|
      invariant w.Valid() && goal == w.Log + TemplateDtiBits(ts[i..])
    {
      assert ts[i..][1..] == ts[i + 1..];
      Assoc(w.Log, Each(ts[i].dtis, 2), TemplateDtiBits(ts[i + 1..]));
      ok := WriteEach(w, ts[i].dtis, 2);
      if !ok {
        return;
      }
    }
    ok := true;
  }

  method WriteFdiffList(w: BitWriter, fs: seq<nat>) returns (ok: bool)
    requires w.Valid() && AllWithin(fs, 1, 16)
    modifies w, w.buf
    ensures Emitted(w, TemplateFdiffs(fs), ok)
  {
    hide ToBits;
    Pow2Values();
    ghost var goal := w.Log + TemplateFdiffs(fs);
    for i := 0 to |fs|
      invariant w.Valid() && goal == w.Log + TemplateFdiffs(fs[i..])
    {
      assert fs[i..][1..] == fs[i + 1..];
      JoinBound(1, fs[i] - 1, 1, 4);
      Assoc(w.Log, ToBits(Shl(1, 4) + (fs[i] - 1), 1 + 4), TemplateFdiffs(fs[i + 1..]));
      ok := w.Write(Shl(1, 4) + (fs[i] - 1), 1 + 4);
      if !ok {
        return;
      }
    }
    ok := w.Write(0, 1);
  }

  method WriteTemplateFdiffs(w: BitWriter, ts: seq<Template>) returns (ok: bool)
    requires w.Valid() && FdiffsWithin(ts, 16)
    modifies w, w.buf
    ensures Emitted(w, TemplateFdiffBits(ts), ok)
  {
    hide TemplateFdiffs;
    ghost var goal := w.Log + TemplateFdiffBits(ts);
    for i := 0 to |ts|
      invariant w.Valid() && goal == w.Log + TemplateFdiffBits(ts[i..])
    {
      assert ts[i..][1..] == ts[i + 1..];
      Assoc(w.Log, TemplateFdiffs(ts[i].frameDiffs), TemplateFdiffBits(ts[i + 1..]));
      ok := WriteFdiffList(w, ts[i].frameDiffs);
      if !ok {
        return;
      }
    }
    ok := true;
  }

  method WriteTemplateChainDiffs(w: BitWriter, ts: seq<Template>) returns (ok: bool)
    requires w.Valid() && forall i :: 0 <= i < |ts| ==> AllBelow(ts[i].chainDiffs, 16)
    modifies w, w.buf
    ensures Emitted(w, TemplateChainDiffBits(ts), ok)
  {
    hide Each;
    Pow2Values();
    ghost var goal := w.Log + TemplateChainDiffBits(ts);
    for i := 0 to |ts|
      invariant w.Valid() && goal == w.Log + TemplateChainDiffBits(ts[i..])
    {
      assert ts[i..][1..] == ts[i + 1..];
      Assoc(w.Log, Each(ts[i].chainDiffs, 4), TemplateChainDiffBits(ts[i + 1..]));
      ok := WriteEach(w, ts[i].chainDiffs, 4);
      if !ok {
        return;
      }
    }
    ok := true;
  }

  method WriteChains(w: BitWriter, s: Structure) returns (ok: bool)
    requires w.Valid() && ValidStructure(s)
    modifies w, w.buf
    ensures Emitted(w, ChainBits(s), ok)
  {
    hide NsBits, EachNs, TemplateChainDiffBits;
    ok := WriteNonSymmetric(w, s.chainCount, s.decodeTargetCount + 1);
    if !ok || s.chainCount == 0 {
      return;
    }
    ghost var log := w.Log;
    ok := WriteEachNs(w, s.protectedBy, s.chainCount);
    if !ok {
      return;
    }
    Assoc(log, EachNs(s.protectedBy, s.chainCount), TemplateChainDiffBits(s.templates));
    ok := WriteTemplateChainDiffs(w, s.templates);
    Assoc(old(w.Log), NsBits(s.chainCount, s.decodeTargetCount + 1),
          EachNs(s.protectedBy, s.chainCount) + TemplateChainDiffBits(s.templates));
  }

  method WriteResolutions(w: BitWriter, rs: seq<RenderResolution>) returns (ok: bool)
    requires w.Valid()
    requires forall i :: 0 <= i < |rs| ==> 0 < rs[i].width <= 65536 && 0 < rs[i].height <= 65536
    modifies w, w.buf
    ensures Emitted(w, ResolutionBits(rs), ok)
  {
    hide ToBits;
    Pow2Values();
    ghost var goal := w.Log + ResolutionBits(rs);
    for i := 0 to |rs|
      invariant w.Valid() && goal == w.Log + ResolutionBits(rs[i..])
    {
      assert rs[i..][1..] == rs[i + 1..];
      ghost var a, b, rest := ToBits(rs[i].width - 1, 16), ToBits(rs[i].height - 1, 16), ResolutionBits(rs[i + 1..]);
      Assoc(w.Log, a, b + rest);
      Assoc(w.Log + a, b, rest);
      ok := w.Write(rs[i].width - 1, 16);
      if !ok {
        return;
      }
      ok := w.Write(rs[i].height - 1, 16);
      if !ok {
        return;
      }
    }
    ok := true;
  }

  method WriteFrameFdiffs(w: BitWriter, fs: seq<nat>) returns (ok: bool)
    requires w.Valid() && AllWithin(fs, 1, 4096)
    modifies w, w.buf
    ensures Emitted(w, FrameFdiffs(fs), ok)
  {
    hide ToBits;
    Pow2Values();
    ghost var goal := w.Log + FrameFdiffs(fs);
    for i := 0 to |fs|
      invariant w.Valid() && goal == w.Log + FrameFdiffs(fs[i..])
    {
      assert fs[i..][1..] == fs[i + 1..];
      var width := FdiffWidth(fs[i]);
      JoinBound(width / 4, fs[i] - 1, 2, width);
      Assoc(w.Log, ToBits(Shl(width / 4, width) + (fs[i] - 1), 2 + width), FrameFdiffs(fs[i + 1..]));
      ok := w.Write(Shl(width / 4, width) + (fs[i] - 1), 2 + width);
      if !ok {
        return;
      }
    }
    ok := w.Write(0, 2);
  }

  /** template_layers() up to the resolutions, without the two leading counts. */
  function TablesBits(s: Structure): seq<bool>
    requires ValidStructure(s)
  {
    LayerBits(s.templates) + (
      TemplateDtiBits(s.templates) + (
        TemplateFdiffBits(s.templates) + (
          ChainBits(s) + (
            Flag(s.resolutions != []) + ResolutionBits(s.resolutions)))))
  }

  /** As `Emitted`, for a part that is also rejected when `fine` does not hold. */
  twostate predicate EmittedIf(w: BitWriter, fine: bool, bits: seq<bool>, ok: bool)
    reads w, w.buf
  {
    && w.Valid()
    && (ok <==> fine && old(w.offset) + |bits| <= w.size)
    && (ok ==> w.Log == old(w.Log) + bits)
  }

  method WriteTables(w: BitWriter, s: Structure) returns (ok: bool)
    requires w.Valid() && ValidStructure(s)
    modifies w, w.buf
    ensures EmittedIf(w, LayersExpressible(s.templates), TablesBits(s), ok)
  {
    hide LayersExpressible, LayerBits, TemplateDtiBits, TemplateFdiffBits, ChainBits, ResolutionBits, Flag;
    ghost var x5 := ResolutionBits(s.resolutions);
    ghost var x4 := Flag(s.resolutions != []) + x5;
    ghost var x3 := ChainBits(s) + x4;
    ghost var x2 := TemplateFdiffBits(s.templates) + x3;
    ghost var x1 := TemplateDtiBits(s.templates) + x2;
    Assoc(w.Log, LayerBits(s.templates), x1);
    ok := WriteLayers(w, s.templates);
    if !ok { return; }
    Assoc(w.Log, TemplateDtiBits(s.templates), x2);
    ok := WriteTemplateDtis(w, s.templates);
    if !ok { return; }
    Assoc(w.Log, TemplateFdiffBits(s.templates), x3);
    ok := WriteTemplateFdiffs(w, s.templates);
    if !ok { return; }
    Assoc(w.Log, ChainBits(s), x4);
    ok := WriteChains(w, s);
    if !ok { return; }
    Assoc(w.Log, Flag(s.resolutions != []), x5);
    ok := WriteFlag(w, s.resolutions != []);
    if !ok { return; }
    ok := WriteResolutions(w, s.resolutions);
  }

  method WriteStructure(w: BitWriter, s: Structure) returns (ok: bool)
    requires w.Valid() && ValidStructure(s)
    modifies w, w.buf
    ensures EmittedIf(w, LayersExpressible(s.templates), StructureBits(s), ok)
  {
    hide LayersExpressible, ToBits;
    Pow2Values();
    ghost var x1 := ToBits(s.decodeTargetCount - 1, 5);
    Assoc(w.Log, ToBits(s.templateIdOffset, 6), x1 + TablesBits(s));
    ok := w.Write(s.templateIdOffset, 6);
    if !ok { return; }
    Assoc(w.Log, x1, TablesBits(s));
    ok := w.Write(s.decodeTargetCount - 1, 5);
    if !ok { return; }
    ok := WriteTables(w, s);
  }

  method WriteFrame(w: BitWriter, c: Context, m: TemplateMatch) returns (ok: bool)
    requires w.Valid() && ValidContext(c) && IsMatch(c, m)
    modifies w, w.buf
    ensures Emitted(w, FrameBits(c, c.structure.templates[m.position]), ok)
  {
    hide Each, FrameFdiffs, ExtraSizeBits, CustomDtis, CustomFdiffs, CustomChains;
    Pow2Values();
    var f := c.descriptor.frame;
    ghost var x1 := if m.customDtis then Each(f.dtis, 2) else [];
    ghost var x2 := if m.customFdiffs then FrameFdiffs(f.frameDiffs) else [];
    ghost var x3 := if m.customChains then Each(FrameChains(c), 8) else [];
    Assoc(w.Log, x1, x2 + x3);
    ok := true;
    if m.customDtis {
      ok := WriteEach(w, f.dtis, 2);
      if !ok { return; }
    }
    assert w.Log == old(w.Log) + x1;
    Assoc(w.Log, x2, x3);
    ghost var log := w.Log;
    if m.customFdiffs {
      ok := WriteFrameFdiffs(w, f.frameDiffs);
      if !ok { return; }
    }
    assert w.Log == log + x2;
    if m.customChains {
      ok := WriteEach(w, FrameChains(c), 8);
    }
  }

  method WriteMandatory(w: BitWriter, c: Context, best: nat) returns (ok: bool)
    requires w.Valid() && ValidContext(c)
    modifies w, w.buf
    ensures Emitted(w, MandatoryBits(c, best), ok)
  {
    hide ToBits, Flag;
    Pow2Values();
    var d := c.descriptor;
    var id := (best + c.structure.templateIdOffset) % MAX_TEMPLATES;
    ghost var x3 := ToBits(id, 6) + ToBits(d.frameNumber, 16);
    Assoc(w.Log, Flag(d.startOfFrame), Flag(d.endOfFrame) + x3);
    ok := WriteFlag(w, d.startOfFrame);
    if !ok { return; }
    Assoc(w.Log, Flag(d.endOfFrame), x3);
    ok := WriteFlag(w, d.endOfFrame);
    if !ok { return; }
    Assoc(w.Log, ToBits(id, 6), ToBits(d.frameNumber, 16));
    ok := w.Write(id, 6);
    if !ok { return; }
    ok := w.Write(d.frameNumber, 16);
  }

  /** The structure and the mask, after the five flags of the extended fields. */
  function ExtendedTail(c: Context): seq<bool>
    requires ValidContext(c)
  {
    (if c.descriptor.structureAttached then StructureBits(c.structure) else []) +
    (if TargetsPresent(c)
     then ToBits(c.descriptor.activeDecodeTargets.value, c.structure.decodeTargetCount)
     else [])
  }

  method WriteExtendedTail(w: BitWriter, c: Context) returns (ok: bool)
    requires w.Valid() && ValidContext(c)
    modifies w, w.buf
    ensures EmittedIf(w, LayersFine(c), ExtendedTail(c), ok)
  {
    hide StructureBits, ToBits, TargetsPresent, LayersExpressible;
    var present := TargetsPresent(c);
    assert present ==> c.descriptor.activeDecodeTargets.Some? by { TargetsPresentMeans(c); }
    ghost var x1 := if c.descriptor.structureAttached then StructureBits(c.structure) else [];
    ghost var x2 :=
      if present then ToBits(c.descriptor.activeDecodeTargets.value, c.structure.decodeTargetCount) else [];
    Assoc(w.Log, x1, x2);
    ok := true;
    if c.descriptor.structureAttached {
      ok := WriteStructure(w, c.structure);
      if !ok { return; }
    }
    assert w.Log == old(w.Log) + x1;
    if present {
      ok := w.Write(c.descriptor.activeDecodeTargets.value, c.structure.decodeTargetCount);
    }
  }

  lemma TargetsPresentMeans(c: Context)
    ensures TargetsPresent(c) ==> c.descriptor.activeDecodeTargets.Some?
  {
  }

  function FiveFlags(a: bool, b: bool, c: bool, d: bool, e: bool): seq<bool> {
    Flag(a) + (Flag(b) + (Flag(c) + (Flag(d) + Flag(e))))
  }

  method WriteTwoFlags(w: BitWriter, a: bool, b: bool) returns (ok: bool)
    requires w.Valid()
    modifies w, w.buf
    ensures Emitted(w, Flag(a) + Flag(b), ok)
  {
    hide Flag;
    Assoc(w.Log, Flag(a), Flag(b));
    ok := WriteFlag(w, a);
    if !ok { return; }
    ok := WriteFlag(w, b);
  }

  method WriteThreeFlags(w: BitWriter, a: bool, b: bool, c: bool) returns (ok: bool)
    requires w.Valid()
    modifies w, w.buf
    ensures Emitted(w, Flag(a) + (Flag(b) + Flag(c)), ok)
  {
    hide Flag;
    Assoc(w.Log, Flag(a), Flag(b) + Flag(c));
    ok := WriteFlag(w, a);
    if !ok { return; }
    ok := WriteTwoFlags(w, b, c);
  }

  method WriteFlags(w: BitWriter, a: bool, b: bool, c: bool, d: bool, e: bool) returns (ok: bool)
    requires w.Valid()
    modifies w, w.buf
    ensures Emitted(w, FiveFlags(a, b, c, d, e), ok)
  {
    hide Flag;
    ghost var front, back := Flag(a) + (Flag(b) + Flag(c)), Flag(d) + Flag(e);
    assert FiveFlags(a, b, c, d, e) == front + back by {
      Assoc(Flag(a), Flag(b) + Flag(c), back);
      Assoc(Flag(b), Flag(c), back);
    }
    hide FiveFlags;
    Assoc(w.Log, front, back);
    ok := WriteThreeFlags(w, a, b, c);
    if !ok { return; }
    ok := WriteTwoFlags(w, d, e);
  }

  lemma ExtendedBitsParts(c: Context, t: Template)
    requires ValidContext(c) && ValidTemplate(t, c.structure)
    ensures ExtendedBits(c, t) ==
            FiveFlags(c.descriptor.structureAttached, TargetsPresent(c), CustomDtis(c, t), CustomFdiffs(c, t),
                      CustomChains(c, t)) + ExtendedTail(c)
  {
    hide Flag, CustomDtis, CustomFdiffs, CustomChains, TargetsPresent;
    var f1, f2, f3, f4, f5 :=
      Flag(c.descriptor.structureAttached), Flag(TargetsPresent(c)),
      Flag(CustomDtis(c, t)), Flag(CustomFdiffs(c, t)), Flag(CustomChains(c, t));
    var x := ExtendedTail(c);
    assert ExtendedBits(c, t) == f1 + (f2 + (f3 + (f4 + (f5 + x))));
    Assoc(f4, f5, x);
    Assoc(f3, f4 + f5, x);
    Assoc(f2, f3 + (f4 + f5), x);
    Assoc(f1, f2 + (f3 + (f4 + f5)), x);
  }

  method WriteExtended(w: BitWriter, c: Context, m: TemplateMatch) returns (ok: bool)
    requires w.Valid() && ValidContext(c) && IsMatch(c, m)
    modifies w, w.buf
    ensures EmittedIf(w, LayersFine(c), ExtendedBits(c, c.structure.templates[m.position]), ok)
  {
    hide FiveFlags, LayersFine, ExtraSizeBits, CustomDtis, CustomFdiffs, CustomChains, TargetsPresent;
    hide ExtendedTail, ExtendedBits;
    ExtendedBitsParts(c, c.structure.templates[m.position]);
    ghost var flags := FiveFlags(c.descriptor.structureAttached, TargetsPresent(c), m.customDtis,
                                 m.customFdiffs, m.customChains);
    Assoc(w.Log, flags, ExtendedTail(c));
    ok := WriteFlags(w, c.descriptor.structureAttached, TargetsPresent(c), m.customDtis, m.customFdiffs,
                     m.customChains);
    if !ok { return; }
    ok := WriteExtendedTail(w, c);
  }

  /**
    `doWriteTo`: fails when the context is not acceptable and when the writer is too small;
    else appends exactly the bits of the descriptor for the cheapest template.
   */
  method DoWriteTo(w: BitWriter, c: Context) returns (ok: bool)
    requires w.Valid() && ValidContext(c)
    modifies w, w.buf
    ensures w.Valid()
    ensures ok <==> Accepted(c) && old(w.offset) + |Encoding(c)| <= w.size
    ensures ok ==> w.Log == old(w.Log) + Encoding(c)
  {
    hide MandatoryBits, ExtendedBits, FrameBits, CustomDtis, CustomFdiffs, CustomChains, LayersFine, ExtraSizeBits;
    hide HasLayer, IsBest;
    var match_ := FindBestTemplate(c);
    if match_.None? {
      return false;
    }
    var m := match_.value;
    ghost var t := c.structure.templates[m.position];
    var extended := m.extraSizeBits > 0 || (c.descriptor.startOfFrame && c.descriptor.structureAttached)
                    || c.descriptor.activeDecodeTargets.Some?;
    assert extended == HasExtendedFields(c, t);
    ghost var x1 := if extended then ExtendedBits(c, t) else [];
    ghost var x2 := FrameBits(c, t);
    Assoc(w.Log, MandatoryBits(c, m.position), x1 + x2);
    ok := WriteMandatory(w, c, m.position);
    if !ok { return; }
    Assoc(w.Log, x1, x2);
    ghost var log := w.Log;
    if extended {
      ok := WriteExtended(w, c, m);
      if !ok { return; }
    }
    assert w.Log == log + x1;
    ok := WriteFrame(w, c, m);
  }

  /** `getSizeBits`: the same code run over a writer without a buffer. */
  method GetSizeBits(c: Context) returns (r: Option<nat>)
    requires ValidContext(c)
    ensures r.Some? <==> Accepted(c) && |Encoding(c)| <= SIZE_MAX
    ensures r.Some? ==> r.value == |Encoding(c)|
  {
    hide Accepted, Encoding;
    var w := new BitWriter.FromNull();
    var ok := DoWriteTo(w, c);
    r := if ok then Some(w.GetWrittenBits()) else None;
  }

  function Padding(n: nat): (pad: seq<bool>)
    ensures |pad| < 8 && (n + |pad|) % 8 == 0
  {
    Zeros(if n % 8 == 0 then 0 else 8 - n % 8)
  }

  /** A buffer of bits `o` whose beginning has been overwritten. */
  function Overwritten(o: seq<bool>, bits: seq<bool>): seq<bool> {
    if |bits| <= |o| then Spliced(o, 0, bits) else o
  }

  /** `writeTo`: the descriptor, then zero bits up to the next byte boundary. */
  method WriteTo(c: Context, buf: array<Byte>, sizeBytes: nat) returns (ok: bool)
    requires ValidContext(c) && sizeBytes <= buf.Length
    modifies buf
    ensures ok <==> Accepted(c) && |Encoding(c)| <= 8 * sizeBytes
    ensures ok ==>
              && |Encoding(c)| + |Padding(|Encoding(c)|)| <= 8 * sizeBytes
              && AllBits(buf[..]) ==
                 Overwritten(old(AllBits(buf[..])), Encoding(c) + Padding(|Encoding(c)|))
  {
    hide HasExtendedFields, LayersFine, Encoding, ValidContext, AllBits, Padding;
    var w := new BitWriter.FromSizeBits(buf, 0, 8 * sizeBytes);
    ok := DoWriteTo(w, c);
    if ok {
      assert w.Log == Encoding(c);
      PadToByte(w, sizeBytes);
    }
  }

  method PadToByte(w: BitWriter, sizeBytes: nat)
    requires w.Valid() && w.initialOffset == 0 && w.size == 8 * sizeBytes
    modifies w, w.buf
    ensures w.Valid() && w.Log == old(w.Log) + Padding(|old(w.Log)|)
  {
    hide ToBits;
    var over := w.GetWrittenBits() % 8;
    if over != 0 {
      ZeroBits(8 - over);
      assert w.offset + (8 - over) <= w.size;
      var padded := w.Write(0, 8 - over);
    } else {
      assert w.Log + Padding(|w.Log|) == w.Log;
    }
  }
}
