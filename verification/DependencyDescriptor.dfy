/**
  The AV1 dependency descriptor (include/rtc/dependencydescriptor.hpp): its data, the choice
  of the cheapest template, and the bit string that a descriptor denotes according to
  Appendix A.8.2 of the AV1 RTP specification.
 */
module DependencyDescriptor {
  import opened Options
  import opened Bits
  import opened NonSymmetric

  /** NotPresent, Discardable, Switch, Required. */
  type DecodeTargetIndication = x: nat | x < 4

  datatype RenderResolution = RenderResolution(width: nat, height: nat)

  datatype Template = Template(
    spatialId: nat, temporalId: nat,
    dtis: seq<DecodeTargetIndication>, frameDiffs: seq<nat>, chainDiffs: seq<nat>)
  {
    predicate SameLayer(that: Template) {
      spatialId == that.spatialId && temporalId == that.temporalId
    }
  }

  datatype Structure = Structure(
    templateIdOffset: nat, decodeTargetCount: nat, chainCount: nat,
    protectedBy: seq<nat>, resolutions: seq<RenderResolution>, templates: seq<Template>)

  datatype Descriptor = Descriptor(
    startOfFrame: bool, endOfFrame: bool, frameNumber: nat, frame: Template,
    activeDecodeTargets: Option<nat>, structureAttached: bool)

  datatype Context = Context(descriptor: Descriptor, activeChains: seq<bool>, structure: Structure)

  const MAX_TEMPLATES: nat := 64

  // ---------------------------------------------------------------- asserted ranges

  predicate AllBelow(s: seq<nat>, bound: nat) {
    forall i :: 0 <= i < |s| ==> s[i] < bound
  }

  predicate AllWithin(s: seq<nat>, lo: nat, hi: nat) {
    forall i :: 0 <= i < |s| ==> lo <= s[i] <= hi
  }

  predicate ValidTemplate(t: Template, s: Structure) {
    && |t.dtis| == s.decodeTargetCount
    && AllWithin(t.frameDiffs, 1, 16)
    && |t.chainDiffs| == s.chainCount && AllBelow(t.chainDiffs, 16)
  }

  predicate ValidStructure(s: Structure) {
    && s.templateIdOffset < MAX_TEMPLATES
    && 1 <= s.decodeTargetCount <= 32
    && s.chainCount <= s.decodeTargetCount
    && 0 < |s.templates| < MAX_TEMPLATES
    && (s.chainCount != 0 ==> |s.protectedBy| == s.decodeTargetCount && AllBelow(s.protectedBy, s.chainCount))
    && (forall i :: 0 <= i < |s.templates| ==> ValidTemplate(s.templates[i], s))
    && (forall i :: 0 <= i < |s.resolutions| ==>
          0 < s.resolutions[i].width <= 65536 && 0 < s.resolutions[i].height <= 65536)
  }

  /** What is asserted, on top of the ranges, of a structure that is written out. */
  predicate Attachable(s: Structure)
    requires |s.templates| > 0
  {
    && s.templates[0].spatialId == 0 && s.templates[0].temporalId == 0
    && (s.resolutions != [] ==> |s.resolutions| == s.templates[|s.templates| - 1].spatialId + 1)
  }

  predicate ValidContext(c: Context) {
    && var d, s := c.descriptor, c.structure;
    && ValidStructure(s)
    && |c.activeChains| == 32
    && d.frameNumber < 65536
    && |d.frame.dtis| == s.decodeTargetCount
    && AllWithin(d.frame.frameDiffs, 1, 4096)
    && |d.frame.chainDiffs| == s.chainCount
    && (forall i :: 0 <= i < s.chainCount ==> c.activeChains[i] ==> d.frame.chainDiffs[i] < 256)
    && (d.activeDecodeTargets.Some? ==> d.activeDecodeTargets.value < Pow2(s.decodeTargetCount))
    && (d.structureAttached ==> Attachable(s))
  }

  // ---------------------------------------------------------------- template choice

  ghost predicate CustomChains(c: Context, t: Template)
    requires |c.activeChains| == 32 && c.structure.chainCount <= 32
    requires |t.chainDiffs| == |c.descriptor.frame.chainDiffs| == c.structure.chainCount
  {
    exists i :: 0 <= i < c.structure.chainCount && c.activeChains[i] &&
                c.descriptor.frame.chainDiffs[i] != t.chainDiffs[i]
  }

  predicate CustomDtis(c: Context, t: Template) { c.descriptor.frame.dtis != t.dtis }

  predicate CustomFdiffs(c: Context, t: Template) { c.descriptor.frame.frameDiffs != t.frameDiffs }

  function FdiffWidth(f: nat): nat {
    if f <= 16 then 4 else if f <= 256 then 8 else 12
  }

  /** No shorter width holds the difference. */
  lemma WidthIsShortest(f: nat, w: nat)
    requires 1 <= f <= 4096 && w in {4, 8, 12} && f <= Pow2(w)
    ensures FdiffWidth(f) <= w && f <= Pow2(FdiffWidth(f))
  {
    Pow2Values();
  }

  function FdiffWidths(fs: seq<nat>): nat {
    if fs == [] then 0 else FdiffWidth(fs[0]) + FdiffWidths(fs[1..])
  }

  /** `calculate_match`'s estimate of the bits that the frame-specific part needs. */
  ghost function ExtraSizeBits(c: Context, t: Template): nat
    requires ValidContext(c) && ValidTemplate(t, c.structure)
  {
    var f := c.descriptor.frame;
    (if CustomFdiffs(c, t) then 2 * (1 + |f.frameDiffs|) + FdiffWidths(f.frameDiffs) else 0) +
    (if CustomDtis(c, t) then 2 * |f.dtis| else 0) +
    (if CustomChains(c, t) then 8 * c.structure.chainCount else 0)
  }

  /** The run of templates searched: the first one of the frame's layer and those right after it. */
  ghost predicate IsRun(c: Context, lo: nat, hi: nat) {
    && var ts, f := c.structure.templates, c.descriptor.frame;
    && lo < hi <= |ts|
    && (forall i :: 0 <= i < lo ==> !f.SameLayer(ts[i]))
    && (forall i :: lo <= i < hi ==> f.SameLayer(ts[i]))
    && (hi < |ts| ==> !f.SameLayer(ts[hi]))
  }

  /** `best` is the first of the cheapest templates in the run. */
  ghost predicate IsBest(c: Context, best: nat)
    requires ValidContext(c)
  {
    && best < |c.structure.templates|
    && exists lo: nat, hi: nat {:trigger IsRun(c, lo, hi)} :: IsRun(c, lo, hi) && IsBestIn(c, lo, hi, best)
  }

  ghost predicate IsBestIn(c: Context, lo: nat, hi: nat, best: nat)
    requires ValidContext(c) && hi <= |c.structure.templates|
  {
    && lo <= best < hi
    && (forall i :: lo <= i < hi ==>
          ExtraSizeBits(c, c.structure.templates[best]) <= ExtraSizeBits(c, c.structure.templates[i]))
    && (forall i :: lo <= i < best ==>
          ExtraSizeBits(c, c.structure.templates[best]) < ExtraSizeBits(c, c.structure.templates[i]))
  }

  lemma BestIsUnique(c: Context, a: nat, b: nat)
    requires ValidContext(c) && IsBest(c, a) && IsBest(c, b)
    ensures a == b
  {
    var la: nat, ha: nat :| IsRun(c, la, ha) && IsBestIn(c, la, ha, a);
    var lb: nat, hb: nat :| IsRun(c, lb, hb) && IsBestIn(c, lb, hb, b);
    var ts, f := c.structure.templates, c.descriptor.frame;
    assert f.SameLayer(ts[la]) && f.SameLayer(ts[lb]);
    assert la == lb;
    assert ha == hb;
  }

  ghost predicate HasLayer(c: Context) {
    exists i :: 0 <= i < |c.structure.templates| && c.descriptor.frame.SameLayer(c.structure.templates[i])
  }

  lemma BestExists(c: Context)
    requires ValidContext(c) && HasLayer(c)
    ensures exists best: nat :: IsBest(c, best)
  {
    var ts, f := c.structure.templates, c.descriptor.frame;
    var lo := 0;
    while lo < |ts| && !f.SameLayer(ts[lo])
      invariant lo <= |ts| && forall i :: 0 <= i < lo ==> !f.SameLayer(ts[i])
    {
      lo := lo + 1;
    }
    var hi := lo + 1;
    var best := lo;
    while hi < |ts| && f.SameLayer(ts[hi])
      invariant lo < hi <= |ts| && forall i :: lo <= i < hi ==> f.SameLayer(ts[i])
      invariant IsBestIn(c, lo, hi, best)
    {
      if ExtraSizeBits(c, ts[hi]) < ExtraSizeBits(c, ts[best]) {
        best := hi;
      }
      hi := hi + 1;
    }
    assert IsRun(c, lo, hi);
    assert IsBest(c, best);
  }

  /** The template that is used: the first of the cheapest ones. */
  ghost function Chosen(c: Context): (best: nat)
    requires ValidContext(c) && HasLayer(c)
    ensures IsBest(c, best)
  {
    BestExists(c);
    var best: nat :| IsBest(c, best);
    best
  }

  datatype TemplateMatch = TemplateMatch(
    position: nat, customDtis: bool, customFdiffs: bool, customChains: bool, extraSizeBits: nat)

  /** The match record says of its template what the specification says. */
  ghost predicate IsMatch(c: Context, m: TemplateMatch)
    requires ValidContext(c)
  {
    && m.position < |c.structure.templates|
    && var t := c.structure.templates[m.position];
    && m.customDtis == CustomDtis(c, t)
    && m.customFdiffs == CustomFdiffs(c, t)
    && m.customChains == CustomChains(c, t)
    && m.extraSizeBits == ExtraSizeBits(c, t)
  }

  /** `calculate_match`. */
  method CalculateMatch(c: Context, position: nat) returns (m: TemplateMatch)
    requires ValidContext(c) && position < |c.structure.templates|
    ensures m.position == position && IsMatch(c, m)
  {
    var f, t, n := c.descriptor.frame, c.structure.templates[position], c.structure.chainCount;
    var customChains := false;
    for i := 0 to n
      invariant !customChains
      invariant forall j :: 0 <= j < i ==> c.activeChains[j] ==> f.chainDiffs[j] == t.chainDiffs[j]
    {
      if c.activeChains[i] && f.chainDiffs[i] != t.chainDiffs[i] {
        customChains := true;
        break;
      }
    }
    var extra := 0;
    if f.frameDiffs != t.frameDiffs {
      extra := extra + 2 * (1 + |f.frameDiffs|);
      ghost var start := extra;
      for i := 0 to |f.frameDiffs|
        invariant extra + FdiffWidths(f.frameDiffs[i..]) == start + FdiffWidths(f.frameDiffs)
      {
        assert f.frameDiffs[i..][1..] == f.frameDiffs[i + 1..];
        if f.frameDiffs[i] <= Shl(1, 4) {
          extra := extra + 4;
        } else if f.frameDiffs[i] <= Shl(1, 8) {
          extra := extra + 8;
        } else {
          extra := extra + 12;
        }
      }
    }
    if f.dtis != t.dtis {
      extra := extra + 2 * |f.dtis|;
    }
    if customChains {
      extra := extra + 8 * n;
    }
    m := TemplateMatch(position, f.dtis != t.dtis, f.frameDiffs != t.frameDiffs, customChains, extra);
  }

  /** `find_best_template`. */
  method FindBestTemplate(c: Context) returns (best: Option<TemplateMatch>)
    requires ValidContext(c)
    ensures best.None? <==> !HasLayer(c)
    ensures best.Some? ==> IsMatch(c, best.value) && best.value.position == Chosen(c)
  {
    var ts, f := c.structure.templates, c.descriptor.frame;
    var first := 0;
    while first < |ts| && !f.SameLayer(ts[first])
      invariant first <= |ts|
      invariant forall i :: 0 <= i < first ==> !f.SameLayer(ts[i])
    {
      first := first + 1;
    }
    if first == |ts| {
      return None;
    }
    var last := first;
    while last < |ts| && f.SameLayer(ts[last])
      invariant first <= last <= |ts|
      invariant forall i :: first <= i < last ==> f.SameLayer(ts[i])
    {
      last := last + 1;
    }
    assert IsRun(c, first, last);
    var m := CalculateMatch(c, first);
    var next := first + 1;
    while next < last
      invariant first < next <= last
      invariant IsMatch(c, m) && IsBestIn(c, first, next, m.position)
    {
      var candidate := CalculateMatch(c, next);
      if candidate.extraSizeBits < m.extraSizeBits {
        m := candidate;
      }
      next := next + 1;
    }
    assert IsBest(c, m.position);
    BestIsUnique(c, m.position, Chosen(c));
    return Some(m);
  }

  // ---------------------------------------------------------------- the bit string

  function Flag(b: bool): seq<bool> { ToBits(if b then 1 else 0, 1) }

  function Each(values: seq<nat>, width: nat): seq<bool> {
    if values == [] then [] else ToBits(values[0], width) + Each(values[1..], width)
  }

  function EachNs(values: seq<nat>, n: nat): seq<bool>
    requires AllBelow(values, n)
  {
    if values == [] then [] else NsBits(values[0], n) + EachNs(values[1..], n)
  }

  /** next_layer_idc, 3 standing for a step that the syntax cannot express. */
  function NextLayerIdc(prev: Template, next: Template): nat {
    if next.SameLayer(prev) then 0
    else if next.spatialId == prev.spatialId && next.temporalId == prev.temporalId + 1 then 1
    else if next.spatialId == prev.spatialId + 1 && next.temporalId == 0 then 2
    else 3
  }

  predicate LayersExpressible(ts: seq<Template>) {
    forall i :: 1 <= i < |ts| ==> NextLayerIdc(ts[i - 1], ts[i]) != 3
  }

  function LayerBits(ts: seq<Template>): seq<bool>
    requires |ts| > 0
  {
    if |ts| == 1 then ToBits(3, 2)
    else ToBits(NextLayerIdc(ts[0], ts[1]), 2) + LayerBits(ts[1..])
  }

  function TemplateDtiBits(ts: seq<Template>): seq<bool> {
    if ts == [] then [] else Each(ts[0].dtis, 2) + TemplateDtiBits(ts[1..])
  }

  function TemplateFdiffs(fs: seq<nat>): seq<bool>
    requires AllWithin(fs, 1, 16)
  {
    if fs == [] then ToBits(0, 1) else ToBits(Shl(1, 4) + (fs[0] - 1), 1 + 4) + TemplateFdiffs(fs[1..])
  }

  predicate FdiffsWithin(ts: seq<Template>, hi: nat) {
    forall i :: 0 <= i < |ts| ==> AllWithin(ts[i].frameDiffs, 1, hi)
  }

  function TemplateFdiffBits(ts: seq<Template>): seq<bool>
    requires FdiffsWithin(ts, 16)
  {
    if ts == [] then [] else TemplateFdiffs(ts[0].frameDiffs) + TemplateFdiffBits(ts[1..])
  }

  function TemplateChainDiffBits(ts: seq<Template>): seq<bool> {
    if ts == [] then [] else Each(ts[0].chainDiffs, 4) + TemplateChainDiffBits(ts[1..])
  }

  function ChainBits(s: Structure): seq<bool>
    requires ValidStructure(s)
  {
    NsBits(s.chainCount, s.decodeTargetCount + 1) +
    (if s.chainCount == 0 then []
     else EachNs(s.protectedBy, s.chainCount) + TemplateChainDiffBits(s.templates))
  }

  function ResolutionBits(rs: seq<RenderResolution>): seq<bool>
    requires forall i :: 0 <= i < |rs| ==> 0 < rs[i].width && 0 < rs[i].height
  {
    if rs == [] then []
    else ToBits(rs[0].width - 1, 16) + (ToBits(rs[0].height - 1, 16) + ResolutionBits(rs[1..]))
  }

  /** template_dependency_structure() */
  function StructureBits(s: Structure): seq<bool>
    requires ValidStructure(s)
  {
    ToBits(s.templateIdOffset, 6) + (
      ToBits(s.decodeTargetCount - 1, 5) + (
        LayerBits(s.templates) + (
          TemplateDtiBits(s.templates) + (
            TemplateFdiffBits(s.templates) + (
              ChainBits(s) + (
                Flag(s.resolutions != []) + ResolutionBits(s.resolutions)))))))
  }

  function FrameFdiffs(fs: seq<nat>): seq<bool>
    requires AllWithin(fs, 1, 4096)
  {
    if fs == [] then ToBits(0, 2)
    else
      var w := FdiffWidth(fs[0]);
      ToBits(Shl(w / 4, w) + (fs[0] - 1), 2 + w) + FrameFdiffs(fs[1..])
  }

  function FrameChains(c: Context): (r: seq<nat>)
    requires ValidContext(c)
    ensures |r| == c.structure.chainCount && AllBelow(r, 256)
  {
    seq(c.structure.chainCount,
        i requires 0 <= i < c.structure.chainCount =>
          if c.activeChains[i] then c.descriptor.frame.chainDiffs[i] else 0)
  }

  /** frame_dependency_definition(): the part that depends on the chosen template. */
  ghost function FrameBits(c: Context, t: Template): seq<bool>
    requires ValidContext(c) && ValidTemplate(t, c.structure)
  {
    (if CustomDtis(c, t) then Each(c.descriptor.frame.dtis, 2) else []) + (
      (if CustomFdiffs(c, t) then FrameFdiffs(c.descriptor.frame.frameDiffs) else []) +
      (if CustomChains(c, t) then Each(FrameChains(c), 8) else []))
  }

  ghost predicate HasExtendedFields(c: Context, t: Template)
    requires ValidContext(c) && ValidTemplate(t, c.structure)
  {
    || ExtraSizeBits(c, t) > 0
    || (c.descriptor.startOfFrame && c.descriptor.structureAttached)
    || c.descriptor.activeDecodeTargets.Some?
  }

  predicate TargetsPresent(c: Context) {
    && c.descriptor.activeDecodeTargets.Some?
    && !(c.descriptor.structureAttached &&
         c.descriptor.activeDecodeTargets.value == Pow2(c.structure.decodeTargetCount) - 1)
  }

  /** extended_descriptor_fields() */
  ghost function ExtendedBits(c: Context, t: Template): seq<bool>
    requires ValidContext(c) && ValidTemplate(t, c.structure)
  {
    Flag(c.descriptor.structureAttached) + (
      Flag(TargetsPresent(c)) + (
        Flag(CustomDtis(c, t)) + (
          Flag(CustomFdiffs(c, t)) + (
            Flag(CustomChains(c, t)) + (
              (if c.descriptor.structureAttached then StructureBits(c.structure) else []) +
              (if TargetsPresent(c)
               then ToBits(c.descriptor.activeDecodeTargets.value, c.structure.decodeTargetCount)
               else []))))))
  }

  /** mandatory_descriptor_fields() */
  function MandatoryBits(c: Context, best: nat): seq<bool> {
    Flag(c.descriptor.startOfFrame) + (
      Flag(c.descriptor.endOfFrame) + (
        ToBits((best + c.structure.templateIdOffset) % MAX_TEMPLATES, 6) +
        ToBits(c.descriptor.frameNumber, 16)))
  }

  /** Everything `doWriteTo` emits once template `best` has been chosen. */
  ghost function DescriptorBits(c: Context, best: nat): seq<bool>
    requires ValidContext(c) && best < |c.structure.templates|
  {
    var t := c.structure.templates[best];
    MandatoryBits(c, best) + (
      (if HasExtendedFields(c, t) then ExtendedBits(c, t) else []) + FrameBits(c, t))
  }

  predicate LayersFine(c: Context) {
    c.descriptor.structureAttached ==> LayersExpressible(c.structure.templates)
  }

  /** What `doWriteTo` accepts, given the asserted ranges: the only two other ways to throw. */
  ghost predicate Accepted(c: Context)
    requires ValidContext(c)
  {
    && HasLayer(c)
    && (HasExtendedFields(c, c.structure.templates[Chosen(c)]) ==> LayersFine(c))
  }

  /** The bit string of an accepted context. */
  ghost function Encoding(c: Context): seq<bool>
    requires ValidContext(c) && HasLayer(c)
  {
    DescriptorBits(c, Chosen(c))
  }

  // ---------------------------------------------------------------- the size estimate

  lemma {:induction false} EachLength(values: seq<nat>, width: nat)
    ensures |Each(values, width)| == |values| * width
  {
    if values != [] {
      EachLength(values[1..], width);
    }
  }

  lemma {:induction false} FrameFdiffsLength(fs: seq<nat>)
    requires AllWithin(fs, 1, 4096)
    ensures |FrameFdiffs(fs)| == 2 * (1 + |fs|) + FdiffWidths(fs)
  {
    if fs != [] {
      FrameFdiffsLength(fs[1..]);
    }
  }

  /** The estimate is exact, and it is zero just when the template fits the frame as it is. */
  lemma ExtraSizeIsExact(c: Context, t: Template)
    requires ValidContext(c) && ValidTemplate(t, c.structure)
    ensures ExtraSizeBits(c, t) == |FrameBits(c, t)|
    ensures ExtraSizeBits(c, t) == 0 <==>
              !CustomDtis(c, t) && !CustomFdiffs(c, t) && !CustomChains(c, t)
  {
    CustomIsSomething(c, t);
    EachLength(c.descriptor.frame.dtis, 2);
    FrameFdiffsLength(c.descriptor.frame.frameDiffs);
    EachLength(FrameChains(c), 8);
    hide Each, FrameFdiffs, FdiffWidths, CustomDtis, CustomFdiffs, CustomChains, FrameChains;
  }

  /** What is custom is not empty. */
  lemma CustomIsSomething(c: Context, t: Template)
    requires ValidContext(c) && ValidTemplate(t, c.structure)
    ensures CustomDtis(c, t) ==> |c.descriptor.frame.dtis| > 0
    ensures CustomChains(c, t) ==> c.structure.chainCount > 0
  {
  }
}
