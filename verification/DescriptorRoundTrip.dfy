/**
  The whole descriptor: the reader of dependency_descriptor(sz) and the round trip
  through everything `DependencyDescriptorWriter` emits.
 */
module DescriptorRoundTrip {
  import opened Options
  import opened Bits
  import opened NonSymmetric
  import opened DependencyDescriptor
  import opened DescriptorDecoder

  datatype Mandatory = Mandatory(startOfFrame: bool, endOfFrame: bool, templateId: nat, frameNumber: nat)

  function ReadMandatory(b: seq<bool>): (r: Parsed<Mandatory>)
    ensures r.Parsed? ==> |r.rest| == |b| - 24
  {
    var (start, b1) :- ReadFlag(b);
    var (end, b2) :- ReadFlag(b1);
    var (id, b3) :- ReadField(6, b2);
    var (number, b4) :- ReadField(16, b3);
    Parsed(Mandatory(start, end, id, number), b4)
  }

  datatype Extended = Extended(
    structure: Option<Structure>, targets: Option<nat>,
    customDtis: bool, customFdiffs: bool, customChains: bool)

  const NoExtended := Extended(None, None, false, false, false)

  function ReadOptionalStructure(present: bool, b: seq<bool>): Parsed<Option<Structure>> {
    if !present then Parsed(None, b)
    else
      var (s, b1) :- ReadStructure(b);
      Parsed(Some(s), b1)
  }

  /** The structure in force: the one that comes with the descriptor, or the one known before. */
  function InForce(attached: Option<Structure>, known: Option<Structure>): Option<Structure> {
    if attached.Some? then attached else known
  }

  /** A structure makes every decode target active unless a mask follows. */
  function ReadTargets(present: bool, attached: Option<Structure>, known: Option<Structure>, b: seq<bool>)
    : Parsed<Option<nat>>
  {
    if present then
      var s := InForce(attached, known);
      if s.None? then Truncated
      else
        var (mask, b1) :- ReadField(s.value.decodeTargetCount, b);
        Parsed(Some(mask), b1)
    else
      Parsed(if attached.Some? then Some(Pow2(attached.value.decodeTargetCount) - 1) else None, b)
  }

  function ReadExtended(known: Option<Structure>, b: seq<bool>): Parsed<Extended> {
    var (attached, b1) :- ReadFlag(b);
    var (targetsPresent, b2) :- ReadFlag(b1);
    var (customDtis, b3) :- ReadFlag(b2);
    var (customFdiffs, b4) :- ReadFlag(b3);
    var (customChains, b5) :- ReadFlag(b4);
    var (structure, b6) :- ReadOptionalStructure(attached, b5);
    var (targets, b7) :- ReadTargets(targetsPresent, structure, known, b6);
    Parsed(Extended(structure, targets, customDtis, customFdiffs, customChains), b7)
  }

  /** The frame's own lists: read where a custom flag says so, else those of template `t`. */
  function ReadFrame(e: Extended, s: Structure, t: Template, b: seq<bool>): Parsed<Template> {
    var (dtis, b1) :- if e.customDtis then ReadEach(s.decodeTargetCount, 2, b) else Parsed(t.dtis, b);
    var (fdiffs, b2) :- if e.customFdiffs then ReadFrameFdiffs(b1) else Parsed(t.frameDiffs, b1);
    var (chains, b3) :- if e.customChains then ReadEach(s.chainCount, 8, b2) else Parsed(t.chainDiffs, b2);
    Parsed(Template(t.spatialId, t.temporalId, Indications(dtis), fdiffs, chains), b3)
  }

  datatype Decoded = Decoded(
    startOfFrame: bool, endOfFrame: bool, frameNumber: nat, frame: Template,
    structure: Option<Structure>, targets: Option<nat>)

  /**
    dependency_descriptor(sz) on `b`, `known` being the structure received earlier, if any.  The
    extended fields are there just when the descriptor is longer than three bytes.  Without a
    structure, or with a template it does not have, nothing can be read.
   */
  function Decode(known: Option<Structure>, b: seq<bool>): Parsed<Decoded> {
    var (m, b1) :- ReadMandatory(b);
    var (e, b2) :- if |b| > 24 then ReadExtended(known, b1) else Parsed(NoExtended, b1);
    var s := InForce(e.structure, known);
    var index := if s.None? then 0 else (m.templateId + 64 - s.value.templateIdOffset) % 64;
    if s.None? || index >= |s.value.templates| then Truncated
    else
      var (frame, b3) :- ReadFrame(e, s.value, s.value.templates[index], b2);
      Parsed(Decoded(m.startOfFrame, m.endOfFrame, m.frameNumber, frame, e.structure, e.targets), b3)
  }

  // ---------------------------------------------------------------- the sections

  lemma ReadMandatoryInverts(c: Context, best: nat, rest: seq<bool>)
    requires ValidContext(c)
    ensures |MandatoryBits(c, best)| == 24
    ensures ReadMandatory(MandatoryBits(c, best) + rest) ==
            Parsed(Mandatory(c.descriptor.startOfFrame, c.descriptor.endOfFrame,
                             (best + c.structure.templateIdOffset) % 64, c.descriptor.frameNumber), rest)
  {
    hide ToBits, ReadField, ReadFlag, Pow2, Flag;
    var d := c.descriptor;
    var id := (best + c.structure.templateIdOffset) % 64;
    var x4 := ToBits(d.frameNumber, 16);
    var x3 := ToBits(id, 6);
    Pow2Values();
    FourThen(Flag(d.startOfFrame), Flag(d.endOfFrame), x3, x4, rest);
    ReadFlagInverts(d.startOfFrame, Flag(d.endOfFrame) + (x3 + (x4 + rest)));
    ReadFlagInverts(d.endOfFrame, x3 + (x4 + rest));
    ReadFieldInverts(id, 6, x4 + rest);
    ReadFieldInverts(d.frameNumber, 16, rest);
    FlagLength(d.startOfFrame);
    FlagLength(d.endOfFrame);
  }

  lemma FlagLength(x: bool)
    ensures |Flag(x)| == 1
  {
  }

  lemma FourThen(a: seq<bool>, b: seq<bool>, c: seq<bool>, d: seq<bool>, rest: seq<bool>)
    ensures (a + (b + (c + d))) + rest == a + (b + (c + (d + rest)))
  {
    Assoc(a, b + (c + d), rest);
    Assoc(b, c + d, rest);
    Assoc(c, d, rest);
  }

  /** The part of the extended fields that follows the five flags. */
  function AttachedBits(c: Context): seq<bool>
    requires ValidContext(c)
  {
    if c.descriptor.structureAttached then StructureBits(c.structure) else []
  }

  function MaskBits(c: Context): seq<bool>
    requires ValidContext(c)
  {
    if TargetsPresent(c)
    then ToBits(c.descriptor.activeDecodeTargets.value, c.structure.decodeTargetCount) else []
  }

  /** The structure and the mask that a reader of the extended fields learns. */
  function SentStructure(c: Context): Option<Structure> {
    if c.descriptor.structureAttached then Some(Transmitted(c.structure)) else None
  }

  function EffectiveTargets(c: Context): Option<nat> {
    if c.descriptor.activeDecodeTargets.Some? then c.descriptor.activeDecodeTargets
    else if c.descriptor.structureAttached then Some(Pow2(c.structure.decodeTargetCount) - 1)
    else None
  }

  lemma ReadAttachedInverts(c: Context, rest: seq<bool>)
    requires ValidContext(c)
    requires c.descriptor.structureAttached ==> LayersExpressible(c.structure.templates)
    ensures ReadOptionalStructure(c.descriptor.structureAttached, AttachedBits(c) + rest) ==
            Parsed(SentStructure(c), rest)
  {
    hide ReadStructure, StructureBits;
    if c.descriptor.structureAttached {
      ReadStructureInverts(c.structure, rest);
    } else {
      assert AttachedBits(c) + rest == rest;
    }
  }

  /** All that reading uses of a structure. */
  predicate ReadsAs(k: Structure, s: Structure) {
    && k.templateIdOffset == s.templateIdOffset && k.decodeTargetCount == s.decodeTargetCount
    && k.chainCount == s.chainCount && k.templates == s.templates
  }

  predicate Holds(known: Option<Structure>, s: Structure) {
    known.Some? && ReadsAs(known.value, s)
  }

  lemma ReadTargetsInverts(c: Context, known: Option<Structure>, rest: seq<bool>)
    requires ValidContext(c) && (c.descriptor.structureAttached || Holds(known, c.structure))
    ensures ReadTargets(TargetsPresent(c), SentStructure(c), known, MaskBits(c) + rest) ==
            Parsed(EffectiveTargets(c), rest)
  {
    if TargetsPresent(c) {
      ReadFieldInverts(c.descriptor.activeDecodeTargets.value, c.structure.decodeTargetCount, rest);
    } else {
      assert MaskBits(c) + rest == rest;
    }
  }

  lemma ExtendedBitsThen(c: Context, t: Template, rest: seq<bool>)
    requires ValidContext(c) && ValidTemplate(t, c.structure)
    ensures ExtendedBits(c, t) + rest ==
            Flag(c.descriptor.structureAttached) + (
              Flag(TargetsPresent(c)) + (
                Flag(CustomDtis(c, t)) + (
                  Flag(CustomFdiffs(c, t)) + (
                    Flag(CustomChains(c, t)) + (
                      AttachedBits(c) + (MaskBits(c) + rest))))))
    ensures |ExtendedBits(c, t)| >= 5
  {
    hide Flag, CustomDtis, CustomFdiffs, CustomChains, TargetsPresent, StructureBits, ToBits;
    var f1, f2, f3, f4, f5 :=
      Flag(c.descriptor.structureAttached), Flag(TargetsPresent(c)),
      Flag(CustomDtis(c, t)), Flag(CustomFdiffs(c, t)), Flag(CustomChains(c, t));
    var x := AttachedBits(c) + MaskBits(c);
    assert ExtendedBits(c, t) == f1 + (f2 + (f3 + (f4 + (f5 + x))));
    Assoc(f1, f2 + (f3 + (f4 + (f5 + x))), rest);
    FourThen(f2, f3, f4, f5 + x, rest);
    Assoc(f5, x, rest);
    Assoc(AttachedBits(c), MaskBits(c), rest);
    FlagLength(c.descriptor.structureAttached);
    FlagLength(TargetsPresent(c));
    FlagLength(CustomDtis(c, t));
    FlagLength(CustomFdiffs(c, t));
    FlagLength(CustomChains(c, t));
  }

  ghost function SentExtended(c: Context, t: Template): Extended
    requires ValidContext(c) && ValidTemplate(t, c.structure)
  {
    Extended(SentStructure(c), EffectiveTargets(c), CustomDtis(c, t), CustomFdiffs(c, t), CustomChains(c, t))
  }

  /** The extended fields are read back by a receiver that holds the structure or is being given it. */
  lemma ReadExtendedInverts(c: Context, t: Template, known: Option<Structure>, rest: seq<bool>)
    requires ValidContext(c) && ValidTemplate(t, c.structure)
    requires c.descriptor.structureAttached || Holds(known, c.structure)
    requires c.descriptor.structureAttached ==> LayersExpressible(c.structure.templates)
    ensures ReadExtended(known, ExtendedBits(c, t) + rest) == Parsed(SentExtended(c, t), rest)
  {
    hide Flag, ReadFlag, CustomDtis, CustomFdiffs, CustomChains, TargetsPresent, ExtendedBits, MaskBits;
    hide ReadOptionalStructure, ReadTargets, AttachedBits, EffectiveTargets, SentStructure, LayersExpressible;
    var b6 := MaskBits(c) + rest;
    var b5 := AttachedBits(c) + b6;
    var b4 := Flag(CustomChains(c, t)) + b5;
    var b3 := Flag(CustomFdiffs(c, t)) + b4;
    var b2 := Flag(CustomDtis(c, t)) + b3;
    var b1 := Flag(TargetsPresent(c)) + b2;
    ExtendedBitsThen(c, t, rest);
    ReadFlagInverts(c.descriptor.structureAttached, b1);
    ReadFlagInverts(TargetsPresent(c), b2);
    ReadFlagInverts(CustomDtis(c, t), b3);
    ReadFlagInverts(CustomFdiffs(c, t), b4);
    ReadFlagInverts(CustomChains(c, t), b5);
    ReadAttachedInverts(c, b6);
    ReadTargetsInverts(c, known, rest);
  }

  /** Agreement on the chains that are active; the others carry nothing. */
  predicate SameActiveChains(c: Context, chains: seq<nat>) {
    && |c.activeChains| == 32
    && |chains| == |c.descriptor.frame.chainDiffs| == c.structure.chainCount <= 32
    && forall i :: 0 <= i < c.structure.chainCount ==> c.activeChains[i] ==>
         chains[i] == c.descriptor.frame.chainDiffs[i]
  }

  /** The chain differences a reader ends up with. */
  ghost function SentChains(c: Context, t: Template): (r: seq<nat>)
    requires ValidContext(c) && ValidTemplate(t, c.structure)
    ensures SameActiveChains(c, r)
  {
    if CustomChains(c, t) then FrameChains(c) else t.chainDiffs
  }

  lemma ReadFrameInverts(c: Context, t: Template, s: Structure, e: Extended, rest: seq<bool>)
    requires ValidContext(c) && ValidTemplate(t, c.structure)
    requires s.decodeTargetCount == c.structure.decodeTargetCount && s.chainCount == c.structure.chainCount
    requires e.customDtis == CustomDtis(c, t) && e.customFdiffs == CustomFdiffs(c, t)
    requires e.customChains == CustomChains(c, t)
    ensures ReadFrame(e, s, t, FrameBits(c, t) + rest) ==
            Parsed(Template(t.spatialId, t.temporalId, c.descriptor.frame.dtis, c.descriptor.frame.frameDiffs,
                            SentChains(c, t)), rest)
  {
    hide ReadEach, ReadFrameFdiffs, Each, FrameFdiffs, FrameChains, CustomChains;
    var f := c.descriptor.frame;
    var x1 := if CustomDtis(c, t) then Each(f.dtis, 2) else [];
    var x2 := if CustomFdiffs(c, t) then FrameFdiffs(f.frameDiffs) else [];
    var x3 := if CustomChains(c, t) then Each(FrameChains(c), 8) else [];
    Assoc(x1, x2 + x3, rest);
    Assoc(x2, x3, rest);
    Pow2Values();
    assert [] + rest == rest && [] + (x3 + rest) == x3 + rest && [] + (x2 + (x3 + rest)) == x2 + (x3 + rest);
    ReadEachInverts(f.dtis, 2, x2 + (x3 + rest));
    ReadFrameFdiffsInverts(f.frameDiffs, x3 + rest);
    ReadEachInverts(FrameChains(c), 8, rest);
    assert Indications(f.dtis) == f.dtis;
  }

  // ---------------------------------------------------------------- the round trip

  /** What the receiver must end up with. */
  ghost predicate Recovers(c: Context, extended: bool, r: Parsed<Decoded>, rest: seq<bool>) {
    && var d := c.descriptor;
    && r.Parsed? && r.rest == rest
    && r.value.startOfFrame == d.startOfFrame && r.value.endOfFrame == d.endOfFrame
    && r.value.frameNumber == d.frameNumber
    && r.value.frame.SameLayer(d.frame)
    && r.value.frame.dtis == d.frame.dtis && r.value.frame.frameDiffs == d.frame.frameDiffs
    && SameActiveChains(c, r.value.frame.chainDiffs)
    && r.value.structure == (if extended then SentStructure(c) else None)
    && r.value.targets == (if extended then EffectiveTargets(c) else None)
  }

  lemma RoundTripExtended(c: Context, best: nat, known: Option<Structure>, pad: seq<bool>)
    requires ValidContext(c) && best < |c.structure.templates|
    requires c.descriptor.frame.SameLayer(c.structure.templates[best])
    requires HasExtendedFields(c, c.structure.templates[best])
    requires c.descriptor.structureAttached ==> LayersExpressible(c.structure.templates)
    requires c.descriptor.structureAttached || Holds(known, c.structure)
    ensures Recovers(c, true, Decode(known, DescriptorBits(c, best) + pad), pad)
  {
    hide MandatoryBits, ReadMandatory, ExtendedBits, ReadExtended, FrameBits, ReadFrame, HasExtendedFields, Decode;
    hide LayersExpressible, EffectiveTargets, SentChains, CustomDtis, CustomFdiffs, CustomChains, ValidContext;
    hide SentStructure, InForce, Holds, Transmitted, Recovers;
    TemplateIsValid(c, best);
    var t := c.structure.templates[best];
    var b2 := FrameBits(c, t) + pad;
    var b1 := ExtendedBits(c, t) + b2;
    Assoc(MandatoryBits(c, best), ExtendedBits(c, t) + FrameBits(c, t), pad);
    Assoc(ExtendedBits(c, t), FrameBits(c, t), pad);
    ReadMandatoryInverts(c, best, b1);
    ExtendedBitsThen(c, t, b2);
    ReadExtendedInverts(c, t, known, b2);
    ForceReads(c, known);
    var s := InForce(SentStructure(c), known).value;
    ReadFrameInverts(c, t, s, SentExtended(c, t), pad);
    TemplateFound(best, c.structure.templateIdOffset);
    var m := Mandatory(c.descriptor.startOfFrame, c.descriptor.endOfFrame,
                       (best + c.structure.templateIdOffset) % 64, c.descriptor.frameNumber);
    var frame := Template(t.spatialId, t.temporalId, c.descriptor.frame.dtis, c.descriptor.frame.frameDiffs, SentChains(c, t));
    DecodeIs(known, DescriptorBits(c, best) + pad, m, b1, SentExtended(c, t), b2, s, best, frame, pad);
    IsRecovered(c, t, frame, pad);
  }

  lemma TemplateIsValid(c: Context, best: nat)
    requires ValidContext(c) && best < |c.structure.templates|
    ensures ValidTemplate(c.structure.templates[best], c.structure)
    ensures best < 64 && c.structure.templateIdOffset < 64
  {
  }

  /** The reader, section by section. */
  lemma DecodeIs(known: Option<Structure>, b: seq<bool>, m: Mandatory, b1: seq<bool>, e: Extended, b2: seq<bool>,
                 s: Structure, best: nat, frame: Template, rest: seq<bool>)
    requires |b| > 24 && ReadMandatory(b) == Parsed(m, b1) && ReadExtended(known, b1) == Parsed(e, b2)
    requires InForce(e.structure, known) == Some(s) && best < |s.templates|
    requires (m.templateId + 64 - s.templateIdOffset) % 64 == best
    requires ReadFrame(e, s, s.templates[best], b2) == Parsed(frame, rest)
    ensures Decode(known, b) ==
            Parsed(Decoded(m.startOfFrame, m.endOfFrame, m.frameNumber, frame, e.structure, e.targets), rest)
  {
    hide ReadMandatory, ReadExtended, ReadFrame, InForce;
  }

  lemma IsRecovered(c: Context, t: Template, frame: Template, rest: seq<bool>)
    requires ValidContext(c) && ValidTemplate(t, c.structure) && c.descriptor.frame.SameLayer(t)
    requires frame == Template(t.spatialId, t.temporalId, c.descriptor.frame.dtis, c.descriptor.frame.frameDiffs, SentChains(c, t))
    ensures var d := c.descriptor;
            Recovers(c, true, Parsed(Decoded(d.startOfFrame, d.endOfFrame, d.frameNumber, frame,
                                             SentStructure(c), EffectiveTargets(c)), rest), rest)
  {
    hide SentChains, SentStructure, EffectiveTargets, ValidContext;
  }

  /** The structure in force reads as the one that was sent or held. */
  lemma ForceReads(c: Context, known: Option<Structure>)
    requires c.descriptor.structureAttached || Holds(known, c.structure)
    ensures var s := InForce(SentStructure(c), known); s.Some? && ReadsAs(s.value, c.structure)
  {
  }

  lemma TemplateFound(best: nat, offset: nat)
    requires best < 64 && offset < 64
    ensures ((best + offset) % 64 + 64 - offset) % 64 == best
  {
  }

  lemma RoundTripShort(c: Context, best: nat, known: Option<Structure>)
    requires ValidContext(c) && best < |c.structure.templates|
    requires c.descriptor.frame.SameLayer(c.structure.templates[best])
    requires !HasExtendedFields(c, c.structure.templates[best])
    requires Holds(known, c.structure)
    ensures |DescriptorBits(c, best)| == 24
    ensures Recovers(c, false, Decode(known, DescriptorBits(c, best)), [])
  {
    hide MandatoryBits, ReadMandatory, ReadExtended, FrameBits, ReadFrame;
    hide SentChains, CustomDtis, CustomFdiffs, CustomChains, ExtraSizeBits;
    var t := c.structure.templates[best];
    ExtraSizeIsExact(c, t);
    ReadMandatoryInverts(c, best, []);
    assert DescriptorBits(c, best) == MandatoryBits(c, best) + [];
    ReadFrameInverts(c, t, known.value, NoExtended, []);
    assert FrameBits(c, t) + [] == [];
  }

  /** The descriptor brings its structure along. */
  ghost predicate Delivers(c: Context)
    requires ValidContext(c) && HasLayer(c)
  {
    c.descriptor.structureAttached && HasExtendedFields(c, c.structure.templates[Chosen(c)])
  }

  /** A receiver that holds the structure, or one with any or no structure that is being given it. */
  ghost predicate CanRead(c: Context, known: Option<Structure>)
    requires ValidContext(c) && HasLayer(c)
  {
    Delivers(c) || Holds(known, c.structure)
  }

  ghost predicate WholeBytes(c: Context, pad: seq<bool>)
    requires ValidContext(c) && HasLayer(c)
  {
    |pad| < 8 && (|Encoding(c)| + |pad|) % 8 == 0
  }

  /**
    Every descriptor the writer accepts, padded to whole bytes, is read back by every receiver that
    holds its structure, and by every receiver at all when it brings the structure along: the flags,
    frame number, layer, decode target indications, frame differences, active chain differences,
    any attached structure and the mask in force.
   */
  lemma RoundTrip(c: Context, known: Option<Structure>, pad: seq<bool>)
    requires ValidContext(c) && Accepted(c) && CanRead(c, known) && WholeBytes(c, pad)
    ensures Recovers(c, HasExtendedFields(c, c.structure.templates[Chosen(c)]),
                     Decode(known, Encoding(c) + pad), pad)
  {
    hide DescriptorBits, Decode, Recovers, HasExtendedFields, LayersExpressible, Holds;
    var best := Chosen(c);
    var lo: nat, hi: nat :| IsRun(c, lo, hi) && IsBestIn(c, lo, hi, best);
    if HasExtendedFields(c, c.structure.templates[best]) {
      RoundTripExtended(c, best, known, pad);
    } else {
      RoundTripShort(c, best, known);
      assert pad == [];
      assert DescriptorBits(c, best) + pad == DescriptorBits(c, best);
    }
  }

  /**
    A receiver without any structure reads a descriptor if and only if the descriptor brings its
    structure along.
   */
  lemma FirstReadIff(c: Context, pad: seq<bool>)
    requires ValidContext(c) && Accepted(c) && WholeBytes(c, pad)
    ensures Decode(None, Encoding(c) + pad).Parsed? <==> Delivers(c)
  {
    if Delivers(c) {
      RoundTrip(c, None, pad);
      hide Decode, Encoding, ValidContext, Accepted, Delivers;
    } else {
      var best := Chosen(c);
      if HasExtendedFields(c, c.structure.templates[best]) {
        NothingWithout(c, best, pad);
      } else {
        NothingAtAll(Encoding(c) + pad, c, best, pad);
      }
    }
  }

  lemma NothingWithout(c: Context, best: nat, pad: seq<bool>)
    requires ValidContext(c) && best < |c.structure.templates|
    requires HasExtendedFields(c, c.structure.templates[best]) && !c.descriptor.structureAttached
    ensures !Decode(None, DescriptorBits(c, best) + pad).Parsed?
  {
    hide MandatoryBits, ReadMandatory, ExtendedBits, FrameBits, ReadFrame, HasExtendedFields;
    hide CustomDtis, CustomFdiffs, CustomChains;
    var t := c.structure.templates[best];
    var b2 := FrameBits(c, t) + pad;
    Assoc(MandatoryBits(c, best), ExtendedBits(c, t) + FrameBits(c, t), pad);
    Assoc(ExtendedBits(c, t), FrameBits(c, t), pad);
    ReadMandatoryInverts(c, best, ExtendedBits(c, t) + b2);
    ExtendedBitsThen(c, t, b2);
    NoStructureRead(c, t, b2);
    hide ReadExtended;
  }

  lemma NoStructureRead(c: Context, t: Template, rest: seq<bool>)
    requires ValidContext(c) && ValidTemplate(t, c.structure) && !c.descriptor.structureAttached
    ensures var r := ReadExtended(None, ExtendedBits(c, t) + rest); r.Parsed? ==> r.value.structure.None?
  {
    hide Flag, ReadFlag, CustomDtis, CustomFdiffs, CustomChains, TargetsPresent, ExtendedBits, MaskBits, ReadTargets;
    var b5 := AttachedBits(c) + (MaskBits(c) + rest);
    var b4 := Flag(CustomChains(c, t)) + b5;
    var b3 := Flag(CustomFdiffs(c, t)) + b4;
    var b2 := Flag(CustomDtis(c, t)) + b3;
    var b1 := Flag(TargetsPresent(c)) + b2;
    ExtendedBitsThen(c, t, rest);
    ReadFlagInverts(c.descriptor.structureAttached, b1);
  }

  lemma NothingAtAll(b: seq<bool>, c: Context, best: nat, pad: seq<bool>)
    requires ValidContext(c) && best < |c.structure.templates| && !HasExtendedFields(c, c.structure.templates[best])
    requires b == DescriptorBits(c, best) + pad && |pad| < 8 && |b| % 8 == 0
    ensures !Decode(None, b).Parsed?
  {
    hide MandatoryBits, FrameBits, ReadExtended, ReadFrame, ReadMandatory;
    ExtraSizeIsExact(c, c.structure.templates[best]);
    ReadMandatoryInverts(c, best, []);
    hide ExtraSizeBits;
    assert |DescriptorBits(c, best)| == 24;
    assert |b| == 24;
  }

  /**
    An attached structure reaches the receiver if and only if something else than its attachment
    calls for extended fields: the start of the frame, a mask, or a custom field.
   */
  lemma StructureArrivesIff(c: Context, known: Option<Structure>, pad: seq<bool>)
    requires ValidContext(c) && Accepted(c) && WholeBytes(c, pad)
    requires c.descriptor.structureAttached && CanRead(c, known)
    ensures var r := Decode(known, Encoding(c) + pad);
            r.Parsed? &&
            (r.value.structure == Some(Transmitted(c.structure)) <==>
             c.descriptor.startOfFrame || c.descriptor.activeDecodeTargets.Some? ||
             ExtraSizeBits(c, c.structure.templates[Chosen(c)]) > 0)
  {
    RoundTrip(c, known, pad);
    hide Decode, Encoding, ExtraSizeBits, ValidContext, Accepted, CanRead, Transmitted;
  }

  /** A second packet: the structure is attached, but neither start nor mask nor custom field calls for it. */
  const SecondPacket: Context :=
    var t := Template(0, 0, [0], [], []);
    Context(Descriptor(false, true, 7, t, None, true), seq(32, _ => false), Structure(0, 1, 0, [], [], [t]))

  /** Its structure is not sent, and a receiver without one reads nothing. */
  lemma UnsentStructureExample()
    ensures var c := SecondPacket;
            ValidContext(c) && Accepted(c) && c.descriptor.structureAttached && !Delivers(c)
    ensures !Decode(None, Encoding(SecondPacket)).Parsed?
  {
    var c := SecondPacket;
    assert ValidContext(c) by {
      assert Pow2(1) == 2;
    }
    assert c.descriptor.frame.SameLayer(c.structure.templates[0]);
    var t := c.structure.templates[Chosen(c)];
    assert Chosen(c) == 0;
    ExtraSizeIsExact(c, t);
    assert !HasExtendedFields(c, t);
    ReadMandatoryInverts(c, 0, []);
    hide MandatoryBits, ExtraSizeBits, ReadMandatory;
    assert |Encoding(c)| == 24;
    FirstReadIff(c, []);
    assert Encoding(c) + [] == Encoding(c);
  }

  // ---------------------------------------------------------------- a stream of descriptors

  /** What a receiver holds after a descriptor: the structure it brought, if it did. */
  function Learned(known: Option<Structure>, r: Parsed<Decoded>): Option<Structure> {
    if r.Parsed? then InForce(r.value.structure, known) else known
  }

  /** What it holds after the first `n` descriptors of a stream. */
  function KnownAfter(start: Option<Structure>, bs: seq<seq<bool>>, n: nat): Option<Structure>
    requires n <= |bs|
  {
    if n == 0 then start
    else
      var known := KnownAfter(start, bs, n - 1);
      Learned(known, Decode(known, bs[n - 1]))
  }

  /** Every context can be sent, and each change of structure, from what the receiver held at first, is delivered. */
  ghost predicate Announced(start: Option<Structure>, cs: seq<Context>) {
    forall i :: 0 <= i < |cs| ==> Announces(start, cs, i)
  }

  /** Context `i` brings its structure, or the structure before it serves. */
  ghost predicate Announces(start: Option<Structure>, cs: seq<Context>, i: nat)
    requires i < |cs|
  {
    && ValidContext(cs[i]) && Accepted(cs[i])
    && (Delivers(cs[i]) || if i == 0 then Holds(start, cs[0].structure) else ReadsAs(cs[i - 1].structure, cs[i].structure))
  }

  /** The bits on the wire are the padded encodings. */
  ghost predicate Encoded(cs: seq<Context>, bs: seq<seq<bool>>, pads: seq<seq<bool>>) {
    |bs| == |pads| == |cs| && forall i :: 0 <= i < |cs| ==> Encodes(cs[i], bs[i], pads[i])
  }

  ghost predicate Encodes(c: Context, b: seq<bool>, pad: seq<bool>) {
    ValidContext(c) && Accepted(c) && WholeBytes(c, pad) && b == Encoding(c) + pad
  }

  lemma LearnsStructure(c: Context, known: Option<Structure>, pad: seq<bool>)
    requires ValidContext(c) && Accepted(c) && CanRead(c, known) && WholeBytes(c, pad)
    ensures Holds(Learned(known, Decode(known, Encoding(c) + pad)), c.structure)
  {
    RoundTrip(c, known, pad);
    hide Decode, Encoding, ValidContext, Accepted, HasExtendedFields;
  }

  lemma {:induction false} ReceiverKeepsUp(start: Option<Structure>, cs: seq<Context>, bs: seq<seq<bool>>, pads: seq<seq<bool>>, n: nat)
    requires Announced(start, cs) && Encoded(cs, bs, pads) && n < |cs|
    ensures ValidContext(cs[n]) && Accepted(cs[n]) && CanRead(cs[n], KnownAfter(start, bs, n))
    ensures Holds(KnownAfter(start, bs, n + 1), cs[n].structure)
    decreases n
  {
    hide Decode, Encoding, ValidContext, Accepted, Delivers, WholeBytes, Learned;
    assert Announces(start, cs, n) && Encodes(cs[n], bs[n], pads[n]);
    if n > 0 {
      ReceiverKeepsUp(start, cs, bs, pads, n - 1);
    }
    LearnsStructure(cs[n], KnownAfter(start, bs, n), pads[n]);
  }

  /**
    The stream theorem: a receiver that starts with any structure or none and keeps the last one it
    has decoded recovers every descriptor of every stream in which each change of structure comes
    with a descriptor that delivers it.
   */
  lemma StreamRoundTrip(start: Option<Structure>, cs: seq<Context>, bs: seq<seq<bool>>, pads: seq<seq<bool>>, n: nat)
    requires Announced(start, cs) && Encoded(cs, bs, pads) && n < |cs|
    ensures ValidContext(cs[n]) && Accepted(cs[n])
    ensures Recovers(cs[n], HasExtendedFields(cs[n], cs[n].structure.templates[Chosen(cs[n])]),
                     Decode(KnownAfter(start, bs, n), bs[n]), pads[n])
  {
    ReceiverKeepsUp(start, cs, bs, pads, n);
    assert Encodes(cs[n], bs[n], pads[n]);
    hide Decode, Encoding, CanRead, Recovers, HasExtendedFields, KnownAfter, WholeBytes;
    RoundTrip(cs[n], KnownAfter(start, bs, n), pads[n]);
  }

  /** A mask is sent unless the structure comes along and all its decode targets are active. */
  lemma MaskIsSentIff(c: Context)
    requires ValidContext(c)
    ensures var targets, n := c.descriptor.activeDecodeTargets, c.structure.decodeTargetCount;
            |MaskBits(c)| == if targets.None? || (c.descriptor.structureAttached && targets.value + 1 == Pow2(n)) then 0 else n
  {
  }

  lemma ExtendedLength(c: Context, t: Template)
    requires ValidContext(c) && ValidTemplate(t, c.structure)
    ensures |ExtendedBits(c, t)| == 5 + |AttachedBits(c)| + |MaskBits(c)|
  {
    hide Flag, CustomDtis, CustomFdiffs, CustomChains, TargetsPresent, ExtendedBits, AttachedBits, MaskBits;
    ExtendedBitsThen(c, t, []);
    FlagLength(c.descriptor.structureAttached);
    FlagLength(TargetsPresent(c));
    FlagLength(CustomDtis(c, t));
    FlagLength(CustomFdiffs(c, t));
    FlagLength(CustomChains(c, t));
  }

  /** Choosing by the size estimate makes the whole descriptor as short as any template in the run would. */
  lemma ChosenIsShortest(c: Context, lo: nat, hi: nat, i: nat)
    requires ValidContext(c) && IsRun(c, lo, hi) && lo <= i < hi
    ensures HasLayer(c)
    ensures |Encoding(c)| <= |DescriptorBits(c, i)|
  {
    hide FrameBits, ExtendedBits, MandatoryBits, ExtraSizeBits, AttachedBits, MaskBits;
    assert c.descriptor.frame.SameLayer(c.structure.templates[lo]);
    var best := Chosen(c);
    var l: nat, h: nat :| IsRun(c, l, h) && IsBestIn(c, l, h, best);
    assert c.descriptor.frame.SameLayer(c.structure.templates[l]);
    assert l == lo;
    assert h == hi;
    var t, u := c.structure.templates[best], c.structure.templates[i];
    ReadMandatoryInverts(c, best, []);
    ReadMandatoryInverts(c, i, []);
    ExtendedLength(c, t);
    ExtendedLength(c, u);
    ExtraSizeIsExact(c, t);
    ExtraSizeIsExact(c, u);
  }
}
