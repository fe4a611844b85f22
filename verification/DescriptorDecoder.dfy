/**
  A reader for Appendix A.8.2 of the AV1 RTP specification, written from the syntax tables
  alone, and the proof that it recovers what the writer was asked to send.
 */
module DescriptorDecoder {
  import opened Bits
  import opened NonSymmetric
  import opened DependencyDescriptor

  // ---------------------------------------------------------------- repeated fields

  function ReadFlag(b: seq<bool>): (r: Parsed<bool>)
    ensures r.Parsed? ==> |r.rest| == |b| - 1
  {
    var (v, b1) :- ReadField(1, b);
    Parsed(v == 1, b1)
  }

  lemma ReadFlagInverts(x: bool, rest: seq<bool>)
    ensures ReadFlag(Flag(x) + rest) == Parsed(x, rest)
  {
    assert Pow2(1) == 2;
    ReadFieldInverts(if x then 1 else 0, 1, rest);
  }

  function ReadEach(count: nat, width: nat, b: seq<bool>): (r: Parsed<seq<nat>>)
    ensures r.Parsed? ==> |r.value| == count && |r.rest| <= |b|
    decreases count
  {
    if count == 0 then Parsed([], b)
    else
      var (v, b1) :- ReadField(width, b);
      var (vs, b2) :- ReadEach(count - 1, width, b1);
      Parsed([v] + vs, b2)
  }

  lemma {:induction false} ReadEachInverts(values: seq<nat>, width: nat, rest: seq<bool>)
    requires AllBelow(values, Pow2(width))
    ensures ReadEach(|values|, width, Each(values, width) + rest) == Parsed(values, rest)
  {
    if values == [] {
      assert Each(values, width) + rest == rest;
    } else {
      var tail := Each(values[1..], width);
      Assoc(ToBits(values[0], width), tail, rest);
      ReadFieldInverts(values[0], width, tail + rest);
      ReadEachInverts(values[1..], width, rest);
      assert [values[0]] + values[1..] == values;
    }
  }

  function ReadEachNs(count: nat, n: nat, b: seq<bool>): (r: Parsed<seq<nat>>)
    requires n > 0
    ensures r.Parsed? ==> |r.value| == count && |r.rest| <= |b|
    decreases count
  {
    if count == 0 then Parsed([], b)
    else
      var (v, b1) :- ReadNs(n, b);
      var (vs, b2) :- ReadEachNs(count - 1, n, b1);
      Parsed([v] + vs, b2)
  }

  lemma {:induction false} ReadEachNsInverts(values: seq<nat>, n: nat, rest: seq<bool>)
    requires n > 0 && AllBelow(values, n)
    ensures ReadEachNs(|values|, n, EachNs(values, n) + rest) == Parsed(values, rest)
  {
    if values == [] {
      assert EachNs(values, n) + rest == rest;
    } else {
      var tail := EachNs(values[1..], n);
      Assoc(NsBits(values[0], n), tail, rest);
      ReadNsInverts(values[0], n, tail + rest);
      ReadEachNsInverts(values[1..], n, rest);
      assert [values[0]] + values[1..] == values;
    }
  }

  // ---------------------------------------------------------------- template_layers()

  /** The layers of the templates still to come, the next one being at (`sid`, `tid`). */
  function ReadLayers(sid: nat, tid: nat, b: seq<bool>): (r: Parsed<seq<(nat, nat)>>)
    ensures r.Parsed? ==> |r.rest| <= |b| && |r.value| > 0
    decreases |b|
  {
    var (idc, b1) :- ReadField(2, b);
    if idc == 3 then Parsed([(sid, tid)], b1)
    else
      var next := if idc == 0 then (sid, tid) else if idc == 1 then (sid, tid + 1) else (sid + 1, 0);
      var (layers, b2) :- ReadLayers(next.0, next.1, b1);
      Parsed([(sid, tid)] + layers, b2)
  }

  function Layers(ts: seq<Template>): (r: seq<(nat, nat)>)
    ensures |r| == |ts|
  {
    seq(|ts|, i requires 0 <= i < |ts| => (ts[i].spatialId, ts[i].temporalId))
  }

  lemma {:induction false} ReadLayersInverts(ts: seq<Template>, rest: seq<bool>)
    requires |ts| > 0 && LayersExpressible(ts)
    ensures ReadLayers(ts[0].spatialId, ts[0].temporalId, LayerBits(ts) + rest) == Parsed(Layers(ts), rest)
  {
    Pow2Values();
    if |ts| == 1 {
      ReadFieldInverts(3, 2, rest);
      assert Layers(ts) == [(ts[0].spatialId, ts[0].temporalId)];
    } else {
      var idc := NextLayerIdc(ts[0], ts[1]);
      var tail := LayerBits(ts[1..]);
      Assoc(ToBits(idc, 2), tail, rest);
      ReadFieldInverts(idc, 2, tail + rest);
      assert LayersExpressible(ts[1..]) by {
        assert forall i :: 1 <= i < |ts[1..]| ==> ts[1..][i - 1] == ts[i] && ts[1..][i] == ts[i + 1];
      }
      ReadLayersInverts(ts[1..], rest);
      assert [(ts[0].spatialId, ts[0].temporalId)] + Layers(ts[1..]) == Layers(ts);
    }
  }

  // ---------------------------------------------------------------- frame differences

  /** template_fdiffs() of one template. */
  function ReadTemplateFdiffs(b: seq<bool>): (r: Parsed<seq<nat>>)
    ensures r.Parsed? ==> |r.rest| < |b|
    decreases |b|
  {
    var (follows, b1) :- ReadFlag(b);
    if !follows then Parsed([], b1)
    else
      var (minusOne, b2) :- ReadField(4, b1);
      var (fs, b3) :- ReadTemplateFdiffs(b2);
      Parsed([minusOne + 1] + fs, b3)
  }

  lemma TemplateFdiffsThen(fs: seq<nat>, rest: seq<bool>)
    requires AllWithin(fs, 1, 16) && fs != []
    ensures TemplateFdiffs(fs) + rest ==
            Flag(true) + (ToBits(fs[0] - 1, 4) + (TemplateFdiffs(fs[1..]) + rest))
  {
    var one, field, tail := Flag(true), ToBits(fs[0] - 1, 4), TemplateFdiffs(fs[1..]);
    Pow2Values();
    JoinBits(1, fs[0] - 1, 1, 4);
    Assoc(one + field, tail, rest);
    Assoc(one, field, tail + rest);
  }

  lemma {:induction false} ReadTemplateFdiffsInverts(fs: seq<nat>, rest: seq<bool>)
    requires AllWithin(fs, 1, 16)
    ensures ReadTemplateFdiffs(TemplateFdiffs(fs) + rest) == Parsed(fs, rest)
  {
    hide ToBits, ReadField, ReadFlag, Pow2;
    if fs == [] {
      assert TemplateFdiffs(fs) == Flag(false);
      ReadFlagInverts(false, rest);
    } else {
      var tail := TemplateFdiffs(fs[1..]);
      var field := ToBits(fs[0] - 1, 4);
      Pow2Values();
      TemplateFdiffsThen(fs, rest);
      ReadFlagInverts(true, field + (tail + rest));
      ReadFieldInverts(fs[0] - 1, 4, tail + rest);
      ReadTemplateFdiffsInverts(fs[1..], rest);
      assert [fs[0]] + fs[1..] == fs;
    }
  }

  /** frame_fdiffs() */
  function ReadFrameFdiffs(b: seq<bool>): (r: Parsed<seq<nat>>)
    ensures r.Parsed? ==> |r.rest| < |b|
    decreases |b|
  {
    var (size, b1) :- ReadField(2, b);
    if size == 0 then Parsed([], b1)
    else
      var (minusOne, b2) :- ReadField(4 * size, b1);
      var (fs, b3) :- ReadFrameFdiffs(b2);
      Parsed([minusOne + 1] + fs, b3)
  }

  lemma FdiffField(f: nat)
    requires 1 <= f <= 4096
    ensures var w := FdiffWidth(f);
            && f - 1 < Pow2(w)
            && ToBits(Shl(w / 4, w) + (f - 1), 2 + w) == ToBits(w / 4, 2) + ToBits(f - 1, w)
  {
    Pow2Values();
    JoinBits(FdiffWidth(f) / 4, f - 1, 2, FdiffWidth(f));
  }

  lemma FrameFdiffsThen(fs: seq<nat>, rest: seq<bool>)
    requires AllWithin(fs, 1, 4096) && fs != []
    ensures var w := FdiffWidth(fs[0]);
            FrameFdiffs(fs) + rest == ToBits(w / 4, 2) + (ToBits(fs[0] - 1, w) + (FrameFdiffs(fs[1..]) + rest))
  {
    hide ToBits, Shl, Pow2;
    var w := FdiffWidth(fs[0]);
    var size, field, tail := ToBits(w / 4, 2), ToBits(fs[0] - 1, w), FrameFdiffs(fs[1..]);
    FdiffField(fs[0]);
    Assoc(size + field, tail, rest);
    Assoc(size, field, tail + rest);
  }

  lemma {:induction false} ReadFrameFdiffsInverts(fs: seq<nat>, rest: seq<bool>)
    requires AllWithin(fs, 1, 4096)
    ensures ReadFrameFdiffs(FrameFdiffs(fs) + rest) == Parsed(fs, rest)
  {
    Pow2Values();
    hide ToBits, ReadField, Pow2;
    if fs == [] {
      ReadFieldInverts(0, 2, rest);
    } else {
      var w := FdiffWidth(fs[0]);
      var tail := FrameFdiffs(fs[1..]);
      var size, field := ToBits(w / 4, 2), ToBits(fs[0] - 1, w);
      FrameFdiffsThen(fs, rest);
      ReadFieldInverts(w / 4, 2, field + (tail + rest));
      ReadFieldInverts(fs[0] - 1, w, tail + rest);
      ReadFrameFdiffsInverts(fs[1..], rest);
      assert [fs[0]] + fs[1..] == fs;
    }
  }

  // ---------------------------------------------------------------- per-template tables

  function ReadDtiTable(templates: nat, targets: nat, b: seq<bool>): (r: Parsed<seq<seq<nat>>>)
    ensures r.Parsed? ==> |r.value| == templates
    decreases templates
  {
    if templates == 0 then Parsed([], b)
    else
      var (row, b1) :- ReadEach(targets, 2, b);
      var (rows, b2) :- ReadDtiTable(templates - 1, targets, b1);
      Parsed([row] + rows, b2)
  }

  function ReadFdiffTable(templates: nat, b: seq<bool>): (r: Parsed<seq<seq<nat>>>)
    ensures r.Parsed? ==> |r.value| == templates
    decreases templates
  {
    if templates == 0 then Parsed([], b)
    else
      var (row, b1) :- ReadTemplateFdiffs(b);
      var (rows, b2) :- ReadFdiffTable(templates - 1, b1);
      Parsed([row] + rows, b2)
  }

  function ReadChainTable(templates: nat, chains: nat, b: seq<bool>): (r: Parsed<seq<seq<nat>>>)
    ensures r.Parsed? ==> |r.value| == templates
    decreases templates
  {
    if templates == 0 then Parsed([], b)
    else
      var (row, b1) :- ReadEach(chains, 4, b);
      var (rows, b2) :- ReadChainTable(templates - 1, chains, b1);
      Parsed([row] + rows, b2)
  }

  function Dtis(ts: seq<Template>): (r: seq<seq<nat>>)
    ensures |r| == |ts|
  {
    seq(|ts|, i requires 0 <= i < |ts| => ts[i].dtis)
  }

  function Fdiffs(ts: seq<Template>): (r: seq<seq<nat>>)
    ensures |r| == |ts|
  {
    seq(|ts|, i requires 0 <= i < |ts| => ts[i].frameDiffs)
  }

  function ChainDiffs(ts: seq<Template>): (r: seq<seq<nat>>)
    ensures |r| == |ts|
  {
    seq(|ts|, i requires 0 <= i < |ts| => ts[i].chainDiffs)
  }

  lemma {:induction false} ReadDtiTableInverts(ts: seq<Template>, targets: nat, rest: seq<bool>)
    requires forall i :: 0 <= i < |ts| ==> |ts[i].dtis| == targets
    ensures ReadDtiTable(|ts|, targets, TemplateDtiBits(ts) + rest) == Parsed(Dtis(ts), rest)
  {
    if ts == [] {
      assert TemplateDtiBits(ts) + rest == rest;
    } else {
      var tail := TemplateDtiBits(ts[1..]);
      Assoc(Each(ts[0].dtis, 2), tail, rest);
      Pow2Values();
      ReadEachInverts(ts[0].dtis, 2, tail + rest);
      ReadDtiTableInverts(ts[1..], targets, rest);
      assert [ts[0].dtis] + Dtis(ts[1..]) == Dtis(ts);
    }
  }

  lemma {:induction false} ReadFdiffTableInverts(ts: seq<Template>, rest: seq<bool>)
    requires FdiffsWithin(ts, 16)
    ensures ReadFdiffTable(|ts|, TemplateFdiffBits(ts) + rest) == Parsed(Fdiffs(ts), rest)
  {
    if ts == [] {
      assert TemplateFdiffBits(ts) + rest == rest;
    } else {
      var tail := TemplateFdiffBits(ts[1..]);
      Assoc(TemplateFdiffs(ts[0].frameDiffs), tail, rest);
      ReadTemplateFdiffsInverts(ts[0].frameDiffs, tail + rest);
      ReadFdiffTableInverts(ts[1..], rest);
      assert [ts[0].frameDiffs] + Fdiffs(ts[1..]) == Fdiffs(ts);
    }
  }

  lemma {:induction false} ReadChainTableInverts(ts: seq<Template>, chains: nat, rest: seq<bool>)
    requires forall i :: 0 <= i < |ts| ==> |ts[i].chainDiffs| == chains && AllBelow(ts[i].chainDiffs, 16)
    ensures ReadChainTable(|ts|, chains, TemplateChainDiffBits(ts) + rest) == Parsed(ChainDiffs(ts), rest)
  {
    if ts == [] {
      assert TemplateChainDiffBits(ts) + rest == rest;
    } else {
      var tail := TemplateChainDiffBits(ts[1..]);
      Assoc(Each(ts[0].chainDiffs, 4), tail, rest);
      Pow2Values();
      ReadEachInverts(ts[0].chainDiffs, 4, tail + rest);
      ReadChainTableInverts(ts[1..], chains, rest);
      assert [ts[0].chainDiffs] + ChainDiffs(ts[1..]) == ChainDiffs(ts);
    }
  }

  // ---------------------------------------------------------------- chains and resolutions

  function EmptyRows(n: nat): (r: seq<seq<nat>>)
    ensures |r| == n && forall i :: 0 <= i < n ==> r[i] == []
  {
    seq(n, _ => [])
  }

  datatype Chains = Chains(count: nat, protectedBy: seq<nat>, table: seq<seq<nat>>)

  /** template_chains(); without chains every template's row is empty. */
  function ReadChains(templates: nat, targets: nat, b: seq<bool>): (r: Parsed<Chains>)
    ensures r.Parsed? ==> |r.value.table| == templates
  {
    var (count, b1) :- ReadNs(targets + 1, b);
    if count == 0 then Parsed(Chains(0, [], EmptyRows(templates)), b1)
    else
      var (protectedBy, b2) :- ReadEachNs(targets, count, b1);
      var (table, b3) :- ReadChainTable(templates, count, b2);
      Parsed(Chains(count, protectedBy, table), b3)
  }

  lemma ReadChainParts(count: nat, protectedBy: seq<nat>, ts: seq<Template>, targets: nat, rest: seq<bool>)
    requires 0 < count <= targets == |protectedBy| && AllBelow(protectedBy, count)
    requires forall i :: 0 <= i < |ts| ==> |ts[i].chainDiffs| == count && AllBelow(ts[i].chainDiffs, 16)
    ensures ReadChains(|ts|, targets,
                       NsBits(count, targets + 1) + (EachNs(protectedBy, count) + (TemplateChainDiffBits(ts) + rest)))
            == Parsed(Chains(count, protectedBy, ChainDiffs(ts)), rest)
  {
    hide NsBits, ReadNs;
    var table := TemplateChainDiffBits(ts) + rest;
    ReadNsInverts(count, targets + 1, EachNs(protectedBy, count) + table);
    ReadEachNsInverts(protectedBy, count, table);
    ReadChainTableInverts(ts, count, rest);
  }

  lemma ReadSomeChains(s: Structure, rest: seq<bool>)
    requires ValidStructure(s) && s.chainCount != 0
    ensures ReadChains(|s.templates|, s.decodeTargetCount, ChainBits(s) + rest) ==
            Parsed(Chains(s.chainCount, s.protectedBy, ChainDiffs(s.templates)), rest)
  {
    hide NsBits, ReadNs, ReadChains;
    var count := NsBits(s.chainCount, s.decodeTargetCount + 1);
    var protection, table := EachNs(s.protectedBy, s.chainCount), TemplateChainDiffBits(s.templates);
    Assoc(count, protection + table, rest);
    Assoc(protection, table, rest);
    ReadChainParts(s.chainCount, s.protectedBy, s.templates, s.decodeTargetCount, rest);
  }

  lemma ReadNoChains(s: Structure, rest: seq<bool>)
    requires ValidStructure(s) && s.chainCount == 0
    ensures ReadChains(|s.templates|, s.decodeTargetCount, ChainBits(s) + rest) ==
            Parsed(Chains(0, [], ChainDiffs(s.templates)), rest)
  {
    hide NsBits, ReadNs;
    assert ChainBits(s) == NsBits(0, s.decodeTargetCount + 1);
    ReadNsInverts(0, s.decodeTargetCount + 1, rest);
    assert EmptyRows(|s.templates|) == ChainDiffs(s.templates);
  }

  function ReadResolutions(count: nat, b: seq<bool>): Parsed<seq<RenderResolution>>
    decreases count
  {
    if count == 0 then Parsed([], b)
    else
      var (w, b1) :- ReadField(16, b);
      var (h, b2) :- ReadField(16, b1);
      var (rs, b3) :- ReadResolutions(count - 1, b2);
      Parsed([RenderResolution(w + 1, h + 1)] + rs, b3)
  }

  lemma {:induction false} ReadResolutionsInverts(rs: seq<RenderResolution>, rest: seq<bool>)
    requires forall i :: 0 <= i < |rs| ==> 0 < rs[i].width <= 65536 && 0 < rs[i].height <= 65536
    ensures ReadResolutions(|rs|, ResolutionBits(rs) + rest) == Parsed(rs, rest)
  {
    if rs == [] {
      assert ResolutionBits(rs) + rest == rest;
    } else {
      var w, h, tail := ToBits(rs[0].width - 1, 16), ToBits(rs[0].height - 1, 16), ResolutionBits(rs[1..]);
      Pow2Values();
      Assoc(w, h + tail, rest);
      Assoc(h, tail, rest);
      ReadFieldInverts(rs[0].width - 1, 16, h + (tail + rest));
      ReadFieldInverts(rs[0].height - 1, 16, tail + rest);
      ReadResolutionsInverts(rs[1..], rest);
      assert [rs[0]] + rs[1..] == rs;
    }
  }

  // ---------------------------------------------------------------- template_dependency_structure()

  function Assemble(layers: seq<(nat, nat)>, dtis: seq<seq<nat>>, fdiffs: seq<seq<nat>>, chains: seq<seq<nat>>)
    : (ts: seq<Template>)
    requires |layers| == |dtis| == |fdiffs| == |chains|
    ensures |ts| == |layers|
  {
    seq(|layers|, i requires 0 <= i < |layers| =>
      Template(layers[i].0, layers[i].1, Indications(dtis[i]), fdiffs[i], chains[i]))
  }

  /** A two-bit field is always a decode target indication. */
  function Indications(row: seq<nat>): (r: seq<DecodeTargetIndication>)
    ensures |r| == |row| && (AllBelow(row, 4) ==> r == row)
  {
    seq(|row|, i requires 0 <= i < |row| => if row[i] < 4 then row[i] else 0)
  }

  datatype Tables = Tables(layers: seq<(nat, nat)>, dtis: seq<seq<nat>>, fdiffs: seq<seq<nat>>)

  /** template_layers(), template_dtis(), template_fdiffs() */
  function ReadTables(targets: nat, b: seq<bool>): (r: Parsed<Tables>)
    ensures r.Parsed? ==> |r.value.layers| == |r.value.dtis| == |r.value.fdiffs| > 0
  {
    var (layers, b1) :- ReadLayers(0, 0, b);
    var (dtis, b2) :- ReadDtiTable(|layers|, targets, b1);
    var (fdiffs, b3) :- ReadFdiffTable(|layers|, b2);
    Parsed(Tables(layers, dtis, fdiffs), b3)
  }

  function ReadStructure(b: seq<bool>): Parsed<Structure>
  {
    var (offset, b1) :- ReadField(6, b);
    var (targetsMinusOne, b2) :- ReadField(5, b1);
    var targets := targetsMinusOne + 1;
    var (tables, b3) :- ReadTables(targets, b2);
    var n := |tables.layers|;
    var (chains, b4) :- ReadChains(n, targets, b3);
    var (hasResolutions, b5) :- ReadFlag(b4);
    var (resolutions, b6) :- ReadResolutions(if hasResolutions then tables.layers[n - 1].0 + 1 else 0, b5);
    Parsed(Structure(offset, targets, chains.count, chains.protectedBy, resolutions,
                     Assemble(tables.layers, tables.dtis, tables.fdiffs, chains.table)), b6)
  }

  lemma ReadTablesInverts(s: Structure, rest: seq<bool>)
    requires ValidStructure(s) && Attachable(s) && LayersExpressible(s.templates)
    ensures ReadTables(s.decodeTargetCount,
                       LayerBits(s.templates) + (TemplateDtiBits(s.templates) + (TemplateFdiffBits(s.templates) + rest)))
            == Parsed(Tables(Layers(s.templates), Dtis(s.templates), Fdiffs(s.templates)), rest)
  {
    var b2 := TemplateFdiffBits(s.templates) + rest;
    ReadLayersInverts(s.templates, TemplateDtiBits(s.templates) + b2);
    ReadDtiTableInverts(s.templates, s.decodeTargetCount, b2);
    ReadFdiffTableInverts(s.templates, rest);
  }

  /** What a receiver can know of a structure: protection is not sent when there are no chains. */
  function Transmitted(s: Structure): Structure {
    if s.chainCount == 0 then s.(protectedBy := []) else s
  }

  lemma AssembleInverts(ts: seq<Template>)
    ensures Assemble(Layers(ts), Dtis(ts), Fdiffs(ts), ChainDiffs(ts)) == ts
  {
    var rs := Assemble(Layers(ts), Dtis(ts), Fdiffs(ts), ChainDiffs(ts));
    forall i | 0 <= i < |ts|
      ensures rs[i] == ts[i]
    {
      assert Indications(ts[i].dtis) == ts[i].dtis;
    }
  }

  /** The last three parts of the structure, which close over the tables before them. */
  lemma ReadStructureTail(s: Structure, rest: seq<bool>)
    requires ValidStructure(s) && Attachable(s)
    ensures var b5 := ChainBits(s) + (Flag(s.resolutions != []) + (ResolutionBits(s.resolutions) + rest));
            var chains := ReadChains(|s.templates|, s.decodeTargetCount, b5);
            && chains.Parsed?
            && chains.value == Chains(s.chainCount, Transmitted(s).protectedBy, ChainDiffs(s.templates))
            && var flag := ReadFlag(chains.rest);
            && flag.Parsed? && flag.value == (s.resolutions != [])
            && var last := s.templates[|s.templates| - 1].spatialId;
            && ReadResolutions(if flag.value then last + 1 else 0, flag.rest) == Parsed(s.resolutions, rest)
  {
    var r := ResolutionBits(s.resolutions) + rest;
    var f := Flag(s.resolutions != []) + r;
    if s.chainCount == 0 {
      ReadNoChains(s, f);
    } else {
      ReadSomeChains(s, f);
    }
    ReadFlagInverts(s.resolutions != [], r);
    ReadResolutionsInverts(s.resolutions, rest);
  }

  lemma StructureBitsThen(s: Structure, rest: seq<bool>)
    requires ValidStructure(s)
    ensures StructureBits(s) + rest ==
            ToBits(s.templateIdOffset, 6) + (
              ToBits(s.decodeTargetCount - 1, 5) + (
                LayerBits(s.templates) + (
                  TemplateDtiBits(s.templates) + (
                    TemplateFdiffBits(s.templates) + (
                      ChainBits(s) + (
                        Flag(s.resolutions != []) + (ResolutionBits(s.resolutions) + rest)))))))
  {
    hide ToBits, LayerBits, TemplateDtiBits, TemplateFdiffBits, ChainBits, ResolutionBits, Flag;
    var x7 := ResolutionBits(s.resolutions);
    var x6 := Flag(s.resolutions != []) + x7;
    var x5 := ChainBits(s) + x6;
    var x4 := TemplateFdiffBits(s.templates) + x5;
    var x3 := TemplateDtiBits(s.templates) + x4;
    var x2 := LayerBits(s.templates) + x3;
    var x1 := ToBits(s.decodeTargetCount - 1, 5) + x2;
    Assoc(ToBits(s.templateIdOffset, 6), x1, rest);
    Assoc(ToBits(s.decodeTargetCount - 1, 5), x2, rest);
    Assoc(LayerBits(s.templates), x3, rest);
    Assoc(TemplateDtiBits(s.templates), x4, rest);
    Assoc(TemplateFdiffBits(s.templates), x5, rest);
    Assoc(ChainBits(s), x6, rest);
    Assoc(Flag(s.resolutions != []), x7, rest);
  }

  lemma ReadStructureInverts(s: Structure, rest: seq<bool>)
    requires ValidStructure(s) && Attachable(s) && LayersExpressible(s.templates)
    ensures ReadStructure(StructureBits(s) + rest) == Parsed(Transmitted(s), rest)
  {
    hide ToBits, ReadField, ReadFlag, ReadTables, ReadChains, ReadResolutions, ChainBits, Dtis, Fdiffs, ChainDiffs;
    hide Assemble, StructureBits, Flag, Pow2;
    var ts := s.templates;
    StructureBitsThen(s, rest);
    var b6 := Flag(s.resolutions != []) + (ResolutionBits(s.resolutions) + rest);
    var b5 := ChainBits(s) + b6;
    var b4 := TemplateFdiffBits(ts) + b5;
    var b3 := TemplateDtiBits(ts) + b4;
    var b2 := LayerBits(ts) + b3;
    var b1 := ToBits(s.decodeTargetCount - 1, 5) + b2;
    Pow2Values();
    ReadFieldInverts(s.templateIdOffset, 6, b1);
    ReadFieldInverts(s.decodeTargetCount - 1, 5, b2);
    ReadTablesInverts(s, b5);
    ReadStructureTail(s, rest);
    AssembleInverts(ts);
  }
}
