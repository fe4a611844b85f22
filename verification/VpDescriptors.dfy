/**
  Complete payload descriptors, as any sender may write them: VP8 after section 4.2 of RFC 7741
  and VP9 after section 4.2 of RFC 9628.  The parsers of src/vp8rtpdepacketizer.cpp and
  src/vp9rtpdepacketizer.cpp find their ends.
 */
module VpDescriptors {
  import opened Options
  import opened Bits
  import opened RtpPacket
  import opened VpCodec

  function Flag(b: bool, weight: nat): nat { if b then weight else 0 }

  lemma Nibble(a: bool, b: bool, c: bool, d: bool)
    ensures var v := Flag(a, 8) + Flag(b, 4) + Flag(c, 2) + Flag(d, 1);
            v < 16 && HasBit(v, 8) == a && HasBit(v, 4) == b && HasBit(v, 2) == c && HasBit(v, 1) == d
  {
  }

  lemma TwoNibbles(h: nat, l: nat)
    requires h < 16 && l < 16
    ensures var x := 16 * h + l;
            && HasBit(x, 128) == HasBit(h, 8) && HasBit(x, 64) == HasBit(h, 4)
            && HasBit(x, 32) == HasBit(h, 2) && HasBit(x, 16) == HasBit(h, 1)
            && HasBit(x, 8) == HasBit(l, 8) && HasBit(x, 4) == HasBit(l, 4)
            && HasBit(x, 2) == HasBit(l, 2) && HasBit(x, 1) == HasBit(l, 1)
  {
    var x := 16 * h + l;
    assert x / 16 == h && x % 16 == l;
    assert x / 32 == h / 2 && x / 64 == h / 4 && x / 128 == h / 8;
    assert x / 8 == 2 * h + l / 8 && x / 4 == 4 * h + l / 4 && x / 2 == 8 * h + l / 2;
  }

  /** Seven bits, or fifteen behind a set bit. */
  datatype PictureId = Narrow(id: nat) | Wide(id: nat) {
    predicate Valid() { id < (if Narrow? then 128 else 32768) }

    function Bytes(): (r: seq<Byte>)
      requires Valid()
      ensures r != []
    {
      if Narrow? then [id] else [128 + id / 256, id % 256]
    }
  }

  function PictureIdBytes(p: Option<PictureId>): seq<Byte>
    requires p.Some? ==> p.value.Valid()
  {
    if p.Some? then p.value.Bytes() else []
  }

  function OptionalByte(b: Option<Byte>): seq<Byte> {
    if b.Some? then [b.value] else []
  }

  // ---------------------------------------------------------------- VP8

  /** The temporal layer: its index and whether it syncs. */
  datatype Layer = Layer(tid: nat, sync: bool)

  datatype Extension = Extension(
    pictureId: Option<PictureId>, tl0PicIdx: Option<Byte>,
    layer: Option<Layer>, keyIdx: Option<nat>, reserved: nat)
  {
    predicate Valid() {
      && (pictureId.Some? ==> pictureId.value.Valid())
      && (layer.Some? ==> layer.value.tid < 4)
      && (keyIdx.Some? ==> keyIdx.value < 32)
      && reserved < 16
    }

    /** |I|L|T|K| RSV | */
    function First(): Byte
      requires Valid()
    {
      Flag(pictureId.Some?, 128) + Flag(tl0PicIdx.Some?, 64) + Flag(layer.Some?, 32) + Flag(keyIdx.Some?, 16) + reserved
    }

    /** |TID|Y| KEYIDX | */
    function LayerByte(): Byte
      requires Valid()
    {
      (if layer.Some? then layer.value.tid * 64 + Flag(layer.value.sync, 32) else 0) +
      (if keyIdx.Some? then keyIdx.value else 0)
    }

    function Bytes(): seq<Byte>
      requires Valid()
    {
      [First()] + PictureIdBytes(pictureId) + OptionalByte(tl0PicIdx) +
      (if layer.Some? || keyIdx.Some? then [LayerByte()] else [])
    }
  }

  datatype Vp8 = Vp8(nonReference: bool, start: bool, partition: nat, extension: Option<Extension>) {
    predicate Valid() { partition < 8 && (extension.Some? ==> extension.value.Valid()) }

    /** |X|R|N|S|R| PID | */
    function First(): Byte
      requires Valid()
    {
      Flag(extension.Some?, 128) + Flag(nonReference, 32) + Flag(start, 16) + partition
    }

    function Bytes(): (r: seq<Byte>)
      requires Valid()
      ensures r != [] && r[0] == First()
    {
      [First()] + (if extension.Some? then extension.value.Bytes() else [])
    }
  }

  // ---------------------------------------------------------------- VP9

  /** The layer indices; the second byte is there in non-flexible mode only. */
  datatype Indices = Indices(layers: Byte, tl0PicIdx: Byte)

  datatype Resolution = Resolution(width: U16, height: U16)

  datatype PictureGroup = PictureGroup(tid: nat, switchUp: bool, reserved: nat, differences: seq<Byte>) {
    predicate Valid() { tid < 8 && reserved < 4 && |differences| < 4 }

    /** | TID |U| R |-|-| and the differences. */
    function Bytes(): (r: seq<Byte>)
      requires Valid()
      ensures |r| == 1 + |differences|
    {
      [tid * 32 + Flag(switchUp, 16) + |differences| * 4 + reserved] + differences
    }
  }

  function ResolutionBytes(rs: seq<Resolution>): (r: seq<Byte>)
    ensures |r| == 4 * |rs|
  {
    if rs == [] then [] else FromU16(rs[0].width) + FromU16(rs[0].height) + ResolutionBytes(rs[1..])
  }

  ghost predicate GroupsValid(gs: seq<PictureGroup>) {
    forall i :: 0 <= i < |gs| ==> gs[i].Valid()
  }

  ghost function GroupBytes(gs: seq<PictureGroup>): seq<Byte>
    requires GroupsValid(gs)
  {
    if gs == [] then [] else gs[0].Bytes() + GroupBytes(gs[1..])
  }

  /** `layers` spatial layers. */
  datatype Structure = Structure(layers: nat, resolutions: Option<seq<Resolution>>, groups: Option<seq<PictureGroup>>, reserved: nat) {
    ghost predicate Valid() {
      && 1 <= layers <= 8 && reserved < 8
      && (resolutions.Some? ==> |resolutions.value| == layers)
      && (groups.Some? ==> |groups.value| < 256 && GroupsValid(groups.value))
    }

    /** | N_S |Y|G|-|-|-| */
    ghost function First(): Byte
      requires Valid()
    {
      (layers - 1) * 32 + Flag(resolutions.Some?, 16) + Flag(groups.Some?, 8) + reserved
    }

    ghost function ResolutionPart(): seq<Byte> {
      if resolutions.Some? then ResolutionBytes(resolutions.value) else []
    }

    ghost function GroupPart(): seq<Byte>
      requires Valid()
    {
      if groups.Some? then [|groups.value|] + GroupBytes(groups.value) else []
    }

    ghost function Bytes(): (r: seq<Byte>)
      requires Valid()
      ensures r != []
    {
      [First()] + ResolutionPart() + GroupPart()
    }
  }

  /** | P_DIFF |N| */
  function ReferenceByte(d: nat, more: bool): Byte
    requires d < 128
  {
    d * 2 + Flag(more, 1)
  }

  /** Reference indices, each but the last announcing another. */
  function ReferenceBytes(ds: seq<nat>): (r: seq<Byte>)
    requires forall i :: 0 <= i < |ds| ==> ds[i] < 128
    ensures |r| == |ds|
  {
    seq(|ds|, i requires 0 <= i < |ds| => ReferenceByte(ds[i], i < |ds| - 1))
  }

  datatype Vp9 = Vp9(
    pictureId: Option<PictureId>, interPredicted: bool, indices: Option<Indices>, flexible: bool,
    start: bool, end: bool, notReference: bool, references: seq<nat>, structure: Option<Structure>)
  {
    ghost predicate Valid() {
      && (pictureId.Some? ==> pictureId.value.Valid())
      && (if interPredicted && flexible then 1 <= |references| <= 3 else references == [])
      && (forall i :: 0 <= i < |references| ==> references[i] < 128)
      && (structure.Some? ==> structure.value.Valid())
    }

    /** |I|P|L|F|B|E|V|Z| */
    function First(): Byte {
      Flag(pictureId.Some?, 128) + Flag(interPredicted, 64) + Flag(indices.Some?, 32) + Flag(flexible, 16) +
      Flag(start, 8) + Flag(end, 4) + Flag(structure.Some?, 2) + Flag(notReference, 1)
    }

    function IndexPart(): seq<Byte> {
      if indices.None? then []
      else if flexible then [indices.value.layers]
      else [indices.value.layers, indices.value.tl0PicIdx]
    }

    /** Everything in front of the reference indices. */
    function Front(): (r: seq<Byte>)
      requires pictureId.Some? ==> pictureId.value.Valid()
      ensures r != [] && r[0] == First()
    {
      [First()] + PictureIdBytes(pictureId) + IndexPart()
    }

    ghost function StructurePart(): seq<Byte>
      requires Valid()
    {
      if structure.Some? then structure.value.Bytes() else []
    }

    ghost function Bytes(): (r: seq<Byte>)
      requires Valid()
      ensures r != [] && r[0] == First()
    {
      Front() + ReferenceBytes(references) + StructurePart()
    }
  }

  // ---------------------------------------------------------------- prefixes

  /**
    A parser's step over a field `f` at position `n` of a payload: on to its end when it is all
    there, and stopped when it is not.
   */
  predicate Steps(p: seq<Byte>, n: nat, f: seq<Byte>, s: Size) {
    if n + |f| <= |p| then s == Size(n + |f|) else s == Truncated
  }

  /** As far as the payload goes, it holds `f` at position `n`. */
  predicate HoldsAt(p: seq<Byte>, n: nat, f: seq<Byte>) {
    forall i :: 0 <= i < |f| && n + i < |p| ==> p[n + i] == f[i]
  }

  lemma HoldsParts(p: seq<Byte>, n: nat, f: seq<Byte>, g: seq<Byte>)
    requires HoldsAt(p, n, f + g)
    ensures HoldsAt(p, n, f) && HoldsAt(p, n + |f|, g)
  {
    forall i | 0 <= i < |f| && n + i < |p|
      ensures p[n + i] == f[i]
    {
      assert (f + g)[i] == f[i];
    }
    forall i | 0 <= i < |g| && n + |f| + i < |p|
      ensures p[n + |f| + i] == g[i]
    {
      assert (f + g)[|f| + i] == g[i] && p[n + (|f| + i)] == (f + g)[|f| + i];
    }
  }

  lemma PictureIdSteps(p: seq<Byte>, n: nat, id: PictureId)
    requires id.Valid() && HoldsAt(p, n, id.Bytes())
    ensures Steps(p, n, id.Bytes(), AfterPictureId(p, n))
  {
    assert |p| > n ==> p[n + 0] == id.Bytes()[0];
  }

  /** One more byte, if present, behind what has been stepped over. */
  lemma OneMoreSteps(p: seq<Byte>, n: nat, f: seq<Byte>, present: bool, b: Byte, s: Size)
    requires Steps(p, n, f, s)
    ensures Steps(p, n, f + (if present then [b] else []), OneMore(p, present, s))
  {
  }

  // ---------------------------------------------------------------- VP8 descriptors

  lemma ExtensionFlags(e: Extension)
    requires e.Valid()
    ensures var x := e.First();
            && HasBit(x, 128) == e.pictureId.Some? && HasBit(x, 64) == e.tl0PicIdx.Some?
            && HasBit(x, 32) == e.layer.Some? && HasBit(x, 16) == e.keyIdx.Some?
  {
    hide HasBit;
    Nibble(e.pictureId.Some?, e.tl0PicIdx.Some?, e.layer.Some?, e.keyIdx.Some?);
    TwoNibbles(e.First() / 16, e.reserved);
  }

  lemma Vp8Flags(d: Vp8)
    requires d.Valid()
    ensures HasBit(d.First(), 128) == d.extension.Some? && HasBit(d.First(), 16) == d.start
  {
  }

  lemma ExtensionSteps(p: seq<Byte>, e: Extension)
    requires e.Valid() && |p| >= 2 && HasBit(p[0], 128) && HoldsAt(p, 1, e.Bytes())
    ensures Steps(p, 1, e.Bytes(), Vp8DescriptorSize(p))
  {
    hide HasBit, AfterPictureId, OneMore, HoldsAt, Steps, Extension.First, Extension.LayerByte, PictureIdBytes;
    ExtensionFlags(e);
    var f0, f1, f2 := [e.First()], PictureIdBytes(e.pictureId), OptionalByte(e.tl0PicIdx);
    var f3 := if e.layer.Some? || e.keyIdx.Some? then [e.LayerByte()] else [];
    HoldsParts(p, 1, f0 + f1 + f2, f3);
    HoldsParts(p, 1, f0 + f1, f2);
    HoldsParts(p, 1, f0, f1);
    assert p[1] == e.First() by { FirstHeld(p, 1, f0); }
    var s1 := if e.pictureId.Some? then AfterPictureId(p, 2) else Size(2);
    assert Steps(p, 1, f0 + f1, s1) by { PictureIdPart(p, 1, f0, e.pictureId); }
    OneMoreSteps(p, 1, f0 + f1, e.tl0PicIdx.Some?, if e.tl0PicIdx.Some? then e.tl0PicIdx.value else 0, s1);
    var s2 := OneMore(p, e.tl0PicIdx.Some?, s1);
    OneMoreSteps(p, 1, f0 + f1 + f2, e.layer.Some? || e.keyIdx.Some?, e.LayerByte(), s2);
  }

  lemma FirstHeld(p: seq<Byte>, n: nat, f: seq<Byte>)
    requires HoldsAt(p, n, f) && f != [] && n < |p|
    ensures p[n] == f[0]
  {
    assert p[n + 0] == f[0];
  }

  /** A first field that is there, then the picture id. */
  lemma PictureIdPart(p: seq<Byte>, n: nat, f: seq<Byte>, id: Option<PictureId>)
    requires id.Some? ==> id.value.Valid()
    requires n + |f| <= |p| && HoldsAt(p, n + |f|, PictureIdBytes(id))
    ensures Steps(p, n, f + PictureIdBytes(id), if id.Some? then AfterPictureId(p, n + |f|) else Size(n + |f|))
  {
    if id.Some? {
      PictureIdSteps(p, n + |f|, id.value);
    }
  }

  /** Whatever a payload starts with: of a descriptor it is all read, or found to be cut off. */
  lemma Vp8Reads(p: seq<Byte>, d: Vp8)
    requires d.Valid() && p != [] && HoldsAt(p, 0, d.Bytes())
    ensures Steps(p, 0, d.Bytes(), Vp8DescriptorSize(p)) && HasBit(p[0], 16) == d.start
  {
    hide HasBit, Vp8.First, Extension.Bytes, HoldsAt;
    Vp8Flags(d);
    FirstHeld(p, 0, d.Bytes());
    if d.extension.Some? && |p| >= 2 {
      var e := d.extension.value;
      HoldsParts(p, 0, [d.First()], e.Bytes());
      ExtensionSteps(p, e);
    } else if d.extension.Some? {
      ExtensionNonempty(d.extension.value);
    }
  }

  lemma ExtensionNonempty(e: Extension)
    requires e.Valid()
    ensures e.Bytes() != []
  {
  }

  // ---------------------------------------------------------------- VP9 descriptors

  lemma Vp9Flags(d: Vp9)
    ensures var b := d.First();
            && HasBit(b, 128) == d.pictureId.Some? && HasBit(b, 64) == d.interPredicted
            && HasBit(b, 32) == d.indices.Some? && HasBit(b, 16) == d.flexible
            && HasBit(b, 8) == d.start && HasBit(b, 4) == d.end
            && HasBit(b, 2) == d.structure.Some? && HasBit(b, 1) == d.notReference
  {
    hide HasBit;
    Nibble(d.pictureId.Some?, d.interPredicted, d.indices.Some?, d.flexible);
    Nibble(d.start, d.end, d.structure.Some?, d.notReference);
    TwoNibbles(d.First() / 16, d.First() % 16);
  }

  lemma StructureFlags(s: Structure)
    requires s.Valid()
    ensures var b := s.First();
            b / 32 == s.layers - 1 && HasBit(b, 16) == s.resolutions.Some? && HasBit(b, 8) == s.groups.Some?
  {
    var n, y, g, r := s.layers - 1, Flag(s.resolutions.Some?, 1), Flag(s.groups.Some?, 1), s.reserved;
    FiveBits(n, y, g, r);
  }

  lemma FiveBits(n: nat, y: nat, g: nat, r: nat)
    requires y < 2 && g < 2 && r < 8
    ensures var b := n * 32 + y * 16 + g * 8 + r; b / 32 == n && b / 16 % 2 == y && b / 8 % 2 == g
  {
    var b := n * 32 + y * 16 + g * 8 + r;
    var d := n * 2 + y;
    var c := d * 2 + g;
    assert b == c * 8 + r;
    assert b / 8 == c;
    assert b / 16 == c / 2 == d;
    assert b / 32 == d / 2 == n;
  }

  lemma GroupFlags(g: PictureGroup)
    requires g.Valid()
    ensures g.Bytes()[0] / 4 % 4 == |g.differences|
  {
  }

  lemma {:induction false} GroupsStep(p: seq<Byte>, n: nat, gs: seq<PictureGroup>)
    requires GroupsValid(gs) && n <= |p| && HoldsAt(p, n, GroupBytes(gs))
    ensures Steps(p, n, GroupBytes(gs), AfterGroups(p, n, |gs|))
    decreases |gs|
  {
    hide HoldsAt, PictureGroup.Bytes;
    if gs != [] {
      var g := gs[0];
      assert g.Valid();
      GroupFlags(g);
      HoldsParts(p, n, g.Bytes(), GroupBytes(gs[1..]));
      if n < |p| {
        FirstHeld(p, n, g.Bytes());
        if n + |g.Bytes()| <= |p| {
          GroupsStep(p, n + |g.Bytes()|, gs[1..]);
        }
      }
    }
  }

  lemma StructureSteps(p: seq<Byte>, n: nat, s: Structure)
    requires s.Valid() && HoldsAt(p, n, s.Bytes())
    ensures Steps(p, n, s.Bytes(), AfterStructure(p, n))
  {
    hide HoldsAt, HasBit, Structure.First, ResolutionBytes, AfterGroups;
    StructureFlags(s);
    var f0, f1 := [s.First()], s.ResolutionPart();
    HoldsParts(p, n, f0 + f1, s.GroupPart());
    HoldsParts(p, n, f0, f1);
    if n < |p| {
      FirstHeld(p, n, f0);
      var m := n + 1 + |f1|;
      if m < |p| && s.groups.Some? {
        var count := [|s.groups.value|];
        HoldsParts(p, m, count, GroupBytes(s.groups.value));
        FirstHeld(p, m, count);
        GroupsStep(p, m + 1, s.groups.value);
      }
    }
  }

  lemma LastBit(d: nat, more: bool)
    requires d < 128
    ensures HasBit(ReferenceByte(d, more), 1) == more
  {
  }

  /** Reference indices end where the payload ends. */
  lemma {:induction false} ReferencesStep(p: seq<Byte>, n: nat, ds: seq<nat>, k: nat, left: nat)
    requires (forall i :: 0 <= i < |ds| ==> ds[i] < 128) && k < |ds| <= k + left && n <= |p|
    requires HoldsAt(p, n, ReferenceBytes(ds)[k..])
    ensures AfterReferences(p, n, left) == if n + |ds| - k <= |p| then n + |ds| - k else |p|
    decreases left
  {
    if n < |p| {
      assert p[n + 0] == ReferenceBytes(ds)[k..][0] == ReferenceByte(ds[k], k < |ds| - 1);
      LastBit(ds[k], k < |ds| - 1);
      if k + 1 < |ds| {
        assert HoldsAt(p, n + 1, ReferenceBytes(ds)[k + 1..]) by {
          assert ReferenceBytes(ds)[k..] == [ReferenceBytes(ds)[k]] + ReferenceBytes(ds)[k + 1..];
          HoldsParts(p, n, [ReferenceBytes(ds)[k]], ReferenceBytes(ds)[k + 1..]);
        }
        ReferencesStep(p, n + 1, ds, k + 1, left - 1);
      }
    }
  }

  /** Picture id and layer indices. */
  lemma FrontSteps(p: seq<Byte>, d: Vp9)
    requires d.Valid() && p != [] && HoldsAt(p, 0, d.Front())
    ensures var s1 := if d.pictureId.Some? then AfterPictureId(p, 1) else Size(1);
            var s2 := OneMore(p, d.indices.Some?, s1);
            Steps(p, 0, d.Front(), OneMore(p, d.indices.Some? && !d.flexible, s2))
  {
    hide HasBit, AfterPictureId, OneMore, HoldsAt, Steps, Vp9.First, PictureIdBytes;
    var f0, f1 := [d.First()], PictureIdBytes(d.pictureId);
    HoldsParts(p, 0, f0 + f1, d.IndexPart());
    HoldsParts(p, 0, f0, f1);
    PictureIdPart(p, 0, f0, d.pictureId);
    var s1 := if d.pictureId.Some? then AfterPictureId(p, 1) else Size(1);
    var a, b := if d.indices.Some? then d.indices.value.layers else 0, if d.indices.Some? then d.indices.value.tl0PicIdx else 0;
    OneMoreSteps(p, 0, f0 + f1, d.indices.Some?, a, s1);
    var f2 := if d.indices.Some? then [a] else [];
    OneMoreSteps(p, 0, f0 + f1 + f2, d.indices.Some? && !d.flexible, b, OneMore(p, d.indices.Some?, s1));
    var f3 := if d.indices.Some? && !d.flexible then [b] else [];
    assert f0 + f1 + f2 + f3 == f0 + f1 + d.IndexPart();
  }

  /**
    Of a descriptor that is all there the parser finds the end; one that is cut off is found to
    be, except that reference indices at its very end are not missed.
   */
  lemma Vp9Reads(p: seq<Byte>, d: Vp9)
    requires d.Valid() && p != [] && HoldsAt(p, 0, d.Bytes())
    ensures HasBit(p[0], 8) == d.start
    ensures var s := Vp9DescriptorSize(p);
            if |d.Bytes()| <= |p| then s == Size(|d.Bytes()|)
            else if d.structure.None? && |d.Front()| <= |p| then s == Size(|p|)
            else s == Truncated
  {
    hide HasBit, AfterPictureId, OneMore, HoldsAt, Vp9.First, AfterReferences, AfterStructure, ReferenceBytes, Vp9.Front, Structure.Bytes;
    Vp9Flags(d);
    FirstHeld(p, 0, d.Bytes());
    var front, refs := d.Front(), ReferenceBytes(d.references);
    HoldsParts(p, 0, front + refs, d.StructurePart());
    HoldsParts(p, 0, front, refs);
    FrontSteps(p, d);
    if |front| <= |p| {
      var n := |front|;
      if d.references != [] {
        assert refs[0..] == refs;
        ReferencesStep(p, n, d.references, 0, 3);
      }
      var m := if n + |refs| <= |p| then n + |refs| else |p|;
      if d.structure.Some? {
        if m == n + |refs| {
          StructureSteps(p, m, d.structure.value);
        } else {
          NothingThere(p);
        }
      }
    }
  }

  lemma NothingThere(p: seq<Byte>)
    ensures AfterStructure(p, |p|) == Truncated
  {
  }

  // ---------------------------------------------------------------- the packetizers' own

  /**
    The packetizers' one-byte descriptors: VP8 sets N, and VP9 sets P, on frames whose first byte
    says that they are not key frames; S or B on the first packet, E (VP9) on the last.
   */
  lemma PacketizersDescriptor(frame: seq<Byte>, first: bool, last: bool)
    requires frame != []
    ensures [VP8.Descriptor(frame, first, last)] == Vp8(frame[0] % 2 == 1, first, 0, None).Bytes()
    ensures var inter := frame[0] / 8 % 2 == 0 && frame[0] / 4 % 2 == 1;
            [VP9.Descriptor(frame, first, last)] == Vp9(None, inter, None, false, first, last, false, [], None).Bytes()
  {
    var inter := frame[0] / 8 % 2 == 0 && frame[0] / 4 % 2 == 1;
    var d := Vp9(None, inter, None, false, first, last, false, [], None);
    assert ReferenceBytes([]) == [] && d.StructurePart() == [] && d.Front() == [d.First()];
  }

  // ---------------------------------------------------------------- either codec

  datatype Descriptor = ForVp8(vp8: Vp8) | ForVp9(vp9: Vp9) {
    ghost predicate Valid(vp: Vp) {
      if vp.VP8? then ForVp8? && vp8.Valid() else ForVp9? && vp9.Valid()
    }

    /** The start of a VP8 partition or a VP9 frame. */
    predicate Starts() { if ForVp8? then vp8.start else vp9.start }

    ghost function Bytes(vp: Vp): (r: seq<Byte>)
      requires Valid(vp)
      ensures r != []
    {
      if ForVp8? then vp8.Bytes() else vp9.Bytes()
    }
  }

  /** The parsers step over every descriptor, whatever is behind it, and see whether it starts a frame. */
  lemma DescriptorIsRead(vp: Vp, d: Descriptor, data: seq<Byte>)
    requires d.Valid(vp)
    ensures var p := d.Bytes(vp) + data;
            vp.DescriptorSize(p) == Size(|d.Bytes(vp)|) && vp.StartsFrame(p[0]) == d.Starts()
  {
    hide Vp8DescriptorSize, Vp9DescriptorSize, HasBit, Vp8.Bytes, Vp9.Bytes;
    var p := d.Bytes(vp) + data;
    if vp.VP8? {
      Vp8Reads(p, d.vp8);
    } else {
      Vp9Reads(p, d.vp9);
    }
  }

  /** Where a VP9 descriptor may be cut off unnoticed: behind its layer indices, with no structure to come. */
  ghost predicate Unnoticed(vp: Vp, d: Descriptor, k: nat)
    requires d.Valid(vp)
  {
    vp.VP9? && d.vp9.structure.None? && |d.vp9.Front()| <= k
  }

  /** A payload that ends inside its descriptor is given up, if and only if a field other than a reference index is missing. */
  lemma CutOffIff(vp: Vp, d: Descriptor, k: nat)
    requires d.Valid(vp) && 0 < k < |d.Bytes(vp)|
    ensures vp.DescriptorSize(d.Bytes(vp)[..k]) == if Unnoticed(vp, d, k) then Size(k) else Truncated
  {
    hide Vp8DescriptorSize, Vp9DescriptorSize, HasBit, Vp8.Bytes, Vp9.Bytes, Vp9.Front;
    var p := d.Bytes(vp)[..k];
    if vp.VP8? {
      Vp8Reads(p, d.vp8);
    } else {
      Vp9Reads(p, d.vp9);
    }
  }

  /** A first reference index that announces another, and nothing behind it. */
  lemma MissingReferenceExample()
    ensures var d := Vp9(None, true, None, true, true, true, false, [1, 2], None);
            && d.Valid() && d.Bytes() == [0x5C, 3, 4]
            && VP9.DescriptorSize([0x5C, 3]) == Size(2)
  {
    var d := Vp9(None, true, None, true, true, true, false, [1, 2], None);
    assert d.Front() == [0x5C];
    assert ReferenceBytes([1, 2]) == [3, 4];
    assert d.Bytes() == [0x5C, 3, 4];
    assert [0x5C, 3, 4][..2] == [0x5C, 3];
    hide Vp9DescriptorSize, Vp9.Front, Vp9.Bytes;
    CutOffIff(VP9, ForVp9(d), 2);
  }
}
