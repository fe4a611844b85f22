/**
  Payload types for retransmission: `addRtx` and `disableRtx` of a media description
  (src/description.cpp) and the maps that the two ends build from it in `media()`.
 */
module RtxAllocation {
  import opened Bits
  import opened Options
  import opened RtpPacket
  import opened Rtx

  /** A format parameter: "apt=" and a number, or anything else. */
  datatype Parameter = Apt(primary: PayloadNumber) | Plain(text: string)

  datatype RtpMap = RtpMap(format: string, clockRate: nat, fmtps: seq<Parameter>) {
    predicate IsRtx() { format == "RTX" || format == "rtx" }
  }

  /** The codec list of a media section: the order in which it is offered, and the entries. */
  datatype Codecs = Codecs(order: seq<PayloadNumber>, maps: map<PayloadNumber, RtpMap>)

  // ---------------------------------------------------------------- reading

  /** The lowest entry from `from` on with the parameter "apt=primary". */
  function FirstApt(maps: map<PayloadNumber, RtpMap>, primary: PayloadNumber, from: nat): (r: Option<PayloadNumber>)
    ensures r.Some? ==> from <= r.value && r.value in maps && Apt(primary) in maps[r.value].fmtps
    ensures r.Some? ==> forall k :: from <= k < r.value && k in maps ==> Apt(primary) !in maps[k].fmtps
    ensures r.None? ==> forall k :: from <= k && k in maps ==> Apt(primary) !in maps[k].fmtps
    decreases 128 - from
  {
    if from >= 128 then None
    else if from in maps && Apt(primary) in maps[from].fmtps then Some(from)
    else FirstApt(maps, primary, from + 1)
  }

  /** `getRtxPayloadType` */
  function RtxFor(maps: map<PayloadNumber, RtpMap>, primary: PayloadNumber): Option<PayloadNumber> {
    FirstApt(maps, primary, 0)
  }

  /** The numbers of 96 to 127 that are not in use, ascending. */
  function Free(order: seq<PayloadNumber>, from: nat): (r: seq<PayloadNumber>)
    ensures forall k :: k in r <==> from <= k < 128 && k !in order
    decreases 128 - from
  {
    if from >= 128 then []
    else if from in order then Free(order, from + 1)
    else [from] + Free(order, from + 1)
  }

  /** `availablePayloadTypes` */
  function Available(order: seq<PayloadNumber>): seq<PayloadNumber> {
    Free(order, 96)
  }

  predicate NeedsRtx(c: Codecs, pt: PayloadNumber)
    requires pt in c.maps
  {
    !c.maps[pt].IsRtx() && RtxFor(c.maps, pt).None?
  }

  ghost predicate Consistent(c: Codecs) {
    && (forall pt :: pt in c.order <==> pt in c.maps)
    && (forall i, j :: 0 <= i < j < |c.order| ==> c.order[i] != c.order[j])
  }

  /** The codecs of a list that still need an RTX entry, in order. */
  function Needing(c: Codecs, order: seq<PayloadNumber>): (r: seq<PayloadNumber>)
    requires forall pt :: pt in order ==> pt in c.maps
    ensures forall pt :: pt in r ==> pt in order
  {
    if order == [] then []
    else
      var n := |order| - 1;
      Needing(c, order[..n]) + (if NeedsRtx(c, order[n]) then [order[n]] else [])
  }

  // ---------------------------------------------------------------- adding

  /** `addRtpMap`: a known number keeps its place and its entry. */
  function WithMap(c: Codecs, pt: PayloadNumber, m: RtpMap): Codecs {
    Codecs(if pt in c.order then c.order else c.order + [pt], if pt in c.maps then c.maps else c.maps[pt := m])
  }

  /** Only an unknown number is added, at the end of the order. */
  lemma WithMapIff(c: Codecs, pt: PayloadNumber, m: RtpMap)
    requires Consistent(c)
    ensures Consistent(WithMap(c, pt, m))
    ensures if pt in c.maps then WithMap(c, pt, m) == c
            else WithMap(c, pt, m) == Codecs(c.order + [pt], c.maps[pt := m])
  {
  }

  /** `addRtxCodec` */
  function RtxMap(primary: PayloadNumber, rate: nat): RtpMap {
    RtpMap("rtx", rate, [Apt(primary)])
  }

  function Rate(c: Codecs, pt: PayloadNumber, clockRate: Option<nat>): nat
    requires pt in c.maps
  {
    if clockRate.Some? then clockRate.value else c.maps[pt].clockRate
  }

  function Least(a: nat, b: nat): nat { if a < b then a else b }

  /** Each codec from the `i`-th on gets the next free number, while there are any. */
  function Paired(c: Codecs, needing: seq<PayloadNumber>, free: seq<PayloadNumber>, i: nat, clockRate: Option<nat>): Codecs
    requires forall pt :: pt in needing ==> pt in c.maps
    decreases |needing| - i
  {
    if i >= |needing| || i >= |free| then c
    else
      Paired(WithMap(c, free[i], RtxMap(needing[i], Rate(c, needing[i], clockRate))), needing, free, i + 1, clockRate)
  }

  lemma PairedStep(c: Codecs, needing: seq<PayloadNumber>, free: seq<PayloadNumber>, i: nat, clockRate: Option<nat>)
    requires (forall pt :: pt in needing ==> pt in c.maps) && i < |needing| && i < |free|
    ensures var c' := WithMap(c, free[i], RtxMap(needing[i], Rate(c, needing[i], clockRate)));
            && (forall pt :: pt in needing ==> pt in c'.maps)
            && Paired(c, needing, free, i, clockRate) == Paired(c', needing, free, i + 1, clockRate)
  {
  }

  lemma PairedEnd(c: Codecs, needing: seq<PayloadNumber>, free: seq<PayloadNumber>, i: nat, clockRate: Option<nat>)
    requires (forall pt :: pt in needing ==> pt in c.maps) && (i >= |needing| || i >= |free|)
    ensures Paired(c, needing, free, i, clockRate) == c
  {
  }

  /** What `addRtx` leaves of one audio or video section it applies to. */
  function WithRtx(c: Codecs, clockRate: Option<nat>): Codecs
    requires Consistent(c)
  {
    Paired(c, Needing(c, c.order), Available(c.order), 0, clockRate)
  }

  // ---------------------------------------------------------------- removing

  function Without(order: seq<PayloadNumber>, pt: PayloadNumber): (r: seq<PayloadNumber>)
    ensures forall x :: x in r <==> x in order && x != pt
  {
    if order == [] then []
    else Without(order[..|order| - 1], pt) + (if order[|order| - 1] == pt then [] else [order[|order| - 1]])
  }

  function WithoutAll(order: seq<PayloadNumber>, gone: seq<PayloadNumber>): seq<PayloadNumber>
    decreases |gone|
  {
    if gone == [] then order else WithoutAll(Without(order, gone[0]), gone[1..])
  }

  function WithoutEntry(c: Codecs, pt: PayloadNumber): Codecs {
    Codecs(Without(c.order, pt), c.maps - {pt})
  }

  /** The entries from `from` on whose "apt" is `pt` go. */
  function WithoutDependents(c: Codecs, pt: PayloadNumber, from: nat): Codecs
    decreases 128 - from
  {
    if from >= 128 then c
    else if from in c.maps && Apt(pt) in c.maps[from].fmtps then
      WithoutDependents(WithoutEntry(c, from), pt, from + 1)
    else WithoutDependents(c, pt, from + 1)
  }

  /** `removeRtpMap`: the entry goes, and those whose "apt" it is. */
  function Removed(c: Codecs, pt: PayloadNumber): Codecs {
    WithoutDependents(WithoutEntry(c, pt), pt, 0)
  }

  function RemovedAll(c: Codecs, gone: seq<PayloadNumber>): Codecs
    decreases |gone|
  {
    if gone == [] then c else RemovedAll(Removed(c, gone[0]), gone[1..])
  }

  /** The entries of a format, ascending. */
  function OfFormat(maps: map<PayloadNumber, RtpMap>, format: string, from: nat): (r: seq<PayloadNumber>)
    ensures forall k :: k in r <==> from <= k && k in maps && maps[k].format == format
    decreases 128 - from
  {
    if from >= 128 then []
    else if from in maps && maps[from].format == format then [from] + OfFormat(maps, format, from + 1)
    else OfFormat(maps, format, from + 1)
  }

  function WithoutFormat(c: Codecs, format: string): Codecs {
    RemovedAll(c, OfFormat(c.maps, format, 0))
  }

  /** `disableRtx`, as far as it concerns the codec list. */
  function Disabled(c: Codecs): Codecs {
    WithoutFormat(WithoutFormat(c, "RTX"), "rtx")
  }

  // ---------------------------------------------------------------- allocation

  /** A section without RTX: no such entry, and nothing that refers to another payload type. */
  ghost predicate WithoutRtx(c: Codecs) {
    && Consistent(c)
    && (forall pt :: pt in c.maps ==> !c.maps[pt].IsRtx())
    && (forall pt, q :: pt in c.maps ==> Apt(q) !in c.maps[pt].fmtps)
  }

  lemma {:induction false} FreeAscends(order: seq<PayloadNumber>, from: nat)
    ensures forall i, j :: 0 <= i < j < |Free(order, from)| ==> Free(order, from)[i] < Free(order, from)[j]
    decreases 128 - from
  {
    if from < 128 {
      FreeAscends(order, from + 1);
      var t := Free(order, from + 1);
      assert forall j :: 0 <= j < |t| ==> t[j] in t;
    }
  }

  lemma {:induction false} AllNeed(c: Codecs, order: seq<PayloadNumber>)
    requires WithoutRtx(c) && forall pt :: pt in order ==> pt in c.maps
    ensures Needing(c, order) == order
  {
    hide WithoutRtx, NeedsRtx, RtpMap.IsRtx, FirstApt;
    if order != [] {
      var n := |order| - 1;
      AllNeed(c, order[..n]);
      NeedsWithout(c, order[n]);
      assert Needing(c, order) == Needing(c, order[..n]) + [order[n]];
    }
  }

  lemma NeedsWithout(c: Codecs, pt: PayloadNumber)
    requires WithoutRtx(c) && pt in c.maps
    ensures NeedsRtx(c, pt)
  {
  }

  /** `r` is `c` with the first `k` codecs given the first `k` free numbers. */
  ghost predicate Allocated(c: Codecs, r: Codecs, free: seq<PayloadNumber>, k: nat) {
    && k <= |c.order| && k <= |free|
    && r.order == c.order + free[..k]
    && (forall pt :: pt in r.maps <==> pt in c.maps || pt in free[..k])
    && (forall pt :: pt in c.maps ==> pt in r.maps && r.maps[pt] == c.maps[pt])
    && (forall i :: 0 <= i < k ==> free[i] in r.maps && r.maps[free[i]].format == "rtx" && r.maps[free[i]].fmtps == [Apt(c.order[i])])
  }

  ghost predicate FreeOf(c: Codecs, free: seq<PayloadNumber>) {
    && (forall pt :: pt in free ==> pt !in c.order)
    && (forall i, j :: 0 <= i < j < |free| ==> free[i] != free[j])
  }

  /** `r` is `c` with entries for the first `k` codecs of a list, under the first `k` free numbers. */
  ghost predicate Given(c: Codecs, r: Codecs, needing: seq<PayloadNumber>, free: seq<PayloadNumber>, k: nat, clockRate: Option<nat>) {
    && k <= |needing| && k <= |free|
    && (forall i :: 0 <= i < |needing| ==> needing[i] in c.maps)
    && r.order == c.order + free[..k]
    && (forall pt :: pt in r.maps <==> pt in c.maps || pt in free[..k])
    && (forall pt :: pt in c.maps ==> pt in r.maps && r.maps[pt] == c.maps[pt])
    && (forall i :: 0 <= i < k ==>
          && free[i] in r.maps && r.maps[free[i]].format == "rtx" && r.maps[free[i]].fmtps == [Apt(needing[i])]
          && r.maps[free[i]].clockRate == if clockRate.Some? then clockRate.value else c.maps[needing[i]].clockRate)
  }

  lemma {:induction false} PairedGives(c: Codecs, r: Codecs, needing: seq<PayloadNumber>, free: seq<PayloadNumber>, i: nat, clockRate: Option<nat>)
    requires Consistent(c) && FreeOf(c, free) && Given(c, r, needing, free, i, clockRate)
    ensures forall pt :: pt in needing ==> pt in r.maps
    ensures Given(c, Paired(r, needing, free, i, clockRate), needing, free, Least(|needing|, |free|), clockRate)
    decreases |needing| - i
  {
    assert forall pt :: pt in needing ==> pt in r.maps;
    if i < |needing| && i < |free| {
      var rate := Rate(r, needing[i], clockRate);
      GiveOne(c, r, needing, free, i, clockRate);
      hide Given, FreeOf, Consistent, WithMap;
      PairedGives(c, WithMap(r, free[i], RtxMap(needing[i], rate)), needing, free, i + 1, clockRate);
    }
  }

  lemma GiveOne(c: Codecs, r: Codecs, needing: seq<PayloadNumber>, free: seq<PayloadNumber>, k: nat, clockRate: Option<nat>)
    requires Consistent(c) && FreeOf(c, free) && k < |needing| && k < |free| && Given(c, r, needing, free, k, clockRate)
    ensures needing[k] in r.maps
    ensures Given(c, WithMap(r, free[k], RtxMap(needing[k], Rate(r, needing[k], clockRate))), needing, free, k + 1, clockRate)
  {
    assert free[..k + 1] == free[..k] + [free[k]];
    assert free[k] in free && free[k] !in c.order && free[k] !in c.maps;
    assert free[k] !in free[..k];
    assert free[k] !in r.order;
  }

  lemma NothingGiven(c: Codecs, needing: seq<PayloadNumber>, free: seq<PayloadNumber>, clockRate: Option<nat>)
    requires forall pt :: pt in needing ==> pt in c.maps
    ensures Given(c, c, needing, free, 0, clockRate)
  {
    assert free[..0] == [];
  }

  /** The codecs that need an entry: neither RTX themselves nor referred to by one. */
  lemma {:induction false} NeedingIff(c: Codecs, order: seq<PayloadNumber>, pt: PayloadNumber)
    requires forall q :: q in order ==> q in c.maps
    ensures pt in Needing(c, order) <==>
            && pt in order && c.maps[pt].format != "RTX" && c.maps[pt].format != "rtx"
            && forall k :: k in c.maps ==> Apt(pt) !in c.maps[k].fmtps
  {
    hide FirstApt;
    if order != [] {
      var n := |order| - 1;
      NeedingIff(c, order[..n], pt);
      assert order == order[..n] + [order[n]];
    }
  }

  /**
    On any section `addRtx` gives the codecs that need it, in order and as long as there are any,
    distinct unused numbers in 96..127: entries that refer to the codec, at its clock rate or the
    one asked for.  Nothing else changes.
   */
  lemma AddRtxGives(c: Codecs, clockRate: Option<nat>)
    requires Consistent(c)
    ensures var needing, free := Needing(c, c.order), Available(c.order);
            && Given(c, WithRtx(c, clockRate), needing, free, Least(|needing|, |free|), clockRate)
            && FreeOf(c, free) && (forall pt :: pt in free <==> 96 <= pt < 128 && pt !in c.order)
  {
    AvailableIsFree(c);
    var needing, free := Needing(c, c.order), Available(c.order);
    NothingGiven(c, needing, free, clockRate);
    hide FreeOf, Given, Paired, Needing, Available;
    PairedGives(c, c, needing, free, 0, clockRate);
  }

  lemma GivenIsConsistent(c: Codecs, r: Codecs, needing: seq<PayloadNumber>, free: seq<PayloadNumber>, k: nat, clockRate: Option<nat>)
    requires Consistent(c) && FreeOf(c, free) && Given(c, r, needing, free, k, clockRate)
    ensures Consistent(r)
  {
    assert forall pt :: pt in free[..k] ==> pt in free;
  }

  /** With an entry for every codec that needs one, none needs one any more. */
  lemma NoneNeeds(c: Codecs, r: Codecs, needing: seq<PayloadNumber>, free: seq<PayloadNumber>, clockRate: Option<nat>, pt: PayloadNumber)
    requires Consistent(c) && needing == Needing(c, c.order) && Given(c, r, needing, free, |needing|, clockRate) && Consistent(r)
    ensures pt !in Needing(r, r.order)
  {
    NeedingIff(c, c.order, pt);
    NeedingIff(r, r.order, pt);
    hide Needing;
    if pt in r.order && pt in needing {
      var i :| 0 <= i < |needing| && needing[i] == pt;
      assert Apt(pt) in r.maps[free[i]].fmtps;
    } else if pt in r.order && pt !in c.order {
      var i :| 0 <= i < |needing| && free[i] == pt;
      assert r.maps[free[i]].format == "rtx";
    }
  }

  lemma Empty(s: seq<PayloadNumber>)
    requires forall pt :: pt !in s
    ensures s == []
  {
    if |s| > 0 {
      FirstIn(s);
    }
  }

  lemma AddToSatisfied(c: Codecs, clockRate: Option<nat>)
    requires Consistent(c) && Needing(c, c.order) == []
    ensures WithRtx(c, clockRate) == c
  {
    hide Available, Needing;
  }

  lemma AllSatisfied(c: Codecs, r: Codecs, free: seq<PayloadNumber>, clockRate: Option<nat>)
    requires Consistent(c) && FreeOf(c, free)
    requires var needing := Needing(c, c.order); Given(c, r, needing, free, |needing|, clockRate)
    ensures Consistent(r) && Needing(r, r.order) == []
  {
    var needing := Needing(c, c.order);
    GivenIsConsistent(c, r, needing, free, |needing|, clockRate);
    hide FreeOf, Given, Consistent, Needing;
    var left := Needing(r, r.order);
    forall pt | pt in left
      ensures false
    {
      NoneNeeds(c, r, needing, free, clockRate, pt);
    }
    Empty(left);
  }

  /** As long as there are numbers for all, `addRtx` once more changes nothing. */
  lemma AddAgain(c: Codecs, clockRate: Option<nat>, again: Option<nat>)
    requires Consistent(c) && |Needing(c, c.order)| <= |Available(c.order)|
    ensures var r := WithRtx(c, clockRate); Consistent(r) && WithRtx(r, again) == r
  {
    AddRtxGives(c, clockRate);
    hide FreeOf, Given, Consistent, Needing, Available, WithRtx;
    AllSatisfied(c, WithRtx(c, clockRate), Available(c.order), clockRate);
    AddToSatisfied(WithRtx(c, clockRate), again);
  }

  lemma AvailableIsFree(c: Codecs)
    ensures FreeOf(c, Available(c.order))
  {
    FreeAscends(c.order, 96);
    hide Free;
  }

  lemma GivenIsAllocated(c: Codecs, r: Codecs, free: seq<PayloadNumber>, k: nat, clockRate: Option<nat>)
    requires Given(c, r, c.order, free, k, clockRate)
    ensures Allocated(c, r, free, k)
  {
  }

  /**
    On a section without RTX, `addRtx` gives the first codecs distinct unused numbers in 96..127,
    in ascending order, as many as there are; nothing else changes.
   */
  lemma AddRtxAllocates(c: Codecs, clockRate: Option<nat>)
    requires WithoutRtx(c)
    ensures var free := Available(c.order);
            && Allocated(c, WithRtx(c, clockRate), free, Least(|c.order|, |free|))
            && FreeOf(c, free) && (forall pt :: pt in free <==> 96 <= pt < 128 && pt !in c.order)
  {
    AddRtxGives(c, clockRate);
    AllNeed(c, c.order);
    hide FreeOf, Paired, Needing, Available, WithoutRtx, WithRtx, Given, Allocated;
    GivenIsAllocated(c, WithRtx(c, clockRate), Available(c.order), Least(|c.order|, |Available(c.order)|), clockRate);
  }

  /** Whose "apt" an entry has: the codec's that was given its number. */
  lemma Owner(c: Codecs, r: Codecs, free: seq<PayloadNumber>, k: nat, pt: PayloadNumber, q: PayloadNumber) returns (i: nat)
    requires WithoutRtx(c) && Allocated(c, r, free, k) && pt in r.maps && Apt(q) in r.maps[pt].fmtps
    ensures i < k && free[i] == pt && c.order[i] == q
  {
    assert pt !in c.maps;
    i :| 0 <= i < k && free[i] == pt;
    assert r.maps[free[i]].fmtps == [Apt(c.order[i])];
  }

  /** Each codec finds the number it was given, and only those that were given one. */
  lemma RtxFound(c: Codecs, r: Codecs, free: seq<PayloadNumber>, k: nat, i: nat)
    requires WithoutRtx(c) && FreeOf(c, free) && Allocated(c, r, free, k) && i < |c.order|
    ensures RtxFor(r.maps, c.order[i]) == if i < k then Some(free[i]) else None
  {
    assert i < k ==> Apt(c.order[i]) in r.maps[free[i]].fmtps;
    var found := RtxFor(r.maps, c.order[i]);
    if found.Some? {
      var j := Owner(c, r, free, k, found.value, c.order[i]);
      assert j == i;
    }
  }

  /** An RTX number is no codec's primary. */
  lemma NoRtxForRtx(c: Codecs, r: Codecs, free: seq<PayloadNumber>, k: nat, i: nat)
    requires WithoutRtx(c) && FreeOf(c, free) && Allocated(c, r, free, k) && i < k
    ensures RtxFor(r.maps, free[i]) == None
  {
    assert free[i] in free;
    var found := RtxFor(r.maps, free[i]);
    if found.Some? {
      var j := Owner(c, r, free, k, found.value, free[i]);
    }
  }

  // ---------------------------------------------------------------- the maps of the two ends

  /** `RtcpNackResponder::media` */
  function ToRtx(c: Codecs, order: seq<PayloadNumber>): (r: PayloadTypes)
    ensures forall x :: x in r <==> x in order && RtxFor(c.maps, x).Some?
    ensures forall x :: x in r ==> Some(r[x]) == RtxFor(c.maps, x)
  {
    if order == [] then map[]
    else
      var n := |order| - 1;
      var before := ToRtx(c, order[..n]);
      var rtx := RtxFor(c.maps, order[n]);
      if rtx.Some? then before[order[n] := rtx.value] else before
  }

  /** `RtcpReceivingSession::media` */
  function ToPrimary(c: Codecs, order: seq<PayloadNumber>): (r: PayloadTypes)
    ensures forall y :: y in r ==> r[y] in order && RtxFor(c.maps, r[y]) == Some(y)
    ensures forall x :: x in order && RtxFor(c.maps, x).Some? ==> RtxFor(c.maps, x).value in r
  {
    if order == [] then map[]
    else
      var n := |order| - 1;
      var before := ToPrimary(c, order[..n]);
      var rtx := RtxFor(c.maps, order[n]);
      if rtx.Some? then before[rtx.value := order[n]] else before
  }

  /** `isRtxEnabled` */
  predicate RtxEnabled(c: Codecs) {
    exists pt :: pt in c.maps && c.maps[pt].IsRtx()
  }

  /** The sender's map as `media()` leaves it: empty unless the section has an RTX entry. */
  function SenderMap(c: Codecs): PayloadTypes {
    if RtxEnabled(c) then ToRtx(c, c.order) else map[]
  }

  /** The receiver's. */
  function ReceiverMap(c: Codecs): PayloadTypes {
    if RtxEnabled(c) then ToPrimary(c, c.order) else map[]
  }

  /** No two payload types share an RTX number. */
  ghost predicate NotShared(c: Codecs) {
    forall a, b :: a in c.order && b in c.order && RtxFor(c.maps, a).Some? && RtxFor(c.maps, a) == RtxFor(c.maps, b) ==> a == b
  }

  lemma EnabledIff(c: Codecs)
    ensures RtxEnabled(c) <==> !forall pt :: pt in c.maps ==> c.maps[pt].format != "RTX" && c.maps[pt].format != "rtx"
  {
    assert RtxEnabled(c) <==> !forall pt :: pt in c.maps ==> !c.maps[pt].IsRtx();
  }

  lemma TypesInverseIff(c: Codecs)
    ensures Inverse(ToRtx(c, c.order), ToPrimary(c, c.order)) <==> NotShared(c)
  {
    hide RtxFor, ToRtx, ToPrimary;
    var s, r := ToRtx(c, c.order), ToPrimary(c, c.order);
    if NotShared(c) {
      forall x, y
        ensures (x in s && s[x] == y) <==> (y in r && r[y] == x)
      {
        if x in s && s[x] == y {
          assert RtxFor(c.maps, r[y]) == RtxFor(c.maps, x);
        }
      }
    }
    if Inverse(s, r) {
      forall a, b | a in c.order && b in c.order && RtxFor(c.maps, a).Some? && RtxFor(c.maps, a) == RtxFor(c.maps, b)
        ensures a == b
      {
        assert a in s && b in s && s[a] == s[b];
      }
    }
  }

  /**
    The sender's and the receiver's maps undo each other if and only if the section has no RTX
    entry or no two payload types share an RTX number.
   */
  lemma InverseIff(c: Codecs)
    ensures Inverse(SenderMap(c), ReceiverMap(c)) <==>
            (forall pt :: pt in c.maps ==> c.maps[pt].format != "RTX" && c.maps[pt].format != "rtx") || NotShared(c)
  {
    TypesInverseIff(c);
    EnabledIff(c);
    hide ToRtx, ToPrimary, NotShared, RtxEnabled;
  }

  /** Two codecs with one RTX entry: the receiver can name only one of them. */
  const Sharing: Codecs :=
    Codecs([96, 97, 98], map[96 := RtpMap("VP8", 90000, []), 97 := RtpMap("VP9", 90000, []),
                             98 := RtpMap("rtx", 90000, [Apt(96), Apt(97)])])

  lemma SharedRtxExample()
    ensures RtxFor(Sharing.maps, 96) == RtxFor(Sharing.maps, 97) == Some(98)
    ensures !Inverse(SenderMap(Sharing), ReceiverMap(Sharing))
  {
    var c := Sharing;
    assert Apt(96) in c.maps[98].fmtps && Apt(97) in c.maps[98].fmtps && c.maps[98].IsRtx();
    hide FirstApt;
    var a, b := RtxFor(c.maps, 96), RtxFor(c.maps, 97);
    assert a == Some(98) && b == Some(98);
    assert !NotShared(c) by {
      assert 96 in c.order && 97 in c.order;
    }
    InverseIff(c);
  }

  lemma AllocatedNotShared(c: Codecs, r: Codecs, free: seq<PayloadNumber>, k: nat)
    requires WithoutRtx(c) && FreeOf(c, free) && Allocated(c, r, free, k)
    ensures NotShared(r)
  {
    forall a, b | a in r.order && b in r.order && RtxFor(r.maps, a).Some? && RtxFor(r.maps, a) == RtxFor(r.maps, b)
      ensures a == b
    {
      var i := Primary(c, r, free, k, a);
      var j := Primary(c, r, free, k, b);
      assert free[i] == free[j];
      assert i == j;
    }
  }

  lemma Primary(c: Codecs, r: Codecs, free: seq<PayloadNumber>, k: nat, a: PayloadNumber) returns (i: nat)
    requires WithoutRtx(c) && FreeOf(c, free) && Allocated(c, r, free, k)
    requires a in r.order && RtxFor(r.maps, a).Some?
    ensures i < |c.order| && c.order[i] == a && i < k && RtxFor(r.maps, a) == Some(free[i])
  {
    if a in free[..k] {
      var j :| 0 <= j < k && free[j] == a;
      NoRtxForRtx(c, r, free, k, j);
      assert false;
    }
    i :| 0 <= i < |c.order| && c.order[i] == a;
    RtxFound(c, r, free, k, i);
  }

  /** After `addRtx` on a section without RTX, the two ends agree. */
  lemma EndsAgree(c: Codecs, clockRate: Option<nat>)
    requires WithoutRtx(c)
    ensures var r := WithRtx(c, clockRate); Inverse(SenderMap(r), ReceiverMap(r))
  {
    AddRtxAllocates(c, clockRate);
    hide WithRtx, Available, WithoutRtx, FreeOf, Allocated;
    var r, free := WithRtx(c, clockRate), Available(c.order);
    AllocatedNotShared(c, r, free, Least(|c.order|, |free|));
    InverseIff(r);
  }

  // ---------------------------------------------------------------- removal

  /** Of the entries from `from` on exactly those with the "apt" go. */
  lemma {:induction false} DependentsGo(c: Codecs, pt: PayloadNumber, from: nat, q: PayloadNumber)
    ensures var r := WithoutDependents(c, pt, from);
            && (q in r.maps <==> q in c.maps && (q < from || Apt(pt) !in c.maps[q].fmtps))
            && (q in r.maps ==> r.maps[q] == c.maps[q])
            && (q in r.order <==> q in c.order && (q < from || q !in c.maps || Apt(pt) !in c.maps[q].fmtps))
    decreases 128 - from
  {
    hide Without;
    if from < 128 {
      DependentsGo(if from in c.maps && Apt(pt) in c.maps[from].fmtps then WithoutEntry(c, from) else c, pt, from + 1, q);
    }
  }

  /** `removeRtpMap` takes away the entry and those whose "apt" it is, and nothing else. */
  lemma RemovedIff(c: Codecs, pt: PayloadNumber, q: PayloadNumber)
    ensures var r := Removed(c, pt);
            && (q in r.maps <==> q in c.maps && q != pt && Apt(pt) !in c.maps[q].fmtps)
            && (q in r.maps ==> r.maps[q] == c.maps[q])
            && (q in r.order <==> q in c.order && q != pt && (q !in c.maps || Apt(pt) !in c.maps[q].fmtps))
  {
    hide Without, WithoutDependents;
    DependentsGo(WithoutEntry(c, pt), pt, 0, q);
  }

  /** Removing a list of numbers: what is left was there, is none of them and depends on none of them. */
  lemma {:induction false} RemovedAllIff(c: Codecs, gone: seq<PayloadNumber>, q: PayloadNumber)
    ensures var r := RemovedAll(c, gone);
            && (q in r.maps <==> q in c.maps && q !in gone && forall pt :: pt in gone ==> Apt(pt) !in c.maps[q].fmtps)
            && (q in r.maps ==> r.maps[q] == c.maps[q])
    decreases |gone|
  {
    hide Removed;
    if gone != [] {
      RemovedIff(c, gone[0], q);
      RemovedAllIff(Removed(c, gone[0]), gone[1..], q);
      assert gone == [gone[0]] + gone[1..];
    }
  }

  /** Removing a format leaves exactly the entries of other formats that depend on none of that format. */
  lemma FormatGoes(c: Codecs, format: string, q: PayloadNumber)
    ensures var r := WithoutFormat(c, format);
            && (q in r.maps <==>
                  q in c.maps && c.maps[q].format != format &&
                  forall pt :: pt in c.maps && c.maps[pt].format == format ==> Apt(pt) !in c.maps[q].fmtps)
            && (q in r.maps ==> r.maps[q] == c.maps[q])
  {
    hide RemovedAll, OfFormat;
    RemovedAllIff(c, OfFormat(c.maps, format, 0), q);
  }

  /** `disableRtx` leaves no RTX entry, and takes away no other entry that refers to none. */
  lemma DisabledHasNoRtx(c: Codecs, q: PayloadNumber)
    ensures q in Disabled(c).maps ==> q in c.maps && Disabled(c).maps[q] == c.maps[q] && !c.maps[q].IsRtx()
    ensures (&& q in c.maps && !c.maps[q].IsRtx()
             && forall pt :: pt in c.maps && c.maps[pt].IsRtx() ==> Apt(pt) !in c.maps[q].fmtps) ==> q in Disabled(c).maps
  {
    hide WithoutFormat;
    var d := WithoutFormat(c, "RTX");
    FormatGoes(c, "RTX", q);
    FormatGoes(d, "rtx", q);
    forall pt | pt in d.maps
      ensures pt in c.maps && d.maps[pt] == c.maps[pt]
    {
      FormatGoes(c, "RTX", pt);
    }
  }

  // ---------------------------------------------------------------- removal undoes allocation

  lemma {:induction false} WithoutAbsent(order: seq<PayloadNumber>, extra: seq<PayloadNumber>, pt: PayloadNumber)
    requires pt !in order
    ensures Without(order + extra, pt) == order + Without(extra, pt)
    decreases |order| + |extra|
  {
    var all := order + extra;
    if extra != [] {
      var n := |extra| - 1;
      assert all[..|all| - 1] == order + extra[..n];
      WithoutAbsent(order, extra[..n], pt);
    } else if order != [] {
      assert all == order;
      var n := |order| - 1;
      assert order[..n] + [] == order[..n] && order == order[..n] + [order[n]];
      WithoutAbsent(order[..n], [], pt);
    }
  }

  /** `r` is `c` and some entries behind it, which only refer to `c`'s. */
  ghost predicate Extends(c: Codecs, r: Codecs, extra: seq<PayloadNumber>) {
    && r.order == c.order + extra
    && (forall pt :: pt in extra ==> pt !in c.maps)
    && (forall pt :: pt in r.maps <==> pt in c.maps || pt in extra)
    && (forall pt :: pt in c.maps ==> pt in r.maps && r.maps[pt] == c.maps[pt])
    && (forall pt, q :: pt in r.maps && Apt(q) in r.maps[pt].fmtps ==> q in c.order)
  }

  lemma {:induction false} NoDependents(c: Codecs, pt: PayloadNumber, from: nat)
    requires forall k :: k in c.maps ==> Apt(pt) !in c.maps[k].fmtps
    ensures WithoutDependents(c, pt, from) == c
    decreases 128 - from
  {
    if from < 128 {
      NoDependents(c, pt, from + 1);
    }
  }

  lemma ExtendsLess(c: Codecs, r: Codecs, extra: seq<PayloadNumber>, pt: PayloadNumber)
    requires Extends(c, r, extra) && pt !in c.maps
    ensures Extends(c, Codecs(c.order + Without(extra, pt), r.maps - {pt}), Without(extra, pt))
  {
    hide Without;
  }

  /** Taking an entry away that is none of `c`'s takes it from behind. */
  lemma RemoveExtra(c: Codecs, r: Codecs, extra: seq<PayloadNumber>, pt: PayloadNumber)
    requires Consistent(c) && Extends(c, r, extra) && pt !in c.order
    ensures Extends(c, Removed(r, pt), Without(extra, pt))
  {
    assert pt !in c.maps && r.order == c.order + extra;
    assert forall k :: k in r.maps ==> Apt(pt) !in r.maps[k].fmtps;
    hide Without, WithoutDependents, Extends, Consistent;
    NoDependents(WithoutEntry(r, pt), pt, 0);
    WithoutAbsent(c.order, extra, pt);
    ExtendsLess(c, r, extra, pt);
  }

  lemma FirstIn(s: seq<PayloadNumber>)
    requires |s| > 0
    ensures s[0] in s
  {
  }

  lemma {:induction false} RemoveExtras(c: Codecs, r: Codecs, extra: seq<PayloadNumber>, gone: seq<PayloadNumber>)
    requires Consistent(c) && Extends(c, r, extra) && forall pt :: pt in gone ==> pt !in c.order
    ensures Extends(c, RemovedAll(r, gone), WithoutAll(extra, gone))
    decreases |gone|
  {
    if gone != [] {
      hide Extends, Removed, Without;
      assert gone[0] in gone;
      RemoveExtra(c, r, extra, gone[0]);
      RemoveExtras(c, Removed(r, gone[0]), Without(extra, gone[0]), gone[1..]);
    }
  }

  lemma {:induction false} NothingLeft(extra: seq<PayloadNumber>, gone: seq<PayloadNumber>)
    requires forall pt :: pt in extra ==> pt in gone
    ensures WithoutAll(extra, gone) == []
    decreases |gone|
  {
    if gone != [] {
      NothingLeft(Without(extra, gone[0]), gone[1..]);
    } else if |extra| > 0 {
      FirstIn(extra);
    }
  }

  /** `disableRtx` takes back what `addRtx` did: the codec list is as before, entries and order. */
  lemma DisableUndoesAdd(c: Codecs, clockRate: Option<nat>)
    requires WithoutRtx(c)
    ensures Disabled(WithRtx(c, clockRate)) == c
  {
    AddRtxAllocates(c, clockRate);
    hide WithRtx, Available;
    var r, free := WithRtx(c, clockRate), Available(c.order);
    var k := Least(|c.order|, |free|);
    RtxFormats(c, r, free, k);
    AllocatedExtends(c, r, free, k);
    var gone := OfFormat(r.maps, "rtx", 0);
    RemoveExtras(c, r, free[..k], gone);
    NothingLeft(free[..k], gone);
    hide Allocated, FreeOf, WithoutRtx;
    ExtendedByNone(c, RemovedAll(r, gone));
  }

  lemma ExtendedByNone(c: Codecs, r: Codecs)
    requires Extends(c, r, [])
    ensures r == c
  {
    assert r.maps == c.maps;
  }

  lemma AllocatedExtends(c: Codecs, r: Codecs, free: seq<PayloadNumber>, k: nat)
    requires WithoutRtx(c) && FreeOf(c, free) && Allocated(c, r, free, k)
    ensures Extends(c, r, free[..k])
  {
    forall pt, q | pt in r.maps && Apt(q) in r.maps[pt].fmtps
      ensures q in c.order
    {
      var j := Owner(c, r, free, k, pt, q);
    }
    assert forall pt :: pt in free[..k] ==> pt in free;
  }

  lemma FormatOf(c: Codecs, r: Codecs, free: seq<PayloadNumber>, k: nat, pt: PayloadNumber)
    requires WithoutRtx(c) && Allocated(c, r, free, k) && pt in r.maps
    ensures r.maps[pt].format != "RTX" && (r.maps[pt].format == "rtx" <==> pt !in c.maps)
  {
    if pt !in c.maps {
      var i :| 0 <= i < k && free[i] == pt;
      assert r.maps[free[i]].format == "rtx";
    }
  }

  lemma RtxFormats(c: Codecs, r: Codecs, free: seq<PayloadNumber>, k: nat)
    requires WithoutRtx(c) && FreeOf(c, free) && Allocated(c, r, free, k)
    ensures OfFormat(r.maps, "RTX", 0) == []
    ensures forall pt :: pt in OfFormat(r.maps, "rtx", 0) <==> pt in free[..k]
    ensures forall pt :: pt in OfFormat(r.maps, "rtx", 0) ==> pt !in c.order
  {
    hide OfFormat;
    forall pt | pt in r.maps
      ensures r.maps[pt].format != "RTX" && (r.maps[pt].format == "rtx" <==> pt !in c.maps)
    {
      FormatOf(c, r, free, k, pt);
    }
    assert forall pt :: pt in free[..k] ==> pt in free;
    var upper := OfFormat(r.maps, "RTX", 0);
    if |upper| > 0 {
      FirstIn(upper);
    }
  }

  /** The sender's map holds what was allocated. */
  lemma SenderHas(c: Codecs, clockRate: Option<nat>, i: nat)
    requires WithoutRtx(c) && i < |c.order| && i < |Available(c.order)|
    ensures var r := WithRtx(c, clockRate);
            var toRtx := SenderMap(r);
            c.order[i] in toRtx && toRtx[c.order[i]] == Available(c.order)[i]
  {
    AddRtxAllocates(c, clockRate);
    hide WithRtx, Available, WithoutRtx, Allocated, FreeOf, RtxFor, RtxEnabled;
    var r, free := WithRtx(c, clockRate), Available(c.order);
    var k := Least(|c.order|, |free|);
    RtxFound(c, r, free, k, i);
    AllocatedIsEnabled(c, r, free, k, i);
  }

  lemma AllocatedIsEnabled(c: Codecs, r: Codecs, free: seq<PayloadNumber>, k: nat, i: nat)
    requires Allocated(c, r, free, k) && i < k
    ensures RtxEnabled(r) && c.order[i] in r.order
  {
    assert free[i] in r.maps && r.maps[free[i]].IsRtx();
    assert r.order[i] == c.order[i];
  }

  /** A wrapped packet comes back. */
  ghost predicate Restores(toRtx: PayloadTypes, toPrimary: PayloadTypes, p: Bytes, rtxSsrc: U32, s: U16)
    requires Whole(p) && PayloadType(p) in toRtx
  {
    var w := Wrapped(p, rtxSsrc, toRtx[PayloadType(p)], s);
    Readable(w) && Unwrapped(Ssrc(p), toPrimary, w) == Restored(p)
  }

  /**
    Allocation and wrapping together: after `addRtx`, a packet of any codec that was given an RTX
    number is wrapped by the one end and restored by the other, byte for byte.
   */
  lemma RetransmissionRestores(c: Codecs, clockRate: Option<nat>, i: nat, p: Bytes, rtxSsrc: U32, s: U16)
    requires WithoutRtx(c) && i < |c.order| && i < |Available(c.order)|
    requires Whole(p) && Ssrc(p) != 0 && PayloadType(p) == c.order[i]
    ensures var r := WithRtx(c, clockRate);
            PayloadType(p) in SenderMap(r) && Restores(SenderMap(r), ReceiverMap(r), p, rtxSsrc, s)
  {
    SenderHas(c, clockRate, i);
    EndsAgree(c, clockRate);
    var r := WithRtx(c, clockRate);
    hide WithRtx, Available, WithoutRtx, Whole, Ssrc, Wrapped, Unwrapped, Readable, SenderMap, ReceiverMap, Inverse;
    RtxIdentity(p, rtxSsrc, SenderMap(r), ReceiverMap(r), s);
  }
}
