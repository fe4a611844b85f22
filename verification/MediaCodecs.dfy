/**
  The codec list of a media description as the object that `addRtx` and `disableRtx` edit
  (src/description.cpp), and the loops that read it.
 */
module MediaCodecs {
  import opened Options
  import opened Rtx
  import opened RtxAllocation

  /** `getRtxPayloadType`: the entries are visited in ascending order. */
  method GetRtxPayloadType(maps: map<PayloadNumber, RtpMap>, primary: PayloadNumber) returns (r: Option<PayloadNumber>)
    ensures r == RtxFor(maps, primary)
  {
    for pt := 0 to 128
      invariant FirstApt(maps, primary, pt) == RtxFor(maps, primary)
    {
      if pt in maps && Apt(primary) in maps[pt].fmtps {
        return Some(pt);
      }
    }
    return None;
  }

  /** `availablePayloadTypes` */
  method AvailablePayloadTypes(order: seq<PayloadNumber>) returns (r: seq<PayloadNumber>)
    ensures r == Available(order)
  {
    r := [];
    for pt := 96 to 128
      invariant r + Free(order, pt) == Available(order)
    {
      if pt !in order {
        r := r + [pt];
      }
    }
  }

  /** `isRtxEnabled` */
  method IsRtxEnabled(maps: map<PayloadNumber, RtpMap>) returns (r: bool)
    ensures r <==> exists pt :: pt in maps && maps[pt].IsRtx()
  {
    for pt := 0 to 128
      invariant forall k :: k in maps && k < pt ==> !maps[k].IsRtx()
    {
      if pt in maps && maps[pt].IsRtx() {
        return true;
      }
    }
    return false;
  }

  /** `RtcpNackResponder::media`, the payload types. */
  method SenderTypes(c: Codecs) returns (r: PayloadTypes)
    ensures r == SenderMap(c)
  {
    hide ToRtx;
    r := map[];
    var enabled := IsRtxEnabled(c.maps);
    if enabled {
      r := SenderLoop(c);
    }
  }

  method SenderLoop(c: Codecs) returns (r: PayloadTypes)
    ensures r == ToRtx(c, c.order)
  {
    hide RtxFor, FirstApt;
    r := map[];
    for i := 0 to |c.order|
      invariant r == ToRtx(c, c.order[..i])
    {
      assert c.order[..i + 1][..i] == c.order[..i];
      var rtx := GetRtxPayloadType(c.maps, c.order[i]);
      if rtx.Some? {
        r := r[c.order[i] := rtx.value];
      }
    }
    assert c.order[..|c.order|] == c.order;
  }

  /** `RtcpReceivingSession::media`, the payload types. */
  method ReceiverTypes(c: Codecs) returns (r: PayloadTypes)
    ensures r == ReceiverMap(c)
  {
    hide ToPrimary;
    r := map[];
    var enabled := IsRtxEnabled(c.maps);
    if enabled {
      r := ReceiverLoop(c);
    }
  }

  method ReceiverLoop(c: Codecs) returns (r: PayloadTypes)
    ensures r == ToPrimary(c, c.order)
  {
    hide RtxFor, FirstApt;
    r := map[];
    for i := 0 to |c.order|
      invariant r == ToPrimary(c, c.order[..i])
    {
      assert c.order[..i + 1][..i] == c.order[..i];
      var rtx := GetRtxPayloadType(c.maps, c.order[i]);
      if rtx.Some? {
        r := r[rtx.value := c.order[i]];
      }
    }
    assert c.order[..|c.order|] == c.order;
  }

  class Media {
    var order: seq<PayloadNumber>
    var maps: map<PayloadNumber, RtpMap>

    function View(): Codecs
      reads this
    {
      Codecs(order, maps)
    }

    constructor (c: Codecs)
      ensures View() == c
    {
      order, maps := c.order, c.maps;
    }

    /** `addRtpMap` */
    method AddRtpMap(pt: PayloadNumber, m: RtpMap)
      modifies this
      ensures View() == WithMap(old(View()), pt, m)
    {
      if pt !in order {
        order := order + [pt];
      }
      if pt !in maps {
        maps := maps[pt := m];
      }
    }

    method CodecsNeedingRtx() returns (r: seq<PayloadNumber>)
      requires Consistent(View())
      ensures r == Needing(View(), order)
    {
      r := [];
      for i := 0 to |order|
        invariant forall pt :: pt in order[..i] ==> pt in maps
        invariant r == Needing(View(), order[..i])
      {
        assert order[i] in order;
        assert order[..i + 1][..i] == order[..i];
        if !maps[order[i]].IsRtx() {
          var rtx := GetRtxPayloadType(maps, order[i]);
          if rtx.None? {
            r := r + [order[i]];
          }
        }
      }
      assert order[..|order|] == order;
    }

    /** `addRtx` for this section. */
    method AddRtx(clockRate: Option<nat>)
      requires Consistent(View())
      modifies this
      ensures View() == WithRtx(old(View()), clockRate)
    {
      var needing := CodecsNeedingRtx();
      var free := AvailablePayloadTypes(order);
      PairUp(needing, free, clockRate);
    }

    /** The loop of `addRtx`: each codec takes the lowest number left. */
    method PairUp(needing: seq<PayloadNumber>, free: seq<PayloadNumber>, clockRate: Option<nat>)
      requires forall pt :: pt in needing ==> pt in maps
      modifies this
      ensures View() == Paired(old(View()), needing, free, 0, clockRate)
    {
      hide Paired;
      var i := 0;
      ghost var goal := Paired(View(), needing, free, 0, clockRate);
      while i < |needing| && i < |free|
        invariant forall pt :: pt in needing ==> pt in maps
        invariant Paired(View(), needing, free, i, clockRate) == goal
      {
        assert needing[i] in needing;
        var rate := if clockRate.Some? then clockRate.value else maps[needing[i]].clockRate;
        PairedStep(View(), needing, free, i, clockRate);
        AddRtpMap(free[i], RtxMap(needing[i], rate));
        i := i + 1;
      }
      PairedEnd(View(), needing, free, i, clockRate);
    }

    method Erase(pt: PayloadNumber)
      modifies this`order
      ensures order == Without(old(order), pt)
    {
      var kept := [];
      for i := 0 to |order|
        invariant kept == Without(order[..i], pt)
      {
        assert order[..i + 1][..i] == order[..i];
        if order[i] != pt {
          kept := kept + [order[i]];
        }
      }
      assert order[..|order|] == order;
      order := kept;
    }

    /** `removeRtpMap`: the entry, then those that depend on it. */
    method RemoveRtpMap(pt: PayloadNumber)
      modifies this
      ensures View() == Removed(old(View()), pt)
    {
      EraseEntry(pt);
      for k := 0 to 128
        invariant WithoutDependents(View(), pt, k) == Removed(old(View()), pt)
      {
        if k in maps && Apt(pt) in maps[k].fmtps {
          EraseEntry(k);
        }
      }
    }

    method EraseEntry(pt: PayloadNumber)
      modifies this
      ensures View() == WithoutEntry(old(View()), pt)
    {
      Erase(pt);
      maps := maps - {pt};
    }

    /** `removeFormat`: the entries are listed first, then removed one by one. */
    method RemoveFormat(format: string)
      modifies this
      ensures View() == WithoutFormat(old(View()), format)
    {
      var listed: seq<PayloadNumber> := [];
      for pt := 0 to 128
        invariant listed + OfFormat(maps, format, pt) == OfFormat(maps, format, 0)
      {
        if pt in maps && maps[pt].format == format {
          listed := listed + [pt];
        }
      }
      assert listed[0..] == listed == OfFormat(maps, format, 0);
      for i := 0 to |listed|
        invariant RemovedAll(View(), listed[i..]) == WithoutFormat(old(View()), format)
      {
        assert listed[i..][0] == listed[i] && listed[i..][1..] == listed[i + 1..];
        RemoveRtpMap(listed[i]);
      }
    }

    /** `disableRtx`, the codec list. */
    method DisableRtx()
      modifies this
      ensures View() == Disabled(old(View()))
    {
      RemoveFormat("RTX");
      RemoveFormat("rtx");
    }
  }
}
