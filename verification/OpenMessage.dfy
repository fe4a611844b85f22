/**
  The DATA_CHANNEL_OPEN message of RFC 8832 as src/impl/datachannel.cpp writes and reads it.
 */
module OpenMessage {
  import opened Options
  import opened Bits
  import opened RtpPacket

  const MESSAGE_ACK: Byte := 2
  const MESSAGE_OPEN: Byte := 3
  const CHANNEL_RELIABLE: nat := 0
  const CHANNEL_REXMIT: nat := 1
  const CHANNEL_TIMED: nat := 2

  /** The deprecated way of asking for partial reliability. */
  datatype Legacy = LegacyReliable | LegacyRexmit(count: int) | LegacyTimed(milliseconds: int)

  datatype Reliability = Reliability(
    unordered: bool, maxPacketLifeTime: Option<int>, maxRetransmits: Option<U32>, legacy: Legacy)

  /** What a channel does in the end. */
  datatype Mode = Reliable | Rexmit(count: int) | Timed(milliseconds: int)

  function Effective(r: Reliability): (bool, Mode) {
    (r.unordered,
     if r.maxPacketLifeTime.Some? then Timed(r.maxPacketLifeTime.value)
     else if r.maxRetransmits.Some? then Rexmit(r.maxRetransmits.value)
     else
       match r.legacy
       case LegacyRexmit(n) => Rexmit(if n > 0 then n else 0)
       case LegacyTimed(ms) => Timed(ms)
       case LegacyReliable => Reliable)
  }

  function ChannelType(m: Mode): nat {
    match m case Reliable => CHANNEL_RELIABLE case Rexmit(_) => CHANNEL_REXMIT case Timed(_) => CHANNEL_TIMED
  }

  function Parameter(m: Mode): int {
    match m case Reliable => 0 case Rexmit(n) => n case Timed(ms) => ms
  }

  /** The 16- and 32-bit conversions do not throw. */
  predicate Sendable(name: Bytes, protocol: Bytes, r: Reliability) {
    |name| < 65536 && |protocol| < 65536 && 0 <= Parameter(Effective(r).1) < 0x1_0000_0000
  }

  /** The message that `OutgoingDataChannel::open` sends. */
  function Encode(name: Bytes, protocol: Bytes, r: Reliability): Bytes
    requires Sendable(name, protocol, r)
  {
    var (unordered, mode) := Effective(r);
    [MESSAGE_OPEN, ChannelType(mode) + (if unordered then 128 else 0)] + FromU16(0) +
    FromU32(Parameter(mode)) + FromU16(|name|) + FromU16(|protocol|) + name + protocol
  }

  datatype Opened = Opened(name: Bytes, protocol: Bytes, reliability: Reliability) | Invalid

  /** `int(x)` of an unsigned 32-bit value. */
  function Signed(x: U32): int { if x < 0x8000_0000 then x else x - 0x1_0000_0000 }

  function DecodeReliability(channelType: Byte, parameter: U32): Reliability {
    var kind := channelType % 128;
    Reliability(
      channelType / 128 == 1,
      if kind == CHANNEL_TIMED then Some(parameter) else None,
      if kind == CHANNEL_REXMIT then Some(parameter) else None,
      if kind == CHANNEL_REXMIT then LegacyRexmit(Signed(parameter))
      else if kind == CHANNEL_TIMED then LegacyTimed(parameter)
      else LegacyReliable)
  }

  /** `IncomingDataChannel::processOpenMessage`, up to the reply; invalid where it throws. */
  function Decode(m: Bytes): Opened {
    if |m| < 12 then Invalid
    else
      var n, k := U16At(m, 8), U16At(m, 10);
      if |m| < 12 + n + k then Invalid
      else Opened(m[12..12 + n], m[12 + n..12 + n + k], DecodeReliability(m[1], U32At(m, 4)))
  }

  /** Channel type and parameter on the wire, by the numbers of section 5.1 of RFC 8832. */
  function OnTheWire(r: Reliability): (int, int) {
    if r.maxPacketLifeTime.Some? then (2, r.maxPacketLifeTime.value)
    else if r.maxRetransmits.Some? then (1, r.maxRetransmits.value)
    else if r.legacy.LegacyRexmit? then (1, if r.legacy.count < 0 then 0 else r.legacy.count)
    else if r.legacy.LegacyTimed? then (2, r.legacy.milliseconds)
    else (0, 0)
  }

  /** The message on the wire. */
  lemma EncodedFields(name: Bytes, protocol: Bytes, r: Reliability)
    requires Sendable(name, protocol, r)
    ensures var m := Encode(name, protocol, r);
            && |m| == 12 + |name| + |protocol|
            && m[0] == 3 && m[1] == OnTheWire(r).0 + (if r.unordered then 128 else 0) && m[2] == 0 && m[3] == 0
            && U32At(m, 4) == OnTheWire(r).1 && U16At(m, 8) == |name| && U16At(m, 10) == |protocol|
            && m[12..12 + |name|] == name && m[12 + |name|..] == protocol
  {
    ModeOnTheWire(r);
    hide FromU16, FromU32, U16At, U32At, Effective, OnTheWire;
    var m, mode := Encode(name, protocol, r), Effective(r).1;
    var front := [m[0], m[1]] + FromU16(0);
    var p, n, k := FromU32(Parameter(mode)), FromU16(|name|), FromU16(|protocol|);
    assert m == front + p + n + k + name + protocol;
    Fields(front, p, n, k, name, protocol);
    ReadU32(m, 4, Parameter(mode));
    ReadU16(m, 8, |name|);
    ReadU16(m, 10, |protocol|);
    assert m[2] == FromU16(0)[0] && m[3] == FromU16(0)[1];
    assert FromU16(0) == [0, 0] by { Zero(); }
  }

  lemma ModeOnTheWire(r: Reliability)
    ensures var (unordered, mode) := Effective(r);
            unordered == r.unordered && ChannelType(mode) == OnTheWire(r).0 && Parameter(mode) == OnTheWire(r).1
  {
  }

  lemma Zero()
    ensures FromU16(0) == [0, 0]
  {
  }

  /** Where the fields of a message lie. */
  lemma Fields(front: Bytes, p: Bytes, n: Bytes, k: Bytes, name: Bytes, protocol: Bytes)
    requires |front| == |p| == 4 && |n| == |k| == 2
    ensures var m := front + p + n + k + name + protocol;
            && m[4..8] == p && m[8..10] == n && m[10..12] == k
            && m[12..12 + |name|] == name && m[12 + |name|..] == protocol
  {
  }

  /** The receiver obtains the same label and protocol and a reliability of the same effect. */
  lemma OpenRoundTrip(name: Bytes, protocol: Bytes, r: Reliability)
    requires Sendable(name, protocol, r)
    ensures var d := Decode(Encode(name, protocol, r));
            && d.Opened? && d.name == name && d.protocol == protocol
            && Effective(d.reliability) == Effective(r)
            && d.reliability.unordered == r.unordered
            && d.reliability.maxPacketLifeTime ==
               (match Effective(r).1 case Timed(ms) => Some(ms) case _ => None)
            && d.reliability.maxRetransmits ==
               (match Effective(r).1 case Rexmit(n) => Some(n) case _ => None)
            && d.reliability.legacy == (
                 match Effective(r).1
                 case Reliable => LegacyReliable
                 case Rexmit(n) => LegacyRexmit(if n < 0x8000_0000 then n else n - 0x1_0000_0000)
                 case Timed(ms) => LegacyTimed(ms))
  {
    hide Encode;
    EncodedFields(name, protocol, r);
    var m := Encode(name, protocol, r);
    assert m[12 + |name|..12 + |name| + |protocol|] == m[12 + |name|..];
  }

  /** Bytes behind the message are not looked at, and a message that is cut off is refused. */
  lemma DecodeCut(name: Bytes, protocol: Bytes, r: Reliability, rest: Bytes, k: nat)
    requires Sendable(name, protocol, r) && k < |Encode(name, protocol, r)|
    ensures Decode(Encode(name, protocol, r) + rest) == Decode(Encode(name, protocol, r))
    ensures Decode(Encode(name, protocol, r)[..k]) == Invalid
  {
    hide Encode, DecodeReliability;
    EncodedFields(name, protocol, r);
    var m := Encode(name, protocol, r);
    var n := |name|;
    SameStart(m, m + rest);
    assert (m + rest)[12..12 + n] == m[12..12 + n];
    assert (m + rest)[12 + n..12 + n + |protocol|] == m[12 + n..12 + n + |protocol|];
    if k >= 12 {
      SameStart(m[..k], m);
    }
  }

  lemma SameStart(a: Bytes, b: Bytes)
    requires a <= b && |a| >= 12
    ensures a[1] == b[1] && U32At(a, 4) == U32At(b, 4) && U16At(a, 8) == U16At(b, 8) && U16At(a, 10) == U16At(b, 10)
  {
  }

  /** Channel types other than the two partially reliable ones are taken for reliable. */
  lemma OtherTypesAreReliable(channelType: Byte, parameter: U32)
    requires channelType % 128 !in {1, 2}
    ensures Effective(DecodeReliability(channelType, parameter)) == (channelType / 128 == 1, Reliable)
  {
  }
}
