/**
  The in-band opening of a data channel (RFC 8832; src/impl/datachannel.cpp): the two
  endpoints' objects, and every run of the two over a network that may delay, reorder, repeat
  and lose messages but invents none.
 */
module DataChannelProtocol {
  import opened Bits
  import opened Options
  import opened OpenMessage

  /**
    Messages on the wire; `own` says that a user message has the channel's own reliability.
    `Reset` is the peer's closing of the stream.
   */
  datatype Wire = Control(bytes: Bytes) | User(payload: Bytes, own: bool) | Reset

  datatype Role = Outgoing | Incoming

  datatype Channel = Channel(
    name: Bytes, protocol: Bytes, reliability: Reliability,
    hasTransport: bool, hasStream: bool, maxSize: nat,
    isOpen: bool, isClosed: bool,
    received: seq<Bytes>,   // mRecvQueue
    opens: nat)             // how often triggerOpen has been called

  /** `if (!mIsOpen.exchange(true)) triggerOpen();` */
  function Opening(c: Channel): Channel {
    c.(isOpen := true, opens := if c.isOpen then c.opens else c.opens + 1)
  }

  /**
    What a call does to the channel, what it then sends, and whether it goes on to mark the
    channel open after that.
   */
  datatype Reaction = Reaction(channel: Channel, replies: seq<Wire>, marksOpen: bool)

  /** `close` */
  function CloseReaction(c: Channel): Reaction {
    Reaction(c.(isClosed := true), if !c.isClosed && c.hasTransport && c.hasStream then [Reset] else [], false)
  }

  /** `processOpenMessage`; an exception leaves the channel as it is. */
  function OpenReceived(role: Role, c: Channel, b: Bytes): Reaction {
    var d := Decode(b);
    if role == Outgoing || !c.hasTransport || !c.hasStream || d.Invalid? then Reaction(c, [], false)
    else
      Reaction(c.(name := d.name, protocol := d.protocol, reliability := d.reliability),
               [Control([MESSAGE_ACK])], true)
  }

  /** `incoming` */
  function React(role: Role, c: Channel, m: Wire): Reaction {
    if c.isClosed then Reaction(c, [], false)
    else
      match m
      case Reset => CloseReaction(c)
      case User(p, _) => Reaction(c.(received := c.received + [p]), [], false)
      case Control(b) =>
        if b == [] then Reaction(c, [], false)
        else if b[0] == MESSAGE_OPEN then OpenReceived(role, c, b)
        else if b[0] == MESSAGE_ACK then Reaction(Opening(c), [], false)
        else Reaction(c, [], false)
  }

  /** `OutgoingDataChannel::open`: without a stream or with values out of range it throws after taking the transport. */
  function OpenReaction(c: Channel): Reaction {
    Reaction(c.(hasTransport := true),
             if c.hasStream && Sendable(c.name, c.protocol, c.reliability)
             then [Control(Encode(c.name, c.protocol, c.reliability))] else [], false)
  }

  /** `outgoing`: nothing is sent when it throws. */
  function SendReaction(c: Channel, payload: Bytes): Reaction {
    Reaction(c, if c.isClosed || !c.hasTransport || !c.hasStream || |payload| > c.maxSize then []
                else [User(payload, c.isOpen)], false)
  }

  // ---------------------------------------------------------------- the object

  class DataChannel {
    const role: Role
    const maxSize: nat
    var name: Bytes
    var protocol: Bytes
    var reliability: Reliability
    var hasTransport: bool
    var hasStream: bool
    var isOpen: bool
    var isClosed: bool
    var received: seq<Bytes>
    ghost var Opens: nat

    ghost function State(): Channel
      reads this
    {
      Channel(name, protocol, reliability, hasTransport, hasStream, maxSize, isOpen, isClosed, received, Opens)
    }

    constructor (r: Role, lab: Bytes, prot: Bytes, rel: Reliability, transport: bool, stream: bool, size: nat)
      ensures role == r && State() == Channel(lab, prot, rel, transport, stream, size, false, false, [], 0)
    {
      role, name, protocol, reliability := r, lab, prot, rel;
      hasTransport, hasStream, maxSize, isOpen, isClosed, received, Opens := transport, stream, size, false, false, [], 0;
    }

    /** `OutgoingDataChannel::open` */
    method Open() returns (sent: seq<Wire>)
      modifies this
      ensures Reaction(State(), sent, false) == OpenReaction(old(State()))
    {
      hasTransport := true;
      sent := [];
      if !hasStream {
        return;
      }
      if Sendable(name, protocol, reliability) {
        sent := [Control(Encode(name, protocol, reliability))];
      }
    }

    method TriggerOpenOnce()
      modifies this
      ensures State() == Opening(old(State()))
    {
      if !isOpen {
        Opens := Opens + 1;
      }
      isOpen := true;
    }

    /** `processOpenMessage` up to the sending of the acknowledgement; `marks` says that `TriggerOpenOnce` follows it. */
    method ProcessOpenMessage(m: Bytes) returns (sent: seq<Wire>, marks: bool)
      modifies this
      ensures Reaction(State(), sent, marks) == OpenReceived(role, old(State()), m)
    {
      sent, marks := [], false;
      if role == Outgoing || !hasTransport || !hasStream {
        return;
      }
      var d := Decode(m);
      if d.Invalid? {
        return;
      }
      name, protocol, reliability := d.name, d.protocol, d.reliability;
      sent, marks := [Control([MESSAGE_ACK])], true;
    }

    method Close() returns (sent: seq<Wire>)
      modifies this
      ensures Reaction(State(), sent, false) == CloseReaction(old(State()))
    {
      sent := if !isClosed && hasTransport && hasStream then [Reset] else [];
      isClosed := true;
    }

    /** `incoming` */
    method IncomingMessage(m: Wire) returns (sent: seq<Wire>, marks: bool)
      modifies this
      ensures Reaction(State(), sent, marks) == React(role, old(State()), m)
    {
      sent, marks := [], false;
      if isClosed {
        return;
      }
      match m
      case Control(b) =>
        if b == [] {
          return;
        }
        if b[0] == MESSAGE_OPEN {
          sent, marks := ProcessOpenMessage(b);
        } else if b[0] == MESSAGE_ACK {
          TriggerOpenOnce();
        }
      case Reset =>
        sent := Close();
      case User(p, _) =>
        received := received + [p];
    }

    /** `outgoing` */
    method Send(payload: Bytes) returns (sent: seq<Wire>)
      ensures Reaction(State(), sent, false) == SendReaction(State(), payload)
    {
      if isClosed || !hasTransport || !hasStream || |payload| > maxSize {
        return [];
      }
      sent := [User(payload, isOpen)];
    }
  }

  // ---------------------------------------------------------------- every run

  /**
    The mutex of a channel covers the update of its fields and the composition of a message, not
    the sending: what is composed waits in `localOut` and `remoteOut`, and the threads of the
    remote side that have processed an OPEN first send the ACK and then mark the channel open.
   */
  datatype World = World(
    local: Channel, remote: Channel,
    localOut: set<Wire>, remoteOut: set<Wire>,
    acking: nat, marking: nat,
    toRemote: set<Wire>, toLocal: set<Wire>,   // everything ever sent
    processed: bool)                           // the remote side has processed an OPEN

  datatype Action =
    | CallOpen
    | FlushLocal(m: Wire) | FlushRemote(m: Wire)
    | DeliverToRemote(m: Wire) | SendAck | MarkOpen
    | DeliverToLocal(m: Wire)
    | SendLocal(p: Bytes) | SendRemote(p: Bytes)
    | CloseLocal | CloseRemote

  function Fresh(name: Bytes, protocol: Bytes, r: Reliability, transport: bool, stream: bool, maxSize: nat): Channel {
    Channel(name, protocol, r, transport, stream, maxSize, false, false, [], 0)
  }

  ghost predicate IsInitial(w: World) {
    && w.local == Fresh(w.local.name, w.local.protocol, w.local.reliability, false, w.local.hasStream, w.local.maxSize)
    && w.remote == Fresh([], [], Reliability(false, None, None, LegacyReliable), true, w.remote.hasStream, w.remote.maxSize)
    && w.localOut == {} && w.remoteOut == {} && w.acking == 0 && w.marking == 0
    && w.toRemote == {} && w.toLocal == {} && !w.processed
  }

  function Set(ms: seq<Wire>): set<Wire> { set m | m in ms }

  predicate Enabled(w: World, a: Action) {
    match a
    case FlushLocal(m) => m in w.localOut
    case FlushRemote(m) => m in w.remoteOut
    case DeliverToRemote(m) => m in w.toRemote
    case DeliverToLocal(m) => m in w.toLocal
    case SendAck => w.acking > 0
    case MarkOpen => w.marking > 0
    case _ => true
  }

  function Do(w: World, a: Action): World
    requires Enabled(w, a)
  {
    match a
    case CallOpen =>
      var r := OpenReaction(w.local);
      w.(local := r.channel, localOut := w.localOut + Set(r.replies))
    case FlushLocal(m) => w.(toRemote := w.toRemote + {m})
    case FlushRemote(m) => w.(toLocal := w.toLocal + {m})
    case DeliverToRemote(m) =>
      var r := React(Incoming, w.remote, m);
      if r.marksOpen then w.(remote := r.channel, acking := w.acking + 1, processed := true)
      else w.(remote := r.channel, remoteOut := w.remoteOut + Set(r.replies))
    case SendAck =>
      w.(acking := w.acking - 1, toLocal := w.toLocal + {Control([MESSAGE_ACK])}, marking := w.marking + 1)
    case MarkOpen => w.(marking := w.marking - 1, remote := Opening(w.remote))
    case DeliverToLocal(m) =>
      var r := React(Outgoing, w.local, m);
      w.(local := r.channel, localOut := w.localOut + Set(r.replies))
    case SendLocal(p) => w.(localOut := w.localOut + Set(SendReaction(w.local, p).replies))
    case SendRemote(p) => w.(remoteOut := w.remoteOut + Set(SendReaction(w.remote, p).replies))
    case CloseLocal =>
      var r := CloseReaction(w.local);
      w.(local := r.channel, localOut := w.localOut + Set(r.replies))
    case CloseRemote =>
      var r := CloseReaction(w.remote);
      w.(remote := r.channel, remoteOut := w.remoteOut + Set(r.replies))
  }

  ghost predicate IsRun(actions: seq<Action>, worlds: seq<World>) {
    && |worlds| == |actions| + 1
    && IsInitial(worlds[0])
    && forall i :: 0 <= i < |actions| ==>
         Enabled(worlds[i], actions[i]) && worlds[i + 1] == Do(worlds[i], actions[i])
  }

  /** The remote side holds what the local side asked for. */
  predicate Agreed(w: World) {
    && w.remote.name == w.local.name && w.remote.protocol == w.local.protocol
    && Effective(w.remote.reliability) == Effective(w.local.reliability)
  }

  /** Control messages are the local side's OPEN and, once that has been processed, ACKs. */
  ghost predicate Genuine(w: World) {
    && (forall b :: Control(b) in w.toRemote + w.localOut ==>
          Sendable(w.local.name, w.local.protocol, w.local.reliability) &&
          b == Encode(w.local.name, w.local.protocol, w.local.reliability))
    && (forall b :: Control(b) in w.toLocal ==> b == [MESSAGE_ACK] && w.processed)
    && (forall b :: Control(b) !in w.remoteOut)
  }

  /** The channel's own reliability is used by a side that is open. */
  ghost predicate OwnWhenOpen(w: World) {
    && (forall p :: User(p, true) in w.toRemote + w.localOut ==> w.local.isOpen)
    && (forall p :: User(p, true) in w.toLocal + w.remoteOut ==> w.remote.isOpen)
  }

  /** What is received has been sent. */
  ghost predicate NothingInvented(w: World) {
    && (forall p :: p in w.remote.received ==> exists own :: User(p, own) in w.toRemote)
    && (forall p :: p in w.local.received ==> exists own :: User(p, own) in w.toLocal)
  }

  /** Open, or about to be, only after an OPEN was processed, which settles the parameters. */
  ghost predicate Settled(w: World) {
    && (w.local.isOpen || w.remote.isOpen || w.acking > 0 || w.marking > 0 ==> w.processed)
    && (w.processed ==> Agreed(w))
    && w.local.opens == (if w.local.isOpen then 1 else 0)
    && w.remote.opens == (if w.remote.isOpen then 1 else 0)
  }

  ghost predicate Inv(w: World) {
    Genuine(w) && OwnWhenOpen(w) && NothingInvented(w) && Settled(w)
  }

  lemma EncodeStarts(name: Bytes, protocol: Bytes, r: Reliability)
    requires Sendable(name, protocol, r)
    ensures Encode(name, protocol, r) != [] && Encode(name, protocol, r)[0] == MESSAGE_OPEN
  {
  }

  /** What a genuine control message does to the remote side. */
  lemma OpenArrives(w: World, b: Bytes)
    requires Genuine(w) && Control(b) in w.toRemote
    ensures var l, c, r := w.local, w.remote, React(Incoming, w.remote, Control(b));
            if c.isClosed || !c.hasTransport || !c.hasStream then r == Reaction(c, [], false)
            else
              && r.replies == [Control([MESSAGE_ACK])] && r.marksOpen
              && r.channel == c.(name := l.name, protocol := l.protocol, reliability := r.channel.reliability)
              && Effective(r.channel.reliability) == Effective(l.reliability)
  {
    var l := w.local;
    EncodeStarts(l.name, l.protocol, l.reliability);
    OpenRoundTrip(l.name, l.protocol, l.reliability);
    hide Encode, Decode, Effective;
  }

  lemma RemoteKeeps(w: World, m: Wire)
    requires Inv(w) && m in w.toRemote
    ensures Inv(Do(w, DeliverToRemote(m)))
  {
    hide Encode, Decode, Effective, Sendable;
    match m
    case Control(b) =>
      OpenArrives(w, b);
      hide React;
    case Reset =>
    case User(p, own) =>
  }

  lemma StepKeeps(w: World, a: Action)
    requires Inv(w) && Enabled(w, a)
    ensures Inv(Do(w, a))
  {
    hide Encode, Decode, Effective, Sendable;
    match a
    case DeliverToRemote(m) => RemoteKeeps(w, m);
    case DeliverToLocal(m) => LocalKeeps(w, m);
    case SendLocal(p) => SendKeeps(w, a);
    case SendRemote(p) => SendKeeps(w, a);
    case FlushLocal(m) => FlushKeeps(w, a);
    case FlushRemote(m) => FlushKeeps(w, a);
    case CallOpen =>
    case SendAck =>
    case MarkOpen =>
    case CloseLocal =>
    case CloseRemote =>
  }

  lemma LocalKeeps(w: World, m: Wire)
    requires Inv(w) && m in w.toLocal
    ensures Inv(Do(w, DeliverToLocal(m)))
  {
    hide Encode, Decode, Effective, Sendable;
  }

  lemma SendKeeps(w: World, a: Action)
    requires Inv(w) && (a.SendLocal? || a.SendRemote?)
    ensures Inv(Do(w, a))
  {
    hide Encode, Decode, Effective, Sendable;
  }

  lemma FlushKeeps(w: World, a: Action)
    requires Inv(w) && Enabled(w, a) && (a.FlushLocal? || a.FlushRemote?)
    ensures Inv(Do(w, a))
  {
    hide Encode, Decode, Effective, Sendable;
  }

  lemma {:induction false} EveryWorld(actions: seq<Action>, worlds: seq<World>, i: nat)
    requires IsRun(actions, worlds) && i < |worlds|
    ensures Inv(worlds[i])
    ensures worlds[i].local.name == worlds[0].local.name && worlds[i].local.protocol == worlds[0].local.protocol
    ensures worlds[i].local.reliability == worlds[0].local.reliability
    decreases i
  {
    if i > 0 {
      EveryWorld(actions, worlds, i - 1);
      StepKeeps(worlds[i - 1], actions[i - 1]);
      LocalStays(worlds[i - 1], actions[i - 1]);
      hide Inv, Do, Enabled;
    }
  }

  lemma LocalStays(w: World, a: Action)
    requires Enabled(w, a)
    ensures var l := Do(w, a).local;
            l.name == w.local.name && l.protocol == w.local.protocol && l.reliability == w.local.reliability
  {
    hide Encode, Decode, Effective, Sendable;
  }

  /**
    In every run: either side is open only if the peer's OPEN has been processed, and the two then
    hold the same label, protocol and reliability; messages with the channel's own reliability are
    sent only after that; each side reports the opening at most once; and what either side receives
    was sent by the other.
   */
  lemma OpenMeansAgreed(actions: seq<Action>, worlds: seq<World>, i: nat)
    requires IsRun(actions, worlds) && i < |worlds|
    ensures var w := worlds[i];
            && (w.local.isOpen || w.remote.isOpen ==> w.processed)
            && (w.processed ==> Agreed(w))
            && (forall p :: User(p, true) in w.toRemote + w.toLocal ==> w.processed && Agreed(w))
            && w.local.opens <= 1 && w.remote.opens <= 1
            && NothingInvented(w)
            && w.local.name == worlds[0].local.name
  {
    EveryWorld(actions, worlds, i);
    hide Do, Enabled, Agreed;
  }

  // ---------------------------------------------------------------- two particular runs

  ghost predicate Continues(actions: seq<Action>, worlds: seq<World>, a: Action, w: World) {
    IsRun(actions, worlds) && Enabled(worlds[|worlds| - 1], a) && w == Do(worlds[|worlds| - 1], a)
  }

  lemma RunSnoc(actions: seq<Action>, worlds: seq<World>, a: Action, w: World)
    requires Continues(actions, worlds, a, w)
    ensures IsRun(actions + [a], worlds + [w])
  {
    hide Do, Enabled, IsInitial;
    var as', ws := actions + [a], worlds + [w];
    forall i | 0 <= i < |as'|
      ensures Enabled(ws[i], as'[i]) && ws[i + 1] == Do(ws[i], as'[i])
    {
      assert i < |actions| ==> as'[i] == actions[i] && ws[i] == worlds[i] && ws[i + 1] == worlds[i + 1];
    }
  }

  /** One more step of a run. */
  lemma Extend(actions: seq<Action>, worlds: seq<World>, a: Action) returns (as': seq<Action>, ws: seq<World>)
    requires IsRun(actions, worlds) && Enabled(worlds[|worlds| - 1], a)
    ensures IsRun(as', ws) && |ws| == |worlds| + 1 && ws[0] == worlds[0]
    ensures ws[|ws| - 1] == Do(worlds[|worlds| - 1], a)
  {
    var w := Do(worlds[|worlds| - 1], a);
    RunSnoc(actions, worlds, a, w);
    as', ws := actions + [a], worlds + [w];
  }

  /** From the start to the acknowledgement's arrival. */
  lemma AckArrives(w: World) returns (actions: seq<Action>, worlds: seq<World>)
    requires IsInitial(w) && w.local.hasStream && w.remote.hasStream
    requires Sendable(w.local.name, w.local.protocol, w.local.reliability)
    ensures IsRun(actions, worlds) && worlds[0] == w
    ensures var last := worlds[|worlds| - 1];
            && last.local.isOpen && last.processed && Agreed(last) && last.marking == 1 && !last.remote.isOpen
            && CanSend(last.local) && CanSend(last.remote)
  {
    hide Encode, Decode, Effective, Sendable;
    var l := w.local;
    var open, ack := Control(Encode(l.name, l.protocol, l.reliability)), Control([MESSAGE_ACK]);
    assert IsRun([], [w]);
    hide IsRun;
    actions, worlds := Extend([], [w], CallOpen);
    var w1 := worlds[|worlds| - 1];
    assert open in w1.localOut by { assert open in OpenReaction(l).replies; }
    actions, worlds := Extend(actions, worlds, FlushLocal(open));
    var w2 := worlds[|worlds| - 1];
    GenuineOpen(w2, l);
    OpenArrives(w2, open.bytes);
    hide React;
    actions, worlds := Extend(actions, worlds, DeliverToRemote(open));
    var w3 := worlds[|worlds| - 1];
    actions, worlds := Extend(actions, worlds, SendAck);
    var w4 := worlds[|worlds| - 1];
    AckOpens(w4.local);
    actions, worlds := Extend(actions, worlds, DeliverToLocal(ack));
  }

  lemma GenuineOpen(w: World, l: Channel)
    requires Sendable(l.name, l.protocol, l.reliability) && w.remoteOut == {} && w.toLocal == {}
    requires var open := Control(Encode(l.name, l.protocol, l.reliability)); w.toRemote == {open} && w.localOut == {open}
    requires w.local.name == l.name && w.local.protocol == l.protocol && w.local.reliability == l.reliability
    ensures Genuine(w)
  {
    hide Encode, Sendable;
  }

  lemma AckOpens(c: Channel)
    requires !c.isClosed
    ensures React(Outgoing, c, Control([2])) == Reaction(Opening(c), [], false)
  {
  }

  /**
    The opening side may be open before its peer is: the acknowledgement is sent before the
    peer marks itself open.
   */
  lemma OpenBeforePeer(w: World) returns (actions: seq<Action>, worlds: seq<World>)
    requires IsInitial(w) && w.local.hasStream && w.remote.hasStream
    requires Sendable(w.local.name, w.local.protocol, w.local.reliability)
    ensures IsRun(actions, worlds) && worlds[0] == w
    ensures worlds[|worlds| - 1].local.isOpen && !worlds[|worlds| - 1].remote.isOpen
  {
    actions, worlds := AckArrives(w);
  }

  /** The handshake can complete from every start with streams, whenever the OPEN can be sent at all. */
  lemma HandshakeCompletes(w: World) returns (actions: seq<Action>, worlds: seq<World>)
    requires IsInitial(w) && w.local.hasStream && w.remote.hasStream
    requires Sendable(w.local.name, w.local.protocol, w.local.reliability)
    ensures IsRun(actions, worlds) && worlds[0] == w
    ensures var last := worlds[|worlds| - 1];
            && last.local.isOpen && last.remote.isOpen && Agreed(last)
            && CanSend(last.local) && CanSend(last.remote)
  {
    actions, worlds := AckArrives(w);
    hide IsRun, Effective, Sendable;
    actions, worlds := Extend(actions, worlds, MarkOpen);
  }

  // ---------------------------------------------------------------- messages and closing

  /** A channel that `outgoing` and `close` can send on. */
  predicate CanSend(c: Channel) { !c.isClosed && c.hasTransport && c.hasStream }

  /**
    From every reachable world, what a side that can send hands over arrives, behind what its peer
    has received before, unless the peer is closed; it was sent with the channel's own reliability
    if and only if the side was open.
   */
  lemma MessageArrives(actions: seq<Action>, worlds: seq<World>, payload: Bytes) returns (as': seq<Action>, ws: seq<World>)
    requires IsRun(actions, worlds)
    requires var w := worlds[|worlds| - 1]; CanSend(w.local) && !w.remote.isClosed && |payload| <= w.local.maxSize
    ensures IsRun(as', ws) && worlds[0] == ws[0]
    ensures var w, last := worlds[|worlds| - 1], ws[|ws| - 1];
            && User(payload, w.local.isOpen) in last.toRemote && last.local == w.local
            && last.remote == w.remote.(received := w.remote.received + [payload])
  {
    var w := worlds[|worlds| - 1];
    var m := User(payload, w.local.isOpen);
    assert m in SendReaction(w.local, payload).replies;
    hide IsRun;
    as', ws := Extend(actions, worlds, SendLocal(payload));
    as', ws := Extend(as', ws, FlushLocal(m));
    as', ws := Extend(as', ws, DeliverToRemote(m));
  }

  /** The same of what the side that was opened hands over. */
  lemma AnswerArrives(actions: seq<Action>, worlds: seq<World>, payload: Bytes) returns (as': seq<Action>, ws: seq<World>)
    requires IsRun(actions, worlds)
    requires var w := worlds[|worlds| - 1]; CanSend(w.remote) && !w.local.isClosed && |payload| <= w.remote.maxSize
    ensures IsRun(as', ws) && worlds[0] == ws[0]
    ensures var w, last := worlds[|worlds| - 1], ws[|ws| - 1];
            && User(payload, w.remote.isOpen) in last.toLocal && last.remote == w.remote
            && last.local == w.local.(received := w.local.received + [payload])
  {
    var w := worlds[|worlds| - 1];
    var m := User(payload, w.remote.isOpen);
    assert m in SendReaction(w.remote, payload).replies;
    hide IsRun;
    as', ws := Extend(actions, worlds, SendRemote(payload));
    as', ws := Extend(as', ws, FlushRemote(m));
    as', ws := Extend(as', ws, DeliverToLocal(m));
  }

  /** From every reachable world a side that can send can close both; the other then closes its stream as well. */
  lemma ClosingArrives(actions: seq<Action>, worlds: seq<World>) returns (as': seq<Action>, ws: seq<World>)
    requires IsRun(actions, worlds)
    requires var w := worlds[|worlds| - 1]; CanSend(w.local)
    ensures IsRun(as', ws) && worlds[0] == ws[0]
    ensures var last := ws[|ws| - 1];
            && last.local.isClosed && last.remote.isClosed && Reset in last.toRemote
            && (CanSend(worlds[|worlds| - 1].remote) ==> Reset in last.remoteOut)
  {
    var w := worlds[|worlds| - 1];
    assert Reset in CloseReaction(w.local).replies;
    hide IsRun;
    as', ws := Extend(actions, worlds, CloseLocal);
    as', ws := Extend(as', ws, FlushLocal(Reset));
    as', ws := Extend(as', ws, DeliverToRemote(Reset));
  }

  /** And the other side can. */
  lemma ClosingArrivesBack(actions: seq<Action>, worlds: seq<World>) returns (as': seq<Action>, ws: seq<World>)
    requires IsRun(actions, worlds)
    requires var w := worlds[|worlds| - 1]; CanSend(w.remote)
    ensures IsRun(as', ws) && worlds[0] == ws[0]
    ensures var last := ws[|ws| - 1];
            && last.local.isClosed && last.remote.isClosed && Reset in last.toLocal
            && (CanSend(worlds[|worlds| - 1].local) ==> Reset in last.localOut)
  {
    var w := worlds[|worlds| - 1];
    assert Reset in CloseReaction(w.remote).replies;
    hide IsRun;
    as', ws := Extend(actions, worlds, CloseRemote);
    as', ws := Extend(as', ws, FlushRemote(Reset));
    as', ws := Extend(as', ws, DeliverToLocal(Reset));
  }

  /** The stream is closed, once, by a side that can send. */
  lemma CloseIff(c: Channel)
    ensures CloseReaction(c).channel == c.(isClosed := true) && !CloseReaction(c).marksOpen
    ensures CloseReaction(c).replies == if CanSend(c) then [Reset] else []
    ensures CloseReaction(CloseReaction(c).channel).replies == []
  {
  }

  /** Messages too long, or on a channel that cannot send, change and send nothing. */
  lemma SendIff(c: Channel, payload: Bytes)
    ensures SendReaction(c, payload).channel == c && !SendReaction(c, payload).marksOpen
    ensures SendReaction(c, payload).replies == [] <==> !CanSend(c) || |payload| > c.maxSize
  {
  }

  /** A closed channel stays closed, takes nothing in and sends nothing, whatever happens. */
  lemma ClosedIsOver(w: World, a: Action)
    requires Enabled(w, a) && w.remote.isClosed
    ensures var w' := Do(w, a);
            && w'.remote.isClosed && w'.remote.received == w.remote.received
            && w'.remoteOut == w.remoteOut && w'.processed == w.processed
  {
    hide Encode, Decode, Effective, Sendable;
    if a.CloseRemote? {
      assert w.remoteOut + Set([]) == w.remoteOut;
    }
  }
}
