/** Two connections joined by two lossy first-in first-out lines, both just past the reset
    handshake. Each peer keeps two history logs: the payloads it accepted for sending and the
    payloads it delivered upwards. */
module AshLinks {
  import opened Basics
  import opened AshFrames
  import opened AshConnections

  /** `wire` holds the frames this peer wrote that the other has not read yet, oldest first. */
  datatype Peer = Peer(end: Endpoint, sent: seq<Bytes>, delivered: seq<Bytes>, wire: seq<AshFrame>)

  datatype Link = Link(a: Peer, b: Peer)

  datatype Action =
    | Submit(payload: Bytes)        // hand a payload to `send_data`
    | Receive                       // read the oldest frame on the other's line
    | Lose(index: nat)              // a frame on the other's line is destroyed
    | Garble(error: AshError)       // something undecodable is read: `on_decode_failure`
    | Resend                        // a timeout: `retransmit_oldest`

  datatype Event = Event(byA: bool, action: Action)

  const IDLE := Peer(ESTABLISHED, [], [], [])

  function Emit(wire: seq<AshFrame>, outbound: Outbound): seq<AshFrame> {
    match outbound
    case Send(frame) => wire + [frame]
    case Nothing => wire
  }

  /** One action of peer `me`, whose input line is `other.wire`. */
  function Act(me: Peer, other: Peer, action: Action, window: nat): (Peer, Peer) {
    match action
    case Submit(payload) =>
      var (end, r) := SendData(me.end, payload, window);
      (match r
       case Ok(frame) => me.(end := end, sent := me.sent + [payload], wire := me.wire + [frame])
       case Err(_) => me.(end := end),
       other)
    case Receive =>
      if other.wire == [] then (me, other) else
        var (end, payload, outbound) := OnFrame(me.end, other.wire[0]);
        (me.(end := end,
             delivered := me.delivered + (if payload.Some? then [payload.value] else []),
             wire := Emit(me.wire, outbound)),
         other.(wire := other.wire[1..]))
    case Lose(index) =>
      (me, if index < |other.wire|
           then other.(wire := other.wire[..index] + other.wire[index + 1..])
           else other)
    case Garble(error) =>
      var (end, outbound) := OnDecodeFailure(me.end, error);
      (me.(end := end, wire := Emit(me.wire, outbound)), other)
    case Resend =>
      var (end, outbound) := RetransmitOldest(me.end);
      (me.(end := end, wire := Emit(me.wire, outbound)), other)
  }

  function Step(link: Link, event: Event, window: nat): Link {
    if event.byA then
      var (a, b) := Act(link.a, link.b, event.action, window);
      Link(a, b)
    else
      var (b, a) := Act(link.b, link.a, event.action, window);
      Link(a, b)
  }

  /** The state after `events`, starting from an idle link. */
  function Run(events: seq<Event>, window: nat): Link {
    if events == [] then
      Link(IDLE, IDLE)
    else
      Step(Run(events[..|events| - 1], window), events[|events| - 1], window)
  }

  /** Nothing duplicated, skipped or reordered: each side has delivered a prefix of what the other
      accepted for sending. */
  predicate InOrder(link: Link) {
    link.a.delivered <= link.b.sent && link.b.delivered <= link.a.sent
  }

  // ---------------------------------------------------------------------------------------------
  // The same protocol with unbounded numbers.

  datatype Entry = Entry(num: nat, payload: Bytes, sends: u8)

  datatype Packet =
    | PData(num: nat, ack: nat, retransmit: bool, payload: Bytes)
    | PAck(ack: nat)
    | PNak(ack: nat)

  /** The next number to send is `|sent|` and the next number expected is `|delivered|`. */
  datatype Ideal = Ideal(
    state: ConnectionState,
    inFlight: seq<Entry>,
    ackPending: bool,
    nakPending: bool,
    sent: seq<Bytes>,
    delivered: seq<Bytes>,
    wire: seq<Packet>)

  datatype IdealLink = IdealLink(a: Ideal, b: Ideal)

  const IDEAL_IDLE := Ideal(Connected, [], false, false, [], [], [])

  /** Retirement by comparing numbers: an acknowledgement of `ack` drops every entry below it. */
  function Outstanding(queue: seq<Entry>, ack: nat): seq<Entry> {
    if queue == [] then []
    else (if queue[0].num < ack then [] else [queue[0]]) + Outstanding(queue[1..], ack)
  }

  function IdealRetire(me: Ideal, ack: nat): Ideal {
    me.(inFlight := Outstanding(me.inFlight, ack))
  }

  function IdealSubmit(me: Ideal, payload: Bytes): Ideal {
    me.(inFlight := me.inFlight + [Entry(|me.sent|, payload, 1)],
        ackPending := false,
        sent := me.sent + [payload],
        wire := me.wire + [PData(|me.sent|, |me.delivered|, false, payload)])
  }

  function IdealResend(me: Ideal): Ideal {
    if me.inFlight == [] then me
    else
      var oldest := me.inFlight[0];
      if oldest.sends >= 3 then me.(state := Failed)
      else me.(inFlight := me.inFlight[0 := oldest.(sends := oldest.sends + 1)],
               wire := me.wire + [PData(oldest.num, |me.delivered|, true, oldest.payload)])
  }

  function IdealReceive(me: Ideal, packet: Packet): Ideal {
    var me := IdealRetire(me, packet.ack);
    match packet
    case PAck(_) => me
    case PNak(_) => IdealResend(me)
    case PData(num, _, _, payload) =>
      if num == |me.delivered| then
        me.(delivered := me.delivered + [payload], nakPending := false,
            wire := me.wire + [PAck(|me.delivered| + 1)])
      else
        me.(wire := me.wire + [PAck(|me.delivered|)])
  }

  function IdealAct(me: Ideal, other: Ideal, action: Action, window: nat): (Ideal, Ideal) {
    match action
    case Submit(payload) =>
      (if !me.state.Connected? || |me.inFlight| >= window then me
       else IdealSubmit(me, payload),
       other)
    case Receive =>
      if other.wire == [] then (me, other)
      else (IdealReceive(me, other.wire[0]), other.(wire := other.wire[1..]))
    case Lose(index) =>
      (me, if index < |other.wire|
           then other.(wire := other.wire[..index] + other.wire[index + 1..])
           else other)
    case Garble(error) =>
      (if error.BadCrc? || error.Substituted?
       then me.(nakPending := true, wire := me.wire + [PNak(|me.delivered|)])
       else me,
       other)
    case Resend => (IdealResend(me), other)
  }

  function IdealStep(link: IdealLink, event: Event, window: nat): IdealLink {
    if event.byA then
      var (a, b) := IdealAct(link.a, link.b, event.action, window);
      IdealLink(a, b)
    else
      var (b, a) := IdealAct(link.b, link.a, event.action, window);
      IdealLink(a, b)
  }

  function IdealRun(events: seq<Event>, window: nat): IdealLink {
    if events == [] then
      IdealLink(IDEAL_IDLE, IDEAL_IDLE)
    else
      IdealStep(IdealRun(events[..|events| - 1], window), events[|events| - 1], window)
  }

  // ---------------------------------------------------------------------------------------------
  // Reducing every number mod 8.

  function Mod8(n: int): u8 {
    n % 8
  }

  function ReduceEntry(e: Entry): InFlight {
    InFlight(Mod8(e.num), e.payload, e.sends)
  }

  function ReducePacket(p: Packet): AshFrame {
    match p
    case PData(num, ack, retransmit, payload) => Data(Mod8(num), Mod8(ack), retransmit, payload)
    case PAck(ack) => Ack(Mod8(ack), false)
    case PNak(ack) => Nak(Mod8(ack), false)
  }

  function ReduceQueue(queue: seq<Entry>): seq<InFlight> {
    seq(|queue|, i requires 0 <= i < |queue| => ReduceEntry(queue[i]))
  }

  function ReduceWire(wire: seq<Packet>): seq<AshFrame> {
    seq(|wire|, i requires 0 <= i < |wire| => ReducePacket(wire[i]))
  }

  function ReduceEndpoint(p: Ideal): Endpoint {
    Endpoint(p.state, Mod8(|p.sent|), Mod8(|p.delivered|), ReduceQueue(p.inFlight),
             p.ackPending, p.nakPending)
  }

  function Reduce(p: Ideal): Peer {
    Peer(ReduceEndpoint(p), p.sent, p.delivered, ReduceWire(p.wire))
  }

  function ReduceLink(link: IdealLink): Link {
    Link(Reduce(link.a), Reduce(link.b))
  }

  // ---------------------------------------------------------------------------------------------
  // The inductive invariant, for one direction of traffic at a time.

  /** The number of the oldest unacknowledged frame. */
  function Base(s: Ideal): int {
    |s.sent| - |s.inFlight|
  }

  /** The queue is exactly the interval [base, next), and no longer than seven. */
  predicate Interval(s: Ideal) {
    && |s.inFlight| <= 7
    && Base(s) >= 0
    && forall i :: 0 <= i < |s.inFlight| ==>
         s.inFlight[i].num == Base(s) + i && s.inFlight[i].payload == s.sent[Base(s) + i]
  }

  /** Data on the line: each packet carries the payload of its number, lags the receiver by at most
      seven, and is overtaken by no packet more than six ahead of it. */
  predicate DataTame(wire: seq<Packet>, sent: seq<Bytes>, expected: nat) {
    && (forall j :: 0 <= j < |wire| && wire[j].PData? ==>
          wire[j].num < |sent| && wire[j].payload == sent[wire[j].num] && expected <= wire[j].num + 7)
    && (forall i, j :: 0 <= i < j < |wire| && wire[i].PData? && wire[j].PData? ==>
          wire[i].num <= wire[j].num + 6)
  }

  /** Acknowledgements on the line never decrease and lie between the sender's base and what the
      receiver has delivered. */
  predicate AcksTame(wire: seq<Packet>, base: int, expected: nat) {
    && (forall j :: 0 <= j < |wire| ==> base <= wire[j].ack <= expected)
    && (forall i, j :: 0 <= i < j < |wire| ==> wire[i].ack <= wire[j].ack)
  }

  /** Traffic from `s` to `r`. */
  predicate Flow(s: Ideal, r: Ideal) {
    && Interval(s)
    && Base(s) <= |r.delivered| <= |s.sent|
    && r.delivered == s.sent[..|r.delivered|]
    && DataTame(s.wire, s.sent, |r.delivered|)
    && AcksTame(r.wire, Base(s), |r.delivered|)
  }

  predicate Invariant(link: IdealLink) {
    Flow(link.a, link.b) && Flow(link.b, link.a)
  }

  // ---------------------------------------------------------------------------------------------
  // Retirement by position and retirement by number agree.

  lemma OutstandingIsSuffix(queue: seq<Entry>, base: nat, ack: nat)
    requires forall i :: 0 <= i < |queue| ==> queue[i].num == base + i
    requires base <= ack <= base + |queue|
    ensures Outstanding(queue, ack) == queue[ack - base..]
  {
    if queue != [] {
      OutstandingIsSuffix(queue[1..], base + 1, if ack == base then base + 1 else ack);
      if ack == base {
        OutstandingKeeps(queue[1..], ack);
      }
    }
  }

  lemma OutstandingKeeps(queue: seq<Entry>, ack: nat)
    requires forall i :: 0 <= i < |queue| ==> ack <= queue[i].num
    ensures Outstanding(queue, ack) == queue
  {
  }

  lemma SameResidue(x: nat, y: nat)
    requires x <= y < x + 8
    requires x % 8 == y % 8
    ensures x == y
  {
  }

  lemma ResidueTells(x: nat, y: nat)
    requires x < y + 8 && y < x + 8
    ensures Mod8(x) == Mod8(y) <==> x == y
  {
    if Mod8(x) == Mod8(y) {
      if x <= y { SameResidue(x, y); } else { SameResidue(y, x); }
    }
  }

  lemma PositionIs(queue: seq<InFlight>, tag: u8, want: nat)
    requires want <= |queue|
    requires forall i :: 0 <= i < |queue| ==> (queue[i].frameNum == tag <==> i == want)
    ensures Position(queue, tag) == want
  {
    assert want < |queue| ==> queue[want].frameNum == tag;
    assert Position(queue, tag) < |queue| ==> queue[Position(queue, tag)].frameNum == tag;
  }

  /** For an acknowledgement between base and next, the entry numbered `ack mod 8` is the one
      numbered `ack`, and its absence means `ack` is next: seven outstanding frames leave one
      residue unused. */
  lemma PositionAgrees(queue: seq<Entry>, base: nat, ack: nat)
    requires |queue| <= 7 && base <= ack <= base + |queue|
    requires forall i :: 0 <= i < |queue| ==> queue[i].num == base + i
    ensures Position(ReduceQueue(queue), Mod8(ack)) == ack - base
  {
    forall i | 0 <= i < |queue|
      ensures ReduceQueue(queue)[i].frameNum == Mod8(ack) <==> i == ack - base
    {
      ResidueTells(queue[i].num, ack);
    }
    PositionIs(ReduceQueue(queue), Mod8(ack), ack - base);
  }

  lemma ReduceQueueDrop(queue: seq<Entry>, cut: nat)
    requires cut <= |queue|
    ensures ReduceQueue(queue[cut..]) == ReduceQueue(queue)[cut..]
  {
  }

  lemma SuffixIsInterval(s: Ideal, ack: nat)
    requires Interval(s) && Base(s) <= ack <= |s.sent|
    ensures var later := s.(inFlight := s.inFlight[ack - Base(s)..]); Interval(later) && Base(later) == ack
  {
  }

  lemma IdealRetires(s: Ideal, ack: nat)
    requires Interval(s) && Base(s) <= ack <= |s.sent|
    ensures IdealRetire(s, ack) == s.(inFlight := s.inFlight[ack - Base(s)..])
    ensures Interval(IdealRetire(s, ack)) && Base(IdealRetire(s, ack)) == ack
  {
    OutstandingIsSuffix(s.inFlight, Base(s), ack);
    SuffixIsInterval(s, ack);
  }

  /** So retiring by position is retiring everything numbered below the acknowledgement. */
  lemma RetireAgrees(s: Ideal, ack: nat)
    requires Interval(s) && Base(s) <= ack <= |s.sent|
    ensures Position(ReduceQueue(s.inFlight), Mod8(ack)) == ack - Base(s)
    ensures Retire(ReduceEndpoint(s), Mod8(ack)) == ReduceEndpoint(IdealRetire(s, ack))
    ensures IdealRetire(s, ack).inFlight == s.inFlight[ack - Base(s)..]
    ensures Interval(IdealRetire(s, ack)) && Base(IdealRetire(s, ack)) == ack
  {
    PositionAgrees(s.inFlight, Base(s), ack);
    IdealRetires(s, ack);
    ReduceQueueDrop(s.inFlight, ack - Base(s));
  }

  // ---------------------------------------------------------------------------------------------
  // What each kind of change to a line does to the two flows it takes part in.

  lemma ReduceWireAppend(wire: seq<Packet>, p: Packet)
    ensures ReduceWire(wire + [p]) == ReduceWire(wire) + [ReducePacket(p)]
  {
  }

  /** Writing a packet that acknowledges all that was delivered. */
  lemma AcksAppend(wire: seq<Packet>, base: int, expected: nat, p: Packet)
    requires AcksTame(wire, base, expected) && base <= expected && p.ack == expected
    ensures AcksTame(wire + [p], base, expected)
  {
  }

  /** Writing a data packet from the window. */
  lemma DataAppend(s: Ideal, expected: nat, p: Packet)
    requires Interval(s) && Base(s) <= expected <= |s.sent| && DataTame(s.wire, s.sent, expected)
    requires p.PData? ==> Base(s) <= p.num < |s.sent| && p.payload == s.sent[p.num]
    ensures DataTame(s.wire + [p], s.sent, expected)
  {
  }

  lemma DataExtend(wire: seq<Packet>, sent: seq<Bytes>, payload: Bytes, expected: nat)
    requires DataTame(wire, sent, expected)
    ensures DataTame(wire, sent + [payload], expected)
  {
  }

  /** A line with packets removed keeps the order of the rest. */
  lemma TameWithout(wire: seq<Packet>, index: nat, sent: seq<Bytes>, base: int, expectedData: nat, expectedAck: nat)
    requires index < |wire|
    requires DataTame(wire, sent, expectedData) && AcksTame(wire, base, expectedAck)
    ensures var rest := wire[..index] + wire[index + 1..];
            DataTame(rest, sent, expectedData) && AcksTame(rest, base, expectedAck)
  {
    var rest := wire[..index] + wire[index + 1..];
    forall j | 0 <= j < |rest|
      ensures rest[j] == wire[if j < index then j else j + 1]
    {
    }
  }

  // ---------------------------------------------------------------------------------------------
  // One step.

  predicate StepHolds(me: Ideal, other: Ideal, action: Action, window: nat) {
    var (me', other') := IdealAct(me, other, action, window);
    && Flow(me', other') && Flow(other', me')
    && Act(Reduce(me), Reduce(other), action, window) == (Reduce(me'), Reduce(other'))
  }

  lemma SubmitFlow(me: Ideal, other: Ideal, payload: Bytes)
    requires Flow(me, other) && Flow(other, me) && |me.inFlight| < 7
    ensures var me' := IdealSubmit(me, payload); Flow(me', other) && Flow(other, me')
  {
    var p := PData(|me.sent|, |me.delivered|, false, payload);
    var me1 := me.(inFlight := me.inFlight + [Entry(|me.sent|, payload, 1)],
                   ackPending := false, sent := me.sent + [payload]);
    DataExtend(me.wire, me.sent, payload, |other.delivered|);
    DataAppend(me1, |other.delivered|, p);
    AcksAppend(me.wire, Base(other), |me.delivered|, p);
    assert other.delivered == me1.sent[..|other.delivered|];
  }

  lemma SubmitReduces(me: Ideal, payload: Bytes)
    ensures var me' := IdealSubmit(me, payload);
            && ReduceQueue(me'.inFlight)
               == ReduceQueue(me.inFlight) + [InFlight(Mod8(|me.sent|), payload, 1)]
            && ReduceWire(me'.wire)
               == ReduceWire(me.wire) + [Data(Mod8(|me.sent|), Mod8(|me.delivered|), false, payload)]
            && Mod8(|me'.sent|) == NextSequence(Mod8(|me.sent|))
  {
  }

  lemma SubmitStep(me: Ideal, other: Ideal, payload: Bytes, window: nat)
    requires window <= 7 && Flow(me, other) && Flow(other, me)
    ensures StepHolds(me, other, Submit(payload), window)
  {
    if me.state.Connected? && |me.inFlight| < window {
      SubmitFlow(me, other, payload);
      SubmitReduces(me, payload);
    }
  }

  lemma ResendStep(me: Ideal, other: Ideal)
    requires Flow(me, other) && Flow(other, me)
    ensures var me' := IdealResend(me);
            && Flow(me', other) && Flow(other, me')
            && var (end, outbound) := RetransmitOldest(ReduceEndpoint(me));
               end == ReduceEndpoint(me') && Emit(ReduceWire(me.wire), outbound) == ReduceWire(me'.wire)
  {
    if me.inFlight != [] && me.inFlight[0].sends < 3 {
      var me' := IdealResend(me);
      var p := PData(me.inFlight[0].num, |me.delivered|, true, me.inFlight[0].payload);
      DataAppend(me, |other.delivered|, p);
      AcksAppend(me.wire, Base(other), |me.delivered|, p);
      ReduceWireAppend(me.wire, p);
      assert ReduceQueue(me'.inFlight) == ReduceQueue(me.inFlight)[0 := ReduceEntry(me'.inFlight[0])];
    }
  }

  lemma GarbleStep(me: Ideal, other: Ideal, error: AshError, window: nat)
    requires Flow(me, other) && Flow(other, me)
    ensures StepHolds(me, other, Garble(error), window)
  {
    if error.IsRecoverableByNak() {
      var p := PNak(|me.delivered|);
      DataAppend(me, |other.delivered|, p);
      AcksAppend(me.wire, Base(other), |me.delivered|, p);
      ReduceWireAppend(me.wire, p);
    }
  }

  lemma ReduceWireWithout(wire: seq<Packet>, index: nat)
    requires index < |wire|
    ensures ReduceWire(wire[..index] + wire[index + 1..]) == ReduceWire(wire)[..index] + ReduceWire(wire)[index + 1..]
  {
  }

  lemma LoseStep(me: Ideal, other: Ideal, index: nat, window: nat)
    requires Flow(me, other) && Flow(other, me)
    ensures StepHolds(me, other, Lose(index), window)
  {
    if index < |other.wire| {
      TameWithout(other.wire, index, other.sent, Base(me), |me.delivered|, |other.delivered|);
      ReduceWireWithout(other.wire, index);
    }
  }

  lemma TailTame(wire: seq<Packet>, sent: seq<Bytes>, base: int, expectedData: nat, expectedAck: nat)
    requires wire != [] && DataTame(wire, sent, expectedData) && AcksTame(wire, base, expectedAck)
    ensures DataTame(wire[1..], sent, expectedData) && AcksTame(wire[1..], wire[0].ack, expectedAck)
    ensures wire[0].PData? ==>
              forall j :: 0 <= j < |wire[1..]| && wire[1..][j].PData? ==> wire[0].num <= wire[1..][j].num + 6
    ensures ReduceWire(wire[1..]) == ReduceWire(wire)[1..]
  {
    forall j | 0 <= j < |wire[1..]|
      ensures wire[1..][j] == wire[j + 1]
    {
    }
  }

  lemma TakeFlowIn(me: Ideal, other: Ideal)
    requires other.wire != [] && Flow(me, other) && Flow(other, me)
    ensures Flow(IdealRetire(me, other.wire[0].ack), other.(wire := other.wire[1..]))
  {
    RetireAgrees(me, other.wire[0].ack);
    TailTame(other.wire, other.sent, Base(me), |me.delivered|, |other.delivered|);
  }

  lemma TakeFlowOut(me: Ideal, other: Ideal)
    requires other.wire != [] && Flow(me, other) && Flow(other, me)
    ensures Flow(other.(wire := other.wire[1..]), IdealRetire(me, other.wire[0].ack))
  {
    RetireAgrees(me, other.wire[0].ack);
    TailTame(other.wire, other.sent, Base(me), |me.delivered|, |other.delivered|);
  }

  /** Taking the oldest packet off the line and retiring what it acknowledges. */
  lemma TakeStep(me: Ideal, other: Ideal)
    requires other.wire != [] && Flow(me, other) && Flow(other, me)
    ensures var me1 := IdealRetire(me, other.wire[0].ack);
            var other1 := other.(wire := other.wire[1..]);
            Flow(me1, other1) && Flow(other1, me1)
  {
    TakeFlowIn(me, other);
    TakeFlowOut(me, other);
  }

  /** A data packet is accepted exactly when its unbounded number is the one expected, and the
      three-bit comparison decides that correctly. */
  lemma AcceptStep(me: Ideal, other: Ideal, p: Packet)
    requires Flow(me, other) && Flow(other, me)
    requires p.PData? && p.num < |other.sent| && p.payload == other.sent[p.num]
    requires |me.delivered| <= p.num + 7 && p.num <= |me.delivered| + 6
    requires forall j :: 0 <= j < |other.wire| && other.wire[j].PData? ==> p.num <= other.wire[j].num + 6
    ensures Mod8(p.num) == Mod8(|me.delivered|) <==> p.num == |me.delivered|
    ensures var me' := if p.num == |me.delivered|
                       then me.(delivered := me.delivered + [p.payload], nakPending := false,
                                wire := me.wire + [PAck(|me.delivered| + 1)])
                       else me.(wire := me.wire + [PAck(|me.delivered|)]);
            Flow(me', other) && Flow(other, me')
  {
    if Mod8(p.num) == Mod8(|me.delivered|) {
      if p.num <= |me.delivered| {
        SameResidue(p.num, |me.delivered|);
      } else {
        SameResidue(|me.delivered|, p.num);
      }
    }
    if p.num == |me.delivered| {
      var expected := |me.delivered| + 1;
      DataAppend(me, |other.delivered|, PAck(expected));
      assert AcksTame(me.wire, Base(other), expected);
      AcksAppend(me.wire, Base(other), expected, PAck(expected));
      assert me.delivered + [p.payload] == other.sent[..expected];
      assert DataTame(other.wire, other.sent, expected);
    } else {
      DataAppend(me, |other.delivered|, PAck(|me.delivered|));
      AcksAppend(me.wire, Base(other), |me.delivered|, PAck(|me.delivered|));
    }
  }

  lemma ReceiveFlow(me: Ideal, other: Ideal)
    requires other.wire != [] && Flow(me, other) && Flow(other, me)
    ensures var me' := IdealReceive(me, other.wire[0]);
            var other' := other.(wire := other.wire[1..]);
            Flow(me', other') && Flow(other', me')
  {
    var p := other.wire[0];
    TakeStep(me, other);
    TailTame(other.wire, other.sent, Base(me), |me.delivered|, |other.delivered|);
    var me1 := IdealRetire(me, p.ack);
    var other1 := other.(wire := other.wire[1..]);
    match p
    case PAck(_) =>
    case PNak(_) => ResendStep(me1, other1);
    case PData(_, _, _, _) => AcceptStep(me1, other1, p);
  }

  lemma AcceptedReduces(me: Ideal, p: Packet)
    requires p.PData? && Retire(ReduceEndpoint(me), Mod8(p.ack)) == ReduceEndpoint(IdealRetire(me, p.ack))
    requires Mod8(p.num) == Mod8(|me.delivered|) && p.num == |me.delivered|
    ensures var (end, payload, outbound) := OnFrame(ReduceEndpoint(me), ReducePacket(p));
            var me' := IdealReceive(me, p);
            && end == ReduceEndpoint(me') && payload == Some(p.payload)
            && me'.delivered == me.delivered + [p.payload] && me'.wire == me.wire + [PAck(|me'.delivered|)]
            && outbound == Send(ReducePacket(PAck(|me'.delivered|)))
  {
    assert NextSequence(Mod8(p.num)) == Mod8(p.num + 1);
  }

  lemma RefusedReduces(me: Ideal, p: Packet)
    requires p.PData? && Retire(ReduceEndpoint(me), Mod8(p.ack)) == ReduceEndpoint(IdealRetire(me, p.ack))
    requires Mod8(p.num) != Mod8(|me.delivered|) && p.num != |me.delivered|
    ensures var (end, payload, outbound) := OnFrame(ReduceEndpoint(me), ReducePacket(p));
            var me' := IdealReceive(me, p);
            && end == ReduceEndpoint(me') && payload == None
            && me'.delivered == me.delivered && me'.wire == me.wire + [PAck(|me.delivered|)]
            && outbound == Send(ReducePacket(PAck(|me.delivered|)))
  {
  }

  /** Receiving `p` is the reduced receipt of the reduced packet. */
  predicate ReceiptReduces(me: Ideal, p: Packet) {
    var (end, payload, outbound) := OnFrame(ReduceEndpoint(me), ReducePacket(p));
    var me' := IdealReceive(me, p);
    && end == ReduceEndpoint(me')
    && me'.delivered == me.delivered + (if payload.Some? then [payload.value] else [])
    && ReduceWire(me'.wire) == Emit(ReduceWire(me.wire), outbound)
    && me'.sent == me.sent
  }

  lemma NakReceiptReduces(me: Ideal, other: Ideal, p: Packet)
    requires p.PNak? && ReduceEndpoint(IdealRetire(me, p.ack)) == Retire(ReduceEndpoint(me), Mod8(p.ack))
    requires Flow(IdealRetire(me, p.ack), other) && Flow(other, IdealRetire(me, p.ack))
    ensures ReceiptReduces(me, p)
  {
    ResendStep(IdealRetire(me, p.ack), other);
  }

  lemma AcceptedReceiptReduces(me: Ideal, p: Packet)
    requires p.PData? && Retire(ReduceEndpoint(me), Mod8(p.ack)) == ReduceEndpoint(IdealRetire(me, p.ack))
    requires Mod8(p.num) == Mod8(|me.delivered|) && p.num == |me.delivered|
    ensures ReceiptReduces(me, p)
  {
    AcceptedReduces(me, p);
    ReduceWireAppend(me.wire, PAck(|IdealReceive(me, p).delivered|));
  }

  lemma RefusedReceiptReduces(me: Ideal, p: Packet)
    requires p.PData? && Retire(ReduceEndpoint(me), Mod8(p.ack)) == ReduceEndpoint(IdealRetire(me, p.ack))
    requires Mod8(p.num) != Mod8(|me.delivered|) && p.num != |me.delivered|
    ensures ReceiptReduces(me, p)
  {
    RefusedReduces(me, p);
    ReduceWireAppend(me.wire, PAck(|me.delivered|));
  }

  lemma DataReceiptReduces(me: Ideal, p: Packet)
    requires p.PData? && ReduceEndpoint(IdealRetire(me, p.ack)) == Retire(ReduceEndpoint(me), Mod8(p.ack))
    requires Mod8(p.num) == Mod8(|me.delivered|) <==> p.num == |me.delivered|
    ensures ReceiptReduces(me, p)
  {
    if p.num == |me.delivered| {
      AcceptedReceiptReduces(me, p);
    } else {
      RefusedReceiptReduces(me, p);
    }
  }

  lemma ReceiveReduces(me: Ideal, other: Ideal)
    requires other.wire != [] && Flow(me, other) && Flow(other, me)
    ensures ReceiptReduces(me, other.wire[0])
  {
    var p := other.wire[0];
    RetireAgrees(me, p.ack);
    TakeStep(me, other);
    var me1 := IdealRetire(me, p.ack);
    var other1 := other.(wire := other.wire[1..]);
    match p
    case PAck(_) =>
    case PNak(_) => NakReceiptReduces(me, other1, p);
    case PData(_, _, _, _) =>
      TailTame(other.wire, other.sent, Base(me), |me.delivered|, |other.delivered|);
      AcceptStep(me1, other1, p);
      DataReceiptReduces(me, p);
  }

  lemma ReceiveStep(me: Ideal, other: Ideal, window: nat)
    requires Flow(me, other) && Flow(other, me)
    ensures StepHolds(me, other, Receive, window)
  {
    if other.wire != [] {
      ReceiveFlow(me, other);
      ReceiveReduces(me, other);
      TailTame(other.wire, other.sent, Base(me), |me.delivered|, |other.delivered|);
    }
  }

  lemma ActStep(me: Ideal, other: Ideal, action: Action, window: nat)
    requires window <= 7 && Flow(me, other) && Flow(other, me)
    ensures StepHolds(me, other, action, window)
  {
    match action
    case Submit(payload) => SubmitStep(me, other, payload, window);
    case Receive => ReceiveStep(me, other, window);
    case Lose(index) => LoseStep(me, other, index, window);
    case Garble(error) => GarbleStep(me, other, error, window);
    case Resend => ResendStep(me, other);
  }

  // ---------------------------------------------------------------------------------------------
  // Whole runs.

  /** Over every run with a window of at most seven, the three-bit protocol is the unbounded one
      with its numbers reduced mod 8, and the invariant holds. */
  lemma {:induction false} RunRefinesIdeal(events: seq<Event>, window: nat)
    requires window <= 7
    ensures Run(events, window) == ReduceLink(IdealRun(events, window))
    ensures Invariant(IdealRun(events, window))
  {
    if events != [] {
      var before := events[..|events| - 1];
      var event := events[|events| - 1];
      RunRefinesIdeal(before, window);
      var link := IdealRun(before, window);
      if event.byA {
        ActStep(link.a, link.b, event.action, window);
      } else {
        ActStep(link.b, link.a, event.action, window);
      }
    }
  }

  /** No duplicate, gap or reordering in either direction, over any run. */
  lemma DeliveryInOrder(events: seq<Event>)
    ensures InOrder(Run(events, MAX_WINDOW))
  {
    RunRefinesIdeal(events, MAX_WINDOW);
  }

  /** The queue of `me` is the interval [base, next) reduced mod 8: `base` lies at or below what
      `other` has delivered, and each entry holds the payload of its number. */
  predicate QueueIsInterval(me: Peer, other: Peer) {
    var base := |me.sent| - |me.end.inFlight|;
    && 0 <= base <= |other.delivered| <= |me.sent| <= base + 7
    && me.end.nextTxFrame == |me.sent| % 8
    && me.end.nextRxFrame == |me.delivered| % 8
    && forall i :: 0 <= i < |me.end.inFlight| ==>
         && me.end.inFlight[i].frameNum == (base + i) % 8
         && me.end.inFlight[i].payload == me.sent[base + i]
  }

  lemma FlowGivesInterval(s: Ideal, r: Ideal)
    requires Flow(s, r)
    ensures QueueIsInterval(Reduce(s), Reduce(r))
  {
    var me := Reduce(s);
    forall i | 0 <= i < |me.end.inFlight|
      ensures && me.end.inFlight[i].frameNum == (Base(s) + i) % 8
              && me.end.inFlight[i].payload == me.sent[Base(s) + i]
    {
      assert s.inFlight[i].num == Base(s) + i;
    }
  }

  lemma QueuesAreIntervals(events: seq<Event>)
    ensures var link := Run(events, MAX_WINDOW);
            QueueIsInterval(link.a, link.b) && QueueIsInterval(link.b, link.a)
  {
    RunRefinesIdeal(events, MAX_WINDOW);
    var link := IdealRun(events, MAX_WINDOW);
    FlowGivesInterval(link.a, link.b);
    FlowGivesInterval(link.b, link.a);
  }

  /** No other number of the interval has the three bits of `ack`. */
  predicate OnlyOneMeant(base: int, next: nat, ack: nat) {
    forall k :: base <= k <= next && k % 8 == ack % 8 ==> k == ack
  }

  lemma SevenApart(base: int, next: nat, ack: nat)
    requires 0 <= base <= ack <= next <= base + 7
    ensures OnlyOneMeant(base, next, ack)
  {
    forall k | base <= k <= next && k % 8 == ack % 8
      ensures k == ack
    {
      if k <= ack { SameResidue(k, ack); } else { SameResidue(ack, k); }
    }
  }

  /** The acknowledgement in the frame `me` reads next stands for the unbounded number `ack`: no
      other number between base and next has its three bits, `other` has delivered everything below
      it, and the positional retirement keeps precisely the entries from `ack` on. */
  predicate AcknowledgementMeans(me: Peer, other: Peer, ack: nat)
    requires other.wire != []
  {
    var base := |me.sent| - |me.end.inFlight|;
    && 0 <= base <= ack <= |other.delivered| <= |me.sent|
    && other.wire[0].Acknowledges() == Some(ack % 8)
    && OnlyOneMeant(base, |me.sent|, ack)
    && Retire(me.end, ack % 8).inFlight == me.end.inFlight[ack - base..]
  }

  lemma FlowGivesMeaning(me: Ideal, other: Ideal)
    requires other.wire != [] && Flow(me, other) && Flow(other, me)
    ensures AcknowledgementMeans(Reduce(me), Reduce(other), other.wire[0].ack)
  {
    var ack := other.wire[0].ack;
    RetireAgrees(me, ack);
    SevenApart(Base(me), |me.sent|, ack);
    assert Reduce(other).wire[0] == ReducePacket(other.wire[0]);
  }

  lemma AcknowledgementIsUnambiguous(events: seq<Event>)
    ensures var link := Run(events, MAX_WINDOW);
            && (link.b.wire != [] ==> exists ack :: AcknowledgementMeans(link.a, link.b, ack))
            && (link.a.wire != [] ==> exists ack :: AcknowledgementMeans(link.b, link.a, ack))
  {
    RunRefinesIdeal(events, MAX_WINDOW);
    var link := IdealRun(events, MAX_WINDOW);
    if link.b.wire != [] {
      FlowGivesMeaning(link.a, link.b);
    }
    if link.a.wire != [] {
      FlowGivesMeaning(link.b, link.a);
    }
  }

  // ---------------------------------------------------------------------------------------------
  // Why seven. With eight frames outstanding, all delivered and none acknowledged, a resend of the
  // oldest carries the number expected next.

  function Blanks(k: nat): seq<Bytes> {
    seq(k, _ => [])
  }

  function Submits(k: nat): seq<Event> {
    seq(k, _ => Event(true, Submit([])))
  }

  function Receives(k: nat): seq<Event> {
    seq(k, _ => Event(false, Receive))
  }

  /** `a` after sending `k` frames of which the first `read` have been read. */
  function SenderAfter(k: nat, read: nat): Peer
    requires read <= k
  {
    Peer(Endpoint(Connected, Mod8(k), 0, seq(k, i => InFlight(Mod8(i), [], 1)), false, false),
         Blanks(k), [], seq(k - read, i => Data(Mod8(read + i), 0, false, [])))
  }

  /** `b` after reading `k` new frames, its acknowledgements still on the line. */
  function ReceiverAfter(k: nat): Peer {
    Peer(Endpoint(Connected, 0, Mod8(k), [], false, false),
         [], Blanks(k), seq(k, i => Ack(Mod8(i + 1), false)))
  }

  lemma SubmitOne(k: nat, window: nat)
    requires k < 8 <= window
    ensures Act(SenderAfter(k, 0), IDLE, Submit([]), window) == (SenderAfter(k + 1, 0), IDLE)
  {
    var a, a' := SenderAfter(k, 0), SenderAfter(k + 1, 0);
    assert a.end.inFlight + [InFlight(Mod8(k), [], 1)] == a'.end.inFlight;
    assert a.sent + [[]] == a'.sent;
    assert a.wire + [Data(Mod8(k), 0, false, [])] == a'.wire;
  }

  lemma {:induction false} AfterSubmits(k: nat, window: nat)
    requires k <= 8 <= window
    ensures Run(Submits(k), window) == Link(SenderAfter(k, 0), IDLE)
  {
    if k > 0 {
      AfterSubmits(k - 1, window);
      assert Submits(k)[..k - 1] == Submits(k - 1);
      SubmitOne(k - 1, window);
    } else {
      assert SenderAfter(0, 0) == IDLE;
    }
  }

  lemma ReceiveInOrder(b: Peer, a: Peer, window: nat)
    requires a.wire != [] && b.end.inFlight == []
    requires a.wire[0] == Data(b.end.nextRxFrame, 0, false, [])
    ensures var next := NextSequence(b.end.nextRxFrame);
            Act(b, a, Receive, window)
            == (b.(end := b.end.(nextRxFrame := next, nakPending := false),
                   delivered := b.delivered + [[]], wire := b.wire + [Ack(next, false)]),
                a.(wire := a.wire[1..]))
  {
  }

  lemma ReceiverStep(k: nat, window: nat)
    requires k < 8
    ensures Act(ReceiverAfter(k), SenderAfter(8, k), Receive, window)
            == (ReceiverAfter(k + 1), SenderAfter(8, k + 1))
  {
    var a, b := SenderAfter(8, k), ReceiverAfter(k);
    ReceiveInOrder(b, a, window);
    assert a.wire[1..] == SenderAfter(8, k + 1).wire;
    assert b.wire + [Ack(Mod8(k + 1), false)] == ReceiverAfter(k + 1).wire;
    assert b.delivered + [[]] == ReceiverAfter(k + 1).delivered;
  }

  lemma {:induction false} AfterReceives(k: nat, window: nat)
    requires k <= 8 <= window
    ensures Run(Submits(8) + Receives(k), window) == Link(SenderAfter(8, k), ReceiverAfter(k))
  {
    if k == 0 {
      AfterSubmits(8, window);
      assert Submits(8) + Receives(0) == Submits(8);
    } else {
      AfterReceives(k - 1, window);
      var events := Submits(8) + Receives(k);
      assert events[..|events| - 1] == Submits(8) + Receives(k - 1);
      ReceiverStep(k - 1, window);
    }
  }

  /** The run that delivers nine payloads when eight were sent. */
  function Ambiguity(): seq<Event> {
    Submits(8) + Receives(8) + [Event(true, Resend)] + [Event(false, Receive)]
  }

  lemma EightIsAmbiguous(window: nat)
    requires window >= 8
    ensures !InOrder(Run(Ambiguity(), window))
  {
    AfterReceives(8, window);
    var events := Submits(8) + Receives(8);
    var resent := events + [Event(true, Resend)];
    assert resent[..|resent| - 1] == events;
    assert Ambiguity()[..|Ambiguity()| - 1] == resent;
    var link := Run(resent, window);
    assert link.a.wire == [Data(0, 0, true, [])];
    assert |Run(Ambiguity(), window).b.delivered| == 9;
  }

  /** A window keeps every run in order exactly when it is at most seven. */
  lemma WindowSafeExactlyUpToSeven(window: nat)
    ensures (forall events :: InOrder(Run(events, window))) <==> window <= 7
  {
    if window <= 7 {
      forall events ensures InOrder(Run(events, window)) {
        RunRefinesIdeal(events, window);
      }
    } else {
      EightIsAmbiguous(window);
    }
  }
}
