/** The runtime is a peer of the byte link: what it reads and writes is what a connection facing another
    one reads and writes, so what the link guarantees holds for the payloads the runtime files. */
module PeerLaws {
  import opened Basics
  import opened AshFrames
  import opened AshConnections
  import opened AshCodec
  import opened EzspCodec
  import opened EzspFrames
  import opened Runtimes
  import B = ByteLinks

  // ---------------------------------------------------------------------------------------------
  // One runtime as a peer.

  /** What has been written and not yet read, from byte `read` on. */
  function Unread(n: Runtime, read: nat): Bytes
    requires read <= |Concat(n.written)|
  {
    Concat(n.written)[read..]
  }

  /** The runtime as a peer that has been handed `sent` and whose deliveries count from `from` on. */
  function AsPeer(n: Runtime, sent: seq<Bytes>, from: nat, read: nat): B.Peer
    requires from <= |n.arrived| && read <= |Concat(n.written)|
  {
    B.Peer(n.ash, n.decoder, sent, n.arrived[from..], Unread(n, read))
  }

  lemma {:induction false} ConcatLast<T>(parts: seq<seq<T>>, last: seq<T>)
    ensures Concat(parts + [last]) == Concat(parts) + last
  {
    if parts == [] {
      assert [last][1..] == [];
    } else {
      assert (parts + [last])[1..] == parts[1..] + [last];
      ConcatLast(parts[1..], last);
    }
  }

  /** `m` follows `n`: nothing delivered or written is taken back. */
  predicate Grows(n: Runtime, m: Runtime) {
    n.arrived <= m.arrived && Concat(n.written) <= Concat(m.written)
  }

  lemma GrowsOn(a: Runtime, b: Runtime, c: Runtime)
    requires Grows(a, b) && Grows(b, c)
    ensures Grows(a, c)
  {
  }

  lemma LineIsWritten(n: Runtime, frame: AshFrame, sent: seq<Bytes>, from: nat, read: nat)
    requires from <= |n.arrived| && read <= |Concat(n.written)|
    ensures var m := n.(written := n.written + [Line(frame)]);
            && Grows(n, m)
            && AsPeer(m, sent, from, read) == B.Written(AsPeer(n, sent, from, read), Send(frame), B.Intact)
  {
    ConcatLast(n.written, Line(frame));
    assert (Concat(n.written) + Line(frame))[read..] == Concat(n.written)[read..] + Line(frame);
  }

  lemma ReplyWrites(n: Runtime, outbound: Outbound, sent: seq<Bytes>, from: nat, read: nat)
    requires from <= |n.arrived| && read <= |Concat(n.written)|
    ensures var (m, r) := Reply(n, outbound);
            && Grows(n, m)
            && AsPeer(m, sent, from, read) == B.Written(AsPeer(n, sent, from, read), outbound, B.Intact)
            && (r.Ok? <==> B.Writable(outbound))
  {
    if outbound.Send? {
      if Encoded(outbound.frame).Ok? {
        LineIsWritten(n, outbound.frame, sent, from, read);
      } else {
        var me := AsPeer(n, sent, from, read);
        assert me.line + Line(outbound.frame) == me.line;
      }
    }
  }

  lemma ReceivedDelivers(n: Runtime, frame: AshFrame, from: nat)
    requires from <= |n.arrived|
    ensures var (m, payload, outbound) := Received(n, frame);
            && m.written == n.written && n.arrived <= m.arrived
            && m.arrived[from..] == n.arrived[from..] + if payload.Some? then [payload.value] else []
  {
  }

  lemma DispatchWritesNothing(n: Runtime, payload: Bytes)
    ensures var m := Dispatch(n, payload);
            m.ash == n.ash && m.decoder == n.decoder && m.arrived == n.arrived && m.written == n.written
  {
  }

  /** Handling one output is the peer's step for it. */
  lemma HandleActs(n: Runtime, item: Decoded, sent: seq<Bytes>, from: nat, read: nat)
    requires from <= |n.arrived| && read <= |Concat(n.written)|
    ensures var (m, r) := Handle(n, item);
            && Grows(n, m)
            && B.ItemStep(AsPeer(n, sent, from, read), item, B.Intact) == (AsPeer(m, sent, from, read), r.Ok?)
  {
    match item
    case Frame(frame) =>
      var (m, payload, outbound) := Received(n, frame);
      ReceivedDelivers(n, frame, from);
      ReplyWrites(m, outbound, sent, from, read);
      B.AcknowledgementIsWritable(n.ash, frame);
      if payload.Some? {
        DispatchWritesNothing(Reply(m, outbound).0, payload.value);
      }
    case Rejected(error) =>
      var (ash, outbound) := OnDecodeFailure(n.ash, error);
      ReplyWrites(n.(ash := ash), outbound, sent, from, read);
  }

  lemma {:induction false} HandleAllActs(n: Runtime, items: seq<Decoded>, sent: seq<Bytes>, from: nat, read: nat)
    requires from <= |n.arrived| && read <= |Concat(n.written)|
    ensures var m := HandleAll(n, items).0;
            && Grows(n, m)
            && B.HandleItems(AsPeer(n, sent, from, read), items, []) == AsPeer(m, sent, from, read)
    decreases |items|
  {
    if items != [] {
      var (m, r) := Handle(n, items[0]);
      HandleActs(n, items[0], sent, from, read);
      if r.Ok? {
        HandleAllActs(m, items[1..], sent, from, read);
        GrowsOn(n, m, HandleAll(m, items[1..]).0);
      }
    }
  }

  // ---------------------------------------------------------------------------------------------
  // A runtime and an NCP at the two ends of a line.

  /** The runtime consumes so many bytes of what the NCP has written, or hands a request to ASH, or does
      anything that concerns neither connection nor line, as the rest of a command and a poll; or the
      NCP acts. */
  datatype Turn =
    | Reads(count: nat)
    | Hands(format: HeaderFormat, request: Bytes)
    | Goes(to: Runtime)
    | NcpActs(action: B.Action)

  /** `sent` are the requests that ASH took, `read` the bytes that the NCP has read; deliveries to the
      runtime count from `from` on. */
  datatype Table = Table(n: Runtime, sent: seq<Bytes>, from: nat, read: nat, ncp: B.Peer)

  predicate Sound(t: Table) {
    t.from <= |t.n.arrived| && t.read <= |Concat(t.n.written)|
  }

  /** The runtime's end of the table. */
  function Host(t: Table): B.Peer
    requires Sound(t)
  {
    AsPeer(t.n, t.sent, t.from, t.read)
  }

  predicate SameLine(n: Runtime, m: Runtime) {
    m.ash == n.ash && m.decoder == n.decoder && m.arrived == n.arrived && m.written == n.written
  }

  /** Acting, the NCP reads from the front of the runtime's line and leaves the rest of it alone. */
  lemma NcpReads(ncp: B.Peer, host: B.Peer, action: B.Action)
    ensures var host' := B.Act(ncp, host, action).1;
            && |host'.line| <= |host.line| && host' == host.(line := host.line[|host.line| - |host'.line|..])
  {
    if action.Read? {
      var k := if action.count <= |host.line| then action.count else |host.line|;
      assert |host.line[k..]| == |host.line| - k;
    } else {
      assert host.line[0..] == host.line;
    }
  }

  /** How many bytes the NCP reads. */
  function Taken(ncp: B.Peer, host: B.Peer, action: B.Action): (k: nat)
    ensures k <= |host.line|
    ensures B.Act(ncp, host, action).1 == host.(line := host.line[k..])
  {
    NcpReads(ncp, host, action);
    |host.line| - |B.Act(ncp, host, action).1.line|
  }

  function Step(t: Table, turn: Turn): Table
    requires Sound(t)
  {
    match turn
    case Reads(count) =>
      var k := if count <= |t.ncp.line| then count else |t.ncp.line|;
      t.(n := Consume(t.n, t.ncp.line[..k]).0, ncp := t.ncp.(line := t.ncp.line[k..]))
    case Hands(format, request) =>
      var taken := SendData(t.n.ash, request, MAX_WINDOW).1.Ok?;
      t.(n := Transmitted(t.n, format, request).0, sent := if taken then t.sent + [request] else t.sent)
    case Goes(to) => if SameLine(t.n, to) then t.(n := to) else t
    case NcpActs(action) =>
      t.(ncp := B.Act(t.ncp, Host(t), action).0, read := t.read + Taken(t.ncp, Host(t), action))
  }

  /** What the table looks like as a link. */
  predicate LinksAs(t: Table, events: seq<B.Event>) {
    Sound(t) && B.Run(events) == B.Link(Host(t), t.ncp)
  }

  ghost predicate LinksSomehow(t: Table) {
    exists events :: LinksAs(t, events)
  }

  lemma RunLast(events: seq<B.Event>, event: B.Event)
    ensures B.Run(events + [event]) == B.Step(B.Run(events), event)
  {
    assert (events + [event])[..|events|] == events;
  }

  /** Two events of the link, by what they make of its ends. */
  lemma HostEvent(t: Table, t': Table, events: seq<B.Event>, action: B.Action)
    requires LinksAs(t, events) && Sound(t') && B.Act(Host(t), t.ncp, action) == (Host(t'), t'.ncp)
    ensures LinksSomehow(t')
  {
    RunLast(events, B.Event(true, action));
    assert LinksAs(t', events + [B.Event(true, action)]);
  }

  lemma NcpEvent(t: Table, t': Table, events: seq<B.Event>, action: B.Action)
    requires LinksAs(t, events) && Sound(t') && B.Act(t.ncp, Host(t), action) == (t'.ncp, Host(t'))
    ensures LinksSomehow(t')
  {
    RunLast(events, B.Event(false, action));
    assert LinksAs(t', events + [B.Event(false, action)]);
  }

  lemma ConsumeActs(n: Runtime, other: B.Peer, count: nat, sent: seq<Bytes>, from: nat, read: nat)
    requires from <= |n.arrived| && read <= |Concat(n.written)|
    ensures var k := if count <= |other.line| then count else |other.line|;
            var m := Consume(n, other.line[..k]).0;
            && Grows(n, m)
            && B.Act(AsPeer(n, sent, from, read), other, B.Read(count, []))
               == (AsPeer(m, sent, from, read), other.(line := other.line[k..]))
  {
    var k := if count <= |other.line| then count else |other.line|;
    var (decoder, items) := Fed(n.decoder, other.line[..k]);
    HandleAllActs(n.(decoder := decoder), items, sent, from, read);
  }

  lemma TransmittedActs(n: Runtime, other: B.Peer, format: HeaderFormat, request: Bytes, sent: seq<Bytes>,
                        from: nat, read: nat)
    requires from <= |n.arrived| && read <= |Concat(n.written)|
    ensures var m := Transmitted(n, format, request).0;
            var sent' := if SendData(n.ash, request, MAX_WINDOW).1.Ok? then sent + [request] else sent;
            && Grows(n, m)
            && B.Act(AsPeer(n, sent, from, read), other, B.Submit(request, B.Intact))
               == (AsPeer(m, sent', from, read), other)
  {
    var (ash, data) := SendData(n.ash, request, MAX_WINDOW);
    if data.Ok? {
      var handed := n.(ash := ash, sent := n.sent + [Request(format, request)]);
      ReplyWrites(handed, Send(data.value), sent + [request], from, read);
    }
  }

  /** The table after the NCP became `ncp` and read `k` bytes. */
  lemma HostLater(t: Table, ncp: B.Peer, k: nat, host': B.Peer)
    requires Sound(t) && k <= |Host(t).line| && host' == Host(t).(line := Host(t).line[k..])
    ensures var t' := t.(ncp := ncp, read := t.read + k);
            Sound(t') && Host(t') == host'
  {
    assert Unread(t.n, t.read)[k..] == Unread(t.n, t.read + k);
  }

  /** Each turn is an event of the link, or none. */
  lemma TurnLinks(t: Table, events: seq<B.Event>, turn: Turn)
    requires LinksAs(t, events)
    ensures LinksSomehow(Step(t, turn))
  {
    var t' := Step(t, turn);
    match turn
    case Reads(count) =>
      ConsumeActs(t.n, t.ncp, count, t.sent, t.from, t.read);
      HostEvent(t, t', events, B.Read(count, []));
    case Hands(format, request) =>
      TransmittedActs(t.n, t.ncp, format, request, t.sent, t.from, t.read);
      HostEvent(t, t', events, B.Submit(request, B.Intact));
    case Goes(_) =>
      assert LinksAs(t', events);
    case NcpActs(action) =>
      NcpTurn(t, action);
      NcpEvent(t, t', events, action);
  }

  lemma NcpTurn(t: Table, action: B.Action)
    requires Sound(t)
    ensures var t' := Step(t, NcpActs(action));
            Sound(t') && B.Act(t.ncp, Host(t), action) == (t'.ncp, Host(t'))
  {
    var (ncp, host') := B.Act(t.ncp, Host(t), action);
    HostLater(t, ncp, Taken(t.ncp, Host(t), action), host');
  }

  /** Beginning and concluding a command, and taking the queue, concern neither. */
  lemma TheRestIsQuiet<R>(n: Runtime, command: CommandSpec<R>, outcome: Result<(), EzspError>)
    ensures SameLine(n, Started(n, command).0) && SameLine(n, Conclude(n, command, outcome).0)
    ensures SameLine(n, n.(callbacks := []))
  {
  }

  // ---------------------------------------------------------------------------------------------
  // Whole dialogues.

  /** Just past the handshake on both sides, with nothing on either line. */
  function Start(n: Runtime): Table {
    Table(n, [], |n.arrived|, |Concat(n.written)|, B.IDLE)
  }

  lemma TurnStaysSound(t: Table, turn: Turn)
    requires Sound(t)
    ensures Sound(Step(t, turn)) && Step(t, turn).from == t.from
  {
    match turn
    case Reads(count) => ConsumeActs(t.n, t.ncp, count, t.sent, t.from, t.read);
    case Hands(format, request) => TransmittedActs(t.n, t.ncp, format, request, t.sent, t.from, t.read);
    case Goes(_) =>
    case NcpActs(action) => NcpTurn(t, action);
  }

  function Dialogue(n: Runtime, turns: seq<Turn>): (t: Table)
    ensures Sound(t) && t.from == |n.arrived|
  {
    if turns == [] then Start(n)
    else
      var t := Dialogue(n, turns[..|turns| - 1]);
      TurnStaysSound(t, turns[|turns| - 1]);
      Step(t, turns[|turns| - 1])
  }

  lemma StartLinks(n: Runtime)
    requires n.ash == ESTABLISHED && n.decoder == EMPTY
    ensures LinksSomehow(Start(n))
  {
    assert B.Run([]) == B.Link(B.IDLE, B.IDLE);
    assert LinksAs(Start(n), []);
  }

  lemma {:induction false} DialogueLinks(n: Runtime, turns: seq<Turn>)
    requires n.ash == ESTABLISHED && n.decoder == EMPTY
    ensures LinksSomehow(Dialogue(n, turns))
  {
    if turns == [] {
      StartLinks(n);
    } else {
      var before := Dialogue(n, turns[..|turns| - 1]);
      DialogueLinks(n, turns[..|turns| - 1]);
      var events :| LinksAs(before, events);
      TurnLinks(before, events, turns[|turns| - 1]);
    }
  }

  /** However reads, requests and the NCP's own actions interleave, and whatever befalls the frames that
      the NCP writes: the payloads that ASH returns to the runtime are a prefix of those the NCP sent,
      and the NCP has delivered a prefix of the requests that ASH took. */
  lemma RuntimeKeepsOrder(n: Runtime, turns: seq<Turn>)
    requires n.ash == ESTABLISHED && n.decoder == EMPTY
    ensures var t := Dialogue(n, turns);
            t.n.arrived[|n.arrived|..] <= t.ncp.sent && t.ncp.delivered <= t.sent
  {
    DialogueLinks(n, turns);
    var t := Dialogue(n, turns);
    var events :| LinksAs(t, events);
    B.BytesArriveInOrder(events);
  }
}
