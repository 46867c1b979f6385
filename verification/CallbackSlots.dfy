/** The callback slots of the reverse-dial proxy's `PrefaceListener`.

    Appliances announce themselves with "EVA" or "ELA"; their connections wait, one per address and agent, in
    channels of capacity one for a dialer. Any number of Accept and Dial calls run concurrently. Accepting a connection,
    each channel operation and each access to the map of registered hosts is one atomic step; an agent's first packet is
    read, which concerns nobody else, in the step that then looks up its host. */
module CallbackSlots {
  import opened Runs
  import opened Wrappers

  datatype Agent = EVA | ELA

  /** An accepted connection: where it comes from and, once it was read, the first packet it sent. Connections are
      numbered in the order in which they were accepted. */
  datatype Incoming = Incoming(addr: string, packet: Option<string>)

  /** A channel of capacity one, made for one agent of one registration of an address. */
  datatype Channel = Channel(addr: string, agent: Agent, content: Option<nat>)

  datatype ApplianceChans = ApplianceChans(eva: nat, ela: nat)

  /** A storeConn in flight: the channel it looked up and whether it has passed the first select. */
  datatype Store = Store(chan: nat, drained: bool)

  datatype DialResult = Pending | Got(conn: nat) | TimedOut

  datatype Dial = Dial(addr: string, agent: Agent, chan: nat, result: DialResult)

  datatype Listener = Listener(
    conns: seq<Incoming>,
    chans: seq<Channel>,
    ch: map<string, ApplianceChans>,
    stores: map<nat, Store>,
    dials: seq<Dial>,
    returned: set<nat>,
    refused: set<nat>,
    closed: set<nat>)

  datatype Step =
    | RegisterHost(addr: string)
    | Accept(addr: string)
    | Preface(conn: nat, packet: string)
    | Drain(conn: nat)
    | Put(conn: nat)
    | DialStart(addr: string, agent: Agent)
    | DialTake(dial: nat)
    | DialTimeout(dial: nat)

  const INIT := Listener([], [], map[], map[], [], {}, {}, {})

  function Announces(packet: string): (agent: Option<Agent>) {
    if packet == "EVA" then Some(EVA) else if packet == "ELA" then Some(ELA) else None
  }

  function ChanOf(chans: ApplianceChans, agent: Agent): nat {
    match agent
    case EVA => chans.eva
    case ELA => chans.ela
  }

  function SetContent(l: Listener, k: nat, content: Option<nat>): seq<Channel>
    requires k < |l.chans|
  {
    l.chans[k := l.chans[k].(content := content)]
  }

  /** First select of storeConn: empty the channel, closing what was in it. */
  function DrainStep(l: Listener, c: nat): Listener {
    if c !in l.stores || l.stores[c].drained || l.stores[c].chan >= |l.chans| then l else
      var k := l.stores[c].chan;
      l.(stores := l.stores[c := Store(k, true)],
         chans := SetContent(l, k, None),
         closed := match l.chans[k].content case Some(previous) => l.closed + {previous} case None => l.closed)
  }

  /** Second select of storeConn: store the connection unless the channel was filled in between. */
  function PutStep(l: Listener, c: nat): Listener {
    if c !in l.stores || !l.stores[c].drained || l.stores[c].chan >= |l.chans| then l else
      var k := l.stores[c].chan;
      var done := l.(stores := l.stores - {c});
      if l.chans[k].content.None? then done.(chans := SetContent(l, k, Some(c)))
      else done.(closed := l.closed + {c})
  }

  /** A waiting dial receives from its channel. */
  function TakeStep(l: Listener, d: nat): Listener {
    if d >= |l.dials| || !l.dials[d].result.Pending? || l.dials[d].chan >= |l.chans| then l else
      var k := l.dials[d].chan;
      match l.chans[k].content
      case None => l
      case Some(c) =>
        l.(chans := SetContent(l, k, None), dials := l.dials[d := l.dials[d].(result := Got(c))])
  }

  function AcceptStep(l: Listener, addr: string): Listener {
    l.(conns := l.conns + [Incoming(addr, None)])
  }

  /** The first packet of an accepted connection is read; an agent's connection enters storeConn. */
  function PrefaceStep(l: Listener, c: nat, packet: string): Listener {
    if c >= |l.conns| || l.conns[c].packet.Some? then l else
      var addr, agent := l.conns[c].addr, Announces(packet);
      var read := l.(conns := l.conns[c := Incoming(addr, Some(packet))]);
      if agent.None? then read.(returned := l.returned + {c})
      else if addr !in l.ch then read.(refused := l.refused + {c})
      else read.(stores := l.stores[c := Store(ChanOf(l.ch[addr], agent.value), false)])
  }

  /** One step; a step that is not possible in `l` leaves it unchanged. */
  function Next(l: Listener, step: Step): Listener {
    match step
    case RegisterHost(addr) =>
      var n := |l.chans|;
      l.(chans := l.chans + [Channel(addr, EVA, None), Channel(addr, ELA, None)],
         ch := l.ch[addr := ApplianceChans(n, n + 1)])
    case Accept(addr) => AcceptStep(l, addr)
    case Preface(c, packet) => PrefaceStep(l, c, packet)
    case Drain(c) => DrainStep(l, c)
    case Put(c) => PutStep(l, c)
    case DialStart(addr, agent) =>
      if addr !in l.ch then l else
        l.(dials := l.dials + [Dial(addr, agent, ChanOf(l.ch[addr], agent), Pending)])
    case DialTake(d) => TakeStep(l, d)
    case DialTimeout(d) =>
      if d >= |l.dials| || !l.dials[d].result.Pending? then l else
        l.(dials := l.dials[d := l.dials[d].(result := TimedOut)])
  }

  function Run(l: Listener, steps: seq<Step>): Listener {
    Fold(Next, l, steps)
  }

  // ---------- Connections go where they belong ----------

  predicate Matches(i: Incoming, addr: string, agent: Agent) {
    i.addr == addr && i.packet.Some? && Announces(i.packet.value) == Some(agent)
  }

  predicate ForChannel(l: Listener, c: nat, k: nat) {
    c < |l.conns| && k < |l.chans| && Matches(l.conns[c], l.chans[k].addr, l.chans[k].agent)
  }

  predicate GoodDial(l: Listener, d: Dial) {
    && d.chan < |l.chans| && l.chans[d.chan].addr == d.addr && l.chans[d.chan].agent == d.agent
    && (d.result.Got? ==> d.result.conn < |l.conns| && Matches(l.conns[d.result.conn], d.addr, d.agent))
  }

  predicate Registered(l: Listener, addr: string, agent: Agent, k: nat) {
    k < |l.chans| && l.chans[k].addr == addr && l.chans[k].agent == agent
  }

  ghost predicate Routed(l: Listener) {
    && (forall a, g :: a in l.ch ==> Registered(l, a, g, ChanOf(l.ch[a], g)))
    && (forall c :: c in l.stores ==> ForChannel(l, c, l.stores[c].chan))
    && (forall k :: 0 <= k < |l.chans| && l.chans[k].content.Some? ==> ForChannel(l, l.chans[k].content.value, k))
    && (forall d :: 0 <= d < |l.dials| ==> GoodDial(l, l.dials[d]))
  }

  lemma RegisterKeepsRouted(l: Listener, addr: string)
    requires Routed(l)
    ensures Routed(Next(l, RegisterHost(addr)))
  {
    var l' := Next(l, RegisterHost(addr));
    forall k | 0 <= k < |l'.chans| && l'.chans[k].content.Some? ensures ForChannel(l', l'.chans[k].content.value, k) {
      assert k < |l.chans| && ForChannel(l, l.chans[k].content.value, k);
    }
    forall c | c in l'.stores ensures ForChannel(l', c, l'.stores[c].chan) {
      assert ForChannel(l, c, l.stores[c].chan);
    }
  }

  /** New connections and newly read packets do not matter to those already under way. */
  predicate Extends(conns: seq<Incoming>, more: seq<Incoming>) {
    |conns| <= |more| && forall i :: 0 <= i < |conns| && conns[i].packet.Some? ==> more[i] == conns[i]
  }

  lemma MoreConnsRouted(l: Listener, more: seq<Incoming>)
    requires Routed(l) && Extends(l.conns, more)
    ensures Routed(l.(conns := more))
  {
    var l' := l.(conns := more);
    forall d | 0 <= d < |l'.dials| ensures GoodDial(l', l'.dials[d]) {
      assert GoodDial(l, l.dials[d]);
    }
  }

  lemma PrefaceKeepsRouted(l: Listener, c: nat, packet: string)
    requires Routed(l)
    ensures Routed(PrefaceStep(l, c, packet))
  {
    if c < |l.conns| && l.conns[c].packet.None? {
      var addr, agent := l.conns[c].addr, Announces(packet);
      MoreConnsRouted(l, l.conns[c := Incoming(addr, Some(packet))]);
      if agent.Some? && addr in l.ch {
        assert Registered(l, addr, agent.value, ChanOf(l.ch[addr], agent.value));
      }
    }
  }

  lemma DrainKeepsRouted(l: Listener, c: nat)
    requires Routed(l)
    ensures Routed(DrainStep(l, c))
  {
  }

  lemma PutKeepsRouted(l: Listener, c: nat)
    requires Routed(l)
    ensures Routed(PutStep(l, c))
  {
  }

  lemma TakeKeepsRouted(l: Listener, d: nat)
    requires Routed(l)
    ensures Routed(TakeStep(l, d))
  {
  }

  lemma NextKeepsRouted(l: Listener, step: Step)
    requires Routed(l)
    ensures Routed(Next(l, step))
  {
    match step
    case RegisterHost(addr) => RegisterKeepsRouted(l, addr);
    case Accept(addr) => MoreConnsRouted(l, l.conns + [Incoming(addr, None)]);
    case Preface(c, packet) => PrefaceKeepsRouted(l, c, packet);
    case Drain(c) => DrainKeepsRouted(l, c);
    case Put(c) => PutKeepsRouted(l, c);
    case DialTake(d) => TakeKeepsRouted(l, d);
    case _ =>
  }

  lemma {:induction false} RunKeepsRouted(l: Listener, steps: seq<Step>)
    requires Routed(l)
    ensures Routed(Run(l, steps))
    decreases |steps|
  {
    if steps == [] {
    } else {
      RunKeepsRouted(l, steps[..|steps| - 1]);
      NextKeepsRouted(Run(l, steps[..|steps| - 1]), steps[|steps| - 1]);
    }
  }

  /** In every run a dial yields only connections that announced the dialed agent from the dialed address. */
  lemma DialYieldsItsAgent(steps: seq<Step>, d: nat)
    requires var l := Run(INIT, steps); d < |l.dials| && l.dials[d].result.Got?
    ensures var l := Run(INIT, steps);
      var dial := l.dials[d];
      dial.result.conn < |l.conns| && Matches(l.conns[dial.result.conn], dial.addr, dial.agent)
  {
    RunKeepsRouted(INIT, steps);
    assert GoodDial(Run(INIT, steps), Run(INIT, steps).dials[d]);
  }

  // ---------- Every connection is in exactly one place ----------

  datatype Place = Reading | Returned | Refused | Closed | Storing | Waiting(chan: nat) | Handed(dial: nat)

  predicate At(l: Listener, c: nat, p: Place) {
    match p
    case Reading => c < |l.conns| && l.conns[c].packet.None?
    case Returned => c in l.returned
    case Refused => c in l.refused
    case Closed => c in l.closed
    case Storing => c in l.stores
    case Waiting(k) => k < |l.chans| && l.chans[k].content == Some(c)
    case Handed(d) => d < |l.dials| && l.dials[d].result == Got(c)
  }

  /** A waiting connection is orphaned once its channel is no longer the registered one. */
  predicate Orphaned(l: Listener, k: nat)
    requires k < |l.chans|
  {
    var ch := l.chans[k];
    ch.addr in l.ch ==> ChanOf(l.ch[ch.addr], ch.agent) != k
  }

  ghost predicate Tracks(l: Listener, places: seq<Place>) {
    && |places| == |l.conns|
    && forall c: nat, p :: At(l, c, p) <==> c < |places| && places[c] == p
  }

  lemma AcceptTracks(l: Listener, addr: string, places: seq<Place>)
    requires Tracks(l, places)
    ensures Tracks(AcceptStep(l, addr), places + [Reading])
  {
    var l', after := AcceptStep(l, addr), places + [Reading];
    forall x: nat, p ensures At(l', x, p) <==> x < |after| && after[x] == p {
      assert At(l, x, p) <==> x < |places| && places[x] == p;
    }
  }

  lemma PrefaceTracks(l: Listener, c: nat, packet: string, places: seq<Place>) returns (after: seq<Place>)
    requires Tracks(l, places)
    ensures Tracks(PrefaceStep(l, c, packet), after)
  {
    after := places;
    if c < |l.conns| && l.conns[c].packet.None? {
      assert At(l, c, Reading);
      after := places[c := if Announces(packet).None? then Returned
                           else if l.conns[c].addr !in l.ch then Refused else Storing];
      var l' := PrefaceStep(l, c, packet);
      forall x: nat, p ensures At(l', x, p) <==> x < |after| && after[x] == p {
        assert At(l, x, p) <==> x < |places| && places[x] == p;
      }
    }
  }

  lemma DrainTracks(l: Listener, c: nat, places: seq<Place>) returns (after: seq<Place>)
    requires Routed(l) && Tracks(l, places)
    ensures Tracks(DrainStep(l, c), after)
  {
    after := places;
    if c in l.stores && !l.stores[c].drained {
      var k := l.stores[c].chan;
      assert At(l, c, Storing);
      if l.chans[k].content.Some? {
        var previous := l.chans[k].content.value;
        assert At(l, previous, Waiting(k));
        after := places[previous := Closed];
      }
      var l' := DrainStep(l, c);
      forall x: nat, p ensures At(l', x, p) <==> x < |after| && after[x] == p {
        assert At(l, x, p) <==> x < |places| && places[x] == p;
      }
    }
  }

  lemma PutTracks(l: Listener, c: nat, places: seq<Place>) returns (after: seq<Place>)
    requires Routed(l) && Tracks(l, places)
    ensures Tracks(PutStep(l, c), after)
  {
    after := places;
    if c in l.stores && l.stores[c].drained {
      var k := l.stores[c].chan;
      assert At(l, c, Storing);
      after := places[c := if l.chans[k].content.None? then Waiting(k) else Closed];
      var l' := PutStep(l, c);
      forall x: nat, p ensures At(l', x, p) <==> x < |after| && after[x] == p {
        assert At(l, x, p) <==> x < |places| && places[x] == p;
      }
    }
  }

  lemma TakeTracks(l: Listener, d: nat, places: seq<Place>) returns (after: seq<Place>)
    requires Routed(l) && Tracks(l, places)
    ensures Tracks(TakeStep(l, d), after)
  {
    after := places;
    if d < |l.dials| && l.dials[d].result.Pending? && l.chans[l.dials[d].chan].content.Some? {
      var k := l.dials[d].chan;
      var c := l.chans[k].content.value;
      assert At(l, c, Waiting(k));
      after := places[c := Handed(d)];
      var l' := TakeStep(l, d);
      forall x: nat, p ensures At(l', x, p) <==> x < |after| && after[x] == p {
        assert At(l, x, p) <==> x < |places| && places[x] == p;
      }
    }
  }

  lemma NextTracks(l: Listener, step: Step, places: seq<Place>) returns (after: seq<Place>)
    requires Routed(l) && Tracks(l, places)
    ensures Tracks(Next(l, step), after)
  {
    match step {
      case Accept(addr) =>
        AcceptTracks(l, addr, places);
        after := places + [Reading];
      case Preface(c, packet) => after := PrefaceTracks(l, c, packet, places);
      case Drain(c) => after := DrainTracks(l, c, places);
      case Put(c) => after := PutTracks(l, c, places);
      case DialTake(d) => after := TakeTracks(l, d, places);
      case _ =>
        after := places;
        forall c: nat, p ensures At(Next(l, step), c, p) <==> At(l, c, p) {
        }
    }
  }

  lemma {:induction false} RunTracks(steps: seq<Step>) returns (places: seq<Place>)
    ensures Tracks(Run(INIT, steps), places)
    decreases |steps|
  {
    if steps == [] {
      places := [];
    } else {
      var before := Run(INIT, steps[..|steps| - 1]);
      places := RunTracks(steps[..|steps| - 1]);
      RunKeepsRouted(INIT, steps[..|steps| - 1]);
      places := NextTracks(before, steps[|steps| - 1], places);
    }
  }

  /** After every interleaving each accepted connection is in exactly one place: being read, returned to the client,
      refused, closed, being stored, waiting in one channel or handed to one dial. In particular no connection
      is handed to two dials. */
  lemma ExactlyOnePlace(steps: seq<Step>, c: nat)
    ensures var l := Run(INIT, steps);
      && (c < |l.conns| <==> exists p :: At(l, c, p))
      && (forall p, q :: At(l, c, p) && At(l, c, q) ==> p == q)
  {
    var l := Run(INIT, steps);
    var places := RunTracks(steps);
    if c < |l.conns| {
      assert At(l, c, places[c]);
    }
  }

  // ---------- Which place, in terms of the steps ----------

  /** Connection `c` is accepted from `addr`. */
  predicate Accepts(l: Listener, step: Step, c: nat, addr: string) {
    step == Accept(addr) && |l.conns| == c
  }

  /** The first packet of `c` is read. */
  predicate Reads(l: Listener, step: Step, c: nat, packet: string) {
    step == Preface(c, packet) && c < |l.conns| && l.conns[c].packet.None?
  }

  /** A client's first packet is read. */
  predicate ReadsClient(l: Listener, step: Step, c: nat) {
    step.Preface? && Reads(l, step, c, step.packet) && step.packet != "EVA" && step.packet != "ELA"
  }

  /** An agent's first packet is read while its host is not registered. */
  predicate ReadsStranger(l: Listener, step: Step, c: nat) {
    && step.Preface? && Reads(l, step, c, step.packet) && (step.packet == "EVA" || step.packet == "ELA")
    && l.conns[c].addr !in l.ch
  }

  /** A store empties the channel that `c` waits in, or the store of `c` itself finds its channel filled. */
  predicate Closes(l: Listener, step: Step, c: nat) {
    match step
    case Drain(s) =>
      && s in l.stores && !l.stores[s].drained && l.stores[s].chan < |l.chans|
      && l.chans[l.stores[s].chan].content == Some(c)
    case Put(s) =>
      && s == c && c in l.stores && l.stores[c].drained && l.stores[c].chan < |l.chans|
      && l.chans[l.stores[c].chan].content.Some?
    case _ => false
  }

  /** Dial `d` receives `c` from its channel. */
  predicate Hands(l: Listener, step: Step, d: nat, c: nat) {
    && step == DialTake(d) && d < |l.dials| && l.dials[d].result.Pending? && l.dials[d].chan < |l.chans|
    && l.chans[l.dials[d].chan].content == Some(c)
  }

  ghost predicate Happened(steps: seq<Step>, event: (Listener, Step) -> bool) {
    exists i: nat :: Occurs(Next, INIT, steps, i, event)
  }

  /** A host is registered iff it was at some step. */
  lemma RegisteredExactly(steps: seq<Step>, addr: string)
    ensures addr in Run(INIT, steps).ch <==> RegisterHost(addr) in steps
  {
    var event := (l: Listener, step: Step) => step == RegisterHost(addr);
    HoldsIffOccurred(Next, INIT, steps, (l: Listener) => addr in l.ch, event);
    if i: nat :| Occurs(Next, INIT, steps, i, event) {
      assert steps[i] == RegisterHost(addr);
    }
    if RegisterHost(addr) in steps {
      var i :| 0 <= i < |steps| && steps[i] == RegisterHost(addr);
      assert Occurs(Next, INIT, steps, i, event);
    }
  }

  lemma AddressExactly(steps: seq<Step>, c: nat, addr: string)
    ensures (c < |Run(INIT, steps).conns| && Run(INIT, steps).conns[c].addr == addr) <==>
            Happened(steps, (l: Listener, step: Step) => Accepts(l, step, c, addr))
  {
    HoldsIffOccurred(Next, INIT, steps, (l: Listener) => c < |l.conns| && l.conns[c].addr == addr,
                     (l: Listener, step: Step) => Accepts(l, step, c, addr));
  }

  lemma PacketExactly(steps: seq<Step>, c: nat, packet: string)
    ensures (c < |Run(INIT, steps).conns| && Run(INIT, steps).conns[c].packet == Some(packet)) <==>
            Happened(steps, (l: Listener, step: Step) => Reads(l, step, c, packet))
  {
    HoldsIffOccurred(Next, INIT, steps, (l: Listener) => c < |l.conns| && l.conns[c].packet == Some(packet),
                     (l: Listener, step: Step) => Reads(l, step, c, packet));
  }

  /** In every run a connection is returned to the client iff its first packet was read and names no agent. */
  lemma ReturnedExactly(steps: seq<Step>, c: nat)
    ensures c in Run(INIT, steps).returned <==>
            Happened(steps, (l: Listener, step: Step) => ReadsClient(l, step, c))
  {
    HoldsIffOccurred(Next, INIT, steps, (l: Listener) => c in l.returned,
                     (l: Listener, step: Step) => ReadsClient(l, step, c));
  }

  /** Step `i` reads an agent's first packet, and its host was not registered at any step before. */
  predicate StrangerAt(steps: seq<Step>, i: nat, c: nat) {
    && i < |steps| && steps[i].Preface? && Reads(Run(INIT, steps[..i]), steps[i], c, steps[i].packet)
    && (steps[i].packet == "EVA" || steps[i].packet == "ELA")
    && RegisterHost(Run(INIT, steps[..i]).conns[c].addr) !in steps[..i]
  }

  /** In every run a connection is refused iff its first packet names an agent and its host was not registered at any step
      before that packet was read. */
  lemma RefusedExactly(steps: seq<Step>, c: nat)
    ensures c in Run(INIT, steps).refused <==> exists i: nat :: StrangerAt(steps, i, c)
  {
    var event := (l: Listener, step: Step) => ReadsStranger(l, step, c);
    HoldsIffOccurred(Next, INIT, steps, (l: Listener) => c in l.refused, event);
    forall i: nat
      ensures Occurs(Next, INIT, steps, i, event) <==> StrangerAt(steps, i, c)
    {
      if i < |steps| && c < |Run(INIT, steps[..i]).conns| {
        RegisteredExactly(steps[..i], Run(INIT, steps[..i]).conns[c].addr);
      }
    }
  }

  /** In every run a connection is closed iff a store emptied the channel it waited in, or its own store found the channel
      filled. */
  lemma ClosedExactly(steps: seq<Step>, c: nat)
    ensures c in Run(INIT, steps).closed <==>
            Happened(steps, (l: Listener, step: Step) => Closes(l, step, c))
  {
    HoldsIffOccurred(Next, INIT, steps, (l: Listener) => c in l.closed,
                     (l: Listener, step: Step) => Closes(l, step, c));
  }

  /** In every run a dial has received a connection iff it took it from its channel. */
  lemma HandedExactly(steps: seq<Step>, d: nat, c: nat)
    ensures (d < |Run(INIT, steps).dials| && Run(INIT, steps).dials[d].result == Got(c)) <==>
            Happened(steps, (l: Listener, step: Step) => Hands(l, step, d, c))
  {
    HoldsIffOccurred(Next, INIT, steps, (l: Listener) => d < |l.dials| && l.dials[d].result == Got(c),
                     (l: Listener, step: Step) => Hands(l, step, d, c));
  }

  // ---------- Dials yield recent connections ----------

  /** storeConn(c) has finished (or refused `c`). */
  predicate Finished(l: Listener, c: nat, addr: string, agent: Agent) {
    c < |l.conns| && Matches(l.conns[c], addr, agent) && c !in l.stores
  }

  /** A connection from `addr` whose first packet has not been read yet. */
  predicate Unread(conns: seq<Incoming>, s: nat, addr: string) {
    s < |conns| && conns[s].packet.None? && conns[s].addr == addr
  }

  /** Nothing older than `c` is being read, in the registered channel or on its way into it. */
  predicate NoOlder(l: Listener, c: nat, addr: string, agent: Agent) {
    (forall s :: 0 <= s < c ==> !Unread(l.conns, s, addr)) &&
    (addr in l.ch ==>
      var k := ChanOf(l.ch[addr], agent);
      && (k < |l.chans| && l.chans[k].content.Some? ==> c <= l.chans[k].content.value)
      && (forall s <- l.stores :: l.stores[s].chan == k ==> c <= s))
  }

  /** `c` guards a set of channels: nothing older than `c` is being read, in them or on its way into them, the dials of
      `addr` and `agent` numbered from `m` on read only them, and those dials yield nothing older than `c`. */
  datatype Guard = Guard(c: nat, addr: string, agent: Agent, m: nat, chans: set<nat>)

  ghost predicate Guards(l: Listener, g: Guard) {
    && g.c < |l.conns| && g.m <= |l.dials|
    && (forall s :: 0 <= s < g.c ==> !Unread(l.conns, s, g.addr))
    && (forall k <- g.chans :: k < |l.chans| && l.chans[k].addr == g.addr)
    && (forall k <- g.chans :: l.chans[k].content.Some? ==> g.c <= l.chans[k].content.value)
    && (forall s <- l.stores :: l.stores[s].chan in g.chans ==> g.c <= s)
    && (g.addr in l.ch ==> ChanOf(l.ch[g.addr], g.agent) in g.chans)
    && (forall d :: g.m <= d < |l.dials| ==> GuardedDial(l.dials[d], g))
  }

  predicate GuardedDial(d: Dial, g: Guard) {
    d.addr == g.addr && d.agent == g.agent ==>
      d.chan in g.chans && (d.result.Got? ==> g.c <= d.result.conn)
  }

  lemma RegisterKeepsGuards(l: Listener, host: string, g: Guard) returns (after: Guard)
    requires Routed(l) && Guards(l, g)
    ensures after.(chans := g.chans) == g && Guards(Next(l, RegisterHost(host)), after)
  {
    after := g;
    if host == g.addr {
      after := g.(chans := g.chans + {ChanOf(ApplianceChans(|l.chans|, |l.chans| + 1), g.agent)});
    }
    var l' := Next(l, RegisterHost(host));
    forall d | g.m <= d < |l'.dials| ensures GuardedDial(l'.dials[d], after) {
      assert GuardedDial(l.dials[d], g);
    }
  }

  lemma AcceptKeepsGuards(l: Listener, from: string, g: Guard)
    requires Guards(l, g)
    ensures Guards(AcceptStep(l, from), g)
  {
    forall s | 0 <= s < g.c
      ensures !Unread(AcceptStep(l, from).conns, s, g.addr)
    {
      assert !Unread(l.conns, s, g.addr);
    }
  }

  lemma PrefaceKeepsGuards(l: Listener, s: nat, packet: string, g: Guard)
    requires Routed(l) && Guards(l, g)
    ensures Guards(PrefaceStep(l, s, packet), g)
  {
    if s < |l.conns| && l.conns[s].packet.None? {
      var addr, agent := l.conns[s].addr, Announces(packet);
      forall x | 0 <= x < g.c
        ensures !Unread(PrefaceStep(l, s, packet).conns, x, g.addr)
      {
        assert !Unread(l.conns, x, g.addr);
      }
      assert Unread(l.conns, s, addr);
      if agent.Some? && addr in l.ch {
        assert Registered(l, addr, agent.value, ChanOf(l.ch[addr], agent.value));
      }
    }
  }

  lemma DrainKeepsGuards(l: Listener, s: nat, g: Guard)
    requires Guards(l, g)
    ensures Guards(DrainStep(l, s), g)
  {
  }

  lemma PutKeepsGuards(l: Listener, s: nat, g: Guard)
    requires Guards(l, g)
    ensures Guards(PutStep(l, s), g)
  {
  }

  lemma TakeKeepsGuards(l: Listener, d: nat, g: Guard)
    requires Guards(l, g)
    ensures Guards(TakeStep(l, d), g)
  {
  }

  lemma NextKeepsGuards(l: Listener, step: Step, g: Guard) returns (after: Guard)
    requires Routed(l) && Guards(l, g)
    ensures after.(chans := g.chans) == g && Guards(Next(l, step), after)
  {
    after := g;
    match step
    case RegisterHost(host) => after := RegisterKeepsGuards(l, host, g);
    case Accept(from) => AcceptKeepsGuards(l, from, g);
    case Preface(s, packet) => PrefaceKeepsGuards(l, s, packet, g);
    case Drain(s) => DrainKeepsGuards(l, s, g);
    case Put(s) => PutKeepsGuards(l, s, g);
    case DialTake(d) => TakeKeepsGuards(l, d, g);
    case DialStart(_, _) =>
    case DialTimeout(_) =>
  }

  lemma {:induction false} RunKeepsGuards(l: Listener, steps: seq<Step>, g: Guard) returns (after: Guard)
    requires Routed(l) && Guards(l, g)
    ensures after.(chans := g.chans) == g && Guards(Run(l, steps), after)
    decreases |steps|
  {
    after := g;
    if steps == [] {
    } else {
      after := RunKeepsGuards(l, steps[..|steps| - 1], g);
      RunKeepsRouted(l, steps[..|steps| - 1]);
      after := NextKeepsGuards(Run(l, steps[..|steps| - 1]), steps[|steps| - 1], after);
    }
  }

  /** After continuing with `steps`, dial `d`, started after `l`, has received a connection older than `c`. */
  predicate StaleDial(l: Listener, steps: seq<Step>, d: nat, c: nat, addr: string, agent: Agent) {
    var l' := Run(l, steps);
    && |l.dials| <= d < |l'.dials|
    && l'.dials[d].addr == addr && l'.dials[d].agent == agent
    && l'.dials[d].result.Got? && l'.dials[d].result.conn < c
  }

  lemma NoOlderNoStaleDial(l: Listener, steps: seq<Step>, d: nat, c: nat, addr: string, agent: Agent)
    requires Routed(l) && Finished(l, c, addr, agent) && NoOlder(l, c, addr, agent)
    ensures !StaleDial(l, steps, d, c, addr, agent)
  {
    var chans := if addr in l.ch then {ChanOf(l.ch[addr], agent)} else {};
    if addr in l.ch {
      assert Registered(l, addr, agent, ChanOf(l.ch[addr], agent));
    }
    var g := RunKeepsGuards(l, steps, Guard(c, addr, agent, |l.dials|, chans));
    var l' := Run(l, steps);
    if |l.dials| <= d < |l'.dials| {
      assert GuardedDial(l'.dials[d], g);
    }
  }

  function DialNow(l: Listener, addr: string, agent: Agent): seq<Step> {
    [DialStart(addr, agent), DialTake(|l.dials|)]
  }

  /** A dial empties the registered channel and receives what was in it. */
  lemma DialNowRuns(l: Listener, addr: string, agent: Agent)
    requires Routed(l) && addr in l.ch
    ensures var l' := Run(l, DialNow(l, addr, agent));
      var k := ChanOf(l.ch[addr], agent);
      && l'.ch == l.ch && l'.stores == l.stores && |l'.chans| == |l.chans| && |l'.dials| == |l.dials| + 1
      && k < |l.chans| && l'.chans[k].content.None?
      && l'.dials[|l.dials|] == Dial(addr, agent, k,
           match l.chans[k].content case Some(c) => Got(c) case None => Pending)
  {
    FoldTwo(Next, l, DialStart(addr, agent), DialTake(|l.dials|));
    assert Registered(l, addr, agent, ChanOf(l.ch[addr], agent));
  }

  /** A connection in flight reaches its channel if that is empty. */
  lemma StoreNowRuns(l: Listener, s: nat)
    requires s in l.stores && l.stores[s].chan < |l.chans| && l.chans[l.stores[s].chan].content.None?
    ensures var l' := Run(l, [Drain(s), Put(s)]);
      var k := l.stores[s].chan;
      l'.ch == l.ch && l'.dials == l.dials && |l'.chans| == |l.chans| && l'.chans[k].content == Some(s)
  {
    FoldTwo(Next, l, Drain(s), Put(s));
  }

  /** After continuing with `more`, dial `d`, started after `l`, has received `c`. */
  predicate LaterDialYields(l: Listener, more: seq<Step>, d: nat, c: nat) {
    var l' := Run(l, more);
    |l.dials| <= d < |l'.dials| && l'.dials[d].result == Got(c)
  }

  /** `c` is at most in the unregistered channel `k`, and the dials numbered from `m` on neither read that channel nor
      received `c`. */
  ghost predicate OutOfReach(l: Listener, k: nat, c: nat, m: nat) {
    && k < |l.chans| && c < |l.conns| && l.conns[c].packet.Some? && c !in l.stores && m <= |l.dials|
    && (forall a, g :: a in l.ch ==> ChanOf(l.ch[a], g) != k)
    && (forall j :: 0 <= j < |l.chans| && j != k ==> l.chans[j].content != Some(c))
    && (forall d :: m <= d < |l.dials| ==> l.dials[d].chan != k && l.dials[d].result != Got(c))
  }

  lemma NextKeepsOutOfReach(l: Listener, step: Step, k: nat, c: nat, m: nat)
    requires OutOfReach(l, k, c, m)
    ensures OutOfReach(Next(l, step), k, c, m)
  {
  }

  lemma {:induction false} RunKeepsOutOfReach(l: Listener, steps: seq<Step>, k: nat, c: nat, m: nat)
    requires OutOfReach(l, k, c, m)
    ensures OutOfReach(Run(l, steps), k, c, m)
    decreases |steps|
  {
    if steps == [] {
    } else {
      RunKeepsOutOfReach(l, steps[..|steps| - 1], k, c, m);
      NextKeepsOutOfReach(Run(l, steps[..|steps| - 1]), steps[|steps| - 1], k, c, m);
    }
  }

  lemma OrphansAreOutOfReach(steps: seq<Step>, k: nat)
    requires var l := Run(INIT, steps); k < |l.chans| && l.chans[k].content.Some? && Orphaned(l, k)
    ensures var l := Run(INIT, steps); OutOfReach(l, k, l.chans[k].content.value, |l.dials|)
  {
    var l := Run(INIT, steps);
    var c := l.chans[k].content.value;
    RunKeepsRouted(INIT, steps);
    ExactlyOnePlace(steps, c);
    assert ForChannel(l, c, k) && At(l, c, Waiting(k));
    assert c !in l.stores by {
      assert At(l, c, Storing) <==> c in l.stores;
    }
    forall j | 0 <= j < |l.chans| && j != k
      ensures l.chans[j].content != Some(c)
    {
      assert At(l, c, Waiting(j)) <==> l.chans[j].content == Some(c);
    }
    forall a, g | a in l.ch
      ensures ChanOf(l.ch[a], g) != k
    {
      assert Registered(l, a, g, ChanOf(l.ch[a], g));
    }
  }

  /** In every run a waiting connection can still be had by a dial started later, in some continuation, if and only if
      its channel was not replaced by a new registration of the host. */
  lemma OrphansCannotBeDialed(steps: seq<Step>, k: nat)
    requires var l := Run(INIT, steps); k < |l.chans| && l.chans[k].content.Some?
    ensures var l := Run(INIT, steps);
      (exists more, d :: LaterDialYields(l, more, d, l.chans[k].content.value)) <==> !Orphaned(l, k)
  {
    var l := Run(INIT, steps);
    var ch, c := l.chans[k], l.chans[k].content.value;
    if Orphaned(l, k) {
      OrphansAreOutOfReach(steps, k);
      forall more, d
        ensures !LaterDialYields(l, more, d, c)
      {
        RunKeepsOutOfReach(l, more, k, c, |l.dials|);
      }
    } else {
      RunKeepsRouted(INIT, steps);
      DialNowRuns(l, ch.addr, ch.agent);
      assert LaterDialYields(l, DialNow(l, ch.addr, ch.agent), |l.dials|, c);
    }
  }

  /** The first packet of `c` has not been read. */
  predicate NotReadIn(conns: seq<Incoming>, c: nat) {
    c < |conns| ==> conns[c].packet.None?
  }

  /** What holds since `addr` was registered, when the connections were `conns` and there were `n` channels and `m` dials:
      the host's channels are newer than that, all newer channels and the stores and dials that use them know only
      connections whose first packet was read since. */
  ghost predicate SinceRegistration(l: Listener, conns: seq<Incoming>, n: nat, m: nat, addr: string) {
    && |conns| <= |l.conns| && n <= |l.chans| && m <= |l.dials| && addr in l.ch
    && (forall c :: 0 <= c < |l.conns| && l.conns[c].packet.None? ==> NotReadIn(conns, c))
    && (forall g :: n <= ChanOf(l.ch[addr], g) < |l.chans|)
    && (forall k :: n <= k < |l.chans| && l.chans[k].content.Some? ==> NotReadIn(conns, l.chans[k].content.value))
    && (forall s <- l.stores :: n <= l.stores[s].chan ==> NotReadIn(conns, s))
    && (forall d :: m <= d < |l.dials| && l.dials[d].addr == addr ==>
          n <= l.dials[d].chan && (l.dials[d].result.Got? ==> NotReadIn(conns, l.dials[d].result.conn)))
  }

  lemma NextKeepsSince(l: Listener, step: Step, conns: seq<Incoming>, n: nat, m: nat, addr: string)
    requires SinceRegistration(l, conns, n, m, addr)
    ensures SinceRegistration(Next(l, step), conns, n, m, addr)
  {
  }

  lemma {:induction false} RunKeepsSince(
      l: Listener, steps: seq<Step>, conns: seq<Incoming>, n: nat, m: nat, addr: string)
    requires SinceRegistration(l, conns, n, m, addr)
    ensures SinceRegistration(Run(l, steps), conns, n, m, addr)
    decreases |steps|
  {
    if steps == [] {
    } else {
      RunKeepsSince(l, steps[..|steps| - 1], conns, n, m, addr);
      NextKeepsSince(Run(l, steps[..|steps| - 1]), steps[|steps| - 1], conns, n, m, addr);
    }
  }

  /** A registration forgets: in every run a dial of the host started after it only ever yields a connection whose first
      packet was read after it. */
  lemma RegistrationForgets(steps: seq<Step>, addr: string, more: seq<Step>, d: nat)
    ensures var l, l' := Run(INIT, steps), Run(Next(Run(INIT, steps), RegisterHost(addr)), more);
      |l.dials| <= d < |l'.dials| && l'.dials[d].addr == addr && l'.dials[d].result.Got? ==>
        NotReadIn(l.conns, l'.dials[d].result.conn)
  {
    var l := Run(INIT, steps);
    var registered := Next(l, RegisterHost(addr));
    RunKeepsRouted(INIT, steps);
    assert forall s <- l.stores :: ForChannel(l, s, l.stores[s].chan);
    assert SinceRegistration(registered, l.conns, |l.chans|, |l.dials|, addr);
    RunKeepsSince(registered, more, l.conns, |l.chans|, |l.dials|, addr);
  }

  /** The steps that hand the in-flight connection `s` to a dial started now. */
  function Steal(l: Listener, s: nat, addr: string, agent: Agent): seq<Step> {
    var l4 := Run(Run(l, DialNow(l, addr, agent)), [Drain(s), Put(s)]);
    DialNow(l, addr, agent) + [Drain(s), Put(s)] + DialNow(l4, addr, agent)
  }

  lemma StealYields(l: Listener, s: nat, addr: string, agent: Agent)
    requires Routed(l) && addr in l.ch && s in l.stores && l.stores[s].chan == ChanOf(l.ch[addr], agent)
    ensures var l' := Run(l, Steal(l, s, addr, agent));
      |l'.dials| == |l.dials| + 2 && l'.dials[|l.dials| + 1] == Dial(addr, agent, l.stores[s].chan, Got(s))
  {
    var first := DialNow(l, addr, agent);
    var l2 := Run(l, first);
    var l4 := Run(l2, [Drain(s), Put(s)]);
    DialNowRuns(l, addr, agent);
    FoldConcat(Next, l, first, [Drain(s), Put(s)]);
    StoreNowRuns(l2, s);
    FoldConcat(Next, l, first + [Drain(s), Put(s)], DialNow(l4, addr, agent));
    RunKeepsRouted(l, first + [Drain(s), Put(s)]);
    DialNowRuns(l4, addr, agent);
  }

  function PacketOf(agent: Agent): string {
    match agent
    case EVA => "EVA"
    case ELA => "ELA"
  }

  /** The steps that take the unread connection `s` into storeConn. */
  function ReadNow(l: Listener, s: nat, addr: string, agent: Agent): seq<Step> {
    (if addr in l.ch then [] else [RegisterHost(addr)]) + [Preface(s, PacketOf(agent))]
  }

  lemma ReadNowRuns(l: Listener, s: nat, addr: string, agent: Agent)
    requires Unread(l.conns, s, addr)
    ensures var l' := Run(l, ReadNow(l, s, addr, agent));
      addr in l'.ch && s in l'.stores && l'.stores[s].chan == ChanOf(l'.ch[addr], agent) && l'.dials == l.dials
  {
    var first := if addr in l.ch then [] else [RegisterHost(addr)];
    FoldOne(Next, l, RegisterHost(addr));
    FoldConcat(Next, l, first, [Preface(s, PacketOf(agent))]);
    FoldOne(Next, Run(l, first), Preface(s, PacketOf(agent)));
  }

  lemma UnreadMakesStaleDial(l: Listener, s: nat, c: nat, addr: string, agent: Agent)
    requires Routed(l) && Unread(l.conns, s, addr) && s < c
    ensures exists steps, d :: StaleDial(l, steps, d, c, addr, agent)
  {
    var first := ReadNow(l, s, addr, agent);
    ReadNowRuns(l, s, addr, agent);
    RunKeepsRouted(l, first);
    var l' := Run(l, first);
    StealYields(l', s, addr, agent);
    FoldConcat(Next, l, first, Steal(l', s, addr, agent));
    assert StaleDial(l, first + Steal(l', s, addr, agent), |l.dials| + 1, c, addr, agent);
  }

  lemma OlderMakesStaleDial(l: Listener, c: nat, addr: string, agent: Agent)
    requires Routed(l) && Finished(l, c, addr, agent) && !NoOlder(l, c, addr, agent)
    ensures exists steps, d :: StaleDial(l, steps, d, c, addr, agent)
  {
    if s :| 0 <= s < c && Unread(l.conns, s, addr) {
      UnreadMakesStaleDial(l, s, c, addr, agent);
    } else {
      var k, n := ChanOf(l.ch[addr], agent), |l.dials|;
      if k < |l.chans| && l.chans[k].content.Some? && l.chans[k].content.value < c {
        DialNowRuns(l, addr, agent);
        assert StaleDial(l, DialNow(l, addr, agent), n, c, addr, agent);
      } else {
        var s :| s in l.stores && l.stores[s].chan == k && s < c;
        StealYields(l, s, addr, agent);
        assert StaleDial(l, Steal(l, s, addr, agent), n + 1, c, addr, agent);
      }
    }
  }

  /** In every run, once storeConn(c) has finished: no later dial can ever yield a connection older than `c`
      if and only if nothing accepted before `c` is being read, in the registered channel or on its way into it. */
  lemma FreshnessExactly(steps: seq<Step>, c: nat, addr: string, agent: Agent)
    requires Finished(Run(INIT, steps), c, addr, agent)
    ensures var l := Run(INIT, steps);
      (forall more, d :: !StaleDial(l, more, d, c, addr, agent)) <==> NoOlder(l, c, addr, agent)
  {
    var l := Run(INIT, steps);
    RunKeepsRouted(INIT, steps);
    if NoOlder(l, c, addr, agent) {
      forall more, d ensures !StaleDial(l, more, d, c, addr, agent) {
        NoOlderNoStaleDial(l, more, d, c, addr, agent);
      }
    } else {
      OlderMakesStaleDial(l, c, addr, agent);
    }
  }

  // ---------- One Accept at a time ----------

  predicate NoneReading(l: Listener) {
    forall i :: 0 <= i < |l.conns| ==> l.conns[i].packet.Some?
  }

  /** Accept is called from one goroutine: the next connection is accepted only after the last call returned. */
  predicate Serial(steps: seq<Step>)
    decreases |steps|
  {
    steps == [] ||
    var before := steps[..|steps| - 1];
    Serial(before) &&
    (steps[|steps| - 1].Accept? ==> Run(INIT, before).stores == map[] && NoneReading(Run(INIT, before)))
  }

  ghost predicate SerialInv(l: Listener) {
    && (forall s <- l.stores :: s == |l.conns| - 1)
    && (forall i :: 0 <= i < |l.conns| && l.conns[i].packet.None? ==> i == |l.conns| - 1 && l.stores == map[])
    && (forall s <- l.stores :: l.stores[s].drained && l.stores[s].chan < |l.chans| ==>
          l.chans[l.stores[s].chan].content.None?)
    && (forall a, g :: a in l.ch ==> NewestWaits(l, a, g, ChanOf(l.ch[a], g)))
  }

  /** The registered channel `k` holds nothing older than any finished connection; it is empty while a connection
      for it is on its way into a replaced channel. */
  ghost predicate NewestWaits(l: Listener, addr: string, agent: Agent, k: nat) {
    k < |l.chans| && l.chans[k].content.Some? ==>
      && (forall c: nat :: Finished(l, c, addr, agent) ==> c <= l.chans[k].content.value)
      && (forall s <- l.stores :: ForChannel(l, s, k) ==> l.stores[s].chan == k)
  }

  lemma SerialAccept(l: Listener, addr: string)
    requires Routed(l) && SerialInv(l) && l.stores == map[] && NoneReading(l)
    ensures SerialInv(AcceptStep(l, addr))
  {
    var l' := AcceptStep(l, addr);
    forall a, g | a in l'.ch ensures NewestWaits(l', a, g, ChanOf(l'.ch[a], g)) {
      assert NewestWaits(l, a, g, ChanOf(l.ch[a], g));
      forall c: nat | Finished(l', c, a, g) ensures Finished(l, c, a, g) {
      }
    }
  }

  lemma SerialPreface(l: Listener, s: nat, packet: string)
    requires Routed(l) && SerialInv(l)
    ensures SerialInv(PrefaceStep(l, s, packet))
  {
    var l' := PrefaceStep(l, s, packet);
    if l' != l {
      forall a, g | a in l'.ch ensures NewestWaits(l', a, g, ChanOf(l'.ch[a], g)) {
        var k := ChanOf(l.ch[a], g);
        assert NewestWaits(l, a, g, k) && Registered(l, a, g, k);
        forall c: nat | Finished(l', c, a, g) ensures Finished(l, c, a, g) {
        }
      }
    }
  }

  lemma SerialPut(l: Listener, s: nat)
    requires Routed(l) && SerialInv(l)
    ensures SerialInv(PutStep(l, s))
    ensures PutStep(l, s).closed == l.closed
  {
    var l' := PutStep(l, s);
    if l' != l {
      var k0 := l.stores[s].chan;
      assert ForChannel(l, s, k0);
      forall a, g | a in l'.ch ensures NewestWaits(l', a, g, ChanOf(l'.ch[a], g)) {
        var k := ChanOf(l.ch[a], g);
        assert NewestWaits(l, a, g, k) && Registered(l, a, g, k);
        if k != k0 && l.chans[k].content.Some? {
          assert !ForChannel(l, s, k);
          forall c: nat | Finished(l', c, a, g) ensures Finished(l, c, a, g) {
          }
        }
      }
    }
  }

  /** `l'` differs from `l` at most in that channels were emptied and connections in flight got further. */
  ghost predicate Emptied(l: Listener, l': Listener) {
    && l'.conns == l.conns && l'.ch == l.ch && |l'.chans| == |l.chans| && l'.stores.Keys == l.stores.Keys
    && (forall k :: 0 <= k < |l.chans| ==> l'.chans[k] == l.chans[k] || l'.chans[k] == l.chans[k].(content := None))
    && (forall s <- l.stores :: l'.stores[s].chan == l.stores[s].chan)
  }

  lemma NewestStillWaits(l: Listener, l': Listener, addr: string, agent: Agent, k: nat)
    requires Emptied(l, l') && NewestWaits(l, addr, agent, k)
    ensures NewestWaits(l', addr, agent, k)
  {
    if k < |l'.chans| && l'.chans[k].content.Some? {
      forall c: nat | Finished(l', c, addr, agent)
        ensures c <= l'.chans[k].content.value
      {
        assert Finished(l, c, addr, agent);
      }
      forall s | s in l'.stores && ForChannel(l', s, k)
        ensures l'.stores[s].chan == k
      {
        assert ForChannel(l, s, k);
      }
    }
  }

  lemma SerialEmptied(l: Listener, l': Listener)
    requires SerialInv(l) && Emptied(l, l')
    requires forall s <- l'.stores :: l'.stores[s].drained && l'.stores[s].chan < |l'.chans| ==>
                                        l'.chans[l'.stores[s].chan].content.None?
    ensures SerialInv(l')
  {
    forall a, g | a in l'.ch
      ensures NewestWaits(l', a, g, ChanOf(l'.ch[a], g))
    {
      NewestStillWaits(l, l', a, g, ChanOf(l.ch[a], g));
    }
  }

  lemma SerialDrain(l: Listener, s: nat)
    requires SerialInv(l)
    ensures SerialInv(DrainStep(l, s))
  {
    assert Emptied(l, DrainStep(l, s));
    SerialEmptied(l, DrainStep(l, s));
  }

  lemma SerialDial(l: Listener, step: Step)
    requires SerialInv(l) && (step.DialStart? || step.DialTake? || step.DialTimeout?)
    ensures SerialInv(Next(l, step))
  {
    assert Emptied(l, Next(l, step));
    SerialEmptied(l, Next(l, step));
  }

  lemma SerialRegister(l: Listener, host: string)
    requires Routed(l) && SerialInv(l)
    ensures SerialInv(Next(l, RegisterHost(host)))
  {
    var l' := Next(l, RegisterHost(host));
    forall a, g | a in l'.ch ensures NewestWaits(l', a, g, ChanOf(l'.ch[a], g)) {
      if a in l.ch {
        assert NewestWaits(l, a, g, ChanOf(l.ch[a], g)) && Registered(l, a, g, ChanOf(l.ch[a], g));
      }
      forall c: nat | Finished(l', c, a, g) ensures Finished(l, c, a, g) {
      }
    }
  }

  lemma {:induction false} SerialRunKeepsInv(steps: seq<Step>)
    requires Serial(steps)
    ensures SerialInv(Run(INIT, steps))
    decreases |steps|
  {
    if steps == [] {
    } else {
      var before := steps[..|steps| - 1];
      var l := Run(INIT, before);
      SerialRunKeepsInv(before);
      RunKeepsRouted(INIT, before);
      match steps[|steps| - 1]
      case Accept(addr) => SerialAccept(l, addr);
      case Preface(s, packet) => SerialPreface(l, s, packet);
      case Put(s) => SerialPut(l, s);
      case Drain(s) => SerialDrain(l, s);
      case RegisterHost(host) => SerialRegister(l, host);
      case step => SerialDial(l, step);
    }
  }

  /** With one Accept at a time no dial started after storeConn(c) finished ever yields a connection older than
      `c`, even if hosts are registered anew in between. */
  lemma SerialDialsAreFresh(steps: seq<Step>, more: seq<Step>, d: nat, c: nat, addr: string, agent: Agent)
    requires Serial(steps) && Finished(Run(INIT, steps), c, addr, agent)
    ensures !StaleDial(Run(INIT, steps), more, d, c, addr, agent)
  {
    var l := Run(INIT, steps);
    SerialRunKeepsInv(steps);
    RunKeepsRouted(INIT, steps);
    if addr in l.ch {
      assert NewestWaits(l, addr, agent, ChanOf(l.ch[addr], agent));
    }
    NoOlderNoStaleDial(l, more, d, c, addr, agent);
  }

  /** Of two connections of one agent the second is read and stored first. */
  const OVERTAKING := [RegisterHost("host"), Accept("host")] + [Accept("host"), Preface(1, "EVA")] + [Drain(1), Put(1)]

  lemma OvertakingRuns()
    ensures var l := Run(INIT, OVERTAKING);
      Unread(l.conns, 0, "host") && Finished(l, 1, "host", EVA)
  {
    var l1 := Run(INIT, [RegisterHost("host"), Accept("host")]);
    FoldTwo(Next, INIT, RegisterHost("host"), Accept("host"));
    var l2 := Run(l1, [Accept("host"), Preface(1, "EVA")]);
    FoldTwo(Next, l1, Accept("host"), Preface(1, "EVA"));
    FoldConcat(Next, INIT, [RegisterHost("host"), Accept("host")], [Accept("host"), Preface(1, "EVA")]);
    assert l2.conns == [Incoming("host", None), Incoming("host", Some("EVA"))];
    assert l2.stores == map[1 := Store(0, false)] && |l2.chans| == 2;
    var l3 := Run(l2, [Drain(1), Put(1)]);
    FoldTwo(Next, l2, Drain(1), Put(1));
    FoldConcat(Next, INIT, [RegisterHost("host"), Accept("host")] + [Accept("host"), Preface(1, "EVA")], [Drain(1), Put(1)]);
    assert l3.conns == l2.conns && 1 !in l3.stores;
  }

  /** With two Accept calls at once the older connection can overtake the newer one. */
  lemma ConcurrentAcceptsCanBeStale()
    ensures exists steps, more, d ::
      Finished(Run(INIT, steps), 1, "host", EVA) && StaleDial(Run(INIT, steps), more, d, 1, "host", EVA)
  {
    OvertakingRuns();
    RunKeepsRouted(INIT, OVERTAKING);
    UnreadMakesStaleDial(Run(INIT, OVERTAKING), 0, 1, "host", EVA);
  }
}
