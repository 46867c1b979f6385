/** The connection pool of the reverse-dial proxy's `DialListener`.

    One goroutine calls Accept in a loop; any number of goroutines read, write and close the accepted
    connections. Each load of a counter in Accept and each once-guarded body is one atomic step. */
module ConnPool {
  import opened Runs

  /** An accepted connection: its flag and its two once-guards. `late` records that its first data
      arrived after it had been retired. */
  datatype Conn = Conn(active: bool, onceErr: bool, onceRead: bool, late: bool)

  /** Where the goroutine in Accept is. `Loaded` holds the value of `established` it has read. */
  datatype Acceptor = AtGuard | Loaded(established: int) | Dialing

  datatype Pool = Pool(established: int, active: int, conns: seq<Conn>, acceptor: Acceptor)

  datatype NetErr = NoErr | OtherErr | NetError(temporary: bool)

  datatype Step =
    | Load
    | Compare
    | DialFails
    | Install
    | Read(conn: nat, n: nat, err: NetErr)
    | Write(conn: nat, err: NetErr)
    | Close(conn: nat)

  const INIT := Pool(0, 0, [], AtGuard)
  const NEW_CONN := Conn(false, false, false, false)

  predicate Fatal(err: NetErr) {
    err.OtherErr? || (err.NetError? && !err.temporary)
  }

  /** The body guarded by `onceErr`: the connection leaves the pool's books, once. */
  function Retire(p: Pool, c: nat): Pool
    requires c < |p.conns|
  {
    var conn := p.conns[c];
    if conn.onceErr then p else
      p.(established := p.established - 1,
         active := if conn.active then p.active - 1 else p.active,
         conns := p.conns[c := conn.(onceErr := true)])
  }

  /** The body guarded by `onceRead`: the connection counts as active from its first data on. */
  function FirstData(p: Pool, c: nat): Pool
    requires c < |p.conns|
  {
    var conn := p.conns[c];
    if conn.onceRead then p else
      p.(active := p.active + 1,
         conns := p.conns[c := conn.(active := true, onceRead := true, late := conn.onceErr)])
  }

  /** One step; a step that is not possible in `p` leaves it unchanged. */
  function Next(p: Pool, step: Step): Pool {
    match step
    case Load => if p.acceptor.AtGuard? then p.(acceptor := Loaded(p.established)) else p
    case Compare =>
      if !p.acceptor.Loaded? then p
      else if p.acceptor.established > p.active then p.(acceptor := AtGuard)
      else p.(acceptor := Dialing)
    case DialFails => if p.acceptor.Dialing? then p.(acceptor := AtGuard) else p
    case Install =>
      if !p.acceptor.Dialing? then p else
        p.(established := p.established + 1,
           conns := p.conns + [NEW_CONN],
           acceptor := AtGuard)
    case Read(c, n, err) =>
      if c >= |p.conns| then p
      else if Fatal(err) then Retire(p, c)
      else if n == 0 then p
      else FirstData(p, c)
    case Write(c, err) => if c < |p.conns| && Fatal(err) then Retire(p, c) else p
    case Close(c) => if c < |p.conns| then Retire(p, c) else p
  }

  function Run(p: Pool, steps: seq<Step>): Pool {
    Fold(Next, p, steps)
  }

  // ---------- Counting ----------

  function Count(conns: seq<Conn>, holds: Conn -> bool): nat {
    if conns == [] then 0 else
      Count(conns[..|conns| - 1], holds) + if holds(conns[|conns| - 1]) then 1 else 0
  }

  lemma {:induction false} CountUpdate(conns: seq<Conn>, i: nat, c: Conn, holds: Conn -> bool)
    requires i < |conns|
    ensures Count(conns[i := c], holds)
         == Count(conns, holds) - (if holds(conns[i]) then 1 else 0) + (if holds(c) then 1 else 0)
    decreases |conns|
  {
    var n := |conns| - 1;
    if i == n {
      assert conns[i := c][..n] == conns[..n];
    } else {
      CountUpdate(conns[..n], i, c, holds);
      assert conns[i := c][..n] == conns[..n][i := c];
    }
  }

  lemma CountAppend(conns: seq<Conn>, c: Conn, holds: Conn -> bool)
    ensures Count(conns + [c], holds) == Count(conns, holds) + if holds(c) then 1 else 0
  {
    assert (conns + [c])[..|conns|] == conns;
  }

  lemma {:induction false} CountAdds(conns: seq<Conn>, a: Conn -> bool, b: Conn -> bool, c: Conn -> bool)
    requires forall x :: (if a(x) then 1 else 0) == (if b(x) then 1 else 0) + (if c(x) then 1 else 0)
    ensures Count(conns, a) == Count(conns, b) + Count(conns, c)
    decreases |conns|
  {
    if conns == [] {
    } else {
      CountAdds(conns[..|conns| - 1], a, b, c);
    }
  }

  predicate IsLive(c: Conn) { !c.onceErr }
  predicate IsIdle(c: Conn) { !c.onceErr && !c.onceRead }
  predicate IsBusy(c: Conn) { !c.onceErr && c.onceRead }
  predicate IsLate(c: Conn) { c.late }

  function Live(p: Pool): nat { Count(p.conns, IsLive) }
  function Idle(p: Pool): nat { Count(p.conns, IsIdle) }
  function Busy(p: Pool): nat { Count(p.conns, IsBusy) }
  function Late(p: Pool): nat { Count(p.conns, IsLate) }

  lemma LiveIsIdleOrBusy(p: Pool)
    ensures Live(p) == Idle(p) + Busy(p)
  {
    CountAdds(p.conns, IsLive, IsIdle, IsBusy);
  }

  // ---------- The invariant ----------

  predicate WellFormed(c: Conn) {
    c.active == c.onceRead && (c.late ==> c.onceErr && c.onceRead)
  }

  /** What every step keeps: the books are exact and at most one connection is counted as spare. */
  predicate Inv(p: Pool) {
    && (forall i :: 0 <= i < |p.conns| ==> WellFormed(p.conns[i]))
    && p.established == Live(p)
    && p.active == Busy(p) + Late(p)
    && p.established - p.active <= 1
    && (p.acceptor.Loaded? ==> p.established <= p.acceptor.established)
    && (p.acceptor.Dialing? ==> p.established <= p.active)
  }

  lemma RetireKeepsInv(p: Pool, c: nat)
    requires Inv(p) && c < |p.conns|
    ensures Inv(Retire(p, c))
  {
    var retired := p.conns[c].(onceErr := true);
    CountUpdate(p.conns, c, retired, IsLive);
    CountUpdate(p.conns, c, retired, IsBusy);
    CountUpdate(p.conns, c, retired, IsLate);
  }

  lemma FirstDataKeepsInv(p: Pool, c: nat)
    requires Inv(p) && c < |p.conns|
    ensures Inv(FirstData(p, c))
  {
    var conn := p.conns[c];
    var reading := conn.(active := true, onceRead := true, late := conn.onceErr);
    CountUpdate(p.conns, c, reading, IsLive);
    CountUpdate(p.conns, c, reading, IsBusy);
    CountUpdate(p.conns, c, reading, IsLate);
  }

  lemma NextKeepsInv(p: Pool, step: Step)
    requires Inv(p)
    ensures Inv(Next(p, step))
  {
    match step
    case Install =>
      CountAppend(p.conns, NEW_CONN, IsLive);
      CountAppend(p.conns, NEW_CONN, IsBusy);
      CountAppend(p.conns, NEW_CONN, IsLate);
    case Read(c, n, err) => if c < |p.conns| { RetireKeepsInv(p, c); FirstDataKeepsInv(p, c); }
    case Write(c, err) => if c < |p.conns| { RetireKeepsInv(p, c); }
    case Close(c) => if c < |p.conns| { RetireKeepsInv(p, c); }
    case _ =>
  }

  lemma {:induction false} RunKeepsInvFrom(p: Pool, steps: seq<Step>)
    requires Inv(p)
    ensures Inv(Run(p, steps))
    decreases |steps|
  {
    if steps == [] {
    } else {
      RunKeepsInvFrom(p, steps[..|steps| - 1]);
      NextKeepsInv(Run(p, steps[..|steps| - 1]), steps[|steps| - 1]);
    }
  }

  lemma RunKeepsInv(steps: seq<Step>)
    ensures Inv(Run(INIT, steps))
  {
    RunKeepsInvFrom(INIT, steps);
  }

  // ---------- Main results ----------

  /** After every interleaving: `established` counts the connections not yet retired, `active` the live
      ones that have read data plus those whose first data came after retirement, and the difference
      never exceeds one. */
  lemma Accounting(steps: seq<Step>)
    ensures var p := Run(INIT, steps);
      && p.established == Live(p)
      && p.active == Busy(p) + Late(p)
      && p.established - p.active == Idle(p) - Late(p) <= 1
  {
    RunKeepsInv(steps);
    LiveIsIdleOrBusy(Run(INIT, steps));
  }

  /** As long as no connection read its first data after retirement there is never more than one idle connection;
      in general every such connection admits one more. */
  lemma IdleBound(steps: seq<Step>)
    ensures var p := Run(INIT, steps);
      && Idle(p) <= 1 + Late(p)
      && (Late(p) == 0 ==> Idle(p) <= 1)
  {
    Accounting(steps);
  }

  /** The counters stay within 32 bits for as long as fewer than 2^31 connections were accepted. */
  lemma NoWrapAround(steps: seq<Step>)
    ensures var p := Run(INIT, steps);
      0 <= p.established <= |p.conns| && 0 <= p.active <= |p.conns|
  {
    RunKeepsInv(steps);
    var p := Run(INIT, steps);
    CountAtMost(p.conns, IsLive);
    BusyOrLateAtMost(p.conns);
  }

  lemma {:induction false} CountAtMost(conns: seq<Conn>, holds: Conn -> bool)
    ensures Count(conns, holds) <= |conns|
    decreases |conns|
  {
    if conns == [] {
    } else {
      CountAtMost(conns[..|conns| - 1], holds);
    }
  }

  lemma {:induction false} BusyOrLateAtMost(conns: seq<Conn>)
    requires forall i :: 0 <= i < |conns| ==> WellFormed(conns[i])
    ensures Count(conns, IsBusy) + Count(conns, IsLate) <= |conns|
    decreases |conns|
  {
    if conns == [] {
    } else {
      BusyOrLateAtMost(conns[..|conns| - 1]);
    }
  }

  /** Steps of the goroutines that use the connections. */
  predicate ByOthers(steps: seq<Step>) {
    forall i :: 0 <= i < |steps| ==> steps[i].Read? || steps[i].Write? || steps[i].Close?
  }

  lemma {:induction false} OthersLeaveAccept(p: Pool, between: seq<Step>)
    requires ByOthers(between)
    ensures Run(p, between).acceptor == p.acceptor
    decreases |between|
  {
    if between == [] {
    } else {
      OthersLeaveAccept(p, between[..|between| - 1]);
    }
  }

  /** Accept's test reads the two counters one after the other, and is meant to dial iff there is no idle connection.
      Whatever the other goroutines do between the two reads, it dials iff the idle connections and those retired in
      between do not outnumber the late readers. So with no idle connection it dials iff not more connections were
      retired in between than there are late readers, and with idle ones it refrains iff they and the retired ones
      outnumber the late readers. */
  lemma GuardExact(steps: seq<Step>, between: seq<Step>)
    requires Run(INIT, steps).acceptor.AtGuard? && ByOthers(between)
    ensures var p := Run(INIT, steps);
      var q := Run(Next(p, Load), between);
      var dials, retired := Next(q, Compare).acceptor.Dialing?, Live(p) - Live(q);
      && (dials <==> Idle(q) + retired <= Late(q))
      && ((dials <==> Idle(q) == 0) <==>
          if Idle(q) == 0 then retired <= Late(q) else Late(q) < Idle(q) + retired)
  {
    var p := Run(INIT, steps);
    var q := Run(Next(p, Load), between);
    RunKeepsInv(steps);
    NextKeepsInv(p, Load);
    RunKeepsInvFrom(Next(p, Load), between);
    OthersLeaveAccept(Next(p, Load), between);
    LiveIsIdleOrBusy(q);
  }

  lemma OneConn(p: Pool)
    requires |p.conns| == 1
    ensures Idle(p) == (if IsIdle(p.conns[0]) then 1 else 0) && Late(p) == if IsLate(p.conns[0]) then 1 else 0
  {
    assert p.conns == [] + [p.conns[0]];
    CountAppend([], p.conns[0], IsIdle);
    CountAppend([], p.conns[0], IsLate);
  }

  /** A connection is closed between the two reads: with no idle connection and no late reader Accept does not dial. */
  lemma DialMissed()
    ensures var p := Run(INIT, ACCEPT_ONE + [Read(0, 1, NoErr)]);
      var q := Run(Next(p, Load), [Close(0)]);
      && p.acceptor.AtGuard? && Idle(p) == 0 && Late(p) == 0
      && Idle(q) == 0 && Late(q) == 0 && !Next(q, Compare).acceptor.Dialing?
  {
    var steps, between := ACCEPT_ONE + [Read(0, 1, NoErr)], [Close(0)];
    AcceptOneRuns(INIT);
    FoldConcat(Next, INIT, ACCEPT_ONE, [Read(0, 1, NoErr)]);
    FoldOne(Next, Run(INIT, ACCEPT_ONE), Read(0, 1, NoErr));
    var p := Run(INIT, steps);
    assert p == Pool(1, 1, [Conn(true, false, true, false)], AtGuard);
    FoldOne(Next, Next(p, Load), Close(0));
    var q := Run(Next(p, Load), between);
    assert q == Pool(0, 0, [Conn(true, true, true, false)], Loaded(1));
    OneConn(p);
    OneConn(q);
  }

  // ---------- The books in terms of the steps ----------

  predicate Accepted(steps: seq<Step>, c: nat) {
    c < |Run(INIT, steps).conns|
  }

  /** A close of `c`, or a read or write of it that ends in an error that is not a network error or not a temporary one. */
  predicate Kills(step: Step, c: nat) {
    match step
    case Close(d) => d == c
    case Read(d, _, err) => d == c && (err == OtherErr || err == NetError(false))
    case Write(d, err) => d == c && (err == OtherErr || err == NetError(false))
    case _ => false
  }

  /** A read of `c` that returns data with no error or a temporary one. */
  predicate Feeds(step: Step, c: nat) {
    step.Read? && step.conn == c && step.n > 0 && (step.err == NoErr || step.err == NetError(true))
  }

  predicate KilledAt(steps: seq<Step>, i: nat, c: nat) {
    i < |steps| && Accepted(steps[..i], c) && Kills(steps[i], c)
  }

  predicate FedAt(steps: seq<Step>, i: nat, c: nat) {
    i < |steps| && Accepted(steps[..i], c) && Feeds(steps[i], c)
  }

  /** Step `i` brings the first data on `c`, after a step that killed it. */
  ghost predicate FedLateAt(steps: seq<Step>, i: nat, c: nat) {
    FedAt(steps, i, c) && !Fed(steps[..i], c) && Killed(steps[..i], c)
  }

  ghost predicate Killed(steps: seq<Step>, c: nat) {
    exists i: nat :: KilledAt(steps, i, c)
  }

  ghost predicate Fed(steps: seq<Step>, c: nat) {
    exists i: nat :: FedAt(steps, i, c)
  }

  ghost predicate FedLate(steps: seq<Step>, c: nat) {
    exists i: nat :: FedLateAt(steps, i, c)
  }

  /** The last step on top of those before it. */
  lemma HistoryStep(steps: seq<Step>, c: nat)
    requires steps != []
    ensures var n := |steps| - 1;
      var front, now := steps[..n], Accepted(steps[..n], c);
      && (Killed(steps, c) <==> Killed(front, c) || (now && Kills(steps[n], c)))
      && (Fed(steps, c) <==> Fed(front, c) || (now && Feeds(steps[n], c)))
      && (FedLate(steps, c) <==>
          FedLate(front, c) || (now && Feeds(steps[n], c) && !Fed(front, c) && Killed(front, c)))
  {
    var n := |steps| - 1;
    var front := steps[..n];
    forall i: nat | i < n
      ensures KilledAt(front, i, c) == KilledAt(steps, i, c)
      ensures FedAt(front, i, c) == FedAt(steps, i, c)
      ensures FedLateAt(front, i, c) == FedLateAt(steps, i, c)
    {
      assert front[..i] == steps[..i];
    }
    assert KilledAt(steps, n, c) <==> Accepted(front, c) && Kills(steps[n], c);
    assert FedAt(steps, n, c) <==> Accepted(front, c) && Feeds(steps[n], c);
    assert FedLateAt(steps, n, c) <==> FedAt(steps, n, c) && !Fed(front, c) && Killed(front, c);
  }

  /** After every run, for every accepted connection: it has left the books iff a step killed it, it counts as having read
      data iff a step fed it, and as a late reader iff it was first fed after it had been killed. */
  lemma ConnExactly(steps: seq<Step>, c: nat)
    requires Accepted(steps, c)
    ensures var conn := Run(INIT, steps).conns[c];
      && (IsLive(conn) <==> !Killed(steps, c))
      && (IsBusy(conn) <==> !Killed(steps, c) && Fed(steps, c))
      && (IsIdle(conn) <==> !Killed(steps, c) && !Fed(steps, c))
      && (IsLate(conn) <==> FedLate(steps, c))
  {
    ConnHistory(steps, c);
  }

  lemma {:induction false} ConnHistory(steps: seq<Step>, c: nat)
    ensures !Accepted(steps, c) ==> !Killed(steps, c) && !Fed(steps, c) && !FedLate(steps, c)
    ensures Accepted(steps, c) ==>
      var conn := Run(INIT, steps).conns[c];
      && (conn.onceErr <==> Killed(steps, c)) && (conn.onceRead <==> Fed(steps, c))
      && (conn.late <==> FedLate(steps, c))
    decreases |steps|
  {
    if steps == [] {
    } else {
      ConnHistory(steps[..|steps| - 1], c);
      HistoryStep(steps, c);
    }
  }

  lemma {:induction false} CountIsCard(conns: seq<Conn>, holds: Conn -> bool, those: set<nat>)
    requires forall c: nat :: c in those <==> c < |conns| && holds(conns[c])
    ensures Count(conns, holds) == |those|
    decreases |conns|
  {
    if conns == [] {
      assert those == {};
    } else {
      var n := |conns| - 1;
      CountIsCard(conns[..n], holds, those - {n});
    }
  }

  /** The connections that no step has killed. */
  ghost function Survivors(steps: seq<Step>): set<nat> {
    set c: nat | c < |Run(INIT, steps).conns| && !Killed(steps, c)
  }

  /** Those of them that a step has fed. */
  ghost function Readers(steps: seq<Step>): set<nat> {
    set c: nat | c < |Run(INIT, steps).conns| && !Killed(steps, c) && Fed(steps, c)
  }

  /** The connections that were first fed after a step had killed them. */
  ghost function LateComers(steps: seq<Step>): set<nat> {
    set c: nat | c < |Run(INIT, steps).conns| && FedLate(steps, c)
  }

  /** The counters, in terms of the steps of the run. */
  lemma BooksExactly(steps: seq<Step>)
    ensures var p := Run(INIT, steps);
      p.established == |Survivors(steps)| && p.active == |Readers(steps)| + |LateComers(steps)|
  {
    var p := Run(INIT, steps);
    RunKeepsInv(steps);
    forall c: nat | c < |p.conns|
      ensures IsLive(p.conns[c]) <==> c in Survivors(steps)
      ensures IsBusy(p.conns[c]) <==> c in Readers(steps)
      ensures IsLate(p.conns[c]) <==> c in LateComers(steps)
    {
      ConnExactly(steps, c);
    }
    CountIsCard(p.conns, IsLive, Survivors(steps));
    CountIsCard(p.conns, IsBusy, Readers(steps));
    CountIsCard(p.conns, IsLate, LateComers(steps));
  }

  // ---------- The bound is tight ----------

  const ACCEPT_ONE := [Load, Compare, Install]

  lemma AcceptOneRuns(p: Pool)
    requires p.acceptor.AtGuard? && p.established <= p.active
    ensures Run(p, ACCEPT_ONE) ==
      p.(established := p.established + 1, conns := p.conns + [NEW_CONN])
  {
    assert ACCEPT_ONE[..2] == [Load, Compare];
    assert [Load, Compare][..1] == [Load];
    assert [Load][..0] == [];
  }

  /** Accept a connection, lose it to a failing write and then read the data still buffered on it. */
  function AcceptLoseRead(c: nat): seq<Step> {
    ACCEPT_ONE + [Write(c, OtherErr), Read(c, 1, NoErr)]
  }

  lemma AcceptLoseReadRuns(p: Pool)
    requires p.acceptor.AtGuard? && p.established <= p.active
    ensures Run(p, AcceptLoseRead(|p.conns|)) ==
      p.(active := p.active + 1, conns := p.conns + [Conn(true, true, true, true)])
  {
    var c := |p.conns|;
    AcceptOneRuns(p);
    FoldConcat(Next, p, ACCEPT_ONE, [Write(c, OtherErr), Read(c, 1, NoErr)]);
    LoseReadRuns(p);
  }

  lemma LoseReadRuns(p: Pool)
    ensures var c := |p.conns|;
      var accepted := p.(established := p.established + 1, conns := p.conns + [NEW_CONN]);
      Run(accepted, [Write(c, OtherErr), Read(c, 1, NoErr)]) ==
        p.(active := p.active + 1, conns := p.conns + [Conn(true, true, true, true)])
  {
    var c := |p.conns|;
    var accepted := p.(established := p.established + 1, conns := p.conns + [NEW_CONN]);
    FoldTwo(Next, accepted, Write(c, OtherErr), Read(c, 1, NoErr));
    var lost := Retire(accepted, c);
    assert lost == p.(conns := p.conns + [Conn(false, true, false, false)]);
    var read := FirstData(lost, c);
    assert read.conns == p.conns + [Conn(true, true, true, true)];
  }

  /** `k` connections in a row that read their first data after retirement. */
  function LateReaders(k: nat): seq<Step> {
    if k == 0 then [] else LateReaders(k - 1) + AcceptLoseRead(k - 1)
  }

  predicate OnlyLateReaders(p: Pool, k: nat) {
    p.acceptor.AtGuard? && p.established == 0 && p.active == k && |p.conns| == k && Late(p) == k
  }

  lemma OneMoreLateReader(p: Pool, k: nat)
    requires OnlyLateReaders(p, k)
    ensures OnlyLateReaders(Run(p, AcceptLoseRead(k)), k + 1)
  {
    AcceptLoseReadRuns(p);
    CountAppend(p.conns, Conn(true, true, true, true), IsLate);
  }

  lemma {:induction false} LateReadersRun(k: nat)
    ensures OnlyLateReaders(Run(INIT, LateReaders(k)), k)
  {
    if k > 0 {
      LateReadersRun(k - 1);
      OneMoreLateReader(Run(INIT, LateReaders(k - 1)), k - 1);
      FoldConcat(Next, INIT, LateReaders(k - 1), AcceptLoseRead(k - 1));
    }
  }

  /** Wherever Accept is, it can come back to its test with the books unchanged. */
  lemma BackToGuard(p: Pool) returns (more: seq<Step>)
    ensures Run(p, more) == p.(acceptor := AtGuard)
  {
    more := [Compare, DialFails];
    FoldTwo(Next, p, Compare, DialFails);
  }

  /** After `more` no further connection has read late and as many are idle as the bound allows. */
  predicate AttainsBound(p: Pool, more: seq<Step>) {
    var q := Run(p, more);
    Late(q) == Late(p) && Idle(q) == 1 + Late(p)
  }

  /** From any state in which the books are right the bound is attained without another late reader. */
  lemma {:induction false} ReachBound(p: Pool) returns (more: seq<Step>)
    requires Inv(p)
    ensures AttainsBound(p, more)
    decreases p.active - p.established + 1
  {
    LiveIsIdleOrBusy(p);
    if p.established == p.active + 1 {
      more := [];
    } else {
      var back := BackToGuard(p);
      var q := Run(p, back);
      AcceptOneRuns(q);
      FoldConcat(Next, p, back, ACCEPT_ONE);
      var accepted := Run(p, back + ACCEPT_ONE);
      CountAppend(p.conns, NEW_CONN, IsLate);
      CountAppend(p.conns, NEW_CONN, IsIdle);
      CountAppend(p.conns, NEW_CONN, IsLive);
      CountAppend(p.conns, NEW_CONN, IsBusy);
      var rest := ReachBound(accepted);
      FoldConcat(Next, p, back + ACCEPT_ONE, rest);
      more := back + ACCEPT_ONE + rest;
    }
  }

  /** "Never more than one idle connection", exactly: from a reachable state on, as long as no further connection reads
      late, there is never more than one idle connection iff no connection has read late so far. */
  lemma OneIdleExactly(steps: seq<Step>)
    ensures var p := Run(INIT, steps);
      (forall more :: Late(Run(p, more)) == Late(p) ==> Idle(Run(p, more)) <= 1) <==> Late(p) == 0
  {
    var p := Run(INIT, steps);
    RunKeepsInv(steps);
    if Late(p) == 0 {
      forall more | Late(Run(p, more)) == Late(p)
        ensures Idle(Run(p, more)) <= 1
      {
        RunKeepsInvFrom(p, more);
        LiveIsIdleOrBusy(Run(p, more));
      }
    } else {
      var more := ReachBound(p);
      assert Idle(Run(p, more)) > 1;
    }
  }

  /** The bound of `IdleBound` is attained from every reachable state. */
  lemma IdleBoundIsTight(steps: seq<Step>)
    ensures exists more :: AttainsBound(Run(INIT, steps), more)
  {
    RunKeepsInv(steps);
    var more := ReachBound(Run(INIT, steps));
  }

  /** Every number of late readers arises, so every number of idle connections does. */
  lemma AnyNumberIdle(k: nat)
    ensures exists steps :: Idle(Run(INIT, steps)) == k + 1
  {
    LateReadersRun(k);
    RunKeepsInv(LateReaders(k));
    var more := ReachBound(Run(INIT, LateReaders(k)));
    FoldConcat(Next, INIT, LateReaders(k), more);
    assert Idle(Run(INIT, LateReaders(k) + more)) == k + 1;
  }
}
