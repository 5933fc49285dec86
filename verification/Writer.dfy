/** The connection writer (`spawn_writer` of `src/ircd/server.rs`): two lanes, keepalive and ping timeout.
    Times are milliseconds. */
module Writer {

  /** One attempt to send, with its time. */
  datatype Out =
    | Prio(message: string)
    | Normal(message: string)
    | Ping(at: nat)
    | PingTimeout(at: nat)
    | RelayClosed

  /** Everything the writer task works on. `handed` is what was given to the socket, in order. */
  datatype State = State(
    prio: seq<string>, prioOpen: bool, normal: seq<string>, normalOpen: bool,
    lastSeen: nat, seenAt: nat, pinged: bool, handed: seq<Out>, running: bool)

  /** What happens to the writer: senders enqueue or go away, the client shows activity, or the loop
      takes a turn, at which the timer may have fired and the socket may fail. */
  datatype Event =
    | EnqueuePrio(message: string)
    | EnqueueNormal(message: string)
    | DropPrio
    | DropNormal
    | Activity(at: nat)
    | Turn(tick: bool, now: nat, sends: bool)

  const IDLE_PING: nat := 90_000
  const IDLE_CLOSE: nat := 480_000

  function Elapsed(now: nat, since: nat): nat {
    if now >= since then now - since else 0
  }

  /** The keepalive branch. */
  function Tick(s: State, now: nat, sends: bool): State {
    var s1 := if s.lastSeen != s.seenAt then s.(seenAt := s.lastSeen, pinged := false) else s;
    var idle := Elapsed(now, s1.seenAt);
    if idle >= IDLE_CLOSE then s1.(handed := s1.handed + [PingTimeout(now)], running := false)
    else if idle >= IDLE_PING && !s1.pinged then
      s1.(handed := s1.handed + [Ping(now)], pinged := sends, running := sends)
    else s1
  }

  /** One turn of the biased select: priority lane, then timer, then normal lane. */
  function TakeTurn(s: State, tick: bool, now: nat, sends: bool): State {
    if !s.running then s
    else if s.prio != [] then
      s.(prio := s.prio[1..], handed := s.handed + [Prio(s.prio[0])], running := sends)
    else if !s.prioOpen then s.(running := false)
    else if tick then Tick(s, now, sends)
    else if s.normal != [] then
      s.(normal := s.normal[1..], handed := s.handed + [Normal(s.normal[0])], running := sends)
    else if !s.normalOpen then s.(handed := s.handed + [RelayClosed], running := false)
    else s
  }

  function Step(s: State, e: Event): State {
    match e
    case EnqueuePrio(m) => s.(prio := s.prio + [m])
    case EnqueueNormal(m) => s.(normal := s.normal + [m])
    case DropPrio => s.(prioOpen := false)
    case DropNormal => s.(normalOpen := false)
    case Activity(t) => s.(lastSeen := t)
    case Turn(tick, now, sends) => TakeTurn(s, tick, now, sends)
  }

  /** The writer task. */
  class ConnectionWriter {
    var prio: seq<string>
    var prioOpen: bool
    var normal: seq<string>
    var normalOpen: bool
    var lastSeen: nat
    var seenAt: nat
    var pinged: bool
    var handed: seq<Out>
    var running: bool

    ghost function Now(): State
      reads this
    {
      State(prio, prioOpen, normal, normalOpen, lastSeen, seenAt, pinged, handed, running)
    }

    constructor (start: nat)
      ensures Now() == Start(start)
    {
      prio, prioOpen, normal, normalOpen := [], true, [], true;
      lastSeen, seenAt, pinged, handed, running := start, start, false, [], true;
    }

    method Send(out: Out, sends: bool) returns (ok: bool)
      modifies this`handed
      ensures handed == old(handed) + [out] && ok == sends
    {
      handed := handed + [out];
      ok := sends;
    }

    method EnqueuePrio(m: string)
      modifies this`prio
      ensures Now() == Step(old(Now()), Event.EnqueuePrio(m))
    {
      prio := prio + [m];
    }

    method EnqueueNormal(m: string)
      modifies this`normal
      ensures Now() == Step(old(Now()), Event.EnqueueNormal(m))
    {
      normal := normal + [m];
    }

    method DropPrio()
      modifies this`prioOpen
      ensures Now() == Step(old(Now()), Event.DropPrio)
    {
      prioOpen := false;
    }

    method DropNormal()
      modifies this`normalOpen
      ensures Now() == Step(old(Now()), Event.DropNormal)
    {
      normalOpen := false;
    }

    method Seen(at: nat)
      modifies this`lastSeen
      ensures Now() == Step(old(Now()), Activity(at))
    {
      lastSeen := at;
    }

    /** One turn of the loop; nothing happens once it has been left. */
    method Turn(tick: bool, now: nat, sends: bool)
      modifies this
      ensures Now() == Step(old(Now()), Event.Turn(tick, now, sends))
    {
      if !running {
        return;
      }
      if prio != [] {
        var m := prio[0];
        prio := prio[1..];
        running := Send(Prio(m), sends);
      } else if !prioOpen {
        running := false;
      } else if tick {
        Keepalive(now, sends);
      } else if normal != [] {
        var m := normal[0];
        normal := normal[1..];
        running := Send(Normal(m), sends);
      } else if !normalOpen {
        var _ := Send(RelayClosed, sends);
        running := false;
      }
    }

    method Keepalive(now: nat, sends: bool)
      requires running
      modifies this
      ensures Now() == Tick(old(Now()), now, sends)
    {
      var nowSeen := lastSeen;
      if nowSeen != seenAt {
        seenAt := nowSeen;
        pinged := false;
      }
      var idle := Elapsed(now, seenAt);
      if idle >= IDLE_CLOSE {
        var _ := Send(PingTimeout(now), sends);
        running := false;
        return;
      }
      if idle >= IDLE_PING && !pinged {
        var ok := Send(Ping(now), sends);
        if !ok {
          running := false;
          return;
        }
        pinged := true;
      }
    }
  }

  // ---------- runs ----------

  function Start(start: nat): State {
    State([], true, [], true, start, start, false, [], true)
  }

  /** The state after a run of events on a new connection. */
  function After(start: nat, run: seq<Event>): State {
    if run == [] then Start(start) else Step(After(start, run[..|run| - 1]), run[|run| - 1])
  }

  function PrioIn(run: seq<Event>): seq<string> {
    if run == [] then []
    else PrioIn(run[..|run| - 1]) + (if run[|run| - 1].EnqueuePrio? then [run[|run| - 1].message] else [])
  }

  function NormalIn(run: seq<Event>): seq<string> {
    if run == [] then []
    else NormalIn(run[..|run| - 1]) + (if run[|run| - 1].EnqueueNormal? then [run[|run| - 1].message] else [])
  }

  function PrioOut(handed: seq<Out>): seq<string> {
    if handed == [] then []
    else PrioOut(handed[..|handed| - 1]) + (if handed[|handed| - 1].Prio? then [handed[|handed| - 1].message] else [])
  }

  function NormalOut(handed: seq<Out>): seq<string> {
    if handed == [] then []
    else
      var o := handed[|handed| - 1];
      NormalOut(handed[..|handed| - 1]) + (if o.Normal? then [o.message] else [])
  }

  lemma OutGrows(handed: seq<Out>, o: Out)
    ensures PrioOut(handed + [o]) == PrioOut(handed) + (if o.Prio? then [o.message] else [])
    ensures NormalOut(handed + [o]) == NormalOut(handed) + (if o.Normal? then [o.message] else [])
  {
    assert (handed + [o])[..|handed|] == handed;
  }

  /** Each lane is first in, first out, and loses nothing: what was handed to the socket followed by
      what is still queued is what was enqueued. */
  lemma {:induction false} LanesConserve(start: nat, run: seq<Event>)
    ensures var s := After(start, run);
      PrioOut(s.handed) + s.prio == PrioIn(run) && NormalOut(s.handed) + s.normal == NormalIn(run)
  {
    hide PrioOut, NormalOut;
    if run == [] {
      NothingOut();
    } else {
      var before, e := run[..|run| - 1], run[|run| - 1];
      LanesConserve(start, before);
      StepConserves(After(start, before), e);
    }
  }

  lemma NothingOut()
    ensures PrioOut([]) == [] && NormalOut([]) == []
  {
  }

  lemma TickConserves(s: State, now: nat, sends: bool)
    ensures var s' := Tick(s, now, sends);
      && PrioOut(s'.handed) == PrioOut(s.handed) && s'.prio == s.prio
      && NormalOut(s'.handed) == NormalOut(s.handed) && s'.normal == s.normal
  {
    hide PrioOut, NormalOut;
    OutGrows(s.handed, Ping(now));
    OutGrows(s.handed, PingTimeout(now));
    assert PrioOut(s.handed) + [] == PrioOut(s.handed) && NormalOut(s.handed) + [] == NormalOut(s.handed);
  }

  lemma TurnConserves(s: State, tick: bool, now: nat, sends: bool)
    ensures var s' := TakeTurn(s, tick, now, sends);
      && PrioOut(s'.handed) + s'.prio == PrioOut(s.handed) + s.prio
      && NormalOut(s'.handed) + s'.normal == NormalOut(s.handed) + s.normal
  {
    hide PrioOut, NormalOut, Tick;
    TickConserves(s, now, sends);
    OutGrows(s.handed, RelayClosed);
    var p, n := PrioOut(s.handed), NormalOut(s.handed);
    assert p + [] == p && n + [] == n;
    if s.prio != [] {
      OutGrows(s.handed, Prio(s.prio[0]));
      assert p + [s.prio[0]] + s.prio[1..] == p + s.prio;
    }
    if s.normal != [] {
      OutGrows(s.handed, Normal(s.normal[0]));
      assert n + [s.normal[0]] + s.normal[1..] == n + s.normal;
    }
  }

  lemma StepConserves(s: State, e: Event)
    ensures var s' := Step(s, e);
      && PrioOut(s'.handed) + s'.prio == PrioOut(s.handed) + s.prio + (if e.EnqueuePrio? then [e.message] else [])
      && NormalOut(s'.handed) + s'.normal
           == NormalOut(s.handed) + s.normal + (if e.EnqueueNormal? then [e.message] else [])
  {
    hide PrioOut, NormalOut, TakeTurn;
    var p, n := PrioOut(s.handed) + s.prio, NormalOut(s.handed) + s.normal;
    assert p + [] == p && n + [] == n;
    match e
    case EnqueuePrio(m) => Append3(PrioOut(s.handed), s.prio, [m]);
    case EnqueueNormal(m) => Append3(NormalOut(s.handed), s.normal, [m]);
    case Turn(tick, now, sends) => TurnConserves(s, tick, now, sends);
    case _ =>
  }

  lemma Append3(a: seq<string>, b: seq<string>, c: seq<string>)
    ensures a + (b + c) == a + b + c
  {
  }

  /** What the event at position `k` gave to the socket, if anything. */
  function HandedAt(start: nat, run: seq<Event>, k: nat): seq<Out>
    requires k < |run|
  {
    var s, s' := After(start, run[..k]), Step(After(start, run[..k]), run[k]);
    if |s'.handed| > |s.handed| then s'.handed[|s.handed|..] else []
  }

  /** A normal message goes out only when every priority message enqueued so far has gone out. */
  lemma PriorityFirst(start: nat, run: seq<Event>, k: nat, m: string)
    requires k < |run| && HandedAt(start, run, k) == [Normal(m)]
    ensures var s := After(start, run[..k]);
      s.prio == [] && PrioOut(s.handed) == PrioIn(run[..k])
  {
    hide After, PrioOut, PrioIn, NormalOut, NormalIn;
    LanesConserve(start, run[..k]);
    var s := After(start, run[..k]);
    HandsOut(s, run[k]);
    assert PrioOut(s.handed) + [] == PrioOut(s.handed);
  }

  /** Which branch hands out what. */
  lemma HandsOut(s: State, e: Event)
    ensures var s' := Step(s, e);
      && s.handed <= s'.handed && |s'.handed| <= |s.handed| + 1
      && (|s'.handed| > |s.handed| ==>
            e.Turn? && s.running
            && (s'.handed[|s.handed|].Prio? <==> s.prio != [])
            && (s'.handed[|s.handed|].Ping? || s'.handed[|s.handed|].PingTimeout? ==> e.tick))
  {
  }

  // ---------- progress ----------

  /** A turn at which the timer has not fired and the socket takes what it is given. */
  predicate FreeTurn(e: Event) { e.Turn? && !e.tick && e.sends }

  function PrioOf(messages: seq<string>): seq<Out> {
    seq(|messages|, i requires 0 <= i < |messages| => Prio(messages[i]))
  }

  function NormalOf(messages: seq<string>): seq<Out> {
    seq(|messages|, i requires 0 <= i < |messages| => Normal(messages[i]))
  }

  /** One free turn: the head of the priority lane, else the head of the normal lane, else the farewell if
      that lane is closed. A closed priority lane ends the loop as soon as it is empty. */
  lemma FreeTurnGives(s: State, e: Event)
    requires s.running && FreeTurn(e)
    ensures var s' := Step(s, e);
      && (s.prio != [] ==> s' == s.(prio := s.prio[1..], handed := s.handed + [Prio(s.prio[0])]))
      && (s.prio == [] && !s.prioOpen ==> s' == s.(running := false))
      && (s.prio == [] && s.prioOpen && s.normal != [] ==>
            s' == s.(normal := s.normal[1..], handed := s.handed + [Normal(s.normal[0])]))
      && (s.prio == [] && s.prioOpen && s.normal == [] && s.normalOpen ==> s' == s)
      && (s.prio == [] && s.prioOpen && s.normal == [] && !s.normalOpen ==>
            s' == s.(handed := s.handed + [RelayClosed], running := false))
  {
  }

  /** As many free turns as messages are queued hand out all of them, the priority lane first and each lane
      in its order, whatever the run was before; the writer goes on. */
  lemma {:induction false} TurnsDrain(start: nat, run: seq<Event>, turns: seq<Event>)
    requires After(start, run).running && After(start, run).prioOpen
    requires |turns| == |After(start, run).prio| + |After(start, run).normal|
    requires forall k | 0 <= k < |turns| :: FreeTurn(turns[k])
    ensures var s, s' := After(start, run), After(start, run + turns);
      s' == s.(prio := [], normal := [], handed := s.handed + PrioOf(s.prio) + NormalOf(s.normal))
    decreases |turns|
  {
    hide After, Step;
    var s := After(start, run);
    if turns == [] {
      assert run + turns == run && PrioOf([]) == [] && NormalOf([]) == [];
      assert s.handed + [] + [] == s.handed;
    } else {
      var e, rest := turns[0], turns[1..];
      assert (run + [e]) + rest == run + turns;
      assert (run + [e])[..|run|] == run;
      AfterSnoc(start, run + [e]);
      DrainStep(s, e);
      TurnsDrain(start, run + [e], rest);
    }
  }

  lemma DrainStep(s: State, e: Event)
    requires s.running && s.prioOpen && FreeTurn(e) && (s.prio != [] || s.normal != [])
    ensures var s' := Step(s, e);
      && s'.running && s'.prioOpen && |s'.prio| + |s'.normal| == |s.prio| + |s.normal| - 1
      && s'.(prio := [], normal := [], handed := s'.handed + PrioOf(s'.prio) + NormalOf(s'.normal))
           == s.(prio := [], normal := [], handed := s.handed + PrioOf(s.prio) + NormalOf(s.normal))
  {
    FreeTurnGives(s, e);
    hide Step;
    assert PrioOf([]) == [];
    if s.prio != [] {
      assert PrioOf(s.prio) == [Prio(s.prio[0])] + PrioOf(s.prio[1..]);
    } else {
      assert NormalOf(s.normal) == [Normal(s.normal[0])] + NormalOf(s.normal[1..]);
    }
  }

  /** Nothing stays behind: from any running state with an open priority lane, that many free turns bring
      out everything that was ever enqueued, on both lanes. */
  lemma EverythingGoesOut(start: nat, run: seq<Event>, turns: seq<Event>)
    requires After(start, run).running && After(start, run).prioOpen
    requires |turns| >= |After(start, run).prio| + |After(start, run).normal|
    requires forall k | 0 <= k < |turns| :: FreeTurn(turns[k])
    ensures var s' := After(start, run + turns);
      && s'.prio == [] && s'.normal == []
      && PrioOut(s'.handed) == PrioIn(run) && NormalOut(s'.handed) == NormalIn(run)
      && (After(start, run).normalOpen ==> s'.running)
    decreases |turns|
  {
    hide After, Step, PrioOut, NormalOut, PrioIn, NormalIn;
    var n := |After(start, run).prio| + |After(start, run).normal|;
    var some, more := turns[..n], turns[n..];
    assert (run + some) + more == run + turns;
    TurnsDrain(start, run, some);
    EmptyStays(start, run + some, more);
    LanesConserve(start, run + turns);
    TurnsEnqueueNothing(run, turns);
    var h := After(start, run + turns).handed;
    assert PrioOut(h) + [] == PrioOut(h) && NormalOut(h) + [] == NormalOut(h);
  }

  lemma {:induction false} EmptyStays(start: nat, run: seq<Event>, turns: seq<Event>)
    requires After(start, run).prio == [] && After(start, run).normal == []
    requires forall k | 0 <= k < |turns| :: FreeTurn(turns[k])
    ensures var s, s' := After(start, run), After(start, run + turns);
      && s'.prio == [] && s'.normal == [] && s'.prioOpen == s.prioOpen && s'.normalOpen == s.normalOpen
      && (s.prioOpen && s.normalOpen ==> s'.running == s.running)
    decreases |turns|
  {
    hide After, TakeTurn;
    if turns == [] {
      assert run + turns == run;
    } else {
      var e, rest := turns[0], turns[1..];
      assert (run + [e]) + rest == run + turns;
      assert (run + [e])[..|run|] == run;
      AfterSnoc(start, run + [e]);
      IdleTurn(After(start, run), e);
      EmptyStays(start, run + [e], rest);
    }
  }

  lemma IdleTurn(s: State, e: Event)
    requires s.prio == [] && s.normal == [] && FreeTurn(e)
    ensures var s' := Step(s, e);
      && s'.prio == [] && s'.normal == [] && s'.prioOpen == s.prioOpen && s'.normalOpen == s.normalOpen
      && (s.prioOpen && s.normalOpen ==> s' == s)
  {
  }

  lemma {:induction false} TurnsEnqueueNothing(run: seq<Event>, turns: seq<Event>)
    requires forall k | 0 <= k < |turns| :: FreeTurn(turns[k])
    ensures PrioIn(run + turns) == PrioIn(run) && NormalIn(run + turns) == NormalIn(run)
    decreases |turns|
  {
    if turns == [] {
      assert run + turns == run;
    } else {
      var before := turns[..|turns| - 1];
      assert (run + turns)[..|run + turns| - 1] == run + before;
      TurnsEnqueueNothing(run, before);
      assert PrioIn(run) + [] == PrioIn(run) && NormalIn(run) + [] == NormalIn(run);
    }
  }

  /** The farewell is said exactly at a free turn of a running writer whose normal lane is closed when both
      lanes are empty, so everything ever enqueued has gone out before it. */
  lemma FarewellComesLast(start: nat, run: seq<Event>, k: nat)
    requires k < |run|
    ensures var s := After(start, run[..k]);
      && (HandedAt(start, run, k) == [RelayClosed] <==>
            run[k].Turn? && !run[k].tick && s.running && s.prio == [] && s.prioOpen && s.normal == [] && !s.normalOpen)
      && (HandedAt(start, run, k) == [RelayClosed] ==>
            && PrioOut(s.handed) == PrioIn(run[..k]) && NormalOut(s.handed) == NormalIn(run[..k])
            && !Step(s, run[k]).running)
  {
    hide After, PrioOut, PrioIn, NormalOut, NormalIn;
    LanesConserve(start, run[..k]);
    var s := After(start, run[..k]);
    Farewell(s, run[k]);
    assert PrioOut(s.handed) + [] == PrioOut(s.handed) && NormalOut(s.handed) + [] == NormalOut(s.handed);
  }

  lemma Farewell(s: State, e: Event)
    ensures var s' := Step(s, e);
      && s.handed <= s'.handed && |s'.handed| <= |s.handed| + 1
      && (|s'.handed| > |s.handed| && s'.handed[|s.handed|..] == [RelayClosed] <==>
            e.Turn? && !e.tick && s.running && s.prio == [] && s.prioOpen && s.normal == [] && !s.normalOpen)
      && (|s'.handed| > |s.handed| && s'.handed[|s.handed|..] == [RelayClosed] ==> !s'.running)
  {
    HandsOut(s, e);
    assert |Step(s, e).handed| > |s.handed| ==> Step(s, e).handed[|s.handed|] == Step(s, e).handed[|s.handed|..][0];
  }

  /** A failed send, and nothing else but an ended lane or the timeout, stops the writer; what was being sent
      has left its lane. */
  lemma StopsIff(s: State, e: Event)
    requires s.running
    ensures var s' := Step(s, e);
      !s'.running <==>
        && e.Turn?
        && ((s.prio == [] && !s.prioOpen)
            || (|s'.handed| > |s.handed|
                && (!e.sends || s'.handed[|s.handed|].PingTimeout? || s'.handed[|s.handed|].RelayClosed?)))
  {
  }

  // ---------- keepalive ----------

  predicate PingAt(start: nat, run: seq<Event>, k: nat) {
    k < |run| && |HandedAt(start, run, k)| == 1 && HandedAt(start, run, k)[0].Ping?
  }

  predicate SeesActivity(run: seq<Event>, i: nat, j: nat) {
    exists k | i < k < j && k < |run| :: run[k].Activity?
  }

  lemma SeesMore(run: seq<Event>, i: nat, j: nat, j': nat)
    requires j <= j'
    ensures SeesActivity(run, i, j) ==> SeesActivity(run, i, j')
  {
  }

  lemma PingStep(s: State, e: Event)
    requires |Step(s, e).handed| > |s.handed| && Step(s, e).handed[|s.handed|].Ping?
    ensures var s' := Step(s, e);
      && e.Turn? && s.running && s.lastSeen == s'.lastSeen == s'.seenAt
      && !(s.pinged && s.seenAt == s.lastSeen)
      && (s'.running ==> s'.pinged)
  {
  }

  /** After a keepalive PING, the writer stays in the pinged state for as long as the client shows
      no activity. */
  lemma {:induction false} StaysPinged(start: nat, run: seq<Event>, i: nat, j: nat)
    requires i < j <= |run| && PingAt(start, run, i) && !SeesActivity(run, i, j)
    ensures var s := After(start, run[..j]);
      s.running ==> s.pinged && s.seenAt == s.lastSeen
    decreases j
  {
    hide After;
    assert run[..j][..j - 1] == run[..j - 1] && run[..j][j - 1] == run[j - 1];
    AfterSnoc(start, run[..j]);
    if i == j - 1 {
      PingStep(After(start, run[..i]), run[i]);
    } else {
      SeesMore(run, i, j - 1, j);
      StaysPinged(start, run, i, j - 1);
      assert !run[j - 1].Activity?;
    }
  }

  lemma AfterSnoc(start: nat, run: seq<Event>)
    requires run != []
    ensures After(start, run) == Step(After(start, run[..|run| - 1]), run[|run| - 1])
  {
  }

  /** At most one keepalive PING is sent between two signs of life. */
  lemma OnePingPerSilence(start: nat, run: seq<Event>, i: nat, j: nat)
    requires i < j && PingAt(start, run, i) && PingAt(start, run, j)
    ensures SeesActivity(run, i, j)
  {
    hide After;
    if !SeesActivity(run, i, j) {
      StaysPinged(start, run, i, j);
      PingStep(After(start, run[..j]), run[j]);
    }
  }

  // ---------- ping timeout ----------

  /** Does the turn at position `k` reach the timer branch? */
  predicate TickAt(start: nat, run: seq<Event>, k: nat)
    requires k < |run|
  {
    var s := After(start, run[..k]);
    s.running && run[k].Turn? && run[k].tick && s.prio == [] && s.prioOpen
  }

  /** The time of the latest handled tick, or the start. */
  function LastTick(start: nat, run: seq<Event>): nat {
    if run == [] then start
    else if TickAt(start, run, |run| - 1) then run[|run| - 1].now
    else LastTick(start, run[..|run| - 1])
  }

  /** Time does not run backwards. */
  predicate Monotone(start: nat, run: seq<Event>) {
    forall k | 0 <= k < |run| :: MonotoneAt(start, run, k)
  }

  predicate MonotoneAt(start: nat, run: seq<Event>, k: nat)
    requires k < |run|
  {
    var s, last := After(start, run[..k]), LastTick(start, run[..k]);
    && (run[k].Activity? ==> run[k].at >= last && run[k].at >= s.lastSeen)
    && (TickAt(start, run, k) ==> run[k].now >= s.lastSeen && run[k].now >= last)
  }

  /** Handled ticks are at most `t` apart. */
  predicate Regular(start: nat, run: seq<Event>, t: nat) {
    forall k | 0 <= k < |run| :: TickAt(start, run, k) ==> run[k].now <= LastTick(start, run[..k]) + t
  }

  /** An unanswered PING: sent by event `i`, and no activity since. */
  predicate Unanswered(start: nat, run: seq<Event>, i: nat, at: nat) {
    i < |run| && HandedAt(start, run, i) == [Ping(at)] && !SeesActivity(run, i, |run|)
  }

  ghost predicate HasPing(start: nat, run: seq<Event>) {
    exists i: nat, at: nat :: Unanswered(start, run, i, at)
  }

  /** A handled tick that finds the client idle for at least 90 but less than 480 seconds. */
  predicate IdleTick(start: nat, run: seq<Event>, k: nat) {
    k < |run| && TickAt(start, run, k) && IDLE_PING <= Elapsed(run[k].now, After(start, run[..k]).lastSeen) < IDLE_CLOSE
  }

  ghost predicate HasIdleTick(start: nat, run: seq<Event>) {
    exists k: nat :: IdleTick(start, run, k) && !SeesActivity(run, k, |run|)
  }

  /** What holds between turns: activity not yet looked at is no earlier than the last tick; while there is
      none, the writer is pinged exactly when the last tick found the client idle for 90 seconds, and
      then an unanswered PING went out. */
  ghost predicate Watching(start: nat, run: seq<Event>) {
    var s, last := After(start, run), LastTick(start, run);
    s.running ==>
      && s.seenAt <= last && s.seenAt <= s.lastSeen
      && (s.lastSeen != s.seenAt ==> s.lastSeen >= last)
      && (s.pinged && s.lastSeen == s.seenAt ==> HasPing(start, run))
      && (if s.pinged then s.seenAt + IDLE_PING <= last else last < s.seenAt + IDLE_PING)
  }

  lemma UnansweredStays(start: nat, run: seq<Event>, i: nat, at: nat)
    requires run != [] && !run[|run| - 1].Activity? && Unanswered(start, run[..|run| - 1], i, at)
    ensures Unanswered(start, run, i, at)
  {
    hide After;
    var before := run[..|run| - 1];
    assert before[..i] == run[..i];
    assert forall k | i < k < |run| && run[k].Activity? :: k < |before| && before[k].Activity?;
  }

  /** What one timer branch does, by what it finds. */
  lemma TickCases(s: State, now: nat, sends: bool)
    ensures var s' := Tick(s, now, sends);
      && s'.lastSeen == s.lastSeen == s'.seenAt
      && (Elapsed(now, s.lastSeen) < IDLE_PING ==>
            s'.handed == s.handed && s'.pinged == (s.pinged && s.lastSeen == s.seenAt))
      && (s'.running ==> Elapsed(now, s.lastSeen) < IDLE_CLOSE || !s.running)
      && (s'.running && !(s.pinged && s.lastSeen == s.seenAt) && Elapsed(now, s.lastSeen) >= IDLE_PING && s.running ==>
            s'.handed == s.handed + [Ping(now)] && s'.pinged)
      && (s.pinged && s.lastSeen == s.seenAt ==> s'.pinged)
  {
  }

  lemma {:induction false} StaysWatching(start: nat, run: seq<Event>)
    requires Monotone(start, run)
    ensures Watching(start, run)
  {
    hide After, Tick, HandedAt, Unanswered, HasPing;
    if run == [] {
      assert After(start, []) == Start(start) by { AfterNone(start); }
    } else {
      var before, e := run[..|run| - 1], run[|run| - 1];
      MonotonePrefix(start, run);
      StaysWatching(start, before);
      AfterSnoc(start, run);
      assert MonotoneAt(start, run, |run| - 1);
      WatchingStep(start, run);
    }
  }

  lemma AfterNone(start: nat)
    ensures After(start, []) == Start(start)
  {
  }

  lemma MonotonePrefix(start: nat, run: seq<Event>)
    requires run != [] && Monotone(start, run)
    ensures Monotone(start, run[..|run| - 1])
  {
    hide After, LastTick;
    var before := run[..|run| - 1];
    forall k | 0 <= k < |before|
      ensures MonotoneAt(start, before, k)
    {
      assert before[..k] == run[..k] && before[k] == run[k];
      assert MonotoneAt(start, run, k);
    }
  }

  lemma WatchingStep(start: nat, run: seq<Event>)
    requires run != [] && MonotoneAt(start, run, |run| - 1) && Watching(start, run[..|run| - 1])
    requires After(start, run) == Step(After(start, run[..|run| - 1]), run[|run| - 1])
    ensures Watching(start, run)
  {
    hide After, Step, Watching, MonotoneAt;
    var e := run[|run| - 1];
    if !After(start, run).running {
      StoppedWatching(start, run);
    } else if TickAt(start, run, |run| - 1) {
      TickWatching(start, run);
    } else if e.Activity? {
      ActivityWatching(start, run);
    } else {
      OtherWatching(start, run);
    }
  }

  lemma StoppedWatching(start: nat, run: seq<Event>)
    requires !After(start, run).running
    ensures Watching(start, run)
  {
    hide After;
  }

  lemma ActivityWatching(start: nat, run: seq<Event>)
    requires run != [] && MonotoneAt(start, run, |run| - 1) && Watching(start, run[..|run| - 1])
    requires After(start, run) == Step(After(start, run[..|run| - 1]), run[|run| - 1])
    requires run[|run| - 1].Activity?
    ensures Watching(start, run)
  {
    hide After, Unanswered, LastTick;
    LastTickSnoc(start, run);
  }

  lemma OtherWatching(start: nat, run: seq<Event>)
    requires run != [] && Watching(start, run[..|run| - 1])
    requires After(start, run) == Step(After(start, run[..|run| - 1]), run[|run| - 1])
    requires !run[|run| - 1].Activity? && !TickAt(start, run, |run| - 1) && After(start, run).running
    ensures Watching(start, run)
  {
    hide After, Unanswered, LastTick, Step;
    LastTickSnoc(start, run);
    var before, e := run[..|run| - 1], run[|run| - 1];
    var s := After(start, before);
    OtherStep(s, e);
    if s.pinged && s.lastSeen == s.seenAt {
      var i: nat, at: nat :| Unanswered(start, before, i, at);
      UnansweredStays(start, run, i, at);
    }
  }

  lemma LastTickSnoc(start: nat, run: seq<Event>)
    requires run != []
    ensures LastTick(start, run)
      == if TickAt(start, run, |run| - 1) then run[|run| - 1].now else LastTick(start, run[..|run| - 1])
  {
    hide After;
  }

  /** Nothing but activity and the timer touches the keepalive state. */
  lemma OtherStep(s: State, e: Event)
    requires !e.Activity? && !(s.running && e.Turn? && e.tick && s.prio == [] && s.prioOpen)
    ensures var s' := Step(s, e);
      s'.lastSeen == s.lastSeen && s'.seenAt == s.seenAt && s'.pinged == s.pinged && (s'.running ==> s.running)
  {
  }

  lemma TickWatching(start: nat, run: seq<Event>)
    requires run != [] && MonotoneAt(start, run, |run| - 1) && Watching(start, run[..|run| - 1])
    requires After(start, run) == Step(After(start, run[..|run| - 1]), run[|run| - 1])
    requires TickAt(start, run, |run| - 1) && After(start, run).running
    ensures Watching(start, run)
  {
    hide After, Tick, Unanswered, LastTick;
    LastTickSnoc(start, run);
    var before, e := run[..|run| - 1], run[|run| - 1];
    var s, s' := After(start, before), After(start, run);
    TickCases(s, e.now, e.sends);
    if s.pinged && s.lastSeen == s.seenAt {
      var i: nat, at: nat :| Unanswered(start, before, i, at);
      UnansweredStays(start, run, i, at);
    } else if Elapsed(e.now, s.lastSeen) >= IDLE_PING {
      FreshPing(start, run, e.now);
    }
  }

  lemma FreshPing(start: nat, run: seq<Event>, now: nat)
    requires run != [] && After(start, run) == Step(After(start, run[..|run| - 1]), run[|run| - 1])
    requires After(start, run).handed == After(start, run[..|run| - 1]).handed + [Ping(now)]
    ensures Unanswered(start, run, |run| - 1, now)
  {
    hide After;
    var k := |run| - 1;
    assert HandedAt(start, run, k) == [Ping(now)];
  }

  /** While the writer runs, so also in front of every ping timeout, there is an unanswered PING exactly when
      some handled tick since the last activity found the client idle for at least 90 but less than 480
      seconds. */
  lemma PingedIff(start: nat, run: seq<Event>)
    requires Monotone(start, run) && After(start, run).running
    ensures HasPing(start, run) <==> HasIdleTick(start, run)
  {
    hide After, Unanswered, IdleTick;
    if HasPing(start, run) {
      var i: nat, at: nat :| Unanswered(start, run, i, at);
      PingIsIdleTick(start, run, i, at);
    }
    if HasIdleTick(start, run) {
      var k: nat :| IdleTick(start, run, k) && !SeesActivity(run, k, |run|);
      IdleTickPings(start, run, k);
    }
  }

  lemma PingIsIdleTick(start: nat, run: seq<Event>, i: nat, at: nat)
    requires Unanswered(start, run, i, at)
    ensures IdleTick(start, run, i) && !SeesActivity(run, i, |run|) && run[i].now == at
  {
    hide After;
    PingFound(After(start, run[..i]), run[i], at);
  }

  lemma PingFound(s: State, e: Event, at: nat)
    requires var s' := Step(s, e); |s'.handed| > |s.handed| && s'.handed[|s.handed|..] == [Ping(at)]
    ensures e.Turn? && e.tick && e.now == at && s.running && s.prio == [] && s.prioOpen
    ensures IDLE_PING <= Elapsed(at, s.lastSeen) < IDLE_CLOSE
  {
    assert Step(s, e).handed[|s.handed|] == Ping(at);
  }

  lemma {:induction false} IdleTickPings(start: nat, run: seq<Event>, k: nat)
    requires Monotone(start, run) && After(start, run).running
    requires IdleTick(start, run, k) && !SeesActivity(run, k, |run|)
    ensures HasPing(start, run)
    decreases |run|
  {
    hide After, Unanswered, Watching, Tick;
    var before := run[..|run| - 1];
    AfterSnoc(start, run);
    MonotonePrefix(start, run);
    RanBefore(After(start, before), run[|run| - 1]);
    if k == |run| - 1 {
      StaysWatching(start, run);
      TickPings(After(start, before), run[k]);
      PingedHasPing(start, run);
    } else {
      assert before[..k] == run[..k];
      SeesMore(run, k, |before|, |run|);
      SeesBefore(run, k);
      IdleTickPings(start, before, k);
      var i: nat, at: nat :| Unanswered(start, before, i, at);
      assert !run[|run| - 1].Activity?;
      UnansweredStays(start, run, i, at);
    }
  }

  lemma SeesBefore(run: seq<Event>, k: nat)
    requires run != []
    ensures SeesActivity(run[..|run| - 1], k, |run| - 1) ==> SeesActivity(run, k, |run| - 1)
  {
  }

  lemma PingedHasPing(start: nat, run: seq<Event>)
    requires Watching(start, run)
    requires var s := After(start, run); s.running && s.pinged && s.lastSeen == s.seenAt
    ensures HasPing(start, run)
  {
    hide After, HasPing;
  }

  lemma RanBefore(s: State, e: Event)
    requires Step(s, e).running
    ensures s.running
  {
  }

  lemma TickPings(s: State, e: Event)
    requires e.Turn? && e.tick && s.prio == [] && s.prioOpen && Step(s, e).running
    requires IDLE_PING <= Elapsed(e.now, s.lastSeen) < IDLE_CLOSE
    ensures var s' := Step(s, e); s'.pinged && s'.lastSeen == s'.seenAt
  {
  }

  lemma TimeoutStep(s: State, e: Event, now: nat)
    requires Step(s, e).handed == s.handed + [PingTimeout(now)]
    ensures e.Turn? && e.now == now && e.tick && s.running && s.prio == [] && s.prioOpen
    ensures Elapsed(now, s.lastSeen) >= IDLE_CLOSE
  {
    assert Step(s, e).handed[|s.handed|] == PingTimeout(now);
  }

  // ---------- regular ticks ----------

  /** Where the last handled tick was, if it was later than the last activity. */
  lemma {:induction false} LastTickIs(start: nat, run: seq<Event>) returns (k: nat)
    requires Monotone(start, run) && LastTick(start, run) > After(start, run).lastSeen
    ensures k < |run| && TickAt(start, run, k) && run[k].now == LastTick(start, run) && !SeesActivity(run, k, |run|)
    ensures After(start, run[..k]).lastSeen == After(start, run).lastSeen
    decreases |run|
  {
    hide After;
    if run == [] {
      AfterNone(start);
    } else {
      var before, e := run[..|run| - 1], run[|run| - 1];
      LastTickSnoc(start, run);
      AfterSnoc(start, run);
      OnlyActivity(After(start, before), e);
      if TickAt(start, run, |run| - 1) {
        k := |run| - 1;
      } else {
        assert MonotoneAt(start, run, |run| - 1);
        MonotonePrefix(start, run);
        k := LastTickIs(start, before);
        assert before[..k] == run[..k];
        QuietBehind(run, k);
      }
    }
  }

  lemma OnlyActivity(s: State, e: Event)
    ensures Step(s, e).lastSeen == if e.Activity? then e.at else s.lastSeen
  {
  }

  lemma QuietBehind(run: seq<Event>, k: nat)
    requires k + 1 < |run| && !SeesActivity(run[..|run| - 1], k, |run| - 1) && !run[|run| - 1].Activity?
    ensures !SeesActivity(run, k, |run|)
  {
    var before := run[..|run| - 1];
    assert forall j | k < j < |run| && run[j].Activity? :: before[j].Activity?;
  }

  /** A PING goes out within `t` of the 90 seconds. */
  lemma PingSoon(start: nat, run: seq<Event>, t: nat, i: nat, at: nat)
    requires Monotone(start, run) && Regular(start, run, t) && Unanswered(start, run, i, at)
    ensures at <= After(start, run[..i]).lastSeen + IDLE_PING + t
  {
    hide After, Watching, Unanswered, LastTick, TickAt;
    PingIsIdleTick(start, run, i, at);
    MonotoneTo(start, run, i);
    StaysWatching(start, run[..i]);
    PingFresh(start, run, i, at);
    assert run[..i][..i] == run[..i];
    WatchedTick(start, run[..i]);
  }

  lemma PingFresh(start: nat, run: seq<Event>, i: nat, at: nat)
    requires Unanswered(start, run, i, at)
    ensures var s := After(start, run[..i]); s.running && !(s.pinged && s.seenAt == s.lastSeen)
  {
    hide After;
    assert HandedAt(start, run, i)[0] == Ping(at);
    PingStep(After(start, run[..i]), run[i]);
  }

  lemma WatchedTick(start: nat, run: seq<Event>)
    requires Watching(start, run)
    requires var s := After(start, run); s.running && !(s.pinged && s.seenAt == s.lastSeen)
    ensures LastTick(start, run) <= After(start, run).lastSeen + IDLE_PING
  {
    hide After, LastTick, HasPing;
  }

  lemma {:induction false} MonotoneTo(start: nat, run: seq<Event>, i: nat)
    requires Monotone(start, run) && i <= |run|
    ensures Monotone(start, run[..i])
    decreases |run|
  {
    hide Monotone;
    if i == |run| {
      assert run[..i] == run;
    } else {
      MonotonePrefix(start, run);
      MonotoneTo(start, run[..|run| - 1], i);
      assert run[..|run| - 1][..i] == run[..i];
    }
  }

  lemma {:induction false} SameSeen(start: nat, run: seq<Event>, i: nat)
    requires i < |run| && !SeesActivity(run, i, |run|) && !run[i].Activity?
    ensures After(start, run).lastSeen == After(start, run[..i]).lastSeen
    decreases |run|
  {
    hide After;
    var before, e := run[..|run| - 1], run[|run| - 1];
    AfterSnoc(start, run);
    OnlyActivity(After(start, before), e);
    if i < |run| - 1 {
      assert before[..i] == run[..i];
      SeesMore(run, i, |before|, |run|);
      SeesBefore(run, i);
      SameSeen(start, before, i);
    }
  }

  /** With ticks at most `t` apart, `t` being at most 390 seconds, a ping timeout always follows a PING that
      was sent at least `390 s - t` earlier and was not answered by any activity: 360 seconds for the
      interval of 30 seconds. */
  lemma TimeoutFollowsPing(start: nat, run: seq<Event>, e: Event, now: nat, t: nat)
    requires Monotone(start, run + [e]) && Regular(start, run + [e], t) && t <= 390_000
    requires Step(After(start, run), e).handed == After(start, run).handed + [PingTimeout(now)]
    ensures exists i: nat, at: nat :: Unanswered(start, run, i, at) && at + (390_000 - t) <= now
  {
    hide After, Unanswered, LastTick;
    var all := run + [e];
    assert all[..|run|] == run && all[|run|] == e;
    MonotonePrefix(start, all);
    assert Regular(start, run, t) by { RegularPrefix(start, all, t); }
    TimeoutStep(After(start, run), e, now);
    assert TickAt(start, all, |run|);
    InTime(start, run, now);
    PingedIff(start, run);
    var i: nat, at: nat :| Unanswered(start, run, i, at);
    PingSoon(start, run, t, i, at);
    PingIsIdleTick(start, run, i, at);
    SameSeen(start, run, i);
  }

  lemma RegularPrefix(start: nat, run: seq<Event>, t: nat)
    requires run != [] && Regular(start, run, t)
    ensures Regular(start, run[..|run| - 1], t)
  {
    hide After, LastTick;
    var before := run[..|run| - 1];
    forall k | 0 <= k < |before| && TickAt(start, before, k)
      ensures before[k].now <= LastTick(start, before[..k]) + t
    {
      assert before[..k] == run[..k] && before[k] == run[k];
    }
  }

  /** A last tick at least 90 seconds behind the last activity was in time. */
  lemma InTime(start: nat, run: seq<Event>, now: nat)
    requires Monotone(start, run) && After(start, run).running
    requires LastTick(start, run) >= After(start, run).lastSeen + IDLE_PING
    ensures HasIdleTick(start, run)
  {
    hide After, LastTick, Monotone;
    var k := LastTickIs(start, run);
    if Elapsed(run[k].now, After(start, run[..k]).lastSeen) >= IDLE_CLOSE {
      SilentPeerDropped(start, run, k);
    }
    assert IdleTick(start, run, k);
  }

  /** And a peer that stays silent is dropped: while the loop runs, no handled tick has found the
      client idle for 480 seconds. */
  lemma {:induction false} SilentPeerDropped(start: nat, run: seq<Event>, k: nat)
    requires k < |run| && TickAt(start, run, k)
    requires Elapsed(run[k].now, After(start, run[..k]).lastSeen) >= IDLE_CLOSE
    ensures !After(start, run).running
    decreases |run|
  {
    hide After, Tick;
    AfterSnoc(start, run);
    var before := run[..|run| - 1];
    if k == |run| - 1 {
      TickCases(After(start, before), run[k].now, run[k].sends);
    } else {
      assert before[..k] == run[..k];
      SilentPeerDropped(start, before, k);
      StaysStopped(After(start, before), run[|run| - 1]);
    }
  }

  lemma StaysStopped(s: State, e: Event)
    requires !s.running
    ensures !Step(s, e).running
  {
  }

  /** The bound of 390 seconds is sharp: a tick a millisecond short of the first PING, and the next one
      390.001 seconds later, close the connection without any PING. So does a first tick that comes
      480 seconds late. */
  lemma LateTickClosesUnpinged(start: nat)
    ensures var run := [Turn(true, start + 89_999, true), Turn(true, start + 480_000, true)];
      && Monotone(start, run) && Regular(start, run, 390_001)
      && After(start, run).handed == [PingTimeout(start + 480_000)]
    ensures After(start, [Turn(true, start + 480_000, true)]).handed == [PingTimeout(start + 480_000)]
  {
    var a, b := Turn(true, start + 89_999, true), Turn(true, start + 480_000, true);
    var run := [a, b];
    assert [b][..0] == [] && [a][..0] == [] && run[..1] == [a] && run[..0] == [];
    AfterNone(start);
    AfterSnoc(start, [b]);
    AfterSnoc(start, [a]);
    AfterSnoc(start, run);
    LastTickSnoc(start, [a]);
    assert TickAt(start, [a], 0) && LastTick(start, []) == start;
    assert MonotoneAt(start, run, 0) && MonotoneAt(start, run, 1);
  }
}
