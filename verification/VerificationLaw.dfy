/** What every run of the verification registry keeps. */
module VerificationLaw {
  import opened Strings
  import opened Verification

  // ---------- the invariant ----------

  /** No flow id is registered twice at a time, and registrations are in order. */
  predicate Distinct(entries: seq<Entry>) {
    forall i, j | 0 <= i < j < |entries| :: entries[i].flow != entries[j].flow && entries[i].serial < entries[j].serial
  }

  predicate Registry(s: State) {
    && Distinct(s.entries)
    && (forall e | e in s.entries :: e.serial < s.next && (e.emojisShown ==> e.sas.Some?))
  }

  function Pending(d: Driver): seq<Entry> {
    if d.Idle? || d.Finishing? then [] else d.rest
  }

  /** The snapshot the driver works on is never out of date: what it still has to look at is in the
      registry, as it was copied. */
  predicate Current(s: State) {
    var rest := Pending(s.driver);
    && Distinct(rest)
    && (forall e | e in rest :: e in s.entries)
    && (s.driver.Asking? || s.driver.Storing? ==> rest != [] && rest[0].sas.None?)
    && (s.driver.Marking? ==> rest != [] && rest[0].sas.Some? && !rest[0].emojisShown)
  }

  predicate DistinctEndings(todo: seq<Ending>) {
    forall i, j | 0 <= i < j < |todo| :: todo[i].entry.flow != todo[j].entry.flow
  }

  function Outcome(done: bool): Phase {
    if done then Done else Cancelled
  }

  /** The endings the driver is about to announce are still registered, and still true. */
  predicate Endable(s: State) {
    s.driver.Finishing? ==>
      && s.driver.todo != []
      && DistinctEndings(s.driver.todo)
      && forall f | f in s.driver.todo :: f.entry in s.entries && PhaseOf(s.phases, f.entry.request) == Outcome(f.done)
  }

  /** Every outcome that was announced is the outcome of the request. */
  predicate Truthful(s: State) {
    forall v | v in s.log && v.Ended? :: PhaseOf(s.phases, v.request) == Outcome(v.done)
  }

  datatype Kind = Founds | Prompts | Ends

  function KindOf(v: Event): Kind {
    match v
    case Found(_, _) => Founds
    case Prompt(_) => Prompts
    case Ended(_, _, _) => Ends
  }

  /** How often something of a kind happened to a registration. */
  function Times(log: seq<Event>, k: Kind, n: nat): nat {
    if log == [] then 0
    else
      var v := log[|log| - 1];
      Times(log[..|log| - 1], k, n) + (if KindOf(v) == k && v.serial == n then 1 else 0)
  }

  predicate Holds(entries: seq<Entry>, n: nat) {
    exists e | e in entries :: e.serial == n
  }

  predicate HasSas(s: State, e: Entry) {
    e.sas.Some? || (s.driver.Storing? && s.driver.rest != [] && s.driver.rest[0] == e)
  }

  predicate Prompted(s: State, e: Entry) {
    e.emojisShown || (s.driver.Marking? && s.driver.rest != [] && s.driver.rest[0] == e)
  }

  /** The account of one registration: its SAS is picked up at most once, it is prompted for at most
      once and only after that, and its end is announced exactly once, when it leaves the registry. */
  predicate Accounted(s: State, n: nat) {
    var f, p, x := Times(s.log, Founds, n), Times(s.log, Prompts, n), Times(s.log, Ends, n);
    && p <= f <= 1
    && x == (if n < s.next && !Holds(s.entries, n) then 1 else 0)
    && (n >= s.next ==> f == 0)
    && forall e | e in s.entries && e.serial == n ::
         f == (if HasSas(s, e) then 1 else 0) && (p == 1 ==> Prompted(s, e))
  }

  ghost predicate Inv(s: State) {
    && Registry(s)
    && Current(s)
    && Endable(s)
    && Truthful(s)
    && (forall n: nat :: Accounted(s, n))
  }

  // ---------- about the lists ----------

  lemma TimesPush(log: seq<Event>, v: Event, k: Kind, n: nat)
    ensures Times(log + [v], k, n) == Times(log, k, n) + (if KindOf(v) == k && v.serial == n then 1 else 0)
  {
    assert (log + [v])[..|log|] == log;
  }

  lemma SameFlow(entries: seq<Entry>, a: Entry, b: Entry)
    requires Distinct(entries) && a in entries && b in entries && (a.flow == b.flow || a.serial == b.serial)
    ensures a == b
  {
    var i :| 0 <= i < |entries| && entries[i] == a;
    var j :| 0 <= j < |entries| && entries[j] == b;
  }

  lemma DistinctSplit(e: Entry, s: seq<Entry>)
    ensures Distinct([e] + s) <==> Distinct(s) && forall x | x in s :: x.flow != e.flow && e.serial < x.serial
  {
    var all := [e] + s;
    if Distinct(all) {
      forall a, b | 0 <= a < b < |s|
        ensures s[a].flow != s[b].flow && s[a].serial < s[b].serial
      {
        assert s[a] == all[a + 1] && s[b] == all[b + 1];
      }
      forall x | x in s
        ensures x.flow != e.flow && e.serial < x.serial
      {
        var k :| 0 <= k < |s| && s[k] == x;
        assert all[0] == e && all[k + 1] == x;
      }
    }
  }

  /** With distinct flow ids, the one entry with the flow id is changed and nothing else is. */
  lemma {:induction false} EditIs(entries: seq<Entry>, flow: string, edit: Edit)
    requires Distinct(entries)
    ensures
      var r := EditFlow(entries, flow, edit);
      && |r| == |entries|
      && forall i | 0 <= i < |r| :: r[i] == if entries[i].flow == flow then Edited(entries[i], edit) else entries[i]
  {
    hide Edited;
    if entries != [] && entries[0].flow != flow {
      assert entries == [entries[0]] + entries[1..];
      DistinctSplit(entries[0], entries[1..]);
      EditIs(entries[1..], flow, edit);
    }
  }

  lemma EditDistinct(entries: seq<Entry>, flow: string, edit: Edit)
    requires Distinct(entries)
    ensures Distinct(EditFlow(entries, flow, edit))
  {
    hide EditFlow;
    EditIs(entries, flow, edit);
  }

  lemma EditMembers(entries: seq<Entry>, e: Entry, edit: Edit)
    requires Distinct(entries) && e in entries
    ensures forall x :: x in EditFlow(entries, e.flow, edit) <==> x == Edited(e, edit) || (x in entries && x != e)
  {
    hide EditFlow, Edited;
    EditIs(entries, e.flow, edit);
    var r := EditFlow(entries, e.flow, edit);
    forall x
      ensures x in r <==> x == Edited(e, edit) || (x in entries && x != e)
    {
      if x in r {
        var i :| 0 <= i < |r| && r[i] == x;
        if entries[i].flow == e.flow {
          SameFlow(entries, entries[i], e);
        }
      }
      if x in entries && x != e {
        var i :| 0 <= i < |entries| && entries[i] == x;
        if x.flow == e.flow {
          SameFlow(entries, x, e);
        }
        assert r[i] == x;
      }
      if x == Edited(e, edit) {
        var i :| 0 <= i < |entries| && entries[i] == e;
        assert r[i] == x;
      }
    }
  }

  lemma {:induction false} ForgetMembers(entries: seq<Entry>, phases: map<nat, Phase>, flow: string)
    ensures forall x :: x in Forget(entries, phases, flow) <==> x in entries && !Leaves(x, phases, flow)
  {
    hide Leaves;
    if entries != [] {
      assert entries == [entries[0]] + entries[1..];
      ForgetMembers(entries[1..], phases, flow);
    }
  }

  lemma {:induction false} ForgetDistinct(entries: seq<Entry>, phases: map<nat, Phase>, flow: string)
    requires Distinct(entries)
    ensures Distinct(Forget(entries, phases, flow))
  {
    hide Leaves, Distinct;
    if entries != [] {
      var e, rest := entries[0], entries[1..];
      assert entries == [e] + rest;
      DistinctSplit(e, rest);
      ForgetDistinct(rest, phases, flow);
      ForgetMembers(rest, phases, flow);
      DistinctSplit(e, Forget(rest, phases, flow));
      assert [] + Forget(rest, phases, flow) == Forget(rest, phases, flow);
    } else {
      assert Forget(entries, phases, flow) == entries;
    }
  }

  lemma {:induction false} EndingsMembers(entries: seq<Entry>, phases: map<nat, Phase>)
    ensures forall f :: f in Endings(entries, phases) <==>
      && f.entry in entries && Terminal(PhaseOf(phases, f.entry.request))
      && f.done == (PhaseOf(phases, f.entry.request) == Done)
  {
    hide Terminal, PhaseOf;
    if entries != [] {
      assert entries == [entries[0]] + entries[1..];
      EndingsMembers(entries[1..], phases);
    }
  }

  lemma {:induction false} EndingsDistinct(entries: seq<Entry>, phases: map<nat, Phase>)
    requires Distinct(entries)
    ensures DistinctEndings(Endings(entries, phases))
  {
    hide Terminal, PhaseOf, Distinct;
    if entries != [] {
      var e, rest := entries[0], entries[1..];
      assert entries == [e] + rest;
      DistinctSplit(e, rest);
      EndingsDistinct(rest, phases);
      EndingsMembers(rest, phases);
      var later := Endings(rest, phases);
      forall i | 0 <= i < |later|
        ensures later[i].entry.flow != e.flow
      {
        assert later[i] in later;
      }
    }
  }

  lemma NoneDistinct()
    ensures Distinct([])
  {
  }

  lemma TailIn<T>(s: seq<T>)
    requires s != []
    ensures s == [s[0]] + s[1..] && s[0] in s && forall x | x in s[1..] :: x in s
  {
  }

  // ---------- every step keeps it ----------

  lemma RegisterKeeps(s: State, flow: string, request: nat, weStarted: bool)
    requires Inv(s)
    ensures Inv(Apply(s, Step.Register(flow, request, weStarted)))
  {
    hide Times, Outcome, PhaseOf;
    if !HasFlow(s.entries, flow) {
      var t := Apply(s, Step.Register(flow, request, weStarted));
      var e := t.entries[|s.entries|];
      assert t.entries == s.entries + [e];
      forall n: nat
        ensures Accounted(t, n)
      {
        assert Accounted(s, n);
        assert Holds(t.entries, n) <==> Holds(s.entries, n) || n == s.next by {
          assert e in t.entries;
          assert forall x :: x in t.entries <==> x in s.entries || x == e;
        }
        assert e !in Pending(s.driver);
      }
    }
  }

  lemma MoveKeeps(s: State, request: nat, phase: Phase)
    requires Inv(s)
    ensures Inv(Apply(s, Move(request, phase)))
  {
    hide Times, Distinct;
    var t := Apply(s, Move(request, phase));
    assert forall n: nat :: Accounted(s, n) ==> Accounted(t, n);
  }

  lemma BeginKeeps(s: State)
    requires Inv(s)
    ensures Inv(Apply(s, Begin))
  {
    hide Times, Distinct;
    var t := Apply(s, Begin);
    assert forall n: nat :: Accounted(s, n) ==> Accounted(t, n);
  }

  lemma LookKeeps(s: State, presentable: bool, emoji: bool)
    requires Inv(s)
    ensures Inv(ApplyLook(s, presentable, emoji))
  {
    hide Times, Distinct, Outcome, PhaseOf;
    if s.driver.Driving? && s.driver.rest != [] {
      var t := ApplyLook(s, presentable, emoji);
      var e, later := s.driver.rest[0], s.driver.rest[1..];
      TailIn(s.driver.rest);
      DistinctSplit(e, later);
      forall n: nat
        ensures Accounted(t, n)
      {
        assert Accounted(s, n);
        TimesPush(s.log, Prompt(e.serial), Founds, n);
        TimesPush(s.log, Prompt(e.serial), Prompts, n);
        TimesPush(s.log, Prompt(e.serial), Ends, n);
        forall x | x in s.entries && x.serial == e.serial
          ensures x == e
        {
          SameFlow(s.entries, x, e);
        }
      }
    }
  }

  lemma AnswerKeeps(s: State, found: Option<nat>)
    requires Inv(s)
    ensures Inv(ApplyAnswer(s, found))
  {
    hide Times, Distinct, Outcome, PhaseOf;
    if s.driver.Asking? && s.driver.rest != [] {
      var t := ApplyAnswer(s, found);
      var e, later := s.driver.rest[0], s.driver.rest[1..];
      TailIn(s.driver.rest);
      DistinctSplit(e, later);
      forall n: nat
        ensures Accounted(t, n)
      {
        assert Accounted(s, n);
        TimesPush(s.log, Found(e.serial, !e.weStarted), Founds, n);
        TimesPush(s.log, Found(e.serial, !e.weStarted), Prompts, n);
        TimesPush(s.log, Found(e.serial, !e.weStarted), Ends, n);
        forall x | x in s.entries && x.serial == e.serial
          ensures x == e
        {
          SameFlow(s.entries, x, e);
        }
      }
    }
  }

  /** Storing a SAS and marking a prompt as shown: one entry, the one the driver is at. */
  lemma EditKeeps(s: State, edit: Edit)
    requires Inv(s) && if edit.SetSas? then s.driver.Storing? else s.driver.Marking?
    ensures Inv(s.(entries := EditFlow(s.entries, s.driver.rest[0].flow, edit), driver := Driving(s.driver.rest[1..])))
  {
    hide Times, Distinct, Outcome, PhaseOf, EditFlow;
    var e, later := s.driver.rest[0], s.driver.rest[1..];
    var t := s.(entries := EditFlow(s.entries, e.flow, edit), driver := Driving(later));
    TailIn(s.driver.rest);
    DistinctSplit(e, later);
    EditMembers(s.entries, e, edit);
    EditDistinct(s.entries, e.flow, edit);
    assert Accounted(s, e.serial);
    forall n: nat
      ensures Accounted(t, n)
    {
      assert Accounted(s, n);
      assert Edited(e, edit) in t.entries;
      forall x | x in s.entries && x.serial == e.serial
        ensures x == e
      {
        SameFlow(s.entries, x, e);
      }
    }
  }

  lemma CollectKeeps(s: State)
    requires Inv(s)
    ensures Inv(ApplyCollect(s))
  {
    hide Times, Distinct, DistinctEndings;
    var t := ApplyCollect(s);
    EndingsMembers(s.entries, s.phases);
    EndingsDistinct(s.entries, s.phases);
    assert forall n: nat :: Accounted(s, n) ==> Accounted(t, n);
  }

  /** Announcing an end removes exactly the entry it is about. */
  lemma AnnounceRemoves(s: State)
    requires Inv(s) && s.driver.Finishing?
    ensures forall x :: x in ApplyAnnounce(s).entries <==> x in s.entries && x != s.driver.todo[0].entry
  {
    hide Times, Distinct, DistinctEndings;
    var e := s.driver.todo[0].entry;
    assert s.driver.todo[0] in s.driver.todo;
    ForgetMembers(s.entries, s.phases, e.flow);
    forall x | x in s.entries && x.flow == e.flow
      ensures x == e
    {
      SameFlow(s.entries, x, e);
    }
  }

  lemma AnnounceAccounts(s: State, n: nat)
    requires Inv(s) && s.driver.Finishing?
    ensures Accounted(ApplyAnnounce(s), n)
  {
    hide Times, Distinct, DistinctEndings, Outcome, PhaseOf, Forget, Truthful;
    var t := ApplyAnnounce(s);
    var f := s.driver.todo[0];
    var e, v := f.entry, Ended(f.entry.serial, f.entry.request, f.done);
    assert f in s.driver.todo;
    AnnounceRemoves(s);
    assert Accounted(s, n);
    TimesPush(s.log, v, Founds, n);
    TimesPush(s.log, v, Prompts, n);
    TimesPush(s.log, v, Ends, n);
    forall x | x in s.entries && x.serial == e.serial
      ensures x == e
    {
      SameFlow(s.entries, x, e);
    }
  }

  lemma AnnounceKeeps(s: State)
    requires Inv(s)
    ensures Inv(ApplyAnnounce(s))
  {
    hide Accounted, Distinct, Forget, Outcome, PhaseOf;
    if s.driver.Finishing? {
      var t := ApplyAnnounce(s);
      var f, later := s.driver.todo[0], s.driver.todo[1..];
      assert f in s.driver.todo;
      AnnounceRemoves(s);
      ForgetDistinct(s.entries, s.phases, f.entry.flow);
      NoneDistinct();
      forall g | g in later
        ensures g in s.driver.todo && g.entry != f.entry
      {
        var k :| 0 <= k < |later| && later[k] == g;
        assert s.driver.todo[k + 1] == g;
      }
      forall n: nat
        ensures Accounted(t, n)
      {
        AnnounceAccounts(s, n);
      }
    }
  }

  lemma StepKeeps(s: State, step: Step)
    requires Inv(s)
    ensures Inv(Apply(s, step))
  {
    hide Inv, ApplyLook, ApplyAnswer, ApplyCollect, ApplyAnnounce;
    match step
    case Register(flow, request, weStarted) => RegisterKeeps(s, flow, request, weStarted);
    case Move(request, phase) => MoveKeeps(s, request, phase);
    case Begin => BeginKeeps(s);
    case Look(presentable, emoji) => LookKeeps(s, presentable, emoji);
    case Answer(found) => AnswerKeeps(s, found);
    case Store => if s.driver.Storing? && s.driver.rest != [] { EditKeeps(s, SetSas(s.driver.sas)); }
    case Mark => if s.driver.Marking? && s.driver.rest != [] { EditKeeps(s, SetShown); }
    case Collect => CollectKeeps(s);
    case Announce => AnnounceKeeps(s);
  }

  lemma {:induction false} RunKeeps(s: State, steps: seq<Step>)
    requires Inv(s)
    ensures Inv(Run(s, steps))
    decreases |steps|
  {
    hide Inv, Apply;
    if steps != [] {
      StepKeeps(s, steps[0]);
      RunKeeps(Apply(s, steps[0]), steps[1..]);
    }
  }

  // ---------- what follows for every run ----------

  /** In every run: flow ids stay distinct, each registration is announced as ended exactly once if
      it has left the registry and not at all before, its SAS is picked up at most once, its emojis are
      prompted for at most once and only after that, and what a pass still has to look at of its
      snapshot is what is in the registry. */
  lemma EveryRun(steps: seq<Step>, n: nat)
    ensures
      var t := Run(START, steps);
      && (forall a, b | a in t.entries && b in t.entries && a.flow == b.flow :: a == b)
      && Times(t.log, Ends, n) == (if n < t.next && !Holds(t.entries, n) then 1 else 0)
      && Times(t.log, Prompts, n) <= Times(t.log, Founds, n) <= 1
      && (forall e | e in Pending(t.driver) :: e in t.entries)
  {
    hide Times, Run;
    StartHolds();
    RunKeeps(START, steps);
    var t := Run(START, steps);
    assert Accounted(t, n);
    forall a, b | a in t.entries && b in t.entries && a.flow == b.flow
      ensures a == b
    {
      SameFlow(t.entries, a, b);
    }
  }

  lemma StartHolds()
    ensures Inv(START)
  {
  }

  lemma {:induction false} LogGrows(s: State, steps: seq<Step>, v: Event)
    requires v in s.log
    ensures v in Run(s, steps).log
    decreases |steps|
  {
    if steps != [] {
      LogGrows(Apply(s, steps[0]), steps[1..], v);
    }
  }

  /** An outcome, once announced, is the outcome of that request for the rest of the run: the user is
      never told "done" of a request that is or becomes cancelled, nor the other way round. */
  lemma OutcomeIsFinal(steps: seq<Step>, more: seq<Step>, v: Event)
    requires v.Ended? && v in Run(START, steps).log
    ensures v in Run(Run(START, steps), more).log
    ensures PhaseOf(Run(Run(START, steps), more).phases, v.request) == Outcome(v.done)
  {
    hide Run, PhaseOf, Outcome;
    StartHolds();
    RunKeeps(START, steps);
    RunKeeps(Run(START, steps), more);
    LogGrows(Run(START, steps), more, v);
  }

  // ---------- a pass forgets what has ended ----------

  /** Registration `n` is forgotten, or has ended and the pass under way will still come to it. */
  predicate Doomed(s: State, n: nat) {
    && n < s.next
    && (Holds(s.entries, n) ==>
          && !s.driver.Idle?
          && (exists e | e in s.entries :: e.serial == n && Terminal(PhaseOf(s.phases, e.request)))
          && (s.driver.Finishing? ==> exists f | f in s.driver.todo :: f.entry.serial == n))
  }

  lemma DoomedLocal(s: State, step: Step, n: nat)
    requires Inv(s) && Doomed(s, n) && !step.Store? && !step.Mark? && !step.Collect? && !step.Announce?
    ensures Doomed(Apply(s, step), n)
  {
    hide Accounted, Distinct, Times, HasFlow;
    if step.Register? && Holds(Apply(s, step).entries, n) {
      var e :| e in Apply(s, step).entries && e.serial == n;
      assert e in s.entries;
    }
  }

  lemma DoomedEdit(s: State, edit: Edit, n: nat)
    requires Inv(s) && Doomed(s, n) && if edit.SetSas? then s.driver.Storing? else s.driver.Marking?
    ensures var entries := EditFlow(s.entries, s.driver.rest[0].flow, edit);
      Doomed(s.(entries := entries, driver := Driving(s.driver.rest[1..])), n)
  {
    hide Accounted, Distinct, EditFlow, Terminal, PhaseOf;
    var h := s.driver.rest[0];
    assert h in s.driver.rest;
    EditMembers(s.entries, h, edit);
    var r := EditFlow(s.entries, h.flow, edit);
    if Holds(r, n) {
      var x :| x in r && x.serial == n;
      assert Holds(s.entries, n) by {
        assert (if x == Edited(h, edit) then h else x) in s.entries;
      }
      var e :| e in s.entries && e.serial == n && Terminal(PhaseOf(s.phases, e.request));
      assert (if e == h then Edited(h, edit) else e) in r;
    }
  }

  lemma DoomedCollect(s: State, n: nat)
    requires Inv(s) && Doomed(s, n)
    ensures Doomed(ApplyCollect(s), n)
  {
    hide Accounted, Distinct, Terminal, PhaseOf, Endings;
    if s.driver.Driving? && s.driver.rest == [] && Holds(s.entries, n) {
      EndingsMembers(s.entries, s.phases);
      var e :| e in s.entries && e.serial == n && Terminal(PhaseOf(s.phases, e.request));
      assert Ending(e, PhaseOf(s.phases, e.request) == Done) in Endings(s.entries, s.phases);
    }
  }

  lemma DoomedAnnounce(s: State, n: nat)
    requires Inv(s) && Doomed(s, n)
    ensures Doomed(ApplyAnnounce(s), n)
  {
    hide Accounted, Distinct, DistinctEndings, Terminal, PhaseOf, Forget;
    if s.driver.Finishing? {
      var t := ApplyAnnounce(s);
      var todo := s.driver.todo;
      TailIn(todo);
      AnnounceRemoves(s);
      if Holds(t.entries, n) {
        var x :| x in t.entries && x.serial == n;
        assert x in s.entries;
        var f :| f in todo && f.entry.serial == n;
        SameFlow(s.entries, x, f.entry);
        assert f in todo[1..];
        var e :| e in s.entries && e.serial == n && Terminal(PhaseOf(s.phases, e.request));
        SameFlow(s.entries, x, e);
      }
    }
  }

  lemma DoomedStep(s: State, step: Step, n: nat)
    requires Inv(s) && Doomed(s, n)
    ensures Doomed(Apply(s, step), n)
  {
    hide Doomed;
    match step
    case Store => if s.driver.Storing? && s.driver.rest != [] { DoomedEdit(s, SetSas(s.driver.sas), n); }
    case Mark => if s.driver.Marking? && s.driver.rest != [] { DoomedEdit(s, SetShown, n); }
    case Collect => DoomedCollect(s, n);
    case Announce => DoomedAnnounce(s, n);
    case _ => DoomedLocal(s, step, n);
  }

  lemma {:induction false} DoomedRun(s: State, steps: seq<Step>, n: nat)
    requires Inv(s) && Doomed(s, n)
    ensures Doomed(Run(s, steps), n)
    decreases |steps|
  {
    hide Inv, Apply, Doomed;
    if steps != [] {
      StepKeeps(s, steps[0]);
      DoomedStep(s, steps[0], n);
      DoomedRun(Apply(s, steps[0]), steps[1..], n);
    }
  }

  /** A request that has ended before a pass collects is announced and forgotten by the time the pass
      is over, whatever is registered or moves meanwhile; and it stays forgotten. */
  lemma PassForgets(s: State, steps: seq<Step>, e: Entry)
    requires Inv(s) && !s.driver.Idle? && !s.driver.Finishing?
    requires e in s.entries && Terminal(PhaseOf(s.phases, e.request))
    ensures
      var t := Run(s, steps);
      t.driver.Idle? ==> !Holds(t.entries, e.serial) && Times(t.log, Ends, e.serial) == 1
  {
    hide Run, Times;
    assert Doomed(s, e.serial);
    DoomedRun(s, steps, e.serial);
    RunKeeps(s, steps);
    assert Accounted(Run(s, steps), e.serial);
  }

  // ---------- a pass ends ----------

  function Stage(d: Driver): nat {
    if d.Idle? then 0 else if d.Finishing? then 1 else 2
  }

  function Effort(d: Driver): int {
    match d
    case Idle => 0
    case Driving(rest) => 3 * |rest|
    case Asking(rest) => 3 * |rest| - 1
    case Storing(rest, _) => 3 * |rest| - 2
    case Marking(rest) => 3 * |rest| - 2
    case Finishing(todo) => |todo|
  }

  /** The driver is never stuck in a pass: whatever the answers, its next action brings it closer to the
      end, and nothing else moves it. So every pass ends, though registrations keep coming. */
  lemma PassEnds(
      s: State, presentable: bool, emoji: bool, found: Option<nat>,
      flow: string, request: nat, weStarted: bool, phase: Phase)
    requires Inv(s) && !s.driver.Idle?
    ensures
      var d := Apply(s, NextStep(s.driver, presentable, emoji, found)).driver;
      Stage(d) < Stage(s.driver) || (Stage(d) == Stage(s.driver) && 0 <= Effort(d) < Effort(s.driver))
    ensures Apply(s, Step.Register(flow, request, weStarted)).driver == s.driver
    ensures Apply(s, Move(request, phase)).driver == s.driver
  {
    hide Accounted, Truthful, Registry, EditFlow, Forget, Endings, Terminal, PhaseOf, HasFlow;
  }

  // ---------- what the driver does for one registration ----------

  /** What other parties may do between two actions of the driver. */
  predicate FromOutside(step: Step) { step.Register? || step.Move? }

  lemma {:induction false} OutsideLeaves(s: State, others: seq<Step>)
    requires forall i | 0 <= i < |others| :: FromOutside(others[i])
    ensures var t := Run(s, others);
      t.driver == s.driver && t.log == s.log && s.entries <= t.entries
    decreases |others|
  {
    hide HasFlow, PhaseOf, Terminal, ApplyLook, ApplyAnswer, ApplyStore, ApplyMark, ApplyCollect, ApplyAnnounce;
    if others != [] {
      var next := Apply(s, others[0]);
      assert FromOutside(others[0]);
      assert s.entries <= next.entries;
      OutsideLeaves(next, others[1..]);
    }
  }

  /** A SAS that can be presented and was not shown yet is prompted for when it is looked at, if it has
      emojis, and the registration is then marked as shown, whatever others do in between. Any other SAS is
      passed over without a word. */
  lemma ShownWhenPresentable(s: State, emoji: bool, others: seq<Step>)
    requires Inv(s) && s.driver.Driving? && s.driver.rest != [] && s.driver.rest[0].sas.Some?
    requires forall i | 0 <= i < |others| :: FromOutside(others[i])
    ensures var e, later := s.driver.rest[0], s.driver.rest[1..];
      var looked := Apply(s, Look(true, emoji));
      var marked := Apply(Run(looked, others), Mark);
      && (!e.emojisShown ==>
            && marked.log == s.log + (if emoji then [Prompt(e.serial)] else [])
            && e.(emojisShown := true) in marked.entries
            && (forall x | x in s.entries && x != e :: x in marked.entries)
            && marked.driver == Driving(later))
      && (e.emojisShown ==> looked == s.(driver := Driving(later)))
      && Apply(s, Look(false, emoji)) == s.(driver := Driving(later))
  {
    hide EditFlow, Times, Outcome, PhaseOf, Registry, Endable, Truthful, Accounted, Distinct;
    var e := s.driver.rest[0];
    var looked := Apply(s, Look(true, emoji));
    var asked := Run(looked, others);
    OutsideLeaves(looked, others);
    assert s.log + [] == s.log;
    if !e.emojisShown {
      StepKeeps(s, Look(true, emoji));
      RunKeeps(looked, others);
      assert Distinct(asked.entries) by { KeptDistinct(asked); }
      EditMembers(asked.entries, e, SetShown);
    }
  }

  lemma KeptDistinct(s: State)
    requires Inv(s)
    ensures Distinct(s.entries)
  {
  }

  /** A registration without a SAS is asked for one, unless its request has ended or is passive. */
  lemma AskedWhenLive(s: State, presentable: bool, emoji: bool)
    requires s.driver.Driving? && s.driver.rest != [] && s.driver.rest[0].sas.None?
    ensures Apply(s, Look(presentable, emoji)).driver
      == if PhaseOf(s.phases, s.driver.rest[0].request) in {Requested, Ready, Transitioned}
         then Asking(s.driver.rest) else Driving(s.driver.rest[1..])
    ensures Apply(s, Look(presentable, emoji)) == s.(driver := Apply(s, Look(presentable, emoji)).driver)
  {
  }

  /** A SAS that is found is accepted when the other side started it, and kept in the registration, whatever
      others do in between; without one, the driver goes on to the next registration. */
  lemma KeptWhenFound(s: State, sas: nat, others: seq<Step>)
    requires Inv(s) && s.driver.Asking?
    requires forall i | 0 <= i < |others| :: FromOutside(others[i])
    ensures var e, later := s.driver.rest[0], s.driver.rest[1..];
      var stored := Apply(Run(Apply(s, Answer(Some(sas))), others), Store);
      && stored.log == s.log + [Found(e.serial, !e.weStarted)]
      && e.(sas := Some(sas)) in stored.entries
      && (forall x | x in s.entries && x != e :: x in stored.entries)
      && stored.driver == Driving(later)
      && Apply(s, Answer(None)) == s.(driver := Driving(later))
  {
    hide EditFlow, Times, Outcome, PhaseOf, Registry, Endable, Truthful, Accounted, Distinct;
    var e := s.driver.rest[0];
    var found := Apply(s, Answer(Some(sas)));
    var answered := Run(found, others);
    assert found.driver == Storing(s.driver.rest, sas) && found.entries == s.entries;
    OutsideLeaves(found, others);
    StepKeeps(s, Answer(Some(sas)));
    RunKeeps(found, others);
    assert Distinct(answered.entries) by { KeptDistinct(answered); }
    assert e in s.entries && e in answered.entries;
    EditMembers(answered.entries, e, SetSas(sas));
  }

  // ---------- a pass looks at everything ----------

  /** The driver alone, when every SAS can be presented and has emojis. */
  function Driven(s: State, n: nat, found: Option<nat>): State
    decreases n
  {
    if n == 0 then s else Driven(Apply(s, NextStep(s.driver, true, true, found)), n - 1, found)
  }

  lemma {:induction false} DrivenTwice(s: State, m: nat, n: nat, found: Option<nat>)
    ensures Driven(Driven(s, m, found), n, found) == Driven(s, m + n, found)
    decreases m
  {
    hide Apply;
    if m > 0 {
      DrivenTwice(Apply(s, NextStep(s.driver, true, true, found)), m - 1, n, found);
    }
  }

  /** One, two or three actions bring the driver to the next registration. */
  lemma NextVisit(s: State, found: Option<nat>) returns (n: nat)
    requires s.driver.Driving? && s.driver.rest != []
    ensures 1 <= n <= 3 && Driven(s, n, found).driver == Driving(s.driver.rest[1..])
  {
    hide EditFlow;
    var s1 := Apply(s, NextStep(s.driver, true, true, found));
    var s2 := Apply(s1, NextStep(s1.driver, true, true, found));
    assert Driven(s, 1, found) == s1 by { assert Driven(s1, 0, found) == s1; }
    if s1.driver.Driving? {
      return 1;
    }
    assert Driven(s, 2, found) == s2 by {
      assert Driven(s2, 0, found) == s2;
      assert Driven(s1, 1, found) == s2;
    }
    if s2.driver.Driving? {
      return 2;
    }
    var s3 := Apply(s2, NextStep(s2.driver, true, true, found));
    assert Driven(s, 3, found) == s3 by {
      assert Driven(s3, 0, found) == s3;
      assert Driven(s2, 1, found) == s3;
      assert Driven(s1, 2, found) == s3;
    }
    return 3;
  }

  lemma {:induction false} Visited(s: State, e: Entry, found: Option<nat>) returns (n: nat)
    requires s.driver.Driving? && e in s.driver.rest && e.sas.Some? && !e.emojisShown
    ensures n <= 3 * |s.driver.rest| && Prompt(e.serial) in Driven(s, n, found).log
    decreases |s.driver.rest|
  {
    hide EditFlow, Driven;
    if s.driver.rest[0] == e {
      DrivenOnce(s, found);
      return 1;
    }
    TailIn(s.driver.rest);
    var k := NextVisit(s, found);
    assert e in s.driver.rest[1..];
    var m := Visited(Driven(s, k, found), e, found);
    DrivenTwice(s, k, m, found);
    return k + m;
  }

  lemma DrivenOnce(s: State, found: Option<nat>)
    ensures Driven(s, 1, found) == Apply(s, NextStep(s.driver, true, true, found))
  {
    hide Apply;
    assert forall t: State :: Driven(t, 0, found) == t;
  }

  /** A pass looks at every registration there is when it begins: each SAS not shown before is prompted for. */
  lemma PassPrompts(s: State, e: Entry, found: Option<nat>)
    requires s.driver.Idle? && e in s.entries && e.sas.Some? && !e.emojisShown
    ensures exists n: nat | n <= 3 * |s.entries| + 1 :: Prompt(e.serial) in Driven(s, n, found).log
  {
    hide Driven;
    DrivenOnce(s, found);
    var n := Visited(Driven(s, 1, found), e, found);
    DrivenTwice(s, 1, n, found);
  }

  // ---------- who accepts ----------

  /** Who started each registration of a run, in the order of the registrations. */
  function Started(s: State, steps: seq<Step>): seq<bool>
    decreases |steps|
  {
    if steps == [] then []
    else
      var head :=
        if steps[0].Register? && !HasFlow(s.entries, steps[0].flow) then [steps[0].weStarted] else [];
      head + Started(Apply(s, steps[0]), steps[1..])
  }

  predicate Known(started: seq<bool>, e: Entry) {
    e.serial < |started| && e.weStarted == started[e.serial]
  }

  predicate RightlyAccepted(started: seq<bool>, v: Event) {
    v.Found? ==> v.serial < |started| && v.accepts == !started[v.serial]
  }

  /** Registrations say who started them, and so does what was accepted. */
  predicate Attributed(s: State, started: seq<bool>) {
    && |started| == s.next
    && (forall e | e in s.entries :: Known(started, e))
    && (forall e | e in Pending(s.driver) :: Known(started, e))
    && (forall v | v in s.log :: RightlyAccepted(started, v))
  }

  lemma KnownStays(started: seq<bool>, more: seq<bool>)
    ensures forall e :: Known(started, e) ==> Known(started + more, e)
    ensures forall v :: RightlyAccepted(started, v) ==> RightlyAccepted(started + more, v)
  {
  }

  lemma EditKnown(entries: seq<Entry>, flow: string, edit: Edit, started: seq<bool>)
    requires Distinct(entries) && forall e | e in entries :: Known(started, e)
    ensures forall e | e in EditFlow(entries, flow, edit) :: Known(started, e)
  {
    hide EditFlow;
    EditIs(entries, flow, edit);
    var r := EditFlow(entries, flow, edit);
    forall e | e in r
      ensures Known(started, e)
    {
      var i :| 0 <= i < |r| && r[i] == e;
      assert Known(started, entries[i]);
    }
  }

  /** A step that leaves the registrations to come as they are, or drops some. */
  lemma AttributedFewer(s: State, t: State, started: seq<bool>)
    requires Attributed(s, started) && t.next == s.next
    requires forall e | e in t.entries :: e in s.entries || Known(started, e)
    requires forall e | e in Pending(t.driver) :: e in s.entries || e in Pending(s.driver)
    requires forall v | v in t.log :: v in s.log || RightlyAccepted(started, v)
    ensures Attributed(t, started)
  {
    hide Known, RightlyAccepted, Pending;
  }

  lemma AttributedRegister(s: State, flow: string, request: nat, weStarted: bool, started: seq<bool>)
    requires Attributed(s, started) && !HasFlow(s.entries, flow)
    ensures Attributed(Apply(s, Step.Register(flow, request, weStarted)), started + [weStarted])
  {
    hide Known, RightlyAccepted, HasFlow;
    KnownStays(started, [weStarted]);
    NewKnown(Entry(s.next, flow, request, weStarted, None, false), started);
  }

  /** The driver's own actions and the moves of the requests. */
  lemma AttributedOther(s: State, step: Step, started: seq<bool>)
    requires Attributed(s, started) && Distinct(s.entries) && !step.Register?
    ensures Attributed(Apply(s, step), started)
  {
    hide EditFlow, Forget, PhaseOf, Distinct, Terminal, Known, RightlyAccepted, Endings, Attributed, ApplyLook,
      ApplyAnswer;
    var t := Apply(s, step);
    AttributedIs(s, started);
    PromptRightly(started);
    if Pending(s.driver) != [] {
      TailIn(Pending(s.driver));
    }
    match step
    case Answer(found) => AttributedAnswer(s, found, started);
    case Look(presentable, emoji) => AttributedLook(s, presentable, emoji, started);
    case Store =>
      if s.driver.Storing? && s.driver.rest != [] {
        EditKnown(s.entries, s.driver.rest[0].flow, SetSas(s.driver.sas), started);
      }
      AttributedFewer(s, t, started);
    case Mark =>
      if s.driver.Marking? && s.driver.rest != [] {
        EditKnown(s.entries, s.driver.rest[0].flow, SetShown, started);
      }
      AttributedFewer(s, t, started);
    case Announce =>
      if s.driver.Finishing? && s.driver.todo != [] {
        ForgetMembers(s.entries, s.phases, s.driver.todo[0].entry.flow);
      }
      AttributedFewer(s, t, started);
    case _ => AttributedFewer(s, t, started);
  }

  lemma AttributedIs(s: State, started: seq<bool>)
    requires Attributed(s, started)
    ensures forall e | e in s.entries :: Known(started, e)
  {
  }

  lemma AttributedLook(s: State, presentable: bool, emoji: bool, started: seq<bool>)
    requires Attributed(s, started)
    ensures Attributed(ApplyLook(s, presentable, emoji), started)
  {
    hide Known, RightlyAccepted, Attributed, PhaseOf, Terminal;
    PromptRightly(started);
    if Pending(s.driver) != [] {
      TailIn(Pending(s.driver));
    }
    AttributedFewer(s, ApplyLook(s, presentable, emoji), started);
  }

  lemma AttributedAnswer(s: State, found: Option<nat>, started: seq<bool>)
    requires Attributed(s, started)
    ensures Attributed(ApplyAnswer(s, found), started)
  {
    hide Known, RightlyAccepted;
    if s.driver.Asking? && s.driver.rest != [] {
      TailIn(s.driver.rest);
      FoundRightly(s.driver.rest[0], started);
    }
    AttributedFewer(s, ApplyAnswer(s, found), started);
  }

  lemma AttributedStep(s: State, step: Step, started: seq<bool>)
    requires Attributed(s, started) && Distinct(s.entries)
    ensures Attributed(Apply(s, step), started + Started(s, [step]))
  {
    hide Distinct, HasFlow, Attributed;
    assert [step][1..] == [] && Started(Apply(s, step), []) == [];
    var head := if step.Register? && !HasFlow(s.entries, step.flow) then [step.weStarted] else [];
    assert head + [] == head && started + [] == started;
    if head != [] {
      AttributedRegister(s, step.flow, step.request, step.weStarted, started);
    } else if !step.Register? {
      AttributedOther(s, step, started);
    }
  }

  lemma NewKnown(e: Entry, started: seq<bool>)
    requires e.serial == |started|
    ensures Known(started + [e.weStarted], e)
  {
  }

  lemma FoundRightly(e: Entry, started: seq<bool>)
    requires Known(started, e)
    ensures RightlyAccepted(started, Found(e.serial, !e.weStarted))
  {
  }

  lemma PromptRightly(started: seq<bool>)
    ensures forall n :: RightlyAccepted(started, Prompt(n))
    ensures forall n, r, d :: RightlyAccepted(started, Ended(n, r, d))
  {
  }

  lemma {:induction false} AttributedRun(s: State, steps: seq<Step>, started: seq<bool>)
    requires Inv(s) && Attributed(s, started)
    ensures Attributed(Run(s, steps), started + Started(s, steps))
    decreases |steps|
  {
    hide Attributed, Inv, Apply;
    if steps == [] {
      assert started + [] == started;
    } else {
      KeptDistinct(s);
      StepKeeps(s, steps[0]);
      AttributedStep(s, steps[0], started);
      AttributedRun(Apply(s, steps[0]), steps[1..], started + Started(s, [steps[0]]));
      FirstStarted(s, steps);
      Assoc(started, Started(s, [steps[0]]), Started(Apply(s, steps[0]), steps[1..]));
    }
  }

  lemma FirstStarted(s: State, steps: seq<Step>)
    requires steps != []
    ensures Started(s, steps) == Started(s, [steps[0]]) + Started(Apply(s, steps[0]), steps[1..])
  {
    hide Apply, HasFlow;
    assert [steps[0]][1..] == [];
    assert Started(Apply(s, steps[0]), []) == [];
  }

  /** In every run, the SAS of a registration is accepted exactly when the other side started it. */
  lemma WhoAccepts(steps: seq<Step>, n: nat, accepts: bool)
    requires Found(n, accepts) in Run(START, steps).log
    ensures n < |Started(START, steps)| == Run(START, steps).next
    ensures accepts <==> !Started(START, steps)[n]
  {
    hide Run, Started, Inv;
    StartHolds();
    AttributedRun(START, steps, []);
    assert [] + Started(START, steps) == Started(START, steps);
    assert RightlyAccepted(Started(START, steps), Found(n, accepts));
  }
}
