/** The verification flow registry and its driver (`VerificationHub` in `src/matrix/verification.rs`). */
module Verification {
  import opened Strings

  /** What the other side and the user have made of a request. Done and cancelled are final. */
  datatype Phase = Requested | Ready | Transitioned | Passive | Done | Cancelled

  predicate Terminal(p: Phase) {
    p == Done || p == Cancelled
  }

  /** A registration. `serial` numbers registrations so that runs can be talked about; `request` and
      `sas` stand for shared handles, whose state lives outside the registry. */
  datatype Entry = Entry(serial: nat, flow: string, request: nat, weStarted: bool, sas: Option<nat>, emojisShown: bool)

  /** What the driver does that others can see. A SAS that is picked up is accepted when the other
      side started it. */
  datatype Event =
    | Found(serial: nat, accepts: bool)
    | Prompt(serial: nat)
    | Ended(serial: nat, request: nat, done: bool)

  /** A flow the driver is about to announce, with the outcome it read. */
  datatype Ending = Ending(entry: Entry, done: bool)

  /** Where the driver is in a pass. `rest` is what is left of the snapshot it took; in the middle
      three its first element is being worked on. */
  datatype Driver =
    | Idle
    | Driving(rest: seq<Entry>)
    | Asking(rest: seq<Entry>)
    | Storing(rest: seq<Entry>, sas: nat)
    | Marking(rest: seq<Entry>)
    | Finishing(todo: seq<Ending>)

  /** Everything: the registry, the state of the requests, the visible actions so far, the number of
      registrations and the driver. A request that is not in `phases` is in its first phase. */
  datatype State = State(entries: seq<Entry>, phases: map<nat, Phase>, log: seq<Event>, next: nat, driver: Driver)

  function PhaseOf(phases: map<nat, Phase>, request: nat): Phase {
    if request in phases then phases[request] else Requested
  }

  /** A run interleaves registrations and moves of the requests with the driver's own actions, each
      of which looks at or changes shared state once. The parameters of a driver action are the
      answers it gets from the SAS objects. */
  datatype Step =
    | Register(flow: string, request: nat, weStarted: bool)
    | Move(request: nat, phase: Phase)
    | Begin
    | Look(presentable: bool, emoji: bool)
    | Answer(found: Option<nat>)
    | Store
    | Mark
    | Collect
    | Announce

  // ---------- the list operations ----------

  predicate HasFlow(entries: seq<Entry>, flow: string) {
    exists e | e in entries :: e.flow == flow
  }

  datatype Edit = SetSas(sas: nat) | SetShown

  function Edited(e: Entry, edit: Edit): Entry {
    match edit
    case SetSas(s) => e.(sas := Some(s))
    case SetShown => e.(emojisShown := true)
  }

  /** The first entry with the flow id is changed. */
  function EditFlow(entries: seq<Entry>, flow: string, edit: Edit): seq<Entry> {
    if entries == [] then []
    else if entries[0].flow == flow then [Edited(entries[0], edit)] + entries[1..]
    else [entries[0]] + EditFlow(entries[1..], flow, edit)
  }

  predicate Leaves(e: Entry, phases: map<nat, Phase>, flow: string) {
    e.flow == flow && Terminal(PhaseOf(phases, e.request))
  }

  function Forget(entries: seq<Entry>, phases: map<nat, Phase>, flow: string): seq<Entry> {
    if entries == [] then []
    else (if Leaves(entries[0], phases, flow) then [] else [entries[0]]) + Forget(entries[1..], phases, flow)
  }

  function Endings(entries: seq<Entry>, phases: map<nat, Phase>): seq<Ending> {
    if entries == [] then []
    else
      var p := PhaseOf(phases, entries[0].request);
      (if Terminal(p) then [Ending(entries[0], p == Done)] else []) + Endings(entries[1..], phases)
  }

  // ---------- the steps ----------

  function Apply(s: State, step: Step): State {
    match step
    case Register(flow, request, weStarted) =>
      if HasFlow(s.entries, flow) then s
      else s.(entries := s.entries + [Entry(s.next, flow, request, weStarted, None, false)], next := s.next + 1)
    case Move(request, phase) =>
      if Terminal(PhaseOf(s.phases, request)) then s else s.(phases := s.phases[request := phase])
    case Begin => if s.driver.Idle? then s.(driver := Driving(s.entries)) else s
    case Look(presentable, emoji) => ApplyLook(s, presentable, emoji)
    case Answer(found) => ApplyAnswer(s, found)
    case Store => ApplyStore(s)
    case Mark => ApplyMark(s)
    case Collect => ApplyCollect(s)
    case Announce => ApplyAnnounce(s)
  }

  function ApplyLook(s: State, presentable: bool, emoji: bool): State {
    if !s.driver.Driving? || s.driver.rest == [] then s
    else
      var e, later := s.driver.rest[0], s.driver.rest[1..];
      if e.sas.None? then
        var p := PhaseOf(s.phases, e.request);
        if Terminal(p) || p == Passive then s.(driver := Driving(later)) else s.(driver := Asking(s.driver.rest))
      else if !e.emojisShown && presentable then
        s.(log := if emoji then s.log + [Prompt(e.serial)] else s.log, driver := Marking(s.driver.rest))
      else s.(driver := Driving(later))
  }

  function ApplyAnswer(s: State, found: Option<nat>): State {
    if !s.driver.Asking? || s.driver.rest == [] then s
    else
      var e := s.driver.rest[0];
      if found.None? then s.(driver := Driving(s.driver.rest[1..]))
      else s.(log := s.log + [Found(e.serial, !e.weStarted)], driver := Storing(s.driver.rest, found.value))
  }

  function ApplyStore(s: State): State {
    if !s.driver.Storing? || s.driver.rest == [] then s
    else
      s.(entries := EditFlow(s.entries, s.driver.rest[0].flow, SetSas(s.driver.sas)),
         driver := Driving(s.driver.rest[1..]))
  }

  function ApplyMark(s: State): State {
    if !s.driver.Marking? || s.driver.rest == [] then s
    else
      s.(entries := EditFlow(s.entries, s.driver.rest[0].flow, SetShown),
         driver := Driving(s.driver.rest[1..]))
  }

  function ApplyCollect(s: State): State {
    if !s.driver.Driving? || s.driver.rest != [] then s
    else
      var todo := Endings(s.entries, s.phases);
      s.(driver := if todo == [] then Idle else Finishing(todo))
  }

  function ApplyAnnounce(s: State): State {
    if !s.driver.Finishing? || s.driver.todo == [] then s
    else
      var f, later := s.driver.todo[0], s.driver.todo[1..];
      s.(log := s.log + [Ended(f.entry.serial, f.entry.request, f.done)],
         entries := Forget(s.entries, s.phases, f.entry.flow),
         driver := if later == [] then Idle else Finishing(later))
  }

  const START := State([], map[], [], 0, Idle)

  function Run(s: State, steps: seq<Step>): State
    decreases |steps|
  {
    if steps == [] then s else Run(Apply(s, steps[0]), steps[1..])
  }

  // ---------- the hub ----------

  /** The hub, with the shared state of its requests and its driver. */
  class Hub {
    var entries: seq<Entry>
    var phases: map<nat, Phase>
    var log: seq<Event>
    var next: nat
    var driver: Driver

    function Now(): State
      reads this
    {
      State(entries, phases, log, next, driver)
    }

    constructor ()
      ensures Now() == START
    {
      entries, phases, log, next, driver := [], map[], [], 0, Idle;
    }

    /** `register`. */
    method Register(flow: string, request: nat, weStarted: bool)
      modifies this`entries, this`next
      ensures Now() == Apply(old(Now()), Step.Register(flow, request, weStarted))
    {
      for i := 0 to |entries|
        invariant forall k | 0 <= k < i :: entries[k].flow != flow
      {
        if entries[i].flow == flow {
          assert entries[i] in entries;
          return;
        }
      }
      entries := entries + [Entry(next, flow, request, weStarted, None, false)];
      next := next + 1;
    }

    /** The first entry with the flow id, which `set_sas` and `set_emojis_shown` change. */
    method EditFirst(flow: string, edit: Edit)
      modifies this`entries
      ensures entries == EditFlow(old(entries), flow, edit)
    {
      hide Edited;
      var i := 0;
      while i < |entries| && entries[i].flow != flow
        invariant i <= |entries| && entries == old(entries)
        invariant EditFlow(entries, flow, edit) == entries[..i] + EditFlow(entries[i..], flow, edit)
      {
        var was := entries[i];
        Suffix(entries, i, 1);
        Assoc(entries[..i], [was], EditFlow(entries[i + 1..], flow, edit));
        assert entries[..i] + [was] == entries[..i + 1];
        i := i + 1;
      }
      if i < |entries| {
        Suffix(entries, i, 1);
        assert entries[..i] + ([Edited(entries[i], edit)] + entries[i + 1..]) == entries[i := Edited(entries[i], edit)];
        entries := entries[i := Edited(entries[i], edit)];
      } else {
        assert entries[i..] == [] && entries[..i] + [] == entries;
      }
    }

    /** The scan for flows that have ended. */
    method Finished() returns (todo: seq<Ending>)
      ensures todo == Endings(entries, phases)
    {
      todo := [];
      var i := 0;
      while i < |entries|
        invariant i <= |entries|
        invariant todo + Endings(entries[i..], phases) == Endings(entries, phases)
      {
        var p := PhaseOf(phases, entries[i].request);
        Suffix(entries, i, 1);
        var more := if Terminal(p) then [Ending(entries[i], p == Done)] else [];
        Assoc(todo, more, Endings(entries[i + 1..], phases));
        todo := todo + more;
        i := i + 1;
      }
      assert entries[i..] == [] && todo + [] == todo;
    }

    /** `retain` after a flow was announced. */
    method Retain(flow: string)
      modifies this`entries
      ensures entries == Forget(old(entries), phases, flow)
    {
      var kept := [];
      var i := 0;
      while i < |entries|
        invariant i <= |entries| && entries == old(entries)
        invariant kept + Forget(entries[i..], phases, flow) == Forget(entries, phases, flow)
      {
        Suffix(entries, i, 1);
        var more := if Leaves(entries[i], phases, flow) then [] else [entries[i]];
        Assoc(kept, more, Forget(entries[i + 1..], phases, flow));
        kept := kept + more;
        i := i + 1;
      }
      assert entries[i..] == [] && kept + [] == kept;
      entries := kept;
    }

    /** The next action of `drive`; which one it is, is decided by where the driver is. */
    method Drive(presentable: bool, emoji: bool, found: Option<nat>)
      modifies this
      ensures Now() == Apply(old(Now()), NextStep(old(driver), presentable, emoji, found))
    {
      match driver
      case Idle =>
        driver := Driving(entries);
      case Driving(rest) =>
        if rest == [] {
          var todo := Finished();
          driver := if todo == [] then Idle else Finishing(todo);
        } else {
          LookAt(rest[0], rest[1..], presentable, emoji);
        }
      case Asking(rest) =>
        if rest != [] {
          if found.None? {
            driver := Driving(rest[1..]);
          } else {
            log := log + [Found(rest[0].serial, !rest[0].weStarted)];
            driver := Storing(rest, found.value);
          }
        }
      case Storing(rest, sas) =>
        if rest != [] {
          EditFirst(rest[0].flow, SetSas(sas));
          driver := Driving(rest[1..]);
        }
      case Marking(rest) =>
        if rest != [] {
          EditFirst(rest[0].flow, SetShown);
          driver := Driving(rest[1..]);
        }
      case Finishing(todo) =>
        if todo != [] {
          var f := todo[0].entry;
          log := log + [Ended(f.serial, f.request, todo[0].done)];
          Retain(f.flow);
          driver := if |todo| == 1 then Idle else Finishing(todo[1..]);
        }
    }

    method LookAt(e: Entry, later: seq<Entry>, presentable: bool, emoji: bool)
      requires driver == Driving([e] + later)
      modifies this`log, this`driver
      ensures Now() == ApplyLook(old(Now()), presentable, emoji)
    {
      assert ([e] + later)[1..] == later;
      if e.sas.None? {
        var p := PhaseOf(phases, e.request);
        driver := if Terminal(p) || p == Passive then Driving(later) else Asking([e] + later);
      } else if !e.emojisShown && presentable {
        if emoji {
          log := log + [Prompt(e.serial)];
        }
        driver := Marking([e] + later);
      } else {
        driver := Driving(later);
      }
    }
  }

  /** The driver is sequential: what it does next follows from where it is. */
  function NextStep(driver: Driver, presentable: bool, emoji: bool, found: Option<nat>): Step {
    match driver
    case Idle => Begin
    case Driving(rest) => if rest == [] then Collect else Look(presentable, emoji)
    case Asking(_) => Answer(found)
    case Storing(_, _) => Store
    case Marking(_) => Mark
    case Finishing(_) => Announce
  }
}
