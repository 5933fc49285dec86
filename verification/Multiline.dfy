/** The intake of `draft/multiline` batches: the batch part of `relay_loop` and `handle_batch`
    (`src/ircd/server.rs`). */
module Multiline {
  import opened Strings

  datatype Tag = Tag(key: string, value: Option<string>)

  datatype BatchKind = Netsplit | Netjoin | Custom(name: string)

  /** The commands the intake looks at; everything else is `Other`. */
  datatype Command =
    | Privmsg(target: string, body: string)
    | Notice(target: string, body: string)
    | Batch(name: string, kind: Option<BatchKind>, args: Option<seq<string>>)
    | Other

  datatype Message = Message(tags: seq<Tag>, command: Command)

  /** One line of a batch: its text, and whether it is glued to the line before it. */
  datatype Line = Line(text: string, concat: bool)

  /** `MultiLine`: a batch being accumulated. */
  datatype Batched = Batched(target: string, notice: bool, lines: seq<Line>, reply: Option<string>)

  /** `tag_value`: the value of the first tag of that name. */
  function TagValue(tags: seq<Tag>, key: string): Option<string> {
    if tags == [] then None
    else if tags[0].key == key then tags[0].value
    else TagValue(tags[1..], key)
  }

  predicate HasTag(tags: seq<Tag>, key: string) {
    exists i | 0 <= i < |tags| :: tags[i].key == key
  }

  /** The batch a message says it belongs to. */
  function RefOf(m: Message): Option<string> {
    var b := TagValue(m.tags, "batch");
    if b.Some? then b else TagValue(m.tags, "draft/multiline")
  }

  predicate IsTalk(m: Message) { m.command.Privmsg? || m.command.Notice? }

  function LineOf(m: Message): Line
    requires IsTalk(m)
  {
    Line(m.command.body, HasTag(m.tags, "draft/multiline-concat"))
  }

  /** A batch with one more message. The first one settles what the opening left open. */
  function Accumulate(b: Batched, m: Message): Batched
    requires IsTalk(m)
  {
    var first := b.lines == [];
    Batched(
      if first && b.target == "" then m.command.target else b.target,
      if first then m.command.Notice? else b.notice,
      b.lines + [LineOf(m)],
      if first && b.reply.None? then TagValue(m.tags, "+draft/reply") else b.reply)
  }

  /** The reference a BATCH command closes, and the one it opens. */
  function Closes(m: Message): Option<string> {
    if m.command.Batch? && m.command.name != "" && m.command.name[0] == '-' then Some(m.command.name[1..]) else None
  }

  function Opens(m: Message): Option<string> {
    if m.command.Batch? && m.command.name != "" && m.command.name[0] == '+'
      && m.command.kind.Some? && m.command.kind.value.Custom?
      && Lower(m.command.kind.value.name) == Lower("DRAFT/MULTILINE")
    then Some(m.command.name[1..]) else None
  }

  function NewBatch(m: Message): Batched
    requires m.command.Batch?
  {
    var args := m.command.args;
    Batched(if args.Some? && args.value != [] then args.value[0] else "", false, [], TagValue(m.tags, "+draft/reply"))
  }

  /** The body of a finished batch: lines on lines of their own, unless glued. */
  function Glued(lines: seq<Line>): string {
    if lines == [] then "" else (if lines[0].concat then "" else "\n") + lines[0].text + Glued(lines[1..])
  }

  function BodyOf(lines: seq<Line>): string {
    if lines == [] then "" else lines[0].text + Glued(lines[1..])
  }

  /** What becomes of one incoming message. */
  datatype Outcome =
    | Absorbed(reference: string)
    | Opened(reference: string)
    | Flushed(reference: string, batch: Batched, body: string)
    | Dispatched
    | Nothing

  type Open = map<string, Batched>

  /** One message: the open batches after it, and what became of it. */
  function Step(open: Open, m: Message): (Open, Outcome) {
    var r := RefOf(m);
    if r.Some? && IsTalk(m) && r.value in open then
      (open[r.value := Accumulate(open[r.value], m)], Absorbed(r.value))
    else if m.command.Batch? then BatchStep(open, m)
    else (open, Dispatched)
  }

  function BatchStep(open: Open, m: Message): (Open, Outcome)
    requires m.command.Batch?
  {
    if Closes(m).Some? then
      var c := Closes(m).value;
      if c in open then (open - {c}, Flushed(c, open[c], BodyOf(open[c].lines))) else (open, Nothing)
    else if Opens(m).Some? then (open[Opens(m).value := NewBatch(m)], Opened(Opens(m).value))
    else (open, Nothing)
  }

  /** The connection's batch table, as `relay_loop` keeps it. */
  class Intake {
    var multiline: Open

    constructor ()
      ensures multiline == map[]
    {
      multiline := map[];
    }

    /** One turn of `relay_loop`. */
    method Receive(m: Message) returns (outcome: Outcome)
      modifies this
      ensures (multiline, outcome) == Step(old(multiline), m)
    {
      var ml := RefOf(m);
      if ml.Some? && IsTalk(m) && ml.value in multiline {
        var b := multiline[ml.value];
        if b.lines == [] {
          b := b.(notice := m.command.Notice?);
          if b.target == "" {
            b := b.(target := m.command.target);
          }
          if b.reply.None? {
            b := b.(reply := TagValue(m.tags, "+draft/reply"));
          }
        }
        b := b.(lines := b.lines + [LineOf(m)]);
        multiline := multiline[ml.value := b];
        return Absorbed(ml.value);
      }
      if m.command.Batch? {
        outcome := HandleBatch(m);
      } else {
        outcome := Dispatched;
      }
    }

    /** `handle_batch`: closing comes first, because it carries no kind. */
    method HandleBatch(m: Message) returns (outcome: Outcome)
      requires m.command.Batch?
      modifies this
      ensures (multiline, outcome) == BatchStep(old(multiline), m)
    {
      var name, kind := m.command.name, m.command.kind;
      if name != "" && name[0] == '-' {
        var reference := name[1..];
        if reference in multiline {
          var b := multiline[reference];
          multiline := multiline - {reference};
          var body := JoinBatch(b.lines);
          return Flushed(reference, b, body);
        }
        return Nothing;
      }
      if kind.None? || name == "" || name[0] != '+' {
        return Nothing;
      }
      if kind.value.Custom? && Lower(kind.value.name) == Lower("DRAFT/MULTILINE") {
        multiline := multiline[name[1..] := NewBatch(m)];
        return Opened(name[1..]);
      }
      return Nothing;
    }
  }

  /** The join loop of `handle_batch`. */
  method JoinBatch(lines: seq<Line>) returns (body: string)
    ensures body == BodyOf(lines)
  {
    body := "";
    var i := 0;
    while i < |lines|
      invariant i <= |lines|
      invariant i == 0 ==> body == ""
      invariant i > 0 ==> BodyOf(lines) == body + Glued(lines[i..])
    {
      ghost var rest := lines[i..];
      assert rest[1..] == lines[i + 1..];
      if i > 0 && !lines[i].concat {
        body := body + "\n";
      }
      assert i > 0 ==> Glued(rest) == (if lines[i].concat then "" else "\n") + lines[i].text + Glued(rest[1..]);
      body := body + lines[i].text;
      i := i + 1;
    }
    assert lines[i..] == [];
  }
}
