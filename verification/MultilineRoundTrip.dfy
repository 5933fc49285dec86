/** The outgoing side, `body_to_irc` (`src/bridge/mod.rs`), and its meeting with the intake. */
module MultilineRoundTrip {
  import opened Strings
  import opened Multiline
  import opened LineWrap
  import LineWrapLaw

  /** A message as it is written: BATCH goes out as a raw command with its parameters. */
  datatype OutCommand =
    | RawBatch(params: seq<string>)
    | Talk(command: Command)

  datatype OutMessage = OutMessage(tags: seq<Tag>, command: OutCommand)

  /** How the receiver's parser reads it: the first parameter of BATCH is the reference, the second
      the kind, and the rest are its arguments. */
  function ReadKind(s: string): BatchKind {
    if Lower(s) == Lower("NETSPLIT") then Netsplit
    else if Lower(s) == Lower("NETJOIN") then Netjoin
    else Custom(s)
  }

  function Read(m: OutMessage): Message {
    match m.command
    case Talk(c) => Message(m.tags, c)
    case RawBatch(params) =>
      if params == [] then Message(m.tags, Other)
      else
        Message(m.tags, Batch(params[0],
          if |params| > 1 then Some(ReadKind(params[1])) else None,
          if |params| > 2 then Some(params[2..]) else None))
  }

  /** The message-independent arguments of `body_to_irc`; the times and prefixes it stamps are
      opaque here. */
  datatype Sending = Sending(
    channel: string, msgid: string, time: string, notice: bool, emote: bool, reply: Option<string>)

  function MakeCommand(s: Sending, line: string): Command {
    if s.notice then Notice(s.channel, line)
    else if s.emote then Privmsg(s.channel, "\U{01}ACTION " + line + "\U{01}")
    else Privmsg(s.channel, line)
  }

  function ReplyTag(s: Sending): seq<Tag> {
    if s.reply.Some? then [Tag("+draft/reply", s.reply)] else []
  }

  function EventTags(s: Sending): seq<Tag> {
    [Tag("time", Some(s.time)), Tag("msgid", Some(s.msgid))] + ReplyTag(s)
  }

  function Reference(s: Sending): string {
    "m." + TrimStart(Only('$'), s.msgid)
  }

  function Opening(s: Sending): OutMessage {
    OutMessage(EventTags(s), RawBatch(["+" + Reference(s), "draft/multiline", s.channel]))
  }

  function BatchLine(s: Sending, line: string): OutMessage {
    OutMessage([Tag("batch", Some(Reference(s)))], Talk(MakeCommand(s, line)))
  }

  function Closing(s: Sending): OutMessage {
    OutMessage([], RawBatch(["-" + Reference(s)]))
  }

  function BatchLines(s: Sending, lines: seq<string>): seq<OutMessage> {
    seq(|lines|, i requires 0 <= i < |lines| => BatchLine(s, lines[i]))
  }

  /** Lines that are not blank, each as a message of its own. */
  function Singles(s: Sending, lines: seq<string>): seq<OutMessage> {
    if lines == [] then []
    else Single(s, lines[0]) + Singles(s, lines[1..])
  }

  /** What `body_to_irc` yields; `caps` is that the client has multiline, batch and message-tags. */
  function ToIrc(s: Sending, body: string, caps: bool): seq<OutMessage> {
    var lines := Wrapped(body);
    if |lines| > 1 && caps then [Opening(s)] + BatchLines(s, lines) + [Closing(s)]
    else Singles(s, lines)
  }

  /** A line as a message of its own, unless it is blank. */
  function Single(s: Sending, line: string): seq<OutMessage> {
    if Trim(line) != "" then [OutMessage(EventTags(s), Talk(MakeCommand(s, line)))] else []
  }

  /** The loops of `body_to_irc`. */
  method BodyToIrc(s: Sending, body: string, caps: bool) returns (out: seq<OutMessage>)
    ensures out == ToIrc(s, body, caps)
  {
    hide Opening, BatchLine, Closing, Single, Wrapped;
    var lines := WrapBody(body);
    var i := 0;
    if |lines| > 1 && caps {
      out := [Opening(s)];
      while i < |lines|
        invariant i <= |lines|
        invariant out == [Opening(s)] + BatchLines(s, lines[..i])
      {
        BatchLinesGrow(s, lines, i);
        Assoc([Opening(s)], BatchLines(s, lines[..i]), [BatchLine(s, lines[i])]);
        out := out + [BatchLine(s, lines[i])];
        i := i + 1;
      }
      assert lines[..i] == lines;
      out := out + [Closing(s)];
    } else {
      out := [];
      while i < |lines|
        invariant i <= |lines|
        invariant Singles(s, lines) == out + Singles(s, lines[i..])
      {
        Suffix(lines, i, 1);
        Assoc(out, Single(s, lines[i]), Singles(s, lines[i + 1..]));
        out := out + Single(s, lines[i]);
        i := i + 1;
      }
      assert lines[i..] == [];
      assert out + [] == out;
    }
  }

  lemma BatchLinesGrow(s: Sending, lines: seq<string>, i: nat)
    requires i < |lines|
    ensures BatchLines(s, lines[..i + 1]) == BatchLines(s, lines[..i]) + [BatchLine(s, lines[i])]
  {
    hide BatchLine;
  }

  // ---------- feeding it back ----------

  /** The open batches after some messages, from any state. */
  function Feed(open: Open, messages: seq<OutMessage>): Open {
    if messages == [] then open
    else Step(Feed(open, messages[..|messages| - 1]), Read(messages[|messages| - 1])).0
  }

  /** The lines of a batch, as the intake stores them. */
  function PlainLines(lines: seq<string>): seq<Line> {
    seq(|lines|, i requires 0 <= i < |lines| => Line(lines[i], false))
  }

  /** The lines as they are sent: an emote wraps each in a CTCP ACTION. */
  function Worded(s: Sending, lines: seq<string>): (r: seq<string>)
    ensures |r| == |lines|
  {
    seq(|lines|, i requires 0 <= i < |lines| => MakeCommand(s, lines[i]).body)
  }

  /** The batch while its lines come in. */
  function Partial(s: Sending, lines: seq<string>): Batched {
    Batched(s.channel, lines != [] && s.notice, PlainLines(Worded(s, lines)), s.reply)
  }

  lemma KindReads()
    ensures ReadKind("draft/multiline") == Custom("draft/multiline")
    ensures Lower("draft/multiline") == Lower("DRAFT/MULTILINE")
  {
    assert Lower("draft/multiline")[0] == 'd' && Lower("NETSPLIT")[0] == 'n' && Lower("NETJOIN")[0] == 'n';
    assert |"draft/multiline"| == |"DRAFT/MULTILINE"|;
  }

  lemma OpeningReads(s: Sending)
    ensures var m := Read(Opening(s));
      m.command.Batch? && Closes(m).None? && Opens(m) == Some(Reference(s)) && NewBatch(m) == Partial(s, [])
  {
    hide ReadKind, EventTags, TagValue, Reference;
    KindReads();
    ReplyRead(s);
    var params := ["+" + Reference(s), "draft/multiline", s.channel];
    assert ("+" + Reference(s))[1..] == Reference(s);
    assert params[2..] == [s.channel];
    assert Read(Opening(s)).command == Batch(params[0], Some(Custom("draft/multiline")), Some([s.channel]));
  }

  lemma ReplyRead(s: Sending)
    ensures TagValue(EventTags(s), "+draft/reply") == s.reply
  {
    var tags := EventTags(s);
    assert "time"[0] == 't' && "msgid"[0] == 'm' && "+draft/reply"[0] == '+';
    assert tags[1..][1..] == ReplyTag(s);
    var key := "+draft/reply";
    assert TagValue(tags, key) == TagValue(tags[1..], key) == TagValue(tags[1..][1..], key);
  }

  lemma ClosingReads(s: Sending)
    ensures var m := Read(Closing(s)); m.command.Batch? && Closes(m) == Some(Reference(s))
  {
    assert ("-" + Reference(s))[1..] == Reference(s);
  }

  lemma LineReads(s: Sending, line: string)
    ensures var m := Read(BatchLine(s, line));
      && IsTalk(m) && RefOf(m) == Some(Reference(s)) && LineOf(m) == Line(MakeCommand(s, line).body, false)
      && m.command.target == s.channel && m.command.Notice? == s.notice
      && TagValue(m.tags, "+draft/reply") == None
  {
    var m := Read(BatchLine(s, line));
    assert m.tags == [Tag("batch", Some(Reference(s)))];
    assert m.tags[1..] == [];
    assert "batch"[0] == 'b' && "+draft/reply"[0] == '+' && "draft/multiline-concat"[0] == 'd';
    assert !HasTag(m.tags, "draft/multiline-concat");
  }

  lemma LineAdds(s: Sending, lines: seq<string>, line: string)
    ensures Accumulate(Partial(s, lines), Read(BatchLine(s, line))) == Partial(s, lines + [line])
  {
    LineReads(s, line);
    var worded := MakeCommand(s, line).body;
    assert Worded(s, lines + [line]) == Worded(s, lines) + [worded];
    assert PlainLines(Worded(s, lines) + [worded]) == PlainLines(Worded(s, lines)) + [Line(worded, false)];
  }

  lemma {:induction false} LinesAccumulate(s: Sending, open: Open, lines: seq<string>)
    ensures Feed(open, [Opening(s)] + BatchLines(s, lines)) == open[Reference(s) := Partial(s, lines)]
    decreases |lines|
  {
    hide RefOf, Closes, Opens, NewBatch, Accumulate, Read, Partial, Reference;
    var fed := [Opening(s)] + BatchLines(s, lines);
    if lines == [] {
      OpeningReads(s);
      assert fed == [Opening(s)];
      assert fed[..0] == [];
      assert Feed(open, []) == open;
    } else {
      var k := |lines| - 1;
      LinesAccumulate(s, open, lines[..k]);
      assert fed[..|fed| - 1] == [Opening(s)] + BatchLines(s, lines[..k]);
      assert fed[|fed| - 1] == BatchLine(s, lines[k]);
      LineReads(s, lines[k]);
      LineAdds(s, lines[..k], lines[k]);
      assert lines[..k] + [lines[k]] == lines;
    }
  }

  lemma GluedCons(text: string, rest: seq<Line>)
    ensures Glued([Line(text, false)] + rest) == "\n" + (text + Glued(rest))
    ensures BodyOf([Line(text, false)] + rest) == text + Glued(rest)
  {
    var l := [Line(text, false)] + rest;
    assert l[1..] == rest;
    Assoc("\n", text, Glued(rest));
  }

  lemma {:induction false} GluedPlain(lines: seq<string>)
    requires lines != []
    ensures Glued(PlainLines(lines)) == "\n" + Join(lines, '\n')
    ensures BodyOf(PlainLines(lines)) == Join(lines, '\n')
  {
    hide Glued, BodyOf;
    var rest := PlainLines(lines[1..]);
    assert PlainLines(lines) == [Line(lines[0], false)] + rest;
    GluedCons(lines[0], rest);
    if |lines| > 1 {
      GluedPlain(lines[1..]);
      Assoc(lines[0], "\n", Join(lines[1..], '\n'));
    } else {
      assert rest == [] && Glued([]) == "" by { NothingGlued(); }
      assert lines[0] + "" == lines[0];
    }
  }

  lemma NothingGlued()
    ensures Glued([]) == ""
  {
  }

  /** The batch of a whole body. */
  function Delivery(s: Sending, body: string): Batched {
    Batched(s.channel, s.notice, PlainLines(Worded(s, Wrapped(body))), s.reply)
  }

  /** What the intake delivers for the batch `body_to_irc` builds, from any state: the same target,
      kind and reply, and the wrapped lines joined, each an ACTION of its own if it was an emote; no batch
      of that reference stays open and no other batch is touched. */
  lemma BatchDelivers(s: Sending, body: string, open: Open)
    requires |Wrapped(body)| > 1
    ensures var out := ToIrc(s, body, true);
      var before := Feed(open, out[..|out| - 1]);
      && Step(before, Read(out[|out| - 1])).1
           == Flushed(Reference(s), Delivery(s, body), Join(Worded(s, Wrapped(body)), '\n'))
      && Feed(open, out) == open - {Reference(s)}
  {
    hide Wrapped, RefOf, Closes, Opens, Read, Reference, Opening, BatchLines, Closing, Accumulate;
    var lines := Wrapped(body);
    var out := ToIrc(s, body, true);
    var fed := [Opening(s)] + BatchLines(s, lines);
    assert out == fed + [Closing(s)];
    assert out[..|out| - 1] == fed;
    LinesAccumulate(s, open, lines);
    ClosingReads(s);
    GluedPlain(Worded(s, lines));
    var before := open[Reference(s) := Partial(s, lines)];
    assert before - {Reference(s)} == open - {Reference(s)};
  }

  /** Sending and receiving undo each other: the body delivered is the body sent, blank lines
      included, exactly when each of its lines has at most 400 characters and does not end in a
      carriage return. */
  lemma BodyComesBackIff(s: Sending, body: string, open: Open)
    requires s.notice || !s.emote
    requires |Wrapped(body)| > 1
    ensures var out := ToIrc(s, body, true);
      Step(Feed(open, out[..|out| - 1]), Read(out[|out| - 1])).1
          == Flushed(Reference(s), Delivery(s, body), body)
      <==> forall i | 0 <= i < |Split(body, '\n')| :: LineWrapLaw.Verbatim(Split(body, '\n')[i])
  {
    hide Wrapped, Feed, Step, Read, ToIrc, Reference;
    BatchDelivers(s, body, open);
    assert Worded(s, Wrapped(body)) == Wrapped(body);
    LineWrapLaw.JoinWrappedIff(body);
  }

  /** The lines of an emote: ACTION, the line, and the closing mark. */
  lemma EmoteLines(s: Sending, lines: seq<string>, i: nat)
    requires i < |lines|
    ensures Worded(s, lines)[i] == if !s.notice && s.emote then "\U{01}ACTION " + lines[i] + "\U{01}" else lines[i]
  {
  }

  // ---------- what goes out ----------

  lemma TrimmedBlank(s: string)
    ensures Trim(s) == "" <==> AllMatch(White, s)
  {
    var t := TrimStart(White, s);
    TrimStartCuts(White, s);
    TrimEndCuts(White, t);
    if t == "" {
      assert s[..|s| - |t|] == s;
    } else {
      assert s[|s| - |t|] == t[0];
    }
  }

  /** The tags every message carries: its time, its id, and what it replies to. */
  lemma TagsAre(s: Sending)
    ensures s.reply.None? ==> EventTags(s) == [Tag("time", Some(s.time)), Tag("msgid", Some(s.msgid))]
    ensures s.reply.Some? ==>
      EventTags(s) == [Tag("time", Some(s.time)), Tag("msgid", Some(s.msgid)), Tag("+draft/reply", s.reply)]
  {
  }

  lemma OneLine(body: string)
    requires |body| <= 400 && Free(Only('\n'), body) && (body != "" ==> body[|body| - 1] != '\r')
    ensures Wrapped(body) == [body]
  {
    hide WrapLine, Chomp, Split;
    SplitOne(body, '\n');
    LineWrapLaw.VerbatimStays(body);
    assert [body][1..] == [] && WrapLines([]) == [] && [body] + [] == [body];
  }

  /** A body of one line, with or without multiline: nothing if it is blank, and otherwise one message with
      the tags of the event, a NOTICE, an ACTION or a PRIVMSG. */
  lemma OneLineMessage(s: Sending, body: string, caps: bool)
    requires |body| <= 400 && Free(Only('\n'), body) && (body != "" ==> body[|body| - 1] != '\r')
    ensures AllMatch(White, body) ==> ToIrc(s, body, caps) == []
    ensures !AllMatch(White, body) ==>
      ToIrc(s, body, caps) == [OutMessage(EventTags(s), Talk(
        if s.notice then Notice(s.channel, body)
        else if s.emote then Privmsg(s.channel, "\U{01}ACTION " + body + "\U{01}")
        else Privmsg(s.channel, body)))]
  {
    hide Wrapped, Trim, AllMatch, EventTags;
    OneLine(body);
    TrimmedBlank(body);
    assert [body][1..] == [] && Singles(s, []) == [];
  }

  /** The lines that are not blank. */
  function NonBlank(lines: seq<string>): seq<string> {
    if lines == [] then []
    else (if AllMatch(White, lines[0]) then [] else [lines[0]]) + NonBlank(lines[1..])
  }

  /** Without multiline, each line that is not blank goes out on its own, in order, with the tags of the
      event on every one. */
  lemma {:induction false} SinglesAre(s: Sending, lines: seq<string>)
    ensures |Singles(s, lines)| == |NonBlank(lines)|
    ensures forall i | 0 <= i < |NonBlank(lines)| ::
      Singles(s, lines)[i] == OutMessage(EventTags(s), Talk(MakeCommand(s, NonBlank(lines)[i])))
  {
    hide Trim, AllMatch, EventTags, MakeCommand;
    if lines != [] {
      TrimmedBlank(lines[0]);
      SinglesAre(s, lines[1..]);
    }
  }

  lemma WithoutMultiline(s: Sending, body: string)
    ensures var out, lines := ToIrc(s, body, false), NonBlank(Wrapped(body));
      && |out| == |lines|
      && forall i | 0 <= i < |lines| :: out[i] == OutMessage(EventTags(s), Talk(MakeCommand(s, lines[i])))
  {
    hide Wrapped, Singles, NonBlank, EventTags, MakeCommand;
    SinglesAre(s, Wrapped(body));
  }

  /** With multiline, more than one line goes out between an opening that carries the tags of the event and a
      closing; the reference is the event's id without its sigil, and every line, blank or not, names it. */
  lemma BatchShape(s: Sending, body: string, id: string)
    requires |Wrapped(body)| > 1 && s.msgid == "$" + id && (id != "" ==> id[0] != '$')
    ensures var out, lines := ToIrc(s, body, true), Wrapped(body);
      && |out| == |lines| + 2
      && out[0] == OutMessage(EventTags(s), RawBatch(["+" + ("m." + id), "draft/multiline", s.channel]))
      && (forall i | 0 <= i < |lines| ::
            out[i + 1] == OutMessage([Tag("batch", Some("m." + id))], Talk(MakeCommand(s, lines[i]))))
      && out[|out| - 1] == OutMessage([], RawBatch(["-" + ("m." + id)]))
  {
    hide Wrapped, EventTags, MakeCommand, TrimStart;
    IdOf(id);
  }

  lemma IdOf(id: string)
    requires id != "" ==> id[0] != '$'
    ensures TrimStart(Only('$'), "$" + id) == id
  {
    assert ("$" + id)[1..] == id;
    TrimStartIdle(Only('$'), id);
  }
}
