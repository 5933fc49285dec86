/** Multiline batches over whole runs, however many are interleaved. */
module MultilineLaw {
  import opened Strings
  import opened Multiline

  /** The open batches after a run of messages on a fresh connection. */
  function After(run: seq<Message>): Open {
    if run == [] then map[] else Step(After(run[..|run| - 1]), run[|run| - 1]).0
  }

  /** What became of the message at position `i`. */
  function FateAt(run: seq<Message>, i: nat): Outcome
    requires i < |run|
  {
    Step(After(run[..i]), run[i]).1
  }

  // ---------- what one reference should see ----------

  /** A message that carries a line for the batch `r`. */
  predicate LineFor(m: Message, r: string) {
    IsTalk(m) && RefOf(m) == Some(r)
  }

  /** A message that begins or ends the batch `r`. */
  predicate Bounds(m: Message, r: string) {
    Closes(m) == Some(r) || Opens(m) == Some(r)
  }

  /** An opening and the messages tagged with its reference since. */
  datatype Episode = Episode(opening: Message, lines: seq<Message>)

  /** The latest `+r` with everything tagged `r` after it, if no `-r` came since. Only messages
      about `r` matter. */
  function SinceOpen(run: seq<Message>, r: string): Option<Episode> {
    if run == [] then None
    else
      var before, m := SinceOpen(run[..|run| - 1], r), run[|run| - 1];
      if Opens(m) == Some(r) then Some(Episode(m, []))
      else if Closes(m) == Some(r) then None
      else if before.Some? && LineFor(m, r) then Some(before.value.(lines := before.value.lines + [m]))
      else before
  }

  predicate IsEpisode(e: Episode) {
    e.opening.command.Batch? && forall i | 0 <= i < |e.lines| :: IsTalk(e.lines[i])
  }

  /** The batch an episode amounts to: target and reply from the opening or else from the first
      line, notice from the first line, and one line a message. */
  function Gathered(e: Episode): Batched
    requires IsEpisode(e)
  {
    var b := NewBatch(e.opening);
    if e.lines == [] then b
    else
      var first := e.lines[0];
      Batched(
        if b.target == "" then first.command.target else b.target,
        first.command.Notice?,
        seq(|e.lines|, i requires 0 <= i < |e.lines| => LineOf(e.lines[i])),
        if b.reply.None? then TagValue(first.tags, "+draft/reply") else b.reply)
  }

  /** One more line. */
  lemma GatheredGrows(e: Episode, m: Message)
    requires IsEpisode(e) && IsTalk(m)
    ensures IsEpisode(e.(lines := e.lines + [m]))
    ensures Gathered(e.(lines := e.lines + [m])) == Accumulate(Gathered(e), m)
  {
    var e' := e.(lines := e.lines + [m]);
    assert e'.lines[0] == if e.lines == [] then m else e.lines[0];
    assert Gathered(e').lines == Gathered(e).lines + [LineOf(m)];
  }

  lemma TalkIsNoBound(m: Message)
    requires IsTalk(m)
    ensures Closes(m).None? && Opens(m).None?
  {
  }

  /** Demultiplexing is right at every moment of every run: a batch is open exactly when its
      reference was opened and not closed since, and it then holds exactly the lines tagged with
      the reference since the latest opening, in order of arrival. */
  lemma {:induction false} Demultiplexes(run: seq<Message>, r: string)
    ensures r in After(run) <==> SinceOpen(run, r).Some?
    ensures SinceOpen(run, r).Some? ==>
      IsEpisode(SinceOpen(run, r).value) && After(run)[r] == Gathered(SinceOpen(run, r).value)
  {
    hide RefOf, Closes, Opens, Accumulate, Gathered, NewBatch, BodyOf;
    if run != [] {
      var before, m := run[..|run| - 1], run[|run| - 1];
      Demultiplexes(before, r);
      if IsTalk(m) {
        TalkIsNoBound(m);
        if SinceOpen(before, r).Some? {
          GatheredGrows(SinceOpen(before, r).value, m);
        }
      } else if m.command.Batch? {
        FreshEpisode(m);
        OneBound(m);
      } else {
        NoBound(m);
      }
    }
  }

  lemma FreshEpisode(m: Message)
    requires m.command.Batch?
    ensures IsEpisode(Episode(m, [])) && Gathered(Episode(m, [])) == NewBatch(m)
  {
  }

  lemma OneBound(m: Message)
    ensures Closes(m).None? || Opens(m).None?
  {
  }

  lemma NoBound(m: Message)
    requires !m.command.Batch?
    ensures Closes(m).None? && Opens(m).None?
  {
  }

  /** Closing a batch delivers it: the flushed body joins exactly the lines tagged with its
      reference since the latest opening. Closing what is not open does nothing. */
  lemma FlushIsExact(run: seq<Message>, m: Message, r: string)
    requires Closes(m) == Some(r)
    ensures var e := SinceOpen(run, r);
      && (e.Some? ==> IsEpisode(e.value))
      && (e.Some? ==> Step(After(run), m).1 == Flushed(r, Gathered(e.value), BodyOf(Gathered(e.value).lines)))
      && (e.None? ==> Step(After(run), m).1 == Nothing)
      && SinceOpen(run + [m], r).None?
  {
    hide RefOf, Gathered, BodyOf, SinceOpen;
    Demultiplexes(run, r);
    SinceClose(run, m, r);
  }

  // ---------- the body of a batch ----------

  /** The first line stands alone; a line tagged as glued is appended as it is, and any other on a line of
      its own. */
  lemma {:induction false} BodyGrows(lines: seq<Line>, l: Line)
    ensures BodyOf([l]) == l.text
    ensures lines != [] ==> BodyOf(lines + [l]) == BodyOf(lines) + (if l.concat then l.text else "\n" + l.text)
  {
    assert [l][1..] == [] && l.text + "" == l.text;
    if lines != [] {
      assert (lines + [l])[1..] == lines[1..] + [l];
      GluedGrows(lines[1..], l);
    }
  }

  lemma {:induction false} GluedGrows(lines: seq<Line>, l: Line)
    ensures Glued(lines + [l]) == Glued(lines) + (if l.concat then l.text else "\n" + l.text)
  {
    if lines == [] {
      assert [] + [l] == [l] && [l][1..] == [];
      assert "" + l.text == l.text && l.text + "" == l.text;
    } else {
      assert (lines + [l])[1..] == lines[1..] + [l];
      GluedGrows(lines[1..], l);
    }
  }

  /** The lines cut in front of each one that is not glued, each group put together. */
  function Groups(lines: seq<Line>): (r: seq<string>)
    requires lines != []
    ensures r != []
  {
    if |lines| == 1 then [lines[0].text]
    else
      var rest := Groups(lines[1..]);
      if lines[1].concat then [lines[0].text + rest[0]] + rest[1..] else [lines[0].text] + rest
  }

  /** A body is its groups, a line each. */
  lemma {:induction false} BodyIsGroups(lines: seq<Line>)
    requires lines != []
    ensures BodyOf(lines) == Join(Groups(lines), '\n')
  {
    var first, rest := lines[0].text, lines[1..];
    if rest != [] {
      BodyIsGroups(rest);
      var groups := Groups(rest);
      assert Glued(rest) == (if rest[0].concat then "" else "\n") + BodyOf(rest);
      if rest[0].concat {
        JoinHead(first, groups);
        assert "" + BodyOf(rest) == BodyOf(rest);
      } else {
        assert ([first] + groups)[1..] == groups;
        assert first + ['\n'] + Join(groups, '\n') == first + ("\n" + Join(groups, '\n'));
      }
    } else {
      assert first + "" == first;
    }
  }

  lemma JoinHead(a: string, parts: seq<string>)
    requires parts != []
    ensures Join([a + parts[0]] + parts[1..], '\n') == a + Join(parts, '\n')
  {
    var all := [a + parts[0]] + parts[1..];
    assert all[1..] == parts[1..];
    if |parts| > 1 {
      assert (a + parts[0]) + ['\n'] + Join(parts[1..], '\n') == a + (parts[0] + ['\n'] + Join(parts[1..], '\n'));
    }
  }

  /** Over any run, the body flushed at a close is the lines tagged with the reference since the latest
      opening, grouped at the glued ones and a line each. */
  lemma FlushJoinsGroups(run: seq<Message>, m: Message, r: string)
    requires Closes(m) == Some(r) && SinceOpen(run, r).Some? && SinceOpen(run, r).value.lines != []
    ensures var e := SinceOpen(run, r).value;
      && IsEpisode(e)
      && Step(After(run), m).1.Flushed?
      && Step(After(run), m).1.body == Join(Groups(Gathered(e).lines), '\n')
  {
    hide BodyOf, SinceOpen, After, Step, Groups;
    FlushIsExact(run, m, r);
    BodyIsGroups(Gathered(SinceOpen(run, r).value).lines);
  }

  /** A BATCH command closes what its name says behind a `-`, whatever else it says, and opens what its name
      says behind a `+`, if its kind is multiline in upper or lower case. */
  lemma OpensAndCloses(tags: seq<Tag>, r: string, kind: string, args: Option<seq<string>>, other: Option<BatchKind>)
    ensures Closes(Message(tags, Batch("-" + r, other, args))) == Some(r)
    ensures Opens(Message(tags, Batch("-" + r, other, args))) == None
    ensures Closes(Message(tags, Batch("+" + r, other, args))) == None
    ensures Opens(Message(tags, Batch("+" + r, Some(Custom(kind)), args)))
      == if Lower(kind) == "draft/multiline" then Some(r) else None
    ensures other in {None, Some(Netsplit), Some(Netjoin)} ==> Opens(Message(tags, Batch("+" + r, other, args))) == None
  {
    hide Lower;
    assert ("-" + r)[1..] == r && ("+" + r)[1..] == r;
    LowerName();
  }

  lemma LowerName()
    ensures Lower("DRAFT/MULTILINE") == "draft/multiline"
  {
    assert |"DRAFT/MULTILINE"| == |"draft/multiline"|;
  }

  /** A batch of two lines, from any state: the tags and commands as a client sends them. */
  function OpenBatch(r: string, target: string): Message {
    Message([], Batch("+" + r, Some(Custom("draft/multiline")), Some([target])))
  }

  function TaggedLine(r: string, legacy: bool, glue: bool, target: string, text: string): Message {
    Message(
      [Tag(if legacy then "draft/multiline" else "batch", Some(r))]
      + (if glue then [Tag("draft/multiline-concat", None)] else []),
      Privmsg(target, text))
  }

  lemma TagNames()
    ensures "batch" != "draft/multiline" && "batch" != "draft/multiline-concat" && "batch" != "+draft/reply"
    ensures "draft/multiline" != "draft/multiline-concat" && "draft/multiline" != "+draft/reply"
    ensures "draft/multiline-concat" != "+draft/reply"
  {
    assert |"batch"| == 5 && |"draft/multiline"| == 15 && |"draft/multiline-concat"| == 22;
    assert |"+draft/reply"| == 12;
  }

  /** The value of a tag in front, and of one that is not there. */
  lemma OneTag(key: string, value: Option<string>, other: string, glue: bool, last: string)
    requires other != key && other != last
    ensures var tags := [Tag(key, value)] + (if glue then [Tag(last, None)] else []);
      TagValue(tags, key) == value && TagValue(tags, other) == None
  {
    var end := if glue then [Tag(last, None)] else [];
    var tags := [Tag(key, value)] + end;
    assert TagValue([], other) == None;
    if glue {
      assert end == [Tag(last, None)] && end[1..] == [];
      assert TagValue(end, other) == TagValue(end[1..], other);
    }
    assert tags[1..] == end && tags[0] == Tag(key, value);
    assert TagValue(tags, other) == TagValue(end, other);
  }

  lemma TaggedLineReads(r: string, legacy: bool, glue: bool, target: string, text: string)
    ensures var m := TaggedLine(r, legacy, glue, target, text);
      RefOf(m) == Some(r) && LineOf(m) == Line(text, glue) && TagValue(m.tags, "+draft/reply") == None
  {
    hide TagValue;
    TagNames();
    var key, last := if legacy then "draft/multiline" else "batch", "draft/multiline-concat";
    OneTag(key, Some(r), "+draft/reply", glue, last);
    OneTag(key, Some(r), if legacy then "batch" else "draft/multiline", glue, last);
    var tags := TaggedLine(r, legacy, glue, target, text).tags;
    assert tags == [Tag(key, Some(r))] + (if glue then [Tag(last, None)] else []);
    assert tags[0].key == key && (glue ==> tags[1].key == last) && |tags| == if glue then 2 else 1;
    assert HasTag(tags, last) == glue;
  }

  /** Opened, filled with two lines and closed: the body is both texts, on two lines unless the second is
      glued, and the batch is gone. */
  lemma TwoLineBatch(open: Open, r: string, legacy: bool, glue: bool, target: string, a: string, b: string)
    ensures var one := Step(open, OpenBatch(r, target)).0;
      var two := Step(one, TaggedLine(r, legacy, false, target, a)).0;
      var three := Step(two, TaggedLine(r, legacy, glue, target, b)).0;
      Step(three, Message([], Batch("-" + r, None, None)))
        == (open - {r}, Flushed(r, Batched(target, false, [Line(a, false), Line(b, glue)], None),
              if glue then a + b else a + "\n" + b))
  {
    hide RefOf, LineOf, TagValue, BodyOf, Opens;
    var first := Batched(target, false, [], None);
    var second := first.(lines := [Line(a, false)]);
    var third := first.(lines := [Line(a, false), Line(b, glue)]);
    OpenBatchReads(r, target);
    TaggedLineReads(r, legacy, false, target, a);
    TaggedLineReads(r, legacy, glue, target, b);
    assert Step(open, OpenBatch(r, target)).0 == open[r := first];
    LineJoins(open[r := first], r, TaggedLine(r, legacy, false, target, a), second);
    assert open[r := first][r := second] == open[r := second];
    LineJoins(open[r := second], r, TaggedLine(r, legacy, glue, target, b), third);
    assert open[r := second][r := third] == open[r := third];
    var close := Message([], Batch("-" + r, None, None));
    NoTags();
    assert Closes(close) == Some(r) by { assert ("-" + r)[1..] == r; }
    assert open[r := third] - {r} == open - {r};
    TwoLines(a, b, glue);
  }

  lemma TwoLines(a: string, b: string, glue: bool)
    ensures BodyOf([Line(a, false), Line(b, glue)]) == if glue then a + b else a + "\n" + b
  {
    hide BodyOf;
    assert [Line(a, false)] + [Line(b, glue)] == [Line(a, false), Line(b, glue)];
    BodyGrows([Line(a, false)], Line(b, glue));
    BodyGrows([], Line(a, false));
    assert a + ("\n" + b) == a + "\n" + b;
  }

  lemma LineJoins(open: Open, r: string, m: Message, after: Batched)
    requires r in open && !open[r].notice && m.command.Privmsg? && m.command.target == open[r].target
    requires RefOf(m) == Some(r)
    requires TagValue(m.tags, "+draft/reply") == None && open[r].reply == None
    requires after == open[r].(lines := open[r].lines + [LineOf(m)])
    ensures Step(open, m).0 == open[r := after]
  {
    hide RefOf, LineOf, TagValue;
  }

  lemma NoTags()
    ensures RefOf(Message([], Batch("", None, None))) == None && TagValue([], "+draft/reply") == None
    ensures forall c: Command :: RefOf(Message([], c)) == None
  {
  }

  lemma OpenBatchReads(r: string, target: string)
    ensures var m := OpenBatch(r, target);
      RefOf(m) == None && Closes(m) == None && Opens(m) == Some(r) && NewBatch(m) == Batched(target, false, [], None)
  {
    assert ("+" + r)[1..] == r;
    assert |"draft/multiline"| == |"DRAFT/MULTILINE"|;
    assert Lower("draft/multiline") == Lower("DRAFT/MULTILINE");
  }

  lemma SinceClose(run: seq<Message>, m: Message, r: string)
    requires Closes(m) == Some(r)
    ensures SinceOpen(run + [m], r).None?
  {
    assert (run + [m])[..|run|] == run;
    OneBound(m);
  }

  /** Messages about other batches, and all other traffic, leave a batch alone. */
  lemma OthersDoNotMatter(run: seq<Message>, m: Message, r: string)
    requires !Bounds(m, r) && !LineFor(m, r)
    ensures SinceOpen(run + [m], r) == SinceOpen(run, r)
    ensures r in After(run + [m]) <==> r in After(run)
    ensures r in After(run) ==> After(run + [m])[r] == After(run)[r]
  {
    hide RefOf, Closes, Opens, Gathered;
    assert (run + [m])[..|run|] == run;
    Demultiplexes(run, r);
    Demultiplexes(run + [m], r);
  }

  // ---------- every line is accounted for once ----------

  /** No message between the two positions begins or ends the batch. */
  predicate Quiet(run: seq<Message>, r: string, i: nat, k: nat)
    requires k <= |run|
  {
    forall j | i <= j < k :: !Bounds(run[j], r)
  }

  /** A line that is absorbed takes the next place in its batch and keeps it for as long as nothing
      begins or ends that batch. */
  lemma {:induction false} LineStays(run: seq<Message>, i: nat, k: nat, r: string)
    requires i < k <= |run| && LineFor(run[i], r) && r in After(run[..i]) && Quiet(run, r, i, k)
    ensures r in After(run[..k])
    ensures var pos := |After(run[..i])[r].lines|;
      pos < |After(run[..k])[r].lines| && After(run[..k])[r].lines[pos] == LineOf(run[i])
    decreases k
  {
    hide After, Step, LineFor, LineOf, Bounds;
    AfterTurn(run, k);
    if i < k - 1 {
      LineStays(run, i, k - 1, r);
      StepKeepsLines(After(run[..k - 1]), run[k - 1], r);
    } else {
      StepAddsLine(After(run[..i]), run[i], r);
    }
  }

  lemma AfterTurn(run: seq<Message>, k: nat)
    requires 0 < k <= |run|
    ensures After(run[..k]) == Step(After(run[..k - 1]), run[k - 1]).0
  {
    hide Step;
    assert run[..k][..k - 1] == run[..k - 1] && run[..k][k - 1] == run[k - 1];
  }

  lemma StepAddsLine(open: Open, m: Message, r: string)
    requires r in open && LineFor(m, r)
    ensures var next := Step(open, m).0;
      r in next && next[r].lines == open[r].lines + [LineOf(m)]
  {
    hide RefOf, BodyOf, NewBatch;
  }

  /** One step away from the batch's ends only adds lines to it. */
  lemma StepKeepsLines(open: Open, m: Message, r: string)
    requires r in open && !Bounds(m, r)
    ensures r in Step(open, m).0 && open[r].lines <= Step(open, m).0[r].lines
  {
    hide RefOf, BodyOf, NewBatch;
    if IsTalk(m) {
      TalkIsNoBound(m);
    }
  }

  /** What can become of a PRIVMSG or NOTICE, at the end of a run. */
  datatype Account =
    | Direct                      // dispatched on its own
    | Waiting(r: string)          // held in an open batch
    | Delivered(r: string, at: nat) // flushed with the batch closed by message `at`
    | Discarded(r: string, at: nat) // dropped with the batch that message `at` opened again

  /** The first message from `k` on that begins or ends the batch, or the length of the run. */
  function NextBound(run: seq<Message>, r: string, k: nat): (j: nat)
    requires k <= |run|
    ensures k <= j <= |run| && Quiet(run, r, k, j) && (j < |run| ==> Bounds(run[j], r))
    decreases |run| - k
  {
    if k == |run| || Bounds(run[k], r) then k else NextBound(run, r, k + 1)
  }

  function AccountOf(run: seq<Message>, i: nat): Account
    requires i < |run| && IsTalk(run[i])
  {
    match FateAt(run, i)
    case Absorbed(r) =>
      var j := NextBound(run, r, i + 1);
      if j == |run| then Waiting(r) else if Closes(run[j]) == Some(r) then Delivered(r, j) else Discarded(r, j)
    case _ => Direct
  }

  /** The batch of the message was flushed by message `at`, with the message's line in it. */
  predicate IsDelivered(run: seq<Message>, i: nat, r: string, at: nat)
    requires i < |run| && IsTalk(run[i])
  {
    && i < at < |run| && Closes(run[at]) == Some(r)
    && HoldsAt(After(run[..at]), r, PlaceOf(run, i, r), LineOf(run[i]))
    && FateAt(run, at) == Flushed(r, After(run[..at])[r], BodyOf(After(run[..at])[r].lines))
  }

  /** The batch of the message still held its line when message `at` opened it afresh. */
  predicate IsDiscarded(run: seq<Message>, i: nat, r: string, at: nat)
    requires i < |run| && IsTalk(run[i])
  {
    && i < at < |run| && Opens(run[at]) == Some(r)
    && HoldsAt(After(run[..at]), r, PlaceOf(run, i, r), LineOf(run[i]))
    && FateAt(run, at) == Opened(r)
  }

  /** How many lines the batch held when message `i` arrived. */
  function PlaceOf(run: seq<Message>, i: nat, r: string): nat
    requires i < |run|
  {
    if r in After(run[..i]) then |After(run[..i])[r].lines| else 0
  }

  /** Every PRIVMSG and NOTICE of a run has exactly one account, and the account is kept: dispatched
      when and only when its tag names no open batch; otherwise at its place in the open batch, in
      the body that is flushed, or in the batch that an opening with the same reference throws away. */
  lemma EveryLineAccounted(run: seq<Message>, i: nat)
    requires i < |run| && IsTalk(run[i])
    ensures var a := AccountOf(run, i);
      var open := After(run[..i]);
      && (a.Direct? <==> FateAt(run, i) == Dispatched)
      && (a.Direct? <==> !(RefOf(run[i]).Some? && RefOf(run[i]).value in open))
      && (!a.Direct? ==> RefOf(run[i]) == Some(a.r) && a.r in open)
      && (a.Waiting? ==> HoldsAt(After(run), a.r, PlaceOf(run, i, a.r), LineOf(run[i])))
      && (a.Delivered? ==> IsDelivered(run, i, a.r, a.at))
      && (a.Discarded? ==> IsDiscarded(run, i, a.r, a.at))
  {
    hide RefOf, Closes, Opens, BodyOf, Accumulate, After;
    var m := run[i];
    TalkIsNoBound(m);
    if FateAt(run, i).Absorbed? {
      var r := FateAt(run, i).reference;
      var j := NextBound(run, r, i + 1);
      assert Quiet(run, r, i, j);
      LineStays(run, i, j, r);
      assert run[..|run|] == run;
      if j < |run| {
        BoundIsBatch(run[j], r);
      }
    }
  }

  /** The batch holds that line at that place. */
  predicate HoldsAt(open: Open, r: string, pos: nat, line: Line) {
    r in open && pos < |open[r].lines| && open[r].lines[pos] == line
  }

  lemma BoundIsBatch(m: Message, r: string)
    requires Bounds(m, r)
    ensures m.command.Batch? && !IsTalk(m) && (Closes(m).None? || Opens(m).None?)
  {
  }
}
