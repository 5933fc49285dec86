/** What the room map keeps over any run of operations. */
module RoomsLaw {
  import opened Strings
  import opened Rooms
  import Decimal

  // ---------- sanitized names ----------

  predicate AllNameChars(s: string) {
    forall i | 0 <= i < |s| :: NameChar(s[i])
  }

  lemma {:induction false} CollapseNames(s: string, last: bool)
    ensures AllNameChars(Collapse(s, last))
  {
    if s != "" {
      CollapseNames(s[1..], !NameChar(LowerChar(s[0])));
      CollapseNames(s[1..], true);
      CollapseNames(s[1..], false);
    }
  }

  lemma {:induction false} CollapseIdle(s: string, last: bool)
    requires AllNameChars(s)
    ensures Collapse(s, last) == s
  {
    if s != "" {
      assert NameChar(s[0]) && LowerChar(s[0]) == s[0];
      CollapseIdle(s[1..], false);
    }
  }

  lemma {:induction false} CollapseShorter(s: string, last: bool)
    ensures |Collapse(s, last)| <= |s|
  {
    if s != "" {
      CollapseShorter(s[1..], true);
      CollapseShorter(s[1..], false);
    }
  }

  /** A run of letters, digits, dots, underscores and dashes comes out in lower case, and each run of anything
      else as one underscore. */
  lemma {:induction false} CollapseRuns(a: string, j: string, b: string)
    requires forall i | 0 <= i < |a| :: NameChar(LowerChar(a[i]))
    requires forall i | 0 <= i < |j| :: !NameChar(LowerChar(j[i]))
    requires j != "" && (b != "" ==> NameChar(LowerChar(b[0])))
    ensures Collapse(a, false) == Lower(a)
    ensures Collapse(a + (j + b), false) == Lower(a) + ("_" + Collapse(b, false))
  {
    hide NameChar;
    if a == "" {
      assert a + (j + b) == j + b && Lower("") == "";
      assert (j + b)[1..] == j[1..] + b && (j + b)[0] == j[0];
      CollapseJunk(j[1..], b);
    } else {
      assert (a + (j + b))[1..] == a[1..] + (j + b) && (a + (j + b))[0] == a[0];
      CollapseRuns(a[1..], j, b);
      assert a == [a[0]] + a[1..];
      LowerConcat([a[0]], a[1..]);
      assert Lower([a[0]]) == [LowerChar(a[0])];
      Assoc([LowerChar(a[0])], Lower(a[1..]), "_" + Collapse(b, false));
    }
  }

  lemma {:induction false} CollapseJunk(j: string, b: string)
    requires forall i | 0 <= i < |j| :: !NameChar(LowerChar(j[i]))
    requires b != "" ==> NameChar(LowerChar(b[0]))
    ensures Collapse(j + b, true) == Collapse(b, false)
  {
    hide NameChar;
    if j == "" {
      assert j + b == b;
    } else {
      assert (j + b)[1..] == j[1..] + b && (j + b)[0] == j[0];
      CollapseJunk(j[1..], b);
    }
  }

  /** A name with nothing to keep is `room`. */
  lemma NothingKept(raw: string)
    requires forall i | 0 <= i < |raw| :: !NameChar(LowerChar(raw[i]))
    ensures Sanitize(raw) == "room"
  {
    hide NameChar;
    if raw != "" {
      CollapseRuns("", raw, "");
      assert "" + (raw + "") == raw && Lower("") + ("_" + Collapse("", false)) == "_";
      assert "_"[1..] == "" && TrimStart(Edge, "_") == "";
    }
  }

  predicate IsBase(s: string) {
    1 <= |s| <= 32 && AllNameChars(s)
  }

  predicate CleanEdges(s: string) {
    s != "" && !Matches(Edge, s[0]) && !Matches(Edge, s[|s| - 1])
  }

  lemma TrimEdgesIs(s: string)
    ensures |TrimEdges(s)| <= |s|
    ensures AllNameChars(s) ==> AllNameChars(TrimEdges(s))
    ensures TrimEdges(s) != "" ==> CleanEdges(TrimEdges(s))
  {
    var t := TrimStart(Edge, s);
    TrimStartCuts(Edge, s);
    TrimEndCuts(Edge, t);
  }

  /** Every name is 1 to 32 lower-case letters, digits, dots, underscores and dashes, and starts
      with none of the two that are trimmed. */
  lemma SanitizeIsBase(raw: string)
    ensures IsBase(Sanitize(raw)) && !Matches(Edge, Sanitize(raw)[0])
  {
    var out := Collapse(raw, false);
    CollapseNames(raw, false);
    TrimEdgesIs(out);
    assert AllNameChars("room");
  }

  /** A name is left as it is exactly when it already is such a name and neither starts nor ends
      with an underscore or a dot. Cutting at 32 characters can leave such an end, so sanitizing
      twice can change a name that sanitizing once produced. */
  lemma SanitizeFixedIff(s: string)
    ensures Sanitize(s) == s <==> IsBase(s) && CleanEdges(s)
  {
    SanitizeIsBase(s);
    CollapseShorter(s, false);
    var out := Collapse(s, false);
    TrimEdgesIs(out);
    if IsBase(s) && CleanEdges(s) {
      CollapseIdle(s, false);
      TrimStartIdle(Edge, s);
      TrimEndIdle(Edge, s);
    }
  }

  /** Sanitizing twice is sanitizing once, exactly when the collapsed and trimmed input has at most 32
      characters or its 32nd character is neither an underscore nor a dot. */
  lemma SanitizeTwiceIff(raw: string)
    ensures var t := TrimEdges(Collapse(raw, false));
      Sanitize(Sanitize(raw)) == Sanitize(raw) <==> (|t| <= 32 || !Matches(Edge, t[31]))
  {
    hide Sanitize, TrimEdges, Collapse, AllNameChars;
    var t := TrimEdges(Collapse(raw, false));
    TrimEdgesIs(Collapse(raw, false));
    SanitizeIsBase(raw);
    SanitizeFixedIff(Sanitize(raw));
    SanitizeEnds(raw);
  }

  lemma SanitizeEnds(raw: string)
    ensures var t, name := TrimEdges(Collapse(raw, false)), Sanitize(raw);
      && name != ""
      && name[|name| - 1] == if |t| > 32 then t[31] else if t == "" then 'm' else t[|t| - 1]
  {
    hide TrimEdges, Collapse;
  }

  /** And the others exist: when the cut at 32 characters falls right behind an underscore or a dot,
      sanitizing the name again takes it away. */
  lemma SanitizedAgainIsShorter(s: string, c: char, x: char)
    requires |s| == 31 && AllNameChars(s) && CleanEdges(s)
    requires Matches(Edge, c) && NameChar(x) && !Matches(Edge, x)
    ensures Sanitize(s + [c, x]) == s + [c] && Sanitize(s + [c]) == s
  {
    var raw := s + [c, x];
    CollapseIdle(raw, false);
    TrimStartIdle(Edge, raw);
    TrimEndIdle(Edge, raw);
    assert raw[..32] == s + [c];
    CollapseIdle(s + [c], false);
    TrimStartIdle(Edge, s + [c]);
    assert (s + [c])[..31] == s;
    TrimEndIdle(Edge, s);
  }

  // ---------- the invariant ----------

  /** An entry has an empty channel exactly when it is a query, and its channel is lower case. */
  predicate EntryOk(e: RoomEntry) {
    (e.channel == "" <==> e.query.Some?) && Lower(e.channel) == e.channel
  }

  /** Two entries are of different rooms, and have different channels unless empty. */
  predicate Apart(a: RoomEntry, b: RoomEntry) {
    a.roomId != b.roomId && (a.channel == b.channel ==> a.channel == "")
  }

  predicate Valid(rooms: seq<RoomEntry>) {
    && (forall i | 0 <= i < |rooms| :: EntryOk(rooms[i]))
    && (forall i, j | 0 <= i < j < |rooms| :: Apart(rooms[i], rooms[j]))
  }

  lemma LowerIdle(s: string)
    requires AllNameChars(s)
    ensures Lower(s) == s
  {
    assert forall i | 0 <= i < |s| :: NameChar(s[i]) && LowerChar(s[i]) == s[i];
  }

  /** A new channel is a lower-case name no other room has. */
  lemma UniqueChannelIs(rooms: seq<RoomEntry>, base: string)
    ensures var c := UniqueChannel(rooms, base);
      c != "" && Lower(c) == c && forall i | 0 <= i < |rooms| :: rooms[i].channel != c
  {
    hide Sanitize, Lower, FreeSuffix;
    var name := Sanitize(base);
    var stem := "#" + name;
    var c := UniqueChannel(rooms, base);
    SanitizeIsBase(base);
    LowerIdle(name);
    LowerConcat("#", name);
    LowerHash();
    if stem in Channels(rooms) {
      LowerCandidate(stem, FreeSuffix(Channels(rooms), stem, 2));
    }
    ChannelsHold(rooms, c);
  }

  lemma LowerHash()
    ensures Lower("#") == "#"
  {
  }

  /** And it is the sanitized name itself if that is free, or else that name with the least free
      suffix, which is at most one more than the number of rooms. */
  lemma UniqueChannelLeast(rooms: seq<RoomEntry>, base: string)
    ensures var stem := "#" + Sanitize(base);
      var c := UniqueChannel(rooms, base);
      && (stem !in Channels(rooms) ==> c == stem)
      && (stem in Channels(rooms) ==>
           exists i: nat | 2 <= i <= |rooms| + 1 :: LeastFree(Channels(rooms), stem, i) && c == Candidate(stem, i))
  {
    hide Sanitize, Candidate, Channels, Tried;
    var stem := "#" + Sanitize(base);
    var taken := Channels(rooms);
    if stem in taken {
      NothingTried(taken, stem);
      var i := FreeSuffix(taken, stem, 2);
      assert LeastFree(taken, stem, i) && UniqueChannel(rooms, base) == Candidate(stem, i);
    }
  }

  /** The suffix is an underscore and the number in decimal. */
  lemma CandidateText(stem: string, a: nat)
    requires 0 < a < 10
    ensures Candidate(stem, a) == stem + ['_', ('0' as int + a) as char]
    ensures forall i: nat :: Candidate(stem, i) == stem + (['_'] + Decimal.Print(i))
  {
  }

  /** A new query nick is one no room answers to, whatever the case; the nick itself if free, or
      else the nick with the least suffix that is. */
  lemma UniqueQueryIs(rooms: seq<RoomEntry>, nick: string)
    ensures var q := UniqueQuery(rooms, nick);
      && (forall i | 0 <= i < |rooms| :: !SameNick(rooms[i], q))
      && (Lower(nick) !in LowerQueries(rooms) ==> q == nick)
      && (Lower(nick) in LowerQueries(rooms) ==>
           exists i: nat | 2 <= i <= |rooms| + 1 ::
             LeastFree(LowerQueries(rooms), Lower(nick), i) && q == Candidate(nick, i))
  {
    hide Lower;
    var taken := LowerQueries(rooms);
    var q := UniqueQuery(rooms, nick);
    QueriesHold(rooms, q);
    if Lower(nick) in taken {
      NothingTried(taken, Lower(nick));
      var i := FreeSuffix(taken, Lower(nick), 2);
      LowerCandidate(nick, i);
      assert LeastFree(taken, Lower(nick), i);
    }
  }

  lemma {:induction false} RetainSub(rooms: seq<RoomEntry>, live: set<string>)
    ensures forall e | e in Retain(rooms, live) :: e in rooms && e.roomId in live
  {
    if rooms != [] {
      RetainSub(rooms[1..], live);
    }
  }

  lemma {:induction false} RetainValid(rooms: seq<RoomEntry>, live: set<string>)
    requires Valid(rooms)
    ensures Valid(Retain(rooms, live))
  {
    hide EntryOk, Apart;
    if rooms != [] {
      var rest := rooms[1..];
      assert forall i | 0 <= i < |rest| :: rest[i] == rooms[i + 1];
      RetainValid(rest, live);
      RetainSub(rest, live);
      assert forall e | e in rest :: Apart(rooms[0], e);
      ConsValid(rooms[0], Retain(rest, live));
      assert [] + Retain(rest, live) == Retain(rest, live);
    }
  }

  lemma ConsValid(e: RoomEntry, rest: seq<RoomEntry>)
    requires EntryOk(e) && Valid(rest) && forall f | f in rest :: Apart(e, f)
    ensures Valid([e] + rest)
  {
    hide EntryOk, Apart;
  }

  lemma UpdateValid(rooms: seq<RoomEntry>, i: nat, e: RoomEntry)
    requires Valid(rooms) && i < |rooms| && e.roomId == rooms[i].roomId
    requires
      || (e.channel == rooms[i].channel && e.query.Some? == rooms[i].query.Some?)
      || (e.channel == "" && e.query.Some?)
    ensures Valid(rooms[i := e])
  {
    assert EntryOk(e) by { LowerNone(); }
    forall j | 0 <= j < |rooms| && j != i
      ensures Apart(rooms[j], e) && Apart(e, rooms[j])
    {
      assert Apart(rooms[if j < i then j else i], rooms[if j < i then i else j]);
    }
    PlaceValid(rooms, i, e);
  }

  lemma PlaceValid(rooms: seq<RoomEntry>, i: nat, e: RoomEntry)
    requires Valid(rooms) && i < |rooms| && EntryOk(e)
    requires forall j | 0 <= j < |rooms| && j != i :: Apart(rooms[j], e) && Apart(e, rooms[j])
    ensures Valid(rooms[i := e])
  {
    hide EntryOk, Apart;
  }

  lemma AppendValid(rooms: seq<RoomEntry>, e: RoomEntry)
    requires Valid(rooms) && Position(rooms, e.roomId) == |rooms| && EntryOk(e)
    requires e.channel != "" ==> forall i | 0 <= i < |rooms| :: rooms[i].channel != e.channel
    ensures Valid(rooms + [e])
  {
    assert forall i | 0 <= i < |rooms| :: Apart(rooms[i], e);
    EndValid(rooms, e);
  }

  lemma EndValid(rooms: seq<RoomEntry>, e: RoomEntry)
    requires Valid(rooms) && EntryOk(e) && forall i | 0 <= i < |rooms| :: Apart(rooms[i], e)
    ensures Valid(rooms + [e])
  {
    hide EntryOk, Apart;
  }

  /** Every operation keeps the map valid. */
  lemma ApplyValid(m: Maps, op: Op)
    requires Valid(m.rooms)
    ensures Valid(Apply(m, op).rooms)
  {
    hide Valid, UniqueChannel, UniqueQuery, Lower, Retain;
    LowerNone();
    match op
    case Ensure(id, base, topic) =>
      var i := Position(m.rooms, id);
      if i < |m.rooms| {
        UpdateValid(m.rooms, i, m.rooms[i].(topic := topic));
      } else {
        UniqueChannelIs(m.rooms, base);
        AppendValid(m.rooms, RoomEntry(id, UniqueChannel(m.rooms, base), None, topic));
      }
    case EnsureQuery(id, nick, topic) =>
      var i := Position(m.rooms, id);
      if i < |m.rooms| {
        UpdateValid(m.rooms, i, RoomEntry(id, "", Some(nick), topic));
      } else {
        AppendValid(m.rooms, RoomEntry(id, "", Some(UniqueQuery(m.rooms, nick)), topic));
      }
    case PruneTo(live) => RetainValid(m.rooms, live);
    case SetTopic(id, topic) =>
      var i := Position(m.rooms, id);
      if i < |m.rooms| {
        UpdateValid(m.rooms, i, m.rooms[i].(topic := topic));
      }
  }

  lemma LowerNone()
    ensures Lower("") == ""
  {
  }

  // ---------- stability ----------

  /** The channel of a room; empty for a query, or a room that is not mapped. */
  function ChannelOf(rooms: seq<RoomEntry>, id: string): string {
    var e := ByRoom(rooms, id);
    if e.Some? then e.value.channel else ""
  }

  /** The operations that may take a room's channel away. */
  predicate Ends(op: Op, id: string) {
    (op.PruneTo? && id !in op.live) || (op.EnsureQuery? && op.id == id)
  }

  lemma {:induction false} RetainFinds(rooms: seq<RoomEntry>, live: set<string>, id: string)
    requires id in live
    ensures ByRoom(Retain(rooms, live), id) == ByRoom(rooms, id)
  {
    hide ByRoom;
    if rooms == [] {
    } else {
      var rest := Retain(rooms[1..], live);
      RetainFinds(rooms[1..], live, id);
      FindsCons(rooms[0], rooms[1..], id);
      FindsCons(rooms[0], rest, id);
      assert [] + rest == rest && [rooms[0]] + rooms[1..] == rooms;
    }
  }

  lemma FindsCons(e: RoomEntry, rest: seq<RoomEntry>, id: string)
    ensures ByRoom([e] + rest, id) == if e.roomId == id then Some(e) else ByRoom(rest, id)
  {
    assert ([e] + rest)[1..] == rest;
  }

  lemma {:induction false} AppendFinds(rooms: seq<RoomEntry>, e: RoomEntry, id: string)
    ensures ByRoom(rooms, id).Some? ==> ByRoom(rooms + [e], id) == ByRoom(rooms, id)
    ensures ByRoom(rooms, id).None? ==> ByRoom(rooms + [e], id) == if e.roomId == id then Some(e) else None
  {
    var all := rooms + [e];
    var i, k := Position(rooms, id), Position(all, id);
    assert forall j | 0 <= j < |rooms| :: all[j] == rooms[j];
    if i < |rooms| {
      PositionIs(all, id, i);
    } else if e.roomId == id {
      PositionIs(all, id, |rooms|);
    }
  }

  lemma {:induction false} UpdateFinds(rooms: seq<RoomEntry>, i: nat, e: RoomEntry, id: string)
    requires i < |rooms| && e.roomId == rooms[i].roomId && i == Position(rooms, e.roomId)
    ensures ByRoom(rooms[i := e], id) == if id == e.roomId then Some(e) else ByRoom(rooms, id)
  {
    var all := rooms[i := e];
    var k := Position(rooms, id);
    assert forall j | 0 <= j < |rooms| :: all[j].roomId == rooms[j].roomId;
    if k < |rooms| {
      PositionIs(all, id, k);
    }
  }

  /** A channel, once given, is kept by every operation that does not end it. */
  lemma ApplyStable(m: Maps, op: Op, id: string)
    requires ChannelOf(m.rooms, id) != "" && !Ends(op, id)
    ensures ChannelOf(Apply(m, op).rooms, id) == ChannelOf(m.rooms, id)
  {
    hide UniqueChannel, UniqueQuery, Retain, ByRoom;
    Mapped(m.rooms, id);
    match op
    case Ensure(k, base, topic) =>
      var i := Position(m.rooms, k);
      if i < |m.rooms| {
        UpdateFinds(m.rooms, i, m.rooms[i].(topic := topic), id);
        FoundAt(m.rooms, k);
      } else {
        AppendFinds(m.rooms, RoomEntry(k, UniqueChannel(m.rooms, base), None, topic), id);
      }
    case EnsureQuery(k, nick, topic) =>
      var i := Position(m.rooms, k);
      if i < |m.rooms| {
        UpdateFinds(m.rooms, i, RoomEntry(k, "", Some(nick), topic), id);
      } else {
        AppendFinds(m.rooms, RoomEntry(k, "", Some(UniqueQuery(m.rooms, nick)), topic), id);
      }
    case PruneTo(live) => RetainFinds(m.rooms, live, id);
    case SetTopic(k, topic) =>
      var i := Position(m.rooms, k);
      if i < |m.rooms| {
        UpdateFinds(m.rooms, i, m.rooms[i].(topic := topic), id);
        FoundAt(m.rooms, k);
      }
  }

  lemma Mapped(rooms: seq<RoomEntry>, id: string)
    requires ChannelOf(rooms, id) != ""
    ensures ByRoom(rooms, id).Some?
  {
  }

  lemma FoundAt(rooms: seq<RoomEntry>, id: string)
    requires Position(rooms, id) < |rooms|
    ensures ByRoom(rooms, id) == Some(rooms[Position(rooms, id)])
  {
  }

  // ---------- what survives a restart ----------

  /** The file is a valid map too, and knows the channel of every channel room. */
  ghost predicate Persisted(m: Maps) {
    && Valid(m.saved)
    && forall id :: ChannelOf(m.rooms, id) != "" ==> ChannelOf(m.saved, id) == ChannelOf(m.rooms, id)
  }

  /** The operations that save write the map; those that do not give no room a channel. */
  lemma UnsavedGivesNothing(m: Maps, op: Op, id: string)
    requires Apply(m, op).saved != Apply(m, op).rooms
    ensures Apply(m, op).saved == m.saved
    ensures ChannelOf(Apply(m, op).rooms, id) != "" ==> ChannelOf(m.rooms, id) == ChannelOf(Apply(m, op).rooms, id)
  {
    hide ByRoom, UniqueChannel, UniqueQuery;
    match op
    case Ensure(k, base, topic) =>
      var i := Position(m.rooms, k);
      UpdateFinds(m.rooms, i, m.rooms[i].(topic := topic), id);
      FoundAt(m.rooms, k);
    case EnsureQuery(k, nick, topic) =>
      var i := Position(m.rooms, k);
      UpdateFinds(m.rooms, i, RoomEntry(k, "", Some(nick), topic), id);
    case PruneTo(live) =>
      RetainAll(m.rooms, live);
    case SetTopic(k, topic) =>
      var i := Position(m.rooms, k);
      if i < |m.rooms| {
        UpdateFinds(m.rooms, i, m.rooms[i].(topic := topic), id);
        FoundAt(m.rooms, k);
      }
  }

  /** The operations that leave the file behind: a topic edit, and turning a mapped room into a query, or
      changing its nick, under the topic it has. */
  predicate LeavesFile(rooms: seq<RoomEntry>, op: Op) {
    match op
    case SetTopic(id, topic) =>
      var i := Position(rooms, id);
      i < |rooms| && rooms[i].topic != topic
    case EnsureQuery(id, nick, topic) =>
      var i := Position(rooms, id);
      i < |rooms| && rooms[i].topic == topic && (rooms[i].channel != "" || rooms[i].query != Some(nick))
    case _ => false
  }

  /** Where the file is up to date, an operation leaves it so exactly when it is none of these. */
  lemma FileIsCurrentIff(m: Maps, op: Op)
    requires m.saved == m.rooms
    ensures Apply(m, op).saved == Apply(m, op).rooms <==> !LeavesFile(m.rooms, op)
  {
    hide UniqueChannel, UniqueQuery, Retain;
    match op
    case Ensure(id, base, topic) => EntryPut(m.rooms, Position(m.rooms, id), topic);
    case EnsureQuery(id, nick, topic) =>
      var i := Position(m.rooms, id);
      if i < |m.rooms| {
        var e := RoomEntry(id, "", Some(nick), topic);
        assert m.rooms[i := e][i] == e;
        assert m.rooms[i] == e ==> m.rooms[i := e] == m.rooms;
      }
    case PruneTo(live) => RetainAll(m.rooms, live);
    case SetTopic(id, topic) => EntryPut(m.rooms, Position(m.rooms, id), topic);
  }

  lemma EntryPut(rooms: seq<RoomEntry>, i: nat, topic: string)
    ensures i < |rooms| ==> (rooms[i := rooms[i].(topic := topic)] == rooms <==> rooms[i].topic == topic)
  {
    if i < |rooms| {
      assert rooms[i := rooms[i].(topic := topic)][i].topic == topic;
    }
  }

  lemma {:induction false} RetainAll(rooms: seq<RoomEntry>, live: set<string>)
    ensures |Retain(rooms, live)| == |rooms| ==> Retain(rooms, live) == rooms
  {
    if rooms != [] {
      RetainAll(rooms[1..], live);
    }
  }

  lemma ApplyPersisted(m: Maps, op: Op)
    requires Valid(m.rooms) && Persisted(m)
    ensures Persisted(Apply(m, op))
  {
    hide Valid, ChannelOf, Apply;
    ApplyValid(m, op);
    var m' := Apply(m, op);
    if m'.saved != m'.rooms {
      forall id | ChannelOf(m'.rooms, id) != ""
        ensures ChannelOf(m'.saved, id) == ChannelOf(m'.rooms, id)
      {
        UnsavedGivesNothing(m, op, id);
      }
      UnsavedGivesNothing(m, op, "");
    }
  }

  // ---------- runs ----------

  function Run(m: Maps, ops: seq<Op>): Maps
    decreases |ops|
  {
    if ops == [] then m else Run(Apply(m, ops[0]), ops[1..])
  }

  predicate NeverEnds(ops: seq<Op>, id: string) {
    forall i | 0 <= i < |ops| :: !Ends(ops[i], id)
  }

  /** Over any run from a valid map just loaded: the map and its file stay valid; a room that has a
      channel keeps it unless it is pruned or turned into a query; and restarting from the file gives
      every channel room the channel it has. */
  lemma {:induction false} RunKeeps(m: Maps, ops: seq<Op>, id: string)
    requires Valid(m.rooms) && Persisted(m)
    ensures Valid(Run(m, ops).rooms) && Persisted(Run(m, ops))
    ensures ChannelOf(m.rooms, id) != "" && NeverEnds(ops, id) ==>
      ChannelOf(Run(m, ops).rooms, id) == ChannelOf(m.rooms, id)
    decreases |ops|
  {
    hide Valid, Persisted, ChannelOf, Apply, Ends;
    if ops != [] {
      ApplyValid(m, ops[0]);
      ApplyPersisted(m, ops[0]);
      if ChannelOf(m.rooms, id) != "" && NeverEnds(ops, id) {
        ApplyStable(m, ops[0], id);
        assert forall i | 0 <= i < |ops[1..]| :: ops[1..][i] == ops[i + 1];
      }
      RunKeeps(Apply(m, ops[0]), ops[1..], id);
    }
  }

  // ---------- lookups ----------

  /** A channel room is found under every ASCII-case variant of its channel, and nothing else is. */
  lemma {:induction false} ChannelLookup(rooms: seq<RoomEntry>, i: nat, name: string)
    requires Valid(rooms) && i < |rooms| && rooms[i].channel != ""
    ensures ByChannel(rooms, name) == Some(rooms[i]) <==> Lower(name) == rooms[i].channel
  {
    var rest := rooms[1..];
    assert forall k | 0 <= k < |rest| :: rest[k] == rooms[k + 1];
    if i > 0 {
      ChannelLookup(rest, i - 1, name);
      if rooms[0].channel == Lower(name) && rooms[0].channel != "" {
        assert rooms[0].channel != rooms[i].channel;
      }
    } else if ByChannel(rooms, name) == Some(rooms[0]) && rooms[0].channel != Lower(name) {
      ChannelFound(rest, name);
    }
  }

  lemma {:induction false} ChannelFound(rooms: seq<RoomEntry>, name: string)
    ensures ByChannel(rooms, name).Some? ==>
      ByChannel(rooms, name).value.channel == Lower(name) && ByChannel(rooms, name).value.channel != ""
  {
    if rooms != [] {
      ChannelFound(rooms[1..], name);
    }
  }

  /** A nick finds the first room that answers to it, in any case of letters. */
  lemma {:induction false} QueryLookup(rooms: seq<RoomEntry>, nick: string, i: nat)
    ensures ByQuery(rooms, nick).None? <==> forall k | 0 <= k < |rooms| :: !Answers(rooms[k], nick)
    ensures i < |rooms| && Answers(rooms[i], nick) && (forall k | 0 <= k < i :: !Answers(rooms[k], nick))
      ==> ByQuery(rooms, nick) == Some(rooms[i])
  {
    hide Lower;
    if rooms != [] {
      var rest := rooms[1..];
      assert forall k | 0 <= k < |rest| :: rest[k] == rooms[k + 1];
      assert forall k | 1 <= k < |rooms| :: rooms[k] == rest[k - 1];
      QueryLookup(rest, nick, if i > 0 then i - 1 else 0);
    }
  }

  predicate Answers(e: RoomEntry, nick: string) {
    e.query.Some? && |e.query.value| == |nick|
    && forall i | 0 <= i < |nick| :: LowerChar(e.query.value[i]) == LowerChar(nick[i])
  }

  // ---------- the entry of a room ----------

  /** What a room is mapped to after an operation: a refresh takes over the topic, and for a query the nick
      as it was given; a new room gets a name of its own; and no other room is changed. */
  lemma EntryAfter(m: Maps, op: Op, id: string)
    ensures var was, now := ByRoom(m.rooms, id), ByRoom(Apply(m, op).rooms, id);
      && (op.Ensure? && id == op.id ==>
            now == Some(if was.Some? then was.value.(topic := op.topic)
                        else RoomEntry(id, UniqueChannel(m.rooms, op.base), None, op.topic)))
      && (op.EnsureQuery? && id == op.id ==>
            var nick := if was.Some? then op.nick else UniqueQuery(m.rooms, op.nick);
            now == Some(RoomEntry(id, "", Some(nick), op.topic)))
      && (op.SetTopic? && id == op.id ==>
            now == if was.Some? then Some(was.value.(topic := op.topic)) else None)
      && (op.PruneTo? ==> now == if id in op.live then was else None)
      && (!op.PruneTo? && id != op.id ==> now == was)
  {
    hide UniqueChannel, UniqueQuery, Retain, ByRoom;
    match op
    case Ensure(k, base, topic) =>
      var i := Position(m.rooms, k);
      PositionFinds(m.rooms, k);
      if i < |m.rooms| {
        UpdateFinds(m.rooms, i, m.rooms[i].(topic := topic), id);
      } else {
        AppendFinds(m.rooms, RoomEntry(k, UniqueChannel(m.rooms, base), None, topic), id);
      }
    case EnsureQuery(k, nick, topic) =>
      var i := Position(m.rooms, k);
      PositionFinds(m.rooms, k);
      if i < |m.rooms| {
        UpdateFinds(m.rooms, i, RoomEntry(k, "", Some(nick), topic), id);
      } else {
        AppendFinds(m.rooms, RoomEntry(k, "", Some(UniqueQuery(m.rooms, nick)), topic), id);
      }
    case PruneTo(live) =>
      if id in live {
        RetainFinds(m.rooms, live, id);
      } else {
        RetainSub(m.rooms, live);
        PositionFinds(Retain(m.rooms, live), id);
      }
    case SetTopic(k, topic) =>
      var i := Position(m.rooms, k);
      PositionFinds(m.rooms, k);
      if i < |m.rooms| {
        UpdateFinds(m.rooms, i, m.rooms[i].(topic := topic), id);
      }
  }

  lemma PositionFinds(rooms: seq<RoomEntry>, id: string)
    ensures var i := Position(rooms, id);
      && (i < |rooms| ==> ByRoom(rooms, id) == Some(rooms[i]) && rooms[i] in rooms && rooms[i].roomId == id)
      && (i == |rooms| ==> ByRoom(rooms, id) == None)
  {
  }

  // ---------- query nicks ----------

  /** No two rooms answer to the same nick. */
  predicate QueriesDistinct(rooms: seq<RoomEntry>) {
    forall i, j | 0 <= i < j < |rooms| && rooms[i].query.Some? :: !SameNick(rooms[j], rooms[i].query.value)
  }

  /** Some other room answers to the nick. */
  predicate TakenElsewhere(rooms: seq<RoomEntry>, id: string, nick: string) {
    exists k | 0 <= k < |rooms| :: rooms[k].roomId != id && SameNick(rooms[k], nick)
  }

  /** Mapping a query keeps the nicks apart, exactly when the room is new or no other room has the
      nick: refreshing a room that is mapped already does not look for a free one. */
  lemma EnsureQueryDistinctIff(m: Maps, id: string, nick: string, topic: string)
    requires Valid(m.rooms) && QueriesDistinct(m.rooms)
    ensures QueriesDistinct(Apply(m, EnsureQuery(id, nick, topic)).rooms)
      <==> (Position(m.rooms, id) == |m.rooms| || !TakenElsewhere(m.rooms, id, nick))
  {
    hide UniqueQuery, Lower, Valid;
    var i := Position(m.rooms, id);
    var rooms := Apply(m, EnsureQuery(id, nick, topic)).rooms;
    if i == |m.rooms| {
      UniqueQueryIs(m.rooms, nick);
      var e := RoomEntry(id, "", Some(UniqueQuery(m.rooms, nick)), topic);
      assert rooms == m.rooms + [e];
      forall j, k | 0 <= j < k < |rooms| && rooms[j].query.Some?
        ensures !SameNick(rooms[k], rooms[j].query.value)
      {
        if k == |m.rooms| {
          assert !SameNick(m.rooms[j], UniqueQuery(m.rooms, nick));
        }
      }
    } else {
      RefreshDistinctIff(m.rooms, i, nick, topic);
    }
  }

  lemma RefreshDistinctIff(rooms: seq<RoomEntry>, i: nat, nick: string, topic: string)
    requires Valid(rooms) && QueriesDistinct(rooms) && i < |rooms|
    ensures QueriesDistinct(rooms[i := RoomEntry(rooms[i].roomId, "", Some(nick), topic)])
      <==> !TakenElsewhere(rooms, rooms[i].roomId, nick)
  {
    hide Lower;
    var e := RoomEntry(rooms[i].roomId, "", Some(nick), topic);
    var all := rooms[i := e];
    if TakenElsewhere(rooms, e.roomId, nick) {
      var k :| 0 <= k < |rooms| && rooms[k].roomId != e.roomId && SameNick(rooms[k], nick);
      assert all[k] == rooms[k] && all[i] == e;
      assert SameNick(e, rooms[k].query.value);
      if k < i {
        assert SameNick(all[i], all[k].query.value);
      } else {
        assert SameNick(all[k], all[i].query.value);
      }
    } else {
      forall j, k | 0 <= j < k < |all| && all[j].query.Some?
        ensures !SameNick(all[k], all[j].query.value)
      {
        assert j != i ==> all[j] == rooms[j];
        assert k != i ==> all[k] == rooms[k];
        if j == i {
          assert rooms[k].roomId != e.roomId;
        } else if k == i {
          assert rooms[j].roomId != e.roomId;
        }
      }
    }
  }

  /** The exception happens: two rooms of the same nick are kept apart when they are mapped, and the
      refresh of the second gives both the same nick. */
  lemma RefreshedQueryCollides(a: string, b: string, nick: string, topic: string)
    requires a != b
    ensures var m := Run(Maps([], []), [EnsureQuery(a, nick, topic), EnsureQuery(b, nick, topic)]);
      QueriesDistinct(m.rooms) && !QueriesDistinct(Apply(m, EnsureQuery(b, nick, topic)).rooms)
  {
    hide UniqueQuery, Valid, QueriesDistinct, Lower;
    var none := Maps([], []);
    var one := Apply(none, EnsureQuery(a, nick, topic));
    var two := Apply(one, EnsureQuery(b, nick, topic));
    NothingMapped();
    EnsureQueryDistinctIff(none, a, nick, topic);
    ApplyValid(none, EnsureQuery(a, nick, topic));
    EnsureQueryDistinctIff(one, b, nick, topic);
    ApplyValid(one, EnsureQuery(b, nick, topic));
    UniqueQueryFirst(nick);
    assert one.rooms == [RoomEntry(a, "", Some(nick), topic)];
    assert Position(one.rooms, b) == 1 by { assert one.rooms[1..] == []; }
    assert two.rooms[0] == one.rooms[0];
    PositionIsLast(two.rooms, b);
    assert SameNick(two.rooms[0], nick);
    EnsureQueryDistinctIff(two, b, nick, topic);
    RunTwo(none, EnsureQuery(a, nick, topic), EnsureQuery(b, nick, topic));
  }

  lemma NothingMapped()
    ensures Valid([]) && QueriesDistinct([])
  {
  }

  lemma UniqueQueryFirst(nick: string)
    ensures UniqueQuery([], nick) == nick
  {
  }

  lemma PositionIsLast(rooms: seq<RoomEntry>, id: string)
    requires |rooms| == 2 && rooms[0].roomId != id && rooms[1].roomId == id
    ensures Position(rooms, id) == 1
  {
  }

  lemma RunTwo(m: Maps, x: Op, y: Op)
    ensures Run(m, [x, y]) == Apply(Apply(m, x), y)
  {
    hide Apply;
    assert [x, y][1..] == [y] && [y][1..] == [];
    assert Run(Apply(m, x), [y]) == Run(Apply(Apply(m, x), y), []);
  }

  /** Turning a room into a query without changing its topic is not saved: a restart would bring its
      channel back. */
  lemma QueryTurnUnsaved(m: Maps, id: string, nick: string)
    requires Persisted(m) && ChannelOf(m.rooms, id) != ""
    ensures var topic := m.rooms[Position(m.rooms, id)].topic;
      var m' := Apply(m, EnsureQuery(id, nick, topic));
      ChannelOf(m'.rooms, id) == "" && ChannelOf(m'.saved, id) == ChannelOf(m.rooms, id)
  {
    hide Valid, ByRoom;
    Mapped(m.rooms, id);
    var i := Position(m.rooms, id);
    FoundSome(m.rooms, id);
    UpdateFinds(m.rooms, i, RoomEntry(id, "", Some(nick), m.rooms[i].topic), id);
  }

  lemma FoundSome(rooms: seq<RoomEntry>, id: string)
    ensures ByRoom(rooms, id).Some? <==> Position(rooms, id) < |rooms|
  {
  }
}
