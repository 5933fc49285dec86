/** The room to channel map (`src/bridge/rooms.rs`). */
module Rooms {
  import opened Strings
  import Decimal

  /** One mapping: a channel room has a channel and no query, a query has a query and no channel. */
  datatype RoomEntry = RoomEntry(roomId: string, channel: string, query: Option<string>, topic: string)

  // ---------- sanitizing ----------

  predicate NameChar(c: char) {
    'a' <= c <= 'z' || '0' <= c <= '9' || c == '.' || c == '_' || c == '-'
  }

  /** The character loop: lower case, and one `_` for every run of anything else. */
  function Collapse(s: string, lastUnderscore: bool): string {
    if s == "" then ""
    else
      var c := LowerChar(s[0]);
      if NameChar(c) then [c] + Collapse(s[1..], false)
      else if lastUnderscore then Collapse(s[1..], true)
      else "_" + Collapse(s[1..], true)
  }

  function TrimEdges(s: string): string {
    TrimEnd(Edge, TrimStart(Edge, s))
  }

  /** `sanitize_base`. */
  function Sanitize(raw: string): string {
    var t := TrimEdges(Collapse(raw, false));
    var base := if |t| > 32 then t[..32] else t;
    if base == "" then "room" else base
  }

  method SanitizeBase(raw: string) returns (base: string)
    ensures base == Sanitize(raw)
  {
    var out := "";
    var lastUnderscore := false;
    var i := 0;
    while i < |raw|
      invariant i <= |raw|
      invariant Collapse(raw, false) == out + Collapse(raw[i..], lastUnderscore)
    {
      Suffix(raw, i, 1);
      var c := LowerChar(raw[i]);
      if NameChar(c) {
        Assoc(out, [c], Collapse(raw[i + 1..], false));
        out := out + [c];
        lastUnderscore := false;
      } else if !lastUnderscore {
        Assoc(out, "_", Collapse(raw[i + 1..], true));
        out := out + "_";
        lastUnderscore := true;
      }
      i := i + 1;
    }
    assert raw[i..] == "" && out + "" == out;
    var trimmed := TrimEdges(out);
    base := if |trimmed| > 32 then trimmed[..32] else trimmed;
    if base == "" {
      base := "room";
    }
  }

  // ---------- unique names ----------

  function Candidate(stem: string, i: nat): string {
    stem + "_" + Decimal.Print(i)
  }

  lemma CandidateInjective(stem: string, i: nat, j: nat)
    requires Candidate(stem, i) == Candidate(stem, j)
    ensures i == j
  {
    var k := |stem| + 1;
    assert Candidate(stem, i)[k..] == Decimal.Print(i) && Candidate(stem, j)[k..] == Decimal.Print(j);
    Decimal.PrintInjective(i, j);
  }

  /** The candidates 2 up to but not including `i`. */
  function Tried(stem: string, i: nat): (s: set<string>)
    ensures forall c :: c in s <==> exists j: nat | 2 <= j < i :: c == Candidate(stem, j)
  {
    set j: nat | 2 <= j < i :: Candidate(stem, j)
  }

  /** Distinct numbers print differently, so `i - 2` candidates are that many names. */
  lemma {:induction false} TriedCount(stem: string, i: nat)
    requires i >= 2
    ensures |Tried(stem, i)| == i - 2
  {
    if i == 2 {
      assert Tried(stem, 2) == {};
    } else {
      TriedCount(stem, i - 1);
      var c := Candidate(stem, i - 1);
      if c in Tried(stem, i - 1) {
        var j: nat :| 2 <= j < i - 1 && c == Candidate(stem, j);
        CandidateInjective(stem, i - 1, j);
      }
      assert Tried(stem, i) == Tried(stem, i - 1) + {c};
    }
  }

  lemma {:induction false} SubsetSize<T>(a: set<T>, b: set<T>)
    requires a <= b
    ensures |a| <= |b|
  {
    assert b == a + (b - a);
  }

  /** The pigeonhole: if the bare name and every candidate before `i` are taken, there are at least
      that many taken names. */
  lemma Pigeonhole(taken: set<string>, stem: string, i: nat)
    requires i >= 2 && stem in taken && Tried(stem, i) <= taken
    ensures i - 1 <= |taken|
  {
    TriedCount(stem, i);
    assert forall j: nat :: |Candidate(stem, j)| > |stem|;
    assert stem !in Tried(stem, i);
    SubsetSize(Tried(stem, i) + {stem}, taken);
  }

  lemma TriedNext(taken: set<string>, stem: string, i: nat)
    requires i >= 2 && Tried(stem, i) <= taken && Candidate(stem, i) in taken
    ensures Tried(stem, i + 1) <= taken
  {
  }

  /** The least suffix from 2 on whose name is not taken. */
  predicate LeastFree(taken: set<string>, stem: string, i: nat) {
    i >= 2 && Candidate(stem, i) !in taken && forall j: nat | 2 <= j < i :: Candidate(stem, j) in taken
  }

  /** A free name made from a stem: the stem itself, or the stem with the least free suffix. */
  predicate IsUnique(taken: set<string>, stem: string, name: string) {
    if stem !in taken then name == stem
    else exists i: nat | i <= |taken| + 1 :: LeastFree(taken, stem, i) && name == Candidate(stem, i)
  }

  /** There is only one such name, and it is free. */
  lemma {:induction false} UniqueIsOne(taken: set<string>, stem: string, a: string, b: string)
    requires IsUnique(taken, stem, a) && IsUnique(taken, stem, b)
    ensures a == b && a !in taken
  {
    if stem in taken {
      var i: nat :| i <= |taken| + 1 && LeastFree(taken, stem, i) && a == Candidate(stem, i);
      var j: nat :| j <= |taken| + 1 && LeastFree(taken, stem, j) && b == Candidate(stem, j);
      assert i == j;
    }
  }

  /** The search as a function: the suffix from `i` on, at most one more than the names taken. */
  function FreeSuffix(taken: set<string>, stem: string, i: nat): (r: nat)
    requires i >= 2 && stem in taken && Tried(stem, i) <= taken
    ensures LeastFree(taken, stem, r) && r <= |taken| + 1
    decreases |taken| + 2 - i
  {
    Pigeonhole(taken, stem, i);
    if Candidate(stem, i) !in taken then i
    else
      TriedNext(taken, stem, i);
      FreeSuffix(taken, stem, i + 1)
  }

  lemma NothingTried(taken: set<string>, stem: string)
    ensures Tried(stem, 2) <= taken
  {
  }

  function Unique(taken: set<string>, stem: string): (name: string)
    ensures IsUnique(taken, stem, name) && name !in taken
  {
    if stem !in taken then stem
    else
      NothingTried(taken, stem);
      Candidate(stem, FreeSuffix(taken, stem, 2))
  }

  function Channels(rooms: seq<RoomEntry>): (s: set<string>)
    ensures |s| <= |rooms|
  {
    if rooms == [] then {} else
      var s := Channels(rooms[1..]);
      assert |s + {rooms[0].channel}| <= |s| + 1;
      s + {rooms[0].channel}
  }

  /** Query nicks are compared without regard to case. */
  function LowerQueries(rooms: seq<RoomEntry>): (s: set<string>)
    ensures |s| <= |rooms|
  {
    if rooms == [] then {}
    else
      var s := LowerQueries(rooms[1..]);
      if rooms[0].query.None? then s
      else
        assert |s + {Lower(rooms[0].query.value)}| <= |s| + 1;
        s + {Lower(rooms[0].query.value)}
  }

  predicate SameNick(e: RoomEntry, nick: string) {
    e.query.Some? && Lower(e.query.value) == Lower(nick)
  }

  lemma {:induction false} ChannelsHold(rooms: seq<RoomEntry>, c: string)
    ensures c in Channels(rooms) <==> exists i | 0 <= i < |rooms| :: rooms[i].channel == c
  {
    if rooms != [] {
      ChannelsHold(rooms[1..], c);
      assert forall i | 0 <= i < |rooms[1..]| :: rooms[1..][i] == rooms[i + 1];
      assert forall i | 1 <= i < |rooms| :: rooms[i] == rooms[1..][i - 1];
    }
  }

  lemma {:induction false} QueriesHold(rooms: seq<RoomEntry>, nick: string)
    ensures Lower(nick) in LowerQueries(rooms) <==> exists i | 0 <= i < |rooms| :: SameNick(rooms[i], nick)
  {
    hide Lower;
    if rooms != [] {
      QueriesHold(rooms[1..], nick);
      assert forall i | 0 <= i < |rooms[1..]| :: rooms[1..][i] == rooms[i + 1];
      assert forall i | 1 <= i < |rooms| :: rooms[i] == rooms[1..][i - 1];
      assert SameNick(rooms[0], nick) <==> rooms[0].query.Some? && Lower(rooms[0].query.value) == Lower(nick);
    }
  }

  /** Lower-casing a candidate lower-cases its stem. */
  lemma LowerCandidate(nick: string, i: nat)
    ensures Lower(Candidate(nick, i)) == Candidate(Lower(nick), i)
  {
    var d := Decimal.Print(i);
    LowerConcat(nick + "_", d);
    LowerConcat(nick, "_");
    assert forall k | 0 <= k < |d| :: IsDigit(d[k]) && LowerChar(d[k]) == d[k];
    assert Lower(d) == d;
    assert Lower("_") == "_";
  }

  function UniqueChannel(rooms: seq<RoomEntry>, base: string): string {
    Unique(Channels(rooms), "#" + Sanitize(base))
  }

  /** The suffix is chosen on lower-cased names and put behind the nick as it was given. */
  function UniqueQuery(rooms: seq<RoomEntry>, nick: string): string {
    var taken := LowerQueries(rooms);
    if Lower(nick) !in taken then nick
    else
      NothingTried(taken, Lower(nick));
      Candidate(nick, FreeSuffix(taken, Lower(nick), 2))
  }

  // ---------- the map and its operations ----------

  /** The map in memory, and what the last `save` wrote to `channels.json`. */
  datatype Maps = Maps(rooms: seq<RoomEntry>, saved: seq<RoomEntry>)

  function Position(rooms: seq<RoomEntry>, id: string): (i: nat)
    ensures i <= |rooms|
    ensures i < |rooms| ==> rooms[i].roomId == id
    ensures forall j | 0 <= j < i :: rooms[j].roomId != id
  {
    if rooms == [] || rooms[0].roomId == id then 0
    else
      var i := 1 + Position(rooms[1..], id);
      assert forall j | 1 <= j < i :: rooms[j] == rooms[1..][j - 1];
      i
  }

  function Retain(rooms: seq<RoomEntry>, live: set<string>): (r: seq<RoomEntry>)
    ensures |r| <= |rooms|
  {
    if rooms == [] then []
    else (if rooms[0].roomId in live then [rooms[0]] else []) + Retain(rooms[1..], live)
  }

  datatype Op =
    | Ensure(id: string, base: string, topic: string)
    | EnsureQuery(id: string, nick: string, topic: string)
    | PruneTo(live: set<string>)
    | SetTopic(id: string, topic: string)

  function Apply(m: Maps, op: Op): Maps {
    match op
    case Ensure(id, base, topic) =>
      var i := Position(m.rooms, id);
      if i < |m.rooms| then
        var rooms := m.rooms[i := m.rooms[i].(topic := topic)];
        Maps(rooms, if m.rooms[i].topic != topic then rooms else m.saved)
      else
        var rooms := m.rooms + [RoomEntry(id, UniqueChannel(m.rooms, base), None, topic)];
        Maps(rooms, rooms)
    case EnsureQuery(id, nick, topic) =>
      var i := Position(m.rooms, id);
      if i < |m.rooms| then
        var rooms := m.rooms[i := RoomEntry(id, "", Some(nick), topic)];
        Maps(rooms, if m.rooms[i].topic != topic then rooms else m.saved)
      else
        var rooms := m.rooms + [RoomEntry(id, "", Some(UniqueQuery(m.rooms, nick)), topic)];
        Maps(rooms, rooms)
    case PruneTo(live) =>
      var rooms := Retain(m.rooms, live);
      Maps(rooms, if |rooms| != |m.rooms| then rooms else m.saved)
    case SetTopic(id, topic) =>
      var i := Position(m.rooms, id);
      if i < |m.rooms| then m.(rooms := m.rooms[i := m.rooms[i].(topic := topic)]) else m
  }

  function ByRoom(rooms: seq<RoomEntry>, id: string): Option<RoomEntry> {
    var i := Position(rooms, id);
    if i < |rooms| then Some(rooms[i]) else None
  }

  function ByChannel(rooms: seq<RoomEntry>, channel: string): Option<RoomEntry> {
    if rooms == [] then None
    else if rooms[0].channel == Lower(channel) && rooms[0].channel != "" then Some(rooms[0])
    else ByChannel(rooms[1..], channel)
  }

  function ByQuery(rooms: seq<RoomEntry>, nick: string): Option<RoomEntry> {
    if rooms == [] then None
    else if SameNick(rooms[0], nick) then Some(rooms[0])
    else ByQuery(rooms[1..], nick)
  }

  /** `RoomMaps`. The file at `path` is the field `saved`. */
  class RoomMaps {
    var rooms: seq<RoomEntry>
    var saved: seq<RoomEntry>

    ghost function State(): Maps
      reads this
    {
      Maps(rooms, saved)
    }

    /** `load`: what the file holds, or nothing. */
    constructor (file: Option<seq<RoomEntry>>)
      ensures rooms == saved == if file.Some? then file.value else []
    {
      rooms := if file.Some? then file.value else [];
      saved := if file.Some? then file.value else [];
    }

    method Save()
      modifies this`saved
      ensures saved == rooms
    {
      saved := rooms;
    }

    /** The `retain` of `prune_to`. */
    method Retained(live: set<string>) returns (kept: seq<RoomEntry>)
      ensures kept == Retain(rooms, live)
    {
      kept := [];
      var i := 0;
      while i < |rooms|
        invariant i <= |rooms|
        invariant Retain(rooms, live) == kept + Retain(rooms[i..], live)
      {
        Suffix(rooms, i, 1);
        var more := if rooms[i].roomId in live then [rooms[i]] else [];
        Assoc(kept, more, Retain(rooms[i + 1..], live));
        kept := kept + more;
        i := i + 1;
      }
      assert rooms[i..] == [] && kept + [] == kept;
    }

    method PruneTo(live: set<string>)
      modifies this
      ensures State() == Apply(old(State()), Op.PruneTo(live))
    {
      hide Retain;
      var before := |rooms|;
      rooms := Retained(live);
      if |rooms| != before {
        Save();
      }
    }

    /** `position` by room id. */
    method Find(id: string) returns (i: nat)
      ensures i == Position(rooms, id)
    {
      i := 0;
      while i < |rooms| && rooms[i].roomId != id
        invariant i <= |rooms|
        invariant Position(rooms, id) == i + Position(rooms[i..], id)
      {
        Suffix(rooms, i, 1);
        i := i + 1;
      }
    }

    method GetByChannel(channel: string) returns (e: Option<RoomEntry>)
      ensures e == ByChannel(rooms, channel)
    {
      var lower := Lower(channel);
      var i := 0;
      while i < |rooms|
        invariant i <= |rooms|
        invariant ByChannel(rooms, channel) == ByChannel(rooms[i..], channel)
      {
        if rooms[i].channel == lower && rooms[i].channel != "" {
          return Some(rooms[i]);
        }
        Suffix(rooms, i, 1);
        i := i + 1;
      }
      return None;
    }

    method GetByQuery(nick: string) returns (e: Option<RoomEntry>)
      ensures e == ByQuery(rooms, nick)
    {
      var i := 0;
      while i < |rooms|
        invariant i <= |rooms|
        invariant ByQuery(rooms, nick) == ByQuery(rooms[i..], nick)
      {
        if SameNick(rooms[i], nick) {
          return Some(rooms[i]);
        }
        Suffix(rooms, i, 1);
        i := i + 1;
      }
      return None;
    }

    method Ensure(id: string, base: string, topic: string) returns (e: RoomEntry)
      modifies this
      ensures State() == Apply(old(State()), Op.Ensure(id, base, topic))
      ensures ByRoom(rooms, id) == Some(e)
    {
      hide UniqueChannel;
      var i := Find(id);
      if i < |rooms| {
        if rooms[i].topic != topic {
          rooms := rooms[i := rooms[i].(topic := topic)];
          Save();
        } else {
          assert rooms[i := rooms[i].(topic := topic)] == rooms;
        }
        PositionIs(rooms, id, i);
        return rooms[i];
      }
      var channel := PickChannel(base);
      e := RoomEntry(id, channel, None, topic);
      rooms := rooms + [e];
      Save();
      PositionIs(rooms, id, i);
    }

    method EnsureQuery(id: string, nick: string, topic: string) returns (e: RoomEntry)
      modifies this
      ensures State() == Apply(old(State()), Op.EnsureQuery(id, nick, topic))
      ensures ByRoom(rooms, id) == Some(e)
    {
      hide UniqueQuery;
      var i := Find(id);
      if i < |rooms| {
        var changed := rooms[i].topic != topic;
        rooms := rooms[i := rooms[i].(query := Some(nick), channel := "")];
        if changed {
          rooms := rooms[i := rooms[i].(topic := topic)];
          Save();
        }
        PositionIs(rooms, id, i);
        return rooms[i];
      }
      var unique := PickQuery(nick);
      e := RoomEntry(id, "", Some(unique), topic);
      rooms := rooms + [e];
      Save();
      PositionIs(rooms, id, i);
    }

    /** The edit `push_topic` makes through `get_by_room_mut`; it does not save. */
    method SetTopic(id: string, topic: string)
      modifies this
      ensures State() == Apply(old(State()), Op.SetTopic(id, topic))
    {
      var i := Find(id);
      if i < |rooms| {
        rooms := rooms[i := rooms[i].(topic := topic)];
      }
    }

    /** `unique_channel`. */
    method PickChannel(base: string) returns (name: string)
      ensures name == UniqueChannel(rooms, base)
      ensures IsUnique(Channels(rooms), "#" + Sanitize(base), name)
    {
      var sanitized := SanitizeBase(base);
      var taken := Channels(rooms);
      var stem := "#" + sanitized;
      if stem !in taken {
        return stem;
      }
      NothingTried(taken, stem);
      var i := 2;
      while Candidate(stem, i) in taken
        invariant i >= 2 && Tried(stem, i) <= taken
        invariant FreeSuffix(taken, stem, 2) == FreeSuffix(taken, stem, i)
        decreases |taken| + 2 - i
      {
        Pigeonhole(taken, stem, i);
        TriedNext(taken, stem, i);
        i := i + 1;
      }
      return Candidate(stem, i);
    }

    /** `unique_query_nick`. */
    method PickQuery(nick: string) returns (name: string)
      ensures name == UniqueQuery(rooms, nick)
    {
      var clash := Taken(nick);
      ghost var taken := LowerQueries(rooms);
      if !clash {
        return nick;
      }
      NothingTried(taken, Lower(nick));
      var i := 2;
      LowerCandidate(nick, i);
      clash := Taken(Candidate(nick, i));
      while clash
        invariant i >= 2 && Lower(nick) in taken && Tried(Lower(nick), i) <= taken
        invariant clash <==> Candidate(Lower(nick), i) in taken
        invariant FreeSuffix(taken, Lower(nick), 2) == FreeSuffix(taken, Lower(nick), i)
        decreases |taken| + 2 - i
      {
        Pigeonhole(taken, Lower(nick), i);
        TriedNext(taken, Lower(nick), i);
        i := i + 1;
        LowerCandidate(nick, i);
        clash := Taken(Candidate(nick, i));
      }
      return Candidate(nick, i);
    }

    /** The `taken` closure of `unique_query_nick`. */
    method Taken(nick: string) returns (b: bool)
      ensures b <==> Lower(nick) in LowerQueries(rooms)
    {
      QueriesHold(rooms, nick);
      var i := 0;
      while i < |rooms|
        invariant i <= |rooms|
        invariant forall j | 0 <= j < i :: !SameNick(rooms[j], nick)
      {
        if SameNick(rooms[i], nick) {
          return true;
        }
        i := i + 1;
      }
      return false;
    }
  }

  lemma PositionIs(rooms: seq<RoomEntry>, id: string, i: nat)
    requires i < |rooms| && rooms[i].roomId == id && forall j | 0 <= j < i :: rooms[j].roomId != id
    ensures Position(rooms, id) == i
  {
  }
}
