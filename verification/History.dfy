/** Paged history (`walk_backward` and its three wrappers in `src/bridge/history.rs`). */
module History {
  import opened Strings

  /** A relayable message; the rest of `HistoryItem` is payload. */
  datatype Item = Item(ts: nat, eventId: string)

  /** A timeline event and what `item_from_event` makes of it. */
  datatype Event = Event(item: Option<Item>)

  datatype Page = Page(chunk: seq<Event>, end: Option<string>)

  /** The homeserver's `/messages`, backwards: a page for each token, None for the live edge. A
      token without a page is a request that fails. */
  type Server = map<Option<string>, Page>

  const MAX_PAGES: nat := 10

  /** The predicates the wrappers pass as `keep`. */
  datatype Keep = All | Since(ts: nat) | Before(ts: nat)

  predicate Keeps(k: Keep, ts: nat) {
    match k
    case All => true
    case Since(t) => ts >= t
    case Before(t) => ts < t
  }

  /** The items of some events that are relayable and kept, newest first as the events are. */
  function Select(events: seq<Event>, k: Keep): seq<Item> {
    if events == [] then []
    else
      var i := events[0].item;
      (if i.Some? && Keeps(k, i.value.ts) then [i.value] else []) + Select(events[1..], k)
  }

  function Take<T>(s: seq<T>, n: nat): seq<T> {
    if |s| <= n then s else s[..n]
  }

  /** The loop of `walk_backward`. None is a failed request. */
  method WalkBackward(server: Server, limit: nat, keep: Keep) returns (out: Option<seq<Item>>)
    ensures out == Walk(server, None, limit, keep, [], 0)
  {
    var from: Option<string> := None;
    var items: seq<Item> := [];
    var pages := 0;
    while true
      invariant pages < MAX_PAGES
      invariant Walk(server, None, limit, keep, [], 0) == Walk(server, from, limit, keep, items, pages)
      decreases MAX_PAGES - pages
    {
      if from !in server {
        return None;
      }
      var page := server[from];
      pages := pages + 1;
      ghost var before := items;
      var i := 0;
      while i < |page.chunk|
        invariant i <= |page.chunk|
        invariant before + Select(page.chunk, keep) == items + Select(page.chunk[i..], keep)
      {
        var item := page.chunk[i].item;
        Suffix(page.chunk, i, 1);
        if item.Some? && Keeps(keep, item.value.ts) {
          Assoc(items, [item.value], Select(page.chunk[i + 1..], keep));
          items := items + [item.value];
        } else {
          assert [] + Select(page.chunk[i + 1..], keep) == Select(page.chunk[i + 1..], keep);
        }
        i := i + 1;
      }
      assert page.chunk[i..] == [] && items + [] == items;
      var hitLimit := |items| >= limit;
      if page.end.Some? && !hitLimit && pages < MAX_PAGES {
        from := page.end;
      } else {
        break;
      }
    }
    if |items| > limit {
      items := items[..limit];
    }
    return Some(items);
  }

  /** The same walk as a function of its state. */
  function Walk(
      server: Server, from: Option<string>, limit: nat, keep: Keep, items: seq<Item>, pages: nat): Option<seq<Item>>
    requires pages < MAX_PAGES
    decreases MAX_PAGES - pages
  {
    if from !in server then None
    else
      var page := server[from];
      var items' := items + Select(page.chunk, keep);
      if page.end.Some? && |items'| < limit && pages + 1 < MAX_PAGES then
        Walk(server, page.end, limit, keep, items', pages + 1)
      else Some(Take(items', limit))
  }

  function Reverse<T>(s: seq<T>): (r: seq<T>)
    ensures |r| == |s|
  {
    if s == [] then [] else Reverse(s[1..]) + [s[0]]
  }

  lemma {:induction false} ReverseAt<T>(s: seq<T>, i: nat)
    requires i < |s|
    ensures Reverse(s)[i] == s[|s| - 1 - i]
  {
    if i < |s| - 1 {
      ReverseAt(s[1..], i);
    }
  }

  /** `Vec::reverse`, which the wrappers call in place. */
  method ReverseInPlace(a: array<Item>)
    modifies a
    ensures a[..] == Reverse(old(a[..]))
  {
    hide Reverse;
    ghost var was := a[..];
    var n, i := a.Length, 0;
    while i < n / 2
      invariant 0 <= i <= n / 2
      invariant forall k | 0 <= k < i || n - i <= k < n :: a[k] == was[n - 1 - k]
      invariant forall k | i <= k < n - i :: a[k] == was[k]
    {
      a[i], a[n - 1 - i] := a[n - 1 - i], a[i];
      i := i + 1;
    }
    forall k | 0 <= k < n
      ensures a[..][k] == Reverse(was)[k]
    {
      ReverseAt(was, k);
    }
  }

  /** The wrappers: walk, then put the items in chronological order. */
  method Fetch(server: Server, limit: nat, keep: Keep) returns (out: Option<seq<Item>>)
    ensures out == Fetched(server, limit, keep)
  {
    var items := WalkBackward(server, limit, keep);
    if items.None? {
      return None;
    }
    var a := new Item[|items.value|](i requires 0 <= i < |items.value| => items.value[i]);
    assert a[..] == items.value;
    ReverseInPlace(a);
    return Some(a[..]);
  }

  function Fetched(server: Server, limit: nat, keep: Keep): Option<seq<Item>> {
    var items := Walk(server, None, limit, keep, [], 0);
    if items.None? then None else Some(Reverse(items.value))
  }

  /** `latest`, `latest_since` and `before_timestamp`. */
  method Latest(server: Server, limit: nat) returns (out: Option<seq<Item>>)
    ensures out == Fetched(server, limit, All)
  {
    out := Fetch(server, limit, All);
  }

  method LatestSince(server: Server, ts: nat, limit: nat) returns (out: Option<seq<Item>>)
    ensures out == Fetched(server, limit, Since(ts))
  {
    out := Fetch(server, limit, Since(ts));
  }

  method BeforeTimestamp(server: Server, ts: nat, limit: nat) returns (out: Option<seq<Item>>)
    ensures out == Fetched(server, limit, Before(ts))
  {
    out := Fetch(server, limit, Before(ts));
  }

  // ---------- the simple specification ----------

  /** The timeline as a client could fetch it without ever stopping early: the events of the first
      `n` pages from a token on, or None if one of those requests fails. */
  function Timeline(server: Server, from: Option<string>, n: nat): Option<seq<Event>>
    decreases n
  {
    if n == 0 then Some([])
    else if from !in server then None
    else
      var page := server[from];
      if page.end.None? then Some(page.chunk)
      else
        var rest := Timeline(server, page.end, n - 1);
        if rest.None? then None else Some(page.chunk + rest.value)
  }

  lemma {:induction false} SelectConcat(a: seq<Event>, b: seq<Event>, k: Keep)
    ensures Select(a + b, k) == Select(a, k) + Select(b, k)
  {
    hide Keeps;
    if a == [] {
      assert a + b == b;
    } else {
      assert (a + b)[1..] == a[1..] + b;
      SelectConcat(a[1..], b, k);
      var i := a[0].item;
      Assoc(if i.Some? && Keeps(k, i.value.ts) then [i.value] else [], Select(a[1..], k), Select(b, k));
    }
  }

  lemma TakePrefix<T>(a: seq<T>, b: seq<T>, n: nat)
    requires |a| >= n
    ensures Take(a + b, n) == Take(a, n)
  {
  }

  /** The number of pages the walk asks for: up to the last page, the page cap, or the page that
      fills the limit. */
  function Asked(server: Server, from: Option<string>, limit: nat, keep: Keep, items: seq<Item>, pages: nat): (n: nat)
    requires pages < MAX_PAGES
    ensures 1 <= n <= MAX_PAGES - pages
    decreases MAX_PAGES - pages
  {
    if from !in server then 1
    else
      var page := server[from];
      var items' := items + Select(page.chunk, keep);
      if page.end.Some? && |items'| < limit && pages + 1 < MAX_PAGES then
        1 + Asked(server, page.end, limit, keep, items', pages + 1)
      else 1
  }

  /** Stopping early changes nothing: over any number of pages that can be fetched and that covers the
      pages asked for, the walk returns the first `limit` selected items. */
  lemma {:induction false} WalkRefines(
      server: Server, from: Option<string>, limit: nat, keep: Keep, items: seq<Item>, pages: nat, n: nat)
    requires pages < MAX_PAGES && Asked(server, from, limit, keep, items, pages) <= n <= MAX_PAGES - pages
    requires Timeline(server, from, n).Some?
    ensures Walk(server, from, limit, keep, items, pages)
      == Some(Take(items + Select(Timeline(server, from, n).value, keep), limit))
    decreases MAX_PAGES - pages
  {
    hide Select, Take;
    var page := server[from];
    var chosen := Select(page.chunk, keep);
    if page.end.Some? {
      var rest := Timeline(server, page.end, n - 1);
      SelectConcat(page.chunk, rest.value, keep);
      Assoc(items, chosen, Select(rest.value, keep));
      if |items + chosen| >= limit {
        TakePrefix(items + chosen, Select(rest.value, keep), limit);
      } else if pages + 1 < MAX_PAGES {
        WalkRefines(server, page.end, limit, keep, items + chosen, pages + 1, n - 1);
      } else {
        SelectNothing(keep);
        assert items + chosen + [] == items + chosen;
      }
    }
  }

  lemma SelectNothing(k: Keep)
    ensures Select([], k) == []
  {
  }

  /** A query returns, oldest first, exactly the newest `limit` relayable events that satisfy its
      predicate among the first ten pages; and if a later page fails, among the pages before it, as long as
      those are all it asks for. */
  lemma FetchedIs(server: Server, limit: nat, keep: Keep, n: nat)
    requires Asked(server, None, limit, keep, [], 0) <= n <= MAX_PAGES && Timeline(server, None, n).Some?
    ensures Fetched(server, limit, keep)
      == Some(Reverse(Take(Select(Timeline(server, None, n).value, keep), limit)))
  {
    hide Timeline, Walk, Select, Take, Asked;
    WalkRefines(server, None, limit, keep, [], 0, n);
    var chosen := Select(Timeline(server, None, n).value, keep);
    assert [] + chosen == chosen;
  }

  /** It never asks for more than the pages that fill the limit. */
  lemma {:induction false} AskedSuffices(
      server: Server, from: Option<string>, limit: nat, keep: Keep, items: seq<Item>, pages: nat, n: nat)
    requires pages < MAX_PAGES && 1 <= n <= MAX_PAGES - pages && Timeline(server, from, n).Some?
    requires |items + Select(Timeline(server, from, n).value, keep)| >= limit
    ensures Asked(server, from, limit, keep, items, pages) <= n
    decreases MAX_PAGES - pages
  {
    hide Select;
    var page := server[from];
    var chosen := Select(page.chunk, keep);
    if page.end.Some? && |items + chosen| < limit && pages + 1 < MAX_PAGES {
      var rest := Timeline(server, page.end, n - 1);
      SelectConcat(page.chunk, rest.value, keep);
      SelectNothing(keep);
      AskedSuffices(server, page.end, limit, keep, items + chosen, pages + 1, n - 1);
    }
  }

  /** Without the limit and without an end, ten pages are asked for and no more. */
  lemma {:induction false} TenPages(token: string, limit: nat, keep: Keep, from: Option<string>, pages: nat)
    requires limit > 0 && pages < 10 && from in {None, Some(token)}
    ensures var page := Page([], Some(token));
      var server := map[None := page, Some(token) := page];
      && Asked(server, from, limit, keep, [], pages) == 10 - pages
      && Walk(server, from, limit, keep, [], pages) == Some([])
    decreases 10 - pages
  {
    SelectNothing(keep);
    assert [] + Select([], keep) == [];
    if pages < 9 {
      TenPages(token, limit, keep, Some(token), pages + 1);
    }
  }

  // ---------- failing requests ----------

  /** A query fails exactly when one of the pages it asks for does; pages it does not need to ask for
      cannot make it fail. */
  lemma {:induction false} FailsIff(
      server: Server, from: Option<string>, limit: nat, keep: Keep, items: seq<Item>, pages: nat)
    requires pages < MAX_PAGES
    ensures Walk(server, from, limit, keep, items, pages).None?
      <==> Timeline(server, from, Asked(server, from, limit, keep, items, pages)).None?
    decreases MAX_PAGES - pages
  {
    hide Select, Take;
    if from in server {
      var page := server[from];
      var items' := items + Select(page.chunk, keep);
      if page.end.Some? && |items'| < limit && pages + 1 < MAX_PAGES {
        FailsIff(server, page.end, limit, keep, items', pages + 1);
      }
    }
  }

  // ---------- what the selected items are ----------

  /** Exactly the relayable events that satisfy the predicate, in the order of the events. */
  lemma {:induction false} SelectedIff(events: seq<Event>, k: Keep, i: Item)
    ensures i in Select(events, k) <==> Keeps(k, i.ts) && exists e | e in events :: e.item == Some(i)
  {
    hide Keeps;
    if events != [] {
      SelectedIff(events[1..], k, i);
      assert events == [events[0]] + events[1..];
      assert forall e :: e in events <==> e == events[0] || e in events[1..];
    }
  }

  // ---------- order ----------

  predicate Descending(items: seq<Item>) {
    forall i, j | 0 <= i < j < |items| :: items[i].ts >= items[j].ts
  }

  predicate Ascending(items: seq<Item>) {
    forall i, j | 0 <= i < j < |items| :: items[i].ts <= items[j].ts
  }

  lemma DescendingSplit(i: Item, s: seq<Item>)
    ensures Descending([i] + s) <==> Descending(s) && forall x | x in s :: i.ts >= x.ts
  {
    var all := [i] + s;
    assert all[1..] == s;
    if Descending(all) {
      forall a, b | 0 <= a < b < |s|
        ensures s[a].ts >= s[b].ts
      {
        assert s[a] == all[a + 1] && s[b] == all[b + 1];
      }
      forall x | x in s
        ensures i.ts >= x.ts
      {
        var k :| 0 <= k < |s| && s[k] == x;
        assert all[0] == i && all[k + 1] == x;
      }
    }
  }

  lemma AllKeeps()
    ensures forall ts :: Keeps(All, ts)
  {
  }

  lemma {:induction false} SelectDescending(events: seq<Event>, k: Keep)
    requires Descending(Select(events, All))
    ensures Descending(Select(events, k))
  {
    hide Keeps, Descending;
    if events != [] {
      var rest := events[1..];
      var all, chosen := Select(rest, All), Select(rest, k);
      AllKeeps();
      if events[0].item.Some? {
        var i := events[0].item.value;
        DescendingSplit(i, all);
        SelectDescending(rest, k);
        forall x | x in chosen
          ensures i.ts >= x.ts
        {
          SelectedIff(rest, k, x);
          SelectedIff(rest, All, x);
        }
        DescendingSplit(i, chosen);
        assert [] + chosen == chosen;
      } else {
        assert [] + all == all && [] + chosen == chosen;
        SelectDescending(rest, k);
      }
    } else {
      SelectNothing(All);
      SelectNothing(k);
    }
  }

  lemma TakeDescending(s: seq<Item>, n: nat)
    requires Descending(s)
    ensures Ascending(Reverse(Take(s, n)))
  {
    hide Reverse;
    var taken := Take(s, n);
    forall i, j | 0 <= i < j < |taken|
      ensures Reverse(taken)[i].ts <= Reverse(taken)[j].ts
    {
      ReverseAt(taken, i);
      ReverseAt(taken, j);
    }
  }

  /** From a newest-first timeline, every query's answer is in chronological order. */
  lemma FetchedInOrder(server: Server, limit: nat, keep: Keep, n: nat, events: seq<Event>)
    requires Asked(server, None, limit, keep, [], 0) <= n <= MAX_PAGES && Timeline(server, None, n) == Some(events)
    requires Descending(Select(events, All))
    ensures Fetched(server, limit, keep).Some? && Ascending(Fetched(server, limit, keep).value)
  {
    hide *;
    FetchedIs(server, limit, keep, n);
    SelectDescending(events, keep);
    TakeDescending(Select(events, keep), limit);
  }

  // ---------- the three queries ----------

  predicate Relayed(events: seq<Event>, i: Item) {
    exists e | e in events :: e.item == Some(i)
  }

  lemma {:induction false} ReverseMembers<T>(s: seq<T>, x: T)
    ensures x in Reverse(s) <==> x in s
  {
    if s != [] {
      assert s == [s[0]] + s[1..];
      ReverseMembers(s[1..], x);
    }
  }

  lemma TakeHas(s: seq<Item>, n: nat, k: nat)
    requires k < |s|
    ensures k < n ==> s[k] in Take(s, n)
  {
    assert k < |Take(s, n)| <==> k < n;
    assert k < n ==> Take(s, n)[k] == s[k];
  }

  lemma TakeOldest(s: seq<Item>, n: nat, x: Item, y: Item)
    requires Descending(s) && x in s && x !in Take(s, n) && y in Take(s, n)
    ensures x.ts <= y.ts
  {
    var k :| 0 <= k < |s| && s[k] == x;
    var j :| 0 <= j < |Take(s, n)| && Take(s, n)[j] == y;
    TakeHas(s, n, k);
  }

  /** Everything in an answer was relayed on the pages it covers and is kept; what is kept and not in it is
      there only when the limit is full, and is no newer than anything in it when pages come newest first. */
  lemma AnswerIs(server: Server, limit: nat, keep: Keep, n: nat, events: seq<Event>, x: Item, y: Item)
    requires Asked(server, None, limit, keep, [], 0) <= n <= MAX_PAGES && Timeline(server, None, n) == Some(events)
    ensures Fetched(server, limit, keep).Some?
    ensures var out := Fetched(server, limit, keep).value;
      && |out| <= limit
      && (x in out ==> Keeps(keep, x.ts) && Relayed(events, x))
      && (Relayed(events, x) && Keeps(keep, x.ts) && x !in out ==> |out| == limit)
      && (Relayed(events, x) && Keeps(keep, x.ts) && x !in out && y in out && Descending(Select(events, All)) ==>
            x.ts <= y.ts)
  {
    hide *;
    FetchedIs(server, limit, keep, n);
    var chosen := Select(events, keep);
    SelectedIff(events, keep, x);
    RelayedIs(events, x);
    ReverseMembers(Take(chosen, limit), x);
    ReverseMembers(Take(chosen, limit), y);
    TakeFacts(chosen, limit, x);
    if Descending(Select(events, All)) && x in chosen && x !in Take(chosen, limit) && y in Take(chosen, limit) {
      SelectDescending(events, keep);
      TakeOldest(chosen, limit, x, y);
    }
  }

  lemma RelayedIs(events: seq<Event>, x: Item)
    ensures Relayed(events, x) <==> exists e | e in events :: e.item == Some(x)
  {
  }

  lemma TakeFacts<T>(s: seq<T>, n: nat, x: T)
    ensures |Take(s, n)| <= n && (x in Take(s, n) ==> x in s)
    ensures |Take(s, n)| < n ==> Take(s, n) == s
  {
  }

  /** `latest`: nothing relayed is left out unless the limit is full. */
  lemma LatestIs(server: Server, limit: nat, n: nat, events: seq<Event>, x: Item)
    requires Asked(server, None, limit, All, [], 0) <= n <= MAX_PAGES && Timeline(server, None, n) == Some(events)
    ensures Fetched(server, limit, All).Some?
    ensures var out := Fetched(server, limit, All).value;
      && |out| <= limit
      && (|out| < limit ==> (x in out <==> Relayed(events, x)))
      && (x in out ==> Relayed(events, x))
  {
    hide Fetched, Asked, Timeline, Relayed;
    AnswerIs(server, limit, All, n, events, x, x);
  }

  /** `latest_since`: only times at or after the anchor, and all of them unless the limit is full. */
  lemma SinceIs(server: Server, limit: nat, ts: nat, n: nat, events: seq<Event>, x: Item)
    requires Asked(server, None, limit, Since(ts), [], 0) <= n <= MAX_PAGES
    requires Timeline(server, None, n) == Some(events)
    ensures Fetched(server, limit, Since(ts)).Some?
    ensures var out := Fetched(server, limit, Since(ts)).value;
      && |out| <= limit
      && (|out| < limit ==> (x in out <==> Relayed(events, x) && x.ts >= ts))
      && (x in out ==> Relayed(events, x) && x.ts >= ts)
  {
    hide Fetched, Asked, Timeline, Relayed;
    AnswerIs(server, limit, Since(ts), n, events, x, x);
  }

  /** `before_timestamp`: only times before the anchor, and all of them unless the limit is full. */
  lemma BeforeIs(server: Server, limit: nat, ts: nat, n: nat, events: seq<Event>, x: Item)
    requires Asked(server, None, limit, Before(ts), [], 0) <= n <= MAX_PAGES
    requires Timeline(server, None, n) == Some(events)
    ensures Fetched(server, limit, Before(ts)).Some?
    ensures var out := Fetched(server, limit, Before(ts)).value;
      && |out| <= limit
      && (|out| < limit ==> (x in out <==> Relayed(events, x) && x.ts < ts))
      && (x in out ==> Relayed(events, x) && x.ts < ts)
  {
    hide Fetched, Asked, Timeline, Relayed;
    AnswerIs(server, limit, Before(ts), n, events, x, x);
  }
}
