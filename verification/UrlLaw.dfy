/** What counts as a link in a line of IRC text, said with the two regular expressions, and what it becomes. */
module UrlLaw {
  import opened Strings
  import opened Entities
  import opened Links

  // ---------- runs ----------

  lemma {:induction false} RunIs(k: LinkClass, s: string, n: nat)
    ensures RunOf(k, s) == n
      <==> n <= |s| && (forall i | 0 <= i < n :: In(k, s[i])) && (n < |s| ==> !In(k, s[n]))
  {
    hide In;
    if s != "" && In(k, s[0]) {
      if n > 0 {
        RunIs(k, s[1..], n - 1);
        assert forall i | 0 < i < |s| :: s[i] == s[1..][i - 1];
      }
    }
  }

  // ---------- URLs ----------

  /** `mailto:` or `[a-z][a-z0-9]+://`, as the first `h` characters. */
  predicate UrlHead(s: string, h: nat) {
    || ("mailto:" <= s && h == 7)
    || (5 <= h <= |s| && 'a' <= s[0] <= 'z' && s[h - 3..h] == "://"
        && forall i | 0 <= i < h - 3 :: 'a' <= s[i] <= 'z' || '0' <= s[i] <= '9')
  }

  predicate AllSolid(s: string, n: nat)
    requires n <= |s|
  {
    (forall i | 0 <= i < n :: !IsWhite(s[i])) && (n < |s| ==> IsWhite(s[n]))
  }

  /** A URL is such a head, at least one more character, and everything up to the next blank. */
  lemma UrlAtIff(s: string, n: nat)
    requires n > 0
    ensures UrlAt(s) == n <==> n <= |s| && AllSolid(s, n) && exists h | 0 <= h < n :: UrlHead(s, h)
  {
    hide AllSolid, UrlHead;
    SolidIs(s, n);
    if UrlAt(s) == n {
      UrlHasHead(s);
    }
    forall h: nat | h < n && n <= |s| && AllSolid(s, n) && UrlHead(s, h)
      ensures UrlAt(s) == n
    {
      HeadIsUrl(s, h, n);
    }
  }

  lemma UrlHasHead(s: string)
    requires UrlAt(s) > 0
    ensures exists h | 0 <= h < UrlAt(s) :: UrlHead(s, h)
    ensures UrlAt(s) == RunOf(Solid, s)
  {
    hide UrlHead;
    SchemeHead(s);
    if "mailto:" <= s {
      MailHead(s);
    } else {
      assert UrlHead(s, RunOf(Scheme, s) + 3);
    }
  }

  lemma MailHead(s: string)
    requires "mailto:" <= s
    ensures UrlHead(s, 7)
  {
  }

  lemma HeadIsUrl(s: string, h: nat, n: nat)
    requires h < n && UrlHead(s, h) && RunOf(Solid, s) == n
    ensures UrlAt(s) == n
  {
    hide AllSolid;
    if "mailto:" <= s {
      if h < 7 {
        HeadNotMail(s, h);
      }
    } else {
      HeadScheme(s, h);
    }
  }

  /** A text that begins with `mailto:` begins with no other head. */
  lemma HeadNotMail(s: string, h: nat)
    requires "mailto:" <= s && UrlHead(s, h)
    ensures h >= 7
  {
    assert s[2] == "mailto:"[2] && s[3] == "mailto:"[3];
    if h != 7 {
      SchemeColon(s, h);
    }
  }

  lemma SchemeColon(s: string, h: nat)
    requires 5 <= h <= |s| && s[h - 3..h] == "://"
    ensures s[h - 3] == ':'
  {
    assert s[h - 3] == s[h - 3..h][0];
  }

  lemma SolidIs(s: string, n: nat)
    ensures RunOf(Solid, s) == n <==> n <= |s| && AllSolid(s, n)
  {
    RunIs(Solid, s, n);
  }

  lemma SchemeHead(s: string)
    ensures var r := RunOf(Scheme, s);
      r >= 2 && 'a' <= s[0] <= 'z' && "://" <= s[r..] ==> UrlHead(s, r + 3)
  {
    var r := RunOf(Scheme, s);
    RunIs(Scheme, s, r);
    if "://" <= s[r..] {
      assert s[r..][..3] == s[r..r + 3];
    }
  }

  lemma HeadScheme(s: string, h: nat)
    requires UrlHead(s, h) && !("mailto:" <= s)
    ensures RunOf(Scheme, s) == h - 3 && "://" <= s[h - 3..]
  {
    assert s[h - 3] == s[h - 3..h][0];
    RunIs(Scheme, s, h - 3);
    assert s[h - 3..][..3] == s[h - 3..h];
  }

  // ---------- what a URL becomes ----------

  predicate Closer(c: char) { c == '>' || c == ')' || c == '.' || c == ',' }

  /** Any closing punctuation at its end stays outside, and only that. */
  lemma {:induction false} TrimUrlIs(url: string, tail: string)
    requires url != "" ==> !Closer(url[|url| - 1])
    requires forall i | 0 <= i < |tail| :: Closer(tail[i])
    ensures TrimUrl(url + tail) == url
  {
    var s := url + tail;
    if tail != "" {
      assert s[|s| - 1] == tail[|tail| - 1] && Closer(tail[|tail| - 1]);
      assert s[..|s| - 1] == url + tail[..|tail| - 1];
      TrimUrlIs(url, tail[..|tail| - 1]);
    } else {
      assert s == url;
    }
  }

  lemma AnchorIs(url: string, tail: string)
    requires url != "" ==> !Closer(url[|url| - 1])
    requires forall i | 0 <= i < |tail| :: Closer(tail[i])
    ensures Anchor(url + tail) == "<a href=\"" + Escape(url) + "\">" + Escape(url) + "</a>" + tail
  {
    hide TrimUrl;
    TrimUrlIs(url, tail);
    EscapeIsMap(url);
    assert (url + tail)[|url|..] == tail;
  }

  /** Where no URL starts, a line is only escaped; the first URL from there on is linked, and the rest of the
      line is treated in the same way. */
  lemma {:induction false} FirstUrl(before: string, url: string, tail: string, rest: string)
    requires forall i | 0 <= i < |before| :: UrlAt((before + ((url + tail) + rest))[i..]) == 0
    requires url + tail != "" && UrlAt((url + tail) + rest) == |url + tail|
    requires url != "" ==> !Closer(url[|url| - 1])
    requires forall i | 0 <= i < |tail| :: Closer(tail[i])
    ensures LinkUrls(before + ((url + tail) + rest))
      == Escape(before) + ("<a href=\"" + Escape(url) + "\">" + Escape(url) + "</a>" + tail + LinkUrls(rest))
    decreases |before|
  {
    hide UrlAt, Escape, EscapeChar, Anchor;
    var found := (url + tail) + rest;
    var line := before + found;
    if before == "" {
      assert line == found && found[..|url + tail|] == url + tail && found[|url + tail|..] == rest;
      AnchorIs(url, tail);
      EscapeNothing(LinkUrls(line));
    } else {
      assert line[0..] == line && line[1..] == before[1..] + found;
      assert forall i | 0 <= i < |before[1..]| :: line[1..][i..] == line[i + 1..];
      FirstUrl(before[1..], url, tail, rest);
      EscapeCons(before);
      Assoc(EscapeChar(before[0]), Escape(before[1..]),
        "<a href=\"" + Escape(url) + "\">" + Escape(url) + "</a>" + tail + LinkUrls(rest));
    }
  }

  lemma EscapeCons(s: string)
    requires s != ""
    ensures Escape(s) == EscapeChar(s[0]) + Escape(s[1..])
  {
  }

  // ---------- user ids ----------

  predicate AlphaNum(c: char) { 'a' <= c <= 'z' || 'A' <= c <= 'Z' || '0' <= c <= '9' }

  predicate LocalChar(c: char) {
    AlphaNum(c) || c == '.' || c == '_' || c == '=' || c == '/' || c == '-'
  }

  predicate DomainChar(c: char) { AlphaNum(c) || c == '.' || c == '-' }

  /** `@?[a-zA-Z0-9._=/-]+:[A-Za-z0-9.\-]+` with the colon at `c`, over the first `n` characters, and no more. */
  predicate UserId(s: string, c: nat, n: nat) {
    var at := Sigil(s);
    && at < c && c + 1 < n <= |s| && s[c] == ':'
    && (forall i | at <= i < c :: LocalChar(s[i]))
    && (forall i | c < i < n :: DomainChar(s[i]))
    && (n < |s| ==> !DomainChar(s[n]))
  }

  lemma UserIdIff(s: string, n: nat)
    requires n > 0
    ensures UserIdAt(s) == n <==> exists c: nat | c < n :: UserId(s, c, n)
  {
    hide UserId;
    var at := Sigil(s);
    var c := at + RunOf(Local, s[at..]);
    if c < |s| && s[c] == ':' {
      UserIdRuns(s, c, n);
    }
    forall c': nat | c' < n && UserId(s, c', n)
      ensures c' == c && c < |s| && s[c] == ':'
    {
      ColonIs(s, c', n);
    }
  }

  function Sigil(s: string): (at: nat)
    ensures at <= |s|
  {
    if s != "" && s[0] == '@' then 1 else 0
  }

  lemma UserIdRuns(s: string, c: nat, n: nat)
    requires c == Sigil(s) + RunOf(Local, s[Sigil(s)..]) && c < |s| && s[c] == ':'
    ensures UserId(s, c, n) <==> Sigil(s) < c && c + 1 < n && n == c + 1 + RunOf(Domain, s[c + 1..])
  {
    hide RunOf, LocalChar, DomainChar;
    LocalRun(s, Sigil(s), c);
    if n > c {
      DomainRun(s, c + 1, n);
    }
  }

  lemma LocalRun(s: string, at: nat, c: nat)
    requires at <= c <= |s|
    ensures RunOf(Local, s[at..]) == c - at
      <==> (forall i | at <= i < c :: LocalChar(s[i])) && (c < |s| ==> !LocalChar(s[c]))
  {
    var rest := s[at..];
    RunIs(Local, rest, c - at);
    assert forall i | 0 <= i < |rest| :: rest[i] == s[at + i];
    assert forall i | at <= i < |s| :: s[i] == rest[i - at];
    LinkChars();
  }

  lemma DomainRun(s: string, at: nat, n: nat)
    requires at <= n && at <= |s|
    ensures RunOf(Domain, s[at..]) == n - at
      <==> n <= |s| && (forall i | at <= i < n :: DomainChar(s[i])) && (n < |s| ==> !DomainChar(s[n]))
  {
    var rest := s[at..];
    RunIs(Domain, rest, n - at);
    assert forall i | 0 <= i < |rest| :: rest[i] == s[at + i];
    assert forall i | at <= i < |s| :: s[i] == rest[i - at];
    LinkChars();
  }

  lemma LinkChars()
    ensures forall c :: In(Local, c) <==> LocalChar(c)
    ensures forall c :: In(Domain, c) <==> DomainChar(c)
  {
  }

  lemma ColonIs(s: string, c: nat, n: nat)
    requires UserId(s, c, n)
    ensures c < |s| && c == Sigil(s) + RunOf(Local, s[Sigil(s)..]) && s[c] == ':'
  {
    hide RunOf, DomainChar;
    LocalRun(s, Sigil(s), c);
  }

  /** A member's user id is linked to its permalink, shown as its local part, with or without its sigil; any
      other is left alone. */
  lemma MentionIs(local: string, domain: string, nicks: seq<string>)
    requires local != "" && forall i | 0 <= i < |local| :: LocalChar(local[i])
    ensures var bare := local + (":" + domain);
      var link := "<a href=\"https://matrix.to/#/@" + local + "%3A" + domain + "\">" + local + "</a>";
      && Mention("@" + bare, nicks) == (if "@" + bare in nicks then link else "@" + bare)
      && Mention(bare, nicks) == (if "@" + bare in nicks then link else bare)
  {
    hide Mention;
    var bare := local + (":" + domain);
    var user := "@" + bare;
    assert bare[0] == local[0] && local[0] != '@' by { assert LocalChar(local[0]); }
    assert user == ("@" + local) + ([':'] + domain);
    ColonFree(local);
    FindAt(Only(':'), "@" + local, ':', domain);
    SigilTrimmed(local);
    LocalPlain(local);
    MentionOf(user, user, local, domain, nicks);
    MentionOf(bare, user, local, domain, nicks);
  }

  lemma MentionOf(id: string, user: string, local: string, domain: string, nicks: seq<string>)
    requires user == if id != "" && id[0] == '@' then id else "@" + id
    requires Find(Only(':'), user) == |"@" + local| < |user|
    requires user[..|"@" + local|] == "@" + local && user[|"@" + local| + 1..] == domain
    requires TrimStart(Only('@'), "@" + local) == local && EscapeHtml(local) == local
    ensures Mention(id, nicks) == if user in nicks
      then "<a href=\"https://matrix.to/#/@" + local + "%3A" + domain + "\">" + local + "</a>" else id
  {
    hide Find, TrimStart, EscapeHtml;
  }

  lemma ColonFree(local: string)
    requires forall i | 0 <= i < |local| :: LocalChar(local[i])
    ensures Free(Only(':'), "@" + local)
  {
  }

  lemma SigilTrimmed(local: string)
    requires local != "" && LocalChar(local[0])
    ensures TrimStart(Only('@'), "@" + local) == local
  {
    assert ("@" + local)[1..] == local;
    TrimStartIdle(Only('@'), local);
  }

  lemma {:induction false} LocalPlain(local: string)
    requires forall i | 0 <= i < |local| :: LocalChar(local[i])
    ensures EscapeHtml(local) == local
  {
    hide Replace;
    ReplaceIdle(local, '&', "&amp;");
    ReplaceIdle(local, '<', "&lt;");
    ReplaceIdle(local, '>', "&gt;");
  }

  /** Where no user id starts, the HTML is kept; the first one from there on is looked up, and the rest is
      treated in the same way. */
  lemma {:induction false} FirstUserId(before: string, id: string, rest: string, nicks: seq<string>)
    requires forall i | 0 <= i < |before| :: UserIdAt((before + (id + rest))[i..]) == 0
    requires id != "" && UserIdAt(id + rest) == |id|
    ensures LinkNicks(before + (id + rest), nicks) == before + (Mention(id, nicks) + LinkNicks(rest, nicks))
    decreases |before|
  {
    hide UserIdAt, Mention, LinkNicks;
    var html := before + (id + rest);
    NicksTurn(html, nicks);
    if before == "" {
      assert html == id + rest && html[..|id|] == id && html[|id|..] == rest;
    } else {
      assert html[0..] == html && html[1..] == before[1..] + (id + rest);
      assert forall i | 0 <= i < |before[1..]| :: html[1..][i..] == html[i + 1..];
      FirstUserId(before[1..], id, rest, nicks);
      assert [before[0]] + before[1..] == before;
      Assoc([before[0]], before[1..], Mention(id, nicks) + LinkNicks(rest, nicks));
    }
  }
}
