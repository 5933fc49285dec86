/** Links in a line of IRC text: the URL and user id passes of `linkified_html`. */
module Links {
  import opened Strings
  import opened Entities

  // ---------- the two expressions ----------

  /** The character classes of the two regular expressions. */
  datatype LinkClass = Scheme | Solid | Local | Domain

  predicate Letter(c: char) { 'a' <= c <= 'z' || 'A' <= c <= 'Z' }

  predicate In(k: LinkClass, c: char) {
    match k
    case Scheme => 'a' <= c <= 'z' || IsDigit(c)
    case Solid => !IsWhite(c)
    case Local => Letter(c) || IsDigit(c) || c in "._=/-"
    case Domain => Letter(c) || IsDigit(c) || c in ".-"
  }

  /** How many characters at the head of the string are in the class. */
  function RunOf(k: LinkClass, s: string): (n: nat)
    ensures n <= |s|
  {
    if s == "" || !In(k, s[0]) then 0 else 1 + RunOf(k, s[1..])
  }

  /** The length of a URL at the head of the string, 0 if there is none: `mailto:` or a scheme with
      `://`, at least one more character, and on to the next blank. */
  function UrlAt(s: string): (n: nat)
    ensures n <= |s|
    ensures n > 0 ==> 'a' <= s[0] <= 'z'
  {
    var all := RunOf(Solid, s);
    if "mailto:" <= s then (if all > 7 then all else 0)
    else
      var n := RunOf(Scheme, s);
      if n >= 2 && 'a' <= s[0] <= 'z' && "://" <= s[n..] && all > n + 3 then all else 0
  }

  /** The length of a user id at the head of the string, 0 if there is none. */
  function UserIdAt(s: string): (n: nat)
    ensures n <= |s|
    ensures n > 0 ==> Find(Only(':'), s[..n]) < n
  {
    var k := if s != "" && s[0] == '@' then 1 else 0;
    var n := RunOf(Local, s[k..]);
    if n >= 1 && k + n < |s| && s[k + n] == ':' && RunOf(Domain, s[k + n + 1..]) >= 1 then
      var len := k + n + 1 + RunOf(Domain, s[k + n + 1..]);
      ColonFound(s[..len], k + n);
      len
    else 0
  }

  lemma {:induction false} ColonFound(s: string, i: nat)
    requires i < |s| && s[i] == ':'
    ensures Find(Only(':'), s) < |s|
  {
    FindFirst(Only(':'), s);
    if Find(Only(':'), s) == |s| {
      NoneFound(':', s);
    }
  }

  // ---------- the URL pass ----------

  /** Closing punctuation stays outside the link. */
  function TrimUrl(url: string): (r: string)
    ensures r <= url
    ensures url != "" && 'a' <= url[0] <= 'z' ==> r != ""
  {
    if url != "" && url[|url| - 1] in ">).," then TrimUrl(url[..|url| - 1]) else url
  }

  function Anchor(url: string): string {
    var t := TrimUrl(url);
    var e := EscapeHtml(t);
    "<a href=\"" + e + "\">" + e + "</a>" + url[|t|..]
  }

  /** The line escaped, with its URLs linked, leftmost first. */
  function LinkUrls(line: string): string
    decreases |line|
  {
    if line == "" then ""
    else
      var n := UrlAt(line);
      if n > 0 then Anchor(line[..n]) + LinkUrls(line[n..]) else EscapeChar(line[0]) + LinkUrls(line[1..])
  }

  /** The loop over the URLs of a line. */
  method LinkLine(line: string) returns (html: string)
    ensures html == LinkUrls(line)
  {
    hide UrlAt, Anchor, EscapeHtml, EscapeChar, Escape;
    html := "";
    var last, i := 0, 0;
    EscapeNothing(LinkUrls(line));
    assert line[0..0] == "" && line[0..] == line;
    assert "" + LinkUrls(line) == LinkUrls(line);
    while i < |line|
      invariant last <= i <= |line|
      invariant LinkUrls(line) == html + (Escape(line[last..i]) + LinkUrls(line[i..]))
    {
      var n := UrlAt(line[i..]);
      var before := line[last..i];
      EscapeIsMap(before);
      if n > 0 {
        var url := line[i..][..n];
        Suffix(line, i, n);
        var rest := LinkUrls(line[i + n..]);
        Assoc(html, Escape(before), Anchor(url) + rest);
        Assoc(html + Escape(before), Anchor(url), rest);
        html := html + EscapeHtml(before);
        html := html + Anchor(url);
        i := i + n;
        last := i;
        EscapeNothing(rest);
        assert line[last..i] == "";
      } else {
        Suffix(line, i, 1);
        var rest := LinkUrls(line[i + 1..]);
        EscapeOne(before, line[i]);
        Assoc(Escape(before), EscapeChar(line[i]), rest);
        assert line[last..i + 1] == before + [line[i]];
        i := i + 1;
      }
    }
    EscapeIsMap(line[last..]);
    assert line[last..i] == line[last..] && line[i..] == "";
    html := html + EscapeHtml(line[last..]);
    assert Escape(line[last..]) + "" == Escape(line[last..]);
  }

  lemma EscapeNothing(rest: string)
    ensures Escape("") == "" && Escape("") + rest == rest
  {
  }

  lemma EscapeOne(a: string, c: char)
    ensures Escape(a + [c]) == Escape(a) + EscapeChar(c)
  {
    EscapeConcat(a, [c]);
    assert [c][1..] == "" && EscapeChar(c) + "" == EscapeChar(c);
  }

  // ---------- the user id pass ----------

  /** What a user id in the HTML becomes: a link if it is on the nick list. */
  function Mention(id: string, nicks: seq<string>): string {
    var user := if id != "" && id[0] == '@' then id else "@" + id;
    if user !in nicks then id
    else
      var c := Find(Only(':'), user);
      var local := TrimStart(Only('@'), user[..c]);
      var domain := if c < |user| then user[c + 1..] else "";
      "<a href=\"https://matrix.to/#/@" + local + "%3A" + domain + "\">" + EscapeHtml(local) + "</a>"
  }

  function LinkNicks(html: string, nicks: seq<string>): string
    decreases |html|
  {
    if html == "" then ""
    else
      var n := UserIdAt(html);
      if n > 0 then Mention(html[..n], nicks) + LinkNicks(html[n..], nicks)
      else [html[0]] + LinkNicks(html[1..], nicks)
  }

  lemma NicksTurn(s: string, nicks: seq<string>)
    ensures s == "" ==> LinkNicks(s, nicks) == ""
    ensures s != "" && UserIdAt(s) > 0 ==>
      LinkNicks(s, nicks) == Mention(s[..UserIdAt(s)], nicks) + LinkNicks(s[UserIdAt(s)..], nicks)
    ensures s != "" && UserIdAt(s) == 0 ==> LinkNicks(s, nicks) == [s[0]] + LinkNicks(s[1..], nicks)
  {
    hide UserIdAt, Mention;
  }

  /** The loop over the user ids of the HTML. */
  method LinkMentions(html: string, nicks: seq<string>) returns (out: string)
    ensures out == LinkNicks(html, nicks)
  {
    hide UserIdAt, Mention, LinkNicks;
    out := "";
    var last, i := 0, 0;
    assert html[0..0] == "" && html[0..] == html;
    assert "" + LinkNicks(html, nicks) == LinkNicks(html, nicks);
    while i < |html|
      invariant last <= i <= |html|
      invariant LinkNicks(html, nicks) == out + (html[last..i] + LinkNicks(html[i..], nicks))
    {
      var n := UserIdAt(html[i..]);
      var before := html[last..i];
      NicksTurn(html[i..], nicks);
      if n > 0 {
        var id := html[i..][..n];
        Suffix(html, i, n);
        var rest := LinkNicks(html[i + n..], nicks);
        Assoc(out, before, Mention(id, nicks) + rest);
        Assoc(out + before, Mention(id, nicks), rest);
        out := out + before;
        out := out + Mention(id, nicks);
        i := i + n;
        last := i;
        assert html[last..i] + rest == rest;
      } else {
        Suffix(html, i, 1);
        Assoc(before, [html[i]], LinkNicks(html[i + 1..], nicks));
        assert html[last..i + 1] == before + [html[i]];
        i := i + 1;
      }
    }
    NicksTurn("", nicks);
    assert html[last..i] == html[last..] && html[i..] == "";
    assert html[last..] + "" == html[last..];
    out := out + html[last..];
  }

  /** With an empty nick list nothing is mentioned. */
  lemma {:induction false} NoNicksNoMention(html: string)
    ensures LinkNicks(html, []) == html
    decreases |html|
  {
    hide UserIdAt;
    if html != "" {
      var n := UserIdAt(html);
      if n > 0 {
        NoNicksNoMention(html[n..]);
        Glue(html, n);
      } else {
        NoNicksNoMention(html[1..]);
      }
    }
  }

  // ---------- texts without links ----------

  /** A text in which neither alternative of the URL expression can match. */
  predicate LinkFree(s: string) {
    forall i | 0 <= i <= |s| :: !("mailto:" <= s[i..]) && !("://" <= s[i..])
  }

  lemma LinkFreePart(s: string, i: nat, j: nat)
    requires LinkFree(s) && i <= j <= |s|
    ensures LinkFree(s[i..j])
  {
    var t := s[i..j];
    forall k | 0 <= k <= |t|
      ensures !("mailto:" <= t[k..]) && !("://" <= t[k..])
    {
      assert t[k..] <= s[i + k..];
    }
  }

  /** A text stays link-free behind characters that start no link. */
  lemma LinkFreeBehind(p: string, t: string)
    requires LinkFree(t) && Free(Only('m'), p) && Free(Only(':'), p)
    ensures LinkFree(p + t)
  {
    var s := p + t;
    forall k | 0 <= k <= |s|
      ensures !("mailto:" <= s[k..]) && !("://" <= s[k..])
    {
      if k < |p| {
        assert s[k..][0] == p[k];
      } else {
        assert s[k..] == t[k - |p|..];
      }
    }
  }

  lemma NoUrlHere(s: string)
    requires LinkFree(s)
    ensures UrlAt(s) == 0
  {
    assert s[0..] == s;
    var n := RunOf(Scheme, s);
    assert !("://" <= s[n..]);
  }

  /** A link-free line is only escaped. */
  lemma {:induction false} LinkFreeEscapes(line: string)
    requires LinkFree(line)
    ensures LinkUrls(line) == Escape(line)
  {
    hide UrlAt, LinkFree, EscapeChar;
    if line != "" {
      NoUrlHere(line);
      LinkFreePart(line, 1, |line|);
      assert line[1..|line|] == line[1..];
      LinkFreeEscapes(line[1..]);
    }
  }
}
