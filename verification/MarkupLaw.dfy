/** How `parse_html` reads what stands between `<` and `>`: tags in any case, attributes in all their forms,
    and comments. */
module MarkupLaw {
  import opened Strings
  import opened Entities
  import opened Html
  import opened HtmlPrint

  /** A name the attribute reader stops behind. */
  predicate AttrName(k: string) {
    k != "" && Free(WhiteOr('='), k)
  }

  lemma {:induction false} BlanksTrimmed(w: string, s: string)
    requires AllMatch(White, w) && Trimmed(s)
    ensures TrimStart(White, w + s) == s
  {
    if w == "" {
      assert w + s == s;
      TrimStartIdle(White, s);
    } else {
      assert (w + s)[1..] == w[1..] + s && Matches(White, w[0]);
      BlanksTrimmed(w[1..], s);
    }
  }

  /** The name ends at the first blank or `=`. */
  lemma NameCut(k: string, w: string, s: string)
    requires AttrName(k) && AllMatch(White, w) && Trimmed(s) && (w != "" || s == "" || s[0] == '=')
    ensures var rest := k + (w + s);
      var n := Find(WhiteOr('='), rest);
      n == |k| && rest[..n] == k && TrimStart(White, rest[n..]) == s && Trimmed(rest)
  {
    hide TrimStart, Find;
    var rest := k + (w + s);
    assert !Matches(WhiteOr('='), k[0]) && rest[0] == k[0];
    assert w != "" ==> Matches(White, w[0]) && (w + s)[0] == w[0];
    FindSkip(WhiteOr('='), k, w + s);
    StopsHere(w + s);
    BlanksTrimmed(w, s);
    assert rest[|k|..] == w + s;
  }

  lemma StopsHere(s: string)
    requires s == "" || IsWhite(s[0]) || s[0] == '='
    ensures Find(WhiteOr('='), s) == 0
  {
  }

  lemma StartsTrimmed(s: string)
    ensures Trimmed(TrimStart(White, s))
  {
  }

  lemma AttrsTurn(rest: string)
    requires rest != "" && Trimmed(rest)
    ensures var (name, value, left) := AttrStep(rest);
      AttrsFrom(rest) == MakeAttr(name, value) + AttrsFrom(left)
  {
    hide AttrStep;
  }

  lemma NamedAttr(k: string, v: string)
    requires k != ""
    ensures MakeAttr(k, v) == [Attr(Lower(k), Decode(v))]
  {
  }

  /** A quoted value runs to the next quote, blanks around the `=` do not matter, the name is put in lower case
      and the value decoded. */
  lemma QuotedAttr(k: string, w: string, u: string, v: string, rest: string)
    requires AttrName(k) && AllMatch(White, w) && AllMatch(White, u) && Free(Only('"'), v)
    ensures var s := k + (w + ("=" + (u + ("\"" + (v + ("\"" + rest))))));
      && Trimmed(s) && Trimmed(TrimStart(White, rest))
      && AttrsFrom(s) == [Attr(Lower(k), Decode(v))] + AttrsFrom(TrimStart(White, rest))
  {
    hide TrimStart, Find, MakeAttr, Lower, Decode, AttrsFrom;
    var quoted := v + ("\"" + rest);
    var tail := "=" + (u + ("\"" + quoted));
    NameCut(k, w, tail);
    assert tail[1..] == u + ("\"" + quoted);
    BlanksTrimmed(u, "\"" + quoted);
    assert ("\"" + quoted)[1..] == quoted;
    FindAt(Only('"'), v, '"', rest);
    StartsTrimmed(rest);
    AttrsTurn(k + (w + tail));
    NamedAttr(k, v);
  }

  /** An unquoted value runs to the next blank. */
  lemma UnquotedAttr(k: string, w: string, u: string, v: string, rest: string)
    requires AttrName(k) && AllMatch(White, w) && AllMatch(White, u)
    requires v != "" && v[0] != '"' && Free(White, v) && (rest != "" ==> IsWhite(rest[0]))
    ensures var s := k + (w + ("=" + (u + (v + rest))));
      && Trimmed(s) && Trimmed(TrimStart(White, rest))
      && AttrsFrom(s) == [Attr(Lower(k), Decode(v))] + AttrsFrom(TrimStart(White, rest))
  {
    hide TrimStart, Find, MakeAttr, Lower, Decode, AttrsFrom;
    var value := v + rest;
    var tail := "=" + (u + value);
    NameCut(k, w, tail);
    assert tail[1..] == u + value;
    assert !Matches(White, v[0]) && value[0] == v[0];
    BlanksTrimmed(u, value);
    FindSkip(White, v, rest);
    FindWhiteHead(rest);
    assert value[..|v|] == v && value[|v|..] == rest;
    StartsTrimmed(rest);
    AttrsTurn(k + (w + tail));
    NamedAttr(k, v);
  }

  /** A name without a value has the empty one. */
  lemma BareAttr(k: string, w: string, rest: string)
    requires AttrName(k) && AllMatch(White, w) && Trimmed(rest)
    requires if rest == "" then true else w != "" && rest[0] != '='
    ensures Trimmed(k + (w + rest)) && AttrsFrom(k + (w + rest)) == [Attr(Lower(k), "")] + AttrsFrom(rest)
  {
    hide TrimStart, Find, MakeAttr, Lower, Decode, AttrsFrom;
    NameCut(k, w, rest);
    AttrsTurn(k + (w + rest));
    NamedAttr(k, "");
    DecodePlain("");
  }

  /** A value without a name is dropped. */
  lemma NamelessAttr(v: string, rest: string)
    requires Free(Only('"'), v)
    ensures var s := "=" + ("\"" + (v + ("\"" + rest)));
      Trimmed(s) && Trimmed(TrimStart(White, rest)) && AttrsFrom(s) == AttrsFrom(TrimStart(White, rest))
  {
    hide Find, AttrsFrom, TrimStart;
    var quoted := v + ("\"" + rest);
    var s := "=" + ("\"" + quoted);
    StopsHere(s);
    assert s[0..] == s && s[1..] == "\"" + quoted && ("\"" + quoted)[1..] == quoted;
    TrimStartIdle(White, s);
    TrimStartIdle(White, "\"" + quoted);
    FindAt(Only('"'), v, '"', rest);
    StartsTrimmed(rest);
    AttrsTurn(s);
    var left := TrimStart(White, rest);
    assert [] + AttrsFrom(left) == AttrsFrom(left);
  }

  // ---------- tags ----------

  predicate TagName(n: string) {
    n != "" && Free(White, n) && n[0] != '/' && n[|n| - 1] != '/'
  }

  lemma NameAlone(n: string)
    requires TagName(n)
    ensures TrimStart(Only('/'), n) == n && TrimEnd(Only('/'), n) == n && Trim(n) == n
    ensures Find(White, n) == |n| && n[..|n|] == n
  {
    TrimStartIdle(Only('/'), n);
    TrimEndIdle(Only('/'), n);
    assert !Matches(White, n[0]) && !Matches(White, n[|n| - 1]);
    TrimIdle(n);
    FindSkip(White, n, "");
    assert n + "" == n;
  }

  /** A tag opens, closes or does both by where its slash is, and its name is put in lower case. */
  lemma TagKinds(n: string)
    requires TagName(n)
    ensures ReadTag(n) == (Opening, Lower(n), [])
    ensures ReadTag("/" + n) == (Closing, Lower(n), [])
    ensures ReadTag(n + "/") == (SelfClosing, Lower(n), [])
    ensures ReadTag("/" + n + "/") == (Closing, Lower(n), [])
  {
    hide TrimStart, TrimEnd, Trim, Find, Lower, ParseAttrs;
    NameAlone(n);
    SlashFront(n);
    SlashFront(n + "/");
    SlashBack(n);
    TrimStartIdle(Only('/'), n + "/");
    assert "/" + n + "/" == "/" + (n + "/");
  }

  lemma SlashFront(s: string)
    requires s != "" && s[0] != '/'
    ensures TrimStart(Only('/'), "/" + s) == s
  {
    assert ("/" + s)[1..] == s;
    TrimStartIdle(Only('/'), s);
  }

  lemma SlashBack(s: string)
    requires s != "" && s[|s| - 1] != '/'
    ensures TrimEnd(Only('/'), s + "/") == s
  {
    assert (s + "/")[..|s|] == s;
    TrimEndIdle(Only('/'), s);
  }

  /** What stands behind the name are its attributes. */
  lemma TagWithAttrs(n: string, attrs: string)
    requires TagName(n) && attrs != "" && IsWhite(attrs[0])
    requires attrs[|attrs| - 1] != '/' && !IsWhite(attrs[|attrs| - 1])
    ensures ReadTag(n + attrs) == (Opening, Lower(n), ParseAttrs(attrs))
    ensures ReadTag(n + attrs + "/") == (SelfClosing, Lower(n), ParseAttrs(attrs))
  {
    hide TrimStart, TrimEnd, Trim, Find, Lower, ParseAttrs;
    var inner := n + attrs;
    assert !Matches(White, n[0]) && inner[0] == n[0] && inner[|inner| - 1] == attrs[|attrs| - 1];
    TrimStartIdle(Only('/'), inner);
    TrimStartIdle(Only('/'), inner + "/");
    TrimEndIdle(Only('/'), inner);
    SlashBack(inner);
    TrimIdle(inner);
    FindSkip(White, n, attrs);
    FindWhiteHead(attrs);
    assert inner[..|n|] == n && inner[|n|..] == attrs;
  }

  // ---------- comments and unfinished tags ----------

  lemma {:induction false} FindSubAt(a: string, p: string, b: string)
    requires p != "" && forall i | 0 <= i < |a| :: !(p <= (a + (p + b))[i..])
    ensures FindSub(a + (p + b), p) == |a|
    decreases |a|
  {
    var s := a + (p + b);
    assert s[0..] == s;
    if a == "" {
      assert s == p + b;
    } else {
      assert s[1..] == a[1..] + (p + b);
      assert forall i | 0 <= i < |a[1..]| :: s[1..][i..] == s[i + 1..];
      FindSubAt(a[1..], p, b);
    }
  }

  /** A comment reaches to the first `-->` and becomes a node of its own. */
  lemma CommentRead(c: string, rest: string, b: Builder)
    requires forall i | 0 <= i < |"<!--" + c| :: !("-->" <= (("<!--" + c) + ("-->" + rest))[i..])
    ensures Consume(("<!--" + c) + ("-->" + rest), b) == Consume(rest, Append(Flush(b), [Comment]))
  {
    hide Flush, Append, FindSub, Consume;
    var s := ("<!--" + c) + ("-->" + rest);
    FindSubAt("<!--" + c, "-->", rest);
    assert "<!--" <= s && s[|"<!--" + c| + 3..] == rest;
    MarkupTurn(s, b);
  }

  /** A tag that never ends is dropped with everything behind it, and the text in front of it is kept. */
  lemma UnfinishedTag(u: string, b: Builder)
    requires Free(Only('>'), u) && (u != "" ==> u[0] != '!')
    ensures Consume("<" + u, b) == b
  {
    hide Consume, Find;
    var s := "<" + u;
    FindSkip(Only('>'), s, "");
    assert s + "" == s;
    NothingFound();
    assert u != "" ==> s[1] == u[0];
    MarkupTurn(s, b);
  }

  lemma NothingFound()
    ensures Find(Only('>'), "") == 0
  {
  }
}
