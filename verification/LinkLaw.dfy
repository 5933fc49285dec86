/** Linking the URLs of a line changes no text. */
module LinkLaw {
  import opened Strings
  import opened Entities
  import opened Html
  import opened HtmlText
  import opened Links

  /** Text that decodes on its own, whatever comes behind it. */
  ghost predicate Decodes(p: string, q: string) {
    forall r: string :: Decode(p + r) == q + Decode(r)
  }

  lemma DecodesConcat(p: string, q: string, p': string, q': string)
    requires Decodes(p, q) && Decodes(p', q')
    ensures Decodes(p + p', q + q')
  {
    hide Decode;
    forall r: string
      ensures Decode((p + p') + r) == (q + q') + Decode(r)
    {
      Assoc(p, p', r);
      Assoc(q, q', Decode(r));
    }
  }

  lemma DecodesChar(c: char)
    ensures Decodes(EscapeChar(c), [c])
  {
    hide Decode, EscapeChar;
    forall r: string
      ensures Decode(EscapeChar(c) + r) == [c] + Decode(r)
    {
      DecodeEscapedChar(c, r);
    }
  }

  lemma DecodesPlain(p: string)
    requires Free(Only('&'), p)
    ensures Decodes(p, p)
  {
    hide Decode;
    forall r: string
      ensures Decode(p + r) == p + Decode(r)
    {
      DecodeSkip(p, r);
    }
  }

  lemma DecodesAlone(p: string, q: string)
    requires Decodes(p, q)
    ensures Decode(p) == q
  {
    hide Decode;
    assert p + "" == p && Decode(p + "") == q + Decode("");
    DecodePlain("");
    assert q + "" == q;
  }

  /** A run of text in front of a tag. */
  lemma SoupRun(p: string, q: string, rest: string)
    requires Free(Only('<'), p) && Decodes(p, q) && rest != "" && rest[0] == '<'
    ensures SoupText(p + rest) == q + SoupText(rest)
  {
    hide Decode, MarkupEnd;
    DecodesAlone(p, q);
    DecodePlain("");
    if p == "" {
      assert p + rest == rest && q + SoupText(rest) == SoupText(rest);
    } else {
      FindAt(Only('<'), p, '<', rest[1..]);
      assert ['<'] + rest[1..] == rest;
      assert (p + rest)[0] == p[0] && !Matches(Only('<'), p[0]);
      assert (p + rest)[..|p|] == p && (p + rest)[|p|..] == rest;
    }
  }

  lemma SoupTail(p: string, q: string)
    requires Free(Only('<'), p) && Decodes(p, q)
    ensures SoupText(p) == q
  {
    hide Decode, MarkupEnd;
    DecodesAlone(p, q);
    DecodePlain("");
    if p != "" {
      FindSkip(Only('<'), p, "");
      assert p + "" == p && !Matches(Only('<'), p[0]);
      assert p[..|p|] == p && p[|p|..] == "";
      assert q + "" == q;
    }
  }

  lemma SoupTag(inner: string, rest: string)
    requires inner != "" && inner[0] != '!' && Free(Only('>'), inner)
    ensures SoupText("<" + (inner + (">" + rest))) == SoupText(rest)
  {
    hide Decode;
    var s := "<" + (inner + (">" + rest));
    FindAt(Only('>'), "<" + inner, '>', rest);
    assert s == ("<" + inner) + (['>'] + rest);
    assert s[1] == inner[0] && !("<!--" <= s);
    assert s[|inner| + 2..] == rest;
  }

  lemma TrimmedTail(url: string)
    ensures var tail := url[|TrimUrl(url)|..]; Free(Only('<'), tail) && Free(Only('&'), tail)
  {
    if url != "" && url[|url| - 1] in ">).," {
      var less := url[..|url| - 1];
      TrimmedTail(less);
      var tail := url[|TrimUrl(url)|..];
      assert tail == less[|TrimUrl(less)|..] + [url[|url| - 1]];
    }
  }

  /** What a link shows is its URL. */
  lemma SoupAnchor(url: string, p: string, q: string, rest: string)
    requires url != "" && 'a' <= url[0] <= 'z' && Free(Only('<'), p) && Decodes(p, q)
    ensures SoupText(p + (Anchor(url) + rest))
      == (q + TrimUrl(url)) + SoupText(url[|TrimUrl(url)|..] + rest)
  {
    hide Decode, SoupText, EscapeHtml, Escape, TrimUrl, Free, Decodes;
    var t := TrimUrl(url);
    var e, tail := Escape(t), url[|TrimUrl(url)|..] + rest;
    EscapeIsMap(t);
    var inner := "a href=\"" + (e + "\"");
    var close := "<" + ("/a" + (">" + tail));
    var body := e + close;
    assert Anchor(url) + rest == "<" + (inner + (">" + body));
    TagParts(e);
    SoupRun(p, q, "<" + (inner + (">" + body)));
    SoupTag(inner, body);
    EscapeDecodes(t);
    SoupRun(e, t, close);
    SoupTag("/a", tail);
    Assoc(q, t, SoupText(tail));
  }

  lemma TagParts(e: string)
    requires Free(Only('>'), e)
    ensures Free(Only('>'), "a href=\"" + (e + "\"")) && Free(Only('>'), "/a")
  {
    FreeConcat(Only('>'), e, "\"");
    FreeConcat(Only('>'), "a href=\"", e + "\"");
  }

  lemma {:induction false} EscapeDecodes(t: string)
    ensures Decodes(Escape(t), t)
  {
    hide Decodes, EscapeChar;
    if t == "" {
      DecodesPlain("");
    } else {
      EscapeDecodes(t[1..]);
      DecodesChar(t[0]);
      DecodesConcat(EscapeChar(t[0]), [t[0]], Escape(t[1..]), t[1..]);
      assert [t[0]] + t[1..] == t;
    }
  }

  /** The text outside the tags of a linked line, with text pending in front of it. */
  lemma {:induction false} LinkSoup(line: string, p: string, q: string)
    requires Free(Only('<'), p) && Decodes(p, q)
    ensures SoupText(p + LinkUrls(line)) == q + line
    decreases |line|
  {
    hide SoupText, UrlAt, Decodes, EscapeChar, Anchor, TrimUrl, Free;
    if line == "" {
      SoupTail(p, q);
      assert p + "" == p && q + "" == q;
    } else {
      var n := UrlAt(line);
      if n > 0 {
        var url, rest := line[..n], line[n..];
        var t := TrimUrl(url);
        SoupAnchor(url, p, q, LinkUrls(rest));
        TrimmedTail(url);
        DecodesPlain(url[|t|..]);
        LinkSoup(rest, url[|t|..], url[|t|..]);
        Glue(url, |t|);
        Glue(line, n);
        assert (q + t) + (url[|t|..] + rest) == q + ((t + url[|t|..]) + rest);
      } else {
        var e := EscapeChar(line[0]);
        DecodesChar(line[0]);
        DecodesConcat(p, q, e, [line[0]]);
        FreeConcat(Only('<'), p, e);
        LinkSoup(line[1..], p + e, q + [line[0]]);
        Assoc(p, e, LinkUrls(line[1..]));
        Assoc(q, [line[0]], line[1..]);
        assert [line[0]] + line[1..] == line;
      }
    }
  }

  /** Whatever URLs a line holds, the document of the linked line holds exactly the line's text. */
  lemma LinksKeepText(line: string)
    ensures NodesText(Parse(LinkUrls(line))) == line
  {
    hide SoupText, LinkUrls, Parse, Decodes, NodesText;
    var html := LinkUrls(line);
    DecodesPlain("");
    LinkSoup(line, "", "");
    assert "" + html == html && "" + line == line;
    ParseKeepsText(html);
  }
}
