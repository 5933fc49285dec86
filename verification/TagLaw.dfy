/** What each tag name becomes, read off the HTML source: `transform_m2i` on whole documents. */
module TagLaw {
  import opened Strings
  import opened Entities
  import opened Html
  import opened HtmlPrint
  import opened IrcCodes
  import opened HtmlToIrc
  import opened HtmlMeaning
  import opened HtmlToIrcLaw
  import opened IrcToHtml
  import opened IrcToHtmlLaw

  /** Text that stands for itself in HTML. */
  predicate PlainText(t: string) {
    Free(Only('<'), t) && Free(Only('&'), t)
  }

  function Tagged(open: string, name: string, t: string): string {
    "<" + open + ">" + (t + ("</" + name + ">"))
  }

  /** What is sent for a document that is one element around a text. */
  function SentTag(name: string, t: string, targets: map<string, string>): string {
    Transform(Parse(Tagged(name, name, t)), targets)
  }

  lemma ParseElement(name: string, attrs: seq<Attr>, t: string)
    requires PlainName(name) && PlainAttrs(attrs) && PlainText(t)
    ensures Parse(Tagged(name + PrintAttrs(attrs), name, t)) == [Element(name, attrs, TextNode(t))]
  {
    hide Consume, Decode, ReadTag, PlainName, PlainAttrs, PrintAttrs, Free;
    var inner, close := name + PrintAttrs(attrs), "</" + name + ">";
    DecodePlain(t);
    TagIsPlain(name, attrs);
    ConsumeTag(inner, t + close, EMPTY);
    assert "<" + inner + ">" + (t + close) == Tagged(inner, name, t);
    ReadOpening(name, attrs);
    var opened' := Builder([Frame(name, attrs, [])], [], "");
    assert [] + [Frame(name, attrs, [])] == [Frame(name, attrs, [])];
    assert ApplyTag(Flush(EMPTY), (Opening, name, attrs)) == opened';
    ConsumeRun(t, close, opened');
    assert "" + t == t;
    var filled := opened'.(text := t);
    ConsumeTag("/" + name, "", filled);
    assert "<" + ("/" + name) + ">" + "" == close;
    ReadClosing(name);
    ConsumeNothing(ApplyTag(Flush(filled), (Closing, name, [])));
    ElementCloses(name, attrs, t);
  }

  lemma TagIsPlain(name: string, attrs: seq<Attr>)
    requires PlainName(name) && PlainAttrs(attrs)
    ensures var inner := name + PrintAttrs(attrs);
      inner != "" && inner[0] != '!' && Free(Only('>'), inner) && Free(Only('>'), "/" + name)
  {
    hide PrintAttrs;
    PlainNameHead(name);
    PlainNameFree(name);
    NoAttrsPrinted();
    if attrs != [] {
      PrintAttrsShape(attrs);
    }
    FreeConcat(Only('>'), name, PrintAttrs(attrs));
    FreeConcat(Only('>'), "/", name);
  }

  lemma NoAttrsPrinted()
    ensures PrintAttrs([]) == ""
  {
  }

  lemma ElementCloses(name: string, attrs: seq<Attr>, t: string)
    requires Decode(t) == t
    ensures var filled := Builder([Frame(name, attrs, [])], [], t);
      CloseTo(Flush(ApplyTag(Flush(filled), (Closing, name, []))), 0).top == [Element(name, attrs, TextNode(t))]
  {
    hide Decode;
    var base := Builder([], [], "");
    var filled := Builder([Frame(name, attrs, [])], [], t);
    assert [] + TextNode(t) == TextNode(t);
    assert Flush(filled).stack == [Frame(name, attrs, TextNode(t))];
    assert [] + [Frame(name, attrs, TextNode(t))] == [Frame(name, attrs, TextNode(t))];
    CloseOpened(base, name, attrs, TextNode(t));
    assert [] + [Element(name, attrs, TextNode(t))] == [Element(name, attrs, TextNode(t))];
  }

  /** A document of one element is written as that element around its text. */
  lemma SentElement(name: string, attrs: seq<Attr>, t: string, targets: map<string, string>)
    requires name != "p"
    ensures var tag := Classify(name);
      var inner := InsideContext(tag, TagColors(tag, attrs), START);
      Transform([Element(name, attrs, TextNode(t))], targets)
        == EmitAround(tag, attrs, START, targets, if inner.pre then t else Squeeze(t))
  {
    hide Classify, EmitAround, TagColors, Squeeze, InsideContext;
    var text := TextNode(t);
    var n := Element(name, attrs, text);
    assert [n][1..] == [] && [n] + [] == [n];
    TextParagraph(t);
    assert Paragraphs([n][1..], false) == [];
    assert Paragraphs([n], false) == [n];
    EmitOne(n, START, targets);
    SentText(t, InsideContext(Classify(name), TagColors(Classify(name), attrs), START), targets);
  }

  lemma TextParagraph(t: string)
    ensures Paragraphs(TextNode(t), false) == TextNode(t)
  {
    if t != "" {
      assert [Text(t)][1..] == [] && [Text(t)] + [] == [Text(t)];
    }
  }

  lemma SentText(t: string, ctx: Context, targets: map<string, string>)
    ensures EmitNodes(TextNode(t), ctx, targets) == if ctx.pre then t else Squeeze(t)
  {
    if t != "" {
      EmitOne(Text(t), ctx, targets);
    }
  }

  lemma SentIs(name: string, t: string, targets: map<string, string>)
    requires PlainName(name) && name != "p" && PlainText(t)
    ensures var tag := Classify(name);
      var pre := tag.Simple? && tag.pre;
      SentTag(name, t, targets) == EmitAround(tag, [], START, targets, if pre then t else Squeeze(t))
  {
    hide Classify, EmitAround, Transform, Parse, Squeeze;
    NoAttrsPrinted();
    assert name + "" == name;
    ParseElement(name, [], t);
    SentElement(name, [], t, targets);
  }

  predicate Letters(s: string) {
    s != "" && forall i | 0 <= i < |s| :: 'a' <= s[i] <= 'z'
  }

  lemma LettersArePlain(s: string)
    requires Letters(s)
    ensures PlainName(s)
  {
    forall i | 0 <= i < |s|
      ensures NameChar(s[i])
    {
      LetterIsPlain(s[i]);
    }
  }

  lemma LetterIsPlain(c: char)
    requires 'a' <= c <= 'z'
    ensures NameChar(c)
  {
  }

  lemma SentLetters(name: string, t: string, targets: map<string, string>)
    requires Letters(name) && name != "p" && PlainText(t)
    ensures var tag := Classify(name);
      var pre := tag.Simple? && tag.pre;
      SentTag(name, t, targets) == EmitAround(tag, [], START, targets, if pre then t else Squeeze(t))
  {
    hide Classify, EmitAround, SentTag, Squeeze, PlainName;
    LettersArePlain(name);
    SentIs(name, t, targets);
  }

  /** Text on one line. */
  predicate PlainLine(t: string) {
    PlainText(t) && Free(LineBreak, t)
  }

  lemma StyleSent(name: string, m: Mark, t: string, targets: map<string, string>)
    requires Letters(name) && Classify(name) == Simple(m, false) && name != "p" && PlainLine(t)
    ensures SentTag(name, t, targets) == MarkCode(m) + t + MarkCode(m)
  {
    hide Classify, SentTag, Squeeze, MarkCode;
    SqueezeFacts(t);
    SentLetters(name, t, targets);
  }

  /** `strong` and `b` are bold: code 02 on both sides. */
  lemma BoldTags(t: string, targets: map<string, string>)
    requires PlainLine(t)
    ensures SentTag("strong", t, targets) == "\U{02}" + t + "\U{02}"
    ensures SentTag("b", t, targets) == "\U{02}" + t + "\U{02}"
  {
    hide SentTag, PlainLine;
    StyleSent("strong", Bold, t, targets);
    StyleSent("b", Bold, t, targets);
  }

  /** `em` and `i` are italic: code 1D. */
  lemma ItalicTags(t: string, targets: map<string, string>)
    requires PlainLine(t)
    ensures SentTag("em", t, targets) == "\U{1D}" + t + "\U{1D}"
    ensures SentTag("i", t, targets) == "\U{1D}" + t + "\U{1D}"
  {
    hide SentTag, PlainLine;
    StyleSent("em", Italic, t, targets);
    StyleSent("i", Italic, t, targets);
  }

  /** `u` is underlined: code 1F. */
  lemma UnderlineTag(t: string, targets: map<string, string>)
    requires PlainLine(t)
    ensures SentTag("u", t, targets) == "\U{1F}" + t + "\U{1F}"
  {
    hide SentTag, PlainLine;
    StyleSent("u", Underline, t, targets);
  }

  /** `del`, `strike` and `s` are struck through: code 1E. */
  lemma StrikeTags(t: string, targets: map<string, string>)
    requires PlainLine(t)
    ensures SentTag("del", t, targets) == "\U{1E}" + t + "\U{1E}"
    ensures SentTag("strike", t, targets) == "\U{1E}" + t + "\U{1E}"
    ensures SentTag("s", t, targets) == "\U{1E}" + t + "\U{1E}"
  {
    hide SentTag, PlainLine;
    StyleSent("del", HtmlToIrc.Strike, t, targets);
    StyleSent("strike", HtmlToIrc.Strike, t, targets);
    StyleSent("s", HtmlToIrc.Strike, t, targets);
  }

  /** `code` and `pre` are monospace: code 11. `pre` keeps its line breaks, `code` squeezes them. */
  lemma MonoTags(t: string, targets: map<string, string>)
    requires PlainText(t)
    ensures SentTag("pre", t, targets) == "\U{11}" + t + "\U{11}"
    ensures SentTag("code", t, targets) == "\U{11}" + Squeeze(t) + "\U{11}"
  {
    hide PlainName, SentTag, Squeeze;
    SentLetters("pre", t, targets);
    SentLetters("code", t, targets);
  }

  /** Lists open with a line break, and their items are marked and end with one. */
  lemma ListTags(t: string, targets: map<string, string>)
    requires PlainLine(t)
    ensures SentTag("ol", t, targets) == "\n" + t
    ensures SentTag("ul", t, targets) == "\n" + t
    ensures SentTag("li", t, targets) == "* " + t + "\n"
  {
    hide PlainName, SentTag, Squeeze;
    SqueezeFacts(t);
    SentLetters("ol", t, targets);
    SentLetters("ul", t, targets);
    SentLetters("li", t, targets);
  }

  /** A `br` is a line break, a quoted reply is nothing, and paragraphs, fonts and spans without colours and
      anchors without a target are their text. */
  lemma OtherTags(t: string, targets: map<string, string>)
    requires PlainLine(t)
    ensures SentTag("br", t, targets) == "\n"
    ensures SentTag("font", t, targets) == t && SentTag("span", t, targets) == t && SentTag("a", t, targets) == t
  {
    hide PlainName, SentTag, Squeeze;
    SqueezeFacts(t);
    SentLetters("br", t, targets);
    SentLetters("font", t, targets);
    SentLetters("span", t, targets);
    SentLetters("a", t, targets);
  }

  lemma ReplyTag(t: string, targets: map<string, string>)
    requires PlainText(t)
    ensures SentTag("mx-reply", t, targets) == ""
  {
    hide SentTag, Squeeze;
    ReplyName();
    SentIs("mx-reply", t, targets);
  }

  lemma ReplyName()
    ensures PlainName("mx-reply") && Classify("mx-reply") == Reply && "mx-reply" != "p"
  {
    forall i | 0 <= i < |"mx-reply"|
      ensures NameChar("mx-reply"[i])
    {
      var c := "mx-reply"[i];
      assert c == '-' || 'a' <= c <= 'z';
      DashIsPlain(c);
    }
    assert |"mx-reply"| != |"p"|;
  }

  lemma DashIsPlain(c: char)
    requires c == '-' || 'a' <= c <= 'z'
    ensures NameChar(c)
  {
  }

  lemma ParagraphTag(t: string, targets: map<string, string>)
    requires PlainLine(t)
    ensures SentTag("p", t, targets) == t
  {
    hide Parse, Squeeze, Classify;
    LettersArePlain("p");
    NoAttrsPrinted();
    assert "p" + "" == "p";
    ParseElement("p", [], t);
    SqueezeFacts(t);
    var p, span := Element("p", [], TextNode(t)), Element("span", [], TextNode(t));
    assert [p][1..] == [] && [span][1..] == [];
    TextParagraph(t);
    assert [] + [span] + [] == [span];
    assert Paragraphs([p][1..], true) == [];
    assert Paragraphs([p], false) == [span];
    SpanTag();
    SentElement("span", [], t, targets);
    assert Paragraphs([span], false) == [span] by {
      assert [span] + [] == [span];
    }
  }

  lemma SpanTag()
    ensures Classify("span") == Font && "span" != "p"
  {
    assert |"span"| != |"p"|;
  }

  /** Any other name is transparent. */
  lemma UnknownTag(name: string, t: string, targets: map<string, string>)
    requires PlainName(name) && PlainLine(t)
    requires name !in {
      "strong", "b", "em", "i", "u", "del", "strike", "s", "code", "pre", "ol", "ul", "li", "br", "mx-reply", "p"}
    ensures SentTag(name, t, targets) == t
  {
    hide PlainName, SentTag, Squeeze;
    SqueezeFacts(t);
    SentIs(name, t, targets);
  }

  // ---------- links ----------

  /** A link is the identifier of the room or user it is a permalink of, and otherwise its text, with the URL
      behind it in angle brackets unless it is the text. */
  lemma AnchorTag(url: string, t: string, targets: map<string, string>)
    requires PlainValue(url) && PlainLine(t)
    ensures Transform(Parse(Tagged("a href=\"" + url + "\"", "a", t)), targets)
      == if url in targets then targets[url] else if t == url then url else t + " <" + url + ">"
  {
    hide Parse, Transform, Squeeze, PlainName, PlainValue, PrintAttrs;
    var attrs := [Attr("href", url)];
    LettersArePlain("a");
    LettersArePlain("href");
    HrefText(url);
    ParseElement("a", attrs, t);
    assert |"a"| == 1 && "a"[0] != "p"[0];
    SentElement("a", attrs, t, targets);
    SqueezeFacts(t);
    AnchorIs(url, t, targets);
  }

  lemma HrefText(url: string)
    ensures "a" + PrintAttrs([Attr("href", url)]) == "a href=\"" + url + "\""
  {
    NoAttrsPrinted();
    hide PrintAttrs;
    PrintOne("href", url);
    assert "a" + (" " + ("href" + ("=" + ("\"" + (url + ("\"" + "")))))) == "a href=\"" + url + "\"";
  }

  lemma PrintOne(key: string, value: string)
    ensures PrintAttrs([Attr(key, value)]) == " " + (key + ("=" + ("\"" + (value + ("\"" + "")))))
  {
    assert [Attr(key, value)][1..] == [];
  }

  lemma AnchorIs(url: string, t: string, targets: map<string, string>)
    ensures Classify("a") == Anchor
    ensures EmitAround(Anchor, [Attr("href", url)], START, targets, t)
      == if url in targets then targets[url] else if t == url then url else t + " <" + url + ">"
  {
  }

  // ---------- paragraphs ----------

  /** A document of paragraphs. */
  function ParagraphsHtml(texts: seq<string>): string {
    if texts == [] then "" else "<p>" + Escape(texts[0]) + "</p>" + ParagraphsHtml(texts[1..])
  }

  function ParagraphNodes(texts: seq<string>): seq<Node> {
    if texts == [] then [] else [Element("p", [], [Text(texts[0])])] + ParagraphNodes(texts[1..])
  }

  predicate Lines(texts: seq<string>) {
    forall i | 0 <= i < |texts| :: texts[i] != "" && Free(LineBreak, texts[i])
  }

  lemma {:induction false} ParagraphsPrinted(texts: seq<string>)
    requires Lines(texts)
    ensures PrintNodes(ParagraphNodes(texts)) == ParagraphsHtml(texts)
    ensures AllPrintable(ParagraphNodes(texts)) && Norm(ParagraphNodes(texts)) == ParagraphNodes(texts)
  {
    hide Escape;
    if texts != [] {
      var p, rest := Element("p", [], [Text(texts[0])]), ParagraphNodes(texts[1..]);
      ParagraphsPrinted(texts[1..]);
      assert ([p] + rest)[1..] == rest;
      ParagraphPrinted(texts[0]);
      ParagraphNormed(texts[0], rest);
    }
  }

  lemma ParagraphPrinted(t: string)
    ensures var p := Element("p", [], [Text(t)]); PrintNode(p) == "<p>" + Escape(t) + "</p>" && Printable(p)
  {
    hide Escape, PlainName;
    LettersArePlain("p");
    NoAttrsPrinted();
    var p := Element("p", [], [Text(t)]);
    assert [Text(t)][1..] == [] && AllPrintable([]) && PrintNodes([]) == "" && Escape(t) + "" == Escape(t);
    assert PrintNodes([Text(t)]) == PrintNode(Text(t)) + PrintNodes([]);
    assert AllPrintable([Text(t)]) by { assert Printable(Text(t)); }
    assert |"p"| != |"br"| && !IsBreak(p);
    assert "<" + ("p" + "") + ">" == "<p>" && "</" + "p" + ">" == "</p>";
  }

  lemma ParagraphNormed(t: string, rest: seq<Node>)
    requires t != "" && Norm(rest) == rest
    ensures Norm([Element("p", [], [Text(t)])] + rest) == [Element("p", [], [Text(t)])] + rest
  {
    var p := Element("p", [], [Text(t)]);
    assert ([p] + rest)[1..] == rest;
    assert [Text(t)][1..] == [] && "" + t == t;
    assert NormFrom([Text(t)], "") == [Text(t)];
    assert [] + [p] + rest == [p] + rest;
  }

  lemma {:induction false} ParagraphsSent(texts: seq<string>, afterP: bool, targets: map<string, string>)
    requires Lines(texts)
    ensures EmitNodes(Paragraphs(ParagraphNodes(texts), afterP), START, targets)
      == (if afterP && texts != [] then "\n" else "") + Join(texts, '\n')
  {
    hide *;
    if texts == [] {
      NoParagraphs(afterP, targets);
    } else {
      FirstLine(texts);
      ParagraphsSent(texts[1..], true, targets);
      var t, rest := texts[0], ParagraphNodes(texts[1..]);
      var span, later := Element("span", [], [Text(t)]), Paragraphs(rest, true);
      ParagraphFirst(t, rest, afterP);
      SpanSent(t, targets);
      BreakSent(targets);
      EmitCons(span, later, targets);
      EmitCons(BR, [span] + later, targets);
    }
  }

  lemma FirstLine(texts: seq<string>)
    requires texts != [] && Lines(texts)
    ensures ParagraphNodes(texts) == [Element("p", [], [Text(texts[0])])] + ParagraphNodes(texts[1..])
    ensures texts[0] != "" && Free(LineBreak, texts[0]) && Lines(texts[1..])
    ensures Join(texts, '\n')
      == texts[0] + ((if texts[1..] != [] then "\n" else "") + Join(texts[1..], '\n'))
  {
    hide ParagraphNodes, Free;
    ParagraphsCons(texts);
    assert forall i | 0 <= i < |texts[1..]| :: texts[1..][i] == texts[i + 1];
    if |texts| > 1 {
      assert texts[0] + ['\n'] + Join(texts[1..], '\n') == texts[0] + ("\n" + Join(texts[1..], '\n'));
    } else {
      assert texts[0] + ("" + "") == texts[0];
    }
  }

  lemma ParagraphsCons(texts: seq<string>)
    requires texts != []
    ensures ParagraphNodes(texts) == [Element("p", [], [Text(texts[0])])] + ParagraphNodes(texts[1..])
  {
  }

  lemma NoParagraphs(afterP: bool, targets: map<string, string>)
    ensures EmitNodes(Paragraphs(ParagraphNodes([]), afterP), START, targets) == "" && Join([], '\n') == ""
  {
  }

  lemma ParagraphFirst(t: string, rest: seq<Node>, afterP: bool)
    requires t != ""
    ensures var span, later := Element("span", [], [Text(t)]), Paragraphs(rest, true);
      Paragraphs([Element("p", [], [Text(t)])] + rest, afterP)
        == if afterP then [BR] + ([span] + later) else [span] + later
  {
    var p := Element("p", [], [Text(t)]);
    assert ([p] + rest)[1..] == rest;
    TextParagraph(t);
    assert [] + [Element("span", [], [Text(t)])] == [Element("span", [], [Text(t)])];
  }

  lemma EmitCons(n: Node, rest: seq<Node>, targets: map<string, string>)
    ensures EmitNodes([n] + rest, START, targets) == EmitNode(n, START, targets) + EmitNodes(rest, START, targets)
  {
    assert ([n] + rest)[1..] == rest;
  }

  lemma SpanSent(t: string, targets: map<string, string>)
    requires Free(LineBreak, t) && t != ""
    ensures EmitNode(Element("span", [], [Text(t)]), START, targets) == t
  {
    hide Squeeze;
    SqueezeFacts(t);
    SentText(t, START, targets);
  }

  lemma BreakSent(targets: map<string, string>)
    ensures EmitNode(BR, START, targets) == "\n"
  {
  }

  /** Paragraphs are sent a line each. */
  lemma ParagraphsJoined(texts: seq<string>, targets: map<string, string>)
    requires Lines(texts)
    ensures Transform(Parse(ParagraphsHtml(texts)), targets) == Join(texts, '\n')
  {
    hide Parse, PrintNodes, Norm, Join, EmitNodes, Paragraphs;
    ParagraphsPrinted(texts);
    ParsePrint(ParagraphNodes(texts));
    ParagraphsSent(texts, false, targets);
    assert "" + Join(texts, '\n') == Join(texts, '\n');
  }

  // ---------- line breaks in text ----------

  /** Each run of line breaks, with a blank in front of it or one blank in it, is sent as one blank. */
  lemma {:induction false} BreaksSqueezed(a: string, w: string, v: string, b: string)
    requires Free(LineBreak, a) && (a != "" ==> a[|a| - 1] != ' ')
    requires w != "" && AllMatch(LineBreak, w) && AllMatch(LineBreak, v)
    requires b != "" ==> !Matches(LineBreak, b[0])
    ensures b == "" || b[0] != ' ' ==> Squeeze(a + (w + b)) == a + (" " + Squeeze(b))
    ensures Squeeze(a + (w + (" " + (v + b)))) == a + (" " + Squeeze(b))
    ensures Squeeze(a + (" " + (w + b))) == a + (" " + Squeeze(b))
    decreases |a|
  {
    hide Squeeze, Matches;
    if a == "" {
      RunSqueezed(w, v, b);
      assert forall s: string :: "" + s == s;
    } else {
      var c, more := a[0], a[1..];
      assert [c] + more == a && !Matches(LineBreak, c);
      BreaksSqueezed(more, w, v, b);
      assert more != "" ==> more[|more| - 1] == a[|a| - 1];
      assert more == "" ==> c == a[|a| - 1];
      CharSqueezed(c, more, w + b);
      CharSqueezed(c, more, w + (" " + (v + b)));
      CharSqueezed(c, more, " " + (w + b));
      Assoc([c], more, " " + Squeeze(b));
    }
  }

  lemma CharSqueezed(c: char, more: string, rest: string)
    requires !Matches(LineBreak, c) && Free(LineBreak, more) && (more == "" ==> c != ' ')
    ensures Squeeze(([c] + more) + rest) == [c] + Squeeze(more + rest)
  {
    var s := ([c] + more) + rest;
    assert s[1..] == more + rest && s[0] == c;
    if more != "" {
      assert s[1] == more[0] && !Matches(LineBreak, more[0]);
    }
  }

  lemma RunSqueezed(w: string, v: string, b: string)
    requires w != "" && AllMatch(LineBreak, w) && AllMatch(LineBreak, v)
    requires b != "" ==> !Matches(LineBreak, b[0])
    ensures b == "" || b[0] != ' ' ==> Squeeze(w + b) == " " + Squeeze(b)
    ensures Squeeze(w + (" " + (v + b))) == " " + Squeeze(b)
    ensures Squeeze(" " + (w + b)) == " " + Squeeze(b)
  {
    hide Squeeze, TrimStart;
    var more := w[1..];
    assert [w[0]] + more == w && Matches(LineBreak, w[0]) && AllMatch(LineBreak, more);
    BreaksTrimmed(more, b);
    BreaksTrimmed(more, " " + (v + b));
    BreaksTrimmed(v, b);
    BreakFirst(w[0], more, b);
    BreakFirst(w[0], more, " " + (v + b));
    assert (" " + (v + b))[1..] == v + b;
    BlankFirst(w[0], more, b);
  }

  lemma BreakFirst(c: char, more: string, b: string)
    requires Matches(LineBreak, c)
    ensures var r := TrimStart(LineBreak, more + b);
      Squeeze(([c] + more) + b) == " " + Squeeze(if r != "" && r[0] == ' ' then TrimStart(LineBreak, r[1..]) else r)
  {
    hide TrimStart, Matches;
    assert (([c] + more) + b)[1..] == more + b;
  }

  lemma BlankFirst(c: char, more: string, b: string)
    requires Matches(LineBreak, c)
    ensures Squeeze(" " + (([c] + more) + b)) == " " + Squeeze(TrimStart(LineBreak, more + b))
  {
    hide TrimStart;
    var s := " " + (([c] + more) + b);
    assert s[1] == c && s[2..] == more + b;
  }

  lemma {:induction false} BreaksTrimmed(w: string, b: string)
    requires AllMatch(LineBreak, w) && (b != "" ==> !Matches(LineBreak, b[0]))
    ensures TrimStart(LineBreak, w + b) == b
  {
    if w == "" {
      assert w + b == b;
      TrimStartIdle(LineBreak, b);
    } else {
      assert (w + b)[1..] == w[1..] + b && Matches(LineBreak, w[0]);
      BreaksTrimmed(w[1..], b);
    }
  }

  // ---------- colours ----------

  /** What is sent for a font with these attributes around a text. */
  function SentFont(attrs: string, t: string, targets: map<string, string>): string {
    Transform(Parse(Tagged("font" + attrs, "font", t)), targets)
  }

  predicate IsColor(c: string) {
    |c| == 6 && AllHex(c)
  }

  lemma SentColors(attrs: seq<Attr>, t: string, targets: map<string, string>)
    requires PlainAttrs(attrs) && PlainLine(t)
    ensures var c := FontColors(attrs);
      c != NOCOLOR ==> SentFont(PrintAttrs(attrs), t, targets) == ColorCode(c) + t + ([COLOR] + "99,99")
  {
    hide Parse, Squeeze, FontColors, PlainName, PlainAttrs;
    PlainTag("font");
    FontTag();
    assert |"font"| != |"p"|;
    ParseElement("font", attrs, t);
    SentElement("font", attrs, t, targets);
    SqueezeFacts(t);
  }

  /** The attributes of a font, as `wrap_html` would print them. */
  lemma FontOf(f: Option<string>, b: Option<string>)
    requires (f.Some? ==> IsColor(f.value)) && (b.Some? ==> IsColor(b.value))
    ensures var fg, bg := Sharp(f), Sharp(b);
      var attrs := ColorNode("data-mx-color", fg) + ColorNode("data-mx-bg-color", bg);
      && PlainAttrs(attrs)
      && PrintAttrs(attrs) == FontAttr("data-mx-color", fg) + FontAttr("data-mx-bg-color", bg)
      && FontColors(attrs) == Colors(UpperColor(f), UpperColor(b))
  {
    hide PrintAttrs, FontAttr, PlainAttrs, NormColor, IsColor, Upper, IsHash, ColorNode;
    var st := PLAIN.(fg := Sharp(f), bg := Sharp(b));
    SharpIsHash(f);
    SharpIsHash(b);
    PrintColorAttrs(st);
    TwoAttrs(st.fg, st.bg);
  }

  function Sharp(c: Option<string>): Option<string> {
    if c.Some? then Some("#" + c.value) else None
  }

  lemma SharpIsHash(c: Option<string>)
    requires c.Some? ==> IsColor(c.value)
    ensures IsHash(Sharp(c))
    ensures c.Some? ==> NormColor("#" + c.value) == Some(Upper(c.value))
  {
    hide NormColor, Upper, AllHex;
    if c.Some? {
      assert ("#" + c.value)[1..] == c.value;
      NormHash("#" + c.value);
    }
  }

  /** A foreground is written as 04 and its six digits in upper case, and taken back by 03 with 99,99. */
  lemma ForegroundCode(f: string, t: string, targets: map<string, string>)
    requires IsColor(f) && PlainLine(t)
    ensures SentFont(" data-mx-color=\"#" + f + "\"", t, targets) == "\U{04}" + Upper(f) + t + "\U{03}99,99"
  {
    hide SentFont, PlainAttrs, PrintAttrs, FontColors, IsColor, Upper, PlainLine, ColorNode;
    var attrs := ColorNode("data-mx-color", Some("#" + f)) + ColorNode("data-mx-bg-color", None);
    FontOf(Some(f), None);
    AttrText("data-mx-color", f);
    assert FontAttr("data-mx-bg-color", None) == "";
    assert FontAttr("data-mx-color", Some("#" + f)) + "" == " data-mx-color=\"#" + f + "\"";
    SentColors(attrs, t, targets);
  }

  lemma AttrText(key: string, c: string)
    ensures FontAttr(key, Some("#" + c)) == " " + key + "=\"#" + c + "\""
  {
  }

  /** With a background, both are written with a comma between them. */
  lemma BothColorsCode(f: string, b: string, t: string, targets: map<string, string>)
    requires IsColor(f) && IsColor(b) && PlainLine(t)
    ensures SentFont((" data-mx-color=\"#" + f + "\"") + (" data-mx-bg-color=\"#" + b + "\""), t, targets)
      == "\U{04}" + Upper(f) + "," + Upper(b) + t + "\U{03}99,99"
  {
    hide SentFont, PlainAttrs, PrintAttrs, FontColors, IsColor, Upper, PlainLine, ColorNode, FontAttr;
    var attrs := ColorNode("data-mx-color", Some("#" + f)) + ColorNode("data-mx-bg-color", Some("#" + b));
    FontOf(Some(f), Some(b));
    AttrText("data-mx-color", f);
    AttrText("data-mx-bg-color", b);
    assert " " + "data-mx-color" + "=\"#" + f + "\"" == " data-mx-color=\"#" + f + "\"";
    assert " " + "data-mx-bg-color" + "=\"#" + b + "\"" == " data-mx-bg-color=\"#" + b + "\"";
    SentColors(attrs, t, targets);
  }

  /** A background alone is written over black, and 03 with 99 takes the foreground, and with it the
      background, away again. */
  lemma BackgroundCode(b: string, t: string, targets: map<string, string>)
    requires IsColor(b) && PlainLine(t)
    ensures SentFont(" data-mx-bg-color=\"#" + b + "\"", t, targets)
      == "\U{04}000000," + Upper(b) + "\U{03}99" + t + "\U{03}99,99"
  {
    hide SentFont, PlainAttrs, PrintAttrs, FontColors, IsColor, Upper, PlainLine, ColorNode;
    var attrs := ColorNode("data-mx-color", None) + ColorNode("data-mx-bg-color", Some("#" + b));
    FontOf(None, Some(b));
    AttrText("data-mx-bg-color", b);
    assert FontAttr("data-mx-color", None) == "";
    assert "" + FontAttr("data-mx-bg-color", Some("#" + b)) == " data-mx-bg-color=\"#" + b + "\"";
    SentColors(attrs, t, targets);
  }
}
