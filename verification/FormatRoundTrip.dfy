/** IRC to HTML to IRC: exactly which link-free texts come back with the same meaning. */
module FormatRoundTrip {
  import opened Strings
  import opened Html
  import opened HtmlPrint
  import opened IrcCodes
  import opened IrcCanon
  import opened HtmlToIrc
  import opened HtmlMeaning
  import opened ControlLaw
  import opened HtmlToIrcLaw
  import opened CommaLaw
  import opened IrcToHtml
  import opened IrcToHtmlLaw
  import opened Links
  import opened PlainBodyLaw
  import Decimal

  /** A background without a foreground. */
  predicate BareBackground(st: Style) { st.fg.None? && st.bg.Some? }

  predicate Unmarked(st: Style) {
    !st.bold && !st.italic && !st.underlined && !st.strike && !st.monospace
  }

  /** Nothing but a foreground. */
  predicate OnlyForeground(st: Style) {
    st.fg.Some? && st.bg.None? && Unmarked(st)
  }

  /** A run of text in one style that survives the trip. */
  predicate RunTravels(t: string, st: Style) {
    && Free(Only('\r'), t)
    && !BareBackground(st)
    && !(OnlyForeground(st) && t != "" && t[0] == ',')
  }

  /** Every run does. */
  predicate Travels(tokens: seq<Token>, st: Style) {
    tokens == [] || (
      && (tokens[0].Txt? ==> RunTravels(tokens[0].text, st))
      && Travels(tokens[1..], if tokens[0].Ctrl? then ApplyCtrl(st, tokens[0].code) else st))
  }

  // ---------- which styles are kept ----------

  lemma {:induction false} KeptConcat(a: seq<Node>, b: seq<Node>, path: Path, ground: Ground, pre: bool)
    ensures Kept(a + b, path, ground, pre) <==> Kept(a, path, ground, pre) && Kept(b, path, ground, pre)
  {
    hide KeptNode;
    if a == [] {
      assert a + b == b;
    } else {
      assert (a + b)[1..] == a[1..] + b;
      KeptConcat(a[1..], b, path, ground, pre);
    }
  }

  lemma KeptOne(n: Node, path: Path, ground: Ground, pre: bool)
    ensures Kept([n], path, ground, pre) <==> KeptNode(n, path, ground, pre)
  {
    hide KeptNode;
    assert Kept([n][1..], path, ground, pre);
  }

  predicate KeptText(t: string, path: Path, ground: Ground, pre: bool) {
    t == "" || (TrueToStyle(path, ground) && (pre || Free(LineBreak, t)))
  }

  lemma KeptTextConcat(a: string, b: string, path: Path, ground: Ground, pre: bool)
    ensures KeptText(a + b, path, ground, pre) <==> KeptText(a, path, ground, pre) && KeptText(b, path, ground, pre)
  {
    hide TrueToStyle;
    FreeConcat(LineBreak, a, b);
    assert a == "" ==> a + b == b;
    assert b == "" ==> a + b == a;
  }

  lemma KeptTextNode(t: string, path: Path, ground: Ground, pre: bool)
    ensures Kept(TextNode(t), path, ground, pre) <==> KeptText(t, path, ground, pre)
  {
    if t != "" {
      KeptOne(Text(t), path, ground, pre);
    }
  }

  /** Merging neighbouring texts keeps exactly the same characters in their styles. */
  lemma {:induction false} KeptNorm(nodes: seq<Node>, p: string, path: Path, ground: Ground, pre: bool)
    ensures Kept(NormFrom(nodes, p), path, ground, pre)
      <==> KeptText(p, path, ground, pre) && Kept(nodes, path, ground, pre)
    decreases nodes
  {
    hide TrueToStyle, KeptText, TextNode, Classify, TagColors;
    if nodes == [] {
      KeptTextNode(p, path, ground, pre);
    } else {
      var rest := nodes[1..];
      KeptNoText(path, ground, pre);
      match nodes[0]
      case Text(t) =>
        KeptNorm(rest, p + t, path, ground, pre);
        KeptTextConcat(p, t, path, ground, pre);
        KeptTextIs(t, path, ground, pre);
      case Comment =>
        KeptNorm(rest, p, path, ground, pre);
      case Element(name, attrs, children) =>
        var tag := Classify(name);
        var e := Element(name, attrs, NormFrom(children, ""));
        var path', pre' := InsidePath(tag, path), InsidePre(tag, pre);
        var ground' := InsideGround(TagColors(tag, attrs), ground);
        NothingNorm(children);
        KeptNoText(path', ground', pre');
        KeptNorm(children, "", path', ground', pre');
        KeptNorm(rest, "", path, ground, pre);
        KeptTextNode(p, path, ground, pre);
        KeptOne(e, path, ground, pre);
        KeptConcat(TextNode(p), [e], path, ground, pre);
        KeptConcat(TextNode(p) + [e], NormFrom(rest, ""), path, ground, pre);
    }
  }

  lemma NothingNorm(nodes: seq<Node>)
    ensures Nothing(NormFrom(nodes, "")) <==> Nothing(nodes)
  {
    hide Nothing, Flatten, NormFrom;
    FlattenNorm(nodes, "", PLAIN);
    StyledNone(PLAIN);
    assert [] + Flatten(nodes, PLAIN) == Flatten(nodes, PLAIN);
    NothingIff(nodes, PLAIN);
    NothingIff(NormFrom(nodes, ""), PLAIN);
  }

  lemma KeptNoText(path: Path, ground: Ground, pre: bool)
    ensures KeptText("", path, ground, pre)
  {
  }

  lemma KeptTextIs(t: string, path: Path, ground: Ground, pre: bool)
    ensures KeptNode(Text(t), path, ground, pre) <==> KeptText(t, path, ground, pre)
  {
  }

  lemma {:induction false} KeptLines(lines: seq<string>, path: Path, ground: Ground)
    requires |lines| >= 1
    requires forall i | 0 <= i < |lines| :: Free(Only('\n'), lines[i])
    ensures Kept(LineNodes(lines), path, ground, false)
      <==> (Join(lines, '\n') == "" || (TrueToStyle(path, ground) && Free(Only('\r'), Join(lines, '\n'))))
  {
    hide TrueToStyle, KeptNode;
    KeptTextIs(lines[0], path, ground, false);
    assert Free(LineBreak, lines[0]) <==> Free(Only('\r'), lines[0]) by {
      assert Free(Only('\n'), lines[0]);
    }
    if |lines| == 1 {
      KeptOne(Text(lines[0]), path, ground, false);
    } else {
      var rest := LineNodes(lines[1..]);
      KeptLines(lines[1..], path, ground);
      KeptBreak(path, ground);
      KeptOne(BR, path, ground, false);
      KeptOne(Text(lines[0]), path, ground, false);
      KeptConcat([BR], rest, path, ground, false);
      KeptConcat([Text(lines[0])], [BR] + rest, path, ground, false);
      FreeConcat(Only('\r'), lines[0] + ['\n'], Join(lines[1..], '\n'));
      FreeConcat(Only('\r'), lines[0], ['\n']);
    }
  }

  lemma KeptBreak(path: Path, ground: Ground)
    ensures KeptNode(BR, path, ground, false) <==> TrueToStyle(path, ground)
  {
    hide Classify, TrueToStyle;
    TagNames();
  }

  lemma KeptInNode(on: bool, name: string, m: Mark, nodes: seq<Node>, path: Path, ground: Ground)
    requires Classify(name) == Simple(m, false)
    ensures Kept(InNode(on, name, nodes), path, ground, false)
      <==> Kept(nodes, if on then [m] + path else path, ground, false)
  {
    hide Classify;
    if on {
      KeptOne(Element(name, [], nodes), path, ground, false);
    }
  }

  function Opt(on: bool, m: Mark): Path { if on then [m] else [] }

  /** The style tags `wrap_html` puts around a run, innermost first. */
  function WrapPath(st: Style): Path {
    Opt(st.bold, Bold) + (Opt(st.monospace, Mono) + (Opt(st.italic, Italic)
      + (Opt(st.underlined, Underline) + Opt(st.strike, HtmlToIrc.Strike))))
  }

  lemma KeptMarks(st: Style, nodes: seq<Node>, ground: Ground)
    ensures Kept(WrapMarks(st, nodes), [], ground, false) <==> Kept(nodes, WrapPath(st), ground, false)
  {
    hide Classify, Kept, InNode;
    TagNames();
    var b := InNode(st.bold, "b", nodes);
    var m := InNode(st.monospace, "code", b);
    var i := InNode(st.italic, "i", m);
    var u := InNode(st.underlined, "u", i);
    KeptInNode(st.strike, "strike", HtmlToIrc.Strike, u, [], ground);
    var p1 := Opt(st.strike, HtmlToIrc.Strike);
    assert [HtmlToIrc.Strike] + [] == [HtmlToIrc.Strike];
    KeptInNode(st.underlined, "u", Underline, i, p1, ground);
    var p2 := Opt(st.underlined, Underline) + p1;
    KeptInNode(st.italic, "i", Italic, m, p2, ground);
    var p3 := Opt(st.italic, Italic) + p2;
    KeptInNode(st.monospace, "code", Mono, b, p3, ground);
    var p4 := Opt(st.monospace, Mono) + p3;
    KeptInNode(st.bold, "b", Bold, nodes, p4, ground);
    assert [] + p1 == p1 && [] + p2 == p2 && [] + p3 == p3 && [] + p4 == p4;
  }

  lemma {:induction false} CountConcat(m: Mark, a: Path, b: Path)
    ensures Count(m, a + b) == Count(m, a) + Count(m, b)
  {
    if a == [] {
      assert a + b == b;
    } else {
      assert (a + b)[1..] == a[1..] + b;
      CountConcat(m, a[1..], b);
    }
  }

  lemma CountOpt(k: Mark, on: bool, m: Mark)
    ensures Count(k, Opt(on, m)) == if on && k == m then 1 else 0
  {
    assert Count(k, [m][1..]) == 0;
  }

  /** No style is wrapped twice. */
  lemma WrapPathTrue(st: Style, ground: Ground)
    ensures TrueToStyle(WrapPath(st), ground) <==> !ground.Broken?
  {
    hide Count, Opt;
    var p1 := Opt(st.strike, HtmlToIrc.Strike);
    var p2 := Opt(st.underlined, Underline) + p1;
    var p3 := Opt(st.italic, Italic) + p2;
    var p4 := Opt(st.monospace, Mono) + p3;
    forall k: Mark ensures Count(k, WrapPath(st)) <= 1 {
      CountConcat(k, Opt(st.bold, Bold), p4);
      CountConcat(k, Opt(st.monospace, Mono), p3);
      CountConcat(k, Opt(st.italic, Italic), p2);
      CountConcat(k, Opt(st.underlined, Underline), p1);
      CountOpt(k, st.bold, Bold);
      CountOpt(k, st.monospace, Mono);
      CountOpt(k, st.italic, Italic);
      CountOpt(k, st.underlined, Underline);
      CountOpt(k, st.strike, HtmlToIrc.Strike);
    }
  }

  /** What the one font around a run does to the background. */
  function GroundOf(st: Style): Ground {
    if st.bg.None? then NoGround else if st.fg.Some? then Whole else Broken
  }

  lemma KeptWrap(st: Style, t: string)
    requires StyleOk(st) && t != ""
    ensures Kept(WrapTree(st, LineNodes(Split(t, '\n'))), [], NoGround, false)
      <==> !BareBackground(st) && Free(Only('\r'), t)
  {
    hide Classify, Kept, WrapMarks, ColorAttrs, FontColors, StyleOk, LineNodes, TrueToStyle, WrapPath, UpperColor;
    var nodes := LineNodes(Split(t, '\n'));
    var ground := GroundOf(st);
    SplitFree(t, '\n');
    JoinSplit(t, '\n');
    KeptLines(Split(t, '\n'), WrapPath(st), ground);
    KeptMarks(st, nodes, ground);
    WrapPathTrue(st, ground);
    if !(st.fg.None? && st.bg.None?) {
      TagNames();
      ColorsOf(st);
      var e := Element("font", ColorAttrs(st), WrapMarks(st, nodes));
      KeptOne(e, [], NoGround, false);
      UpperSome(st.fg);
      UpperSome(st.bg);
      KeptFont(ColorAttrs(st), WrapMarks(st, nodes), ground);
    }
  }

  lemma UpperSome(c: Option<string>)
    ensures UpperColor(c).None? <==> c.None?
  {
  }

  lemma KeptFont(attrs: seq<Attr>, nodes: seq<Node>, ground: Ground)
    requires ground == InsideGround(FontColors(attrs), NoGround)
    ensures KeptNode(Element("font", attrs, nodes), [], NoGround, false) <==> Kept(nodes, [], ground, false)
  {
    hide Classify, FontColors, Kept;
    TagNames();
  }

  predicate RunKept(t: string, st: Style) {
    !BareBackground(st) && Free(Only('\r'), t)
  }

  predicate AllKept(tokens: seq<Token>, st: Style) {
    tokens == [] || (
      && (tokens[0].Txt? ==> RunKept(tokens[0].text, st))
      && AllKept(tokens[1..], if tokens[0].Ctrl? then ApplyCtrl(st, tokens[0].code) else st))
  }

  lemma {:induction false} KeptTree(tokens: seq<Token>, st: Style)
    requires StyleOk(st) && CanonTokens(tokens)
    ensures Kept(Tree(tokens, st), [], NoGround, false) <==> AllKept(tokens, st)
  {
    hide ApplyCtrl, WrapTree, StyleOk, CanonCode, BareBackground, LineNodes;
    if tokens != [] {
      match tokens[0]
      case Ctrl(c) =>
        ApplyKeepsStyleOk(st, c);
        KeptTree(tokens[1..], ApplyCtrl(st, c));
      case Txt(t) =>
        KeptWrap(st, t);
        KeptTree(tokens[1..], st);
        KeptConcat(WrapTree(st, LineNodes(Split(t, '\n'))), Tree(tokens[1..], st), [], NoGround, false);
    }
  }

  // ---------- the document is within the law ----------

  /** Linkless and free of control codes. */
  predicate SupportedNode(n: Node)
    decreases n, 0
  {
    match n
    case Comment => true
    case Text(t) => NoCtrl(t)
    case Element(name, _, children) => !Classify(name).Anchor? && Supported(children)
  }

  predicate Supported(nodes: seq<Node>)
    decreases nodes, 1
  {
    nodes == [] || (SupportedNode(nodes[0]) && Supported(nodes[1..]))
  }

  lemma {:induction false} SupportedIs(nodes: seq<Node>)
    requires Supported(nodes)
    ensures Linkless(nodes) && ControlFree(nodes)
    decreases nodes
  {
    hide Classify, NoCtrl;
    if nodes != [] {
      SupportedIs(nodes[1..]);
      if nodes[0].Element? {
        SupportedIs(nodes[0].children);
      }
    }
  }

  lemma {:induction false} SupportedConcat(a: seq<Node>, b: seq<Node>)
    requires Supported(a) && Supported(b)
    ensures Supported(a + b)
  {
    hide SupportedNode;
    if a == [] {
      assert a + b == b;
    } else {
      assert (a + b)[1..] == a[1..] + b;
      SupportedConcat(a[1..], b);
    }
  }

  lemma SupportedOne(n: Node)
    requires SupportedNode(n)
    ensures Supported([n])
  {
    hide SupportedNode;
    assert Supported([n][1..]);
  }

  lemma {:induction false} SupportedNorm(nodes: seq<Node>, p: string)
    requires Supported(nodes) && NoCtrl(p)
    ensures Supported(NormFrom(nodes, p))
    decreases nodes
  {
    hide Classify, TextNode, IsCtrl;
    SupportedTextNode(p);
    if nodes != [] {
      match nodes[0]
      case Text(t) => SupportedNorm(nodes[1..], p + t);
      case Comment => SupportedNorm(nodes[1..], p);
      case Element(name, attrs, children) =>
        var e := Element(name, attrs, NormFrom(children, ""));
        SupportedNorm(children, "");
        SupportedNorm(nodes[1..], "");
        SupportedOne(e);
        SupportedConcat(TextNode(p), [e]);
        SupportedConcat(TextNode(p) + [e], NormFrom(nodes[1..], ""));
    }
  }

  lemma SupportedTextNode(p: string)
    requires NoCtrl(p)
    ensures Supported(TextNode(p))
  {
    if p != "" {
      SupportedOne(Text(p));
    }
  }

  lemma {:induction false} SupportedLines(lines: seq<string>)
    requires |lines| >= 1 && NoCtrl(Join(lines, '\n'))
    ensures Supported(LineNodes(lines))
  {
    hide IsCtrl, Classify, SupportedNode, Supported;
    SupportedText(lines[0]);
    var j := Join(lines, '\n');
    assert forall i | 0 <= i < |lines[0]| :: lines[0][i] == j[i];
    SupportedOne(Text(lines[0]));
    if |lines| > 1 {
      var rest := Join(lines[1..], '\n');
      assert forall i | 0 <= i < |rest| :: rest[i] == j[|lines[0]| + 1 + i];
      SupportedLines(lines[1..]);
      SupportedBreak();
      SupportedOne(BR);
      SupportedConcat([BR], LineNodes(lines[1..]));
      SupportedConcat([Text(lines[0])], [BR] + LineNodes(lines[1..]));
    }
  }

  lemma SupportedText(t: string)
    ensures NoCtrl(t) ==> SupportedNode(Text(t))
  {
  }

  lemma SupportedBreak()
    ensures SupportedNode(BR)
  {
    hide Classify;
    TagNames();
    assert Supported([]);
  }

  lemma SupportedElement(name: string, attrs: seq<Attr>, nodes: seq<Node>)
    requires Supported(nodes) && (Classify(name).Simple? || Classify(name).Font?)
    ensures Supported([Element(name, attrs, nodes)])
  {
    hide Classify;
    SupportedOne(Element(name, attrs, nodes));
  }

  lemma SupportedWrap(st: Style, nodes: seq<Node>)
    requires Supported(nodes)
    ensures Supported(WrapTree(st, nodes))
  {
    hide Classify, Supported, ColorAttrs;
    TagNames();
    SupportedElement("b", [], nodes);
    var b := InNode(st.bold, "b", nodes);
    SupportedElement("code", [], b);
    var m := InNode(st.monospace, "code", b);
    SupportedElement("i", [], m);
    var i := InNode(st.italic, "i", m);
    SupportedElement("u", [], i);
    var u := InNode(st.underlined, "u", i);
    SupportedElement("strike", [], u);
    SupportedElement("font", ColorAttrs(st), WrapMarks(st, nodes));
  }

  lemma {:induction false} SupportedTree(tokens: seq<Token>, st: Style)
    requires CanonTokens(tokens)
    ensures Supported(Tree(tokens, st))
  {
    hide ApplyCtrl, WrapTree, CanonCode, LineNodes, IsCtrl;
    if tokens != [] {
      match tokens[0]
      case Ctrl(c) => SupportedTree(tokens[1..], ApplyCtrl(st, c));
      case Txt(t) =>
        JoinSplit(t, '\n');
        SupportedLines(Split(t, '\n'));
        SupportedWrap(st, LineNodes(Split(t, '\n')));
        SupportedTree(tokens[1..], st);
        SupportedConcat(WrapTree(st, LineNodes(Split(t, '\n'))), Tree(tokens[1..], st));
    }
  }

  // ---------- which codes run into text ----------

  lemma {:induction false} UngluedLines(lines: seq<string>, colors: Colors, open: bool)
    requires |lines| >= 1
    ensures UngluedFrom(LineNodes(lines), colors, open) <==> !(open && CommaFirst(Join(lines, '\n')))
    ensures OpenAfter(LineNodes(lines), colors, open) == (open && Join(lines, '\n') == "")
  {
    hide UngluedFrom, OpenAfter, Classify;
    var first := Text(lines[0]);
    UngluedOne(first, colors, open);
    if |lines| > 1 {
      var o := open && lines[0] == "";
      TagNames();
      UngluedLines(lines[1..], colors, false);
      UngluedOne(BR, colors, o);
      UngluedConcat([BR], LineNodes(lines[1..]), colors, o);
      UngluedConcat([first], [BR] + LineNodes(lines[1..]), colors, open);
    }
  }

  lemma UngluedInNode(on: bool, name: string, m: Mark, nodes: seq<Node>, colors: Colors, open: bool)
    requires Classify(name) == Simple(m, false) && !m.NoMark?
    ensures UngluedFrom(InNode(on, name, nodes), colors, open) <==> UngluedFrom(nodes, colors, open && !on)
  {
    hide Classify, UngluedFrom, OpenAfter;
    if on {
      UngluedOne(Element(name, [], nodes), colors, open);
    }
  }

  lemma UngluedMarks(st: Style, nodes: seq<Node>, colors: Colors, open: bool)
    ensures UngluedFrom(WrapMarks(st, nodes), colors, open) <==> UngluedFrom(nodes, colors, open && Unmarked(st))
  {
    hide Classify, UngluedFrom, InNode;
    TagNames();
    var b := InNode(st.bold, "b", nodes);
    var m := InNode(st.monospace, "code", b);
    var i := InNode(st.italic, "i", m);
    var u := InNode(st.underlined, "u", i);
    UngluedInNode(st.strike, "strike", HtmlToIrc.Strike, u, colors, open);
    var o1 := open && !st.strike;
    UngluedInNode(st.underlined, "u", Underline, i, colors, o1);
    var o2 := o1 && !st.underlined;
    UngluedInNode(st.italic, "i", Italic, m, colors, o2);
    var o3 := o2 && !st.italic;
    UngluedInNode(st.monospace, "code", Mono, b, colors, o3);
    UngluedInNode(st.bold, "b", Bold, nodes, colors, o3 && !st.monospace);
  }

  /** A run that would be read into its own colour code. */
  predicate RunGlued(t: string, st: Style) {
    st.fg.Some? != st.bg.Some? && Unmarked(st) && CommaFirst(t)
  }

  lemma UngluedRun(st: Style, t: string)
    requires StyleOk(st)
    ensures UngluedFrom(WrapTree(st, LineNodes(Split(t, '\n'))), NOCOLOR, false) <==> !RunGlued(t, st)
  {
    hide Classify, UngluedFrom, LineNodes, StyleOk, WrapMarks, ColorAttrs, FontColors, UpperColor, Join;
    var nodes := LineNodes(Split(t, '\n'));
    JoinSplit(t, '\n');
    UngluedMarks(st, nodes, NOCOLOR, false);
    UngluedLines(Split(t, '\n'), NOCOLOR, false);
    if !(st.fg.None? && st.bg.None?) {
      TagNames();
      ColorsOf(st);
      UpperSome(st.fg);
      UpperSome(st.bg);
      var c := FontColors(ColorAttrs(st));
      UngluedOne(Element("font", ColorAttrs(st), WrapMarks(st, nodes)), NOCOLOR, false);
      UngluedMarks(st, nodes, c, OpenEnded(c));
      UngluedLines(Split(t, '\n'), c, OpenEnded(c) && Unmarked(st));
    }
  }

  /** No run is. */
  predicate NoneGlued(tokens: seq<Token>, st: Style) {
    tokens == [] || (
      && (tokens[0].Txt? ==> !RunGlued(tokens[0].text, st))
      && NoneGlued(tokens[1..], if tokens[0].Ctrl? then ApplyCtrl(st, tokens[0].code) else st))
  }

  lemma {:induction false} UngluedTree(tokens: seq<Token>, st: Style)
    requires StyleOk(st) && CanonTokens(tokens)
    ensures Unglued(Tree(tokens, st)) <==> NoneGlued(tokens, st)
  {
    hide ApplyCtrl, WrapTree, StyleOk, CanonCode, LineNodes, RunGlued;
    if tokens != [] {
      match tokens[0]
      case Ctrl(c) =>
        ApplyKeepsStyleOk(st, c);
        UngluedTree(tokens[1..], ApplyCtrl(st, c));
      case Txt(t) =>
        var run := WrapTree(st, LineNodes(Split(t, '\n')));
        UngluedRun(st, t);
        UngluedTree(tokens[1..], st);
        StaysClosed(run);
        UngluedConcat(run, Tree(tokens[1..], st), NOCOLOR, false);
    }
  }

  lemma {:induction false} TravelsSplits(tokens: seq<Token>, st: Style)
    ensures Travels(tokens, st) <==> AllKept(tokens, st) && NoneGlued(tokens, st)
  {
    hide ApplyCtrl;
    if tokens != [] {
      TravelsSplits(tokens[1..], if tokens[0].Ctrl? then ApplyCtrl(st, tokens[0].code) else st);
    }
  }

  // ---------- the round trip ----------

  /** What comes back: the meaning of what `matrix_to_irc` makes of the HTML, with the blanks that it
      trims put back. */
  function Returned(text: string, targets: map<string, string>): seq<Cell>
    requires Convert(text, []).html.Some?
  {
    var html := Convert(text, []).html.value;
    var out := Transform(Parse(html), targets);
    Styled(Front(out), PLAIN) + (Meaning(MatrixToIrc(html, targets)) + Styled(Back(out), PLAIN))
  }

  /** A link-free text goes to HTML and comes back to IRC with the same meaning (colours in upper
      case), exactly when no run holds a carriage return, no run has a background without a
      foreground, and no run whose whole style is a foreground starts with a comma. */
  lemma RoundTripIff(text: string, targets: map<string, string>)
    requires LinkFree(text) && Convert(text, []).html.Some?
    ensures Returned(text, targets) == UpperCells(Meaning(text)) <==> Travels(Tokens(text), PLAIN)
  {
    hide Meaning, Transform, Parse, MatrixToIrc, Styled, Front, Back, Tokens, Tree, Paragraphs, Flatten, NormFrom,
      HtmlBody, Supported, Linkless, ControlFree, CanonTokens, UngluedFrom, Kept, NoneGlued, LinkFree;
    var html := Convert(text, []).html.value;
    var tokens := Tokens(text);
    var tree := Tree(tokens, PLAIN);
    ResetAppended(text);
    HtmlBodyDocument(text);
    SupportedTree(tokens, PLAIN);
    SupportedNorm(tree, "");
    SupportedIs(Norm(tree));
    MatrixToIrcPreservesIff(html, targets);
    IrcToHtmlPreserves(text);
    KeptNorm(tree, "", [], NoGround, false);
    KeptTree(tokens, PLAIN);
    TravelsSplits(tokens, PLAIN);
    UngluedNorm(tree, "", NOCOLOR, false);
    UngluedTree(tokens, PLAIN);
  }

  // ---------- what does not come back ----------

  lemma {:induction false} TravelsAt(tokens: seq<Token>, st: Style, k: nat)
    requires k < |tokens| && tokens[k].Txt? && !RunTravels(tokens[k].text, EndStyle(tokens[..k], st))
    ensures !Travels(tokens, st)
  {
    hide ApplyCtrl, RunTravels;
    if k > 0 {
      assert tokens[..k][1..] == tokens[1..][..k - 1];
      TravelsAt(tokens[1..], if tokens[0].Ctrl? then ApplyCtrl(st, tokens[0].code) else st, k - 1);
    }
  }

  lemma {:induction false} CanonAt(tokens: seq<Token>, k: nat)
    requires CanonTokens(tokens) && k < |tokens| && tokens[k].Txt?
    ensures tokens[k].text != ""
  {
    hide CanonCode;
    if k > 0 {
      CanonAt(tokens[1..], k - 1);
    }
  }

  lemma StyledRunShows(tokens: seq<Token>, k: nat)
    requires CanonTokens(tokens) && k < |tokens| && tokens[k].Txt? && EndStyle(tokens[..k], PLAIN) != PLAIN
    ensures !Bare(Interp(tokens, PLAIN))
  {
    hide Bare, CanonTokens, Styled, ApplyCtrl;
    var st := EndStyle(tokens[..k], PLAIN);
    var t := tokens[k].text;
    CanonAt(tokens, k);
    Glue(tokens, k);
    InterpConcat(tokens[..k], tokens[k..], PLAIN);
    assert tokens[k..][0] == tokens[k];
    assert Interp(tokens[k..], st) == Styled(t, st) + Interp(tokens[k..][1..], st);
    BareConcat(Interp(tokens[..k], PLAIN), Interp(tokens[k..], st));
    BareConcat(Styled(t, st), Interp(tokens[k..][1..], st));
    BareStyled(t, st);
  }

  /** Any styled run that does not travel changes the meaning of its whole text. */
  lemma RunIsLost(text: string, targets: map<string, string>, k: nat)
    requires LinkFree(text) && k < |Tokens(text)| && Tokens(text)[k].Txt?
    requires var st := EndStyle(Tokens(text)[..k], PLAIN);
      st != PLAIN && !RunTravels(Tokens(text)[k].text, st)
    ensures Convert(text, []).html.Some? && Returned(text, targets) != UpperCells(Meaning(text))
  {
    hide Tokens, Convert, Returned, Travels, Bare, Meaning, Interp, EndStyle, RunTravels, LinkFree;
    ResetAppended(text);
    StyledRunShows(Tokens(text), k);
    HtmlDroppedIff(text);
    TravelsAt(Tokens(text), PLAIN, k);
    RoundTripIff(text, targets);
  }

  /** A run behind one code. */
  lemma CodedRun(code: string, t: string)
    requires CanonCode(code) && t != "" && NoCtrl(t) && !Continues(code, t[0])
    ensures Tokens(code + t) == [Ctrl(code), Txt(t), Ctrl([RESET])]
  {
    hide Lex, CanonCode, Continues, IsCtrl;
    var r := [RESET];
    assert code + t + r == code + (t + r);
    CodeFirst(code, t + r);
    TextFirst(t, r);
    ResetReads();
    assert WithText(t, [Ctrl(r)]) == [Txt(t), Ctrl(r)];
  }

  lemma ResetReads()
    ensures Lex([RESET]) == [Ctrl([RESET])] && IsCtrl(RESET)
  {
    LexCode([RESET]);
    LexNone();
    assert [RESET][1..] == "";
  }

  lemma CodedRunIsLost(code: string, t: string, targets: map<string, string>)
    requires CanonCode(code) && t != "" && NoCtrl(t) && !Continues(code, t[0])
    requires LinkFree(t) && Free(Only('m'), code) && Free(Only(':'), code)
    requires ApplyCtrl(PLAIN, code) != PLAIN && !RunTravels(t, ApplyCtrl(PLAIN, code))
    ensures var text := code + t;
      Convert(text, []).html.Some? && Returned(text, targets) != UpperCells(Meaning(text))
  {
    hide Tokens, Convert, Returned, Meaning, RunTravels, LinkFree, CanonCode, Continues, ApplyCtrl;
    CodedRun(code, t);
    LinkFreeBehind(code, t);
    InterpCode(code, PLAIN);
    assert Tokens(code + t)[..1] == [Ctrl(code)];
    RunIsLost(code + t, targets, 1);
  }

  /** Every run with a background alone is lost on the way, whatever the colour: `irc_color_code` clears
      it again. */
  lemma BareBackgroundStays(b: nat, t: string, targets: map<string, string>)
    requires b <= 98 && t != "" && NoCtrl(t) && LinkFree(t)
    ensures var text := [COLOR] + ("99," + Decimal.Pad(b, 2)) + t;
      Convert(text, []).html.Some? && Returned(text, targets) != UpperCells(Meaning(text))
  {
    hide Convert, Returned, Meaning, LinkFree, PaletteColor, RunTravels;
    var bb := Decimal.Pad(b, 2);
    var code := [COLOR] + ("99," + bb);
    TwoDigitNumber(b);
    assert code[1..] == "99," + bb && ("99," + bb)[..2] == "99" && ("99," + bb)[3..] == bb;
    FindAt(Only(','), "99", ',', bb);
    assert "99" + ([','] + bb) == "99," + bb;
    NinetyNine();
    var st := ApplyCtrl(PLAIN, code);
    assert st == PLAIN.(bg := Color2Hex(b));
    assert !RunTravels(t, st) by { BareStops(t, st); }
    CodedRunIsLost(code, t, targets);
  }

  lemma BareStops(t: string, st: Style)
    requires BareBackground(st)
    ensures !RunTravels(t, st)
  {
  }

  lemma TwoDigitNumber(b: nat)
    requires b <= 98
    ensures |Decimal.Pad(b, 2)| == 2 && PaletteColor(Decimal.Pad(b, 2)) == Color2Hex(b)
  {
    var p := Decimal.Print(b);
    assert Decimal.Pow10(2) == 100 by { assert Decimal.Pow10(1) == 10; }
    Decimal.PrintLength(b, 2);
    Decimal.DigitsPrint(b);
    if |p| < 2 {
      Decimal.DigitsZeros(2 - |p|, p);
    }
    assert IsDigit(Decimal.Pad(b, 2)[0]);
  }

  /** Every foreground-only run that starts with a comma loses it: the comma is read as the start
      of a background. An empty toggle pair keeps the codes apart on the way in. */
  lemma CommaIsEaten(f: string, t: string, targets: map<string, string>)
    requires |f| == 6 && AllHex(f) && t != "" && NoCtrl(t) && LinkFree(t) && t[0] == ','
    ensures var text := ([HEXCOLOR] + f) + ([BOLD] + ([BOLD] + t));
      Convert(text, []).html.Some? && Returned(text, targets) != UpperCells(Meaning(text))
  {
    hide Convert, Returned, Meaning, LinkFree, RunTravels, Lex, AllHex, HexColor;
    var color, b := [HEXCOLOR] + f, [BOLD];
    var text := color + (b + (b + t));
    CommaTokens(f, t);
    var tokens := Tokens(text);
    ApplyFg(f, PLAIN);
    var st := PLAIN.(fg := Some("#" + f));
    ThreeCodes(color, b, b, PLAIN);
    assert tokens[..3] == [Ctrl(color), Ctrl(b), Ctrl(b)];
    assert ApplyCtrl(ApplyCtrl(st, b), b) == st;
    assert !RunTravels(t, st) by { CommaStops(t, st); }
    HexHasNoLink(f);
    LinkFreeBehind(b, t);
    LinkFreeBehind(b, b + t);
    LinkFreeBehind(color, b + (b + t));
    RunIsLost(text, targets, 3);
  }

  lemma CommaStops(t: string, st: Style)
    requires OnlyForeground(st) && CommaFirst(t)
    ensures !RunTravels(t, st)
  {
  }

  lemma HexHasNoLink(f: string)
    requires AllHex(f)
    ensures Free(Only('m'), [HEXCOLOR] + f) && Free(Only(':'), [HEXCOLOR] + f)
  {
    var code := [HEXCOLOR] + f;
    assert forall i | 1 <= i < |code| :: code[i] == f[i - 1];
  }

  lemma ThreeCodes(a: string, b: string, c: string, st: Style)
    ensures EndStyle([Ctrl(a), Ctrl(b), Ctrl(c)], st) == ApplyCtrl(ApplyCtrl(ApplyCtrl(st, a), b), c)
  {
    hide ApplyCtrl;
    InterpCode(c, ApplyCtrl(ApplyCtrl(st, a), b));
    CodeThenRest(b, [Ctrl(c)], ApplyCtrl(st, a));
    CodeThenRest(a, [Ctrl(b)] + [Ctrl(c)], st);
    assert [Ctrl(a), Ctrl(b), Ctrl(c)] == [Ctrl(a)] + ([Ctrl(b)] + [Ctrl(c)]);
  }

  lemma CommaTokens(f: string, t: string)
    requires |f| == 6 && AllHex(f) && t != "" && NoCtrl(t)
    ensures Tokens(([HEXCOLOR] + f) + ([BOLD] + ([BOLD] + t)))
      == [Ctrl([HEXCOLOR] + f), Ctrl([BOLD]), Ctrl([BOLD]), Txt(t), Ctrl([RESET])]
  {
    hide Lex, IsCtrl, AllHex;
    var color, b, r := [HEXCOLOR] + f, [BOLD], [RESET];
    assert color + (b + (b + t)) + r == color + (b + (b + (t + r)));
    assert color[1..] == f && f[..6] == f;
    BoldIsCode();
    CodeFirst(color, b + (b + (t + r)));
    CodeFirst(b, b + (t + r));
    CodeFirst(b, t + r);
    TextFirst(t, r);
    ResetReads();
    assert WithText(t, [Ctrl(r)]) == [Txt(t), Ctrl(r)];
  }

  lemma BoldIsCode()
    ensures IsCtrl(BOLD) && IsCtrl(HEXCOLOR) && CanonCode([BOLD]) && forall x :: !Continues([BOLD], x)
  {
  }

  /** Every styled run with a carriage return changes: HTML text has no place for one outside `pre`. */
  lemma CarriageReturnIsLost(t: string, targets: map<string, string>)
    requires NoCtrl(t) && LinkFree(t) && !Free(Only('\r'), t)
    ensures Convert([BOLD] + t, []).html.Some? && Returned([BOLD] + t, targets) != UpperCells(Meaning([BOLD] + t))
  {
    hide Convert, Returned, Meaning, LinkFree;
    BoldIsCode();
    CodedRunIsLost([BOLD], t, targets);
  }
}
