/** IRC to HTML preserves meaning, for every link-free text. */
module IrcToHtmlLaw {
  import opened Strings
  import opened Entities
  import opened Html
  import opened HtmlPrint
  import opened IrcCodes
  import opened IrcCanon
  import opened HtmlToIrc
  import opened HtmlMeaning
  import opened IrcToHtml
  import opened Links
  import Decimal

  // ---------- the tree that is written ----------

  function LineNodes(lines: seq<string>): seq<Node>
    requires |lines| >= 1
  {
    if |lines| == 1 then [Text(lines[0])] else [Text(lines[0])] + ([BR] + LineNodes(lines[1..]))
  }

  function InNode(on: bool, tag: string, nodes: seq<Node>): seq<Node> {
    if on then [Element(tag, [], nodes)] else nodes
  }

  function ColorNode(key: string, c: Option<string>): seq<Attr> {
    if c.Some? then [Attr(key, c.value)] else []
  }

  function ColorAttrs(st: Style): seq<Attr> {
    ColorNode("data-mx-color", st.fg) + ColorNode("data-mx-bg-color", st.bg)
  }

  function WrapMarks(st: Style, nodes: seq<Node>): seq<Node> {
    InNode(st.strike, "strike",
      InNode(st.underlined, "u", InNode(st.italic, "i", InNode(st.monospace, "code", InNode(st.bold, "b", nodes)))))
  }

  function WrapTree(st: Style, nodes: seq<Node>): seq<Node> {
    if st.fg.None? && st.bg.None? then WrapMarks(st, nodes)
    else [Element("font", ColorAttrs(st), WrapMarks(st, nodes))]
  }

  function Tree(tokens: seq<Token>, st: Style): seq<Node> {
    if tokens == [] then []
    else
      match tokens[0]
      case Txt(t) => WrapTree(st, LineNodes(Split(t, '\n'))) + Tree(tokens[1..], st)
      case Ctrl(c) => Tree(tokens[1..], ApplyCtrl(st, c))
  }

  // ---------- printing it ----------

  lemma PrintCons(n: Node, rest: seq<Node>)
    ensures PrintNodes([n] + rest) == PrintNode(n) + PrintNodes(rest)
    ensures AllPrintable([n] + rest) <==> Printable(n) && AllPrintable(rest)
  {
    assert ([n] + rest)[1..] == rest;
  }

  lemma PrintNodesOne(n: Node)
    ensures PrintNodes([n]) == PrintNode(n)
    ensures AllPrintable([n]) <==> Printable(n)
  {
    assert PrintNodes([n][1..]) == "";
  }

  lemma PrintBreak()
    ensures PrintNode(BR) == "<br/>" && Printable(BR)
  {
    assert PlainName("br") by { assert NameChar('b') && NameChar('r'); }
  }

  lemma PrintText(t: string)
    ensures PrintNode(Text(t)) == EscapeHtml(t) && Printable(Text(t))
  {
    EscapeIsMap(t);
  }

  lemma {:induction false} PrintLines(lines: seq<string>)
    requires |lines| >= 1
    ensures PrintNodes(LineNodes(lines)) == LinesHtml(lines)
    ensures AllPrintable(LineNodes(lines))
  {
    hide PrintNodes, AllPrintable, PrintNode, Printable, EscapeHtml;
    PrintText(lines[0]);
    PrintBreak();
    if |lines| == 1 {
      PrintNodesOne(Text(lines[0]));
    } else {
      var rest := LineNodes(lines[1..]);
      PrintLines(lines[1..]);
      PrintCons(BR, rest);
      PrintCons(Text(lines[0]), [BR] + rest);
      Assoc(EscapeHtml(lines[0]), "<br/>", LinesHtml(lines[1..]));
    }
  }

  lemma PrintInNode(on: bool, tag: string, nodes: seq<Node>)
    requires tag in {"b", "code", "i", "u", "strike"} && AllPrintable(nodes)
    ensures PrintNodes(InNode(on, tag, nodes)) == InTag(on, tag, PrintNodes(nodes))
    ensures AllPrintable(InNode(on, tag, nodes))
  {
    if on {
      PlainTag(tag);
      var e := Element(tag, [], nodes);
      PrintNodesOne(e);
      assert tag + PrintAttrs([]) == tag;
      assert "<" + tag + ">" + PrintNodes(nodes) + ("</" + tag + ">")
        == "<" + tag + ">" + PrintNodes(nodes) + "</" + tag + ">";
    }
  }

  lemma PlainTag(tag: string)
    requires tag in {"b", "code", "i", "u", "strike", "font", "data-mx-color", "data-mx-bg-color"}
    ensures PlainName(tag) && tag != "br"
  {
  }

  lemma PrintMarks(st: Style, nodes: seq<Node>)
    requires AllPrintable(nodes)
    ensures AllPrintable(WrapMarks(st, nodes))
    ensures st.fg.None? && st.bg.None? ==> PrintNodes(WrapMarks(st, nodes)) == WrapHtml(st, PrintNodes(nodes))
    ensures !(st.fg.None? && st.bg.None?) ==>
      "<font" + FontAttrs(st) + ">" + PrintNodes(WrapMarks(st, nodes)) + "</font>" == WrapHtml(st, PrintNodes(nodes))
  {
    hide PrintNodes, AllPrintable, InNode, InTag, FontAttrs;
    var b := InNode(st.bold, "b", nodes);
    PrintInNode(st.bold, "b", nodes);
    var m := InNode(st.monospace, "code", b);
    PrintInNode(st.monospace, "code", b);
    var i := InNode(st.italic, "i", m);
    PrintInNode(st.italic, "i", m);
    var u := InNode(st.underlined, "u", i);
    PrintInNode(st.underlined, "u", i);
    PrintInNode(st.strike, "strike", u);
  }

  /** Colours as the state machine makes them: `#` and six hex digits. */
  predicate IsHash(c: Option<string>) {
    c.Some? ==> |c.value| == 7 && c.value[0] == '#' && AllHex(c.value[1..])
  }

  predicate StyleOk(st: Style) { IsHash(st.fg) && IsHash(st.bg) }

  lemma PlainColor(c: string)
    requires IsHash(Some(c))
    ensures PlainValue(c)
  {
    assert c == [c[0]] + c[1..];
    assert Free(Only('"'), c[1..]) && Free(Only('>'), c[1..]) && Free(Only('&'), c[1..]);
  }

  lemma PrintOneAttr(key: string, v: string, rest: seq<Attr>)
    ensures PrintAttrs([Attr(key, v)] + rest) == FontAttr(key, Some(v)) + PrintAttrs(rest)
  {
    var p, q := PrintAttrs(rest), "\"";
    assert ([Attr(key, v)] + rest)[1..] == rest;
    Assoc(v, q, p);
    Assoc(q, v + q, p);
    Assoc("=", q + (v + q), p);
    Assoc(key, "=" + (q + (v + q)), p);
    Assoc(" ", key + ("=" + (q + (v + q))), p);
  }

  lemma PrintColorNode(key: string, c: Option<string>, rest: seq<Attr>)
    requires PlainName(key) && IsHash(c) && PlainAttrs(rest)
    ensures PrintAttrs(ColorNode(key, c) + rest) == FontAttr(key, c) + PrintAttrs(rest)
    ensures PlainAttrs(ColorNode(key, c) + rest)
  {
    hide PlainName, PlainValue, IsHash, PrintAttrs;
    if c.Some? {
      PlainColor(c.value);
      PrintOneAttr(key, c.value, rest);
    } else {
      assert [] + rest == rest && "" + PrintAttrs(rest) == PrintAttrs(rest);
    }
  }

  lemma PrintColorAttrs(st: Style)
    requires StyleOk(st)
    ensures PrintAttrs(ColorAttrs(st)) == FontAttrs(st) && PlainAttrs(ColorAttrs(st))
  {
    hide PrintAttrs, FontAttr, PlainName, IsHash;
    PlainTag("data-mx-color");
    PlainTag("data-mx-bg-color");
    var b := ColorNode("data-mx-bg-color", st.bg);
    PrintColorNode("data-mx-bg-color", st.bg, []);
    assert b + [] == b;
    assert PrintAttrs([]) == "" by { PrintNoAttrs(); }
    assert FontAttr("data-mx-bg-color", st.bg) + "" == FontAttr("data-mx-bg-color", st.bg);
    PrintColorNode("data-mx-color", st.fg, b);
  }

  lemma PrintNoAttrs()
    ensures PrintAttrs([]) == ""
  {
  }

  lemma PrintWrap(st: Style, nodes: seq<Node>)
    requires StyleOk(st) && AllPrintable(nodes)
    ensures AllPrintable(WrapTree(st, nodes))
    ensures PrintNodes(WrapTree(st, nodes)) == WrapHtml(st, PrintNodes(nodes))
  {
    hide WrapMarks, WrapHtml, FontAttrs, ColorAttrs, PlainAttrs, PrintNodes, AllPrintable, PrintAttrs, PlainName;
    PrintMarks(st, nodes);
    if !(st.fg.None? && st.bg.None?) {
      var inner := WrapMarks(st, nodes);
      PrintColorAttrs(st);
      PlainTag("font");
      var e := Element("font", ColorAttrs(st), inner);
      PrintNodesOne(e);
      assert "<" + ("font" + FontAttrs(st)) + ">" + PrintNodes(inner) + ("</" + "font" + ">")
        == "<font" + FontAttrs(st) + ">" + PrintNodes(inner) + "</font>";
    }
  }

  /** The state machine keeps colours in that form on the codes the tokenizer makes. */
  lemma ApplyKeepsStyleOk(st: Style, code: string)
    requires StyleOk(st) && CanonCode(code)
    ensures StyleOk(ApplyCtrl(st, code))
  {
    hide PaletteColor, HexColor, CanonDecimal, CanonHex, IsHash, AllHex, Find;
    var spec := code[1..];
    var k := Find(Only(','), spec);
    NoneHash();
    var fgs, bgs := spec[..k], if k < |spec| then spec[k + 1..] else "";
    if code[0] == COLOR {
      PaletteHash(fgs);
      PaletteHash(bgs);
    } else if code[0] == HEXCOLOR {
      SpecHex(spec);
      HexHash(fgs);
      HexHash(bgs);
    }
  }

  lemma NoneHash()
    ensures IsHash(None)
  {
  }

  lemma PaletteHash(s: string)
    ensures IsHash(PaletteColor(s))
  {
    var n := Decimal.ParseUnsigned(s, 10, 0xFFFF_FFFF_FFFF_FFFF);
    if n.Some? && n.value <= 98 {
      var h := HexDigits(PALETTE[n.value], 6);
      assert ("#" + h)[1..] == h;
    }
  }

  lemma HexHash(s: string)
    requires AllHex(s)
    ensures IsHash(HexColor(s))
  {
    assert forall i | 0 <= i < |s| :: Utf8Len(s[i]) == 1;
    AsciiBytes(s);
    assert ("#" + s)[1..] == s;
  }

  lemma SpecHex(spec: string)
    requires CanonHex(spec)
    ensures var k := Find(Only(','), spec);
      AllHex(spec[..k]) && AllHex(if k < |spec| then spec[k + 1..] else "")
  {
    if |spec| > 6 {
      HexHasNoComma(spec[..6]);
      FindAt(Only(','), spec[..6], ',', spec[7..]);
      assert spec == spec[..6] + ([','] + spec[7..]);
    } else if spec != "" {
      assert spec[..6] == spec;
      HexHasNoComma(spec);
      FindSkip(Only(','), spec, "");
      assert spec + "" == spec;
    }
  }

  lemma {:induction false} PrintTree(tokens: seq<Token>, st: Style)
    requires StyleOk(st) && CanonTokens(tokens)
    ensures AllPrintable(Tree(tokens, st))
    ensures PrintNodes(Tree(tokens, st)) == LinklessBody(tokens, st)
  {
    hide ApplyCtrl, WrapTree, WrapHtml, StyleOk, CanonCode;
    if tokens != [] {
      match tokens[0]
      case Ctrl(c) =>
        ApplyKeepsStyleOk(st, c);
        PrintTree(tokens[1..], ApplyCtrl(st, c));
      case Txt(t) =>
        var lines := LineNodes(Split(t, '\n'));
        PrintLines(Split(t, '\n'));
        PrintWrap(st, lines);
        PrintTree(tokens[1..], st);
        PrintNodesConcat(WrapTree(st, lines), Tree(tokens[1..], st));
        PrintableConcat(WrapTree(st, lines), Tree(tokens[1..], st));
    }
  }

  lemma {:induction false} PrintableConcat(a: seq<Node>, b: seq<Node>)
    requires AllPrintable(a) && AllPrintable(b)
    ensures AllPrintable(a + b)
  {
    if a == [] {
      assert a + b == b;
    } else {
      assert (a + b)[1..] == a[1..] + b;
      PrintableConcat(a[1..], b);
    }
  }

  // ---------- what it means ----------

  function UpperColor(c: Option<string>): Option<string> {
    if c.Some? then Some(Upper(c.value)) else None
  }

  /** The style with its colours in upper case, as the HTML side has them. */
  function UpperStyle(st: Style): Style {
    st.(fg := UpperColor(st.fg), bg := UpperColor(st.bg))
  }

  function UpperCells(cells: seq<Cell>): (r: seq<Cell>)
    ensures |r| == |cells|
    ensures forall i | 0 <= i < |cells| :: r[i] == Cell(cells[i].ch, UpperStyle(cells[i].style))
  {
    seq(|cells|, i requires 0 <= i < |cells| => Cell(cells[i].ch, UpperStyle(cells[i].style)))
  }

  lemma UpperConcat(a: seq<Cell>, b: seq<Cell>)
    ensures UpperCells(a + b) == UpperCells(a) + UpperCells(b)
  {
  }

  lemma UpperStyled(t: string, st: Style)
    ensures UpperCells(Styled(t, st)) == Styled(t, UpperStyle(st))
  {
  }

  lemma {:induction false} FlattenConcat(a: seq<Node>, b: seq<Node>, st: Style)
    ensures Flatten(a + b, st) == Flatten(a, st) + Flatten(b, st)
  {
    hide FlattenNode;
    if a == [] {
      assert a + b == b;
    } else {
      assert (a + b)[1..] == a[1..] + b;
      FlattenConcat(a[1..], b, st);
      Assoc(FlattenNode(a[0], st), Flatten(a[1..], st), Flatten(b, st));
    }
  }

  lemma FlattenOne(n: Node, st: Style)
    ensures Flatten([n], st) == FlattenNode(n, st)
  {
    hide FlattenNode;
    assert Flatten([n][1..], st) == [];
  }

  lemma FlattenTextNode(p: string, st: Style)
    ensures Flatten(TextNode(p), st) == Styled(p, st)
  {
    if p != "" {
      FlattenOne(Text(p), st);
    }
  }

  /** An element's meaning depends on its children only through theirs. */
  lemma FlattenChildren(name: string, attrs: seq<Attr>, a: seq<Node>, b: seq<Node>, st: Style)
    requires var tag := Classify(name);
      var st' := Inside(tag, TagColors(tag, attrs), st);
      Flatten(a, st') == Flatten(b, st')
    ensures FlattenNode(Element(name, attrs, a), st) == FlattenNode(Element(name, attrs, b), st)
  {
    hide Classify, TagColors, Inside, Flatten;
  }

  /** Merging texts changes no meaning. */
  lemma {:induction false} FlattenNorm(nodes: seq<Node>, p: string, st: Style)
    ensures Flatten(NormFrom(nodes, p), st) == Styled(p, st) + Flatten(nodes, st)
    decreases nodes
  {
    hide FlattenNode, Classify, TagColors, Inside, TextNode, Styled;
    if nodes == [] {
      FlattenTextNode(p, st);
      assert Styled(p, st) + [] == Styled(p, st);
    } else {
      var rest := nodes[1..];
      match nodes[0]
      case Text(t) =>
        FlattenNorm(rest, p + t, st);
        StyledConcat(p, t, st);
        Assoc(Styled(p, st), Styled(t, st), Flatten(rest, st));
        FlattenText(t, st);
      case Comment =>
        FlattenNorm(rest, p, st);
        FlattenComment(st);
        assert [] + Flatten(rest, st) == Flatten(rest, st);
      case Element(name, attrs, children) =>
        var tag := Classify(name);
        var st' := Inside(tag, TagColors(tag, attrs), st);
        FlattenNorm(children, "", st');
        StyledNone(st');
        assert [] + Flatten(children, st') == Flatten(children, st');
        FlattenChildren(name, attrs, NormFrom(children, ""), children, st);
        FlattenNorm(rest, "", st);
        StyledNone(st);
        assert [] + Flatten(rest, st) == Flatten(rest, st);
        var e := Element(name, attrs, NormFrom(children, ""));
        FlattenTextNode(p, st);
        FlattenOne(e, st);
        FlattenConcat(TextNode(p), [e], st);
        FlattenConcat(TextNode(p) + [e], NormFrom(rest, ""), st);
        Assoc(Styled(p, st), FlattenNode(e, st), Flatten(rest, st));
    }
  }

  lemma StyledNone(st: Style)
    ensures Styled("", st) == []
  {
  }

  lemma FlattenText(t: string, st: Style)
    ensures FlattenNode(Text(t), st) == Styled(t, st)
  {
  }

  lemma FlattenComment(st: Style)
    ensures FlattenNode(Comment, st) == []
  {
  }

  /** The tags that `wrap_html` writes. */
  lemma TagNames()
    ensures Classify("b") == Simple(Bold, false) && Classify("code") == Simple(Mono, false)
    ensures Classify("i") == Simple(Italic, false) && Classify("u") == Simple(Underline, false)
    ensures Classify("strike") == Simple(HtmlToIrc.Strike, false)
    ensures Classify("font") == Font && Classify("br") == Break
  {
  }

  lemma {:induction false} FlattenLines(lines: seq<string>, st: Style)
    requires |lines| >= 1
    ensures Flatten(LineNodes(lines), st) == Styled(Join(lines, '\n'), st)
  {
    hide FlattenNode, Flatten, Styled;
    FlattenText(lines[0], st);
    if |lines| == 1 {
      FlattenOne(Text(lines[0]), st);
    } else {
      var rest := lines[1..];
      FlattenLines(rest, st);
      FlattenBreak(st);
      FlattenOne(BR, st);
      FlattenOne(Text(lines[0]), st);
      FlattenConcat([BR], LineNodes(rest), st);
      FlattenConcat([Text(lines[0])], [BR] + LineNodes(rest), st);
      StyledConcat("\n", Join(rest, '\n'), st);
      StyledConcat(lines[0], "\n" + Join(rest, '\n'), st);
      assert lines[0] + ['\n'] + Join(rest, '\n') == lines[0] + ("\n" + Join(rest, '\n'));
    }
  }

  lemma FlattenBreak(st: Style)
    ensures FlattenNode(BR, st) == Styled("\n", st)
  {
    hide Classify;
    TagNames();
    assert Flatten(BR.children, Inside(Break, NOCOLOR, st)) == [];
    assert Styled("\n", st) + ([] + Styled("", st)) == Styled("\n", st);
  }

  lemma FlattenInNode(on: bool, name: string, m: Mark, nodes: seq<Node>, st: Style)
    requires Classify(name) == Simple(m, false)
    ensures Flatten(InNode(on, name, nodes), st) == Flatten(nodes, if on then Paint(m, st) else st)
  {
    hide Classify, Paint;
    if on {
      var e := Element(name, [], nodes);
      FlattenOne(e, st);
      var inner := Flatten(nodes, Paint(m, st));
      assert Styled("", st) + (inner + Styled("", st)) == inner;
    }
  }

  /** The five style tags around a list paint exactly the styles that are on. */
  lemma FlattenMarks(s: Style, nodes: seq<Node>, fg: Option<string>, bg: Option<string>)
    ensures Flatten(WrapMarks(s, nodes), PLAIN.(fg := fg, bg := bg)) == Flatten(nodes, s.(fg := fg, bg := bg))
  {
    hide Classify, Flatten, InNode;
    TagNames();
    var b := InNode(s.bold, "b", nodes);
    var m := InNode(s.monospace, "code", b);
    var i := InNode(s.italic, "i", m);
    var u := InNode(s.underlined, "u", i);
    var base := PLAIN.(fg := fg, bg := bg);
    FlattenInNode(s.strike, "strike", HtmlToIrc.Strike, u, base);
    var s1 := base.(strike := s.strike);
    FlattenInNode(s.underlined, "u", Underline, i, s1);
    var s2 := s1.(underlined := s.underlined);
    FlattenInNode(s.italic, "i", Italic, m, s2);
    var s3 := s2.(italic := s.italic);
    FlattenInNode(s.monospace, "code", Mono, b, s3);
    var s4 := s3.(monospace := s.monospace);
    FlattenInNode(s.bold, "b", Bold, nodes, s4);
  }

  /** A colour written by `wrap_html` is read back by `norm_color`, upper case. */
  lemma NormHash(c: string)
    requires IsHash(Some(c))
    ensures NormColor(c) == Some(Upper(c[1..])) && "#" + Upper(c[1..]) == Upper(c)
  {
    assert c[1] != '#';
    TrimStartIdle(Only('#'), c[1..]);
  }

  lemma ColorsOf(st: Style)
    requires StyleOk(st)
    ensures Hash(FontColors(ColorAttrs(st)).fg) == UpperColor(st.fg)
    ensures Hash(FontColors(ColorAttrs(st)).bg) == UpperColor(st.bg)
    ensures st.fg.Some? || st.bg.Some? ==> FontColors(ColorAttrs(st)) != NOCOLOR
  {
    hide NormColor, IsHash, Upper;
    var attrs := ColorAttrs(st);
    KeysDiffer();
    if st.fg.Some? {
      NormHash(st.fg.value);
    }
    if st.bg.Some? {
      NormHash(st.bg.value);
    }
    assert Attribute(attrs, "data-mx-color") == st.fg by { TwoAttrs(st.fg, st.bg); }
    assert Attribute(attrs, "data-mx-bg-color") == st.bg by { TwoAttrs(st.fg, st.bg); }
  }

  lemma KeysDiffer()
    ensures "data-mx-color" != "data-mx-bg-color"
  {
    assert "data-mx-color"[8] == 'c' && "data-mx-bg-color"[8] == 'b';
  }

  lemma TwoAttrs(fg: Option<string>, bg: Option<string>)
    ensures var attrs := ColorNode("data-mx-color", fg) + ColorNode("data-mx-bg-color", bg);
      Attribute(attrs, "data-mx-color") == fg && Attribute(attrs, "data-mx-bg-color") == bg
  {
    KeysDiffer();
    var attrs := ColorNode("data-mx-color", fg) + ColorNode("data-mx-bg-color", bg);
    if fg.Some? {
      assert attrs[1..] == ColorNode("data-mx-bg-color", bg);
    }
  }

  lemma FlattenWrap(s: Style, nodes: seq<Node>)
    requires StyleOk(s)
    ensures Flatten(WrapTree(s, nodes), PLAIN) == Flatten(nodes, UpperStyle(s))
  {
    hide Classify, Flatten, WrapMarks, FontColors, ColorAttrs, UpperColor, StyleOk;
    if s.fg.None? && s.bg.None? {
      NoUpper();
      FlattenMarks(s, nodes, None, None);
    } else {
      TagNames();
      var e := Element("font", ColorAttrs(s), WrapMarks(s, nodes));
      ColorsOf(s);
      FlattenOne(e, PLAIN);
      var st := PLAIN.(fg := UpperColor(s.fg), bg := UpperColor(s.bg));
      FlattenMarks(s, nodes, UpperColor(s.fg), UpperColor(s.bg));
      FlattenFont(ColorAttrs(s), WrapMarks(s, nodes), st);
    }
  }

  lemma NoUpper()
    ensures UpperColor(None) == None
  {
  }

  lemma FlattenFont(attrs: seq<Attr>, nodes: seq<Node>, st: Style)
    requires FontColors(attrs) != NOCOLOR && st == Tint(PLAIN, FontColors(attrs))
    ensures FlattenNode(Element("font", attrs, nodes), PLAIN) == Flatten(nodes, st)
  {
    hide Classify, FontColors, Flatten;
    TagNames();
    var inner := Flatten(nodes, st);
    assert Styled("", PLAIN) + (inner + Styled("", PLAIN)) == inner;
  }

  /** The tree shows what the tokens mean. */
  lemma {:induction false} FlattenTree(tokens: seq<Token>, st: Style)
    requires StyleOk(st) && CanonTokens(tokens)
    ensures Flatten(Tree(tokens, st), PLAIN) == UpperCells(Interp(tokens, st))
  {
    hide ApplyCtrl, WrapTree, StyleOk, CanonCode, Flatten, UpperStyle, Styled;
    if tokens == [] {
      FlattenNothing(PLAIN);
    } else {
      match tokens[0]
      case Ctrl(c) =>
        ApplyKeepsStyleOk(st, c);
        FlattenTree(tokens[1..], ApplyCtrl(st, c));
      case Txt(t) =>
        var nodes := LineNodes(Split(t, '\n'));
        FlattenLines(Split(t, '\n'), UpperStyle(st));
        JoinSplit(t, '\n');
        FlattenWrap(st, nodes);
        FlattenTree(tokens[1..], st);
        FlattenConcat(WrapTree(st, nodes), Tree(tokens[1..], st), PLAIN);
        UpperStyled(t, st);
        UpperConcat(Styled(t, st), Interp(tokens[1..], st));
    }
  }

  lemma FlattenNothing(st: Style)
    ensures Flatten([], st) == []
  {
  }

  // ---------- the document ----------

  predicate NoPNode(n: Node)
    decreases n, 0
  {
    n.Element? ==> n.name != "p" && NoP(n.children)
  }

  predicate NoP(nodes: seq<Node>)
    decreases nodes, 1
  {
    nodes == [] || (NoPNode(nodes[0]) && NoP(nodes[1..]))
  }

  lemma {:induction false} ParagraphsIdle(nodes: seq<Node>)
    requires NoP(nodes)
    ensures Paragraphs(nodes, false) == nodes
  {
    if nodes != [] {
      ParagraphsIdle(nodes[1..]);
      assert nodes == [nodes[0]] + nodes[1..];
      if nodes[0].Element? {
        ParagraphsIdle(nodes[0].children);
      }
    }
  }

  lemma {:induction false} NoPConcat(a: seq<Node>, b: seq<Node>)
    requires NoP(a) && NoP(b)
    ensures NoP(a + b)
  {
    if a == [] {
      assert a + b == b;
    } else {
      assert (a + b)[1..] == a[1..] + b;
      NoPConcat(a[1..], b);
    }
  }

  lemma NoPOne(n: Node)
    requires NoPNode(n)
    ensures NoP([n])
  {
    assert NoP([n][1..]);
  }

  lemma {:induction false} NoPNorm(nodes: seq<Node>, p: string)
    requires NoP(nodes)
    ensures NoP(NormFrom(nodes, p))
    decreases nodes
  {
    hide TextNode;
    NoPText(p);
    if nodes != [] {
      match nodes[0]
      case Text(t) => NoPNorm(nodes[1..], p + t);
      case Comment => NoPNorm(nodes[1..], p);
      case Element(name, attrs, children) =>
        NoPNorm(children, "");
        NoPNorm(nodes[1..], "");
        var e := Element(name, attrs, NormFrom(children, ""));
        NoPOne(e);
        NoPConcat(TextNode(p), [e]);
        NoPConcat(TextNode(p) + [e], NormFrom(nodes[1..], ""));
    }
  }

  lemma NoPText(p: string)
    ensures NoP(TextNode(p))
  {
    if p != "" {
      NoPOne(Text(p));
    }
  }

  lemma {:induction false} NoPLines(lines: seq<string>)
    requires |lines| >= 1
    ensures NoP(LineNodes(lines))
  {
    NoPOne(Text(lines[0]));
    if |lines| > 1 {
      assert BR.name[0] == 'b';
      assert NoP(BR.children);
      NoPOne(BR);
      NoPLines(lines[1..]);
      NoPConcat([BR], LineNodes(lines[1..]));
      NoPConcat([Text(lines[0])], [BR] + LineNodes(lines[1..]));
    }
  }

  lemma NoPInNode(on: bool, tag: string, nodes: seq<Node>)
    requires NoP(nodes) && tag != "p"
    ensures NoP(InNode(on, tag, nodes))
  {
    if on {
      NoPOne(Element(tag, [], nodes));
    }
  }

  lemma NoPWrap(st: Style, nodes: seq<Node>)
    requires NoP(nodes)
    ensures NoP(WrapTree(st, nodes))
  {
    hide NoP, InNode, ColorAttrs;
    var b := InNode(st.bold, "b", nodes);
    NoPInNode(st.bold, "b", nodes);
    var m := InNode(st.monospace, "code", b);
    NoPInNode(st.monospace, "code", b);
    var i := InNode(st.italic, "i", m);
    NoPInNode(st.italic, "i", m);
    var u := InNode(st.underlined, "u", i);
    NoPInNode(st.underlined, "u", i);
    NoPInNode(st.strike, "strike", u);
    if !(st.fg.None? && st.bg.None?) {
      NoPOne(Element("font", ColorAttrs(st), WrapMarks(st, nodes)));
    }
  }

  lemma {:induction false} NoPTree(tokens: seq<Token>, st: Style)
    ensures NoP(Tree(tokens, st))
  {
    hide ApplyCtrl, WrapTree;
    if tokens != [] {
      match tokens[0]
      case Ctrl(c) => NoPTree(tokens[1..], ApplyCtrl(st, c));
      case Txt(t) =>
        NoPLines(Split(t, '\n'));
        NoPWrap(st, LineNodes(Split(t, '\n')));
        NoPTree(tokens[1..], st);
        NoPConcat(WrapTree(st, LineNodes(Split(t, '\n'))), Tree(tokens[1..], st));
    }
  }

  /** The appended reset shows nothing and ends in the plain style. */
  lemma ResetAppended(text: string)
    ensures CanonTokens(Tokens(text))
    ensures Interp(Tokens(text), PLAIN) == Meaning(text) && EndStyle(Tokens(text), PLAIN) == PLAIN
  {
    hide Lex, CanonTokens, ApplyCtrl;
    LexIsCanon(text + [RESET]);
    LexAppend(text, [RESET], PLAIN);
    var st := EndStyle(Lex(text), PLAIN);
    ResetAlone(st);
    assert Meaning(text) + [] == Meaning(text);
  }

  lemma ResetAlone(st: Style)
    ensures Interp(Lex([RESET]), st) == [] && EndStyle(Lex([RESET]), st) == PLAIN
  {
    LexCode([RESET]);
    LexNone();
    assert [RESET][1..] == "";
    InterpCode([RESET], st);
    assert [Ctrl([RESET])] + [] == [Ctrl([RESET])];
  }

  /** The tree the HTML body of a link-free text is parsed to. */
  lemma HtmlBodyDocument(text: string)
    requires LinkFree(text)
    ensures Paragraphs(Parse(HtmlBody(Tokens(text), PLAIN, [])), false) == Norm(Tree(Tokens(text), PLAIN))
  {
    hide Parse, Tree, CanonTokens, HtmlBody, LinklessBody, Tokens, Paragraphs, NormFrom, LinkFree;
    var tokens := Tokens(text);
    ResetAppended(text);
    LinkFreeMessage(text);
    PrintTree(tokens, PLAIN);
    ParsePrint(Tree(tokens, PLAIN));
    NoPTree(tokens, PLAIN);
    NoPNorm(Tree(tokens, PLAIN), "");
    ParagraphsIdle(Norm(Tree(tokens, PLAIN)));
  }

  /** IRC to HTML preserves meaning: for every link-free text, the document that the HTML body is parsed to
      shows the same characters in the same styles, colours up to the case of their digits. */
  lemma IrcToHtmlPreserves(text: string)
    requires LinkFree(text)
    ensures Flatten(Paragraphs(Parse(HtmlBody(Tokens(text), PLAIN, [])), false), PLAIN) == UpperCells(Meaning(text))
  {
    hide Parse, Tree, CanonTokens, HtmlBody, Tokens, Paragraphs, NormFrom, Flatten, Meaning, Interp, LinkFree;
    var tokens := Tokens(text);
    ResetAppended(text);
    HtmlBodyDocument(text);
    FlattenNorm(Tree(tokens, PLAIN), "", PLAIN);
    StyledNone(PLAIN);
    FlattenTree(tokens, PLAIN);
    var cells := Flatten(Tree(tokens, PLAIN), PLAIN);
    assert [] + cells == cells;
  }
}
