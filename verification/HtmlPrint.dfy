/** Writing a tree out as HTML, and reading it back with `parse_html`. */
module HtmlPrint {
  import opened Strings
  import opened Entities
  import opened Html

  predicate NameChar(c: char) {
    !IsWhite(c) && c !in "<>/!=\"" && LowerChar(c) == c
  }

  /** A tag or attribute name that survives the parser's trimming and lower-casing. */
  predicate PlainName(s: string) {
    s != "" && forall i | 0 <= i < |s| :: NameChar(s[i])
  }

  /** A quoted attribute value that needs no escaping. */
  predicate PlainValue(s: string) {
    Free(Only('"'), s) && Free(Only('>'), s) && Free(Only('&'), s)
  }

  predicate PlainAttrs(attrs: seq<Attr>) {
    forall i | 0 <= i < |attrs| :: PlainName(attrs[i].key) && PlainValue(attrs[i].value)
  }

  predicate Printable(n: Node)
    decreases n, 0
  {
    match n
    case Element(name, attrs, children) => PlainName(name) && PlainAttrs(attrs) && AllPrintable(children)
    case Text(_) => true
    case Comment => false
  }

  predicate AllPrintable(nodes: seq<Node>)
    decreases nodes, 1
  {
    nodes == [] || (Printable(nodes[0]) && AllPrintable(nodes[1..]))
  }

  function PrintAttrs(attrs: seq<Attr>): string {
    if attrs == [] then ""
    else " " + (attrs[0].key + ("=" + ("\"" + (attrs[0].value + ("\"" + PrintAttrs(attrs[1..]))))))
  }

  predicate IsBreak(n: Node) {
    n == Element("br", [], [])
  }

  function PrintNode(n: Node): string
    decreases n, 0
  {
    match n
    case Text(t) => Escape(t)
    case Comment => ""
    case Element(name, attrs, children) =>
      if IsBreak(n) then "<br/>"
      else "<" + (name + PrintAttrs(attrs)) + ">" + PrintNodes(children) + ("</" + name + ">")
  }

  function PrintNodes(nodes: seq<Node>): string
    decreases nodes, 1
  {
    if nodes == [] then "" else PrintNode(nodes[0]) + PrintNodes(nodes[1..])
  }

  lemma {:induction false} PrintNodesConcat(a: seq<Node>, b: seq<Node>)
    ensures PrintNodes(a + b) == PrintNodes(a) + PrintNodes(b)
  {
    if a == [] {
      assert a + b == b;
    } else {
      assert (a + b)[1..] == a[1..] + b;
      PrintNodesConcat(a[1..], b);
      Assoc(PrintNode(a[0]), PrintNodes(a[1..]), PrintNodes(b));
    }
  }

  /** Trees as the parser leaves them: neighbouring texts merged, empty texts gone. The second
      argument is text that precedes the list. */
  function NormFrom(nodes: seq<Node>, pending: string): seq<Node>
    decreases nodes, 1
  {
    if nodes == [] then TextNode(pending)
    else
      match nodes[0]
      case Text(t) => NormFrom(nodes[1..], pending + t)
      case Comment => NormFrom(nodes[1..], pending)
      case Element(name, attrs, children) =>
        TextNode(pending) + [Element(name, attrs, NormFrom(children, ""))] + NormFrom(nodes[1..], "")
  }

  function Norm(nodes: seq<Node>): seq<Node> {
    NormFrom(nodes, "")
  }

  // ---------- reading one tag ----------

  lemma TrimIdle(s: string)
    requires s != "" ==> !IsWhite(s[0]) && !IsWhite(s[|s| - 1])
    ensures Trim(s) == s
  {
    TrimStartIdle(White, s);
    TrimEndIdle(White, s);
  }

  lemma {:induction false} LowerIdle(s: string)
    requires forall i | 0 <= i < |s| :: LowerChar(s[i]) == s[i]
    ensures Lower(s) == s
  {
    assert forall i | 0 <= i < |s| :: Lower(s)[i] == s[i];
  }

  /** One printed attribute is read back, and the blank before the next one is skipped. */
  lemma AttrStepPrinted(key: string, value: string, rest: string)
    requires PlainName(key) && PlainValue(value)
    ensures var s := key + ("=" + ("\"" + (value + ("\"" + rest))));
      Trimmed(s) && AttrStep(s) == (key, value, TrimStart(White, rest))
  {
    hide Find, TrimStart;
    var quoted := value + ("\"" + rest);
    var tail := "=" + ("\"" + quoted);
    FindAt(WhiteOr('='), key, '=', "\"" + quoted);
    TrimStartIdle(White, tail);
    assert tail[1..] == "\"" + quoted;
    TrimStartIdle(White, "\"" + quoted);
    assert ("\"" + quoted)[1..] == quoted;
    FindAt(Only('"'), value, '"', rest);
  }

  lemma TrimBlank(s: string)
    ensures TrimStart(White, " " + s) == TrimStart(White, s)
  {
    assert (" " + s)[1..] == s;
  }

  lemma PlainAttrIs(key: string, value: string)
    requires PlainName(key) && PlainValue(value)
    ensures MakeAttr(key, value) == [Attr(key, value)]
  {
    LowerIdle(key);
    DecodePlain(value);
  }

  lemma {:induction false} AttrsPrinted(attrs: seq<Attr>)
    requires PlainAttrs(attrs)
    ensures Trimmed(TrimStart(White, PrintAttrs(attrs)))
    ensures AttrsFrom(TrimStart(White, PrintAttrs(attrs))) == attrs
  {
    hide TrimStart, AttrStep, PlainName, PlainValue, MakeAttr;
    if attrs == [] {
      TrimStartIdle(White, "");
    } else {
      var a := attrs[0];
      var rest := PrintAttrs(attrs[1..]);
      var s := a.key + ("=" + ("\"" + (a.value + ("\"" + rest))));
      PlainNameHead(a.key);
      assert PrintAttrs(attrs) == " " + s;
      TrimBlank(s);
      AttrStepPrinted(a.key, a.value, rest);
      TrimStartIdle(White, s);
      AttrsPrinted(attrs[1..]);
      PlainAttrIs(a.key, a.value);
      assert attrs == [a] + attrs[1..];
    }
  }

  lemma PlainNameFree(s: string)
    requires PlainName(s)
    ensures Free(Only('>'), s) && Free(White, s)
  {
    forall i | 0 <= i < |s| ensures s[i] != '>' && !IsWhite(s[i]) {
      assert NameChar(s[i]);
    }
  }

  lemma {:induction false} PrintAttrsShape(attrs: seq<Attr>)
    requires PlainAttrs(attrs) && attrs != []
    ensures var s := PrintAttrs(attrs);
      Free(Only('>'), s) && |s| > 2 && s[0] == ' ' && !IsWhite(s[1]) && s[|s| - 1] == '"'
  {
    hide Free, PlainName;
    var a := attrs[0];
    var rest := PrintAttrs(attrs[1..]);
    PlainNameFree(a.key);
    PlainNameHead(a.key);
    FreeSigns();
    if |attrs| > 1 {
      PrintAttrsShape(attrs[1..]);
    }
    FreeConcat(Only('>'), "\"", rest);
    FreeConcat(Only('>'), a.value, "\"" + rest);
    FreeConcat(Only('>'), "\"", a.value + ("\"" + rest));
    FreeConcat(Only('>'), "=", "\"" + (a.value + ("\"" + rest)));
    FreeConcat(Only('>'), a.key, "=" + ("\"" + (a.value + ("\"" + rest))));
    FreeConcat(Only('>'), " ", a.key + ("=" + ("\"" + (a.value + ("\"" + rest)))));
  }

  lemma FreeSigns()
    ensures Free(Only('>'), "") && Free(Only('>'), "\"") && Free(Only('>'), "=") && Free(Only('>'), " ")
  {
  }

  lemma PlainNameHead(s: string)
    requires PlainName(s)
    ensures s != "" && NameChar(s[0]) && NameChar(s[|s| - 1])
  {
  }

  lemma ParseAttrsPrinted(attrs: seq<Attr>)
    requires PlainAttrs(attrs)
    ensures ParseAttrs(PrintAttrs(attrs)) == attrs
  {
    hide AttrsFrom;
    AttrsPrinted(attrs);
    var s := PrintAttrs(attrs);
    if attrs != [] {
      PrintAttrsShape(attrs);
      TrimStartIdle(White, s[1..]);
      TrimEndIdle(White, s[1..]);
    }
  }

  /** An opening tag as printed is read as that tag. */
  lemma ReadOpening(name: string, attrs: seq<Attr>)
    requires PlainName(name) && PlainAttrs(attrs)
    ensures ReadTag(name + PrintAttrs(attrs)) == (Opening, name, attrs)
  {
    hide TrimStart, TrimEnd, Trim, Find, ParseAttrs;
    var p := PrintAttrs(attrs);
    var inner := name + p;
    if attrs != [] {
      PrintAttrsShape(attrs);
    }
    ParseAttrsPrinted(attrs);
    assert NameChar(name[0]) && NameChar(name[|name| - 1]);
    assert inner[0] == name[0];
    assert inner[|inner| - 1] == if attrs == [] then name[|name| - 1] else '"';
    TrimStartIdle(Only('/'), inner);
    TrimEndIdle(Only('/'), inner);
    TrimIdle(inner);
    FindSkip(White, name, p);
    FindWhiteHead(p);
    assert inner[..|name|] == name && inner[|name|..] == p;
    LowerIdle(name);
  }

  lemma FindWhiteHead(p: string)
    requires p == "" || IsWhite(p[0])
    ensures Find(White, p) == 0
  {
  }

  lemma ReadClosing(name: string)
    requires PlainName(name)
    ensures ReadTag("/" + name) == (Closing, name, [])
  {
    var inner := "/" + name;
    assert NameChar(name[0]) && NameChar(name[|name| - 1]);
    assert inner[1..] == name;
    assert TrimStart(Only('/'), inner) == TrimStart(Only('/'), name);
    TrimStartIdle(Only('/'), name);
    TrimEndIdle(Only('/'), name);
    TrimIdle(name);
    FindSkip(White, name, "");
    assert name + "" == name && name[..|name|] == name;
    LowerIdle(name);
  }

  lemma ReadBreak()
    ensures ReadTag("br/") == (SelfClosing, "br", [])
  {
    var inner := "br/";
    TrimStartIdle(Only('/'), inner);
    assert inner[..2] == "br";
    TrimEndIdle(Only('/'), "br");
    assert TrimEnd(Only('/'), inner) == "br";
    TrimIdle("br");
    FindSkip(White, "br", "");
    assert "br" + "" == "br" && "br"[..2] == "br";
    LowerIdle("br");
  }

  // ---------- reading a printed tree ----------

  lemma ConsumeTag(inner: string, rest: string, b: Builder)
    requires inner != "" && inner[0] != '!' && Free(Only('>'), inner)
    ensures Consume("<" + inner + ">" + rest, b) == Consume(rest, ApplyTag(Flush(b), ReadTag(inner)))
  {
    hide Flush, ReadTag, ApplyTag, Find;
    var s := "<" + inner + ">" + rest;
    FindAt(Only('>'), "<" + inner, '>', rest);
    assert s == ("<" + inner) + ([('>')] + rest);
    assert s[1..1 + |inner|] == inner;
    assert s[1] != '!' && !("<!--" <= s) by {
      assert s[1] == inner[0];
    }
  }

  /** The state after a printed node has gone by. */
  function AbsorbNode(n: Node, b: Builder): Builder
    decreases n, 0
  {
    match n
    case Text(t) => b.(text := b.text + Escape(t))
    case Comment => b
    case Element(name, attrs, children) =>
      if IsBreak(n) then Append(Flush(b), [n])
      else
        ApplyTag(Flush(AbsorbNodes(children, ApplyTag(Flush(b), (Opening, name, attrs)))), (Closing, name, []))
  }

  function AbsorbNodes(nodes: seq<Node>, b: Builder): Builder
    decreases nodes, 1
  {
    if nodes == [] then b else AbsorbNodes(nodes[1..], AbsorbNode(nodes[0], b))
  }

  lemma {:induction false} ConsumeNode(n: Node, rest: string, b: Builder)
    requires Printable(n)
    ensures Consume(PrintNode(n) + rest, b) == Consume(rest, AbsorbNode(n, b))
    decreases n, 0
  {
    hide Consume, ReadTag, ApplyTag, Flush, Escape;
    match n
    case Text(t) => ConsumeRun(Escape(t), rest, b);
    case Element(name, attrs, children) =>
      if IsBreak(n) {
        ReadBreak();
        ConsumeTag("br/", rest, b);
        assert "<" + "br/" + ">" + rest == "<br/>" + rest;
        BreakTag(Flush(b));
      } else {
        assert NameChar(name[0]);
        var body, close := PrintNodes(children), "</" + name + ">";
        var inner := name + PrintAttrs(attrs);
        if attrs != [] {
          PrintAttrsShape(attrs);
        }
        ConsumeTag(inner, body + (close + rest), b);
        assert PrintNode(n) + rest == "<" + inner + ">" + (body + (close + rest));
        ReadOpening(name, attrs);
        var inside := ApplyTag(Flush(b), (Opening, name, attrs));
        ConsumeNodes(children, close + rest, inside);
        ConsumeTag("/" + name, rest, AbsorbNodes(children, inside));
        assert close + rest == "<" + ("/" + name) + ">" + rest;
        ReadClosing(name);
      }
  }

  lemma BreakTag(b: Builder)
    ensures ApplyTag(b, (SelfClosing, "br", [])) == Append(b, [Element("br", [], [])])
  {
  }

  lemma {:induction false} ConsumeNodes(nodes: seq<Node>, rest: string, b: Builder)
    requires AllPrintable(nodes)
    ensures Consume(PrintNodes(nodes) + rest, b) == Consume(rest, AbsorbNodes(nodes, b))
    decreases nodes, 1
  {
    hide Consume;
    if nodes == [] {
      assert "" + rest == rest;
    } else {
      var b' := AbsorbNode(nodes[0], b);
      ConsumeNode(nodes[0], PrintNodes(nodes[1..]) + rest, b);
      ConsumeNodes(nodes[1..], rest, b');
      Assoc(PrintNode(nodes[0]), PrintNodes(nodes[1..]), rest);
    }
  }

  lemma AppendAppend(b: Builder, x: seq<Node>, y: seq<Node>)
    ensures Append(Append(b, x), y) == Append(b, x + y)
  {
    if b.stack == [] {
      Assoc(b.top, x, y);
    } else {
      var last := b.stack[|b.stack| - 1];
      var below := b.stack[..|b.stack| - 1];
      var grown := below + [last.(children := last.children + x)];
      assert grown[..|grown| - 1] == below;
      Assoc(last.children, x, y);
    }
  }

  lemma AppendNone(b: Builder)
    ensures Append(b, []) == b
  {
    if b.stack == [] {
      assert b.top + [] == b.top;
    } else {
      var last := b.stack[|b.stack| - 1];
      assert last.children + [] == last.children;
      assert b.stack[..|b.stack| - 1] + [last] == b.stack;
    }
  }

  lemma FlushEscaped(b: Builder, p: string)
    requires b.text == Escape(p)
    ensures Flush(b) == Append(b.(text := ""), TextNode(p))
  {
    DecodeEscape(p);
    if p == "" {
      AppendNone(b);
    }
  }

  /** Closing the element opened last, whatever lies below it on the stack. */
  lemma CloseOpened(b: Builder, name: string, attrs: seq<Attr>, children: seq<Node>)
    ensures ApplyTag(b.(stack := b.stack + [Frame(name, attrs, children)]), (Closing, name, []))
         == Append(b, [Element(name, attrs, children)])
  {
    var o := b.(stack := b.stack + [Frame(name, attrs, children)]);
    assert LastNamed(o.stack, name) == Some(|b.stack|);
    assert o.stack[..|b.stack|] == b.stack;
    assert CloseInnermost(o) == Append(b, [Element(name, attrs, children)]);
    AppendDepth(b, [Element(name, attrs, children)]);
    assert CloseTo(o, |b.stack|) == CloseTo(CloseInnermost(o), |b.stack|);
  }

  lemma AppendDepth(b: Builder, nodes: seq<Node>)
    ensures |Append(b, nodes).stack| == |b.stack|
  {
  }

  lemma EscapeNone()
    ensures Escape("") == ""
  {
  }

  /** Opening an element and then filling it. */
  lemma FillOpened(b: Builder, name: string, attrs: seq<Attr>, children: seq<Node>)
    ensures Append(ApplyTag(b, (Opening, name, attrs)), children)
         == b.(stack := b.stack + [Frame(name, attrs, children)])
  {
    var pushed := b.stack + [Frame(name, attrs, [])];
    assert pushed[..|pushed| - 1] == b.stack;
    assert [] + children == children;
  }

  lemma {:induction false} AbsorbElement(n: Node, b: Builder)
    requires Printable(n) && n.Element?
    ensures AbsorbNode(n, b) == Append(Flush(b), [n.(children := NormFrom(n.children, ""))])
    decreases n, 0
  {
    hide Append, ApplyTag, Escape;
    var f := Flush(b);
    if IsBreak(n) {
      assert NormFrom([], "") == [];
    } else {
      var inside := ApplyTag(f, (Opening, n.name, n.attrs));
      EscapeNone();
      AbsorbIsNorm(n.children, inside, "");
      FillOpened(f, n.name, n.attrs, NormFrom(n.children, ""));
      CloseOpened(f, n.name, n.attrs, NormFrom(n.children, ""));
    }
  }

  /** Absorbing a list and flushing adds exactly the normal form of the list. */
  lemma {:induction false} AbsorbIsNorm(nodes: seq<Node>, b: Builder, p: string)
    requires AllPrintable(nodes) && b.text == Escape(p)
    ensures Flush(AbsorbNodes(nodes, b)) == Append(b.(text := ""), NormFrom(nodes, p))
    decreases nodes, 1
  {
    hide Flush, Append, ApplyTag, Escape;
    var clear := b.(text := "");
    if nodes == [] {
      FlushEscaped(b, p);
    } else {
      var rest := nodes[1..];
      match nodes[0]
      case Text(t) =>
        EscapeConcat(p, t);
        AbsorbIsNorm(rest, b.(text := b.text + Escape(t)), p + t);
      case Element(name, attrs, children) =>
        var f := Flush(b);
        FlushEscaped(b, p);
        AbsorbElement(nodes[0], b);
        EscapeNone();
        var e := Element(name, attrs, NormFrom(children, ""));
        AbsorbIsNorm(rest, Append(f, [e]), "");
        AppendAppend(f, [e], NormFrom(rest, ""));
        AppendAppend(clear, TextNode(p), [e] + NormFrom(rest, ""));
        Assoc(TextNode(p), [e], NormFrom(rest, ""));
    }
  }

  /** Parsing a printed tree gives back the tree, with neighbouring texts merged and empty ones
      gone: element names, attributes, nesting, order and every character of text survive. */
  lemma ParsePrint(nodes: seq<Node>)
    requires AllPrintable(nodes)
    ensures Parse(PrintNodes(nodes)) == Norm(nodes)
  {
    hide Consume, AbsorbNodes, Flush, NormFrom;
    ConsumeNodes(nodes, "", EMPTY);
    assert PrintNodes(nodes) + "" == PrintNodes(nodes);
    ConsumeNothing(AbsorbNodes(nodes, EMPTY));
    EscapeNone();
    AbsorbIsNorm(nodes, EMPTY, "");
    var done := Append(EMPTY, NormFrom(nodes, ""));
    assert done == Builder([], [] + NormFrom(nodes, ""), "");
    assert CloseTo(done, 0) == done;
  }
}
