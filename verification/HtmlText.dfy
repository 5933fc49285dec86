/** `parse_html` keeps every piece of text, in document order, on any tag soup. */
module HtmlText {
  import opened Strings
  import opened Entities
  import opened Html

  function NodeText(n: Node): string
    decreases n, 0
  {
    match n
    case Element(_, _, children) => NodesText(children)
    case Text(t) => t
    case Comment => ""
  }

  function NodesText(nodes: seq<Node>): string
    decreases nodes, 1
  {
    if nodes == [] then "" else NodeText(nodes[0]) + NodesText(nodes[1..])
  }

  /** Position just past the comment or tag that starts `s`; the end of the input if it never ends. */
  function MarkupEnd(s: string): (r: nat)
    requires s != ""
    ensures 0 < r <= |s|
  {
    var comment := "<!--" <= s;
    var e := if comment then FindSub(s, "-->") else Find(Only('>'), s);
    if e == |s| then e else if comment then e + 3 else e + 1
  }

  /** What a reader of the input expects to survive: the decoded runs between tags and comments,
      up to the first comment or tag that never ends. Written without any tree or stack. */
  function SoupText(s: string): string
    decreases |s|
  {
    if s == "" then ""
    else if s[0] == '<' then SoupText(s[MarkupEnd(s)..])
    else
      var e := Find(Only('<'), s);
      Decode(s[..e]) + SoupText(s[e..])
  }

  function FramesText(stack: seq<Frame>): string {
    if stack == [] then ""
    else FramesText(stack[..|stack| - 1]) + NodesText(stack[|stack| - 1].children)
  }

  /** Text in the finished nodes, followed by the text in each open element, outermost first. */
  function Built(b: Builder): string {
    NodesText(b.top) + FramesText(b.stack)
  }

  lemma {:induction false} NodesTextConcat(a: seq<Node>, c: seq<Node>)
    ensures NodesText(a + c) == NodesText(a) + NodesText(c)
  {
    if a == [] {
      assert a + c == c;
    } else {
      assert (a + c)[1..] == a[1..] + c;
      NodesTextConcat(a[1..], c);
      Assoc(NodeText(a[0]), NodesText(a[1..]), NodesText(c));
    }
  }

  lemma NodesTextOne(n: Node)
    ensures NodesText([n]) == NodeText(n)
  {
    assert NodesText([n][1..]) == "";
  }

  lemma AppendBuilt(b: Builder, n: Node)
    ensures Built(Append(b, [n])) == Built(b) + NodeText(n)
  {
    NodesTextOne(n);
    if b.stack == [] {
      NodesTextConcat(b.top, [n]);
      assert FramesText(b.stack) == "";
    } else {
      var last := b.stack[|b.stack| - 1];
      var below := b.stack[..|b.stack| - 1];
      var grown := below + [last.(children := last.children + [n])];
      assert grown[..|grown| - 1] == below;
      NodesTextConcat(last.children, [n]);
      Assoc(FramesText(below), NodesText(last.children), NodeText(n));
      Assoc(NodesText(b.top), FramesText(b.stack), NodeText(n));
    }
  }

  /** Closing an element moves its text one level out and changes nothing in the order. */
  lemma CloseBuilt(b: Builder)
    requires b.stack != []
    ensures Built(CloseInnermost(b)) == Built(b)
  {
    var f := b.stack[|b.stack| - 1];
    var b' := b.(stack := b.stack[..|b.stack| - 1]);
    AppendBuilt(b', Element(f.name, f.attrs, f.children));
    Assoc(NodesText(b.top), FramesText(b'.stack), NodesText(f.children));
  }

  lemma {:induction false} CloseToBuilt(b: Builder, pos: nat)
    ensures Built(CloseTo(b, pos)) == Built(b)
    decreases |b.stack|
  {
    if |b.stack| > pos {
      CloseBuilt(b);
      CloseToBuilt(CloseInnermost(b), pos);
    }
  }

  lemma FlushBuilt(b: Builder)
    ensures Built(Flush(b)) == Built(b) + Decode(b.text)
  {
    if b.text != "" {
      AppendBuilt(b.(text := ""), Text(Decode(b.text)));
    }
  }

  lemma TagBuilt(b: Builder, tag: (TagKind, string, seq<Attr>))
    ensures Built(ApplyTag(b, tag)) == Built(b)
  {
    match tag.0
    case Closing =>
      var pos := LastNamed(b.stack, tag.1);
      if pos.Some? {
        CloseToBuilt(b, pos.value);
      }
    case Opening =>
      var pushed := b.stack + [Frame(tag.1, tag.2, [])];
      assert pushed[..|pushed| - 1] == b.stack;
    case SelfClosing =>
      AppendBuilt(b, Element(tag.1, tag.2, []));
  }

  lemma MarkupBuilt(s: string, b: Builder)
    requires s != "" && s[0] == '<'
    ensures var m := Markup(s, b);
      && (m.Unterminated? ==> MarkupEnd(s) == |s|)
      && (m.Turn? ==> m.used == MarkupEnd(s) && m.next.text == "" && Built(m.next) == Built(b) + Decode(b.text))
  {
    hide Append, Flush, ReadTag, ApplyTag, Built, Decode;
    FlushBuilt(b);
    if "<!--" <= s {
      if FindSub(s, "-->") < |s| {
        AppendBuilt(Flush(b), Comment);
        assert NodeText(Comment) == "";
      }
    } else {
      var e := Find(Only('>'), s);
      if e < |s| {
        TagBuilt(Flush(b), ReadTag(s[1..e]));
      }
    }
  }

  /** The loop invariant carried to the end of the input: what was built, what is pending, and
      what the rest of the input holds. */
  lemma {:induction false} ConsumeBuilt(s: string, b: Builder)
    requires b.text == "" || s == "" || s[0] == '<'
    ensures Built(Flush(Consume(s, b))) == Built(b) + Decode(b.text) + SoupText(s)
    decreases |s|
  {
    hide Flush, Markup, MarkupEnd, Decode;
    if s == "" {
      FlushBuilt(b);
    } else if s[0] == '<' {
      MarkupBuilt(s, b);
      match Markup(s, b)
      case Unterminated => FlushBuilt(b);
      case Turn(next, used) =>
        ConsumeBuilt(s[used..], next);
        DecodePlain("");
    } else {
      var e := Find(Only('<'), s);
      RunTurn(s, e, b);
      DecodePlain("");
      RunStart(s);
      assert "" + s[..e] == s[..e];
      var b' := b.(text := s[..e]);
      assert Built(b') == Built(b);
      ConsumeBuilt(s[e..], b');
      assert Built(b) + "" == Built(b);
      Assoc(Built(b), Decode(s[..e]), SoupText(s[e..]));
    }
  }

  lemma RunStart(s: string)
    ensures var rest := s[Find(Only('<'), s)..]; rest == "" || rest[0] == '<'
  {
    FindFirst(Only('<'), s);
  }

  /** Whatever the nesting mistakes, the tree holds exactly the text of the input, in order. */
  lemma ParseKeepsText(s: string)
    ensures NodesText(Parse(s)) == SoupText(s)
  {
    hide Flush, CloseTo, Consume, SoupText, Decode;
    var b := Flush(Consume(s, EMPTY));
    ConsumeBuilt(s, EMPTY);
    CloseToBuilt(b, 0);
    DecodePlain("");
    assert Built(EMPTY) == "";
    var closed := CloseTo(b, 0);
    assert FramesText(closed.stack) == "";
    assert NodesText(closed.top) + "" == NodesText(closed.top);
    assert "" + "" + SoupText(s) == SoupText(s);
  }
}
