/** HTML trees to IRC text: `collapse_paragraphs`, `transform_m2i` and `matrix_to_irc`. */
module HtmlToIrc {
  import opened Strings
  import opened Html
  import opened IrcCodes

  // ---------- tags ----------

  datatype Mark = Bold | Mono | Italic | Strike | Underline | NoMark

  datatype Tag = Reply | Anchor | Break | List | Item | Font | Simple(mark: Mark, pre: bool)

  /** The `match` of `transform_m2i` on tag names, with `irc_char_for_tag` folded in. */
  function Classify(name: string): Tag {
    if name == "mx-reply" then Reply
    else if name == "a" then Anchor
    else if name == "br" then Break
    else if name == "ol" || name == "ul" then List
    else if name == "li" then Item
    else if name == "font" || name == "span" then Font
    else if name == "strong" || name == "b" then Simple(Bold, false)
    else if name == "pre" then Simple(Mono, true)
    else if name == "code" then Simple(Mono, false)
    else if name == "em" || name == "i" then Simple(Italic, false)
    else if name == "del" || name == "strike" || name == "s" then Simple(Strike, false)
    else if name == "u" then Simple(Underline, false)
    else Simple(NoMark, false)
  }

  function MarkCode(m: Mark): string {
    match m
    case Bold => [BOLD]
    case Mono => [MONO]
    case Italic => [ITALIC]
    case Strike => [STRIKE]
    case Underline => [UNDERLINE]
    case NoMark => ""
  }

  /** `norm_color`: six hex digits after any number of `#`, upper case. */
  function NormColor(c: string): (r: Option<string>)
    ensures r.Some? ==> |r.value| == 6 && AllHex(r.value) && Upper(r.value) == r.value
  {
    var d := TrimStart(Only('#'), c);
    if |d| == 6 && AllHex(d) then
      assert forall i | 0 <= i < 6 :: IsHex(UpperChar(d[i])) && UpperChar(UpperChar(d[i])) == UpperChar(d[i]);
      Some(Upper(d))
    else None
  }

  /** A colour is six hex digits with nothing but `#` before them, and it is those digits in upper case. */
  lemma NormColorIff(c: string)
    ensures NormColor(c).Some? <==> |c| >= 6 && AllMatch(Only('#'), c[..|c| - 6]) && AllHex(c[|c| - 6..])
    ensures NormColor(c).Some? ==> NormColor(c) == Some(Upper(c[|c| - 6..]))
  {
    var d := TrimStart(Only('#'), c);
    TrimStartCuts(Only('#'), c);
    var k := |c| - |d|;
    assert c[..k] + c[k..] == c;
    if |c| >= 6 && AllMatch(Only('#'), c[..|c| - 6]) && AllHex(c[|c| - 6..]) {
      assert c[|c| - 6..][0] == c[|c| - 6] && IsHex(c[|c| - 6]);
    }
  }

  /** `attr`: the first attribute of that name. */
  function Attribute(attrs: seq<Attr>, key: string): Option<string> {
    if attrs == [] then None
    else if attrs[0].key == key then Some(attrs[0].value)
    else Attribute(attrs[1..], key)
  }

  function ColorAttr(attrs: seq<Attr>, key: string): (r: Option<string>)
    ensures r.Some? ==> |r.value| == 6 && AllHex(r.value) && Upper(r.value) == r.value
  {
    var a := Attribute(attrs, key);
    if a.Some? then NormColor(a.value) else None
  }

  /** Foreground and background of a font or span; None is no colour. */
  datatype Colors = Colors(fg: Option<string>, bg: Option<string>)

  function FontColors(attrs: seq<Attr>): Colors {
    Colors(ColorAttr(attrs, "data-mx-color"), ColorAttr(attrs, "data-mx-bg-color"))
  }

  const NOCOLOR: Colors := Colors(None, None)

  /** `irc_color_code`. */
  function ColorCode(c: Colors): string {
    match c
    case Colors(None, None) => [COLOR] + "99,99"
    case Colors(Some(f), None) => [HEXCOLOR] + f
    case Colors(None, Some(b)) => ([HEXCOLOR] + "000000," + b) + ([COLOR] + "99")
    case Colors(Some(f), Some(b)) => [HEXCOLOR] + f + "," + b
  }

  // ---------- whitespace ----------

  /** The newline regex: a run of line breaks with at most one blank before it or inside it
      becomes one blank. */
  function Squeeze(s: string): string
    decreases |s|
  {
    if s == "" then ""
    else if Matches(LineBreak, s[0]) then
      var r := TrimStart(LineBreak, s[1..]);
      " " + Squeeze(if r != "" && r[0] == ' ' then TrimStart(LineBreak, r[1..]) else r)
    else if s[0] == ' ' && |s| > 1 && Matches(LineBreak, s[1]) then
      " " + Squeeze(TrimStart(LineBreak, s[2..]))
    else [s[0]] + Squeeze(s[1..])
  }

  // ---------- the transformation ----------

  /** `M2IState`: inside `pre`, and the colours in force. */
  datatype Context = Context(pre: bool, colors: Colors)

  function TagColors(tag: Tag, attrs: seq<Attr>): Colors {
    if tag.Font? then FontColors(attrs) else NOCOLOR
  }

  /** The state an element's children are transformed in. */
  function InsideContext(tag: Tag, c: Colors, ctx: Context): Context {
    if tag.Simple? then ctx.(pre := ctx.pre || tag.pre) else if c != NOCOLOR then ctx.(colors := c) else ctx
  }

  /** An element around the text of its children. `targets` stands for `matrix_to_target`: the links that
      are room or user permalinks, with the identifiers they point at. */
  function EmitAround(tag: Tag, attrs: seq<Attr>, ctx: Context, targets: map<string, string>, text: string): string {
    match tag
    case Reply => ""
    case Break => "\n"
    case Anchor =>
      var link := Attribute(attrs, "href");
      if link.None? then text
      else if link.value in targets then targets[link.value]
      else if text == link.value then link.value
      else text + " <" + link.value + ">"
    case List => "\n" + text
    case Item => "* " + text + "\n"
    case Font =>
      var c := FontColors(attrs);
      if c == NOCOLOR then text else ColorCode(c) + text + ColorCode(ctx.colors)
    case Simple(m, _) => MarkCode(m) + text + MarkCode(m)
  }

  function EmitNode(n: Node, ctx: Context, targets: map<string, string>): string
    decreases n, 0
  {
    match n
    case Comment => ""
    case Text(t) => if ctx.pre then t else Squeeze(t)
    case Element(name, attrs, children) =>
      var tag := Classify(name);
      var inner := InsideContext(tag, TagColors(tag, attrs), ctx);
      EmitAround(tag, attrs, ctx, targets, EmitNodes(children, inner, targets))
  }

  function EmitNodes(nodes: seq<Node>, ctx: Context, targets: map<string, string>): string
    decreases nodes, 1
  {
    if nodes == [] then "" else EmitNode(nodes[0], ctx, targets) + EmitNodes(nodes[1..], ctx, targets)
  }

  const START: Context := Context(false, NOCOLOR)

  // ---------- paragraphs ----------

  const BR: Node := Element("br", [], [])

  predicate IsParagraph(n: Node) { n.Element? && n.name == "p" }

  /** One level of `collapse_paragraphs`; the flag says that the previous sibling was a `p`. */
  function Collapse(nodes: seq<Node>, afterP: bool): seq<Node> {
    if nodes == [] then []
    else if IsParagraph(nodes[0]) then
      (if afterP then [BR] else []) + [Element("span", [], nodes[0].children)] + Collapse(nodes[1..], true)
    else [nodes[0]] + Collapse(nodes[1..], false)
  }

  /** The loop of `collapse_paragraphs`, with the inner loop over a run of `p` siblings. */
  method CollapseParagraphs(nodes: seq<Node>) returns (out: seq<Node>)
    ensures out == Collapse(nodes, false)
  {
    out := [];
    var idx := 0;
    while idx < |nodes|
      invariant idx <= |nodes|
      invariant Collapse(nodes, false) == out + Collapse(nodes[idx..], false)
      decreases |nodes| - idx
    {
      var n := nodes[idx];
      if IsParagraph(n) {
        Suffix(nodes, idx, 1);
        Assoc(out, [Element("span", [], n.children)], Collapse(nodes[idx + 1..], true));
        assert [] + [Element("span", [], n.children)] == [Element("span", [], n.children)];
        out := out + [Element("span", [], n.children)];
        idx := idx + 1;
        while idx < |nodes| && IsParagraph(nodes[idx])
          invariant idx <= |nodes|
          invariant Collapse(nodes, false) == out + Collapse(nodes[idx..], true)
          decreases |nodes| - idx
        {
          Suffix(nodes, idx, 1);
          var p := Element("span", [], nodes[idx].children);
          Assoc(out, [BR] + [p], Collapse(nodes[idx + 1..], true));
          Assoc(out, [BR], [p]);
          out := out + [BR];
          out := out + [p];
          idx := idx + 1;
        }
      } else {
        Suffix(nodes, idx, 1);
        Assoc(out, [n], Collapse(nodes[idx + 1..], false));
        out := out + [n];
        idx := idx + 1;
      }
    }
  }

  /** Every level collapsed. The source collapses each level as it reaches it. */
  function Paragraphs(nodes: seq<Node>, afterP: bool): seq<Node>
    decreases nodes
  {
    if nodes == [] then []
    else
      match nodes[0]
      case Element(name, attrs, children) =>
        if name == "p" then
          (if afterP then [BR] else []) + [Element("span", [], Paragraphs(children, false))]
          + Paragraphs(nodes[1..], true)
        else [Element(name, attrs, Paragraphs(children, false))] + Paragraphs(nodes[1..], false)
      case _ => [nodes[0]] + Paragraphs(nodes[1..], false)
  }

  /** Collapse the levels below this one. */
  function Below(nodes: seq<Node>): seq<Node> {
    if nodes == [] then []
    else
      [if nodes[0].Element? then nodes[0].(children := Paragraphs(nodes[0].children, false)) else nodes[0]]
      + Below(nodes[1..])
  }

  /** Collapsing everything at once is collapsing this level and then the levels below. */
  lemma {:induction false} ParagraphsByLevel(nodes: seq<Node>, afterP: bool)
    ensures Paragraphs(nodes, afterP) == Below(Collapse(nodes, afterP))
  {
    if nodes != [] {
      var p := IsParagraph(nodes[0]);
      var rest := Collapse(nodes[1..], p);
      ParagraphsByLevel(nodes[1..], p);
      if p {
        var span := Element("span", [], nodes[0].children);
        BelowCons(span, rest);
        if afterP {
          BelowCons(BR, [span] + rest);
          assert Paragraphs([], false) == [];
          assert [BR] + [span] + rest == [BR] + ([span] + rest);
        }
      } else {
        BelowCons(nodes[0], rest);
      }
    }
  }

  lemma BelowCons(n: Node, rest: seq<Node>)
    ensures Below([n] + rest)
      == [if n.Element? then n.(children := Paragraphs(n.children, false)) else n] + Below(rest)
  {
    assert ([n] + rest)[1..] == rest;
  }

  /** `transform_m2i` of a parsed document, and `matrix_to_irc`. */
  function Transform(nodes: seq<Node>, targets: map<string, string>): string {
    EmitNodes(Paragraphs(nodes, false), START, targets)
  }

  function MatrixToIrc(html: string, targets: map<string, string>): string {
    Trim(Transform(Parse(html), targets))
  }

  // ---------- level by level ----------

  function Depth(n: Node): nat
    decreases n, 0
  {
    if n.Element? then 1 + Depths(n.children) else 0
  }

  function Depths(nodes: seq<Node>): nat
    decreases nodes, 1
  {
    if nodes == [] then 0
    else
      var d, rest := Depth(nodes[0]), Depths(nodes[1..]);
      if d > rest then d else rest
  }

  lemma {:induction false} CollapseDepth(nodes: seq<Node>, afterP: bool)
    ensures Depths(Collapse(nodes, afterP)) <= Depths(nodes)
  {
    if nodes != [] {
      var p := IsParagraph(nodes[0]);
      var rest := Collapse(nodes[1..], p);
      CollapseDepth(nodes[1..], p);
      var n := if p then Element("span", [], nodes[0].children) else nodes[0];
      DepthsCons(n, rest);
      if p && afterP {
        DepthsCons(BR, [n] + rest);
        assert [BR] + [n] + rest == [BR] + ([n] + rest);
        assert Depths([]) == 0;
      }
    }
  }

  lemma DepthsCons(n: Node, rest: seq<Node>)
    ensures Depths([n] + rest) == if Depth(n) > Depths(rest) then Depth(n) else Depths(rest)
  {
    assert ([n] + rest)[1..] == rest;
  }

  /** `transform_m2i` as it recurses: collapse the paragraphs of a level, then write its nodes, each from
      the transformation of its children. */
  function TransformLevel(nodes: seq<Node>, ctx: Context, targets: map<string, string>): string
    decreases Depths(nodes), 1, 0
  {
    CollapseDepth(nodes, false);
    EmitLevel(Collapse(nodes, false), ctx, targets)
  }

  function EmitLevel(level: seq<Node>, ctx: Context, targets: map<string, string>): string
    decreases Depths(level), 0, |level|
  {
    if level == [] then ""
    else
      var first :=
        match level[0]
        case Comment => ""
        case Text(t) => if ctx.pre then t else Squeeze(t)
        case Element(name, attrs, children) =>
          var tag := Classify(name);
          var inner := InsideContext(tag, TagColors(tag, attrs), ctx);
          assert Depths(level) >= Depth(level[0]) > Depths(children);
          EmitAround(tag, attrs, ctx, targets, TransformLevel(children, inner, targets));
      first + EmitLevel(level[1..], ctx, targets)
  }

  /** Collapsing all levels up front and then transforming writes what the level-by-level recursion
      writes. */
  lemma {:induction false} TransformByLevel(nodes: seq<Node>, ctx: Context, targets: map<string, string>)
    ensures TransformLevel(nodes, ctx, targets) == EmitNodes(Paragraphs(nodes, false), ctx, targets)
    decreases Depths(nodes), 1, 0
  {
    CollapseDepth(nodes, false);
    ParagraphsByLevel(nodes, false);
    EmitBelow(Collapse(nodes, false), ctx, targets);
  }

  lemma {:induction false} EmitBelow(level: seq<Node>, ctx: Context, targets: map<string, string>)
    ensures EmitLevel(level, ctx, targets) == EmitNodes(Below(level), ctx, targets)
    decreases Depths(level), 0, |level|
  {
    hide Classify, EmitAround, InsideContext, TagColors, Squeeze;
    if level != [] {
      EmitBelow(level[1..], ctx, targets);
      if level[0].Element? {
        var tag := Classify(level[0].name);
        assert Depths(level) >= Depth(level[0]) > Depths(level[0].children);
        TransformByLevel(level[0].children, InsideContext(tag, TagColors(tag, level[0].attrs), ctx), targets);
      }
    }
  }
}
