/** Where a colour code runs into the text behind it, decided on the tree. */
module CommaLaw {
  import opened Strings
  import opened Html
  import opened HtmlPrint
  import opened IrcCodes
  import opened IrcCanon
  import opened HtmlToIrc
  import opened HtmlMeaning
  import opened ControlLaw

  // ---------- on the tree ----------

  /** Colours of which one is missing: they are written with a code that a comma would continue. */
  predicate OpenEnded(c: Colors) { c.fg.Some? != c.bg.Some? }

  predicate CommaFirst(t: string) { t != "" && t[0] == ',' }

  /** Is such a code the last thing written, in front of an element's children? */
  predicate OpenInside(tag: Tag, c: Colors, open: bool) {
    if tag.Break? || tag.List? || tag.Item? || (tag.Simple? && !tag.mark.NoMark?) then false
    else if c != NOCOLOR then OpenEnded(c)
    else open
  }

  /** And behind the element, `open` being the answer behind its children? */
  predicate OpenBehind(tag: Tag, c: Colors, colors: Colors, open: bool) {
    if tag.Item? || (tag.Simple? && !tag.mark.NoMark?) then false
    else if c != NOCOLOR then OpenEnded(colors)
    else open
  }

  function InsideColors(c: Colors, colors: Colors): Colors {
    if c != NOCOLOR then c else colors
  }

  /** Is such a code the last thing written behind a node? `colors` are those of the innermost
      coloured font around it, and `open` is the answer in front of it. */
  predicate OpenAfterNode(n: Node, colors: Colors, open: bool)
    decreases n, 0
  {
    match n
    case Comment => open
    case Text(t) => open && t == ""
    case Element(name, attrs, children) =>
      var tag := Classify(name);
      var c := TagColors(tag, attrs);
      if tag.Reply? then open
      else if tag.Break? then false
      else OpenBehind(tag, c, colors, OpenAfter(children, InsideColors(c, colors), OpenInside(tag, c, open)))
  }

  predicate OpenAfter(nodes: seq<Node>, colors: Colors, open: bool)
    decreases nodes, 1
  {
    if nodes == [] then open else OpenAfter(nodes[1..], colors, OpenAfterNode(nodes[0], colors, open))
  }

  /** No text that starts with a comma comes directly behind such a code. */
  predicate UngluedNode(n: Node, colors: Colors, open: bool)
    decreases n, 0
  {
    match n
    case Comment => true
    case Text(t) => !(open && CommaFirst(t))
    case Element(name, attrs, children) =>
      var tag := Classify(name);
      var c := TagColors(tag, attrs);
      tag.Reply? || tag.Break? || UngluedFrom(children, InsideColors(c, colors), OpenInside(tag, c, open))
  }

  predicate UngluedFrom(nodes: seq<Node>, colors: Colors, open: bool)
    decreases nodes, 1
  {
    nodes == [] || (
      && UngluedNode(nodes[0], colors, open)
      && UngluedFrom(nodes[1..], colors, OpenAfterNode(nodes[0], colors, open)))
  }

  predicate Unglued(nodes: seq<Node>) {
    UngluedFrom(nodes, NOCOLOR, false)
  }

  // ---------- on tokens ----------

  predicate RunsInto(code: string, next: char) { code != "" && Continues(code, next) }

  /** The code directly behind which the next character will be written; empty when it is a text. */
  function LastCode(tokens: seq<Token>, last: string): string {
    if tokens == [] then last
    else
      match tokens[0]
      case Txt(t) => LastCode(tokens[1..], if t == "" then last else "")
      case Ctrl(c) => LastCode(tokens[1..], c)
  }

  /** No text of the list runs into the code before it. */
  predicate Separate(tokens: seq<Token>, last: string) {
    tokens == [] || (
      match tokens[0]
      case Txt(t) => (t == "" || !RunsInto(last, t[0])) && Separate(tokens[1..], if t == "" then last else "")
      case Ctrl(c) => Separate(tokens[1..], c))
  }

  lemma {:induction false} SeparateConcat(a: seq<Token>, b: seq<Token>, last: string)
    ensures Separate(a + b, last) <==> Separate(a, last) && Separate(b, LastCode(a, last))
    ensures LastCode(a + b, last) == LastCode(b, LastCode(a, last))
  {
    hide RunsInto;
    if a == [] {
      assert a + b == b;
    } else {
      assert (a + b)[1..] == a[1..] + b;
      match a[0]
      case Txt(t) => SeparateConcat(a[1..], b, if t == "" then last else "");
      case Ctrl(c) => SeparateConcat(a[1..], b, c);
    }
  }

  predicate NoEmptyHead(m: seq<Token>) {
    m != [] && m[0].Txt? ==> m[0].text != ""
  }

  /** A code in front of a list is clean when it does not run into the first text. */
  lemma CleanCons(c: string, m: seq<Token>)
    requires c != "" && NoEmptyHead(m)
    ensures Clean([Ctrl(c)] + m) <==> Clean(m) && !(m != [] && m[0].Txt? && Continues(c, m[0].text[0]))
  {
    hide Continues;
    var all := [Ctrl(c)] + m;
    assert forall i | 0 <= i < |m| :: Sticky(all, i + 1) <==> Sticky(m, i);
    assert forall i | 1 <= i < |all| :: Sticky(all, i) ==> Sticky(m, i - 1);
    assert Sticky(all, 0) <==> m != [] && m[0].Txt? && Continues(c, m[0].text[0]);
  }

  lemma CleanWithText(t: string, m: seq<Token>)
    ensures Clean(WithText(t, m)) <==> Clean(m)
  {
    hide Continues;
    var all := WithText(t, m);
    if t != "" {
      var k := if m != [] && m[0].Txt? then 0 else 1;
      assert forall i | 0 <= i < |m| :: Sticky(all, i + k) <==> Sticky(m, i);
      assert forall i | 1 <= i < |all| :: Sticky(all, i) ==> Sticky(m, i - k);
    }
  }

  /** Scanning the list is looking for sticky places in the merged list. */
  lemma {:induction false} SeparateIsClean(tokens: seq<Token>, last: string)
    requires forall i | 0 <= i < |tokens| :: tokens[i].Ctrl? ==> tokens[i].code != ""
    ensures var m := Merge(tokens);
      && NoEmptyHead(m)
      && (Separate(tokens, last) <==> Clean(m) && !(m != [] && m[0].Txt? && RunsInto(last, m[0].text[0])))
  {
    hide Clean, Continues, Merge;
    if tokens == [] {
      MergeNothing();
    } else {
      MergeHead(tokens);
      var m := Merge(tokens[1..]);
      match tokens[0]
      case Txt(t) =>
        SeparateIsClean(tokens[1..], if t == "" then last else "");
        CleanWithText(t, m);
      case Ctrl(c) =>
        SeparateIsClean(tokens[1..], c);
        CleanCons(c, m);
    }
  }

  lemma MergeNothing()
    ensures Merge([]) == [] && Clean([])
  {
  }

  lemma MergeHead(tokens: seq<Token>)
    requires tokens != []
    ensures tokens[0].Txt? ==> Merge(tokens) == WithText(tokens[0].text, Merge(tokens[1..]))
    ensures tokens[0].Ctrl? ==> Merge(tokens) == [tokens[0]] + Merge(tokens[1..])
  {
  }

  // ---------- the scan of the tree is the scan of the tokens ----------

  /** The code runs into a comma exactly when `open`, and into nothing else. */
  ghost predicate Agree(last: string, open: bool) {
    forall x: char :: RunsInto(last, x) <==> open && x == ','
  }

  lemma CodeEnds(code: string, last: string)
    ensures Separate([Ctrl(code)], last) && LastCode([Ctrl(code)], last) == code
  {
    assert [Ctrl(code)][1..] == [];
  }

  lemma ColorEnds(c: Colors, last: string)
    requires IsColors(c)
    ensures Separate(ColorTokens(c), last) && Agree(LastCode(ColorTokens(c), last), OpenEnded(c))
  {
    hide AllHex, Separate, LastCode;
    match c
    case Colors(None, Some(b)) =>
      var first, second := [HEXCOLOR] + "000000," + b, [COLOR] + "99";
      CodeEnds(first, last);
      CodeEnds(second, first);
      SeparateConcat([Ctrl(first)], [Ctrl(second)], last);
      assert [Ctrl(first)] + [Ctrl(second)] == ColorTokens(c);
    case _ => CodeEnds(ColorCode(c), last);
  }

  lemma TextEnds(t: string, last: string, open: bool)
    requires Agree(last, open)
    ensures Separate([Txt(t)], last) <==> !(open && CommaFirst(t))
    ensures Agree(LastCode([Txt(t)], last), open && t == "")
  {
    assert [Txt(t)][1..] == [];
  }

  lemma MarkEnds(m: Mark, last: string, open: bool)
    requires Agree(last, open)
    ensures Separate(MarkTokens(m), last)
    ensures Agree(LastCode(MarkTokens(m), last), open && m.NoMark?)
  {
    if !m.NoMark? {
      assert [Ctrl(MarkCode(m))][1..] == [];
    }
  }

  lemma BeforeEnds(tag: Tag, c: Colors, last: string, open: bool)
    requires IsColors(c) && (!tag.Font? ==> c == NOCOLOR) && Agree(last, open)
    ensures Separate(Before(tag, c), last) && Agree(LastCode(Before(tag, c), last), OpenInside(tag, c, open))
  {
    hide Separate, LastCode, ColorTokens, MarkTokens, Agree, OpenEnded;
    if tag.Simple? {
      MarkEnds(tag.mark, last, open);
    } else if c != NOCOLOR {
      ColorEnds(c, last);
    } else {
      TextEnds(Lead(tag), last, open);
    }
  }

  lemma AfterEnds(tag: Tag, c: Colors, outer: Colors, last: string, open: bool)
    requires IsColors(outer) && (!tag.Font? ==> c == NOCOLOR) && Agree(last, open)
    ensures Separate(After(tag, c, outer), last)
    ensures Agree(LastCode(After(tag, c, outer), last), OpenBehind(tag, c, outer, open))
  {
    hide Separate, LastCode, ColorTokens, MarkTokens, Agree, OpenEnded;
    if tag.Simple? {
      MarkEnds(tag.mark, last, open);
    } else if c != NOCOLOR {
      ColorEnds(outer, last);
    } else {
      TextEnds(Trail(tag), last, open);
    }
  }

  /** Squeezing changes neither whether a text is empty nor whether it starts with a comma. */
  lemma ShownStart(t: string, pre: bool)
    ensures (Shown(t, pre) == "" <==> t == "") && (CommaFirst(Shown(t, pre)) <==> CommaFirst(t))
  {
  }

  lemma {:induction false} ScanNode(n: Node, ctx: Context, last: string, open: bool)
    requires IsColors(ctx.colors) && Agree(last, open)
    ensures Separate(PiecesNode(n, ctx), last) <==> UngluedNode(n, ctx.colors, open)
    ensures Agree(LastCode(PiecesNode(n, ctx), last), OpenAfterNode(n, ctx.colors, open))
    decreases n, 0
  {
    hide Classify, TagColors, Before, After, Agree, Separate, LastCode, OpenInside, OpenBehind, Shown, IsColors;
    match n
    case Comment => ScanNothing(last);
    case Text(t) =>
      ShownStart(t, ctx.pre);
      TextEnds(Shown(t, ctx.pre), last, open);
    case Element(name, attrs, children) =>
      var tag := Classify(name);
      if tag.Break? {
        TextEnds("\n", last, open);
      } else if tag.Reply? {
        ScanNothing(last);
      } else {
        var c := TagColors(tag, attrs);
        TagColorsOk(tag, attrs);
        var inner := InsideContext(tag, c, ctx);
        var before, mid, after := Before(tag, c), Pieces(children, inner), After(tag, c, ctx.colors);
        InnerColors(tag, c, ctx);
        BeforeEnds(tag, c, last, open);
        var last1 := LastCode(before, last);
        var open1 := OpenInside(tag, c, open);
        Scan(children, inner, last1, open1);
        AfterEnds(tag, c, ctx.colors, LastCode(mid, last1), OpenAfter(children, inner.colors, open1));
        SeparateConcat(before, mid + after, last);
        SeparateConcat(mid, after, last1);
      }
  }

  lemma InnerColors(tag: Tag, c: Colors, ctx: Context)
    requires IsColors(c) && IsColors(ctx.colors) && (!tag.Font? ==> c == NOCOLOR)
    ensures InsideContext(tag, c, ctx).colors == InsideColors(c, ctx.colors) && IsColors(InsideColors(c, ctx.colors))
  {
  }

  lemma ScanNothing(last: string)
    ensures Separate([], last) && LastCode([], last) == last
  {
  }

  lemma {:induction false} Scan(nodes: seq<Node>, ctx: Context, last: string, open: bool)
    requires IsColors(ctx.colors) && Agree(last, open)
    ensures Separate(Pieces(nodes, ctx), last) <==> UngluedFrom(nodes, ctx.colors, open)
    ensures Agree(LastCode(Pieces(nodes, ctx), last), OpenAfter(nodes, ctx.colors, open))
    decreases nodes, 1
  {
    hide Agree, Separate, LastCode, IsColors, PiecesNode, UngluedNode, OpenAfterNode;
    if nodes == [] {
      ScanNothing(last);
    } else {
      ScanNode(nodes[0], ctx, last, open);
      Scan(nodes[1..], ctx, LastCode(PiecesNode(nodes[0], ctx), last), OpenAfterNode(nodes[0], ctx.colors, open));
      SeparateConcat(PiecesNode(nodes[0], ctx), Pieces(nodes[1..], ctx), last);
    }
  }

  /** What the emitter writes for a tree, from any context, has no code that runs into text, exactly
      when the tree has no text starting with a comma directly behind an open-ended colour. */
  lemma UngluedIff(nodes: seq<Node>, ctx: Context)
    requires IsColors(ctx.colors)
    ensures Clean(Merge(Pieces(nodes, ctx))) <==> UngluedFrom(nodes, ctx.colors, false)
  {
    hide Pieces, Merge, Clean, Separate, UngluedFrom, IsColors, Continues;
    assert Agree("", false);
    Scan(nodes, ctx, "", false);
    PiecesCodes(nodes, ctx);
    var pieces := Pieces(nodes, ctx);
    forall i | 0 <= i < |pieces| && pieces[i].Ctrl?
      ensures pieces[i].code != ""
    {
      CodeHead(pieces[i].code);
    }
    SeparateIsClean(pieces, "");
  }

  // ---------- lists and normal forms ----------

  lemma {:induction false} UngluedConcat(a: seq<Node>, b: seq<Node>, colors: Colors, open: bool)
    ensures UngluedFrom(a + b, colors, open) <==>
      UngluedFrom(a, colors, open) && UngluedFrom(b, colors, OpenAfter(a, colors, open))
    ensures OpenAfter(a + b, colors, open) == OpenAfter(b, colors, OpenAfter(a, colors, open))
  {
    hide UngluedNode, OpenAfterNode;
    if a == [] {
      assert a + b == b;
    } else {
      assert (a + b)[1..] == a[1..] + b;
      UngluedConcat(a[1..], b, colors, OpenAfterNode(a[0], colors, open));
    }
  }

  lemma UngluedOne(n: Node, colors: Colors, open: bool)
    ensures UngluedFrom([n], colors, open) <==> UngluedNode(n, colors, open)
    ensures OpenAfter([n], colors, open) == OpenAfterNode(n, colors, open)
  {
    hide UngluedNode, OpenAfterNode;
    var o := OpenAfterNode(n, colors, open);
    assert [n][1..] == [] && UngluedFrom([], colors, o) && OpenAfter([], colors, o) == o;
  }

  lemma UngluedText(p: string, colors: Colors, open: bool)
    ensures UngluedFrom(TextNode(p), colors, open) <==> !(open && CommaFirst(p))
    ensures OpenAfter(TextNode(p), colors, open) == (open && p == "")
  {
    if p != "" {
      UngluedOne(Text(p), colors, open);
    }
  }

  /** An element depends on its children only through their scan. */
  lemma UngluedChildren(name: string, attrs: seq<Attr>, a: seq<Node>, b: seq<Node>, colors: Colors, open: bool)
    requires var tag := Classify(name);
      var c := TagColors(tag, attrs);
      var colors', open' := InsideColors(c, colors), OpenInside(tag, c, open);
      && OpenAfter(a, colors', open') == OpenAfter(b, colors', open')
      && (UngluedFrom(a, colors', open') <==> UngluedFrom(b, colors', open'))
    ensures UngluedNode(Element(name, attrs, a), colors, open) <==> UngluedNode(Element(name, attrs, b), colors, open)
    ensures OpenAfterNode(Element(name, attrs, a), colors, open) == OpenAfterNode(Element(name, attrs, b), colors, open)
  {
    hide Classify, TagColors, OpenAfter, UngluedFrom, OpenInside, OpenBehind, InsideColors;
  }

  /** Merging neighbouring texts glues nothing and separates nothing. */
  lemma {:induction false} UngluedNorm(nodes: seq<Node>, p: string, colors: Colors, open: bool)
    ensures UngluedFrom(NormFrom(nodes, p), colors, open)
      <==> (!(open && CommaFirst(p)) && UngluedFrom(nodes, colors, open && p == ""))
    ensures OpenAfter(NormFrom(nodes, p), colors, open) == OpenAfter(nodes, colors, open && p == "")
    decreases nodes
  {
    hide Classify, TagColors, OpenInside, OpenBehind, InsideColors, TextNode;
    if nodes == [] {
      UngluedText(p, colors, open);
    } else {
      var rest := nodes[1..];
      match nodes[0]
      case Text(t) => UngluedNorm(rest, p + t, colors, open);
      case Comment => UngluedNorm(rest, p, colors, open);
      case Element(name, attrs, children) =>
        var tag := Classify(name);
        var c := TagColors(tag, attrs);
        var e := Element(name, attrs, NormFrom(children, ""));
        var o := open && p == "";
        UngluedNorm(children, "", InsideColors(c, colors), OpenInside(tag, c, o));
        UngluedChildren(name, attrs, e.children, children, colors, o);
        UngluedText(p, colors, open);
        UngluedOne(e, colors, o);
        UngluedNorm(rest, "", colors, OpenAfterNode(e, colors, o));
        UngluedConcat(TextNode(p), [e], colors, open);
        UngluedConcat(TextNode(p) + [e], NormFrom(rest, ""), colors, open);
    }
  }

  /** Outside all coloured fonts, a node that starts behind no code ends behind none. */
  lemma {:induction false} StaysClosedNode(n: Node)
    ensures !OpenAfterNode(n, NOCOLOR, false)
    decreases n, 0
  {
    hide Classify, TagColors;
    if n.Element? {
      StaysClosed(n.children);
    }
  }

  lemma {:induction false} StaysClosed(nodes: seq<Node>)
    ensures !OpenAfter(nodes, NOCOLOR, false)
    decreases nodes, 1
  {
    hide OpenAfterNode;
    if nodes != [] {
      StaysClosedNode(nodes[0]);
      StaysClosed(nodes[1..]);
    }
  }
}
