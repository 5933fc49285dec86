/** What an HTML tree means, and when the IRC text made from it means the same. */
module HtmlMeaning {
  import opened Strings
  import opened Html
  import opened IrcCodes
  import opened IrcCanon
  import opened HtmlToIrc
  import Entities
  import Decimal

  // ---------- the meaning of a tree ----------

  /** A style tag switches its style on. */
  function Paint(m: Mark, st: Style): Style {
    match m
    case Bold => st.(bold := true)
    case Mono => st.(monospace := true)
    case Italic => st.(italic := true)
    case Strike => st.(strike := true)
    case Underline => st.(underlined := true)
    case NoMark => st
  }

  function Hash(c: Option<string>): Option<string> {
    if c.Some? then Some("#" + c.value) else None
  }

  /** A font changes the colours it sets and inherits the others. */
  function Tint(st: Style, c: Colors): Style {
    st.(fg := if c.fg.Some? then Hash(c.fg) else st.fg, bg := if c.bg.Some? then Hash(c.bg) else st.bg)
  }

  /** Text an element shows before and after its children. */
  function Lead(tag: Tag): string {
    if tag.List? || tag.Break? then "\n" else if tag.Item? then "* " else ""
  }

  function Trail(tag: Tag): string {
    if tag.Item? then "\n" else ""
  }

  /** The style of an element's children. */
  function Inside(tag: Tag, c: Colors, st: Style): Style {
    if tag.Simple? then Paint(tag.mark, st) else Tint(st, c)
  }

  /** The visible characters of a tree, each with the styles of its ancestors. A quoted reply is meant to
      show nothing; everything else shows its children. */
  function FlattenNode(n: Node, st: Style): seq<Cell>
    decreases n, 0
  {
    match n
    case Comment => []
    case Text(t) => Styled(t, st)
    case Element(name, attrs, children) =>
      var tag := Classify(name);
      if tag.Reply? then []
      else
        Styled(Lead(tag), st) + (Flatten(children, Inside(tag, TagColors(tag, attrs), st)) + Styled(Trail(tag), st))
  }

  function Flatten(nodes: seq<Node>, st: Style): seq<Cell>
    decreases nodes, 1
  {
    if nodes == [] then [] else FlattenNode(nodes[0], st) + Flatten(nodes[1..], st)
  }

  // ---------- the codes, as tokens ----------

  function ColorTokens(c: Colors): seq<Token> {
    match c
    case Colors(None, Some(b)) => [Ctrl([HEXCOLOR] + "000000," + b), Ctrl([COLOR] + "99")]
    case _ => [Ctrl(ColorCode(c))]
  }

  function MarkTokens(m: Mark): seq<Token> {
    if m.NoMark? then [] else [Ctrl(MarkCode(m))]
  }

  function Before(tag: Tag, c: Colors): seq<Token> {
    if tag.Simple? then MarkTokens(tag.mark) else if c != NOCOLOR then ColorTokens(c) else [Txt(Lead(tag))]
  }

  function After(tag: Tag, c: Colors, outer: Colors): seq<Token> {
    if tag.Simple? then MarkTokens(tag.mark) else if c != NOCOLOR then ColorTokens(outer) else [Txt(Trail(tag))]
  }

  function Shown(t: string, pre: bool): string {
    if pre then t else Squeeze(t)
  }

  /** What `transform_m2i` writes, cut into texts and codes. */
  function PiecesNode(n: Node, ctx: Context): seq<Token>
    decreases n, 0
  {
    match n
    case Comment => []
    case Text(t) => [Txt(Shown(t, ctx.pre))]
    case Element(name, attrs, children) =>
      var tag := Classify(name);
      if tag.Reply? then []
      else if tag.Break? then [Txt("\n")]
      else
        var c := TagColors(tag, attrs);
        Before(tag, c) + (Pieces(children, InsideContext(tag, c, ctx)) + After(tag, c, ctx.colors))
  }

  function Pieces(nodes: seq<Node>, ctx: Context): seq<Token>
    decreases nodes, 1
  {
    if nodes == [] then [] else PiecesNode(nodes[0], ctx) + Pieces(nodes[1..], ctx)
  }

  /** Trees without links in what is transformed. */
  predicate LinklessNode(n: Node)
    decreases n, 0
  {
    match n
    case Comment => true
    case Text(_) => true
    case Element(name, attrs, children) =>
      var tag := Classify(name);
      tag.Reply? || tag.Break? || ((tag.Anchor? ==> Attribute(attrs, "href").None?) && Linkless(children))
  }

  predicate Linkless(nodes: seq<Node>)
    decreases nodes, 1
  {
    nodes == [] || (LinklessNode(nodes[0]) && Linkless(nodes[1..]))
  }

  lemma {:induction false} PrintConcat(a: seq<Token>, b: seq<Token>)
    ensures PrintTokens(a + b) == PrintTokens(a) + PrintTokens(b)
  {
    if a == [] {
      assert a + b == b;
    } else {
      assert (a + b)[1..] == a[1..] + b;
      PrintConcat(a[1..], b);
      Assoc(if a[0].Txt? then a[0].text else a[0].code, PrintTokens(a[1..]), PrintTokens(b));
    }
  }

  lemma PrintOne(k: Token)
    ensures PrintTokens([k]) == if k.Txt? then k.text else k.code
  {
    assert PrintTokens([k][1..]) == "";
  }

  lemma PrintColor(c: Colors)
    ensures PrintTokens(ColorTokens(c)) == ColorCode(c)
  {
    var t := ColorTokens(c);
    PrintOne(t[0]);
    if |t| == 2 {
      PrintOne(t[1]);
      assert t == [t[0]] + [t[1]];
      PrintConcat([t[0]], [t[1]]);
    }
  }

  lemma PrintMark(m: Mark)
    ensures PrintTokens(MarkTokens(m)) == MarkCode(m)
  {
    if !m.NoMark? {
      PrintOne(Ctrl(MarkCode(m)));
    }
  }

  /** An element is written as its opening code, its children and its closing code. */
  lemma EmitElement(n: Node, ctx: Context, targets: map<string, string>)
    requires n.Element? && LinklessNode(n)
    requires !Classify(n.name).Reply? && !Classify(n.name).Break?
    ensures var tag := Classify(n.name);
      var c := TagColors(tag, n.attrs);
      EmitNode(n, ctx, targets)
        == PrintTokens(Before(tag, c))
           + (EmitNodes(n.children, InsideContext(tag, c, ctx), targets) + PrintTokens(After(tag, c, ctx.colors)))
  {
    hide Classify, FontColors, ColorCode, MarkCode, ColorTokens, MarkTokens, EmitNodes, Linkless;
    var tag := Classify(n.name);
    var c := TagColors(tag, n.attrs);
    PrintOne(Txt(Lead(tag)));
    PrintOne(Txt(Trail(tag)));
    var mid := EmitNodes(n.children, InsideContext(tag, c, ctx), targets);
    assert "" + (mid + "") == mid && "\n" + (mid + "") == "\n" + mid;
    if tag.Simple? {
      PrintMark(tag.mark);
      Assoc(MarkCode(tag.mark), mid, MarkCode(tag.mark));
    } else if c != NOCOLOR {
      PrintColor(c);
      PrintColor(ctx.colors);
      Assoc(ColorCode(c), mid, ColorCode(ctx.colors));
    } else if tag.Item? {
      Assoc("* ", mid, "\n");
    }
  }

  /** The pieces are a reading of what is written. */
  lemma {:induction false} PiecesPrintNode(n: Node, ctx: Context, targets: map<string, string>)
    requires LinklessNode(n)
    ensures PrintTokens(PiecesNode(n, ctx)) == EmitNode(n, ctx, targets)
    decreases n, 0
  {
    hide Classify, Before, After, InsideContext, TagColors, PrintTokens;
    match n
    case Comment => PrintNone();
    case Text(t) => PrintOne(Txt(Shown(t, ctx.pre)));
    case Element(name, attrs, children) =>
      var tag := Classify(name);
      if tag.Break? {
        PrintOne(Txt("\n"));
      } else if tag.Reply? {
        PrintNone();
      } else {
        var c := TagColors(tag, attrs);
        var before, after := Before(tag, c), After(tag, c, ctx.colors);
        var mid := Pieces(children, InsideContext(tag, c, ctx));
        PrintConcat(before, mid + after);
        PrintConcat(mid, after);
        PiecesPrint(children, InsideContext(tag, c, ctx), targets);
        EmitElement(n, ctx, targets);
      }
  }

  lemma PrintNone()
    ensures PrintTokens([]) == ""
  {
  }

  lemma {:induction false} PiecesPrint(nodes: seq<Node>, ctx: Context, targets: map<string, string>)
    requires Linkless(nodes)
    ensures PrintTokens(Pieces(nodes, ctx)) == EmitNodes(nodes, ctx, targets)
    decreases nodes, 1
  {
    if nodes != [] {
      PiecesPrintNode(nodes[0], ctx, targets);
      PiecesPrint(nodes[1..], ctx, targets);
      PrintConcat(PiecesNode(nodes[0], ctx), Pieces(nodes[1..], ctx));
    }
  }

  // ---------- what the receiver sees ----------

  /** A style code flips its style. */
  function Flip(m: Mark, st: Style): Style {
    match m
    case Bold => st.(bold := !st.bold)
    case Mono => st.(monospace := !st.monospace)
    case Italic => st.(italic := !st.italic)
    case Strike => st.(strike := !st.strike)
    case Underline => st.(underlined := !st.underlined)
    case NoMark => st
  }

  /** A colour code sets both colours. */
  function Colored(st: Style, c: Colors): Style {
    st.(fg := Hash(c.fg), bg := Hash(c.bg))
  }

  /** The colours that survive their code: a background without a foreground does not. */
  function Surviving(c: Colors): Colors {
    if c.fg.None? then NOCOLOR else c
  }

  function SentInside(tag: Tag, c: Colors, st: Style): Style {
    if tag.Simple? then Flip(tag.mark, st) else if c != NOCOLOR then Colored(st, Surviving(c)) else st
  }

  /** The visible characters of a tree as the receiver of the codes sees them. */
  function SentNode(n: Node, st: Style, pre: bool): seq<Cell>
    decreases n, 0
  {
    match n
    case Comment => []
    case Text(t) => Styled(Shown(t, pre), st)
    case Element(name, attrs, children) =>
      var tag := Classify(name);
      if tag.Reply? then []
      else if tag.Break? then Styled("\n", st)
      else
        Styled(Lead(tag), st)
        + (Sent(children, SentInside(tag, TagColors(tag, attrs), st), pre || (tag.Simple? && tag.pre))
           + Styled(Trail(tag), st))
  }

  function Sent(nodes: seq<Node>, st: Style, pre: bool): seq<Cell>
    decreases nodes, 1
  {
    if nodes == [] then [] else SentNode(nodes[0], st, pre) + Sent(nodes[1..], st, pre)
  }

  /** A colour as `NormColor` makes it. */
  predicate IsRgb(c: Option<string>) {
    c.Some? ==> |c.value| == 6 && AllHex(c.value)
  }

  predicate IsColors(c: Colors) { IsRgb(c.fg) && IsRgb(c.bg) }

  lemma TagColorsOk(tag: Tag, attrs: seq<Attr>)
    ensures IsColors(TagColors(tag, attrs)) && (!tag.Font? ==> TagColors(tag, attrs) == NOCOLOR)
  {
  }

  lemma InterpText(t: string, st: Style)
    ensures Interp([Txt(t)], st) == Styled(t, st) && EndStyle([Txt(t)], st) == st
  {
    assert Interp([Txt(t)][1..], st) == [];
    assert Styled(t, st) + [] == Styled(t, st);
  }

  lemma InterpCode(c: string, st: Style)
    ensures Interp([Ctrl(c)], st) == [] && EndStyle([Ctrl(c)], st) == ApplyCtrl(st, c)
  {
    hide ApplyCtrl;
  }

  lemma MarkRuns(m: Mark, st: Style)
    ensures Interp(MarkTokens(m), st) == [] && EndStyle(MarkTokens(m), st) == Flip(m, st)
  {
    if !m.NoMark? {
      InterpCode(MarkCode(m), st);
    }
  }

  lemma HexHasNoComma(s: string)
    requires AllHex(s)
    ensures Free(Only(','), s)
  {
  }

  lemma HexColorOf(s: string)
    requires |s| == 6 && AllHex(s)
    ensures HexColor(s) == Some("#" + s) && HexColor("") == None
  {
    assert forall i | 0 <= i < |s| :: Utf8Len(s[i]) == 1;
    Entities.AsciiBytes(s);
  }

  lemma ApplyFg(f: string, st: Style)
    requires |f| == 6 && AllHex(f)
    ensures ApplyCtrl(st, [HEXCOLOR] + f) == st.(fg := Some("#" + f), bg := None)
  {
    hide HexColor;
    var code := [HEXCOLOR] + f;
    assert code[1..] == f;
    HexHasNoComma(f);
    FindSkip(Only(','), f, "");
    assert f + "" == f && f[..6] == f;
    HexColorOf(f);
  }

  lemma ApplyBoth(f: string, b: string, st: Style)
    requires |f| == 6 && AllHex(f) && |b| == 6 && AllHex(b)
    ensures ApplyCtrl(st, [HEXCOLOR] + f + "," + b) == st.(fg := Some("#" + f), bg := Some("#" + b))
  {
    hide HexColor;
    var code := [HEXCOLOR] + f + "," + b;
    var spec := f + ([','] + b);
    assert code[1..] == spec;
    HexHasNoComma(f);
    FindAt(Only(','), f, ',', b);
    HexColorOf(f);
    HexColorOf(b);
  }

  /** 99 is no colour, so `99` alone clears both colours, as `99,99` does. */
  lemma ApplyNinetyNine(st: Style)
    ensures ApplyCtrl(st, [COLOR] + "99,99") == st.(fg := None, bg := None)
    ensures ApplyCtrl(st, [COLOR] + "99") == st.(fg := None, bg := None)
  {
    hide PaletteColor;
    NinetyNine();
    FindAt(Only(','), "99", ',', "99");
    assert "99" + ([','] + "99") == "99,99";
    assert ([COLOR] + "99,99")[1..] == "99,99";
    FindSkip(Only(','), "99", "");
    assert "99" + "" == "99" && "99"[..2] == "99";
    assert ([COLOR] + "99")[1..] == "99";
  }

  lemma NinetyNine()
    ensures PaletteColor("99") == None
  {
    Decimal.DigitsPrint(99);
    assert Decimal.Print(9) == "9";
    assert Decimal.Print(99) == "9" + ['9'];
    assert "9" + ['9'] == "99";
  }

  lemma ColorRuns(c: Colors, st: Style)
    requires IsColors(c)
    ensures Interp(ColorTokens(c), st) == []
    ensures EndStyle(ColorTokens(c), st) == Colored(st, Surviving(c))
  {
    hide ApplyCtrl;
    ApplyNinetyNine(st);
    match c
    case Colors(None, None) => InterpCode(ColorCode(c), st);
    case Colors(Some(f), None) => InterpCode(ColorCode(c), st); ApplyFg(f, st);
    case Colors(Some(f), Some(b)) => InterpCode(ColorCode(c), st); ApplyBoth(f, b, st);
    case Colors(None, Some(b)) =>
      var first, second := [HEXCOLOR] + "000000," + b, [COLOR] + "99";
      assert first == [HEXCOLOR] + "000000" + "," + b;
      ApplyBoth("000000", b, st);
      var mid := ApplyCtrl(st, first);
      ApplyNinetyNine(mid);
      InterpCode(first, st);
      InterpCode(second, mid);
      assert [Ctrl(first), Ctrl(second)] == [Ctrl(first)] + [Ctrl(second)];
      InterpConcat([Ctrl(first)], [Ctrl(second)], st);
  }

  /** The style matches the colours the transformation believes to be in force. */
  predicate Agrees(st: Style, ctx: Context) {
    IsColors(ctx.colors) && st == Colored(st, Surviving(ctx.colors))
  }

  lemma AgreesInside(tag: Tag, c: Colors, ctx: Context, st: Style)
    requires Agrees(st, ctx) && IsColors(c)
    ensures Agrees(SentInside(tag, c, st), InsideContext(tag, c, ctx))
    ensures InsideContext(tag, c, ctx).pre == (ctx.pre || (tag.Simple? && tag.pre))
  {
  }

  lemma InterpNone(st: Style)
    ensures Interp([], st) == [] && EndStyle([], st) == st
  {
  }

  lemma FlipTwice(m: Mark, st: Style)
    ensures Flip(m, Flip(m, st)) == st
  {
  }

  /** Running the codes of a subtree shows its characters as `SentNode` says, and leaves the
      style as it was. */
  lemma {:induction false} PiecesRunNode(n: Node, ctx: Context, st: Style)
    requires Agrees(st, ctx)
    ensures Interp(PiecesNode(n, ctx), st) == SentNode(n, st, ctx.pre)
    ensures EndStyle(PiecesNode(n, ctx), st) == st
    decreases n, 0
  {
    hide Classify, TagColors, Before, After, InsideContext, SentInside, Interp, EndStyle, Shown, Styled, Agrees;
    match n
    case Comment => InterpNone(st);
    case Text(t) => InterpText(Shown(t, ctx.pre), st);
    case Element(name, attrs, children) =>
      var tag := Classify(name);
      if tag.Break? {
        InterpText("\n", st);
      } else if tag.Reply? {
        InterpNone(st);
      } else {
        var c := TagColors(tag, attrs);
        TagColorsOk(tag, attrs);
        var before, after := Before(tag, c), After(tag, c, ctx.colors);
        var inner := InsideContext(tag, c, ctx);
        var mid := Pieces(children, inner);
        var st' := SentInside(tag, c, st);
        AgreesInside(tag, c, ctx, st);
        BeforeRuns(tag, c, st);
        PiecesRun(children, inner, st');
        AfterRuns(tag, c, ctx, st);
        InterpConcat(before, mid + after, st);
        InterpConcat(mid, after, st');
      }
  }

  lemma BeforeRuns(tag: Tag, c: Colors, st: Style)
    requires IsColors(c) && (!tag.Font? ==> c == NOCOLOR)
    ensures Interp(Before(tag, c), st) == Styled(Lead(tag), st)
    ensures EndStyle(Before(tag, c), st) == SentInside(tag, c, st)
  {
    hide ColorTokens, MarkTokens;
    if tag.Simple? {
      MarkRuns(tag.mark, st);
    } else if c != NOCOLOR {
      ColorRuns(c, st);
    } else {
      InterpText(Lead(tag), st);
    }
  }

  lemma AfterRuns(tag: Tag, c: Colors, ctx: Context, st: Style)
    requires Agrees(st, ctx) && IsColors(c) && (!tag.Font? ==> c == NOCOLOR)
    ensures Interp(After(tag, c, ctx.colors), SentInside(tag, c, st)) == Styled(Trail(tag), st)
    ensures EndStyle(After(tag, c, ctx.colors), SentInside(tag, c, st)) == st
  {
    hide ColorTokens, MarkTokens, Interp, EndStyle, Flip, Surviving, IsColors;
    if tag.Simple? {
      MarkRuns(tag.mark, SentInside(tag, c, st));
      FlipTwice(tag.mark, st);
    } else if c != NOCOLOR {
      ColorRuns(ctx.colors, SentInside(tag, c, st));
    } else {
      InterpText(Trail(tag), st);
    }
  }

  lemma {:induction false} PiecesRun(nodes: seq<Node>, ctx: Context, st: Style)
    requires Agrees(st, ctx)
    ensures Interp(Pieces(nodes, ctx), st) == Sent(nodes, st, ctx.pre)
    ensures EndStyle(Pieces(nodes, ctx), st) == st
    decreases nodes, 1
  {
    if nodes != [] {
      PiecesRunNode(nodes[0], ctx, st);
      PiecesRun(nodes[1..], ctx, st);
      InterpConcat(PiecesNode(nodes[0], ctx), Pieces(nodes[1..], ctx), st);
    }
  }
}
