/** HTML to IRC preserves meaning: exactly when, for every tree without links. */
module HtmlToIrcLaw {
  import opened Strings
  import opened Html
  import opened IrcCodes
  import opened IrcCanon
  import opened HtmlToIrc
  import opened HtmlMeaning
  import opened ControlLaw
  import opened CommaLaw
  import Entities
  import HtmlPrint
  import HtmlText

  // ---------- when the styles survive ----------

  /** The style tags that enclose a place in the tree. */
  type Path = seq<Mark>

  function Count(m: Mark, path: Path): nat {
    if path == [] then 0 else (if path[0] == m then 1 else 0) + Count(m, path[1..])
  }

  predicate OddOrNone(n: nat) { n == 0 || n % 2 == 1 }

  /** What the fonts around a place do to the background: none of them sets one, the innermost sets
      both colours, or one sets a background and the innermost does not set both. */
  datatype Ground = NoGround | Whole | Broken

  /** A place where what is shown keeps its style: no style is switched on an even number of times,
      and where a background is in force, the innermost coloured font sets both colours. */
  predicate TrueToStyle(path: Path, ground: Ground) {
    (forall m: Mark :: !m.NoMark? ==> OddOrNone(Count(m, path))) && !ground.Broken?
  }

  function InsidePath(tag: Tag, path: Path): Path {
    if tag.Simple? then [tag.mark] + path else path
  }

  function InsideGround(c: Colors, ground: Ground): Ground {
    if c == NOCOLOR then ground
    else if c.fg.Some? && c.bg.Some? then Whole
    else if c.bg.None? && ground.NoGround? then NoGround
    else Broken
  }

  predicate InsidePre(tag: Tag, pre: bool) {
    pre || (tag.Simple? && tag.pre)
  }

  /** Nothing to be seen. */
  predicate NothingNode(n: Node)
    decreases n, 0
  {
    match n
    case Comment => true
    case Text(t) => t == ""
    case Element(name, attrs, children) =>
      var tag := Classify(name);
      tag.Reply? || (!tag.Break? && !tag.List? && !tag.Item? && Nothing(children))
  }

  predicate Nothing(nodes: seq<Node>)
    decreases nodes, 1
  {
    nodes == [] || (NothingNode(nodes[0]) && Nothing(nodes[1..]))
  }

  /** Everything visible stands in such a place, no line break stands in text outside `pre`, and a `br`
      encloses nothing to be seen. */
  predicate KeptNode(n: Node, path: Path, ground: Ground, pre: bool)
    decreases n, 0
  {
    match n
    case Comment => true
    case Text(t) => t == "" || (TrueToStyle(path, ground) && (pre || Free(LineBreak, t)))
    case Element(name, attrs, children) =>
      var tag := Classify(name);
      if tag.Reply? then true
      else if tag.Break? then TrueToStyle(path, ground) && Nothing(children)
      else
        && (tag.List? || tag.Item? ==> TrueToStyle(path, ground))
        && Kept(children, InsidePath(tag, path), InsideGround(TagColors(tag, attrs), ground), InsidePre(tag, pre))
  }

  predicate Kept(nodes: seq<Node>, path: Path, ground: Ground, pre: bool)
    decreases nodes, 1
  {
    nodes == [] || (KeptNode(nodes[0], path, ground, pre) && Kept(nodes[1..], path, ground, pre))
  }

  function On(m: Mark, st: Style): bool {
    match m
    case Bold => st.bold
    case Mono => st.monospace
    case Italic => st.italic
    case Strike => st.strike
    case Underline => st.underlined
    case NoMark => false
  }

  /** The intended style and the style the codes produce, at a place with that path: a style
      switched on several times is wanted on, and shown on after an odd number of times. */
  predicate Related(want: Style, got: Style, path: Path, ground: Ground) {
    && (forall m: Mark :: !m.NoMark? ==>
         On(m, want) == (Count(m, path) > 0) && On(m, got) == (Count(m, path) % 2 == 1))
    && (ground.Broken? ==> want.bg.Some? && got.bg.None?)
    && (!ground.Broken? ==> want.fg == got.fg && want.bg == got.bg && (want.bg.Some? <==> ground.Whole?))
  }

  lemma RelatedEqual(want: Style, got: Style, path: Path, ground: Ground)
    requires Related(want, got, path, ground)
    ensures want == got <==> TrueToStyle(path, ground)
  {
    if !ground.Broken? && forall m: Mark :: !m.NoMark? ==> OddOrNone(Count(m, path)) {
      assert On(Bold, want) == On(Bold, got) && On(Mono, want) == On(Mono, got) && On(Italic, want) == On(Italic, got);
      assert On(Strike, want) == On(Strike, got) && On(Underline, want) == On(Underline, got);
    }
  }

  lemma OnMark(k: Mark, m: Mark, st: Style)
    requires !k.NoMark?
    ensures On(k, Paint(m, st)) == (k == m || On(k, st))
    ensures On(k, Flip(m, st)) == (if k == m then !On(k, st) else On(k, st))
  {
  }

  lemma RelatedMark(m: Mark, want: Style, got: Style, path: Path, ground: Ground)
    requires Related(want, got, path, ground)
    ensures Related(Paint(m, want), Flip(m, got), [m] + path, ground)
  {
    hide On;
    forall k: Mark | !k.NoMark?
      ensures On(k, Paint(m, want)) == (Count(k, [m] + path) > 0)
      ensures On(k, Flip(m, got)) == (Count(k, [m] + path) % 2 == 1)
    {
      OnMark(k, m, want);
      OnMark(k, m, got);
      assert ([m] + path)[1..] == path;
    }
  }

  lemma RelatedColor(c: Colors, want: Style, got: Style, path: Path, ground: Ground)
    requires Related(want, got, path, ground) && c != NOCOLOR
    ensures Related(Tint(want, c), Colored(got, Surviving(c)), path, InsideGround(c, ground))
  {
    hide Count, On;
    forall k: Mark
      ensures On(k, Tint(want, c)) == On(k, want) && On(k, Colored(got, Surviving(c))) == On(k, got)
    {
      OnColor(k, c, want, got);
    }
  }

  lemma OnColor(k: Mark, c: Colors, want: Style, got: Style)
    ensures On(k, Tint(want, c)) == On(k, want) && On(k, Colored(got, Surviving(c))) == On(k, got)
  {
  }

  lemma RelatedInside(tag: Tag, c: Colors, want: Style, got: Style, path: Path, ground: Ground)
    requires Related(want, got, path, ground)
    requires tag.Simple? ==> c == NOCOLOR
    ensures Related(Inside(tag, c, want), SentInside(tag, c, got), InsidePath(tag, path), InsideGround(c, ground))
  {
    hide Related, Paint, Flip, Colored, Surviving, Tint;
    if tag.Simple? {
      RelatedMark(tag.mark, want, got, path, ground);
    } else if c != NOCOLOR {
      RelatedColor(c, want, got, path, ground);
    } else {
      TintNothing(want);
    }
  }

  lemma TintNothing(st: Style)
    ensures Tint(st, NOCOLOR) == st
  {
  }

  lemma StyledEqual(s: string, t: string, a: Style, b: Style)
    ensures Styled(s, a) == Styled(t, b) <==> s == t && (s == "" || a == b)
  {
    if Styled(s, a) == Styled(t, b) {
      assert |s| == |t|;
      forall i | 0 <= i < |s| ensures s[i] == t[i] && a == b {
        assert Styled(s, a)[i] == Cell(s[i], a) == Styled(t, b)[i] == Cell(t[i], b);
      }
      if s != "" { assert s[0] == t[0]; }
    }
  }

  /** Squeezing never lengthens, leaves no line break, and is the identity on text without any. */
  lemma {:induction false} SqueezeFacts(s: string)
    ensures |Squeeze(s)| <= |s|
    ensures Squeeze(s) == s <==> Free(LineBreak, s)
    ensures Free(LineBreak, Squeeze(s))
    decreases |s|
  {
    if s != "" {
      if Matches(LineBreak, s[0]) {
        var r := TrimStart(LineBreak, s[1..]);
        var q := if r != "" && r[0] == ' ' then TrimStart(LineBreak, r[1..]) else r;
        SqueezeFacts(q);
      } else if s[0] == ' ' && |s| > 1 && Matches(LineBreak, s[1]) {
        SqueezeFacts(TrimStart(LineBreak, s[2..]));
      } else {
        SqueezeFacts(s[1..]);
        FreeConcat(LineBreak, [s[0]], s[1..]);
        assert s == [s[0]] + s[1..];
        FreeConcat(LineBreak, [s[0]], Squeeze(s[1..]));
      }
    }
  }

  lemma SplitEqual<T>(a: seq<T>, b: seq<T>, c: seq<T>, d: seq<T>)
    requires |a| <= |c| && |b| <= |d|
    ensures a + b == c + d <==> a == c && b == d
  {
    if a + b == c + d {
      assert |a| == |c|;
      assert a == (a + b)[..|a|] && b == (a + b)[|a|..];
      assert c == (c + d)[..|c|] && d == (c + d)[|c|..];
    }
  }

  lemma {:induction false} SentShorterNode(n: Node, want: Style, got: Style, pre: bool)
    ensures |SentNode(n, got, pre)| <= |FlattenNode(n, want)|
    decreases n, 0
  {
    hide Classify, TagColors, Inside, SentInside;
    match n
    case Comment =>
    case Text(t) => SqueezeFacts(t);
    case Element(name, attrs, children) =>
      var tag := Classify(name);
      var c := TagColors(tag, attrs);
      SentShorter(children, Inside(tag, c, want), SentInside(tag, c, got), pre || (tag.Simple? && tag.pre));
  }

  lemma {:induction false} SentShorter(nodes: seq<Node>, want: Style, got: Style, pre: bool)
    ensures |Sent(nodes, got, pre)| <= |Flatten(nodes, want)|
    decreases nodes, 1
  {
    if nodes != [] {
      SentShorterNode(nodes[0], want, got, pre);
      SentShorter(nodes[1..], want, got, pre);
    }
  }

  lemma {:induction false} NothingIffNode(n: Node, st: Style)
    ensures FlattenNode(n, st) == [] <==> NothingNode(n)
    decreases n, 0
  {
    hide Classify, TagColors, Inside;
    if n.Element? {
      var tag := Classify(n.name);
      NothingIff(n.children, Inside(tag, TagColors(tag, n.attrs), st));
    }
  }

  lemma {:induction false} NothingIff(nodes: seq<Node>, st: Style)
    ensures Flatten(nodes, st) == [] <==> Nothing(nodes)
    decreases nodes, 1
  {
    if nodes != [] {
      NothingIffNode(nodes[0], st);
      NothingIff(nodes[1..], st);
    }
  }

  lemma {:induction false} KeptIffNode(n: Node, want: Style, got: Style, path: Path, ground: Ground, pre: bool)
    requires Related(want, got, path, ground)
    ensures SentNode(n, got, pre) == FlattenNode(n, want) <==> KeptNode(n, path, ground, pre)
    decreases n, 0
  {
    hide Classify, TagColors, Inside, SentInside, Related, TrueToStyle, InsidePath, InsideGround, Squeeze, Styled;
    RelatedEqual(want, got, path, ground);
    match n
    case Comment =>
    case Text(t) =>
      SqueezeFacts(t);
      StyledEqual(Shown(t, pre), t, got, want);
      if t == "" { assert Shown(t, pre) == ""; }
    case Element(name, attrs, children) =>
      var tag := Classify(name);
      if tag.Break? {
        var st := Inside(tag, TagColors(tag, attrs), want);
        NothingIff(children, st);
        BreakShows(n, want);
        StyledEqual("\n", "\n", got, want);
        SplitEqual(Styled("\n", got), [], Styled("\n", want), Flatten(children, st));
        assert Styled("\n", got) + [] == Styled("\n", got);
      } else if !tag.Reply? {
        var c := TagColors(tag, attrs);
        TagColorsOk(tag, attrs);
        RelatedInside(tag, c, want, got, path, ground);
        var want', got' := Inside(tag, c, want), SentInside(tag, c, got);
        KeptIff(children, want', got', InsidePath(tag, path), InsideGround(c, ground), InsidePre(tag, pre));
        SentShorter(children, want', got', InsidePre(tag, pre));
        StyledEqual(Lead(tag), Lead(tag), got, want);
        StyledEqual(Trail(tag), Trail(tag), got, want);
        var mid, mid' := Sent(children, got', InsidePre(tag, pre)), Flatten(children, want');
        SplitEqual(mid, Styled(Trail(tag), got), mid', Styled(Trail(tag), want));
        SplitEqual(
          Styled(Lead(tag), got), mid + Styled(Trail(tag), got),
          Styled(Lead(tag), want), mid' + Styled(Trail(tag), want));
      }
  }

  lemma BreakShows(n: Node, st: Style)
    requires n.Element? && Classify(n.name).Break?
    ensures FlattenNode(n, st)
      == Styled("\n", st) + Flatten(n.children, Inside(Classify(n.name), TagColors(Classify(n.name), n.attrs), st))
  {
    hide Classify, TagColors, Inside, Flatten;
    var tag := Classify(n.name);
    var inner := Flatten(n.children, Inside(tag, TagColors(tag, n.attrs), st));
    assert inner + Styled("", st) == inner;
  }

  lemma {:induction false} KeptIff(nodes: seq<Node>, want: Style, got: Style, path: Path, ground: Ground, pre: bool)
    requires Related(want, got, path, ground)
    ensures Sent(nodes, got, pre) == Flatten(nodes, want) <==> Kept(nodes, path, ground, pre)
    decreases nodes, 1
  {
    if nodes != [] {
      KeptIffNode(nodes[0], want, got, path, ground, pre);
      KeptIff(nodes[1..], want, got, path, ground, pre);
      SentShorterNode(nodes[0], want, got, pre);
      SentShorter(nodes[1..], want, got, pre);
      SplitEqual(
        SentNode(nodes[0], got, pre), Sent(nodes[1..], got, pre),
        FlattenNode(nodes[0], want), Flatten(nodes[1..], want));
    }
  }

  // ---------- the law ----------

  /** Every visible character keeps its styles. */
  predicate KeepsStyles(nodes: seq<Node>) {
    Kept(nodes, [], NoGround, false)
  }

  /** The text emitted for a tree, in any context and style that agree, read back: what the receiver
      is meant to see and the style restored, or less text, and which of the two is decided by the
      tree. */
  lemma EmittedMeaning(nodes: seq<Node>, ctx: Context, st: Style, targets: map<string, string>)
    requires Linkless(nodes) && Agrees(st, ctx)
    ensures var seen := Lex(EmitNodes(nodes, ctx, targets));
      if ControlFree(nodes) && UngluedFrom(nodes, ctx.colors, false) then
        Interp(seen, st) == Sent(nodes, st, ctx.pre) && EndStyle(seen, st) == st
      else
        |Interp(seen, st)| < |Sent(nodes, st, ctx.pre)|
  {
    hide Merge, Pieces, Lex, Interp, EndStyle, EmitNodes, Sent, Linkless, Clean, UngluedFrom, IsColors, ControlFree,
      CodesSound, TextsFree;
    var pieces := Pieces(nodes, ctx);
    var tokens := Merge(pieces);
    PiecesPrint(nodes, ctx, targets);
    PiecesTexts(nodes, ctx);
    PiecesCodes(nodes, ctx);
    PiecesRun(nodes, ctx, st);
    InterpLength(pieces, st);
    InterpLength(Lex(PrintTokens(pieces)), st);
    if !ControlFree(nodes) {
      ControlLoss(pieces);
    } else {
      SoundParts(pieces);
      MergeFacts(pieces, st);
      UngluedIff(nodes, ctx);
      InterpLength(tokens, st);
      if Clean(tokens) {
        LexPrint(tokens);
      } else {
        LexLoss(tokens);
      }
    }
  }

  lemma StartAgrees()
    ensures Agrees(PLAIN, START) && START.colors == NOCOLOR && !START.pre
  {
  }

  /** HTML to IRC preserves meaning: reading the emitted codes back shows every visible character
      of the tree with the styles of its ancestors, exactly when no text holds a
      control code, no text that starts with a comma comes directly behind an open-ended colour, every
      visible character stands in a place that keeps its styles, and nothing visible stands in a `br`. */
  lemma HtmlToIrcPreservesIff(nodes: seq<Node>, targets: map<string, string>)
    requires Linkless(nodes)
    ensures Meaning(EmitNodes(nodes, START, targets)) == Flatten(nodes, PLAIN)
      <==> ControlFree(nodes) && Unglued(nodes) && KeepsStyles(nodes)
  {
    hide EmitNodes, Sent, Flatten, Linkless, ControlFree, UngluedFrom, Kept, Lex, Interp, EndStyle;
    StartAgrees();
    EmittedMeaning(nodes, START, PLAIN, targets);
    SentShorter(nodes, PLAIN, PLAIN, false);
    assert Related(PLAIN, PLAIN, [], NoGround);
    KeptIff(nodes, PLAIN, PLAIN, [], NoGround, false);
  }

  /** Every subtree, wherever it stands, leaves the style it started from: read back, its text shows
      the sent characters and ends in the style in force before it. */
  lemma SubtreeRestores(n: Node, ctx: Context, st: Style, targets: map<string, string>)
    requires LinklessNode(n) && ControlFreeNode(n) && Agrees(st, ctx) && UngluedNode(n, ctx.colors, false)
    ensures EndStyle(Lex(EmitNode(n, ctx, targets)), st) == st
    ensures Interp(Lex(EmitNode(n, ctx, targets)), st) == SentNode(n, st, ctx.pre)
  {
    hide EmitNode, SentNode, UngluedNode, Lex, Interp, EndStyle, LinklessNode, ControlFreeNode, Agrees;
    assert [n][1..] == [];
    assert Linkless([n][1..]) && Linkless([n]) && ControlFree([n][1..]) && ControlFree([n]);
    UngluedOne(n, ctx.colors, false);
    EmitOne(n, ctx, targets);
    SentOne(n, st, ctx.pre);
    EmittedMeaning([n], ctx, st, targets);
  }

  lemma EmitOne(n: Node, ctx: Context, targets: map<string, string>)
    ensures EmitNodes([n], ctx, targets) == EmitNode(n, ctx, targets)
  {
    hide EmitNode;
    assert [n][1..] == [];
    assert EmitNodes([n][1..], ctx, targets) == "";
  }

  lemma SentOne(n: Node, st: Style, pre: bool)
    ensures Sent([n], st, pre) == SentNode(n, st, pre)
  {
    hide SentNode;
    assert Sent([n][1..], st, pre) == [];
  }

  // ---------- trimming ----------

  /** The blanks `trim` takes off the front and off the back. */
  function Front(s: string): string {
    s[..|s| - |TrimStart(White, s)|]
  }

  function Back(s: string): string {
    TrimStart(White, s)[|Trim(s)|..]
  }

  lemma TrimParts(s: string)
    ensures s == Front(s) + (Trim(s) + Back(s))
    ensures AllMatch(White, Front(s)) && AllMatch(White, Back(s))
  {
    var r := TrimStart(White, s);
    TrimStartCuts(White, s);
    TrimEndCuts(White, r);
    Glue(s, |s| - |r|);
    Glue(r, |Trim(s)|);
  }

  lemma BlanksAreInert(w: string)
    requires AllMatch(White, w)
    ensures NoCtrl(w) && Inert(w)
  {
  }

  /** What `matrix_to_irc` sends for a document, with the blanks its `trim` took off put back
      unstyled, shows the document's meaning, exactly under the same conditions. */
  lemma MatrixToIrcPreservesIff(html: string, targets: map<string, string>)
    requires Linkless(Paragraphs(Parse(html), false))
    ensures var nodes := Paragraphs(Parse(html), false);
      var out := Transform(Parse(html), targets);
      var sent := Meaning(MatrixToIrc(html, targets));
      (Styled(Front(out), PLAIN) + (sent + Styled(Back(out), PLAIN)) == Flatten(nodes, PLAIN))
      <==> (ControlFree(nodes) && Unglued(nodes) && KeepsStyles(nodes))
  {
    hide Sent, Flatten, Linkless, ControlFree, UngluedFrom, Kept, Lex, Trim, Front, Back, Interp, EndStyle, EmitNodes,
      Parse, Paragraphs, Styled;
    var nodes := Paragraphs(Parse(html), false);
    var out := EmitNodes(nodes, START, targets);
    TrimParts(out);
    BlanksAreInert(Front(out));
    BlanksAreInert(Back(out));
    MeaningAround(Front(out), Trim(out), Back(out));
    StartAgrees();
    HtmlToIrcPreservesIff(nodes, targets);
    EmittedMeaning(nodes, START, PLAIN, targets);
    if !(ControlFree(nodes) && Unglued(nodes)) {
      SentShorter(nodes, PLAIN, PLAIN, false);
    }
  }

  // ---------- what is not preserved ----------

  lemma FlattenSingle(n: Node, st: Style)
    ensures Flatten([n], st) == FlattenNode(n, st)
  {
    hide FlattenNode;
    assert [n][1..] == [] && Flatten([n][1..], st) == [];
  }

  /** An element around one child shows nothing of its own. */
  lemma Enclosed(name: string, attrs: seq<Attr>, child: Node, st: Style, pre: bool)
    requires Classify(name).Font? || (Classify(name).Simple? && !Classify(name).pre)
    ensures var tag := Classify(name);
      var c := TagColors(tag, attrs);
      var n := Element(name, attrs, [child]);
      && SentNode(n, st, pre) == SentNode(child, SentInside(tag, c, st), pre)
      && FlattenNode(n, st) == FlattenNode(child, Inside(tag, c, st))
      && (LinklessNode(n) <==> LinklessNode(child)) && (ControlFreeNode(n) <==> ControlFreeNode(child))
  {
    hide Classify, TagColors, SentInside, Inside, Sent, Flatten;
    var tag := Classify(name);
    var c := TagColors(tag, attrs);
    assert [child][1..] == [] && Linkless([child][1..]) && ControlFree([child][1..]);
    SentOne(child, SentInside(tag, c, st), pre);
    FlattenSingle(child, Inside(tag, c, st));
    var s, f := SentNode(child, SentInside(tag, c, st), pre), FlattenNode(child, Inside(tag, c, st));
    assert Styled("", st) + (s + Styled("", st)) == s && Styled("", st) + (f + Styled("", st)) == f;
  }

  /** A tree that shows one text, read back, and what it means. */
  lemma OneText(n: Node, t: string, want: Style, got: Style, targets: map<string, string>)
    requires LinklessNode(n) && ControlFreeNode(n) && UngluedNode(n, NOCOLOR, false)
    requires SentNode(n, PLAIN, false) == SentNode(Text(t), got, false)
    requires FlattenNode(n, PLAIN) == FlattenNode(Text(t), want)
    ensures Flatten([n], PLAIN) == Styled(t, want)
    ensures Meaning(EmitNodes([n], START, targets)) == Styled(Squeeze(t), got)
    ensures t != "" && want != got ==> Meaning(EmitNodes([n], START, targets)) != Flatten([n], PLAIN)
  {
    hide EmitNode, EmitNodes, UngluedNode, Lex, Interp, EndStyle, LinklessNode, ControlFreeNode, Squeeze, Styled,
      Agrees;
    assert SentNode(Text(t), got, false) == Styled(Squeeze(t), got) && FlattenNode(Text(t), want) == Styled(t, want);
    StartAgrees();
    SubtreeRestores(n, START, PLAIN, targets);
    EmitOne(n, START, targets);
    FlattenSingle(n, PLAIN);
    StyledEqual(Squeeze(t), t, got, want);
  }

  lemma UngluedIn(name: string, attrs: seq<Attr>, child: Node, colors: Colors, open: bool)
    requires Classify(name).Font? || Classify(name).Simple?
    requires var tag := Classify(name);
      var c := TagColors(tag, attrs);
      UngluedNode(child, InsideColors(c, colors), OpenInside(tag, c, open))
    ensures UngluedNode(Element(name, attrs, [child]), colors, open)
  {
    hide Classify, TagColors, OpenInside, InsideColors, UngluedFrom;
    var tag := Classify(name);
    var c := TagColors(tag, attrs);
    UngluedOne(child, InsideColors(c, colors), OpenInside(tag, c, open));
  }

  /** A style tag inside a tag of the same style switches the style off: its text comes out plain. */
  lemma DoubledTagIsPlain(a: string, b: string, m: Mark, t: string, targets: map<string, string>)
    requires Classify(a) == Simple(m, false) && Classify(b) == Simple(m, false) && !m.NoMark?
    requires t != "" && NoCtrl(t)
    ensures var nodes := [Element(a, [], [Element(b, [], [Text(t)])])];
      && Flatten(nodes, PLAIN) == Styled(t, Paint(m, PLAIN))
      && Meaning(EmitNodes(nodes, START, targets)) == Styled(Squeeze(t), PLAIN) != Flatten(nodes, PLAIN)
  {
    hide Classify, Squeeze, EmitNode, EmitNodes, SentNode, FlattenNode, Lex, Interp, Flatten, Styled;
    var inner := Element(b, [], [Text(t)]);
    var st := Flip(m, PLAIN);
    Enclosed(a, [], inner, PLAIN, false);
    Enclosed(b, [], Text(t), st, false);
    UngluedIn(b, [], Text(t), NOCOLOR, false);
    UngluedIn(a, [], inner, NOCOLOR, false);
    OneText(Element(a, [], [inner]), t, Paint(m, PLAIN), PLAIN, targets);
  }

  /** A font that sets a foreground only, inside one that sets both colours: its text comes out
      without the background it inherits. */
  lemma InnerFontLosesGround(outer: seq<Attr>, inner: seq<Attr>, t: string, targets: map<string, string>)
    requires FontColors(outer).fg.Some? && FontColors(outer).bg.Some?
    requires FontColors(inner).fg.Some? && FontColors(inner).bg.None?
    requires t != "" && NoCtrl(t) && t[0] != ','
    ensures var nodes := [Element("font", outer, [Element("font", inner, [Text(t)])])];
      var fg, bg := Hash(FontColors(inner).fg), Hash(FontColors(outer).bg);
      && Flatten(nodes, PLAIN) == Styled(t, PLAIN.(fg := fg, bg := bg))
      && Meaning(EmitNodes(nodes, START, targets)) == Styled(Squeeze(t), PLAIN.(fg := fg)) != Flatten(nodes, PLAIN)
  {
    hide Squeeze, EmitNode, EmitNodes, SentNode, FlattenNode, Lex, Interp, Flatten, Styled, FontColors, Classify;
    var o, i := FontColors(outer), FontColors(inner);
    var n := Element("font", inner, [Text(t)]);
    FontTag();
    Enclosed("font", outer, n, PLAIN, false);
    Enclosed("font", inner, Text(t), Colored(PLAIN, o), false);
    Enclosed("font", inner, Text(t), Tint(PLAIN, o), false);
    UngluedIn("font", inner, Text(t), o, false);
    UngluedIn("font", outer, n, NOCOLOR, false);
    OneText(Element("font", outer, [n]), t, Tint(Tint(PLAIN, o), i), Colored(Colored(PLAIN, o), i), targets);
  }

  lemma FontTag()
    ensures Classify("font") == Font
  {
  }

  /** Plain text, an unclosed `<br>`, and plain text behind it: `parse_html` puts the second text inside the
      `br`. */
  lemma ParseUnclosedBreak(a: string, b: string)
    requires a != "" && Free(Only('<'), a) && Free(Only('&'), a)
    requires b != "" && Free(Only('<'), b) && Free(Only('&'), b)
    ensures Parse(a + ("<br>" + b)) == [Text(a), Element("br", [], [Text(b)])]
  {
    hide Consume, Entities.Decode, ReadTag, HtmlPrint.PlainName;
    Entities.DecodePlain(a);
    Entities.DecodePlain(b);
    ConsumeRun(a, "<br>" + b, EMPTY);
    assert "" + a == a && "" + b == b && b + "" == b;
    var first := Builder([], [Text(a)], "");
    BreakOpens();
    assert "<" + "br" + ">" + b == "<br>" + b;
    HtmlPrint.ConsumeTag("br", b, EMPTY.(text := a));
    assert Flush(EMPTY.(text := a)) == first by { assert [] + [Text(a)] == [Text(a)]; }
    var inside := Builder([Frame("br", [], [])], [Text(a)], "");
    assert ApplyTag(first, (Opening, "br", [])) == inside;
    ConsumeRun(b, "", inside);
    ConsumeNothing(inside.(text := b));
    BreakCloses(a, b);
  }

  lemma BreakOpens()
    ensures ReadTag("br") == (Opening, "br", []) && Free(Only('>'), "br")
  {
    assert HtmlPrint.NameChar('b') && HtmlPrint.NameChar('r');
    HtmlPrint.ReadOpening("br", []);
    assert "br" + HtmlPrint.PrintAttrs([]) == "br";
  }

  lemma BreakCloses(a: string, b: string)
    requires b != "" && Entities.Decode(b) == b
    ensures CloseTo(Flush(Builder([Frame("br", [], [])], [Text(a)], b)), 0).top
      == [Text(a), Element("br", [], [Text(b)])]
  {
    hide Entities.Decode;
    var open := Builder([Frame("br", [], [])], [Text(a)], b);
    var full := Builder([Frame("br", [], [Text(b)])], [Text(a)], "");
    assert [] + [Text(b)] == [Text(b)];
    assert Flush(open) == full;
    assert full.stack[..0] == [];
    assert CloseInnermost(full) == Builder([], [Text(a)] + [Element("br", [], [Text(b)])], "");
    assert CloseTo(full, 0) == CloseTo(CloseInnermost(full), 0);
  }

  /** Everything behind a `<br>` that is not written as `<br/>` is lost: the document holds both texts, and
      only the first is sent. */
  lemma UnclosedBreakLosesRest(a: string, b: string, targets: map<string, string>)
    requires a != "" && Free(Only('<'), a) && Free(Only('&'), a)
    requires b != "" && Free(Only('<'), b) && Free(Only('&'), b)
    ensures var html := a + ("<br>" + b);
      var nodes := Paragraphs(Parse(html), false);
      var out := Transform(Parse(html), targets);
      && HtmlText.NodesText(Parse(html)) == a + b
      && MatrixToIrc(html, targets) == Trim(Squeeze(a) + "\n")
      && Styled(Front(out), PLAIN) + (Meaning(MatrixToIrc(html, targets)) + Styled(Back(out), PLAIN))
           != Flatten(nodes, PLAIN)
  {
    hide Parse, Trim, Front, Back, Meaning, Squeeze, Flatten, Styled, ControlFree, Unglued, Linkless,
      HtmlText.NodesText, HtmlText.NodeText;
    var nodes := [Text(a), Element("br", [], [Text(b)])];
    ParseUnclosedBreak(a, b);
    BreakDocument(a, b, targets);
    MatrixToIrcPreservesIff(a + ("<br>" + b), targets);
  }

  lemma BreakDocument(a: string, b: string, targets: map<string, string>)
    requires b != ""
    ensures var nodes := [Text(a), Element("br", [], [Text(b)])];
      && HtmlText.NodesText(nodes) == a + b
      && Paragraphs(nodes, false) == nodes && Linkless(nodes) && !KeepsStyles(nodes)
      && EmitNodes(nodes, START, targets) == Squeeze(a) + "\n"
  {
    hide HtmlText.NodesText, Paragraphs, Linkless, Kept, EmitNodes, Squeeze, Classify;
    var br := Element("br", [], [Text(b)]);
    BreakTag();
    assert [Text(a), br] == [Text(a)] + [br];
    HtmlText.NodesTextConcat([Text(a)], [br]);
    HtmlText.NodesTextOne(Text(a));
    HtmlText.NodesTextOne(Text(b));
    HtmlText.NodesTextOne(br);
    BreakParagraphs(a, b);
    BreakLaw(Text(a), br, targets);
    assert Squeeze(a) + ("\n" + "") == Squeeze(a) + "\n";
  }

  lemma BreakTag()
    ensures Classify("br") == Break && "br" != "p"
  {
    assert |"br"| != |"p"|;
  }

  lemma BreakParagraphs(a: string, b: string)
    ensures var nodes := [Text(a), Element("br", [], [Text(b)])]; Paragraphs(nodes, false) == nodes
  {
    var inner, br := [Text(b)], Element("br", [], [Text(b)]);
    var nodes := [Text(a), br];
    BreakTag();
    assert inner[1..] == [] && nodes[1..] == [br] && [br][1..] == [];
    assert Paragraphs(inner, false) == inner by { assert [Text(b)] + [] == inner; }
    assert Paragraphs([br], false) == [br] by { assert [br] + [] == [br]; }
    assert [Text(a)] + [br] == nodes;
  }

  lemma BreakLaw(first: Node, br: Node, targets: map<string, string>)
    requires first.Text? && br.Element? && Classify(br.name).Break? && |br.children| == 1
    requires br.children[0].Text? && br.children[0].text != ""
    ensures Linkless([first, br]) && !Kept([first, br], [], NoGround, false)
    ensures EmitNodes([first, br], START, targets) == Squeeze(first.text) + ("\n" + "")
  {
    hide Classify, Squeeze, TrueToStyle;
    var nodes := [first, br];
    assert nodes[1..] == [br] && [br][1..] == [];
    assert EmitNodes([br], START, targets) == EmitNode(br, START, targets) + EmitNodes([], START, targets);
    assert !Nothing(br.children);
    assert !KeptNode(br, [], NoGround, false);
    assert Linkless([br]) && !Kept([br], [], NoGround, false);
  }
}
