/** Control codes in the texts of a tree, and the codes that are written around them. */
module ControlLaw {
  import opened Strings
  import opened Html
  import opened IrcCodes
  import opened IrcCanon
  import opened HtmlToIrc
  import opened HtmlMeaning

  /** No text that is transformed holds a control code. */
  predicate ControlFreeNode(n: Node)
    decreases n, 0
  {
    match n
    case Comment => true
    case Text(t) => NoCtrl(t)
    case Element(name, attrs, children) =>
      Classify(name).Reply? || Classify(name).Break? || ControlFree(children)
  }

  predicate ControlFree(nodes: seq<Node>)
    decreases nodes, 1
  {
    nodes == [] || (ControlFreeNode(nodes[0]) && ControlFree(nodes[1..]))
  }

  predicate CodesSound(tokens: seq<Token>) {
    forall i | 0 <= i < |tokens| :: tokens[i].Ctrl? ==> CanonCode(tokens[i].code)
  }

  predicate TextsFree(tokens: seq<Token>) {
    forall i | 0 <= i < |tokens| :: tokens[i].Txt? ==> NoCtrl(tokens[i].text)
  }

  lemma SoundParts(tokens: seq<Token>)
    ensures Sound(tokens) <==> CodesSound(tokens) && TextsFree(tokens)
  {
    hide NoCtrl, CanonCode;
  }

  lemma PartsConcat(a: seq<Token>, b: seq<Token>)
    ensures CodesSound(a + b) <==> CodesSound(a) && CodesSound(b)
    ensures TextsFree(a + b) <==> TextsFree(a) && TextsFree(b)
  {
    hide NoCtrl, CanonCode;
    assert forall i | 0 <= i < |a| :: (a + b)[i] == a[i];
    assert forall i | 0 <= i < |b| :: (a + b)[|a| + i] == b[i];
  }

  lemma PartsOne(k: Token)
    ensures CodesSound([k]) <==> (k.Ctrl? ==> CanonCode(k.code))
    ensures TextsFree([k]) <==> (k.Txt? ==> NoCtrl(k.text))
  {
    hide NoCtrl, CanonCode;
    assert [k][0] == k;
  }

  // ---------- the codes are sound ----------

  lemma HexPair(f: string, b: string)
    requires |f| == 6 && AllHex(f) && |b| == 6 && AllHex(b)
    ensures CanonCode([HEXCOLOR] + f + "," + b) && CanonCode([HEXCOLOR] + f)
  {
    var spec := f + "," + b;
    assert ([HEXCOLOR] + f + "," + b)[1..] == spec && ([HEXCOLOR] + f)[1..] == f;
    assert spec[..6] == f && spec[7..] == b && f[..6] == f;
  }

  lemma NinetyNines()
    ensures CanonCode([COLOR] + "99,99") && CanonCode([COLOR] + "99")
  {
    assert ([COLOR] + "99,99")[1..] == "99,99" && ([COLOR] + "99")[1..] == "99";
    assert "99,99"[..2] == "99" && "99,99"[3..] == "99" && "99"[..2] == "99";
  }

  lemma ColorsSound(c: Colors)
    requires IsColors(c)
    ensures CodesSound(ColorTokens(c)) && TextsFree(ColorTokens(c))
  {
    hide CanonCode;
    NinetyNines();
    match c
    case Colors(None, None) =>
    case Colors(Some(f), None) => HexPair(f, f);
    case Colors(Some(f), Some(b)) => HexPair(f, b);
    case Colors(None, Some(b)) =>
      HexPair("000000", b);
      assert [HEXCOLOR] + "000000," + b == [HEXCOLOR] + "000000" + "," + b;
  }

  lemma EndsSound(tag: Tag, c: Colors, outer: Colors)
    requires IsColors(c) && IsColors(outer)
    ensures CodesSound(Before(tag, c)) && CodesSound(After(tag, c, outer))
    ensures TextsFree(Before(tag, c)) && TextsFree(After(tag, c, outer))
  {
    hide ColorTokens, IsColors;
    if !tag.Simple? && c != NOCOLOR {
      ColorsSound(c);
      ColorsSound(outer);
    }
  }

  lemma {:induction false} PiecesCodesNode(n: Node, ctx: Context)
    requires IsColors(ctx.colors)
    ensures CodesSound(PiecesNode(n, ctx))
    decreases n, 0
  {
    hide Classify, TagColors, Before, After, IsColors, Shown, CodesSound;
    match n
    case Comment => NoParts();
    case Text(t) => PartsOne(Txt(Shown(t, ctx.pre)));
    case Element(name, attrs, children) =>
      var tag := Classify(name);
      NoParts();
      PartsOne(Txt("\n"));
      if !tag.Break? && !tag.Reply? {
        var c := TagColors(tag, attrs);
        var inner := InsideContext(tag, c, ctx);
        TagColorsOk(tag, attrs);
        EndsSound(tag, c, ctx.colors);
        PiecesCodes(children, inner);
        PartsConcat(Pieces(children, inner), After(tag, c, ctx.colors));
        PartsConcat(Before(tag, c), Pieces(children, inner) + After(tag, c, ctx.colors));
      }
  }

  lemma NoParts()
    ensures CodesSound([]) && TextsFree([])
  {
  }

  /** Every code written is in normal form. */
  lemma {:induction false} PiecesCodes(nodes: seq<Node>, ctx: Context)
    requires IsColors(ctx.colors)
    ensures CodesSound(Pieces(nodes, ctx))
    decreases nodes, 1
  {
    hide CodesSound, PiecesNode, IsColors;
    if nodes == [] {
      NoParts();
    } else {
      PiecesCodesNode(nodes[0], ctx);
      PiecesCodes(nodes[1..], ctx);
      PartsConcat(PiecesNode(nodes[0], ctx), Pieces(nodes[1..], ctx));
    }
  }

  // ---------- the texts ----------

  lemma NoCtrlConcat(a: string, b: string)
    ensures NoCtrl(a + b) <==> NoCtrl(a) && NoCtrl(b)
  {
    hide IsCtrl;
    assert forall i | 0 <= i < |a| :: (a + b)[i] == a[i];
    assert forall i | 0 <= i < |b| :: (a + b)[|a| + i] == b[i];
  }

  lemma TrimControls(s: string)
    ensures NoCtrl(TrimStart(LineBreak, s)) <==> NoCtrl(s)
  {
    hide TrimStart;
    var r := TrimStart(LineBreak, s);
    var cut := s[..|s| - |r|];
    TrimStartCuts(LineBreak, s);
    Glue(s, |cut|);
    NoCtrlConcat(cut, r);
    assert forall i | 0 <= i < |cut| :: Matches(LineBreak, cut[i]) && !IsCtrl(cut[i]);
  }

  /** Squeezing takes no control code away. */
  lemma {:induction false} SqueezeControls(s: string)
    ensures NoCtrl(Squeeze(s)) <==> NoCtrl(s)
    decreases |s|
  {
    hide NoCtrl, TrimStart;
    PlainSigns();
    if s != "" {
      NoCtrlConcat([s[0]], s[1..]);
      assert s == [s[0]] + s[1..];
      if Matches(LineBreak, s[0]) {
        var r := TrimStart(LineBreak, s[1..]);
        var q := if r != "" && r[0] == ' ' then TrimStart(LineBreak, r[1..]) else r;
        TrimControls(s[1..]);
        if r != "" && r[0] == ' ' {
          TrimControls(r[1..]);
          NoCtrlConcat(" ", r[1..]);
          assert r == " " + r[1..];
        }
        SqueezeControls(q);
        NoCtrlConcat(" ", Squeeze(q));
      } else if s[0] == ' ' && |s| > 1 && Matches(LineBreak, s[1]) {
        var q := TrimStart(LineBreak, s[2..]);
        TrimControls(s[2..]);
        NoCtrlConcat([s[1]], s[2..]);
        assert s[1..] == [s[1]] + s[2..];
        SqueezeControls(q);
        NoCtrlConcat(" ", Squeeze(q));
      } else {
        SqueezeControls(s[1..]);
        NoCtrlConcat([s[0]], Squeeze(s[1..]));
      }
    }
  }

  lemma PlainSigns()
    ensures NoCtrl("") && NoCtrl(" ") && NoCtrl("\n") && NoCtrl("\r")
    ensures forall c :: Matches(LineBreak, c) ==> NoCtrl([c])
  {
  }

  lemma {:induction false} PiecesTextsNode(n: Node, ctx: Context)
    requires IsColors(ctx.colors)
    ensures TextsFree(PiecesNode(n, ctx)) <==> ControlFreeNode(n)
    decreases n, 0
  {
    hide Classify, TagColors, Before, After, IsColors, Squeeze, TextsFree, NoCtrl;
    match n
    case Comment => NoParts();
    case Text(t) =>
      SqueezeControls(t);
      PartsOne(Txt(Shown(t, ctx.pre)));
    case Element(name, attrs, children) =>
      var tag := Classify(name);
      NoParts();
      PlainSigns();
      PartsOne(Txt("\n"));
      if !tag.Break? && !tag.Reply? {
        var c := TagColors(tag, attrs);
        var inner := InsideContext(tag, c, ctx);
        TagColorsOk(tag, attrs);
        EndsSound(tag, c, ctx.colors);
        PiecesTexts(children, inner);
        PartsConcat(Pieces(children, inner), After(tag, c, ctx.colors));
        PartsConcat(Before(tag, c), Pieces(children, inner) + After(tag, c, ctx.colors));
      }
  }

  lemma {:induction false} PiecesTexts(nodes: seq<Node>, ctx: Context)
    requires IsColors(ctx.colors)
    ensures TextsFree(Pieces(nodes, ctx)) <==> ControlFree(nodes)
    decreases nodes, 1
  {
    hide TextsFree, PiecesNode, ControlFreeNode, IsColors;
    if nodes == [] {
      NoParts();
    } else {
      PiecesTextsNode(nodes[0], ctx);
      PiecesTexts(nodes[1..], ctx);
      PartsConcat(PiecesNode(nodes[0], ctx), Pieces(nodes[1..], ctx));
    }
  }

  // ---------- a control code in a text is not shown ----------

  /** A text as tokens of one character each, its control characters as codes. */
  function Atoms(t: string): seq<Token> {
    if t == "" then [] else [if IsCtrl(t[0]) then Ctrl([t[0]]) else Txt([t[0]])] + Atoms(t[1..])
  }

  function Atomized(tokens: seq<Token>): seq<Token> {
    if tokens == [] then []
    else (if tokens[0].Txt? then Atoms(tokens[0].text) else [tokens[0]]) + Atomized(tokens[1..])
  }

  lemma {:induction false} VisibleConcat(a: seq<Token>, b: seq<Token>)
    ensures Visible(a + b) == Visible(a) + Visible(b)
  {
    if a == [] {
      assert a + b == b;
    } else {
      assert (a + b)[1..] == a[1..] + b;
      VisibleConcat(a[1..], b);
    }
  }

  lemma AtomIs(c: char)
    ensures var k := if IsCtrl(c) then Ctrl([c]) else Txt([c]);
      Sound([k]) && PrintTokens([k]) == [c] && Visible([k]) == if IsCtrl(c) then 0 else 1
  {
    var k := if IsCtrl(c) then Ctrl([c]) else Txt([c]);
    assert [k][1..] == [] && [c][1..] == "";
  }

  lemma {:induction false} AtomsAre(t: string)
    ensures Sound(Atoms(t)) && PrintTokens(Atoms(t)) == t
    ensures Visible(Atoms(t)) <= |t| && (Visible(Atoms(t)) == |t| <==> NoCtrl(t))
  {
    hide Sound, PrintTokens, Visible, IsCtrl;
    if t == "" {
      NoAtoms();
    } else {
      var k := if IsCtrl(t[0]) then Ctrl([t[0]]) else Txt([t[0]]);
      var rest := Atoms(t[1..]);
      AtomIs(t[0]);
      AtomsAre(t[1..]);
      SoundBoth([k], rest);
      PrintConcat([k], rest);
      VisibleConcat([k], rest);
      NoCtrlConcat([t[0]], t[1..]);
      assert t == [t[0]] + t[1..];
    }
  }

  lemma NoAtoms()
    ensures Sound([]) && PrintTokens([]) == "" && Visible([]) == 0
  {
  }

  lemma SoundBoth(a: seq<Token>, b: seq<Token>)
    ensures Sound(a + b) <==> Sound(a) && Sound(b)
  {
    hide Sound, CodesSound, TextsFree;
    SoundParts(a);
    SoundParts(b);
    SoundParts(a + b);
    PartsConcat(a, b);
  }

  lemma TokenIs(k: Token)
    ensures PrintTokens([k]) == (if k.Txt? then k.text else k.code) && Visible([k]) == if k.Txt? then |k.text| else 0
  {
    assert [k][1..] == [];
  }

  lemma {:induction false} AtomizedIs(tokens: seq<Token>)
    requires CodesSound(tokens)
    ensures Sound(Atomized(tokens)) && PrintTokens(Atomized(tokens)) == PrintTokens(tokens)
    ensures Visible(Atomized(tokens)) <= Visible(tokens)
    ensures Visible(Atomized(tokens)) == Visible(tokens) <==> TextsFree(tokens)
  {
    hide CodesSound, TextsFree, Sound, PrintTokens, Visible, Atoms, NoCtrl, CanonCode;
    if tokens == [] {
      NoAtoms();
      NoParts();
    } else {
      var k, rest := tokens[0], tokens[1..];
      var first := if k.Txt? then Atoms(k.text) else [k];
      assert tokens == [k] + rest;
      PartsConcat([k], rest);
      PartsOne(k);
      PrintConcat([k], rest);
      VisibleConcat([k], rest);
      TokenIs(k);
      AtomizedIs(rest);
      if k.Txt? {
        AtomsAre(k.text);
      } else {
        SoundParts([k]);
      }
      SoundBoth(first, Atomized(rest));
      PrintConcat(first, Atomized(rest));
      VisibleConcat(first, Atomized(rest));
    }
  }

  /** Tokens of which some text holds a control code are read back with less to be seen, however the code
      is read. */
  lemma ControlLoss(tokens: seq<Token>)
    requires CodesSound(tokens) && !TextsFree(tokens)
    ensures Visible(Lex(PrintTokens(tokens))) < Visible(tokens)
  {
    hide CodesSound, TextsFree, Sound, Visible, Lex, PrintTokens, Merge, Atomized;
    var atoms := Atomized(tokens);
    AtomizedIs(tokens);
    MergeFacts(atoms, PLAIN);
    InterpLength(atoms, PLAIN);
    InterpLength(Merge(atoms), PLAIN);
    LexLoss(Merge(atoms));
  }
}
