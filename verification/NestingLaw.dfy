/** Bad nesting in `parse_html`: which element a closing tag ends, and what becomes of those inside it. */
module NestingLaw {
  import opened Strings
  import opened Entities
  import opened Html
  import opened HtmlPrint
  import opened TagLaw

  /** The position found holds the innermost open element of that name; none is found exactly when there is
      none. */
  lemma {:induction false} LastNamedIff(stack: seq<Frame>, name: string, p: nat)
    ensures LastNamed(stack, name) == Some(p)
      <==> p < |stack| && stack[p].name == name && forall i | p < i < |stack| :: stack[i].name != name
    ensures LastNamed(stack, name) == None <==> forall i | 0 <= i < |stack| :: stack[i].name != name
  {
    if stack != [] && stack[|stack| - 1].name != name {
      LastNamedIff(stack[..|stack| - 1], name, p);
    }
  }

  /** Open elements put into one another, each behind the children its parent had so far. */
  function Fold(frames: seq<Frame>): Node
    requires frames != []
  {
    var f := frames[0];
    Element(f.name, f.attrs, f.children + if |frames| == 1 then [] else [Fold(frames[1..])])
  }

  /** Closing the innermost of several is putting it behind the children of the next one out. */
  lemma {:induction false} FoldInner(frames: seq<Frame>, g: Frame, f: Frame)
    ensures Fold(frames + [g, f])
      == Fold(frames + [g.(children := g.children + [Element(f.name, f.attrs, f.children)])])
  {
    var joined := g.(children := g.children + [Element(f.name, f.attrs, f.children)]);
    if frames == [] {
      assert [] + [g, f] == [g, f] && [g, f][1..] == [f] && [] + [joined] == [joined];
      assert f.children + [] == f.children && joined.children + [] == joined.children;
    } else {
      assert (frames + [g, f])[1..] == frames[1..] + [g, f];
      assert (frames + [joined])[1..] == frames[1..] + [joined];
      FoldInner(frames[1..], g, f);
    }
  }

  /** Closing down to a position leaves the frames below it as they were, and hands them, or the document,
      one element with all those above folded into it. */
  lemma {:induction false} CloseFolds(b: Builder, p: nat)
    requires p < |b.stack|
    ensures CloseTo(b, p) == Append(b.(stack := b.stack[..p]), [Fold(b.stack[p..])])
    decreases |b.stack|
  {
    hide Fold, CloseInnermost;
    var n := |b.stack|;
    var f := b.stack[n - 1];
    var next := CloseInnermost(b);
    ClosedInnermost(b);
    if p == n - 1 {
      FoldOne(f);
      assert b.stack[p..] == [f];
    } else {
      var g := b.stack[n - 2];
      var joined := g.(children := g.children + [Element(f.name, f.attrs, f.children)]);
      CloseFolds(next, p);
      assert next.stack[..p] == b.stack[..p];
      assert next.stack[p..] == b.stack[p..n - 2] + [joined];
      assert b.stack[p..] == b.stack[p..n - 2] + [g, f];
      FoldInner(b.stack[p..n - 2], g, f);
    }
  }

  lemma ClosedInnermost(b: Builder)
    requires b.stack != []
    ensures var n, f := |b.stack|, b.stack[|b.stack| - 1];
      var done := Element(f.name, f.attrs, f.children);
      && |CloseInnermost(b).stack| == n - 1
      && CloseInnermost(b) == Append(b.(stack := b.stack[..n - 1]), [done])
      && (n > 1 ==>
            var g := b.stack[n - 2];
            CloseInnermost(b) == b.(stack := b.stack[..n - 2] + [g.(children := g.children + [done])]))
  {
    var n := |b.stack|;
    if n > 1 {
      assert b.stack[..n - 1][..n - 2] == b.stack[..n - 2];
    }
  }

  lemma FoldOne(f: Frame)
    ensures Fold([f]) == Element(f.name, f.attrs, f.children)
  {
    assert f.children + [] == f.children;
  }

  /** A closing tag ends the innermost open element of its name with everything still open inside it, and
      is ignored when there is none. */
  lemma ClosingTag(b: Builder, name: string, attrs: seq<Attr>, p: nat)
    ensures p < |b.stack| && b.stack[p].name == name && (forall i | p < i < |b.stack| :: b.stack[i].name != name)
      ==> ApplyTag(b, (Closing, name, attrs)) == Append(b.(stack := b.stack[..p]), [Fold(b.stack[p..])])
    ensures (forall i | 0 <= i < |b.stack| :: b.stack[i].name != name) ==> ApplyTag(b, (Closing, name, attrs)) == b
  {
    hide Fold, Append, CloseTo;
    LastNamedIff(b.stack, name, p);
    if p < |b.stack| {
      CloseFolds(b, p);
    }
  }

  /** At the end of the input, whatever is still open is folded into one last element. */
  lemma EndCloses(s: string)
    ensures var b := Flush(Consume(s, EMPTY));
      Parse(s) == b.top + if b.stack == [] then [] else [Fold(b.stack)]
  {
    hide Consume, Flush, Fold;
    var b := Flush(Consume(s, EMPTY));
    if b.stack != [] {
      CloseFolds(b, 0);
      assert b.stack[..0] == [] && b.stack[0..] == b.stack;
    } else {
      assert b.top + [] == b.top;
    }
  }

  // ---------- a badly nested document ----------

  /** A tag, a text behind it, and the rest. */
  function TagText(inner: string, t: string, rest: string): string {
    "<" + inner + ">" + (t + rest)
  }

  lemma ConsumeTagText(inner: string, t: string, rest: string, b: Builder)
    requires inner != "" && inner[0] != '!' && Free(Only('>'), inner) && PlainText(t)
    ensures Consume(TagText(inner, t, rest), b) == Consume(rest, ApplyTag(Flush(b), ReadTag(inner)).(text := t))
  {
    hide Consume, ReadTag, ApplyTag, Flush, Free;
    ConsumeTag(inner, t + rest, b);
    var next := ApplyTag(Flush(b), ReadTag(inner));
    ConsumeRun(t, rest, next);
    assert next.text == "" && "" + t == t;
  }

  lemma FlushPlain(b: Builder, t: string)
    requires PlainText(t)
    ensures Flush(b.(text := t)) == Append(b.(text := ""), TextNode(t))
  {
    hide Decode;
    DecodePlain(t);
    AppendNone(b.(text := ""));
  }

  /** An element opened inside another and closed after it ends with the outer one, its own closing tag is
      ignored, and the text in between and behind stands outside of both. */
  lemma MisnestedParse(m: string, n: string, a: string, c: string, d: string, e: string)
    requires PlainName(m) && PlainName(n) && m != n
    requires PlainText(a) && PlainText(c) && PlainText(d) && PlainText(e)
    ensures Parse(TagText(m, a, TagText(n, c, TagText("/" + m, d, TagText("/" + n, e, "")))))
      == [Element(m, [], TextNode(a) + [Element(n, [], TextNode(c))])] + TextNode(d) + TextNode(e)
  {
    hide Consume, ReadTag, ApplyTag, Flush, Free, PlainName, PlainText, TextNode, Append, CloseTo, Fold;
    ReadNames(m);
    ReadNames(n);
    var inner := Frame(n, [], TextNode(c));
    var outer := Frame(m, [], TextNode(a));
    var done := [Element(m, [], TextNode(a) + [Element(n, [], TextNode(c))])];
    var rest3 := TagText("/" + n, e, "");
    var rest2 := TagText("/" + m, d, rest3);
    var rest1 := TagText(n, c, rest2);
    ConsumeTagText(m, a, rest1, EMPTY);
    OpensWithText(EMPTY, m, a);
    ConsumeTagText(n, c, rest2, Builder([Frame(m, [], [])], [], a));
    OpensInside(m, n, a);
    ConsumeTagText("/" + m, d, rest3, Builder([outer, Frame(n, [], [])], [], c));
    ClosesBoth(m, n, a, c);
    ConsumeTagText("/" + n, e, "", Builder([], done, d));
    IgnoresStray(n, done, d);
    ConsumeNothing(Builder([], done + TextNode(d), e));
    TopText(done + TextNode(d), e);
  }

  lemma ReadNames(m: string)
    requires PlainName(m)
    ensures ReadTag(m) == (Opening, m, []) && ReadTag("/" + m) == (Closing, m, [])
    ensures m != "" && m[0] != '!' && Free(Only('>'), m)
    ensures "/" + m != "" && ("/" + m)[0] != '!' && Free(Only('>'), "/" + m)
  {
    hide ReadTag, PlainName, PrintAttrs;
    NoAttrsPrinted();
    assert m + "" == m;
    ReadOpening(m, []);
    ReadClosing(m);
    TagIsPlain(m, []);
  }

  lemma OpensWithText(b: Builder, m: string, a: string)
    requires b == EMPTY
    ensures ApplyTag(Flush(b), (Opening, m, [])).(text := a) == Builder([Frame(m, [], [])], [], a)
  {
    assert [] + [Frame(m, [], [])] == [Frame(m, [], [])];
  }

  lemma OpensInside(m: string, n: string, a: string)
    requires PlainText(a)
    ensures ApplyTag(Flush(Builder([Frame(m, [], [])], [], a)), (Opening, n, []))
      == Builder([Frame(m, [], TextNode(a)), Frame(n, [], [])], [], "")
  {
    hide PlainText, TextNode, Flush;
    FlushPlain(Builder([Frame(m, [], [])], [], a), a);
    assert [] + TextNode(a) == TextNode(a);
    assert [Frame(m, [], TextNode(a))] + [Frame(n, [], [])] == [Frame(m, [], TextNode(a)), Frame(n, [], [])];
  }

  lemma ClosesBoth(m: string, n: string, a: string, c: string)
    requires PlainText(c) && m != n
    ensures ApplyTag(Flush(Builder([Frame(m, [], TextNode(a)), Frame(n, [], [])], [], c)), (Closing, m, []))
      == Builder([], [Element(m, [], TextNode(a) + [Element(n, [], TextNode(c))])], "")
  {
    hide PlainText, TextNode, Flush, ApplyTag;
    var outer, inner := Frame(m, [], TextNode(a)), Frame(n, [], TextNode(c));
    var b := Builder([outer, Frame(n, [], [])], [], c);
    FlushPlain(b, c);
    assert [] + TextNode(c) == TextNode(c);
    assert Flush(b) == Builder([outer, inner], [], "");
    ClosesPair(outer, inner);
  }

  lemma ClosesPair(outer: Frame, inner: Frame)
    requires outer.name != inner.name
    ensures ApplyTag(Builder([outer, inner], [], ""), (Closing, outer.name, []))
      == Builder([], [Element(outer.name, outer.attrs,
           outer.children + [Element(inner.name, inner.attrs, inner.children)])], "")
  {
    hide ApplyTag, Fold;
    ClosingTag(Builder([outer, inner], [], ""), outer.name, [], 0);
    FoldInner([], outer, inner);
    var joined := outer.(children := outer.children + [Element(inner.name, inner.attrs, inner.children)]);
    assert [] + [outer, inner] == [outer, inner] && [] + [joined] == [joined];
    FoldOne(joined);
    assert [outer, inner][0..] == [outer, inner];
  }

  lemma IgnoresStray(n: string, done: seq<Node>, d: string)
    requires PlainText(d)
    ensures ApplyTag(Flush(Builder([], done, d)), (Closing, n, [])) == Builder([], done + TextNode(d), "")
  {
    hide PlainText, TextNode, Flush, ApplyTag;
    FlushPlain(Builder([], done, d), d);
    ClosingTag(Builder([], done + TextNode(d), ""), n, [], 0);
  }

  lemma TopText(done: seq<Node>, e: string)
    requires PlainText(e)
    ensures CloseTo(Flush(Builder([], done, e)), 0).top == done + TextNode(e)
  {
    hide PlainText, TextNode, Flush;
    FlushPlain(Builder([], done, e), e);
  }

  /** A line break written as an open tag inside bold text ends with the bold text. */
  lemma BreakInBold(a: string, c: string, d: string)
    requires PlainText(a) && PlainText(c) && PlainText(d) && a != "" && c != "" && d != ""
    ensures Parse(TagText("b", a, TagText("br", c, TagText("/b", d, ""))))
      == [Element("b", [], [Text(a), Element("br", [], [Text(c)])]), Text(d)]
  {
    hide Consume, ReadTag, ApplyTag, Flush, Free, PlainName, PlainText, Append, CloseTo;
    assert |"b"| != |"br"|;
    LettersArePlain("b");
    LettersArePlain("br");
    ReadNames("b");
    ReadNames("br");
    assert "/" + "b" == "/b";
    var rest2 := TagText("/b", d, "");
    var rest1 := TagText("br", c, rest2);
    ConsumeTagText("b", a, rest1, EMPTY);
    OpensWithText(EMPTY, "b", a);
    ConsumeTagText("br", c, rest2, Builder([Frame("b", [], [])], [], a));
    OpensInside("b", "br", a);
    ConsumeTagText("/b", d, "", Builder([Frame("b", [], TextNode(a)), Frame("br", [], [])], [], c));
    ClosesBoth("b", "br", a, c);
    var done := [Element("b", [], TextNode(a) + [Element("br", [], TextNode(c))])];
    ConsumeNothing(Builder([], done, d));
    TopText(done, d);
    assert [Text(a)] + [Element("br", [], [Text(c)])] == [Text(a), Element("br", [], [Text(c)])];
    assert done + [Text(d)] == [done[0], Text(d)];
  }
}
