/** The tolerant HTML parser of `src/format/mod.rs`: `parse_attrs` and `parse_html`. */
module Html {
  import opened Strings
  import opened Entities

  datatype Attr = Attr(key: string, value: string)

  datatype Node =
    | Element(name: string, attrs: seq<Attr>, children: seq<Node>)
    | Text(text: string)
    | Comment

  // ---------- attributes ----------

  predicate Trimmed(s: string) { s != "" ==> !IsWhite(s[0]) }

  /** One `name`, `name=value` or `name="value"`: the name, the raw value, and what is left. */
  function AttrStep(rest: string): (r: (string, string, string))
    requires rest != "" && Trimmed(rest)
    ensures |r.2| < |rest| && Trimmed(r.2)
  {
    var n := Find(WhiteOr('='), rest);
    var name := rest[..n];
    var after := TrimStart(White, rest[n..]);
    if after != "" && after[0] == '=' then
      var value := TrimStart(White, after[1..]);
      if value != "" && value[0] == '"' then
        var quoted := value[1..];
        var e := Find(Only('"'), quoted);
        (name, quoted[..e], TrimStart(White, if e < |quoted| then quoted[e + 1..] else ""))
      else
        var e := Find(White, value);
        (name, value[..e], TrimStart(White, value[e..]))
    else
      assert rest[0..] == rest;
      (name, "", after)
  }

  /** The attribute itself; one without a name is dropped. */
  function MakeAttr(name: string, value: string): seq<Attr> {
    if name != "" then [Attr(Lower(name), Decode(value))] else []
  }

  function AttrsFrom(rest: string): seq<Attr>
    requires Trimmed(rest)
    decreases |rest|
  {
    if rest == "" then []
    else var (name, value, left) := AttrStep(rest); MakeAttr(name, value) + AttrsFrom(left)
  }

  lemma TrimIsTrimmed(s: string)
    ensures Trimmed(Trim(s))
  {
    TrimEndCuts(White, TrimStart(White, s));
  }

  function ParseAttrs(s: string): seq<Attr> {
    TrimIsTrimmed(s);
    AttrsFrom(Trim(s))
  }

  /** The loop of `parse_attrs`. */
  method ParseAttributes(s: string) returns (attrs: seq<Attr>)
    ensures attrs == ParseAttrs(s)
  {
    hide AttrStep;
    attrs := [];
    var rest := Trim(s);
    TrimIsTrimmed(s);
    while rest != ""
      invariant Trimmed(rest)
      invariant ParseAttrs(s) == attrs + AttrsFrom(rest)
      decreases |rest|
    {
      var name, value, left := TakeAttr(rest);
      Assoc(attrs, MakeAttr(name, value), AttrsFrom(left));
      if name != "" {
        var decoded := DecodeEntities(value);
        attrs := attrs + [Attr(Lower(name), decoded)];
      } else {
        attrs := attrs + [];
      }
      rest := left;
    }
  }

  /** One turn of that loop. */
  method TakeAttr(s: string) returns (name: string, value: string, rest: string)
    requires s != "" && Trimmed(s)
    ensures (name, value, rest) == AttrStep(s)
  {
    var n := Find(WhiteOr('='), s);
    name := s[..n];
    rest := TrimStart(White, s[n..]);
    value := "";
    if rest != "" && rest[0] == '=' {
      value := TrimStart(White, rest[1..]);
      if value != "" && value[0] == '"' {
        value := value[1..];
        var e := Find(Only('"'), value);
        rest := TrimStart(White, if e < |value| then value[e + 1..] else "");
        value := value[..e];
      } else {
        var e := Find(White, value);
        rest := TrimStart(White, value[e..]);
        value := value[..e];
      }
    }
  }

  // ---------- the tree builder ----------

  /** An element that is still open, with the children it has so far. */
  datatype Frame = Frame(name: string, attrs: seq<Attr>, children: seq<Node>)

  /** The mutable state of `parse_html`: open elements (innermost last), finished top-level
      nodes, and text not yet made into a node. */
  datatype Builder = Builder(stack: seq<Frame>, top: seq<Node>, text: string)

  /** Push a finished node onto the innermost open element, or onto the top level. */
  function Append(b: Builder, nodes: seq<Node>): (r: Builder)
    ensures r.text == b.text
  {
    if b.stack == [] then b.(top := b.top + nodes)
    else
      var last := b.stack[|b.stack| - 1];
      b.(stack := b.stack[..|b.stack| - 1] + [last.(children := last.children + nodes)])
  }

  function TextNode(t: string): seq<Node> {
    if t == "" then [] else [Text(t)]
  }

  function Flush(b: Builder): (r: Builder)
    ensures r.text == ""
  {
    if b.text == "" then b else Append(b.(text := ""), [Text(Decode(b.text))])
  }

  function CloseInnermost(b: Builder): Builder
    requires b.stack != []
  {
    var f := b.stack[|b.stack| - 1];
    Append(b.(stack := b.stack[..|b.stack| - 1]), [Element(f.name, f.attrs, f.children)])
  }

  /** Close every open element from the innermost down to the one at `pos`. */
  function CloseTo(b: Builder, pos: nat): (r: Builder)
    ensures |b.stack| >= pos ==> |r.stack| == pos
    ensures r.text == b.text
    decreases |b.stack|
  {
    if |b.stack| <= pos then b else CloseTo(CloseInnermost(b), pos)
  }

  /** Position of the innermost open element of that name. */
  function LastNamed(stack: seq<Frame>, name: string): (r: Option<nat>)
    ensures r.Some? ==> r.value < |stack| && stack[r.value].name == name
  {
    if stack == [] then None
    else if stack[|stack| - 1].name == name then Some(|stack| - 1)
    else LastNamed(stack[..|stack| - 1], name)
  }

  datatype TagKind = Opening | Closing | SelfClosing

  /** What stands between `<` and `>`. */
  function ReadTag(inner: string): (TagKind, string, seq<Attr>) {
    var kind :=
      if inner != "" && inner[0] == '/' then Closing
      else if inner != "" && inner[|inner| - 1] == '/' then SelfClosing
      else Opening;
    var body := Trim(TrimEnd(Only('/'), TrimStart(Only('/'), inner)));
    var n := Find(White, body);
    (kind, Lower(body[..n]), if n < |body| then ParseAttrs(body[n..]) else [])
  }

  function ApplyTag(b: Builder, tag: (TagKind, string, seq<Attr>)): (r: Builder)
    ensures r.text == b.text
  {
    match tag.0
    case Closing =>
      var pos := LastNamed(b.stack, tag.1);
      if pos.Some? then CloseTo(b, pos.value) else b
    case Opening => b.(stack := b.stack + [Frame(tag.1, tag.2, [])])
    case SelfClosing => Append(b, [Element(tag.1, tag.2, [])])
  }

  const EMPTY: Builder := Builder([], [], "")

  function Parse(s: string): seq<Node> {
    CloseTo(Flush(Consume(s, EMPTY)), 0).top
  }

  /** A run of characters before the next tag only lengthens the pending text. */
  lemma {:induction false} ConsumeRun(p: string, s: string, b: Builder)
    requires Free(Only('<'), p)
    ensures Consume(p + s, b) == Consume(s, b.(text := b.text + p))
  {
    if p == "" {
      assert p + s == s && b.text + p == b.text;
    } else {
      assert (p + s)[1..] == p[1..] + s;
      assert (p + s)[0] == p[0] && !Matches(Only('<'), p[0]);
      ConsumeRun(p[1..], s, b.(text := b.text + [p[0]]));
      assert b.text + [p[0]] + p[1..] == b.text + p;
    }
  }

  /** The branch of the loop that collects text up to the next `<`. */
  lemma RunTurn(s: string, e: nat, b: Builder)
    requires s != "" && s[0] != '<' && e == Find(Only('<'), s)
    ensures e > 0 && Consume(s, b) == Consume(s[e..], b.(text := b.text + s[..e]))
  {
    FindFirst(Only('<'), s);
    Glue(s, e);
    ConsumeRun(s[..e], s[e..], b);
  }

  /** What the loop does at a `<`: the new state and how much input it used up, or the `break`
      at a tag that never ends. */
  datatype Turn = Turn(next: Builder, used: nat) | Unterminated

  function Markup(s: string, b: Builder): (r: Turn)
    requires s != "" && s[0] == '<'
    ensures r.Turn? ==> 0 < r.used <= |s|
  {
    if "<!--" <= s then
      var e := FindSub(s, "-->");
      if e < |s| then Turn(Append(Flush(b), [Comment]), e + 3) else Turn(Flush(b), |s|)
    else
      var e := Find(Only('>'), s);
      if e == |s| then Unterminated else Turn(ApplyTag(Flush(b), ReadTag(s[1..e])), e + 1)
  }

  /** The main loop of `parse_html` from one state to the end of the input. */
  function Consume(s: string, b: Builder): Builder
    decreases |s|
  {
    if s == "" then b
    else if s[0] == '<' then
      match Markup(s, b)
      case Turn(next, used) => Consume(s[used..], next)
      case Unterminated => b
    else
      Consume(s[1..], b.(text := b.text + [s[0]]))
  }

  /** The branch of the loop at a `<`. */
  lemma MarkupTurn(s: string, b: Builder)
    requires s != ""
    ensures s[0] == '<' && Markup(s, b).Turn? ==> Consume(s, b) == Consume(s[Markup(s, b).used..], Markup(s, b).next)
    ensures s[0] == '<' && Markup(s, b).Unterminated? ==> Consume(s, b) == b
  {
    hide Markup;
  }

  lemma ConsumeNothing(b: Builder)
    ensures Consume("", b) == b
  {
  }

  /** The loop of `parse_html`, run to a tree. */
  method ParseHtml(s: string) returns (top: seq<Node>)
    ensures top == Parse(s)
  {
    hide Markup, Consume, Flush, CloseTo;
    var b := EMPTY;
    var i := 0;
    while i < |s|
      invariant i <= |s|
      invariant Consume(s, EMPTY) == Consume(s[i..], b)
      decreases |s| - i
    {
      MarkupTurn(s[i..], b);
      if s[i] == '<' {
        var step := TakeMarkup(s[i..], b);
        if step.Unterminated? {
          top := Finish(b);
          return;
        }
        Suffix(s, i, step.used);
        b := step.next;
        i := i + step.used;
      } else {
        var e := Find(Only('<'), s[i..]);
        RunTurn(s[i..], e, b);
        Suffix(s, i, e);
        b := b.(text := b.text + s[i..][..e]);
        i := i + e;
      }
    }
    ConsumeNothing(b);
    assert s[i..] == "";
    top := Finish(b);
  }

  method TakeMarkup(s: string, b: Builder) returns (r: Turn)
    requires s != "" && s[0] == '<'
    ensures r == Markup(s, b)
  {
    var comment := "<!--" <= s;
    var e := if comment then FindSub(s, "-->") else Find(Only('>'), s);
    if e == |s| && !comment {
      return Unterminated;
    }
    var flushed := FlushText(b);
    if !comment {
      var next := TakeTag(flushed, s[1..e]);
      r := Turn(next, e + 1);
    } else if e < |s| {
      r := Turn(Append(flushed, [Comment]), e + 3);
    } else {
      r := Turn(flushed, |s|);
    }
  }

  /** The end of `parse_html`: flush, then close whatever is still open. */
  method Finish(b: Builder) returns (top: seq<Node>)
    ensures top == CloseTo(Flush(b), 0).top
  {
    var r := FlushText(b);
    while r.stack != []
      invariant CloseTo(r, 0) == CloseTo(Flush(b), 0)
      decreases |r.stack|
    {
      r := CloseInnermost(r);
    }
    top := r.top;
  }

  method FlushText(b: Builder) returns (r: Builder)
    ensures r == Flush(b)
  {
    r := b;
    if b.text != "" {
      var decoded := DecodeEntities(b.text);
      r := Append(b.(text := ""), [Text(decoded)]);
    }
  }

  /** The tag branch of the loop, with its own loop popping frames up to the matching one. */
  method TakeTag(b: Builder, inner: string) returns (r: Builder)
    ensures r == ApplyTag(b, ReadTag(inner))
  {
    var (kind, name, attrs) := ReadTag(inner);
    r := b;
    match kind {
      case Closing =>
        var pos := LastNamed(b.stack, name);
        if pos.Some? {
          while |r.stack| > pos.value
            invariant CloseTo(r, pos.value) == CloseTo(b, pos.value)
            decreases |r.stack|
          {
            r := CloseInnermost(r);
          }
        }
      case Opening =>
        r := b.(stack := b.stack + [Frame(name, attrs, [])]);
      case SelfClosing =>
        r := Append(b, [Element(name, attrs, [])]);
    }
  }
}
