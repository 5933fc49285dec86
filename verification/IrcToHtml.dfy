/** IRC text to a Matrix plain body and HTML body: `irc_to_matrix` and what it calls. */
module IrcToHtml {
  import opened Strings
  import opened Entities
  import opened IrcCodes
  import opened Links

  /** `toggle_markers`. */
  function Markers(prev: Style, next: Style): string {
    (if prev.bold != next.bold then "*" else "")
    + (if prev.monospace != next.monospace then "`" else "")
    + (if prev.italic != next.italic then "/" else "")
    + (if prev.underlined != next.underlined then "_" else "")
    + (if prev.strike != next.strike then "~" else "")
  }

  /** The `font` attributes of `wrap_html`. */
  function FontAttr(key: string, c: Option<string>): string {
    if c.Some? then " " + (key + ("=" + ("\"" + (c.value + "\"")))) else ""
  }

  function FontAttrs(st: Style): string {
    FontAttr("data-mx-color", st.fg) + FontAttr("data-mx-bg-color", st.bg)
  }

  function InTag(on: bool, tag: string, html: string): string {
    if on then "<" + tag + ">" + html + "</" + tag + ">" else html
  }

  /** `wrap_html`. */
  function WrapHtml(st: Style, html: string): string {
    var h := InTag(st.bold, "b", html);
    var h := InTag(st.monospace, "code", h);
    var h := InTag(st.italic, "i", h);
    var h := InTag(st.underlined, "u", h);
    var h := InTag(st.strike, "strike", h);
    if st.fg.None? && st.bg.None? then h else "<font" + FontAttrs(st) + ">" + h + "</font>"
  }

  lemma LinkFreeReset(text: string)
    requires LinkFree(text)
    ensures LinkFree(text + [RESET])
  {
    var s := text + [RESET];
    forall k | 0 <= k <= |s|
      ensures !("mailto:" <= s[k..]) && !("://" <= s[k..])
    {
      ResetEnds(text, k, "mailto:");
      ResetEnds(text, k, "://");
    }
  }

  lemma ResetEnds(text: string, k: nat, p: string)
    requires k <= |text| + 1 && p != "" && Free(Only(RESET), p)
    ensures p <= (text + [RESET])[k..] ==> k <= |text| && p <= text[k..]
  {
    var s := text + [RESET];
    if p <= s[k..] {
      if k + |p| > |text| {
        assert s[k..][|text| - k] == RESET == p[|text| - k];
        assert Matches(Only(RESET), p[|text| - k]);
      }
      assert text[k..] == s[k..][..|text| - k];
    }
  }

  predicate TextsLinkFree(tokens: seq<Token>) {
    forall i | 0 <= i < |tokens| :: tokens[i].Txt? ==> LinkFree(tokens[i].text)
  }

  lemma {:induction false} LexHeadIsPrefix(s: string)
    ensures Lex(s) != [] && Lex(s)[0].Txt? ==> Lex(s)[0].text <= s
    decreases |s|
  {
    hide CodeAt;
    if s != "" && !IsCtrl(s[0]) {
      LexHeadIsPrefix(s[1..]);
    }
  }

  /** The texts of a link-free text are link-free: a link cannot reach over a control code. */
  lemma {:induction false} LexLinkFree(s: string)
    requires LinkFree(s)
    ensures TextsLinkFree(Lex(s))
    decreases |s|
  {
    hide CodeAt, LinkFree;
    if s != "" {
      if IsCtrl(s[0]) {
        var used := CodeAt(s).1;
        LinkFreePart(s, used, |s|);
        assert s[used..|s|] == s[used..];
        LexLinkFree(s[used..]);
      } else {
        LinkFreePart(s, 1, |s|);
        assert s[1..|s|] == s[1..];
        LexLinkFree(s[1..]);
        LexHeadIsPrefix(s);
        LinkFreePart(s, 0, |Lex(s)[0].text|);
        assert s[0..|Lex(s)[0].text|] == Lex(s)[0].text;
      }
    }
  }

  // ---------- the lines of a text ----------

  /** The lines, linked, with a break between each two. */
  function LinkedLines(lines: seq<string>, nicks: seq<string>): string
    requires |lines| >= 1
  {
    var first := LinkNicks(LinkUrls(lines[0]), nicks);
    if |lines| == 1 then first else first + "<br/>" + LinkedLines(lines[1..], nicks)
  }

  /** `linkified_html`. */
  function LinkifiedHtml(text: string, nicks: seq<string>): string {
    LinkedLines(Split(text, '\n'), nicks)
  }

  /** The loop over lines of `linkified_html`. */
  method Linkify(text: string, nicks: seq<string>) returns (html: string)
    ensures html == LinkifiedHtml(text, nicks)
  {
    hide LinkUrls, LinkNicks;
    var lines := Split(text, '\n');
    html := "";
    var i := 0;
    while i < |lines|
      invariant i <= |lines|
      invariant i == 0 ==> html == ""
      invariant 0 < i < |lines| ==> html + "<br/>" + LinkedLines(lines[i..], nicks) == LinkedLines(lines, nicks)
      invariant i == |lines| ==> html == LinkedLines(lines, nicks)
    {
      ghost var was := html;
      if i > 0 {
        html := html + "<br/>";
      }
      var line := LinkLine(lines[i]);
      line := LinkMentions(line, nicks);
      html := html + line;
      assert lines[0..] == lines;
      if i + 1 < |lines| {
        assert lines[i..][1..] == lines[i + 1..];
        assert i > 0 ==>
          was + "<br/>" + LinkedLines(lines[i..], nicks) == html + "<br/>" + LinkedLines(lines[i + 1..], nicks);
      }
      i := i + 1;
    }
  }

  /** The lines escaped, with a break between each two. */
  function LinesHtml(lines: seq<string>): string
    requires |lines| >= 1
  {
    if |lines| == 1 then EscapeHtml(lines[0]) else EscapeHtml(lines[0]) + "<br/>" + LinesHtml(lines[1..])
  }

  function BreakHtml(text: string): string {
    LinesHtml(Split(text, '\n'))
  }

  lemma {:induction false} LinkFreeLines(lines: seq<string>)
    requires |lines| >= 1 && forall i | 0 <= i < |lines| :: LinkFree(lines[i])
    ensures LinkedLines(lines, []) == LinesHtml(lines)
  {
    hide LinkUrls, LinkNicks, LinkFree, EscapeHtml;
    LinkFreeEscapes(lines[0]);
    EscapeIsMap(lines[0]);
    NoNicksNoMention(LinkUrls(lines[0]));
    if |lines| > 1 {
      LinkFreeLines(lines[1..]);
    }
  }

  lemma {:induction false} SplitLinkFree(text: string)
    requires LinkFree(text)
    ensures forall i | 0 <= i < |Split(text, '\n')| :: LinkFree(Split(text, '\n')[i])
    decreases |text|
  {
    hide LinkFree;
    var k := Find(Only('\n'), text);
    LinkFreePart(text, 0, k);
    assert text[0..k] == text[..k];
    if k < |text| {
      LinkFreePart(text, k + 1, |text|);
      assert text[k + 1..|text|] == text[k + 1..];
      SplitLinkFree(text[k + 1..]);
    } else {
      assert text[..k] == text;
    }
  }

  /** A link-free text is only escaped and broken into lines, with an empty nick list. */
  lemma LinkFreeBreaks(text: string)
    requires LinkFree(text)
    ensures LinkifiedHtml(text, []) == BreakHtml(text)
  {
    hide LinkFree, LinkedLines, LinesHtml;
    SplitLinkFree(text);
    LinkFreeLines(Split(text, '\n'));
  }

  // ---------- the two bodies ----------

  /** The plain body: texts, and markers where a style flips. */
  function PlainBody(tokens: seq<Token>, st: Style): string {
    if tokens == [] then ""
    else
      match tokens[0]
      case Txt(t) => t + PlainBody(tokens[1..], st)
      case Ctrl(c) => var next := ApplyCtrl(st, c); Markers(st, next) + PlainBody(tokens[1..], next)
  }

  /** The HTML body: every text, linked, in the tags of its style. */
  function HtmlBody(tokens: seq<Token>, st: Style, nicks: seq<string>): string {
    if tokens == [] then ""
    else
      match tokens[0]
      case Txt(t) => WrapHtml(st, LinkifiedHtml(t, nicks)) + HtmlBody(tokens[1..], st, nicks)
      case Ctrl(c) => HtmlBody(tokens[1..], ApplyCtrl(st, c), nicks)
  }

  /** The same without links. */
  function LinklessBody(tokens: seq<Token>, st: Style): string {
    if tokens == [] then ""
    else
      match tokens[0]
      case Txt(t) => WrapHtml(st, BreakHtml(t)) + LinklessBody(tokens[1..], st)
      case Ctrl(c) => LinklessBody(tokens[1..], ApplyCtrl(st, c))
  }

  lemma {:induction false} LinkFreeBody(tokens: seq<Token>, st: Style)
    requires TextsLinkFree(tokens)
    ensures HtmlBody(tokens, st, []) == LinklessBody(tokens, st)
  {
    hide ApplyCtrl, WrapHtml, LinkFree, LinkifiedHtml, BreakHtml;
    if tokens != [] {
      assert forall i | 0 <= i < |tokens[1..]| :: tokens[1..][i] == tokens[i + 1];
      match tokens[0]
      case Txt(t) =>
        LinkFreeBreaks(t);
        LinkFreeBody(tokens[1..], st);
      case Ctrl(c) => LinkFreeBody(tokens[1..], ApplyCtrl(st, c));
    }
  }

  /** Linking leaves the HTML body of a link-free text alone. */
  lemma LinkFreeMessage(text: string)
    requires LinkFree(text)
    ensures HtmlBody(Tokens(text), PLAIN, []) == LinklessBody(Tokens(text), PLAIN)
  {
    hide LinkFree, HtmlBody, LinklessBody, Lex;
    LinkFreeReset(text);
    LexLinkFree(text + [RESET]);
    LinkFreeBody(Tokens(text), PLAIN);
  }

  datatype Message = Message(plain: string, html: Option<string>)

  /** The tokens `irc_to_matrix` works on: the text with a reset appended. */
  function Tokens(text: string): seq<Token> {
    Lex(text + [RESET])
  }

  function Convert(text: string, nicks: seq<string>): Message {
    var plain := TrimEnd(Only(RESET), PlainBody(Tokens(text), PLAIN));
    var html := HtmlBody(Tokens(text), PLAIN, nicks);
    Message(plain, if html == EscapeHtml(plain) then None else Some(html))
  }

  /** The loop of `irc_to_matrix`. */
  method IrcToMatrix(text: string, nicks: seq<string>) returns (r: Message)
    ensures r == Convert(text, nicks)
  {
    hide ApplyCtrl, WrapHtml, Markers, LinkifiedHtml;
    var tokens := TokenizeIrc(text + [RESET]);
    var state := PLAIN;
    var plain, html := "", "";
    var i := 0;
    while i < |tokens|
      invariant i <= |tokens|
      invariant PlainBody(tokens, PLAIN) == plain + PlainBody(tokens[i..], state)
      invariant HtmlBody(tokens, PLAIN, nicks) == html + HtmlBody(tokens[i..], state, nicks)
    {
      ghost var rest := tokens[i + 1..];
      assert tokens[i..][1..] == rest;
      match tokens[i] {
        case Ctrl(c) =>
          var next := ApplyCtrl(state, c);
          var markers := Markers(state, next);
          Assoc(plain, markers, PlainBody(rest, next));
          plain := plain + markers;
          state := next;
        case Txt(t) =>
          var lines := Linkify(t, nicks);
          var frag := WrapHtml(state, lines);
          Assoc(plain, t, PlainBody(rest, state));
          Assoc(html, frag, HtmlBody(rest, state, nicks));
          plain := plain + t;
          html := html + frag;
      }
      i := i + 1;
    }
    assert tokens[i..] == [];
    assert plain + "" == plain && html + "" == html;
    plain := TrimEnd(Only(RESET), plain);
    r := Message(plain, if html == EscapeHtml(plain) then None else Some(html));
  }
}
