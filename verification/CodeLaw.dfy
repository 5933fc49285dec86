/** What each control code becomes, read off the IRC text: `irc_to_matrix` on whole messages. */
module CodeLaw {
  import opened Strings
  import opened Entities
  import opened Decimal
  import opened IrcCodes
  import opened IrcCanon
  import opened IrcToHtml
  import opened IrcToHtmlLaw
  import opened PlainBodyLaw
  import opened Links
  import opened TagLaw

  /** Two codes around a text, with the reset `irc_to_matrix` appends. */
  function Span(a: string, t: string, b: string): seq<Token> {
    [Ctrl(a)] + WithText(t, [Ctrl(b), Ctrl([RESET])])
  }

  lemma SpanTokens(c: char, t: string)
    requires IsToggle(c) && NoCtrl(t)
    ensures Tokens([c] + t + [c]) == Span([c], t, [c])
  {
    hide Lex, CodeAt, NoCtrl;
    var end := [c] + [RESET];
    assert [c] + t + [c] + [RESET] == [c] + (t + end);
    ToggleFirst(c, t + end);
    TextFirst(t, end);
    ToggleFirst(c, [RESET]);
    ResetLast();
    assert [Ctrl([c])] + [Ctrl([RESET])] == [Ctrl([c]), Ctrl([RESET])];
  }

  lemma ToggleFirst(c: char, rest: string)
    requires IsToggle(c)
    ensures Lex([c] + rest) == [Ctrl([c])] + Lex(rest)
  {
    var s := [c] + rest;
    assert s[1..] == rest;
  }

  lemma ResetLast()
    ensures Lex([RESET]) == [Ctrl([RESET])]
  {
    assert [RESET][1..] == "" && [Ctrl([RESET])] + [] == [Ctrl([RESET])];
  }

  /** The plain body and the HTML of a text in one style, which the second code takes back. */
  lemma SpanBodies(a: string, t: string, b: string, st: Style, nicks: seq<string>)
    requires t != "" && ApplyCtrl(PLAIN, a) == st && ApplyCtrl(st, b) == PLAIN
    ensures PlainBody(Span(a, t, b), PLAIN) == Markers(PLAIN, st) + (t + (Markers(st, PLAIN) + ""))
    ensures HtmlBody(Span(a, t, b), PLAIN, nicks) == WrapHtml(st, LinkifiedHtml(t, nicks))
  {
    hide WrapHtml, LinkifiedHtml, Markers;
    var end := [Ctrl(b), Ctrl([RESET])];
    var text := [Txt(t)] + end;
    assert WithText(t, end) == text && text[1..] == end && end[1..] == [Ctrl([RESET])];
    assert Span(a, t, b)[1..] == text && Span(a, t, b)[0] == Ctrl(a);
    hide WithText, ApplyCtrl;
    ResetBodies(nicks);
    Closed(b, st, nicks);
    assert WrapHtml(st, LinkifiedHtml(t, nicks)) + "" == WrapHtml(st, LinkifiedHtml(t, nicks));
  }

  lemma Closed(b: string, st: Style, nicks: seq<string>)
    requires ApplyCtrl(st, b) == PLAIN
    ensures var end := [Ctrl(b), Ctrl([RESET])];
      PlainBody(end, st) == Markers(st, PLAIN) + "" && HtmlBody(end, st, nicks) == ""
  {
    hide ApplyCtrl, Markers;
    var end := [Ctrl(b), Ctrl([RESET])];
    assert end[1..] == [Ctrl([RESET])];
    ResetBodies(nicks);
  }

  lemma ResetBodies(nicks: seq<string>)
    ensures PlainBody([Ctrl([RESET])], PLAIN) == "" && HtmlBody([Ctrl([RESET])], PLAIN, nicks) == ""
  {
    assert [Ctrl([RESET])][1..] == [];
  }

  /** A message of one style: the marker on both sides, and the HTML in its tag. */
  lemma StyledMessage(c: char, st: Style, t: string, nicks: seq<string>)
    requires IsToggle(c) && c != RESET && NoCtrl(t) && t != ""
    requires ApplyCtrl(PLAIN, [c]) == st && ApplyCtrl(st, [c]) == PLAIN
    ensures var html := WrapHtml(st, LinkifiedHtml(t, nicks));
      && Convert([c] + t + [c], nicks).plain == Markers(PLAIN, st) + (t + (Markers(st, PLAIN) + ""))
      && ('<' in html ==> Convert([c] + t + [c], nicks).html == Some(html))
  {
    hide WrapHtml, LinkifiedHtml, Markers, Tokens, PlainBody, HtmlBody, Span, NoCtrl, ApplyCtrl, IsToggle;
    SpanTokens(c, t);
    SpanBodies([c], t, [c], st, nicks);
    PlainIsBody([c] + t + [c], nicks);
    NoTagInEscaped(Convert([c] + t + [c], nicks).plain);
  }

  lemma NoTagInEscaped(s: string)
    ensures '<' !in EscapeHtml(s)
  {
    EscapeIsMap(s);
    EscapedHasNoTag(s);
  }

  lemma {:induction false} EscapedHasNoTag(s: string)
    ensures '<' !in Escape(s)
  {
    if s != "" {
      EscapedHasNoTag(s[1..]);
    }
  }

  /** Literal markers and tags of one style. */
  lemma MarkerOf()
    ensures var bold := PLAIN.(bold := true); Markers(PLAIN, bold) == Markers(bold, PLAIN) == "*"
    ensures var mono := PLAIN.(monospace := true); Markers(PLAIN, mono) == Markers(mono, PLAIN) == "`"
    ensures var italic := PLAIN.(italic := true); Markers(PLAIN, italic) == Markers(italic, PLAIN) == "/"
    ensures var under := PLAIN.(underlined := true); Markers(PLAIN, under) == Markers(under, PLAIN) == "_"
    ensures var strike := PLAIN.(strike := true); Markers(PLAIN, strike) == Markers(strike, PLAIN) == "~"
  {
  }

  lemma TagOf(html: string)
    ensures WrapHtml(PLAIN.(bold := true), html) == "<b>" + html + "</b>"
    ensures WrapHtml(PLAIN.(italic := true), html) == "<i>" + html + "</i>"
    ensures WrapHtml(PLAIN.(underlined := true), html) == "<u>" + html + "</u>"
  {
    hide InTag;
    InTags("b", html);
    InTags("code", html);
    InTags("i", html);
    InTags("u", html);
    InTags("strike", html);
    assert "<" + "b" + ">" == "<b>" && "</" + "b" + ">" == "</b>";
    assert "<" + "i" + ">" == "<i>" && "</" + "i" + ">" == "</i>";
    assert "<" + "u" + ">" == "<u>" && "</" + "u" + ">" == "</u>";
  }

  lemma LongTagOf(html: string)
    ensures WrapHtml(PLAIN.(monospace := true), html) == "<code>" + html + "</code>"
    ensures WrapHtml(PLAIN.(strike := true), html) == "<strike>" + html + "</strike>"
  {
    hide InTag;
    InTags("b", html);
    InTags("code", html);
    InTags("i", html);
    InTags("u", html);
    InTags("strike", html);
    assert "<" + "code" + ">" == "<code>" && "</" + "code" + ">" == "</code>";
    assert "<" + "strike" + ">" == "<strike>" && "</" + "strike" + ">" == "</strike>";
  }

  lemma InTags(tag: string, html: string)
    ensures InTag(true, tag, html) == ("<" + tag + ">") + html + ("</" + tag + ">")
    ensures forall tag', h :: InTag(false, tag', h) == h
  {
  }

  lemma Between(m: string, t: string)
    ensures m + (t + (m + "")) == m + t + m
  {
  }

  /** Code 02 around a text is `*` around it in the plain body, and `b` around its HTML. */
  lemma BoldMessage(t: string, nicks: seq<string>)
    requires NoCtrl(t) && t != ""
    ensures Convert("\U{02}" + t + "\U{02}", nicks)
      == Message("*" + t + "*", Some("<b>" + LinkifiedHtml(t, nicks) + "</b>"))
  {
    hide LinkifiedHtml, NoCtrl, Convert, WrapHtml, Markers;
    StyledMessage(BOLD, PLAIN.(bold := true), t, nicks);
    MarkerOf();
    TagOf(LinkifiedHtml(t, nicks));
    assert ("<b>" + LinkifiedHtml(t, nicks) + "</b>")[0] == '<';
    Between("*", t);
  }

  /** Code 11 around a text is ``` around it in the plain body, and `code` around its HTML. */
  lemma MonoMessage(t: string, nicks: seq<string>)
    requires NoCtrl(t) && t != ""
    ensures Convert("\U{11}" + t + "\U{11}", nicks)
      == Message("`" + t + "`", Some("<code>" + LinkifiedHtml(t, nicks) + "</code>"))
  {
    hide LinkifiedHtml, NoCtrl, Convert, WrapHtml, Markers;
    StyledMessage(MONO, PLAIN.(monospace := true), t, nicks);
    MarkerOf();
    LongTagOf(LinkifiedHtml(t, nicks));
    assert ("<code>" + LinkifiedHtml(t, nicks) + "</code>")[0] == '<';
    Between("`", t);
  }

  /** Code 1D around a text is `/` around it in the plain body, and `i` around its HTML. */
  lemma ItalicMessage(t: string, nicks: seq<string>)
    requires NoCtrl(t) && t != ""
    ensures Convert("\U{1D}" + t + "\U{1D}", nicks)
      == Message("/" + t + "/", Some("<i>" + LinkifiedHtml(t, nicks) + "</i>"))
  {
    hide LinkifiedHtml, NoCtrl, Convert, WrapHtml, Markers;
    StyledMessage(ITALIC, PLAIN.(italic := true), t, nicks);
    MarkerOf();
    TagOf(LinkifiedHtml(t, nicks));
    assert ("<i>" + LinkifiedHtml(t, nicks) + "</i>")[0] == '<';
    Between("/", t);
  }

  /** Code 1F around a text is `_` around it in the plain body, and `u` around its HTML. */
  lemma UnderlineMessage(t: string, nicks: seq<string>)
    requires NoCtrl(t) && t != ""
    ensures Convert("\U{1F}" + t + "\U{1F}", nicks)
      == Message("_" + t + "_", Some("<u>" + LinkifiedHtml(t, nicks) + "</u>"))
  {
    hide LinkifiedHtml, NoCtrl, Convert, WrapHtml, Markers;
    StyledMessage(UNDERLINE, PLAIN.(underlined := true), t, nicks);
    MarkerOf();
    TagOf(LinkifiedHtml(t, nicks));
    assert ("<u>" + LinkifiedHtml(t, nicks) + "</u>")[0] == '<';
    Between("_", t);
  }

  /** Code 1E around a text is `~` around it in the plain body, and `strike` around its HTML. */
  lemma StrikeMessage(t: string, nicks: seq<string>)
    requires NoCtrl(t) && t != ""
    ensures Convert("\U{1E}" + t + "\U{1E}", nicks)
      == Message("~" + t + "~", Some("<strike>" + LinkifiedHtml(t, nicks) + "</strike>"))
  {
    hide LinkifiedHtml, NoCtrl, Convert, WrapHtml, Markers;
    StyledMessage(STRIKE, PLAIN.(strike := true), t, nicks);
    MarkerOf();
    LongTagOf(LinkifiedHtml(t, nicks));
    assert ("<strike>" + LinkifiedHtml(t, nicks) + "</strike>")[0] == '<';
    Between("~", t);
  }

  // ---------- all styles at once ----------

  const ALL: Style := Style(true, true, true, true, true, None, None)

  /** The bodies behind one toggle. */
  lemma ToggleBodies(c: char, next: Style, rest: seq<Token>, st: Style, nicks: seq<string>)
    requires ApplyCtrl(st, [c]) == next
    ensures PlainBody([Ctrl([c])] + rest, st) == Markers(st, next) + PlainBody(rest, next)
    ensures HtmlBody([Ctrl([c])] + rest, st, nicks) == HtmlBody(rest, next, nicks)
  {
    hide ApplyCtrl, Markers;
    assert ([Ctrl([c])] + rest)[1..] == rest;
  }

  lemma AllTokens(t: string)
    requires NoCtrl(t) && t != ""
    ensures Tokens("\U{02}\U{11}\U{1D}\U{1F}\U{1E}" + t)
      == [Ctrl([BOLD])] + ([Ctrl([MONO])] + ([Ctrl([ITALIC])] + ([Ctrl([UNDERLINE])] + ([Ctrl([STRIKE])]
           + ([Txt(t)] + [Ctrl([RESET])])))))
  {
    hide Lex, NoCtrl;
    var end := t + [RESET];
    TextFirst(t, [RESET]);
    ResetLast();
    ToggleFirst(STRIKE, end);
    ToggleFirst(UNDERLINE, [STRIKE] + end);
    ToggleFirst(ITALIC, [UNDERLINE] + ([STRIKE] + end));
    ToggleFirst(MONO, [ITALIC] + ([UNDERLINE] + ([STRIKE] + end)));
    ToggleFirst(BOLD, [MONO] + ([ITALIC] + ([UNDERLINE] + ([STRIKE] + end))));
    assert "\U{02}\U{11}\U{1D}\U{1F}\U{1E}" + t + [RESET]
      == [BOLD] + ([MONO] + ([ITALIC] + ([UNDERLINE] + ([STRIKE] + end))));
  }

  lemma AllBodies(t: string, nicks: seq<string>)
    ensures var end := [Txt(t)] + [Ctrl([RESET])];
      && PlainBody(end, ALL) == t + "*`/_~"
      && HtmlBody(end, ALL, nicks) == WrapHtml(ALL, LinkifiedHtml(t, nicks))
  {
    hide WrapHtml, LinkifiedHtml, Markers;
    var end := [Txt(t)] + [Ctrl([RESET])];
    assert end[1..] == [Ctrl([RESET])] && [Ctrl([RESET])] + [] == [Ctrl([RESET])];
    ToggleBodies(RESET, PLAIN, [], ALL, nicks);
    assert PlainBody([], PLAIN) == "" && HtmlBody([], PLAIN, nicks) == "";
    AllMarked();
    assert "*`/_~" + "" == "*`/_~";
    var html := WrapHtml(ALL, LinkifiedHtml(t, nicks));
    assert html + "" == html;
  }

  lemma AllMarked()
    ensures Markers(ALL, PLAIN) == "*`/_~"
  {
  }

  lemma NextMarked()
    ensures var b := PLAIN.(bold := true);
      var m := b.(monospace := true);
      var i := m.(italic := true);
      var u := i.(underlined := true);
      Markers(b, m) == "`" && Markers(m, i) == "/" && Markers(i, u) == "_" && Markers(u, ALL) == "~"
  {
  }

  lemma AllWrapped(html: string)
    ensures WrapHtml(ALL, html)
      == "<strike>" + ("<u>" + ("<i>" + ("<code>" + ("<b>" + html + "</b>") + "</code>") + "</i>")
           + "</u>") + "</strike>"
  {
    hide InTag;
    InTags("b", html);
    var b := "<b>" + html + "</b>";
    InTags("code", b);
    var c := "<code>" + b + "</code>";
    InTags("i", c);
    var i := "<i>" + c + "</i>";
    InTags("u", i);
    InTags("strike", "<u>" + i + "</u>");
    assert "<" + "b" + ">" == "<b>" && "</" + "b" + ">" == "</b>";
    assert "<" + "code" + ">" == "<code>" && "</" + "code" + ">" == "</code>";
    assert "<" + "i" + ">" == "<i>" && "</" + "i" + ">" == "</i>";
    assert "<" + "u" + ">" == "<u>" && "</" + "u" + ">" == "</u>";
    assert "<" + "strike" + ">" == "<strike>" && "</" + "strike" + ">" == "</strike>";
  }

  /** All five styles on: the markers in the order of the codes in front, in the fixed order behind, and the
      tags nested in the fixed order. */
  lemma AllStyles(t: string, nicks: seq<string>)
    requires NoCtrl(t) && t != ""
    ensures Convert("\U{02}\U{11}\U{1D}\U{1F}\U{1E}" + t, nicks)
      == Message("*`/_~" + t + "*`/_~", Some(
           "<strike>" + ("<u>" + ("<i>" + ("<code>" + ("<b>" + LinkifiedHtml(t, nicks) + "</b>") + "</code>") + "</i>")
             + "</u>") + "</strike>"))
  {
    hide LinkifiedHtml, NoCtrl, WrapHtml, Markers, Tokens, PlainBody, HtmlBody, ApplyCtrl;
    AllTokens(t);
    AllBodies(t, nicks);
    AllSteps(t, nicks);
    AllWrapped(LinkifiedHtml(t, nicks));
    var text := "\U{02}\U{11}\U{1D}\U{1F}\U{1E}" + t;
    PlainIsBody(text, nicks);
    NoTagInEscaped(Convert(text, nicks).plain);
    var html := WrapHtml(ALL, LinkifiedHtml(t, nicks));
    assert html[0] == '<';
  }

  lemma AllSteps(t: string, nicks: seq<string>)
    ensures var end := [Txt(t)] + [Ctrl([RESET])];
      var tokens := [Ctrl([BOLD])] + ([Ctrl([MONO])]
        + ([Ctrl([ITALIC])] + ([Ctrl([UNDERLINE])] + ([Ctrl([STRIKE])] + end))));
      && PlainBody(tokens, PLAIN) == "*`/_~" + t + "*`/_~"
      && HtmlBody(tokens, PLAIN, nicks) == HtmlBody(end, ALL, nicks)
  {
    hide LinkifiedHtml, WrapHtml, Markers, PlainBody, HtmlBody;
    MarkerOf();
    NextMarked();
    AllBodies(t, nicks);
    var b := PLAIN.(bold := true);
    var m := b.(monospace := true);
    var i := m.(italic := true);
    var u := i.(underlined := true);
    var end := [Txt(t)] + [Ctrl([RESET])];
    var s := [Ctrl([STRIKE])] + end;
    var us := [Ctrl([UNDERLINE])] + s;
    var ius := [Ctrl([ITALIC])] + us;
    ToggleBodies(STRIKE, ALL, end, u, nicks);
    ToggleBodies(UNDERLINE, u, s, i, nicks);
    ToggleBodies(ITALIC, i, us, m, nicks);
    ToggleBodies(MONO, m, ius, b, nicks);
    ToggleBodies(BOLD, b, [Ctrl([MONO])] + ius, PLAIN, nicks);
    assert "*" + ("`" + ("/" + ("_" + ("~" + (t + "*`/_~"))))) == "*`/_~" + t + "*`/_~";
  }

  // ---------- colours ----------

  /** A colour code in front of a text: the text alone in the plain body, and a font around the HTML. */
  lemma ColorMessage(code: string, st: Style, t: string, nicks: seq<string>)
    requires CanonCode(code) && NoCtrl(t) && t != "" && !Continues(code, t[0])
    requires ApplyCtrl(PLAIN, code) == st && st == PLAIN.(fg := st.fg, bg := st.bg) && st != PLAIN
    ensures Convert(code + t, nicks)
      == Message(t, Some("<font" + FontAttrs(st) + ">" + LinkifiedHtml(t, nicks) + "</font>"))
  {
    hide LinkifiedHtml, Markers, PlainBody, HtmlBody, NoCtrl, ApplyCtrl, CanonCode, Continues, Lex, CodeAt;
    var rest := t + [RESET];
    assert code + t + [RESET] == code + rest && rest[0] == t[0];
    CodeReads(code, rest);
    CtrlHead(code, rest);
    LexCode(code + rest);
    assert (code + rest)[|code|..] == rest;
    TextFirst(t, [RESET]);
    ResetLast();
    assert WithText(t, [Ctrl([RESET])]) == [Txt(t)] + [Ctrl([RESET])];
    ColorBodies(code, st, t, nicks);
    PlainIsBody(code + t, nicks);
    NoTagInEscaped(Convert(code + t, nicks).plain);
    var html := "<font" + FontAttrs(st) + ">" + LinkifiedHtml(t, nicks) + "</font>";
    assert html[0] == '<';
  }

  lemma CtrlHead(code: string, rest: string)
    requires CanonCode(code)
    ensures CtrlFirst(code + rest)
  {
  }

  lemma ColorBodies(code: string, st: Style, t: string, nicks: seq<string>)
    requires t != "" && ApplyCtrl(PLAIN, code) == st && st == PLAIN.(fg := st.fg, bg := st.bg) && st != PLAIN
    ensures var tokens := [Ctrl(code)] + ([Txt(t)] + [Ctrl([RESET])]);
      && PlainBody(tokens, PLAIN) == t
      && HtmlBody(tokens, PLAIN, nicks) == "<font" + FontAttrs(st) + ">" + LinkifiedHtml(t, nicks) + "</font>"
  {
    hide LinkifiedHtml, FontAttrs, ApplyCtrl, Markers, WrapHtml;
    var text := [Txt(t)] + [Ctrl([RESET])];
    var tokens := [Ctrl(code)] + text;
    assert tokens[1..] == text && text[1..] == [Ctrl([RESET])];
    ColorTag(st, LinkifiedHtml(t, nicks));
    ResetColors(st, nicks);
    var html := WrapHtml(st, LinkifiedHtml(t, nicks));
    assert html + "" == html && t + "" == t && "" + (t + "") == t;
  }

  lemma ColorTag(st: Style, html: string)
    requires st == PLAIN.(fg := st.fg, bg := st.bg) && st != PLAIN
    ensures WrapHtml(st, html) == "<font" + FontAttrs(st) + ">" + html + "</font>"
    ensures Markers(PLAIN, st) == ""
  {
    hide FontAttrs;
  }

  lemma ResetColors(st: Style, nicks: seq<string>)
    requires st == PLAIN.(fg := st.fg, bg := st.bg)
    ensures PlainBody([Ctrl([RESET])], st) == "" && HtmlBody([Ctrl([RESET])], st, nicks) == ""
  {
    assert [Ctrl([RESET])][1..] == [];
  }

  lemma HexText(f: string)
    requires IsColor(f)
    ensures HexColor(f) == Some("#" + f) && Free(Only(','), f)
  {
    HexBytes(f);
  }

  lemma {:induction false} HexBytes(f: string)
    requires AllHex(f)
    ensures ByteLen(f) == |f|
  {
    if f != "" {
      HexBytes(f[1..]);
    }
  }

  /** Code 04 with six digits: a foreground in those digits. */
  lemma HexForeground(f: string, t: string, nicks: seq<string>)
    requires IsColor(f) && NoCtrl(t) && t != "" && t[0] != ','
    ensures Convert("\U{04}" + f + t, nicks)
      == Message(t, Some("<font" + (" data-mx-color=\"#" + f + "\"") + ">" + LinkifiedHtml(t, nicks) + "</font>"))
  {
    hide LinkifiedHtml, NoCtrl, Convert, AllHex, FontAttr;
    var code := [HEXCOLOR] + f;
    assert code[1..] == f;
    HexText(f);
    FindSkip(Only(','), f, "");
    assert f + "" == f && f[..6] == f;
    NoColor();
    var st := PLAIN.(fg := Some("#" + f));
    ColorMessage(code, st, t, nicks);
    FontIs(f);
    var attr := " data-mx-color=\"#" + f + "\"";
    assert FontAttrs(st) == attr by {
      assert attr + "" == attr;
    }
    assert code == "\U{04}" + f;
  }

  lemma NoColor()
    ensures HexColor("") == None && PaletteColor("") == None
  {
  }

  /** Code 04 with two colours: a foreground and a background. */
  lemma HexBoth(f: string, b: string, t: string, nicks: seq<string>)
    requires IsColor(f) && IsColor(b) && NoCtrl(t) && t != ""
    ensures Convert("\U{04}" + f + "," + b + t, nicks)
      == Message(t, Some("<font" + ((" data-mx-color=\"#" + f + "\"") + (" data-mx-bg-color=\"#" + b + "\"")) + ">"
           + LinkifiedHtml(t, nicks) + "</font>"))
  {
    hide LinkifiedHtml, NoCtrl, Convert, AllHex, FontAttr;
    var spec := f + ([','] + b);
    var code := [HEXCOLOR] + spec;
    assert code[1..] == spec && code == "\U{04}" + f + "," + b;
    HexText(f);
    HexText(b);
    FindAt(Only(','), f, ',', b);
    assert spec[..6] == f && spec[7..] == b;
    var st := PLAIN.(fg := Some("#" + f), bg := Some("#" + b));
    ColorMessage(code, st, t, nicks);
    FontIs(f);
    GroundIs(b);
  }

  lemma FontIs(f: string)
    ensures FontAttr("data-mx-color", Some("#" + f)) == " data-mx-color=\"#" + f + "\""
    ensures FontAttr("data-mx-bg-color", None) == ""
  {
    hide FontAttr;
    AttrText("data-mx-color", f);
    assert " " + "data-mx-color" + "=\"#" == " data-mx-color=\"#";
    NoAttr();
  }

  lemma GroundIs(b: string)
    ensures FontAttr("data-mx-bg-color", Some("#" + b)) == " data-mx-bg-color=\"#" + b + "\""
  {
    hide FontAttr;
    AttrText("data-mx-bg-color", b);
    assert " " + "data-mx-bg-color" + "=\"#" == " data-mx-bg-color=\"#";
  }

  lemma NoAttr()
    ensures FontAttr("data-mx-bg-color", None) == ""
  {
  }

  // ---------- palette colours ----------

  function TwoDigit(n: nat): (d: string)
    requires n < 100
    ensures |d| == 2
  {
    [DigitChar(n / 10), DigitChar(n % 10)]
  }

  lemma PaletteText(n: nat)
    requires n <= 98
    ensures var d := TwoDigit(n);
      PaletteColor(d) == Color2Hex(n) && AllDigits(d) && Free(Only(','), d)
  {
    hide Color2Hex, Digits;
    ReadTwo(n / 10, n % 10);
  }

  lemma ReadTwo(a: nat, b: nat)
    requires a < 10 && b < 10
    ensures Digits([DigitChar(a), DigitChar(b)], 10) == Some(10 * a + b)
  {
    var d := [DigitChar(a), DigitChar(b)];
    assert d[..1] == [DigitChar(a)] && d[..1][..0] == [];
    assert Digits([], 10) == Some(0);
    assert Digits([DigitChar(a)], 10) == Some(a);
  }

  /** Code 03 with a two-digit number is that entry of the palette in front of the text, and with a second
      number behind a comma that entry is the background. */
  lemma PaletteForeground(n: nat, t: string, nicks: seq<string>)
    requires n <= 98 && NoCtrl(t) && t != "" && t[0] != ','
    ensures Convert("\U{03}" + TwoDigit(n) + t, nicks)
      == Message(t, Some("<font" + FontAttrs(PLAIN.(fg := Color2Hex(n))) + ">" + LinkifiedHtml(t, nicks) + "</font>"))
  {
    hide LinkifiedHtml, NoCtrl, Convert, FontAttrs, Color2Hex, PaletteColor, TwoDigit;
    var f := TwoDigit(n);
    PaletteText(n);
    PaletteReadsBack(n);
    var code := [COLOR] + f;
    assert code[1..] == f && |f| == 2;
    FindSkip(Only(','), f, "");
    assert f + "" == f && f[..2] == f;
    ColorMessage(code, PLAIN.(fg := Color2Hex(n)), t, nicks);
    assert code == "\U{03}" + f;
  }

  lemma PaletteBoth(n: nat, m: nat, t: string, nicks: seq<string>)
    requires n <= 98 && m <= 98 && NoCtrl(t) && t != ""
    ensures var st := PLAIN.(fg := Color2Hex(n), bg := Color2Hex(m));
      Convert("\U{03}" + TwoDigit(n) + "," + TwoDigit(m) + t, nicks)
        == Message(t, Some("<font" + FontAttrs(st) + ">" + LinkifiedHtml(t, nicks) + "</font>"))
  {
    hide LinkifiedHtml, NoCtrl, Convert, FontAttrs, Color2Hex, PaletteColor, TwoDigit;
    var f, b := TwoDigit(n), TwoDigit(m);
    PaletteText(n);
    PaletteText(m);
    PaletteReadsBack(n);
    var spec := f + ([','] + b);
    var code := [COLOR] + spec;
    assert code[1..] == spec && code == "\U{03}" + f + "," + b;
    assert |f| == 2 && |b| == 2;
    FindAt(Only(','), f, ',', b);
    assert spec[..2] == f && spec[3..] == b;
    ColorMessage(code, PLAIN.(fg := Color2Hex(n), bg := Color2Hex(m)), t, nicks);
  }

  /** A one-digit number is read as the two-digit one with a zero in front. */
  lemma OneDigit(d: char, t: string, nicks: seq<string>)
    requires IsDigit(d) && t != "" && !IsDigit(t[0]) && t[0] != ','
    ensures Convert("\U{03}" + [d] + t, nicks) == Convert("\U{03}0" + [d] + t, nicks)
  {
    hide Lex, PlainBody, HtmlBody, CodeAt, DecimalSpec, Leading;
    var rest := t + [RESET];
    var short, long := "\U{03}" + [d] + t + [RESET], "\U{03}0" + [d] + t + [RESET];
    assert short[1..] == [d] + rest && long[1..] == ['0', d] + rest && rest[0] == t[0];
    NumberReads(d, rest);
    CodeOf(short);
    CodeOf(long);
    assert short[2..] == rest && long[3..] == rest;
    LexCode(short);
    LexCode(long);
  }

  lemma NumberReads(d: char, rest: string)
    requires IsDigit(d) && rest != "" && !IsDigit(rest[0]) && rest[0] != ','
    ensures DecimalSpec([d] + rest) == (['0', d], 1) && DecimalSpec(['0', d] + rest) == (['0', d], 2)
  {
    hide Leading;
    LeadingExact(false, [d], rest, 2);
    LeadingFull(false, ['0', d], rest, 2);
    assert ([d] + rest)[..1] == [d] && "0" + [d] == ['0', d];
  }

  lemma CodeOf(s: string)
    requires s != "" && s[0] == COLOR
    ensures CtrlFirst(s) && CodeAt(s) == ([COLOR] + DecimalSpec(s[1..]).0, 1 + DecimalSpec(s[1..]).1)
  {
  }
}
