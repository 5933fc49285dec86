/** The plain body that accompanies the HTML, and when the HTML is dropped. */
module PlainBodyLaw {
  import opened Strings
  import opened Entities
  import opened IrcCodes
  import opened IrcCanon
  import opened IrcToHtml
  import opened IrcToHtmlLaw
  import opened Links

  /** The visible characters of a meaning. */
  function Chars(cells: seq<Cell>): (s: string)
    ensures |s| == |cells| && forall i | 0 <= i < |cells| :: s[i] == cells[i].ch
  {
    seq(|cells|, i requires 0 <= i < |cells| => cells[i].ch)
  }

  /** All the markers `irc_to_matrix` puts into the plain body, in order. */
  function AllMarkers(tokens: seq<Token>, st: Style): string {
    if tokens == [] then ""
    else
      match tokens[0]
      case Txt(_) => AllMarkers(tokens[1..], st)
      case Ctrl(c) => Markers(st, ApplyCtrl(st, c)) + AllMarkers(tokens[1..], ApplyCtrl(st, c))
  }

  // ---------- markers come in pairs ----------

  /** The markers, and the style each stands for. */
  datatype Sign = Star | Tick | Slash | Bar | Tilde

  function SignChar(s: Sign): char {
    match s
    case Star => '*'
    case Tick => '`'
    case Slash => '/'
    case Bar => '_'
    case Tilde => '~'
  }

  predicate Shows(s: Sign, st: Style) {
    match s
    case Star => st.bold
    case Tick => st.monospace
    case Slash => st.italic
    case Bar => st.underlined
    case Tilde => st.strike
  }

  function Occurrences(c: char, s: string): nat {
    if s == "" then 0 else (if s[0] == c then 1 else 0) + Occurrences(c, s[1..])
  }

  lemma {:induction false} OccurrencesConcat(c: char, a: string, b: string)
    ensures Occurrences(c, a + b) == Occurrences(c, a) + Occurrences(c, b)
  {
    if a == "" {
      assert a + b == b;
    } else {
      assert (a + b)[1..] == a[1..] + b;
      OccurrencesConcat(c, a[1..], b);
    }
  }

  lemma OccurrencesOne(c: char, d: char)
    ensures Occurrences(c, [d]) == (if c == d then 1 else 0) && Occurrences(c, "") == 0
  {
    assert Occurrences(c, [d][1..]) == 0;
  }

  function MarkIf(on: bool, c: char): string { if on then [c] else "" }

  /** One code writes the marker of a style exactly when it flips that style. */
  lemma MarkersCount(s: Sign, prev: Style, next: Style)
    ensures Occurrences(SignChar(s), Markers(prev, next)) == if Shows(s, prev) != Shows(s, next) then 1 else 0
  {
    hide Occurrences;
    var c := SignChar(s);
    var a := MarkIf(prev.bold != next.bold, '*');
    var b := MarkIf(prev.monospace != next.monospace, '`');
    var d := MarkIf(prev.italic != next.italic, '/');
    var e := MarkIf(prev.underlined != next.underlined, '_');
    var f := MarkIf(prev.strike != next.strike, '~');
    assert Markers(prev, next) == a + b + d + e + f;
    OccurrencesConcat(c, a + b + d + e, f);
    OccurrencesConcat(c, a + b + d, e);
    OccurrencesConcat(c, a + b, d);
    OccurrencesConcat(c, a, b);
    OccurrencesOne(c, '*');
    OccurrencesOne(c, '`');
    OccurrencesOne(c, '/');
    OccurrencesOne(c, '_');
    OccurrencesOne(c, '~');
  }

  lemma {:induction false} MarkerParity(s: Sign, tokens: seq<Token>, st: Style)
    ensures Occurrences(SignChar(s), AllMarkers(tokens, st)) % 2 == 0
      <==> Shows(s, st) == Shows(s, EndStyle(tokens, st))
  {
    hide ApplyCtrl, Markers, Shows, SignChar;
    if tokens != [] {
      match tokens[0]
      case Txt(_) => MarkerParity(s, tokens[1..], st);
      case Ctrl(c) =>
        var next := ApplyCtrl(st, c);
        MarkerParity(s, tokens[1..], next);
        MarkersCount(s, st, next);
        OccurrencesConcat(SignChar(s), Markers(st, next), AllMarkers(tokens[1..], next));
    }
  }

  /** The appended reset closes every marker: each kind is written an even number of times. */
  lemma MarkersComeInPairs(s: Sign, text: string)
    ensures Occurrences(SignChar(s), AllMarkers(Tokens(text), PLAIN)) % 2 == 0
  {
    hide AllMarkers, Tokens, Occurrences;
    ResetAppended(text);
    MarkerParity(s, Tokens(text), PLAIN);
  }

  // ---------- what the plain body holds ----------

  lemma CharsConcat(a: seq<Cell>, b: seq<Cell>)
    ensures Chars(a + b) == Chars(a) + Chars(b)
  {
  }

  lemma CharsStyled(t: string, st: Style)
    ensures Chars(Styled(t, st)) == t
  {
  }

  /** As long as its visible text and its markers together, so equal to the text when there are
      no markers, and only then. */
  lemma {:induction false} PlainBodyShape(tokens: seq<Token>, st: Style)
    ensures |PlainBody(tokens, st)| == |Interp(tokens, st)| + |AllMarkers(tokens, st)|
    ensures PlainBody(tokens, st) == Chars(Interp(tokens, st)) <==> AllMarkers(tokens, st) == ""
  {
    hide ApplyCtrl, Markers;
    if tokens != [] {
      match tokens[0]
      case Txt(t) =>
        PlainBodyShape(tokens[1..], st);
        var rest := Interp(tokens[1..], st);
        CharsStyled(t, st);
        CharsConcat(Styled(t, st), rest);
        assert t + PlainBody(tokens[1..], st) == t + Chars(rest) ==> PlainBody(tokens[1..], st) == Chars(rest) by {
          if t + PlainBody(tokens[1..], st) == t + Chars(rest) {
            assert (t + PlainBody(tokens[1..], st))[|t|..] == (t + Chars(rest))[|t|..];
          }
        }
      case Ctrl(c) =>
        var next := ApplyCtrl(st, c);
        PlainBodyShape(tokens[1..], next);
        if Markers(st, next) == "" {
          assert "" + PlainBody(tokens[1..], next) == PlainBody(tokens[1..], next);
        }
    }
  }

  // ---------- where the markers stand ----------

  /** The body of a run of tokens is the bodies of its parts, each from the style it starts in. */
  lemma {:induction false} PlainBodyConcat(a: seq<Token>, b: seq<Token>, st: Style)
    ensures PlainBody(a + b, st) == PlainBody(a, st) + PlainBody(b, EndStyle(a, st))
  {
    hide ApplyCtrl, Markers;
    if a == [] {
      assert a + b == b;
    } else {
      assert (a + b)[1..] == a[1..] + b;
      match a[0]
      case Txt(t) =>
        PlainBodyConcat(a[1..], b, st);
        Assoc(t, PlainBody(a[1..], st), PlainBody(b, EndStyle(a, st)));
      case Ctrl(c) =>
        var next := ApplyCtrl(st, c);
        PlainBodyConcat(a[1..], b, next);
        Assoc(Markers(st, next), PlainBody(a[1..], next), PlainBody(b, EndStyle(a, st)));
    }
  }

  /** How often the codes of a run flip a style. */
  function Flips(s: Sign, tokens: seq<Token>, st: Style): nat {
    if tokens == [] then 0
    else
      match tokens[0]
      case Txt(_) => Flips(s, tokens[1..], st)
      case Ctrl(c) =>
        var next := ApplyCtrl(st, c);
        (if Shows(s, st) != Shows(s, next) then 1 else 0) + Flips(s, tokens[1..], next)
  }

  lemma MarkersOther(c: char, prev: Style, next: Style)
    requires c !in {'*', '`', '/', '_', '~'}
    ensures Occurrences(c, Markers(prev, next)) == 0
  {
    NotThere(c, Markers(prev, next));
  }

  lemma {:induction false} NotThere(c: char, s: string)
    requires c !in s
    ensures Occurrences(c, s) == 0
  {
    if s != "" {
      NotThere(c, s[1..]);
    }
  }

  /** The body has each sign as often as the visible text has it and once more for each flip of its style,
      and any other character as often as the visible text has it. */
  lemma {:induction false} SignsOfRun(s: Sign, c: char, tokens: seq<Token>, st: Style)
    requires c !in {'*', '`', '/', '_', '~'}
    ensures var body, text := PlainBody(tokens, st), Chars(Interp(tokens, st));
      && Occurrences(SignChar(s), body) == Occurrences(SignChar(s), text) + Flips(s, tokens, st)
      && Occurrences(c, body) == Occurrences(c, text)
  {
    hide ApplyCtrl, Markers, Shows, SignChar, Occurrences, Chars, Styled;
    if tokens == [] {
      NothingOccurs(SignChar(s));
      NothingOccurs(c);
    } else {
      match tokens[0]
      case Txt(t) =>
        SignsOfRun(s, c, tokens[1..], st);
        var body, rest := PlainBody(tokens[1..], st), Interp(tokens[1..], st);
        CharsStyled(t, st);
        CharsConcat(Styled(t, st), rest);
        OccurrencesConcat(SignChar(s), t, body);
        OccurrencesConcat(SignChar(s), t, Chars(rest));
        OccurrencesConcat(c, t, body);
        OccurrencesConcat(c, t, Chars(rest));
      case Ctrl(code) =>
        var next := ApplyCtrl(st, code);
        SignsOfRun(s, c, tokens[1..], next);
        MarkersCount(s, st, next);
        MarkersOther(c, st, next);
        OccurrencesConcat(SignChar(s), Markers(st, next), PlainBody(tokens[1..], next));
        OccurrencesConcat(c, Markers(st, next), PlainBody(tokens[1..], next));
    }
  }

  lemma NothingOccurs(c: char)
    ensures Occurrences(c, "") == 0 && Chars([]) == ""
  {
  }

  lemma {:induction false} FlipsParity(s: Sign, tokens: seq<Token>, st: Style)
    ensures Flips(s, tokens, st) % 2 == 0 <==> Shows(s, st) == Shows(s, EndStyle(tokens, st))
  {
    hide ApplyCtrl, Shows;
    if tokens != [] {
      FlipsParity(s, tokens[1..], if tokens[0].Ctrl? then ApplyCtrl(st, tokens[0].code) else st);
    }
  }

  /** The plain body of a message has each sign an even number of times more than its visible text, once for
      each flip, and differs from it in nothing else. */
  lemma SignsOfBody(s: Sign, c: char, text: string, nicks: seq<string>)
    requires c !in {'*', '`', '/', '_', '~'}
    ensures var body, visible := Convert(text, nicks).plain, Chars(Meaning(text));
      && Occurrences(SignChar(s), body) == Occurrences(SignChar(s), visible) + Flips(s, Tokens(text), PLAIN)
      && Flips(s, Tokens(text), PLAIN) % 2 == 0
      && Occurrences(c, body) == Occurrences(c, visible)
  {
    hide PlainBody, Tokens, Occurrences, Flips, Convert, Interp, Meaning, Chars;
    ResetAppended(text);
    PlainIsBody(text, nicks);
    SignsOfRun(s, c, Tokens(text), PLAIN);
    FlipsParity(s, Tokens(text), PLAIN);
  }

  lemma MarkersNoReset(prev: Style, next: Style)
    ensures Free(Only(RESET), Markers(prev, next))
  {
  }

  lemma {:induction false} PlainBodyNoReset(tokens: seq<Token>, st: Style)
    requires CanonTokens(tokens)
    ensures Free(Only(RESET), PlainBody(tokens, st))
  {
    hide ApplyCtrl, Markers, CanonCode;
    if tokens != [] {
      match tokens[0]
      case Txt(t) =>
        PlainBodyNoReset(tokens[1..], st);
        FreeConcat(Only(RESET), t, PlainBody(tokens[1..], st));
      case Ctrl(c) =>
        var next := ApplyCtrl(st, c);
        PlainBodyNoReset(tokens[1..], next);
        MarkersNoReset(st, next);
        FreeConcat(Only(RESET), Markers(st, next), PlainBody(tokens[1..], next));
    }
  }

  /** There is no reset left to trim. */
  lemma PlainIsBody(text: string, nicks: seq<string>)
    ensures Convert(text, nicks).plain == PlainBody(Tokens(text), PLAIN)
  {
    hide PlainBody, Tokens, HtmlBody, CanonTokens;
    var body := PlainBody(Tokens(text), PLAIN);
    ResetAppended(text);
    PlainBodyNoReset(Tokens(text), PLAIN);
    TrimEndIdle(Only(RESET), body);
  }

  // ---------- when the HTML is dropped ----------

  /** A text that needs no tag: unstyled, on one line. */
  predicate Bare(cells: seq<Cell>) {
    forall i | 0 <= i < |cells| :: cells[i].style == PLAIN && cells[i].ch != '\n'
  }

  lemma BareConcat(a: seq<Cell>, b: seq<Cell>)
    ensures Bare(a + b) <==> Bare(a) && Bare(b)
  {
    assert forall i | 0 <= i < |a| :: (a + b)[i] == a[i];
    assert forall i | 0 <= i < |b| :: (a + b)[|a| + i] == b[i];
  }

  lemma BareStyled(t: string, st: Style)
    requires t != ""
    ensures Bare(Styled(t, st)) <==> st == PLAIN && Free(Only('\n'), t)
  {
    assert Styled(t, st)[0] == Cell(t[0], st);
    assert forall i | 0 <= i < |t| :: Styled(t, st)[i] == Cell(t[i], st);
  }

  lemma WrapShows(st: Style, html: string)
    ensures st == PLAIN ==> WrapHtml(st, html) == html
    ensures st != PLAIN || !Free(Only('<'), html) ==> !Free(Only('<'), WrapHtml(st, html))
  {
    hide Free, InTag;
    var b := InTag(st.bold, "b", html);
    TagShows(st.bold, "b", html);
    var m := InTag(st.monospace, "code", b);
    TagShows(st.monospace, "code", b);
    var i := InTag(st.italic, "i", m);
    TagShows(st.italic, "i", m);
    var u := InTag(st.underlined, "u", i);
    TagShows(st.underlined, "u", i);
    TagShows(st.strike, "strike", u);
    var k := InTag(st.strike, "strike", u);
    FontShows(FontAttrs(st), k);
  }

  lemma TagShows(on: bool, tag: string, html: string)
    ensures !on ==> InTag(on, tag, html) == html
    ensures on ==> !Free(Only('<'), InTag(on, tag, html))
  {
    if on {
      assert InTag(on, tag, html)[0] == '<';
    }
  }

  lemma FontShows(attrs: string, html: string)
    ensures !Free(Only('<'), "<font" + attrs + ">" + html + "</font>")
  {
    assert ("<font" + attrs + ">" + html + "</font>")[0] == '<';
  }

  lemma LinesShow(t: string)
    ensures Free(Only('\n'), t) ==> BreakHtml(t) == Escape(t)
    ensures !Free(Only('\n'), t) ==> !Free(Only('<'), BreakHtml(t))
  {
    hide LinesHtml;
    var lines := Split(t, '\n');
    if Free(Only('\n'), t) {
      SplitOne(t, '\n');
      OneLine(t);
      EscapeIsMap(t);
    } else {
      FindFirst(Only('\n'), t);
      assert t[..|t|] == t;
      BreakShows(lines);
    }
  }

  lemma OneLine(t: string)
    ensures LinesHtml([t]) == EscapeHtml(t)
  {
  }

  lemma BreakShows(lines: seq<string>)
    requires |lines| > 1
    ensures !Free(Only('<'), LinesHtml(lines))
  {
    hide EscapeHtml;
    assert LinesHtml(lines)[|EscapeHtml(lines[0])|] == '<';
  }

  /** Bare text is its own escaped HTML; anything else shows a tag. */
  lemma {:induction false} HtmlBodyShows(tokens: seq<Token>, st: Style)
    requires CanonTokens(tokens)
    ensures Bare(Interp(tokens, st)) ==> LinklessBody(tokens, st) == Escape(Chars(Interp(tokens, st)))
    ensures !Bare(Interp(tokens, st)) ==> !Free(Only('<'), LinklessBody(tokens, st))
  {
    hide ApplyCtrl, CanonCode, WrapHtml, BreakHtml, Bare, Free, Styled, IsCtrl;
    if tokens == [] {
      EmptyIsBare();
    } else {
      match tokens[0]
      case Ctrl(c) => HtmlBodyShows(tokens[1..], ApplyCtrl(st, c));
      case Txt(t) =>
        HtmlBodyShows(tokens[1..], st);
        var cells, rest := Styled(t, st), Interp(tokens[1..], st);
        BareConcat(cells, rest);
        BareStyled(t, st);
        LinesShow(t);
        WrapShows(st, BreakHtml(t));
        CharsStyled(t, st);
        CharsConcat(cells, rest);
        EscapeConcat(t, Chars(rest));
        FreeConcat(Only('<'), WrapHtml(st, BreakHtml(t)), LinklessBody(tokens[1..], st));
    }
  }

  lemma EmptyIsBare()
    ensures Bare([]) && Chars([]) == "" && Escape("") == ""
  {
  }

  /** The HTML body of a link-free text is dropped exactly when every visible character is unstyled, there is no line
      break, and no code ever flips a style; the plain body is then exactly the visible text. */
  lemma HtmlDroppedIff(text: string)
    requires LinkFree(text)
    ensures Convert(text, []).html.None? <==> Bare(Meaning(text)) && AllMarkers(Tokens(text), PLAIN) == ""
    ensures Convert(text, []).html.None? ==> Convert(text, []).plain == Chars(Meaning(text))
  {
    hide Tokens, HtmlBody, LinklessBody, PlainBody, AllMarkers, Meaning, Interp, CanonTokens, Escape, EscapeHtml,
      Bare, Chars, LinkFree;
    var tokens := Tokens(text);
    ResetAppended(text);
    PlainIsBody(text, []);
    LinkFreeMessage(text);
    HtmlBodyShows(tokens, PLAIN);
    PlainBodyShape(tokens, PLAIN);
    var plain := PlainBody(tokens, PLAIN);
    EscapeIsMap(plain);
    if Bare(Meaning(text)) {
      if Escape(plain) == Escape(Chars(Meaning(text))) {
        DecodeEscape(plain);
        DecodeEscape(Chars(Meaning(text)));
      }
    }
  }
}
