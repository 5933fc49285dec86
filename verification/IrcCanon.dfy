/** Canonical tokens: printing and tokenizing undo each other, and what is lost when they do not. */
module IrcCanon {
  import opened Strings
  import opened IrcCodes

  // ---------- canonical tokens ----------

  /** `CC`, `CC,` or `CC,CC`, or nothing: the normal forms after `\x03`. */
  predicate CanonDecimal(spec: string) {
    spec == "" || (
      && |spec| in {2, 3, 5} && AllDigits(spec[..2])
      && (|spec| > 2 ==> spec[2] == ',' && AllDigits(spec[3..])))
  }

  /** `RRGGBB` or `RRGGBB,RRGGBB`, or nothing: the normal forms after `\x04`. */
  predicate CanonHex(spec: string) {
    spec == "" || (
      && |spec| in {6, 13} && AllHex(spec[..6])
      && (|spec| > 6 ==> spec[6] == ',' && AllHex(spec[7..])))
  }

  predicate CanonCode(code: string) {
    && code != "" && IsCtrl(code[0])
    && (code[0] == COLOR ==> CanonDecimal(code[1..]))
    && (code[0] == HEXCOLOR ==> CanonHex(code[1..]))
    && (IsToggle(code[0]) ==> |code| == 1)
  }

  /** Would the tokenizer read this character as part of the code it follows? */
  predicate Continues(code: string, next: char)
    requires code != ""
  {
    if code[0] == COLOR then
      if |code| == 3 then next == ',' else |code| in {1, 4} && IsDigit(next)
    else if code[0] == HEXCOLOR then
      if |code| == 7 then next == ',' else |code| == 1 && IsHex(next)
    else false
  }

  predicate CanonTokens(tokens: seq<Token>) {
    tokens == [] || (
      && CanonTokens(tokens[1..])
      && (tokens[0].Txt? ==> tokens[0].text != "" && NoCtrl(tokens[0].text) && (|tokens| > 1 ==> tokens[1].Ctrl?))
      && (tokens[0].Ctrl? ==> CanonCode(tokens[0].code)))
  }

  lemma CodeHead(code: string)
    requires CanonCode(code)
    ensures code != "" && IsCtrl(code[0])
  {
  }

  /** A code that is followed by text the tokenizer would read into it. */
  predicate Sticky(tokens: seq<Token>, i: nat)
    requires i < |tokens|
  {
    && i + 1 < |tokens| && tokens[i].Ctrl? && tokens[i + 1].Txt?
    && tokens[i].code != "" && tokens[i + 1].text != "" && Continues(tokens[i].code, tokens[i + 1].text[0])
  }

  predicate Clean(tokens: seq<Token>) {
    forall i | 0 <= i < |tokens| :: !Sticky(tokens, i)
  }

  function PrintTokens(tokens: seq<Token>): string {
    if tokens == [] then ""
    else (if tokens[0].Txt? then tokens[0].text else tokens[0].code) + PrintTokens(tokens[1..])
  }

  lemma TwoDigitsShape(s: string)
    requires 1 <= |s| <= 2 && AllDigits(s)
    ensures |TwoDigits(s)| == 2 && AllDigits(TwoDigits(s))
  {
  }

  lemma DecimalIsCanon(s: string)
    ensures CanonDecimal(DecimalSpec(s).0)
  {
    var n := Leading(false, s, 2);
    if n > 0 {
      TwoDigitsShape(s[..n]);
      var spec := DecimalSpec(s).0;
      assert spec[..2] == TwoDigits(s[..n]);
      if n < |s| && s[n] == ',' {
        var m := Leading(false, s[n + 1..], 2);
        var bg := s[n + 1..n + 1 + m];
        assert bg == s[n + 1..][..m];
        if m > 0 {
          TwoDigitsShape(bg);
        }
        assert spec[3..] == TwoDigits(bg);
      }
    }
  }

  lemma HexIsCanon(s: string)
    ensures CanonHex(HexSpec(s).0)
  {
    var n := Leading(true, s, 6);
    if n == 6 {
      var spec := HexSpec(s).0;
      assert spec[..6] == s[..6];
      if |spec| > 6 {
        assert spec[7..] == s[7..][..6];
      }
    }
  }

  /** The tokenizer only makes codes in normal form. */
  lemma CodeIsCanon(s: string)
    requires s != "" && IsCtrl(s[0])
    ensures CanonCode(CodeAt(s).0)
  {
    hide DecimalSpec, HexSpec, CanonDecimal, CanonHex;
    var code := CodeAt(s).0;
    DecimalIsCanon(s[1..]);
    HexIsCanon(s[1..]);
    assert code == [s[0]] + code[1..];
    if s[0] == COLOR {
      assert code[1..] == DecimalSpec(s[1..]).0;
    } else if s[0] == HEXCOLOR {
      assert code[1..] == HexSpec(s[1..]).0;
    }
  }

  lemma {:induction false} LeadingExact(hex: bool, a: string, b: string, max: nat)
    requires if hex then AllHex(a) else AllDigits(a)
    requires |a| <= max
    requires |a| == max || b == "" || !(if hex then IsHex(b[0]) else IsDigit(b[0]))
    ensures Leading(hex, a + b, max) == |a|
  {
    if a == "" {
      assert a + b == b;
    } else {
      assert (a + b)[1..] == a[1..] + b;
      LeadingExact(hex, a[1..], b, max - 1);
    }
  }

  lemma LeadingFull(hex: bool, a: string, b: string, max: nat)
    requires |a| == max && if hex then AllHex(a) else AllDigits(a)
    ensures var s := a + b; Leading(hex, s, max) == max && s[..max] == a && s[max..] == b
  {
    LeadingExact(hex, a, b, max);
  }

  lemma DecimalReadsBoth(fg: string, bg: string, rest: string)
    requires |fg| == 2 && AllDigits(fg) && |bg| in {0, 2} && AllDigits(bg)
    requires |bg| == 2 || rest == "" || !IsDigit(rest[0])
    ensures DecimalSpec(fg + ("," + (bg + rest))) == (fg + "," + bg, 3 + |bg|)
  {
    hide Leading;
    var tail := bg + rest;
    var s := fg + ("," + tail);
    LeadingFull(false, fg, "," + tail, 2);
    assert s[3..] == tail;
    LeadingExact(false, bg, rest, 2);
    assert s[3..3 + |bg|] == bg;
  }

  lemma DecimalReads(spec: string, rest: string)
    requires CanonDecimal(spec)
    requires rest == "" || !Continues([COLOR] + spec, rest[0])
    ensures DecimalSpec(spec + rest) == (spec, |spec|)
  {
    hide Leading;
    if |spec| > 2 {
      var fg, bg := spec[..2], spec[3..];
      DecimalReadsBoth(fg, bg, rest);
      assert spec + rest == fg + ("," + (bg + rest)) && spec == fg + "," + bg;
    } else if spec == "" {
      assert "" + rest == rest;
      LeadingExact(false, "", rest, 2);
    } else {
      assert spec[..2] == spec;
      LeadingFull(false, spec, rest, 2);
    }
  }

  lemma HexReads(spec: string, rest: string)
    requires CanonHex(spec)
    requires rest == "" || !Continues([HEXCOLOR] + spec, rest[0])
    ensures HexSpec(spec + rest) == (spec, |spec|)
  {
    var s := spec + rest;
    if spec == "" {
      assert s == rest;
      LeadingExact(true, "", rest, 6);
    } else {
      var fg, more := spec[..6], spec[6..] + rest;
      assert s == fg + more;
      LeadingExact(true, fg, more, 6);
      assert s[..6] == fg;
      if |spec| > 6 {
        var bg := spec[7..];
        assert s[7..] == bg + rest;
        LeadingExact(true, bg, rest, 6);
        assert s[7..13] == bg;
        assert spec == fg + "," + bg;
      }
    }
  }

  /** A code in normal form is read back as itself, unless the next character continues it. */
  lemma CodeReads(code: string, rest: string)
    requires CanonCode(code)
    requires rest == "" || !Continues(code, rest[0])
    ensures CodeAt(code + rest) == (code, |code|)
  {
    hide DecimalSpec, HexSpec, CanonDecimal, CanonHex;
    var spec := code[1..];
    var s := code + rest;
    assert s[1..] == spec + rest && code == [code[0]] + spec;
    if code[0] == COLOR {
      DecimalReads(spec, rest);
    } else if code[0] == HEXCOLOR {
      HexReads(spec, rest);
    } else {
      assert code == [code[0]];
    }
  }

  lemma {:induction false} TextFirst(t: string, rest: string)
    requires NoCtrl(t)
    ensures Lex(t + rest) == WithText(t, Lex(rest))
  {
    if t == "" {
      assert t + rest == rest;
      WithNoText(Lex(rest));
    } else {
      assert (t + rest)[1..] == t[1..] + rest && !IsCtrl(t[0]);
      TextFirst(t[1..], rest);
      WithTextTwice([t[0]], t[1..], Lex(rest));
      assert [t[0]] + t[1..] == t;
    }
  }

  lemma CanonCons(head: Token, tail: seq<Token>)
    requires CanonTokens(tail)
    requires head.Ctrl? ==> CanonCode(head.code)
    requires head.Txt? ==> head.text != "" && NoCtrl(head.text) && (tail != [] ==> tail[0].Ctrl?)
    ensures CanonTokens([head] + tail)
  {
    assert ([head] + tail)[1..] == tail;
  }

  /** What the tokenizer makes is canonical: texts are non-empty, free of control characters and
      never adjacent, and every code is in normal form. */
  lemma {:induction false} LexIsCanon(s: string)
    ensures CanonTokens(Lex(s))
    decreases |s|
  {
    hide CodeAt, CanonCode;
    if s != "" {
      if IsCtrl(s[0]) {
        CodeIsCanon(s);
        LexIsCanon(s[CodeAt(s).1..]);
        CanonCons(Ctrl(CodeAt(s).0), Lex(s[CodeAt(s).1..]));
      } else {
        LexIsCanon(s[1..]);
        var tail := Lex(s[1..]);
        if tail != [] && tail[0].Txt? {
          CanonCons(Txt([s[0]] + tail[0].text), tail[1..]);
        } else {
          CanonCons(Txt([s[0]]), tail);
        }
      }
    }
  }

  lemma CodeFirst(code: string, rest: string)
    requires CanonCode(code)
    requires rest == "" || !Continues(code, rest[0])
    ensures Lex(code + rest) == [Ctrl(code)] + Lex(rest)
  {
    hide CodeAt, Continues, CanonDecimal, CanonHex;
    CodeReads(code, rest);
    assert (code + rest)[|code|..] == rest;
    assert (code + rest)[0] == code[0];
  }

  predicate CtrlFirst(s: string) { s != "" && IsCtrl(s[0]) }

  /** A control character never continues a code. */
  lemma CtrlEndsCode(code: string, c: char)
    requires code != "" && IsCtrl(c)
    ensures !Continues(code, c)
  {
  }

  /** Printing canonical tokens and tokenizing the result gives the tokens back, as long as no
      code runs into the text behind it. */
  lemma {:induction false} LexPrint(tokens: seq<Token>)
    requires CanonTokens(tokens) && Clean(tokens)
    ensures Lex(PrintTokens(tokens)) == tokens
  {
    hide Lex, CanonCode, Continues;
    if tokens == [] {
      LexNone();
    } else {
      var rest := tokens[1..];
      assert forall i | 0 <= i < |rest| :: Sticky(rest, i) ==> Sticky(tokens, i + 1);
      LexPrint(rest);
      var p := PrintTokens(rest);
      match tokens[0]
      case Txt(t) =>
        TextFirst(t, p);
        assert tokens == [Txt(t)] + rest;
      case Ctrl(c) =>
        PrintStarts(rest);
        CodeHead(c);
        if rest != [] && rest[0].Txt? {
          assert !Sticky(tokens, 0);
        } else if rest != [] {
          CtrlEndsCode(c, p[0]);
        }
        CodeFirst(c, p);
        assert tokens == [Ctrl(c)] + rest;
    }
  }

  lemma LexNone()
    ensures Lex("") == []
  {
  }

  /** The first printed character is the first token's. */
  lemma PrintStarts(tokens: seq<Token>)
    requires CanonTokens(tokens)
    ensures tokens == [] ==> PrintTokens(tokens) == ""
    ensures tokens != [] && tokens[0].Txt? ==>
      tokens[0].text != "" && PrintTokens(tokens) != "" && PrintTokens(tokens)[0] == tokens[0].text[0]
    ensures tokens != [] && tokens[0].Ctrl? ==> CtrlFirst(PrintTokens(tokens)) && tokens[0].code != ""
  {
  }

  // ---------- what is lost when a code runs into text ----------

  /** Visible characters in a token list. */
  function Visible(tokens: seq<Token>): nat {
    if tokens == [] then 0 else (if tokens[0].Txt? then |tokens[0].text| else 0) + Visible(tokens[1..])
  }

  lemma {:induction false} InterpLength(tokens: seq<Token>, st: Style)
    ensures |Interp(tokens, st)| == Visible(tokens)
  {
    hide ApplyCtrl;
    if tokens != [] {
      InterpLength(tokens[1..], if tokens[0].Ctrl? then ApplyCtrl(st, tokens[0].code) else st);
    }
  }

  lemma VisibleWithText(t: string, tokens: seq<Token>)
    ensures Visible(WithText(t, tokens)) == |t| + Visible(tokens)
  {
    if tokens != [] && tokens[0].Txt? {
      assert ([Txt(t + tokens[0].text)] + tokens[1..])[1..] == tokens[1..];
    } else {
      assert ([Txt(t)] + tokens)[1..] == tokens;
    }
  }

  lemma {:induction false} LeadingAtLeast(hex: bool, a: string, b: string, max: nat)
    requires if hex then AllHex(a) else AllDigits(a)
    requires |a| <= max
    ensures Leading(hex, a + b, max) >= |a|
    ensures |a| < max && b != "" && (if hex then IsHex(b[0]) else IsDigit(b[0])) ==> Leading(hex, a + b, max) > |a|
  {
    if a == "" {
      assert a + b == b;
    } else {
      assert (a + b)[1..] == a[1..] + b;
      LeadingAtLeast(hex, a[1..], b, max - 1);
    }
  }

  lemma DecimalUses(spec: string, rest: string)
    requires CanonDecimal(spec)
    ensures var used := DecimalSpec(spec + rest).1;
      && used >= |spec|
      && (rest != "" && Continues([COLOR] + spec, rest[0]) ==> used > |spec|)
  {
    var s := spec + rest;
    if spec == "" {
      assert s == rest;
    } else {
      var fg, more := spec[..2], spec[2..] + rest;
      assert s == fg + more;
      LeadingAtLeast(false, fg, more, 2);
      if |spec| > 2 {
        var bg := spec[3..];
        assert s[3..] == bg + rest;
        LeadingAtLeast(false, bg, rest, 2);
      }
    }
  }

  lemma HexUses(spec: string, rest: string)
    requires CanonHex(spec)
    ensures var used := HexSpec(spec + rest).1;
      && used >= |spec|
      && (rest != "" && Continues([HEXCOLOR] + spec, rest[0]) ==> used > |spec|)
  {
    var s := spec + rest;
    if spec == "" {
      assert s == rest;
    } else {
      var fg, more := spec[..6], spec[6..] + rest;
      assert s == fg + more;
      LeadingAtLeast(true, fg, more, 6);
      if |spec| > 6 {
        var bg := spec[7..];
        assert s[7..] == bg + rest;
        LeadingAtLeast(true, bg, rest, 6);
      }
    }
  }

  /** Behind its first character, a code takes up no control character. */
  lemma CodeIsTight(s: string)
    requires s != "" && IsCtrl(s[0])
    ensures NoCtrl(s[1..CodeAt(s).1])
  {
    var t := s[1..];
    var used := CodeAt(s).1;
    assert s[1..used] == t[..used - 1];
    if s[0] == COLOR {
      DecimalIsTight(t);
    } else if s[0] == HEXCOLOR {
      HexIsTight(t);
    }
  }

  lemma DecimalIsTight(t: string)
    ensures NoCtrl(t[..DecimalSpec(t).1])
  {
    var n := Leading(false, t, 2);
    if 0 < n < |t| && t[n] == ',' {
      var m := Leading(false, t[n + 1..], 2);
      assert t[..n + 1 + m] == t[..n] + "," + t[n + 1..][..m];
    }
  }

  lemma HexIsTight(t: string)
    ensures NoCtrl(t[..HexSpec(t).1])
  {
    var n := Leading(true, t, 6);
    if n == 6 < |t| && t[6] == ',' {
      var m := Leading(true, t[7..], 6);
      assert t[..7 + m] == t[..6] + "," + t[7..][..m];
    }
  }

  /** However a code is read, at least its own characters are used up, and beyond those only
      characters that are no control characters; at least one when the next one continues it. */
  lemma CodeUses(code: string, rest: string)
    requires CanonCode(code)
    ensures var used := CodeAt(code + rest).1;
      && used >= |code|
      && (rest != "" && Continues(code, rest[0]) ==> used > |code|)
      && NoCtrl(rest[..used - |code|])
  {
    hide DecimalSpec, HexSpec, CanonDecimal, CanonHex;
    var spec := code[1..];
    var s := code + rest;
    assert s[1..] == spec + rest && code == [code[0]] + spec;
    CodeIsTight(s);
    if code[0] == COLOR {
      DecimalUses(spec, rest);
    } else if code[0] == HEXCOLOR {
      HexUses(spec, rest);
    }
    var used := CodeAt(s).1;
    assert rest[..used - |code|] == s[1..used][|code| - 1..];
  }

  /** A run of ordinary characters at the head of printed canonical tokens lies inside the first
      token, which is a text. Dropping it leaves canonical tokens with that much less text. */
  lemma DropText(tokens: seq<Token>, k: nat) returns (left: seq<Token>)
    requires CanonTokens(tokens)
    requires k <= |PrintTokens(tokens)| && NoCtrl(PrintTokens(tokens)[..k])
    ensures CanonTokens(left) && |left| <= |tokens|
    ensures PrintTokens(left) == PrintTokens(tokens)[k..]
    ensures Visible(left) + k == Visible(tokens)
    ensures k == 0 ==> left == tokens
  {
    hide CanonCode, IsCtrl;
    var p := PrintTokens(tokens);
    PrintStarts(tokens);
    if k == 0 {
      return tokens;
    }
    assert !IsCtrl(p[..k][0]);
    var t, rest := tokens[0].text, tokens[1..];
    var q := PrintTokens(rest);
    assert p == t + q;
    PrintStarts(rest);
    var j := if k > |t| then |t| else 0;
    assert p[..k][j] == p[j] && !IsCtrl(p[j]);
    if k >= |t| {
      assert p[k..] == q;
      return rest;
    }
    left := [Txt(t[k..])] + rest;
    CanonCons(left[0], rest);
    assert left[1..] == rest && p[k..] == t[k..] + q;
  }

  lemma CleanTail(tokens: seq<Token>)
    requires tokens != [] && !Sticky(tokens, 0) && !Clean(tokens)
    ensures !Clean(tokens[1..])
  {
    var i :| 0 <= i < |tokens| && Sticky(tokens, i);
    assert Sticky(tokens[1..], i - 1);
  }

  lemma LexCode(s: string)
    requires CtrlFirst(s)
    ensures Lex(s) == [Ctrl(CodeAt(s).0)] + Lex(s[CodeAt(s).1..])
  {
  }

  /** Printing and tokenizing again never makes text appear, and loses some exactly when a code
      runs into the text behind it. */
  lemma {:induction false} LexLoss(tokens: seq<Token>)
    requires CanonTokens(tokens)
    ensures Visible(Lex(PrintTokens(tokens))) <= Visible(tokens)
    ensures !Clean(tokens) ==> Visible(Lex(PrintTokens(tokens))) < Visible(tokens)
    decreases |tokens|
  {
    hide Lex, CanonCode, Continues, CodeAt;
    if tokens == [] {
      LexNone();
    } else {
      var rest := tokens[1..];
      var p := PrintTokens(rest);
      match tokens[0]
      case Txt(t) =>
        TextFirst(t, p);
        VisibleWithText(t, Lex(p));
        LexLoss(rest);
        if !Clean(tokens) {
          CleanTail(tokens);
        }
      case Ctrl(c) =>
        CodeUses(c, p);
        CodeHead(c);
        assert (c + p)[0] == c[0];
        var used := CodeAt(c + p).1;
        LexCode(c + p);
        assert (c + p)[used..] == p[used - |c|..];
        var left := DropText(rest, used - |c|);
        LexLoss(left);
        PrintStarts(rest);
        if used == |c| {
          if !Clean(tokens) {
            assert !Sticky(tokens, 0);
            CleanTail(tokens);
          }
        }
    }
  }

  /** Tokenizing, printing and tokenizing again: a fixed point exactly when no code runs into text. */
  lemma LexPrintIff(tokens: seq<Token>)
    requires CanonTokens(tokens)
    ensures Lex(PrintTokens(tokens)) == tokens <==> Clean(tokens)
  {
    if Clean(tokens) {
      LexPrint(tokens);
    } else {
      LexLoss(tokens);
    }
  }

  /** A foreground-only hex code whose text starts with a comma. */
  predicate CommaAfterHex(tokens: seq<Token>, i: nat)
    requires i < |tokens|
  {
    && i + 1 < |tokens| && tokens[i].Ctrl? && tokens[i + 1].Txt?
    && |tokens[i].code| == 7 && tokens[i].code[0] == HEXCOLOR
    && tokens[i + 1].text != "" && tokens[i + 1].text[0] == ','
  }

  /** No character behind a decimal code would have been read into it. */
  lemma DecimalIsMaximal(t: string)
    ensures var (spec, used) := DecimalSpec(t);
      used < |t| ==> !Continues([COLOR] + spec, t[used])
  {
    var n := Leading(false, t, 2);
    if n > 0 {
      TwoDigitsShape(t[..n]);
      if n < |t| && t[n] == ',' {
        var m := Leading(false, t[n + 1..], 2);
        var bg := t[n + 1..n + 1 + m];
        assert bg == t[n + 1..][..m];
        assert n + 1 + m < |t| ==> t[n + 1 + m] == t[n + 1..][m];
        if m > 0 {
          TwoDigitsShape(bg);
        }
      }
    }
  }

  /** The tokenizer reads every code as far as it goes; the one thing it can leave behind that
      would continue a code is a second comma after a full foreground colour. */
  lemma CodeIsMaximal(s: string)
    requires s != "" && IsCtrl(s[0])
    ensures var (code, used) := CodeAt(s);
      used < |s| && Continues(code, s[used]) ==> code[0] == HEXCOLOR && |code| == 7
  {
    hide DecimalSpec;
    var t := s[1..];
    var (code, used) := CodeAt(s);
    assert used < |s| ==> s[used] == t[used - 1];
    if s[0] == COLOR {
      DecimalIsMaximal(t);
    }
  }

  lemma LexHead(s: string)
    ensures s != "" && IsCtrl(s[0]) ==> Lex(s) != [] && Lex(s)[0].Ctrl?
    ensures s != "" && !IsCtrl(s[0]) ==>
      Lex(s) != [] && Lex(s)[0].Txt? && Lex(s)[0].text != "" && Lex(s)[0].text[0] == s[0]
    ensures s == "" ==> Lex(s) == []
  {
    hide CodeAt;
  }

  lemma {:induction false} LexSeams(s: string)
    ensures forall i | 0 <= i < |Lex(s)| :: Sticky(Lex(s), i) ==> CommaAfterHex(Lex(s), i)
    decreases |s|
  {
    hide CodeAt, Continues;
    if s != "" {
      if IsCtrl(s[0]) {
        var (code, used) := CodeAt(s);
        var rest := s[used..];
        LexSeams(rest);
        LexHead(rest);
        CodeIsMaximal(s);
        var all := Lex(s);
        assert all == [Ctrl(code)] + Lex(rest);
        forall i | 0 <= i < |all| && Sticky(all, i)
          ensures CommaAfterHex(all, i)
        {
          if i > 0 {
            assert Sticky(Lex(rest), i - 1);
          } else {
            HexContinues(code, rest[0]);
          }
        }
      } else {
        LexSeams(s[1..]);
        var tail := Lex(s[1..]);
        var all := Lex(s);
        var shift := if tail != [] && tail[0].Txt? then 0 else 1;
        forall i | 0 <= i < |all| && Sticky(all, i)
          ensures CommaAfterHex(all, i)
        {
          assert i >= 1;
          assert Sticky(tail, i - shift);
        }
      }
    }
  }

  lemma HexContinues(code: string, next: char)
    requires |code| == 7 && code[0] == HEXCOLOR
    ensures Continues(code, next) <==> next == ','
  {
  }

  /** Normalizing a text by printing its tokens is stable exactly when no foreground-only hex
      colour is followed by text that starts with a comma. */
  lemma LexStableIff(s: string)
    ensures Lex(PrintTokens(Lex(s))) == Lex(s)
      <==> forall i | 0 <= i < |Lex(s)| :: !CommaAfterHex(Lex(s), i)
  {
    hide Lex, CanonTokens, Continues;
    var tokens := Lex(s);
    LexIsCanon(s);
    LexSeams(s);
    LexPrintIff(tokens);
    forall i | 0 <= i < |tokens| && CommaAfterHex(tokens, i)
      ensures Sticky(tokens, i)
    {
      HexContinues(tokens[i].code, ',');
    }
  }

  /** The exception happens, with every colour: the first comma is dropped, so printing puts the
      second one where it will be dropped in turn. */
  lemma SecondCommaUnstable(fg: string)
    requires |fg| == 6 && AllHex(fg)
    ensures var s := [HEXCOLOR] + (fg + ",,x");
      Lex(s) == [Ctrl([HEXCOLOR] + fg), Txt(",x")] && Lex(PrintTokens(Lex(s))) != Lex(s)
  {
    hide Lex;
    var s := [HEXCOLOR] + (fg + ",,x");
    var code := [HEXCOLOR] + fg;
    assert s[1..] == fg + ",,x";
    LeadingFull(true, fg, ",,x", 6);
    LeadingExact(true, "", ",x", 6);
    assert s[1..][7..] == ",x" == "" + ",x";
    assert CodeAt(s) == (code, 8);
    LexCode(s);
    assert s[8..] == ",x";
    TextFirst(",x", "");
    LexNone();
    assert ",x" + "" == ",x";
    LexStableIff(s);
    assert CommaAfterHex(Lex(s), 0);
  }

  // ---------- merged tokens ----------

  /** Neighbouring texts merged, empty ones gone. */
  function Merge(tokens: seq<Token>): seq<Token> {
    if tokens == [] then []
    else if tokens[0].Txt? then WithText(tokens[0].text, Merge(tokens[1..]))
    else [tokens[0]] + Merge(tokens[1..])
  }

  predicate Sound(tokens: seq<Token>) {
    forall i | 0 <= i < |tokens| ::
      if tokens[i].Txt? then NoCtrl(tokens[i].text) else CanonCode(tokens[i].code)
  }

  lemma PrintWithText(t: string, tokens: seq<Token>)
    ensures PrintTokens(WithText(t, tokens)) == t + PrintTokens(tokens)
  {
    if t == "" {
      assert "" + PrintTokens(tokens) == PrintTokens(tokens);
    } else if tokens != [] && tokens[0].Txt? {
      assert ([Txt(t + tokens[0].text)] + tokens[1..])[1..] == tokens[1..];
      Assoc(t, tokens[0].text, PrintTokens(tokens[1..]));
    } else {
      assert ([Txt(t)] + tokens)[1..] == tokens;
    }
  }

  lemma StyledConcat(a: string, b: string, st: Style)
    ensures Styled(a + b, st) == Styled(a, st) + Styled(b, st)
  {
  }

  lemma InterpWithText(t: string, tokens: seq<Token>, st: Style)
    ensures Interp(WithText(t, tokens), st) == Styled(t, st) + Interp(tokens, st)
    ensures EndStyle(WithText(t, tokens), st) == EndStyle(tokens, st)
  {
    hide ApplyCtrl;
    if t == "" {
      assert Styled("", st) + Interp(tokens, st) == Interp(tokens, st);
    } else if tokens != [] && tokens[0].Txt? {
      assert ([Txt(t + tokens[0].text)] + tokens[1..])[1..] == tokens[1..];
      StyledConcat(t, tokens[0].text, st);
      Assoc(Styled(t, st), Styled(tokens[0].text, st), Interp(tokens[1..], st));
    } else {
      assert ([Txt(t)] + tokens)[1..] == tokens;
    }
  }

  lemma CanonWithText(t: string, tokens: seq<Token>)
    requires NoCtrl(t) && CanonTokens(tokens)
    ensures CanonTokens(WithText(t, tokens))
  {
    hide CanonCode, IsCtrl;
    if t != "" {
      if tokens != [] && tokens[0].Txt? {
        CanonCons(Txt(t + tokens[0].text), tokens[1..]);
      } else {
        CanonCons(Txt(t), tokens);
      }
    }
  }

  /** Merging changes neither the printed text nor its meaning, and makes the tokens canonical. */
  lemma {:induction false} MergeFacts(tokens: seq<Token>, st: Style)
    ensures PrintTokens(Merge(tokens)) == PrintTokens(tokens)
    ensures Interp(Merge(tokens), st) == Interp(tokens, st)
    ensures EndStyle(Merge(tokens), st) == EndStyle(tokens, st)
    ensures Sound(tokens) ==> CanonTokens(Merge(tokens))
  {
    hide ApplyCtrl, CanonCode, WithText, NoCtrl;
    if tokens != [] {
      var rest := Merge(tokens[1..]);
      if tokens[0].Txt? {
        MergeFacts(tokens[1..], st);
        PrintWithText(tokens[0].text, rest);
        InterpWithText(tokens[0].text, rest, st);
        if Sound(tokens) {
          assert Sound(tokens[1..]);
          CanonWithText(tokens[0].text, rest);
        }
      } else {
        MergeFacts(tokens[1..], ApplyCtrl(st, tokens[0].code));
        assert ([tokens[0]] + rest)[1..] == rest;
        if Sound(tokens) {
          assert Sound(tokens[1..]);
          CanonCons(tokens[0], rest);
        }
      }
    }
  }

  // ---------- reading on behind a text ----------

  /** Text that no code before it could read into. */
  predicate Inert(w: string) {
    w == "" || (!IsDigit(w[0]) && !IsHex(w[0]) && w[0] != ',')
  }

  lemma {:induction false} LeadingStable(hex: bool, s: string, w: string, max: nat)
    requires Inert(w)
    ensures Leading(hex, s + w, max) == Leading(hex, s, max)
  {
    if s == "" {
      assert s + w == w;
    } else if max > 0 {
      assert (s + w)[1..] == s[1..] + w;
      LeadingStable(hex, s[1..], w, max - 1);
    }
  }

  lemma DecimalStable(s: string, w: string)
    requires Inert(w)
    ensures DecimalSpec(s + w) == DecimalSpec(s)
  {
    hide Leading;
    LeadingStable(false, s, w, 2);
    var n := Leading(false, s, 2);
    assert (s + w)[..n] == s[..n];
    if n < |s| && s[n] == ',' {
      assert (s + w)[n + 1..] == s[n + 1..] + w;
      LeadingStable(false, s[n + 1..], w, 2);
      var m := Leading(false, s[n + 1..], 2);
      assert (s + w)[n + 1..n + 1 + m] == s[n + 1..n + 1 + m];
    }
  }

  lemma HexStable(s: string, w: string)
    requires Inert(w)
    ensures HexSpec(s + w) == HexSpec(s)
  {
    hide Leading;
    LeadingStable(true, s, w, 6);
    if Leading(true, s, 6) == 6 {
      assert (s + w)[..6] == s[..6];
      if 6 < |s| && s[6] == ',' {
        assert (s + w)[7..] == s[7..] + w;
        LeadingStable(true, s[7..], w, 6);
        if |s| >= 13 {
          assert (s + w)[7..13] == s[7..13];
        }
      }
    }
  }

  lemma CodeStable(s: string, w: string)
    requires CtrlFirst(s) && Inert(w)
    ensures CodeAt(s + w) == CodeAt(s)
  {
    hide DecimalSpec, HexSpec;
    assert (s + w)[1..] == s[1..] + w && (s + w)[0] == s[0];
    DecimalStable(s[1..], w);
    HexStable(s[1..], w);
  }

  /** Reading a text with inert text behind it is reading one and then the other. */
  lemma {:induction false} LexAppend(s: string, w: string, st: Style)
    requires Inert(w)
    ensures Interp(Lex(s + w), st) == Interp(Lex(s), st) + Interp(Lex(w), EndStyle(Lex(s), st))
    ensures EndStyle(Lex(s + w), st) == EndStyle(Lex(w), EndStyle(Lex(s), st))
    decreases |s|
  {
    hide CodeAt, ApplyCtrl, WithText;
    if s == "" {
      assert s + w == w;
    } else if IsCtrl(s[0]) {
      var (code, used) := CodeAt(s);
      CodeStable(s, w);
      LexCode(s);
      LexCode(s + w);
      assert (s + w)[used..] == s[used..] + w;
      LexAppend(s[used..], w, ApplyCtrl(st, code));
      CodeThenRest(code, Lex(s[used..]), st);
      CodeThenRest(code, Lex(s[used..] + w), st);
    } else {
      assert (s + w)[1..] == s[1..] + w && (s + w)[0] == s[0];
      LexAppend(s[1..], w, st);
      InterpWithText([s[0]], Lex(s[1..]), st);
      InterpWithText([s[0]], Lex(s[1..] + w), st);
      Assoc(Styled([s[0]], st), Interp(Lex(s[1..]), st), Interp(Lex(w), EndStyle(Lex(s[1..]), st)));
    }
  }

  lemma CodeThenRest(code: string, rest: seq<Token>, st: Style)
    ensures Interp([Ctrl(code)] + rest, st) == Interp(rest, ApplyCtrl(st, code))
    ensures EndStyle([Ctrl(code)] + rest, st) == EndStyle(rest, ApplyCtrl(st, code))
  {
    hide ApplyCtrl;
    assert ([Ctrl(code)] + rest)[1..] == rest;
  }

  lemma LexPlain(t: string, st: Style)
    requires NoCtrl(t)
    ensures Interp(Lex(t), st) == Styled(t, st) && EndStyle(Lex(t), st) == st
  {
    TextFirst(t, "");
    LexNone();
    assert t + "" == t;
    InterpWithText(t, [], st);
    assert Styled(t, st) + [] == Styled(t, st);
  }

  /** Plain text in front and inert plain text behind show up around the rest, unstyled in front
      and in the final style behind. */
  lemma MeaningAround(lead: string, s: string, tail: string)
    requires NoCtrl(lead) && NoCtrl(tail) && Inert(tail)
    ensures Meaning(lead + (s + tail)) == Styled(lead, PLAIN) + (Meaning(s) + Styled(tail, EndStyle(Lex(s), PLAIN)))
    ensures EndStyle(Lex(lead + (s + tail)), PLAIN) == EndStyle(Lex(s), PLAIN)
  {
    hide Lex, WithText, Styled;
    TextFirst(lead, s + tail);
    InterpWithText(lead, Lex(s + tail), PLAIN);
    LexAppend(s, tail, PLAIN);
    LexPlain(tail, EndStyle(Lex(s), PLAIN));
  }
}
